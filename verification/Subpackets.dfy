/** Binary data subpackets of rzsz/zm.c as functions (ZMODEM Inter Application File Transfer
    Protocol, section 7.4), for either frame check. */
module Subpackets {
  import opened Basics
  import Crc
  import opened Zdle

  /** A frame check: its start, one step, the bytes sent to close it, and the test of a
      receiver that has checked those bytes too. */
  datatype Fcs<!C> = Fcs(init: C, upd: (Byte, C) -> C, size: nat, trailer: C -> Bytes, good: C -> bool)

  function Fold<C>(f: Fcs<C>, data: Bytes, crc: C): C
    decreases |data|
  {
    if data == [] then crc else Fold(f, data[1..], f.upd(data[0], crc))
  }

  ghost predicate Sound<C(!new)>(f: Fcs<C>) {
    forall crc :: |f.trailer(crc)| == f.size && f.good(Fold(f, f.trailer(crc), crc))
  }

  function Fcs16(tab: Crc.Table16): Fcs<bv16> {
    Fcs(0, (b: Byte, crc: bv16) => Crc.Upd16(tab, b, crc), 2, (crc: bv16) => Crc.Trailer16(tab, crc),
      (crc: bv16) => crc == 0)
  }

  function Fcs32(): Fcs<bv32> {
    Fcs(Crc.INIT32, (b: Byte, crc: bv32) => Crc.Upd32(b, crc), 4, (crc: bv32) => Crc.Trailer32(crc),
      (crc: bv32) => crc == Crc.RESIDUE32)
  }

  lemma {:induction false} Fold16(tab: Crc.Table16, data: Bytes, crc: bv16)
    ensures Fold(Fcs16(tab), data, crc) == Crc.Crc16(tab, data, crc)
    decreases |data|
  {
    if data != [] {
      Fold16(tab, data[1..], Crc.Upd16(tab, data[0], crc));
    }
  }

  lemma {:induction false} Fold32(data: Bytes, crc: bv32)
    ensures Fold(Fcs32(), data, crc) == Crc.Crc32(data, crc)
    decreases |data|
  {
    if data != [] {
      Fold32(data[1..], Crc.Upd32(data[0], crc));
    }
  }

  /** The check of a whole packet always comes out right: 0 with any 16-bit table. */
  lemma Fcs16Sound(tab: Crc.Table16)
    ensures Sound(Fcs16(tab))
  {
    forall crc: bv16
      ensures |Fcs16(tab).trailer(crc)| == 2 && Fcs16(tab).good(Fold(Fcs16(tab), Fcs16(tab).trailer(crc), crc))
    {
      Fold16(tab, Crc.Trailer16(tab, crc), crc);
      Crc.Residue16(tab, crc);
    }
  }

  /** ... and 0xDEBB20E3 with cr3tab. */
  lemma Fcs32Sound()
    ensures Sound(Fcs32())
  {
    forall crc: bv32 ensures |Fcs32().trailer(crc)| == 4 && Fcs32().good(Fold(Fcs32(), Fcs32().trailer(crc), crc)) {
      Fold32(Crc.Trailer32(crc), crc);
      Crc.Residue32(crc);
    }
  }

  lemma {:induction false} FoldConcat<C>(f: Fcs<C>, a: Bytes, b: Bytes, crc: C)
    ensures Fold(f, a + b, crc) == Fold(f, b, Fold(f, a, crc))
    decreases |a|
  {
    if a == [] {
      assert a + b == b;
    } else {
      assert (a + b)[1..] == a[1..] + b;
      FoldConcat(f, a[1..], b, f.upd(a[0], crc));
    }
  }

  // ----- Sending -----

  /** The check sent with `data` and the frame end `end`. */
  function CheckOf<C>(f: Fcs<C>, data: Bytes, end: Byte): Bytes {
    f.trailer(Fold(f, data + [end], f.init))
  }

  /** What zsdata and zsda32 write, but for the XON after ZCRCW. */
  function Sent<C>(f: Fcs<C>, e: Escapes, last: Byte, data: Bytes, end: Byte): Bytes {
    Encode(e, last, data) + [ZDLE, end] + Encode(e, LastOf(e, last, data), CheckOf(f, data, end))
  }

  // ----- Receiving -----

  datatype Received = Packet(data: Bytes, end: Byte) | ZCan | Error | TimedOut

  /** zrdata's loop: bytes into the buffer while there is room for `room` more; what stopped
      it, None if the room ran out. */
  function Collect(ctl: bool, s: Bytes, room: nat): (r: (Bytes, Option<Got>, Bytes))
    ensures r.1.Some? ==> !r.1.value.Data?
    decreases room
  {
    if room == 0 then ([], None, s)
    else
      var (got, rest) := Read(ctl, s);
      if got.Data? then
        var (data, stop, left) := Collect(ctl, rest, room - 1);
        ([got.b] + data, stop, left)
      else ([], Some(got), rest)
  }

  /** The crcfoo part: after the byte or code `got`, with `crc` the check so far. */
  function Finish<C>(f: Fcs<C>, ctl: bool, data: Bytes, crc: C, got: Got, s: Bytes): (r: (Received, Bytes))
    requires !got.Data?
    decreases |s|, 1
  {
    match got
    case End(end) => ReadCheck(f, ctl, data, f.upd(end, crc), end, f.size, s)
    case Cancel => (ZCan, s)
    case Timeout => (TimedOut, s)
    case Bad => (Error, s)
  }

  /** Reading `n` more bytes of the check; any code in their place starts crcfoo again. */
  function ReadCheck<C>(f: Fcs<C>, ctl: bool, data: Bytes, crc: C, end: Byte, n: nat, s: Bytes): (r: (Received, Bytes))
    decreases |s|, 0
  {
    if n == 0 then (if f.good(crc) then Packet(data, end) else Error, s)
    else
      var (got, rest) := Read(ctl, s);
      match got
      case Data(b) => ReadCheck(f, ctl, data, f.upd(b, crc), end, n - 1, rest)
      case Timeout => (TimedOut, rest)
      case _ => Finish(f, ctl, data, crc, got, rest)
  }

  /** zrdata and zrdat32 with a buffer of `length` bytes. */
  function Receive<C>(f: Fcs<C>, ctl: bool, s: Bytes, length: nat): (Received, Bytes) {
    var (data, stop, rest) := Collect(ctl, s, length + 1);
    if stop == None then (Error, rest)
    else Finish(f, ctl, data, Fold(f, data, f.init), stop.value, rest)
  }

  lemma {:induction false} CollectTail(ctl: bool, s: Bytes, room: nat)
    ensures IsTail(Collect(ctl, s, room).2, s)
    decreases room
  {
    if room > 0 {
      ReadTail(ctl, s);
      CollectTail(ctl, Read(ctl, s).1, room - 1);
      if Read(ctl, s).0.Data? {
        TailOfTail(Collect(ctl, s, room).2, Read(ctl, s).1, s);
      }
    }
  }

  lemma {:induction false} FinishTail<C>(f: Fcs<C>, ctl: bool, data: Bytes, crc: C, got: Got, s: Bytes)
    requires !got.Data?
    ensures IsTail(Finish(f, ctl, data, crc, got, s).1, s)
    decreases |s|, 1
  {
    match got
    case End(end) => CheckTail(f, ctl, data, f.upd(end, crc), end, f.size, s);
    case _ =>
  }

  lemma {:induction false} CheckTail<C>(f: Fcs<C>, ctl: bool, data: Bytes, crc: C, end: Byte, n: nat, s: Bytes)
    ensures IsTail(ReadCheck(f, ctl, data, crc, end, n, s).1, s)
    decreases |s|, 0
  {
    if n > 0 {
      var (got, rest) := Read(ctl, s);
      ReadTail(ctl, s);
      match got {
        case Data(b) => CheckTail(f, ctl, data, f.upd(b, crc), end, n - 1, rest);
        case Timeout =>
        case _ => FinishTail(f, ctl, data, crc, got, rest);
      }
      if !got.Timeout? {
        TailOfTail(ReadCheck(f, ctl, data, crc, end, n, s).1, rest, s);
      }
    }
  }

  /** zrdata leaves what it does not read. */
  lemma ReceiveTail<C>(f: Fcs<C>, ctl: bool, s: Bytes, length: nat)
    ensures IsTail(Receive(f, ctl, s, length).1, s)
  {
    var (data, stop, rest) := Collect(ctl, s, length + 1);
    CollectTail(ctl, s, length + 1);
    if stop.Some? {
      FinishTail(f, ctl, data, Fold(f, data, f.init), stop.value, rest);
      TailOfTail(Receive(f, ctl, s, length).1, rest, s);
    }
  }

  // ----- The round trip -----

  /** The data is collected byte by byte, whatever noise is on the line. */
  lemma {:induction false} CollectData(e: Escapes, ctl: bool, n: bool, last: Byte, data: Bytes, end: Byte, s: Bytes,
      room: nat, rest: Bytes)
    requires Compatible(e, ctl) && (n ==> ctl) && IsEnd(end) && |data| < room
    requires Strip(n, s) == Encode(e, last, data) + [ZDLE, end] + rest
    ensures var r := Collect(ctl, s, room);
      r.0 == data && r.1 == Some(End(end)) && Strip(n, r.2) == rest
    decreases |data|
  {
    if data == [] {
      assert Encode(e, last, data) + [ZDLE, end] + rest == [ZDLE, end] + rest;
      EndIsClean(ctl, end);
      ReadZdle(ctl, n, s, end, rest);
    } else {
      var tail := Encode(e, LastAfter(e, last, data[0]), data[1..]) + [ZDLE, end] + rest;
      FirstApart(EncodeByte(e, last, data[0]), Encode(e, LastAfter(e, last, data[0]), data[1..]), [ZDLE, end], rest);
      ReadBackByte(e, ctl, n, last, data[0], s, tail);
      CollectData(e, ctl, n, LastAfter(e, last, data[0]), data[1..], end, Read(ctl, s).1, room - 1, rest);
    }
  }

  lemma FirstApart(a: Bytes, b: Bytes, c: Bytes, rest: Bytes)
    ensures (a + b) + c + rest == a + (b + c + rest)
  {
  }

  /** The check bytes are read one by one and folded in. */
  lemma {:induction false} ReadCheckBytes<C>(f: Fcs<C>, e: Escapes, ctl: bool, n: bool, last: Byte, data: Bytes, crc: C,
      end: Byte, check: Bytes, s: Bytes, rest: Bytes)
    requires Compatible(e, ctl) && (n ==> ctl) && f.good(Fold(f, check, crc))
    requires Strip(n, s) == Encode(e, last, check) + rest
    ensures var r := ReadCheck(f, ctl, data, crc, end, |check|, s);
      r.0 == Packet(data, end) && Strip(n, r.1) == rest
    decreases |check|
  {
    if check == [] {
      assert Encode(e, last, check) + rest == rest;
    } else {
      var tail := Encode(e, LastAfter(e, last, check[0]), check[1..]) + rest;
      assert Encode(e, last, check) + rest == EncodeByte(e, last, check[0]) + tail;
      ReadBackByte(e, ctl, n, last, check[0], s, tail);
      ReadCheckBytes(f, e, ctl, n, LastAfter(e, last, check[0]), data, f.upd(check[0], crc), end, check[1..],
        Read(ctl, s).1, rest);
    }
  }

  /** A subpacket of any data that fits the buffer is received as it was sent, whatever was
      sent before it and wherever flow control characters have been put into it. */
  lemma RoundTrip<C(!new)>(f: Fcs<C>, e: Escapes, ctl: bool, n: bool, last: Byte, data: Bytes, end: Byte, length: nat,
      s: Bytes, rest: Bytes)
    requires Sound(f) && Compatible(e, ctl) && (n ==> ctl) && IsEnd(end) && |data| <= length
    requires Strip(n, s) == Sent(f, e, last, data, end) + rest
    ensures Receive(f, ctl, s, length).0 == Packet(data, end)
    ensures Strip(n, Receive(f, ctl, s, length).1) == rest
  {
    var check := CheckOf(f, data, end);
    var tail := Encode(e, LastOf(e, last, data), check) + rest;
    assert Sent(f, e, last, data, end) + rest == Encode(e, last, data) + [ZDLE, end] + tail;
    CollectData(e, ctl, n, last, data, end, s, length + 1, tail);
    var left := Collect(ctl, s, length + 1).2;
    FoldConcat(f, data, [end], f.init);
    assert Fold(f, [end], Fold(f, data, f.init)) == f.upd(end, Fold(f, data, f.init));
    ReadCheckBytes(f, e, ctl, n, LastOf(e, last, data), data, f.upd(end, Fold(f, data, f.init)), end, check, left,
      rest);
  }

  /** What the encoder sends contains no flow control character, nor anything else that a
      compatible receiver passes over. */
  lemma SentIsClean<C>(f: Fcs<C>, e: Escapes, ctl: bool, last: Byte, data: Bytes, end: Byte)
    requires Compatible(e, ctl) && IsEnd(end)
    ensures forall i :: 0 <= i < |Sent(f, e, last, data, end)| ==> !IsFlow(Sent(f, e, last, data, end)[i])
    ensures Strip(ctl, Sent(f, e, last, data, end)) == Sent(f, e, last, data, end)
  {
    var a, b, c := Encode(e, last, data), [ZDLE, end], Encode(e, LastOf(e, last, data), CheckOf(f, data, end));
    EncodeIsClean(e, ctl, last, data);
    EncodeIsClean(e, ctl, LastOf(e, last, data), CheckOf(f, data, end));
    EndIsClean(ctl, end);
    forall i | 0 <= i < |a + b + c| ensures !Ignored(ctl, (a + b + c)[i]) && !IsFlow((a + b + c)[i]) {
      if i < |a| {
        assert (a + b + c)[i] == a[i];
      } else if i < |a + b| {
        assert (a + b + c)[i] == b[i - |a|];
      } else {
        assert (a + b + c)[i] == c[i - |a + b|];
      }
    }
    StripClean(ctl, a + b + c);
  }

  lemma EndIsClean(ctl: bool, end: Byte)
    requires IsEnd(end)
    ensures !Ignored(ctl, end) && !Ignored(ctl, ZDLE) && !IsFlow(end) && !IsFlow(ZDLE)
  {
  }

  /** Flow control is transparent: a line that carries a sent subpacket and more, with XON and
      XOFF put in anywhere, is received like the line without them. */
  lemma FlowTransparent<C(!new)>(f: Fcs<C>, e: Escapes, ctl: bool, last: Byte, data: Bytes, end: Byte, length: nat,
      s: Bytes, tail: Bytes)
    requires Sound(f) && Compatible(e, ctl) && IsEnd(end) && |data| <= length
    requires Strip(false, s) == Sent(f, e, last, data, end) + Strip(false, tail)
    ensures Receive(f, ctl, s, length).0
            == Receive(f, ctl, Sent(f, e, last, data, end) + tail, length).0 == Packet(data, end)
    ensures Strip(ctl, Receive(f, ctl, s, length).1)
            == Strip(ctl, Receive(f, ctl, Sent(f, e, last, data, end) + tail, length).1) == Strip(ctl, tail)
  {
    var sent := Sent(f, e, last, data, end);
    SentIsClean(f, e, ctl, last, data, end);
    StripConcat(ctl, sent, tail);
    StripTwice(ctl, s);
    StripTwice(ctl, tail);
    StripConcat(ctl, sent, Strip(false, tail));
    RoundTrip(f, e, ctl, ctl, last, data, end, length, s, Strip(ctl, tail));
    RoundTrip(f, e, ctl, ctl, last, data, end, length, sent + tail, Strip(ctl, tail));
  }

  /** Taking out the flow control first makes no difference. */
  lemma {:induction false} StripTwice(ctl: bool, s: Bytes)
    ensures Strip(ctl, Strip(false, s)) == Strip(ctl, s)
    decreases |s|
  {
    if s != [] {
      StripTwice(ctl, s[1..]);
      var kept := if Ignored(false, s[0]) then [] else [s[0]];
      StripConcat(ctl, kept, Strip(false, s[1..]));
      assert kept != [] ==> Strip(ctl, kept) == if Ignored(ctl, s[0]) then [] else [s[0]];
    }
  }
}
