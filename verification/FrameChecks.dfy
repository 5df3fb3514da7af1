/** What the receivers of rzsz/zm.c accept and what they refuse, in terms of what zdlread gives
    them one after the other: a packet or a header is taken with its own check and no other. */
module FrameChecks {
  import opened Basics
  import Crc
  import opened Zdle
  import opened Subpackets
  import opened Headers

  // ----- What is read -----

  /** Reading from `s` gives `gots`, one by one, and leaves `rest`. */
  predicate Hears(hex: bool, ctl: bool, s: Bytes, gots: seq<Got>, rest: Bytes)
    decreases |gots|
  {
    if gots == [] then s == rest
    else ReadByte(hex, ctl, s).0 == gots[0] && Hears(hex, ctl, ReadByte(hex, ctl, s).1, gots[1..], rest)
  }

  function Datas(data: Bytes): (gots: seq<Got>)
    ensures |gots| == |data|
  {
    if data == [] then [] else [Data(data[0])] + Datas(data[1..])
  }

  /** The bytes that data and frame ends put into the check. */
  function Plain(gots: seq<Got>): Bytes
    requires forall got :: got in gots ==> got.Data? || got.End?
  {
    if gots == [] then []
    else [if gots[0].Data? then gots[0].b else gots[0].f] + Plain(gots[1..])
  }

  lemma HearsMore(hex: bool, ctl: bool, s: Bytes, got: Got, gots: seq<Got>, rest: Bytes)
    requires ReadByte(hex, ctl, s).0 == got && Hears(hex, ctl, ReadByte(hex, ctl, s).1, gots, rest)
    ensures Hears(hex, ctl, s, [got] + gots, rest)
  {
    assert ([got] + gots)[1..] == gots;
  }

  lemma {:induction false} HearsConcat(hex: bool, ctl: bool, s: Bytes, a: seq<Got>, t: Bytes, b: seq<Got>, rest: Bytes)
    requires Hears(hex, ctl, s, a, t) && Hears(hex, ctl, t, b, rest)
    ensures Hears(hex, ctl, s, a + b, rest)
    decreases |a|
  {
    if a == [] {
      assert a + b == b;
    } else {
      HearsConcat(hex, ctl, ReadByte(hex, ctl, s).1, a[1..], t, b, rest);
      HearsMore(hex, ctl, s, a[0], a[1..] + b, rest);
      assert [a[0]] + (a[1..] + b) == a + b;
    }
  }

  lemma {:induction false} HearsApart(hex: bool, ctl: bool, s: Bytes, a: seq<Got>, b: seq<Got>, rest: Bytes)
    returns (t: Bytes)
    requires Hears(hex, ctl, s, a + b, rest)
    ensures Hears(hex, ctl, s, a, t) && Hears(hex, ctl, t, b, rest)
    decreases |a|
  {
    if a == [] {
      assert a + b == b;
      t := s;
    } else {
      assert (a + b)[1..] == a[1..] + b;
      t := HearsApart(hex, ctl, ReadByte(hex, ctl, s).1, a[1..], b, rest);
    }
  }

  lemma {:induction false} DatasConcat(a: Bytes, b: Bytes)
    ensures Datas(a + b) == Datas(a) + Datas(b)
    decreases |a|
  {
    if a == [] {
      assert a + b == b;
    } else {
      assert (a + b)[1..] == a[1..] + b;
      DatasConcat(a[1..], b);
    }
  }

  // ----- Only its own check is good -----

  /** Of all byte strings of the trailer's length, exactly the trailer passes the test. */
  ghost predicate Exact<C(!new)>(f: Fcs<C>) {
    forall t: Bytes, crc: C :: |t| == f.size ==> (f.good(Fold(f, t, crc)) <==> t == f.trailer(crc))
  }

  lemma Exact16(tab: Crc.Table16)
    ensures Exact(Fcs16(tab))
  {
    forall t: Bytes, crc: bv16 | |t| == 2
      ensures Fold(Fcs16(tab), t, crc) == 0 <==> t == Crc.Trailer16(tab, crc)
    {
      Fold16(tab, t, crc);
      Crc.Residue16(tab, crc);
      assert t == [t[0], t[1]];
      if Crc.Crc16(tab, t, crc) == 0 {
        Crc.OnlyTrailer16(tab, t[0], t[1], crc);
      }
    }
  }

  lemma Exact32()
    ensures Exact(Fcs32())
  {
    forall t: Bytes, crc: bv32 | |t| == 4
      ensures Fold(Fcs32(), t, crc) == Crc.RESIDUE32 <==> t == Crc.Trailer32(crc)
    {
      Fold32(t, crc);
      Crc.Residue32(crc);
      assert t == [t[0], t[1], t[2], t[3]];
      if Crc.Crc32(t, crc) == Crc.RESIDUE32 {
        Crc.OnlyTrailer32(t[0], t[1], t[2], t[3], crc);
      }
    }
  }

  // ----- Subpackets that are accepted -----

  lemma {:induction false} CollectHears(ctl: bool, s: Bytes, room: nat)
    requires Collect(ctl, s, room).1.Some?
    ensures var (data, stop, rest) := Collect(ctl, s, room);
      |data| < room && Hears(false, ctl, s, Datas(data) + [stop.value], rest)
    decreases room
  {
    var (got, left) := Read(ctl, s);
    if got.Data? {
      CollectHears(ctl, left, room - 1);
      var (data, stop, rest) := Collect(ctl, left, room - 1);
      HearsMore(false, ctl, s, got, Datas(data) + [stop.value], rest);
      assert ([got.b] + data)[1..] == data;
      assert [got] + (Datas(data) + [stop.value]) == Datas([got.b] + data) + [stop.value];
    } else {
      HearsMore(false, ctl, s, got, [], left);
      assert [got] + [] == Datas([]) + [got];
    }
  }

  /** Frame ends, each with part of a check, that crcfoo has given up for another. */
  predicate Abandoned(gots: seq<Got>) {
    (gots != [] ==> gots[0].End?) && forall got :: got in gots ==> got.Data? || got.End?
  }

  /** An accepted packet: what has been read after its data, with the frame ends that were given
      up among it, the last frame end and the check. */
  ghost predicate Closed<C(!new)>(f: Fcs<C>, crc: C, gots: seq<Got>, among: seq<Got>, end: Byte, check: Bytes) {
    && gots == among + [End(end)] + Datas(check)
    && |check| == f.size
    && Abandoned(among)
    && f.good(Fold(f, check, f.upd(end, Fold(f, Plain(among), crc))))
  }

  lemma {:induction false} PlainConcat(a: seq<Got>, b: seq<Got>)
    requires (forall got :: got in a ==> got.Data? || got.End?) && (forall got :: got in b ==> got.Data? || got.End?)
    ensures forall got :: got in a + b ==> got.Data? || got.End?
    ensures Plain(a + b) == Plain(a) + Plain(b)
    decreases |a|
  {
    if a == [] {
      assert a + b == b;
    } else {
      assert (a + b)[1..] == a[1..] + b;
      PlainConcat(a[1..], b);
    }
  }

  lemma {:induction false} PlainDatas(data: Bytes)
    ensures forall got :: got in Datas(data) ==> got.Data?
    ensures Plain(Datas(data)) == data
    decreases |data|
  {
    if data != [] {
      assert Datas(data)[1..] == Datas(data[1..]);
      PlainDatas(data[1..]);
    }
  }

  /** A frame end and part of a check, given up for another frame end. */
  lemma GivenUp<C(!new)>(f: Fcs<C>, crc: C, end: Byte, part: Bytes, gots: seq<Got>, among: seq<Got>, e: Byte,
      check: Bytes) returns (longer: seq<Got>)
    requires Closed(f, Fold(f, part, f.upd(end, crc)), gots, among, e, check)
    ensures Closed(f, crc, [End(end)] + (Datas(part) + gots), longer, e, check)
  {
    PlainDatas(part);
    PlainConcat(Datas(part), among);
    PlainConcat([End(end)], Datas(part) + among);
    longer := [End(end)] + (Datas(part) + among);
    assert Plain([End(end)]) == [end];
    assert Plain(longer) == [end] + (part + Plain(among));
    FoldConcat(f, [end], part + Plain(among), crc);
    FoldConcat(f, part, Plain(among), f.upd(end, crc));
    assert Fold(f, [end], crc) == f.upd(end, crc);
    assert [End(end)] + (Datas(part) + gots) == longer + [End(e)] + Datas(check);
  }

  /** The check is read, or given up after a part of it. */
  lemma {:induction false} CheckHears<C(!new)>(f: Fcs<C>, ctl: bool, data: Bytes, crc: C, end: Byte, n: nat, s: Bytes)
    returns (part: Bytes, gots: seq<Got>, among: seq<Got>, check: Bytes)
    requires ReadCheck(f, ctl, data, crc, end, n, s).0.Packet?
    ensures var (r, rest) := ReadCheck(f, ctl, data, crc, end, n, s);
      && r.data == data
      && Hears(false, ctl, s, Datas(part) + gots, rest)
      && if gots == [] then |part| == n && r.end == end && f.good(Fold(f, part, crc))
         else Closed(f, Fold(f, part, crc), gots, among, r.end, check)
    decreases |s|, 0
  {
    part, gots, among, check := [], [], [], [];
    if n > 0 {
      var (got, left) := Read(ctl, s);
      var (r, rest) := ReadCheck(f, ctl, data, crc, end, n, s);
      if got.Data? {
        part, gots, among, check := CheckHears(f, ctl, data, f.upd(got.b, crc), end, n - 1, left);
        HearsMore(false, ctl, s, got, Datas(part) + gots, rest);
        assert ([got.b] + part)[1..] == part;
        assert [got] + (Datas(part) + gots) == Datas([got.b] + part) + gots;
        part := [got.b] + part;
      } else {
        var tail;
        tail, among, check := FinishHears(f, ctl, data, crc, got, left);
        HearsMore(false, ctl, s, got, tail, rest);
        gots := [got] + tail;
        assert Datas([]) + gots == gots;
      }
    }
  }

  lemma {:induction false} FinishHears<C(!new)>(f: Fcs<C>, ctl: bool, data: Bytes, crc: C, got: Got, s: Bytes)
    returns (tail: seq<Got>, among: seq<Got>, check: Bytes)
    requires !got.Data? && Finish(f, ctl, data, crc, got, s).0.Packet?
    ensures var (r, rest) := Finish(f, ctl, data, crc, got, s);
      r.data == data && Hears(false, ctl, s, tail, rest) && Closed(f, crc, [got] + tail, among, r.end, check)
    decreases |s|, 1
  {
    var part, gots;
    part, gots, among, check := CheckHears(f, ctl, data, f.upd(got.f, crc), got.f, f.size, s);
    tail := Datas(part) + gots;
    if gots == [] {
      among, check := [], part;
      assert [got] + tail == [] + [got] + Datas(part);
    } else {
      among := GivenUp(f, crc, got.f, part, gots, among, Finish(f, ctl, data, crc, got, s).0.end, check);
    }
  }

  /** A packet that is accepted has been read with its own check, over everything read of it. */
  lemma Accepted<C(!new)>(f: Fcs<C>, ctl: bool, s: Bytes, length: nat) returns (among: seq<Got>, check: Bytes)
    requires Exact(f) && Receive(f, ctl, s, length).0.Packet?
    ensures var (r, rest) := Receive(f, ctl, s, length);
      && |r.data| <= length && |check| == f.size
      && Hears(false, ctl, s, Datas(r.data) + (among + [End(r.end)] + Datas(check)), rest)
      && Abandoned(among)
      && check == f.trailer(Fold(f, r.data + Plain(among) + [r.end], f.init))
  {
    var (data, stop, left) := Collect(ctl, s, length + 1);
    CollectHears(ctl, s, length + 1);
    var (r, rest) := Receive(f, ctl, s, length);
    var tail;
    tail, among, check := FinishHears(f, ctl, data, Fold(f, data, f.init), stop.value, left);
    HearsConcat(false, ctl, s, Datas(data) + [stop.value], left, tail, rest);
    Regrouped(Datas(data), stop.value, tail, among, End(r.end), Datas(check));
    Folded(f, data, Plain(among), r.end);
  }

  lemma Regrouped(data: seq<Got>, stop: Got, tail: seq<Got>, among: seq<Got>, end: Got, check: seq<Got>)
    requires [stop] + tail == among + [end] + check
    ensures data + [stop] + tail == data + (among + [end] + check)
  {
    assert data + [stop] + tail == data + ([stop] + tail);
  }

  lemma Folded<C>(f: Fcs<C>, data: Bytes, more: Bytes, end: Byte)
    ensures Fold(f, data + more + [end], f.init) == f.upd(end, Fold(f, more, Fold(f, data, f.init)))
  {
    FoldConcat(f, data + more, [end], f.init);
    FoldConcat(f, data, more, f.init);
    assert Fold(f, [end], Fold(f, data + more, f.init)) == f.upd(end, Fold(f, data + more, f.init));
  }

  // ----- Subpackets read in one go -----

  lemma {:induction false} Collects(ctl: bool, s: Bytes, data: Bytes, end: Byte, rest: Bytes, room: nat)
    requires Hears(false, ctl, s, Datas(data) + [End(end)], rest) && |data| < room
    ensures Collect(ctl, s, room) == (data, Some(End(end)), rest)
    decreases |data|
  {
    var gots := Datas(data) + [End(end)];
    if data != [] {
      assert gots[1..] == Datas(data[1..]) + [End(end)];
      Collects(ctl, Read(ctl, s).1, data[1..], end, rest, room - 1);
      assert [data[0]] + data[1..] == data;
    }
  }

  lemma {:induction false} Checks<C>(f: Fcs<C>, ctl: bool, data: Bytes, crc: C, end: Byte, s: Bytes, check: Bytes,
      rest: Bytes)
    requires Hears(false, ctl, s, Datas(check), rest)
    ensures ReadCheck(f, ctl, data, crc, end, |check|, s)
      == (if f.good(Fold(f, check, crc)) then Packet(data, end) else Error, rest)
    decreases |check|
  {
    if check != [] {
      assert Datas(check)[1..] == Datas(check[1..]);
      Checks(f, ctl, data, f.upd(check[0], crc), end, Read(ctl, s).1, check[1..], rest);
    }
  }

  /** Data, a frame end and as many bytes as the check has: accepted exactly if these are it. */
  lemma AcceptedIff<C(!new)>(f: Fcs<C>, ctl: bool, s: Bytes, length: nat, data: Bytes, end: Byte, check: Bytes,
      rest: Bytes)
    requires Exact(f) && |data| <= length && |check| == f.size
    requires Hears(false, ctl, s, Datas(data) + [End(end)] + Datas(check), rest)
    ensures Receive(f, ctl, s, length)
      == (if check == f.trailer(Fold(f, data + [end], f.init)) then Packet(data, end) else Error, rest)
  {
    var t := HearsApart(false, ctl, s, Datas(data) + [End(end)], Datas(check), rest);
    Collects(ctl, s, data, end, t, length + 1);
    Checks(f, ctl, data, f.upd(end, Fold(f, data, f.init)), end, t, check, rest);
    Folded(f, data, [], end);
    assert data + [] + [end] == data + [end];
  }

  /** zrdata: the two check bytes are those of the data and the frame end, by the table in use
      and starting from 0, or the packet is refused. */
  lemma ReceivedIff16(tab: Crc.Table16, ctl: bool, s: Bytes, length: nat, data: Bytes, end: Byte, check: Bytes,
      rest: Bytes)
    requires |data| <= length && |check| == 2
    requires Hears(false, ctl, s, Datas(data) + [End(end)] + Datas(check), rest)
    ensures Receive(Fcs16(tab), ctl, s, length)
      == (if check == Crc.Trailer16(tab, Crc.Crc16(tab, data + [end], 0)) then Packet(data, end) else Error, rest)
  {
    Exact16(tab);
    AcceptedIff(Fcs16(tab), ctl, s, length, data, end, check, rest);
    Fold16(tab, data + [end], 0);
  }

  /** zrdat32: the same with four bytes, starting from all ones. */
  lemma ReceivedIff32(ctl: bool, s: Bytes, length: nat, data: Bytes, end: Byte, check: Bytes, rest: Bytes)
    requires |data| <= length && |check| == 4
    requires Hears(false, ctl, s, Datas(data) + [End(end)] + Datas(check), rest)
    ensures Receive(Fcs32(), ctl, s, length)
      == (if check == Crc.Trailer32(Crc.Crc32(data + [end], 0xFFFF_FFFF)) then Packet(data, end) else Error, rest)
  {
    Exact32();
    AcceptedIff(Fcs32(), ctl, s, length, data, end, check, rest);
    Fold32(data + [end], 0xFFFF_FFFF);
  }

  /** Whatever the line: a packet that zrdata accepts was read with those bytes. What zdlread
      gives after the data counts too, if a frame end in the check made it start over. */
  lemma ReceivedMeans16(tab: Crc.Table16, ctl: bool, s: Bytes, length: nat) returns (among: seq<Got>, check: Bytes)
    requires Receive(Fcs16(tab), ctl, s, length).0.Packet?
    ensures var (r, rest) := Receive(Fcs16(tab), ctl, s, length);
      && |r.data| <= length && |check| == 2
      && Hears(false, ctl, s, Datas(r.data) + (among + [End(r.end)] + Datas(check)), rest)
      && Abandoned(among)
      && check == Crc.Trailer16(tab, Crc.Crc16(tab, r.data + Plain(among) + [r.end], 0))
  {
    Exact16(tab);
    among, check := Accepted(Fcs16(tab), ctl, s, length);
    var r := Receive(Fcs16(tab), ctl, s, length).0;
    Fold16(tab, r.data + Plain(among) + [r.end], 0);
  }

  lemma ReceivedMeans32(ctl: bool, s: Bytes, length: nat) returns (among: seq<Got>, check: Bytes)
    requires Receive(Fcs32(), ctl, s, length).0.Packet?
    ensures var (r, rest) := Receive(Fcs32(), ctl, s, length);
      && |r.data| <= length && |check| == 4
      && Hears(false, ctl, s, Datas(r.data) + (among + [End(r.end)] + Datas(check)), rest)
      && Abandoned(among)
      && check == Crc.Trailer32(Crc.Crc32(r.data + Plain(among) + [r.end], 0xFFFF_FFFF))
  {
    Exact32();
    among, check := Accepted(Fcs32(), ctl, s, length);
    var r := Receive(Fcs32(), ctl, s, length).0;
    Fold32(r.data + Plain(among) + [r.end], 0xFFFF_FFFF);
  }

  // ----- Damage -----

  /** One byte of the check changed: an error, with either check. */
  lemma CheckDamaged16(tab: Crc.Table16, ctl: bool, s: Bytes, t: Bytes, length: nat, data: Bytes, end: Byte,
      check: Bytes, i: nat, b: Byte, left: Bytes, rest: Bytes)
    requires |data| <= length && |check| == 2 && i < 2 && b != check[i]
    requires Hears(false, ctl, s, Datas(data) + [End(end)] + Datas(check), left)
    requires Receive(Fcs16(tab), ctl, s, length).0.Packet?
    requires Hears(false, ctl, t, Datas(data) + [End(end)] + Datas(check[i := b]), rest)
    ensures Receive(Fcs16(tab), ctl, t, length) == (Error, rest)
  {
    ReceivedIff16(tab, ctl, s, length, data, end, check, left);
    ReceivedIff16(tab, ctl, t, length, data, end, check[i := b], rest);
    assert check[i := b][i] != check[i];
  }

  lemma CheckDamaged32(ctl: bool, s: Bytes, t: Bytes, length: nat, data: Bytes, end: Byte,
      check: Bytes, i: nat, b: Byte, left: Bytes, rest: Bytes)
    requires |data| <= length && |check| == 4 && i < 4 && b != check[i]
    requires Hears(false, ctl, s, Datas(data) + [End(end)] + Datas(check), left)
    requires Receive(Fcs32(), ctl, s, length).0.Packet?
    requires Hears(false, ctl, t, Datas(data) + [End(end)] + Datas(check[i := b]), rest)
    ensures Receive(Fcs32(), ctl, t, length) == (Error, rest)
  {
    ReceivedIff32(ctl, s, length, data, end, check, left);
    ReceivedIff32(ctl, t, length, data, end, check[i := b], rest);
    assert check[i := b][i] != check[i];
  }

  /** So with one byte of the data or the frame end changed and the check as it was, by the
      32-bit check. */
  lemma DataDamaged32(ctl: bool, s: Bytes, t: Bytes, length: nat, data: Bytes, end: Byte, other: Bytes, end': Byte,
      check: Bytes, left: Bytes, rest: Bytes)
    requires |data| <= length && |check| == 4 && OneChanged(data + [end], other + [end'])
    requires Hears(false, ctl, s, Datas(data) + [End(end)] + Datas(check), left)
    requires Receive(Fcs32(), ctl, s, length).0.Packet?
    requires Hears(false, ctl, t, Datas(other) + [End(end')] + Datas(check), rest)
    ensures Receive(Fcs32(), ctl, t, length) == (Error, rest)
  {
    ReceivedIff32(ctl, s, length, data, end, check, left);
    ReceivedIff32(ctl, t, length, other, end', check, rest);
    ChangeShows(data + [end], other + [end'], 0xFFFF_FFFF);
    TrailersDiffer(Crc.Crc32(data + [end], 0xFFFF_FFFF), Crc.Crc32(other + [end'], 0xFFFF_FFFF));
  }

  /** The same bytes but for one. */
  predicate OneChanged(a: Bytes, b: Bytes) {
    |a| == |b| && exists i :: 0 <= i < |a| && b[i] != a[i] && b == a[i := b[i]]
  }

  lemma ChangeShows(a: Bytes, b: Bytes, crc: bv32)
    requires OneChanged(a, b)
    ensures Crc.Crc32(a, crc) != Crc.Crc32(b, crc)
  {
    var i :| 0 <= i < |a| && b[i] != a[i] && b == a[i := b[i]];
    assert b[..i] == a[..i] && b[i + 1..] == a[i + 1..];
    ChangeAt(a, b, i, crc);
  }

  lemma {:induction false} ChangeAt(a: Bytes, b: Bytes, i: nat, crc: bv32)
    requires i < |a| == |b| && a[..i] == b[..i] && a[i] != b[i] && a[i + 1..] == b[i + 1..]
    ensures Crc.Crc32(a, crc) != Crc.Crc32(b, crc)
    decreases i
  {
    if i == 0 {
      if Crc.Upd32(a[0], crc) == Crc.Upd32(b[0], crc) {
        Crc.Differ32(a[0], b[0], crc);
      }
      StaysApart(a[1..], Crc.Upd32(a[0], crc), Crc.Upd32(b[0], crc));
    } else {
      assert a[0] == a[..i][0] && b[0] == b[..i][0];
      assert a[1..][..i - 1] == a[..i][1..] && b[1..][..i - 1] == b[..i][1..];
      assert a[1..][i..] == a[i + 1..] && b[1..][i..] == b[i + 1..];
      ChangeAt(a[1..], b[1..], i - 1, Crc.Upd32(a[0], crc));
    }
  }

  lemma {:induction false} StaysApart(data: Bytes, x: bv32, y: bv32)
    requires x != y
    ensures Crc.Crc32(data, x) != Crc.Crc32(data, y)
    decreases |data|
  {
    if data != [] {
      if Crc.Upd32(data[0], x) == Crc.Upd32(data[0], y) {
        Crc.Apart32(data[0], x, y);
      }
      StaysApart(data[1..], Crc.Upd32(data[0], x), Crc.Upd32(data[0], y));
    }
  }

  lemma TrailersDiffer(x: bv32, y: bv32)
    requires x != y
    ensures Crc.Trailer32(x) != Crc.Trailer32(y)
  {
    if Crc.Trailer32(x) == Crc.Trailer32(y) {
      SameBytes(Crc.Trailer32(x), Crc.Trailer32(y));
      BytesDiffer(x, y);
    }
  }

  lemma SameBytes(s: Bytes, t: Bytes)
    requires |s| == 4 && s == t
    ensures s[0] == t[0] && s[1] == t[1] && s[2] == t[2] && s[3] == t[3]
  {
  }

  lemma BytesDiffer(x: bv32, y: bv32)
    requires (!x & 0xFF) as Byte == (!y & 0xFF) as Byte
    requires ((!x >> 8) & 0xFF) as Byte == ((!y >> 8) & 0xFF) as Byte
    requires ((!x >> 16) & 0xFF) as Byte == ((!y >> 16) & 0xFF) as Byte
    requires ((!x >> 24) & 0xFF) as Byte == ((!y >> 24) & 0xFF) as Byte
    ensures x == y
  {
  }

  // ----- Headers -----

  /** The check of a header's type and position. */
  function HeaderCheck(form: Form, tab: Crc.Table16, fields: Bytes): Bytes {
    if form.Bin32? then Crc.Trailer32(Crc.Crc32(fields, 0xFFFF_FFFF)) else Crc.Trailer16(tab, Crc.Crc16(tab, fields, 0))
  }

  lemma {:induction false} Takes(hex: bool, ctl: bool, s: Bytes, bytes: Bytes, rest: Bytes)
    requires Hears(hex, ctl, s, Datas(bytes), rest)
    ensures Take(hex, ctl, s, |bytes|) == (bytes, None, rest)
    decreases |bytes|
  {
    if bytes != [] {
      assert Datas(bytes)[1..] == Datas(bytes[1..]);
      Takes(hex, ctl, ReadByte(hex, ctl, s).1, bytes[1..], rest);
      assert [bytes[0]] + bytes[1..] == bytes;
    }
  }

  lemma {:induction false} TakeHears(hex: bool, ctl: bool, s: Bytes, n: nat)
    requires Take(hex, ctl, s, n).1.None?
    ensures Hears(hex, ctl, s, Datas(Take(hex, ctl, s, n).0), Take(hex, ctl, s, n).2)
    decreases n
  {
    if n > 0 {
      var (got, left) := ReadByte(hex, ctl, s);
      TakeHears(hex, ctl, left, n - 1);
      var (more, stop, rest) := Take(hex, ctl, left, n - 1);
      HearsMore(hex, ctl, s, got, Datas(more), rest);
      assert ([got.b] + more)[1..] == more;
    }
  }

  lemma HeaderIff<C(!new)>(f: Fcs<C>, form: Form, ctl: bool, s: Bytes, fields: Bytes, check: Bytes, rest: Bytes)
    requires Exact(f) && |fields| == 5 && |check| == f.size
    requires Hears(form.Hex?, ctl, s, Datas(fields + check), rest)
    ensures ReadHeader(f, form, ctl, s)
      == (if check == f.trailer(Fold(f, fields, f.init)) then Header(form, fields[0], fields[1..])
          else Failed(Bad), rest)
  {
    Takes(form.Hex?, ctl, s, fields + check, rest);
    FoldConcat(f, fields, check, f.init);
    assert (fields + check)[1..5] == fields[1..];
  }

  /** Five bytes and as many as the check has: a header exactly if these are it. */
  lemma HeaderReadIff(form: Form, tab: Crc.Table16, ctl: bool, s: Bytes, fields: Bytes, check: Bytes, rest: Bytes)
    requires |fields| == 5 && |check| == if form.Bin32? then 4 else 2
    requires Hears(form.Hex?, ctl, s, Datas(fields + check), rest)
    ensures ReadForm(form, tab, ctl, s).0
      == if check == HeaderCheck(form, tab, fields) then Header(form, fields[0], fields[1..]) else Failed(Bad)
  {
    if form.Bin32? {
      Exact32();
      Fold32(fields, 0xFFFF_FFFF);
      HeaderIff(Fcs32(), form, ctl, s, fields, check, rest);
    } else {
      Exact16(tab);
      Fold16(tab, fields, 0);
      HeaderIff(Fcs16(tab), form, ctl, s, fields, check, rest);
    }
  }

  lemma HeaderMeans<C(!new)>(f: Fcs<C>, form: Form, ctl: bool, s: Bytes) returns (check: Bytes)
    requires Exact(f) && ReadHeader(f, form, ctl, s).0.Header?
    ensures var (r, rest) := ReadHeader(f, form, ctl, s);
      && r.form == form && |check| == f.size && check == f.trailer(Fold(f, [r.typ] + r.hdr, f.init))
      && Hears(form.Hex?, ctl, s, Datas([r.typ] + r.hdr + check), rest)
  {
    var bytes := Take(form.Hex?, ctl, s, 5 + f.size).0;
    TakeHears(form.Hex?, ctl, s, 5 + f.size);
    check := bytes[5..];
    assert bytes == [bytes[0]] + bytes[1..5] + check;
    FoldConcat(f, [bytes[0]] + bytes[1..5], check, f.init);
  }

  /** Whatever the line: a header that is taken was read with its own check behind it. */
  lemma HeaderReadMeans(form: Form, tab: Crc.Table16, ctl: bool, s: Bytes) returns (check: Bytes, rest: Bytes)
    requires ReadForm(form, tab, ctl, s).0.Header?
    ensures var r := ReadForm(form, tab, ctl, s).0;
      && r.form == form && check == HeaderCheck(form, tab, [r.typ] + r.hdr)
      && Hears(form.Hex?, ctl, s, Datas([r.typ] + r.hdr + check), rest)
  {
    var r := ReadForm(form, tab, ctl, s).0;
    if form.Bin32? {
      Exact32();
      check := HeaderMeans(Fcs32(), form, ctl, s);
      Fold32([r.typ] + r.hdr, 0xFFFF_FFFF);
      rest := ReadHeader(Fcs32(), form, ctl, s).1;
    } else {
      Exact16(tab);
      check := HeaderMeans(Fcs16(tab), form, ctl, s);
      Fold16(tab, [r.typ] + r.hdr, 0);
      rest := ReadHeader(Fcs16(tab), form, ctl, s).1;
    }
  }

  // ----- A known check -----

  lemma NextCheck(b: Byte, rest: Bytes, crc: bv32, next: bv32)
    requires Crc.Upd32(b, crc) == next
    ensures Crc.Crc32([b] + rest, crc) == Crc.Crc32(rest, next)
  {
    Crc.OneByte32(b, rest, crc);
  }

  lemma FirstDigits()
    ensures Crc.Upd32(0x31, 0xFFFF_FFFF) == 0x7C231048 && Crc.Upd32(0x32, 0x7C231048) == 0xB0ACBB32
    ensures Crc.Upd32(0x33, 0xB0ACBB32) == 0x77B79C2D
  {
  }

  lemma MiddleDigits()
    ensures Crc.Upd32(0x34, 0x77B79C2D) == 0x641C1F5C && Crc.Upd32(0x35, 0x641C1F5C) == 0x340AC5E3
    ensures Crc.Upd32(0x36, 0x340AC5E3) == 0xF68D2C9E
  {
  }

  lemma LastDigits()
    ensures Crc.Upd32(0x37, 0xF68D2C9E) == 0xAFFC9660 && Crc.Upd32(0x38, 0xAFFC9660) == 0x651F2550
    ensures Crc.Upd32(0x39, 0x651F2550) == 0x340BC6D9
  {
  }

  lemma DigitsTrailer()
    ensures Crc.Trailer32(0x340BC6D9) == [0x26, 0x39, 0xF4, 0xCB]
  {
  }

  lemma ThreeChecks(a: Byte, b: Byte, c: Byte, rest: Bytes, w: bv32, x: bv32, y: bv32, z: bv32)
    requires Crc.Upd32(a, w) == x && Crc.Upd32(b, x) == y && Crc.Upd32(c, y) == z
    ensures Crc.Crc32([a, b, c] + rest, w) == Crc.Crc32(rest, z)
  {
    NextCheck(a, [b] + ([c] + rest), w, x);
    NextCheck(b, [c] + rest, x, y);
    NextCheck(c, rest, y, z);
    assert [a, b, c] + rest == [a] + ([b] + ([c] + rest));
  }

  /** The check of the digits 1 to 9 is the published one of this CRC, 0xCBF43926. */
  lemma DigitsCheck()
    ensures Crc.Trailer32(Crc.Crc32([0x31, 0x32, 0x33, 0x34, 0x35, 0x36, 0x37, 0x38, 0x39], 0xFFFF_FFFF))
      == [0x26, 0x39, 0xF4, 0xCB]
  {
    assert [0x31, 0x32, 0x33, 0x34, 0x35, 0x36, 0x37, 0x38, 0x39]
      == [0x31, 0x32, 0x33] + ([0x34, 0x35, 0x36] + ([0x37, 0x38, 0x39] + []));
    FirstDigits();
    MiddleDigits();
    LastDigits();
    DigitsTrailer();
    ThreeChecks(0x31, 0x32, 0x33, [0x34, 0x35, 0x36] + ([0x37, 0x38, 0x39] + []), 0xFFFF_FFFF, 0x7C231048, 0xB0ACBB32,
      0x77B79C2D);
    ThreeChecks(0x34, 0x35, 0x36, [0x37, 0x38, 0x39] + [], 0x77B79C2D, 0x641C1F5C, 0x340AC5E3, 0xF68D2C9E);
    ThreeChecks(0x37, 0x38, 0x39, [], 0xF68D2C9E, 0xAFFC9660, 0x651F2550, 0x340BC6D9);
  }
}
