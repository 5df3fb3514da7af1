/** The file sender of rzsz/lsz.c on the line of rzsz/zm.c: what its events come to in bytes, and
    what a receiver that reads them with zgethdr and zrdata ends up with. */
module Transfer {
  import opened Basics
  import Crc
  import opened Zdle
  import opened Subpackets
  import opened Headers
  import opened HeaderScan
  import Frames
  import S = Sender
  import Z = ZmLine

  const ZNAK: Byte := 6
  const ZEOF: Byte := 11

  /** The settings of both ends: 32-bit checks or not, crctab, the sender's escapes and nulls,
      the receiver's Zctlesc, max_garbage and buffer. */
  datatype Link = Link(crc32: bool, tab: Crc.Table16, e: Escapes, nulls: nat, ctl: bool, garbage: nat, length: nat)

  function FormOf(l: Link): Form {
    if l.crc32 then Bin32 else Bin16
  }

  // ----- Events in bytes -----

  /** A header, with nulls before ZDATA. */
  function HeaderBytes(l: Link, last: Byte, typ: Byte, hdr: Bytes): Bytes {
    Nulls(if typ == ZDATA then l.nulls else 0) + HeaderSent(FormOf(l), l.tab, l.e, last, typ, hdr)
  }

  function PacketBytes(l: Link, last: Byte, data: Bytes, end: Byte): Bytes {
    (if l.crc32 then Sent(Fcs32(), l.e, last, data, end) else Sent(Fcs16(l.tab), l.e, last, data, end))
      + Frames.Answer(end)
  }

  ghost predicate IsHeader(l: Link, b: Bytes, typ: Byte, hdr: Bytes) {
    exists last: Byte :: b == HeaderBytes(l, last, typ, hdr)
  }

  /** Only with the 32-bit check can a subpacket be sent without data. */
  ghost predicate IsPacket(l: Link, b: Bytes, data: Bytes, end: Byte) {
    (data != [] || l.crc32) && exists last: Byte :: b == PacketBytes(l, last, data, end)
  }

  ghost predicate IsNak(l: Link, b: Bytes) {
    exists hdr: Bytes :: |hdr| == 4 && IsHeader(l, b, ZNAK, hdr)
  }

  /** The bytes that the sender writes for an event; lastsent may be anything before it. */
  ghost predicate Carries(l: Link, x: S.Event, b: Bytes) {
    match x
    case ZData(p) => IsHeader(l, b, ZDATA, Stohdr(p))
    case SubPacket(data, end) => IsPacket(l, b, data, end)
    case ZEof(p) => IsHeader(l, b, ZEOF, Stohdr(p))
    case ZNak => IsNak(l, b)
    case Heard(_) => b == []
  }

  /** A header in bytes, of a type given by its code. */
  ghost predicate Heads(l: Link, b: Bytes, nulls: nat, typ: Byte, hdr: Bytes) {
    exists last: Byte :: b == seq(nulls, _ => 0) + HeaderSent(FormOf(l), l.tab, l.e, last, typ, hdr)
  }

  /** ZDATA has the type 10 and nulls before it, ZEOF the type 11, ZNAK the type 6. */
  lemma TypesAre(l: Link, p: nat, b: Bytes)
    ensures Carries(l, S.ZData(p), b) <==> Heads(l, b, l.nulls, 10, Stohdr(p))
    ensures Carries(l, S.ZEof(p), b) <==> Heads(l, b, 0, 11, Stohdr(p))
    ensures Carries(l, S.ZNak, b) <==> exists hdr: Bytes :: |hdr| == 4 && Heads(l, b, 0, 6, hdr)
  {
    HeadsIs(l, b, 10, Stohdr(p));
    HeadsIs(l, b, 11, Stohdr(p));
    forall hdr: Bytes ensures IsHeader(l, b, 6, hdr) <==> Heads(l, b, 0, 6, hdr) {
      HeadsIs(l, b, 6, hdr);
    }
  }

  lemma HeadsIs(l: Link, b: Bytes, typ: Byte, hdr: Bytes)
    ensures IsHeader(l, b, typ, hdr) <==> Heads(l, b, if typ == 10 then l.nulls else 0, typ, hdr)
  {
    var nulls := if typ == 10 then l.nulls else 0;
    forall last: Byte
      ensures HeaderBytes(l, last, typ, hdr) == seq(nulls, _ => 0) + HeaderSent(FormOf(l), l.tab, l.e, last, typ, hdr)
    {
      assert Nulls(nulls) == seq(nulls, _ => 0);
    }
  }

  /** The sender's functions write those bytes. */
  method Put(l: Link, z: Z.ZSender, x: S.Event, hdr: Bytes)
    requires z.Ready() && l.crc32 == z.txfcs32 && l.e == z.Settings() && l.nulls == z.znulls
    requires |hdr| == 4 && (x.SubPacket? && x.data == [] ==> l.crc32)
    modifies z`line, z`lastsent
    ensures |z.line| >= |old(z.line)| && z.line[..|old(z.line)|] == old(z.line)
    ensures Carries(l, x, z.line[|old(z.line)|..])
  {
    ghost var was, last := z.line, z.lastsent;
    match x {
      case ZData(p) =>
        z.Zsbhdr(l.tab, ZDATA, Stohdr(p));
        Appended(was, Nulls(l.nulls), HeaderSent(FormOf(l), l.tab, l.e, last, ZDATA, Stohdr(p)));
        assert z.line[|was|..] == HeaderBytes(l, last, ZDATA, Stohdr(p));
      case SubPacket(data, end) =>
        if l.crc32 {
          z.Zsda32(data, end);
          Appended(was, Sent(Fcs32(), l.e, last, data, end), Frames.Answer(end));
        } else {
          z.Zsdata(l.tab, data, end);
          Appended(was, Sent(Fcs16(l.tab), l.e, last, data, end), Frames.Answer(end));
        }
        assert z.line[|was|..] == PacketBytes(l, last, data, end);
      case ZEof(p) =>
        z.Zsbhdr(l.tab, ZEOF, Stohdr(p));
        Appended(was, [], HeaderSent(FormOf(l), l.tab, l.e, last, ZEOF, Stohdr(p)));
        assert Nulls(0) == [] && z.line[|was|..] == HeaderBytes(l, last, ZEOF, Stohdr(p));
      case ZNak =>
        z.Zsbhdr(l.tab, ZNAK, hdr);
        Appended(was, [], HeaderSent(FormOf(l), l.tab, l.e, last, ZNAK, hdr));
        assert Nulls(0) == [] && z.line[|was|..] == HeaderBytes(l, last, ZNAK, hdr);
        assert IsHeader(l, z.line[|was|..], ZNAK, hdr);
      case Heard(_) =>
        assert z.line[|was|..] == [];
    }
  }

  lemma Appended(a: Bytes, b: Bytes, c: Bytes)
    ensures |a + b + c| >= |a| && (a + b + c)[..|a|] == a && (a + b + c)[|a|..] == b + c
  {
  }

  // ----- A receiver on the line -----

  /** The receiver of Sender, and what is still on its line. */
  datatype FarEnd = FarEnd(rx: S.Rx, line: Bytes)

  /** zrdata with the check that the last header announced. */
  function GetPacket(l: Link, s: Bytes): (Received, Bytes) {
    if l.crc32 then Receive(Fcs32(), l.ctl, s, l.length) else Receive(Fcs16(l.tab), l.ctl, s, l.length)
  }

  /** It reads a subpacket inside a frame and looks for a header otherwise. */
  function GetNext(l: Link, st: FarEnd): FarEnd {
    if st.rx.inFrame then
      var (r, left) := GetPacket(l, st.line);
      FarEnd(if r.Packet? then S.Take(st.rx, S.SubPacket(r.data, r.end), true) else st.rx.(inFrame := false), left)
    else
      var (h, left) := Hunt(l.tab, l.ctl, Again, l.garbage, 5, st.line);
      FarEnd(Noted(st.rx, h), left)
  }

  /** What it makes of a header. */
  function Noted(rx: S.Rx, h: HeaderRead): S.Rx
    requires h.Header? ==> |h.hdr| == 4
  {
    if h.Header? && h.typ == ZDATA then S.Take(rx, S.ZData(Rclhdr(h.hdr)), true)
    else if h.Header? && h.typ == ZEOF then S.Take(rx, S.ZEof(Rclhdr(h.hdr)), true)
    else rx
  }

  /** After so many reads. */
  function Reads(l: Link, st: FarEnd, n: nat): FarEnd {
    if n == 0 then st else GetNext(l, Reads(l, st, n - 1))
  }

  // ----- Before a header -----

  /** How many bytes stand before the first ZPAD. */
  function BeforePad(s: Bytes): nat {
    if s == [] || s[0] == ZPAD then 0 else 1 + BeforePad(s[1..])
  }

  /** The junk of nulls and flow control before a header. */
  lemma {:induction false} PadAhead(s: Bytes, n: nat, t: Bytes) returns (junk: Bytes, s': Bytes)
    requires Strip(false, s) == Nulls(n) + ([ZPAD] + t)
    ensures s == junk + s' && s' != [] && s'[0] == ZPAD && Strip(false, s') == [ZPAD] + t
    ensures |junk| == BeforePad(s) && forall i :: 0 <= i < |junk| ==> junk[i] & 0x7F != CAN
    decreases |s|
  {
    if Ignored(false, s[0]) {
      junk, s' := PadAhead(s[1..], n, t);
      FlowIsNoCan(s[0]);
      junk := [s[0]] + junk;
    } else if n == 0 {
      assert Nulls(0) + ([ZPAD] + t) == [ZPAD] + t;
      Quiet(false, s, ZPAD, t);
      junk, s' := [], s;
    } else {
      assert Nulls(n) + ([ZPAD] + t) == [0] + (Nulls(n - 1) + ([ZPAD] + t));
      Quiet(false, s, 0, Nulls(n - 1) + ([ZPAD] + t));
      junk, s' := PadAhead(s[1..], n - 1, t);
      junk := [s[0]] + junk;
    }
  }

  lemma FlowIsNoCan(c: Byte)
    requires Ignored(false, c)
    ensures c & 0x7F != CAN && c != ZPAD
  {
  }

  /** Flow control taken off the front only brings the ZPAD nearer. */
  lemma {:induction false} PadNearer(p: Bytes, s: Bytes)
    requires Strip(false, p) == []
    ensures BeforePad(p + s) == |p| + BeforePad(s)
    decreases |p|
  {
    if p == [] {
      assert p + s == s;
    } else {
      FlowIsNoCan(p[0]);
      assert (p + s)[1..] == p[1..] + s;
      PadNearer(p[1..], s);
    }
  }

  lemma {:induction false} PadInside(s: Bytes, more: Bytes)
    requires ZPAD in s
    ensures BeforePad(s + more) == BeforePad(s)
    decreases |s|
  {
    if s[0] != ZPAD {
      assert (s + more)[1..] == s[1..] + more;
      PadInside(s[1..], more);
    }
  }

  lemma {:induction false} StripInside(s: Bytes, c: Byte)
    requires c in Strip(false, s)
    ensures c in s
    decreases |s|
  {
    if c in Strip(false, s[1..]) {
      StripInside(s[1..], c);
    }
  }

  lemma NullsStay(n: nat)
    ensures Strip(false, Nulls(n)) == Nulls(n)
  {
    StripClean(false, Nulls(n));
  }

  /** A binary header begins with ZPAD and holds no flow control. */
  lemma BinaryHeader(l: Link, last: Byte, typ: Byte, hdr: Bytes) returns (t: Bytes)
    ensures HeaderSent(FormOf(l), l.tab, l.e, last, typ, hdr) == [ZPAD] + t
    ensures Strip(false, [ZPAD] + t) == [ZPAD] + t
  {
    var h, body := HeaderSent(FormOf(l), l.tab, l.e, last, typ, hdr), Body(FormOf(l), l.tab, l.e, last, typ, hdr);
    HeaderIsClean(FormOf(l), l.tab, l.e, last, typ, hdr, []);
    assert LineEnd(FormOf(l), typ) + [] == [];
    assert h + [] == h && Pads(FormOf(l)) + (body + []) == h;
    t := StartsWithPad(FormOf(l), l.tab, l.e, last, typ, hdr, []);
  }

  lemma HeaderStripped(l: Link, last: Byte, typ: Byte, hdr: Bytes, n: nat, t: Bytes, rest: Bytes)
    requires n == (if typ == ZDATA then l.nulls else 0) && Strip(false, rest) == rest
    requires HeaderSent(FormOf(l), l.tab, l.e, last, typ, hdr) == [ZPAD] + t && Strip(false, [ZPAD] + t) == [ZPAD] + t
    ensures Strip(false, HeaderBytes(l, last, typ, hdr)) + rest == Nulls(n) + ([ZPAD] + (t + rest))
    ensures Strip(false, HeaderSent(FormOf(l), l.tab, l.e, last, typ, hdr) + rest) == [ZPAD] + (t + rest)
  {
    NullsStay(n);
    StripConcat(false, Nulls(n), [ZPAD] + t);
    StripConcat(false, [ZPAD] + t, rest);
    Grouped(Nulls(n), [ZPAD] + t, rest);
    Grouped([ZPAD], t, rest);
  }

  /** A header is read as it was sent, with whatever nulls and flow control come before it. */
  lemma HeaderRead(l: Link, line: Bytes, last: Byte, typ: Byte, hdr: Bytes, rest: Bytes)
    requires Compatible(l.e, l.ctl) && |hdr| == 4 && Strip(false, rest) == rest
    requires Strip(false, line) == Strip(false, HeaderBytes(l, last, typ, hdr)) + rest
    requires BeforePad(line) < Budget(l.garbage)
    ensures var (h, left) := Hunt(l.tab, l.ctl, Again, l.garbage, 5, line);
      h == Header(FormOf(l), typ, hdr) && Strip(false, left) == rest
  {
    var n := if typ == ZDATA then l.nulls else 0;
    var t := BinaryHeader(l, last, typ, hdr);
    HeaderStripped(l, last, typ, hdr, n, t, rest);
    var junk, s := PadAhead(line, n, t + rest);
    AfterJunk(l, junk, s, last, typ, hdr, rest);
  }

  lemma AfterJunk(l: Link, junk: Bytes, s: Bytes, last: Byte, typ: Byte, hdr: Bytes, rest: Bytes)
    requires Compatible(l.e, l.ctl) && |hdr| == 4 && Strip(false, rest) == rest
    requires |junk| < Budget(l.garbage) && forall i :: 0 <= i < |junk| ==> junk[i] & 0x7F != CAN
    requires s != [] && s[0] == ZPAD
    requires Strip(false, s) == Strip(false, HeaderSent(FormOf(l), l.tab, l.e, last, typ, hdr) + rest)
    ensures var (h, left) := Hunt(l.tab, l.ctl, Again, l.garbage, 5, junk + s);
      h == Header(FormOf(l), typ, hdr) && Strip(false, left) == rest
  {
    PlainIsClear(l.ctl, Again, junk);
    AnyHeaderBack(FormOf(l), l.tab, l.e, l.ctl, last, typ, hdr, l.garbage, junk, s, rest);
  }

  lemma SentRead<C(!new)>(f: Fcs<C>, l: Link, line: Bytes, last: Byte, data: Bytes, end: Byte, rest: Bytes)
    requires Subpackets.Sound(f) && Compatible(l.e, l.ctl) && IsEnd(end) && |data| <= l.length
    requires Strip(false, line) == Strip(false, Sent(f, l.e, last, data, end) + Frames.Answer(end)) + rest
    ensures var (r, left) := Receive(f, l.ctl, line, l.length); r == Packet(data, end) && Strip(false, left) == rest
  {
    var sent := Sent(f, l.e, last, data, end);
    SentIsClean(f, l.e, false, last, data, end);
    Frames.AnswerDropped(false, end);
    StripConcat(false, sent, Frames.Answer(end));
    assert sent + [] == sent;
    RoundTrip(f, l.e, l.ctl, false, last, data, end, l.length, line, rest);
  }

  /** So is a subpacket. */
  lemma PacketRead(l: Link, line: Bytes, last: Byte, data: Bytes, end: Byte, rest: Bytes)
    requires Compatible(l.e, l.ctl) && IsEnd(end) && |data| <= l.length
    requires Strip(false, line) == Strip(false, PacketBytes(l, last, data, end)) + rest
    ensures var (r, left) := GetPacket(l, line); r == Packet(data, end) && Strip(false, left) == rest
  {
    Fcs16Sound(l.tab);
    Fcs32Sound();
    if l.crc32 {
      SentRead(Fcs32(), l, line, last, data, end, rest);
    } else {
      SentRead(Fcs16(l.tab), l, line, last, data, end, rest);
    }
  }

  // ----- A receiver in step -----

  /** The receiver has what the sender has sent, and is in a frame when the sender is. */
  predicate InStep(file: Bytes, log: S.Transcript, rx: S.Rx)
    requires log != []
  {
    && S.At(log) <= |file| && rx.data == file[..S.At(log)]
    && (rx.inFrame <==> S.TurnOf(log) == S.More)
    && (S.Last(log).ZEof? ==> rx.done)
  }

  /** `line` is `s`, perhaps without some flow control at its beginning. */
  predicate Abreast(line: Bytes, s: Bytes) {
    IsTail(line, s) && Strip(false, line) == Strip(false, s)
  }

  /** What has been passed over in front. */
  lemma Passed(line: Bytes, s: Bytes) returns (p: Bytes)
    requires Abreast(line, s)
    ensures s == p + line && Strip(false, p) == []
  {
    p := s[..|s| - |line|];
    assert s == p + line;
    StripConcat(false, p, line);
  }

  /** A piece of line ends with the last byte of its event. */
  predicate EndsFirmly(n: Bytes) {
    n != [] ==> !Ignored(false, n[|n| - 1])
  }

  /** What is left after reading a piece is abreast of what follows it. */
  lemma StillAbreast(line: Bytes, left: Bytes, n: Bytes, rest: Bytes)
    requires Abreast(line, n + rest) && EndsFirmly(n)
    requires IsTail(left, line) && Strip(false, left) == Strip(false, rest)
    ensures Abreast(left, rest)
  {
    TailOfTail(left, line, n + rest);
    if |left| > |rest| {
      LongerTail(left, n, rest);
    }
  }

  lemma FirmKept(n: Bytes)
    requires n != [] && EndsFirmly(n)
    ensures Strip(false, n) != []
  {
    var c := n[|n| - 1];
    StripConcat(false, n[..|n| - 1], [c]);
    assert n == n[..|n| - 1] + [c] && [c][1..] == [];
  }

  lemma LongerTail(left: Bytes, n: Bytes, rest: Bytes)
    requires IsTail(left, n + rest) && |left| > |rest| && EndsFirmly(n)
    ensures |Strip(false, left)| > |Strip(false, rest)|
  {
    var q := n[|n| - (|left| - |rest|)..];
    assert left == q + rest;
    StripConcat(false, q, rest);
    FirmKept(q);
  }

  lemma PacketKeeps(l: Link, file: Bytes, log: S.Transcript, st: FarEnd, b: Bytes, rest: Bytes)
    requires |log| > 1 && S.Last(log).SubPacket? && S.Proper(file, S.Front(log), S.Last(log))
    requires InStep(file, S.Front(log), st.rx) && Strip(false, st.line) == Strip(false, b) + rest
    requires Compatible(l.e, l.ctl) && Carries(l, S.Last(log), b) && |S.Last(log).data| <= l.length
    ensures InStep(file, log, GetNext(l, st).rx)
    ensures Strip(false, GetNext(l, st).line) == rest && IsTail(GetNext(l, st).line, st.line)
  {
    PacketTaken(file, log, st.rx);
    PacketGot(l, st, b, S.Last(log).data, S.Last(log).end, rest);
  }

  lemma PacketGot(l: Link, st: FarEnd, b: Bytes, data: Bytes, end: Byte, rest: Bytes)
    requires st.rx.inFrame && Strip(false, st.line) == Strip(false, b) + rest
    requires Compatible(l.e, l.ctl) && IsPacket(l, b, data, end) && |data| <= l.length && IsEnd(end)
    ensures GetNext(l, st).rx == S.Take(st.rx, S.SubPacket(data, end), true)
    ensures Strip(false, GetNext(l, st).line) == rest && IsTail(GetNext(l, st).line, st.line)
  {
    var last: Byte :| b == PacketBytes(l, last, data, end);
    PacketRead(l, st.line, last, data, end, rest);
    PacketTail(l, st.line);
  }

  lemma PacketTaken(file: Bytes, log: S.Transcript, rx: S.Rx)
    requires |log| > 1 && S.Last(log).SubPacket? && S.Proper(file, S.Front(log), S.Last(log))
    requires InStep(file, S.Front(log), rx)
    ensures IsEnd(S.Last(log).end) && rx.inFrame && InStep(file, log, S.Take(rx, S.Last(log), true))
  {
    S.Further(file, 0, S.At(S.Front(log)), S.Last(log).data);
  }

  lemma PacketTail(l: Link, line: Bytes)
    ensures IsTail(GetPacket(l, line).1, line)
  {
    if l.crc32 {
      ReceiveTail(Fcs32(), l.ctl, line, l.length);
    } else {
      ReceiveTail(Fcs16(l.tab), l.ctl, line, l.length);
    }
  }

  /** A header of this type with these bytes stands for the event. */
  predicate Announces(x: S.Event, typ: Byte, hdr: Bytes)
    requires |hdr| == 4
  {
    match x
    case ZData(p) => typ == ZDATA && Rclhdr(hdr) == p
    case ZEof(p) => typ == ZEOF && Rclhdr(hdr) == p
    case ZNak => typ == ZNAK
    case _ => false
  }

  lemma HeaderKeeps(l: Link, file: Bytes, log: S.Transcript, st: FarEnd, b: Bytes, typ: Byte, hdr: Bytes, rest: Bytes)
    requires |log| > 1 && S.Proper(file, S.Front(log), S.Last(log)) && |hdr| == 4 && Strip(false, rest) == rest
    requires InStep(file, S.Front(log), st.rx) && Strip(false, st.line) == Strip(false, b) + rest
    requires BeforePad(st.line) < Budget(l.garbage)
    requires Compatible(l.e, l.ctl) && IsHeader(l, b, typ, hdr)
    requires Announces(S.Last(log), typ, hdr)
    ensures InStep(file, log, GetNext(l, st).rx)
    ensures Strip(false, GetNext(l, st).line) == rest && IsTail(GetNext(l, st).line, st.line)
  {
    var last: Byte :| b == HeaderBytes(l, last, typ, hdr);
    HeaderRead(l, st.line, last, typ, hdr, rest);
    HuntTail(l.tab, l.ctl, Again, l.garbage, 5, st.line);
  }

  lemma PositionKept(p: nat, n: nat)
    requires n == 0x1_0000_0000 && p < n
    ensures Rclhdr(Stohdr(p)) == p
  {
    PositionBack(p);
    Small(p, n);
  }

  lemma Small(p: nat, n: nat)
    requires p < n
    ensures p % n == p
  {
  }

  /** Every event that the sender writes leaves the receiver in step. */
  lemma EventKeeps(l: Link, file: Bytes, log: S.Transcript, st: FarEnd, b: Bytes, rest: Bytes)
    requires |log| > 1 && S.Proper(file, S.Front(log), S.Last(log)) && !S.Last(log).Heard? && Strip(false, rest) == rest
    requires InStep(file, S.Front(log), st.rx) && Strip(false, st.line) == Strip(false, b) + rest
    requires Compatible(l.e, l.ctl) && Carries(l, S.Last(log), b) && |file| < 0x1_0000_0000
    requires if S.Last(log).SubPacket? then |S.Last(log).data| <= l.length else BeforePad(st.line) < Budget(l.garbage)
    requires S.Asked(S.Front(log)) <= |file|
    ensures InStep(file, log, GetNext(l, st).rx)
    ensures Strip(false, GetNext(l, st).line) == rest && IsTail(GetNext(l, st).line, st.line)
  {
    match S.Last(log)
    case ZData(p) =>
      PositionKept(p, 0x1_0000_0000);
      HeaderKeeps(l, file, log, st, b, ZDATA, Stohdr(p), rest);
    case SubPacket(_, _) => PacketKeeps(l, file, log, st, b, rest);
    case ZEof(p) =>
      PositionKept(p, 0x1_0000_0000);
      HeaderKeeps(l, file, log, st, b, ZEOF, Stohdr(p), rest);
    case ZNak =>
      var hdr: Bytes :| |hdr| == 4 && IsHeader(l, b, ZNAK, hdr);
      HeaderKeeps(l, file, log, st, b, ZNAK, hdr, rest);
  }

  /** A reply other than a request leaves the line as it is. */
  lemma ReplyKeeps(file: Bytes, log: S.Transcript, rx: S.Rx)
    requires |log| > 1 && S.Proper(file, S.Front(log), S.Last(log)) && S.Last(log).Heard? && !S.Last(log).reply.Rpos?
    requires InStep(file, S.Front(log), rx)
    ensures InStep(file, log, rx)
  {
  }

  // ----- A transfer -----

  predicate IsRequest(x: S.Event) {
    x.Heard? && x.reply.Rpos?
  }

  ghost predicate StandsFor(l: Link, x: S.Event, n: Bytes) {
    exists b: Bytes :: Carries(l, x, b) && Strip(false, n) == Strip(false, b)
  }

  /** The bytes `n` of the line stand for an event that is no request: its own bytes with flow
      control put in anywhere, up to its last byte. A block fits the receiver's buffer, and before
      the first ZPAD of a header there is less than zgethdr takes for too much garbage. */
  ghost predicate Fits(l: Link, x: S.Event, n: Bytes) {
    && !IsRequest(x) && EndsFirmly(n)
    && StandsFor(l, x, n)
    && (x.SubPacket? ==> |x.data| <= l.length)
    && (!x.SubPacket? && !x.Heard? ==> BeforePad(n) < Budget(l.garbage))
  }

  /** From the last request on, at `k`, `pieces` are the bytes of the events on the line. */
  ghost predicate Carried(l: Link, log: S.Transcript, k: nat, pieces: seq<Bytes>) {
    && |pieces| == |log| && k < |log| && IsRequest(log[k])
    && forall i :: k < i < |log| ==> FitsAt(l, log, pieces, i)
  }

  ghost predicate FitsAt(l: Link, log: S.Transcript, pieces: seq<Bytes>, i: int) {
    0 <= i < |log| && i < |pieces| && Fits(l, log[i], pieces[i])
  }

  /** The line from event `k` on. */
  function LineAfter(pieces: seq<Bytes>, k: nat): Bytes {
    if |pieces| <= k + 1 then [] else LineAfter(pieces[..|pieces| - 1], k) + pieces[|pieces| - 1]
  }

  /** How many reads that takes. */
  function Sendings(log: S.Transcript, k: nat): nat {
    if |log| <= k + 1 then 0 else Sendings(S.Front(log), k) + if S.Last(log).Heard? then 0 else 1
  }

  /** The receiver when it asks for a position: it has the file up to there. */
  function Asking(file: Bytes, p: nat, line: Bytes): FarEnd
    requires p <= |file|
  {
    FarEnd(S.Rx(file[..p], false, false), line)
  }

  lemma {:induction false} AskedOnce(log: S.Transcript, k: nat)
    requires k < |log| && IsRequest(log[k]) && forall i :: k < i < |log| ==> !IsRequest(log[i])
    ensures S.Asked(log) == log[k].reply.pos
    decreases |log|
  {
    if k < |log| - 1 {
      assert forall i :: k <= i < |log| - 1 ==> S.Front(log)[i] == log[i];
      AskedOnce(S.Front(log), k);
    }
  }

  lemma LastRequest(l: Link, log: S.Transcript, k: nat, pieces: seq<Bytes>)
    requires Carried(l, log, k, pieces)
    ensures S.Asked(log) == log[k].reply.pos
  {
    forall i | k < i < |log| ensures !IsRequest(log[i]) {
      assert FitsAt(l, log, pieces, i);
    }
    AskedOnce(log, k);
  }

  lemma FitsBefore(l: Link, log: S.Transcript, pieces: seq<Bytes>, i: nat, n: nat)
    requires i < n <= |log| == |pieces| && FitsAt(l, log, pieces, i)
    ensures FitsAt(l, log[..n], pieces[..n], i)
  {
  }

  lemma CarriedFront(l: Link, log: S.Transcript, k: nat, pieces: seq<Bytes>)
    requires Carried(l, log, k, pieces) && k < |log| - 1
    ensures Carried(l, S.Front(log), k, pieces[..|pieces| - 1])
    ensures Fits(l, S.Last(log), pieces[|pieces| - 1])
  {
    FitsLast(l, log, k, pieces);
    var n := |log| - 1;
    forall i | k < i < n ensures FitsAt(l, log[..n], pieces[..n], i) {
      FitsBefore(l, log, pieces, i, n);
    }
  }

  lemma FitsLast(l: Link, log: S.Transcript, k: nat, pieces: seq<Bytes>)
    requires Carried(l, log, k, pieces) && k < |log| - 1
    ensures Fits(l, S.Last(log), pieces[|pieces| - 1])
  {
    assert FitsAt(l, log, pieces, |log| - 1);
  }

  /** The receiver stays in step with the sender all along the line. */
  lemma {:induction false} Follows(l: Link, file: Bytes, log: S.Transcript, k: nat, pieces: seq<Bytes>, line: Bytes,
      rest: Bytes)
    requires Compatible(l.e, l.ctl) && |file| < 0x1_0000_0000 && S.Sound(file, log)
    requires Carried(l, log, k, pieces) && log[k].reply.pos <= |file| && Abreast(line, LineAfter(pieces, k) + rest)
    ensures var st := Reads(l, Asking(file, log[k].reply.pos, line), Sendings(log, k));
      InStep(file, log, st.rx) && Abreast(st.line, rest)
    decreases |log|
  {
    if k == |log| - 1 {
      assert [] + rest == rest;
    } else {
      var m := |pieces| - 1;
      OneBefore(l, log, k, pieces, line, rest);
      Follows(l, file, S.Front(log), k, pieces[..m], line, pieces[m] + rest);
      NextFollows(l, file, log, k, Asking(file, log[k].reply.pos, line), pieces[m], rest);
    }
  }

  lemma OneBefore(l: Link, log: S.Transcript, k: nat, pieces: seq<Bytes>, line: Bytes, rest: Bytes)
    requires Carried(l, log, k, pieces) && k < |log| - 1 && Abreast(line, LineAfter(pieces, k) + rest)
    ensures var m := |pieces| - 1;
      && Carried(l, S.Front(log), k, pieces[..m]) && Fits(l, S.Last(log), pieces[m])
      && S.Front(log)[k] == log[k] && S.Asked(S.Front(log)) == log[k].reply.pos
      && Abreast(line, LineAfter(pieces[..m], k) + (pieces[m] + rest))
  {
    var m := |pieces| - 1;
    CarriedFront(l, log, k, pieces);
    Grouped(LineAfter(pieces[..m], k), pieces[m], rest);
    LastRequest(l, S.Front(log), k, pieces[..m]);
  }

  lemma NextFollows(l: Link, file: Bytes, log: S.Transcript, k: nat, start: FarEnd, n: Bytes, rest: Bytes)
    requires Compatible(l.e, l.ctl) && |file| < 0x1_0000_0000
    requires k + 1 < |log| && S.Proper(file, S.Front(log), S.Last(log)) && S.Asked(S.Front(log)) <= |file|
    requires Fits(l, S.Last(log), n)
    requires var st := Reads(l, start, Sendings(S.Front(log), k));
      InStep(file, S.Front(log), st.rx) && Abreast(st.line, n + rest)
    ensures var st := Reads(l, start, Sendings(log, k)); InStep(file, log, st.rx) && Abreast(st.line, rest)
  {
    var st := Reads(l, start, Sendings(S.Front(log), k));
    if S.Last(log).Heard? {
      NothingWritten(l, S.Last(log), n);
      assert n + rest == rest;
      ReplyKeeps(file, log, st.rx);
    } else {
      OneEvent(l, file, log, st, n, rest);
    }
  }

  lemma NothingWritten(l: Link, x: S.Event, n: Bytes)
    requires x.Heard? && Fits(l, x, n)
    ensures n == []
  {
    if n != [] {
      FirmKept(n);
    }
  }

  lemma OneEvent(l: Link, file: Bytes, log: S.Transcript, st: FarEnd, n: Bytes, rest: Bytes)
    requires Compatible(l.e, l.ctl) && |file| < 0x1_0000_0000
    requires |log| > 1 && S.Proper(file, S.Front(log), S.Last(log)) && S.Asked(S.Front(log)) <= |file|
    requires Fits(l, S.Last(log), n) && !S.Last(log).Heard?
    requires InStep(file, S.Front(log), st.rx) && Abreast(st.line, n + rest)
    ensures InStep(file, log, GetNext(l, st).rx) && Abreast(GetNext(l, st).line, rest)
  {
    var b: Bytes :| Carries(l, S.Last(log), b) && Strip(false, n) == Strip(false, b);
    StripConcat(false, n, rest);
    StripTwice(false, rest);
    if !S.Last(log).SubPacket? {
      HasPad(l, S.Last(log), b);
      NearEnough(st.line, n, b, rest);
    }
    EventKeeps(l, file, log, st, b, Strip(false, rest));
    StillAbreast(st.line, GetNext(l, st).line, n, rest);
  }

  lemma HasPad(l: Link, x: S.Event, b: Bytes)
    requires Carries(l, x, b) && !x.SubPacket? && !x.Heard?
    ensures ZPAD in Strip(false, b)
  {
    match x
    case ZData(p) => HeaderHasPad(l, b, ZDATA, Stohdr(p));
    case ZEof(p) => HeaderHasPad(l, b, ZEOF, Stohdr(p));
    case ZNak =>
      var hdr: Bytes :| |hdr| == 4 && IsHeader(l, b, ZNAK, hdr);
      HeaderHasPad(l, b, ZNAK, hdr);
    case _ =>
  }

  lemma HeaderHasPad(l: Link, b: Bytes, typ: Byte, hdr: Bytes)
    requires IsHeader(l, b, typ, hdr)
    ensures ZPAD in Strip(false, b)
  {
    var last: Byte :| b == HeaderBytes(l, last, typ, hdr);
    var n := if typ == ZDATA then l.nulls else 0;
    var t := BinaryHeader(l, last, typ, hdr);
    HeaderStripped(l, last, typ, hdr, n, t, []);
    var s := Nulls(n) + ([ZPAD] + (t + []));
    assert Strip(false, b) + [] == Strip(false, b);
    assert s[n] == ZPAD;
  }

  /** The ZPAD is no farther than in the piece. */
  lemma NearEnough(line: Bytes, n: Bytes, b: Bytes, rest: Bytes)
    requires Abreast(line, n + rest) && Strip(false, n) == Strip(false, b) && ZPAD in Strip(false, b)
    ensures BeforePad(line) <= BeforePad(n)
  {
    var p := Passed(line, n + rest);
    PadNearer(p, line);
    StripInside(n, ZPAD);
    PadInside(n, rest);
  }

  /** The line from the last request on, with flow control put in anywhere, but before no header
      too much for zgethdr's budget, and with anything behind it: once the sender has come to
      ZEOF, a receiver that has read so far has the whole file, and has taken ZEOF for its end. */
  lemma FileArrives(l: Link, file: Bytes, log: S.Transcript, k: nat, pieces: seq<Bytes>, rest: Bytes)
    requires Compatible(l.e, l.ctl) && |file| < 0x1_0000_0000 && S.Sound(file, log) && S.Last(log).ZEof?
    requires Carried(l, log, k, pieces) && log[k].reply.pos <= |file|
    ensures var st := Reads(l, Asking(file, log[k].reply.pos, LineAfter(pieces, k) + rest), Sendings(log, k));
      st.rx == S.Rx(file, false, true) && Abreast(st.line, rest)
  {
    Follows(l, file, log, k, pieces, LineAfter(pieces, k) + rest, rest);
    LastRequest(l, log, k, pieces);
    assert |log| > 1;
    assert S.Proper(file, S.Front(log), S.Last(log));
  }
}
