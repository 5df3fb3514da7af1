/** What may come before a header of rzsz/zm.c: the hunt of zgethdr through other bytes, and
    exactly which of them a header survives. */
module HeaderScan {
  import opened Basics
  import Crc
  import opened Zdle
  import opened Subpackets
  import opened Headers

  // ----- One byte of garbage -----

  /** noxrd7() passes over `c`. */
  predicate Unseen(ctl: bool, c: Byte) {
    var d := c & 0x7F;
    d == XON || d == XOFF || (ctl && IsControl(d) && d != CR && d != LF && d != ZDLE)
  }

  /** What one byte does to the hunt: it leads to another label, it costs one of max_garbage
      and starts over, it is taken for the indicator of a header, or it ends the hunt. */
  datatype Move = Go(at: Label, cancount: int) | Pay | Enter(form: Form) | Stop

  function ToGotCan(cancount: int): Move {
    if cancount - 1 <= 0 then Stop else Go(GotCan, cancount)
  }

  function MoveOf(ctl: bool, at: Label, cancount: int, c: Byte): Move
    requires !at.Agn2?
  {
    var d := c & 0x7F;
    match at
    case Again => if c == CAN then ToGotCan(cancount) else if d == ZPAD then Go(Splat, 5) else Pay
    case GotCan =>
      if c == ZCRCW then Stop else if c != CAN then Pay
      else if cancount - 2 <= 0 then Stop else Go(Again, cancount - 2)
    case Splat =>
      if Unseen(ctl, c) || d == ZPAD then Go(Splat, cancount) else if d == ZDLE then Go(Kind, cancount) else Pay
    case Kind =>
      if Unseen(ctl, c) then Go(Kind, cancount)
      else if d == ZBIN then Enter(Bin16) else if d == ZBIN32 then Enter(Bin32) else if d == ZHEX then Enter(Hex)
      else if d == CAN then ToGotCan(cancount) else Pay
  }

  /** A label that a hunt can stand at between two bytes. */
  predicate Standing(at: Label, cancount: int) {
    !at.Agn2? && (at.GotCan? ==> cancount > 1) && (at.Splat? || at.Kind? ==> cancount == 5)
  }

  lemma NoxStep(ctl: bool, c: Byte, t: Bytes)
    ensures Nox(ctl, [c] + t) == if Unseen(ctl, c) then Nox(ctl, t) else (Data(c & 0x7F), t)
  {
    assert ([c] + t)[1..] == t;
  }

  /** Paying for one byte, or giving up. */
  function Paid(tab: Crc.Table16, ctl: bool, garbage: nat, t: Bytes): (HeaderRead, Bytes) {
    if Less(garbage) == 0 then (Failed(Bad), t) else Hunt(tab, ctl, Again, Less(garbage), 5, t)
  }

  /** zgethdr makes that move. */
  lemma HuntStep(tab: Crc.Table16, ctl: bool, at: Label, garbage: nat, cancount: int, c: Byte, t: Bytes)
    requires Standing(at, cancount)
    ensures var m, r := MoveOf(ctl, at, cancount, c), Hunt(tab, ctl, at, garbage, cancount, [c] + t);
      && (m.Go? ==> Standing(m.at, m.cancount) && r == Hunt(tab, ctl, m.at, garbage, m.cancount, t))
      && (m.Pay? ==> r == Paid(tab, ctl, garbage, t))
      && (m.Enter? ==> r == ReadForm(m.form, tab, ctl, t))
      && (m.Stop? ==> r.0.Failed?)
  {
    assert ([c] + t)[1..] == t;
    NoxStep(ctl, c, t);
  }

  /** zgethdr leaves what it does not read. */
  lemma {:induction false} HuntTail(tab: Crc.Table16, ctl: bool, at: Label, garbage: nat, cancount: int, s: Bytes)
    requires Standing(at, cancount)
    ensures IsTail(Hunt(tab, ctl, at, garbage, cancount, s).1, s)
    decreases |s|
  {
    if s == [] {
      NothingLeft(tab, ctl, at, garbage, cancount);
    } else {
      assert s == [s[0]] + s[1..];
      HuntStep(tab, ctl, at, garbage, cancount, s[0], s[1..]);
      assert IsTail(s[1..], s[1..]);
      match MoveOf(ctl, at, cancount, s[0]) {
        case Go(next, n) => HuntTail(tab, ctl, next, garbage, n, s[1..]);
        case Pay => HuntTail(tab, ctl, Again, Less(garbage), 5, s[1..]);
        case Enter(form) => FormTail(form, tab, ctl, s[1..]);
        case Stop => StopTail(tab, ctl, at, garbage, cancount, s[0], s[1..]);
      }
      TailFurther(Hunt(tab, ctl, at, garbage, cancount, s).1, s);
    }
  }

  lemma StopTail(tab: Crc.Table16, ctl: bool, at: Label, garbage: nat, cancount: int, c: Byte, t: Bytes)
    requires Standing(at, cancount) && MoveOf(ctl, at, cancount, c).Stop?
    ensures Hunt(tab, ctl, at, garbage, cancount, [c] + t).1 == t
  {
    assert ([c] + t)[1..] == t;
    NoxStep(ctl, c, t);
  }

  // ----- A stretch of garbage -----

  /** Where the bytes lead: into a header that is none, whose type they determine, or to a
      label, having cost so many of max_garbage. */
  datatype Scanned = Lost(typ: Byte) | Reached(at: Label, cancount: int, cost: nat)

  function Costing(r: Scanned): Scanned {
    if r.Reached? then r.(cost := r.cost + 1) else r
  }

  /** The type read when a header's first ZPAD comes after `junk`. */
  function TypeRead(hex: bool, ctl: bool, junk: Bytes): Byte {
    var got := ReadByte(hex, ctl, junk + [ZPAD]).0;
    if got.Data? then got.b else 0
  }

  function Scan(ctl: bool, at: Label, cancount: int, junk: Bytes): (r: Scanned)
    requires Standing(at, cancount)
    ensures r.Reached? ==> Standing(r.at, r.cancount)
    decreases |junk|
  {
    if junk == [] then Reached(at, cancount, 0)
    else
      match MoveOf(ctl, at, cancount, junk[0])
      case Go(next, n) => Scan(ctl, next, n, junk[1..])
      case Pay => Costing(Scan(ctl, Again, 5, junk[1..]))
      case Enter(form) => Lost(TypeRead(form.Hex?, ctl, junk[1..]))
      case Stop => Lost(0)
  }

  /** max_garbage after `n` bytes of garbage. */
  function LessBy(garbage: nat, n: nat): nat
    decreases n
  {
    if n == 0 then garbage else LessBy(Less(garbage), n - 1)
  }

  lemma {:induction false} BudgetLeft(garbage: nat, n: nat)
    requires n < Budget(garbage)
    ensures Budget(LessBy(garbage, n)) == Budget(garbage) - n
    decreases n
  {
    if n > 0 {
      BudgetLeft(Less(garbage), n - 1);
    }
  }

  lemma Split(junk: Bytes, s: Bytes)
    requires junk != []
    ensures junk + s == [junk[0]] + (junk[1..] + s)
  {
  }

  /** Within the budget the hunt comes to where the scan does. */
  lemma {:induction false} PastGarbage(tab: Crc.Table16, ctl: bool, at: Label, garbage: nat, cancount: int,
      junk: Bytes, s: Bytes)
    requires Standing(at, cancount)
    requires var r := Scan(ctl, at, cancount, junk); r.Reached? && r.cost < Budget(garbage)
    ensures var r := Scan(ctl, at, cancount, junk);
      Hunt(tab, ctl, at, garbage, cancount, junk + s) == Hunt(tab, ctl, r.at, LessBy(garbage, r.cost), r.cancount, s)
    decreases |junk|
  {
    if junk == [] {
      assert junk + s == s;
    } else {
      Split(junk, s);
      HuntStep(tab, ctl, at, garbage, cancount, junk[0], junk[1..] + s);
      match MoveOf(ctl, at, cancount, junk[0])
      case Go(next, n) => PastGarbage(tab, ctl, next, garbage, n, junk[1..], s);
      case Pay => PastGarbage(tab, ctl, Again, Less(garbage), 5, junk[1..], s);
      case Enter(_) =>
      case Stop =>
    }
  }

  /** Beyond it, it gives up. */
  lemma {:induction false} TooMuchGarbage(tab: Crc.Table16, ctl: bool, at: Label, garbage: nat, cancount: int,
      junk: Bytes, s: Bytes)
    requires Standing(at, cancount)
    requires var r := Scan(ctl, at, cancount, junk); r.Reached? && r.cost >= Budget(garbage)
    ensures Hunt(tab, ctl, at, garbage, cancount, junk + s).0 == Failed(Bad)
    decreases |junk|
  {
    if junk != [] {
      Split(junk, s);
      HuntStep(tab, ctl, at, garbage, cancount, junk[0], junk[1..] + s);
      match MoveOf(ctl, at, cancount, junk[0])
      case Go(next, n) => TooMuchGarbage(tab, ctl, next, garbage, n, junk[1..], s);
      case Pay =>
        if Less(garbage) != 0 {
          TooMuchGarbage(tab, ctl, Again, Less(garbage), 5, junk[1..], s);
        }
      case Enter(_) =>
      case Stop =>
    }
  }

  // ----- A header that is none -----

  /** Escapes end at the ZPAD at the latest, which none goes on after. */
  lemma {:induction false} EscapedFixed(ctl: bool, junk: Bytes, n: nat, t: Bytes)
    ensures ReadEscaped(ctl, junk + ([ZPAD] + t), n).0 == ReadEscaped(ctl, junk + [ZPAD], n).0
    decreases |junk|
  {
    if junk == [] {
      assert junk + ([ZPAD] + t) == [ZPAD] + t && junk + [ZPAD] == [ZPAD];
    } else {
      Split(junk, [ZPAD] + t);
      Split(junk, [ZPAD]);
      assert ([junk[0]] + (junk[1..] + ([ZPAD] + t)))[1..] == junk[1..] + ([ZPAD] + t);
      assert ([junk[0]] + (junk[1..] + [ZPAD]))[1..] == junk[1..] + [ZPAD];
      EscapedFixed(ctl, junk[1..], 3, t);
      if n > 0 {
        EscapedFixed(ctl, junk[1..], n - 1, t);
      }
    }
  }

  lemma {:induction false} ReadFixed(ctl: bool, junk: Bytes, t: Bytes)
    ensures Read(ctl, junk + ([ZPAD] + t)).0 == Read(ctl, junk + [ZPAD]).0
    decreases |junk|
  {
    if junk == [] {
      assert junk + ([ZPAD] + t) == [ZPAD] + t && junk + [ZPAD] == [ZPAD];
    } else {
      Split(junk, [ZPAD] + t);
      Split(junk, [ZPAD]);
      assert ([junk[0]] + (junk[1..] + ([ZPAD] + t)))[1..] == junk[1..] + ([ZPAD] + t);
      assert ([junk[0]] + (junk[1..] + [ZPAD]))[1..] == junk[1..] + [ZPAD];
      EscapedFixed(ctl, junk[1..], 3, t);
      ReadFixed(ctl, junk[1..], t);
    }
  }

  /** noxrd7 takes a byte of `junk` or the ZPAD; `left` is what it leaves of `junk`. */
  lemma {:induction false} NoxFixed(ctl: bool, junk: Bytes, t: Bytes) returns (left: Bytes, pad: bool)
    ensures Nox(ctl, junk + ([ZPAD] + t)).0 == Nox(ctl, junk + [ZPAD]).0
    ensures if pad then Nox(ctl, junk + [ZPAD]).0 == Data(ZPAD)
      else Nox(ctl, junk + ([ZPAD] + t)).1 == left + ([ZPAD] + t) && Nox(ctl, junk + [ZPAD]).1 == left + [ZPAD]
    decreases |junk|
  {
    if junk == [] {
      assert junk + ([ZPAD] + t) == [ZPAD] + t && junk + [ZPAD] == [ZPAD] + [];
      NoxStep(ctl, ZPAD, t);
      NoxStep(ctl, ZPAD, []);
      left, pad := [], true;
    } else {
      Split(junk, [ZPAD] + t);
      Split(junk, [ZPAD]);
      NoxStep(ctl, junk[0], junk[1..] + ([ZPAD] + t));
      NoxStep(ctl, junk[0], junk[1..] + [ZPAD]);
      if Unseen(ctl, junk[0]) {
        left, pad := NoxFixed(ctl, junk[1..], t);
      } else {
        left, pad := junk[1..], false;
      }
    }
  }

  lemma PadIsNoDigit()
    ensures Nibble(ZPAD) == None
  {
  }

  lemma HexFixed(ctl: bool, junk: Bytes, t: Bytes)
    ensures ReadHex(ctl, junk + ([ZPAD] + t)).0 == ReadHex(ctl, junk + [ZPAD]).0
  {
    PadIsNoDigit();
    var left, pad := NoxFixed(ctl, junk, t);
    if !pad {
      var _, _ := NoxFixed(ctl, left, t);
    }
  }

  /** So the type of such a header does not depend on what follows the ZPAD. */
  lemma TypeFixed(hex: bool, ctl: bool, junk: Bytes, t: Bytes)
    ensures ReadByte(hex, ctl, junk + ([ZPAD] + t)).0.Data? ==>
      ReadByte(hex, ctl, junk + ([ZPAD] + t)).0.b == TypeRead(hex, ctl, junk)
  {
    if hex {
      HexFixed(ctl, junk, t);
    } else {
      ReadFixed(ctl, junk, t);
    }
  }

  lemma TypeIsFirst<C>(f: Fcs<C>, form: Form, ctl: bool, s: Bytes)
    ensures var r := ReadHeader(f, form, ctl, s).0; r.Header? ==> ReadByte(form.Hex?, ctl, s).0 == Data(r.typ)
  {
  }

  lemma FormType(form: Form, tab: Crc.Table16, ctl: bool, s: Bytes)
    ensures var r := ReadForm(form, tab, ctl, s).0; r.Header? ==> ReadByte(form.Hex?, ctl, s).0 == Data(r.typ)
  {
    TypeIsFirst(Fcs16(tab), form, ctl, s);
    TypeIsFirst(Fcs32(), form, ctl, s);
  }

  /** After garbage that is taken for a header, no header comes back but perhaps one of a type
      that the garbage determines. */
  lemma {:induction false} LostHeader(tab: Crc.Table16, ctl: bool, at: Label, garbage: nat, cancount: int,
      junk: Bytes, t: Bytes)
    requires Standing(at, cancount) && Scan(ctl, at, cancount, junk).Lost?
    ensures var r := Hunt(tab, ctl, at, garbage, cancount, junk + ([ZPAD] + t)).0;
      r.Header? ==> r.typ == Scan(ctl, at, cancount, junk).typ
    decreases |junk|
  {
    var s := [ZPAD] + t;
    Split(junk, s);
    HuntStep(tab, ctl, at, garbage, cancount, junk[0], junk[1..] + s);
    match MoveOf(ctl, at, cancount, junk[0])
    case Go(next, n) => LostHeader(tab, ctl, next, garbage, n, junk[1..], t);
    case Pay => LostHeader(tab, ctl, Again, Less(garbage), 5, junk[1..], t);
    case Enter(form) =>
      FormType(form, tab, ctl, junk[1..] + s);
      TypeFixed(form.Hex?, ctl, junk[1..], t);
    case Stop =>
  }

  // ----- Too short for a header -----

  lemma {:induction false} TakeLength(hex: bool, ctl: bool, s: Bytes, n: nat)
    ensures var r := Take(hex, ctl, s, n); r.1 == None ==> |s| >= n
    decreases n
  {
    if n > 0 {
      TakeLength(hex, ctl, ReadByte(hex, ctl, s).1, n - 1);
    }
  }

  lemma FormLength(form: Form, tab: Crc.Table16, ctl: bool, s: Bytes)
    requires |s| < 7
    ensures ReadForm(form, tab, ctl, s).0.Failed?
  {
    TakeLength(form.Hex?, ctl, s, 7);
    TakeLength(form.Hex?, ctl, s, 9);
  }

  /** The bytes that a header takes at least, from a label on. */
  function Needed(at: Label): nat {
    match at
    case Splat => 9
    case Kind => 8
    case _ => 10
  }

  lemma {:induction false} TooShort(tab: Crc.Table16, ctl: bool, at: Label, garbage: nat, cancount: int, s: Bytes)
    requires Standing(at, cancount) && |s| < Needed(at)
    ensures Hunt(tab, ctl, at, garbage, cancount, s).0.Failed?
    decreases |s|
  {
    if s == [] {
      NothingLeft(tab, ctl, at, garbage, cancount);
    } else {
      assert s == [s[0]] + s[1..];
      HuntStep(tab, ctl, at, garbage, cancount, s[0], s[1..]);
      match MoveOf(ctl, at, cancount, s[0])
      case Go(next, n) => TooShort(tab, ctl, next, garbage, n, s[1..]);
      case Pay => TooShort(tab, ctl, Again, Less(garbage), 5, s[1..]);
      case Enter(form) => FormLength(form, tab, ctl, s[1..]);
      case Stop =>
    }
  }

  lemma NothingLeft(tab: Crc.Table16, ctl: bool, at: Label, garbage: nat, cancount: int)
    requires Standing(at, cancount)
    ensures Hunt(tab, ctl, at, garbage, cancount, []) == (Failed(Timeout), [])
  {
  }

  // ----- The round trip -----

  /** The hunt comes through `junk` to a header after it: either it is ready for a ZPAD then,
      or it takes the first ZPAD for garbage too, and a hex header has another. */
  predicate Clear(form: Form, ctl: bool, garbage: nat, junk: Bytes) {
    match Scan(ctl, Again, 5, junk)
    case Lost(_) => false
    case Reached(at, _, cost) =>
      if at.Again? || at.Splat? then cost < Budget(garbage) else form.Hex? && cost + 1 < Budget(garbage)
  }

  /** `junk` leaves the hunt where the next ZPAD counts. */
  predicate Ready(ctl: bool, junk: Bytes) {
    var r := Scan(ctl, Again, 5, junk);
    r.Reached? && (r.at.Again? || r.at.Splat?)
  }

  lemma FromPad(tab: Crc.Table16, ctl: bool, at: Label, garbage: nat, cancount: int, s: Bytes)
    requires Standing(at, cancount) && (at.Again? || at.Splat?) && s != [] && s[0] == ZPAD
    ensures Hunt(tab, ctl, at, garbage, cancount, s) == Hunt(tab, ctl, Splat, garbage, 5, s[1..])
  {
    assert s == [s[0]] + s[1..];
    HuntStep(tab, ctl, at, garbage, cancount, s[0], s[1..]);
  }

  lemma PadWasted(tab: Crc.Table16, ctl: bool, at: Label, garbage: nat, cancount: int, s: Bytes)
    requires Standing(at, cancount) && (at.Kind? || at.GotCan?) && s != [] && s[0] == ZPAD
    ensures Hunt(tab, ctl, at, garbage, cancount, s) == Paid(tab, ctl, garbage, s[1..])
  {
    assert s == [s[0]] + s[1..];
    HuntStep(tab, ctl, at, garbage, cancount, s[0], s[1..]);
  }

  /** From the second ZPAD of a hex header on. */
  lemma SecondPad(tab: Crc.Table16, e: Escapes, ctl: bool, last: Byte, typ: Byte, hdr: Bytes, garbage: nat, s: Bytes,
      rest: Bytes)
    requires |hdr| == 4 && |s| > 1 && s[0] == s[1] == ZPAD
    requires Strip(false, s) == Pads(Hex) + (Body(Hex, tab, e, last, typ, hdr) + rest)
    ensures Hunt(tab, ctl, Again, garbage, 5, s[1..]).0 == Header(Hex, TypeSent(Hex, typ), hdr)
  {
    var body := Body(Hex, tab, e, last, typ, hdr) + rest;
    PadsApart(Hex, body);
    StripHead(ZPAD, s, [ZPAD] + ([ZDLE] + body));
    StripHead(ZPAD, s[1..], [ZDLE] + body);
    FromPad(tab, ctl, Again, garbage, 5, s[1..]);
    SplatBack(Hex, tab, e, ctl, last, typ, hdr, garbage, s[1..][1..], rest);
  }

  lemma AnyHeaderBack(form: Form, tab: Crc.Table16, e: Escapes, ctl: bool, last: Byte, typ: Byte, hdr: Bytes,
      garbage: nat, junk: Bytes, s: Bytes, rest: Bytes)
    requires |hdr| == 4 && (form.Hex? || Compatible(e, ctl))
    requires Clear(form, ctl, garbage, junk) && s != [] && s[0] == ZPAD
             && (Ready(ctl, junk) || (|s| > 1 && s[1] == ZPAD))
    requires Strip(false, s) == Strip(false, HeaderSent(form, tab, e, last, typ, hdr) + rest)
    ensures var (r, left) := Hunt(tab, ctl, Again, garbage, 5, junk + s);
      r == Header(form, TypeSent(form, typ), hdr) && (!form.Hex? ==> Strip(false, left) == Strip(false, rest))
  {
    var tail := Strip(false, LineEnd(form, typ) + rest);
    var r := Scan(ctl, Again, 5, junk);
    PastGarbage(tab, ctl, Again, garbage, 5, junk, s);
    HeaderIsClean(form, tab, e, last, typ, hdr, rest);
    if Ready(ctl, junk) {
      FromPad(tab, ctl, r.at, LessBy(garbage, r.cost), r.cancount, s);
      PadsBack(form, tab, e, ctl, last, typ, hdr, LessBy(garbage, r.cost), s, tail);
    } else {
      BudgetLeft(garbage, r.cost);
      PadWasted(tab, ctl, r.at, LessBy(garbage, r.cost), r.cancount, s);
      SecondPad(tab, e, ctl, last, typ, hdr, Less(LessBy(garbage, r.cost)), s, tail);
    }
    if !form.Hex? {
      assert LineEnd(form, typ) + rest == rest;
    }
  }

  /** A header is recovered in every form, whatever the hunt comes through before it, flow
      control characters are put into it or bytes follow it. After a binary header all that
      follows is left to be read. */
  lemma HeaderBack(form: Form, tab: Crc.Table16, e: Escapes, ctl: bool, last: Byte, typ: Byte, pos: nat, garbage: nat,
      junk: Bytes, s: Bytes, rest: Bytes)
    requires form.Hex? || Compatible(e, ctl)
    requires Clear(form, ctl, garbage, junk) && s != [] && s[0] == ZPAD
             && (Ready(ctl, junk) || (|s| > 1 && s[1] == ZPAD))
    requires Strip(false, s) == Strip(false, HeaderSent(form, tab, e, last, typ, Stohdr(pos)) + rest)
    ensures var (r, left) := Hunt(tab, ctl, Again, garbage, 5, junk + s);
      r == Header(form, TypeSent(form, typ), Stohdr(pos)) && Rclhdr(r.hdr) == pos % 0x1_0000_0000
      && (!form.Hex? ==> Strip(false, left) == Strip(false, rest) && Strip(ctl, left) == Strip(ctl, rest))
  {
    PositionBack(pos);
    AnyHeaderBack(form, tab, e, ctl, last, typ, Stohdr(pos), garbage, junk, s, rest);
    StripTwice(ctl, rest);
    StripTwice(ctl, Hunt(tab, ctl, Again, garbage, 5, junk + s).1);
  }

  // ----- When every header comes back -----

  /** This header comes back when it is sent after `junk`. */
  predicate Survives(form: Form, tab: Crc.Table16, e: Escapes, ctl: bool, garbage: nat, junk: Bytes,
      last: Byte, typ: Byte, hdr: Bytes, rest: Bytes)
  {
    Hunt(tab, ctl, Again, garbage, 5, junk + (HeaderSent(form, tab, e, last, typ, hdr) + rest)).0
      == Header(form, TypeSent(form, typ), hdr)
  }

  ghost predicate AllSurvive(form: Form, tab: Crc.Table16, e: Escapes, ctl: bool, garbage: nat, junk: Bytes) {
    forall last: Byte, typ: Byte, hdr: Bytes, rest: Bytes ::
      |hdr| == 4 ==> Survives(form, tab, e, ctl, garbage, junk, last, typ, hdr, rest)
  }

  lemma StartsWithPad(form: Form, tab: Crc.Table16, e: Escapes, last: Byte, typ: Byte, hdr: Bytes, rest: Bytes)
      returns (t: Bytes)
    ensures HeaderSent(form, tab, e, last, typ, hdr) + rest == [ZPAD] + t
    ensures form.Hex? ==> t != [] && t[0] == ZPAD
  {
    var s := HeaderSent(form, tab, e, last, typ, hdr) + rest;
    t := s[1..];
    assert s[0] == Pads(form)[0] && s[1] == Pads(form)[1];
  }

  lemma ClearSurvives(form: Form, tab: Crc.Table16, e: Escapes, ctl: bool, garbage: nat, junk: Bytes,
      last: Byte, typ: Byte, hdr: Bytes, rest: Bytes)
    requires Clear(form, ctl, garbage, junk) && (form.Hex? || Compatible(e, ctl)) && |hdr| == 4
    ensures Survives(form, tab, e, ctl, garbage, junk, last, typ, hdr, rest)
  {
    var t := StartsWithPad(form, tab, e, last, typ, hdr, rest);
    AnyHeaderBack(form, tab, e, ctl, last, typ, hdr, garbage, junk,
                  HeaderSent(form, tab, e, last, typ, hdr) + rest, rest);
  }

  lemma CostlyFails(form: Form, tab: Crc.Table16, e: Escapes, ctl: bool, garbage: nat, junk: Bytes, last: Byte,
      typ: Byte, hdr: Bytes, rest: Bytes)
    requires var r := Scan(ctl, Again, 5, junk);
      r.Reached? && Budget(garbage) <= if Ready(ctl, junk) then r.cost else r.cost + 1
    ensures !Survives(form, tab, e, ctl, garbage, junk, last, typ, hdr, rest)
  {
    var r, s := Scan(ctl, Again, 5, junk), HeaderSent(form, tab, e, last, typ, hdr) + rest;
    if r.cost >= Budget(garbage) {
      TooMuchGarbage(tab, ctl, Again, garbage, 5, junk, s);
    } else {
      var t := StartsWithPad(form, tab, e, last, typ, hdr, rest);
      PastGarbage(tab, ctl, Again, garbage, 5, junk, s);
      BudgetLeft(garbage, r.cost);
      PadWasted(tab, ctl, r.at, LessBy(garbage, r.cost), r.cancount, s);
    }
  }

  lemma LostFails(form: Form, tab: Crc.Table16, e: Escapes, ctl: bool, garbage: nat, junk: Bytes) returns (typ: Byte)
    requires Scan(ctl, Again, 5, junk).Lost?
    ensures !Survives(form, tab, e, ctl, garbage, junk, 0, typ, Nulls(4), [])
  {
    typ := if Scan(ctl, Again, 5, junk).typ == 0 then 1 else 0;
    var t := StartsWithPad(form, tab, e, 0, typ, Nulls(4), []);
    LostHeader(tab, ctl, Again, garbage, 5, junk, t);
    assert TypeSent(form, typ) == typ;
  }

  // A header that cannot be found from its second byte on.

  const DULL: Byte := 0x42

  function Dull(n: nat): Bytes {
    seq(n, _ => DULL)
  }

  lemma {:induction false} EncodeDull(e: Escapes, last: Byte, n: nat, more: Bytes)
    ensures Encode(e, last, Dull(n) + more) == Dull(n) + Encode(e, if n == 0 then last else DULL, more)
    decreases n
  {
    var data := Dull(n) + more;
    if n == 0 {
      assert data == more && Dull(0) + Encode(e, last, more) == Encode(e, last, more);
    } else {
      assert data[1..] == Dull(n - 1) + more;
      EncodeDull(e, DULL, n - 1, more);
      assert [DULL] + (Dull(n - 1) + Encode(e, DULL, more)) == Dull(n) + Encode(e, DULL, more);
    }
  }

  lemma {:induction false} EncodeLength(e: Escapes, last: Byte, data: Bytes)
    ensures |Encode(e, last, data)| <= 2 * |data|
    decreases |data|
  {
    if data != [] {
      EncodeLength(e, LastAfter(e, last, data[0]), data[1..]);
    }
  }

  lemma DullBody<C(!new)>(f: Fcs<C>, ind: Byte, e: Escapes, last: Byte) returns (tail: Bytes)
    requires Subpackets.Sound(f) && f.size <= 4
    ensures [ind] + Encode(e, last, Checked(f, DULL, Dull(4))) == [ind] + Dull(5) + tail && |tail| <= 8
  {
    var check := f.trailer(Fold(f, [DULL] + Dull(4), f.init));
    assert Checked(f, DULL, Dull(4)) == Dull(5) + check;
    EncodeDull(e, last, 5, check);
    EncodeLength(e, DULL, check);
    tail := Encode(e, DULL, check);
  }

  lemma DullHeader(form: Form, tab: Crc.Table16, e: Escapes, last: Byte) returns (tail: Bytes)
    requires !form.Hex?
    ensures HeaderSent(form, tab, e, last, DULL, Dull(4)) + [] == ([ZPAD, ZDLE, Indicator(form)] + Dull(5)) + tail
    ensures |tail| <= 8
  {
    Fcs16Sound(tab);
    Fcs32Sound();
    if form.Bin16? {
      tail := DullBody(Fcs16(tab), ZBIN, e, last);
    } else {
      tail := DullBody(Fcs32(), ZBIN32, e, last);
    }
  }

  lemma {:induction false} ScanDull(ctl: bool, n: nat)
    ensures Scan(ctl, Again, 5, Dull(n)) == Reached(Again, 5, n)
    decreases n
  {
    if n > 0 {
      assert Dull(n)[1..] == Dull(n - 1);
      ScanDull(ctl, n - 1);
    }
  }

  lemma ScanOne(ctl: bool, at: Label, cancount: int, c: Byte, more: Bytes)
    requires Standing(at, cancount)
    ensures var m, r := MoveOf(ctl, at, cancount, c), Scan(ctl, at, cancount, [c] + more);
      && (m.Go? ==> Standing(m.at, m.cancount) && r == Scan(ctl, m.at, m.cancount, more))
      && (m.Pay? ==> r == Costing(Scan(ctl, Again, 5, more)))
  {
    assert ([c] + more)[1..] == more;
  }

  /** After the first ZPAD is wasted, the ZDLE counts as CAN and the indicator as garbage. */
  lemma ScanRest(ctl: bool, ind: Byte, more: Bytes, n: nat)
    requires (ind == ZBIN || ind == ZBIN32) && Scan(ctl, Again, 5, more) == Reached(Again, 5, n)
    ensures Scan(ctl, Again, 5, [ZDLE] + ([ind] + more)) == Reached(Again, 5, n + 1)
  {
    ScanOne(ctl, Again, 5, ZDLE, [ind] + more);
    ScanOne(ctl, GotCan, 5, ind, more);
  }

  lemma ScanWasted(ctl: bool, at: Label, cancount: int, ind: Byte, more: Bytes, n: nat)
    requires Standing(at, cancount) && (at.Kind? || at.GotCan?) && (ind == ZBIN || ind == ZBIN32)
    requires Scan(ctl, Again, 5, more) == Reached(Again, 5, n)
    ensures Scan(ctl, at, cancount, [ZPAD] + ([ZDLE] + ([ind] + more))) == Reached(Again, 5, n + 2)
  {
    ScanRest(ctl, ind, more, n);
    ScanOne(ctl, at, cancount, ZPAD, [ZDLE] + ([ind] + more));
  }

  lemma PadsTogether(ind: Byte, more: Bytes)
    ensures [ZPAD, ZDLE, ind] + more == [ZPAD] + ([ZDLE] + ([ind] + more))
  {
  }

  lemma DullLost(form: Form, tab: Crc.Table16, e: Escapes, ctl: bool, at: Label, garbage: nat, cancount: int,
      last: Byte)
    requires !form.Hex? && Standing(at, cancount) && (at.Kind? || at.GotCan?)
    ensures Hunt(tab, ctl, at, garbage, cancount, HeaderSent(form, tab, e, last, DULL, Dull(4)) + []).0.Failed?
  {
    var tail := DullHeader(form, tab, e, last);
    var front := [ZPAD, ZDLE, Indicator(form)] + Dull(5);
    ScanDull(ctl, 5);
    ScanWasted(ctl, at, cancount, Indicator(form), Dull(5), 5);
    PadsTogether(Indicator(form), Dull(5));
    if 7 >= Budget(garbage) {
      TooMuchGarbage(tab, ctl, at, garbage, cancount, front, tail);
    } else {
      PastGarbage(tab, ctl, at, garbage, cancount, front, tail);
      TooShort(tab, ctl, Again, LessBy(garbage, 7), 5, tail);
    }
  }

  lemma UnreadyFails(form: Form, tab: Crc.Table16, e: Escapes, ctl: bool, garbage: nat, junk: Bytes)
    requires !form.Hex? && Scan(ctl, Again, 5, junk).Reached? && !Ready(ctl, junk)
    ensures !Survives(form, tab, e, ctl, garbage, junk, 0, DULL, Dull(4), [])
  {
    var r := Scan(ctl, Again, 5, junk);
    if r.cost >= Budget(garbage) {
      CostlyFails(form, tab, e, ctl, garbage, junk, 0, DULL, Dull(4), []);
    } else {
      PastGarbage(tab, ctl, Again, garbage, 5, junk, HeaderSent(form, tab, e, 0, DULL, Dull(4)) + []);
      DullLost(form, tab, e, ctl, r.at, LessBy(garbage, r.cost), r.cancount, 0);
    }
  }

  /** Whatever comes before it: every header of a form comes back exactly if the hunt comes
      through that to a header. */
  lemma ComesBackIff(form: Form, tab: Crc.Table16, e: Escapes, ctl: bool, garbage: nat, junk: Bytes)
    requires form.Hex? || Compatible(e, ctl)
    ensures AllSurvive(form, tab, e, ctl, garbage, junk) <==> Clear(form, ctl, garbage, junk)
  {
    if Clear(form, ctl, garbage, junk) {
      forall last: Byte, typ: Byte, hdr: Bytes, rest: Bytes | |hdr| == 4
        ensures Survives(form, tab, e, ctl, garbage, junk, last, typ, hdr, rest)
      {
        ClearSurvives(form, tab, e, ctl, garbage, junk, last, typ, hdr, rest);
      }
    } else if Scan(ctl, Again, 5, junk).Lost? {
      var typ := LostFails(form, tab, e, ctl, garbage, junk);
    } else if form.Hex? || Ready(ctl, junk) {
      CostlyFails(form, tab, e, ctl, garbage, junk, 0, 0, Nulls(4), []);
    } else {
      UnreadyFails(form, tab, e, ctl, garbage, junk);
    }
  }

  /** ZPAD with its parity bit set is harmless, also as part of a longer stretch of garbage ... */
  lemma {:induction false} PlainIsClear(ctl: bool, at: Label, junk: Bytes)
    requires at.Again? || at.Splat?
    requires forall i :: 0 <= i < |junk| ==> junk[i] & 0x7F != CAN
    ensures var r := Scan(ctl, at, 5, junk); r.Reached? && (r.at.Again? || r.at.Splat?) && r.cost <= |junk|
    decreases |junk|
  {
    if junk != [] {
      PlainIsClear(ctl, Again, junk[1..]);
      PlainIsClear(ctl, Splat, junk[1..]);
    }
  }

  /** ... unless CAN, which may have its parity bit set, follows: then a binary header is lost. */
  lemma ParityLoses(ctl: bool, garbage: nat)
    ensures var zero: Crc.Table16 := (_: Byte) => 0;
      !Survives(Bin16, zero, Escapes(false, false), ctl, garbage, [0xAA, 0x98], 0, 0, Nulls(4), [])
    ensures HeaderSent(Bin16, (_: Byte) => 0, Escapes(false, false), 0, 0, Nulls(4)) == [ZPAD, ZDLE, ZBIN] + Nulls(7)
  {
    var zero: Crc.Table16 := (_: Byte) => 0;
    ZeroHeader(zero);
    var s := [ZPAD, ZDLE, ZBIN] + Nulls(7);
    ScanOne(ctl, Again, 5, 0xAA, [0x98]);
    ScanOne(ctl, Splat, 5, 0x98, []);
    assert [0xAA] + [0x98] == [0xAA, 0x98] && [0x98] + [] == [0x98];
    PastGarbage(zero, ctl, Again, garbage, 5, [0xAA, 0x98], s);
    PadWasted(zero, ctl, Kind, garbage, 5, s);
    TooShort(zero, ctl, Again, Less(garbage), 5, s[1..]);
    assert s + [] == s;
  }

  lemma ZeroHeader(zero: Crc.Table16)
    requires forall b :: zero(b) == 0
    ensures HeaderSent(Bin16, zero, Escapes(false, false), 0, 0, Nulls(4)) == [ZPAD, ZDLE, ZBIN] + Nulls(7)
  {
    var f, e := Fcs16(zero), Escapes(false, false);
    assert [0] + Nulls(4) == Nulls(5);
    FoldZeros(zero, 5);
    assert f.trailer(0) == Nulls(2);
    assert Checked(f, 0, Nulls(4)) == Nulls(7);
    EncodeZeros(e, 7);
  }

  lemma {:induction false} FoldZeros(zero: Crc.Table16, n: nat)
    requires forall b :: zero(b) == 0
    ensures Fold(Fcs16(zero), Nulls(n), 0) == 0
    decreases n
  {
    if n > 0 {
      assert Nulls(n)[1..] == Nulls(n - 1);
      FoldZeros(zero, n - 1);
    }
  }

  lemma {:induction false} EncodeZeros(e: Escapes, n: nat)
    requires !e.ctl
    ensures Encode(e, 0, Nulls(n)) == Nulls(n)
    decreases n
  {
    if n > 0 {
      assert Nulls(n)[1..] == Nulls(n - 1);
      EncodeZeros(e, n - 1);
      assert [0] + Nulls(n - 1) == Nulls(n);
    }
  }
}
