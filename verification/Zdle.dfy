/** ZDLE escape coding of rzsz/zm.c as functions on byte sequences (ZMODEM Inter Application
    File Transfer Protocol, section 7.2): how a sender encodes bytes and how a receiver reads
    them back from a line that may add flow-control characters of its own. */
module Zdle {
  type Byte = bv8
  type Bytes = seq<Byte>

  const ZDLE: Byte := 0x18
  const CAN: Byte := 0x18
  const XON: Byte := 0x11
  const XOFF: Byte := 0x13
  const CR: Byte := 0x0D
  const DLE: Byte := 0x10
  const AT: Byte := 0x40
  const ZCRCE: Byte := 0x68
  const ZCRCG: Byte := 0x69
  const ZCRCQ: Byte := 0x6A
  const ZCRCW: Byte := 0x6B
  const ZRUB0: Byte := 0x6C
  const ZRUB1: Byte := 0x6D

  // ----- Sending -----

  /** Zctlesc and turbo_escape of the sender. */
  datatype Escapes = Escapes(ctl: bool, turbo: bool)

  datatype Rule = Plain | Always | AfterAt

  predicate IsControl(c: Byte) { c & 0x60 == 0 }

  predicate IsFlow(c: Byte) { c & 0x7F == XON || c & 0x7F == XOFF }

  /** zsendline_tab[c], as zsendline_init fills it in. */
  function RuleOf(e: Escapes, c: Byte): Rule {
    if !IsControl(c) then Plain
    else if c == ZDLE || IsFlow(c) then Always
    else if c & 0x7F == DLE then if e.turbo then Plain else Always
    else if c & 0x7F == CR then if e.ctl then Always else if e.turbo then Plain else AfterAt
    else if e.ctl then Always else Plain
  }

  /** zsendline() escapes `c` when the byte sent before it was `last`. */
  predicate Escaped(e: Escapes, last: Byte, c: Byte) {
    RuleOf(e, c) == Always || (RuleOf(e, c) == AfterAt && last & 0x7F == AT)
  }

  function Flip(c: Byte): Byte { c ^ 0x40 }

  function EncodeByte(e: Escapes, last: Byte, c: Byte): Bytes {
    if Escaped(e, last, c) then [ZDLE, Flip(c)] else [c]
  }

  /** `lastsent` after sending `c`. */
  function LastAfter(e: Escapes, last: Byte, c: Byte): Byte {
    if Escaped(e, last, c) then Flip(c) else c
  }

  function Encode(e: Escapes, last: Byte, data: Bytes): Bytes
    decreases |data|
  {
    if data == [] then []
    else EncodeByte(e, last, data[0]) + Encode(e, LastAfter(e, last, data[0]), data[1..])
  }

  function LastOf(e: Escapes, last: Byte, data: Bytes): Byte
    decreases |data|
  {
    if data == [] then last else LastOf(e, LastAfter(e, last, data[0]), data[1..])
  }

  lemma {:induction false} EncodeConcat(e: Escapes, last: Byte, a: Bytes, b: Bytes)
    ensures Encode(e, last, a + b) == Encode(e, last, a) + Encode(e, LastOf(e, last, a), b)
    ensures LastOf(e, last, a + b) == LastOf(e, LastOf(e, last, a), b)
    decreases |a|
  {
    if a == [] {
      assert a + b == b;
    } else {
      assert (a + b)[1..] == a[1..] + b;
      EncodeConcat(e, LastAfter(e, last, a[0]), a[1..], b);
    }
  }

  // ----- What goes out raw -----

  /** A carriage return, with either parity, right behind an '@'. */
  predicate ReturnAfterAt(a: Byte, b: Byte) {
    a & 0x7F == 0x40 && b & 0x7F == 0x0D
  }

  predicate NoneAfterAt(s: Bytes) {
    forall i :: 0 <= i < |s| - 1 ==> !ReturnAfterAt(s[i], s[i + 1])
  }

  lemma EscapedIsNoReturn(e: Escapes, last: Byte, c: Byte)
    requires !e.turbo
    ensures Escaped(e, last, c) ==> !ReturnAfterAt(last, 0x18) && !ReturnAfterAt(0x18, Flip(c))
    ensures !Escaped(e, last, c) ==> !ReturnAfterAt(last, c)
  {
  }

  /** Without turbo_escape no carriage return is ever sent right behind an '@', be it data, part
      of an escape or the last byte sent before. */
  lemma {:induction false} NoReturnAfterAt(e: Escapes, last: Byte, data: Bytes)
    requires !e.turbo
    ensures NoneAfterAt([last] + Encode(e, last, data))
    decreases |data|
  {
    if data != [] {
      var next := LastAfter(e, last, data[0]);
      EscapedIsNoReturn(e, last, data[0]);
      NoReturnAfterAt(e, next, data[1..]);
      SeamIsClean(last, EncodeByte(e, last, data[0]), next, Encode(e, next, data[1..]));
    }
  }

  lemma SeamIsClean(last: Byte, a: Bytes, next: Byte, rest: Bytes)
    requires a != [] && a[|a| - 1] == next && !ReturnAfterAt(last, a[0])
    requires |a| <= 2 && (|a| == 2 ==> !ReturnAfterAt(a[0], a[1]))
    requires NoneAfterAt([next] + rest)
    ensures NoneAfterAt([last] + (a + rest))
  {
    var s, t := [last] + (a + rest), [next] + rest;
    forall i | 0 <= i < |s| - 1 ensures !ReturnAfterAt(s[i], s[i + 1]) {
      if i >= |a| {
        assert s[i] == t[i - |a|] && s[i + 1] == t[i + 1 - |a|];
      }
    }
  }

  /** With neither setting a carriage return goes out as it is in any other place, and behind an
      '@' as an escape. */
  lemma ReturnIsRaw(last: Byte, c: Byte)
    requires c & 0x7F == 0x0D
    ensures EncodeByte(Escapes(false, false), last, c) == if last & 0x7F == 0x40 then [0x18, c ^ 0x40] else [c]
  {
  }

  /** Which bytes are escaped, wherever they stand: CAN, XON and XOFF always, DLE unless
      turbo_escape is on, the other control characters if Zctlesc is; carriage returns are left
      to the rule above. */
  lemma EscapedIff(e: Escapes, last: Byte, c: Byte)
    requires c & 0x7F != 0x0D
    ensures EncodeByte(e, last, c) ==
      if c == 0x18 || c in {0x11, 0x91, 0x13, 0x93} || (c in {0x10, 0x90} && !e.turbo)
        || (e.ctl && c & 0x60 == 0 && c !in {0x10, 0x90})
      then [0x18, c ^ 0x40] else [c]
  {
  }

  /** Zctlesc escapes every carriage return, turbo_escape alone none. */
  lemma ReturnEscaped(e: Escapes, last: Byte, c: Byte)
    requires c & 0x7F == 0x0D && (e.ctl || e.turbo)
    ensures EncodeByte(e, last, c) == if e.ctl then [0x18, c ^ 0x40] else [c]
  {
  }

  // ----- Receiving -----

  /** What zdlread returns: a data byte, a frame end (c | GOTOR), CAN*5, ERROR or TIMEOUT. */
  datatype Got = Data(b: Byte) | End(f: Byte) | Cancel | Bad | Timeout

  /** Bytes that a receiver with Zctlesc == ctl passes over: XON, XOFF and, when it expects
      control characters to be escaped, any raw control character but ZDLE. */
  predicate Ignored(ctl: bool, c: Byte) {
    IsFlow(c) || (ctl && IsControl(c) && c != ZDLE)
  }

  predicate IsEnd(c: Byte) { c in {ZCRCE, ZCRCG, ZCRCQ, ZCRCW} }

  /** zdlread(): what it returns and what it leaves unread. */
  function Read(ctl: bool, s: Bytes): (r: (Got, Bytes))
    ensures |r.1| <= |s| && (r.0 != Timeout ==> |r.1| < |s|)
    decreases |s|
  {
    if s == [] then (Timeout, [])
    else if !IsControl(s[0]) then (Data(s[0]), s[1..])
    else if s[0] == ZDLE then ReadEscaped(ctl, s[1..], 3)
    else if Ignored(ctl, s[0]) then Read(ctl, s[1..])
    else (Data(s[0]), s[1..])
  }

  /** zdlread2() after a ZDLE: up to `n` more CANs are read on before deciding. */
  function ReadEscaped(ctl: bool, s: Bytes, n: nat): (r: (Got, Bytes))
    ensures |r.1| <= |s| && (r.0 != Timeout ==> |r.1| < |s|)
    decreases |s|
  {
    if s == [] then (Timeout, [])
    else if s[0] == CAN then
      if n > 0 then ReadEscaped(ctl, s[1..], n - 1) else (Cancel, s[1..])
    else if IsEnd(s[0]) then (End(s[0]), s[1..])
    else if s[0] == ZRUB0 then (Data(0x7F), s[1..])
    else if s[0] == ZRUB1 then (Data(0xFF), s[1..])
    else if Ignored(ctl, s[0]) then ReadEscaped(ctl, s[1..], 3)
    else if s[0] & 0x60 == 0x40 then (Data(Flip(s[0])), s[1..])
    else (Bad, s[1..])
  }

  /** What a single byte stands for on an undisturbed line. */
  lemma RawRead(ctl: bool, c: Byte, rest: Bytes)
    requires c & 0x60 != 0 || (!ctl && c != 0x18 && c !in {0x11, 0x91, 0x13, 0x93})
    ensures Read(ctl, [c] + rest) == (Data(c), rest)
  {
    assert ([c] + rest)[1..] == rest;
  }

  /** What CAN and another byte stand for: a frame end, one of the two rubouts, a byte with its
      sixth bit turned over, or nothing. */
  lemma EscapeRead(ctl: bool, c: Byte, rest: Bytes)
    requires c & 0x60 != 0
    ensures Read(ctl, [0x18, c] + rest) ==
      (if c in {0x68, 0x69, 0x6A, 0x6B} then End(c)
       else if c == 0x6C then Data(0x7F)
       else if c == 0x6D then Data(0xFF)
       else if c & 0x60 == 0x40 then Data(c ^ 0x40)
       else Bad, rest)
  {
    var s := [0x18, c] + rest;
    assert s[1..] == [c] + rest && s[1..][1..] == rest;
  }

  /** Five CANs in a row cancel the session. */
  lemma FiveCans(ctl: bool, rest: Bytes)
    ensures Read(ctl, [0x18, 0x18, 0x18, 0x18, 0x18] + rest) == (Cancel, rest)
  {
    var s := [0x18, 0x18, 0x18, 0x18, 0x18] + rest;
    assert ReadEscaped(ctl, s[4..], 0) == (Cancel, rest);
    assert ReadEscaped(ctl, s[3..], 1) == ReadEscaped(ctl, s[4..], 0);
    assert ReadEscaped(ctl, s[2..], 2) == ReadEscaped(ctl, s[3..], 1);
    assert ReadEscaped(ctl, s[1..], 3) == ReadEscaped(ctl, s[2..], 2);
  }

  function Cans(k: nat): Bytes { seq(k, _ => 0x18) }

  /** Up to four are one ZDLE: a frame end behind them counts. */
  lemma FourCans(ctl: bool, k: nat, end: Byte, rest: Bytes)
    requires 1 <= k <= 4 && end in {0x68, 0x69, 0x6A, 0x6B}
    ensures Read(ctl, Cans(k) + ([end] + rest)) == (End(end), rest)
  {
    var s := Cans(k) + ([end] + rest);
    assert s[1..] == Cans(k - 1) + ([end] + rest);
    CansInside(ctl, k - 1, 3, end, rest);
  }

  lemma {:induction false} CansInside(ctl: bool, k: nat, n: nat, end: Byte, rest: Bytes)
    requires k <= n && end in {0x68, 0x69, 0x6A, 0x6B}
    ensures ReadEscaped(ctl, Cans(k) + ([end] + rest), n) == (End(end), rest)
    decreases k
  {
    var s := Cans(k) + ([end] + rest);
    if k == 0 {
      assert s[1..] == rest;
    } else {
      assert s[1..] == Cans(k - 1) + ([end] + rest);
      CansInside(ctl, k - 1, n - 1, end, rest);
    }
  }

  /** The line without what the receiver passes over. */
  function Strip(ctl: bool, s: Bytes): (r: Bytes)
    ensures |r| <= |s|
    decreases |s|
  {
    if s == [] then [] else (if Ignored(ctl, s[0]) then [] else [s[0]]) + Strip(ctl, s[1..])
  }

  lemma {:induction false} StripConcat(ctl: bool, a: Bytes, b: Bytes)
    ensures Strip(ctl, a + b) == Strip(ctl, a) + Strip(ctl, b)
    decreases |a|
  {
    if a == [] {
      assert a + b == b;
    } else {
      assert (a + b)[1..] == a[1..] + b;
      StripConcat(ctl, a[1..], b);
    }
  }

  lemma {:induction false} StripClean(ctl: bool, s: Bytes)
    requires forall i :: 0 <= i < |s| ==> !Ignored(ctl, s[i])
    ensures Strip(ctl, s) == s
    decreases |s|
  {
    if s != [] {
      StripClean(ctl, s[1..]);
    }
  }

  // ----- Reading back what was sent -----

  // The line may carry any of the bytes that the receiver passes over (`n` == `ctl`), or flow
  // control only (`n` == false).

  lemma Quiet(n: bool, s: Bytes, c: Byte, rest: Bytes)
    requires s != [] && !Ignored(n, s[0]) && Strip(n, s) == [c] + rest
    ensures s[0] == c && Strip(n, s[1..]) == rest
  {
    assert ([c] + rest)[1..] == rest;
    assert Strip(n, s)[1..] == Strip(n, s[1..]);
  }

  /** A plain byte is read through any noise before it. */
  lemma {:induction false} ReadPlain(ctl: bool, n: bool, s: Bytes, c: Byte, rest: Bytes)
    requires (n ==> ctl) && Strip(n, s) == [c] + rest && c != ZDLE && !Ignored(ctl, c)
    ensures Read(ctl, s).0 == Data(c) && Strip(n, Read(ctl, s).1) == rest
    decreases |s|
  {
    if s != [] && Ignored(n, s[0]) {
      NoiseIsControl(ctl, s[0]);
      ReadPlain(ctl, n, s[1..], c, rest);
    } else {
      Quiet(n, s, c, rest);
    }
  }

  lemma NoiseIsControl(ctl: bool, c: Byte)
    requires Ignored(ctl, c)
    ensures IsControl(c) && c != ZDLE
  {
  }

  /** So is an escape sequence, noise inside it included. */
  lemma {:induction false} ReadZdle(ctl: bool, n: bool, s: Bytes, c: Byte, rest: Bytes)
    requires (n ==> ctl) && Strip(n, s) == [ZDLE, c] + rest && c != CAN && !Ignored(ctl, c)
    ensures Strip(n, Read(ctl, s).1) == rest
    ensures IsEnd(c) ==> Read(ctl, s).0 == End(c)
    ensures c & 0x60 == 0x40 ==> Read(ctl, s).0 == Data(Flip(c))
    decreases |s|
  {
    if s != [] && Ignored(n, s[0]) {
      NoiseIsControl(ctl, s[0]);
      ReadZdle(ctl, n, s[1..], c, rest);
    } else {
      assert [ZDLE, c] + rest == [ZDLE] + ([c] + rest);
      Quiet(n, s, ZDLE, [c] + rest);
      ReadAfterZdle(ctl, n, s[1..], c, rest);
    }
  }

  lemma {:induction false} ReadAfterZdle(ctl: bool, n: bool, s: Bytes, c: Byte, rest: Bytes)
    requires (n ==> ctl) && Strip(n, s) == [c] + rest && c != CAN && !Ignored(ctl, c)
    ensures Strip(n, ReadEscaped(ctl, s, 3).1) == rest
    ensures IsEnd(c) ==> ReadEscaped(ctl, s, 3).0 == End(c)
    ensures c & 0x60 == 0x40 ==> ReadEscaped(ctl, s, 3).0 == Data(Flip(c))
    decreases |s|
  {
    if s != [] && Ignored(n, s[0]) {
      NoiseIsControl(ctl, s[0]);
      ControlIsNoEnd(s[0]);
      ReadAfterZdle(ctl, n, s[1..], c, rest);
    } else {
      Quiet(n, s, c, rest);
    }
  }

  lemma ControlIsNoEnd(c: Byte)
    requires IsControl(c)
    ensures !IsEnd(c) && c != ZRUB0 && c != ZRUB1
  {
  }

  /** The receiver may expect control characters escaped only if the sender escapes them all. */
  predicate Compatible(e: Escapes, ctl: bool) {
    ctl ==> e.ctl && !e.turbo
  }

  /** `left` is the end of `s`. */
  predicate IsTail(left: Bytes, s: Bytes) {
    |left| <= |s| && s[|s| - |left|..] == left
  }

  lemma TailFurther(left: Bytes, s: Bytes)
    requires s != [] && IsTail(left, s[1..])
    ensures IsTail(left, s)
  {
  }

  lemma TailOfTail(a: Bytes, b: Bytes, c: Bytes)
    requires IsTail(a, b) && IsTail(b, c)
    ensures IsTail(a, c)
  {
    assert c[|c| - |b|..][|b| - |a|..] == c[|c| - |a|..];
  }

  lemma {:induction false} ReadTail(ctl: bool, s: Bytes)
    ensures IsTail(Read(ctl, s).1, s)
    decreases |s|
  {
    if s != [] {
      EscapedTail(ctl, s[1..], 3);
      ReadTail(ctl, s[1..]);
      assert IsTail(s[1..], s[1..]);
      var left := Read(ctl, s).1;
      assert IsTail(left, s[1..]);
      TailFurther(left, s);
    }
  }

  lemma {:induction false} EscapedTail(ctl: bool, s: Bytes, n: nat)
    ensures IsTail(ReadEscaped(ctl, s, n).1, s)
    decreases |s|
  {
    if s != [] {
      EscapedTail(ctl, s[1..], 3);
      if n > 0 {
        EscapedTail(ctl, s[1..], n - 1);
      }
      assert IsTail(s[1..], s[1..]);
      var left := ReadEscaped(ctl, s, n).1;
      assert IsTail(left, s[1..]);
      TailFurther(left, s);
    }
  }

  /** What is sent for one byte reads back as that byte. */
  lemma ReadBackByte(e: Escapes, ctl: bool, n: bool, last: Byte, c: Byte, s: Bytes, rest: Bytes)
    requires Compatible(e, ctl) && (n ==> ctl)
    requires Strip(n, s) == EncodeByte(e, last, c) + rest
    ensures Read(ctl, s).0 == Data(c) && Strip(n, Read(ctl, s).1) == rest
  {
    if Escaped(e, last, c) {
      EscapedIsControl(e, last, c);
      ReadZdle(ctl, n, s, Flip(c), rest);
    } else {
      RawIsClean(e, ctl, last, c);
      ReadPlain(ctl, n, s, c, rest);
    }
  }

  lemma EscapedIsControl(e: Escapes, last: Byte, c: Byte)
    requires Escaped(e, last, c)
    ensures IsControl(c) && Flip(c) & 0x60 == 0x40 && Flip(c) != CAN && Flip(Flip(c)) == c
    ensures !IsFlow(Flip(c)) && !IsControl(Flip(c))
  {
  }

  /** Nothing that is sent for data is noise to a compatible receiver, flow control least of all. */
  lemma {:induction false} EncodeIsClean(e: Escapes, ctl: bool, last: Byte, data: Bytes)
    requires Compatible(e, ctl)
    ensures forall i :: 0 <= i < |Encode(e, last, data)| ==>
      !Ignored(ctl, Encode(e, last, data)[i]) && !IsFlow(Encode(e, last, data)[i])
    decreases |data|
  {
    if data != [] {
      if Escaped(e, last, data[0]) {
        EscapedIsControl(e, last, data[0]);
      } else {
        RawIsClean(e, ctl, last, data[0]);
      }
      EncodeIsClean(e, ctl, LastAfter(e, last, data[0]), data[1..]);
    }
  }

  lemma RawIsClean(e: Escapes, ctl: bool, last: Byte, c: Byte)
    requires Compatible(e, ctl) && !Escaped(e, last, c)
    ensures !Ignored(ctl, c) && c != ZDLE
  {
  }

  /** The escape settings of the two sides are compatible exactly when every byte, after every
      other, reads back as itself. */
  lemma CompatibleIff(e: Escapes, ctl: bool)
    ensures Compatible(e, ctl) <==>
      forall last: Byte, c: Byte :: Read(ctl, EncodeByte(e, last, c)) == (Data(c), [])
  {
    if Compatible(e, ctl) {
      forall last: Byte, c: Byte ensures Read(ctl, EncodeByte(e, last, c)) == (Data(c), []) {
        var s := EncodeByte(e, last, c);
        if Escaped(e, last, c) {
          EscapedIsControl(e, last, c);
          assert s[1..] == [Flip(c)] && s[1..][1..] == [];
        } else {
          RawIsClean(e, ctl, last, c);
          assert s[1..] == [];
        }
      }
    } else {
      var c: Byte := if e.turbo then DLE else 1;
      assert EncodeByte(e, 0, c) == [c];
      assert Ignored(ctl, c);
      assert Read(ctl, EncodeByte(e, 0, c)) != (Data(c), []);
    }
  }
}
