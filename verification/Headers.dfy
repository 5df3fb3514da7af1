/** Headers of rzsz/zm.c as functions (ZMODEM Inter Application File Transfer Protocol, section
    7.3): what is sent in each of the three forms, and how a receiver hunts for a header in
    whatever comes before it. */
module Headers {
  import opened Basics
  import Crc
  import opened WordNat
  import opened Zdle
  import opened Subpackets

  const ZPAD: Byte := 0x2A
  const ZBIN: Byte := 0x41
  const ZHEX: Byte := 0x42
  const ZBIN32: Byte := 0x43
  const LF: Byte := 0x0A
  const ZACK: Byte := 3
  const ZFIN: Byte := 8
  const ZDATA: Byte := 10

  // ----- Positions -----

  /** stohdr(): the four low bytes of a position, low byte first. */
  function Stohdr(pos: nat): (hdr: Bytes)
    ensures |hdr| == 4
  {
    Digits(pos, 4)
  }

  /** rclhdr() and the last lines of zgethdr(). */
  function Rclhdr(hdr: Bytes): nat
    requires |hdr| == 4
  {
    ((hdr[3] as nat * 256 + hdr[2] as nat) * 256 + hdr[1] as nat) * 256 + hdr[0] as nat
  }

  /** A position comes back modulo 2^32. */
  lemma PositionBack(pos: nat)
    ensures Rclhdr(Stohdr(pos)) == pos % 0x1_0000_0000
  {
    var a, b, c := pos / 256, pos / 256 / 256, pos / 256 / 256 / 256;
    FourDigits(pos, a, b, c);
    DigitByte(pos % 256);
    DigitByte(a % 256);
    DigitByte(b % 256);
    DigitByte(c % 256);
    Horner(pos, a, b, c);
  }

  /** Positions stand low byte first. */
  lemma LowByteFirst(pos: nat)
    ensures Stohdr(pos)[0] as nat == pos % 256 && Stohdr(pos)[1] as nat == pos / 256 % 256
    ensures Stohdr(pos)[2] as nat == pos / 65536 % 256 && Stohdr(pos)[3] as nat == pos / 16777216 % 256
  {
    DividedAgain(pos);
    FourDigits(pos, pos / 256, pos / 256 / 256, pos / 256 / 256 / 256);
    DigitByte(pos % 256);
    DigitByte(pos / 256 % 256);
    DigitByte(pos / 256 / 256 % 256);
    DigitByte(pos / 256 / 256 / 256 % 256);
  }

  lemma DividedAgain(pos: nat)
    ensures pos / 256 / 256 == pos / 65536 && pos / 256 / 256 / 256 == pos / 16777216
  {
  }

  /** ... and are read so. */
  lemma LowByteRead(hdr: Bytes)
    requires |hdr| == 4
    ensures Rclhdr(hdr) == hdr[0] as nat + 256 * hdr[1] as nat + 65536 * hdr[2] as nat + 16777216 * hdr[3] as nat
  {
  }

  lemma Horner(pos: nat, a: nat, b: nat, c: nat)
    requires a == pos / 256 && b == a / 256 && c == b / 256
    ensures ((c % 256 * 256 + b % 256) * 256 + a % 256) * 256 + pos % 256 == pos % 0x1_0000_0000
  {
    var d, low := c / 256, ((c % 256 * 256 + b % 256) * 256 + a % 256) * 256 + pos % 256;
    LowPart(d, low, pos);
  }

  lemma LowPart(high: nat, low: nat, n: nat)
    requires n == high * 0x1_0000_0000 + low && low < 0x1_0000_0000
    ensures low == n % 0x1_0000_0000
  {
  }

  lemma FourDigits(pos: nat, a: nat, b: nat, c: nat)
    requires a == pos / 256 && b == a / 256 && c == b / 256
    ensures Digits(pos, 4) == [(pos % 256) as Byte, (a % 256) as Byte, (b % 256) as Byte, (c % 256) as Byte]
  {
    OneDigit(pos, 4);
    OneDigit(a, 3);
    OneDigit(b, 2);
    OneDigit(c, 1);
  }

  lemma OneDigit(o: nat, n: nat)
    requires n > 0
    ensures Digits(o, n) == [(o % 256) as Byte] + Digits(o / 256, n - 1)
  {
  }

  // ----- Hex digits -----

  function HexDigit(n: Byte): Byte
    requires n < 16
  {
    if n < 10 then n + 0x30 else n + 0x57
  }

  /** zputhex() */
  function PutHex(c: Byte): Bytes {
    [HexDigit(c >> 4), HexDigit(c & 0xF)]
  }

  function PutHexes(data: Bytes): Bytes {
    if data == [] then [] else PutHex(data[0]) + PutHexes(data[1..])
  }

  /** One digit as zgeth1() decodes it, in its unsigned reading: what is below '0' wraps
      around to something that is no digit either. */
  function Nibble(c: Byte): Option<Byte> {
    var n := if c - 0x30 > 9 then c - 0x30 - 39 else c - 0x30;
    if n & 0xF0 == 0 then Some(n) else None
  }

  lemma NibbleBack(c: Byte)
    ensures Nibble(HexDigit(c >> 4)) == Some(c >> 4) && Nibble(HexDigit(c & 0xF)) == Some(c & 0xF)
    ensures (((c >> 4) << 4) + (c & 0xF)) == c
  {
  }

  lemma HexIsPlain(n: Byte)
    requires n < 16
    ensures HexDigit(n) & 0x7F == HexDigit(n) && !IsControl(HexDigit(n)) && !IsFlow(HexDigit(n))
  {
  }

  // ----- Sending -----

  datatype Form = Hex | Bin16 | Bin32

  function Indicator(form: Form): Byte {
    match form
    case Hex => ZHEX
    case Bin16 => ZBIN
    case Bin32 => ZBIN32
  }

  /** A hex header carries 7 bits of its type. */
  function TypeSent(form: Form, typ: Byte): Byte {
    if form.Hex? then typ & 0x7F else typ
  }

  /** Type, position and check as they stand in the header. */
  function Checked<C>(f: Fcs<C>, typ: Byte, hdr: Bytes): Bytes {
    [typ] + hdr + f.trailer(Fold(f, [typ] + hdr, f.init))
  }

  /** The header from its indicator on. */
  function Body(form: Form, tab: Crc.Table16, e: Escapes, last: Byte, typ: Byte, hdr: Bytes): Bytes {
    match form
    case Hex => [ZHEX] + PutHexes(Checked(Fcs16(tab), typ & 0x7F, hdr))
    case Bin16 => [ZBIN] + Encode(e, last, Checked(Fcs16(tab), typ, hdr))
    case Bin32 => [ZBIN32] + Encode(e, last, Checked(Fcs32(), typ, hdr))
  }

  /** The padding of a header. */
  function Pads(form: Form): Bytes {
    if form.Hex? then [ZPAD, ZPAD, ZDLE] else [ZPAD, ZDLE]
  }

  /** What ends a hex header: a line end, and an XON unless the session ends here. */
  function LineEnd(form: Form, typ: Byte): Bytes {
    if form.Hex? then [CR, LF | 0x80] + (if typ != ZFIN && typ != ZACK then [XON] else []) else []
  }

  /** What zshhdr, zsbhdr and zsbh32 write, but for the nulls before a binary ZDATA header. */
  function HeaderSent(form: Form, tab: Crc.Table16, e: Escapes, last: Byte, typ: Byte, hdr: Bytes): Bytes {
    Pads(form) + Body(form, tab, e, last, typ, hdr) + LineEnd(form, typ)
  }

  lemma DigitIs(n: Byte)
    requires n < 16
    ensures HexDigit(n) == if n < 10 then 48 + n else 97 + (n - 10)
  {
  }

  /** A hex header, byte by byte: two asterisks, CAN and 'B', the digits of type, position and
      check, the line end, and XON unless the type is ZACK or ZFIN. */
  lemma HexHeaderIs(tab: Crc.Table16, e: Escapes, last: Byte, typ: Byte, hdr: Bytes)
    ensures var fields := [typ & 0x7F] + hdr;
      HeaderSent(Hex, tab, e, last, typ, hdr) ==
      [0x2A, 0x2A, 0x18, 0x42] + PutHexes(fields + Crc.Trailer16(tab, Crc.Crc16(tab, fields, 0))) + [0x0D, 0x8A]
      + if typ == 3 || typ == 8 then [] else [0x11]
  {
    var fields := [typ & 0x7F] + hdr;
    Fold16(tab, fields, 0);
    var digits, end := PutHexes(fields + Crc.Trailer16(tab, Crc.Crc16(tab, fields, 0))), LineEnd(Hex, typ);
    assert [0x2A, 0x2A, 0x18] + ([0x42] + digits) == [0x2A, 0x2A, 0x18, 0x42] + digits;
    assert end == [0x0D, 0x8A] + if typ == 3 || typ == 8 then [] else [0x11];
    Grouped([0x2A, 0x2A, 0x18, 0x42] + digits, [0x0D, 0x8A], if typ == 3 || typ == 8 then [] else [0x11]);
  }

  /** A binary header: an asterisk, CAN and 'A' or, with the 32-bit check, 'C', and the rest
      escaped. */
  lemma BinaryHeaderIs(tab: Crc.Table16, e: Escapes, last: Byte, typ: Byte, hdr: Bytes)
    ensures var fields := [typ] + hdr;
      && HeaderSent(Bin16, tab, e, last, typ, hdr)
         == [0x2A, 0x18, 0x41] + Encode(e, last, fields + Crc.Trailer16(tab, Crc.Crc16(tab, fields, 0)))
      && HeaderSent(Bin32, tab, e, last, typ, hdr)
         == [0x2A, 0x18, 0x43] + Encode(e, last, fields + Crc.Trailer32(Crc.Crc32(fields, 0xFFFF_FFFF)))
  {
    Fold16(tab, [typ] + hdr, 0);
    Fold32([typ] + hdr, 0xFFFF_FFFF);
  }

  function Nulls(n: nat): Bytes {
    seq(n, _ => 0)
  }

  // ----- Receiving -----

  /** noxrd7(): without parity, passing over flow control and, with Zctlesc, other control
      characters. */
  function Nox(ctl: bool, s: Bytes): (r: (Got, Bytes))
    ensures |r.1| <= |s| && (r.0.Data? ==> |r.1| < |s|) && (r.0.Data? || r.0.Timeout?)
  {
    if s == [] then (Timeout, [])
    else
      var c := s[0] & 0x7F;
      if c == XON || c == XOFF then Nox(ctl, s[1..])
      else if c == CR || c == LF || c == ZDLE then (Data(c), s[1..])
      else if ctl && IsControl(c) then Nox(ctl, s[1..])
      else (Data(c), s[1..])
  }

  /** zgethex(): two digits. */
  function ReadHex(ctl: bool, s: Bytes): (r: (Got, Bytes))
    ensures |r.1| <= |s| && (r.0.Data? ==> |r.1| < |s|)
  {
    var (hi, rest) := Nox(ctl, s);
    if !hi.Data? then (hi, rest)
    else if Nibble(hi.b) == None then (Bad, rest)
    else
      var (lo, left) := Nox(ctl, rest);
      if !lo.Data? then (lo, left)
      else if Nibble(lo.b) == None then (Bad, left)
      else (Data((Nibble(hi.b).value << 4) + Nibble(lo.b).value), left)
  }

  function ReadByte(hex: bool, ctl: bool, s: Bytes): (r: (Got, Bytes))
    ensures |r.1| <= |s| && (r.0.Data? ==> |r.1| < |s|)
  {
    if hex then ReadHex(ctl, s) else Read(ctl, s)
  }

  /** `n` bytes, or those before the first thing that is none. */
  function Take(hex: bool, ctl: bool, s: Bytes, n: nat): (r: (Bytes, Option<Got>, Bytes))
    ensures r.1.None? ==> |r.0| == n
    ensures r.1.Some? ==> !r.1.value.Data?
    ensures |r.2| <= |s|
    decreases n
  {
    if n == 0 then ([], None, s)
    else
      var (got, rest) := ReadByte(hex, ctl, s);
      if !got.Data? then ([], Some(got), rest)
      else
        var (more, stop, left) := Take(hex, ctl, rest, n - 1);
        ([got.b] + more, stop, left)
  }

  /** What zgethdr returns: a header, with Rxframeind, Rxtype and the four bytes of hdr, or a
      code of zdlread. */
  datatype HeaderRead = Header(form: Form, typ: Byte, hdr: Bytes) | Failed(code: Got)

  /** zrbhdr, zrbhdr32 and zrhhdr after the indicator, but for the line end of the last. */
  function ReadHeader<C>(f: Fcs<C>, form: Form, ctl: bool, s: Bytes): (r: (HeaderRead, Bytes))
    ensures r.0.Header? ==> |r.0.hdr| == 4
    ensures |r.1| <= |s|
  {
    var (bytes, stop, rest) := Take(form.Hex?, ctl, s, 5 + f.size);
    if stop.Some? then (Failed(stop.value), rest)
    else if f.good(Fold(f, bytes, f.init)) then (Header(form, bytes[0], bytes[1..5]), rest)
    else (Failed(Bad), rest)
  }

  /** After a hex header one byte is read, and one more if that was a carriage return. */
  function SkipLineEnd(s: Bytes): (r: Bytes)
    ensures |r| <= |s|
  {
    if s == [] then []
    else if s[0] & 0x7F == CR && |s| > 1 then s[2..]
    else s[1..]
  }

  function ReadForm(form: Form, tab: Crc.Table16, ctl: bool, s: Bytes): (r: (HeaderRead, Bytes))
    ensures r.0.Header? ==> |r.0.hdr| == 4
    ensures |r.1| <= |s|
  {
    match form
    case Bin16 => ReadHeader(Fcs16(tab), form, ctl, s)
    case Bin32 => ReadHeader(Fcs32(), form, ctl, s)
    case Hex =>
      var (r, rest) := ReadHeader(Fcs16(tab), form, ctl, s);
      (r, if r.Header? then SkipLineEnd(rest) else rest)
  }

  /** The places that zgethdr's gotos lead to; Kind is the second switch on noxrd7. */
  datatype Label = Again | GotCan | Agn2 | Splat | Kind

  /** --max_garbage for an unsigned int. */
  function Less(garbage: nat): nat {
    if garbage == 0 then 0xFFFF_FFFF else garbage - 1
  }

  /** How many bytes of garbage make zgethdr give up. */
  function Budget(garbage: nat): nat {
    if garbage == 0 then 0x1_0000_0000 else garbage
  }

  /** zgethdr() from a label on, with its counters. */
  function Hunt(tab: Crc.Table16, ctl: bool, at: Label, garbage: nat, cancount: int, s: Bytes): (r: (HeaderRead, Bytes))
    ensures r.0.Header? ==> |r.0.hdr| == 4
    decreases |s|, if at.Again? then 0 else 1
  {
    match at
    case Again =>
      if s == [] then (Failed(Timeout), [])
      else if s[0] == CAN then Hunt(tab, ctl, GotCan, garbage, cancount, s[1..])
      else if s[0] & 0x7F == ZPAD then Hunt(tab, ctl, Splat, garbage, 5, s[1..])
      else Hunt(tab, ctl, Agn2, garbage, cancount, s[1..])
    case GotCan =>
      if cancount - 1 <= 0 then (Failed(Cancel), s)
      else if s == [] then Hunt(tab, ctl, Again, garbage, cancount - 1, s)
      else if s[0] == ZCRCW then (Failed(Bad), s[1..])
      else if s[0] != CAN then Hunt(tab, ctl, Agn2, garbage, cancount - 1, s[1..])
      else if cancount - 2 <= 0 then (Failed(Cancel), s[1..])
      else Hunt(tab, ctl, Again, garbage, cancount - 2, s[1..])
    case Agn2 =>
      if Less(garbage) == 0 then (Failed(Bad), s)
      else Hunt(tab, ctl, Again, Less(garbage), 5, s)
    case Splat =>
      var (c, rest) := Nox(ctl, s);
      if !c.Data? then (Failed(c), rest)
      else if c.b == ZPAD then Hunt(tab, ctl, Splat, garbage, cancount, rest)
      else if c.b == ZDLE then Hunt(tab, ctl, Kind, garbage, cancount, rest)
      else Hunt(tab, ctl, Agn2, garbage, cancount, rest)
    case Kind =>
      var (c, rest) := Nox(ctl, s);
      if !c.Data? then (Failed(c), rest)
      else if c.b == ZBIN then ReadForm(Bin16, tab, ctl, rest)
      else if c.b == ZBIN32 then ReadForm(Bin32, tab, ctl, rest)
      else if c.b == ZHEX then ReadForm(Hex, tab, ctl, rest)
      else if c.b == CAN then Hunt(tab, ctl, GotCan, garbage, cancount, rest)
      else Hunt(tab, ctl, Agn2, garbage, cancount, rest)
  }

  /** Five CANs in a row end the search for a header. */
  lemma HuntCancelled(tab: Crc.Table16, ctl: bool, garbage: nat, rest: Bytes)
    ensures Hunt(tab, ctl, Again, garbage, 5, [0x18, 0x18, 0x18, 0x18, 0x18] + rest) == (Failed(Cancel), rest)
  {
    var s := [0x18, 0x18, 0x18, 0x18, 0x18] + rest;
    assert s[5..] == rest;
    assert Hunt(tab, ctl, GotCan, garbage, 1, s[5..]) == (Failed(Cancel), rest);
    assert Hunt(tab, ctl, Again, garbage, 1, s[4..]) == (Failed(Cancel), rest);
    assert Hunt(tab, ctl, Again, garbage, 3, s[2..]) == Hunt(tab, ctl, GotCan, garbage, 3, s[3..]);
    assert Hunt(tab, ctl, GotCan, garbage, 3, s[3..]) == Hunt(tab, ctl, Again, garbage, 1, s[4..]);
    assert Hunt(tab, ctl, GotCan, garbage, 5, s[1..]) == Hunt(tab, ctl, Again, garbage, 3, s[2..]);
  }

  // ----- What is left to be read -----

  lemma {:induction false} NoxTail(ctl: bool, s: Bytes)
    ensures IsTail(Nox(ctl, s).1, s)
    decreases |s|
  {
    if s != [] {
      NoxTail(ctl, s[1..]);
      assert IsTail(s[1..], s[1..]);
      TailFurther(Nox(ctl, s).1, s);
    }
  }

  lemma ByteTail(hex: bool, ctl: bool, s: Bytes)
    ensures IsTail(ReadByte(hex, ctl, s).1, s)
  {
    if hex {
      var rest := Nox(ctl, s).1;
      NoxTail(ctl, s);
      NoxTail(ctl, rest);
      TailOfTail(Nox(ctl, rest).1, rest, s);
    } else {
      ReadTail(ctl, s);
    }
  }

  lemma {:induction false} TakeTail(hex: bool, ctl: bool, s: Bytes, n: nat)
    ensures IsTail(Take(hex, ctl, s, n).2, s)
    decreases n
  {
    if n > 0 {
      var rest := ReadByte(hex, ctl, s).1;
      ByteTail(hex, ctl, s);
      TakeTail(hex, ctl, rest, n - 1);
      TailOfTail(Take(hex, ctl, rest, n - 1).2, rest, s);
    }
  }

  lemma FormTail(form: Form, tab: Crc.Table16, ctl: bool, s: Bytes)
    ensures IsTail(ReadForm(form, tab, ctl, s).1, s)
  {
    TakeTail(form.Hex?, ctl, s, 7);
    TakeTail(form.Hex?, ctl, s, 9);
    if form.Hex? {
      var rest := ReadHeader(Fcs16(tab), form, ctl, s).1;
      TailOfTail(SkipLineEnd(rest), rest, s);
    }
  }

  // ----- The round trip -----

  lemma {:induction false} NoxPlain(ctl: bool, s: Bytes, c: Byte, rest: Bytes)
    requires Strip(false, s) == [c] + rest
    requires c & 0x7F == c && !IsFlow(c) && (!IsControl(c) || c == ZDLE)
    ensures Nox(ctl, s).0 == Data(c) && Strip(false, Nox(ctl, s).1) == rest
    decreases |s|
  {
    if s != [] && Ignored(false, s[0]) {
      NoxPlain(ctl, s[1..], c, rest);
    } else {
      Quiet(false, s, c, rest);
    }
  }

  lemma ReadHexBack(ctl: bool, s: Bytes, c: Byte, rest: Bytes)
    requires Strip(false, s) == PutHex(c) + rest
    ensures ReadHex(ctl, s).0 == Data(c) && Strip(false, ReadHex(ctl, s).1) == rest
  {
    HexIsPlain(c >> 4);
    HexIsPlain(c & 0xF);
    NibbleBack(c);
    assert PutHex(c) + rest == [HexDigit(c >> 4)] + ([HexDigit(c & 0xF)] + rest);
    TwoDigitsBack(ctl, s, HexDigit(c >> 4), HexDigit(c & 0xF), rest);
  }

  predicate PlainDigit(d: Byte) {
    d & 0x7F == d && !IsFlow(d) && !IsControl(d) && Nibble(d).Some?
  }

  lemma TwoDigitsBack(ctl: bool, s: Bytes, hi: Byte, lo: Byte, rest: Bytes)
    requires PlainDigit(hi) && PlainDigit(lo) && Strip(false, s) == [hi] + ([lo] + rest)
    ensures ReadHex(ctl, s).0 == Data((Nibble(hi).value << 4) + Nibble(lo).value)
    ensures Strip(false, ReadHex(ctl, s).1) == rest
  {
    NoxPlain(ctl, s, hi, [lo] + rest);
    NoxPlain(ctl, Nox(ctl, s).1, lo, rest);
  }

  lemma {:induction false} TakeHex(ctl: bool, s: Bytes, data: Bytes, rest: Bytes)
    requires Strip(false, s) == PutHexes(data) + rest
    ensures var r := Take(true, ctl, s, |data|); r.0 == data && r.1 == None && Strip(false, r.2) == rest
    decreases |data|
  {
    if data == [] {
      assert PutHexes(data) + rest == rest;
    } else {
      assert PutHexes(data) + rest == PutHex(data[0]) + (PutHexes(data[1..]) + rest);
      ReadHexBack(ctl, s, data[0], PutHexes(data[1..]) + rest);
      TakeHex(ctl, ReadHex(ctl, s).1, data[1..], rest);
    }
  }

  lemma {:induction false} TakeBinary(e: Escapes, ctl: bool, last: Byte, s: Bytes, data: Bytes, rest: Bytes)
    requires Compatible(e, ctl) && Strip(false, s) == Encode(e, last, data) + rest
    ensures var r := Take(false, ctl, s, |data|);
      r.0 == data && r.1 == None && Strip(false, r.2) == rest
    decreases |data|
  {
    if data == [] {
      assert Encode(e, last, data) + rest == rest;
    } else {
      var tail := Encode(e, LastAfter(e, last, data[0]), data[1..]) + rest;
      assert Encode(e, last, data) + rest == EncodeByte(e, last, data[0]) + tail;
      ReadBackByte(e, ctl, false, last, data[0], s, tail);
      TakeBinary(e, ctl, LastAfter(e, last, data[0]), Read(ctl, s).1, data[1..], rest);
    }
  }

  lemma CheckedIsGood<C(!new)>(f: Fcs<C>, typ: Byte, hdr: Bytes)
    requires Sound(f) && |hdr| == 4
    ensures |Checked(f, typ, hdr)| == 5 + f.size && f.good(Fold(f, Checked(f, typ, hdr), f.init))
    ensures Checked(f, typ, hdr)[0] == typ && Checked(f, typ, hdr)[1..5] == hdr
  {
    FoldConcat(f, [typ] + hdr, f.trailer(Fold(f, [typ] + hdr, f.init)), f.init);
  }

  /** From the indicator on, the receiver gets what was sent. */
  lemma BodyBack(form: Form, tab: Crc.Table16, e: Escapes, ctl: bool, last: Byte, typ: Byte, hdr: Bytes, s: Bytes,
      rest: Bytes)
    requires |hdr| == 4 && (form.Hex? || Compatible(e, ctl))
    requires Strip(false, s) == Body(form, tab, e, last, typ, hdr)[1..] + rest
    ensures ReadForm(form, tab, ctl, s).0 == Header(form, TypeSent(form, typ), hdr)
    ensures !form.Hex? ==> Strip(false, ReadForm(form, tab, ctl, s).1) == rest
  {
    Fcs16Sound(tab);
    Fcs32Sound();
    match form
    case Hex => HexBack(Fcs16(tab), ctl, typ & 0x7F, hdr, s, rest);
    case Bin16 => BinaryBack(Fcs16(tab), form, e, ctl, last, typ, hdr, s, rest);
    case Bin32 => BinaryBack(Fcs32(), form, e, ctl, last, typ, hdr, s, rest);
  }

  lemma HexBack<C(!new)>(f: Fcs<C>, ctl: bool, typ: Byte, hdr: Bytes, s: Bytes, rest: Bytes)
    requires Sound(f) && |hdr| == 4 && Strip(false, s) == ([ZHEX] + PutHexes(Checked(f, typ, hdr)))[1..] + rest
    ensures ReadHeader(f, Hex, ctl, s).0 == Header(Hex, typ, hdr)
  {
    CheckedIsGood(f, typ, hdr);
    assert ([ZHEX] + PutHexes(Checked(f, typ, hdr)))[1..] == PutHexes(Checked(f, typ, hdr));
    TakeHex(ctl, s, Checked(f, typ, hdr), rest);
  }

  lemma BinaryBack<C(!new)>(f: Fcs<C>, form: Form, e: Escapes, ctl: bool, last: Byte, typ: Byte, hdr: Bytes, s: Bytes,
      rest: Bytes)
    requires Sound(f) && |hdr| == 4 && Compatible(e, ctl) && !form.Hex?
    requires Strip(false, s) == ([Indicator(form)] + Encode(e, last, Checked(f, typ, hdr)))[1..] + rest
    ensures ReadHeader(f, form, ctl, s).0 == Header(form, typ, hdr)
    ensures Strip(false, ReadHeader(f, form, ctl, s).1) == rest
  {
    CheckedIsGood(f, typ, hdr);
    assert ([Indicator(form)] + Encode(e, last, Checked(f, typ, hdr)))[1..] == Encode(e, last, Checked(f, typ, hdr));
    TakeBinary(e, ctl, last, s, Checked(f, typ, hdr), rest);
  }

  lemma KindBack(form: Form, tab: Crc.Table16, e: Escapes, ctl: bool, last: Byte, typ: Byte, hdr: Bytes, garbage: nat,
      s: Bytes, rest: Bytes)
    requires |hdr| == 4 && (form.Hex? || Compatible(e, ctl))
    requires Strip(false, s) == Body(form, tab, e, last, typ, hdr) + rest
    ensures Hunt(tab, ctl, Kind, garbage, 5, s).0 == Header(form, TypeSent(form, typ), hdr)
    ensures !form.Hex? ==> Strip(false, Hunt(tab, ctl, Kind, garbage, 5, s).1) == rest
  {
    var body := Body(form, tab, e, last, typ, hdr);
    assert body + rest == [Indicator(form)] + (body[1..] + rest);
    NoxPlain(ctl, s, Indicator(form), body[1..] + rest);
    KindFound(form, tab, ctl, garbage, s);
    BodyBack(form, tab, e, ctl, last, typ, hdr, Nox(ctl, s).1, rest);
  }

  lemma KindFound(form: Form, tab: Crc.Table16, ctl: bool, garbage: nat, s: Bytes)
    requires Nox(ctl, s).0 == Data(Indicator(form))
    ensures Hunt(tab, ctl, Kind, garbage, 5, s) == ReadForm(form, tab, ctl, Nox(ctl, s).1)
  {
  }

  lemma SplatBack(form: Form, tab: Crc.Table16, e: Escapes, ctl: bool, last: Byte, typ: Byte, hdr: Bytes,
      garbage: nat, s: Bytes, rest: Bytes)
    requires |hdr| == 4 && (form.Hex? || Compatible(e, ctl))
    requires Strip(false, s) == [ZDLE] + (Body(form, tab, e, last, typ, hdr) + rest)
    ensures Hunt(tab, ctl, Splat, garbage, 5, s).0 == Header(form, TypeSent(form, typ), hdr)
    ensures !form.Hex? ==> Strip(false, Hunt(tab, ctl, Splat, garbage, 5, s).1) == rest
  {
    NoxPlain(ctl, s, ZDLE, Body(form, tab, e, last, typ, hdr) + rest);
    KindBack(form, tab, e, ctl, last, typ, hdr, garbage, Nox(ctl, s).1, rest);
  }

  /** Further padding is passed over. */
  lemma PadBack(form: Form, tab: Crc.Table16, e: Escapes, ctl: bool, last: Byte, typ: Byte, hdr: Bytes, garbage: nat,
      s: Bytes, rest: Bytes)
    requires |hdr| == 4 && (form.Hex? || Compatible(e, ctl))
    requires Strip(false, s) == [ZPAD] + ([ZDLE] + (Body(form, tab, e, last, typ, hdr) + rest))
    ensures Hunt(tab, ctl, Splat, garbage, 5, s).0 == Header(form, TypeSent(form, typ), hdr)
    ensures !form.Hex? ==> Strip(false, Hunt(tab, ctl, Splat, garbage, 5, s).1) == rest
  {
    NoxPlain(ctl, s, ZPAD, [ZDLE] + (Body(form, tab, e, last, typ, hdr) + rest));
    SplatBack(form, tab, e, ctl, last, typ, hdr, garbage, Nox(ctl, s).1, rest);
  }

  lemma StripHead(c: Byte, s: Bytes, rest: Bytes)
    requires s != [] && s[0] == c && !Ignored(false, c) && Strip(false, s) == [c] + rest
    ensures Strip(false, s[1..]) == rest
  {
    Quiet(false, s, c, rest);
  }

  /** From the first ZPAD on. */
  lemma PadsBack(form: Form, tab: Crc.Table16, e: Escapes, ctl: bool, last: Byte, typ: Byte, hdr: Bytes, garbage: nat,
      s: Bytes, rest: Bytes)
    requires |hdr| == 4 && (form.Hex? || Compatible(e, ctl))
    requires s != [] && s[0] == ZPAD && Strip(false, s) == Pads(form) + (Body(form, tab, e, last, typ, hdr) + rest)
    ensures Hunt(tab, ctl, Splat, garbage, 5, s[1..]).0 == Header(form, TypeSent(form, typ), hdr)
    ensures !form.Hex? ==> Strip(false, Hunt(tab, ctl, Splat, garbage, 5, s[1..]).1) == rest
  {
    var body := Body(form, tab, e, last, typ, hdr) + rest;
    PadsApart(form, body);
    if form.Hex? {
      StripHead(ZPAD, s, [ZPAD] + ([ZDLE] + body));
      PadBack(form, tab, e, ctl, last, typ, hdr, garbage, s[1..], rest);
    } else {
      StripHead(ZPAD, s, [ZDLE] + body);
      SplatBack(form, tab, e, ctl, last, typ, hdr, garbage, s[1..], rest);
    }
  }

  lemma PadsApart(form: Form, body: Bytes)
    ensures Pads(form) + body == [ZPAD] + if form.Hex? then [ZPAD] + ([ZDLE] + body) else [ZDLE] + body
  {
  }

  lemma {:induction false} HexesAreClean(data: Bytes)
    ensures Strip(false, PutHexes(data)) == PutHexes(data)
  {
    if data != [] {
      HexIsPlain(data[0] >> 4);
      HexIsPlain(data[0] & 0xF);
      HexesAreClean(data[1..]);
      StripClean(false, PutHex(data[0]));
      StripConcat(false, PutHex(data[0]), PutHexes(data[1..]));
    }
  }

  lemma BodyIsClean(form: Form, tab: Crc.Table16, e: Escapes, last: Byte, typ: Byte, hdr: Bytes)
    ensures Strip(false, Body(form, tab, e, last, typ, hdr)) == Body(form, tab, e, last, typ, hdr)
  {
    match form
    case Hex =>
      HexesAreClean(Checked(Fcs16(tab), typ & 0x7F, hdr));
      StripConcat(false, [ZHEX], PutHexes(Checked(Fcs16(tab), typ & 0x7F, hdr)));
    case Bin16 =>
      CleanAfter(ZBIN, e, last, Checked(Fcs16(tab), typ, hdr));
    case Bin32 =>
      CleanAfter(ZBIN32, e, last, Checked(Fcs32(), typ, hdr));
  }

  lemma CleanAfter(ind: Byte, e: Escapes, last: Byte, data: Bytes)
    requires !Ignored(false, ind)
    ensures Strip(false, [ind] + Encode(e, last, data)) == [ind] + Encode(e, last, data)
  {
    EncodeIsClean(e, false, last, data);
    StripClean(false, Encode(e, last, data));
    assert ([ind] + Encode(e, last, data))[1..] == Encode(e, last, data);
  }

  /** Only the XON at the end of a header can be taken for flow control. */
  lemma HeaderIsClean(form: Form, tab: Crc.Table16, e: Escapes, last: Byte, typ: Byte, hdr: Bytes, rest: Bytes)
    ensures Strip(false, HeaderSent(form, tab, e, last, typ, hdr) + rest) ==
      Pads(form) + (Body(form, tab, e, last, typ, hdr) + Strip(false, LineEnd(form, typ) + rest))
  {
    var body, end := Body(form, tab, e, last, typ, hdr), LineEnd(form, typ);
    BodyIsClean(form, tab, e, last, typ, hdr);
    StripClean(false, Pads(form));
    RegroupHeader(Pads(form), body, end, rest);
    StripConcat(false, Pads(form), body + (end + rest));
    StripConcat(false, body, end + rest);
  }

  lemma RegroupHeader(a: Bytes, b: Bytes, c: Bytes, rest: Bytes)
    ensures a + b + c + rest == a + (b + (c + rest))
  {
  }

  // ----- What a hex header leaves unread -----

  lemma NoxExact(ctl: bool, c: Byte, rest: Bytes)
    requires c & 0x7F == c && !IsFlow(c) && (!IsControl(c) || c == ZDLE)
    ensures Nox(ctl, [c] + rest) == (Data(c), rest)
  {
    assert ([c] + rest)[1..] == rest;
  }

  lemma ReadHexExact(ctl: bool, c: Byte, rest: Bytes)
    ensures ReadHex(ctl, PutHex(c) + rest) == (Data(c), rest)
  {
    HexIsPlain(c >> 4);
    HexIsPlain(c & 0xF);
    NibbleBack(c);
    assert PutHex(c) + rest == [HexDigit(c >> 4)] + ([HexDigit(c & 0xF)] + rest);
    NoxExact(ctl, HexDigit(c >> 4), [HexDigit(c & 0xF)] + rest);
    NoxExact(ctl, HexDigit(c & 0xF), rest);
  }

  lemma {:induction false} TakeHexExact(ctl: bool, data: Bytes, rest: Bytes)
    ensures Take(true, ctl, PutHexes(data) + rest, |data|) == (data, None, rest)
  {
    if data == [] {
      assert PutHexes(data) + rest == rest;
    } else {
      var tail := PutHexes(data[1..]) + rest;
      RegroupHexes(PutHex(data[0]), PutHexes(data[1..]), rest);
      ReadHexExact(ctl, data[0], tail);
      TakeHexExact(ctl, data[1..], rest);
      assert [data[0]] + data[1..] == data;
    }
  }

  lemma RegroupHexes(a: Bytes, b: Bytes, rest: Bytes)
    ensures a + b + rest == a + (b + rest)
  {
  }

  /** The XON after a hex header, if any. */
  function Uncork(typ: Byte): Bytes {
    if typ != ZFIN && typ != ZACK then [XON] else []
  }

  lemma SkipsLineEnd(typ: Byte, rest: Bytes)
    ensures SkipLineEnd(LineEnd(Hex, typ) + rest) == Uncork(typ) + rest
  {
    var s := LineEnd(Hex, typ) + rest;
    assert s == [CR, LF | 0x80] + (Uncork(typ) + rest);
    assert s[2..] == Uncork(typ) + rest;
  }

  lemma HexBodyLeaves(tab: Crc.Table16, ctl: bool, typ: Byte, hdr: Bytes, rest: Bytes)
    requires |hdr| == 4
    ensures ReadForm(Hex, tab, ctl, PutHexes(Checked(Fcs16(tab), typ & 0x7F, hdr)) + (LineEnd(Hex, typ) + rest))
      == (Header(Hex, typ & 0x7F, hdr), Uncork(typ) + rest)
  {
    Fcs16Sound(tab);
    CheckedIsGood(Fcs16(tab), typ & 0x7F, hdr);
    TakeHexExact(ctl, Checked(Fcs16(tab), typ & 0x7F, hdr), LineEnd(Hex, typ) + rest);
    SkipsLineEnd(typ, rest);
  }

  lemma HuntsHex(tab: Crc.Table16, ctl: bool, garbage: nat, s: Bytes)
    ensures Hunt(tab, ctl, Again, garbage, 5, [ZPAD] + ([ZPAD] + ([ZDLE] + ([ZHEX] + s)))) == ReadForm(Hex, tab, ctl, s)
  {
    var t1 := [ZHEX] + s;
    var t2 := [ZDLE] + t1;
    var t3 := [ZPAD] + t2;
    assert ([ZPAD] + t3)[1..] == t3;
    NoxExact(ctl, ZHEX, s);
    assert Hunt(tab, ctl, Kind, garbage, 5, t1) == ReadForm(Hex, tab, ctl, s);
    NoxExact(ctl, ZDLE, t1);
    assert Hunt(tab, ctl, Splat, garbage, 5, t2) == Hunt(tab, ctl, Kind, garbage, 5, t1);
    NoxExact(ctl, ZPAD, t2);
    assert Hunt(tab, ctl, Splat, garbage, 5, t3) == Hunt(tab, ctl, Splat, garbage, 5, t2);
  }

  /** After an undisturbed hex header, its line end is gone and its XON, if it has one, is
      still to be read, as garbage before the next header. */
  lemma HexLeaves(tab: Crc.Table16, e: Escapes, ctl: bool, last: Byte, typ: Byte, hdr: Bytes, garbage: nat, rest: Bytes)
    requires |hdr| == 4
    ensures Hunt(tab, ctl, Again, garbage, 5, HeaderSent(Hex, tab, e, last, typ, hdr) + rest)
      == (Header(Hex, typ & 0x7F, hdr), Uncork(typ) + rest)
  {
    var digits := PutHexes(Checked(Fcs16(tab), typ & 0x7F, hdr));
    var tail := LineEnd(Hex, typ) + rest;
    RegroupHeader(Pads(Hex), [ZHEX] + digits, LineEnd(Hex, typ), rest);
    RegroupHexes([ZHEX], digits, tail);
    PadsApart(Hex, [ZHEX] + (digits + tail));
    HuntsHex(tab, ctl, garbage, digits + tail);
    HexBodyLeaves(tab, ctl, typ, hdr, rest);
  }
}
