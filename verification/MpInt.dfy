/** The multi-precision integers that smth_sshbbsd/bufaux.c writes to a byte queue and reads
    back, and the queue of smth_sshbbsd/buffer.c itself. */
module MpInt {
  import opened Basics

  type Octet = x: int | 0 <= x < 256

  type Octets = seq<Octet>

  // ----- Numbers in bases 2, 16 and 256 -----

  /** mpz_sizeinbase(v, 2): 1 for 0. */
  function Bits(v: nat): (n: nat)
    ensures n > 0
  {
    if v < 2 then 1 else Bits(v / 2) + 1
  }

  /** The digits that mpz_get_str(buf, 16, v) writes, as numbers. */
  function Digits(v: nat): (d: seq<nat>)
    ensures d != [] && (forall k :: 0 <= k < |d| ==> d[k] < 16) && (|d| > 1 ==> d[0] > 0)
  {
    if v < 16 then [v] else Digits(v / 16) + [v % 16]
  }

  function Bytes(v: nat): (b: Octets)
    ensures b != []
  {
    if v < 256 then [v] else Bytes(v / 256) + [v % 256]
  }

  /** The number that some digits stand for. */
  function Number(base: nat, d: seq<nat>): nat {
    if d == [] then 0 else Number(base, d[..|d| - 1]) * base + d[|d| - 1]
  }

  lemma NumberStep(base: nat, d: seq<nat>, k: nat)
    requires k < |d|
    ensures Number(base, d[..k + 1]) == Number(base, d[..k]) * base + d[k]
  {
    assert d[..k + 1][..k] == d[..k];
  }

  lemma {:induction false} DigitsBack(v: nat)
    ensures Number(16, Digits(v)) == v
  {
    if v >= 16 {
      DigitsBack(v / 16);
      assert Digits(v)[..|Digits(v)| - 1] == Digits(v / 16);
    } else {
      assert [v][..0] == [];
    }
  }

  lemma {:induction false} BytesBack(v: nat)
    ensures Number(256, Bytes(v)) == v
  {
    if v >= 256 {
      BytesBack(v / 256);
      assert Bytes(v)[..|Bytes(v)| - 1] == Bytes(v / 256);
    } else {
      assert [v][..0] == [];
    }
  }

  lemma BitsOf(v: nat)
    requires v >= 16
    ensures Bits(v) == Bits(v / 16) + 4
  {
    assert v / 2 / 2 == v / 4 && v / 4 / 2 == v / 8 && v / 8 / 2 == v / 16;
    assert Bits(v / 2) == Bits(v / 4) + 1;
    assert Bits(v / 4) == Bits(v / 8) + 1;
    assert Bits(v / 8) == Bits(v / 16) + 1;
  }

  lemma {:induction false} DigitCount(v: nat)
    ensures |Digits(v)| == (Bits(v) + 3) / 4
  {
    if v >= 16 {
      BitsOf(v);
      DigitCount(v / 16);
    } else if v >= 8 {
      assert Bits(v) == 4 by { assert Bits(v / 2) == 3 by { assert Bits(v / 2 / 2) == 2; } }
    } else if v >= 4 {
      assert Bits(v) == 3 by { assert Bits(v / 2) == 2; }
    }
  }

  lemma {:induction false} ByteCount(v: nat)
    ensures |Bytes(v)| == (Bits(v) + 7) / 8
  {
    if v >= 256 {
      BitsOf(v);
      BitsOf(v / 16);
      assert v / 16 / 16 == v / 256;
      ByteCount(v / 256);
    } else {
      DigitCount(v);
      if v >= 16 {
        assert Digits(v) == Digits(v / 16) + [v % 16];
      }
    }
  }

  // ----- Characters -----

  /** The character for a digit, as sprintf and mpz_get_str write it. */
  function Char(d: nat): Octet
    requires d < 16
  {
    if d < 10 then 48 + d else 87 + d
  }

  /** The digit that sscanf and mpz_set_str read. */
  function Digit(c: Octet): (d: nat)
    ensures d < 16
  {
    if 48 <= c <= 57 then c - 48 else if 97 <= c <= 102 then c - 87 else if 65 <= c <= 70 then c - 55 else 0
  }

  lemma CharBack(d: nat)
    requires d < 16
    ensures Digit(Char(d)) == d
  {
  }

  /** mpz_set_str(value, hex, 16) */
  function Parse(hex: Octets): nat {
    if hex == [] then 0 else Parse(hex[..|hex| - 1]) * 16 + Digit(hex[|hex| - 1])
  }

  /** Each byte as sprintf("%02x") writes it. */
  function HexText(b: Octets): Octets {
    if b == [] then [] else HexText(b[..|b| - 1]) + [Char(b[|b| - 1] / 16), Char(b[|b| - 1] % 16)]
  }

  /** The text of some bytes is read as the number they stand for. */
  lemma {:induction false} TextIsNumber(b: Octets)
    ensures |HexText(b)| == 2 * |b| && Parse(HexText(b)) == Number(256, b)
  {
    if b != [] {
      var front, c := b[..|b| - 1], b[|b| - 1];
      TextIsNumber(front);
      var hi, lo, t := Char(c / 16), Char(c % 16), HexText(front);
      CharBack(c / 16);
      CharBack(c % 16);
      assert (t + [hi, lo])[..|t| + 1] == t + [hi] && (t + [hi])[..|t|] == t;
      assert Parse(t + [hi]) == Parse(t) * 16 + c / 16;
      assert Parse(t + [hi, lo]) == Parse(t + [hi]) * 16 + c % 16;
    }
  }

  lemma TextOneMore(b: Octets, i: nat)
    requires i < |b|
    ensures HexText(b[..i + 1]) == HexText(b[..i]) + [Char(b[i] / 16), Char(b[i] % 16)]
  {
    assert b[..i + 1][..i] == b[..i];
  }

  // ----- From hex digits to bytes in place -----

  /** The first `i` digits have become bytes, an odd one at the start a byte of its own. */
  ghost predicate Packed(v: nat, buf: Octets, i: nat, oi: nat) {
    i <= |Digits(v)| <= |buf| && oi == (i + 1) / 2 && i % 2 == |Digits(v)| % 2
    && BytesSoFar(Digits(v), buf, i, oi)
    && StillDigits(Digits(v), buf, i)
  }

  /** Before place `oi` it holds the bytes of the first `i` digits. */
  ghost predicate BytesSoFar(d: seq<nat>, buf: Octets, i: nat, oi: nat) {
    i <= |d| && oi <= |buf| && (i > 0 ==> buf[..oi] == Bytes(Number(16, d[..i])))
  }

  /** From place `i` on the buffer holds the characters of the digits. */
  ghost predicate StillDigits(d: seq<nat>, buf: Octets, i: nat) {
    |d| <= |buf| && forall k :: i <= k < |d| ==> d[k] < 16 && buf[k] == Char(d[k])
  }

  lemma DigitsKept(d: seq<nat>, was: Octets, i: nat, oi: nat, b: Octet)
    requires StillDigits(d, was, i) && oi < |was| && oi <= i
    ensures StillDigits(d, was[oi := b], i + 2)
  {
  }

  lemma Positive(v: nat, i: nat)
    requires 0 < i < |Digits(v)|
    ensures Number(16, Digits(v)[..i]) > 0
    decreases i
  {
    NumberStep(16, Digits(v), i - 1);
    if i > 1 {
      Positive(v, i - 1);
    } else {
      assert Digits(v)[..0] == [];
    }
  }

  lemma BytesStep(a: nat, b: nat)
    requires b < 256
    ensures a > 0 ==> Bytes(a * 256 + b) == Bytes(a) + [b]
    ensures a == 0 ==> Bytes(a * 256 + b) == [b]
  {
    assert (a * 256 + b) / 256 == a && (a * 256 + b) % 256 == b;
  }

  /** Two more digits make one more byte, whichever places they are written over. */
  lemma PackStep(v: nat, was: Octets, now: Octets, i: nat, oi: nat)
    requires Packed(v, was, i, oi) && i + 2 <= |Digits(v)|
    requires now == was[oi := Digits(v)[i] * 16 + Digits(v)[i + 1]]
    ensures Packed(v, now, i + 2, oi + 1)
  {
    var b := Digits(v)[i] * 16 + Digits(v)[i + 1];
    if i > 0 {
      Positive(v, i);
    }
    OneMoreByte(Digits(v), was, now, i, oi, b);
    DigitsKept(Digits(v), was, i, oi, b);
  }

  lemma OneMoreByte(d: seq<nat>, was: Octets, now: Octets, i: nat, oi: nat, b: nat)
    requires BytesSoFar(d, was, i, oi) && oi < |was| && (i == 0 ==> oi == 0)
    requires i + 2 <= |d| && b == d[i] * 16 + d[i + 1] < 256 && (i > 0 ==> Number(16, d[..i]) > 0)
    requires now == was[oi := b]
    ensures BytesSoFar(d, now, i + 2, oi + 1)
  {
    NextByte(d, i, b);
    PutByte(was, now, oi, b);
  }

  /** The byte that two more digits add. */
  lemma NextByte(d: seq<nat>, i: nat, b: nat)
    requires i + 2 <= |d| && b == d[i] * 16 + d[i + 1] < 256 && (i > 0 ==> Number(16, d[..i]) > 0)
    ensures Bytes(Number(16, d[..i + 2])) == (if i > 0 then Bytes(Number(16, d[..i])) else []) + [b]
  {
    TwoDigits(d, i);
    BytesStep(Number(16, d[..i]), b);
    if i == 0 {
      assert d[..0] == [] && [] + [b] == [b];
    }
  }

  lemma PutByte(was: Octets, now: Octets, oi: nat, b: Octet)
    requires oi < |was| && now == was[oi := b]
    ensures now[..oi + 1] == was[..oi] + [b]
  {
  }

  lemma TwoDigits(d: seq<nat>, i: nat)
    requires i + 2 <= |d|
    ensures Number(16, d[..i + 2]) == Number(16, d[..i]) * 256 + (d[i] * 16 + d[i + 1])
  {
    NumberStep(16, d, i);
    NumberStep(16, d, i + 1);
  }

  lemma PackFirst(v: nat, was: Octets, now: Octets)
    requires Packed0(v, was) && |Digits(v)| % 2 == 1 && now == was[0 := Digits(v)[0]]
    ensures Packed(v, now, 1, 1)
  {
    var d := Digits(v);
    NumberStep(16, d, 0);
    assert d[..0] == [];
    assert now[..1] == [d[0]];
  }

  /** Nothing has been packed yet. */
  ghost predicate Packed0(v: nat, buf: Octets) {
    StillDigits(Digits(v), buf, 0)
  }

  /** The loop of buffer_put_mp_int: the bytes are written over the digits that they come from,
      never over one that is still to be read, and they are as many as the bit count says. */
  method Pack(v: nat, buf: array<Octet>, hexSize: nat) returns (oi: nat)
    requires hexSize == |Digits(v)| < buf.Length && Packed0(v, buf[..])
    modifies buf
    ensures oi == (Bits(v) + 7) / 8 <= buf.Length && buf[..oi] == Bytes(v)
  {
    var i := 0;
    oi := 0;
    ghost var was := buf[..];
    if hexSize % 2 == 1 {
      CharBack(Digits(v)[0]);
      buf[oi] := Digit(buf[0]);
      oi := oi + 1;
      i := 1;
      PackFirst(v, was, buf[..]);
    }
    while i < hexSize
      invariant Packed(v, buf[..], i, oi)
      decreases hexSize - i
    {
      PackTwo(v, buf, i, oi);
      oi := oi + 1;
      i := i + 2;
    }
    PackedAll(v, buf[..], i, oi);
  }

  /** Two characters become a byte. */
  method PackTwo(ghost v: nat, buf: array<Octet>, i: nat, oi: nat)
    requires Packed(v, buf[..], i, oi) && i + 2 <= |Digits(v)|
    modifies buf
    ensures Packed(v, buf[..], i + 2, oi + 1)
  {
    ghost var was := buf[..];
    CharBack(Digits(v)[i]);
    CharBack(Digits(v)[i + 1]);
    buf[oi] := Digit(buf[i]) * 16 + Digit(buf[i + 1]);
    PackStep(v, was, buf[..], i, oi);
  }

  lemma PackedAll(v: nat, buf: Octets, i: nat, oi: nat)
    requires Packed(v, buf, i, oi) && i == |Digits(v)|
    ensures oi == (Bits(v) + 7) / 8 <= |buf| && buf[..oi] == Bytes(v)
  {
    assert Digits(v)[..i] == Digits(v);
    DigitsBack(v);
    ByteCount(v);
  }

  // ----- The byte queue -----

  /** Buffer of smth_sshbbsd/buffer.c; its alloc is the length of the array. */
  class Buffer {
    var buf: array<Octet>
    var offset: nat
    var end: nat

    ghost predicate Valid()
      reads this
    {
      offset <= end <= buf.Length
    }

    function Contents(): Octets
      requires Valid()
      reads this, buf
    {
      buf[offset..end]
    }

    /** buffer_init() */
    constructor ()
      ensures Valid() && Contents() == [] && fresh(buf)
    {
      buf := new Octet[4096];
      offset, end := 0, 0;
    }

    /** buffer_append_space(): room for `len` more bytes at the end, by moving the data to the
        beginning or into more memory. */
    method AppendSpace(len: nat)
      requires Valid()
      modifies this, buf
      ensures Valid() && end + len < buf.Length && Contents() == old(Contents())
      ensures buf == old(buf) || fresh(buf)
    {
      if offset == end {
        offset, end := 0, 0;
      }
      while end + len >= buf.Length
        invariant Valid() && Contents() == old(Contents())
        invariant buf == old(buf) || fresh(buf)
        decreases end + len >= buf.Length, offset
      {
        if offset > buf.Length / 2 {
          MoveDown();
        } else {
          Grow(len + 4096);
        }
      }
    }

    /** memmove(buf, buf + offset, end - offset) */
    method MoveDown()
      requires Valid()
      modifies this, buf
      ensures Valid() && offset == 0 && buf == old(buf) && Contents() == old(Contents())
    {
      ghost var was := Contents();
      var n := end - offset;
      var k := 0;
      while k < n
        invariant 0 <= k <= n && n == end - offset && Valid() && buf == old(buf) && offset == old(offset)
                  && end == old(end)
        invariant buf[..k] == was[..k]
        invariant forall j :: offset + k <= j < end ==> buf[j] == was[j - offset]
      {
        buf[k] := buf[offset + k];
        k := k + 1;
      }
      offset, end := 0, n;
      assert was[..n] == was;
    }

    /** xrealloc(buf, alloc + more) */
    method Grow(more: nat)
      requires Valid()
      modifies this
      ensures Valid() && fresh(buf) && buf.Length == old(buf.Length) + more
      ensures offset == old(offset) && end == old(end) && Contents() == old(Contents())
    {
      ghost var contents := Contents();
      var was, bigger := buf, new Octet[buf.Length + more];
      for k := 0 to was.Length
        invariant buf == was == old(buf) && offset == old(offset) && end == old(end)
        invariant was[offset..end] == contents && bigger[..k] == was[..k]
      {
        bigger[k] := was[k];
      }
      SameParts(bigger[..], was[..], offset, end);
      buf := bigger;
    }

    /** buffer_append() */
    method Append(data: Octets)
      requires Valid()
      modifies this, buf
      ensures Valid() && Contents() == old(Contents()) + data
      ensures buf == old(buf) || fresh(buf)
    {
      AppendSpace(|data|);
      ghost var all := buf[..];
      CopyIn(buf, end, data);
      Extended(all, buf[..], offset, end, data);
      end := end + |data|;
    }

    /** buffer_get(): the process ends if there is not enough. */
    method Get(len: nat) returns (ok: bool, data: Octets)
      requires Valid()
      modifies `offset
      ensures Valid() && ok == (len <= |old(Contents())|)
      ensures ok ==> data == old(Contents())[..len] && Contents() == old(Contents())[len..]
      ensures !ok ==> Contents() == old(Contents())
    {
      if len > end - offset {
        return false, [];
      }
      data := buf[offset..offset + len];
      offset := offset + len;
      return true, data;
    }

    /** buffer_put_mp_int() */
    method PutMpInt(value: nat)
      requires Valid()
      modifies this, buf
      ensures Valid() && Contents() == old(Contents()) + Wire(value)
      ensures buf == old(buf) || fresh(buf)
    {
      var bits := Bits(value);
      var digits := Digits(value);
      var hexSize := |digits|;
      var hex := new Octet[hexSize + 2](k => if 0 <= k < |digits| && 0 <= digits[k] < 16 then Char(digits[k]) else 0);
      var oi := Pack(value, hex, hexSize);
      Append(Head(bits));
      Append(hex[..oi]);
    }

    /** buffer_get_mp_int() */
    method GetMpInt() returns (r: Read)
      requires Valid()
      modifies `offset
      ensures Valid() && r == ReadWire(old(Contents())).0
      ensures r != Fatal ==> Contents() == ReadWire(old(Contents())).1
    {
      ghost var all := Contents();
      var ok, head := Get(2);
      if !ok {
        return Fatal;
      }
      var bits := TwoBack(head);
      var bytes := (bits + 7) / 8;
      var hex: Octets := [];
      ghost var body := Contents();
      ok, hex := GetHex(bytes);
      if !ok {
        return Fatal;
      }
      if bytes == 0 {
        return Unset;
      }
      TextIsNumber(body[..bytes]);
      assert all[2..2 + bytes] == body[..bytes] && all[2 + bytes..] == body[bytes..];
      return Value(Parse(hex));
    }

    /** The loop of buffer_get_mp_int: two digits for each byte. */
    method GetHex(bytes: nat) returns (ok: bool, hex: Octets)
      requires Valid()
      modifies `offset
      ensures Valid() && ok == (bytes <= |old(Contents())|)
      ensures ok ==> hex == HexText(old(Contents())[..bytes]) && Contents() == old(Contents())[bytes..]
    {
      ghost var body := Contents();
      hex := [];
      for i := 0 to bytes
        invariant Valid() && i <= |body| && Contents() == body[i..] && hex == HexText(body[..i])
      {
        var got, byte := Get(1);
        if !got {
          return false, [];
        }
        TextOneMore(body, i);
        hex := hex + [Char(byte[0] / 16), Char(byte[0] % 16)];
      }
      return true, hex;
    }

    /** buffer_put_int() */
    method PutInt(value: nat)
      requires Valid() && value < 0x1_0000_0000
      modifies this, buf
      ensures Valid() && Contents() == old(Contents()) + Four(value)
      ensures buf == old(buf) || fresh(buf)
    {
      Append([value / 0x100_0000 % 256, value / 0x1_0000 % 256, value / 256 % 256, value % 256]);
    }

    /** buffer_get_int() */
    method GetInt() returns (ok: bool, value: nat)
      requires Valid()
      modifies `offset
      ensures Valid() && ok == (|old(Contents())| >= 4)
      ensures ok ==> value == FourBack(old(Contents())) && Contents() == old(Contents())[4..]
      ensures !ok ==> Contents() == old(Contents())
    {
      var four;
      ok, four := Get(4);
      value := if ok then FourBack(four) else 0;
    }

    /** buffer_put_string() */
    method PutString(data: Octets)
      requires Valid() && |data| < 0x1_0000_0000
      modifies this, buf
      ensures Valid() && Contents() == old(Contents()) + (Four(|data|) + data)
      ensures buf == old(buf) || fresh(buf)
    {
      PutInt(|data|);
      Append(data);
    }

    /** buffer_get_string() */
    method GetString() returns (ok: bool, data: Octets)
      requires Valid()
      modifies `offset
      ensures Valid() && ok == ReadString(old(Contents())).0.Some?
      ensures ok ==> Some(data) == ReadString(old(Contents())).0 && Contents() == ReadString(old(Contents())).1
    {
      ghost var all := Contents();
      data := [];
      var len;
      ok, len := GetInt();
      if !ok || len > LIMIT {
        return false, [];
      }
      ghost var body := Contents();
      ok, data := Get(len);
      if ok {
        assert all[4..4 + len] == body[..len] && all[4 + len..] == body[len..];
      }
    }
  }

  lemma SameParts(s: Octets, t: Octets, a: nat, b: nat)
    requires a <= b <= |t| <= |s| && s[..|t|] == t
    ensures s[a..b] == t[a..b]
  {
    assert s[..|t|][a..b] == s[a..b];
  }

  /** memcpy() into the buffer. */
  method CopyIn(a: array<Octet>, at: nat, data: Octets)
    requires at + |data| <= a.Length
    modifies a
    ensures a[at..at + |data|] == data && a[..at] == old(a[..at])
  {
    for k := 0 to |data|
      invariant a[at..at + k] == data[..k]
      invariant forall j :: 0 <= j < at ==> a[j] == old(a[j])
    {
      a[at + k] := data[k];
    }
    assert data[..|data|] == data;
  }

  lemma Extended(was: Octets, now: Octets, a: nat, b: nat, data: Octets)
    requires a <= b && b + |data| <= |now| && b <= |was|
    requires now[..b] == was[..b] && now[b..b + |data|] == data
    ensures now[a..b + |data|] == was[a..b] + data
  {
    Spliced(now, a, b, b + |data|);
    assert now[..b][a..] == was[..b][a..];
  }

  lemma Spliced(s: Octets, a: nat, b: nat, c: nat)
    requires a <= b <= c <= |s|
    ensures s[a..c] == s[a..b] + s[b..c]
  {
  }

  // ----- What is on the wire -----

  /** A bit count in two bytes, high byte first, and the number. */
  function Wire(v: nat): Octets {
    Head(Bits(v)) + Bytes(v)
  }

  /** PUT_16BIT */
  function Head(bits: nat): Octets {
    [bits / 256 % 256, bits % 256]
  }

  /** What buffer_get_mp_int comes to: a bit count of 0 leaves it without a text to read. */
  datatype Read = Value(value: nat) | Unset | Fatal

  function ReadWire(s: Octets): (Read, Octets) {
    if |s| < 2 then (Fatal, s)
    else
      var bytes := (TwoBack(s) + 7) / 8;
      if |s| < 2 + bytes then (Fatal, s)
      else if bytes == 0 then (Unset, s[2..])
      else (Value(Number(256, s[2..2 + bytes])), s[2 + bytes..])
  }

  const LIMIT := 256 * 1024

  /** GET_16BIT */
  function TwoBack(s: Octets): nat
    requires |s| >= 2
  {
    s[0] as int * 256 + s[1] as int
  }

  /** PUT_32BIT */
  function Four(v: nat): Octets {
    [v / 0x100_0000 % 256, v / 0x1_0000 % 256, v / 256 % 256, v % 256]
  }

  /** GET_32BIT */
  function FourBack(s: Octets): nat
    requires |s| >= 4
  {
    s[0] as int * 0x100_0000 + s[1] as int * 0x1_0000 + s[2] as int * 256 + s[3] as int
  }

  function ReadString(s: Octets): (Option<Octets>, Octets) {
    if |s| < 4 || FourBack(s) > LIMIT || |s| < 4 + FourBack(s) then (None, s)
    else (Some(s[4..4 + FourBack(s)]), s[4 + FourBack(s)..])
  }

  function Power(n: nat): (p: nat)
    ensures p > 0
  {
    if n == 0 then 1 else 2 * Power(n - 1)
  }

  /** The bit count is that of the binary number. */
  lemma {:induction false} BitsAre(v: nat)
    ensures v < Power(Bits(v)) && (v > 0 ==> Power(Bits(v) - 1) <= v)
  {
    if v >= 2 {
      BitsAre(v / 2);
    } else {
      assert Power(1) == 2 * Power(0);
    }
  }

  /** What is on the wire: the bit count in two bytes and the number in no more than it needs, both
      high byte first. */
  lemma WireIs(v: nat)
    requires Bits(v) < 0x1_0000
    ensures var w := Wire(v);
      && |w| == 2 + (Bits(v) + 7) / 8
      && 256 * w[0] as int + w[1] as int == Bits(v)
      && Number(256, w[2..]) == v
  {
    ByteCount(v);
    BytesBack(v);
    assert Wire(v)[2..] == Bytes(v);
  }

  /** The length of a string, high byte first. */
  lemma FourAre(n: nat)
    requires n < 0x1_0000_0000
    ensures var f := Four(n); |f| == 4 && ((f[0] as int * 256 + f[1]) * 256 + f[2]) * 256 + f[3] == n
  {
    FourIsBack(n);
  }

  /** A number is read back, and exactly its bytes are consumed, if and only if its bit count
      fits the two bytes. */
  lemma RoundTripIff(v: nat, rest: Octets)
    ensures ReadWire(Wire(v) + rest) == (Value(v), rest) <==> Bits(v) < 0x1_0000
  {
    if Bits(v) < 0x1_0000 {
      Fits(v, rest);
    } else {
      DoesNotFit(v, rest);
    }
  }

  lemma Fits(v: nat, rest: Octets)
    requires Bits(v) < 0x1_0000
    ensures ReadWire(Wire(v) + rest) == (Value(v), rest)
  {
    ByteCount(v);
    Announced(Bits(v));
    BytesBack(v);
    ReadsBody(Head(Bits(v)), Bytes(v), rest);
  }

  lemma Announced(bits: nat)
    requires bits < 0x1_0000
    ensures TwoBack(Head(bits)) == bits
  {
    TwoIsBack(bits);
  }

  lemma ReadsBody(head: Octets, body: Octets, rest: Octets)
    requires |head| == 2 && body != [] && |body| == (TwoBack(head) + 7) / 8
    ensures ReadWire(head + body + rest) == (Value(Number(256, body)), rest)
  {
    var s := head + body + rest;
    assert s[0] == head[0] && s[1] == head[1];
    Middle(head, body, rest);
  }

  lemma DoesNotFit(v: nat, rest: Octets)
    requires Bits(v) >= 0x1_0000
    ensures ReadWire(Wire(v) + rest) != (Value(v), rest)
  {
    ByteCount(v);
    HeadOf(v, rest);
    Short(Bits(v), |Bytes(v)|);
    LeavesMore(Wire(v) + rest, |rest|);
  }

  lemma LeavesMore(s: Octets, n: nat)
    requires |s| >= 2 && 2 + (TwoBack(s) + 7) / 8 < |s| - n
    ensures ReadWire(s).0.Value? ==> |ReadWire(s).1| > n
  {
  }

  /** A bit count that does not fit announces fewer bytes than there are. */
  lemma Short(bits: nat, n: nat)
    requires bits >= 0x1_0000 && n == (bits + 7) / 8
    ensures (bits % 0x1_0000 + 7) / 8 < n
  {
  }

  lemma HeadOf(v: nat, rest: Octets)
    ensures |Wire(v) + rest| == 2 + |Bytes(v)| + |rest| && TwoBack(Wire(v) + rest) == Bits(v) % 0x1_0000
  {
    var s := Wire(v) + rest;
    assert s[0] == Head(Bits(v))[0] && s[1] == Head(Bits(v))[1];
    TwoIsBack(Bits(v));
  }

  lemma TwoIsBack(n: nat)
    ensures TwoBack(Head(n)) == n % 0x1_0000
  {
    assert n / 256 / 256 == n / 0x1_0000;
  }

  lemma Middle(head: Octets, body: Octets, rest: Octets)
    ensures (head + body + rest)[|head|..|head| + |body|] == body && (head + body + rest)[|head| + |body|..] == rest
  {
  }

  /** A string is read back if and only if it is not longer than the reader allows. */
  lemma StringRoundTripIff(data: Octets, rest: Octets)
    requires |data| < 0x1_0000_0000
    ensures ReadString(Four(|data|) + data + rest) == (Some(data), rest) <==> |data| <= 262144
  {
    var s := Four(|data|) + data + rest;
    assert s[0] == Four(|data|)[0] && s[1] == Four(|data|)[1] && s[2] == Four(|data|)[2] && s[3] == Four(|data|)[3];
    FourIsBack(|data|);
    assert FourBack(s) == FourBack(Four(|data|));
    Middle(Four(|data|), data, rest);
  }

  lemma FourIsBack(n: nat)
    requires n < 0x1_0000_0000
    ensures FourBack(Four(n)) == n
  {
    assert n / 0x1_0000 / 256 == n / 0x100_0000 && n / 256 / 256 == n / 0x1_0000;
  }

  function Wires(values: seq<nat>): Octets {
    if values == [] then [] else Wire(values[0]) + Wires(values[1..])
  }

  function ReadWires(s: Octets, n: nat): (seq<nat>, Octets) {
    if n == 0 then ([], s)
    else
      var (r, rest) := ReadWire(s);
      if !r.Value? then ([], rest) else var (more, left) := ReadWires(rest, n - 1); ([r.value] + more, left)
  }

  /** Any numbers put into the queue come out in the same order, and leave what came after. */
  lemma {:induction false} InOrder(values: seq<nat>, rest: Octets)
    requires forall v :: v in values ==> Bits(v) < 0x1_0000
    ensures ReadWires(Wires(values) + rest, |values|) == (values, rest)
  {
    if values == [] {
      assert [] + rest == rest;
    } else {
      FirstInOrder(values, Wires(values[1..]), rest);
      InOrder(values[1..], rest);
      assert [values[0]] + values[1..] == values;
    }
  }

  lemma FirstInOrder(values: seq<nat>, more: Octets, rest: Octets)
    requires values != [] && Bits(values[0]) < 0x1_0000 && more == Wires(values[1..])
    ensures ReadWire(Wires(values) + rest) == (Value(values[0]), more + rest)
  {
    RoundTripIff(values[0], more + rest);
    Grouped(Wire(values[0]), more, rest);
  }
}
