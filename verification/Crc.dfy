/** The cyclic redundancy checks of rzsz/crctab.c and the residues by which the receivers of
    rzsz/zm.c recognise an intact packet. */
module Crc {
  type Byte = bv8

  // ----- 16 bits: crctab and updcrc -----

  /** A table of 16-bit feedback terms. Nothing below depends on its contents. */
  type Table16 = Byte -> bv16

  /** updcrc(cp, crc), kept to the 16 bits of an unsigned short. */
  function Upd16(tab: Table16, cp: Byte, crc: bv16): bv16 {
    tab(High(crc)) ^ (crc << 8) ^ (cp as bv16)
  }

  function High(x: bv16): Byte { (x >> 8) as Byte }

  function Low(x: bv16): Byte { (x & 0xFF) as Byte }

  function Crc16(tab: Table16, data: seq<Byte>, crc: bv16): bv16
    decreases |data|
  {
    if data == [] then crc else Crc16(tab, data[1..], Upd16(tab, data[0], crc))
  }

  /** The two bytes sent after data that leave the check at `crc`. */
  function Trailer16(tab: Table16, crc: bv16): (t: seq<Byte>)
    ensures |t| == 2
  {
    var sum := Upd16(tab, 0, Upd16(tab, 0, crc));
    [High(sum), Low(sum)]
  }

  /** Whatever the table and the data, checking the trailer too leaves 0. */
  lemma Residue16(tab: Table16, crc: bv16)
    ensures Crc16(tab, Trailer16(tab, crc), crc) == 0
  {
    var hi, lo, mid := TrailerParts(tab, crc);
    TwoBytes16(tab, hi, lo, crc);
  }

  /** ... and no other two bytes do. */
  lemma OnlyTrailer16(tab: Table16, a: Byte, b: Byte, crc: bv16)
    requires Crc16(tab, [a, b], crc) == 0
    ensures [a, b] == Trailer16(tab, crc)
  {
    var clear := Upd16(tab, 0, crc);
    var sum := Upd16(tab, 0, clear);
    var mid := Upd16(tab, a, crc);
    TwoBytes16(tab, a, b, crc);
    FirstByte(tab, a, crc);
    var entry := SumOf(tab, clear, sum);
    HighByteKept(clear, a);
    SameEntry(tab, clear, mid, b, entry);
    MustCancel(entry, clear, sum, a, b, mid);
  }

  lemma MustCancel(entry: bv16, clear: bv16, sum: bv16, a: Byte, b: Byte, mid: bv16)
    requires sum == entry ^ (clear << 8) && mid == clear ^ (a as bv16)
    requires entry ^ (mid << 8) ^ (b as bv16) == 0
    ensures a == High(sum) && b == Low(sum)
  {
  }

  /** The trailer's bytes, and the check between them: the second byte clears it. */
  lemma TrailerParts(tab: Table16, crc: bv16) returns (hi: Byte, lo: Byte, mid: bv16)
    ensures Trailer16(tab, crc) == [hi, lo]
    ensures Upd16(tab, hi, crc) == mid && Upd16(tab, lo, mid) == 0
  {
    var clear := Upd16(tab, 0, crc);
    var sum := Upd16(tab, 0, clear);
    hi, lo := High(sum), Low(sum);
    mid := Upd16(tab, hi, crc);
    FirstByte(tab, hi, crc);
    SecondByte(tab, clear, sum, hi, lo, mid);
  }

  lemma OneByte16(tab: Table16, b: Byte, rest: seq<Byte>, crc: bv16)
    ensures Crc16(tab, [b] + rest, crc) == Crc16(tab, rest, Upd16(tab, b, crc))
  {
    assert ([b] + rest)[1..] == rest;
  }

  lemma TwoBytes16(tab: Table16, hi: Byte, lo: Byte, crc: bv16)
    ensures Crc16(tab, [hi, lo], crc) == Upd16(tab, lo, Upd16(tab, hi, crc))
  {
    assert [hi, lo] == [hi] + [lo] && [lo] == [lo] + [];
    OneByte16(tab, hi, [lo], crc);
    OneByte16(tab, lo, [], Upd16(tab, hi, crc));
  }

  lemma FirstByte(tab: Table16, cp: Byte, crc: bv16)
    ensures Upd16(tab, cp, crc) == Upd16(tab, 0, crc) ^ (cp as bv16)
  {
  }

  lemma SecondByte(tab: Table16, clear: bv16, sum: bv16, hi: Byte, lo: Byte, mid: bv16)
    requires sum == Upd16(tab, 0, clear) && hi == High(sum) && lo == Low(sum) && mid == clear ^ (hi as bv16)
    ensures Upd16(tab, lo, mid) == 0
  {
    var entry := SumOf(tab, clear, sum);
    HighByteKept(clear, hi);
    SameEntry(tab, clear, mid, lo, entry);
    Cancel(entry, clear, sum, hi, lo, mid);
  }

  lemma SumOf(tab: Table16, clear: bv16, sum: bv16) returns (entry: bv16)
    requires sum == Upd16(tab, 0, clear)
    ensures entry == tab(High(clear)) && sum == entry ^ (clear << 8)
  {
    entry := tab(High(clear));
  }

  lemma SameEntry(tab: Table16, clear: bv16, mid: bv16, lo: Byte, entry: bv16)
    requires entry == tab(High(clear)) && High(mid) == High(clear)
    ensures Upd16(tab, lo, mid) == entry ^ (mid << 8) ^ (lo as bv16)
  {
  }

  lemma HighByteKept(clear: bv16, hi: Byte)
    ensures High(clear ^ (hi as bv16)) == High(clear)
  {
  }

  lemma Cancel(entry: bv16, clear: bv16, sum: bv16, hi: Byte, lo: Byte, mid: bv16)
    requires sum == entry ^ (clear << 8)
    requires hi == High(sum) && lo == Low(sum) && mid == clear ^ (hi as bv16)
    ensures entry ^ (mid << 8) ^ (lo as bv16) == 0
  {
  }

  // ----- 32 bits: cr3tab and UPDC32 -----

  const POLY32: bv32 := 0xEDB88320

  function Shift32(x: bv32): bv32 {
    (x >> 1) ^ (if x & 1 == 1 then POLY32 else 0)
  }

  /** cr3tab[i]: eight shift and xor steps, as the comment above the table describes it. */
  function Cr3(i: bv32): bv32 {
    Shifts(i, 8)
  }

  function Shifts(x: bv32, n: nat): bv32
    decreases n
  {
    if n == 0 then x else Shifts(Shift32(x), n - 1)
  }

  /** UPDC32(b, c) */
  function Upd32(b: Byte, crc: bv32): bv32 {
    Cr3((crc ^ (b as bv32)) & 0xFF) ^ (crc >> 8)
  }

  const INIT32: bv32 := 0xFFFFFFFF
  const RESIDUE32: bv32 := 0xDEBB20E3

  function Crc32(data: seq<Byte>, crc: bv32): bv32
    decreases |data|
  {
    if data == [] then crc else Crc32(data[1..], Upd32(data[0], crc))
  }

  /** The four bytes sent after data that leave the check at `crc`, low byte first. */
  function Trailer32(crc: bv32): (t: seq<Byte>)
    ensures |t| == 4
  {
    [(!crc & 0xFF) as Byte, ((!crc >> 8) & 0xFF) as Byte, ((!crc >> 16) & 0xFF) as Byte, ((!crc >> 24) & 0xFF) as Byte]
  }

  // Each trailer byte turns one more byte of the check into a constant.

  lemma StepA(crc: bv32)
    ensures Upd32((!crc & 0xFF) as Byte, crc) == 0x2D02EF8D ^ (crc >> 8)
  {
    assert (crc ^ (((!crc & 0xFF) as Byte) as bv32)) & 0xFF == 0xFF;
    assert Cr3(0xFF) == 0x2D02EF8D;
  }

  lemma StepB(crc: bv32)
    ensures Upd32(((!crc >> 8) & 0xFF) as Byte, 0x2D02EF8D ^ (crc >> 8)) == 0xBE2612FF ^ (crc >> 16)
  {
    assert ((0x2D02EF8D ^ (crc >> 8)) ^ ((((!crc >> 8) & 0xFF) as Byte) as bv32)) & 0xFF == 0x72;
    assert Cr3(0x72) == 0xBE0B1010;
    assert (0x2D02EF8D ^ (crc >> 8)) >> 8 == 0x002D02EF ^ (crc >> 16);
    assert 0xBE0B1010 ^ (0x002D02EF ^ (crc >> 16)) == 0xBE2612FF ^ (crc >> 16);
  }

  lemma StepC(crc: bv32)
    ensures Upd32(((!crc >> 16) & 0xFF) as Byte, 0xBE2612FF ^ (crc >> 16)) == 0x00BE2612 ^ (crc >> 24)
  {
    assert ((0xBE2612FF ^ (crc >> 16)) ^ ((((!crc >> 16) & 0xFF) as Byte) as bv32)) & 0xFF == 0;
    assert Cr3(0) == 0;
    assert (0xBE2612FF ^ (crc >> 16)) >> 8 == 0x00BE2612 ^ (crc >> 24);
  }

  lemma StepD(crc: bv32)
    ensures Upd32(((!crc >> 24) & 0xFF) as Byte, 0x00BE2612 ^ (crc >> 24)) == RESIDUE32
  {
    assert ((0x00BE2612 ^ (crc >> 24)) ^ ((((!crc >> 24) & 0xFF) as Byte) as bv32)) & 0xFF == 0xED;
    assert Cr3(0xED) == 0xDEBB9EC5;
    assert (0x00BE2612 ^ (crc >> 24)) >> 8 == 0x0000BE26;
  }

  /** Checking the trailer too leaves a constant, whatever was checked before it. */
  lemma Residue32(crc: bv32)
    ensures Crc32(Trailer32(crc), crc) == RESIDUE32
  {
    var t := Trailer32(crc);
    FourBytes32(t[0], t[1], t[2], t[3], crc);
    StepA(crc);
    StepB(crc);
    StepC(crc);
    StepD(crc);
  }

  lemma OneByte32(b: Byte, rest: seq<Byte>, crc: bv32)
    ensures Crc32([b] + rest, crc) == Crc32(rest, Upd32(b, crc))
  {
    assert ([b] + rest)[1..] == rest;
  }

  lemma FourBytes32(a: Byte, b: Byte, c: Byte, d: Byte, crc: bv32)
    ensures Crc32([a, b, c, d], crc) == Upd32(d, Upd32(c, Upd32(b, Upd32(a, crc))))
  {
    assert [a, b, c, d] == [a] + [b, c, d] && [b, c, d] == [b] + [c, d] && [c, d] == [c] + [d] && [d] == [d] + [];
    OneByte32(a, [b, c, d], crc);
    OneByte32(b, [c, d], Upd32(a, crc));
    OneByte32(c, [d], Upd32(b, Upd32(a, crc)));
    OneByte32(d, [], Upd32(c, Upd32(b, Upd32(a, crc))));
  }

  // ----- Only the trailer -----

  // Read backwards, equal checks come from equal table entries, byte by byte.

  function Term(i: bv32, bit: bv32, term: bv32): bv32 {
    if i & bit != 0 then term else 0
  }

  /** The entries for single bits, summed up. */
  function Terms(i: bv32): bv32 {
    Term(i, 1, 0x77073096) ^ Term(i, 2, 0xEE0E612C) ^ Term(i, 4, 0x076DC419) ^ Term(i, 8, 0x0EDB8832)
    ^ Term(i, 16, 0x1DB71064) ^ Term(i, 32, 0x3B6E20C8) ^ Term(i, 64, 0x76DC4190) ^ Term(i, 128, 0xEDB88320)
  }

  lemma EntryIsTerms(i: bv32)
    requires i < 256
    ensures Cr3(i) == Terms(i)
  {
  }

  lemma TermsApart(i: bv32, j: bv32)
    requires i < 256 && j < 256 && Terms(i) >> 24 == Terms(j) >> 24
    ensures i == j
  {
  }

  /** The top bytes of the entries tell them apart. */
  lemma EntriesApart(i: bv32, j: bv32)
    requires i < 256 && j < 256 && Cr3(i) >> 24 == Cr3(j) >> 24
    ensures i == j
  {
    EntryIsTerms(i);
    EntryIsTerms(j);
    TermsApart(i, j);
  }

  /** The entry of cr3tab that a byte selects. */
  function Pick(b: Byte, crc: bv32): bv32 { (crc ^ (b as bv32)) & 0xFF }

  lemma PickFits(b: Byte, crc: bv32)
    ensures Pick(b, crc) < 256
  {
  }

  /** The top byte of an entry is not covered by the check shifted down. */
  lemma TopOfXor(e: bv32, f: bv32, x: bv32, y: bv32)
    requires e ^ (x >> 8) == f ^ (y >> 8)
    ensures e >> 24 == f >> 24
  {
  }

  lemma TopOfXor8(e: bv32, f: bv32, x: bv32, y: bv32)
    requires (e ^ (x >> 8)) >> 8 == (f ^ (y >> 8)) >> 8
    ensures e >> 24 == f >> 24
  {
  }

  lemma TopOfXor16(e: bv32, f: bv32, x: bv32, y: bv32)
    requires (e ^ (x >> 8)) >> 16 == (f ^ (y >> 8)) >> 16
    ensures e >> 24 == f >> 24
  {
  }

  lemma TopOfXor24(e: bv32, f: bv32, x: bv32, y: bv32)
    requires (e ^ (x >> 8)) >> 24 == (f ^ (y >> 8)) >> 24
    ensures e >> 24 == f >> 24
  {
  }

  lemma RestOfXor(e: bv32, x: bv32, y: bv32)
    ensures e ^ (x >> 8) == e ^ (y >> 8) ==> x >> 8 == y >> 8
    ensures (e ^ (x >> 8)) >> 8 == (e ^ (y >> 8)) >> 8 ==> x >> 16 == y >> 16
    ensures (e ^ (x >> 8)) >> 16 == (e ^ (y >> 8)) >> 16 ==> x >> 24 == y >> 24
  {
  }

  lemma SamePick(a: Byte, b: Byte, x: bv32, y: bv32)
    requires Cr3(Pick(a, x)) >> 24 == Cr3(Pick(b, y)) >> 24
    ensures Pick(a, x) == Pick(b, y)
  {
    PickFits(a, x);
    PickFits(b, y);
    EntriesApart(Pick(a, x), Pick(b, y));
  }

  lemma Back0(a: Byte, b: Byte, x: bv32, y: bv32)
    requires Upd32(a, x) == Upd32(b, y)
    ensures Pick(a, x) == Pick(b, y) && x >> 8 == y >> 8
  {
    TopOfXor(Cr3(Pick(a, x)), Cr3(Pick(b, y)), x, y);
    SamePick(a, b, x, y);
    RestOfXor(Cr3(Pick(a, x)), x, y);
  }

  lemma Back8(a: Byte, b: Byte, x: bv32, y: bv32)
    requires Upd32(a, x) >> 8 == Upd32(b, y) >> 8
    ensures Pick(a, x) == Pick(b, y) && x >> 16 == y >> 16
  {
    TopOfXor8(Cr3(Pick(a, x)), Cr3(Pick(b, y)), x, y);
    SamePick(a, b, x, y);
    RestOfXor(Cr3(Pick(a, x)), x, y);
  }

  lemma Back16(a: Byte, b: Byte, x: bv32, y: bv32)
    requires Upd32(a, x) >> 16 == Upd32(b, y) >> 16
    ensures Pick(a, x) == Pick(b, y) && x >> 24 == y >> 24
  {
    TopOfXor16(Cr3(Pick(a, x)), Cr3(Pick(b, y)), x, y);
    SamePick(a, b, x, y);
    RestOfXor(Cr3(Pick(a, x)), x, y);
  }

  lemma Back24(a: Byte, b: Byte, x: bv32, y: bv32)
    requires Upd32(a, x) >> 24 == Upd32(b, y) >> 24
    ensures Pick(a, x) == Pick(b, y)
  {
    TopOfXor24(Cr3(Pick(a, x)), Cr3(Pick(b, y)), x, y);
    SamePick(a, b, x, y);
  }

  lemma PickTells(a: Byte, b: Byte, x: bv32)
    requires Pick(a, x) == Pick(b, x)
    ensures a == b
  {
  }

  /** One byte more keeps different checks different. */
  lemma Apart32(b: Byte, x: bv32, y: bv32)
    requires Upd32(b, x) == Upd32(b, y)
    ensures x == y
  {
    Back0(b, b, x, y);
    Rejoined(b, x, y);
  }

  lemma Rejoined(b: Byte, x: bv32, y: bv32)
    requires Pick(b, x) == Pick(b, y) && x >> 8 == y >> 8
    ensures x == y
  {
  }

  /** Two different bytes never leave a check the same. */
  lemma Differ32(a: Byte, b: Byte, x: bv32)
    requires Upd32(a, x) == Upd32(b, x)
    ensures a == b
  {
    Back0(a, b, x, x);
    PickTells(a, b, x);
  }

  /** Of a step of which `more` of the result is known, the entry and `less` of the start are. */
  ghost predicate Backwards<C(!new)>(upd: (Byte, C) -> C, pick: (Byte, C) -> C, more: C -> C, less: C -> C) {
    forall a, b, x, y {:trigger more(upd(a, x)), more(upd(b, y))} ::
      more(upd(a, x)) == more(upd(b, y)) ==> pick(a, x) == pick(b, y) && less(x) == less(y)
  }

  ghost predicate Telling<C(!new)>(pick: (Byte, C) -> C) {
    forall a, b, x :: pick(a, x) == pick(b, x) ==> a == b
  }

  /** Four steps from one state lead to a given other one in one way only. */
  lemma FourApart<C(!new)>(upd: (Byte, C) -> C, pick: (Byte, C) -> C, all: C -> C, k: C -> C, l: C -> C, m: C -> C,
      none: C -> C, a: Byte, b: Byte, c: Byte, d: Byte, a': Byte, b': Byte, c': Byte, d': Byte, crc: C)
    requires Backwards(upd, pick, all, k) && Backwards(upd, pick, k, l)
    requires Backwards(upd, pick, l, m) && Backwards(upd, pick, m, none) && Telling(pick)
    requires upd(d, upd(c, upd(b, upd(a, crc)))) == upd(d', upd(c', upd(b', upd(a', crc))))
    ensures a == a' && b == b' && c == c' && d == d'
  {
    var x, x' := upd(a, crc), upd(a', crc);
    var y, y' := upd(b, x), upd(b', x');
    var z, z' := upd(c, y), upd(c', y');
    assert all(upd(d, z)) == all(upd(d', z'));
    assert k(z) == k(z') && pick(d, z) == pick(d', z');
    assert l(y) == l(y') && pick(c, y) == pick(c', y');
    assert m(x) == m(x') && pick(b, x) == pick(b', x');
    assert pick(a, crc) == pick(a', crc);
  }

  function All(x: bv32): bv32 { x }

  function Down8(x: bv32): bv32 { x >> 8 }

  function Down16(x: bv32): bv32 { x >> 16 }

  function Down24(x: bv32): bv32 { x >> 24 }

  function Nothing(x: bv32): bv32 { 0 }

  lemma AllBackwards()
    ensures Backwards(Upd32, Pick, All, Down8)
  {
    forall a: Byte, b: Byte, x: bv32, y: bv32 | All(Upd32(a, x)) == All(Upd32(b, y))
      ensures Pick(a, x) == Pick(b, y) && Down8(x) == Down8(y)
    {
      Back0(a, b, x, y);
    }
  }

  lemma Down8Backwards()
    ensures Backwards(Upd32, Pick, Down8, Down16)
  {
    forall a: Byte, b: Byte, x: bv32, y: bv32 | Down8(Upd32(a, x)) == Down8(Upd32(b, y))
      ensures Pick(a, x) == Pick(b, y) && Down16(x) == Down16(y)
    {
      Back8(a, b, x, y);
    }
  }

  lemma Down16Backwards()
    ensures Backwards(Upd32, Pick, Down16, Down24)
  {
    forall a: Byte, b: Byte, x: bv32, y: bv32 | Down16(Upd32(a, x)) == Down16(Upd32(b, y))
      ensures Pick(a, x) == Pick(b, y) && Down24(x) == Down24(y)
    {
      Back16(a, b, x, y);
    }
  }

  lemma Down24Backwards()
    ensures Backwards(Upd32, Pick, Down24, Nothing)
  {
    forall a: Byte, b: Byte, x: bv32, y: bv32 | Down24(Upd32(a, x)) == Down24(Upd32(b, y))
      ensures Pick(a, x) == Pick(b, y) && Nothing(x) == Nothing(y)
    {
      Back24(a, b, x, y);
    }
  }

  lemma PickIsTelling()
    ensures Telling(Pick)
  {
    forall a: Byte, b: Byte, x: bv32 | Pick(a, x) == Pick(b, x) ensures a == b {
      PickTells(a, b, x);
    }
  }

  lemma TrailerBytes(crc: bv32) returns (a: Byte, b: Byte, c: Byte, d: Byte)
    ensures Trailer32(crc) == [a, b, c, d] && Crc32([a, b, c, d], crc) == RESIDUE32
  {
    var t := Trailer32(crc);
    Residue32(crc);
    a, b, c, d := t[0], t[1], t[2], t[3];
    assert t == [a, b, c, d];
  }

  /** Only the trailer itself leaves the residue. */
  lemma OnlyTrailer32(a: Byte, b: Byte, c: Byte, d: Byte, crc: bv32)
    requires Crc32([a, b, c, d], crc) == RESIDUE32
    ensures [a, b, c, d] == Trailer32(crc)
  {
    var a', b', c', d' := TrailerBytes(crc);
    SameCheck(a, b, c, d, a', b', c', d', crc);
  }

  lemma SameCheck(a: Byte, b: Byte, c: Byte, d: Byte, a': Byte, b': Byte, c': Byte, d': Byte, crc: bv32)
    requires Crc32([a, b, c, d], crc) == Crc32([a', b', c', d'], crc)
    ensures a == a' && b == b' && c == c' && d == d'
  {
    FourBytes32(a, b, c, d, crc);
    FourBytes32(a', b', c', d', crc);
    SameFour(a, b, c, d, a', b', c', d', crc);
  }

  lemma SameFour(a: Byte, b: Byte, c: Byte, d: Byte, a': Byte, b': Byte, c': Byte, d': Byte, crc: bv32)
    requires Upd32(d, Upd32(c, Upd32(b, Upd32(a, crc)))) == Upd32(d', Upd32(c', Upd32(b', Upd32(a', crc))))
    ensures a == a' && b == b' && c == c' && d == d'
  {
    AllBackwards();
    Down8Backwards();
    Down16Backwards();
    Down24Backwards();
    PickIsTelling();
    FourApart(Upd32, Pick, All, Down8, Down16, Down24, Nothing, a, b, c, d, a', b', c', d', crc);
  }
}
