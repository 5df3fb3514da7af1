/** The hash function of innbbsd/dbz.c: a 31-bit CRC of the low seven bits of each character. */
module DbzHash {
  type Byte = bv8
  type Bytes = seq<Byte>
  type Word = bv64

  const POLY: Word := 0x48000000
  /** The bits that a sum never has, the sign bit of a long of either size among them. */
  const ABOVE: Word := 0xFFFF_FFFF_8000_0000

  function Bit(i: Word, j: Word, term: Word): Word {
    if i & j != 0 then term else 0
  }

  // The sums of the inner loop of crcinit().

  function Sum6(i: Word): Word { Bit(i, 64, POLY >> 6) }

  function Sum5(i: Word): Word { Sum6(i) ^ Bit(i, 32, POLY >> 5) }

  function Sum4(i: Word): Word { Sum5(i) ^ Bit(i, 16, POLY >> 4) }

  function Sum3(i: Word): Word { Sum4(i) ^ Bit(i, 8, POLY >> 3) }

  function Sum2(i: Word): Word { Sum3(i) ^ Bit(i, 4, POLY >> 2) }

  function Sum1(i: Word): Word { Sum2(i) ^ Bit(i, 2, POLY >> 1) }

  /** CrcTable[i], as the inner loop of crcinit() makes it. */
  function Entry(i: Word): Word { Sum1(i) ^ Bit(i, 1, POLY) }

  /** One round of the inner loop of crcinit(). */
  predicate BitRound(i: Word, j: nat, before: Word, after: Word) {
    j < 64 && after == before ^ Bit(i, 1 << j, POLY >> j)
  }

  lemma Level6(i: Word)
    ensures BitRound(i, 6, 0, Sum6(i))
  {
    assert (1 as Word) << 6 == 64;
  }

  lemma Level5(i: Word)
    ensures BitRound(i, 5, Sum6(i), Sum5(i))
  {
    assert (1 as Word) << 5 == 32;
  }

  lemma Level4(i: Word)
    ensures BitRound(i, 4, Sum5(i), Sum4(i))
  {
    assert (1 as Word) << 4 == 16;
  }

  lemma Level3(i: Word)
    ensures BitRound(i, 3, Sum4(i), Sum3(i))
  {
    assert (1 as Word) << 3 == 8;
  }

  lemma Level2(i: Word)
    ensures BitRound(i, 2, Sum3(i), Sum2(i))
  {
    assert (1 as Word) << 2 == 4;
  }

  lemma Level1(i: Word)
    ensures BitRound(i, 1, Sum2(i), Sum1(i))
  {
    assert (1 as Word) << 1 == 2;
  }

  lemma Level0(i: Word)
    ensures BitRound(i, 0, Sum1(i), Entry(i))
  {
    assert (1 as Word) << 0 == 1;
  }

  lemma Listed<W>(step: (nat, W, W) -> bool, a: W, b: W, c: W, d: W, e: W, f: W, g: W, h: W) returns (all: seq<W>)
    requires step(0, b, a) && step(1, c, b) && step(2, d, c) && step(3, e, d) && step(4, f, e) && step(5, g, f)
    requires step(6, h, g)
    ensures |all| == 8 && all[7] == h && all[0] == a
    ensures forall j :: 0 <= j < 7 ==> step(j, all[j + 1], all[j])
  {
    all := [a, b, c, d, e, f, g, h];
  }

  /** What has been summed up when bits j to 6 have been looked at. */
  lemma Sums(i: Word) returns (sums: seq<Word>)
    ensures |sums| == 8 && sums[7] == 0 && sums[0] == Entry(i)
    ensures forall j :: 0 <= j < 7 ==> BitRound(i, j, sums[j + 1], sums[j])
  {
    Level0(i);
    Level1(i);
    Level2(i);
    Level3(i);
    Level4(i);
    Level5(i);
    Level6(i);
    sums := Listed((j: nat, x: Word, y: Word) => BitRound(i, j, x, y),
      Entry(i), Sum1(i), Sum2(i), Sum3(i), Sum4(i), Sum5(i), Sum6(i), 0);
  }

  /** The inner loop of crcinit(). */
  method CrcEntry(i: Word) returns (sum: Word)
    ensures sum == Entry(i)
  {
    sum := 0;
    var j := 7;
    ghost var sums := Sums(i);
    while j > 0
      invariant 0 <= j <= 7 && sum == sums[j]
    {
      j := j - 1;
      assert BitRound(i, j, sums[j + 1], sums[j]);
      if i & (1 << j) != 0 {
        sum := sum ^ (POLY >> j);
      }
    }
  }

  /** CrcTable[i] */
  function EntryOf(i: nat): Word {
    if i < 128 then Entry(i as Word) else 0
  }

  /** The first n elements of a table are those of `entry`. */
  ghost predicate Made<W(!new)>(entry: nat -> W, t: seq<W>, n: nat) {
    n <= |t| && forall i {:trigger t[i]} :: 0 <= i < n ==> t[i] == entry(i)
  }

  /** CrcTable holds its entries. */
  ghost predicate Filled(table: array<Word>)
    reads table
  {
    table.Length == 128 && Made(EntryOf, table[..], 128)
  }

  lemma MadeFurther<W(!new)>(entry: nat -> W, t: seq<W>, n: nat, w: W)
    requires n < |t| && Made(entry, t, n) && w == entry(n)
    ensures Made(entry, t[n := w], n + 1)
  {
  }

  /** crcinit() */
  method CrcInit(table: array<Word>)
    requires table.Length == 128
    modifies table
    ensures Filled(table)
  {
    var i := 0;
    while i < 128
      invariant 0 <= i <= 128 && Made(EntryOf, table[..], i)
    {
      var sum := CrcEntry(i as Word);
      MadeFurther(EntryOf, table[..], i, sum);
      ghost var next := table[..][i := sum];
      table[i] := sum;
      assert table[..] == next;
      i := i + 1;
    }
  }

  lemma IndexBack(w: Word)
    requires w < 128
    ensures (w as int) < 128 && (w as int) as Word == w
  {
  }

  type Table = Word -> Word

  /** Entries have 31 bits, the high seven of which tell them apart. */
  ghost predicate Good(t: Table) {
    (forall i :: t(i) & ABOVE == 0)
    && forall i, j :: i < 128 && j < 128 && t(i) >> 24 == t(j) >> 24 ==> i == j
  }

  lemma BitStays(i: Word, j: Word, term: Word)
    requires term & ABOVE == 0
    ensures Bit(i, j, term) & ABOVE == 0
  {
  }

  lemma BothStay(a: Word, b: Word)
    requires a & ABOVE == 0 && b & ABOVE == 0
    ensures (a ^ b) & ABOVE == 0
  {
  }

  lemma EntriesStay(i: Word)
    ensures Entry(i) & ABOVE == 0
  {
    BitStays(i, 64, POLY >> 6);
    BitStays(i, 32, POLY >> 5);
    BitStays(i, 16, POLY >> 4);
    BitStays(i, 8, POLY >> 3);
    BitStays(i, 4, POLY >> 2);
    BitStays(i, 2, POLY >> 1);
    BitStays(i, 1, POLY);
    SumStays(Bit(i, 64, POLY >> 6), Bit(i, 32, POLY >> 5), Bit(i, 16, POLY >> 4), Bit(i, 8, POLY >> 3),
      Bit(i, 4, POLY >> 2), Bit(i, 2, POLY >> 1), Bit(i, 1, POLY));
  }

  lemma SumStays(a: Word, b: Word, c: Word, d: Word, e: Word, f: Word, g: Word)
    requires a & ABOVE == 0 && b & ABOVE == 0 && c & ABOVE == 0 && d & ABOVE == 0 && e & ABOVE == 0
    requires f & ABOVE == 0 && g & ABOVE == 0
    ensures (a ^ b ^ c ^ d ^ e ^ f ^ g) & ABOVE == 0
  {
    BothStay(a, b);
    BothStay(a ^ b, c);
    BothStay(a ^ b ^ c, d);
    BothStay(a ^ b ^ c ^ d, e);
    BothStay(a ^ b ^ c ^ d ^ e, f);
    BothStay(a ^ b ^ c ^ d ^ e ^ f, g);
  }

  lemma EntriesDiffer(i: Word, j: Word)
    requires i < 128 && j < 128 && Entry(i) >> 24 == Entry(j) >> 24
    ensures i == j
  {
  }

  /** What crcinit() makes is such a table. */
  lemma CrcTableIsGood()
    ensures Good(Entry)
  {
    forall i ensures Entry(i) & ABOVE == 0 {
      EntriesStay(i);
    }
    forall i, j | i < 128 && j < 128 && Entry(i) >> 24 == Entry(j) >> 24 ensures i == j {
      EntriesDiffer(i, j);
    }
  }

  function Index(sum: Word, c: Byte): Word {
    (sum ^ (c as Word)) & 0x7F
  }

  /** One round of hash(). */
  function Round(t: Table, sum: Word, c: Byte): Word {
    (sum >> 7) ^ t(Index(sum, c))
  }

  function HashFrom(t: Table, sum: Word, name: Bytes): Word
    decreases |name|
  {
    if name == [] then sum else HashFrom(t, Round(t, sum, name[0]), name[1..])
  }

  /** hash(): the polynomial has 31 bits, which keeps sums from ever being negative. */
  method Hash(table: array<Word>, name: Bytes) returns (sum: Word)
    requires Filled(table)
    ensures sum == HashFrom(Entry, 0, name) && sum & ABOVE == 0
  {
    CrcTableIsGood();
    sum := 0;
    var i := 0;
    while i < |name|
      invariant 0 <= i <= |name| && sum & ABOVE == 0
      invariant HashFrom(Entry, sum, name[i..]) == HashFrom(Entry, 0, name)
    {
      Stays(Entry, sum, name[i]);
      assert name[i..][1..] == name[i + 1..];
      var entry := Selected(table, sum, name[i]);
      sum := (sum >> 7) ^ entry;
      i := i + 1;
    }
  }

  /** CrcTable[(sum ^ c) & 0x7f] */
  method Selected(table: array<Word>, sum: Word, c: Byte) returns (entry: Word)
    requires Filled(table)
    ensures entry == Entry(Index(sum, c))
  {
    IndexFits(sum, c);
    IndexBack(Index(sum, c));
    assert table[..][Index(sum, c) as int] == EntryOf(Index(sum, c) as int);
    entry := table[((sum ^ (c as Word)) & 0x7F) as int];
  }

  /** The keys of one character with one bit set hash to the polynomial and its shifts. */
  lemma SingleBits()
    ensures HashFrom(Entry, 0, [1]) == 0x4800_0000 && HashFrom(Entry, 0, [2]) == 0x2400_0000
    ensures HashFrom(Entry, 0, [4]) == 0x1200_0000 && HashFrom(Entry, 0, [8]) == 0x0900_0000
    ensures HashFrom(Entry, 0, [16]) == 0x0480_0000 && HashFrom(Entry, 0, [32]) == 0x0240_0000
    ensures HashFrom(Entry, 0, [64]) == 0x0120_0000
  {
    assert Round(Entry, 0, 1) == 0x4800_0000 && Round(Entry, 0, 2) == 0x2400_0000;
    assert Round(Entry, 0, 4) == 0x1200_0000 && Round(Entry, 0, 8) == 0x0900_0000;
    assert Round(Entry, 0, 16) == 0x0480_0000 && Round(Entry, 0, 32) == 0x0240_0000;
    assert Round(Entry, 0, 64) == 0x0120_0000;
  }

  lemma Stays(t: Table, sum: Word, c: Byte)
    requires Good(t) && sum & ABOVE == 0
    ensures Round(t, sum, c) & ABOVE == 0
  {
    XorStays(sum, t(Index(sum, c)));
  }

  lemma XorStays(sum: Word, e: Word)
    requires sum & ABOVE == 0 && e & ABOVE == 0
    ensures ((sum >> 7) ^ e) & ABOVE == 0
  {
  }

  lemma IndexFits(sum: Word, c: Byte)
    ensures Index(sum, c) < 128
  {
  }

  lemma Tops(a: Word, b: Word, e: Word, f: Word)
    requires a & ABOVE == 0 && b & ABOVE == 0 && (a >> 7) ^ e == (b >> 7) ^ f
    ensures e >> 24 == f >> 24
  {
  }

  lemma Shifted(a: Word, b: Word, e: Word)
    requires (a >> 7) ^ e == (b >> 7) ^ e
    ensures a >> 7 == b >> 7
  {
  }

  lemma SameIndex(t: Table, a: Word, b: Word, i: Word, j: Word)
    requires Good(t) && a & ABOVE == 0 && b & ABOVE == 0 && i < 128 && j < 128
    requires (a >> 7) ^ t(i) == (b >> 7) ^ t(j)
    ensures i == j
  {
    Tops(a, b, t(i), t(j));
  }

  lemma SameShift(t: Table, a: Word, b: Word, i: Word)
    requires (a >> 7) ^ t(i) == (b >> 7) ^ t(i)
    ensures a >> 7 == b >> 7
  {
    Shifted(a, b, t(i));
  }

  lemma Rejoin(a: Word, b: Word, c: Byte)
    requires a >> 7 == b >> 7 && Index(a, c) == Index(b, c)
    ensures a == b
  {
  }

  lemma LowBits(a: Word, c: Byte, d: Byte)
    requires Index(a, c) == Index(a, d)
    ensures c & 0x7F == d & 0x7F
  {
  }

  lemma SameEntry(t: Table, a: Word, b: Word, c: Byte, d: Byte)
    requires Good(t) && a & ABOVE == 0 && b & ABOVE == 0 && Round(t, a, c) == Round(t, b, d)
    ensures Index(a, c) == Index(b, d)
  {
    IndexFits(a, c);
    IndexFits(b, d);
    SameIndex(t, a, b, Index(a, c), Index(b, d));
  }

  lemma EqualRounds(t: Table, a: Word, b: Word, c: Byte) returns (i: Word)
    requires Good(t) && a & ABOVE == 0 && b & ABOVE == 0 && Round(t, a, c) == Round(t, b, c)
    ensures (a >> 7) ^ t(i) == (b >> 7) ^ t(i) && Index(a, c) == Index(b, c)
  {
    SameEntry(t, a, b, c, c);
    i := Index(a, c);
  }

  lemma SameSum(t: Table, a: Word, b: Word, c: Byte)
    requires Good(t) && a & ABOVE == 0 && b & ABOVE == 0 && Round(t, a, c) == Round(t, b, c)
    ensures a == b
  {
    var i := EqualRounds(t, a, b, c);
    Rejoined(t, a, b, c, i);
  }

  lemma Rejoined(t: Table, a: Word, b: Word, c: Byte, i: Word)
    requires (a >> 7) ^ t(i) == (b >> 7) ^ t(i) && Index(a, c) == Index(b, c)
    ensures a == b
  {
    SameShift(t, a, b, i);
    Rejoin(a, b, c);
  }

  /** The same text after two different sums leaves them different. */
  lemma {:induction false} StaysDifferent(t: Table, a: Word, b: Word, name: Bytes)
    requires Good(t) && a & ABOVE == 0 && b & ABOVE == 0 && a != b
    ensures HashFrom(t, a, name) != HashFrom(t, b, name)
    decreases |name|
  {
    if name != [] {
      Stays(t, a, name[0]);
      Stays(t, b, name[0]);
      if Round(t, a, name[0]) == Round(t, b, name[0]) {
        SameSum(t, a, b, name[0]);
      }
      StaysDifferent(t, Round(t, a, name[0]), Round(t, b, name[0]), name[1..]);
    }
  }

  /** Keys that differ in one character, and not just in its high bit, never hash alike. */
  lemma {:induction false} OneCharacter(t: Table, sum: Word, front: Bytes, c: Byte, d: Byte, rest: Bytes)
    requires Good(t) && sum & ABOVE == 0 && c & 0x7F != d & 0x7F
    ensures HashFrom(t, sum, front + [c] + rest) != HashFrom(t, sum, front + [d] + rest)
    decreases |front|
  {
    if front == [] {
      assert [] + [c] + rest == [c] + rest && ([c] + rest)[1..] == rest;
      assert [] + [d] + rest == [d] + rest && ([d] + rest)[1..] == rest;
      Stays(t, sum, c);
      Stays(t, sum, d);
      if Round(t, sum, c) == Round(t, sum, d) {
        SameEntry(t, sum, sum, c, d);
        LowBits(sum, c, d);
      }
      StaysDifferent(t, Round(t, sum, c), Round(t, sum, d), rest);
    } else {
      assert (front + [c] + rest)[1..] == front[1..] + [c] + rest;
      assert (front + [d] + rest)[1..] == front[1..] + [d] + rest;
      Stays(t, sum, front[0]);
      OneCharacter(t, Round(t, sum, front[0]), front[1..], c, d, rest);
    }
  }
}
