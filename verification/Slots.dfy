/** How innbbsd/dbz.c codes a file offset in one slot of the .pag file: biased so that no
    slot in use looks vacant, tagged with spare bits of the key's hash, and stored in the
    byte order that the .dir file records.

    The bit-level lemmas are kept apart, each small enough for the solver. */
module Slots {
  /** of_t: a seek offset, 64 bits wide. */
  type Word = bv64

  const VACANT: Word := 0
  const ALL_ONES: Word := 0xFFFF_FFFF_FFFF_FFFF

  /** What search() makes of a slot: vacant, an offset worth a look, or a tag of another key. */
  datatype Verdict<+O> = Empty | Candidate(o: O) | Mismatch

  /** The value that set() writes for offset `o` under `tag`, before MAPOUT; `bits` is the
      pre-shifted tag mask tagbits and `here` the pre-shifted enable mask taghere. */
  function Tagged(bits: Word, here: Word, tag: Word, o: Word): Word {
    if o & (bits | here) == 0 && o | tag | here != ALL_ONES then (o | tag | here) + 1 else o + 1
  }

  /** The tag that mktag() makes of a hash divided by the table size. */
  function TagFrom(w: Word, shift: nat, bits: Word): Word
    requires shift < 64
  {
    (w << shift) & bits
  }

  /** The checks of search() on a slot value, after MAPIN. */
  function Look(bits: Word, here: Word, tag: Word, value: Word): Verdict<Word> {
    if value == VACANT then Empty
    else if (value - 1) & here == 0 then Candidate(value - 1)
    else if (value - 1) & bits == tag then Candidate((value - 1) & !(bits | here))
    else Mismatch
  }

  /** okayvalue(), and not the -1 that no seek returns. */
  predicate Storable(here: Word, o: Word) {
    o & here == 0 && o != ALL_ONES
  }

  /** The masks overlap nowhere, and tags are never used without a bit that marks them. */
  predicate GoodMasks(bits: Word, here: Word) {
    bits & here == 0 && (bits == 0 || here != 0)
  }

  /** Every storable offset comes back under its own tag. */
  ghost predicate Lossless(bits: Word, here: Word) {
    forall o: Word, tag: Word :: Storable(here, o) && tag & bits == tag ==>
      Look(bits, here, tag, Tagged(bits, here, tag, o)) == Candidate(o)
  }

  // ----- Bit-level facts -----

  lemma MarkKept(o: Word, tag: Word, here: Word)
    ensures (o | tag | here) & here == here
  {
  }

  lemma TagKept(o: Word, tag: Word, bits: Word, here: Word)
    requires o & (bits | here) == 0
    requires tag & bits == tag
    requires bits & here == 0
    ensures (o | tag | here) & bits == tag
  {
  }

  lemma OffsetKept(o: Word, tag: Word, bits: Word, here: Word)
    requires o & (bits | here) == 0
    requires tag & bits == tag
    requires bits & here == 0
    ensures (o | tag | here) & !(bits | here) == o
  {
  }

  lemma NothingToMark(o: Word, tag: Word, bits: Word)
    requires tag & bits == tag
    requires bits == 0
    ensures o | tag | 0 == o
  {
  }

  lemma UnbiasBias(v: Word)
    ensures v + 1 - 1 == v
  {
  }

  lemma BiasVacant(v: Word)
    requires v != ALL_ONES
    ensures v + 1 != VACANT
  {
  }

  lemma UnbiasMarked(o: Word, tag: Word, here: Word)
    ensures (o | tag | here) + 1 - 1 == o | tag | here
  {
  }

  lemma MarkedNotVacant(o: Word, tag: Word, here: Word)
    requires o | tag | here != ALL_ONES
    ensures (o | tag | here) + 1 != VACANT
  {
  }

  /** Looking at a marked slot, given the parts of its value. */
  lemma LookAtParts(bits: Word, here: Word, tag: Word, o: Word, other: Word)
    requires here != 0
    requires (o | tag | here) + 1 != VACANT
    requires (o | tag | here) + 1 - 1 == o | tag | here
    requires (o | tag | here) & here == here
    requires (o | tag | here) & bits == tag
    requires (o | tag | here) & !(bits | here) == o
    ensures Look(bits, here, other, (o | tag | here) + 1) == if tag == other then Candidate(o) else Mismatch
  {
  }

  lemma LookAtMarked(bits: Word, here: Word, tag: Word, o: Word, other: Word)
    requires o & (bits | here) == 0
    requires tag & bits == tag
    requires bits & here == 0
    requires here != 0
    requires o | tag | here != ALL_ONES
    ensures (o | tag | here) + 1 != VACANT
    ensures Look(bits, here, other, (o | tag | here) + 1) == if tag == other then Candidate(o) else Mismatch
  {
    MarkKept(o, tag, here);
    TagKept(o, tag, bits, here);
    OffsetKept(o, tag, bits, here);
    UnbiasMarked(o, tag, here);
    MarkedNotVacant(o, tag, here);
    LookAtParts(bits, here, tag, o, other);
  }

  lemma LookAtPlain(bits: Word, here: Word, o: Word, other: Word)
    requires o & here == 0 && o != ALL_ONES
    ensures o + 1 != VACANT
    ensures Look(bits, here, other, o + 1) == Candidate(o)
  {
    UnbiasBias(o);
    BiasVacant(o);
  }

  /** A slot never looks vacant once written; under any tag it is either skipped or gives
      back its offset; and it is skipped only if it carries a tag and that tag differs. */
  lemma SlotCoding(bits: Word, here: Word, tag: Word, o: Word, other: Word)
    requires GoodMasks(bits, here)
    requires Storable(here, o) && tag & bits == tag
    ensures Tagged(bits, here, tag, o) != VACANT
    ensures Look(bits, here, other, Tagged(bits, here, tag, o)) == Candidate(o)
      || (Look(bits, here, other, Tagged(bits, here, tag, o)) == Mismatch && tag != other && o & (bits | here) == 0)
  {
    if o & (bits | here) == 0 && o | tag | here != ALL_ONES {
      if here == 0 {
        NothingToMark(o, tag, bits);
        LookAtPlain(bits, here, o, other);
      } else {
        LookAtMarked(bits, here, tag, o, other);
      }
    } else {
      LookAtPlain(bits, here, o, other);
    }
  }

  // ----- When slot coding loses nothing -----

  /** Slot coding is lossless exactly for good masks, or when the enable mask is everything,
      in which case only offset 0 is storable. */
  lemma LosslessIff(bits: Word, here: Word)
    ensures Lossless(bits, here) <==> GoodMasks(bits, here) || here == ALL_ONES
  {
    if GoodMasks(bits, here) {
      forall o: Word, tag: Word | Storable(here, o) && tag & bits == tag
        ensures Look(bits, here, tag, Tagged(bits, here, tag, o)) == Candidate(o)
      {
        SlotCoding(bits, here, tag, o, tag);
      }
    } else if here == ALL_ONES {
      forall o: Word, tag: Word | Storable(here, o) && tag & bits == tag
        ensures Look(bits, here, tag, Tagged(bits, here, tag, o)) == Candidate(o)
      {
        OnesStoreOnlyZero(bits, here, tag, o);
      }
    } else {
      var tag := LostTag(bits, here);
    }
  }

  lemma OnesStoreOnlyZero(bits: Word, here: Word, tag: Word, o: Word)
    requires here == ALL_ONES && o & here == 0
    ensures o == 0
    ensures Look(bits, here, tag, Tagged(bits, here, tag, o)) == Candidate(o)
  {
    assert o & ALL_ONES == o;
    assert tag | ALL_ONES == ALL_ONES;
  }

  /** For masks that are not good, a tag under which offset 0 is lost. */
  lemma LostTag(bits: Word, here: Word) returns (tag: Word)
    requires !GoodMasks(bits, here) && here != ALL_ONES
    ensures tag & bits == tag && Storable(here, 0)
    ensures Look(bits, here, tag, Tagged(bits, here, tag, 0)) != Candidate(0)
  {
    if bits & here != 0 {
      tag := 0;
      LostByOverlap(bits, here);
    } else {
      tag := LowestBit(bits);
      LostUnmarked(bits, tag);
    }
  }

  lemma LostByOverlap(bits: Word, here: Word)
    requires bits & here != 0 && here != ALL_ONES
    ensures Look(bits, here, 0, Tagged(bits, here, 0, 0)) == Mismatch
  {
    assert Tagged(bits, here, 0, 0) == here + 1 by { OrZero(here); }
    UnbiasBias(here);
    BiasVacant(here);
    AndCommutes(bits, here);
  }

  lemma OrZero(m: Word)
    ensures 0 | 0 | m == m
  {
  }

  lemma AndCommutes(a: Word, b: Word)
    requires a & b != 0
    ensures b & a != 0 && b & b != 0
  {
  }

  lemma LostUnmarked(bits: Word, tag: Word)
    requires tag != 0 && tag != ALL_ONES
    ensures Look(bits, 0, tag, Tagged(bits, 0, tag, 0)) == Candidate(tag)
  {
    UnbiasBias(tag);
    BiasVacant(tag);
  }

  lemma LowestBit(b: Word) returns (low: Word)
    requires b != 0
    ensures low != 0 && low & b == low && low != ALL_ONES
  {
    low := b & (0 - b);
  }

  // ----- The masks that dbzfresh sets up -----

  /** The tag-enable bits for a mask: those just above one of its bits and not in it. */
  function Enable(mask: Word): Word {
    (mask << 1) & !mask
  }

  lemma Apart(mask: Word)
    ensures mask & ((mask << 1) & !mask) == 0
  {
  }

  lemma HasUpperEnd(mask: Word)
    requires mask != 0 && mask & 0x8000_0000_0000_0000 == 0
    ensures (mask << 1) & !mask != 0
  {
  }

  /** Every tag mask without the sign bit gives good masks. */
  lemma FreshMasksAreGood(mask: Word)
    requires mask != 0 && mask & 0x8000_0000_0000_0000 == 0
    ensures GoodMasks(mask, Enable(mask))
  {
    Apart(mask);
    HasUpperEnd(mask);
  }

  /** A function applied `n` times. */
  function Times<T>(f: T -> T, x: T, n: nat): T {
    if n == 0 then x else f(Times(f, x, n - 1))
  }

  lemma {:induction false} TimesInside<T>(f: T -> T, x: T, n: nat)
    ensures Times(f, f(x), n) == Times(f, x, n + 1)
  {
    if n > 0 {
      TimesInside(f, x, n - 1);
    }
  }

  lemma {:induction false} TimesCommutes<T(!new)>(f: T -> T, g: T -> T, x: T, n: nat)
    requires forall y :: g(f(y)) == f(g(y))
    ensures g(Times(f, x, n)) == Times(f, g(x), n)
  {
    if n > 0 {
      TimesCommutes(f, g, x, n - 1);
    }
  }

  lemma EightTimes<T>(f: T -> T, x: T, n: nat, y: T)
    requires Times(f, x, n) == y
    ensures Times(f, x, n + 8) == f(f(f(f(f(f(f(f(y))))))))
  {
    assert Times(f, x, n + 2) == f(f(y));
    assert Times(f, x, n + 4) == f(f(f(f(y))));
    assert Times(f, x, n + 6) == f(f(f(f(f(f(y))))));
  }

  const DOUBLE: Word -> Word := (m: Word) => m << 1
  const ENABLE: Word -> Word := (m: Word) => Enable(m)

  /** m << n */
  function Up(m: Word, n: nat): Word {
    Times(DOUBLE, m, n)
  }

  lemma EnableDoubled(m: Word)
    ensures ((m << 1) << 1) & !(m << 1) == ((m << 1) & !m) << 1
  {
  }

  /** The enable bits of a shifted mask are those of the mask, shifted. */
  lemma EnableUp(m: Word, n: nat)
    ensures Enable(Up(m, n)) == Up(Enable(m), n)
  {
    forall y: Word ensures ENABLE(DOUBLE(y)) == DOUBLE(ENABLE(y)) {
      EnableDoubled(y);
    }
    TimesCommutes(DOUBLE, ENABLE, m, n);
  }

  predicate IsEven(m: Word) {
    m & 1 == 0
  }

  const SIGN: Word := 0x8000_0000_0000_0000

  /** m >>= 1 on a long, which keeps the sign. */
  function Half(m: Word): Word {
    (m >> 1) | (m & SIGN)
  }

  /** How far a long is from 0. */
  function Size(m: Word): Word {
    if m & SIGN == 0 then m else 0 - m
  }

  lemma HalfDoubled(m: Word)
    requires m & 1 == 0
    ensures ((m >> 1) | (m & SIGN)) << 1 == m
  {
  }

  lemma HalfIsLess(m: Word)
    requires m & 1 == 0 && m != 0
    ensures Size(Half(m)) < Size(m)
  {
    if m & SIGN == 0 {
      HalfOfPlus(m);
    } else {
      HalfOfMinus(m);
    }
  }

  lemma HalfOfPlus(m: Word)
    requires m & SIGN == 0 && m != 0
    ensures ((m >> 1) | (m & SIGN)) & SIGN == 0 && (m >> 1) | (m & SIGN) < m
  {
  }

  lemma HalfOfMinus(m: Word)
    requires m & SIGN != 0 && m & 1 == 0
    ensures ((m >> 1) | (m & SIGN)) & SIGN != 0 && 0 - ((m >> 1) | (m & SIGN)) < 0 - m
  {
  }

  lemma HalfIsSome(m: Word)
    requires m & 1 == 0 && m != 0
    ensures Half(m) != 0
  {
  }

  lemma UpHalf(m: Word, n: nat)
    requires IsEven(m)
    ensures Up(Half(m), n + 1) == Up(m, n)
  {
    HalfDoubled(m);
    TimesInside(DOUBLE, Half(m), n);
  }

  /** All bits from some bit on to the sign, as in a negated power of two. */
  predicate ToTheTop(mask: Word) {
    !mask & (!mask + 1) == 0
  }

  lemma NoneAbove(mask: Word)
    ensures (mask << 1) & !mask == 0 <==> mask == 0 || !mask & (!mask + 1) == 0
  {
  }

  /** A tag mask and the enable bits above it are good masks unless nothing is above it. */
  lemma GoodMasksIff(mask: Word)
    ensures GoodMasks(mask, Enable(mask)) <==> mask == 0 || !ToTheTop(mask)
  {
    Apart(mask);
    NoneAbove(mask);
  }

  /** The switch of dbzfresh: how a tag mask is split into the shift and the masks that the
      configuration records; 0 stands for the default of seven bits from bit 24 on, 1 for none.
      The masks are good for any other mask exactly if it leaves room above it. */
  method FreshTags(mask: Word) returns (tagshift: nat, tagmask: Word, tagenb: Word)
    ensures mask & 0xFFFF_FFFF == 0 ==> (tagshift, tagmask, tagenb) == (24, 0x7F, 0x80)
    ensures mask & 0xFFFF_FFFF == 1 ==> (tagshift, tagmask, tagenb) == (0, 0, 0)
    ensures mask & 0xFFFF_FFFF > 1 ==> !IsEven(tagmask) && Up(tagmask, tagshift) == mask
    ensures tagenb == Enable(tagmask)
    ensures GoodMasks(Up(tagmask, tagshift), Up(tagenb, tagshift)) <==> mask & 0xFFFF_FFFF <= 1 || !ToTheTop(mask)
  {
    if mask & 0xFFFF_FFFF == 0 {
      DefaultTags();
      return 24, 0x7F, 0x80;
    }
    if mask & 0xFFFF_FFFF == 1 {
      return 0, 0, 0;
    }
    NotZero(mask);
    tagmask, tagshift := SplitMask(mask);
    tagenb := MaskEnable(tagmask);
    GoodMasksIff(mask);
    EnableUp(tagmask, tagshift);
  }

  /** (m << 1) & ~m */
  method MaskEnable(m: Word) returns (tagenb: Word)
    ensures tagenb == Enable(m)
  {
    tagenb := (m << 1) & !m;
  }

  lemma NotZero(mask: Word)
    requires mask & 0xFFFF_FFFF != 0
    ensures mask != 0
  {
  }

  /** The loop that shifts a mask down to its lowest bit. */
  method SplitMask(mask: Word) returns (m: Word, tagshift: nat)
    requires mask != 0
    ensures !IsEven(m) && Up(m, tagshift) == mask
  {
    m, tagshift := mask, 0;
    while IsEven(m)
      invariant m != 0 && Up(m, tagshift) == mask
      decreases Size(m)
    {
      HalfIsLess(m);
      HalfIsSome(m);
      UpHalf(m, tagshift);
      m, tagshift := Half(m), tagshift + 1;
    }
  }

  /** With the mask -1 every bit is a tag bit and none marks a tag. */
  lemma NoRoomAbove()
    ensures ToTheTop(ALL_ONES) && ALL_ONES & 0xFFFF_FFFF > 1
    ensures Enable(ALL_ONES) == 0 && !GoodMasks(ALL_ONES, Enable(ALL_ONES))
  {
  }

  lemma DefaultTags()
    ensures Enable(0x7F) == 0x80 && GoodMasks(Up(0x7F, 24), Up(0x80, 24))
  {
    EightTimes(DOUBLE, 0x7F, 0, 0x7F);
    EightTimes(DOUBLE, 0x7F, 8, 0x7F00);
    EightTimes(DOUBLE, 0x7F, 16, 0x7F_0000);
    EnableUp(0x7F, 24);
    FreshMasksAreGood(0x7F00_0000);
  }
}
