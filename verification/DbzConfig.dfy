/** What the .dir file configures, and the slot coding it selects. */
module DbzConfig {
  import opened Slots
  import opened ByteOrder
  import opened WordNat
  import DbzIndex

  type Slot = m: seq<Byte> | |m| == SOF witness ZEROS

  const LONG_END: nat := 0x8000_0000_0000_0000

  /** `tagbits` and `taghere` are the masks already shifted by `tagshift`; `mine` is this
      machine's byte order and `theirs` that of the file. */
  datatype Config = Config(
    tsize: nat, fieldsep: Byte,
    tagbits: Word, taghere: Word, tagshift: nat,
    mine: seq<nat>, theirs: seq<nat>)
  {
    predicate Valid() {
      tsize > 0 && tagshift < 64 && IsMap(mine) && IsMap(theirs) && GoodMasks(tagbits, taghere)
    }

    function MkTag(h: nat): Word
      requires Valid()
    {
      TagFrom(WordOf(h / tsize), tagshift, tagbits)
    }

    function MapOut(v: Word): Slot
      requires Valid()
    {
      if mine == theirs then Memory(v) else Moved(ZEROS, Memory(v), mine, theirs, SOF)
    }

    function MapIn(m: Slot): Word
      requires Valid()
    {
      if mine == theirs then Value(m) else Value(Moved(ZEROS, m, theirs, mine, SOF))
    }

    predicate Okay(o: nat)
      requires Valid()
    {
      o < LONG_END && Storable(taghere, WordOf(o))
    }

    function EncodeWord(t: Word, w: Word): Slot
      requires Valid()
    {
      MapOut(Tagged(tagbits, taghere, t, w))
    }

    function ExamineWord(t: Word, m: Slot): Verdict<Word>
      requires Valid()
    {
      Look(tagbits, taghere, t, MapIn(m))
    }

    function Encode(t: Word, o: nat): Slot
      requires Valid()
    {
      EncodeWord(t, WordOf(o))
    }

    function Examine(t: Word, m: Slot): Verdict<nat>
      requires Valid()
    {
      match ExamineWord(t, m)
      case Empty => Empty
      case Candidate(w) => Candidate(NatOf(w))
      case Mismatch => Mismatch
    }

    function Scheme(hash: DbzIndex.Bytes -> nat): DbzIndex.Scheme<Slot>
      requires Valid()
    {
      DbzIndex.Scheme<Slot>.Scheme(tsize, hash, (h: nat) => MkTag(h), ZEROS, (o: nat) => Okay(o),
        (t: Word, o: nat) => Encode(t, o), (t: Word, m: Slot) => Examine(t, m))
    }

    lemma MapRoundTrip(v: Word)
      requires Valid()
      ensures MapIn(MapOut(v)) == v
    {
      ValueOfMemory(v);
      MovedBack(ZEROS, ZEROS, Memory(v), mine, theirs);
    }

    lemma OnlyZerosAreVacant(m: Slot)
      requires Valid()
      ensures MapIn(m) == VACANT <==> m == ZEROS
    {
      ZeroValue(m);
      ZeroValue(Moved(ZEROS, m, theirs, mine, SOF));
      MovedZeros(ZEROS, m, theirs, mine);
    }

    /** Without tags every file offset can be stored. */
    lemma UntaggedOkay(o: nat)
      requires Valid() && taghere == 0 && o < LONG_END
      ensures Okay(o)
    {
      NatOfWord(o);
      NatOfOnes(WordOf(o));
      NothingMarked(WordOf(o));
    }

    static lemma NothingMarked(w: Word)
      ensures w & 0 == 0
    {
    }

    static lemma NatOfOnes(w: Word)
      ensures w == ALL_ONES ==> NatOf(w) == 0xFFFF_FFFF_FFFF_FFFF
    {
    }

    lemma TagIsTag(h: nat)
      requires Valid()
      ensures MkTag(h) & tagbits == MkTag(h)
    {
      TagInside(WordOf(h / tsize), tagshift, tagbits);
    }

    static lemma TagInside(w: Word, shift: nat, bits: Word)
      requires shift < 64
      ensures TagFrom(w, shift, bits) & bits == TagFrom(w, shift, bits)
    {
      AndTwice(w << shift, bits);
    }

    static lemma AndTwice(x: Word, b: Word)
      ensures (x & b) & b == x & b
    {
    }

    lemma WordCoding(t: Word, w: Word, other: Word)
      requires Valid() && Storable(taghere, w) && t & tagbits == t
      ensures EncodeWord(t, w) != ZEROS
      ensures ExamineWord(other, EncodeWord(t, w)) == Candidate(w)
        || (ExamineWord(other, EncodeWord(t, w)) == Mismatch && t != other)
    {
      SlotCoding(tagbits, taghere, t, w, other);
      MapRoundTrip(Tagged(tagbits, taghere, t, w));
      OnlyZerosAreVacant(EncodeWord(t, w));
    }

    /** A stored offset comes back under its own tag; under another tag it comes back or is
        skipped; its slot is never vacant. */
    lemma OffsetCoding(t: Word, o: nat, other: Word)
      requires Valid() && Okay(o) && t & tagbits == t
      ensures Encode(t, o) != ZEROS
      ensures Examine(other, Encode(t, o)) == Candidate(o)
        || (Examine(other, Encode(t, o)) == Mismatch && t != other)
    {
      NatOfWord(o);
      WordCoding(t, WordOf(o), other);
    }

    lemma ExaminesEmpty(t: Word, m: Slot)
      requires Valid()
      ensures Examine(t, m) == Empty <==> m == ZEROS
    {
      OnlyZerosAreVacant(m);
    }

    lemma SchemeOffsets(hash: DbzIndex.Bytes -> nat, h: nat, g: nat, o: nat)
      requires Valid() && Okay(o)
      ensures DbzIndex.Seen(Scheme(hash), g, DbzIndex.Written(Scheme(hash), h, o)) in {Candidate(o), Mismatch}
      ensures DbzIndex.Seen(Scheme(hash), h, DbzIndex.Written(Scheme(hash), h, o)) == Candidate(o)
    {
      var s, t, u := Scheme(hash), MkTag(h), MkTag(g);
      assert s.tag(h) == t && s.tag(g) == u;
      TagIsTag(h);
      OffsetCoding(t, o, t);
      OffsetCoding(t, o, u);
      assert s.encode(t, o) == Encode(t, o);
      assert s.examine(u, Encode(t, o)) == Examine(u, Encode(t, o));
      assert s.examine(t, Encode(t, o)) == Examine(t, Encode(t, o));
    }

    lemma SchemeEmpty(hash: DbzIndex.Bytes -> nat, h: nat, v: Slot)
      requires Valid()
      ensures DbzIndex.Seen(Scheme(hash), h, v) == Empty <==> v == ZEROS
    {
      var s := Scheme(hash);
      assert s.examine(s.tag(h), v) == Examine(s.tag(h), v);
      ExaminesEmpty(s.tag(h), v);
    }

    /** Every valid configuration gives a sound slot coding. */
    lemma SchemeSound(hash: DbzIndex.Bytes -> nat)
      requires Valid()
      ensures DbzIndex.Sound(Scheme(hash))
    {
      forall h: nat, g: nat, o: nat | Scheme(hash).okay(o)
        ensures DbzIndex.Seen(Scheme(hash), h, DbzIndex.Written(Scheme(hash), h, o)) == Candidate(o)
        ensures DbzIndex.Seen(Scheme(hash), g, DbzIndex.Written(Scheme(hash), h, o)) in {Candidate(o), Mismatch}
      {
        SchemeOffsets(hash, h, g, o);
      }
      forall h: nat, v: Slot ensures DbzIndex.Seen(Scheme(hash), h, v) == Empty <==> v == Scheme(hash).vacant {
        SchemeEmpty(hash, h, v);
      }
    }
  }
}
