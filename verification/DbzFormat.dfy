/** What innbbsd/dbz.c puts where: the places that a key's probes go to, what its tag is made of and
    when that spares a look into the base file, and the bytes of a slot. */
module DbzFormat {
  import Arith
  import opened Basics
  import opened ByteOrder
  import opened DbzConfig
  import opened Slots
  import opened WordNat
  import DateText
  import DbzDir
  import DbzIndex

  /** The first hundred probes of a key are in the first table of the .pag file, the next hundred
      in the second, and so on; in each, they go around from its hash. */
  lemma ProbeTable(tsize: nat, h: nat, k: nat)
    requires tsize > 0
    ensures DbzIndex.Probe(tsize, h, k) / tsize == k / 100
    ensures DbzIndex.Probe(tsize, h, k) % tsize == (h + k) % tsize
  {
    Arith.ModUnique(DbzIndex.Probe(tsize, h, k), k / 100, (h + k) % tsize, tsize);
  }

  // ----- Tags -----

  lemma TaggedLook(bits: Word, here: Word, tag: Word, o: Word, other: Word)
    requires GoodMasks(bits, here) && here != 0 && tag & bits == tag
    requires o & (bits | here) == 0 && o | tag | here != ALL_ONES
    ensures Look(bits, here, other, Tagged(bits, here, tag, o)) == if tag == other then Candidate(o) else Mismatch
  {
    LookAtMarked(bits, here, tag, o, other);
  }

  lemma SparesWord(c: Config, t: Word, w: Word, other: Word)
    requires c.Valid() && c.taghere != 0 && t & c.tagbits == t
    requires w & (c.tagbits | c.taghere) == 0 && w | t | c.taghere != ALL_ONES
    ensures c.ExamineWord(other, c.EncodeWord(t, w)) == if t == other then Candidate(w) else Mismatch
  {
    TaggedLook(c.tagbits, c.taghere, t, w, other);
    c.MapRoundTrip(Tagged(c.tagbits, c.taghere, t, w));
  }

  /** A slot with a tag is looked up in the base file by the keys of its own tag and by no other;
      `w` is the offset as a word. */
  lemma TagSpares(c: Config, t: Word, o: nat, other: Word, w: Word)
    requires c.Valid() && c.taghere != 0 && t & c.tagbits == t && w == WordOf(o) && NatOf(w) == o
    requires w & (c.tagbits | c.taghere) == 0 && w | t | c.taghere != ALL_ONES
    ensures c.Examine(other, c.Encode(t, o)) == if t == other then Candidate(o) else Mismatch
  {
    SparesWord(c, t, w, other);
  }

  lemma TagBits(w: Word)
    ensures (w << 24) & 0x7F00_0000 == (w & 0x7F) << 24
  {
  }

  lemma SameTag(v: Word, w: Word)
    ensures (v & 0x7F) << 24 == (w & 0x7F) << 24 <==> v & 0x7F == w & 0x7F
  {
  }

  /** Default tags are the same exactly if the low seven bits of what they are made of are. */
  lemma DefaultTags(v: Word, w: Word)
    ensures TagFrom(v, 24, 0x7F00_0000) == TagFrom(w, 24, 0x7F00_0000) <==> v & 0x7F == w & 0x7F
  {
    TagBits(v);
    TagBits(w);
    SameTag(v, w);
  }

  // ----- Slots -----

  /** A slot has the bytes of its value where the byte map of the file says. */
  lemma BytesOfSlot(c: Config, v: Word, i: nat)
    requires c.Valid() && i < 8
    ensures c.MapOut(v)[c.theirs[i]] == Memory(v)[c.mine[i]]
  {
  }

  /** Numbers are written in decimal, negative ones with a '-', and a blank before each but the
      first of a line. */
  lemma NumbersAre(n: nat, more: seq<int>)
    ensures DbzDir.PutNo(n) == DateText.Decimal(n)
    ensures n > 0 ==> DbzDir.PutNo(0 - n) == [45] + DateText.Decimal(n)
    ensures DbzDir.Spaced([n] + more) == [32] + DbzDir.PutNo(n) + DbzDir.Spaced(more)
  {
    assert ([n] + more)[1..] == more;
  }

  /** The .dir file is two lines. */
  lemma TwoLines(c: DbzDir.Conf) returns (a: seq<Byte>, b: seq<Byte>)
    requires c.used != [] && c.casemap != 10
    ensures DbzDir.Text(c) == a + [10] + b + [10] && 10 !in a && 10 !in b
    ensures a == [100, 98, 122] + DbzDir.Spaced([3, c.tsize, c.fieldsep]) + [32, c.casemap]
                 + DbzDir.Spaced([c.tagenb, c.tagmask, c.tagshift, 8] + c.bytemap)
    ensures b == DbzDir.PutNo(c.used[0]) + DbzDir.Spaced(c.used[1..])
  {
    var first, second := DbzDir.Spaced([3, c.tsize, c.fieldsep]),
      DbzDir.Spaced([c.tagenb, c.tagmask, c.tagshift, 8] + c.bytemap);
    var p, q := DbzDir.PutNo(c.used[0]), DbzDir.Spaced(c.used[1..]);
    a, b := [100, 98, 122] + first + [32, c.casemap] + second, p + q;
    NoNewline([3, c.tsize, c.fieldsep]);
    NoNewline([c.tagenb, c.tagmask, c.tagshift, 8] + c.bytemap);
    NoNewline([c.used[0]]);
    NoNewline(c.used[1..]);
    Arranged([100, 98, 122], first, [32, c.casemap], second, [10], p, q, [10]);
  }

  lemma Arranged(a: seq<Byte>, b: seq<Byte>, c: seq<Byte>, d: seq<Byte>, e: seq<Byte>, f: seq<Byte>, g: seq<Byte>,
      h: seq<Byte>)
    ensures a + (b + (c + (d + (e + (f + (g + h)))))) == a + b + c + d + e + (f + g) + h
  {
    Grouped(f, g, h);
    Grouped(a + b + c + d, e, f + g + h);
    Grouped(a + b + c, d, e + (f + g + h));
    Grouped(a + b, c, d + (e + (f + g + h)));
    Grouped(a, b, c + (d + (e + (f + g + h))));
    Grouped(a + b + c + d + e, f + g, h);
  }

  lemma {:induction false} NoNewline(ns: seq<int>)
    ensures 10 !in DbzDir.Spaced(ns) && (|ns| > 0 ==> 10 !in DbzDir.PutNo(ns[0]))
    decreases |ns|
  {
    if ns != [] {
      NoNewline(ns[1..]);
    }
  }
}
