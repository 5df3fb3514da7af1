/** Byte order of the slots in the .pag file: bytemap() of innbbsd/dbz.c. */
module ByteOrder {
  type Byte = bv8
  type Word = bv64

  const SOF: nat := 8

  /** A byte map: the i-th entry is the place in memory of the i-th byte from the top. */
  predicate IsMap(m: seq<nat>) {
    && |m| == SOF
    && (forall i :: 0 <= i < SOF ==> m[i] < SOF)
    && (forall i, j :: 0 <= i < j < SOF ==> m[i] != m[j])
  }

  /** `out` after `n` rounds of the loop of bytemap(). */
  function Moved(out: seq<Byte>, src: seq<Byte>, map1: seq<nat>, map2: seq<nat>, n: nat): (r: seq<Byte>)
    requires |out| == SOF && |src| == SOF && IsMap(map1) && IsMap(map2) && n <= SOF
    ensures |r| == SOF && forall i :: 0 <= i < n ==> r[map2[i]] == src[map1[i]]
  {
    if n == 0 then out
    else Moved(out, src, map1, map2, n - 1)[map2[n - 1] := src[map1[n - 1]]]
  }

  method ByteMapInPlace(out: array<Byte>, src: seq<Byte>, map1: seq<nat>, map2: seq<nat>)
    requires out.Length == SOF && |src| == SOF && IsMap(map1) && IsMap(map2)
    modifies out
    ensures out[..] == Moved(old(out[..]), src, map1, map2, SOF)
  {
    for i := 0 to SOF
      invariant out[..] == Moved(old(out[..]), src, map1, map2, i)
    {
      out[map2[i]] := src[map1[i]];
    }
  }

  /** Every place is named by a byte map. */
  lemma Onto(m: seq<nat>, p: nat)
    requires IsMap(m) && p < SOF
    ensures exists i :: 0 <= i < SOF && m[i] == p
  {
    if forall i :: 0 <= i < SOF ==> m[i] != p {
      var image := set i | 0 <= i < SOF :: m[i];
      ImageSize(m, SOF);
      var places := {0, 1, 2, 3, 4, 5, 6, 7};
      assert image <= places - {p};
      SubsetSize(image, places - {p});
    }
  }

  lemma {:induction false} ImageSize(m: seq<nat>, n: nat)
    requires n <= |m| && forall i, j :: 0 <= i < j < |m| ==> m[i] != m[j]
    ensures |set i | 0 <= i < n :: m[i]| == n
  {
    if n > 0 {
      ImageSize(m, n - 1);
      assert (set i | 0 <= i < n :: m[i]) == (set i | 0 <= i < n - 1 :: m[i]) + {m[n - 1]};
    }
  }

  lemma {:induction false} SubsetSize<T>(a: set<T>, b: set<T>)
    requires a <= b
    ensures |a| <= |b|
    decreases a
  {
    if a != {} {
      var x :| x in a;
      SubsetSize(a - {x}, b - {x});
    }
  }

  /** bytemap() with its maps swapped undoes bytemap(), whatever the unions held before. */
  lemma MovedBack(junk: seq<Byte>, junk': seq<Byte>, src: seq<Byte>, map1: seq<nat>, map2: seq<nat>)
    requires |junk| == SOF && |junk'| == SOF && |src| == SOF && IsMap(map1) && IsMap(map2)
    ensures Moved(junk', Moved(junk, src, map1, map2, SOF), map2, map1, SOF) == src
  {
    var there := Moved(junk, src, map1, map2, SOF);
    var back := Moved(junk', there, map2, map1, SOF);
    forall p | 0 <= p < SOF ensures back[p] == src[p] {
      Onto(map1, p);
      var i :| 0 <= i < SOF && map1[i] == p;
      assert back[map1[i]] == there[map2[i]] == src[map1[i]];
    }
  }

  // ----- Words and their bytes in memory, low byte first -----

  const ZEROS: seq<Byte> := [0, 0, 0, 0, 0, 0, 0, 0]

  function LowByte(x: Word): (b: Byte)
    ensures b as Word == x & 0xFF
  {
    (x & 0xFF) as Byte
  }

  function Memory(o: Word): (m: seq<Byte>)
    ensures |m| == SOF
  {
    [LowByte(o), LowByte(o >> 8), LowByte(o >> 16), LowByte(o >> 24),
     LowByte(o >> 32), LowByte(o >> 40), LowByte(o >> 48), LowByte(o >> 56)]
  }

  function Assemble(a: Byte, b: Byte, c: Byte, d: Byte, e: Byte, f: Byte, g: Byte, h: Byte): Word {
    (a as Word) | ((b as Word) << 8) | ((c as Word) << 16) | ((d as Word) << 24)
      | ((e as Word) << 32) | ((f as Word) << 40) | ((g as Word) << 48) | ((h as Word) << 56)
  }

  function Value(m: seq<Byte>): Word
    requires |m| == SOF
  {
    Assemble(m[0], m[1], m[2], m[3], m[4], m[5], m[6], m[7])
  }

  lemma ValueOfMemory(o: Word)
    ensures Value(Memory(o)) == o
  {
    Reassembled(o);
  }

  lemma Reassembled(o: Word)
    ensures (o & 0xFF) | (((o >> 8) & 0xFF) << 8) | (((o >> 16) & 0xFF) << 16) | (((o >> 24) & 0xFF) << 24)
      | (((o >> 32) & 0xFF) << 32) | (((o >> 40) & 0xFF) << 40) | (((o >> 48) & 0xFF) << 48)
        | (((o >> 56) & 0xFF) << 56) == o
  {
  }

  /** Only a slot of zero bytes has the value 0. */
  lemma ZeroValue(m: seq<Byte>)
    requires |m| == SOF
    ensures Value(m) == 0 <==> m == ZEROS
  {
    if Value(m) == 0 {
      OrIsZero(m[0], m[1], m[2], m[3], m[4], m[5], m[6], m[7]);
    }
  }

  lemma OrIsZero(a: Byte, b: Byte, c: Byte, d: Byte, e: Byte, f: Byte, g: Byte, h: Byte)
    requires Assemble(a, b, c, d, e, f, g, h) == 0
    ensures a == 0 && b == 0 && c == 0 && d == 0 && e == 0 && f == 0 && g == 0 && h == 0
  {
  }

  /** A word is made of its bytes. */
  lemma MemoryOfValue(m: seq<Byte>)
    requires |m| == SOF
    ensures Memory(Value(m)) == m
  {
    BytesApart(m[0], m[1], m[2], m[3], m[4], m[5], m[6], m[7]);
  }

  lemma BytesApart(a: Byte, b: Byte, c: Byte, d: Byte, e: Byte, f: Byte, g: Byte, h: Byte)
    ensures LowByte(Assemble(a, b, c, d, e, f, g, h)) == a
    ensures LowByte(Assemble(a, b, c, d, e, f, g, h) >> 8) == b
    ensures LowByte(Assemble(a, b, c, d, e, f, g, h) >> 16) == c
    ensures LowByte(Assemble(a, b, c, d, e, f, g, h) >> 24) == d
    ensures LowByte(Assemble(a, b, c, d, e, f, g, h) >> 32) == e
    ensures LowByte(Assemble(a, b, c, d, e, f, g, h) >> 40) == f
    ensures LowByte(Assemble(a, b, c, d, e, f, g, h) >> 48) == g
    ensures LowByte(Assemble(a, b, c, d, e, f, g, h) >> 56) == h
  {
  }

  lemma MovedZeros(junk: seq<Byte>, src: seq<Byte>, map1: seq<nat>, map2: seq<nat>)
    requires |junk| == SOF && |src| == SOF && IsMap(map1) && IsMap(map2)
    ensures Moved(junk, src, map1, map2, SOF) == ZEROS <==> src == ZEROS
  {
    var r := Moved(junk, src, map1, map2, SOF);
    if src == ZEROS {
      ZerosMoved(junk, src, map1, map2);
    }
    if r == ZEROS {
      MovedBack(junk, junk, src, map1, map2);
      ZerosMoved(junk, r, map2, map1);
    }
  }

  lemma ZerosMoved(junk: seq<Byte>, src: seq<Byte>, map1: seq<nat>, map2: seq<nat>)
    requires |junk| == SOF && src == ZEROS && IsMap(map1) && IsMap(map2)
    ensures Moved(junk, src, map1, map2, SOF) == ZEROS
  {
    var r := Moved(junk, src, map1, map2, SOF);
    forall p | 0 <= p < SOF ensures r[p] == ZEROS[p] {
      Onto(map2, p);
      var i :| 0 <= i < SOF && map2[i] == p;
      assert r[map2[i]] == src[map1[i]];
    }
  }
}

/** Natural numbers as machine words, byte by byte. */
module WordNat {
  import opened ByteOrder

  function Pow256(n: nat): (p: nat)
    ensures p > 0
  {
    if n == 0 then 1 else 256 * Pow256(n - 1)
  }

  function Digits(o: nat, n: nat): (m: seq<Byte>)
    ensures |m| == n
  {
    if n == 0 then [] else [(o % 256) as Byte] + Digits(o / 256, n - 1)
  }

  function Undigits(m: seq<Byte>): nat {
    if m == [] then 0 else m[0] as nat + 256 * Undigits(m[1..])
  }

  /** The word whose value is o, for o < 2^64. */
  function WordOf(o: nat): Word { Value(Digits(o, SOF)) }

  function NatOf(w: Word): nat { Undigits(Memory(w)) }

  lemma DigitByte(d: nat)
    requires d < 256
    ensures (d as Byte) as nat == d
  {
    if d < 16 {
    } else if d < 128 {
    }
  }

  lemma {:induction false} UndigitsDigits(o: nat, n: nat)
    requires o < Pow256(n)
    ensures Undigits(Digits(o, n)) == o
  {
    if n > 0 {
      DigitByte(o % 256);
      UndigitsDigits(o / 256, n - 1);
      assert Digits(o, n)[1..] == Digits(o / 256, n - 1);
    }
  }

  /** A seek offset survives the trip through a machine word. */
  lemma NatOfWord(o: nat)
    requires o < 0x1_0000_0000_0000_0000
    ensures NatOf(WordOf(o)) == o
  {
    assert Pow256(8) == 0x1_0000_0000_0000_0000 by {
      assert Pow256(4) == 0x1_0000_0000;
    }
    MemoryOfValue(Digits(o, SOF));
    UndigitsDigits(o, SOF);
  }
}
