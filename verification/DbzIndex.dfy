/** The hash table of innbbsd/dbz.c as a value: a .pag file is the sequence of its slots,
    reading past its end gives a vacant slot. The theory is over any hash function, any table
    size and any sound slot coding; the class Dbz instantiates it. */
module DbzIndex {
  import opened Basics
  import opened Slots

  type Byte = bv8
  type Bytes = seq<Byte>

  /** Probes made in one table before moving on to the next. */
  const MAXRUN: nat := 100
  /** Keys are supposed to be shorter than this. */
  const DBZMAXKEY: nat := 255

  /** `tag(h)` is the tag of a key with hash `h`, `encode(t, o)` the slot written for offset
      `o` under tag `t`, and `examine(t, v)` what a search for tag `t` makes of slot `v`. */
  datatype Scheme<!V> = Scheme(
    tsize: nat,
    hash: Bytes -> nat,
    tag: nat -> Word,
    vacant: V,
    okay: nat -> bool,
    encode: (Word, nat) -> V,
    examine: (Word, V) -> Verdict<nat>)

  /** The slot written for an offset of a key with hash `h`. */
  function Written<V>(s: Scheme<V>, h: nat, o: nat): V {
    s.encode(s.tag(h), o)
  }

  /** What a search for hash `h` makes of a slot. */
  function Seen<V>(s: Scheme<V>, h: nat, v: V): Verdict<nat> {
    s.examine(s.tag(h), v)
  }

  ghost predicate Sound<V(!new)>(s: Scheme<V>) {
    && s.tsize > 0
    && (forall h: nat, o: nat :: s.okay(o) ==> Seen(s, h, Written(s, h, o)) == Candidate(o))
    && (forall h: nat, g: nat, o: nat :: s.okay(o) ==> Seen(s, g, Written(s, h, o)) in {Candidate(o), Mismatch})
    && (forall h: nat, v :: Seen(s, h, v) == Empty <==> v == s.vacant)
  }

  // ----- Slots and probes -----

  ghost function At<V(!new)>(s: Scheme<V>, pag: seq<V>, place: nat): V {
    if place < |pag| then pag[place] else s.vacant
  }

  /** Writing a slot; a gap before it reads as vacant slots. */
  ghost function Put<V(!new)>(s: Scheme<V>, pag: seq<V>, place: nat, v: V): (r: seq<V>)
    ensures forall p: nat :: At(s, r, p) == if p == place then v else At(s, pag, p)
  {
    if place < |pag| then pag[place := v]
    else pag + seq(place - |pag|, _ => s.vacant) + [v]
  }

  /** The k-th slot examined for hash `h`. */
  function Probe(tsize: nat, h: nat, k: nat): nat
    requires tsize > 0
  {
    (h + k) % tsize + (k / MAXRUN) * tsize
  }

  /** After enough probes every search is past the end of the file. */
  lemma ProbePastEnd(tsize: nat, h: nat, k: nat, length: nat)
    requires tsize > 0 && k >= MAXRUN * length
    ensures Probe(tsize, h, k) >= length
  {
    assert k / MAXRUN >= length;
    assert (k / MAXRUN) * tsize >= k / MAXRUN by { Grows(k / MAXRUN, tsize); }
  }

  lemma Grows(x: nat, y: nat)
    requires y > 0
    ensures x * y >= x
  {
  }

  /** The first vacant slot on the probe sequence of `h`, as a probe number, from `k` on. */
  ghost function FirstVacant<V(!new)>(s: Scheme<V>, pag: seq<V>, h: nat, k: nat): (r: nat)
    requires s.tsize > 0
    ensures k <= r && At(s, pag, Probe(s.tsize, h, r)) == s.vacant
    ensures forall j :: k <= j < r ==> At(s, pag, Probe(s.tsize, h, j)) != s.vacant
    decreases MAXRUN * |pag| - k
  {
    if At(s, pag, Probe(s.tsize, h, k)) == s.vacant then k
    else
      assert k < MAXRUN * |pag| by {
        if k >= MAXRUN * |pag| { ProbePastEnd(s.tsize, h, k, |pag|); }
      }
      FirstVacant(s, pag, h, k + 1)
  }

  /** Where a search stopped makes no difference to where it ends. */
  lemma {:induction false} FirstVacantResumed<V(!new)>(s: Scheme<V>, pag: seq<V>, h: nat, k: nat, j: nat)
    requires s.tsize > 0
    requires k <= j <= FirstVacant(s, pag, h, k)
    ensures FirstVacant(s, pag, h, j) == FirstVacant(s, pag, h, k)
    decreases j - k
  {
    if k < j {
      FirstVacantResumed(s, pag, h, k + 1, j);
    }
  }

  // ----- Fetch and store -----

  datatype Comparison = Short | Same | Different

  /** The key without the trailing NUL that does not count in comparisons. */
  function Bare(key: Bytes): Bytes {
    if key != [] && key[|key| - 1] == 0 then key[..|key| - 1] else key
  }

  /** dbzfetch() cuts a key to DBZMAXKEY bytes. */
  function Truncated(key: Bytes): (t: Bytes)
    ensures t == if |key| > 255 then key[..255] else key
  {
    if |key| >= DBZMAXKEY then key[..DBZMAXKEY] else key
  }

  /** fetch()'s look into the base file: read keysize bytes at `o`, compare the key, and if
      the key ends in NUL ask for a separator or a NUL in its place. */
  function Compare(base: Bytes, sep: Byte, key: Bytes, o: nat): Comparison
    requires key != []
  {
    if o + |key| > |base| then Short
    else
      var buffer := base[o..o + |key|];
      if Bare(key) == key then
        if key == buffer then Same else Different
      else if Bare(key) == buffer[..|key| - 1] && buffer[|key| - 1] in {sep, 0} then Same
      else Different
  }

  /** Looking for `key` in the base file, as a function of the offset. */
  function Comparer(base: Bytes, sep: Byte, key: Bytes): nat -> Comparison
    requires key != []
  {
    (o: nat) => Compare(base, sep, key, o)
  }

  /** fetch()'s loop from probe `k` on, for hash `h`; `cmp` looks into the base file. */
  ghost function Scan<V(!new)>(s: Scheme<V>, pag: seq<V>, cmp: nat -> Comparison, h: nat, k: nat): Option<nat>
    requires Sound(s)
    decreases MAXRUN * |pag| - k
  {
    assert k < MAXRUN * |pag| || At(s, pag, Probe(s.tsize, h, k)) == s.vacant by {
      if k >= MAXRUN * |pag| { ProbePastEnd(s.tsize, h, k, |pag|); }
    }
    match Seen(s, h, At(s, pag, Probe(s.tsize, h, k)))
    case Empty => None
    case Mismatch => Scan(s, pag, cmp, h, k + 1)
    case Candidate(o) =>
      match cmp(o)
      case Short => None
      case Same => Some(o)
      case Different => Scan(s, pag, cmp, h, k + 1)
  }

  /** What fetch returns has compared equal. */
  lemma {:induction false} ScanCompares<V(!new)>(s: Scheme<V>, pag: seq<V>, cmp: nat -> Comparison, h: nat, k: nat)
    requires Sound(s)
    ensures Scan(s, pag, cmp, h, k).Some? ==> cmp(Scan(s, pag, cmp, h, k).value) == Same
    decreases MAXRUN * |pag| - k
  {
    if k >= MAXRUN * |pag| {
      ProbePastEnd(s.tsize, h, k, |pag|);
    } else {
      ScanCompares(s, pag, cmp, h, k + 1);
    }
  }

  /** store()'s effect on the file. */
  ghost function Store<V(!new)>(s: Scheme<V>, pag: seq<V>, key: Bytes, o: nat): seq<V>
    requires s.tsize > 0
  {
    var h := s.hash(key);
    Put(s, pag, Probe(s.tsize, h, FirstVacant(s, pag, h, 0)), Written(s, h, o))
  }

  // ----- The index built by a sequence of stores -----

  datatype Entry = Entry(key: Bytes, offset: nat)

  ghost predicate AllOkay<V(!new)>(s: Scheme<V>, log: seq<Entry>) {
    forall i :: 0 <= i < |log| ==> s.okay(log[i].offset)
  }

  ghost function Index<V(!new)>(s: Scheme<V>, log: seq<Entry>): seq<V>
    requires s.tsize > 0
    decreases |log|
  {
    if log == [] then []
    else
      var n := |log| - 1;
      Store(s, Index(s, log[..n]), log[n].key, log[n].offset)
  }

  /** The probe number at which entry `i` was stored, and its slot. */
  ghost function Pos<V(!new)>(s: Scheme<V>, log: seq<Entry>, i: nat): nat
    requires s.tsize > 0 && i < |log|
  {
    FirstVacant(s, Index(s, log[..i]), s.hash(log[i].key), 0)
  }

  ghost function SlotOf<V(!new)>(s: Scheme<V>, log: seq<Entry>, i: nat): nat
    requires s.tsize > 0 && i < |log|
  {
    Probe(s.tsize, s.hash(log[i].key), Pos(s, log, i))
  }

  ghost function SlotsOf<V(!new)>(s: Scheme<V>, log: seq<Entry>): seq<nat>
    requires s.tsize > 0
  {
    seq(|log|, i requires 0 <= i < |log| => SlotOf(s, log, i))
  }

  /** Slot `slots[i]` holds entry `i`, and no other slot is in use. */
  ghost predicate Chained<V(!new)>(s: Scheme<V>, log: seq<Entry>, slots: seq<nat>, pag: seq<V>) {
    && |slots| == |log|
    && (forall i :: 0 <= i < |log| ==> At(s, pag, slots[i]) == Written(s, s.hash(log[i].key), log[i].offset))
    && (forall p: nat :: At(s, pag, p) != s.vacant ==> p in slots)
  }

  lemma ChainStep<V(!new)>(s: Scheme<V>, log: seq<Entry>, slots: seq<nat>, pag: seq<V>, e: Entry, p: nat)
    requires Sound(s) && AllOkay(s, log)
    requires Chained(s, log, slots, pag) && At(s, pag, p) == s.vacant
    ensures Chained(s, log + [e], slots + [p], Put(s, pag, p, Written(s, s.hash(e.key), e.offset)))
  {
    forall i | 0 <= i < |log| ensures slots[i] != p {
      assert s.okay(log[i].offset);
      assert Seen(s, 0, Written(s, s.hash(log[i].key), log[i].offset)) != Empty;
    }
  }

  /** The chain invariant, first half: every entry's slot holds that entry, whatever was
      stored after it, and no other slot is in use. */
  lemma {:induction false} Chain<V(!new)>(s: Scheme<V>, log: seq<Entry>)
    requires Sound(s) && AllOkay(s, log)
    ensures Chained(s, log, SlotsOf(s, log), Index(s, log))
    decreases |log|
  {
    if log != [] {
      var n := |log| - 1;
      var before := log[..n];
      Chain(s, before);
      ChainStep(s, before, SlotsOf(s, before), Index(s, before), log[n], SlotOf(s, log, n));
      assert before + [log[n]] == log;
      SlotsOfStep(s, log);
    }
  }

  lemma SlotsOfStep<V(!new)>(s: Scheme<V>, log: seq<Entry>)
    requires s.tsize > 0 && log != []
    ensures SlotsOf(s, log) == SlotsOf(s, log[..|log| - 1]) + [SlotOf(s, log, |log| - 1)]
  {
    forall i | 0 <= i < |log| - 1 ensures SlotOf(s, log[..|log| - 1], i) == SlotOf(s, log, i) {
      SlotOfPrefix(s, log, |log| - 1, i);
    }
  }

  /** The chain invariant, second half: each probe before an entry's own was already filled
      by an earlier entry, which is still there. */
  lemma EarlierProbe<V(!new)>(s: Scheme<V>, log: seq<Entry>, i: nat, k: nat) returns (j: nat)
    requires Sound(s) && AllOkay(s, log) && i < |log| && k < Pos(s, log, i)
    ensures j < i
    ensures At(s, Index(s, log), Probe(s.tsize, s.hash(log[i].key), k))
      == Written(s, s.hash(log[j].key), log[j].offset)
  {
    var p := Probe(s.tsize, s.hash(log[i].key), k);
    Chain(s, log[..i]);
    assert p in SlotsOf(s, log[..i]);
    j :| 0 <= j < i && SlotsOf(s, log[..i])[j] == p;
    SlotOfPrefix(s, log, i, j);
    SlotHolds(s, log, j);
  }

  lemma SlotOfPrefix<V(!new)>(s: Scheme<V>, log: seq<Entry>, i: nat, j: nat)
    requires s.tsize > 0 && j < i <= |log|
    ensures SlotOf(s, log[..i], j) == SlotOf(s, log, j)
  {
    assert log[..i][..j] == log[..j];
  }

  lemma SlotHolds<V(!new)>(s: Scheme<V>, log: seq<Entry>, i: nat)
    requires Sound(s) && AllOkay(s, log) && i < |log|
    ensures At(s, Index(s, log), SlotOf(s, log, i)) == Written(s, s.hash(log[i].key), log[i].offset)
  {
    Chain(s, log);
    assert SlotsOf(s, log)[i] == SlotOf(s, log, i);
  }

  // ----- What fetch finds -----

  /** The number of the first entry stored under `key`; |log| if there is none. */
  function First(log: seq<Entry>, key: Bytes): (i: nat)
    ensures i <= |log| && (i < |log| ==> log[i].key == key)
    ensures forall j :: 0 <= j < i ==> log[j].key != key
  {
    if log == [] then 0 else if log[0].key == key then 0 else 1 + First(log[1..], key)
  }

  /** The base file tells the entries apart, as far as it matters: up to the first entry of the
      key, comparing at an entry's offset succeeds exactly for its own key. */
  predicate Distinguishes(cmp: nat -> Comparison, log: seq<Entry>, key: Bytes)
  {
    forall i :: 0 <= i < |log| && i <= First(log, key) ==> (cmp(log[i].offset) == Same <==> log[i].key == key)
  }

  /** At probe `k`, fetch would give up because the base file ends too soon. */
  ghost predicate GivesUp<V(!new)>(s: Scheme<V>, pag: seq<V>, cmp: nat -> Comparison, key: Bytes, k: nat)
    requires s.tsize > 0
  {
    match Seen(s, s.hash(key), At(s, pag, Probe(s.tsize, s.hash(key), k)))
    case Candidate(o) => cmp(o) == Short
    case _ => false
  }

  /** fetch gives up at probe `k` or goes on to the next. */
  ghost predicate PassedOver<V(!new)>(s: Scheme<V>, pag: seq<V>, cmp: nat -> Comparison, key: Bytes, k: nat)
    requires Sound(s)
  {
    Scan(s, pag, cmp, s.hash(key), k) ==
    if GivesUp(s, pag, cmp, key, k) then None
    else Scan(s, pag, cmp, s.hash(key), k + 1)
  }

  /** A probe before the entry's own either gives up or is passed over. */
  lemma ScanPast<V(!new)>(s: Scheme<V>, log: seq<Entry>, cmp: nat -> Comparison, key: Bytes, k: nat)
    requires Sound(s) && AllOkay(s, log) && Distinguishes(cmp, log, key)
    requires First(log, key) < |log| && k < Pos(s, log, First(log, key))
    ensures PassedOver(s, Index(s, log), cmp, key, k)
  {
    var j := EarlierProbe(s, log, First(log, key), k);
    assert Seen(s, s.hash(key), Written(s, s.hash(log[j].key), log[j].offset))
      in {Candidate(log[j].offset), Mismatch};
  }

  lemma ScanOwn<V(!new)>(s: Scheme<V>, log: seq<Entry>, cmp: nat -> Comparison, key: Bytes)
    requires Sound(s) && AllOkay(s, log) && Distinguishes(cmp, log, key)
    requires First(log, key) < |log|
    ensures Scan(s, Index(s, log), cmp, s.hash(key), Pos(s, log, First(log, key)))
      == Some(log[First(log, key)].offset)
  {
    var i := First(log, key);
    SlotHolds(s, log, i);
    assert s.okay(log[i].offset);
  }

  /** Passing over probes k .. m to a hit at m. */
  lemma {:induction false} ScanThrough<V(!new)>(s: Scheme<V>, pag: seq<V>, cmp: nat -> Comparison, key: Bytes, k: nat,
      m: nat, o: nat)
    requires Sound(s) && k <= m
    requires forall j :: k <= j < m ==> PassedOver(s, pag, cmp, key, j)
    requires Scan(s, pag, cmp, s.hash(key), m) == Some(o)
    ensures Scan(s, pag, cmp, s.hash(key), k) ==
      if exists j :: k <= j < m && GivesUp(s, pag, cmp, key, j) then None else Some(o)
    decreases m - k
  {
    if k < m {
      assert PassedOver(s, pag, cmp, key, k);
      ScanThrough(s, pag, cmp, key, k + 1, m, o);
    }
  }

  lemma ScanStored<V(!new)>(s: Scheme<V>, log: seq<Entry>, cmp: nat -> Comparison, key: Bytes)
    requires Sound(s) && AllOkay(s, log) && Distinguishes(cmp, log, key)
    requires First(log, key) < |log|
    ensures Scan(s, Index(s, log), cmp, s.hash(key), 0) ==
      if exists j :: 0 <= j < Pos(s, log, First(log, key)) && GivesUp(s, Index(s, log), cmp, key, j)
      then None else Some(log[First(log, key)].offset)
  {
    var m := Pos(s, log, First(log, key));
    forall j | 0 <= j < m ensures PassedOver(s, Index(s, log), cmp, key, j) {
      ScanPast(s, log, cmp, key, j);
    }
    ScanOwn(s, log, cmp, key);
    ScanThrough(s, Index(s, log), cmp, key, 0, m, log[First(log, key)].offset);
  }

  lemma {:induction false} ScanAbsent<V(!new)>(s: Scheme<V>, log: seq<Entry>, slots: seq<nat>, pag: seq<V>,
      cmp: nat -> Comparison, key: Bytes, h: nat, k: nat)
    requires Sound(s) && AllOkay(s, log) && Distinguishes(cmp, log, key)
    requires Chained(s, log, slots, pag)
    requires First(log, key) == |log|
    ensures Scan(s, pag, cmp, h, k) == None
    decreases MAXRUN * |pag| - k
  {
    var p := Probe(s.tsize, h, k);
    if k >= MAXRUN * |pag| {
      ProbePastEnd(s.tsize, h, k, |pag|);
    } else if At(s, pag, p) != s.vacant {
      var i :| 0 <= i < |log| && slots[i] == p;
      assert s.okay(log[i].offset);
      assert Seen(s, h, Written(s, s.hash(log[i].key), log[i].offset)) in {Candidate(log[i].offset), Mismatch};
      ScanAbsent(s, log, slots, pag, cmp, key, h, k + 1);
    }
  }

  /** After any sequence of stores, fetch fails for a key that was never stored; for a stored
      key it returns the offset of the first store of that key, unless an earlier probe under
      the same tag gives up at the end of the base file, and then it fails. */
  lemma FetchExact<V(!new)>(s: Scheme<V>, log: seq<Entry>, cmp: nat -> Comparison, key: Bytes)
    requires Sound(s) && AllOkay(s, log) && Distinguishes(cmp, log, key)
    ensures Scan(s, Index(s, log), cmp, s.hash(key), 0) ==
      if First(log, key) == |log| then None
      else if exists j :: 0 <= j < Pos(s, log, First(log, key)) && GivesUp(s, Index(s, log), cmp, key, j)
      then None
      else Some(log[First(log, key)].offset)
  {
    if First(log, key) == |log| {
      Chain(s, log);
      ScanAbsent(s, log, SlotsOf(s, log), Index(s, log), cmp, key, s.hash(key), 0);
    } else {
      ScanStored(s, log, cmp, key);
    }
  }

  /** A key stored second is hidden by one of the same hash whose line is too near the end. */
  lemma Hidden<V(!new)>(s: Scheme<V>, near: Entry, e: Entry, cmp: nat -> Comparison)
    requires Sound(s) && s.okay(near.offset) && s.okay(e.offset)
    requires near.key != e.key && s.hash(near.key) == s.hash(e.key) && cmp(near.offset) == Short
    ensures First([near, e], e.key) == 1 && Scan(s, Index(s, [near, e]), cmp, s.hash(e.key), 0) == None
  {
    var log := [near, e];
    assert log[1..] == [e] && log[..0] == [];
    assert Pos(s, log, 0) == 0;
    SlotHolds(s, log, 0);
    assert Seen(s, s.hash(e.key), Written(s, s.hash(near.key), near.offset)) == Candidate(near.offset);
  }

  /** A table of one slot and a hash that is always 0. */
  function OneSlot(): Scheme<Option<nat>> {
    Scheme(1, (_: Bytes) => 0, (_: nat) => 0, None, (_: nat) => true, (_: Word, o: nat) => Some(o),
      (_: Word, v: Option<nat>) => if v.Some? then Candidate(v.value) else Empty)
  }

  predicate Increasing(log: seq<Entry>) {
    forall i, j :: 0 <= i < j < |log| ==> log[i].offset < log[j].offset
  }

  function Lookup(log: seq<Entry>, key: Bytes): Option<nat> {
    if First(log, key) < |log| then Some(log[First(log, key)].offset) else None
  }

  /** A read that comes up short comes up short from every later offset. */
  ghost predicate ReadsForward(cmp: nat -> Comparison) {
    forall i: nat, j: nat :: i <= j && cmp(i) == Short ==> cmp(j) == Short
  }

  lemma ComparerReadsForward(base: Bytes, sep: Byte, key: Bytes)
    requires key != []
    ensures ReadsForward(Comparer(base, sep, key))
  {
  }

  lemma NeverGivesUp<V(!new)>(s: Scheme<V>, log: seq<Entry>, cmp: nat -> Comparison, key: Bytes, k: nat)
    requires Sound(s) && AllOkay(s, log) && Distinguishes(cmp, log, key)
    requires Increasing(log) && ReadsForward(cmp)
    requires First(log, key) < |log| && k < Pos(s, log, First(log, key))
    ensures !GivesUp(s, Index(s, log), cmp, key, k)
  {
    var i := First(log, key);
    var j := EarlierProbe(s, log, i, k);
    assert s.okay(log[j].offset);
    assert Seen(s, s.hash(key), Written(s, s.hash(log[j].key), log[j].offset)) in {Candidate(log[j].offset), Mismatch};
    assert cmp(log[i].offset) == Same;
  }

  /** When lines are stored in the order they are written, no early exit can hide a key: fetch
      is exactly the map from each key to the offset of its first line. */
  lemma FetchIsLookup<V(!new)>(s: Scheme<V>, log: seq<Entry>, cmp: nat -> Comparison, key: Bytes)
    requires Sound(s) && AllOkay(s, log) && Distinguishes(cmp, log, key)
    requires Increasing(log) && ReadsForward(cmp)
    ensures Scan(s, Index(s, log), cmp, s.hash(key), 0) == Lookup(log, key)
  {
    FetchExact(s, log, cmp, key);
    if First(log, key) < |log| {
      forall k | 0 <= k < Pos(s, log, First(log, key)) ensures !GivesUp(s, Index(s, log), cmp, key, k) {
        NeverGivesUp(s, log, cmp, key, k);
      }
    }
  }

  /** Fetch finds the first entry that compares equal, if its key has the same hash. */
  lemma ScanFinds<V(!new)>(s: Scheme<V>, log: seq<Entry>, cmp: nat -> Comparison, key: Bytes, j: nat)
    requires Sound(s) && AllOkay(s, log) && Increasing(log) && ReadsForward(cmp)
    requires j < |log| && s.hash(log[j].key) == s.hash(key) && FirstSame(log, cmp, j)
    ensures Scan(s, Index(s, log), cmp, s.hash(key), 0) == Some(log[j].offset)
  {
    var m := Pos(s, log, j);
    forall k | 0 <= k < m ensures PassedOver(s, Index(s, log), cmp, key, k) && !GivesUp(s, Index(s, log), cmp, key, k) {
      var i := EarlierProbe(s, log, j, k);
      assert Seen(s, s.hash(key), Written(s, s.hash(log[i].key), log[i].offset))
        in {Candidate(log[i].offset), Mismatch};
    }
    SlotHolds(s, log, j);
    assert s.okay(log[j].offset);
    ScanThrough(s, Index(s, log), cmp, key, 0, m, log[j].offset);
  }

  /** Entry j is the first that compares equal. */
  predicate FirstSame(log: seq<Entry>, cmp: nat -> Comparison, j: nat)
    requires j < |log|
  {
    cmp(log[j].offset) == Same && forall i :: 0 <= i < j ==> cmp(log[i].offset) != Same
  }

  lemma SomeFirstSame(log: seq<Entry>, cmp: nat -> Comparison, n: nat) returns (j: nat)
    requires n < |log| && cmp(log[n].offset) == Same
    ensures j <= n && FirstSame(log, cmp, j)
  {
    j := 0;
    while cmp(log[j].offset) != Same
      invariant j <= n && forall i :: 0 <= i < j ==> cmp(log[i].offset) != Same
      decreases n - j
    {
      j := j + 1;
    }
  }

  ghost predicate RightFor<V(!new)>(s: Scheme<V>, log: seq<Entry>, cmp: nat -> Comparison, key: Bytes) {
    Sound(s) && AllOkay(s, log) ==> Scan(s, Index(s, log), cmp, s.hash(key), 0) == Lookup(log, key)
  }

  /** Fetch is right with every hash function and slot coding exactly if the base file tells the
      entries apart up to the key's own first one. */
  lemma AlwaysRightIff(log: seq<Entry>, cmp: nat -> Comparison, key: Bytes)
    requires Increasing(log) && ReadsForward(cmp)
    requires First(log, key) < |log| ==> cmp(log[First(log, key)].offset) == Same
    ensures (forall s: Scheme<Option<nat>> :: RightFor(s, log, cmp, key)) <==> Distinguishes(cmp, log, key)
  {
    if Distinguishes(cmp, log, key) {
      forall s: Scheme<Option<nat>> ensures RightFor(s, log, cmp, key) {
        if Sound(s) && AllOkay(s, log) {
          FetchIsLookup(s, log, cmp, key);
        }
      }
    } else {
      OneSlotIsSound(log);
      Mistaken(OneSlot(), log, cmp, key);
    }
  }

  lemma OneSlotIsSound(log: seq<Entry>)
    ensures Sound(OneSlot()) && AllOkay(OneSlot(), log) && ConstantHash(OneSlot())
  {
  }

  ghost predicate ConstantHash<V(!new)>(s: Scheme<V>) {
    forall a, b :: s.hash(a) == s.hash(b)
  }

  /** With a hash that tells no keys apart, fetch is wrong if the base file does not either. */
  lemma Mistaken<V(!new)>(s: Scheme<V>, log: seq<Entry>, cmp: nat -> Comparison, key: Bytes)
    requires Sound(s) && AllOkay(s, log) && ConstantHash(s)
    requires Increasing(log) && ReadsForward(cmp) && !Distinguishes(cmp, log, key)
    requires First(log, key) < |log| ==> cmp(log[First(log, key)].offset) == Same
    ensures !RightFor(s, log, cmp, key)
  {
    var n :| 0 <= n < |log| && n <= First(log, key) && !(cmp(log[n].offset) == Same <==> log[n].key == key);
    var j := SomeFirstSame(log, cmp, n);
    ScanFinds(s, log, cmp, key, j);
  }

  // ----- When the base file tells entries apart -----

  /** The line of `e` is in the base file: its key and a separator stand at its offset. */
  predicate HoldsLine(base: Bytes, sep: Byte, e: Entry) {
    var line := Bare(e.key) + [sep];
    e.offset + |line| <= |base| && base[e.offset..e.offset + |line|] == line
  }

  /** A key as news makes it: not empty once bare, no separator, no NUL before the end. */
  predicate WellFormedKey(sep: Byte, key: Bytes) {
    Bare(key) != [] && sep !in Bare(key) && 0 !in Bare(key) && sep != 0
  }

  /** Keys passed with their NUL are compared exactly. */
  lemma NulKeysDistinguished(base: Bytes, sep: Byte, log: seq<Entry>, key: Bytes)
    requires WellFormedKey(sep, key) && Bare(key) != key
    requires forall i :: 0 <= i < |log| ==>
      HoldsLine(base, sep, log[i]) && WellFormedKey(sep, log[i].key) && Bare(log[i].key) != log[i].key
    ensures Distinguishes(Comparer(base, sep, key), log, key)
  {
    forall i | 0 <= i < |log|
      ensures Compare(base, sep, key, log[i].offset) == Same <==> log[i].key == key
    {
      CompareLine(base, sep, log[i], key);
      SameBare(key, log[i].key);
    }
  }

  /** Keys that both end in a NUL are equal if they are without it. */
  lemma SameBare(a: Bytes, b: Bytes)
    requires Bare(a) != a && Bare(b) != b
    ensures Bare(a) == Bare(b) <==> a == b
  {
    assert a == Bare(a) + [0] && b == Bare(b) + [0];
  }

  /** Keys passed without a NUL are compared as prefixes, so none that was stored before the key
      may begin with it. */
  lemma BareKeysDistinguished(base: Bytes, sep: Byte, log: seq<Entry>, key: Bytes)
    requires WellFormedKey(sep, key) && Bare(key) == key
    requires forall i :: 0 <= i < |log| ==>
      HoldsLine(base, sep, log[i]) && WellFormedKey(sep, log[i].key) && Bare(log[i].key) == log[i].key
    ensures Distinguishes(Comparer(base, sep, key), log, key) <==>
      forall i :: 0 <= i < First(log, key) ==> !(key <= log[i].key)
  {
    forall i | 0 <= i < |log|
      ensures Compare(base, sep, key, log[i].offset) == Same <==> key <= log[i].key
    {
      CompareLine(base, sep, log[i], key);
    }
  }

  /** At the line of `e`, a key with its NUL compares equal exactly if it is e's key, and a
      bare key exactly if it is a prefix of it. */
  lemma CompareLine(base: Bytes, sep: Byte, e: Entry, key: Bytes)
    requires HoldsLine(base, sep, e) && WellFormedKey(sep, e.key) && WellFormedKey(sep, key)
    ensures Compare(base, sep, key, e.offset) == Same <==>
      if Bare(key) == key then key <= Bare(e.key) else Bare(key) == Bare(e.key)
  {
    var k, line, n := Bare(key), Bare(e.key) + [sep], |Bare(e.key)|;
    var rest := base[e.offset..];
    assert rest[..n + 1] == line;
    assert rest[n] == line[n] == sep;
    assert forall i :: 0 <= i < n ==> rest[i] == line[i] == Bare(e.key)[i];
    if Bare(key) == key {
      if |key| > n && |key| <= |rest| {
        assert key[n] != rest[n];
        assert rest[..|key|][n] != key[n];
        assert base[e.offset..e.offset + |key|] == rest[..|key|];
      } else if |key| <= n {
        assert base[e.offset..e.offset + |key|] == rest[..|key|] == Bare(e.key)[..|key|];
      }
    } else if |key| <= |rest| {
      var buffer := base[e.offset..e.offset + |key|];
      assert buffer == rest[..|key|];
      if |k| > n {
        assert k[n] != buffer[n];
      } else if |k| < n {
        assert buffer[|k|] == Bare(e.key)[|k|];
      } else {
        assert buffer[..|k|] == Bare(e.key);
      }
    }
  }
}
