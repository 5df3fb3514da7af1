/** An open dbz database: the static variables of innbbsd/dbz.c as fields, its functions as
    methods, proved against the value-level index of DbzIndex. */
module DbzFile {
  import opened Arith
  import opened Basics
  import opened Slots
  import opened DbzConfig
  import opened DbzIndex
  import D = DbzDir

  /** The probe that follows another one, computed as search() does from place and table. */
  lemma NextProbe(tsize: nat, h: nat, k: nat)
    requires tsize > 0
    ensures (Probe(tsize, h, k) + 1) % tsize + ((k + 1) / MAXRUN) * tsize == Probe(tsize, h, k + 1)
  {
    ModShift(h + k, k / MAXRUN, tsize);
  }

  lemma ModShift(a: nat, t: nat, n: nat)
    requires n > 0
    ensures (a % n + t * n + 1) % n == (a + 1) % n
  {
    NextMod(a % n + t * n + 1, a % n, t, n);
    NextMod(a + 1, a % n, a / n, n);
  }

  lemma NextMod(x: nat, r: nat, q: nat, n: nat)
    requires r < n && x == r + q * n + 1
    ensures x % n == if r + 1 < n then r + 1 else 0
  {
    if r + 1 < n {
      ModUnique(x, q, r + 1, n);
    } else {
      ModUnique(x, q + 1, 0, n);
    }
  }

  /** A vacant probe with none vacant before it is the first. */
  lemma {:induction false} FirstVacantIs<V(!new)>(s: Scheme<V>, pag: seq<V>, h: nat, j: nat, k: nat)
    requires s.tsize > 0 && j <= k
    requires forall i :: j <= i < k ==> At(s, pag, Probe(s.tsize, h, i)) != s.vacant
    requires At(s, pag, Probe(s.tsize, h, k)) == s.vacant
    ensures FirstVacant(s, pag, h, j) == k
    decreases k - j
  {
    if j < k {
      FirstVacantIs(s, pag, h, j + 1, k);
    }
  }

  /** What a search for hash `h` makes of probe j. */
  ghost function Probed(s: Scheme<Slot>, pag: seq<Slot>, h: nat, j: nat): Verdict<nat>
    requires s.tsize > 0
  {
    Seen(s, h, At(s, pag, Probe(s.tsize, h, j)))
  }

  /** Probes i .. k are passed over: their tags differ. */
  ghost predicate Skipped(s: Scheme<Slot>, pag: seq<Slot>, h: nat, i: nat, k: nat)
    requires s.tsize > 0
  {
    forall j :: i <= j < k ==> Probed(s, pag, h, j) == Mismatch
  }

  /** Probes i .. k are in use. */
  ghost predicate Occupied(s: Scheme<Slot>, pag: seq<Slot>, h: nat, i: nat, k: nat)
    requires s.tsize > 0
  {
    forall j :: i <= j < k ==> Probed(s, pag, h, j) != Empty
  }

  /** The search for `h` stops at probe k with the result `r`. */
  ghost predicate Stops(s: Scheme<Slot>, pag: seq<Slot>, h: nat, k: nat, r: Option<nat>)
    requires s.tsize > 0
  {
    match Probed(s, pag, h, k)
    case Empty => r == None
    case Candidate(o) => r == Some(o)
    case Mismatch => false
  }

  lemma OccupiedFurther(s: Scheme<Slot>, pag: seq<Slot>, h: nat, j: nat, k: nat, r: Option<nat>)
    requires s.tsize > 0 && Occupied(s, pag, h, 0, j) && Stops(s, pag, h, j, r) && r.Some?
    requires Skipped(s, pag, h, j + 1, k)
    ensures Occupied(s, pag, h, 0, k)
  {
  }

  /** A search that found something has not run past the end of the file. */
  lemma InFile(s: Scheme<Slot>, pag: seq<Slot>, h: nat, k: nat)
    requires Sound(s) && Probed(s, pag, h, k) != Empty
    ensures k < MAXRUN * |pag|
  {
    if k >= MAXRUN * |pag| {
      ProbePastEnd(s.tsize, h, k, |pag|);
    }
  }

  /** Probes that only mismatch do not change what fetch finds. */
  lemma {:induction false} ScanSkips(s: Scheme<Slot>, pag: seq<Slot>, cmp: nat -> Comparison, h: nat, j: nat, k: nat)
    requires Sound(s) && j <= k && Skipped(s, pag, h, j, k)
    ensures Scan(s, pag, cmp, h, j) == Scan(s, pag, cmp, h, k)
    decreases k - j
  {
    if j < k {
      assert Probed(s, pag, h, j) == Mismatch;
      ScanSkips(s, pag, cmp, h, j + 1, k);
    }
  }

  lemma ScanDecided(s: Scheme<Slot>, pag: seq<Slot>, cmp: nat -> Comparison, h: nat, k: nat, r: Option<nat>)
    requires Sound(s) && Stops(s, pag, h, k, r)
    ensures Scan(s, pag, cmp, h, k) ==
      if r == None then None
      else match cmp(r.value)
        case Short => None
        case Same => r
        case Different => Scan(s, pag, cmp, h, k + 1)
  {
  }

  /** What the index becomes when an entry is stored at the first vacant probe. */
  lemma StoredAtEnd(s: Scheme<Slot>, log: seq<Entry>, e: Entry, k: nat)
    requires Sound(s)
    requires Occupied(s, Index(s, log), s.hash(e.key), 0, k) && Stops(s, Index(s, log), s.hash(e.key), k, None)
    ensures forall p: nat ::
      At(s, Index(s, log + [e]), p) == if p == Probe(s.tsize, s.hash(e.key), k)
        then Written(s, s.hash(e.key), e.offset) else At(s, Index(s, log), p)
  {
    var h, pag := s.hash(e.key), Index(s, log);
    forall i | 0 <= i < k ensures At(s, pag, Probe(s.tsize, h, i)) != s.vacant {
      assert Probed(s, pag, h, i) != Empty;
    }
    FirstVacantIs(s, pag, h, 0, k);
    var longer := log + [e];
    assert longer[..|longer| - 1] == log;
  }

  class Dbz {
    const s: Scheme<Slot>
    const fieldsep: Byte
    var corepag: array?<Slot>  // in-core copy of the first table, if any
    var pagf: seq<Slot>        // the .pag file
    var writethrough: bool
    var written: bool
    var conf: D.Conf  // struct dbzconfig, in which used[0] counts the stores
    var dirf: Bytes   // the .dir file

    // struct searcher srch; prevp is srch (true) or FRESH (false)
    var place: nat
    var tabno: nat
    var run: int
    var hash: nat
    var tag: Word
    var seen: bool
    var prevp: bool

    ghost var log: seq<Entry>  // what has been stored
    ghost var index: seq<Slot> // the index of the log
    ghost var k: nat           // the number of the probe at srch.place

    function FileAt(p: nat): Slot
      reads `pagf
    {
      if p < |pagf| then pagf[p] else s.vacant
    }

    function SlotAt(p: nat): Slot
      reads `pagf, `corepag, corepag
    {
      if corepag != null && p < corepag.Length then corepag[p] else FileAt(p)
    }

    /** The slots, as search() sees them, are the index of the log. */
    ghost predicate Agrees()
      reads `pagf, `corepag, corepag, `index
    {
      forall p: nat :: SlotAt(p) == At(s, index, p)
    }

    /** The file alone, without the in-core copy, is the index of the log. */
    ghost predicate Synced()
      reads `pagf, `corepag, corepag
    {
      forall p: nat :: FileAt(p) == SlotAt(p)
    }

    ghost predicate Consistent()
      reads `pagf, `corepag, corepag, `index, `writethrough
    {
      && Sound(s)
      && (corepag != null ==> corepag.Length == s.tsize)
      && Agrees()
      && (corepag == null || writethrough ==> Synced())
    }

    /** The searcher stands at probe k of its hash. */
    ghost predicate Standing()
      reads `place, `tabno, `run, `hash, `tag, `k
    {
      && s.tsize > 0
      && place == Probe(s.tsize, hash, k)
      && tabno == k / MAXRUN
      && run == MAXRUN - k % MAXRUN
      && tag == s.tag(hash)
    }

    /** The searcher stands at the first vacant probe of its hash. */
    ghost predicate Ended()
      reads `hash, `index, `k
      requires s.tsize > 0
    {
      Stops(s, index, hash, k, None) && Occupied(s, index, hash, 0, k)
    }

    /** A searcher kept for the next store stands where a fresh search would end. */
    ghost predicate Searchable()
      reads this, corepag
    {
      Consistent() && (prevp ==> Standing() && Ended())
    }

    ghost predicate Valid()
      reads this, corepag
    {
      Searchable() && AllOkay(s, log) && index == Index(s, log) && Kept()
    }

    /** As long as nothing has been written, the files are as they should be. */
    ghost predicate Kept()
      reads `pagf, `corepag, corepag, `written, `conf
    {
      conf.used != [] && (!written ==> Synced())
    }

    /** dbminit(): open a .pag file that holds the index of `stored`. */
    constructor Open(s: Scheme<Slot>, fieldsep: Byte, conf: D.Conf, dirf: Bytes, pag: seq<Slot>, incore: bool,
        writethrough: bool, ghost stored: seq<Entry>)
      requires Sound(s) && AllOkay(s, stored) && conf.used != []
      requires forall p: nat :: At(s, pag, p) == At(s, Index(s, stored), p)
      ensures Valid() && this.s == s && this.fieldsep == fieldsep && log == stored && !written
      ensures this.conf == conf && this.dirf == dirf
      ensures this.writethrough == writethrough
      ensures corepag == null || fresh(corepag)
    {
      this.s, this.fieldsep := s, fieldsep;
      pagf := pag;
      this.writethrough, written, this.conf, this.dirf := writethrough, false, conf, dirf;
      place, tabno, run, hash, tag, seen, prevp := 0, 0, 0, 0, 0, false, false;
      log, index, k := stored, Index(s, stored), 0;
      if incore {
        corepag := new Slot[s.tsize](i => if 0 <= i < |pag| then pag[i] else s.vacant);
      } else {
        corepag := null;
      }
    }

    /** start() */
    method Start(key: Bytes)
      requires Consistent() && (prevp ==> Standing())
      modifies `place, `tabno, `run, `hash, `tag, `seen, `k
      ensures Standing() && hash == s.hash(key) && !seen
      ensures if prevp && old(hash) == s.hash(key) then k == old(k) else k == 0
    {
      var h := s.hash(key);
      if prevp && hash == h {
      } else {
        hash := h;
        tag := s.tag(h);
        place := h % s.tsize;
        tabno := 0;
        run := MAXRUN;
        k := 0;
      }
      seen := false;
    }

    /** The first probe that the next call of search() examines. */
    ghost function Next(): nat
      reads `seen, `k
    {
      if seen then k + 1 else k
    }

    /** The part of search() that determines the location to be examined. */
    method Step()
      requires Standing()
      modifies `place, `tabno, `run, `seen, `k
      ensures Standing() && seen && k == old(Next())
    {
      if seen {
        run := run - 1;
        if run <= 0 {
          tabno := tabno + 1;
          run := MAXRUN;
        }
        NextProbe(s.tsize, hash, k);
        place := (place + 1) % s.tsize + tabno * s.tsize;
        k := k + 1;
      } else {
        seen := true;
      }
    }

    /** search(): on to the first probe that is vacant or passes the tag. */
    method Search() returns (r: Option<nat>)
      requires Consistent() && Standing()
      modifies `place, `tabno, `run, `seen, `k
      ensures Standing() && seen && old(Next()) <= k
      ensures Skipped(s, index, hash, old(Next()), k)
      ensures Stops(s, index, hash, k, r)
    {
      while true
        invariant Standing()
        invariant old(Next()) <= Next()
        invariant Skipped(s, index, hash, old(Next()), Next())
        decreases MAXRUN * |index| - Next()
      {
        Step();
        var value := SlotAt(place);
        assert s.examine(tag, value) == Probed(s, index, hash, k);
        match s.examine(tag, value) {
          case Empty => return None;
          case Candidate(o) => return Some(o);
          case Mismatch =>
        }
        InFile(s, index, hash, k);
      }
    }

    /** dbzfetch() and fetch(), on the base file's contents at the time of the call. */
    method Fetch(key: Bytes, base: Bytes) returns (r: Option<nat>)
      requires Valid() && key != []
      modifies `place, `tabno, `run, `hash, `tag, `seen, `k, `prevp
      ensures Valid()
      ensures r == Scan(s, Index(s, log), Comparer(base, fieldsep, Truncated(key)), s.hash(Truncated(key)), 0)
      ensures prevp ==> r == None && hash == s.hash(Truncated(key))
      ensures r == None && !prevp
              ==> GivesUp(s, Index(s, log), Comparer(base, fieldsep, Truncated(key)), Truncated(key), k)
    {
      r := FetchMapped(Truncated(key), Comparer(base, fieldsep, Truncated(key)));
    }

    /** fetch(), with `cmp` for its seek, read and compare: an early exit leaves no searcher
        for the next store, running into a vacant slot does. */
    method FetchMapped(key: Bytes, cmp: nat -> Comparison) returns (r: Option<nat>)
      requires Searchable()
      modifies `place, `tabno, `run, `hash, `tag, `seen, `k, `prevp
      ensures prevp ==> Standing() && Ended()
      ensures r == Scan(s, index, cmp, s.hash(key), 0)
      ensures prevp ==> r == None && hash == s.hash(key)
      ensures r == None && !prevp ==> GivesUp(s, index, cmp, key, k)
    {
      prevp := false;
      Start(key);
      var vacant;
      r, vacant := FetchLoop(key, cmp);
      prevp := vacant;
    }

    /** One more search after a hit that was not the key. */
    method SearchOn(hit: Option<nat>, ghost cmp: nat -> Comparison) returns (r: Option<nat>)
      requires Consistent() && Standing() && seen && hit.Some?
      requires Occupied(s, index, hash, 0, k) && Stops(s, index, hash, k, hit)
      modifies `place, `tabno, `run, `seen, `k
      ensures Standing() && seen && old(k) < k && old(k) < MAXRUN * |index|
      ensures Occupied(s, index, hash, 0, k) && Stops(s, index, hash, k, r)
      ensures cmp(hit.value) == Different ==> Scan(s, index, cmp, hash, old(k)) == Scan(s, index, cmp, hash, k)
    {
      InFile(s, index, hash, k);
      ScanDecided(s, index, cmp, hash, k, hit);
      r := Search();
      OccupiedFurther(s, index, hash, old(k), k, hit);
      ScanSkips(s, index, cmp, hash, old(k) + 1, k);
    }

    method FetchLoop(key: Bytes, cmp: nat -> Comparison) returns (r: Option<nat>, vacant: bool)
      requires Consistent() && Standing() && hash == s.hash(key) && !seen && k == 0
      modifies `place, `tabno, `run, `seen, `k
      ensures r == Scan(s, index, cmp, hash, 0)
      ensures vacant ==> r == None && Standing() && Ended()
      ensures r == None && !vacant ==> GivesUp(s, index, cmp, key, k)
    {
      ghost var answer := Scan(s, index, cmp, hash, 0);
      r := Search();
      ScanSkips(s, index, cmp, hash, 0, k);
      while r.Some?
        invariant Standing() && seen
        invariant answer == Scan(s, index, cmp, hash, k)
        invariant Occupied(s, index, hash, 0, k)
        invariant Stops(s, index, hash, k, r)
        decreases MAXRUN * |index| - k
      {
        ScanDecided(s, index, cmp, hash, k, r);
        match cmp(r.value) {
          case Short => return None, false;
          case Same => return r, false;
          case Different => r := SearchOn(r, cmp);
        }
      }
      ScanDecided(s, index, cmp, hash, k, r);
      return None, true;
    }

    /** The search of store(): it ends where a fresh search would, whether or not it resumes
        where the last fetch failed. */
    method FindVacant(key: Bytes)
      requires Searchable()
      modifies `place, `tabno, `run, `hash, `tag, `seen, `k
      ensures Standing() && hash == s.hash(key) && Ended()
    {
      Start(key);
      var r := Search();
      while r.Some?
        invariant Standing() && seen && hash == s.hash(key)
        invariant Occupied(s, index, hash, 0, k)
        invariant Stops(s, index, hash, k, r)
        decreases MAXRUN * |index| - k
      {
        r := SearchOn(r, (_: nat) => Different);
      }
    }

    /** dbzstore() and store(): refuse, or add the entry. */
    method Store(key: Bytes, value: nat) returns (ok: bool)
      requires Valid()
      modifies `place, `tabno, `run, `hash, `tag, `seen, `k, `prevp, `conf, `written, `pagf, corepag, `index, `log
      ensures Valid()
      ensures ok <==> |key| < 255 && s.okay(value)
      ensures conf == (if ok then Counted(old(conf)) else old(conf)) && written == (old(written) || ok)
      ensures prevp == (old(prevp) && !ok)
      ensures log == if ok then old(log) + [Entry(key, value)] else old(log)
    {
      if |key| >= DBZMAXKEY || !s.okay(value) {
        return false;
      }
      FindVacant(key);
      StoreFound(key, value);
      return true;
    }

    /** store(), once its search has found a vacant slot. */
    method StoreFound(key: Bytes, value: nat)
      requires Consistent() && Standing() && Ended() && hash == s.hash(key)
      requires AllOkay(s, log) && index == Index(s, log) && s.okay(value) && conf.used != []
      modifies `prevp, `conf, `written, `pagf, corepag, `index, `log
      ensures Valid() && log == old(log) + [Entry(key, value)]
      ensures !prevp && conf == Counted(old(conf)) && written
    {
      ghost var next := NextIndex(key, value);
      ghost var longer := LongerLog(key, value);
      SetNew(value, next, longer);
    }

    lemma LongerLog(key: Bytes, value: nat) returns (longer: seq<Entry>)
      requires AllOkay(s, log) && s.okay(value)
      ensures longer == log + [Entry(key, value)] && AllOkay(s, longer)
    {
      longer := log + [Entry(key, value)];
    }

    /** The index once the entry is set at the vacant slot found for it. */
    lemma NextIndex(key: Bytes, value: nat) returns (next: seq<Slot>)
      requires Sound(s) && Standing() && Ended() && hash == s.hash(key)
      requires index == Index(s, log)
      ensures next == Index(s, log + [Entry(key, value)])
      ensures forall p: nat :: At(s, next, p) == if p == place then s.encode(tag, value) else At(s, index, p)
    {
      StoredAtEnd(s, log, Entry(key, value), k);
      next := Index(s, log + [Entry(key, value)]);
    }

    /** The end of store(): set() at the vacant slot found; `next` is the index that results. */
    method SetNew(value: nat, ghost next: seq<Slot>, ghost longer: seq<Entry>)
      requires Consistent() && conf.used != []
      requires forall p: nat :: At(s, next, p) == if p == place then s.encode(tag, value) else At(s, index, p)
      modifies `prevp, `conf, `written, `pagf, corepag, `index, `log
      ensures Consistent() && !prevp && index == next && log == longer
      ensures conf == Counted(old(conf)) && written
    {
      prevp, conf, written, index, log := false, Counted(conf), true, next, longer;
      Set(value);
    }

    /** set(): write the coded offset at the searcher's place. */
    method Set(value: nat)
      requires corepag != null ==> corepag.Length == s.tsize
      requires corepag == null || writethrough ==> Synced()
      modifies `pagf, corepag
      ensures forall p: nat :: SlotAt(p) == if p == place then s.encode(tag, value) else old(SlotAt(p))
      ensures corepag == null || writethrough ==> Synced()
      ensures corepag != null && place < s.tsize && !writethrough ==> pagf == old(pagf)
    {
      var coded := s.encode(tag, value);
      if corepag != null && place < s.tsize {
        corepag[place] := coded;
        if !writethrough {
          return;
        }
      }
      pagf := if place < |pagf| then pagf[place := coded]
        else pagf + seq(place - |pagf|, _ => s.vacant) + [coded];
    }

    /** dbzsync(): afterwards the .pag file alone holds the whole index and, if anything has been
        written, the .dir file begins with the configuration, which getconf can read back. */
    method Sync()
      requires Valid()
      modifies `pagf, `dirf
      ensures Valid() && Synced()
      ensures if !written then dirf == old(dirf) else
        D.Text(conf) <= dirf && dirf[|D.Text(conf)|..] == Beyond(old(dirf), |D.Text(conf)|)
      ensures written && D.Fits(conf) && conf.casemap != D.SPACE ==> D.GetConf(dirf) == D.Known(conf)
    {
      if !written {
        return;
      }
      if corepag != null && !writethrough {
        PutCore();
      }
      PutConf();
    }

    /** putcore() */
    method PutCore()
      requires Consistent() && corepag != null
      modifies `pagf
      ensures Consistent() && Synced()
    {
      pagf := corepag[..] + if |pagf| > s.tsize then pagf[s.tsize..] else [];
    }

    /** putconf() from the start of the .dir file, which may have been longer. */
    method PutConf()
      requires conf.used != []
      modifies `dirf
      ensures dirf == D.Text(conf) + Beyond(old(dirf), |D.Text(conf)|)
      ensures D.Fits(conf) && conf.casemap != D.SPACE ==> D.GetConf(dirf) == D.Known(conf)
    {
      if D.Fits(conf) {
        D.ConfBackIff(conf, Beyond(dirf, |D.Text(conf)|));
      }
      dirf := D.Text(conf) + Beyond(dirf, |D.Text(conf)|);
    }
  }

  /** conf.used[0]++ */
  function Counted(conf: D.Conf): D.Conf
    requires conf.used != []
  {
    conf.(used := [conf.used[0] + 1] + conf.used[1..])
  }

  /** What of a file lies behind its first `n` bytes. */
  function Beyond(file: Bytes, n: nat): Bytes {
    if |file| > n then file[n..] else []
  }
}
