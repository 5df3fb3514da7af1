/** The history file and its index as the news daemon uses them: innbbsd/his.c and the
    functions DBfetch, DBstore and storeDB of innbbsd/dbztool.c. */
module HistoryFile {
  import opened Basics
  import opened DbzIndex
  import D = DbzDir
  import opened DbzConfig
  import opened DbzFile
  import opened DateText
  import opened HistoryModel
  import opened HistoryMaint
  import opened HistoryRuns

  /** What storeDB returns: 0, -1, or never because DBfetch wrote out of bounds. */
  datatype Status = Stored | Failed | Crashed

  /** An id that the index can hold and look for. */
  predicate IsKey(id: Bytes) {
    id != [] && TAB !in id && 0 !in id
  }

  predicate Servable(req: Request) {
    IsKey(Cut(req.mid)) && (req.Storing? ==> 0 !in req.paths)
  }

  predicate AllServable(reqs: seq<Request>) {
    (forall i :: 0 <= i < |reqs| ==> Servable(reqs[i])) && Unmistaken(reqs) && SizeOf(reqs) < LONG_END
  }

  lemma LastServable(reqs: seq<Request>)
    requires AllServable(reqs) && reqs != []
    ensures var front, last := reqs[..|reqs| - 1], reqs[|reqs| - 1];
      && AllServable(front) && Servable(last) && SizeOf(reqs) == SizeOf(front) + LineSize(last)
      && (Run(front).Alive? ==> NoLonger(Run(front).recs, Cut(last.mid)))
  {
    var n := |reqs| - 1;
    forall k | 0 <= k < n ensures UnmistakenAt(reqs[..n], k) {
      assert UnmistakenAt(reqs, k);
      assert reqs[..n][..k] == reqs[..k];
    }
    assert UnmistakenAt(reqs, n);
  }

  /** The array holds `s` as a C string. */
  predicate HoldsString(a: array<Byte>, s: Bytes)
    reads a
  {
    |s| < a.Length && 0 !in s && a[..|s|] == s && a[|s|] == 0
  }

  /** strchr(), as an index; that of the terminating NUL if `c` is not there. */
  method Strchr(a: array<Byte>, c: Byte, ghost s: Bytes) returns (i: nat)
    requires HoldsString(a, s) && c != 0
    ensures i == IndexOf(s, c)
  {
    i := 0;
    assert forall j :: 0 <= j < |s| ==> a[j] == a[..|s|][j] == s[j];
    while a[i] != 0 && a[i] != c
      invariant i <= |s| && c !in s[..i]
      decreases |s| - i
    {
      assert i < |s| && s[..i + 1] == s[..i] + [s[i]];
      i := i + 1;
    }
    IndexIs(s, c, i);
  }

  /** read() into the start of the buffer. */
  method ReadInto(text: Bytes, pos: nat, output: array<Byte>) returns (got: nat)
    requires output.Length == LEN + 1
    modifies output
    ensures got == |Chunk(text, pos)| && output[..got] == Chunk(text, pos)
    ensures forall j :: got <= j < LEN + 1 ==> output[j] == old(output[j])
  {
    var chunk := Chunk(text, pos);
    got := 0;
    while got < |chunk|
      invariant got <= |chunk|
      invariant forall j :: 0 <= j < got ==> output[j] == chunk[j]
      invariant forall j :: got <= j < LEN + 1 ==> output[j] == old(output[j])
    {
      output[got] := chunk[got];
      got := got + 1;
    }
  }

  /** The state of HISfilesfor's read loop before the next read: nothing read yet, or no newline
      in what was read and at most one byte more, at the end of the file. */
  ghost predicate Reading(text: Bytes, o: nat, buffer: Bytes, pos: nat, used: nat) {
    var chunk := Chunk(text, o);
    || (pos == o && used == 0)
    || (0 < used == |chunk| < |buffer| && pos == o + used && NEWLINE !in chunk && buffer[..used] == chunk
      && buffer[used] == 0)
    || (used == LEN && NEWLINE !in chunk && |text| == o + |chunk| + 1 && pos == |text|)
  }

  /** After a read and the terminating NUL, the buffer holds the first read, or one later byte
      and then what the first read left. */
  lemma StringRead(text: Bytes, o: nat, was: Bytes, pos: nat, used: nat, buffer: Bytes) returns (s: Bytes)
    requires 0 !in text && |was| == |buffer| == LEN + 1
    requires Reading(text, o, was, pos, used) && Chunk(text, pos) != []
    requires used + |Chunk(text, pos)| <= LEN
    requires buffer[..|Chunk(text, pos)|] == Chunk(text, pos) && buffer[used + |Chunk(text, pos)|] == 0
    requires forall j :: |Chunk(text, pos)| <= j < LEN + 1 && j != used + |Chunk(text, pos)| ==> buffer[j] == was[j]
    ensures |s| <= LEN && 0 !in s && buffer[..|s|] == s && buffer[|s|] == 0
    ensures used == 0 ==> s == Chunk(text, o)
    ensures used > 0 ==> |text| == o + |Chunk(text, o)| + 1 && NEWLINE !in Chunk(text, o)
    ensures used > 0 ==> s != [] && NEWLINE !in s[1..]
    ensures NEWLINE !in s ==> Reading(text, o, buffer, pos + |Chunk(text, pos)|, used + |Chunk(text, pos)|)
  {
    var chunk := Chunk(text, pos);
    NoNulInChunk(text, pos);
    if used == 0 {
      s := chunk;
    } else {
      NoNulInChunk(text, o);
      s := chunk + Chunk(text, o)[1..];
    }
  }

  lemma NoNulInChunk(text: Bytes, o: nat)
    requires 0 !in text
    ensures 0 !in Chunk(text, o)
  {
  }

  /** A later read that comes to at most one byte finds no text. */
  lemma NothingMore(text: Bytes, o: nat, buffer: Bytes, pos: nat, used: nat)
    requires Reading(text, o, buffer, pos, used) && Chunk(text, pos) == []
    ensures LineRead(text, o) == Missing
  {
    NoNewline(Chunk(text, o));
  }

  lemma TooMuch(text: Bytes, o: nat, buffer: Bytes, pos: nat, used: nat)
    requires Reading(text, o, buffer, pos, used) && used + |Chunk(text, pos)| > LEN
    ensures LineRead(text, o) == OutOfBounds
  {
    NoNewline(Chunk(text, o));
  }

  lemma NoNewline(s: Bytes)
    requires NEWLINE !in s
    ensures IndexOf(s, NEWLINE) == |s|
  {
  }

  lemma LineEnds(text: Bytes, o: nat, s: Bytes, p: nat, used: nat)
    requires p == IndexOf(s, NEWLINE) < |s|
    requires used == 0 ==> s == Chunk(text, o)
    requires used > 0 ==> |text| == o + |Chunk(text, o)| + 1 && NEWLINE !in Chunk(text, o) && NEWLINE !in s[1..]
    ensures LineRead(text, o) == AfterTab(s[..p])
  {
    if used > 0 {
      NoNewline(Chunk(text, o));
      AtStart(s, p);
    }
  }

  lemma AtStart(s: Bytes, p: nat)
    requires p < |s| && s[p] !in s[1..]
    ensures p == 0
  {
    assert forall i :: 1 <= i < |s| ==> s[1..][i - 1] == s[i];
  }

  /** One round of the read loop, up to the search for the newline. */
  method ReadOnce(text: Bytes, ghost o: nat, pos: nat, used: nat, output: array<Byte>)
      returns (got: nat, p: nat, ghost s: Bytes)
    requires output.Length == LEN + 1 && 0 !in text && Reading(text, o, output[..], pos, used)
    modifies output
    ensures got == |Chunk(text, pos)|
    ensures got == 0 ==> LineRead(text, o) == Missing
    ensures used + got > LEN ==> LineRead(text, o) == OutOfBounds
    ensures 0 < got <= LEN - used ==> HoldsString(output, s) && p == IndexOf(s, NEWLINE)
    ensures 0 < got <= LEN - used && p == |s| ==> Reading(text, o, output[..], pos + got, used + got)
    ensures 0 < got <= LEN - used && p < |s| ==> LineRead(text, o) == AfterTab(s[..p])
  {
    ghost var was := output[..];
    p, s := 0, [];
    got := ReadInto(text, pos, output);
    if got == 0 {
      NothingMore(text, o, was, pos, used);
      return;
    }
    if used + got > LEN {
      TooMuch(text, o, was, pos, used);
      return;
    }
    output[used + got] := 0;
    s := StringRead(text, o, was, pos, used, output[..]);
    p := Strchr(output, NEWLINE, s);
    if p == |s| {
      assert s[..p] == s;
    } else {
      LineEnds(text, o, s, p, used);
    }
  }

  /** The read loop of HISfilesfor and what follows it. Every read fills the buffer from its
      start, while the NUL after it moves on by what has been read in all. */
  method ReadLine(text: Bytes, o: nat, output: array<Byte>) returns (r: Answer)
    requires output.Length == LEN + 1 && 0 !in text
    modifies output
    ensures r == LineRead(text, o)
  {
    var pos: nat, used: nat := o, 0;
    while true
      invariant Reading(text, o, output[..], pos, used)
      decreases |text| - pos
    {
      var got, p, s := ReadOnce(text, o, pos, used, output);
      if got == 0 {
        return Missing;
      }
      if used + got > LEN {
        return OutOfBounds;
      }
      if output[p] != 0 {
        r := EndLine(output, p, s);
        return;
      }
      pos, used := pos + got, used + got;
    }
  }

  /** The newline gives way to a NUL. */
  method EndLine(output: array<Byte>, p: nat, ghost s: Bytes) returns (r: Answer)
    requires p < |s| && HoldsString(output, s)
    modifies output
    ensures r == AfterTab(s[..p])
  {
    output[p] := 0;
    r := PastTab(output, p, s[..p]);
  }

  /** The end of HISfilesfor: the text after the first tab. */
  method PastTab(output: array<Byte>, p: nat, ghost line: Bytes) returns (r: Answer)
    requires p == |line| && HoldsString(output, line)
    ensures r == AfterTab(line)
  {
    var q := Strchr(output, TAB, line);
    if output[q] == 0 {
      return Missing;
    }
    r := Found(output[q + 1..p]);
  }

  /** HISfilesfor() after its call of dbzfetch(). */
  method ReadAt(text: Bytes, o: Option<nat>, output: array<Byte>) returns (r: Answer)
    requires output.Length == LEN + 1 && 0 !in text
    modifies output
    ensures r == if o == None then Missing else LineRead(text, o.value)
  {
    if o == None {
      return Missing;
    }
    r := ReadLine(text, o.value, output);
  }

  class History {
    var hist: Bytes
    var dbz: Dbz
    ghost var recs: seq<Record>

    ghost predicate Valid()
      reads this, dbz, dbz.corepag
    {
      && dbz.Valid() && dbz.fieldsep == TAB && TakesAll(dbz.s, LONG_END)
      && hist == Text(recs) && |hist| < LONG_END
      && AllKeyed(recs) && dbz.log == LogOf(recs)
    }

    /** makedbz() and myHISsetup() on files that do not exist yet. */
    constructor (s: Scheme<Slot>, conf: D.Conf)
      requires Sound(s) && TakesAll(s, LONG_END) && conf.used != []
      ensures Valid() && recs == [] && hist == [] && dbz.s == s
      ensures fresh(dbz) && (dbz.corepag == null || fresh(dbz.corepag))
    {
      hist, recs := [], [];
      dbz := new Dbz.Open(s, TAB, conf, D.Text(conf), [], true, true, []);
    }

    /** HISfilesfor(): the offset from dbz, then the line from the text. */
    method HISfilesfor(id: Bytes, output: array<Byte>) returns (r: Answer)
      requires Valid() && IsKey(id) && output.Length == LEN + 1 && output as object != dbz.corepag
      modifies dbz, output
      ensures Valid() && dbz.corepag == old(dbz.corepag)
      ensures r == Reply(dbz.s, recs, id)
      ensures NoLonger(recs, id) ==> r == AnswerAt(recs, id)
    {
      ReplyIsAnswer(dbz.s, recs, id);
      var o := Locate(id);
      NoNulInText(recs);
      r := ReadAt(hist, o, output);
      ReplyFrom(dbz.s, recs, id, o, r);
    }

    /** dbzfetch() on the history. */
    method Locate(id: Bytes) returns (o: Option<nat>)
      requires Valid() && IsKey(id)
      modifies dbz
      ensures Valid() && dbz.corepag == old(dbz.corepag)
      ensures o == Located(dbz.s, recs, id)
    {
      o := dbz.Fetch(id, hist);
    }

    /** HISwrite(): append a line, then index it if dbz takes the key. */
    method HISwrite(id: Bytes, now: nat, paths: Bytes) returns (ok: bool)
      requires Valid() && IsKey(id) && 0 !in paths
      requires |hist| + |LineOf(Record(id, RestFor(now, paths)))| < LONG_END
      modifies this, dbz, dbz.corepag
      ensures Valid() && dbz == old(dbz) && dbz.corepag == old(dbz.corepag)
      ensures ok <==> |id| < DBZMAXKEY
      ensures recs == old(recs) + [Record(id, RestFor(now, paths))]
      ensures |hist| == |old(hist)| + |LineOf(Record(id, RestFor(now, paths)))|
    {
      NoNulInRest(now, paths);
      ok := Append(Record(id, RestFor(now, paths)));
    }

    /** The common end of HISwrite and myHISwrite. */
    method Append(r: Record) returns (ok: bool)
      requires Valid() && Keyed(r) && |hist| + |LineOf(r)| < LONG_END
      modifies this, dbz, dbz.corepag
      ensures Valid() && dbz == old(dbz) && dbz.corepag == old(dbz.corepag)
      ensures ok <==> |r.id| < DBZMAXKEY
      ensures recs == old(recs) + [r] && |hist| == |old(hist)| + |LineOf(r)|
    {
      var offset := |hist|;
      AppendRecord(recs, r);
      hist := hist + LineOf(r);
      recs := recs + [r];
      ok := dbz.Store(r.id, offset);
    }

    /** myHISwrite(): append a line unless the index has an answer for its id. */
    method MyHISwrite(key: Bytes, remain: Bytes) returns (ok: bool)
      requires Valid() && Keyed(Record(key, remain))
      requires |hist| + |LineOf(Record(key, remain))| < LONG_END
      modifies this, dbz, dbz.corepag
      ensures Valid() && dbz == old(dbz) && dbz.corepag == old(dbz.corepag)
      ensures recs == if Located(dbz.s, old(recs), key) == None then old(recs) + [Record(key, remain)] else old(recs)
      ensures NoLonger(old(recs), key) ==>
        recs == if Known(old(recs), key) then old(recs) else old(recs) + [Record(key, remain)]
      ensures |hist| <= |old(hist)| + |LineOf(Record(key, remain))|
    {
      if NoLonger(recs, key) {
        HistoryFetch(dbz.s, recs, key);
      }
      var o := Locate(key);
      if o != None {
        return false;
      }
      ok := Append(Record(key, remain));
    }

    /** DBfetch() */
    method DBfetch(mid: Bytes) returns (r: Answer)
      requires Valid() && IsKey(Cut(mid))
      modifies dbz
      ensures Valid() && dbz.corepag == old(dbz.corepag)
      ensures r == Reply(dbz.s, recs, if |mid| > 510 then mid[..510] else mid)
      ensures NoLonger(recs, Cut(mid)) ==> r == Fetched(recs, mid)
    {
      var dboutput := new Byte[LEN + 1];
      r := HISfilesfor(Cut(mid), dboutput);
    }

    /** storeDB(): the lines afterwards are those of one step of the run. */
    method StoreDB(mid: Bytes, now: nat, paths: Bytes) returns (r: Status)
      requires Valid() && IsKey(Cut(mid)) && 0 !in paths
      requires |hist| + |LineOf(Record(Cut(mid), RestFor(now, paths)))| < LONG_END
      modifies this, dbz, dbz.corepag
      ensures Valid() && dbz == old(dbz) && dbz.corepag == old(dbz.corepag)
      ensures recs == old(recs) +
        if Reply(dbz.s, old(recs), Cut(mid)) == Missing then [Record(Cut(mid), RestFor(now, paths))] else []
      ensures r == Crashed <==> Reply(dbz.s, old(recs), Cut(mid)) == OutOfBounds
      ensures r == Failed <==> Reply(dbz.s, old(recs), Cut(mid)) == Missing && |Cut(mid)| >= DBZMAXKEY
      ensures NoLonger(old(recs), Cut(mid)) ==>
        Step(Alive(old(recs)), Storing(mid, now, paths)) == if r == Crashed then Wrecked else Alive(recs)
      ensures |hist| <= |old(hist)| + |LineOf(Record(Cut(mid), RestFor(now, paths)))|
    {
      var found := DBfetch(mid);
      match found {
        case OutOfBounds => return Crashed;
        case Found(_) => return Stored;
        case Missing =>
      }
      var ok := HISwrite(Cut(mid), now, paths);
      r := if ok then Stored else Failed;
    }

    /** One request of the daemon; `wrecked` if DBfetch overran its buffer. */
    method Serve(req: Request) returns (wrecked: bool)
      requires Valid() && Servable(req) && NoLonger(recs, Cut(req.mid)) && |hist| + LineSize(req) < LONG_END
      modifies this, dbz, dbz.corepag
      ensures Valid() && dbz == old(dbz) && dbz.corepag == old(dbz.corepag)
      ensures Step(Alive(old(recs)), req) == if wrecked then Wrecked else Alive(recs)
      ensures |hist| <= |old(hist)| + LineSize(req)
    {
      match req {
        case Fetching(mid) =>
          wrecked := ServeFetch(mid);
        case Storing(mid, now, paths) =>
          var status := StoreDB(mid, now, paths);
          wrecked := status == Crashed;
      }
    }

    method ServeFetch(mid: Bytes) returns (wrecked: bool)
      requires Valid() && IsKey(Cut(mid)) && NoLonger(recs, Cut(mid))
      modifies dbz
      ensures Valid() && dbz.corepag == old(dbz.corepag)
      ensures Step(Alive(recs), Fetching(mid)) == if wrecked then Wrecked else Alive(recs)
    {
      var answer := DBfetch(mid);
      wrecked := answer == OutOfBounds;
    }

    /** All of a run from an empty history. */
    method ServeAll(reqs: seq<Request>) returns (wrecked: bool)
      requires Valid() && recs == [] && hist == [] && AllServable(reqs)
      modifies this, dbz, dbz.corepag
      ensures Valid() && dbz == old(dbz) && dbz.corepag == old(dbz.corepag)
      ensures Run(reqs) == if wrecked then Wrecked else Alive(recs)
      ensures |hist| <= SizeOf(reqs)
      decreases |reqs|
    {
      if reqs == [] {
        return false;
      }
      LastServable(reqs);
      var front := reqs[..|reqs| - 1];
      wrecked := ServeAll(front);
      if !wrecked {
        wrecked := Serve(reqs[|reqs| - 1]);
      }
    }

    /** One round of the loop of HISmaint, writing to the new history. */
    method CopyLine(line: Bytes, now: int, days: nat)
      requires Valid() && Usable(line, now, days) && |hist| + |line| < LONG_END
      modifies this, dbz, dbz.corepag
      ensures Valid() && dbz == old(dbz) && dbz.corepag == old(dbz.corepag)
      ensures recs == RewrittenBy(dbz.s, old(recs), line, now, days)
      ensures |hist| <= |old(hist)| + |line|
    {
      if TAB !in line {
        return;
      }
      if Atol(RestOf(line)) + 99600 * days < now {
        return;
      }
      PartsOfLine(line, now, days);
      var _ := MyHISwrite(KeyOf(line), RestOf(line));
    }

    /** The loop of HISmaint over what is left of the old history. */
    method CopyLines(text: Bytes, start: nat, now: int, days: nat)
      requires Valid() && recs == [] && hist == []
      requires |text| < LONG_END && AllUsable(Pieces(text, start), now, days)
      modifies this, dbz, dbz.corepag
      ensures Valid() && dbz == old(dbz) && dbz.corepag == old(dbz.corepag)
      ensures recs == RebuiltBy(dbz.s, Pieces(text, start), now, days)
    {
      var pos := start;
      ghost var done: seq<Bytes> := [];
      while pos < |text|
        invariant Valid() && dbz == old(dbz) && dbz.corepag == old(dbz.corepag)
        invariant Copied(dbz.s, text, start, pos, done, recs, now, days) && |hist| <= pos
        decreases |text| - pos
      {
        NextPiece(dbz.s, text, start, pos, done, recs, now, days);
        var line;
        line, pos := Fgets(text, pos);
        CopyLine(line, now, days);
        done := done + [line];
      }
      AllCopied(dbz.s, text, start, pos, done, recs, now, days);
    }

    /** The first part of HISmaint: read the first line and look at its date. If there is none,
        the buffer is looked at as it is, with `stale` in it. */
    method IsDue(now: int, days: nat, stale: Bytes) returns (due: bool, pos: nat)
      requires Valid() && 86400 * days * 2 < 0x8000_0000
      ensures due <==> Due(FirstPiece(hist, stale), now, days)
      ensures if hist == [] then pos == 0 else Pieces(hist, pos) == Pieces(hist, 0)[1..]
    {
      var line := stale;
      pos := 0;
      if hist != [] {
        line, pos := Fgets(hist, 0);
      }
      due := TAB in line && Atol(RestOf(line)) + 86400 * days * 2 < now;
    }

    /** HISmaint() with `s` and `conf` for the new index: when the history is due, rebuild it from every
        piece that fgets reads of it but the first. The bound on `days` keeps its int arithmetic
        exact. */
    method HISmaint(now: int, days: nat, stale: Bytes, s: Scheme<Slot>, conf: D.Conf)
      requires Valid() && Sound(s) && TakesAll(s, LONG_END) && conf.used != []
      requires AllUsable(Pieces(hist, 0), now, days)
      requires 86400 * days * 2 < 0x8000_0000
      modifies this
      ensures Valid()
      ensures var due := Due(FirstPiece(old(hist), stale), now, days);
        && recs == (if due then RebuiltBy(s, Pieces(old(hist), 0), now, days) else old(recs))
        && (!due ==> hist == old(hist) && dbz == old(dbz))
    {
      var due, pos := IsDue(now, days, stale);
      if !due {
        return;
      }
      SkipsFirst(s, hist, pos, stale, now, days);
      var n := new History(s, conf);
      n.CopyLines(hist, pos, now, days);
      Replace(n);
    }

    /** The renames and the reopening at the end of HISmaint. */
    method Replace(n: History)
      requires n.Valid()
      modifies this
      ensures Valid() && recs == old(n.recs)
    {
      hist, dbz, recs := n.hist, n.dbz, n.recs;
    }
  }

  /** What is in the buffer after the first fgets(). */
  function FirstPiece(text: Bytes, stale: Bytes): Bytes {
    if text == [] then stale else Pieces(text, 0)[0]
  }

  lemma SkipsFirst(s: Scheme<Slot>, text: Bytes, pos: nat, stale: Bytes, now: int, days: nat)
    requires Sound(s) && Due(FirstPiece(text, stale), now, days) && AllUsable(Pieces(text, 0), now, days)
    requires if text == [] then pos == 0 else Pieces(text, pos) == Pieces(text, 0)[1..]
    ensures RebuiltBy(s, Pieces(text, pos), now, days) == RebuiltBy(s, Pieces(text, 0), now, days)
    ensures AllUsable(Pieces(text, pos), now, days)
  {
    if text != [] {
      FirstPieceExpired(s, Pieces(text, 0), now, days);
    }
  }

  /** The loop of HISmaint has read the pieces `done`, from `start` up to `pos`. */
  ghost predicate Copied(s: Scheme<Slot>, text: Bytes, start: nat, pos: nat, done: seq<Bytes>, copy: seq<Record>,
      now: int, days: nat)
    requires Sound(s)
  {
    done + Pieces(text, pos) == Pieces(text, start) && copy == RebuiltBy(s, done, now, days)
  }

  lemma NextPiece(s: Scheme<Slot>, text: Bytes, start: nat, pos: nat, done: seq<Bytes>, copy: seq<Record>,
      now: int, days: nat)
    requires Sound(s) && pos < |text| && AllUsable(Pieces(text, start), now, days)
    requires Copied(s, text, start, pos, done, copy, now, days)
    ensures var e := FgetsEnd(text, pos, LINEMAX);
      && Usable(text[pos..e], now, days)
      && Copied(s, text, start, e, done + [text[pos..e]], RewrittenBy(s, copy, text[pos..e], now, days), now, days)
  {
    var e := FgetsEnd(text, pos, LINEMAX);
    var line := text[pos..e];
    Grouped(done, [line], Pieces(text, e));
    assert Pieces(text, start)[|done|] == line;
    assert (done + [line])[..|done|] == done;
  }

  lemma AllCopied(s: Scheme<Slot>, text: Bytes, start: nat, pos: nat, done: seq<Bytes>, copy: seq<Record>,
      now: int, days: nat)
    requires Sound(s) && pos >= |text| && Copied(s, text, start, pos, done, copy, now, days)
    ensures copy == RebuiltBy(s, Pieces(text, start), now, days)
  {
    assert done + [] == done;
  }

  lemma NoNulInRest(now: nat, paths: Bytes)
    requires 0 !in paths
    ensures 0 !in RestFor(now, paths)
  {
  }

  lemma {:induction false} NoNulInText(recs: seq<Record>)
    requires AllKeyed(recs)
    ensures 0 !in Text(recs)
    decreases |recs|
  {
    if recs != [] {
      NoNulInText(recs[..|recs| - 1]);
      assert Keyed(recs[|recs| - 1]);
    }
  }

  lemma AppendRecord(recs: seq<Record>, r: Record)
    ensures Text(recs + [r]) == Text(recs) + LineOf(r)
    ensures LogOf(recs + [r]) ==
      if |r.id| < DBZMAXKEY then LogOf(recs) + [Entry(r.id, |Text(recs)|)] else LogOf(recs)
  {
    assert (recs + [r])[..|recs|] == recs;
  }

  /** The databases made by makedbz, without tags, take every file offset. */
  lemma UntaggedIsPlain(c: Config, hash: Bytes -> nat)
    requires c.Valid() && c.taghere == 0
    ensures Sound(c.Scheme(hash)) && TakesAll(c.Scheme(hash), LONG_END)
  {
    c.SchemeSound(hash);
    forall o: nat | o < LONG_END ensures c.Scheme(hash).okay(o) {
      c.UntaggedOkay(o);
    }
  }
}
