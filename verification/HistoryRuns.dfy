/** Runs of storeDB and DBfetch of innbbsd/dbztool.c over a history that starts empty. */
module HistoryRuns {
  import opened DbzIndex
  import opened DateText
  import opened HistoryModel

  function Cut(mid: Bytes): Bytes {
    if |mid| > KEYCHARS then mid[..KEYCHARS] else mid
  }

  /** The text that HISwrite prints after the id and the first tab. */
  function RestFor(now: nat, paths: Bytes): Bytes {
    Decimal(now) + [TAB] + paths + [NEWLINE]
  }

  datatype Request = Fetching(mid: Bytes) | Storing(mid: Bytes, now: nat, paths: Bytes)

  function RecordOf(req: Request): Record
    requires req.Storing?
  {
    Record(Cut(req.mid), RestFor(req.now, req.paths))
  }

  /** The lines of the history, unless DBfetch has written past the end of its buffer. */
  datatype State = Alive(recs: seq<Record>) | Wrecked

  /** What DBfetch answers, as long as the index leads to an id's own line. */
  function Fetched(recs: seq<Record>, mid: Bytes): Answer {
    AnswerAt(recs, Cut(mid))
  }

  /** One request: storing an id that DBfetch does not find adds a line. */
  function Step(st: State, req: Request): State {
    match st
    case Wrecked => Wrecked
    case Alive(recs) =>
      match Fetched(recs, req.mid)
      case OutOfBounds => Wrecked
      case Found(_) => st
      case Missing => if req.Storing? then Alive(recs + [RecordOf(req)]) else st
  }

  function Run(reqs: seq<Request>): State {
    if reqs == [] then Alive([]) else Step(Run(reqs[..|reqs| - 1]), reqs[|reqs| - 1])
  }

  /** What the daemon wants of its history: the first text stored for an id. */
  function Remembered(reqs: seq<Request>): (m: map<Bytes, Bytes>)
    ensures forall id :: id in m ==> m[id] != []
  {
    if reqs == [] then map[] else Remember(Remembered(reqs[..|reqs| - 1]), reqs[|reqs| - 1])
  }

  function Remember(m: map<Bytes, Bytes>, req: Request): map<Bytes, Bytes> {
    if req.Storing? && Cut(req.mid) !in m then m[Cut(req.mid) := RestFor(req.now, req.paths)] else m
  }

  predicate GoodRequest(req: Request) {
    GoodId(Cut(req.mid)) && (req.Storing? ==> NEWLINE !in req.paths && 0 !in req.paths)
  }

  predicate AllGoodRequests(reqs: seq<Request>) {
    forall i :: 0 <= i < |reqs| ==> GoodRequest(reqs[i])
  }

  // ----- What grows and what stays -----

  /** The lines after a run are those after its first k requests and the lines `added` since. */
  lemma {:induction false} RunGrows(reqs: seq<Request>, k: nat) returns (added: seq<Record>)
    requires k <= |reqs| && Run(reqs).Alive?
    ensures Run(reqs[..k]).Alive? && Run(reqs).recs == Run(reqs[..k]).recs + added
    decreases |reqs|
  {
    var n := |reqs| - 1;
    if k > n {
      assert reqs[..k] == reqs;
      added := [];
    } else {
      assert reqs[..n][..k] == reqs[..k];
      var before := RunGrows(reqs[..n], k);
      added := StepGrows(Run(reqs[..k]).recs, before, reqs[n]);
    }
  }

  lemma StepGrows(recs: seq<Record>, before: seq<Record>, req: Request) returns (added: seq<Record>)
    requires Step(Alive(recs + before), req).Alive?
    ensures Step(Alive(recs + before), req).recs == recs + added
  {
    added := Step(Alive(recs + before), req).recs[|recs|..];
  }

  lemma {:induction false} Extended(recs: seq<Record>, more: seq<Record>, id: Bytes)
    ensures Text(recs) <= Text(recs + more)
    ensures FirstLine(recs, id) < |recs| ==> FirstLine(recs + more, id) == FirstLine(recs, id)
    decreases |more|
  {
    if more == [] {
      assert recs + more == recs;
    } else {
      var n := |more| - 1;
      Extended(recs, more[..n], id);
      assert recs + more == (recs + more[..n]) + [more[n]];
      FirstLineAppend(recs + more[..n], more[n], id);
      assert (recs + more)[..|recs| + n] == recs + more[..n];
    }
  }

  /** A line found in a text is found in every longer text. */
  lemma LineReadStays(text: Bytes, longer: Bytes, o: nat)
    requires text <= longer && LineRead(text, o).Found?
    ensures LineRead(longer, o) == LineRead(text, o)
  {
    var chunk, more := Chunk(text, o), Chunk(longer, o);
    assert chunk <= more;
    var p := IndexOf(chunk, NEWLINE);
    assert more[..p] == chunk[..p];
    IndexIs(more, NEWLINE, p);
  }

  lemma AnswerStays(recs: seq<Record>, more: seq<Record>, id: Bytes)
    requires AnswerAt(recs, id).Found?
    ensures AnswerAt(recs + more, id) == AnswerAt(recs, id)
  {
    Extended(recs, more, id);
    var i := FirstLine(recs, id);
    assert (recs + more)[..i] == recs[..i];
    LineReadStays(Text(recs), Text(recs + more), |Text(recs[..i])|);
  }

  /** Once DBfetch finds an id, it finds it with the same text after whatever else is done. */
  lemma RememberedStays(reqs: seq<Request>, k: nat, id: Bytes)
    requires k <= |reqs| && Run(reqs).Alive?
    requires Run(reqs[..k]).Alive? && AnswerAt(Run(reqs[..k]).recs, id).Found?
    ensures AnswerAt(Run(reqs).recs, id) == AnswerAt(Run(reqs[..k]).recs, id)
  {
    var added := RunGrows(reqs, k);
    AnswerStays(Run(reqs[..k]).recs, added, id);
  }

  // ----- What is remembered -----

  /** An id has a line if and only if it is remembered, the first with the same text. */
  predicate Agree(recs: seq<Record>, m: map<Bytes, Bytes>, id: Bytes) {
    var i := FirstLine(recs, id);
    (i < |recs| <==> id in m) && (i < |recs| ==> recs[i].rest == m[id])
  }

  lemma StepRemembers(recs: seq<Record>, m: map<Bytes, Bytes>, req: Request, id: Bytes)
    requires Agree(recs, m, id) && Step(Alive(recs), req).Alive?
    ensures Agree(Step(Alive(recs), req).recs, Remember(m, req), id)
  {
    if req.Storing? {
      FirstLineAppend(recs, RecordOf(req), id);
    }
  }

  /** After every run the ids with a line are exactly the ids stored in it, and the first line
      of each has the text of its first storing. */
  lemma {:induction false} RunRemembers(reqs: seq<Request>, id: Bytes)
    requires Run(reqs).Alive?
    ensures var recs := Run(reqs).recs; FirstLine(recs, id) < |recs| <==> id in Remembered(reqs)
    ensures id in Remembered(reqs)
            ==> Run(reqs).recs[FirstLine(Run(reqs).recs, id)].rest == Remembered(reqs)[id]
    decreases |reqs|
  {
    if reqs != [] {
      var before, req := reqs[..|reqs| - 1], reqs[|reqs| - 1];
      RunRemembers(before, id);
      StepRemembers(Run(before).recs, Remembered(before), req, id);
    }
  }

  lemma GoodRestFor(now: nat, paths: Bytes)
    requires NEWLINE !in paths && 0 !in paths
    ensures GoodRest(RestFor(now, paths))
  {
    var rest := RestFor(now, paths);
    assert rest[..|rest| - 1] == Decimal(now) + [TAB] + paths;
  }

  lemma {:induction false} RunIsGood(reqs: seq<Request>)
    requires AllGoodRequests(reqs) && Run(reqs).Alive?
    ensures AllGood(Run(reqs).recs)
    decreases |reqs|
  {
    if reqs != [] {
      var req := reqs[|reqs| - 1];
      RunIsGood(reqs[..|reqs| - 1]);
      if req.Storing? {
        GoodRestFor(req.now, req.paths);
      }
    }
  }

  /** The first line stored for an id. */
  function StoredLine(m: map<Bytes, Bytes>, id: Bytes): Bytes
    requires id in m
  {
    LineOf(Record(id, m[id]))
  }

  /** DBfetch's answer for an id, from what is remembered for it. */
  predicate AnsweredFrom(recs: seq<Record>, m: map<Bytes, Bytes>, id: Bytes)
    requires id in m ==> m[id] != []
  {
    AnswerAt(recs, id) ==
    if id !in m || |id| >= DBZMAXKEY then Missing
    else if |StoredLine(m, id)| <= READSIZE then Found(m[id][..|m[id]| - 1])
    else if |StoredLine(m, id)| == LEN && FirstLine(recs, id) == |recs| - 1 then Missing
    else OutOfBounds
  }

  lemma AgreedAnswer(recs: seq<Record>, m: map<Bytes, Bytes>, id: Bytes)
    requires AllGood(recs) && Agree(recs, m, id) && (id in m ==> m[id] != [])
    ensures AnsweredFrom(recs, m, id)
  {
    if Known(recs, id) {
      AnswerByLength(recs, id);
    }
  }

  /** After any run of good requests, DBfetch finds exactly the ids short enough for dbz that
      were stored with a line short enough for one read, each with the date and paths of its
      first storing. A longer line is not found if it is the last and longer by one byte;
      otherwise it is too long for the buffer. */
  lemma AnswersRemember(reqs: seq<Request>, id: Bytes)
    requires AllGoodRequests(reqs) && Run(reqs).Alive?
    ensures AnsweredFrom(Run(reqs).recs, Remembered(reqs), id)
  {
    RunIsGood(reqs);
    RunRemembers(reqs, id);
    AgreedAnswer(Run(reqs).recs, Remembered(reqs), id);
  }

  predicate AllMessageIds(recs: seq<Record>) {
    forall i :: 0 <= i < |recs| ==> IsMessageId(recs[i].id)
  }

  lemma {:induction false} RunHasMessageIds(reqs: seq<Request>)
    requires forall i :: 0 <= i < |reqs| ==> IsMessageId(Cut(reqs[i].mid))
    requires Run(reqs).Alive?
    ensures AllMessageIds(Run(reqs).recs)
    decreases |reqs|
  {
    if reqs != [] {
      RunHasMessageIds(reqs[..|reqs| - 1]);
    }
  }

  /** Among Message-IDs, which no other can begin with, the index always leads to an id's own
      line. */
  lemma {:induction false} MessageIdsAnswered(reqs: seq<Request>, id: Bytes)
    requires forall i :: 0 <= i < |reqs| ==> IsMessageId(Cut(reqs[i].mid))
    requires Run(reqs).Alive? && IsMessageId(id)
    ensures NoLonger(Run(reqs).recs, id)
  {
    var recs := Run(reqs).recs;
    RunHasMessageIds(reqs);
    forall i | 0 <= i < FirstLine(recs, id) ensures !(id <= recs[i].id) {
      if id <= recs[i].id {
        IdsArePrefixFree(id, recs[i].id);
      }
    }
  }

  /** The bytes of all lines that a run may store. */
  function SizeOf(reqs: seq<Request>): nat {
    if reqs == [] then 0 else SizeOf(reqs[..|reqs| - 1]) + LineSize(reqs[|reqs| - 1])
  }

  function LineSize(req: Request): nat {
    if req.Storing? then |LineOf(RecordOf(req))| else 0
  }

  /** The index never leads to another id's line. */
  predicate Unmistaken(reqs: seq<Request>) {
    forall k :: 0 <= k < |reqs| ==> UnmistakenAt(reqs, k)
  }

  predicate UnmistakenAt(reqs: seq<Request>, k: int)
    requires 0 <= k < |reqs|
  {
    Run(reqs[..k]).Alive? ==> NoLonger(Run(reqs[..k]).recs, Cut(reqs[k].mid))
  }

  lemma MessageIdsUnmistaken(reqs: seq<Request>)
    requires forall i :: 0 <= i < |reqs| ==> IsMessageId(Cut(reqs[i].mid))
    ensures Unmistaken(reqs)
  {
    forall k | 0 <= k < |reqs| ensures UnmistakenAt(reqs, k) {
      if Run(reqs[..k]).Alive? {
        MessageIdsAnswered(reqs[..k], Cut(reqs[k].mid));
      }
    }
  }

  // ----- Which requests the daemon survives -----

  /** The first line of `id` does not fit DBfetch's buffer. */
  predicate Overlong(recs: seq<Record>, id: Bytes) {
    && Known(recs, id)
    && var i := FirstLine(recs, id);
       |LineOf(recs[i])| > LEN || (|LineOf(recs[i])| == LEN && i < |recs| - 1)
  }

  lemma WreckedIff(recs: seq<Record>, req: Request)
    requires AllGood(recs)
    ensures Step(Alive(recs), req) == Wrecked <==> Overlong(recs, Cut(req.mid))
  {
    if Known(recs, Cut(req.mid)) {
      AnswerByLength(recs, Cut(req.mid));
    }
  }

  /** Every line stored fits one read. */
  predicate ShortStores(reqs: seq<Request>) {
    forall i :: 0 <= i < |reqs| && reqs[i].Storing? ==> |LineOf(RecordOf(reqs[i]))| <= READSIZE
  }

  lemma {:induction false} RunSurvives(reqs: seq<Request>)
    requires AllGoodRequests(reqs) && ShortStores(reqs)
    ensures Run(reqs).Alive?
    ensures forall i :: 0 <= i < |Run(reqs).recs| ==> |LineOf(Run(reqs).recs[i])| <= READSIZE
    decreases |reqs|
  {
    if reqs != [] {
      var before := reqs[..|reqs| - 1];
      RunSurvives(before);
      RunIsGood(before);
      WreckedIff(Run(before).recs, reqs[|reqs| - 1]);
    }
  }

  // ----- One line for each id -----

  predicate DistinctIds(recs: seq<Record>) {
    forall i, j :: 0 <= i < j < |recs| ==> recs[i].id != recs[j].id
  }

  lemma DistinctAppend(recs: seq<Record>, r: Record)
    ensures DistinctIds(recs + [r]) <==> DistinctIds(recs) && FirstLine(recs, r.id) == |recs|
  {
    var all := recs + [r];
    assert forall i :: 0 <= i < |recs| ==> all[i] == recs[i];
    if DistinctIds(all) {
      assert forall i :: 0 <= i < |recs| ==> recs[i].id != all[|recs|].id;
    }
  }

  /** If `req` stores an id again, dbz has the id and its first line can be read back. */
  predicate NotAgain(m: map<Bytes, Bytes>, req: Request) {
    req.Storing? && Cut(req.mid) in m ==>
      |Cut(req.mid)| < DBZMAXKEY && |StoredLine(m, Cut(req.mid))| <= READSIZE
  }

  predicate NotAgainAt(reqs: seq<Request>, k: int)
    requires 0 <= k < |reqs|
  {
    NotAgain(Remembered(reqs[..k]), reqs[k])
  }

  lemma SameBefore(reqs: seq<Request>, n: nat, k: nat)
    requires k < n <= |reqs|
    ensures NotAgainAt(reqs[..n], k) <==> NotAgainAt(reqs, k)
  {
    assert reqs[..n][..k] == reqs[..k];
  }

  predicate NeverAgain(reqs: seq<Request>) {
    forall k :: 0 <= k < |reqs| ==> NotAgainAt(reqs, k)
  }

  lemma NeverAgainStep(reqs: seq<Request>)
    requires reqs != []
    ensures var n := |reqs| - 1;
      NeverAgain(reqs) <==> NeverAgain(reqs[..n]) && NotAgainAt(reqs, n)
  {
    var n := |reqs| - 1;
    forall k | 0 <= k < n ensures NotAgainAt(reqs[..n], k) <==> NotAgainAt(reqs, k) {
      SameBefore(reqs, n, k);
    }
  }

  lemma UniqueStep(recs: seq<Record>, m: map<Bytes, Bytes>, req: Request)
    requires AllGood(recs) && Agree(recs, m, Cut(req.mid)) && Step(Alive(recs), req).Alive?
    ensures DistinctIds(Step(Alive(recs), req).recs) <==> DistinctIds(recs) && NotAgain(m, req)
  {
    if req.Storing? {
      DistinctAppend(recs, RecordOf(req));
      if Known(recs, Cut(req.mid)) {
        AnswerByLength(recs, Cut(req.mid));
      }
    }
  }

  /** A run leaves two lines for one id exactly when it stores an id again that is too long for
      dbz or whose first line is too long to be read back. */
  lemma {:induction false} UniqueIff(reqs: seq<Request>)
    requires AllGoodRequests(reqs) && Run(reqs).Alive?
    ensures DistinctIds(Run(reqs).recs) <==> NeverAgain(reqs)
    decreases |reqs|
  {
    if reqs != [] {
      var before, req := reqs[..|reqs| - 1], reqs[|reqs| - 1];
      UniqueIff(before);
      RunIsGood(before);
      RunRemembers(before, Cut(req.mid));
      UniqueStep(Run(before).recs, Remembered(before), req);
      NeverAgainStep(reqs);
    }
  }

  /** What `req` stores can be found afterwards. */
  predicate Findable(recs: seq<Record>, req: Request)
    requires req.Storing?
  {
    && |Cut(req.mid)| < DBZMAXKEY && |LineOf(RecordOf(req))| <= READSIZE
    && FirstLine(recs, Cut(req.mid)) == |recs|
  }

  /** Storing an id that is not found and then fetching it finds the text stored, exactly when
      the id fits dbz, its line one read, and it had no line before. */
  lemma StoreThenFetch(recs: seq<Record>, req: Request)
    requires AllGood(recs) && GoodRequest(req) && req.Storing? && AnswerAt(recs, Cut(req.mid)) == Missing
    ensures Step(Alive(recs), req) == Alive(recs + [RecordOf(req)])
    ensures var rest := RestFor(req.now, req.paths);
      AnswerAt(recs + [RecordOf(req)], Cut(req.mid)) == Found(rest[..|rest| - 1]) <==> Findable(recs, req)
    ensures !Findable(recs, req) ==> !AnswerAt(recs + [RecordOf(req)], Cut(req.mid)).Found?
  {
    var id, longer := Cut(req.mid), recs + [RecordOf(req)];
    GoodRestFor(req.now, req.paths);
    FirstLineAppend(recs, RecordOf(req), id);
    if Known(recs, id) {
      AnswerByLength(recs, id);
    }
    if Known(longer, id) {
      AnswerByLength(longer, id);
    }
  }

  /** Storing the same id again changes nothing, exactly when the first request finds it or
      stores it findably. */
  lemma RepeatedStore(recs: seq<Record>, req: Request, again: Request)
    requires AllGood(recs) && GoodRequest(req) && req.Storing? && again.Storing? && again.mid == req.mid
    ensures Step(Step(Alive(recs), req), again) == Step(Alive(recs), req) <==>
      AnswerAt(recs, Cut(req.mid)) != Missing || Findable(recs, req)
  {
    if AnswerAt(recs, Cut(req.mid)) == Missing {
      StoreThenFetch(recs, req);
      var longer := recs + [RecordOf(req)];
      assert |longer + [RecordOf(again)]| > |longer|;
    }
  }

  /** Three bytes of id, a date and 1017 bytes of paths: a line of 1024 bytes. */
  function LongStore(): (req: Request)
    ensures req.Storing? && GoodRequest(req) && |LineOf(RecordOf(req))| == LEN
  {
    Storing([60, 97, ANGLE], 0, seq(1017, _ => 65))
  }

  /** A line of LEN bytes at the end of the file is stored a second time. */
  lemma StoredTwice(recs: seq<Record>, req: Request)
    requires AllGood(recs) && GoodRequest(req) && req.Storing? && |Cut(req.mid)| < DBZMAXKEY
    requires FirstLine(recs, Cut(req.mid)) == |recs| && |LineOf(RecordOf(req))| == LEN
    ensures Step(Step(Alive(recs), req), req) == Alive(recs + [RecordOf(req)] + [RecordOf(req)])
  {
    var longer := recs + [RecordOf(req)];
    GoodRestFor(req.now, req.paths);
    FirstLineAppend(recs, RecordOf(req), Cut(req.mid));
    assert Step(Alive(recs), req) == Alive(longer);
    LastLineMissing(longer, Cut(req.mid));
  }

  /** The last line is not found by its id if it has LEN bytes. */
  lemma LastLineMissing(recs: seq<Record>, id: Bytes)
    requires AllGood(recs) && FirstLine(recs, id) < |recs| && |id| < DBZMAXKEY
    requires FirstLine(recs, id) == |recs| - 1 && |LineOf(recs[|recs| - 1])| == LEN
    ensures AnswerAt(recs, id) == Missing
  {
    AnswerByLength(recs, id);
  }

  lemma RunOfTwo(req: Request)
    ensures Run([req, req]) == Step(Step(Alive([]), req), req)
  {
    var one := [req];
    assert [req, req][..1] == one && one[..0] == [];
    assert Run(one) == Step(Run([]), req);
  }

  /** The id is short, but the line one byte too long: the second request stores it again. */
  lemma TwoLines()
    ensures Run([LongStore(), LongStore()]).Alive? && !DistinctIds(Run([LongStore(), LongStore()]).recs)
  {
    var req := LongStore();
    RunOfTwo(req);
    StoredTwice([], req);
    var recs := [] + [RecordOf(req)] + [RecordOf(req)];
    assert recs[0].id == recs[1].id;
  }
}
