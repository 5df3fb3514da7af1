/** What the runs of innbbsd/dbztool.c mean for the ids themselves, of which the daemon looks at the
    first 510 bytes, and for the dates that it prints. */
module HistoryIds {
  import opened DbzIndex
  import opened DateText
  import opened HistoryModel
  import opened HistoryRuns
  import HistoryMaint

  /** The same id, as far as the daemon can see. */
  predicate SameId(a: Bytes, b: Bytes) {
    a == b || (|a| >= 510 && |b| >= 510 && a[..510] == b[..510])
  }

  lemma SameCut(a: Bytes, b: Bytes)
    ensures SameId(a, b) <==> Cut(a) == Cut(b)
  {
    if |a| == 510 {
      assert a[..510] == a;
    }
    if |b| == 510 {
      assert b[..510] == b;
    }
    if |a| >= 510 && |b| >= 510 && a[..510] == b[..510] {
      assert |a| == 510 ==> Cut(a) == a[..510];
      assert |b| == 510 ==> Cut(b) == b[..510];
    }
  }

  /** Nothing that the daemon does or answers tells the ids apart. */
  ghost predicate TakenForOne(a: Bytes, b: Bytes) {
    && (forall recs :: Fetched(recs, a) == Fetched(recs, b))
    && forall recs, now, paths :: Step(Alive(recs), Storing(a, now, paths)) == Step(Alive(recs), Storing(b, now, paths))
  }

  /** Two ids are taken for one exactly if they agree in their first 510 bytes. */
  lemma TakenForOneIff(a: Bytes, b: Bytes)
    ensures TakenForOne(a, b) <==> SameId(a, b)
  {
    SameCut(a, b);
    if TakenForOne(a, b) {
      assert Step(Alive([]), Storing(a, 0, [])) == Step(Alive([]), Storing(b, 0, []));
      NewId(a);
      NewId(b);
    }
  }

  lemma NewId(mid: Bytes)
    ensures Step(Alive([]), Storing(mid, 0, [])) == Alive([RecordOf(Storing(mid, 0, []))])
  {
    assert [] + [RecordOf(Storing(mid, 0, []))] == [RecordOf(Storing(mid, 0, []))];
  }

  // ----- The line that is stored -----

  /** What storeDB adds to the history for an id that is not found: the id or its first 510
      bytes, the date and the paths. */
  lemma LineStored(recs: seq<Record>, mid: Bytes, now: nat, paths: Bytes)
    requires Fetched(recs, mid) == Missing
    ensures var st := Step(Alive(recs), Storing(mid, now, paths));
      && st.Alive?
      && Text(st.recs)
         == Text(recs) + ((if |mid| > 510 then mid[..510] else mid) + [9] + Decimal(now) + [9] + paths + [10])
  {
    var r := RecordOf(Storing(mid, now, paths));
    assert (recs + [r])[..|recs|] == recs;
    assert LineOf(r) == (if |mid| > 510 then mid[..510] else mid) + [9] + Decimal(now) + [9] + paths + [10];
  }

  // ----- What is answered for an id -----

  /** The first request that stores this id. */
  function FirstStored(reqs: seq<Request>, mid: Bytes): (k: nat)
    ensures k <= |reqs|
    ensures k < |reqs| ==> reqs[k].Storing? && SameId(reqs[k].mid, mid)
    ensures forall i :: 0 <= i < k && reqs[i].Storing? ==> !SameId(reqs[i].mid, mid)
  {
    if reqs == [] then 0
    else
      var n := |reqs| - 1;
      var k := FirstStored(reqs[..n], mid);
      if k < n then k else if reqs[n].Storing? && SameId(reqs[n].mid, mid) then n else n + 1
  }

  lemma {:induction false} RememberedFirst(reqs: seq<Request>, mid: Bytes)
    ensures var k := FirstStored(reqs, mid);
      && (Cut(mid) in Remembered(reqs) <==> k < |reqs|)
      && (k < |reqs| ==> Remembered(reqs)[Cut(mid)] == RestFor(reqs[k].now, reqs[k].paths))
    decreases |reqs|
  {
    if reqs != [] {
      RememberedFirst(reqs[..|reqs| - 1], mid);
      SameCut(reqs[|reqs| - 1].mid, mid);
    }
  }

  /** After any run DBfetch answers for every id from the request that first stored it: with the
      date and the paths of that request if the id has less than 255 bytes and the line no more
      than 1023. A line of 1024 bytes is missing if it is the last one; a longer line, and one of
      1024 with others behind it, is too long for the buffer. */
  lemma AnsweredFromFirst(reqs: seq<Request>, mid: Bytes)
    requires AllGoodRequests(reqs) && Run(reqs).Alive?
    ensures var recs, k := Run(reqs).recs, FirstStored(reqs, mid);
      Fetched(recs, mid) ==
      if k == |reqs| || |mid| >= 255 then Missing
      else
        var text := Decimal(reqs[k].now) + [9] + reqs[k].paths;
        var n := |mid| + 1 + |text| + 1;
        if n <= 1023 then Found(text)
        else if n == 1024 && FirstLine(recs, mid) == |recs| - 1 then Missing
        else OutOfBounds
  {
    var k := FirstStored(reqs, mid);
    AnswersRemember(reqs, Cut(mid));
    RememberedFirst(reqs, mid);
    if k < |reqs| {
      TextOfRest(reqs[k].now, reqs[k].paths);
    }
  }

  lemma TextOfRest(now: nat, paths: Bytes)
    ensures var rest := RestFor(now, paths); rest[..|rest| - 1] == Decimal(now) + [9] + paths
  {
  }

  /** As long as no id has more than 510 bytes, that is the request that first stored this very
      id. */
  lemma WholeIds(reqs: seq<Request>, mid: Bytes)
    requires |mid| <= 510 && forall i :: 0 <= i < |reqs| ==> |reqs[i].mid| <= 510
    ensures var k := FirstStored(reqs, mid);
      && (k < |reqs| ==> reqs[k].mid == mid)
      && forall i :: 0 <= i < k && reqs[i].Storing? ==> reqs[i].mid != mid
  {
    forall i | 0 <= i < |reqs| ensures SameId(reqs[i].mid, mid) <==> reqs[i].mid == mid {
      WholeId(reqs[i].mid, mid);
    }
  }

  lemma WholeId(a: Bytes, b: Bytes)
    requires |a| <= 510 && |b| <= 510
    ensures SameId(a, b) <==> a == b
  {
    assert |a| == 510 ==> a[..510] == a;
    assert |b| == 510 ==> b[..510] == b;
  }

  /** Two different ids of at most 510 bytes: after the first is stored the second is missing
      still, and storing it adds a line. */
  lemma OthersAreMissing(reqs: seq<Request>, a: Bytes, b: Bytes, now: nat, paths: Bytes)
    requires AllGoodRequests(reqs) && GoodRequest(Storing(a, now, paths)) && a != b && |a| <= 510 && |b| <= 510
    requires forall i :: 0 <= i < |reqs| ==> |reqs[i].mid| <= 510
    requires Run(reqs).Alive? && FirstStored(reqs, b) == |reqs| && Run(reqs + [Storing(a, now, paths)]).Alive?
    ensures Fetched(Run(reqs + [Storing(a, now, paths)]).recs, b) == Missing
  {
    var more := reqs + [Storing(a, now, paths)];
    assert more[..|reqs|] == reqs;
    WholeId(a, b);
    assert FirstStored(more, b) == |more|;
    AnsweredFromFirst(more, b);
  }

  // ----- Dates -----

  /** The number that decimal digits stand for. */
  function DigitsValue(d: Bytes): int {
    if d == [] then 0 else 10 * DigitsValue(d[..|d| - 1]) + (d[|d| - 1] as int - 48)
  }

  lemma DigitCode(n: nat)
    requires n < 10
    ensures Digit(n) as int == n + 48
  {
  }

  /** A number is printed in decimal digits, without leading zeros. */
  lemma {:induction false} DecimalIs(n: nat)
    ensures DigitsValue(Decimal(n)) == n && (n > 0 ==> Decimal(n)[0] != 48)
    ensures forall i :: 0 <= i < |Decimal(n)| ==> 48 <= Decimal(n)[i] <= 57
  {
    if n >= 10 {
      DecimalIs(n / 10);
      DigitCode(n % 10);
      var d := Decimal(n);
      assert d[..|d| - 1] == Decimal(n / 10) && d[0] == Decimal(n / 10)[0];
    } else {
      DigitCode(n);
      assert Decimal(n)[..0] == [];
      assert DigitsValue([]) == 0;
    }
  }

  /** A line that was stored at `date` is kept by an expiry at `now` exactly if it is no more than
      `days` times 99600 seconds old, and starts one exactly if it is more than `days` times
      172800 seconds old. */
  lemma KeptIff(id: Bytes, date: nat, paths: Bytes, now: int, days: nat)
    requires 9 !in id
    ensures var line := id + [9] + Decimal(date) + [9] + paths + [10];
      && (HistoryMaint.Passing(line, now, days) <==> date + 99600 * days >= now)
      && (HistoryMaint.Due(line, now, days) <==> date + 172800 * days < now)
      && HistoryMaint.KeyOf(line) == id
  {
    var line, rest := id + [9] + Decimal(date) + [9] + paths + [10], Decimal(date) + [9] + (paths + [10]);
    assert line == id + [9] + rest;
    assert line[|id|] == 9 && line[..|id|] == id;
    IndexIs(line, 9, |id|);
    assert HistoryMaint.RestOf(line) == rest;
    DateReadBack(date, paths + [10]);
  }
}
