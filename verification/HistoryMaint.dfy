/** Expiry of the history: what HISmaint of innbbsd/his.c keeps of the old file. */
module HistoryMaint {
  import opened Basics
  import opened DbzIndex
  import opened DateText
  import opened HistoryModel

  /** fgets() into maintbuff[4096] reads at most this many bytes. */
  const LINEMAX: nat := 4095

  /** Where fgets() stops: after a newline, after `n` bytes or at the end of the text. */
  function FgetsEnd(text: Bytes, pos: nat, n: nat): (e: nat)
    requires pos < |text| && n > 0
    ensures pos < e <= |text| && e <= pos + n
    decreases n
  {
    if text[pos] == NEWLINE || n == 1 || pos + 1 == |text| then pos + 1 else FgetsEnd(text, pos + 1, n - 1)
  }

  method Fgets(text: Bytes, pos: nat) returns (line: Bytes, next: nat)
    requires pos < |text|
    ensures next == FgetsEnd(text, pos, LINEMAX) && line == text[pos..next]
  {
    var n := LINEMAX;
    next := pos;
    while text[next] != NEWLINE && n > 1 && next + 1 < |text|
      invariant pos <= next < |text| && n > 0
      invariant FgetsEnd(text, pos, LINEMAX) == FgetsEnd(text, next, n)
      decreases n
    {
      next, n := next + 1, n - 1;
    }
    next := next + 1;
    line := text[pos..next];
  }

  /** What repeated fgets() calls read from `pos` on. */
  function Pieces(text: Bytes, pos: nat): (p: seq<Bytes>)
    ensures forall i :: 0 <= i < |p| ==> |p[i]| <= LINEMAX
    decreases |text| - pos
  {
    if pos >= |text| then []
    else
      var e := FgetsEnd(text, pos, LINEMAX);
      [text[pos..e]] + Pieces(text, e)
  }

  function KeyOf(line: Bytes): Bytes { line[..IndexOf(line, TAB)] }

  function RestOf(line: Bytes): Bytes
    requires TAB in line
  {
    assert IndexOf(line, TAB) < |line| by { assert line[..|line|] == line; }
    line[IndexOf(line, TAB) + 1..]
  }

  /** The history is due for expiry: its first line is more than twice `days` days old. */
  predicate Due(first: Bytes, now: int, days: nat) {
    TAB in first && Atol(RestOf(first)) + 86400 * days * 2 < now
  }

  /** A line passes the expiry test. */
  predicate Passing(line: Bytes, now: int, days: nat) {
    TAB in line && !(Atol(RestOf(line)) + 99600 * days < now)
  }

  /** The lines written by the loop of HISmaint. */
  function Rebuilt(lines: seq<Bytes>, now: int, days: nat): seq<Record> {
    if lines == [] then []
    else
      var n := |lines| - 1;
      Rewritten(Rebuilt(lines[..n], now, days), lines[n], now, days)
  }

  function Rewritten(recs: seq<Record>, line: Bytes, now: int, days: nat): seq<Record> {
    if Passing(line, now, days) && !Known(recs, KeyOf(line)) then recs + [Record(KeyOf(line), RestOf(line))] else recs
  }

  /** The same loop by the answers of the new index, `s`. A line that starts with a tab has
      no key to ask for. */
  ghost function RebuiltBy<V(!new)>(s: Scheme<V>, lines: seq<Bytes>, now: int, days: nat): seq<Record>
    requires Sound(s)
  {
    if lines == [] then []
    else
      var n := |lines| - 1;
      RewrittenBy(s, RebuiltBy(s, lines[..n], now, days), lines[n], now, days)
  }

  ghost function RewrittenBy<V(!new)>(s: Scheme<V>, recs: seq<Record>, line: Bytes, now: int, days: nat): seq<Record>
    requires Sound(s)
  {
    if Passing(line, now, days) && KeyOf(line) != [] && Located(s, recs, KeyOf(line)) == None
    then recs + [Record(KeyOf(line), RestOf(line))] else recs
  }

  /** A line that the loop can handle: if it is copied, it has a key. */
  predicate Usable(line: Bytes, now: int, days: nat) {
    0 !in line && (Passing(line, now, days) ==> KeyOf(line) != [])
  }

  predicate AllUsable(lines: seq<Bytes>, now: int, days: nat) {
    forall i :: 0 <= i < |lines| ==> Usable(lines[i], now, days)
  }

  /** The key of line j, if both lines are copied, does not begin the longer one of line i. */
  predicate Unlike(lines: seq<Bytes>, now: int, days: nat, i: int, j: int)
    requires 0 <= i < |lines| && 0 <= j < |lines|
  {
    var a, b := KeyOf(lines[i]), KeyOf(lines[j]);
    Passing(lines[i], now, days) && Passing(lines[j], now, days) && |a| < DBZMAXKEY && b <= a ==> b == a
  }

  /** No line that is copied has a key that begins the longer one of a line before it. */
  predicate NoKeyLonger(lines: seq<Bytes>, now: int, days: nat) {
    forall i, j :: 0 <= i < j < |lines| ==> Unlike(lines, now, days, i, j)
  }

  ghost predicate TakesAll<V(!new)>(s: Scheme<V>, size: nat) {
    forall o: nat :: o < size ==> s.okay(o)
  }

  lemma PartsOfLine(line: Bytes, now: int, days: nat)
    requires Usable(line, now, days) && Passing(line, now, days)
    ensures Keyed(Record(KeyOf(line), RestOf(line)))
    ensures LineOf(Record(KeyOf(line), RestOf(line))) == line
  {
  }

  /** One of the lines that pass has this key. */
  ghost predicate IsKeyOf(id: Bytes, lines: seq<Bytes>, now: int, days: nat) {
    exists j :: 0 <= j < |lines| && Passing(lines[j], now, days) && id == KeyOf(lines[j])
  }

  ghost predicate FromLines(recs: seq<Record>, lines: seq<Bytes>, now: int, days: nat) {
    forall i :: 0 <= i < |recs| ==> IsKeyOf(recs[i].id, lines, now, days)
  }

  lemma {:induction false} RebuiltFromLines(lines: seq<Bytes>, now: int, days: nat)
    requires AllUsable(lines, now, days)
    ensures AllKeyed(Rebuilt(lines, now, days)) && FromLines(Rebuilt(lines, now, days), lines, now, days)
    decreases |lines|
  {
    if lines != [] {
      var n := |lines| - 1;
      var before := Rebuilt(lines[..n], now, days);
      RebuiltFromLines(lines[..n], now, days);
      FromMoreLines(before, lines, n, now, days);
      if Passing(lines[n], now, days) {
        PartsOfLine(lines[n], now, days);
        OneMoreFrom(before, lines, n, Record(KeyOf(lines[n]), RestOf(lines[n])), now, days);
      }
    }
  }

  lemma FromMoreLines(recs: seq<Record>, lines: seq<Bytes>, n: nat, now: int, days: nat)
    requires n <= |lines| && FromLines(recs, lines[..n], now, days)
    ensures FromLines(recs, lines, now, days)
  {
    forall i | 0 <= i < |recs| ensures IsKeyOf(recs[i].id, lines, now, days) {
      var j := KeyAmong(recs[i].id, lines, n, now, days);
    }
  }

  lemma KeyAmong(id: Bytes, lines: seq<Bytes>, n: nat, now: int, days: nat) returns (j: nat)
    requires n <= |lines| && IsKeyOf(id, lines[..n], now, days)
    ensures j < n && Passing(lines[j], now, days) && id == KeyOf(lines[j])
  {
    j :| 0 <= j < n && Passing(lines[..n][j], now, days) && id == KeyOf(lines[..n][j]);
  }

  lemma OneMoreFrom(recs: seq<Record>, lines: seq<Bytes>, n: nat, r: Record, now: int, days: nat)
    requires n < |lines| && FromLines(recs, lines, now, days) && Passing(lines[n], now, days) && r.id == KeyOf(lines[n])
    requires AllKeyed(recs) && Keyed(r)
    ensures FromLines(recs + [r], lines, now, days) && AllKeyed(recs + [r])
  {
    assert IsKeyOf(r.id, lines, now, days);
  }

  /** A piece cut at an end of the buffer and the rest of its line. */
  lemma LongLine(r: Record)
    requires GoodRecord(r) && LINEMAX < |LineOf(r)| <= 2 * LINEMAX
    ensures Pieces(LineOf(r), 0) == [LineOf(r)[..LINEMAX], LineOf(r)[LINEMAX..]]
  {
    var line := LineOf(r);
    InnerBytes(r);
    NoNewlineTo(line, 0, LINEMAX);
    var tail := line[LINEMAX..|line| - 1];
    forall j | 0 <= j < |tail| ensures tail[j] != NEWLINE {
      assert tail[j] == line[LINEMAX + j];
    }
    FgetsLine(line, LINEMAX, |line|, LINEMAX);
    assert line[0..LINEMAX] == line[..LINEMAX] && line[LINEMAX..|line|] == line[LINEMAX..];
    TwoPieces(line, LINEMAX);
  }

  lemma TwoPieces(text: Bytes, e: nat)
    requires e < |text| && FgetsEnd(text, 0, LINEMAX) == e && FgetsEnd(text, e, LINEMAX) == |text|
    ensures Pieces(text, 0) == [text[0..e], text[e..|text|]]
  {
    assert Pieces(text, |text|) == [];
    assert Pieces(text, e) == [text[e..|text|]];
  }

  lemma {:induction false} NoNewlineTo(text: Bytes, pos: nat, n: nat)
    requires 0 < n && pos + n <= |text|
    requires forall j :: pos <= j < pos + n ==> text[j] != NEWLINE
    ensures FgetsEnd(text, pos, n) == pos + n
    decreases n
  {
    if n > 1 {
      NoNewlineTo(text, pos + 1, n - 1);
    }
  }

  /** A line too long for the buffer loses what comes after its first piece, the newline
      included, unless that holds a tab. */
  lemma LongLineIsCut(r: Record, now: int, days: nat)
    requires GoodRecord(r) && LINEMAX < |LineOf(r)| <= 2 * LINEMAX && TAB !in LineOf(r)[LINEMAX..]
    requires Passing(LineOf(r)[..LINEMAX], now, days)
    ensures LinesOf(Rebuilt(Pieces(LineOf(r), 0), now, days)) == [LineOf(r)[..LINEMAX]]
  {
    LongLine(r);
    var lines := [LineOf(r)[..LINEMAX], LineOf(r)[LINEMAX..]];
    RebuiltOfTwo(lines, now, days);
  }

  lemma RebuiltOfTwo(lines: seq<Bytes>, now: int, days: nat)
    requires |lines| == 2 && Passing(lines[0], now, days) && TAB !in lines[1]
    ensures LinesOf(Rebuilt(lines, now, days)) == [lines[0]]
  {
    RebuiltIsSelected(lines, now, days);
    assert Kept(lines, 0, now, days) && !Kept(lines, 1, now, days);
    assert Selected(lines, 0, now, days) == [];
    assert Selected(lines, 1, now, days) == [lines[0]];
  }

  lemma LogOffsets<V(!new)>(s: Scheme<V>, recs: seq<Record>, size: nat)
    requires TakesAll(s, size) && |Text(recs)| <= size
    ensures AllOkay(s, LogOf(recs))
  {
    LogEntries(recs);
  }

  lemma NothingLonger(recs: seq<Record>, lines: seq<Bytes>, n: nat, now: int, days: nat)
    requires n < |lines| && FromLines(recs, lines[..n], now, days) && NoKeyLonger(lines, now, days)
    requires Passing(lines[n], now, days)
    ensures NoLonger(recs, KeyOf(lines[n]))
  {
    var id := KeyOf(lines[n]);
    forall i | 0 <= i < FirstLine(recs, id) && |recs[i].id| < DBZMAXKEY ensures !(id <= recs[i].id) {
      assert IsKeyOf(recs[i].id, lines[..n], now, days);
      var j := KeyAmong(recs[i].id, lines, n, now, days);
      assert Unlike(lines, now, days, j, n);
    }
  }

  lemma RewrittenByIs<V(!new)>(s: Scheme<V>, recs: seq<Record>, line: Bytes, now: int, days: nat)
    requires Sound(s) && AllKeyed(recs) && AllOkay(s, LogOf(recs))
    requires Usable(line, now, days) && (Passing(line, now, days) ==> NoLonger(recs, KeyOf(line)))
    ensures RewrittenBy(s, recs, line, now, days) == Rewritten(recs, line, now, days)
  {
    if Passing(line, now, days) {
      PartsOfLine(line, now, days);
      HistoryFetch(s, recs, KeyOf(line));
    }
  }

  lemma RewrittenGrows(recs: seq<Record>, line: Bytes, now: int, days: nat)
    ensures |Text(recs)| <= |Text(Rewritten(recs, line, now, days))| <= |Text(recs)| + |line|
  {
    if TAB in line {
      var r := Record(KeyOf(line), RestOf(line));
      LineSplits(line);
      assert (recs + [r])[..|recs|] == recs;
    }
  }

  /** The index answers by exact ids as long as no key begins a longer one copied before it: then
      the loop leaves one line for every id that fits dbz. */
  lemma {:induction false} RebuiltByIs<V(!new)>(s: Scheme<V>, lines: seq<Bytes>, now: int, days: nat, size: nat)
    requires Sound(s) && TakesAll(s, size) && AllUsable(lines, now, days) && NoKeyLonger(lines, now, days)
    requires |Text(Rebuilt(lines, now, days))| <= size
    ensures RebuiltBy(s, lines, now, days) == Rebuilt(lines, now, days)
    decreases |lines|
  {
    if lines != [] {
      var n := |lines| - 1;
      var before := Rebuilt(lines[..n], now, days);
      RewrittenGrows(before, lines[n], now, days);
      forall i, j | 0 <= i < j < n ensures Unlike(lines[..n], now, days, i, j) {
        assert Unlike(lines, now, days, i, j);
      }
      RebuiltByIs(s, lines[..n], now, days, size);
      RebuiltFromLines(lines[..n], now, days);
      LogOffsets(s, before, size);
      if Passing(lines[n], now, days) {
        NothingLonger(before, lines, n, now, days);
      }
      RewrittenByIs(s, before, lines[n], now, days);
    }
  }

  // ----- What is kept, without reference to the index -----

  /** Line j passes and, unless its id is too long for dbz, no earlier passing line has its id. */
  predicate Kept(lines: seq<Bytes>, j: nat, now: int, days: nat)
    requires j < |lines|
  {
    && Passing(lines[j], now, days)
    && (|KeyOf(lines[j])| < DBZMAXKEY ==>
          forall i :: 0 <= i < j && Passing(lines[i], now, days) ==> KeyOf(lines[i]) != KeyOf(lines[j]))
  }

  /** The kept lines among the first m, in order. */
  function Selected(lines: seq<Bytes>, m: nat, now: int, days: nat): seq<Bytes>
    requires m <= |lines|
  {
    if m == 0 then []
    else Selected(lines, m - 1, now, days) + if Kept(lines, m - 1, now, days) then [lines[m - 1]] else []
  }

  function LinesOf(recs: seq<Record>): seq<Bytes> {
    seq(|recs|, i requires 0 <= i < |recs| => LineOf(recs[i]))
  }

  /** One of the first m lines passes and has this id. */
  predicate Passed(lines: seq<Bytes>, m: nat, id: Bytes, now: int, days: nat)
    requires m <= |lines|
  {
    exists i :: 0 <= i < m && Passing(lines[i], now, days) && KeyOf(lines[i]) == id
  }

  lemma PassedStep(lines: seq<Bytes>, n: nat, id: Bytes, now: int, days: nat)
    requires n + 1 == |lines|
    ensures Passed(lines, n + 1, id, now, days) <==>
      Passed(lines[..n], n, id, now, days) || (Passing(lines[n], now, days) && KeyOf(lines[n]) == id)
  {
    assert forall i :: 0 <= i < n ==> lines[..n][i] == lines[i];
  }

  lemma {:induction false} KnownIffPassed(lines: seq<Bytes>, id: Bytes, now: int, days: nat)
    requires |id| < DBZMAXKEY
    ensures Known(Rebuilt(lines, now, days), id) <==> Passed(lines, |lines|, id, now, days)
    decreases |lines|
  {
    if lines != [] {
      var n := |lines| - 1;
      KnownIffPassed(lines[..n], id, now, days);
      PassedStep(lines, n, id, now, days);
      RewrittenKnown(Rebuilt(lines[..n], now, days), lines[n], id, now, days);
    }
  }

  lemma RewrittenKnown(recs: seq<Record>, line: Bytes, id: Bytes, now: int, days: nat)
    requires |id| < DBZMAXKEY
    ensures Known(Rewritten(recs, line, now, days), id) <==>
      Known(recs, id) || (Passing(line, now, days) && KeyOf(line) == id)
  {
    if Passing(line, now, days) {
      FirstLineAppend(recs, Record(KeyOf(line), RestOf(line)), id);
    }
  }

  lemma {:induction false} SelectedPrefix(lines: seq<Bytes>, m: nat, n: nat, now: int, days: nat)
    requires m <= n <= |lines|
    ensures Selected(lines[..n], m, now, days) == Selected(lines, m, now, days)
    decreases m
  {
    if m > 0 {
      SelectedPrefix(lines, m - 1, n, now, days);
      assert forall i :: 0 <= i < n ==> lines[..n][i] == lines[i];
    }
  }

  lemma LineSplits(line: Bytes)
    requires TAB in line
    ensures LineOf(Record(KeyOf(line), RestOf(line))) == line
  {
  }

  /** The rebuilt history is, in order, exactly the old tabbed lines that pass the expiry test,
      one for each id. */
  lemma {:induction false} RebuiltIsSelected(lines: seq<Bytes>, now: int, days: nat)
    ensures LinesOf(Rebuilt(lines, now, days)) == Selected(lines, |lines|, now, days)
    decreases |lines|
  {
    if lines != [] {
      var n := |lines| - 1;
      RebuiltIsSelected(lines[..n], now, days);
      SelectedPrefix(lines, n, n, now, days);
      if Passing(lines[n], now, days) {
        var recs, r := Rebuilt(lines[..n], now, days), Record(KeyOf(lines[n]), RestOf(lines[n]));
        LineSplits(lines[n]);
        assert LinesOf(recs + [r]) == LinesOf(recs) + [LineOf(r)];
        KeptIffUnknown(lines, now, days);
      }
    }
  }

  lemma KeptIffUnknown(lines: seq<Bytes>, now: int, days: nat)
    requires lines != [] && Passing(lines[|lines| - 1], now, days)
    ensures Kept(lines, |lines| - 1, now, days) <==>
      !Known(Rebuilt(lines[..|lines| - 1], now, days), KeyOf(lines[|lines| - 1]))
  {
    var n := |lines| - 1;
    var before, id := lines[..n], KeyOf(lines[n]);
    assert forall i :: 0 <= i < n ==> before[i] == lines[i];
    if |id| < DBZMAXKEY {
      KnownIffPassed(before, id, now, days);
    }
  }

  /** The first line need not be looked at again: a history that is due has an expired one. */
  lemma {:induction false} FirstLineExpired(lines: seq<Bytes>, now: int, days: nat)
    requires lines != [] && Due(lines[0], now, days)
    ensures Rebuilt(lines, now, days) == Rebuilt(lines[1..], now, days)
    decreases |lines|
  {
    var n := |lines| - 1;
    if n == 0 {
      assert lines[..0] == [] && lines[1..] == [];
    } else {
      FirstLineExpired(lines[..n], now, days);
      assert lines[1..][..n - 1] == lines[..n][1..];
    }
  }

  lemma {:induction false} FirstPieceExpired<V(!new)>(s: Scheme<V>, lines: seq<Bytes>, now: int, days: nat)
    requires Sound(s) && lines != [] && Due(lines[0], now, days)
    ensures RebuiltBy(s, lines, now, days) == RebuiltBy(s, lines[1..], now, days)
    decreases |lines|
  {
    var n := |lines| - 1;
    if n == 0 {
      assert lines[..0] == [] && lines[1..] == [];
    } else {
      FirstPieceExpired(s, lines[..n], now, days);
      assert lines[1..][..n - 1] == lines[..n][1..];
    }
  }

  // ----- Reading the file gives the lines of its records -----

  predicate ShortLines(recs: seq<Record>) {
    forall i :: 0 <= i < |recs| ==> |LineOf(recs[i])| <= LINEMAX
  }

  /** fgets() at the start of a line that fits its buffer reads that line. */
  lemma {:induction false} FgetsLine(text: Bytes, pos: nat, e: nat, n: nat)
    requires pos < e <= |text| && e - pos <= n
    requires text[e - 1] == NEWLINE && NEWLINE !in text[pos..e - 1]
    ensures FgetsEnd(text, pos, n) == e
    decreases n
  {
    if pos + 1 < e {
      assert text[pos..e - 1][0] == text[pos];
      assert text[pos + 1..e - 1] == text[pos..e - 1][1..];
      FgetsLine(text, pos + 1, e, n - 1);
    }
  }

  lemma LineEnds(r: Record)
    requires GoodRecord(r)
    ensures var line := LineOf(r);
      line != [] && line[|line| - 1] == NEWLINE && NEWLINE !in line[..|line| - 1]
  {
    var line := LineOf(r);
    assert line[..|line| - 1] == r.id + [TAB] + r.rest[..|r.rest| - 1];
  }

  lemma FgetsPart(text: Bytes, pos: nat, line: Bytes)
    requires pos + |line| <= |text| && text[pos..pos + |line|] == line && 0 < |line| <= LINEMAX
    requires line[|line| - 1] == NEWLINE && NEWLINE !in line[..|line| - 1]
    ensures FgetsEnd(text, pos, LINEMAX) == pos + |line|
  {
    var e := pos + |line|;
    assert text[e - 1] == text[pos..e][|line| - 1];
    assert text[pos..e - 1] == text[pos..e][..|line| - 1];
    FgetsLine(text, pos, e, LINEMAX);
  }

  lemma NextStart(recs: seq<Record>, i: nat)
    requires i < |recs|
    ensures |Text(recs[..i + 1])| == |Text(recs[..i])| + |LineOf(recs[i])|
  {
    assert recs[..i + 1][..i] == recs[..i];
  }

  lemma ReadsRecord(recs: seq<Record>, i: nat)
    requires AllGood(recs) && ShortLines(recs) && i < |recs|
    ensures |Text(recs[..i])| < |Text(recs)|
    ensures FgetsEnd(Text(recs), |Text(recs[..i])|, LINEMAX) == |Text(recs[..i + 1])|
    ensures Text(recs)[|Text(recs[..i])|..|Text(recs[..i + 1])|] == LineOf(recs[i])
  {
    LineAt(recs, i);
    NextStart(recs, i);
    LineEnds(recs[i]);
    FgetsPart(Text(recs), |Text(recs[..i])|, LineOf(recs[i]));
  }

  lemma PieceHere(recs: seq<Record>, i: nat)
    requires AllGood(recs) && ShortLines(recs) && i < |recs|
    ensures Pieces(Text(recs), |Text(recs[..i])|) == [LineOf(recs[i])] + Pieces(Text(recs), |Text(recs[..i + 1])|)
  {
    ReadsRecord(recs, i);
  }

  lemma {:induction false} PiecesFrom(recs: seq<Record>, i: nat)
    requires AllGood(recs) && ShortLines(recs) && i <= |recs|
    ensures Pieces(Text(recs), |Text(recs[..i])|) == LinesOf(recs)[i..]
    decreases |recs| - i
  {
    if i == |recs| {
      assert recs[..i] == recs;
    } else {
      PieceHere(recs, i);
      PiecesFrom(recs, i + 1);
      LinesFrom(recs, i);
    }
  }

  lemma LinesFrom(recs: seq<Record>, i: nat)
    requires i < |recs|
    ensures LinesOf(recs)[i..] == [LineOf(recs[i])] + LinesOf(recs)[i + 1..]
  {
  }

  /** HISmaint reads the lines of the history exactly if they all fit its buffer. */
  lemma PiecesAreLinesIff(recs: seq<Record>)
    requires AllGood(recs)
    ensures Pieces(Text(recs), 0) == LinesOf(recs) <==> forall i :: 0 <= i < |recs| ==> |LineOf(recs[i])| <= 4095
  {
    if ShortLines(recs) {
      assert recs[..0] == [];
      PiecesFrom(recs, 0);
    }
    if Pieces(Text(recs), 0) == LinesOf(recs) {
      assert forall i :: 0 <= i < |recs| ==> LineOf(recs[i]) == LinesOf(recs)[i];
    }
  }

  lemma LineParts(r: Record)
    requires GoodRecord(r)
    ensures TAB in LineOf(r) && KeyOf(LineOf(r)) == r.id && RestOf(LineOf(r)) == r.rest
  {
    var line := LineOf(r);
    var i := IndexOf(line, TAB);
    assert line[|r.id|] == TAB;
    assert forall j :: 0 <= j < |r.id| ==> line[j] == r.id[j] != TAB;
    assert forall j :: 0 <= j < i ==> line[..i][j] == line[j] != TAB;
  }

  /** No id begins the longer one of a line before it. */
  predicate NoIdLonger(recs: seq<Record>) {
    forall i, j :: 0 <= i < j < |recs| && |recs[i].id| < DBZMAXKEY && recs[j].id <= recs[i].id
      ==> recs[j].id == recs[i].id
  }

  lemma LinesUsable(recs: seq<Record>, now: int, days: nat)
    requires AllGood(recs)
    ensures AllUsable(LinesOf(recs), now, days)
    ensures NoIdLonger(recs) ==> NoKeyLonger(LinesOf(recs), now, days)
  {
    forall i | 0 <= i < |recs| ensures KeyOf(LineOf(recs[i])) == recs[i].id && 0 !in LineOf(recs[i]) {
      assert GoodRecord(recs[i]);
      LineParts(recs[i]);
    }
  }

  lemma {:induction false} RebuiltSize(lines: seq<Bytes>, now: int, days: nat)
    ensures |Text(Rebuilt(lines, now, days))| <= Total(lines)
    decreases |lines|
  {
    if lines != [] {
      var n := |lines| - 1;
      RebuiltSize(lines[..n], now, days);
      RewrittenGrows(Rebuilt(lines[..n], now, days), lines[n], now, days);
    }
  }

  function Total(lines: seq<Bytes>): nat {
    if lines == [] then 0 else Total(lines[..|lines| - 1]) + |lines[|lines| - 1]|
  }

  lemma {:induction false} TotalOfLines(recs: seq<Record>)
    ensures Total(LinesOf(recs)) == |Text(recs)|
    decreases |recs|
  {
    if recs != [] {
      var n := |recs| - 1;
      TotalOfLines(recs[..n]);
      assert LinesOf(recs)[..n] == LinesOf(recs[..n]);
    }
  }

  /** A history of whole lines that fit the buffer, with ids of which none begins another, is
      rebuilt from those lines. */
  lemma WholeLinesRebuilt<V(!new)>(s: Scheme<V>, recs: seq<Record>, now: int, days: nat)
    requires Sound(s) && TakesAll(s, |Text(recs)|)
    requires AllGood(recs) && ShortLines(recs) && NoIdLonger(recs)
    ensures AllUsable(Pieces(Text(recs), 0), now, days)
    ensures RebuiltBy(s, Pieces(Text(recs), 0), now, days) == Rebuilt(LinesOf(recs), now, days)
  {
    PiecesAreLinesIff(recs);
    LinesUsable(recs, now, days);
    RebuiltSize(LinesOf(recs), now, days);
    TotalOfLines(recs);
    RebuiltByIs(s, LinesOf(recs), now, days, |Text(recs)|);
  }
}
