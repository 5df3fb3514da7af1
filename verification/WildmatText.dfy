/** The pattern language of innbbsd/wildmat.c as text: how patterns are written, character code by
    character code, what they match, and that there are no others. */
module WildmatText {
  import opened Basics
  import opened Wildmat

  /** Part of a class: a character, and the ends of the ranges that go on from it. In "a-m-z" one
      range goes on from the end of another. */
  datatype Run = Run(first: Char, ends: seq<Char>)

  /** Part of a pattern; `dash` is a dash before the closing bracket. */
  datatype Part =
    | Letter(c: Char)
    | Quoted(c: Char)
    | Question
    | Asterisk
    | Bracket(negated: bool, runs: seq<Run>, dash: bool)

  // ----- How it is written -----

  function Dash(dash: bool): seq<Char> {
    if dash then [45] else []
  }

  function Opening(negated: bool): seq<Char> {
    if negated then [91, 94] else [91]
  }

  /** The rest of a class, its closing bracket aside, after the first character of a run. */
  function Inside(ends: seq<Char>, runs: seq<Run>, dash: bool): seq<Char>
    decreases |runs|, |ends|
  {
    if ends != [] then [45, ends[0]] + Inside(ends[1..], runs, dash)
    else if runs != [] then [runs[0].first] + Inside(runs[0].ends, runs[1..], dash)
    else Dash(dash)
  }

  function Spelled(part: Part): seq<Char> {
    match part
    case Letter(c) => [c]
    case Quoted(c) => [92, c]
    case Question => [63]
    case Asterisk => [42]
    case Bracket(negated, runs, dash) => Opening(negated) + (Inside([], runs, dash) + [93])
  }

  function Spelling(parts: seq<Part>): seq<Char> {
    if parts == [] then [] else Spelled(parts[0]) + Spelling(parts[1..])
  }

  /** Ranges end at anything but a closing bracket. */
  predicate GoodEnds(ends: seq<Char>) {
    forall i :: 0 <= i < |ends| ==> ends[i] != 0 && ends[i] != 93
  }

  /** Runs do not start with a bracket or a dash, unless they are the first of their class. */
  predicate GoodRuns(runs: seq<Run>) {
    forall i :: 0 <= i < |runs| ==>
      runs[i].first != 0 && runs[i].first != 93 && runs[i].first != 45 && GoodEnds(runs[i].ends)
  }

  predicate Good(part: Part) {
    match part
    case Letter(c) => c != 0 && c != 92 && c != 63 && c != 42 && c != 91
    case Quoted(c) => c != 0
    case Question => true
    case Asterisk => true
    case Bracket(negated, runs, dash) =>
      runs != [] && runs[0].first != 0 && (!negated ==> runs[0].first != 94)
      && GoodEnds(runs[0].ends) && GoodRuns(runs[1..])
  }

  predicate AllGood(parts: seq<Part>) {
    forall i :: 0 <= i < |parts| ==> Good(parts[i])
  }

  // ----- What it means -----

  predicate InRanges(first: Char, ends: seq<Char>, c: Char)
    decreases |ends|
  {
    ends != [] && (first <= c <= ends[0] || InRanges(ends[0], ends[1..], c))
  }

  predicate InRun(run: Run, c: Char) {
    c == run.first || InRanges(run.first, run.ends, c)
  }

  predicate InRuns(runs: seq<Run>, c: Char) {
    exists i :: 0 <= i < |runs| && InRun(runs[i], c)
  }

  /** A part stands for one character, but an asterisk for any text. */
  predicate Fits(part: Part, piece: seq<Char>) {
    match part
    case Letter(c) => piece == [c]
    case Quoted(c) => piece == [c]
    case Question => |piece| == 1
    case Asterisk => true
    case Bracket(negated, runs, dash) =>
      |piece| == 1 && negated != (InRuns(runs, piece[0]) || (dash && piece[0] == 45))
  }

  /** The text in one piece for every part. */
  predicate InPieces(parts: seq<Part>, t: seq<Char>, pieces: seq<seq<Char>>) {
    && |pieces| == |parts|
    && Joined(pieces) == t
    && forall i :: 0 <= i < |parts| ==> Fits(parts[i], pieces[i])
  }

  // ----- The tokens -----

  function Spans(first: Char, ends: seq<Char>): seq<Item>
    decreases |ends|
  {
    if ends == [] then [] else [Span(first, ends[0])] + Spans(ends[0], ends[1..])
  }

  function ItemsOf(runs: seq<Run>, dash: bool): seq<Item> {
    if runs == [] then if dash then [One(45)] else []
    else [One(runs[0].first)] + (Spans(runs[0].first, runs[0].ends) + ItemsOf(runs[1..], dash))
  }

  function TokenOf(part: Part): Token {
    match part
    case Letter(c) => Lit(c)
    case Quoted(c) => Lit(c)
    case Question => Any
    case Asterisk => Star
    case Bracket(negated, runs, dash) => Class(negated, ItemsOf(runs, dash))
  }

  function TokensOf(parts: seq<Part>): (toks: seq<Token>)
    ensures |toks| == |parts|
  {
    if parts == [] then [] else [TokenOf(parts[0])] + TokensOf(parts[1..])
  }

  lemma {:induction false} TokenAt(parts: seq<Part>, i: nat)
    requires i < |parts|
    ensures TokensOf(parts)[i] == TokenOf(parts[i])
    decreases |parts|
  {
    if i > 0 {
      TokenAt(parts[1..], i - 1);
    }
  }

  lemma AnyHoldsConcat(a: seq<Item>, b: seq<Item>, c: Char)
    ensures AnyHolds(a + b, c) <==> AnyHolds(a, c) || AnyHolds(b, c)
  {
    assert forall item :: item in a + b <==> item in a || item in b;
  }

  lemma {:induction false} SpansHold(first: Char, ends: seq<Char>, c: Char)
    ensures AnyHolds(Spans(first, ends), c) <==> InRanges(first, ends, c)
    decreases |ends|
  {
    if ends != [] {
      SpansHold(ends[0], ends[1..], c);
      AnyHoldsCons(Span(first, ends[0]), Spans(ends[0], ends[1..]), c);
    }
  }

  lemma InRunsCons(runs: seq<Run>, c: Char)
    requires runs != []
    ensures InRuns(runs, c) <==> InRun(runs[0], c) || InRuns(runs[1..], c)
  {
    if InRuns(runs[1..], c) {
      var i :| 0 <= i < |runs[1..]| && InRun(runs[1..][i], c);
      assert runs[i + 1] == runs[1..][i];
    }
    if InRuns(runs, c) && !InRun(runs[0], c) {
      var i :| 0 <= i < |runs| && InRun(runs[i], c);
      assert runs[1..][i - 1] == runs[i];
    }
  }

  lemma {:induction false} ItemsHold(runs: seq<Run>, dash: bool, c: Char)
    ensures AnyHolds(ItemsOf(runs, dash), c) <==> InRuns(runs, c) || (dash && c == 45)
    decreases |runs|
  {
    if runs == [] {
      AnyHoldsCons(One(45), [], c);
    } else {
      var spans, more := Spans(runs[0].first, runs[0].ends), ItemsOf(runs[1..], dash);
      ItemsHold(runs[1..], dash, c);
      SpansHold(runs[0].first, runs[0].ends, c);
      AnyHoldsConcat(spans, more, c);
      AnyHoldsCons(One(runs[0].first), spans + more, c);
      InRunsCons(runs, c);
    }
  }

  lemma FitsIsCovers(part: Part, piece: seq<Char>)
    ensures Fits(part, piece) <==> Covers(TokenOf(part), piece)
  {
    if part.Bracket? && |piece| == 1 {
      ItemsHold(part.runs, part.dash, piece[0]);
    }
  }

  // ----- Reading what is written -----

  predicate Stands(p: seq<Char>, i: nat, a: seq<Char>) {
    i + |a| <= |p| && forall k {:trigger a[k]} :: 0 <= k < |a| ==> a[k] == p[i + k]
  }

  lemma StandsApart(p: seq<Char>, i: nat, a: seq<Char>, b: seq<Char>)
    requires Stands(p, i, a + b)
    ensures Stands(p, i, a) && Stands(p, i + |a|, b)
  {
    assert forall k :: 0 <= k < |a| ==> (a + b)[k] == a[k];
    forall k | 0 <= k < |b| ensures b[k] == p[i + |a| + k] {
      assert (a + b)[|a| + k] == b[k];
    }
  }

  lemma StandsBoth(p: seq<Char>, i: nat, a: seq<Char>, b: seq<Char>)
    requires Stands(p, i, a) && Stands(p, i + |a|, b)
    ensures Stands(p, i, a + b)
  {
    forall k | 0 <= k < |a + b| ensures (a + b)[k] == p[i + k] {
      assert (a + b)[k] == if k < |a| then a[k] else b[k - |a|];
    }
  }

  lemma StandsOne(p: seq<Char>, i: nat, c: Char)
    ensures Stands(p, i, [c]) <==> i < |p| && p[i] == c
  {
    assert [c][0] == c;
  }

  lemma StandsTwo(p: seq<Char>, i: nat, c: Char, d: Char)
    ensures Stands(p, i, [c, d]) <==> i + 1 < |p| && p[i] == c && p[i + 1] == d
  {
    assert [c, d][0] == c && [c, d][1] == d;
  }

  lemma StandsWhole(p: seq<Char>, a: seq<Char>)
    requires |a| == |p|
    ensures Stands(p, 0, a) <==> p == a
  {
  }

  lemma RangeRead(p: CString, i: nat, last: Char, items: seq<Item>, end: nat)
    requires i + 1 < |p| && p[i] == 45 && p[i + 1] != 93 && Items(p, i + 2, p[i + 1]) == Some((items, end))
    ensures Items(p, i, last) == Some(([Span(last, p[i + 1])] + items, end))
  {
  }

  lemma CharRead(p: CString, i: nat, last: Char, items: seq<Item>, end: nat)
    requires i < |p| && p[i] != 93 && (p[i] == 45 ==> At(p, i + 1) == 93)
    requires Items(p, i + 1, p[i]) == Some((items, end))
    ensures Items(p, i, last) == Some(([One(p[i])] + items, end))
  {
  }

  lemma CloseRead(p: CString, i: nat, last: Char)
    requires i < |p| && p[i] == 93
    ensures Items(p, i, last) == Some(([], i))
  {
  }

  /** The end of a class. */
  lemma EndRead(p: CString, i: nat, last: Char, dash: bool)
    requires Stands(p, i, Dash(dash)) && i + |Dash(dash)| < |p| && p[i + |Dash(dash)|] == 93
    ensures Items(p, i, last) == Some((ItemsOf([], dash), i + |Dash(dash)|))
  {
    if dash {
      StandsOne(p, i, 45);
      CloseRead(p, i + 1, 45);
      CharRead(p, i, last, [], i + 1);
      assert [One(45)] + [] == ItemsOf([], dash);
    } else {
      CloseRead(p, i, last);
    }
  }

  /** From behind the first character of a run to the closing bracket. */
  lemma {:induction false} ItemsRead(p: CString, i: nat, last: Char, ends: seq<Char>, runs: seq<Run>, dash: bool,
      end: nat)
    requires Stands(p, i, Inside(ends, runs, dash)) && end == i + |Inside(ends, runs, dash)| < |p| && p[end] == 93
    requires GoodEnds(ends) && GoodRuns(runs)
    ensures Items(p, i, last) == Some((Spans(last, ends) + ItemsOf(runs, dash), end))
    decreases |runs|, |ends|, 1
  {
    if ends != [] {
      StandsApart(p, i, [45, ends[0]], Inside(ends[1..], runs, dash));
      StandsTwo(p, i, 45, ends[0]);
      ItemsRead(p, i + 2, ends[0], ends[1..], runs, dash, end);
      RangeRead(p, i, last, Spans(ends[0], ends[1..]) + ItemsOf(runs, dash), end);
      Grouped([Span(last, ends[0])], Spans(ends[0], ends[1..]), ItemsOf(runs, dash));
    } else if runs != [] {
      RunRead(p, i, last, runs, dash, end);
    } else {
      EndRead(p, i, last, dash);
      assert [] + ItemsOf([], dash) == ItemsOf([], dash);
    }
  }

  lemma RunRead(p: CString, i: nat, last: Char, runs: seq<Run>, dash: bool, end: nat)
    requires Stands(p, i, Inside([], runs, dash)) && end == i + |Inside([], runs, dash)| < |p| && p[end] == 93
    requires GoodRuns(runs) && runs != []
    ensures Items(p, i, last) == Some(([] + ItemsOf(runs, dash), end))
    decreases |runs|, 0, 0
  {
    var run := runs[0];
    StandsApart(p, i, [run.first], Inside(run.ends, runs[1..], dash));
    StandsOne(p, i, run.first);
    ItemsRead(p, i + 1, run.first, run.ends, runs[1..], dash, end);
    CharRead(p, i, last, Spans(run.first, run.ends) + ItemsOf(runs[1..], dash), end);
    assert [] + ItemsOf(runs, dash) == ItemsOf(runs, dash);
  }

  lemma ClassStarts(p: CString, i: nat, part: Part, j: nat, items: seq<Item>, end: nat)
    requires i <= j && j + 1 < |p| && part.Bracket? && part.runs != []
    requires j == (if part.negated then i + 1 else i) && (At(p, i + 1) == 94 <==> part.negated)
    requires p[j + 1] == part.runs[0].first && Items(p, j + 2, p[j + 1]) == Some((items, end))
    requires [One(part.runs[0].first)] + items == ItemsOf(part.runs, part.dash)
    ensures ClassAt(p, i) == Some((TokenOf(part), end))
  {
    var first := p[j + 1];
    if first != 93 && first != 45 {
      CharRead(p, j + 1, p[j], items, end);
    }
  }

  lemma OpeningRead(p: seq<Char>, i: nat, negated: bool)
    requires Stands(p, i, Opening(negated))
    ensures i < |p| && p[i] == 91 && (negated ==> i + 1 < |p| && p[i + 1] == 94)
  {
    StandsOne(p, i, 91);
    StandsTwo(p, i, 91, 94);
  }

  lemma BracketApart(p: seq<Char>, i: nat, part: Part) returns (j: nat, end: nat)
    requires part.Bracket? && Stands(p, i, Spelled(part))
    ensures j == i + |Opening(part.negated)| && Stands(p, i, Opening(part.negated))
    ensures Stands(p, j, Inside([], part.runs, part.dash)) && end == j + |Inside([], part.runs, part.dash)|
    ensures Stands(p, end, [93]) && end + 1 == i + |Spelled(part)|
  {
    var inside := Inside([], part.runs, part.dash);
    StandsApart(p, i, Opening(part.negated), inside + [93]);
    j := i + |Opening(part.negated)|;
    StandsApart(p, j, inside, [93]);
    end := j + |inside|;
  }

  /** The whole class. */
  lemma BracketRead(p: CString, i: nat, part: Part)
    requires part.Bracket? && Good(part) && Stands(p, i, Spelled(part))
    ensures i < |p| && p[i] == 91 && ClassAt(p, i) == Some((TokenOf(part), i + |Spelled(part)| - 1))
  {
    var j, end := BracketApart(p, i, part);
    OpeningRead(p, i, part.negated);
    StandsOne(p, end, 93);
    BodyRead(p, i, j, part, end);
  }

  lemma BodyRead(p: CString, i: nat, j: nat, part: Part, end: nat)
    requires part.Bracket? && Good(part) && i < |p| && j == i + |Opening(part.negated)|
    requires p[i] == 91 && (part.negated ==> i + 1 < |p| && p[i + 1] == 94)
    requires Stands(p, j, Inside([], part.runs, part.dash))
    requires end == j + |Inside([], part.runs, part.dash)| < |p| && p[end] == 93
    ensures ClassAt(p, i) == Some((TokenOf(part), end))
  {
    var run, more := part.runs[0], part.runs[1..];
    StandsApart(p, j, [run.first], Inside(run.ends, more, part.dash));
    StandsOne(p, j, run.first);
    ItemsRead(p, j + 1, run.first, run.ends, more, part.dash, end);
    ClassStarts(p, i, part, j - 1, Spans(run.first, run.ends) + ItemsOf(more, part.dash), end);
  }

  lemma HeadRead(p: CString, i: nat, part: Part)
    requires Good(part) && Stands(p, i, Spelled(part))
    ensures i < |p| && Head(p, i) == Some((TokenOf(part), i + |Spelled(part)|))
  {
    match part
    case Letter(c) => StandsOne(p, i, c);
    case Quoted(c) => StandsTwo(p, i, 92, c);
    case Question => StandsOne(p, i, 63);
    case Asterisk => StandsOne(p, i, 42);
    case Bracket(negated, runs, dash) => BracketRead(p, i, part);
  }

  lemma ParseOne(p: CString, i: nat, tok: Token, next: nat, toks: seq<Token>)
    requires i < next <= |p| && Head(p, i) == Some((tok, next)) && Parse(p, next) == Some(toks)
    ensures Parse(p, i) == Some([tok] + toks)
  {
  }

  /** A pattern may end in a backslash that quotes nothing. */
  function Tail(loose: bool): seq<Char> {
    if loose then [92] else []
  }

  function TailTokens(loose: bool): seq<Token> {
    if loose then [Never] else []
  }

  /** The parts stand at `i`, and with the tail they are all that follows. */
  predicate Rest(p: seq<Char>, i: nat, parts: seq<Part>, loose: bool)
    decreases |parts|
  {
    if parts == [] then Stands(p, i, Tail(loose)) && i + |Tail(loose)| == |p|
    else Stands(p, i, Spelled(parts[0])) && Rest(p, i + |Spelled(parts[0])|, parts[1..], loose)
  }

  lemma FirstGood(parts: seq<Part>)
    requires parts != [] && AllGood(parts)
    ensures Good(parts[0]) && AllGood(parts[1..])
  {
  }

  lemma {:induction false} ParseSpelled(p: CString, i: nat, parts: seq<Part>, loose: bool)
    requires AllGood(parts) && Rest(p, i, parts, loose)
    ensures Parse(p, i) == Some(TokensOf(parts) + TailTokens(loose))
    decreases |parts|
  {
    if parts != [] {
      FirstGood(parts);
      HeadRead(p, i, parts[0]);
      var next := i + |Spelled(parts[0])|;
      ParseSpelled(p, next, parts[1..], loose);
      ParseOne(p, i, TokenOf(parts[0]), next, TokensOf(parts[1..]) + TailTokens(loose));
      Grouped([TokenOf(parts[0])], TokensOf(parts[1..]), TailTokens(loose));
    } else {
      LooseEnd(p, i, loose);
    }
  }

  lemma LooseEnd(p: CString, i: nat, loose: bool)
    requires Rest(p, i, [], loose)
    ensures Parse(p, i) == Some([] + TailTokens(loose))
  {
    if loose {
      StandsOne(p, i, 92);
      assert Head(p, i) == Some((Never, i + 1));
      ParseOne(p, i, Never, i + 1, []);
      assert [] + TailTokens(loose) == [Never] + [];
    } else {
      assert i == |p|;
      assert [] + TailTokens(loose) == [];
    }
  }

  lemma {:induction false} RestStands(p: seq<Char>, i: nat, parts: seq<Part>, loose: bool)
    ensures Rest(p, i, parts, loose) <==>
      Stands(p, i, Spelling(parts) + Tail(loose)) && i + |Spelling(parts)| + |Tail(loose)| == |p|
    decreases |parts|
  {
    if parts != [] {
      var first, more := Spelled(parts[0]), Spelling(parts[1..]) + Tail(loose);
      RestStands(p, i + |first|, parts[1..], loose);
      Grouped(first, Spelling(parts[1..]), Tail(loose));
      if Stands(p, i, first + more) {
        StandsApart(p, i, first, more);
      }
      if Stands(p, i, first) && Stands(p, i + |first|, more) {
        StandsBoth(p, i, first, more);
      }
    } else {
      assert [] + Tail(loose) == Tail(loose);
    }
  }

  lemma RestIs(p: seq<Char>, parts: seq<Part>, loose: bool)
    ensures Rest(p, 0, parts, loose) <==> p == Spelling(parts) + Tail(loose)
  {
    RestStands(p, 0, parts, loose);
    if |Spelling(parts) + Tail(loose)| == |p| {
      StandsWhole(p, Spelling(parts) + Tail(loose));
    }
  }

  /** A written pattern matches exactly the texts that can be cut into what its parts stand for. */
  lemma WrittenMatches(p: CString, parts: seq<Part>, t: seq<Char>)
    requires AllGood(parts) && p == Spelling(parts)
    ensures Closed(p) && (Globs(p, t) <==> exists pieces :: InPieces(parts, t, pieces))
  {
    assert p == p + Tail(false);
    RestIs(p, parts, false);
    ParseSpelled(p, 0, parts, false);
    var toks := TokensOf(parts);
    assert toks + TailTokens(false) == toks;
    MatchesIffCut(toks, t);
    forall pieces ensures InPieces(parts, t, pieces) <==> Cut(toks, t, pieces) {
      PiecesAreCut(parts, t, pieces);
    }
  }

  lemma PiecesAreCut(parts: seq<Part>, t: seq<Char>, pieces: seq<seq<Char>>)
    ensures InPieces(parts, t, pieces) <==> Cut(TokensOf(parts), t, pieces)
  {
    if |pieces| == |parts| {
      forall i | 0 <= i < |parts| ensures Fits(parts[i], pieces[i]) <==> Covers(TokensOf(parts)[i], pieces[i]) {
        FitsIsCovers(parts[i], pieces[i]);
        TokenAt(parts, i);
      }
    }
  }

  /** With a backslash at its end it matches nothing. */
  lemma LooseMatchesNothing(p: CString, parts: seq<Part>, t: seq<Char>)
    requires AllGood(parts) && p == Spelling(parts) + [92]
    ensures Closed(p) && !Globs(p, t)
  {
    RestIs(p, parts, true);
    ParseSpelled(p, 0, parts, true);
    var toks := TokensOf(parts) + TailTokens(true);
    MatchesIffCut(toks, t);
    forall pieces ensures !Cut(toks, t, pieces) {
      assert toks[|parts|] == Never;
      if |pieces| == |toks| {
        assert !Covers(toks[|parts|], pieces[|parts|]);
      }
    }
  }

  // ----- There are no other patterns -----

  lemma GoodEndsCons(h: Char, ends: seq<Char>)
    requires h != 0 && h != 93 && GoodEnds(ends)
    ensures GoodEnds([h] + ends) && ([h] + ends)[1..] == ends
  {
  }

  lemma GoodRunsCons(run: Run, runs: seq<Run>)
    requires run.first != 0 && run.first != 93 && run.first != 45 && GoodEnds(run.ends) && GoodRuns(runs)
    ensures GoodRuns([run] + runs) && ([run] + runs)[1..] == runs
  {
  }

  lemma RangeShape(p: seq<Char>, i: nat, ends: seq<Char>, runs: seq<Run>, dash: bool)
    requires i + 1 < |p| && p[i] == 45 && p[i + 1] != 0 && p[i + 1] != 93
    requires Stands(p, i + 2, Inside(ends, runs, dash)) && GoodEnds(ends)
    ensures Stands(p, i, Inside([p[i + 1]] + ends, runs, dash)) && GoodEnds([p[i + 1]] + ends)
    ensures |Inside([p[i + 1]] + ends, runs, dash)| == 2 + |Inside(ends, runs, dash)|
  {
    GoodEndsCons(p[i + 1], ends);
    StandsTwo(p, i, 45, p[i + 1]);
    StandsBoth(p, i, [45, p[i + 1]], Inside(ends, runs, dash));
  }

  lemma RunShape(p: seq<Char>, i: nat, ends: seq<Char>, runs: seq<Run>, dash: bool)
    requires i < |p| && p[i] != 0 && p[i] != 93 && p[i] != 45
    requires Stands(p, i + 1, Inside(ends, runs, dash)) && GoodEnds(ends) && GoodRuns(runs)
    ensures Stands(p, i, Inside([], [Run(p[i], ends)] + runs, dash)) && GoodRuns([Run(p[i], ends)] + runs)
    ensures |Inside([], [Run(p[i], ends)] + runs, dash)| == 1 + |Inside(ends, runs, dash)|
  {
    GoodRunsCons(Run(p[i], ends), runs);
    StandsOne(p, i, p[i]);
    StandsBoth(p, i, [p[i]], Inside(ends, runs, dash));
  }

  lemma {:induction false} ItemsShape(p: CString, i: nat, last: Char)
    returns (ends: seq<Char>, runs: seq<Run>, dash: bool)
    requires Items(p, i, last).Some?
    ensures Stands(p, i, Inside(ends, runs, dash)) && i + |Inside(ends, runs, dash)| == Items(p, i, last).value.1
    ensures GoodEnds(ends) && GoodRuns(runs)
    decreases |p| - i
  {
    ends, runs, dash := [], [], false;
    if p[i] == 93 {
    } else if p[i] == 45 && At(p, i + 1) != 93 {
      ends, runs, dash := ItemsShape(p, i + 2, p[i + 1]);
      RangeShape(p, i, ends, runs, dash);
      ends := [p[i + 1]] + ends;
    } else if p[i] == 45 {
      CloseRead(p, i + 1, 45);
      StandsOne(p, i, 45);
      dash := true;
    } else {
      ends, runs, dash := ItemsShape(p, i + 1, p[i]);
      RunShape(p, i, ends, runs, dash);
      ends, runs := [], [Run(p[i], ends)] + runs;
    }
  }

  lemma OtherFirst(p: CString, j: nat)
    requires j < |p| && Items(p, j + 1, p[j]).Some? && p[j + 1] != 93 && p[j + 1] != 45
    ensures Items(p, j + 2, p[j + 1]).Some? && Items(p, j + 2, p[j + 1]).value.1 == Items(p, j + 1, p[j]).value.1
  {
  }

  lemma ClassGoesOn(p: CString, i: nat, j: nat)
    requires i < |p| && p[i] == 91 && ClassAt(p, i).Some? && j == if At(p, i + 1) == 94 then i + 1 else i
    ensures j + 1 < |p| && Items(p, j + 2, p[j + 1]).Some?
    ensures Items(p, j + 2, p[j + 1]).value.1 == ClassAt(p, i).value.1
  {
    if At(p, j + 1) != 93 && At(p, j + 1) != 45 {
      OtherFirst(p, j);
    }
  }

  lemma BodyShape(p: CString, i: nat) returns (j: nat, end: nat, ends: seq<Char>, runs: seq<Run>, dash: bool)
    requires i < |p| && p[i] == 91 && ClassAt(p, i).Some?
    ensures end == ClassAt(p, i).value.1 < |p| && p[end] == 93
    ensures i + 1 < |p| && j == (if p[i + 1] == 94 then i + 2 else i + 1) && j < |p|
    ensures Stands(p, j + 1, Inside(ends, runs, dash)) && j + 1 + |Inside(ends, runs, dash)| == end
    ensures GoodEnds(ends) && GoodRuns(runs)
  {
    j := if At(p, i + 1) == 94 then i + 2 else i + 1;
    end := ClassAt(p, i).value.1;
    ClassGoesOn(p, i, j - 1);
    ends, runs, dash := ItemsShape(p, j + 1, p[j]);
  }

  lemma ClassShape(p: CString, i: nat) returns (part: Part)
    requires i < |p| && p[i] == 91 && ClassAt(p, i).Some?
    ensures Good(part) && Stands(p, i, Spelled(part)) && i + |Spelled(part)| == ClassAt(p, i).value.1 + 1
  {
    var j, end, ends, runs, dash := BodyShape(p, i);
    part := BracketShape(p, i, j, end, ends, runs, dash);
  }

  lemma BracketShape(p: CString, i: nat, j: nat, end: nat, ends: seq<Char>, runs: seq<Run>, dash: bool)
    returns (part: Part)
    requires i + 1 < |p| && p[i] == 91 && j == (if p[i + 1] == 94 then i + 2 else i + 1) && j < |p|
    requires Stands(p, j + 1, Inside(ends, runs, dash)) && j + 1 + |Inside(ends, runs, dash)| == end < |p|
    requires p[end] == 93 && GoodEnds(ends) && GoodRuns(runs)
    ensures Good(part) && Stands(p, i, Spelled(part)) && i + |Spelled(part)| == end + 1
  {
    var negated, all := p[i + 1] == 94, [Run(p[j], ends)] + runs;
    part := Bracket(negated, all, dash);
    assert all[1..] == runs;
    StandsOne(p, i, 91);
    StandsTwo(p, i, 91, 94);
    StandsOne(p, j, p[j]);
    StandsBoth(p, j, [p[j]], Inside(ends, runs, dash));
    StandsOne(p, end, 93);
    StandsBoth(p, j, Inside([], all, dash), [93]);
    StandsBoth(p, i, Opening(negated), Inside([], all, dash) + [93]);
  }

  lemma HeadShape(p: CString, i: nat) returns (part: Part)
    requires i < |p| && Head(p, i).Some? && (p[i] == 92 ==> i + 1 < |p|)
    ensures Good(part) && Stands(p, i, Spelled(part)) && i + |Spelled(part)| == Head(p, i).value.1
  {
    StandsOne(p, i, p[i]);
    if p[i] == 92 {
      StandsTwo(p, i, 92, p[i + 1]);
      part := Quoted(p[i + 1]);
    } else if p[i] == 63 {
      part := Question;
    } else if p[i] == 42 {
      part := Asterisk;
    } else if p[i] == 91 {
      part := ClassShape(p, i);
    } else {
      part := Letter(p[i]);
    }
  }

  lemma AddPart(part: Part, parts: seq<Part>)
    requires Good(part) && AllGood(parts)
    ensures AllGood([part] + parts) && ([part] + parts)[1..] == parts
  {
  }

  lemma {:induction false} ParseShape(p: CString, i: nat) returns (parts: seq<Part>, loose: bool)
    requires i <= |p| && Parse(p, i).Some?
    ensures AllGood(parts) && Rest(p, i, parts, loose)
    decreases |p| - i
  {
    parts, loose := [], false;
    if i < |p| {
      if p[i] == 92 && i + 1 == |p| {
        StandsOne(p, i, 92);
        loose := true;
      } else {
        var part := HeadShape(p, i);
        parts, loose := ParseShape(p, Head(p, i).value.1);
        AddPart(part, parts);
        parts := [part] + parts;
      }
    }
  }

  /** A pattern without an open class is written from parts, but for a backslash at its end. */
  lemma ClosedIff(p: CString)
    ensures Closed(p) <==> exists parts, loose :: AllGood(parts) && p == Spelling(parts) + Tail(loose)
  {
    if Closed(p) {
      var parts, loose := ParseShape(p, 0);
      RestIs(p, parts, loose);
    }
    forall parts, loose | AllGood(parts) && p == Spelling(parts) + Tail(loose) ensures Closed(p) {
      RestIs(p, parts, loose);
      ParseSpelled(p, 0, parts, loose);
    }
  }

  // ----- What follows for patterns of one kind -----

  function Singles(t: seq<Char>): (pieces: seq<seq<Char>>)
    ensures |pieces| == |t| && forall i :: 0 <= i < |t| ==> pieces[i] == [t[i]]
  {
    seq(|t|, i requires 0 <= i < |t| => [t[i]])
  }

  lemma {:induction false} SinglesJoined(t: seq<Char>)
    ensures Joined(Singles(t)) == t
    decreases |t|
  {
    if t != [] {
      assert Singles(t)[1..] == Singles(t[1..]);
      SinglesJoined(t[1..]);
    }
  }

  lemma AreSingles(pieces: seq<seq<Char>>) returns (t: seq<Char>)
    requires forall i :: 0 <= i < |pieces| ==> |pieces[i]| == 1
    ensures pieces == Singles(t) && Joined(pieces) == t
  {
    t := seq(|pieces|, i requires 0 <= i < |pieces| => pieces[i][0]);
    assert forall i :: 0 <= i < |t| ==> pieces[i] == [t[i]];
    assert pieces == Singles(t);
    SinglesJoined(t);
  }

  /** Without asterisks the text is matched character by character. */
  lemma CharByChar(p: CString, parts: seq<Part>, t: seq<Char>)
    requires AllGood(parts) && p == Spelling(parts) && Asterisk !in parts
    ensures Closed(p)
    ensures Globs(p, t) <==> |t| == |parts| && forall i :: 0 <= i < |parts| ==> Fits(parts[i], [t[i]])
  {
    WrittenMatches(p, parts, t);
    forall pieces | InPieces(parts, t, pieces)
      ensures |t| == |parts| && forall i :: 0 <= i < |parts| ==> Fits(parts[i], [t[i]])
    {
      forall i | 0 <= i < |parts| ensures |pieces[i]| == 1 {
        assert Fits(parts[i], pieces[i]);
      }
      var u := AreSingles(pieces);
    }
    if |t| == |parts| && forall i :: 0 <= i < |parts| ==> Fits(parts[i], [t[i]]) {
      SinglesJoined(t);
      assert InPieces(parts, t, Singles(t));
    }
  }

  lemma OnePart(p: CString, part: Part, t: seq<Char>)
    requires Good(part) && part != Asterisk && p == Spelled(part)
    ensures Closed(p) && (Globs(p, t) <==> |t| == 1 && Fits(part, t))
  {
    assert Spelling([part]) == p + [];
    CharByChar(p, [part], t);
    assert |t| == 1 ==> t == [t[0]];
  }

  function Questions(n: nat): seq<Part> { seq(n, _ => Question) }

  lemma {:induction false} QuestionsSpelled(n: nat)
    ensures Spelling(Questions(n)) == seq(n, _ => 63)
  {
    if n > 0 {
      QuestionsSpelled(n - 1);
      assert Questions(n)[1..] == Questions(n - 1);
      assert [63] + seq(n - 1, _ => 63) == seq(n, _ => 63);
    }
  }

  /** n question marks match the texts of length n. */
  lemma QuestionMarks(p: CString, n: nat, t: seq<Char>)
    requires p == seq(n, _ => 63)
    ensures Closed(p) && (Globs(p, t) <==> |t| == n)
  {
    QuestionsSpelled(n);
    CharByChar(p, Questions(n), t);
  }

  function Letters(s: seq<Char>): (parts: seq<Part>)
    ensures |parts| == |s| && forall i :: 0 <= i < |s| ==> parts[i] == Letter(s[i])
  {
    seq(|s|, i requires 0 <= i < |s| => Letter(s[i]))
  }

  /** No backslash, question mark, asterisk or opening bracket. */
  predicate PlainChars(s: seq<Char>) {
    forall c :: c in s ==> c !in {0, 92, 63, 42, 91}
  }

  lemma {:induction false} LettersSpelled(s: seq<Char>)
    requires PlainChars(s)
    ensures AllGood(Letters(s)) && Spelling(Letters(s)) == s
    decreases |s|
  {
    if s != [] {
      assert forall c :: c in s[1..] ==> c in s;
      LettersSpelled(s[1..]);
      assert Letters(s)[1..] == Letters(s[1..]);
      assert [s[0]] + s[1..] == s;
      forall i | 0 <= i < |s| ensures Good(Letters(s)[i]) {
        assert s[i] in s;
      }
    }
  }

  /** Text without special characters matches itself alone. */
  lemma PlainText(p: CString, t: seq<Char>)
    requires PlainChars(p)
    ensures Closed(p) && (Globs(p, t) <==> t == p)
  {
    LettersSpelled(p);
    CharByChar(p, Letters(p), t);
    if Globs(p, t) {
      forall i | 0 <= i < |p| ensures t[i] == p[i] {
        assert Fits(Letters(p)[i], [t[i]]);
      }
    }
  }

  function Quotes(s: seq<Char>): seq<Char> {
    if s == [] then [] else [92, s[0]] + Quotes(s[1..])
  }

  function QuotedParts(s: seq<Char>): (parts: seq<Part>)
    ensures |parts| == |s| && forall i :: 0 <= i < |s| ==> parts[i] == Quoted(s[i])
  {
    seq(|s|, i requires 0 <= i < |s| => Quoted(s[i]))
  }

  lemma {:induction false} QuotesSpelled(s: seq<Char>)
    ensures Spelling(QuotedParts(s)) == Quotes(s)
    decreases |s|
  {
    if s != [] {
      QuotesSpelled(s[1..]);
      assert QuotedParts(s)[1..] == QuotedParts(s[1..]);
    }
  }

  /** With a backslash before each character any text matches itself alone. */
  lemma QuotedText(p: CString, s: seq<Char>, t: seq<Char>)
    requires p == Quotes(s) && 0 !in s
    ensures Closed(p) && (Globs(p, t) <==> t == s)
  {
    QuotesSpelled(s);
    CharByChar(p, QuotedParts(s), t);
    if Globs(p, t) {
      forall i | 0 <= i < |s| ensures t[i] == s[i] {
        assert Fits(QuotedParts(s)[i], [t[i]]);
      }
    }
  }

  lemma RangeSpelled(lo: Char, hi: Char)
    ensures Spelled(Bracket(false, [Run(lo, [hi])], false)) == [91, lo, 45, hi, 93]
  {
    assert [hi][1..] == [] && [Run(lo, [hi])][1..] == [];
    assert Inside([hi], [], false) == [45, hi] + Inside([], [], false);
    assert Inside([], [Run(lo, [hi])], false) == [lo] + Inside([hi], [], false);
  }

  /** "[lo-hi]" matches the characters from lo to hi, and lo even if that is none of them. */
  lemma RangeOf(p: CString, lo: Char, hi: Char, t: seq<Char>)
    requires p == [91, lo, 45, hi, 93] && lo != 94 && hi != 93
    ensures Closed(p) && (Globs(p, t) <==> |t| == 1 && (t[0] == lo || lo <= t[0] <= hi))
  {
    assert p[1] == lo && p[3] == hi;
    var part := Bracket(false, [Run(lo, [hi])], false);
    RangeSpelled(lo, hi);
    OnePart(p, part, t);
    if |t| == 1 {
      assert InRuns(part.runs, t[0]) <==> InRun(part.runs[0], t[0]);
      assert InRanges(lo, [hi], t[0]) <==> lo <= t[0] <= hi;
    }
  }

  /** Characters that stand for themselves in a class. */
  predicate ClassChars(s: seq<Char>) {
    s != [] && forall i :: 0 <= i < |s| ==> s[i] != 0 && s[i] != 93 && s[i] != 45
  }

  function RunsOf(s: seq<Char>): (runs: seq<Run>)
    ensures |runs| == |s| && forall i :: 0 <= i < |s| ==> runs[i] == Run(s[i], [])
  {
    seq(|s|, i requires 0 <= i < |s| => Run(s[i], []))
  }

  lemma {:induction false} RunsSpelled(s: seq<Char>)
    ensures Inside([], RunsOf(s), false) == s
    decreases |s|
  {
    if s != [] {
      RunsSpelled(s[1..]);
      assert RunsOf(s)[1..] == RunsOf(s[1..]);
      assert [s[0]] + s[1..] == s;
    }
  }

  lemma InRunsOf(s: seq<Char>, c: Char)
    ensures InRuns(RunsOf(s), c) <==> c in s
  {
    if c in s {
      var i :| 0 <= i < |s| && s[i] == c;
      assert InRun(RunsOf(s)[i], c);
    }
  }

  lemma ClassOf(p: CString, negated: bool, s: seq<Char>, t: seq<Char>)
    requires ClassChars(s) && (!negated ==> s[0] != 94) && p == Opening(negated) + s + [93]
    ensures Closed(p) && (Globs(p, t) <==> |t| == 1 && negated != (t[0] in s))
  {
    var part := Bracket(negated, RunsOf(s), false);
    RunsSpelled(s);
    Grouped(Opening(negated), s, [93]);
    assert GoodRuns(part.runs[1..]);
    OnePart(p, part, t);
    if |t| == 1 {
      InRunsOf(s, t[0]);
    }
  }

  /** "[...]" matches one of the characters listed. */
  lemma OneOf(p: CString, s: seq<Char>, t: seq<Char>)
    requires ClassChars(s) && s[0] != 94 && p == [91] + s + [93]
    ensures Closed(p) && (Globs(p, t) <==> |t| == 1 && t[0] in s)
  {
    ClassOf(p, false, s, t);
  }

  /** "[^...]" matches any other one. */
  lemma NoneOf(p: CString, s: seq<Char>, t: seq<Char>)
    requires ClassChars(s) && p == [91, 94] + s + [93]
    ensures Closed(p) && (Globs(p, t) <==> |t| == 1 && t[0] !in s)
  {
    ClassOf(p, true, s, t);
  }

  lemma {:induction false} JoinedConcat(a: seq<seq<Char>>, b: seq<seq<Char>>)
    ensures Joined(a + b) == Joined(a) + Joined(b)
    decreases |a|
  {
    if a == [] {
      assert a + b == b;
    } else {
      assert (a + b)[1..] == a[1..] + b;
      JoinedConcat(a[1..], b);
    }
  }

  lemma {:induction false} SpellingConcat(a: seq<Part>, b: seq<Part>)
    ensures Spelling(a + b) == Spelling(a) + Spelling(b)
    decreases |a|
  {
    if a == [] {
      assert a + b == b;
    } else {
      assert (a + b)[1..] == a[1..] + b;
      SpellingConcat(a[1..], b);
      Grouped(Spelled(a[0]), Spelling(a[1..]), Spelling(b));
    }
  }

  function StarParts(a: seq<Char>, b: seq<Char>): seq<Part> {
    Letters(a) + [Asterisk] + Letters(b)
  }

  lemma GoodParts(a: seq<Part>, b: seq<Part>)
    requires AllGood(a) && AllGood(b)
    ensures AllGood(a + b)
  {
  }

  lemma StarSpelled(a: seq<Char>, b: seq<Char>)
    requires PlainChars(a) && PlainChars(b)
    ensures AllGood(StarParts(a, b)) && Spelling(StarParts(a, b)) == a + [42] + b
  {
    LettersSpelled(a);
    LettersSpelled(b);
    StarIsGood(a, b);
    SpellingConcat(Letters(a), [Asterisk]);
    SpellingConcat(Letters(a) + [Asterisk], Letters(b));
    assert Spelling([Asterisk]) == [42] + [];
  }

  lemma StarIsGood(a: seq<Char>, b: seq<Char>)
    requires AllGood(Letters(a)) && AllGood(Letters(b))
    ensures AllGood(StarParts(a, b))
  {
    GoodParts(Letters(a), [Asterisk]);
    GoodParts(Letters(a) + [Asterisk], Letters(b));
  }

  lemma StarPieces(a: seq<Char>, mid: seq<Char>, b: seq<Char>)
    ensures InPieces(StarParts(a, b), a + mid + b, Singles(a) + [mid] + Singles(b))
  {
    JoinedConcat(Singles(a), [mid]);
    JoinedConcat(Singles(a) + [mid], Singles(b));
    SinglesJoined(a);
    SinglesJoined(b);
    assert Joined([mid]) == mid + [];
  }

  /** An asterisk between plain texts leaves only the beginning and the end fixed. */
  lemma StarBetween(p: CString, a: seq<Char>, b: seq<Char>, t: seq<Char>)
    requires PlainChars(a) && PlainChars(b) && p == a + [42] + b
    ensures Closed(p)
    ensures Globs(p, t) <==> exists mid :: t == a + mid + b
  {
    StarSpelled(a, b);
    WrittenMatches(p, StarParts(a, b), t);
    forall pieces | InPieces(StarParts(a, b), t, pieces) ensures t == a + pieces[|a|] + b {
      MiddlePiece(StarParts(a, b), a, b, t, pieces);
    }
    forall mid | t == a + mid + b ensures InPieces(StarParts(a, b), t, Singles(a) + [mid] + Singles(b)) {
      StarPieces(a, mid, b);
    }
  }

  lemma MiddlePiece(parts: seq<Part>, a: seq<Char>, b: seq<Char>, t: seq<Char>, pieces: seq<seq<Char>>)
    requires parts == StarParts(a, b) && InPieces(parts, t, pieces)
    ensures t == a + pieces[|a|] + b
  {
    var front, mid, back := pieces[..|a|], [pieces[|a|]], pieces[|a| + 1..];
    assert pieces == front + mid + back;
    JoinedConcat(front, mid);
    JoinedConcat(front + mid, back);
    assert Joined(mid) == pieces[|a|] + [];
    forall i | 0 <= i < |a| ensures front[i] == [a[i]] {
      assert Fits(parts[i], pieces[i]);
    }
    forall i | 0 <= i < |b| ensures back[i] == [b[i]] {
      assert Fits(parts[|a| + 1 + i], pieces[|a| + 1 + i]);
    }
    assert front == Singles(a) && back == Singles(b);
    SinglesJoined(a);
    SinglesJoined(b);
  }
}
