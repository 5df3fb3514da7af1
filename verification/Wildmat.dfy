/** The shell-style matcher of innbbsd/wildmat.c: a three-valued backtracking matcher with
    ABORT pruning, proved equal to a declarative glob relation, with a linear bound on the
    number of times it is entered. */
module Wildmat {
  import opened Basics

  /** A C char as its integer value, signed or not: only its order matters. */
  type Char = int

  /** A C string without its terminating NUL. */
  type CString = s: seq<Char> | NUL !in s

  const NUL: Char := 0
  const STAR: Char := 42
  const QUERY: Char := 63
  const BACKSLASH: Char := 92
  const OPEN: Char := 91
  const CLOSE: Char := 93
  const CARET: Char := 94
  const DASH: Char := 45

  /** What *(s + i) reads, the terminating NUL included. */
  function At(s: CString, i: nat): Char {
    if i < |s| then s[i] else NUL
  }

  // ----- What a pattern means -----

  datatype Item = One(c: Char) | Span(lo: Char, hi: Char)

  /** `Never` is a backslash at the end of the pattern: it asks for the character NUL. */
  datatype Token = Lit(c: Char) | Any | Star | Class(negated: bool, items: seq<Item>) | Never

  predicate Holds(item: Item, c: Char) {
    match item
    case One(d) => c == d
    case Span(lo, hi) => lo <= c <= hi
  }

  predicate AnyHolds(items: seq<Item>, c: Char) {
    exists item :: item in items && Holds(item, c)
  }

  predicate Accepts(tok: Token, c: Char)
    requires tok != Star
  {
    match tok
    case Lit(d) => c == d
    case Any => true
    case Class(negated, items) => negated != AnyHolds(items, c)
    case Never => false
  }

  /** The glob relation, one token at a time. */
  ghost predicate Matches(toks: seq<Token>, t: seq<Char>)
    decreases |toks|
  {
    if toks == [] then t == []
    else if toks[0] == Star then exists k :: 0 <= k <= |t| && Matches(toks[1..], t[k..])
    else t != [] && Accepts(toks[0], t[0]) && Matches(toks[1..], t[1..])
  }

  /** One token covers one piece of the text: a star any piece, another token one character. */
  predicate Covers(tok: Token, piece: seq<Char>) {
    if tok == Star then true else |piece| == 1 && Accepts(tok, piece[0])
  }

  function Joined(pieces: seq<seq<Char>>): seq<Char> {
    if pieces == [] then [] else pieces[0] + Joined(pieces[1..])
  }

  /** The text cut into one piece for every token. */
  ghost predicate Cut(toks: seq<Token>, t: seq<Char>, pieces: seq<seq<Char>>) {
    && |pieces| == |toks|
    && Joined(pieces) == t
    && forall i :: 0 <= i < |toks| ==> Covers(toks[i], pieces[i])
  }

  /** The items of a class whose scan stands at `i`, after the character `last`, and the
      position of its closing bracket; None if the class is never closed. */
  function Items(p: CString, i: nat, last: Char): (r: Option<(seq<Item>, nat)>)
    ensures r.Some? ==> i <= r.value.1 < |p| && p[r.value.1] == CLOSE
    decreases |p| - i
  {
    if i >= |p| then None
    else if p[i] == CLOSE then Some(([], i))
    else if p[i] == DASH && At(p, i + 1) != CLOSE then
      if i + 1 >= |p| then None
      else match Items(p, i + 2, p[i + 1])
        case None => None
        case Some((items, end)) => Some(([Span(last, p[i + 1])] + items, end))
    else match Items(p, i + 1, p[i])
      case None => None
      case Some((items, end)) => Some(([One(p[i])] + items, end))
  }

  /** The class opened at `i`: its token and the position of its closing bracket. */
  function ClassAt(p: CString, i: nat): (r: Option<(Token, nat)>)
    requires i < |p|
    ensures r.Some? ==> i < r.value.1 < |p| && r.value.0.Class?
  {
    var negated := At(p, i + 1) == CARET;
    var j := if negated then i + 1 else i;
    var first := At(p, j + 1);
    if first == CLOSE || first == DASH then
      match Items(p, j + 2, first)
      case None => None
      case Some((items, end)) => Some((Class(negated, [One(first)] + items), end))
    else
      match Items(p, j + 1, p[j])
      case None => None
      case Some((items, end)) => Some((Class(negated, items), end))
  }

  /** The tokens of the pattern from `i` on; None if a class is left open. */
  function Parse(p: CString, i: nat): Option<seq<Token>>
    decreases |p| - i
  {
    if i >= |p| then Some([])
    else match Head(p, i)
      case None => None
      case Some((tok, next)) =>
        match Parse(p, next)
        case None => None
        case Some(toks) => Some([tok] + toks)
  }

  /** The token at `i` and where the next one starts. */
  function Head(p: CString, i: nat): (r: Option<(Token, nat)>)
    requires i < |p|
    ensures r.Some? ==> i < r.value.1 <= |p| && (r.value.0 == Star <==> p[i] == STAR)
  {
    if p[i] == BACKSLASH then
      if i + 1 < |p| then Some((Lit(p[i + 1]), i + 2)) else Some((Never, i + 1))
    else if p[i] == QUERY then Some((Any, i + 1))
    else if p[i] == STAR then Some((Star, i + 1))
    else if p[i] == OPEN then
      match ClassAt(p, i)
      case None => None
      case Some((tok, end)) => Some((tok, end + 1))
    else Some((Lit(p[i]), i + 1))
  }

  /** No class of the pattern is left open. */
  predicate Closed(p: CString) {
    Parse(p, 0).Some?
  }

  ghost predicate Globs(p: CString, t: seq<Char>) {
    Closed(p) && Matches(Parse(p, 0).value, t)
  }

  // ----- The two readings of the glob relation agree -----

  lemma {:induction false} MatchesIffCut(toks: seq<Token>, t: seq<Char>)
    ensures Matches(toks, t) <==> exists pieces :: Cut(toks, t, pieces)
  {
    if Matches(toks, t) {
      var pieces := CutOf(toks, t);
    }
    forall pieces | Cut(toks, t, pieces) ensures Matches(toks, t) {
      CutMatches(toks, t, pieces);
    }
  }

  lemma {:induction false} CutOf(toks: seq<Token>, t: seq<Char>) returns (pieces: seq<seq<Char>>)
    requires Matches(toks, t)
    ensures Cut(toks, t, pieces)
    decreases |toks|
  {
    if toks == [] {
      pieces := [];
    } else {
      var k := 1;
      if toks[0] == Star {
        k :| 0 <= k <= |t| && Matches(toks[1..], t[k..]);
      }
      var rest := CutOf(toks[1..], t[k..]);
      pieces := [t[..k]] + rest;
      assert pieces[1..] == rest;
      assert t[..k] + t[k..] == t;
      forall i | 0 <= i < |toks| ensures Covers(toks[i], pieces[i]) {
        assert i > 0 ==> toks[i] == toks[1..][i - 1];
      }
    }
  }

  lemma {:induction false} CutMatches(toks: seq<Token>, t: seq<Char>, pieces: seq<seq<Char>>)
    requires Cut(toks, t, pieces)
    ensures Matches(toks, t)
    decreases |toks|
  {
    if toks != [] {
      var k := |pieces[0]|;
      assert t[k..] == Joined(pieces[1..]);
      CutMatches(toks[1..], t[k..], pieces[1..]);
      assert Covers(toks[0], pieces[0]);
    }
  }

  // ----- The matcher -----

  datatype Verdict = True | False | Abort

  predicate IsTail(text: CString, ti: nat, k: int) {
    ti <= k <= |text|
  }

  /** Nothing of the text from `ti` on, whatever is dropped from its front, matches. */
  ghost predicate NoSuffix(toks: seq<Token>, text: CString, ti: nat) {
    forall k {:trigger IsTail(text, ti, k)} :: IsTail(text, ti, k) ==> !Matches(toks, text[k..])
  }

  lemma AnyHoldsCons(item: Item, items: seq<Item>, c: Char)
    ensures AnyHolds([item] + items, c) <==> Holds(item, c) || AnyHolds(items, c)
  {
    assert forall it :: it in [item] + items <==> it == item || it in items;
  }

  /** The same number of non-star tokens and characters has been taken off the front: what
      is left decides the text from `ti` on, and bounds every shorter suffix. */
  ghost predicate Consumed(all: seq<Token>, toks: seq<Token>, text: CString, ti: nat, t: nat)
    requires ti <= t <= |text|
  {
    && (Matches(all, text[ti..]) <==> Matches(toks, text[t..]))
    && forall k {:trigger IsTail(text, ti, k)} :: IsTail(text, ti, k) && Matches(all, text[k..]) ==>
         k + (t - ti) <= |text| && Matches(toks, text[k + (t - ti)..])
  }

  lemma ConsumeOne(all: seq<Token>, toks: seq<Token>, text: CString, ti: nat, t: nat)
    requires ti <= t < |text|
    requires Consumed(all, toks, text, ti, t)
    requires toks != [] && toks[0] != Star && Accepts(toks[0], text[t])
    ensures Consumed(all, toks[1..], text, ti, t + 1)
  {
    assert text[t..][1..] == text[t + 1..];
    forall k | IsTail(text, ti, k) && Matches(all, text[k..])
      ensures k + (t + 1 - ti) <= |text| && Matches(toks[1..], text[k + (t + 1 - ti)..])
    {
      assert text[k + (t - ti)..][1..] == text[k + (t + 1 - ti)..];
    }
  }

  lemma AbortCarries(all: seq<Token>, toks: seq<Token>, text: CString, ti: nat, t: nat)
    requires ti <= t <= |text|
    requires Consumed(all, toks, text, ti, t)
    requires NoSuffix(toks, text, t)
    ensures NoSuffix(all, text, ti)
  {
    forall k | IsTail(text, ti, k) ensures !Matches(all, text[k..]) {
      assert IsTail(text, t, k + (t - ti)) || k + (t - ti) > |text|;
    }
  }

  ghost predicate SameMatches(a: seq<Token>, b: seq<Token>) {
    forall t :: Matches(a, t) <==> Matches(b, t)
  }

  /** Two stars in a row are one star. */
  lemma SqueezeStar(all: seq<Token>, rest: seq<Token>)
    requires SameMatches(all, [Star] + ([Star] + rest))
    ensures SameMatches(all, [Star] + rest)
  {
    var one := [Star] + rest;
    assert ([Star] + one)[1..] == one && one[1..] == rest;
    forall t ensures Matches([Star] + one, t) <==> Matches(one, t) {
      if Matches([Star] + one, t) {
        var k :| 0 <= k <= |t| && Matches(one, t[k..]);
        var j :| 0 <= j <= |t[k..]| && Matches(rest, t[k..][j..]);
        assert t[k..][j..] == t[k + j..];
      }
      if Matches(one, t) {
        assert t[0..] == t;
      }
    }
  }

  /** The in-class scan of DoMatch: the loop over a class from `start` with the flag `matched`. */
  method ScanClass(c: Char, p: CString, start: nat, before: Char, already: bool)
    returns (matched: bool, end: nat)
    requires Items(p, start, before).Some?
    ensures end == Items(p, start, before).value.1
    ensures matched <==> already || AnyHolds(Items(p, start, before).value.0, c)
  {
    var last := before;
    matched := already;
    end := start;
    ghost var all := Items(p, start, before).value.0;
    while At(p, end) != NUL && At(p, end) != CLOSE
      invariant Items(p, end, last).Some?
      invariant Items(p, end, last).value.1 == Items(p, start, before).value.1
      invariant already || AnyHolds(all, c) <==> matched || AnyHolds(Items(p, end, last).value.0, c)
      decreases |p| - end
    {
      ghost var rest := Items(p, end, last).value.0;
      AnyHoldsCons(rest[0], rest[1..], c);
      if At(p, end) == DASH && At(p, end + 1) != CLOSE {
        end := end + 1;
        if c <= p[end] && c >= last {
          matched := true;
        }
      } else if c == p[end] {
        matched := true;
      }
      last := p[end];
      end := end + 1;
      assert Items(p, end, last).value.0 == rest[1..];
    }
  }

  /** The class case of DoMatch on the character `c`; `next` is past the closing bracket. */
  method MatchClass(c: Char, p: CString, start: nat) returns (ok: bool, next: nat)
    requires start < |p| && p[start] == OPEN && ClassAt(p, start).Some?
    ensures ok <==> Accepts(ClassAt(p, start).value.0, c)
    ensures next == ClassAt(p, start).value.1 + 1
  {
    var i := start;
    var negated := At(p, i + 1) == CARET;
    if negated {
      i := i + 1;
    }
    var matched, last := false, p[i];
    i := i + 1;
    ghost var first := At(p, i) == CLOSE || At(p, i) == DASH;
    if At(p, i) == CLOSE || At(p, i) == DASH {
      last := p[i];
      matched := last == c;
      i := i + 1;
    }
    ghost var items := Items(p, i, last).value.0;
    ghost var cls := ClassAt(p, start).value.0.items;
    assert cls == if first then [One(last)] + items else items;
    AnyHoldsCons(One(last), items, c);
    matched, i := ScanClass(c, p, i, last, matched);
    return matched != negated, i + 1;
  }

  /** The cases of DoMatch's switch that take one character of the text. */
  method MatchOne(c: Char, p: CString, start: nat) returns (ok: bool, next: nat)
    requires c != NUL && start < |p| && p[start] != STAR && Head(p, start).Some?
    ensures ok <==> Accepts(Head(p, start).value.0, c)
    ensures next == Head(p, start).value.1
  {
    var i := start;
    if p[i] == QUERY {
      return true, i + 1;
    } else if p[i] == OPEN {
      ok, next := MatchClass(c, p, i);
    } else {
      if p[i] == BACKSLASH {
        i := i + 1;
      }
      return c == At(p, i), if i < |p| then i + 1 else i;
    }
  }

  /** One instance of DoMatch on text + ti and p + pi. `calls` counts the instances entered,
      this one included. */
  method DoMatch(text: CString, ti: nat, p: CString, pi: nat) returns (r: Verdict, calls: nat)
    requires ti <= |text| && pi <= |p|
    requires Parse(p, pi).Some?
    ensures r == True ==> Matches(Parse(p, pi).value, text[ti..])
    ensures r == False ==> !Matches(Parse(p, pi).value, text[ti..]) && calls == 1
    ensures r == Abort ==> NoSuffix(Parse(p, pi).value, text, ti)
    ensures calls <= |text| - ti + 1
    ensures ti < |text| && At(p, pi) != STAR ==> calls <= |text| - ti
    decreases |p| - pi
  {
    calls := 1;
    ghost var all := Parse(p, pi).value;
    var t, i := ti, pi;
    while At(p, i) != NUL
      invariant ti <= t <= |text| && pi <= i <= |p|
      invariant Parse(p, i).Some?
      invariant t == ti ==> i == pi
      invariant Consumed(all, Parse(p, i).value, text, ti, t)
      invariant calls == 1
      decreases |p| - i
    {
      ghost var toks := Parse(p, i).value;
      if At(text, t) == NUL && p[i] != STAR {
        AbortCarries(all, toks, text, ti, t);
        return Abort, calls;
      }
      if p[i] == STAR {
        r, calls := StarLoop(text, t, p, i);
        if r == Abort {
          AbortCarries(all, toks, text, ti, t);
        }
        return;
      }
      var ok;
      ok, i := MatchOne(text[t], p, i);
      assert toks[1..] == Parse(p, i).value;
      if !ok {
        return False, calls;
      }
      ConsumeOne(all, toks, text, ti, t);
      t := t + 1;
    }
    assert text[t..] == [] <==> t == |text|;
    r := if At(text, t) == NUL then True else False;
  }

  /** Consecutive stars act just like one: `i` is where the pattern after them starts. */
  method SkipStars(p: CString, pi: nat) returns (i: nat)
    requires pi < |p| && p[pi] == STAR && Parse(p, pi).Some?
    ensures pi < i <= |p| && At(p, i) != STAR && Parse(p, i).Some?
    ensures SameMatches(Parse(p, pi).value, [Star] + Parse(p, i).value)
  {
    ghost var all := Parse(p, pi).value;
    i := pi + 1;
    assert [Star] + all[1..] == all;
    while At(p, i) == STAR
      invariant pi < i <= |p|
      invariant Parse(p, i).Some?
      invariant SameMatches(all, [Star] + Parse(p, i).value)
      decreases |p| - i
    {
      SqueezeStar(all, Parse(p, i + 1).value);
      i := i + 1;
    }
  }

  /** The star case of DoMatch, reached by its instance at text + ti and p + pi. */
  method StarLoop(text: CString, ti: nat, p: CString, pi: nat) returns (r: Verdict, calls: nat)
    requires ti <= |text| && pi < |p| && p[pi] == STAR
    requires Parse(p, pi).Some?
    ensures r != False
    ensures r == True ==> Matches(Parse(p, pi).value, text[ti..])
    ensures r == Abort ==> NoSuffix(Parse(p, pi).value, text, ti)
    ensures calls <= |text| - ti + 1
    decreases |p| - pi, 0
  {
    calls := 1;
    var i := SkipStars(p, pi);
    ghost var rest := Parse(p, i).value;
    if At(p, i) == NUL {
      StarMatches(rest, text, ti, |text|);
      return True, calls;
    }
    var t := ti;
    while At(text, t) != NUL
      invariant ti <= t <= |text|
      invariant calls == 1 + t - ti
      invariant Refuted(rest, text, ti, t)
      decreases |text| - t
    {
      var matched, inner := DoMatch(text, t, p, i);
      calls := calls + inner;
      if matched == True {
        StarMatches(rest, text, ti, t);
        return matched, calls;
      } else if matched == Abort {
        NoSuffixOfStar(rest, text, ti, t);
        return matched, calls;
      }
      RefuteOne(rest, text, ti, t);
      t := t + 1;
    }
    NoSuffixOfStar(rest, text, ti, t);
    return Abort, calls;
  }

  /** No starting position of the star-loop so far has matched. */
  ghost predicate Refuted(rest: seq<Token>, text: CString, ti: nat, t: nat)
    requires t <= |text|
  {
    forall k :: ti <= k < t ==> !Matches(rest, text[k..])
  }

  lemma RefuteOne(rest: seq<Token>, text: CString, ti: nat, t: nat)
    requires ti <= t < |text| && Refuted(rest, text, ti, t) && !Matches(rest, text[t..])
    ensures Refuted(rest, text, ti, t + 1)
  {
  }

  lemma StarMatches(rest: seq<Token>, text: CString, ti: nat, t: nat)
    requires ti <= t <= |text| && Matches(rest, text[t..])
    ensures Matches([Star] + rest, text[ti..])
  {
    assert ([Star] + rest)[1..] == rest;
    assert text[ti..][t - ti..] == text[t..];
  }

  /** If what follows a star matches no suffix, neither does the star. */
  lemma NoSuffixOfStar(rest: seq<Token>, text: CString, ti: nat, t: nat)
    requires ti <= t <= |text|
    requires Refuted(rest, text, ti, t) && NoSuffix(rest, text, t)
    ensures NoSuffix([Star] + rest, text, ti)
  {
    assert ([Star] + rest)[1..] == rest;
    forall k, j | IsTail(text, ti, k) && 0 <= j <= |text[k..]| ensures !Matches(rest, text[k..][j..]) {
      assert text[k..][j..] == text[k + j..];
      assert IsTail(text, t, k + j) || k + j < t;
    }
  }

  /** The user-level routine. */
  method Wildmat(text: CString, p: CString) returns (r: bool, calls: nat)
    requires Closed(p)
    ensures r <==> Globs(p, text)
    ensures calls <= |text| + 1
  {
    calls := 0;
    assert text[0..] == text;
    if At(p, 0) == STAR && At(p, 1) == NUL {
      assert Parse(p, 0).value == [Star];
      StarMatches([], text, 0, |text|);
      assert [Star] + [] == [Star];
      return true, calls;
    }
    var verdict;
    verdict, calls := DoMatch(text, 0, p, 0);
    assert IsTail(text, 0, 0);
    r := verdict == True;
  }
}
