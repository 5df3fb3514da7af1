/** Who gets an article, and with which Path: isexcluded and feedfplog of innbbsd/inntobbs.c. */
module Feeds {
  import opened Paths

  const COMMA: char := ','
  const NUL: char := '\0'

  // ----- Exclusion lists -----

  /** Where an entry of a list begins and ends. */
  datatype Span = Span(from: nat, to: nat)

  /** The entries of an exclusion list from a place on; an empty one at its end does not count. */
  function SpansFrom(list: string, from: nat): seq<Span>
    requires from <= |list|
    decreases |list| - from
  {
    var c := FindFrom(list, COMMA, from);
    if from == |list| then []
    else [Span(from, c)] + if c == |list| then [] else SpansFrom(list, c + 1)
  }

  function Spans(list: string): seq<Span> {
    SpansFrom(list, 0)
  }

  function Entry(list: string, span: Span): string {
    if span.from <= span.to <= |list| then list[span.from..span.to] else ""
  }

  type Test = Span -> bool

  /** What isexcluded asks about the entries of its list. */
  function TestOf(path: string, list: string): Test {
    (span: Span) => Tested(path, Entry(list, span))
  }

  /** The first of some entries that passes a test is the one at `k`, or none if that is their number. */
  predicate FirstIs(hit: Test, spans: seq<Span>, k: nat) {
    k <= |spans| && (k < |spans| ==> hit(spans[k])) && forall i :: 0 <= i < k ==> !hit(spans[i])
  }

  function FirstHit(hit: Test, spans: seq<Span>): (k: nat)
    ensures FirstIs(hit, spans, k)
  {
    SomeFirst(hit, spans);
    var k: nat :| k <= |spans| && FirstIs(hit, spans, k);
    k
  }

  lemma {:induction false} SomeFirst(hit: Test, spans: seq<Span>)
    ensures exists k: nat :: k <= |spans| && FirstIs(hit, spans, k)
    decreases |spans|
  {
    if spans == [] {
      assert FirstIs(hit, spans, 0);
    } else {
      var front := spans[..|spans| - 1];
      SomeFirst(hit, front);
      var k: nat :| k <= |front| && FirstIs(hit, front, k);
      assert forall i :: 0 <= i < |front| ==> front[i] == spans[i];
      assert FirstIs(hit, spans, if k < |front| || hit(spans[k]) then k else |spans|);
    }
  }

  /** A node is passed over if its own name or one of its exclusions is on the path. */
  predicate Excluded(path: string, node: string, list: string) {
    Tested(path, node) || exists k :: 0 <= k < |Spans(list)| && Tested(path, Entry(list, Spans(list)[k]))
  }

  /** The exclusion list after isexcluded has answered: nothing is left after an entry that hit. */
  function After(path: string, node: string, list: string): string {
    if Tested(path, node) then list else Kept(list, FirstHit(TestOf(path, list), Spans(list)))
  }

  function Kept(list: string, k: nat): string {
    if k < |Spans(list)| && Spans(list)[k].to <= |list| then list[..Spans(list)[k].to] else list
  }

  lemma ExcludedIs(path: string, node: string, list: string)
    ensures Excluded(path, node, list)
            <==> Tested(path, node) || FirstHit(TestOf(path, list), Spans(list)) < |Spans(list)|
  {
    var hit, spans := TestOf(path, list), Spans(list);
    var k := FirstHit(hit, spans);
    if k < |spans| {
      assert hit(spans[k]);
    } else {
      assert forall i :: 0 <= i < |spans| ==> !hit(spans[i]);
    }
  }

  lemma {:induction false} SpansInside(list: string, from: nat)
    requires from <= |list|
    ensures forall span :: span in SpansFrom(list, from) ==> span.from <= span.to <= |list|
    decreases |list| - from
  {
    var c := FindFrom(list, COMMA, from);
    if from < |list| && c < |list| {
      SpansInside(list, c + 1);
    }
  }

  /** What is left of entries after a hit with a comma after it: those up to it, itself too
      unless it is empty. */
  function UpToHit(spans: seq<Span>, k: nat): seq<Span>
    requires k <= |spans|
  {
    if k == |spans| then spans else if spans[k].from == spans[k].to then spans[..k] else spans[..k + 1]
  }

  /** What isexcluded leaves of a list has the entries up to the one that hit. */
  lemma {:induction false} SpansCut(list: string, left: string, from: nat, k: nat)
    requires from <= |list| && k < |SpansFrom(list, from)| && SpansFrom(list, from)[k].to <= |list|
    requires left == list[..SpansFrom(list, from)[k].to]
    ensures from <= |left| && SpansFrom(left, from) == UpToHit(SpansFrom(list, from), k)
    decreases k
  {
    var c := FindFrom(list, COMMA, from);
    if k == 0 {
      FirstSpan(list, left, from, c);
    } else {
      var more := SpansFrom(list, c + 1);
      assert SpansFrom(list, from)[k] == more[k - 1];
      SpansCut(list, left, c + 1, k - 1);
      NextSpan(left, list, from, c);
      UpToNext(Span(from, c), more, k - 1);
    }
  }

  lemma FirstSpan(list: string, left: string, from: nat, c: nat)
    requires from < |list| && c == FindFrom(list, COMMA, from) && left == list[..c]
    ensures SpansFrom(left, from) == UpToHit(SpansFrom(list, from), 0)
  {
    SameFind(left, COMMA, from, c);
    assert SpansFrom(list, from)[..1] == [Span(from, c)];
  }

  lemma NextSpan(left: string, list: string, from: nat, c: nat)
    requires left <= list && from <= c < |left| && c == FindFrom(list, COMMA, from)
    ensures SpansFrom(left, from) == [Span(from, c)] + SpansFrom(left, c + 1)
  {
    SameFind(left, COMMA, from, c);
  }

  lemma UpToNext(first: Span, spans: seq<Span>, k: nat)
    requires k <= |spans|
    ensures UpToHit([first] + spans, k + 1) == [first] + UpToHit(spans, k)
  {
    var all := [first] + spans;
    if k < |spans| {
      assert all[..k + 1] == [first] + spans[..k];
      assert all[..k + 2] == [first] + spans[..k + 1];
    }
  }

  lemma SameFind(s: string, ch: char, from: nat, c: nat)
    requires FirstAt(s, ch, from, c)
    ensures FindFrom(s, ch, from) == c
  {
  }

  lemma {:induction false} SpanEnds(list: string, from: nat, k: nat)
    requires from <= |list| && k < |SpansFrom(list, from)|
    ensures SpansFrom(list, from)[k].to == |list| <==> k == |SpansFrom(list, from)| - 1 && list[|list| - 1] != COMMA
    decreases k
  {
    var c := FindFrom(list, COMMA, from);
    if c < |list| {
      var more := SpansFrom(list, c + 1);
      assert SpansFrom(list, from) == [Span(from, c)] + more;
      if k > 0 {
        SpanEnds(list, c + 1, k - 1);
      } else if c + 1 == |list| {
        assert more == [];
      } else {
        assert more != [];
      }
    }
  }

  /** The comma overwritten for a test is put back unless the entry before it hits: the list
      comes out unchanged exactly if nothing hits, or only its last entry with no comma after. */
  lemma RestoredIff(list: string, k: nat)
    requires k <= |Spans(list)|
    ensures Kept(list, k) == list <==> k == |Spans(list)| || (k == |Spans(list)| - 1 && list[|list| - 1] != COMMA)
  {
    if k < |Spans(list)| {
      SpanEnds(list, 0, k);
      SpansInside(list, 0);
      assert Spans(list)[k] in Spans(list);
      Whole(list, Spans(list)[k].to);
    }
  }

  lemma Whole(list: string, n: nat)
    requires n <= |list|
    ensures list[..n] == list <==> n == |list|
  {
  }

  /** Whether an entry is on the path does not depend on what comes after it. */
  lemma SameEntry(list: string, left: string, span: Span)
    requires left <= list && span.from <= span.to <= |left|
    ensures Entry(left, span) == Entry(list, span)
  {
  }

  /** Asking again about the same article gets the same answer unless the entry that hit was
      empty, as it can be for a path with an empty name: then the list has lost it. */
  lemma SameAnswerIff(path: string, node: string, list: string)
    ensures var k := FirstHit(TestOf(path, list), Spans(list));
      (Excluded(path, node, After(path, node, list)) <==> Excluded(path, node, list))
      <==> Tested(path, node) || k == |Spans(list)| || Spans(list)[k].from != Spans(list)[k].to
  {
    var hit, spans, k := TestOf(path, list), Spans(list), FirstHit(TestOf(path, list), Spans(list));
    if !Tested(path, node) && k < |spans| {
      assert hit(spans[k]);
      if spans[k].from == spans[k].to {
        NotExcluded(hit, path, list, k);
      } else {
        StillExcluded(path, list, k);
      }
    }
  }

  lemma StillExcluded(path: string, list: string, k: nat)
    requires k < |Spans(list)| && Tested(path, Entry(list, Spans(list)[k])) && Spans(list)[k].from != Spans(list)[k].to
    ensures k < |Spans(Kept(list, k))| && Tested(path, Entry(Kept(list, k), Spans(Kept(list, k))[k]))
  {
    var span, left := Spans(list)[k], Kept(list, k);
    SpansInside(list, 0);
    assert span in Spans(list);
    SpansCut(list, left, 0, k);
    assert Spans(left)[k] == span;
    SameEntry(list, left, span);
  }

  lemma NotExcluded(hit: Test, path: string, list: string, k: nat)
    requires hit == TestOf(path, list) && FirstIs(hit, Spans(list), k)
    requires k < |Spans(list)| && Spans(list)[k].from == Spans(list)[k].to
    ensures forall i :: 0 <= i < |Spans(Kept(list, k))| ==> !Tested(path, Entry(Kept(list, k), Spans(Kept(list, k))[i]))
  {
    var left := Kept(list, k);
    SpansInside(list, 0);
    assert Spans(list)[k] in Spans(list);
    SpansCut(list, left, 0, k);
    SpansInside(left, 0);
    forall i | 0 <= i < |Spans(left)| ensures !Tested(path, Entry(left, Spans(left)[i])) {
      assert Spans(left)[i] == Spans(list)[i] && Spans(left)[i] in Spans(left);
      SameEntry(list, left, Spans(left)[i]);
      assert !hit(Spans(list)[i]);
    }
  }

  /** An article that came through one excluded site undoes the exclusion of the next. */
  lemma ExclusionLost()
    ensures Excluded("b", "n", "a,b")
    ensures After("a", "n", "a,b") == "a" && !Excluded("b", "n", After("a", "n", "a,b"))
  {
    var list, two, one := "a,b", [Span(0, 1), Span(2, 3)], [Span(0, 1)];
    TwoEntries();
    NamesApart();
    assert Entry(list, two[0]) == "a" && Entry(list, two[1]) == "b" && Entry("a", one[0]) == "a";
    assert FirstIs(TestOf("a", list), two, 0);
    assert two[1] == Spans(list)[1];
    assert Tested("b", Entry(list, Spans(list)[1]));
    assert list[..1] == "a";
    assert forall k :: 0 <= k < |Spans("a")| ==> Entry("a", Spans("a")[k]) == "a";
  }

  lemma TwoEntries()
    ensures Spans("a,b") == [Span(0, 1), Span(2, 3)] && Spans("a") == [Span(0, 1)]
  {
    SameFind("a,b", COMMA, 0, 1);
    SameFind("a,b", COMMA, 2, 3);
    SameFind("a", COMMA, 0, 1);
    assert SpansFrom("a,b", 2) == [Span(2, 3)];
    assert Spans("a,b") == [Span(0, 1)] + [Span(2, 3)];
  }

  lemma NamesApart()
    ensures Tested("a", "a") && Tested("b", "b") && !Tested("a", "n") && !Tested("b", "n") && !Tested("b", "a")
  {
    OneName("a");
    OneName("b");
    ComponentIff("a", "a");
    ComponentIff("b", "b");
    ComponentIff("a", "n");
    ComponentIff("b", "n");
    ComponentIff("b", "a");
  }

  lemma OneName(name: string)
    requires |name| == 1 && name[0] != BANG
    ensures Components(name) == [name]
  {
    NoBangIsOne(name);
  }

  // ----- isexcluded on the list in memory -----

  /** An array holds a text and the NUL after it. */
  ghost predicate Holds(a: seq<char>, text: string) {
    |text| < |a| && a[..|text|] == text && a[|text|] == NUL && NUL !in text
  }

  /** The string that stands in an array from a place up to the next NUL. */
  function TextAt(a: seq<char>, from: nat): string
    requires from <= |a|
  {
    a[from..FindFrom(a, NUL, from)]
  }

  /** strchr(&a[from], c), for c not NUL */
  method Strchr(a: array<char>, ghost text: string, from: nat, c: char) returns (n: nat, found: bool)
    requires Holds(a[..], text) && from <= |text| && c != NUL
    ensures n == FindFrom(text, c, from) && found == (n < |text|)
  {
    n := from;
    while a[n] != NUL && a[n] != c
      invariant from <= n <= |text|
      invariant forall i :: from <= i < n ==> text[i] != c
      decreases |text| - n
    {
      n := n + 1;
    }
    found := a[n] == c;
    SameFind(text, c, from, n);
  }

  /** `hit` is what isexcluded asks. */
  ghost predicate Decides(hit: Test, path: string, list: string) {
    forall span {:trigger Entry(list, span)} :: hit(span) == Tested(path, Entry(list, span))
  }

  /** One round of isexcluded's loop: the comma at `ptr` gives way to a NUL for the test, and
      comes back only if the entry is not found. */
  method TestEntry(ghost hit: Test, ghost path: string, path1: string, a: array<char>, ghost text: string, from: nat,
      ptr: nat, found: bool) returns (r: bool)
    requires path1 == Banged(path) && Holds(a[..], text) && from <= ptr <= |text| && Decides(hit, path, text)
    requires found == (ptr < |text|) && (found ==> text[ptr] == COMMA)
    modifies a
    ensures r == hit(Span(from, ptr))
    ensures a[..] == if r && found then old(a[..])[ptr := NUL] else old(a[..])
  {
    ghost var was := a[..];
    if found {
      a[ptr] := NUL;
    }
    SameFind(a[..], NUL, from, ptr);
    var entry := TextAt(a[..], from);
    assert forall i :: 0 <= i < |entry| ==> entry[i] == a[from + i] == text[from + i];
    assert entry == Entry(text, Span(from, ptr));
    r := Contains(path1, Banged(Cut(entry)));
    if found && !r {
      a[ptr] := ',';
      assert a[..] == was[ptr := ','] == was;
    }
  }

  /** isexcluded(), with path1 as its caller prepares it; `exclusion` is nl->exclusion. The
      answer is right, and a NUL ends the list where After ends it. */
  method IsExcluded(ghost path: string, path1: string, node: string, exclusion: array<char>,
      ghost list: string) returns (r: bool)
    requires path1 == Banged(path) && Holds(exclusion[..], list)
    modifies exclusion
    ensures r == Excluded(path, node, list)
    ensures exclusion[..] == old(exclusion[..])[|After(path, node, list)| := NUL]
  {
    if Contains(path1, Banged(Cut(node))) {
      return true;
    }
    ExcludedIs(path, node, list);
    r := TestList(TestOf(path, list), path, path1, exclusion, list);
  }

  /** The list part of isexcluded(). */
  method TestList(ghost hit: Test, ghost path: string, path1: string, exclusion: array<char>,
      ghost list: string) returns (r: bool)
    requires path1 == Banged(path) && Holds(exclusion[..], list) && Decides(hit, path, list)
    modifies exclusion
    ensures r == (FirstHit(hit, Spans(list)) < |Spans(list)|)
    ensures exclusion[..] == old(exclusion[..])[|Kept(list, FirstHit(hit, Spans(list)))| := NUL]
  {
    ghost var k := 0;
    var exclude: nat := 0;
    var ptr, found := Strchr(exclusion, list, 0, COMMA);
    ScanStarts(hit, list);
    while exclusion[exclude] != NUL
      invariant exclusion[..] == old(exclusion[..]) && exclude <= |list|
      invariant ptr == FindFrom(list, COMMA, exclude) && found == (ptr < |list|)
      invariant Scanned(hit, list, k, exclude)
      decreases |list| - exclude
    {
      var done;
      r, done := Round(hit, path, path1, exclusion, list, k, exclude, ptr, found);
      if done {
        return;
      }
      k, exclude := k + 1, ptr + 1;
      ptr, found := Strchr(exclusion, list, exclude, COMMA);
    }
    ScanRunsOut(hit, list, k, exclude);
    return false;
  }

  /** One round, and whether it was the last. */
  method Round(ghost hit: Test, ghost path: string, path1: string, a: array<char>, ghost list: string, ghost k: nat,
      from: nat, ptr: nat, found: bool)
      returns (r: bool, done: bool)
    requires path1 == Banged(path) && Holds(a[..], list) && Decides(hit, path, list)
    requires Scanned(hit, list, k, from) && from < |list| && ptr == FindFrom(list, COMMA, from)
             && found == (ptr < |list|)
    modifies a
    ensures done ==> r == (FirstHit(hit, Spans(list)) < |Spans(list)|)
    ensures done ==> a[..] == old(a[..])[|Kept(list, FirstHit(hit, Spans(list)))| := NUL]
    ensures !done ==> found && a[..] == old(a[..]) && Scanned(hit, list, k + 1, ptr + 1)
  {
    r := TestEntry(hit, path, path1, a, list, from, ptr, found);
    done := r || !found;
    if done {
      ScanEnds(hit, list, k, from, ptr);
    } else {
      NextScanned(hit, list, k, from, ptr);
    }
  }

  /** The first `k` entries do not hit, and the others begin at `from`. */
  ghost predicate Scanned(hit: Test, list: string, k: nat, from: nat) {
    k <= |Spans(list)| && from <= |list| && Spans(list)[k..] == SpansFrom(list, from)
    && forall i :: 0 <= i < k ==> !hit(Spans(list)[i])
  }

  lemma ScanStarts(hit: Test, list: string)
    ensures Scanned(hit, list, 0, 0)
  {
    assert Spans(list)[0..] == Spans(list);
  }

  lemma ScanRunsOut(hit: Test, list: string, k: nat, from: nat)
    requires Scanned(hit, list, k, from) && from == |list|
    ensures FirstHit(hit, Spans(list)) == |Spans(list)| && |Kept(list, FirstHit(hit, Spans(list)))| == |list|
  {
    assert |Spans(list)[k..]| == 0;
    SameFirst(hit, Spans(list), k);
  }

  lemma NextScanned(hit: Test, list: string, k: nat, from: nat, c: nat)
    requires Scanned(hit, list, k, from) && from < |list| && c == FindFrom(list, COMMA, from)
    ensures c < |list| && !hit(Span(from, c)) ==> Scanned(hit, list, k + 1, c + 1)
  {
    var rest := Spans(list)[k..];
    assert rest[0] == Spans(list)[k];
    assert Spans(list)[k + 1..] == rest[1..];
    if c < |list| {
      assert rest == [Span(from, c)] + SpansFrom(list, c + 1);
      assert rest[1..] == SpansFrom(list, c + 1);
    }
  }

  lemma ScanEnds(hit: Test, list: string, k: nat, from: nat, c: nat)
    requires Scanned(hit, list, k, from) && from < |list| && c == FindFrom(list, COMMA, from)
    requires hit(Span(from, c)) || c == |list|
    ensures FirstHit(hit, Spans(list)) < |Spans(list)| <==> hit(Span(from, c))
    ensures |Kept(list, FirstHit(hit, Spans(list)))| == c
  {
    var rest := Spans(list)[k..];
    assert rest[0] == Spans(list)[k] == Span(from, c);
    SameFirst(hit, Spans(list), if hit(Span(from, c)) then k else k + 1);
  }

  lemma SameFirst(hit: Test, spans: seq<Span>, k: nat)
    requires FirstIs(hit, spans, k)
    ensures FirstHit(hit, spans) == k
  {
  }

  // ----- feedfplog -----

  /** isspace() in the C locale. */
  predicate IsSpace(c: char) {
    c == ' ' || '\t' <= c <= '\r'
  }

  function WordEnd(s: string, from: nat): (n: nat)
    requires from <= |s|
    ensures from <= n <= |s| && (n < |s| ==> IsSpace(s[n])) && forall i :: from <= i < n ==> !IsSpace(s[i])
    decreases |s| - from
  {
    if from == |s| || IsSpace(s[from]) then from else WordEnd(s, from + 1)
  }

  /** The words of a text from a place on. */
  function Words(s: string, from: nat): seq<string>
    requires from <= |s|
    decreases |s| - from
  {
    if from == |s| then []
    else if IsSpace(s[from]) then Words(s, from + 1)
    else [s[from..WordEnd(s, from)]] + Words(s, WordEnd(s, from))
  }

  /** An entry of nodelist.bbs; `open` if it has a feed file. */
  datatype Node = Node(name: string, host: string, exclusion: string, open: bool)

  /** A line of a node's feed file: which node, and the Path the article will carry. */
  datatype Line = Line(node: nat, path: string)

  /** search_nodelist_bynode: a place in the list, or anything else for NULL. */
  type Search = string -> int

  predicate Listed(nodes: seq<Node>, i: int) {
    0 <= i < |nodes| && nodes[i].open
  }

  /** The node has a feed file and neither it nor an exclusion of it is on the path. */
  predicate Wanted(path: string, nodes: seq<Node>, i: int) {
    Listed(nodes, i) && !Excluded(path, nodes[i].name, nodes[i].exclusion)
  }

  /** The line written for the node that search finds, if any is. */
  function LineFor(me: string, path: string, nodes: seq<Node>, i: int): seq<Line> {
    if Wanted(path, nodes, i) then [Line(i, me + "!" + path)] else []
  }

  function Asked(path: string, nodes: seq<Node>, i: int): seq<Node> {
    if !Listed(nodes, i) then nodes
    else nodes[i := nodes[i].(exclusion := After(path, nodes[i].name, nodes[i].exclusion))]
  }

  /** feedfplog for the words of nf->path: the node list as it leaves it, and the lines. */
  function Feed(me: string, search: Search, path: string, nodes: seq<Node>, words: seq<string>): (seq<Node>, seq<Line>)
    decreases |words|
  {
    if words == [] then (nodes, [])
    else
      var i := search(words[0]);
      var (left, lines) := Feed(me, search, path, Asked(path, nodes, i), words[1..]);
      (left, LineFor(me, path, nodes, i) + lines)
  }

  lemma {:induction false} LinesAre(me: string, search: Search, path: string, nodes: seq<Node>, words: seq<string>)
    ensures |Feed(me, search, path, nodes, words).1| <= |words|
    ensures forall l :: l in Feed(me, search, path, nodes, words).1 ==> l.path == me + "!" + path && l.node < |nodes|
    decreases |words|
  {
    if words != [] {
      LinesAre(me, search, path, Asked(path, nodes, search(words[0])), words[1..]);
    }
  }

  /** How many of the words name node i. */
  function Naming(search: Search, words: seq<string>, i: int): nat {
    if words == [] then 0 else (if search(words[0]) == i then 1 else 0) + Naming(search, words[1..], i)
  }

  function LinesTo(lines: seq<Line>, i: int): nat {
    if lines == [] then 0 else (if lines[0].node == i then 1 else 0) + LinesTo(lines[1..], i)
  }

  /** How many lines an open node gets for `n` words that name it: none if it or an exclusion
      of it is on the path, but an empty exclusion that hits keeps out the first line only. */
  function Served(path: string, node: Node, n: nat): nat {
    var spans := Spans(node.exclusion);
    var k := FirstHit(TestOf(path, node.exclusion), spans);
    if Tested(path, node.name) then 0
    else if k == |spans| then n
    else if spans[k].from == spans[k].to && n > 0 then n - 1
    else 0
  }

  /** The entry that hits is the first to hit in what is left of its list too, unless it is
      empty: then nothing hits there. */
  lemma HitLeft(path: string, list: string, k: nat)
    requires k == FirstHit(TestOf(path, list), Spans(list)) < |Spans(list)|
    ensures var left, spans := Kept(list, k), Spans(Kept(list, k));
      if Spans(list)[k].from == Spans(list)[k].to then FirstHit(TestOf(path, left), spans) == |spans|
      else k < |spans| && spans[k] == Spans(list)[k] && FirstHit(TestOf(path, left), spans) == k
  {
    var left, span := Kept(list, k), Spans(list)[k];
    SpansInside(list, 0);
    assert span in Spans(list);
    SpansCut(list, left, 0, k);
    SpansInside(left, 0);
    if span.from == span.to {
      NotExcluded(TestOf(path, list), path, list, k);
      SameFirst(TestOf(path, left), Spans(left), |Spans(left)|);
    } else {
      SameHits(path, list, left, k);
      SameFirst(TestOf(path, left), Spans(left), k);
    }
  }

  lemma SameHits(path: string, list: string, left: string, k: nat)
    requires FirstIs(TestOf(path, list), Spans(list), k) && k < |Spans(list)| && left <= list
    requires Spans(left) == Spans(list)[..k + 1]
    requires forall span :: span in Spans(left) ==> span.from <= span.to <= |left|
    ensures FirstIs(TestOf(path, left), Spans(left), k)
  {
    forall i | 0 <= i <= k ensures TestOf(path, left)(Spans(left)[i]) == TestOf(path, list)(Spans(list)[i]) {
      assert Spans(left)[i] == Spans(list)[i] && Spans(left)[i] in Spans(left);
      SameEntry(list, left, Spans(left)[i]);
    }
  }

  lemma ServedStep(path: string, node: Node, n: nat)
    ensures Served(path, node, n + 1) == (if Excluded(path, node.name, node.exclusion) then 0 else 1)
      + Served(path, node.(exclusion := After(path, node.name, node.exclusion)), n)
  {
    var list := node.exclusion;
    var k := FirstHit(TestOf(path, list), Spans(list));
    ExcludedIs(path, node.name, list);
    if !Tested(path, node.name) && k < |Spans(list)| {
      HitLeft(path, list, k);
    }
  }

  lemma FirstLine(head: seq<Line>, lines: seq<Line>, i: int)
    requires |head| <= 1
    ensures LinesTo(head + lines, i) == LinesTo(head, i) + LinesTo(lines, i)
  {
    if head == [] {
      assert head + lines == lines;
    } else {
      assert (head + lines)[1..] == lines && head[1..] == [];
    }
  }

  /** How many lines each node gets: none unless it is open, and then by its name, its
      exclusions and the number of words that name it. */
  lemma {:induction false} FeedsWho(me: string, search: Search, path: string, nodes: seq<Node>, words: seq<string>,
      i: nat)
    ensures LinesTo(Feed(me, search, path, nodes, words).1, i) ==
      if Listed(nodes, i) then Served(path, nodes[i], Naming(search, words, i)) else 0
    decreases |words|
  {
    if words != [] {
      var j := search(words[0]);
      var now := Asked(path, nodes, j);
      FeedsWho(me, search, path, now, words[1..], i);
      FirstLine(LineFor(me, path, nodes, j), Feed(me, search, path, now, words[1..]).1, i);
      if j == i && Listed(nodes, i) {
        ServedStep(path, nodes[i], Naming(search, words[1..], i));
      }
    }
  }

  /** Two words for one node, the path "a!!b" and the exclusion list ",x": the second word gets
      a line although the first was refused. */
  lemma SecondWordServed(me: string, search: Search, node: Node, w: string)
    requires node == Node("n", "", ",x", true) && search(w) == 0
    ensures Excluded("a!!b", "n", ",x")
    ensures LinesTo(Feed(me, search, "a!!b", [node], [w, w]).1, 0) == 1
  {
    var path := "a!!b";
    EmptyEntryHits();
    assert [w, w][1..] == [w] && [w][1..] == [];
    assert Naming(search, [w], 0) == 1;
    assert Naming(search, [w, w], 0) == 2;
    FeedsWho(me, search, path, [node], [w, w], 0);
    ExcludedIs(path, "n", ",x");
  }

  lemma ThreeNames()
    ensures Components("a!!b") == ["a", "", "b"]
  {
    SameFind("a!!b", BANG, 0, 1);
    SameFind("!b", BANG, 0, 0);
    assert "a!!b"[..1] == "a" && "a!!b"[2..] == "!b" && "!b"[..0] == "" && "!b"[1..] == "b";
    OneName("b");
    assert Components("!b") == [""] + ["b"];
    assert Components("a!!b") == ["a"] + ["", "b"];
  }

  lemma EmptyEntryHits()
    ensures !Tested("a!!b", "n") && FirstHit(TestOf("a!!b", ",x"), Spans(",x")) == 0
    ensures Spans(",x") == [Span(0, 0), Span(1, 2)]
  {
    SameFind(",x", COMMA, 0, 0);
    SameFind(",x", COMMA, 1, 2);
    assert SpansFrom(",x", 1) == [Span(1, 2)];
    ThreeNames();
    ComponentIff("a!!b", "");
    ComponentIff("a!!b", "n");
    assert Entry(",x", Span(0, 0)) == "";
    SameFirst(TestOf("a!!b", ",x"), Spans(",x"), 0);
  }

  /** The static lists and files that feedfplog works on. */
  class Feeder {
    const mybbsid: string
    const search: Search
    var nodes: seq<Node>
    var lines: seq<Line>

    constructor (me: string, find: Search, list: seq<Node>)
      ensures mybbsid == me && search == find && nodes == list && lines == []
    {
      mybbsid, search, nodes, lines := me, find, list, [];
    }

    /** feedfplog() for HEADER[PATH_H] == path; nfpath is nf->path, which holds `text` and is
        cut and restored at the blank after each word. */
    method Feedfplog(nfpath: array<char>, ghost text: string, path: string)
      requires Holds(nfpath[..], text)
      modifies this, nfpath
      ensures nfpath[..] == old(nfpath[..])
      ensures nodes == Feed(mybbsid, search, path, old(nodes), Words(text, 0)).0
      ensures lines == old(lines) + Feed(mybbsid, search, path, old(nodes), Words(text, 0)).1
    {
      ghost var all := Feed(mybbsid, search, path, nodes, Words(text, 0));
      ghost var sent: seq<Line> := [];
      FedNone(mybbsid, search, path, all, nodes, Words(text, 0));
      var ptr1: nat := 0;
      while nfpath[ptr1] != NUL
        invariant nfpath[..] == old(nfpath[..]) && ptr1 <= |text|
        invariant lines == old(lines) + sent
        invariant FedSoFar(mybbsid, search, path, all, sent, nodes, Words(text, ptr1))
        decreases |text| - ptr1
      {
        ptr1 := SkipBlanks(nfpath, text, ptr1);
        if nfpath[ptr1] == NUL {
          break;
        }
        var word, ptr2 := CutWord(nfpath, text, ptr1);
        sent := FedOne(mybbsid, search, path, all, sent, nodes, word, Words(text, ptr2));
        FeedOne(word, path);
        ptr1 := ptr2;
      }
      FedAll(mybbsid, search, path, all, sent, nodes);
    }

    /** What is done for one word. */
    method FeedOne(word: string, path: string)
      modifies `nodes, `lines
      ensures nodes == Asked(path, old(nodes), search(word))
      ensures lines == old(lines) + LineFor(mybbsid, path, old(nodes), search(word))
    {
      var nl := search(word);
      if 0 <= nl < |nodes| && nodes[nl].open {
        var skip := Excluded(path, nodes[nl].name, nodes[nl].exclusion);
        nodes := nodes[nl := nodes[nl].(exclusion := After(path, nodes[nl].name, nodes[nl].exclusion))];
        if !skip {
          lines := lines + [Line(nl, mybbsid + "!" + path)];
        }
      }
    }
  }

  /** With `sent` written and `nodes` left, the words still to come make up the rest. */
  ghost predicate FedSoFar(me: string, search: Search, path: string, all: (seq<Node>, seq<Line>), sent: seq<Line>,
      nodes: seq<Node>, words: seq<string>) {
    var (left, lines) := Feed(me, search, path, nodes, words);
    all == (left, sent + lines)
  }

  lemma FedNone(me: string, search: Search, path: string, all: (seq<Node>, seq<Line>), nodes: seq<Node>,
      words: seq<string>)
    requires all == Feed(me, search, path, nodes, words)
    ensures FedSoFar(me, search, path, all, [], nodes, words)
  {
    assert [] + all.1 == all.1;
  }

  lemma FedOne(me: string, search: Search, path: string, all: (seq<Node>, seq<Line>), sent: seq<Line>,
      nodes: seq<Node>, word: string, words: seq<string>)
      returns (now: seq<Line>)
    requires FedSoFar(me, search, path, all, sent, nodes, [word] + words)
    ensures now == sent + LineFor(me, path, nodes, search(word))
    ensures FedSoFar(me, search, path, all, now, Asked(path, nodes, search(word)), words)
  {
    assert ([word] + words)[1..] == words;
    var head := LineFor(me, path, nodes, search(word));
    now := sent + head;
    var lines := Feed(me, search, path, Asked(path, nodes, search(word)), words).1;
    assert sent + (head + lines) == sent + head + lines;
  }

  lemma FedAll(me: string, search: Search, path: string, all: (seq<Node>, seq<Line>), sent: seq<Line>, nodes: seq<Node>)
    requires FedSoFar(me, search, path, all, sent, nodes, [])
    ensures all == (nodes, sent)
  {
    assert sent + [] == sent;
  }

  /** The blanks before a word. */
  method SkipBlanks(a: array<char>, ghost text: string, from: nat) returns (n: nat)
    requires Holds(a[..], text) && from <= |text|
    ensures from <= n <= |text| && (n < |text| ==> !IsSpace(text[n]))
    ensures Words(text, n) == Words(text, from)
  {
    n := from;
    while a[n] != NUL && IsSpace(a[n])
      invariant from <= n <= |text| && Words(text, n) == Words(text, from)
      decreases |text| - n
    {
      n := n + 1;
    }
  }

  /** A word, read with a NUL in the place of what follows it. */
  method CutWord(a: array<char>, ghost text: string, ptr1: nat) returns (word: string, ptr2: nat)
    requires Holds(a[..], text) && ptr1 < |text| && !IsSpace(text[ptr1])
    modifies a
    ensures a[..] == old(a[..])
    ensures ptr1 < ptr2 <= |text| && Words(text, ptr1) == [word] + Words(text, ptr2)
  {
    ptr2 := ptr1;
    while a[ptr2] != NUL && !IsSpace(a[ptr2])
      invariant ptr1 <= ptr2 <= |text|
      invariant forall i :: ptr1 <= i < ptr2 ==> !IsSpace(text[i])
      decreases |text| - ptr2
    {
      ptr2 := ptr2 + 1;
    }
    WordIs(text, ptr1, ptr2);
    ghost var was := a[..];
    var savech := a[ptr2];
    a[ptr2] := NUL;
    SameFind(a[..], NUL, ptr1, ptr2);
    word := TextAt(a[..], ptr1);
    assert forall i :: 0 <= i < |word| ==> word[i] == a[ptr1 + i] == text[ptr1 + i];
    assert word == text[ptr1..ptr2];
    a[ptr2] := savech;
    assert a[..] == was[ptr2 := savech] == was;
  }

  lemma WordIs(s: string, from: nat, n: nat)
    requires from <= n <= |s| && (n < |s| ==> IsSpace(s[n])) && forall i :: from <= i < n ==> !IsSpace(s[i])
    ensures WordEnd(s, from) == n
  {
  }
}
