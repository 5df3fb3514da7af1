/** News flooding between sites: what CMDihave of innbbsd/innbbsd.c accepts and feedfplog
    passes on, for one article and any graph of sites. */
module Flood {
  import opened Basics
  import opened Paths
  import opened Feeds

  // ----- CMDihave -----

  /** Crashed: strlen() or strstr() is given NULL. */
  datatype Reply = BadMessageId | Duplicate | SendArticle | Received | ServerFailed
    | NoMessageId | NoPath | NoColon | Crashed

  /** An article as it comes in: its Path, whether it has a Message-ID, whether it has Subject,
      From, Date and Newsgroups, whether it has Control, whether its Subject holds "@@", and
      what follows its first empty line, if it has one. */
  datatype Article = Article(path: Option<string>, id: bool, others: bool, control: bool, marked: bool,
                             body: Option<string>) {
    predicate Complete() { id && others }

    /** Neither a control message nor a loop at `me`. */
    predicate Ordinary(me: string) { path.Some? && !control && !OnPath(path.value, me) }
  }

  /** strstr(BODY, "NCM") && strstr(BODY, "PGP") */
  predicate IsNotice(body: string) {
    Contains(body, "NCM") && Contains(body, "PGP")
  }

  /** The article makes CMDihave at `me` follow a null pointer: that of a Path that is not
      there or, if no article has had an empty line so far, that of the body. */
  predicate Crashes(me: string, article: Article, seen: bool) {
    article.Complete() &&
    (article.path == None || (article.Ordinary(me) && article.marked && article.body == None && !seen))
  }

  /** All headers that are asked for, but no Path. */
  lemma CrashWithoutPath(me: string, seen: bool)
    ensures Crashes(me, Article(None, true, true, false, false, Some("")), seen)
  {
  }

  /** All headers and a Path from elsewhere, "@@" in the Subject and no empty line, as the
      first article that the daemon gets. */
  lemma CrashWithoutBody(me: string)
    requires me != "" && BANG !in me
    ensures Crashes(me, Article(Some(""), true, true, false, true, None), false)
    ensures !Crashes(me, Article(Some(""), true, true, false, true, None), true)
  {
    ComponentIff("", me);
    NoBangIsOne("");
  }

  /** Which function takes the article. */
  datatype Taker = Nobody | Control | NoCeM | ReceiveArticle

  /** The global BODY, which all clients of the daemon share: whether it has been set. */
  class Shared {
    var seen: bool

    constructor ()
      ensures !seen
    {
      seen := false;
    }
  }

  class Client {
    const mybbsid: string
    const shared: Shared
    var mode: int
    var midcheck: bool
    var ihavecount: nat
    var ihavefail: nat
    var ihaveduplicate: nat

    constructor (me: string, check: bool, globals: Shared)
      ensures mybbsid == me && midcheck == check && mode == 0 && shared == globals
    {
      mybbsid, midcheck, mode, shared := me, check, 0, globals;
      ihavecount, ihavefail, ihaveduplicate := 0, 0, 0;
    }

    /** ihave <id>: `known` is whether DBfetch finds the id. */
    method Offer(id: string, known: bool) returns (r: Reply)
      requires mode == 0
      modifies `mode, `ihavecount, `ihavefail, `ihaveduplicate
      ensures r == if id == "" || id[0] != '<' then BadMessageId
              else if midcheck && known then Duplicate else SendArticle
      ensures mode == (if r == SendArticle then 1 else 0)
      ensures ihavecount == old(ihavecount) + 1
      ensures ihavefail == old(ihavefail) + (if r == SendArticle then 0 else 1)
      ensures ihaveduplicate == old(ihaveduplicate) + (if r == Duplicate then 1 else 0)
    {
      ihavecount := ihavecount + 1;
      if id == "" || id[0] != '<' {
        ihavefail := ihavefail + 1;
        return BadMessageId;
      }
      var ptr := false;
      if midcheck {
        ptr := known;
      }
      if ptr && midcheck {
        mode := 0;
        ihaveduplicate := ihaveduplicate + 1;
        ihavefail := ihavefail + 1;
        return Duplicate;
      }
      mode := 1;
      return SendArticle;
    }

    /** readlines(), as far as BODY goes: it points behind the first empty line, or still
        where an earlier article had one, or nowhere; `stale` is what stands there now. */
    method ReadBody(article: Article, stale: string) returns (body: Option<string>)
      modifies shared
      ensures shared.seen == (old(shared.seen) || article.body.Some?)
      ensures body == if article.body.Some? then article.body else if old(shared.seen) then Some(stale) else None
    {
      if article.body.Some? {
        shared.seen := true;
        return article.body;
      }
      body := if shared.seen then Some(stale) else None;
    }

    /** The article after 335. `rel` is what the function that takes it will return. Path is
        not among the headers that are asked for, and neither is a body. A loop is answered like
        an article that has been taken, unless it is a control message, for which the Path is
        not looked at. */
    method Take(article: Article, stale: string, rel: int) returns (r: Reply, taker: Taker)
      requires mode == 1
      modifies `mode, `ihavefail, shared
      ensures mode == 0 && shared.seen == (old(shared.seen) || article.body.Some?)
      ensures r == Crashed <==> Crashes(mybbsid, article, old(shared.seen))
      ensures r == NoMessageId <==> !article.id
      ensures r == NoPath <==> article.id && !article.others && article.path == None
      ensures r == NoColon <==> article.id && !article.others && article.path.Some?
      ensures r == ServerFailed <==> taker != Nobody && rel == -1
      ensures r !in {BadMessageId, Duplicate, SendArticle}
      ensures taker == Control <==> article.Complete() && article.path.Some? && article.control
      ensures taker == NoCeM || taker == ReceiveArticle <==>
        article.Complete() && article.Ordinary(mybbsid) && r != Crashed
      ensures taker == NoCeM ==> article.marked && IsNotice(if article.body.Some? then article.body.value else stale)
      ensures taker == ReceiveArticle && article.marked ==>
        !IsNotice(if article.body.Some? then article.body.value else stale)
      ensures BANG !in mybbsid && (taker == ReceiveArticle || taker == NoCeM) ==>
        mybbsid !in Components(article.path.value)
      ensures BANG !in mybbsid && r == Received && taker == Nobody ==> mybbsid in Components(article.path.value)
      ensures ihavefail == old(ihavefail) + (if r == Received || r == Crashed then 0 else 1)
    {
      mode, taker := 0, Nobody;
      var body := ReadBody(article, stale);
      if article.id && article.others {
        if article.path == None {
          return Crashed, Nobody;
        }
        var path := article.path.value;
        if BANG !in mybbsid {
          ComponentIff(path, mybbsid);
        }
        var result := 0;
        if article.control {
          taker, result := Control, rel;
        } else if Contains(Banged(path), Banged(mybbsid)) {
        } else if article.marked && body == None {
          return Crashed, Nobody;
        } else if article.marked && Contains(body.value, "NCM") && Contains(body.value, "PGP") {
          taker, result := NoCeM, rel;
        } else {
          taker, result := ReceiveArticle, rel;
        }
        if result == -1 {
          ihavefail := ihavefail + 1;
          return ServerFailed, taker;
        }
        return Received, taker;
      }
      ihavefail := ihavefail + 1;
      r := if !article.id then NoMessageId else if article.path == None then NoPath else NoColon;
    }
  }

  // ----- A network of sites -----

  /** What a site does with the article it accepts: its node list, and the words of the feeds
      of the groups that the article is in. */
  datatype Site = Site(nodes: seq<Node>, search: Search, words: seq<string>)

  /** The article on its way to a site, or accepted there, with the Path it has. */
  datatype Message = Message(to: string, path: string)

  datatype State = State(sites: map<string, Site>, flight: seq<Message>, accepted: seq<Message>)

  /** The messages that a site's feed files come to. */
  function Messages(nodes: seq<Node>, lines: seq<Line>): seq<Message> {
    if lines == [] then []
    else
      (if lines[0].node < |nodes| then [Message(nodes[lines[0].node].host, lines[0].path)] else [])
      + Messages(nodes, lines[1..])
  }

  function Without(flight: seq<Message>, i: nat): seq<Message>
    requires i < |flight|
  {
    flight[..i] + flight[i + 1..]
  }

  /** A message gets lost, comes to no site, is a loop or is refused as a duplicate. */
  ghost predicate Drops(s: State, i: nat, t: State) {
    i < |s.flight| && t == s.(flight := Without(s.flight, i))
  }

  /** A site accepts a message, as CMDihave does, and forwards it, as feedfplog does. */
  ghost predicate Accepts(s: State, i: nat, t: State) {
    i < |s.flight| && var m := s.flight[i];
      m.to in s.sites && !OnPath(m.path, m.to) && var site := s.sites[m.to];
      var (nodes, lines) := Feed(m.to, site.search, m.path, site.nodes, site.words);
      t == State(s.sites[m.to := site.(nodes := nodes)], Without(s.flight, i) + Messages(nodes, lines),
                 s.accepted + [m])
  }

  ghost predicate Step(s: State, t: State) {
    exists i :: 0 <= i < |s.flight| && (Drops(s, i, t) || Accepts(s, i, t))
  }

  /** Site names have no exclamation mark, and no site's feeds have more than `d` words. */
  predicate Network(sites: map<string, Site>, d: nat) {
    forall id :: id in sites ==> BANG !in id && |sites[id].words| <= d
  }

  // ----- Flooding halts -----

  function Names(path: string): set<string> {
    set name | name in Components(path)
  }

  /** How many sites are not on the path yet. */
  function Room(ids: set<string>, path: string): nat {
    |ids - Names(path)|
  }

  /** More than everything that `d` copies with one site less can lead to. */
  function Weight(room: nat, d: nat): (w: nat)
    ensures w > 0
  {
    if room == 0 then 1 else d * Weight(room - 1, d) + 1
  }

  function Total(ids: set<string>, d: nat, flight: seq<Message>): nat {
    Sum(Weigher(ids, d), flight)
  }

  /** The weight of a message. */
  function Weigher(ids: set<string>, d: nat): Message -> nat {
    (m: Message) => Weight(Room(ids, m.path), d)
  }

  function Sum<T>(w: T -> nat, s: seq<T>): nat {
    if s == [] then 0 else w(s[0]) + Sum(w, s[1..])
  }

  lemma {:induction false} SumConcat<T>(w: T -> nat, a: seq<T>, b: seq<T>)
    ensures Sum(w, a + b) == Sum(w, a) + Sum(w, b)
  {
    if a == [] {
      assert a + b == b;
    } else {
      assert (a + b)[1..] == a[1..] + b;
      SumConcat(w, a[1..], b);
    }
  }

  lemma TotalWithout(ids: set<string>, d: nat, flight: seq<Message>, i: nat)
    requires i < |flight|
    ensures Total(ids, d, flight) == Total(ids, d, Without(flight, i)) + Weight(Room(ids, flight[i].path), d)
  {
    SumWithout(Weigher(ids, d), flight, i);
  }

  lemma SumWithout<T>(w: T -> nat, s: seq<T>, i: nat)
    requires i < |s|
    ensures Sum(w, s) == Sum(w, s[..i] + s[i + 1..]) + w(s[i])
  {
    SumConcat(w, s[..i], s[i..]);
    SumConcat(w, s[..i], s[i + 1..]);
    assert s[..i] + s[i..] == s;
    assert s[i..][1..] == s[i + 1..];
  }

  /** One more site on the path leaves one less. */
  lemma RoomLess(ids: set<string>, me: string, path: string)
    requires me in ids && BANG !in me && me !in Components(path)
    ensures Room(ids, me + "!" + path) == Room(ids, path) - 1
  {
    Prefixed(me, path);
    assert Components(me + "!" + path) == [me] + Components(path);
    assert Names(me + "!" + path) == {me} + Names(path);
    assert ids - Names(me + "!" + path) == (ids - Names(path)) - {me};
  }

  lemma {:induction false} TotalOfLines(ids: set<string>, d: nat, nodes: seq<Node>, lines: seq<Line>, path: string)
    requires forall l :: l in lines ==> l.path == path
    ensures Total(ids, d, Messages(nodes, lines)) <= |lines| * Weight(Room(ids, path), d)
    decreases |lines|
  {
    if lines != [] {
      var w, more := Weight(Room(ids, path), d), Messages(nodes, lines[1..]);
      TotalOfLines(ids, d, nodes, lines[1..], path);
      assert |lines| * w == (|lines| - 1) * w + w;
      if lines[0].node < |nodes| {
        assert ([Message(nodes[lines[0].node].host, path)] + more)[1..] == more;
      } else {
        assert [] + more == more;
      }
    }
  }

  lemma Times(n: nat, d: nat, w: nat)
    requires n <= d
    ensures n * w <= d * w
  {
    assert d * w == n * w + (d - n) * w;
  }

  lemma StepShrinks(s: State, t: State, d: nat)
    requires Network(s.sites, d) && Step(s, t)
    ensures Network(t.sites, d) && t.sites.Keys == s.sites.Keys
    ensures Total(t.sites.Keys, d, t.flight) < Total(s.sites.Keys, d, s.flight)
  {
    var i :| 0 <= i < |s.flight| && (Drops(s, i, t) || Accepts(s, i, t));
    TotalWithout(s.sites.Keys, d, s.flight, i);
    if Accepts(s, i, t) {
      AcceptShrinks(s, i, t, d);
    }
  }

  lemma AcceptShrinks(s: State, i: nat, t: State, d: nat)
    requires Network(s.sites, d) && Accepts(s, i, t)
    ensures Network(t.sites, d) && t.sites.Keys == s.sites.Keys
    ensures Total(t.sites.Keys, d, t.flight) < Total(s.sites.Keys, d, Without(s.flight, i))
            + Weight(Room(s.sites.Keys, s.flight[i].path), d)
  {
    var ids, m := s.sites.Keys, s.flight[i];
    var site := s.sites[m.to];
    var (nodes, lines) := Feed(m.to, site.search, m.path, site.nodes, site.words);
    assert t.sites.Keys == ids;
    ForwardedIsLess(ids, d, m, site);
    SumConcat(Weigher(ids, d), Without(s.flight, i), Messages(nodes, lines));
  }

  /** All that a site forwards weighs less than the article did on its way to it. */
  lemma ForwardedIsLess(ids: set<string>, d: nat, m: Message, site: Site)
    requires m.to in ids && BANG !in m.to && !OnPath(m.path, m.to) && |site.words| <= d
    ensures var (nodes, lines) := Feed(m.to, site.search, m.path, site.nodes, site.words);
      Total(ids, d, Messages(nodes, lines)) < Weight(Room(ids, m.path), d)
  {
    var (nodes, lines) := Feed(m.to, site.search, m.path, site.nodes, site.words);
    var path := m.to + "!" + m.path;
    ComponentIff(m.path, m.to);
    RoomLess(ids, m.to, m.path);
    LinesAre(m.to, site.search, m.path, site.nodes, site.words);
    TotalOfLines(ids, d, nodes, lines, path);
    Times(|lines|, d, Weight(Room(ids, path), d));
  }

  ghost predicate StepAt(run: seq<State>, i: nat) {
    i + 1 < |run| && Step(run[i], run[i + 1])
  }

  ghost predicate IsRun(run: seq<State>) {
    run != [] && forall i: nat :: i < |run| - 1 ==> StepAt(run, i)
  }

  lemma RunTail(run: seq<State>)
    requires IsRun(run) && |run| > 1
    ensures Step(run[0], run[1]) && IsRun(run[1..])
  {
    assert StepAt(run, 0);
    forall i: nat | i < |run[1..]| - 1 ensures StepAt(run[1..], i) {
      assert StepAt(run, i + 1);
    }
  }

  /** However the sites are connected and whether or not duplicates are refused, the article
      stops moving: no run is longer than the weight it starts with. */
  lemma {:induction false} FloodHalts(run: seq<State>, d: nat)
    requires IsRun(run) && Network(run[0].sites, d)
    ensures |run| <= Total(run[0].sites.Keys, d, run[0].flight) + 1
    decreases |run|
  {
    if |run| > 1 {
      RunTail(run);
      StepShrinks(run[0], run[1], d);
      FloodHalts(run[1..], d);
    }
  }

  // ----- What paths tell -----

  predicate Distinct(names: seq<string>) {
    forall i, j :: 0 <= i < j < |names| ==> names[i] != names[j]
  }

  predicate PathClean(m: Message) {
    Distinct(Components(m.path))
  }

  /** No path names a site twice, and none that a site has accepted names that site. */
  predicate Clean(s: State) {
    (forall m :: m in s.flight ==> PathClean(m))
    && forall m :: m in s.accepted ==> PathClean(m) && m.to !in Components(m.path)
  }

  lemma {:induction false} MessagesAre(nodes: seq<Node>, lines: seq<Line>, path: string)
    requires forall l :: l in lines ==> l.path == path
    ensures forall m :: m in Messages(nodes, lines) ==> m.path == path
    decreases |lines|
  {
    if lines != [] {
      MessagesAre(nodes, lines[1..], path);
    }
  }

  lemma NextPath(me: string, path: string)
    requires BANG !in me && me !in Components(path) && Distinct(Components(path))
    ensures Distinct(Components(me + "!" + path))
  {
    Prefixed(me, path);
    assert Components(me + "!" + path) == [me] + Components(path);
  }

  /** What becomes of the messages in flight. */
  lemma Moves(s: State, i: nat, t: State)
    requires Drops(s, i, t) || Accepts(s, i, t)
    ensures Drops(s, i, t) ==> t.accepted == s.accepted && forall m :: m in t.flight ==> m in s.flight
    ensures Accepts(s, i, t) ==> t.accepted == s.accepted + [s.flight[i]]
    ensures Accepts(s, i, t)
            ==> forall m :: m in t.flight ==> m in s.flight || m.path == s.flight[i].to + "!" + s.flight[i].path
  {
    if Accepts(s, i, t) {
      var m := s.flight[i];
      var site := s.sites[m.to];
      var (nodes, lines) := Feed(m.to, site.search, m.path, site.nodes, site.words);
      LinesAre(m.to, site.search, m.path, site.nodes, site.words);
      MessagesAre(nodes, lines, m.to + "!" + m.path);
    }
  }

  lemma StepKeepsClean(s: State, t: State, d: nat)
    requires Network(s.sites, d) && Step(s, t) && Clean(s)
    ensures Clean(t)
  {
    var i :| 0 <= i < |s.flight| && (Drops(s, i, t) || Accepts(s, i, t));
    Moves(s, i, t);
    if Accepts(s, i, t) {
      var m := s.flight[i];
      assert PathClean(m);
      ComponentIff(m.path, m.to);
      NextPath(m.to, m.path);
    }
  }

  /** Along every run, accepted articles have a Path of distinct sites without the one that
      accepts them. */
  lemma {:induction false} RunIsClean(run: seq<State>, d: nat, n: nat)
    requires IsRun(run) && Network(run[0].sites, d) && Clean(run[0]) && n < |run|
    ensures Clean(run[n]) && Network(run[n].sites, d)
    decreases n
  {
    if n > 0 {
      RunIsClean(run, d, n - 1);
      assert StepAt(run, n - 1);
      StepKeepsClean(run[n - 1], run[n], d);
      StepShrinks(run[n - 1], run[n], d);
    }
  }

  /** Along every run, each path is one that the article started with or begins with a site that
      accepted the article with the rest of it. */
  lemma {:induction false} RunIsTraced(origins: set<string>, run: seq<State>, n: nat)
    requires IsRun(run) && Traced(origins, run[0]) && n < |run|
    ensures Traced(origins, run[n])
    decreases n
  {
    if n > 0 {
      RunIsTraced(origins, run, n - 1);
      assert StepAt(run, n - 1);
      StepKeepsTraced(origins, run[n - 1], run[n]);
    }
  }

  /** A path is one that the article started with, or its first site accepted the article with
      the rest of it. */
  predicate HasRoute(origins: set<string>, accepted: seq<Message>, m: Message) {
    m.path in origins || exists a :: a in accepted && m.path == a.to + "!" + a.path
  }

  predicate Traced(origins: set<string>, s: State) {
    (forall m :: m in s.flight ==> HasRoute(origins, s.accepted, m))
    && forall m :: m in s.accepted ==> HasRoute(origins, s.accepted, m)
  }

  lemma StepKeepsTraced(origins: set<string>, s: State, t: State)
    requires Step(s, t) && Traced(origins, s)
    ensures Traced(origins, t)
  {
    var i :| 0 <= i < |s.flight| && (Drops(s, i, t) || Accepts(s, i, t));
    Moves(s, i, t);
    forall m | HasRoute(origins, s.accepted, m) ensures HasRoute(origins, t.accepted, m) {
    }
    if Accepts(s, i, t) {
      assert s.flight[i] in t.accepted;
    }
  }

  /** Passing over a node whose own name is on the path loses nothing: its site would have
      found the article to be a loop. That holds exactly of names that isexcluded does not cut. */
  lemma SkippedIsLoop(me: string, name: string)
    requires BANG !in me && BANG !in name && me != name
    ensures |name| <= ROOM <==> forall path :: Tested(path, name) ==> OnPath(me + "!" + path, name)
  {
    if |name| <= ROOM {
      forall path | Tested(path, name) ensures OnPath(me + "!" + path, name) {
        ComponentIff(path, name);
        Prefixed(me, path);
        ComponentIff(me + "!" + path, name);
      }
    } else {
      var path := Cut(name);
      ComponentIff(path, path);
      NoBangIsOne(path);
      assert Tested(path, name);
      Prefixed(me, path);
      ComponentIff(me + "!" + path, name);
    }
  }
}
