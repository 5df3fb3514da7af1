/** Where the article gets in a network of sites that loses nothing: whoever an accepting site
    feeds has it in the end. */
module FloodReach {
  import opened Basics
  import opened Paths
  import opened Feeds
  import opened Flood

  /** The site has accepted the article. */
  predicate Has(s: State, id: string) {
    exists a :: a in s.accepted && a.to == id
  }

  /** A message that nobody needs any more: there is no such site, it would be a loop, or the site
      has the article and may refuse it as a duplicate. */
  predicate Settled(s: State, m: Message) {
    m.to !in s.sites || OnPath(m.path, m.to) || Has(s, m.to)
  }

  /** A step that loses nothing. */
  ghost predicate Keeps(s: State, t: State) {
    exists i :: 0 <= i < |s.flight| && ((Drops(s, i, t) && Settled(s, s.flight[i])) || Accepts(s, i, t))
  }

  lemma KeepsIsStep(s: State, t: State)
    requires Keeps(s, t)
    ensures Step(s, t)
  {
    var i :| 0 <= i < |s.flight| && ((Drops(s, i, t) && Settled(s, s.flight[i])) || Accepts(s, i, t));
    assert Drops(s, i, t) || Accepts(s, i, t);
  }

  ghost predicate KeepsAt(run: seq<State>, i: nat) {
    i + 1 < |run| && Keeps(run[i], run[i + 1])
  }

  /** A run without losses, at whose end nothing is on its way any more. */
  ghost predicate Complete(run: seq<State>) {
    && run != [] && (forall i: nat :: i < |run| - 1 ==> KeepsAt(run, i))
    && run[|run| - 1].flight == []
  }

  lemma CompleteIsRun(run: seq<State>)
    requires Complete(run)
    ensures IsRun(run)
  {
    forall i: nat | i < |run| - 1 ensures StepAt(run, i) {
      assert KeepsAt(run, i);
      KeepsIsStep(run[i], run[i + 1]);
    }
  }

  /** One step takes at most one message out of flight, and settles that. */
  lemma StaysOrSettles(s: State, t: State, m: Message)
    requires Keeps(s, t)
    ensures t.sites.Keys == s.sites.Keys && forall a :: a in s.accepted ==> a in t.accepted
    ensures m in s.flight ==> m in t.flight || Settled(t, m)
    ensures Settled(s, m) ==> Settled(t, m)
  {
    var i :| 0 <= i < |s.flight| && ((Drops(s, i, t) && Settled(s, s.flight[i])) || Accepts(s, i, t));
    assert s.flight == s.flight[..i] + [s.flight[i]] + s.flight[i + 1..];
    if m in s.flight && m != s.flight[i] {
      assert m in Without(s.flight, i);
    }
    if Accepts(s, i, t) {
      assert s.flight[i] in t.accepted;
    }
  }

  lemma {:induction false} SettledAtEnd(run: seq<State>, k: nat, m: Message)
    requires Complete(run) && k < |run| && (m in run[k].flight || Settled(run[k], m))
    ensures Settled(run[|run| - 1], m) && run[|run| - 1].sites.Keys == run[k].sites.Keys
    ensures forall a :: a in run[k].accepted ==> a in run[|run| - 1].accepted
    decreases |run| - k
  {
    if k < |run| - 1 {
      assert KeepsAt(run, k);
      StaysOrSettles(run[k], run[k + 1], m);
      SettledAtEnd(run, k + 1, m);
    }
  }

  // ----- Who is fed -----

  lemma {:induction false} HostsStay(me: string, search: Search, path: string, nodes: seq<Node>, words: seq<string>,
      n: nat)
    ensures var left := Feed(me, search, path, nodes, words).0;
      |left| == |nodes| && (n < |nodes| ==> left[n].host == nodes[n].host)
    decreases |words|
  {
    if words != [] {
      HostsStay(me, search, path, Asked(path, nodes, search(words[0])), words[1..], n);
    }
  }

  lemma {:induction false} SentTo(nodes: seq<Node>, lines: seq<Line>, path: string, n: nat)
    requires n < |nodes| && LinesTo(lines, n) > 0 && forall l :: l in lines ==> l.path == path
    ensures Message(nodes[n].host, path) in Messages(nodes, lines)
    decreases |lines|
  {
    if lines[0].node != n {
      SentTo(nodes, lines[1..], path, n);
    }
  }

  /** A site that accepts the article sends it, with its own name in front of the path, to every
      node that its feeds name, unless the node or an exclusion of it is on the path. */
  lemma FedIsSent(s: State, i: nat, t: State, n: nat)
    requires Accepts(s, i, t) && Fed(s, i, n)
    ensures var m := s.flight[i];
      Message(s.sites[m.to].nodes[n].host, m.to + "!" + m.path) in t.flight
  {
    var m := s.flight[i];
    var site := s.sites[m.to];
    var (nodes, lines) := Feed(m.to, site.search, m.path, site.nodes, site.words);
    FeedsWho(m.to, site.search, m.path, site.nodes, site.words, n);
    LinesAre(m.to, site.search, m.path, site.nodes, site.words);
    HostsStay(m.to, site.search, m.path, site.nodes, site.words, n);
    SentTo(nodes, lines, m.to + "!" + m.path, n);
  }

  /** Node n of the site that message i goes to is open, and its words, its name and its
      exclusions let the article through. */
  predicate Fed(s: State, i: nat, n: nat) {
    i < |s.flight| && var m := s.flight[i];
      m.to in s.sites && var site := s.sites[m.to];
      n < |site.nodes| && site.nodes[n].open
      && Served(m.path, site.nodes[n], Naming(site.search, site.words, n)) > 0
  }

  // ----- Who has it -----

  /** A site on the path of an accepted article has the article, unless the article was born with
      the name. */
  lemma {:induction false} OnRoute(origins: set<string>, s: State, m: Message, name: string)
    requires Traced(origins, s) && m in s.accepted && name in Components(m.path)
    requires forall a :: a in s.accepted ==> BANG !in a.to
    ensures Has(s, name) || exists o :: o in origins && name in Components(o)
    decreases |m.path|
  {
    assert HasRoute(origins, s.accepted, m);
    if m.path !in origins {
      var a :| a in s.accepted && m.path == a.to + "!" + a.path;
      Prefixed(a.to, a.path);
      if name != a.to {
        OnRoute(origins, s, a, name);
      }
    }
  }

  /** In the end every node fed by a site that accepted the article has it too, if it is the
      name of a site and was not on the path that the article was born with. */
  lemma FedHasIt(origins: set<string>, run: seq<State>, d: nat, k: nat, i: nat, n: nat)
    requires Complete(run) && Network(run[0].sites, d) && Traced(origins, run[0]) && OnlySites(run[0])
    requires k + 1 < |run| && Accepts(run[k], i, run[k + 1]) && Fed(run[k], i, n)
    ensures var last, m := run[|run| - 1], run[k].flight[i];
      var host := run[k].sites[m.to].nodes[n].host;
      host in run[0].sites ==> Has(last, host) || exists o :: o in origins && host in Components(o)
  {
    var last, m := run[|run| - 1], run[k].flight[i];
    var host := run[k].sites[m.to].nodes[n].host;
    SentSettles(run, d, k, i, n);
    if host in run[0].sites && !Has(last, host) {
      CompleteIsRun(run);
      RunIsTraced(origins, run, |run| - 1);
      ComponentIff(m.to + "!" + m.path, host);
      Prefixed(m.to, m.path);
      assert host != m.to;
      OnRoute(origins, last, m, host);
    }
  }

  lemma SentSettles(run: seq<State>, d: nat, k: nat, i: nat, n: nat)
    requires Complete(run) && Network(run[0].sites, d) && OnlySites(run[0])
    requires k + 1 < |run| && Accepts(run[k], i, run[k + 1]) && Fed(run[k], i, n)
    ensures var last, m := run[|run| - 1], run[k].flight[i];
      var host := run[k].sites[m.to].nodes[n].host;
      && m in last.accepted && BANG !in m.to
      && (forall a :: a in last.accepted ==> BANG !in a.to)
      && (host in run[0].sites ==> BANG !in host && (OnPath(m.to + "!" + m.path, host) || Has(last, host)))
  {
    var m := run[k].flight[i];
    var sent := Message(run[k].sites[m.to].nodes[n].host, m.to + "!" + m.path);
    FedIsSent(run[k], i, run[k + 1], n);
    SettledAtEnd(run, k + 1, sent);
    SitesStay(run, d, |run| - 1);
    assert m in run[k + 1].accepted;
  }

  /** Only sites accept the article. */
  predicate OnlySites(s: State) {
    forall a :: a in s.accepted ==> a.to in s.sites
  }

  lemma {:induction false} SitesStay(run: seq<State>, d: nat, n: nat)
    requires Complete(run) && Network(run[0].sites, d) && OnlySites(run[0]) && n < |run|
    ensures run[n].sites.Keys == run[0].sites.Keys && OnlySites(run[n])
    ensures forall a :: a in run[n].accepted ==> BANG !in a.to
    decreases n
  {
    if n > 0 {
      SitesStay(run, d, n - 1);
      assert KeepsAt(run, n - 1);
      AcceptedBySites(run[n - 1], run[n]);
    }
  }

  lemma AcceptedBySites(s: State, t: State)
    requires Keeps(s, t) && OnlySites(s)
    ensures t.sites.Keys == s.sites.Keys && OnlySites(t)
  {
    var i :| 0 <= i < |s.flight| && ((Drops(s, i, t) && Settled(s, s.flight[i])) || Accepts(s, i, t));
  }
}
