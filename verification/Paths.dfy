/** The Path header of news articles (section 2.1.6 of RFC 1036) as innbbsd tests it: site names
    between exclamation marks, looked for with strstr between two more of them. */
module Paths {
  import opened Basics

  const BANG: char := '!'

  /** strstr(s, t) != NULL */
  predicate Contains(s: string, t: string) {
    exists i :: 0 <= i <= |s| - |t| && OccursAt(s, t, i)
  }

  predicate OccursAt(s: string, t: string, i: nat) {
    i + |t| <= |s| && forall j :: 0 <= j < |t| ==> s[i + j] == t[j]
  }

  /** "!%s!" */
  function Banged(s: string): string {
    "!" + s + "!"
  }

  predicate OnPath(path: string, id: string) {
    Contains(Banged(path), Banged(id))
  }

  /** Where the first of a given character stands, or the length. */
  function Find(s: string, c: char): (n: nat)
    ensures FirstAt(s, c, 0, n)
  {
    FindFrom(s, c, 0)
  }

  /** From a place on, the first of a given character stands at `n`, or nowhere if that is the end. */
  predicate FirstAt(s: string, c: char, from: nat, n: nat) {
    from <= n <= |s| && (n < |s| ==> s[n] == c) && forall i :: from <= i < n ==> s[i] != c
  }

  function FindFrom(s: string, c: char, from: nat): (n: nat)
    requires from <= |s|
    ensures FirstAt(s, c, from, n)
  {
    Somewhere(s, c, from);
    var n: nat :| n <= |s| && FirstAt(s, c, from, n);
    n
  }

  lemma Somewhere(s: string, c: char, from: nat)
    requires from <= |s|
    ensures exists n: nat :: n <= |s| && FirstAt(s, c, from, n)
    decreases |s| - from
  {
    if from == |s| || s[from] == c {
      assert FirstAt(s, c, from, from);
    } else {
      Somewhere(s, c, from + 1);
      var n: nat :| n <= |s| && FirstAt(s, c, from + 1, n);
      assert FirstAt(s, c, from, n);
    }
  }

  /** The names on a path. */
  function Components(path: string): (names: seq<string>)
    ensures names != [] && forall k :: 0 <= k < |names| ==> BANG !in names[k]
    decreases |path|
  {
    var b := Find(path, BANG);
    if b == |path| then [path] else [path[..b]] + Components(path[b + 1..])
  }

  /** The test finds exactly the names on the path. */
  lemma {:induction false} ComponentIff(path: string, id: string)
    requires BANG !in id
    ensures OnPath(path, id) <==> id in Components(path)
    decreases |path|
  {
    var b := Find(path, BANG);
    assert Components(path)[0] == path[..b];
    if b < |path| {
      ComponentIff(path[b + 1..], id);
    }
    if OnPath(path, id) {
      var i :| 0 <= i <= |Banged(path)| - |Banged(id)| && OccursAt(Banged(path), Banged(id), i);
      if i == 0 {
        AtStart(path, id);
      } else {
        Further(path, id, i);
      }
    }
    if id in Components(path) {
      StartOccurs(path);
      if id != path[..b] {
        FromTail(path, b, id);
      }
    }
  }

  lemma FromTail(path: string, b: nat, id: string)
    requires b < |path| && path[b] == BANG && OnPath(path[b + 1..], id)
    ensures OnPath(path, id)
  {
    var i :| 0 <= i <= |Banged(path[b + 1..])| - |Banged(id)| && OccursAt(Banged(path[b + 1..]), Banged(id), i);
    Splits(path, b);
    ShiftBy("!" + path[..b], Banged(path[b + 1..]), Banged(id), i);
    assert OccursAt(Banged(path), Banged(id), b + 1 + i);
  }

  lemma AtStart(path: string, id: string)
    requires BANG !in id && OccursAt(Banged(path), Banged(id), 0)
    ensures id == path[..Find(path, BANG)]
  {
    var b, n := Find(path, BANG), |id|;
    forall j | 0 <= j < n ensures j < |path| && id[j] == path[j] {
      assert Banged(path)[0 + (j + 1)] == Banged(id)[j + 1] == id[j];
    }
    assert Banged(path)[0 + (n + 1)] == Banged(id)[n + 1] == '!';
    assert n < |path| ==> path[n] == '!';
  }

  lemma Splits(path: string, b: nat)
    requires b < |path| && path[b] == BANG
    ensures Banged(path) == ("!" + path[..b]) + Banged(path[b + 1..])
  {
    Rejoined(path, b);
    GroupedPairs("!", path[..b], "!" + path[b + 1..], "!");
  }

  lemma Rejoined(path: string, b: nat)
    requires b < |path| && path[b] == BANG
    ensures path == path[..b] + ("!" + path[b + 1..])
  {
  }

  lemma ShiftBy(u: string, v: string, t: string, i: nat)
    ensures OccursAt(u + v, t, |u| + i) <==> OccursAt(v, t, i)
  {
    if OccursAt(u + v, t, |u| + i) {
      forall j | 0 <= j < |t| ensures v[i + j] == t[j] {
        assert (u + v)[|u| + i + j] == v[i + j];
      }
    }
  }

  lemma Further(path: string, id: string, i: nat)
    requires i > 0 && OccursAt(Banged(path), Banged(id), i)
    ensures Find(path, BANG) < |path| && OnPath(path[Find(path, BANG) + 1..], id)
  {
    var b := Find(path, BANG);
    assert Banged(path)[i + 0] == Banged(id)[0] == '!';
    assert i <= |path| && path[i - 1] == '!';
    Splits(path, b);
    ShiftBy("!" + path[..b], Banged(path[b + 1..]), Banged(id), i - b - 1);
    assert OccursAt(Banged(path[b + 1..]), Banged(id), i - b - 1);
  }

  lemma StartOccurs(path: string)
    ensures OnPath(path, path[..Find(path, BANG)])
  {
    assert OccursAt(Banged(path), Banged(path[..Find(path, BANG)]), 0);
  }

  /** Names without an exclamation mark are the ones for which it does. */
  lemma TestIsExact(id: string)
    ensures BANG !in id <==> forall path :: OnPath(path, id) <==> id in Components(path)
  {
    if BANG !in id {
      forall path ensures OnPath(path, id) <==> id in Components(path) {
        ComponentIff(path, id);
      }
    } else {
      assert OccursAt(Banged(id), Banged(id), 0);
      assert OnPath(id, id) && id !in Components(id);
    }
  }

  /** A site puts its own name in front. */
  lemma Prefixed(me: string, path: string)
    requires BANG !in me
    ensures Components(me + "!" + path) == [me] + Components(path)
  {
    var p := me + "!" + path;
    FindAfter(me, path);
    assert p[..|me|] == me && p[|me| + 1..] == path;
  }

  lemma {:induction false} FindAfter(me: string, path: string)
    requires BANG !in me
    ensures Find(me + "!" + path, BANG) == |me|
  {
    assert (me + "!" + path)[|me|] == '!';
    assert forall n :: 0 <= n < |me| ==> (me + "!" + path)[n] == me[n];
  }

  // ----- Names cut to fit a buffer -----

  const ROOM := 1021

  /** "%.*s" with the room that path2 of isexcluded leaves. */
  function Cut(id: string): string {
    if |id| <= ROOM then id else id[..ROOM]
  }

  /** What isexcluded looks for in place of a name. */
  predicate Tested(path: string, id: string) {
    OnPath(path, Cut(id))
  }

  /** A node is passed over only for being on the path exactly if its name fits. */
  lemma CutIsExact(id: string)
    requires BANG !in id
    ensures |id| <= 1021 <==> forall path :: Tested(path, id) ==> id in Components(path)
  {
    if |id| <= ROOM {
      forall path | Tested(path, id) ensures id in Components(path) {
        ComponentIff(path, id);
      }
    } else {
      var path := Cut(id);
      assert OccursAt(Banged(path), Banged(path), 0);
      ComponentIff(path, path);
      assert Tested(path, id);
      NoBangIsOne(path);
    }
  }

  lemma NoBangIsOne(path: string)
    requires BANG !in path
    ensures Components(path) == [path]
  {
  }
}
