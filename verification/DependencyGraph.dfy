/** Dependency graphs among named services: cycles, orders, and why a sort that gets stuck has met a cycle. */
module DependencyGraph {
  import opened Basics

  type Name = string

  /** Each registered service with the names it depends on. */
  type Graph = map<Name, set<Name>>

  function Elements<T>(s: seq<T>): set<T> {
    set x | x in s
  }

  /** `a` must wait for `b`: both are vertices, and a service never waits for itself. */
  predicate Edge(g: Graph, a: Name, b: Name) {
    a in g && b in g && a != b && b in g[a]
  }

  /** Each member waits for the next one. */
  ghost predicate Walk(g: Graph, w: seq<Name>) {
    forall i, j :: 0 <= i < |w| && 0 <= j < |w| && j == i + 1 ==> Edge(g, w[i], w[j])
  }

  /** A walk whose last member waits for its first one. */
  ghost predicate IsCycle(g: Graph, c: seq<Name>) {
    |c| > 0 && Walk(g, c) && Edge(g, c[|c| - 1], c[0])
  }

  ghost predicate Acyclic(g: Graph) {
    forall c :: !IsCycle(g, c)
  }

  /** Every service of `s` comes after all the vertices it waits for. */
  ghost predicate Ordered(g: Graph, s: seq<Name>) {
    forall i, d :: 0 <= i < |s| && Edge(g, s[i], d) ==> d in s[..i]
  }

  /** `x` still waits for a service of `rest`. */
  ghost predicate Waits(g: Graph, x: Name, rest: set<Name>) {
    exists y :: y in rest && Edge(g, x, y)
  }

  /** Every service of `rest` still waits for another one of `rest`. */
  ghost predicate Stuck(g: Graph, rest: set<Name>) {
    forall x {:trigger Waits(g, x, rest)} :: x in rest ==> Waits(g, x, rest)
  }

  function IndexOf(s: seq<Name>, x: Name): (i: nat)
    requires x in s
    ensures i < |s| && s[i] == x
    ensures forall k :: 0 <= k < |s| && s[k] == x ==> i <= k
  {
    if s[0] == x then 0 else IndexOf(s[1..], x) + 1
  }

  lemma NoDupCardinality<T>(s: seq<T>)
    requires NoDup(s)
    ensures |Elements(s)| == |s|
  {
    if s != [] {
      NoDupCardinality(s[1..]);
      assert Elements(s) == {s[0]} + Elements(s[1..]);
      assert s[0] !in Elements(s[1..]);
    }
  }

  lemma SubsetCardinality<T>(a: set<T>, b: set<T>)
    requires a <= b
    ensures |a| <= |b|
    ensures |a| == |b| ==> a == b
  {
    if a != {} {
      var x :| x in a;
      SubsetCardinality(a - {x}, b - {x});
    }
  }

  /** Going round a cycle, first positions in an ordered list only decrease. */
  lemma {:induction false} CycleDescends(g: Graph, s: seq<Name>, c: seq<Name>, i: nat)
    requires Ordered(g, s) && IsCycle(g, c) && i < |c|
    requires forall x :: x in c ==> x in s
    ensures IndexOf(s, c[i]) + i <= IndexOf(s, c[0])
  {
    if i == 0 {
    } else {
      CycleDescends(g, s, c, i - 1);
      EdgeDescends(g, s, c[i - 1], c[i]);
    }
  }

  lemma EdgeDescends(g: Graph, s: seq<Name>, a: Name, b: Name)
    requires Ordered(g, s) && Edge(g, a, b) && a in s && b in s
    ensures IndexOf(s, b) < IndexOf(s, a)
  {
    var i := IndexOf(s, a);
    assert b in s[..i];
    var k :| 0 <= k < i && s[..i][k] == b;
    assert s[k] == b;
  }

  /** A complete order of all the vertices leaves no room for a cycle. */
  lemma OrderExcludesCycles(g: Graph, s: seq<Name>)
    requires Ordered(g, s) && Elements(s) == g.Keys
    ensures Acyclic(g)
  {
    forall c ensures !IsCycle(g, c) {
      if IsCycle(g, c) {
        forall x | x in c ensures x in s {
          var i :| 0 <= i < |c| && c[i] == x;
          assert i + 1 < |c| ==> Edge(g, c[i], c[i + 1]);
          assert x in Elements(s);
        }
        var n := |c|;
        CycleDescends(g, s, c, n - 1);
        EdgeDescends(g, s, c[n - 1], c[0]);
      }
    }
  }

  lemma CloseWalk(g: Graph, w: seq<Name>, k: nat)
    requires Walk(g, w) && k < |w| && Edge(g, w[|w| - 1], w[k])
    ensures IsCycle(g, w[k..]) && Elements(w[k..]) <= Elements(w)
  {
  }

  lemma LongerWalk(g: Graph, w: seq<Name>, y: Name)
    requires Walk(g, w) && NoDup(w) && w != [] && Edge(g, w[|w| - 1], y) && y !in w
    ensures Walk(g, w + [y]) && NoDup(w + [y]) && Elements(w + [y]) == Elements(w) + {y}
  {
  }

  /** Pigeonhole: a walk that never leaves a stuck set must close up. */
  lemma {:induction false} ExtendWalk(g: Graph, rest: set<Name>, w: seq<Name>) returns (c: seq<Name>)
    requires Stuck(g, rest) && Walk(g, w) && NoDup(w) && w != [] && Elements(w) <= rest
    ensures IsCycle(g, c) && Elements(c) <= rest
    decreases |rest| - |w|
  {
    var last := w[|w| - 1];
    assert last in Elements(w);
    assert Waits(g, last, rest);
    var y :| y in rest && Edge(g, last, y);
    if y in w {
      var k := IndexOf(w, y);
      CloseWalk(g, w, k);
      c := w[k..];
    } else {
      LongerWalk(g, w, y);
      NoDupCardinality(w + [y]);
      SubsetCardinality(Elements(w + [y]), rest);
      c := ExtendWalk(g, rest, w + [y]);
    }
  }

  /** A nonempty set of services that all wait for each other contains a cycle. */
  lemma StuckHasCycle(g: Graph, rest: set<Name>) returns (c: seq<Name>)
    requires Stuck(g, rest) && rest != {}
    ensures IsCycle(g, c) && Elements(c) <= rest
  {
    var x :| x in rest;
    c := ExtendWalk(g, rest, [x]);
  }
}
