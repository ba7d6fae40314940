/** The incremental topological sort that fixes the order in which services are initialised. */
module DependencyResolver {
  import opened Basics
  import opened DependencyGraph

  const MAX_SERVICE_COUNT: nat := 256

  /** LoadInitSort counts the services already ordered in an int16_t. */
  const MAX_INT16: nat := 0x7fff

  datatype SortType = InitSort | StartSort | StopSort

  /** What `x` still waits for among the listed services, once those of `done` have been emitted. */
  ghost function Waiting(g: Graph, x: Name, among: seq<Name>, done: set<Name>): set<Name> {
    set b | b in among && b !in done && Edge(g, x, b)
  }

  ghost predicate IsEnumeration(names: seq<Name>, keys: set<Name>) {
    NoDup(names) && Elements(names) == keys
  }

  function Weight(g: Graph, a: Name, b: Name): int {
    if Edge(g, a, b) then 1 else 0
  }

  /** The array `graph` is the adjacency matrix of `g`. */
  ghost predicate IsMatrix(g: Graph, names: seq<Name>, graph: array2<int>)
    reads graph
  {
    && |names| <= graph.Length0 && |names| <= graph.Length1
    && forall a, b :: 0 <= a < |names| && 0 <= b < |names| ==> graph[a, b] == Weight(g, names[a], names[b])
  }

  /** A service's counter: how many services it waits for, or -1 when it has been emitted. */
  ghost function Degree(g: Graph, names: seq<Name>, done: set<Name>, x: Name): int {
    if x in done then -1 else |Waiting(g, x, names, done)|
  }

  ghost predicate IsOutDegree(g: Graph, names: seq<Name>, done: set<Name>, out: array<int>)
    reads out
  {
    |names| <= out.Length && forall a :: 0 <= a < |names| ==> out[a] == Degree(g, names, done, names[a])
  }

  /** Visits the keys of a map in some order; std::map's sorted order is one of those allowed here. */
  method Enumerate(keys: set<Name>) returns (names: seq<Name>)
    ensures IsEnumeration(names, keys) && |names| == |keys|
  {
    names := [];
    var rest := keys;
    while rest != {}
      invariant rest <= keys && NoDup(names) && Elements(names) == keys - rest
      invariant |names| + |rest| == |keys|
    {
      var x :| x in rest;
      assert x !in Elements(names);
      assert Elements(names + [x]) == Elements(names) + {x};
      names := names + [x];
      rest := rest - {x};
    }
  }

  lemma WaitingGrows(g: Graph, x: Name, names: seq<Name>, j: nat)
    requires j < |names| && NoDup(names)
    ensures |Waiting(g, x, names[..j + 1], {})| == |Waiting(g, x, names[..j], {})| + Weight(g, x, names[j])
  {
    var before, after := Waiting(g, x, names[..j], {}), Waiting(g, x, names[..j + 1], {});
    assert names[..j + 1] == names[..j] + [names[j]];
    assert names[j] !in before;
    if Edge(g, x, names[j]) {
      assert after == before + {names[j]};
    } else {
      assert after == before;
    }
  }

  method FillRow(g: Graph, names: seq<Name>, i: nat, graph: array2<int>, out: array<int>)
    requires |names| <= graph.Length0 && |names| <= graph.Length1 && |names| <= out.Length
    requires IsEnumeration(names, g.Keys) && i < |names|
    requires out[i] == 0 && forall b :: 0 <= b < |names| ==> graph[i, b] == 0
    modifies graph, out
    ensures forall b :: 0 <= b < |names| ==> graph[i, b] == Weight(g, names[i], names[b])
    ensures forall a, b :: 0 <= a < graph.Length0 && 0 <= b < graph.Length1 && a != i ==> graph[a, b] == old(graph[a, b])
    ensures out[i] == Degree(g, names, {}, names[i])
    ensures forall a :: 0 <= a < out.Length && a != i ==> out[a] == old(out[a])
  {
    var j := 0;
    while j < |names|
      invariant j <= |names|
      invariant forall b :: 0 <= b < j ==> graph[i, b] == Weight(g, names[i], names[b])
      invariant forall b :: j <= b < |names| ==> graph[i, b] == 0
      invariant forall a, b :: 0 <= a < graph.Length0 && 0 <= b < graph.Length1 && a != i ==> graph[a, b] == old(graph[a, b])
      invariant out[i] == |Waiting(g, names[i], names[..j], {})|
      invariant forall a :: 0 <= a < out.Length && a != i ==> out[a] == old(out[a])
    {
      assert names[i] in Elements(names) && names[j] in Elements(names);
      WaitingGrows(g, names[i], names, j);
      if i != j && names[j] in g[names[i]] {
        graph[i, j] := graph[i, j] + 1;
        out[i] := out[i] + 1;
      }
      j := j + 1;
    }
    assert names[..j] == names;
  }

  method BuildGraph(g: Graph, names: seq<Name>) returns (graph: array2<int>, out: array<int>)
    requires IsEnumeration(names, g.Keys) && |names| <= MAX_SERVICE_COUNT
    ensures fresh(graph) && fresh(out)
    ensures IsMatrix(g, names, graph) && IsOutDegree(g, names, {}, out)
  {
    graph := new int[MAX_SERVICE_COUNT, MAX_SERVICE_COUNT]((i, j) => 0);
    out := new int[MAX_SERVICE_COUNT](i => 0);
    var i := 0;
    while i < |names|
      invariant i <= |names|
      invariant forall a, b :: 0 <= a < i && 0 <= b < |names| ==> graph[a, b] == Weight(g, names[a], names[b])
      invariant forall a, b :: i <= a < |names| && 0 <= b < |names| ==> graph[a, b] == 0
      invariant forall a :: 0 <= a < i ==> out[a] == Degree(g, names, {}, names[a])
      invariant forall a :: i <= a < |names| ==> out[a] == 0
    {
      FillRow(g, names, i, graph, out);
      i := i + 1;
    }
  }

  /** Emitted services wait for nothing that is still left. */
  ghost predicate Closed(g: Graph, done: set<Name>) {
    forall a, b :: a in done && Edge(g, a, b) ==> b in done
  }

  lemma DegreeAfterEmit(g: Graph, names: seq<Name>, done: set<Name>, a: Name, x: Name)
    requires x in names && x !in done && a != x && Closed(g, done)
    ensures Degree(g, names, done + {x}, a) == Degree(g, names, done, a) - Weight(g, a, x)
  {
    var before, after := Waiting(g, a, names, done), Waiting(g, a, names, done + {x});
    if Edge(g, a, x) {
      assert before == after + {x};
    } else {
      assert before == after;
    }
  }

  /** By how much the counter at `k` goes down when the service at `j` is emitted. */
  lemma EmissionLowers(g: Graph, names: seq<Name>, done: set<Name>, k: nat, j: nat)
    requires NoDup(names) && k < |names| && j < |names| && names[j] !in done && Closed(g, done)
    ensures k == j ==> Weight(g, names[k], names[j]) == 0 && Degree(g, names, done + {names[j]}, names[k]) == -1
    ensures k != j ==>
      Degree(g, names, done + {names[j]}, names[k]) == Degree(g, names, done, names[k]) - Weight(g, names[k], names[j])
  {
    if k != j {
      DegreeAfterEmit(g, names, done, names[k], names[j]);
    }
  }

  /** Marks position `j`, and takes one off the count of every position that has an edge to it. */
  method LowerCounts(n: nat, j: nat, graph: array2<int>, out: array<int>)
    requires j < n <= graph.Length0 && n <= graph.Length1 && n <= out.Length && graph[j, j] <= 0
    modifies out
    ensures forall a :: 0 <= a < n ==> out[a] == if a == j then -1 else old(out[a]) - (if graph[a, j] > 0 then 1 else 0)
  {
    out[j] := -1;
    var k := 0;
    while k < n
      invariant k <= n && out[j] == -1
      invariant forall a :: 0 <= a < k && a != j ==> out[a] == old(out[a]) - (if graph[a, j] > 0 then 1 else 0)
      invariant forall a :: k <= a < n && a != j ==> out[a] == old(out[a])
    {
      if graph[k, j] > 0 {
        out[k] := out[k] - 1;
      }
      k := k + 1;
    }
  }

  /** Marks position `j` as emitted and takes it off every count that includes it. */
  method Emit(g: Graph, names: seq<Name>, ghost done: set<Name>, j: nat, graph: array2<int>, out: array<int>)
    requires IsMatrix(g, names, graph) && IsOutDegree(g, names, done, out) && NoDup(names)
    requires j < |names| && names[j] !in done && Closed(g, done)
    modifies out
    ensures IsOutDegree(g, names, done + {names[j]}, out)
  {
    assert graph[j, j] == Weight(g, names[j], names[j]) == 0;
    LowerCounts(|names|, j, graph, out);
    forall a | 0 <= a < |names| ensures out[a] == Degree(g, names, done + {names[j]}, names[a]) {
      EmissionLowers(g, names, done, a, j);
      assert graph[a, j] == Weight(g, names[a], names[j]);
      assert old(out[a]) == Degree(g, names, done, names[a]);
    }
  }

  /** What the sort has appended when it stops, complete or not. */
  ghost predicate Emission(g: Graph, emitted: seq<Name>) {
    NoDup(emitted) && Elements(emitted) <= g.Keys && Ordered(g, emitted)
  }

  lemma EmissionIsClosed(g: Graph, emitted: seq<Name>)
    requires Emission(g, emitted)
    ensures Closed(g, Elements(emitted))
  {
    forall a, b | a in Elements(emitted) && Edge(g, a, b) ensures b in Elements(emitted) {
      var i :| 0 <= i < |emitted| && emitted[i] == a;
      assert b in emitted[..i];
    }
  }

  /** One more emission: the new name waits only for emitted ones. */
  lemma EmissionGrows(g: Graph, names: seq<Name>, emitted: seq<Name>, x: Name)
    requires Elements(names) == g.Keys && Emission(g, emitted) && x in names
    requires Degree(g, names, Elements(emitted), x) == 0
    ensures Emission(g, emitted + [x])
    ensures Elements(emitted + [x]) == Elements(emitted) + {x}
  {
    var s := emitted + [x];
    assert Elements(s) == Elements(emitted) + {x};
    assert x in Elements(names);
    assert x !in Elements(emitted);
    forall i, d | 0 <= i < |s| && Edge(g, s[i], d) ensures d in s[..i] {
      if i < |emitted| {
        assert s[..i] == emitted[..i];
      } else {
        assert d in Elements(names);
        assert d !in Waiting(g, x, names, Elements(emitted));
        assert d in Elements(emitted);
        assert s[..i] == emitted;
      }
    }
  }

  lemma NonEmpty(s: set<Name>)
    requires |s| != 0
    ensures exists x :: x in s
  {
    assert s != {};
  }

  /** When every service left has a nonzero count, what is left is stuck. */
  lemma NoneReady(g: Graph, names: seq<Name>, done: set<Name>)
    requires Elements(names) == g.Keys
    requires forall x :: x in names ==> Degree(g, names, done, x) != 0
    ensures Stuck(g, g.Keys - done)
  {
    forall x | x in g.Keys - done ensures Waits(g, x, g.Keys - done) {
      assert x in Elements(names);
      assert Degree(g, names, done, x) == |Waiting(g, x, names, done)|;
      NonEmpty(Waiting(g, x, names, done));
      var b :| b in Waiting(g, x, names, done);
      assert b in g.Keys - done && Edge(g, x, b);
    }
  }

  /** The state between two rounds of the sort. */
  ghost predicate SortState(g: Graph, names: seq<Name>, emitted: seq<Name>, graph: array2<int>, out: array<int>)
    reads graph, out
  {
    && IsEnumeration(names, g.Keys) && Emission(g, emitted)
    && IsMatrix(g, names, graph) && IsOutDegree(g, names, Elements(emitted), out)
  }

  /** Emitted services come out of the sort; the others are those that a cycle keeps waiting. */
  ghost predicate SortResult(g: Graph, emitted: seq<Name>, ok: bool) {
    && Emission(g, emitted)
    && Stuck(g, g.Keys - Elements(emitted))
    && (ok <==> Elements(emitted) == g.Keys)
  }

  /** The sort succeeds exactly on acyclic graphs, and a failure comes with a cycle among the services left over. */
  lemma SortDecidesAcyclicity(g: Graph, emitted: seq<Name>, ok: bool)
    requires SortResult(g, emitted, ok)
    ensures ok <==> Acyclic(g)
    ensures !ok ==> exists c :: IsCycle(g, c) && Elements(c) !! Elements(emitted)
  {
    if ok {
      OrderExcludesCycles(g, emitted);
    } else {
      assert !(g.Keys <= Elements(emitted));
      var left :| left in g.Keys && left !in Elements(emitted);
      assert left in g.Keys - Elements(emitted);
      var c := StuckHasCycle(g, g.Keys - Elements(emitted));
    }
  }

  lemma NothingLeftToWaitFor(g: Graph, s: seq<Name>, i: nat, left: set<Name>)
    requires Ordered(g, s) && i < |s| && Elements(s[..i]) !! left
    ensures !Waits(g, s[i], left)
  {
    forall y | y in left ensures !Edge(g, s[i], y) {
      assert y !in Elements(s[..i]);
    }
  }

  /** Whatever order the services are visited in, the same ones are emitted. */
  lemma {:induction false} EmissionIsUnique(g: Graph, s: seq<Name>, t: seq<Name>, k: nat)
    requires Emission(g, s) && k <= |s|
    requires Stuck(g, g.Keys - Elements(t))
    ensures Elements(s[..k]) <= Elements(t)
  {
    if k == 0 {
    } else {
      EmissionIsUnique(g, s, t, k - 1);
      var x := s[k - 1];
      assert x in Elements(s);
      NothingLeftToWaitFor(g, s, k - 1, g.Keys - Elements(t));
      assert Elements(s[..k]) == Elements(s[..k - 1]) + {x};
    }
  }

  /** The first position whose counter is zero, or the number of positions when there is none. */
  method FindReady(names: seq<Name>, out: array<int>) returns (j: nat)
    requires |names| <= out.Length
    ensures j <= |names| && (j < |names| ==> out[j] == 0)
    ensures forall a :: 0 <= a < j ==> out[a] != 0
  {
    j := 0;
    while j < |names| && out[j] != 0
      invariant j <= |names|
      invariant forall a :: 0 <= a < j ==> out[a] != 0
    {
      j := j + 1;
    }
  }

  /** All the rounds found a ready service: everything has been emitted. */
  lemma AllEmitted(g: Graph, emitted: seq<Name>)
    requires Emission(g, emitted) && |emitted| == |g.Keys|
    ensures SortResult(g, emitted, true)
  {
    NoDupCardinality(emitted);
    SubsetCardinality(Elements(emitted), g.Keys);
  }

  /** A round found no ready service: the sort stops short, with a stuck rest. */
  lemma StoppedShort(g: Graph, names: seq<Name>, emitted: seq<Name>, out: array<int>)
    requires IsEnumeration(names, g.Keys) && |emitted| < |g.Keys| && Emission(g, emitted)
    requires IsOutDegree(g, names, Elements(emitted), out)
    requires forall a :: 0 <= a < |names| ==> out[a] != 0
    ensures SortResult(g, emitted, false)
  {
    NoneReady(g, names, Elements(emitted));
    NoDupCardinality(emitted);
  }

  /** One round: the first ready service is emitted; there may be none. */
  method EmitReady(g: Graph, names: seq<Name>, ghost emitted: seq<Name>, graph: array2<int>, out: array<int>)
    returns (j: nat)
    requires SortState(g, names, emitted, graph, out)
    modifies out
    ensures j < |names| ==> SortState(g, names, emitted + [names[j]], graph, out)
    ensures j >= |names| && |emitted| < |names| ==> SortResult(g, emitted, false)
  {
    j := FindReady(names, out);
    if j < |names| {
      EmissionIsClosed(g, emitted);
      EmissionGrows(g, names, emitted, names[j]);
      Emit(g, names, Elements(emitted), j, graph, out);
    } else if |emitted| < |names| {
      NoDupCardinality(names);
      StoppedShort(g, names, emitted, out);
    }
  }

  /** Two sorts of the same services, in whatever visiting orders, emit the same ones and agree on success. */
  lemma SortIsOrderIndependent(g: Graph, s: seq<Name>, t: seq<Name>, sOk: bool, tOk: bool)
    requires SortResult(g, s, sOk) && SortResult(g, t, tOk)
    ensures Elements(s) == Elements(t) && sOk == tOk
  {
    EmissionIsUnique(g, s, t, |s|);
    EmissionIsUnique(g, t, s, |t|);
    assert s[..|s|] == s && t[..|t|] == t;
  }

  /** `orders` is `before` followed by all that a sort of the new services emits. */
  ghost predicate Extension(before: seq<Name>, orders: seq<Name>, added: Graph) {
    before <= orders && SortResult(added, orders[|before|..], Acyclic(added))
  }

  /** The services that Init works on: the new ones, unless a cycle makes the sort fail. */
  ghost function Sorted(before: seq<Name>, orders: seq<Name>, added: Graph): seq<Name>
    requires before <= orders
  {
    if Acyclic(added) then orders[|before|..] else []
  }

  /** The rest of `orders` from the first service that is not running. */
  function FromFirstIdle(orders: seq<Name>, running: set<Name>): (rest: seq<Name>) {
    if orders != [] && orders[0] in running then FromFirstIdle(orders[1..], running) else orders
  }

  /** Where the start order begins: at the first idle service, everything before it being already running. */
  lemma {:induction false} FirstIdle(orders: seq<Name>, running: set<Name>) returns (offset: nat)
    ensures offset <= |orders| && FromFirstIdle(orders, running) == orders[offset..]
    ensures forall k :: 0 <= k < offset ==> orders[k] in running
    ensures offset < |orders| ==> orders[offset] !in running
  {
    offset := 0;
    if orders != [] && orders[0] in running {
      offset := FirstIdle(orders[1..], running);
      offset := offset + 1;
    }
  }

  class Resolver {
    var orders: seq<Name>

    constructor ()
      ensures orders == []
    {
      orders := [];
    }

    function GetNewServices(services: Graph): (added: Graph)
      reads this
      ensures added.Keys == services.Keys - Elements(orders)
      ensures forall x :: x in added ==> added[x] == services[x]
    {
      map x | x in services && x !in orders :: services[x]
    }

    method GetLackServices(services: Graph) returns (lack: seq<Name>)
      ensures forall d :: d in lack <==>
        d !in services && exists x :: x in services && x !in orders && d in services[x]
    {
      var added := GetNewServices(services);
      var names := Enumerate(added.Keys);
      lack := [];
      var i := 0;
      while i < |names|
        invariant i <= |names|
        invariant forall d :: d in lack <==> d !in services && exists x :: x in names[..i] && x in added && d in added[x]
      {
        var x := names[i];
        assert x in Elements(names);
        var dependency := Enumerate(added[x]);
        ghost var before := lack;
        var k := 0;
        while k < |dependency|
          invariant k <= |dependency|
          invariant forall d :: d in lack <==> d in before || (d !in services && d in dependency[..k])
        {
          if dependency[k] !in services {
            lack := lack + [dependency[k]];
          }
          k := k + 1;
        }
        assert dependency[..k] == dependency;
        assert forall d :: d in dependency <==> d in Elements(dependency);
        assert forall y :: y in names[..i + 1] <==> y in names[..i] || y == x;
        i := i + 1;
      }
      assert names[..i] == names;
      assert forall x :: x in names <==> x in Elements(names);
    }

    /** Appends to `orders` as it goes, so that a sort that meets a cycle leaves its acyclic part behind. */
    method TopSort(services: Graph) returns (ok: bool)
      requires |services| <= MAX_SERVICE_COUNT
      modifies this
      ensures old(orders) <= orders
      ensures SortResult(services, orders[|old(orders)|..], ok)
      ensures ok <==> Acyclic(services)
    {
      var names := Enumerate(services.Keys);
      assert |services| == |services.Keys|;
      var graph, out := BuildGraph(services, names);
      ghost var emitted: seq<Name> := [];
      assert Elements(emitted) == {};
      var i := 0;
      while i < |names|
        invariant i <= |names| && i == |emitted|
        invariant orders == old(orders) + emitted
        invariant SortState(services, names, emitted, graph, out)
      {
        var j := EmitReady(services, names, emitted, graph, out);
        if j >= |names| {
          assert orders[|old(orders)|..] == emitted;
          SortDecidesAcyclicity(services, emitted, false);
          return false;
        }
        orders := orders + [names[j]];
        emitted := emitted + [names[j]];
        i := i + 1;
      }
      assert orders[|old(orders)|..] == emitted;
      AllEmitted(services, emitted);
      SortDecidesAcyclicity(services, emitted, true);
      return true;
    }

    /** The services added to `orders` by this call, or nothing at all when the sort failed. */
    method LoadInitSort(services: Graph) returns (sorted: seq<Name>)
      requires |orders| <= MAX_INT16
      requires |GetNewServices(services)| <= MAX_SERVICE_COUNT
      modifies this
      ensures Extension(old(orders), orders, old(GetNewServices(services)))
      ensures sorted == Sorted(old(orders), orders, old(GetNewServices(services)))
    {
      var offset := |orders|;
      var ok := TopSort(GetNewServices(services));
      if ok {
        var it := 0;
        while offset != 0
          invariant it + offset == |old(orders)| && offset >= 0
          decreases offset
        {
          it := it + 1;
          offset := offset - 1;
        }
        return orders[it..];
      } else {
        return [];
      }
    }

    /** The init order is computed and recorded; the start order resumes at the first service not running. */
    method GetSort(services: Graph, running: set<Name>, kind: SortType) returns (sorted: seq<Name>)
      requires kind.InitSort? ==> |orders| <= MAX_INT16 && |GetNewServices(services)| <= MAX_SERVICE_COUNT
      requires kind.StartSort? ==> Elements(orders) <= services.Keys
      modifies this
      ensures !kind.InitSort? ==> orders == old(orders)
      ensures kind.InitSort? ==> Extension(old(orders), orders, old(GetNewServices(services)))
      ensures kind.InitSort? ==> sorted == Sorted(old(orders), orders, old(GetNewServices(services)))
      ensures kind.StartSort? ==> sorted == FromFirstIdle(orders, running)
      ensures kind.StopSort? ==> sorted == orders
    {
      match kind
      case InitSort =>
        sorted := LoadInitSort(services);
      case StartSort =>
        var offset := 0;
        while offset < |orders| && orders[offset] in running
          invariant offset <= |orders| && orders == old(orders)
          invariant FromFirstIdle(orders, running) == FromFirstIdle(orders[offset..], running)
        {
          offset := offset + 1;
        }
        sorted := orders[offset..];
      case StopSort =>
        sorted := orders;
    }
  }
}
