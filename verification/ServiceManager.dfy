/** Registration, initialisation, start and stop of services in dependency order. */
module ServiceManager {
  import opened Basics
  import opened DependencyGraph
  import DR = DependencyResolver

  predicate Needs(services: Graph, x: Name, d: Name) {
    x in services && d in services[x] && d != x
  }

  /** Every service of `s` comes after all its dependencies; `before` says which ones came earlier. */
  ghost predicate DependenciesFirst(services: Graph, before: set<Name>, s: seq<Name>) {
    forall k, d {:trigger Needs(services, s[k], d)} :: 0 <= k < |s| && Needs(services, s[k], d) ==> d in before || d in s[..k]
  }

  /** No dependency is missing: what the lack check asks of the services not yet ordered. */
  ghost predicate Complete(services: Graph, unordered: set<Name>) {
    forall x, d :: x in unordered && x in services && d in services[x] ==> d in services
  }

  lemma DependenciesFirstConcat(services: Graph, s: seq<Name>, t: seq<Name>)
    requires DependenciesFirst(services, {}, s) && DependenciesFirst(services, Elements(s), t)
    ensures DependenciesFirst(services, {}, s + t)
  {
    var all := s + t;
    forall k, d | 0 <= k < |all| && Needs(services, all[k], d) ensures d in all[..k] {
      if k < |s| {
        assert all[..k] == s[..k];
      } else {
        var i := k - |s|;
        assert all[k] == t[i] && all[..k] == s + t[..i];
        assert Needs(services, t[i], d);
        assert d in Elements(s) || d in t[..i];
      }
    }
  }

  /** A sort of the new services extends an order that respects dependencies into a longer one. */
  lemma OrderExtends(services: Graph, orders: seq<Name>, added: Graph, emitted: seq<Name>)
    requires NoDup(orders) && Elements(orders) <= services.Keys && DependenciesFirst(services, {}, orders)
    requires added.Keys == services.Keys - Elements(orders)
    requires forall x :: x in added ==> added[x] == services[x]
    requires Complete(services, added.Keys)
    requires DR.Emission(added, emitted)
    ensures NoDup(orders + emitted) && Elements(orders + emitted) == Elements(orders) + Elements(emitted)
    ensures DependenciesFirst(services, {}, orders + emitted)
    ensures DependenciesFirst(services, Elements(orders), emitted)
  {
    var all := orders + emitted;
    assert forall k :: 0 <= k < |orders| ==> all[k] in Elements(orders);
    assert forall k :: |orders| <= k < |all| ==> all[k] in Elements(emitted);
    forall k, d | 0 <= k < |emitted| && Needs(services, emitted[k], d)
      ensures d in Elements(orders) || d in emitted[..k]
    {
      assert emitted[k] in Elements(emitted);
      if d !in Elements(orders) {
        assert Edge(added, emitted[k], d);
      }
    }
    DependenciesFirstConcat(services, orders, emitted);
  }

  /** The calls made to `s` in turn until one is refused, the refused one included. */
  function CallsMade(s: seq<Name>, accepts: Name -> bool): seq<Name> {
    if s == [] then [] else if accepts(s[0]) then [s[0]] + CallsMade(s[1..], accepts) else [s[0]]
  }

  /** All the calls but the last are accepted; the last one is refused unless all of `s` has been called. */
  lemma {:induction false} CallsStopAtRefusal(s: seq<Name>, accepts: Name -> bool)
    ensures
      var calls := CallsMade(s, accepts);
      && calls <= s
      && (forall k :: 0 <= k < |calls| - 1 ==> accepts(calls[k]))
      && (if forall x :: x in s ==> accepts(x) then calls == s else calls != [] && !accepts(calls[|calls| - 1]))
  {
    if s == [] {
    } else {
      CallsStopAtRefusal(s[1..], accepts);
    }
  }

  ghost function Accepted(s: seq<Name>, accepts: Name -> bool): set<Name> {
    set x | x in s && accepts(x)
  }

  lemma DependenciesFirstPrefix(services: Graph, before: set<Name>, s: seq<Name>, t: seq<Name>)
    requires DependenciesFirst(services, before, s) && t <= s
    ensures DependenciesFirst(services, before, t)
  {
    assert forall k :: 0 <= k < |t| ==> t[..k] == s[..k];
  }

  /**
   * One round of Init that passed the lack check: the services `added` since the last round are sorted behind
   * `before`, giving `orders`, and called in that order up to the first refusal; none is called if they have a cycle.
   */
  ghost predicate InitRound(services: Graph, before: seq<Name>, orders: seq<Name>, added: Graph,
                            accepts: Name -> bool, ok: bool, inits: seq<Name>)
  {
    && DR.Extension(before, orders, added)
    && DependenciesFirst(services, Elements(before), inits)
    && var sorted := DR.Sorted(before, orders, added);
       inits == CallsMade(sorted, accepts) && (ok <==> forall x :: x in sorted ==> accepts(x))
  }

  /**
   * What a round makes of the set of initialised services. Init may answer true and leave services out: every registered
   * service is initialised after it exactly when it answers true, the new services have no cycle, and every service
   * ordered before had been initialised. Services ordered before are not called again, so what a refusal or a cycle has
   * left out stays out.
   */
  lemma InitIsCompleteIff(services: Graph, before: seq<Name>, orders: seq<Name>, added: Graph, accepts: Name -> bool,
                          ok: bool, inits: seq<Name>, inited: set<Name>)
    requires InitRound(services, before, orders, added, accepts, ok, inits)
    requires Elements(before) <= services.Keys && added.Keys == services.Keys - Elements(before)
    requires inited <= Elements(before)
    ensures
      var after := inited + Accepted(inits, accepts);
      && (after == services.Keys <==> ok && Acyclic(added) && inited == Elements(before))
      && (after == Elements(orders) <==>
            inited == Elements(before) && if Acyclic(added) then ok else orders == before)
    ensures forall x :: x in before ==> x !in inits
  {
    var sorted := DR.Sorted(before, orders, added);
    CallsStopAtRefusal(sorted, accepts);
    SortedIsAllOrNothing(before, orders, added);
    forall x | x in inits ensures x !in before {
      assert x in sorted && x in Elements(sorted);
      assert x in before ==> x in Elements(before);
    }
    OrderSplits(before, orders, added);
    if ok {
      assert Accepted(inits, accepts) == Elements(sorted);
    } else {
      var x :| x in sorted && !accepts(x);
      assert x in Elements(sorted) && x !in Accepted(inits, accepts);
    }
  }

  /** The order after a round: what was ordered before, and new services behind it, all of them if there is no cycle. */
  lemma OrderSplits(before: seq<Name>, orders: seq<Name>, added: Graph)
    requires DR.Extension(before, orders, added)
    ensures
      var later := Elements(orders[|before|..]);
      && Elements(orders) == Elements(before) + later && later <= added.Keys
      && (Acyclic(added) ==> later == added.Keys)
      && (later == {} <==> orders == before)
  {
    var rest := orders[|before|..];
    assert orders == before + rest;
    NoElementsEmpty(rest);
  }

  lemma NoElementsEmpty(s: seq<Name>)
    ensures Elements(s) == {} <==> s == []
  {
    if s != [] {
      assert s[0] in Elements(s);
    }
  }

  /** The sorted services are all the new ones, or, on a cycle, none. */
  lemma SortedIsAllOrNothing(before: seq<Name>, orders: seq<Name>, added: Graph)
    requires DR.Extension(before, orders, added)
    ensures Elements(DR.Sorted(before, orders, added)) == if Acyclic(added) then added.Keys else {}
    ensures !Acyclic(added) ==> added.Keys != {}
  {
    if !Acyclic(added) {
      var c :| IsCycle(added, c);
      assert c[0] in added;
    }
  }

  /** A sort of two services that wait for each other and a third that waits for neither. */
  lemma CycleExample(emitted: seq<Name>, ok: bool)
    requires DR.SortResult(map["a" := {"b"}, "b" := {"a"}, "c" := {}], emitted, ok)
    ensures !ok && emitted == ["c"]
  {
    var g: Graph := map["a" := {"b"}, "b" := {"a"}, "c" := {}];
    assert IsCycle(g, ["a", "b"]);
    DR.SortDecidesAcyclicity(g, emitted, ok);
    assert DR.Emission(g, ["c"]);
    DR.EmissionIsUnique(g, ["c"], emitted, 1);
    assert ["c"][..1] == ["c"] && "c" in ["c"];
    assert Waits(g, "a", {"a", "b"}) && Waits(g, "b", {"a", "b"}) by {
      assert Edge(g, "a", "b") && Edge(g, "b", "a");
    }
    assert DR.Emission(g, emitted);
    assert Stuck(g, g.Keys - Elements(["c"]));
    DR.EmissionIsUnique(g, emitted, ["c"], |emitted|);
    assert emitted[..|emitted|] == emitted;
    NoDupCardinality(emitted);
    assert Elements(emitted) == {"c"};
    assert |emitted| == 1 && emitted[0] in Elements(emitted);
  }

  /** When a service is started, each of its dependencies is running or has been started before it. */
  ghost predicate StartsSafe(services: Graph, running: set<Name>, starts: seq<Name>) {
    DependenciesFirst(services, running, starts)
  }

  /** When a service is stopped, no other service that is still running depends on it. */
  ghost predicate StopsSafe(services: Graph, running: set<Name>, stops: seq<Name>) {
    forall k, x :: 0 <= k < |stops| && x in running && Needs(services, x, stops[k]) ==> x in stops[..k]
  }

  /** What comes before the start order is running, so the start order respects dependencies too. */
  lemma SuffixIsSafe(services: Graph, running: set<Name>, orders: seq<Name>, offset: nat)
    requires DependenciesFirst(services, {}, orders) && offset <= |orders|
    requires forall k :: 0 <= k < offset ==> orders[k] in running
    ensures StartsSafe(services, running, orders[offset..])
  {
    var sorted := orders[offset..];
    forall k, d | 0 <= k < |sorted| && Needs(services, sorted[k], d) ensures d in running || d in sorted[..k] {
      assert Needs(services, orders[offset + k], d);
      assert d in orders[..offset + k];
      assert orders[..offset + k] == orders[..offset] + sorted[..k];
    }
  }

  /** Starting the rest of the order adds ordered services only, and all of them if none refuses. */
  lemma StartEffect(running: set<Name>, orders: seq<Name>, offset: nat, accepts: Name -> bool)
    requires offset <= |orders| && running <= Elements(orders)
    requires forall k :: 0 <= k < offset ==> orders[k] in running
    ensures
      var after := running + Accepted(CallsMade(orders[offset..], accepts), accepts);
      && after <= Elements(orders)
      && ((forall x :: x in orders[offset..] ==> accepts(x)) ==> after == Elements(orders))
  {
    var sorted := orders[offset..];
    assert orders == orders[..offset] + sorted;
    var starts := CallsMade(sorted, accepts);
    CallsStopAtRefusal(sorted, accepts);
    assert forall x :: x in starts ==> x in sorted;
  }

  /** What a start does that takes the services from the first idle one on. */
  lemma StartIsRight(services: Graph, running: set<Name>, orders: seq<Name>, sorted: seq<Name>, accepts: Name -> bool,
                     starts: seq<Name>, after: set<Name>)
    requires DependenciesFirst(services, {}, orders) && running <= Elements(orders)
    requires sorted == DR.FromFirstIdle(orders, running) && starts == CallsMade(sorted, accepts)
    requires after == running + Accepted(starts, accepts)
    ensures StartsSafe(services, running, starts) && after <= Elements(orders)
    ensures (forall x :: x in sorted ==> accepts(x)) ==> after == Elements(orders)
  {
    var offset := DR.FirstIdle(orders, running);
    SuffixIsSafe(services, running, orders, offset);
    StartEffect(running, orders, offset, accepts);
    CallsStopAtRefusal(sorted, accepts);
    DependenciesFirstPrefix(services, running, sorted, starts);
  }

  lemma StopIsSafe(services: Graph, running: set<Name>, orders: seq<Name>, i: nat, stops: seq<Name>)
    requires DependenciesFirst(services, {}, orders) && NoDup(orders) && i < |orders|
    requires running <= Elements(orders)
    requires Elements(stops) == running * Elements(orders[i + 1..])
    requires StopsSafe(services, running, stops)
    ensures StopsSafe(services, running, stops + [orders[i]])
  {
    var t := stops + [orders[i]];
    forall k, x | 0 <= k < |t| && x in running && Needs(services, x, t[k]) ensures x in t[..k] {
      if k < |stops| {
        assert t[k] == stops[k] && t[..k] == stops[..k];
      } else {
        assert t[..k] == stops;
        assert x in Elements(orders);
        var j :| 0 <= j < |orders| && orders[j] == x;
        assert Needs(services, orders[j], orders[i]);
        assert orders[i] in orders[..j];
        assert j > i;
        assert orders[i + 1..][j - i - 1] == x;
        assert x in Elements(orders[i + 1..]);
        assert x in Elements(stops);
      }
    }
  }

  class Manager {
    /** The registered services, each with its fixed dependencies. */
    var services: Graph
    var initialized: bool
    var running: bool
    var resolver: DR.Resolver
    /** The services whose IsRunning answers true. */
    var runningServices: set<Name>
    /** The services whose Init has been called and has succeeded. */
    ghost var inited: set<Name>

    ghost predicate Valid()
      reads this, resolver
    {
      && NoDup(resolver.orders)
      && Elements(resolver.orders) <= services.Keys
      && DependenciesFirst(services, {}, resolver.orders)
      && inited <= Elements(resolver.orders)
      && runningServices <= Elements(resolver.orders)
    }

    /** No ordered service has been left out by a refusal or a cycle. */
    ghost predicate AllInited()
      reads this, resolver
    {
      inited == Elements(resolver.orders)
    }

    /** Takes a service off the table; the order list is not told, so that an ordered service must not be taken off. */
    method Deregister(name: Name) returns (found: bool)
      requires Valid()
      modifies this`services
      ensures found <==> name in old(services)
      ensures services == old(services) - {name}
      ensures found ==> (Valid() <==> name !in resolver.orders)
    {
      found := name in services;
      services := services - {name};
      assert name in resolver.orders ==> name in Elements(resolver.orders);
      assert forall k, d :: 0 <= k < |resolver.orders| && Needs(services, resolver.orders[k], d) ==>
        Needs(old(services), resolver.orders[k], d);
    }

    /** Every dependency of a service not yet ordered is registered. */
    ghost predicate NothingLacks()
      reads this, resolver
    {
      Complete(services, services.Keys - Elements(resolver.orders))
    }

    constructor ()
      ensures Valid() && fresh(resolver) && services == map[] && resolver.orders == []
      ensures !initialized && !running && runningServices == {} && inited == {}
    {
      services, initialized, running := map[], false, false;
      resolver := new DR.Resolver();
      runningServices, inited := {}, {};
    }

    method Register(name: Name, dependencies: set<Name>) returns (ok: bool)
      requires Valid()
      modifies this
      ensures Valid() && resolver == old(resolver)
      ensures ok <==> name !in old(services)
      ensures services == if ok then old(services)[name := dependencies] else old(services)
      ensures inited == old(inited) && runningServices == old(runningServices)
      ensures initialized == old(initialized) && running == old(running)
    {
      if name in services {
        return false;
      }
      services := services[name := dependencies];
      forall k, d | 0 <= k < |resolver.orders| && Needs(services, resolver.orders[k], d) ensures d in resolver.orders[..k] {
        assert resolver.orders[k] in Elements(resolver.orders);
        assert Needs(old(services), resolver.orders[k], d);
      }
      return true;
    }

    /**
     * Calls Init on the new services, dependencies first, after injecting their dependencies.
     * `accepts` gives the answers of the services' own Init, and `inits` and `injected` the calls made.
     */
    method Init(accepts: Name -> bool) returns (ok: bool, injected: seq<(Name, Name)>, inits: seq<Name>)
      requires Valid() && |resolver.orders| <= DR.MAX_INT16
      requires |resolver.GetNewServices(services)| <= DR.MAX_SERVICE_COUNT
      modifies this`initialized, this`inited, resolver
      ensures Valid()
      // A missing dependency: nothing happens.
      ensures !old(NothingLacks()) ==> !ok && injected == [] && inits == [] && resolver.orders == old(resolver.orders)
      // Otherwise the new services are sorted behind the old ones, and called in that order unless there is a cycle.
      ensures old(NothingLacks()) ==>
        InitRound(services, old(resolver.orders), resolver.orders, old(resolver.GetNewServices(services)), accepts, ok, inits)
      ensures old(NothingLacks()) ==>
        var sorted := DR.Sorted(old(resolver.orders), resolver.orders, old(resolver.GetNewServices(services)));
        forall x, d :: (x, d) in injected <==> x in sorted && d in services[x]
      ensures inited == old(inited) + Accepted(inits, accepts)
      ensures initialized == (ok || old(initialized))
      // Every registered service has been initialised exactly when the answer is true, there is no cycle, and no earlier
      // round has left a service out.
      ensures old(NothingLacks()) ==>
        var added, before := old(resolver.GetNewServices(services)), old(resolver.orders);
        && (inited == services.Keys <==> ok && Acyclic(added) && old(inited) == Elements(before))
        && (AllInited() <==> old(AllInited()) && if Acyclic(added) then ok else resolver.orders == before)
      ensures !old(NothingLacks()) ==> inited == old(inited)
    {
      ghost var before, added, inited0 := resolver.orders, resolver.GetNewServices(services), inited;
      var lack := resolver.GetLackServices(services);
      if lack != [] {
        assert lack[0] in lack;
        return false, [], [];
      }
      assert NothingLacks() by { assert forall d :: d !in lack; }
      ok, injected, inits := InitNew(accepts);
      InitIsCompleteIff(services, before, resolver.orders, added, accepts, ok, inits, inited0);
      if ok {
        initialized := true;
      }
    }

    /** Sorts, injects and initialises the new services. */
    method InitNew(accepts: Name -> bool) returns (ok: bool, injected: seq<(Name, Name)>, inits: seq<Name>)
      requires Valid() && |resolver.orders| <= DR.MAX_INT16 && NothingLacks()
      requires |resolver.GetNewServices(services)| <= DR.MAX_SERVICE_COUNT
      modifies this`inited, resolver
      ensures Valid()
      ensures
        var added := old(resolver.GetNewServices(services));
        InitRound(services, old(resolver.orders), resolver.orders, added, accepts, ok, inits)
      ensures
        var sorted := DR.Sorted(old(resolver.orders), resolver.orders, old(resolver.GetNewServices(services)));
        forall x, d :: (x, d) in injected <==> x in sorted && d in services[x]
      ensures inited == old(inited) + Accepted(inits, accepts)
    {
      ghost var before := Elements(resolver.orders);
      var sorted := SortNew();
      injected := InjectAll(sorted);
      CallsStopAtRefusal(sorted, accepts);
      ok, inits := CallInits(sorted, accepts);
      DependenciesFirstPrefix(services, before, sorted, inits);
      assert forall x :: x in sorted ==> x in Elements(sorted);
    }

    /** The new services in the order in which they will be initialised; none if a cycle makes the sort fail. */
    method SortNew() returns (sorted: seq<Name>)
      requires Valid() && |resolver.orders| <= DR.MAX_INT16 && NothingLacks()
      requires |resolver.GetNewServices(services)| <= DR.MAX_SERVICE_COUNT
      modifies resolver
      ensures Valid()
      ensures DR.Extension(old(resolver.orders), resolver.orders, old(resolver.GetNewServices(services)))
      ensures sorted == DR.Sorted(old(resolver.orders), resolver.orders, old(resolver.GetNewServices(services)))
      ensures DependenciesFirst(services, Elements(old(resolver.orders)), sorted)
      ensures Elements(sorted) <= Elements(resolver.orders)
    {
      ghost var before, added := resolver.orders, resolver.GetNewServices(services);
      sorted := resolver.GetSort(services, runningServices, DR.InitSort);
      ghost var emitted := resolver.orders[|before|..];
      OrderExtends(services, before, added, emitted);
      assert before + emitted == resolver.orders;
    }

    method CallInits(sorted: seq<Name>, accepts: Name -> bool) returns (ok: bool, inits: seq<Name>)
      modifies this`inited
      ensures inits == CallsMade(sorted, accepts)
      ensures ok <==> forall x :: x in sorted ==> accepts(x)
      ensures inited == old(inited) + Accepted(inits, accepts)
    {
      inits := [];
      var i := 0;
      while i < |sorted|
        invariant i <= |sorted| && CallsMade(sorted, accepts) == inits + CallsMade(sorted[i..], accepts)
        invariant inits == sorted[..i] && forall x :: x in inits ==> accepts(x)
        invariant inited == old(inited) + Accepted(inits, accepts)
      {
        var service := sorted[i];
        ghost var made := inits;
        inits := inits + [service];
        assert made + CallsMade(sorted[i..], accepts) ==
          inits + if accepts(service) then CallsMade(sorted[i + 1..], accepts) else [];
        var res := accepts(service);
        if !res {
          assert Accepted(inits, accepts) == Accepted(made, accepts);
          return false, inits;
        }
        assert Accepted(inits, accepts) == Accepted(made, accepts) + {service};
        inited := inited + {service};
        i := i + 1;
      }
      return true, inits;
    }

    /** Hands every sorted service all of its registered dependencies. */
    method InjectAll(sorted: seq<Name>) returns (injected: seq<(Name, Name)>)
      requires Elements(sorted) <= services.Keys
      ensures forall x, d :: (x, d) in injected <==> x in sorted && d in services[x] && d in services
    {
      injected := [];
      var i := 0;
      while i < |sorted|
        invariant i <= |sorted|
        invariant forall x, d :: (x, d) in injected <==> x in sorted[..i] && d in services[x] && d in services
      {
        var service := sorted[i];
        var dependency := DR.Enumerate(services[service]);
        ghost var before := injected;
        var k := 0;
        while k < |dependency|
          invariant k <= |dependency|
          invariant forall x, d :: (x, d) in injected <==>
            (x, d) in before || (x == service && d in dependency[..k] && d in services)
        {
          if dependency[k] in services {
            injected := injected + [(service, dependency[k])];
          }
          k := k + 1;
        }
        assert dependency[..k] == dependency;
        assert forall d :: d in dependency <==> d in Elements(dependency);
        assert forall x :: x in sorted[..i + 1] <==> x in sorted[..i] || x == service;
        i := i + 1;
      }
      assert sorted[..i] == sorted;
    }

    /** Starts the ordered services from the first one that is not running; `starts` lists the calls made. */
    method Start(accepts: Name -> bool) returns (ok: bool, starts: seq<Name>)
      requires Valid()
      modifies this`running, this`runningServices, resolver
      ensures Valid() && resolver.orders == old(resolver.orders)
      ensures !initialized ==> !ok && starts == []
      ensures ok ==> running && runningServices == Elements(resolver.orders)
      ensures !ok ==> running == old(running)
      ensures initialized ==>
        var sorted := DR.FromFirstIdle(resolver.orders, old(runningServices));
        starts == CallsMade(sorted, accepts) && (ok <==> forall x :: x in sorted ==> accepts(x))
      ensures runningServices == old(runningServices) + Accepted(starts, accepts)
      ensures StartsSafe(services, old(runningServices), starts)
      // After a full start, every running service has been initialised exactly when none has been left out.
      ensures ok ==> (runningServices <= inited <==> AllInited())
    {
      if !initialized {
        return false, [];
      }
      var sorted := resolver.GetSort(services, runningServices, DR.StartSort);
      ok, starts := StartSorted(sorted, accepts);
      if ok {
        running := true;
      }
    }

    method StartSorted(sorted: seq<Name>, accepts: Name -> bool) returns (ok: bool, starts: seq<Name>)
      requires Valid() && sorted == DR.FromFirstIdle(resolver.orders, runningServices)
      modifies this`runningServices
      ensures Valid()
      ensures starts == CallsMade(sorted, accepts) && (ok <==> forall x :: x in sorted ==> accepts(x))
      ensures ok ==> runningServices == Elements(resolver.orders)
      ensures runningServices == old(runningServices) + Accepted(starts, accepts)
      ensures StartsSafe(services, old(runningServices), starts)
    {
      ghost var before := runningServices;
      ok, starts := CallStarts(sorted, accepts);
      StartIsRight(services, before, resolver.orders, sorted, accepts, starts, runningServices);
    }

    method CallStarts(sorted: seq<Name>, accepts: Name -> bool) returns (ok: bool, starts: seq<Name>)
      modifies this`runningServices
      ensures starts == CallsMade(sorted, accepts)
      ensures ok <==> forall x :: x in sorted ==> accepts(x)
      ensures runningServices == old(runningServices) + Accepted(starts, accepts)
    {
      starts := [];
      var i := 0;
      while i < |sorted|
        invariant i <= |sorted| && CallsMade(sorted, accepts) == starts + CallsMade(sorted[i..], accepts)
        invariant starts == sorted[..i] && forall x :: x in starts ==> accepts(x)
        invariant runningServices == old(runningServices) + Accepted(starts, accepts)
      {
        var service := sorted[i];
        ghost var made := starts;
        starts := starts + [service];
        assert made + CallsMade(sorted[i..], accepts) ==
          starts + if accepts(service) then CallsMade(sorted[i + 1..], accepts) else [];
        var res := accepts(service);
        if !res {
          assert Accepted(starts, accepts) == Accepted(made, accepts);
          return false, starts;
        }
        assert Accepted(starts, accepts) == Accepted(made, accepts) + {service};
        runningServices := runningServices + {service};
        i := i + 1;
      }
      return true, starts;
    }

    /** Stops the running services, the last ordered first; `stops` lists the calls made. */
    method Stop(accepts: Name -> bool) returns (ok: bool, stops: seq<Name>)
      requires Valid()
      modifies this`running, this`runningServices, resolver
      ensures Valid() && resolver.orders == old(resolver.orders)
      ensures ok ==> !running && runningServices == {} && Elements(stops) == old(runningServices)
      ensures !ok ==> running == old(running)
      ensures ok <==> forall x :: x in stops ==> accepts(x)
      ensures runningServices == old(runningServices) - Accepted(stops, accepts)
      ensures StopsSafe(services, old(runningServices), stops)
    {
      stops := [];
      ghost var before := runningServices;
      var orders := resolver.GetSort(services, runningServices, DR.StopSort);
      var i := |orders|;
      while i > 0
        invariant 0 <= i <= |orders| && running == old(running) && orders == resolver.orders == old(resolver.orders)
        invariant forall x :: x in stops ==> accepts(x)
        invariant Elements(stops) == before * Elements(orders[i..])
        invariant runningServices == before - Elements(stops) && Valid()
        invariant StopsSafe(services, before, stops)
      {
        i := i - 1;
        var service := orders[i];
        ghost var made := stops;
        assert Elements(orders[i..]) == Elements(orders[i + 1..]) + {service};
        if service in runningServices {
          StopIsSafe(services, before, orders, i, stops);
          stops := stops + [service];
          assert Elements(stops) == Elements(made) + {service};
          var res := accepts(service);
          if !res {
            assert Accepted(stops, accepts) == Elements(made);
            return false, stops;
          }
          runningServices := runningServices - {service};
        }
      }
      assert orders[0..] == orders;
      assert Accepted(stops, accepts) == Elements(stops);
      running := false;
      return true, stops;
    }
  }

  /** A service without dependencies refuses its Init. */
  method RefuseInit() returns (m: Manager, ok: bool)
    ensures fresh(m) && fresh(m.resolver) && m.Valid() && !ok
    ensures m.services == map["a" := {}] && m.resolver.orders == ["a"] && m.inited == {} && m.runningServices == {}
  {
    m := new Manager();
    var registered := m.Register("a", {});
    OneService(m.services);
    var injected, inits;
    assert m.resolver.GetNewServices(m.services) == m.services;
    ok, injected, inits := m.Init(_ => false);
    OnlyOrder([], m.resolver.orders, m.services);
    var sorted := m.resolver.orders;
    assert sorted[0..] == sorted && sorted[0] in sorted;
  }

  /**
   * A service refuses its first Init. The next Init is true and calls nothing, and Start then starts a service that was
   * never initialised.
   */
  method RefusedInitExample() returns (m: Manager, first: bool, second: bool, starts: seq<Name>)
    ensures m.Valid() && !first && second && m.initialized && m.resolver.orders == ["a"]
    ensures m.inited == {} && m.services.Keys == {"a"} && starts == ["a"] && m.runningServices == {"a"}
  {
    m, first := RefuseInit();
    var injected, inits;
    assert m.resolver.orders[0] in Elements(m.resolver.orders);
    assert m.resolver.GetNewServices(m.services) == map[];
    second, injected, inits := m.Init(_ => true);
    EmptyRound(m.services, ["a"], m.resolver.orders, _ => true, second, inits);
    var started;
    started, starts := m.Start(_ => true);
    assert starts == CallsMade(["a"], _ => true) == ["a"];
    assert Accepted(["a"], _ => true) == {"a"};
  }

  /** A round without new services changes nothing and succeeds. */
  lemma EmptyRound(services: Graph, before: seq<Name>, orders: seq<Name>, accepts: Name -> bool, ok: bool, inits: seq<Name>)
    requires InitRound(services, before, orders, map[], accepts, ok, inits)
    ensures orders == before && inits == [] && ok
  {
    OrderSplits(before, orders, map[]);
    SortedIsAllOrNothing(before, orders, map[]);
    NoElementsEmpty(DR.Sorted(before, orders, map[]));
  }

  lemma OneService(g: Graph)
    requires g == map["a" := {}]
    ensures Acyclic(g)
  {
    assert Elements(["a"]) == g.Keys;
    OrderExcludesCycles(g, ["a"]);
  }

  lemma OnlyOrder(before: seq<Name>, orders: seq<Name>, added: Graph)
    requires before == [] && added == map["a" := {}] && DR.Extension(before, orders, added)
    ensures orders == ["a"]
  {
    OneService(added);
    OrderSplits(before, orders, added);
    NoDupCardinality(orders);
    assert orders[0..] == orders;
    assert |orders| == 1 && orders[0] in Elements(orders);
  }
}
