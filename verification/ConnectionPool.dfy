/** The connection pools of the MySQL and Redis managers: leasing by a round-robin scan, growing up to a limit. */
module ConnectionPool {
  import opened Basics

  /** The free flags of the connections made so far, the round-robin index, and the limit. */
  datatype State = State(free: seq<bool>, index: int, max: nat) {
    predicate Valid() {
      |free| <= max && index >= -1
    }

    predicate AllLeased() {
      forall i :: 0 <= i < |free| ==> !free[i]
    }
  }

  /** Where a scan stopped, and whether it met a free connection there. */
  datatype Probe = Probe(index: int, ok: bool)

  datatype Outcome = Outcome(slot: Option<nat>, state: State)

  function SlotOf(index: int, count: nat): (i: nat)
    requires count > 0 && index >= 0
    ensures i < count
  {
    index % count
  }

  /** Looks at `tries` connections, beginning after `index`. */
  function Scan(free: seq<bool>, index: int, tries: nat): (p: Probe)
    requires index >= -1 && (free == [] ==> tries == 0)
    ensures index <= p.index
    decreases tries
  {
    if tries == 0 then Probe(index, false)
    else if free[SlotOf(index + 1, |free|)] then Probe(index + 1, true)
    else Scan(free, index + 1, tries - 1)
  }

  /** A call of Get; `attempts` tells how each try to make a connection would end. None: the caller still retries. */
  function AfterGet(s: State, attempts: seq<bool>): (o: Outcome)
    requires s.Valid()
    ensures o.state.Valid()
    decreases |attempts|
  {
    var p := Scan(s.free, s.index, |s.free|);
    if p.ok then
      ScanFindsFirst(s.free, s.index, |s.free|);
      Outcome(Some(SlotOf(p.index, |s.free|)), State(s.free[SlotOf(p.index, |s.free|) := false], p.index, s.max))
    else if attempts == [] then Outcome(None, s.(index := p.index))
    else if |s.free| < s.max && attempts[0] then Outcome(Some(|s.free|), State(s.free + [false], p.index, s.max))
    else AfterGet(s.(index := p.index), attempts[1..])
  }

  function AfterPut(s: State, i: nat): State
    requires i < |s.free|
  {
    s.(free := s.free[i := true])
  }

  // ----- The scan

  /** A scan stops at the first free connection in round-robin order. */
  lemma {:induction false} ScanFindsFirst(free: seq<bool>, index: int, tries: nat)
    requires index >= -1 && (free == [] ==> tries == 0)
    ensures
      var p := Scan(free, index, tries);
      && (p.ok ==> free != [] && index < p.index <= index + tries && free[SlotOf(p.index, |free|)])
      && (!p.ok ==> p.index == index + tries)
      && forall x :: index < x <= p.index && (x < p.index || !p.ok) ==> !free[SlotOf(x, |free|)]
    decreases tries
  {
    if tries > 0 && !free[SlotOf(index + 1, |free|)] {
      ScanFindsFirst(free, index + 1, tries - 1);
    }
  }

  /** Any `count` consecutive indices reach every connection. */
  lemma RoundReaches(index: int, count: nat, i: nat) returns (x: int)
    requires index >= -1 && i < count
    ensures index < x <= index + count && SlotOf(x, count) == i
  {
    var back := i - index - 1;
    var r := back % count;
    x := index + 1 + r;
    assert x == (0 - back / count) * count + i by {
      assert back == back / count * count + r;
    }
    DivisionIsUnique(x, count, 0 - back / count, i);
  }

  /** A full scan fails exactly when every connection is leased. */
  lemma ScanCovers(s: State)
    requires s.Valid()
    ensures Scan(s.free, s.index, |s.free|).ok <==> !s.AllLeased()
  {
    ScanFindsFirst(s.free, s.index, |s.free|);
    if !Scan(s.free, s.index, |s.free|).ok {
      forall i | 0 <= i < |s.free| ensures !s.free[i] {
        var x := RoundReaches(s.index, |s.free|, i);
      }
    }
  }

  // ----- Leasing

  /** The connection made by a call: the pool grows by one, and the new connection is the one leased. */
  predicate Grew(s: State, o: Outcome) {
    o.slot == Some(|s.free|) && o.state.free == s.free + [false]
  }

  /** The call leased a connection that was free. */
  predicate Reused(s: State, o: Outcome) {
    o.slot.Some? && o.slot.value < |s.free| && s.free[o.slot.value] && o.state.free == s.free[o.slot.value := false]
  }

  /**
   * Get never leases a leased connection, grows the pool only when all are leased, and retries only while nothing can
   * be had.
   */
  lemma {:induction false} GetLeases(s: State, attempts: seq<bool>)
    requires s.Valid()
    ensures
      var o := AfterGet(s, attempts);
      && (Reused(s, o) <==> !s.AllLeased())
      && (Grew(s, o) <==> s.AllLeased() && |s.free| < s.max && true in attempts)
      && (o.slot.None? <==> s.AllLeased() && (|s.free| == s.max || true !in attempts))
      && (o.slot.None? ==> o.state.free == s.free)
      && o.state.max == s.max
    decreases |attempts|
  {
    ScanCovers(s);
    ScanFindsFirst(s.free, s.index, |s.free|);
    var p := Scan(s.free, s.index, |s.free|);
    if !p.ok && attempts != [] && !(|s.free| < s.max && attempts[0]) {
      GetLeases(s.(index := p.index), attempts[1..]);
      assert attempts == [attempts[0]] + attempts[1..];
    }
  }

  /** How many connections come between the index and slot `i`, going round. */
  function Ahead(index: int, i: int, count: nat): int
    requires count > 0
  {
    (i - index - 1) % count
  }

  lemma AheadIs(index: int, x: int, count: nat)
    requires count > 0 && index >= -1 && index < x <= index + count
    ensures Ahead(index, SlotOf(x, count), count) == x - index - 1
  {
    DivisionIsUnique(SlotOf(x, count) - index - 1, count, 0 - x / count, x - index - 1);
  }

  /**
   * The connection reused is the first free one in round-robin order after the index: of all the free ones it has the
   * fewest ahead of it. The index moves past those to it.
   */
  lemma GetIsRoundRobin(s: State, attempts: seq<bool>)
    requires s.Valid() && !s.AllLeased()
    ensures
      var o := AfterGet(s, attempts);
      && o.slot.Some? && o.slot.value < |s.free| && s.free[o.slot.value]
      && o.state.index == s.index + 1 + Ahead(s.index, o.slot.value, |s.free|)
      && o.slot.value == o.state.index % |s.free|
      && forall i :: 0 <= i < |s.free| && s.free[i] ==>
           Ahead(s.index, o.slot.value, |s.free|) <= Ahead(s.index, i, |s.free|)
  {
    ScanCovers(s);
    ScanFindsFirst(s.free, s.index, |s.free|);
    var x := Scan(s.free, s.index, |s.free|).index;
    AheadIs(s.index, x, |s.free|);
    forall i | 0 <= i < |s.free| && s.free[i]
      ensures Ahead(s.index, SlotOf(x, |s.free|), |s.free|) <= Ahead(s.index, i, |s.free|)
    {
      var y := RoundReaches(s.index, |s.free|, i);
      AheadIs(s.index, y, |s.free|);
      assert !(s.index < y < x);
    }
  }

  // ----- Whole runs

  datatype Call = Get(attempts: seq<bool>) | Put(slot: nat)

  function After(s: State, c: Call): State
    requires s.Valid()
  {
    match c
    case Get(attempts) => AfterGet(s, attempts).state
    case Put(slot) => if slot < |s.free| then AfterPut(s, slot) else s
  }

  function Leased(free: seq<bool>): (n: nat)
    ensures n <= |free|
  {
    if free == [] then 0 else Leased(free[..|free| - 1]) + if free[|free| - 1] then 0 else 1
  }

  function Max(a: nat, b: nat): nat {
    if a < b then b else a
  }

  /** The state after a run, and the greatest number of connections leased at any point of it. */
  function Run(s: State, calls: seq<Call>): (r: (State, nat))
    requires s.Valid()
    ensures r.0.Valid()
  {
    if calls == [] then (s, Leased(s.free))
    else
      var (before, peak) := Run(s, calls[..|calls| - 1]);
      var t := After(before, calls[|calls| - 1]);
      (t, Max(peak, Leased(t.free)))
  }

  lemma {:induction false} AllLeasedCount(free: seq<bool>)
    requires forall i :: 0 <= i < |free| ==> !free[i]
    ensures Leased(free) == |free|
  {
    if free == [] {
    } else {
      AllLeasedCount(free[..|free| - 1]);
    }
  }

  /** A call leaves the pool as large as it was, or as large as the number of connections now leased. */
  lemma StepSize(s: State, c: Call)
    requires s.Valid()
    ensures |After(s, c).free| == Max(|s.free|, Leased(After(s, c).free)) && After(s, c).max == s.max
  {
    if c.Get? {
      GetLeases(s, c.attempts);
      var o := AfterGet(s, c.attempts);
      if Grew(s, o) {
        AllLeasedCount(o.state.free);
      }
    }
  }

  /** However a run went, the pool is as large as it was at first or as the most connections ever leased at once. */
  lemma {:induction false} PoolSizeIsPeak(s: State, calls: seq<Call>)
    requires s.Valid()
    ensures |Run(s, calls).0.free| == Max(|s.free|, Run(s, calls).1) && Run(s, calls).0.max == s.max
  {
    if calls == [] {
    } else {
      PoolSizeIsPeak(s, calls[..|calls| - 1]);
      StepSize(Run(s, calls[..|calls| - 1]).0, calls[|calls| - 1]);
    }
  }

  // ----- The pool itself

  class Connection {
    var poolIndex: int

    constructor ()
      ensures poolIndex == -1
    {
      poolIndex := -1;
    }
  }

  class Pool {
    const maxConnections: nat
    const connections: array<Connection?>
    const isFree: array<bool>
    var count: nat
    var poolIndex: int
    /** The connections made so far, and those that callers hold. */
    ghost var made: seq<Connection>
    ghost var leased: set<Connection>

    ghost predicate Valid()
      reads this, connections, isFree, made
    {
      && connections.Length == isFree.Length == maxConnections && count <= maxConnections && poolIndex >= -1
      && |made| == count
      && (forall i :: 0 <= i < count ==> connections[i] == made[i] && made[i].poolIndex == i)
      && (forall c :: c in leased ==> c in made)
      && (forall i :: 0 <= i < count ==> (made[i] in leased <==> !isFree[i]))
    }

    ghost function View(): State
      reads this, isFree
      requires count <= isFree.Length
    {
      State(isFree[..count], poolIndex, maxConnections)
    }

    /** The MySQL pool starts at index -1, the Redis pool at 0. */
    constructor (max: nat, start: int)
      requires start == -1 || start == 0
      ensures Valid() && fresh(connections) && fresh(isFree) && View() == State([], start, max)
      ensures made == [] && leased == {}
    {
      maxConnections := max;
      connections := new Connection?[max](_ => null);
      isFree := new bool[max](_ => false);
      count, poolIndex, made, leased := 0, start, [], {};
    }

    /** Makes one more connection, free at first, unless the limit is reached or the server refuses. */
    method NewConnection(connects: bool) returns (ok: bool)
      requires Valid()
      modifies this`count, this`made, connections, isFree
      ensures Valid() && ok == (old(count) < maxConnections && connects)
      ensures ok ==> View().free == old(View().free) + [true]
      ensures ok ==> fresh(made[old(count)]) && made == old(made) + [made[old(count)]]
      ensures !ok ==> View() == old(View()) && made == old(made)
    {
      if count >= maxConnections {
        return false;
      }
      var c := new Connection();
      if !connects {
        return false;
      }
      connections[count] := c;
      isFree[count] := true;
      c.poolIndex := count;
      made := made + [c];
      count := count + 1;
      ok := true;
    }

    /** Fills the pool at start-up, giving up at the first connection that cannot be made. */
    method Connect(wanted: nat, connects: seq<bool>) returns (ok: bool)
      requires Valid() && count == 0 && leased == {} && |connects| == wanted
      modifies this`count, this`made, connections, isFree
      ensures Valid() && ok == (wanted <= maxConnections && false !in connects)
      ensures ok ==> count == wanted
      ensures View() == State(seq(count, _ => true), old(poolIndex), maxConnections)
    {
      var i := 0;
      while i < wanted
        invariant i <= wanted && i == count <= maxConnections && Valid()
        invariant (forall k :: 0 <= k < i ==> connects[k]) && (forall k :: 0 <= k < i ==> isFree[k])
        invariant forall c :: c in made ==> fresh(c)
      {
        ghost var before := View().free;
        var made := NewConnection(connects[i]);
        if !made {
          return false;
        }
        assert View().free == before + [true];
        i := i + 1;
      }
      return true;
    }

    /** Leases a connection; None when the tries are used up and the caller would go on retrying. */
    method Get(attempts: seq<bool>) returns (r: Option<Connection>)
      requires Valid()
      modifies this, connections, isFree
      ensures Valid()
      ensures
        var o := AfterGet(old(View()), attempts);
        && View() == o.state
        && match o.slot
           case None => r == None && leased == old(leased) && made == old(made)
           case Some(i) => i < count && r == Some(made[i]) && made[i] !in old(leased) && leased == old(leased) + {made[i]}
      ensures old(made) <= made && forall c :: c in made && c !in old(made) ==> fresh(c)
      decreases |attempts|
    {
      var i := FindFree();
      if i >= 0 {
        r := Some(connections[i]);
        Lease(i);
        return;
      }
      if attempts == [] {
        return None;
      }
      var ok := NewConnection(attempts[0]);
      if ok {
        r := Some(connections[count - 1]);
        Lease(count - 1);
        assert View().free == old(View()).free + [false];
      } else {
        r := Get(attempts[1..]);
      }
    }

    /** Looks at each connection once, in round-robin order, for a free one; -1 if all are leased. */
    method FindFree() returns (i: int)
      requires Valid()
      modifies this`poolIndex
      ensures
        var p := Scan(View().free, old(poolIndex), count);
        && Valid() && poolIndex == p.index
        && if p.ok then 0 <= i < count && isFree[i] && i == SlotOf(p.index, count) else i == -1
    {
      ghost var free := View().free;
      var retries := count;
      while retries > 0
        invariant 0 <= retries <= count && poolIndex >= -1 && Valid()
        invariant Scan(free, old(poolIndex), count) == Scan(free, poolIndex, retries)
        decreases retries
      {
        retries := retries - 1;
        poolIndex := poolIndex + 1;
        i := SlotOf(poolIndex, count);
        assert free[i] == isFree[i];
        if isFree[i] {
          return;
        }
      }
      i := -1;
    }

    /** Marks a free connection as taken. */
    method Lease(i: nat)
      requires Valid() && i < count && isFree[i]
      modifies this`leased, isFree
      ensures Valid() && View() == old(View()).(free := old(View()).free[i := false])
      ensures made[i] !in old(leased) && leased == old(leased) + {made[i]}
    {
      isFree[i] := false;
      leased := leased + {made[i]};
    }

    /** Gives a connection of this pool back. */
    method Put(c: Connection)
      requires Valid() && c in made
      modifies this`leased, isFree
      ensures Valid() && View() == AfterPut(old(View()), c.poolIndex) && leased == old(leased) - {c}
    {
      isFree[c.poolIndex] := true;
      leased := leased - {c};
    }
  }
}
