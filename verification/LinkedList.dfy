/** The intrusive circular list of connections, and the walk that may unlink the node it stands on. */
module LinkedList {
  import opened Basics

  /** NoDup, in a form that compares only pairs of positions named as such: the methods below have many at hand. */
  predicate Distinct<T(==)>(s: seq<T>) {
    forall i: nat, j: nat {:trigger Differ(s, i, j)} :: i < j < |s| ==> Differ(s, i, j)
  }

  predicate Differ<T(==)>(s: seq<T>, i: nat, j: nat)
    requires i < |s| && j < |s|
  {
    s[i] != s[j]
  }

  lemma DistinctIsNoDup<T>(s: seq<T>)
    ensures Distinct(s) <==> NoDup(s)
  {
    if Distinct(s) {
      forall i, j | 0 <= i < j < |s| ensures s[i] != s[j] {
        assert Differ(s, i, j);
      }
    }
  }

  /** What is left of `s` when the members of `gone` are taken out. */
  ghost function Without<T>(s: seq<T>, gone: set<T>): (r: seq<T>)
    ensures |r| <= |s|
  {
    if s == [] then []
    else if s[|s| - 1] in gone then Without(s[..|s| - 1], gone)
    else Without(s[..|s| - 1], gone) + [s[|s| - 1]]
  }

  lemma DistinctWithout<T>(s: seq<T>, p: nat)
    requires Distinct(s) && p < |s|
    ensures Distinct(s[..p] + s[p + 1..]) && s[p] !in s[..p] + s[p + 1..]
  {
    DistinctIsNoDup(s);
  }

  class Node {
    var prev: Node
    var next: Node

    /** A node on its own is linked to itself. */
    constructor ()
      ensures prev == this && next == this
    {
      prev, next := this, this;
    }
  }

  /** Each node of the walk leads to the following one, and back. */
  ghost predicate Linked(walk: seq<Node>)
    reads walk
  {
    forall i: nat {:trigger Joined(walk, i)} :: i + 1 < |walk| ==> Joined(walk, i)
  }

  ghost predicate Joined(walk: seq<Node>, i: nat)
    requires i + 1 < |walk|
    reads walk
  {
    walk[i].next == walk[i + 1] && walk[i + 1].prev == walk[i]
  }

  /** Along the closed walk, a node other than its ends occurs once. */
  lemma OnlyHeadTwice(head: Node, nodes: seq<Node>)
    requires Distinct(nodes) && head !in nodes
    ensures
      var walk := [head] + nodes + [head];
      forall i, j :: 0 <= i < j < |walk| && j - i < |walk| - 1 ==> walk[i] != walk[j]
  {
    DistinctIsNoDup(nodes);
  }

  class List {
    const head: Node
    /** The nodes of the list, head excluded, from front to tail. */
    ghost var nodes: seq<Node>

    ghost predicate Valid()
      reads this, head, nodes
    {
      Distinct(nodes) && head !in nodes && Linked([head] + nodes + [head])
    }

    constructor ()
      ensures Valid() && nodes == [] && fresh(head)
    {
      head := new Node();
      nodes := [];
    }

    method IsEmpty() returns (empty: bool)
      requires Valid()
      ensures empty <==> nodes == []
    {
      ghost var walk := [head] + nodes + [head];
      assert Joined(walk, 0);
      assert nodes != [] ==> nodes[0] == ([head] + nodes)[1];
      return head.next == head;
    }

    method AddToFront(n: Node)
      requires Valid() && n != head && n !in nodes
      modifies this, head, head.next, n
      ensures Valid() && nodes == [n] + old(nodes)
    {
      ghost var walk := [head] + nodes + [head];
      assert Joined(walk, 0);
      DistinctIsNoDup(nodes);
      head.next.prev := n;
      n.next := head.next;
      n.prev := head;
      head.next := n;
      nodes := [n] + nodes;
      ghost var longer := [head] + nodes + [head];
      assert longer == [walk[0]] + [n] + walk[1..];
      forall i: nat | i + 1 < |longer| ensures Joined(longer, i) {
        if i > 1 {
          assert old(Joined(walk, i - 1));
        }
      }
    }

    method AddToTail(n: Node)
      requires Valid() && n != head && n !in nodes
      modifies this, head, head.prev, n
      ensures Valid() && nodes == old(nodes) + [n]
    {
      ghost var walk := [head] + nodes + [head];
      ghost var last := |nodes|;
      assert Joined(walk, last);
      DistinctIsNoDup(nodes);
      head.prev.next := n;
      n.prev := head.prev;
      n.next := head;
      head.prev := n;
      nodes := nodes + [n];
      ghost var longer := [head] + nodes + [head];
      assert longer == walk[..last + 1] + [n] + [walk[last + 1]];
      forall i: nat | i + 1 < |longer| ensures Joined(longer, i) {
        if i < last {
          assert old(Joined(walk, i));
        }
      }
    }

    /** Unlinks the node at position `p`, leaving it linked to itself. */
    method Remove(n: Node, ghost p: nat)
      requires Valid() && p < |nodes| && nodes[p] == n
      modifies this, n, n.next, n.prev
      ensures Valid() && nodes == old(nodes)[..p] + old(nodes)[p + 1..]
      ensures n.next == n && n.prev == n
    {
      ghost var walk := [head] + nodes + [head];
      assert walk[p + 1] == n && Joined(walk, p) && Joined(walk, p + 1);
      OnlyHeadTwice(head, nodes);
      DistinctWithout(nodes, p);
      n.next.prev := n.prev;
      n.prev.next := n.next;
      n.next := n;
      n.prev := n;
      nodes := nodes[..p] + nodes[p + 1..];
      ghost var shorter := [head] + nodes + [head];
      assert shorter == walk[..p + 1] + walk[p + 2..];
      forall i: nat | i + 1 < |shorter| ensures Joined(shorter, i) {
        if i < p {
          assert old(Joined(walk, i));
        } else if i > p {
          assert old(Joined(walk, i + 1));
        }
      }
    }

    /** Walks over the list with a saved next node, closing and unlinking the expired connections on the way. */
    method CloseExpired(expired: set<Node>) returns (visited: seq<Node>)
      requires Valid()
      modifies this, head, nodes
      ensures Valid() && visited == old(nodes) && nodes == Without(old(nodes), expired)
      ensures forall n :: n in old(nodes) && n in expired ==> n.next == n && n.prev == n
    {
      ghost var all := nodes;
      visited := [];
      AtFront();
      var n := head.next;
      var saved := n.next;
      while n != head
        invariant Valid() && Walked(all, visited, nodes, expired) && Alone(visited, expired)
        invariant n == Following(|Without(visited, expired)|)
        invariant n != head ==> saved == Following(|Without(visited, expired)| + 1)
        decreases |all| - |visited|
      {
        Visit(n, visited, expired, all);
        visited := visited + [n];
        n := saved;
        saved := n.next;
        SavedIsNext(|Without(visited, expired)|);
      }
      WalkEnds(all, visited, nodes, expired);
    }

    /** The body of the walk, on the node it stands on; the node that follows does not change. */
    method Visit(n: Node, ghost visited: seq<Node>, expired: set<Node>, ghost all: seq<Node>)
      requires Valid() && Walked(all, visited, nodes, expired) && Alone(visited, expired) && head !in all
      requires |Without(visited, expired)| < |nodes| && n == nodes[|Without(visited, expired)|]
      modifies this, head, all
      ensures Valid() && Walked(all, visited + [n], nodes, expired) && Alone(visited + [n], expired)
      ensures Following(|Without(visited + [n], expired)|) == old(Following(|Without(visited, expired)| + 1))
    {
      ghost var p := |Without(visited, expired)|;
      WalkStep(all, visited, nodes, expired);
      if n in expired {
        NeighboursAmongAll(p, visited, expired, all);
        Unlink(n, p, visited, expired);
      }
    }

    /** Unlinks the node just visited; those unlinked before stay alone, and the node that follows is the same. */
    method Unlink(n: Node, ghost p: nat, ghost visited: seq<Node>, ghost expired: set<Node>)
      requires Valid() && p < |nodes| && nodes[p] == n
      requires Alone(visited, expired) && head !in visited
      requires forall x :: x in visited && x in expired ==> x !in nodes
      modifies this, n, n.next, n.prev
      ensures Valid() && nodes == old(nodes)[..p] + old(nodes)[p + 1..]
      ensures Alone(visited + [n], expired) && Following(p) == old(Following(p + 1))
    {
      Neighbours(p);
      Remove(n, p);
      ghost var all := visited + [n];
      forall i | 0 <= i < |all| && all[i] in expired ensures all[i].next == all[i] && all[i].prev == all[i] {
        if i < |visited| {
          assert all[i] == visited[i] && visited[i] in visited;
        }
      }
    }

    lemma NeighboursAmongAll(p: nat, visited: seq<Node>, expired: set<Node>, all: seq<Node>)
      requires Valid() && Walked(all, visited, nodes, expired) && p < |nodes| && head !in all
      ensures nodes[p] in all && head !in visited
      ensures nodes[p].next == head || nodes[p].next in all
      ensures nodes[p].prev == head || nodes[p].prev in all
    {
      WalkMembers(all, visited, nodes, expired);
      Neighbours(p);
    }

    lemma Neighbours(p: nat)
      requires Valid() && p < |nodes|
      ensures nodes[p].next == Following(p + 1)
      ensures nodes[p].next == head || nodes[p].next in nodes
      ensures nodes[p].prev == head || nodes[p].prev in nodes
    {
      var walk := [head] + nodes + [head];
      assert Joined(walk, p) && Joined(walk, p + 1);
    }

    /** The node after the first `i` nodes of the list: head at the end. */
    ghost function Following(i: nat): Node
      reads this
    {
      if i < |nodes| then nodes[i] else head
    }

    lemma AtFront()
      requires Valid()
      ensures head.next == Following(0)
      ensures head.next != head ==> head.next.next == Following(1)
    {
      var walk := [head] + nodes + [head];
      assert Joined(walk, 0);
      if nodes != [] {
        assert Joined(walk, 1);
      }
    }

    lemma SavedIsNext(i: nat)
      requires Valid()
      ensures Following(i) != head ==> Following(i).next == Following(i + 1)
    {
      if i < |nodes| {
        var walk := [head] + nodes + [head];
        assert Joined(walk, i + 1);
      }
    }
  }

  /** The visited nodes are the first of all; those not gone, and all the others, are in the list. */
  ghost predicate Walked(all: seq<Node>, visited: seq<Node>, nodes: seq<Node>, gone: set<Node>) {
    && |visited| <= |all| && visited == all[..|visited|] && Distinct(all)
    && nodes == Without(visited, gone) + all[|visited|..]
  }

  /** The gone nodes among `visited` are linked to themselves. */
  ghost predicate Alone(visited: seq<Node>, gone: set<Node>)
    reads visited
  {
    forall i :: 0 <= i < |visited| && visited[i] in gone ==> visited[i].next == visited[i] && visited[i].prev == visited[i]
  }

  lemma WalkStep(all: seq<Node>, visited: seq<Node>, nodes: seq<Node>, gone: set<Node>)
    requires Walked(all, visited, nodes, gone) && |Without(visited, gone)| < |nodes|
    ensures
      var p := |Without(visited, gone)|;
      var n := nodes[p];
      && Walked(all, visited + [n], if n in gone then nodes[..p] + nodes[p + 1..] else nodes, gone)
      && |Without(visited + [n], gone)| == (if n in gone then p else p + 1)
      && forall x :: x in visited && x in gone ==> x !in nodes
  {
    DistinctIsNoDup(all);
    var k := |visited|;
    var p := |Without(visited, gone)|;
    var n := nodes[p];
    assert all[k..] == [all[k]] + all[k + 1..] && n == all[k];
    assert (visited + [n])[..k] == visited;
    assert all[..k + 1] == visited + [n];
    WithoutMembers(visited, gone);
  }

  lemma WalkMembers(all: seq<Node>, visited: seq<Node>, nodes: seq<Node>, gone: set<Node>)
    requires Walked(all, visited, nodes, gone)
    ensures forall x :: x in nodes || x in visited ==> x in all
  {
    WithoutMembers(visited, gone);
  }

  lemma WalkEnds(all: seq<Node>, visited: seq<Node>, nodes: seq<Node>, gone: set<Node>)
    requires Walked(all, visited, nodes, gone) && |nodes| <= |Without(visited, gone)|
    ensures visited == all && nodes == Without(all, gone)
  {
    assert all[..|all|] == all;
  }

  lemma {:induction false} WithoutMembers<T>(s: seq<T>, gone: set<T>)
    ensures forall x :: x in Without(s, gone) <==> x in s && x !in gone
  {
    if s == [] {
    } else {
      WithoutMembers(s[..|s| - 1], gone);
      assert s == s[..|s| - 1] + [s[|s| - 1]];
    }
  }
}
