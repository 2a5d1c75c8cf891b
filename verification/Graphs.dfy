/** Finite directed graphs kept as adjacency lists, the shape shared by the pipeline guard and the
    service daemon. A node that is not a key has no successors. */
module Graphs {
  import opened Prelude

  type Id = string
  type Adjacency = map<Id, seq<Id>>

  function Succ(adj: Adjacency, n: Id): seq<Id> {
    if n in adj then adj[n] else []
  }

  /** Every node the graph mentions, as a key or as a successor. */
  ghost function Universe(adj: Adjacency): set<Id> {
    adj.Keys + (set k, s | k in adj && s in adj[k] :: s)
  }

  /** A non-empty node sequence that follows edges. */
  ghost predicate IsWalk(adj: Adjacency, p: seq<Id>) {
    p != [] && forall i :: 0 <= i < |p| - 1 ==> p[i + 1] in Succ(adj, p[i])
  }

  ghost predicate IsCycle(adj: Adjacency, p: seq<Id>) {
    IsWalk(adj, p) && 2 <= |p| && p[0] == p[|p| - 1]
  }

  /** Some node has a non-empty path back to itself. */
  ghost predicate HasCycle(adj: Adjacency) {
    exists p :: IsCycle(adj, p)
  }

  ghost predicate WalkBetween(adj: Adjacency, a: Id, b: Id, p: seq<Id>) {
    IsWalk(adj, p) && p[0] == a && p[|p| - 1] == b
  }

  /** The reflexive-transitive closure of the edge relation. */
  ghost predicate Reaches(adj: Adjacency, a: Id, b: Id) {
    exists p :: WalkBetween(adj, a, b, p)
  }

  /** Each node of `order` comes after all of its successors. */
  ghost predicate SuccessorsFirst(adj: Adjacency, order: seq<Id>) {
    forall i, s :: 0 <= i < |order| && s in Succ(adj, order[i]) ==> s in order[..i]
  }

  lemma WalkSuffix(adj: Adjacency, p: seq<Id>, k: nat)
    requires IsWalk(adj, p) && k < |p|
    ensures IsWalk(adj, p[k..])
  {
  }

  lemma WalkExtend(adj: Adjacency, p: seq<Id>, n: Id)
    requires IsWalk(adj, p) && n in Succ(adj, p[|p| - 1])
    ensures IsWalk(adj, p + [n])
  {
  }

  /** Appending a node whose successors are all listed keeps the order successors-first. */
  lemma AppendKeepsOrder(adj: Adjacency, order: seq<Id>, n: Id)
    requires SuccessorsFirst(adj, order)
    requires forall s :: s in Succ(adj, n) ==> s in order
    ensures SuccessorsFirst(adj, order + [n])
  {
    var longer := order + [n];
    forall i, s | 0 <= i < |longer| && s in Succ(adj, longer[i]) ensures s in longer[..i] {
      if i == |order| {
        assert longer[..i] == order;
      } else {
        assert longer[..i] == order[..i] && longer[i] == order[i];
      }
    }
  }

  /** Along a successors-first order every step of a walk moves strictly towards the front. */
  lemma {:induction false} WalkDescends(adj: Adjacency, order: seq<Id>, i: nat, p: seq<Id>)
    requires SuccessorsFirst(adj, order) && i < |order|
    requires IsWalk(adj, p) && p[0] == order[i]
    ensures 2 <= |p| ==> p[|p| - 1] in order[..i]
    ensures |p| <= i + 1
    decreases |p|
  {
    if 2 <= |p| {
      assert p[1] in Succ(adj, p[0]);
      var j :| 0 <= j < i && order[j] == p[1];
      WalkSuffix(adj, p, 1);
      WalkDescends(adj, order, j, p[1..]);
    }
  }

  /** A duplicate-free successors-first order that covers the sources of all edges rules out cycles. */
  lemma SuccessorsFirstIsAcyclic(adj: Adjacency, order: seq<Id>)
    requires SuccessorsFirst(adj, order) && NoDup(order)
    requires forall n :: n in adj ==> n in order
    ensures !HasCycle(adj)
  {
    if p :| IsCycle(adj, p) {
      assert p[0 + 1] in Succ(adj, p[0]);
      var i :| 0 <= i < |order| && order[i] == p[0];
      WalkDescends(adj, order, i, p);
      assert false;
    }
  }

  /** In an acyclic graph a walk never repeats a node. */
  lemma AcyclicWalkNoDup(adj: Adjacency, p: seq<Id>)
    requires !HasCycle(adj) && IsWalk(adj, p)
    ensures NoDup(p)
  {
    if i, j :| 0 <= i < j < |p| && p[i] == p[j] {
      var q := p[i..j + 1];
      forall k | 0 <= k < |q| - 1 ensures q[k + 1] in Succ(adj, q[k]) {
        assert q[k] == p[i + k] && q[k + 1] == p[i + k + 1];
      }
      assert IsCycle(adj, q);
      assert false;
    }
  }

  /** A duplicate-free sequence drawn from a finite set is no longer than the set is large. */
  lemma {:induction false} PigeonHole<T>(p: seq<T>, s: set<T>)
    requires NoDup(p) && forall x :: x in p ==> x in s
    ensures |p| <= |s|
    decreases |p|
  {
    if p != [] {
      var q, x := p[..|p| - 1], p[|p| - 1];
      forall y | y in q ensures y in s - {x} { }
      PigeonHole(q, s - {x});
      assert x in p;
    }
  }

  /** A set that contains `a` and is closed under successors contains all that `a` reaches. */
  lemma {:induction false} ClosedContainsWalk(adj: Adjacency, s: set<Id>, p: seq<Id>)
    requires IsWalk(adj, p) && p[0] in s
    requires forall n, m :: n in s && m in Succ(adj, n) ==> m in s
    ensures forall n :: n in p ==> n in s
    decreases |p|
  {
    if 2 <= |p| {
      assert p[0 + 1] in Succ(adj, p[0]);
      WalkSuffix(adj, p, 1);
      ClosedContainsWalk(adj, s, p[1..]);
      assert p == [p[0]] + p[1..];
    }
  }

  lemma ReachesStep(adj: Adjacency, a: Id, b: Id, c: Id)
    requires Reaches(adj, a, b) && c in Succ(adj, b)
    ensures Reaches(adj, a, c)
  {
    var p :| WalkBetween(adj, a, b, p);
    WalkExtend(adj, p, c);
    assert WalkBetween(adj, a, c, p + [c]);
  }
}
