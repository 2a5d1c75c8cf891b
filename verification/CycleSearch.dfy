/** The two graph searches of backend/gaf_ai/pipeline_guard.py: a three-colour depth-first search
    for cycles that updates one shared colour table, and an explicit-stack reachability search. */
module CycleSearch {
  import opened Prelude
  import opened Graphs

  datatype Color = White | Gray | Black

  class CycleFinder {
    const adj: Adjacency
    var color: map<Id, Color>
    ghost var finished: seq<Id>  // the black nodes, in the order in which they turned black

    constructor (adj: Adjacency)
      ensures this.adj == adj && Valid([]) && finished == []
    {
      this.adj := adj;
      color := map n | n in adj :: White;
      finished := [];
    }

    function ColorOf(n: Id): Color
      reads this
    {
      if n in color then color[n] else White
    }

    /** The nodes that are no longer white. */
    ghost function Touched(): set<Id>
      reads this
    {
      set n | n in color && color[n] != White
    }

    /** Grey nodes are exactly the current path, which is a walk; black nodes were finished after
        all their successors. */
    ghost predicate Valid(path: seq<Id>)
      reads this
    {
      && (forall n :: ColorOf(n) == Gray <==> n in path)
      && (forall n :: ColorOf(n) == Black <==> n in finished)
      && NoDup(finished) && SuccessorsFirst(adj, finished)
      && (path != [] ==> IsWalk(adj, path))
      && Touched() <= Universe(adj)
    }

    method Enter(node: Id, ghost path: seq<Id>)
      requires Valid(path) && ColorOf(node) == White && node in Universe(adj)
      requires path != [] ==> node in Succ(adj, path[|path| - 1])
      modifies this
      ensures color == old(color)[node := Gray] && finished == old(finished)
      ensures Valid(path + [node])
      ensures Touched() == old(Touched()) + {node} && node !in old(Touched())
    {
      if path != [] { WalkExtend(adj, path, node); }
      color := color[node := Gray];
      assert forall n :: n != node ==> ColorOf(n) == old(ColorOf(n));
    }

    method Leave(node: Id, ghost path: seq<Id>)
      requires Valid(path + [node]) && node !in path
      requires path != [] ==> IsWalk(adj, path)
      requires forall m :: m in Succ(adj, node) ==> m in finished
      modifies this
      ensures color == old(color)[node := Black] && finished == old(finished) + [node]
      ensures Valid(path) && Touched() == old(Touched())
    {
      assert node in path + [node] && ColorOf(node) == Gray;
      AppendKeepsOrder(adj, finished, node);
      color := color[node := Black];
      finished := finished + [node];
      assert forall n :: n != node ==> ColorOf(n) == old(ColorOf(n));
    }

    lemma GrayMeansCycle(here: seq<Id>, nxt: Id)
      requires Valid(here) && here != [] && ColorOf(nxt) == Gray
      requires nxt in Succ(adj, here[|here| - 1])
      ensures HasCycle(adj)
    {
      var k :| 0 <= k < |here| && here[k] == nxt;
      WalkSuffix(adj, here, k);
      WalkExtend(adj, here[k..], nxt);
      assert IsCycle(adj, here[k..] + [nxt]);
    }

    /** The pending calls are at different nodes, so one more is still within the number of nodes. */
    lemma NestingIsShort(path: seq<Id>, node: Id)
      requires Valid(path) && NoDup(path) && ColorOf(node) == White && node in Universe(adj)
      ensures NoDup(path + [node]) && |path| + 1 <= |Universe(adj)|
    {
      forall n | n in path ensures n in Universe(adj) && n != node {
        assert ColorOf(n) == Gray && n in Touched();
      }
      PigeonHole(path + [node], Universe(adj));
    }

    /** One call. `path` lists the nodes of the pending calls around it, so its own nesting is |path| + 1,
        never more than there are nodes. */
    method Dfs(node: Id, ghost path: seq<Id>) returns (found: bool)
      requires Valid(path) && NoDup(path) && ColorOf(node) == White && node in Universe(adj)
      requires path != [] ==> node in Succ(adj, path[|path| - 1])
      modifies this
      ensures found ==> HasCycle(adj)
      ensures !found ==> Valid(path) && ColorOf(node) == Black
      ensures !found ==> old(Touched()) <= Touched() && forall n :: n in old(finished) ==> n in finished
      ensures |path| + 1 <= |Universe(adj)|
      decreases Universe(adj) - Touched()
    {
      NestingIsShort(path, node);
      Enter(node, path);
      var next := Succ(adj, node);
      var i := 0;
      while i < |next|
        invariant 0 <= i <= |next|
        invariant Valid(path + [node]) && old(Touched()) + {node} <= Touched()
        invariant forall n :: n in old(finished) ==> n in finished
        invariant forall k :: 0 <= k < i ==> next[k] in finished
      {
        var nxt := next[i];
        assert node in adj && nxt in adj[node];
        if ColorOf(nxt) == Gray {
          GrayMeansCycle(path + [node], nxt);
          return true;
        }
        if ColorOf(nxt) == White {
          found := Dfs(nxt, path + [node]);
          if found { return true; }
        }
        i := i + 1;
      }
      Leave(node, path);
      found := false;
    }

    /** The whole search: `any(color[n] == white and dfs(n) for n in adj)`, in any key order. */
    method Search() returns (found: bool)
      requires Valid([]) && finished == []
      modifies this
      ensures found <==> HasCycle(adj)
    {
      var todo := adj.Keys;
      while todo != {}
        invariant todo <= adj.Keys && Valid([])
        invariant forall n :: n in adj.Keys - todo ==> n in finished
      {
        var n :| n in todo;
        if ColorOf(n) == White {
          found := Dfs(n, []);
          if found { return true; }
        }
        assert ColorOf(n) == Black;
        todo := todo - {n};
      }
      SuccessorsFirstIsAcyclic(adj, finished);
      found := false;
    }
  }

  /** The cycle test answers exactly whether some node has a non-empty path back to itself. */
  method HasCycleDfs(adj: Adjacency) returns (found: bool)
    ensures found <==> HasCycle(adj)
  {
    var finder := new CycleFinder(adj);
    found := finder.Search();
  }

  /** The explicit-stack search returns exactly the nodes that `start` reaches, although its stack
      may hold a node several times. */
  method Reachable(adj: Adjacency, start: Id) returns (seen: set<Id>)
    ensures forall n :: n in seen <==> Reaches(adj, start, n)
  {
    seen := {};
    var stack := [start];
    ghost var all := Universe(adj) + {start};
    assert WalkBetween(adj, start, start, [start]);
    while stack != []
      invariant seen <= all && (forall n :: n in stack ==> n in all)
      invariant forall n :: n in seen || n in stack ==> Reaches(adj, start, n)
      invariant start in seen || start in stack
      invariant forall n, m :: n in seen && m in Succ(adj, n) ==> m in seen || m in stack
      decreases all - seen, |stack|
    {
      var cur := stack[|stack| - 1];
      ghost var before := stack;
      stack := stack[..|stack| - 1];
      assert before == stack + [cur];
      if cur !in seen {
        seen := seen + {cur};
        forall m | m in Succ(adj, cur) ensures Reaches(adj, start, m) && m in all {
          ReachesStep(adj, start, cur, m);
        }
        stack := stack + Succ(adj, cur);
      }
    }
    forall n | Reaches(adj, start, n) ensures n in seen {
      var p :| WalkBetween(adj, start, n, p);
      ClosedContainsWalk(adj, seen, p);
    }
  }
}
