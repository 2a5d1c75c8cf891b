/** Start and stop order of the service daemon (scripts/gaf_daemon.py): a depth-first post-order
    over `depends_on`. The dependency map sends each service to its `depends_on` list; a dependency
    that is not itself a service is still listed. */
module StartupOrder {
  import opened Prelude
  import opened Graphs

  class OrderBuilder {
    const services: Adjacency
    var visited: set<Id>
    var sorted: seq<Id>

    constructor (services: Adjacency)
      ensures this.services == services && Valid([]) && sorted == []
    {
      this.services := services;
      visited := {};
      sorted := [];
    }

    /** `path` holds the names whose visit has begun and not yet ended. */
    ghost predicate Valid(path: seq<Id>)
      reads this
    {
      && NoDup(sorted)
      && (forall n :: n in visited <==> n in sorted || n in path)
      && (forall n :: n in sorted ==> n !in path)
      && (path != [] ==> IsWalk(services, path))
      && (forall n, d :: n in sorted && d in Succ(services, n) ==> d in visited)
      && (!HasCycle(services) ==> SuccessorsFirst(services, sorted))
      && visited <= Universe(services)
    }

    /** The end of a visit: all dependencies were visited, so in an acyclic map all are listed. */
    method Close(name: Id, ghost path: seq<Id>)
      requires Valid(path + [name]) && name !in path && name !in sorted
      requires path != [] ==> IsWalk(services, path)
      requires forall d :: d in Succ(services, name) ==> d in visited
      modifies this
      ensures Valid(path) && visited == old(visited) && sorted == old(sorted) + [name]
    {
      ghost var here := path + [name];
      assert name in here;
      if !HasCycle(services) {
        forall d | d in Succ(services, name) ensures d in sorted {
          if d in here {
            var k :| 0 <= k < |here| && here[k] == d;
            WalkSuffix(services, here, k);
            WalkExtend(services, here[k..], d);
            assert IsCycle(services, here[k..] + [d]);
            assert false;
          }
        }
        AppendKeepsOrder(services, sorted, name);
      }
      sorted := sorted + [name];
    }

    /** The inner function `visit`. */
    method Visit(name: Id, ghost path: seq<Id>)
      requires Valid(path) && name in Universe(services)
      requires path != [] ==> name in Succ(services, path[|path| - 1])
      modifies this
      ensures Valid(path) && name in visited
      ensures old(visited) <= visited && old(sorted) <= sorted
      decreases Universe(services) - visited
    {
      if name in visited {
        return;
      }
      if path != [] { WalkExtend(services, path, name); }
      visited := visited + {name};
      var deps := Succ(services, name);
      for i := 0 to |deps|
        invariant Valid(path + [name]) && old(visited) + {name} <= visited
        invariant old(sorted) <= sorted
        invariant forall k :: 0 <= k < i ==> deps[k] in visited
      {
        assert name in services && deps[i] in services[name];
        Visit(deps[i], path + [name]);
      }
      Close(name, path);
    }
  }

  /** `startup_order`: terminates for every map, lists each service and each named dependency
      exactly once, and puts every dependency before its dependents exactly when no service depends
      on itself through a chain. */
  method ComputeOrder(services: Adjacency) returns (order: seq<Id>)
    ensures NoDup(order) && forall n :: n in order <==> n in Universe(services)
    ensures SuccessorsFirst(services, order) <==> !HasCycle(services)
  {
    var b := new OrderBuilder(services);
    var todo := services.Keys;
    while todo != {}
      invariant todo <= services.Keys && b.services == services && b.Valid([])
      invariant forall n :: n in services.Keys - todo ==> n in b.visited
    {
      var name :| name in todo;
      b.Visit(name, []);
      todo := todo - {name};
    }
    order := b.sorted;
    forall n | n in Universe(services) ensures n in order {
      if n !in services {
        var k :| k in services && n in services[k];
        assert k in b.sorted && n in Succ(services, k);
      }
    }
    if SuccessorsFirst(services, order) {
      SuccessorsFirstIsAcyclic(services, order);
    }
  }

  function Reversed(s: seq<Id>): seq<Id> {
    seq(|s|, i requires 0 <= i < |s| => s[|s| - 1 - i])
  }

  /** In an acyclic map a service starts after everything it depends on, directly or through a
      chain, and the reversed order stops it before all of them. */
  lemma StartsAfterStopsBefore(services: Adjacency, order: seq<Id>, a: Id, b: Id)
    requires SuccessorsFirst(services, order)
    requires a in order && a != b && Reaches(services, a, b)
    ensures Before(order, b, a) && Before(Reversed(order), a, b)
  {
    var p :| WalkBetween(services, a, b, p);
    var j :| 0 <= j < |order| && order[j] == a;
    WalkDescends(services, order, j, p);
    var i :| 0 <= i < j && order[i] == b;
    var rev, n := Reversed(order), |order|;
    assert rev[n - 1 - j] == a && rev[n - 1 - i] == b;
  }
}
