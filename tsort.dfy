/**
 * The dependency-ordering graph that the flattener builds with the `tsort`
 * package: `add(a, b)` records that `a` must come before `b`, and `sort()`
 * returns every node once, in an order that respects every edge, or fails
 * when the edges form a cycle. The package itself is not part of this model;
 * `Sort` is a verified algorithm with the same contract: it repeatedly
 * places the first node, in order of insertion, whose predecessors are
 * all placed.
 */
module TopologicalSort {
  import opened Sequences

  datatype CycleError = CycleError
  datatype Result<T> = Ok(value: T) | Err(error: CycleError)

  /** `(a, b)`: `a` comes before `b`. */
  type Edge = (string, string)

  ghost predicate IsPath(es: set<Edge>, p: seq<string>) {
    forall i :: 0 <= i < |p| - 1 ==> (p[i], p[i + 1]) in es
  }

  ghost predicate IsCycle(es: set<Edge>, p: seq<string>) {
    |p| >= 2 && p[0] == p[|p| - 1] && IsPath(es, p)
  }

  ghost predicate HasCycle(es: set<Edge>) {
    exists p :: IsCycle(es, p)
  }

  /** Every node once, and for every edge `(a, b)`, `a` placed before `b`. */
  ghost predicate IsTopoOrder(ns: set<string>, es: set<Edge>, t: seq<string>) {
    Distinct(t)
    && (forall x :: x in t <==> x in ns)
    && forall i, j :: 0 <= i < |t| && 0 <= j < |t| && (t[i], t[j]) in es ==> i < j
  }

  ghost function Endpoints(es: set<Edge>): set<string> {
    (set e | e in es :: e.0) + (set e | e in es :: e.1)
  }

  /** Along a path, positions in a topological order only increase. */
  lemma {:induction false} PathClimbs(ns: set<string>, es: set<Edge>, t: seq<string>, p: seq<string>, k: nat)
    requires IsTopoOrder(ns, es, t)
    requires forall e :: e in es ==> e.0 in ns && e.1 in ns
    requires IsPath(es, p) && 1 <= k < |p|
    ensures p[0] in t && p[k] in t && IndexOf(t, p[0]) < IndexOf(t, p[k])
  {
    assert (p[k - 1], p[k]) in es;
    if k > 1 {
      PathClimbs(ns, es, t, p, k - 1);
    }
  }

  /** A graph that has a topological order has no cycle. */
  lemma TopoOrderMeansNoCycle(ns: set<string>, es: set<Edge>, t: seq<string>)
    requires IsTopoOrder(ns, es, t)
    requires forall e :: e in es ==> e.0 in ns && e.1 in ns
    ensures !HasCycle(es)
  {
    if HasCycle(es) {
      var p :| IsCycle(es, p);
      PathClimbs(ns, es, t, p, |p| - 1);
    }
  }

  /**
   * When every node of a non-empty set has a predecessor inside the set,
   * walking back from predecessor to predecessor must revisit a node, and
   * the walk between the two visits is a cycle.
   */
  lemma UnplaceableNodesCloseACycle(es: set<Edge>, u: set<string>, start: string)
    requires start in u
    requires forall n :: n in u ==> exists e :: e in es && e.1 == n && e.0 in u
    ensures HasCycle(es)
  {
    var p := [start];
    var onPath := {start};
    var cycle: seq<string> := [];
    var found := false;
    while !found
      invariant |p| >= 1 && IsPath(es, p)
      invariant forall x :: x in onPath <==> x in p
      invariant onPath <= u
      invariant found ==> IsCycle(es, cycle)
      decreases u - onPath, !found
    {
      assert p[0] in onPath;
      var e :| e in es && e.1 == p[0] && e.0 in u;
      var q := e.0;
      if q in onPath {
        var j := IndexOf(p, q);
        cycle := [q] + p[..j + 1];
        assert cycle[|cycle| - 1] == p[j];
        found := true;
      } else {
        p := [q] + p;
        onPath := onPath + {q};
      }
    }
    assert IsCycle(es, cycle);
  }

  lemma EndpointsWith(es: set<Edge>, a: string, b: string)
    ensures Endpoints(es + {(a, b)}) == Endpoints(es) + {a, b}
  {
    assert (set e | e in es + {(a, b)} :: e.0) == (set e | e in es :: e.0) + {a};
    assert (set e | e in es + {(a, b)} :: e.1) == (set e | e in es :: e.1) + {b};
  }

  /** Appending the endpoints that are new keeps the nodes distinct and adds both to their set. */
  lemma AppendedMembers(nodes: seq<string>, a: string, b: string, added: seq<string>)
    requires Distinct(nodes)
    requires added == nodes + (if a in nodes then [] else [a]) + (if b in nodes || b == a then [] else [b])
    ensures Distinct(added)
    ensures (set x | x in added) == (set x | x in nodes) + {a, b}
  {
  }

  /** The `tsort` graph: its nodes in order of first insertion, and its edges. */
  class SortGraph {
    var nodes: seq<string>
    var edges: set<Edge>

    ghost function NodeSet(): set<string>
      reads this
    {
      set x | x in nodes
    }

    ghost predicate Valid()
      reads this
    {
      Distinct(nodes) && NodeSet() == Endpoints(edges)
    }

    constructor ()
      ensures Valid() && nodes == [] && edges == {}
    {
      nodes := [];
      edges := {};
    }

    /** `graph.add(a, b)`: `a` must come before `b`. */
    method Add(a: string, b: string)
      requires Valid()
      modifies this
      ensures Valid()
      ensures edges == old(edges) + {(a, b)}
      ensures nodes == old(nodes) + (if a in old(nodes) then [] else [a])
                      + (if b in old(nodes) || b == a then [] else [b])
    {
      if a !in nodes {
        nodes := nodes + [a];
      }
      if b !in nodes {
        nodes := nodes + [b];
      }
      edges := edges + {(a, b)};
      AppendedMembers(old(nodes), a, b, nodes);
      EndpointsWith(old(edges), a, b);
    }

    /** Whether every predecessor of `n` is already placed. */
    predicate IsReady(n: string, placed: set<string>)
      reads this
    {
      forall e :: e in edges && e.1 == n ==> e.0 in placed
    }

    /** The first node, by insertion, that is not placed and whose predecessors all are. */
    method FindReady(placed: set<string>) returns (k: nat)
      ensures k <= |nodes|
      ensures k < |nodes| ==> nodes[k] !in placed && IsReady(nodes[k], placed)
      ensures forall i :: 0 <= i < k ==> nodes[i] in placed || !IsReady(nodes[i], placed)
    {
      k := 0;
      while k < |nodes| && (nodes[k] in placed || !IsReady(nodes[k], placed))
        invariant k <= |nodes|
        invariant forall i :: 0 <= i < k ==> nodes[i] in placed || !IsReady(nodes[i], placed)
      {
        k := k + 1;
      }
    }

    /** `graph.sort()`: a topological order of all nodes, or a cycle error. */
    method Sort() returns (r: Result<seq<string>>)
      requires Valid()
      ensures r.Ok? ==> IsTopoOrder(Endpoints(edges), edges, r.value)
      ensures r.Err? <==> HasCycle(edges)
    {
      var order: seq<string> := [];
      var placed: set<string> := {};
      var done := false;
      r := Ok([]);
      while !done
        invariant forall x :: x in placed <==> x in order
        invariant placed <= NodeSet()
        invariant Distinct(order)
        invariant forall i, j :: 0 <= i < |order| && 0 <= j < |order| && (order[i], order[j]) in edges ==> i < j
        invariant forall e :: e in edges && e.1 in placed ==> e.0 in placed
        invariant done ==> (r.Ok? ==> r.value == order && NodeSet() <= placed) && (r.Err? ==> HasCycle(edges))
        decreases NodeSet() - placed, !done
      {
        var k := FindReady(placed);
        if k < |nodes| {
          var n := nodes[k];
          order := order + [n];
          placed := placed + {n};
        } else if forall x :: x in nodes ==> x in placed {
          r := Ok(order);
          done := true;
        } else {
          ghost var start :| start in nodes && start !in placed;
          ghost var u := set x | x in nodes && x !in placed;
          forall n | n in u ensures exists e :: e in edges && e.1 == n && e.0 in u {
            var i := IndexOf(nodes, n);
            assert !IsReady(nodes[i], placed);
            var e :| e in edges && e.1 == n && e.0 !in placed;
            assert e.0 in Endpoints(edges);
          }
          UnplaceableNodesCloseACycle(edges, u, start);
          r := Err(CycleError);
          done := true;
        }
      }
      if r.Ok? {
        TopoOrderMeansNoCycle(Endpoints(edges), edges, r.value);
      }
    }
  }
}
