/**
 * Small graphs on which the reference definitions give the expected slices,
 * and the searches run on a graph built edge by edge that returns them.
 */
module Scenarios {
  import opened Options
  import opened Sets
  import opened Reach
  import opened Graph
  import opened Traversal

  /** a imports b, and b imports c. */
  const Chain: EdgeSet := {("a", "b"), ("b", "c")}

  /** a and b import each other. */
  const Cycle: EdgeSet := {("a", "b"), ("b", "a")}

  /** The last file of a walk of at least one edge is the target of an edge. */
  lemma LastStep(E: EdgeSet, S: set<string>, x: string, n: nat)
    requires Walk(E, S, x, n) && n > 0
    ensures exists v :: (v, x) in E
  {
    var p :| IsPath(E, p) && |p| == n + 1 && p[0] in S && p[n] == x;
    assert (p[n - 1], p[n]) in E;
  }

  /** With depth 1 from a, the slice is a and b but not c. */
  lemma ChainDepthOne()
    ensures forall x :: ReachableWithin(Chain, {"a"}, x, Some(1)) <==> x == "a" || x == "b"
  {
    WalkStart(Chain, {"a"}, "a");
    WalkExtend(Chain, {"a"}, "a", 0, "b");
    forall x | ReachableWithin(Chain, {"a"}, x, Some(1))
      ensures x == "a" || x == "b"
    {
      var n: nat :| WithinLimit(n, Some(1)) && Walk(Chain, {"a"}, x, n);
      var p :| IsPath(Chain, p) && |p| == n + 1 && p[0] in {"a"} && p[n] == x;
      if n == 1 {
        assert (p[0], p[1]) in Chain;
      }
    }
  }

  /** Without a depth limit, the slice from a is a, b and c. */
  lemma ChainUnbounded()
    ensures forall x :: ReachableWithin(Chain, {"a"}, x, None) <==> x == "a" || x == "b" || x == "c"
  {
    WalkStart(Chain, {"a"}, "a");
    WalkExtend(Chain, {"a"}, "a", 0, "b");
    WalkExtend(Chain, {"a"}, "b", 1, "c");
    forall x | ReachableWithin(Chain, {"a"}, x, None)
      ensures x == "a" || x == "b" || x == "c"
    {
      var n: nat :| Walk(Chain, {"a"}, x, n);
      if n > 0 {
        LastStep(Chain, {"a"}, x, n);
      } else {
        var p :| IsPath(Chain, p) && |p| == 1 && p[0] in {"a"} && p[0] == x;
      }
    }
  }

  /** The search from a through a cycle yields both of its files. */
  lemma CycleUnbounded()
    ensures forall x :: ReachableWithin(Cycle, {"a"}, x, None) <==> x == "a" || x == "b"
  {
    WalkStart(Cycle, {"a"}, "a");
    WalkExtend(Cycle, {"a"}, "a", 0, "b");
    forall x | ReachableWithin(Cycle, {"a"}, x, None)
      ensures x == "a" || x == "b"
    {
      var n: nat :| Walk(Cycle, {"a"}, x, n);
      if n > 0 {
        LastStep(Cycle, {"a"}, x, n);
      } else {
        var p :| IsPath(Cycle, p) && |p| == 1 && p[0] in {"a"} && p[0] == x;
      }
    }
  }

  /** The files that depend on c, other than c itself, are a and b. */
  lemma ChainDependents()
    ensures forall x :: (x != "c" && DependsOn(Chain, x, {"c"})) <==> x == "a" || x == "b"
  {
    DependsOnSelf(Chain, "c", {"c"});
    DependsOnStep(Chain, "b", "c", {"c"});
    DependsOnStep(Chain, "a", "b", {"c"});
    forall x | x != "c" && DependsOn(Chain, x, {"c"})
      ensures x == "a" || x == "b"
    {
      var p :| IsPath(Chain, p) && p[0] == x && p[|p| - 1] in {"c"};
      assert |p| > 1;
      assert (p[0], p[1]) in Chain;
    }
  }

  /** Builds a→b→c by two edge insertions, as the scan of a and then b does. */
  method BuildChain() returns (g: DirectedGraph)
    ensures fresh(g) && g.Valid() && g.Edges() == Chain
  {
    g := new DirectedGraph();
    g.AddEdge("a", "b");
    g.AddEdge("b", "c");
  }

  /** On a→b→c, the closure of a at depth 1 is {a, b}. */
  method RunChainDepthOne() returns (closure: set<string>)
    ensures closure == {"a", "b"}
  {
    var g := BuildChain();
    assert Elems(["a"]) == {"a"};
    ghost var depth;
    closure, depth := BuildClosure(g, ["a"], Some(1));
    ChainDepthOne();
  }

  /** On a→b→c, the closure of a without a limit is {a, b, c}. */
  method RunChainUnbounded() returns (closure: set<string>)
    ensures closure == {"a", "b", "c"}
  {
    var g := BuildChain();
    assert Elems(["a"]) == {"a"};
    ghost var depth;
    closure, depth := BuildClosure(g, ["a"], None);
    ChainUnbounded();
  }

  /** On a→b→c, the dependents of c are {a, b}. */
  method RunChainDependents() returns (parents: set<string>)
    ensures parents == {"a", "b"}
  {
    var g := BuildChain();
    assert Elems(["c"]) == {"c"};
    parents := FindDependents(g, ["c"]);
    ChainDependents();
  }
}
