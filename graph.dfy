/**
 * The dependency graph over file paths: a node set plus a forward view
 * (importer to imported files) and a reverse view (imported file to its
 * importers), kept as mirror images of each other.
 */
module Graph {
  import opened Sets

  type Adjacency = map<string, seq<string>>

  /** The adjacency list of k, empty when k has none. */
  function Get(m: Adjacency, k: string): (r: seq<string>)
    ensures k in m ==> r == m[k]
    ensures k !in m ==> r == []
  {
    if k in m then m[k] else []
  }

  /** The pair (a, b) is recorded in m. */
  ghost predicate Holds(m: Adjacency, a: string, b: string) {
    a in m && b in m[a]
  }

  /**
   * m with v added to k's adjacency list, an empty list being created first
   * when k has none: k becomes a key, the other keys keep their lists, and
   * the recorded pairs grow by exactly (k, v).
   */
  function Link(m: Adjacency, k: string, v: string): (r: Adjacency)
    ensures forall a :: a in r <==> a in m || a == k
    ensures forall a :: a in m && a != k ==> r[a] == m[a]
    ensures forall a, b :: Holds(r, a, b) <==> Holds(m, a, b) || (a == k && b == v)
  {
    m[k := Add(Get(m, k), v)]
  }

  /** Every adjacency list of m is non-empty and duplicate-free. */
  ghost predicate WellFormed(m: Adjacency) {
    forall a :: a in m ==> |m[a]| > 0 && NoDup(m[a])
  }

  /** The forward view and the reverse view describe the same edges. */
  ghost predicate Mirror(edges: Adjacency, reverse: Adjacency) {
    forall a, b :: Holds(edges, a, b) <==> Holds(reverse, b, a)
  }

  lemma LinkWellFormed(m: Adjacency, k: string, v: string)
    requires WellFormed(m)
    ensures WellFormed(Link(m, k, v))
  {
    forall a | a in Link(m, k, v) ensures |Link(m, k, v)[a]| > 0 && NoDup(Link(m, k, v)[a]) {
      if a == k {
        assert v in Link(m, k, v)[a];
      }
    }
  }

  lemma LinkMirror(edges: Adjacency, reverse: Adjacency, from: string, to: string)
    requires Mirror(edges, reverse)
    ensures Mirror(Link(edges, from, to), Link(reverse, to, from))
  {
  }

  /**
   * The graph invariant on values: nodes are exactly the files that occur in
   * either view, every adjacency list is a non-empty duplicate-free set, and
   * the two views describe the same edges.
   */
  ghost predicate Consistent(nodes: set<string>, edges: Adjacency, reverse: Adjacency) {
    && (forall n :: n in nodes <==> n in edges || n in reverse)
    && WellFormed(edges)
    && WellFormed(reverse)
    && Mirror(edges, reverse)
  }

  /** The pairs (a, b) recorded in m. */
  ghost function EdgeSet(m: Adjacency): (r: set<(string, string)>)
    ensures forall a, b :: (a, b) in r <==> Holds(m, a, b)
  {
    set a, b | a in m && b in m[a] :: (a, b)
  }

  /** The edges from f to each member of ds. */
  ghost function Fan(f: string, ds: seq<string>): set<(string, string)> {
    set d | d in ds :: (f, d)
  }

  lemma FanSnoc(f: string, ds: seq<string>, d: string)
    ensures Fan(f, ds + [d]) == Fan(f, ds) + {(f, d)}
  {
  }

  lemma UnionStep<T>(a: set<T>, b: set<T>, c: set<T>, x: T)
    requires a == b + c
    ensures a + {x} == b + (c + {x})
  {
  }

  /** Adding an edge keeps the invariant and adds exactly that pair to the edge set. */
  lemma LinkConsistent(nodes: set<string>, edges: Adjacency, reverse: Adjacency, from: string, to: string)
    requires Consistent(nodes, edges, reverse)
    ensures Consistent(nodes + {from} + {to}, Link(edges, from, to), Link(reverse, to, from))
    ensures EdgeSet(Link(edges, from, to)) == EdgeSet(edges) + {(from, to)}
  {
    LinkWellFormed(edges, from, to);
    LinkWellFormed(reverse, to, from);
    LinkMirror(edges, reverse, from, to);
  }

  /** Adding an edge that is already present changes nothing. */
  lemma LinkPresent(nodes: set<string>, edges: Adjacency, reverse: Adjacency, from: string, to: string)
    requires Consistent(nodes, edges, reverse)
    requires Holds(edges, from, to)
    ensures nodes + {from} + {to} == nodes
    ensures Link(edges, from, to) == edges && Link(reverse, to, from) == reverse
  {
    assert Holds(reverse, to, from);
  }

  class DirectedGraph {
    var nodes: set<string>
    var edges: Adjacency
    var reverse: Adjacency

    /**
     * The object invariant: nodes are exactly the files that occur in either
     * view, every adjacency list is a non-empty duplicate-free set, and the
     * two views describe the same edges.
     */
    ghost predicate Valid()
      reads this
    {
      Consistent(nodes, edges, reverse)
    }

    /** The edge relation the graph stores, as a set of (importer, imported) pairs. */
    ghost function Edges(): set<(string, string)>
      reads this
    {
      EdgeSet(edges)
    }

    constructor ()
      ensures Valid()
      ensures nodes == {} && edges == map[] && reverse == map[]
      ensures Edges() == {}
    {
      nodes := {};
      edges := map[];
      reverse := map[];
    }

    /** The files n imports, in insertion order; empty for a file without edges. */
    function OutNeighbors(n: string): (r: seq<string>)
      reads this
      requires Valid()
      ensures NoDup(r)
      ensures forall m :: m in r <==> (n, m) in Edges()
      ensures forall m :: m in r ==> m in nodes
      ensures n !in nodes ==> r == []
    {
      if n in edges then edges[n] else []
    }

    /** The files that import n, in insertion order; empty for a file without edges. */
    function InNeighbors(n: string): (r: seq<string>)
      reads this
      requires Valid()
      ensures NoDup(r)
      ensures forall m :: m in r <==> (m, n) in Edges()
      ensures forall m :: m in r ==> m in nodes
      ensures n !in nodes ==> r == []
    {
      if n in reverse then reverse[n] else []
    }

    /** Records that `from` imports `to`, in both views, and registers both files. */
    method AddEdge(from: string, to: string)
      requires Valid()
      modifies this
      ensures Valid()
      ensures nodes == old(nodes) + {from} + {to}
      ensures edges == Link(old(edges), from, to)
      ensures reverse == Link(old(reverse), to, from)
      ensures Edges() == old(Edges()) + {(from, to)}
      ensures to in OutNeighbors(from) && from in InNeighbors(to)
      ensures (from, to) in old(Edges()) ==>
                nodes == old(nodes) && edges == old(edges) && reverse == old(reverse)
    {
      LinkConsistent(nodes, edges, reverse, from, to);
      if (from, to) in Edges() {
        LinkPresent(nodes, edges, reverse, from, to);
      }
      edges := Link(edges, from, to);
      reverse := Link(reverse, to, from);
      nodes := nodes + {from};
      nodes := nodes + {to};
    }

    /** Adds one edge from f to each of deps, in order, as the scan of a file does. */
    method AddEdges(f: string, deps: seq<string>)
      requires Valid()
      modifies this
      ensures Valid()
      ensures Edges() == old(Edges()) + Fan(f, deps)
    {
      var i := 0;
      while i < |deps|
        invariant 0 <= i <= |deps|
        invariant Valid()
        invariant Edges() == old(Edges()) + Fan(f, deps[..i])
      {
        assert deps[..i + 1] == deps[..i] + [deps[i]];
        FanSnoc(f, deps[..i], deps[i]);
        ghost var before := Edges();
        AddEdge(f, deps[i]);
        UnionStep(before, old(Edges()), Fan(f, deps[..i]), (f, deps[i]));
        i := i + 1;
      }
      assert deps[..i] == deps;
    }
  }
}
