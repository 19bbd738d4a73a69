/**
 * The selection step of the command: from the chosen entry files, optionally
 * widened by every file that transitively imports one of them, to the set of
 * files within the depth limit of those roots.
 */
module Slice {
  import opened Options
  import opened Sets
  import opened Graph
  import opened Reach
  import opened Traversal

  /** The depth option as a limit: a positive value bounds the search, anything else leaves it unbounded. */
  function DepthLimit(flag: int): (r: Option<nat>)
    ensures r.None? <==> flag <= 0
    ensures r.Some? ==> r.value == flag
  {
    if flag > 0 then Some(flag) else None
  }

  /** xs without repeats, each kept at its first occurrence, as a set built from xs does. */
  function Distinct(xs: seq<string>): (r: seq<string>)
    ensures NoDup(r)
    ensures forall x :: x in r <==> x in xs
  {
    if |xs| == 0 then []
    else
      var init := xs[..|xs| - 1];
      assert forall x :: x in xs <==> x in init || x == xs[|xs| - 1] by {
        assert xs == init + [xs[|xs| - 1]];
      }
      Add(Distinct(init), xs[|xs| - 1])
  }

  /** The members of s, each once, in an order the model leaves open. */
  method Enumerate(s: set<string>) returns (xs: seq<string>)
    ensures NoDup(xs)
    ensures forall x :: x in xs <==> x in s
  {
    xs := [];
    var rest := s;
    while rest != {}
      invariant rest <= s
      invariant NoDup(xs)
      invariant forall x :: x in xs <==> x in s && x !in rest
      decreases |rest|
    {
      var x :| x in rest;
      xs := xs + [x];
      rest := rest - {x};
    }
  }

  /**
   * No selection gives no result. Otherwise the roots are the selected files,
   * together with every file that depends on one of them when `upstream` is
   * set, and the result is exactly the set of files within the depth limit of
   * the roots.
   */
  method ContextSlice(g: DirectedGraph, selected: seq<string>, upstream: bool, depthFlag: int)
    returns (r: Option<set<string>>, ghost roots: set<string>)
    requires g.Valid()
    ensures r.None? <==> |selected| == 0
    ensures forall x :: x in roots <==> x in selected || (upstream && DependsOn(g.Edges(), x, Elems(selected)))
    ensures r.Some? ==> forall x :: x in r.value <==> ReachableWithin(g.Edges(), roots, x, DepthLimit(depthFlag))
  {
    if |selected| == 0 {
      return None, {};
    }
    var entries := selected;
    if upstream {
      var parents := FindDependents(g, selected);
      var ps := Enumerate(parents);
      entries := Distinct(selected + ps);
      SeedsDepend(g.Edges(), Elems(selected));
    }
    var closure;
    ghost var depth;
    closure, depth := BuildClosure(g, entries, DepthLimit(depthFlag));
    return Some(closure), Elems(entries);
  }
}
