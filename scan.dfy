/**
 * Building the dependency graph while scanning the collected files: each
 * file's dependency list is computed from the specifiers captured in it,
 * and one edge is recorded from the file to each dependency.
 */
module Scan {
  import opened Sets
  import opened Graph
  import opened Resolve

  /** a is one of files and one of its relative specifiers resolves to b. */
  ghost predicate Imports(isFile: string -> bool, join: (string, string) -> string,
                          files: seq<string>, specsOf: string -> seq<string>, a: string, b: string)
  {
    a in files && exists s :: s in specsOf(a) && Resolves(isFile, join, a, s, b)
  }

  lemma ImportsStep(isFile: string -> bool, join: (string, string) -> string,
                    files: seq<string>, specsOf: string -> seq<string>, i: nat,
                    deps: seq<string>, before: set<(string, string)>, after: set<(string, string)>)
    requires i < |files|
    requires forall d :: d in deps <==> exists s :: s in specsOf(files[i]) && Resolves(isFile, join, files[i], s, d)
    requires after == before + Fan(files[i], deps)
    ensures forall a, b :: (a, b) in after <==>
              (a, b) in before || (a == files[i] && exists s :: s in specsOf(a) && Resolves(isFile, join, a, s, b))
  {
    forall a, b
      ensures (a, b) in after <==>
              (a, b) in before || (a == files[i] && exists s :: s in specsOf(a) && Resolves(isFile, join, a, s, b))
    {
      if a == files[i] && b in deps {
        assert (a, b) in Fan(files[i], deps);
      }
    }
  }

  /**
   * Adds, for each file in order, an edge to each member of its dependency
   * list. Afterwards the graph holds exactly the edges it held before plus
   * one edge from each scanned file to each resolution of its relative
   * specifiers.
   */
  method ScanFiles(g: DirectedGraph, isFile: string -> bool, join: (string, string) -> string,
                   files: seq<string>, specsOf: string -> seq<string>)
    requires g.Valid()
    modifies g
    ensures g.Valid()
    ensures forall a, b :: (a, b) in g.Edges() <==>
              (a, b) in old(g.Edges()) || Imports(isFile, join, files, specsOf, a, b)
  {
    for i := 0 to |files|
      invariant g.Valid()
      invariant forall a, b :: (a, b) in g.Edges() <==>
                  (a, b) in old(g.Edges()) || Imports(isFile, join, files[..i], specsOf, a, b)
    {
      assert files[..i + 1] == files[..i] + [files[i]];
      var deps := ParseImports(isFile, join, files[i], specsOf(files[i]));
      ghost var before := g.Edges();
      g.AddEdges(files[i], deps);
      ImportsStep(isFile, join, files, specsOf, i, deps, before, g.Edges());
    }
    assert files[..|files|] == files;
  }
}
