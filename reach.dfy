/**
 * Reachability in the import graph, stated over its edge set: the reference
 * definitions against which the two traversals are proved.
 */
module Reach {
  import opened Options

  type EdgeSet = set<(string, string)>

  /** The files that occur in some edge of E. */
  ghost function Endpoints(E: EdgeSet): (r: set<string>)
    ensures forall a, b :: (a, b) in E ==> a in r && b in r
  {
    (set e | e in E :: e.0) + (set e | e in E :: e.1)
  }

  /** p is a non-empty walk along E: each entry imports the next. */
  ghost predicate IsPath(E: EdgeSet, p: seq<string>) {
    |p| > 0 && forall i, j :: 0 <= i && j == i + 1 && j < |p| ==> (p[i], p[j]) in E
  }

  /** x is reached from a member of S by a walk of exactly n edges. */
  ghost predicate Walk(E: EdgeSet, S: set<string>, x: string, n: nat) {
    exists p {:trigger IsPath(E, p)} :: IsPath(E, p) && |p| == n + 1 && p[0] in S && p[n] == x
  }

  /** A walk of n edges respects the depth limit (None: no limit). */
  predicate WithinLimit(n: nat, limit: Option<nat>) {
    limit.None? || n <= limit.value
  }

  /** A file first seen at depth d has its imports followed (`depth < maxDepth`). */
  predicate Expands(d: nat, limit: Option<nat>) {
    limit.None? || d < limit.value
  }

  /** x is at forward distance at most `limit` from S. */
  ghost predicate ReachableWithin(E: EdgeSet, S: set<string>, x: string, limit: Option<nat>) {
    exists n: nat :: WithinLimit(n, limit) && Walk(E, S, x, n)
  }

  /** x transitively imports some member of S (possibly x itself, by the empty walk). */
  ghost predicate DependsOn(E: EdgeSet, x: string, S: set<string>) {
    exists p {:trigger IsPath(E, p)} :: IsPath(E, p) && p[0] == x && p[|p| - 1] in S
  }

  /** Every member of S is reached from S by the empty walk. */
  lemma WalkStart(E: EdgeSet, S: set<string>, s: string)
    requires s in S
    ensures Walk(E, S, s, 0)
  {
    assert IsPath(E, [s]);
  }

  /** Following one more import from a file reached in n edges reaches its target in n + 1. */
  lemma WalkExtend(E: EdgeSet, S: set<string>, v: string, n: nat, w: string)
    requires Walk(E, S, v, n)
    requires (v, w) in E
    ensures Walk(E, S, w, n + 1)
  {
    var p :| IsPath(E, p) && |p| == n + 1 && p[0] in S && p[n] == v;
    var q := p + [w];
    forall i | 0 <= i < |q| - 1
      ensures (q[i], q[i + 1]) in E
    {
      if i < n {
        assert q[i] == p[i] && q[i + 1] == p[i + 1];
      }
    }
    assert IsPath(E, q) && |q| == n + 2 && q[0] in S && q[n + 1] == w;
  }

  /** Every member of S depends on S by the empty walk. */
  lemma DependsOnSelf(E: EdgeSet, s: string, S: set<string>)
    requires s in S
    ensures DependsOn(E, s, S)
  {
    assert IsPath(E, [s]);
  }

  /** Every seed depends on the seed set. */
  lemma SeedsDepend(E: EdgeSet, S: set<string>)
    ensures forall s :: s in S ==> DependsOn(E, s, S)
  {
    forall s | s in S
      ensures DependsOn(E, s, S)
    {
      DependsOnSelf(E, s, S);
    }
  }

  /** An importer of a file that depends on S depends on S as well. */
  lemma DependsOnStep(E: EdgeSet, u: string, v: string, S: set<string>)
    requires (u, v) in E
    requires DependsOn(E, v, S)
    ensures DependsOn(E, u, S)
  {
    var p :| IsPath(E, p) && p[0] == v && p[|p| - 1] in S;
    var q := [u] + p;
    forall i | 0 <= i < |q| - 1
      ensures (q[i], q[i + 1]) in E
    {
      if i > 0 {
        assert q[i] == p[i - 1] && q[i + 1] == p[i];
      }
    }
    assert IsPath(E, q) && q[0] == u && q[|q| - 1] in S;
  }

  /**
   * A set V that holds S and every importer of its members holds every file
   * on a path ending in S: the completeness half of the dependents search.
   */
  lemma {:induction false} ImportersClosed(E: EdgeSet, S: set<string>, V: set<string>, p: seq<string>)
    requires S <= V
    requires forall u, v :: v in V && (u, v) in E ==> u in V
    requires IsPath(E, p) && p[|p| - 1] in S
    ensures p[0] in V
    decreases |p|
  {
    if |p| > 1 {
      assert IsPath(E, p[1..]) by {
        forall i | 0 <= i < |p[1..]| - 1
          ensures (p[1..][i], p[1..][i + 1]) in E
        {
          assert p[1..][i] == p[i + 1] && p[1..][i + 1] == p[i + 2];
        }
      }
      ImportersClosed(E, S, V, p[1..]);
      assert (p[0], p[1]) in E;
    }
  }

  /** A set that holds S and every importer of its members holds every file that depends on S. */
  lemma DependentsClosed(E: EdgeSet, S: set<string>, V: set<string>)
    requires S <= V
    requires forall u, v :: v in V && (u, v) in E ==> u in V
    ensures forall x :: DependsOn(E, x, S) ==> x in V
  {
    forall x | DependsOn(E, x, S)
      ensures x in V
    {
      var p :| IsPath(E, p) && p[0] == x && p[|p| - 1] in S;
      ImportersClosed(E, S, V, p);
    }
  }

  /**
   * The completeness half of the depth-bounded search. Suppose every seed was
   * recorded at depth 0, and every recorded file v whose imports are expanded
   * has each imported file w recorded at depth at most depth[v] + 1. Then
   * every file at the end of a walk from S of n edges within the limit is
   * recorded, at depth at most n.
   */
  lemma {:induction false} DepthsBounded(E: EdgeSet, S: set<string>, depth: map<string, nat>,
                                         limit: Option<nat>, p: seq<string>)
    requires forall s :: s in S ==> s in depth && depth[s] == 0
    requires forall v, w :: v in depth && (v, w) in E && Expands(depth[v], limit) ==>
                              w in depth && depth[w] <= depth[v] + 1
    requires IsPath(E, p) && p[0] in S && WithinLimit(|p| - 1, limit)
    ensures p[|p| - 1] in depth && depth[p[|p| - 1]] <= |p| - 1
    decreases |p|
  {
    if |p| > 1 {
      var q := p[..|p| - 1];
      assert IsPath(E, q) by {
        forall i | 0 <= i < |q| - 1
          ensures (q[i], q[i + 1]) in E
        {
          assert q[i] == p[i] && q[i + 1] == p[i + 1];
        }
      }
      DepthsBounded(E, S, depth, limit, q);
      assert (p[|p| - 2], p[|p| - 1]) in E;
    }
  }

  /** A file reached in n edges is recorded at depth at most n, under the same hypotheses. */
  lemma WalkBounded(E: EdgeSet, S: set<string>, depth: map<string, nat>, limit: Option<nat>,
                    x: string, n: nat)
    requires forall s :: s in S ==> s in depth && depth[s] == 0
    requires forall v, w :: v in depth && (v, w) in E && Expands(depth[v], limit) ==>
                              w in depth && depth[w] <= depth[v] + 1
    requires Walk(E, S, x, n) && WithinLimit(n, limit)
    ensures x in depth && depth[x] <= n
  {
    var p :| IsPath(E, p) && |p| == n + 1 && p[0] in S && p[n] == x;
    DepthsBounded(E, S, depth, limit, p);
  }
}
