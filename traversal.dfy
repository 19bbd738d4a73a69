/**
 * The two breadth-first traversals of the dependency graph: the search for the
 * files that (transitively) import the seeds, and the depth-bounded closure
 * over what the entries (transitively) import.
 */
module Traversal {
  import opened Options
  import opened Sets
  import opened Graph
  import opened Reach

  /** The members of items not in visited, in order. */
  function Unvisited(items: seq<string>, visited: set<string>): (r: seq<string>)
    ensures forall x :: x in r <==> x in items && x !in visited
  {
    if |items| == 0 then []
    else if items[0] in visited then Unvisited(items[1..], visited)
    else [items[0]] + Unvisited(items[1..], visited)
  }

  /** Appends each member of items that has not been visited yet to the queue. */
  method PushUnvisited(queue: seq<string>, items: seq<string>, visited: set<string>) returns (q: seq<string>)
    ensures q == queue + Unvisited(items, visited)
  {
    q := queue;
    var k := 0;
    while k < |items|
      invariant 0 <= k <= |items|
      invariant q + Unvisited(items[k..], visited) == queue + Unvisited(items, visited)
    {
      assert items[k..] == [items[k]] + items[k + 1..];
      if items[k] !in visited {
        q := q + [items[k]];
      }
      k := k + 1;
    }
  }

  /** Deletes each member of entries from visited, one after the other. */
  method DeleteAll(visited: set<string>, entries: seq<string>) returns (r: set<string>)
    ensures r == visited - Elems(entries)
  {
    r := visited;
    var i := 0;
    while i < |entries|
      invariant 0 <= i <= |entries|
      invariant r == visited - Elems(entries[..i])
    {
      assert Elems(entries[..i + 1]) == Elems(entries[..i]) + {entries[i]} by {
        assert entries[..i + 1] == entries[..i] + [entries[i]];
      }
      r := r - {entries[i]};
      i := i + 1;
    }
    assert entries[..i] == entries;
  }

  /**
   * The state of the dependents search: everything visited or queued depends
   * on the seeds and lies in U, every seed is visited or queued, and every
   * importer of a visited file is visited or queued.
   */
  ghost predicate SearchInv(E: EdgeSet, S: set<string>, U: set<string>,
                            visited: set<string>, queue: seq<string>)
  {
    && visited <= U
    && (forall x :: x in queue ==> x in U && DependsOn(E, x, S))
    && (forall v :: v in visited ==> DependsOn(E, v, S))
    && (forall s :: s in S ==> s in visited || s in queue)
    && (forall u, v :: v in visited && (u, v) in E ==> u in visited || u in queue)
  }

  lemma SearchStart(E: EdgeSet, entries: seq<string>, U: set<string>)
    requires Elems(entries) <= U
    ensures SearchInv(E, Elems(entries), U, {}, entries)
  {
    SeedsDepend(E, Elems(entries));
  }

  /** Popping a file that was already visited keeps the invariant. */
  lemma SearchSkip(E: EdgeSet, S: set<string>, U: set<string>, visited: set<string>, queue: seq<string>)
    requires SearchInv(E, S, U, visited, queue)
    requires |queue| > 0 && queue[0] in visited
    ensures SearchInv(E, S, U, visited, queue[1..])
  {
    HeadTail(queue);
  }

  /** Visiting the popped file and queueing its unvisited importers keeps the invariant. */
  lemma SearchVisit(E: EdgeSet, S: set<string>, U: set<string>, visited: set<string>,
                    queue: seq<string>, parents: seq<string>)
    requires SearchInv(E, S, U, visited, queue)
    requires |queue| > 0 && queue[0] !in visited
    requires forall u :: u in parents <==> (u, queue[0]) in E
    requires Endpoints(E) <= U
    ensures SearchInv(E, S, U, visited + {queue[0]},
                      queue[1..] + Unvisited(parents, visited + {queue[0]}))
  {
    var f := queue[0];
    HeadTail(queue);
    forall u | u in parents
      ensures u in U && DependsOn(E, u, S)
    {
      DependsOnStep(E, u, f, S);
    }
  }

  /**
   * Breadth-first search over the reverse view from every seed, each file
   * visited once; the seeds are then removed. The result is exactly the set of
   * files, other than the seeds, that reach a seed along import edges.
   */
  method FindDependents(g: DirectedGraph, entries: seq<string>) returns (visited: set<string>)
    requires g.Valid()
    ensures forall x :: x in visited <==> x !in entries && DependsOn(g.Edges(), x, Elems(entries))
    ensures forall e :: e in entries ==> e !in visited
  {
    ghost var E := g.Edges();
    ghost var S := Elems(entries);
    ghost var U := Endpoints(E) + S;
    visited := {};
    var queue := entries;
    SearchStart(E, entries, U);
    while |queue| > 0
      invariant SearchInv(E, S, U, visited, queue)
      decreases |U - visited|, |queue|
    {
      var f := queue[0];
      if f in visited {
        SearchSkip(E, S, U, visited, queue);
        queue := queue[1..];
        continue;
      }
      VisitShrinks(U, visited, f);
      var parents := g.InNeighbors(f);
      SearchVisit(E, S, U, visited, queue, parents);
      queue := queue[1..];
      visited := visited + {f};
      queue := PushUnvisited(queue, parents, visited);
    }
    DependentsClosed(E, S, visited);
    visited := DeleteAll(visited, entries);
  }

  /** A queued file together with the depth at which it was reached. */
  datatype Pending = Pending(file: string, depth: nat)

  /** The initial queue: every entry at depth 0. */
  function StartQueue(entries: seq<string>): (q: seq<Pending>)
    ensures |q| == |entries|
    ensures forall i :: 0 <= i < |q| ==> q[i] == Pending(entries[i], 0)
  {
    seq(|entries|, i requires 0 <= i < |entries| => Pending(entries[i], 0))
  }

  /** Each of files, queued at depth d. */
  function AtDepth(files: seq<string>, d: nat): (q: seq<Pending>)
    ensures |q| == |files|
    ensures forall i :: 0 <= i < |q| ==> q[i] == Pending(files[i], d)
  {
    seq(|files|, i requires 0 <= i < |files| => Pending(files[i], d))
  }

  /** Appends each member of items that has not been visited yet to the queue, at depth d. */
  method PushUnvisitedAt(queue: seq<Pending>, items: seq<string>, visited: set<string>, d: nat)
    returns (q: seq<Pending>)
    ensures q == queue + AtDepth(Unvisited(items, visited), d)
  {
    q := queue;
    var k := 0;
    while k < |items|
      invariant 0 <= k <= |items|
      invariant q + AtDepth(Unvisited(items[k..], visited), d) == queue + AtDepth(Unvisited(items, visited), d)
    {
      assert items[k..] == [items[k]] + items[k + 1..];
      if items[k] !in visited {
        assert AtDepth(Unvisited(items[k..], visited), d)
            == [Pending(items[k], d)] + AtDepth(Unvisited(items[k + 1..], visited), d);
        q := q + [Pending(items[k], d)];
      }
      k := k + 1;
    }
  }

  /** Queue depths never decrease from front to back and stay within lo and lo + 1. */
  ghost predicate QueueOrdered(lo: nat, queue: seq<Pending>) {
    && (forall i :: 0 <= i < |queue| ==> lo <= queue[i].depth <= lo + 1)
    && (forall i, j :: 0 <= i < j < |queue| ==> queue[i].depth <= queue[j].depth)
  }

  /** Every queued file lies in U and is reached from S by a walk of its depth, within the limit. */
  ghost predicate QueueSound(E: EdgeSet, S: set<string>, U: set<string>, limit: Option<nat>,
                             queue: seq<Pending>)
  {
    forall q :: q in queue ==> q.file in U && Walk(E, S, q.file, q.depth) && WithinLimit(q.depth, limit)
  }

  /** Every visited file lies in U, was visited at depth at most lo, and is reached by a walk of that depth. */
  ghost predicate DepthsSound(E: EdgeSet, S: set<string>, U: set<string>, limit: Option<nat>,
                              depth: map<string, nat>, lo: nat)
  {
    forall v :: v in depth ==> v in U && depth[v] <= lo && Walk(E, S, v, depth[v]) && WithinLimit(depth[v], limit)
  }

  /** Every entry is visited at depth 0 or still queued at depth 0. */
  ghost predicate SeedsCovered(S: set<string>, depth: map<string, nat>, queue: seq<Pending>) {
    forall s :: s in S ==> (s in depth && depth[s] == 0) || Pending(s, 0) in queue
  }

  /**
   * Every import w of a visited file v that is expanded is visited at depth
   * at most depth[v] + 1, or still queued at exactly that depth.
   */
  ghost predicate ImportsCovered(E: EdgeSet, limit: Option<nat>, depth: map<string, nat>, queue: seq<Pending>) {
    forall v, w :: v in depth && (v, w) in E && Expands(depth[v], limit) ==>
                     (w in depth && depth[w] <= depth[v] + 1) || Pending(w, depth[v] + 1) in queue
  }

  /** The state of the depth-bounded closure search; the visited set is the key set of depth. */
  ghost predicate ClosureInv(E: EdgeSet, S: set<string>, U: set<string>, limit: Option<nat>,
                             depth: map<string, nat>, lo: nat, queue: seq<Pending>)
  {
    && QueueOrdered(lo, queue)
    && QueueSound(E, S, U, limit, queue)
    && DepthsSound(E, S, U, limit, depth, lo)
    && SeedsCovered(S, depth, queue)
    && ImportsCovered(E, limit, depth, queue)
  }

  lemma ClosureStart(E: EdgeSet, entries: seq<string>, U: set<string>, limit: Option<nat>)
    requires Elems(entries) <= U
    ensures ClosureInv(E, Elems(entries), U, limit, map[], 0, StartQueue(entries))
  {
    var S, queue := Elems(entries), StartQueue(entries);
    forall q | q in queue
      ensures q.file in U && Walk(E, S, q.file, q.depth) && WithinLimit(q.depth, limit)
    {
      WalkStart(E, S, q.file);
    }
    forall s | s in S
      ensures Pending(s, 0) in queue
    {
      var i :| 0 <= i < |entries| && entries[i] == s;
      assert queue[i] == Pending(s, 0);
    }
  }

  /** Popping a file that was already visited keeps the invariant. */
  lemma ClosureSkip(E: EdgeSet, S: set<string>, U: set<string>, limit: Option<nat>,
                    depth: map<string, nat>, lo: nat, queue: seq<Pending>)
    requires ClosureInv(E, S, U, limit, depth, lo, queue)
    requires |queue| > 0 && queue[0].file in depth
    ensures ClosureInv(E, S, U, limit, depth, lo, queue[1..])
  {
    HeadTail(queue);
    var item := queue[0];
    assert lo <= item.depth;
    forall s | s in S && !(s in depth && depth[s] == 0)
      ensures Pending(s, 0) in queue[1..]
    {
      assert Pending(s, 0) != item;
    }
    forall v, w | v in depth && (v, w) in E && Expands(depth[v], limit) &&
                  !(w in depth && depth[w] <= depth[v] + 1)
      ensures Pending(w, depth[v] + 1) in queue[1..]
    {
      assert Pending(w, depth[v] + 1) != item;
    }
  }

  /** The entries queued after visiting a file at depth d whose imports are succs. */
  function Pushed(succs: seq<string>, visited: set<string>, d: nat, limit: Option<nat>): (r: seq<Pending>) {
    if Expands(d, limit) then AtDepth(Unvisited(succs, visited), d + 1) else []
  }

  lemma SomePushed(queue: seq<Pending>, succs: seq<string>, visited: set<string>, d: nat, limit: Option<nat>)
    requires Expands(d, limit)
    ensures queue + AtDepth(Unvisited(succs, visited), d + 1) == queue + Pushed(succs, visited, d, limit)
  {
  }

  lemma NothingPushed(queue: seq<Pending>, succs: seq<string>, visited: set<string>, d: nat, limit: Option<nat>)
    requires !Expands(d, limit)
    ensures queue + Pushed(succs, visited, d, limit) == queue
  {
  }

  lemma PushedFacts(E: EdgeSet, f: string, succs: seq<string>, visited: set<string>, d: nat, limit: Option<nat>)
    requires forall w :: w in succs <==> (f, w) in E
    ensures forall q :: q in Pushed(succs, visited, d, limit) ==>
              q.depth == d + 1 && (f, q.file) in E && q.file !in visited && Expands(d, limit)
    ensures Expands(d, limit) ==> forall w :: (f, w) in E && w !in visited ==>
              Pending(w, d + 1) in Pushed(succs, visited, d, limit)
  {
    if Expands(d, limit) {
      var xs := Unvisited(succs, visited);
      forall w | (f, w) in E && w !in visited
        ensures Pending(w, d + 1) in Pushed(succs, visited, d, limit)
      {
        var i :| 0 <= i < |xs| && xs[i] == w;
        assert Pushed(succs, visited, d, limit)[i] == Pending(w, d + 1);
      }
    }
  }

  /** The popped entry has the smallest depth in the queue. */
  lemma HeadSmallest(lo: nat, queue: seq<Pending>)
    requires QueueOrdered(lo, queue) && |queue| > 0
    ensures forall q :: q in queue ==> queue[0].depth <= q.depth
  {
    forall q | q in queue ensures queue[0].depth <= q.depth {
      var i :| 0 <= i < |queue| && queue[i] == q;
      if i > 0 {
        assert queue[0].depth <= queue[i].depth;
      }
    }
  }

  lemma VisitOrdered(lo: nat, queue: seq<Pending>, d: nat, pushed: seq<Pending>)
    requires QueueOrdered(lo, queue) && |queue| > 0 && queue[0].depth == d
    requires forall q :: q in pushed ==> q.depth == d + 1
    ensures QueueOrdered(d, queue[1..] + pushed)
  {
    HeadSmallest(lo, queue);
    var rest := queue[1..];
    var queue' := rest + pushed;
    forall i, j | 0 <= i < j < |queue'|
      ensures queue'[i].depth <= queue'[j].depth
    {
      if j >= |rest| {
        assert queue'[j] in pushed;
        if i < |rest| {
          assert queue'[i] == queue[i + 1];
        } else {
          assert queue'[i] in pushed;
        }
      } else {
        assert queue'[i] == queue[i + 1] && queue'[j] == queue[j + 1];
      }
    }
    forall i | 0 <= i < |queue'|
      ensures d <= queue'[i].depth <= d + 1
    {
      if i < |rest| {
        assert queue'[i] == queue[i + 1];
        assert queue[i + 1] in queue;
      } else {
        assert queue'[i] in pushed;
      }
    }
  }

  lemma VisitSound(E: EdgeSet, S: set<string>, U: set<string>, limit: Option<nat>,
                   depth: map<string, nat>, lo: nat, queue: seq<Pending>, pushed: seq<Pending>)
    requires QueueSound(E, S, U, limit, queue) && DepthsSound(E, S, U, limit, depth, lo)
    requires QueueOrdered(lo, queue) && |queue| > 0
    requires forall a, b :: (a, b) in E ==> b in U
    requires forall q :: q in pushed ==>
               q.depth == queue[0].depth + 1 && (queue[0].file, q.file) in E && Expands(queue[0].depth, limit)
    ensures QueueSound(E, S, U, limit, queue[1..] + pushed)
    ensures DepthsSound(E, S, U, limit, depth[queue[0].file := queue[0].depth], queue[0].depth)
  {
    HeadSmallest(lo, queue);
    var f, d := queue[0].file, queue[0].depth;
    assert queue[0] in queue;
    forall q | q in queue[1..] + pushed
      ensures q.file in U && Walk(E, S, q.file, q.depth) && WithinLimit(q.depth, limit)
    {
      if q in pushed {
        WalkExtend(E, S, f, d, q.file);
      } else {
        assert q in queue;
      }
    }
  }

  /** An entry other than the popped one stays in the queue. */
  lemma StaysQueued(queue: seq<Pending>, pushed: seq<Pending>, x: Pending)
    requires |queue| > 0 && x in queue && x != queue[0]
    ensures x in queue[1..] + pushed
  {
    HeadTail(queue);
  }

  lemma VisitSeeds(S: set<string>, depth: map<string, nat>, queue: seq<Pending>, pushed: seq<Pending>)
    requires SeedsCovered(S, depth, queue)
    requires |queue| > 0 && queue[0].file !in depth
    ensures SeedsCovered(S, depth[queue[0].file := queue[0].depth], queue[1..] + pushed)
  {
    var depth' := depth[queue[0].file := queue[0].depth];
    forall s | s in S && !(s in depth' && depth'[s] == 0)
      ensures Pending(s, 0) in queue[1..] + pushed
    {
      StaysQueued(queue, pushed, Pending(s, 0));
    }
  }

  lemma VisitImports(E: EdgeSet, limit: Option<nat>, depth: map<string, nat>, queue: seq<Pending>, pushed: seq<Pending>)
    requires ImportsCovered(E, limit, depth, queue)
    requires |queue| > 0 && queue[0].file !in depth
    requires forall v :: v in depth ==> depth[v] <= queue[0].depth
    requires Expands(queue[0].depth, limit) ==> forall w :: (queue[0].file, w) in E && w !in depth.Keys + {queue[0].file} ==>
               Pending(w, queue[0].depth + 1) in pushed
    ensures ImportsCovered(E, limit, depth[queue[0].file := queue[0].depth], queue[1..] + pushed)
  {
    var f, d := queue[0].file, queue[0].depth;
    var depth' := depth[f := d];
    forall v, w | v in depth' && (v, w) in E && Expands(depth'[v], limit) &&
                  !(w in depth' && depth'[w] <= depth'[v] + 1)
      ensures Pending(w, depth'[v] + 1) in queue[1..] + pushed
    {
      if v == f {
        assert w != f && w !in depth;
      } else {
        StaysQueued(queue, pushed, Pending(w, depth[v] + 1));
      }
    }
  }

  /**
   * Visiting the popped file at its depth d, and queueing its unvisited
   * imports at depth d + 1 when d is below the limit, keeps the invariant.
   * Because the popped entry has the smallest depth in the queue, d is also
   * no larger than the depth of any other queued copy of the same file.
   */
  lemma ClosureVisit(E: EdgeSet, S: set<string>, U: set<string>, limit: Option<nat>,
                     depth: map<string, nat>, lo: nat, queue: seq<Pending>,
                     visited: set<string>, succs: seq<string>,
                     depth': map<string, nat>, queue': seq<Pending>)
    requires ClosureInv(E, S, U, limit, depth, lo, queue)
    requires forall a, b :: (a, b) in E ==> b in U
    requires visited == depth.Keys
    requires |queue| > 0 && queue[0].file !in visited
    requires forall w :: w in succs <==> (queue[0].file, w) in E
    requires depth' == depth[queue[0].file := queue[0].depth]
    requires queue' == queue[1..] + Pushed(succs, visited + {queue[0].file}, queue[0].depth, limit)
    ensures ClosureInv(E, S, U, limit, depth', queue[0].depth, queue')
    ensures depth'.Keys == visited + {queue[0].file}
  {
    var f, d := queue[0].file, queue[0].depth;
    var pushed := Pushed(succs, visited + {f}, d, limit);
    PushedFacts(E, f, succs, visited + {f}, d, limit);
    assert lo <= d;
    VisitOrdered(lo, queue, d, pushed);
    VisitSound(E, S, U, limit, depth, lo, queue, pushed);
    VisitSeeds(S, depth, queue, pushed);
    VisitImports(E, limit, depth, queue, pushed);
  }

  /**
   * When the queue is empty, the visited files are exactly those within the
   * limit of the entries, and each was visited at its distance from them.
   */
  lemma ClosureDone(E: EdgeSet, entries: seq<string>, U: set<string>, limit: Option<nat>,
                    visited: set<string>, depth: map<string, nat>, lo: nat, queue: seq<Pending>)
    requires ClosureInv(E, Elems(entries), U, limit, depth, lo, queue)
    requires visited == depth.Keys && |queue| == 0
    ensures forall x :: x in visited <==> ReachableWithin(E, Elems(entries), x, limit)
    ensures forall v :: v in visited ==>
              Walk(E, Elems(entries), v, depth[v]) &&
              forall n: nat :: n < depth[v] ==> !Walk(E, Elems(entries), v, n)
  {
    var S := Elems(entries);
    assert queue == [];
    forall x | ReachableWithin(E, S, x, limit)
      ensures x in depth
    {
      var n: nat :| WithinLimit(n, limit) && Walk(E, S, x, n);
      WalkBounded(E, S, depth, limit, x, n);
    }
    forall v, n: nat | v in depth && n < depth[v]
      ensures !Walk(E, S, v, n)
    {
      if Walk(E, S, v, n) {
        WalkBounded(E, S, depth, limit, v, n);
      }
    }
  }

  /** Every entry is within any depth limit of the entries, so the closure contains them. */
  lemma ClosureHasEntries(E: EdgeSet, entries: seq<string>, limit: Option<nat>)
    ensures forall e :: e in entries ==> ReachableWithin(E, Elems(entries), e, limit)
  {
    forall e | e in entries
      ensures ReachableWithin(E, Elems(entries), e, limit)
    {
      WalkStart(E, Elems(entries), e);
    }
  }

  /**
   * The expansion step of the closure search: a file popped at depth d whose
   * depth has reached the limit contributes nothing, and otherwise each of
   * its imports that has not been visited is queued at depth d + 1.
   */
  method Expand(g: DirectedGraph, queue: seq<Pending>, item: Pending, visited: set<string>, maxDepth: Option<nat>)
    returns (q: seq<Pending>)
    requires g.Valid()
    ensures q == queue + Pushed(g.OutNeighbors(item.file), visited, item.depth, maxDepth)
  {
    if !Expands(item.depth, maxDepth) {
      NothingPushed(queue, g.OutNeighbors(item.file), visited, item.depth, maxDepth);
      return queue;
    }
    var succs := g.OutNeighbors(item.file);
    SomePushed(queue, succs, visited, item.depth, maxDepth);
    q := PushUnvisitedAt(queue, succs, visited, item.depth + 1);
  }

  /**
   * Breadth-first search over the forward view from every entry at depth 0. A
   * file is recorded when first popped; a file whose depth has reached the
   * limit is recorded but its imports are not followed. The result is exactly
   * the set of files at distance at most maxDepth from the entries (any
   * distance for None), and the ghost map gives the depth at which each was
   * recorded, which is its distance from the entries.
   */
  method BuildClosure(g: DirectedGraph, entries: seq<string>, maxDepth: Option<nat>)
    returns (visited: set<string>, ghost depth: map<string, nat>)
    requires g.Valid()
    ensures forall x :: x in visited <==> ReachableWithin(g.Edges(), Elems(entries), x, maxDepth)
    ensures visited == depth.Keys
    ensures forall v :: v in visited ==>
              Walk(g.Edges(), Elems(entries), v, depth[v]) &&
              forall n: nat :: n < depth[v] ==> !Walk(g.Edges(), Elems(entries), v, n)
  {
    ghost var E := g.Edges();
    ghost var S := Elems(entries);
    ghost var U := Endpoints(E) + S;
    ghost var lo: nat := 0;
    visited, depth := {}, map[];
    var queue := StartQueue(entries);
    ClosureStart(E, entries, U, maxDepth);
    while |queue| > 0
      invariant visited == depth.Keys
      invariant ClosureInv(E, S, U, maxDepth, depth, lo, queue)
      decreases |U - visited|, |queue|
    {
      var item := queue[0];
      if item.file in visited {
        ClosureSkip(E, S, U, maxDepth, depth, lo, queue);
        queue := queue[1..];
      } else {
        VisitShrinks(U, visited, item.file);
        ghost var depth0, lo0, queue0, visited0 := depth, lo, queue, visited;
        visited, depth, lo := visited + {item.file}, depth[item.file := item.depth], item.depth;
        queue := Expand(g, queue[1..], item, visited, maxDepth);
        ClosureVisit(E, S, U, maxDepth, depth0, lo0, queue0, visited0, g.OutNeighbors(item.file), depth, queue);
      }
    }
    ClosureDone(E, entries, U, maxDepth, visited, depth, lo, queue);
  }
}
