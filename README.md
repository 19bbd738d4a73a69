# context-map dependency core, modelled in Dafny

`scripts/context-map.ts` prints the slice of a TypeScript/JavaScript code base
relevant to a keyword. It scans the files under a root, builds a directed
import graph over them, and then expands the entry files the user picked. The
expansion can be widened upstream to every file that transitively imports an
entry. It then takes the downstream closure, bounded by an optional depth.
This project models that dependency core and proves its properties:

- `Graph`: the `DirectedGraph` class, with its forward and reverse adjacency
  maps kept as mirror images of each other.
- `Resolve`: module-specifier resolution by candidate probing, and the filter
  that turns captured specifiers into a file's dependency list.
- `Scan`: the scan loop that records one edge per dependency.
- `Reach`: reference definitions of reachability, as walks over the edge set.
- `Traversal`: the two breadth-first searches, proved against `Reach`.
- `Slice`: the selection step of `main`, which applies the upstream widening
  and the depth option.
- `Paths`: the `relative` display helper.
- `Scenarios`: small concrete graphs that exercise the definitions.

Files are strings. A JavaScript `Set<string>` inside the graph or the import
list is a duplicate-free `seq<string>` in insertion order (`Sets.Add`). The
node set and the visited sets of the two searches are Dafny `set`s. The
visited sets are also what `findDependents` and `buildClosure` return, and
the code spreads both into arrays (scripts/context-map.ts:307 and 314); the
model keeps their members and drops that order (see the
`Traversal.FindDependents` and `Traversal.BuildClosure` lines under
"## Left out"). A depth of `Infinity` is `None` of an
`Option<nat>`. The file system and URL resolution are function parameters:
- `isFile(path)` is true when `Deno.stat` succeeds on a regular file.
- `join(baseFile, spec)` is the path name of `new URL(spec, "file://" + baseFile)` after the backslash clean-up.

`buildClosure` never adds edges (scripts/context-map.ts:198-218), so the
graph is read-only once the scan is done. A file first met during the closure
adds no edges.

## Model

| member | source | states |
|---|---|---|
| Graph.DirectedGraph.constructor | scripts/context-map.ts:65-68 | A new graph has no nodes, no edges and satisfies the mirror invariant. |
| Graph.DirectedGraph.AddEdge | scripts/context-map.ts:70-77 | Keeps the invariant. Adds both files to the node set. Adds exactly the pair (from, to) to the edge set. Afterwards `to` is an out-neighbour of `from` and `from` an in-neighbour of `to`. A repeated edge changes nothing. |
| Graph.Link | scripts/context-map.ts:71-74 | Get-or-create then add: the key becomes present, every other key keeps its list, and the recorded pairs grow by exactly (key, value). |
| Graph.LinkConsistent | scripts/context-map.ts:70-77 | Inserting into both views keeps the invariant. The invariant: nodes are exactly the keys of either map, lists are non-empty and duplicate-free, and the views mirror each other. The edge set grows by exactly that pair. |
| Graph.LinkPresent | scripts/context-map.ts:70-77 | Adding an edge that is already present leaves the nodes and both maps unchanged (set semantics of `Set.add`). |
| Graph.DirectedGraph.OutNeighbors | scripts/context-map.ts:79-81 | Returns the duplicate-free list of exactly the files n imports, all of them nodes. It is empty for a file that is not a node. |
| Graph.DirectedGraph.InNeighbors | scripts/context-map.ts:83-85 | Returns the duplicate-free list of exactly the files that import n, all of them nodes. It is empty for a file that is not a node. |
| Graph.DirectedGraph.AddEdges | scripts/context-map.ts:124 | Adding an edge from f to each dependency in turn keeps the invariant and adds exactly those pairs. |
| Sets.Add | scripts/context-map.ts:72-76 | Insertion into an ordered set. Membership is the old members plus x. It keeps no duplicates, leaves a present x alone, and keeps the old order as a prefix. |
| Scan.ScanFiles | scripts/context-map.ts:121-124 | After the scan, an edge exists if and only if it existed before, or its source is a scanned file and one of that file's relative specifiers resolves to its target. |
| Resolve.FirstFile | scripts/context-map.ts:171-179 | None exactly when no candidate is a file. Otherwise it returns a candidate that is a file, and no earlier candidate is a file. |
| Resolve.ResolveModule | scripts/context-map.ts:158-180 | The probing loop returns the first candidate that is a file, and null when none is. |
| Resolve.Candidates | scripts/context-map.ts:166-170 | Nine candidates, the resolved path first. |
| Resolve.CandidatesAt | scripts/context-map.ts:166-170 | After the resolved path come the path with `.ts`, `.tsx`, `.js` and `.jsx` in that order, then `/index` with each of those extensions. |
| Resolve.ExactPathFirst | scripts/context-map.ts:166-179 | When the resolved path itself is a file, it is the answer. |
| Resolve.DirectBeatsIndex | scripts/context-map.ts:166-179 | When the path with some extension is a file, the answer is the path itself or the path with that extension or an earlier one. An index file is never chosen. |
| Resolve.IndexFallback | scripts/context-map.ts:166-179 | When only index files exist, the answer is the index file with the earliest existing extension. |
| Resolve.ParseImports | scripts/context-map.ts:136-155 | The dependency list has no duplicates or empty paths, and holds only existing files. It holds exactly the resolutions of the specifiers that start with `.`; bare specifiers and unresolvable ones are dropped. |
| Traversal.FindDependents | scripts/context-map.ts:182-196 | The result is exactly the files, other than the entries, that transitively import an entry. No entry is ever in the result, even on a cycle. |
| Reach.DependentsClosed | scripts/context-map.ts:182-196 | A visited set that holds the seeds and is closed under importers holds every file that depends on the seeds (completeness of the search). |
| Traversal.SearchVisit | scripts/context-map.ts:185-192 | Visiting the popped file and queueing its unvisited importers keeps the search invariant. The invariant: everything visited or queued depends on the seeds, and every importer of a visited file is visited or queued. |
| Traversal.PushUnvisited | scripts/context-map.ts:190-192 | The queue grows by exactly the importers not yet visited, in order. |
| Traversal.DeleteAll | scripts/context-map.ts:194 | The visited set loses exactly the entries. |
| Traversal.BuildClosure | scripts/context-map.ts:198-218 | The result is exactly the files at distance at most maxDepth from the entries; with no limit, every file reachable from them. Each file's recorded depth is its distance: a walk of that length exists and no shorter one does. |
| Traversal.StartQueue | scripts/context-map.ts:204-207 | The initial queue holds each entry, in order, at depth 0. |
| Traversal.ClosureHasEntries | scripts/context-map.ts:204-207 | Every entry is within every limit, so the closure contains the entries. |
| Traversal.ClosureVisit | scripts/context-map.ts:209-215 | Recording the popped file at its depth, and queueing its unvisited imports one level deeper when that depth is below the limit, keeps the closure invariant. The invariant: queue depths are sorted within two adjacent levels, all recorded depths are realised by walks, and the seeds and the imports of expanded files are recorded or queued. |
| Traversal.ClosureSkip | scripts/context-map.ts:209-210 | Dropping an already visited file from the queue keeps the closure invariant. |
| Traversal.Expand | scripts/context-map.ts:212-215 | A file at or past the depth limit adds nothing; otherwise its unvisited imports are queued one level deeper. |
| Traversal.PushUnvisitedAt | scripts/context-map.ts:213-215 | The queue grows by exactly the imports not yet visited, in order, each at the given depth. |
| Traversal.ClosureDone | scripts/context-map.ts:208-217 | Once the queue is empty, the recorded files are exactly those within the limit, each at its distance. |
| Reach.WalkBounded | scripts/context-map.ts:198-218 | Suppose the depths put each seed at 0 and each import of an expanded file at most one level deeper. Then any file reached by a walk within the limit has a depth, no greater than the walk's length. |
| Reach.WalkExtend | scripts/context-map.ts:213-214 | Following one import from a file reached in n steps reaches the target in n + 1. |
| Reach.DependsOnStep | scripts/context-map.ts:189-191 | An importer of a file that depends on the seeds also depends on them. |
| Slice.ContextSlice | scripts/context-map.ts:300-313 | No selected file gives no result. Otherwise the roots are the selection, plus every file depending on it when upstream is set. The result is exactly the files within the depth option of the roots, and a non-positive depth means no limit. |
| Slice.DepthLimit | scripts/context-map.ts:312 | A positive depth option is the limit itself; zero or a negative value means no limit, and only then. |
| Slice.Distinct | scripts/context-map.ts:307 | Building a set from a list drops repeats and keeps exactly the same members. |
| Slice.Enumerate | scripts/context-map.ts:307 | Spreading a set lists each member exactly once. |
| Paths.Relative | scripts/context-map.ts:260-268 | The loop drops the longest common run of leading segments and joins the rest of the target. |
| Paths.CommonPrefix | scripts/context-map.ts:263-266 | The number of dropped segments is the longest common prefix: the runs agree up to it, and after it one side is exhausted or they differ. |
| Paths.RelativeSelf | scripts/context-map.ts:260-268 | A path seen from itself is the empty string. |
| Paths.RelativeBelow | scripts/context-map.ts:260-268 | `from + "/" + rest` seen from `from` is `rest`. |
| Paths.Split | scripts/context-map.ts:261-262 | Splitting on `/` gives at least one segment, and no segment contains `/`. |
| Paths.JoinSplit | scripts/context-map.ts:261-267 | Joining the split segments with `/` gives the original path back. |
| Paths.SplitJoin | scripts/context-map.ts:261-267 | Splitting the join of separator-free segments gives the segments back. |
| Paths.SplitAround | scripts/context-map.ts:261-262 | The segments of `a/b` are those of a followed by those of b. |
| Scenarios.ChainDepthOne | scripts/context-map.ts:198-218 | With a→b→c and depth 1 from a, the closure is exactly {a, b}. |
| Scenarios.ChainUnbounded | scripts/context-map.ts:198-218 | With a→b→c and no depth limit from a, the closure is exactly {a, b, c}. |
| Scenarios.CycleUnbounded | scripts/context-map.ts:198-218 | With a⇄b and no limit from a, the closure is exactly {a, b}. |
| Scenarios.ChainDependents | scripts/context-map.ts:182-196 | With a→b→c, the dependents of c are exactly {a, b}. |
| Scenarios.BuildChain | scripts/context-map.ts:70-77 | Two edge insertions on a new graph give a valid graph whose edges are exactly a→b and b→c. |
| Scenarios.RunChainDepthOne | scripts/context-map.ts:198-218 | `buildClosure` on that graph from a with depth 1 returns exactly {a, b}. |
| Scenarios.RunChainUnbounded | scripts/context-map.ts:198-218 | `buildClosure` on that graph from a with no limit returns exactly {a, b, c}. |
| Scenarios.RunChainDependents | scripts/context-map.ts:182-196 | `findDependents` on that graph from c returns exactly {a, b}. |

## Left out

- File-system access is not modelled: directory walking (`collectFiles`), file reading, and the `stat` calls. The stat calls become the `isFile` parameter.
- The two import regular expressions are not modelled. `ParseImports` takes the captured specifiers, import-form matches first and then require-form matches, as its input.
- URL resolution of a specifier against the importing file is not modelled. It is the abstract `join` parameter, so path normalisation such as `..` handling is not checked.
- Keyword search over file lines and `escapeRegex` are not modelled, because they are regular-expression text matching.
- Argument parsing (`parseArgs`) and the interactive prompt are not modelled. `ContextSlice` takes the selected files, the upstream flag and the depth option as an integer. A `NaN` or fractional depth is not represented.
- Output rendering is not modelled: `outputFiles`, `generateFileTree`, JSON and Markdown printing, and the line limit. They are formatting only.
- Traversal.FindDependents: the order of the returned set is not stated. Only its membership is.
- Traversal.BuildClosure: the result's iteration order, which fixes the output order, is not stated. Only its membership and each file's depth are.
- Traversal.BuildClosure: the property that the closure contains the entries is proved as `ClosureHasEntries` about the reference definition, not as a separate postcondition.
- Resolve.ParseImports: the order of the returned list (first resolution first) is not stated. Only membership, absence of duplicates and existence of files are.
- Slice.Enumerate: the spread of the dependents set into a list does not fix an order. In the code it is the set's insertion order.
- Graph.DirectedGraph.AddEdges: it does not state the new node set. All members are proved to keep the invariant, which ties the nodes to the map keys.
- Slice.ContextSlice: the two earlier exits of `main` are not modelled: no keyword, and no matches. Both happen before the selection.
