# Optimal network routing: a verified model of `dijkstras.py`

The program reads a directed network of routers `0..n-1` and integer-weighted
links. It can first drop the links that leave "no-transit" routers. It then
runs a lazy-deletion Dijkstra from a source router and draws the predecessor
tree it finds. This project models three parts of `dijkstras.py` and proves
what they compute:

- `shortestPath` (lines 7-42).
  - It builds the adjacency map.
  - It pops `(key, node)` entries from a binary heap, commits each router the
    first time it is popped and skips stale pops.
  - It pushes an entry for every uncommitted neighbour and records `previous`
    on every push.
  - At the end it gives every router it never committed the sentinel -1.
- `apply_no_transit_policy` (lines 86-91): an order-preserving filter over
  the links.
- The back-walk inside `visualize_graph` (lines 67-75), lifted into its own
  methods. From each destination it follows `previous` back to the source
  and collects the `(prev, current)` pairs it passes.

Files and modules:

- `graph.dfy` (`Graph`): links, adjacency entries, walks, and the key the
  engine gives a walk. `Relax` is line 31. `WalkKey` folds `Relax` along a
  walk.
- `graph_builder.dfy` (`GraphBuilder`): lines 8-14, together with the
  pending-list count that bounds the pushes.
- `transit_policy.dfy` (`TransitPolicy`): lines 86-91.
- `dijkstra.dfy` (`Dijkstra`): lines 17-42.
  - The heap is a multiset of entries. A pop takes the least entry in
    Python's tuple order: by key, with ties going to the smaller router id.
  - The loop invariant is the predicate `Searching`. Step lemmas show that a
    stale pop and a commit each keep it.
- `path_reconstruction.dfy` (`PathReconstruction`): lines 67-75.

Three behaviours are modelled exactly as written:

- Bandwidth mode. The pushed key is `-(w1 + w2)`, where `w1` is the popped
  key, which was itself negated. Signs therefore alternate along a path, so
  in bandwidth mode a key is not a negated path sum (`BandwidthKeyAlternates`).
  - Example: for links `0→1 (10)` and `1→2 (5)` the keys are
    `{0: 0, 1: -10, 2: 5}`.
- The predecessor test on line 35. Line 30 already ensures that `n2` is not
  in `shortest`, so `shortest.get(n2, inf)` is infinity and the test always
  holds. Every push therefore overwrites `previous[n2]`, and the entry can
  name a predecessor that is not on a lightest path.
  - Example: links `0→2 (1)`, `2→3 (1)`, `0→1 (2)` and `1→3 (5)` give
    `shortest[3] = 2` but `previous[3] = 1`.
  - The model therefore proves structural facts about `previous`: it is a
    tree of input links rooted at the source and ordered by commit time. It
    does not prove that the tree's paths are lightest.
- The sentinel -1 can collide with a real key. A reachable router can
  legitimately hold -1, through negative weights or in bandwidth mode.
  `Distances` allows this, and the back-walk then skips that router, exactly
  as line 69 does.

An out-of-range router id raises a `KeyError` in the source. Here it is a
`Failure` result that carries the missing key:

- line 14 fails for a link whose source lies outside `0..n-1`;
- line 29 fails for a router reached from `src` (`src` included) that lies
  outside `0..n-1`.

A link whose target lies outside the range raises nothing unless that target
is popped. `ShortestPath` succeeds exactly on the inputs where neither
failure happens (`ValidInput`).

## Model

| member | source | states |
|---|---|---|
| Graph.WalkExtend | dijkstras.py:29-32 | extending a walk by an input link out of its end is a walk, and its key is the relaxed key pushed on line 32 |
| Graph.AchievableExtend | dijkstras.py:29-32 | if some walk reaches `v` with key `k`, then a link out of `v` yields a walk reaching its target with the key pushed for it |
| Graph.AchievableIsReachable | dijkstras.py:22-32 | a router that some walk reaches with some key is reachable |
| Graph.WalkPrefix | dijkstras.py:22-32 | every prefix of a walk from `src` is a walk from `src` to the router where that prefix ends |
| Graph.ClosedSetHoldsReachable | dijkstras.py:22-36 | a set that holds `src` and is closed under the input links holds every router reachable from `src` |
| Graph.TotalWeightAppend | dijkstras.py:31 | adding a link to a walk adds its weight to the walk's total weight |
| Graph.LatencyKeyIsTotalWeight | dijkstras.py:31 | in latency mode, the key of a walk is its total weight |
| Graph.BandwidthKeyAlternates | dijkstras.py:31 | in bandwidth mode, two more links add the first weight and subtract the second, so the key is not a negated path sum |
| Graph.LatencyKeyPrefixBound | dijkstras.py:31 | in latency mode with non-negative weights, no prefix of a walk has a larger key than the walk |
| GraphBuilder.BuildAdjacency | dijkstras.py:8-14 | succeeds iff every link's source lies in `0..n-1`; on success the map has exactly the keys `0..n-1` and holds `Adjacency`; on failure it returns the first out-of-range source |
| GraphBuilder.OutArcsMember | dijkstras.py:13-14 | `[d, w]` is listed under `i` iff some input link goes from `i` to `d` with weight `w` |
| GraphBuilder.OutArcsAppend | dijkstras.py:13-14 | the lists of a concatenation are the two parts' lists in input order, so parallel links and self-loops each keep an entry |
| GraphBuilder.PendingAll | dijkstras.py:10-14 | when every source is in range, the lists together hold exactly one entry per link |
| GraphBuilder.PendingCommit | dijkstras.py:27-29 | committing a router removes exactly its list from the pending total |
| TransitPolicy.ApplyNoTransitPolicy | dijkstras.py:86-91 | the result is `Filtered(edges, noTransit)` |
| TransitPolicy.FilteredMember | dijkstras.py:88-90 | a link is in the result iff it is an input link whose source is not a no-transit router, or which is a self-loop |
| TransitPolicy.FilteredAppend | dijkstras.py:88-90 | the filter distributes over concatenation, so kept links keep their input order |
| TransitPolicy.FilteredKeepsAllowed | dijkstras.py:88-90 | a list in which every link is kept comes back verbatim |
| TransitPolicy.FilteredShorter | dijkstras.py:88-90 | the result is no longer than the input |
| TransitPolicy.FilteredAllKept | dijkstras.py:89 | every link in the result passes the line 89 test |
| TransitPolicy.FilteredIdempotent | dijkstras.py:86-91 | filtering twice gives the same result as filtering once |
| Dijkstra.LeastExists | dijkstras.py:22-23 | a nonempty heap has an entry that is least in tuple order, so `heappop` is defined |
| Dijkstra.LeastUnique | dijkstras.py:23 | the least entry is unique, so the pop is deterministic |
| Dijkstra.HeapPop | dijkstras.py:23 | the popped entry is the least entry in tuple order, and the heap loses exactly that one entry |
| Dijkstra.CommitIsOptimal | dijkstras.py:22-27 | in latency mode with non-negative weights, the entry popped for an uncommitted router is no heavier than any walk to that router |
| Dijkstra.PushedEntriesMember | dijkstras.py:29-32 | an entry is pushed iff some arc of the popped router leads to an uncommitted router, and the entry carries the relaxed key |
| Dijkstra.PushedEntriesSize | dijkstras.py:29-32 | a scan pushes at most one entry per arc |
| Dijkstra.RepointMember | dijkstras.py:29-36 | a router gains or changes its predecessor iff it is uncommitted and some arc leads to it; it then names the popped router, and every other entry is kept |
| Dijkstra.PredecessorTestHolds | dijkstras.py:30-35 | where line 35 is reached, `n2` is uncommitted, so `shortest.get(n2, inf)` is infinity and the test holds for every new weight |
| Dijkstra.RelaxArc | dijkstras.py:30-36 | one arc adds its relaxed entry to the heap and repoints its target exactly when the target is uncommitted (the line 35 test always holds) |
| Dijkstra.RelaxArcs | dijkstras.py:29-36 | the heap gains `PushedEntries` and `previous` becomes `Repoint` of the arcs, scanned in list order |
| Dijkstra.SearchStarts | dijkstras.py:17-20 | the state before the first pop, with only `(0, src)` in the heap, satisfies the loop invariant |
| Dijkstra.StalePop | dijkstras.py:23-25 | popping an entry for a committed router keeps the invariant and changes nothing else |
| Dijkstra.CommitHeap | dijkstras.py:27-32 | after a commit, every heap entry is the key of a walk to its router, and that router is `src` or has a predecessor |
| Dijkstra.CommitFrontier | dijkstras.py:27-32 | after a commit, every link out of a committed router leads to a committed router or has its relaxed entry in the heap |
| Dijkstra.CommitPredecessors | dijkstras.py:27-36 | after a commit, `src` still has no predecessor, every predecessor is committed, ranked earlier and joined by an input link, and every committed router other than `src` has one |
| Dijkstra.CommitLatency | dijkstras.py:22-32 | in latency mode with non-negative weights, committed keys stay lightest and stay no heavier than any heap entry |
| Dijkstra.CommitKeyOrder | dijkstras.py:22-27 | in latency mode with non-negative weights, the router committed from the least heap entry holds a key no smaller than every router committed before it |
| Dijkstra.CommitBasics | dijkstras.py:20-27 | after a commit, `src` is committed with key 0, the new key is achievable, and the new router gets the next rank |
| Dijkstra.CommitOrderGrows | dijkstras.py:27 | committing a router gives it the next rank, and the new committed map is the history step that adds exactly that router |
| Dijkstra.CommitBudget | dijkstras.py:29-32 | pushes plus the pending list lengths never exceed the number of links plus one |
| Dijkstra.HistoryGrows | dijkstras.py:24-27 | adding a committed map that extends the last one by one key keeps the history a chain that never changes a key |
| Dijkstra.CommitPointed | dijkstras.py:29-36 | every router with a predecessor is committed or still has an entry in the heap |
| Dijkstra.CommitPop | dijkstras.py:26-36 | a pop that commits a router and relaxes its arcs keeps the loop invariant `Searching` |
| Dijkstra.SearchDone | dijkstras.py:22 | with the heap empty, the committed routers are exactly those reachable from `src`, all in range; `previous` has exactly the committed routers other than `src` and is a tree ordered by rank |
| Dijkstra.PopKeyError | dijkstras.py:29 | a popped router with no adjacency list lies outside `0..n-1` and is reachable, so the input is not `ValidInput` |
| Dijkstra.Search | dijkstras.py:17-36 | the loop ends with the heap empty and the loop invariant holding, or with the KeyError of line 29 naming a reachable router outside `0..n-1` |
| Dijkstra.SearchResult | dijkstras.py:22-42 | the final state yields the distances, the latency optimum, the predecessor tree, the commit history and the commit order promised by `ShortestPath` |
| Dijkstra.FillUnreached | dijkstras.py:38-40 | keys are the committed routers plus `0..n-1`; committed values are kept, and every other id in range gets -1 |
| Dijkstra.ShortestPath | dijkstras.py:7-42 | succeeds iff `ValidInput`; a failure names a key outside `0..n-1`: the first out-of-range link source (line 14) when there is one, otherwise a router reachable from `src` (line 29); on success: keys `0..n-1`, `src` holds 0, reachable routers hold an achievable walk key, unreachable ones hold -1; in latency mode with non-negative weights each key is the least walk weight and keys never decrease in commit order; `rank` numbers the reachable routers in commit order, and `history[rank[v] + 1]` is the first committed map holding `v`; each step adds one router and never changes a committed key; `previous` is a tree of input links over exactly the reachable routers other than `src`, with every predecessor committed earlier |
| PathReconstruction.BackWalk | dijkstras.py:71-75 | the pairs collected walking back from `dest` are `BackPath(dest)`, nearest pair first |
| PathReconstruction.BackPathReachesSource | dijkstras.py:71-75 | over the predecessor tree, the walk back from a ranked router is empty iff it is `src`; otherwise it starts at `dest`, ends at `src`, is chained, and each pair is a predecessor entry and an input link |
| PathReconstruction.HighlightedEdges | dijkstras.py:67-75 | the collected pairs are the back-walks of the listed destinations, in order, skipping `src` and routers holding -1 |
| PathReconstruction.BackPathLinks | dijkstras.py:72-74 | over the predecessor tree, every pair met walking back is a predecessor entry and an input link |
| PathReconstruction.FlattenMember | dijkstras.py:74 | a pair is in the joined list iff it is in one of the appended lists |
| PathReconstruction.PartsIndex | dijkstras.py:68-69 | there is one appended list per destination, namely that destination's back-walk, or nothing when line 69 skips it |
| PathReconstruction.HighlightedMember | dijkstras.py:67-75 | a pair is collected iff it lies on the back-walk of some listed destination other than `src` whose distance is not -1 |
| PathReconstruction.HighlightedAreLinks | dijkstras.py:67-75 | over the tree `ShortestPath` returns, every collected pair is a predecessor entry and an input link |

## Left out

- `main` (lines 95-137). It reads from standard input, parses integers and
  prints. Its default to latency mode on bad input and its sign flip for
  display are presentation only.
- The drawing code of `visualize_graph` (lines 46-64 and 77-83). These are
  calls into networkx and matplotlib and have no checkable behaviour.
- The binary heap layout of `heapq`. The heap is a multiset, and a pop
  removes its least entry in tuple order.
- Python's `float('inf')` (line 35). `Lookup` stands for `dict.get(k, inf)`:
  a missing key is larger than every integer. No floating point is modelled.
- Links that are not three integers. `for s, d, weight in edges` would raise
  on them. A link here is always the datatype `Edge`.
- Dictionary iteration order (line 68). `HighlightedEdges` takes the order as
  its parameter `dests`. In Python this is the insertion order of `shortest`.
- Dijkstra.ShortestPath: does not claim that `previous` gives lightest
  paths. Line 35 always holds, so the last push wins (see the example
  above).
- Dijkstra.ShortestPath: the bound of at most `|edges| + 1` heap pushes is
  part of the loop invariant `Searching`, where it makes the loop end. It is
  not a postcondition, because the source returns no count of pushes.
- Dijkstra.ShortestPath: `rank` and `history` are ghost outputs. The
  contract says that they are a commit order and a sequence of committed
  maps with the stated properties, and the loop builds them from the actual
  pops. A caller cannot observe them in the source.
- Dijkstra.ShortestPath: when several reachable routers lie outside
  `0..n-1`, the contract says the failure names one of them. It does not say
  which one the pop order reaches first.
- PathReconstruction.BackWalk: requires that `rank` strictly decreases
  along `previous`. Otherwise the loop on line 72 would not end. The tree
  `ShortestPath` returns meets this requirement.
