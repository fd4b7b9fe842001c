/** `shortestPath`: lazy-deletion Dijkstra over the adjacency map, with a
    predecessor map for path reconstruction. The binary heap is modelled as a
    multiset of `(key, node)` entries from which the least entry in Python's
    tuple order is popped. */
module Dijkstra {
  import opened Graph
  import opened GraphBuilder

  /** A heap entry `(key, node)`. */
  datatype Entry = Entry(key: int, node: int)

  /** The pair `(shortest, previous)` that `shortestPath` returns. */
  datatype Routes = Routes(shortest: map<int, int>, previous: map<int, int>)

  /** Python's tuple order: by key, ties broken by the smaller router id. */
  predicate EntryLe(a: Entry, b: Entry) {
    a.key < b.key || (a.key == b.key && a.node <= b.node)
  }

  /** `e` is the entry `heappop` removes from `heap`. */
  predicate IsLeast(e: Entry, heap: multiset<Entry>) {
    e in heap && forall f | f in heap :: EntryLe(e, f)
  }

  /** Every nonempty heap has a least entry. */
  lemma {:induction false} LeastExists(heap: multiset<Entry>)
    requires |heap| > 0
    ensures exists e :: IsLeast(e, heap)
    decreases |heap|
  {
    var x :| x in heap;
    var rest := heap - multiset{x};
    assert heap == rest + multiset{x};
    if rest == multiset{} {
      assert heap == multiset{x};
      assert IsLeast(x, heap);
    } else {
      LeastExists(rest);
      var m :| IsLeast(m, rest);
      assert forall f | f in heap :: f == x || f in rest;
      if EntryLe(x, m) {
        assert IsLeast(x, heap);
      } else {
        assert IsLeast(m, heap);
      }
    }
  }

  /** Line 23, `heapq.heappop`: remove the least entry in tuple order. */
  method HeapPop(heap: multiset<Entry>) returns (top: Entry, rest: multiset<Entry>)
    requires |heap| > 0
    ensures IsLeast(top, heap) && rest == heap - multiset{top}
  {
    LeastExists(heap);
    top :| top in heap && IsLeast(top, heap);
    rest := heap - multiset{top};
  }

  /** The pop is deterministic: the least entry is unique. */
  lemma LeastUnique(a: Entry, b: Entry, heap: multiset<Entry>)
    requires IsLeast(a, heap) && IsLeast(b, heap)
    ensures a == b
  {
    assert EntryLe(a, b) && EntryLe(b, a);
  }

  /** The inputs on which `shortestPath` returns instead of raising KeyError:
      every link leaves a router in `0..n-1`, and every router reachable from
      `src` (`src` itself included) lies in `0..n-1`. */
  ghost predicate ValidInput(n: int, edges: seq<Edge>, src: int) {
    SourcesInRange(n, edges) && forall v | Reachable(edges, src, v) :: 0 <= v < n
  }

  /** The returned distance map: keys `0..n-1`, a reachable router holds the
      engine key of some walk to it, an unreachable one holds -1, and `src`
      holds 0. */
  ghost predicate Distances(n: int, edges: seq<Edge>, src: int, isLatency: bool, shortest: map<int, int>) {
    && (forall v :: v in shortest <==> 0 <= v < n)
    && (forall v | 0 <= v < n && !Reachable(edges, src, v) :: shortest[v] == -1)
    && (forall v | Reachable(edges, src, v) :: v in shortest && Achievable(edges, src, isLatency, v, shortest[v]))
    && src in shortest && shortest[src] == 0
  }

  /** `previous` is a tree rooted at `src` over the routers `rank` orders
      (the commit order): every other ranked router has a predecessor,
      committed strictly earlier and joined to it by an input link. */
  ghost predicate PredecessorTree(edges: seq<Edge>, src: int, previous: map<int, int>, rank: map<int, nat>) {
    && src in rank && src !in previous
    && (forall v | v in rank :: v == src || v in previous)
    && (forall v | v in previous ::
          v in rank && previous[v] in rank && rank[previous[v]] < rank[v] && HasEdge(edges, previous[v], v))
  }

  /** `big` keeps every key of `small` with the same value. */
  ghost predicate Extends(big: map<int, int>, small: map<int, int>) {
    forall v | v in small :: v in big && big[v] == small[v]
  }

  /** Every link out of a committed router leads to a committed router or
      still has its relaxed entry in the heap. */
  ghost predicate Frontier(edges: seq<Edge>, isLatency: bool, shortest: map<int, int>, heap: multiset<Entry>) {
    forall e | e in edges && e.src in shortest ::
      e.dst in shortest || Entry(Relax(isLatency, shortest[e.src], e.weight), e.dst) in heap
  }

  /** In latency mode, no walk to a committed router is lighter than its committed key. */
  ghost predicate LatencyOptimal(edges: seq<Edge>, src: int, shortest: map<int, int>) {
    forall v, walk | v in shortest && IsWalk(edges, src, v, walk) :: shortest[v] <= WalkKey(true, walk)
  }

  /** The Dijkstra step: in latency mode with non-negative weights, the entry
      popped for an uncommitted router is no heavier than any walk to it. */
  lemma CommitIsOptimal(edges: seq<Edge>, src: int, shortest: map<int, int>, heap: multiset<Entry>, top: Entry)
    requires NonNegative(edges)
    requires IsLeast(top, heap)
    requires top.node !in shortest
    requires src in shortest || heap == multiset{Entry(0, src)}
    requires Frontier(edges, true, shortest, heap)
    requires LatencyOptimal(edges, src, shortest)
    ensures forall walk | IsWalk(edges, src, top.node, walk) :: top.key <= WalkKey(true, walk)
  {
    forall walk: seq<Edge> | IsWalk(edges, src, top.node, walk)
      ensures top.key <= WalkKey(true, walk)
    {
      forall i | 0 <= i < |walk| ensures walk[i].weight >= 0 {
        assert walk[i] in edges;
      }
      if src !in shortest {
        assert top == Entry(0, src);
        LatencyKeyPrefixBound(walk, 0);
        assert walk[..0] == [];
      } else {
        assert walk != [];
        var j := 0;
        while walk[j].dst in shortest
          invariant 0 <= j < |walk|
          invariant forall i | 0 <= i < j :: walk[i].dst in shortest
          decreases |walk| - j
        {
          j := j + 1;
        }
        var u := if j == 0 then src else walk[j - 1].dst;
        assert u in shortest;
        WalkPrefix(edges, src, top.node, walk, j);
        assert shortest[u] <= WalkKey(true, walk[..j]);
        var e := walk[j];
        assert e in edges && e.src == u;
        assert Entry(Relax(true, shortest[u], e.weight), e.dst) in heap;
        assert walk[..j + 1][..j] == walk[..j];
        assert WalkKey(true, walk[..j + 1]) == WalkKey(true, walk[..j]) + e.weight;
        LatencyKeyPrefixBound(walk, j + 1);
      }
    }
  }


  /** Every committed router's key is at most every key still in the heap. */
  ghost predicate KeysBelowHeap(shortest: map<int, int>, heap: multiset<Entry>) {
    forall u, f | u in shortest && f in heap :: shortest[u] <= f.key
  }

  /** What holds of `previous` while the loop runs: `src` never gets an entry,
      every entry names a committed router joined to its key by an input link
      and committed before it, and every committed router other than `src`
      has an entry. */
  ghost predicate PredecessorInvariant(edges: seq<Edge>, src: int, shortest: map<int, int>, previous: map<int, int>, rank: map<int, nat>) {
    && src !in previous
    && (forall v | v in previous ::
          && previous[v] in shortest && previous[v] in rank && HasEdge(edges, previous[v], v)
          && (v in rank ==> rank[previous[v]] < rank[v]))
    && (forall v | v in shortest :: v == src || v in previous)
  }

  /** Every heap entry is the key of some walk to its router, and names
      `src` or a router that already has a predecessor. */
  ghost predicate HeapTracked(edges: seq<Edge>, src: int, isLatency: bool, previous: map<int, int>, heap: multiset<Entry>) {
    forall f | f in heap :: Achievable(edges, src, isLatency, f.node, f.key) && (f.node == src || f.node in previous)
  }

  /** Every committed key is the key of some walk to its router. */
  ghost predicate CommittedAchievable(edges: seq<Edge>, src: int, isLatency: bool, shortest: map<int, int>) {
    forall v | v in shortest :: Achievable(edges, src, isLatency, v, shortest[v])
  }

  /** `rank` numbers exactly the committed routers, all before `time`. */
  ghost predicate Ranked(shortest: map<int, int>, rank: map<int, nat>, time: nat) {
    rank.Keys == shortest.Keys && forall v | v in rank :: rank[v] < time
  }

  /** Every router with a predecessor is committed or still has an entry in the heap. */
  ghost predicate PointedTracked(shortest: map<int, int>, previous: map<int, int>, heap: multiset<Entry>) {
    forall v | v in previous :: v in shortest || exists f | f in heap :: f.node == v
  }

  /** `history` starts empty, ends at `shortest`, gains one key per step
      and never changes a key it holds. */
  ghost predicate Chain(history: seq<map<int, int>>, shortest: map<int, int>) {
    && |history| > 0 && history[0] == map[] && history[|history| - 1] == shortest
    && (forall i | 0 <= i < |history| :: |history[i]| == i)
    && (forall i, j | 0 <= i <= j < |history| :: Extends(history[j], history[i]))
  }

  /** `rank` is a commit order matching `history`: no two routers share a
      rank, and the router of rank `k` is the one step `k + 1` of `history`
      adds. */
  ghost predicate CommitOrder(rank: map<int, nat>, history: seq<map<int, int>>) {
    && (forall u, v | u in rank && v in rank && u != v :: rank[u] != rank[v])
    && (forall v | v in rank :: rank[v] + 1 < |history| && v !in history[rank[v]] && v in history[rank[v] + 1])
  }

  /** Routers are committed in order of non-decreasing key. */
  ghost predicate CommittedInKeyOrder(shortest: map<int, int>, rank: map<int, nat>) {
    && (forall v | v in rank :: v in shortest)
    && (forall u, v | u in rank && v in rank && rank[u] < rank[v] :: shortest[u] <= shortest[v])
  }

  /** The source is committed with key 0, or nothing has been popped yet. */
  ghost predicate Started(src: int, shortest: map<int, int>, previous: map<int, int>, heap: multiset<Entry>, pushes: nat) {
    || (shortest == map[] && heap == multiset{Entry(0, src)} && previous == map[] && pushes == 1)
    || (src in shortest && shortest[src] == 0)
  }

  /** The invariant of the loop on lines 22-36. `rank` gives each committed
      router its commit time, `pushes` counts heap pushes and `history` lists
      the successive committed maps. */
  ghost predicate Searching(n: int, edges: seq<Edge>, src: int, isLatency: bool,
                            shortest: map<int, int>, previous: map<int, int>, heap: multiset<Entry>,
                            rank: map<int, nat>, time: nat, pushes: nat, history: seq<map<int, int>>)
  {
    && (forall v | v in shortest :: 0 <= v < n)
    && Ranked(shortest, rank, time)
    && Started(src, shortest, previous, heap, pushes)
    && HeapTracked(edges, src, isLatency, previous, heap)
    && CommittedAchievable(edges, src, isLatency, shortest)
    && Frontier(edges, isLatency, shortest, heap)
    && PredecessorInvariant(edges, src, shortest, previous, rank)
    && PointedTracked(shortest, previous, heap)
    && (isLatency && NonNegative(edges) ==>
          LatencyOptimal(edges, src, shortest) && KeysBelowHeap(shortest, heap) && CommittedInKeyOrder(shortest, rank))
    && pushes + Pending(edges, shortest.Keys, n) <= |edges| + 1
    && Chain(history, shortest)
    && |history| == time + 1
  }

  /** The entries line 32 pushes while scanning `arcs` for a router popped
      with key `w1`: one per arc to a router not in `shortest`. */
  function PushedEntries(isLatency: bool, w1: int, arcs: seq<Arc>, shortest: map<int, int>): multiset<Entry>
    decreases |arcs|
  {
    if arcs == [] then multiset{}
    else
      var a := arcs[|arcs| - 1];
      PushedEntries(isLatency, w1, arcs[..|arcs| - 1], shortest)
        + (if a.dst !in shortest then multiset{Entry(Relax(isLatency, w1, a.weight), a.dst)} else multiset{})
  }

  /** `previous` after line 36 has run for every arc to a router not in
      `shortest`: each such router now names `n1`. */
  function Repoint(previous: map<int, int>, arcs: seq<Arc>, shortest: map<int, int>, n1: int): map<int, int>
    decreases |arcs|
  {
    if arcs == [] then previous
    else if arcs[|arcs| - 1].dst in shortest then Repoint(previous, arcs[..|arcs| - 1], shortest, n1)
    else Repoint(previous, arcs[..|arcs| - 1], shortest, n1)[arcs[|arcs| - 1].dst := n1]
  }

  lemma {:induction false} PushedEntriesMember(isLatency: bool, w1: int, arcs: seq<Arc>, shortest: map<int, int>, f: Entry)
    ensures f in PushedEntries(isLatency, w1, arcs, shortest) <==>
      exists k | 0 <= k < |arcs| :: arcs[k].dst !in shortest && f == Entry(Relax(isLatency, w1, arcs[k].weight), arcs[k].dst)
    decreases |arcs|
  {
    if arcs != [] {
      var front := arcs[..|arcs| - 1];
      PushedEntriesMember(isLatency, w1, front, shortest, f);
      if exists k | 0 <= k < |arcs| :: arcs[k].dst !in shortest && f == Entry(Relax(isLatency, w1, arcs[k].weight), arcs[k].dst) {
        var k :| 0 <= k < |arcs| && arcs[k].dst !in shortest && f == Entry(Relax(isLatency, w1, arcs[k].weight), arcs[k].dst);
        if k < |front| { assert front[k] == arcs[k]; }
      }
    }
  }

  lemma {:induction false} PushedEntriesSize(isLatency: bool, w1: int, arcs: seq<Arc>, shortest: map<int, int>)
    ensures |PushedEntries(isLatency, w1, arcs, shortest)| <= |arcs|
    decreases |arcs|
  {
    if arcs != [] {
      PushedEntriesSize(isLatency, w1, arcs[..|arcs| - 1], shortest);
    }
  }

  /** A router gets a (new) predecessor exactly when some arc leads to it
      and it is not committed; it then names `n1`, every other entry is kept. */
  lemma {:induction false} RepointMember(previous: map<int, int>, arcs: seq<Arc>, shortest: map<int, int>, n1: int, v: int)
    ensures var pushed := v !in shortest && exists k | 0 <= k < |arcs| :: arcs[k].dst == v;
            && (v in Repoint(previous, arcs, shortest, n1) <==> v in previous || pushed)
            && (v in Repoint(previous, arcs, shortest, n1) ==>
                  Repoint(previous, arcs, shortest, n1)[v] == if pushed then n1 else previous[v])
    decreases |arcs|
  {
    if arcs != [] {
      var front := arcs[..|arcs| - 1];
      RepointMember(previous, front, shortest, n1, v);
      if exists k | 0 <= k < |arcs| :: arcs[k].dst == v {
        var k :| 0 <= k < |arcs| && arcs[k].dst == v;
        if k < |front| { assert front[k] == arcs[k]; }
      }
      if exists k | 0 <= k < |front| :: front[k].dst == v {
        var k :| 0 <= k < |front| && front[k].dst == v;
        assert arcs[k] == front[k];
      }
    }
  }

  /** One more arc scanned: its entry joins the pushed ones when its target is uncommitted. */
  lemma PushedEntriesStep(isLatency: bool, w1: int, arcs: seq<Arc>, shortest: map<int, int>, j: nat)
    requires j < |arcs|
    ensures PushedEntries(isLatency, w1, arcs[..j + 1], shortest)
         == PushedEntries(isLatency, w1, arcs[..j], shortest)
            + if arcs[j].dst !in shortest then multiset{Entry(Relax(isLatency, w1, arcs[j].weight), arcs[j].dst)} else multiset{}
  {
    assert arcs[..j + 1][..j] == arcs[..j];
  }

  /** One more arc scanned: its target is repointed at `n1` when uncommitted. */
  lemma RepointStep(previous: map<int, int>, arcs: seq<Arc>, shortest: map<int, int>, n1: int, j: nat)
    requires j < |arcs|
    ensures Repoint(previous, arcs[..j + 1], shortest, n1)
         == if arcs[j].dst !in shortest then Repoint(previous, arcs[..j], shortest, n1)[arcs[j].dst := n1]
            else Repoint(previous, arcs[..j], shortest, n1)
  {
    assert arcs[..j + 1][..j] == arcs[..j];
  }

  /** An integer or Python's `float('inf')`. */
  datatype Bound = Finite(value: int) | Infinity

  /** `m.get(k, float('inf'))`. */
  function Lookup(m: map<int, int>, k: int): Bound {
    if k in m then Finite(m[k]) else Infinity
  }

  /** `x < b`, every integer being below infinity. */
  predicate Below(x: int, b: Bound) {
    b.Infinity? || x < b.value
  }

  /** The test on line 35 always holds where it is reached: line 30 has
      already found `n2` uncommitted, so `shortest.get(n2, inf)` is infinity. */
  lemma PredecessorTestHolds(shortest: map<int, int>, previous: map<int, int>, n2: int, newWeight: int)
    requires n2 !in shortest
    ensures n2 !in previous || Below(newWeight, Lookup(shortest, n2))
  {
  }

  /** Lines 30-36 for the arc `arcs[j]` of the popped router `n1`. */
  method RelaxArc(isLatency: bool, shortest: map<int, int>, n1: int, w1: int, arcs: seq<Arc>, j: nat,
                  ghost previous0: map<int, int>, ghost heap0: multiset<Entry>,
                  previous: map<int, int>, minHeap: multiset<Entry>)
    returns (previous': map<int, int>, minHeap': multiset<Entry>)
    requires j < |arcs|
    requires minHeap == heap0 + PushedEntries(isLatency, w1, arcs[..j], shortest)
    requires previous == Repoint(previous0, arcs[..j], shortest, n1)
    ensures minHeap' == heap0 + PushedEntries(isLatency, w1, arcs[..j + 1], shortest)
    ensures previous' == Repoint(previous0, arcs[..j + 1], shortest, n1)
  {
    PushedEntriesStep(isLatency, w1, arcs, shortest, j);
    RepointStep(previous0, arcs, shortest, n1, j);
    previous', minHeap' := previous, minHeap;
    var n2, w2 := arcs[j].dst, arcs[j].weight;
    if n2 !in shortest {
      var newWeight := Relax(isLatency, w1, w2);
      minHeap' := minHeap' + multiset{Entry(newWeight, n2)};
      // `shortest.get(n2, float('inf'))`
      if n2 !in previous' || Below(newWeight, Lookup(shortest, n2)) {
        previous' := previous'[n2 := n1];
      }
    }
  }

  /** Lines 29-36: scan the arcs of the popped router `n1` in order; for
      every arc `(n2, w2)` whose target is not committed, push
      `(new_weight, n2)` and, under the test on line 35 (always true there,
      since `n2` is not in `shortest`), set `previous[n2] = n1`. */
  method RelaxArcs(isLatency: bool, shortest: map<int, int>, n1: int, w1: int, arcs: seq<Arc>,
                   previous0: map<int, int>, heap0: multiset<Entry>)
    returns (previous: map<int, int>, minHeap: multiset<Entry>)
    ensures minHeap == heap0 + PushedEntries(isLatency, w1, arcs, shortest)
    ensures previous == Repoint(previous0, arcs, shortest, n1)
  {
    previous, minHeap := previous0, heap0;
    for j := 0 to |arcs|
      invariant minHeap == heap0 + PushedEntries(isLatency, w1, arcs[..j], shortest)
      invariant previous == Repoint(previous0, arcs[..j], shortest, n1)
    {
      previous, minHeap := RelaxArc(isLatency, shortest, n1, w1, arcs, j, previous0, heap0, previous, minHeap);
    }
    assert arcs[..|arcs|] == arcs;
  }

  /** The state before the first pop satisfies the loop invariant. */
  lemma SearchStarts(n: int, edges: seq<Edge>, src: int, isLatency: bool)
    requires SourcesInRange(n, edges)
    ensures Searching(n, edges, src, isLatency, map[], map[], multiset{Entry(0, src)}, map[], 0, 1, [map[]])
  {
    PendingAll(edges, n);
    var none: map<int, int> := map[];
    assert {} == none.Keys;
    assert IsWalk(edges, src, src, []);
    assert WalkKey(isLatency, []) == 0;
  }

  /** Lines 24-25: popping an entry for a committed router changes nothing else. */
  lemma StalePop(n: int, edges: seq<Edge>, src: int, isLatency: bool,
                 shortest: map<int, int>, previous: map<int, int>, heap: multiset<Entry>,
                 rank: map<int, nat>, time: nat, pushes: nat, history: seq<map<int, int>>, top: Entry)
    requires Searching(n, edges, src, isLatency, shortest, previous, heap, rank, time, pushes, history)
    requires top in heap && top.node in shortest
    ensures Searching(n, edges, src, isLatency, shortest, previous, heap - multiset{top}, rank, time, pushes, history)
  {
    var rest := heap - multiset{top};
    forall e | e in edges && e.src in shortest
      ensures e.dst in shortest || Entry(Relax(isLatency, shortest[e.src], e.weight), e.dst) in rest
    {
      var f := Entry(Relax(isLatency, shortest[e.src], e.weight), e.dst);
      if e.dst !in shortest {
        assert f in heap && f != top;
      }
    }
  }

  /** What the heap holds after the commit of `top` and the relaxation of its arcs. */
  lemma CommitHeap(edges: seq<Edge>, src: int, isLatency: bool,
                   shortest: map<int, int>, previous: map<int, int>, heap: multiset<Entry>, top: Entry)
    requires HeapTracked(edges, src, isLatency, previous, heap)
    requires top in heap && top.node !in shortest
    ensures var committed := shortest[top.node := top.key];
            var arcs := OutArcs(edges, top.node);
            var heap' := heap - multiset{top} + PushedEntries(isLatency, top.key, arcs, committed);
            HeapTracked(edges, src, isLatency, Repoint(previous, arcs, committed, top.node), heap')
  {
    var committed := shortest[top.node := top.key];
    var arcs := OutArcs(edges, top.node);
    var pushed := PushedEntries(isLatency, top.key, arcs, committed);
    var previous' := Repoint(previous, arcs, committed, top.node);
    forall f | f in heap - multiset{top} + pushed
      ensures Achievable(edges, src, isLatency, f.node, f.key) && (f.node == src || f.node in previous')
    {
      if f in pushed {
        PushedEntriesMember(isLatency, top.key, arcs, committed, f);
        var k :| 0 <= k < |arcs| && arcs[k].dst !in committed && f == Entry(Relax(isLatency, top.key, arcs[k].weight), arcs[k].dst);
        OutArcsMember(edges, top.node, arcs[k]);
        AchievableExtend(edges, src, isLatency, top.node, top.key, Edge(top.node, arcs[k].dst, arcs[k].weight));
        RepointMember(previous, arcs, committed, top.node, f.node);
      } else {
        assert f in heap;
        RepointMember(previous, arcs, committed, top.node, f.node);
      }
    }
  }

  /** Every link out of a committed router, `top.node` included, still has
      its target committed or its relaxed entry in the new heap. */
  lemma CommitFrontier(edges: seq<Edge>, isLatency: bool, shortest: map<int, int>, heap: multiset<Entry>, top: Entry)
    requires Frontier(edges, isLatency, shortest, heap)
    requires top in heap && top.node !in shortest
    ensures var committed := shortest[top.node := top.key];
            var arcs := OutArcs(edges, top.node);
            Frontier(edges, isLatency, committed, heap - multiset{top} + PushedEntries(isLatency, top.key, arcs, committed))
  {
    var committed := shortest[top.node := top.key];
    var arcs := OutArcs(edges, top.node);
    var pushed := PushedEntries(isLatency, top.key, arcs, committed);
    var rest := heap - multiset{top};
    forall e | e in edges && e.src in committed
      ensures e.dst in committed || Entry(Relax(isLatency, committed[e.src], e.weight), e.dst) in rest + pushed
    {
      var f := Entry(Relax(isLatency, committed[e.src], e.weight), e.dst);
      if e.dst !in committed {
        if e.src == top.node {
          OutArcsMember(edges, top.node, Arc(e.dst, e.weight));
          var k :| 0 <= k < |arcs| && arcs[k] == Arc(e.dst, e.weight);
          PushedEntriesMember(isLatency, top.key, arcs, committed, f);
        } else {
          assert f in heap && f != top;
        }
      }
    }
  }

  /** The predecessor entries stay a forest over the committed routers,
      with `top.node` ranked last. */
  lemma CommitPredecessors(edges: seq<Edge>, src: int, shortest: map<int, int>, previous: map<int, int>,
                           rank: map<int, nat>, time: nat, top: Entry)
    requires Ranked(shortest, rank, time) && PredecessorInvariant(edges, src, shortest, previous, rank)
    requires top.node !in shortest && (src in shortest || src == top.node)
    requires top.node == src || top.node in previous
    ensures var committed := shortest[top.node := top.key];
            var arcs := OutArcs(edges, top.node);
            PredecessorInvariant(edges, src, committed, Repoint(previous, arcs, committed, top.node), rank[top.node := time])
  {
    var n1 := top.node;
    var committed := shortest[n1 := top.key];
    var arcs := OutArcs(edges, n1);
    var previous' := Repoint(previous, arcs, committed, n1);
    var rank' := rank[n1 := time];
    assert src in committed;
    RepointMember(previous, arcs, committed, n1, src);
    forall v | v in previous'
      ensures && previous'[v] in committed && previous'[v] in rank' && HasEdge(edges, previous'[v], v)
              && (v in rank' ==> rank'[previous'[v]] < rank'[v])
    {
      RepointMember(previous, arcs, committed, n1, v);
      if v !in committed && exists k | 0 <= k < |arcs| :: arcs[k].dst == v {
        var k :| 0 <= k < |arcs| && arcs[k].dst == v;
        OutArcsMember(edges, n1, arcs[k]);
        assert Edge(n1, v, arcs[k].weight) in edges;
      } else {
        assert previous'[v] == previous[v] && previous[v] != n1;
      }
    }
    forall v | v in committed ensures v == src || v in previous' {
      RepointMember(previous, arcs, committed, n1, v);
    }
  }

  /** In latency mode with non-negative weights the new committed key is
      optimal and no committed key exceeds an entry of the new heap. */
  lemma CommitLatency(edges: seq<Edge>, src: int, isLatency: bool, shortest: map<int, int>, heap: multiset<Entry>, top: Entry)
    requires isLatency && NonNegative(edges)
    requires src in shortest || heap == multiset{Entry(0, src)}
    requires Frontier(edges, isLatency, shortest, heap)
    requires LatencyOptimal(edges, src, shortest) && KeysBelowHeap(shortest, heap)
    requires IsLeast(top, heap) && top.node !in shortest
    ensures var committed := shortest[top.node := top.key];
            var arcs := OutArcs(edges, top.node);
            && LatencyOptimal(edges, src, committed)
            && KeysBelowHeap(committed, heap - multiset{top} + PushedEntries(isLatency, top.key, arcs, committed))
  {
    var committed := shortest[top.node := top.key];
    var arcs := OutArcs(edges, top.node);
    var pushed := PushedEntries(isLatency, top.key, arcs, committed);
    CommitIsOptimal(edges, src, shortest, heap, top);
    forall u, f | u in committed && f in heap - multiset{top} + pushed
      ensures committed[u] <= f.key
    {
      if f in pushed {
        PushedEntriesMember(isLatency, top.key, arcs, committed, f);
        var k :| 0 <= k < |arcs| && arcs[k].dst !in committed && f == Entry(Relax(isLatency, top.key, arcs[k].weight), arcs[k].dst);
        OutArcsMember(edges, top.node, arcs[k]);
        assert Edge(top.node, arcs[k].dst, arcs[k].weight) in edges;
      } else {
        assert f in heap && EntryLe(top, f);
      }
      if u != top.node {
        assert top in heap;
      }
    }
  }

  /** The router committed last, from the least heap entry, holds a key
      no smaller than any committed before it. */
  lemma CommitKeyOrder(shortest: map<int, int>, heap: multiset<Entry>, rank: map<int, nat>, time: nat, top: Entry)
    requires Ranked(shortest, rank, time) && KeysBelowHeap(shortest, heap) && CommittedInKeyOrder(shortest, rank)
    requires top in heap && top.node !in shortest
    ensures CommittedInKeyOrder(shortest[top.node := top.key], rank[top.node := time])
  {
    var committed := shortest[top.node := top.key];
    var rank' := rank[top.node := time];
    forall u, v | u in rank' && v in rank' && rank'[u] < rank'[v] ensures committed[u] <= committed[v] {
      if v == top.node {
        assert u in shortest;
      }
    }
  }

  /** Committing `v` at step `time` gives it the next rank and adds the
      new committed map as the next step of `history`. */
  lemma CommitOrderGrows(shortest: map<int, int>, rank: map<int, nat>, time: nat, history: seq<map<int, int>>,
                         v: int, key: int)
    requires Ranked(shortest, rank, time) && |history| == time + 1 && CommitOrder(rank, history)
    requires history[|history| - 1] == shortest && v !in shortest
    ensures CommitOrder(rank[v := time], history + [shortest[v := key]])
  {
    var rank' := rank[v := time];
    var history' := history + [shortest[v := key]];
    forall u | u in rank' ensures rank'[u] + 1 < |history'| && u !in history'[rank'[u]] && u in history'[rank'[u] + 1] {
      if u != v {
        assert history'[rank[u]] == history[rank[u]] && history'[rank[u] + 1] == history[rank[u] + 1];
      }
    }
  }

  /** The pending-list budget: the arcs of `top.node` leave the pending
      total and at most that many entries are pushed. */
  lemma CommitBudget(n: int, edges: seq<Edge>, shortest: map<int, int>, pushes: nat, isLatency: bool, top: Entry)
    requires pushes + Pending(edges, shortest.Keys, n) <= |edges| + 1
    requires top.node !in shortest && 0 <= top.node < n
    ensures var committed := shortest[top.node := top.key];
            pushes + |PushedEntries(isLatency, top.key, OutArcs(edges, top.node), committed)| + Pending(edges, committed.Keys, n) <= |edges| + 1
  {
    var committed := shortest[top.node := top.key];
    assert committed.Keys == shortest.Keys + {top.node};
    PendingCommit(edges, shortest.Keys, n, top.node);
    PushedEntriesSize(isLatency, top.key, OutArcs(edges, top.node), committed);
  }

  /** Appending a map that extends the last one keeps the history a chain. */
  lemma HistoryGrows(history: seq<map<int, int>>, last: map<int, int>, next: map<int, int>)
    requires Chain(history, last) && Extends(next, last) && |next| == |last| + 1
    ensures Chain(history + [next], next)
  {
    var history' := history + [next];
    forall i, j | 0 <= i <= j < |history'| ensures Extends(history'[j], history'[i]) {
      if j == |history'| - 1 && i < j {
        assert Extends(history[|history| - 1], history[i]);
      }
    }
  }

  /** The bookkeeping parts of the invariant after the commit of `top`:
      the source is committed with key 0, the new key is achievable, and
      `top.node` gets the next rank. */
  lemma CommitBasics(n: int, edges: seq<Edge>, src: int, isLatency: bool,
                     shortest: map<int, int>, previous: map<int, int>, heap: multiset<Entry>,
                     rank: map<int, nat>, time: nat, pushes: nat, top: Entry)
    requires (forall v | v in shortest :: 0 <= v < n) && Ranked(shortest, rank, time)
    requires Started(src, shortest, previous, heap, pushes) && HeapTracked(edges, src, isLatency, previous, heap)
    requires CommittedAchievable(edges, src, isLatency, shortest)
    requires top in heap && top.node !in shortest && 0 <= top.node < n
    ensures var committed := shortest[top.node := top.key];
            && (forall v | v in committed :: 0 <= v < n)
            && Ranked(committed, rank[top.node := time], time + 1)
            && src in committed && committed[src] == 0
            && CommittedAchievable(edges, src, isLatency, committed)
            && (src in shortest || src == top.node) && (top.node == src || top.node in previous)
  {
    var committed := shortest[top.node := top.key];
    if src !in shortest {
      assert top == Entry(0, src);
    }
    assert Achievable(edges, src, isLatency, top.node, top.key);
    assert committed.Keys == rank[top.node := time].Keys;
  }

  /** A router repointed by the scan has just been pushed; any other
      pointed router keeps its entry unless it is `top.node`, now committed. */
  lemma CommitPointed(edges: seq<Edge>, isLatency: bool,
                      shortest: map<int, int>, previous: map<int, int>, heap: multiset<Entry>, top: Entry)
    requires PointedTracked(shortest, previous, heap)
    requires top in heap && top.node !in shortest
    ensures var committed := shortest[top.node := top.key];
            var arcs := OutArcs(edges, top.node);
            PointedTracked(committed, Repoint(previous, arcs, committed, top.node),
                           heap - multiset{top} + PushedEntries(isLatency, top.key, arcs, committed))
  {
    var committed := shortest[top.node := top.key];
    var arcs := OutArcs(edges, top.node);
    var pushed := PushedEntries(isLatency, top.key, arcs, committed);
    var previous' := Repoint(previous, arcs, committed, top.node);
    forall v | v in previous' && v !in committed
      ensures exists f | f in heap - multiset{top} + pushed :: f.node == v
    {
      RepointMember(previous, arcs, committed, top.node, v);
      if exists k | 0 <= k < |arcs| :: arcs[k].dst == v {
        var k :| 0 <= k < |arcs| && arcs[k].dst == v;
        var f := Entry(Relax(isLatency, top.key, arcs[k].weight), v);
        PushedEntriesMember(isLatency, top.key, arcs, committed, f);
        assert f in pushed;
      } else {
        var f :| f in heap && f.node == v;
        assert f != top && f in heap - multiset{top};
      }
    }
  }

  /** Lines 27-36 keep the loop invariant: commit the popped router with
      its key and relax its arcs. */
  lemma CommitPop(n: int, edges: seq<Edge>, src: int, isLatency: bool,
                  shortest: map<int, int>, previous: map<int, int>, heap: multiset<Entry>,
                  rank: map<int, nat>, time: nat, pushes: nat, history: seq<map<int, int>>, top: Entry)
    requires Searching(n, edges, src, isLatency, shortest, previous, heap, rank, time, pushes, history)
    requires IsLeast(top, heap) && top.node !in shortest && 0 <= top.node < n
    ensures var committed := shortest[top.node := top.key];
            var arcs := OutArcs(edges, top.node);
            var pushed := PushedEntries(isLatency, top.key, arcs, committed);
            Searching(n, edges, src, isLatency, committed, Repoint(previous, arcs, committed, top.node),
                      heap - multiset{top} + pushed, rank[top.node := time], time + 1, pushes + |pushed|,
                      history + [committed])
  {
    var committed := shortest[top.node := top.key];
    CommitBasics(n, edges, src, isLatency, shortest, previous, heap, rank, time, pushes, top);
    CommitHeap(edges, src, isLatency, shortest, previous, heap, top);
    CommitFrontier(edges, isLatency, shortest, heap, top);
    CommitPredecessors(edges, src, shortest, previous, rank, time, top);
    if isLatency && NonNegative(edges) {
      CommitLatency(edges, src, isLatency, shortest, heap, top);
      CommitKeyOrder(shortest, heap, rank, time, top);
    }
    CommitBudget(n, edges, shortest, pushes, isLatency, top);
    CommitPointed(edges, isLatency, shortest, previous, heap, top);
    HistoryGrows(history, shortest, committed);
  }

  /** When the heap runs empty (line 22), the committed routers are exactly
      those reachable from `src`, all inside `0..n-1`; every committed router
      other than `src` has a predecessor, and nothing else has one. */
  lemma SearchDone(n: int, edges: seq<Edge>, src: int, isLatency: bool,
                   shortest: map<int, int>, previous: map<int, int>,
                   rank: map<int, nat>, time: nat, pushes: nat, history: seq<map<int, int>>)
    requires Searching(n, edges, src, isLatency, shortest, previous, multiset{}, rank, time, pushes, history)
    ensures forall v :: v in shortest <==> Reachable(edges, src, v)
    ensures forall v | Reachable(edges, src, v) :: 0 <= v < n
    ensures forall v :: v in previous <==> v in shortest && v != src
    ensures PredecessorTree(edges, src, previous, rank)
  {
    assert src in shortest;
    forall v | Reachable(edges, src, v) ensures v in shortest {
      ClosedSetHoldsReachable(edges, src, shortest.Keys, v);
    }
    forall v | v in shortest ensures Reachable(edges, src, v) {
      AchievableIsReachable(edges, src, isLatency, v, shortest[v]);
    }
  }

  /** Every router some walk from `src` reaches holds a key no heavier than that walk. */
  ghost predicate LeastWeights(edges: seq<Edge>, src: int, shortest: map<int, int>) {
    forall v, walk | IsWalk(edges, src, v, walk) :: v in shortest && shortest[v] <= WalkKey(true, walk)
  }

  /** `rank` orders exactly the reachable routers, and exactly the reachable
      routers other than `src` have a predecessor. */
  ghost predicate SpansReachable(edges: seq<Edge>, src: int, rank: map<int, nat>, previous: map<int, int>) {
    && (forall v :: v in rank <==> Reachable(edges, src, v))
    && (forall v :: v in previous <==> Reachable(edges, src, v) && v != src)
  }

  /** `history` lists the committed maps, one new router per step, ending at
      the reachable routers with the keys `shortest` holds. */
  ghost predicate CommitHistory(edges: seq<Edge>, src: int, history: seq<map<int, int>>, shortest: map<int, int>) {
    && |history| > 0 && Chain(history, history[|history| - 1])
    && (forall v :: v in history[|history| - 1] <==> Reachable(edges, src, v))
    && Extends(shortest, history[|history| - 1])
  }

  /** Line 29 raises KeyError for a popped router with no list in `adj`:
      it lies outside `0..n-1` and is reachable, so the input is not valid. */
  lemma PopKeyError(n: int, edges: seq<Edge>, src: int, isLatency: bool, adj: map<int, seq<Arc>>, v: int, k: int)
    requires adj == Adjacency(n, edges)
    requires v !in adj && Achievable(edges, src, isLatency, v, k)
    ensures !(0 <= v < n) && Reachable(edges, src, v) && !ValidInput(n, edges, src)
  {
    AchievableIsReachable(edges, src, isLatency, v, k);
  }

  /** What `shortestPath` returns once the heap is empty and the unreached
      routers hold -1. */
  lemma SearchResult(n: int, edges: seq<Edge>, src: int, isLatency: bool,
                     committed: map<int, int>, previous: map<int, int>,
                     rank: map<int, nat>, time: nat, pushes: nat, history: seq<map<int, int>>,
                     shortest: map<int, int>)
    requires SourcesInRange(n, edges)
    requires Searching(n, edges, src, isLatency, committed, previous, multiset{}, rank, time, pushes, history)
    requires CommitOrder(rank, history)
    requires forall v :: v in shortest <==> v in committed || 0 <= v < n
    requires forall v | v in committed :: shortest[v] == committed[v]
    requires forall v | 0 <= v < n && v !in committed :: shortest[v] == -1
    ensures ValidInput(n, edges, src)
    ensures Distances(n, edges, src, isLatency, shortest)
    ensures isLatency && NonNegative(edges) ==> LeastWeights(edges, src, shortest)
    ensures PredecessorTree(edges, src, previous, rank)
    ensures SpansReachable(edges, src, rank, previous)
    ensures CommitHistory(edges, src, history, shortest)
    ensures CommitOrder(rank, history)
    ensures isLatency && NonNegative(edges) ==> CommittedInKeyOrder(shortest, rank)
  {
    SearchDone(n, edges, src, isLatency, committed, previous, rank, time, pushes, history);
    if isLatency && NonNegative(edges) {
      forall v, walk | IsWalk(edges, src, v, walk) ensures v in shortest && shortest[v] <= WalkKey(true, walk) {
        assert Reachable(edges, src, v);
      }
      assert CommittedInKeyOrder(committed, rank);
    }
  }

  /** Lines 38-40: every router id in `0..n-1` that was never committed gets
      the sentinel -1; committed keys are kept. */
  method FillUnreached(n: int, committed: map<int, int>) returns (shortest: map<int, int>)
    ensures forall v :: v in shortest <==> v in committed || 0 <= v < n
    ensures forall v | v in committed :: shortest[v] == committed[v]
    ensures forall v | 0 <= v < n && v !in committed :: shortest[v] == -1
  {
    shortest := committed;
    var i := 0;
    while i < n
      invariant 0 <= i && (i <= n || i == 0)
      invariant forall v :: v in shortest <==> v in committed || 0 <= v < i
      invariant forall v | v in committed :: shortest[v] == committed[v]
      invariant forall v | 0 <= v < i && v !in committed :: shortest[v] == -1
    {
      if i !in shortest {
        shortest := shortest[i := -1];
      }
      i := i + 1;
    }
  }

  /** Lines 17-36: the search loop over the adjacency map `adj`. It ends
      with the heap empty and the loop invariant holding, or with the
      KeyError of line 29 for a popped router outside `0..n-1`, which is
      then reachable from `src`. */
  method Search(n: int, edges: seq<Edge>, src: int, isLatency: bool, adj: map<int, seq<Arc>>)
    returns (r: Result<Routes, int>, ghost rank: map<int, nat>, ghost time: nat, ghost pushes: nat,
             ghost history: seq<map<int, int>>)
    requires SourcesInRange(n, edges) && adj == Adjacency(n, edges)
    ensures r.Failure? ==> !(0 <= r.error < n) && Reachable(edges, src, r.error) && !ValidInput(n, edges, src)
    ensures r.Success? ==>
      Searching(n, edges, src, isLatency, r.value.shortest, r.value.previous, multiset{}, rank, time, pushes, history)
    ensures r.Success? ==> CommitOrder(rank, history)
  {
    var shortest: map<int, int> := map[];
    var previous: map<int, int> := map[];
    var minHeap := multiset{Entry(0, src)};
    rank, time, pushes, history := map[], 0, 1, [map[]];
    SearchStarts(n, edges, src, isLatency);
    while minHeap != multiset{}
      invariant adj == Adjacency(n, edges)
      invariant Searching(n, edges, src, isLatency, shortest, previous, minHeap, rank, time, pushes, history)
      invariant CommitOrder(rank, history)
      decreases |edges| + 1 - pushes + |minHeap|
    {
      PendingNonNegative(edges, shortest.Keys, n);
      var top, rest := HeapPop(minHeap);
      var w1, n1 := top.key, top.node;
      if n1 in shortest {
        StalePop(n, edges, src, isLatency, shortest, previous, minHeap, rank, time, pushes, history, top);
        minHeap := rest;
        continue;
      }
      if n1 !in adj {
        PopKeyError(n, edges, src, isLatency, adj, n1, w1);
        return Failure(n1), rank, time, pushes, history;
      }
      CommitPop(n, edges, src, isLatency, shortest, previous, minHeap, rank, time, pushes, history, top);
      CommitOrderGrows(shortest, rank, time, history, n1, w1);
      shortest := shortest[n1 := w1];
      ghost var pushed := PushedEntries(isLatency, w1, adj[n1], shortest);
      previous, minHeap := RelaxArcs(isLatency, shortest, n1, w1, adj[n1], previous, rest);
      rank, time, pushes, history := rank[n1 := time], time + 1, pushes + |pushed|, history + [shortest];
      PendingNonNegative(edges, shortest.Keys, n);
    }
    r := Success(Routes(shortest, previous));
  }

  /** `shortestPath` (lines 7-42). On success the distance map covers
      `0..n-1`, holds 0 for `src`, a walk key for every reachable router and
      -1 for the rest; in latency mode with non-negative weights every
      reachable router holds its least walk weight. `rank` is the order in
      which the reachable routers were committed and `history` the
      committed map after each commit: each step commits the one router of
      the next rank and never changes an earlier key, and in latency mode
      with non-negative weights keys never decrease in commit order.
      `previous` is a tree rooted at `src` over the reachable routers in
      which every predecessor was committed earlier. A KeyError is a
      `Failure` carrying the missing key: the first link source outside
      `0..n-1` (line 14), or else a router reached from `src` outside
      `0..n-1` (line 29). */
  method ShortestPath(n: int, edges: seq<Edge>, src: int, isLatency: bool)
    returns (r: Result<Routes, int>, ghost rank: map<int, nat>, ghost history: seq<map<int, int>>)
    ensures r.Success? <==> ValidInput(n, edges, src)
    ensures r.Failure? ==> !(0 <= r.error < n)
    ensures r.Failure? && !SourcesInRange(n, edges) ==>
      exists j | 0 <= j < |edges| :: edges[j].src == r.error && SourcesInRange(n, edges[..j])
    ensures r.Failure? && SourcesInRange(n, edges) ==> Reachable(edges, src, r.error)
    ensures r.Success? ==> Distances(n, edges, src, isLatency, r.value.shortest)
    ensures r.Success? && isLatency && NonNegative(edges) ==> LeastWeights(edges, src, r.value.shortest)
    ensures r.Success? ==> PredecessorTree(edges, src, r.value.previous, rank)
    ensures r.Success? ==> SpansReachable(edges, src, rank, r.value.previous)
    ensures r.Success? ==> CommitHistory(edges, src, history, r.value.shortest)
    ensures r.Success? ==> CommitOrder(rank, history)
    ensures r.Success? && isLatency && NonNegative(edges) ==> CommittedInKeyOrder(r.value.shortest, rank)
  {
    rank, history := map[], [map[]];
    var built := BuildAdjacency(n, edges);
    if built.Failure? {
      return Failure(built.error), rank, history;
    }
    var adj := built.value;
    var search;
    ghost var time, pushes;
    search, rank, time, pushes, history := Search(n, edges, src, isLatency, adj);
    if search.Failure? {
      return Failure(search.error), rank, history;
    }
    var filled := FillUnreached(n, search.value.shortest);
    SearchResult(n, edges, src, isLatency, search.value.shortest, search.value.previous, rank, time, pushes, history, filled);
    r := Success(Routes(filled, search.value.previous));
  }
}
