/** The graph builder at the start of `shortestPath`: one adjacency list per
    router id `0..n-1`, filled from the input links in order. */
module GraphBuilder {
  import opened Graph

  /** The list `adj[i]` holds once every link has been appended: one entry
      `[d, weight]` per link leaving `i`, in input order. */
  function OutArcs(edges: seq<Edge>, i: int): seq<Arc>
    decreases |edges|
  {
    if edges == [] then []
    else
      var e := edges[|edges| - 1];
      OutArcs(edges[..|edges| - 1], i) + (if e.src == i then [Arc(e.dst, e.weight)] else [])
  }

  /** The adjacency map: exactly the keys `0..n-1`. */
  function Adjacency(n: int, edges: seq<Edge>): map<int, seq<Arc>> {
    map i | 0 <= i < n :: OutArcs(edges, i)
  }

  predicate SourcesInRange(n: int, edges: seq<Edge>) {
    forall e | e in edges :: 0 <= e.src < n
  }

  /** An entry appears under `i` exactly when a link from `i` carries it. */
  lemma {:induction false} OutArcsMember(edges: seq<Edge>, i: int, a: Arc)
    ensures a in OutArcs(edges, i) <==> Edge(i, a.dst, a.weight) in edges
    decreases |edges|
  {
    if edges != [] {
      var front := edges[..|edges| - 1];
      OutArcsMember(front, i, a);
      assert edges == front + [edges[|edges| - 1]];
    }
  }

  /** Building over a concatenation appends the two lists: entries keep the
      input order, and parallel links and self-loops each keep their own entry. */
  lemma {:induction false} OutArcsAppend(a: seq<Edge>, b: seq<Edge>, i: int)
    ensures OutArcs(a + b, i) == OutArcs(a, i) + OutArcs(b, i)
    decreases |b|
  {
    if b == [] {
      assert a + b == a;
    } else {
      var front := b[..|b| - 1];
      assert (a + b)[..|a + b| - 1] == a + front;
      assert (a + b)[|a + b| - 1] == b[|b| - 1];
      OutArcsAppend(a, front, i);
    }
  }

  /** Total length of the lists of the routers `0..k-1` not in `done`. */
  ghost function Pending(edges: seq<Edge>, done: set<int>, k: int): int
    decreases if k <= 0 then 0 else k
  {
    if k <= 0 then 0
    else Pending(edges, done, k - 1) + (if k - 1 in done then 0 else |OutArcs(edges, k - 1)|)
  }

  lemma {:induction false} PendingAppend(edges: seq<Edge>, e: Edge, k: int)
    ensures Pending(edges + [e], {}, k) == Pending(edges, {}, k) + (if 0 <= e.src < k then 1 else 0)
    decreases if k <= 0 then 0 else k
  {
    if k > 0 {
      PendingAppend(edges, e, k - 1);
      assert (edges + [e])[..|edges|] == edges;
    }
  }

  /** When every link leaves a router in `0..n-1`, the lists hold one entry
      per link: no link is dropped or duplicated. */
  lemma {:induction false} PendingAll(edges: seq<Edge>, n: int)
    requires SourcesInRange(n, edges)
    ensures Pending(edges, {}, n) == |edges|
    decreases |edges|
  {
    if edges == [] {
      PendingNonNegative(edges, {}, n);
      PendingNone(n);
    } else {
      var front := edges[..|edges| - 1];
      var e := edges[|edges| - 1];
      assert front + [e] == edges;
      assert e in edges;
      PendingAll(front, n);
      PendingAppend(front, e, n);
    }
  }

  lemma {:induction false} PendingNone(k: int)
    ensures Pending([], {}, k) == 0
    decreases if k <= 0 then 0 else k
  {
    if k > 0 { PendingNone(k - 1); }
  }

  lemma {:induction false} PendingNonNegative(edges: seq<Edge>, done: set<int>, k: int)
    ensures Pending(edges, done, k) >= 0
    decreases if k <= 0 then 0 else k
  {
    if k > 0 { PendingNonNegative(edges, done, k - 1); }
  }

  /** Marking router `v` done removes exactly its list from the pending total. */
  lemma {:induction false} PendingCommit(edges: seq<Edge>, done: set<int>, k: int, v: int)
    requires 0 <= v < k
    requires v !in done
    ensures Pending(edges, done + {v}, k) == Pending(edges, done, k) - |OutArcs(edges, v)|
    decreases k
  {
    if v < k - 1 {
      PendingCommit(edges, done, k - 1, v);
    } else {
      PendingSame(edges, done, k - 1, v);
    }
  }

  lemma {:induction false} PendingSame(edges: seq<Edge>, done: set<int>, k: int, v: int)
    requires k <= v
    ensures Pending(edges, done + {v}, k) == Pending(edges, done, k)
    decreases if k <= 0 then 0 else k
  {
    if k > 0 { PendingSame(edges, done, k - 1, v); }
  }

  /** Lines 8-14: `adj[i] = []` for every `i` in `range(n)`, then each link is
      appended to its source's list; a source outside `0..n-1` raises a
      KeyError for that key. */
  method BuildAdjacency(n: int, edges: seq<Edge>) returns (r: Result<map<int, seq<Arc>>, int>)
    ensures r.Success? <==> SourcesInRange(n, edges)
    ensures r.Success? ==> r.value == Adjacency(n, edges)
    ensures r.Failure? ==>
      !(0 <= r.error < n) &&
      exists j | 0 <= j < |edges| :: edges[j].src == r.error && SourcesInRange(n, edges[..j])
  {
    var adj: map<int, seq<Arc>> := map[];
    var i := 0;
    while i < n
      invariant 0 <= i && (i <= n || i == 0)
      invariant forall v :: v in adj <==> 0 <= v < i
      invariant forall v | v in adj :: adj[v] == []
    {
      adj := adj[i := []];
      i := i + 1;
    }
    assert adj == Adjacency(n, edges[..0]);
    var k := 0;
    while k < |edges|
      invariant 0 <= k <= |edges|
      invariant SourcesInRange(n, edges[..k])
      invariant adj == Adjacency(n, edges[..k])
    {
      var e := edges[k];
      if e.src !in adj {
        assert e in edges;
        return Failure(e.src);
      }
      assert edges[..k + 1][..k] == edges[..k];
      ghost var next := Adjacency(n, edges[..k + 1]);
      adj := adj[e.src := adj[e.src] + [Arc(e.dst, e.weight)]];
      forall v | 0 <= v < n ensures adj[v] == next[v] {
        assert OutArcs(edges[..k + 1], v) == OutArcs(edges[..k], v) + (if e.src == v then [Arc(e.dst, e.weight)] else []);
      }
      k := k + 1;
    }
    assert edges[..k] == edges;
    return Success(adj);
  }
}
