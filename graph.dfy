/** Shared vocabulary of the routing core: links, adjacency entries, walks and
    the key the engine assigns to a walk in each objective mode. */
module Graph {

  /** An input link `[s, d, weight]` from router `src` to router `dst`. */
  datatype Edge = Edge(src: int, dst: int, weight: int)

  /** An adjacency entry `[d, weight]` stored under its source router. */
  datatype Arc = Arc(dst: int, weight: int)

  /** Outcome of an operation that may raise; the error carries the missing key. */
  datatype Result<T, E> = Success(value: T) | Failure(error: E)

  /** The key pushed for a neighbour reached over a link of weight `w` from a
      router popped with key `k`: the sum in latency mode, the negated sum in
      bandwidth mode (so signs alternate along a path in bandwidth mode). */
  function Relax(isLatency: bool, k: int, w: int): int {
    if isLatency then k + w else -(k + w)
  }

  /** The key the engine computes for a walk from the source: `Relax` folded
      over the walk's links, starting from the source's key 0. */
  function WalkKey(isLatency: bool, walk: seq<Edge>): int
    decreases |walk|
  {
    if walk == [] then 0
    else Relax(isLatency, WalkKey(isLatency, walk[..|walk| - 1]), walk[|walk| - 1].weight)
  }

  /** Sum of the weights along a walk, read front to back. */
  function TotalWeight(walk: seq<Edge>): int
    decreases |walk|
  {
    if walk == [] then 0 else walk[0].weight + TotalWeight(walk[1..])
  }

  /** `walk` is a chain of input links leading from `src` to `v`
      (the empty walk leads from `src` to itself). */
  ghost predicate IsWalk(edges: seq<Edge>, src: int, v: int, walk: seq<Edge>) {
    && (forall i | 0 <= i < |walk| :: walk[i] in edges)
    && (forall i | 0 <= i < |walk| - 1 :: walk[i].dst == walk[i + 1].src)
    && (if walk == [] then v == src else walk[0].src == src && walk[|walk| - 1].dst == v)
  }

  ghost predicate Reachable(edges: seq<Edge>, src: int, v: int) {
    exists walk :: IsWalk(edges, src, v, walk)
  }

  /** Some walk from `src` to `v` has engine key `k`. */
  ghost predicate Achievable(edges: seq<Edge>, src: int, isLatency: bool, v: int, k: int) {
    exists walk :: IsWalk(edges, src, v, walk) && WalkKey(isLatency, walk) == k
  }

  /** Some input link goes from `u` to `v`. */
  ghost predicate HasEdge(edges: seq<Edge>, u: int, v: int) {
    exists e :: e in edges && e.src == u && e.dst == v
  }

  predicate NonNegative(edges: seq<Edge>) {
    forall e | e in edges :: e.weight >= 0
  }

  lemma WalkExtend(edges: seq<Edge>, src: int, v: int, walk: seq<Edge>, e: Edge, isLatency: bool)
    requires IsWalk(edges, src, v, walk)
    requires e in edges && e.src == v
    ensures IsWalk(edges, src, e.dst, walk + [e])
    ensures WalkKey(isLatency, walk + [e]) == Relax(isLatency, WalkKey(isLatency, walk), e.weight)
  {
    var w := walk + [e];
    assert w[..|w| - 1] == walk;
    forall i | 0 <= i < |w| - 1 ensures w[i].dst == w[i + 1].src {
      if i < |walk| - 1 {
        assert w[i] == walk[i] && w[i + 1] == walk[i + 1];
      }
    }
  }

  /** A link out of a router that some walk reaches with key `k` yields a walk
      whose key is the relaxed value the engine pushes. */
  lemma AchievableExtend(edges: seq<Edge>, src: int, isLatency: bool, v: int, k: int, e: Edge)
    requires Achievable(edges, src, isLatency, v, k)
    requires e in edges && e.src == v
    ensures Achievable(edges, src, isLatency, e.dst, Relax(isLatency, k, e.weight))
  {
    var walk :| IsWalk(edges, src, v, walk) && WalkKey(isLatency, walk) == k;
    WalkExtend(edges, src, v, walk, e, isLatency);
  }

  lemma AchievableIsReachable(edges: seq<Edge>, src: int, isLatency: bool, v: int, k: int)
    requires Achievable(edges, src, isLatency, v, k)
    ensures Reachable(edges, src, v)
  {
    var walk :| IsWalk(edges, src, v, walk) && WalkKey(isLatency, walk) == k;
  }

  /** Every nonempty prefix of a walk is a walk to the destination of its last link. */
  lemma WalkPrefix(edges: seq<Edge>, src: int, v: int, walk: seq<Edge>, j: nat)
    requires IsWalk(edges, src, v, walk)
    requires j <= |walk|
    ensures IsWalk(edges, src, if j == 0 then src else walk[j - 1].dst, walk[..j])
  {
    var p := walk[..j];
    forall i | 0 <= i < |p| - 1 ensures p[i].dst == p[i + 1].src {
      assert p[i] == walk[i] && p[i + 1] == walk[i + 1];
    }
  }

  /** A set of routers holding `src` and closed under the input links holds
      every router reachable from `src`. */
  lemma {:induction false} ClosedSetHoldsReachable(edges: seq<Edge>, src: int, s: set<int>, v: int)
    requires src in s
    requires forall e | e in edges && e.src in s :: e.dst in s
    requires Reachable(edges, src, v)
    ensures v in s
  {
    var walk: seq<Edge> :| IsWalk(edges, src, v, walk);
    var j := 0;
    while j < |walk|
      invariant 0 <= j <= |walk|
      invariant (if j == 0 then src else walk[j - 1].dst) in s
    {
      assert walk[j] in edges;
      assert walk[j].src == (if j == 0 then src else walk[j - 1].dst);
      j := j + 1;
    }
  }

  lemma {:induction false} TotalWeightAppend(walk: seq<Edge>, e: Edge)
    ensures TotalWeight(walk + [e]) == TotalWeight(walk) + e.weight
    decreases |walk|
  {
    if walk != [] {
      assert (walk + [e])[1..] == walk[1..] + [e];
      TotalWeightAppend(walk[1..], e);
    }
  }

  /** In latency mode the engine key of a walk is its total weight. */
  lemma {:induction false} LatencyKeyIsTotalWeight(walk: seq<Edge>)
    ensures WalkKey(true, walk) == TotalWeight(walk)
    decreases |walk|
  {
    if walk != [] {
      var front := walk[..|walk| - 1];
      LatencyKeyIsTotalWeight(front);
      TotalWeightAppend(front, walk[|walk| - 1]);
      assert front + [walk[|walk| - 1]] == walk;
    }
  }

  /** In bandwidth mode two further links add the first weight and subtract
      the second: the key is not a negated path sum. */
  lemma BandwidthKeyAlternates(walk: seq<Edge>, a: Edge, b: Edge)
    ensures WalkKey(false, walk + [a, b]) == WalkKey(false, walk) + a.weight - b.weight
  {
    var w := walk + [a, b];
    assert w[..|w| - 1] == walk + [a];
    assert (walk + [a])[..|walk|] == walk;
  }

  /** In latency mode, with non-negative weights, extending a walk never lowers its key. */
  lemma {:induction false} LatencyKeyPrefixBound(walk: seq<Edge>, j: nat)
    requires forall i | 0 <= i < |walk| :: walk[i].weight >= 0
    requires j <= |walk|
    ensures WalkKey(true, walk[..j]) <= WalkKey(true, walk)
    decreases |walk|
  {
    if j < |walk| {
      var front := walk[..|walk| - 1];
      assert front[..j] == walk[..j];
      LatencyKeyPrefixBound(front, j);
    } else {
      assert walk[..j] == walk;
    }
  }
}
