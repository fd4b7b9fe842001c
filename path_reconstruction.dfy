/** The path highlighting inside `visualize_graph`: from each reached
    destination, follow `previous` back to the source and collect the
    `(prev, current)` links it passes. */
module PathReconstruction {
  import opened Graph
  import opened Dijkstra

  /** `rank` strictly decreases from every router to its predecessor, so
      following `previous` stops. */
  ghost predicate RankedDown(previous: map<int, int>, rank: map<int, nat>) {
    forall v | v in previous :: v in rank && previous[v] in rank && rank[previous[v]] < rank[v]
  }

  /** The pairs `(previous[current], current)` met walking back from `v`
      while `current` has a predecessor, nearest pair first. */
  ghost function BackPath(previous: map<int, int>, rank: map<int, nat>, v: int): seq<(int, int)>
    requires RankedDown(previous, rank)
    decreases if v in rank then rank[v] else 0
  {
    if v in previous then [(previous[v], v)] + BackPath(previous, rank, previous[v]) else []
  }

  /** Lines 71-75: the back-walk from `dest`. */
  method BackWalk(previous: map<int, int>, dest: int, ghost rank: map<int, nat>) returns (path: seq<(int, int)>)
    requires RankedDown(previous, rank)
    ensures path == BackPath(previous, rank, dest)
  {
    path := [];
    var current := dest;
    while current in previous
      invariant BackPath(previous, rank, dest) == path + BackPath(previous, rank, current)
      decreases if current in rank then rank[current] else 0
    {
      var prev := previous[current];
      path := path + [(prev, current)];
      current := prev;
    }
  }

  /** Following the predecessor tree from a ranked router reaches `src`:
      the walk is empty exactly for `src`, starts at `dest`, ends at `src`,
      each pair continues from where the previous one arrived, and each pair
      is a predecessor entry joined by an input link. */
  lemma {:induction false} BackPathReachesSource(edges: seq<Edge>, src: int, previous: map<int, int>,
                                                 rank: map<int, nat>, dest: int)
    requires PredecessorTree(edges, src, previous, rank)
    requires dest in rank
    ensures var path := BackPath(previous, rank, dest);
            && (path == [] <==> dest == src)
            && (path != [] ==> path[0].1 == dest && path[|path| - 1].0 == src)
            && (forall i | 0 <= i < |path| - 1 :: path[i].0 == path[i + 1].1)
            && (forall i | 0 <= i < |path| ::
                  path[i].1 in previous && previous[path[i].1] == path[i].0 && HasEdge(edges, path[i].0, path[i].1))
    decreases rank[dest]
  {
    if dest in previous {
      var u := previous[dest];
      BackPathReachesSource(edges, src, previous, rank, u);
      var rest := BackPath(previous, rank, u);
      var path := [(u, dest)] + rest;
      assert BackPath(previous, rank, dest) == path;
      forall i | 0 <= i < |path| - 1 ensures path[i].0 == path[i + 1].1 {
        if i > 0 {
          assert path[i] == rest[i - 1] && path[i + 1] == rest[i];
        }
      }
      forall i | 0 <= i < |path|
        ensures path[i].1 in previous && previous[path[i].1] == path[i].0 && HasEdge(edges, path[i].0, path[i].1)
      {
        if i > 0 {
          assert path[i] == rest[i - 1];
        }
      }
    }
  }

  /** The pairs lines 69-75 append for destination `d`: its back-walk, or
      nothing when `d` is `src` or holds -1. */
  ghost function Shown(src: int, shortest: map<int, int>, previous: map<int, int>,
                       rank: map<int, nat>, d: int): seq<(int, int)>
    requires RankedDown(previous, rank)
  {
    if d in shortest && d != src && shortest[d] != -1 then BackPath(previous, rank, d) else []
  }

  /** One list of appended pairs per destination, in scan order. */
  ghost function Parts(src: int, shortest: map<int, int>, previous: map<int, int>,
                       rank: map<int, nat>, dests: seq<int>): seq<seq<(int, int)>>
    requires RankedDown(previous, rank)
    decreases |dests|
  {
    if dests == [] then []
    else Parts(src, shortest, previous, rank, dests[..|dests| - 1]) + [Shown(src, shortest, previous, rank, dests[|dests| - 1])]
  }

  /** The lists of `parts` joined in order. */
  ghost function Flatten(parts: seq<seq<(int, int)>>): seq<(int, int)>
    decreases |parts|
  {
    if parts == [] then [] else Flatten(parts[..|parts| - 1]) + parts[|parts| - 1]
  }

  /** Every pair met walking back over the predecessor tree is a
      predecessor entry joined by an input link. */
  lemma {:induction false} BackPathLinks(edges: seq<Edge>, src: int, previous: map<int, int>,
                                         rank: map<int, nat>, v: int, p: (int, int))
    requires PredecessorTree(edges, src, previous, rank)
    requires p in BackPath(previous, rank, v)
    ensures p.1 in previous && previous[p.1] == p.0 && HasEdge(edges, p.0, p.1)
    decreases if v in rank then rank[v] else 0
  {
    if p != (previous[v], v) {
      BackPathLinks(edges, src, previous, rank, previous[v], p);
    }
  }

  /** `optimal_edges` after scanning the destinations `dests` in order. */
  ghost function Highlighted(src: int, shortest: map<int, int>, previous: map<int, int>,
                             rank: map<int, nat>, dests: seq<int>): seq<(int, int)>
    requires RankedDown(previous, rank)
  {
    Flatten(Parts(src, shortest, previous, rank, dests))
  }

  /** Lines 67-75: `dests` lists the keys of `shortest` in the dictionary's
      iteration order. */
  method HighlightedEdges(src: int, shortest: map<int, int>, previous: map<int, int>, dests: seq<int>,
                          ghost rank: map<int, nat>)
    returns (optimal: seq<(int, int)>)
    requires RankedDown(previous, rank)
    requires forall i | 0 <= i < |dests| :: dests[i] in shortest
    ensures optimal == Highlighted(src, shortest, previous, rank, dests)
  {
    optimal := [];
    for k := 0 to |dests|
      invariant optimal == Highlighted(src, shortest, previous, rank, dests[..k])
    {
      var dest := dests[k];
      ghost var parts := Parts(src, shortest, previous, rank, dests[..k]);
      assert dests[..k + 1][..k] == dests[..k];
      assert Parts(src, shortest, previous, rank, dests[..k + 1]) == parts + [Shown(src, shortest, previous, rank, dest)];
      assert (parts + [Shown(src, shortest, previous, rank, dest)])[..|parts|] == parts;
      if dest != src && shortest[dest] != -1 {
        var path := BackWalk(previous, dest, rank);
        optimal := optimal + path;
      }
    }
    assert dests[..|dests|] == dests;
  }

  /** A pair is in the joined list exactly when it is in one of the parts. */
  lemma {:induction false} FlattenMember(parts: seq<seq<(int, int)>>, p: (int, int))
    ensures p in Flatten(parts) <==> exists k | 0 <= k < |parts| :: p in parts[k]
    decreases |parts|
  {
    if parts != [] {
      var last := |parts| - 1;
      var front := parts[..last];
      FlattenMember(front, p);
      if exists k | 0 <= k < |parts| :: p in parts[k] {
        var k :| 0 <= k < |parts| && p in parts[k];
        if k < last {
          assert front[k] == parts[k];
        }
      }
      if exists k | 0 <= k < |front| :: p in front[k] {
        var k :| 0 <= k < |front| && p in front[k];
        assert parts[k] == front[k];
      }
    }
  }

  /** There is one part per destination, the part of destination `k` being `Shown` of it. */
  lemma {:induction false} PartsIndex(src: int, shortest: map<int, int>, previous: map<int, int>,
                                      rank: map<int, nat>, dests: seq<int>)
    requires RankedDown(previous, rank)
    ensures var parts := Parts(src, shortest, previous, rank, dests);
            |parts| == |dests| && forall k | 0 <= k < |dests| :: parts[k] == Shown(src, shortest, previous, rank, dests[k])
    decreases |dests|
  {
    if dests != [] {
      var front := dests[..|dests| - 1];
      PartsIndex(src, shortest, previous, rank, front);
      var parts := Parts(src, shortest, previous, rank, dests);
      forall k | 0 <= k < |dests| ensures parts[k] == Shown(src, shortest, previous, rank, dests[k]) {
        if k < |front| {
          assert dests[k] == front[k];
        }
      }
    }
  }

  /** A pair is highlighted exactly when it lies on the back-walk of some
      listed destination other than `src` whose distance is not -1. */
  lemma HighlightedMember(src: int, shortest: map<int, int>, previous: map<int, int>,
                          rank: map<int, nat>, dests: seq<int>, p: (int, int))
    requires RankedDown(previous, rank)
    ensures p in Highlighted(src, shortest, previous, rank, dests) <==>
      exists k | 0 <= k < |dests| :: p in Shown(src, shortest, previous, rank, dests[k])
  {
    var parts := Parts(src, shortest, previous, rank, dests);
    FlattenMember(parts, p);
    PartsIndex(src, shortest, previous, rank, dests);
    if exists k | 0 <= k < |dests| :: p in Shown(src, shortest, previous, rank, dests[k]) {
      var k :| 0 <= k < |dests| && p in Shown(src, shortest, previous, rank, dests[k]);
      assert p in parts[k];
    }
  }

  /** Over the tree `shortestPath` returns, every highlighted pair
      `(prev, current)` is an input link and a predecessor entry. */
  lemma HighlightedAreLinks(edges: seq<Edge>, src: int, shortest: map<int, int>, previous: map<int, int>,
                            rank: map<int, nat>, dests: seq<int>, p: (int, int))
    requires PredecessorTree(edges, src, previous, rank)
    requires p in Highlighted(src, shortest, previous, rank, dests)
    ensures p.1 in previous && previous[p.1] == p.0 && HasEdge(edges, p.0, p.1)
  {
    HighlightedMember(src, shortest, previous, rank, dests, p);
    var k :| 0 <= k < |dests| && p in Shown(src, shortest, previous, rank, dests[k]);
    BackPathLinks(edges, src, previous, rank, dests[k], p);
  }
}
