/** The no-transit policy: links leaving a no-transit router are dropped,
    except self-loops, before the engine runs. */
module TransitPolicy {
  import opened Graph

  /** The test on line 89: the source is not a no-transit router, or the link is a self-loop. */
  predicate Kept(e: Edge, noTransit: seq<int>) {
    e.src !in noTransit || e.dst == e.src
  }

  /** The kept links, in input order. */
  function Filtered(edges: seq<Edge>, noTransit: seq<int>): seq<Edge>
    decreases |edges|
  {
    if edges == [] then []
    else
      var e := edges[|edges| - 1];
      Filtered(edges[..|edges| - 1], noTransit) + (if Kept(e, noTransit) then [e] else [])
  }

  /** Lines 86-91: walk the links and append each kept one to `filtered_edges`. */
  method ApplyNoTransitPolicy(edges: seq<Edge>, noTransit: seq<int>) returns (filtered: seq<Edge>)
    ensures filtered == Filtered(edges, noTransit)
  {
    filtered := [];
    var k := 0;
    while k < |edges|
      invariant 0 <= k <= |edges|
      invariant filtered == Filtered(edges[..k], noTransit)
    {
      var e := edges[k];
      assert edges[..k + 1][..k] == edges[..k];
      if e.src !in noTransit || e.dst == e.src {
        filtered := filtered + [e];
      }
      k := k + 1;
    }
    assert edges[..k] == edges;
  }

  /** A link survives exactly when it is an input link the policy keeps; in
      particular no link from a no-transit router to another router survives. */
  lemma {:induction false} FilteredMember(edges: seq<Edge>, noTransit: seq<int>, e: Edge)
    ensures e in Filtered(edges, noTransit) <==> e in edges && Kept(e, noTransit)
    decreases |edges|
  {
    if edges != [] {
      var front := edges[..|edges| - 1];
      FilteredMember(front, noTransit, e);
      assert edges == front + [edges[|edges| - 1]];
    }
  }

  /** Filtering a concatenation filters each part and keeps them in order. */
  lemma {:induction false} FilteredAppend(a: seq<Edge>, b: seq<Edge>, noTransit: seq<int>)
    ensures Filtered(a + b, noTransit) == Filtered(a, noTransit) + Filtered(b, noTransit)
    decreases |b|
  {
    if b == [] {
      assert a + b == a;
    } else {
      var front := b[..|b| - 1];
      assert (a + b)[..|a + b| - 1] == a + front;
      assert (a + b)[|a + b| - 1] == b[|b| - 1];
      FilteredAppend(a, front, noTransit);
    }
  }

  /** A link list the policy keeps entirely comes back verbatim. */
  lemma {:induction false} FilteredKeepsAllowed(edges: seq<Edge>, noTransit: seq<int>)
    requires forall i | 0 <= i < |edges| :: Kept(edges[i], noTransit)
    ensures Filtered(edges, noTransit) == edges
    decreases |edges|
  {
    if edges != [] {
      var front := edges[..|edges| - 1];
      FilteredKeepsAllowed(front, noTransit);
      assert front + [edges[|edges| - 1]] == edges;
    }
  }

  lemma {:induction false} FilteredShorter(edges: seq<Edge>, noTransit: seq<int>)
    ensures |Filtered(edges, noTransit)| <= |edges|
    decreases |edges|
  {
    if edges != [] {
      FilteredShorter(edges[..|edges| - 1], noTransit);
    }
  }

  /** Every surviving link is kept by the policy. */
  lemma {:induction false} FilteredAllKept(edges: seq<Edge>, noTransit: seq<int>)
    ensures forall i | 0 <= i < |Filtered(edges, noTransit)| :: Kept(Filtered(edges, noTransit)[i], noTransit)
  {
    var f := Filtered(edges, noTransit);
    forall i | 0 <= i < |f| ensures Kept(f[i], noTransit) {
      FilteredMember(edges, noTransit, f[i]);
    }
  }

  /** Applying the policy twice gives the same list as applying it once. */
  lemma FilteredIdempotent(edges: seq<Edge>, noTransit: seq<int>)
    ensures Filtered(Filtered(edges, noTransit), noTransit) == Filtered(edges, noTransit)
  {
    FilteredAllKept(edges, noTransit);
    FilteredKeepsAllowed(Filtered(edges, noTransit), noTransit);
  }
}
