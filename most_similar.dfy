/**
 * `find_most_similar_neighbors` (src/graph.rs:109-126): the endpoints' titles
 * and the weight of the heaviest edge, the first one in edge order when
 * several share the largest weight, or nothing when no edge has a positive
 * weight.
 */
module MostSimilar {
  import opened Wrappers
  import opened Dataprep
  import opened GraphModel

  /** `(source title, target title, weight)`, the weight in tenths. */
  type Neighbors = (string, string, nat)

  /**
   * Among the first `n` edges, edge `k` has a positive weight that no edge
   * exceeds, and every edge before it is strictly lighter: the edge a scan
   * replacing its best on a strictly larger weight, starting from 0, ends on.
   */
  predicate HeaviestAmong(edges: seq<Edge>, k: nat, n: nat)
  {
    && k < n <= |edges|
    && edges[k].weight > 0
    && (forall j | 0 <= j < n :: edges[j].weight <= edges[k].weight)
    && (forall j | 0 <= j < k :: edges[j].weight < edges[k].weight)
  }

  /** The titles of edge `k`'s endpoints and its weight. */
  function Describe(g: Graph, k: nat): (r: Neighbors)
    requires WellFormed(g) && k < |g.edges|
    ensures r.2 == g.edges[k].weight
  {
    var e := g.edges[k];
    assert e in g.edges;
    (g.nodes[e.source].title, g.nodes[e.target].title, e.weight)
  }

  /**
   * The scan over the edges in insertion order: it reports nothing exactly
   * when no edge has a positive weight, and otherwise the first heaviest edge.
   */
  method FindMostSimilarNeighbors(g: Graph) returns (mostSimilar: Option<Neighbors>)
    requires WellFormed(g)
    ensures mostSimilar.None? <==> forall e | e in g.edges :: e.weight == 0
    ensures mostSimilar.Some? ==> exists k :: HeaviestAmong(g.edges, k, |g.edges|) && mostSimilar.value == Describe(g, k)
  {
    mostSimilar := None;
    var maxSimilarity: nat := 0;
    ghost var best: nat := 0;
    var i := 0;
    while i < |g.edges|
      invariant 0 <= i <= |g.edges|
      invariant forall j | 0 <= j < i :: g.edges[j].weight <= maxSimilarity
      invariant mostSimilar.None? ==> maxSimilarity == 0
      invariant mostSimilar.Some? ==>
        HeaviestAmong(g.edges, best, i) && maxSimilarity == g.edges[best].weight && mostSimilar.value == Describe(g, best)
    {
      var edge := g.edges[i];
      var similarity := edge.weight;
      if similarity > maxSimilarity {
        maxSimilarity := similarity;
        assert edge in g.edges;
        var sourceTitle := g.nodes[edge.source].title;
        var targetTitle := g.nodes[edge.target].title;
        mostSimilar := Some((sourceTitle, targetTitle, similarity));
        best := i;
      }
      i := i + 1;
    }
    if mostSimilar.None? {
      forall e | e in g.edges
        ensures e.weight == 0
      {
        var j :| 0 <= j < |g.edges| && g.edges[j] == e;
      }
    } else {
      assert g.edges[best] in g.edges;
    }
  }
}
