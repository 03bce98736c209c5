/**
 * What the three analyses report about a graph `build_graph` returns: none
 * of them depends on the title map's iteration order except through the
 * order of the edge list, and the scan for the most similar pair finds one
 * whenever the graph has an edge.
 */
module Reports {
  import opened Dataprep
  import opened GraphModel
  import opened Builder
  import opened BuilderFacts
  import opened Connectivity
  import opened Distribution

  /** The graph `build_graph` returns when the title map yields its keys in `order`. */
  function Built(books: seq<Book>, order: seq<string>): (g: Graph)
    requires Enumerates(order, TitleIndex(books).Keys)
    ensures g.nodes == books && WellFormed(g)
  {
    BuiltGraphWellFormed(books, order);
    Graph(books, BuiltEdges(books, order))
  }

  /**
   * The ranking, the degree distribution and the number of edges are the
   * same for every iteration order of the title map.
   */
  lemma ReportsOrderIndependent(books: seq<Book>, o1: seq<string>, o2: seq<string>)
    requires Enumerates(o1, TitleIndex(books).Keys) && Enumerates(o2, TitleIndex(books).Keys)
    ensures |Built(books, o1).edges| == |Built(books, o2).edges|
    ensures TopConnected(Built(books, o1)) == TopConnected(Built(books, o2))
    ensures TopDistribution(Degrees(Built(books, o1))) == TopDistribution(Degrees(Built(books, o2)))
  {
    var g1, g2 := Built(books, o1), Built(books, o2);
    OrderIndependent(books, o1, o2);
    assert |g1.edges| == |multiset(g1.edges)| == |multiset(g2.edges)| == |g2.edges|;
    SameDegreesSameRanking(g1, g2);
  }

  /**
   * Every edge of a built graph has a positive weight, so the scan reports
   * nothing exactly when the graph has no edges at all.
   */
  lemma NoPairOnlyWithoutEdges(books: seq<Book>, order: seq<string>)
    requires Enumerates(order, TitleIndex(books).Keys)
    ensures (forall e | e in Built(books, order).edges :: e.weight == 0) <==> Built(books, order).edges == []
  {
    EdgeWeights(books, order);
    var edges := Built(books, order).edges;
    if edges != [] {
      assert edges[0] in edges;
    }
  }
}
