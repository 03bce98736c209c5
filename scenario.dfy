/**
 * The four sample books of the unit tests (src/graph.rs:133-167) and what
 * the model says about them: two pairs of near-identical books whose middle
 * ratings are also within half a star of each other.
 */
module Scenario {
  import opened Wrappers
  import opened Dataprep
  import opened SeqFacts
  import opened SimilarityRule
  import opened GraphModel
  import opened Builder
  import opened BuilderFacts
  import opened Connectivity
  import opened Distribution
  import opened MostSimilar

  function SampleBooks(): seq<Book>
  {
    [ MakeBook("Book A", "Author X", 4.5, Some(300), "Publisher A"),
      MakeBook("Book B", "Author X", 4.0, Some(320), "Publisher A"),
      MakeBook("Book C", "Author Y", 3.8, Some(150), "Publisher B"),
      MakeBook("Book D", "Author Y", 3.9, Some(145), "Publisher B") ]
  }

  /** One iteration order of the title map. */
  function SampleOrder(): seq<string>
  {
    ["Book A", "Book B", "Book C", "Book D"]
  }

  lemma SampleIndex()
    ensures TitleIndex(SampleBooks()) == map["Book A" := 0, "Book B" := 1, "Book C" := 2, "Book D" := 3]
  {
    var b := SampleBooks();
    assert b[..1][..0] == [];
    assert TitleIndex(b[..1]) == map["Book A" := 0];
    assert b[..2][..1] == b[..1];
    assert TitleIndex(b[..2]) == map["Book A" := 0, "Book B" := 1];
    assert b[..3][..2] == b[..2];
    assert TitleIndex(b[..3]) == map["Book A" := 0, "Book B" := 1, "Book C" := 2];
    assert b[..4][..3] == b[..3] && b[..4] == b;
  }

  /** The weights of the pairs: 1.8 within each pair, 1.0 between B and either of C, D. */
  lemma SampleWeights()
    ensures var b := SampleBooks();
      && Similarity(b[0], b[1]) == 18 && Similarity(b[0], b[2]) == 0 && Similarity(b[0], b[3]) == 0
      && Similarity(b[1], b[0]) == 18 && Similarity(b[1], b[2]) == 10 && Similarity(b[1], b[3]) == 10
      && Similarity(b[2], b[0]) == 0 && Similarity(b[2], b[1]) == 10 && Similarity(b[2], b[3]) == 18
      && Similarity(b[3], b[0]) == 0 && Similarity(b[3], b[1]) == 10 && Similarity(b[3], b[2]) == 18
  {
  }

  /** A pass over four keys is the four steps one after the other. */
  lemma SourceEdgesFour(books: seq<Book>, i: nat, o: seq<string>)
    requires i < |books| && |o| == 4
    ensures SourceEdges(books, i, o) == Step(books, i, o[0]) + Step(books, i, o[1]) + Step(books, i, o[2]) + Step(books, i, o[3])
  {
    assert o[..1][..0] == [] && o[..2][..1] == o[..1] && o[..3][..2] == o[..2] && o[..4] == o;
    assert SourceEdges(books, i, o[..1]) == Step(books, i, o[0]);
    assert SourceEdges(books, i, o[..2]) == SourceEdges(books, i, o[..1]) + Step(books, i, o[1]);
    assert SourceEdges(books, i, o[..3]) == SourceEdges(books, i, o[..2]) + Step(books, i, o[2]);
    assert SourceEdges(books, i, o) == SourceEdges(books, i, o[..3]) + Step(books, i, o[3]);
  }

  lemma SamplePassA()
    ensures SourceEdges(SampleBooks(), 0, SampleOrder()) == [Edge(0, 1, 18)]
  {
    SampleIndex();
    SampleWeights();
    SourceEdgesFour(SampleBooks(), 0, SampleOrder());
  }

  lemma SamplePassB()
    ensures SourceEdges(SampleBooks(), 1, SampleOrder()) == [Edge(1, 0, 18), Edge(1, 2, 10), Edge(1, 3, 10)]
  {
    SampleIndex();
    SampleWeights();
    SourceEdgesFour(SampleBooks(), 1, SampleOrder());
  }

  lemma SamplePassC()
    ensures SourceEdges(SampleBooks(), 2, SampleOrder()) == [Edge(2, 1, 10), Edge(2, 3, 18)]
  {
    SampleIndex();
    SampleWeights();
    SourceEdgesFour(SampleBooks(), 2, SampleOrder());
  }

  lemma SamplePassD()
    ensures SourceEdges(SampleBooks(), 3, SampleOrder()) == [Edge(3, 1, 10), Edge(3, 2, 18)]
  {
    SampleIndex();
    SampleWeights();
    SourceEdgesFour(SampleBooks(), 3, SampleOrder());
  }

  /** The graph of the sample books: eight edges, not the two pairs alone. */
  lemma SampleEdges()
    ensures BuiltEdges(SampleBooks(), SampleOrder()) ==
      [ Edge(0, 1, 18),
        Edge(1, 0, 18), Edge(1, 2, 10), Edge(1, 3, 10),
        Edge(2, 1, 10), Edge(2, 3, 18),
        Edge(3, 1, 10), Edge(3, 2, 18) ]
  {
    var b := SampleBooks();
    var o := SampleOrder();
    SamplePassA();
    SamplePassB();
    SamplePassC();
    SamplePassD();
    FourPasses(b, o);
    SampleConcat(SourceEdges(b, 0, o), SourceEdges(b, 1, o), SourceEdges(b, 2, o), SourceEdges(b, 3, o));
  }

  lemma SampleConcat(x: seq<Edge>, y: seq<Edge>, z: seq<Edge>, w: seq<Edge>)
    requires x == [Edge(0, 1, 18)] && y == [Edge(1, 0, 18), Edge(1, 2, 10), Edge(1, 3, 10)]
    requires z == [Edge(2, 1, 10), Edge(2, 3, 18)] && w == [Edge(3, 1, 10), Edge(3, 2, 18)]
    ensures x + y + z + w ==
      [ Edge(0, 1, 18),
        Edge(1, 0, 18), Edge(1, 2, 10), Edge(1, 3, 10),
        Edge(2, 1, 10), Edge(2, 3, 18),
        Edge(3, 1, 10), Edge(3, 2, 18) ]
  {
  }

  /** Four passes of the outer loop, one after the other. */
  lemma FourPasses(b: seq<Book>, o: seq<string>)
    requires |b| == 4
    ensures BuiltEdges(b, o) == SourceEdges(b, 0, o) + SourceEdges(b, 1, o) + SourceEdges(b, 2, o) + SourceEdges(b, 3, o)
  {
    assert AllEdges(b, o, 1) == SourceEdges(b, 0, o);
    assert AllEdges(b, o, 2) == AllEdges(b, o, 1) + SourceEdges(b, 1, o);
    assert AllEdges(b, o, 3) == AllEdges(b, o, 2) + SourceEdges(b, 2, o);
    assert AllEdges(b, o, 4) == AllEdges(b, o, 3) + SourceEdges(b, 3, o);
  }

  /** The sample order lists the map's keys once each. */
  lemma SampleOrderEnumerates()
    ensures Enumerates(SampleOrder(), TitleIndex(SampleBooks()).Keys)
  {
    SampleIndex();
    var o := SampleOrder();
    assert o[1..][1..][1..][1..] == [];
  }

  /** The sample edges leave A once, B three times and C and D twice each. */
  lemma SampleOutDegrees(g: Graph)
    requires |g.nodes| == 4
    requires g.edges ==
      [ Edge(0, 1, 18),
        Edge(1, 0, 18), Edge(1, 2, 10), Edge(1, 3, 10),
        Edge(2, 1, 10), Edge(2, 3, 18),
        Edge(3, 1, 10), Edge(3, 2, 18) ]
    ensures Degrees(g) == [1, 3, 2, 2]
  {
    forall v | 0 <= v < 4
      ensures Degrees(g)[v] == [1, 3, 2, 2][v]
    {
      SampleOutDegree(g.edges, v);
    }
  }

  lemma SampleOutDegree(e: seq<Edge>, v: nat)
    requires e ==
      [ Edge(0, 1, 18),
        Edge(1, 0, 18), Edge(1, 2, 10), Edge(1, 3, 10),
        Edge(2, 1, 10), Edge(2, 3, 18),
        Edge(3, 1, 10), Edge(3, 2, 18) ]
    ensures OutDegree(e, v) == if v == 0 then 1 else if v == 1 then 3 else if v <= 3 then 2 else 0
  {
    var a := [Edge(0, 1, 18)];
    var b := [Edge(1, 0, 18), Edge(1, 2, 10), Edge(1, 3, 10)];
    var c := [Edge(2, 1, 10), Edge(2, 3, 18)];
    var d := [Edge(3, 1, 10), Edge(3, 2, 18)];
    assert e == a + (b + (c + d));
    GroupedOutDegree(a, b, c, d, v);
  }

  /** The out-degree over four groups of edges leaving nodes 0, 1, 2 and 3 respectively. */
  lemma GroupedOutDegree(a: seq<Edge>, b: seq<Edge>, c: seq<Edge>, d: seq<Edge>, v: nat)
    requires forall i | 0 <= i < |a| :: a[i].source == 0
    requires forall i | 0 <= i < |b| :: b[i].source == 1
    requires forall i | 0 <= i < |c| :: c[i].source == 2
    requires forall i | 0 <= i < |d| :: d[i].source == 3
    ensures OutDegree(a + (b + (c + d)), v) == if v == 0 then |a| else if v == 1 then |b| else if v == 2 then |c| else if v == 3 then |d| else 0
  {
    OutDegreeAppend(a, b + (c + d), v);
    OutDegreeAppend(b, c + d, v);
    OutDegreeAppend(c, d, v);
    SameSource(a, 0, v);
    SameSource(b, 1, v);
    SameSource(c, 2, v);
    SameSource(d, 3, v);
  }

  /** Edges that all leave `u` give `u` one out-degree each and every other node none. */
  lemma {:induction false} SameSource(s: seq<Edge>, u: nat, v: nat)
    requires forall i | 0 <= i < |s| :: s[i].source == u
    ensures OutDegree(s, v) == if v == u then |s| else 0
  {
    if s != [] {
      SameSource(s[1..], u, v);
    }
  }

  /**
   * Whatever order the title map is visited in: four nodes, eight edges and
   * the out-degrees 1, 3, 2, 2 of A, B, C and D.
   */
  lemma SampleAnyOrder(order: seq<string>)
    requires Enumerates(order, TitleIndex(SampleBooks()).Keys)
    ensures |BuiltEdges(SampleBooks(), order)| == 8
    ensures Degrees(Graph(SampleBooks(), BuiltEdges(SampleBooks(), order))) == [1, 3, 2, 2]
  {
    var b := SampleBooks();
    SampleOrderEnumerates();
    SampleEdges();
    SampleOutDegrees(Graph(b, BuiltEdges(b, SampleOrder())));
    OrderIndependent(b, order, SampleOrder());
    assert |BuiltEdges(b, order)| == |multiset(BuiltEdges(b, order))| == |multiset(BuiltEdges(b, SampleOrder()))|;
  }

  /** The ranking of the sample graph: B, then C and D in node order, then A. */
  lemma SampleRanking(g: Graph)
    requires g.nodes == SampleBooks() && Degrees(g) == [1, 3, 2, 2]
    ensures TopConnected(g) == [("Book B", 3), ("Book C", 2), ("Book D", 2), ("Book A", 1)]
  {
    var s := Connections(g);
    assert s == [("Book A", 1), ("Book B", 3), ("Book C", 2), ("Book D", 2)];
    SortFour(s);
  }

  /** Sorting degrees 1, 3, 2, 2 moves the first entry to the back and keeps the tie in order. */
  lemma SortFour(s: seq<Entry>)
    requires |s| == 4 && s[0].1 == 1 && s[1].1 == 3 && s[2].1 == 2 && s[3].1 == 2
    ensures SortByDegree(s) == [s[1], s[2], s[3], s[0]]
  {
    var a, b, c, d := s[0], s[1], s[2], s[3];
    assert s[1..] == [b, c, d] && [b, c, d][1..] == [c, d] && [c, d][1..] == [d];
    var none: seq<Entry> := [];
    assert [d][1..] == none;
    assert SortByDegree([d]) == Insert(d, SortByDegree(none)) == [d];
    assert SortByDegree([c, d]) == Insert(c, [d]) == [c, d];
    assert SortByDegree([b, c, d]) == Insert(b, [c, d]) == [b, c, d];
    assert Insert(a, [d]) == [d, a];
    assert Insert(a, [c, d]) == [c] + Insert(a, [d]);
    assert Insert(a, [b, c, d]) == [b] + Insert(a, [c, d]);
  }

  /** The distribution of the sample degrees: one node of degree 3, two of degree 2, one of degree 1. */
  lemma SampleDistribution(ds: seq<nat>)
    requires ds == [1, 3, 2, 2]
    ensures TopDistribution(ds) == map[3 := (1, 25.0), 2 := (2, 50.0), 1 := (1, 25.0)]
  {
    assert ds[1..][1..][1..][1..] == [];
    assert Elements(ds) == {1, 2, 3};
    CountFour(ds, 1);
    CountFour(ds, 2);
    CountFour(ds, 3);
    var full := FullDistribution(ds);
    assert full == map[3 := (1, 25.0), 2 := (2, 50.0), 1 := (1, 25.0)];
    SortThree(full.Keys);
  }

  lemma CountFour(ds: seq<nat>, x: nat)
    requires |ds| == 4
    ensures Count(ds, x) == (if ds[0] == x then 1 else 0) + (if ds[1] == x then 1 else 0) + (if ds[2] == x then 1 else 0) + (if ds[3] == x then 1 else 0)
  {
    var s1, s2, s3 := ds[1..], ds[2..], ds[3..];
    assert s1[1..] == s2 && s2[1..] == s3 && s3[1..] == [];
    assert s1[0] == ds[1] && s2[0] == ds[2] && s3[0] == ds[3];
    assert Count(s3, x) == if ds[3] == x then 1 else 0;
    assert Count(s2, x) == (if ds[2] == x then 1 else 0) + Count(s3, x);
    assert Count(s1, x) == (if ds[1] == x then 1 else 0) + Count(s2, x);
  }

  lemma SortThree(keys: set<nat>)
    requires keys == {1, 2, 3}
    ensures SortedKeys(keys) == [3, 2, 1]
  {
    assert MaxKey(keys) == 3;
    assert keys - {3} == {1, 2};
    assert MaxKey({1, 2}) == 2;
    assert {1, 2} - {2} == {1};
    assert MaxKey({1}) == 1;
    assert {1} - {1} == {};
  }

  /** A sequence holding exactly one element once is that element alone. */
  lemma SingletonMultiset<T>(s: seq<T>, x: T)
    requires multiset(s) == multiset{x}
    ensures s == [x]
  {
    assert |s| == |multiset(s)| == 1;
    assert s[0] in multiset(s);
  }

  /** The outer loop's first pass stays at the front of the edge list. */
  lemma {:induction false} AllEdgesFront(books: seq<Book>, order: seq<string>, n: nat)
    requires 1 <= n <= |books|
    ensures SourceEdges(books, 0, order) <= AllEdges(books, order, n)
  {
    if n == 1 {
      assert AllEdges(books, order, 1) == [] + SourceEdges(books, 0, order);
    } else {
      AllEdgesFront(books, order, n - 1);
    }
  }

  /** Book A's single edge, to B with weight 1.8, comes first in every iteration order. */
  lemma SampleFirstEdge(order: seq<string>)
    requires Enumerates(order, TitleIndex(SampleBooks()).Keys)
    ensures |BuiltEdges(SampleBooks(), order)| > 0 && BuiltEdges(SampleBooks(), order)[0] == Edge(0, 1, 18)
  {
    var b := SampleBooks();
    SampleOrderEnumerates();
    EnumerationsPermute(order, SampleOrder(), TitleIndex(b).Keys);
    SourceEdgesPermutation(b, 0, order, SampleOrder());
    SamplePassA();
    SingletonMultiset(SourceEdges(b, 0, order), Edge(0, 1, 18));
    AllEdgesFront(b, order, |b|);
  }

  /** What the model says about the sample graph built in any iteration order. */
  lemma SampleGraph(order: seq<string>, g: Graph)
    requires Enumerates(order, TitleIndex(SampleBooks()).Keys)
    requires g == Graph(SampleBooks(), BuiltEdges(SampleBooks(), order))
    ensures |g.nodes| == 4 && |g.edges| == 8 && Degrees(g) == [1, 3, 2, 2]
    ensures g.edges[0] == Edge(0, 1, 18) && forall e | e in g.edges :: e.weight <= 18
    ensures g.nodes[0].title == "Book A" && g.nodes[1].title == "Book B"
  {
    SampleAnyOrder(order);
    SampleFirstEdge(order);
    EdgeWeights(SampleBooks(), order);
  }

  /**
   * A report satisfying the contract of the scan names the first edge when
   * that edge is as heavy as any.
   */
  lemma FirstEdgeReported(g: Graph, best: Option<Neighbors>)
    requires WellFormed(g) && |g.edges| > 0 && g.edges[0].weight > 0
    requires forall e | e in g.edges :: e.weight <= g.edges[0].weight
    requires best.None? <==> forall e | e in g.edges :: e.weight == 0
    requires best.Some? ==> exists k :: HeaviestAmong(g.edges, k, |g.edges|) && best.value == Describe(g, k)
    ensures best == Some(Describe(g, 0))
  {
    assert g.edges[0] in g.edges;
    var k: nat :| HeaviestAmong(g.edges, k, |g.edges|) && best.value == Describe(g, k);
    assert g.edges[k] in g.edges;
  }

  /**
   * The four unit tests (src/graph.rs:169-206) in one run, for any iteration
   * order of the title map: four nodes and eight edges; all four nodes
   * ranked, B first; three degree values; and A → B as the most similar pair.
   */
  method SampleRun(order: seq<string>) returns (g: Graph, top: seq<Entry>, dist: map<nat, (nat, real)>, best: Option<Neighbors>)
    requires Enumerates(order, TitleIndex(SampleBooks()).Keys)
    ensures |g.nodes| == 4 && |g.edges| == 8
    ensures top == [("Book B", 3), ("Book C", 2), ("Book D", 2), ("Book A", 1)]
    ensures dist == map[3 := (1, 25.0), 2 := (2, 50.0), 1 := (1, 25.0)]
    ensures best == Some(("Book A", "Book B", 18))
  {
    g := BuildGraph(SampleBooks(), order);
    SampleGraph(order, g);
    top := TopConnected(g);
    SampleRanking(g);
    dist := AnalyzeDegreeDistribution(g);
    SampleDistribution(Degrees(g));
    best := FindMostSimilarNeighbors(g);
    FirstEdgeReported(g, best);
  }
}
