/**
 * What `build_graph` (src/graph.rs:6-56) guarantees about the graph it
 * returns, for every possible iteration order of its title map.
 */
module BuilderFacts {
  import opened Wrappers
  import opened Dataprep
  import opened SeqFacts
  import opened SimilarityRule
  import opened GraphModel
  import opened Builder

  /**
   * No edge joins two nodes with the same title; in particular there are no
   * self-loops.
   */
  lemma NoSelfLoops(books: seq<Book>, order: seq<string>)
    requires Enumerates(order, TitleIndex(books).Keys)
    ensures forall e | e in BuiltEdges(books, order) ::
      e.source < |books| && e.target < |books| && books[e.source].title != books[e.target].title
    ensures forall e | e in BuiltEdges(books, order) :: e.source != e.target
  {
    BuiltEdgesMembers(books, order);
    TitleIndexTitle(books);
  }

  /**
   * Edge `e` records the criteria the source book `i` (one carrying the
   * title of `e`'s source node) satisfies against `e`'s target.
   */
  predicate RecordsCriteria(books: seq<Book>, e: Edge, i: nat)
  {
    i < |books| && e.source < |books| && e.target < |books| &&
    books[i].title == books[e.source].title && Decode(e.weight) == Some(Compare(books[i], books[e.target]))
  }

  /**
   * Every weight is positive and is the weight of the criteria the two books
   * of some pair satisfy: an edge records a non-empty subset of the four
   * increments, and a pair meeting no criterion gets no edge.
   */
  lemma EdgeWeights(books: seq<Book>, order: seq<string>)
    requires Enumerates(order, TitleIndex(books).Keys)
    ensures forall e | e in BuiltEdges(books, order) ::
      0 < e.weight <= AuthorWeight + RatingWeight + PagesWeight + PublisherWeight
    ensures forall e | e in BuiltEdges(books, order) :: exists i :: RecordsCriteria(books, e, i)
  {
    BuiltEdgesMembers(books, order);
    TitleIndexTitle(books);
    forall e | e in BuiltEdges(books, order)
      ensures exists i :: RecordsCriteria(books, e, i)
    {
      var i :| 0 <= i < |books| && EdgeFor(books, i, e);
      DecodeWeight(Compare(books[i], books[e.target]));
      assert RecordsCriteria(books, e, i);
    }
  }

  /**
   * Every pair of kept nodes with different titles and a positive weight is
   * joined, from the node kept for the first title to the second.
   */
  lemma PositivePairsJoined(books: seq<Book>, order: seq<string>, i: nat, j: nat)
    requires Enumerates(order, TitleIndex(books).Keys)
    requires i < |books| && j < |books| && IsLastWithTitle(books, j)
    requires books[i].title != books[j].title && Similarity(books[i], books[j]) > 0
    ensures Edge(TitleIndex(books)[books[i].title], j, Similarity(books[i], books[j])) in BuiltEdges(books, order)
  {
    TitleIndexLast(books);
    BuiltEdgesMembers(books, order);
    assert EdgeFor(books, i, Edge(TitleIndex(books)[books[i].title], j, Similarity(books[i], books[j])));
  }

  /**
   * A book whose title is repeated later is overwritten in the map: its node
   * takes part in no edge, so its out-degree is zero. Both endpoints of every
   * edge are the nodes kept for their titles.
   */
  lemma OverwrittenNodesIsolated(books: seq<Book>, order: seq<string>)
    requires Enumerates(order, TitleIndex(books).Keys)
    ensures forall e | e in BuiltEdges(books, order) :: KeptEndpoints(books, e)
    ensures forall v | 0 <= v < |books| && !IsLastWithTitle(books, v) :: OutDegree(BuiltEdges(books, order), v) == 0
  {
    BuiltEdgesMembers(books, order);
    EdgeForKept(books);
  }

  lemma EdgeForKept(books: seq<Book>)
    ensures forall i, e | 0 <= i < |books| && EdgeFor(books, i, e) :: KeptEndpoints(books, e)
  {
    TitleIndexTitle(books);
    TitleIndexLast(books);
  }

  /** Both endpoints of `e` are the nodes the map keeps for their titles. */
  predicate KeptEndpoints(books: seq<Book>, e: Edge)
  {
    e.source < |books| && e.target < |books| && IsLastWithTitle(books, e.source) && IsLastWithTitle(books, e.target)
  }

  /**
   * With distinct titles every criterion is symmetric, so an edge A → B is
   * present exactly when B → A is, with the same weight.
   */
  lemma SymmetricWhenTitlesDistinct(books: seq<Book>, order: seq<string>)
    requires DistinctTitles(books)
    requires Enumerates(order, TitleIndex(books).Keys)
    ensures forall e | e in BuiltEdges(books, order) :: Edge(e.target, e.source, e.weight) in BuiltEdges(books, order)
  {
    BuiltEdgesMembers(books, order);
    TitleIndexLast(books);
    var m := TitleIndex(books);
    forall e | e in BuiltEdges(books, order)
      ensures Edge(e.target, e.source, e.weight) in BuiltEdges(books, order)
    {
      var i :| 0 <= i < |books| && EdgeFor(books, i, e);
      assert IsLastWithTitle(books, i);
      SimilaritySymmetric(books[i], books[e.target]);
      assert EdgeFor(books, e.target, Edge(e.target, e.source, e.weight));
    }
  }

  /** Visiting two lists of titles one after the other adds both passes' edges. */
  lemma {:induction false} SourceEdgesAppend(books: seq<Book>, i: nat, a: seq<string>, b: seq<string>)
    requires i < |books|
    ensures SourceEdges(books, i, a + b) == SourceEdges(books, i, a) + SourceEdges(books, i, b)
  {
    if b == [] {
      assert a + b == a;
    } else {
      var front := b[..|b| - 1];
      assert (a + b)[..|a + b| - 1] == a + front;
      SourceEdgesAppend(books, i, a, front);
    }
  }

  lemma SourceEdgesSingle(books: seq<Book>, i: nat, t: string)
    requires i < |books|
    ensures SourceEdges(books, i, [t]) == Step(books, i, t)
  {
    assert [t][..0] == [];
  }

  /** One pass of the inner loop adds the same edges, in some order, whatever order it visits the titles in. */
  lemma {:induction false} SourceEdgesPermutation(books: seq<Book>, i: nat, a: seq<string>, b: seq<string>)
    requires i < |books| && multiset(a) == multiset(b)
    ensures multiset(SourceEdges(books, i, a)) == multiset(SourceEdges(books, i, b))
  {
    if a == [] {
      assert |b| == |multiset(b)| == 0;
    } else {
      var p := PermutationPick(a, b);
      var rest := b[..p] + b[p + 1..];
      SourceEdgesPermutation(books, i, a[1..], rest);
      assert a == [a[0]] + a[1..];
      SourceEdgesAppend(books, i, [a[0]], a[1..]);
      SplitAt(b, p);
      SourceEdgesAppend(books, i, b[..p], [b[p]] + b[p + 1..]);
      SourceEdgesAppend(books, i, [b[p]], b[p + 1..]);
      SourceEdgesAppend(books, i, b[..p], b[p + 1..]);
      SourceEdgesSingle(books, i, a[0]);
    }
  }

  /** Two iteration orders of the same map list the same keys once each. */
  lemma EnumerationsPermute(o1: seq<string>, o2: seq<string>, keys: set<string>)
    requires Enumerates(o1, keys) && Enumerates(o2, keys)
    ensures multiset(o1) == multiset(o2)
  {
    DistinctMultiplicity(o1);
    DistinctMultiplicity(o2);
    forall x
      ensures multiset(o1)[x] == multiset(o2)[x]
    {
      if x in o1 {
        var j :| 0 <= j < |o1| && o1[j] == x;
        assert x in keys;
      }
      if x in o2 {
        var j :| 0 <= j < |o2| && o2[j] == x;
        assert x in keys;
      }
    }
  }

  /** The outer loop adds the same edges, counted with repetition, when every pass does. */
  lemma {:induction false} AllEdgesPermutation(books: seq<Book>, o1: seq<string>, o2: seq<string>, n: nat)
    requires n <= |books|
    requires forall i, e | 0 <= i < n :: Count(SourceEdges(books, i, o1), e) == Count(SourceEdges(books, i, o2), e)
    ensures forall e :: Count(AllEdges(books, o1, n), e) == Count(AllEdges(books, o2, n), e)
  {
    if n > 0 {
      AllEdgesPermutation(books, o1, o2, n - 1);
      forall e
        ensures Count(AllEdges(books, o1, n), e) == Count(AllEdges(books, o2, n), e)
      {
        CountAppend(AllEdges(books, o1, n - 1), SourceEdges(books, n - 1, o1), e);
        CountAppend(AllEdges(books, o2, n - 1), SourceEdges(books, n - 1, o2), e);
      }
    }
  }

  /**
   * The graph does not depend on the map's iteration order beyond the order
   * of its edge list: any two orders give the same edges, the same number of
   * times each, and so the same out-degree for every node.
   */
  lemma OrderIndependent(books: seq<Book>, o1: seq<string>, o2: seq<string>)
    requires Enumerates(o1, TitleIndex(books).Keys) && Enumerates(o2, TitleIndex(books).Keys)
    ensures multiset(BuiltEdges(books, o1)) == multiset(BuiltEdges(books, o2))
    ensures Degrees(Graph(books, BuiltEdges(books, o1))) == Degrees(Graph(books, BuiltEdges(books, o2)))
  {
    EnumerationsPermute(o1, o2, TitleIndex(books).Keys);
    forall i, e | 0 <= i < |books|
      ensures Count(SourceEdges(books, i, o1), e) == Count(SourceEdges(books, i, o2), e)
    {
      SourceEdgesPermutation(books, i, o1, o2);
      CountMultiplicity(SourceEdges(books, i, o1), e);
      CountMultiplicity(SourceEdges(books, i, o2), e);
    }
    AllEdgesPermutation(books, o1, o2, |books|);
    SameCounts(BuiltEdges(books, o1), BuiltEdges(books, o2));
    DegreesPermutation(Graph(books, BuiltEdges(books, o1)), Graph(books, BuiltEdges(books, o2)));
  }

  /** One pass adds at most one edge per visited title, and none for the book's own title. */
  lemma {:induction false} SourceEdgesCount(books: seq<Book>, i: nat, order: seq<string>)
    requires i < |books|
    ensures |SourceEdges(books, i, order)| + (if books[i].title in order then 1 else 0) <= |order|
  {
    if order != [] {
      var front := order[..|order| - 1];
      var t := order[|order| - 1];
      SourceEdgesCount(books, i, front);
      assert order == front + [t];
    }
  }

  lemma {:induction false} AllEdgesCount(books: seq<Book>, order: seq<string>, n: nat)
    requires n <= |books| && forall i | 0 <= i < |books| :: books[i].title in order
    ensures |AllEdges(books, order, n)| + n <= n * |order|
  {
    if n > 0 {
      var k := |order|;
      AllEdgesCount(books, order, n - 1);
      assert books[n - 1].title in order;
      SourceEdgesCount(books, n - 1, order);
      MulStep(n, k);
      assert AllEdges(books, order, n) == AllEdges(books, order, n - 1) + SourceEdges(books, n - 1, order);
    }
  }

  /** At most one edge for every ordered pair of distinct books: n·(n−1) edges for n books. */
  lemma EdgeCountBound(books: seq<Book>, order: seq<string>)
    requires Enumerates(order, TitleIndex(books).Keys)
    ensures |BuiltEdges(books, order)| <= |books| * (|books| - 1)
  {
    AllEdgesCount(books, order, |books|);
    DistinctLength(order, TitleIndex(books).Keys);
    PairBound(|books|, |order|, |BuiltEdges(books, order)|);
  }

  lemma MulStep(n: nat, k: nat)
    requires n > 0
    ensures (n - 1) * k + k == n * k
  {
  }

  lemma PairBound(n: nat, k: nat, x: nat)
    requires k <= n && x + n <= n * k
    ensures x <= n * (n - 1)
  {
    assert n * k <= n * n;
  }
}
