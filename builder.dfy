/**
 * `build_graph` (src/graph.rs:6-56): one node per book, a title → node map
 * in which a later duplicate title overwrites an earlier one, and, for every
 * book, one pass over the map adding a weighted edge to every other title
 * whose similarity weight is positive.
 *
 * The map is a Rust `HashMap`, whose iteration order is unspecified. The
 * model takes that order as the parameter `keyOrder`, some enumeration of the
 * map's keys; the map is not changed while the edges are added, so every
 * pass of the inner loop visits the keys in that same order.
 */
module Builder {
  import opened Dataprep
  import opened SeqFacts
  import opened SimilarityRule
  import opened GraphModel

  /**
   * The title → node map after the node loop (src/graph.rs:11-14): every
   * title is a key and maps to a node; TitleIndexLast says which one.
   */
  function TitleIndex(books: seq<Book>): (m: map<string, nat>)
    ensures forall i | 0 <= i < |books| :: books[i].title in m
    ensures forall t | t in m :: m[t] < |books|
    ensures |m| <= |books|
  {
    if books == [] then map[]
    else
      var m := TitleIndex(books[..|books| - 1]);
      var t := books[|books| - 1].title;
      MapUpdateSize(m, t, |books| - 1);
      m[t := |books| - 1]
  }

  /** No later book repeats the title of book `v`. */
  predicate IsLastWithTitle(books: seq<Book>, v: nat)
    requires v < |books|
  {
    forall j | v < j < |books| :: books[j].title != books[v].title
  }

  /** Every key of the title map names a node carrying that title. */
  lemma {:induction false} TitleIndexTitle(books: seq<Book>)
    ensures forall t | t in TitleIndex(books) :: books[TitleIndex(books)[t]].title == t
  {
    if books != [] {
      var n := |books| - 1;
      var front := books[..n];
      TitleIndexTitle(front);
      var mf := TitleIndex(front);
      var m := TitleIndex(books);
      assert m == mf[books[n].title := n];
      forall t | t in m
        ensures books[m[t]].title == t
      {
        if t != books[n].title {
          assert m[t] == mf[t] && books[mf[t]] == front[mf[t]];
        }
      }
    }
  }

  /** No book after the node a key maps to carries that key. */
  lemma {:induction false} TitleIndexAfter(books: seq<Book>)
    ensures forall t, j | t in TitleIndex(books) && TitleIndex(books)[t] < j < |books| :: books[j].title != t
  {
    if books != [] {
      var n := |books| - 1;
      var front := books[..n];
      TitleIndexAfter(front);
      var mf := TitleIndex(front);
      var m := TitleIndex(books);
      assert m == mf[books[n].title := n];
      forall t, j | t in m && m[t] < j < |books|
        ensures books[j].title != t
      {
        if t != books[n].title && j < n {
          assert m[t] == mf[t] && books[j] == front[j];
        }
      }
    }
  }

  /**
   * A later duplicate title overwrites an earlier one: node `v` is the one
   * kept for its title exactly when no later book has the same title.
   */
  lemma TitleIndexLast(books: seq<Book>)
    ensures forall v | 0 <= v < |books| :: TitleIndex(books)[books[v].title] == v <==> IsLastWithTitle(books, v)
  {
    TitleIndexTitle(books);
    TitleIndexAfter(books);
    var m := TitleIndex(books);
    forall v | 0 <= v < |books|
      ensures m[books[v].title] == v <==> IsLastWithTitle(books, v)
    {
      var u := m[books[v].title];
      assert books[u].title == books[v].title;
    }
  }

  predicate DistinctTitles(books: seq<Book>)
  {
    forall i, j | 0 <= i < j < |books| :: books[i].title != books[j].title
  }

  /** `order` lists every key of the map exactly once: a possible `HashMap` iteration order. */
  predicate Enumerates(order: seq<string>, keys: set<string>)
  {
    Distinct(order) && (forall j | 0 <= j < |order| :: order[j] in keys) && (forall t | t in keys :: t in order)
  }


  /**
   * What one step of the inner loop adds for outer book `i` and map key `t`
   * (src/graph.rs:20-49): nothing for the book's own title, otherwise an edge
   * from the node the map keeps for book `i`'s title to the node of `t`, when
   * the weight of book `i` against that node's book is positive. A title that
   * is no key (which the loop never visits) adds nothing.
   */
  function Step(books: seq<Book>, i: nat, t: string): seq<Edge>
    requires i < |books|
  {
    var m := TitleIndex(books);
    if t in m && books[i].title != t then
      var w := Similarity(books[i], books[m[t]]);
      if w > 0 then [Edge(m[books[i].title], m[t], w)] else []
    else []
  }

  /** The edges one pass of the inner loop adds for outer book `i`, visiting the keys in `order`. */
  function SourceEdges(books: seq<Book>, i: nat, order: seq<string>): seq<Edge>
    requires i < |books|
  {
    if order == [] then []
    else SourceEdges(books, i, order[..|order| - 1]) + Step(books, i, order[|order| - 1])
  }

  /** The edges after the first `n` passes of the outer loop. */
  function AllEdges(books: seq<Book>, order: seq<string>, n: nat): seq<Edge>
    requires n <= |books|
  {
    if n == 0 then [] else AllEdges(books, order, n - 1) + SourceEdges(books, n - 1, order)
  }

  /** The edge sequence of the finished graph. */
  function BuiltEdges(books: seq<Book>, order: seq<string>): seq<Edge>
  {
    AllEdges(books, order, |books|)
  }

  /**
   * Edge `e` is one that outer book `i` can contribute: it leaves the node the
   * map keeps for book `i`'s title, enters a node the map keeps for another
   * title, and carries book `i`'s positive weight against that node's book.
   */
  predicate EdgeFor(books: seq<Book>, i: nat, e: Edge)
    requires i < |books|
  {
    var m := TitleIndex(books);
    && e.source == m[books[i].title]
    && e.target < |books|
    && m[books[e.target].title] == e.target
    && books[e.target].title != books[i].title
    && e.weight == Similarity(books[i], books[e.target])
    && e.weight > 0
  }

  /**
   * The graph builder (src/graph.rs:6-56). `keyOrder` is the iteration order
   * of the title map.
   */
  method BuildGraph(books: seq<Book>, keyOrder: seq<string>) returns (g: Graph)
    requires Enumerates(keyOrder, TitleIndex(books).Keys)
    ensures g.nodes == books
    ensures g.edges == BuiltEdges(books, keyOrder)
    ensures WellFormed(g)
  {
    var nodes, nodeMap := AddNodes(books);
    var edges := AddEdges(books, nodeMap, keyOrder);
    g := Graph(nodes, edges);
    BuiltGraphWellFormed(books, keyOrder);
  }

  /** The edge loop (src/graph.rs:17-53): one pass of the inner loop per book, in input order. */
  method AddEdges(books: seq<Book>, nodeMap: map<string, nat>, keyOrder: seq<string>) returns (edges: seq<Edge>)
    requires nodeMap == TitleIndex(books)
    requires forall j | 0 <= j < |keyOrder| :: keyOrder[j] in nodeMap
    ensures edges == BuiltEdges(books, keyOrder)
  {
    edges := [];
    var i := 0;
    while i < |books|
      invariant 0 <= i <= |books|
      invariant edges == AllEdges(books, keyOrder, i)
    {
      assert AllEdges(books, keyOrder, i + 1) == edges + SourceEdges(books, i, keyOrder);
      // `node_map.get(&book.title)` always succeeds: every title was inserted by AddNodes.
      edges := AddSourceEdges(books, nodeMap, i, keyOrder, edges);
      i := i + 1;
    }
  }

  /** The node loop (src/graph.rs:11-14): one node per book, in input order, and the title map. */
  method AddNodes(books: seq<Book>) returns (nodes: seq<Book>, nodeMap: map<string, nat>)
    ensures nodes == books
    ensures nodeMap == TitleIndex(books)
  {
    nodes, nodeMap := [], map[];
    var i := 0;
    while i < |books|
      invariant 0 <= i <= |books|
      invariant nodes == books[..i]
      invariant nodeMap == TitleIndex(books[..i])
    {
      assert books[..i + 1][..i] == books[..i];
      assert TitleIndex(books[..i + 1]) == nodeMap[books[i].title := i];
      nodes := nodes + [books[i]];
      nodeMap := nodeMap[books[i].title := i];
      i := i + 1;
    }
    assert books[..|books|] == books;
  }

  /**
   * One pass of the inner loop (src/graph.rs:19-51) for outer book `i`:
   * walks the map in `keyOrder` and appends an edge to every other title
   * whose weight is positive.
   */
  method AddSourceEdges(books: seq<Book>, nodeMap: map<string, nat>, i: nat, keyOrder: seq<string>, edges: seq<Edge>)
    returns (edges': seq<Edge>)
    requires i < |books| && nodeMap == TitleIndex(books)
    requires forall j | 0 <= j < |keyOrder| :: keyOrder[j] in nodeMap
    ensures edges' == edges + SourceEdges(books, i, keyOrder)
  {
    edges' := edges;
    var k := 0;
    while k < |keyOrder|
      invariant 0 <= k <= |keyOrder|
      invariant edges' == edges + SourceEdges(books, i, keyOrder[..k])
    {
      SourceEdgesNext(books, i, keyOrder, k);
      edges' := AddTargetEdge(books, nodeMap, i, keyOrder[k], edges');
      assert edges' == edges + (SourceEdges(books, i, keyOrder[..k]) + Step(books, i, keyOrder[k]));
      k := k + 1;
    }
    assert keyOrder[..|keyOrder|] == keyOrder;
  }

  /**
   * The body of the inner loop (src/graph.rs:19-51) for outer book `i` and
   * map entry `targetTitle`: skips the book's own title, otherwise adds an
   * edge when the accumulated weight is positive.
   */
  method AddTargetEdge(books: seq<Book>, nodeMap: map<string, nat>, i: nat, targetTitle: string, edges: seq<Edge>)
    returns (edges': seq<Edge>)
    requires i < |books| && nodeMap == TitleIndex(books)
    requires targetTitle in nodeMap
    ensures edges' == edges + Step(books, i, targetTitle)
  {
    var book := books[i];
    var source := nodeMap[book.title];
    var target := nodeMap[targetTitle];
    edges' := edges;
    if book.title != targetTitle {
      var weight := PairWeight(book, books[target]);
      if weight > 0 {
        edges' := edges' + [Edge(source, target, weight)];
      }
    }
  }

  /** Extending the visited prefix of `order` by one title appends that title's step. */
  lemma SourceEdgesNext(books: seq<Book>, i: nat, order: seq<string>, k: nat)
    requires i < |books| && k < |order|
    ensures SourceEdges(books, i, order[..k + 1]) == SourceEdges(books, i, order[..k]) + Step(books, i, order[k])
  {
    assert order[..k + 1][..k] == order[..k];
  }

  /**
   * The weight accumulator of src/graph.rs:22-44: starts at zero and adds
   * each satisfied criterion's increment in turn.
   */
  method PairWeight(book: Book, targetBook: Book) returns (weight: nat)
    ensures weight == Similarity(book, targetBook)
  {
    weight := 0;
    if book.authors == targetBook.authors {
      weight := weight + AuthorWeight;
    }
    if AbsReal(book.averageRating - targetBook.averageRating) <= RatingTolerance {
      weight := weight + RatingWeight;
    }
    if book.numPages.Some? && targetBook.numPages.Some? {
      if AbsInt(book.numPages.value as int - targetBook.numPages.value as int) <= PageTolerance {
        weight := weight + PagesWeight;
      }
    }
    if book.publisher == targetBook.publisher {
      weight := weight + PublisherWeight;
    }
  }

  /** Edge `e` is one outer book `i` contributes when the inner loop visits `order`. */
  predicate Contributes(books: seq<Book>, order: seq<string>, i: nat, e: Edge)
  {
    i < |books| && EdgeFor(books, i, e) && books[e.target].title in order
  }

  lemma {:induction false} SourceEdgesMembers(books: seq<Book>, i: nat, order: seq<string>)
    requires i < |books|
    ensures forall e :: e in SourceEdges(books, i, order) <==> Contributes(books, order, i, e)
  {
    if order != [] {
      var front := order[..|order| - 1];
      var t := order[|order| - 1];
      SourceEdgesMembers(books, i, front);
      TitleIndexTitle(books);
      assert order == front + [t];
      forall e
        ensures e in SourceEdges(books, i, order) <==> Contributes(books, order, i, e)
      {
        if Contributes(books, order, i, e) && books[e.target].title == t {
          assert e in Step(books, i, t);
        }
      }
    }
  }

  lemma {:induction false} AllEdgesMembers(books: seq<Book>, order: seq<string>, n: nat)
    requires n <= |books|
    ensures forall e | e in AllEdges(books, order, n) :: exists i :: 0 <= i < n && Contributes(books, order, i, e)
    ensures forall e, i | 0 <= i < n && Contributes(books, order, i, e) :: e in AllEdges(books, order, n)
  {
    if n > 0 {
      AllEdgesMembers(books, order, n - 1);
      SourceEdgesMembers(books, n - 1, order);
      var before := AllEdges(books, order, n - 1);
      var last := SourceEdges(books, n - 1, order);
      assert AllEdges(books, order, n) == before + last;
      forall e | e in before + last
        ensures exists i :: 0 <= i < n && Contributes(books, order, i, e)
      {
        if e !in before {
          assert Contributes(books, order, n - 1, e);
        }
      }
      forall e, i | 0 <= i < n && Contributes(books, order, i, e)
        ensures e in before + last
      {
        if i < n - 1 {
          assert e in before;
        }
      }
    }
  }

  /**
   * Exactly the edges some book can contribute are in the graph, whatever the
   * iteration order of the map.
   */
  lemma {:induction false} BuiltEdgesMembers(books: seq<Book>, order: seq<string>)
    requires Enumerates(order, TitleIndex(books).Keys)
    ensures forall e | e in BuiltEdges(books, order) :: exists i :: 0 <= i < |books| && EdgeFor(books, i, e)
    ensures forall e, i | 0 <= i < |books| && EdgeFor(books, i, e) :: e in BuiltEdges(books, order)
  {
    AllEdgesMembers(books, order, |books|);
    forall e, i | 0 <= i < |books| && EdgeFor(books, i, e)
      ensures e in BuiltEdges(books, order)
    {
      assert Contributes(books, order, i, e);
    }
  }

  /** Every edge of the built graph joins two of its nodes. */
  lemma BuiltGraphWellFormed(books: seq<Book>, order: seq<string>)
    requires Enumerates(order, TitleIndex(books).Keys)
    ensures WellFormed(Graph(books, BuiltEdges(books, order)))
  {
    BuiltEdgesMembers(books, order);
  }
}
