/**
 * The pairwise similarity rule of `build_graph` (src/graph.rs:22-44):
 * four independent criteria, each adding a fixed increment to the weight.
 *
 * Weights are kept in integer tenths, so the source's increments
 * 0.1, 1.0, 0.5 and 0.2 become 1, 10, 5 and 2.
 */
module SimilarityRule {
  import opened Wrappers
  import opened Dataprep

  const AuthorWeight: nat := 1      // shared authors: 0.1
  const RatingWeight: nat := 10     // similar average rating: 1.0
  const PagesWeight: nat := 5       // similar number of pages: 0.5
  const PublisherWeight: nat := 2   // same publisher: 0.2

  const RatingTolerance: real := 0.5
  const PageTolerance: nat := 50

  /** Which of the four criteria hold for a pair of books. */
  datatype Criteria = Criteria(sharedAuthors: bool, closeRating: bool, closePages: bool, samePublisher: bool)

  function AbsReal(x: real): real { if x < 0.0 then -x else x }
  function AbsInt(x: int): nat { if x < 0 then -x else x }

  predicate SharedAuthors(a: Book, b: Book) { a.authors == b.authors }

  predicate CloseRating(a: Book, b: Book) { AbsReal(a.averageRating - b.averageRating) <= RatingTolerance }

  /** Only books whose page counts are both known can be close in length. */
  predicate ClosePages(a: Book, b: Book)
  {
    match (a.numPages, b.numPages)
    case (Some(p1), Some(p2)) => AbsInt(p1 as int - p2 as int) <= PageTolerance
    case _ => false
  }

  predicate SamePublisher(a: Book, b: Book) { a.publisher == b.publisher }

  function Compare(a: Book, b: Book): Criteria
  {
    Criteria(SharedAuthors(a, b), CloseRating(a, b), ClosePages(a, b), SamePublisher(a, b))
  }

  predicate AnyCriterion(c: Criteria)
  {
    c.sharedAuthors || c.closeRating || c.closePages || c.samePublisher
  }

  /** The weight a set of satisfied criteria contributes: the sum of their increments. */
  function Weight(c: Criteria): (w: nat)
    ensures w <= AuthorWeight + RatingWeight + PagesWeight + PublisherWeight
    ensures w > 0 <==> AnyCriterion(c)
  {
    (if c.sharedAuthors then AuthorWeight else 0)
    + (if c.closeRating then RatingWeight else 0)
    + (if c.closePages then PagesWeight else 0)
    + (if c.samePublisher then PublisherWeight else 0)
  }

  /** The similarity weight `build_graph` computes for a source book and a target book. */
  function Similarity(a: Book, b: Book): nat
  {
    Weight(Compare(a, b))
  }

  /**
   * Recovers the criteria from a weight, largest increment first;
   * `None` when the weight is no sum of distinct increments.
   */
  function Decode(w: nat): (r: Option<Criteria>)
    ensures r.Some? ==> Weight(r.value) == w
  {
    var rating := w >= RatingWeight;
    var w1 := if rating then w - RatingWeight else w;
    var pages := w1 >= PagesWeight;
    var w2 := if pages then w1 - PagesWeight else w1;
    var publisher := w2 >= PublisherWeight;
    var w3 := if publisher then w2 - PublisherWeight else w2;
    var authors := w3 >= AuthorWeight;
    var w4 := if authors then w3 - AuthorWeight else w3;
    if w4 == 0 && w1 < RatingWeight && w2 < PagesWeight && w3 < PublisherWeight
    then Some(Criteria(authors, rating, pages, publisher))
    else None
  }

  /**
   * Every weight is the sum of exactly one subset of the increments:
   * decoding a weight gives back the criteria it was built from.
   */
  lemma DecodeWeight(c: Criteria)
    ensures Decode(Weight(c)) == Some(c)
  {
  }

  /** Every criterion is symmetric, so the weight does not depend on which book is the source. */
  lemma SimilaritySymmetric(a: Book, b: Book)
    ensures Compare(a, b) == Compare(b, a)
    ensures Similarity(a, b) == Similarity(b, a)
  {
  }

  /** A pair on which every criterion fails has weight zero, and so gets no edge. */
  lemma NoCriterionNoWeight(a: Book, b: Book)
    ensures Similarity(a, b) == 0 <==> !SharedAuthors(a, b) && !CloseRating(a, b) && !ClosePages(a, b) && !SamePublisher(a, b)
  {
  }

  /**
   * The page criterion contributes only when both page counts are present and
   * within the tolerance; forgetting either page count removes exactly that
   * contribution and leaves the other criteria as they were.
   */
  lemma PagesContribution(a: Book, b: Book)
    ensures ClosePages(a, b) ==> a.numPages.Some? && b.numPages.Some?
    ensures Similarity(a, b) == Similarity(a.(numPages := None), b) + (if ClosePages(a, b) then PagesWeight else 0)
    ensures Similarity(a, b) == Similarity(a, b.(numPages := None)) + (if ClosePages(a, b) then PagesWeight else 0)
  {
  }
}
