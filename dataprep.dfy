/**
 * The book record handed to the graph builder by the CSV loader
 * (src/dataprep.rs). Only the record's shape is modelled: reading and
 * deserialising the file is not.
 */
module Dataprep {
  import opened Wrappers

  /** One row of the dataset. `Option` fields are the columns that may be missing. */
  datatype Book = Book(
    bookId: Option<nat>,
    title: string,
    authors: string,
    averageRating: real,
    isbn: string,
    isbn13: string,
    languageCode: Option<string>,
    numPages: Option<nat>,
    ratingsCount: nat,
    textReviewsCount: nat,
    publicationDate: Option<string>,
    publisher: string
  )

  /**
   * A book with the given similarity-relevant attributes and every other
   * field at the value a derived `Default` would give (None, "", 0). The
   * tests write `..Default::default()`, but `Book` derives only `Debug` and
   * `Deserialize` (src/dataprep.rs:7), so these defaults are the model's own.
   */
  function MakeBook(title: string, authors: string, rating: real, pages: Option<nat>, publisher: string): Book
  {
    Book(None, title, authors, rating, "", "", None, pages, 0, 0, None, publisher)
  }
}
