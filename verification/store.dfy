/** The `Books` table seen as a finite map from the Id column to the row.
    The predicates here are the queries the controller sends to it and the
    invariants the catalog is meant to keep. */
module BookStore {
  import opened Books

  type Store = map<Int32, Book>

  /** Every row's Id field is the key it is stored under. */
  ghost predicate WellKeyed(store: Store)
  {
    forall k :: k in store ==> store[k].id == k
  }

  /** Equal (Title, Author) pair. The controller's queries are evaluated by
      the database; the model chooses exact character-by-character equality. */
  predicate SameTitleAndAuthor(a: Book, b: Book)
  {
    a.title == b.title && a.author == b.author
  }

  /** No two stored books share their (Title, Author) pair. */
  ghost predicate UniqueTitleAndAuthor(store: Store)
  {
    forall j, k :: j in store && k in store && j != k ==> !SameTitleAndAuthor(store[j], store[k])
  }

  /** Every stored book passes the entity's validation. */
  ghost predicate AllValid(store: Store)
  {
    forall k :: k in store ==> Valid(store[k])
  }

  /** The catalog invariant: rows are keyed by their Id, valid, and unique by
      (Title, Author). */
  ghost predicate Consistent(store: Store)
  {
    WellKeyed(store) && AllValid(store) && UniqueTitleAndAuthor(store)
  }

  /** `BookExists`, and the `stillExists` query after an update conflict:
      some row's Id column holds this Id. */
  predicate BookExists(store: Store, id: Int32)
  {
    exists k :: k in store && store[k].id == id
  }

  /** The create-time duplicate query: some row has the candidate's Title
      and Author. */
  predicate AnyWithTitleAndAuthor(store: Store, book: Book)
  {
    exists k :: k in store && SameTitleAndAuthor(store[k], book)
  }

  /** The edit-time duplicate query: some row with a different Id has the
      candidate's Title and Author. */
  predicate AnyOtherWithTitleAndAuthor(store: Store, book: Book)
  {
    exists k :: k in store && store[k].id != book.id && SameTitleAndAuthor(store[k], book)
  }

  /** In a table keyed by its Id column, asking whether some row's Id is
      `id` is the same as asking whether a row is stored under `id`. */
  lemma BookExistsIsMembership(store: Store, id: Int32)
    requires WellKeyed(store)
    ensures BookExists(store, id) <==> id in store
  {
  }

  /** In a keyed store with unique pairs, the edit-time query never reports
      a book's own stored Title and Author as a duplicate, although the
      create-time query does report that pair as taken. */
  lemma OwnPairIsNoDuplicate(store: Store, book: Book)
    requires WellKeyed(store) && UniqueTitleAndAuthor(store)
    requires book.id in store && SameTitleAndAuthor(store[book.id], book)
    ensures !AnyOtherWithTitleAndAuthor(store, book)
    ensures AnyWithTitleAndAuthor(store, book)
  {
  }
}
