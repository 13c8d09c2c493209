/** Concrete request sequences on small catalogs, stating what the
    controller answers for each. */
module Scenarios {
  import opened Optional
  import opened Books
  import opened BookStore
  import opened BooksController

  const Dune := Book(0, Some("Dune"), Some("Herbert"), 15.99)

  /** Creating "Dune" by Herbert in an empty catalog stores it under the new
      key; creating the same pair again at another price is a duplicate. */
  lemma CreateThenDuplicate()
    ensures Create(map[], Dune, 1) == Response(RedirectToIndex, map[1 := Dune.(id := 1)])
    ensures Create(map[1 := Dune.(id := 1)], Dune.(price := 9.5), 2)
            == Response(Duplicate(DuplicateOnCreate), map[1 := Dune.(id := 1)])
  {
  }

  /** A blank Title fails validation with exactly the Required error. */
  lemma BlankTitleIsInvalid()
    ensures Create(map[], Dune.(title := Some("   ")), 1)
            == Response(Invalid({TitleRequired}), map[])
  {
  }

  /** A route id that differs from the posted Id is `NotFound`, even for an
      invalid book. */
  lemma MismatchedIdIsNotFound()
    ensures Edit(map[1 := Dune.(id := 1)], 1, Dune.(id := 2, price := -1.0), false)
            == Response(NotFound, map[1 := Dune.(id := 1)])
  {
  }

  /** Editing a book that no row has is answered with the "deleted by
      another user" conflict, not with `NotFound`: the action has no
      existence check of its own before the update. */
  lemma EditOfAbsentRowIsDeletedConflict()
    ensures Edit(map[], 5, Dune.(id := 5), false)
            == Response(Conflict(Deleted, DeletedByAnotherUser), map[])
  {
  }

  /** Deleting an id that never existed redirects and changes nothing. */
  lemma DeleteOfAbsentRowIsNoOp()
    ensures DeleteConfirmed(map[1 := Dune.(id := 1)], 99) == Response(RedirectToIndex, map[1 := Dune.(id := 1)])
  {
  }

  /** Editing a stored book to a new price under its own Id saves it and
      redirects; when the store reports a conflict for that row instead,
      the answer is the "modified by another user" message and nothing
      changes. */
  lemma EditOfStoredRow()
    ensures Edit(map[1 := Dune.(id := 1)], 1, Dune.(id := 1, price := 20.0), false)
            == Response(RedirectToIndex, map[1 := Dune.(id := 1, price := 20.0)])
    ensures Edit(map[1 := Dune.(id := 1)], 1, Dune.(id := 1, price := 20.0), true)
            == Response(Conflict(Modified, ModifiedByAnotherUser), map[1 := Dune.(id := 1)])
  {
  }
}
