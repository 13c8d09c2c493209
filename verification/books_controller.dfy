/** The decisions `BooksController` takes on top of the store: listing,
    the not-found guards of the GET actions, and the POST actions Create,
    Edit and DeleteConfirmed, each as a pure step from the store before the
    request to the response and the store after it. */
module BooksController {
  import opened Optional
  import opened Books
  import opened BookStore

  const DuplicateOnCreate := "This book already exists."
  const DuplicateOnEdit := "Another book with the same Title and Author already exists."
  const DeletedByAnotherUser := "This record was deleted by another user."
  const ModifiedByAnotherUser := "This record was modified by another user. Please refresh and try again."

  /** Which message the update-conflict handler chose. */
  datatype ConflictKind = Deleted | Modified

  /** What a POST action answers. Every outcome but `NotFound` and
      `RedirectToIndex` redisplays the form with a model-state error. */
  datatype Outcome =
    | Invalid(violations: set<Violation>)
    | Duplicate(message: string)
    | NotFound
    | Conflict(kind: ConflictKind, message: string)
    | RedirectToIndex

  datatype Response = Response(outcome: Outcome, store: Store)

  /** What a GET action that shows one book answers. */
  datatype Page = Shown(book: Book) | Missing

  /** `Index`: every stored book, once each, in the store's own order. */
  method Index(store: Store) returns (books: seq<Book>)
    ensures |books| == |store|
    ensures forall i :: 0 <= i < |books| ==> books[i] in store.Values
    ensures forall k :: k in store ==> store[k] in books
  {
    books := [];
    var pending := store.Keys;
    while pending != {}
      invariant pending <= store.Keys
      invariant |books| + |pending| == |store|
      invariant forall i :: 0 <= i < |books| ==> books[i] in store.Values
      invariant forall k :: k in store && k !in pending ==> store[k] in books
      decreases |pending|
    {
      var k :| k in pending;
      books := books + [store[k]];
      pending := pending - {k};
    }
  }

  /** The guard shared by `Details`, `Edit` (GET) and `Delete` (GET): a
      missing route id or an id no row has is `NotFound`; otherwise the row
      is shown. */
  function Details(store: Store, id: Option<Int32>): (r: Page)
    ensures r.Missing? <==> id.None? || id.value !in store
    ensures WellKeyed(store) ==> (r.Missing? <==> id.None? || !BookExists(store, id.value))
    ensures r.Shown? ==> id.value in store && r.book == store[id.value]
    ensures r.Shown? && WellKeyed(store) ==> r.book.id == id.value
  {
    match id
    case None => Missing
    case Some(i) => if i in store then Shown(store[i]) else Missing
  }

  /** `Create` (POST). The store assigns the new row the key `newId`; the Id
      posted with the form is not used. */
  function Create(store: Store, book: Book, newId: Int32): (r: Response)
    requires newId !in store
    ensures !Valid(book) ==> r == Response(Invalid(Violations(book)), store)
    ensures r.outcome.Duplicate? <==>
              Valid(book) && exists k :: k in store && store[k].title == book.title && store[k].author == book.author
    ensures r.outcome.Duplicate? ==> r.outcome.message == DuplicateOnCreate
    ensures r.outcome.RedirectToIndex? <==>
              Valid(book) && forall k :: k in store ==> store[k].title != book.title || store[k].author != book.author
    ensures r.outcome.RedirectToIndex? ==>
              && r.store.Keys == store.Keys + {newId}
              && (forall k :: k in store ==> r.store[k] == store[k])
              && r.store[newId] == Book(newId, book.title, book.author, book.price)
    ensures !r.outcome.RedirectToIndex? ==> r.store == store
  {
    if !Valid(book) then
      Response(Invalid(Violations(book)), store)
    else if AnyWithTitleAndAuthor(store, book) then
      Response(Duplicate(DuplicateOnCreate), store)
    else
      Response(RedirectToIndex, store[newId := book.(id := newId)])
  }

  /** `Edit` (POST) for route id `id`. `raced` says whether the store reports
      a concurrency conflict although the row is still there; a row that is
      not there always fails the update, since it affects no row. */
  function Edit(store: Store, id: Int32, book: Book, raced: bool): (r: Response)
    ensures id != book.id ==> r == Response(NotFound, store)
    ensures r.outcome.Invalid? <==> id == book.id && !Valid(book)
    ensures r.outcome.Invalid? ==> r.outcome.violations == Violations(book) != {}
    ensures r.outcome.Duplicate? <==>
              && id == book.id && Valid(book)
              && exists k :: k in store && store[k].id != id && store[k].title == book.title && store[k].author == book.author
    ensures r.outcome.Duplicate? ==> r.outcome.message == DuplicateOnEdit
    ensures r.outcome.Conflict? <==>
              && id == book.id && Valid(book) && !AnyOtherWithTitleAndAuthor(store, book)
              && (raced || id !in store)
    ensures r.outcome.Conflict? ==>
              && (r.outcome.kind == Deleted <==> !BookExists(store, id))
              && (r.outcome.message == DeletedByAnotherUser <==> !BookExists(store, id))
              && (r.outcome.message == ModifiedByAnotherUser <==> BookExists(store, id))
    ensures r.outcome.RedirectToIndex? <==>
              && id == book.id && Valid(book) && !AnyOtherWithTitleAndAuthor(store, book)
              && !raced && id in store
    ensures r.outcome.RedirectToIndex? ==>
              && id in store
              && r.store.Keys == store.Keys
              && r.store[id] == book && r.store[id].id == id
              && (forall k :: k in store && k != id ==> r.store[k] == store[k])
    ensures !r.outcome.RedirectToIndex? ==> r.store == store
  {
    if id != book.id then
      Response(NotFound, store)
    else if !Valid(book) then
      Response(Invalid(Violations(book)), store)
    else if AnyOtherWithTitleAndAuthor(store, book) then
      Response(Duplicate(DuplicateOnEdit), store)
    else if raced || book.id !in store then
      if !BookExists(store, book.id) then
        Response(Conflict(Deleted, DeletedByAnotherUser), store)
      else
        Response(Conflict(Modified, ModifiedByAnotherUser), store)
    else
      Response(RedirectToIndex, store[book.id := book])
  }

  /** `DeleteConfirmed` (POST): the row goes if it is there, nothing happens
      if it is not, and the answer is always the redirect. */
  function DeleteConfirmed(store: Store, id: Int32): (r: Response)
    ensures r.outcome == RedirectToIndex
    ensures r.store.Keys == store.Keys - {id}
    ensures forall k :: k in r.store ==> r.store[k] == store[k]
    ensures id !in store ==> r.store == store
  {
    if id in store then Response(RedirectToIndex, store - {id})
    else Response(RedirectToIndex, store)
  }

  /** A rejected Create leaves the store as it was; a successful one keeps
      the catalog consistent. */
  lemma CreatePreservesConsistency(store: Store, book: Book, newId: Int32)
    requires Consistent(store) && newId !in store
    ensures Consistent(Create(store, book, newId).store)
  {
  }

  lemma EditPreservesConsistency(store: Store, id: Int32, book: Book, raced: bool)
    requires Consistent(store)
    ensures Consistent(Edit(store, id, book, raced).store)
  {
  }

  lemma DeletePreservesConsistency(store: Store, id: Int32)
    requires Consistent(store)
    ensures Consistent(DeleteConfirmed(store, id).store)
  {
  }

  /** Saving a book with its own stored Title and Author is never rejected
      as a duplicate. */
  lemma EditKeepingPairIsNoDuplicate(store: Store, book: Book, raced: bool)
    requires Consistent(store)
    requires book.id in store && SameTitleAndAuthor(store[book.id], book)
    ensures !Edit(store, book.id, book, raced).outcome.Duplicate?
  {
  }

  /** Deleting twice is deleting once, and the second call still redirects. */
  lemma DeleteIsIdempotent(store: Store, id: Int32)
    ensures DeleteConfirmed(DeleteConfirmed(store, id).store, id) == DeleteConfirmed(store, id)
  {
  }

  /** One POST request, with the facts from outside the controller that
      decide it: the key the store hands a new row, and whether the update
      of an existing row was reported as a conflict. */
  datatype Request =
    | PostCreate(book: Book, newId: Int32)
    | PostEdit(id: Int32, book: Book, raced: bool)
    | PostDelete(id: Int32)

  /** The key a create request is handed is not yet in use. */
  predicate Admissible(store: Store, req: Request)
  {
    req.PostCreate? ==> req.newId !in store
  }

  function Step(store: Store, req: Request): (r: Response)
    requires Admissible(store, req)
    ensures r.outcome.RedirectToIndex? || r.store == store
  {
    match req
    case PostCreate(book, newId) => Create(store, book, newId)
    case PostEdit(id, book, raced) => Edit(store, id, book, raced)
    case PostDelete(id) => DeleteConfirmed(store, id)
  }

  /** Every create request of the sequence is handed a key that is free at
      the moment it is served. */
  predicate AdmissibleRun(store: Store, reqs: seq<Request>)
    decreases |reqs|
  {
    |reqs| == 0 ||
    (Admissible(store, reqs[0]) && AdmissibleRun(Step(store, reqs[0]).store, reqs[1..]))
  }

  /** Serves the requests one after the other. */
  function Run(store: Store, reqs: seq<Request>): (final: Store)
    requires AdmissibleRun(store, reqs)
    decreases |reqs|
  {
    if |reqs| == 0 then store
    else Run(Step(store, reqs[0]).store, reqs[1..])
  }

  /** The catalog invariant holds after any sequence of requests that held
      it at the start: no two books ever share Title and Author. */
  lemma {:induction false} RunPreservesConsistency(store: Store, reqs: seq<Request>)
    requires Consistent(store) && AdmissibleRun(store, reqs)
    ensures Consistent(Run(store, reqs))
    ensures UniqueTitleAndAuthor(Run(store, reqs))
    decreases |reqs|
  {
    if |reqs| > 0 {
      var next := Step(store, reqs[0]).store;
      match reqs[0] {
        case PostCreate(book, newId) => CreatePreservesConsistency(store, book, newId);
        case PostEdit(id, book, raced) => EditPreservesConsistency(store, id, book, raced);
        case PostDelete(id) => DeletePreservesConsistency(store, id);
      }
      RunPreservesConsistency(next, reqs[1..]);
    }
  }
}
