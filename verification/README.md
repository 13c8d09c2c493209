# BookStoreApp: the Book record lifecycle, in Dafny

This project models the decisions `BooksController` makes about `Book`
records in the BookStoreApp catalog. It also models the validity that the
`Book` entity declares through its data annotations. The `Books` table is a
finite map from the Id column to the row (`BookStore.Store`). Each POST action
is a pure function from the store before the request to a `Response`: the
`Outcome` shown to the user and the store after the request.

- `Books` (book.dfy) covers `Book.cs`. It defines the entity and the checks made by
  `[Required]`, `[StringLength(200)]` and `[Range(0, 100000)]`. `Valid` combines
  them, and `Violations` gives the set of failed annotations.
  `Required` rejects null and any string made only of `char.IsWhiteSpace`
  characters, using the full documented whitespace list. `StringLength`
  counts UTF-16 code units, just as `string.Length` does.
- `BookStore` (store.dfy) defines the queries the controller sends to the table
  (the two duplicate queries and the `stillExists` re-check after an update
  conflict, written `BookExists` after the helper of the same name, which no
  action calls) and the catalog invariant
  `Consistent`. The invariant says rows are keyed by their Id, every row is
  valid, and no two rows share (Title, Author).
- `BooksController` (books_controller.dfy) covers `Index`, the not-found guard
  of the GET actions, `Create`, `Edit`, `DeleteConfirmed`, and a `Run` over
  request sequences. The lemmas show that each action keeps the invariant.
- `Scenarios` (scenarios.dfy) works through concrete requests on small
  catalogs.

Outcomes: `Invalid(violations)`, `Duplicate(message)`, `NotFound`,
`Conflict(Deleted|Modified, message)` and `RedirectToIndex`. The four
user-facing messages are the literal strings of the controller.

An Edit POST for an id that no row has, with matching ids and a valid,
non-duplicate book, is not answered with NotFound. The action has no
existence check before `_context.Update`. The update affects no row, the
framework raises its concurrency exception, and the handler then answers
"This record was deleted by another user." (see
`Scenarios.EditOfAbsentRowIsDeletedConflict`). `Book` has no concurrency
token, so the store raises that exception only when the row is missing.
The `Modified` message can therefore appear only if the store reports a
conflict on a row that is still there. The `raced` input of `Edit` stands
for that report.

## Model

| member | source | states |
|---|---|---|
| `Books.AllWhiteSpace` | BookStoreApp/Models/Book.cs:9-13 | the blank-string test used by `[Required]` holds exactly when every character is `char.IsWhiteSpace` (so also for the empty string) |
| `Books.Utf16Length` | BookStoreApp/Models/Book.cs:9-13 | the length `[StringLength]` compares is between the number of characters and twice it, and equals it exactly when no character lies outside the Basic Multilingual Plane; the exact value is fixed by `Books.OneCharUtf16Length` and `Books.Utf16LengthAppend` |
| `Books.OneCharUtf16Length` | BookStoreApp/Models/Book.cs:9-13 | one character has .NET length 1 inside the Basic Multilingual Plane and 2 outside it |
| `Books.Utf16LengthAppend` | BookStoreApp/Models/Book.cs:9-13 | the .NET length of a concatenation is the sum of the lengths, so a string's length is its character count plus its number of characters outside the Basic Multilingual Plane |
| `Books.Violations` | BookStoreApp/Models/Book.cs:7-17 | the set of failed annotations is empty iff the book is valid; TitleRequired is reported iff the Title is null or all whitespace, TitleTooLong iff it is present and longer than 200 UTF-16 units, likewise for Author; PriceOutOfRange iff the price is outside [0, 100000] |
| `Books.RequiredAndLength` | BookStoreApp/Models/Book.cs:9-13 | a field passing `[Required, StringLength(max)]` is present, non-empty, has a non-blank character and has at most `max` characters; for BMP text the converse holds too |
| `Books.ValidMeans` | BookStoreApp/Models/Book.cs:7-17 | a valid book has present, non-blank Title and Author of at most 200 characters and a price in [0, 100000]; validity does not depend on Id |
| `BookStore.BookExistsIsMembership` | BookStoreApp/Controllers/BooksController.cs:102 | in a table keyed by its Id column, the query "some row's Id is `id`" holds iff a row is stored under `id` |
| `BookStore.OwnPairIsNoDuplicate` | BookStoreApp/Controllers/BooksController.cs:85-86 | in a keyed store with unique pairs, the edit-time query (another row's Id column differs) never reports a book's own stored Title and Author, while the create-time query does report that pair |
| `BooksController.Index` | BookStoreApp/Controllers/BooksController.cs:20-24 | the list has as many entries as the store has rows, every entry is a stored book and every stored book is listed |
| `BooksController.Details` | BookStoreApp/Controllers/BooksController.cs:27-38 | a missing route id or an id not stored as a key gives NotFound, and in a well-keyed store that is exactly when no row's Id column holds it; otherwise the row under that id is shown, and in a well-keyed store its Id is the route id (the same guard as the GET actions at lines 66-74 and 113-124) |
| `BooksController.Create` | BookStoreApp/Controllers/BooksController.cs:46-63 | an invalid book redisplays the form with its violations and leaves the store unchanged; a valid book is a duplicate with "This book already exists." iff some row has its Title and Author; otherwise exactly one row is added under the new key and every existing row is unchanged |
| `BooksController.Edit` | BookStoreApp/Controllers/BooksController.cs:79-110 | a route id different from the posted Id gives NotFound before validation and leaves the store unchanged; invalid iff ids match and the book is invalid; duplicate iff a row whose Id column differs has the same Title and Author; a conflict iff the store reports one or the row is missing, with "deleted by another user" iff no row has the Id and "modified by another user" otherwise; it succeeds and redirects iff the ids match, the book is valid, no other row has its pair, no conflict is reported and the row exists; a success replaces only that row, keeps its Id, and leaves the key set and all other rows unchanged; every failure leaves the store unchanged |
| `BooksController.DeleteConfirmed` | BookStoreApp/Controllers/BooksController.cs:129-138 | always redirects; the row with that id is gone afterwards, every other row is untouched, and an absent id changes nothing |
| `BooksController.CreatePreservesConsistency` | BookStoreApp/Controllers/BooksController.cs:48-62 | Create keeps the catalog invariant: rows keyed by Id, all valid, no two sharing (Title, Author) |
| `BooksController.EditPreservesConsistency` | BookStoreApp/Controllers/BooksController.cs:81-109 | Edit keeps the catalog invariant in every branch |
| `BooksController.DeletePreservesConsistency` | BookStoreApp/Controllers/BooksController.cs:129-137 | DeleteConfirmed keeps the catalog invariant |
| `BooksController.EditKeepingPairIsNoDuplicate` | BookStoreApp/Controllers/BooksController.cs:85-91 | in a consistent store, saving a book under its own Id with its own stored Title and Author is never rejected as a duplicate |
| `BooksController.DeleteIsIdempotent` | BookStoreApp/Controllers/BooksController.cs:129-137 | deleting the same id twice gives the same response and store as deleting it once |
| `BooksController.RunPreservesConsistency` | BookStoreApp/Controllers/BooksController.cs:46-138 | any sequence of Create, Edit and Delete requests, each create handed an unused key, keeps the catalog invariant, so no two books ever share Title and Author |
| `Scenarios.CreateThenDuplicate` | BookStoreApp/Controllers/BooksController.cs:50-62 | creating "Dune" by "Herbert" in an empty catalog stores it under the new key; creating the same pair again at another price is rejected with "This book already exists." |
| `Scenarios.BlankTitleIsInvalid` | BookStoreApp/Models/Book.cs:9-10 | a whitespace-only Title fails with exactly the Required violation and nothing is stored |
| `Scenarios.MismatchedIdIsNotFound` | BookStoreApp/Controllers/BooksController.cs:81 | an id mismatch is NotFound even for a book that would fail validation |
| `Scenarios.EditOfAbsentRowIsDeletedConflict` | BookStoreApp/Controllers/BooksController.cs:93-106 | editing an id no row has ends in the "deleted by another user" conflict, with the store unchanged |
| `Scenarios.DeleteOfAbsentRowIsNoOp` | BookStoreApp/Controllers/BooksController.cs:131-137 | deleting an id that no row has redirects and changes nothing |
| `Scenarios.EditOfStoredRow` | BookStoreApp/Controllers/BooksController.cs:93-108 | editing a stored book's price under its own Id saves the new row and redirects; when the store reports a conflict and the row still exists, the answer is "modified by another user" and the store is unchanged |

## Left out

- Views, `RedirectToAction`, `[Bind]` model binding, anti-forgery tokens and `ModelState` are not modelled. A bound book's model state is `Books.Valid`, and a form value that fails to bind (for example a non-numeric price) is not modelled.
- EF Core, `DbContext`/`DbSet` and async I/O are replaced by the map `Store`. `Data/AppDBContext.cs` is not part of this model.
- `BooksController.Create`: the database assigns the new Id. The model takes the key as the input `newId`, required to be unused, and ignores the Id posted with the form. A posted non-zero Id reaching an identity column is not modelled.
- `BooksController.Edit`: the framework tracks an entity whose key is the default 0 as new, so `Update` would insert it. The model treats an Edit of Id 0 like any other Id.
- `BooksController.Edit`: it does not model how the store detects a conflict, or the race between the duplicate check and the write. The input `raced` stands for a conflict reported on a row that still exists. The existence re-check reads the same store.
- `Books.ValidMeans`: the price bound is stated exactly on a `real`. `[Range(0, 100000)]` with integer operands first converts the decimal to `int` with rounding, which lets prices just outside the bounds through (such as 100000.4). That rounding is not modelled. The 28-digit precision of `decimal` is not modelled either. A price outside the `int` range (such as 3000000000) makes that conversion throw, so the source ends in an unhandled exception where the model reports `PriceOutOfRange`.
- `Books.Violations`: each annotation is checked on its own and every failure is reported. The framework's message texts for Required and StringLength are its defaults, written out as `Books.Message` for reference; `Invalid` carries the violations, not these texts.
- `Books.Utf16Length`: .NET strings may hold unpaired UTF-16 surrogates, which a Dafny `char` cannot represent.
- `BookStore.SameTitleAndAuthor`: the duplicate queries are evaluated by the database. The model chooses exact character-by-character equality. A collation that ignores case, and the padding rule that ignores trailing spaces in comparisons, are not modelled.
