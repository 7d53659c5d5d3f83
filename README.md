# Bookstore API: a Dafny model

This project models the core of a small CRUD backend for a bookstore. The backend is written in
C# on ASP.NET Core with Entity Framework Core. The model covers four layers:

- **Entities** (`entities.dfy`): the classes `Author`, `Genre` and `Book`. Each refuses a null,
  empty or whitespace-only name when it is built and when it is renamed or updated. A refused
  update leaves the object exactly as it was, and `id` is a `const`.
- **Store** (`data.dfy`): `BookstoreDbContext` holds three tables, each a map from `Guid` to a
  row value. The model constraints that `OnModelCreating` declares become checks and invariants:
  - primary keys;
  - the maximum lengths 200, 100, 500 and 2000;
  - required names;
  - the two foreign keys of a book, each with restrict-on-delete.

  `SaveChanges` commits one pending change all-or-nothing. A change that breaks a constraint
  fails with a `DbUpdateException` and writes nothing. `Commit` on a store value says which
  changes the database accepts. Lemmas show that it accepts exactly the changes that keep the
  schema, and that the store invariant is preserved.
- **Repositories** (`repositories.dfy`): the author, genre and book repositories as map
  operations on the context.
  - Create inserts and Update overwrites, each through `SaveChanges`.
  - Delete removes the row if present and does nothing otherwise.
  - Every read materialises fresh entity objects from the rows.
  - Book reads also attach freshly loaded `Author` and `Genre` objects (the join).
- **Controllers** (`authors_controller.dfy`, `genres_controller.dfy`, `books_controller.dfy`):
  the five handlers of each controller as methods returning a tagged `ActionResult`.
  - `ModelState.IsValid` is a boolean input and is checked first.
  - Then comes the lookup (404), then the Genre-only has-books guard (400), then the entity
    mutation and the save.
  - An exception the handler does not catch becomes `Unhandled(e)`.
- **Envelope** (`common.dfy`): `ApiResponse`, `ApiResponse<T>` and their constructors.

`wrappers.dfy` holds `Option`, `Result` and `Outcome`. `platform.dfy` holds what the model takes
from .NET:
- `Guid`, as a 128-bit value;
- `string.IsNullOrWhiteSpace`, over the characters `char.IsWhiteSpace` accepts;
- the two exception types.

`dtos.dfy` holds the request and response records. `scenarios.dfy` strings the operations
together as the repository tests do (create then find, rename then find, delete then find). It
also walks a create, read, delete, read sequence through the genre endpoints.

Inputs the source draws from its environment are parameters of the model:
- `freshId` for `Guid.NewGuid()`, required not to be a key already;
- `modelValid` for the framework's payload validation.

## Model

| member | source | states |
|---|---|---|
| Entities.Author.New | Bookstore.Domain/Entities/Author.cs:5-13 | fails with ArgumentException("Name is required", "name") iff the name is null or whitespace; otherwise a fresh, valid author with the new id, exactly that name and no books |
| Entities.Author.UpdateName | Bookstore.Domain/Entities/Author.cs:16-20 | succeeds iff the name has text; only `name` may change (id and books are outside the frame); on failure the name is the old one, on success the new one; validity is kept |
| Entities.Author.Load | Bookstore.Domain/Entities/Author.cs:15 | the author as the store materialises it through the protected constructor: exactly the stored id and name, no books loaded |
| Entities.RenamedIdempotent | Bookstore.Domain/Entities/Author.cs:16-20 | renaming twice with the same argument leaves the same name as renaming once |
| Entities.RenamedHasText | Bookstore.Domain/Entities/Genre.cs:16-20 | a rename, accepted or refused, never leaves a blank name behind |
| Entities.Genre.New | Bookstore.Domain/Entities/Genre.cs:5-13 | fails iff the name is null or whitespace; otherwise a fresh, valid genre with exactly that name and no books |
| Entities.Genre.UpdateName | Bookstore.Domain/Entities/Genre.cs:16-20 | succeeds iff the name has text; changes only `name`; a refused rename changes nothing |
| Entities.Genre.Load | Bookstore.Domain/Entities/Genre.cs:15 | the genre as the store materialises it: exactly the stored id and name, no books loaded |
| Entities.Book.New | Bookstore.Domain/Entities/Book.cs:17-24 | fails with ArgumentException("Nome is required", "name") iff the name is blank; otherwise stores name, ids and description as given (description defaults to null), ids unchecked, navigations null |
| Entities.Book.Update | Bookstore.Domain/Entities/Book.cs:28-35 | succeeds iff the name has text; on failure none of the four fields changes, on success all four are overwritten; id and navigations are outside the frame |
| Entities.Book.Load | Bookstore.Domain/Entities/Book.cs:26 | the book as the store materialises it: exactly the stored fields, with whatever Author and Genre the query attaches |
| Data.CommitAdmitsExactlySchema | Bookstore.Infrastructure/Data/BookstoreDbContext.cs:18-35 | on a store within the schema, a change commits iff its key condition holds and the resulting tables still meet every length and foreign-key constraint |
| Data.CommitKeepsConsistent | Bookstore.Infrastructure/Data/BookstoreDbContext.cs:18-35 | a committed change with named rows keeps the store invariant (schema plus names present) |
| Data.RestrictOnDelete | Bookstore.Infrastructure/Data/BookstoreDbContext.cs:33-34 | removing an author or genre that some book refers to is refused with StillReferenced |
| Data.KeysAreUnique | Bookstore.Infrastructure/Data/BookstoreDbContext.cs:19-29 | inserting under an id that is already a key of the table is refused with DuplicateKey |
| Data.Refusal | Bookstore.Infrastructure/Data/BookstoreDbContext.cs:18-35 | a change whose key condition fails is always refused, as DuplicateKey or RowMissing; DuplicateKey arises only from an insert, StillReferenced only from removing an author or genre some book refers to, MissingReference only from a book row with a dangling key; removing a book is refused only when it is absent |
| Data.Commit | Bookstore.Infrastructure/Data/BookstoreDbContext.cs:18-35 | a successful commit met its key condition, removed no author or genre still referred to, and changed only the table its change names |
| Data.RemoveUndoesAdd | Bookstore.Infrastructure/Repositories/GenreRepository.cs:29-48 | in a consistent store, removing a row just inserted is accepted and gives back the original store |
| Data.FantasyLifecycle | Bookstore.Api/Controlles/Genres/v1/GenreController.cs:45-93 | adding a genre "Fantasy" under a new id commits, stores that name, and removing it again restores the store |
| Data.BookstoreDbContext.SaveChanges | Bookstore.Infrastructure/Repositories/AuthorRepository.cs:32 | the tables become Commit's result, or the DbUpdateException carries Commit's violation and nothing changes; the invariant is kept |
| Repositories.Scan | Bookstore.Infrastructure/Repositories/AuthorRepository.cs:21 | the keys returned list every key of the table exactly once |
| Repositories.AuthorRepository.GetAll | Bookstore.Infrastructure/Repositories/AuthorRepository.cs:19-22 | one author per stored row, ids distinct and covering the table, each with its row's name |
| Repositories.AuthorRepository.GetById | Bookstore.Infrastructure/Repositories/AuthorRepository.cs:24-27 | null iff no row has the id; otherwise a fresh author with that id and the row's name |
| Repositories.AuthorRepository.Create | Bookstore.Infrastructure/Repositories/AuthorRepository.cs:29-33 | succeeds iff the id is new and the name fits 200; then exactly that row is added; otherwise DuplicateKey or ValueTooLong and no change |
| Repositories.AuthorRepository.Update | Bookstore.Infrastructure/Repositories/AuthorRepository.cs:35-39 | succeeds iff the row exists and the name fits; then only that row is overwritten |
| Repositories.AuthorRepository.Delete | Bookstore.Infrastructure/Repositories/AuthorRepository.cs:41-48 | an absent id is a silent no-op; a referenced author fails with StillReferenced and nothing changes; otherwise exactly that row is removed |
| Repositories.GenreRepository.GetAll | Bookstore.Infrastructure/Repositories/GenreRepository.cs:19-22 | one genre per stored row, ids distinct and covering the table, each with its row's name |
| Repositories.GenreRepository.GetById | Bookstore.Infrastructure/Repositories/GenreRepository.cs:24-27 | null iff absent; otherwise the stored name; any books it carries refer to the genre |
| Repositories.GenreRepository.Create | Bookstore.Infrastructure/Repositories/GenreRepository.cs:29-33 | succeeds iff the id is new and the name fits 100; then exactly that row is added |
| Repositories.GenreRepository.Update | Bookstore.Infrastructure/Repositories/GenreRepository.cs:35-39 | succeeds iff the row exists and the name fits; then only that row is overwritten |
| Repositories.GenreRepository.Delete | Bookstore.Infrastructure/Repositories/GenreRepository.cs:41-48 | absent: no-op; referenced: StillReferenced and no change; otherwise exactly that row is removed |
| Repositories.BookRepository.Load | Bookstore.Infrastructure/Repositories/BookRepository.cs:28-32 | a fresh book carrying the stored row, with fresh Author and Genre objects for the rows its keys name |
| Repositories.BookRepository.GetAll | Bookstore.Infrastructure/Repositories/BookRepository.cs:17-24 | one book per stored row, ids distinct and covering the table, each with its Author and Genre attached |
| Repositories.BookRepository.GetById | Bookstore.Infrastructure/Repositories/BookRepository.cs:26-33 | null iff absent; otherwise the stored book with its Author and Genre attached |
| Repositories.BookRepository.Create | Bookstore.Infrastructure/Repositories/BookRepository.cs:35-39 | succeeds iff the store refuses nothing (new id, lengths, both foreign keys); then exactly that row is added; otherwise the violation and no change |
| Repositories.BookRepository.Update | Bookstore.Infrastructure/Repositories/BookRepository.cs:41-45 | succeeds iff the row exists and the new row fits and resolves; then only that row is overwritten |
| Repositories.BookRepository.Delete | Bookstore.Infrastructure/Repositories/BookRepository.cs:47-55 | never fails; a present book is removed, an absent id changes nothing |
| Common.Response | Bookstore.Api/Common/ApiResponse.cs:10-13 | Success and Message as given (true and null by default); Errors and Data null |
| Common.ErrorResponse | Bookstore.Api/Common/ApiResponse.cs:14 | Success false, Message the message; Errors and Data null |
| Common.DataResponse | Bookstore.Api/Common/ApiResponse.cs:18-21 | Success true, Message null, Errors null, Data the payload |
| AuthorsApi.AuthorsController.GetById | Bookstore.Api/Controlles/Authors/v1/AuthorController.cs:24-31 | NotFound "Author not found" iff absent; otherwise Ok with the stored id and name |
| AuthorsApi.AuthorsController.GetAll | Bookstore.Api/Controlles/Authors/v1/AuthorController.cs:35-40 | Ok with one DTO per stored author, with matching id and name |
| AuthorsApi.AuthorsController.Create | Bookstore.Api/Controlles/Authors/v1/AuthorController.cs:45-58 | invalid payload: BadRequest "Invalid request payload."; blank name: ArgumentException escapes; too long: DbUpdateException escapes; Created with the new id and name iff valid, and then exactly one row added; otherwise nothing written |
| AuthorsApi.AuthorsController.Update | Bookstore.Api/Controlles/Authors/v1/AuthorController.cs:64-76 | payload checked before lookup; NotFound "Author not found"; blank or too long names escape as exceptions; Ok with the new name iff all pass, and then only that row changes |
| AuthorsApi.AuthorsController.Delete | Bookstore.Api/Controlles/Authors/v1/AuthorController.cs:81-89 | NotFound if absent; no dependent-books check, so a referenced author lets StillReferenced escape; NoContent iff present and unreferenced, and then the row is gone |
| GenresApi.GenresController.GetById | Bookstore.Api/Controlles/Genres/v1/GenreController.cs:24-31 | NotFound "Genre not found" iff absent; otherwise Ok with the stored id and name |
| GenresApi.GenresController.GetAll | Bookstore.Api/Controlles/Genres/v1/GenreController.cs:35-40 | Ok with one DTO per stored genre, with matching id and name |
| GenresApi.GenresController.Create | Bookstore.Api/Controlles/Genres/v1/GenreController.cs:45-58 | as for authors with limit 100: BadRequest first, Created with id and name iff valid and fitting, exactly one row added |
| GenresApi.GenresController.Update | Bookstore.Api/Controlles/Genres/v1/GenreController.cs:64-76 | payload before lookup; NotFound "Genre not found"; Ok with the new name iff valid, only that row changes |
| GenresApi.GenresController.Delete | Bookstore.Api/Controlles/Genres/v1/GenreController.cs:82-93 | NotFound if absent; a 400 is always "Cannot delete genre with books."; a genre some book refers to is not removed (BadRequest or the store's StillReferenced); NoContent iff present and unreferenced |
| BooksApi.MapToDtoOfJoinedRead | Bookstore.Api/Controlles/Books/v1/BookController.cs:94-101 | mapping a book read with its joins copies id, name and description (null as "") and takes the author's and genre's stored names |
| BooksApi.MapToDto | Bookstore.Api/Controlles/Books/v1/BookController.cs:94-101 | copies id and name; a null Author or Genre navigation gives "" for its name, a loaded one its name; a null description gives "" |
| BooksApi.BooksController.GetAll | Bookstore.Api/Controlles/Books/v1/BookController.cs:22-29 | Ok with one DTO per stored book, ids covering the table, each DTO the joined view of its row |
| BooksApi.BooksController.GetById | Bookstore.Api/Controlles/Books/v1/BookController.cs:34-42 | NotFound "Book not found" iff absent; otherwise Ok with the joined view of the row |
| BooksApi.BooksController.Create | Bookstore.Api/Controlles/Books/v1/BookController.cs:47-60 | BadRequest first; blank name, too long or dangling keys escape as exceptions; Created iff all pass, and then exactly that row is added; the payload has empty author and genre names |
| BooksApi.BooksController.Update | Bookstore.Api/Controlles/Books/v1/BookController.cs:66-79 | payload before lookup; NotFound "Book not found"; Ok iff the row is accepted, and then only that row is overwritten with the four fields; the payload names are those of the author and genre loaded before the update |
| BooksApi.BooksController.Delete | Bookstore.Api/Controlles/Books/v1/BookController.cs:84-92 | NotFound iff absent; otherwise NoContent and the book removed unconditionally |
| Scenarios.CreateThenFindAuthor | Bookstore.UnitTests/Repositories/AuthorRepositoryTests.cs:12-37 | after creating an author under a new id, finding that id gives an author with the given name |
| Scenarios.RenameThenFindGenre | Bookstore.UnitTests/Repositories/GenreRepositoryTests.cs:39-51 | renaming a stored genre and updating it makes the stored name the new one, nothing else changes |
| Scenarios.CreateThenFindBook | Bookstore.UnitTests/Repositories/BookRepositoryTests.cs:13-29 | a book created against stored author and genre is found with those ids and their names attached |
| Scenarios.DeleteThenFindAuthor | Bookstore.UnitTests/Repositories/AuthorRepositoryTests.cs:40-51 | deleting an unreferenced author makes finding it give null |
| Scenarios.FantasyThroughTheApi | Bookstore.Api/Controlles/Genres/v1/GenreController.cs:24-93 | POST Fantasy gives 201 with id and name, GET gives it back, DELETE gives 204, GET then gives 404, and the store ends where it began |

## Left out

- Entity Framework's change tracking, identity resolution and `AsNoTracking` are not modelled. Every read builds fresh objects from the rows, and every write is one explicit change to one row.
- `_dbSet.Update` attaches the whole object graph. For a book, that includes the `Author` and `Genre` objects loaded with it, and Entity Framework may reconcile a changed foreign key with a navigation that still points at the old row. The model writes the ids the request gives and the row's own fields only.
- Navigation fix-up after `AddAsync` is left out: the Created payload of a book is built from the entity with null navigations, so its author and genre names are empty.
- `async`, `Task` and `CancellationToken`: every operation is one synchronous step. Cancellation and concurrent requests are host behaviour.
- HTTP routing, API versioning, status codes beyond the result tag, and the location URL `CreatedAtAction` builds (only the route id is kept).
- `ModelState.IsValid` is a boolean input; the data-annotation rules behind it are not modelled.
- The order in which a table scan returns rows is unspecified in the source; the model proves every row is returned exactly once and fixes no order.
- Maximum lengths count Dafny characters (Unicode scalar values), where SQL Server counts UTF-16 code units; they differ only for characters outside the Basic Multilingual Plane.
- When one change breaks several constraints at once, the model reports one fixed violation (key, then length, then foreign key); which one the database names first is not modelled.
- The unit tests run on Entity Framework's in-memory provider, which does not enforce foreign keys or maximum lengths; the model follows the relational schema `OnModelCreating` declares.
- `GenreRepository.GetByIdAsync` has no `Include`, so whether `Genre.Books` is populated is not visible in the code. `GenresController.Delete` reads the fetched genre's `books` as the repository hands it over: it is specified only to hold books that refer to the genre, so a genre with dependent books ends in the 400 or in the store's restrict failure, and is kept either way.
- `Books` collections are never null in the model (the entities initialise them to empty lists), so the `genre.Books != null` test is always true.
- The non-generic `ApiResponse` is the envelope whose `data` is `None`.
- The `Author.Books` and `Genre.Books` collections are never written by the repositories; adding to them in memory, as one controller test does, has no counterpart in the model.
- `Bookstore.Api/Program.cs`, `BookstoreDbContextFactory`, the migrations and the `I*Repository` interfaces are not part of this model: they are host wiring, design-time configuration, schema tooling and signatures.
- Deleting an author that books refer to is refused only by the store's restrict rule; the handler makes no check of its own, unlike the genre handler, and the DbUpdateException escapes it. The model follows the code (`AuthorsApi.AuthorsController.Delete`).
