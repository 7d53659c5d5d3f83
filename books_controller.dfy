/** BooksController (v1): the five handlers of /api/v1/books over the book repository, and the
    mapping from a book entity to its DTO. */
module BooksApi {
  import opened Wrappers
  import opened Platform
  import opened Entities
  import opened Data
  import opened Repositories
  import opened Dtos
  import opened Common

  const BookNotFound := "Book not found"

  /** MapToDto: an unset Author or Genre navigation, or a null Description, becomes "". */
  function MapToDto(book: Book): (r: BookDto)
    reads book, book.author, book.genre
    ensures r.id == book.id && r.name == book.name
    ensures book.author == null ==> r.authorName == ""
    ensures book.author != null ==> r.authorName == book.author.name
    ensures book.genre == null ==> r.genreName == ""
    ensures book.genre != null ==> r.genreName == book.genre.name
    ensures book.description.None? ==> r.description == ""
    ensures book.description.Some? ==> r.description == book.description.value
  {
    BookDto(
      book.id,
      book.name,
      if book.author != null then book.author.name else "",
      if book.genre != null then book.genre.name else "",
      book.description.GetOr(""))
  }

  /** The DTO a joined read of stored book `id` should give: the row's own fields with the names
      of the author and genre its foreign keys point at. */
  function JoinedDto(s: Store, id: Guid): BookDto
    requires id in s.books && ReferencesResolve(s, s.books[id])
  {
    var row := s.books[id];
    BookDto(id, row.name, s.authors[row.authorId].name, s.genres[row.genreId].name, row.description.GetOr(""))
  }

  /** Mapping a book read with its joins gives the joined DTO. */
  lemma MapToDtoOfJoinedRead(book: Book, s: Store)
    requires LoadedWithJoins(book, s)
    ensures MapToDto(book) == JoinedDto(s, book.id)
    ensures MapToDto(book).authorName == s.authors[s.books[book.id].authorId].name
    ensures MapToDto(book).genreName == s.genres[s.books[book.id].genreId].name
  {
  }

  /** The row a CreateBookDto with a name describes. */
  function RowOf(dto: CreateBookDto): BookRow
    requires dto.name.Some?
  {
    BookRow(dto.name.value, dto.authorId, dto.genreId, dto.description)
  }

  class BooksController {
    const repo: BookRepository

    constructor (repo: BookRepository)
      ensures this.repo == repo
    {
      this.repo := repo;
    }

    /** GET /books: one DTO per stored book, each carrying its author's and genre's names. */
    method GetAll() returns (r: ActionResult<seq<BookDto>>)
      requires repo.context.Valid()
      ensures r.Ok? && r.body.success && r.body.data.Some?
      ensures var dtos := r.body.data.value;
        && Enumerates(Ids(dtos, (d: BookDto) => d.id), repo.context.books)
        && forall i :: 0 <= i < |dtos| ==> dtos[i] == JoinedDto(repo.context.Snapshot(), dtos[i].id)
    {
      var books := repo.GetAll();
      var dtos := seq(|books|, i requires 0 <= i < |books|
                                 reads if 0 <= i < |books| then {books[i], books[i].author, books[i].genre} else {}
                              => MapToDto(books[i]));
      assert Ids(dtos, (d: BookDto) => d.id) == Ids(books, (x: Book) => x.id);
      forall i | 0 <= i < |dtos|
        ensures dtos[i] == JoinedDto(repo.context.Snapshot(), dtos[i].id)
      {
        MapToDtoOfJoinedRead(books[i], repo.context.Snapshot());
      }
      return Ok(DataResponse(dtos));
    }

    /** GET /books/{id}. */
    method GetById(id: Guid) returns (r: ActionResult<BookDto>)
      requires repo.context.Valid()
      ensures id !in repo.context.books ==> r == NotFound(ErrorResponse(BookNotFound))
      ensures id in repo.context.books ==> r == Ok(DataResponse(JoinedDto(repo.context.Snapshot(), id)))
    {
      var book := repo.GetById(id);
      if book == null {
        return NotFound(ErrorResponse(BookNotFound));
      }
      MapToDtoOfJoinedRead(book, repo.context.Snapshot());
      return Ok(DataResponse(MapToDto(book)));
    }

    /** POST /books. The new entity's navigations are never set, so the Created payload carries
        empty author and genre names. */
    method Create(dto: CreateBookDto, modelValid: bool, freshId: Guid) returns (r: ActionResult<BookDto>)
      requires repo.context.Valid() && freshId !in repo.context.books
      modifies repo.context
      ensures repo.context.Valid()
      ensures !modelValid ==> r == BadRequest(ErrorResponse(InvalidPayload))
      ensures modelValid && IsNullOrWhiteSpace(dto.name) ==> r == Unhandled(ArgumentException(NomeRequired, "name"))
      ensures modelValid && !IsNullOrWhiteSpace(dto.name) && !BookFits(RowOf(dto)) ==>
                r == Unhandled(DbUpdateException(ValueTooLong))
      ensures modelValid && !IsNullOrWhiteSpace(dto.name) && BookFits(RowOf(dto))
              && !ReferencesResolve(old(repo.context.Snapshot()), RowOf(dto)) ==>
                r == Unhandled(DbUpdateException(MissingReference))
      ensures r.Created? <==> (modelValid && !IsNullOrWhiteSpace(dto.name) && BookFits(RowOf(dto))
                               && ReferencesResolve(old(repo.context.Snapshot()), RowOf(dto)))
      ensures r.Created? ==>
                r == Created(freshId, DataResponse(BookDto(freshId, dto.name.value, "", "", dto.description.GetOr(""))))
      ensures r.Created? ==> repo.context.books == old(repo.context.books)[freshId := RowOf(dto)]
      ensures !r.Created? ==> repo.context.Snapshot() == old(repo.context.Snapshot())
      ensures repo.context.authors == old(repo.context.authors) && repo.context.genres == old(repo.context.genres)
    {
      if !modelValid {
        return BadRequest(ErrorResponse(InvalidPayload));
      }
      var made := Book.New(freshId, dto.name, dto.authorId, dto.genreId, dto.description);
      if made.Failure? {
        return Unhandled(made.error);
      }
      var book := made.value;
      var saved := repo.Create(book);
      if saved.Fail? {
        return Unhandled(saved.error);
      }
      return Created(book.id, DataResponse(MapToDto(book)));
    }

    /** PUT /books/{id}. `Update` leaves the navigations loaded before it, so the Ok payload
        carries the names of the author and genre the book referred to before the update. */
    method Update(id: Guid, dto: CreateBookDto, modelValid: bool) returns (r: ActionResult<BookDto>)
      requires repo.context.Valid()
      modifies repo.context
      ensures repo.context.Valid()
      ensures !modelValid ==> r == BadRequest(ErrorResponse(InvalidPayload))
      ensures modelValid && id !in old(repo.context.books) ==> r == NotFound(ErrorResponse(BookNotFound))
      ensures modelValid && id in old(repo.context.books) && IsNullOrWhiteSpace(dto.name) ==>
                r == Unhandled(ArgumentException(NomeRequired, "name"))
      ensures modelValid && id in old(repo.context.books) && !IsNullOrWhiteSpace(dto.name) && !BookFits(RowOf(dto)) ==>
                r == Unhandled(DbUpdateException(ValueTooLong))
      ensures modelValid && id in old(repo.context.books) && !IsNullOrWhiteSpace(dto.name) && BookFits(RowOf(dto))
              && !ReferencesResolve(old(repo.context.Snapshot()), RowOf(dto)) ==>
                r == Unhandled(DbUpdateException(MissingReference))
      ensures r.Ok? <==> (modelValid && id in old(repo.context.books) && !IsNullOrWhiteSpace(dto.name)
                          && BookFits(RowOf(dto)) && ReferencesResolve(old(repo.context.Snapshot()), RowOf(dto)))
      ensures r.Ok? ==>
                var before := old(repo.context.Snapshot());
                r == Ok(DataResponse(BookDto(id, dto.name.value,
                                             before.authors[before.books[id].authorId].name,
                                             before.genres[before.books[id].genreId].name,
                                             dto.description.GetOr(""))))
      ensures r.Ok? ==> repo.context.books == old(repo.context.books)[id := RowOf(dto)]
      ensures !r.Ok? ==> repo.context.Snapshot() == old(repo.context.Snapshot())
      ensures repo.context.authors == old(repo.context.authors) && repo.context.genres == old(repo.context.genres)
    {
      if !modelValid {
        return BadRequest(ErrorResponse(InvalidPayload));
      }
      var book := repo.GetById(id);
      if book == null {
        return NotFound(ErrorResponse(BookNotFound));
      }
      var changed := book.Update(dto.name, dto.authorId, dto.genreId, dto.description);
      if changed.Fail? {
        return Unhandled(changed.error);
      }
      var saved := repo.Update(book);
      if saved.Fail? {
        return Unhandled(saved.error);
      }
      return Ok(DataResponse(MapToDto(book)));
    }

    /** DELETE /books/{id}: nothing refers to a book, so a present book is always removed. */
    method Delete(id: Guid) returns (r: ActionResult<BookDto>)
      requires repo.context.Valid()
      modifies repo.context
      ensures repo.context.Valid()
      ensures id !in old(repo.context.books) ==> r == NotFound(ErrorResponse(BookNotFound))
      ensures id !in old(repo.context.books) ==> repo.context.Snapshot() == old(repo.context.Snapshot())
      ensures id in old(repo.context.books) ==> r == NoContent && repo.context.books == old(repo.context.books) - {id}
      ensures repo.context.authors == old(repo.context.authors) && repo.context.genres == old(repo.context.genres)
    {
      var book := repo.GetById(id);
      if book == null {
        return NotFound(ErrorResponse(BookNotFound));
      }
      var _ := repo.Delete(id);
      return NoContent;
    }
  }
}
