/** AuthorsController (v1): the five handlers of /api/v1/authors over the author repository. */
module AuthorsApi {
  import opened Wrappers
  import opened Platform
  import opened Entities
  import opened Data
  import opened Repositories
  import opened Dtos
  import opened Common

  const AuthorNotFound := "Author not found"

  class AuthorsController {
    const repo: AuthorRepository

    constructor (repo: AuthorRepository)
      ensures this.repo == repo
    {
      this.repo := repo;
    }

    /** GET /authors/{id}. */
    method GetById(id: Guid) returns (r: ActionResult<AuthorDto>)
      ensures id !in repo.context.authors ==> r == NotFound(ErrorResponse(AuthorNotFound))
      ensures id in repo.context.authors ==> r == Ok(DataResponse(AuthorDto(id, repo.context.authors[id].name)))
    {
      var author := repo.GetById(id);
      if author == null {
        return NotFound(ErrorResponse(AuthorNotFound));
      }
      return Ok(DataResponse(AuthorDto(author.id, author.name)));
    }

    /** GET /authors: one DTO per stored author, in the repository's order. */
    method GetAll() returns (r: ActionResult<seq<AuthorDto>>)
      ensures r.Ok? && r.body.success && r.body.data.Some?
      ensures var dtos := r.body.data.value;
        && Enumerates(Ids(dtos, (d: AuthorDto) => d.id), repo.context.authors)
        && forall i :: 0 <= i < |dtos| ==> dtos[i].name == repo.context.authors[dtos[i].id].name
    {
      var authors := repo.GetAll();
      var dtos := seq(|authors|, i requires 0 <= i < |authors| reads authors => AuthorDto(authors[i].id, authors[i].name));
      assert Ids(dtos, (d: AuthorDto) => d.id) == Ids(authors, (x: Author) => x.id);
      return Ok(DataResponse(dtos));
    }

    /** POST /authors; `modelValid` is ModelState.IsValid and `freshId` the id `new Author` draws. */
    method Create(dto: CreateAuthorDto, modelValid: bool, freshId: Guid) returns (r: ActionResult<AuthorDto>)
      requires repo.context.Valid() && freshId !in repo.context.authors
      modifies repo.context
      ensures repo.context.Valid()
      ensures !modelValid ==> r == BadRequest(ErrorResponse(InvalidPayload))
      ensures modelValid && IsNullOrWhiteSpace(dto.name) ==> r == Unhandled(ArgumentException(NameRequired, "name"))
      ensures modelValid && !IsNullOrWhiteSpace(dto.name) && !AuthorFits(AuthorRow(dto.name.value)) ==>
                r == Unhandled(DbUpdateException(ValueTooLong))
      ensures r.Created? <==> modelValid && !IsNullOrWhiteSpace(dto.name) && AuthorFits(AuthorRow(dto.name.value))
      ensures r.Created? ==> r == Created(freshId, DataResponse(AuthorDto(freshId, dto.name.value)))
      ensures r.Created? ==> repo.context.authors == old(repo.context.authors)[freshId := AuthorRow(dto.name.value)]
      ensures !r.Created? ==> repo.context.Snapshot() == old(repo.context.Snapshot())
      ensures repo.context.genres == old(repo.context.genres) && repo.context.books == old(repo.context.books)
    {
      if !modelValid {
        return BadRequest(ErrorResponse(InvalidPayload));
      }
      var made := Author.New(freshId, dto.name);
      if made.Failure? {
        return Unhandled(made.error);
      }
      var author := made.value;
      var saved := repo.Create(author);
      if saved.Fail? {
        return Unhandled(saved.error);
      }
      return Created(author.id, DataResponse(AuthorDto(author.id, author.name)));
    }

    /** PUT /authors/{id}: payload first, then the lookup, then the rename and the save. */
    method Update(id: Guid, dto: CreateAuthorDto, modelValid: bool) returns (r: ActionResult<AuthorDto>)
      requires repo.context.Valid()
      modifies repo.context
      ensures repo.context.Valid()
      ensures !modelValid ==> r == BadRequest(ErrorResponse(InvalidPayload))
      ensures modelValid && id !in old(repo.context.authors) ==> r == NotFound(ErrorResponse(AuthorNotFound))
      ensures modelValid && id in old(repo.context.authors) && IsNullOrWhiteSpace(dto.name) ==>
                r == Unhandled(ArgumentException(NameRequired, "name"))
      ensures modelValid && id in old(repo.context.authors) && !IsNullOrWhiteSpace(dto.name) && !AuthorFits(AuthorRow(dto.name.value)) ==>
                r == Unhandled(DbUpdateException(ValueTooLong))
      ensures r.Ok? <==> modelValid && id in old(repo.context.authors) && !IsNullOrWhiteSpace(dto.name) && AuthorFits(AuthorRow(dto.name.value))
      ensures r.Ok? ==> r == Ok(DataResponse(AuthorDto(id, dto.name.value)))
      ensures r.Ok? ==> repo.context.authors == old(repo.context.authors)[id := AuthorRow(dto.name.value)]
      ensures !r.Ok? ==> repo.context.Snapshot() == old(repo.context.Snapshot())
      ensures repo.context.genres == old(repo.context.genres) && repo.context.books == old(repo.context.books)
    {
      if !modelValid {
        return BadRequest(ErrorResponse(InvalidPayload));
      }
      var author := repo.GetById(id);
      if author == null {
        return NotFound(ErrorResponse(AuthorNotFound));
      }
      var renamed := author.UpdateName(dto.name);
      if renamed.Fail? {
        return Unhandled(renamed.error);
      }
      var saved := repo.Update(author);
      if saved.Fail? {
        return Unhandled(saved.error);
      }
      return Ok(DataResponse(AuthorDto(author.id, author.name)));
    }

    /** DELETE /authors/{id}: no check for dependent books, so the store's restrict rule decides. */
    method Delete(id: Guid) returns (r: ActionResult<AuthorDto>)
      requires repo.context.Valid()
      modifies repo.context
      ensures repo.context.Valid()
      ensures id !in old(repo.context.authors) ==> r == NotFound(ErrorResponse(AuthorNotFound))
      ensures id in old(repo.context.authors) && AuthorReferenced(old(repo.context.Snapshot()), id) ==>
                r == Unhandled(DbUpdateException(StillReferenced))
      ensures r == NoContent <==> id in old(repo.context.authors) && !AuthorReferenced(old(repo.context.Snapshot()), id)
      ensures r == NoContent ==> repo.context.authors == old(repo.context.authors) - {id}
      ensures r != NoContent ==> repo.context.Snapshot() == old(repo.context.Snapshot())
      ensures repo.context.genres == old(repo.context.genres) && repo.context.books == old(repo.context.books)
    {
      var author := repo.GetById(id);
      if author == null {
        return NotFound(ErrorResponse(AuthorNotFound));
      }
      var deleted := repo.Delete(id);
      if deleted.Fail? {
        return Unhandled(deleted.error);
      }
      return NoContent;
    }
  }
}
