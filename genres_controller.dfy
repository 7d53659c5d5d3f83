/** GenresController (v1): the five handlers of /api/v1/genres over the genre repository. */
module GenresApi {
  import opened Wrappers
  import opened Platform
  import opened Entities
  import opened Data
  import opened Repositories
  import opened Dtos
  import opened Common

  const GenreNotFound := "Genre not found"
  const CannotDeleteGenreWithBooks := "Cannot delete genre with books."

  class GenresController {
    const repo: GenreRepository

    constructor (repo: GenreRepository)
      ensures this.repo == repo
    {
      this.repo := repo;
    }

    /** GET /genres/{id}. */
    method GetById(id: Guid) returns (r: ActionResult<GenreDto>)
      ensures id !in repo.context.genres ==> r == NotFound(ErrorResponse(GenreNotFound))
      ensures id in repo.context.genres ==> r == Ok(DataResponse(GenreDto(id, repo.context.genres[id].name)))
    {
      var genre := repo.GetById(id);
      if genre == null {
        return NotFound(ErrorResponse(GenreNotFound));
      }
      return Ok(DataResponse(GenreDto(genre.id, genre.name)));
    }

    /** GET /genres: one DTO per stored genre, in the repository's order. */
    method GetAll() returns (r: ActionResult<seq<GenreDto>>)
      ensures r.Ok? && r.body.success && r.body.data.Some?
      ensures var dtos := r.body.data.value;
        && Enumerates(Ids(dtos, (d: GenreDto) => d.id), repo.context.genres)
        && forall i :: 0 <= i < |dtos| ==> dtos[i].name == repo.context.genres[dtos[i].id].name
    {
      var genres := repo.GetAll();
      var dtos := seq(|genres|, i requires 0 <= i < |genres| reads genres => GenreDto(genres[i].id, genres[i].name));
      assert Ids(dtos, (d: GenreDto) => d.id) == Ids(genres, (x: Genre) => x.id);
      return Ok(DataResponse(dtos));
    }

    /** POST /genres; `modelValid` is ModelState.IsValid and `freshId` the id `new Genre` draws. */
    method Create(dto: CreateGenreDto, modelValid: bool, freshId: Guid) returns (r: ActionResult<GenreDto>)
      requires repo.context.Valid() && freshId !in repo.context.genres
      modifies repo.context
      ensures repo.context.Valid()
      ensures !modelValid ==> r == BadRequest(ErrorResponse(InvalidPayload))
      ensures modelValid && IsNullOrWhiteSpace(dto.name) ==> r == Unhandled(ArgumentException(NameRequired, "name"))
      ensures modelValid && !IsNullOrWhiteSpace(dto.name) && !GenreFits(GenreRow(dto.name.value)) ==>
                r == Unhandled(DbUpdateException(ValueTooLong))
      ensures r.Created? <==> modelValid && !IsNullOrWhiteSpace(dto.name) && GenreFits(GenreRow(dto.name.value))
      ensures r.Created? ==> r == Created(freshId, DataResponse(GenreDto(freshId, dto.name.value)))
      ensures r.Created? ==> repo.context.genres == old(repo.context.genres)[freshId := GenreRow(dto.name.value)]
      ensures !r.Created? ==> repo.context.Snapshot() == old(repo.context.Snapshot())
      ensures repo.context.authors == old(repo.context.authors) && repo.context.books == old(repo.context.books)
    {
      if !modelValid {
        return BadRequest(ErrorResponse(InvalidPayload));
      }
      var made := Genre.New(freshId, dto.name);
      if made.Failure? {
        return Unhandled(made.error);
      }
      var genre := made.value;
      var saved := repo.Create(genre);
      if saved.Fail? {
        return Unhandled(saved.error);
      }
      return Created(genre.id, DataResponse(GenreDto(genre.id, genre.name)));
    }

    /** PUT /genres/{id}: payload first, then the lookup, then the rename and the save. */
    method Update(id: Guid, dto: CreateGenreDto, modelValid: bool) returns (r: ActionResult<GenreDto>)
      requires repo.context.Valid()
      modifies repo.context
      ensures repo.context.Valid()
      ensures !modelValid ==> r == BadRequest(ErrorResponse(InvalidPayload))
      ensures modelValid && id !in old(repo.context.genres) ==> r == NotFound(ErrorResponse(GenreNotFound))
      ensures modelValid && id in old(repo.context.genres) && IsNullOrWhiteSpace(dto.name) ==>
                r == Unhandled(ArgumentException(NameRequired, "name"))
      ensures modelValid && id in old(repo.context.genres) && !IsNullOrWhiteSpace(dto.name) && !GenreFits(GenreRow(dto.name.value)) ==>
                r == Unhandled(DbUpdateException(ValueTooLong))
      ensures r.Ok? <==> modelValid && id in old(repo.context.genres) && !IsNullOrWhiteSpace(dto.name) && GenreFits(GenreRow(dto.name.value))
      ensures r.Ok? ==> r == Ok(DataResponse(GenreDto(id, dto.name.value)))
      ensures r.Ok? ==> repo.context.genres == old(repo.context.genres)[id := GenreRow(dto.name.value)]
      ensures !r.Ok? ==> repo.context.Snapshot() == old(repo.context.Snapshot())
      ensures repo.context.authors == old(repo.context.authors) && repo.context.books == old(repo.context.books)
    {
      if !modelValid {
        return BadRequest(ErrorResponse(InvalidPayload));
      }
      var genre := repo.GetById(id);
      if genre == null {
        return NotFound(ErrorResponse(GenreNotFound));
      }
      var renamed := genre.UpdateName(dto.name);
      if renamed.Fail? {
        return Unhandled(renamed.error);
      }
      var saved := repo.Update(genre);
      if saved.Fail? {
        return Unhandled(saved.error);
      }
      return Ok(DataResponse(GenreDto(genre.id, genre.name)));
    }

    /** DELETE /genres/{id}: refuses a genre whose loaded Books collection is non-empty; otherwise
        the delete goes to the store, whose restrict rule refuses a genre that books still refer to. */
    method Delete(id: Guid) returns (r: ActionResult<GenreDto>)
      requires repo.context.Valid()
      modifies repo.context
      ensures repo.context.Valid()
      ensures id !in old(repo.context.genres) ==> r == NotFound(ErrorResponse(GenreNotFound))
      ensures r.BadRequest? ==> r == BadRequest(ErrorResponse(CannotDeleteGenreWithBooks))
      ensures id in old(repo.context.genres) && GenreReferenced(old(repo.context.Snapshot()), id) ==>
                r == BadRequest(ErrorResponse(CannotDeleteGenreWithBooks)) || r == Unhandled(DbUpdateException(StillReferenced))
      ensures r == NoContent <==> id in old(repo.context.genres) && !GenreReferenced(old(repo.context.Snapshot()), id)
      ensures r == NoContent ==> repo.context.genres == old(repo.context.genres) - {id}
      ensures r != NoContent ==> repo.context.Snapshot() == old(repo.context.Snapshot())
      ensures repo.context.authors == old(repo.context.authors) && repo.context.books == old(repo.context.books)
    {
      var genre := repo.GetById(id);
      if genre == null {
        return NotFound(ErrorResponse(GenreNotFound));
      }
      if |genre.books| > 0 {
        assert genre.books[0] in genre.books;
        return BadRequest(ErrorResponse(CannotDeleteGenreWithBooks));
      }
      var deleted := repo.Delete(id);
      if deleted.Fail? {
        return Unhandled(deleted.error);
      }
      return NoContent;
    }
  }
}
