/** Round trips through the repositories as their callers see them: what one operation writes,
    the next read returns. */
module Scenarios {
  import opened Wrappers
  import opened Platform
  import opened Entities
  import opened Data
  import opened Repositories
  import opened Dtos
  import opened Common
  import opened GenresApi

  /** Creating an author and finding it by its id gives back an author with the given name. */
  method CreateThenFindAuthor(repo: AuthorRepository, freshId: Guid, name: string) returns (found: Author?)
    requires repo.context.Valid() && freshId !in repo.context.authors
    requires HasText(name) && |name| <= AuthorNameMaxLength
    modifies repo.context
    ensures repo.context.Valid()
    ensures found != null && found.id == freshId && found.name == name
    ensures repo.context.authors == old(repo.context.authors)[freshId := AuthorRow(name)]
  {
    var made := Author.New(freshId, Some(name));
    var saved := repo.Create(made.value);
    found := repo.GetById(freshId);
  }

  /** Renaming a stored genre and saving it makes the stored name the new one; nothing else moves. */
  method RenameThenFindGenre(repo: GenreRepository, id: Guid, name: string) returns (found: Genre?)
    requires repo.context.Valid() && id in repo.context.genres
    requires HasText(name) && |name| <= GenreNameMaxLength
    modifies repo.context
    ensures repo.context.Valid()
    ensures found != null && found.id == id && found.name == name
    ensures repo.context.genres == old(repo.context.genres)[id := GenreRow(name)]
    ensures repo.context.authors == old(repo.context.authors) && repo.context.books == old(repo.context.books)
  {
    var genre := repo.GetById(id);
    var renamed := genre.UpdateName(Some(name));
    var saved := repo.Update(genre);
    found := repo.GetById(id);
  }

  /** A book created against a stored author and genre is found with those ids and their names joined. */
  method CreateThenFindBook(repo: BookRepository, freshId: Guid, name: string, authorId: Guid, genreId: Guid)
    returns (found: Book?)
    requires repo.context.Valid() && freshId !in repo.context.books
    requires HasText(name) && |name| <= BookNameMaxLength
    requires authorId in repo.context.authors && genreId in repo.context.genres
    modifies repo.context
    ensures repo.context.Valid()
    ensures found != null && found.id == freshId && found.name == name && found.description.None?
    ensures found.authorId == authorId && found.genreId == genreId
    ensures repo.context.authors == old(repo.context.authors) && repo.context.genres == old(repo.context.genres)
    ensures found.author != null && found.author.name == old(repo.context.authors)[authorId].name
    ensures found.genre != null && found.genre.name == old(repo.context.genres)[genreId].name
  {
    var made := Book.New(freshId, Some(name), authorId, genreId);
    var saved := repo.Create(made.value);
    found := repo.GetById(freshId);
  }

  /** After deleting an author nothing refers to, finding it gives null. */
  method DeleteThenFindAuthor(repo: AuthorRepository, id: Guid) returns (found: Author?)
    requires repo.context.Valid() && !AuthorReferenced(repo.context.Snapshot(), id)
    modifies repo.context
    ensures repo.context.Valid()
    ensures found == null
    ensures repo.context.authors == old(repo.context.authors) - {id}
  {
    var deleted := repo.Delete(id);
    found := repo.GetById(id);
  }

  /** A create, read, delete, read walk through the genre endpoints: POST {name: "Fantasy"} gives
      201 with the new id and name, GET by that id gives the same object, DELETE gives 204 since
      no book can refer to a genre that did not exist before, and GET by that id then gives 404. */
  method FantasyThroughTheApi(api: GenresController, freshId: Guid)
    returns (created: ActionResult<GenreDto>, read: ActionResult<GenreDto>,
             deleted: ActionResult<GenreDto>, reread: ActionResult<GenreDto>)
    requires api.repo.context.Valid() && freshId !in api.repo.context.genres
    modifies api.repo.context
    ensures created == Created(freshId, DataResponse(GenreDto(freshId, "Fantasy")))
    ensures read == Ok(DataResponse(GenreDto(freshId, "Fantasy")))
    ensures deleted == NoContent
    ensures reread == NotFound(ErrorResponse(GenreNotFound))
    ensures api.repo.context.Snapshot() == old(api.repo.context.Snapshot())
  {
    assert HasText("Fantasy") by { assert !IsWhiteSpace("Fantasy"[0]); }
    created := api.Create(CreateGenreDto(Some("Fantasy")), true, freshId);
    read := api.GetById(freshId);
    assert !GenreReferenced(api.repo.context.Snapshot(), freshId);
    deleted := api.Delete(freshId);
    reread := api.GetById(freshId);
    assert api.repo.context.genres == old(api.repo.context.genres);
  }
}
