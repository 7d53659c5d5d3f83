/** The request and response payloads of the three controllers. A request's strings may be null. */
module Dtos {
  import opened Wrappers
  import opened Platform

  datatype AuthorDto = AuthorDto(id: Guid, name: string)
  datatype CreateAuthorDto = CreateAuthorDto(name: Option<string>)

  datatype GenreDto = GenreDto(id: Guid, name: string)
  datatype CreateGenreDto = CreateGenreDto(name: Option<string>)

  datatype BookDto = BookDto(id: Guid, name: string, authorName: string, genreName: string, description: string)
  datatype CreateBookDto = CreateBookDto(name: Option<string>, authorId: Guid, genreId: Guid, description: Option<string>)
}
