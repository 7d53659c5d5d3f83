/** The domain entities: Author, Genre and Book. Each is an object whose name is validated on
    construction and on update; the id is fixed for the object's lifetime. */
module Entities {
  import opened Wrappers
  import opened Platform

  /** The ArgumentException message of Author and Genre. */
  const NameRequired := "Name is required"
  /** The ArgumentException message of Book, spelled as the source spells it. */
  const NomeRequired := "Nome is required"

  /** The name an Author or Genre holds after `UpdateName(requested)`: the guard throws before
      the assignment, so a rejected name leaves the current one. */
  function Renamed(current: string, requested: Option<string>): string {
    if IsNullOrWhiteSpace(requested) then current else requested.value
  }

  /** Renaming keeps a valid name valid. */
  lemma RenamedHasText(current: string, requested: Option<string>)
    requires HasText(current)
    ensures HasText(Renamed(current, requested))
  {
  }

  /** Renaming twice with the same argument is renaming once. */
  lemma RenamedIdempotent(current: string, requested: Option<string>)
    ensures Renamed(Renamed(current, requested), requested) == Renamed(current, requested)
  {
  }

  class Author {
    const id: Guid
    var name: string
    var books: seq<Book>

    /** The entity's invariant: a name with text. */
    predicate Valid()
      reads this
    {
      HasText(name)
    }

    /** The entity as the store materialises it (protected constructor plus private setters). */
    constructor Load(id: Guid, name: string)
      ensures this.id == id && this.name == name && books == []
    {
      this.id := id;
      this.name := name;
      books := [];
    }

    /** `new Author(name)`; `freshId` stands for the `Guid.NewGuid()` field initializer. */
    static method New(freshId: Guid, name: Option<string>) returns (r: Result<Author, Exception>)
      ensures r.Failure? <==> IsNullOrWhiteSpace(name)
      ensures r.Failure? ==> r.error == ArgumentException(NameRequired, "name")
      ensures r.Success? ==> fresh(r.value) && r.value.Valid()
      ensures r.Success? ==> r.value.id == freshId && r.value.name == name.value && r.value.books == []
    {
      if IsNullOrWhiteSpace(name) {
        return Failure(ArgumentException(NameRequired, "name"));
      }
      var author := new Author.Load(freshId, name.value);
      return Success(author);
    }

    method UpdateName(name: Option<string>) returns (r: Outcome<Exception>)
      modifies this`name
      ensures r.Pass? <==> !IsNullOrWhiteSpace(name)
      ensures r.Fail? ==> r.error == ArgumentException(NameRequired, "name")
      ensures this.name == Renamed(old(this.name), name)
      ensures old(Valid()) || r.Pass? ==> Valid()
    {
      if IsNullOrWhiteSpace(name) {
        return Fail(ArgumentException(NameRequired, "name"));
      }
      this.name := name.value;
      return Pass;
    }
  }

  class Genre {
    const id: Guid
    var name: string
    var books: seq<Book>

    /** The entity's invariant: a name with text. */
    predicate Valid()
      reads this
    {
      HasText(name)
    }

    /** The entity as the store materialises it (protected constructor plus private setters). */
    constructor Load(id: Guid, name: string)
      ensures this.id == id && this.name == name && books == []
    {
      this.id := id;
      this.name := name;
      books := [];
    }

    /** `new Genre(name)`; `freshId` stands for the `Guid.NewGuid()` field initializer. */
    static method New(freshId: Guid, name: Option<string>) returns (r: Result<Genre, Exception>)
      ensures r.Failure? <==> IsNullOrWhiteSpace(name)
      ensures r.Failure? ==> r.error == ArgumentException(NameRequired, "name")
      ensures r.Success? ==> fresh(r.value) && r.value.Valid()
      ensures r.Success? ==> r.value.id == freshId && r.value.name == name.value && r.value.books == []
    {
      if IsNullOrWhiteSpace(name) {
        return Failure(ArgumentException(NameRequired, "name"));
      }
      var genre := new Genre.Load(freshId, name.value);
      return Success(genre);
    }

    method UpdateName(name: Option<string>) returns (r: Outcome<Exception>)
      modifies this`name
      ensures r.Pass? <==> !IsNullOrWhiteSpace(name)
      ensures r.Fail? ==> r.error == ArgumentException(NameRequired, "name")
      ensures this.name == Renamed(old(this.name), name)
      ensures old(Valid()) || r.Pass? ==> Valid()
    {
      if IsNullOrWhiteSpace(name) {
        return Fail(ArgumentException(NameRequired, "name"));
      }
      this.name := name.value;
      return Pass;
    }
  }

  class Book {
    const id: Guid
    var name: string
    var authorId: Guid
    var author: Author?
    var genreId: Guid
    var genre: Genre?
    var description: Option<string>

    /** The entity's invariant: a name with text. */
    predicate Valid()
      reads this
    {
      HasText(name)
    }

    /** The entity as the store materialises it, with the navigations a join attached. */
    constructor Load(id: Guid, name: string, authorId: Guid, author: Author?,
                     genreId: Guid, genre: Genre?, description: Option<string>)
      ensures this.id == id && this.name == name && this.description == description
      ensures this.authorId == authorId && this.author == author
      ensures this.genreId == genreId && this.genre == genre
    {
      this.id := id;
      this.name := name;
      this.authorId := authorId;
      this.author := author;
      this.genreId := genreId;
      this.genre := genre;
      this.description := description;
    }

    /** `new Book(name, authorId, genreId, description = null)`; `freshId` stands for `Guid.NewGuid()`.
        The navigations start out null and the ids are not checked against any table. */
    static method New(freshId: Guid, name: Option<string>, authorId: Guid, genreId: Guid,
                      description: Option<string> := None) returns (r: Result<Book, Exception>)
      ensures r.Failure? <==> IsNullOrWhiteSpace(name)
      ensures r.Failure? ==> r.error == ArgumentException(NomeRequired, "name")
      ensures r.Success? ==> fresh(r.value) && r.value.Valid()
      ensures r.Success? ==> r.value.id == freshId && r.value.name == name.value && r.value.description == description
      ensures r.Success? ==> r.value.authorId == authorId && r.value.genreId == genreId
      ensures r.Success? ==> r.value.author == null && r.value.genre == null
    {
      if IsNullOrWhiteSpace(name) {
        return Failure(ArgumentException(NomeRequired, "name"));
      }
      var book := new Book.Load(freshId, name.value, authorId, null, genreId, null, description);
      return Success(book);
    }

    /** Overwrites the four scalar fields after the name guard; the navigations are outside its frame. */
    method Update(name: Option<string>, authorId: Guid, genreId: Guid, description: Option<string> := None)
      returns (r: Outcome<Exception>)
      modifies this`name, this`authorId, this`genreId, this`description
      ensures r.Pass? <==> !IsNullOrWhiteSpace(name)
      ensures r.Fail? ==> r.error == ArgumentException(NomeRequired, "name")
      ensures r.Fail? ==> this.name == old(this.name) && this.authorId == old(this.authorId)
      ensures r.Fail? ==> this.genreId == old(this.genreId) && this.description == old(this.description)
      ensures r.Pass? ==> this.name == name.value && this.authorId == authorId
      ensures r.Pass? ==> this.genreId == genreId && this.description == description
      ensures old(Valid()) || r.Pass? ==> Valid()
    {
      if IsNullOrWhiteSpace(name) {
        return Fail(ArgumentException(NomeRequired, "name"));
      }
      this.name := name.value;
      this.authorId := authorId;
      this.genreId := genreId;
      this.description := description;
      return Pass;
    }
  }
}
