/** The three repositories: each reads its table of the shared context and writes it through
    SaveChanges. Reads materialise fresh entity objects from the rows, as a new context does. */
module Repositories {
  import opened Wrappers
  import opened Platform
  import opened Entities
  import opened Data

  /** `keys` lists the table's keys, each exactly once. */
  predicate Enumerates<V>(keys: seq<Guid>, table: map<Guid, V>) {
    && |keys| == |table|
    && (forall i :: 0 <= i < |keys| ==> keys[i] in table)
    && (forall i, j :: 0 <= i < j < |keys| ==> keys[i] != keys[j])
    && (forall id :: id in table ==> exists i :: 0 <= i < |keys| && keys[i] == id)
  }

  /** The ids of a list of entities or DTOs, in list order. */
  function Ids<T>(xs: seq<T>, id: T -> Guid): (ids: seq<Guid>)
    ensures |ids| == |xs| && forall i :: 0 <= i < |xs| ==> ids[i] == id(xs[i])
  {
    seq(|xs|, i requires 0 <= i < |xs| => id(xs[i]))
  }

  /** A scan of a table: its keys in the order the store yields them, which is any order. */
  method Scan<V>(table: map<Guid, V>) returns (keys: seq<Guid>)
    ensures Enumerates(keys, table)
  {
    var remaining := table.Keys;
    keys := [];
    while remaining != {}
      invariant remaining <= table.Keys
      invariant |keys| + |remaining| == |table|
      invariant forall i :: 0 <= i < |keys| ==> keys[i] in table && keys[i] !in remaining
      invariant forall i, j :: 0 <= i < j < |keys| ==> keys[i] != keys[j]
      invariant forall id :: id in table && id !in remaining ==> id in keys
    {
      var id :| id in remaining;
      keys := keys + [id];
      remaining := remaining - {id};
    }
  }

  class AuthorRepository {
    const context: BookstoreDbContext

    constructor (context: BookstoreDbContext)
      ensures this.context == context
    {
      this.context := context;
    }

    /** ToListAsync over the Authors table, in whatever order the scan yields. */
    method GetAll() returns (list: seq<Author>)
      ensures Enumerates(Ids(list, (a: Author) => a.id), context.authors)
      ensures forall i :: 0 <= i < |list| ==> list[i].name == context.authors[list[i].id].name
    {
      var keys := Scan(context.authors);
      list := [];
      for i := 0 to |keys|
        invariant |list| == i
        invariant forall j :: 0 <= j < i ==> list[j].id == keys[j] && list[j].name == context.authors[keys[j]].name
      {
        var author := new Author.Load(keys[i], context.authors[keys[i]].name);
        list := list + [author];
      }
      assert Ids(list, (a: Author) => a.id) == keys;
    }

    /** FindAsync by key: null when no row has that id. Any Books it carries refer to the author. */
    method GetById(id: Guid) returns (author: Author?)
      ensures author == null <==> id !in context.authors
      ensures author != null ==> fresh(author) && author.id == id && author.name == context.authors[id].name
      ensures author != null ==> forall b :: b in author.books ==> b.id in context.books && context.books[b.id].authorId == id
    {
      if id !in context.authors {
        return null;
      }
      author := new Author.Load(id, context.authors[id].name);
    }

    /** AddAsync then SaveChangesAsync. */
    method Create(author: Author) returns (r: Outcome<Exception>)
      requires context.Valid() && author.Valid()
      modifies context
      ensures context.Valid()
      ensures r.Pass? <==> author.id !in old(context.authors) && AuthorFits(AuthorRow(author.name))
      ensures r.Pass? ==> context.authors == old(context.authors)[author.id := AuthorRow(author.name)]
      ensures r.Fail? ==> context.Snapshot() == old(context.Snapshot())
      ensures r.Fail? ==> r.error == DbUpdateException(if author.id in old(context.authors) then DuplicateKey else ValueTooLong)
      ensures context.genres == old(context.genres) && context.books == old(context.books)
    {
      r := context.SaveChanges(AddAuthor(author.id, AuthorRow(author.name)));
    }

    /** Update then SaveChangesAsync: overwrites the row keyed by the author's id. */
    method Update(author: Author) returns (r: Outcome<Exception>)
      requires context.Valid() && author.Valid()
      modifies context
      ensures context.Valid()
      ensures r.Pass? <==> author.id in old(context.authors) && AuthorFits(AuthorRow(author.name))
      ensures r.Pass? ==> context.authors == old(context.authors)[author.id := AuthorRow(author.name)]
      ensures r.Fail? ==> context.Snapshot() == old(context.Snapshot())
      ensures r.Fail? ==> r.error == DbUpdateException(if author.id !in old(context.authors) then RowMissing else ValueTooLong)
      ensures context.genres == old(context.genres) && context.books == old(context.books)
    {
      r := context.SaveChanges(UpdateAuthor(author.id, AuthorRow(author.name)));
    }

    /** Removes the row if there is one and silently returns otherwise; a row that a book still
        refers to makes SaveChangesAsync throw. */
    method Delete(id: Guid) returns (r: Outcome<Exception>)
      requires context.Valid()
      modifies context
      ensures context.Valid()
      ensures id !in old(context.authors) ==> r.Pass? && context.Snapshot() == old(context.Snapshot())
      ensures id in old(context.authors) && AuthorReferenced(old(context.Snapshot()), id) ==>
                r == Fail(DbUpdateException(StillReferenced)) && context.Snapshot() == old(context.Snapshot())
      ensures id in old(context.authors) && !AuthorReferenced(old(context.Snapshot()), id) ==>
                r.Pass? && context.authors == old(context.authors) - {id}
      ensures context.genres == old(context.genres) && context.books == old(context.books)
    {
      var entity := GetById(id);
      if entity == null {
        return Pass;
      }
      r := context.SaveChanges(RemoveAuthor(id));
    }
  }

  class GenreRepository {
    const context: BookstoreDbContext

    constructor (context: BookstoreDbContext)
      ensures this.context == context
    {
      this.context := context;
    }

    /** ToListAsync over the Genres table, in whatever order the scan yields. */
    method GetAll() returns (list: seq<Genre>)
      ensures Enumerates(Ids(list, (g: Genre) => g.id), context.genres)
      ensures forall i :: 0 <= i < |list| ==> list[i].name == context.genres[list[i].id].name
    {
      var keys := Scan(context.genres);
      list := [];
      for i := 0 to |keys|
        invariant |list| == i
        invariant forall j :: 0 <= j < i ==> list[j].id == keys[j] && list[j].name == context.genres[keys[j]].name
      {
        var genre := new Genre.Load(keys[i], context.genres[keys[i]].name);
        list := list + [genre];
      }
      assert Ids(list, (g: Genre) => g.id) == keys;
    }

    /** FindAsync by key: null when no row has that id. Whether Books is filled is not fixed by
        the query (there is no Include); what it holds are books that refer to the genre. */
    method GetById(id: Guid) returns (genre: Genre?)
      ensures genre == null <==> id !in context.genres
      ensures genre != null ==> fresh(genre) && genre.id == id && genre.name == context.genres[id].name
      ensures genre != null ==> forall b :: b in genre.books ==> b.id in context.books && context.books[b.id].genreId == id
    {
      if id !in context.genres {
        return null;
      }
      genre := new Genre.Load(id, context.genres[id].name);
    }

    /** AddAsync then SaveChangesAsync. */
    method Create(genre: Genre) returns (r: Outcome<Exception>)
      requires context.Valid() && genre.Valid()
      modifies context
      ensures context.Valid()
      ensures r.Pass? <==> genre.id !in old(context.genres) && GenreFits(GenreRow(genre.name))
      ensures r.Pass? ==> context.genres == old(context.genres)[genre.id := GenreRow(genre.name)]
      ensures r.Fail? ==> context.Snapshot() == old(context.Snapshot())
      ensures r.Fail? ==> r.error == DbUpdateException(if genre.id in old(context.genres) then DuplicateKey else ValueTooLong)
      ensures context.authors == old(context.authors) && context.books == old(context.books)
    {
      r := context.SaveChanges(AddGenre(genre.id, GenreRow(genre.name)));
    }

    /** Update then SaveChangesAsync: overwrites the row keyed by the genre's id. */
    method Update(genre: Genre) returns (r: Outcome<Exception>)
      requires context.Valid() && genre.Valid()
      modifies context
      ensures context.Valid()
      ensures r.Pass? <==> genre.id in old(context.genres) && GenreFits(GenreRow(genre.name))
      ensures r.Pass? ==> context.genres == old(context.genres)[genre.id := GenreRow(genre.name)]
      ensures r.Fail? ==> context.Snapshot() == old(context.Snapshot())
      ensures r.Fail? ==> r.error == DbUpdateException(if genre.id !in old(context.genres) then RowMissing else ValueTooLong)
      ensures context.authors == old(context.authors) && context.books == old(context.books)
    {
      r := context.SaveChanges(UpdateGenre(genre.id, GenreRow(genre.name)));
    }

    /** Removes the row if there is one and silently returns otherwise; a row that a book still
        refers to makes SaveChangesAsync throw. */
    method Delete(id: Guid) returns (r: Outcome<Exception>)
      requires context.Valid()
      modifies context
      ensures context.Valid()
      ensures id !in old(context.genres) ==> r.Pass? && context.Snapshot() == old(context.Snapshot())
      ensures id in old(context.genres) && GenreReferenced(old(context.Snapshot()), id) ==>
                r == Fail(DbUpdateException(StillReferenced)) && context.Snapshot() == old(context.Snapshot())
      ensures id in old(context.genres) && !GenreReferenced(old(context.Snapshot()), id) ==>
                r.Pass? && context.genres == old(context.genres) - {id}
      ensures context.authors == old(context.authors) && context.books == old(context.books)
    {
      var entity := GetById(id);
      if entity == null {
        return Pass;
      }
      r := context.SaveChanges(RemoveGenre(id));
    }
  }

  /** The row a book entity writes. */
  function BookRowOf(book: Book): BookRow
    reads book
  {
    BookRow(book.name, book.authorId, book.genreId, book.description)
  }

  /** The book carries the stored row under its id, and its navigations are freshly loaded
      copies of the author and genre rows it refers to. */
  predicate LoadedWithJoins(book: Book, s: Store)
    reads book, book.author, book.genre
  {
    && book.id in s.books
    && BookRowOf(book) == s.books[book.id]
    && book.author != null && book.author.id == book.authorId
    && book.authorId in s.authors && book.author.name == s.authors[book.authorId].name
    && book.genre != null && book.genre.id == book.genreId
    && book.genreId in s.genres && book.genre.name == s.genres[book.genreId].name
  }

  class BookRepository {
    const context: BookstoreDbContext

    constructor (context: BookstoreDbContext)
      ensures this.context == context
    {
      this.context := context;
    }

    /** Materialises the stored book `id` with its Author and Genre attached (Include). */
    method Load(id: Guid) returns (book: Book)
      requires context.Valid() && id in context.books
      ensures fresh(book) && fresh(book.author) && fresh(book.genre)
      ensures book.id == id && LoadedWithJoins(book, context.Snapshot())
    {
      var row := context.books[id];
      var author := new Author.Load(row.authorId, context.authors[row.authorId].name);
      var genre := new Genre.Load(row.genreId, context.genres[row.genreId].name);
      book := new Book.Load(id, row.name, row.authorId, author, row.genreId, genre, row.description);
    }

    /** Include(Author).Include(Genre).AsNoTracking().ToListAsync(), in scan order. */
    method GetAll() returns (list: seq<Book>)
      requires context.Valid()
      ensures Enumerates(Ids(list, (b: Book) => b.id), context.books)
      ensures forall i :: 0 <= i < |list| ==> LoadedWithJoins(list[i], context.Snapshot())
    {
      var keys := Scan(context.books);
      list := [];
      for i := 0 to |keys|
        invariant |list| == i
        invariant forall j :: 0 <= j < i ==> list[j].id == keys[j] && LoadedWithJoins(list[j], context.Snapshot())
      {
        var book := Load(keys[i]);
        list := list + [book];
      }
      assert Ids(list, (b: Book) => b.id) == keys;
    }

    /** The same joined query filtered by id: null when no book has that id. */
    method GetById(id: Guid) returns (book: Book?)
      requires context.Valid()
      ensures book == null <==> id !in context.books
      ensures book != null ==> fresh(book) && fresh(book.author) && fresh(book.genre)
      ensures book != null ==> book.id == id && LoadedWithJoins(book, context.Snapshot())
    {
      if id !in context.books {
        return null;
      }
      book := Load(id);
    }

    /** AddAsync then SaveChangesAsync; the foreign keys are checked by the store. */
    method Create(book: Book) returns (r: Outcome<Exception>)
      requires context.Valid() && book.Valid()
      modifies context
      ensures context.Valid()
      ensures r.Pass? <==> Refusal(old(context.Snapshot()), AddBook(book.id, BookRowOf(book))).None?
      ensures r.Pass? ==> context.books == old(context.books)[book.id := BookRowOf(book)]
      ensures r.Fail? ==> context.Snapshot() == old(context.Snapshot())
      ensures r.Fail? ==> r.error == DbUpdateException(Refusal(old(context.Snapshot()), AddBook(book.id, BookRowOf(book))).value)
      ensures context.authors == old(context.authors) && context.genres == old(context.genres)
    {
      r := context.SaveChanges(AddBook(book.id, BookRowOf(book)));
    }

    /** Update then SaveChangesAsync: overwrites the row keyed by the book's id. */
    method Update(book: Book) returns (r: Outcome<Exception>)
      requires context.Valid() && book.Valid()
      modifies context
      ensures context.Valid()
      ensures r.Pass? <==> Refusal(old(context.Snapshot()), UpdateBook(book.id, BookRowOf(book))).None?
      ensures r.Pass? ==> context.books == old(context.books)[book.id := BookRowOf(book)]
      ensures r.Fail? ==> context.Snapshot() == old(context.Snapshot())
      ensures r.Fail? ==> r.error == DbUpdateException(Refusal(old(context.Snapshot()), UpdateBook(book.id, BookRowOf(book))).value)
      ensures context.authors == old(context.authors) && context.genres == old(context.genres)
    {
      r := context.SaveChanges(UpdateBook(book.id, BookRowOf(book)));
    }

    /** Removes the book if there is one and silently returns otherwise; nothing refers to a book,
        so a present book is always removed. */
    method Delete(id: Guid) returns (r: Outcome<Exception>)
      requires context.Valid()
      modifies context
      ensures context.Valid() && r.Pass?
      ensures id !in old(context.books) ==> context.Snapshot() == old(context.Snapshot())
      ensures id in old(context.books) ==> context.books == old(context.books) - {id}
      ensures context.authors == old(context.authors) && context.genres == old(context.genres)
    {
      var entity := GetById(id);
      if entity == null {
        return Pass;
      }
      r := context.SaveChanges(RemoveBook(id));
    }
  }
}
