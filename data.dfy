/** The relational store behind BookstoreDbContext: three tables keyed by Id, the column and
    foreign-key constraints that OnModelCreating declares, and SaveChanges as an all-or-nothing
    commit of one pending change. */
module Data {
  import opened Wrappers
  import opened Platform

  datatype AuthorRow = AuthorRow(name: string)
  datatype GenreRow = GenreRow(name: string)
  datatype BookRow = BookRow(name: string, authorId: Guid, genreId: Guid, description: Option<string>)

  const AuthorNameMaxLength := 200
  const GenreNameMaxLength := 100
  const BookNameMaxLength := 500
  const BookDescriptionMaxLength := 2000

  /** The Authors, Genres and Books tables; each is keyed by its primary key `Id`, so a table
      holds at most one row per id. */
  datatype Store = Store(authors: map<Guid, AuthorRow>, genres: map<Guid, GenreRow>, books: map<Guid, BookRow>)

  /** The empty database. */
  const Empty := Store(map[], map[], map[])

  predicate AuthorFits(r: AuthorRow) {
    |r.name| <= AuthorNameMaxLength
  }

  predicate GenreFits(r: GenreRow) {
    |r.name| <= GenreNameMaxLength
  }

  /** The name is bounded; the description is optional and bounded when present. */
  predicate BookFits(r: BookRow) {
    |r.name| <= BookNameMaxLength && (r.description.Some? ==> |r.description.value| <= BookDescriptionMaxLength)
  }

  /** Both foreign keys of a book row name existing rows. */
  predicate ReferencesResolve(s: Store, r: BookRow) {
    r.authorId in s.authors && r.genreId in s.genres
  }

  /** Some book's AuthorId is `id`. */
  predicate AuthorReferenced(s: Store, id: Guid) {
    exists k :: k in s.books && s.books[k].authorId == id
  }

  /** Some book's GenreId is `id`. */
  predicate GenreReferenced(s: Store, id: Guid) {
    exists k :: k in s.books && s.books[k].genreId == id
  }

  /** What the schema enforces: maximum lengths on every row and both foreign keys of every book. */
  predicate SchemaHolds(s: Store) {
    && (forall id :: id in s.authors ==> AuthorFits(s.authors[id]))
    && (forall id :: id in s.genres ==> GenreFits(s.genres[id]))
    && (forall id :: id in s.books ==> BookFits(s.books[id]) && ReferencesResolve(s, s.books[id]))
  }

  /** Every name has text: the entities refuse anything else, and rows come only from entities. */
  predicate NamesPresent(s: Store) {
    && (forall id :: id in s.authors ==> HasText(s.authors[id].name))
    && (forall id :: id in s.genres ==> HasText(s.genres[id].name))
    && (forall id :: id in s.books ==> HasText(s.books[id].name))
  }

  /** The store invariant. */
  predicate Consistent(s: Store) {
    SchemaHolds(s) && NamesPresent(s)
  }

  /** One pending change, as the DbSet's Add, Update or Remove records it. */
  datatype Change =
    | AddAuthor(id: Guid, author: AuthorRow)
    | UpdateAuthor(id: Guid, author: AuthorRow)
    | RemoveAuthor(id: Guid)
    | AddGenre(id: Guid, genre: GenreRow)
    | UpdateGenre(id: Guid, genre: GenreRow)
    | RemoveGenre(id: Guid)
    | AddBook(id: Guid, book: BookRow)
    | UpdateBook(id: Guid, book: BookRow)
    | RemoveBook(id: Guid)

  /** The change writes only rows whose names have text. */
  predicate WritesNamedRows(c: Change) {
    match c
    case AddAuthor(_, r) => HasText(r.name)
    case UpdateAuthor(_, r) => HasText(r.name)
    case AddGenre(_, r) => HasText(r.name)
    case UpdateGenre(_, r) => HasText(r.name)
    case AddBook(_, r) => HasText(r.name)
    case UpdateBook(_, r) => HasText(r.name)
    case _ => true
  }

  /** The key condition of a change: an insert needs a new key, an update or delete an existing one. */
  predicate KeyMatches(s: Store, c: Change) {
    match c
    case AddAuthor(id, _) => id !in s.authors
    case UpdateAuthor(id, _) => id in s.authors
    case RemoveAuthor(id) => id in s.authors
    case AddGenre(id, _) => id !in s.genres
    case UpdateGenre(id, _) => id in s.genres
    case RemoveGenre(id) => id in s.genres
    case AddBook(id, _) => id !in s.books
    case UpdateBook(id, _) => id in s.books
    case RemoveBook(id) => id in s.books
  }

  /** The tables after the change, as plain map operations. */
  function Apply(s: Store, c: Change): Store {
    match c
    case AddAuthor(id, r) => s.(authors := s.authors[id := r])
    case UpdateAuthor(id, r) => s.(authors := s.authors[id := r])
    case RemoveAuthor(id) => s.(authors := s.authors - {id})
    case AddGenre(id, r) => s.(genres := s.genres[id := r])
    case UpdateGenre(id, r) => s.(genres := s.genres[id := r])
    case RemoveGenre(id) => s.(genres := s.genres - {id})
    case AddBook(id, r) => s.(books := s.books[id := r])
    case UpdateBook(id, r) => s.(books := s.books[id := r])
    case RemoveBook(id) => s.(books := s.books - {id})
  }

  /** The constraint the database reports when it refuses the change, or None. Only the row the
      change writes, and for a delete the rows referring to it, are checked. */
  function Refusal(s: Store, c: Change): (r: Option<Violation>)
    ensures !KeyMatches(s, c) ==> r.Some? && (r.value == DuplicateKey || r.value == RowMissing)
    ensures r == Some(DuplicateKey) ==> c.AddAuthor? || c.AddGenre? || c.AddBook?
    ensures r == Some(StillReferenced) ==>
              (c.RemoveAuthor? && AuthorReferenced(s, c.id)) || (c.RemoveGenre? && GenreReferenced(s, c.id))
    ensures r == Some(MissingReference) ==> (c.AddBook? || c.UpdateBook?) && !ReferencesResolve(s, c.book)
    ensures c.RemoveBook? ==> (r.None? <==> c.id in s.books)
  {
    match c
    case AddAuthor(id, r) =>
      if id in s.authors then Some(DuplicateKey)
      else if !AuthorFits(r) then Some(ValueTooLong)
      else None
    case UpdateAuthor(id, r) =>
      if id !in s.authors then Some(RowMissing)
      else if !AuthorFits(r) then Some(ValueTooLong)
      else None
    case RemoveAuthor(id) =>
      if id !in s.authors then Some(RowMissing)
      else if AuthorReferenced(s, id) then Some(StillReferenced)
      else None
    case AddGenre(id, r) =>
      if id in s.genres then Some(DuplicateKey)
      else if !GenreFits(r) then Some(ValueTooLong)
      else None
    case UpdateGenre(id, r) =>
      if id !in s.genres then Some(RowMissing)
      else if !GenreFits(r) then Some(ValueTooLong)
      else None
    case RemoveGenre(id) =>
      if id !in s.genres then Some(RowMissing)
      else if GenreReferenced(s, id) then Some(StillReferenced)
      else None
    case AddBook(id, r) =>
      if id in s.books then Some(DuplicateKey)
      else if !BookFits(r) then Some(ValueTooLong)
      else if !ReferencesResolve(s, r) then Some(MissingReference)
      else None
    case UpdateBook(id, r) =>
      if id !in s.books then Some(RowMissing)
      else if !BookFits(r) then Some(ValueTooLong)
      else if !ReferencesResolve(s, r) then Some(MissingReference)
      else None
    case RemoveBook(id) =>
      if id !in s.books then Some(RowMissing)
      else None
  }

  /** SaveChanges of one change: the new tables, or the violation with nothing written. */
  function Commit(s: Store, c: Change): (r: Result<Store, Violation>)
    ensures r.Success? ==> KeyMatches(s, c)
    ensures r.Success? && c.RemoveAuthor? ==> !AuthorReferenced(s, c.id)
    ensures r.Success? && c.RemoveGenre? ==> !GenreReferenced(s, c.id)
    ensures r.Success? && r.value.authors != s.authors ==> c.AddAuthor? || c.UpdateAuthor? || c.RemoveAuthor?
    ensures r.Success? && r.value.genres != s.genres ==> c.AddGenre? || c.UpdateGenre? || c.RemoveGenre?
    ensures r.Success? && r.value.books != s.books ==> c.AddBook? || c.UpdateBook? || c.RemoveBook?
  {
    match Refusal(s, c)
    case Some(v) => Failure(v)
    case None => Success(Apply(s, c))
  }

  /** The database's row-local checks are exactly the schema: on a store that satisfies it, a
      change is accepted if and only if its key condition holds and the tables it would produce
      still satisfy the schema. */
  lemma CommitAdmitsExactlySchema(s: Store, c: Change)
    requires SchemaHolds(s)
    ensures Commit(s, c).Success? <==> KeyMatches(s, c) && SchemaHolds(Apply(s, c))
  {
    if c.AddAuthor? || c.UpdateAuthor? || c.RemoveAuthor? {
      AuthorChangeAdmitsExactlySchema(s, c);
    } else if c.AddGenre? || c.UpdateGenre? || c.RemoveGenre? {
      GenreChangeAdmitsExactlySchema(s, c);
    } else {
      BookChangeAdmitsExactlySchema(s, c);
    }
  }

  /** `CommitAdmitsExactlySchema` for the changes to the Authors table. */
  lemma AuthorChangeAdmitsExactlySchema(s: Store, c: Change)
    requires SchemaHolds(s) && (c.AddAuthor? || c.UpdateAuthor? || c.RemoveAuthor?)
    ensures Refusal(s, c).None? <==> KeyMatches(s, c) && SchemaHolds(Apply(s, c))
  {
    var t := Apply(s, c);
    match c
    case RemoveAuthor(id) =>
      if id in s.authors && AuthorReferenced(s, id) {
        var k :| k in s.books && s.books[k].authorId == id;
        assert k in t.books && !ReferencesResolve(t, t.books[k]);
      }
    case AddAuthor(id, r) =>
      if id !in s.authors && !AuthorFits(r) {
        assert id in t.authors && !AuthorFits(t.authors[id]);
      }
    case UpdateAuthor(id, r) =>
      if id in s.authors && !AuthorFits(r) {
        assert id in t.authors && !AuthorFits(t.authors[id]);
      }
  }

  /** `CommitAdmitsExactlySchema` for the changes to the Genres table. */
  lemma GenreChangeAdmitsExactlySchema(s: Store, c: Change)
    requires SchemaHolds(s) && (c.AddGenre? || c.UpdateGenre? || c.RemoveGenre?)
    ensures Refusal(s, c).None? <==> KeyMatches(s, c) && SchemaHolds(Apply(s, c))
  {
    var t := Apply(s, c);
    match c
    case RemoveGenre(id) =>
      if id in s.genres && GenreReferenced(s, id) {
        var k :| k in s.books && s.books[k].genreId == id;
        assert k in t.books && !ReferencesResolve(t, t.books[k]);
      }
    case AddGenre(id, r) =>
      if id !in s.genres && !GenreFits(r) {
        assert id in t.genres && !GenreFits(t.genres[id]);
      }
    case UpdateGenre(id, r) =>
      if id in s.genres && !GenreFits(r) {
        assert id in t.genres && !GenreFits(t.genres[id]);
      }
  }

  /** `CommitAdmitsExactlySchema` for the changes to the Books table. */
  lemma BookChangeAdmitsExactlySchema(s: Store, c: Change)
    requires SchemaHolds(s) && (c.AddBook? || c.UpdateBook? || c.RemoveBook?)
    ensures Refusal(s, c).None? <==> KeyMatches(s, c) && SchemaHolds(Apply(s, c))
  {
    var t := Apply(s, c);
    match c
    case AddBook(id, r) =>
      if id !in s.books && (!BookFits(r) || !ReferencesResolve(s, r)) {
        assert id in t.books && t.books[id] == r;
      }
    case UpdateBook(id, r) =>
      if id in s.books && (!BookFits(r) || !ReferencesResolve(s, r)) {
        assert id in t.books && t.books[id] == r;
      }
    case RemoveBook(id) =>
  }

  /** A committed change keeps the store invariant, provided the rows it writes have names. */
  lemma CommitKeepsConsistent(s: Store, c: Change)
    requires Consistent(s) && WritesNamedRows(c)
    ensures Commit(s, c).Success? ==> Consistent(Commit(s, c).value)
  {
    CommitAdmitsExactlySchema(s, c);
  }

  /** Restrict on delete: an author or genre that a book still refers to cannot be removed. */
  lemma RestrictOnDelete(s: Store, id: Guid)
    ensures id in s.authors && AuthorReferenced(s, id) ==> Commit(s, RemoveAuthor(id)) == Failure(StillReferenced)
    ensures id in s.genres && GenreReferenced(s, id) ==> Commit(s, RemoveGenre(id)) == Failure(StillReferenced)
  {
  }

  /** Primary keys: inserting a second row under an id that is taken is refused. */
  lemma KeysAreUnique(s: Store, id: Guid, a: AuthorRow, g: GenreRow, b: BookRow)
    ensures id in s.authors ==> Commit(s, AddAuthor(id, a)) == Failure(DuplicateKey)
    ensures id in s.genres ==> Commit(s, AddGenre(id, g)) == Failure(DuplicateKey)
    ensures id in s.books ==> Commit(s, AddBook(id, b)) == Failure(DuplicateKey)
  {
  }

  /** On a consistent store nothing refers to an id that is not a key yet, so removing a row
      just inserted is accepted and gives back the store as it was. */
  lemma {:induction false} RemoveUndoesAdd(s: Store, c: Change)
    requires Consistent(s)
    requires c.AddAuthor? || c.AddGenre? || c.AddBook?
    requires Commit(s, c).Success?
    ensures c.AddAuthor? ==> Commit(Commit(s, c).value, RemoveAuthor(c.id)) == Success(s)
    ensures c.AddGenre? ==> Commit(Commit(s, c).value, RemoveGenre(c.id)) == Success(s)
    ensures c.AddBook? ==> Commit(Commit(s, c).value, RemoveBook(c.id)) == Success(s)
  {
    var t := Commit(s, c).value;
    match c
    case AddAuthor(id, r) =>
      assert !AuthorReferenced(t, id);
      assert t.authors - {id} == s.authors;
    case AddGenre(id, r) =>
      assert !GenreReferenced(t, id);
      assert t.genres - {id} == s.genres;
    case AddBook(id, r) =>
      assert t.books - {id} == s.books;
  }

  /** A create, read, delete walk on the Genres table: a genre named "Fantasy" is added to a
      consistent store under a new id, holds that name, and, no book referring to it, is removed
      again, leaving the store as it was. */
  lemma FantasyLifecycle(s: Store, id: Guid)
    requires Consistent(s) && id !in s.genres
    ensures Commit(s, AddGenre(id, GenreRow("Fantasy"))).Success?
    ensures var t := Commit(s, AddGenre(id, GenreRow("Fantasy"))).value;
      && t.genres[id].name == "Fantasy"
      && Commit(t, RemoveGenre(id)) == Success(s)
  {
    RemoveUndoesAdd(s, AddGenre(id, GenreRow("Fantasy")));
  }

  /** The database behind one request's context: the three DbSets. */
  class BookstoreDbContext {
    var authors: map<Guid, AuthorRow>
    var genres: map<Guid, GenreRow>
    var books: map<Guid, BookRow>

    function Snapshot(): Store
      reads this
    {
      Store(authors, genres, books)
    }

    predicate Valid()
      reads this
    {
      Consistent(Snapshot())
    }

    constructor ()
      ensures Valid() && Snapshot() == Empty
    {
      authors, genres, books := map[], map[], map[];
    }

    /** Saves one pending change: either the tables become `Commit`'s result, or the
        DbUpdateException propagates and nothing is written. */
    method SaveChanges(c: Change) returns (r: Outcome<Exception>)
      requires Valid() && WritesNamedRows(c)
      modifies this
      ensures Valid()
      ensures Commit(old(Snapshot()), c).Success? ==> r.Pass? && Snapshot() == Commit(old(Snapshot()), c).value
      ensures Commit(old(Snapshot()), c).Failure? ==>
                r == Fail(DbUpdateException(Commit(old(Snapshot()), c).error)) && Snapshot() == old(Snapshot())
    {
      var s := Snapshot();
      CommitKeepsConsistent(s, c);
      match Commit(s, c)
      case Failure(v) =>
        return Fail(DbUpdateException(v));
      case Success(t) =>
        authors, genres, books := t.authors, t.genres, t.books;
        return Pass;
    }
  }
}
