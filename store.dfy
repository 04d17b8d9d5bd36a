/**
 * The document store behind the resolvers: the Book and Author collections
 * in insertion order, the invariant every save keeps, and the two updates the
 * resolvers make to an Author in place (`$push` and a field overwrite).
 *
 * Ids come from one counter `nextId` and creation timestamps from a clock
 * `clock` that moves forward on every insert; a collection's insertion order
 * is therefore its `createdAt` order.
 */
module Store {
  import opened Wrappers
  import opened Schema

  predicate HasAuthorId(authors: seq<Author>, id: Id)
  {
    exists j | 0 <= j < |authors| :: authors[j].id == id
  }

  predicate HasBookId(books: seq<Book>, id: Id)
  {
    exists i | 0 <= i < |books| :: books[i].id == id
  }

  predicate DistinctBookIds(books: seq<Book>)
  {
    forall i, j | 0 <= i < j < |books| :: books[i].id != books[j].id
  }

  predicate DistinctAuthorIds(authors: seq<Author>)
  {
    forall i, j | 0 <= i < j < |authors| :: authors[i].id != authors[j].id
  }

  predicate NoDuplicates(ids: seq<Id>)
  {
    forall i, j | 0 <= i < j < |ids| :: ids[i] != ids[j]
  }

  /** Every id and timestamp in the store was handed out before `nextId` and `clock`. */
  predicate Issued(books: seq<Book>, authors: seq<Author>, nextId: nat, clock: int)
  {
    && (forall i | 0 <= i < |books| :: books[i].id < nextId && books[i].createdAt < clock)
    && (forall j | 0 <= j < |authors| :: authors[j].id < nextId && authors[j].createdAt < clock)
  }

  /** Every Book references an Author that exists. */
  predicate RefsExist(books: seq<Book>, authors: seq<Author>)
  {
    forall i | 0 <= i < |books| :: books[i].authorId.Some? && HasAuthorId(authors, books[i].authorId.value)
  }

  /** An Author's `books` holds a Book's id exactly when the Book references that Author. */
  predicate ListsMatch(books: seq<Book>, authors: seq<Author>)
  {
    forall i, j | 0 <= i < |books| && 0 <= j < |authors| ::
      books[i].authorId == Some(authors[j].id) <==> books[i].id in authors[j].books
  }

  /** A Book's `author` is the name of the Author it references. */
  predicate NamesMatch(books: seq<Book>, authors: seq<Author>)
  {
    forall i, j | 0 <= i < |books| && 0 <= j < |authors| && books[i].authorId == Some(authors[j].id) ::
      books[i].author == authors[j].name
  }

  /** Every id in an Author's `books` is the id of an existing Book. */
  predicate ListsExist(books: seq<Book>, authors: seq<Author>)
  {
    forall j, x | 0 <= j < |authors| && x in authors[j].books :: HasBookId(books, x)
  }

  predicate ListsDistinct(authors: seq<Author>)
  {
    forall j | 0 <= j < |authors| :: NoDuplicates(authors[j].books)
  }

  /**
   * The references between the collections: every Book names an existing
   * Author by id and by name, and an Author's `books` lists, without
   * repetition, exactly the existing Books that reference it.
   */
  predicate Linked(books: seq<Book>, authors: seq<Author>)
  {
    RefsExist(books, authors) && ListsMatch(books, authors) && NamesMatch(books, authors) &&
    ListsExist(books, authors) && ListsDistinct(authors)
  }

  /** No two Books share a title and an author name: addBook refuses a second one. */
  predicate UniqueTitleAuthor(books: seq<Book>)
  {
    forall i, j | 0 <= i < j < |books| :: !(books[i].title == books[j].title && books[i].author == books[j].author)
  }

  /** Every Book has at least one genre: addBook refuses an empty list. */
  predicate AllHaveGenres(books: seq<Book>)
  {
    forall i | 0 <= i < |books| :: |books[i].genres| >= 1
  }

  /** The store invariant. */
  predicate Inv(books: seq<Book>, authors: seq<Author>, nextId: nat, clock: int)
  {
    && AllValidBooks(books) && AllValidAuthors(authors) && UniqueNames(authors)
    && UniqueTitleAuthor(books) && AllHaveGenres(books)
    && BooksByCreation(books) && AuthorsByCreation(authors)
    && DistinctBookIds(books) && DistinctAuthorIds(authors)
    && Issued(books, authors, nextId, clock)
    && Linked(books, authors)
  }

  /**
   * `Author.findByIdAndUpdate(id, {$push: {books: bookId}})`: appends the id
   * to the `books` of the Author with that id, whether or not it is there
   * already, and leaves every other Author as it was.
   */
  function PushBook(authors: seq<Author>, authorId: Id, bookId: Id): (r: seq<Author>)
    ensures |r| == |authors|
    ensures forall j | 0 <= j < |authors| ::
      r[j] == if authors[j].id == authorId then authors[j].(books := authors[j].books + [bookId]) else authors[j]
  {
    seq(|authors|, j requires 0 <= j < |authors| =>
      if authors[j].id == authorId then authors[j].(books := authors[j].books + [bookId]) else authors[j])
  }

  /** `Author.findByIdAndUpdate(id, {name, born})` when the name is the Author's own. */
  function SetBorn(authors: seq<Author>, authorId: Id, born: int): (r: seq<Author>)
    ensures |r| == |authors|
    ensures forall j | 0 <= j < |authors| ::
      r[j] == if authors[j].id == authorId then authors[j].(born := Some(born)) else authors[j]
  {
    seq(|authors|, j requires 0 <= j < |authors| =>
      if authors[j].id == authorId then authors[j].(born := Some(born)) else authors[j])
  }

  /** In a consistent store every Book's `author` is a name Mongoose would accept for an Author. */
  lemma BookAuthorNamesValid(books: seq<Book>, authors: seq<Author>, nextId: nat, clock: int)
    requires Inv(books, authors, nextId, clock)
    ensures forall i | 0 <= i < |books| :: JsLength(books[i].author) >= NameMinLength
  {
    forall i | 0 <= i < |books|
      ensures JsLength(books[i].author) >= NameMinLength
    {
      var j :| 0 <= j < |authors| && authors[j].id == books[i].authorId.value;
      assert ValidAuthor(authors[j]);
    }
  }

  // ---------------------------------------------------------------------------
  // The invariant is kept by every write addBook and editAuthor make
  // ---------------------------------------------------------------------------

  lemma EmptyStore()
    ensures Inv([], [], 0, 0)
  {
  }

  /** A Book's reference, like every id in the store, is below `nextId`. */
  lemma RefsBelow(books: seq<Book>, authors: seq<Author>, nextId: nat, clock: int)
    requires RefsExist(books, authors) && Issued(books, authors, nextId, clock)
    ensures forall i | 0 <= i < |books| :: books[i].authorId.Some? && books[i].authorId.value < nextId
  {
    forall i | 0 <= i < |books|
      ensures books[i].authorId.Some? && books[i].authorId.value < nextId
    {
      var j :| 0 <= j < |authors| && authors[j].id == books[i].authorId.value;
    }
  }

  /** No Author's `books` holds an id that was never handed out. */
  lemma ListsBelow(books: seq<Book>, authors: seq<Author>, nextId: nat, clock: int)
    requires ListsExist(books, authors) && Issued(books, authors, nextId, clock)
    ensures forall j | 0 <= j < |authors| :: nextId !in authors[j].books
  {
    forall j, x | 0 <= j < |authors| && x in authors[j].books
      ensures x < nextId
    {
      assert HasBookId(books, x);
      var i :| 0 <= i < |books| && books[i].id == x;
    }
  }

  /** Saving a new Author with a fresh id, a new name and no books keeps the invariant. */
  lemma InsertAuthorKeepsInv(books: seq<Book>, authors: seq<Author>, nextId: nat, clock: int, name: string)
    requires Inv(books, authors, nextId, clock)
    requires JsLength(name) >= NameMinLength && !NameTaken(authors, name)
    ensures Inv(books, authors + [Author(nextId, name, None, [], clock)], nextId + 1, clock + 1)
  {
    var a := Author(nextId, name, None, [], clock);
    assert SaveAuthor(authors, a) == Some(authors + [a]);
    RefsBelow(books, authors, nextId, clock);
    InsertAuthorKeepsLinks(books, authors, a);
  }

  lemma InsertAuthorKeepsLinks(books: seq<Book>, authors: seq<Author>, a: Author)
    requires Linked(books, authors) && a.books == []
    requires forall i | 0 <= i < |books| :: books[i].authorId != Some(a.id)
    ensures Linked(books, authors + [a])
  {
    var authors' := authors + [a];
    forall i | 0 <= i < |books|
      ensures books[i].authorId.Some? && HasAuthorId(authors', books[i].authorId.value)
    {
      var j :| 0 <= j < |authors| && authors[j].id == books[i].authorId.value;
      assert authors'[j].id == books[i].authorId.value;
    }
    forall j, x | 0 <= j < |authors'| && x in authors'[j].books
      ensures HasBookId(books, x)
    {
      assert j < |authors|;
    }
  }

  /**
   * Saving a Book that references the Author at index `owner`, then the
   * `$push` of its id onto that Author's `books`, keeps the invariant.
   */
  lemma InsertLinkedBookKeepsInv(books: seq<Book>, authors: seq<Author>, nextId: nat, clock: int, owner: nat, b: Book)
    requires Inv(books, authors, nextId, clock)
    requires owner < |authors|
    requires ValidBook(b) && b.id == nextId && b.createdAt == clock
    requires b.authorId == Some(authors[owner].id) && b.author == authors[owner].name
    requires |b.genres| >= 1
    requires forall i | 0 <= i < |books| :: !(books[i].title == b.title && books[i].author == b.author)
    ensures Inv(books + [b], PushBook(authors, authors[owner].id, nextId), nextId + 1, clock + 1)
  {
    var authors' := PushBook(authors, authors[owner].id, nextId);
    assert SaveBook(books, b) == Some(books + [b]);
    PushBookKeepsRecords(authors, authors[owner].id, nextId);
    ListsBelow(books, authors, nextId, clock);
    InsertBookKeepsRefs(books, authors, owner, b);
    InsertBookKeepsLists(books, authors, nextId, clock, owner, b);
    InsertBookKeepsUnique(books, b);
  }

  /** A new Book with genres and a fresh (title, author) pair keeps both book-level rules. */
  lemma InsertBookKeepsUnique(books: seq<Book>, b: Book)
    requires UniqueTitleAuthor(books) && AllHaveGenres(books) && |b.genres| >= 1
    requires forall i | 0 <= i < |books| :: !(books[i].title == b.title && books[i].author == b.author)
    ensures UniqueTitleAuthor(books + [b]) && AllHaveGenres(books + [b])
  {
    var books' := books + [b];
    forall i, j | 0 <= i < j < |books'|
      ensures !(books'[i].title == books'[j].title && books'[i].author == books'[j].author)
    {
      if j < |books| {
        assert books'[i] == books[i] && books'[j] == books[j];
      } else {
        assert books'[i] == books[i] && books'[j] == b;
      }
    }
  }

  /** `$push` leaves every Author's id, name and timestamp alone. */
  lemma PushBookKeepsRecords(authors: seq<Author>, authorId: Id, bookId: Id)
    ensures var authors' := PushBook(authors, authorId, bookId);
      && (forall j | 0 <= j < |authors| ::
            authors'[j].id == authors[j].id && authors'[j].name == authors[j].name &&
            authors'[j].createdAt == authors[j].createdAt)
      && (AllValidAuthors(authors) ==> AllValidAuthors(authors'))
      && (UniqueNames(authors) ==> UniqueNames(authors'))
      && (AuthorsByCreation(authors) ==> AuthorsByCreation(authors'))
      && (DistinctAuthorIds(authors) ==> DistinctAuthorIds(authors'))
  {
  }

  lemma InsertBookKeepsRefs(books: seq<Book>, authors: seq<Author>, owner: nat, b: Book)
    requires RefsExist(books, authors) && NamesMatch(books, authors)
    requires owner < |authors| && DistinctAuthorIds(authors)
    requires b.authorId == Some(authors[owner].id) && b.author == authors[owner].name
    ensures var authors' := PushBook(authors, authors[owner].id, b.id);
      RefsExist(books + [b], authors') && NamesMatch(books + [b], authors')
  {
    var books' := books + [b];
    var authors' := PushBook(authors, authors[owner].id, b.id);
    forall i | 0 <= i < |books'|
      ensures books'[i].authorId.Some? && HasAuthorId(authors', books'[i].authorId.value)
    {
      if i < |books| {
        var j :| 0 <= j < |authors| && authors[j].id == books[i].authorId.value;
        assert authors'[j].id == books'[i].authorId.value;
      } else {
        assert authors'[owner].id == books'[i].authorId.value;
      }
    }
    assert forall j | 0 <= j < |authors| :: authors'[j].id == authors[j].id && authors'[j].name == authors[j].name;
  }

  lemma InsertBookKeepsLists(books: seq<Book>, authors: seq<Author>, nextId: nat, clock: int, owner: nat, b: Book)
    requires ListsMatch(books, authors) && ListsExist(books, authors) && ListsDistinct(authors)
    requires Issued(books, authors, nextId, clock) && DistinctAuthorIds(authors)
    requires owner < |authors| && b.id == nextId && b.authorId == Some(authors[owner].id)
    requires forall j | 0 <= j < |authors| :: nextId !in authors[j].books
    ensures var authors' := PushBook(authors, authors[owner].id, nextId);
      ListsMatch(books + [b], authors') && ListsExist(books + [b], authors') && ListsDistinct(authors')
  {
    var books' := books + [b];
    var authors' := PushBook(authors, authors[owner].id, nextId);
    forall i, j | 0 <= i < |books'| && 0 <= j < |authors'|
      ensures books'[i].authorId == Some(authors'[j].id) <==> books'[i].id in authors'[j].books
    {
      if i < |books| {
        assert books[i].id < nextId;
      } else if j != owner {
        assert authors[j].id != authors[owner].id;
      }
    }
    forall j, x | 0 <= j < |authors'| && x in authors'[j].books
      ensures HasBookId(books', x)
    {
      if x == nextId {
        assert books'[|books|].id == x;
      } else {
        assert x in authors[j].books;
        assert HasBookId(books, x);
        var i :| 0 <= i < |books| && books[i].id == x;
        assert books'[i].id == x;
      }
    }
    forall j | 0 <= j < |authors'|
      ensures NoDuplicates(authors'[j].books)
    {
      assert NoDuplicates(authors[j].books);
    }
  }

  /** Overwriting the birth year of one Author keeps the invariant. */
  lemma SetBornKeepsInv(books: seq<Book>, authors: seq<Author>, nextId: nat, clock: int, authorId: Id, born: int)
    requires Inv(books, authors, nextId, clock)
    ensures Inv(books, SetBorn(authors, authorId, born), nextId, clock)
  {
    var authors' := SetBorn(authors, authorId, born);
    assert forall j | 0 <= j < |authors| ::
      authors'[j].id == authors[j].id && authors'[j].name == authors[j].name &&
      authors'[j].books == authors[j].books && authors'[j].createdAt == authors[j].createdAt;
    forall i | 0 <= i < |books|
      ensures books[i].authorId.Some? && HasAuthorId(authors', books[i].authorId.value)
    {
      var j :| 0 <= j < |authors| && authors[j].id == books[i].authorId.value;
      assert authors'[j].id == books[i].authorId.value;
    }
  }
}
