/**
 * The resolvers of gqlprops/resolvers.js over an in-memory document store.
 *
 * `Catalog` holds the two collections the resolvers read and write, in
 * insertion order, which the store invariant makes `createdAt` order.  The
 * mutations `addBook` and `editAuthor` change it step by step; the paginating
 * queries read it and trim what they fetched; the remaining queries are pure
 * filters over the collections.
 *
 * Authentication is an input: `authenticated` is whether the request carried
 * a current user.  Ids and timestamps come from the store's counters.
 */
module Resolvers {
  import opened Wrappers
  import opened Schema
  import opened Store
  import opened Pagination

  /** The resolver's own minimum for an author name, above the schema's NameMinLength. */
  const ResolverNameMinLength := 5

  /** What `addBook` throws: an AuthenticationError, a UserInputError, or 'Unable Add book'. */
  datatype AddBookError = NotAuthenticated | BookExists | AuthorNameTooShort | GenresMissing | UnableToAddBook

  /** What `editAuthor` throws. */
  datatype EditAuthorError = NotAuthorized

  /** What `booksSearch` returns: `undefined`, `null` or `{book}`. */
  datatype SearchResult = Undefined | Null | Found(book: seq<Book>)

  // ---------------------------------------------------------------------------
  // Queries over a collection: find(filter) and findOne(filter)
  // ---------------------------------------------------------------------------

  /** `find(filter)`: the documents that pass the filter, in collection order. */
  function Where<T>(s: seq<T>, keep: T -> bool): (r: seq<T>)
    ensures |r| <= |s|
    ensures forall x | x in r :: x in s && keep(x)
    ensures forall x | x in s && keep(x) :: x in r
  {
    if s == [] then []
    else if keep(s[0]) then [s[0]] + Where(s[1..], keep)
    else Where(s[1..], keep)
  }

  /** A filter of books sorted by `createdAt` is still sorted by `createdAt`. */
  lemma {:induction false} WhereKeepsOrder(books: seq<Book>, keep: Book -> bool)
    ensures BooksByCreation(books) ==> BooksByCreation(Where(books, keep))
  {
    if books != [] && BooksByCreation(books) {
      WhereKeepsOrder(books[1..], keep);
      var rest := Where(books[1..], keep);
      forall x | x in rest
        ensures books[0].createdAt < x.createdAt
      {
        var k :| 0 <= k < |books[1..]| && books[1..][k] == x;
        assert books[k + 1] == x;
      }
    }
  }

  /** Filters that agree on every document select the same documents. */
  lemma {:induction false} WhereAgrees<T>(s: seq<T>, f: T -> bool, g: T -> bool)
    requires forall k | 0 <= k < |s| :: f(s[k]) == g(s[k])
    ensures Where(s, f) == Where(s, g)
  {
    if s != [] {
      WhereAgrees(s[1..], f, g);
    }
  }

  /** A filter that only one document passes selects that document alone. */
  lemma {:induction false} WhereSingle<T>(s: seq<T>, keep: T -> bool, j: nat)
    requires j < |s| && keep(s[j])
    requires forall k | 0 <= k < |s| && k != j :: !keep(s[k])
    ensures Where(s, keep) == [s[j]]
  {
    if j == 0 {
      assert forall k | 0 <= k < |s[1..]| :: !keep(s[1..][k]) by {
        forall k | 0 <= k < |s[1..]| ensures !keep(s[1..][k]) {
          assert s[1..][k] == s[k + 1];
        }
      }
      WhereNone(s[1..], keep);
    } else {
      forall k | 0 <= k < |s[1..]| && k != j - 1
        ensures !keep(s[1..][k])
      {
        assert s[1..][k] == s[k + 1];
      }
      WhereSingle(s[1..], keep, j - 1);
    }
  }

  lemma {:induction false} WhereNone<T>(s: seq<T>, keep: T -> bool)
    requires forall k | 0 <= k < |s| :: !keep(s[k])
    ensures Where(s, keep) == []
  {
    if s != [] {
      assert forall k | 0 <= k < |s[1..]| :: s[1..][k] == s[k + 1];
      WhereNone(s[1..], keep);
    }
  }

  /** `findOne(filter)`: the index of the first document that passes the filter. */
  function FindFirst<T>(s: seq<T>, keep: T -> bool): (r: Option<nat>)
    ensures r.Some? ==> r.value < |s| && keep(s[r.value]) && forall k | 0 <= k < r.value :: !keep(s[k])
    ensures r.None? ==> forall k | 0 <= k < |s| :: !keep(s[k])
  {
    if s == [] then None
    else if keep(s[0]) then Some(0)
    else match FindFirst(s[1..], keep)
      case None => None
      case Some(k) => Some(k + 1)
  }

  /** `Author.findOne({name})`, as an index into the collection. */
  function FindAuthorNamed(authors: seq<Author>, name: string): (r: Option<nat>)
    ensures r.Some? ==> r.value < |authors| && authors[r.value].name == name
    ensures r.None? <==> !NameTaken(authors, name)
  {
    FindFirst(authors, (a: Author) => a.name == name)
  }

  /** `Book.findOne({title, author})`, the duplicate check of addBook. */
  function FindBookBy(books: seq<Book>, title: string, author: string): (r: Option<Book>)
    ensures r.Some? ==> r.value in books && r.value.title == title && r.value.author == author
    ensures r.None? <==> forall b | b in books :: !(b.title == title && b.author == author)
  {
    match FindFirst(books, (b: Book) => b.title == title && b.author == author)
    case None => None
    case Some(k) => Some(books[k])
  }

  /** Query `book(title)`: the first Book with that title, or null. */
  function BookByTitle(books: seq<Book>, title: string): (r: Option<Book>)
    ensures r.Some? ==> (r.value.title == title &&
      exists k | 0 <= k < |books| ::
        books[k] == r.value && forall i | 0 <= i < k :: books[i].title != title)
    ensures r.None? <==> forall b | b in books :: b.title != title
  {
    match FindFirst(books, (b: Book) => b.title == title)
    case None => None
    case Some(k) => Some(books[k])
  }

  /** Query `author(id)`: the Author with that id, or null. */
  function AuthorById(authors: seq<Author>, id: Id): (r: Option<Author>)
    ensures r.Some? ==> r.value in authors && r.value.id == id
    ensures r.None? <==> !HasAuthorId(authors, id)
  {
    match FindFirst(authors, (a: Author) => a.id == id)
    case None => None
    case Some(k) => Some(authors[k])
  }

  // ---------------------------------------------------------------------------
  // booksSearch
  // ---------------------------------------------------------------------------

  /** A JavaScript argument is truthy when it is present and not the empty string. */
  predicate Truthy(arg: Option<string>)
  {
    arg.Some? && arg.value != ""
  }

  /** The books a search asks for: the given author, and the given genre among the genres. */
  predicate Matches(b: Book, author: Option<string>, genre: Option<string>)
  {
    (Truthy(author) ==> b.author == author.value) && (Truthy(genre) ==> genre.value in b.genres)
  }

  function NullIfEmpty(found: seq<Book>): SearchResult
  {
    if |found| < 1 then Null else Found(found)
  }

  /** A filter that agrees with Matches on the collection gives the search's answer. */
  lemma SearchBranch(books: seq<Book>, keep: Book -> bool, author: Option<string>, genre: Option<string>)
    requires forall b | b in books :: keep(b) == Matches(b, author, genre)
    ensures var r := NullIfEmpty(Where(books, keep));
      && !r.Undefined?
      && (r.Null? <==> forall b | b in books :: !Matches(b, author, genre))
      && (r.Found? ==> forall b :: b in r.book <==> b in books && Matches(b, author, genre))
      && (r.Found? && BooksByCreation(books) ==> BooksByCreation(r.book))
  {
    var found := Where(books, keep);
    if found != [] {
      assert found[0] in found;
    }
    WhereKeepsOrder(books, keep);
  }

  /**
   * Query `booksSearch(author, genre)`: the matching books in `createdAt`
   * order, `null` when none matches, and `undefined` when neither argument
   * was given.
   */
  function BooksSearch(books: seq<Book>, author: Option<string>, genre: Option<string>): (r: SearchResult)
    ensures r.Undefined? <==> !Truthy(author) && !Truthy(genre)
    ensures r.Null? <==> (Truthy(author) || Truthy(genre)) && forall b | b in books :: !Matches(b, author, genre)
    ensures r.Found? ==> r.book != [] && forall b :: b in r.book <==> b in books && Matches(b, author, genre)
    ensures r.Found? && BooksByCreation(books) ==> BooksByCreation(r.book)
  {
    if !Truthy(author) && Truthy(genre) then
      var keep := (b: Book) => genre.value in b.genres;
      SearchBranch(books, keep, author, genre);
      NullIfEmpty(Where(books, keep))
    else if Truthy(author) && !Truthy(genre) then
      var keep := (b: Book) => b.author == author.value;
      SearchBranch(books, keep, author, genre);
      NullIfEmpty(Where(books, keep))
    else if Truthy(author) && Truthy(genre) then
      var keep := (b: Book) => genre.value in b.genres && b.author == author.value;
      SearchBranch(books, keep, author, genre);
      NullIfEmpty(Where(books, keep))
    else
      Undefined
  }

  // ---------------------------------------------------------------------------
  // Field resolvers Book.author and Author.books
  // ---------------------------------------------------------------------------

  /** `Book.author`: `Author.find({_id: root.authorId})`. */
  function BookAuthor(authors: seq<Author>, b: Book): (r: seq<Author>)
    ensures forall a | a in r :: a in authors && b.authorId == Some(a.id)
    ensures forall a | a in authors && b.authorId == Some(a.id) :: a in r
  {
    Where(authors, (a: Author) => b.authorId == Some(a.id))
  }

  /** `Author.books`: `Book.find({_id: {$in: root.books}})`, in collection order. */
  function AuthorBooks(books: seq<Book>, a: Author): (r: seq<Book>)
    ensures forall x | x in r :: x in books && x.id in a.books
    ensures forall x | x in books && x.id in a.books :: x in r
  {
    Where(books, (b: Book) => b.id in a.books)
  }

  /** In a consistent store, a Book's author field resolves to exactly the Author it names. */
  lemma BookAuthorIsOwner(books: seq<Book>, authors: seq<Author>, nextId: nat, clock: int, i: nat)
    requires Inv(books, authors, nextId, clock) && i < |books|
    ensures var r := BookAuthor(authors, books[i]);
      |r| == 1 && r[0].name == books[i].author && books[i].id in r[0].books
  {
    var b := books[i];
    var j :| 0 <= j < |authors| && authors[j].id == b.authorId.value;
    WhereSingle(authors, (a: Author) => b.authorId == Some(a.id), j);
  }

  /**
   * In a consistent store, an Author's books field resolves to exactly the
   * Books that reference it, in `createdAt` order (not the order of the
   * Author's `books` list).
   */
  lemma AuthorBooksAreReferencing(books: seq<Book>, authors: seq<Author>, nextId: nat, clock: int, j: nat)
    requires Inv(books, authors, nextId, clock) && j < |authors|
    ensures var r := AuthorBooks(books, authors[j]);
      && r == Where(books, (b: Book) => b.authorId == Some(authors[j].id))
      && BooksByCreation(r)
      && forall b | b in r :: b.author == authors[j].name
  {
    var a := authors[j];
    WhereAgrees(books, (b: Book) => b.id in a.books, (b: Book) => b.authorId == Some(a.id));
    WhereKeepsOrder(books, (b: Book) => b.id in a.books);
    forall b | b in AuthorBooks(books, a)
      ensures b.author == a.name
    {
      var i :| 0 <= i < |books| && books[i] == b;
    }
  }

  /** Distinct keys: as many keys as positions. */
  lemma {:induction false} DistinctCount<K>(keys: seq<K>)
    requires forall i, j | 0 <= i < j < |keys| :: keys[i] != keys[j]
    ensures |set k | 0 <= k < |keys| :: keys[k]| == |keys|
  {
    if keys != [] {
      var init := keys[..|keys| - 1];
      DistinctCount(init);
      assert (set k | 0 <= k < |keys| :: keys[k]) == (set k | 0 <= k < |init| :: init[k]) + {keys[|keys| - 1]};
    }
  }

  function BookIds(books: seq<Book>): (ids: seq<Id>)
    ensures |ids| == |books| && forall k | 0 <= k < |books| :: ids[k] == books[k].id
  {
    seq(|books|, k requires 0 <= k < |books| => books[k].id)
  }

  function AuthorIds(authors: seq<Author>): (ids: seq<Id>)
    ensures |ids| == |authors| && forall k | 0 <= k < |authors| :: ids[k] == authors[k].id
  {
    seq(|authors|, k requires 0 <= k < |authors| => authors[k].id)
  }

  function AuthorNames(authors: seq<Author>): (names: seq<string>)
    ensures |names| == |authors| && forall k | 0 <= k < |authors| :: names[k] == authors[k].name
  {
    seq(|authors|, k requires 0 <= k < |authors| => authors[k].name)
  }

  // ---------------------------------------------------------------------------
  // The store and its resolvers
  // ---------------------------------------------------------------------------

  class Catalog {
    var books: seq<Book>
    var authors: seq<Author>
    var nextId: nat
    var clock: int
    /** The payloads published on BOOK_ADDED, oldest first. */
    ghost var bookAdded: seq<Book>

    ghost predicate Valid()
      reads this
    {
      Inv(books, authors, nextId, clock)
    }

    constructor ()
      ensures Valid()
      ensures books == [] && authors == [] && bookAdded == []
    {
      books, authors, nextId, clock := [], [], 0, 0;
      bookAdded := [];
      EmptyStore();
    }

    /** Query `bookCount`: `countDocuments()`, the number of distinct Books. */
    function BookCount(): (n: nat)
      requires Valid()
      reads this
      ensures n == |set k | 0 <= k < |books| :: books[k].id|
    {
      var ids := BookIds(books);
      DistinctCount(ids);
      assert (set k | 0 <= k < |ids| :: ids[k]) == (set k | 0 <= k < |books| :: books[k].id);
      |books|
    }

    /** Query `authorsCount`: `countDocuments()`, the number of distinct Authors and of their names. */
    function AuthorsCount(): (n: nat)
      requires Valid()
      reads this
      ensures n == |set k | 0 <= k < |authors| :: authors[k].id|
      ensures n == |set k | 0 <= k < |authors| :: authors[k].name|
    {
      var ids := AuthorIds(authors);
      var names := AuthorNames(authors);
      DistinctCount(ids);
      DistinctCount(names);
      assert (set k | 0 <= k < |ids| :: ids[k]) == (set k | 0 <= k < |authors| :: authors[k].id);
      assert (set k | 0 <= k < |names| :: names[k]) == (set k | 0 <= k < |authors| :: authors[k].name);
      |authors|
    }

    /**
     * Query `books(page, limit)`: fetch `limit + 1` books from offset
     * `page * limit`, and drop the extra one when it came.
     */
    method Books(page: int, limit: int) returns (r: BooksPage)
      requires page >= 0 && limit >= 0
      ensures r.books == Window(books, page * limit, limit)
      ensures r.hasMorePages <==> |books| > page * limit + limit
    {
      var found := Window(books, page * limit, limit + 1);
      var hasMorePages := if |found| <= limit then false else true;
      if hasMorePages {
        found := found[..|found| - 1];
      }
      r := BooksPage(hasMorePages, found);
    }

    /**
     * Query `authors(cursor, limit)`: fetch `limit + 1` authors, after the
     * cursor when one is given, drop the extra one, and read the cursor off
     * the last author left.
     */
    method Authors(cursor: Option<int>, limit: int) returns (r: Result<AuthorsPage, PageError>)
      requires limit >= 0
      ensures r == AuthorsPageOf(authors, cursor, limit)
    {
      var found;
      if cursor.Some? {
        found := Window(After(authors, cursor.value), 0, limit + 1);
      } else {
        found := Window(authors, 0, limit + 1);
      }
      var hasMorePages := if |found| <= limit then false else true;
      if hasMorePages {
        found := found[..|found| - 1];
      }
      assert found == Window(Selected(authors, cursor), 0, limit);
      if |found| == 0 {
        return Failure(NoLastAuthor);
      }
      return Success(AuthorsPage(found[|found| - 1].createdAt, hasMorePages, found));
    }

    /** Whether addBook's checks all pass. */
    ghost predicate PassesChecks(title: string, author: string, genres: seq<string>, authenticated: bool)
      reads this
    {
      authenticated && FindBookBy(books, title, author).None? &&
      JsLength(author) >= ResolverNameMinLength && |genres| >= 1
    }

    /**
     * Mutation `addBook`: the checks in order, then find-or-create of the
     * Author, the Book save, and the `$push` of the Book's id onto the Author.
     */
    method AddBook(title: string, published: int, author: string, genres: seq<string>, authenticated: bool)
      returns (r: Result<Book, AddBookError>)
      requires Valid()
      modifies this
      ensures Valid()
      // the checks, in order
      ensures !authenticated ==> r == Failure(NotAuthenticated)
      ensures (authenticated && FindBookBy(old(books), title, author).Some?) ==> r == Failure(BookExists)
      ensures (authenticated && FindBookBy(old(books), title, author).None? &&
        JsLength(author) < ResolverNameMinLength) ==> r == Failure(AuthorNameTooShort)
      ensures (authenticated && FindBookBy(old(books), title, author).None? &&
        JsLength(author) >= ResolverNameMinLength && genres == []) ==> r == Failure(GenresMissing)
      ensures (r.Failure? && r.error != UnableToAddBook) ==>
        books == old(books) && authors == old(authors) && nextId == old(nextId) && clock == old(clock) &&
        bookAdded == old(bookAdded)
      // past the checks, only the save of the Book can fail
      ensures old(PassesChecks(title, author, genres, authenticated)) ==>
        (r.Success? <==> JsLength(title) >= TitleMinLength)
      ensures r == Failure(UnableToAddBook) ==> books == old(books) && bookAdded == old(bookAdded)
      ensures (r == Failure(UnableToAddBook) && FindAuthorNamed(old(authors), author).Some?) ==>
        authors == old(authors)
      ensures (r == Failure(UnableToAddBook) && FindAuthorNamed(old(authors), author).None?) ==>
        authors == old(authors) + [Author(old(nextId), author, None, [], old(clock))]
      // a success adds one Book and links it to the Author of that name
      ensures r.Success? ==>
        && books == old(books) + [r.value]
        && bookAdded == old(bookAdded) + [r.value]
        && r.value.title == title && r.value.published == Some(published)
        && r.value.author == author && r.value.genres == genres
        && !HasBookId(old(books), r.value.id)
      ensures (r.Success? && FindAuthorNamed(old(authors), author).Some?) ==>
        var j := FindAuthorNamed(old(authors), author).value;
        && r.value.authorId == Some(old(authors)[j].id)
        && authors == old(authors)[j := old(authors)[j].(books := old(authors)[j].books + [r.value.id])]
      ensures (r.Success? && FindAuthorNamed(old(authors), author).None?) ==>
        && r.value.authorId == Some(old(nextId))
        && authors == old(authors) + [Author(old(nextId), author, None, [r.value.id], old(clock))]
    {
      if !authenticated {
        return Failure(NotAuthenticated);
      }
      if FindBookBy(books, title, author).Some? {
        return Failure(BookExists);
      } else if JsLength(author) < ResolverNameMinLength {
        return Failure(AuthorNameTooShort);
      }
      if |genres| < 1 {
        return Failure(GenresMissing);
      }
      r := FindOrCreateAndSave(title, published, author, genres);
    }

    /**
     * The part of addBook past its checks: `Author.findOne({name})`, a new
     * Author saved when there is none, then the Book saved and linked.
     */
    method FindOrCreateAndSave(title: string, published: int, author: string, genres: seq<string>)
      returns (r: Result<Book, AddBookError>)
      requires Valid() && JsLength(author) >= ResolverNameMinLength
      requires FindBookBy(books, title, author).None? && |genres| >= 1
      modifies this
      ensures Valid()
      ensures r.Success? <==> JsLength(title) >= TitleMinLength
      ensures r.Failure? ==> r == Failure(UnableToAddBook) && books == old(books) && bookAdded == old(bookAdded)
      ensures (r.Failure? && FindAuthorNamed(old(authors), author).Some?) ==> authors == old(authors)
      ensures (r.Failure? && FindAuthorNamed(old(authors), author).None?) ==>
        authors == old(authors) + [Author(old(nextId), author, None, [], old(clock))]
      ensures r.Success? ==>
        && books == old(books) + [r.value]
        && bookAdded == old(bookAdded) + [r.value]
        && r.value.title == title && r.value.published == Some(published)
        && r.value.author == author && r.value.genres == genres
        && !HasBookId(old(books), r.value.id)
      ensures (r.Success? && FindAuthorNamed(old(authors), author).Some?) ==>
        var j := FindAuthorNamed(old(authors), author).value;
        && r.value.authorId == Some(old(authors)[j].id)
        && authors == old(authors)[j := old(authors)[j].(books := old(authors)[j].books + [r.value.id])]
      ensures (r.Success? && FindAuthorNamed(old(authors), author).None?) ==>
        && r.value.authorId == Some(old(nextId))
        && authors == old(authors) + [Author(old(nextId), author, None, [r.value.id], old(clock))]
    {
      var found := FindAuthorNamed(authors, author);
      if found.Some? {
        r := SaveAndLink(found.value, title, published, genres);
        return;
      }
      // new Author({name}).save(): the name is long enough and not yet taken
      InsertAuthorKeepsInv(books, authors, nextId, clock, author);
      authors := SaveAuthor(authors, Author(nextId, author, None, [], clock)).value;
      nextId, clock := nextId + 1, clock + 1;
      ghost var created := authors;
      r := SaveAndLink(|authors| - 1, title, published, genres);
      if r.Success? {
        assert authors == old(authors) + [Author(old(nextId), author, None, [r.value.id], old(clock))] by {
          assert [] + [r.value.id] == [r.value.id];
          assert created == old(authors) + [created[|created| - 1]];
        }
      }
    }

    /**
     * `book.save()` for a Book by the Author at index `owner`, then the
     * `$push` of its id onto that Author and the BOOK_ADDED publication.
     */
    method SaveAndLink(owner: nat, title: string, published: int, genres: seq<string>)
      returns (r: Result<Book, AddBookError>)
      requires Valid() && owner < |authors|
      requires FindBookBy(books, title, authors[owner].name).None? && |genres| >= 1
      modifies this
      ensures Valid()
      ensures r.Success? <==> JsLength(title) >= TitleMinLength
      ensures r.Failure? ==>
        r == Failure(UnableToAddBook) && books == old(books) && authors == old(authors) &&
        nextId == old(nextId) && clock == old(clock) && bookAdded == old(bookAdded)
      ensures r.Success? ==>
        && r.value == Book(old(nextId), title, Some(published), old(authors)[owner].name,
                           Some(old(authors)[owner].id), genres, old(clock))
        && !HasBookId(old(books), r.value.id)
        && books == old(books) + [r.value]
        && authors == old(authors)[owner := old(authors)[owner].(books := old(authors)[owner].books + [r.value.id])]
        && bookAdded == old(bookAdded) + [r.value]
    {
      var owning := authors[owner];
      var book := Book(nextId, title, Some(published), owning.name, Some(owning.id), genres, clock);
      assert JsLength(book.author) > 0 by {
        assert ValidAuthor(authors[owner]);
      }
      var saved := SaveBook(books, book);
      if saved.None? {
        return Failure(UnableToAddBook);
      }
      InsertLinkedBookKeepsInv(books, authors, nextId, clock, owner, book);
      PushBookAt(authors, owner, book.id);
      books := saved.value;
      authors := PushBook(authors, owning.id, book.id);
      nextId, clock := nextId + 1, clock + 1;
      bookAdded := bookAdded + [book];
      return Success(book);
    }

    /**
     * Mutation `editAuthor`: overwrite the named Author's fields with the
     * arguments, or return null when there is no such Author.
     */
    method EditAuthor(name: string, born: int, authenticated: bool) returns (r: Result<Option<Author>, EditAuthorError>)
      requires Valid()
      modifies this
      ensures Valid()
      ensures books == old(books) && nextId == old(nextId) && clock == old(clock) && bookAdded == old(bookAdded)
      ensures !authenticated ==> r == Failure(NotAuthorized) && authors == old(authors)
      ensures authenticated && FindAuthorNamed(old(authors), name).None? ==>
        r == Success(None) && authors == old(authors)
      ensures authenticated && FindAuthorNamed(old(authors), name).Some? ==>
        var j := FindAuthorNamed(old(authors), name).value;
        && authors == old(authors)[j := old(authors)[j].(born := Some(born))]
        && r == Success(Some(authors[j]))
    {
      if !authenticated {
        return Failure(NotAuthorized);
      }
      var found := FindAuthorNamed(authors, name);
      if found.Some? {
        var target := authors[found.value];
        SetBornKeepsInv(books, authors, nextId, clock, target.id, born);
        SetBornAt(authors, found.value, born);
        authors := SetBorn(authors, target.id, born);
        return Success(Some(authors[found.value]));
      }
      return Success(None);
    }
  }

  /** With distinct ids, `$push` by id changes exactly the Author at that index. */
  lemma PushBookAt(authors: seq<Author>, j: nat, bookId: Id)
    requires j < |authors| && DistinctAuthorIds(authors)
    ensures PushBook(authors, authors[j].id, bookId) == authors[j := authors[j].(books := authors[j].books + [bookId])]
  {
  }

  /** With distinct ids, the update by id changes exactly the Author at that index. */
  lemma SetBornAt(authors: seq<Author>, j: nat, born: int)
    requires j < |authors| && DistinctAuthorIds(authors)
    ensures SetBorn(authors, authors[j].id, born) == authors[j := authors[j].(born := Some(born))]
  {
  }
}
