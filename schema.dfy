/**
 * The Book and Author records of models/book.js and models/author.js, the
 * constraints Mongoose checks when one is saved, and the save itself.
 *
 * Document ids are natural numbers and timestamps are integers; `createdAt`
 * is the timestamp the `timestamps: true` option writes on insert.  Lengths
 * are JavaScript string lengths: UTF-16 code units, so a character outside
 * the Basic Multilingual Plane counts twice.
 */
module Schema {
  import opened Wrappers

  type Id = nat

  /** A Book document (models/book.js). */
  datatype Book = Book(
    id: Id,
    title: string,
    published: Option<int>,
    author: string,
    authorId: Option<Id>,
    genres: seq<string>,
    createdAt: int)

  /** An Author document (models/author.js); `books` lists Book ids. */
  datatype Author = Author(
    id: Id,
    name: string,
    born: Option<int>,
    books: seq<Id>,
    createdAt: int)

  const TitleMinLength := 2
  const NameMinLength := 4

  /** String.prototype.length: the number of UTF-16 code units. */
  function JsLength(s: string): (n: nat)
    ensures |s| <= n <= 2 * |s|
    ensures n == |s| <==> forall k | 0 <= k < |s| :: s[k] as int < 0x1_0000
  {
    if s == [] then 0
    else (if s[0] as int < 0x1_0000 then 1 else 2) + JsLength(s[1..])
  }

  /**
   * What Mongoose checks before it saves a Book: a required string must be
   * non-empty, and `title` must have at least TitleMinLength code units.
   * `published`, `authorId` and `genres` carry no constraint.
   */
  predicate ValidBook(b: Book)
    ensures ValidBook(b) ==> |b.title| >= 1 && |b.author| >= 1
  {
    JsLength(b.title) >= TitleMinLength && JsLength(b.author) > 0
  }

  /** What Mongoose checks before it saves an Author: a name of at least NameMinLength code units. */
  predicate ValidAuthor(a: Author)
    ensures ValidAuthor(a) ==> |a.name| >= NameMinLength / 2
  {
    JsLength(a.name) >= NameMinLength
  }

  predicate NameTaken(authors: seq<Author>, name: string)
  {
    exists k | 0 <= k < |authors| :: authors[k].name == name
  }

  /** The unique index on Author.name. */
  predicate UniqueNames(authors: seq<Author>)
  {
    forall i, j | 0 <= i < j < |authors| :: authors[i].name != authors[j].name
  }

  /** The order `sort({createdAt: 1})` gives: strictly increasing creation timestamps. */
  predicate BooksByCreation(books: seq<Book>)
  {
    forall i, j | 0 <= i < j < |books| :: books[i].createdAt < books[j].createdAt
  }

  predicate AuthorsByCreation(authors: seq<Author>)
  {
    forall i, j | 0 <= i < j < |authors| :: authors[i].createdAt < authors[j].createdAt
  }

  predicate AllValidBooks(books: seq<Book>)
  {
    forall k | 0 <= k < |books| :: ValidBook(books[k])
  }

  predicate AllValidAuthors(authors: seq<Author>)
  {
    forall k | 0 <= k < |authors| :: ValidAuthor(authors[k])
  }

  /** `book.save()`: validation, then insertion at the end of the collection. */
  function SaveBook(books: seq<Book>, b: Book): (r: Option<seq<Book>>)
    ensures r.Some? <==> ValidBook(b)
    ensures r.Some? ==> r.value == books + [b]
    ensures r.Some? && AllValidBooks(books) ==> AllValidBooks(r.value)
  {
    if ValidBook(b) then Some(books + [b]) else None
  }

  /**
   * `author.save()`: validation, then insertion, which the unique index
   * refuses when the name is already taken.
   */
  function SaveAuthor(authors: seq<Author>, a: Author): (r: Option<seq<Author>>)
    ensures r.Some? <==> ValidAuthor(a) && !NameTaken(authors, a.name)
    ensures r.Some? ==> r.value == authors + [a]
    ensures r.Some? && AllValidAuthors(authors) && UniqueNames(authors) ==>
      AllValidAuthors(r.value) && UniqueNames(r.value)
  {
    if ValidAuthor(a) && !NameTaken(authors, a.name) then Some(authors + [a]) else None
  }
}
