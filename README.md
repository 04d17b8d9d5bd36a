# know-books-server: resolvers, records and cursor codec in Dafny

This project models the core of a GraphQL catalogue server for books and
authors, backed by MongoDB through Mongoose:

- the query and mutation resolvers of `gqlprops/resolvers.js`: `bookCount`,
  `authorsCount`, `book`, `books` (offset pages), `author`, `authors` (cursor
  pages), `booksSearch`, the field resolvers `Book.author` and `Author.books`,
  and the mutations `addBook` and `editAuthor`;
- the Book and Author records of `models/book.js` and `models/author.js`, with
  the constraints Mongoose checks when a record is saved (required fields,
  `minlength`, the unique index on an Author's name);
- the cursor codec of `utils/index.js`: Base64 (section 4 of RFC 4648) of the
  UTF-8 bytes of a string, and the lenient Node decoding back to an ASCII
  string.

Files and modules:

| file | module | what it holds |
|---|---|---|
| `wrappers.dfy` | `Wrappers` | `Option` and `Result` |
| `cursor.dfy` | `Cursor` | Base64, UTF-8 and 'ascii' decoding; the round trip |
| `schema.dfy` | `Schema` | `Book`, `Author`, JavaScript string length, what a save checks |
| `pagination.dfy` | `Pagination` | what `books` and `authors` return, and what a client paging through them sees |
| `store.dfy` | `Store` | the store invariant, `$push` and the field overwrite, and the lemmas that every write keeps the invariant |
| `resolvers.dfy` | `Resolvers` | the filters behind the queries, `booksSearch`, the field resolvers, and the class `Catalog` whose methods are the resolvers that read or change the store |

The store is the class `Resolvers.Catalog`: its fields `books` and `authors`
are the two collections in insertion order, `nextId` hands out document ids
and `clock` creation timestamps. Its invariant `Store.Inv` says that the
records are valid, Author names are unique, no two Books share a title and an
author name, every Book has at least one genre, ids are distinct, timestamps
increase along each collection (so insertion order is `createdAt` order), every
Book references an existing Author by id and by name, and an Author's `books`
list holds, once each, exactly the ids of the Books that reference it.
`AddBook` and `EditAuthor` keep it.

Behaviour the model follows as the code has it:

- The `authors` page carries the raw `createdAt` of its last Author as its
  cursor; the codec in `utils/index.js` is imported but not applied, so no
  malformed-cursor error exists. A cursor argument that is absent or the empty
  string selects the first page.
- `authors` throws (it reads `createdAt` of an undefined last element) when
  the page is empty: an empty collection, a cursor at or past the last
  Author, or `limit` 0. The model returns `Failure(NoLastAuthor)` for this.
- `addBook` looks the Author up by name and then, as a separate step, saves a
  new one; the link is a plain `$push`, which appends even an id that is
  already listed.
- `addBook` requires an author name of 5 UTF-16 code units while the Author
  record only requires 4.
- When `addBook` creates a new Author and the Book then fails to save (a
  title shorter than 2 code units), the new Author stays in the store with an
  empty `books` list and the mutation fails with 'Unable Add book'.
- `booksSearch` tests its arguments for JavaScript truthiness: an empty
  string counts as absent, and with both absent it returns `undefined`.
- `Author.books` returns the referenced Books in the order of the Book
  collection, not in the order of the Author's list.
- Node's Base64 decoder reads a string one UTF-16 code unit at a time and
  looks only at the low byte of each unit: bytes outside the alphabet are
  skipped, `-` and `_` read as `+` and `/`, and the first `=` ends the input,
  so U+0141 reads as `A` and U+013D as `=`.

## Model

| member | source | states |
|---|---|---|
| Cursor.Value | utils/index.js:2 | the decoder's byte table: every alphabet character decodes to the value it encodes; only alphabet bytes and the URL-safe `-` and `_` have a value |
| Cursor.CodeUnits | utils/index.js:2 | a character is one UTF-16 code unit below U+10000 and a surrogate pair above |
| Cursor.Utf16 | utils/index.js:2 | a JavaScript string has between one and two code units per character, each below 0x10000 |
| Cursor.LowByte | utils/index.js:2 | the decoder looks only at the low byte of each code unit |
| Cursor.Values | utils/index.js:2 | the lenient read yields at most one value per code unit, and exactly one per unit when every unit's low byte is a digit and none is `=` |
| Cursor.LowByteAliases | utils/index.js:2 | U+0141 reads as `A` and U+013D ends the input as `=` does |
| Cursor.Decode | utils/index.js:2 | Base64 decoding gives at most three bytes per four code units of input |
| Cursor.Quantum | utils/index.js:1 | three bytes give four six-bit groups, a trailing pair three and a trailing byte two |
| Cursor.Sextets | utils/index.js:1 | the number of six-bit groups is four per whole quantum plus one more than the bytes left over |
| Cursor.Bytes | utils/index.js:2 | four groups give three bytes, three give two, two give one, a dangling group none |
| Cursor.FromSextets | utils/index.js:2 | the number of bytes is three per four groups plus one fewer than the groups left over |
| Cursor.QuantumRoundTrip | utils/index.js:1-2 | up to three bytes are recovered from their six-bit groups |
| Cursor.Encode | utils/index.js:1 | Base64 output has 4 characters per started 3-byte quantum |
| Cursor.EncodeAlphabet | utils/index.js:1 | every output character is in the alphabet, or is `=` among the last two |
| Cursor.EncodePadding | utils/index.js:1 | the output ends in exactly (3 - n mod 3) mod 3 `=` characters and has only digits before them |
| Cursor.ValuesOfDigits | utils/index.js:2 | decoding reads back every digit the encoder wrote, stopping at the padding |
| Cursor.FromSextetsOfSextets | utils/index.js:1-2 | regrouping six-bit groups into bytes inverts the split |
| Cursor.PaddingValues | utils/index.js:2 | the `=` padding the encoder writes yields no values |
| Cursor.DecodeEncode | utils/index.js:1-2 | Base64 decoding inverts Base64 encoding on every byte string |
| Cursor.EncodeInjective | utils/index.js:1 | distinct byte strings have distinct encodings |
| Cursor.Utf8 | utils/index.js:1 | `Buffer.from(string)` writes between one and four bytes per character |
| Cursor.Utf8Char | utils/index.js:1 | UTF-8 writes 1 to 4 bytes per character, and one byte equal to the code point exactly for ASCII |
| Cursor.Utf8OfAscii | utils/index.js:1 | the UTF-8 bytes of an ASCII string are its code points |
| Cursor.AsciiDecode | utils/index.js:2 | 'ascii' decoding gives one character per byte, the byte with its high bit cleared |
| Cursor.EncodeCursor | utils/index.js:1 | the token length follows from the UTF-8 length and is at least that of the Base64 of the characters |
| Cursor.DecodeCursor | utils/index.js:2 | the decoded cursor is always ASCII, one character per decoded byte |
| Cursor.CursorRoundTrip | utils/index.js:1-2 | decoding the encoding of a string gives it back if and only if it is ASCII |
| Cursor.EncodeCursorInjective | utils/index.js:1-2 | two ASCII strings have the same token if and only if they are equal |
| Schema.JsLength | gqlprops/resolvers.js:185 | a string's JavaScript length lies between its character count and twice it, and equals the count exactly when no character is outside the Basic Multilingual Plane |
| Schema.ValidBook | models/book.js:4-15 | what a Book save checks: a title of at least 2 code units and a non-empty author; such a Book has a non-empty title and author |
| Schema.ValidAuthor | models/author.js:4-9 | what an Author save checks: a name of at least 4 code units, so of at least 2 characters |
| Schema.SaveBook | models/book.js:3-26 | a Book saves exactly when its title has at least 2 code units and its author name is non-empty; the save appends it and keeps every stored Book valid |
| Schema.SaveAuthor | models/author.js:3-22 | an Author saves exactly when its name has at least 4 code units and is not taken; the save appends it and keeps the records valid and the names unique |
| Pagination.Window | gqlprops/resolvers.js:23 | skip-then-limit yields the items from the offset on, at most the limit of them |
| Pagination.PagesArePrefix | gqlprops/resolvers.js:22-36 | offset pages 0 to n - 1 laid end to end are the first n times limit books |
| Pagination.OffsetPagingVisitsAll | gqlprops/resolvers.js:22-36 | paging by offset until `hasMorePages` is false returns every book once, in order; every earlier page reports more pages and the last one does not |
| Pagination.AfterMembers | gqlprops/resolvers.js:52 | the cursor query selects exactly the Authors created strictly after the cursor |
| Pagination.AuthorsPageOf | gqlprops/resolvers.js:41-88 | the `authors` page: the first `limit` selected Authors, or the failure of reading the last of none; a page holds between 1 and `limit` Authors |
| Pagination.AuthorsPageShape | gqlprops/resolvers.js:41-88 | a page holds between 1 and `limit` Authors, is a prefix of the selection, reports more pages exactly when the selection exceeds the limit, carries the last Author's `createdAt` as cursor, and holds only stored Authors after the cursor |
| Pagination.AuthorsPageFails | gqlprops/resolvers.js:64 | the resolver fails exactly when `limit` is 0, the collection is empty, or no Author is after the cursor |
| Pagination.AfterIsSuffix | gqlprops/resolvers.js:52 | on a collection in `createdAt` order the cursor selection is a suffix |
| Pagination.FirstAfter | gqlprops/resolvers.js:52 | the index where the cursor selection starts: Authors before it are not after the cursor, Authors from it on are |
| Pagination.SelectionStart | gqlprops/resolvers.js:45-52 | with or without a cursor the selection is a suffix of the collection |
| Pagination.NextSelection | gqlprops/resolvers.js:52-71 | feeding back the cursor of a page that has more pages selects exactly the Authors after that page |
| Pagination.WalkFrom | gqlprops/resolvers.js:41-88 | following cursors from any position returns the whole selection from there, in order |
| Pagination.AuthorsPagingVisitsAll | gqlprops/resolvers.js:41-88 | following cursors from the first page returns every Author exactly once, in `createdAt` order |
| Store.Inv | gqlprops/resolvers.js:177-233 | the store invariant every write keeps (described above); `Store.EmptyStore` and the `Keeps` lemmas below state that it is kept |
| Store.BookAuthorNamesValid | gqlprops/resolvers.js:195-203 | in a consistent store every Book's `author` is a name an Author record accepts |
| Store.PushBook | gqlprops/resolvers.js:201 | `$push` appends the Book id to the Author with that id and leaves every other Author unchanged |
| Store.SetBorn | gqlprops/resolvers.js:229-230 | the update sets `born` on the Author with that id and leaves every other Author unchanged |
| Store.InsertAuthorKeepsInv | gqlprops/resolvers.js:210-211 | saving a new Author with a fresh id, an unused valid name and no books keeps the store invariant |
| Store.InsertLinkedBookKeepsInv | gqlprops/resolvers.js:199-201 | saving a valid Book that references an Author, then pushing its id onto that Author, keeps the store invariant |
| Store.InsertBookKeepsUnique | gqlprops/resolvers.js:181-192 | a new Book with a genre and a (title, author) pair not yet stored keeps both Book-level rules of the invariant |
| Store.PushBookKeepsRecords | gqlprops/resolvers.js:201 | `$push` changes no Author's id, name or timestamp and only grows the owner's list |
| Store.SetBornKeepsInv | gqlprops/resolvers.js:227-230 | overwriting one Author's `born` keeps the store invariant |
| Resolvers.Where | gqlprops/resolvers.js:91 | `find(filter)` returns only documents that pass the filter, and every document that passes it |
| Resolvers.WhereKeepsOrder | gqlprops/resolvers.js:91 | a filter of books sorted by `createdAt` stays sorted by `createdAt` |
| Resolvers.WhereSingle | gqlprops/resolvers.js:124 | a filter only one document passes returns that document alone |
| Resolvers.FindFirst | gqlprops/resolvers.js:19 | `findOne(filter)` gives the first document that passes the filter, or none when no document does |
| Resolvers.FindAuthorNamed | gqlprops/resolvers.js:197 | finds an Author with the given name, and finds none exactly when the name is not taken |
| Resolvers.FindBookBy | gqlprops/resolvers.js:181 | finds a stored Book with the given title and author, and none exactly when there is no such Book |
| Resolvers.BookByTitle | gqlprops/resolvers.js:18-21 | `book(title)` returns the first stored Book with that title, or null exactly when no Book has it |
| Resolvers.AuthorById | gqlprops/resolvers.js:37-40 | `author(id)` returns the stored Author with that id, or null exactly when there is none |
| Resolvers.SearchBranch | gqlprops/resolvers.js:90-115 | each filter of the search returns the matching books in order, and null exactly when none matches |
| Resolvers.BooksSearch | gqlprops/resolvers.js:89-117 | undefined exactly when neither author nor genre is given; null exactly when one is and no book matches; otherwise the non-empty list of exactly the matching books, in `createdAt` order |
| Resolvers.BookAuthor | gqlprops/resolvers.js:123-126 | `Book.author` returns exactly the stored Authors whose id the Book references |
| Resolvers.AuthorBooks | gqlprops/resolvers.js:130-133 | `Author.books` returns exactly the stored Books whose id the Author lists |
| Resolvers.BookAuthorIsOwner | gqlprops/resolvers.js:123-126 | in a consistent store `Book.author` resolves to exactly one Author, the one the Book names, whose list holds the Book |
| Resolvers.AuthorBooksAreReferencing | gqlprops/resolvers.js:130-133 | in a consistent store `Author.books` resolves to exactly the Books that reference the Author, in `createdAt` order, all carrying its name |
| Resolvers.DistinctCount | gqlprops/resolvers.js:14-17 | a sequence of distinct keys has as many keys as positions; applied to Book ids, Author ids and Author names |
| Resolvers.Catalog.BookCount | gqlprops/resolvers.js:14 | `bookCount` is the number of distinct Books |
| Resolvers.Catalog.AuthorsCount | gqlprops/resolvers.js:15-17 | `authorsCount` is the number of distinct Authors and of distinct Author names |
| Resolvers.Catalog.Books | gqlprops/resolvers.js:22-36 | after fetching `limit + 1` and dropping the extra one, the page is the books from offset `page * limit`, at most `limit` of them, and `hasMorePages` holds exactly when books remain after it |
| Resolvers.Catalog.Authors | gqlprops/resolvers.js:41-88 | both branches return the page `Pagination.AuthorsPageOf` describes, failing when the page is empty |
| Resolvers.Catalog.AddBook | gqlprops/resolvers.js:177-222 | the checks in order (authentication, duplicate title and author, name under 5 code units, no genres) each fail without changing the store; past them the mutation succeeds exactly when the title has 2 code units; a success appends the Book, publishes it, and appends its id to the existing Author of that name or to a new Author created for it; a failed Book save leaves the books alone but keeps a newly created Author, with no books; the invariant holds throughout |
| Resolvers.Catalog.FindOrCreateAndSave | gqlprops/resolvers.js:195-221 | the Author of that name is found or, when none is, created with a fresh id; then the Book is saved and linked as `SaveAndLink` states |
| Resolvers.Catalog.SaveAndLink | gqlprops/resolvers.js:199-203 | the Book saves exactly when its title has 2 code units; a saved Book carries a fresh id and the Author's id and name, is appended and published, and its id is appended to that Author alone; a failed save changes nothing |
| Resolvers.Catalog.EditAuthor | gqlprops/resolvers.js:223-233 | without a user it fails; with no Author of that name it returns null; otherwise it sets `born` on that Author alone and returns the updated record; books and counters are untouched and the invariant holds |
| Resolvers.PushBookAt | gqlprops/resolvers.js:201 | with distinct ids, `$push` by id changes exactly the Author at one index |
| Resolvers.SetBornAt | gqlprops/resolvers.js:230 | with distinct ids, the update by id changes exactly the Author at one index |

## Left out

- Network, transport, the Apollo server and the WebSocket subscription
  server (`index.js`) are not part of this model; a request is a method call.
- `createUser`, `login` and `me` (gqlprops/resolvers.js:118-120, 137-176):
  password hashing, token signing and the current user are outside this
  model; the mutations take `authenticated`, whether a current user is present.
- PubSub delivery: a published `BOOK_ADDED` event is recorded in the ghost
  field `Catalog.bookAdded`; subscribers and delivery are not modelled.
- Concurrency: each resolver runs to completion before the next begins, so
  the race between two `addBook` calls for one new Author name (where the
  unique index would refuse the second save) does not arise; in the model the
  save of a new Author always succeeds.
- Time and ObjectIds: `createdAt` is a counter that increases on every
  insert and ids are natural numbers from one counter; `updatedAt` is not
  modelled.
- Resolvers.Catalog.Authors: the cursor argument is an integer timestamp;
  Mongoose's casting of a cursor string to a Date, and the error it raises
  for a string that is not a date, are not modelled.
- Resolvers.Catalog.Authors: the cursor branch sorts by `created_at`, a field
  Book and Author records do not have; the model takes the collection in
  insertion order, which is `createdAt` order.
- Resolvers.Catalog.Books: the model requires `page` and `limit` to be
  non-negative and leaves the other inputs out. The resolver passes
  `limit + 1` to the store: `limit` -1 becomes `limit(0)`, which MongoDB reads
  as no limit, so every Book from the offset comes back with the last one
  popped; a `limit` below -1 becomes a negative limit, which the driver reads
  as a single batch of `-(limit + 1)` documents. Only a negative `skip`
  (`page * limit` below 0) is refused by the store; `page` -1 with `limit` -1
  gives `skip(1)`.
- Resolvers.Catalog.Authors: the model requires `limit` to be non-negative;
  a negative `limit` reaches the store as `limit(limit + 1)` with the same
  no-limit and single-batch readings as for `books`, which are not modelled.
- Resolvers.AuthorById: an id string that is not a valid ObjectId makes
  Mongoose raise a cast error; the model takes the id as a number.
- Resolvers.Catalog.EditAuthor: the update also writes `name`, which equals
  the name the Author was found by, so only `born` changes; the `upsert`
  option of the `$push` in `addBook` never applies because the Author exists.
- Resolvers.Catalog.AddBook: `published` and GraphQL `Int` are unbounded
  integers here; 32-bit range checks by GraphQL are not modelled.
- Cursor.Decode: Node's decoder sizes its output from the raw input length,
  which can cut off the output of malformed input with many skipped
  characters; this bound is not modelled. Lone surrogates, which Node writes as
  U+FFFD, are not modelled in `Cursor.Utf8`; strings here are sequences of
  Unicode scalar values.
- Pagination.AuthorsPagingVisitsAll: the exactly-once walk depends on distinct
  `createdAt` values, which the model's clock guarantees. Mongoose's
  `timestamps: true` (models/author.js:20-22) writes millisecond Dates, which
  can tie; the `$gt` of the cursor query (gqlprops/resolvers.js:52) would then
  skip an Author created in the same millisecond as the last one on a page.
  The same holds for `Pagination.NextSelection` and `Pagination.WalkFrom`.
- Cursor.EncodeCursor, Cursor.DecodeCursor: exported but called by no
  resolver; they are modelled on their own.
