/**
 * What the two paginating resolvers of gqlprops/resolvers.js return, stated
 * over the store's collections in `createdAt` order.
 *
 * Both resolvers ask the store for `limit + 1` documents, report
 * `hasMorePages` when the extra one arrived and then drop it.  `books` pages
 * by offset (`skip(page * limit)`); `authors` resumes after a cursor, the
 * `createdAt` of the last author of the previous page.
 */
module Pagination {
  import opened Wrappers
  import opened Schema

  function Min(a: nat, b: nat): nat
  {
    if a <= b then a else b
  }

  /**
   * `.skip(skip).limit(count)` over an ordered result: the items from index
   * `skip` on, at most `count` of them.
   */
  function Window<T>(s: seq<T>, skip: nat, count: nat): (w: seq<T>)
    ensures |w| == if skip >= |s| then 0 else Min(count, |s| - skip)
    ensures forall k | 0 <= k < |w| :: w[k] == s[skip + k]
  {
    if skip >= |s| then [] else s[skip..Min(skip + count, |s|)]
  }

  /** A window is the slice between its clamped ends. */
  lemma WindowIsSlice<T>(s: seq<T>, skip: nat, count: nat)
    ensures Window(s, skip, count) == s[Min(skip, |s|)..Min(skip + count, |s|)]
  {
  }

  // ---------------------------------------------------------------------------
  // Offset pagination: Query.books
  // ---------------------------------------------------------------------------

  datatype BooksPage = BooksPage(hasMorePages: bool, books: seq<Book>)

  /** The offset pages 0 .. n - 1 of size `limit`, one after another. */
  function Pages<T>(s: seq<T>, limit: nat, n: nat): seq<T>
  {
    if n == 0 then [] else Pages(s, limit, n - 1) + Window(s, (n - 1) * limit, limit)
  }

  lemma {:induction false} PagesArePrefix<T>(s: seq<T>, limit: nat, n: nat)
    requires limit >= 1
    ensures Pages(s, limit, n) == s[..Min(n * limit, |s|)]
  {
    if n > 0 {
      var skip := (n - 1) * limit;
      var lo := Min(skip, |s|);
      var hi := Min(skip + limit, |s|);
      calc {
        Pages(s, limit, n);
        Pages(s, limit, n - 1) + Window(s, skip, limit);
        { PagesArePrefix(s, limit, n - 1); WindowIsSlice(s, skip, limit); }
        s[..lo] + s[lo..hi];
        s[..hi];
        { Distribute(n - 1, limit); }
        s[..Min(n * limit, |s|)];
      }
    }
  }

  /** The index of the page on which a client that stops at `hasMorePages == false` stops. */
  function LastPage(n: nat, limit: nat): nat
    requires limit >= 1
  {
    if n == 0 then 0 else (n - 1) / limit
  }

  /**
   * Asking for pages 0, 1, 2, ... while `hasMorePages` is true reads every
   * item once, in order: every earlier page reports more pages, the last one
   * does not, and together they are the whole collection.
   */
  lemma OffsetPagingVisitsAll<T>(s: seq<T>, limit: nat)
    requires limit >= 1
    ensures var last := LastPage(|s|, limit);
      && Pages(s, limit, last + 1) == s
      && (forall p | 0 <= p < last :: |s| > p * limit + limit)
      && |s| <= last * limit + limit
  {
    var last := LastPage(|s|, limit);
    LastPageBounds(|s|, limit);
    PagesArePrefix(s, limit, last + 1);
    Distribute(last, limit);
    assert Min((last + 1) * limit, |s|) == |s|;
    assert s[..|s|] == s;
    forall p | 0 <= p < last
      ensures |s| > p * limit + limit
    {
      MulMonotone(p + 1, last, limit);
      Distribute(p, limit);
    }
  }

  lemma Distribute(a: nat, b: nat)
    ensures (a + 1) * b == a * b + b
  {
  }

  /** The last page starts at or before the last item and reaches past it. */
  lemma LastPageBounds(n: nat, limit: nat)
    requires limit >= 1
    ensures n > 0 ==> LastPage(n, limit) * limit < n
    ensures n <= LastPage(n, limit) * limit + limit
  {
    if n > 0 {
      var q := (n - 1) / limit;
      assert q * limit + (n - 1) % limit == n - 1;
    }
  }

  lemma MulMonotone(a: nat, b: nat, c: nat)
    requires a <= b
    ensures a * c <= b * c
  {
  }

  // ---------------------------------------------------------------------------
  // Cursor pagination: Query.authors
  // ---------------------------------------------------------------------------

  /** `cursor` is the `createdAt` of the last author on the page. */
  datatype AuthorsPage = AuthorsPage(cursor: int, hasMorePages: bool, author: seq<Author>)

  /** The TypeError `author[author.length - 1].createdAt` raises when no author was selected. */
  datatype PageError = NoLastAuthor

  /** `.where({createdAt: {$gt: cursor}})`: the authors created strictly after the cursor, in order. */
  function After(s: seq<Author>, cursor: int): (r: seq<Author>)
    ensures |r| <= |s|
  {
    if s == [] then []
    else if s[0].createdAt > cursor then [s[0]] + After(s[1..], cursor)
    else After(s[1..], cursor)
  }

  /** The selection keeps exactly the authors created after the cursor. */
  lemma {:induction false} AfterMembers(s: seq<Author>, cursor: int, a: Author)
    ensures a in After(s, cursor) <==> a in s && a.createdAt > cursor
  {
    if s != [] {
      AfterMembers(s[1..], cursor, a);
      assert a in s <==> a == s[0] || a in s[1..];
    }
  }

  /** The authors the resolver reads from: all of them, or those after the cursor. */
  function Selected(s: seq<Author>, cursor: Option<int>): seq<Author>
  {
    match cursor
    case None => s
    case Some(c) => After(s, c)
  }

  /**
   * The page `authors(cursor, limit)` returns: the first `limit` selected
   * authors, whether more remain, and the `createdAt` of the last one; with
   * an empty page there is no last author to read.
   */
  function AuthorsPageOf(s: seq<Author>, cursor: Option<int>, limit: nat): (r: Result<AuthorsPage, PageError>)
    ensures r.Success? ==> 1 <= |r.value.author| <= limit
  {
    var selected := Selected(s, cursor);
    var page := Window(selected, 0, limit);
    if page == [] then Failure(NoLastAuthor)
    else Success(AuthorsPage(page[|page| - 1].createdAt, |selected| > limit, page))
  }

  /** The page's shape: at most `limit` authors, all strictly after the cursor, in order. */
  lemma AuthorsPageShape(s: seq<Author>, cursor: Option<int>, limit: nat)
    ensures var r := AuthorsPageOf(s, cursor, limit);
      r.Success? ==>
        var p := r.value;
        && 1 <= |p.author| <= limit
        && p.author == Selected(s, cursor)[..|p.author|]
        && (p.hasMorePages <==> |Selected(s, cursor)| > limit)
        && (!p.hasMorePages ==> p.author == Selected(s, cursor))
        && p.cursor == p.author[|p.author| - 1].createdAt
        && (forall a | a in p.author :: a in s)
        && (cursor.Some? ==> forall a | a in p.author :: a.createdAt > cursor.value)
  {
    var sel := Selected(s, cursor);
    if sel != [] {
      var page := Window(sel, 0, limit);
      assert page == sel[..|page|];
      forall a | a in page
        ensures a in s && (cursor.Some? ==> a.createdAt > cursor.value)
      {
        assert a in sel;
        if cursor.Some? {
          AfterMembers(s, cursor.value, a);
        }
      }
    }
  }

  /**
   * The resolver fails instead of returning an empty page exactly when the
   * limit is 0, the collection is empty or the cursor is at or after the
   * last author.
   */
  lemma AuthorsPageFails(s: seq<Author>, cursor: Option<int>, limit: nat)
    ensures AuthorsPageOf(s, cursor, limit).Failure? <==>
      (limit == 0 || s == [] || (cursor.Some? && forall a | a in s :: a.createdAt <= cursor.value))
  {
    if cursor.Some? && s != [] && (forall a | a in s :: a.createdAt <= cursor.value) {
      if After(s, cursor.value) != [] {
        AfterMembers(s, cursor.value, After(s, cursor.value)[0]);
      }
    }
    if cursor.Some? && s != [] && After(s, cursor.value) == [] {
      forall a | a in s
        ensures a.createdAt <= cursor.value
      {
        AfterMembers(s, cursor.value, a);
      }
    }
  }

  /** After a cursor `c` that falls between s[k - 1] and s[k], the selection is the suffix s[k..]. */
  lemma {:induction false} AfterIsSuffix(s: seq<Author>, c: int, k: nat)
    requires AuthorsByCreation(s)
    requires k <= |s|
    requires forall i | 0 <= i < k :: s[i].createdAt <= c
    requires forall i | k <= i < |s| :: s[i].createdAt > c
    ensures After(s, c) == s[k..]
  {
    if s != [] {
      AfterIsSuffix(s[1..], c, if k == 0 then 0 else k - 1);
      if k == 0 {
        assert s == [s[0]] + s[1..];
      }
    }
  }

  /** Where the selection starts: the first author created after the cursor. */
  function FirstAfter(s: seq<Author>, c: int): (k: nat)
    requires AuthorsByCreation(s)
    ensures k <= |s|
    ensures forall i | 0 <= i < k :: s[i].createdAt <= c
    ensures forall i | k <= i < |s| :: s[i].createdAt > c
  {
    if s == [] then 0
    else if s[0].createdAt > c then 0
    else 1 + FirstAfter(s[1..], c)
  }

  /** The selection is always a suffix of the collection. */
  function SelectionStart(s: seq<Author>, cursor: Option<int>): (k: nat)
    requires AuthorsByCreation(s)
    ensures k <= |s| && Selected(s, cursor) == s[k..]
  {
    match cursor
    case None => 0
    case Some(c) =>
      var k := FirstAfter(s, c);
      AfterIsSuffix(s, c, k);
      k
  }

  /**
   * Feeding the cursor of a page with more pages back in selects exactly the
   * authors that follow that page.
   */
  lemma NextSelection(s: seq<Author>, cursor: Option<int>, limit: nat)
    requires limit >= 1 && AuthorsByCreation(s)
    requires AuthorsPageOf(s, cursor, limit).Success?
    requires AuthorsPageOf(s, cursor, limit).value.hasMorePages
    ensures var k := SelectionStart(s, cursor);
      var p := AuthorsPageOf(s, cursor, limit).value;
      && k + limit < |s|
      && p.author == s[k..k + limit]
      && Selected(s, Some(p.cursor)) == s[k + limit..]
  {
    var k := SelectionStart(s, cursor);
    var p := AuthorsPageOf(s, cursor, limit).value;
    assert p.author == s[k..k + limit];
    assert p.cursor == s[k + limit - 1].createdAt;
    AfterIsSuffix(s, p.cursor, k + limit);
  }

  /**
   * A client that starts without a cursor and feeds every returned cursor
   * back while `hasMorePages` is true: all the authors it is given, in order.
   */
  function Walk(s: seq<Author>, cursor: Option<int>, limit: nat): seq<Author>
    requires limit >= 1 && AuthorsByCreation(s)
    decreases |Selected(s, cursor)|
  {
    match AuthorsPageOf(s, cursor, limit)
    case Failure(_) => []
    case Success(p) =>
      if p.hasMorePages then
        NextSelection(s, cursor, limit);
        p.author + Walk(s, Some(p.cursor), limit)
      else p.author
  }

  lemma {:induction false} WalkFrom(s: seq<Author>, cursor: Option<int>, limit: nat)
    requires limit >= 1 && AuthorsByCreation(s)
    ensures Walk(s, cursor, limit) == Selected(s, cursor)
    decreases |Selected(s, cursor)|
  {
    var r := AuthorsPageOf(s, cursor, limit);
    if r.Success? && r.value.hasMorePages {
      NextSelection(s, cursor, limit);
      WalkFrom(s, Some(r.value.cursor), limit);
      WalkStep(s, cursor, limit);
    } else if r.Success? {
      AuthorsPageShape(s, cursor, limit);
    }
  }

  /** One step of the walk: a full page followed by the walk from its cursor. */
  lemma WalkStep(s: seq<Author>, cursor: Option<int>, limit: nat)
    requires limit >= 1 && AuthorsByCreation(s)
    requires AuthorsPageOf(s, cursor, limit).Success?
    requires AuthorsPageOf(s, cursor, limit).value.hasMorePages
    requires var p := AuthorsPageOf(s, cursor, limit).value;
      Walk(s, Some(p.cursor), limit) == Selected(s, Some(p.cursor))
    ensures Walk(s, cursor, limit) == Selected(s, cursor)
  {
    var p := AuthorsPageOf(s, cursor, limit).value;
    var k := SelectionStart(s, cursor);
    NextSelection(s, cursor, limit);
    assert Walk(s, cursor, limit) == p.author + Walk(s, Some(p.cursor), limit);
    assert s[k..] == s[k..k + limit] + s[k + limit..];
  }

  /**
   * With distinct, increasing timestamps, following the cursors from the first
   * page visits every author exactly once, in `createdAt` order.
   */
  lemma AuthorsPagingVisitsAll(s: seq<Author>, limit: nat)
    requires limit >= 1 && AuthorsByCreation(s)
    ensures Walk(s, None, limit) == s
  {
    WalkFrom(s, None, limit);
  }
}
