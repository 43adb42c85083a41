/**
 * The request-handling helpers: `D`, the pager `pagination`, the book table
 * of `build_table`, and the page arithmetic of the list handlers
 * `list_books`, `view_place` and `search_books`.
 *
 * HTML is abstracted to its structure: a table is its sequence of lines (one
 * per shown book, then the ISBN input line) and an optional pager; a pager is
 * two links, each an href and a disabled flag.
 */
module Api {
  import opened Wrappers
  import opened Storage
  import opened Entities

  /** Books shown per page. */
  const PAGE_SIZE := 20

  // ---------------------------------------------------------------------------
  // D
  // ---------------------------------------------------------------------------

  /**
   * `D`: a multi-valued dict to a plain one, keeping the first value of each
   * key; `val[0]` raises IndexError (`None` here) when some list is empty.
   */
  function D<K, V>(m: map<K, seq<V>>): (r: Option<map<K, V>>)
    ensures r.Some? <==> forall k :: k in m ==> |m[k]| > 0
    ensures r.Some? ==> r.value.Keys == m.Keys && forall k :: k in m ==> r.value[k] == m[k][0]
  {
    if forall k :: k in m ==> |m[k]| > 0 then Some(map k | k in m :: m[k][0]) else None
  }

  /** Form and query data whose every key carries one value is returned unchanged by `D`. */
  lemma DSingletons<K, V>(d: map<K, V>)
    ensures D(map k | k in d :: [d[k]]) == Some(d)
  {
    var m := map k | k in d :: [d[k]];
    assert forall k :: k in m ==> |m[k]| > 0;
    assert D(m).value == d;
  }

  // ---------------------------------------------------------------------------
  // Decimal page numbers in query strings
  // ---------------------------------------------------------------------------

  predicate IsDigit(c: char)
  {
    '0' <= c <= '9'
  }

  /** The decimal digits of `n`, without leading zeros (`str(n)` for `n >= 0`). */
  function Digits(n: nat): (s: string)
    ensures |s| > 0 && forall i :: 0 <= i < |s| ==> IsDigit(s[i])
  {
    if n < 10 then [(n + '0' as int) as char]
    else Digits(n / 10) + [((n % 10) + '0' as int) as char]
  }

  /** `str(n)` and an f-string placeholder for an `int`. */
  function DecimalString(n: int): (s: string)
    ensures |s| > 0 && (s[0] == '-' <==> n < 0)
  {
    if n < 0 then "-" + Digits(-n) else Digits(n)
  }

  /** The value of a non-empty run of decimal digits. */
  function DigitsValue(s: string): (n: nat)
    requires |s| > 0 && forall i :: 0 <= i < |s| ==> IsDigit(s[i])
  {
    assert IsDigit(s[|s| - 1]);
    var d: nat := (s[|s| - 1] as int) - ('0' as int);
    if |s| == 1 then d else DigitsValue(s[..|s| - 1]) * 10 + d
  }

  /** `int(s)` on a query value: an optional sign followed by decimal digits; anything else raises ValueError (`None`). */
  function ParseInt(s: string): (r: Option<int>)
    ensures r.Some? ==> |s| > 0
    ensures r.Some? && r.value < 0 ==> s[0] == '-'
  {
    if |s| > 0 && (s[0] == '-' || s[0] == '+') then
      var t := s[1..];
      if |t| > 0 && forall i :: 0 <= i < |t| ==> IsDigit(t[i]) then
        var v: int := DigitsValue(t);
        Some(if s[0] == '-' then -v else v)
      else None
    else if |s| > 0 && forall i :: 0 <= i < |s| ==> IsDigit(s[i]) then Some(DigitsValue(s))
    else None
  }

  lemma {:induction false} DigitsRoundTrip(n: nat)
    ensures DigitsValue(Digits(n)) == n
  {
    if n >= 10 {
      var s := Digits(n);
      assert s[..|s| - 1] == Digits(n / 10);
      DigitsRoundTrip(n / 10);
    }
  }

  /** Every page number the pager writes is read back by `int()` as the same number. */
  lemma ParseDecimal(n: int)
    ensures ParseInt(DecimalString(n)) == Some(n)
  {
    var s := DecimalString(n);
    if n < 0 {
      var t := Digits(-n);
      assert s[0] == '-' && s[1..] == t;
      DigitsRoundTrip(-n);
      assert DigitsValue(t) == -n;
    } else {
      assert IsDigit(s[0]);
      DigitsRoundTrip(n);
    }
  }

  // ---------------------------------------------------------------------------
  // pagination
  // ---------------------------------------------------------------------------

  /** One pager button: its href and whether it is rendered `disabled`. */
  datatype Link = Link(href: string, disabled: bool)

  /** The two buttons `pagination` emits. */
  datatype Pager = Pager(prev: Link, next: Link)

  /** The character that starts the `page` parameter: `&` if the url already has a query, `?` otherwise. */
  function Separator(url: string): (c: char)
    ensures c in "?&" && (c == '&' <==> '?' in url)
  {
    if '?' in url then '&' else '?'
  }

  /** The href of a pager button that leads to page `n`. */
  function PageHref(url: string, n: int): (h: string)
  {
    url + [Separator(url)] + "page=" + DecimalString(n)
  }

  /** A pager href consists of the url, the separator, `page=` and the page number in decimal. */
  lemma PageHrefParts(url: string, n: int)
    ensures var h := PageHref(url, n);
      |h| > |url| + 6 && h[..|url|] == url && h[|url|] == Separator(url) &&
      h[|url| + 1..|url| + 6] == "page=" && h[|url| + 6..] == DecimalString(n)
  {
    var h := PageHref(url, n);
    assert h[..|url|] == url;
    assert h[|url| + 1..|url| + 6] == "page=";
    assert h[|url| + 6..] == DecimalString(n);
  }

  /** The page an href built on `url` asks for, when it is `url`, a separator, `page=` and a number. */
  function HrefPage(url: string, href: string): (p: Option<int>)
    ensures p.Some? ==> |href| > |url| + 6 && href[..|url|] == url && href[|url|] in "?&"
  {
    if |href| > |url| + 6 && href[..|url|] == url && href[|url|] in "?&" && href[|url| + 1..|url| + 6] == "page=" then
      ParseInt(href[|url| + 6..])
    else None
  }

  lemma PageHrefRoundTrip(url: string, n: int)
    ensures HrefPage(url, PageHref(url, n)) == Some(n)
  {
    PageHrefParts(url, n);
    ParseDecimal(n);
  }

  /**
   * `pagination(url, page_no, more_results=...)`: the previous button leads to
   * `page_no - 1` and is disabled exactly on page 1; the next button leads to
   * `page_no + 1` and is disabled exactly when there are no more results.
   */
  function Pagination(url: string, pageNo: int, moreResults: bool): (p: Pager)
    ensures HrefPage(url, p.prev.href) == Some(pageNo - 1) && HrefPage(url, p.next.href) == Some(pageNo + 1)
    ensures p.prev.disabled <==> pageNo == 1
    ensures p.next.disabled <==> !moreResults
    ensures p.prev.href[|url|] == p.next.href[|url|] && (p.prev.href[|url|] == '&' <==> '?' in url)
  {
    PageHrefRoundTrip(url, pageNo - 1);
    PageHrefRoundTrip(url, pageNo + 1);
    Pager(Link(PageHref(url, pageNo - 1), pageNo == 1), Link(PageHref(url, pageNo + 1), !moreResults))
  }

  // ---------------------------------------------------------------------------
  // build_table
  // ---------------------------------------------------------------------------

  /** A line of the table body: a book's row, or the ISBN input posting to a url. */
  datatype Line<T> = BookLine(book: T) | IsbnInput(url: string)

  /** What `build_table` renders: the body lines and the pager, if any. */
  datatype TableView<T> = TableView(lines: seq<Line<T>>, pager: Option<Pager>)

  /** Python truthiness of an optional string argument: `None` and `""` are false. */
  predicate Truthy(s: Option<string>)
  {
    s.Some? && |s.value| > 0
  }

  /** The indexes `enumerate` yields over `n` items, in order. */
  function Indexes(n: nat): (s: seq<int>)
    ensures |s| == n && forall i :: 0 <= i < n ==> s[i] == i
  {
    if n == 0 then [] else Indexes(n - 1) + [n - 1]
  }

  /** Whether the loop met index `page_size`, i.e. there is a book beyond the page. */
  predicate HasMore<T>(books: seq<T>, pageSize: int)
  {
    0 <= pageSize < |books|
  }

  /** `more_results` is set exactly when `enumerate` over the books yields the index `page_size`. */
  lemma HasMoreIndex<T>(books: seq<T>, pageSize: int)
    ensures HasMore(books, pageSize) <==> pageSize in Indexes(|books|)
  {
    var ix := Indexes(|books|);
    if 0 <= pageSize < |books| {
      assert ix[pageSize] == pageSize;
    }
  }

  /** The books `build_table` renders: all but the one at index `page_size`. */
  function Shown<T>(books: seq<T>, pageSize: int): (s: seq<T>)
    ensures |s| == if HasMore(books, pageSize) then |books| - 1 else |books|
    ensures forall k :: 0 <= k < |s| ==> s[k] == books[if HasMore(books, pageSize) && k >= pageSize then k + 1 else k]
  {
    if HasMore(books, pageSize) then books[..pageSize] + books[pageSize + 1..] else books
  }

  function BookLines<T>(s: seq<T>): (ls: seq<Line<T>>)
    ensures |ls| == |s| && forall k :: 0 <= k < |s| ==> ls[k] == BookLine(s[k])
  {
    seq(|s|, k requires 0 <= k < |s| => BookLine(s[k]))
  }

  /** The table `build_table` returns for its arguments. */
  function TableOf<T>(books: seq<T>, isbnInputUrl: Option<string>, baseUrl: Option<string>, pageSize: int, pageNo: int): (t: TableView<T>)
    ensures |t.lines| == |Shown(books, pageSize)| + (if Truthy(isbnInputUrl) then 1 else 0)
    ensures t.pager.Some? <==> Truthy(baseUrl)
  {
    TableView(
      BookLines(Shown(books, pageSize)) + (if Truthy(isbnInputUrl) then [IsbnInput(isbnInputUrl.value)] else []),
      if Truthy(baseUrl) then Some(Pagination(baseUrl.value, pageNo, HasMore(books, pageSize))) else None)
  }

  /** `build_table`'s enumerate loop appending rows and raising the `more_results` flag. */
  method BuildTable<T>(books: seq<T>, isbnInputUrl: Option<string>, baseUrl: Option<string>, pageSize: int, pageNo: int)
    returns (t: TableView<T>)
    ensures t == TableOf(books, isbnInputUrl, baseUrl, pageSize, pageNo)
  {
    var rows: seq<Line<T>> := [];
    var moreResults := false;
    for i := 0 to |books|
      invariant moreResults <==> 0 <= pageSize < i
      invariant |rows| == if moreResults then i - 1 else i
      invariant forall k :: 0 <= k < |rows| ==> rows[k] == BookLine(books[if moreResults && k >= pageSize then k + 1 else k])
    {
      if i == pageSize {
        moreResults := true;
      } else {
        rows := rows + [BookLine(books[i])];
      }
    }
    assert rows == BookLines(Shown(books, pageSize));
    if Truthy(isbnInputUrl) {
      rows := rows + [IsbnInput(isbnInputUrl.value)];
    }
    t := TableView(rows, if Truthy(baseUrl) then Some(Pagination(baseUrl.value, pageNo, moreResults)) else None);
  }

  /**
   * The fetch-one-extra protocol: given at most `page_size + 1` books, the
   * table shows the first `page_size` of them (all if fewer), and the next
   * button is enabled exactly when the extra one was there.
   */
  lemma FetchOneExtra<T>(books: seq<T>, isbnInputUrl: Option<string>, baseUrl: Option<string>, pageSize: nat, pageNo: int)
    requires |books| <= pageSize + 1
    ensures var t := TableOf(books, isbnInputUrl, baseUrl, pageSize, pageNo);
      var n := if |books| <= pageSize then |books| else pageSize;
      t.lines[..n] == BookLines(books[..n]) &&
      (Truthy(baseUrl) ==> (t.pager.value.next.disabled <==> |books| <= pageSize))
  {
    var t := TableOf(books, isbnInputUrl, baseUrl, pageSize, pageNo);
    var n := if |books| <= pageSize then |books| else pageSize;
    assert t.lines[..n] == BookLines(Shown(books, pageSize));
  }

  /** The ISBN input is the last line iff `isbn_input_url` is truthy, every other line is a book; the pager is there iff `base_url` is truthy. */
  lemma TableShape<T>(books: seq<T>, isbnInputUrl: Option<string>, baseUrl: Option<string>, pageSize: int, pageNo: int)
    ensures var t := TableOf(books, isbnInputUrl, baseUrl, pageSize, pageNo);
      (Truthy(isbnInputUrl) <==> |t.lines| > 0 && t.lines[|t.lines| - 1].IsbnInput?) &&
      (forall k :: 0 <= k < |t.lines| - 1 ==> t.lines[k].BookLine?) &&
      (t.pager.Some? <==> Truthy(baseUrl))
  {
  }

  // ---------------------------------------------------------------------------
  // The list handlers
  // ---------------------------------------------------------------------------

  /** What makes a handler fail before it renders. */
  datatype HandlerError = BadPageArgument   // `int()` of the `page` argument raised ValueError

  /** `int(request.args.get("page", 1))`. */
  function PageArg(arg: Option<string>): (r: Result<int, HandlerError>)
    ensures arg.None? ==> r == Ok(1)
    ensures r.Err? ==> arg.Some? && r.error == BadPageArgument
  {
    match arg
    case None => Ok(1)
    case Some(s) =>
      if ParseInt(s).Some? then Ok(ParseInt(s).value) else Err(BadPageArgument)
  }

  /** A given `page` argument fails exactly when `int()` rejects it, and otherwise is the number it reads. */
  lemma PageArgSome(s: string)
    ensures PageArg(Some(s)).Err? <==> ParseInt(s).None?
    ensures PageArg(Some(s)).Ok? ==> PageArg(Some(s)).value == ParseInt(s).value
  {
  }

  /** The handler reading the `page` value of a pager href of `base` lands on the page the href names. */
  lemma PagerRoundTrip(base: string, n: int)
    ensures |PageHref(base, n)| >= |base| + 6 && PageArg(Some(PageHref(base, n)[|base| + 6..])) == Ok(n)
  {
    assert PageHref(base, n)[|base| + 6..] == DecimalString(n);
    ParseDecimal(n);
  }

  /** The books (by id) a list handler renders from the ids `ids` matched by its query, for the 1-based `page`, as written. */
  function ListedWindow(ids: seq<int>, page: int): (w: seq<int>)
    ensures |w| <= PAGE_SIZE + 1
  {
    Window(ids, page - 1, PAGE_SIZE + 1)
  }

  /** `list_books` for `page`, as written: `Book.all(page_no=page-1, page_size=PAGE_SIZE+1)`. */
  function ListBooksPage(ids: seq<int>, page: int): (t: TableView<int>)
    ensures |t.lines| <= PAGE_SIZE && forall k :: 0 <= k < |t.lines| ==> t.lines[k].BookLine?
    ensures t.pager.Some? && (t.pager.value.prev.disabled <==> page == 1)
  {
    TableOf(ListedWindow(ids, page), None, Some("/books"), PAGE_SIZE, page)
  }

  /** The url prefix of a place's page. */
  function PlaceUrl(placeId: int): (u: string)
  {
    "/places/" + DecimalString(placeId)
  }

  /** `view_place` for `page`, as written: the pager is built without `page_no`, so it is always drawn for page 1. */
  function ViewPlacePage(ids: seq<int>, placeId: int, page: int): (t: TableView<int>)
    ensures 0 < |t.lines| <= PAGE_SIZE + 1 && t.lines[|t.lines| - 1] == IsbnInput(PlaceUrl(placeId) + "/add-book")
    ensures t.pager.Some? && t.pager.value.prev.disabled
  {
    TableOf(ListedWindow(ids, page), Some(PlaceUrl(placeId) + "/add-book"), Some(PlaceUrl(placeId)), PAGE_SIZE, 1)
  }

  /** The `base_url` of `search_books`: it carries the query string, so the pager appends `&page=`. */
  function SearchUrl(q: string): (u: string)
    ensures Separator(u) == '&'
  {
    assert ("/books/search?q=" + q)[13] == '?';
    "/books/search?q=" + q
  }

  /** `search_books` for `page` over the ids the search matched, as written. */
  function SearchPage(ids: seq<int>, q: string, page: int): (t: TableView<int>)
    ensures |t.lines| <= PAGE_SIZE && t.pager.Some? && (t.pager.value.prev.disabled <==> page == 1)
    ensures HrefPage(SearchUrl(q), t.pager.value.next.href) == Some(page + 1)
  {
    PageHrefRoundTrip(SearchUrl(q), page + 1);
    TableOf(ListedWindow(ids, page), None, Some(SearchUrl(q)), PAGE_SIZE, page)
  }

  /** The list handlers show at most `PAGE_SIZE` books and offer a next page exactly when the query returned the extra row. */
  lemma ListedPageBound(ids: seq<int>, page: int)
    ensures var w := ListedWindow(ids, page);
      |Shown(w, PAGE_SIZE)| <= PAGE_SIZE && (HasMore(w, PAGE_SIZE) <==> |w| == PAGE_SIZE + 1)
  {
  }

  /**
   * As written, next is enabled iff a row exists at position `(page-1) * 21 + 20`
   * of the query's ids; the next page starts at `page * 21`, so with exactly
   * `page * 21` ids next is enabled while the next page is empty.
   */
  lemma ListedHasMore(ids: seq<int>, page: int)
    requires page >= 1
    ensures HasMore(ListedWindow(ids, page), PAGE_SIZE) <==> (page - 1) * (PAGE_SIZE + 1) + PAGE_SIZE < |ids|
    ensures |ids| == page * (PAGE_SIZE + 1) ==> HasMore(ListedWindow(ids, page), PAGE_SIZE) && ListedWindow(ids, page + 1) == []
  {
    var q := page - 1;
    assert (page - 1) * (PAGE_SIZE + 1) == q * 21;
    assert page * (PAGE_SIZE + 1) == q * 21 + 21;
  }

  /** The shown book ids of a listing lie in the window, at its first `PAGE_SIZE` positions. */
  lemma ShownPrefix(w: seq<int>, x: int)
    requires |w| <= PAGE_SIZE + 1
    ensures x in Shown(w, PAGE_SIZE) <==> exists j :: 0 <= j < |w| && j < PAGE_SIZE && w[j] == x
  {
    var s := Shown(w, PAGE_SIZE);
    if x in s {
      var k :| 0 <= k < |s| && s[k] == x;
      assert w[k] == x;
    }
    if j :| 0 <= j < |w| && j < PAGE_SIZE && w[j] == x {
      assert s[j] == x;
    }
  }

  /**
   * Position `j < PAGE_SIZE` of the list window for `page` holds the id at
   * position `o + j` of `ids`, where `o` is the clamped offset; that position
   * is never one of `20, 41, 62, ...`.
   */
  lemma ListedAt(ids: seq<int>, page: int, j: int)
    requires 0 <= j < |ListedWindow(ids, page)| && j < PAGE_SIZE
    ensures var o := Start((page - 1) * (PAGE_SIZE + 1), |ids|);
      o + j < |ids| && ListedWindow(ids, page)[j] == ids[o + j] && (o + j) % (PAGE_SIZE + 1) != PAGE_SIZE
  {
    var o := Start((page - 1) * (PAGE_SIZE + 1), |ids|);
    var q := page - 1;
    assert (page - 1) * (PAGE_SIZE + 1) == q * 21;
    if q >= 0 && o + j < |ids| {
      assert o == q * 21;
      assert (q * 21 + j) % 21 == j;
    }
  }

  /**
   * As written, the list handlers page through the ids with stride
   * `PAGE_SIZE + 1` but show only `PAGE_SIZE` per page: the id at every
   * position `i` with `i % 21 == 20` (the 21st, 42nd, ...) is on no page.
   */
  lemma ListBooksSkipsRow(ids: seq<int>, i: int, page: int)
    requires Increasing(ids) && 0 <= i < |ids| && i % (PAGE_SIZE + 1) == PAGE_SIZE
    ensures ids[i] !in Shown(ListedWindow(ids, page), PAGE_SIZE)
  {
    var w := ListedWindow(ids, page);
    var o := Start((page - 1) * (PAGE_SIZE + 1), |ids|);
    forall j | 0 <= j < |w| && j < PAGE_SIZE
      ensures w[j] != ids[i]
    {
      ListedAt(ids, page, j);
      assert o + j != i;
      if o + j < i {
        assert ids[o + j] < ids[i];
      } else {
        assert ids[i] < ids[o + j];
      }
    }
    ShownPrefix(w, ids[i]);
  }

  /** The smallest example: with 21 books, book 21 is on neither page 1 nor page 2. */
  lemma ListBooksMissesTwentyFirst(ids: seq<int>)
    requires Increasing(ids) && |ids| == 21
    ensures ids[20] !in Shown(ListedWindow(ids, 1), PAGE_SIZE) && ids[20] !in Shown(ListedWindow(ids, 2), PAGE_SIZE)
    ensures ListBooksPage(ids, 1).pager.value.next.disabled == false
    ensures ListedWindow(ids, 2) == []
  {
    ListBooksSkipsRow(ids, 20, 1);
    ListBooksSkipsRow(ids, 20, 2);
  }

  /** The window the list handlers evidently intend: offset `(page-1) * PAGE_SIZE`, one extra row to detect a next page. */
  function PagedWindow(ids: seq<int>, page: int): (w: seq<int>)
    ensures |w| <= PAGE_SIZE + 1
    ensures page >= 1 ==> (|w| > 0 <==> (page - 1) * PAGE_SIZE < |ids|)
  {
    Slice(ids, PAGE_SIZE + 1, (page - 1) * PAGE_SIZE)
  }

  /** Position `j < PAGE_SIZE` of the intended window for `page >= 1` holds the id at position `(page-1) * PAGE_SIZE + j`, which lies on page `page`. */
  lemma PagedAt(ids: seq<int>, page: int, j: int)
    requires page >= 1 && 0 <= j < |PagedWindow(ids, page)| && j < PAGE_SIZE
    ensures var o := (page - 1) * PAGE_SIZE;
      o + j < |ids| && PagedWindow(ids, page)[j] == ids[o + j] && (o + j) / PAGE_SIZE + 1 == page
  {
    var q := page - 1;
    assert q * PAGE_SIZE == q * 20;
    assert (q * 20 + j) / 20 == q;
  }

  /** Every id is shown on exactly one page `page >= 1`, namely `i / PAGE_SIZE + 1`. */
  lemma PagedWindowPartition(ids: seq<int>, i: int, page: int)
    requires Increasing(ids) && 0 <= i < |ids| && page >= 1
    ensures ids[i] in Shown(PagedWindow(ids, page), PAGE_SIZE) <==> page == i / PAGE_SIZE + 1
  {
    var w := PagedWindow(ids, page);
    forall j | 0 <= j < |w| && j < PAGE_SIZE
      ensures w[j] == ids[i] <==> page == i / PAGE_SIZE + 1 && j == i % PAGE_SIZE
    {
      PagedAt(ids, page, j);
      var q := page - 1;
      assert (q * 20 + j) % 20 == j;
    }
    if page == i / PAGE_SIZE + 1 {
      var j := i % PAGE_SIZE;
      var q := page - 1;
      assert i == q * 20 + j;
      assert (page - 1) * PAGE_SIZE == q * 20;
      assert j < |w|;
    }
    ShownPrefix(w, ids[i]);
  }

  /**
   * With the intended window, next is enabled iff a row exists at position
   * `(page-1) * PAGE_SIZE + PAGE_SIZE`, which is exactly when the next page is
   * not empty.
   */
  lemma PagedHasMore(ids: seq<int>, page: int)
    requires page >= 1
    ensures HasMore(PagedWindow(ids, page), PAGE_SIZE) <==> (page - 1) * PAGE_SIZE + PAGE_SIZE < |ids|
    ensures HasMore(PagedWindow(ids, page), PAGE_SIZE) <==> PagedWindow(ids, page + 1) != []
  {
    var q := page - 1;
    assert (page - 1) * PAGE_SIZE == q * 20;
    assert page * PAGE_SIZE == q * 20 + 20;
  }

  /** `list_books` with the intended window. */
  function ListBooksPaged(ids: seq<int>, page: int): (t: TableView<int>)
    ensures |t.lines| <= PAGE_SIZE && forall k :: 0 <= k < |t.lines| ==> t.lines[k].BookLine?
    ensures t.pager.Some? && (t.pager.value.prev.disabled <==> page == 1)
  {
    TableOf(PagedWindow(ids, page), None, Some("/books"), PAGE_SIZE, page)
  }

  /** `search_books` with the intended window. */
  function SearchPaged(ids: seq<int>, q: string, page: int): (t: TableView<int>)
    ensures |t.lines| <= PAGE_SIZE && t.pager.Some? && (t.pager.value.prev.disabled <==> page == 1)
    ensures HrefPage(SearchUrl(q), t.pager.value.next.href) == Some(page + 1)
  {
    PageHrefRoundTrip(SearchUrl(q), page + 1);
    TableOf(PagedWindow(ids, page), None, Some(SearchUrl(q)), PAGE_SIZE, page)
  }

  /** As written, `view_place`'s pager ignores the page: prev is always disabled and next always leads to page 2. */
  lemma ViewPlacePagerStuck(ids: seq<int>, placeId: int, page: int)
    ensures var p := ViewPlacePage(ids, placeId, page).pager.value;
      p.prev.disabled && HrefPage(PlaceUrl(placeId), p.next.href) == Some(2)
  {
  }

  /** `view_place` passing `page_no=page_no` (and the intended window). */
  function ViewPlacePaged(ids: seq<int>, placeId: int, page: int): (t: TableView<int>)
    ensures 0 < |t.lines| <= PAGE_SIZE + 1 && t.lines[|t.lines| - 1] == IsbnInput(PlaceUrl(placeId) + "/add-book")
    ensures t.pager.Some? && (t.pager.value.prev.disabled <==> page == 1)
  {
    TableOf(PagedWindow(ids, page), Some(PlaceUrl(placeId) + "/add-book"), Some(PlaceUrl(placeId)), PAGE_SIZE, page)
  }

  /** With the page passed on, the place pager leads from `page` to `page - 1` and `page + 1`, and prev is disabled only on page 1. */
  lemma ViewPlacePagedPager(ids: seq<int>, placeId: int, page: int)
    ensures var p := ViewPlacePaged(ids, placeId, page).pager.value;
      HrefPage(PlaceUrl(placeId), p.prev.href) == Some(page - 1) &&
      HrefPage(PlaceUrl(placeId), p.next.href) == Some(page + 1) &&
      (p.prev.disabled <==> page == 1)
  {
  }

  // ---------------------------------------------------------------------------
  // Handlers over the entity layer
  // ---------------------------------------------------------------------------

  /** The table with each book object replaced by its id. */
  function IdsOf(t: TableView<Entity>): (r: TableView<int>)
    ensures |r.lines| == |t.lines| && r.pager == t.pager
    ensures forall k :: 0 <= k < |t.lines| ==>
      r.lines[k] == match t.lines[k] case BookLine(e) => BookLine(e.id) case IsbnInput(u) => IsbnInput(u)
  {
    TableView(seq(|t.lines|, k requires 0 <= k < |t.lines| =>
      match t.lines[k] case BookLine(e) => BookLine(e.id) case IsbnInput(u) => IsbnInput(u)), t.pager)
  }

  lemma IdsOfTable(es: seq<Entity>, ids: seq<int>, isbnInputUrl: Option<string>, baseUrl: Option<string>, pageSize: int, pageNo: int)
    requires |es| == |ids| && forall j :: 0 <= j < |ids| ==> es[j].id == ids[j]
    ensures IdsOf(TableOf(es, isbnInputUrl, baseUrl, pageSize, pageNo)) == TableOf(ids, isbnInputUrl, baseUrl, pageSize, pageNo)
  {
    var a := IdsOf(TableOf(es, isbnInputUrl, baseUrl, pageSize, pageNo));
    var b := TableOf(ids, isbnInputUrl, baseUrl, pageSize, pageNo);
    assert a.lines == b.lines;
  }

  /** Every book line of `t` shows the object `cache` holds for that book's id. */
  ghost predicate LinesCached(t: TableView<Entity>, cache: map<int, Entity>)
  {
    forall k :: 0 <= k < |t.lines| && t.lines[k].BookLine? ==>
      t.lines[k].book.id in cache && cache[t.lines[k].book.id] == t.lines[k].book
  }

  /** Every book line of a built table shows one of the books it was given. */
  lemma TableBooks<T>(books: seq<T>, isbnInputUrl: Option<string>, baseUrl: Option<string>, pageSize: int, pageNo: int, k: int)
    requires var t := TableOf(books, isbnInputUrl, baseUrl, pageSize, pageNo); 0 <= k < |t.lines| && t.lines[k].BookLine?
    ensures TableOf(books, isbnInputUrl, baseUrl, pageSize, pageNo).lines[k].book in books
  {
    var s := Shown(books, pageSize);
    var t := TableOf(books, isbnInputUrl, baseUrl, pageSize, pageNo);
    if k < |s| {
      assert t.lines[k] == BookLine(s[k]);
    }
  }

  /** A table built from cached handles shows only cached handles. */
  lemma TableCached(es: seq<Entity>, cache: map<int, Entity>, isbnInputUrl: Option<string>, baseUrl: Option<string>, pageSize: int, pageNo: int)
    requires forall j :: 0 <= j < |es| ==> es[j].id in cache && cache[es[j].id] == es[j]
    ensures LinesCached(TableOf(es, isbnInputUrl, baseUrl, pageSize, pageNo), cache)
  {
    var t := TableOf(es, isbnInputUrl, baseUrl, pageSize, pageNo);
    forall k | 0 <= k < |t.lines| && t.lines[k].BookLine?
      ensures t.lines[k].book.id in cache && cache[t.lines[k].book.id] == t.lines[k].book
    {
      TableBooks(es, isbnInputUrl, baseUrl, pageSize, pageNo, k);
    }
  }

  /** `list_books`: the page argument, then the page itself (`ListBooksAt`). */
  method ListBooks(c: Catalog, arg: Option<string>) returns (r: Result<TableView<Entity>, HandlerError>)
    requires c.Valid()
    modifies c
    ensures c.Valid() && c.db == old(c.db) && c.places == old(c.places) && c.borrows == old(c.borrows)
    ensures AddedBlank(old(c.books), c.books)
    ensures PageArg(arg).Err? ==> r == Err(PageArg(arg).error) && c.books == old(c.books)
    ensures PageArg(arg).Ok? ==>
      var ids := ListedWindow(ShelfIds(old(c.db.books), None), PageArg(arg).value);
      r.Ok? && IdsOf(r.value) == ListBooksPage(ShelfIds(old(c.db.books), None), PageArg(arg).value) &&
      LinesCached(r.value, c.books) && Extends(old(c.books), c.books, set id | id in ids) &&
      forall id :: id in ids ==> id in c.books
  {
    var page := PageArg(arg);
    if page.Err? {
      return Err(page.error);
    }
    var t := ListBooksAt(c, page.value);
    r := Ok(t);
  }

  /** `Book.all` with the list window, then `build_table` with the page. */
  method ListBooksAt(c: Catalog, page: int) returns (t: TableView<Entity>)
    requires c.Valid()
    modifies c
    ensures c.Valid() && c.db == old(c.db) && c.places == old(c.places) && c.borrows == old(c.borrows)
    ensures AddedBlank(old(c.books), c.books)
    ensures var ids := ListedWindow(ShelfIds(old(c.db.books), None), page);
      IdsOf(t) == ListBooksPage(ShelfIds(old(c.db.books), None), page) &&
      LinesCached(t, c.books) && Extends(old(c.books), c.books, set id | id in ids) &&
      forall id :: id in ids ==> id in c.books
  {
    var es := c.AllBooks(None, page - 1, PAGE_SIZE + 1);
    t := BuildTable(es, None, Some("/books"), PAGE_SIZE, page);
    IdsOfTable(es, ListedWindow(ShelfIds(c.db.books, None), page), None, Some("/books"), PAGE_SIZE, page);
    TableCached(es, c.books, None, Some("/books"), PAGE_SIZE, page);
  }

  /** `view_place`: the page argument, then the page itself (`ViewPlaceAt`). */
  method ViewPlace(c: Catalog, placeId: int, arg: Option<string>) returns (r: Result<TableView<Entity>, HandlerError>)
    requires c.Valid()
    modifies c
    ensures c.Valid() && c.db == old(c.db) && c.borrows == old(c.borrows)
    ensures AddedBlank(old(c.places), c.places) && AddedBlank(old(c.books), c.books)
    ensures PageArg(arg).Err? ==> r == Err(PageArg(arg).error) && c.places == old(c.places) && c.books == old(c.books)
    ensures PageArg(arg).Ok? ==>
      var ids := ListedWindow(ShelfIds(old(c.db.books), Some(placeId)), PageArg(arg).value);
      r.Ok? && IdsOf(r.value) == ViewPlacePage(ShelfIds(old(c.db.books), Some(placeId)), placeId, PageArg(arg).value) &&
      placeId in c.places && Extends(old(c.places), c.places, {placeId}) &&
      LinesCached(r.value, c.books) && Extends(old(c.books), c.books, set id | id in ids) &&
      forall id :: id in ids ==> id in c.books
  {
    var page := PageArg(arg);
    if page.Err? {
      return Err(page.error);
    }
    var t := ViewPlaceAt(c, placeId, page.value);
    r := Ok(t);
  }

  /** The place's handle, `Book.all` on its shelf with the list window, then `build_table` without the page. */
  method ViewPlaceAt(c: Catalog, placeId: int, page: int) returns (t: TableView<Entity>)
    requires c.Valid()
    modifies c
    ensures c.Valid() && c.db == old(c.db) && c.borrows == old(c.borrows)
    ensures AddedBlank(old(c.places), c.places) && AddedBlank(old(c.books), c.books)
    ensures var ids := ListedWindow(ShelfIds(old(c.db.books), Some(placeId)), page);
      IdsOf(t) == ViewPlacePage(ShelfIds(old(c.db.books), Some(placeId)), placeId, page) &&
      placeId in c.places && Extends(old(c.places), c.places, {placeId}) &&
      LinesCached(t, c.books) && Extends(old(c.books), c.books, set id | id in ids) &&
      forall id :: id in ids ==> id in c.books
  {
    var place := c.Instance(PlaceKind, placeId);
    var es := c.AllBooks(Some(place.id), page - 1, PAGE_SIZE + 1);
    t := BuildTable(es, Some(PlaceUrl(placeId) + "/add-book"), Some(PlaceUrl(placeId)), PAGE_SIZE, 1);
    IdsOfTable(es, ListedWindow(ShelfIds(c.db.books, Some(placeId)), page),
      Some(PlaceUrl(placeId) + "/add-book"), Some(PlaceUrl(placeId)), PAGE_SIZE, 1);
    TableCached(es, c.books, Some(PlaceUrl(placeId) + "/add-book"), Some(PlaceUrl(placeId)), PAGE_SIZE, 1);
  }

  /** The slots of the handle `Book(id)` returns: those of the cached object, or none for a new one. */
  ghost function HandleSlots(c: Catalog, id: int): map<Field, Value>
    reads c, c.books.Values
  {
    if id in c.books then c.books[id].slots else map[]
  }

  /** Whether the handle `Book(id)` returns is already populated; a new one is not. */
  ghost predicate HandlePopulated(c: Catalog, id: int)
    reads c, c.books.Values
  {
    id in c.books && c.books[id].populated
  }

  /**
   * The outcome of `put_book_data` on book `bookId` once `title` and `author`
   * are read from the form, by the state of the handle `Book(bookId)` before
   * the call (`HandleSlots`, `HandlePopulated`): written with the held
   * `imported_at`; refused for a model object; AttributeError on a populated
   * handle without `imported_at`; the late populate, which writes the new
   * title while memory and the result take the stored one; NotFound.
   */
  twostate predicate PutBookDone(c: Catalog, bookId: int, title: string, author: string, new r: Result<Value, Error>)
    reads c, c.books.Values
  {
    bookId in c.books &&
    (var s0 := old(HandleSlots(c, bookId)); var b := c.books[bookId];
     ImportedAt in s0 && s0[ImportedAt].Plain? ==>
       r == Ok(Plain(Text(title))) && c.places == old(c.places) &&
       c.db == old(c.db).(books := SaveBookRow(old(c.db.books), bookId, Text(title), Text(author), s0[ImportedAt].cell)) &&
       b.populated == old(HandlePopulated(c, bookId)) && b.slots == s0[Title := Plain(Text(title))][Author := Plain(Text(author))]) &&
    (var s0 := old(HandleSlots(c, bookId)); var b := c.books[bookId];
     ImportedAt in s0 && s0[ImportedAt].Ref? ==>
       r == Err(Unbindable) && c.places == old(c.places) && c.db == old(c.db) &&
       b.populated == old(HandlePopulated(c, bookId)) && b.slots == s0[Title := Plain(Text(title))][Author := Plain(Text(author))]) &&
    (var s0 := old(HandleSlots(c, bookId)); var b := c.books[bookId];
     ImportedAt !in s0 && old(HandlePopulated(c, bookId)) ==>
       r == Err(Unset(ImportedAt)) && c.places == old(c.places) && c.db == old(c.db) &&
       b.populated && b.slots == s0[Title := Plain(Text(title))][Author := Plain(Text(author))]) &&
    (var s0 := old(HandleSlots(c, bookId)); var b := c.books[bookId];
     ImportedAt !in s0 && !old(HandlePopulated(c, bookId)) && old(c.HasRow(BookKind, bookId)) ==>
       var row := old(c.db.books.rows[bookId]);
       r == Ok(Plain(row.title)) &&
       c.db == old(c.db).(books := SaveBookRow(old(c.db.books), bookId, Text(title), Text(author), row.importedAt)) &&
       Extends(old(c.places), c.places, if TruthyId(row.placeId) then {row.placeId.value} else {}) &&
       b.populated && (TruthyId(row.placeId) ==> row.placeId.value in c.places) &&
       b.slots == s0[Title := Plain(Text(title))][Author := Plain(Text(author))] + BookSlots(row, c.PlaceRef(row.placeId))) &&
    (var s0 := old(HandleSlots(c, bookId)); var b := c.books[bookId];
     ImportedAt !in s0 && !old(HandlePopulated(c, bookId)) && !old(c.HasRow(BookKind, bookId)) ==>
       r == Err(NotFound(BookKind)) && c.db == old(c.db) && c.places == old(c.places) &&
       b.populated && b.slots == s0[Title := Plain(Text(title))][Author := Plain(Text(author))])
  }

  /**
   * `put_book_data` once `title` and `author` are read from the form
   * (`PutBookForm`): assign them on the book's handle, `save`,
   * and read `book.title` back for the notification, as written. On a handle
   * that is not populated and does not hold `imported_at` (first use of the id
   * in this process, a row a listing fetched but did not show, a handle only
   * renamed so far), `save`'s read of `imported_at` populates it and
   * overwrites the two assignments in memory: the row receives the new title
   * while the notification shows the title stored before. No other cached
   * object changes.
   */
  method PutBookData(c: Catalog, bookId: int, title: string, author: string) returns (r: Result<Value, Error>)
    requires c.Valid()
    modifies c, if bookId in c.books then {c.books[bookId]} else {}
    ensures c.Valid() && c.borrows == old(c.borrows) && c.NewEntriesFresh()
    ensures AddedBlank(old(c.places), c.places)
    ensures bookId in c.books && Extends(old(c.books), c.books, {bookId})
    ensures bookId in old(c.books) ==> c.books == old(c.books)
    ensures PutBookDone(c, bookId, title, author, r)
  {
    var b := c.Instance(BookKind, bookId);
    r := AssignAndSave(c, b, title, author);
  }

  /** What reading the form of `put_book_data` raises. */
  datatype FormError =
    | EmptyField                  // IndexError: `D` takes `val[0]` of a key sent with no value
    | MissingField(name: string)  // KeyError from `data[name]`

  /**
   * `put_book_data` from the request form: `D(request.form)`, then
   * `Book(book_id)`, then `data["title"]`, `data["author"]` and
   * `data["place_id"]` in turn, each looked up just before its use. A key
   * missing from the form raises KeyError after the handle is registered and
   * after the assignments that precede it, and nothing is written. With all
   * three keys present the outcome is `PutBookDone`, as for `PutBookData`.
   */
  method PutBookForm(c: Catalog, bookId: int, form: map<string, seq<string>>) returns (r: Result<Result<Value, Error>, FormError>)
    requires c.Valid()
    modifies c, if bookId in c.books then {c.books[bookId]} else {}
    ensures c.Valid() && c.borrows == old(c.borrows) && c.NewEntriesFresh()
    ensures AddedBlank(old(c.places), c.places)
    ensures Extends(old(c.books), c.books, {bookId}) && (bookId in old(c.books) ==> c.books == old(c.books))
    ensures D(form).None? ==>
      r == Err(EmptyField) && c.db == old(c.db) && c.places == old(c.places) && c.books == old(c.books) &&
      HandleSlots(c, bookId) == old(HandleSlots(c, bookId)) && HandlePopulated(c, bookId) == old(HandlePopulated(c, bookId))
    ensures D(form).Some? && "title" !in form ==>
      r == Err(MissingField("title")) && c.db == old(c.db) && c.places == old(c.places) && bookId in c.books &&
      c.books[bookId].slots == old(HandleSlots(c, bookId)) && c.books[bookId].populated == old(HandlePopulated(c, bookId))
    ensures D(form).Some? && "title" in form && "author" !in form ==>
      r == Err(MissingField("author")) && c.db == old(c.db) && c.places == old(c.places) && bookId in c.books &&
      c.books[bookId].slots == old(HandleSlots(c, bookId))[Title := Plain(Text(form["title"][0]))] &&
      c.books[bookId].populated == old(HandlePopulated(c, bookId))
    ensures D(form).Some? && "title" in form && "author" in form && "place_id" !in form ==>
      r == Err(MissingField("place_id")) && c.db == old(c.db) && c.places == old(c.places) && bookId in c.books &&
      c.books[bookId].slots == old(HandleSlots(c, bookId))[Title := Plain(Text(form["title"][0]))][Author := Plain(Text(form["author"][0]))] &&
      c.books[bookId].populated == old(HandlePopulated(c, bookId))
    ensures D(form).Some? && "title" in form && "author" in form && "place_id" in form ==>
      r.Ok? && PutBookDone(c, bookId, form["title"][0], form["author"][0], r.value)
  {
    var data := D(form);
    if data.None? {
      return Err(EmptyField);
    }
    var d := data.value;
    if "title" in d && "author" in d && "place_id" in d {
      var saved := PutBookData(c, bookId, d["title"], d["author"]);
      return Ok(saved);
    }
    var b := c.Instance(BookKind, bookId);
    if "title" !in d {
      return Err(MissingField("title"));
    }
    b.Set(Title, Plain(Text(d["title"])));
    if "author" !in d {
      return Err(MissingField("author"));
    }
    b.Set(Author, Plain(Text(d["author"])));
    r := Err(MissingField("place_id"));
  }

  /**
   * `put_book_data` populating the handle (`+book`) before the assignments:
   * the notification shows the title just stored. No other cached object
   * changes.
   */
  method PutBookDataPopulated(c: Catalog, bookId: int, title: string, author: string) returns (r: Result<Value, Error>)
    requires c.Valid()
    modifies c, if bookId in c.books then {c.books[bookId]} else {}
    ensures c.Valid() && c.borrows == old(c.borrows) && c.NewEntriesFresh()
    ensures AddedBlank(old(c.places), c.places)
    ensures bookId in c.books && Extends(old(c.books), c.books, {bookId}) && c.books[bookId].populated
    ensures bookId in old(c.books) ==> c.books == old(c.books)
    ensures var s0 := old(HandleSlots(c, bookId)); var b := c.books[bookId];
      old(HandlePopulated(c, bookId)) && ImportedAt in s0 && s0[ImportedAt].Plain? ==>
        r == Ok(Plain(Text(title))) && c.places == old(c.places) &&
        c.db == old(c.db).(books := SaveBookRow(old(c.db.books), bookId, Text(title), Text(author), s0[ImportedAt].cell)) &&
        b.slots == s0[Title := Plain(Text(title))][Author := Plain(Text(author))]
    ensures var s0 := old(HandleSlots(c, bookId)); var b := c.books[bookId];
      old(HandlePopulated(c, bookId)) && ImportedAt in s0 && s0[ImportedAt].Ref? ==>
        r == Err(Unbindable) && c.places == old(c.places) && c.db == old(c.db) &&
        b.slots == s0[Title := Plain(Text(title))][Author := Plain(Text(author))]
    ensures var s0 := old(HandleSlots(c, bookId)); var b := c.books[bookId];
      old(HandlePopulated(c, bookId)) && ImportedAt !in s0 ==>
        r == Err(Unset(ImportedAt)) && c.places == old(c.places) && c.db == old(c.db) &&
        b.slots == s0[Title := Plain(Text(title))][Author := Plain(Text(author))]
    ensures var s0 := old(HandleSlots(c, bookId)); var b := c.books[bookId];
      !old(HandlePopulated(c, bookId)) && old(c.HasRow(BookKind, bookId)) ==>
        var row := old(c.db.books.rows[bookId]);
        r == Ok(Plain(Text(title))) &&
        c.db == old(c.db).(books := SaveBookRow(old(c.db.books), bookId, Text(title), Text(author), row.importedAt)) &&
        Extends(old(c.places), c.places, if TruthyId(row.placeId) then {row.placeId.value} else {}) &&
        (TruthyId(row.placeId) ==> row.placeId.value in c.places) &&
        b.slots == (s0 + BookSlots(row, c.PlaceRef(row.placeId)))[Title := Plain(Text(title))][Author := Plain(Text(author))]
    ensures var s0 := old(HandleSlots(c, bookId)); var b := c.books[bookId];
      !old(HandlePopulated(c, bookId)) && !old(c.HasRow(BookKind, bookId)) ==>
        r == Err(NotFound(BookKind)) && c.db == old(c.db) && c.places == old(c.places) && b.slots == s0
  {
    var b := c.Instance(BookKind, bookId);
    var p := c.EnsurePopulated(b);
    if p.Fail? {
      return Err(p.error);
    }
    r := AssignAndSave(c, b, title, author);
  }

  /**
   * The body of `put_book_data` after the handle is obtained: assign `title`
   * and `author`, `save`, read `title` back. On a handle that holds
   * `imported_at` the row, the handle and the result carry the new title. On
   * a handle without `imported_at` that was never populated, `save` populates
   * it, so the handle ends up holding the stored title and that is what comes
   * back, while the row receives the new one. On a populated handle without
   * `imported_at`, `save` raises AttributeError before writing.
   */
  method AssignAndSave(c: Catalog, b: Entity, title: string, author: string) returns (r: Result<Value, Error>)
    requires c.Valid() && b.kind == BookKind
    modifies c, b
    ensures c.Valid() && c.books == old(c.books) && c.borrows == old(c.borrows) && c.NewEntriesFresh()
    ensures AddedBlank(old(c.places), c.places)
    ensures ImportedAt in old(b.slots) && old(b.slots)[ImportedAt].Plain? ==>
      r == Ok(Plain(Text(title))) && c.places == old(c.places) &&
      c.db == old(c.db).(books := SaveBookRow(old(c.db.books), b.id, Text(title), Text(author), old(b.slots)[ImportedAt].cell)) &&
      b.populated == old(b.populated) && b.slots == old(b.slots)[Title := Plain(Text(title))][Author := Plain(Text(author))]
    ensures ImportedAt in old(b.slots) && old(b.slots)[ImportedAt].Ref? ==>
      r == Err(Unbindable) && c.places == old(c.places) && c.db == old(c.db) &&
      b.populated == old(b.populated) && b.slots == old(b.slots)[Title := Plain(Text(title))][Author := Plain(Text(author))]
    ensures ImportedAt !in old(b.slots) && old(b.populated) ==>
      r == Err(Unset(ImportedAt)) && c.places == old(c.places) && c.db == old(c.db) &&
      b.populated && b.slots == old(b.slots)[Title := Plain(Text(title))][Author := Plain(Text(author))]
    ensures ImportedAt !in old(b.slots) && !old(b.populated) && old(c.HasRow(BookKind, b.id)) ==>
      var row := old(c.db.books.rows[b.id]);
      r == Ok(Plain(row.title)) &&
      c.db == old(c.db).(books := SaveBookRow(old(c.db.books), b.id, Text(title), Text(author), row.importedAt)) &&
      Extends(old(c.places), c.places, old(c.Referenced(b, PlaceKind))) &&
      b.populated && (TruthyId(row.placeId) ==> row.placeId.value in c.places) &&
      b.slots == old(b.slots)[Title := Plain(Text(title))][Author := Plain(Text(author))] + BookSlots(row, c.PlaceRef(row.placeId))
    ensures ImportedAt !in old(b.slots) && !old(b.populated) && !old(c.HasRow(BookKind, b.id)) ==>
      r == Err(NotFound(BookKind)) && c.db == old(c.db) && c.places == old(c.places) &&
      b.populated && b.slots == old(b.slots)[Title := Plain(Text(title))][Author := Plain(Text(author))]
  {
    if ImportedAt in b.slots {
      r := AssignAndSaveHeld(c, b, title, author);
    } else {
      r := AssignAndSaveUnheld(c, b, title, author);
    }
  }

  /** `AssignAndSave` on a handle holding `imported_at`: `save` reads memory only and writes it, or refuses a model object. */
  method AssignAndSaveHeld(c: Catalog, b: Entity, title: string, author: string) returns (r: Result<Value, Error>)
    requires c.Valid() && b.kind == BookKind && ImportedAt in b.slots
    modifies c, b
    ensures c.Valid() && c.books == old(c.books) && c.borrows == old(c.borrows) && c.places == old(c.places)
    ensures c.NewEntriesFresh() && b.populated == old(b.populated)
    ensures b.slots == old(b.slots)[Title := Plain(Text(title))][Author := Plain(Text(author))]
    ensures old(b.slots)[ImportedAt].Plain? ==>
      r == Ok(Plain(Text(title))) &&
      c.db == old(c.db).(books := SaveBookRow(old(c.db.books), b.id, Text(title), Text(author), old(b.slots)[ImportedAt].cell))
    ensures old(b.slots)[ImportedAt].Ref? ==> r == Err(Unbindable) && c.db == old(c.db)
  {
    b.Set(Title, Plain(Text(title)));
    b.Set(Author, Plain(Text(author)));
    var saved := c.SaveBook(b);
    if saved.Fail? {
      return Err(saved.error);
    }
    r := c.Get(b, Title);
  }

  /**
   * `AssignAndSave` on a handle without `imported_at`: reading it in `save`
   * populates a never-populated handle, which overwrites the two assignments
   * in memory, and raises AttributeError on a populated one.
   */
  method AssignAndSaveUnheld(c: Catalog, b: Entity, title: string, author: string) returns (r: Result<Value, Error>)
    requires c.Valid() && b.kind == BookKind && ImportedAt !in b.slots
    modifies c, b
    ensures c.Valid() && c.books == old(c.books) && c.borrows == old(c.borrows) && c.NewEntriesFresh() && b.populated
    ensures AddedBlank(old(c.places), c.places)
    ensures old(b.populated) ==>
      r == Err(Unset(ImportedAt)) && c.places == old(c.places) && c.db == old(c.db) &&
      b.slots == old(b.slots)[Title := Plain(Text(title))][Author := Plain(Text(author))]
    ensures !old(b.populated) && old(c.HasRow(BookKind, b.id)) ==>
      var row := old(c.db.books.rows[b.id]);
      r == Ok(Plain(row.title)) &&
      c.db == old(c.db).(books := SaveBookRow(old(c.db.books), b.id, Text(title), Text(author), row.importedAt)) &&
      Extends(old(c.places), c.places, old(c.Referenced(b, PlaceKind))) &&
      (TruthyId(row.placeId) ==> row.placeId.value in c.places) &&
      b.slots == old(b.slots)[Title := Plain(Text(title))][Author := Plain(Text(author))] + BookSlots(row, c.PlaceRef(row.placeId))
    ensures !old(b.populated) && !old(c.HasRow(BookKind, b.id)) ==>
      r == Err(NotFound(BookKind)) && c.db == old(c.db) && c.places == old(c.places) &&
      b.slots == old(b.slots)[Title := Plain(Text(title))][Author := Plain(Text(author))]
  {
    b.Set(Title, Plain(Text(title)));
    b.Set(Author, Plain(Text(author)));
    ghost var pre := b.slots;
    var saved := c.SaveBook(b);
    if saved.Fail? {
      return Err(saved.error);
    }
    ghost var row := old(c.db.books.rows[b.id]);
    LatePopulateOverwrites(pre, row, c.PlaceRef(row.placeId));
    r := c.Get(b, Title);
  }
}
