/**
 * The SQLite database as the entity layer uses it, written as values: each
 * table maps integer row ids to rows and keeps the id the next INSERT gets.
 * SQL text, cursors and commits are not modelled; a query is the function of
 * the table that its WHERE / ORDER BY / LIMIT / OFFSET clauses describe.
 */
module Storage {
  import opened Wrappers

  /** `datetime('now')` and `datetime.now()` values, taken as opaque. */
  type Timestamp = int

  /** A value read from or written to a nullable column. */
  datatype Cell = Null | Text(s: string) | Time(t: Timestamp)

  /** A row of `places (id, name)`. */
  datatype PlaceRow = PlaceRow(name: string)

  /** A row of `books (id, isbn, title, author, created_at, imported_at, data_source, place_id)`. */
  datatype BookRow = BookRow(
    isbn: Cell, title: Cell, author: Cell, createdAt: Cell,
    importedAt: Cell, dataSource: Cell, placeId: Option<int>)

  /** A row of `borrows (id, book_id, lender, borrowed_at, returned_at)`; a null `returned_at` is an open loan. */
  datatype BorrowRow = BorrowRow(bookId: int, lender: string, borrowedAt: Cell, returnedAt: Cell)

  /** A table with an INTEGER PRIMARY KEY: its rows by id and the id the next INSERT allocates. */
  datatype Table<R> = Table(rows: map<int, R>, nextId: int) {
    /** Every id in use is positive and below the next one to be allocated. */
    ghost predicate Valid()
    {
      nextId >= 1 && forall id :: id in rows ==> 1 <= id < nextId
    }
  }

  /** The three tables that the entity layer reads and writes. */
  datatype Database = Database(places: Table<PlaceRow>, books: Table<BookRow>, borrows: Table<BorrowRow>) {
    ghost predicate Valid()
    {
      places.Valid() && books.Valid() && borrows.Valid()
    }
  }

  /** `INSERT`: the row is stored under a fresh id, which is the cursor's `lastrowid`. */
  function Insert<R>(t: Table<R>, row: R): (r: (Table<R>, int))
    requires t.Valid()
    ensures r.0.Valid()
    ensures r.1 >= 1 && r.1 !in t.rows
    ensures r.0.rows == t.rows[r.1 := row]
  {
    (Table(t.rows[t.nextId := row], t.nextId + 1), t.nextId)
  }

  /** `UPDATE ... WHERE id = ?`: the row with that id, if any, is rewritten by `f`; no other row changes. */
  function Update<R>(t: Table<R>, id: int, f: R -> R): (r: Table<R>)
    ensures r.nextId == t.nextId && r.rows.Keys == t.rows.Keys
    ensures forall k :: k in t.rows && k != id ==> r.rows[k] == t.rows[k]
    ensures id in t.rows ==> r.rows[id] == f(t.rows[id])
    ensures t.Valid() ==> r.Valid()
  {
    if id in t.rows then t.(rows := t.rows[id := f(t.rows[id])]) else t
  }

  /** Strictly ascending, hence without repetitions. */
  ghost predicate Increasing(s: seq<int>)
  {
    forall i, j :: 0 <= i < j < |s| ==> s[i] < s[j]
  }

  /** The ids in `[lo, hi)` whose row satisfies `p`, in ascending order. */
  function SelectFrom<R>(rows: map<int, R>, p: R -> bool, lo: int, hi: int): (ids: seq<int>)
    decreases hi - lo
    ensures Increasing(ids)
    ensures forall i :: 0 <= i < |ids| ==> lo <= ids[i] < hi && ids[i] in rows && p(rows[ids[i]])
    ensures forall id :: lo <= id < hi && id in rows && p(rows[id]) ==> id in ids
  {
    if lo >= hi then []
    else if lo in rows && p(rows[lo]) then [lo] + SelectFrom(rows, p, lo + 1, hi)
    else SelectFrom(rows, p, lo + 1, hi)
  }

  /** In an ascending sequence the head is the least element and every other element is in the tail. */
  lemma HeadIsLeast(s: seq<int>, x: int)
    requires Increasing(s) && x in s
    ensures s[0] <= x
    ensures x != s[0] ==> x in s[1..]
  {
    var j :| 0 <= j < |s| && s[j] == x;
    if j > 0 {
      assert s[0] < s[j];
      assert s[1..][j - 1] == x;
    }
  }

  /** The head of a non-empty sequence is one of its elements. */
  lemma HeadIsMember(s: seq<int>)
    requires |s| > 0
    ensures s[0] in s
  {
  }

  /** Two ascending sequences with the same elements are equal: an id query has one answer. */
  lemma {:induction false} IncreasingUnique(a: seq<int>, b: seq<int>)
    requires Increasing(a) && Increasing(b)
    requires forall x :: x in a <==> x in b
    ensures a == b
  {
    if a == [] || b == [] {
      assert forall x :: x !in a && x !in b;
      if |a| > 0 {
        HeadIsMember(a);
        assert false;
      }
      if |b| > 0 {
        HeadIsMember(b);
        assert false;
      }
    } else {
      HeadIsLeast(a, b[0]);
      HeadIsLeast(b, a[0]);
      forall x | x in a[1..] ensures x in b[1..] {
        assert x in a && x != a[0];
        HeadIsLeast(b, x);
      }
      forall x | x in b[1..] ensures x in a[1..] {
        assert x in b && x != b[0];
        HeadIsLeast(a, x);
      }
      IncreasingUnique(a[1..], b[1..]);
      assert a == [a[0]] + a[1..] && b == [b[0]] + b[1..];
    }
  }

  /** `SELECT id FROM t WHERE p ORDER BY id ASC`. */
  function Select<R>(t: Table<R>, p: R -> bool): (ids: seq<int>)
    requires t.Valid()
    ensures Increasing(ids)
    ensures forall id :: id in ids <==> id in t.rows && p(t.rows[id])
  {
    SelectFrom(t.rows, p, 1, t.nextId)
  }

  /** Every row. */
  predicate Any<R>(row: R)
  {
    true
  }

  /** `SELECT id FROM t ORDER BY id ASC`: every id of the table, ascending. */
  function AllIds<R>(t: Table<R>): (ids: seq<int>)
    requires t.Valid()
    ensures Increasing(ids)
    ensures forall id :: id in ids <==> id in t.rows
  {
    Select(t, Any)
  }

  /** The start of `LIMIT ... OFFSET offset` in a result of `n` rows: SQLite treats a negative offset as zero. */
  function Start(offset: int, n: nat): (o: nat)
    ensures o <= n
    ensures offset <= 0 ==> o == 0
    ensures 0 <= offset <= n ==> o == offset
    ensures offset >= n ==> o == n
  {
    if offset < 0 then 0 else if offset > n then n else offset
  }

  /** `LIMIT limit OFFSET offset` as SQLite applies it: skip `offset` rows (none if negative), then keep `limit` rows (all if negative). */
  function Slice<T>(s: seq<T>, limit: int, offset: int): (r: seq<T>)
    ensures var o := Start(offset, |s|);
      |r| == (if limit < 0 || |s| - o <= limit then |s| - o else limit) &&
      forall i :: 0 <= i < |r| ==> r[i] == s[o + i]
  {
    var rest := s[Start(offset, |s|)..];
    if limit < 0 || |rest| <= limit then rest else rest[..limit]
  }

  /** `LIMIT {page_size} OFFSET {page_no * page_size}`, the paging that every listing query uses. */
  function Window<T>(s: seq<T>, pageNo: int, pageSize: int): (r: seq<T>)
    ensures 0 <= pageNo && 0 <= pageSize ==>
      |r| <= pageSize &&
      forall i :: 0 <= i < |r| ==> pageNo * pageSize + i < |s| && r[i] == s[pageNo * pageSize + i]
  {
    if 0 <= pageNo && 0 <= pageSize then MulMonotone(0, pageNo, pageSize); Slice(s, pageSize, pageNo * pageSize)
    else Slice(s, pageSize, pageNo * pageSize)
  }

  /** With a positive page size, the item at index `i` is on exactly one page: page `i / pageSize`, at position `i % pageSize`. */
  lemma WindowPartition<T>(s: seq<T>, pageSize: int, i: int, pageNo: int)
    requires 0 < pageSize && 0 <= i < |s| && 0 <= pageNo
    ensures var w := Window(s, pageNo, pageSize);
      (pageNo == i / pageSize <==> pageNo * pageSize <= i < pageNo * pageSize + |w|) &&
      (pageNo == i / pageSize ==> w[i % pageSize] == s[i])
  {
    PageOf(i, pageSize, pageNo);
    SliceAt(s, pageSize, pageNo * pageSize, i);
  }

  /** Page `p` of size `c` covers indexes `p * c` to `p * c + c - 1`, which is where index `i` falls iff `p` is `i / c`. */
  lemma PageOf(i: int, c: int, p: int)
    requires 0 < c && 0 <= i && 0 <= p
    ensures 0 <= p * c
    ensures p == i / c <==> p * c <= i < p * c + c
    ensures p == i / c ==> i - p * c == i % c
  {
    var q, m := i / c, i % c;
    assert q * c + m == i && 0 <= m < c && 0 <= q;
    MulMonotone(0, p, c);
    if p < q {
      MulSuccBelow(p, q, c);
    } else if q < p {
      MulSuccBelow(q, p, c);
    }
  }

  /** With `a < b`, the page after page `a` starts at or before page `b`. */
  lemma MulSuccBelow(a: int, b: int, c: int)
    requires a < b && 0 < c
    ensures a * c + c <= b * c
  {
    MulMonotone(a + 1, b, c);
    assert (a + 1) * c == a * c + c;
  }

  /** A slice at a non-negative offset holds index `i` of `s` iff `i` lies within `limit` of the offset. */
  lemma SliceAt<T>(s: seq<T>, limit: int, offset: int, i: int)
    requires 0 < limit && 0 <= offset && 0 <= i < |s|
    ensures var w := Slice(s, limit, offset);
      (offset <= i < offset + |w| <==> offset <= i < offset + limit) &&
      (offset <= i < offset + limit ==> w[i - offset] == s[i])
  {
  }

  /** Multiplying by a non-negative factor keeps the order. */
  lemma MulMonotone(a: int, b: int, c: int)
    requires a <= b && 0 <= c
    ensures a * c <= b * c
  {
    var d := b - a;
    assert b * c == a * c + d * c;
  }

  /** `Place.rename`'s UPDATE: row `id` gets the new name; no other row changes. */
  function RenamePlaceRow(t: Table<PlaceRow>, id: int, name: string): (r: Table<PlaceRow>)
    ensures r.nextId == t.nextId && r.rows.Keys == t.rows.Keys
    ensures forall k :: k in t.rows && k != id ==> r.rows[k] == t.rows[k]
    ensures id in t.rows ==> r.rows[id] == PlaceRow(name)
    ensures t.Valid() ==> r.Valid()
  {
    Update(t, id, (row: PlaceRow) => row.(name := name))
  }

  /** `Book.rename`'s UPDATE: only the title of row `id` changes. */
  function RetitleBookRow(t: Table<BookRow>, id: int, title: string): (r: Table<BookRow>)
    ensures r.nextId == t.nextId && r.rows.Keys == t.rows.Keys
    ensures forall k :: k in t.rows && k != id ==> r.rows[k] == t.rows[k]
    ensures id in t.rows ==> r.rows[id] == t.rows[id].(title := Text(title))
    ensures t.Valid() ==> r.Valid()
  {
    Update(t, id, (row: BookRow) => row.(title := Text(title)))
  }

  /** `Book.save`'s UPDATE: title, author and imported_at of row `id` take the given values; its other columns and every other row stay. */
  function SaveBookRow(t: Table<BookRow>, id: int, title: Cell, author: Cell, importedAt: Cell): (r: Table<BookRow>)
    ensures r.nextId == t.nextId && r.rows.Keys == t.rows.Keys
    ensures forall k :: k in t.rows && k != id ==> r.rows[k] == t.rows[k]
    ensures id in t.rows ==> var old_ := t.rows[id]; var new_ := r.rows[id];
      new_.title == title && new_.author == author && new_.importedAt == importedAt &&
      new_.isbn == old_.isbn && new_.createdAt == old_.createdAt &&
      new_.dataSource == old_.dataSource && new_.placeId == old_.placeId
    ensures t.Valid() ==> r.Valid()
  {
    Update(t, id, (row: BookRow) => row.(title := title, author := author, importedAt := importedAt))
  }

  /** The row that `Book.new_from_isbn` inserts: only isbn and place_id are given, created_at takes its default, the rest are NULL. */
  function IsbnBookRow(isbn: string, placeId: Option<int>, now: Timestamp): (r: BookRow)
    ensures r.isbn == Text(isbn) && r.placeId == placeId && r.createdAt == Time(now)
    ensures r.title == Null && r.author == Null && r.importedAt == Null && r.dataSource == Null
  {
    BookRow(Text(isbn), Null, Null, Time(now), Null, Null, placeId)
  }

  /** The `WHERE place_id = ?` filter of `Book.all`, present only when a place is given. */
  predicate OnShelf(placeId: Option<int>, row: BookRow)
  {
    placeId.None? || row.placeId == placeId
  }

  /** `SELECT id FROM books WHERE 1=1 [AND place_id = ?] ORDER BY id ASC`. */
  function ShelfIds(t: Table<BookRow>, placeId: Option<int>): (ids: seq<int>)
    requires t.Valid()
    ensures Increasing(ids)
    ensures forall id :: id in ids <==> id in t.rows && (placeId.None? || t.rows[id].placeId == placeId)
    ensures placeId.None? ==> ids == AllIds(t)
  {
    var ids := Select(t, (row: BookRow) => OnShelf(placeId, row));
    if placeId.None? then IncreasingUnique(ids, AllIds(t)); ids else ids
  }

  /** The row belongs to an open loan of book `bookId`. */
  predicate IsOpenLoanOf(bookId: int, row: BorrowRow)
  {
    row.bookId == bookId && row.returnedAt == Null
  }

  /** `SELECT id FROM borrows WHERE book_id = {bookId} AND returned_at IS NULL`. */
  function OpenLoans(t: Table<BorrowRow>, bookId: int): (ids: seq<int>)
    requires t.Valid()
    ensures Increasing(ids)
    ensures forall id :: id in ids <==> id in t.rows && IsOpenLoanOf(bookId, t.rows[id])
  {
    Select(t, (row: BorrowRow) => IsOpenLoanOf(bookId, row))
  }

  /** The ids of the open loans of `bookId`, as a set. */
  ghost function OpenSet(t: Table<BorrowRow>, bookId: int): set<int>
  {
    set id | id in t.rows && IsOpenLoanOf(bookId, t.rows[id])
  }

  /** A sequence without repetitions has as many elements as its set. */
  lemma {:induction false} IncreasingCard(s: seq<int>)
    requires Increasing(s)
    ensures |set x | x in s| == |s|
  {
    if s != [] {
      var t := s[1..];
      assert Increasing(t);
      IncreasingCard(t);
      assert (set x | x in s) == {s[0]} + (set x | x in t);
      assert s[0] !in (set x | x in t);
    }
  }

  /**
   * `get_active_borrow`'s outcome on storage: no open loan gives `None`, exactly
   * one gives its id, and more fail as the one-element unpacking `[row] = rows`
   * does, with the number of rows found.
   */
  function ActiveLoan(t: Table<BorrowRow>, bookId: int): (r: Result<Option<int>, int>)
    requires t.Valid()
    ensures r == Ok(None) <==> OpenSet(t, bookId) == {}
    ensures forall id :: r == Ok(Some(id)) <==> OpenSet(t, bookId) == {id}
    ensures r.Err? <==> |OpenSet(t, bookId)| >= 2
    ensures r.Err? ==> r.error == |OpenSet(t, bookId)|
  {
    var ids := OpenLoans(t, bookId);
    assert (set x | x in ids) == OpenSet(t, bookId);
    IncreasingCard(ids);
    if |ids| == 0 then Ok(None)
    else if |ids| == 1 then
      assert OpenSet(t, bookId) == {ids[0]};
      Ok(Some(ids[0]))
    else
      assert ids[0] in OpenSet(t, bookId) && ids[1] in OpenSet(t, bookId);
      Err(|ids|)
  }

  /** `lend_to`'s INSERT: a new open loan of `bookId`, with no check of any existing loan. */
  function Lend(t: Table<BorrowRow>, bookId: int, lender: string, now: Timestamp): (r: (Table<BorrowRow>, int))
    requires t.Valid()
    ensures r.0.Valid() && r.1 !in t.rows
    ensures r.0.rows == t.rows[r.1 := BorrowRow(bookId, lender, Time(now), Null)]
    ensures OpenSet(r.0, bookId) == OpenSet(t, bookId) + {r.1}
    ensures forall other :: other != bookId ==> OpenSet(r.0, other) == OpenSet(t, other)
  {
    Insert(t, BorrowRow(bookId, lender, Time(now), Null))
  }

  /** `return_now`'s UPDATE: only `returned_at` of row `id` changes. */
  function ReturnLoan(t: Table<BorrowRow>, id: int, now: Timestamp): (r: Table<BorrowRow>)
    ensures r.nextId == t.nextId && r.rows.Keys == t.rows.Keys
    ensures forall k :: k in t.rows && k != id ==> r.rows[k] == t.rows[k]
    ensures id in t.rows ==> r.rows[id] == t.rows[id].(returnedAt := Time(now))
    ensures t.Valid() ==> r.Valid()
    ensures forall b :: OpenSet(r, b) == OpenSet(t, b) - {id}
  {
    Update(t, id, (row: BorrowRow) => row.(returnedAt := Time(now)))
  }

  /** Lending a book that has no open loan makes the new row its active loan. */
  lemma LendOpensLoan(t: Table<BorrowRow>, bookId: int, lender: string, now: Timestamp)
    requires t.Valid() && ActiveLoan(t, bookId) == Ok(None)
    ensures var (t', id) := Lend(t, bookId, lender, now); ActiveLoan(t', bookId) == Ok(Some(id))
  {
  }

  /** Lending a book that is already lent leaves it with two open loans, so looking up its active loan fails. */
  lemma LendWhileLentFails(t: Table<BorrowRow>, bookId: int, lender: string, now: Timestamp)
    requires t.Valid() && ActiveLoan(t, bookId).Ok? && ActiveLoan(t, bookId).value.Some?
    ensures var (t', _) := Lend(t, bookId, lender, now); ActiveLoan(t', bookId) == Err(2)
  {
    var id := ActiveLoan(t, bookId).value.value;
    var (t', id') := Lend(t, bookId, lender, now);
    assert OpenSet(t', bookId) == {id, id'};
  }

  /** Lending the same book twice, from any state, makes its active-loan lookup fail. */
  lemma LendTwiceFails(t: Table<BorrowRow>, bookId: int, a: string, b: string, now: Timestamp, later: Timestamp)
    requires t.Valid()
    ensures var (t1, _) := Lend(t, bookId, a, now);
            var (t2, _) := Lend(t1, bookId, b, later);
            ActiveLoan(t2, bookId).Err?
  {
    var (t1, id1) := Lend(t, bookId, a, now);
    var (t2, id2) := Lend(t1, bookId, b, later);
    assert id1 in t1.rows;
    assert {id1, id2} <= OpenSet(t2, bookId);
    assert |{id1, id2}| == 2;
    SubsetCard({id1, id2}, OpenSet(t2, bookId));
  }

  /** A superset has at least as many elements. */
  lemma SubsetCard(a: set<int>, b: set<int>)
    requires a <= b
    ensures |a| <= |b|
  {
    assert b == a + (b - a);
  }

  /** Returning the active loan of a book leaves the book with no active loan. */
  lemma ReturnClosesLoan(t: Table<BorrowRow>, bookId: int, id: int, now: Timestamp)
    requires t.Valid() && ActiveLoan(t, bookId) == Ok(Some(id))
    ensures ActiveLoan(ReturnLoan(t, id, now), bookId) == Ok(None)
  {
  }

  /** Lend and then return: the book is available again and the loan row keeps its history. */
  lemma LendThenReturn(t: Table<BorrowRow>, bookId: int, lender: string, now: Timestamp, later: Timestamp)
    requires t.Valid() && ActiveLoan(t, bookId) == Ok(None)
    ensures var (t1, id) := Lend(t, bookId, lender, now);
            var t2 := ReturnLoan(t1, id, later);
            ActiveLoan(t2, bookId) == Ok(None) &&
            t2.rows == t.rows[id := BorrowRow(bookId, lender, Time(now), Time(later))]
  {
    var (t1, id) := Lend(t, bookId, lender, now);
    LendOpensLoan(t, bookId, lender, now);
    ReturnClosesLoan(t1, bookId, id, later);
  }
}
