/**
 * The identity-mapped, lazily populated entity layer (`Model`, `lazy`,
 * `Place`, `Book`, `Borrow`).
 *
 * The three model classes share one Dafny class, `Entity`, told apart by its
 * `kind`. An object's per-field attributes `_name`, `_title`, ... are the map
 * `slots`; a field absent from it is UNSET. The class-level `_cache`
 * dictionaries and the database live in one `Catalog` object, so every class
 * method and every method that touches storage is a method of `Catalog`.
 */
module Entities {
  import opened Wrappers
  import opened Storage

  /** Which model class an object belongs to. */
  datatype Kind = PlaceKind | BookKind | BorrowKind

  /** The declared (lazy) fields of all model classes. */
  datatype Field =
    | Name
    | Title | Author | Isbn | CreatedAt | ImportedAt | DataSource | PlaceOf
    | Lender | BookOf | BorrowedAt | ReturnedAt

  /** The `fields` tuple of each class, in declaration order. */
  function Fields(k: Kind): (fs: seq<Field>)
  {
    match k
    case PlaceKind => [Name]
    case BookKind => [Title, Author, Isbn, CreatedAt, ImportedAt, DataSource, PlaceOf]
    case BorrowKind => [Lender, BookOf, BorrowedAt, ReturnedAt]
  }

  /** What a slot holds: a column value (`None` is `Plain(Null)`) or a model object. */
  datatype Value = Plain(cell: Cell) | Ref(entity: Entity)

  /** The slots `Book.populate` assigns from a `books` row, given the value it computes for `place`. */
  function BookSlots(row: BookRow, place: Value): (s: map<Field, Value>)
    ensures forall f :: f in s <==> f in Fields(BookKind)
    ensures s[Title] == Plain(row.title) && s[Author] == Plain(row.author) && s[ImportedAt] == Plain(row.importedAt)
    ensures s[PlaceOf] == place
  {
    map[Title := Plain(row.title), Author := Plain(row.author), Isbn := Plain(row.isbn),
        CreatedAt := Plain(row.createdAt), ImportedAt := Plain(row.importedAt),
        DataSource := Plain(row.dataSource), PlaceOf := place]
  }

  /** The exceptions the entity layer raises. */
  datatype Error =
    | NotFound(kind: Kind)           // ValueError("No ... with this ID found") from populate
    | Unset(field: Field)            // AttributeError: the slot is still unset after populate has run
    | TooManyOpenLoans(count: int)   // ValueError from unpacking `[row] = rows`
    | Unbindable                     // sqlite3 cannot bind a model object as a query parameter

  /** A model object: its class, its id, whether `populate` has been started, and its field slots. */
  class Entity {
    const kind: Kind
    const id: int
    var populated: bool
    var slots: map<Field, Value>

    /** `super().__new__(cls)` followed by `_populated = False`: no field is set. */
    constructor (kind: Kind, id: int)
      ensures this.kind == kind && this.id == id
      ensures !populated && slots == map[]
    {
      this.kind := kind;
      this.id := id;
      populated := false;
      slots := map[];
    }

    /** `lazy.__set__`: assigning a declared field fills its slot and nothing else; it never populates. */
    method Set(f: Field, v: Value)
      requires f in Fields(kind)
      modifies this
      ensures slots == old(slots)[f := v]
      ensures populated == old(populated)
    {
      slots := slots[f := v];
    }

    /** The run of `self.f = row[...]` assignments in `populate`: each given field's slot is overwritten, the others stay. */
    method Fill(values: map<Field, Value>)
      requires forall f :: f in values ==> f in Fields(kind)
      modifies this
      ensures slots == old(slots) + values
      ensures populated == old(populated)
    {
      slots := slots + values;
    }
  }

  /** A class-level `_cache`: every entry is an object of that class, stored under its own id. */
  ghost predicate Registry(cache: map<int, Entity>, k: Kind)
  {
    forall id :: id in cache ==> cache[id].kind == k && cache[id].id == id
  }

  /** `c` keeps every entry of `c0` and adds entries only for ids in `extra`. */
  ghost predicate Extends(c0: map<int, Entity>, c: map<int, Entity>, extra: set<int>)
  {
    (forall id :: id in c0 ==> id in c && c[id] == c0[id]) && c.Keys <= c0.Keys + extra
  }

  /** Every entry of cache `c` that `c0` lacks is what `__new__` makes: an unpopulated object with no field set. */
  ghost predicate AddedBlank(c0: map<int, Entity>, c: map<int, Entity>)
    reads c.Values
  {
    forall id :: id in c && id !in c0 ==> !c[id].populated && c[id].slots == map[]
  }

  /** Python truthiness of a `place_id` column value: NULL and 0 are false. */
  predicate TruthyId(placeId: Option<int>)
  {
    placeId.Some? && placeId.value != 0
  }

  /** The first of `save`'s arguments title, author, imported_at whose slot is unset, if any. */
  function FirstUnset(slots: map<Field, Value>): (f: Option<Field>)
    ensures f.None? <==> Title in slots && Author in slots && ImportedAt in slots
    ensures f.Some? ==> f.value !in slots && f.value in [Title, Author, ImportedAt]
  {
    if Title !in slots then Some(Title)
    else if Author !in slots then Some(Author)
    else if ImportedAt !in slots then Some(ImportedAt)
    else None
  }

  /**
   * The values `save` passes for title, author and imported_at. Python evaluates
   * them left to right; the first unset one populates the object, so a value read
   * before that point is the assigned one (`pre`) and a value read at or after it
   * is what populate left (`post`).
   */
  ghost function SaveArgs(pre: map<Field, Value>, post: map<Field, Value>): (r: seq<Value>)
    requires Title in post && Author in post && ImportedAt in post
    ensures |r| == 3
    ensures Title in pre ==> r[0] == pre[Title]
    ensures Title !in pre ==> r == [post[Title], post[Author], post[ImportedAt]]
    ensures FirstUnset(pre).Some? ==> r[2] == post[ImportedAt]
  {
    [ if Title in pre then pre[Title] else post[Title],
      if Title in pre && Author in pre then pre[Author] else post[Author],
      if FirstUnset(pre).None? then pre[ImportedAt] else post[ImportedAt] ]
  }

  /**
   * When `save` populates a book part-way through its arguments (title and
   * author assigned, imported_at unset), the row receives the assigned title
   * and author while populate leaves the stored ones in memory.
   */
  lemma LatePopulateOverwrites(pre: map<Field, Value>, row: BookRow, place: Value)
    requires Title in pre && Author in pre && ImportedAt !in pre
    ensures var post := pre + BookSlots(row, place);
      SaveArgs(pre, post) == [pre[Title], pre[Author], Plain(row.importedAt)] &&
      post[Title] == Plain(row.title) && post[Author] == Plain(row.author)
    ensures (forall f :: f in pre ==> f in Fields(BookKind)) ==> pre + BookSlots(row, place) == BookSlots(row, place)
  {
    var slots := BookSlots(row, place);
    if forall f :: f in pre ==> f in Fields(BookKind) {
      assert (pre + slots).Keys == slots.Keys;
    }
  }

  /** On a book whose three saved fields are all set, `save` writes exactly the values in memory. */
  lemma SaveArgsInMemory(pre: map<Field, Value>)
    requires FirstUnset(pre).None?
    ensures SaveArgs(pre, pre) == [pre[Title], pre[Author], pre[ImportedAt]]
  {
  }

  /** sqlite3 binds a column value; a model object is not a supported parameter type. */
  function Bind(v: Value): (c: Option<Cell>)
    ensures c.Some? <==> v.Plain?
    ensures c.Some? ==> c.value == v.cell
  {
    match v
    case Plain(c) => Some(c)
    case Ref(_) => None
  }

  /** The process-wide state the entity layer works on: the database and the `_cache` of each class. */
  class Catalog {
    var db: Database
    var places: map<int, Entity>
    var books: map<int, Entity>
    var borrows: map<int, Entity>

    ghost predicate Valid()
      reads this
    {
      db.Valid() && Registry(places, PlaceKind) && Registry(books, BookKind) && Registry(borrows, BorrowKind)
    }

    /** `__init_subclass__` gives every class an empty `_cache`. */
    constructor (db: Database)
      requires db.Valid()
      ensures Valid() && this.db == db
      ensures places == map[] && books == map[] && borrows == map[]
    {
      this.db := db;
      places, books, borrows := map[], map[], map[];
    }

    /** The `_cache` of class `k`. */
    function Cache(k: Kind): map<int, Entity>
      reads this
    {
      match k
      case PlaceKind => places
      case BookKind => books
      case BorrowKind => borrows
    }

    /** Whether the table of class `k` has a row with this id (`fetchone()` is not None). */
    function HasRow(k: Kind, id: int): (r: bool)
      reads this`db
      ensures r && db.Valid() ==> 1 <= id
    {
      match k
      case PlaceKind => id in db.places.rows
      case BookKind => id in db.books.rows
      case BorrowKind => id in db.borrows.rows
    }

    /** The ids of the table of class `k`, ascending: the default `ORDER BY id ASC`. */
    function TableIds(k: Kind): (ids: seq<int>)
      reads this`db
      requires db.Valid()
      ensures Increasing(ids)
      ensures forall id :: id in ids <==> HasRow(k, id)
    {
      match k
      case PlaceKind => AllIds(db.places)
      case BookKind => AllIds(db.books)
      case BorrowKind => AllIds(db.borrows)
    }

    /** Only the cache of class `k` may have changed. */
    twostate predicate OtherCachesUnchanged(k: Kind)
      reads this
    {
      (k != PlaceKind ==> places == old(places)) &&
      (k != BookKind ==> books == old(books)) &&
      (k != BorrowKind ==> borrows == old(borrows))
    }

    /** No cache changed. */
    twostate predicate CachesUnchanged()
      reads this
    {
      places == old(places) && books == old(books) && borrows == old(borrows)
    }

    /** Every cache entry that was added is a new object. */
    twostate predicate NewEntriesFresh()
      reads this
    {
      (forall id :: id in places && id !in old(places) ==> fresh(places[id])) &&
      (forall id :: id in books && id !in old(books) ==> fresh(books[id])) &&
      (forall id :: id in borrows && id !in old(borrows) ==> fresh(borrows[id]))
    }

    /**
     * `e` is what `cls(id)` returned for class `k`: the object cached before if
     * there was one, otherwise a new unpopulated object now registered.
     */
    twostate predicate Handle(k: Kind, id: int, new e: Entity)
      reads this, e
    {
      e.kind == k && e.id == id &&
      Cache(k) == old(Cache(k))[id := e] &&
      (id in old(Cache(k)) ==> e == old(Cache(k))[id]) &&
      (id !in old(Cache(k)) ==> fresh(e) && !e.populated && e.slots == map[])
    }

    /** What a populated object's references point to exists in the caches. */
    ghost predicate Linked(k: Kind, id: int)
      reads this
      requires HasRow(k, id)
    {
      match k
      case PlaceKind => true
      case BookKind =>
        var pid := db.books.rows[id].placeId;
        TruthyId(pid) ==> pid.value in places
      case BorrowKind => db.borrows.rows[id].bookId in books
    }

    /**
     * The slots `populate` assigns from row `id`: every declared field, set from
     * its column; `place` is the cached Place for a truthy `place_id` and `None`
     * otherwise, `book` the cached Book for `book_id`.
     */
    function Stored(k: Kind, id: int): (s: map<Field, Value>)
      reads this
      requires HasRow(k, id) && Linked(k, id)
      ensures forall f :: f in s <==> f in Fields(k)
    {
      match k
      case PlaceKind => map[Name := Plain(Text(db.places.rows[id].name))]
      case BookKind =>
        var row := db.books.rows[id];
        BookSlots(row, PlaceRef(row.placeId))
      case BorrowKind =>
        var row := db.borrows.rows[id];
        map[BorrowedAt := Plain(row.borrowedAt), ReturnedAt := Plain(row.returnedAt),
            BookOf := Ref(books[row.bookId]), Lender := Plain(Text(row.lender))]
    }

    /** The value `populate` gives `place`: the cached Place for a truthy `place_id`, `None` otherwise. */
    function PlaceRef(pid: Option<int>): (v: Value)
      reads this
      requires TruthyId(pid) ==> pid.value in places
      ensures v.Ref? <==> TruthyId(pid)
      ensures v.Ref? ==> v.entity == places[pid.value]
      ensures v.Plain? ==> v.cell == Null
    {
      if TruthyId(pid) then Ref(places[pid.value]) else Plain(Null)
    }

    /** The ids whose cache `populate` of `e` may extend: the referenced Place for a Book, the referenced Book for a Borrow. */
    ghost function Referenced(e: Entity, k: Kind): set<int>
      reads this
    {
      if e.kind == BookKind && k == PlaceKind && e.id in db.books.rows && TruthyId(db.books.rows[e.id].placeId) then
        {db.books.rows[e.id].placeId.value}
      else if e.kind == BorrowKind && k == BookKind && e.id in db.borrows.rows then
        {db.borrows.rows[e.id].bookId}
      else {}
    }

    /**
     * What `populate` of `e` did, relative to the slots and caches it started
     * with: with no row it raised NotFound and changed nothing; otherwise it
     * overwrote every declared field with the stored values and registered at
     * most the one object the row refers to, as a new unpopulated object when
     * it was not cached.
     */
    ghost predicate Populated(e: Entity, r: Outcome<Error>, slots0: map<Field, Value>,
                              places0: map<int, Entity>, books0: map<int, Entity>, borrows0: map<int, Entity>)
      reads this, e, places.Values, books.Values
    {
      if !HasRow(e.kind, e.id) then
        r == Fail(NotFound(e.kind)) && e.slots == slots0 &&
        places == places0 && books == books0 && borrows == borrows0
      else
        r == Pass && Linked(e.kind, e.id) && e.slots == slots0 + Stored(e.kind, e.id) &&
        Extends(places0, places, Referenced(e, PlaceKind)) &&
        Extends(books0, books, Referenced(e, BookKind)) &&
        AddedBlank(places0, places) && AddedBlank(books0, books) &&
        (e.kind != BookKind ==> places == places0) &&
        (e.kind != BorrowKind ==> books == books0) &&
        borrows == borrows0
    }

    /** `Model.__new__` and `__init__`: `cls(id)` returns the cached object for `id` or registers a new, unpopulated one; storage is not read. */
    method Instance(k: Kind, id: int) returns (e: Entity)
      requires Valid()
      modifies this
      ensures Valid() && db == old(db)
      ensures Handle(k, id, e) && OtherCachesUnchanged(k)
    {
      CacheRegistry(k);
      var c;
      c, e := Lookup(Cache(k), k, id);
      SetCache(k, c);
    }

    /** The cache lookup of `Model.__new__` on a cache `c` of class `k`: the cached object, or a new unpopulated one entered under `id`. */
    static method Lookup(c: map<int, Entity>, k: Kind, id: int) returns (c': map<int, Entity>, e: Entity)
      requires Registry(c, k)
      ensures e.kind == k && e.id == id && c' == c[id := e]
      ensures id in c ==> e == c[id]
      ensures id !in c ==> fresh(e) && !e.populated && e.slots == map[]
    {
      if id in c {
        e := c[id];
      } else {
        e := new Entity(k, id);
      }
      c' := c[id := e];
    }

    /**
     * Object identity across calls: `Place(id)` twice gives the same object,
     * and `Book(id)` a different one, since every class has its own `_cache`.
     */
    method Identity(id: int) returns (p1: Entity, p2: Entity, b: Entity)
      requires Valid()
      modifies this
      ensures Valid() && db == old(db)
      ensures p1 == p2 && p1.kind == PlaceKind && p1.id == id
      ensures b.kind == BookKind && b.id == id && b != p1
    {
      p1 := Instance(PlaceKind, id);
      p2 := Instance(PlaceKind, id);
      b := Instance(BookKind, id);
    }

    /** Replaces the `_cache` of class `k`. */
    method SetCache(k: Kind, c: map<int, Entity>)
      requires db.Valid() && Registry(c, k)
      requires k != PlaceKind ==> Registry(places, PlaceKind)
      requires k != BookKind ==> Registry(books, BookKind)
      requires k != BorrowKind ==> Registry(borrows, BorrowKind)
      modifies this
      ensures Valid() && db == old(db) && Cache(k) == c && OtherCachesUnchanged(k)
    {
      match k
      case PlaceKind => places := c;
      case BookKind => books := c;
      case BorrowKind => borrows := c;
    }

    /** `populate`, dispatched on the object's class: load row `e.id` into every declared field, or raise NotFound. */
    method Populate(e: Entity) returns (r: Outcome<Error>)
      requires Valid()
      modifies this, e
      ensures Valid() && db == old(db) && e.populated == old(e.populated)
      ensures Populated(e, r, old(e.slots), old(places), old(books), old(borrows))
      ensures NewEntriesFresh()
    {
      match e.kind {
        case PlaceKind => r := PopulatePlace(e);
        case BookKind => r := PopulateBook(e);
        case BorrowKind => r := PopulateBorrow(e);
      }
    }

    /** `Place.populate`. */
    method PopulatePlace(e: Entity) returns (r: Outcome<Error>)
      requires Valid() && e.kind == PlaceKind
      modifies e
      ensures e.populated == old(e.populated)
      ensures Populated(e, r, old(e.slots), places, books, borrows)
    {
      if e.id !in db.places.rows {
        return Fail(NotFound(PlaceKind));
      }
      e.Fill(Stored(PlaceKind, e.id));
      r := Pass;
    }

    /** `Book.populate`: `place` becomes the cached `Place(place_id)` when `place_id` is truthy, else `None`. */
    method PopulateBook(e: Entity) returns (r: Outcome<Error>)
      requires Valid() && e.kind == BookKind
      modifies this, e
      ensures Valid() && db == old(db) && e.populated == old(e.populated)
      ensures Populated(e, r, old(e.slots), old(places), old(books), old(borrows))
      ensures NewEntriesFresh()
    {
      if e.id !in db.books.rows {
        return Fail(NotFound(BookKind));
      }
      var placeId := db.books.rows[e.id].placeId;
      if TruthyId(placeId) {
        var _ := Instance(PlaceKind, placeId.value);
      }
      e.Fill(Stored(BookKind, e.id));
      r := Pass;
    }

    /** `Borrow.populate`: `book` becomes the cached `Book(book_id)`. */
    method PopulateBorrow(e: Entity) returns (r: Outcome<Error>)
      requires Valid() && e.kind == BorrowKind
      modifies this, e
      ensures Valid() && db == old(db) && e.populated == old(e.populated)
      ensures Populated(e, r, old(e.slots), old(places), old(books), old(borrows))
      ensures NewEntriesFresh()
    {
      if e.id !in db.borrows.rows {
        return Fail(NotFound(BorrowKind));
      }
      var _ := Instance(BookKind, db.borrows.rows[e.id].bookId);
      e.Fill(Stored(BorrowKind, e.id));
      r := Pass;
    }

    /** `Model.__pos__`: populate at most once. The flag is set before `populate` runs, so a populate that raised is never retried. */
    method EnsurePopulated(e: Entity) returns (r: Outcome<Error>)
      requires Valid()
      modifies this, e
      ensures Valid() && db == old(db) && e.populated
      ensures old(e.populated) ==> r == Pass && unchanged(this, e)
      ensures !old(e.populated) ==> Populated(e, r, old(e.slots), old(places), old(books), old(borrows))
      ensures NewEntriesFresh()
    {
      r := Pass;
      if !e.populated {
        e.populated := true;
        r := Populate(e);
      }
    }

    /**
     * `lazy.__get__`: reading a declared field whose slot is unset runs `+instance`
     * first; the slot is then read, which raises AttributeError if it is still
     * unset because populate had already run (and failed) before.
     */
    method Get(e: Entity, f: Field) returns (r: Result<Value, Error>)
      requires Valid() && f in Fields(e.kind)
      modifies this, e
      ensures Valid() && db == old(db)
      ensures f in old(e.slots) ==> r == Ok(old(e.slots)[f]) && unchanged(this, e)
      ensures f !in old(e.slots) && old(e.populated) ==> r == Err(Unset(f)) && unchanged(this, e)
      ensures f !in old(e.slots) && !old(e.populated) ==>
        e.populated && Populated(e, r.ToOutcome(), old(e.slots), old(places), old(books), old(borrows)) &&
        (r.Ok? ==> r.value == e.slots[f])
      ensures NewEntriesFresh()
    {
      if f !in e.slots {
        var p := EnsurePopulated(e);
        if p.Fail? {
          return Err(p.error);
        }
      }
      if f in e.slots {
        r := Ok(e.slots[f]);
      } else {
        r := Err(Unset(f));
      }
    }

    /** The loop `for row in ...fetchall(): yield cls(row["id"])`: one handle per id, in order, each the cached object for its id. */
    method Handles(k: Kind, ids: seq<int>) returns (es: seq<Entity>)
      requires Valid()
      modifies this
      ensures Valid() && db == old(db) && OtherCachesUnchanged(k)
      ensures |es| == |ids|
      ensures forall j :: 0 <= j < |ids| ==> es[j].kind == k && es[j].id == ids[j] && ids[j] in Cache(k) && es[j] == Cache(k)[ids[j]]
      ensures Extends(old(Cache(k)), Cache(k), set id | id in ids)
      ensures forall id :: id in Cache(k) && id !in old(Cache(k)) ==>
        fresh(Cache(k)[id]) && !Cache(k)[id].populated && Cache(k)[id].slots == map[]
    {
      CacheRegistry(k);
      var c := Cache(k);
      ghost var c0 := c;
      es := [];
      var i := 0;
      while i < |ids|
        invariant 0 <= i <= |ids| && |es| == i
        invariant unchanged(this) && Registry(c, k)
        invariant forall j :: 0 <= j < i ==> es[j].kind == k && es[j].id == ids[j] && ids[j] in c && es[j] == c[ids[j]]
        invariant forall id :: id in c0 ==> id in c && c[id] == c0[id]
        invariant forall id :: id in c ==> id in c0 || id in ids[..i]
        invariant forall id :: id in c && id !in c0 ==> fresh(c[id]) && !c[id].populated && c[id].slots == map[]
      {
        var e;
        c, e := Lookup(c, k, ids[i]);
        assert ids[..i + 1] == ids[..i] + [ids[i]];
        es := es + [e];
        i := i + 1;
      }
      assert ids[..i] == ids;
      forall id | id in c
        ensures id in c0.Keys + set id | id in ids
      {
      }
      SetCache(k, c);
    }

    /** Every cache maps an id to a handle of its own kind and id. */
    lemma CacheRegistry(k: Kind)
      requires Valid()
      ensures Registry(Cache(k), k)
    {
      match k
      case PlaceKind =>
      case BookKind =>
      case BorrowKind =>
    }

    /**
     * `Model.all` (and `Book.all` for books, which overrides it with no place
     * filter): handles for the ids in ascending order, skipping
     * `page_no * page_size` of them and keeping at most `page_size`.
     */
    method All(k: Kind, pageNo: int, pageSize: int) returns (es: seq<Entity>)
      requires Valid()
      modifies this
      ensures Valid() && db == old(db) && OtherCachesUnchanged(k)
      ensures var ids := Window(old(TableIds(k)), pageNo, pageSize);
        |es| == |ids| && forall j :: 0 <= j < |ids| ==> es[j].kind == k && es[j].id == ids[j] && ids[j] in Cache(k) && es[j] == Cache(k)[ids[j]]
      ensures Extends(old(Cache(k)), Cache(k), set id | id in Window(old(TableIds(k)), pageNo, pageSize))
      ensures forall id :: id in Cache(k) && id !in old(Cache(k)) ==>
        fresh(Cache(k)[id]) && !Cache(k)[id].populated && Cache(k)[id].slots == map[]
    {
      var ids := Window(TableIds(k), pageNo, pageSize);
      es := Handles(k, ids);
    }

    /** `Book.all`: as `Model.all`, restricted to the books whose `place_id` is `placeId` when one is given. */
    method AllBooks(placeId: Option<int>, pageNo: int, pageSize: int) returns (es: seq<Entity>)
      requires Valid()
      modifies this
      ensures Valid() && db == old(db) && OtherCachesUnchanged(BookKind)
      ensures var ids := Window(ShelfIds(old(db.books), placeId), pageNo, pageSize);
        |es| == |ids| && forall j :: 0 <= j < |ids| ==> es[j].kind == BookKind && es[j].id == ids[j] && ids[j] in books && es[j] == books[ids[j]]
      ensures Extends(old(books), books, set id | id in Window(ShelfIds(old(db.books), placeId), pageNo, pageSize))
      ensures forall id :: id in books && id !in old(books) ==>
        fresh(books[id]) && !books[id].populated && books[id].slots == map[]
    {
      var ids := Window(ShelfIds(db.books, placeId), pageNo, pageSize);
      es := Handles(BookKind, ids);
    }

    /** `Place.new`: insert one row and return `Place(lastrowid)`, which is whatever object the cache already holds for that id, if any. */
    method NewPlace(name: string) returns (p: Entity)
      requires Valid()
      modifies this
      ensures Valid()
      ensures var (t, id) := Insert(old(db.places), PlaceRow(name));
        db == old(db).(places := t) && p.id == id
      ensures Handle(PlaceKind, p.id, p) && OtherCachesUnchanged(PlaceKind)
    {
      var (t, id) := Insert(db.places, PlaceRow(name));
      db := db.(places := t);
      p := Instance(PlaceKind, id);
    }

    /** `Place.rename`: the stored row and the in-memory `name` both take the new name; nothing is populated. */
    method RenamePlace(p: Entity, name: string)
      requires Valid() && p.kind == PlaceKind
      modifies this, p
      ensures Valid() && CachesUnchanged()
      ensures db == old(db).(places := RenamePlaceRow(old(db.places), p.id, name))
      ensures p.slots == old(p.slots)[Name := Plain(Text(name))] && p.populated == old(p.populated)
    {
      db := db.(places := RenamePlaceRow(db.places, p.id, name));
      p.Set(Name, Plain(Text(name)));
    }

    /** `Book.new_from_isbn`: insert a row holding only `isbn` and `place_id` (title stays NULL) and return `Book(lastrowid)`. */
    method NewBookFromIsbn(isbn: string, placeId: Option<int>, now: Timestamp) returns (b: Entity)
      requires Valid()
      modifies this
      ensures Valid()
      ensures var (t, id) := Insert(old(db.books), IsbnBookRow(isbn, placeId, now));
        db == old(db).(books := t) && b.id == id
      ensures db.books.rows[b.id].title == Null && db.books.rows[b.id].isbn == Text(isbn)
      ensures Handle(BookKind, b.id, b) && OtherCachesUnchanged(BookKind)
    {
      var (t, id) := Insert(db.books, IsbnBookRow(isbn, placeId, now));
      db := db.(books := t);
      b := Instance(BookKind, id);
    }

    /** `Book.rename`: the stored title and the in-memory `title` both change; nothing is populated. */
    method RenameBook(b: Entity, title: string)
      requires Valid() && b.kind == BookKind
      modifies this, b
      ensures Valid() && CachesUnchanged()
      ensures db == old(db).(books := RetitleBookRow(old(db.books), b.id, title))
      ensures b.slots == old(b.slots)[Title := Plain(Text(title))] && b.populated == old(b.populated)
    {
      db := db.(books := RetitleBookRow(db.books, b.id, title));
      b.Set(Title, Plain(Text(title)));
    }

    /**
     * The argument tuple of `Book.save`: `self.title`, `self.author` and
     * `self.imported_at`, read left to right through the lazy descriptor.
     */
    method SaveArguments(b: Entity) returns (r: Result<seq<Value>, Error>)
      requires Valid() && b.kind == BookKind
      modifies this, b
      ensures Valid() && db == old(db) && books == old(books) && borrows == old(borrows)
      ensures FirstUnset(old(b.slots)).None? ==>
        r == Ok(SaveArgs(old(b.slots), old(b.slots))) && unchanged(this, b)
      ensures FirstUnset(old(b.slots)).Some? && old(b.populated) ==>
        r == Err(Unset(FirstUnset(old(b.slots)).value)) && unchanged(this, b)
      ensures FirstUnset(old(b.slots)).Some? && !old(b.populated) && !HasRow(BookKind, b.id) ==>
        r == Err(NotFound(BookKind)) && b.populated && b.slots == old(b.slots) && places == old(places)
      ensures FirstUnset(old(b.slots)).Some? && !old(b.populated) && HasRow(BookKind, b.id) ==>
        var row := db.books.rows[b.id];
        b.populated && (TruthyId(row.placeId) ==> row.placeId.value in places) &&
        b.slots == old(b.slots) + BookSlots(row, PlaceRef(row.placeId)) &&
        Extends(old(places), places, Referenced(b, PlaceKind)) &&
        r == Ok(SaveArgs(old(b.slots), b.slots))
      ensures NewEntriesFresh() && AddedBlank(old(places), places)
    {
      ghost var pre := b.slots;
      var title := Get(b, Title);
      if title.Err? {
        return Err(title.error);
      }
      var author := Get(b, Author);
      if author.Err? {
        return Err(author.error);
      }
      var importedAt := Get(b, ImportedAt);
      if importedAt.Err? {
        return Err(importedAt.error);
      }
      r := Ok([title.value, author.value, importedAt.value]);
    }

    /** `save`'s UPDATE with the argument values `args`, or the binding error if one of them is a model object. */
    ghost predicate Saved(r: Outcome<Error>, db0: Database, id: int, args: seq<Value>)
      reads this
      requires |args| == 3
    {
      if args[0].Plain? && args[1].Plain? && args[2].Plain? then
        r == Pass && db == db0.(books := SaveBookRow(db0.books, id, args[0].cell, args[1].cell, args[2].cell))
      else
        r == Fail(Unbindable) && db == db0
    }

    /** `Book.save`: write the title, author and imported_at that `SaveArguments` read, and no other column. */
    method SaveBook(b: Entity) returns (r: Outcome<Error>)
      requires Valid() && b.kind == BookKind
      modifies this, b
      ensures Valid() && books == old(books) && borrows == old(borrows)
      ensures FirstUnset(old(b.slots)).None? ==>
        unchanged(b) && places == old(places) && Saved(r, old(db), b.id, SaveArgs(old(b.slots), old(b.slots)))
      ensures FirstUnset(old(b.slots)).Some? && old(b.populated) ==>
        r == Fail(Unset(FirstUnset(old(b.slots)).value)) && unchanged(this, b)
      ensures FirstUnset(old(b.slots)).Some? && !old(b.populated) && !old(HasRow(BookKind, b.id)) ==>
        r == Fail(NotFound(BookKind)) && b.populated && b.slots == old(b.slots) && db == old(db) && places == old(places)
      ensures FirstUnset(old(b.slots)).Some? && !old(b.populated) && old(HasRow(BookKind, b.id)) ==>
        var row := old(db.books.rows[b.id]);
        b.populated && (TruthyId(row.placeId) ==> row.placeId.value in places) &&
        b.slots == old(b.slots) + BookSlots(row, PlaceRef(row.placeId)) &&
        Extends(old(places), places, old(Referenced(b, PlaceKind))) &&
        Saved(r, old(db), b.id, SaveArgs(old(b.slots), b.slots))
      ensures NewEntriesFresh() && AddedBlank(old(places), places)
    {
      var args := SaveArguments(b);
      if args.Err? {
        return Fail(args.error);
      }
      var vs := args.value;
      match (Bind(vs[0]), Bind(vs[1]), Bind(vs[2])) {
        case (Some(t), Some(a), Some(i)) =>
          db := db.(books := SaveBookRow(db.books, b.id, t, a, i));
          r := Pass;
        case _ =>
          r := Fail(Unbindable);
      }
    }

    /** `get_active_borrow`: no open loan gives `None`, exactly one gives `Borrow(id)`, more raise the unpacking error. */
    method ActiveBorrow(b: Entity) returns (r: Result<Entity?, Error>)
      requires Valid() && b.kind == BookKind
      modifies this
      ensures Valid() && db == old(db) && OtherCachesUnchanged(BorrowKind)
      ensures ActiveLoan(db.borrows, b.id) == Ok(None) ==> r == Ok(null) && borrows == old(borrows)
      ensures ActiveLoan(db.borrows, b.id).Err? ==> r == Err(TooManyOpenLoans(ActiveLoan(db.borrows, b.id).error)) && borrows == old(borrows)
      ensures ActiveLoan(db.borrows, b.id).Ok? && ActiveLoan(db.borrows, b.id).value.Some? ==>
        r.Ok? && r.value != null && Handle(BorrowKind, ActiveLoan(db.borrows, b.id).value.value, r.value)
    {
      match ActiveLoan(db.borrows, b.id) {
        case Ok(None) => r := Ok(null);
        case Ok(Some(id)) =>
          var w := Instance(BorrowKind, id);
          r := Ok(w);
        case Err(n) => r := Err(TooManyOpenLoans(n));
      }
    }

    /** `lend_to`: insert a new open loan for this book, whatever loans it already has; no object changes. */
    method LendTo(b: Entity, lender: string, now: Timestamp)
      requires Valid() && b.kind == BookKind
      modifies this
      ensures Valid() && CachesUnchanged()
      ensures db == old(db).(borrows := Lend(old(db.borrows), b.id, lender, now).0)
    {
      var (t, _) := Lend(db.borrows, b.id, lender, now);
      db := db.(borrows := t);
    }

    /** `Borrow.return_now`: stamp `returned_at` of this loan's row, in storage only; the object keeps its slots. */
    method ReturnNow(w: Entity, now: Timestamp)
      requires Valid() && w.kind == BorrowKind
      modifies this
      ensures Valid() && CachesUnchanged()
      ensures db == old(db).(borrows := ReturnLoan(old(db.borrows), w.id, now))
    {
      db := db.(borrows := ReturnLoan(db.borrows, w.id, now));
    }
  }
}
