# ook2 core in Dafny

This project models the core of ook2, a small personal library catalogue: places (shelves), books on them, and borrows (loans of a book to someone). The application stores these in SQLite. In the model:

- SQLite is a set of abstract tables: a map from id to row plus a next-id counter. `LIMIT`/`OFFSET` follow SQLite's rules: a negative offset counts as zero, a negative limit means no limit.
- Timestamps are opaque integers, passed in as parameters where the source reads the clock.

Files:

- `wrappers.dfy`: `Option`, `Result` and `Outcome` (normal completion or the exception raised).
- `storage.dfy`: tables and rows, id allocation, ascending-id selections, the windowing done by `LIMIT ... OFFSET ...`, and each `UPDATE`/`INSERT` the entity layer issues. It also holds the loan queries and what "zero, one or more open loans" means.
- `entities.dfy`: the identity-mapped, lazily populated entity layer of `objects.py`.
  - One class `Entity` stands for `Place`, `Book` and `Borrow`, told apart by its `kind`.
  - Its `slots` map holds the per-instance `_field` attributes; a field missing from the map is unset.
  - Its `populated` flag is `_populated`.
  - Class `Catalog` holds the database and the three per-class `_cache` dictionaries. The class methods and the storage-touching instance methods are `Catalog` methods.
- `migrations.dfy`: the start-up of `db.py`, namely the version read, the `@migration(n)` gate and the `initial` migration. It is a fold over the declared migrations plus an imperative loop proved equal to it.
- `api.dfy`: `D`, `pagination`, `build_table` (a loop proved against its specification function) and the page arithmetic of `list_books`, `view_place` and `search_books`. It also has `put_book_data`.

## Model

| member | source | states |
|---|---|---|
| Entities.Catalog.constructor | objects.py:44-47 | every class starts with an empty `_cache`; the database is the given one |
| Entities.Catalog.Lookup | objects.py:24-33 | on one class's cache: the cached object for `id`, or a fresh unpopulated object with no field set; the cache afterwards maps `id` to the result and is otherwise the same |
| Entities.Catalog.Instance | objects.py:24-33 | `cls(id)` returns the object already cached for `id` of that class, or registers a fresh, unpopulated object with no field set; the other classes' caches and storage are untouched |
| Entities.Catalog.TableIds | objects.py:56-57 | the ids of a class's table, ascending, exactly those with a row |
| Entities.Catalog.HasRow | objects.py:145-151 | `fetchone()` finds a row only under an id allocated by the table, so only ids from 1 on |
| Entities.Catalog.PlaceRef | objects.py:158-161 | `place` is the cached Place object exactly when `place_id` is truthy, and `None` otherwise |
| Entities.Catalog.Identity | objects.py:24-30 | `Place(id)` twice yields the same object; `Book(id)` is a different object, since each class has its own cache |
| Entities.Entity.constructor | objects.py:27-29 | a new object has its class and id, is not populated and has no field set |
| Entities.Entity.Set | objects.py:19-20 | assigning a declared field fills exactly that slot and does not touch the populated flag (no population) |
| Entities.Entity.Fill | objects.py:152-161 | the fields populate assigns are overwritten, every other slot and the populated flag stay |
| Entities.Catalog.EnsurePopulated | objects.py:35-39 | `+obj` populates only if the flag is clear; the flag is set first, so after a failed populate it stays set and nothing is retried; an already populated object is left untouched |
| Entities.Catalog.Get | objects.py:12-17 | reading a set field returns it without populating; reading an unset field of a populated object raises AttributeError without populating again; otherwise populate runs once and the field is read from what it stored, or NotFound is raised; an object populate registers is unpopulated with no field set |
| Entities.Catalog.Populate | objects.py:69-82 | with no row, NotFound and nothing changes; otherwise every declared field is overwritten from the row, and at most the one referenced object is registered, as a new unpopulated object with no field set when it was not cached |
| Entities.Catalog.PopulatePlace | objects.py:69-82 | `name` from the row, or "No Place with this ID found" |
| Entities.Catalog.PopulateBook | objects.py:140-161 | all seven fields from the row; `place` is the cached `Place(place_id)` when `place_id` is truthy, otherwise `None`; a Place it registers is unpopulated with no field set |
| Entities.Catalog.PopulateBorrow | objects.py:335-351 | all four fields from the row; `book` is the cached `Book(book_id)`; a Book it registers is unpopulated with no field set |
| Entities.Catalog.Stored | objects.py:152-161 | the populated slots have exactly the class's declared fields as keys |
| Entities.BookSlots | objects.py:152-161 | title, author and imported_at come from their columns, and `place` is the given reference |
| Entities.Catalog.Handles | objects.py:61-62 | one handle per fetched id, in order, each the cached object for its id; only those ids are added to the cache, as fresh unpopulated objects |
| Entities.Catalog.All | objects.py:49-62 | `Model.all`: the handles of the ids of the class's table in ascending order, skipping `page_no * page_size`, at most `page_size` |
| Entities.Catalog.AllBooks | objects.py:196-217 | `Book.all`: as `Model.all` over the books, restricted to `place_id` when one is given |
| Entities.Catalog.NewPlace | objects.py:84-89 | one row is inserted under a fresh id, and the handle for that id is returned |
| Entities.Catalog.RenamePlace | objects.py:91-102 | the stored name and the in-memory `name` both change, nothing else; no population |
| Entities.Catalog.NewBookFromIsbn | objects.py:163-171 | one row holding only isbn and place_id (title NULL) is inserted, and the handle for its id is returned |
| Storage.IsbnBookRow | objects.py:166-168 | the inserted row holds the isbn, the place id and the creation time; title, author, imported_at and data_source are NULL |
| Entities.Catalog.RenameBook | objects.py:275-286 | the stored title and the in-memory `title` both change, nothing else |
| Entities.Catalog.SaveArguments | objects.py:296 | the three arguments are read left to right through the lazy descriptor: values read before the first unset field are the assigned ones, values read from it on are what populate stored |
| Entities.SaveArgs | objects.py:296 | three arguments; a set title is passed as assigned; with title unset, all three are read after populate; whenever a field is unset, imported_at is passed as populate left it |
| Entities.Bind | objects.py:296 | only a plain column value binds as an SQL parameter, as that value; a model object does not bind |
| Entities.Catalog.SaveBook | objects.py:288-298 | writes exactly title, author and imported_at of the row, with the values `SaveArguments` read; binding a model object fails; an unset field of a populated book raises |
| Entities.LatePopulateOverwrites | objects.py:288-298 | when `save` has to populate at imported_at, the row gets the assigned title and author, but the object holds the stored ones |
| Entities.SaveArgsInMemory | objects.py:288-298 | when all three fields are set, `save` writes exactly what is in memory |
| Entities.FirstUnset | objects.py:296 | reports no field exactly when title, author and imported_at are all set; otherwise an unset one of them |
| Entities.Catalog.ActiveBorrow | objects.py:300-314 | no open borrow gives `None`, exactly one gives that Borrow's handle, two or more raise the unpacking error |
| Entities.Catalog.LendTo | objects.py:316-328 | a new open borrow row is inserted with no guard; no object changes |
| Entities.Catalog.ReturnNow | objects.py:353-363 | only that borrow row's `returned_at` is stamped, in storage only |
| Storage.Insert | objects.py:84-89 | the row is stored under an id not used before (the `lastrowid`), and no other row changes |
| Storage.Update | objects.py:91-102 | an `UPDATE ... WHERE id = ?` rewrites that row only, and only if it exists |
| Storage.SelectFrom | objects.py:50-62 | the selected ids are ascending and are exactly the matching rows' ids |
| Storage.Select | objects.py:205-216 | a `SELECT id ... WHERE` yields, ascending, exactly the ids of the rows meeting the condition |
| Storage.AllIds | objects.py:52-59 | `SELECT id FROM` a table with `ORDER BY id ASC` yields every id, ascending |
| Storage.ShelfIds | objects.py:197-217 | ascending ids of the books with the given `place_id`, or of all books when none is given |
| Storage.Slice | objects.py:58-59 | the result is the run of rows starting at the clamped offset, at most `limit` long |
| Storage.Start | objects.py:59 | the offset is clamped into the result: a negative offset starts at the first row, one past the end yields no row |
| Storage.Window | objects.py:58-59 | with non-negative arguments, at most `page_size` rows, starting at row `page_no * page_size` |
| Storage.PageOf | objects.py:58-59 | with a positive page size, index `i` lies on page `p` iff `p == i / page_size`, at position `i % page_size` |
| Storage.SliceAt | objects.py:58-59 | a row lies in the window at a non-negative offset iff it lies within `limit` rows of the offset, and there it is the row at that position |
| Storage.WindowPartition | objects.py:49-62 | with a positive page size, row `i` is on page `i / page_size` and on no other page |
| Storage.RenamePlaceRow | objects.py:91-102 | only the place's name changes |
| Storage.RetitleBookRow | objects.py:275-286 | only the book's title changes |
| Storage.SaveBookRow | objects.py:288-298 | title, author and imported_at take the given values; isbn, created_at, data_source, place_id and every other row stay |
| Storage.ActiveLoan | objects.py:300-314 | `None` iff the book has no open loan; `Some(id)` iff the open loans are exactly `{id}`; failure iff two or more, carrying their count |
| Storage.OpenLoans | objects.py:302-310 | the ids, ascending, of exactly the borrow rows of that book whose `returned_at` is NULL |
| Storage.Lend | objects.py:316-328 | the book's open loans gain the new row; other books' open loans are unchanged |
| Storage.ReturnLoan | objects.py:353-363 | only that row's `returned_at` changes, and it leaves every book's open loans |
| Storage.LendOpensLoan | objects.py:300-328 | lending a book with no open loan makes the new row its active borrow |
| Storage.LendWhileLentFails | objects.py:300-328 | lending a lent book leaves two open loans, so `get_active_borrow` fails |
| Storage.LendTwiceFails | objects.py:300-328 | lending the same book twice, from any state, makes `get_active_borrow` fail |
| Storage.ReturnClosesLoan | objects.py:300-314 | returning the active borrow leaves the book with none |
| Storage.LendThenReturn | objects.py:316-363 | lend then return makes the book available again and keeps the loan row with both timestamps |
| Storage.IncreasingUnique | objects.py:57 | two ascending id lists with the same members are equal, so the ordering defines the result |
| Migrations.StartVersion | db.py:8-14 | without a `state` table the version is 0; an empty `state` table makes start-up fail; otherwise the version is a stored value |
| Migrations.Step | db.py:17-34 | a migration numbered below the version, or declared after an exit, changes nothing; an exit keeps version, schema and record; otherwise the migration either is skipped or raises the version by one and records its name |
| Migrations.Run | db.py:17-34 | a run that has not exited started before any exit; each declared migration records at most one name (that the earlier records stay is `Migrations.RunCounts`) |
| Migrations.Boot | db.py:8-34 | start-up fails iff the `state` table exists but holds no row; otherwise the final version is the version read plus the number of migrations run, at most one per declaration |
| Migrations.SetVersion | db.py:25 | `UPDATE state SET version = ?` sets every row to the value, and fails without the table |
| Migrations.StepGate | db.py:17-34 | a migration is skipped iff its number is below the current version; a run one either halts with version, schema and record unchanged, or is recorded |
| Migrations.StepBumps | db.py:25-28 | a successful migration makes the in-process version the old version plus one, and every stored `state` row equal to it |
| Migrations.RestartReadsVersion | db.py:8-28 | after a successful migration that leaves the `state` table non-empty, the next start-up reads back the version the last one ended with; a migration that empties `state` makes the next start-up fail instead (`Migrations.Boot`) |
| Migrations.HaltedStays | db.py:29-32 | after `sys.exit(1)`, later declarations change nothing |
| Migrations.RunAppend | db.py:17-34 | declaring two lists of migrations one after the other is declaring their concatenation |
| Migrations.RunCounts | db.py:19-28 | the version grows by exactly the number of migrations run, and earlier records are kept |
| Migrations.NothingRunsBelow | db.py:20 | if every migration number is below the starting version, nothing runs and nothing changes |
| Migrations.InitialGate | db.py:20-37 | `initial` (number 0) runs iff the version is at most 0 |
| Migrations.Initial | db.py:37-38 | the declared migration `initial` has number 0 and runs `InitialBody` |
| Migrations.Declared | db.py:37 | the module declares exactly one migration, `initial`, numbered 0 |
| Migrations.InitialBody | db.py:37-78 | `initial` creates `state` with one row holding 0 and the three tables, and fails iff one of them exists |
| Migrations.FreshBoot | db.py:8-78 | on an empty file, `initial` runs and stored and in-process versions end at 1 |
| Migrations.SecondBoot | db.py:8-37 | the next start-up reads 1 and runs nothing |
| Migrations.Start | db.py:8-34 | the import sequence (read the version, apply each decorator, stop at the first exit) yields exactly `Boot` |
| Api.D | api.py:14-15 | the result has exactly the input's keys, each mapped to the first element of its list; it fails iff some list is empty |
| Api.DSingletons | api.py:14-15 | `D` returns single-valued data unchanged |
| Api.Digits | api.py:24-30 | the decimal text of a natural number is non-empty and made of digits only |
| Api.DecimalString | api.py:24-30 | the decimal text of an integer is non-empty and starts with `-` iff the number is negative |
| Api.ParseInt | api.py:332 | `int()` succeeds only on non-empty text, and yields a negative number only after a leading `-` |
| Api.PageArg | api.py:332 | a missing `page` argument is page 1; a failure is always the bad-argument error on a given argument |
| Api.PageArgSome | api.py:332 | a given `page` argument fails exactly when `int()` rejects it, and otherwise is the number `int()` reads |
| Api.DigitsRoundTrip | api.py:24-30 | the decimal digits of a number read back as that number |
| Api.ParseDecimal | api.py:160 | a page number as the pager writes it is read back by `int()` as the same number |
| Api.PageHrefRoundTrip | api.py:19-30 | a pager href on `url` asks for exactly the page it was built for |
| Api.Pagination | api.py:18-33 | prev leads to `page_no - 1` and is disabled iff `page_no == 1`; next leads to `page_no + 1` and is disabled iff there are no more results; the separator is `&` iff the url contains `?` |
| Api.Separator | api.py:19 | the pager's separator is `&` iff the url already contains `?`, and `?` otherwise |
| Api.PageHrefParts | api.py:24-30 | a pager href is the url, the separator, `page=` and the page number in decimal |
| Api.HrefPage | api.py:332 | an href yields a page only when it starts with the url followed by a separator |
| Api.Shown | api.py:124-128 | the shown books are the input with the item at index `page_size` removed, in order |
| Api.HasMoreIndex | api.py:123-126 | `HasMore`: `more_results` is set iff `enumerate` over the books yields the index `page_size` |
| Api.BookLines | api.py:124-128 | one book line per book, in order |
| Api.BuildTable | api.py:114-154 | the loop builds exactly the specified table: the shown books, then the ISBN input iff its url is truthy, then the pager iff `base_url` is truthy, with more-results set iff an index `page_size` exists |
| Api.TableOf | api.py:114-154 | the table has one line per shown book plus one for the ISBN input iff its url is truthy, and a pager iff `base_url` is truthy |
| Api.TableBooks | api.py:124-128 | every book line of a table is one of the books it was built from |
| Api.TableCached | api.py:124-128 | when every handle passed in is the cached object for its id, so is every book line of the table |
| Api.FetchOneExtra | api.py:122-128 | with at most `page_size + 1` books, the first `page_size` are shown, and next is enabled iff the extra one came |
| Api.TableShape | api.py:129-153 | the ISBN input is the last line iff `isbn_input_url` is truthy, all other lines are books, and the pager is there iff `base_url` is truthy |
| Api.PagerRoundTrip | api.py:24-30 | the `page` value of a pager href to page `n` on `base`, taken as the text after `base`, the separator and `page=`, is read by the handler as exactly `n` |
| Api.SearchUrl | api.py:352 | the search base url already has a query, so the pager appends `&page=` |
| Api.ListedPageBound | api.py:332-337 | a list page shows at most `PAGE_SIZE` books and offers a next page iff the query returned `PAGE_SIZE + 1` rows |
| Api.ListBooksPage | api.py:331-337 | as written: a `list_books` page holds at most `PAGE_SIZE` lines, all of them books, and a pager whose prev is disabled iff on page 1 |
| Api.ListedWindow | api.py:332-334 | as written, the fetched window is at most `PAGE_SIZE + 1` rows (`Api.ListedAt` places each of its rows) |
| Api.ViewPlacePage | api.py:157-175 | as written: a `view_place` page holds at most `PAGE_SIZE` books followed by the ISBN input posting to `/places/<id>/add-book`, and its pager's prev is always disabled |
| Api.SearchPage | api.py:340-354 | as written: a `search_books` page holds at most `PAGE_SIZE` lines, prev is disabled iff on page 1, and next's href on the query url reads back as page `page + 1` |
| Api.ListedHasMore | api.py:332-337 | as written, next is enabled iff a row exists at position `(page-1)*21 + 20`; with exactly `page*21` books, page `page` offers next while page `page+1` is empty |
| Api.ShownPrefix | api.py:124-128 | an id is shown iff it sits at one of the first `PAGE_SIZE` positions of the fetched rows |
| Api.ListedAt | api.py:332-334 | as written, shown position `j` of page `page` is row `(page-1)*21 + j` (clamped), which is never 20 modulo 21 |
| Api.ListBooksSkipsRow | api.py:332-337 | as written, every row at position `i` with `i % 21 == 20` is on no page |
| Api.ListBooksMissesTwentyFirst | api.py:332-337 | with 21 books, book 21 is on neither page 1 nor page 2, although page 1 offers a next page |
| Api.PagedAt | api.py:332-337 | with offset `(page-1)*PAGE_SIZE`, shown position `j` of page `page` is row `(page-1)*20 + j`, which lies on that page |
| Api.PagedWindowPartition | api.py:332-337 | with offset `(page-1)*PAGE_SIZE`, each row is shown on exactly one page: `i / 20 + 1` |
| Api.PagedWindow | api.py:332-337 | with offset `(page-1)*PAGE_SIZE`: at most `PAGE_SIZE + 1` rows, non-empty iff some row lies past the offset |
| Api.PagedHasMore | api.py:332-337 | with offset `(page-1)*PAGE_SIZE`, next is enabled iff rows remain past the page, which is iff the next page is not empty |
| Api.ListBooksPaged | api.py:331-337 | `list_books` with the intended window: at most `PAGE_SIZE` lines, all books, prev disabled iff on page 1 |
| Api.ViewPlacePaged | api.py:157-175 | `view_place` with the intended window and page: at most `PAGE_SIZE` books followed by the ISBN input, prev disabled iff on page 1 |
| Api.SearchPaged | api.py:340-354 | `search_books` with the intended window: at most `PAGE_SIZE` lines, prev disabled iff on page 1, next reads back as page `page + 1` |
| Api.ViewPlacePagerStuck | api.py:170-174 | as written, the place pager has prev disabled and next leading to page 2, whatever the page |
| Api.ViewPlacePagedPager | api.py:159-174 | with the page passed on, the place pager leads to `page ± 1`, and prev is disabled iff on page 1 |
| Api.IdsOf | api.py:124-128 | the id view of a table keeps its lines and pager, with each book replaced by its id |
| Api.IdsOfTable | api.py:114-154 | building the table from handles and then taking ids is building it from the ids |
| Api.ListBooks | api.py:329-337 | `list_books` renders, by id, exactly `ListBooksPage` on the books in ascending order; every shown line is the cached handle for its id; the book cache gains exactly the ids of the fetched window of `PAGE_SIZE + 1` rows, the unshown extra row included, as unpopulated objects with no field set; places, borrows and storage are untouched; a non-numeric page fails with nothing changed |
| Api.ListBooksAt | api.py:332-336 | for a parsed page, the `list_books` table: by id exactly `ListBooksPage`, shown lines cached, the book cache gains exactly the fetched window's ids as unpopulated objects with no field set, storage, places and borrows untouched |
| Api.ViewPlace | api.py:157-175 | `view_place` renders, by id, exactly `ViewPlacePage` on the place's shelf; the place's handle is cached (only it is added to the place cache, as an unpopulated object with no field set if it was not cached); every shown line is the cached handle for its id; the book cache gains exactly the ids of the fetched window, the unshown extra row included, as unpopulated objects with no field set; borrows and storage are untouched; a non-numeric page fails with nothing changed |
| Api.ViewPlaceAt | api.py:159-174 | for a parsed page, the `view_place` table: by id exactly `ViewPlacePage`, the place's handle cached, shown lines cached, the book cache gains exactly the fetched window's ids as unpopulated objects with no field set, storage and borrows untouched |
| Api.PutBookForm | api.py:293-298 | `D` failing on a key with no value changes nothing; a missing `title`, `author` or `place_id` raises KeyError after `Book(book_id)` is registered and after the assignments before it, with nothing written; with all three keys the outcome is that of `PutBookData` on the form's title and author |
| Api.PutBookData | api.py:291-312 | once title and author are read from the form, as written, for every state of the handle `Book(book_id)` (new, or cached in any state): holding `imported_at`, the row and the handle get the new title and author and the new title is shown; not populated and without `imported_at` (new, a listing's unshown row, a renamed handle), the row gets the new title and author with the stored `imported_at`, the two assignments are overwritten by the row's fields in memory, and the stored title is shown; populated without `imported_at`, AttributeError before any write; no row, NotFound with storage unchanged; only that handle may change, only `book_id` is added to the book cache, and a Place registered by the populate is unpopulated with no field set |
| Api.PutBookDataPopulated | api.py:291-312 | populating first, for every state of the handle: a handle not yet populated is loaded from the row (its place registered), gets title and author replaced, the row gets the new title and author with the stored `imported_at`, and the new title is shown; a populated handle behaves as in `PutBookData`; no row, NotFound with storage, places and the handle's fields unchanged; only that handle may change, only `book_id` is added to the book cache, and a Place registered by the populate is unpopulated with no field set |
| Api.AssignAndSave | api.py:296-310 | after the two assignments and `save`, for every handle state: holding a plain `imported_at`, the new title, author and that `imported_at` are written, memory keeps the assignments, and the new title is shown; holding it as a model object, the binding error; without it and populated, AttributeError before any write; without it and never populated, the row gets the new title and author with the stored `imported_at`, the row's fields overwrite memory and the stored title is shown, or NotFound when the row is missing |
| Api.AssignAndSaveHeld | api.py:296-310 | on a handle holding `imported_at`: no population; the handle gets the two assignments; the row gets them with that `imported_at` and the new title comes back, or a model object fails to bind with nothing written |
| Api.AssignAndSaveUnheld | objects.py:288-298 | on a handle without `imported_at`: a populated one raises AttributeError with nothing written; a never-populated one is populated by the read, so the row gets the assigned title and author and the stored `imported_at` while memory ends with the row's fields; NotFound when the row is missing |

## Left out

- SQL text, cursors, `commit`/`rollback`, and the connection are not modelled; tables are maps with id allocation. `order_by` is modelled only as its default, `id ASC`.
- Migrations.Step: a failing migration's rollback restores the whole schema as it was before the migration. Python's sqlite3 runs a `CREATE TABLE` in autocommit mode while no transaction is open, and opens one only at the first `INSERT`/`UPDATE`. So when `initial` fails after its first statement (one of `places`, `books`, `borrows` already exists), `CREATE TABLE state` survives the rollback, while the `INSERT` and the later tables are undone. The next start-up then finds an empty `state` table and crashes at db.py:11 (`NoStateRow` in the model). The model does not keep that table.
- `Book.search` (objects.py:174-194) is not modelled: it selects from a table `entities` that no migration creates. `search_books` is modelled only from the ids the search would return.
- `all_lent_out`, `return_`, `import_metadata` and `delete` are not modelled: `api.py` calls them, but `objects.py` does not define them. ISBN metadata lookup and `isbnlib` are left out for the same reason.
- Api.ListBooks, Api.ViewPlace, Api.ListBooksAt, Api.ViewPlaceAt: the model does not populate the shown books. `build_table` formats each book with `table-row:...`, which falls to the last branch of `Book.__format__` (objects.py:262-270) and reads `title`. So the source populates every shown book, registering its Place, or raises NotFound for a row deleted in between. The contracts say nothing about the fields of the shown handles.
- Api.SearchPage, Api.SearchPaged: the next href is read back by prefix (`HrefPage`). `search_books` puts the query into the url unencoded (api.py:352), so for a query holding `&`, `=`, `#` or `+` the real query-string parse of that href may yield a different `page` or `q`. Query-string parsing is not modelled.
- Storage.Start: SQLite's `LIMIT` and `OFFSET` are 64-bit integers. An offset `page_no * page_size` beyond 2^63 - 1 makes the source's query fail with "datatype mismatch", while the model's unbounded `Start` clamps it to the end of the table and gives an empty page.
- All HTML (the text `__format__` builds, `__str__`, `__repr__`, the template, `fragment`/`page`), Sanic routing, async and static files are left out. A table is its list of lines and its pager; a book line is the book itself.
- `ViewPlace` omits the `{place:heading}` rendering. That rendering reads `place.name` and so populates the Place (NotFound for a missing place).
- Clock values (`datetime.now()`, SQL `datetime('now')`) are opaque integers, passed in as parameters.
- `print` is left out. `sys.exit(1)` is the `halted` flag, and the crash on an empty `state` table is `Err(NoStateRow)`.
- The surrogateescape/latin-1 re-decoding of the lender (api.py:192) is left out, since it depends on Python codec semantics.
- Api.PutBookDataPopulated: takes `title` and `author` as already read. Reading the form (`D`, and the KeyError of a missing `title`, `author` or `place_id`) is modelled once, for the handler as written, in `Api.PutBookForm`.
- Api.ParseInt: accepts an optional sign followed by ASCII digits. It does not model the surrounding whitespace, the underscores between digits, or the non-ASCII digits that Python's `int()` also accepts. Nor does it model the limit of 4300 digits that Python 3.11 and later put on `int()` of a string: the model reads longer digit strings, where `int()` raises ValueError.
- `lazy.__get__` with `instance is None` (class-level attribute access returning the descriptor) is not modelled; no caller uses it.
- `build_table` takes a generator over `Book.all`. In the model the query runs before the table is built, so the order of the query against other reads in the same f-string is not modelled.

## Findings

| source | as written | input that shows it | evidently intended | confidence | as-written member | corrected member |
|---|---|---|---|---|---|---|
| api.py:162-166, 332-334, 345-349 with objects.py:212-213 and objects.py:189-190 | the list handlers pass `page_no = page - 1` and `page_size = PAGE_SIZE + 1`. The offset is therefore `(page - 1) * 21`, and only 20 rows are shown per page. For `search_books` this applies only once an `entities` table exists: `Book.search` selects from `entities` (objects.py:187), which no migration creates, so as written every search fails | 21 books: page 1 shows books 1-20 and enables "next"; page 2 starts at offset 21, so book 21 is never shown (nor book 42, 63, ...) | offset `(page - 1) * PAGE_SIZE`, limit `PAGE_SIZE + 1`, so every book is shown on exactly one page | high (not executed) | Api.ListBooksSkipsRow (on Api.ListBooksPage, Api.ViewPlacePage, Api.SearchPage) | Api.PagedWindowPartition (on Api.ListBooksPaged, Api.ViewPlacePaged, Api.SearchPaged) |
| api.py:170-174 | `view_place` calls `build_table` without `page_no`, which then defaults to 1 | `/places/1?page=3`: the pager's prev is disabled and next leads to page 2 | pass `page_no=page_no`, as `list_books` does | high (not executed) | Api.ViewPlacePagerStuck (on Api.ViewPlacePage) | Api.ViewPlacePagedPager (on Api.ViewPlacePaged) |
| api.py:295-310 with objects.py:288-298 | `put_book_data` assigns title and author on `Book(book_id)` and then calls `save`. On a handle not populated yet, `save`'s read of `imported_at` populates it and overwrites both assignments in memory | the first request to a fresh process is `PUT /books/5` with title "Dune", where row 5's title is NULL: the row gets "Dune" but the notification shows `None`, and so does the cached object afterwards | populate before assigning (or have populate keep assigned slots), so memory and row agree | medium (not executed) | Api.PutBookData (with Entities.LatePopulateOverwrites) | Api.PutBookDataPopulated (with Entities.SaveArgsInMemory) |
