/** Starting the engine on a directory - new or left behind by an earlier session -
    and what survives (src/database.rs, src/catalog.rs, src/storage.rs). */
module Restarts {
  import opened Bytes
  import opened Outcomes
  import opened SlottedPages
  import opened PageFiles
  import opened ClockSweep
  import opened PoolModel
  import opened Storage
  import opened BufferPools
  import opened HeapFiles
  import opened Expressions
  import opened SeqScans
  import opened CatalogCodec
  import opened DatabaseState
  import opened Databases
  import opened Meanings

  /** The records of the catalog page. */
  ghost function CatalogRecords(v: PageMap): seq<Bytes>
    requires CatalogPageOk(v)
  {
    Records(v[CATALOG_FILE][0])
  }

  /** `CatalogManager::load`: the entries of the catalog page, decoded into a map. */
  method LoadCatalog(pool: BufferPool) returns (r: Outcome<CatalogMap>)
    requires pool.Valid() && pool.live == multiset{} && |pool.frames| > 0 && CatalogPageOk(pool.Pages())
    modifies pool, pool.frames, pool.buffers, pool.storage`files
    ensures pool.Valid() && pool.live == multiset{} && pool.Pages() == old(pool.Pages())
    ensures r == Load(CatalogRecords(pool.Pages()), |CatalogRecords(pool.Pages())|)
  {
    hide pool.Valid, pool.Pages, WellFormed, Load, Records;
    var got := pool.GetPage(CATALOG_PAGE);
    var page := pool.ReadGuard(got.value);
    pool.TouchGuard(got.value);
    r := DecodeEntries(page);
    pool.DropGuard(got.value);
  }

  /** The loop of `CatalogManager::load`. */
  method DecodeEntries(page: Page) returns (r: Outcome<CatalogMap>)
    requires WellFormed(page)
    ensures r == Load(Records(page), |Records(page)|)
  {
    hide WellFormed, Record, GetSlot, DecodeEntry;
    var entries: CatalogMap := map[];
    for i := 0 to NumEntries(page)
      invariant Load(Records(page), i) == Ok(entries)
    {
      GetSlotReadsRecords(page, i);
      var e := DecodeEntry(GetSlot(page, i).value.value);
      if !e.Ok? {
        LoadFails(Records(page), i + 1, |Records(page)|);
        return e.PropagateFailure();
      }
      entries := entries[e.value.tableName := e.value];
    }
    r := Ok(entries);
  }

  /** What opening a path will show: the closed file's pages, or a new file's. */
  function Image(closed: map<Path, Bytes>, path: Path): Outcome<PageFile> {
    OpenBytes(if path in closed then closed[path] else [])
  }

  ghost predicate Shows(closed: map<Path, Bytes>, path: Path, ps: seq<Page>) {
    Image(closed, path).Ok? && LayoutOk(Image(closed, path).value) && ps == Pages(Image(closed, path).value)
  }

  /** Entries as a database writes them: named and filed by their key, with ids of
      their own. */
  ghost predicate Reopenable(catalog: CatalogMap) {
    && (forall n :: n in catalog ==>
          && catalog[n].tableName == n && catalog[n].fileName == FileName(n) && n != CATALOG_NAME
          && 0 < catalog[n].tableId < MAX_FILE_ID)
    && (forall m, n :: m in catalog && n in catalog && catalog[m].tableId == catalog[n].tableId ==> m == n)
  }

  /** The ids of the tables of a catalog, and of the catalog itself. */
  function NamesOf(catalog: CatalogMap): Names {
    (map n | n in catalog :: catalog[n].tableId)[CATALOG_NAME := 0]
  }

  // ----- opening the files of the catalog

  /** The table of an entry stands on the file of its name. */
  ghost predicate TableOn(e: CatalogEntry, tables: Tables, names: Names, v: PageMap, paths: map<Path, FileId>) {
    && e.tableName in names && names[e.tableName] == e.tableId && e.tableId in tables
    && e.fileName in paths && paths[e.fileName] in v
    && tables[e.tableId] == Table(e.tableId, paths[e.fileName], e.tableName, e.schema, 1)
  }

  /** The entry's table, on the pages that were on disk. */
  ghost predicate OnDisk(e: CatalogEntry, v: PageMap, paths: map<Path, FileId>, disk: map<Path, Bytes>) {
    e.fileName in paths && paths[e.fileName] in v && Shows(disk, e.fileName, v[paths[e.fileName]])
  }

  /** The tables are those of these entries and no others. */
  ghost predicate TablesOf(catalog: CatalogMap, done: set<Bytes>, tables: Tables, names: Names) {
    && done <= catalog.Keys && names.Keys == done
    && forall id :: id in tables ==> tables[id].name in done && catalog[tables[id].name].tableId == id
  }

  ghost predicate StillClosed(path: Path, paths: map<Path, FileId>, closed: map<Path, Bytes>, disk: map<Path, Bytes>) {
    path !in paths && (path in closed <==> path in disk) && (path in closed ==> closed[path] == disk[path])
  }

  /** Half way through `Database::open`: the entries in `done` have their tables, on
      the pages that were on disk; the files of the others are still closed. */
  ghost predicate Opening(catalog: CatalogMap, done: set<Bytes>, tables: Tables, names: Names,
                          v: PageMap, paths: map<Path, FileId>, closed: map<Path, Bytes>, disk: map<Path, Bytes>) {
    && PagesOk(v) && ClosedOk(closed) && TablesOf(catalog, done, tables, names)
    && (forall n :: n in done ==> TableOn(catalog[n], tables, names, v, paths) && OnDisk(catalog[n], v, paths, disk))
    && (forall n :: n in catalog && n !in done ==> StillClosed(FileName(n), paths, closed, disk))
  }

  /** No file disappears, and only files of the catalog are new. */
  ghost predicate SameFiles(paths: map<Path, FileId>, closed: map<Path, Bytes>, disk: map<Path, Bytes>,
                            catalog: CatalogMap) {
    && disk.Keys + {CATALOG_PATH} <= paths.Keys + closed.Keys
    && forall p :: p in paths.Keys + closed.Keys ==>
                     p in disk.Keys + {CATALOG_PATH} || exists n :: n in catalog && p == FileName(n)
  }

  lemma OpeningStep(catalog: CatalogMap, done: set<Bytes>, tables: Tables, names: Names,
                    v: PageMap, paths: map<Path, FileId>, closed: map<Path, Bytes>, disk: map<Path, Bytes>,
                    n: Bytes, f: FileId, w: PageMap)
    requires Reopenable(catalog) && Opening(catalog, done, tables, names, v, paths, closed, disk)
    requires n in catalog && n !in done && f !in v && PagesOk(w)
    requires Image(closed, FileName(n)).Ok? && LayoutOk(Image(closed, FileName(n)).value)
    requires w == v[f := Pages(Image(closed, FileName(n)).value)]
    requires forall p :: p in paths ==> paths[p] in v
    ensures var e := catalog[n];
            Opening(catalog, done + {n},
                    tables[e.tableId := Table(e.tableId, f, e.tableName, e.schema, 1)], names[e.tableName := e.tableId],
                    w, paths[FileName(n) := f], closed - {FileName(n)}, disk)
  {
    hide LayoutOk, PagesOk, Pages, OpenBytes, FileName, ClosedOk, OnDisk, TableOn;
    var e, path := catalog[n], FileName(n);
    var paths', closed' := paths[path := f], closed - {path};
    var tables' := tables[e.tableId := Table(e.tableId, f, e.tableName, e.schema, 1)];
    var names' := names[e.tableName := e.tableId];
    FewerClosed(closed, path);
    TablesOfMore(catalog, done, tables, names, n, f);
    assert StillClosed(path, paths, closed, disk);
    forall m | m in done + {n}
      ensures TableOn(catalog[m], tables', names', w, paths') && OnDisk(catalog[m], w, paths', disk)
    {
      FileNameInjective(m, n);
      TableOnMore(catalog, done, tables, names, v, paths, closed, disk, n, f, w, m);
    }
    forall m | m in catalog && m !in done + {n}
      ensures StillClosed(FileName(m), paths', closed', disk)
    {
      OthersStillClosed(FileName(m), path, paths, f, closed, disk) by {
        FileNameInjective(m, n);
        assert StillClosed(FileName(m), paths, closed, disk);
      }
    }
  }

  lemma TablesOfMore(catalog: CatalogMap, done: set<Bytes>, tables: Tables, names: Names, n: Bytes, f: FileId)
    requires Reopenable(catalog) && TablesOf(catalog, done, tables, names) && n in catalog
    ensures var e := catalog[n];
            TablesOf(catalog, done + {n}, tables[e.tableId := Table(e.tableId, f, e.tableName, e.schema, 1)],
                     names[e.tableName := e.tableId])
  {
    hide FileName;
  }

  lemma TableOnMore(catalog: CatalogMap, done: set<Bytes>, tables: Tables, names: Names,
                    v: PageMap, paths: map<Path, FileId>, closed: map<Path, Bytes>, disk: map<Path, Bytes>,
                    n: Bytes, f: FileId, w: PageMap, m: Bytes)
    requires Reopenable(catalog) && n in catalog && n !in done && f !in v && m in done + {n} && done <= catalog.Keys
    requires m in done ==> TableOn(catalog[m], tables, names, v, paths) && OnDisk(catalog[m], v, paths, disk)
    requires Image(closed, FileName(n)).Ok? && LayoutOk(Image(closed, FileName(n)).value)
    requires StillClosed(FileName(n), paths, closed, disk) && (m != n ==> FileName(m) != FileName(n))
    requires w == v[f := Pages(Image(closed, FileName(n)).value)]
    ensures var e := catalog[n];
            var tables', names' := tables[e.tableId := Table(e.tableId, f, e.tableName, e.schema, 1)],
                                   names[e.tableName := e.tableId];
            && TableOn(catalog[m], tables', names', w, paths[FileName(n) := f])
            && OnDisk(catalog[m], w, paths[FileName(n) := f], disk)
  {
    hide LayoutOk, Pages, OpenBytes, FileName;
  }

  lemma OthersStillClosed(other: Path, path: Path, paths: map<Path, FileId>, f: FileId, closed: map<Path, Bytes>,
                          disk: map<Path, Bytes>)
    requires StillClosed(other, paths, closed, disk) && other != path
    ensures StillClosed(other, paths[path := f], closed - {path}, disk)
  {
  }

  /** The two things that can go wrong while the files of all entries are opened. */
  ghost predicate IdsRunOut(nextId: nat, catalog: CatalogMap) {
    nextId + |catalog.Keys| > MAX_FILE_ID
  }

  ghost predicate Unopenable(closed: map<Path, Bytes>, catalog: CatalogMap) {
    exists n :: n in catalog && !Image(closed, FileName(n)).Ok?
  }

  /** The files of all entries, opened one after the other in no particular order. */
  method OpenTables(pool: BufferPool, catalog: CatalogMap) returns (r: Outcome<(Tables, Names)>)
    requires pool.Valid() && pool.live == multiset{} && PagesOk(pool.Pages()) && ClosedOk(pool.storage.closed)
    requires Reopenable(catalog) && pool.storage.paths == map[CATALOG_PATH := CATALOG_FILE]
    modifies pool.storage
    ensures pool.Valid() && PagesOk(pool.Pages())
    ensures SameCatalogFile(old(pool.Pages()), pool.Pages())
    ensures r.Ok? ==>
              && Opening(catalog, catalog.Keys, r.value.0, r.value.1, pool.Pages(), pool.storage.paths,
                         pool.storage.closed, old(pool.storage.closed))
              && SameFiles(pool.storage.paths, pool.storage.closed, old(pool.storage.closed), catalog)
              && pool.storage.nextId == old(pool.storage.nextId) + |catalog.Keys|
    ensures !r.Ok? ==> IdsRunOut(old(pool.storage.nextId), catalog) || Unopenable(old(pool.storage.closed), catalog)
  {
    hide pool.Valid, pool.Pages, PagesOk, Opening, LayoutOk, OpenBytes, SameFiles, SameCatalogFile, ClosedOk,
         Reopenable, FileName;
    ghost var disk, start := pool.storage.closed, pool.Pages();
    var tables: Tables, names: Names := map[], map[];
    var todo := catalog.Keys;
    pool.PathsOk();
    NothingOpened(catalog, pool.Pages(), pool.storage.paths, disk);
    while todo != {}
      invariant todo <= catalog.Keys && pool.Valid() && pool.live == multiset{} && PagesOk(pool.Pages())
      invariant SameCatalogFile(start, pool.Pages())
      invariant Opening(catalog, catalog.Keys - todo, tables, names, pool.Pages(), pool.storage.paths,
                        pool.storage.closed, disk)
      invariant SameFiles(pool.storage.paths, pool.storage.closed, disk, catalog)
      invariant pool.storage.nextId + |todo| == old(pool.storage.nextId) + |catalog.Keys|
      decreases todo
    {
      var n :| n in todo;
      var e := catalog[n];
      ghost var v, paths, closed := pool.Pages(), pool.storage.paths, pool.storage.closed;
      StillToOpen(catalog, catalog.Keys - todo, tables, names, v, paths, closed, disk, n);
      EntryFiled(catalog, n);
      pool.PathsOk();
      var file := pool.OpenFile(e.fileName);
      if !file.Ok? {
        return file.PropagateFailure();
      }
      OpenedPages(v, closed, FileName(n), file.value);
      OpeningStep(catalog, catalog.Keys - todo, tables, names, v, paths, closed, disk, n, file.value, pool.Pages());
      SameFilesStep(paths, closed, disk, catalog, n, file.value);
      SameCatalogStep(start, v, file.value, pool.Pages());
      tables := tables[e.tableId := Table(e.tableId, file.value, e.tableName, e.schema, 1)];
      names := names[e.tableName := e.tableId];
      OneLess(catalog.Keys, todo, n);
      todo := todo - {n};
    }
    NoneLess(catalog.Keys);
    r := Ok((tables, names));
  }

  lemma EntryFiled(catalog: CatalogMap, n: Bytes)
    requires Reopenable(catalog) && n in catalog
    ensures catalog[n].tableName == n && catalog[n].fileName == FileName(n) && FileName(n) != CATALOG_PATH
  {
    hide FileName;
    FileNameInjective(n, n);
  }

  lemma OneLess(all: set<Bytes>, todo: set<Bytes>, n: Bytes)
    requires todo <= all && n in todo
    ensures (all - todo) + {n} == all - (todo - {n}) && |todo - {n}| == |todo| - 1
  {
  }

  lemma NoneLess(all: set<Bytes>)
    ensures all - {} == all
  {
  }

  ghost predicate SameCatalogFile(v: PageMap, w: PageMap) {
    CATALOG_FILE in v && CATALOG_FILE in w && w[CATALOG_FILE] == v[CATALOG_FILE]
  }

  lemma SameCatalogStep(start: PageMap, v: PageMap, f: FileId, w: PageMap)
    requires SameCatalogFile(start, v) && f !in v && w.Keys == v.Keys + {f} && forall g :: g in v ==> w[g] == v[g]
    ensures SameCatalogFile(start, w)
  {
  }

  lemma SameFilesStep(paths: map<Path, FileId>, closed: map<Path, Bytes>, disk: map<Path, Bytes>, catalog: CatalogMap,
                      n: Bytes, f: FileId)
    requires SameFiles(paths, closed, disk, catalog) && n in catalog
    ensures SameFiles(paths[FileName(n) := f], closed - {FileName(n)}, disk, catalog)
  {
    hide FileName;
  }

  lemma NothingOpened(catalog: CatalogMap, v: PageMap, paths: map<Path, FileId>, disk: map<Path, Bytes>)
    requires Reopenable(catalog) && PagesOk(v) && ClosedOk(disk) && paths == map[CATALOG_PATH := CATALOG_FILE]
    requires CATALOG_FILE in v
    ensures Opening(catalog, catalog.Keys - catalog.Keys, map[], map[], v, paths, disk, disk)
    ensures SameFiles(paths, disk, disk, catalog) && SameCatalogFile(v, v)
  {
    hide PagesOk, ClosedOk;
    forall n | n in catalog
      ensures StillClosed(FileName(n), paths, disk, disk)
    {
      FileNameInjective(n, n);
    }
  }

  lemma StillToOpen(catalog: CatalogMap, done: set<Bytes>, tables: Tables, names: Names, v: PageMap,
                    paths: map<Path, FileId>, closed: map<Path, Bytes>, disk: map<Path, Bytes>, n: Bytes)
    requires Opening(catalog, done, tables, names, v, paths, closed, disk) && n in catalog && n !in done
    ensures FileName(n) !in paths && Image(closed, FileName(n)) == Image(disk, FileName(n)) && ClosedOk(closed)
  {
    hide LayoutOk, PagesOk, ClosedOk, OpenBytes;
    assert StillClosed(FileName(n), paths, closed, disk);
  }

  // ----- the database on them

  /** The known rows are on disk, under their catalog entries. */
  ghost predicate RowsOnDisk(rows: Rows, catalog: CatalogMap, disk: map<Path, Bytes>) {
    forall name :: name in rows ==> RowOnDisk(name, rows[name], catalog, disk)
  }

  ghost predicate RowOnDisk(name: Bytes, rel: Relation, catalog: CatalogMap, disk: map<Path, Bytes>) {
    && name in catalog && catalog[name].schema == rel.schema
    && Image(disk, FileName(name)).Ok? && LayoutOk(Image(disk, FileName(name)).value)
    && Stores(Pages(Image(disk, FileName(name)).value), rel.schema, rel.tuples)
  }

  /** A database just opened: the catalog's entries have their tables, on the pages that
      were on disk. */
  ghost predicate OpenedOn(w: World, catalog: CatalogMap, disk: map<Path, Bytes>, rows: Rows) {
    && w.d.catalog == catalog && w.d.onPage == catalog && w.d.rows == rows && w.d.names == NamesOf(catalog)
    && (forall n :: n in catalog ==>
          TableOn(catalog[n], w.d.tables, w.d.names, w.v, w.paths) && OnDisk(catalog[n], w.v, w.paths, disk))
    && 0 in w.d.tables && w.d.tables[0] == CatalogTable()
    && SameFiles(w.paths, w.closed, disk, catalog)
  }

  /** `Database::open`: every table of the catalog shows the pages on disk, and the
      database keeps all its promises again. */
  method OpenDatabase(pool: BufferPool, ghost rows: Rows) returns (r: Outcome<Database>)
    requires pool.Valid() && pool.live == multiset{} && |pool.frames| > 0
    requires PagesOk(pool.Pages()) && CatalogPageOk(pool.Pages()) && ClosedOk(pool.storage.closed)
    requires pool.storage.paths == map[CATALOG_PATH := CATALOG_FILE]
    requires var loaded := Load(CatalogRecords(pool.Pages()), |CatalogRecords(pool.Pages())|);
             loaded.Ok? ==> Reopenable(loaded.value) && RowsOnDisk(rows, loaded.value, pool.storage.closed)
    modifies pool, pool.frames, pool.buffers, pool.storage
    ensures var loaded := old(Load(CatalogRecords(pool.Pages()), |CatalogRecords(pool.Pages())|));
            && (!loaded.Ok? ==> r == loaded.PropagateFailure())
            && (loaded.Ok? && !r.Ok? ==>
                  IdsRunOut(old(pool.storage.nextId), loaded.value)
                  || Unopenable(old(pool.storage.closed), loaded.value))
            && (r.Ok? ==>
                  && loaded.Ok? && fresh(r.value) && r.value.pool == pool && r.value.Valid()
                  && OpenedOn(r.value.World(), loaded.value, old(pool.storage.closed), rows)
                  && r.value.World().nextId == old(pool.storage.nextId) + |loaded.value.Keys|
                  && SameCatalogFile(old(pool.Pages()), r.value.World().v))
  {
    hide pool.Valid, pool.Pages, PagesOk, LayoutOk, OpenBytes, Records, Load, WellFormed, ClosedOk, Reopenable,
         Consistent, Image, Opening, CatalogPageOk, CatalogRecords, IdsRunOut, Unopenable, RowsOnDisk, OpenedOn,
         SameFiles, SameCatalogFile;
    ghost var before, disk := pool.Pages(), pool.storage.closed;
    var catalog := LoadCatalog(pool);
    if !catalog.Ok? {
      return catalog.PropagateFailure();
    }
    var opened_ := OpenTables(pool, catalog.value);
    if !opened_.Ok? {
      return opened_.PropagateFailure();
    }
    var tables := opened_.value.0[0 := CatalogTable()];
    var names := opened_.value.1[CATALOG_NAME := 0];
    pool.PathsOk();
    OpenedConsistent(catalog.value, opened_.value.0, opened_.value.1, before, pool.Pages(), pool.storage.paths,
                     pool.storage.closed, disk, rows, pool.storage.nextId);
    var db := new Database(pool, catalog.value, tables, names, rows);
    r := Ok(db);
  }

  lemma OpenedConsistent(catalog: CatalogMap, tables: Tables, names: Names, before: PageMap, v: PageMap,
                         paths: map<Path, FileId>, closed: map<Path, Bytes>, disk: map<Path, Bytes>, rows: Rows,
                         nextId: nat)
    requires Reopenable(catalog) && Opening(catalog, catalog.Keys, tables, names, v, paths, closed, disk)
    requires CatalogPageOk(before) && SameCatalogFile(before, v) && PathsOk(paths)
    requires Load(CatalogRecords(before), |CatalogRecords(before)|) == Ok(catalog)
    requires RowsOnDisk(rows, catalog, disk) && SameFiles(paths, closed, disk, catalog)
    ensures var d := DbState(tables[0 := CatalogTable()], names[CATALOG_NAME := 0], catalog, rows, catalog);
            WorldOk(World(d, v, paths, closed, nextId))
            && OpenedOn(World(d, v, paths, closed, nextId), catalog, disk, rows)
  {
    hide PagesOk, ClosedOk, WellFormed, Records, Load, FileName, SameFiles, LayoutOk, OpenBytes, Pages, Stores, RowOk,
         TableOn, OnDisk, TablesOk, NamesOk, EntriesOk, PathsOk;
    var tables', names' := tables[0 := CatalogTable()], names[CATALOG_NAME := 0];
    FileNameInjective(CATALOG_NAME, CATALOG_NAME);
    assert PagesOk(v) && ClosedOk(closed);
    OpenedTables(catalog, tables, names, v, paths, closed, disk);
    assert names' == NamesOf(catalog);
    forall name | name in rows
      ensures RowOk(name, rows[name], tables', names', catalog, v)
    {
      OpenedRow(catalog, tables', names', v, paths, disk, name, rows[name]);
    }
  }

  lemma OpenedTables(catalog: CatalogMap, tables: Tables, names: Names, v: PageMap, paths: map<Path, FileId>,
                     closed: map<Path, Bytes>, disk: map<Path, Bytes>)
    requires Reopenable(catalog) && Opening(catalog, catalog.Keys, tables, names, v, paths, closed, disk)
    requires CATALOG_FILE in v && PathsOk(paths) && FileName(CATALOG_NAME) == CATALOG_PATH
    ensures var tables', names' := tables[0 := CatalogTable()], names[CATALOG_NAME := 0];
            && NamesOk(names', tables') && TablesOk(tables', names', v, paths) && EntriesOk(catalog, tables', names')
            && names' == NamesOf(catalog)
            && forall n :: n in catalog ==>
                 TableOn(catalog[n], tables', names', v, paths) && OnDisk(catalog[n], v, paths, disk)
  {
    hide PagesOk, ClosedOk, FileName, OnDisk;
    forall n | n in catalog
      ensures TableOn(catalog[n], tables[0 := CatalogTable()], names[CATALOG_NAME := 0], v, paths)
    {
      assert TableOn(catalog[n], tables, names, v, paths);
    }
  }

  lemma OpenedRow(catalog: CatalogMap, tables: Tables, names: Names, v: PageMap, paths: map<Path, FileId>,
                  disk: map<Path, Bytes>, name: Bytes, rel: Relation)
    requires Reopenable(catalog) && RowOnDisk(name, rel, catalog, disk)
    requires TableOn(catalog[name], tables, names, v, paths) && OnDisk(catalog[name], v, paths, disk)
    ensures RowOk(name, rel, tables, names, catalog, v)
  {
    hide LayoutOk, OpenBytes, Pages, FileName, TableRows, FilePagesOk, Storable, EncodeAll;
  }

  // ----- a directory to start on

  /** A directory the engine can start on: new, or one it wrote. */
  ghost predicate Startable(disk: map<Path, Bytes>, rows: Rows) {
    && ClosedOk(disk) && (forall p :: p in disk ==> ImageOk(disk[p]))
    && (CATALOG_PATH in disk ==> OpenBytes(disk[CATALOG_PATH]).Ok?)
    && StartPagesOk(CatalogFile(disk), disk, rows)
  }

  function CatalogFile(disk: map<Path, Bytes>): PageFile {
    Unchecked(if CATALOG_PATH in disk then disk[CATALOG_PATH] else [])
  }

  /** The catalog file's pages, and its entries if they decode, with the known rows. */
  ghost predicate StartPagesOk(catalog: PageFile, disk: map<Path, Bytes>, rows: Rows) {
    && LayoutOk(catalog)
    && var w := DiskView(map[CATALOG_FILE := catalog]);
       && PagesOk(w) && CatalogPageOk(w)
       && var loaded := Load(CatalogRecords(w), |CatalogRecords(w)|);
          loaded.Ok? ==> Reopenable(loaded.value) && RowsOnDisk(rows, loaded.value, disk - {CATALOG_PATH})
  }

  /** Storage manager, buffer pool and database on a directory, one after the other. */
  method Start(disk: map<Path, Bytes>, numFrames: nat, ghost rows: Rows) returns (r: Outcome<Database>)
    requires Startable(disk, rows) && numFrames > 0
    ensures FilesOk(map[CATALOG_FILE := CatalogFile(disk)])
    ensures var w := DiskView(map[CATALOG_FILE := CatalogFile(disk)]);
            var loaded := Load(CatalogRecords(w), |CatalogRecords(w)|);
            && (!loaded.Ok? ==> r == loaded.PropagateFailure())
            && (loaded.Ok? && !r.Ok? ==>
                  IdsRunOut(1, loaded.value) || Unopenable(disk - {CATALOG_PATH}, loaded.value))
            && (r.Ok? ==>
                  && loaded.Ok? && fresh(r.value) && fresh(r.value.pool) && fresh(r.value.pool.storage)
                  && fresh(r.value.pool.frames) && fresh(r.value.pool.buffers)
                  && |r.value.pool.frames| == numFrames && r.value.Valid()
                  && OpenedOn(r.value.World(), loaded.value, disk - {CATALOG_PATH}, rows)
                  && r.value.World().nextId == 1 + |loaded.value.Keys| && SameCatalogFile(w, r.value.World().v))
  {
    hide PagesOk, LayoutOk, OpenBytes, Load, CatalogRecords, ClosedOk, ImageOk, Reopenable, DiskView, CatalogPageOk,
         Consistent, Inv, CatalogFile, FreshFile, OpenedOn, Image, IdsRunOut, Unopenable, RowsOnDisk, Unchecked,
         SameCatalogFile;
    StartGives(disk, rows);
    var storage := new StorageManager(disk);
    var pool := new BufferPool(numFrames, storage);
    FewerClosed(disk, CATALOG_PATH);
    r := OpenDatabase(pool, rows);
  }

  lemma StartGives(disk: map<Path, Bytes>, rows: Rows)
    requires Startable(disk, rows)
    ensures CATALOG_PATH in disk ==> OpenBytes(disk[CATALOG_PATH]).Ok?
    ensures LayoutOk(CatalogFile(disk)) && FilesOk(map[CATALOG_FILE := CatalogFile(disk)])
    ensures CatalogFile(disk) == Unchecked(if CATALOG_PATH in disk then disk[CATALOG_PATH] else [])
  {
    hide LayoutOk, OpenBytes, FreshFile, Unchecked;
  }

  /** The first start, on a directory without a catalog: a database without tables. */
  method FirstStart(disk: map<Path, Bytes>, numFrames: nat) returns (db: Database)
    requires NewDirectory(disk) && numFrames > 0
    ensures fresh(db) && fresh(db.pool) && fresh(db.pool.storage) && fresh(db.pool.frames) && fresh(db.pool.buffers)
    ensures db.Valid() && |db.pool.frames| == numFrames && db.catalog == db.onPage
    ensures Seen(db.World()) && FirstSnapshot(SnapshotOf(db.World()), disk)
  {
    hide ClosedOk, ImageOk, CatalogFile, DiskView, CatalogRecords, CatalogPageOk, Load, OpenedOn, Image, Consistent,
         Inv, Startable, FilesOk, SnapshotOf, FirstSnapshot, NewDirectory;
    NewDirectoryStarts(disk);
    var r := Start(disk, numFrames, map[]);
    db := r.value;
    ConsistentIsSeen(db.World());
    InStep(db.World(), map[], disk - {CATALOG_PATH}, map[]);
    FirstWorld(disk, db.World());
  }

  /** No catalog yet; other files may be there. */
  ghost predicate NewDirectory(disk: map<Path, Bytes>) {
    CATALOG_PATH !in disk && ClosedOk(disk) && forall p :: p in disk ==> ImageOk(disk[p])
  }

  /** No tables but the catalog, and no bytes used on its page. */
  ghost predicate FirstSnapshot(s: Snapshot, disk: map<Path, Bytes>) {
    && s.rows == map[] && s.names == map[CATALOG_NAME := 0] && s.catalog == map[] && s.onPage == map[] && s.nextId == 1
    && s.page == Fill(Catalog, 0, 0)
    && s.extents == map[CATALOG_NAME := Extent(CatalogSchema(), [Fill(Catalog, 0, 0)], 1)]
    && s.paths.Keys + s.closed.Keys == disk.Keys + {CATALOG_PATH}
    && CATALOG_PATH in s.paths && s.paths[CATALOG_PATH] == CATALOG_FILE
  }

  lemma NewDirectoryStarts(disk: map<Path, Bytes>)
    requires NewDirectory(disk)
    ensures Startable(disk, map[]) && FilesOk(map[CATALOG_FILE := CatalogFile(disk)])
    ensures CatalogFile(disk) == FreshFile()
    ensures var w := DiskView(map[CATALOG_FILE := CatalogFile(disk)]);
            CatalogPageOk(w) && Load(CatalogRecords(w), |CatalogRecords(w)|) == Ok(map[])
    ensures !IdsRunOut(1, map[]) && !Unopenable(disk - {CATALOG_PATH}, map[])
  {
    hide LayoutOk, WellFormed, Records, ClosedOk, ImageOk, Pages, FreshFile, OpenBytes;
    FreshPages();
    var w := DiskView(map[CATALOG_FILE := FreshFile()]);
    assert w[CATALOG_FILE] == [BlankPage(0, Catalog)];
    assert PageOk(w[CATALOG_FILE][0], 0) by { assert FilePagesOk(Pages(FreshFile())); }
  }

  lemma FirstWorld(disk: map<Path, Bytes>, w: World)
    requires NewDirectory(disk) && WorldOk(w) && Seen(w) && OpenedOn(w, map[], disk - {CATALOG_PATH}, map[])
             && w.nextId == 1
    requires FilesOk(map[CATALOG_FILE := CatalogFile(disk)]) && CatalogFile(disk) == FreshFile()
    requires SameCatalogFile(DiskView(map[CATALOG_FILE := CatalogFile(disk)]), w.v)
    ensures FirstSnapshot(SnapshotOf(w), disk)
  {
    hide ClosedOk, ImageOk, LayoutOk, Pages, FreshFile, WellFormed, Records, FillOf, Consistent, FilePagesOk, FillsOf,
         CatalogPageOk, SnapshotOf, ExtentOf, OpenedOn;
    SnapshotFields(w);
    FreshPages();
    BlankIsUnused();
    FirstPaths(w);
    FirstFields(w, disk - {CATALOG_PATH});
    CatalogExtent(w);
    OneFill(w.v[CATALOG_FILE]);
    assert SnapshotOf(w).extents.Keys == {CATALOG_NAME};
  }

  lemma FirstFields(w: World, disk: map<Path, Bytes>)
    requires OpenedOn(w, map[], disk, map[])
    ensures w.d.rows == map[] && w.d.names == map[CATALOG_NAME := 0] && w.d.catalog == map[] && w.d.onPage == map[]
    ensures 0 in w.d.tables && w.d.tables[0] == CatalogTable()
    ensures w.paths.Keys + w.closed.Keys == disk.Keys + {CATALOG_PATH}
  {
    hide FileName;
    var none: CatalogMap := map[];
    assert (map n | n in none :: none[n].tableId) == map[];
  }

  /** The catalog's own table is on the catalog's file. */
  lemma CatalogExtent(w: World)
    requires WorldOk(w) && Seen(w)
    ensures 0 in w.d.tables && w.d.names[CATALOG_NAME] == 0 && CATALOG_FILE in w.v && FilePagesOk(w.v[CATALOG_FILE])
    ensures ExtentOf(w, CATALOG_NAME) == Extent(CatalogSchema(), FillsOf(w.v[CATALOG_FILE]), w.d.tables[0].current)
  {
    hide PagesOk, FilePagesOk, ClosedOk, CatalogPageOk, Loads, EntriesOk, RowsOk, FileName, FillsOf;
    FileNameInjective(CATALOG_NAME, CATALOG_NAME);
    assert TableOk(w.d.tables[0], 0, w.d.names, w.v, w.paths);
    FileOfMap(w.v, CATALOG_FILE);
  }

  lemma OneFill(ps: seq<Page>)
    requires FilePagesOk(ps) && |ps| == 1
    ensures FillsOf(ps) == [Fill(Catalog, 0, 0)]
  {
  }

  lemma FirstPaths(w: World)
    requires WorldOk(w)
    ensures PathsOk(w.paths)
  {
    hide PagesOk, ClosedOk, NamesOk, CatalogPageOk, Loads, TablesOk, EntriesOk, RowsOk;
  }

  lemma BlankIsUnused()
    ensures WellFormed(BlankPage(0, Catalog)) && FillOf(BlankPage(0, Catalog)) == Fill(Catalog, 0, 0)
  {
    hide BlankPage, WellFormed, Records;
    Widths();
    BlankPageIsEmpty(0, Catalog);
    FillAnswers(BlankPage(0, Catalog), []);
  }

  // ----- what a restart keeps

  /** Everything the session has on disk can be opened again, page for page. */
  lemma DiskReopens(storage: StorageManager)
    requires storage.Valid() && PagesOk(DiskView(storage.files)) && ClosedOk(storage.closed)
    ensures forall p :: p in storage.Disk() ==> ImageOk(storage.Disk()[p])
    ensures ClosedOk(storage.Disk())
    ensures forall p :: p in storage.paths ==>
              p in storage.Disk() && OpenBytes(storage.Disk()[p]) == Ok(storage.files[storage.paths[p]])
  {
    hide LayoutOk, OpenBytes, Pages, WellFormed;
    forall p | p in storage.Disk()
      ensures ImagePagesOk(storage.Disk()[p])
      ensures p in storage.paths ==> OpenBytes(storage.Disk()[p]) == Ok(storage.files[storage.paths[p]])
    {
      if p in storage.paths {
        var f := storage.paths[p];
        ReopenRecovers(storage.files[f]);
        FileOfMap(DiskView(storage.files), f);
      } else {
        assert ImagePagesOk(storage.closed[p]);
      }
    }
  }

  /** What a database wrote can be opened again. */
  lemma WrittenReopenable(w: World)
    requires WorldOk(w)
    ensures Reopenable(w.d.onPage)
  {
    hide PagesOk, CatalogPageOk, ClosedOk, RowsOk, PathsOk, Loads, FileName;
    ConsistentGives(w.d, w.v, w.paths, w.closed);
    forall n | n in w.d.onPage
      ensures 0 < w.d.onPage[n].tableId < MAX_FILE_ID
    {
      assert TableOk(w.d.tables[w.d.onPage[n].tableId], w.d.onPage[n].tableId, w.d.names, w.v, w.paths);
    }
  }

  lemma RestartedPages(files: Files, v: PageMap)
    requires FilesOk(files) && DiskView(files) == v && PagesOk(v) && CatalogPageOk(v)
    ensures CATALOG_FILE in files && FilesOk(map[CATALOG_FILE := files[CATALOG_FILE]])
    ensures var w := DiskView(map[CATALOG_FILE := files[CATALOG_FILE]]);
            && w == map[CATALOG_FILE := v[CATALOG_FILE]] && PagesOk(w) && CatalogPageOk(w)
            && CatalogRecords(w) == CatalogRecords(v)
  {
    hide LayoutOk, WellFormed, Records, Pages;
    assert CATALOG_FILE in DiskView(files);
    var w := DiskView(map[CATALOG_FILE := files[CATALOG_FILE]]);
    assert w[CATALOG_FILE] == v[CATALOG_FILE];
    forall f, n | f in w && 0 <= n < |w[f]|
      ensures PageOk(w[f][n], n)
    {
      assert PageOk(v[f][n], n);
    }
  }

  /** Different ids below a bound: fewer entries than the bound. */
  lemma {:induction false} FewEntries(catalog: CatalogMap, names: set<Bytes>, bound: nat)
    requires names <= catalog.Keys && bound > 0 && forall n :: n in names ==> 1 <= catalog[n].tableId < bound
    requires forall m, n :: m in names && n in names && catalog[m].tableId == catalog[n].tableId ==> m == n
    ensures |names| < bound
    decreases bound
  {
    if n :| n in names && catalog[n].tableId == bound - 1 {
      FewEntries(catalog, names - {n}, bound - 1);
    } else if names != {} {
      var n :| n in names;
      FewEntries(catalog, names, bound - 1);
    }
  }

  /** There are enough file ids to open all entries' files again. */
  lemma IdsSuffice(catalog: CatalogMap)
    requires Reopenable(catalog)
    ensures !IdsRunOut(1, catalog)
  {
    hide FileName;
    FewEntries(catalog, catalog.Keys, MAX_FILE_ID);
  }

  /** The file of an open path, flushed, closed and looked at again. */
  ghost predicate Flushed(w: World, files: Files, disk: map<Path, Bytes>) {
    && FilesOk(files) && DiskView(files) == w.v
    && disk.Keys == w.paths.Keys + w.closed.Keys
    && forall p :: p in w.paths ==> p in disk && w.paths[p] in files && OpenBytes(disk[p]) == Ok(files[w.paths[p]])
  }

  /** A table's pages are in its file on disk. */
  lemma TableOnDisk(w: World, files: Files, disk: map<Path, Bytes>, id: nat)
    requires WorldOk(w) && Flushed(w, files, disk) && id in w.d.tables && w.d.tables[id].name != CATALOG_NAME
    ensures w.d.tables[id].file in w.v
    ensures Shows(disk - {CATALOG_PATH}, FileName(w.d.tables[id].name), w.v[w.d.tables[id].file])
    ensures FileName(w.d.tables[id].name) in disk - {CATALOG_PATH}
  {
    hide PagesOk, ClosedOk, PathsOk, CatalogPageOk, Loads, EntriesOk, RowsOk, FileName, LayoutOk, OpenBytes, Pages,
         NamesOk;
    var t := w.d.tables[id];
    assert TableOk(t, id, w.d.names, w.v, w.paths);
    FileNameInjective(t.name, CATALOG_NAME);
    FileLaidOut(files, t.file);
  }

  lemma FileLaidOut(files: Files, f: FileId)
    requires FilesOk(files) && f in files
    ensures LayoutOk(files[f]) && DiskView(files)[f] == Pages(files[f])
  {
    hide LayoutOk, Pages;
  }

  /** What a database leaves on disk can be started on, with the rows it knows. */
  lemma WrittenStartable(w: World, files: Files, disk: map<Path, Bytes>)
    requires WorldOk(w) && Flushed(w, files, disk) && ClosedOk(disk) && forall p :: p in disk ==> ImageOk(disk[p])
    ensures Startable(disk, w.d.rows)
    ensures FilesOk(map[CATALOG_FILE := CatalogFile(disk)])
    ensures var x := DiskView(map[CATALOG_FILE := CatalogFile(disk)]);
            && CatalogPageOk(x) && Load(CatalogRecords(x), |CatalogRecords(x)|) == Ok(w.d.onPage)
            && SameCatalogFile(w.v, x)
    ensures !Unopenable(disk - {CATALOG_PATH}, w.d.onPage)
  {
    hide PagesOk, LayoutOk, OpenBytes, Load, CatalogRecords, ClosedOk, ImageOk, Reopenable, DiskView, CatalogPageOk,
         Consistent, Unchecked, Shows, Image;
    WrittenReopenable(w);
    WrittenCatalog(w, files, disk);
    RowsWritten(w, files, disk);
    AllOpenable(w, files, disk);
  }

  lemma WrittenCatalog(w: World, files: Files, disk: map<Path, Bytes>)
    requires WorldOk(w) && Flushed(w, files, disk)
    ensures CATALOG_PATH in disk && OpenBytes(disk[CATALOG_PATH]).Ok? && LayoutOk(CatalogFile(disk))
    ensures FilesOk(map[CATALOG_FILE := CatalogFile(disk)])
    ensures var x := DiskView(map[CATALOG_FILE := CatalogFile(disk)]);
            && PagesOk(x) && CatalogPageOk(x) && Load(CatalogRecords(x), |CatalogRecords(x)|) == Ok(w.d.onPage)
            && SameCatalogFile(w.v, x)
  {
    hide PagesOk, LayoutOk, OpenBytes, Load, Records, ClosedOk, DiskView, NamesOk, TablesOk, EntriesOk, RowsOk,
         Unchecked, CatalogPageOk;
    ConsistentGives(w.d, w.v, w.paths, w.closed);
    RestartedPages(files, w.v);
    OpenIsUnchecked(disk[CATALOG_PATH]);
    FileLaidOut(files, CATALOG_FILE);
    CatalogThere(w.v);
  }

  lemma CatalogThere(v: PageMap)
    requires CatalogPageOk(v)
    ensures CATALOG_FILE in v
  {
  }

  lemma RowsWritten(w: World, files: Files, disk: map<Path, Bytes>)
    requires WorldOk(w) && Flushed(w, files, disk)
    ensures RowsOnDisk(w.d.rows, w.d.onPage, disk - {CATALOG_PATH})
  {
    hide Consistent, Flushed, LayoutOk, Pages, OpenBytes, FileName, TableRows, FilePagesOk, Storable, EncodeAll, Holds;
    forall name | name in w.d.rows
      ensures RowOnDisk(name, w.d.rows[name], w.d.onPage, disk - {CATALOG_PATH})
    {
      RowGives(w.d, w.v, w.paths, w.closed, name);
      ConsistentGives(w.d, w.v, w.paths, w.closed);
      TableOnDisk(w, files, disk, w.d.names[name]);
      HoldsFile(w.v, w.d.tables[w.d.names[name]], w.d.rows[name].tuples);
    }
  }

  lemma AllOpenable(w: World, files: Files, disk: map<Path, Bytes>)
    requires WorldOk(w) && Flushed(w, files, disk)
    ensures !Unopenable(disk - {CATALOG_PATH}, w.d.onPage)
  {
    hide Consistent, Flushed, LayoutOk, Pages, OpenBytes, FileName;
    ConsistentGives(w.d, w.v, w.paths, w.closed);
    forall n | n in w.d.onPage
      ensures Image(disk - {CATALOG_PATH}, FileName(n)).Ok?
    {
      TableOnDisk(w, files, disk, w.d.names[n]);
    }
  }

  /** What a shutdown and a new start do: the catalog is the one on its page; its tables
      keep their rows and their pages, under their old ids; inserts begin at page 1
      again, and file ids behind those handed out for the catalog's files. */
  ghost predicate Restarted(before: Snapshot, after: Snapshot) {
    && after.rows == before.rows && after.page == before.page
    && after.onPage == before.onPage && after.catalog == before.onPage
    && after.names == NamesOf(before.onPage) && after.nextId == 1 + |before.onPage.Keys|
    && after.paths.Keys + after.closed.Keys == before.paths.Keys + before.closed.Keys
    && (forall n :: n in before.onPage ==> FileName(n) in after.paths)
    && after.extents.Keys == after.names.Keys
    && forall n :: n in after.names ==> n in before.extents && after.extents[n] == before.extents[n].(current := 1)
  }

  lemma RestartKeeps(w: World, files: Files, disk: map<Path, Bytes>, x: World)
    requires WorldOk(w) && Seen(w) && Flushed(w, files, disk) && Seen(x)
    requires OpenedOn(x, w.d.onPage, disk - {CATALOG_PATH}, w.d.rows) && x.nextId == 1 + |w.d.onPage.Keys|
    requires SameCatalogFile(w.v, x.v) && WorldOk(x)
    ensures Restarted(SnapshotOf(w), SnapshotOf(x))
  {
    hide Consistent, WorldOk, Flushed, OpenedOn, FileName, CatalogPageOk, FillOf, SnapshotOf, ExtentOf, Restarted,
         NamesOf, HasExtent;
    RestartFields(w, files, disk, x);
    forall n | n in w.d.onPage
      ensures n in w.d.names && n in x.d.names && FileName(n) in x.paths
      ensures HasExtent(w, n) && HasExtent(x, n) && ExtentOf(x, n) == ExtentOf(w, n).(current := 1)
    {
      RestartedExtent(w, files, disk, x, n);
    }
    RestartedCatalog(w, x, disk);
    SnapshotRestarted(w, x);
  }

  lemma SnapshotRestarted(w: World, x: World)
    requires Seen(w) && Seen(x) && SameCatalogFile(w.v, x.v) && x.nextId == 1 + |w.d.onPage.Keys|
    requires x.d.rows == w.d.rows && x.d.onPage == w.d.onPage && x.d.names == NamesOf(w.d.onPage)
    requires x.d.catalog == w.d.onPage && x.paths.Keys + x.closed.Keys == w.paths.Keys + w.closed.Keys
    requires forall n :: n in w.d.onPage ==> FileName(n) in x.paths
    requires forall n :: n in w.d.onPage || n == CATALOG_NAME ==>
               HasExtent(w, n) && HasExtent(x, n) && ExtentOf(x, n) == ExtentOf(w, n).(current := 1)
    ensures Restarted(SnapshotOf(w), SnapshotOf(x))
  {
    hide FileName, CatalogPageOk, FillOf, SnapshotOf, ExtentOf, HasExtent, NamesOf, Seen, Restarted, SameCatalogFile;
    SnapshotFields(w);
    SnapshotFields(x);
    SamePage(w, x);
    forall n | n in w.d.onPage || n == CATALOG_NAME
      ensures n in SnapshotOf(w).extents && n in SnapshotOf(x).extents
      ensures SnapshotOf(x).extents[n] == SnapshotOf(w).extents[n].(current := 1)
    {
      ExtentNamed(w, n);
      ExtentNamed(x, n);
    }
    RestartedIf(SnapshotOf(w), SnapshotOf(x));
  }

  lemma ExtentNamed(w: World, n: Bytes)
    requires HasExtent(w, n)
    ensures n in w.d.names
  {
  }

  lemma RestartedIf(s: Snapshot, u: Snapshot)
    requires u.rows == s.rows && u.page == s.page && u.onPage == s.onPage && u.catalog == s.onPage
    requires u.names == NamesOf(s.onPage) && u.nextId == 1 + |s.onPage.Keys|
    requires u.paths.Keys + u.closed.Keys == s.paths.Keys + s.closed.Keys
    requires forall n :: n in s.onPage ==> FileName(n) in u.paths
    requires u.extents.Keys == u.names.Keys
    requires forall n :: n in s.onPage || n == CATALOG_NAME ==>
               n in s.extents && n in u.extents && u.extents[n] == s.extents[n].(current := 1)
    ensures Restarted(s, u)
  {
    hide FileName, NamesOf;
    NamesInUse(s.onPage);
    forall n | n in u.names
      ensures n in s.extents && u.extents[n] == s.extents[n].(current := 1)
    {
      assert n in s.onPage.Keys + {CATALOG_NAME};
    }
  }

  lemma SamePage(w: World, x: World)
    requires Seen(w) && Seen(x) && SameCatalogFile(w.v, x.v)
    ensures SnapshotOf(w).page == SnapshotOf(x).page
  {
    hide CatalogPageOk, FillOf, SnapshotOf, ExtentOf, HasExtent;
    SnapshotFields(w);
    SnapshotFields(x);
  }

  lemma NamesInUse(catalog: CatalogMap)
    ensures NamesOf(catalog).Keys == catalog.Keys + {CATALOG_NAME}
  {
  }

  lemma RestartedCatalog(w: World, x: World, disk: map<Path, Bytes>)
    requires WorldOk(w) && WorldOk(x) && Seen(w) && Seen(x) && SameCatalogFile(w.v, x.v)
    requires OpenedOn(x, w.d.onPage, disk - {CATALOG_PATH}, w.d.rows)
    ensures HasExtent(w, CATALOG_NAME) && HasExtent(x, CATALOG_NAME)
    ensures ExtentOf(x, CATALOG_NAME) == ExtentOf(w, CATALOG_NAME).(current := 1)
  {
    hide WorldOk, ExtentOf, FillsOf, FilePagesOk, SameFiles, TableOn, OnDisk, NamesOf, CatalogPageOk;
    CatalogExtent(w);
    CatalogExtent(x);
    CatalogNamed(w);
    CatalogNamed(x);
  }

  lemma CatalogNamed(w: World)
    requires WorldOk(w)
    ensures CATALOG_NAME in w.d.names
  {
    hide PagesOk, ClosedOk, PathsOk, CatalogPageOk, Loads, TablesOk, EntriesOk, RowsOk;
  }

  lemma RestartFields(w: World, files: Files, disk: map<Path, Bytes>, x: World)
    requires WorldOk(w) && Flushed(w, files, disk) && OpenedOn(x, w.d.onPage, disk - {CATALOG_PATH}, w.d.rows)
    ensures x.d.rows == w.d.rows && x.d.onPage == w.d.onPage && x.d.names == NamesOf(w.d.onPage)
    ensures x.d.catalog == w.d.onPage
    ensures x.paths.Keys + x.closed.Keys == w.paths.Keys + w.closed.Keys
  {
    hide PagesOk, ClosedOk, CatalogPageOk, Loads, NamesOk, RowsOk, LayoutOk, Pages, OpenBytes, FileName, FilesOk,
         DiskView, OnDisk;
    ConsistentGives(w.d, w.v, w.paths, w.closed);
    forall n | n in w.d.onPage
      ensures FileName(n) in w.paths
    {
      assert TableOk(w.d.tables[w.d.names[n]], w.d.names[n], w.d.names, w.v, w.paths);
      EntryNamed(w, n);
    }
  }

  lemma EntryNamed(w: World, n: Bytes)
    requires WorldOk(w) && n in w.d.onPage
    ensures n in w.d.names && w.d.names[n] in w.d.tables && w.d.tables[w.d.names[n]].name == n && n != CATALOG_NAME
    ensures w.d.onPage[n].fileName == FileName(n) && w.d.onPage[n].tableName == n
    ensures w.d.tables[w.d.names[n]].schema == w.d.onPage[n].schema
  {
    hide PagesOk, ClosedOk, PathsOk, CatalogPageOk, Loads, TablesOk, RowsOk, FileName;
  }

  lemma RestartedExtent(w: World, files: Files, disk: map<Path, Bytes>, x: World, n: Bytes)
    requires WorldOk(w) && Seen(w) && Flushed(w, files, disk) && Seen(x) && n in w.d.onPage
    requires OpenedOn(x, w.d.onPage, disk - {CATALOG_PATH}, w.d.rows)
    ensures n in w.d.names && n in x.d.names && FileName(n) in x.paths
    ensures HasExtent(w, n) && HasExtent(x, n) && ExtentOf(x, n) == ExtentOf(w, n).(current := 1)
  {
    hide Consistent, LayoutOk, Pages, OpenBytes, FileName, Flushed, SameFiles, NamesOf, CatalogPageOk, FilePagesOk,
         FillsOf;
    EntryNamed(w, n);
    TableOnDisk(w, files, disk, w.d.names[n]);
    assert TableOn(w.d.onPage[n], x.d.tables, x.d.names, x.v, x.paths);
    assert OnDisk(w.d.onPage[n], x.v, x.paths, disk - {CATALOG_PATH});
  }

  /** Shut down - which flushes - and start again with any number of frames: it always
      succeeds, and every table with a catalog entry stores the same tuples in the same
      order. */
  method Restart(db: Database, numFrames: nat) returns (r: Outcome<Database>)
    requires db.Valid() && numFrames > 0 && Seen(db.World())
    modifies db.pool.storage`files
    ensures r.Ok? && fresh(r.value) && fresh(r.value.pool) && fresh(r.value.pool.storage)
    ensures fresh(r.value.pool.frames) && fresh(r.value.pool.buffers)
    ensures r.value.Valid() && |r.value.pool.frames| == numFrames && r.value.catalog == r.value.onPage
    ensures Seen(r.value.World()) && Restarted(SnapshotOf(old(db.World())), SnapshotOf(r.value.World()))
  {
    hide db.pool.Valid, db.pool.Pages, Consistent, LayoutOk, OpenBytes, Load, Stores, DiskView, CatalogRecords,
         OpenedOn, CatalogFile, Startable, db.pool.storage.Valid, db.pool.storage.Disk, FilesOk, CatalogPageOk,
         Flushed, ImageOk, IdsRunOut, Unopenable, Reopenable, SnapshotOf, Restarted, SameCatalogFile, ClosedOk,
         PagesOk, Seen, WorldOk;
    ghost var w := db.World();
    var _ := db.pool.FlushAll();
    StorageIsValid(db.pool);
    ghost var files := db.pool.storage.files;
    WorldGives(w);
    DiskReopens(db.pool.storage);
    var disk := db.pool.storage.Disk();
    FlushedDisk(w, db.pool.storage);
    WrittenStartable(w, files, disk);
    WrittenReopenable(w);
    IdsSuffice(w.d.onPage);
    r := Start(disk, numFrames, w.d.rows);
    ConsistentIsSeen(r.value.World());
    SameThrice(w.v, DiskView(map[CATALOG_FILE := CatalogFile(disk)]), r.value.World().v);
    RestartKeeps(w, files, disk, r.value.World());
    InStep(r.value.World(), w.d.onPage, disk - {CATALOG_PATH}, w.d.rows);
  }

  lemma WorldGives(w: World)
    requires WorldOk(w)
    ensures PagesOk(w.v) && ClosedOk(w.closed)
  {
    hide PagesOk, ClosedOk, PathsOk, CatalogPageOk, Loads, TablesOk, RowsOk, EntriesOk, NamesOk;
  }

  lemma SameThrice(u: PageMap, v: PageMap, w: PageMap)
    requires SameCatalogFile(u, v) && SameCatalogFile(v, w)
    ensures SameCatalogFile(u, w)
  {
  }

  lemma InStep(w: World, catalog: CatalogMap, disk: map<Path, Bytes>, rows: Rows)
    requires OpenedOn(w, catalog, disk, rows)
    ensures w.d.catalog == w.d.onPage
  {
    hide TableOn, OnDisk, SameFiles;
  }

  lemma FlushedDisk(w: World, storage: StorageManager)
    requires storage.Valid() && DiskView(storage.files) == w.v && w.paths == storage.paths && w.closed == storage.closed
    requires forall p :: p in storage.paths ==>
               p in storage.Disk() && OpenBytes(storage.Disk()[p]) == Ok(storage.files[storage.paths[p]])
    ensures Flushed(w, storage.files, storage.Disk())
  {
    hide LayoutOk, OpenBytes, DiskView;
  }

  lemma StorageIsValid(pool: BufferPool)
    requires pool.Valid()
    ensures pool.storage.Valid() && FilesOk(pool.storage.files)
  {
  }
}
