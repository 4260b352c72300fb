/** The database between files and statements: its state, and creating tables
    (src/database.rs, src/tables.rs). */
module Databases {
  import opened Bytes
  import opened Outcomes
  import opened SlottedPages
  import opened PageFiles
  import opened ClockSweep
  import opened PoolModel
  import opened Storage
  import opened BufferPools
  import opened HeapFiles
  import opened Values
  import opened SeqScans
  import opened CatalogCodec
  import opened DatabaseState

  /** Only this file's pages may differ. */
  ghost predicate OnlyFile(v: PageMap, w: PageMap, f: FileId) {
    f in v && w.Keys == v.Keys && forall g :: g in v && g != f ==> w[g] == v[g]
  }

  /** A table file as `Table::new` leaves it: the schema on page 0, an empty heap page 1. */
  ghost predicate EmptyTable(ps: seq<Page>, schema: Schema) {
    |ps| == 2 && FilePagesOk(ps) && SchemaPage(ps[0], schema) && IsHeapPage(ps[1], 1) && RowsOf(ps[1]) == []
  }

  lemma EmptyTableRows(ps: seq<Page>, schema: Schema)
    requires EmptyTable(ps, schema)
    ensures FilePagesOk(ps) && TableRows(ps) == []
  {
    hide WellFormed, SchemaPage;
    assert RowsFrom(ps, 2) == [];
  }

  /** Whether page p is there, casts to this kind and takes the record. */
  ghost predicate TakesRecord(v: PageMap, p: PageId, kind: PageKind, rec: Bytes) {
    InMap(v, p) && WellFormed(v[p.file][p.num]) && InsertAs(v[p.file][p.num], kind, rec).Ok?
  }

  ghost predicate PageThere(v: PageMap, p: PageId) {
    InMap(v, p) && WellFormed(v[p.file][p.num])
  }

  /** What fetching the page, casting it and inserting answers. */
  ghost function RecordAnswer(v: PageMap, p: PageId, kind: PageKind, rec: Bytes, frames: bool): Outcome<EntryId>
    requires PageThere(v, p)
  {
    if frames then InsertAs(v[p.file][p.num], kind, rec) else Err(NoPagesAvailable)
  }

  /** The record `insert` adds to page p of the map through a cast guard. */
  method InsertOnPage(bp: BufferPool, p: PageId, kind: PageKind, rec: Bytes) returns (r: Outcome<EntryId>)
    requires bp.Valid() && PagesOk(bp.Pages()) && bp.live == multiset{}
    modifies bp, bp.frames, bp.buffers, bp.storage`files
    ensures bp.Valid() && PagesOk(bp.Pages()) && bp.live == multiset{}
    ensures !r.Ok? ==> bp.Pages() == old(bp.Pages())
    ensures r.Ok? <==> |bp.frames| > 0 && TakesRecord(old(bp.Pages()), p, kind, rec)
    ensures PageThere(old(bp.Pages()), p) ==> r == RecordAnswer(old(bp.Pages()), p, kind, rec, |bp.frames| > 0)
    ensures r.Ok? ==> bp.Pages() == WithPage(old(bp.Pages()), p, Inserted(old(bp.Pages())[p.file][p.num], rec))
  {
    hide bp.Valid, bp.Pages, PagesOk, InsertAs, Inserted, WithPage;
    ghost var before := bp.Pages();
    var got := bp.GetPage(p);
    if !got.Ok? {
      return got.PropagateFailure();
    }
    PageOkAt(before, p);
    r := bp.InsertThrough(got.value, kind, rec);
    bp.DropGuard(got.value);
    if r.Ok? { WritePageOk(before, p, kind, rec); }
  }

  lemma WritePageOk(v: PageMap, p: PageId, kind: PageKind, rec: Bytes)
    requires PagesOk(v) && InMap(v, p) && PageOk(v[p.file][p.num], p.num)
    requires InsertAs(v[p.file][p.num], kind, rec).Ok?
    ensures PagesOk(WithPage(v, p, Inserted(v[p.file][p.num], rec)))
    ensures KindOf(v[p.file][p.num]) == kind
  {
    hide WellFormed, Inserted, InsertOutcome, Records;
    InsertAppends(v[p.file][p.num], rec);
    var w := WithPage(v, p, Inserted(v[p.file][p.num], rec));
    forall f, n | f in w && 0 <= n < |w[f]|
      ensures PageOk(w[f][n], n)
    {
      if PageId(f, n) != p { assert PageOk(v[f][n], n); }
    }
  }

  /** A file as `open_or_create_file` makes it: one empty catalog page. */
  ghost predicate FreshTable(ps: seq<Page>) {
    |ps| == 1 && PageOk(ps[0], 0) && KindOf(ps[0]).Catalog? && Records(ps[0]) == []
  }

  /** Whether a schema's bytes fit on an empty page. */
  predicate SchemaFits(schema: Schema) {
    EncodeSchema(schema).Ok? && |EncodeSchema(schema).value| <= MAX_RECORD
  }

  lemma FreshTableTakes(v: PageMap, file: FileId, rec: Bytes)
    requires file in v && FreshTable(v[file])
    ensures TakesRecord(v, PageId(file, 0), Catalog, rec) <==> |rec| <= MAX_RECORD
    ensures TakesRecord(v, PageId(file, 0), Catalog, rec) ==>
              CanAllocate(WithPage(v, PageId(file, 0), Inserted(v[file][0], rec)), file)
  {
    hide WellFormed;
    EmptyRecords(v[file][0]);
    EmptyPageCapacity(v[file][0], rec);
  }

  lemma FilesHavePages(pool: BufferPool, f: FileId)
    requires pool.Valid() && f in pool.Pages()
    ensures |pool.Pages()[f]| >= 1
  {
    assert LayoutOk(pool.storage.files[f]);
  }

  lemma FirstPageThere(pool: BufferPool, f: FileId)
    requires pool.Valid() && PagesOk(pool.Pages()) && f in pool.Pages()
    ensures PageThere(pool.Pages(), PageId(f, 0)) && PageOk(pool.Pages()[f][0], 0)
  {
    hide pool.Valid, pool.Pages, PagesOk, WellFormed;
    FilesHavePages(pool, f);
    PageOkAt(pool.Pages(), PageId(f, 0));
  }

  /** What becomes of a file whose page 0 has no entries: the schema goes onto it, if it
      fits, and the next page must be number 1. */
  ghost function InitAnswer(v: PageMap, schema: Schema, file: FileId, frames: bool): Outcome<()>
    requires PageThere(v, PageId(file, 0))
  {
    var encoded :- EncodeSchema(schema);
    var _ :- RecordAnswer(v, PageId(file, 0), Catalog, encoded, frames);
    if !CanAllocate(v, file) then Err(Io)
    else if |v[file]| != 1 then Err(CorruptPageFile) else Ok(())
  }

  /** The page with the schema's bytes as one more record. */
  ghost predicate SchemaAdded(p: Page, q: Page, schema: Schema) {
    && WellFormed(p) && WellFormed(q) && EncodeSchema(schema).Ok?
    && Records(q) == Records(p) + [EncodeSchema(schema).value] && KindOf(p).Catalog? && KindOf(q).Catalog?
  }

  /** What is left of the file: nothing changed if the schema does not go onto page 0; else
      it is there, and behind the pages there is an empty heap page, if the file can grow. */
  ghost predicate InitEffect(v: PageMap, w: PageMap, schema: Schema, file: FileId, frames: bool)
    requires PageThere(v, PageId(file, 0))
  {
    var encoded := EncodeSchema(schema);
    if !encoded.Ok? || !RecordAnswer(v, PageId(file, 0), Catalog, encoded.value, frames).Ok? then w == v
    else
      && OnlyFile(v, w, file) && |w[file]| == |v[file]| + (if CanAllocate(v, file) then 1 else 0)
      && SchemaAdded(v[file][0], w[file][0], schema)
      && (forall n :: 1 <= n < |v[file]| ==> w[file][n] == v[file][n])
      && (CanAllocate(v, file) ==> IsHeapPage(w[file][|v[file]|], |v[file]|) && Records(w[file][|v[file]|]) == [])
  }

  /** The two pages `Table::new` writes: the schema on page 0, then heap page 1. */
  method InitTable(bp: BufferPool, schema: Schema, file: FileId) returns (r: Outcome<()>)
    requires bp.Valid() && PagesOk(bp.Pages()) && bp.live == multiset{} && file in bp.Pages()
    modifies bp, bp.frames, bp.buffers, bp.storage`files
    ensures bp.Valid() && PagesOk(bp.Pages()) && bp.live == multiset{}
    ensures OnlyFile(old(bp.Pages()), bp.Pages(), file)
    ensures r.Ok? && FreshTable(old(bp.Pages())[file]) ==> EmptyTable(bp.Pages()[file], schema)
    ensures FreshTable(old(bp.Pages())[file]) ==> (r.Ok? <==> |bp.frames| > 0 && SchemaFits(schema))
    ensures PageThere(old(bp.Pages()), PageId(file, 0))
    ensures r == InitAnswer(old(bp.Pages()), schema, file, |bp.frames| > 0)
    ensures InitEffect(old(bp.Pages()), bp.Pages(), schema, file, |bp.frames| > 0)
  {
    hide bp.Valid, bp.Pages, PagesOk, InsertAs, Inserted, WellFormed, KindOf, Records;
    ghost var before := bp.Pages();
    FirstPageThere(bp, file);
    var encoded := SchemaToBytes(schema);
    if !encoded.Ok? {
      return encoded.PropagateFailure();
    }
    if FreshTable(before[file]) { FreshTableTakes(before, file, encoded.value); }
    // page 0 carries its own number, so the check for that in between always passes
    var inserted := InsertOnPage(bp, PageId(file, 0), Catalog, encoded.value);
    if !inserted.Ok? {
      return inserted.PropagateFailure();
    }
    ghost var middle := bp.Pages();
    FirstPageHolds(before, middle, file, schema);
    var made := AddHeapPage(bp, file);
    if !made.Ok? {
      return made.PropagateFailure();
    }
    HeapPageBehind(middle, bp.Pages(), file);
    if FreshTable(before[file]) { FileOfMap(bp.Pages(), file); }
    // the new page is number 1 unless the file had more pages already
    assert FreshTable(before[file]) ==> made.value == 1;
    r := if made.value != 1 then Err(CorruptPageFile) else Ok(());
  }

  /** A new table, whose id is its file's. */
  function NewTableAt(f: FileId, name: Bytes, schema: Schema): Table {
    Table(f.id, f, name, schema, 1)
  }

  /** What `Table::new` answers, whatever file it is given. */
  ghost function NewAnswer(v: PageMap, name: Bytes, schema: Schema, file: FileId, frames: bool): Outcome<Table>
    requires PageThere(v, PageId(file, 0))
  {
    var page := v[file][0];
    if !frames then Err(NoPagesAvailable)
    else if KindOf(page) != Catalog then Err(PageCast)
    else
      var _ :- if NumEntries(page) == 0 then InitAnswer(v, schema, file, frames) else Ok(());
      Ok(NewTableAt(file, name, schema))
  }

  /** `Table::new`: a file whose page 0 has no entries yet is initialised. */
  method NewTable(bp: BufferPool, name: Bytes, schema: Schema, file: FileId) returns (r: Outcome<Table>)
    requires bp.Valid() && PagesOk(bp.Pages()) && bp.live == multiset{} && file in bp.Pages()
    modifies bp, bp.frames, bp.buffers, bp.storage`files
    ensures bp.Valid() && PagesOk(bp.Pages()) && bp.live == multiset{}
    ensures OnlyFile(old(bp.Pages()), bp.Pages(), file)
    ensures r.Ok? ==> r.value == NewTableAt(file, name, schema)
    ensures r.Ok? && FreshTable(old(bp.Pages())[file]) ==> EmptyTable(bp.Pages()[file], schema)
    ensures FreshTable(old(bp.Pages())[file]) ==> (r.Ok? <==> |bp.frames| > 0 && SchemaFits(schema))
    ensures PageThere(old(bp.Pages()), PageId(file, 0))
    ensures r == NewAnswer(old(bp.Pages()), name, schema, file, |bp.frames| > 0)
    ensures var page := old(bp.Pages())[file][0];
            if |bp.frames| > 0 && KindOf(page) == Catalog && NumEntries(page) == 0
            then InitEffect(old(bp.Pages()), bp.Pages(), schema, file, true) else bp.Pages() == old(bp.Pages())
  {
    hide bp.Valid, bp.Pages, PagesOk, WellFormed, KindOf, Records;
    ghost var before := bp.Pages();
    var first := PageId(file, 0);
    FirstPageThere(bp, file);
    var got := bp.GetPage(first);
    if !got.Ok? {
      return got.PropagateFailure();
    }
    var page := bp.ReadGuard(got.value);
    bp.DropGuard(got.value);
    KindKnown(page, 0);
    if KindOf(page) != Catalog {
      return Err(PageCast);
    }
    if NumEntries(page) == 0 {
      var ready := InitTable(bp, schema, file);
      if !ready.Ok? {
        return ready.PropagateFailure();
      }
    } else {
      HasEntries(page);
    }
    r := Ok(Table(file.id, file, name, schema, 1));
  }

  lemma HasEntries(p: Page)
    requires WellFormed(p) && NumEntries(p) != 0
    ensures Records(p) != []
  {
  }

  lemma FirstPageHolds(v: PageMap, w: PageMap, file: FileId, schema: Schema)
    requires PagesOk(v) && PageThere(v, PageId(file, 0)) && EncodeSchema(schema).Ok?
    requires InsertAs(v[file][0], Catalog, EncodeSchema(schema).value).Ok?
    requires w == WithPage(v, PageId(file, 0), Inserted(v[file][0], EncodeSchema(schema).value))
    ensures OnlyFile(v, w, file) && |w[file]| == |v[file]| && SchemaAdded(v[file][0], w[file][0], schema)
    ensures forall n :: 1 <= n < |v[file]| ==> w[file][n] == v[file][n]
  {
    hide WellFormed, Inserted, InsertOutcome, Records, EncodeSchema;
    InsertAppends(v[file][0], EncodeSchema(schema).value);
  }

  lemma HeapPageBehind(v: PageMap, w: PageMap, file: FileId)
    requires file in v && IsNewPage(v, w, PageId(file, |v[file]|), Heap) && PagesOk(w)
    ensures OnlyFile(v, w, file) && |w[file]| == |v[file]| + 1
    ensures forall n :: 0 <= n < |v[file]| ==> w[file][n] == v[file][n]
    ensures IsHeapPage(w[file][|v[file]|], |v[file]|) && Records(w[file][|v[file]|]) == []
  {
    hide WellFormed;
    PageOkAt(w, PageId(file, |v[file]|));
  }

  lemma EmptyTableHolds(v: PageMap, t: Table)
    requires t.file in v && EmptyTable(v[t.file], t.schema) && t.current == 1
    ensures Holds(v, t, [])
  {
    hide WellFormed, RowsFrom, PageOk, RowsOf;
    EmptyTableRows(v[t.file], t.schema);
    assert EncodeAll([], t.schema) == [];
  }

  /** Opening a file for the first time shows well-formed pages. */
  lemma OpenedPages(v: PageMap, closed: map<Path, Bytes>, path: Path, f: FileId)
    requires PagesOk(v) && ClosedOk(closed) && f !in v
    requires OpenBytes(if path in closed then closed[path] else []).Ok?
    ensures var file := OpenBytes(if path in closed then closed[path] else []).value;
            LayoutOk(file) && PagesOk(v[f := Pages(file)])
    ensures path !in closed ==>
              Pages(OpenBytes([]).value) == [BlankPage(0, Catalog)] && FreshTable([BlankPage(0, Catalog)])
  {
    hide WellFormed, BlankPage, LayoutOk, Pages, FreshFile;
    FreshPages();
    var bytes := if path in closed then closed[path] else [];
    if path in closed { assert ImagePagesOk(closed[path]); } else { OpenEmpty(); }
    var w := v[f := Pages(OpenBytes(bytes).value)];
    forall g, n | g in w && 0 <= n < |w[g]|
      ensures PageOk(w[g][n], n)
    {
      if g != f { assert PageOk(v[g][n], n); }
    }
    if path !in closed { assert PageOk(Pages(FreshFile())[0], 0); }
  }

  lemma OpenEmpty()
    ensures OpenBytes([]) == Ok(FreshFile())
  {
  }

  /** Whether an entry encodes and the catalog page takes it. */
  ghost predicate TakesEntry(v: PageMap, e: CatalogEntry) {
    EncodeEntry(e).Ok? && TakesRecord(v, CATALOG_PAGE, Catalog, EncodeEntry(e).value)
  }

  /** The pages with an entry added to the catalog page. */
  ghost function WithEntry(v: PageMap, e: CatalogEntry): PageMap
    requires TakesEntry(v, e)
  {
    WithPage(v, CATALOG_PAGE, Inserted(v[CATALOG_FILE][0], EncodeEntry(e).value))
  }

  /** What `update_catalog` answers: it does not encode, or what the page answers. */
  ghost function EntryAnswer(v: PageMap, e: CatalogEntry, frames: bool): (r: Outcome<EntryId>)
    requires PageThere(v, CATALOG_PAGE)
    ensures r.Ok? <==> frames && TakesEntry(v, e)
  {
    var encoded :- EncodeEntry(e);
    RecordAnswer(v, CATALOG_PAGE, Catalog, encoded, frames)
  }

  /** The schema is part of the entry, so it fits wherever the entry does. */
  lemma EntryFitsSchemaFits(v: PageMap, e: CatalogEntry)
    requires TakesEntry(v, e)
    ensures SchemaFits(e.schema)
  {
    hide EncodeSchema;
  }

  /** `open_or_create_file`: which file a path answers. */
  function OpenAnswer(paths: map<Path, FileId>, closed: map<Path, Bytes>, nextId: nat, path: Path): Outcome<FileId> {
    if path in paths then Ok(paths[path])
    else if !OpenBytes(if path in closed then closed[path] else []).Ok? then Err(CorruptPageFile)
    else if nextId == MAX_FILE_ID then Panic
    else Ok(FileId(nextId))
  }

  /** Every table has its file, and inserts into it never go to page 0. */
  ghost predicate TablesThere(tables: Tables, v: PageMap) {
    forall id :: id in tables ==> tables[id].file in v && 1 <= tables[id].current
  }

  // ----- what the parts of create_table do

  /** Opening a path: nothing, or one file more. */
  ghost predicate Opens(w: World, x: World, path: Path, r: Outcome<FileId>) {
    && r == OpenAnswer(w.paths, w.closed, w.nextId, path)
    && (r.Ok? ==> r.value in x.v && r.value.id < MAX_FILE_ID)
    && if !r.Ok? || path in w.paths then x == w
       else
         && x.d == w.d && x.paths == w.paths[path := r.value] && x.closed == w.closed - {path}
         && x.nextId == w.nextId + 1
         && r.value !in w.v && x.v.Keys == w.v.Keys + {r.value} && (forall g :: g in w.v ==> x.v[g] == w.v[g])
         && (path !in w.closed ==> FreshTable(x.v[r.value]))
  }

  /** The branch for a file that is there: the table gets no catalog entry, and its rows
      are whatever the file holds. */
  ghost predicate Adopts(w: World, x: World, name: Bytes, schema: Schema, r: Outcome<nat>) {
    var f := OpenAnswer(w.paths, w.closed, w.nextId, FileName(name));
    && Opens(w, x.(d := w.d), FileName(name), f)
    && if f.Ok? then
         && r == Ok(f.value.id)
         && x.d == WithTable(w.d, Table(f.value.id, f.value, name, schema, 1), w.d.rows, w.d.onPage)
       else r == f.PropagateFailure() && x.d == w.d
  }

  /** The branch for a new file: it is opened in any case; if the catalog page takes the
      entry, there is a new table without rows, and otherwise no table changed. */
  ghost predicate Makes(w: World, x: World, name: Bytes, schema: Schema, frames: bool, r: Outcome<nat>) {
    var t := NewTableAt(FileId(w.nextId), name, schema);
    if w.nextId == MAX_FILE_ID then r == Panic && x == w
    else
      && x.paths == w.paths[FileName(name) := t.file] && x.closed == w.closed && x.nextId == w.nextId + 1
      && t.file !in w.v && x.v.Keys == w.v.Keys + {t.file}
      && CATALOG_FILE in w.v && (forall g :: g in w.v && g != CATALOG_FILE ==> x.v[g] == w.v[g])
      && PageThere(w.v, CATALOG_PAGE)
      && (r.Ok? <==> EntryAnswer(w.v, EntryOf(t), frames).Ok?)
      && (!r.Ok? ==> r == EntryAnswer(w.v, EntryOf(t), frames).PropagateFailure())
      && x.d.catalog == w.d.catalog[name := EntryOf(t)]
      && if r.Ok? then
           && r == Ok(t.id)
           && x.d == MadeState(w.d, t).(catalog := x.d.catalog)
           && x.v[CATALOG_FILE] == WithEntry(w.v, EntryOf(t))[CATALOG_FILE] && EmptyTable(x.v[t.file], t.schema)
         else x.d == w.d.(catalog := x.d.catalog) && x.v[CATALOG_FILE] == w.v[CATALOG_FILE]
  }

  function MadeState(d: DbState, t: Table): DbState {
    WithTable(d, t, d.rows[t.name := Relation(t.schema, [])], d.onPage[t.name := EntryOf(t)])
  }

  /** `create_table`: a known name answers its id; otherwise a file that is there is
      adopted, and one that is not becomes a new table. */
  ghost predicate Creates(w: World, x: World, name: Bytes, schema: Schema, frames: bool, r: Outcome<nat>) {
    if name in w.d.names then r == Ok(w.d.names[name]) && x == w
    else if FileName(name) in w.paths || FileName(name) in w.closed then Adopts(w, x, name, schema, r)
    else Makes(w, x, name, schema, frames, r)
  }

  // ----- what they keep

  /** The file of a name not in use is one that no table uses. */
  lemma OpenedUnused(d: DbState, v: PageMap, paths: map<Path, FileId>, closed: map<Path, Bytes>, name: Bytes, f: FileId)
    requires Consistent(d, v, paths, closed) && name !in d.names
    requires if FileName(name) in paths then f == paths[FileName(name)] else f !in v
    ensures Unused(d.tables, f)
  {
    hide PagesOk, ClosedOk, Loads, EntriesOk, RowsOk, FileName;
    ConsistentGives(d, v, paths, closed);
    FileNameInjective(name, CATALOG_NAME);
    forall id | id in d.tables
      ensures d.tables[id].file != f
    {
      assert TableOk(d.tables[id], id, d.names, v, paths);
      FileNameInjective(d.tables[id].name, name);
    }
  }

  /** An adopted table joins without disturbing the others, unless its id is another's. */
  lemma AdoptKeeps(w: World, x: World, name: Bytes, schema: Schema, r: Outcome<nat>)
    requires WorldOk(w) && Adopts(w, x, name, schema, r) && name !in w.d.names
    requires r.Ok? ==> r.value !in w.d.tables
    requires PagesOk(x.v) && ClosedOk(x.closed) && PathsOk(x.paths)
    ensures WorldOk(x)
  {
    hide PagesOk, ClosedOk, PathsOk, FileName, Unused, Consistent, FreshTable, OpenBytes;
    var f := OpenAnswer(w.paths, w.closed, w.nextId, FileName(name));
    if f.Ok? {
      var t := Table(f.value.id, f.value, name, schema, 1);
      OpenedUnused(w.d, w.v, w.paths, w.closed, name, f.value);
      ConsistentGives(w.d, w.v, w.paths, w.closed);
      assert CatalogPageOk(x.v) && Loads(x.v, w.d.onPage);
      TableAdded(w.d, w.v, x.v, w.paths, x.paths, w.closed, x.closed, t, w.d.rows, w.d.onPage);
    }
  }

  /** The catalog in memory plays no part in what the database promises. */
  lemma CatalogInMemory(d: DbState, v: PageMap, paths: map<Path, FileId>, closed: map<Path, Bytes>, catalog: CatalogMap)
    requires Consistent(d, v, paths, closed)
    ensures Consistent(d.(catalog := catalog), v, paths, closed)
  {
    hide PagesOk, ClosedOk, PathsOk, NamesOk, CatalogPageOk, Loads, TablesOk, EntriesOk, RowsOk;
  }

  /** A new table joins without disturbing the others, unless its id is another's; a
      refused one leaves them alone. */
  lemma MakeKeeps(w: World, x: World, name: Bytes, schema: Schema, frames: bool, r: Outcome<nat>)
    requires WorldOk(w) && Makes(w, x, name, schema, frames, r) && name !in w.d.names
    requires FileName(name) !in w.paths && ValidUtf8(name) && NamesAreText(schema)
    requires r.Ok? ==> r.value !in w.d.tables
    requires PagesOk(x.v) && ClosedOk(x.closed) && PathsOk(x.paths) && w.nextId <= MAX_FILE_ID
    ensures WorldOk(x)
  {
    hide PagesOk, ClosedOk, PathsOk, FileName, Unused, Consistent, ValidUtf8, NamesAreText, EmptyTable, EncodeEntry,
         CatalogPageOk, Loads, Holds, TakesEntry, WithEntry, WithTable, MadeState;
    if w.nextId < MAX_FILE_ID {
      var t := NewTableAt(FileId(w.nextId), name, schema);
      OpenedUnused(w.d, w.v, w.paths, w.closed, name, t.file);
      if r.Ok? {
        NewTableKept(w, x, t);
        CatalogInMemory(MadeState(w.d, t), x.v, x.paths, x.closed, x.d.catalog);
      } else {
        UnusedFileChanges(w.d, w.v, x.v, w.paths, x.paths, w.closed, x.closed, t.file);
        CatalogInMemory(w.d, x.v, x.paths, x.closed, x.d.catalog);
      }
    }
  }

  lemma NewTableKept(w: World, x: World, t: Table)
    requires WorldOk(w) && t.name !in w.d.names && t.id !in w.d.tables && t.id < MAX_FILE_ID && t.current == 1
    requires ValidUtf8(t.name) && NamesAreText(t.schema) && Unused(w.d.tables, t.file)
    requires FileName(t.name) !in w.paths && x.paths == w.paths[FileName(t.name) := t.file]
    requires t.file !in w.v && x.v.Keys == w.v.Keys + {t.file} && CATALOG_FILE in w.v
    requires forall g :: g in w.v && g != CATALOG_FILE ==> x.v[g] == w.v[g]
    requires TakesEntry(w.v, EntryOf(t)) && x.v[CATALOG_FILE] == WithEntry(w.v, EntryOf(t))[CATALOG_FILE]
    requires EmptyTable(x.v[t.file], t.schema) && PagesOk(x.v) && ClosedOk(x.closed) && PathsOk(x.paths)
    ensures Consistent(MadeState(w.d, t), x.v, x.paths, x.closed)
  {
    hide PagesOk, ClosedOk, PathsOk, FileName, Consistent, ValidUtf8, NamesAreText, EmptyTable, EncodeEntry,
         CatalogPageOk, Loads, Holds, TakesEntry, WithEntry, WithTable;
    ConsistentGives(w.d, w.v, w.paths, w.closed);
    EntryText(t);
    EmptyTableHolds(x.v, t);
    EntryLoads(w.v, x.v, w.d.onPage, t);
    TableAdded(w.d, w.v, x.v, w.paths, x.paths, w.closed, x.closed, t,
               w.d.rows[t.name := Relation(t.schema, [])], w.d.onPage[t.name := EntryOf(t)]);
  }

  lemma EntryLoads(v: PageMap, w: PageMap, onPage: CatalogMap, t: Table)
    requires PagesOk(v) && CatalogPageOk(v) && Loads(v, onPage) && EntryIsText(EntryOf(t)) && TakesEntry(v, EntryOf(t))
    requires CATALOG_FILE in w && w[CATALOG_FILE] == WithEntry(v, EntryOf(t))[CATALOG_FILE]
    ensures CatalogPageOk(w) && Loads(w, onPage[t.name := EntryOf(t)])
  {
    hide EncodeEntry, EntryIsText, Load, WellFormed, Records, KindOf, PageNumber, Inserted, InsertOutcome, FileName;
    EntryOnPage(v, onPage, EntryOf(t));
  }

  lemma EntryText(t: Table)
    requires ValidUtf8(t.name) && NamesAreText(t.schema) && t.id <= MAX_FILE_ID
    ensures EntryIsText(EntryOf(t))
  {
    hide NamesAreText;
    assert ValidUtf8([46, 100, 98]) by {
      var db: Bytes := [46, 100, 98];
      assert db[1..][1..][1..] == [];
    }
    ConcatValidUtf8(t.name, [46, 100, 98]);
  }

  /** `create_table` keeps all promises, unless the new table's id is another table's. */
  lemma CreateKeeps(w: World, x: World, name: Bytes, schema: Schema, frames: bool, r: Outcome<nat>)
    requires WorldOk(w) && Creates(w, x, name, schema, frames, r) && ValidUtf8(name) && NamesAreText(schema)
    requires r.Ok? && name !in w.d.names ==> r.value !in w.d.tables
    requires PagesOk(x.v) && ClosedOk(x.closed) && PathsOk(x.paths) && w.nextId <= MAX_FILE_ID
    ensures WorldOk(x)
  {
    hide PagesOk, ClosedOk, PathsOk, FileName, Consistent, ValidUtf8, NamesAreText, Adopts, Makes;
    if name !in w.d.names {
      if FileName(name) in w.paths || FileName(name) in w.closed {
        AdoptKeeps(w, x, name, schema, r);
      } else {
        MakeKeeps(w, x, name, schema, frames, r);
      }
    }
  }

  lemma FewerClosed(closed: map<Path, Bytes>, path: Path)
    requires ClosedOk(closed)
    ensures ClosedOk(closed - {path})
  {
    hide ImagePagesOk;
  }

  /** Opening a new file, entering its table, and initialising it, put together. */
  lemma MadeInSteps(w: World, x: World, y: World, z: World, t: Table)
    requires Opens(w, x, FileName(t.name), Ok(t.file)) && t == NewTableAt(FileId(w.nextId), t.name, t.schema)
    requires FileName(t.name) !in w.paths && FileName(t.name) !in w.closed && CATALOG_FILE in w.v
    requires TakesEntry(x.v, EntryOf(t)) && y.v == WithEntry(x.v, EntryOf(t)) && y == x.(d := y.d, v := y.v)
    requires OnlyFile(y.v, z.v, t.file) && EmptyTable(z.v[t.file], t.schema) && z == y.(d := z.d, v := z.v)
    requires z.d == MadeState(w.d, t).(catalog := w.d.catalog[t.name := EntryOf(t)])
    ensures Makes(w, z, t.name, t.schema, true, Ok(t.id))
  {
    hide EncodeEntry, Inserted, WellFormed, InsertAs, OpenBytes, FreshTable, EmptyTable, FileName, MadeState;
  }

  lemma EntryElsewhere(v: PageMap, e: CatalogEntry, f: FileId)
    requires TakesEntry(v, e) && f in v && f != CATALOG_FILE
    ensures f in WithEntry(v, e) && WithEntry(v, e)[f] == v[f]
  {
    hide EncodeEntry, Inserted, WellFormed, InsertAs;
  }

  lemma RefusedInSteps(w: World, x: World, z: World, t: Table, frames: bool, r: Outcome<nat>)
    requires Opens(w, x, FileName(t.name), Ok(t.file)) && t == NewTableAt(FileId(w.nextId), t.name, t.schema)
    requires FileName(t.name) !in w.paths && FileName(t.name) !in w.closed && CATALOG_FILE in w.v
    requires PageThere(x.v, CATALOG_PAGE) && !EntryAnswer(x.v, EntryOf(t), frames).Ok?
    requires r == EntryAnswer(x.v, EntryOf(t), frames).PropagateFailure() && PageThere(w.v, CATALOG_PAGE)
    requires z == x.(d := w.d.(catalog := w.d.catalog[t.name := EntryOf(t)]))
    ensures Makes(w, z, t.name, t.schema, frames, r)
  {
    hide EncodeEntry, WellFormed, InsertAs, OpenBytes, FreshTable, EmptyTable, FileName, WithEntry;
  }

  class Database {
    const pool: BufferPool
    var catalog: CatalogMap
    var tables: Tables
    var tableNames: Names
    /** The tuples of the tables whose contents are known. */
    ghost var rows: Rows
    /** The catalog its page stands for: what the next start will load. */
    ghost var onPage: CatalogMap

    constructor (pool: BufferPool, catalog: CatalogMap, tables: Tables, tableNames: Names, ghost rows: Rows)
      ensures this.pool == pool
      ensures Db() == DbState(tables, tableNames, catalog, rows, catalog)
    {
      this.pool := pool;
      this.catalog := catalog;
      this.tables := tables;
      this.tableNames := tableNames;
      this.rows := rows;
      this.onPage := catalog;
    }

    ghost function Db(): DbState
      reads this
    {
      DbState(tables, tableNames, catalog, rows, onPage)
    }

    ghost function World(): World
      reads this, pool, pool.storage, pool.frames, pool.buffers
      requires pool.Valid()
    {
      DatabaseState.World(Db(), pool.Pages(), pool.storage.paths, pool.storage.closed, pool.storage.nextId)
    }

    /** All that a statement needs to run. */
    ghost predicate Usable()
      reads this, pool, pool.storage, pool.frames, pool.buffers
    {
      && pool.Valid() && pool.live == multiset{} && PagesOk(pool.Pages()) && ClosedOk(pool.storage.closed)
      && CATALOG_NAME in tableNames && TablesThere(tables, pool.Pages())
    }

    /** All that a database promises. */
    ghost predicate Valid()
      reads this, pool, pool.storage, pool.frames, pool.buffers
    {
      pool.Valid() && pool.live == multiset{} && WorldOk(World())
    }

    lemma ValidIsUsable()
      requires Valid()
      ensures Usable()
    {
      hide pool.Valid, pool.Pages, CatalogPageOk, ClosedOk, RowsOk, PagesOk, EntriesOk, Loads, PathsOk, FileName;
      forall id | id in tables
        ensures tables[id].file in pool.Pages() && 1 <= tables[id].current
      {
        assert TableOk(tables[id], id, tableNames, pool.Pages(), pool.storage.paths);
      }
    }

    lemma UsablePool()
      requires Usable()
      ensures pool.Valid() && pool.live == multiset{} && PagesOk(pool.Pages()) && ClosedOk(pool.storage.closed)
      ensures PathsOk(pool.storage.paths) && CATALOG_FILE in pool.Pages() && pool.storage.nextId <= MAX_FILE_ID
    {
      hide PagesOk, ClosedOk;
      pool.PathsOk();
    }

    lemma CatalogIsThere()
      requires Usable()
      ensures PageThere(pool.Pages(), CATALOG_PAGE)
    {
      hide pool.Valid, pool.Pages, ClosedOk, PagesOk, WellFormed;
      pool.PathsOk();
      FirstPageThere(pool, CATALOG_FILE);
    }

    /** `update_catalog`: the map first, then the page, which can fail. */
    method UpdateCatalog(e: CatalogEntry) returns (r: Outcome<()>)
      requires Usable()
      modifies this`catalog, this`onPage, pool, pool.frames, pool.buffers, pool.storage`files
      ensures Usable() && catalog == old(catalog)[e.tableName := e]
      ensures onPage == if r.Ok? then old(onPage)[e.tableName := e] else old(onPage)
      ensures PageThere(old(pool.Pages()), CATALOG_PAGE)
      ensures r.Ok? <==> EntryAnswer(old(pool.Pages()), e, |pool.frames| > 0).Ok?
      ensures !r.Ok? ==> r == EntryAnswer(old(pool.Pages()), e, |pool.frames| > 0).PropagateFailure()
      ensures pool.Pages() == if r.Ok? then WithEntry(old(pool.Pages()), e) else old(pool.Pages())
    {
      hide pool.Valid, pool.Pages, ClosedOk, PagesOk, EncodeEntry, InsertAs, Inserted, WellFormed, RecordAnswer,
           TakesRecord;
      CatalogIsThere();
      catalog := catalog[e.tableName := e];
      var encoded := EncodeEntry(e);
      if !encoded.Ok? {
        return encoded.PropagateFailure();
      }
      var inserted := InsertOnPage(pool, CATALOG_PAGE, Catalog, encoded.value);
      if !inserted.Ok? {
        return inserted.PropagateFailure();
      }
      onPage := onPage[e.tableName := e];
      r := Ok(());
    }

    /** `open_or_create_file` for a table's path. */
    method OpenTableFile(name: Bytes) returns (r: Outcome<FileId>)
      requires Usable() && name !in tableNames
      modifies pool.storage
      ensures Usable() && Opens(old(World()), World(), FileName(name), r)
    {
      hide pool.Valid, pool.Pages, FreshTable, LayoutOk, OpenBytes, BlankPage, pool.storage.Valid, PagesOk, ClosedOk;
      ghost var before, paths, closed := pool.Pages(), pool.storage.paths, pool.storage.closed;
      FileNameInjective(name, CATALOG_NAME);
      pool.PathsOk();
      r := pool.OpenFile(FileName(name));
      if FileName(name) !in paths && r.Ok? {
        OpenedPages(before, closed, FileName(name), r.value);
        FewerClosed(closed, FileName(name));
      }
    }

    /** The branch of `create_table` for a file that is there already. */
    method AdoptTable(name: Bytes, schema: Schema) returns (r: Outcome<nat>)
      requires Usable() && name !in tableNames
      modifies this`tables, this`tableNames, pool.storage
      ensures Usable() && Adopts(old(World()), World(), name, schema, r)
    {
      hide pool.Valid, pool.Pages, PagesOk, FreshTable, ClosedOk, OpenBytes, FileName;
      var opened_ := OpenTableFile(name);
      if !opened_.Ok? {
        return opened_.PropagateFailure();
      }
      var file := opened_.value;
      tableNames := tableNames[name := file.id];
      tables := tables[file.id := Table(file.id, file, name, schema, 1)];
      r := Ok(file.id);
    }

    /** The middle of `create_table`: the entry goes into the catalog, then the name
        gets its id. */
    method Register(t: Table) returns (r: Outcome<()>)
      requires Usable()
      modifies this`catalog, this`onPage, this`tableNames, pool, pool.frames, pool.buffers, pool.storage`files
      ensures Usable()
      ensures PageThere(old(pool.Pages()), CATALOG_PAGE)
      ensures r.Ok? <==> EntryAnswer(old(pool.Pages()), EntryOf(t), |pool.frames| > 0).Ok?
      ensures !r.Ok? ==> r == EntryAnswer(old(pool.Pages()), EntryOf(t), |pool.frames| > 0).PropagateFailure()
      ensures pool.Pages() == if r.Ok? then WithEntry(old(pool.Pages()), EntryOf(t)) else old(pool.Pages())
      ensures catalog == old(catalog)[t.name := EntryOf(t)]
      ensures onPage == if r.Ok? then old(onPage)[t.name := EntryOf(t)] else old(onPage)
      ensures tableNames == if r.Ok? then old(tableNames)[t.name := t.id] else old(tableNames)
    {
      hide pool.Valid, pool.Pages, PagesOk, TakesEntry, WithEntry, FileName;
      var updated := UpdateCatalog(EntryOf(t));
      if !updated.Ok? {
        return updated.PropagateFailure();
      }
      tableNames := tableNames[t.name := t.id];
      r := Ok(());
    }

    /** The end of `create_table`: the file's first pages, and the table itself. */
    method FillTable(t: Table) returns (r: Outcome<nat>)
      requires Usable() && t == NewTableAt(t.file, t.name, t.schema)
      requires t.file in pool.Pages() && FreshTable(pool.Pages()[t.file])
      modifies this`tables, this`rows, pool, pool.frames, pool.buffers, pool.storage`files
      ensures Usable() && OnlyFile(old(pool.Pages()), pool.Pages(), t.file)
      ensures r.Ok? <==> |pool.frames| > 0 && SchemaFits(t.schema)
      ensures !r.Ok? ==> Db() == old(Db())
      ensures r.Ok? ==>
                && r == Ok(t.id) && EmptyTable(pool.Pages()[t.file], t.schema)
                && tables == old(tables)[t.id := t] && rows == old(rows)[t.name := Relation(t.schema, [])]
    {
      hide pool.Valid, pool.Pages, PagesOk, FreshTable, EmptyTable;
      var made := NewTable(pool, t.name, t.schema, t.file);
      if !made.Ok? {
        return made.PropagateFailure();
      }
      tables := tables[t.id := made.value];
      rows := rows[t.name := Relation(t.schema, [])];
      r := Ok(t.id);
    }

    /** The branch for a new file: catalog entry, name, then the table itself. */
    method MakeTable(name: Bytes, schema: Schema) returns (r: Outcome<nat>)
      requires Usable() && name !in tableNames
      requires FileName(name) !in pool.storage.paths && FileName(name) !in pool.storage.closed
      modifies this, pool, pool.frames, pool.buffers, pool.storage
      ensures Usable() && Makes(old(World()), World(), name, schema, |pool.frames| > 0, r)
    {
      hide pool.Valid, pool.Pages, PagesOk, FreshTable, EmptyTable, ClosedOk, SchemaFits, TakesEntry, WithEntry,
           OpenBytes, FileName, Makes;
      OpenEmpty();
      UsablePool();
      ghost var before := World();
      var opened_ := OpenTableFile(name);
      ghost var opening := World();
      if !opened_.Ok? {
        IdsUsedUp(before, name, schema, |pool.frames| > 0, opened_);
        return opened_.PropagateFailure();
      }
      var t := NewTableAt(opened_.value, name, schema);
      var registered := Register(t);
      if !registered.Ok? {
        RefusedInSteps(before, opening, World(), t, |pool.frames| > 0, registered.PropagateFailure());
        return registered.PropagateFailure();
      }
      ghost var entering := World();
      EntryFitsSchemaFits(opening.v, EntryOf(t));
      EntryElsewhere(opening.v, EntryOf(t), t.file);
      r := FillTable(t);
      MadeInSteps(before, opening, entering, World(), t);
    }

    /** The names of the files there are, open or not. */
    ghost function Files(): set<Path>
      reads this, pool, pool.storage
    {
      pool.storage.paths.Keys + pool.storage.closed.Keys
    }

    /** `path.exists()`. */
    method FileThere(path: Path) returns (exists_: bool)
      requires Usable()
      ensures exists_ <==> path in Files()
    {
      hide Inv, View, PagesOk, ClosedOk;
      exists_ := pool.storage.FileExists(path);
    }

    /** `create_table`. */
    method CreateTable(name: Bytes, schema: Schema) returns (r: Outcome<nat>)
      requires Usable()
      modifies this, pool, pool.frames, pool.buffers, pool.storage
      ensures Usable() && Creates(old(World()), World(), name, schema, |pool.frames| > 0, r)
    {
      hide pool.Valid, pool.Pages, FileName, PagesOk, ClosedOk, Adopts, Makes;
      if name in tableNames {
        return Ok(tableNames[name]);
      }
      var exists_ := FileThere(FileName(name));
      if exists_ {
        r := AdoptTable(name, schema);
      } else {
        r := MakeTable(name, schema);
      }
    }
  }

  lemma IdsUsedUp(w: World, name: Bytes, schema: Schema, frames: bool, opened_: Outcome<FileId>)
    requires Opens(w, w, FileName(name), opened_) && !opened_.Ok? && OpenBytes([]).Ok?
    requires FileName(name) !in w.paths && FileName(name) !in w.closed
    ensures opened_ == Panic && Makes(w, w, name, schema, frames, Panic)
  {
    hide FileName, OpenBytes;
  }
}
