/** What a database keeps true between statements: its tables, the rows stored in
    each, and the catalog page (src/database.rs, src/tables.rs, src/catalog.rs). */
module DatabaseState {
  import opened Bytes
  import opened Outcomes
  import opened SlottedPages
  import opened PageFiles
  import opened ClockSweep
  import opened PoolModel
  import opened Storage
  import opened BufferPools
  import opened HeapFiles
  import opened Values
  import opened RecordCodec
  import opened Expressions
  import opened SeqScans
  import opened CatalogCodec

  /** A table with the heap page its inserts go to. */
  datatype Table = Table(id: nat, file: FileId, name: Bytes, schema: Schema, current: nat)

  const CATALOG_NAME: Bytes := [99, 97, 116, 97, 108, 111, 103]
  const CATALOG_PAGE := PageId(CATALOG_FILE, 0)

  /** The file of a table is its name with ".db" behind it. */
  function FileName(name: Bytes): Path {
    name + [46, 100, 98]
  }

  lemma FileNameInjective(a: Bytes, b: Bytes)
    ensures FileName(a) == FileName(b) <==> a == b
    ensures FileName(a) == CATALOG_PATH <==> a == CATALOG_NAME
  {
    assert FileName(a)[..|a|] == a && FileName(b)[..|b|] == b;
    assert FileName(CATALOG_NAME) == CATALOG_PATH;
    assert FileName(CATALOG_NAME)[..|CATALOG_NAME|] == CATALOG_NAME;
  }

  function EntryOf(t: Table): CatalogEntry {
    CatalogEntry(t.id, t.name, FileName(t.name), t.schema)
  }

  function CatalogSchema(): Schema {
    [Column([116, 97, 98, 108, 101, 95, 110, 97, 109, 101], VarCharType, false),
     Column([102, 105, 108, 101, 95, 110, 97, 109, 101], VarCharType, false),
     Column([115, 99, 104, 101, 109, 97], BlobType, false)]
  }

  function CatalogTable(): Table {
    Table(0, CATALOG_FILE, CATALOG_NAME, CatalogSchema(), 1)
  }

  /** A name as its ASCII bytes. */
  function Ascii(s: string): Bytes
    requires forall i :: 0 <= i < |s| ==> s[i] < 128 as char
  {
    seq(|s|, i requires 0 <= i < |s| => s[i] as int)
  }

  /** The names the engine uses itself. */
  lemma FixedNames(name: Bytes)
    ensures CATALOG_NAME == Ascii("catalog") && CATALOG_PATH == Ascii("catalog.db")
    ensures FileName(name) == name + Ascii(".db")
    ensures CatalogSchema() == [Column(Ascii("table_name"), VarCharType, false),
                                Column(Ascii("file_name"), VarCharType, false),
                                Column(Ascii("schema"), BlobType, false)]
  {
    assert Ascii("catalog") == CATALOG_NAME && Ascii("catalog.db") == CATALOG_PATH && Ascii(".db") == [46, 100, 98];
    assert Ascii("table_name") == CatalogSchema()[0].name && Ascii("file_name") == CatalogSchema()[1].name;
    assert Ascii("schema") == CatalogSchema()[2].name;
  }

  // ----- the parts of the invariant

  type Tables = map<nat, Table>
  type Names = map<Bytes, nat>
  type Rows = map<Bytes, Relation>

  /** The tuples stored in a table, in the order a scan finds them. */
  datatype Relation = Relation(schema: Schema, tuples: seq<Tuple>)

  /** Everything above the pool: the tables by id, their ids by name, the catalog in
      memory, and - for the proof - the rows of the tables whose contents are known and
      the catalog its page stands for, which the one in memory can run ahead of. */
  datatype DbState = DbState(
    tables: Tables,
    names: Names,
    catalog: CatalogMap,
    rows: Rows,
    onPage: CatalogMap)

  /** A table's file is the open one of its name. */
  ghost predicate TableOk(t: Table, id: nat, names: Names, v: PageMap, paths: map<Path, FileId>) {
    && t.id == id < MAX_FILE_ID && t.file in v && 1 <= t.current
    && t.name in names && names[t.name] == id
    && FileName(t.name) in paths && paths[FileName(t.name)] == t.file
  }

  ghost predicate TablesOk(tables: Tables, names: Names, v: PageMap, paths: map<Path, FileId>) {
    forall id :: id in tables ==> TableOk(tables[id], id, names, v, paths)
  }

  /** Names and tables match one to one, and table 0 is the catalog. */
  ghost predicate NamesOk(names: Names, tables: Tables) {
    && CATALOG_NAME in names && names[CATALOG_NAME] == 0
    && 0 in tables && tables[0].schema == CatalogSchema()
    && forall n :: n in names ==> names[n] in tables && tables[names[n]].name == n
  }

  /** No two names stand for one open file, and catalog.db is file 0. */
  ghost predicate PathsOk(paths: map<Path, FileId>) {
    && CATALOG_PATH in paths && paths[CATALOG_PATH] == CATALOG_FILE
    && forall p, q :: p in paths && q in paths && paths[p] == paths[q] ==> p == q
  }

  ghost predicate IsHeapPage(p: Page, n: nat) {
    PageOk(p, n) && KindOf(p).Heap?
  }

  /** All pages behind page 0 are heap pages, and only the first of them can be empty. */
  ghost predicate RowsOnEveryPage(ps: seq<Page>) {
    forall n :: 1 <= n < |ps| ==> IsHeapPage(ps[n], n) && (n > 1 ==> Records(ps[n]) != [])
  }

  /** A catalog page whose only record is the schema. */
  ghost predicate SchemaPage(p: Page, schema: Schema) {
    && WellFormed(p) && KindOf(p).Catalog?
    && EncodeSchema(schema).Ok? && Records(p) == [EncodeSchema(schema).value]
  }

  /** It reads back. */
  lemma SchemaReadsBack(p: Page, schema: Schema)
    requires SchemaPage(p, schema) && NamesAreText(schema)
    ensures |Records(p)| == 1 && DecodeSchema(Records(p)[0]) == Ok(schema)
  {
    hide EncodeSchema, DecodeSchema, WellFormed, NamesAreText;
    SchemaRoundTrip(schema, []);
    assert EncodeSchema(schema).value + [] == EncodeSchema(schema).value;
  }

  /** These pages hold the schema and exactly these tuples, in this order. */
  ghost predicate Stores(ps: seq<Page>, schema: Schema, tuples: seq<Tuple>) {
    && FilePagesOk(ps) && |ps| >= 2 && RowsOnEveryPage(ps) && SchemaPage(ps[0], schema)
    && (forall i :: 0 <= i < |tuples| ==> Storable(tuples[i], schema))
    && TableRows(ps) == EncodeAll(tuples, schema)
  }

  /** So does a table's file, and its inserts go to one of the pages. */
  ghost predicate Holds(v: PageMap, t: Table, tuples: seq<Tuple>) {
    && t.file in v && 1 <= t.current < |v[t.file]|
    && Stores(v[t.file], t.schema, tuples)
  }

  /** A catalog entry is about the table of its name, which is not the catalog. */
  ghost predicate EntryOk(e: CatalogEntry, name: Bytes, tables: Tables, names: Names) {
    && e.tableName == name && e.fileName == FileName(name) && name != CATALOG_NAME
    && name in names && names[name] == e.tableId
    && e.tableId in tables && tables[e.tableId].schema == e.schema
  }

  ghost predicate EntriesOk(onPage: CatalogMap, tables: Tables, names: Names) {
    forall n :: n in onPage ==> EntryOk(onPage[n], n, tables, names)
  }

  /** Rows are known of tables in the catalog. */
  ghost predicate RowOk(name: Bytes, rel: Relation, tables: Tables, names: Names, onPage: CatalogMap, v: PageMap) {
    && name in onPage && name in names && names[name] in tables
    && var t := tables[names[name]];
       t.schema == rel.schema && Holds(v, t, rel.tuples)
  }

  ghost predicate RowsOk(rows: Rows, tables: Tables, names: Names, onPage: CatalogMap, v: PageMap) {
    forall name :: name in rows ==> RowOk(name, rows[name], tables, names, onPage, v)
  }

  ghost predicate CatalogPageOk(v: PageMap) {
    InMap(v, CATALOG_PAGE) && PageOk(v[CATALOG_FILE][0], 0) && KindOf(v[CATALOG_FILE][0]).Catalog?
  }

  /** The catalog page, loaded, gives this map. */
  ghost predicate Loads(v: PageMap, onPage: CatalogMap)
    requires CatalogPageOk(v)
  {
    var records := Records(v[CATALOG_FILE][0]);
    Load(records, |records|) == Ok(onPage)
  }

  /** Files not open yet were written by the engine. */
  ghost predicate ImagePagesOk(bytes: Bytes) {
    var f := OpenBytes(bytes);
    f.Ok? ==> LayoutOk(f.value) && FilePagesOk(Pages(f.value))
  }

  ghost predicate ClosedOk(closed: map<Path, Bytes>) {
    forall p :: p in closed ==> ImagePagesOk(closed[p])
  }

  // ----- the whole state between statements

  ghost predicate Consistent(d: DbState, v: PageMap, paths: map<Path, FileId>, closed: map<Path, Bytes>) {
    && PagesOk(v) && ClosedOk(closed) && PathsOk(paths)
    && CatalogPageOk(v) && Loads(v, d.onPage)
    && NamesOk(d.names, d.tables)
    && TablesOk(d.tables, d.names, v, paths)
    && EntriesOk(d.onPage, d.tables, d.names)
    && RowsOk(d.rows, d.tables, d.names, d.onPage, v)
  }

  /** A database and the files under it, as one value. */
  datatype World = World(d: DbState, v: PageMap, paths: map<Path, FileId>, closed: map<Path, Bytes>, nextId: nat)

  ghost predicate WorldOk(w: World) {
    Consistent(w.d, w.v, w.paths, w.closed)
  }

  lemma ConsistentGives(d: DbState, v: PageMap, paths: map<Path, FileId>, closed: map<Path, Bytes>)
    requires Consistent(d, v, paths, closed)
    ensures PagesOk(v) && ClosedOk(closed) && PathsOk(paths) && NamesOk(d.names, d.tables)
    ensures CatalogPageOk(v) && Loads(v, d.onPage)
    ensures forall id :: id in d.tables ==> TableOk(d.tables[id], id, d.names, v, paths)
    ensures forall n :: n in d.onPage ==> EntryOk(d.onPage[n], n, d.tables, d.names)
  {
    hide PagesOk, ClosedOk, PathsOk, NamesOk, CatalogPageOk, Loads, TableOk, EntryOk, RowsOk;
  }

  lemma RowGives(d: DbState, v: PageMap, paths: map<Path, FileId>, closed: map<Path, Bytes>, name: Bytes)
    requires Consistent(d, v, paths, closed) && name in d.rows
    ensures RowOk(name, d.rows[name], d.tables, d.names, d.onPage, v)
  {
    hide PagesOk, ClosedOk, PathsOk, NamesOk, CatalogPageOk, Loads, TablesOk, EntriesOk, RowOk;
  }

  lemma RowNamed(d: DbState, v: PageMap, paths: map<Path, FileId>, closed: map<Path, Bytes>, name: Bytes)
    requires Consistent(d, v, paths, closed) && name in d.rows
    ensures name in d.onPage && name in d.names && d.names[name] in d.tables
  {
    hide Consistent, Holds;
    RowGives(d, v, paths, closed, name);
  }

  /** Two tables never share a file. */
  lemma FilesApart(d: DbState, v: PageMap, paths: map<Path, FileId>, closed: map<Path, Bytes>, i: nat, j: nat)
    requires Consistent(d, v, paths, closed) && i in d.tables && j in d.tables && i != j
    ensures d.tables[i].file != d.tables[j].file
  {
    hide PagesOk, ClosedOk, CatalogPageOk, Loads, EntriesOk, RowsOk, FileName;
    assert TableOk(d.tables[i], i, d.names, v, paths) && TableOk(d.tables[j], j, d.names, v, paths);
    FileNameInjective(d.tables[i].name, d.tables[j].name);
  }

  /** A table of a name with a catalog entry is not on the catalog's file. */
  lemma NotOnCatalog(d: DbState, v: PageMap, paths: map<Path, FileId>, closed: map<Path, Bytes>, id: nat)
    requires Consistent(d, v, paths, closed) && id in d.tables && d.tables[id].name != CATALOG_NAME
    ensures d.tables[id].file != CATALOG_FILE
  {
    hide PagesOk, ClosedOk, CatalogPageOk, Loads, EntriesOk, RowsOk, FileName;
    assert TableOk(d.tables[id], id, d.names, v, paths);
    FileNameInjective(d.tables[id].name, CATALOG_NAME);
  }

  // ----- fresh files

  lemma FreshPages()
    ensures LayoutOk(FreshFile()) && Pages(FreshFile()) == [BlankPage(0, Catalog)]
    ensures FilePagesOk(Pages(FreshFile()))
    ensures KindOf(BlankPage(0, Catalog)).Catalog? && Records(BlankPage(0, Catalog)) == []
  {
    hide BlankPage;
    FreshLayout();
    Widths();
    BlankPageIsEmpty(0, Catalog);
    assert Pages(FreshFile()) == [BlankPage(0, Catalog)];
  }

  // ----- small rows always fit

  /** A record of at most 190 bytes can never underflow the check for room. */
  const SMALL: nat := 190

  ghost predicate SmallRows(tuples: seq<Tuple>, schema: Schema) {
    forall i :: 0 <= i < |tuples| ==> |Encode(tuples[i], schema)| <= SMALL
  }

  lemma {:induction false} RowsInclude(ps: seq<Page>, n: nat, k: nat, i: nat)
    requires FilePagesOk(ps) && n <= k < |ps| && IsHeapPage(ps[k], k) && i < |Records(ps[k])|
    ensures Records(ps[k])[i] in RowsFrom(ps, n)
    decreases k - n
  {
    hide WellFormed, Records;
    assert PageOk(ps[n], n);
    if n < k {
      RowsInclude(ps, n + 1, k, i);
    } else {
      assert Records(ps[k])[i] in RowsOf(ps[k]);
    }
  }

  lemma {:induction false} SmallBytes(recs: seq<Bytes>)
    requires forall i :: 0 <= i < |recs| ==> |recs[i]| <= SMALL
    ensures RecordBytes(recs) <= (SMALL + SLOT_SIZE) * |recs|
  {
    if recs != [] { SmallBytes(recs[..|recs| - 1]); }
  }

  /** When a table's rows are small, its current page is not filled by few large ones. */
  lemma SmallRowsLeaveRoom(v: PageMap, t: Table, tuples: seq<Tuple>)
    requires PagesOk(v) && Holds(v, t, tuples) && SmallRows(tuples, t.schema)
    ensures FilePagesOk(v[t.file])
    ensures FillAt(v[t.file], t.current).used <= (SMALL + SLOT_SIZE) * FillAt(v[t.file], t.current).count
  {
    hide WellFormed, Encode, RowsFrom, PagesOk, Records, FillOf;
    var ps := v[t.file];
    var page := ps[t.current];
    assert IsHeapPage(page, t.current);
    forall i | 0 <= i < |Records(page)|
      ensures |Records(page)[i]| <= SMALL
    {
      RowsInclude(ps, 1, t.current, i);
      assert Records(page)[i] in EncodeAll(tuples, t.schema);
    }
    SmallBytes(Records(page));
    FillByRecords(page);
  }

  /** Such a page never makes an insert of another small record underflow. */
  lemma SmallFillTakes(fill: Fill, len: nat)
    requires fill.used <= (SMALL + SLOT_SIZE) * fill.count && fill.used <= PAGE_SIZE - HEADER_SIZE && len <= SMALL
    ensures fill.Answer(len) == Ok(()) || fill.Answer(len) == Err(PageFull)
  {
  }

  lemma FillBounded(p: Page)
    requires WellFormed(p)
    ensures FillOf(p).used <= PAGE_SIZE - HEADER_SIZE
  {
  }

  // ----- an insert

  /** The rows with one more tuple at place k of a table, if they are known. */
  function OneMore(rows: Rows, name: Bytes, k: nat, tuple: Tuple): Rows {
    if name in rows && k <= |rows[name].tuples|
    then rows[name := rows[name].(tuples := InsertAt(rows[name].tuples, k, tuple))] else rows
  }

  /** The state after a tuple went into a table's file at `page`, as its k-th row. */
  function WithRow(d: DbState, id: nat, page: nat, k: nat, tuple: Tuple): DbState
    requires id in d.tables
  {
    var t := d.tables[id];
    d.(tables := d.tables[id := t.(current := page)],
       rows := OneMore(d.rows, t.name, k, tuple))
  }

  lemma EncodeInserted(tuples: seq<Tuple>, schema: Schema, k: nat, tuple: Tuple)
    requires k <= |tuples|
    ensures EncodeAll(InsertAt(tuples, k, tuple), schema)
         == InsertAt(EncodeAll(tuples, schema), k, Encode(tuple, schema))
  {
    hide Encode;
  }

  lemma StorableInserted(tuples: seq<Tuple>, schema: Schema, k: nat, tuple: Tuple)
    requires k <= |tuples| && Storable(tuple, schema) && forall i :: 0 <= i < |tuples| ==> Storable(tuples[i], schema)
    ensures var more := InsertAt(tuples, k, tuple); forall i :: 0 <= i < |more| ==> Storable(more[i], schema)
  {
    hide Storable;
  }

  /** Inserting a tuple into a heap page of a table: its tuples are one more, at the
      place of the page. */
  lemma HoldsOneMore(v: PageMap, w: PageMap, t: Table, tuples: seq<Tuple>, tuple: Tuple, rid: EntryId)
    requires Holds(v, t, tuples) && Storable(tuple, t.schema)
    requires HeapInsert(v, w, t.file, Encode(tuple, t.schema), rid) && 1 <= rid.page
    ensures FilePagesOk(v[t.file]) && RowPlace(v[t.file], rid.page) <= |tuples|
    ensures Holds(w, t.(current := rid.page), InsertAt(tuples, RowPlace(v[t.file], rid.page), tuple))
    ensures rid.page + 1 == |w[t.file]| ==> RowPlace(v[t.file], rid.page) == |tuples|
  {
    hide WellFormed, Records, RowsFrom, RowPlace, PageOk, Storable, Encode, FilePagesOk, PagesOk, KindOf, InsertAt,
         RowsOnEveryPage, SchemaPage;
    var rec := Encode(tuple, t.schema);
    InsertAddsRow(v, w, t.file, rec, rid);
    InsertedAtPage(v, w, t.file, rec, rid);
    PagesStayFilled(v, w, t.file, rec, rid);
    EncodeInserted(tuples, t.schema, RowPlace(v[t.file], rid.page), tuple);
    StorableInserted(tuples, t.schema, RowPlace(v[t.file], rid.page), tuple);
  }

  lemma PagesStayFilled(v: PageMap, w: PageMap, file: FileId, rec: Bytes, rid: EntryId)
    requires HeapInsert(v, w, file, rec, rid) && 1 <= rid.page && RowsOnEveryPage(v[file])
    ensures RowsOnEveryPage(w[file])
  {
    hide WellFormed, Records, PageNumber, KindOf;
    forall n | 1 <= n < |w[file]|
      ensures IsHeapPage(w[file][n], n) && (n > 1 ==> Records(w[file][n]) != [])
    {
      PageOkAt(w, PageId(file, n));
      assert n != rid.page ==> w[file][n] == v[file][n];
    }
  }

  lemma InsertedAtPage(v: PageMap, w: PageMap, file: FileId, rec: Bytes, rid: EntryId)
    requires HeapInsert(v, w, file, rec, rid)
    ensures file in v && file in w && |w[file]| == if rid.page == |v[file]| then rid.page + 1 else |v[file]|
    ensures rid.page < |w[file]| && IsHeapPage(w[file][rid.page], rid.page)
    ensures forall n :: 0 <= n < |v[file]| && IsHeapPage(v[file][n], n) ==> IsHeapPage(w[file][n], n)
  {
    hide WellFormed, Records, PageNumber;
    PageOkAt(w, PageId(file, rid.page));
  }

  /** A heap insert leaves every catalog page alone. */
  lemma InsertKeepsCatalog(v: PageMap, w: PageMap, file: FileId, rec: Bytes, rid: EntryId)
    requires HeapInsert(v, w, file, rec, rid) && CatalogPageOk(v)
    ensures CatalogPageOk(w) && w[CATALOG_FILE][0] == v[CATALOG_FILE][0]
  {
  }

  lemma InsertKeepsTables(d: DbState, v: PageMap, w: PageMap, paths: map<Path, FileId>, closed: map<Path, Bytes>,
                          id: nat, tuple: Tuple, rid: EntryId, k: nat)
    requires Consistent(d, v, paths, closed) && id in d.tables && 1 <= rid.page && w.Keys == v.Keys
    ensures var e := WithRow(d, id, rid.page, k, tuple);
            && NamesOk(e.names, e.tables) && TablesOk(e.tables, e.names, w, paths)
            && EntriesOk(e.onPage, e.tables, e.names)
  {
    hide PagesOk, ClosedOk, PathsOk, CatalogPageOk, Loads, RowsOk, FileName;
    ConsistentGives(d, v, paths, closed);
  }

  lemma InsertKeepsRow(d: DbState, v: PageMap, w: PageMap, paths: map<Path, FileId>, closed: map<Path, Bytes>,
                       id: nat, tuple: Tuple, rid: EntryId, name: Bytes)
    requires Consistent(d, v, paths, closed) && id in d.tables && Storable(tuple, d.tables[id].schema)
    requires HeapInsert(v, w, d.tables[id].file, Encode(tuple, d.tables[id].schema), rid) && 1 <= rid.page
    requires FilePagesOk(v[d.tables[id].file]) && name in d.rows
    ensures var e := WithRow(d, id, rid.page, RowPlace(v[d.tables[id].file], rid.page), tuple);
            name in e.rows && RowOk(name, e.rows[name], e.tables, e.names, e.onPage, w)
  {
    hide Consistent, Holds, PagesOk, PageOk, Records, KindOf, Encode, Storable, FilePagesOk, RowPlace, InsertAt;
    RowGives(d, v, paths, closed, name);
    ConsistentGives(d, v, paths, closed);
    var t := d.tables[d.names[name]];
    if d.names[name] == id {
      HoldsOneMore(v, w, t, d.rows[name].tuples, tuple, rid);
    } else {
      FilesApart(d, v, paths, closed, d.names[name], id);
      HoldsKept(v, w, t, d.rows[name].tuples);
      assert TableOk(d.tables[id], id, d.names, v, paths);
    }
  }

  /** Changes outside a table's file do not touch its rows. */
  lemma HoldsKept(v: PageMap, w: PageMap, t: Table, tuples: seq<Tuple>)
    requires Holds(v, t, tuples) && (t.file in v ==> t.file in w && w[t.file] == v[t.file])
    ensures Holds(w, t, tuples)
  {
  }

  /** An insert adds the tuple to its table's rows, if they are known, and nothing else. */
  lemma InsertConsistent(d: DbState, v: PageMap, w: PageMap, paths: map<Path, FileId>, closed: map<Path, Bytes>,
                         id: nat, tuple: Tuple, rid: EntryId)
    requires Consistent(d, v, paths, closed) && id in d.tables && Storable(tuple, d.tables[id].schema)
    requires HeapInsert(v, w, d.tables[id].file, Encode(tuple, d.tables[id].schema), rid) && 1 <= rid.page
    ensures FilePagesOk(v[d.tables[id].file])
    ensures Consistent(WithRow(d, id, rid.page, RowPlace(v[d.tables[id].file], rid.page), tuple), w, paths, closed)
  {
    hide Holds, PagesOk, PageOk, Records, KindOf, Encode, Storable, RowOk, TablesOk, NamesOk, EntriesOk, PathsOk,
         ClosedOk, CatalogPageOk, HeapInsert, RowPlace, FilePagesOk, InsertAt;
    var rec, file := Encode(tuple, d.tables[id].schema), d.tables[id].file;
    HeapInsertPages(v, w, file, rec, rid);
    FileOfMap(v, file);
    InsertKeepsCatalog(v, w, file, rec, rid);
    var k := RowPlace(v[file], rid.page);
    var e := WithRow(d, id, rid.page, k, tuple);
    InsertKeepsTables(d, v, w, paths, closed, id, tuple, rid, k);
    forall name | name in e.rows
      ensures RowOk(name, e.rows[name], e.tables, e.names, e.onPage, w)
    {
      InsertKeepsRow(d, v, w, paths, closed, id, tuple, rid, name);
    }
  }

  lemma HeapInsertPages(v: PageMap, w: PageMap, file: FileId, rec: Bytes, rid: EntryId)
    requires HeapInsert(v, w, file, rec, rid)
    ensures PagesOk(v) && PagesOk(w) && w.Keys == v.Keys && file in v
    ensures forall f :: f in v && f != file ==> w[f] == v[f]
  {
    hide PagesOk;
  }

  // ----- a new table

  /** No table's rows are in this file. */
  ghost predicate Unused(tables: Tables, f: FileId) {
    f != CATALOG_FILE && forall id :: id in tables ==> tables[id].file != f
  }

  /** The pages may have changed in file f and on the catalog page, and f may be new. */
  ghost predicate OthersKept(v: PageMap, w: PageMap, f: FileId) {
    forall g :: g in v ==> g in w && (g != f && g != CATALOG_FILE ==> w[g] == v[g])
  }

  ghost predicate MorePaths(paths: map<Path, FileId>, paths': map<Path, FileId>) {
    forall p :: p in paths ==> p in paths' && paths'[p] == paths[p]
  }

  /** Opening or changing a file that no table uses disturbs no table. */
  lemma UnusedFileChanges(d: DbState, v: PageMap, w: PageMap, paths: map<Path, FileId>, paths': map<Path, FileId>,
                          closed: map<Path, Bytes>, closed': map<Path, Bytes>, f: FileId)
    requires Consistent(d, v, paths, closed) && Unused(d.tables, f)
    requires PagesOk(w) && ClosedOk(closed') && PathsOk(paths') && MorePaths(paths, paths') && OthersKept(v, w, f)
    requires CATALOG_FILE in v ==> w[CATALOG_FILE] == v[CATALOG_FILE]
    ensures Consistent(d, w, paths', closed')
  {
    hide Holds, PagesOk, PathsOk, ClosedOk, FileName;
    ConsistentGives(d, v, paths, closed);
    forall name | name in d.rows
      ensures RowOk(name, d.rows[name], d.tables, d.names, d.onPage, w)
    {
      RowGives(d, v, paths, closed, name);
      NotOnCatalog(d, v, paths, closed, d.names[name]);
      HoldsKept(v, w, d.tables[d.names[name]], d.rows[name].tuples);
    }
  }

  /** The state with a table under a new name. */
  function WithTable(d: DbState, t: Table, rows: Rows, onPage: CatalogMap): DbState {
    d.(tables := d.tables[t.id := t], names := d.names[t.name := t.id], rows := rows, onPage := onPage)
  }

  /** A table on a file that no other uses, under an id that no other has, joins
      without disturbing the others; with a catalog entry and an empty heap page its
      rows are known, too. */
  lemma TableAdded(d: DbState, v: PageMap, w: PageMap, paths: map<Path, FileId>, paths': map<Path, FileId>,
                   closed: map<Path, Bytes>, closed': map<Path, Bytes>, t: Table, rows: Rows, onPage: CatalogMap)
    requires Consistent(d, v, paths, closed) && Unused(d.tables, t.file)
    requires t.name !in d.names && t.id !in d.tables && t.id < MAX_FILE_ID && t.file in w && 1 <= t.current
    requires PagesOk(w) && ClosedOk(closed') && PathsOk(paths') && MorePaths(paths, paths') && OthersKept(v, w, t.file)
    requires FileName(t.name) in paths' && paths'[FileName(t.name)] == t.file
    requires CatalogPageOk(w) && Loads(w, onPage)
    requires (rows == d.rows && onPage == d.onPage) ||
             (rows == d.rows[t.name := Relation(t.schema, [])] && onPage == d.onPage[t.name := EntryOf(t)]
              && Holds(w, t, []))
    ensures Consistent(WithTable(d, t, rows, onPage), w, paths', closed')
  {
    hide Holds, PagesOk, PathsOk, ClosedOk, CatalogPageOk, Loads, RowOk, TablesOk, NamesOk, EntriesOk;
    ConsistentGives(d, v, paths, closed);
    AddedNames(d, v, w, paths, paths', closed, t, rows, onPage);
    var e := WithTable(d, t, rows, onPage);
    forall name | name in e.rows
      ensures RowOk(name, e.rows[name], e.tables, e.names, e.onPage, w)
    {
      if name in d.rows {
        RowNamed(d, v, paths, closed, name);
        OldRowKept(d, v, w, paths, closed, t, rows, onPage, name);
      } else {
        NewRow(d, w, t, rows, onPage);
      }
    }
    RowsAllOk(e.rows, e.tables, e.names, e.onPage, w);
  }

  lemma AddedNames(d: DbState, v: PageMap, w: PageMap, paths: map<Path, FileId>, paths': map<Path, FileId>,
                   closed: map<Path, Bytes>, t: Table, rows: Rows, onPage: CatalogMap)
    requires Consistent(d, v, paths, closed)
    requires t.name !in d.names && t.id !in d.tables && t.id < MAX_FILE_ID && t.file in w && 1 <= t.current
    requires MorePaths(paths, paths') && v.Keys <= w.Keys
    requires FileName(t.name) in paths' && paths'[FileName(t.name)] == t.file
    requires onPage == d.onPage || onPage == d.onPage[t.name := EntryOf(t)]
    ensures var e := WithTable(d, t, rows, onPage);
            && NamesOk(e.names, e.tables) && TablesOk(e.tables, e.names, w, paths')
            && EntriesOk(e.onPage, e.tables, e.names)
  {
    hide PagesOk, ClosedOk, PathsOk, FileName, CatalogPageOk, Loads, RowsOk;
    ConsistentGives(d, v, paths, closed);
  }

  lemma OldRowKept(d: DbState, v: PageMap, w: PageMap, paths: map<Path, FileId>, closed: map<Path, Bytes>,
                   t: Table, rows: Rows, onPage: CatalogMap, name: Bytes)
    requires Consistent(d, v, paths, closed) && OthersKept(v, w, t.file) && Unused(d.tables, t.file)
    requires t.name !in d.names && t.id !in d.tables && name in d.rows && name in rows && rows[name] == d.rows[name]
    requires onPage == d.onPage || onPage == d.onPage[t.name := EntryOf(t)]
    ensures var e := WithTable(d, t, rows, onPage); RowOk(name, rows[name], e.tables, e.names, e.onPage, w)
  {
    hide Consistent, Holds, FileName;
    RowGives(d, v, paths, closed, name);
    ConsistentGives(d, v, paths, closed);
    NotOnCatalog(d, v, paths, closed, d.names[name]);
    HoldsFile(v, d.tables[d.names[name]], d.rows[name].tuples);
    HoldsKept(v, w, d.tables[d.names[name]], d.rows[name].tuples);
  }

  lemma HoldsFile(v: PageMap, t: Table, tuples: seq<Tuple>)
    requires Holds(v, t, tuples)
    ensures t.file in v && Stores(v[t.file], t.schema, tuples)
  {
  }

  lemma NewRow(d: DbState, w: PageMap, t: Table, rows: Rows, onPage: CatalogMap)
    requires rows == d.rows[t.name := Relation(t.schema, [])] && onPage == d.onPage[t.name := EntryOf(t)]
             && Holds(w, t, [])
    ensures var e := WithTable(d, t, rows, onPage); RowOk(t.name, rows[t.name], e.tables, e.names, e.onPage, w)
  {
    hide Holds, FileName;
  }

  lemma RowsAllOk(rows: Rows, tables: Tables, names: Names, onPage: CatalogMap, v: PageMap)
    requires forall name :: name in rows ==> RowOk(name, rows[name], tables, names, onPage, v)
    ensures RowsOk(rows, tables, names, onPage, v)
  {
  }

  /** Once an entry is on the page, a reload finds it too. */
  lemma EntryOnPage(v: PageMap, onPage: CatalogMap, e: CatalogEntry)
    requires PagesOk(v) && CatalogPageOk(v) && Loads(v, onPage)
    requires EntryIsText(e) && EncodeEntry(e).Ok?
    requires InsertAs(v[CATALOG_FILE][0], Catalog, EncodeEntry(e).value).Ok?
    ensures var w := WithPage(v, CATALOG_PAGE, Inserted(v[CATALOG_FILE][0], EncodeEntry(e).value));
            CatalogPageOk(w) && Loads(w, onPage[e.tableName := e])
  {
    hide EncodeEntry, EntryIsText, Load, WellFormed, Records, KindOf, PageNumber, Inserted, InsertOutcome;
    var page, rec := v[CATALOG_FILE][0], EncodeEntry(e).value;
    InsertAppends(page, rec);
    LoadAppended(Records(page), e);
  }
}
