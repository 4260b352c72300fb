/** What a statement answers and does, in terms of relations, fills of pages and SQL
    expressions, and that the engine's statements have that meaning
    (src/execution/executor.rs, src/execution/insert.rs, src/database.rs). */
module Meanings {
  import opened Bytes
  import opened Outcomes
  import opened SlottedPages
  import opened PageFiles
  import opened ClockSweep
  import opened PoolModel
  import opened Storage
  import opened BufferPools
  import opened HeapFiles
  import opened Values
  import opened RecordCodec
  import opened Expressions
  import opened Binding
  import opened SeqScans
  import opened CatalogCodec
  import opened DatabaseState
  import opened Databases
  import opened Sessions

  /** All that decides where a table's inserts go and what they answer: its schema, the
      fills of its file's pages by page number, and the page inserts are tried on. */
  datatype Extent = Extent(schema: Schema, fills: seq<Fill>, current: nat) {
    function CurrentAnswer(len: nat): Outcome<()>
      requires current < |fills|
    {
      if fills[current].kind.Heap? then fills[current].Answer(len) else Err(PageCast)
    }

    /** What an insert of a record of this length answers. */
    function Answer(len: nat): Outcome<()> {
      if len > MAX_RECORD then Err(RecordTooLarge)
      else if current < |fills| && CurrentAnswer(len) != Err(PageFull) then CurrentAnswer(len)
      else if |fills| < MAX_PAGES then Ok(()) else Err(Io)
    }

    /** The record goes to the current page, and not to a new one. */
    predicate Stays(len: nat) {
      current < |fills| && CurrentAnswer(len).Ok?
    }

    function With(len: nat): Extent {
      if Stays(len) then Extent(schema, fills[current := fills[current].With(len)], current)
      else Extent(schema, fills + [Fill(Heap, 0, 0).With(len)], |fills|)
    }

    /** How many of the table's rows stand before the new one. */
    function Place(len: nat): nat {
      RowCount(if Stays(len) then fills[..current + 1] else fills)
    }

    /** Inserts go to the last page, so to the end of the table. */
    predicate InOrder() {
      current + 1 == |fills|
    }
  }

  /** What statements can tell of a database: the rows of the tables whose contents are
      known, the ids of the names in use, the open files and the closed ones, the next
      file id, the catalog in memory, the one its page stands for, the fill of that
      page, and the extents of the tables. */
  datatype Snapshot = Snapshot(rows: Rows, names: Names, paths: map<Path, FileId>, closed: map<Path, Bytes>,
                               nextId: nat, catalog: CatalogMap, onPage: CatalogMap, page: Fill,
                               extents: map<Bytes, Extent>)

  ghost predicate HasExtent(w: World, name: Bytes) {
    && name in w.d.names && w.d.names[name] in w.d.tables
    && w.d.tables[w.d.names[name]].file in w.v && FilePagesOk(w.v[w.d.tables[w.d.names[name]].file])
  }

  ghost function ExtentOf(w: World, name: Bytes): Extent
    requires HasExtent(w, name)
  {
    var t := w.d.tables[w.d.names[name]];
    Extent(t.schema, FillsOf(w.v[t.file]), t.current)
  }

  ghost predicate Seen(w: World) {
    CatalogPageOk(w.v) && forall n :: n in w.d.names ==> HasExtent(w, n)
  }

  lemma ConsistentIsSeen(w: World)
    requires WorldOk(w)
    ensures Seen(w)
  {
    hide PagesOk, FilePagesOk, ClosedOk, PathsOk, CatalogPageOk, Loads, EntriesOk, RowsOk, FileName;
    forall n | n in w.d.names
      ensures HasExtent(w, n)
    {
      assert TableOk(w.d.tables[w.d.names[n]], w.d.names[n], w.d.names, w.v, w.paths);
      FileOfMap(w.v, w.d.tables[w.d.names[n]].file);
    }
  }

  ghost function SnapshotOf(w: World): Snapshot
    requires Seen(w)
  {
    Snapshot(w.d.rows, w.d.names, w.paths, w.closed, w.nextId, w.d.catalog, w.d.onPage, FillOf(w.v[CATALOG_FILE][0]),
             map n | n in w.d.names :: ExtentOf(w, n))
  }

  lemma SnapshotFields(w: World)
    requires Seen(w)
    ensures var s := SnapshotOf(w);
            && s.rows == w.d.rows && s.names == w.d.names && s.paths == w.paths && s.closed == w.closed
            && s.nextId == w.nextId && s.catalog == w.d.catalog && s.onPage == w.d.onPage
            && s.page == FillOf(w.v[CATALOG_FILE][0])
            && s.extents.Keys == w.d.names.Keys && forall n :: n in w.d.names ==> s.extents[n] == ExtentOf(w, n)
  {
    hide FillOf, CatalogPageOk, ExtentOf, HasExtent;
  }

  // ----- what statements mean

  predicate InUse(s: Snapshot, name: Bytes) {
    name in s.names && name in s.extents
  }

  /** The record an INSERT into a table of this schema comes to, or why to none. */
  function Offered(ops: FloatOps, name: Bytes, schema: Schema, values: seq<SqlExpr>): Outcome<Bytes> {
    if !BindAll(values, [NamedSchema(name, schema)]).Ok? then Err(ParseError)
    else Admitted(InsertMeaning(ops, name, schema, values), schema)
  }

  /** What an INSERT answers: why its values come to no record, or what the table's
      pages answer to a record of that length. */
  function InsertAnswer(ops: FloatOps, before: Snapshot, name: Bytes, values: seq<SqlExpr>): Outcome<seq<Tuple>> {
    if !InUse(before, name) then Err(TableNotFound)
    else
      var record :- Offered(ops, name, before.extents[name].schema, values);
      var _ :- before.extents[name].Answer(|record|);
      Ok([])
  }

  /** What an INSERT that answers Ok leaves: one row more, at the place of its page. */
  function WithInserted(ops: FloatOps, before: Snapshot, name: Bytes, values: seq<SqlExpr>): Snapshot
    requires InsertAnswer(ops, before, name, values).Ok?
  {
    var x, tuple := before.extents[name], InsertMeaning(ops, name, before.extents[name].schema, values).value;
    var len := |Offered(ops, name, x.schema, values).value|;
    before.(extents := before.extents[name := x.With(len)], rows := OneMore(before.rows, name, x.Place(len), tuple))
  }

  function EntryAt(before: Snapshot, name: Bytes, schema: Schema): CatalogEntry {
    CatalogEntry(before.nextId, name, FileName(name), schema)
  }

  /** What the catalog page answers to an entry, given its fill. */
  function PageTakes(page: Fill, e: CatalogEntry): Outcome<()> {
    var encoded :- EncodeEntry(e);
    page.Answer(|encoded|)
  }

  /** Neither the name nor its file is there. */
  predicate IsNew(before: Snapshot, name: Bytes) {
    name !in before.names && FileName(name) !in before.paths && FileName(name) !in before.closed
  }

  /** What opening the file of a name answers. */
  function FileAnswer(before: Snapshot, name: Bytes): Outcome<FileId> {
    OpenAnswer(before.paths, before.closed, before.nextId, FileName(name))
  }

  /** What a CREATE TABLE answers: nothing happens for a name in use; else its file is
      opened, and if that is new the catalog page must take the entry. */
  function CreateAnswer(before: Snapshot, name: Bytes, schema: Schema): Outcome<seq<Tuple>> {
    if name in before.names then Ok([])
    else
      var _ :- FileAnswer(before, name);
      var _ :- if IsNew(before, name) then PageTakes(before.page, EntryAt(before, name, schema)) else Ok(());
      Ok([])
  }

  /** A path that was not open is now, under the next file id. */
  function FileOpened(before: Snapshot, path: Path, f: FileId): Snapshot {
    if path in before.paths then before
    else before.(paths := before.paths[path := f], closed := before.closed - {path}, nextId := before.nextId + 1)
  }

  /** A new table: no rows, an empty heap page 1. */
  function EmptyExtent(schema: Schema): Extent {
    Extent(schema, [Fill(Catalog, 0, 0), Fill(Heap, 0, 0)], 1)
  }

  /** What a CREATE TABLE leaves that opened its file under an id. */
  ghost predicate CreateEffect(before: Snapshot, name: Bytes, schema: Schema, f: FileId, ok: bool, after: Snapshot) {
    var s, e := FileOpened(before, FileName(name), f), CatalogEntry(f.id, name, FileName(name), schema);
    if !IsNew(before, name) then
      // the rows and the pages of a file that was there are whatever they are
      && name in after.extents && after.extents[name].schema == schema && after.extents[name].current == 1
      && after == s.(names := s.names[name := f.id], extents := s.extents[name := after.extents[name]])
    else if !ok then after == s.(catalog := s.catalog[name := e])
    else
      && EncodeEntry(e).Ok?
      && after == s.(catalog := s.catalog[name := e], onPage := s.onPage[name := e],
                     page := s.page.With(|EncodeEntry(e).value|), names := s.names[name := f.id],
                     rows := s.rows[name := Relation(schema, [])], extents := s.extents[name := EmptyExtent(schema)])
  }

  /** What a statement answers and does. */
  ghost predicate StepMeaning(ops: FloatOps, before: Snapshot, stmt: Statement, r: Outcome<seq<Tuple>>,
                              after: Snapshot) {
    match stmt
    case Select(name, items, filter) =>
      && after == before
      && (if !InUse(before, name) then r == Err(TableNotFound)
          else
            && (!SelectBinds(items, filter, [NamedSchema(name, before.extents[name].schema)]) ==> r == Err(ParseError))
            && (name in before.rows ==> r == SelectMeaning(ops, name, before.rows[name], items, filter)))
    case Insert(name, values) =>
      && r == InsertAnswer(ops, before, name, values)
      && after == if r.Ok? then WithInserted(ops, before, name, values) else before
    case CreateTable(name, schema) =>
      && r == CreateAnswer(before, name, schema)
      && if name in before.names || !FileAnswer(before, name).Ok? then after == before
         else CreateEffect(before, name, schema, FileAnswer(before, name).value, r.Ok?, after)
  }

  /** What a CREATE TABLE of a new table answers, by the lengths of its names alone: a name
      longer than 252 bytes, a column name longer than 255 or a schema of more than 65535
      bytes does not convert; and the entry goes onto the page, is refused, or is so long
      that the check for room underflows. */
  lemma CreateAnswersExactly(before: Snapshot, name: Bytes, schema: Schema)
    requires IsNew(before, name) && before.nextId != MAX_FILE_ID
    ensures var columns := ColumnBytes(schema, |schema|);
            var size, page := 15 + 2 * |name| + columns, before.page;
            CreateAnswer(before, name, schema) ==
              if |name| > 252 || !NamesFit(schema, |schema|) || columns > 65531 || size > 65535 then Err(IntConversion)
              else if page.used + size > 8192 + 4 * page.count then Panic
              else if page.used + 4 + size > 8173 then Err(PageFull)
              else Ok([])
  {
    hide EncodeEntry, OpenBytes, ColumnBytes, NamesFit;
    OpenEmpty();
    EntryEncodesExactly(EntryAt(before, name, schema));
  }

  // ----- when statements panic

  /** The check for room underflows. */
  predicate Underflows(page: Fill, len: nat) {
    len <= 0xFFFF && page.used + len > PAGE_SIZE + SLOT_SIZE * page.count
  }

  /** What makes a statement panic: in a SELECT the first tuple it does not get past, if
      the WHERE or an item panics on it; in an INSERT a value that does, a Null among as
      many values as there are columns that suit the schema up to it, or a record larger than what
      lies below the lowest one on the current page; a CREATE TABLE by running out of
      file ids, or by an entry larger than that on the catalog page. */
  ghost predicate Panics(ops: FloatOps, before: Snapshot, stmt: Statement) {
    match stmt
    case Select(name, items, filter) =>
      && name in before.rows
      && var rel, tables := before.rows[name], [NamedSchema(name, before.rows[name].schema)];
         SelectBinds(items, filter, tables)
         && exists i: nat :: FirstStop(ops, items, filter, tables, rel.tuples, i)
                             && Stop(ops, items, filter, tables, rel.tuples[i]) == Panic
    case Insert(name, values) =>
      && InUse(before, name) && BindAll(values, [NamedSchema(name, before.extents[name].schema)]).Ok?
      && var x := before.extents[name];
         var meaning, record := InsertMeaning(ops, name, x.schema, values), Offered(ops, name, x.schema, values);
         || meaning == Panic
         || (meaning.Ok? && exists i: nat :: FirstMisfit(x.schema, meaning.value, i) && meaning.value[i].Null?)
         || (record.Ok? && x.current < |x.fills| && x.fills[x.current].kind.Heap?
             && Underflows(x.fills[x.current], |record.value|))
    case CreateTable(name, schema) =>
      && name !in before.names && FileName(name) !in before.paths
      && var e := EncodeEntry(EntryAt(before, name, schema));
         if before.nextId == MAX_FILE_ID
         then FileName(name) in before.closed ==> OpenBytes(before.closed[FileName(name)]).Ok?
         else FileName(name) !in before.closed && e.Ok? && Underflows(before.page, |e.value|)
  }

  /** A statement on tables whose rows are known panics exactly then. */
  lemma PanicsExactly(ops: FloatOps, before: Snapshot, stmt: Statement, r: Outcome<seq<Tuple>>, after: Snapshot)
    requires StepMeaning(ops, before, stmt, r, after)
    requires stmt.Select? && InUse(before, stmt.table) ==> stmt.table in before.rows
    requires forall n :: n in before.rows ==> InUse(before, n)
    ensures r == Panic <==> Panics(ops, before, stmt)
  {
    hide SelectMeaning, SelectBinds, CreateEffect, WithInserted, FirstStop, Stop, FirstMisfit;
    match stmt {
      case Select(name, items, filter) =>
        if name in before.rows {
          var rel := before.rows[name];
          if SelectBinds(items, filter, [NamedSchema(name, rel.schema)]) {
            SelectPanicsExactly(ops, name, rel, items, filter);
          } else {
            NothingBinds(ops, name, rel, items, filter);
          }
        }
      case Insert(name, values) => InsertPanics(ops, before, name, values);
      case CreateTable(name, schema) => CreatePanics(before, name, schema);
    }
  }

  lemma NothingBinds(ops: FloatOps, name: Bytes, rel: Relation, items: seq<SelectItem>, filter: Option<SqlExpr>)
    requires !SelectBinds(items, filter, [NamedSchema(name, rel.schema)])
    ensures SelectMeaning(ops, name, rel, items, filter) == Err(ParseError)
  {
    hide SelectBinds;
  }

  lemma InsertPanics(ops: FloatOps, before: Snapshot, name: Bytes, values: seq<SqlExpr>)
    ensures InsertAnswer(ops, before, name, values) == Panic <==> Panics(ops, before, Insert(name, values))
  {
    hide InsertMeaning, BindAll, IsValidTuple, Encode, FirstMisfit;
    if InUse(before, name) {
      var schema := before.extents[name].schema;
      var meaning := InsertMeaning(ops, name, schema, values);
      if meaning.Ok? { CheckPanicsExactly(schema, meaning.value); }
    }
  }

  /** A SELECT that binds, as a statement: Ok if and only if it gets past every tuple of
      the table; then the tuples of which the WHERE is true, all of them and in order; and
      otherwise what the first tuple stops it with - `InvalidComparison`, if the WHERE is
      neither a truth value nor Null. */
  lemma SelectAnswers(ops: FloatOps, before: Snapshot, name: Bytes, items: seq<SelectItem>, filter: Option<SqlExpr>,
                      r: Outcome<seq<Tuple>>, after: Snapshot)
    requires StepMeaning(ops, before, Select(name, items, filter), r, after) && InUse(before, name)
    requires name in before.rows && SelectBinds(items, filter, [NamedSchema(name, before.rows[name].schema)])
    ensures var tables, tuples := [NamedSchema(name, before.rows[name].schema)], before.rows[name].tuples;
            && after == before
            && (r.Ok? <==> forall i :: 0 <= i < |tuples| ==> Fine(ops, items, filter, tables, tuples[i]))
            && (r.Ok? ==> ShowsAll(ops, items, tables, Filter(tuples, t => Wanted(ops, filter, tables, t)), r.value))
            && (r.Ok? && AllColumns(items) ==> r.value == Filter(tuples, t => Wanted(ops, filter, tables, t)))
            && forall i: nat :: FirstStop(ops, items, filter, tables, tuples, i) ==>
                 r == Stop(ops, items, filter, tables, tuples[i])
  {
    hide SelectMeaning, SelectBinds, Fine, Stop, Filter, ShowsAll, FirstStop, Wanted, AllColumns;
    var rel := before.rows[name];
    SelectExactly(ops, name, rel, items, filter);
    if r.Ok? && AllColumns(items) {
      var tables := [NamedSchema(name, rel.schema)];
      AllColumnsShown(ops, items, tables, Filter(rel.tuples, t => Wanted(ops, filter, tables, t)), r.value);
    }
  }

  lemma CreatePanics(before: Snapshot, name: Bytes, schema: Schema)
    ensures forall ops ::
              CreateAnswer(before, name, schema) == Panic <==> Panics(ops, before, CreateTable(name, schema))
  {
    hide EncodeEntry, FileName, OpenBytes;
    OpenEmpty();
    EntryEncodesExactly(EntryAt(before, name, schema));
  }

  /** A CREATE TABLE that succeeds under an id that another table has. */
  predicate Collides(before: Snapshot, stmt: Statement) {
    && stmt.CreateTable? && stmt.name !in before.names && CreateAnswer(before, stmt.name, stmt.schema).Ok?
    && exists n :: n in before.names && before.names[n] == FileAnswer(before, stmt.name).value.id
  }

  // ----- SELECT

  /** A known table answers to one name only. */
  lemma KnownByName(w: World, name: Bytes)
    requires WorldOk(w)
    ensures name in w.d.names <==> Known(w.d.tables, w.d.names, name)
    ensures name in w.d.names ==> w.d.tables[w.d.names[name]].name == name
    ensures name in w.d.rows ==>
              && name in w.d.names
              && w.d.tables[w.d.names[name]].schema == w.d.rows[name].schema
              && Holds(w.v, w.d.tables[w.d.names[name]], w.d.rows[name].tuples)
  {
    hide Holds, PagesOk, ClosedOk, PathsOk, CatalogPageOk, Loads, TablesOk, EntriesOk, RowsOk, FileName;
    if name in w.d.rows { RowGives(w.d, w.v, w.paths, w.closed, name); }
  }

  lemma SelectHasMeaning(ops: FloatOps, w: World, name: Bytes, items: seq<SelectItem>, filter: Option<SqlExpr>,
                         r: Outcome<seq<Tuple>>)
    requires WorldOk(w) && Seen(w) && Selects(ops, w, name, items, filter, r)
    ensures StepMeaning(ops, SnapshotOf(w), Select(name, items, filter), r, SnapshotOf(w))
  {
    hide Holds, Consistent, SelectBinds, BoundQuery, RowsFrom, SqlSelected, Collected, Stores, FilePagesOk, FillsOf,
         CatalogPageOk, SnapshotOf;
    KnownByName(w, name);
    SnapshotFields(w);
    if name in w.d.rows {
      var t, rel := w.d.tables[w.d.names[name]], w.d.rows[name];
      HoldsFile(w.v, t, rel.tuples);
      if SelectBinds(items, filter, [NamedSchema(name, rel.schema)]) {
        SelectRefines(ops, name, rel, items, filter, w.v[t.file]);
      }
    }
  }

  // ----- INSERT

  /** The pages of a table answer to a record as its extent does. */
  lemma ExtentAnswers(w: World, name: Bytes, rec: Bytes)
    requires PagesOk(w.v) && HasExtent(w, name) && 1 <= w.d.tables[w.d.names[name]].current
    ensures var t, x := w.d.tables[w.d.names[name]], ExtentOf(w, name);
            match StorageAnswer(w.v, t, rec, true)
            case Ok(rid) => x.Answer(|rec|).Ok? && rid.page == (if x.Stays(|rec|) then x.current else |x.fills|)
            case Err(e) => x.Answer(|rec|) == Err(e)
            case Panic => x.Answer(|rec|) == Panic
  {
    hide PagesOk, FilePagesOk, InsertOutcome, FillOf, KindOf, Records, WellFormed;
    var t, x := w.d.tables[w.d.names[name]], ExtentOf(w, name);
    var p := PageId(t.file, t.current);
    if InMap(w.v, p) {
      PageOkAt(w.v, p);
      PageByFill(w.v[t.file], t.current, rec);
    }
  }

  lemma PageByFill(ps: seq<Page>, n: nat, rec: Bytes)
    requires FilePagesOk(ps) && 1 <= n < |ps| && PageOk(ps[n], n)
    ensures FillsOf(ps)[n].kind == KindOf(ps[n])
    ensures InsertOutcome(ps[n], rec) == match FillsOf(ps)[n].Answer(|rec|)
                                         case Ok(_) => Ok(EntryId(n, NumEntries(ps[n])))
                                         case Err(e) => Err(e)
                                         case Panic => Panic
  {
    hide InsertOutcome;
    FillAnswers(ps[n], rec);
  }

  /** What an insert leaves of the extent, and where it puts the row. */
  lemma ExtentGrows(w: World, x: World, name: Bytes, rec: Bytes, rid: EntryId)
    requires HasExtent(w, name) && HasExtent(x, name) && x.d.names == w.d.names && PagesOk(w.v)
    requires var id := w.d.names[name];
             && StorageAnswer(w.v, w.d.tables[id], rec, true) == Ok(rid)
             && HeapInsert(w.v, x.v, w.d.tables[id].file, rec, rid)
             && 1 <= rid.page && 1 <= w.d.tables[id].current
             && x.d.tables[id] == w.d.tables[id].(current := rid.page)
    ensures ExtentOf(x, name) == ExtentOf(w, name).With(|rec|)
    ensures RowPlace(w.v[w.d.tables[w.d.names[name]].file], rid.page) == ExtentOf(w, name).Place(|rec|)
  {
    hide StorageAnswer, FilePagesOk, FillsOf, RowPlace, PagesOk, Extent.Answer, Extent.Stays, RowCount, HeapInsert;
    var t := w.d.tables[w.d.names[name]];
    HeapInsertPages(w.v, x.v, t.file, rec, rid);
    ExtentAnswers(w, name, rec);
    StaysThere(ExtentOf(w, name), |rec|);
    FillInserted(w.v, x.v, t.file, rec, rid);
    if |w.v[t.file]| > 0 { PlaceCounted(w.v[t.file], rid.page); }
  }

  lemma StaysThere(x: Extent, len: nat)
    ensures x.Stays(len) ==> x.current < |x.fills|
  {
  }

  lemma InsertHasMeaning(ops: FloatOps, w: World, x: World, name: Bytes, values: seq<SqlExpr>, r: Outcome<seq<Tuple>>,
                         rid: EntryId)
    requires WorldOk(w) && BoundInserts(ops, w, x, name, values, r, rid)
    ensures WorldOk(x) && Seen(w) && Seen(x)
    ensures StepMeaning(ops, SnapshotOf(w), Insert(name, values), r, SnapshotOf(x))
  {
    hide Holds, Consistent, BindAll, SqlEvalAll, IsValidTuple, Encode, WellTyped, HeapInsert, StorageAnswer, PagesOk,
         FilePagesOk, RowPlace, WithRow, CatalogPageOk, FillsOf, SnapshotOf, Extent.Answer, Admitted, WithInserted;
    KnownByName(w, name);
    ConsistentIsSeen(w);
    SnapshotFields(w);
    if Known(w.d.tables, w.d.names, name)
       && BindAll(values, [NamedSchema(name, w.d.tables[w.d.names[name]].schema)]).Ok? {
      var id, vals := w.d.names[name], InsertMeaning(ops, name, w.d.tables[w.d.names[name]].schema, values);
      var answer: Outcome<()> := if r.Ok? then Ok(()) else r.PropagateFailure();
      InsertKeeps(w, x, id, vals, true, answer, rid);
      ConsistentIsSeen(x);
      CurrentOk(w, id);
      var record := Admitted(vals, w.d.tables[id].schema);
      if record.Ok? { ExtentAnswers(w, name, record.value); }
      if r.Ok? { InsertHasEffect(ops, w, x, name, values, rid); }
    }
  }

  lemma CurrentOk(w: World, id: nat)
    requires WorldOk(w) && id in w.d.tables
    ensures 1 <= w.d.tables[id].current
  {
    hide PagesOk, ClosedOk, PathsOk, NamesOk, CatalogPageOk, Loads, EntriesOk, RowsOk, FileName;
    assert TableOk(w.d.tables[id], id, w.d.names, w.v, w.paths);
  }

  /** The effect of an insert on what statements can tell. */
  lemma InsertHasEffect(ops: FloatOps, w: World, x: World, name: Bytes, values: seq<SqlExpr>, rid: EntryId)
    requires WorldOk(w) && WorldOk(x) && Seen(w) && Seen(x) && BoundInserts(ops, w, x, name, values, Ok([]), rid)
    requires InsertAnswer(ops, SnapshotOf(w), name, values).Ok?
    ensures SnapshotOf(x) == WithInserted(ops, SnapshotOf(w), name, values)
  {
    hide WorldOk, BoundInserts, InsertMeaning, CatalogPageOk, FillOf, SnapshotOf, ExtentOf, HasExtent, Extent.With,
         Extent.Place, Extent.Answer, Admitted, BindAll;
    InsertedFields(ops, w, x, name, values, rid);
    OnlyExtent(w, x, name);
    SnapshotFields(w);
    SnapshotFields(x);
  }

  lemma InsertedFields(ops: FloatOps, w: World, x: World, name: Bytes, values: seq<SqlExpr>, rid: EntryId)
    requires WorldOk(w) && WorldOk(x) && Seen(w) && Seen(x) && BoundInserts(ops, w, x, name, values, Ok([]), rid)
    ensures name in w.d.names && x.d.names == w.d.names && x.d.onPage == w.d.onPage && x.d.catalog == w.d.catalog
    ensures x.paths == w.paths && x.closed == w.closed && x.nextId == w.nextId
    ensures x.v[CATALOG_FILE][0] == w.v[CATALOG_FILE][0]
    ensures forall n :: n in w.d.names && n != name ==> ExtentOf(x, n) == ExtentOf(w, n)
    ensures var e := ExtentOf(w, name);
            var record, meaning := Offered(ops, name, e.schema, values), InsertMeaning(ops, name, e.schema, values);
            && record.Ok? && meaning.Ok? && ExtentOf(x, name) == e.With(|record.value|)
            && x.d.rows == OneMore(w.d.rows, name, e.Place(|record.value|), meaning.value)
  {
    hide Holds, Consistent, BindAll, SqlEvalAll, IsValidTuple, Encode, WellTyped, HeapInsert, StorageAnswer, PagesOk,
         FilePagesOk, RowPlace, InsertAt, CatalogPageOk, FillsOf, Extent.With, Extent.Place, Admitted, SnapshotOf;
    KnownByName(w, name);
    var id, vals := w.d.names[name], InsertMeaning(ops, name, w.d.tables[w.d.names[name]].schema, values);
    var t := w.d.tables[id];
    var rec := Admitted(vals, t.schema).value;
    AdmittedIsStorable(vals, t.schema);
    HeapInsertPages(w.v, x.v, t.file, rec, rid);
    CatalogSame(w, x, t.file, rec, rid);
    CurrentOk(w, id);
    ExtentGrows(w, x, name, rec, rid);
    forall n | n in w.d.names && n != name
      ensures ExtentOf(x, n) == ExtentOf(w, n)
    {
      KnownByName(w, n);
      FilesApart(w.d, w.v, w.paths, w.closed, w.d.names[n], id);
    }
  }

  /** Of the extents only one changed. */
  lemma OnlyExtent(w: World, x: World, name: Bytes)
    requires Seen(w) && Seen(x) && x.d.names == w.d.names && name in w.d.names
    requires forall n :: n in w.d.names && n != name ==> ExtentOf(x, n) == ExtentOf(w, n)
    ensures SnapshotOf(x).extents == SnapshotOf(w).extents[name := ExtentOf(x, name)]
  {
    hide FillOf, CatalogPageOk, ExtentOf, HasExtent;
  }

  lemma CatalogSame(w: World, x: World, file: FileId, rec: Bytes, rid: EntryId)
    requires HeapInsert(w.v, x.v, file, rec, rid) && CatalogPageOk(w.v)
    ensures CatalogPageOk(x.v) && x.v[CATALOG_FILE][0] == w.v[CATALOG_FILE][0]
  {
    InsertKeepsCatalog(w.v, x.v, file, rec, rid);
  }

  // ----- CREATE TABLE

  /** The catalog page answers to an entry as its fill does. */
  lemma EntryByFill(v: PageMap, e: CatalogEntry)
    requires CatalogPageOk(v)
    ensures PageThere(v, CATALOG_PAGE)
    ensures var page := FillOf(v[CATALOG_FILE][0]);
            match EntryAnswer(v, e, true)
            case Ok(_) =>
              && PageTakes(page, e).Ok? && TakesEntry(v, e) && CATALOG_FILE in WithEntry(v, e)
              && |WithEntry(v, e)[CATALOG_FILE]| == |v[CATALOG_FILE]|
              && var added := WithEntry(v, e)[CATALOG_FILE][0];
                 WellFormed(added) && FillOf(added) == page.With(|EncodeEntry(e).value|)
            case Err(x) => PageTakes(page, e) == Err(x)
            case Panic => PageTakes(page, e) == Panic
  {
    hide EncodeEntry, Inserted, InsertOutcome, WellFormed, FillOf, KindOf;
    if EncodeEntry(e).Ok? { FillAnswers(v[CATALOG_FILE][0], EncodeEntry(e).value); }
  }

  /** Changes in a file no table uses and on the catalog page leave the extents alone. */
  lemma OtherExtents(w: World, x: World, t: Table)
    requires WorldOk(w) && Seen(w) && Seen(x) && t.name !in w.d.names
    requires forall g :: g in w.v && g != CATALOG_FILE ==> g in x.v && x.v[g] == w.v[g]
    requires CATALOG_FILE in x.v && CATALOG_FILE in w.v && SameBehindFirst(w.v[CATALOG_FILE], x.v[CATALOG_FILE])
    requires (x.d.names == w.d.names && x.d.tables == w.d.tables)
          || (t.id !in w.d.tables && x.d.names == w.d.names[t.name := t.id] && x.d.tables == w.d.tables[t.id := t])
    ensures forall n :: n in w.d.names ==> ExtentOf(x, n) == ExtentOf(w, n)
  {
    hide PagesOk, FilePagesOk, ClosedOk, PathsOk, Loads, TablesOk, EntriesOk, RowsOk, CatalogPageOk, FillAt;
    forall n | n in w.d.names
      ensures ExtentOf(x, n) == ExtentOf(w, n)
    {
      assert HasExtent(w, n) && HasExtent(x, n);
      var f := w.d.tables[w.d.names[n]].file;
      if f == CATALOG_FILE { SameFills(w.v[f], x.v[f]); }
    }
  }

  predicate SameBehindFirst(ps: seq<Page>, qs: seq<Page>) {
    |ps| == |qs| && forall n :: 1 <= n < |ps| ==> ps[n] == qs[n]
  }

  lemma SameFills(ps: seq<Page>, qs: seq<Page>)
    requires FilePagesOk(ps) && FilePagesOk(qs) && SameBehindFirst(ps, qs)
    ensures FillsOf(ps) == FillsOf(qs)
  {
    hide WellFormed, FillOf, PageNumber;
  }

  lemma CreateHasMeaning(ops: FloatOps, w: World, x: World, name: Bytes, schema: Schema, created: Outcome<nat>)
    requires WorldOk(w) && WorldOk(x) && Seen(w) && Seen(x) && Creates(w, x, name, schema, true, created)
    requires created.Ok? && name !in w.d.names ==> created.value !in w.d.tables
    ensures StepMeaning(ops, SnapshotOf(w), CreateTable(name, schema),
                        if created.Ok? then Ok([]) else created.PropagateFailure(), SnapshotOf(x))
  {
    hide Consistent, OpenBytes, FileName, CatalogPageOk, FillOf, PageTakes, CreateEffect, Adopts, Makes, SnapshotOf,
         HasExtent;
    SnapshotFields(w);
    if name !in w.d.names {
      if FileName(name) in w.paths || FileName(name) in w.closed {
        AdoptHasMeaning(w, x, name, schema, created);
      } else {
        MakeHasMeaning(w, x, name, schema, created);
      }
    }
  }

  /** The extents with one more. */
  lemma MoreExtents(w: World, x: World, name: Bytes, id: nat)
    requires Seen(w) && Seen(x) && x.d.names == w.d.names[name := id]
    requires forall n :: n in w.d.names && n != name ==> ExtentOf(x, n) == ExtentOf(w, n)
    ensures SnapshotOf(x).extents == SnapshotOf(w).extents[name := ExtentOf(x, name)]
  {
    hide ExtentOf, HasExtent, SnapshotOf, CatalogPageOk;
    SnapshotFields(w);
    SnapshotFields(x);
    assert SnapshotOf(x).extents.Keys == SnapshotOf(w).extents[name := ExtentOf(x, name)].Keys;
  }

  lemma AdoptHasMeaning(w: World, x: World, name: Bytes, schema: Schema, created: Outcome<nat>)
    requires WorldOk(w) && Seen(w) && Seen(x) && Adopts(w, x, name, schema, created) && name !in w.d.names
    requires FileName(name) in w.paths || FileName(name) in w.closed
    requires created.Ok? ==> created.value !in w.d.tables
    ensures var s, f := SnapshotOf(w), FileAnswer(SnapshotOf(w), name);
            && (created.Ok? <==> f.Ok?) && (!f.Ok? ==> created == f.PropagateFailure() && SnapshotOf(x) == s)
            && (f.Ok? ==> CreateEffect(s, name, schema, f.value, true, SnapshotOf(x)))
            && !IsNew(s, name)
  {
    hide Consistent, EncodeEntry, OpenBytes, FileName, FillOf, FreshTable, CatalogPageOk, SnapshotOf, HasExtent,
         FillsOf, FilePagesOk, CreateEffect, WorldOk, Seen;
    var f := OpenAnswer(w.paths, w.closed, w.nextId, FileName(name));
    SnapshotFields(w);
    SnapshotFields(x);
    if f.Ok? {
      HasCatalog(w);
      SamePageThere(w, x);
      OtherExtents(w, x, Table(f.value.id, f.value, name, schema, 1));
      MoreExtents(w, x, name, f.value.id);
      AdoptedExtent(x, Table(f.value.id, f.value, name, schema, 1));
      EffectOf(SnapshotOf(w), SnapshotOf(x), name, schema, f.value, true);
    } else {
      assert x == w;
    }
  }

  lemma AdoptedExtent(x: World, t: Table)
    requires Seen(x) && t.name in x.d.names && x.d.names[t.name] == t.id && t.id in x.d.tables && x.d.tables[t.id] == t
    ensures HasExtent(x, t.name) && ExtentOf(x, t.name).schema == t.schema && ExtentOf(x, t.name).current == t.current
  {
    hide FilePagesOk, FillsOf, CatalogPageOk;
  }

  /** The effect from the single fields. */
  lemma EffectOf(s: Snapshot, u: Snapshot, name: Bytes, schema: Schema, f: FileId, ok: bool)
    requires var o, e := FileOpened(s, FileName(name), f), CatalogEntry(f.id, name, FileName(name), schema);
             && u.paths == o.paths && u.closed == o.closed && u.nextId == o.nextId
             && u.catalog == (if IsNew(s, name) then s.catalog[name := e] else s.catalog)
             && u.names == (if ok then s.names[name := f.id] else s.names)
             && if ok && IsNew(s, name) then
                  && EncodeEntry(e).Ok? && u.page == s.page.With(|EncodeEntry(e).value|)
                  && u.onPage == s.onPage[name := e] && u.rows == s.rows[name := Relation(schema, [])]
                  && u.extents == s.extents[name := EmptyExtent(schema)]
                else
                  && u.page == s.page && u.onPage == s.onPage && u.rows == s.rows
                  && if ok then
                       && name in u.extents && u.extents == s.extents[name := u.extents[name]]
                       && u.extents[name].schema == schema && u.extents[name].current == 1
                     else u.extents == s.extents
    requires !ok ==> IsNew(s, name)
    ensures CreateEffect(s, name, schema, f, ok, u)
  {
    hide EncodeEntry, FileName, IsNew;
  }

  lemma SamePageThere(w: World, x: World)
    requires CatalogPageOk(w.v) && forall g :: g in w.v ==> g in x.v && x.v[g] == w.v[g]
    ensures CATALOG_FILE in w.v && CATALOG_FILE in x.v && |w.v[CATALOG_FILE]| > 0
    ensures x.v[CATALOG_FILE] == w.v[CATALOG_FILE]
  {
  }

  lemma MakeHasMeaning(w: World, x: World, name: Bytes, schema: Schema, created: Outcome<nat>)
    requires WorldOk(w) && Seen(w) && Seen(x) && Makes(w, x, name, schema, true, created) && name !in w.d.names
    requires FileName(name) !in w.paths && FileName(name) !in w.closed
    requires created.Ok? ==> created.value !in w.d.tables
    ensures var s, f := SnapshotOf(w), FileAnswer(SnapshotOf(w), name);
            && IsNew(s, name) && f == (if w.nextId == MAX_FILE_ID then Panic else Ok(FileId(w.nextId)))
            && (!f.Ok? ==> created == Panic && SnapshotOf(x) == s)
            && (f.Ok? ==>
                  var taken := PageTakes(s.page, EntryAt(s, name, schema));
                  && (created.Ok? <==> taken.Ok?) && (!taken.Ok? ==> created == taken.PropagateFailure())
                  && CreateEffect(s, name, schema, f.value, created.Ok?, SnapshotOf(x)))
  {
    hide Consistent, EncodeEntry, OpenBytes, FileName, FillOf, PageTakes, TakesEntry, WithEntry, FreshTable,
         EntryAnswer, CatalogPageOk, SnapshotOf, HasExtent, EmptyTable, FillsOf, FilePagesOk, ExtentOf, CreateEffect,
         WorldOk;
    var t := NewTableAt(FileId(w.nextId), name, schema);
    SnapshotFields(w);
    SnapshotFields(x);
    OpenEmpty();
    if w.nextId != MAX_FILE_ID {
      HasCatalog(w);
      EntryByFill(w.v, EntryOf(t));
      FirstPageOnly(w.v, x.v, EntryOf(t), created.Ok?);
      OtherExtents(w, x, t);
      if created.Ok? {
        NewExtent(x, t);
        MoreExtents(w, x, name, t.id);
      } else {
        SameExtents(w, x);
      }
      EntryEncodes(SnapshotOf(w).page, EntryOf(t));
      EffectOf(SnapshotOf(w), SnapshotOf(x), name, schema, t.file, created.Ok?);
    }
  }

  lemma HasCatalog(w: World)
    requires WorldOk(w)
    ensures CatalogPageOk(w.v)
  {
    hide PagesOk, ClosedOk, PathsOk, NamesOk, CatalogPageOk, Loads, TablesOk, EntriesOk, RowsOk;
  }

  lemma EntryEncodes(page: Fill, e: CatalogEntry)
    ensures PageTakes(page, e).Ok? ==> EncodeEntry(e).Ok?
  {
    hide EncodeEntry;
  }

  lemma SameExtents(w: World, x: World)
    requires Seen(w) && Seen(x) && x.d.names == w.d.names
    requires forall n :: n in w.d.names ==> ExtentOf(x, n) == ExtentOf(w, n)
    ensures SnapshotOf(x).extents == SnapshotOf(w).extents
  {
    hide ExtentOf, HasExtent, SnapshotOf, CatalogPageOk;
    SnapshotFields(w);
    SnapshotFields(x);
  }

  lemma FirstPageOnly(v: PageMap, w: PageMap, e: CatalogEntry, taken: bool)
    requires CatalogPageOk(v) && CATALOG_FILE in w
    requires if taken then TakesEntry(v, e) && w[CATALOG_FILE] == WithEntry(v, e)[CATALOG_FILE]
             else w[CATALOG_FILE] == v[CATALOG_FILE]
    ensures CATALOG_FILE in v && SameBehindFirst(v[CATALOG_FILE], w[CATALOG_FILE])
  {
    hide EncodeEntry, Inserted, InsertOutcome, WellFormed;
  }

  lemma NewExtent(x: World, t: Table)
    requires HasExtent(x, t.name) && x.d.names[t.name] == t.id && t.id in x.d.tables && x.d.tables[t.id] == t
    requires t.file in x.v && EmptyTable(x.v[t.file], t.schema) && t.current == 1
    ensures ExtentOf(x, t.name) == EmptyExtent(t.schema)
  {
    hide WellFormed, Records, FillOf;
    var ps := x.v[t.file];
    assert PageOk(ps[1], 1);
    EmptyFill(ps[1]);
    assert FillsOf(ps) == [Fill(Catalog, 0, 0), Fill(Heap, 0, 0)];
  }

  lemma EmptyFill(p: Page)
    requires WellFormed(p) && KindOf(p).Heap? && RowsOf(p) == []
    ensures FillOf(p) == Fill(Heap, 0, 0)
  {
    FillAnswers(p, []);
  }

  // ----- one statement

  /** One statement, bound, planned and executed, on any database. */
  method Execute(db: Database, ops: FloatOps, stmt: Statement) returns (r: Outcome<seq<Tuple>>)
    requires db.Usable() && |db.pool.frames| > 0 && StatementIsText(stmt)
    modifies db, db.pool, db.pool.frames, db.pool.buffers, db.pool.storage
    ensures db.Usable()
    ensures old(db.Valid()) && Seen(old(db.World())) && !Collides(SnapshotOf(old(db.World())), stmt) ==>
              && db.Valid() && Seen(db.World())
              && StepMeaning(ops, SnapshotOf(old(db.World())), stmt, r, SnapshotOf(db.World()))
  {
    hide db.pool.Valid, db.pool.Pages, SelectMeaning, InsertMeaning, NamesAreText, ValidUtf8, IsText, WorldOk, Seen,
         StepMeaning, Collides, Selects, BoundInserts, Creates, PagesOk, ClosedOk, PathsOk;
    ghost var w := db.World();
    db.UsablePool();
    match stmt {
      case Select(name, items, filter) =>
        r := RunSelect(db, ops, name, items, filter);
        if old(db.Valid()) { ConsistentIsSeen(w); SelectHasMeaning(ops, w, name, items, filter, r); }
      case Insert(name, values) =>
        ghost var rid;
        r, rid := RunInsert(db, ops, name, values);
        if old(db.Valid()) { InsertHasMeaning(ops, w, db.World(), name, values, r, rid); }
      case CreateTable(name, schema) =>
        var created := db.CreateTable(name, schema);
        r := if created.Ok? then Ok([]) else created.PropagateFailure();
        db.UsablePool();
        if old(db.Valid()) && Seen(w) && !Collides(SnapshotOf(w), stmt) {
          CreateIsNoCollision(w, db.World(), name, schema, created);
          CreateKeeps(w, db.World(), name, schema, true, created);
          ConsistentIsSeen(db.World());
          CreateHasMeaning(ops, w, db.World(), name, schema, created);
        }
    }
  }

  /** Where nothing collides, the new table's id is no other's. */
  lemma CreateIsNoCollision(w: World, x: World, name: Bytes, schema: Schema, created: Outcome<nat>)
    requires WorldOk(w) && Seen(w) && Creates(w, x, name, schema, true, created)
    requires !Collides(SnapshotOf(w), CreateTable(name, schema))
    ensures created.Ok? && name !in w.d.names ==> created.value !in w.d.tables
  {
    hide EncodeEntry, OpenBytes, FileName, FillOf, PageTakes, TakesEntry, EntryAnswer, WithEntry, EmptyTable,
         FreshTable, WorldOk, CatalogPageOk, SnapshotOf, HasExtent;
    OpenEmpty();
    HasCatalog(w);
    SnapshotFields(w);
    EntryByFill(w.v, EntryOf(NewTableAt(FileId(w.nextId), name, schema)));
    IdsAreNamed(w);
  }

  /** Table ids are the ids of the names. */
  lemma IdsAreNamed(w: World)
    requires WorldOk(w)
    ensures forall id :: id in w.d.tables <==> exists n :: n in w.d.names && w.d.names[n] == id
  {
    hide PagesOk, ClosedOk, PathsOk, CatalogPageOk, Loads, EntriesOk, RowsOk, FileName;
    forall id | id in w.d.tables
      ensures exists n :: n in w.d.names && w.d.names[n] == id
    {
      assert TableOk(w.d.tables[id], id, w.d.names, w.v, w.paths);
      assert w.d.names[w.d.tables[id].name] == id;
    }
  }
}
