/** The life of a database: statements, shutdowns and new starts in any order, and what
    its tables and its catalog hold at the end (src/execution/executor.rs, src/database.rs). */
module Lives {
  import opened Bytes
  import opened Outcomes
  import opened SlottedPages
  import opened PageFiles
  import opened PoolModel
  import opened Storage
  import opened BufferPools
  import opened HeapFiles
  import opened Values
  import opened RecordCodec
  import opened Expressions
  import opened SeqScans
  import opened CatalogCodec
  import opened DatabaseState
  import opened Databases
  import opened Sessions
  import opened Meanings
  import opened Restarts

  datatype Event =
    | Do(stmt: Statement)
    | Again(numFrames: nat)

  /** Events, what they answered, and what statements could tell before and after each. */
  datatype Life = Life(events: seq<Event>, answers: seq<Outcome<seq<Tuple>>>, history: seq<Snapshot>)

  predicate EventOk(e: Event) {
    match e
    case Do(stmt) => StatementIsText(stmt)
    case Again(numFrames) => numFrames > 0
  }

  /** A statement that gives no id out twice has its meaning; a restart always succeeds. */
  ghost predicate EventMeaning(ops: FloatOps, before: Snapshot, e: Event, r: Outcome<seq<Tuple>>, after: Snapshot) {
    match e
    case Do(stmt) => !Collides(before, stmt) && StepMeaning(ops, before, stmt, r, after)
    case Again(_) => r == Ok([]) && Restarted(before, after)
  }

  /** What the fills of a table's pages say of its rows: how many there are, that all
      pages behind page 0 are heap pages and only the first can be empty, and that small
      rows fill the current page slowly. */
  ghost predicate FillsFit(x: Extent, rel: Relation) {
    && x.schema == rel.schema && RowCount(x.fills) == |rel.tuples| && 1 <= x.current < |x.fills|
    && (forall i :: 1 <= i < |x.fills| ==> x.fills[i].kind.Heap? && (i > 1 ==> x.fills[i].count > 0))
    && var fill := x.fills[x.current];
       && fill.used <= PAGE_SIZE - HEADER_SIZE
       && (SmallRows(rel.tuples, rel.schema) ==> fill.used <= (SMALL + SLOT_SIZE) * fill.count)
  }

  /** Rows are known of tables in the catalog, which have names of their own and extents;
      open files have ids of their own, all handed out already. */
  ghost predicate Sane(s: Snapshot) {
    && (forall n :: n in s.rows ==> n in s.onPage && n in s.extents && FillsFit(s.extents[n], s.rows[n]))
    && (forall n :: n in s.onPage ==> n in s.names && s.names[n] == s.onPage[n].tableId && FileName(n) in s.paths)
    && CATALOG_NAME in s.names && CATALOG_NAME !in s.onPage && s.extents.Keys == s.names.Keys
    && (forall p, q :: p in s.paths && q in s.paths && s.paths[p] == s.paths[q] ==> p == q)
    && (forall p :: p in s.paths ==> s.paths[p].id < s.nextId)
  }

  ghost predicate IsLife(ops: FloatOps, life: Life) {
    && |life.history| == |life.answers| + 1 && |life.answers| <= |life.events|
    && (forall i :: 0 <= i < |life.history| ==> Sane(life.history[i]))
    && forall i {:trigger life.answers[i]} :: 0 <= i < |life.answers| ==>
         EventMeaning(ops, life.history[i], life.events[i], life.answers[i], life.history[i + 1])
  }

  lemma StepOf(ops: FloatOps, life: Life, i: nat)
    requires IsLife(ops, life) && i < |life.answers|
    ensures EventMeaning(ops, life.history[i], life.events[i], life.answers[i], life.history[i + 1])
    ensures Sane(life.history[i]) && Sane(life.history[i + 1])
  {
    hide EventMeaning, Sane;
    assert life.answers[i] == life.answers[i];
  }

  /** Why a life ends before its last event: a panic, or a table id about to be given out
      a second time. */
  ghost predicate Ends(life: Life) {
    |life.answers| < |life.events| ==>
      || (life.answers != [] && life.answers[|life.answers| - 1] == Panic)
      || (|life.history| == |life.answers| + 1 && life.events[|life.answers|].Do?
          && Collides(life.history[|life.answers|], life.events[|life.answers|].stmt))
  }

  // ----- running one

  /** A database that keeps its promises, and what statements can tell of it. */
  ghost predicate Alive(db: Database, s: Snapshot)
    reads db, db.pool, db.pool.storage, db.pool.frames, db.pool.buffers
  {
    db.Valid() && |db.pool.frames| > 0 && Seen(db.World()) && SnapshotOf(db.World()) == s
  }

  lemma AliveIsSane(db: Database, s: Snapshot)
    requires Alive(db, s)
    ensures Sane(s)
  {
    hide Consistent, FillOf, CatalogPageOk, Inv, View, ExtentOf, HasExtent, SnapshotOf, FillsFit, FileName;
    SnapshotFields(db.World());
    db.pool.PathsOk();
    NamedAll(db.World());
    forall n | n in s.rows
      ensures n in s.extents && FillsFit(s.extents[n], s.rows[n])
    {
      RowsFit(db.World(), n);
    }
  }

  lemma NamedAll(w: World)
    requires WorldOk(w)
    ensures forall n :: n in w.d.rows ==> n in w.d.onPage
    ensures forall n :: n in w.d.onPage ==>
              n in w.d.names && w.d.names[n] == w.d.onPage[n].tableId && FileName(n) in w.paths
    ensures CATALOG_NAME in w.d.names && CATALOG_NAME !in w.d.onPage
  {
    hide PagesOk, ClosedOk, PathsOk, CatalogPageOk, Loads, Holds, FileName;
    forall n | n in w.d.onPage
      ensures n in w.d.names && w.d.names[n] == w.d.onPage[n].tableId && FileName(n) in w.paths
    {
      assert TableOk(w.d.tables[w.d.names[n]], w.d.names[n], w.d.names, w.v, w.paths);
    }
  }

  lemma RowsFit(w: World, n: Bytes)
    requires WorldOk(w) && n in w.d.rows
    ensures n in w.d.names && HasExtent(w, n) && FillsFit(ExtentOf(w, n), w.d.rows[n])
  {
    hide Consistent, PagesOk, CatalogPageOk, FilePagesOk, FillsOf, RowsFrom, Encode, Holds, SmallRows;
    KnownByName(w, n);
    ConsistentIsSeen(w);
    WorldPages(w);
    assert HasExtent(w, n);
    FillsOfHeld(w.v, w.d.tables[w.d.names[n]], w.d.rows[n].tuples);
  }

  lemma WorldPages(w: World)
    requires WorldOk(w)
    ensures PagesOk(w.v)
  {
    hide PagesOk, ClosedOk, PathsOk, CatalogPageOk, Loads, TablesOk, NamesOk, EntriesOk, RowsOk;
  }

  lemma FillsOfHeld(v: PageMap, t: Table, tuples: seq<Tuple>)
    requires PagesOk(v) && Holds(v, t, tuples)
    ensures FilePagesOk(v[t.file])
    ensures FillsFit(Extent(t.schema, FillsOf(v[t.file]), t.current), Relation(t.schema, tuples))
  {
    hide PagesOk, Encode, WellFormed, Records, FillOf, KindOf, RowsFrom, SmallRows, PageNumber;
    var ps := v[t.file];
    PlaceCounted(ps, 1);
    assert |EncodeAll(tuples, t.schema)| == |tuples|;
    forall i | 1 <= i < |ps|
      ensures FillsOf(ps)[i].kind.Heap? && (i > 1 ==> FillsOf(ps)[i].count > 0)
    {
      assert IsHeapPage(ps[i], i);
      CountOf(ps[i]);
    }
    assert IsHeapPage(ps[t.current], t.current);
    FillBounded(ps[t.current]);
    if SmallRows(tuples, t.schema) { SmallRowsLeaveRoom(v, t, tuples); }
  }

  lemma LifeGrows(ops: FloatOps, life: Life, r: Outcome<seq<Tuple>>, after: Snapshot)
    requires IsLife(ops, life) && |life.answers| < |life.events| && Sane(after)
    requires EventMeaning(ops, life.history[|life.answers|], life.events[|life.answers|], r, after)
    ensures IsLife(ops, Life(life.events, life.answers + [r], life.history + [after]))
  {
    hide EventMeaning, Sane;
  }

  /** The fill of the catalog page, read without changing anything. */
  method CatalogFill(db: Database, ghost s: Snapshot) returns (fill: Fill)
    requires Alive(db, s)
    modifies db.pool, db.pool.frames, db.pool.buffers, db.pool.storage`files
    ensures Alive(db, s) && db.World() == old(db.World()) && fill == s.page
  {
    hide db.pool.Valid, db.pool.Pages, FillOf, SnapshotOf, WorldOk, Seen, CatalogPageOk, WellFormed, KindOf;
    CatalogFilled(db.World());
    ghost var w := db.World();
    var got := db.pool.GetPage(CATALOG_PAGE);
    var page := db.pool.ReadGuard(got.value);
    db.pool.DropGuard(got.value);
    fill := FillOf(page);
    assert db.World() == w;
  }

  lemma CatalogFilled(w: World)
    requires WorldOk(w) && Seen(w)
    ensures InMap(w.v, CATALOG_PAGE) && WellFormed(w.v[CATALOG_FILE][0])
    ensures SnapshotOf(w).page == FillOf(w.v[CATALOG_FILE][0])
  {
    hide FillOf, ExtentOf, HasExtent, SnapshotOf, WorldOk;
    SnapshotFields(w);
  }

  /** Whether a statement would give out an id twice, found out without changing anything. */
  method WouldCollide(db: Database, stmt: Statement, ghost s: Snapshot) returns (collides: bool)
    requires Alive(db, s)
    modifies db.pool, db.pool.frames, db.pool.buffers, db.pool.storage`files
    ensures Alive(db, s) && (collides <==> Collides(s, stmt))
  {
    hide db.pool.Valid, db.pool.Pages, Alive, Collides;
    AliveFields(db, s);
    if !stmt.CreateTable? || stmt.name in db.tableNames {
      NoCollision(s, stmt);
      return false;
    }
    var storage := db.pool.storage;
    var f := OpenAnswer(storage.paths, storage.closed, storage.nextId, FileName(stmt.name));
    var inUse := f.Ok? && f.value.id in db.tables;
    var there := FileName(stmt.name) in storage.paths || FileName(stmt.name) in storage.closed;
    var e := CatalogEntry(storage.nextId, stmt.name, FileName(stmt.name), stmt.schema);
    var fill := CatalogFill(db, s);
    collides := inUse && (there || PageTakes(fill, e).Ok?);
    CollidesIf(s, stmt, inUse);
  }

  lemma AliveFields(db: Database, s: Snapshot)
    requires Alive(db, s)
    ensures db.pool.Valid() && s.names == db.tableNames && s.paths == db.pool.storage.paths
    ensures s.closed == db.pool.storage.closed && s.nextId == db.pool.storage.nextId
    ensures forall id :: id in db.tables <==> exists n :: n in s.names && s.names[n] == id
  {
    hide FillOf, ExtentOf, HasExtent, SnapshotOf, Consistent, Inv, View;
    SnapshotFields(db.World());
    IdsAreNamed(db.World());
  }

  lemma NoCollision(s: Snapshot, stmt: Statement)
    requires !stmt.CreateTable? || stmt.name in s.names
    ensures !Collides(s, stmt)
  {
  }

  lemma CollidesIf(s: Snapshot, stmt: Statement, inUse: bool)
    requires stmt.CreateTable? && stmt.name !in s.names
    requires var f := FileAnswer(s, stmt.name);
             inUse <==> f.Ok? && exists n :: n in s.names && s.names[n] == f.value.id
    ensures Collides(s, stmt) <==>
              inUse && (!IsNew(s, stmt.name) || PageTakes(s.page, EntryAt(s, stmt.name, stmt.schema)).Ok?)
  {
    hide PageTakes, OpenBytes, FileName;
  }

  method Begin(disk: map<Path, Bytes>, numFrames: nat) returns (db: Database, ghost s: Snapshot)
    requires NewDirectory(disk) && numFrames > 0
    ensures fresh(db) && fresh(db.pool) && fresh(db.pool.storage) && fresh(db.pool.frames) && fresh(db.pool.buffers)
    ensures Alive(db, s) && FirstSnapshot(s, disk)
  {
    hide NewDirectory, FirstSnapshot, SnapshotOf, Consistent, Inv, Seen;
    db := FirstStart(disk, numFrames);
    s := SnapshotOf(db.World());
  }

  /** Start in a new directory and let the events happen one after the other. */
  method Live(disk: map<Path, Bytes>, numFrames: nat, ops: FloatOps, events: seq<Event>)
    returns (db: Database, answers: seq<Outcome<seq<Tuple>>>, ghost life: Life)
    requires NewDirectory(disk) && numFrames > 0 && forall i :: 0 <= i < |events| ==> EventOk(events[i])
    ensures IsLife(ops, life) && life.events == events && life.answers == answers
    ensures FirstSnapshot(life.history[0], disk) && Ends(life)
    ensures fresh(db) && fresh(db.pool) && fresh(db.pool.storage) && fresh(db.pool.frames) && fresh(db.pool.buffers)
    ensures Alive(db, life.history[|answers|])
  {
    hide NewDirectory, EventOk, IsLife, Sane, EventMeaning, FirstSnapshot, Alive, Collides, Ends;
    answers := [];
    ghost var s;
    db, s := Begin(disk, numFrames);
    AliveIsSane(db, s);
    life := Life(events, [], [s]);
    NewLife(ops, life);
    for i := 0 to |events|
      invariant fresh(db) && fresh(db.pool) && fresh(db.pool.storage) && fresh(db.pool.frames) && fresh(db.pool.buffers)
      invariant IsLife(ops, life) && life.events == events && life.answers == answers && |answers| == i
      invariant |life.history| == i + 1 && life.history[i] == s && FirstSnapshot(life.history[0], disk) && Alive(db, s)
    {
      assert EventOk(events[i]);
      if events[i].Do? {
        var collides := WouldCollide(db, events[i].stmt, s);
        if collides {
          EndsColliding(life);
          return;
        }
      }
      var r;
      ghost var before := life;
      db, r, s := Happen(db, ops, events[i], s);
      AliveIsSane(db, s);
      LifeGrows(ops, before, r, s);
      answers := answers + [r];
      life := Life(events, answers, before.history + [s]);
      if r == Panic {
        EndsByPanic(life);
        return;
      }
    }
    EndsWithAll(life);
  }

  lemma EndsColliding(life: Life)
    requires |life.answers| < |life.events| && |life.history| == |life.answers| + 1
    requires life.events[|life.answers|].Do?
    requires Collides(life.history[|life.answers|], life.events[|life.answers|].stmt)
    ensures Ends(life)
  {
    hide Collides;
  }

  lemma EndsByPanic(life: Life)
    requires life.answers != [] && life.answers[|life.answers| - 1] == Panic
    ensures Ends(life)
  {
    hide Collides;
  }

  lemma EndsWithAll(life: Life)
    requires |life.answers| == |life.events|
    ensures Ends(life)
  {
  }

  /** One event: a statement, or shutting down and starting again. */
  method Happen(db: Database, ops: FloatOps, e: Event, ghost before: Snapshot)
    returns (after: Database, r: Outcome<seq<Tuple>>, ghost s: Snapshot)
    requires Alive(db, before) && EventOk(e)
    requires e.Do? ==> !Collides(before, e.stmt)
    modifies db, db.pool, db.pool.frames, db.pool.buffers, db.pool.storage
    ensures after == db || (fresh(after) && fresh(after.pool) && fresh(after.pool.storage) && fresh(after.pool.frames)
                            && fresh(after.pool.buffers))
    ensures Alive(after, s) && EventMeaning(ops, before, e, r, s)
  {
    hide db.Valid, StepMeaning, Restarted, SnapshotOf, Collides, Seen, StatementIsText, db.World, db.Usable;
    PoolIsValid(db);
    match e {
      case Do(stmt) =>
        db.ValidIsUsable();
        r := Execute(db, ops, stmt);
        PoolIsValid(db);
        after := db;
      case Again(numFrames) =>
        var opened_ := Restart(db, numFrames);
        after := opened_.value;
        PoolIsValid(after);
        r := Ok([]);
    }
    s := SnapshotOf(after.World());
  }

  lemma PoolIsValid(db: Database)
    requires db.Valid()
    ensures db.pool.Valid()
  {
  }

  lemma NewLife(ops: FloatOps, life: Life)
    requires |life.history| == 1 && life.answers == [] && Sane(life.history[0])
    ensures IsLife(ops, life)
  {
  }
}
