/** What the catalog stands for at any point of a database's life, in memory and on its
    page, and when table ids are given out twice. */
module LifeCatalog {
  import opened Bytes
  import opened Outcomes
  import opened SlottedPages
  import opened PageFiles
  import opened ClockSweep
  import opened PoolModel
  import opened Storage
  import opened HeapFiles
  import opened Values
  import opened Expressions
  import opened CatalogCodec
  import opened DatabaseState
  import opened Databases
  import opened Sessions
  import opened Meanings
  import opened Restarts
  import opened Lives
  import opened LifeRows

  predicate IsCreate(e: Event) {
    e.Do? && e.stmt.CreateTable?
  }

  /** Nothing but a CREATE TABLE changes names, files or catalogs. */
  lemma OthersMakeNone(ops: FloatOps, before: Snapshot, stmt: Statement, r: Outcome<seq<Tuple>>, after: Snapshot)
    requires StepMeaning(ops, before, stmt, r, after) && !stmt.CreateTable?
    ensures after == before.(rows := after.rows, extents := after.extents)
  {
    hide SelectMeaning, InsertAnswer, Offered, OneMore, SelectBinds;
  }

  /** What a CREATE TABLE of a new table leaves that the catalog page takes. */
  lemma MadeNew(ops: FloatOps, before: Snapshot, name: Bytes, schema: Schema, r: Outcome<seq<Tuple>>, after: Snapshot)
    requires StepMeaning(ops, before, CreateTable(name, schema), r, after) && IsNew(before, name)
    requires before.nextId != MAX_FILE_ID && PageTakes(before.page, EntryAt(before, name, schema)).Ok?
    ensures var e := EntryAt(before, name, schema);
            && r == Ok([]) && EncodeEntry(e).Ok? && after.page == before.page.With(|EncodeEntry(e).value|)
            && after.onPage == before.onPage[name := e] && after.catalog == before.catalog[name := e]
            && after.names == before.names[name := before.nextId] && after.nextId == before.nextId + 1
            && after.paths == before.paths[FileName(name) := FileId(before.nextId)]
            && after.closed == before.closed - {FileName(name)}
            && after.rows == before.rows[name := Relation(schema, [])]
            && after.extents == before.extents[name := EmptyExtent(schema)]
  {
    hide EncodeEntry, FileName, OpenBytes, PageTakes;
    OpenEmpty();
  }

  /** The entries of the tables made up to event b. */
  ghost function MadeEntries(life: Life, b: nat): CatalogMap
    requires b <= |life.answers| <= |life.events| && |life.history| == |life.answers| + 1
  {
    if b == 0 then map[]
    else
      var e := life.events[b - 1];
      if e.Do? && e.stmt.CreateTable? && MakesTable(life, b - 1, e.stmt.name, e.stmt.schema)
      then MadeEntries(life, b - 1)[e.stmt.name := EntryAt(life.history[b - 1], e.stmt.name, e.stmt.schema)]
      else MadeEntries(life, b - 1)
  }

  /** What the catalog page stands for is exactly the tables made, restarts or not. */
  lemma {:induction false} CatalogIsCreates(ops: FloatOps, life: Life, b: nat)
    requires IsLife(ops, life) && life.history[0].onPage == map[] && b <= |life.answers|
    ensures life.history[b].onPage == MadeEntries(life, b)
  {
    hide FileName, IsLife, EventMeaning, MakesTable, EntryAt, Sane;
    LifeSizes(ops, life);
    if b > 0 {
      CatalogIsCreates(ops, life, b - 1);
      StepOf(ops, life, b - 1);
      CatalogStep(ops, life, b - 1);
    }
  }

  lemma CatalogStep(ops: FloatOps, life: Life, i: nat)
    requires i < |life.answers| <= |life.events| && |life.history| == |life.answers| + 1
    requires EventMeaning(ops, life.history[i], life.events[i], life.answers[i], life.history[i + 1])
    ensures var e, before := life.events[i], life.history[i];
            life.history[i + 1].onPage ==
              if e.Do? && e.stmt.CreateTable? && MakesTable(life, i, e.stmt.name, e.stmt.schema)
              then before.onPage[e.stmt.name := EntryAt(before, e.stmt.name, e.stmt.schema)] else before.onPage
  {
    hide SelectMeaning, FileName, PageTakes, OpenBytes, InsertAnswer, WithInserted, SelectBinds;
    OpenEmpty();
    if life.events[i].Do? && !IsCreate(life.events[i]) {
      OthersMakeNone(ops, life.history[i], life.events[i].stmt, life.answers[i], life.history[i + 1]);
    }
  }

  /** An entry of the catalog is that of a CREATE TABLE that answered Ok. */
  ghost predicate CreatedBy(events: seq<Event>, answers: seq<Outcome<seq<Tuple>>>, n: Bytes, e: CatalogEntry)
    requires |answers| <= |events|
  {
    exists i {:trigger answers[i]} :: 0 <= i < |answers|
      && events[i] == Do(CreateTable(n, e.schema)) && answers[i] == Ok([])
      && e.tableName == n && e.fileName == FileName(n)
  }

  lemma {:induction false} EntriesAreCreates(ops: FloatOps, life: Life, b: nat, n: Bytes)
    requires IsLife(ops, life) && b <= |life.answers| && n in MadeEntries(life, b)
    ensures CreatedBy(life.events, life.answers, n, MadeEntries(life, b)[n])
  {
    hide IsLife, FileName;
    LifeSizes(ops, life);
    var e := life.events[b - 1];
    if e.Do? && e.stmt.CreateTable? && e.stmt.name == n && MakesTable(life, b - 1, n, e.stmt.schema) {
      CreatedIsOk(ops, life, b - 1);
      assert life.answers[b - 1] == Ok([]);
    } else {
      EntriesAreCreates(ops, life, b - 1, n);
    }
  }

  lemma CreatedIsOk(ops: FloatOps, life: Life, i: nat)
    requires IsLife(ops, life) && i < |life.answers| && IsCreate(life.events[i]) && life.answers[i].Ok?
    ensures life.answers[i] == Ok([])
  {
    hide IsLife, FileName, PageTakes, OpenBytes;
    StepOf(ops, life, i);
  }

  // ----- the catalog in memory

  /** A CREATE TABLE of a new table that opened its file and was refused: its entry is in
      memory, but not on the page. */
  predicate Refused(before: Snapshot, e: Event, r: Outcome<seq<Tuple>>) {
    IsCreate(e) && IsNew(before, e.stmt.name) && before.nextId != MAX_FILE_ID && !r.Ok?
  }

  /** A statement leaves the catalogs in memory and on the page the same if and only if
      it is not such a CREATE TABLE. */
  lemma CatalogsStep(ops: FloatOps, before: Snapshot, stmt: Statement, r: Outcome<seq<Tuple>>, after: Snapshot)
    requires Sane(before) && StepMeaning(ops, before, stmt, r, after) && before.catalog == before.onPage
    ensures after.catalog == after.onPage <==> !Refused(before, Do(stmt), r)
    ensures after.catalog != after.onPage ==> Drifted(after)
  {
    hide SelectMeaning, FileName, PageTakes, OpenBytes, InsertAnswer, WithInserted, SelectBinds;
    OpenEmpty();
    if !stmt.CreateTable? { OthersMakeNone(ops, before, stmt, r, after); }
    if Refused(before, Do(stmt), r) {
      assert stmt.name in after.catalog && stmt.name !in after.onPage && FileName(stmt.name) in after.paths;
    }
  }

  /** An entry in memory is not on the page, and its file is open. */
  ghost predicate Drifted(s: Snapshot) {
    exists n :: n in s.catalog && n !in s.onPage && FileName(n) in s.paths
  }

  /** No statement brings such an entry onto the page. */
  lemma StaysDrifted(ops: FloatOps, before: Snapshot, stmt: Statement, r: Outcome<seq<Tuple>>, after: Snapshot)
    requires StepMeaning(ops, before, stmt, r, after) && Drifted(before)
    ensures Drifted(after) && after.catalog != after.onPage
  {
    hide SelectMeaning, FileName, PageTakes, OpenBytes, InsertAnswer, WithInserted, SelectBinds;
    if !stmt.CreateTable? { OthersMakeNone(ops, before, stmt, r, after); }
    var n :| n in before.catalog && n !in before.onPage && FileName(n) in before.paths;
    assert n in after.catalog && n !in after.onPage && FileName(n) in after.paths;
  }

  ghost predicate NoneRefused(life: Life, a: nat, b: nat)
    requires b <= |life.answers| <= |life.events| && |life.history| == |life.answers| + 1
  {
    forall i {:trigger life.answers[i]} :: a <= i < b ==> !Refused(life.history[i], life.events[i], life.answers[i])
  }

  /** Between restarts the catalogs in memory and on the page are the same if and only if
      no CREATE TABLE was refused. */
  lemma {:induction false} CatalogsExactly(ops: FloatOps, life: Life, a: nat, b: nat)
    requires IsLife(ops, life) && a <= b <= |life.answers| && NoRestart(life, a, b)
    requires life.history[a].catalog == life.history[a].onPage
    ensures life.history[b].catalog == life.history[b].onPage <==> NoneRefused(life, a, b)
    ensures life.history[b].catalog != life.history[b].onPage ==> Drifted(life.history[b])
    decreases b - a
  {
    hide IsLife, StepMeaning, Sane, Refused, Drifted;
    LifeSizes(ops, life);
    if a < b {
      var i := b - 1;
      CatalogsExactly(ops, life, a, i);
      StepOf(ops, life, i);
      assert life.events[i].Do?;
      RefusedBefore(life, a, b);
      if life.history[i].catalog == life.history[i].onPage {
        CatalogsStep(ops, life.history[i], life.events[i].stmt, life.answers[i], life.history[b]);
      } else {
        StaysDrifted(ops, life.history[i], life.events[i].stmt, life.answers[i], life.history[b]);
      }
    }
  }

  lemma RefusedBefore(life: Life, a: nat, b: nat)
    requires a < b <= |life.answers| <= |life.events| && |life.history| == |life.answers| + 1
    ensures NoneRefused(life, a, b) <==>
              NoneRefused(life, a, b - 1) && !Refused(life.history[b - 1], life.events[b - 1], life.answers[b - 1])
  {
    hide Refused;
    assert life.answers[b - 1] == life.answers[b - 1];
  }

  /** Where the session of event b began: behind the last restart before it. */
  function SessionStart(events: seq<Event>, b: nat): (a: nat)
    requires b <= |events|
    ensures a <= b
  {
    if b == 0 || events[b - 1].Again? then b else SessionStart(events, b - 1)
  }

  /** Every session begins with the two catalogs the same. */
  lemma {:induction false} SessionsBeginInStep(ops: FloatOps, life: Life, b: nat)
    requires IsLife(ops, life) && life.history[0].catalog == life.history[0].onPage && b <= |life.answers|
    ensures var a := SessionStart(life.events, b);
            life.history[a].catalog == life.history[a].onPage && NoRestart(life, a, b)
  {
    hide IsLife, StepMeaning, Sane;
    LifeSizes(ops, life);
    if b > 0 {
      if life.events[b - 1].Again? {
        StepOf(ops, life, b - 1);
      } else {
        SessionsBeginInStep(ops, life, b - 1);
      }
    }
  }

  /** Let events happen in a new directory, then load the catalog page: that gives the
      entries of exactly the tables made, each by a CREATE TABLE that answered Ok, and
      it is the catalog in memory if and only if none was refused since the last restart. */
  method LiveAndLoad(disk: map<Path, Bytes>, numFrames: nat, ops: FloatOps, events: seq<Event>)
    returns (r: Outcome<CatalogMap>, inMemory: CatalogMap, answers: seq<Outcome<seq<Tuple>>>, ghost life: Life)
    requires NewDirectory(disk) && numFrames > 0 && forall i :: 0 <= i < |events| ==> EventOk(events[i])
    ensures IsLife(ops, life) && life.events == events && life.answers == answers
    ensures Ends(life) && FirstSnapshot(life.history[0], disk)
    ensures r == Ok(MadeEntries(life, |answers|))
    ensures |answers| <= |events| && r.Ok? && forall n :: n in r.value ==> CreatedBy(events, answers, n, r.value[n])
    ensures r.value == inMemory <==> NoneRefused(life, SessionStart(events, |answers|), |answers|)
    ensures (forall i {:trigger answers[i]} :: 0 <= i < |answers| && IsCreate(events[i]) ==> answers[i].Ok?) ==>
              r.value == inMemory
  {
    hide NewDirectory, EventOk, IsLife, FirstSnapshot, Ends, Load, CatalogRecords, Alive, MadeEntries, CreatedBy;
    var db;
    db, answers, life := Live(disk, numFrames, ops, events);
    inMemory := db.catalog;
    var n := |answers|;
    LifeSizes(ops, life);
    NewCatalog(life.history[0], disk);
    CatalogIsCreates(ops, life, n);
    CatalogReloads(db, life.history[n]);
    SessionsBeginInStep(ops, life, n);
    CatalogsExactly(ops, life, SessionStart(events, n), n);
    forall m | m in MadeEntries(life, n)
      ensures CreatedBy(events, answers, m, MadeEntries(life, n)[m])
    {
      EntriesAreCreates(ops, life, n, m);
    }
    r := LoadCatalog(db.pool);
  }

  lemma NewCatalog(s: Snapshot, disk: map<Path, Bytes>)
    requires FirstSnapshot(s, disk)
    ensures s.onPage == map[] && s.catalog == map[]
  {
  }

  /** What a database has on its catalog page, loaded. */
  lemma CatalogReloads(db: Database, s: Snapshot)
    requires Alive(db, s)
    ensures db.pool.Valid() && db.pool.live == multiset{} && |db.pool.frames| > 0 && CatalogPageOk(db.pool.Pages())
    ensures var v := db.pool.Pages(); Load(CatalogRecords(v), |CatalogRecords(v)|) == Ok(s.onPage)
    ensures db.catalog == s.catalog
  {
    hide PagesOk, ClosedOk, PathsOk, NamesOk, TablesOk, EntriesOk, RowsOk, FillOf, ExtentOf, HasExtent, Inv;
    SnapshotFields(db.World());
  }
}
