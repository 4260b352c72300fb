/** How many tables the catalog page takes, and when a table id is given out a second
    time. */
module LifeIds {
  import opened Bytes
  import opened Outcomes
  import opened SlottedPages
  import opened PageFiles
  import opened ClockSweep
  import opened Storage
  import opened Values
  import opened Expressions
  import opened Binding
  import opened CatalogCodec
  import opened DatabaseState
  import opened Databases
  import opened Sessions
  import opened Meanings
  import opened Restarts
  import opened Lives
  import opened LifeRows
  import opened LifeCatalog

  // ----- how many tables the catalog page takes

  function CreatesBefore(events: seq<Event>, b: nat): nat
    requires b <= |events|
  {
    if b == 0 then 0 else CreatesBefore(events, b - 1) + if IsCreate(events[b - 1]) then 1 else 0
  }

  /** The entry of the create at b, if all before it made tables. */
  function EntryOfCreate(events: seq<Event>, b: nat): CatalogEntry
    requires b < |events| && IsCreate(events[b])
  {
    CatalogEntry(CreatesBefore(events, b) + 1, events[b].stmt.name, FileName(events[b].stmt.name),
                 events[b].stmt.schema)
  }

  /** What the entry of the create at b and its slot take on the catalog page. */
  function EntryRoom(events: seq<Event>, b: nat): nat
    requires b < |events| && IsCreate(events[b])
  {
    var stmt := events[b].stmt;
    4 + 15 + 2 * |stmt.name| + ColumnBytes(stmt.schema, |stmt.schema|)
  }

  /** What the entries of the creates before b and their slots take. */
  function EntryBytes(events: seq<Event>, b: nat): nat
    requires b <= |events|
  {
    if b == 0 then 0
    else EntryBytes(events, b - 1) + if IsCreate(events[b - 1]) then EntryRoom(events, b - 1) else 0
  }

  /** Events whose creates are of different new tables, with names that are not too long. */
  ghost predicate NewTables(events: seq<Event>, disk: map<Path, Bytes>) {
    && |events| < MAX_FILE_ID - 1
    && (forall i {:trigger events[i]} :: 0 <= i < |events| && IsCreate(events[i]) ==>
          && events[i].stmt.name != CATALOG_NAME && FileName(events[i].stmt.name) !in disk
          && |events[i].stmt.name| <= 252 && NamesFit(events[i].stmt.schema, |events[i].stmt.schema|))
    && (forall i, j {:trigger events[i], events[j]} ::
          0 <= i < j < |events| && IsCreate(events[i]) && IsCreate(events[j]) ==>
          events[i].stmt.name != events[j].stmt.name)
  }

  /** After b events the files are those there before and those of the tables made. */
  ghost predicate MadeSoFar(events: seq<Event>, disk: map<Path, Bytes>, b: nat, s: Snapshot)
    requires b <= |events|
  {
    && s.nextId == CreatesBefore(events, b) + 1 && |s.onPage.Keys| == CreatesBefore(events, b)
    && s.page.used == EntryBytes(events, b)
    && (forall n :: n in s.names ==> n == CATALOG_NAME || NameBefore(events, b, n))
    && (forall n :: n in s.names ==> s.names[n] < s.nextId)
    && (forall p :: p in s.paths || p in s.closed ==> p in disk || p == CATALOG_PATH || PathBefore(events, b, p))
  }

  ghost predicate NameBefore(events: seq<Event>, b: nat, name: Bytes)
    requires b <= |events|
  {
    exists i {:trigger events[i]} :: 0 <= i < b && IsCreate(events[i]) && events[i].stmt.name == name
  }

  ghost predicate PathBefore(events: seq<Event>, b: nat, path: Path)
    requires b <= |events|
  {
    exists i {:trigger events[i]} :: 0 <= i < b && IsCreate(events[i]) && FileName(events[i].stmt.name) == path
  }

  /** Creates never run ahead of the events. */
  lemma {:induction false} CreatesBounded(events: seq<Event>, b: nat)
    requires b <= |events|
    ensures CreatesBefore(events, b) <= b
  {
    if b > 0 { CreatesBounded(events, b - 1); }
  }

  lemma {:induction false} BytesGrow(events: seq<Event>, a: nat, b: nat)
    requires a <= b <= |events|
    ensures EntryBytes(events, a) <= EntryBytes(events, b)
    decreases b - a
  {
    hide EncodeEntry, FileName;
    if a < b { BytesGrow(events, a, b - 1); }
  }

  /** A create of a new table at b is on an unused name and file. */
  lemma CreateIsNew(events: seq<Event>, disk: map<Path, Bytes>, b: nat, s: Snapshot)
    requires NewTables(events, disk) && b < |events| && IsCreate(events[b]) && MadeSoFar(events, disk, b, s)
    ensures var name, schema := events[b].stmt.name, events[b].stmt.schema;
            && IsNew(s, name) && s.nextId < MAX_FILE_ID && FileAnswer(s, name) == Ok(FileId(s.nextId))
            && EntryOfCreate(events, b) == EntryAt(s, name, schema) && !Collides(s, events[b].stmt)
  {
    hide EncodeEntry, FileName, OpenBytes;
    var name := events[b].stmt.name;
    CreatesBounded(events, b);
    FileNameInjective(name, CATALOG_NAME);
    OpenEmpty();
    forall i | 0 <= i < b && IsCreate(events[i])
      ensures events[i].stmt.name != name && FileName(events[i].stmt.name) != FileName(name)
    {
      FileNameInjective(events[i].stmt.name, name);
    }
  }

  /** One more event, and all made so far. */
  lemma MadeStep(ops: FloatOps, events: seq<Event>, disk: map<Path, Bytes>, b: nat, before: Snapshot,
                 r: Outcome<seq<Tuple>>, after: Snapshot)
    requires NewTables(events, disk) && b < |events| && MadeSoFar(events, disk, b, before)
    requires EntryBytes(events, b + 1) <= PAGE_SIZE - HEADER_SIZE
    requires Sane(before) && EventMeaning(ops, before, events[b], r, after)
    ensures IsCreate(events[b]) ==> r == Ok([])
    ensures MadeSoFar(events, disk, b + 1, after)
  {
    hide StepMeaning, Restarted, MadeSoFar, NewTables, EncodeEntry, Sane;
    match events[b] {
      case Again(_) => MadeRestart(events, disk, b, before, after);
      case Do(stmt) =>
        if stmt.CreateTable? {
          CreateIsNew(events, disk, b, before);
          CreateMakes(ops, events, disk, b, before, r, after);
        } else {
          OthersMakeNone(ops, before, stmt, r, after);
          SameMade(events, disk, b, before, after);
        }
    }
  }

  /** The create of a new table whose entry fits. */
  lemma CreateMakes(ops: FloatOps, events: seq<Event>, disk: map<Path, Bytes>, b: nat, before: Snapshot,
                    r: Outcome<seq<Tuple>>, after: Snapshot)
    requires NewTables(events, disk) && b < |events| && IsCreate(events[b]) && MadeSoFar(events, disk, b, before)
    requires EntryBytes(events, b + 1) <= PAGE_SIZE - HEADER_SIZE
    requires Sane(before) && StepMeaning(ops, before, events[b].stmt, r, after)
    requires IsNew(before, events[b].stmt.name) && before.nextId < MAX_FILE_ID
    requires EntryOfCreate(events, b) == EntryAt(before, events[b].stmt.name, events[b].stmt.schema)
    ensures r == Ok([]) && MadeSoFar(events, disk, b + 1, after)
  {
    hide FileName, StepMeaning, Sane, EncodeEntry, NewTables, EntryOfCreate, MadeSoFar, CreatesBefore;
    var name, schema := events[b].stmt.name, events[b].stmt.schema;
    Encodes(events, disk, b);
    UsedSoFar(events, disk, b, before);
    EntryFits(before.page, EntryOfCreate(events, b), EntryBytes(events, b + 1));
    MadeNew(ops, before, name, schema, r, after);
    NotOnPage(before, name);
    MadeMore(events, disk, b, before, after, EntryAt(before, name, schema));
  }

  lemma UsedSoFar(events: seq<Event>, disk: map<Path, Bytes>, b: nat, s: Snapshot)
    requires b <= |events| && MadeSoFar(events, disk, b, s)
    ensures s.page.used == EntryBytes(events, b)
  {
    hide EncodeEntry, FileName, EntryBytes, NameBefore, PathBefore;
  }

  /** One table more, and all made so far. */
  lemma MadeMore(events: seq<Event>, disk: map<Path, Bytes>, b: nat, before: Snapshot, after: Snapshot, e: CatalogEntry)
    requires b < |events| && IsCreate(events[b]) && e.tableName == events[b].stmt.name
    requires MadeSoFar(events, disk, b, before) && e.tableName !in before.onPage
    requires after.page.used == EntryBytes(events, b + 1) && after.onPage == before.onPage[e.tableName := e]
    requires after.names == before.names[e.tableName := before.nextId] && after.nextId == before.nextId + 1
    requires after.paths == before.paths[FileName(e.tableName) := FileId(before.nextId)]
    requires after.closed == before.closed - {FileName(e.tableName)}
    ensures MadeSoFar(events, disk, b + 1, after)
  {
    hide FileName, EncodeEntry, EntryBytes, NameBefore, PathBefore;
    OneEntryMore(before.onPage, e.tableName, e);
    MadeNames(events, b, before.names, e.tableName, before.nextId, after.names);
    MadePaths(events, disk, b, before, after, e.tableName);
  }

  lemma Encodes(events: seq<Event>, disk: map<Path, Bytes>, b: nat)
    requires NewTables(events, disk) && b < |events| && IsCreate(events[b])
    requires EntryBytes(events, b + 1) <= PAGE_SIZE - HEADER_SIZE
    ensures EncodeEntry(EntryOfCreate(events, b)).Ok?
    ensures SLOT_SIZE + |EncodeEntry(EntryOfCreate(events, b)).value| == EntryRoom(events, b)
  {
    hide EncodeEntry, NamesFit, ColumnBytes;
    EntryEncodesExactly(EntryOfCreate(events, b));
  }

  lemma NotOnPage(s: Snapshot, name: Bytes)
    requires Sane(s) && name !in s.names
    ensures name !in s.onPage
  {
    hide FillsFit, FileName;
  }

  lemma OneEntryMore(catalog: CatalogMap, name: Bytes, e: CatalogEntry)
    requires name !in catalog
    ensures |catalog[name := e].Keys| == |catalog.Keys| + 1
  {
    assert catalog[name := e].Keys == catalog.Keys + {name};
  }

  lemma EntryFits(page: Fill, e: CatalogEntry, used: nat)
    requires EncodeEntry(e).Ok? && used == page.used + SLOT_SIZE + |EncodeEntry(e).value| <= PAGE_SIZE - HEADER_SIZE
    ensures PageTakes(page, e) == Ok(())
  {
    hide EncodeEntry;
  }

  /** A restart changes nothing of that. */
  lemma MadeRestart(events: seq<Event>, disk: map<Path, Bytes>, b: nat, before: Snapshot, after: Snapshot)
    requires b < |events| && !IsCreate(events[b]) && MadeSoFar(events, disk, b, before)
    requires Sane(before) && Restarted(before, after)
    ensures MadeSoFar(events, disk, b + 1, after)
  {
    hide EncodeEntry, FileName, Sane, NameBefore, PathBefore, NamesOf, EntryBytes;
    forall n | n in after.names
      ensures n == CATALOG_NAME || NameBefore(events, b + 1, n)
      ensures after.names[n] < after.nextId
    {
      NameAgain(before, after, n);
      if n != CATALOG_NAME { NameStillBefore(events, b, n); }
    }
    assert EntryBytes(events, b + 1) == EntryBytes(events, b) by { SameBytes(events, b); }
    forall p | p in after.paths || p in after.closed
      ensures p in disk || p == CATALOG_PATH || PathBefore(events, b + 1, p)
    {
      assert p in after.paths.Keys + after.closed.Keys;
      if p !in disk && p != CATALOG_PATH { PathStillBefore(events, b, p); }
    }
  }

  lemma SameBytes(events: seq<Event>, b: nat)
    requires b < |events| && !IsCreate(events[b])
    ensures EntryBytes(events, b + 1) == EntryBytes(events, b)
  {
    hide EncodeEntry, FileName;
  }

  lemma NameAgain(before: Snapshot, after: Snapshot, n: Bytes)
    requires Sane(before) && Restarted(before, after) && n in after.names
    ensures if n == CATALOG_NAME then after.names[n] == 0 else n in before.names && after.names[n] == before.names[n]
  {
    hide FileName, FillsFit;
  }

  lemma NameStillBefore(events: seq<Event>, b: nat, n: Bytes)
    requires b < |events| && NameBefore(events, b, n)
    ensures NameBefore(events, b + 1, n)
  {
    var i :| 0 <= i < b && IsCreate(events[i]) && events[i].stmt.name == n;
    assert IsCreate(events[i]);
  }

  lemma PathStillBefore(events: seq<Event>, b: nat, p: Path)
    requires b < |events| && PathBefore(events, b, p)
    ensures PathBefore(events, b + 1, p)
  {
    hide FileName;
    var i :| 0 <= i < b && IsCreate(events[i]) && FileName(events[i].stmt.name) == p;
    assert IsCreate(events[i]);
  }

  lemma MadeNames(events: seq<Event>, b: nat, names: Names, name: Bytes, id: nat, more: Names)
    requires b < |events| && IsCreate(events[b]) && events[b].stmt.name == name && more == names[name := id]
    requires forall n :: n in names ==> n == CATALOG_NAME || NameBefore(events, b, n)
    ensures forall n :: n in more ==> n == CATALOG_NAME || NameBefore(events, b + 1, n)
  {
    forall n | n in more && n != CATALOG_NAME
      ensures NameBefore(events, b + 1, n)
    {
      if n == name { assert IsCreate(events[b]); } else { NameStillBefore(events, b, n); }
    }
  }

  lemma MadePaths(events: seq<Event>, disk: map<Path, Bytes>, b: nat, before: Snapshot, after: Snapshot, name: Bytes)
    requires b < |events| && IsCreate(events[b]) && events[b].stmt.name == name
    requires forall p :: p in before.paths || p in before.closed ==>
               p in disk || p == CATALOG_PATH || PathBefore(events, b, p)
    requires forall p :: p in after.paths || p in after.closed ==>
               p in before.paths || p in before.closed || p == FileName(name)
    ensures forall p :: p in after.paths || p in after.closed ==>
              p in disk || p == CATALOG_PATH || PathBefore(events, b + 1, p)
  {
    hide FileName;
    forall p | (p in after.paths || p in after.closed) && p !in disk && p != CATALOG_PATH
      ensures PathBefore(events, b + 1, p)
    {
      if p == FileName(name) { assert IsCreate(events[b]); } else { PathStillBefore(events, b, p); }
    }
  }

  lemma SameMade(events: seq<Event>, disk: map<Path, Bytes>, b: nat, before: Snapshot, after: Snapshot)
    requires b < |events| && !IsCreate(events[b]) && MadeSoFar(events, disk, b, before)
    requires after.names == before.names && after.paths == before.paths && after.closed == before.closed
    requires after.nextId == before.nextId && after.page == before.page && after.onPage == before.onPage
    ensures MadeSoFar(events, disk, b + 1, after)
  {
    hide EncodeEntry, FileName;
    forall n | n in after.names && n != CATALOG_NAME
      ensures NameBefore(events, b + 1, n)
    {
      NameStillBefore(events, b, n);
    }
    forall p | (p in after.paths || p in after.closed) && p !in disk && p != CATALOG_PATH
      ensures PathBefore(events, b + 1, p)
    {
      PathStillBefore(events, b, p);
    }
  }

  /** Capacity: from a new directory on, restarts or not, every CREATE TABLE of a new
      table answers Ok, as long as the entries with a slot of 4 bytes each fit into 8173
      bytes. */
  lemma {:induction false} CreatesSucceed(ops: FloatOps, life: Life, disk: map<Path, Bytes>, b: nat)
    requires IsLife(ops, life) && FirstSnapshot(life.history[0], disk) && NewTables(life.events, disk)
    requires b <= |life.answers| && EntryBytes(life.events, b) <= PAGE_SIZE - HEADER_SIZE
    ensures MadeSoFar(life.events, disk, b, life.history[b])
    ensures forall i {:trigger life.answers[i]} :: 0 <= i < b && IsCreate(life.events[i]) ==> life.answers[i] == Ok([])
  {
    hide IsLife, EventMeaning, MadeSoFar, EntryBytes, NewTables, FirstSnapshot, Sane;
    LifeSizes(ops, life);
    if b == 0 {
      NothingMade(life.events, disk, life.history[0]);
    } else {
      BytesGrow(life.events, b - 1, b);
      CreatesSucceed(ops, life, disk, b - 1);
      StepOf(ops, life, b - 1);
      MadeStep(ops, life.events, disk, b - 1, life.history[b - 1], life.answers[b - 1], life.history[b]);
    }
  }

  lemma NothingMade(events: seq<Event>, disk: map<Path, Bytes>, s: Snapshot)
    requires FirstSnapshot(s, disk)
    ensures MadeSoFar(events, disk, 0, s)
  {
    hide EncodeEntry, FileName;
  }

  /** And such a life runs to its end, unless an INSERT or SELECT panics. */
  lemma RunsToItsEnd(ops: FloatOps, life: Life, disk: map<Path, Bytes>)
    requires IsLife(ops, life) && Ends(life) && FirstSnapshot(life.history[0], disk) && NewTables(life.events, disk)
    requires EntryBytes(life.events, |life.events|) <= PAGE_SIZE - HEADER_SIZE
    ensures var n := |life.answers|;
            n == |life.events|
            || (n > 0 && life.answers[n - 1] == Panic && life.events[n - 1].Do? && !IsCreate(life.events[n - 1]))
  {
    hide IsLife, MadeSoFar, EntryBytes, NewTables, FirstSnapshot, StepMeaning, Sane, CreateAnswer, IsNew;
    LifeSizes(ops, life);
    var n := |life.answers|;
    BytesGrow(life.events, n, |life.events|);
    CreatesSucceed(ops, life, disk, n);
    if n < |life.events| && IsCreate(life.events[n]) { CreateIsNew(life.events, disk, n, life.history[n]); }
    assert n > 0 && IsCreate(life.events[n - 1]) ==> life.answers[n - 1] == Ok([]);
    if n > 0 { StepOf(ops, life, n - 1); }
  }

  /** A life ends early only before a CREATE TABLE that would give out an id twice, or
      behind a statement that panics for one of the reasons there are - where it can be
      told: the rows of an adopted table are not known. */
  lemma EndsExactly(ops: FloatOps, life: Life)
    requires IsLife(ops, life) && Ends(life) && |life.answers| < |life.events|
    ensures var n := |life.answers|;
            || (life.events[n].Do? && Collides(life.history[n], life.events[n].stmt))
            || (n > 0 && life.events[n - 1].Do?
                && var before, stmt := life.history[n - 1], life.events[n - 1].stmt;
                   Panics(ops, before, stmt)
                   || (stmt.Select? && stmt.table in before.names && stmt.table !in before.rows))
  {
    hide IsLife, Collides, StepMeaning, Panics, Restarted;
    LifeSizes(ops, life);
    var n := |life.answers|;
    if n > 0 && life.answers[n - 1] == Panic {
      StepOf(ops, life, n - 1);
      RowsInUse(life.history[n - 1]);
      var before, stmt := life.history[n - 1], life.events[n - 1].stmt;
      if !(stmt.Select? && InUse(before, stmt.table) && stmt.table !in before.rows) {
        PanicsExactly(ops, before, stmt, life.answers[n - 1], life.history[n]);
      }
    }
  }

  lemma RowsInUse(s: Snapshot)
    requires Sane(s)
    ensures forall n :: n in s.rows ==> InUse(s, n)
    ensures forall n :: n in s.names <==> InUse(s, n)
  {
    hide FillsFit, FileName;
  }

  // ----- ids given out twice

  /** Table ids are the ids of the tables' own files, as in a first session. */
  ghost predicate Aligned(s: Snapshot) {
    forall n :: n in s.names ==> FileName(n) in s.paths && s.paths[FileName(n)].id == s.names[n]
  }

  /** Then no CREATE TABLE gives out an id twice, and it stays so until a restart. */
  lemma AlignedStays(ops: FloatOps, before: Snapshot, stmt: Statement, r: Outcome<seq<Tuple>>, after: Snapshot)
    requires Aligned(before) && StepMeaning(ops, before, stmt, r, after)
    ensures Aligned(after)
  {
    hide FileName, StepMeaning, Sane, FileAnswer, Aligned;
    if !stmt.CreateTable? {
      OthersMakeNone(ops, before, stmt, r, after);
      AlignedSame(before, after);
    } else if stmt.name in before.names {
      KnownName(ops, before, stmt, r, after);
    } else {
      OpenedName(ops, before, stmt, r, after);
      AlignedMore(before, stmt.name, after);
    }
  }

  lemma AlignedSame(before: Snapshot, after: Snapshot)
    requires Aligned(before) && after.names == before.names && after.paths == before.paths
    ensures Aligned(after)
  {
    hide FileName;
  }

  lemma AlignedMore(before: Snapshot, name: Bytes, after: Snapshot)
    requires Aligned(before) && name !in before.names
    requires var f := FileAnswer(before, name);
             if !f.Ok? then after.names == before.names && after.paths == before.paths
             else
               && after.paths == before.paths[FileName(name) := f.value]
               && (after.names == before.names || after.names == before.names[name := f.value.id])
    ensures Aligned(after)
  {
    hide FileName, FileAnswer;
    forall n | n in before.names
      ensures FileName(n) != FileName(name)
    {
      FileNameInjective(n, name);
    }
  }

  /** A CREATE TABLE on an unused name opens its file, and gives the name its id if it
      succeeds. */
  lemma OpenedName(ops: FloatOps, before: Snapshot, stmt: Statement, r: Outcome<seq<Tuple>>, after: Snapshot)
    requires stmt.CreateTable? && StepMeaning(ops, before, stmt, r, after) && stmt.name !in before.names
    ensures var f := FileAnswer(before, stmt.name);
            if !f.Ok? then after.names == before.names && after.paths == before.paths
            else
              && after.paths == before.paths[FileName(stmt.name) := f.value]
              && after.names == if r.Ok? then before.names[stmt.name := f.value.id] else before.names
  {
    hide FileName, PageTakes, OpenBytes;
  }

  lemma AlignedNeverCollides(s: Snapshot, stmt: Statement)
    requires Sane(s) && Aligned(s)
    ensures !Collides(s, stmt)
  {
    hide FileName, OpenBytes, PageTakes, FillsFit;
    if stmt.CreateTable? {
      forall n | n in s.names && stmt.name !in s.names
        ensures FileName(n) != FileName(stmt.name)
      {
        FileNameInjective(n, stmt.name);
      }
    }
  }

  /** A life without restarts never gives out an id twice. */
  lemma {:induction false} FirstSessionNeverCollides(ops: FloatOps, life: Life, disk: map<Path, Bytes>, b: nat,
                                                     stmt: Statement)
    requires IsLife(ops, life) && FirstSnapshot(life.history[0], disk) && b <= |life.answers| && NoRestart(life, 0, b)
    ensures Aligned(life.history[b]) && !Collides(life.history[b], stmt)
  {
    hide IsLife, Collides, StepMeaning, Sane;
    LifeSizes(ops, life);
    SaneAt(ops, life, b);
    if b == 0 {
      FileNameInjective(CATALOG_NAME, CATALOG_NAME);
    } else {
      FirstSessionNeverCollides(ops, life, disk, b - 1, stmt);
      StepOf(ops, life, b - 1);
      assert life.events[b - 1].Do?;
      AlignedStays(ops, life.history[b - 1], life.events[b - 1].stmt, life.answers[b - 1], life.history[b]);
    }
    AlignedNeverCollides(life.history[b], stmt);
  }

  lemma SaneAt(ops: FloatOps, life: Life, i: nat)
    requires IsLife(ops, life) && i < |life.history|
    ensures Sane(life.history[i])
  {
    hide Sane, EventMeaning;
  }

  /** The names are those of the entries on the page, whose ids are not above their
      number, and the next file id comes behind it. */
  ghost predicate Counted(s: Snapshot) {
    && s.names == NamesOf(s.onPage) && s.nextId == 1 + |s.onPage.Keys|
    && forall n :: n in s.onPage ==> 1 <= s.onPage[n].tableId <= |s.onPage.Keys|
  }

  /** A CREATE TABLE names a known table or makes a new one. */
  ghost predicate MakesOrKnows(before: Snapshot, e: Event, r: Outcome<seq<Tuple>>) {
    IsCreate(e) ==> e.stmt.name in before.names || (IsNew(before, e.stmt.name) && r.Ok?)
  }

  lemma CountedStays(ops: FloatOps, before: Snapshot, e: Event, r: Outcome<seq<Tuple>>, after: Snapshot)
    requires Sane(before) && Counted(before) && EventMeaning(ops, before, e, r, after) && MakesOrKnows(before, e, r)
    ensures Counted(after)
  {
    hide FileName, StepMeaning, Sane, EncodeEntry, NamesOf, Restarted, InsertAnswer, WithInserted, Counted;
    match e {
      case Again(_) => CountedAgain(before, after);
      case Do(stmt) =>
        if !stmt.CreateTable? {
          OthersMakeNone(ops, before, stmt, r, after);
          CountedSame(before, after);
        } else if stmt.name in before.names {
          KnownName(ops, before, stmt, r, after);
        } else {
          CatalogIsNamed(before);
          TakenIfOk(ops, before, stmt, r, after);
          MadeNew(ops, before, stmt.name, stmt.schema, r, after);
          NotOnPage(before, stmt.name);
          CountedMore(before, stmt.name, EntryAt(before, stmt.name, stmt.schema), after);
        }
    }
  }

  lemma CountedSame(before: Snapshot, after: Snapshot)
    requires Counted(before) && after == before.(rows := after.rows, extents := after.extents)
    ensures Counted(after)
  {
    hide NamesOf;
  }

  lemma CountedMore(before: Snapshot, name: Bytes, e: CatalogEntry, after: Snapshot)
    requires Counted(before) && name !in before.onPage && name != CATALOG_NAME
    requires e.tableName == name && e.tableId == before.nextId
    requires after.onPage == before.onPage[name := e] && after.names == before.names[name := before.nextId]
    requires after.nextId == before.nextId + 1
    ensures Counted(after)
  {
    hide NamesOf;
    OneEntryMore(before.onPage, name, e);
    NamesWith(before.onPage, e);
  }

  lemma CountedAgain(before: Snapshot, after: Snapshot)
    requires Counted(before) && Restarted(before, after)
    ensures Counted(after)
  {
    hide FileName, NamesOf;
  }

  lemma CatalogIsNamed(s: Snapshot)
    requires Sane(s)
    ensures CATALOG_NAME in s.names
  {
    hide FillsFit, FileName;
  }

  lemma KnownName(ops: FloatOps, before: Snapshot, stmt: Statement, r: Outcome<seq<Tuple>>, after: Snapshot)
    requires stmt.CreateTable? && StepMeaning(ops, before, stmt, r, after) && stmt.name in before.names
    ensures after == before
  {
  }

  lemma TakenIfOk(ops: FloatOps, before: Snapshot, stmt: Statement, r: Outcome<seq<Tuple>>, after: Snapshot)
    requires stmt.CreateTable? && StepMeaning(ops, before, stmt, r, after) && IsNew(before, stmt.name) && r.Ok?
    ensures before.nextId != MAX_FILE_ID && PageTakes(before.page, EntryAt(before, stmt.name, stmt.schema)).Ok?
  {
    hide FileName, PageTakes, OpenBytes, CreateEffect;
    OpenEmpty();
  }

  lemma NamesWith(catalog: CatalogMap, e: CatalogEntry)
    requires e.tableName !in catalog && e.tableName != CATALOG_NAME
    ensures NamesOf(catalog[e.tableName := e]) == NamesOf(catalog)[e.tableName := e.tableId]
  {
  }

  lemma CountedIsFree(s: Snapshot, stmt: Statement)
    requires Counted(s) && stmt.CreateTable? && IsNew(s, stmt.name)
    ensures !Collides(s, stmt)
  {
    hide FileName, OpenBytes, PageTakes;
    OpenEmpty();
  }

  /** As long as every CREATE TABLE makes its table or names a known one, no new table's
      id is given out twice, restarts included. */
  lemma {:induction false} MadeTablesNeverCollide(ops: FloatOps, life: Life, disk: map<Path, Bytes>, b: nat,
                                                  stmt: Statement)
    requires IsLife(ops, life) && FirstSnapshot(life.history[0], disk) && b <= |life.answers|
    requires forall i {:trigger life.answers[i]} :: 0 <= i < b ==>
               MakesOrKnows(life.history[i], life.events[i], life.answers[i])
    ensures Counted(life.history[b])
    ensures stmt.CreateTable? && IsNew(life.history[b], stmt.name) ==> !Collides(life.history[b], stmt)
  {
    hide IsLife, Collides, EventMeaning, Sane, Counted, MakesOrKnows, IsNew;
    LifeSizes(ops, life);
    if b == 0 {
      FirstCounted(life.history[0], disk);
    } else {
      MadeTablesNeverCollide(ops, life, disk, b - 1, stmt);
      StepOf(ops, life, b - 1);
      assert MakesOrKnows(life.history[b - 1], life.events[b - 1], life.answers[b - 1]);
      CountedStays(ops, life.history[b - 1], life.events[b - 1], life.answers[b - 1], life.history[b]);
    }
    if stmt.CreateTable? && IsNew(life.history[b], stmt.name) { CountedIsFree(life.history[b], stmt); }
  }

  lemma FirstCounted(s: Snapshot, disk: map<Path, Bytes>)
    requires FirstSnapshot(s, disk)
    ensures Counted(s)
  {
    var none: CatalogMap := map[];
    assert (map n | n in none :: none[n].tableId) == map[];
  }

  /** Right after a restart a new table that the catalog page takes gets an id that
      another has if and only if one of the tables on the page has the id one above
      their number. */
  lemma RestartCollidesExactly(before: Snapshot, after: Snapshot, stmt: Statement)
    requires Sane(before) && Restarted(before, after) && after.nextId < MAX_FILE_ID
    requires stmt.CreateTable? && IsNew(after, stmt.name) && CreateAnswer(after, stmt.name, stmt.schema).Ok?
    ensures Collides(after, stmt) <==>
              exists n :: n in before.onPage && before.onPage[n].tableId == 1 + |before.onPage.Keys|
  {
    hide FileName, OpenBytes, Sane, NamesOf, CreateAnswer;
    OpenEmpty();
    NoCatalogEntry(before);
    IdsOf(before.onPage, 1 + |before.onPage.Keys|);
  }

  lemma NoCatalogEntry(s: Snapshot)
    requires Sane(s)
    ensures CATALOG_NAME !in s.onPage
  {
  }

  lemma IdsOf(catalog: CatalogMap, id: nat)
    requires CATALOG_NAME !in catalog && id > 0
    ensures (exists n :: n in NamesOf(catalog) && NamesOf(catalog)[n] == id) <==>
            (exists n :: n in catalog && catalog[n].tableId == id)
  {
    if n :| n in catalog && catalog[n].tableId == id {
      assert n in NamesOf(catalog) && NamesOf(catalog)[n] == id;
    }
  }

  /** A table adopted from a file that was there has no catalog entry, so after a restart
      its name is unknown, whatever else happened before. */
  lemma AdoptedIsGone(ops: FloatOps, before: Snapshot, name: Bytes, schema: Schema, r: Outcome<seq<Tuple>>,
                      after: Snapshot, again: Snapshot, items: seq<SelectItem>, filter: Option<SqlExpr>,
                      answer: Outcome<seq<Tuple>>, last: Snapshot)
    requires Sane(before) && StepMeaning(ops, before, CreateTable(name, schema), r, after) && r.Ok?
    requires name !in before.names && (FileName(name) in before.paths || FileName(name) in before.closed)
    requires Restarted(after, again) && StepMeaning(ops, again, Select(name, items, filter), answer, last)
    ensures name in after.names && name !in again.names && answer == Err(TableNotFound)
  {
    hide StepMeaning, Restarted, FileName, OpenBytes, FillsFit;
    assert name !in before.onPage && name != CATALOG_NAME;
    AdoptingKeepsThePage(ops, before, name, schema, r, after);
    OnlyEntriesReturn(after, again, name);
    UnknownTable(ops, again, name, items, filter, answer, last);
  }

  lemma AdoptingKeepsThePage(ops: FloatOps, before: Snapshot, name: Bytes, schema: Schema, r: Outcome<seq<Tuple>>,
                             after: Snapshot)
    requires StepMeaning(ops, before, CreateTable(name, schema), r, after) && r.Ok? && name !in before.names
    requires FileName(name) in before.paths || FileName(name) in before.closed
    ensures name in after.names && after.onPage == before.onPage
  {
    hide FileName, OpenBytes, PageTakes;
  }

  lemma OnlyEntriesReturn(after: Snapshot, again: Snapshot, name: Bytes)
    requires Restarted(after, again)
    ensures name in again.names <==> name in after.onPage || name == CATALOG_NAME
  {
    hide FileName;
  }

  lemma UnknownTable(ops: FloatOps, s: Snapshot, name: Bytes, items: seq<SelectItem>, filter: Option<SqlExpr>,
                     r: Outcome<seq<Tuple>>, t: Snapshot)
    requires StepMeaning(ops, s, Select(name, items, filter), r, t) && name !in s.names
    ensures r == Err(TableNotFound)
  {
    hide SelectMeaning;
  }
}
