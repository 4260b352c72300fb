/** Runs of the engine that show where it falls short: a table whose rows change their
    order after a restart, and a table id given out twice. */
module LifeWitnesses {
  import opened Bytes
  import opened Outcomes
  import opened SlottedPages
  import opened PageFiles
  import opened Storage
  import opened HeapFiles
  import opened Values
  import opened NullBitmap
  import opened RecordCodec
  import opened Expressions
  import opened Binding
  import opened CatalogCodec
  import opened DatabaseState
  import opened Databases
  import opened Sessions
  import opened Meanings
  import opened Restarts
  import opened Lives
  import opened LifeRows
  import opened LifeCatalog
  import opened LifeIds

  const A: Bytes := [97]
  const B: Bytes := [98]
  const C: Bytes := [99]

  function Letters(n: nat, c: byte): (s: Bytes)
    ensures |s| == n
  {
    seq(n, _ => c)
  }

  lemma {:induction false} LettersAreText(n: nat, c: byte)
    requires c <= 0x7F
    ensures ValidUtf8(Letters(n, c))
  {
    if n > 0 {
      LettersAreText(n - 1, c);
      assert Letters(n, c)[1..] == Letters(n - 1, c);
    }
  }

  // ----- insertion order lost

  /** One column for strings. */
  const TEXT: Schema := [Column([118], VarCharType, false)]

  function InsertText(s: Bytes): Statement {
    Insert(A, [LiteralValue(StringLit(s))])
  }

  function TextTuple(s: Bytes): Tuple {
    [VarChar(s)]
  }

  const FIRST: Bytes := Letters(4085, 97)
  const SECOND: Bytes := Letters(4085, 98)
  const THIRD: Bytes := Letters(1, 99)

  /** Two records of 4090 bytes, a restart, and one of 6 bytes. */
  function OrderEvents(): seq<Event> {
    [Do(CreateTable(A, TEXT)), Do(InsertText(FIRST)), Do(InsertText(SECOND)), Again(1), Do(InsertText(THIRD)),
     Do(Select(A, [Wildcard], None))]
  }

  /** A string's record is 5 bytes longer. */
  lemma TextRecord(ops: FloatOps, s: Bytes)
    requires |s| + 5 <= MAX_RECORD
    ensures var values := [LiteralValue(StringLit(s))];
            && InsertMeaning(ops, A, TEXT, values) == Ok(TextTuple(s))
            && Offered(ops, A, TEXT, values).Ok? && |Offered(ops, A, TEXT, values).value| == |s| + 5
  {
    hide Encode;
    var t, values, tables := TextTuple(s), [LiteralValue(StringLit(s))], [NamedSchema(A, TEXT)];
    assert t[1..] == [] && TEXT[1..] == [] && values[1..] == [];
    assert SqlEvalAll(ops, values[1..], tables, None) == Ok([]) && BindAll(values[1..], tables) == Ok([]);
    assert [VarChar(s)] + [] == t;
    assert SqlEval(ops, values[0], tables, None) == Ok(VarChar(s)) && Bind(values[0], tables).Ok?;
    assert TypesMatch(TEXT[1..], t[1..]) == Ok(true);
    assert IsValidTuple(TEXT, t) == Ok(true);
    TextEncoded(s);
  }

  lemma TextEncoded(s: Bytes)
    ensures |Encode(TextTuple(s), TEXT)| == |s| + 5
  {
    hide Bitmap;
    var t := TextTuple(s);
    BitmapSize(t);
    assert t[1..] == [];
    assert HeaderFrom(t, TEXT, 1, HeaderSize(t) + |VarPart(t[0])|) == [];
    assert VariableFrom(t, TEXT, 1) == [];
  }

  /** What is known of table A at some point. */
  ghost predicate Stands(s: Snapshot, tuples: seq<Tuple>, fills: seq<Fill>, current: nat) {
    && A in s.names && A in s.extents && s.extents[A] == Extent(TEXT, fills, current)
    && A in s.rows && s.rows[A] == Relation(TEXT, tuples)
  }

  lemma TextInserted(ops: FloatOps, before: Snapshot, s: Bytes, r: Outcome<seq<Tuple>>, after: Snapshot,
                     tuples: seq<Tuple>, x: Extent)
    requires Stands(before, tuples, x.fills, x.current) && x.schema == TEXT && |s| + 5 <= MAX_RECORD
    requires StepMeaning(ops, before, InsertText(s), r, after)
    requires x.Answer(|s| + 5) == Ok(()) && x.Place(|s| + 5) <= |tuples|
    ensures r == Ok([])
    ensures var y := x.With(|s| + 5);
            Stands(after, InsertAt(tuples, x.Place(|s| + 5), TextTuple(s)), y.fills, y.current)
  {
    hide InsertMeaning, Offered, Extent.Answer, Extent.With, Extent.Place, InsertAt;
    TextRecord(ops, s);
    KeepsSchema(x, |s| + 5);
  }

  lemma KeepsSchema(x: Extent, len: nat)
    ensures x.With(len).schema == x.schema
  {
    hide Extent.Stays;
  }

  /** The statement that makes the table. */
  lemma TextCreated(ops: FloatOps, before: Snapshot, r: Outcome<seq<Tuple>>, after: Snapshot)
    requires FirstSnapshot(before, map[]) && StepMeaning(ops, before, CreateTable(A, TEXT), r, after)
    ensures r == Ok([]) && Stands(after, [], [Fill(Catalog, 0, 0), Fill(Heap, 0, 0)], 1)
  {
    hide EncodeEntry, FileName, StepMeaning;
    FileNameInjective(A, CATALOG_NAME);
    TextEntry(EntryAt(before, A, TEXT));
    OnlyCatalogThere(before, A);
    MadeNew(ops, before, A, TEXT, r, after);
  }

  lemma OnlyCatalogThere(s: Snapshot, name: Bytes)
    requires FirstSnapshot(s, map[]) && name != CATALOG_NAME
    ensures IsNew(s, name)
  {
    hide FileName;
    FileNameInjective(name, CATALOG_NAME);
    assert FileName(name) !in s.paths.Keys + s.closed.Keys;
  }

  lemma TextEntry(e: CatalogEntry)
    requires |e.tableName| == 1 && e.fileName == FileName(e.tableName) && e.schema == TEXT
    ensures EncodeEntry(e).Ok? && |EncodeEntry(e).value| == 21
  {
    assert EncodeColumns(TEXT, 1).Ok? && |EncodeColumns(TEXT, 1).value| == 4;
  }

  /** The table new, with the first record, and with the second on a page of its own. */
  const NEW := Extent(TEXT, [Fill(Catalog, 0, 0), Fill(Heap, 0, 0)], 1)
  const ONE := Extent(TEXT, [Fill(Catalog, 0, 0), Fill(Heap, 1, 4094)], 1)
  const TWO := Extent(TEXT, [Fill(Catalog, 0, 0), Fill(Heap, 1, 4094), Fill(Heap, 1, 4094)], 2)
  const REOPENED := TWO.(current := 1)

  lemma OrderFills()
    ensures NEW.Answer(4090) == Ok(()) && NEW.With(4090) == ONE && NEW.Place(4090) == 0
    ensures ONE.Answer(4090) == Ok(()) && ONE.With(4090) == TWO && ONE.Place(4090) == 1
    ensures REOPENED.Answer(6) == Ok(()) && REOPENED.Place(6) == 1
  {
    assert NEW.fills[..2] == NEW.fills && ONE.fills[..2] == ONE.fills && TWO.fills[..2] == ONE.fills;
    assert NEW.fills[1 := Fill(Heap, 0, 0).With(4090)] == ONE.fills;
    assert ONE.fills + [Fill(Heap, 0, 0).With(4090)] == TWO.fills;
    CountTwo(NEW.fills);
    CountTwo(ONE.fills);
  }

  lemma CountTwo(fills: seq<Fill>)
    requires |fills| == 2 && fills[0].kind.Catalog? && fills[1].kind.Heap?
    ensures RowCount(fills) == fills[1].count
  {
    assert fills[1..][1..] == [] && RowCount(fills[1..][1..]) == 0;
    assert RowCount(fills[1..]) == fills[1].count;
  }

  /** The table is made and takes two rows. */
  lemma TwoRows(ops: FloatOps, life: Life)
    requires IsLife(ops, life) && life.events == OrderEvents() && FirstSnapshot(life.history[0], map[])
    ensures forall i :: 0 <= i < |life.answers| && i < 3 ==> life.answers[i] == Ok([])
    ensures |life.answers| >= 3 ==>
              Stands(life.history[3], [TextTuple(FIRST), TextTuple(SECOND)], TWO.fills, TWO.current)
  {
    hide IsLife, StepMeaning, FirstSnapshot, Sane, Stands, Extent.Answer, Extent.With, Extent.Place, InsertAt, Collides,
         TextTuple, Restarted;
    LifeSizes(ops, life);
    OrderFills();
    var n := |life.answers|;
    if n > 0 {
      StepOf(ops, life, 0);
      TextCreated(ops, life.history[0], life.answers[0], life.history[1]);
    }
    if n > 1 {
      StepOf(ops, life, 1);
      TextInserted(ops, life.history[1], FIRST, life.answers[1], life.history[2], [], NEW);
      PutFirst(TextTuple(FIRST));
    }
    if n > 2 {
      StepOf(ops, life, 2);
      TextInserted(ops, life.history[2], SECOND, life.answers[2], life.history[3], [TextTuple(FIRST)], ONE);
      PutSecond(TextTuple(FIRST), TextTuple(SECOND));
    }
  }

  /** Every event answers Ok, and the row inserted last stands between the others. */
  lemma OrderAnswers(ops: FloatOps, life: Life)
    requires IsLife(ops, life) && life.events == OrderEvents() && FirstSnapshot(life.history[0], map[])
    ensures forall i :: 0 <= i < |life.answers| && i < 5 ==> life.answers[i] == Ok([])
    ensures |life.answers| == 6 ==> life.answers[5] == Ok([TextTuple(FIRST), TextTuple(THIRD), TextTuple(SECOND)])
  {
    hide IsLife, StepMeaning, FirstSnapshot, Restarted, Sane, Stands, Extent.Answer, Extent.With, Extent.Place,
         InsertAt, Collides, TextTuple;
    LifeSizes(ops, life);
    OrderFills();
    TwoRows(ops, life);
    var n := |life.answers|;
    if n > 3 {
      StepOf(ops, life, 3);
      StandsAgain(life.history[3], life.history[4], [TextTuple(FIRST), TextTuple(SECOND)], TWO.fills, 2);
    }
    if n > 4 {
      StepOf(ops, life, 4);
      TextInserted(ops, life.history[4], THIRD, life.answers[4], life.history[5], [TextTuple(FIRST), TextTuple(SECOND)],
                   REOPENED);
      PutBetween(TextTuple(FIRST), TextTuple(SECOND), TextTuple(THIRD));
    }
    if n > 5 {
      StepOf(ops, life, 5);
      TextSelected(ops, life.history[5], life.answers[5], life.history[6],
                   [TextTuple(FIRST), TextTuple(THIRD), TextTuple(SECOND)], REOPENED.With(6));
    }
  }

  lemma PutFirst<T>(x: T)
    ensures InsertAt([], 0, x) == [x]
  {
  }

  lemma PutSecond<T>(x: T, y: T)
    ensures InsertAt([x], 1, y) == [x, y]
  {
  }

  lemma PutBetween<T>(x: T, y: T, z: T)
    ensures InsertAt([x, y], 1, z) == [x, z, y]
  {
  }

  lemma StandsAgain(before: Snapshot, after: Snapshot, tuples: seq<Tuple>, fills: seq<Fill>, current: nat)
    requires Sane(before) && Restarted(before, after) && Stands(before, tuples, fills, current)
    ensures Stands(after, tuples, fills, 1)
  {
    hide FileName, FillsFit;
    assert A in before.onPage;
  }

  lemma TextSelected(ops: FloatOps, before: Snapshot, r: Outcome<seq<Tuple>>, after: Snapshot, tuples: seq<Tuple>,
                     x: Extent)
    requires StepMeaning(ops, before, Select(A, [Wildcard], None), r, after)
    requires Stands(before, tuples, x.fills, x.current)
    ensures r == Ok(tuples)
  {
    hide SelectMeaning, SelectBinds;
    SelectStarMeaning(ops, A, before.rows[A]);
  }

  lemma OrderEventsOk()
    ensures forall i :: 0 <= i < 6 ==> EventOk(OrderEvents()[i])
    ensures NewDirectory(map[])
  {
    hide ValidUtf8;
    LettersAreText(4085, 97);
    LettersAreText(4085, 98);
    LettersAreText(1, 99);
    OneLetter(97);
    OneLetter(118);
  }

  lemma OneLetter(c: byte)
    requires c <= 0x7F
    ensures ValidUtf8([c])
  {
    assert [c][1..] == [];
  }

  /** The engine does it: after two large rows and a restart, `SELECT *` answers the row
      inserted last between the other two. */
  method OrderLost(ops: FloatOps) returns (answers: seq<Outcome<seq<Tuple>>>, ghost life: Life)
    ensures IsLife(ops, life) && life.events == OrderEvents() && life.answers == answers
    ensures |answers| == 6 && forall i :: 0 <= i < 5 ==> answers[i] == Ok([])
    ensures answers[5] == Ok([TextTuple(FIRST), TextTuple(THIRD), TextTuple(SECOND)])
    ensures answers[5].value != [TextTuple(FIRST), TextTuple(SECOND), TextTuple(THIRD)]
  {
    hide IsLife, EventOk, NewDirectory, FirstSnapshot, Alive, Collides, TextTuple;
    Different(SECOND, THIRD);
    OrderEventsOk();
    var db;
    db, answers, life := Live(map[], 1, ops, OrderEvents());
    LifeSizes(ops, life);
    OrderAnswers(ops, life);
    if |answers| == 0 { FirstSessionNeverCollides(ops, life, map[], 0, OrderEvents()[0].stmt); }
    if |answers| < 6 && OrderEvents()[|answers|].Do? && |answers| > 0 {
      OnlyCreatesCollide(life.history[|answers|], OrderEvents()[|answers|].stmt);
    }
  }

  lemma OnlyCreatesCollide(s: Snapshot, stmt: Statement)
    requires !stmt.CreateTable?
    ensures !Collides(s, stmt)
  {
  }

  lemma Different(a: Bytes, b: Bytes)
    requires |a| != |b|
    ensures TextTuple(a) != TextTuple(b)
  {
    assert TextTuple(a)[0] != TextTuple(b)[0];
  }

  // ----- an id given out twice

  /** So many columns that the entry is 8177 bytes long, which no page takes. */
  function WideSchema(): Schema {
    Columns(2040)
  }

  function Columns(n: nat): (s: Schema)
    ensures |s| == n
  {
    seq(n, _ => Column([99], IntType, false))
  }

  lemma {:induction false} WideColumns(n: nat, k: nat)
    requires k <= n
    ensures EncodeColumns(Columns(n), k).Ok? && |EncodeColumns(Columns(n), k).value| == 4 * k
  {
    if k > 0 {
      WideColumns(n, k - 1);
      assert EncodeColumn(Columns(n)[k - 1]).Ok? && |EncodeColumn(Columns(n)[k - 1]).value| == 4;
    }
  }

  lemma WideEntry(e: CatalogEntry)
    requires |e.tableName| == 1 && e.fileName == FileName(e.tableName) && e.schema == WideSchema()
    ensures EncodeEntry(e).Ok? && |EncodeEntry(e).value| == 8177
  {
    hide EncodeColumns;
    WideColumns(2040, 2040);
  }

  /** A table the catalog page refuses, one that it takes, a restart, and another one. */
  function CollisionEvents(): seq<Event> {
    [Do(CreateTable(A, WideSchema())), Do(CreateTable(B, TEXT)), Again(1), Do(CreateTable(C, TEXT))]
  }

  lemma WideRefused(ops: FloatOps, before: Snapshot, r: Outcome<seq<Tuple>>, after: Snapshot)
    requires FirstSnapshot(before, map[]) && StepMeaning(ops, before, CreateTable(A, WideSchema()), r, after)
    ensures r == Err(PageFull) && A in after.catalog && after.onPage == map[] && after.nextId == 2
    ensures after.names == map[CATALOG_NAME := 0] && after.page == Fill(Catalog, 0, 0)
    ensures after.paths.Keys + after.closed.Keys == {CATALOG_PATH, FileName(A)}
  {
    hide EncodeEntry, FileName, WideSchema, OpenBytes;
    WideEntry(EntryAt(before, A, WideSchema()));
    OnlyCatalogThere(before, A);
    OpenEmpty();
  }

  lemma SecondMade(ops: FloatOps, before: Snapshot, r: Outcome<seq<Tuple>>, after: Snapshot)
    requires before.names == map[CATALOG_NAME := 0] && before.page == Fill(Catalog, 0, 0) && before.onPage == map[]
    requires before.paths.Keys + before.closed.Keys == {CATALOG_PATH, FileName(A)} && before.nextId == 2
    requires StepMeaning(ops, before, CreateTable(B, TEXT), r, after)
    ensures r == Ok([]) && after.page == Fill(Catalog, 1, 25)
    ensures after.onPage.Keys == {B} && after.onPage[B].tableId == 2
    ensures after.paths.Keys + after.closed.Keys == {CATALOG_PATH, FileName(A), FileName(B)}
  {
    hide EncodeEntry, FileName, StepMeaning;
    NotThere(before, B, A);
    TextEntry(EntryAt(before, B, TEXT));
    MadeNew(ops, before, B, TEXT, r, after);
  }

  lemma NotThere(s: Snapshot, name: Bytes, other: Bytes)
    requires name !in s.names && name != CATALOG_NAME && name != A && name != other
    requires s.paths.Keys + s.closed.Keys <= {CATALOG_PATH, FileName(A), FileName(other)}
    ensures IsNew(s, name)
  {
    hide FileName;
    FileNameInjective(name, CATALOG_NAME);
    FileNameInjective(name, A);
    FileNameInjective(name, other);
    assert FileName(name) !in s.paths.Keys + s.closed.Keys;
  }

  lemma ThenItCollides(before: Snapshot, after: Snapshot)
    requires before.onPage.Keys == {B} && before.onPage[B].tableId == 2 && before.page == Fill(Catalog, 1, 25)
    requires before.paths.Keys + before.closed.Keys == {CATALOG_PATH, FileName(A), FileName(B)}
    requires Restarted(before, after)
    ensures after.names == map[CATALOG_NAME := 0, B := 2] && Collides(after, CreateTable(C, TEXT))
  {
    hide EncodeEntry, FileName, OpenBytes;
    assert after.names.Keys == {CATALOG_NAME, B};
    assert |before.onPage.Keys| == 1;
    NotThere(after, C, B);
    TextEntry(EntryAt(after, C, TEXT));
    OpenEmpty();
    assert after.names[B] == 2;
  }

  lemma CollisionAnswers(ops: FloatOps, life: Life)
    requires IsLife(ops, life) && life.events == CollisionEvents() && FirstSnapshot(life.history[0], map[])
    ensures |life.answers| >= 1 ==>
              life.answers[0] == Err(PageFull) && life.history[1].catalog != life.history[1].onPage
    ensures |life.answers| >= 2 ==> life.answers[1] == Ok([])
    ensures |life.answers| >= 3 ==>
              life.answers[2] == Ok([]) && life.history[3].names == map[CATALOG_NAME := 0, B := 2]
              && Collides(life.history[3], CreateTable(C, TEXT))
    ensures |life.answers| <= 3
  {
    hide IsLife, StepMeaning, FirstSnapshot, Restarted, Sane, FileName, Collides, WideSchema;
    LifeSizes(ops, life);
    var n := |life.answers|;
    if n > 0 {
      StepOf(ops, life, 0);
      WideRefused(ops, life.history[0], life.answers[0], life.history[1]);
    }
    if n > 1 {
      StepOf(ops, life, 1);
      SecondMade(ops, life.history[1], life.answers[1], life.history[2]);
    }
    if n > 2 {
      StepOf(ops, life, 2);
      ThenItCollides(life.history[2], life.history[3]);
    }
    if n > 3 { StepOf(ops, life, 3); }
  }

  lemma CollisionEventsOk()
    ensures forall i :: 0 <= i < 4 ==> EventOk(CollisionEvents()[i])
    ensures NewDirectory(map[])
  {
    hide ValidUtf8;
    OneLetter(97);
    OneLetter(98);
    OneLetter(99);
    OneLetter(118);
  }

  /** The engine does it: a refused CREATE TABLE leaves an entry in memory that is not on
      the page and uses up an id, so that after a restart a new table would get the id of
      a table that is there. */
  method IdGivenTwice(ops: FloatOps) returns (answers: seq<Outcome<seq<Tuple>>>, ghost life: Life)
    ensures IsLife(ops, life) && life.events == CollisionEvents() && life.answers == answers
    ensures answers == [Err(PageFull), Ok([]), Ok([])] && |life.history| == 4
    ensures life.history[1].catalog != life.history[1].onPage
    ensures life.history[3].names == map[CATALOG_NAME := 0, B := 2]
    ensures Collides(life.history[3], CreateTable(C, TEXT))
  {
    hide IsLife, EventOk, NewDirectory, FirstSnapshot, Alive, Collides, WideSchema;
    CollisionEventsOk();
    var db;
    db, answers, life := Live(map[], 1, ops, CollisionEvents());
    LifeSizes(ops, life);
    CollisionAnswers(ops, life);
    if |answers| == 0 { FirstSessionNeverCollides(ops, life, map[], 0, CollisionEvents()[0].stmt); }
    if |answers| == 1 { FirstSessionNeverCollides(ops, life, map[], 1, CollisionEvents()[1].stmt); }
  }
}
