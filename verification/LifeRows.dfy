/** Which tuples a table holds at any point of a database's life, and in which order. */
module LifeRows {
  import opened Bytes
  import opened Outcomes
  import opened PageFiles
  import opened HeapFiles
  import opened Values
  import opened RecordCodec
  import opened Expressions
  import opened Binding
  import opened SeqScans
  import opened DatabaseState
  import opened Sessions
  import opened Meanings
  import opened Lives

  predicate InsertsInto(e: Event, name: Bytes) {
    e.Do? && e.stmt.Insert? && e.stmt.table == name
  }

  /** The tuples that the INSERTs into a table between events a and b answered Ok for. */
  function SuccessfulInserts(ops: FloatOps, life: Life, name: Bytes, schema: Schema, a: nat, b: nat): seq<Tuple>
    requires a <= b <= |life.answers| <= |life.events|
    decreases b - a
  {
    if a == b then []
    else
      var before := SuccessfulInserts(ops, life, name, schema, a, b - 1);
      if InsertsInto(life.events[b - 1], name) && life.answers[b - 1].Ok?
         && InsertMeaning(ops, name, schema, life.events[b - 1].stmt.values).Ok?
      then before + [InsertMeaning(ops, name, schema, life.events[b - 1].stmt.values).value] else before
  }

  /** How long the record of an INSERT is. */
  function RecordLength(ops: FloatOps, before: Snapshot, name: Bytes, values: seq<SqlExpr>): nat
    requires InsertAnswer(ops, before, name, values).Ok?
  {
    |Offered(ops, name, before.extents[name].schema, values).value|
  }

  /** No different row stands behind the place where an INSERT puts its row. */
  ghost predicate AtEnd(ops: FloatOps, before: Snapshot, name: Bytes, values: seq<SqlExpr>)
    requires InsertAnswer(ops, before, name, values).Ok? && name in before.rows
  {
    var x, tuples := before.extents[name], before.rows[name].tuples;
    var tuple := InsertMeaning(ops, name, x.schema, values).value;
    forall i :: x.Place(RecordLength(ops, before, name, values)) <= i < |tuples| ==> tuples[i] == tuple
  }

  /** An INSERT keeps insertion order if and only if no different row stands behind its
      place; and there is no row at all behind it exactly if the record goes to the last
      page or a new one. */
  lemma InsertOrderExactly(ops: FloatOps, before: Snapshot, name: Bytes, values: seq<SqlExpr>)
    requires Sane(before) && name in before.rows && InsertAnswer(ops, before, name, values).Ok?
    ensures var x, rel := before.extents[name], before.rows[name];
            var tuple, len := InsertMeaning(ops, name, rel.schema, values).value,
                              RecordLength(ops, before, name, values);
            var after := WithInserted(ops, before, name, values);
            && x.schema == rel.schema && name in after.rows && after.rows[name].schema == rel.schema
            && x.Place(len) <= |rel.tuples|
            && multiset(after.rows[name].tuples) == multiset(rel.tuples) + multiset{tuple}
            && (after.rows[name].tuples == rel.tuples + [tuple] <==> AtEnd(ops, before, name, values))
            && (x.Place(len) == |rel.tuples| <==> !x.Stays(len) || x.InOrder())
  {
    hide Offered, InsertMeaning, FileName, Extent.Stays, Extent.Answer, RowCount, SmallRows, Extent.With, InsertAt;
    var x, rel, len := before.extents[name], before.rows[name], RecordLength(ops, before, name, values);
    assert FillsFit(x, rel);
    OfferedMeans(ops, name, rel.schema, values);
    PlaceInside(x, len);
    InsertAtEndExactly(rel.tuples, x.Place(len), InsertMeaning(ops, name, rel.schema, values).value);
    InsertedMultiset(rel.tuples, x.Place(len), InsertMeaning(ops, name, rel.schema, values).value);
  }

  lemma InsertedMultiset<T>(s: seq<T>, k: nat, x: T)
    requires k <= |s|
    ensures multiset(InsertAt(s, k, x)) == multiset(s) + multiset{x}
  {
  }

  lemma PlaceInside(x: Extent, len: nat)
    requires 1 <= x.current < |x.fills|
    requires forall i :: 1 <= i < |x.fills| ==> x.fills[i].kind.Heap? && (i > 1 ==> x.fills[i].count > 0)
    ensures x.Place(len) <= RowCount(x.fills)
    ensures x.Place(len) == RowCount(x.fills) <==> !x.Stays(len) || x.InOrder()
  {
    hide Extent.Stays;
    var later := x.fills[x.current + 1..];
    RowCountJoins(x.fills[..x.current + 1], later);
    assert x.fills == x.fills[..x.current + 1] + later;
    assert later != [] ==> later[0] == x.fills[x.current + 1];
  }

  /** Every INSERT into the table between a and b that answered Ok kept the order. */
  ghost predicate KeepsOrder(ops: FloatOps, life: Life, name: Bytes, a: nat, b: nat)
    requires b <= |life.answers| <= |life.events| && |life.history| == |life.answers| + 1
  {
    forall i {:trigger life.answers[i]} :: a <= i < b && InsertsInto(life.events[i], name) && life.answers[i].Ok? ==>
      KeptBy(ops, life.history[i], name, life.events[i].stmt.values)
  }

  ghost predicate KeptBy(ops: FloatOps, before: Snapshot, name: Bytes, values: seq<SqlExpr>) {
    InsertAnswer(ops, before, name, values).Ok? && name in before.rows && AtEnd(ops, before, name, values)
  }

  /** One event, seen from one table. */
  lemma RowsStep(ops: FloatOps, before: Snapshot, e: Event, r: Outcome<seq<Tuple>>, after: Snapshot, name: Bytes)
    requires Sane(before) && EventMeaning(ops, before, e, r, after) && name in before.rows
    ensures name in after.rows && after.rows[name].schema == before.rows[name].schema
    ensures !(InsertsInto(e, name) && r.Ok?) ==> after.rows[name].tuples == before.rows[name].tuples
    ensures InsertsInto(e, name) && r.Ok? ==>
              var meaning := InsertMeaning(ops, name, before.rows[name].schema, e.stmt.values);
              && meaning.Ok?
              && multiset(after.rows[name].tuples) == multiset(before.rows[name].tuples) + multiset{meaning.value}
              && (after.rows[name].tuples == before.rows[name].tuples + [meaning.value] <==>
                    KeptBy(ops, before, name, e.stmt.values))
  {
    hide InsertMeaning, SelectMeaning, FileName, OpenBytes, AtEnd, Extent.Place, Extent.With, Extent.Answer, FillsFit,
         InsertAt, PageTakes, SelectBinds, BindAll, Admitted;
    if InsertsInto(e, name) && r.Ok? {
      OfferedMeans(ops, name, before.extents[name].schema, e.stmt.values);
      InsertOrderExactly(ops, before, name, e.stmt.values);
    }
  }

  lemma OfferedMeans(ops: FloatOps, name: Bytes, schema: Schema, values: seq<SqlExpr>)
    ensures Offered(ops, name, schema, values).Ok? ==>
              var meaning := InsertMeaning(ops, name, schema, values);
              meaning.Ok? && Offered(ops, name, schema, values).value == Encode(meaning.value, schema)
  {
    hide InsertMeaning, BindAll, IsValidTuple, Encode;
  }

  /** The rows of a table are those it had at event a and the tuples of the INSERTs that
      succeeded since, whatever else happened, restarts included; in order, if every
      insert kept it. */
  lemma {:induction false} RowsAreInserts(ops: FloatOps, life: Life, name: Bytes, a: nat, b: nat)
    requires IsLife(ops, life) && a <= b <= |life.answers| && name in life.history[a].rows
    ensures name in life.history[b].rows && life.history[b].rows[name].schema == life.history[a].rows[name].schema
    ensures var inserted := SuccessfulInserts(ops, life, name, life.history[a].rows[name].schema, a, b);
            && multiset(life.history[b].rows[name].tuples)
                 == multiset(life.history[a].rows[name].tuples) + multiset(inserted)
            && (KeepsOrder(ops, life, name, a, b) ==>
                  life.history[b].rows[name].tuples == life.history[a].rows[name].tuples + inserted)
    decreases b - a
  {
    hide InsertMeaning, FileName, IsLife, EventMeaning, Sane, KeptBy;
    LifeSizes(ops, life);
    var schema := life.history[a].rows[name].schema;
    if a < b {
      var i := b - 1;
      RowsAreInserts(ops, life, name, a, i);
      StepOf(ops, life, i);
      RowsStep(ops, life.history[i], life.events[i], life.answers[i], life.history[i + 1], name);
      OrderBefore(ops, life, name, a, b);
      if InsertsInto(life.events[i], name) && life.answers[i].Ok? {
        OneInsertMore(life.history[a].rows[name].tuples, life.history[i].rows[name].tuples,
                      life.history[b].rows[name].tuples, SuccessfulInserts(ops, life, name, schema, a, i),
                      InsertMeaning(ops, name, schema, life.events[i].stmt.values).value);
      }
    }
  }

  lemma OrderBefore(ops: FloatOps, life: Life, name: Bytes, a: nat, b: nat)
    requires a < b <= |life.answers| <= |life.events| && |life.history| == |life.answers| + 1
    ensures KeepsOrder(ops, life, name, a, b) <==>
              && KeepsOrder(ops, life, name, a, b - 1)
              && (InsertsInto(life.events[b - 1], name) && life.answers[b - 1].Ok? ==>
                    KeptBy(ops, life.history[b - 1], name, life.events[b - 1].stmt.values))
  {
    hide KeptBy;
    assert life.answers[b - 1] == life.answers[b - 1];
  }

  /** At every point from a to b the rows are those at a and the inserts since, in order. */
  ghost predicate Ordered(ops: FloatOps, life: Life, name: Bytes, a: nat, b: nat)
    requires a <= b <= |life.answers| <= |life.events| && |life.history| == |life.answers| + 1
    requires name in life.history[a].rows
  {
    var rel := life.history[a].rows[name];
    forall c {:trigger life.history[c]} :: a <= c <= b ==>
      && name in life.history[c].rows
      && life.history[c].rows[name].tuples == rel.tuples + SuccessfulInserts(ops, life, name, rel.schema, a, c)
  }

  /** A table keeps insertion order, restarts or not, if and only if every insert did. */
  lemma {:induction false} OrderExactly(ops: FloatOps, life: Life, name: Bytes, a: nat, b: nat)
    requires IsLife(ops, life) && a <= b <= |life.answers| && name in life.history[a].rows
    ensures Ordered(ops, life, name, a, b) <==> KeepsOrder(ops, life, name, a, b)
    decreases b - a
  {
    hide InsertMeaning, IsLife, EventMeaning, Sane, KeptBy, Ordered, KeepsOrder, SuccessfulInserts;
    LifeSizes(ops, life);
    if a == b {
      OrderedAtFirst(ops, life, name, a);
    } else {
      OrderExactly(ops, life, name, a, b - 1);
      StillKnown(ops, life, name, a, b - 1);
      StillKnown(ops, life, name, a, b);
      OrderBefore(ops, life, name, a, b);
      OrderedBefore(ops, life, name, a, b);
      if Ordered(ops, life, name, a, b - 1) { OrderStep(ops, life, name, a, b); }
    }
  }

  lemma StillKnown(ops: FloatOps, life: Life, name: Bytes, a: nat, b: nat)
    requires IsLife(ops, life) && a <= b <= |life.answers| && name in life.history[a].rows
    ensures name in life.history[b].rows && life.history[b].rows[name].schema == life.history[a].rows[name].schema
  {
    hide IsLife;
    RowsAreInserts(ops, life, name, a, b);
  }

  lemma OrderedAtFirst(ops: FloatOps, life: Life, name: Bytes, a: nat)
    requires a <= |life.answers| <= |life.events| && |life.history| == |life.answers| + 1
    requires name in life.history[a].rows
    ensures Ordered(ops, life, name, a, a) && KeepsOrder(ops, life, name, a, a)
  {
    hide KeptBy, InsertMeaning;
    var tuples := life.history[a].rows[name].tuples;
    assert tuples + [] == tuples;
  }

  /** After rows in order, one more event keeps them so if and only if its insert does. */
  lemma OrderStep(ops: FloatOps, life: Life, name: Bytes, a: nat, b: nat)
    requires IsLife(ops, life) && a < b <= |life.answers| && name in life.history[a].rows
    requires Ordered(ops, life, name, a, b - 1) && name in life.history[b].rows
    ensures var rel, i := life.history[a].rows[name], b - 1;
            life.history[b].rows[name].tuples == rel.tuples + SuccessfulInserts(ops, life, name, rel.schema, a, b) <==>
              (InsertsInto(life.events[i], name) && life.answers[i].Ok? ==>
                 KeptBy(ops, life.history[i], name, life.events[i].stmt.values))
  {
    hide InsertMeaning, IsLife, EventMeaning, Sane, KeptBy;
    LifeSizes(ops, life);
    var rel, i := life.history[a].rows[name], b - 1;
    assert life.history[i] == life.history[i];
    StillKnown(ops, life, name, a, i);
    StepOf(ops, life, i);
    RowsStep(ops, life.history[i], life.events[i], life.answers[i], life.history[b], name);
    if InsertsInto(life.events[i], name) && life.answers[i].Ok? {
      Regroup(rel.tuples, SuccessfulInserts(ops, life, name, rel.schema, a, i),
              [InsertMeaning(ops, name, rel.schema, life.events[i].stmt.values).value]);
    }
  }

  lemma OrderedBefore(ops: FloatOps, life: Life, name: Bytes, a: nat, b: nat)
    requires a < b <= |life.answers| <= |life.events| && |life.history| == |life.answers| + 1
    requires name in life.history[a].rows && name in life.history[b].rows
    ensures var rel := life.history[a].rows[name];
            Ordered(ops, life, name, a, b) <==>
              && Ordered(ops, life, name, a, b - 1)
              && life.history[b].rows[name].tuples == rel.tuples + SuccessfulInserts(ops, life, name, rel.schema, a, b)
  {
    hide InsertMeaning, SuccessfulInserts;
    assert life.history[b] == life.history[b];
  }

  lemma OneInsertMore(start: seq<Tuple>, mid: seq<Tuple>, end: seq<Tuple>, inserted: seq<Tuple>, tuple: Tuple)
    requires multiset(mid) == multiset(start) + multiset(inserted) && multiset(end) == multiset(mid) + multiset{tuple}
    ensures multiset(end) == multiset(start) + multiset(inserted + [tuple])
    ensures mid == start + inserted && end == mid + [tuple] ==> end == start + (inserted + [tuple])
  {
  }

  lemma LifeSizes(ops: FloatOps, life: Life)
    requires IsLife(ops, life)
    ensures |life.history| == |life.answers| + 1 && |life.answers| <= |life.events|
  {
  }

  /** Event `created` made the table: a CREATE TABLE that answered Ok, on a name not in
      use and a file not there. */
  ghost predicate MakesTable(life: Life, created: nat, name: Bytes, schema: Schema) {
    && created < |life.answers| <= |life.events| && |life.history| == |life.answers| + 1
    && life.events[created] == Do(CreateTable(name, schema)) && life.answers[created].Ok?
    && IsNew(life.history[created], name)
  }

  lemma MadeEmpty(ops: FloatOps, life: Life, created: nat, name: Bytes, schema: Schema)
    requires IsLife(ops, life) && MakesTable(life, created, name, schema)
    ensures var after := life.history[created + 1];
            && name in after.rows && after.rows[name] == Relation(schema, [])
            && name in after.extents && after.extents[name].InOrder()
  {
    hide FileName, IsLife, PageTakes, OpenBytes;
    StepOf(ops, life, created);
  }

  /** `SELECT *` means all the tuples. */
  lemma SelectStarMeaning(ops: FloatOps, name: Bytes, rel: Relation)
    ensures SelectMeaning(ops, name, rel, [Wildcard], None) == Ok(rel.tuples)
  {
    hide SqlSelected, Selected;
    var t := NamedSchema(name, rel.schema);
    assert AllColumns([Wildcard]) by { assert [Wildcard][0].Wildcard?; }
    assert SelectBinds([Wildcard], None, [t]);
    BoundColumns([Wildcard], None, ops, t);
    BoundSelect(ops, [Wildcard], None, t, rel.tuples);
    SelectAll(BoundQuery(ops, [Wildcard], None, t), rel.tuples);
  }

  /** `SELECT *` on a table made in this life answers exactly the tuples of the INSERTs
      that answered Ok since, whatever else happened in between - as many of each, and in
      insertion order if every insert kept it. */
  lemma SelectStarIsInserts(ops: FloatOps, life: Life, name: Bytes, schema: Schema, created: nat, k: nat)
    requires IsLife(ops, life) && MakesTable(life, created, name, schema)
    requires created < k < |life.answers| && life.events[k] == Do(Select(name, [Wildcard], None))
    ensures life.answers[k].Ok?
    ensures multiset(life.answers[k].value) == multiset(SuccessfulInserts(ops, life, name, schema, created + 1, k))
    ensures KeepsOrder(ops, life, name, created + 1, k) ==>
              life.answers[k].value == SuccessfulInserts(ops, life, name, schema, created + 1, k)
  {
    hide InsertMeaning, SelectMeaning, FileName, MakesTable, IsLife;
    LifeSizes(ops, life);
    MadeEmpty(ops, life, created, name, schema);
    RowsAreInserts(ops, life, name, created + 1, k);
    var expected := SuccessfulInserts(ops, life, name, schema, created + 1, k);
    assert [] + expected == expected;
    StepOf(ops, life, k);
    SelectStarMeaning(ops, name, life.history[k].rows[name]);
  }

  /** With a WHERE: the tuples among them of which it is true. */
  lemma SelectWhereIsInserts(ops: FloatOps, life: Life, name: Bytes, schema: Schema, created: nat, k: nat,
                             items: seq<SelectItem>, filter: Option<SqlExpr>)
    requires IsLife(ops, life) && MakesTable(life, created, name, schema)
    requires created < k < |life.answers| && life.events[k] == Do(Select(name, items, filter))
    requires AllColumns(items) && SelectBinds(items, filter, [NamedSchema(name, schema)]) && life.answers[k].Ok?
    ensures var inserted := SuccessfulInserts(ops, life, name, schema, created + 1, k);
            var wanted := Filter(inserted, t => Wanted(ops, filter, [NamedSchema(name, schema)], t));
            && multiset(life.answers[k].value) == multiset(wanted)
            && (KeepsOrder(ops, life, name, created + 1, k) ==> life.answers[k].value == wanted)
  {
    hide InsertMeaning, StepMeaning, FileName, MakesTable, IsLife, SelectBinds, Wanted, AllColumns, KeepsOrder, Filter,
         Sane;
    LifeSizes(ops, life);
    MadeEmpty(ops, life, created, name, schema);
    RowsAreInserts(ops, life, name, created + 1, k);
    var expected := SuccessfulInserts(ops, life, name, schema, created + 1, k);
    assert [] + expected == expected;
    StepOf(ops, life, k);
    KnownInUse(life.history[k], name);
    SelectAnswers(ops, life.history[k], name, items, filter, life.answers[k], life.history[k + 1]);
    FilterCounts(life.history[k].rows[name].tuples, expected,
                 t => Wanted(ops, filter, [NamedSchema(name, schema)], t));
  }

  lemma KnownInUse(s: Snapshot, name: Bytes)
    requires Sane(s) && name in s.rows
    ensures InUse(s, name)
  {
    hide FillsFit, FileName;
  }

  predicate NoRestart(life: Life, a: nat, b: nat)
    requires b <= |life.events|
  {
    forall i {:trigger life.events[i]} :: a <= i < b ==> life.events[i].Do?
  }

  predicate NoInsert(life: Life, name: Bytes, a: nat, b: nat)
    requires b <= |life.events|
  {
    forall i {:trigger life.events[i]} :: a <= i < b ==> !InsertsInto(life.events[i], name)
  }

  /** Until a restart a table that fills its last page goes on doing so. */
  lemma {:induction false} StaysInOrder(ops: FloatOps, life: Life, name: Bytes, a: nat, b: nat)
    requires IsLife(ops, life) && a <= b <= |life.answers| && NoRestart(life, a, b)
    requires name in life.history[a].extents && life.history[a].extents[name].InOrder()
    ensures name in life.history[b].extents && life.history[b].extents[name].InOrder()
    decreases b - a
  {
    hide IsLife, StepMeaning, Sane, Extent.InOrder;
    LifeSizes(ops, life);
    if a < b {
      StaysInOrder(ops, life, name, a, b - 1);
      StepOf(ops, life, b - 1);
      assert life.events[b - 1].Do?;
      InOrderStep(ops, life.history[b - 1], life.events[b - 1].stmt, life.answers[b - 1], life.history[b], name);
    }
  }

  lemma InOrderStep(ops: FloatOps, before: Snapshot, stmt: Statement, r: Outcome<seq<Tuple>>, after: Snapshot,
                    name: Bytes)
    requires Sane(before) && StepMeaning(ops, before, stmt, r, after)
    requires name in before.extents && before.extents[name].InOrder()
    ensures name in after.extents && after.extents[name].InOrder()
  {
    hide SelectMeaning, FileName, PageTakes, OpenBytes, InsertMeaning, Offered, InsertAt, Extent.Place, OneMore,
         FillsFit, SelectBinds, Extent.Answer, Extent.Stays, CreateAnswer;
    if stmt.Insert? && InUse(before, stmt.table) {
      var record := Offered(ops, stmt.table, before.extents[stmt.table].schema, stmt.values);
      if record.Ok? { StaysThere(before.extents[stmt.table], |record.value|); }
    }
  }

  /** A table made in this life keeps insertion order if there was no restart before its
      last insert: later restarts do not matter. */
  lemma OrderIsKept(ops: FloatOps, life: Life, name: Bytes, schema: Schema, created: nat, last: nat, k: nat)
    requires IsLife(ops, life) && MakesTable(life, created, name, schema) && created < last <= k <= |life.answers|
    requires NoRestart(life, created + 1, last) && NoInsert(life, name, last, k)
    ensures KeepsOrder(ops, life, name, created + 1, k)
  {
    hide IsLife, FileName, MakesTable, KeptBy, Sane, Extent.InOrder, InsertAnswer, WithInserted;
    LifeSizes(ops, life);
    MadeEmpty(ops, life, created, name, schema);
    forall i {:trigger life.answers[i]} |
      created + 1 <= i < k && InsertsInto(life.events[i], name) && life.answers[i].Ok?
      ensures KeptBy(ops, life.history[i], name, life.events[i].stmt.values)
    {
      StaysInOrder(ops, life, name, created + 1, i);
      RowsAreInserts(ops, life, name, created + 1, i);
      StepOf(ops, life, i);
      InOrderKeeps(ops, life.history[i], name, life.events[i].stmt.values);
    }
  }

  lemma InOrderKeeps(ops: FloatOps, before: Snapshot, name: Bytes, values: seq<SqlExpr>)
    requires Sane(before) && name in before.rows && InsertAnswer(ops, before, name, values).Ok?
    requires name in before.extents && before.extents[name].InOrder()
    ensures KeptBy(ops, before, name, values)
  {
    hide Offered, InsertMeaning, FileName, Extent.Stays, Extent.Answer, Extent.Place, FillsFit, WithInserted;
    InsertOrderExactly(ops, before, name, values);
  }

  // ----- lives that lose nothing

  /** An INSERT of a small tuple that suits the schema, into a table whose file can grow. */
  ghost predicate SmallInsert(ops: FloatOps, before: Snapshot, values: seq<SqlExpr>, name: Bytes, schema: Schema) {
    && name in before.extents && |before.extents[name].fills| < MAX_PAGES
    && var record := Offered(ops, name, schema, values);
       record.Ok? && |record.value| <= SMALL
  }

  ghost predicate AllSmall(ops: FloatOps, life: Life, name: Bytes, schema: Schema, a: nat, b: nat)
    requires b <= |life.answers| <= |life.events| && |life.history| == |life.answers| + 1
  {
    forall i {:trigger life.events[i]} :: a <= i < b && InsertsInto(life.events[i], name) ==>
      SmallInsert(ops, life.history[i], life.events[i].stmt.values, name, schema)
  }

  lemma SmallReordered(a: seq<Tuple>, b: seq<Tuple>, schema: Schema)
    requires multiset(a) == multiset(b) && SmallRows(b, schema)
    ensures SmallRows(a, schema)
  {
    hide Encode;
    forall i | 0 <= i < |a|
      ensures |Encode(a[i], schema)| <= SMALL
    {
      assert a[i] in multiset(b);
    }
  }

  /** When all INSERTs into a table are small, none is ever refused: every one answers Ok. */
  lemma {:induction false} NothingIsLost(ops: FloatOps, life: Life, name: Bytes, schema: Schema, created: nat, b: nat)
    requires IsLife(ops, life) && MakesTable(life, created, name, schema) && created < b <= |life.answers|
    requires AllSmall(ops, life, name, schema, created + 1, b)
    ensures forall i {:trigger life.answers[i]} :: created < i < b && InsertsInto(life.events[i], name) ==>
              life.answers[i] == Ok([])
    ensures SmallRows(SuccessfulInserts(ops, life, name, schema, created + 1, b), schema)
    decreases b
  {
    hide InsertMeaning, MakesTable, Encode, IsLife, SmallInsert, SmallRows, AllSmall;
    LifeSizes(ops, life);
    if b == created + 1 { NoneIsSmall(schema); }
    else {
      var i := b - 1;
      SmallBefore(ops, life, name, schema, created + 1, b);
      NothingIsLost(ops, life, name, schema, created, i);
      if InsertsInto(life.events[i], name) {
        NextIsTaken(ops, life, name, schema, created, i);
        OneMoreSmall(SuccessfulInserts(ops, life, name, schema, created + 1, i),
                     InsertMeaning(ops, name, schema, life.events[i].stmt.values).value, schema);
      }
    }
  }

  lemma SmallBefore(ops: FloatOps, life: Life, name: Bytes, schema: Schema, a: nat, b: nat)
    requires a < b <= |life.answers| <= |life.events| && |life.history| == |life.answers| + 1
    requires AllSmall(ops, life, name, schema, a, b)
    ensures AllSmall(ops, life, name, schema, a, b - 1)
    ensures InsertsInto(life.events[b - 1], name) ==>
              SmallInsert(ops, life.history[b - 1], life.events[b - 1].stmt.values, name, schema)
  {
    hide SmallInsert;
  }

  lemma NextIsTaken(ops: FloatOps, life: Life, name: Bytes, schema: Schema, created: nat, i: nat)
    requires IsLife(ops, life) && MakesTable(life, created, name, schema) && created < i < |life.answers|
    requires InsertsInto(life.events[i], name)
    requires SmallInsert(ops, life.history[i], life.events[i].stmt.values, name, schema)
    requires SmallRows(SuccessfulInserts(ops, life, name, schema, created + 1, i), schema)
    ensures life.answers[i] == Ok([])
    ensures var meaning := InsertMeaning(ops, name, schema, life.events[i].stmt.values);
            meaning.Ok? && |Encode(meaning.value, schema)| <= SMALL
  {
    hide InsertMeaning, MakesTable, Encode, IsLife, SmallRows, StepMeaning, SuccessfulInserts, Offered, Sane;
    LifeSizes(ops, life);
    MadeEmpty(ops, life, created, name, schema);
    RowsAreInserts(ops, life, name, created + 1, i);
    SmallReordered(life.history[i].rows[name].tuples,
                   SuccessfulInserts(ops, life, name, schema, created + 1, i), schema);
    StepOf(ops, life, i);
    OfferedMeans(ops, name, schema, life.events[i].stmt.values);
    SmallAnswersOk(ops, life.history[i], life.events[i].stmt.values, name, life.answers[i], life.history[i + 1]);
  }

  lemma NoneIsSmall(schema: Schema)
    ensures SmallRows([], schema)
  {
  }

  lemma OneMoreSmall(tuples: seq<Tuple>, tuple: Tuple, schema: Schema)
    requires SmallRows(tuples, schema) && |Encode(tuple, schema)| <= SMALL
    ensures SmallRows(tuples + [tuple], schema)
  {
    hide Encode;
  }

  lemma SmallAnswersOk(ops: FloatOps, before: Snapshot, values: seq<SqlExpr>, name: Bytes, r: Outcome<seq<Tuple>>,
                       after: Snapshot)
    requires Sane(before) && StepMeaning(ops, before, Insert(name, values), r, after) && name in before.rows
    requires SmallInsert(ops, before, values, name, before.rows[name].schema)
    requires SmallRows(before.rows[name].tuples, before.rows[name].schema)
    ensures r == Ok([])
  {
    hide Offered, SmallRows, FileName, WithInserted, RowCount;
    var x, len := before.extents[name], |Offered(ops, name, before.rows[name].schema, values).value|;
    assert FillsFit(x, before.rows[name]);
    SmallFillTakes(x.fills[x.current], len);
  }
}
