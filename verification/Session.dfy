/** Statements from SQL expression to answer (src/planner/binder.rs,
    src/execution/executor.rs). */
module Sessions {
  import opened Bytes
  import opened Outcomes
  import opened SlottedPages
  import opened ClockSweep
  import opened PoolModel
  import opened HeapFiles
  import opened Values
  import opened RecordCodec
  import opened Expressions
  import opened Binding
  import opened SeqScans
  import opened CatalogCodec
  import opened DatabaseState
  import opened Databases

  datatype Statement =
    | Select(table: Bytes, items: seq<SelectItem>, filter: Option<SqlExpr>)
    | Insert(table: Bytes, values: seq<SqlExpr>)
    | CreateTable(name: Bytes, schema: Schema)

  /** String literals and names are Rust strings. */
  predicate StatementIsText(stmt: Statement) {
    match stmt
    case Select(_, _, _) => true
    case Insert(_, values) => forall i :: 0 <= i < |values| ==> IsText(values[i])
    case CreateTable(name, schema) => ValidUtf8(name) && NamesAreText(schema)
  }

  // ----- the insert arm of the executor

  /** The record an INSERT comes to: its values, if they evaluate and suit the schema,
      as bytes that fit on an empty page. */
  function Admitted(vals: Outcome<Tuple>, schema: Schema): Outcome<Bytes> {
    var tuple :- vals;
    var valid :- IsValidTuple(schema, tuple);
    if !valid then Err(TupleDoesntMatchSchema)
    else if |Encode(tuple, schema)| > MAX_RECORD then Err(RecordTooLarge)
    else Ok(Encode(tuple, schema))
  }

  /** What becomes of values, reason by reason: another number of them than the schema has
      columns is refused; else the first one that is Null or of another type decides, a
      Null by a panic; and else only a record that fits on no page is refused. */
  lemma AdmittedExactly(tuple: Tuple, schema: Schema)
    ensures |tuple| != |schema| ==> Admitted(Ok(tuple), schema) == Err(TupleDoesntMatchSchema)
    ensures forall i: nat :: FirstMisfit(schema, tuple, i) ==>
              Admitted(Ok(tuple), schema) == if tuple[i].Null? then Panic else Err(TupleDoesntMatchSchema)
    ensures |tuple| == |schema| && (forall i :: 0 <= i < |tuple| ==> !Misfit(schema, tuple, i)) ==>
              Admitted(Ok(tuple), schema) ==
                if |Encode(tuple, schema)| > 8169 then Err(RecordTooLarge) else Ok(Encode(tuple, schema))
  {
    hide Encode, IsValidTuple, Misfit;
    TupleCheckExactly(schema, tuple);
  }

  predicate TypedValues(vals: Outcome<Tuple>) {
    vals.Ok? ==> forall i :: 0 <= i < |vals.value| ==> WellTyped(vals.value[i])
  }

  /** What an admitted record is: the encoding of a tuple a table may store. */
  lemma AdmittedIsStorable(vals: Outcome<Tuple>, schema: Schema)
    requires TypedValues(vals) && Admitted(vals, schema).Ok?
    ensures vals.Ok? && Storable(vals.value, schema)
    ensures Admitted(vals, schema).value == Encode(vals.value, schema) && |Admitted(vals, schema).value| <= MAX_RECORD
  {
    hide Encode, WellTyped;
    ValidTuples(schema, vals.value);
  }

  /** What the storage answers to a record for a table, given frames or not. */
  ghost function StorageAnswer(v: PageMap, t: Table, rec: Bytes, frames: bool): Outcome<EntryId>
    requires PagesOk(v)
  {
    if |rec| <= MAX_RECORD && !frames then Err(Unknown) else HeapAnswer(v, PageId(t.file, t.current), rec)
  }

  /** Evaluated values go into a table: the reason why there is no record, or the
      storage's own answer; if that is Ok, the record is new at `rid`, on the current
      page or a new last one, and nothing else in any file changed. */
  ghost predicate Inserts(w: World, x: World, id: nat, vals: Outcome<Tuple>, frames: bool, r: Outcome<()>, rid: EntryId)
    requires id in w.d.tables
  {
    var t := w.d.tables[id];
    var record := Admitted(vals, t.schema);
    if !record.Ok? then r == record.PropagateFailure() && x == w
    else
      && PagesOk(w.v)
      && var answer := StorageAnswer(w.v, t, record.value, frames);
         if !answer.Ok? then r == answer.PropagateFailure() && x == w
         else
           && r.Ok? && answer.value == rid && HeapInsert(w.v, x.v, t.file, record.value, rid)
           && 1 <= rid.page && FilePagesOk(w.v[t.file])
           && x == w.(v := x.v, d := WithRow(w.d, id, rid.page, RowPlace(w.v[t.file], rid.page), vals.value))
  }

  /** An insert keeps all promises. */
  lemma InsertKeeps(w: World, x: World, id: nat, vals: Outcome<Tuple>, frames: bool, r: Outcome<()>, rid: EntryId)
    requires WorldOk(w) && id in w.d.tables && Inserts(w, x, id, vals, frames, r, rid) && TypedValues(vals)
    ensures WorldOk(x)
  {
    hide Consistent, PagesOk, FilePagesOk, StorageAnswer, HeapInsert, WithRow, RowPlace, Storable, Encode, WellTyped;
    if r.Ok? {
      AdmittedIsStorable(vals, w.d.tables[id].schema);
      InsertConsistent(w.d, w.v, x.v, w.paths, w.closed, id, vals.value, rid);
    }
  }

  /** A record goes into a table, whose current page follows. */
  method StoreRecord(db: Database, id: nat, record: Bytes, ghost tuple: Tuple) returns (r: Outcome<EntryId>)
    requires db.Usable() && id in db.tables
    modifies db`tables, db`rows, db.pool, db.pool.frames, db.pool.buffers, db.pool.storage`files
    ensures db.Usable()
    ensures r == StorageAnswer(old(db.pool.Pages()), old(db.tables)[id], record, |db.pool.frames| > 0)
    ensures !r.Ok? ==> db.World() == old(db.World())
    ensures r.Ok? ==>
              var w, f := old(db.World()), old(db.tables)[id].file;
              && 1 <= r.value.page && f in w.v && FilePagesOk(w.v[f])
              && HeapInsert(w.v, db.pool.Pages(), f, record, r.value)
              && db.World() == w.(v := db.pool.Pages(),
                                  d := WithRow(w.d, id, r.value.page, RowPlace(w.v[f], r.value.page), tuple))
  {
    hide db.pool.Valid, db.pool.Pages, PagesOk, ClosedOk, HeapAnswer, HeapInsert, WithRow, RowPlace, FilePagesOk,
         TablesThere, OneMore;
    ghost var w := db.World();
    TableThere(db.tables, w.v, id);
    var t := db.tables[id];
    FilesHavePages(db.pool, t.file);
    var inserted, current, _ := InsertRecord(db.pool, t.file, t.current, record);
    r := inserted;
    if !r.Ok? {
      assert db.tables[id := t.(current := current)] == db.tables;
      return;
    }
    HeapInsertPages(w.v, db.pool.Pages(), t.file, record, r.value);
    FileOfMap(w.v, t.file);
    WithRowIs(w.d, id, current, RowPlace(w.v[t.file], current), tuple);
    StillThere(db.tables, w.v, db.pool.Pages(), id, t.(current := current));
    db.tables := db.tables[id := t.(current := current)];
    db.rows := OneMore(db.rows, t.name, RowPlace(w.v[t.file], current), tuple);
  }

  /** Evaluate the values without a row, check them against the schema, encode them
      and insert the record. */
  method ExecuteInsert(db: Database, ops: FloatOps, id: nat, values: seq<Expr>)
    returns (r: Outcome<()>, ghost rid: EntryId)
    requires db.Usable() && id in db.tables
    modifies db`tables, db`rows, db.pool, db.pool.frames, db.pool.buffers, db.pool.storage`files
    ensures db.Usable() && (r.Ok? ==> r == Ok(()))
    ensures Inserts(old(db.World()), db.World(), id, EvaluateAll(ops, values, None), |db.pool.frames| > 0, r, rid)
  {
    hide db.pool.Valid, db.pool.Pages, PagesOk, ClosedOk, StorageAnswer, Encode, HeapInsert, WithRow, RowPlace,
         FilePagesOk, Inserts, Admitted, EvaluateAll, TablesThere, IsValidTuple;
    ghost var w := db.World();
    rid := EntryId(0, 0);
    var t := db.tables[id];
    var vals := EvaluateAll(ops, values, None);
    NotAdmitted(w, id, vals, |db.pool.frames| > 0);
    if !vals.Ok? {
      return vals.PropagateFailure(), rid;
    }
    var valid := IsValidTuple(t.schema, vals.value);
    if !valid.Ok? {
      return valid.PropagateFailure(), rid;
    }
    if !valid.value {
      return Err(TupleDoesntMatchSchema), rid;
    }
    var record := Serialize(vals.value, t.schema);
    var stored := StoreRecord(db, id, record, vals.value);
    if !stored.Ok? {
      r := stored.PropagateFailure();
      Refused(w, id, vals, |db.pool.frames| > 0, r);
      return;
    }
    rid := stored.value;
    Taken(w, db.pool.Pages(), id, vals, |db.pool.frames| > 0, rid);
    r := Ok(());
  }

  lemma TableThere(tables: Tables, v: PageMap, id: nat)
    requires TablesThere(tables, v) && id in tables
    ensures tables[id].file in v && 1 <= tables[id].current
  {
  }

  lemma StillThere(tables: Tables, v: PageMap, w: PageMap, id: nat, t: Table)
    requires TablesThere(tables, v) && w.Keys == v.Keys && t.file in v && 1 <= t.current
    ensures TablesThere(tables[id := t], w)
  {
  }

  /** Why there is no record: the first of the checks that fails. */
  lemma NotAdmitted(w: World, id: nat, vals: Outcome<Tuple>, frames: bool)
    requires id in w.d.tables
    ensures !vals.Ok? ==> Inserts(w, w, id, vals, frames, vals.PropagateFailure(), EntryId(0, 0))
    ensures vals.Ok? ==>
              var valid := IsValidTuple(w.d.tables[id].schema, vals.value);
              && (!valid.Ok? ==> Inserts(w, w, id, vals, frames, valid.PropagateFailure(), EntryId(0, 0)))
              && (valid == Ok(false) ==> Inserts(w, w, id, vals, frames, Err(TupleDoesntMatchSchema), EntryId(0, 0)))
  {
    hide Encode, IsValidTuple;
  }

  /** The storage refused the record. */
  lemma Refused(w: World, id: nat, vals: Outcome<Tuple>, frames: bool, r: Outcome<()>)
    requires id in w.d.tables && vals.Ok? && IsValidTuple(w.d.tables[id].schema, vals.value) == Ok(true) && PagesOk(w.v)
    requires var t, record := w.d.tables[id], Encode(vals.value, w.d.tables[id].schema);
             var answer := StorageAnswer(w.v, t, record, frames);
             !answer.Ok? && r == answer.PropagateFailure()
    ensures Inserts(w, w, id, vals, frames, r, EntryId(0, 0))
  {
    hide Encode, IsValidTuple, PagesOk, PageAnswer;
  }

  /** The storage took the record. */
  lemma Taken(w: World, v: PageMap, id: nat, vals: Outcome<Tuple>, frames: bool, rid: EntryId)
    requires id in w.d.tables && vals.Ok? && IsValidTuple(w.d.tables[id].schema, vals.value) == Ok(true) && PagesOk(w.v)
    requires var t, record := w.d.tables[id], Encode(vals.value, w.d.tables[id].schema);
             && StorageAnswer(w.v, t, record, frames) == Ok(rid) && HeapInsert(w.v, v, t.file, record, rid)
             && t.file in w.v && 1 <= rid.page
    ensures FilePagesOk(w.v[w.d.tables[id].file])
    ensures var d := WithRow(w.d, id, rid.page, RowPlace(w.v[w.d.tables[id].file], rid.page), vals.value);
            Inserts(w, w.(v := v, d := d), id, vals, frames, Ok(()), rid)
  {
    hide Encode, IsValidTuple, PagesOk, PageAnswer, HeapInsert, RowPlace, WithRow;
    FileOfMap(w.v, w.d.tables[id].file);
  }

  lemma WithRowIs(d: DbState, id: nat, page: nat, k: nat, tuple: Tuple)
    requires id in d.tables
    ensures WithRow(d, id, page, k, tuple)
         == d.(tables := d.tables[id := d.tables[id].(current := page)],
               rows := OneMore(d.rows, d.tables[id].name, k, tuple))
  {
  }

  // ----- what a SELECT means

  /** No items, or a wildcard among them, stand for all columns. */
  predicate AllColumns(items: seq<SelectItem>) {
    items == [] || exists i :: 0 <= i < |items| && items[i].Wildcard?
  }

  predicate SelectBinds(items: seq<SelectItem>, filter: Option<SqlExpr>, tables: seq<NamedSchema>) {
    BindItems(items, 0, tables).Ok? && (filter.Some? ==> Bind(filter.value, tables).Ok?)
  }

  /** A row of the table as the query wants it, or None if the WHERE drops it, in
      terms of the SQL expressions themselves. */
  function SqlAnswer(ops: FloatOps, items: seq<SelectItem>, filter: Option<SqlExpr>, tables: seq<NamedSchema>, t: Tuple)
    : Outcome<Option<Tuple>>
  {
    var kept :- if filter.None? then Ok(true) else Passes(SqlEval(ops, filter.value, tables, Some(t)));
    if !kept then Ok(None)
    else if AllColumns(items) then Ok(Some(t))
    else
      var image :- SqlEvalAll(ops, ItemsOf(items), tables, Some(t));
      Ok(Some(image))
  }

  function SqlSelected(ops: FloatOps, items: seq<SelectItem>, filter: Option<SqlExpr>, tables: seq<NamedSchema>,
                       tuples: seq<Tuple>): Outcome<seq<Tuple>>
  {
    if tuples == [] then Ok([])
    else
      var first :- SqlAnswer(ops, items, filter, tables, tuples[0]);
      var rest :- SqlSelected(ops, items, filter, tables, tuples[1..]);
      Ok((if first.Some? then [first.value] else []) + rest)
  }

  function SelectMeaning(ops: FloatOps, name: Bytes, rel: Relation, items: seq<SelectItem>, filter: Option<SqlExpr>)
    : Outcome<seq<Tuple>>
  {
    var tables := [NamedSchema(name, rel.schema)];
    if SelectBinds(items, filter, tables) then SqlSelected(ops, items, filter, tables, rel.tuples) else Err(ParseError)
  }

  // ----- which tuples a SELECT answers, without the code's own filter

  /** The elements that are wanted, in order. */
  ghost function Filter<T(!new)>(s: seq<T>, wanted: T -> bool): seq<T> {
    if s == [] then [] else (if wanted(s[0]) then [s[0]] else []) + Filter(s[1..], wanted)
  }

  /** These are the places of all wanted elements, each once and in their order, and `r`
      is what stands there. */
  ghost predicate Picks<T(!new)>(s: seq<T>, wanted: T -> bool, ks: seq<nat>, r: seq<T>) {
    && |ks| == |r|
    && (forall j {:trigger ks[j]} :: 0 <= j < |ks| ==> ks[j] < |s| && wanted(s[ks[j]]) && r[j] == s[ks[j]])
    && (forall i, j {:trigger ks[i], ks[j]} :: 0 <= i < j < |ks| ==> ks[i] < ks[j])
    && forall i :: 0 <= i < |s| && wanted(s[i]) ==> i in ks
  }

  lemma {:induction false} FilterPicks<T(!new)>(s: seq<T>, wanted: T -> bool) returns (ks: seq<nat>)
    ensures Picks(s, wanted, ks, Filter(s, wanted))
  {
    hide Picks, Filter;
    if s == [] {
      ks := [];
      PicksNone(s, wanted);
    } else {
      var n := |s| - 1;
      var before := FilterPicks(s[..n], wanted);
      FilterSplits(s[..n], [s[n]], wanted);
      FilterOne(s[n], wanted);
      assert s[..n] + [s[n]] == s;
      ks := if wanted(s[n]) then before + [n] else before;
      PicksOneMore(s, wanted, before, Filter(s[..n], wanted));
    }
  }

  lemma {:induction false} FilterSplits<T(!new)>(a: seq<T>, b: seq<T>, wanted: T -> bool)
    ensures Filter(a + b, wanted) == Filter(a, wanted) + Filter(b, wanted)
  {
    if a == [] {
      assert a + b == b;
    } else {
      var first := if wanted(a[0]) then [a[0]] else [];
      assert (a + b)[0] == a[0] && (a + b)[1..] == a[1..] + b;
      FilterSplits(a[1..], b, wanted);
      Regroup(first, Filter(a[1..], wanted), Filter(b, wanted));
    }
  }

  lemma FilterOne<T(!new)>(x: T, wanted: T -> bool)
    ensures Filter([x], wanted) == if wanted(x) then [x] else []
  {
    assert Filter([x][1..], wanted) == [];
  }

  lemma PicksNone<T(!new)>(s: seq<T>, wanted: T -> bool)
    requires s == []
    ensures Picks(s, wanted, [], Filter(s, wanted))
  {
  }

  lemma PicksOneMore<T(!new)>(s: seq<T>, wanted: T -> bool, before: seq<nat>, r: seq<T>)
    requires s != [] && Picks(s[..|s| - 1], wanted, before, r)
    ensures var n := |s| - 1;
            if wanted(s[n]) then Picks(s, wanted, before + [n], r + [s[n]]) else Picks(s, wanted, before, r + [])
  {
    var n := |s| - 1;
    assert r + [] == r;
    assert forall i :: 0 <= i < n ==> s[..n][i] == s[i];
    if wanted(s[n]) { assert (before + [n])[|before|] == n; }
  }

  lemma FilterCounts<T(!new)>(s: seq<T>, r: seq<T>, wanted: T -> bool)
    requires multiset(s) == multiset(r)
    ensures multiset(Filter(s, wanted)) == multiset(Filter(r, wanted))
  {
    forall x: T
      ensures multiset(Filter(s, wanted))[x] == multiset(Filter(r, wanted))[x]
    {
      FilterCount(s, wanted, x);
      FilterCount(r, wanted, x);
    }
  }

  lemma {:induction false} FilterCount<T(!new)>(s: seq<T>, wanted: T -> bool, x: T)
    ensures multiset(Filter(s, wanted))[x] == if wanted(x) then multiset(s)[x] else 0
  {
    if s != [] {
      FilterCount(s[1..], wanted, x);
      assert s == [s[0]] + s[1..];
    }
  }

  /** The WHERE, if there is one, is true of the tuple. */
  predicate Wanted(ops: FloatOps, filter: Option<SqlExpr>, tables: seq<NamedSchema>, t: Tuple) {
    filter.Some? ==> SqlEval(ops, filter.value, tables, Some(t)) == Ok(Boolean(true))
  }

  /** The WHERE is false or Null of the tuple. */
  predicate Dropped(ops: FloatOps, filter: Option<SqlExpr>, tables: seq<NamedSchema>, t: Tuple) {
    filter.Some? && (SqlEval(ops, filter.value, tables, Some(t)) == Ok(Boolean(false))
                     || SqlEval(ops, filter.value, tables, Some(t)) == Ok(Null))
  }

  /** The tuple as the SELECT's items want it. */
  function Shown(ops: FloatOps, items: seq<SelectItem>, tables: seq<NamedSchema>, t: Tuple): Outcome<Tuple> {
    if AllColumns(items) then Ok(t) else SqlEvalAll(ops, ItemsOf(items), tables, Some(t))
  }

  /** The SELECT gets past the tuple. */
  predicate Fine(ops: FloatOps, items: seq<SelectItem>, filter: Option<SqlExpr>, tables: seq<NamedSchema>, t: Tuple) {
    Dropped(ops, filter, tables, t) || (Wanted(ops, filter, tables, t) && Shown(ops, items, tables, t).Ok?)
  }

  /** What a tuple the SELECT does not get past makes it answer: what the WHERE or the
      items fail with, or that the WHERE is neither a truth value nor Null. */
  function Stop(ops: FloatOps, items: seq<SelectItem>, filter: Option<SqlExpr>, tables: seq<NamedSchema>, t: Tuple)
    : Outcome<seq<Tuple>>
    requires !Fine(ops, items, filter, tables, t)
  {
    if Wanted(ops, filter, tables, t) then Shown(ops, items, tables, t).PropagateFailure()
    else
      var v := SqlEval(ops, filter.value, tables, Some(t));
      if v.Ok? then Err(InvalidComparison) else v.PropagateFailure()
  }

  ghost predicate FirstStop(ops: FloatOps, items: seq<SelectItem>, filter: Option<SqlExpr>, tables: seq<NamedSchema>,
                            tuples: seq<Tuple>, i: nat) {
    && i < |tuples| && !Fine(ops, items, filter, tables, tuples[i])
    && forall j :: 0 <= j < i ==> Fine(ops, items, filter, tables, tuples[j])
  }

  /** The answer consists of the wanted tuples, as they are to be shown. */
  ghost predicate ShowsAll(ops: FloatOps, items: seq<SelectItem>, tables: seq<NamedSchema>, wanted: seq<Tuple>,
                           answer: seq<Tuple>) {
    |answer| == |wanted| && forall j :: 0 <= j < |wanted| ==> Shown(ops, items, tables, wanted[j]) == Ok(answer[j])
  }

  /** One tuple: shown if it is wanted, left out if the WHERE is false or Null, and
      otherwise the end of the SELECT. */
  lemma AnswerExactly(ops: FloatOps, items: seq<SelectItem>, filter: Option<SqlExpr>, tables: seq<NamedSchema>,
                      t: Tuple)
    ensures var r := SqlAnswer(ops, items, filter, tables, t);
            if !Fine(ops, items, filter, tables, t)
            then !r.Ok? && Stop(ops, items, filter, tables, t) == r.PropagateFailure()
            else if Wanted(ops, filter, tables, t) then r == Ok(Some(Shown(ops, items, tables, t).value))
            else r == Ok(None)
  {
    hide SqlEval, SqlEvalAll;
  }

  lemma {:induction false} SelectedExactly(ops: FloatOps, items: seq<SelectItem>, filter: Option<SqlExpr>,
                                           tables: seq<NamedSchema>, tuples: seq<Tuple>)
    ensures var r := SqlSelected(ops, items, filter, tables, tuples);
            && (r.Ok? <==> forall i :: 0 <= i < |tuples| ==> Fine(ops, items, filter, tables, tuples[i]))
            && (r.Ok? ==> ShowsAll(ops, items, tables, Filter(tuples, t => Wanted(ops, filter, tables, t)), r.value))
            && forall i: nat :: FirstStop(ops, items, filter, tables, tuples, i) ==>
                 r == Stop(ops, items, filter, tables, tuples[i])
  {
    hide SqlAnswer, Wanted, Dropped, Fine, Shown, Stop, SqlEval, SqlEvalAll, ShowsAll, Filter;
    if tuples == [] {
      NothingShown(ops, items, filter, tables);
    } else {
      var first, rest := tuples[0], tuples[1..];
      AnswerExactly(ops, items, filter, tables, first);
      SelectedExactly(ops, items, filter, tables, rest);
      NotBoth(ops, items, filter, tables, first);
      assert forall i :: 0 < i < |tuples| ==> tuples[i] == rest[i - 1];
      var later := SqlSelected(ops, items, filter, tables, rest);
      if Fine(ops, items, filter, tables, first) && later.Ok? {
        OneMoreShown(ops, items, filter, tables, tuples, later.value);
      }
      forall i: nat | i > 0 && FirstStop(ops, items, filter, tables, tuples, i)
        ensures Fine(ops, items, filter, tables, first) && FirstStop(ops, items, filter, tables, rest, i - 1)
      {
        assert Fine(ops, items, filter, tables, tuples[0]);
        assert forall j :: 0 <= j < i - 1 ==> rest[j] == tuples[j + 1];
      }
    }
  }

  lemma NothingShown(ops: FloatOps, items: seq<SelectItem>, filter: Option<SqlExpr>, tables: seq<NamedSchema>)
    ensures ShowsAll(ops, items, tables, Filter([], t => Wanted(ops, filter, tables, t)), [])
  {
  }

  lemma OneMoreShown(ops: FloatOps, items: seq<SelectItem>, filter: Option<SqlExpr>, tables: seq<NamedSchema>,
                     tuples: seq<Tuple>, later: seq<Tuple>)
    requires tuples != [] && ShowsAll(ops, items, tables, Filter(tuples[1..], t => Wanted(ops, filter, tables, t)),
                                      later)
    requires Wanted(ops, filter, tables, tuples[0]) ==> Shown(ops, items, tables, tuples[0]).Ok?
    ensures var shown :=
              if Wanted(ops, filter, tables, tuples[0])
              then [Shown(ops, items, tables, tuples[0]).value] + later else [] + later;
            ShowsAll(ops, items, tables, Filter(tuples, t => Wanted(ops, filter, tables, t)), shown)
  {
    hide Wanted, Shown;
    assert [] + later == later;
    var wanted := Filter(tuples[1..], t => Wanted(ops, filter, tables, t));
    assert [] + wanted == wanted;
  }

  lemma NotBoth(ops: FloatOps, items: seq<SelectItem>, filter: Option<SqlExpr>, tables: seq<NamedSchema>, t: Tuple)
    ensures Fine(ops, items, filter, tables, t) && Wanted(ops, filter, tables, t) ==> Shown(ops, items, tables, t).Ok?
  {
    hide SqlEval, Shown;
  }

  /** What a SELECT that binds means for a table's tuples. It answers Ok if and only if it
      gets past every tuple; then it shows those of which the WHERE is true, all of them
      and in their order; and otherwise the first tuple it does not get past decides. */
  lemma SelectExactly(ops: FloatOps, name: Bytes, rel: Relation, items: seq<SelectItem>, filter: Option<SqlExpr>)
    requires SelectBinds(items, filter, [NamedSchema(name, rel.schema)])
    ensures var tables, r := [NamedSchema(name, rel.schema)], SelectMeaning(ops, name, rel, items, filter);
            && (r.Ok? <==> forall i :: 0 <= i < |rel.tuples| ==> Fine(ops, items, filter, tables, rel.tuples[i]))
            && (r.Ok? ==> ShowsAll(ops, items, tables, Filter(rel.tuples, t => Wanted(ops, filter, tables, t)),
                                   r.value))
            && forall i: nat :: FirstStop(ops, items, filter, tables, rel.tuples, i) ==>
                 r == Stop(ops, items, filter, tables, rel.tuples[i])
  {
    hide SelectBinds, SqlSelected, Wanted, Fine, Shown, Stop;
    SelectedExactly(ops, items, filter, [NamedSchema(name, rel.schema)], rel.tuples);
  }

  lemma {:induction false} FirstStopOf(ops: FloatOps, items: seq<SelectItem>, filter: Option<SqlExpr>,
                                       tables: seq<NamedSchema>, tuples: seq<Tuple>, k: nat) returns (i: nat)
    requires k < |tuples| && !Fine(ops, items, filter, tables, tuples[k])
    ensures FirstStop(ops, items, filter, tables, tuples, i)
    decreases k
  {
    hide Fine;
    if j: nat :| j < k && !Fine(ops, items, filter, tables, tuples[j]) {
      i := FirstStopOf(ops, items, filter, tables, tuples, j);
    } else {
      i := k;
    }
  }

  /** A SELECT that binds panics if and only if the first tuple it does not get past
      makes it panic. */
  lemma SelectPanicsExactly(ops: FloatOps, name: Bytes, rel: Relation, items: seq<SelectItem>, filter: Option<SqlExpr>)
    requires SelectBinds(items, filter, [NamedSchema(name, rel.schema)])
    ensures var tables := [NamedSchema(name, rel.schema)];
            SelectMeaning(ops, name, rel, items, filter) == Panic <==>
              exists i: nat :: FirstStop(ops, items, filter, tables, rel.tuples, i)
                               && Stop(ops, items, filter, tables, rel.tuples[i]) == Panic
  {
    hide SelectBinds, SelectMeaning, Fine, Stop, Filter, ShowsAll;
    var tables := [NamedSchema(name, rel.schema)];
    SelectExactly(ops, name, rel, items, filter);
    if !SelectMeaning(ops, name, rel, items, filter).Ok? {
      var k: nat :| k < |rel.tuples| && !Fine(ops, items, filter, tables, rel.tuples[k]);
      var _ := FirstStopOf(ops, items, filter, tables, rel.tuples, k);
    }
  }

  /** With all columns the tuples are answered as they are. */
  lemma AllColumnsShown(ops: FloatOps, items: seq<SelectItem>, tables: seq<NamedSchema>, wanted: seq<Tuple>,
                        answer: seq<Tuple>)
    requires AllColumns(items) && ShowsAll(ops, items, tables, wanted, answer)
    ensures answer == wanted
  {
    hide AllColumns;
    forall j | 0 <= j < |wanted|
      ensures answer[j] == wanted[j]
    {
      assert Shown(ops, items, tables, wanted[j]) == Ok(answer[j]);
    }
  }

  /** The bound query of a SELECT. */
  function BoundQuery(ops: FloatOps, items: seq<SelectItem>, filter: Option<SqlExpr>, t: NamedSchema): Query
    requires SelectBinds(items, filter, [t])
  {
    var cols := BindItems(items, 0, [t]).value;
    Query(ops, t.schema, if cols.Some? then cols.value else [],
          if filter.Some? then Some(Bind(filter.value, [t]).value) else None)
  }

  lemma {:induction false} WildcardBinds(items: seq<SelectItem>, i: nat, tables: seq<NamedSchema>)
    requires i <= |items| && BindItems(items, i, tables).Ok?
    ensures BindItems(items, i, tables).value.None? <==> exists k :: i <= k < |items| && items[k].Wildcard?
    decreases |items| - i
  {
    hide Bind;
    if i < |items| && items[i].Item? { WildcardBinds(items, i + 1, tables); }
  }

  lemma {:induction false} ProjectIsEvaluateAll(q: Query, t: Tuple, cols: seq<Expr>)
    ensures ProjectTuple(q, t, cols) == EvaluateAll(q.ops, cols, Some(t))
  {
    hide Evaluate;
    if cols != [] { ProjectIsEvaluateAll(q, t, cols[1..]); }
  }

  /** The columns of the bound query are the SELECT's items, or none for all. */
  lemma BoundColumns(items: seq<SelectItem>, filter: Option<SqlExpr>, ops: FloatOps, t: NamedSchema)
    requires SelectBinds(items, filter, [t])
    ensures var cols := BoundQuery(ops, items, filter, t).cols;
            && (AllColumns(items) <==> cols == [])
            && (!AllColumns(items) ==> (forall i :: 0 <= i < |items| ==> items[i].Item?)
                                       && BindAll(ItemsOf(items), [t]) == Ok(cols))
  {
    hide Bind;
    WildcardBinds(items, 0, [t]);
    if !AllColumns(items) {
      BoundItems(items, 0, [t]);
      assert ItemsOf(items)[0..] == ItemsOf(items);
      BoundListInRange(ItemsOf(items), t);
    }
  }

  lemma BoundQueryInRange(items: seq<SelectItem>, filter: Option<SqlExpr>, ops: FloatOps, t: NamedSchema)
    requires SelectBinds(items, filter, [t])
    ensures QueryInRange(BoundQuery(ops, items, filter, t))
  {
    hide Bind, AttrsBelow;
    BoundColumns(items, filter, ops, t);
    if filter.Some? { BoundAttrsInRange(filter.value, t); }
    if !AllColumns(items) { BoundListInRange(ItemsOf(items), t); }
  }

  lemma BoundAnswer(ops: FloatOps, items: seq<SelectItem>, filter: Option<SqlExpr>, t: NamedSchema, tuple: Tuple)
    requires SelectBinds(items, filter, [t])
    ensures AnswerTuple(BoundQuery(ops, items, filter, t), tuple) == SqlAnswer(ops, items, filter, [t], tuple)
  {
    hide Bind, Evaluate, SqlEval, BindItems, BindAll;
    var q := BoundQuery(ops, items, filter, t);
    BoundColumns(items, filter, ops, t);
    if filter.Some? { BindingKeepsMeaning(ops, filter.value, [t], Some(tuple)); }
    if !AllColumns(items) {
      ProjectIsEvaluateAll(q, tuple, q.cols);
      BoundListKeepsMeaning(ops, ItemsOf(items), [t], Some(tuple));
    }
  }

  lemma {:induction false} BoundSelect(ops: FloatOps, items: seq<SelectItem>, filter: Option<SqlExpr>, t: NamedSchema,
                                       tuples: seq<Tuple>)
    requires SelectBinds(items, filter, [t])
    ensures Selected(BoundQuery(ops, items, filter, t), tuples) == SqlSelected(ops, items, filter, [t], tuples)
  {
    hide BoundQuery, SelectBinds, AnswerTuple, SqlAnswer;
    if tuples != [] {
      BoundAnswer(ops, items, filter, t, tuples[0]);
      BoundSelect(ops, items, filter, t, tuples[1..]);
    }
  }

  /** Scanning a table's file with the bound query gives what the SELECT means for the
      tuples the file holds. */
  lemma SelectRefines(ops: FloatOps, name: Bytes, rel: Relation, items: seq<SelectItem>, filter: Option<SqlExpr>,
                      ps: seq<Page>)
    requires Stores(ps, rel.schema, rel.tuples)
    requires SelectBinds(items, filter, [NamedSchema(name, rel.schema)])
    ensures FilePagesOk(ps)
    ensures Collected(BoundQuery(ops, items, filter, NamedSchema(name, rel.schema)), TableRows(ps))
         == SelectMeaning(ops, name, rel, items, filter)
  {
    hide SelectBinds, QueryInRange, Collected, Storable, Selected, SqlSelected;
    var table := NamedSchema(name, rel.schema);
    BoundQueryInRange(items, filter, ops, table);
    QuerySchema(ops, items, filter, table);
    ScanRefines(BoundQuery(ops, items, filter, table), rel.tuples);
    BoundSelect(ops, items, filter, table, rel.tuples);
  }

  lemma QuerySchema(ops: FloatOps, items: seq<SelectItem>, filter: Option<SqlExpr>, t: NamedSchema)
    requires SelectBinds(items, filter, [t])
    ensures BoundQuery(ops, items, filter, t).schema == t.schema && BoundQuery(ops, items, filter, t).ops == ops
  {
  }

  // ----- running statements

  /** `get_table`. */
  predicate Known(tables: Tables, names: Names, name: Bytes) {
    name in names && names[name] in tables
  }

  /** The select arm: bind, then scan. */
  method ExecuteSelect(db: Database, ops: FloatOps, name: Bytes, items: seq<SelectItem>, filter: Option<SqlExpr>)
    returns (r: Outcome<seq<Tuple>>)
    requires db.Usable()
    modifies db.pool, db.pool.frames, db.pool.buffers, db.pool.storage`files
    ensures db.Usable() && db.pool.Pages() == old(db.pool.Pages())
    ensures !Known(db.tables, db.tableNames, name) ==> r == Err(TableNotFound)
    ensures Known(db.tables, db.tableNames, name) ==>
              var t := db.tables[db.tableNames[name]];
              var named := NamedSchema(t.name, t.schema);
              && t.file in db.pool.Pages() && FilePagesOk(db.pool.Pages()[t.file])
              && (!SelectBinds(items, filter, [named]) ==> r == Err(ParseError))
              && (SelectBinds(items, filter, [named]) && |db.pool.frames| > 0 ==>
                    r == Collected(BoundQuery(ops, items, filter, named), TableRows(db.pool.Pages()[t.file])))
  {
    hide db.pool.Valid, db.pool.Pages, PagesOk, FilePagesOk, Bind, BindItems, Collected, RowsFrom;
    if !(name in db.tableNames && db.tableNames[name] in db.tables) {
      return Err(TableNotFound);
    }
    var t := db.tables[db.tableNames[name]];
    FileOfMap(db.pool.Pages(), t.file);
    var tables := [NamedSchema(t.name, t.schema)];
    var cols := ParseProjection(items, tables);
    if !cols.Ok? {
      ItemsFailToParse(items, 0, tables);
      return cols.PropagateFailure();
    }
    var bound: Option<Expr> := None;
    if filter.Some? {
      var e := Bind(filter.value, tables);
      if !e.Ok? {
        BindsExactly(filter.value, tables);
        return e.PropagateFailure();
      }
      bound := Some(e.value);
    }
    r := Scan(db.pool, t.file, Query(ops, t.schema, cols.value, bound));
  }

  lemma {:induction false} ItemsFailToParse(items: seq<SelectItem>, i: nat, tables: seq<NamedSchema>)
    requires i <= |items| && !BindItems(items, i, tables).Ok?
    ensures BindItems(items, i, tables) == Err(ParseError)
    decreases |items| - i
  {
    hide Bind;
    if i < |items| && items[i].Item? {
      BindsExactly(items[i].e, tables);
      if Bind(items[i].e, tables).Ok? { ItemsFailToParse(items, i + 1, tables); }
    }
  }

  // ----- the arms bound to a table

  /** The tuple an INSERT's values stand for, as SQL expressions. */
  function InsertMeaning(ops: FloatOps, name: Bytes, schema: Schema, values: seq<SqlExpr>): Outcome<Tuple> {
    SqlEvalAll(ops, values, [NamedSchema(name, schema)], None)
  }

  /** What the select arm answers, in terms of the pages. */
  ghost predicate Selects(ops: FloatOps, w: World, name: Bytes, items: seq<SelectItem>, filter: Option<SqlExpr>,
                          r: Outcome<seq<Tuple>>)
  {
    if !Known(w.d.tables, w.d.names, name) then r == Err(TableNotFound)
    else
      var t := w.d.tables[w.d.names[name]];
      var named := NamedSchema(t.name, t.schema);
      if !SelectBinds(items, filter, [named]) then r == Err(ParseError)
      else
        && t.file in w.v && FilePagesOk(w.v[t.file])
        && r == Collected(BoundQuery(ops, items, filter, named), TableRows(w.v[t.file]))
  }

  method RunSelect(db: Database, ops: FloatOps, name: Bytes, items: seq<SelectItem>, filter: Option<SqlExpr>)
    returns (r: Outcome<seq<Tuple>>)
    requires db.Usable() && |db.pool.frames| > 0
    modifies db.pool, db.pool.frames, db.pool.buffers, db.pool.storage`files
    ensures db.Usable() && db.World() == old(db.World()) && Selects(ops, db.World(), name, items, filter, r)
  {
    hide db.pool.Valid, db.pool.Pages, PagesOk, FilePagesOk, Collected, SelectBinds, BoundQuery, RowsFrom, ClosedOk;
    r := ExecuteSelect(db, ops, name, items, filter);
  }

  /** What the insert arm does, bound to a table, in terms of the pages. */
  ghost predicate BoundInserts(ops: FloatOps, w: World, x: World, name: Bytes, values: seq<SqlExpr>,
                               r: Outcome<seq<Tuple>>, rid: EntryId)
  {
    if !Known(w.d.tables, w.d.names, name) then r == Err(TableNotFound) && x == w
    else
      var t := w.d.tables[w.d.names[name]];
      if !BindAll(values, [NamedSchema(t.name, t.schema)]).Ok? then r == Err(ParseError) && x == w
      else
        && (r.Ok? ==> r == Ok([]))
        && TypedValues(InsertMeaning(ops, t.name, t.schema, values))
        && Inserts(w, x, w.d.names[name], InsertMeaning(ops, t.name, t.schema, values), true,
                   if r.Ok? then Ok(()) else r.PropagateFailure(), rid)
  }

  method RunInsert(db: Database, ops: FloatOps, name: Bytes, values: seq<SqlExpr>)
    returns (r: Outcome<seq<Tuple>>, ghost rid: EntryId)
    requires db.Usable() && |db.pool.frames| > 0 && forall i :: 0 <= i < |values| ==> IsText(values[i])
    modifies db`tables, db`rows, db.pool, db.pool.frames, db.pool.buffers, db.pool.storage`files
    ensures db.Usable() && BoundInserts(ops, old(db.World()), db.World(), name, values, r, rid)
  {
    hide db.pool.Valid, db.pool.Pages, PagesOk, ClosedOk, IsText, WellTyped, BindAll, IsValidTuple, EvaluateAll,
         SqlEvalAll, Inserts, TablesThere;
    rid := EntryId(0, 0);
    if !(name in db.tableNames && db.tableNames[name] in db.tables) {
      return Err(TableNotFound), rid;
    }
    var id := db.tableNames[name];
    var tables := [NamedSchema(db.tables[id].name, db.tables[id].schema)];
    var bound := BindAll(values, tables);
    if !bound.Ok? {
      ListFailsToParse(values, tables);
      return bound.PropagateFailure(), rid;
    }
    BoundListKeepsMeaning(ops, values, tables, None);
    if EvaluateAll(ops, bound.value, None).Ok? { ValuesAreWellTyped(ops, values, tables); }
    var inserted;
    inserted, rid := ExecuteInsert(db, ops, id, bound.value);
    r := if inserted.Ok? then Ok([]) else inserted.PropagateFailure();
  }
}
