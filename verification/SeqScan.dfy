/** The sequential scan: a cursor over pages and slots that filters and projects
    (src/execution/seq_scan.rs), and the loop that collects it (src/transaction.rs). */
module SeqScans {
  import opened Bytes
  import opened Outcomes
  import opened SlottedPages
  import opened ClockSweep
  import opened PoolModel
  import opened PoolRuns
  import opened BufferPools
  import opened HeapFiles
  import opened Values
  import opened RecordCodec
  import opened Expressions

  /** What a scan asks of each row: no columns means all of them. */
  datatype Query = Query(ops: FloatOps, schema: Schema, cols: seq<Expr>, filter: Option<Expr>)

  // ----- one row

  /** Only true lets a row through; false and Null drop it, anything else is an error. */
  function Passes(v: Outcome<Value>): Outcome<bool> {
    if !v.Ok? then v.PropagateFailure()
    else if v.value.Boolean? then Ok(v.value.b)
    else if v.value.Null? then Ok(false)
    else Err(InvalidComparison)
  }

  function Kept(q: Query, row: Bytes): Outcome<bool> {
    if q.filter.None? then Ok(true)
    else Passes(EvaluateRef(q.ops, q.filter.value, Some(TupleRef(row, q.schema))))
  }

  function Project(q: Query, row: Bytes, cols: seq<Expr>): Outcome<Tuple> {
    if cols == [] then Ok([])
    else
      var v :- EvaluateRef(q.ops, cols[0], Some(TupleRef(row, q.schema)));
      var rest :- Project(q, row, cols[1..]);
      Ok([v] + rest)
  }

  function Image(q: Query, row: Bytes): Outcome<Tuple> {
    if q.cols == [] then Decode(row, q.schema) else Project(q, row, q.cols)
  }

  /** The tuple a row gives, or None if it is filtered out. */
  function Answer(q: Query, row: Bytes): Outcome<Option<Tuple>> {
    var kept :- Kept(q, row);
    if !kept then Ok(None)
    else
      var t :- Image(q, row);
      Ok(Some(t))
  }

  // ----- many rows

  /** The next answer, and how many rows it takes to find it. */
  function NextOf(q: Query, rows: seq<Bytes>): (r: (Outcome<Option<Tuple>>, nat))
    ensures r.1 <= |rows|
    ensures r.0 == Ok(None) ==> r.1 == |rows|
  {
    if rows == [] then (Ok(None), 0)
    else if Answer(q, rows[0]) == Ok(None) then
      var (r, used) := NextOf(q, rows[1..]);
      (r, used + 1)
    else (Answer(q, rows[0]), 1)
  }

  /** All answers in order, or the first failure. */
  function Collected(q: Query, rows: seq<Bytes>): Outcome<seq<Tuple>> {
    if rows == [] then Ok([])
    else
      var first :- Answer(q, rows[0]);
      var rest :- Collected(q, rows[1..]);
      Ok((if first.Some? then [first.value] else []) + rest)
  }

  lemma {:induction false} NextSkips(q: Query, before: seq<Bytes>, rows: seq<Bytes>)
    requires NextOf(q, before).0 == Ok(None)
    ensures NextOf(q, before + rows) == (NextOf(q, rows).0, |before| + NextOf(q, rows).1)
  {
    hide Answer;
    if before == [] {
      assert before + rows == rows;
    } else {
      assert (before + rows)[1..] == before[1..] + rows;
      NextSkips(q, before[1..], rows);
    }
  }

  lemma {:induction false} NextFound(q: Query, before: seq<Bytes>, rows: seq<Bytes>)
    requires NextOf(q, before).0 != Ok(None)
    ensures NextOf(q, before + rows) == NextOf(q, before)
  {
    hide Answer;
    assert (before + rows)[1..] == before[1..] + rows;
    if Answer(q, before[0]) == Ok(None) { NextFound(q, before[1..], rows); }
  }

  lemma NoRows(q: Query, rows: seq<Bytes>)
    requires rows == []
    ensures NextOf(q, rows) == (Ok(None), 0)
  {
  }

  lemma SkipOne(q: Query, rows: seq<Bytes>, start: nat, k: nat)
    requires start <= k < |rows| && NextOf(q, rows[start..k]) == (Ok(None), k - start)
    ensures Answer(q, rows[k]) == Ok(None) ==> NextOf(q, rows[start..k + 1]) == (Ok(None), k + 1 - start)
    ensures Answer(q, rows[k]) != Ok(None) ==> NextOf(q, rows[start..]) == (Answer(q, rows[k]), k + 1 - start)
  {
    hide Answer;
    var passed, row := rows[start..k], [rows[k]];
    assert NextOf(q, row[1..]) == (Ok(None), 0);
    NextSkips(q, passed, row);
    assert rows[start..k + 1] == passed + row;
    if Answer(q, rows[k]) != Ok(None) {
      assert rows[start..] == rows[start..k + 1] + rows[k + 1..];
      NextFound(q, rows[start..k + 1], rows[k + 1..]);
    }
  }

  /** Of all rows, those passed by gave no answer and these are left. */
  ghost predicate PassedBy(q: Query, all: seq<Bytes>, passed: seq<Bytes>, left: seq<Bytes>) {
    all == passed + left && NextOf(q, passed) == (Ok(None), |passed|)
  }

  lemma PassedNone(q: Query, all: seq<Bytes>)
    ensures PassedBy(q, all, [], all)
  {
  }

  lemma PassedAll(q: Query, all: seq<Bytes>, passed: seq<Bytes>, left: seq<Bytes>)
    requires PassedBy(q, all, passed, left) && left == []
    ensures NextOf(q, all) == (Ok(None), |all|) && all[|all|..] == left
  {
    assert all == passed;
  }

  /** Looking at the rows here after passing some by. */
  lemma Advance(q: Query, all: seq<Bytes>, passed: seq<Bytes>, here: seq<Bytes>, later: seq<Bytes>)
    requires PassedBy(q, all, passed, here + later)
    ensures var (r, used) := NextOf(q, here);
            if r == Ok(None) then PassedBy(q, all, passed + here, later)
            else NextOf(q, all).0 == r && all[NextOf(q, all).1..] == (here + later)[used..]
  {
    hide NextOf;
    var left := here + later;
    if NextOf(q, here).0 == Ok(None) {
      NextSkips(q, passed, here);
      Regroup(passed, here, later);
    } else {
      NextFound(q, here, later);
      NextSkips(q, passed, left);
      DropJoin(passed, left, NextOf(q, here).1);
    }
  }

  lemma DropJoin(a: seq<Bytes>, b: seq<Bytes>, n: nat)
    requires n <= |b|
    ensures (a + b)[|a| + n..] == b[n..]
  {
  }

  /** Collecting is taking the next answer again and again. */
  lemma {:induction false} CollectStep(q: Query, rows: seq<Bytes>)
    ensures var (r, used) := NextOf(q, rows);
            Collected(q, rows) ==
              if !r.Ok? then r.PropagateFailure()
              else if r.value.None? then Ok([])
              else var rest :- Collected(q, rows[used..]); Ok([r.value.value] + rest)
  {
    hide Answer;
    if rows != [] && Answer(q, rows[0]) == Ok(None) {
      CollectStep(q, rows[1..]);
      assert Collected(q, rows[1..]).Ok? ==> [] + Collected(q, rows[1..]).value == Collected(q, rows[1..]).value;
      assert rows[1..][NextOf(q, rows[1..]).1..] == rows[NextOf(q, rows).1..];
    }
  }

  // ----- the cursor

  /** The rows a cursor at (page, slot) still has before it. */
  ghost function Remaining(ps: seq<Page>, page: nat, slot: nat): seq<Bytes>
    requires FilePagesOk(ps)
  {
    if page >= |ps| then []
    else
      assert PageOk(ps[page], page);
      if slot > |RowsOf(ps[page])| then RowsFrom(ps, page + 1)
      else RowsOf(ps[page])[slot..] + RowsFrom(ps, page + 1)
  }

  class SeqScan {
    const pool: BufferPool
    const file: FileId
    const query: Query
    const numPages: Option<nat>
    var currentPage: nat
    var currentSlot: nat

    /** The file the cursor runs over. */
    ghost function File(): seq<Page>
      reads pool, pool.storage, pool.frames, pool.buffers
      requires pool.Valid() && file in pool.Pages()
    {
      pool.Pages()[file]
    }

    ghost predicate Valid()
      reads this, pool, pool.storage, pool.frames, pool.buffers
    {
      && pool.Valid() && PagesOk(pool.Pages()) && pool.live == multiset{}
      && file in pool.Pages() && FilePagesOk(File()) && numPages == Some(|File()|)
      && (currentPage < |File()| ==> AtMostSlots(File(), currentPage, currentSlot))
    }

    ghost function Rest(): seq<Bytes>
      reads this, pool, pool.storage, pool.frames, pool.buffers
      requires Valid()
    {
      Remaining(File(), currentPage, currentSlot)
    }

    /** The cursor starts at the first row of page 1. */
    constructor (pool: BufferPool, file: FileId, query: Query)
      requires pool.Valid() && PagesOk(pool.Pages()) && pool.live == multiset{} && file in pool.Pages()
      ensures Valid() && this.pool == pool && this.file == file && this.query == query
      ensures Rest() == TableRows(File()) && currentPage == 1
    {
      hide Inv, View, WellFormed, RowsFrom, FilesOk;
      InvGives(pool.State());
      this.pool := pool;
      this.file := file;
      this.query := query;
      currentPage := 1;
      currentSlot := 0;
      var n := pool.storage.GetNumPages(file);
      numPages := n;
      ViewLength(pool.State(), file);
      FileOfMap(pool.Pages(), file);
      new;
      if 1 < |File()| { StartOfPage(File(), 1); }
      StartOfTable(File());
    }

    /** The inner loop, over the slots of one heap page. */
    method NextOnPage(data: Page, slot: nat) returns (r: Outcome<Option<Tuple>>, newSlot: nat)
      requires WellFormed(data) && slot <= |Records(data)|
      ensures r == NextOf(query, Records(data)[slot..]).0
      ensures r.Ok? ==> newSlot == slot + NextOf(query, Records(data)[slot..]).1
    {
      hide WellFormed, Record, Decode, EvaluateRef, NextOf, GetSlot;
      ghost var rows := Records(data);
      var numEntries := NumEntries(data);
      NoRows(query, rows[slot..slot]);
      newSlot := slot;
      while newSlot < numEntries
        invariant slot <= newSlot <= |rows|
        invariant NextOf(query, rows[slot..newSlot]) == (Ok(None), newSlot - slot)
        decreases numEntries - newSlot
      {
        SkipOne(query, rows, slot, newSlot);
        GetSlotReadsRecords(data, newSlot);
        // on a well-formed page this neither fails nor misses
        var row := GetSlot(data, newSlot).value.value;
        if query.filter.Some? {
          var kept := Passes(EvaluateRef(query.ops, query.filter.value, Some(TupleRef(row, query.schema))));
          if !kept.Ok? {
            return kept.PropagateFailure(), newSlot;
          }
          if kept.value {
            newSlot := newSlot + 1;
            r := MatchOutput(row);
            return;
          }
        } else {
          newSlot := newSlot + 1;
          r := MatchOutput(row);
          return;
        }
        newSlot := newSlot + 1;
      }
      assert rows[slot..] == rows[slot..newSlot];
      r := Ok(None);
    }

    /** Fetch a page, skip it if it is not a heap page, else look through its slots,
        and let the page go. */
    method VisitPage(page: nat, slot: nat) returns (r: Outcome<Option<Tuple>>, newSlot: nat)
      requires pool.Valid() && pool.live == multiset{}
      requires file in pool.Pages() && FilePagesOk(File()) && page < |File()| && AtMostSlots(File(), page, slot)
      modifies pool, pool.frames, pool.buffers, pool.storage`files
      ensures pool.Valid() && pool.Pages() == old(pool.Pages()) && pool.live == multiset{}
      ensures r == if |pool.frames| > 0 then NextOf(query, old(RowsHere(File(), page, slot))).0
                   else Err(NoPagesAvailable)
      ensures r.Ok? && r.value.Some? ==> newSlot == slot + NextOf(query, old(RowsHere(File(), page, slot))).1
    {
      hide pool.Valid, pool.Pages, WellFormed, Records, NextOf, FilePagesOk, RowsHere, AtMostSlots;
      ghost var ps := File();
      ghost var here := RowsHere(ps, page, slot);
      HereIs(ps, page, slot);
      newSlot := slot;
      var got := pool.GetPage(PageId(file, page));
      if !got.Ok? {
        return got.PropagateFailure(), newSlot;
      }
      var data := pool.ReadGuard(got.value);
      KindKnown(data, page);
      if KindOf(data) != Heap {
        NoRows(query, here);
        r := Ok(None);
      } else {
        r, newSlot := NextOnPage(data, slot);
      }
      pool.DropGuard(got.value);
    }

    /** `next_tuple`: the next answer among the rows before the cursor, which then
        stands behind the row it came from. */
    method NextTuple() returns (r: Outcome<Option<Tuple>>)
      requires Valid()
      modifies this, pool, pool.frames, pool.buffers, pool.storage`files
      ensures pool.Valid() && pool.Pages() == old(pool.Pages()) && pool.live == multiset{}
      ensures r == if |pool.frames| > 0 then NextOf(query, old(Rest())).0
                   else if old(currentPage) < |old(File())| then Err(NoPagesAvailable) else Ok(None)
      ensures r.Ok? ==> Valid() && Rest() == old(Rest())[NextOf(query, old(Rest())).1..]
      ensures |pool.frames| == 0 && r.Ok? ==> currentPage == old(currentPage)
    {
      hide pool.Valid, pool.Pages, PagesOk, FilePagesOk, Remaining, NextOf, RowsHere, AtMostSlots, PassedBy;
      ghost var pages := pool.Pages();
      ghost var ps := File();
      ghost var all, passed := Rest(), [];
      PassedNone(query, all);
      while currentPage < numPages.value
        invariant pool.Valid() && pool.Pages() == pages && pool.live == multiset{}
        invariant currentPage < |ps| ==> AtMostSlots(ps, currentPage, currentSlot)
        invariant |pool.frames| == 0 ==> currentPage == old(currentPage)
        invariant PassedBy(query, all, passed, Remaining(ps, currentPage, currentSlot))
        decreases |ps| - currentPage
      {
        LookThrough(query, ps, currentPage, currentSlot, all, passed);
        passed := passed + RowsHere(ps, currentPage, currentSlot);
        var slot;
        r, slot := VisitPage(currentPage, currentSlot);
        if r != Ok(None) {
          if r.Ok? { currentSlot := slot; }
          return;
        }
        currentPage := currentPage + 1;
        currentSlot := 0;
      }
      NoneLeft(ps, currentPage, currentSlot);
      PassedAll(query, all, passed, Remaining(ps, currentPage, currentSlot));
      r := Ok(None);
    }

    /** All columns, or the projected ones. */
    method MatchOutput(row: Bytes) returns (r: Outcome<Option<Tuple>>)
      ensures r == (var t :- Image(query, row); Ok(Some(t)))
    {
      var image := if query.cols == [] then Decode(row, query.schema) else Project(query, row, query.cols);
      r := if image.Ok? then Ok(Some(image.value)) else image.PropagateFailure();
    }
  }

  /** `Transaction::scan`: all answers, or the first failure. */
  method Scan(pool: BufferPool, file: FileId, query: Query) returns (r: Outcome<seq<Tuple>>)
    requires pool.Valid() && PagesOk(pool.Pages()) && pool.live == multiset{} && file in pool.Pages()
    modifies pool, pool.frames, pool.buffers, pool.storage`files
    ensures pool.Valid() && pool.Pages() == old(pool.Pages()) && pool.live == multiset{}
    ensures FilePagesOk(pool.Pages()[file])
    ensures r == if |pool.frames| > 0 then Collected(query, TableRows(pool.Pages()[file]))
                 else if |pool.Pages()[file]| > 1 then Err(NoPagesAvailable) else Ok([])
  {
    hide pool.Valid, pool.Pages, PagesOk, FilePagesOk, Collected, NextOf, RowsFrom, Remaining;
    FileOfMap(pool.Pages(), file);
    ghost var pages := pool.Pages();
    ghost var target := if |pool.frames| > 0 then Collected(query, TableRows(pages[file])) else Ok([]);
    var tuples: seq<Tuple> := [];
    assert target.Ok? ==> tuples + target.value == target.value;
    var scan := new SeqScan(pool, file, query);
    while true
      invariant scan.Valid() && scan.pool == pool && scan.file == file && scan.query == query && fresh(scan)
      invariant pool.Pages() == pages
      invariant |pool.frames| > 0 ==> target == PrependAll(tuples, Collected(query, scan.Rest()))
      invariant |pool.frames| == 0 ==> tuples == [] && scan.currentPage == 1
      decreases |scan.Rest()|
    {
      ghost var rest := scan.Rest();
      CollectStep(query, rest);
      NextProgress(query, rest);
      var next := scan.NextTuple();
      if !next.Ok? {
        return next.PropagateFailure();
      }
      if next.value.None? {
        assert tuples + [] == tuples;
        return Ok(tuples);
      }
      ghost var later := Collected(query, scan.Rest());
      assert later.Ok? ==> tuples + ([next.value.value] + later.value) == (tuples + [next.value.value]) + later.value;
      tuples := tuples + [next.value.value];
    }
  }

  function PrependAll(tuples: seq<Tuple>, r: Outcome<seq<Tuple>>): Outcome<seq<Tuple>> {
    if r.Ok? then Ok(tuples + r.value) else r
  }

  lemma {:induction false} NextProgress(q: Query, rows: seq<Bytes>)
    ensures NextOf(q, rows).0 != Ok(None) ==> NextOf(q, rows).1 > 0
  {
  }

  /** The rows of one page from a slot on. */
  ghost function RowsHere(ps: seq<Page>, page: nat, slot: nat): seq<Bytes>
    requires FilePagesOk(ps) && page < |ps| && AtMostSlots(ps, page, slot)
  {
    assert PageOk(ps[page], page);
    RowsOf(ps[page])[slot..]
  }

  lemma HereIs(ps: seq<Page>, page: nat, slot: nat)
    requires FilePagesOk(ps) && page < |ps| && AtMostSlots(ps, page, slot)
    ensures PageOk(ps[page], page)
    ensures KindOf(ps[page]).Heap? ==>
              slot <= |Records(ps[page])| && RowsHere(ps, page, slot) == Records(ps[page])[slot..]
    ensures !KindOf(ps[page]).Heap? ==> slot == 0 && RowsHere(ps, page, slot) == []
  {
    assert PageOk(ps[page], page);
  }

  lemma KindKnown(p: Page, n: nat)
    requires PageOk(p, n)
    ensures WellFormed(p) && p[KIND] <= 1
  {
  }

  lemma StartOfPage(ps: seq<Page>, page: nat)
    requires FilePagesOk(ps) && page < |ps|
    ensures AtMostSlots(ps, page, 0)
  {
  }

  lemma RemainingHere(ps: seq<Page>, page: nat, slot: nat)
    requires FilePagesOk(ps) && page < |ps| && AtMostSlots(ps, page, slot)
    ensures Remaining(ps, page, slot) == RowsHere(ps, page, slot) + Remaining(ps, page + 1, 0)
  {
    hide WellFormed;
    assert PageOk(ps[page], page);
    if page + 1 < |ps| {
      assert PageOk(ps[page + 1], page + 1);
      assert RowsOf(ps[page + 1])[0..] == RowsOf(ps[page + 1]);
    }
  }

  /** Looking through a page from a slot on: all rows there are passed by, or one of them
      gives the answer and the cursor is to stand behind it. */
  lemma LookThrough(q: Query, ps: seq<Page>, page: nat, slot: nat, all: seq<Bytes>, passed: seq<Bytes>)
    requires FilePagesOk(ps) && page < |ps| && AtMostSlots(ps, page, slot)
    requires PassedBy(q, all, passed, Remaining(ps, page, slot))
    ensures var here := RowsHere(ps, page, slot);
            var (r, used) := NextOf(q, here);
            if r == Ok(None) then
              && PassedBy(q, all, passed + here, Remaining(ps, page + 1, 0))
              && (page + 1 < |ps| ==> AtMostSlots(ps, page + 1, 0))
            else
              && NextOf(q, all).0 == r
              && (r.Ok? ==> AtMostSlots(ps, page, slot + used)
                            && Remaining(ps, page, slot + used) == all[NextOf(q, all).1..])
  {
    hide Remaining, FilePagesOk, RowsHere, AtMostSlots, NextOf, PassedBy;
    var here := RowsHere(ps, page, slot);
    RemainingHere(ps, page, slot);
    Advance(q, all, passed, here, Remaining(ps, page + 1, 0));
    if NextOf(q, here).0 == Ok(None) {
      if page + 1 < |ps| { StartOfPage(ps, page + 1); }
    } else {
      RemainingAfter(ps, page, slot, NextOf(q, here).1);
    }
  }

  lemma RemainingAfter(ps: seq<Page>, page: nat, slot: nat, used: nat)
    requires FilePagesOk(ps) && page < |ps| && AtMostSlots(ps, page, slot)
    requires used <= |RowsHere(ps, page, slot)|
    ensures AtMostSlots(ps, page, slot + used)
    ensures Remaining(ps, page, slot + used)
         == (RowsHere(ps, page, slot) + Remaining(ps, page + 1, 0))[used..]
  {
    hide Remaining, WellFormed, RowsOf;
    assert PageOk(ps[page], page);
    RemainingHere(ps, page, slot + used);
    var here, later := RowsHere(ps, page, slot), Remaining(ps, page + 1, 0);
    assert RowsHere(ps, page, slot + used) == here[used..];
    assert here[used..] + later == (here + later)[used..];
  }

  lemma StartOfTable(ps: seq<Page>)
    requires FilePagesOk(ps)
    ensures Remaining(ps, 1, 0) == TableRows(ps)
  {
    hide WellFormed, RowsOf;
    if 1 < |ps| {
      assert PageOk(ps[1], 1);
      assert RowsOf(ps[1])[0..] == RowsOf(ps[1]);
    }
  }

  lemma NoneLeft(ps: seq<Page>, page: nat, slot: nat)
    requires FilePagesOk(ps) && page >= |ps|
    ensures Remaining(ps, page, slot) == []
  {
  }

  ghost predicate AtMostSlots(ps: seq<Page>, page: nat, slot: nat)
    requires FilePagesOk(ps) && page < |ps|
  {
    assert PageOk(ps[page], page);
    slot <= |RowsOf(ps[page])|
  }

  // ----- what a scan means for the tuples that were stored

  function EncodeAll(tuples: seq<Tuple>, schema: Schema): seq<Bytes> {
    seq(|tuples|, i requires 0 <= i < |tuples| => Encode(tuples[i], schema))
  }

  /** A query over tuples instead of records, with the other evaluator. */
  function KeptTuple(q: Query, t: Tuple): Outcome<bool> {
    if q.filter.None? then Ok(true) else Passes(Evaluate(q.ops, q.filter.value, Some(t)))
  }

  function ProjectTuple(q: Query, t: Tuple, cols: seq<Expr>): Outcome<Tuple> {
    if cols == [] then Ok([])
    else
      var v :- Evaluate(q.ops, cols[0], Some(t));
      var rest :- ProjectTuple(q, t, cols[1..]);
      Ok([v] + rest)
  }

  function AnswerTuple(q: Query, t: Tuple): Outcome<Option<Tuple>> {
    var kept :- KeptTuple(q, t);
    if !kept then Ok(None)
    else
      var image :- if q.cols == [] then Ok(t) else ProjectTuple(q, t, q.cols);
      Ok(Some(image))
  }

  /** Filter, then project, in order; or the first failure. */
  function Selected(q: Query, tuples: seq<Tuple>): Outcome<seq<Tuple>> {
    if tuples == [] then Ok([])
    else
      var first :- AnswerTuple(q, tuples[0]);
      var rest :- Selected(q, tuples[1..]);
      Ok((if first.Some? then [first.value] else []) + rest)
  }

  predicate QueryInRange(q: Query) {
    && (q.filter.Some? ==> AttrsBelow(q.filter.value, |q.schema|))
    && forall i :: 0 <= i < |q.cols| ==> AttrsBelow(q.cols[i], |q.schema|)
  }

  lemma {:induction false} ProjectAgrees(q: Query, t: Tuple, cols: seq<Expr>)
    requires Storable(t, q.schema) && forall i :: 0 <= i < |cols| ==> AttrsBelow(cols[i], |q.schema|)
    ensures Project(q, Encode(t, q.schema), cols) == ProjectTuple(q, t, cols)
  {
    hide Storable, EvaluateRef, Evaluate, AttrsBelow, Encode;
    if cols != [] {
      EvaluatorsAgree(q.ops, cols[0], t, q.schema);
      ProjectAgrees(q, t, cols[1..]);
    }
  }

  lemma AnswerAgrees(q: Query, t: Tuple)
    requires Storable(t, q.schema) && QueryInRange(q)
    ensures Answer(q, Encode(t, q.schema)) == AnswerTuple(q, t)
  {
    hide EvaluateRef, Evaluate, AttrsBelow, Encode, Decode, ConformsAll, NullFree;
    if q.filter.Some? { EvaluatorsAgree(q.ops, q.filter.value, t, q.schema); }
    RoundTrip(t, q.schema);
    ProjectAgrees(q, t, q.cols);
  }

  /** Scanning the stored records of some tuples gives what filtering and projecting
      the tuples gives. */
  lemma {:induction false} ScanRefines(q: Query, tuples: seq<Tuple>)
    requires QueryInRange(q) && forall i :: 0 <= i < |tuples| ==> Storable(tuples[i], q.schema)
    ensures Collected(q, EncodeAll(tuples, q.schema)) == Selected(q, tuples)
  {
    hide Storable, Answer, AnswerTuple, Encode, QueryInRange;
    if tuples != [] {
      AnswerAgrees(q, tuples[0]);
      assert EncodeAll(tuples, q.schema)[1..] == EncodeAll(tuples[1..], q.schema);
      ScanRefines(q, tuples[1..]);
    }
  }

  /** `SELECT *` gives the tuples back. */
  lemma {:induction false} SelectAll(q: Query, tuples: seq<Tuple>)
    requires q.cols == [] && q.filter == None
    ensures Selected(q, tuples) == Ok(tuples)
  {
    if tuples != [] {
      SelectAll(q, tuples[1..]);
      assert [tuples[0]] + tuples[1..] == tuples;
    }
  }
}
