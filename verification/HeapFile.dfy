/** Inserting a record into a table's file (src/execution/insert.rs). */
module HeapFiles {
  import opened Bytes
  import opened Outcomes
  import opened SlottedPages
  import opened ClockSweep
  import opened PoolModel
  import opened BufferPools

  // ----- files as records

  /** Every page is a well-formed slotted page that knows its own number. */
  ghost predicate PagesOk(v: PageMap) {
    forall f, n :: f in v && 0 <= n < |v[f]| ==> PageOk(v[f][n], n)
  }

  ghost predicate PageOk(p: Page, n: nat) {
    WellFormed(p) && PageNumber(p) == n
  }

  /** Only a heap page holds rows. */
  ghost function RowsOf(p: Page): seq<Bytes>
    requires WellFormed(p)
  {
    if KindOf(p).Heap? then Records(p) else []
  }

  /** `w` is `v` with one record added, at `rid`, and nothing else in any file changed. */
  ghost predicate HeapInsert(v: PageMap, w: PageMap, file: FileId, rec: Bytes, rid: EntryId) {
    && PagesOk(v) && PagesOk(w)
    && file in v && w.Keys == v.Keys && (forall f :: f in v && f != file ==> w[f] == v[f])
    && rid.page <= |v[file]| && |w[file]| == (if rid.page == |v[file]| then rid.page + 1 else |v[file]|)
    && (forall n :: 0 <= n < |v[file]| && n != rid.page ==> w[file][n] == v[file][n])
    && (rid.page < |v[file]| ==> KindOf(v[file][rid.page]).Heap?)
    && KindOf(w[file][rid.page]).Heap?
    && var before := if rid.page < |v[file]| then Records(v[file][rid.page]) else [];
       Records(w[file][rid.page]) == before + [rec] && rid.slot == |before|
  }

  lemma PageOkAt(v: PageMap, p: PageId)
    requires PagesOk(v) && InMap(v, p)
    ensures PageOk(v[p.file][p.num], p.num)
  {
  }

  lemma InsertIntoPage(v: PageMap, p: PageId, rec: Bytes)
    requires PagesOk(v) && InMap(v, p) && PageOk(v[p.file][p.num], p.num)
    requires InsertAs(v[p.file][p.num], Heap, rec).Ok?
    ensures InsertAs(v[p.file][p.num], Heap, rec).value == EntryId(p.num, |Records(v[p.file][p.num])|)
    ensures HeapInsert(v, WithPage(v, p, Inserted(v[p.file][p.num], rec)), p.file, rec,
                       InsertAs(v[p.file][p.num], Heap, rec).value)
  {
    hide WellFormed, Records, KindOf, PageNumber, Inserted, InsertOutcome;
    var page := v[p.file][p.num];
    InsertAppends(page, rec);
    InsertedAt(page, rec);
    var w := WithPage(v, p, Inserted(page, rec));
    forall f, n | f in w && 0 <= n < |w[f]|
      ensures PageOk(w[f][n], n)
    {
      if PageId(f, n) != p { assert PageOk(v[f][n], n); }
    }
  }

  lemma InsertedAt(p: Page, rec: Bytes)
    requires WellFormed(p) && InsertOutcome(p, rec).Ok?
    ensures InsertOutcome(p, rec).value == EntryId(PageNumber(p), |Records(p)|)
  {
  }

  /** Adding an empty page and inserting into it is one insert into the new page. */
  lemma InsertIntoNewPage(u: PageMap, v: PageMap, w: PageMap, p: PageId, rec: Bytes, rid: EntryId)
    requires PagesOk(u) && IsNewPage(u, v, p, Heap) && HeapInsert(v, w, p.file, rec, rid) && rid.page == p.num
    ensures HeapInsert(u, w, p.file, rec, rid)
  {
    hide WellFormed, Records, KindOf, PageNumber;
  }

  lemma NewPageOk(u: PageMap, v: PageMap, p: PageId, kind: PageKind)
    requires PagesOk(u) && IsNewPage(u, v, p, kind)
    ensures PagesOk(v)
  {
    hide WellFormed, Records, KindOf, PageNumber;
    forall f, n | f in v && 0 <= n < |v[f]|
      ensures PageOk(v[f][n], n)
    {
      if PageId(f, n) != p { assert PageOk(u[f][n], n); }
    }
  }

  // ----- when an insert is accepted

  /** What the page in the map answers to the record. */
  ghost function PageAnswer(v: PageMap, p: PageId, rec: Bytes): Outcome<EntryId>
    requires PagesOk(v) && InMap(v, p)
  {
    PageOkAt(v, p);
    InsertAs(v[p.file][p.num], Heap, rec)
  }

  /** The whole answer of `insert_record`: that of the current page, unless the page is
      full or not there; then the record goes to a new page at the file's end. */
  ghost function HeapAnswer(v: PageMap, p: PageId, rec: Bytes): Outcome<EntryId>
    requires PagesOk(v)
  {
    if |rec| > MAX_RECORD then Err(RecordTooLarge)
    else if InMap(v, p) && PageAnswer(v, p, rec) != Err(PageFull) then PageAnswer(v, p, rec)
    else if p.file !in v then Err(FileNotFound)
    else if CanAllocate(v, p.file) then Ok(EntryId(|v[p.file]|, 0)) else Err(Io)
  }

  /** The insert into a page just created. */
  lemma NewPageTakes(u: PageMap, v: PageMap, p: PageId, rec: Bytes)
    requires PagesOk(u) && IsNewPage(u, v, p, Heap) && |rec| <= MAX_RECORD
    ensures PagesOk(v) && InMap(v, p) && PageOk(v[p.file][p.num], p.num)
    ensures PageAnswer(v, p, rec) == Ok(EntryId(p.num, 0))
    ensures HeapInsert(u, WithPage(v, p, Inserted(v[p.file][p.num], rec)), p.file, rec, EntryId(p.num, 0))
  {
    hide WellFormed, Records, KindOf, PageNumber, Inserted, InsertOutcome, WithNewPage, WithPage;
    NewPageOk(u, v, p, Heap);
    PageOkAt(v, p);
    EmptyRecords(v[p.file][p.num]);
    EmptyPageCapacity(v[p.file][p.num], rec);
    InsertIntoPage(v, p, rec);
    InsertIntoNewPage(u, v, WithPage(v, p, Inserted(v[p.file][p.num], rec)), p, rec, EntryId(p.num, 0));
  }

  lemma EmptyRecords(p: Page)
    requires WellFormed(p)
    ensures Records(p) == [] <==> NumEntries(p) == 0
  {
  }

  /** `try_insert_into_page`.  `&mut BufferPool` means no guard is alive. */
  method TryInsertIntoPage(bp: BufferPool, p: PageId, rec: Bytes, current: nat)
    returns (r: Outcome<EntryId>, newCurrent: nat)
    requires bp.Valid() && PagesOk(bp.Pages()) && bp.live == multiset{} && |rec| <= MAX_RECORD
    modifies bp, bp.frames, bp.buffers, bp.storage`files
    ensures bp.Valid() && PagesOk(bp.Pages()) && bp.live == multiset{}
    ensures !r.Ok? ==> bp.Pages() == old(bp.Pages())
    ensures r.Ok? ==> HeapInsert(old(bp.Pages()), bp.Pages(), p.file, rec, r.value)
    ensures |bp.frames| == 0 ==> r == Err(Unknown) && newCurrent == current
    ensures |bp.frames| > 0 && InMap(old(bp.Pages()), p) ==>
              r == PageAnswer(old(bp.Pages()), p, rec) && newCurrent == p.num
    ensures r.Ok? ==> newCurrent == r.value.page
    ensures |bp.frames| > 0 && !InMap(old(bp.Pages()), p) ==>
              if CanAllocate(old(bp.Pages()), p.file)
              then r == Ok(EntryId(|old(bp.Pages())[p.file]|, 0)) && newCurrent == |old(bp.Pages())[p.file]|
              else r == Err(if p.file in old(bp.Pages()) then Io else FileNotFound) && newCurrent == current
  {
    hide bp.Valid, Inv, View, WellFormed, PagesOk, HeapInsert, InsertAs, Inserted, WithPage, WithNewPage, Records;
    newCurrent := current;
    ghost var before := bp.Pages();
    var got := bp.GetPage(p);
    var guard: Guard;
    if got.Ok? {
      guard := got.value;
      PageOkAt(before, p);
      if PageAnswer(before, p, rec).Ok? { InsertIntoPage(before, p, rec); }
    } else {
      var made := bp.CreatePage(p.file, Heap);
      if !made.Ok? {
        return made.PropagateFailure(), newCurrent;
      }
      guard := made.value;
      NewPageTakes(before, bp.Pages(), guard.page, rec);
    }
    newCurrent := guard.page.num;
    r := bp.InsertThrough(guard, Heap, rec);
    bp.DropGuard(guard);
    if r.Ok? { InsertKeepsOk(before, bp.Pages(), p.file, rec, r.value); }
  }

  lemma InsertKeepsOk(v: PageMap, w: PageMap, file: FileId, rec: Bytes, rid: EntryId)
    requires HeapInsert(v, w, file, rec, rid)
    ensures PagesOk(w)
  {
  }

  /** `insert_record`: at most two attempts, and if it does not succeed nothing in any
      file changed and the table's current page is the same. */
  method InsertRecord(bp: BufferPool, file: FileId, current: nat, rec: Bytes)
    returns (r: Outcome<EntryId>, newCurrent: nat, ghost attempts: nat)
    requires bp.Valid() && PagesOk(bp.Pages()) && bp.live == multiset{}
    modifies bp, bp.frames, bp.buffers, bp.storage`files
    ensures bp.Valid() && PagesOk(bp.Pages()) && bp.live == multiset{}
    ensures r.Ok? ==> HeapInsert(old(bp.Pages()), bp.Pages(), file, rec, r.value) && newCurrent == r.value.page
    ensures r.Ok? ==> newCurrent == current || newCurrent == |old(bp.Pages())[file]|
    ensures !r.Ok? ==> bp.Pages() == old(bp.Pages()) && newCurrent == current
    ensures r == if |rec| <= MAX_RECORD && |bp.frames| == 0 then Err(Unknown)
                 else HeapAnswer(old(bp.Pages()), PageId(file, current), rec)
    ensures attempts <= 2
  {
    hide bp.Valid, Inv, View, WellFormed, PagesOk, InsertAs, Inserted, WithPage, WithNewPage, Records;
    newCurrent := current;
    attempts := 0;
    if |rec| > MAX_RECORD {
      return Err(RecordTooLarge), newCurrent, attempts;
    }
    ghost var before := bp.Pages();
    while true
      invariant bp.Valid() && PagesOk(bp.Pages()) && bp.live == multiset{}
      invariant attempts == 0 || attempts == 1
      invariant attempts == 0 ==> bp.Pages() == before && newCurrent == current
      invariant attempts == 1 ==>
                  && |bp.frames| > 0 && InMap(before, PageId(file, current))
                  && PageAnswer(before, PageId(file, current), rec) == Err(PageFull)
                  && CanAllocate(before, file)
                  && IsNewPage(before, bp.Pages(), PageId(file, newCurrent), Heap)
      decreases 2 - attempts
    {
      ghost var now := bp.Pages();
      if attempts == 1 { NewPageTakes(before, now, PageId(file, newCurrent), rec); }
      r, newCurrent := TryInsertIntoPage(bp, PageId(file, newCurrent), rec, newCurrent);
      attempts := attempts + 1;
      if r.Ok? {
        if attempts == 2 { InsertIntoNewPage(before, now, bp.Pages(), PageId(file, newCurrent), rec, r.value); }
        return;
      } else if r == Err(PageFull) {
        assert attempts == 1;
        var made: Outcome<()>;
        made, newCurrent := HandleFullPage(bp, file, newCurrent);
        if !made.Ok? {
          return made.PropagateFailure(), newCurrent, attempts;
        }
      } else {
        return;
      }
    }
  }

  /** `handle_full_page`: a new heap page becomes the current one. */
  method HandleFullPage(bp: BufferPool, file: FileId, current: nat) returns (r: Outcome<()>, newCurrent: nat)
    requires bp.Valid() && PagesOk(bp.Pages()) && bp.live == multiset{}
    modifies bp, bp.frames, bp.buffers, bp.storage`files
    ensures bp.Valid() && PagesOk(bp.Pages()) && bp.live == multiset{}
    ensures r.Ok? <==> |bp.frames| > 0 && CanAllocate(old(bp.Pages()), file)
    ensures |bp.frames| > 0 && !r.Ok? ==> r == Err(if file in old(bp.Pages()) then Io else FileNotFound)
    ensures !r.Ok? ==> r.Err? && bp.Pages() == old(bp.Pages()) && newCurrent == current
    ensures r.Ok? ==> IsNewPage(old(bp.Pages()), bp.Pages(), PageId(file, newCurrent), Heap)
    ensures r.Ok? ==> newCurrent == |old(bp.Pages())[file]|
  {
    hide bp.Valid, bp.Pages, PagesOk, IsNewPage;
    var made := AddHeapPage(bp, file);
    newCurrent := if made.Ok? then made.value else current;
    r := if made.Ok? then Ok(()) else made.PropagateFailure();
  }

  /** A new heap page, created and let go again. */
  method AddHeapPage(bp: BufferPool, file: FileId) returns (r: Outcome<nat>)
    requires bp.Valid() && PagesOk(bp.Pages()) && bp.live == multiset{}
    modifies bp, bp.frames, bp.buffers, bp.storage`files
    ensures bp.Valid() && PagesOk(bp.Pages()) && bp.live == multiset{}
    ensures r.Ok? <==> |bp.frames| > 0 && CanAllocate(old(bp.Pages()), file)
    ensures |bp.frames| > 0 && !r.Ok? ==> r == Err(if file in old(bp.Pages()) then Io else FileNotFound)
    ensures !r.Ok? ==> r.Err? && bp.Pages() == old(bp.Pages())
    ensures r.Ok? ==> r.value == |old(bp.Pages())[file]|
    ensures r.Ok? ==> IsNewPage(old(bp.Pages()), bp.Pages(), PageId(file, r.value), Heap)
  {
    hide bp.Valid, bp.Pages, PagesOk, IsNewPage;
    ghost var before := bp.Pages();
    var made := bp.CreatePage(file, Heap);
    if !made.Ok? {
      return made.PropagateFailure();
    }
    NewPageOk(before, bp.Pages(), made.value.page, Heap);
    bp.DropGuard(made.value);
    r := Ok(made.value.page.num);
  }

  // ----- a file as the rows it holds

  ghost predicate FilePagesOk(ps: seq<Page>) {
    forall n :: 0 <= n < |ps| ==> PageOk(ps[n], n)
  }

  /** The rows of the heap pages from page n on, in page and slot order. */
  ghost function RowsFrom(ps: seq<Page>, n: nat): seq<Bytes>
    requires FilePagesOk(ps)
    decreases |ps| - n
  {
    if n >= |ps| then []
    else
      assert PageOk(ps[n], n);
      RowsOf(ps[n]) + RowsFrom(ps, n + 1)
  }

  /** Page 0 is the catalog page; rows start at page 1. */
  ghost function TableRows(ps: seq<Page>): seq<Bytes>
    requires FilePagesOk(ps)
  {
    RowsFrom(ps, 1)
  }

  lemma FileOfMap(v: PageMap, f: FileId)
    requires PagesOk(v) && f in v
    ensures FilePagesOk(v[f])
  {
  }

  lemma {:induction false} SameRows(ps: seq<Page>, qs: seq<Page>, n: nat)
    requires FilePagesOk(ps) && FilePagesOk(qs) && |ps| == |qs|
    requires forall k :: n <= k < |ps| ==> ps[k] == qs[k]
    ensures RowsFrom(ps, n) == RowsFrom(qs, n)
    decreases |ps| - n
  {
    hide WellFormed, RowsOf;
    if n < |ps| { SameRows(ps, qs, n + 1); }
  }

  /** One page of a file changed or was added, by one record at its end. */
  ghost predicate OneRowAdded(ps: seq<Page>, qs: seq<Page>, at: nat, rec: Bytes) {
    && FilePagesOk(ps) && FilePagesOk(qs)
    && at <= |ps| && |qs| == (if at == |ps| then at + 1 else |ps|)
    && (forall n :: 0 <= n < |ps| && n != at ==> qs[n] == ps[n])
    && PageOk(qs[at], at)
    && (at < |ps| ==> PageOk(ps[at], at))
    && RowsOf(qs[at]) == (if at < |ps| then RowsOf(ps[at]) else []) + [rec]
  }

  lemma HeapInsertRows(v: PageMap, w: PageMap, file: FileId, rec: Bytes, rid: EntryId)
    requires HeapInsert(v, w, file, rec, rid)
    ensures OneRowAdded(v[file], w[file], rid.page, rec)
  {
    hide WellFormed, Records;
    assert PageOk(w[file][rid.page], rid.page);
    if rid.page < |v[file]| { assert PageOk(v[file][rid.page], rid.page); }
    FileOfMap(v, file);
    FileOfMap(w, file);
  }

  /** The rows up to page `at`, then the new one, then the rows of the later pages. */
  lemma {:induction false} RowInserted(ps: seq<Page>, qs: seq<Page>, at: nat, rec: Bytes, n: nat)
    returns (before: seq<Bytes>)
    requires OneRowAdded(ps, qs, at, rec) && n <= at
    ensures RowsFrom(ps, n) == before + RowsFrom(ps, at + 1)
    ensures RowsFrom(qs, n) == (before + [rec]) + RowsFrom(ps, at + 1)
    decreases at - n
  {
    hide WellFormed, RowsOf;
    if n == at {
      LaterRows(ps, qs, at, rec);
      before := if at < |ps| then RowsOf(ps[at]) else [];
    } else {
      var rest := RowInserted(ps, qs, at, rec, n + 1);
      assert qs[n] == ps[n];
      before := RowsOf(ps[n]) + rest;
      Regroup(RowsOf(ps[n]), rest, RowsFrom(ps, at + 1));
      Regroup(RowsOf(ps[n]), rest, [rec]);
      Regroup(RowsOf(ps[n]), rest + [rec], RowsFrom(ps, at + 1));
    }
  }

  lemma LaterRows(ps: seq<Page>, qs: seq<Page>, at: nat, rec: Bytes)
    requires OneRowAdded(ps, qs, at, rec)
    ensures RowsFrom(qs, at + 1) == RowsFrom(ps, at + 1)
    ensures at + 1 >= |qs| ==> RowsFrom(ps, at + 1) == []
  {
    hide WellFormed, RowsOf;
    if at < |ps| { SameRows(ps, qs, at + 1); }
  }

  function InsertAt<T>(s: seq<T>, k: nat, x: T): (r: seq<T>)
    requires k <= |s|
    ensures multiset(r) == multiset(s) + multiset{x}
  {
    assert s == s[..k] + s[k..];
    s[..k] + [x] + s[k..]
  }

  lemma InsertBetween<T>(before: seq<T>, x: T, later: seq<T>)
    ensures |before| == |before + later| - |later|
    ensures InsertAt(before + later, |before|, x) == (before + [x]) + later
  {
    var s := before + later;
    assert s[..|before|] == before && s[|before|..] == later;
  }

  /** How many rows stand before the end of page `at`: where an insert there puts its row. */
  ghost function RowPlace(ps: seq<Page>, at: nat): nat
    requires FilePagesOk(ps)
  {
    if |RowsFrom(ps, at + 1)| <= |TableRows(ps)| then |TableRows(ps)| - |RowsFrom(ps, at + 1)| else 0
  }

  lemma FileGainsRow(ps: seq<Page>, qs: seq<Page>, at: nat, rec: Bytes)
    requires OneRowAdded(ps, qs, at, rec) && 1 <= at
    ensures RowPlace(ps, at) <= |TableRows(ps)|
    ensures TableRows(qs) == InsertAt(TableRows(ps), RowPlace(ps, at), rec)
    ensures at + 1 >= |qs| ==> RowPlace(ps, at) == |TableRows(ps)|
    ensures TableRows(ps)[RowPlace(ps, at)..] == RowsFrom(ps, at + 1)
  {
    hide WellFormed, RowsOf, RowsFrom, PageOk, InsertAt;
    var before := RowInserted(ps, qs, at, rec, 1);
    LaterRows(ps, qs, at, rec);
    InsertBetween(before, rec, RowsFrom(ps, at + 1));
  }

  /** Putting something in at a place is putting it at the end exactly if everything
      from that place on is the same. */
  lemma InsertAtEndExactly<T>(s: seq<T>, k: nat, x: T)
    requires k <= |s|
    ensures InsertAt(s, k, x) == s + [x] <==> forall i :: k <= i < |s| ==> s[i] == x
  {
    var r := InsertAt(s, k, x);
    if r == s + [x] { AllTheSame(s, k, x, |s|); }
    if forall i :: k <= i < |s| ==> s[i] == x {
      assert forall i :: 0 <= i < |r| ==> r[i] == (s + [x])[i];
    }
  }

  lemma {:induction false} AllTheSame<T>(s: seq<T>, k: nat, x: T, n: nat)
    requires k <= n <= |s| && InsertAt(s, k, x) == s + [x]
    ensures forall i :: k <= i < n ==> s[i] == x
    decreases n
  {
    if k < n {
      AllTheSame(s, k, x, n - 1);
      var r := InsertAt(s, k, x);
      assert r[n - 1] == (s + [x])[n - 1] && r[k] == x;
      assert k < n - 1 ==> r[n - 1] == s[n - 2];
    }
  }

  lemma GainedOne<T>(s: seq<T>, r: seq<T>, k: nat, x: T)
    requires k <= |s| && r == InsertAt(s, k, x)
    ensures multiset(r) == multiset(s) + multiset{x}
    ensures k == |s| ==> r == s + [x]
  {
  }

  /** `insert_record` into the table's file: the table gains one row behind those of
      the pages up to the one it went into - so at the end, if that is the last page -
      and the others keep their order; every other file keeps its pages. */
  lemma InsertAddsRow(v: PageMap, w: PageMap, file: FileId, rec: Bytes, rid: EntryId)
    requires HeapInsert(v, w, file, rec, rid) && 1 <= rid.page
    ensures FilePagesOk(v[file]) && FilePagesOk(w[file])
    ensures RowPlace(v[file], rid.page) <= |TableRows(v[file])|
    ensures TableRows(w[file]) == InsertAt(TableRows(v[file]), RowPlace(v[file], rid.page), rec)
    ensures multiset(TableRows(w[file])) == multiset(TableRows(v[file])) + multiset{rec}
    ensures rid.page + 1 == |w[file]| ==>
              && RowPlace(v[file], rid.page) == |TableRows(v[file])|
              && TableRows(w[file]) == TableRows(v[file]) + [rec]
    ensures forall f :: f in v && f != file ==> f in w && w[f] == v[f]
  {
    hide WellFormed, Records, RowsFrom, RowPlace, PageOk, InsertAt, OneRowAdded, PageNumber, KindOf;
    HeapInsertRows(v, w, file, rec, rid);
    FileOfMap(v, file);
    FileOfMap(w, file);
    FileGainsRow(v[file], w[file], rid.page, rec);
    GainedOne(TableRows(v[file]), TableRows(w[file]), RowPlace(v[file], rid.page), rec);
  }

  /** Insertion order is kept if and only if no different row stands on a later page. */
  lemma RowOrderExactly(v: PageMap, w: PageMap, file: FileId, rec: Bytes, rid: EntryId)
    requires HeapInsert(v, w, file, rec, rid) && 1 <= rid.page
    ensures FilePagesOk(v[file]) && FilePagesOk(w[file])
    ensures var later := RowsFrom(v[file], rid.page + 1);
            TableRows(w[file]) == TableRows(v[file]) + [rec] <==> forall i :: 0 <= i < |later| ==> later[i] == rec
  {
    hide WellFormed, Records, RowsFrom, RowPlace, PageOk, InsertAt, OneRowAdded, PageNumber, KindOf;
    HeapInsertRows(v, w, file, rec, rid);
    FileOfMap(v, file);
    FileOfMap(w, file);
    FileGainsRow(v[file], w[file], rid.page, rec);
    var rows, k := TableRows(v[file]), RowPlace(v[file], rid.page);
    InsertAtEndExactly(rows, k, rec);
    assert forall i :: k <= i < |rows| ==> rows[i] == rows[k..][i - k];
    assert forall i :: 0 <= i < |rows[k..]| ==> rows[k..][i] == rows[k + i];
  }

  // ----- a file as the fills of its pages

  /** The fills of a file's pages. Page 0 holds no rows, and nothing is said of it. */
  ghost function FillsOf(ps: seq<Page>): (fills: seq<Fill>)
    requires FilePagesOk(ps)
    ensures |fills| == |ps|
  {
    seq(|ps|, i requires 0 <= i < |ps| => if i == 0 then Fill(Catalog, 0, 0) else FillAt(ps, i))
  }

  ghost function FillAt(ps: seq<Page>, n: nat): Fill
    requires FilePagesOk(ps) && n < |ps|
  {
    assert PageOk(ps[n], n);
    FillOf(ps[n])
  }

  /** How many rows pages of these fills hold. */
  function RowCount(fills: seq<Fill>): nat {
    if fills == [] then 0 else (if fills[0].kind.Heap? then fills[0].count else 0) + RowCount(fills[1..])
  }

  lemma {:induction false} RowCountJoins(a: seq<Fill>, b: seq<Fill>)
    ensures RowCount(a + b) == RowCount(a) + RowCount(b)
  {
    if a == [] {
      assert [] + b == b;
    } else {
      RowCountJoins(a[1..], b);
      assert (a + b)[1..] == a[1..] + b;
    }
  }

  lemma {:induction false} RowsCounted(ps: seq<Page>, n: nat)
    requires FilePagesOk(ps) && 1 <= n <= |ps|
    ensures |RowsFrom(ps, n)| == RowCount(FillsOf(ps)[n..])
    decreases |ps| - n
  {
    hide WellFormed, Records, FillOf, KindOf, PageNumber;
    if n < |ps| {
      RowsCounted(ps, n + 1);
      assert FillsOf(ps)[n..][1..] == FillsOf(ps)[n + 1..];
      assert PageOk(ps[n], n);
      CountOf(ps[n]);
      assert FillsOf(ps)[n] == FillOf(ps[n]);
    } else {
      assert FillsOf(ps)[n..] == [];
    }
  }

  lemma CountOf(p: Page)
    requires WellFormed(p)
    ensures |Records(p)| == FillOf(p).count && KindOf(p) == FillOf(p).kind
  {
  }

  /** The fills tell how many rows a file holds and where an insert puts its row. */
  lemma PlaceCounted(ps: seq<Page>, at: nat)
    requires FilePagesOk(ps) && |ps| >= 1 && at <= |ps|
    ensures |TableRows(ps)| == RowCount(FillsOf(ps))
    ensures RowPlace(ps, at) == RowCount(if at < |ps| then FillsOf(ps)[..at + 1] else FillsOf(ps))
  {
    hide FillAt, WellFormed, RowsFrom;
    var fills := FillsOf(ps);
    RowsCounted(ps, 1);
    assert RowCount(fills) == RowCount(fills[1..]);
    if at < |ps| {
      RowsCounted(ps, at + 1);
      RowCountJoins(fills[..at + 1], fills[at + 1..]);
      assert fills == fills[..at + 1] + fills[at + 1..];
    } else {
      NoLaterRows(ps, at + 1);
    }
  }

  lemma NoLaterRows(ps: seq<Page>, n: nat)
    requires FilePagesOk(ps) && n >= |ps|
    ensures RowsFrom(ps, n) == []
  {
  }

  /** What an insert does to the fills. */
  lemma FillInserted(v: PageMap, w: PageMap, file: FileId, rec: Bytes, rid: EntryId)
    requires HeapInsert(v, w, file, rec, rid) && 1 <= rid.page
    ensures FilePagesOk(v[file]) && FilePagesOk(w[file])
    ensures FillsOf(w[file]) ==
              if rid.page < |v[file]|
              then FillsOf(v[file])[rid.page := FillsOf(v[file])[rid.page].With(|rec|)]
              else FillsOf(v[file]) + [Fill(Heap, 0, 0).With(|rec|)]
  {
    hide WellFormed, Records, PageNumber, KindOf, FillOf;
    FileOfMap(v, file);
    FileOfMap(w, file);
    PageOkAt(w, PageId(file, rid.page));
    FillByRecords(w[file][rid.page]);
    if rid.page < |v[file]| {
      PageOkAt(v, PageId(file, rid.page));
      FillByRecords(v[file][rid.page]);
      OneRecordMore(Records(v[file][rid.page]), rec);
    } else {
      OneRecordMore([], rec);
    }
  }

  /** With records of at most 190 bytes an insert never panics, and succeeds whenever
      a page can be allocated. */
  lemma SmallRecordsAccepted(v: PageMap, p: PageId, rec: Bytes)
    requires PagesOk(v) && |rec| <= 190 && CanAllocate(v, p.file)
    requires InMap(v, p) ==> PageOk(v[p.file][p.num], p.num)
                             && KindOf(v[p.file][p.num]).Heap? && RecordsAtMost(v[p.file][p.num], 190)
    ensures HeapAnswer(v, p, rec).Ok?
    ensures InMap(v, p) ==> PageAnswer(v, p, rec) != Panic
  {
    if InMap(v, p) { SmallRecordsFit(v[p.file][p.num], rec); }
  }
}
