/** One 8192-byte page: a 19-byte header, a slot array growing up behind it and
    records growing down from the end (src/page/mod.rs). */
module SlottedPages {
  import opened Bytes
  import opened Outcomes

  const PAGE_SIZE: nat := 8192
  const ID: nat := 0
  const KIND: nat := 8
  const ENTRIES: nat := 9
  const HEADER_SIZE: nat := 19
  const SLOT_SIZE: nat := 4

  /** The largest record `insert_record` lets through. */
  const MAX_RECORD: nat := 8169

  type Page = p: Bytes | |p| == 8192 witness Zeros(8192)

  datatype PageKind = Heap | Catalog

  datatype EntryId = EntryId(page: nat, slot: nat)

  // ----- reading a page

  function KindByte(kind: PageKind): byte {
    if kind.Heap? then 0 else 1
  }

  function NumEntries(p: Page): u16 {
    U16At(p, ENTRIES)
  }

  function PageNumber(p: Page): nat {
    FromBE(p[ID..ID + 8])
  }

  function SlotOffset(p: Page, i: nat): u16
    requires HEADER_SIZE + SLOT_SIZE * (i + 1) <= PAGE_SIZE
  {
    U16At(p, HEADER_SIZE + SLOT_SIZE * i)
  }

  function SlotLength(p: Page, i: nat): u16
    requires HEADER_SIZE + SLOT_SIZE * (i + 1) <= PAGE_SIZE
  {
    U16At(p, HEADER_SIZE + SLOT_SIZE * i + 2)
  }

  /** Where the region of slot i has to end: the page end, or the previous record. */
  function UpperEdge(p: Page, i: nat): nat
    requires HEADER_SIZE + SLOT_SIZE * i <= PAGE_SIZE
  {
    if i == 0 then PAGE_SIZE else SlotOffset(p, i - 1)
  }

  /** The slots tile [last offset, 8192) downward and the slot array ends below. */
  ghost predicate WellFormed(p: Page) {
    var n := NumEntries(p);
    && p[KIND] <= 1
    && HEADER_SIZE + SLOT_SIZE * n <= UpperEdgeOrEnd(p, n)
    && forall i {:trigger SlotLength(p, i)} ::
         0 <= i < n ==> SlotOffset(p, i) + SlotLength(p, i) == UpperEdge(p, i)
  }

  /** The lowest byte in use, with -1 when the slot array overruns the page. */
  function UpperEdgeOrEnd(p: Page, n: nat): int {
    if HEADER_SIZE + SLOT_SIZE * n <= PAGE_SIZE then UpperEdge(p, n) else -1
  }

  function KindOf(p: Page): PageKind
    requires p[KIND] <= 1
  {
    if p[KIND] == 0 then Heap else Catalog
  }

  lemma {:induction false} OffsetsDescend(p: Page, i: nat, j: nat)
    requires WellFormed(p) && i <= j <= NumEntries(p)
    ensures UpperEdge(p, j) <= UpperEdge(p, i)
  {
    if i < j {
      assert SlotOffset(p, j - 1) + SlotLength(p, j - 1) == UpperEdge(p, j - 1);
      OffsetsDescend(p, i, j - 1);
    }
  }

  /** The lowest byte in use by a record. */
  function Lowest(p: Page): (low: nat)
    requires WellFormed(p)
    ensures HEADER_SIZE + SLOT_SIZE * NumEntries(p) <= low <= PAGE_SIZE
  {
    OffsetsDescend(p, 0, NumEntries(p));
    UpperEdge(p, NumEntries(p))
  }

  /** A record's region lies above the slot array and inside the page. */
  lemma RegionBounds(p: Page, i: nat)
    requires WellFormed(p) && i < NumEntries(p)
    ensures Lowest(p) <= SlotOffset(p, i)
    ensures SlotOffset(p, i) + SlotLength(p, i) <= PAGE_SIZE
  {
    OffsetsDescend(p, i + 1, NumEntries(p));
    OffsetsDescend(p, 0, i);
  }

  function Record(p: Page, i: nat): Bytes
    requires WellFormed(p) && i < NumEntries(p)
  {
    RegionBounds(p, i);
    p[SlotOffset(p, i)..SlotOffset(p, i) + SlotLength(p, i)]
  }

  /** What a well-formed page means: a sequence of records. */
  function Records(p: Page): (rs: seq<Bytes>)
    requires WellFormed(p)
    ensures |rs| == NumEntries(p)
  {
    seq(NumEntries(p), i requires 0 <= i < NumEntries(p) => Record(p, i))
  }

  /** `get_slot`: no bounds are known, so bad slots panic. */
  function GetSlot(p: Page, i: nat): Outcome<Option<Bytes>> {
    if i >= NumEntries(p) then Ok(None)
    else if HEADER_SIZE + SLOT_SIZE * (i + 1) > PAGE_SIZE then Panic
    else
      var end := SlotOffset(p, i) + SlotLength(p, i);
      if end > 0xFFFF || end > PAGE_SIZE then Panic
      else Ok(Some(p[SlotOffset(p, i)..end]))
  }

  /** On a well-formed page `get_slot` never panics and reads exactly `Records`. */
  lemma GetSlotReadsRecords(p: Page, i: nat)
    requires WellFormed(p)
    ensures GetSlot(p, i) == if i < |Records(p)| then Ok(Some(Records(p)[i])) else Ok(None)
  {
    if i < NumEntries(p) {
      RegionBounds(p, i);
    }
  }

  // ----- inserting

  /** What `insert` answers.  The subtraction comes before the check for room, so
      a record larger than the last slot's offset underflows u16. */
  function InsertOutcome(p: Page, rec: Bytes): Outcome<EntryId>
    requires WellFormed(p)
  {
    if |rec| > 0xFFFF then Err(IntConversion)
    else if Lowest(p) < |rec| then Panic
    else if Lowest(p) - |rec| < HEADER_SIZE + SLOT_SIZE * (NumEntries(p) + 1) then Err(PageFull)
    else Ok(EntryId(PageNumber(p), NumEntries(p)))
  }

  /** The page after a successful insert, write by write. */
  function Inserted(p: Page, rec: Bytes): Page
    requires WellFormed(p) && InsertOutcome(p, rec).Ok?
  {
    var n := NumEntries(p);
    var offset := Lowest(p) - |rec|;
    var slotWritten := Splice(p, HEADER_SIZE + SLOT_SIZE * n, Put16(offset) + Put16(|rec|));
    var recordWritten := Splice(slotWritten, offset, rec);
    Splice(recordWritten, ENTRIES, Put16(n + 1))
  }

  /** Which bytes an insert leaves alone, and what it writes. */
  lemma InsertedBytes(p: Page, rec: Bytes)
    requires WellFormed(p) && InsertOutcome(p, rec).Ok?
    ensures var q, n, offset := Inserted(p, rec), NumEntries(p), Lowest(p) - |rec|;
            && NumEntries(q) == n + 1
            && SlotOffset(q, n) == offset && SlotLength(q, n) == |rec|
            && q[offset..Lowest(p)] == rec
            && (forall i :: 0 <= i < ENTRIES ==> q[i] == p[i])
            && (forall i :: HEADER_SIZE <= i < HEADER_SIZE + SLOT_SIZE * n ==> q[i] == p[i])
            && (forall i :: Lowest(p) <= i < PAGE_SIZE ==> q[i] == p[i])
  {
    hide Splice, Put16, U16At, FromBE, WellFormed, Lowest;
    var n, offset := NumEntries(p), Lowest(p) - |rec|;
    var start := HEADER_SIZE + SLOT_SIZE * n;
    var slot := Put16(offset) + Put16(|rec|);
    var slotWritten := Splice(p, start, slot);
    var recordWritten := Splice(slotWritten, offset, rec);
    var q := Inserted(p, rec);
    SpliceWrites(p, start, slot);
    SpliceWrites(slotWritten, offset, rec);
    SpliceWrites(recordWritten, ENTRIES, Put16(n + 1));
    assert q[start..start + 2] == slot[..2] by {
      assert slotWritten[start..start + 4][..2] == slotWritten[start..start + 2];
    }
    assert q[start + 2..start + 4] == slot[2..] by {
      assert slotWritten[start..start + 4][2..] == slotWritten[start + 2..start + 4];
    }
    U16ReadsBack(q, ENTRIES, n + 1);
    U16ReadsBack(q, start, offset);
    U16ReadsBack(q, start + 2, |rec|);
    assert q[offset..Lowest(p)] == rec;
  }

  lemma SlotsKept(p: Page, rec: Bytes, i: nat)
    requires WellFormed(p) && InsertOutcome(p, rec).Ok? && i < NumEntries(p)
    ensures SlotOffset(Inserted(p, rec), i) == SlotOffset(p, i)
    ensures SlotLength(Inserted(p, rec), i) == SlotLength(p, i)
  {
    InsertedBytes(p, rec);
  }

  lemma InsertKeepsWellFormed(p: Page, rec: Bytes)
    requires WellFormed(p) && InsertOutcome(p, rec).Ok?
    ensures WellFormed(Inserted(p, rec)) && Lowest(Inserted(p, rec)) == Lowest(p) - |rec|
    ensures PageNumber(Inserted(p, rec)) == PageNumber(p)
    ensures KindOf(Inserted(p, rec)) == KindOf(p)
  {
    var q, n := Inserted(p, rec), NumEntries(p);
    InsertedBytes(p, rec);
    assert q[ID..ID + 8] == p[ID..ID + 8];
    forall i {:trigger SlotLength(q, i)} | 0 <= i < n + 1
      ensures SlotOffset(q, i) + SlotLength(q, i) == UpperEdge(q, i)
    {
      if 0 < i { SlotsKept(p, rec, i - 1); }
      if i < n {
        SlotsKept(p, rec, i);
        assert SlotOffset(p, i) + SlotLength(p, i) == UpperEdge(p, i);
      }
    }
  }

  lemma RecordKept(p: Page, rec: Bytes, i: nat)
    requires WellFormed(p) && InsertOutcome(p, rec).Ok? && i < NumEntries(p)
    requires WellFormed(Inserted(p, rec)) && NumEntries(Inserted(p, rec)) == NumEntries(p) + 1
    ensures Record(Inserted(p, rec), i) == Record(p, i)
  {
    hide Inserted, Splice, Put16, U16At;
    SlotsKept(p, rec, i);
    RegionBounds(p, i);
    InsertedBytes(p, rec);
  }

  /** Insert refines appending to a sequence: every earlier record is untouched
      and in its old place, the new one is last, and the header keeps its page
      number and kind. */
  lemma InsertAppends(p: Page, rec: Bytes)
    requires WellFormed(p) && InsertOutcome(p, rec).Ok?
    ensures WellFormed(Inserted(p, rec))
    ensures Records(Inserted(p, rec)) == Records(p) + [rec]
    ensures PageNumber(Inserted(p, rec)) == PageNumber(p)
    ensures KindOf(Inserted(p, rec)) == KindOf(p)
    ensures forall i :: 0 <= i < NumEntries(p) ==>
              SlotOffset(Inserted(p, rec), i) == SlotOffset(p, i)
  {
    hide Inserted, Splice, U16At, Put16, PageNumber, KindOf, WellFormed, Lowest;
    InsertKeepsWellFormed(p, rec);
    InsertedBytes(p, rec);
    var q := Inserted(p, rec);
    forall i | 0 <= i < NumEntries(p)
      ensures SlotOffset(q, i) == SlotOffset(p, i) && Record(q, i) == Record(p, i)
    {
      SlotsKept(p, rec, i);
      RecordKept(p, rec, i);
    }
    assert Record(q, NumEntries(p)) == rec;
  }

  /** `insert`, in place. */
  method Insert(page: array<byte>, rec: Bytes) returns (r: Outcome<EntryId>)
    requires page.Length == PAGE_SIZE && WellFormed(page[..])
    modifies page
    ensures r == InsertOutcome(old(page[..]), rec)
    ensures page[..] == if r.Ok? then Inserted(old(page[..]), rec) else old(page[..])
  {
    hide Splice, Put16, U16At;
    ghost var p := page[..];
    var size := |rec|;
    var numEntries := NumEntries(page[..]);
    var freespaceStart := HEADER_SIZE + SLOT_SIZE * numEntries;
    var newFreespaceStart := freespaceStart + SLOT_SIZE;
    if size > 0xFFFF {
      return Err(IntConversion);
    }
    var edge := if numEntries > 0 then SlotOffset(page[..], numEntries - 1) else PAGE_SIZE;
    assert edge == Lowest(p);
    if edge < size {
      return Panic;
    }
    var offset := edge - size;
    if offset < newFreespaceStart {
      return Err(PageFull);
    }
    CopyInto(page, freespaceStart, Put16(offset) + Put16(size));
    CopyInto(page, offset, rec);
    CopyInto(page, ENTRIES, Put16(numEntries + 1));
    InsertedBytes(p, rec);
    assert page[..] == Inserted(p, rec);
    assert PageNumber(page[..]) == PageNumber(p) by {
      assert page[..][ID..ID + 8] == p[ID..ID + 8];
    }
    r := Ok(EntryId(PageNumber(page[..]), numEntries));
  }

  // ----- new pages

  /** A page whose frame still holds stale bytes, after `create_page` set the
      kind, the entry count and the page number. */
  function Blanked(stale: Page, kind: PageKind, num: nat): Page {
    Splice(Splice(stale[KIND := KindByte(kind)], ENTRIES, Put16(0)), ID, ToBE(num, 8))
  }

  /** `create_blank_page`: a catalog page also gets the first free page number,
      where its slot array will grow. */
  function BlankPage(num: nat, kind: PageKind): Page {
    var p := Blanked(Zeros(PAGE_SIZE), kind, num);
    if kind.Catalog? then Splice(p, HEADER_SIZE, ToBE(2, 8)) else p
  }

  lemma PageNumberStored(p: Page, num: nat)
    requires num < Pow256(8) && p[ID..ID + 8] == ToBE(num, 8)
    ensures PageNumber(p) == num
  {
    FromBEToBE(num, 8);
  }

  /** Whatever the frame held before, the new page is an empty one. */
  lemma BlankedIsEmpty(stale: Page, kind: PageKind, num: nat)
    requires num < Pow256(8)
    ensures WellFormed(Blanked(stale, kind, num)) && Records(Blanked(stale, kind, num)) == []
    ensures KindOf(Blanked(stale, kind, num)) == kind
    ensures PageNumber(Blanked(stale, kind, num)) == num
  {
    var p := Blanked(stale, kind, num);
    assert p[ID..ID + 8] == ToBE(num, 8);
    PageNumberStored(p, num);
  }

  lemma BlankPageIsEmpty(num: nat, kind: PageKind)
    requires num < Pow256(8)
    ensures WellFormed(BlankPage(num, kind)) && Records(BlankPage(num, kind)) == []
    ensures KindOf(BlankPage(num, kind)) == kind
    ensures PageNumber(BlankPage(num, kind)) == num
  {
    var p := BlankPage(num, kind);
    assert p[ID..ID + 8] == ToBE(num, 8);
    PageNumberStored(p, num);
  }

  /** The layout, byte by byte: page number, kind, number of entries, next page, and on
      a catalog page the first free page. */
  lemma BlankPageBytes(num: nat)
    ensures BlankPage(num, Heap) == ToBE(num, 8) + [0, 0, 0] + Zeros(8181)
    ensures BlankPage(num, Catalog) == ToBE(num, 8) + [1, 0, 0] + Zeros(8) + [0, 0, 0, 0, 0, 0, 0, 2] + Zeros(8165)
  {
    assert ToBE(0, 1) == [0] && ToBE(0, 2) == [0, 0] && ToBE(0, 3) == [0, 0, 0] && ToBE(0, 4) == [0, 0, 0, 0];
    assert ToBE(0, 5) == [0, 0, 0, 0, 0] && ToBE(0, 6) == [0, 0, 0, 0, 0, 0] && ToBE(0, 7) == [0, 0, 0, 0, 0, 0, 0];
    assert ToBE(2, 8) == [0, 0, 0, 0, 0, 0, 0, 2];
  }

  /** A page with one record, byte by byte: the header, its slot, free space, the record. */
  lemma OneRecordBytes(num: nat, rec: Bytes)
    requires num < Pow256(8) && |rec| <= 8169
    ensures WellFormed(BlankPage(num, Heap)) && InsertOutcome(BlankPage(num, Heap), rec).Ok?
    ensures Inserted(BlankPage(num, Heap), rec)
         == ToBE(num, 8) + [0, 0, 1] + Zeros(8) + Put16(8192 - |rec|) + Put16(|rec|) + Zeros(8169 - |rec|) + rec
  {
    hide BlankPage, ToBE, Put16, WellFormed, Records;
    var p := BlankPage(num, Heap);
    BlankPageIsEmpty(num, Heap);
    BlankPageBytes(num);
    NoEntries(p);
    EmptyPageCapacity(p, rec);
    var slot := Put16(8192 - |rec|) + Put16(|rec|);
    assert Put16(1) == [0, 1] by { OneAsBytes(); }
    var expected := ToBE(num, 8) + [0, 0, 1] + Zeros(8) + slot + Zeros(8169 - |rec|) + rec;
    var q := Inserted(p, rec);
    forall i | 0 <= i < 8192
      ensures q[i] == expected[i]
    {
    }
    assert q == expected;
  }

  lemma OneAsBytes()
    ensures Put16(1) == [0, 1]
  {
  }

  // ----- how large a record may be

  /** An empty page takes a record exactly up to 8169 bytes. */
  lemma EmptyPageCapacity(p: Page, rec: Bytes)
    requires WellFormed(p) && NumEntries(p) == 0
    ensures InsertOutcome(p, rec).Ok? <==> |rec| <= MAX_RECORD
  {
  }

  /** What a page's records and their slots take up. */
  function UsedBytes(p: Page): nat
    requires WellFormed(p)
  {
    SLOT_SIZE * NumEntries(p) + PAGE_SIZE - Lowest(p)
  }

  /** A record is taken exactly if it and its slot fit behind the header with the rest. */
  lemma CapacityExactly(p: Page, rec: Bytes)
    requires WellFormed(p)
    ensures InsertOutcome(p, rec).Ok? <==> UsedBytes(p) + SLOT_SIZE + |rec| <= PAGE_SIZE - HEADER_SIZE
    ensures InsertOutcome(p, rec).Ok? ==>
              WellFormed(Inserted(p, rec)) && UsedBytes(Inserted(p, rec)) == UsedBytes(p) + SLOT_SIZE + |rec|
    ensures Records(p) == [] ==> UsedBytes(p) == 0
  {
    hide Inserted;
    if InsertOutcome(p, rec).Ok? {
      InsertKeepsWellFormed(p, rec);
      InsertedBytes(p, rec);
    }
    if Records(p) == [] { NoEntries(p); }
  }

  /** All that decides whether a page takes a record, and which answer it gives. */
  datatype Fill = Fill(kind: PageKind, count: nat, used: nat) {
    /** What `insert` answers to a record of this length. */
    function Answer(len: nat): Outcome<()> {
      if len > 0xFFFF then Err(IntConversion)
      else if used + len > PAGE_SIZE + SLOT_SIZE * count then Panic
      else if used + SLOT_SIZE + len > PAGE_SIZE - HEADER_SIZE then Err(PageFull)
      else Ok(())
    }

    function With(len: nat): Fill {
      Fill(kind, count + 1, used + SLOT_SIZE + len)
    }
  }

  function FillOf(p: Page): Fill
    requires WellFormed(p)
  {
    Fill(KindOf(p), NumEntries(p), UsedBytes(p))
  }

  /** `insert` answers by the fill alone, and what it leaves is the fill with the record. */
  lemma FillAnswers(p: Page, rec: Bytes)
    requires WellFormed(p)
    ensures InsertOutcome(p, rec) == match FillOf(p).Answer(|rec|)
                                     case Ok(_) => Ok(EntryId(PageNumber(p), NumEntries(p)))
                                     case Err(e) => Err(e)
                                     case Panic => Panic
    ensures InsertOutcome(p, rec).Ok? ==>
              WellFormed(Inserted(p, rec)) && FillOf(Inserted(p, rec)) == FillOf(p).With(|rec|)
    ensures Records(p) == [] ==> FillOf(p) == Fill(KindOf(p), 0, 0)
  {
    hide Inserted;
    if InsertOutcome(p, rec).Ok? {
      InsertKeepsWellFormed(p, rec);
      InsertedBytes(p, rec);
    }
    if Records(p) == [] { NoEntries(p); }
  }

  /** What records and their slots take up. */
  function RecordBytes(recs: seq<Bytes>): nat {
    if recs == [] then 0 else RecordBytes(recs[..|recs| - 1]) + SLOT_SIZE + |recs[|recs| - 1]|
  }

  lemma {:induction false} EdgeByRecords(p: Page, i: nat)
    requires WellFormed(p) && i <= NumEntries(p)
    ensures UpperEdge(p, i) + RecordBytes(Records(p)[..i]) == PAGE_SIZE + SLOT_SIZE * i
  {
    if i > 0 {
      EdgeByRecords(p, i - 1);
      RegionBounds(p, i - 1);
      assert Records(p)[..i][..i - 1] == Records(p)[..i - 1];
      assert SlotOffset(p, i - 1) + SlotLength(p, i - 1) == UpperEdge(p, i - 1);
    }
  }

  /** The fill of a page follows from its kind and its records. */
  lemma FillByRecords(p: Page)
    requires WellFormed(p)
    ensures FillOf(p) == Fill(KindOf(p), |Records(p)|, RecordBytes(Records(p)))
  {
    hide WellFormed, Records, SlotLength, SlotOffset;
    EdgeByRecords(p, NumEntries(p));
    assert Records(p)[..NumEntries(p)] == Records(p);
  }

  lemma OneRecordMore(recs: seq<Bytes>, rec: Bytes)
    ensures RecordBytes(recs + [rec]) == RecordBytes(recs) + SLOT_SIZE + |rec|
  {
    assert (recs + [rec])[..|recs|] == recs;
  }

  ghost predicate RecordsAtMost(p: Page, bound: nat)
    requires WellFormed(p)
  {
    forall i {:trigger SlotLength(p, i)} :: 0 <= i < NumEntries(p) ==> SlotLength(p, i) <= bound
  }

  lemma RecordLengths(p: Page, bound: nat)
    requires WellFormed(p) && forall i :: 0 <= i < |Records(p)| ==> |Records(p)[i]| <= bound
    ensures RecordsAtMost(p, bound)
  {
    forall i {:trigger SlotLength(p, i)} | 0 <= i < NumEntries(p)
      ensures SlotLength(p, i) <= bound
    {
      RegionBounds(p, i);
      assert |Records(p)[i]| <= bound;
    }
  }

  // ----- pages reached by inserts

  /** The records inserted one after the other. */
  function InsertAll(p: Page, recs: seq<Bytes>): (r: Outcome<Page>)
    requires WellFormed(p)
    ensures r.Ok? ==> WellFormed(r.value)
  {
    if recs == [] then Ok(p)
    else
      var q :- InsertAll(p, recs[..|recs| - 1]);
      var id :- InsertOutcome(q, recs[|recs| - 1]);
      InsertKeepsWellFormed(q, recs[|recs| - 1]);
      Ok(Inserted(q, recs[|recs| - 1]))
  }

  ghost predicate Lengths(recs: seq<Bytes>, bound: nat) {
    forall i :: 0 <= i < |recs| ==> |recs[i]| <= bound
  }

  /** Inserting makes the page's records exactly these, behind those it had. */
  lemma {:induction false} InsertAllAppends(p: Page, recs: seq<Bytes>)
    requires WellFormed(p) && InsertAll(p, recs).Ok?
    ensures Records(InsertAll(p, recs).value) == Records(p) + recs
  {
    hide WellFormed, Inserted, InsertOutcome, Records;
    if recs == [] {
      assert Records(p) + [] == Records(p);
    } else {
      var before, last := recs[..|recs| - 1], recs[|recs| - 1];
      InsertAllAppends(p, before);
      InsertAppends(InsertAll(p, before).value, last);
      assert recs == before + [last];
      Regroup(Records(p), before, [last]);
    }
  }

  /** No page filled with records of at most `bound` bytes, from an empty page on,
      makes `insert` of another such record underflow. */
  ghost predicate NeverUnderflows(bound: nat) {
    forall p: Page, recs: seq<Bytes>, rec: Bytes {:trigger InsertOutcome(InsertAll(p, recs).value, rec)} ::
      WellFormed(p) && Records(p) == [] && Lengths(recs, bound) && InsertAll(p, recs).Ok? && |rec| <= bound ==>
        InsertOutcome(InsertAll(p, recs).value, rec) != Panic
  }

  lemma {:induction false} RegionsBounded(p: Page, i: nat)
    requires WellFormed(p) && RecordsAtMost(p, 190) && i <= NumEntries(p)
    ensures UpperEdge(p, i) >= PAGE_SIZE - 190 * i
  {
    if i > 0 {
      RegionsBounded(p, i - 1);
      assert SlotOffset(p, i - 1) + SlotLength(p, i - 1) == UpperEdge(p, i - 1);
    }
  }

  /** On any well-formed page with records of at most 190 bytes one more is safe. */
  lemma SmallRecordsFit(p: Page, rec: Bytes)
    requires WellFormed(p) && RecordsAtMost(p, 190) && |rec| <= 190
    ensures InsertOutcome(p, rec) != Panic
  {
    RegionsBounded(p, NumEntries(p));
  }

  /** 25 records of 191 bytes, then 190 bytes each. */
  function Witness(count: nat): (recs: seq<Bytes>)
    ensures |recs| == count && forall i :: 0 <= i < count ==> |recs[i]| == if i < 25 then 191 else 190
  {
    if count == 0 then [] else Witness(count - 1) + [Zeros(if count <= 25 then 191 else 190)]
  }

  /** An empty page takes 42 of them, down to an offset of 187. */
  lemma {:induction false} Stacked(p: Page, count: nat)
    requires WellFormed(p) && Records(p) == [] && count <= 42
    ensures InsertAll(p, Witness(count)).Ok?
    ensures var q := InsertAll(p, Witness(count)).value;
            NumEntries(q) == count && Lowest(q) == 8192 - 190 * count - (if count < 25 then count else 25)
  {
    hide Inserted, WellFormed, Records;
    if count == 0 {
      NoEntries(p);
    } else {
      Stacked(p, count - 1);
      assert Witness(count)[..count - 1] == Witness(count - 1);
      var q := InsertAll(p, Witness(count - 1)).value;
      var rec := Witness(count)[count - 1];
      assert InsertOutcome(q, rec).Ok?;
      InsertedBytes(q, rec);
      InsertKeepsWellFormed(q, rec);
    }
  }

  lemma NoEntries(p: Page)
    requires WellFormed(p) && Records(p) == []
    ensures NumEntries(p) == 0 && Lowest(p) == PAGE_SIZE
  {
  }

  /** With records of 191 bytes it can happen: on every empty page, 42 inserts answer
      Ok and the next one panics. */
  lemma LargerRecordsUnderflow(p: Page)
    requires WellFormed(p) && Records(p) == []
    ensures Lengths(Witness(42), 191) && InsertAll(p, Witness(42)).Ok?
    ensures InsertOutcome(InsertAll(p, Witness(42)).value, Zeros(191)) == Panic
  {
    hide WellFormed;
    Stacked(p, 42);
  }

  /** 190 bytes is the largest safe size. */
  lemma SafeRecordSize(bound: nat)
    ensures NeverUnderflows(bound) <==> bound <= 190
  {
    hide WellFormed, InsertAll, Records, InsertOutcome;
    if bound <= 190 {
      forall p: Page, recs: seq<Bytes>, rec: Bytes {:trigger InsertOutcome(InsertAll(p, recs).value, rec)}
        | WellFormed(p) && Records(p) == [] && Lengths(recs, bound) && InsertAll(p, recs).Ok? && |rec| <= bound
        ensures InsertOutcome(InsertAll(p, recs).value, rec) != Panic
      {
        InsertAllAppends(p, recs);
        assert Records(p) + recs == recs;
        RecordLengths(InsertAll(p, recs).value, 190);
        SmallRecordsFit(InsertAll(p, recs).value, rec);
      }
    } else {
      var p := BlankPage(0, Heap);
      Widths();
      BlankPageIsEmpty(0, Heap);
      LargerRecordsUnderflow(p);
      assert Lengths(Witness(42), bound);
      assert InsertOutcome(InsertAll(p, Witness(42)).value, Zeros(191)) == Panic;
    }
  }
}
