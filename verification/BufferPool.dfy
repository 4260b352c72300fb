/** The buffer pool in place: frames with their byte arrays, the free list, the
    page table and the clock hand (src/buffer_pool.rs).  Every method leaves
    exactly the state that PoolModel says. */
module BufferPools {
  import opened Bytes
  import opened Outcomes
  import opened SlottedPages
  import opened PageFiles
  import opened ClockSweep
  import opened PoolModel
  import opened PoolRuns
  import opened Storage

  class Frame {
    const data: array<byte>
    var pageId: Option<PageId>
    var pinCount: int
    var clockFlag: bool
    var dirty: bool

    constructor ()
      ensures fresh(data) && data.Length == PAGE_SIZE
      ensures pageId == None && pinCount == 0 && !clockFlag && !dirty
    {
      data := new byte[PAGE_SIZE](_ => 0);
      pageId, pinCount, clockFlag, dirty := None, 0, false, false;
    }

    ghost predicate Is(s: FrameState)
      reads this, data
    {
      && data.Length == PAGE_SIZE && data[..] == s.data
      && pageId == s.page && pinCount == s.pins && clockFlag == s.flag && dirty == s.dirty
    }

    method Pin()
      modifies this`pinCount, this`clockFlag
      ensures pinCount == old(pinCount) + 1 && clockFlag
    {
      pinCount := pinCount + 1;
      clockFlag := true;
    }

    method Unpin()
      modifies this`pinCount
      ensures pinCount == old(pinCount) - 1
    {
      pinCount := pinCount - 1;
    }
  }

  /** Empty frames, each with its own bytes. */
  method NewFrames(n: nat) returns (made: seq<Frame>, ghost arrays: seq<array<byte>>, ghost snap: seq<FrameState>)
    ensures |made| == |arrays| == |snap| == n && fresh(made) && fresh(arrays)
    ensures forall j, k :: 0 <= j < k < n ==> made[j] != made[k] && arrays[j] != arrays[k]
    ensures forall j :: 0 <= j < n ==> made[j].data == arrays[j] && made[j].Is(snap[j])
    ensures forall j :: 0 <= j < n ==> snap[j] == FrameState(None, 0, false, false, snap[j].data)
  {
    made, arrays, snap := [], [], [];
    for i := 0 to n
      invariant |made| == |arrays| == |snap| == i
      invariant fresh(made) && fresh(arrays)
      invariant forall j, k :: 0 <= j < k < i ==> made[j] != made[k] && arrays[j] != arrays[k]
      invariant forall j :: 0 <= j < i ==> made[j].data == arrays[j] && made[j].Is(snap[j])
      invariant forall j :: 0 <= j < i ==> snap[j] == FrameState(None, 0, false, false, snap[j].data)
    {
      var frame := new Frame();
      made := made + [frame];
      arrays := arrays + [frame.data];
      snap := snap + [FrameState(None, 0, false, false, frame.data[..])];
    }
  }

  class BufferPool {
    const storage: StorageManager
    const frames: seq<Frame>
    ghost const buffers: seq<array<byte>>
    var clockHand: nat
    var freeFrames: seq<nat>
    var pageTable: map<PageId, nat>
    ghost var live: multiset<Guard>
    /** The frames as values, kept in step with the objects. */
    ghost var snapshot: seq<FrameState>

    /** The pool, the guards and the files as one value. */
    ghost function State(): State
      reads this, storage
    {
      PoolModel.State(snapshot, clockHand, freeFrames, pageTable, live, storage.files)
    }

    ghost predicate InSync()
      reads this`snapshot, frames, buffers
    {
      && |frames| == |buffers| == |snapshot|
      && (forall i, j :: 0 <= i < j < |frames| ==> frames[i] != frames[j] && buffers[i] != buffers[j])
      && (forall i :: 0 <= i < |frames| ==> frames[i].data == buffers[i] && frames[i].Is(snapshot[i]))
    }

    ghost predicate Valid()
      reads this, storage, frames, buffers
    {
      InSync() && Inv(State()) && storage.Valid()
    }

    /** The plain map from page to bytes. */
    ghost function Pages(): PageMap
      reads this, storage, frames, buffers
      requires Valid()
    {
      View(State())
    }

    /** `BufferPool::new`: all frames empty and free. */
    constructor (numFrames: nat, storage: StorageManager)
      requires storage.Valid()
      ensures Valid() && fresh(frames) && fresh(buffers)
      ensures this.storage == storage && |frames| == numFrames && live == multiset{}
      ensures Pages() == DiskView(storage.files)
      ensures Initial(State())
    {
      hide Inv, View, DiskView, FilesOk, LayoutOk;
      var made: seq<Frame>;
      ghost var arrays: seq<array<byte>>, snap: seq<FrameState>;
      made, arrays, snap := NewFrames(numFrames);
      this.storage := storage;
      frames := made;
      buffers := arrays;
      clockHand := 0;
      freeFrames := seq(numFrames, i => i);
      pageTable := map[];
      live := multiset{};
      snapshot := snap;
      new;
      assert InSync();
      InitialOk(State());
    }

    // ----- one frame at a time

    lemma Lengths()
      requires InSync()
      ensures |frames| == |buffers| == |snapshot|
    {
    }

    method PinFrame(i: nat)
      requires InSync() && i < |frames|
      modifies this`snapshot, frames[i]
      ensures InSync()
      ensures snapshot == old(snapshot)[i := old(snapshot)[i].(pins := old(snapshot)[i].pins + 1, flag := true)]
    {
      assert frames[i].Is(snapshot[i]);
      frames[i].Pin();
      snapshot := snapshot[i := snapshot[i].(pins := snapshot[i].pins + 1, flag := true)];
    }

    method UnpinFrame(i: nat)
      requires InSync() && i < |frames|
      modifies this`snapshot, frames[i]
      ensures InSync()
      ensures snapshot == old(snapshot)[i := old(snapshot)[i].(pins := old(snapshot)[i].pins - 1)]
    {
      assert frames[i].Is(snapshot[i]);
      frames[i].Unpin();
      snapshot := snapshot[i := snapshot[i].(pins := snapshot[i].pins - 1)];
    }

    method SetFrame(i: nat, page: Option<PageId>, pins: int, flag: bool, dirty: bool)
      requires InSync() && i < |frames|
      modifies this`snapshot, frames[i]
      ensures InSync()
      ensures snapshot == old(snapshot)[i := FrameState(page, pins, flag, dirty, old(snapshot)[i].data)]
    {
      var frame := frames[i];
      assert frame.Is(snapshot[i]);
      frame.pageId, frame.pinCount, frame.clockFlag, frame.dirty := page, pins, flag, dirty;
      snapshot := snapshot[i := FrameState(page, pins, flag, dirty, snapshot[i].data)];
      forall j | 0 <= j < |frames|
        ensures frames[j].data == buffers[j] && frames[j].Is(snapshot[j])
      {
        assert j != i ==> frames[j] != frame && old(frames[j].Is(snapshot[j]));
      }
    }

    /** `read_block` into the frame's buffer. */
    method FillFrame(i: nat, p: PageId) returns (r: Outcome<()>)
      requires InSync() && i < |frames| && FilesOk(storage.files)
      modifies this`snapshot, buffers[i]
      ensures InSync()
      ensures match ReadFrom(storage.files, p)
              case Ok(data) => r == Ok(()) && snapshot == old(snapshot)[i := old(snapshot)[i].(data := data)]
              case Err(e) => r == Err(e) && snapshot == old(snapshot)
              case Panic => false
    {
      assert frames[i].Is(snapshot[i]);
      r := storage.ReadBlock(p, frames[i].data);
      snapshot := snapshot[i := snapshot[i].(data := frames[i].data[..])];
    }

    /** Writing bytes into the frame's buffer. */
    method StoreFrame(i: nat, at: nat, bytes: Bytes)
      requires InSync() && i < |frames| && at + |bytes| <= PAGE_SIZE
      modifies this`snapshot, buffers[i]
      ensures InSync()
      ensures snapshot == old(snapshot)[i := old(snapshot)[i].(data := Splice(old(snapshot)[i].data, at, bytes))]
    {
      assert frames[i].Is(snapshot[i]);
      CopyInto(frames[i].data, at, bytes);
      snapshot := snapshot[i := snapshot[i].(data := frames[i].data[..])];
    }

    // ----- choosing and emptying a frame

    method SelectVictimClock() returns (victim: Option<nat>)
      requires InSync() && clockHand < |frames|
      modifies this`clockHand, this`snapshot, frames
      ensures InSync()
      ensures (victim, snapshot, clockHand) == Sweep(old(snapshot), old(clockHand), 4 * |frames|)
    {
      ghost var target := Sweep(snapshot, clockHand, 4 * |frames|);
      for step := 0 to 4 * |frames|
        invariant InSync() && clockHand < |frames|
        invariant Sweep(snapshot, clockHand, 4 * |frames| - step) == target
      {
        var hand := clockHand;
        NextIsModulo(hand, |frames|);
        clockHand := (hand + 1) % |frames|;
        var frame := frames[hand];
        assert frame.Is(snapshot[hand]);
        if frame.pinCount == 0 {
          if frame.clockFlag {
            SetFrame(hand, frame.pageId, 0, false, frame.dirty);
          } else {
            return Some(hand);
          }
        }
      }
      victim := None;
    }

    method SelectVictim() returns (victim: Option<nat>)
      requires InSync() && InRange(State())
      modifies this`clockHand, this`freeFrames, this`snapshot, frames
      ensures InSync()
      ensures (victim, State()) == PoolModel.SelectVictim(old(State()))
    {
      if |freeFrames| > 0 {
        victim := Some(freeFrames[|freeFrames| - 1]);
        freeFrames := freeFrames[..|freeFrames| - 1];
      } else if |frames| == 0 {
        victim := None;
      } else {
        victim := SelectVictimClock();
      }
    }

    method EvictPage(v: nat) returns (r: Outcome<()>)
      requires InSync() && InRange(State()) && v < |frames|
      modifies this`pageTable, this`snapshot, frames, storage`files
      ensures InSync()
      ensures (r, State()) == Evict(old(State()), v)
      ensures storage.files.Keys == old(storage.files.Keys)
    {
      var frame := frames[v];
      assert frame.Is(snapshot[v]);
      if frame.pinCount != 0 {
        return Panic;
      }
      if frame.pageId.Some? {
        pageTable := pageTable - {frame.pageId.value};
        if frame.dirty {
          var written := storage.WriteBlock(frame.pageId.value, frame.data[..]);
          if !written.Ok? {
            return written;
          }
        }
      }
      SetFrame(v, None, frame.pinCount, false, false);
      r := Ok(());
    }

    /** An emptied frame gets its page: table entry, frame state, one pin. */
    method Install(v: nat, p: PageId, dirty: bool)
      requires InSync() && v < |frames| && v < |snapshot| && snapshot[v].pins == 0
      modifies this`pageTable, this`snapshot, frames[v]
      ensures InSync() && |snapshot| == |old(snapshot)|
      ensures snapshot == old(snapshot)[v := FrameState(Some(p), 1, true, dirty, old(snapshot)[v].data)]
      ensures pageTable == old(pageTable)[p := v]
    {
      hide InSync;
      ghost var before := snapshot;
      SetFrame(v, Some(p), 0, false, dirty);
      pageTable := pageTable[p := v];
      PinFrame(v);
      assert snapshot == before[v := FrameState(Some(p), 1, true, dirty, before[v].data)];
    }

    /** And loses it again when the page could not be read. */
    method Uninstall(v: nat, p: PageId)
      requires InSync() && v < |frames| && v < |snapshot|
      modifies this`pageTable, this`snapshot, frames[v]
      ensures InSync() && |snapshot| == |old(snapshot)|
      ensures snapshot == old(snapshot)[v := old(snapshot)[v].(page := None, pins := old(snapshot)[v].pins - 1)]
      ensures pageTable == old(pageTable) - {p}
    {
      ghost var before := snapshot;
      UnpinFrame(v);
      pageTable := pageTable - {p};
      var frame := frames[v];
      assert frame.Is(snapshot[v]);
      SetFrame(v, None, frame.pinCount, frame.clockFlag, frame.dirty);
      hide InSync;
      assert snapshot == before[v := before[v].(page := None, pins := before[v].pins - 1)];
    }

    /** The part of `get_page` after a victim's frame was emptied. */
    method Load(p: PageId, v: nat) returns (r: Outcome<Guard>)
      requires InSync() && v < |frames| && v < |snapshot| && FilesOk(storage.files)
      requires snapshot[v].pins == 0 && p !in pageTable
      modifies this`pageTable, this`snapshot, this`live, frames[v], buffers[v]
      ensures InSync()
      ensures match ReadFrom(storage.files, p)
              case Ok(data) => r == Ok(Guard(p, v)) && State() == Loaded(old(State()), v, p, false, data)
              case Err(e) => r == Err(e)
                && State() == old(State()).(
                     frames := old(snapshot)[v := FrameState(None, 0, true, false, old(snapshot)[v].data)])
              case Panic => false
    {
      Lengths();
      hide InSync, FilesOk, ReadFrom;
      ghost var before := snapshot;
      Install(v, p, false);
      var read := FillFrame(v, p);
      if !read.Ok? {
        Uninstall(v, p);
        assert snapshot == before[v := FrameState(None, 0, true, false, before[v].data)];
        assert pageTable == old(pageTable);
        return read.PropagateFailure();
      }
      assert snapshot == before[v := FrameState(Some(p), 1, true, false, snapshot[v].data)];
      live := live + multiset{Guard(p, v)};
      r := Ok(Guard(p, v));
    }

    method GetMissing(p: PageId) returns (r: Outcome<Guard>)
      requires InSync() && Inv(State()) && p !in pageTable
      modifies this, frames, buffers, storage`files
      ensures InSync() && (r, State()) == PoolModel.GetPage(old(State()), p)
      ensures storage.files.Keys == old(storage.files.Keys)
    {
      ghost var before := State();
      SelectVictimKeeps(before);
      InvGives(before);
      hide InSync, Inv, View, LayoutOk, Evict, PoolModel.SelectVictim, ReadFrom, Loaded, OnlyFlagsDiffer;
      var victim := SelectVictim();
      if victim.None? {
        return Err(NoPagesAvailable);
      }
      ghost var chosen := State();
      InvGives(chosen);
      VictimIsReady(chosen, victim.value);
      var evicted := EvictPage(victim.value);
      InvGives(State());
      Lengths();
      if p in pageTable {
        return Panic;
      }
      r := Load(p, victim.value);
    }

    method GetResident(p: PageId) returns (r: Outcome<Guard>)
      requires InSync() && InRange(State()) && p in pageTable
      modifies this, frames
      ensures InSync() && (r, State()) == PoolModel.GetPage(old(State()), p)
    {
      Lengths();
      hide InSync, PoolModel.SelectVictim;
      var hit := pageTable[p];
      PinFrame(hit);
      live := live + multiset{Guard(p, hit)};
      r := Ok(Guard(p, hit));
    }

    /** `get_page`: a pinned guard on the page, from its frame or from disk. */
    method GetPage(p: PageId) returns (r: Outcome<Guard>)
      requires Valid()
      modifies this, frames, buffers, storage`files
      ensures Valid() && (r, State()) == PoolModel.GetPage(old(State()), p)
      ensures Pages() == old(Pages()) && r != Panic
      ensures live == if r.Ok? then old(live) + multiset{r.value} else old(live)
      ensures r.Ok? ==> r.value.page == p && InMap(Pages(), p)
      ensures r.Err? && InMap(Pages(), p) ==> r == Err(NoPagesAvailable) && AllPinned(old(State()))
      ensures old(live) == multiset{} ==> (r.Ok? <==> |frames| > 0 && InMap(Pages(), p))
    {
      hide InSync, Inv, View, FilesOk, PoolModel.GetPage, storage.Valid, AllPinned;
      ghost var before := State();
      if live == multiset{} { NothingPinned(before); }
      Lengths();
      GetPageKeeps(before, p);
      GetPageYields(before, p);
      InvGives(before);
      AllocatedInMap(before, p);
      if p in pageTable {
        r := GetResident(p);
      } else {
        r := GetMissing(p);
      }
      assert Inv(State());
      InvGives(State());
      storage.StillValid();
    }

    method CreatePageRaw(file: FileId, kind: PageKind) returns (r: Outcome<Guard>)
      requires InSync() && Inv(State())
      modifies this, frames, buffers, storage`files
      ensures InSync() && (r, State()) == PoolModel.CreatePage(old(State()), file, kind)
      ensures storage.files.Keys == old(storage.files.Keys)
    {
      hide InSync, Inv, View, LayoutOk, Evict, Append, PoolModel.SelectVictim, Loaded, Blanked, OnlyFlagsDiffer;
      ghost var before := State();
      SelectVictimKeeps(before);
      InvGives(before);
      var victim := SelectVictim();
      if victim.None? {
        return Err(Unknown);
      }
      var v := victim.value;
      ghost var chosen := State();
      InvGives(chosen);
      var num := storage.AppendEmptyBlock(file);
      if !num.Ok? {
        return num.PropagateFailure();
      }
      AppendKeepsInv(chosen, file);
      VictimIsReady(State(), v);
      InvGives(State());
      var evicted := EvictPage(v);
      Lengths();
      InstallBlank(v, PageId(file, num.value), kind);
      r := Ok(Guard(PageId(file, num.value), v));
    }

    /** The part of `create_page` after a victim's frame was emptied: only the kind,
        the entry count and the page number are set in whatever bytes are there. */
    method InstallBlank(v: nat, p: PageId, kind: PageKind)
      requires InSync() && v < |frames| && v < |snapshot| && snapshot[v].pins == 0
      modifies this`pageTable, this`snapshot, this`live, frames[v], buffers[v]
      ensures InSync()
      ensures State() == Loaded(old(State()), v, p, true, Blanked(old(snapshot)[v].data, kind, p.num))
    {
      hide InSync;
      ghost var before := snapshot;
      Install(v, p, true);
      StoreFrame(v, KIND, [KindByte(kind)]);
      StoreFrame(v, ENTRIES, Put16(0));
      StoreFrame(v, ID, ToBE(p.num, 8));
      assert Splice(before[v].data, KIND, [KindByte(kind)]) == before[v].data[KIND := KindByte(kind)];
      assert snapshot == before[v := FrameState(Some(p), 1, true, true, Blanked(before[v].data, kind, p.num))];
      live := live + multiset{Guard(p, v)};
    }

    /** `create_page`: one more page at the end of the file. */
    method CreatePage(file: FileId, kind: PageKind) returns (r: Outcome<Guard>)
      requires Valid()
      modifies this, frames, buffers, storage`files
      ensures Valid() && (r, State()) == PoolModel.CreatePage(old(State()), file, kind)
      ensures r != Panic
      ensures r.Ok? <==> CanAllocate(old(Pages()), file) && !AllPinned(old(State()))
      ensures old(live) == multiset{} ==> (r.Ok? <==> |frames| > 0 && CanAllocate(old(Pages()), file))
      ensures AllPinned(old(State())) || (old(live) == multiset{} && |frames| == 0) ==> r == Err(Unknown)
      ensures old(live) == multiset{} && |frames| > 0 && !CanAllocate(old(Pages()), file) ==>
                r == Err(if file in old(Pages()) then Io else FileNotFound)
      ensures !r.Ok? ==> Pages() == old(Pages()) && live == old(live)
      ensures r.Ok? ==>
                && live == old(live) + multiset{r.value} && file in old(Pages())
                && r.value.page == PageId(file, |old(Pages())[file]|)
                && IsNewPage(old(Pages()), Pages(), r.value.page, kind)
    {
      hide InSync, Inv, View, FilesOk, PoolModel.CreatePage, storage.Valid, AllPinned, WellFormed, IsNewPage,
           CanAllocate;
      ghost var before := State();
      if live == multiset{} { NothingPinned(before); }
      Lengths();
      CreatedPage(before, file, kind);
      InvGives(before);
      r := CreatePageRaw(file, kind);
      InvGives(State());
      storage.StillValid();
    }

    /** Dropping a guard unpins its frame. */
    method DropGuard(g: Guard)
      requires Valid() && g in live
      modifies this`live, this`snapshot, frames
      ensures Valid() && State() == Drop(old(State()), g)
      ensures Pages() == old(Pages()) && live == old(live) - multiset{g}
    {
      hide InSync, Inv, View, FilesOk, storage.Valid;
      DropKeeps(State(), g);
      Lengths();
      UnpinFrame(g.frame);
      live := live - multiset{g};
      InvGives(State());
      storage.StillValid();
    }

    /** The bytes a guard gives access to. */
    method ReadGuard(g: Guard) returns (data: Page)
      requires Valid() && g in live
      ensures Valid()
      ensures InMap(Pages(), g.page) && data == Pages()[g.page.file][g.page.num]
    {
      LiveFacts(State(), g);
      hide Inv, View;
      assert frames[g.frame].Is(snapshot[g.frame]);
      data := frames[g.frame].data[..];
    }

    /** A guard cast for writing marks its frame dirty even if nothing is written. */
    method TouchGuard(g: Guard)
      requires Valid() && g in live
      modifies this`snapshot, frames
      ensures Valid() && Pages() == old(Pages())
    {
      hide InSync, Inv, View, FilesOk, storage.Valid;
      ghost var before := State();
      LiveFacts(before, g);
      InvGives(before);
      Lengths();
      MarkDirty(g.frame);
      WriteRefines(before, g, before.frames[g.frame].data);
      RewriteSamePage(View(before), g.page);
      assert State() == Write(before, g, before.frames[g.frame].data);
      storage.StillValid();
    }

    method MarkDirty(i: nat)
      requires InSync() && i < |frames| && i < |snapshot|
      modifies this`snapshot, frames[i]
      ensures InSync() && snapshot == old(snapshot)[i := old(snapshot)[i].(dirty := true)]
    {
      assert frames[i].Is(snapshot[i]);
      frames[i].dirty := true;
      snapshot := snapshot[i := snapshot[i].(dirty := true)];
    }

    method InsertIntoFrame(i: nat, kind: PageKind, rec: Bytes) returns (r: Outcome<EntryId>)
      requires InSync() && i < |frames| && i < |snapshot| && WellFormed(snapshot[i].data)
      modifies this`snapshot, frames[i], buffers[i]
      ensures InSync()
      ensures r == InsertAs(old(snapshot)[i].data, kind, rec)
      ensures snapshot == old(snapshot)[i := old(snapshot)[i].(dirty := true,
                data := if r.Ok? then Inserted(old(snapshot)[i].data, rec) else old(snapshot)[i].data)]
    {
      assert snapshot[i].data[KIND] <= 1;
      hide WellFormed, InsertOutcome, Inserted;
      var frame := frames[i];
      assert frame.Is(snapshot[i]);
      frame.dirty := true;
      if KindOf(frame.data[..]) != kind {
        snapshot := snapshot[i := snapshot[i].(dirty := true)];
        return Err(PageCast);
      }
      r := SlottedPages.Insert(frame.data, rec);
      snapshot := snapshot[i := snapshot[i].(dirty := true, data := frame.data[..])];
    }

    /** `as_heap_mut` or `as_catalog_mut`, which mark the frame dirty even when the
        cast fails, and then `insert`. */
    method InsertThrough(g: Guard, kind: PageKind, rec: Bytes) returns (r: Outcome<EntryId>)
      requires Valid() && g in live
      requires InMap(Pages(), g.page) && WellFormed(Pages()[g.page.file][g.page.num])
      modifies this`snapshot, frames, buffers
      ensures Valid()
      ensures r == InsertAs(old(Pages())[g.page.file][g.page.num], kind, rec)
      ensures Pages() == if r.Ok?
                         then WithPage(old(Pages()), g.page, Inserted(old(Pages())[g.page.file][g.page.num], rec))
                         else old(Pages())
    {
      hide InSync, Inv, View, FilesOk, storage.Valid, WellFormed, InsertAs, Inserted;
      LiveFacts(State(), g);
      InvGives(State());
      Lengths();
      ghost var before := State();
      r := InsertIntoFrame(g.frame, kind, rec);
      ghost var data := snapshot[g.frame].data;
      WriteRefines(before, g, data);
      RewriteSamePage(View(before), g.page);
      assert State() == Write(before, g, data);
      storage.StillValid();
    }

    /** `flush_all`: afterwards the page files alone hold the map. */
    method FlushAll() returns (r: Outcome<()>)
      requires Valid()
      modifies storage`files
      ensures Valid() && r == Ok(())
      ensures Pages() == old(Pages()) && DiskView(storage.files) == Pages()
    {
      hide Inv, View, FilesOk, storage.Valid, WriteBack, DiskView;
      ghost var before := State();
      FlushRefines(before);
      InvGives(before);
      Lengths();
      ghost var target := Flush(snapshot, 0, storage.files);
      r := WriteDirtyFrames();
      assert State() == before.(files := target.1);
      InvGives(State());
      storage.StillValid();
    }

    method WriteDirtyFrames() returns (r: Outcome<()>)
      requires InSync()
      modifies storage`files
      ensures (r, storage.files) == Flush(snapshot, 0, old(storage.files))
      ensures storage.files.Keys == old(storage.files.Keys)
    {
      hide WriteBack;
      ghost var target := Flush(snapshot, 0, storage.files);
      for i := 0 to |frames|
        invariant |frames| == |snapshot|
        invariant Flush(snapshot, i, storage.files) == target
        invariant storage.files.Keys == old(storage.files.Keys)
      {
        var frame := frames[i];
        assert frame.Is(snapshot[i]);
        if frame.dirty {
          if frame.pageId.None? {
            return Panic;
          }
          var written := storage.WriteBlock(frame.pageId.value, frame.data[..]);
          if !written.Ok? {
            return written;
          }
        }
      }
      r := Ok(());
    }

    /** `open_or_create_file` on the pool's storage. */
    method OpenFile(path: Path) returns (r: Outcome<FileId>)
      requires Valid() && path != CATALOG_PATH
      modifies storage
      ensures Valid()
      ensures path in old(storage.paths) ==>
                r == Ok(old(storage.paths)[path]) && unchanged(storage) && Pages() == old(Pages())
      ensures path !in old(storage.paths) ==>
                var parsed := OpenBytes(if path in old(storage.closed) then old(storage.closed)[path] else []);
                if !parsed.Ok? then r == Err(CorruptPageFile) && unchanged(storage) && Pages() == old(Pages())
                else if old(storage.nextId) == MAX_FILE_ID then
                  r == Panic && unchanged(storage) && Pages() == old(Pages())
                else
                  && r == Ok(FileId(old(storage.nextId))) && r.value.id < MAX_FILE_ID
                  && r.value !in old(Pages()) && LayoutOk(parsed.value)
                  && Pages() == old(Pages())[r.value := PageFiles.Pages(parsed.value)]
                  && storage.paths == old(storage.paths)[path := r.value]
                  && storage.nextId == old(storage.nextId) + 1
                  && storage.closed == old(storage.closed) - {path}
    {
      hide Inv, View, LayoutOk, OpenBytes, InSync, FilesOk;
      OpenedIsOk(path);
      ghost var before := State();
      ghost var parsed := OpenBytes(if path in storage.closed then storage.closed[path] else []);
      InvGives(before);
      r := storage.OpenOrCreateFile(path);
      if r.Ok? && path !in old(storage.paths) {
        OpenFileRefines(before, r.value, parsed.value);
        assert State() == before.(files := before.files[r.value := parsed.value]);
      }
    }

    /** An open file's path is in the map, under its own name only. */
    lemma PathsOk()
      requires Valid()
      ensures forall p :: p in storage.paths ==> storage.paths[p] in Pages()
      ensures forall p, q :: p in storage.paths && q in storage.paths && storage.paths[p] == storage.paths[q] ==> p == q
      ensures CATALOG_FILE in Pages() && CATALOG_PATH in storage.paths && storage.paths[CATALOG_PATH] == CATALOG_FILE
      ensures forall f :: f in Pages() ==> f.id < MAX_FILE_ID
      ensures forall p :: p in storage.paths ==> storage.paths[p].id < storage.nextId
    {
      hide Inv, FilesOk, InSync;
    }

    lemma OpenedIsOk(path: Path)
      requires storage.Valid()
      ensures var parsed := OpenBytes(if path in storage.closed then storage.closed[path] else []);
              parsed.Ok? ==> LayoutOk(parsed.value)
    {
      hide LayoutOk, FreshFile;
      FreshLayout();
    }
  }

  predicate InMap(v: PageMap, p: PageId) {
    p.file in v && p.num < |v[p.file]|
  }

  predicate CanAllocate(v: PageMap, file: FileId) {
    file in v && |v[file]| < MAX_PAGES
  }

  lemma NothingPinned(s: State)
    requires Inv(s) && s.live == multiset{}
    ensures AllPinned(s) <==> s.frames == []
  {
    if s.frames != [] {
      assert FrameOk(s, 0);
      assert s.frames[0].pins == 0;
    }
  }

  lemma AllocationFacts(s: State, file: FileId)
    requires Inv(s)
    ensures CanAppend(s, file) <==> CanAllocate(View(s), file)
    ensures file in View(s) <==> file in s.files
  {
  }

  /** `create_page` in terms of the plain map. */
  lemma CreatedPage(s: State, file: FileId, kind: PageKind)
    requires Inv(s)
    ensures var (out, t) := PoolModel.CreatePage(s, file, kind);
            && Inv(t) && out != Panic
            && (out.Ok? <==> CanAllocate(View(s), file) && !AllPinned(s))
            && (!out.Ok? ==> View(t) == View(s) && t.live == s.live)
            && (AllPinned(s) ==> out == Err(Unknown))
            && (!AllPinned(s) && !CanAllocate(View(s), file) ==>
                  out == Err(if file in View(s) then Io else FileNotFound))
            && (out.Ok? ==>
                  && t.live == s.live + multiset{out.value} && file in View(s)
                  && out.value.page == PageId(file, |View(s)[file]|)
                  && IsNewPage(View(s), View(t), out.value.page, kind))
  {
    hide Inv, View, FilesOk, PoolModel.CreatePage, AllPinned, WellFormed;
    AllocationFacts(s, file);
    CreatePageRefines(s, file, kind);
    InvGives(s);
    if file in s.files { ViewLength(s, file); }
  }

  lemma AllocatedInMap(s: State, p: PageId)
    requires InRange(s) && FilesOk(s.files)
    ensures Allocated(s.files, p) <==> InMap(View(s), p)
  {
  }

  /** What `insert` through a cast guard answers. */
  function InsertAs(page: Page, kind: PageKind, rec: Bytes): (r: Outcome<EntryId>)
    requires WellFormed(page)
    ensures r.Ok? ==> InsertOutcome(page, rec).Ok?
  {
    if KindOf(page) != kind then Err(PageCast) else InsertOutcome(page, rec)
  }

  /** `w` is `v` with page p added at the end of its file, empty and of this kind. */
  ghost predicate IsNewPage(v: PageMap, w: PageMap, p: PageId, kind: PageKind) {
    && p.file in v && p.num == |v[p.file]| && InMap(w, p)
    && var page := w[p.file][p.num];
       && w == WithNewPage(v, p.file, page)
       && WellFormed(page) && Records(page) == [] && KindOf(page) == kind && PageNumber(page) == p.num
  }
}
