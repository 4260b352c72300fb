/** The buffer pool as a state machine over values: what each operation of
    src/buffer_pool.rs answers and leaves behind, and what that means for the
    plain map from page to bytes that the pool stands for. */
module PoolModel {
  import opened Bytes
  import opened Outcomes
  import opened SlottedPages
  import opened PageFiles
  import opened ClockSweep

  type Files = map<FileId, PageFile>

  /** A live page guard: the page it was asked for and the frame it borrows. */
  datatype Guard = Guard(page: PageId, frame: nat)

  /** The pool, the page files under it, and the guards that are alive. */
  datatype State = State(
    frames: seq<FrameState>,
    hand: nat,
    free: seq<nat>,
    table: map<PageId, nat>,
    live: multiset<Guard>,
    files: Files)

  // ----- the operations

  predicate InRange(s: State) {
    && (s.hand < |s.frames| || (s.frames == [] && s.hand == 0))
    && (forall k :: 0 <= k < |s.free| ==> s.free[k] < |s.frames|)
    && (forall p :: p in s.table ==> s.table[p] < |s.frames|)
  }

  function SelectVictim(s: State): (r: (Option<nat>, State))
    requires InRange(s)
    ensures InRange(r.1) && |r.1.frames| == |s.frames|
    ensures r.0.Some? ==> r.0.value < |s.frames|
  {
    if s.free != [] then (Some(s.free[|s.free| - 1]), s.(free := s.free[..|s.free| - 1]))
    else if s.frames == [] then (None, s)
    else
      var (victim, frames, hand) := Sweep(s.frames, s.hand, 4 * |s.frames|);
      (victim, s.(frames := frames, hand := hand))
  }

  function WriteBack(files: Files, p: PageId, data: Page): (Outcome<()>, Files) {
    if p.file !in files then (Err(FileNotFound), files)
    else (Ok(()), files[p.file := WriteBlock(files[p.file], p.num, data)])
  }

  /** `evict_page`: the table entry goes first, then a dirty page is written back. */
  function Evict(s: State, v: nat): (r: (Outcome<()>, State))
    requires InRange(s) && v < |s.frames|
    ensures InRange(r.1) && |r.1.frames| == |s.frames|
  {
    var f := s.frames[v];
    if f.pins != 0 then (Panic, s)
    else
      var table := if f.page.Some? then s.table - {f.page.value} else s.table;
      var (out, files) :=
        if f.page.Some? && f.dirty then WriteBack(s.files, f.page.value, f.data) else (Ok(()), s.files);
      if !out.Ok? then (out, s.(table := table, files := files))
      else (Ok(()), s.(table := table, files := files, frames := s.frames[v := Emptied(f)]))
  }

  function Emptied(f: FrameState): FrameState {
    f.(page := None, flag := false, dirty := false)
  }

  function ReadFrom(files: Files, p: PageId): Outcome<Page> {
    if p.file !in files then Err(FileNotFound) else ReadBlock(files[p.file], p.num)
  }

  function Pinned(s: State, g: Guard): (t: State)
    requires g.frame < |s.frames|
  {
    var f := s.frames[g.frame];
    s.(frames := s.frames[g.frame := f.(pins := f.pins + 1, flag := true)], live := s.live + multiset{g})
  }

  /** Frame v holding page p, pinned once, after it was filled with `data`. */
  function Loaded(s: State, v: nat, p: PageId, dirty: bool, data: Page): State
    requires v < |s.frames|
  {
    s.(frames := s.frames[v := FrameState(Some(p), 1, true, dirty, data)],
       table := s.table[p := v],
       live := s.live + multiset{Guard(p, v)})
  }

  function GetPage(s: State, p: PageId): (r: (Outcome<Guard>, State))
    requires InRange(s)
  {
    if p in s.table then
      var g := Guard(p, s.table[p]);
      (Ok(g), Pinned(s, g))
    else
      var (victim, s1) := SelectVictim(s);
      if victim.None? then (Err(NoPagesAvailable), s1)
      else
        var v := victim.value;
        var (evicted, s2) := Evict(s1, v);
        if !evicted.Ok? then (evicted.PropagateFailure(), s2)
        else if p in s2.table then (Panic, s2)
        else
          match ReadFrom(s2.files, p)
          case Ok(data) => (Ok(Guard(p, v)), Loaded(s2, v, p, false, data))
          // pinned and unpinned again: the clock flag stays set
          case Err(e) => (Err(e), s2.(frames := s2.frames[v := s2.frames[v].(flag := true)]))
          case Panic => (Panic, s2)
  }

  function AppendBlock(files: Files, f: FileId): (Outcome<nat>, Files) {
    if f !in files then (Err(FileNotFound), files)
    else if files[f].numPages >= MAX_PAGES then (Err(Io), files)
    else (Ok(files[f].numPages), files[f := Append(files[f])])
  }

  function CreatePage(s: State, f: FileId, kind: PageKind): (r: (Outcome<Guard>, State))
    requires InRange(s)
  {
    var (victim, s1) := SelectVictim(s);
    if victim.None? then (Err(Unknown), s1)
    else
      var v := victim.value;
      var (num, files) := AppendBlock(s1.files, f);
      if !num.Ok? then (num.PropagateFailure(), s1)
      else
        var (evicted, s2) := Evict(s1.(files := files), v);
        if !evicted.Ok? then (evicted.PropagateFailure(), s2)
        else
          var p := PageId(f, num.value);
          (Ok(Guard(p, v)), Loaded(s2, v, p, true, Blanked(s2.frames[v].data, kind, num.value)))
  }

  /** Dropping a guard unpins its frame. */
  function Drop(s: State, g: Guard): State
    requires g.frame < |s.frames|
  {
    var f := s.frames[g.frame];
    s.(frames := s.frames[g.frame := f.(pins := f.pins - 1)], live := s.live - multiset{g})
  }

  /** Borrowing a guard's bytes for writing marks the frame dirty. */
  function Write(s: State, g: Guard, data: Page): State
    requires g.frame < |s.frames|
  {
    s.(frames := s.frames[g.frame := s.frames[g.frame].(dirty := true, data := data)])
  }

  /** `flush_all` from frame i on; a dirty frame without a page would panic. */
  function Flush(frames: seq<FrameState>, i: nat, files: Files): (Outcome<()>, Files)
    requires i <= |frames|
    decreases |frames| - i
  {
    if i == |frames| then (Ok(()), files)
    else if !frames[i].dirty then Flush(frames, i + 1, files)
    else if frames[i].page.None? then (Panic, files)
    else
      var (out, written) := WriteBack(files, frames[i].page.value, frames[i].data);
      if !out.Ok? then (out, written) else Flush(frames, i + 1, written)
  }

  // ----- the invariant

  predicate Allocated(files: Files, p: PageId) {
    p.file in files && p.num < files[p.file].numPages
  }

  ghost predicate FilesOk(files: Files) {
    forall f :: f in files ==> LayoutOk(files[f])
  }

  function BlockOf(files: Files, p: PageId): Page
    requires FilesOk(files) && Allocated(files, p)
  {
    Block(files[p.file], p.num)
  }

  ghost predicate FrameOk(s: State, i: nat)
    requires FilesOk(s.files) && i < |s.frames|
  {
    var f := s.frames[i];
    match f.page
    case None => !f.dirty && f.pins == 0
    case Some(p) =>
      && Allocated(s.files, p)
      && p in s.table && s.table[p] == i
      && f.pins == s.live[Guard(p, i)]
      && (f.dirty || f.data == BlockOf(s.files, p))
  }

  ghost predicate GuardOk(s: State, g: Guard) {
    g.frame < |s.frames| && s.frames[g.frame].page == Some(g.page)
  }

  /** Page table and frames are mutually inverse; a frame's pins count its live
      guards, which all sit on the page they were asked for; free frames are
      distinct and empty; dirty frames hold a page; clean ones equal their block. */
  ghost predicate Inv(s: State) {
    && InRange(s)
    && FilesOk(s.files)
    && FramesOk(s)
    && PageTableOk(s)
    && GuardsOk(s)
    && FreeOk(s)
  }

  ghost predicate FramesOk(s: State)
    requires FilesOk(s.files)
  {
    forall i {:trigger s.frames[i]} :: 0 <= i < |s.frames| ==> FrameOk(s, i)
  }

  ghost predicate PageTableOk(s: State)
    requires InRange(s)
  {
    forall p :: p in s.table ==> s.frames[s.table[p]].page == Some(p)
  }

  ghost predicate GuardsOk(s: State) {
    forall g :: g in s.live ==> GuardOk(s, g)
  }

  ghost predicate FreeOk(s: State)
    requires InRange(s)
  {
    && (forall k :: 0 <= k < |s.free| ==> s.frames[s.free[k]].page == None)
    && (forall j, k :: 0 <= j < k < |s.free| ==> s.free[j] != s.free[k])
  }

  // ----- the plain map the pool stands for

  function PageAt(s: State, p: PageId): Page
    requires InRange(s) && FilesOk(s.files) && Allocated(s.files, p)
  {
    if p in s.table then s.frames[s.table[p]].data else BlockOf(s.files, p)
  }

  function FileView(s: State, f: FileId): (ps: seq<Page>)
    requires InRange(s) && FilesOk(s.files) && f in s.files
    ensures |ps| == s.files[f].numPages
  {
    seq(s.files[f].numPages, n requires 0 <= n < s.files[f].numPages => PageAt(s, PageId(f, n)))
  }

  /** Every file as the sequence of its pages, wherever their bytes are. */
  function View(s: State): (v: PageMap)
    requires InRange(s) && FilesOk(s.files)
    ensures v.Keys == s.files.Keys
  {
    map f | f in s.files :: FileView(s, f)
  }

  type PageMap = map<FileId, seq<Page>>

  function WithPage(v: PageMap, p: PageId, data: Page): PageMap
    requires p.file in v && p.num < |v[p.file]|
  {
    var ps: seq<Page> := v[p.file][p.num := data];
    v[p.file := ps]
  }

  function WithNewPage(v: PageMap, f: FileId, data: Page): PageMap
    requires f in v
  {
    v[f := v[f] + [data]]
  }

  lemma RewriteSamePage(v: PageMap, p: PageId)
    requires p.file in v && p.num < |v[p.file]|
    ensures WithPage(v, p, v[p.file][p.num]) == v
  {
    assert v[p.file][p.num := v[p.file][p.num]] == v[p.file];
  }

  lemma WriteNewPage(v: PageMap, f: FileId, a: Page, b: Page)
    requires f in v
    ensures WithPage(WithNewPage(v, f, a), PageId(f, |v[f]|), b) == WithNewPage(v, f, b)
  {
    assert (v[f] + [a])[|v[f]| := b] == v[f] + [b];
  }

  lemma ViewAt(s: State, p: PageId)
    requires InRange(s) && FilesOk(s.files) && Allocated(s.files, p)
    ensures p.file in View(s) && p.num < |View(s)[p.file]|
    ensures View(s)[p.file][p.num] == PageAt(s, p)
  {
  }

  ghost predicate SamePages(s: State, t: State)
    requires InRange(s) && FilesOk(s.files) && InRange(t) && FilesOk(t.files)
  {
    && s.files.Keys == t.files.Keys
    && (forall f :: f in s.files ==> s.files[f].numPages == t.files[f].numPages)
    && (forall p :: Allocated(s.files, p) ==> PageAt(s, p) == PageAt(t, p))
  }

  lemma SamePagesSameView(s: State, t: State)
    requires InRange(s) && FilesOk(s.files) && InRange(t) && FilesOk(t.files)
    requires SamePages(s, t)
    ensures View(s) == View(t)
  {
    forall f | f in s.files
      ensures FileView(s, f) == FileView(t, f)
    {
    }
  }

  // ----- each step keeps the invariant and the map

  ghost predicate OnlyFlagsDiffer(a: seq<FrameState>, b: seq<FrameState>) {
    && |a| == |b|
    && forall i {:trigger b[i]} :: 0 <= i < |a| ==> b[i] == a[i].(flag := b[i].flag)
  }

  lemma SweepOnlyClearsFlags(frames: seq<FrameState>, hand: nat)
    requires hand < |frames|
    ensures var r := Sweep(frames, hand, 4 * |frames|);
            && OnlyFlagsDiffer(frames, r.1)
            && (r.0.Some? ==> r.1[r.0.value].pins == 0)
            && (r.0.None? <==> forall i :: 0 <= i < |frames| ==> frames[i].pins != 0)
  {
    SweepChooses(frames, hand, 4 * |frames|);
    AllPinnedIfNoneUnpinned(frames, hand);
    var k := First(frames, hand, Takeable, 0);
    if k < |frames| {
      assert frames[At(hand, k, |frames|)].pins == 0;
    }
  }

  lemma FlagsDoNotMatter(s: State, t: State)
    requires Inv(s) && InRange(t)
    requires t == s.(frames := t.frames, hand := t.hand) && OnlyFlagsDiffer(s.frames, t.frames)
    ensures Inv(t) && View(t) == View(s)
  {
    hide LayoutOk, BlockOf, View;
    forall i | 0 <= i < |t.frames|
      ensures FrameOk(t, i)
    {
      assert FrameOk(s, i);
    }
    forall g | g in t.live
      ensures GuardOk(t, g)
    {
      assert GuardOk(s, g);
    }
    SamePagesSameView(s, t);
  }

  lemma FreeListDoesNotMatter(s: State, t: State)
    requires Inv(s) && InRange(t) && t == s.(free := t.free)
    requires forall k :: 0 <= k < |t.free| ==> s.frames[t.free[k]].page == None
    requires forall j, k :: 0 <= j < k < |t.free| ==> t.free[j] != t.free[k]
    ensures Inv(t) && View(t) == View(s)
  {
    hide LayoutOk, BlockOf, View;
    forall i | 0 <= i < |t.frames|
      ensures FrameOk(t, i)
    {
      assert FrameOk(s, i);
    }
    forall g | g in t.live
      ensures GuardOk(t, g)
    {
      assert GuardOk(s, g);
    }
    SamePagesSameView(s, t);
  }

  /** No victim means exactly that every frame is pinned. */
  lemma SelectVictimKeeps(s: State)
    requires Inv(s)
    ensures var (victim, t) := SelectVictim(s);
            && Inv(t) && View(t) == View(s) && OnlyFlagsDiffer(s.frames, t.frames)
            && t.table == s.table && t.live == s.live && t.files == s.files
            && (victim.None? <==> forall i :: 0 <= i < |s.frames| ==> s.frames[i].pins != 0)
            && (victim.Some? ==> t.frames[victim.value].pins == 0 && victim.value !in t.free)
  {
    var (victim, t) := SelectVictim(s);
    if s.free != [] {
      assert FrameOk(s, victim.value);
      FreeListDoesNotMatter(s, t);
    } else if s.frames != [] {
      SweepOnlyClearsFlags(s.frames, s.hand);
      FlagsDoNotMatter(s, t);
    }
  }

  /** Which frame is taken: the last free one, and once there are none the clock's choice. */
  lemma VictimExactly(s: State)
    requires InRange(s)
    ensures s.free != [] ==>
              SelectVictim(s) == (Some(s.free[|s.free| - 1]), s.(free := s.free[..|s.free| - 1]))
    ensures s.free == [] && s.frames == [] ==> SelectVictim(s) == (None, s)
    ensures s.free == [] && s.frames != [] ==>
              var (victim, frames, hand) := Choice(s.frames, s.hand);
              SelectVictim(s) == (victim, s.(frames := frames, hand := hand))
  {
    hide Sweep, Choice;
    if s.free == [] && s.frames != [] { SweepChooses(s.frames, s.hand, 4 * |s.frames|); }
  }

  /** Fetching a page marks its frame as used and pins it once more; from disk it comes
      unmodified. A new page is marked as used and modified. */
  lemma FetchMarks(s: State, p: PageId, f: FileId, kind: PageKind)
    requires InRange(s)
    ensures var (out, t) := GetPage(s, p);
            out.Ok? ==>
              var g := out.value;
              && g.frame < |t.frames| && t.frames[g.frame].flag
              && t.frames[g.frame].pins == (if p in s.table then s.frames[s.table[p]].pins else 0) + 1
              && t.frames[g.frame].dirty == (p in s.table && s.frames[s.table[p]].dirty)
    ensures var (out, t) := CreatePage(s, f, kind);
            out.Ok? ==>
              var g := out.value;
              g.frame < |t.frames| && t.frames[g.frame].flag && t.frames[g.frame].pins == 1 && t.frames[g.frame].dirty
  {
    hide SelectVictim, Evict, ReadFrom, Append, Blanked;
  }

  /** Writing an allocated page back changes that block only; it never fails and
      never takes the branch that extends the file. */
  lemma WriteBackKeeps(files: Files, p: PageId, data: Page)
    requires FilesOk(files) && Allocated(files, p)
    ensures !Extends(files[p.file], p.num)
    ensures var (out, written) := WriteBack(files, p, data);
            && out == Ok(())
            && FilesOk(written) && written.Keys == files.Keys
            && (forall f :: f in files ==> written[f].numPages == files[f].numPages)
            && (forall q :: Allocated(files, q) ==>
                  BlockOf(written, q) == if q == p then data else BlockOf(files, q))
  {
    WriteKeepsLayout(files[p.file], p.num, data);
  }

  /** What an eviction leaves: the frame empty, its page out of the table and,
      clean or written back, on disk. */
  lemma EvictEffect(s: State, v: nat)
    requires Inv(s) && v < |s.frames| && s.frames[v].pins == 0
    ensures var f, (out, t) := s.frames[v], Evict(s, v);
            && out == Ok(())
            && t == s.(frames := s.frames[v := Emptied(f)], table := t.table, files := t.files)
            && t.table == (if f.page.Some? then s.table - {f.page.value} else s.table)
            && FilesOk(t.files) && t.files.Keys == s.files.Keys
            && (forall f :: f in s.files ==> t.files[f].numPages == s.files[f].numPages)
            && (forall q :: Allocated(s.files, q) ==>
                  BlockOf(t.files, q) == if f.page == Some(q) then f.data else BlockOf(s.files, q))
  {
    var f := s.frames[v];
    assert FrameOk(s, v);
    if f.page.Some? && f.dirty {
      WriteBackKeeps(s.files, f.page.value, f.data);
    }
  }

  lemma EvictFrames(s: State, v: nat, i: nat)
    requires Inv(s) && v < |s.frames| && s.frames[v].pins == 0 && i < |s.frames|
    ensures FilesOk(Evict(s, v).1.files) && FrameOk(Evict(s, v).1, i)
  {
    EvictEffect(s, v);
    assert FrameOk(s, i);
    assert FrameOk(s, v);
  }

  lemma EvictGuards(s: State, v: nat, g: Guard)
    requires Inv(s) && v < |s.frames| && s.frames[v].pins == 0 && g in s.live
    ensures g.frame != v && GuardOk(Evict(s, v).1, g)
  {
    EvictEffect(s, v);
    assert GuardOk(s, g);
    assert FrameOk(s, g.frame);
  }

  lemma EvictPages(s: State, v: nat)
    requires Inv(s) && v < |s.frames| && s.frames[v].pins == 0
    ensures FilesOk(Evict(s, v).1.files) && SamePages(s, Evict(s, v).1)
  {
    EvictEffect(s, v);
    var t := Evict(s, v).1;
    assert FrameOk(s, v);
    forall p | Allocated(s.files, p)
      ensures PageAt(s, p) == PageAt(t, p)
    {
    }
  }

  /** An eviction loses no update and disturbs no guard. */
  lemma EvictKeeps(s: State, v: nat)
    requires Inv(s) && v < |s.frames| && s.frames[v].pins == 0 && v !in s.free
    ensures Inv(Evict(s, v).1) && View(Evict(s, v).1) == View(s)
  {
    hide FrameOk, GuardOk, LayoutOk, View, SamePages, BlockOf;
    var t := Evict(s, v).1;
    EvictEffect(s, v);
    assert FramesOk(t) by {
      forall i | 0 <= i < |t.frames|
        ensures FrameOk(t, i)
      {
        EvictFrames(s, v, i);
      }
    }
    assert GuardsOk(t) by {
      forall g | g in t.live
        ensures GuardOk(t, g)
      {
        EvictGuards(s, v, g);
      }
    }
    EvictPages(s, v);
    SamePagesSameView(s, t);
  }

  /** Filling an empty frame with an allocated page that is not resident. */
  ghost predicate CanLoad(s: State, v: nat, p: PageId, dirty: bool, data: Page) {
    && Inv(s) && v < |s.frames| && s.frames[v].page == None && v !in s.free
    && Allocated(s.files, p) && p !in s.table
    && (dirty || data == BlockOf(s.files, p))
  }

  lemma LoadFrames(s: State, v: nat, p: PageId, dirty: bool, data: Page, i: nat)
    requires CanLoad(s, v, p, dirty, data) && i < |s.frames|
    ensures FrameOk(Loaded(s, v, p, dirty, data), i)
  {
    hide LayoutOk, BlockOf;
    assert FrameOk(s, i);
    assert Guard(p, v) !in s.live by {
      assert Guard(p, v) in s.live ==> GuardOk(s, Guard(p, v));
    }
  }

  lemma LoadGuards(s: State, v: nat, p: PageId, dirty: bool, data: Page, g: Guard)
    requires CanLoad(s, v, p, dirty, data) && g in Loaded(s, v, p, dirty, data).live
    ensures GuardOk(Loaded(s, v, p, dirty, data), g)
  {
    hide LayoutOk, BlockOf;
    if g != Guard(p, v) {
      assert GuardOk(s, g);
      assert FrameOk(s, g.frame);
    }
  }

  lemma LoadKeepsInv(s: State, v: nat, p: PageId, dirty: bool, data: Page)
    requires CanLoad(s, v, p, dirty, data)
    ensures Inv(Loaded(s, v, p, dirty, data))
  {
    hide FrameOk, GuardOk, LayoutOk, BlockOf;
    var t := Loaded(s, v, p, dirty, data);
    assert FramesOk(t) by {
      forall i | 0 <= i < |t.frames|
        ensures FrameOk(t, i)
      {
        LoadFrames(s, v, p, dirty, data, i);
      }
    }
    assert GuardsOk(t) by {
      forall g | g in t.live
        ensures GuardOk(t, g)
      {
        LoadGuards(s, v, p, dirty, data, g);
      }
    }
  }

  lemma LoadView(s: State, v: nat, p: PageId, dirty: bool, data: Page)
    requires CanLoad(s, v, p, dirty, data)
    ensures InRange(Loaded(s, v, p, dirty, data))
    ensures View(Loaded(s, v, p, dirty, data)) == WithPage(View(s), p, data)
  {
    hide FrameOk, GuardOk, LayoutOk, BlockOf;
    var t := Loaded(s, v, p, dirty, data);
    forall f | f in s.files
      ensures FileView(t, f) == WithPage(View(s), p, data)[f]
    {
      forall n | 0 <= n < s.files[f].numPages
        ensures PageAt(t, PageId(f, n)) == if PageId(f, n) == p then data else PageAt(s, PageId(f, n))
      {
      }
    }
  }

  lemma PinFrames(s: State, g: Guard, i: nat)
    requires Inv(s) && g.page in s.table && g.frame == s.table[g.page] && i < |s.frames|
    ensures FrameOk(Pinned(s, g), i)
  {
    hide LayoutOk, BlockOf;
    assert FrameOk(s, i);
    assert FrameOk(s, g.frame);
  }

  lemma PinKeeps(s: State, g: Guard)
    requires Inv(s) && g.page in s.table && g.frame == s.table[g.page]
    ensures Inv(Pinned(s, g)) && View(Pinned(s, g)) == View(s)
    ensures Allocated(s.files, g.page)
    ensures s.frames[g.frame].data == View(s)[g.page.file][g.page.num]
  {
    hide LayoutOk, View, BlockOf;
    var t := Pinned(s, g);
    assert FrameOk(s, g.frame);
    assert FramesOk(t) by {
      forall i | 0 <= i < |t.frames|
        ensures FrameOk(t, i)
      {
        PinFrames(s, g, i);
      }
    }
    assert GuardsOk(t) by {
      forall h | h in t.live
        ensures GuardOk(t, h)
      {
        if h in s.live { assert GuardOk(s, h); }
      }
    }
    SamePagesSameView(s, t);
    ViewAt(s, g.page);
  }

  /** After a victim was chosen and evicted, its frame is ready to be filled. */
  lemma VictimIsReady(s: State, v: nat)
    requires Inv(s) && v < |s.frames| && s.frames[v].pins == 0 && v !in s.free
    ensures var (out, t) := Evict(s, v);
            && out == Ok(()) && Inv(t) && View(t) == View(s)
            && |t.frames| == |s.frames| && t.frames[v] == FrameState(None, 0, false, false, s.frames[v].data)
            && t.free == s.free && t.live == s.live
            && (forall p :: Allocated(t.files, p) <==> Allocated(s.files, p))
            && (forall p :: p in t.table ==> p in s.table)
  {
    hide LayoutOk, View, FrameOk, GuardOk, BlockOf;
    EvictEffect(s, v);
    EvictKeeps(s, v);
  }

  /** Reading a page into an empty frame. */
  lemma LoadFromDisk(s: State, v: nat, p: PageId)
    requires Inv(s) && v < |s.frames| && s.frames[v].page == None && v !in s.free
    requires p !in s.table && Allocated(s.files, p)
    ensures ReadFrom(s.files, p) == Ok(View(s)[p.file][p.num])
    ensures var t := Loaded(s, v, p, false, View(s)[p.file][p.num]);
            Inv(t) && View(t) == View(s)
  {
    hide View, FrameOk, GuardOk;
    var data := BlockOf(s.files, p);
    ViewAt(s, p);
    LoadKeepsInv(s, v, p, false, data);
    LoadView(s, v, p, false, data);
    RewriteSamePage(View(s), p);
  }

  lemma MissingPage(s: State, v: nat, p: PageId)
    requires Inv(s) && v < |s.frames| && !Allocated(s.files, p)
    ensures ReadFrom(s.files, p).Err?
    ensures var t := s.(frames := s.frames[v := s.frames[v].(flag := true)]);
            Inv(t) && View(t) == View(s)
  {
    hide View, FrameOk, GuardOk;
    FlagsDoNotMatter(s, s.(frames := s.frames[v := s.frames[v].(flag := true)]));
  }

  /** `get_page` never changes the map, whether it hits, misses or fails. */
  lemma GetPageKeeps(s: State, p: PageId)
    requires Inv(s)
    ensures Inv(GetPage(s, p).1) && View(GetPage(s, p).1) == View(s)
    ensures GetPage(s, p).0 != Panic
  {
    hide View, FrameOk, GuardOk, LayoutOk, BlockOf, Evict, ReadFrom, Loaded;
    if p in s.table {
      PinKeeps(s, Guard(p, s.table[p]));
    } else {
      SelectVictimKeeps(s);
      var (victim, s1) := SelectVictim(s);
      if victim.Some? {
        VictimIsReady(s1, victim.value);
        var s2 := Evict(s1, victim.value).1;
        if Allocated(s2.files, p) {
          LoadFromDisk(s2, victim.value, p);
        } else {
          MissingPage(s2, victim.value, p);
        }
      }
    }
  }

  ghost predicate AllPinned(s: State) {
    forall i :: 0 <= i < |s.frames| ==> s.frames[i].pins != 0
  }

  /** It succeeds exactly when the page is resident, or exists and some frame can be
      taken; then the new guard's frame holds the page's bytes. */
  lemma GetPageYields(s: State, p: PageId)
    requires Inv(s)
    ensures GetPage(s, p).0.Ok? <==> p in s.table || (Allocated(s.files, p) && !AllPinned(s))
    ensures p in s.table ==> Allocated(s.files, p)
    ensures var (out, t) := GetPage(s, p);
            && t.live == (if out.Ok? then s.live + multiset{out.value} else s.live)
            && (out.Err? && Allocated(s.files, p) ==> out == Err(NoPagesAvailable))
            && (out.Ok? ==> out.value.page == p && out.value.frame < |t.frames|
                            && t.frames[out.value.frame].data == View(s)[p.file][p.num])
            && |t.frames| == |s.frames|
            && (forall q :: Allocated(t.files, q) <==> Allocated(s.files, q))
  {
    hide View, FrameOk, GuardOk, LayoutOk, BlockOf, Evict, ReadFrom;
    if p in s.table {
      PinKeeps(s, Guard(p, s.table[p]));
    } else {
      SelectVictimKeeps(s);
      var (victim, s1) := SelectVictim(s);
      if victim.Some? {
        VictimIsReady(s1, victim.value);
        var s2 := Evict(s1, victim.value).1;
        if Allocated(s2.files, p) {
          LoadFromDisk(s2, victim.value, p);
        } else {
          MissingPage(s2, victim.value, p);
        }
      }
    }
  }

  predicate CanAppend(s: State, f: FileId) {
    f in s.files && s.files[f].numPages < MAX_PAGES
  }

  lemma AppendFrames(s: State, f: FileId, i: nat)
    requires Inv(s) && CanAppend(s, f) && i < |s.frames|
    ensures var t := s.(files := AppendBlock(s.files, f).1);
            FilesOk(t.files) && FrameOk(t, i)
  {
    AppendKeepsLayout(s.files[f]);
    assert FrameOk(s, i);
  }

  lemma ResidentIsAllocated(s: State)
    requires Inv(s)
    ensures forall p :: p in s.table ==> Allocated(s.files, p)
  {
    forall p | p in s.table
      ensures Allocated(s.files, p)
    {
      assert FrameOk(s, s.table[p]);
    }
  }

  lemma AppendPage(s: State, f: FileId, p: PageId)
    requires Inv(s) && CanAppend(s, f)
    ensures var t := s.(files := AppendBlock(s.files, f).1);
            && FilesOk(t.files)
            && (Allocated(t.files, p) <==> Allocated(s.files, p) || p == PageId(f, s.files[f].numPages))
            && (Allocated(s.files, p) ==> PageAt(t, p) == PageAt(s, p))
            && (p == PageId(f, s.files[f].numPages) ==> p !in s.table && PageAt(t, p) == Zeros(PAGE_SIZE))
  {
    hide FrameOk, GuardOk;
    AppendKeepsLayout(s.files[f]);
    ResidentIsAllocated(s);
  }

  lemma AppendView(s: State, f: FileId)
    requires Inv(s) && CanAppend(s, f)
    ensures var t := s.(files := AppendBlock(s.files, f).1);
            && FilesOk(t.files) && View(t) == WithNewPage(View(s), f, Zeros(PAGE_SIZE))
            && PageId(f, s.files[f].numPages) !in s.table
  {
    hide FrameOk, GuardOk, LayoutOk, PageAt, BlockOf, Append;
    var t := s.(files := AppendBlock(s.files, f).1);
    var added := PageId(f, s.files[f].numPages);
    AppendPage(s, f, added);
    AppendGrows(s.files[f]);
    forall g | g in s.files
      ensures FileView(t, g) == WithNewPage(View(s), f, Zeros(PAGE_SIZE))[g]
    {
      forall n | 0 <= n < t.files[g].numPages
        ensures PageAt(t, PageId(g, n)) == if PageId(g, n) == added then Zeros(PAGE_SIZE) else PageAt(s, PageId(g, n))
      {
        AppendPage(s, f, PageId(g, n));
      }
    }
  }

  lemma AppendGrows(f: PageFile)
    ensures Append(f).numPages == f.numPages + 1
  {
  }

  lemma AppendKeepsInv(s: State, f: FileId)
    requires Inv(s) && CanAppend(s, f)
    ensures Inv(s.(files := AppendBlock(s.files, f).1))
  {
    hide FrameOk, LayoutOk, BlockOf;
    AppendView(s, f);
    var t := s.(files := AppendBlock(s.files, f).1);
    assert FramesOk(t) by {
      forall i | 0 <= i < |t.frames|
        ensures FrameOk(t, i)
      {
        AppendFrames(s, f, i);
      }
    }
    forall g | g in t.live
      ensures GuardOk(t, g)
    {
      assert GuardOk(s, g);
    }
  }

  lemma InstallNewPage(s: State, v: nat, f: FileId, kind: PageKind)
    requires Inv(s) && CanAppend(s, f) && v < |s.frames| && s.frames[v].pins == 0 && v !in s.free
    ensures var p := PageId(f, s.files[f].numPages);
            var (out, s2) := Evict(s.(files := AppendBlock(s.files, f).1), v);
            && out == Ok(()) && |s2.frames| == |s.frames| && s2.live == s.live
            && var page := Blanked(s2.frames[v].data, kind, p.num);
               var t := Loaded(s2, v, p, true, page);
               && Inv(t) && View(t) == WithNewPage(View(s), f, page)
  {
    hide View, FrameOk, GuardOk, LayoutOk, BlockOf, Evict, Blanked;
    AppendKeepsInv(s, f);
    AppendView(s, f);
    var s1 := s.(files := AppendBlock(s.files, f).1);
    VictimIsReady(s1, v);
    var s2 := Evict(s1, v).1;
    var p := PageId(f, s.files[f].numPages);
    var page := Blanked(s2.frames[v].data, kind, p.num);
    assert Allocated(s1.files, p);
    LoadKeepsInv(s2, v, p, true, page);
    LoadView(s2, v, p, true, page);
    ViewLength(s, f);
    WriteNewPage(View(s), f, Zeros(PAGE_SIZE), page);
  }

  lemma ViewLength(s: State, f: FileId)
    requires InRange(s) && FilesOk(s.files) && f in s.files
    ensures f in View(s) && |View(s)[f]| == s.files[f].numPages
  {
  }

  /** `create_page` adds one page at the end of the file, empty as a slotted page
      whatever stale bytes its frame held; or it fails and the map is unchanged. */
  lemma CreatePageRefines(s: State, f: FileId, kind: PageKind)
    requires Inv(s)
    ensures var (out, t) := CreatePage(s, f, kind);
            && Inv(t) && out != Panic
            && (out.Ok? <==> CanAppend(s, f) && !AllPinned(s))
            && (!out.Ok? ==> View(t) == View(s) && t.live == s.live)
            && (AllPinned(s) ==> out == Err(Unknown))
            && (!AllPinned(s) && !CanAppend(s, f) ==> out == Err(if f in s.files then Io else FileNotFound))
            && (out.Ok? ==>
                  var p := PageId(f, s.files[f].numPages);
                  && t.live == s.live + multiset{out.value}
                  && out.value.page == p && out.value.frame < |t.frames|
                  && var page := t.frames[out.value.frame].data;
                     && View(t) == WithNewPage(View(s), f, page)
                     && WellFormed(page) && Records(page) == []
                     && KindOf(page) == kind && PageNumber(page) == p.num)
  {
    hide View, FrameOk, GuardOk, LayoutOk, BlockOf, Evict, Blanked, WellFormed;
    SelectVictimKeeps(s);
    var (victim, s1) := SelectVictim(s);
    if victim.Some? && CanAppend(s, f) {
      InstallNewPage(s1, victim.value, f, kind);
      var s2 := Evict(s1.(files := AppendBlock(s1.files, f).1), victim.value).1;
      Widths();
      BlankedIsEmpty(s2.frames[victim.value].data, kind, s.files[f].numPages);
    }
  }

  // ----- guards

  lemma LiveFacts(s: State, g: Guard)
    requires Inv(s) && g in s.live
    ensures GuardOk(s, g) && s.frames[g.frame].pins == s.live[g] > 0
    ensures Allocated(s.files, g.page) && g.page in s.table && s.table[g.page] == g.frame
    ensures g.page.file in View(s) && g.page.num < |View(s)[g.page.file]|
    ensures s.frames[g.frame].data == View(s)[g.page.file][g.page.num]
  {
    assert GuardOk(s, g);
    assert FrameOk(s, g.frame);
    ViewAt(s, g.page);
  }

  /** Pin safety: while a guard is alive its frame stays pinned and holds the
      guard's page, and the pin count is the number of guards on that frame. */
  lemma PinsCountGuards(s: State, i: nat, p: PageId)
    requires Inv(s) && i < |s.frames| && s.frames[i].page == Some(p)
    ensures s.frames[i].pins == s.live[Guard(p, i)]
    ensures forall g :: g in s.live && g.frame == i ==> g == Guard(p, i)
  {
    assert FrameOk(s, i);
    forall g | g in s.live && g.frame == i
      ensures g == Guard(p, i)
    {
      assert GuardOk(s, g);
    }
  }

  lemma DropFrames(s: State, g: Guard, i: nat)
    requires Inv(s) && g in s.live && g.frame < |s.frames| && s.frames[g.frame].pins > 0 && i < |s.frames|
    ensures FrameOk(Drop(s, g), i)
  {
    hide LayoutOk, BlockOf;
    assert FrameOk(s, i);
    assert GuardOk(s, g);
  }

  lemma DropKeeps(s: State, g: Guard)
    requires Inv(s) && g in s.live
    ensures g.frame < |s.frames| && s.frames[g.frame].pins > 0
    ensures Inv(Drop(s, g)) && View(Drop(s, g)) == View(s)
  {
    hide FrameOk, LayoutOk, BlockOf, View;
    LiveFacts(s, g);
    var t := Drop(s, g);
    assert FramesOk(t) by {
      forall i | 0 <= i < |t.frames|
        ensures FrameOk(t, i)
      {
        DropFrames(s, g, i);
      }
    }
    forall h | h in t.live
      ensures GuardOk(t, h)
    {
      assert GuardOk(s, h);
    }
    SamePagesSameView(s, t);
  }

  lemma WriteFrames(s: State, g: Guard, data: Page, i: nat)
    requires Inv(s) && g in s.live && g.frame < |s.frames| && i < |s.frames|
    ensures FrameOk(Write(s, g, data), i)
  {
    hide LayoutOk, BlockOf;
    assert FrameOk(s, i);
    assert GuardOk(s, g);
  }

  lemma WriteKeepsInv(s: State, g: Guard, data: Page)
    requires Inv(s) && g in s.live
    ensures g.frame < |s.frames| && Inv(Write(s, g, data))
  {
    hide FrameOk, LayoutOk, BlockOf;
    LiveFacts(s, g);
    var t := Write(s, g, data);
    assert FramesOk(t) by {
      forall i | 0 <= i < |t.frames|
        ensures FrameOk(t, i)
      {
        WriteFrames(s, g, data, i);
      }
    }
    forall h | h in t.live
      ensures GuardOk(t, h)
    {
      assert GuardOk(s, h);
    }
  }

  /** Writing through a guard changes that page in the map and no other. */
  lemma WriteRefines(s: State, g: Guard, data: Page)
    requires Inv(s) && g in s.live
    ensures g.frame < |s.frames| && Inv(Write(s, g, data))
    ensures g.page.file in View(s) && g.page.num < |View(s)[g.page.file]|
    ensures View(Write(s, g, data)) == WithPage(View(s), g.page, data)
  {
    hide FrameOk, GuardOk, LayoutOk, BlockOf;
    LiveFacts(s, g);
    WriteKeepsInv(s, g, data);
    var t := Write(s, g, data);
    forall f | f in s.files
      ensures FileView(t, f) == WithPage(View(s), g.page, data)[f]
    {
      forall n | 0 <= n < s.files[f].numPages
        ensures PageAt(t, PageId(f, n)) == if PageId(f, n) == g.page then data else PageAt(s, PageId(f, n))
      {
        assert PageId(f, n) in s.table ==> s.frames[s.table[PageId(f, n)]].page == Some(PageId(f, n));
      }
    }
  }

  // ----- flushing

  /** What the page files alone say. */
  function DiskView(files: Files): PageMap
    requires FilesOk(files)
  {
    map f | f in files :: Pages(files[f])
  }

  ghost predicate OnDisk(f: FrameState, files: Files)
    requires FilesOk(files)
  {
    f.page.Some? ==> Allocated(files, f.page.value) && f.data == BlockOf(files, f.page.value)
  }

  lemma WriteFrameBack(s: State, i: nat)
    requires Inv(s) && i < |s.frames| && s.frames[i].dirty
    ensures s.frames[i].page.Some?
    ensures var (out, files) := WriteBack(s.files, s.frames[i].page.value, s.frames[i].data);
            && out == Ok(()) && Inv(s.(files := files)) && View(s.(files := files)) == View(s)
            && OnDisk(s.frames[i], files)
            && (forall j :: 0 <= j < |s.frames| && OnDisk(s.frames[j], s.files) ==> OnDisk(s.frames[j], files))
  {
    hide LayoutOk, BlockOf, View;
    assert FrameOk(s, i);
    var p := s.frames[i].page.value;
    WriteBackKeeps(s.files, p, s.frames[i].data);
    var t := s.(files := WriteBack(s.files, p, s.frames[i].data).1);
    forall j | 0 <= j < |s.frames|
      ensures FrameOk(t, j)
      ensures OnDisk(s.frames[j], s.files) ==> OnDisk(s.frames[j], t.files)
    {
      assert FrameOk(s, j);
    }
    forall g | g in t.live
      ensures GuardOk(t, g)
    {
      assert GuardOk(s, g);
    }
    SamePagesSameView(s, t);
  }

  lemma {:induction false} FlushKeeps(s: State, i: nat)
    requires Inv(s) && i <= |s.frames|
    ensures var (out, files) := Flush(s.frames, i, s.files);
            && out == Ok(()) && Inv(s.(files := files)) && View(s.(files := files)) == View(s)
            && (forall j :: 0 <= j < |s.frames| && (i <= j || OnDisk(s.frames[j], s.files)) ==>
                  OnDisk(s.frames[j], files))
    decreases |s.frames| - i
  {
    hide LayoutOk, BlockOf, View, FrameOk, GuardOk, OnDisk;
    if i < |s.frames| {
      if s.frames[i].dirty {
        WriteFrameBack(s, i);
        var files := WriteBack(s.files, s.frames[i].page.value, s.frames[i].data).1;
        FlushKeeps(s.(files := files), i + 1);
      } else {
        CleanIsOnDisk(s, i);
        FlushKeeps(s, i + 1);
      }
    } else {
      assert s == s.(files := s.files);
    }
  }

  lemma CleanIsOnDisk(s: State, i: nat)
    requires Inv(s) && i < |s.frames| && !s.frames[i].dirty
    ensures OnDisk(s.frames[i], s.files)
  {
    assert FrameOk(s, i);
  }

  lemma FileLength(files: Files, f: FileId)
    requires FilesOk(files) && f in files
    ensures |Pages(files[f])| == files[f].numPages
  {
  }

  lemma PageOnDisk(files: Files, f: FileId, n: nat)
    requires FilesOk(files) && f in files && n < files[f].numPages
    ensures |Pages(files[f])| == files[f].numPages && Pages(files[f])[n] == BlockOf(files, PageId(f, n))
  {
  }

  /** After `flush_all` the disk alone is the map, and no write-back failed. */
  lemma FlushRefines(s: State)
    requires Inv(s)
    ensures var (out, files) := Flush(s.frames, 0, s.files);
            && out == Ok(()) && Inv(s.(files := files)) && View(s.(files := files)) == View(s)
            && DiskView(files) == View(s)
  {
    hide LayoutOk, FrameOk, GuardOk, BlockOf, Pages;
    FlushKeeps(s, 0);
    var files := Flush(s.frames, 0, s.files).1;
    var t := s.(files := files);
    forall f | f in files
      ensures Pages(files[f]) == FileView(t, f)
    {
      FileLength(files, f);
      forall n | 0 <= n < files[f].numPages
        ensures Pages(files[f])[n] == PageAt(t, PageId(f, n))
      {
        var p := PageId(f, n);
        PageOnDisk(files, f, n);
        if p in s.table { assert OnDisk(s.frames[s.table[p]], files); }
      }
    }
  }
}
