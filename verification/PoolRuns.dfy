/** Whole runs of the buffer pool: whatever the pool size and whatever the
    interleaving of calls, guards and file openings, the pool is the plain map. */
module PoolRuns {
  import opened Outcomes
  import opened SlottedPages
  import opened PageFiles
  import opened ClockSweep
  import opened PoolModel

  datatype Op =
    | Get(page: PageId)
    | Create(file: FileId, kind: PageKind)
    | DropGuard(guard: Guard)
    | WriteGuard(guard: Guard, data: Page)
    | FlushAll
    | OpenFile(id: FileId, contents: PageFile)

  /** Ownership lets only a live guard be written through or dropped; a file is
      opened under a fresh id, with the layout the engine writes. */
  ghost predicate Enabled(s: State, op: Op) {
    match op
    case DropGuard(g) => g in s.live && g.frame < |s.frames|
    case WriteGuard(g, _) => g in s.live && g.frame < |s.frames|
    case OpenFile(f, contents) => f !in s.files && LayoutOk(contents)
    case _ => true
  }

  ghost function Next(s: State, op: Op): State
    requires InRange(s) && Enabled(s, op)
  {
    match op
    case Get(p) => GetPage(s, p).1
    case Create(f, kind) => CreatePage(s, f, kind).1
    case DropGuard(g) => Drop(s, g)
    case WriteGuard(g, data) => Write(s, g, data)
    case FlushAll => s.(files := Flush(s.frames, 0, s.files).1)
    case OpenFile(f, contents) => s.(files := s.files[f := contents])
  }

  /** `BufferPool::new`: empty frames, all of them free. */
  ghost predicate Initial(s: State) {
    && (forall i :: 0 <= i < |s.frames| ==> s.frames[i] == FrameState(None, 0, false, false, s.frames[i].data))
    && s.hand == 0
    && s.free == seq(|s.frames|, i => i)
    && s.table == map[] && s.live == multiset{}
    && FilesOk(s.files)
  }

  ghost predicate IsRun(states: seq<State>, ops: seq<Op>) {
    && |states| == |ops| + 1
    && Initial(states[0])
    && forall i {:trigger ops[i]} :: 0 <= i < |ops| ==>
         InRange(states[i]) && Enabled(states[i], ops[i]) && states[i + 1] == Next(states[i], ops[i])
  }

  /** What one operation may do to the plain map. */
  ghost predicate MapStep(v: PageMap, op: Op, w: PageMap) {
    match op
    case Create(f, kind) =>
      w == v || (f in v && exists page: Page ::
        && WellFormed(page) && Records(page) == [] && KindOf(page) == kind && PageNumber(page) == |v[f]|
        && w == WithNewPage(v, f, page))
    case WriteGuard(g, data) =>
      g.page.file in v && g.page.num < |v[g.page.file]| && w == WithPage(v, g.page, data)
    case OpenFile(f, contents) => f !in v && LayoutOk(contents) && w == v[f := Pages(contents)]
    case _ => w == v
  }

  lemma InitialOk(s: State)
    requires Initial(s)
    ensures Inv(s) && View(s) == DiskView(s.files)
  {
    hide LayoutOk;
    assert FramesOk(s) by {
      forall i | 0 <= i < |s.frames| ensures FrameOk(s, i) { }
    }
    forall f | f in s.files
      ensures FileView(s, f) == Pages(s.files[f])
    {
      forall n | 0 <= n < s.files[f].numPages
        ensures PageAt(s, PageId(f, n)) == Pages(s.files[f])[n]
      {
        PageOnDisk(s.files, f, n);
      }
      FileLength(s.files, f);
    }
  }

  lemma OpenFileFrames(s: State, f: FileId, contents: PageFile, i: nat)
    requires Inv(s) && f !in s.files && LayoutOk(contents) && i < |s.frames|
    ensures FilesOk(s.files[f := contents]) && FrameOk(s.(files := s.files[f := contents]), i)
  {
    hide LayoutOk;
    assert FrameOk(s, i);
  }

  /** Opening a file adds it to the map and disturbs nothing. */
  lemma OpenFileRefines(s: State, f: FileId, contents: PageFile)
    requires Inv(s) && f !in s.files && LayoutOk(contents)
    ensures var t := s.(files := s.files[f := contents]);
            Inv(t) && View(t) == View(s)[f := Pages(contents)]
  {
    hide LayoutOk, FrameOk, GuardOk, BlockOf, Pages;
    var t := s.(files := s.files[f := contents]);
    assert FilesOk(t.files);
    assert FramesOk(t) by {
      forall i | 0 <= i < |t.frames|
        ensures FrameOk(t, i)
      {
        OpenFileFrames(s, f, contents, i);
      }
    }
    assert GuardsOk(t) by {
      forall g | g in t.live
        ensures GuardOk(t, g)
      {
        assert GuardOk(s, g);
        SameGuard(s, t, g);
      }
    }
    OpenFileView(s, f, contents);
  }

  lemma SameGuard(s: State, t: State, g: Guard)
    requires s.frames == t.frames && GuardOk(s, g)
    ensures GuardOk(t, g)
  {
  }

  lemma OpenFileView(s: State, f: FileId, contents: PageFile)
    requires Inv(s) && f !in s.files && LayoutOk(contents)
    ensures var t := s.(files := s.files[f := contents]);
            FilesOk(t.files) && View(t) == View(s)[f := Pages(contents)]
  {
    hide LayoutOk, FrameOk, GuardOk, Pages;
    var t := s.(files := s.files[f := contents]);
    ResidentIsAllocated(s);
    FileLength(t.files, f);
    forall g | g in t.files
      ensures FileView(t, g) == View(s)[f := Pages(contents)][g]
    {
      forall n | 0 <= n < t.files[g].numPages
        ensures PageAt(t, PageId(g, n)) == if g == f then Pages(contents)[n] else PageAt(s, PageId(g, n))
      {
        PageOnDisk(t.files, g, n);
      }
    }
  }

  /** One step of the pool is one step of the plain map. */
  lemma StepRefines(s: State, op: Op)
    requires Inv(s) && Enabled(s, op)
    ensures Inv(Next(s, op)) && MapStep(View(s), op, View(Next(s, op)))
  {
    hide LayoutOk, FrameOk, GuardOk, BlockOf, WellFormed, View, GetPage, CreatePage, Flush, Inv, WithPage,
         WithNewPage, Drop, Write;
    InvGives(s);
    match op {
      case Get(p) => GetPageKeeps(s, p);
      case Create(f, kind) =>
        CreatePageRefines(s, f, kind);
        if f in s.files { ViewLength(s, f); }
      case DropGuard(g) => DropKeeps(s, g);
      case WriteGuard(g, data) => WriteRefines(s, g, data);
      case FlushAll => FlushRefines(s);
      case OpenFile(f, contents) => OpenFileRefines(s, f, contents);
    }
  }

  lemma InvGives(s: State)
    requires Inv(s)
    ensures InRange(s) && FilesOk(s.files)
  {
  }

  /** Over a whole run every state keeps the invariant, and every operation does to
      the map only what it does to a plain map. */
  lemma {:induction false} RunsRefine(states: seq<State>, ops: seq<Op>, i: nat)
    requires IsRun(states, ops) && i <= |ops|
    ensures forall k :: 0 <= k <= i ==> Inv(states[k])
    ensures forall k {:trigger ops[k]} :: 0 <= k < i ==>
              Inv(states[k]) && Inv(states[k + 1]) && MapStep(View(states[k]), ops[k], View(states[k + 1]))
    ensures i == 0 ==> View(states[0]) == DiskView(states[0].files)
  {
    hide Inv, MapStep, Enabled, Next, View, DiskView, Initial;
    if i == 0 {
      InitialOk(states[0]);
    } else {
      RunsRefine(states, ops, i - 1);
      assert ops[i - 1] == ops[i - 1];
      StepRefines(states[i - 1], ops[i - 1]);
    }
  }

  /** In every reachable state, every live guard still reads the page it was asked
      for, the pins of a frame are its live guards, and nothing dirty lacks a page. */
  lemma PinSafety(states: seq<State>, ops: seq<Op>, i: nat)
    requires IsRun(states, ops) && i <= |ops|
    ensures Inv(states[i])
    ensures forall g :: g in states[i].live ==>
              && GuardOk(states[i], g) && states[i].frames[g.frame].pins > 0
              && Allocated(states[i].files, g.page)
              && states[i].frames[g.frame].data == View(states[i])[g.page.file][g.page.num]
    ensures forall k :: 0 <= k < |states[i].frames| && states[i].frames[k].page.Some? ==>
              states[i].frames[k].pins == states[i].live[Guard(states[i].frames[k].page.value, k)]
    ensures forall k :: 0 <= k < |states[i].frames| && states[i].frames[k].dirty ==> states[i].frames[k].page.Some?
  {
    RunsRefine(states, ops, i);
    var s := states[i];
    InvGives(s);
    hide IsRun, LayoutOk, View, BlockOf;
    forall g | g in s.live
      ensures GuardOk(s, g) && s.frames[g.frame].pins > 0 && Allocated(s.files, g.page)
      ensures s.frames[g.frame].data == View(s)[g.page.file][g.page.num]
    {
      LiveFacts(s, g);
    }
    forall k | 0 <= k < |s.frames|
      ensures s.frames[k].page.Some? ==> s.frames[k].pins == s.live[Guard(s.frames[k].page.value, k)]
      ensures s.frames[k].dirty ==> s.frames[k].page.Some?
    {
      if s.frames[k].page.Some? { PinsCountGuards(s, k, s.frames[k].page.value); }
      assert FrameOk(s, k);
    }
  }

  /** No run reaches the branch that extends a file: every resident page lies below
      its file's page count, which is all a write-back needs. */
  lemma NeverExtends(states: seq<State>, ops: seq<Op>, i: nat, p: PageId)
    requires IsRun(states, ops) && i <= |ops| && p in states[i].table
    ensures Allocated(states[i].files, p) && !Extends(states[i].files[p.file], p.num)
  {
    RunsRefine(states, ops, i);
    ResidentIsAllocated(states[i]);
    assert LayoutOk(states[i].files[p.file]);
  }
}
