/** Frames and the clock sweep that picks a victim (src/buffer_pool.rs). */
module ClockSweep {
  import opened Outcomes
  import opened SlottedPages

  datatype FileId = FileId(id: nat)
  datatype PageId = PageId(file: FileId, num: nat)

  /** One frame: which page it holds, how often it is pinned, its clock and dirty
      flags, and its bytes. */
  datatype FrameState = FrameState(page: Option<PageId>, pins: int, flag: bool, dirty: bool, data: Page)

  predicate Takeable(f: FrameState) {
    f.pins == 0 && !f.flag
  }

  /** The hand advances by one, around the end. */
  function Next(hand: nat, n: nat): (next: nat)
    requires hand < n
    ensures next < n
  {
    if hand + 1 == n then 0 else hand + 1
  }

  lemma NextIsModulo(hand: nat, n: nat)
    requires hand < n
    ensures (hand + 1) % n == Next(hand, n)
  {
  }

  /** One step of `select_victim_clock` per unit of `steps`: the victim if one is
      found, the frames with the flags cleared on the way, and the hand. */
  function Sweep(frames: seq<FrameState>, hand: nat, steps: nat): (r: (Option<nat>, seq<FrameState>, nat))
    requires hand < |frames|
    ensures |r.1| == |frames| && r.2 < |frames|
    ensures r.0.Some? ==> r.0.value < |frames|
    decreases steps
  {
    if steps == 0 then (None, frames, hand)
    else
      var next := Next(hand, |frames|);
      if frames[hand].pins != 0 then Sweep(frames, next, steps - 1)
      else if frames[hand].flag then Sweep(frames[hand := frames[hand].(flag := false)], next, steps - 1)
      else (Some(hand), frames, next)
  }

  // ----- the cyclic order from the hand

  /** The frame `k` places after the hand, for k up to one full round. */
  function At(hand: nat, k: nat, n: nat): (at: nat)
    requires hand < n && k <= n
    ensures at < n
  {
    if hand + k < n then hand + k else hand + k - n
  }

  /** How many places frame i is after the hand. */
  function Place(hand: nat, i: nat, n: nat): nat
    requires hand < n && i < n
  {
    if hand <= i then i - hand else i + n - hand
  }

  /** The frames once the first k from the hand lost their flags, unless pinned. */
  function Cleared(frames: seq<FrameState>, hand: nat, k: nat): (r: seq<FrameState>)
    requires hand < |frames| && k <= |frames|
    ensures |r| == |frames|
  {
    seq(|frames|, i requires 0 <= i < |frames| =>
      if Place(hand, i, |frames|) < k && frames[i].pins == 0 then frames[i].(flag := false) else frames[i])
  }

  ghost predicate NoneTakeable(frames: seq<FrameState>, hand: nat, k: nat)
    requires hand < |frames| && k <= |frames|
  {
    forall j :: 0 <= j < k ==> !Takeable(frames[At(hand, j, |frames|)])
  }

  /** Passing over k frames that cannot be taken only clears their flags. */
  lemma {:induction false} SweepPasses(frames: seq<FrameState>, hand: nat, steps: nat, k: nat)
    requires hand < |frames| && k <= |frames| && k <= steps
    requires NoneTakeable(frames, hand, k)
    ensures Sweep(frames, hand, steps)
         == Sweep(Cleared(frames, hand, k), At(hand, k, |frames|), steps - k)
    decreases k
  {
    hide Takeable, Cleared, Sweep;
    if k == 0 {
      NothingCleared(frames, hand);
    } else {
      SweepPasses(frames, hand, steps, k - 1);
      var at := At(hand, k - 1, |frames|);
      OneMoreCleared(frames, hand, k);
      SweepStep(Cleared(frames, hand, k - 1), at, steps - k + 1);
      assert !Takeable(frames[at]);
    }
  }

  lemma NothingCleared(frames: seq<FrameState>, hand: nat)
    requires hand < |frames|
    ensures Cleared(frames, hand, 0) == frames
  {
  }

  /** Passing one more frame clears its flag, unless it is pinned. */
  lemma OneMoreCleared(frames: seq<FrameState>, hand: nat, k: nat)
    requires hand < |frames| && 0 < k <= |frames|
    ensures var at, mid := At(hand, k - 1, |frames|), Cleared(frames, hand, k - 1);
            && mid[at] == frames[at]
            && Cleared(frames, hand, k) == if frames[at].pins != 0 then mid else mid[at := mid[at].(flag := false)]
  {
  }

  /** One step of the loop over a frame that cannot be taken. */
  lemma SweepStep(frames: seq<FrameState>, at: nat, steps: nat)
    requires at < |frames| && steps > 0 && !Takeable(frames[at])
    ensures Sweep(frames, at, steps)
         == Sweep(if frames[at].pins != 0 then frames else frames[at := frames[at].(flag := false)],
                  Next(at, |frames|), steps - 1)
  {
  }

  // ----- what the sweep chooses

  predicate Unpinned(f: FrameState) {
    f.pins == 0
  }

  /** The first place from k on whose frame is as wanted, or n. */
  function First(frames: seq<FrameState>, hand: nat, wanted: FrameState -> bool, k: nat): (r: nat)
    requires hand < |frames| && k <= |frames|
    ensures k <= r <= |frames|
    ensures forall j :: k <= j < r ==> !wanted(frames[At(hand, j, |frames|)])
    ensures r < |frames| ==> wanted(frames[At(hand, r, |frames|)])
    decreases |frames| - k
  {
    if k == |frames| || wanted(frames[At(hand, k, |frames|)]) then k
    else First(frames, hand, wanted, k + 1)
  }

  /** The choice without the loop: the first frame from the hand that is unpinned
      and unflagged now; failing that the first unpinned one, after a full round
      has cleared every unpinned flag; failing that none, and nothing changes. */
  function Choice(frames: seq<FrameState>, hand: nat): (r: (Option<nat>, seq<FrameState>, nat))
    requires hand < |frames|
  {
    var n := |frames|;
    var k := First(frames, hand, Takeable, 0);
    var u := First(frames, hand, Unpinned, 0);
    if k < n then (Some(At(hand, k, n)), Cleared(frames, hand, k), Next(At(hand, k, n), n))
    else if u < n then (Some(At(hand, u, n)), Cleared(frames, hand, n), Next(At(hand, u, n), n))
    else (None, frames, hand)
  }

  /** A frame used since the hand last passed it is not taken while there is an unpinned
      one that was not; and a pinned one never is. */
  lemma SecondChance(frames: seq<FrameState>, hand: nat, i: nat, j: nat)
    requires hand < |frames| && i < |frames| && j < |frames| && Takeable(frames[j])
    ensures frames[i].flag || frames[i].pins != 0 ==> Choice(frames, hand).0 != Some(i)
  {
    EveryPlace(hand, j, |frames|);
    var k := First(frames, hand, Takeable, 0);
    assert k <= Place(hand, j, |frames|);
    assert Takeable(frames[At(hand, k, |frames|)]);
  }

  lemma EveryPlace(hand: nat, i: nat, n: nat)
    requires hand < n && i < n
    ensures Place(hand, i, n) < n && At(hand, Place(hand, i, n), n) == i
  {
  }

  lemma AllPinnedIfNoneUnpinned(frames: seq<FrameState>, hand: nat)
    requires hand < |frames|
    ensures First(frames, hand, Unpinned, 0) == |frames| <==> forall i :: 0 <= i < |frames| ==> frames[i].pins != 0
  {
    var u := First(frames, hand, Unpinned, 0);
    forall i | 0 <= i < |frames| && u == |frames|
      ensures frames[i].pins != 0
    {
      EveryPlace(hand, i, |frames|);
      assert !Unpinned(frames[At(hand, Place(hand, i, |frames|), |frames|)]);
    }
  }

  lemma SweepStops(frames: seq<FrameState>, hand: nat, steps: nat, k: nat)
    requires hand < |frames| && k < |frames| && k < steps
    requires NoneTakeable(frames, hand, k) && Takeable(frames[At(hand, k, |frames|)])
    ensures Sweep(frames, hand, steps)
         == (Some(At(hand, k, |frames|)), Cleared(frames, hand, k), Next(At(hand, k, |frames|), |frames|))
  {
    SweepPasses(frames, hand, steps, k);
    var at := At(hand, k, |frames|);
    assert Cleared(frames, hand, k)[at] == frames[at];
  }

  /** Once a round has passed, clearing more flags changes nothing. */
  lemma ClearedIsStable(frames: seq<FrameState>, hand: nat, k: nat)
    requires hand < |frames| && k <= |frames|
    ensures var after := Cleared(frames, hand, |frames|);
            && Cleared(after, hand, k) == after
            && forall i :: 0 <= i < |frames| ==> (Takeable(after[i]) <==> Unpinned(frames[i]))
  {
    forall i | 0 <= i < |frames|
      ensures Place(hand, i, |frames|) < |frames|
    {
      EveryPlace(hand, i, |frames|);
    }
  }

  /** The sweep makes exactly that choice, within two rounds: allowing it the four
      rounds the engine does changes nothing. */
  lemma SweepChooses(frames: seq<FrameState>, hand: nat, steps: nat)
    requires hand < |frames| && (steps == 2 * |frames| || steps == 4 * |frames|)
    ensures Sweep(frames, hand, steps) == Choice(frames, hand)
  {
    var k := First(frames, hand, Takeable, 0);
    if k < |frames| {
      SweepStops(frames, hand, steps, k);
    } else {
      SweepSecondRound(frames, hand, steps);
    }
  }

  /** When nothing can be taken at first, one round clears the flags, and the second
      finds the first unpinned frame if there is one. */
  lemma SweepSecondRound(frames: seq<FrameState>, hand: nat, steps: nat)
    requires hand < |frames| && (steps == 2 * |frames| || steps == 4 * |frames|)
    requires First(frames, hand, Takeable, 0) == |frames|
    ensures Sweep(frames, hand, steps) == Choice(frames, hand)
  {
    hide Takeable, Sweep, Cleared;
    var n := |frames|;
    var after, u := Cleared(frames, hand, n), First(frames, hand, Unpinned, 0);
    SweepPasses(frames, hand, steps, n);
    ClearedIsStable(frames, hand, n);
    if u < n {
      ClearedIsStable(frames, hand, u);
      SweepStops(after, hand, steps - n, u);
    } else {
      AllPinnedIfNoneUnpinned(frames, hand);
      AllPinnedUncleared(frames, hand);
      SweepPasses(frames, hand, steps - n, n);
      if steps == 4 * n {
        SweepPasses(frames, hand, 2 * n, n);
        SweepPasses(frames, hand, n, n);
      }
      SweepEnds(frames, hand);
    }
  }

  lemma AllPinnedUncleared(frames: seq<FrameState>, hand: nat)
    requires hand < |frames| && forall i :: 0 <= i < |frames| ==> frames[i].pins != 0
    ensures Cleared(frames, hand, |frames|) == frames
  {
  }

  lemma SweepEnds(frames: seq<FrameState>, hand: nat)
    requires hand < |frames|
    ensures Sweep(frames, hand, 0) == (None, frames, hand)
  {
  }
}
