/**
  The clock (second-chance) sweep of BufMgr::allocBuf: the hand advance, a
  reference definition of one sweep, and the sweep written as the source's loop.
*/
module Clock {
  import opened BufTypes

  /** Frame reached after j advances of a hand that started on `initial`
      (j == n brings the hand back to `initial`). */
  function Ring(initial: nat, j: nat, n: nat): (h: nat)
    requires initial < n && j <= n
    ensures h < n
  {
    if initial + j < n then initial + j else initial + j - n
  }

  /** Number of advances that bring a hand from `initial` to frame i, in [1, n];
      the inverse of Ring. */
  function Offset(initial: nat, i: nat, n: nat): (j: nat)
    requires initial < n && i < n
    ensures 1 <= j <= n && Ring(initial, j, n) == i
    ensures j == n <==> i == initial
  {
    if i > initial then i - initial else i + n - initial
  }

  /** advanceClock: the hand moves to the next frame, wrapping to frame 0 after the last.
      The increment is taken modulo 2^32 as in the source's uint32 arithmetic; since the hand
      is below numBufs the increment never wraps. */
  function AdvanceClock(hand: FrameId, numBufs: nat): (next: FrameId)
    requires hand < numBufs < Word
    ensures next < numBufs
    ensures next == if hand + 1 < numBufs then hand + 1 else 0
  {
    assert (hand + 1) % Word == hand + 1;
    assert hand + 1 == numBufs ==> numBufs % numBufs == 0;
    ((hand + 1) % Word) % numBufs
  }

  /** The outcome of one sweep: the table with the reference bits it cleared,
      where the hand stopped, and the frame chosen, if any. */
  datatype Sweep = Sweep(table: seq<BufDesc>, hand: FrameId, victim: Option<FrameId>)

  /** The sweep of allocBuf after k advances of a hand that started on `initial`:
      an empty frame is chosen at once, a referenced frame has its bit cleared and is
      passed over, a pinned frame is passed over, an unpinned unreferenced frame is
      chosen. The sweep stops, empty-handed, when the hand is back on `initial`, so
      the frame under the hand at entry is never examined. SweepFirstFit,
      SweepExhaustedIff and SweepTable characterise it completely. */
  function ClockSweep(t: seq<BufDesc>, initial: FrameId, k: nat): (r: Sweep)
    requires initial < |t| && 1 <= k <= |t|
    decreases |t| - k
    ensures |r.table| == |t| && r.hand < |t|
    ensures r.victim.None? ==> r.hand == initial
    ensures r.victim.Some? ==> r.victim.value == r.hand && r.hand != initial
  {
    if k == |t| then Sweep(t, initial, None)
    else
      var h := Ring(initial, k, |t|);
      if !t[h].valid then Sweep(t, h, Some(h))
      else if t[h].refbit then ClockSweep(t[h := t[h].(refbit := false)], initial, k + 1)
      else if t[h].pinCnt > 0 then ClockSweep(t, initial, k + 1)
      else Sweep(t, h, Some(h))
  }

  /** The table after the hand passes over frame h: a referenced frame loses its bit. */
  function PassedOver(t: seq<BufDesc>, h: FrameId): (t': seq<BufDesc>)
    requires h < |t|
  {
    if t[h].refbit then t[h := t[h].(refbit := false)] else t
  }

  /** Number of advances a finished sweep made past `initial`: to the victim, or the
      full revolution when none was found. */
  function SweepStop(r: Sweep, initial: FrameId, n: nat): (stop: nat)
    requires initial < n && r.hand < n
  {
    if r.victim.None? then n else Offset(initial, r.hand, n)
  }

  /** One advance of the sweep: an empty frame or an unpinned unreferenced one is chosen,
      any other frame is passed over. */
  lemma SweepStep(t: seq<BufDesc>, initial: FrameId, k: nat)
    requires initial < |t| && 1 <= k < |t|
    ensures var h := Ring(initial, k, |t|);
      ClockSweep(t, initial, k) ==
        if Evictable(t[h]) then Sweep(t, h, Some(h)) else ClockSweep(PassedOver(t, h), initial, k + 1)
  {
  }

  /** Passing over frame Ring(initial, k) changes no frame the hand reaches later. */
  lemma PassedOverElsewhere(t: seq<BufDesc>, initial: FrameId, k: nat)
    requires initial < |t| && 1 <= k < |t|
    ensures var t' := PassedOver(t, Ring(initial, k, |t|));
      && |t'| == |t|
      && forall j :: k < j < |t| ==> t'[Ring(initial, j, |t|)] == t[Ring(initial, j, |t|)]
  {
  }

  /** Victim safety and first fit: the chosen frame was evictable when the sweep began,
      and every frame the hand passed over before reaching it was not. */
  lemma {:induction false} SweepFirstFit(t: seq<BufDesc>, initial: FrameId, k: nat)
    requires initial < |t| && 1 <= k <= |t|
    decreases |t| - k
    ensures var r := ClockSweep(t, initial, k);
      r.victim.Some? ==>
        && k <= Offset(initial, r.hand, |t|)
        && Evictable(t[r.hand])
        && forall j :: k <= j < Offset(initial, r.hand, |t|) ==> !Evictable(t[Ring(initial, j, |t|)])
  {
    if k < |t| {
      var h := Ring(initial, k, |t|);
      if Evictable(t[h]) {
        SweepStep(t, initial, k);
      } else {
        SweepFirstFit(PassedOver(t, h), initial, k + 1);
        SweepFirstFitPass(t, initial, k);
      }
    }
  }

  /** The inductive step of SweepFirstFit for a frame the hand passes over. */
  lemma SweepFirstFitPass(t: seq<BufDesc>, initial: FrameId, k: nat)
    requires initial < |t| && 1 <= k < |t| && !Evictable(t[Ring(initial, k, |t|)])
    requires var t' := PassedOver(t, Ring(initial, k, |t|));
      var r := ClockSweep(t', initial, k + 1);
      r.victim.Some? ==>
        && k + 1 <= Offset(initial, r.hand, |t|)
        && Evictable(t'[r.hand])
        && forall j :: k + 1 <= j < Offset(initial, r.hand, |t|) ==> !Evictable(t'[Ring(initial, j, |t|)])
    ensures var r := ClockSweep(t, initial, k);
      r.victim.Some? ==>
        && k <= Offset(initial, r.hand, |t|)
        && Evictable(t[r.hand])
        && forall j :: k <= j < Offset(initial, r.hand, |t|) ==> !Evictable(t[Ring(initial, j, |t|)])
  {
    var t' := PassedOver(t, Ring(initial, k, |t|));
    var r := ClockSweep(t', initial, k + 1);
    SweepStep(t, initial, k);
    PassedOverElsewhere(t, initial, k);
    assert ClockSweep(t, initial, k) == r;
    if r.victim.Some? {
      assert t'[r.hand] == t[Ring(initial, Offset(initial, r.hand, |t|), |t|)];
    }
  }

  /** Exhaustion: the sweep comes back empty-handed exactly when no frame other than
      the one under the hand at entry was evictable. */
  lemma {:induction false} SweepExhaustedIff(t: seq<BufDesc>, initial: FrameId, k: nat)
    requires initial < |t| && 1 <= k <= |t|
    decreases |t| - k
    ensures ClockSweep(t, initial, k).victim.None? <==>
      forall j :: k <= j < |t| ==> !Evictable(t[Ring(initial, j, |t|)])
  {
    if k < |t| {
      var h := Ring(initial, k, |t|);
      SweepStep(t, initial, k);
      if !Evictable(t[h]) {
        var t' := PassedOver(t, h);
        SweepExhaustedIff(t', initial, k + 1);
        PassedOverElsewhere(t, initial, k);
      }
    }
  }

  /** Second chance: every frame the hand passed over loses its reference bit, and no
      other frame, the victim included, changes at all. */
  lemma {:induction false} SweepTable(t: seq<BufDesc>, initial: FrameId, k: nat)
    requires initial < |t| && 1 <= k <= |t|
    decreases |t| - k
    ensures var r := ClockSweep(t, initial, k);
      RefbitsCleared(t, r.table, initial, k, SweepStop(r, initial, |t|))
  {
    if k < |t| {
      var h := Ring(initial, k, |t|);
      if Evictable(t[h]) {
        SweepStep(t, initial, k);
        NothingCleared(t, initial, k, Offset(initial, h, |t|));
      } else {
        SweepTable(PassedOver(t, h), initial, k + 1);
        SweepTablePass(t, initial, k);
      }
    } else {
      NothingCleared(t, initial, k, |t|);
    }
  }

  /** The inductive step of SweepTable for a frame the hand passes over. */
  lemma SweepTablePass(t: seq<BufDesc>, initial: FrameId, k: nat)
    requires initial < |t| && 1 <= k < |t| && !Evictable(t[Ring(initial, k, |t|)])
    requires var t' := PassedOver(t, Ring(initial, k, |t|));
      var r := ClockSweep(t', initial, k + 1);
      RefbitsCleared(t', r.table, initial, k + 1, SweepStop(r, initial, |t|))
    ensures var r := ClockSweep(t, initial, k);
      RefbitsCleared(t, r.table, initial, k, SweepStop(r, initial, |t|))
  {
    var t' := PassedOver(t, Ring(initial, k, |t|));
    var r := ClockSweep(t', initial, k + 1);
    SweepStep(t, initial, k);
    SweepFirstFit(t', initial, k + 1);
    assert ClockSweep(t, initial, k) == r;
    PassOver(t, r.table, initial, k, SweepStop(r, initial, |t|));
  }

  /** One whole sweep from the hand, stated frame by frame: a chosen frame is evictable,
      is not the frame under the hand and is left as it was; with none chosen the hand
      is back where it started; every frame is either unchanged or a valid frame that
      lost its reference bit. */
  lemma SweepOutcome(t: seq<BufDesc>, hand: FrameId)
    requires hand < |t|
    ensures var r := ClockSweep(t, hand, 1);
      && |r.table| == |t| && r.hand < |t|
      && (r.victim.None? ==> r.hand == hand)
      && (r.victim.Some? ==>
            && r.victim.value == r.hand && r.hand != hand
            && Evictable(t[r.hand]) && r.table[r.hand] == t[r.hand])
      && (forall i :: 0 <= i < |t| ==>
            r.table[i] == t[i] || (t[i].valid && r.table[i] == t[i].(refbit := false)))
  {
    var n := |t|;
    var r := ClockSweep(t, hand, 1);
    SweepFirstFit(t, hand, 1);
    SweepExhaustedIff(t, hand, 1);
    SweepTable(t, hand, 1);
    var stop := SweepStop(r, hand, n);
    forall i | 0 <= i < n
      ensures r.table[i] == t[i] || (t[i].valid && r.table[i] == t[i].(refbit := false))
    {
      var j := Offset(hand, i, n);
      if 1 <= j < stop {
        assert t[Ring(hand, j, n)] == t[i];
      }
    }
  }

  /** An empty range of advances clears nothing. */
  lemma NothingCleared(t: seq<BufDesc>, initial: FrameId, k: nat, stop: nat)
    requires initial < |t| && stop <= k
    ensures RefbitsCleared(t, t, initial, k, stop)
  {
  }

  /** `after` is `before` with the reference bit cleared on exactly the frames the hand
      reaches with k .. stop-1 advances from `initial`. */
  predicate RefbitsCleared(before: seq<BufDesc>, after: seq<BufDesc>, initial: FrameId, k: nat, stop: nat)
    requires initial < |before| == |after|
  {
    forall i :: 0 <= i < |before| ==>
      after[i] == if k <= Offset(initial, i, |before|) < stop then before[i].(refbit := false) else before[i]
  }

  /** One step of SweepTable: passing over frame Ring(initial, k) extends the range of
      cleared frames by that one frame. */
  lemma PassOver(t: seq<BufDesc>, table: seq<BufDesc>, initial: FrameId, k: nat, stop: nat)
    requires initial < |t| && 1 <= k < |t| && |table| == |t| && k < stop
    requires !Evictable(t[Ring(initial, k, |t|)])
    requires RefbitsCleared(PassedOver(t, Ring(initial, k, |t|)), table, initial, k + 1, stop)
    ensures RefbitsCleared(t, table, initial, k, stop)
  {
    var h := Ring(initial, k, |t|);
    var t' := PassedOver(t, h);
    forall i | 0 <= i < |t| && i != h ensures t'[i] == t[i] && Offset(initial, i, |t|) != k { }
    assert Offset(initial, h, |t|) == k;
  }

  /** The loop of allocBuf (buffer.cpp:60-84) over the descriptor table: it computes
      exactly the sweep ClockSweep describes, starting one advance past the hand. The
      source declares the start position as `intial` (buffer.cpp:60) and tests `initial`
      (buffer.cpp:82); the loop reads both names as the one variable `initial`. */
  method SweepClock(t: seq<BufDesc>, hand: FrameId) returns (table: seq<BufDesc>, stop: FrameId, victim: Option<FrameId>)
    requires hand < |t| < Word
    ensures Sweep(table, stop, victim) == ClockSweep(t, hand, 1)
  {
    var initial := hand;
    table := t;
    stop := AdvanceClock(hand, |t|);
    ghost var k: nat := 1;
    while initial != stop
      invariant 1 <= k <= |t| && |table| == |t|
      invariant stop == Ring(initial, k, |t|)
      invariant ClockSweep(table, initial, k) == ClockSweep(t, initial, 1)
      decreases |t| - k
    {
      if !table[stop].valid {
        victim := Some(stop);
        return;
      }
      if table[stop].refbit {
        table := table[stop := table[stop].(refbit := false)];
        stop := AdvanceClock(stop, |t|);
        k := k + 1;
        continue;
      }
      if table[stop].pinCnt > 0 {
        stop := AdvanceClock(stop, |t|);
        k := k + 1;
        continue;
      }
      victim := Some(stop);
      return;
    }
    victim := None;
  }
}
