/** Concrete runs in which a memory pool forgets a sleeper, and in which overlapping resizes break its bounds. */
module MempoolWitnesses {
  import opened Lists
  import opened MempoolProtocol
  import opened MempoolRuns

  /** Thread 1 takes the only element of a pool of one, thread 2 goes to sleep, and thread 3 grows the
      pool to two and adds an element. */
  function Forgotten(i: nat): State {
    match i
    case 0 => State([1], 1, 1, {}, {}, {}, {1}, map[])
    case 1 => State([1], 1, 1, {}, {}, {}, {1}, map[1 := Tried])
    case 2 => State([], 1, 1, {1}, {}, {}, {1}, map[])
    case 3 => State([], 1, 1, {1}, {}, {}, {1}, map[2 := Tried])
    case 4 => State([], 1, 1, {1}, {}, {}, {1}, map[2 := Missed])
    case 5 => State([], 1, 1, {1}, {}, {}, {1}, map[2 := Queued])
    case 6 => State([], 1, 1, {1}, {}, {}, {1}, map[2 := Sleeping])
    case 7 => State([], 1, 1, {1}, {}, {}, {1}, map[2 := Sleeping, 3 := GrowAlloc(2)])
    case 8 => State([], 2, 2, {1}, {}, {}, {1}, map[2 := Sleeping, 3 := Filling])
    case 9 => State([], 2, 2, {1}, {}, {2}, {1, 2}, map[2 := Sleeping, 3 := FillHave(2)])
    case _ => State([2], 2, 2, {1}, {}, {}, {1, 2}, map[2 := Sleeping, 3 := Filling])
  }

  lemma {:induction false} ForgottenEarly(i: nat)
    requires i <= 4
    ensures Step(Forgotten(i), Forgotten(i + 1))
  {
    match i
    case 0 => assert AllocFail(Forgotten(0), Forgotten(1), 1);
    case 1 => assert AllocLocked(Forgotten(1), Forgotten(2), 1, false);
    case 2 => assert AllocFail(Forgotten(2), Forgotten(3), 2);
    case 3 => assert AllocLocked(Forgotten(3), Forgotten(4), 2, false);
    case _ => assert AllocQueue(Forgotten(4), Forgotten(5), 2);
  }

  lemma {:induction false} ForgottenLate(i: nat)
    requires 5 <= i <= 9
    ensures Step(Forgotten(i), Forgotten(i + 1))
  {
    match i
    case 5 => assert AllocCheck(Forgotten(5), Forgotten(6), 2);
    case 6 => assert ResizeBegin(Forgotten(6), Forgotten(7), 3, 2);
    case 7 => assert GrowLocked(Forgotten(7), Forgotten(8), 3, 2);
    case 8 => assert FillGet(Forgotten(8), Forgotten(9), 3, 2);
    case _ => assert FillLocked(Forgotten(9), Forgotten(10), 3, 2);
  }

  /** A run with one resize that ends with a sleeper, a pool that is not empty, and nobody waking. */
  lemma {:induction false} SleeperForgotten() returns (trace: seq<State>)
    ensures Run(trace) && |trace| == 11
    ensures SomeSleeping(trace[10]) && trace[10].elems != [] && !SomeWaking(trace[10])
  {
    trace := seq(11, i requires 0 <= i < 11 => Forgotten(i));
    assert Forgotten(0).live == set e | e in Forgotten(0).elems;
    forall k: nat | k + 1 < |trace|
      ensures Next(trace, k)
    {
      if k <= 4 {
        ForgottenEarly(k);
      } else {
        ForgottenLate(k);
      }
    }
    assert trace[10].threads[2].Sleeping?;
  }

  /** Thread 1 shrinks a pool of four to three, while thread 2 shrinks it to one and then grows it to two. */
  function Overlap(i: nat): State {
    match i
    case 0 => State([1, 2, 3, 4], 4, 4, {}, {}, {}, {1, 2, 3, 4}, map[])
    case 1 => State([1, 2, 3], 4, 4, {}, {4}, {}, {1, 2, 3, 4}, map[1 := ShrinkFree(3, 4)])
    case 2 => State([1, 2], 4, 4, {}, {3, 4}, {}, {1, 2, 3, 4}, map[1 := ShrinkFree(3, 4), 2 := ShrinkFree(1, 3)])
    case 3 => State([1, 2], 4, 4, {}, {4}, {}, {1, 2, 4}, map[1 := ShrinkFree(3, 4), 2 := Shrinking(1)])
    case 4 => State([1], 4, 4, {}, {2, 4}, {}, {1, 2, 4}, map[1 := ShrinkFree(3, 4), 2 := ShrinkFree(1, 2)])
    case 5 => State([1], 4, 4, {}, {4}, {}, {1, 4}, map[1 := ShrinkFree(3, 4), 2 := Shrinking(1)])
    case 6 => State([1], 4, 1, {}, {4}, {}, {1, 4}, map[1 := ShrinkFree(3, 4)])
    case 7 => State([1], 4, 1, {}, {4}, {}, {1, 4}, map[1 := ShrinkFree(3, 4), 2 := GrowAlloc(2)])
    case 8 => State([1], 2, 2, {}, {4}, {}, {1, 4}, map[1 := ShrinkFree(3, 4), 2 := Filling])
    case 9 => State([1], 2, 2, {}, {}, {}, {1}, map[1 := Shrinking(3), 2 := Filling])
    case _ => State([1], 2, 3, {}, {}, {}, {1}, map[2 := Filling])
  }

  lemma {:induction false} OverlapEarly(i: nat)
    requires i <= 3
    ensures LooseStep(Overlap(i), Overlap(i + 1))
  {
    match i
    case 0 => assert OverlappingBegin(Overlap(0), Overlap(1), 1, 3);
    case 1 => assert OverlappingBegin(Overlap(1), Overlap(2), 2, 1);
    case 2 => assert ShrinkGive(Overlap(2), Overlap(3), 2, 1, 3);
    case _ => assert ShrinkLocked(Overlap(3), Overlap(4), 2, 1);
  }

  lemma {:induction false} OverlapMiddle(i: nat)
    requires 4 <= i <= 6
    ensures LooseStep(Overlap(i), Overlap(i + 1))
  {
    match i
    case 4 => assert ShrinkGive(Overlap(4), Overlap(5), 2, 1, 2);
    case 5 => assert ShrinkLocked(Overlap(5), Overlap(6), 2, 1);
    case _ => assert OverlappingBegin(Overlap(6), Overlap(7), 2, 2);
  }

  lemma {:induction false} OverlapLate(i: nat)
    requires 7 <= i <= 9
    ensures LooseStep(Overlap(i), Overlap(i + 1))
  {
    match i
    case 7 => assert GrowLocked(Overlap(7), Overlap(8), 2, 2);
    case 8 => assert ShrinkGive(Overlap(8), Overlap(9), 1, 3, 4);
    case _ => assert ShrinkLocked(Overlap(9), Overlap(10), 1, 3);
  }

  /** A run with overlapping resizes that ends with min_nr three and room for two in the array. */
  lemma {:induction false} OverlappingResizesBreak() returns (trace: seq<State>)
    ensures LooseRun(trace) && |trace| == 11
    ensures trace[10].min == 3 && trace[10].cap == 2 && !BoundsOk(trace[10])
  {
    trace := seq(11, i requires 0 <= i < 11 => Overlap(i));
    assert Overlap(0).live == set e | e in Overlap(0).elems;
    forall k: nat | k + 1 < |trace|
      ensures LooseNext(trace, k)
    {
      if k <= 3 {
        OverlapEarly(k);
      } else if k <= 6 {
        OverlapMiddle(k);
      } else {
        OverlapLate(k);
      }
    }
  }
}
