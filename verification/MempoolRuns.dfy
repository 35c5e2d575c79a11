/** Whole runs of a memory pool: any interleaving of allocations, frees and resizes. */
module MempoolRuns {
  import opened Lists
  import opened MempoolProtocol

  /** mempool_create: min_nr elements, all in the pool. */
  ghost predicate Init(s: State) {
    && s.min > 0 && s.cap == s.min && |s.elems| == s.min && NoDup(s.elems)
    && s.kept == {} && s.leaving == {} && s.adding == {} && s.threads == map[]
    && s.live == set e | e in s.elems
  }

  ghost predicate Next(trace: seq<State>, k: nat)
    requires k + 1 < |trace|
  {
    Step(trace[k], trace[k + 1])
  }

  ghost predicate LooseNext(trace: seq<State>, k: nat)
    requires k + 1 < |trace|
  {
    LooseStep(trace[k], trace[k + 1])
  }

  /** Any interleaving with one resize at a time. */
  ghost predicate Run(trace: seq<State>) {
    |trace| > 0 && Init(trace[0]) && forall k: nat {:trigger Next(trace, k)} | k + 1 < |trace| :: Next(trace, k)
  }

  /** Any interleaving with any number of resizes at once. */
  ghost predicate LooseRun(trace: seq<State>) {
    |trace| > 0 && Init(trace[0]) && forall k: nat {:trigger LooseNext(trace, k)} | k + 1 < |trace| :: LooseNext(trace, k)
  }

  /** The step from entry k overflows the array, raises min_nr, or forgets a sleeper. */
  ghost predicate OverflowsAt(trace: seq<State>, k: nat)
    requires k + 1 < |trace|
  {
    Overflows(trace[k], trace[k + 1])
  }

  ghost predicate RaisesAt(trace: seq<State>, k: nat)
    requires k + 1 < |trace|
  {
    Raises(trace[k], trace[k + 1])
  }

  ghost predicate ForgetsAt(trace: seq<State>, k: nat)
    requires k + 1 < |trace|
  {
    Forgets(trace[k], trace[k + 1])
  }

  // ----- one step

  lemma {:induction false} ClientStepKeeps(s: State, s': State)
    requires Safe(s) && BoundsOk(s) && ClientStep(s, s')
    ensures Keeps(s, s')
  {
    if t, e :| AllocDirect(s, s', t, e) {
      AllocDirectKeeps(s, s', t, e);
    } else if t :| AllocFail(s, s', t) {
      AllocFailKeeps(s, s', t);
    } else if t, a :| AllocLocked(s, s', t, a) {
      AllocLockedKeeps(s, s', t, a);
    } else if t :| AllocQueue(s, s', t) {
      AllocQueueKeeps(s, s', t);
    } else if t :| AllocCheck(s, s', t) {
      AllocCheckKeeps(s, s', t);
    } else if t, e :| FreeBegin(s, s', t, e) {
      FreeBeginKeeps(s, s', t, e);
    } else if t, e :| FreeLocked(s, s', t, e) {
      FreeLockedKeeps(s, s', t, e);
    } else if t, e :| GiveBack(s, s', t, e) {
      GiveBackKeeps(s, s', t, e);
    } else {
      var t :| WakeUp(s, s', t);
      WakeUpKeeps(s, s', t);
    }
  }

  /** What a step of a running resize keeps: it breaks the bounds only by overflowing the array, the
      guarantee only by raising min_nr, and forgets a sleeper only by adding an element. */
  ghost predicate ResizeKeeps(s: State, s': State) {
    && Safe(s') && (BoundsOk(s') || Overflows(s, s'))
    && (OneResize(s) ==> BoundsOk(s') && OneResize(s'))
    && (OneResize(s) && Reserve(s) ==> Reserve(s') || Raises(s, s'))
    && (NoLostWakeup(s) ==> NoLostWakeup(s') || Forgets(s, s'))
  }

  lemma {:induction false} ShrinkLockedStep(s: State, s': State, t: nat, n: nat)
    requires Safe(s) && BoundsOk(s) && ShrinkLocked(s, s', t, n)
    ensures ResizeKeeps(s, s')
  {
    assert PhaseOk(s, s.threads[t]);
    ShrinkOnceSafe(s, t, n);
    if OneResize(s) {
      ShrinkOnceAlone(s, t, n);
    }
  }

  lemma {:induction false} GrowLockedStep(s: State, s': State, t: nat, n: nat)
    requires Safe(s) && BoundsOk(s) && GrowLocked(s, s', t, n)
    ensures ResizeKeeps(s, s')
  {
    GrowLockedKeeps(s, s', t, n);
  }

  lemma {:induction false} FillLockedStep(s: State, s': State, t: nat, e: nat)
    requires Safe(s) && BoundsOk(s) && FillLocked(s, s', t, e)
    ensures ResizeKeeps(s, s')
  {
    FillLockedKeeps(s, s', t, e);
    if |s.elems| < s.min {
      FillWakeups(s, s', t, e);
    }
  }

  lemma {:induction false} ResizeStepKeeps(s: State, s': State)
    requires Safe(s) && BoundsOk(s) && ResizeStep(s, s')
    ensures ResizeKeeps(s, s')
  {
    if t, n, e :| ShrinkGive(s, s', t, n, e) {
      ShrinkGiveKeeps(s, s', t, n, e);
    } else if t, n :| ShrinkLocked(s, s', t, n) {
      ShrinkLockedStep(s, s', t, n);
    } else if t, n :| GrowFail(s, s', t, n) {
      LeaveKeeps(s, t);
    } else if t, n :| GrowLocked(s, s', t, n) {
      GrowLockedStep(s, s', t, n);
    } else if t :| FillFail(s, s', t) {
      LeaveKeeps(s, t);
    } else if t, e :| FillGet(s, s', t, e) {
      FillGetKeeps(s, s', t, e);
    } else {
      var t, e :| FillLocked(s, s', t, e);
      FillLockedStep(s, s', t, e);
    }
  }

  /** Every step of an interleaving with one resize at a time. */
  lemma {:induction false} StepKeeps(s: State, s': State)
    requires Inv(s) && Step(s, s')
    ensures Inv(s')
    ensures Reserve(s) ==> Reserve(s') || Raises(s, s')
    ensures NoLostWakeup(s) ==> NoLostWakeup(s') || Forgets(s, s')
  {
    if ClientStep(s, s') {
      ClientStepKeeps(s, s');
    } else if ResizeStep(s, s') {
      ResizeStepKeeps(s, s');
    } else {
      var t, n :| ResizeBegin(s, s', t, n);
      ResizeBeginKeeps(s, s', t, n);
    }
  }

  // ----- one resize at a time

  /** In every reachable state 0 <= curr_nr <= min_nr <= capacity and no element is lost or duplicated. */
  lemma {:induction false} RunSafe(trace: seq<State>, n: nat)
    requires Run(trace) && n < |trace|
    ensures BoundsOk(trace[n]) && Safe(trace[n]) && OneResize(trace[n])
  {
    if n > 0 {
      RunSafe(trace, n - 1);
      assert Next(trace, n - 1);
      StepKeeps(trace[n - 1], trace[n]);
    }
  }

  lemma {:induction false} ReserveStep(trace: seq<State>, k: nat)
    requires Run(trace) && k + 1 < |trace| && Reserve(trace[k]) && !RaisesAt(trace, k)
    ensures Reserve(trace[k + 1])
  {
    RunSafe(trace, k);
    assert Next(trace, k);
    StepKeeps(trace[k], trace[k + 1]);
  }

  /** The guarantee, once it holds, holds on until a resize raises min_nr. */
  lemma {:induction false} ReserveLasts(trace: seq<State>, a: nat, b: nat)
    requires Run(trace) && a <= b < |trace| && Reserve(trace[a])
    requires forall k: nat | a <= k < b :: !RaisesAt(trace, k)
    ensures Reserve(trace[b])
    decreases b
  {
    if a < b {
      ReserveLasts(trace, a, b - 1);
      ReserveStep(trace, b - 1);
    }
  }

  /** It holds from the start, ... */
  lemma {:induction false} ReserveAtStart(s: State)
    requires Init(s)
    ensures Reserve(s)
  {
    assert Covers(s, s.min);
  }

  /** ... for the new min_nr as soon as a shrinking resize is done, ... */
  lemma {:induction false} ReserveAfterShrink(s: State, s': State, t: nat, n: nat)
    requires Inv(s) && Reserve(s) && ShrinkLocked(s, s', t, n) && t !in s'.threads
    ensures s'.min == n && Covers(s', s'.min)
  {
    ShrinkOnceAlone(s, t, n);
  }

  /** ... and again when a growing resize has filled the pool. */
  lemma {:induction false} ReserveAfterFill(s: State, s': State, t: nat, e: nat)
    requires Inv(s) && FillLocked(s, s', t, e) && t !in s'.threads
    ensures Covers(s', s'.min)
  {
    FillLockedKeeps(s, s', t, e);
  }

  /** An empty pool that is not being shrunk, and whose min_nr no resize has raised, has at least
      min_nr elements with clients, which come back to it. */
  lemma {:induction false} EmptyMeansOutstanding(trace: seq<State>, n: nat)
    requires Run(trace) && n < |trace| && trace[n].elems == []
    requires forall k: nat | k < n :: !RaisesAt(trace, k)
    requires forall t | t in trace[n].threads :: !trace[n].threads[t].ShrinkFree? && !trace[n].threads[t].Shrinking?
    ensures |trace[n].kept| >= trace[n].min > 0
  {
    ReserveAtStart(trace[0]);
    ReserveLasts(trace, 0, n);
    RunSafe(trace, n);
  }

  /** In a run nobody is ever forgotten on the wait queue exactly when no resize adds an element while
      a thread sleeps and nobody is about to wake it. */
  lemma {:induction false} WakeupsIff(trace: seq<State>)
    requires Run(trace)
    ensures (forall n | 0 <= n < |trace| :: NoLostWakeup(trace[n]))
       <==> (forall k: nat | k + 1 < |trace| :: !ForgetsAt(trace, k))
  {
    if forall k: nat | k + 1 < |trace| :: !ForgetsAt(trace, k) {
      forall n | 0 <= n < |trace|
        ensures NoLostWakeup(trace[n])
      {
        WakeupsLast(trace, n);
      }
    }
    forall k: nat | k + 1 < |trace| && ForgetsAt(trace, k)
      ensures !NoLostWakeup(trace[k + 1])
    {
      var t, e :| FillLocked(trace[k], trace[k + 1], t, e) && |trace[k].elems| < trace[k].min;
      FillWakeups(trace[k], trace[k + 1], t, e);
    }
  }

  lemma {:induction false} WakeupsLast(trace: seq<State>, n: nat)
    requires Run(trace) && n < |trace|
    requires forall k: nat | k + 1 < |trace| :: !ForgetsAt(trace, k)
    ensures NoLostWakeup(trace[n])
  {
    if n > 0 {
      WakeupsLast(trace, n - 1);
      RunSafe(trace, n - 1);
      assert Next(trace, n - 1) && !ForgetsAt(trace, n - 1);
      StepKeeps(trace[n - 1], trace[n]);
    }
  }

  /** Only its own wake_up ends the phase of a waking thread, and that leaves nobody asleep. */
  lemma {:induction false} WakingEnds(s: State, s': State, t: nat)
    requires Step(s, s') && Is(s, t, Waking)
    ensures Is(s', t, Waking) || !SomeSleeping(s')
  {
    if u :| WakeUp(s, s', u) {
      assert u != t ==> Is(s', t, Waking);
    }
  }

  /** A thread that sleeps when an element comes back to the pool does not sleep on beyond the wakeup
      of the thread that brought it. */
  lemma {:induction false} ReturnWakes(trace: seq<State>, a: nat, b: nat, t: nat, e: nat, u: nat)
    requires Run(trace) && a + 1 < b < |trace|
    requires FreeLocked(trace[a], trace[a + 1], t, e) && |trace[a].elems| < trace[a].min
    requires !Is(trace[b], t, Waking)
    ensures exists k :: a < k <= b && !Is(trace[k], u, Sleeping)
  {
    assert Is(trace[a + 1], t, Waking);
    WokenBetween(trace, a + 1, b, t, u);
  }

  lemma {:induction false} WokenBetween(trace: seq<State>, a: nat, b: nat, t: nat, u: nat)
    requires Run(trace) && a < b < |trace| && Is(trace[a], t, Waking) && !Is(trace[b], t, Waking)
    ensures exists k :: a <= k <= b && !Is(trace[k], u, Sleeping)
    decreases b - a
  {
    assert Next(trace, a);
    WakingEnds(trace[a], trace[a + 1], t);
    if Is(trace[a + 1], t, Waking) {
      WokenBetween(trace, a + 1, b, t, u);
    } else {
      assert !Is(trace[a + 1], u, Sleeping);
    }
  }

  // ----- any number of resizes

  /** No element is lost or duplicated while the bounds hold, and the bounds hold until a step overflows. */
  lemma {:induction false} LooseStepKeeps(s: State, s': State)
    requires Safe(s) && BoundsOk(s) && LooseStep(s, s')
    ensures Safe(s') && (BoundsOk(s') || Overflows(s, s'))
  {
    if ClientStep(s, s') {
      ClientStepKeeps(s, s');
    } else if ResizeStep(s, s') {
      ResizeStepKeeps(s, s');
    } else {
      var t, n :| OverlappingBegin(s, s', t, n);
      OverlappingBeginSafe(s, s', t, n);
    }
  }

  lemma {:induction false} BoundsLast(trace: seq<State>, n: nat)
    requires LooseRun(trace) && n < |trace|
    requires forall k: nat | k < n :: !OverflowsAt(trace, k)
    ensures Safe(trace[n]) && BoundsOk(trace[n])
  {
    if n > 0 {
      BoundsLast(trace, n - 1);
      assert LooseNext(trace, n - 1) && !OverflowsAt(trace, n - 1);
      LooseStepKeeps(trace[n - 1], trace[n]);
    }
  }

  /** With overlapping resizes the bounds hold in every state of a run exactly when each shrinking resize
      that completes finds an array with room for the value it gives to min_nr. */
  lemma {:induction false} BoundsIff(trace: seq<State>)
    requires LooseRun(trace)
    ensures (forall n | 0 <= n < |trace| :: BoundsOk(trace[n]))
       <==> (forall k: nat | k + 1 < |trace| :: !OverflowsAt(trace, k))
  {
    if forall k: nat | k + 1 < |trace| :: !OverflowsAt(trace, k) {
      forall n | 0 <= n < |trace|
        ensures BoundsOk(trace[n])
      {
        BoundsLast(trace, n);
      }
    }
    forall k: nat | k + 1 < |trace| && OverflowsAt(trace, k)
      ensures !BoundsOk(trace[k + 1])
    {
    }
  }
}
