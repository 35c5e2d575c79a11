/** A memory pool as a protocol between threads: each step is what one thread does under the pool's
    lock, or one call or check outside it. */
module MempoolProtocol {
  import opened Lists

  datatype Phase =
    | Tried                          // mempool_alloc: the allocator failed
    | Missed                         // saw the pool empty and released the lock
    | Queued                         // on the wait queue, about to look at curr_nr
    | Sleeping
    | Retry                          // about to call the allocator again
    | FreeSeen(elem: nat)            // mempool_free: saw room, about to take the lock
    | FreeOut(elem: nat)             // about to give the element back to the allocator
    | Waking                         // mempool_free: about to call wake_up
    | ShrinkFree(to: nat, elem: nat) // mempool_resize: removed an element, about to free it
    | Shrinking(to: nat)             // about to take the lock again
    | GrowAlloc(to: nat)             // about to get a larger array
    | Filling                        // about to get an element
    | FillHave(elem: nat)            // about to add it
    | FillOut(elem: nat)             // about to free it, as the pool has filled up

  /** The elements in the pool; the array's capacity; min_nr; the elements that clients have, those on
      their way back to the allocator, those a resize is about to add, and all that the allocator has
      given out; and the threads inside the pool's code. */
  datatype State = State(elems: seq<nat>, cap: nat, min: nat, kept: set<nat>, leaving: set<nat>, adding: set<nat>,
                         live: set<nat>, threads: map<nat, Phase>)

  predicate IsResize(p: Phase) {
    p.ShrinkFree? || p.Shrinking? || p.GrowAlloc? || p.Filling? || p.FillHave? || p.FillOut?
  }

  /** A resize on its way down to n. */
  predicate ShrinksTo(p: Phase, n: nat) {
    (p.ShrinkFree? || p.Shrinking?) && p.to == n
  }

  /** The set an element of a phase belongs to; resizes have a positive goal. */
  ghost predicate PhaseOk(s: State, p: Phase) {
    match p
    case FreeSeen(e) => e in s.kept
    case FreeOut(e) => e in s.leaving
    case ShrinkFree(n, e) => 0 < n && e in s.leaving
    case Shrinking(n) => 0 < n
    case GrowAlloc(n) => 0 < n
    case FillHave(e) => e in s.adding
    case FillOut(e) => e in s.leaving
    case _ => true
  }

  predicate HasElem(p: Phase, e: nat) {
    match p
    case FreeSeen(x) => x == e
    case FreeOut(x) => x == e
    case ShrinkFree(_, x) => x == e
    case FillHave(x) => x == e
    case FillOut(x) => x == e
    case _ => false
  }

  /** curr_nr <= min_nr <= capacity. */
  ghost predicate BoundsOk(s: State) {
    0 <= |s.elems| <= s.min <= s.cap && s.min > 0
  }

  /** Every element the allocator has given out is in exactly one place. */
  ghost predicate Conserved(s: State) {
    && NoDup(s.elems)
    && (forall e :: e in s.live <==> e in s.elems || e in s.kept || e in s.leaving || e in s.adding)
    && (forall e | e in s.elems :: e !in s.kept && e !in s.leaving && e !in s.adding)
    && (forall e | e in s.kept :: e !in s.leaving && e !in s.adding)
    && (forall e | e in s.leaving :: e !in s.adding)
  }

  /** Each element in some thread's hands is in one thread's hands only. */
  ghost predicate ThreadsOk(s: State) {
    && (forall t | t in s.threads :: PhaseOk(s, s.threads[t]))
    && (forall t, u, e {:trigger HasElem(s.threads[t], e), HasElem(s.threads[u], e)} |
          t in s.threads && u in s.threads && HasElem(s.threads[t], e) && HasElem(s.threads[u], e) :: t == u)
  }

  /** No element is lost or duplicated.  This does not depend on how many resizes run. */
  ghost predicate Safe(s: State) {
    Conserved(s) && ThreadsOk(s)
  }

  /** At most one resize runs, and it shrinks the pool to no more than min_nr. */
  ghost predicate OneResize(s: State) {
    && (forall t, u | t in s.threads && u in s.threads && IsResize(s.threads[t]) && IsResize(s.threads[u]) :: t == u)
    && (forall t | t in s.threads && (s.threads[t].ShrinkFree? || s.threads[t].Shrinking?) :: s.threads[t].to <= s.min)
  }

  ghost predicate Inv(s: State) {
    BoundsOk(s) && Safe(s) && OneResize(s)
  }

  /** What the pool has and what clients have that will come back to it. */
  ghost predicate Covers(s: State, m: nat) {
    |s.elems| + |s.kept| >= m
  }

  /** The size the pool is being shrunk to. */
  ghost predicate BeingShrunk(s: State, m: nat) {
    exists t :: t in s.threads && ShrinksTo(s.threads[t], m)
  }

  /** The guarantee of the pool: min_nr elements are in it or will come back to it; while it is being
      shrunk, as many as it will have then. */
  ghost predicate Reserve(s: State) {
    Covers(s, s.min) || exists m :: BeingShrunk(s, m) && Covers(s, m)
  }

  predicate SomeWaking(s: State) {
    exists u :: u in s.threads && s.threads[u].Waking?
  }

  predicate SomeSleeping(s: State) {
    exists u :: u in s.threads && s.threads[u].Sleeping?
  }

  /** A thread sleeps only while the pool is empty or a wakeup is on its way. */
  predicate NoLostWakeup(s: State) {
    SomeSleeping(s) ==> s.elems == [] || SomeWaking(s)
  }

  // ----- small changes

  function Gone(s: State, t: nat): State {
    s.(threads := s.threads - {t})
  }

  function At(s: State, t: nat, p: Phase): State {
    s.(threads := s.threads[t := p])
  }

  /** t is not inside the pool's code, or about to call the allocator again. */
  predicate Outside(s: State, t: nat) {
    t in s.threads ==> s.threads[t] == Retry
  }

  predicate Is(s: State, t: nat, p: Phase) {
    t in s.threads && s.threads[t] == p
  }

  function Last(s: State): nat
    requires s.elems != []
  {
    s.elems[|s.elems| - 1]
  }

  function Popped(s: State): State
    requires s.elems != []
  {
    s.(elems := s.elems[..|s.elems| - 1])
  }

  // ----- mempool_alloc

  ghost predicate AllocDirect(s: State, s': State, t: nat, e: nat) {
    Outside(s, t) && e !in s.live && s' == Gone(s, t).(kept := s.kept + {e}, live := s.live + {e})
  }

  ghost predicate AllocFail(s: State, s': State, t: nat) {
    Outside(s, t) && s' == At(s, t, Tried)
  }

  /** Under the lock: the last element, or NULL for callers that must not sleep, or on to the wait queue. */
  ghost predicate AllocLocked(s: State, s': State, t: nat, atomic: bool) {
    && Is(s, t, Tried)
    && s' == if s.elems != [] then Gone(Popped(s), t).(kept := s.kept + {Last(s)})
             else if atomic then Gone(s, t)
             else At(s, t, Missed)
  }

  /** prepare_to_wait, after the lock was released. */
  ghost predicate AllocQueue(s: State, s': State, t: nat) {
    Is(s, t, Missed) && s' == At(s, t, Queued)
  }

  ghost predicate AllocCheck(s: State, s': State, t: nat) {
    Is(s, t, Queued) && s' == At(s, t, if s.elems == [] then Sleeping else Retry)
  }

  // ----- mempool_free

  /** The check outside the lock; e is one of the client's elements and is freed once. */
  ghost predicate FreeBegin(s: State, s': State, t: nat, e: nat) {
    && t !in s.threads && e in s.kept && (forall u | u in s.threads :: !HasElem(s.threads[u], e))
    && s' == if |s.elems| < s.min then At(s, t, FreeSeen(e))
             else At(s, t, FreeOut(e)).(kept := s.kept - {e}, leaving := s.leaving + {e})
  }

  ghost predicate FreeLocked(s: State, s': State, t: nat, e: nat) {
    && Is(s, t, FreeSeen(e))
    && s' == if |s.elems| < s.min then At(s, t, Waking).(elems := s.elems + [e], kept := s.kept - {e})
             else At(s, t, FreeOut(e)).(kept := s.kept - {e}, leaving := s.leaving + {e})
  }

  ghost predicate GiveBack(s: State, s': State, t: nat, e: nat) {
    && (Is(s, t, FreeOut(e)) || Is(s, t, FillOut(e)))
    && s' == Gone(s, t).(leaving := s.leaving - {e}, live := s.live - {e})
  }

  function Awake(p: Phase): Phase {
    if p.Sleeping? || p.Queued? then Retry else p
  }

  ghost predicate WakeUp(s: State, s': State, t: nat) {
    && Is(s, t, Waking)
    && s' == s.(threads := map u | u in s.threads && u != t :: Awake(s.threads[u]))
  }

  // ----- mempool_resize

  /** The head of the shrinking loop, under the lock. */
  function ShrinkOnce(s: State, t: nat, n: nat): State {
    if n < |s.elems| then At(Popped(s), t, ShrinkFree(n, Last(s))).(leaving := s.leaving + {Last(s)})
    else Gone(s, t).(min := n)
  }

  /** A resize begins, whether or not another one runs. */
  ghost predicate OverlappingBegin(s: State, s': State, t: nat, n: nat) {
    && t !in s.threads && n > 0
    && s' == if n <= s.min then ShrinkOnce(s, t, n) else At(s, t, GrowAlloc(n))
  }

  /** A resize begins while no other one runs. */
  ghost predicate ResizeBegin(s: State, s': State, t: nat, n: nat) {
    OverlappingBegin(s, s', t, n) && forall u | u in s.threads :: !IsResize(s.threads[u])
  }

  ghost predicate ShrinkGive(s: State, s': State, t: nat, n: nat, e: nat) {
    && Is(s, t, ShrinkFree(n, e))
    && s' == At(s, t, Shrinking(n)).(leaving := s.leaving - {e}, live := s.live - {e})
  }

  ghost predicate ShrinkLocked(s: State, s': State, t: nat, n: nat) {
    Is(s, t, Shrinking(n)) && s' == ShrinkOnce(s, t, n)
  }

  /** The larger array could not be had. */
  ghost predicate GrowFail(s: State, s': State, t: nat, n: nat) {
    Is(s, t, GrowAlloc(n)) && s' == Gone(s, t)
  }

  /** The head of the filling loop. */
  function FillOnce(s: State, t: nat): State {
    if |s.elems| < s.min then At(s, t, Filling) else Gone(s, t)
  }

  ghost predicate GrowLocked(s: State, s': State, t: nat, n: nat) {
    Is(s, t, GrowAlloc(n)) && s' == if n <= s.min then Gone(s, t) else FillOnce(s.(cap := n, min := n), t)
  }

  ghost predicate FillFail(s: State, s': State, t: nat) {
    Is(s, t, Filling) && s' == Gone(s, t)
  }

  ghost predicate FillGet(s: State, s': State, t: nat, e: nat) {
    Is(s, t, Filling) && e !in s.live && s' == At(s, t, FillHave(e)).(adding := s.adding + {e}, live := s.live + {e})
  }

  ghost predicate FillLocked(s: State, s': State, t: nat, e: nat) {
    && Is(s, t, FillHave(e))
    && var r := s.(adding := s.adding - {e});
       s' == if |s.elems| < s.min then FillOnce(r.(elems := s.elems + [e]), t)
             else At(r, t, FillOut(e)).(leaving := s.leaving + {e})
  }

  ghost predicate ClientStep(s: State, s': State) {
    || (exists t, e :: AllocDirect(s, s', t, e))
    || (exists t :: AllocFail(s, s', t))
    || (exists t, a :: AllocLocked(s, s', t, a))
    || (exists t :: AllocQueue(s, s', t))
    || (exists t :: AllocCheck(s, s', t))
    || (exists t, e :: FreeBegin(s, s', t, e))
    || (exists t, e :: FreeLocked(s, s', t, e))
    || (exists t, e :: GiveBack(s, s', t, e))
    || (exists t :: WakeUp(s, s', t))
  }

  /** A step of a resize that has begun. */
  ghost predicate ResizeStep(s: State, s': State) {
    || (exists t, n, e :: ShrinkGive(s, s', t, n, e))
    || (exists t, n :: ShrinkLocked(s, s', t, n))
    || (exists t, n :: GrowFail(s, s', t, n))
    || (exists t, n :: GrowLocked(s, s', t, n))
    || (exists t :: FillFail(s, s', t))
    || (exists t, e :: FillGet(s, s', t, e))
    || (exists t, e :: FillLocked(s, s', t, e))
  }

  ghost predicate Step(s: State, s': State) {
    ClientStep(s, s') || ResizeStep(s, s') || exists t, n :: ResizeBegin(s, s', t, n)
  }

  /** A step with any number of resizes at once. */
  ghost predicate LooseStep(s: State, s': State) {
    ClientStep(s, s') || ResizeStep(s, s') || exists t, n :: OverlappingBegin(s, s', t, n)
  }

  // ----- steps with an effect of their own

  /** A shrinking resize sets min_nr to more than the array now in place can hold. */
  ghost predicate Overflows(s: State, s': State) {
    exists t, n: nat :: ShrinkLocked(s, s', t, n) && |s.elems| <= n && n > s.cap
  }

  /** A growing resize raises min_nr before it has the elements. */
  ghost predicate Raises(s: State, s': State) {
    exists t, n: nat :: GrowLocked(s, s', t, n) && n > s.min
  }

  /** A resize adds an element while a thread sleeps and nobody is about to wake it. */
  ghost predicate Forgets(s: State, s': State) {
    SomeSleeping(s) && !SomeWaking(s) && exists t, e :: FillLocked(s, s', t, e) && |s.elems| < s.min
  }

  // ----- what the steps keep

  /** Sleepers stay covered when no wakeup disappears and an empty pool stays empty. */
  lemma {:induction false} WakeupsKept(s: State, s': State)
    requires forall u | u in s'.threads && s'.threads[u].Sleeping? :: u in s.threads && s.threads[u].Sleeping?
    requires forall u | u in s.threads && s.threads[u].Waking? :: u in s'.threads && s'.threads[u].Waking?
    requires s.elems == [] ==> s'.elems == []
    ensures NoLostWakeup(s) ==> NoLostWakeup(s')
  {
    if SomeSleeping(s') && NoLostWakeup(s) && s.elems != [] {
      var u :| u in s'.threads && s'.threads[u].Sleeping?;
      assert SomeSleeping(s);
      var v :| v in s.threads && s.threads[v].Waking?;
      assert s'.threads[v].Waking?;
    }
  }

  /** The guarantee stays when no shrinking resize disappears and nothing leaves pool and clients
      unless min_nr elements are left in the pool. */
  lemma {:induction false} ReserveKept(s: State, s': State)
    requires s'.min == s.min && (Covers(s', |s.elems| + |s.kept|) || |s'.elems| >= s.min)
    requires forall t | t in s.threads && (s.threads[t].ShrinkFree? || s.threads[t].Shrinking?) ::
               t in s'.threads && ShrinksTo(s'.threads[t], s.threads[t].to)
    ensures Reserve(s) ==> Reserve(s')
  {
    if Reserve(s) && !Covers(s', s.min) {
      var m :| BeingShrunk(s, m) && Covers(s, m);
      var t :| t in s.threads && ShrinksTo(s.threads[t], m);
      assert BeingShrunk(s', m) && Covers(s', m);
    }
  }

  /** No other thread has the element of thread t. */
  lemma {:induction false} OnlyHolder(s: State, t: nat, e: nat)
    requires ThreadsOk(s) && t in s.threads && HasElem(s.threads[t], e)
    ensures forall u | u in s.threads && u != t :: !HasElem(s.threads[u], e)
  {
  }

  /** The rest of what a step keeps that leaves resizes, wakeups and the reserve alone. */
  lemma {:induction false} QuietStep(s: State, s': State, t: nat)
    requires s'.min == s.min && (Covers(s', |s.elems| + |s.kept|) || |s'.elems| >= s.min)
    requires forall u | u != t :: (u in s'.threads <==> u in s.threads) && (u in s.threads ==> s'.threads[u] == s.threads[u])
    requires t in s.threads ==> !IsResize(s.threads[t]) && !s.threads[t].Waking?
    requires t in s'.threads ==> !IsResize(s'.threads[t])
    ensures OneResize(s) ==> OneResize(s')
    ensures Reserve(s) ==> Reserve(s')
    ensures (t in s'.threads ==> !s'.threads[t].Sleeping?) && (s.elems == [] ==> s'.elems == []) ==>
              (NoLostWakeup(s) ==> NoLostWakeup(s'))
  {
    ReserveKept(s, s');
    if (t in s'.threads ==> !s'.threads[t].Sleeping?) && (s.elems == [] ==> s'.elems == []) {
      WakeupsKept(s, s');
    }
  }

  /** What a step keeps that neither begins, ends nor advances a resize in a way of its own. */
  ghost predicate Keeps(s: State, s': State) {
    && Safe(s') && BoundsOk(s')
    && (OneResize(s) ==> OneResize(s'))
    && (Reserve(s) ==> Reserve(s'))
    && (NoLostWakeup(s) ==> NoLostWakeup(s'))
  }

  lemma {:induction false} AllocDirectKeeps(s: State, s': State, t: nat, e: nat)
    requires Safe(s) && BoundsOk(s) && AllocDirect(s, s', t, e)
    ensures Keeps(s, s')
  {
    QuietStep(s, s', t);
  }

  lemma {:induction false} AllocFailKeeps(s: State, s': State, t: nat)
    requires Safe(s) && BoundsOk(s) && AllocFail(s, s', t)
    ensures Keeps(s, s')
  {
    QuietStep(s, s', t);
  }

  lemma {:induction false} LastOut(l: seq<nat>)
    requires l != [] && NoDup(l)
    ensures NoDup(l[..|l| - 1]) && forall e :: e in l[..|l| - 1] <==> e in l && e != l[|l| - 1]
  {
  }

  /** The last element of the pool goes to a client. */
  lemma {:induction false} HandOut(s: State, s': State, t: nat)
    requires Safe(s) && s.elems != [] && Is(s, t, Tried) && s' == Gone(Popped(s), t).(kept := s.kept + {Last(s)})
    ensures Safe(s') && Covers(s', |s.elems| + |s.kept|)
  {
    LastOut(s.elems);
    assert Last(s) in s.elems;
  }

  lemma {:induction false} AllocLockedKeeps(s: State, s': State, t: nat, atomic: bool)
    requires Safe(s) && BoundsOk(s) && AllocLocked(s, s', t, atomic)
    ensures Keeps(s, s')
  {
    if s.elems != [] {
      HandOut(s, s', t);
    }
    QuietStep(s, s', t);
  }

  lemma {:induction false} AllocQueueKeeps(s: State, s': State, t: nat)
    requires Safe(s) && BoundsOk(s) && AllocQueue(s, s', t)
    ensures Keeps(s, s')
  {
    QuietStep(s, s', t);
  }

  lemma {:induction false} AllocCheckKeeps(s: State, s': State, t: nat)
    requires Safe(s) && BoundsOk(s) && AllocCheck(s, s', t)
    ensures Keeps(s, s')
  {
    QuietStep(s, s', t);
  }

  /** A client's element is in the hands of a thread that gives it back. */
  lemma {:induction false} LetGo(s: State, s': State, t: nat, e: nat)
    requires Safe(s) && e in s.kept && (t in s.threads ==> s.threads[t] == FreeSeen(e))
    requires forall u | u in s.threads && u != t :: !HasElem(s.threads[u], e)
    requires s' == At(s, t, FreeOut(e)).(kept := s.kept - {e}, leaving := s.leaving + {e})
    ensures Safe(s')
  {
  }

  lemma {:induction false} FreeBeginKeeps(s: State, s': State, t: nat, e: nat)
    requires Safe(s) && BoundsOk(s) && FreeBegin(s, s', t, e)
    ensures Keeps(s, s')
  {
    if |s.elems| >= s.min {
      LetGo(s, s', t, e);
    }
    QuietStep(s, s', t);
  }

  /** An element that comes back goes into the pool. */
  lemma {:induction false} TakeIn(s: State, s': State, t: nat, e: nat)
    requires Safe(s) && Is(s, t, FreeSeen(e))
    requires s' == At(s, t, Waking).(elems := s.elems + [e], kept := s.kept - {e})
    ensures Safe(s') && Covers(s', |s.elems| + |s.kept|)
  {
    OnlyHolder(s, t, e);
  }

  lemma {:induction false} FreeLockedKeeps(s: State, s': State, t: nat, e: nat)
    requires Safe(s) && BoundsOk(s) && FreeLocked(s, s', t, e)
    ensures Keeps(s, s')
  {
    OnlyHolder(s, t, e);
    if |s.elems| < s.min {
      TakeIn(s, s', t, e);
      assert s'.threads[t].Waking?;
    } else {
      LetGo(s, s', t, e);
    }
    QuietStep(s, s', t);
  }

  /** An element leaves for good. */
  lemma {:induction false} Given(s: State, s': State, t: nat, e: nat)
    requires Safe(s) && t in s.threads && HasElem(s.threads[t], e) && e in s.leaving
    requires s'.leaving == s.leaving - {e} && s'.live == s.live - {e} && s'.elems == s.elems && s'.kept == s.kept && s'.adding == s.adding
    requires forall u | u in s'.threads && u != t :: u in s.threads && s'.threads[u] == s.threads[u]
    requires t in s'.threads ==> s'.threads[t].Shrinking? && s'.threads[t].to > 0
    ensures Safe(s')
  {
    OnlyHolder(s, t, e);
  }

  lemma {:induction false} GiveBackKeeps(s: State, s': State, t: nat, e: nat)
    requires Safe(s) && BoundsOk(s) && GiveBack(s, s', t, e)
    ensures Keeps(s, s')
  {
    Given(s, s', t, e);
    ReserveKept(s, s');
    WakeupsKept(s, s');
  }

  lemma {:induction false} WakeUpSafe(s: State, s': State, t: nat)
    requires Safe(s) && WakeUp(s, s', t)
    ensures Safe(s') && !SomeSleeping(s')
  {
    assert forall u | u in s'.threads :: u in s.threads && s'.threads[u] == Awake(s.threads[u]);
  }

  lemma {:induction false} WakeUpResizes(s: State, s': State, t: nat)
    requires WakeUp(s, s', t)
    ensures OneResize(s) ==> OneResize(s')
    ensures Reserve(s) ==> Reserve(s')
  {
    ReserveKept(s, s');
  }

  lemma {:induction false} WakeUpKeeps(s: State, s': State, t: nat)
    requires Safe(s) && BoundsOk(s) && WakeUp(s, s', t)
    ensures Keeps(s, s') && !SomeSleeping(s')
  {
    WakeUpSafe(s, s', t);
    WakeUpResizes(s, s', t);
  }

  // ----- resizes

  /** The last element of the pool is removed by a shrinking resize. */
  lemma {:induction false} TakeOut(s: State, t: nat, n: nat)
    requires Safe(s) && 0 < n < |s.elems| && (t in s.threads ==> s.threads[t] == Shrinking(n))
    ensures Safe(ShrinkOnce(s, t, n))
  {
    LastOut(s.elems);
    assert Last(s) in s.elems;
  }

  lemma {:induction false} ShrinkOnceSafe(s: State, t: nat, n: nat)
    requires Safe(s) && BoundsOk(s) && 0 < n && (t in s.threads ==> s.threads[t] == Shrinking(n))
    ensures Safe(ShrinkOnce(s, t, n))
    ensures BoundsOk(ShrinkOnce(s, t, n)) || (|s.elems| <= n && n > s.cap)
    ensures NoLostWakeup(s) ==> NoLostWakeup(ShrinkOnce(s, t, n))
  {
    if n < |s.elems| {
      TakeOut(s, t, n);
    }
    WakeupsKept(s, ShrinkOnce(s, t, n));
  }

  /** With one resize the goal is at most min_nr, and at the end the guarantee holds for it. */
  lemma {:induction false} ShrinkOnceAlone(s: State, t: nat, n: nat)
    requires OneResize(s) && 0 < n <= s.min
    requires if t in s.threads then s.threads[t] == Shrinking(n) else forall u | u in s.threads :: !IsResize(s.threads[u])
    ensures OneResize(ShrinkOnce(s, t, n))
    ensures Reserve(s) ==> Reserve(ShrinkOnce(s, t, n))
    ensures Reserve(s) && |s.elems| <= n ==> Covers(ShrinkOnce(s, t, n), n)
  {
    var s' := ShrinkOnce(s, t, n);
    if Reserve(s) && !Covers(s, s.min) {
      var m :| BeingShrunk(s, m) && Covers(s, m);
      var u :| u in s.threads && ShrinksTo(s.threads[u], m);
      assert u == t && m == n;
    }
    if n < |s.elems| {
      assert ShrinksTo(s'.threads[t], n);
      assert BeingShrunk(s', n) && Covers(s', n);
    }
  }

  lemma {:induction false} OverlappingBeginSafe(s: State, s': State, t: nat, n: nat)
    requires Safe(s) && BoundsOk(s) && OverlappingBegin(s, s', t, n)
    ensures Safe(s') && BoundsOk(s') && (NoLostWakeup(s) ==> NoLostWakeup(s'))
  {
    if n <= s.min {
      ShrinkOnceSafe(s, t, n);
    } else {
      WakeupsKept(s, s');
    }
  }

  lemma {:induction false} ResizeBeginKeeps(s: State, s': State, t: nat, n: nat)
    requires Inv(s) && ResizeBegin(s, s', t, n)
    ensures Inv(s') && (Reserve(s) ==> Reserve(s')) && (NoLostWakeup(s) ==> NoLostWakeup(s'))
  {
    OverlappingBeginSafe(s, s', t, n);
    if n <= s.min {
      ShrinkOnceAlone(s, t, n);
    } else {
      ReserveKept(s, s');
    }
  }

  lemma {:induction false} ShrinkGiveKeeps(s: State, s': State, t: nat, n: nat, e: nat)
    requires Safe(s) && BoundsOk(s) && ShrinkGive(s, s', t, n, e)
    ensures Keeps(s, s')
  {
    assert PhaseOk(s, s.threads[t]);
    Given(s, s', t, e);
    ReserveKept(s, s');
    WakeupsKept(s, s');
  }

  /** A growing or filling resize that gives up. */
  lemma {:induction false} LeaveKeeps(s: State, t: nat)
    requires Safe(s) && BoundsOk(s) && t in s.threads && (s.threads[t].GrowAlloc? || s.threads[t].Filling?)
    ensures Keeps(s, Gone(s, t))
  {
    ReserveKept(s, Gone(s, t));
    WakeupsKept(s, Gone(s, t));
  }

  lemma {:induction false} GrowLockedKeeps(s: State, s': State, t: nat, n: nat)
    requires Safe(s) && BoundsOk(s) && GrowLocked(s, s', t, n)
    ensures Safe(s') && BoundsOk(s') && (OneResize(s) ==> OneResize(s')) && (NoLostWakeup(s) ==> NoLostWakeup(s'))
    ensures n <= s.min ==> (Reserve(s) ==> Reserve(s'))
  {
    WakeupsKept(s, s');
    if n <= s.min {
      ReserveKept(s, s');
    }
  }

  lemma {:induction false} FillGetKeeps(s: State, s': State, t: nat, e: nat)
    requires Safe(s) && BoundsOk(s) && FillGet(s, s', t, e)
    ensures Keeps(s, s')
  {
    ReserveKept(s, s');
    WakeupsKept(s, s');
  }

  /** The element a resize has goes into the pool. */
  lemma {:induction false} FillIn(s: State, s': State, t: nat, e: nat)
    requires Safe(s) && FillLocked(s, s', t, e)
    ensures Safe(s')
  {
    OnlyHolder(s, t, e);
  }

  lemma {:induction false} FillLockedKeeps(s: State, s': State, t: nat, e: nat)
    requires Safe(s) && BoundsOk(s) && FillLocked(s, s', t, e)
    ensures Safe(s') && BoundsOk(s') && (OneResize(s) ==> OneResize(s')) && (Reserve(s) ==> Reserve(s'))
    ensures |s.elems| >= s.min ==> (NoLostWakeup(s) ==> NoLostWakeup(s'))
    ensures t !in s'.threads ==> |s'.elems| == s'.min
  {
    FillIn(s, s', t, e);
    ReserveKept(s, s');
    if |s.elems| >= s.min {
      WakeupsKept(s, s');
    }
  }

  /** An added element leaves somebody forgotten exactly when somebody sleeps and nobody is waking. */
  lemma {:induction false} FillWakeups(s: State, s': State, t: nat, e: nat)
    requires FillLocked(s, s', t, e) && |s.elems| < s.min
    ensures NoLostWakeup(s') <==> !SomeSleeping(s) || SomeWaking(s)
  {
    assert forall u | u != t :: u in s.threads <==> u in s'.threads;
    assert forall u | u in s'.threads && u != t :: s'.threads[u] == s.threads[u];
    if SomeSleeping(s) {
      var u :| u in s.threads && s.threads[u].Sleeping?;
      assert u in s'.threads && s'.threads[u].Sleeping?;
    }
    if SomeWaking(s) {
      var u :| u in s.threads && s.threads[u].Waking?;
      assert u in s'.threads && s'.threads[u].Waking?;
    }
  }
}
