/** Persistent kernel mappings as a protocol between threads.  Each step is what one thread does
    while it holds the kmap lock, or one of the few things it does without it. */
module KmapProtocol {
  const LAST_PKMAP: nat := 512

  /** What a thread inside the kmap code is doing while it does not hold the lock. */
  datatype Thread =
    | Sleeping(page: nat)   // on the wait queue, not runnable
    | Woken(page: nat)      // runnable, still on the wait queue
    | Retrying(page: nat)   // off the wait queue, about to take the lock
    | Waking                // about to call wake_up

  /** Slot counts, the slot of each mapped page, outstanding mappings per page, and the threads. */
  datatype State = State(count: seq<nat>, addr: map<nat, nat>, uses: multiset<nat>, threads: map<nat, Thread>)

  /** The page-to-slot table and the slot counts agree: an injective partial map onto the slots in
      use, whose counts are one more than the number of outstanding mappings. */
  ghost predicate TableOk(s: State) {
    && |s.count| == LAST_PKMAP
    && (forall p | p in s.addr :: s.addr[p] < LAST_PKMAP && s.count[s.addr[p]] == s.uses[p] + 1)
    && (forall p, q | p in s.addr && q in s.addr && s.addr[p] == s.addr[q] :: p == q)
    && (forall i {:trigger HasPage(s.addr, i)} | 0 <= i < LAST_PKMAP && s.count[i] >= 1 :: HasPage(s.addr, i))
    && (forall p | p in s.uses :: p in s.addr)
  }

  /** Slot i belongs to a page. */
  ghost predicate HasPage(addr: map<nat, nat>, i: nat) {
    exists p :: p in addr && addr[p] == i
  }

  ghost predicate AllInUse(count: seq<nat>) {
    forall i | 0 <= i < |count| :: count[i] >= 2
  }

  /** waitqueue_active */
  predicate QueueActive(threads: map<nat, Thread>) {
    exists t :: t in threads && (threads[t].Sleeping? || threads[t].Woken?)
  }

  /** A thread sleeps only while every slot has users, unless a wakeup is on its way. */
  ghost predicate NoLostWakeup(s: State) {
    forall t | t in s.threads && s.threads[t].Sleeping? ::
      AllInUse(s.count) || exists u :: u in s.threads && s.threads[u].Waking?
  }

  ghost predicate Inv(s: State) {
    TableOk(s) && NoLostWakeup(s)
  }

  // ----- the steps

  /** flush_all_zero_pkmaps: slots without users become free and lose their page. */
  function Flushed(count: seq<nat>): (r: seq<nat>)
    ensures |r| == |count|
  {
    seq(|count|, i requires 0 <= i < |count| => if count[i] == 1 then 0 else count[i])
  }

  ghost function Kept(count: seq<nat>, addr: map<nat, nat>): map<nat, nat>
    requires forall p | p in addr :: addr[p] < |count|
  {
    map p | p in addr && count[addr[p]] != 1 :: addr[p]
  }

  ghost function Flush(s: State): State
    requires TableOk(s)
  {
    s.(count := Flushed(s.count), addr := Kept(s.count, s.addr))
  }

  /** A flush leaves no slot at one: what is not free is in use. */
  lemma {:induction false} FlushedInUse(count: seq<nat>)
    requires forall j | 0 <= j < |count| :: Flushed(count)[j] != 0
    ensures AllInUse(Flushed(count))
  {
    forall j | 0 <= j < |count|
      ensures Flushed(count)[j] >= 2
    {
      assert Flushed(count)[j] != 0;
    }
  }

  /** One more mapping of a page at slot i. */
  function Mapped(s: State, p: nat, i: nat, c: nat): State
    requires i < |s.count|
  {
    s.(count := s.count[i := c], addr := s.addr[p := i], uses := s.uses[p := s.uses[p] + 1])
  }

  /** A thread maps page p: at the slot it has, or at a free slot, possibly after a flush. */
  ghost predicate MapStep(s: State, s': State, t: nat, p: nat) {
    && (t in s.threads ==> s.threads[t] == Retrying(p))
    && TableOk(s)
    && if p in s.addr then
         s' == Mapped(s, p, s.addr[p], s.count[s.addr[p]] + 1).(threads := s.threads - {t})
       else
         exists i, r :: FreshSlot(s, r, i) && s' == Mapped(r, p, i, 2).(threads := s.threads - {t})
  }

  /** Slot i is free in r, which is s or s after a flush. */
  ghost predicate FreshSlot(s: State, r: State, i: nat)
    requires TableOk(s)
  {
    (r == s || r == Flush(s)) && i < LAST_PKMAP && r.count[i] == 0
  }

  /** A thread goes to sleep for page p: the flush just done left every slot in use. */
  ghost predicate SleepStep(s: State, s': State, t: nat, p: nat) {
    && (t in s.threads ==> s.threads[t] == Retrying(p))
    && TableOk(s)
    && p !in s.addr
    && AllInUse(Flushed(s.count))
    && s' == Flush(s).(threads := s.threads[t := Sleeping(p)])
  }

  /** A user of page p lets it go; whoever takes the count to one wakes the queue if it is active. */
  ghost predicate UnmapStep(s: State, s': State, t: nat, p: nat) {
    && t !in s.threads && TableOk(s) && s.uses[p] > 0
    && var i := s.addr[p];
       s' == s.(count := s.count[i := s.count[i] - 1], uses := s.uses[p := s.uses[p] - 1],
                threads := if s.count[i] == 2 && QueueActive(s.threads) then s.threads[t := Waking] else s.threads)
  }

  /** wake_up: every sleeper becomes runnable. */
  ghost predicate WakeStep(s: State, s': State, t: nat) {
    && t in s.threads && s.threads[t].Waking?
    && s' == s.(threads := map u | u in s.threads && u != t ::
                  if s.threads[u].Sleeping? then Woken(s.threads[u].page) else s.threads[u])
  }

  /** remove_wait_queue by a woken thread. */
  ghost predicate LeaveStep(s: State, s': State, t: nat) {
    && t in s.threads && s.threads[t].Woken?
    && s' == s.(threads := s.threads[t := Retrying(s.threads[t].page)])
  }

  ghost predicate Step(s: State, s': State) {
    || (exists t, p :: MapStep(s, s', t, p))
    || (exists t, p :: SleepStep(s, s', t, p))
    || (exists t, p :: UnmapStep(s, s', t, p))
    || (exists t :: WakeStep(s, s', t))
    || (exists t :: LeaveStep(s, s', t))
  }

  // ----- what every step keeps

  lemma {:induction false} FlushKeeps(s: State)
    requires TableOk(s)
    ensures TableOk(Flush(s))
    ensures forall p | p in s.addr && s.uses[p] > 0 :: p in Flush(s).addr && Flush(s).addr[p] == s.addr[p]
  {
    var r := Flush(s);
    forall i | 0 <= i < LAST_PKMAP && r.count[i] >= 1
      ensures HasPage(r.addr, i)
    {
      assert HasPage(s.addr, i);
      var p :| p in s.addr && s.addr[p] == i;
      assert p in r.addr && r.addr[p] == i;
    }
  }

  lemma {:induction false} MappedFresh(r: State, p: nat, i: nat)
    requires TableOk(r) && p !in r.addr && i < LAST_PKMAP && r.count[i] == 0
    ensures TableOk(Mapped(r, p, i, 2))
  {
    var s' := Mapped(r, p, i, 2);
    assert r.uses[p] == 0;
    forall j | 0 <= j < LAST_PKMAP && s'.count[j] >= 1
      ensures HasPage(s'.addr, j)
    {
      PageStays(r.addr, p, i, j);
      assert j != i ==> r.count[j] >= 1 && HasPage(r.addr, j);
    }
  }

  lemma {:induction false} PageStays(addr: map<nat, nat>, p: nat, i: nat, j: nat)
    requires p !in addr
    ensures j == i || HasPage(addr, j) ==> HasPage(addr[p := i], j)
  {
    if j == i {
      assert addr[p := i][p] == j;
    } else if HasPage(addr, j) {
      var q :| q in addr && addr[q] == j;
      assert addr[p := i][q] == j;
    }
  }

  lemma {:induction false} MappedAgain(s: State, p: nat)
    requires TableOk(s) && p in s.addr
    ensures TableOk(Mapped(s, p, s.addr[p], s.count[s.addr[p]] + 1))
  {
    var s' := Mapped(s, p, s.addr[p], s.count[s.addr[p]] + 1);
    assert s'.addr == s.addr;
    forall j | 0 <= j < LAST_PKMAP && s'.count[j] >= 1
      ensures HasPage(s'.addr, j)
    {
      if j == s.addr[p] {
        assert p in s'.addr;
      } else {
        assert HasPage(s.addr, j);
        var q :| q in s.addr && s.addr[q] == j;
        assert q in s'.addr;
      }
    }
  }

  /** If a flush leaves every slot in use, it changed nothing. */
  lemma {:induction false} FlushIdle(s: State)
    requires TableOk(s) && AllInUse(Flushed(s.count))
    ensures Flush(s) == s && AllInUse(s.count)
  {
    forall i | 0 <= i < |s.count|
      ensures s.count[i] >= 2
    {
      assert Flushed(s.count)[i] >= 2;
    }
    assert Flush(s).count == s.count && Flush(s).addr == s.addr;
  }

  /** Users keep their slots from s to s'. */
  ghost predicate UsersKept(s: State, s': State) {
    forall q | q in s.addr && s.uses[q] > 0 :: q in s'.addr && s'.addr[q] == s.addr[q]
  }

  lemma {:induction false} NotAllInUse(count: seq<nat>, i: nat)
    requires i < |count| && (count[i] == 0 || Flushed(count)[i] == 0)
    ensures !AllInUse(count)
  {
    assert Flushed(count)[i] == if count[i] == 1 then 0 else count[i];
    assert !(count[i] >= 2);
  }

  lemma {:induction false} FreshTable(s: State, r: State, p: nat, i: nat)
    requires TableOk(s) && FreshSlot(s, r, i) && p !in s.addr
    ensures TableOk(Mapped(r, p, i, 2)) && UsersKept(s, Mapped(r, p, i, 2)) && !AllInUse(s.count)
  {
    FlushKeeps(s);
    MappedFresh(r, p, i);
    NotAllInUse(s.count, i);
  }

  lemma {:induction false} AgainTable(s: State, p: nat)
    requires TableOk(s) && p in s.addr
    ensures var s' := Mapped(s, p, s.addr[p], s.count[s.addr[p]] + 1);
            TableOk(s') && UsersKept(s, s') && (AllInUse(s.count) ==> AllInUse(s'.count))
  {
    MappedAgain(s, p);
  }

  lemma {:induction false} MapTable(s: State, s': State, t: nat, p: nat)
    requires MapStep(s, s', t, p)
    ensures TableOk(s') && UsersKept(s, s')
    ensures AllInUse(s.count) ==> AllInUse(s'.count)
  {
    if p in s.addr {
      AgainTable(s, p);
    } else {
      var i: nat, r :| FreshSlot(s, r, i) && s' == Mapped(r, p, i, 2).(threads := s.threads - {t});
      FreshTable(s, r, p, i);
      assert TableOk(Mapped(r, p, i, 2)) && UsersKept(s, Mapped(r, p, i, 2));
    }
  }

  /** A page that needs a slot can get one, at once or after a flush, exactly while some slot has no users. */
  lemma {:induction false} BlocksExactly(s: State, s': State, t: nat, p: nat)
    requires p !in s.addr && (MapStep(s, s', t, p) || SleepStep(s, s', t, p))
    ensures SleepStep(s, s', t, p) <==> AllInUse(s.count)
    ensures MapStep(s, s', t, p) <==> !AllInUse(s.count)
  {
    if SleepStep(s, s', t, p) {
      FlushIdle(s);
    }
    if MapStep(s, s', t, p) {
      var i: nat, r :| FreshSlot(s, r, i) && s' == Mapped(r, p, i, 2).(threads := s.threads - {t});
      FreshTable(s, r, p, i);
    }
  }

  lemma {:induction false} MapKeeps(s: State, s': State, t: nat, p: nat)
    requires Inv(s) && MapStep(s, s', t, p)
    ensures Inv(s')
  {
    MapTable(s, s', t, p);
    KeepsWaking(s, s');
  }

  /** Threads that disappear or change, other than those about to wake the queue, lose no wakeup. */
  lemma {:induction false} KeepsWaking(s: State, s': State)
    requires NoLostWakeup(s)
    requires AllInUse(s.count) ==> AllInUse(s'.count)
    requires forall u | u in s'.threads && s'.threads[u].Sleeping? :: u in s.threads && s.threads[u].Sleeping?
    requires forall u | u in s.threads && s.threads[u].Waking? :: u in s'.threads && s'.threads[u].Waking?
    ensures NoLostWakeup(s')
  {
    forall u | u in s'.threads && s'.threads[u].Sleeping?
      ensures AllInUse(s'.count) || exists v :: v in s'.threads && s'.threads[v].Waking?
    {
      if !AllInUse(s.count) {
        var v :| v in s.threads && s.threads[v].Waking?;
        assert s'.threads[v].Waking?;
      }
    }
  }

  lemma {:induction false} UnmapTable(s: State, s': State, t: nat, p: nat)
    requires UnmapStep(s, s', t, p)
    ensures TableOk(s')
  {
    assert p in s.uses;
    var i := s.addr[p];
    forall j | 0 <= j < LAST_PKMAP && s'.count[j] >= 1
      ensures HasPage(s'.addr, j)
    {
      assert HasPage(s.addr, j);
      var q :| q in s.addr && s.addr[q] == j;
      assert q in s'.addr;
    }
  }

  lemma {:induction false} UnmapWakes(s: State, s': State, t: nat, p: nat)
    requires NoLostWakeup(s) && UnmapStep(s, s', t, p)
    ensures NoLostWakeup(s')
  {
    assert p in s.uses;
    var i := s.addr[p];
    forall u | u in s'.threads && s'.threads[u].Sleeping?
      ensures AllInUse(s'.count) || exists v :: v in s'.threads && s'.threads[v].Waking?
    {
      assert u in s.threads && QueueActive(s.threads);
      if s.count[i] == 2 {
        assert s'.threads[t].Waking?;
      } else if !AllInUse(s.count) {
        var v :| v in s.threads && s.threads[v].Waking?;
        assert v in s'.threads;
      }
    }
  }

  /** Every step keeps the table and loses no wakeup. */
  lemma {:induction false} StepKeeps(s: State, s': State)
    requires Inv(s) && Step(s, s')
    ensures Inv(s')
  {
    if t, p :| MapStep(s, s', t, p) {
      MapKeeps(s, s', t, p);
    } else if t, p :| UnmapStep(s, s', t, p) {
      UnmapTable(s, s', t, p);
      UnmapWakes(s, s', t, p);
    } else if t, p :| SleepStep(s, s', t, p) {
      FlushIdle(s);
    } else if t :| WakeStep(s, s', t) {
      assert forall u | u in s'.threads :: !s'.threads[u].Sleeping?;
    } else {
      var t :| LeaveStep(s, s', t);
      KeepsWaking(s, s');
    }
  }

  /** The counts once a flush has passed the slots below n. */
  function FlushedTo(count: seq<nat>, n: nat): (r: seq<nat>)
    ensures |r| == |count|
  {
    seq(|count|, i requires 0 <= i < |count| => if i < n && count[i] == 1 then 0 else count[i])
  }

  /** The page table of the slots at that moment. */
  ghost function KeptTo(count: seq<nat>, addr: map<nat, nat>, n: nat): map<nat, nat>
    requires forall p | p in addr :: addr[p] < |count|
  {
    map p | p in addr && !(addr[p] < n && count[addr[p]] == 1) :: addr[p]
  }

  lemma {:induction false} FlushedToEnds(count: seq<nat>)
    ensures FlushedTo(count, 0) == count && FlushedTo(count, |count|) == Flushed(count)
  {
  }

  lemma {:induction false} KeptToEnds(count: seq<nat>, addr: map<nat, nat>)
    requires forall p | p in addr :: addr[p] < |count|
    ensures KeptTo(count, addr, 0) == addr
    ensures KeptTo(count, addr, |count|) == Kept(count, addr)
  {
  }

  /** A flush that has passed the slots below n. */
  ghost function FlushPart(s: State, n: nat): State
    requires TableOk(s)
  {
    s.(count := FlushedTo(s.count, n), addr := KeptTo(s.count, s.addr, n))
  }

  lemma {:induction false} FlushPartEnds(s: State)
    requires TableOk(s)
    ensures FlushPart(s, 0) == s && FlushPart(s, LAST_PKMAP) == Flush(s)
  {
    FlushedToEnds(s.count);
    KeptToEnds(s.count, s.addr);
    assert FlushPart(s, LAST_PKMAP).addr == Flush(s).addr;
  }

  /** What the flush does to the count of slot n. */
  lemma {:induction false} FlushedToStep(count: seq<nat>, n: nat)
    requires n < |count|
    ensures FlushedTo(count, n)[n] == count[n]
    ensures FlushedTo(count, n + 1) == if count[n] == 1 then FlushedTo(count, n)[n := 0] else FlushedTo(count, n)
  {
  }

  /** What the flush does to the table at slot n: the page there, if it has no users, goes. */
  lemma {:induction false} KeptToStep(count: seq<nat>, addr: map<nat, nat>, n: nat, p: nat)
    requires n < |count| && count[n] == 1 && p in addr && addr[p] == n
    requires forall q | q in addr :: addr[q] < |count|
    requires forall q | q in addr && addr[q] == n :: q == p
    ensures p in KeptTo(count, addr, n)
    ensures KeptTo(count, addr, n + 1) == KeptTo(count, addr, n) - {p}
  {
  }

  lemma {:induction false} FlushOne(s: State, n: nat)
    requires TableOk(s) && n < LAST_PKMAP
    ensures FlushedTo(s.count, n)[n] == s.count[n]
    ensures FlushedTo(s.count, n + 1) == if s.count[n] == 1 then FlushedTo(s.count, n)[n := 0] else FlushedTo(s.count, n)
    ensures s.count[n] == 1 ==> HasPage(KeptTo(s.count, s.addr, n), n)
    ensures s.count[n] != 1 ==> KeptTo(s.count, s.addr, n + 1) == KeptTo(s.count, s.addr, n)
    ensures forall p | p in KeptTo(s.count, s.addr, n) && s.addr[p] == n && s.count[n] == 1 ::
              KeptTo(s.count, s.addr, n + 1) == KeptTo(s.count, s.addr, n) - {p}
  {
    FlushedToStep(s.count, n);
    if s.count[n] == 1 {
      assert HasPage(s.addr, n);
      var p :| p in s.addr && s.addr[p] == n;
      KeptToStep(s.count, s.addr, n, p);
      assert p in KeptTo(s.count, s.addr, n);
    } else {
      assert KeptTo(s.count, s.addr, n + 1) == KeptTo(s.count, s.addr, n);
    }
  }

  ghost predicate Init(s: State) {
    s == State(seq(LAST_PKMAP, _ => 0), map[], multiset{}, map[])
  }

  /** Entry k of the trace is followed by a step. */
  ghost predicate Next(trace: seq<State>, k: nat)
    requires k + 1 < |trace|
  {
    Step(trace[k], trace[k + 1])
  }

  /** A run of the system under any interleaving. */
  ghost predicate Run(trace: seq<State>) {
    |trace| > 0 && Init(trace[0]) && forall k: nat {:trigger Next(trace, k)} | k + 1 < |trace| :: Next(trace, k)
  }

  /** In every reachable state the table is consistent and no wakeup is lost. */
  lemma {:induction false} RunSafe(trace: seq<State>, n: nat)
    requires Run(trace) && n < |trace|
    ensures Inv(trace[n])
  {
    if n > 0 {
      RunSafe(trace, n - 1);
      assert Next(trace, n - 1);
      StepKeeps(trace[n - 1], trace[n]);
    }
  }

  /** A page with users keeps its slot in every step, and a slot changes hands only when nobody uses it. */
  lemma {:induction false} StepStable(s: State, s': State, p: nat)
    requires Inv(s) && Step(s, s') && s.uses[p] > 0
    ensures p in s.addr && p in s'.addr && s'.addr[p] == s.addr[p]
  {
    assert p in s.uses;
    if t, q :| MapStep(s, s', t, q) {
      MapTable(s, s', t, q);
    } else if t, q :| SleepStep(s, s', t, q) {
      FlushKeeps(s);
    }
  }

  /** Over any stretch of a run during which a page has users, its address does not change. */
  lemma {:induction false} AddressFixed(trace: seq<State>, a: nat, b: nat, p: nat)
    requires Run(trace) && a <= b < |trace|
    requires forall k | a <= k <= b :: trace[k].uses[p] > 0
    ensures p in trace[a].addr && p in trace[b].addr && trace[a].addr[p] == trace[b].addr[p]
    decreases b
  {
    if a < b {
      AddressFixed(trace, a, b - 1, p);
      RunStable(trace, b - 1, p);
    } else {
      RunSafe(trace, b);
      UsedIsMapped(trace[b], p);
    }
  }

  lemma {:induction false} RunStable(trace: seq<State>, k: nat, p: nat)
    requires Run(trace) && k + 1 < |trace| && trace[k].uses[p] > 0
    ensures p in trace[k].addr && p in trace[k + 1].addr && trace[k + 1].addr[p] == trace[k].addr[p]
  {
    RunSafe(trace, k);
    assert Next(trace, k);
    StepStable(trace[k], trace[k + 1], p);
  }

  lemma {:induction false} UsedIsMapped(s: State, p: nat)
    requires TableOk(s) && s.uses[p] > 0
    ensures p in s.addr
  {
    assert p in s.uses;
  }

  /** A page that leaves its slot in a step had no users and has no slot afterwards. */
  lemma {:induction false} LeavesSlot(s: State, s': State, p: nat)
    requires Inv(s) && Step(s, s') && p in s.addr && (p in s'.addr ==> s'.addr[p] != s.addr[p])
    ensures s.uses[p] == 0 && s.count[s.addr[p]] == 1 && p !in s'.addr
  {
    if s.uses[p] > 0 {
      StepStable(s, s', p);
    }
    if t, q :| MapStep(s, s', t, q) {
      SlotsKept(s, s', t, q, p);
    }
  }

  /** Mapping a page gives no other page a new slot. */
  lemma {:induction false} SlotsKept(s: State, s': State, t: nat, q: nat, p: nat)
    requires MapStep(s, s', t, q) && p in s.addr
    ensures p in s'.addr ==> s'.addr[p] == s.addr[p]
  {
    if q !in s.addr {
      var i: nat, r :| FreshSlot(s, r, i) && s' == Mapped(r, q, i, 2).(threads := s.threads - {t});
      assert p in r.addr ==> r.addr[p] == s.addr[p];
    }
  }

  /** In step k of a run page p, without users, loses slot i to a flush. */
  ghost predicate Vacates(trace: seq<State>, k: nat, p: nat, i: nat)
    requires k + 1 < |trace|
  {
    && p in trace[k].addr && trace[k].addr[p] == i && p !in trace[k + 1].addr
    && trace[k].uses[p] == 0 && i < |trace[k].count| && trace[k].count[i] == 1
  }

  /** A slot that belongs to page p at one time and to page q later, however much later, was flushed in
      between at a moment when p had no users. */
  lemma {:induction false} SlotReuse(trace: seq<State>, a: nat, b: nat, p: nat, q: nat)
    requires Run(trace) && a < b < |trace| && p != q
    requires p in trace[a].addr && q in trace[b].addr && trace[b].addr[q] == trace[a].addr[p]
    ensures exists k :: a <= k < b && Vacates(trace, k, p, trace[a].addr[p])
    decreases b - a
  {
    var i := trace[a].addr[p];
    RunSafe(trace, a);
    assert Next(trace, a);
    if p in trace[a + 1].addr && trace[a + 1].addr[p] == i {
      RunSafe(trace, b);
      SlotReuse(trace, a + 1, b, p, q);
    } else {
      LeavesSlot(trace[a], trace[a + 1], p);
      assert Vacates(trace, a, p, i);
    }
  }
}
