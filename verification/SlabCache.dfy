/** A slab cache: growing, refilling and flushing the array caches, freeing to the slabs, draining,
    shrinking and tuning.  Each method is one stretch of code under the cache's lock, or a sequence
    of such methods run by one thread. */
module SlabCache {
  import opened Bits
  import opened Lists
  import opened SlabStore
  import opened SlabOwners
  import opened SlabSteps
  import opened SlabBatch
  import opened SlabRefill

  const BATCHREFILL_LIMIT: nat := 16
  const BOOT_CPUCACHE_ENTRIES: nat := 1

  predicate TunablesOk(a: ArrayCache) {
    1 <= a.batchcount <= a.limit && |a.entries| <= a.limit
  }

  /** The arrays do not overflow; only the CPU arrays have a batch count of their own. */
  ghost predicate LimitsOk(cpu: seq<ArrayCache>, shared: Option<ArrayCache>) {
    && (forall c | 0 <= c < |cpu| :: TunablesOk(cpu[c]))
    && (shared.Some? ==> |shared.value.entries| <= shared.value.limit)
  }

  ghost predicate ColoursOk(colour: nat, colourNext: nat, slabs: map<nat, Slab>) {
    colourNext < Colours(colour) && forall s | s in slabs :: slabs[s].colour < Colours(colour)
  }

  /** The batch of a refill: at most BATCHREFILL_LIMIT when the array was not used lately. */
  function Batch(ac: ArrayCache): (b: nat)
    ensures ac.touched ==> b == ac.batchcount
    ensures !ac.touched ==> b <= BATCHREFILL_LIMIT && b <= ac.batchcount && (b == BATCHREFILL_LIMIT || b == ac.batchcount)
  {
    if !ac.touched && ac.batchcount > BATCHREFILL_LIMIT then BATCHREFILL_LIMIT else ac.batchcount
  }

  /** The slabs on the partial and free lists have free objects. */
  lemma {:induction false} ListedIsFree(num: nat, m: Store, s: nat)
    requires StoreOk(num, m) && (s in m.free || s in m.partial)
    ensures s in m.slabs && s in m.chain && SlabOk(m.slabs[s], num, m.chain[s]) && m.chain[s] != []
  {
    assert SlabOk(m.slabs[s], num, m.chain[s]);
  }

  lemma {:induction false} RefilledMore(w: Owners, w1: Owners, w2: Owners, e: seq<Obj>, objs: seq<Obj>, c: nat)
    requires MovedTo(w, w1, e, InCpu(c)) && MovedTo(w1, w2, objs, InCpu(c))
    requires forall o | o in e :: PlaceOf(w, o) == InSlab
    requires forall o | o in objs :: PlaceOf(w1, o) == InSlab
    ensures MovedTo(w, w2, e + objs, InCpu(c)) && forall o | o in e + objs :: PlaceOf(w, o) == InSlab
  {
    MovedBoth(w, w1, w2, e, objs, InCpu(c));
    forall o | o in objs
      ensures PlaceOf(w, o) == InSlab
    {
      assert PlaceOf(w1, o) == InSlab;
    }
  }

  /** The end of the shared array becomes the array of CPU c. */
  lemma {:induction false} SharedTaken(num: nat, m: Store, freeObjects: int, a: Arrays, w: Owners, c: nat, avail: nat)
    requires CacheOk(num, m, freeObjects, a, w, 0) && c < |a.cpu| && a.cpu[c].entries == []
    requires a.shared.Some? && avail <= |a.shared.value.entries|
    ensures var sh := a.shared.value;
            var os := sh.entries[avail..];
            var a' := Arrays(a.cpu[c := a.cpu[c].(entries := os)], Some(sh.(entries := sh.entries[..avail], touched := true)), a.transit);
            && CacheOk(num, m, freeObjects, a', Relabel(w, os, InCpu(c)), 0)
            && MovedTo(w, Relabel(w, os, InCpu(c)), os, InCpu(c))
            && (forall o | o in os :: PlaceOf(w, o) == InShared)
  {
    var sh := a.shared.value;
    var pre, os := sh.entries[..avail], sh.entries[avail..];
    var a' := Arrays(a.cpu[c := a.cpu[c].(entries := os)], Some(sh.(entries := pre, touched := true)), a.transit);
    assert sh.entries == pre + os + [] && pre + [] == pre;
    PartOf(a, w, InShared, pre, os, []);
    MoveDone(num, m, freeObjects, a, w, 0, os, InShared, InCpu(c), a', pre, []);
  }

  predicate HasArray(a: Arrays, x: Place) {
    (x.InCpu? && x.cpu < |a.cpu|) || (x.InShared? && a.shared.Some?)
  }

  function ArrayOf(a: Arrays, x: Place): ArrayCache
    requires HasArray(a, x)
  {
    if x.InCpu? then a.cpu[x.cpu] else a.shared.value
  }

  function WithArray(a: Arrays, x: Place, ac: ArrayCache): Arrays
    requires x.InCpu? ==> x.cpu < |a.cpu|
  {
    if x.InCpu? then a.(cpu := a.cpu[x.cpu := ac]) else a.(shared := Some(ac))
  }

  /** The arrays after the first k entries of array x have become the batch to be freed. */
  function Detached(a: Arrays, x: Place, k: nat): Arrays
    requires HasArray(a, x) && k <= |ArrayOf(a, x).entries|
  {
    var ac := ArrayOf(a, x);
    WithArray(a, x, ac.(entries := ac.entries[k..])).(transit := ac.entries[..k])
  }

  lemma {:induction false} DetachedEntries(a: Arrays, x: Place, k: nat)
    requires HasArray(a, x) && k <= |ArrayOf(a, x).entries| && a.transit == []
    ensures Entries(a, x) == ArrayOf(a, x).entries && Entries(Detached(a, x, k), x) == ArrayOf(a, x).entries[k..]
    ensures Entries(a, Freeing) == [] && Entries(Detached(a, x, k), Freeing) == ArrayOf(a, x).entries[..k]
    ensures forall y | IsArray(y) && y != x && y != Freeing :: Entries(Detached(a, x, k), y) == Entries(a, y)
  {
  }

  lemma {:induction false} DetachedOk(num: nat, m: Store, freeObjects: int, a: Arrays, w: Owners, x: Place, k: nat)
    requires CacheOk(num, m, freeObjects, a, w, 0) && HasArray(a, x) && k <= |ArrayOf(a, x).entries| && a.transit == []
    ensures var os := ArrayOf(a, x).entries[..k];
            && CacheOk(num, m, freeObjects, Detached(a, x, k), Relabel(w, os, Freeing), 0)
            && MovedTo(w, Relabel(w, os, Freeing), os, Freeing)
            && (forall o | o in os :: PlaceOf(w, o) == x)
  {
    var l := ArrayOf(a, x).entries;
    var os, post := l[..k], l[k..];
    assert l == [] + os + post && [] + post == post;
    DetachedEntries(a, x, k);
    PartOf(a, w, x, [], os, post);
    MoveDone(num, m, freeObjects, a, w, 0, os, x, Freeing, Detached(a, x, k), [], post);
  }

  /** A new, empty array takes the place of array x, whose entries become the batch to be freed. */
  lemma {:induction false} ReplacedOk(num: nat, m: Store, freeObjects: int, a: Arrays, w: Owners, x: Place, ac: ArrayCache)
    requires CacheOk(num, m, freeObjects, a, w, 0) && a.transit == [] && ac.entries == []
    requires x.InShared? || (x.InCpu? && x.cpu < |a.cpu|)
    ensures var os := Entries(a, x);
            && CacheOk(num, m, freeObjects, WithArray(a, x, ac).(transit := os), Relabel(w, os, Freeing), 0)
            && MovedTo(w, Relabel(w, os, Freeing), os, Freeing)
            && (forall o | o in os :: PlaceOf(w, o) == x)
  {
    var os := Entries(a, x);
    assert os == [] + os + [];
    PartOf(a, w, x, [], os, []);
    MoveDone(num, m, freeObjects, a, w, 0, os, x, Freeing, WithArray(a, x, ac).(transit := os), [], []);
  }

  lemma {:induction false} TouchOnly(num: nat, m: Store, freeObjects: int, a: Arrays, w: Owners, x: Place)
    requires CacheOk(num, m, freeObjects, a, w, 0) && HasArray(a, x)
    ensures CacheOk(num, m, freeObjects, WithArray(a, x, ArrayOf(a, x).(touched := false)), w, 0)
  {
    var a' := WithArray(a, x, ArrayOf(a, x).(touched := false));
    assert forall y | IsArray(y) :: Entries(a', y) == Entries(a, y);
  }

  /** The arrays after cache_flusharray has moved k objects from CPU c to the shared array. */
  function Flushed(a: Arrays, c: nat, k: nat): Arrays
    requires c < |a.cpu| && a.shared.Some? && k <= |a.cpu[c].entries|
  {
    var ac, sh := a.cpu[c], a.shared.value;
    Arrays(a.cpu[c := ac.(entries := ac.entries[k..])], Some(PushAll(sh, ac.entries[..k])), a.transit)
  }

  lemma {:induction false} FlushedOk(num: nat, m: Store, freeObjects: int, a: Arrays, w: Owners, c: nat, k: nat)
    requires CacheOk(num, m, freeObjects, a, w, 0) && c < |a.cpu| && a.shared.Some? && k <= |a.cpu[c].entries|
    ensures var os := a.cpu[c].entries[..k];
            && CacheOk(num, m, freeObjects, Flushed(a, c, k), Relabel(w, os, InShared), 0)
            && MovedTo(w, Relabel(w, os, InShared), os, InShared)
            && (forall o | o in os :: PlaceOf(w, o) == InCpu(c))
  {
    var l := a.cpu[c].entries;
    var os, post := l[..k], l[k..];
    assert l == [] + os + post && [] + post == post;
    PartOf(a, w, InCpu(c), [], os, post);
    MoveDone(num, m, freeObjects, a, w, 0, os, InCpu(c), InShared, Flushed(a, c, k), [], post);
  }

  /** The first k entries of an array have gone: to the end of the shared array as far as it has room, a batch
      at most, or else a whole batch back to the slabs. */
  ghost predicate FrontFlushed(num: nat, limit: nat, ac: ArrayCache, k: nat, sh: Option<ArrayCache>, sh': Option<ArrayCache>,
                               m: Store, f: int, m': Store, f': int) {
    && k <= |ac.entries|
    && if sh.Some? && |sh.value.entries| < sh.value.limit then
         && k == (if ac.batchcount <= sh.value.limit - |sh.value.entries| then ac.batchcount else sh.value.limit - |sh.value.entries|)
         && sh' == Some(sh.value.(entries := sh.value.entries + ac.entries[..k])) && m' == m && f' == f
       else
         k == ac.batchcount && sh' == sh && (m', f') == FreedAll(num, m, f + k, limit, ac.entries[..k])
  }

  /** How much drain_array_locked frees of an array: all of it with force, else part of it, and at
      least one object if there is one. */
  function ToFree(ac: ArrayCache, force: bool): (n: nat)
    ensures n <= |ac.entries|
    ensures force ==> n == |ac.entries|
    ensures ac.entries != [] && ac.limit > 0 ==> n > 0
    ensures !force && ac.limit <= 5 * |ac.entries| ==> 5 * (n - 1) < ac.limit <= 5 * n
    ensures !force && ac.limit > 5 * |ac.entries| ==> |ac.entries| <= 2 * n <= |ac.entries| + 1
  {
    var n := if force then |ac.entries| else (ac.limit + 4) / 5;
    if n > |ac.entries| then (|ac.entries| + 1) / 2 else n
  }

  /** An object in use: with a client, or in the array of a CPU other than c. */
  predicate OutOfReach(w: Owners, o: Obj, c: nat) {
    PlaceOf(w, o) == Live || (PlaceOf(w, o).InCpu? && PlaceOf(w, o).cpu != c)
  }

  /** Emptying the array of CPU c and then the shared array leaves only what is out of reach. */
  lemma {:induction false} Drained(a: Arrays, w: Owners, b: Arrays, w1: Owners, d: Arrays, w2: Owners, c: nat)
    requires ArraysOk(a, w) && ArraysOk(b, w1) && c < |a.cpu| && a.transit == [] && b.shared == a.shared
    requires MovedTo(w, w1, a.cpu[c].entries, InSlab)
    requires if a.shared.Some? then MovedTo(w1, w2, a.shared.value.entries, InSlab) else w2 == w1
    ensures forall o {:trigger PlaceOf(w2, o)} :: PlaceOf(w2, o) == if OutOfReach(w, o, c) then PlaceOf(w, o) else InSlab
  {
    forall o
      ensures PlaceOf(w2, o) == if OutOfReach(w, o, c) then PlaceOf(w, o) else InSlab
    {
      assert PlaceOf(w1, o) == if o in a.cpu[c].entries then InSlab else PlaceOf(w, o);
      assert ListOwns(Entries(a, InCpu(c)), w, InCpu(c));
      assert ListOwns(Entries(a, InShared), w, InShared);
      assert ListOwns(Entries(b, InShared), w1, InShared);
      assert ListOwns(Entries(a, Freeing), w, Freeing);
    }
  }

  /** A slab with an object in use keeps that object somewhere other than on its chain. */
  lemma {:induction false} BusyObject(num: nat, m: Store, freeObjects: int, a: Arrays, w: Owners, s: nat)
    requires CacheOk(num, m, freeObjects, a, w, 0) && (s in m.full || s in m.partial)
    ensures exists o: Obj :: o.slab == s && PlaceOf(w, o) != InSlab
  {
    assert StoreCount(num, m, freeObjects);
    assert SlabOk(m.slabs[s], num, m.chain[s]);
    var i := SomeNotFree(m.slabs[s], num, m.chain[s]);
    assert Obj(s, i) in w;
    assert PlaceOf(w, Obj(s, i)) != InSlab;
  }

  /** The last slab of the free list goes. */
  lemma {:induction false} LastDestroyed(num: nat, m: Store, freeObjects: int, a: Arrays, w: Owners)
    requires CacheOk(num, m, freeObjects, a, w, 0) && m.free != []
    ensures var n := |m.free| - 1;
            var s := m.free[n];
            && CacheOk(num, Store(m.slabs - {s}, m.full, m.partial, m.free[..n], m.chain - {s}), freeObjects - num, a, WithoutSlab(w, s), 0)
            && MovedTo(w, WithoutSlab(w, s), [], InSlab)
  {
    assert StoreCount(num, m, freeObjects);
    UnlinkLast(m.free);
    DestroyDone(num, m, freeObjects, a, w, 0, m.free[|m.free| - 1]);
  }

  /** Without slabs on any list there are no slabs. */
  lemma {:induction false} NoSlabs(num: nat, m: Store, freeObjects: int, a: Arrays, w: Owners)
    requires CacheOk(num, m, freeObjects, a, w, 0) && m.full == [] && m.partial == [] && m.free == []
    ensures m.slabs == map[] && forall o :: PlaceOf(w, o) == InSlab
  {
    assert StoreCount(num, m, freeObjects);
    assert forall s | s in m.slabs :: s in m.full || s in m.partial || s in m.free;
  }

  /** When the arrays that CPU c can reach are empty, the objects off their chains are out of reach. */
  lemma {:induction false} OffChain(a: Arrays, w: Owners, c: nat, o: Obj)
    requires ArraysOk(a, w) && Entries(a, InCpu(c)) == [] && Entries(a, InShared) == [] && Entries(a, Freeing) == []
    ensures OutOfReach(w, o, c) <==> PlaceOf(w, o) != InSlab
  {
    assert ListOwns(Entries(a, InCpu(c)), w, InCpu(c));
    assert ListOwns(Entries(a, InShared), w, InShared);
    assert ListOwns(Entries(a, Freeing), w, Freeing);
  }

  /** What is left after shrinking. */
  lemma {:induction false} ShrunkSlabs(num: nat, m: Store, freeObjects: int, a: Arrays, w: Owners, c: nat)
    requires CacheOk(num, m, freeObjects, a, w, 0) && m.free == []
    requires Entries(a, InCpu(c)) == [] && Entries(a, InShared) == [] && Entries(a, Freeing) == []
    ensures forall s | s in m.slabs :: exists o: Obj :: o.slab == s && OutOfReach(w, o, c)
    ensures m.full == [] && m.partial == [] <==> forall o :: !OutOfReach(w, o, c)
    ensures m.full == [] && m.partial == [] ==> m.slabs == map[]
  {
    forall s | s in m.slabs
      ensures exists o: Obj :: o.slab == s && OutOfReach(w, o, c)
    {
      assert StoreCount(num, m, freeObjects);
      BusyObject(num, m, freeObjects, a, w, s);
      var o: Obj :| o.slab == s && PlaceOf(w, o) != InSlab;
      OffChain(a, w, c, o);
    }
    if m.full == [] && m.partial == [] {
      NoSlabs(num, m, freeObjects, a, w);
    } else {
      assert StoreCount(num, m, freeObjects);
      var s := if m.full != [] then m.full[0] else m.partial[0];
      assert s in m.slabs;
      var o: Obj :| o.slab == s && OutOfReach(w, o, c);
    }
  }

  lemma {:induction false} ShrunkExactly(w: Owners, w': Owners, c: nat)
    requires forall o {:trigger PlaceOf(w', o)} :: PlaceOf(w', o) == if OutOfReach(w, o, c) then PlaceOf(w, o) else InSlab
    ensures forall o :: OutOfReach(w', o, c) <==> OutOfReach(w, o, c)
  {
    forall o
      ensures OutOfReach(w', o, c) <==> OutOfReach(w, o, c)
    {
      assert PlaceOf(w', o) == if OutOfReach(w, o, c) then PlaceOf(w, o) else InSlab;
    }
  }

  /** On one CPU nothing is out of reach but what clients have. */
  lemma {:induction false} OneCpu(num: nat, m: Store, freeObjects: int, a: Arrays, w: Owners, o: Obj)
    requires CacheOk(num, m, freeObjects, a, w, 0) && |a.cpu| == 1
    ensures OutOfReach(w, o, 0) <==> PlaceOf(w, o) == Live
  {
    var x := PlaceOf(w, o);
    if x.InCpu? {
      assert ListOwns(Entries(a, x), w, x);
      assert o in Entries(a, x);
    }
  }

  /** Every object of every slab is in exactly one of: the chain of its slab, one CPU's array, the
      shared array, the hands of a client; and no array or chain lists it twice. */
  lemma {:induction false} ExactlyOnePlace(num: nat, m: Store, freeObjects: int, a: Arrays, w: Owners, o: Obj)
    requires CacheOk(num, m, freeObjects, a, w, 0) && a.transit == []
    requires o.slab in m.slabs && o.slab in m.chain && o.idx < num
    ensures o in w && PlaceOf(w, o) != Freeing
    ensures PlaceOf(w, o) == InSlab <==> o.idx in m.chain[o.slab]
    ensures forall c | 0 <= c < |a.cpu| :: PlaceOf(w, o) == InCpu(c) <==> o in a.cpu[c].entries
    ensures PlaceOf(w, o).InCpu? ==> PlaceOf(w, o).cpu < |a.cpu|
    ensures PlaceOf(w, o) == InShared <==> a.shared.Some? && o in a.shared.value.entries
    ensures NoDup(m.chain[o.slab]) && (forall c | 0 <= c < |a.cpu| :: NoDup(a.cpu[c].entries))
    ensures a.shared.Some? ==> NoDup(a.shared.value.entries)
  {
    assert StoreCount(num, m, freeObjects);
    assert SlabOk(m.slabs[o.slab], num, m.chain[o.slab]);
    assert ListOwns(Entries(a, Freeing), w, Freeing);
    assert ListOwns(Entries(a, InShared), w, InShared);
    forall c | 0 <= c < |a.cpu|
      ensures NoDup(a.cpu[c].entries) && (PlaceOf(w, o) == InCpu(c) <==> o in a.cpu[c].entries)
    {
      assert ListOwns(Entries(a, InCpu(c)), w, InCpu(c));
    }
    if PlaceOf(w, o).InCpu? {
      assert ListOwns(Entries(a, PlaceOf(w, o)), w, PlaceOf(w, o));
      assert o in Entries(a, PlaceOf(w, o));
    }
  }

  lemma {:induction false} NextMultiple(k: nat, n: nat)
    ensures (k + 1) * n == k * n + n
  {
  }

  /** The free objects of full slabs are none, of free slabs all. */
  lemma {:induction false} CountEnds(num: nat, slabs: map<nat, Slab>, list: seq<nat>, free: int)
    requires forall s | s in list :: FreeIn(num, slabs, s) == free
    ensures FreeCount(num, slabs, list) == |list| * free
  {
    if list != [] {
      CountEnds(num, slabs, list[1..], free);
      assert |list| * free == (|list| - 1) * free + free;
    }
  }

  lemma {:induction false} AccountTotals(num: nat, m: Store, active: int)
    requires StoreOk(num, m) && active == |m.full| * num + |m.partial| * num - FreeCount(num, m.slabs, m.partial)
    ensures (|m.full| + |m.partial| + |m.free|) * num - active == TotalFree(num, m)
  {
    assert (|m.full| + |m.partial| + |m.free|) * num == |m.full| * num + |m.partial| * num + |m.free| * num;
    CountEnds(num, m.slabs, m.full, 0);
    CountEnds(num, m.slabs, m.free, num);
  }

  /** The objects es have come from the end of the shared array, max of them or all. */
  ghost predicate TailTaken(sh: ArrayCache, sh': Option<ArrayCache>, es: seq<Obj>, max: nat) {
    var k := if max <= |sh.entries| then max else |sh.entries|;
    es == sh.entries[|sh.entries| - k..] && sh' == Some(sh.(entries := sh.entries[..|sh.entries| - k], touched := true))
  }

  /** Where the objects es of a refill of up to max objects have come from: the shared array if it has any, else
      the slabs. */
  ghost predicate Refilled(m: Store, m': Store, sh: Option<ArrayCache>, sh': Option<ArrayCache>, es: seq<Obj>, max: nat) {
    if sh.Some? && sh.value.entries != [] then m' == m && TailTaken(sh.value, sh', es, max)
    else sh' == sh && SlabsTaken(m, m', es, max)
  }

  /** The same for a refill that may grow the cache: only when there is nothing anywhere do the objects come
      from a new slab. */
  ghost predicate Missed(m: Store, m': Store, sh: Option<ArrayCache>, sh': Option<ArrayCache>, es: seq<Obj>, max: nat, mem: Option<nat>) {
    if (sh.Some? && sh.value.entries != []) || m.partial != [] || m.free != [] then Refilled(m, m', sh, sh', es, max)
    else sh' == sh && mem.Some? && NewSlabTaken(m, m', es, mem.value, max)
  }

  lemma {:induction false} RefilledSome(m: Store, m': Store, sh: Option<ArrayCache>, sh': Option<ArrayCache>, es: seq<Obj>, max: nat, mem: Option<nat>)
    requires Refilled(m, m', sh, sh', es, max) && (max > 0 || es != [])
    ensures if es == [] then m' == m && sh' == sh && m.partial == [] && m.free == [] && (sh.Some? ==> sh.value.entries == [])
            else Missed(m, m', sh, sh', es, max, mem)
  {
  }

  /** A refill of CPU c that began in m, w and cpu has come to m', w' and cpu'. */
  ghost predicate Turned(m: Store, m': Store, w: Owners, w': Owners, cpu: seq<ArrayCache>, cpu': seq<ArrayCache>, c: nat) {
    && c < |cpu| == |cpu'| && cpu' == cpu[c := cpu[c].(entries := cpu'[c].entries)]
    && MovedTo(w, w', cpu'[c].entries, InCpu(c)) && (forall o | o in cpu'[c].entries :: PlaceOf(w, o) == InSlab)
    && SlabsCut(m, m', cpu'[c].entries)
  }

  lemma {:induction false} NoneTurned(m: Store, w: Owners, cpu: seq<ArrayCache>, c: nat)
    requires c < |cpu| && cpu[c].entries == []
    ensures Turned(m, m, w, w, cpu, cpu, c)
  {
    NoneCut(m);
  }

  lemma {:induction false} TurnedMore(num: nat, m: Store, m1: Store, w: Owners, w1: Owners, w2: Owners,
                                      cpu: seq<ArrayCache>, cpu1: seq<ArrayCache>, c: nat, s: nat, objs: seq<Obj>)
    requires Turned(m, m1, w, w1, cpu, cpu1, c) && StoreOk(num, m1)
    requires m1.partial + m1.free != [] && s == (m1.partial + m1.free)[0] && s in m1.slabs && s in m1.chain
    requires 0 < |objs| <= |m1.chain[s]| && objs == ObjsOf(s, m1.chain[s][..|objs|])
    requires MovedTo(w1, w2, objs, InCpu(c)) && forall o | o in objs :: PlaceOf(w1, o) == InSlab
    ensures Turned(m, TakenFrom(num, m1, s, |objs|), w, w2, cpu, cpu1[c := PushAll(cpu1[c], objs)], c)
  {
    PushedMore(cpu, cpu1, c, objs);
    SlabsCutMore(num, m, m1, cpu1[c].entries, s, |objs|);
    RefilledMore(w, w1, w2, cpu1[c].entries, objs, c);
  }

  lemma {:induction false} EmptyNeedsNone(num: nat, m: Store, f: int, a: Arrays, w: Owners, c: nat)
    requires CacheOk(num, m, f, a, w, 0) && c < |a.cpu| && a.cpu[c].entries == []
    ensures CacheOk(num, m, f, a, w, |a.cpu[c].entries|)
  {
  }

  lemma {:induction false} HeadHasObjects(num: nat, m: Store, f: int, a: Arrays, w: Owners, extra: int)
    requires CacheOk(num, m, f, a, w, extra) && m.partial + m.free != []
    ensures StoreOk(num, m) && var s := (m.partial + m.free)[0]; s in m.slabs && s in m.chain && (s in m.partial || s in m.free)
  {
    assert StoreCount(num, m, f - extra);
    var s := (m.partial + m.free)[0];
    assert s in m.partial || s in m.free;
  }

  lemma {:induction false} NumBounds(num: nat, m: Store, freeObjects: int, a: Arrays, w: Owners)
    requires CacheOk(num, m, freeObjects, a, w, 0)
    ensures 0 < num <= SLAB_LIMIT
  {
    assert StoreCount(num, m, freeObjects);
  }

  /** One array grows twice. */
  lemma {:induction false} PushedMore(cpu: seq<ArrayCache>, cpu1: seq<ArrayCache>, c: nat, objs: seq<Obj>)
    requires c < |cpu| == |cpu1| && cpu1 == cpu[c := cpu[c].(entries := cpu1[c].entries)]
    ensures cpu1[c := PushAll(cpu1[c], objs)] == cpu[c := cpu[c].(entries := cpu1[c].entries + objs)]
    ensures cpu1[c := PushAll(cpu1[c], objs)][c].entries == cpu1[c].entries + objs
  {
  }

  /** An array was replaced and the objects of the old one freed. */
  lemma {:induction false} ReplacedEnd(w: Owners, w1: Owners, w2: Owners, os: seq<Obj>)
    requires MovedTo(w, w1, os, Freeing) && MovedTo(w1, w2, os, InSlab) && forall o | o in os :: PlaceOf(w, o) != Live
    ensures MovedTo(w, w2, os, InSlab) && LiveKept(w, w2)
  {
    MovedOn(w, w1, w2, os, Freeing, InSlab);
    MoveKeepsLive(w, w2, os, InSlab);
  }

  lemma {:induction false} MissedSlabs(m: Store, m': Store, sh: Option<ArrayCache>, sh': Option<ArrayCache>, es: seq<Obj>, max: nat, mem: Option<nat>)
    requires Missed(m, m', sh, sh', es, max, mem)
    ensures if (sh.Some? ==> sh.value.entries == []) && m.partial == [] && m.free == []
            then mem.Some? && m'.slabs.Keys == m.slabs.Keys + {mem.value}
            else m'.slabs.Keys == m.slabs.Keys
  {
  }

  /** colour_next after cache_grow. */
  function NextColour(colour: nat, next: nat): nat {
    if next + 1 >= colour then 0 else next + 1
  }

  /** What a miss comes to.  Only when there is nothing anywhere does the cache grow, by the slab mem if there is
      that memory, and the colour move on to grown. */
  ghost predicate Filled(m: Store, m': Store, sh: Option<ArrayCache>, sh': Option<ArrayCache>, ac: ArrayCache, es: seq<Obj>,
                         grown: nat, next: nat, next': nat, mem: Option<nat>, ok: bool) {
    var nothing := m.partial == [] && m.free == [] && (sh.Some? ==> sh.value.entries == []);
    && (ok <==> mem.Some? || !nothing)
    && next' == (if nothing then grown else next)
    && m'.slabs.Keys == (if nothing && mem.Some? then m.slabs.Keys + {mem.value} else m.slabs.Keys)
    && if ok then es != [] && Missed(m, m', sh, sh', es, Batch(ac), mem) else m' == m && sh' == sh && es == []
  }

  lemma {:induction false} FilledOnce(m: Store, m': Store, sh: Option<ArrayCache>, sh': Option<ArrayCache>, ac: ArrayCache, es: seq<Obj>,
                                      grown: nat, next: nat, mem: Option<nat>)
    requires Refilled(m, m', sh, sh', es, Batch(ac)) && es != []
    ensures Filled(m, m', sh, sh', ac, es, grown, next, next, mem, true)
  {
    RefilledSome(m, m', sh, sh', es, Batch(ac), mem);
    MissedSlabs(m, m', sh, sh', es, Batch(ac), mem);
  }

  lemma {:induction false} FilledGrown(m: Store, m1: Store, m': Store, sh: Option<ArrayCache>, sh1: Option<ArrayCache>, sh': Option<ArrayCache>,
                                       ac: ArrayCache, es: seq<Obj>, grown: nat, next: nat, mem: Option<nat>, ok: bool)
    requires Refilled(m, m1, sh, sh1, [], Batch(ac)) && Batch(ac) > 0 && (ok <==> mem.Some?)
    requires if ok then es != [] && Missed(m1, m', sh1, sh', es, Batch(ac), mem) else m' == m1 && sh' == sh1 && es == []
    ensures Filled(m, m', sh, sh', ac, es, grown, next, grown, mem, ok)
  {
    RefilledSome(m, m1, sh, sh1, [], Batch(ac), mem);
    if ok {
      MissedSlabs(m, m', sh, sh', es, Batch(ac), mem);
    }
  }

  /** The refill after the cache has grown. */
  lemma {:induction false} GrownRefilled(num: nat, m: Store, m1: Store, f1: int, a1: Arrays, w1: Owners, m': Store,
                                         sh: Option<ArrayCache>, sh': Option<ArrayCache>, es: seq<Obj>, max: nat, mem: Option<nat>)
    requires CacheOk(num, m1, f1, a1, w1, 0) && m.partial == [] && m.free == [] && (sh.Some? ==> sh.value.entries == [])
    requires mem.Some? && m1.partial == [] && m1.free == [mem.value] && m1.slabs.Keys == m.slabs.Keys + {mem.value}
    requires mem.value in m1.chain && m1.chain[mem.value] == Upto(num) && max > 0
    requires Refilled(m1, m', sh, sh', es, max)
    ensures Missed(m, m', sh, sh', es, max, mem) && es != []
  {
    assert StoreCount(num, m1, f1);
    OnlyNewSlab(num, m, m1, m', es, mem.value, max);
  }

  class Cache {
    const num: nat
    const colour: nat
    var colourNext: nat
    var slabs: map<nat, Slab>
    var full: seq<nat>
    var partial: seq<nat>
    var free: seq<nat>
    var freeObjects: int
    var freeLimit: nat
    var cpu: seq<ArrayCache>
    var shared: Option<ArrayCache>
    ghost var chain: map<nat, seq<nat>>
    ghost var owners: Owners
    ghost var transit: seq<Obj>

    ghost function St(): Store
      reads this`slabs, this`full, this`partial, this`free, this`chain
    {
      Store(slabs, full, partial, free, chain)
    }

    ghost function Arr(): Arrays
      reads this`cpu, this`shared, this`transit
    {
      Arrays(cpu, shared, transit)
    }

    ghost predicate Ok(extra: int)
      reads this`slabs, this`full, this`partial, this`free, this`chain, this`cpu, this`shared, this`transit, this`freeObjects, this`owners
    {
      CacheOk(num, St(), freeObjects, Arr(), owners, extra)
    }

    ghost predicate Valid()
      reads this
    {
      Ok(0) && transit == [] && LimitsOk(cpu, shared) && ColoursOk(colour, colourNext, slabs)
    }

    /** A cache as kmem_cache_create leaves it before its array caches are tuned. */
    constructor (num: nat, colour: nat, cpus: nat)
      requires 0 < num <= SLAB_LIMIT
      ensures Valid() && this.num == num && this.colour == colour && |cpu| == cpus && owners == map[]
      ensures slabs == map[] && freeObjects == 0 && colourNext == 0 && shared == None && freeLimit == 1 + cpus + num
      ensures forall c | 0 <= c < cpus :: cpu[c] == ArrayCache([], 1, 1, true)
    {
      this.num := num;
      this.colour := colour;
      colourNext := 0;
      slabs := map[];
      full, partial, free := [], [], [];
      freeObjects := 0;
      freeLimit := (1 + cpus) * 1 + num;
      cpu := seq(cpus, _ => ArrayCache([], BOOT_CPUCACHE_ENTRIES, 1, true));
      shared := None;
      chain := map[];
      owners := map[];
      transit := [];
    }

    /** The body of the loop of free_block.  The slab goes exactly when it has no object in use any more and
        the cache has more free objects than its limit; otherwise it goes to the head of the free list or to
        the end of the partial list. */
    method FreeToSlab(o: Obj)
      requires o.slab in slabs && o.slab in chain && o.idx < |slabs[o.slab].bufctl| && 0 < slabs[o.slab].inuse <= num
      modifies this`slabs, this`full, this`partial, this`free, this`freeObjects, this`chain
      ensures o.slab !in slabs <==> old(slabs)[o.slab].inuse == 1 && old(freeObjects) > freeLimit
      ensures ObjectBack(num, freeLimit, old(St()), old(freeObjects), o, St(), freeObjects)
      ensures old(ColoursOk(colour, colourNext, slabs)) ==> ColoursOk(colour, colourNext, slabs)
    {
      var s := o.slab;
      full, partial, free := Unlink(full, s), Unlink(partial, s), Unlink(free, s);
      var sl := slabs[s];
      sl := sl.(bufctl := sl.bufctl[o.idx := sl.free]);
      sl := sl.(free := o.idx, inuse := sl.inuse - 1);
      slabs, chain := slabs[s := sl], chain[s := [o.idx] + chain[s]];
      if sl.inuse == 0 {
        if freeObjects > freeLimit {
          freeObjects := freeObjects - num;
          slabs, chain := slabs - {s}, chain - {s};
        } else {
          free := [s] + free;
        }
      } else {
        partial := partial + [s];
      }
    }

    /** One object of the batch, with what it does to the whole state. */
    method FreeOne(o: Obj, ghost extra: int)
      requires Ok(extra) && transit != [] && transit[0] == o && ColoursOk(colour, colourNext, slabs)
      modifies this`slabs, this`full, this`partial, this`free, this`freeObjects, this`chain, this`owners, this`transit
      ensures Ok(extra - 1) && ColoursOk(colour, colourNext, slabs)
      ensures transit == old(transit)[1..] && MovedTo(old(owners), owners, [o], InSlab)
      ensures (St(), freeObjects) == FreedOne(num, old(St()), old(freeObjects), freeLimit, o)
    {
      ghost var w := FreeOneDone(num, St(), freeObjects, freeLimit, Arr(), owners, extra, o);
      transit, owners := transit[1..], w;
      ghost var m, f := St(), freeObjects;
      FreeToSlab(o);
      BackIsFreed(num, freeLimit, m, f, o, St(), freeObjects);
    }

    /** free_block: every slab gets its objects of the batch back.  The count of free objects already includes
        the batch when it is compared with the limit: a slab that the batch has put on the free list means
        that the limit is kept, and one that has gone that it would not be kept with that slab. */
    method FreeBlock(objs: seq<Obj>)
      requires Ok(0) && transit == objs && ColoursOk(colour, colourNext, slabs)
      modifies this`slabs, this`full, this`partial, this`free, this`freeObjects, this`chain, this`owners, this`transit
      ensures Ok(0) && ColoursOk(colour, colourNext, slabs)
      ensures transit == [] && MovedTo(old(owners), owners, objs, InSlab)
      ensures (St(), freeObjects) == FreedAll(num, old(St()), old(freeObjects) + |objs|, freeLimit, objs)
      ensures forall s | s in free && s !in old(free) :: freeObjects <= freeLimit
      ensures forall s | s in old(slabs) && s !in slabs :: freeObjects + num > freeLimit
    {
      ghost var m, f, a, w := St(), freeObjects + |objs|, Arr(), owners;
      FreeBatch(objs);
      FreeListAfter(num, freeLimit, m, f, a, w, objs, St(), freeObjects, Arr(), owners);
    }

    /** The loop of free_block. */
    method FreeBatch(objs: seq<Obj>)
      requires Ok(0) && transit == objs && ColoursOk(colour, colourNext, slabs)
      modifies this`slabs, this`full, this`partial, this`free, this`freeObjects, this`chain, this`owners, this`transit
      ensures Ok(0) && ColoursOk(colour, colourNext, slabs)
      ensures transit == [] && MovedTo(old(owners), owners, objs, InSlab)
      ensures (St(), freeObjects) == FreedAll(num, old(St()), old(freeObjects) + |objs|, freeLimit, objs)
    {
      freeObjects := freeObjects + |objs|;
      for i := 0 to |objs|
        invariant Ok(|objs| - i) && transit == objs[i..] && ColoursOk(colour, colourNext, slabs)
        invariant MovedTo(old(owners), owners, objs[..i], InSlab)
        invariant FreedAll(num, St(), freeObjects, freeLimit, objs[i..]) ==
                  FreedAll(num, old(St()), old(freeObjects) + |objs|, freeLimit, objs)
      {
        ghost var w1 := owners;
        FreeOne(objs[i], |objs| - i);
        MovedMore(old(owners), w1, owners, objs, i, InSlab);
      }
      assert objs[..|objs|] == objs;
    }

    /** cache_grow; mem is the memory the page allocator has for a new slab, if any. */
    method Grow(mem: Option<nat>) returns (ok: bool)
      requires Valid() && (mem.Some? ==> mem.value !in slabs)
      modifies this`slabs, this`free, this`freeObjects, this`chain, this`owners, this`colourNext
      ensures Valid() && ok == mem.Some?
      ensures MovedTo(old(owners), owners, [], InSlab)
      ensures !ok ==> St() == old(St())
      ensures ok ==> free == old(free) + [mem.value] && mem.value in slabs && slabs == old(slabs)[mem.value := slabs[mem.value]]
      ensures ok ==> slabs[mem.value].colour == old(colourNext)
      ensures ok ==> full == old(full) && partial == old(partial) && mem.value in chain && chain[mem.value] == Upto(num)
      ensures colourNext == if old(colourNext) + 1 >= colour then 0 else old(colourNext) + 1
    {
      var c := colourNext;
      colourNext := colourNext + 1;
      if colourNext >= colour {
        colourNext := 0;
      }
      if mem.None? {
        return false;
      }
      LinkSlab(mem.value, c);
      ok := true;
    }

    /** A new slab with the given colour, all of whose objects are free. */
    method LinkSlab(s: nat, c: nat)
      requires Ok(0) && s !in slabs
      modifies this`slabs, this`free, this`freeObjects, this`chain, this`owners
      ensures Ok(0) && MovedTo(old(owners), owners, [], InSlab)
      ensures free == old(free) + [s] && s in slabs && slabs == old(slabs)[s := slabs[s]] && slabs[s].colour == c
      ensures s in chain && chain[s] == Upto(num)
    {
      NumBounds(num, St(), freeObjects, Arr(), owners);
      var sl := InitObjs(num, c);
      ghost var m := St();
      GrowDone(num, m, freeObjects, Arr(), owners, 0, s, sl);
      slabs, chain := slabs[s := sl], chain[s := Upto(num)];
      free := free + [s];
      freeObjects := freeObjects + num;
      owners := WithSlab(owners, s, num);
      assert St() == Relist(num, m, s, sl, Upto(num), Tail);
    }

    /** One turn of the outer loop of cache_alloc_refill: slab s gives what it can. */
    method TakeFromSlab(c: nat, s: nat, batch: nat) returns (objs: seq<Obj>, left: int)
      requires num <= SLAB_LIMIT && s in slabs && s in chain && SlabOk(slabs[s], num, chain[s])
      requires c < |cpu| && batch > 0 && chain[s] != []
      modifies this`slabs, this`full, this`partial, this`free, this`chain, this`cpu
      ensures 0 < |objs| <= |old(chain)[s]| && objs == ObjsOf(s, old(chain)[s][..|objs|])
      ensures |objs| == batch - (if left < 0 then 0 else left) && left < batch
      ensures left > 0 ==> |objs| == |old(chain)[s]|
      ensures cpu == old(cpu)[c := PushAll(old(cpu)[c], objs)]
      ensures St() == TakenFrom(num, old(St()), s, |objs|)
      ensures full == (if |objs| == |old(chain)[s]| then [s] else []) + Unlink(old(full), s)
      ensures partial == (if |objs| < |old(chain)[s]| then [s] else []) + Unlink(old(partial), s)
      ensures old(ColoursOk(colour, colourNext, slabs)) ==> ColoursOk(colour, colourNext, slabs)
    {
      var sl, idxs;
      sl, idxs, left := TakeObjects(slabs[s], num, batch, chain[s]);
      objs := ObjsOf(s, idxs);
      TakenOk(slabs[s], num, chain[s], |objs|);
      assert sl.free == BUFCTL_END <==> sl.inuse == num;
      cpu := cpu[c := PushAll(cpu[c], objs)];
      slabs, chain := slabs[s := sl], chain[s := chain[s][|objs|..]];
      full, partial, free := Unlink(full, s), Unlink(partial, s), Unlink(free, s);
      if sl.free == BUFCTL_END {
        full := [s] + full;
      } else {
        partial := [s] + partial;
      }
    }

    /** The same with what it does to the whole state. */
    method RefillFrom(c: nat, s: nat, batch: nat, ghost extra: int) returns (objs: seq<Obj>, left: int)
      requires Ok(extra) && ColoursOk(colour, colourNext, slabs) && c < |cpu| && batch > 0 && (s in free || s in partial)
      modifies this`slabs, this`full, this`partial, this`free, this`chain, this`owners, this`cpu
      ensures |objs| == batch - (if left < 0 then 0 else left) && left < batch
      ensures cpu == old(cpu)[c := PushAll(old(cpu)[c], objs)]
      ensures Ok(extra + |objs|) && ColoursOk(colour, colourNext, slabs)
      ensures s in old(slabs) && s in old(chain) && 0 < |objs| <= |old(chain)[s]| && St() == TakenFrom(num, old(St()), s, |objs|)
      ensures objs == ObjsOf(s, old(chain)[s][..|objs|])
      ensures MovedTo(old(owners), owners, objs, InCpu(c)) && forall o | o in objs :: PlaceOf(old(owners), o) == InSlab
    {
      assert StoreCount(num, St(), freeObjects - extra);
      ListedIsFree(num, St(), s);
      ghost var m, a, w := St(), Arr(), owners;
      objs, left := TakeFromSlab(c, s, batch);
      TakeDone(num, m, freeObjects, a, w, extra, s, |objs|, c);
      owners := Relabel(owners, objs, InCpu(c));
    }

    /** The locked part of cache_alloc_refill, for an empty array. */
    method Refill(c: nat)
      requires Valid() && c < |cpu| && cpu[c].entries == []
      modifies this`slabs, this`full, this`partial, this`free, this`freeObjects, this`chain, this`owners, this`cpu, this`shared
      ensures Valid() && |cpu| == |old(cpu)| && cpu == old(cpu)[c := old(cpu)[c].(entries := cpu[c].entries)]
      ensures MovedTo(old(owners), owners, cpu[c].entries, InCpu(c))
      ensures forall o | o in cpu[c].entries :: PlaceOf(old(owners), o) == InSlab || PlaceOf(old(owners), o) == InShared
      ensures Refilled(old(St()), St(), old(shared), shared, cpu[c].entries, Batch(old(cpu)[c]))
    {
      var batch: int := cpu[c].batchcount;
      if !cpu[c].touched && batch > BATCHREFILL_LIMIT {
        batch := BATCHREFILL_LIMIT;
      }
      if shared.Some? && |shared.value.entries| > 0 {
        RefillFromShared(c, batch);
        return;
      }
      RefillFromSlabs(c, batch);
    }

    /** cache_alloc_refill takes objects from partly used slabs, then from free ones. */
    method RefillFromSlabs(c: nat, max: nat)
      requires Valid() && c < |cpu| && cpu[c].entries == [] && 0 < max <= cpu[c].limit
      modifies this`slabs, this`full, this`partial, this`free, this`freeObjects, this`chain, this`owners, this`cpu
      ensures Valid() && |cpu| == |old(cpu)| && cpu == old(cpu)[c := old(cpu)[c].(entries := cpu[c].entries)]
      ensures MovedTo(old(owners), owners, cpu[c].entries, InCpu(c))
      ensures forall o | o in cpu[c].entries :: PlaceOf(old(owners), o) == InSlab
      ensures SlabsTaken(old(St()), St(), cpu[c].entries, max)
    {
      EmptyNeedsNone(num, St(), freeObjects, Arr(), owners, c);
      TakeFromLists(c, max);
      freeObjects := freeObjects - |cpu[c].entries|;
      assert CacheOk(num, St(), freeObjects, Arr(), owners, 0);
    }

    /** The loop of cache_alloc_refill over the partial and free lists. */
    method TakeFromLists(c: nat, max: nat)
      requires c < |cpu| && cpu[c].entries == [] && Ok(|cpu[c].entries|) && ColoursOk(colour, colourNext, slabs)
      modifies this`slabs, this`full, this`partial, this`free, this`chain, this`owners, this`cpu
      ensures c < |cpu| && Ok(|cpu[c].entries|) && ColoursOk(colour, colourNext, slabs)
      ensures Turned(old(St()), St(), old(owners), owners, old(cpu), cpu, c)
      ensures |cpu[c].entries| <= max && (|cpu[c].entries| < max ==> partial == [] && free == [])
    {
      var batch: int := max;
      NoneTurned(St(), owners, cpu, c);
      while batch > 0
        invariant c < |cpu| && Ok(|cpu[c].entries|) && ColoursOk(colour, colourNext, slabs)
        invariant Turned(old(St()), St(), old(owners), owners, old(cpu), cpu, c)
        invariant |cpu[c].entries| == max - if batch < 0 then 0 else batch
        decreases batch
      {
        var s := NextSlab();
        if s.None? {
          break;
        }
        batch := RefillTurn(c, s.value, batch, old(St()), old(owners), old(cpu));
      }
    }

    /** The slab that the next objects come from: partly used ones first. */
    method NextSlab() returns (s: Option<nat>)
      ensures s == if partial != [] then Some(partial[0]) else if free != [] then Some(free[0]) else None
    {
      if partial == [] {
        if free == [] {
          return None;
        }
        return Some(free[0]);
      }
      s := Some(partial[0]);
    }

    /** One turn of the loop of cache_alloc_refill; the refill began in m0, w0 and cpu0. */
    method RefillTurn(c: nat, s: nat, batch: nat, ghost m0: Store, ghost w0: Owners, ghost cpu0: seq<ArrayCache>) returns (left: int)
      requires c < |cpu| && Ok(|cpu[c].entries|) && ColoursOk(colour, colourNext, slabs) && batch > 0
      requires if partial != [] then s == partial[0] else free != [] && s == free[0]
      requires Turned(m0, St(), w0, owners, cpu0, cpu, c)
      modifies this`slabs, this`full, this`partial, this`free, this`chain, this`owners, this`cpu
      ensures c < |cpu| && Ok(|cpu[c].entries|) && ColoursOk(colour, colourNext, slabs)
      ensures Turned(m0, St(), w0, owners, cpu0, cpu, c)
      ensures |cpu[c].entries| == |old(cpu)[c].entries| + batch - (if left < 0 then 0 else left) && left < batch
    {
      ghost var w1, m1, cpu1 := owners, St(), cpu;
      HeadHasObjects(num, m1, freeObjects, Arr(), owners, |cpu[c].entries|);
      var objs;
      objs, left := RefillFrom(c, s, batch, |cpu[c].entries|);
      TurnedMore(num, m0, m1, w0, w1, owners, cpu0, cpu1, c, s, objs);
    }

    /** cache_alloc_refill takes the objects at the end of the shared array. */
    method RefillFromShared(c: nat, max: nat)
      requires Valid() && c < |cpu| && cpu[c].entries == [] && 0 < max <= cpu[c].limit
      requires shared.Some? && |shared.value.entries| > 0
      modifies this`owners, this`cpu, this`shared
      ensures Valid() && |cpu| == |old(cpu)| && cpu == old(cpu)[c := old(cpu)[c].(entries := cpu[c].entries)]
      ensures MovedTo(old(owners), owners, cpu[c].entries, InCpu(c))
      ensures forall o | o in cpu[c].entries :: PlaceOf(old(owners), o) == InShared
      ensures TailTaken(old(shared).value, shared, cpu[c].entries, max)
    {
      var sh := shared.value;
      var batch := max;
      if batch > |sh.entries| {
        batch := |sh.entries|;
      }
      var avail := |sh.entries| - batch;
      SharedTaken(num, St(), freeObjects, Arr(), owners, c, avail);
      var os := sh.entries[avail..];
      shared := Some(sh.(entries := sh.entries[..avail], touched := true));
      cpu := cpu[c := cpu[c].(entries := os)];
      owners := Relabel(owners, os, InCpu(c));
    }

    /** The last entry of the array of CPU c goes to the client. */
    method Pop(c: nat) returns (o: Obj)
      requires Valid() && c < |cpu| && cpu[c].entries != []
      modifies this`cpu, this`owners
      ensures Valid() && |cpu| == |old(cpu)|
      ensures cpu == old(cpu)[c := old(cpu)[c].(entries := cpu[c].entries, touched := true)]
      ensures old(cpu)[c].entries == cpu[c].entries + [o]
      ensures PlaceOf(old(owners), o) == InCpu(c) && LiveGained(old(owners), owners, o)
    {
      var ac := cpu[c];
      var n := |ac.entries| - 1;
      o := ac.entries[n];
      ghost var a := Arr();
      assert ac.entries == ac.entries[..n] + [o] + [] && ac.entries[..n] + [] == ac.entries[..n];
      cpu := cpu[c := ac.(entries := ac.entries[..n], touched := true)];
      PartOf(a, owners, InCpu(c), ac.entries[..n], [o], []);
      MoveDone(num, St(), freeObjects, a, owners, 0, [o], InCpu(c), Live, Arr(), ac.entries[..n], []);
      owners := Relabel(owners, [o], Live);
    }

    /** Nothing that CPU c could hand out without a new slab. */
    ghost predicate NothingFor(c: nat)
      requires c < |cpu|
      reads this
    {
      cpu[c].entries == [] && partial == [] && free == [] && (shared.Some? ==> shared.value.entries == [])
    }

    /** The end of cache_alloc_refill when no object was found: grow the cache and try again. */
    method GrowAndRefill(c: nat, mem: Option<nat>) returns (ok: bool)
      requires Valid() && c < |cpu| && NothingFor(c) && (mem.Some? ==> mem.value !in slabs)
      modifies this
      ensures Valid() && |cpu| == |old(cpu)| && LiveKept(old(owners), owners)
      ensures ok == mem.Some?
      ensures cpu == old(cpu)[c := old(cpu)[c].(entries := cpu[c].entries)]
      ensures ok ==> Missed(old(St()), St(), old(shared), shared, cpu[c].entries, Batch(old(cpu)[c]), mem)
      ensures !ok ==> St() == old(St()) && shared == old(shared) && cpu[c].entries == []
      ensures colourNext == NextColour(colour, old(colourNext)) && (ok ==> cpu[c].entries != [])
    {
      ghost var w, m := owners, St();
      ok := Grow(mem);
      ghost var w1 := owners;
      MoveKeepsLive(w, w1, [], InSlab);
      if ok {
        RefillGrown(c, m, mem);
        LiveTwice(w, w1, owners);
      }
    }

    /** The refill after the cache, which had nothing to hand out in m, has grown. */
    method RefillGrown(c: nat, ghost m: Store, ghost mem: Option<nat>)
      requires Valid() && c < |cpu| && cpu[c].entries == [] && (shared.Some? ==> shared.value.entries == [])
      requires m.partial == [] && m.free == [] && mem.Some? && slabs.Keys == m.slabs.Keys + {mem.value}
      requires partial == [] && free == [mem.value] && mem.value in chain && chain[mem.value] == Upto(num)
      modifies this`slabs, this`full, this`partial, this`free, this`freeObjects, this`chain, this`owners, this`cpu, this`shared
      ensures Valid() && |cpu| == |old(cpu)| && LiveKept(old(owners), owners)
      ensures cpu == old(cpu)[c := old(cpu)[c].(entries := cpu[c].entries)]
      ensures Missed(m, St(), old(shared), shared, cpu[c].entries, Batch(old(cpu)[c]), mem) && cpu[c].entries != []
    {
      ghost var m1, f1, a1, w1 := St(), freeObjects, Arr(), owners;
      Refill(c);
      GrownRefilled(num, m, m1, f1, a1, w1, St(), old(shared), shared, cpu[c].entries, Batch(old(cpu)[c]), mem);
      MoveKeepsLive(w1, owners, cpu[c].entries, InCpu(c));
    }

    /** __cache_alloc on CPU c.  It fails exactly when there is nothing to hand out and no memory
        for a new slab; the object it returns was with no client before. */
    method Alloc(c: nat, mem: Option<nat>) returns (obj: Option<Obj>)
      requires Valid() && c < |cpu| && (mem.Some? ==> mem.value !in slabs)
      modifies this
      ensures Valid() && |cpu| == |old(cpu)|
      ensures obj.None? <==> mem.None? && old(NothingFor(c))
      ensures obj.Some? ==> PlaceOf(old(owners), obj.value) != Live && LiveGained(old(owners), owners, obj.value)
      ensures obj.None? ==> LiveKept(old(owners), owners)
      ensures obj.Some? && old(cpu)[c].entries == [] ==>
                && cpu == old(cpu)[c := old(cpu)[c].(entries := cpu[c].entries, touched := true)]
                && Missed(old(St()), St(), old(shared), shared, cpu[c].entries + [obj.value], Batch(old(cpu)[c]), mem)
      ensures colourNext == if !old(NothingFor(c)) then old(colourNext) else if old(colourNext) + 1 >= colour then 0 else old(colourNext) + 1
      ensures obj.None? ==> St() == old(St()) && shared == old(shared) && cpu == old(cpu)
      ensures slabs.Keys == if old(NothingFor(c)) && mem.Some? then old(slabs.Keys) + {mem.value} else old(slabs.Keys)
      ensures old(cpu)[c].entries != [] ==>
                && obj == Some(old(cpu)[c].entries[|old(cpu)[c].entries| - 1]) && St() == old(St()) && shared == old(shared)
                && cpu == old(cpu)[c := old(cpu)[c].(entries := cpu[c].entries, touched := true)]
    {
      ghost var w := owners;
      if cpu[c].entries == [] {
        var ok := FillArray(c, mem);
        if !ok {
          return None;
        }
      }
      ghost var w1 := owners;
      var o := Pop(c);
      LiveThenGained(w, w1, owners, o);
      assert PlaceOf(w1, o) != Live;
      obj := Some(o);
    }

    /** cache_alloc_refill up to the point where it takes an object. */
    method FillArray(c: nat, mem: Option<nat>) returns (ok: bool)
      requires Valid() && c < |cpu| && cpu[c].entries == [] && (mem.Some? ==> mem.value !in slabs)
      modifies this
      ensures Valid() && |cpu| == |old(cpu)| && LiveKept(old(owners), owners)
      ensures cpu == old(cpu)[c := old(cpu)[c].(entries := cpu[c].entries)]
      ensures Filled(old(St()), St(), old(shared), shared, old(cpu)[c], cpu[c].entries, NextColour(colour, old(colourNext)),
                     old(colourNext), colourNext, mem, ok)
    {
      ghost var m, sh, ac, next := St(), shared, cpu[c], colourNext;
      ok := RefillOnce(c);
      if !ok {
        ok := GrowAndRefill(c, mem);
        FilledGrown(m, m, St(), sh, sh, shared, ac, cpu[c].entries, NextColour(colour, next), next, mem, ok);
      } else {
        FilledOnce(m, St(), sh, shared, ac, cpu[c].entries, NextColour(colour, next), next, mem);
      }
    }

    /** The first try of cache_alloc_refill: nothing has changed if it finds nothing. */
    method RefillOnce(c: nat) returns (ok: bool)
      requires Valid() && c < |cpu| && cpu[c].entries == []
      modifies this`slabs, this`full, this`partial, this`free, this`freeObjects, this`chain, this`owners, this`cpu, this`shared
      ensures Valid() && |cpu| == |old(cpu)| && LiveKept(old(owners), owners)
      ensures ok ==> cpu[c].entries != [] && cpu == old(cpu)[c := old(cpu)[c].(entries := cpu[c].entries)]
      ensures ok ==> Refilled(old(St()), St(), old(shared), shared, cpu[c].entries, Batch(old(cpu)[c]))
      ensures !ok ==> St() == old(St()) && shared == old(shared) && cpu == old(cpu) && NothingFor(c)
      ensures !ok ==> Refilled(old(St()), St(), old(shared), shared, [], Batch(old(cpu)[c]))
    {
      ghost var w := owners;
      Refill(c);
      MoveKeepsLive(w, owners, cpu[c].entries, InCpu(c));
      RefilledSome(old(St()), St(), old(shared), shared, cpu[c].entries, Batch(old(cpu)[c]), None);
      ok := cpu[c].entries != [];
    }

    /** free_block of the first k entries of an array cache, which leave the array.  Nothing looks at
        the array in between. */
    method FreeFront(x: Place, k: nat)
      requires Valid() && HasArray(Arr(), x) && k <= |ArrayOf(Arr(), x).entries|
      modifies this`slabs, this`full, this`partial, this`free, this`freeObjects, this`chain, this`owners, this`transit, this`cpu, this`shared
      ensures Valid()
      ensures var ac := old(ArrayOf(Arr(), x));
              && Arr() == WithArray(old(Arr()), x, ac.(entries := ac.entries[k..]))
              && MovedTo(old(owners), owners, ac.entries[..k], InSlab)
              && (St(), freeObjects) == FreedAll(num, old(St()), old(freeObjects) + k, freeLimit, ac.entries[..k])
              && forall o | o in ac.entries[..k] :: PlaceOf(old(owners), o) == x
    {
      ghost var w := owners;
      DetachedOk(num, St(), freeObjects, Arr(), w, x, k);
      var objs;
      if x.InCpu? {
        objs := cpu[x.cpu].entries[..k];
        cpu := cpu[x.cpu := cpu[x.cpu].(entries := cpu[x.cpu].entries[k..])];
      } else {
        objs := shared.value.entries[..k];
        shared := Some(shared.value.(entries := shared.value.entries[k..]));
      }
      transit := objs;
      owners := Relabel(w, objs, Freeing);
      ghost var w1 := owners;
      FreeBlock(objs);
      MovedOn(w, w1, owners, objs, Freeing, InSlab);
    }

    /** cache_flusharray: a batch from the front of the array goes to the shared array, as far as
        there is room, or else back to the slabs. */
    method FlushArray(c: nat)
      requires Valid() && c < |cpu| && cpu[c].batchcount <= |cpu[c].entries|
      modifies this`slabs, this`full, this`partial, this`free, this`freeObjects, this`chain, this`owners, this`transit, this`cpu, this`shared
      ensures Valid() && LiveKept(old(owners), owners)
      ensures |cpu| == |old(cpu)| && |cpu[c].entries| < |old(cpu)[c].entries|
      ensures var k := |old(cpu)[c].entries| - |cpu[c].entries|;
              && cpu == old(cpu)[c := old(cpu)[c].(entries := old(cpu)[c].entries[k..])]
              && FrontFlushed(num, freeLimit, old(cpu)[c], k, old(shared), shared, old(St()), old(freeObjects), St(), freeObjects)
    {
      var batch := cpu[c].batchcount;
      ghost var w := owners;
      if shared.Some? {
        var max := shared.value.limit - |shared.value.entries|;
        if max != 0 {
          if batch > max {
            batch := max;
          }
          FlushedOk(num, St(), freeObjects, Arr(), owners, c, batch);
          var objs := cpu[c].entries[..batch];
          shared := Some(PushAll(shared.value, objs));
          cpu := cpu[c := cpu[c].(entries := cpu[c].entries[batch..])];
          owners := Relabel(owners, objs, InShared);
          MoveKeepsLive(w, owners, objs, InShared);
          return;
        }
      }
      ghost var objs := cpu[c].entries[..batch];
      FreeFront(InCpu(c), batch);
      MoveKeepsLive(w, owners, objs, InSlab);
    }

    /** __cache_free on CPU c of an object that a client holds. */
    method Release(c: nat, o: Obj)
      requires Valid() && c < |cpu| && PlaceOf(owners, o) == Live
      modifies this
      ensures Valid() && PlaceOf(owners, o) == InCpu(c) && LiveGained(owners, old(owners), o)
      ensures |old(cpu)[c].entries| < old(cpu)[c].limit ==>
                && cpu == old(cpu)[c := old(cpu)[c].(entries := old(cpu)[c].entries + [o])]
                && shared == old(shared) && St() == old(St()) && freeObjects == old(freeObjects)
      ensures |old(cpu)[c].entries| >= old(cpu)[c].limit ==>
                |cpu| == |old(cpu)| && 0 < |cpu[c].entries| <= |old(cpu)[c].entries| &&
                var k := |old(cpu)[c].entries| + 1 - |cpu[c].entries|;
                && cpu == old(cpu)[c := old(cpu)[c].(entries := old(cpu)[c].entries[k..] + [o])]
                && FrontFlushed(num, freeLimit, old(cpu)[c], k, old(shared), shared, old(St()), old(freeObjects), St(), freeObjects)
    {
      ghost var w := owners;
      if |cpu[c].entries| >= cpu[c].limit {
        FlushArray(c);
      }
      ghost var w1 := owners;
      assert PlaceOf(w1, o) == Live;
      Push(c, o);
      LiveKeptThenLost(w, w1, owners, o);
    }

    /** An object goes from a client to the array of CPU c, which has room. */
    method Push(c: nat, o: Obj)
      requires Valid() && c < |cpu| && |cpu[c].entries| < cpu[c].limit && PlaceOf(owners, o) == Live
      modifies this`cpu, this`owners
      ensures Valid() && PlaceOf(owners, o) == InCpu(c) && LiveGained(owners, old(owners), o)
      ensures cpu == old(cpu)[c := PushAll(old(cpu)[c], [o])]
    {
      ghost var w, a := owners, Arr();
      cpu := cpu[c := PushAll(cpu[c], [o])];
      MoveDone(num, St(), freeObjects, a, w, 0, [o], Live, InCpu(c), Arr(), [], []);
      owners := Relabel(w, [o], InCpu(c));
    }

    /** do_drain on CPU c, then the shared array: drain_cpu_caches as this port runs it. */
    method DrainCpuCaches(c: nat)
      requires Valid() && c < |cpu|
      modifies this`slabs, this`full, this`partial, this`free, this`freeObjects, this`chain, this`owners, this`transit, this`cpu, this`shared
      ensures Valid() && |cpu| == |old(cpu)| && cpu[c].entries == [] && (shared.Some? ==> shared.value.entries == [])
      ensures forall o {:trigger PlaceOf(owners, o)} ::
                PlaceOf(owners, o) == if OutOfReach(old(owners), o, c) then PlaceOf(old(owners), o) else InSlab
    {
      ghost var w, a := owners, Arr();
      FreeFront(InCpu(c), |cpu[c].entries|);
      ghost var w1, b := owners, Arr();
      if shared.Some? {
        DrainArrayLocked(InShared, true);
      }
      Drained(a, w, b, w1, Arr(), owners, c);
    }

    /** drain_array_locked: without force, a touched array only loses its mark, and any other loses
        part of its objects. */
    method DrainArrayLocked(x: Place, force: bool)
      requires Valid() && HasArray(Arr(), x)
      modifies this`slabs, this`full, this`partial, this`free, this`freeObjects, this`chain, this`owners, this`transit, this`cpu, this`shared
      ensures Valid() && LiveKept(old(owners), owners)
      ensures HasArray(Arr(), x)
      ensures var ac := old(ArrayOf(Arr(), x));
              if ac.touched && !force then
                Arr() == WithArray(old(Arr()), x, ac.(touched := false)) && St() == old(St()) && owners == old(owners)
              else
                && Arr() == WithArray(old(Arr()), x, ac.(entries := ac.entries[ToFree(ac, force)..]))
                && MovedTo(old(owners), owners, ac.entries[..ToFree(ac, force)], InSlab)
                && (St(), freeObjects) == FreedAll(num, old(St()), old(freeObjects) + ToFree(ac, force), freeLimit, ac.entries[..ToFree(ac, force)])
                && (ac.entries != [] ==> |ArrayOf(Arr(), x).entries| < |ac.entries|)
    {
      var ac := if x.InCpu? then cpu[x.cpu] else shared.value;
      if ac.touched && !force {
        if x.InCpu? {
          cpu := cpu[x.cpu := ac.(touched := false)];
        } else {
          shared := Some(ac.(touched := false));
        }
        TouchOnly(num, St(), freeObjects, old(Arr()), owners, x);
      } else if |ac.entries| > 0 {
        FreePart(x, force);
      } else {
        assert ac.(entries := ac.entries[0..]) == ac && WithArray(Arr(), x, ac) == Arr();
      }
    }

    /** All of a non-empty array is freed, or part of it. */
    method FreePart(x: Place, force: bool)
      requires Valid() && HasArray(Arr(), x) && ArrayOf(Arr(), x).entries != []
      modifies this`slabs, this`full, this`partial, this`free, this`freeObjects, this`chain, this`owners, this`transit, this`cpu, this`shared
      ensures Valid() && LiveKept(old(owners), owners) && HasArray(Arr(), x)
      ensures var ac := old(ArrayOf(Arr(), x));
              && Arr() == WithArray(old(Arr()), x, ac.(entries := ac.entries[ToFree(ac, force)..]))
              && MovedTo(old(owners), owners, ac.entries[..ToFree(ac, force)], InSlab)
              && (St(), freeObjects) == FreedAll(num, old(St()), old(freeObjects) + ToFree(ac, force), freeLimit, ac.entries[..ToFree(ac, force)])
              && |ArrayOf(Arr(), x).entries| < |ac.entries|
    {
      var ac := if x.InCpu? then cpu[x.cpu] else shared.value;
      ghost var w := owners;
      var tofree := if force then |ac.entries| else (ac.limit + 4) / 5;
      if tofree > |ac.entries| {
        tofree := (|ac.entries| + 1) / 2;
      }
      FreeFront(x, tofree);
      MoveKeepsLive(w, owners, ac.entries[..tofree], InSlab);
    }

    /** The body of the loop of __cache_shrink: the last slab of the free list goes. */
    method DestroyLast()
      requires Valid() && free != []
      modifies this`slabs, this`free, this`freeObjects, this`chain, this`owners
      ensures Valid() && MovedTo(old(owners), owners, [], InSlab)
      ensures free == old(free)[..|old(free)| - 1]
    {
      var s := free[|free| - 1];
      LastDestroyed(num, St(), freeObjects, Arr(), owners);
      free := free[..|free| - 1];
      freeObjects := freeObjects - num;
      slabs, chain := slabs - {s}, chain - {s};
      owners := WithoutSlab(owners, s);
    }

    /** __cache_shrink run on CPU c.  It reports busy exactly when a client or the array of another CPU
        has an object; every slab without such an object has been destroyed. */
    method Shrink(c: nat) returns (busy: bool)
      requires Valid() && c < |cpu|
      modifies this`slabs, this`full, this`partial, this`free, this`freeObjects, this`chain, this`owners, this`transit, this`cpu, this`shared
      ensures Valid() && |cpu| == |old(cpu)|
      ensures busy <==> exists o :: OutOfReach(old(owners), o, c)
      ensures forall o {:trigger PlaceOf(owners, o)} ::
                PlaceOf(owners, o) == if OutOfReach(old(owners), o, c) then PlaceOf(old(owners), o) else InSlab
      ensures !busy ==> slabs == map[]
      ensures free == [] && forall s | s in slabs :: exists o: Obj :: o.slab == s && OutOfReach(owners, o, c)
    {
      ghost var w := owners;
      DrainCpuCaches(c);
      while free != []
        invariant Valid() && |cpu| == |old(cpu)| && cpu[c].entries == [] && (shared.Some? ==> shared.value.entries == [])
        invariant forall o {:trigger PlaceOf(owners, o)} ::
                    PlaceOf(owners, o) == if OutOfReach(w, o, c) then PlaceOf(w, o) else InSlab
        decreases |free|
      {
        ghost var w1 := owners;
        DestroyLast();
        assert forall o {:trigger PlaceOf(owners, o)} :: PlaceOf(owners, o) == PlaceOf(w1, o);
      }
      busy := full != [] || partial != [];
      ShrunkSlabs(num, St(), freeObjects, Arr(), owners, c);
      ShrunkExactly(w, owners, c);
    }

    /** kmem_cache_destroy on a machine with one CPU: it fails exactly when an object is live. */
    method DestroyCache() returns (failed: bool)
      requires Valid() && |cpu| == 1
      modifies this
      ensures failed <==> exists o :: PlaceOf(old(owners), o) == Live
      ensures !failed ==> slabs == map[] && cpu == [] && shared == None
      ensures failed ==> Valid() && LiveKept(old(owners), owners)
    {
      ghost var w := owners;
      forall o
        ensures OutOfReach(w, o, 0) <==> PlaceOf(w, o) == Live
      {
        OneCpu(num, St(), freeObjects, Arr(), w, o);
      }
      var busy := Shrink(0);
      if busy {
        return true;
      }
      cpu, shared := [], None;
      failed := false;
    }

    /** Array x is replaced by an empty one with new limits, and the objects of the old one are freed. */
    method ReplaceArray(x: Place, ac: ArrayCache)
      requires Valid() && ac.entries == [] && (x.InShared? || (x.InCpu? && x.cpu < |cpu| && TunablesOk(ac)))
      modifies this`slabs, this`full, this`partial, this`free, this`freeObjects, this`chain, this`owners, this`transit, this`cpu, this`shared
      ensures Valid() && Arr() == WithArray(old(Arr()), x, ac)
      ensures MovedTo(old(owners), owners, old(Entries(Arr(), x)), InSlab) && LiveKept(old(owners), owners)
      ensures var os := old(Entries(Arr(), x));
              (St(), freeObjects) == FreedAll(num, old(St()), old(freeObjects) + |os|, freeLimit, os)
    {
      ghost var w := owners;
      var objs := Unhook(x, ac);
      ghost var w1 := owners;
      FreeBlock(objs);
      ReplacedEnd(w, w1, owners, objs);
    }

    /** Array x is replaced, and the objects of the old one are ready to be freed. */
    method Unhook(x: Place, ac: ArrayCache) returns (objs: seq<Obj>)
      requires Valid() && ac.entries == [] && (x.InShared? || (x.InCpu? && x.cpu < |cpu| && TunablesOk(ac)))
      modifies this`owners, this`transit, this`cpu, this`shared
      ensures Ok(0) && LimitsOk(cpu, shared) && Arr() == WithArray(old(Arr()), x, ac).(transit := objs)
      ensures objs == old(Entries(Arr(), x)) && MovedTo(old(owners), owners, objs, Freeing)
      ensures forall o | o in objs :: PlaceOf(old(owners), o) != Live
    {
      ReplacedOk(num, St(), freeObjects, Arr(), owners, x, ac);
      objs := if x.InCpu? then cpu[x.cpu].entries else if shared.Some? then shared.value.entries else [];
      if x.InCpu? {
        cpu := cpu[x.cpu := ac];
      } else {
        shared := Some(ac);
      }
      transit := objs;
      owners := Relabel(owners, objs, Freeing);
    }

    /** do_tune_cpucache run on CPU c: the callback for all CPUs reaches only this one.  memOk and
        sharedOk say whether the new arrays could be allocated. */
    method Tune(c: nat, limit: nat, batchcount: nat, sharedFactor: nat, memOk: bool, sharedOk: bool) returns (ok: bool)
      requires Valid() && c < |cpu| && 1 <= batchcount <= limit
      modifies this`slabs, this`full, this`partial, this`free, this`freeObjects, this`freeLimit, this`chain, this`owners, this`transit, this`cpu, this`shared
      ensures Valid() && LiveKept(old(owners), owners) && ok == memOk
      ensures !ok ==> St() == old(St()) && Arr() == old(Arr())
      ensures ok ==> cpu == old(cpu)[c := ArrayCache([], limit, batchcount, false)] && freeLimit == (1 + |cpu|) * batchcount + num
      ensures ok ==> shared == if sharedOk then Some(ArrayCache([], batchcount * sharedFactor, 0xbaadf00d, false)) else old(shared)
    {
      if !memOk {
        return false;
      }
      ghost var w := owners;
      freeLimit := (1 + |cpu|) * batchcount + num;
      ReplaceArray(InCpu(c), ArrayCache([], limit, batchcount, false));
      ghost var w1 := owners;
      if sharedOk {
        ReplaceArray(InShared, ArrayCache([], batchcount * sharedFactor, 0xbaadf00d, false));
        LiveTwice(w, w1, owners);
      }
      ok := true;
    }

    /** The second loop of s_show: the partly used slabs and the objects in use in them. */
    method CountPartial() returns (error: Option<string>, objs: int)
      requires Valid()
      ensures error == None && objs == |partial| * num - FreeCount(num, slabs, partial)
    {
      assert StoreCount(num, St(), freeObjects);
      error, objs := None, 0;
      for k := 0 to |partial|
        invariant error == None && objs == k * num - FreeCount(num, slabs, partial[..k])
      {
        assert partial[k] in partial && partial[..k + 1] == partial[..k] + [partial[k]];
        var inuse := slabs[partial[k]].inuse;
        if inuse == num && error.None? {
          error := Some("slabs_partial inuse accounting error");
        }
        if inuse == 0 && error.None? {
          error := Some("slabs_partial/inuse accounting error");
        }
        NextMultiple(k, num);
        FreeCountTail(num, slabs, partial[..k], partial[k]);
        objs := objs + inuse;
      }
      assert partial[..|partial|] == partial;
    }

    /** The counting of s_show: it never finds an accounting error. */
    method Account() returns (error: Option<string>, activeObjs: int, numObjs: int)
      requires Valid()
      ensures error == None
      ensures numObjs == (|full| + |partial| + |free|) * num && activeObjs == numObjs - TotalFree(num, St())
    {
      assert StoreCount(num, St(), freeObjects);
      error, activeObjs := None, 0;
      var activeSlabs, numSlabs := 0, 0;
      for k := 0 to |full|
        invariant error == None && activeSlabs == k && activeObjs == k * num
      {
        assert full[k] in full;
        if slabs[full[k]].inuse != num && error.None? {
          error := Some("slabs_full accounting error");
        }
        NextMultiple(k, num);
        activeObjs, activeSlabs := activeObjs + num, activeSlabs + 1;
      }
      var partialError, inPartial := CountPartial();
      error := if error.None? then partialError else error;
      activeObjs, activeSlabs := activeObjs + inPartial, activeSlabs + |partial|;
      for k := 0 to |free|
        invariant error == None && numSlabs == k
      {
        assert free[k] in free;
        if slabs[free[k]].inuse != 0 && error.None? {
          error := Some("slabs_free/inuse accounting error");
        }
        numSlabs := numSlabs + 1;
      }
      numSlabs := numSlabs + activeSlabs;
      numObjs := numSlabs * num;
      AccountTotals(num, St(), activeObjs);
      if numObjs - activeObjs != freeObjects && error.None? {
        error := Some("free_objects accounting error");
      }
    }
  }
}
