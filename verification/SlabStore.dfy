/** The slabs of a cache as values: the index chain through each slab's bufctl array, and the full,
    partial and free lists. */
module SlabStore {
  import opened Lists

  const BUFCTL_END: nat := 0xffff_ffff
  const SLAB_LIMIT: nat := BUFCTL_END - 2

  datatype Slab = Slab(colour: nat, inuse: nat, free: nat, bufctl: seq<nat>)

  datatype Kind = Full | Partial | Free

  /** A cache's slabs by address, its three lists, and the free indices of each slab in chain order. */
  datatype Store = Store(slabs: map<nat, Slab>, full: seq<nat>, partial: seq<nat>, free: seq<nat>, chain: map<nat, seq<nat>>)

  function KindOf(num: nat, sl: Slab): Kind {
    if sl.inuse == num then Full else if sl.inuse == 0 then Free else Partial
  }

  /** What a link holds when ch[k..] is the rest of the chain. */
  function Link(ch: seq<nat>, k: nat): nat {
    if k < |ch| then ch[k] else BUFCTL_END
  }

  /** Following bufctl from free visits exactly the indices in ch and then the end mark. */
  ghost predicate Linked(sl: Slab, num: nat, ch: seq<nat>) {
    && |sl.bufctl| == num
    && sl.free == Link(ch, 0)
    && (forall k | 0 <= k < |ch| :: ch[k] < num && sl.bufctl[ch[k]] == Link(ch, k + 1))
  }

  /** The chain has one entry for each free object. */
  ghost predicate SlabOk(sl: Slab, num: nat, ch: seq<nat>) {
    Linked(sl, num, ch) && NoDup(ch) && sl.inuse <= num && |ch| == num - sl.inuse
  }

  /** A list holds exactly the slabs of one kind. */
  ghost predicate ListOk(num: nat, slabs: map<nat, Slab>, list: seq<nat>, k: Kind) {
    NoDup(list) && forall s :: s in list <==> s in slabs && KindOf(num, slabs[s]) == k
  }

  ghost predicate ChainsOk(num: nat, slabs: map<nat, Slab>, chain: map<nat, seq<nat>>) {
    && slabs.Keys == chain.Keys
    && forall s {:trigger SlabOk(slabs[s], num, chain[s])} | s in slabs :: SlabOk(slabs[s], num, chain[s])
  }

  ghost predicate StoreOk(num: nat, m: Store) {
    && 0 < num <= SLAB_LIMIT
    && ChainsOk(num, m.slabs, m.chain)
    && ListOk(num, m.slabs, m.full, Full)
    && ListOk(num, m.slabs, m.partial, Partial)
    && ListOk(num, m.slabs, m.free, Free)
  }

  /** Colours a slab can have: cache_grow uses colour 0 also when colour is 0. */
  function Colours(colour: nat): nat {
    if colour == 0 then 1 else colour
  }

  // ----- counting free objects

  function FreeIn(num: nat, slabs: map<nat, Slab>, s: nat): int {
    if s in slabs then num - slabs[s].inuse else 0
  }

  /** The number of free objects in the slabs of a list. */
  function FreeCount(num: nat, slabs: map<nat, Slab>, list: seq<nat>): int {
    if list == [] then 0 else FreeIn(num, slabs, list[0]) + FreeCount(num, slabs, list[1..])
  }

  function TotalFree(num: nat, m: Store): int {
    FreeCount(num, m.slabs, m.full) + FreeCount(num, m.slabs, m.partial) + FreeCount(num, m.slabs, m.free)
  }

  lemma {:induction false} FreeCountTail(num: nat, slabs: map<nat, Slab>, list: seq<nat>, s: nat)
    ensures FreeCount(num, slabs, list + [s]) == FreeCount(num, slabs, list) + FreeIn(num, slabs, s)
  {
    if list != [] {
      assert (list + [s])[1..] == list[1..] + [s];
      FreeCountTail(num, slabs, list[1..], s);
    } else {
      assert list + [s] == [s];
      assert FreeCount(num, slabs, [s]) == FreeIn(num, slabs, s) + FreeCount(num, slabs, []);
    }
  }

  lemma {:induction false} FreeCountUnlink(num: nat, slabs: map<nat, Slab>, list: seq<nat>, s: nat)
    requires s in list
    ensures FreeCount(num, slabs, Unlink(list, s)) == FreeCount(num, slabs, list) - FreeIn(num, slabs, s)
  {
    if list[0] != s {
      FreeCountUnlink(num, slabs, list[1..], s);
      assert ([list[0]] + Unlink(list[1..], s))[1..] == Unlink(list[1..], s);
    }
  }

  lemma {:induction false} FreeCountSame(num: nat, slabs: map<nat, Slab>, slabs': map<nat, Slab>, list: seq<nat>)
    requires forall s | s in list :: FreeIn(num, slabs, s) == FreeIn(num, slabs', s)
    ensures FreeCount(num, slabs, list) == FreeCount(num, slabs', list)
  {
    if list != [] {
      FreeCountSame(num, slabs, slabs', list[1..]);
    }
  }

  lemma {:induction false} UnlinkAbsent(list: seq<nat>, s: nat)
    requires s !in list
    ensures Unlink(list, s) == list
  {
    if list != [] {
      UnlinkAbsent(list[1..], s);
    }
  }

  // ----- a slab whose use count changes moves to the list of its new kind

  datatype Where = Head | Tail

  function AddTo(list: seq<nat>, s: nat, w: Where): seq<nat> {
    if w == Head then [s] + list else list + [s]
  }

  /** The list of kind k after slab s has become sl and is put where it belongs. */
  function Moved(num: nat, list: seq<nat>, k: Kind, s: nat, sl: Slab, w: Where): seq<nat> {
    if KindOf(num, sl) == k then AddTo(Unlink(list, s), s, w) else Unlink(list, s)
  }

  lemma {:induction false} MovedOk(num: nat, slabs: map<nat, Slab>, list: seq<nat>, k: Kind, s: nat, sl: Slab, w: Where)
    requires ListOk(num, slabs, list, k)
    ensures ListOk(num, slabs[s := sl], Moved(num, list, k, s, sl, w), k)
  {
    UnlinkFacts(list, s);
  }

  lemma {:induction false} MovedCount(num: nat, slabs: map<nat, Slab>, list: seq<nat>, k: Kind, s: nat, sl: Slab, w: Where)
    requires ListOk(num, slabs, list, k)
    ensures FreeCount(num, slabs[s := sl], Moved(num, list, k, s, sl, w)) ==
            FreeCount(num, slabs, list) - (if s in slabs && KindOf(num, slabs[s]) == k then FreeIn(num, slabs, s) else 0)
            + (if KindOf(num, sl) == k then num - sl.inuse else 0)
  {
    var u, slabs' := Unlink(list, s), slabs[s := sl];
    UnlinkFacts(list, s);
    if s in list {
      FreeCountUnlink(num, slabs, list, s);
    } else {
      UnlinkAbsent(list, s);
    }
    FreeCountSame(num, slabs, slabs', u);
    FreeCountTail(num, slabs', u, s);
    assert ([s] + u)[1..] == u;
  }

  /** Slab s becomes sl with free chain ch and goes to the list of its new kind. */
  function Relist(num: nat, m: Store, s: nat, sl: Slab, ch: seq<nat>, w: Where): Store {
    Store(m.slabs[s := sl], Moved(num, m.full, Full, s, sl, w), Moved(num, m.partial, Partial, s, sl, w),
          Moved(num, m.free, Free, s, sl, w), m.chain[s := ch])
  }

  lemma {:induction false} RelistOk(num: nat, m: Store, s: nat, sl: Slab, ch: seq<nat>, w: Where)
    requires StoreOk(num, m) && SlabOk(sl, num, ch)
    ensures StoreOk(num, Relist(num, m, s, sl, ch, w))
    ensures TotalFree(num, Relist(num, m, s, sl, ch, w)) == TotalFree(num, m) - FreeIn(num, m.slabs, s) + |ch|
  {
    var m' := Relist(num, m, s, sl, ch, w);
    MovedOk(num, m.slabs, m.full, Full, s, sl, w);
    MovedOk(num, m.slabs, m.partial, Partial, s, sl, w);
    MovedOk(num, m.slabs, m.free, Free, s, sl, w);
    MovedCount(num, m.slabs, m.full, Full, s, sl, w);
    MovedCount(num, m.slabs, m.partial, Partial, s, sl, w);
    MovedCount(num, m.slabs, m.free, Free, s, sl, w);
    ChainSet(num, m.slabs, m.chain, s, sl, ch);
  }

  lemma {:induction false} ChainSet(num: nat, slabs: map<nat, Slab>, chain: map<nat, seq<nat>>, s: nat, sl: Slab, ch: seq<nat>)
    requires ChainsOk(num, slabs, chain) && SlabOk(sl, num, ch)
    ensures ChainsOk(num, slabs[s := sl], chain[s := ch])
  {
    var slabs', chain' := slabs[s := sl], chain[s := ch];
    forall t | t in slabs'
      ensures SlabOk(slabs'[t], num, chain'[t])
    {
      if t != s {
        assert SlabOk(slabs[t], num, chain[t]);
      }
    }
  }

  // ----- slab_destroy

  /** A slab on the free list goes away. */
  function Destroyed(m: Store, s: nat): Store {
    Store(m.slabs - {s}, m.full, m.partial, Unlink(m.free, s), m.chain - {s})
  }

  lemma {:induction false} DestroyedOk(num: nat, m: Store, s: nat)
    requires StoreOk(num, m) && s in m.free
    ensures StoreOk(num, Destroyed(m, s))
    ensures TotalFree(num, Destroyed(m, s)) == TotalFree(num, m) - num
  {
    var slabs' := m.slabs - {s};
    UnlinkFacts(m.free, s);
    FreeCountUnlink(num, m.slabs, m.free, s);
    FreeCountSame(num, m.slabs, slabs', Unlink(m.free, s));
    FreeCountSame(num, m.slabs, slabs', m.full);
    FreeCountSame(num, m.slabs, slabs', m.partial);
    forall t | t in slabs'
      ensures SlabOk(slabs'[t], num, (m.chain - {s})[t])
    {
      assert SlabOk(m.slabs[t], num, m.chain[t]);
    }
  }

  // ----- the chain operations on one slab

  /** cache_init_objs: every object is free, in order. */
  method InitObjs(num: nat, colour: nat) returns (sl: Slab)
    requires 0 < num <= SLAB_LIMIT
    ensures SlabOk(sl, num, Upto(num)) && sl.inuse == 0 && sl.colour == colour
  {
    var bufctl := seq(num, _ => 0);
    for i := 0 to num
      invariant |bufctl| == num && forall k | 0 <= k < i :: bufctl[k] == k + 1
    {
      bufctl := bufctl[i := i + 1];
    }
    bufctl := bufctl[num - 1 := BUFCTL_END];
    sl := Slab(colour, 0, 0, bufctl);
  }

  /** The slab after its first k free objects have been taken. */
  function Taken(sl: Slab, ch: seq<nat>, k: nat): Slab {
    sl.(inuse := sl.inuse + k, free := Link(ch, k))
  }

  lemma {:induction false} TakenOk(sl: Slab, num: nat, ch: seq<nat>, k: nat)
    requires SlabOk(sl, num, ch) && k <= |ch|
    ensures SlabOk(Taken(sl, ch, k), num, ch[k..])
  {
    forall j | 0 <= j < |ch[k..]|
      ensures ch[k..][j] < num && sl.bufctl[ch[k..][j]] == Link(ch[k..], j + 1)
    {
      assert ch[k..][j] == ch[k + j];
    }
  }

  /** The inner loop of cache_alloc_refill: objects leave the slab in chain order until it is empty
      or the batch is complete. */
  method TakeObjects(sl: Slab, num: nat, batch: nat, ghost ch: seq<nat>) returns (sl': Slab, objs: seq<nat>, left: int)
    requires SlabOk(sl, num, ch) && num <= SLAB_LIMIT
    ensures objs == ch[..if batch < |ch| then batch else |ch|]
    ensures sl' == Taken(sl, ch, |objs|)
    ensures left == if batch < |ch| then -1 else batch - |objs|
  {
    sl', objs, left := sl, [], batch;
    while sl'.inuse < num
      invariant |objs| <= |ch| && objs == ch[..|objs|] && left == batch - |objs| && left >= 0
      invariant sl' == Taken(sl, ch, |objs|)
    {
      left := left - 1;
      if left == -1 {
        break;
      }
      var next := sl.bufctl[sl'.free];
      objs := objs + [sl'.free];
      sl' := sl'.(inuse := sl'.inuse + 1, free := next);
    }
  }

  /** The slab after object i has been put back. */
  function PutBack(sl: Slab, i: nat): Slab
    requires i < |sl.bufctl| && sl.inuse > 0
  {
    sl.(inuse := sl.inuse - 1, free := i, bufctl := sl.bufctl[i := sl.free])
  }

  lemma {:induction false} PutBackOk(sl: Slab, num: nat, ch: seq<nat>, i: nat)
    requires SlabOk(sl, num, ch) && i < num && i !in ch
    ensures sl.inuse > 0 && SlabOk(PutBack(sl, i), num, [i] + ch)
  {
    Fits(ch, i, num);
    var ch' := [i] + ch;
    forall k | 0 <= k < |ch'|
      ensures ch'[k] < num && PutBack(sl, i).bufctl[ch'[k]] == Link(ch', k + 1)
    {
      if k > 0 {
        assert ch'[k] == ch[k - 1];
      }
    }
  }

  /** Different numbers below num other than i are fewer than num. */
  lemma {:induction false} Fits(ch: seq<nat>, i: nat, num: nat)
    requires NoDup(ch) && i < num && i !in ch && forall k | 0 <= k < |ch| :: ch[k] < num
    ensures |ch| < num
  {
    Pigeonhole([i] + ch, Upto(num));
  }

  /** With fewer than num entries some object is not free; with num entries all are. */
  lemma {:induction false} SomeNotFree(sl: Slab, num: nat, ch: seq<nat>) returns (i: nat)
    requires SlabOk(sl, num, ch) && sl.inuse > 0
    ensures i < num && i !in ch
  {
    if forall x | x in Upto(num) :: x in ch {
      Pigeonhole(Upto(num), ch);
      assert false;
    }
    i :| i in Upto(num) && i !in ch;
  }

  lemma {:induction false} AllFree(sl: Slab, num: nat, ch: seq<nat>)
    requires SlabOk(sl, num, ch) && sl.inuse == 0
    ensures forall i | 0 <= i < num :: i in ch
  {
    forall i | 0 <= i < num
      ensures i in ch
    {
      if i !in ch {
        Fits(ch, i, num);
      }
    }
  }

  // ----- check_slabp

  /** check_slabp finds nothing wrong exactly when some chain fits the slab. */
  method CheckSlabp(sl: Slab, num: nat) returns (ok: bool)
    requires |sl.bufctl| == num && num <= SLAB_LIMIT
    ensures ok <==> exists ch :: SlabOk(sl, num, ch)
  {
    var i: nat, entries: nat := sl.free, 0;
    ghost var ch: seq<nat> := [];
    while i != BUFCTL_END
      invariant Visited(sl, num, ch, i) && entries == |ch| <= num
      decreases num - entries
    {
      entries := entries + 1;
      if entries > num || i >= num {
        TooFar(sl, num, ch, i);
        return false;
      }
      ch := ch + [i];
      i := sl.bufctl[i];
    }
    Finished(sl, num, ch);
    return entries == num - sl.inuse;
  }

  /** The walk has visited ch and is about to visit i. */
  ghost predicate Visited(sl: Slab, num: nat, ch: seq<nat>, i: nat) {
    && |sl.bufctl| == num
    && (forall k | 0 <= k < |ch| :: ch[k] < num)
    && (forall k | 0 <= k < |ch| - 1 :: sl.bufctl[ch[k]] == ch[k + 1])
    && (if ch == [] then i == sl.free else ch[0] == sl.free && sl.bufctl[ch[|ch| - 1]] == i)
  }

  /** What has been visited is the beginning of any chain that fits. */
  lemma {:induction false} VisitedPrefix(sl: Slab, num: nat, ch: seq<nat>, i: nat, full: seq<nat>, n: nat)
    requires Visited(sl, num, ch, i) && Linked(sl, num, full) && num <= SLAB_LIMIT && n <= |ch|
    ensures n <= |full| && ch[..n] == full[..n]
  {
    if n > 0 {
      VisitedPrefix(sl, num, ch, i, full, n - 1);
      if n >= 2 {
        assert ch[..n - 1][n - 2] == full[..n - 1][n - 2];
        assert sl.bufctl[ch[n - 2]] == ch[n - 1];
      }
      assert Link(full, n - 1) == ch[n - 1];
    }
  }

  lemma {:induction false} TooFar(sl: Slab, num: nat, ch: seq<nat>, i: nat)
    requires Visited(sl, num, ch, i) && num <= SLAB_LIMIT && i != BUFCTL_END && (|ch| >= num || i >= num)
    ensures forall full :: !SlabOk(sl, num, full)
  {
    forall full
      ensures !SlabOk(sl, num, full)
    {
      if Linked(sl, num, full) {
        NextOfPrefix(sl, num, ch, i, full);
      }
    }
  }

  lemma {:induction false} NextOfPrefix(sl: Slab, num: nat, ch: seq<nat>, i: nat, full: seq<nat>)
    requires Visited(sl, num, ch, i) && Linked(sl, num, full) && num <= SLAB_LIMIT
    ensures |ch| <= |full| && ch == full[..|ch|] && Link(full, |ch|) == i
  {
    VisitedPrefix(sl, num, ch, i, full, |ch|);
    assert ch[..|ch|] == ch;
    if ch != [] {
      assert ch[|ch| - 1] == full[..|ch|][|ch| - 1];
    }
  }

  lemma {:induction false} Finished(sl: Slab, num: nat, ch: seq<nat>)
    requires Visited(sl, num, ch, BUFCTL_END) && num <= SLAB_LIMIT
    ensures Linked(sl, num, ch) && NoDup(ch)
    ensures forall full | SlabOk(sl, num, full) :: full == ch
    ensures (exists full :: SlabOk(sl, num, full)) <==> |ch| == num - sl.inuse
  {
    NoRepeat(sl, num, ch);
    OnlyChain(sl, num, ch);
    if |ch| == num - sl.inuse {
      assert SlabOk(sl, num, ch);
    }
  }

  lemma {:induction false} OnlyChain(sl: Slab, num: nat, ch: seq<nat>)
    requires Visited(sl, num, ch, BUFCTL_END) && num <= SLAB_LIMIT
    ensures forall full | SlabOk(sl, num, full) :: full == ch
  {
    forall full | SlabOk(sl, num, full)
      ensures full == ch
    {
      NextOfPrefix(sl, num, ch, BUFCTL_END, full);
    }
  }

  /** A walk that reaches the end never visits an index twice. */
  lemma {:induction false} NoRepeat(sl: Slab, num: nat, ch: seq<nat>)
    requires Linked(sl, num, ch) && num <= SLAB_LIMIT
    ensures NoDup(ch)
  {
    forall i, j | 0 <= i < j < |ch|
      ensures ch[i] != ch[j]
    {
      if ch[i] == ch[j] {
        Diverge(sl, num, ch, i, j);
      }
    }
  }

  lemma {:induction false} Diverge(sl: Slab, num: nat, ch: seq<nat>, i: nat, j: nat)
    requires Linked(sl, num, ch) && num <= SLAB_LIMIT && i < j < |ch|
    ensures ch[i] != ch[j]
    decreases |ch| - j
  {
    if j + 1 < |ch| {
      Diverge(sl, num, ch, i + 1, j + 1);
      assert sl.bufctl[ch[i]] == ch[i + 1] && sl.bufctl[ch[j]] == ch[j + 1];
    } else {
      assert sl.bufctl[ch[j]] == BUFCTL_END && sl.bufctl[ch[i]] == ch[i + 1];
    }
  }
}
