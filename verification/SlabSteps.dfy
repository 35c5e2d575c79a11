/** What each kind of change does to the whole state of a slab cache. */
module SlabSteps {
  import opened Lists
  import opened SlabStore
  import opened SlabOwners

  /** The slabs and lists agree and have n free objects. */
  ghost predicate StoreCount(num: nat, m: Store, n: int) {
    StoreOk(num, m) && n == TotalFree(num, m)
  }

  /** The whole state, with `extra` objects counted as free that are not on the chains.  The slab
      part is under a quantifier so that a proof unfolds it only where it names StoreCount. */
  ghost predicate CacheOk(num: nat, m: Store, freeObjects: int, a: Arrays, w: Owners, extra: int) {
    && (forall n {:trigger StoreCount(num, m, n)} | n == freeObjects - extra :: StoreCount(num, m, n))
    && SlabSide(num, m.chain, w)
    && ArraysOk(a, w)
  }

  // ----- one lemma for each kind of change

  /** cache_grow links a slab with all objects free at the end of the free list. */
  lemma {:induction false} GrowDone(num: nat, m: Store, freeObjects: int, a: Arrays, w: Owners, extra: int, s: nat, sl: Slab)
    requires CacheOk(num, m, freeObjects, a, w, extra) && s !in m.slabs
    requires SlabOk(sl, num, Upto(num)) && sl.inuse == 0
    ensures Relist(num, m, s, sl, Upto(num), Tail) ==
            m.(slabs := m.slabs[s := sl], free := m.free + [s], chain := m.chain[s := Upto(num)])
    ensures CacheOk(num, Relist(num, m, s, sl, Upto(num), Tail), freeObjects + num, a, WithSlab(w, s, num), extra)
    ensures MovedTo(w, WithSlab(w, s, num), [], InSlab)
  {
    assert StoreCount(num, m, freeObjects - extra);
    UnlinkAbsent(m.full, s);
    UnlinkAbsent(m.partial, s);
    UnlinkAbsent(m.free, s);
    RelistOk(num, m, s, sl, Upto(num), Tail);
    SideGrow(num, m.chain, w, s, a);
  }

  function PushAll(ac: ArrayCache, os: seq<Obj>): ArrayCache {
    ac.(entries := ac.entries + os)
  }

  /** Slab s after its first k free objects have been taken. */
  function TakenFrom(num: nat, m: Store, s: nat, k: nat): Store
    requires s in m.slabs && s in m.chain && k <= |m.chain[s]|
  {
    Relist(num, m, s, Taken(m.slabs[s], m.chain[s], k), m.chain[s][k..], Head)
  }

  lemma {:induction false} TakeStore(num: nat, m: Store, s: nat, k: nat)
    requires StoreOk(num, m) && s in m.slabs && s in m.chain && k <= |m.chain[s]|
    ensures StoreOk(num, TakenFrom(num, m, s, k)) && TotalFree(num, TakenFrom(num, m, s, k)) == TotalFree(num, m) - k
    ensures NoDup(m.chain[s]) && forall i | i in m.chain[s] :: i < num
  {
    assert SlabOk(m.slabs[s], num, m.chain[s]);
    TakenOk(m.slabs[s], num, m.chain[s], k);
    RelistOk(num, m, s, Taken(m.slabs[s], m.chain[s], k), m.chain[s][k..], Head);
  }

  lemma {:induction false} TakeArrays(a: Arrays, w: Owners, os: seq<Obj>, c: nat)
    requires ArraysOk(a, w) && c < |a.cpu| && NoDup(os) && forall o | o in os :: o in w && w[o] == InSlab
    ensures ArraysOk(a.(cpu := a.cpu[c := PushAll(a.cpu[c], os)]), Relabel(w, os, InCpu(c)))
  {
    ArraysMove(a, w, os, InSlab, InCpu(c), a.(cpu := a.cpu[c := PushAll(a.cpu[c], os)]), [], []);
  }

  /** cache_alloc_refill takes the first k free objects of a slab into the array of CPU c. */
  lemma {:induction false} TakeDone(num: nat, m: Store, freeObjects: int, a: Arrays, w: Owners, extra: int, s: nat, k: nat, c: nat)
    requires CacheOk(num, m, freeObjects, a, w, extra) && s in m.slabs && s in m.chain && k <= |m.chain[s]| && c < |a.cpu|
    ensures var os := ObjsOf(s, m.chain[s][..k]);
            && CacheOk(num, TakenFrom(num, m, s, k), freeObjects, a.(cpu := a.cpu[c := PushAll(a.cpu[c], os)]),
                       Relabel(w, os, InCpu(c)), extra + k)
            && (forall o | o in os :: PlaceOf(w, o) == InSlab)
            && MovedTo(w, Relabel(w, os, InCpu(c)), os, InCpu(c))
  {
    assert StoreCount(num, m, freeObjects - extra);
    var os := ObjsOf(s, m.chain[s][..k]);
    TakeStore(num, m, s, k);
    SideTake(num, m.chain, w, s, k, InCpu(c));
    TakeArrays(a, w, os, c);
    RelabelMoves(w, os, InCpu(c));
  }

  /** The slab of object o after o has been put back. */
  function PutInto(num: nat, m: Store, o: Obj, at: Where): Store
    requires o.slab in m.slabs && o.slab in m.chain && o.idx < |m.slabs[o.slab].bufctl| && m.slabs[o.slab].inuse > 0
  {
    Relist(num, m, o.slab, PutBack(m.slabs[o.slab], o.idx), [o.idx] + m.chain[o.slab], at)
  }

  lemma {:induction false} PutStore(num: nat, m: Store, o: Obj, at: Where)
    requires StoreOk(num, m) && o.slab in m.slabs && o.slab in m.chain && o.idx < num && o.idx !in m.chain[o.slab]
    ensures |m.slabs[o.slab].bufctl| == num && m.slabs[o.slab].inuse > 0
    ensures StoreOk(num, PutInto(num, m, o, at)) && TotalFree(num, PutInto(num, m, o, at)) == TotalFree(num, m) + 1
  {
    var ch := m.chain[o.slab];
    assert SlabOk(m.slabs[o.slab], num, ch);
    PutBackOk(m.slabs[o.slab], num, ch, o.idx);
    RelistOk(num, m, o.slab, PutBack(m.slabs[o.slab], o.idx), [o.idx] + ch, at);
  }

  lemma {:induction false} PutArrays(a: Arrays, w: Owners, o: Obj)
    requires ArraysOk(a, w) && a.transit != [] && a.transit[0] == o
    ensures o in w && w[o] == Freeing && ArraysOk(a.(transit := a.transit[1..]), Relabel(w, [o], InSlab))
  {
    assert ListOwns(Entries(a, Freeing), w, Freeing);
    assert o in a.transit;
    assert a.transit == [] + [o] + a.transit[1..] && [] + a.transit[1..] == a.transit[1..];
    ArraysMove(a, w, [o], Freeing, InSlab, a.(transit := a.transit[1..]), [], a.transit[1..]);
  }

  /** free_block puts the first object of the batch back on the chain of its slab. */
  lemma {:induction false} PutDone(num: nat, m: Store, freeObjects: int, a: Arrays, w: Owners, extra: int, o: Obj, at: Where)
    requires CacheOk(num, m, freeObjects, a, w, extra) && a.transit != [] && a.transit[0] == o
    ensures o.slab in m.slabs && o.slab in m.chain && o.idx < num && |m.slabs[o.slab].bufctl| == num && m.slabs[o.slab].inuse > 0
    ensures CacheOk(num, PutInto(num, m, o, at), freeObjects, a.(transit := a.transit[1..]), Relabel(w, [o], InSlab), extra - 1)
    ensures MovedTo(w, Relabel(w, [o], InSlab), [o], InSlab)
  {
    assert StoreCount(num, m, freeObjects - extra);
    PutArrays(a, w, o);
    SidePut(num, m.chain, w, o);
    PutStore(num, m, o, at);
    RelabelMoves(w, [o], InSlab);
  }

  /** slab_destroy of a slab on the free list. */
  lemma {:induction false} DestroyDone(num: nat, m: Store, freeObjects: int, a: Arrays, w: Owners, extra: int, s: nat)
    requires CacheOk(num, m, freeObjects, a, w, extra) && s in m.free
    ensures CacheOk(num, Destroyed(m, s), freeObjects - num, a, WithoutSlab(w, s), extra)
    ensures MovedTo(w, WithoutSlab(w, s), [], InSlab)
  {
    assert StoreCount(num, m, freeObjects - extra);
    assert SlabOk(m.slabs[s], num, m.chain[s]);
    AllFree(m.slabs[s], num, m.chain[s]);
    DestroyedOk(num, m, s);
    SideDestroy(num, m.chain, w, s, a);
  }

  /** What free_block makes of the slabs for one object; over says whether the cache has more free
      objects than its limit. */
  function Freed(num: nat, m: Store, o: Obj, over: bool): Store
    requires o.slab in m.slabs && o.slab in m.chain && o.idx < |m.slabs[o.slab].bufctl| && m.slabs[o.slab].inuse > 0
  {
    if m.slabs[o.slab].inuse > 1 then PutInto(num, m, o, Tail)
    else if over then Destroyed(PutInto(num, m, o, Head), o.slab)
    else PutInto(num, m, o, Head)
  }

  predicate CanFree(m: Store, o: Obj) {
    o.slab in m.slabs && o.slab in m.chain && o.idx < |m.slabs[o.slab].bufctl| && m.slabs[o.slab].inuse > 0
  }

  /** The slabs and the count of free objects after free_block has dealt with one object. */
  function FreedOne(num: nat, m: Store, freeObjects: int, limit: nat, o: Obj): (Store, int) {
    if !CanFree(m, o) then (m, freeObjects)
    else
      (Freed(num, m, o, freeObjects > limit),
       if m.slabs[o.slab].inuse == 1 && freeObjects > limit then freeObjects - num else freeObjects)
  }

  /** free_block as a whole. */
  function FreedAll(num: nat, m: Store, freeObjects: int, limit: nat, objs: seq<Obj>): (Store, int)
    decreases |objs|
  {
    if objs == [] then (m, freeObjects)
    else
      var r := FreedOne(num, m, freeObjects, limit, objs[0]);
      FreedAll(num, r.0, r.1, limit, objs[1..])
  }

  ghost function FreedOwners(w: Owners, o: Obj, gone: bool): Owners {
    if gone then WithoutSlab(Relabel(w, [o], InSlab), o.slab) else Relabel(w, [o], InSlab)
  }

  /** The lists after free_block has dealt with one object. */
  lemma {:induction false} FreedUnfold(num: nat, m: Store, o: Obj)
    requires o.slab in m.slabs && o.slab in m.chain && o.idx < |m.slabs[o.slab].bufctl| && 0 < m.slabs[o.slab].inuse <= num
    ensures var s := o.slab;
            var sl, ch := PutBack(m.slabs[s], o.idx), [o.idx] + m.chain[s];
            var slabs, chain := m.slabs[s := sl], m.chain[s := ch];
            if sl.inuse > 0 then
              Freed(num, m, o, true) == Freed(num, m, o, false) ==
              Store(slabs, Unlink(m.full, s), Unlink(m.partial, s) + [s], Unlink(m.free, s), chain)
            else
              && Freed(num, m, o, true) == Store(slabs - {s}, Unlink(m.full, s), Unlink(m.partial, s), Unlink(m.free, s), chain - {s})
              && Freed(num, m, o, false) == Store(slabs, Unlink(m.full, s), Unlink(m.partial, s), [s] + Unlink(m.free, s), chain)
  {
  }

  /** free_block deals with one object of the batch. */
  lemma {:induction false} FreeDone(num: nat, m: Store, freeObjects: int, a: Arrays, w: Owners, extra: int, o: Obj, over: bool)
    requires CacheOk(num, m, freeObjects, a, w, extra) && a.transit != [] && a.transit[0] == o
    ensures o.slab in m.slabs && o.slab in m.chain && o.idx < num && |m.slabs[o.slab].bufctl| == num && 0 < m.slabs[o.slab].inuse <= num
    ensures var gone := m.slabs[o.slab].inuse == 1 && over;
            && CacheOk(num, Freed(num, m, o, over), if gone then freeObjects - num else freeObjects,
                       a.(transit := a.transit[1..]), FreedOwners(w, o, gone), extra - 1)
            && MovedTo(w, FreedOwners(w, o, gone), [o], InSlab)
  {
    assert StoreCount(num, m, freeObjects - extra);
    PutDone(num, m, freeObjects, a, w, extra, o, Head);
    PutDone(num, m, freeObjects, a, w, extra, o, Tail);
    assert SlabOk(m.slabs[o.slab], num, m.chain[o.slab]);
    if m.slabs[o.slab].inuse == 1 && over {
      var w1 := Relabel(w, [o], InSlab);
      FreedUnfold(num, m, o);
      DestroyDone(num, PutInto(num, m, o, Head), freeObjects, a.(transit := a.transit[1..]), w1, extra - 1, o.slab);
      MovedBefore(w, w1, WithoutSlab(w1, o.slab), [o], InSlab);
    }
  }

  lemma {:induction false} FreeOneDone(num: nat, m: Store, freeObjects: int, limit: nat, a: Arrays, w: Owners, extra: int, o: Obj)
    returns (w': Owners)
    requires CacheOk(num, m, freeObjects, a, w, extra) && a.transit != [] && a.transit[0] == o
    ensures CanFree(m, o) && o.idx < num && |m.slabs[o.slab].bufctl| == num && m.slabs[o.slab].inuse <= num
    ensures var r := FreedOne(num, m, freeObjects, limit, o);
            CacheOk(num, r.0, r.1, a.(transit := a.transit[1..]), w', extra - 1) && MovedTo(w, w', [o], InSlab)
  {
    FreeDone(num, m, freeObjects, a, w, extra, o, freeObjects > limit);
    w' := FreedOwners(w, o, m.slabs[o.slab].inuse == 1 && freeObjects > limit);
  }

  /** Objects move between the arrays and the clients. */
  lemma {:induction false} MoveDone(num: nat, m: Store, freeObjects: int, a: Arrays, w: Owners, extra: int,
                                    os: seq<Obj>, from: Place, to: Place, a': Arrays, pre: seq<Obj>, post: seq<Obj>)
    requires CacheOk(num, m, freeObjects, a, w, extra) && from != to && from != InSlab && to != InSlab && NoDup(os)
    requires forall o | o in os :: o in w && w[o] == from
    requires IsArray(from) ==> Entries(a, from) == pre + os + post && Entries(a', from) == pre + post
    requires IsArray(to) ==> Entries(a', to) == Entries(a, to) + os
    requires forall x | IsArray(x) && x != from && x != to :: Entries(a', x) == Entries(a, x)
    ensures CacheOk(num, m, freeObjects, a', Relabel(w, os, to), extra)
    ensures MovedTo(w, Relabel(w, os, to), os, to)
  {
    ArraysMove(a, w, os, from, to, a', pre, post);
    RelabelMoves(w, os, to);
  }

  /** Part of a list of a place. */
  lemma {:induction false} PartOf(a: Arrays, w: Owners, x: Place, pre: seq<Obj>, os: seq<Obj>, post: seq<Obj>)
    requires ArraysOk(a, w) && IsArray(x) && Entries(a, x) == pre + os + post
    ensures NoDup(os) && forall o | o in os :: o in w && w[o] == x
  {
    var s := pre + os + post;
    assert ListOwns(Entries(a, x), w, x);
    forall i, j | 0 <= i < j < |os|
      ensures os[i] != os[j]
    {
      assert os[i] == s[|pre| + i] && os[j] == s[|pre| + j];
    }
    forall o | o in os
      ensures o in s
    {
      var i :| 0 <= i < |os| && os[i] == o;
      assert s[|pre| + i] == o;
    }
  }

  // ----- following the clients

  /** No object changes hands with a client. */
  ghost predicate LiveKept(w: Owners, w': Owners) {
    forall o {:trigger PlaceOf(w, o)} {:trigger PlaceOf(w', o)} :: PlaceOf(w', o) == Live <==> PlaceOf(w, o) == Live
  }

  /** One object after another. */
  lemma {:induction false} MovedMore(w: Owners, w1: Owners, w2: Owners, os: seq<Obj>, i: nat, x: Place)
    requires i < |os| && MovedTo(w, w1, os[..i], x) && MovedTo(w1, w2, [os[i]], x)
    ensures MovedTo(w, w2, os[..i + 1], x)
  {
    assert os[..i + 1] == os[..i] + [os[i]];
    forall o
      ensures PlaceOf(w2, o) == if o in os[..i + 1] then x else PlaceOf(w, o)
    {
      assert PlaceOf(w1, o) == if o in os[..i] then x else PlaceOf(w, o);
    }
  }

  lemma {:induction false} MovedBoth(w: Owners, w1: Owners, w2: Owners, os: seq<Obj>, os2: seq<Obj>, x: Place)
    requires MovedTo(w, w1, os, x) && MovedTo(w1, w2, os2, x)
    ensures MovedTo(w, w2, os + os2, x)
  {
    forall o
      ensures PlaceOf(w2, o) == if o in os + os2 then x else PlaceOf(w, o)
    {
      assert PlaceOf(w1, o) == if o in os then x else PlaceOf(w, o);
    }
  }

  /** A second move of the same objects. */
  lemma {:induction false} MovedOn(w: Owners, w1: Owners, w2: Owners, os: seq<Obj>, x: Place, y: Place)
    requires MovedTo(w, w1, os, x) && MovedTo(w1, w2, os, y)
    ensures MovedTo(w, w2, os, y)
  {
    forall o
      ensures PlaceOf(w2, o) == if o in os then y else PlaceOf(w, o)
    {
      assert PlaceOf(w1, o) == if o in os then x else PlaceOf(w, o);
    }
  }

  lemma {:induction false} MovedBefore(w: Owners, w1: Owners, w2: Owners, os: seq<Obj>, x: Place)
    requires MovedTo(w, w1, os, x) && MovedTo(w1, w2, [], InSlab)
    ensures MovedTo(w, w2, os, x)
  {
    forall o
      ensures PlaceOf(w2, o) == if o in os then x else PlaceOf(w, o)
    {
      assert PlaceOf(w2, o) == PlaceOf(w1, o);
    }
  }

  lemma {:induction false} MoveKeepsLive(w: Owners, w': Owners, os: seq<Obj>, x: Place)
    requires MovedTo(w, w', os, x) && x != Live && forall o | o in os :: PlaceOf(w, o) != Live
    ensures LiveKept(w, w')
  {
  }

  /** Client o is the only one to gain an object. */
  ghost predicate LiveGained(w: Owners, w': Owners, o: Obj) {
    forall p {:trigger PlaceOf(w, p)} {:trigger PlaceOf(w', p)} :: PlaceOf(w', p) == Live <==> p == o || PlaceOf(w, p) == Live
  }

  lemma {:induction false} LiveTwice(w: Owners, w1: Owners, w2: Owners)
    requires LiveKept(w, w1) && LiveKept(w1, w2)
    ensures LiveKept(w, w2)
  {
    forall o
      ensures PlaceOf(w2, o) == Live <==> PlaceOf(w, o) == Live
    {
      assert PlaceOf(w1, o) == Live <==> PlaceOf(w, o) == Live;
    }
  }

  lemma {:induction false} LiveThenGained(w: Owners, w1: Owners, w2: Owners, o: Obj)
    requires LiveKept(w, w1) && LiveGained(w1, w2, o)
    ensures LiveGained(w, w2, o)
  {
    forall p
      ensures PlaceOf(w2, p) == Live <==> p == o || PlaceOf(w, p) == Live
    {
      assert PlaceOf(w1, p) == Live <==> PlaceOf(w, p) == Live;
    }
  }

  lemma {:induction false} LiveKeptThenLost(w: Owners, w1: Owners, w2: Owners, o: Obj)
    requires LiveKept(w, w1) && LiveGained(w2, w1, o)
    ensures LiveGained(w2, w, o)
  {
    forall p
      ensures PlaceOf(w, p) == Live <==> p == o || PlaceOf(w2, p) == Live
    {
      assert PlaceOf(w1, p) == Live <==> PlaceOf(w, p) == Live;
    }
  }
}
