/** What free_block does to the slabs, said without following it object by object: which slabs go, which
    become free, and how many objects the cache then has. */
module SlabBatch {
  import opened Lists
  import opened SlabStore
  import opened SlabOwners
  import opened SlabSteps

  /** The number of objects of slab s in a batch. */
  function CountIn(objs: seq<Obj>, s: nat): nat {
    if objs == [] then 0 else (if objs[0].slab == s then 1 else 0) + CountIn(objs[1..], s)
  }

  lemma {:induction false} NoneIn(objs: seq<Obj>, s: nat)
    requires forall o | o in objs :: o.slab != s
    ensures CountIn(objs, s) == 0
  {
    if objs != [] {
      NoneIn(objs[1..], s);
    }
  }

  /** Slab s gets back its objects of the batch.  Only a slab all of whose objects came back can go, and it
      goes or stays as the final count of free objects, f', compares with the limit. */
  ghost predicate SlabFreed(num: nat, limit: nat, sl: Slab, n: nat, slabs': map<nat, Slab>, f': int, s: nat) {
    && n <= sl.inuse
    && (n == 0 ==> s in slabs' && slabs'[s] == sl)
    && (n < sl.inuse ==> s in slabs')
    && (s in slabs' ==> slabs'[s].inuse == sl.inuse - n && slabs'[s].colour == sl.colour)
    && (s in slabs' && 0 < n == sl.inuse ==> f' <= limit)
    && (s !in slabs' ==> f' + num > limit)
  }

  /** The slabs and the count of free objects before and after a batch. */
  ghost predicate BatchFreed(num: nat, limit: nat, slabs: map<nat, Slab>, f: int, objs: seq<Obj>, slabs': map<nat, Slab>, f': int) {
    && slabs'.Keys <= slabs.Keys
    && (forall o | o in objs :: o.slab in slabs)
    && (forall s | s in slabs :: SlabFreed(num, limit, slabs[s], CountIn(objs, s), slabs', f', s))
    && f' == f - num * |slabs.Keys - slabs'.Keys|
  }

  /** An object is back on the chain of its slab.  The slab goes exactly when it has no object in use any more
      and the cache has more free objects than its limit; otherwise it goes to the head of the free list or
      to the end of the partial list. */
  ghost predicate ObjectBack(num: nat, limit: nat, m: Store, f: int, o: Obj, m': Store, f': int)
    requires CanFree(m, o)
  {
    var s, sl := o.slab, m.slabs[o.slab];
    && (s !in m'.slabs <==> sl.inuse == 1 && f > limit)
    && f' == (if s in m'.slabs then f else f - num)
    && m'.slabs == (if s in m'.slabs then m.slabs[s := sl.(inuse := sl.inuse - 1, free := o.idx, bufctl := sl.bufctl[o.idx := sl.free])]
                    else m.slabs - {s})
    && m'.chain == (if s in m'.slabs then m.chain[s := [o.idx] + m.chain[s]] else m.chain - {s})
    && m'.full == Unlink(m.full, s)
    && m'.partial == Unlink(m.partial, s) + (if sl.inuse > 1 then [s] else [])
    && m'.free == (if sl.inuse == 1 && s in m'.slabs then [s] else []) + Unlink(m.free, s)
  }

  lemma {:induction false} BackIsFreed(num: nat, limit: nat, m: Store, f: int, o: Obj, m': Store, f': int)
    requires CanFree(m, o) && m.slabs[o.slab].inuse <= num && ObjectBack(num, limit, m, f, o, m', f')
    ensures (m', f') == FreedOne(num, m, f, limit, o)
  {
    FreedUnfold(num, m, o);
    var s, sl := o.slab, PutBack(m.slabs[o.slab], o.idx);
    assert m.slabs[s := sl] - {s} == m.slabs - {s} && m.chain[s := [o.idx] + m.chain[s]] - {s} == m.chain - {s};
    assert [] + Unlink(m.free, s) == Unlink(m.free, s) && Unlink(m.partial, s) + [] == Unlink(m.partial, s);
    assert m' == FreedOne(num, m, f, limit, o).0;
  }

  /** One object: its slab goes exactly when that was the last one in use and there are more free objects than
      the limit. */
  ghost predicate OneGone(num: nat, limit: nat, slabs: map<nat, Slab>, f: int, o: Obj, slabs': map<nat, Slab>, f': int)
    requires o.slab in slabs
  {
    var gone := slabs[o.slab].inuse == 1 && f > limit;
    && slabs[o.slab].inuse > 0
    && slabs'.Keys == (if gone then slabs.Keys - {o.slab} else slabs.Keys)
    && f' == (if gone then f - num else f)
    && (!gone ==> slabs'[o.slab].inuse == slabs[o.slab].inuse - 1 && slabs'[o.slab].colour == slabs[o.slab].colour)
    && forall s | s in slabs && s != o.slab :: slabs'[s] == slabs[s]
  }

  lemma {:induction false} OneFreed(num: nat, m: Store, f: int, limit: nat, o: Obj)
    requires CanFree(m, o)
    ensures var r := FreedOne(num, m, f, limit, o);
            OneGone(num, limit, m.slabs, f, o, r.0.slabs, r.1)
  {
  }

  lemma {:induction false} GoneMore(a: set<nat>, b: set<nat>, c: set<nat>, s: nat)
    requires s in a && b == a - {s} && c <= b
    ensures |a - c| == |b - c| + 1
  {
    assert a - c == (b - c) + {s};
  }

  lemma {:induction false} Times(num: nat, k: nat)
    ensures num * (k + 1) == num * k + num && num * k >= 0
  {
  }

  lemma {:induction false} GoneSome(num: nat, limit: nat, slabs: map<nat, Slab>, f: int, objs: seq<Obj>, slabs': map<nat, Slab>, f': int)
    requires BatchFreed(num, limit, slabs, f, objs, slabs', f')
    ensures f' <= f && (f + num > limit ==> f' + num > limit)
  {
    Times(num, |slabs.Keys - slabs'.Keys|);
    if slabs.Keys - slabs'.Keys == {} {
      assert f' == f;
    } else {
      var s :| s in slabs.Keys - slabs'.Keys;
      assert SlabFreed(num, limit, slabs[s], CountIn(objs, s), slabs', f', s);
    }
  }

  /** What a batch has done to slab s, seen from before its first object. */
  lemma {:induction false} SlabMoreFreed(num: nat, limit: nat, slabs: map<nat, Slab>, f: int, objs: seq<Obj>,
                                         slabs1: map<nat, Slab>, f1: int, slabs': map<nat, Slab>, f': int, s: nat)
    requires objs != [] && objs[0].slab in slabs && OneGone(num, limit, slabs, f, objs[0], slabs1, f1)
    requires BatchFreed(num, limit, slabs1, f1, objs[1..], slabs', f') && s in slabs
    ensures SlabFreed(num, limit, slabs[s], CountIn(objs, s), slabs', f', s)
  {
    GoneSome(num, limit, slabs1, f1, objs[1..], slabs', f');
    if s in slabs1 {
      assert SlabFreed(num, limit, slabs1[s], CountIn(objs[1..], s), slabs', f', s);
    } else {
      NoneIn(objs[1..], s);
    }
  }

  lemma {:induction false} CountMore(num: nat, a: set<nat>, b: set<nat>, c: set<nat>, s: nat, gone: bool, f: int, f1: int, f': int)
    requires s in a && b == (if gone then a - {s} else a) && f1 == (if gone then f - num else f)
    requires c <= b && f' == f1 - num * |b - c|
    ensures f' == f - num * |a - c|
  {
    if gone {
      GoneMore(a, b, c, s);
      Times(num, |b - c|);
    }
  }

  lemma {:induction false} AllIn(objs: seq<Obj>, a: set<nat>, b: set<nat>)
    requires objs != [] && objs[0].slab in a && b <= a && forall o | o in objs[1..] :: o.slab in b
    ensures forall o | o in objs :: o.slab in a
  {
    assert objs == [objs[0]] + objs[1..];
  }

  /** A batch after its first object. */
  lemma {:induction false} OneMoreFreed(num: nat, limit: nat, slabs: map<nat, Slab>, f: int, objs: seq<Obj>,
                                        slabs1: map<nat, Slab>, f1: int, slabs': map<nat, Slab>, f': int)
    requires objs != [] && objs[0].slab in slabs && OneGone(num, limit, slabs, f, objs[0], slabs1, f1)
    requires BatchFreed(num, limit, slabs1, f1, objs[1..], slabs', f')
    ensures BatchFreed(num, limit, slabs, f, objs, slabs', f')
  {
    AllIn(objs, slabs.Keys, slabs1.Keys);
    CountMore(num, slabs.Keys, slabs1.Keys, slabs'.Keys, objs[0].slab, slabs[objs[0].slab].inuse == 1 && f > limit, f, f1, f');
    forall s | s in slabs
      ensures SlabFreed(num, limit, slabs[s], CountIn(objs, s), slabs', f', s)
    {
      SlabMoreFreed(num, limit, slabs, f, objs, slabs1, f1, slabs', f', s);
    }
  }

  lemma {:induction false} NoneFreed(num: nat, limit: nat, slabs: map<nat, Slab>, f: int)
    ensures BatchFreed(num, limit, slabs, f, [], slabs, f)
  {
  }

  /** free_block as a whole. */
  lemma {:induction false} AllFreed(num: nat, m: Store, f: int, limit: nat, a: Arrays, w: Owners, objs: seq<Obj>)
    requires CacheOk(num, m, f, a, w, |objs|) && a.transit == objs
    ensures var r := FreedAll(num, m, f, limit, objs);
            BatchFreed(num, limit, m.slabs, f, objs, r.0.slabs, r.1)
    decreases |objs|
  {
    if objs == [] {
      NoneFreed(num, limit, m.slabs, f);
    } else {
      var w' := FreeOneDone(num, m, f, limit, a, w, |objs|, objs[0]);
      var r := FreedOne(num, m, f, limit, objs[0]);
      AllFreed(num, r.0, r.1, limit, a.(transit := objs[1..]), w', objs[1..]);
      var e := FreedAll(num, r.0, r.1, limit, objs[1..]);
      OneFreed(num, m, f, limit, objs[0]);
      OneMoreFreed(num, limit, m.slabs, f, objs, r.0.slabs, r.1, e.0.slabs, e.1);
    }
  }

  /** A slab that a batch has put on the free list, and one that it has destroyed. */
  lemma {:induction false} FreeListAfter(num: nat, limit: nat, m: Store, f: int, a: Arrays, w: Owners, objs: seq<Obj>,
                                         m': Store, f': int, a': Arrays, w': Owners)
    requires CacheOk(num, m, f, a, w, |objs|) && a.transit == objs && CacheOk(num, m', f', a', w', 0)
    requires (m', f') == FreedAll(num, m, f, limit, objs)
    ensures forall s | s in m'.free && s !in m.free :: f' <= limit
    ensures forall s | s in m.slabs && s !in m'.slabs :: f' + num > limit
  {
    AllFreed(num, m, f, limit, a, w, objs);
    assert StoreCount(num, m, f - |objs|) && StoreCount(num, m', f');
    forall s | s in m'.free && s !in m.free
      ensures f' <= limit
    {
      assert SlabFreed(num, limit, m.slabs[s], CountIn(objs, s), m'.slabs, f', s);
    }
    forall s | s in m.slabs && s !in m'.slabs
      ensures f' + num > limit
    {
      assert SlabFreed(num, limit, m.slabs[s], CountIn(objs, s), m'.slabs, f', s);
    }
  }
}
