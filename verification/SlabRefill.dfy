/** What a refill does to the slabs: which it takes objects from, in which order, and which objects. */
module SlabRefill {
  import opened Lists
  import opened SlabStore
  import opened SlabOwners
  import opened SlabSteps

  /** The slab at the head of the partial list, or else of the free list, has been next all the time: the
      first j slabs of the partial list are used up, and free slabs are touched only after all of them.  A
      free slab that is not used up is now the only one on the partial list. */
  ghost predicate ListsCut(m: Store, m': Store, j: nat, i: nat) {
    && j <= |m.partial| && i <= |m.free| && m'.free == m.free[i..]
    && (i > 0 ==> j == |m.partial|)
    && (m'.partial == m.partial[j..] || (i > 0 && m'.partial == [m.free[i - 1]]))
  }

  /** The objects of es from slab s, whose chain was ch, are a front part of the chain. */
  ghost predicate ChainCut(ch: seq<nat>, ch': seq<nat>, es: seq<Obj>, s: nat) {
    exists k: nat :: k <= |ch| && ch' == ch[k..] && InFront(ch, es, s, k)
  }

  ghost predicate InFront(ch: seq<nat>, es: seq<Obj>, s: nat, k: nat)
    requires k <= |ch|
  {
    forall x: nat {:trigger Obj(s, x)} :: Obj(s, x) in es <==> x in ch[..k]
  }

  /** The object is the first free one of the slab at the head. */
  ghost predicate FirstOf(m: Store, o: Obj) {
    && m.partial + m.free != [] && o.slab == (m.partial + m.free)[0]
    && o.slab in m.chain && m.chain[o.slab] != [] && o.idx == m.chain[o.slab][0]
  }

  /** The objects es have been taken from the slabs. */
  ghost predicate SlabsCut(m: Store, m': Store, es: seq<Obj>) {
    && m'.slabs.Keys == m.slabs.Keys && m'.chain.Keys == m.chain.Keys
    && (es == [] ==> m' == m)
    && (es != [] ==> FirstOf(m, es[0])) && (forall o | o in es :: o.slab in m.chain)
    && (exists j: nat, i: nat :: ListsCut(m, m', j, i))
    && (forall s | s in m.chain :: ChainCut(m.chain[s], m'.chain[s], es, s))
  }

  /** A refill of up to max objects: fewer only when the slabs have run out. */
  ghost predicate SlabsTaken(m: Store, m': Store, es: seq<Obj>, max: nat) {
    SlabsCut(m, m', es) && |es| <= max && (|es| < max ==> m'.partial == [] && m'.free == [])
  }

  /** All objects come from slab s, which was new, in the order of its chain; fewer than max only when that has run out. */
  ghost predicate NewSlabTaken(m: Store, m': Store, es: seq<Obj>, s: nat, max: nat) {
    && m'.slabs.Keys == m.slabs.Keys + {s}
    && es != [] && es[0] == Obj(s, 0) && (forall o | o in es :: o.slab == s)
    && |es| <= max && (|es| < max ==> m'.partial == [] && m'.free == [])
  }

  /** Without other slabs on the partial and free lists a refill takes from the new slab only. */
  lemma {:induction false} OnlyNewSlab(num: nat, m: Store, m1: Store, m': Store, es: seq<Obj>, s: nat, max: nat)
    requires StoreOk(num, m1) && m1.partial == [] && m1.free == [s] && m1.slabs.Keys == m.slabs.Keys + {s}
    requires s in m1.chain && m1.chain[s] == Upto(num)
    requires SlabsTaken(m1, m', es, max) && max > 0
    ensures NewSlabTaken(m, m', es, s, max)
  {
    forall t | t in m1.chain && t != s
      ensures forall o | o in es :: o.slab != t
    {
      assert SlabOk(m1.slabs[t], num, m1.chain[t]);
      NoneFrom(m1.chain[t], m'.chain[t], es, t);
    }
  }

  lemma {:induction false} NoneFrom(ch: seq<nat>, ch': seq<nat>, es: seq<Obj>, t: nat)
    requires ch == [] && ChainCut(ch, ch', es, t)
    ensures forall o | o in es :: o.slab != t
  {
    assert InFront(ch, es, t, 0);
    assert forall o: Obj | o.slab == t :: o == Obj(t, o.idx) && o.idx !in ch[..0];
  }

  lemma {:induction false} NoneCut(m: Store)
    ensures SlabsCut(m, m, [])
  {
    assert ListsCut(m, m, 0, 0);
    forall s | s in m.chain
      ensures ChainCut(m.chain[s], m.chain[s], [], s)
    {
      assert m.chain[s] == m.chain[s][0..] && InFront(m.chain[s], [], s, 0);
    }
  }

  lemma {:induction false} UnlinkFirst<T>(s: seq<T>)
    requires s != []
    ensures Unlink(s, s[0]) == s[1..]
  {
  }

  lemma {:induction false} HeadAgain<T>(l: seq<T>)
    requires l != []
    ensures [l[0]] + l[1..] == l
  {
  }

  /** The lists after one more turn, on the slab at the head. */
  lemma {:induction false} ListsCutMore(num: nat, m: Store, m1: Store, j: nat, i: nat, s: nat, k: nat) returns (j2: nat, i2: nat)
    requires ListsCut(m, m1, j, i) && StoreOk(num, m1) && m1.partial + m1.free != [] && s == (m1.partial + m1.free)[0]
    requires s in m1.slabs && s in m1.chain && 0 < k <= |m1.chain[s]|
    ensures ListsCut(m, TakenFrom(num, m1, s, k), j2, i2)
  {
    assert SlabOk(m1.slabs[s], num, m1.chain[s]);
    var m2 := TakenFrom(num, m1, s, k);
    j2, i2 := j, i;
    if m1.partial != [] {
      UnlinkFirst(m1.partial);
      UnlinkAbsent(m1.free, s);
      if m1.partial == m.partial[j..] {
        if k == |m1.chain[s]| {
          j2 := j + 1;
        } else {
          HeadAgain(m1.partial);
        }
      } else if k == |m1.chain[s]| {
        assert m2.partial == m.partial[j..];
      }
    } else {
      UnlinkFirst(m1.free);
      UnlinkAbsent(m1.partial, s);
      i2 := i + 1;
    }
  }

  lemma {:induction false} ObjsOfMember(s: nat, l: seq<nat>, t: nat, x: nat)
    ensures Obj(t, x) in ObjsOf(s, l) <==> t == s && x in l
  {
    if t == s && x in l {
      var n :| 0 <= n < |l| && l[n] == x;
      assert ObjsOf(s, l)[n] == Obj(s, x);
    }
  }

  lemma {:induction false} CutTwice(ch: seq<nat>, n: nat, k: nat)
    requires n + k <= |ch|
    ensures ch[n..][k..] == ch[n + k..] && ch[..n + k] == ch[..n] + ch[n..][..k]
  {
  }

  lemma {:induction false} ChainCutMore(ch: seq<nat>, ch1: seq<nat>, es: seq<Obj>, s: nat, t: nat, k: nat)
    requires ChainCut(ch, ch1, es, s) && k <= |ch1|
    ensures t == s ==> ChainCut(ch, ch1[k..], es + ObjsOf(t, ch1[..k]), s)
  {
    var n: nat :| n <= |ch| && ch1 == ch[n..] && InFront(ch, es, s, n);
    CutTwice(ch, n, k);
    if t == s {
      forall x: nat
        ensures Obj(s, x) in es + ObjsOf(t, ch1[..k]) <==> x in ch[..n + k]
      {
        ObjsOfMember(t, ch1[..k], s, x);
      }
      assert InFront(ch, es + ObjsOf(t, ch1[..k]), s, n + k);
    }
  }

  lemma {:induction false} ChainCutOther(ch: seq<nat>, ch1: seq<nat>, es: seq<Obj>, s: nat, t: nat, l: seq<nat>)
    requires ChainCut(ch, ch1, es, s) && t != s
    ensures ChainCut(ch, ch1, es + ObjsOf(t, l), s)
  {
    var n: nat :| n <= |ch| && ch1 == ch[n..] && InFront(ch, es, s, n);
    forall x: nat
      ensures Obj(s, x) in es + ObjsOf(t, l) <==> x in ch[..n]
    {
      ObjsOfMember(t, l, s, x);
    }
    assert InFront(ch, es + ObjsOf(t, l), s, n);
  }

  lemma {:induction false} ChainsCutMore(num: nat, m: Store, m1: Store, es: seq<Obj>, s: nat, k: nat)
    requires m1.slabs.Keys == m.slabs.Keys && m1.chain.Keys == m.chain.Keys
    requires forall t | t in m.chain :: ChainCut(m.chain[t], m1.chain[t], es, t)
    requires s in m1.slabs && s in m1.chain && k <= |m1.chain[s]|
    ensures var m2 := TakenFrom(num, m1, s, k);
            && m2.slabs.Keys == m.slabs.Keys && m2.chain.Keys == m.chain.Keys
            && forall t | t in m.chain :: ChainCut(m.chain[t], m2.chain[t], es + ObjsOf(s, m1.chain[s][..k]), t)
  {
    var m2 := TakenFrom(num, m1, s, k);
    forall t | t in m.chain
      ensures ChainCut(m.chain[t], m2.chain[t], es + ObjsOf(s, m1.chain[s][..k]), t)
    {
      if t == s {
        ChainCutMore(m.chain[t], m1.chain[t], es, t, s, k);
      } else {
        ChainCutOther(m.chain[t], m1.chain[t], es, t, s, m1.chain[s][..k]);
      }
    }
  }

  lemma {:induction false} FirstStays(m: Store, m1: Store, es: seq<Obj>, objs: seq<Obj>)
    requires if es == [] then m1 == m else FirstOf(m, es[0])
    requires objs != [] && FirstOf(m1, objs[0])
    ensures FirstOf(m, (es + objs)[0])
  {
  }

  /** One turn of the refill. */
  lemma {:induction false} SlabsCutMore(num: nat, m: Store, m1: Store, es: seq<Obj>, s: nat, k: nat)
    requires SlabsCut(m, m1, es) && StoreOk(num, m1) && m1.partial + m1.free != [] && s == (m1.partial + m1.free)[0]
    requires s in m1.slabs && s in m1.chain && 0 < k <= |m1.chain[s]|
    ensures SlabsCut(m, TakenFrom(num, m1, s, k), es + ObjsOf(s, m1.chain[s][..k]))
  {
    var j: nat, i: nat :| ListsCut(m, m1, j, i);
    var j2, i2 := ListsCutMore(num, m, m1, j, i, s, k);
    ChainsCutMore(num, m, m1, es, s, k);
    var objs := ObjsOf(s, m1.chain[s][..k]);
    FirstStays(m, m1, es, objs);
    forall o | o in objs
      ensures o.slab in m.chain
    {
      ObjsOfMember(s, m1.chain[s][..k], o.slab, o.idx);
    }
  }
}
