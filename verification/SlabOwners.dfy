/** Where each object of a cache is, and how the array caches and the slab chains agree on it. */
module SlabOwners {
  import opened Lists
  import opened SlabStore

  datatype Obj = Obj(slab: nat, idx: nat)

  datatype Place =
    | InSlab              // on the chain of its slab
    | InCpu(cpu: nat)     // in the array cache of a CPU
    | InShared            // in the shared array
    | Freeing             // in a batch on its way back to the slabs
    | Live                // with a client

  type Owners = map<Obj, Place>

  /** array_cache: entries holds the part of the array below avail. */
  datatype ArrayCache = ArrayCache(entries: seq<Obj>, limit: nat, batchcount: nat, touched: bool)

  datatype Arrays = Arrays(cpu: seq<ArrayCache>, shared: Option<ArrayCache>, transit: seq<Obj>)

  predicate IsArray(x: Place) {
    x.InCpu? || x.InShared? || x.Freeing?
  }

  /** The entries that make up a place other than InSlab and Live. */
  function Entries(a: Arrays, x: Place): seq<Obj> {
    match x
    case InCpu(c) => if c < |a.cpu| then a.cpu[c].entries else []
    case InShared => if a.shared.Some? then a.shared.value.entries else []
    case Freeing => a.transit
    case _ => []
  }

  /** Objects of slabs that do not exist count as being in a slab. */
  function PlaceOf(w: Owners, o: Obj): Place {
    if o in w then w[o] else InSlab
  }

  ghost predicate ListOwns(l: seq<Obj>, w: Owners, x: Place) {
    NoDup(l) && forall o :: o in l <==> o in w && w[o] == x
  }

  ghost predicate ArraysOk(a: Arrays, w: Owners) {
    forall x {:trigger Entries(a, x)} | IsArray(x) :: ListOwns(Entries(a, x), w, x)
  }

  /** The objects are those of the existing slabs, and the ones in place InSlab are those on the chains. */
  ghost predicate SlabSide(num: nat, chain: map<nat, seq<nat>>, w: Owners) {
    && (forall o :: o in w <==> o.slab in chain && o.idx < num)
    && (forall o | o in w :: w[o] == InSlab <==> o.idx in chain[o.slab])
  }

  ghost function Relabel(w: Owners, os: seq<Obj>, x: Place): Owners {
    map o | o in w :: if o in os then x else w[o]
  }

  /** What is known of w' when the objects os have moved to x. */
  ghost predicate MovedTo(w: Owners, w': Owners, os: seq<Obj>, x: Place) {
    forall o {:trigger PlaceOf(w, o)} {:trigger PlaceOf(w', o)} :: PlaceOf(w', o) == if o in os then x else PlaceOf(w, o)
  }

  lemma {:induction false} RelabelMoves(w: Owners, os: seq<Obj>, x: Place)
    requires forall o | o in os :: o in w
    ensures MovedTo(w, Relabel(w, os, x), os, x)
  {
  }

  /** Every entry of a place of the arrays is accounted for after os has gone from one place to another. */
  lemma {:induction false} ArraysMove(a: Arrays, w: Owners, os: seq<Obj>, from: Place, to: Place, a': Arrays, pre: seq<Obj>, post: seq<Obj>)
    requires ArraysOk(a, w) && from != to && NoDup(os)
    requires forall o | o in os :: o in w && w[o] == from
    requires IsArray(from) ==> Entries(a, from) == pre + os + post && Entries(a', from) == pre + post
    requires IsArray(to) ==> Entries(a', to) == Entries(a, to) + os
    requires forall x | IsArray(x) && x != from && x != to :: Entries(a', x) == Entries(a, x)
    ensures ArraysOk(a', Relabel(w, os, to))
  {
    var w' := Relabel(w, os, to);
    forall x | IsArray(x)
      ensures ListOwns(Entries(a', x), w', x)
    {
      assert ListOwns(Entries(a, x), w, x);
      if x == from {
        CutOut(pre, os, post);
      } else if x == to {
        Joined(Entries(a, to), os);
      }
    }
  }

  lemma {:induction false} CutOut(pre: seq<Obj>, os: seq<Obj>, post: seq<Obj>)
    requires NoDup(pre + os + post)
    ensures NoDup(pre + post) && forall o :: o in pre + post <==> o in pre + os + post && o !in os
  {
    var s, t := pre + os + post, pre + post;
    var n := |pre| + |os|;
    forall i, j | 0 <= i < j < |t|
      ensures t[i] != t[j]
    {
      assert t[i] == s[if i < |pre| then i else i + |os|] && t[j] == s[if j < |pre| then j else j + |os|];
    }
    forall o | o in t
      ensures o !in os
    {
      var i :| 0 <= i < |t| && t[i] == o;
      var k := if i < |pre| then i else i + |os|;
      assert s[k] == o;
      assert forall j | 0 <= j < |os| :: os[j] == s[|pre| + j];
    }
  }

  lemma {:induction false} Joined(l: seq<Obj>, os: seq<Obj>)
    requires NoDup(l) && NoDup(os) && forall o | o in l :: o !in os
    ensures NoDup(l + os) && forall o :: o in l + os <==> o in l || o in os
  {
    var t := l + os;
    forall i, j | 0 <= i < j < |t|
      ensures t[i] != t[j]
    {
      if i < |l| <= j {
        assert l[i] in l && os[j - |l|] in os;
      }
    }
  }

  // ----- the slab side

  function ObjsOf(s: nat, ch: seq<nat>): (r: seq<Obj>)
    ensures |r| == |ch| && forall k | 0 <= k < |r| :: r[k] == Obj(s, ch[k])
  {
    seq(|ch|, k requires 0 <= k < |ch| => Obj(s, ch[k]))
  }

  lemma {:induction false} InObjsOf(s: nat, ch: seq<nat>)
    ensures forall o :: o in ObjsOf(s, ch) <==> o.slab == s && o.idx in ch
    ensures NoDup(ch) ==> NoDup(ObjsOf(s, ch))
  {
    forall o: Obj | o.slab == s && o.idx in ch
      ensures o in ObjsOf(s, ch)
    {
      var k :| 0 <= k < |ch| && ch[k] == o.idx;
      assert ObjsOf(s, ch)[k] == o;
    }
  }

  /** The first k free objects of slab s go to place x. */
  lemma {:induction false} SideTake(num: nat, chain: map<nat, seq<nat>>, w: Owners, s: nat, k: nat, x: Place)
    requires SlabSide(num, chain, w) && s in chain && k <= |chain[s]| && NoDup(chain[s]) && x != InSlab
    requires forall i | i in chain[s] :: i < num
    ensures SlabSide(num, chain[s := chain[s][k..]], Relabel(w, ObjsOf(s, chain[s][..k]), x))
    ensures NoDup(ObjsOf(s, chain[s][..k]))
    ensures forall o | o in ObjsOf(s, chain[s][..k]) :: o in w && w[o] == InSlab
  {
    var ch, pre, post := chain[s], chain[s][..k], chain[s][k..];
    InObjsOf(s, pre);
    assert ch == pre + post;
    forall i | i in pre
      ensures i in ch && i !in post
    {
      var j :| 0 <= j < k && ch[j] == i;
      assert forall l | 0 <= l < |post| :: post[l] == ch[k + l];
    }
  }

  /** An object goes back on the chain of its slab. */
  lemma {:induction false} SidePut(num: nat, chain: map<nat, seq<nat>>, w: Owners, o: Obj)
    requires SlabSide(num, chain, w) && o in w && w[o] != InSlab
    ensures o.slab in chain && o.idx < num && o.idx !in chain[o.slab]
    ensures SlabSide(num, chain[o.slab := [o.idx] + chain[o.slab]], Relabel(w, [o], InSlab))
  {
  }

  ghost function WithoutSlab(w: Owners, s: nat): Owners {
    map o | o in w && o.slab != s :: w[o]
  }

  /** A slab whose objects are all free goes away. */
  lemma {:induction false} SideDestroy(num: nat, chain: map<nat, seq<nat>>, w: Owners, s: nat, a: Arrays)
    requires SlabSide(num, chain, w) && ArraysOk(a, w) && s in chain && forall i | 0 <= i < num :: i in chain[s]
    ensures SlabSide(num, chain - {s}, WithoutSlab(w, s)) && ArraysOk(a, WithoutSlab(w, s))
    ensures MovedTo(w, WithoutSlab(w, s), [], InSlab)
  {
    var w' := WithoutSlab(w, s);
    forall x | IsArray(x)
      ensures ListOwns(Entries(a, x), w', x)
    {
      assert ListOwns(Entries(a, x), w, x);
    }
  }

  ghost function WithSlab(w: Owners, s: nat, num: nat): Owners {
    map o | o in w.Keys + (set i | i in Upto(num) :: Obj(s, i)) :: if o.slab == s then InSlab else PlaceOf(w, o)
  }

  /** A new slab with all objects free. */
  lemma {:induction false} SideGrow(num: nat, chain: map<nat, seq<nat>>, w: Owners, s: nat, a: Arrays)
    requires SlabSide(num, chain, w) && ArraysOk(a, w) && s !in chain
    ensures SlabSide(num, chain[s := Upto(num)], WithSlab(w, s, num)) && ArraysOk(a, WithSlab(w, s, num))
    ensures MovedTo(w, WithSlab(w, s, num), [], InSlab)
  {
    var w' := WithSlab(w, s, num);
    forall o
      ensures o in w' <==> o in w || (o.slab == s && o.idx < num)
    {
      if o.slab == s && o.idx < num {
        assert o.idx in Upto(num);
      }
    }
    forall x | IsArray(x)
      ensures ListOwns(Entries(a, x), w', x)
    {
      assert ListOwns(Entries(a, x), w, x);
    }
  }
}
