/** A memory pool: curr_nr, min_nr and the elements array.  Each method is one stretch of code under
    the pool's lock, or code that runs before anyone else knows the pool. */
module Mempool {
  import opened Lists
  import opened MempoolProtocol
  import opened MempoolRuns

  class Pool {
    var elements: seq<nat>         // the whole array
    var currNr: nat
    var minNr: nat
    var threads: map<nat, Phase>
    ghost var kept: set<nat>
    ghost var leaving: set<nat>
    ghost var adding: set<nat>
    ghost var live: set<nat>

    ghost function Now(): State
      requires currNr <= |elements|
      reads this
    {
      State(elements[..currNr], |elements|, minNr, kept, leaving, adding, live, threads)
    }

    ghost predicate Valid()
      reads this
    {
      currNr <= |elements| && Inv(Now())
    }

    /** The state of mempool_create before the pool is filled; the array has room for minNr elements. */
    constructor (minNr: nat)
      ensures currNr == 0 && this.minNr == minNr && |elements| == minNr && threads == map[]
      ensures kept == {} && leaving == {} && adding == {} && live == {}
    {
      elements := seq(minNr, _ => 0);
      currNr := 0;
      this.minNr := minNr;
      threads := map[];
      kept, leaving, adding, live := {}, {}, {}, {};
    }

    /** add_element: the pool has room. */
    method AddElement(e: nat)
      requires currNr < minNr <= |elements|
      modifies this`elements, this`currNr
      ensures currNr == old(currNr) + 1 && |elements| == |old(elements)|
      ensures elements[..currNr] == old(elements[..currNr]) + [e]
    {
      assert currNr < minNr;
      elements := elements[currNr := e];
      currNr := currNr + 1;
    }

    /** remove_element: the pool is not empty. */
    method RemoveElement() returns (e: nat)
      requires 0 < currNr <= |elements|
      modifies this`currNr
      ensures currNr == old(currNr) - 1 && old(elements[..currNr]) == elements[..currNr] + [e]
    {
      currNr := currNr - 1;
      e := elements[currNr];
    }

    /** The filling loop of mempool_create.  The allocator yields the elements of supply, then fails.
        On failure the pool gives all its elements back, last one first. */
    method Create(supply: seq<nat>) returns (ok: bool, freed: seq<nat>)
      requires currNr == 0 && 0 < minNr == |elements| && threads == map[] && NoDup(supply)
      requires kept == {} && leaving == {} && adding == {} && live == {}
      modifies this
      ensures ok <==> |supply| >= minNr
      ensures ok ==> freed == [] && Valid() && Init(Now()) && elements == supply[..minNr]
      ensures !ok ==> currNr == 0 && |freed| == |supply| && forall i | 0 <= i < |freed| :: freed[i] == supply[|supply| - 1 - i]
    {
      freed := [];
      while currNr < minNr
        invariant currNr <= minNr == |elements| && currNr <= |supply| && elements[..currNr] == supply[..currNr]
        invariant threads == map[] && kept == {} && leaving == {} && adding == {} && minNr == old(minNr)
      {
        if currNr == |supply| {
          freed := FreePool(supply);
          return false, freed;
        }
        assert supply[..currNr + 1] == supply[..currNr] + [supply[currNr]];
        AddElement(supply[currNr]);
      }
      live := set e | e in elements;
      ok := true;
      assert elements[..currNr] == elements;
      assert Init(Now());
    }

    /** free_pool: the elements go back to the allocator. */
    method FreePool(ghost contents: seq<nat>) returns (freed: seq<nat>)
      requires currNr <= |elements| && elements[..currNr] == contents
      modifies this`currNr
      ensures currNr == 0 && |freed| == |contents| && forall i | 0 <= i < |freed| :: freed[i] == contents[|contents| - 1 - i]
    {
      freed := [];
      while currNr != 0
        invariant currNr + |freed| == |contents| && currNr <= |elements|
        invariant elements[..currNr] == contents[..currNr]
        invariant forall i | 0 <= i < |freed| :: freed[i] == contents[|contents| - 1 - i]
        decreases currNr
      {
        var e := RemoveElement();
        assert e == contents[currNr];
        freed := freed + [e];
      }
    }

    /** mempool_alloc after the allocator failed: an element, or none for callers that must not sleep and
        for those on their way to the wait queue. */
    method AllocLocked(t: nat, atomic: bool) returns (r: Option<nat>)
      requires Valid() && t in threads && threads[t] == Tried
      modifies this
      ensures Valid() && MempoolProtocol.AllocLocked(old(Now()), Now(), t, atomic)
      ensures r.Some? <==> old(currNr) > 0
      ensures r.Some? ==> r.value in kept && r.value !in old(kept) && old(elements[..currNr]) == elements[..currNr] + [r.value]
      ensures r.None? ==> if atomic then t !in threads else t in threads && threads[t] == Missed
    {
      ghost var s := Now();
      if currNr != 0 {
        var e := RemoveElement();
        kept := kept + {e};
        threads := threads - {t};
        r := Some(e);
        assert Now().elems == Popped(s).elems;
      } else {
        threads := if atomic then threads - {t} else threads[t := Missed];
        r := None;
      }
      AllocLockedKeeps(s, Now(), t, atomic);
    }

    /** prepare_to_wait */
    method AllocQueue(t: nat)
      requires Valid() && t in threads && threads[t] == Missed
      modifies this`threads
      ensures Valid() && MempoolProtocol.AllocQueue(old(Now()), Now(), t)
    {
      ghost var s := Now();
      threads := threads[t := Queued];
      AllocQueueKeeps(s, Now(), t);
    }

    /** The look at curr_nr between prepare_to_wait and io_schedule. */
    method AllocCheck(t: nat)
      requires Valid() && t in threads && threads[t] == Queued
      modifies this`threads
      ensures Valid() && MempoolProtocol.AllocCheck(old(Now()), Now(), t)
      ensures t in threads && (threads[t] == Sleeping <==> currNr == 0)
    {
      ghost var s := Now();
      threads := threads[t := if currNr == 0 then Sleeping else Retry];
      AllocCheckKeeps(s, Now(), t);
    }

    /** The look at curr_nr and min_nr with which mempool_free begins. */
    method FreeBegin(t: nat, e: nat)
      requires Valid() && t !in threads && e in kept && forall u | u in threads :: !HasElem(threads[u], e)
      modifies this
      ensures Valid() && MempoolProtocol.FreeBegin(old(Now()), Now(), t, e)
      ensures t in threads && threads[t] == if currNr < minNr then FreeSeen(e) else FreeOut(e)
    {
      ghost var s := Now();
      if currNr < minNr {
        threads := threads[t := FreeSeen(e)];
      } else {
        threads := threads[t := FreeOut(e)];
        kept, leaving := kept - {e}, leaving + {e};
      }
      FreeBeginKeeps(s, Now(), t, e);
    }

    /** The locked part of mempool_free. */
    method FreeLocked(t: nat, e: nat)
      requires Valid() && t in threads && threads[t] == FreeSeen(e)
      modifies this
      ensures Valid() && MempoolProtocol.FreeLocked(old(Now()), Now(), t, e)
      ensures elements[..currNr] == old(elements[..currNr]) + if old(currNr < minNr) then [e] else []
      ensures t in threads && threads[t] == if old(currNr < minNr) then Waking else FreeOut(e)
    {
      ghost var s := Now();
      if currNr < minNr {
        AddElement(e);
        threads := threads[t := Waking];
        kept := kept - {e};
      } else {
        threads := threads[t := FreeOut(e)];
        kept, leaving := kept - {e}, leaving + {e};
      }
      FreeLockedKeeps(s, Now(), t, e);
    }

    /** The shrinking loop from where it has the lock to where it releases it. */
    method ShrinkUnderLock(t: nat, to: nat)
      requires Valid() && 0 < to <= minNr
      requires t in threads ==> threads[t] == Shrinking(to)
      requires t !in threads ==> forall u | u in threads :: !IsResize(threads[u])
      modifies this
      ensures Valid() && Now() == ShrinkOnce(old(Now()), t, to)
      ensures elements == old(elements)
      ensures if to < old(currNr) then currNr == old(currNr) - 1 && minNr == old(minNr) else currNr == old(currNr) && minNr == to
    {
      ghost var s := Now();
      if to < currNr {
        var e := RemoveElement();
        threads := threads[t := ShrinkFree(to, e)];
        leaving := leaving + {e};
        assert Now().elems == Popped(s).elems;
      } else {
        minNr := to;
        threads := threads - {t};
      }
      ShrinkOnceSafe(s, t, to);
      ShrinkOnceAlone(s, t, to);
    }

    /** mempool_resize up to the first release of the lock. */
    method ResizeBegin(t: nat, to: nat)
      requires Valid() && t !in threads && to > 0 && forall u | u in threads :: !IsResize(threads[u])
      modifies this
      ensures Valid() && MempoolProtocol.ResizeBegin(old(Now()), Now(), t, to)
    {
      ghost var s := Now();
      if to <= minNr {
        ShrinkUnderLock(t, to);
      } else {
        threads := threads[t := GrowAlloc(to)];
      }
      ResizeBeginKeeps(s, Now(), t, to);
    }

    /** mempool_resize with its new array: another resize may have been faster. */
    method GrowLocked(t: nat, to: nat)
      requires Valid() && t in threads && threads[t] == GrowAlloc(to)
      modifies this
      ensures Valid() && MempoolProtocol.GrowLocked(old(Now()), Now(), t, to)
      ensures elements[..currNr] == old(elements[..currNr])
      ensures if to > old(minNr) then minNr == to == |elements| else minNr == old(minNr) && |elements| == |old(elements)|
    {
      ghost var s := Now();
      if to <= minNr {
        threads := threads - {t};
      } else {
        var newElements := elements[..currNr] + seq(to - currNr, _ => 0);
        assert newElements[..currNr] == elements[..currNr];
        elements := newElements;
        minNr := to;
        threads := if currNr < minNr then threads[t := Filling] else threads - {t};
      }
      GrowLockedKeeps(s, Now(), t, to);
    }

    /** mempool_resize with an element to add: the pool may have filled up. */
    method FillLocked(t: nat, e: nat)
      requires Valid() && t in threads && threads[t] == FillHave(e)
      modifies this
      ensures Valid() && MempoolProtocol.FillLocked(old(Now()), Now(), t, e)
      ensures elements[..currNr] == old(elements[..currNr]) + if old(currNr < minNr) then [e] else []
    {
      ghost var s := Now();
      adding := adding - {e};
      if currNr < minNr {
        AddElement(e);
        threads := if currNr < minNr then threads[t := Filling] else threads - {t};
      } else {
        threads := threads[t := FillOut(e)];
        leaving := leaving + {e};
      }
      FillLockedKeeps(s, Now(), t, e);
    }

    /** wake_up on the pool's wait queue, outside the lock. */
    method WakeUp(t: nat)
      requires Valid() && t in threads && threads[t] == Waking
      modifies this`threads
      ensures Valid() && MempoolProtocol.WakeUp(old(Now()), Now(), t)
      ensures threads.Keys == old(threads).Keys - {t}
      ensures forall u | u in threads ::
                threads[u] == if old(threads)[u].Sleeping? || old(threads)[u].Queued? then Retry else old(threads)[u]
    {
      ghost var s := Now();
      threads := map u | u in threads && u != t :: Awake(threads[u]);
      WakeUpKeeps(s, Now(), t);
    }
  }
}
