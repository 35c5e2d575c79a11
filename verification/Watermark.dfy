/** The watermark gate in front of the buddy lists, in the 32-bit arithmetic of the source. */
module Watermark {
  import opened Bits
  import opened Lists
  import opened Buddy
  import opened ZoneAllocator

  const HALF: int := 0x8000_0000

  /** Conversion to long. */
  function S32(x: int): (r: int)
    ensures -HALF <= r < HALF
  {
    if U32(x) < HALF then U32(x) else U32(x) - WORD
  }

  /** C division by a positive number truncates toward zero. */
  function Quot(x: int, d: int): int
    requires d > 0
  {
    if x >= 0 then x / d else -((-x) / d)
  }

  /** The mark after the reductions for urgent callers. */
  function ReducedMark(mark: nat, canTryHarder: bool, gfpHigh: bool): (r: nat)
    ensures r <= mark && 3 * mark <= 8 * r
    ensures !canTryHarder && !gfpHigh ==> r == mark
    ensures !canTryHarder && gfpHigh ==> mark <= 2 * r <= mark + 1
    ensures canTryHarder && !gfpHigh ==> 3 * mark <= 4 * r <= 3 * mark + 3
    ensures canTryHarder && gfpHigh ==> forall h: nat | mark <= 2 * h <= mark + 1 :: 3 * h <= 4 * r <= 3 * h + 3
  {
    var m := if gfpHigh then mark - mark / 2 else mark;
    if canTryHarder then m - m / 4 else m
  }

  /** The gate in plain integers: enough pages stay free, and for every order k up to the
      requested one, the pages in blocks of order k and above stay above the mark halved k times. */
  ghost predicate MarkMet(a: seq<FreeArea>, freePages: int, order: nat, min: nat, reserve: nat)
    requires order <= |a|
  {
    var left := freePages - Pow2(order) + 1;
    && left > min + reserve
    && forall k: nat | 1 <= k <= order :: left - SumAreas(a, k) > Shr(min, k)
  }

  lemma {:induction false} ShrOfHalf(n: nat, o: nat)
    requires o > 0
    ensures Shr(n, o) == Shr(n / 2, o - 1)
  {
    if o > 1 {
      ShrOfHalf(n, o - 1);
    }
  }

  /** Halving o times is division by 2^o. */
  lemma {:induction false} ShrIsQuotient(n: nat, o: nat)
    ensures Shr(n, o) == n / Pow2(o)
  {
    if o > 0 {
      ShrOfHalf(n, o);
      ShrIsQuotient(n / 2, o - 1);
      HalfDivMod(n, Pow2(o - 1));
    }
  }

  lemma {:induction false} ShrBounds(n: nat, o: nat)
    ensures 0 <= Shr(n, o) <= n
  {
    if o > 0 {
      ShrBounds(n, o - 1);
    }
  }

  /** The pages in the blocks below order n, and the rest, are within the total. */
  lemma {:induction false} SumBounds(a: seq<FreeArea>, k: nat, n: nat)
    requires k <= n <= |a| && forall i | 0 <= i < |a| :: a[i].nrFree >= 0
    ensures 0 <= SumAreas(a, k) <= SumAreas(a, n)
    decreases n
  {
    if n > 0 {
      ShlZero(n - 1);
      ShlMonotone(0, a[n - 1].nrFree, n - 1);
      SumBounds(a, if k < n then k else n - 1, n - 1);
    }
  }

  /** If more pages are free than the smaller orders hold, some larger block is free. */
  lemma {:induction false} LargerBlockExists(a: seq<FreeArea>, k: nat)
    requires |a| == MAX_ORDER && k <= MAX_ORDER && SumAreas(a, k) < SumAreas(a, |a|)
    requires forall i | 0 <= i < |a| :: a[i].nrFree == |a[i].list|
    ensures FirstOrder(a, k) < MAX_ORDER
  {
    if FirstOrder(a, k) >= MAX_ORDER {
      EmptyTail(a, k, |a|);
    }
  }

  lemma {:induction false} EmptyTail(a: seq<FreeArea>, k: nat, n: nat)
    requires k <= n <= |a| && forall i | k <= i < n :: a[i].nrFree == 0
    ensures SumAreas(a, n) == SumAreas(a, k)
    decreases n
  {
    if k < n {
      EmptyTail(a, k, n - 1);
      ShlZero(n - 1);
    }
  }

  /** A zone past the gate has a block of the requested order, and after taking it still holds
      the reduced mark plus the lowmem reserve. */
  lemma {:induction false} GateIsSound(z: Zone, order: nat, min: nat, reserve: nat)
    requires z.Valid() && order < MAX_ORDER && MarkMet(z.area, z.freePages, order, min, reserve)
    ensures FirstOrder(z.area, order) < MAX_ORDER
    ensures z.freePages - Pow2(order) >= min + reserve
  {
    var left := z.freePages - Pow2(order) + 1;
    ShrBounds(min, order);
    assert left - SumAreas(z.area, order) > 0 by {
      if order == 0 {
        assert SumAreas(z.area, 0) == 0;
      }
    }
    LargerBlockExists(z.area, order);
  }

  /** What the zone's invariant says about the list lengths and the page count. */
  ghost predicate Counted(a: seq<FreeArea>, freePages: int) {
    |a| == MAX_ORDER && (forall i | 0 <= i < |a| :: a[i].nrFree >= 0) && freePages == SumAreas(a, |a|)
  }

  lemma {:induction false} InRange(x: int)
    ensures 0 <= x < WORD ==> U32(x) == x
    ensures -HALF <= x < HALF ==> S32(x) == x
    ensures -HALF <= x < 0 ==> U32(x) == x + WORD
  {
  }

  /** Subtracting through unsigned long is subtraction when the result fits. */
  lemma {:induction false} SubThroughUnsigned(x: int, y: int)
    requires 0 <= y < WORD && -HALF <= x - y < HALF
    ensures S32(x - U32(y)) == x - y
  {
  }

  lemma {:induction false} StartInRange(a: seq<FreeArea>, freePages: int, order: nat)
    requires Counted(a, freePages) && freePages < HALF && order < MAX_ORDER
    ensures 0 <= freePages && 1 <= Pow2(order) <= 1024
  {
    SumBounds(a, 0, |a|);
    Pow2Monotone(order, 10);
    assert Pow2(10) == 1024;
  }

  lemma {:induction false} StepInRange(a: seq<FreeArea>, freePages: int, o: nat)
    requires Counted(a, freePages) && o < |a|
    ensures 0 <= SumAreas(a, o) <= SumAreas(a, o + 1) <= freePages
    ensures SumAreas(a, o + 1) == SumAreas(a, o) + Shl(a[o].nrFree, o)
  {
    SumBounds(a, o + 1, |a|);
    SumBounds(a, o, o + 1);
  }

  /** zone_watermark_ok on the zone's free areas, with every C conversion written out. */
  method ZoneWatermarkOk(a: seq<FreeArea>, zonePages: int, order: nat, mark: nat, reserve: nat,
                         canTryHarder: bool, gfpHigh: bool)
    returns (ok: bool)
    requires Counted(a, zonePages) && order < MAX_ORDER
    requires zonePages < HALF && mark < HALF && mark + reserve < WORD
    ensures ok == MarkMet(a, zonePages, order, ReducedMark(mark, canTryHarder, gfpHigh), reserve)
  {
    ghost var left := zonePages - Pow2(order) + 1;
    StartInRange(a, zonePages, order);
    InRange(mark);
    InRange(left);
    var min := S32(mark);
    var freePages := S32(zonePages - Pow2(order) + 1);
    if gfpHigh {
      InRange(min - Quot(min, 2));
      min := S32(min - Quot(min, 2));
    }
    if canTryHarder {
      InRange(min - Quot(min, 4));
      min := S32(min - Quot(min, 4));
    }
    ghost var min0 := ReducedMark(mark, canTryHarder, gfpHigh);
    assert min == min0 && freePages == left;
    InRange(min + reserve);
    InRange(freePages);
    if U32(freePages) <= U32(min + reserve) {
      return false;
    }
    ok := CheckOrders(a, zonePages, order, freePages, min);
    if left < 0 {
      var k: nat := 1;
      StepInRange(a, zonePages, 0);
      ShrBounds(min0, k);
      assert k <= order && left - SumAreas(a, k) <= Shr(min0, k);
      assert !ok;
    } else {
      assert left > min0 + reserve;
      assert ok ==> MarkMet(a, zonePages, order, min0, reserve);
      assert MarkMet(a, zonePages, order, min0, reserve) ==> ok;
    }
  }

  /** The loop of zone_watermark_ok. */
  method CheckOrders(a: seq<FreeArea>, zonePages: int, order: nat, free0: int, min0: nat) returns (ok: bool)
    requires Counted(a, zonePages) && order < MAX_ORDER
    requires -HALF < free0 - zonePages && free0 <= zonePages < HALF
    ensures ok == forall k: nat | 1 <= k <= order :: free0 - SumAreas(a, k) > Shr(min0, k)
  {
    var freePages, min := free0, min0 as int;
    for o := 0 to order
      invariant min == Shr(min0, o) && freePages == free0 - SumAreas(a, o)
      invariant forall k: nat | 1 <= k <= o :: free0 - SumAreas(a, k) > Shr(min0, k)
    {
      StepInRange(a, zonePages, o);
      SubThroughUnsigned(freePages, Shl(a[o].nrFree, o));
      freePages := S32(freePages - U32(Shl(a[o].nrFree, o)));
      min := min / 2;
      if freePages <= min {
        assert free0 - SumAreas(a, o + 1) <= Shr(min0, o + 1);
        return false;
      }
    }
    return true;
  }

  /** The gate and the allocator agree: when the gate opens for a zone, taking a block from it
      succeeds, and no fewer than the reduced mark plus the reserve stay free. */
  method AllocPastGate(z: Zone, order: nat, mark: nat, reserve: nat, canTryHarder: bool, gfpHigh: bool)
    returns (ok: bool, r: Option<nat>)
    requires z.Valid() && order < MAX_ORDER
    requires z.freePages < HALF && mark < HALF && mark + reserve < WORD
    modifies z
    ensures z.Valid() && (ok ==> r.Some?) && (!ok ==> r == None)
    ensures ok ==> z.freePages >= ReducedMark(mark, canTryHarder, gfpHigh) + reserve
  {
    ok := ZoneWatermarkOk(z.area, z.freePages, order, mark, reserve, canTryHarder, gfpHigh);
    r := None;
    if ok {
      GateIsSound(z, order, ReducedMark(mark, canTryHarder, gfpHigh), reserve);
      r := z.Rmqueue(order);
    }
  }
}
