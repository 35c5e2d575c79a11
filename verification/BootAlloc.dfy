/** The boot allocator's state and operations: who owns which bytes while pages are handed out
    whole, in part, and merged. */
module BootAlloc {
  import opened Bits
  import opened Lists
  import opened Bootmem

  predicate InBytes(x: int, a: int, n: int) {
    a <= x < a + n
  }

  /** The n bytes from a. */
  function Bytes(a: nat, n: nat): set<nat> {
    set x: nat | a <= x < a + n && InBytes(x, a, n)
  }

  /** The unused rest of the page in which the last allocation ended. */
  function Tail(b: Boot): set<nat>
    requires b.lastOffset < PAGE
  {
    if b.lastOffset == 0 then {} else Bytes(b.lastPos * PAGE + b.lastOffset, PAGE - b.lastOffset)
  }

  /** Owned bytes lie in reserved pages; when the last allocation ended inside a page, the rest of
      that page is reserved and owned by nobody. */
  ghost predicate BootOk(b: Boot, live: set<nat>) {
    && |b.bits| > 0 && b.bits[|b.bits| - 1]
    && (forall x | x in live :: x / PAGE < |b.bits| - 1 && b.bits[x / PAGE])
    && b.lastOffset < PAGE
    && (b.lastOffset != 0 ==>
          && b.lastPos < |b.bits| - 1 && b.bits[b.lastPos]
          && Bytes(b.lastPos * PAGE + b.lastOffset, PAGE - b.lastOffset) !! live)
  }

  /** The bits from i up to j set, or cleared. */
  function SetRange(bits: seq<bool>, i: nat, j: nat, v: bool): (r: seq<bool>)
    ensures |r| == |bits|
  {
    seq(|bits|, k requires 0 <= k < |bits| => if i <= k < j then v else bits[k])
  }

  /** (x + align - 1) & ~(align - 1) in unsigned arithmetic: zero when align is zero. */
  function RoundUp(x: nat, align: nat): nat {
    if align == 0 then 0 else AlignUp(x, align)
  }

  function PagesFor(size: nat): (n: nat)
    ensures size <= n * PAGE < size + PAGE
  {
    (size + PAGE - 1) / PAGE
  }

  /** Page k has one of the n bytes from a; page k lies wholly among them. */
  predicate Touched(a: nat, n: nat, k: nat) {
    a < (k + 1) * PAGE && k * PAGE < a + n
  }

  predicate Inside(a: nat, n: nat, k: nat) {
    a <= k * PAGE && (k + 1) * PAGE <= a + n
  }

  lemma {:induction false} TouchedRange(a: nat, n: nat)
    requires n > 0
    ensures forall k: nat :: Touched(a, n, k) <==> a / PAGE <= k < (a + n + PAGE - 1) / PAGE
  {
  }

  lemma {:induction false} InsideRange(a: nat, n: nat)
    ensures forall k: nat :: Inside(a, n, k) <==> (a + PAGE - 1) / PAGE <= k < (a + n) / PAGE
  {
  }

  datatype Placement = Placement(ret: nat, areasize: nat, lastPos: int, lastOffset: nat)

  /** Where a request goes once a free run at start is found: merged into the previous
      allocation's last page when start is the page after it. */
  function Place(b: Boot, start: nat, size: nat, align: nat): Placement
    requires IsPow2(align) || align == 0
    requires b.lastOffset < PAGE
  {
    if align < PAGE && b.lastOffset != 0 && b.lastPos + 1 == start then
      OffsetInPage(b.lastOffset, align);
      var offset := RoundUp(b.lastOffset, align);
      var remaining: nat := PAGE - offset;
      if size < remaining then
        Placement(b.lastPos * PAGE + offset, 0, b.lastPos, (offset + size) % PAGE)
      else
        var areasize := PagesFor(size - remaining);
        Placement(b.lastPos * PAGE + offset, areasize, start + areasize - 1, (size - remaining) % PAGE)
    else
      Placement(start * PAGE, PagesFor(size), start + PagesFor(size) - 1, size % PAGE)
  }

  /** The merge offset stays inside the page. */
  lemma {:induction false} OffsetInPage(x: nat, align: nat)
    requires x < PAGE && align < PAGE && (IsPow2(align) || align == 0)
    ensures RoundUp(x, align) <= PAGE
    ensures align > 0 ==> x <= RoundUp(x, align) && MultipleOf(RoundUp(x, align), align)
  {
    if align > 0 {
      AlignUpIsLeast(x, align);
      PageIsPow2();
      MultipleSelf(PAGE);
      MultipleTrans(PAGE, PAGE, align);
    }
  }

  /** The state after a request was placed. */
  function AfterPlace(b: Boot, start: nat, p: Placement): Boot
    requires p.lastPos >= 0
  {
    Boot(SetRange(b.bits, start, start + p.areasize, true), p.lastPos, p.lastOffset)
  }

  /** A request placed at start continues in the last page of the previous allocation. */
  predicate Merges(b: Boot, start: nat, align: nat) {
    align < PAGE && b.lastOffset != 0 && b.lastPos + 1 == start
  }

  /** Without a merge alignment zero is like alignment one. */
  lemma {:induction false} PlaceUnaligned(b: Boot, start: nat, size: nat)
    requires b.lastOffset < PAGE && !Merges(b, start, 0)
    ensures Place(b, start, size, 0) == Place(b, start, size, 1)
  {
  }

  /** A request takes no more new pages than its size needs. */
  lemma {:induction false} PlaceArea(b: Boot, start: nat, size: nat, align: nat)
    requires b.lastOffset < PAGE && size > 0 && (align == 0 || IsPow2(align))
    ensures Place(b, start, size, align).areasize <= PagesFor(size) && Place(b, start, size, align).lastPos >= 0
  {
    if Merges(b, start, align) {
      OffsetInPage(b.lastOffset, align);
    }
  }

  /** A placed request gets bytes nobody owns, in pages that are or will be reserved. */
  lemma {:induction false} PlaceFresh(b: Boot, live: set<nat>, start: nat, size: nat, align: nat)
    requires BootOk(b, live) && size > 0 && IsPow2(align)
    requires RunFree(b.bits, start, PagesFor(size))
    ensures var p := Place(b, start, size, align);
            && p.lastPos >= 0 && p.areasize <= PagesFor(size)
            && Bytes(p.ret, size) !! live
            && forall x | x in Bytes(p.ret, size) :: x / PAGE < |b.bits| - 1 && AfterPlace(b, start, p).bits[x / PAGE]
  {
    var p := Place(b, start, size, align);
    if align < PAGE && b.lastOffset != 0 && b.lastPos + 1 == start {
      OffsetInPage(b.lastOffset, align);
    }
    forall x | x in Bytes(p.ret, size)
      ensures x !in live
      ensures x / PAGE < |b.bits| - 1 && AfterPlace(b, start, p).bits[x / PAGE]
    {
      assert x / PAGE >= start ==> start <= x / PAGE < start + PagesFor(size) && !b.bits[x / PAGE];
      if x / PAGE < start {
        assert x in Bytes(b.lastPos * PAGE + b.lastOffset, PAGE - b.lastOffset);
      }
    }
  }

  /** Placing a request keeps the state consistent. */
  lemma {:induction false} PlaceOk(b: Boot, live: set<nat>, start: nat, size: nat, align: nat)
    requires BootOk(b, live) && size > 0 && IsPow2(align)
    requires RunFree(b.bits, start, PagesFor(size))
    ensures var p := Place(b, start, size, align);
            p.lastPos >= 0 && BootOk(AfterPlace(b, start, p), live + Bytes(p.ret, size))
  {
    PlaceFresh(b, live, start, size, align);
    PlaceLast(b, live, start, size, align);
    var p := Place(b, start, size, align);
    forall x | x in live + Bytes(p.ret, size) && p.lastOffset != 0
      ensures x !in Bytes(p.lastPos * PAGE + p.lastOffset, PAGE - p.lastOffset)
    {
      PlaceTail(b, live, start, size, align, x);
    }
  }

  /** The last page is reserved. */
  lemma {:induction false} PlaceLast(b: Boot, live: set<nat>, start: nat, size: nat, align: nat)
    requires BootOk(b, live) && size > 0 && IsPow2(align)
    requires RunFree(b.bits, start, PagesFor(size))
    ensures var p := Place(b, start, size, align);
            && p.lastPos >= 0 && p.lastOffset < PAGE
            && (p.lastOffset != 0 ==> p.lastPos < |b.bits| - 1 && AfterPlace(b, start, p).bits[p.lastPos])
  {
    if align < PAGE && b.lastOffset != 0 && b.lastPos + 1 == start {
      OffsetInPage(b.lastOffset, align);
    }
  }

  /** Where a placed request ends, and whether its last page is the old one or one of the run. */
  lemma {:induction false} PlaceEnd(b: Boot, start: nat, size: nat, align: nat)
    requires b.lastOffset < PAGE && size > 0 && IsPow2(align)
    ensures var p := Place(b, start, size, align);
            p.lastOffset != 0 ==>
              && p.ret + size == p.lastPos * PAGE + p.lastOffset
              && if p.lastPos < start then b.lastOffset != 0 && p.lastPos == b.lastPos && b.lastOffset <= p.lastOffset
                 else p.lastPos < start + PagesFor(size)
  {
    if align < PAGE && b.lastOffset != 0 && b.lastPos + 1 == start {
      OffsetInPage(b.lastOffset, align);
      MergeEnd(b, start, size, align, RoundUp(b.lastOffset, align));
    } else {
      LastPage(size, size);
    }
  }

  /** The same for a request that is merged at an offset in the old page. */
  lemma {:induction false} MergeEnd(b: Boot, start: nat, size: nat, align: nat, offset: nat)
    requires b.lastOffset < PAGE && size > 0 && IsPow2(align) && Merges(b, start, align)
    requires offset == RoundUp(b.lastOffset, align) && b.lastOffset <= offset <= PAGE
    ensures var p := Place(b, start, size, align);
            p.lastOffset != 0 ==>
              && p.ret + size == p.lastPos * PAGE + p.lastOffset
              && if p.lastPos < start then p.lastPos == b.lastPos && b.lastOffset <= p.lastOffset
                 else p.lastPos < start + PagesFor(size)
  {
    var p, remaining := Place(b, start, size, align), PAGE - offset;
    if size >= remaining {
      LastPage(size - remaining, size);
      assert p.lastPos == start + PagesFor(size - remaining) - 1 && p.lastOffset == (size - remaining) % PAGE;
    } else {
      assert p.lastPos == b.lastPos && p.lastOffset == offset + size;
    }
  }

  /** A rest of n bytes ends in the last of its pages. */
  lemma {:induction false} LastPage(n: nat, size: nat)
    requires n <= size
    ensures n % PAGE != 0 ==> (PagesFor(n) - 1) * PAGE + n % PAGE == n
    ensures PagesFor(n) <= PagesFor(size)
  {
  }

  /** A request for the size bytes at ret has reserved exactly the pages that they touch, and the last page and
      offset are those of their end. */
  ghost predicate ExactAt(bits0: seq<bool>, b: Boot, ret: nat, size: nat) {
    && |b.bits| == |bits0|
    && (forall k: nat {:trigger b.bits[k]} | k < |bits0| :: b.bits[k] <==> bits0[k] || Touched(ret, size, k))
    && b.lastOffset == (ret + size) % PAGE
    && b.lastPos == (ret + size - 1) / PAGE
  }

  /** The pages from the run that a request at ret reserves are those behind ret's own page, or begin with it. */
  lemma {:induction false} RunTouched(ret: nat, size: nat, start: nat, n: nat)
    requires size > 0 && (start + n) * PAGE >= ret + size > (start + n - 1) * PAGE
    requires start * PAGE - PAGE <= ret <= start * PAGE
    ensures forall k: nat :: Touched(ret, size, k) <==> start <= k < start + n || (ret < start * PAGE && k == start - 1)
    ensures (ret + size - 1) / PAGE == start + n - 1
  {
  }

  /** At the beginning of the run. */
  lemma {:induction false} FreshExact(b: Boot, start: nat, size: nat, align: nat)
    requires b.lastOffset < PAGE && size > 0 && (align == 0 || IsPow2(align)) && RunFree(b.bits, start, PagesFor(size))
    requires !Merges(b, start, align)
    ensures ExactAt(b.bits, AfterPlace(b, start, Place(b, start, size, align)), start * PAGE, size)
  {
    RunTouched(start * PAGE, size, start, PagesFor(size));
  }

  lemma {:induction false} DivModOf(q: nat, o: nat)
    requires o < PAGE
    ensures (q * PAGE + o) % PAGE == o && (q * PAGE + o) / PAGE == q
  {
  }

  lemma {:induction false} SameMod(q: nat, n: nat)
    ensures (q * PAGE + n) % PAGE == n % PAGE
  {
    DivModOf(q + n / PAGE, n % PAGE);
  }

  /** Inside the old page. */
  lemma {:induction false} InPageExact(b: Boot, start: nat, size: nat, align: nat, offset: nat)
    requires b.lastOffset < PAGE && size > 0 && (align == 0 || IsPow2(align)) && RunFree(b.bits, start, PagesFor(size))
    requires Merges(b, start, align) && b.bits[b.lastPos] && offset == RoundUp(b.lastOffset, align) && offset + size < PAGE
    ensures ExactAt(b.bits, AfterPlace(b, start, Place(b, start, size, align)), b.lastPos * PAGE + offset, size)
  {
    RunTouched(b.lastPos * PAGE + offset, size, start, 0);
    DivModOf(b.lastPos, offset + size);
    assert Place(b, start, size, align) == Placement(b.lastPos * PAGE + offset, 0, b.lastPos, (offset + size) % PAGE);
  }

  /** From the old page, or from its end, into the run. */
  lemma {:induction false} AcrossExact(b: Boot, start: nat, size: nat, align: nat, offset: nat)
    requires b.lastOffset < PAGE && size > 0 && (align == 0 || IsPow2(align)) && RunFree(b.bits, start, PagesFor(size))
    requires Merges(b, start, align) && b.bits[b.lastPos] && offset == RoundUp(b.lastOffset, align) <= PAGE <= offset + size
    ensures PagesFor(size - (PAGE - offset)) <= PagesFor(size)
    ensures ExactAt(b.bits, AfterPlace(b, start, Place(b, start, size, align)), b.lastPos * PAGE + offset, size)
  {
    var rest: nat := size - (PAGE - offset);
    RunTouched(b.lastPos * PAGE + offset, size, start, PagesFor(rest));
    SameMod(start, rest);
    assert Place(b, start, size, align) == Placement(b.lastPos * PAGE + offset, PagesFor(rest), start + PagesFor(rest) - 1, rest % PAGE);
  }

  lemma {:induction false} PlaceExact(b: Boot, start: nat, size: nat, align: nat)
    requires b.lastOffset < PAGE && size > 0 && (align == 0 || IsPow2(align)) && RunFree(b.bits, start, PagesFor(size))
    requires Merges(b, start, align) ==> b.bits[b.lastPos]
    ensures Place(b, start, size, align).lastPos >= 0
    ensures ExactAt(b.bits, AfterPlace(b, start, Place(b, start, size, align)), Place(b, start, size, align).ret, size)
  {
    PlaceArea(b, start, size, align);
    if !Merges(b, start, align) {
      FreshExact(b, start, size, align);
    } else {
      OffsetInPage(b.lastOffset, align);
      var offset := RoundUp(b.lastOffset, align);
      if offset + size < PAGE {
        InPageExact(b, start, size, align, offset);
      } else {
        AcrossExact(b, start, size, align, offset);
      }
    }
  }

  /** The rest of the last page is in nobody's hands. */
  lemma {:induction false} PlaceTail(b: Boot, live: set<nat>, start: nat, size: nat, align: nat, x: nat)
    requires BootOk(b, live) && size > 0 && IsPow2(align)
    requires RunFree(b.bits, start, PagesFor(size))
    ensures var p := Place(b, start, size, align);
            p.lastOffset != 0 && p.lastPos * PAGE + p.lastOffset <= x < (p.lastPos + 1) * PAGE ==>
              x !in live && x !in Bytes(p.ret, size)
  {
    PlaceEnd(b, start, size, align);
    var p := Place(b, start, size, align);
    if p.lastPos < start {
      assert b.lastPos * PAGE + b.lastOffset <= x < (b.lastPos + 1) * PAGE ==>
               x in Bytes(b.lastPos * PAGE + b.lastOffset, PAGE - b.lastOffset);
    } else {
      assert x / PAGE == p.lastPos && p.lastPos < start + PagesFor(size) ==> !b.bits[p.lastPos];
    }
  }

  /** The address is aligned as asked up to a page, and beyond a page exactly when the node is. */
  lemma {:induction false} PlaceAligned(b: Boot, start: nat, size: nat, align: nat, origin: nat)
    requires IsPow2(align) && b.lastOffset < PAGE && MultipleOf(origin, PageSize())
    requires MultipleOf(start, Incr(align))
    ensures align <= PAGE ==> MultipleOf(origin + Place(b, start, size, align).ret, align)
    ensures align > PAGE ==>
              (MultipleOf(origin + Place(b, start, size, align).ret, align) <==> MultipleOf(origin, align))
  {
    if align <= PAGE {
      PlaceAlignedInPage(b, start, size, align);
      PageIsPow2();
      MultipleTrans(origin, PAGE, align);
      MultipleAdd(origin, Place(b, start, size, align).ret, align);
    } else {
      var ret := Place(b, start, size, align).ret;
      assert ret == start * PAGE;
      MultipleShl(start, Incr(align), 12);
      ShlPage(start);
      ShlPage(Incr(align));
      if MultipleOf(origin, align) {
        MultipleAdd(origin, ret, align);
      }
      if MultipleOf(origin + ret, align) {
        MultipleAdd(origin + ret, ret, align);
      }
    }
  }

  lemma {:induction false} PlaceAlignedInPage(b: Boot, start: nat, size: nat, align: nat)
    requires IsPow2(align) && align <= PAGE && b.lastOffset < PAGE
    ensures MultipleOf(Place(b, start, size, align).ret, align)
  {
    PageIsPow2();
    MultipleTimes(start, PAGE);
    MultipleTrans(start * PAGE, PAGE, align);
    if align < PAGE && b.lastOffset != 0 && b.lastPos + 1 == start {
      MultipleTimes(b.lastPos, PAGE);
      MultipleTrans(b.lastPos * PAGE, PAGE, align);
      OffsetInPage(b.lastOffset, align);
      MultipleAdd(b.lastPos * PAGE, RoundUp(b.lastOffset, align), align);
    }
  }

  /** The page size, known to be a power of two. */
  function PageSize(): (r: nat)
    ensures r == PAGE && IsPow2(r)
  {
    PageIsPow2();
    PAGE
  }

  lemma {:induction false} DoubleBoth(x: nat, a: nat)
    requires IsPow2(a) && MultipleOf(x, a)
    ensures IsPow2(2 * a) && MultipleOf(2 * x, 2 * a)
  {
    assert 2 * a / 2 == a && 2 * x / 2 == x && 2 * a > 1;
  }

  lemma {:induction false} MultipleShl(x: nat, a: nat, m: nat)
    requires IsPow2(a) && MultipleOf(x, a)
    ensures Shl(x, m) >= 0 && Shl(a, m) > 0 && IsPow2(Shl(a, m)) && MultipleOf(Shl(x, m), Shl(a, m))
  {
    if m > 0 {
      MultipleShl(x, a, m - 1);
      DoubleBoth(Shl(x, m - 1), Shl(a, m - 1));
    }
  }

  lemma {:induction false} ShlPage(x: nat)
    ensures Shl(x, 12) == x * PAGE
  {
    ShlTimes(x, 12);
    assert Pow2(12) == PAGE;
  }

  lemma {:induction false} ShlTimes(x: nat, m: nat)
    ensures Shl(x, m) == x * Pow2(m)
  {
    if m > 0 {
      ShlTimes(x, m - 1);
      assert x * (2 * Pow2(m - 1)) == 2 * (x * Pow2(m - 1));
    }
  }

  /** With alignment zero the merge starts at the beginning of the partly used page. */
  lemma {:induction false} DisjointIffAligned(align: nat)
    requires align == 0 || IsPow2(align)
    ensures (forall b: Boot, live: set<nat>, start: nat, size: nat | BootOk(b, live) && size > 0 && RunFree(b.bits, start, PagesFor(size)) ::
               Bytes(Place(b, start, size, align).ret, size) !! live)
       <==> align > 0
  {
    if align == 0 {
      var b := Boot([true, false, true], 0, 100);
      var live := Bytes(0, 100);
      assert RunFree(b.bits, 1, PagesFor(8));
      assert BootOk(b, live);
      assert 0 in Bytes(Place(b, 1, 8, 0).ret, 8) && 0 in live;
    } else {
      forall b: Boot, live: set<nat>, start: nat, size: nat | BootOk(b, live) && size > 0 && RunFree(b.bits, start, PagesFor(size))
        ensures Bytes(Place(b, start, size, align).ret, size) !! live
      {
        PlaceFresh(b, live, start, size, align);
      }
    }
  }

  /** The alignment offset of the node's first page, in pages. */
  function Offset(origin: nat, align: nat): nat {
    if align != 0 && And(origin, align - 1) != 0 && And(origin, align - 1) < align then (align - And(origin, align - 1)) / PAGE else 0
  }

  /** The page the search starts from. */
  function Preferred(origin: nat, lowPfn: nat, lastSuccess: nat, align: nat, goal: nat): nat {
    var p := if goal != 0 && goal >= origin && goal / PAGE < lowPfn then
               if lastSuccess >= goal - origin then lastSuccess else goal - origin
             else 0;
    RoundUp(p, align) / PAGE + Offset(origin, align)
  }

  class BootmemData {
    const origin: nat        // node_boot_start
    const lowPfn: nat        // node_low_pfn
    var bits: seq<bool>
    var lastPos: nat
    var lastOffset: nat
    var lastSuccess: nat
    ghost var live: set<nat>

    ghost function View(): Boot
      reads this
    {
      Boot(bits, lastPos, lastOffset)
    }

    ghost predicate Valid()
      reads this
    {
      && origin % PAGE == 0 && origin / PAGE + |bits| - 1 == lowPfn
      && BootOk(View(), live)
    }

    /** init_bootmem_core: everything starts reserved, in the hands of the boot code. */
    constructor (startPfn: nat, endPfn: nat)
      requires startPfn <= endPfn
      ensures Valid() && origin == startPfn * PAGE && lowPfn == endPfn
      ensures bits == seq(endPfn - startPfn + 1, _ => true)
      ensures live == Bytes(0, (endPfn - startPfn) * PAGE)
    {
      origin, lowPfn := startPfn * PAGE, endPfn;
      bits := seq(endPfn - startPfn + 1, _ => true);
      lastPos, lastOffset, lastSuccess := 0, 0, 0;
      live := Bytes(0, (endPfn - startPfn) * PAGE);
    }

    /** The loop of free_bootmem_core: no bit in the range is clear already. */
    method ClearBits(sidx: nat, eidx: nat)
      requires eidx <= |bits| && forall i | sidx <= i < eidx :: bits[i]
      modifies this`bits
      ensures bits == SetRange(old(bits), sidx, eidx, false)
    {
      var i := sidx;
      while i < eidx
        invariant sidx <= i && (i <= eidx || i == sidx)
        invariant bits == SetRange(old(bits), sidx, i, false)
      {
        assert old(bits)[i];
        bits := bits[i := false];
        i := i + 1;
      }
    }

    /** The last loop of alloc_bootmem_core: no bit in the range is set already. */
    method MarkBits(start: nat, end: nat)
      requires start <= end && Clear(bits, start, end)
      modifies this`bits
      ensures bits == SetRange(old(bits), start, end, true)
    {
      for i := start to end
        invariant bits == SetRange(old(bits), start, i, true)
      {
        assert !bits[i];
        bits := bits[i := true];
      }
    }

    /** The inner loop of the search. */
    method FindBlocked(from: nat, hi: nat) returns (j: nat)
      requires |bits| > 0 && from <= hi
      ensures j == FirstBlocked(bits, |bits| - 1, from, hi)
    {
      var eidx := |bits| - 1;
      j := from;
      while j < hi && j < eidx && !bits[j]
        invariant from <= j <= hi
        invariant FirstBlocked(bits, eidx, j, hi) == FirstBlocked(bits, eidx, from, hi)
      {
        j := j + 1;
      }
    }

    /** One round of the search loop. */
    method RoundAt(i: nat, incr: nat, areasize: nat) returns (r: Round)
      requires i < |bits| - 1 && IsPow2(incr) && areasize > 0
      ensures r == SearchRound(bits, i, incr, areasize)
    {
      var z := Candidate(bits, i, incr);
      if TestBit(bits, z) {
        return GoOn(z + incr);
      }
      var j := FindBlocked(z + 1, z + areasize);
      if j == z + areasize {
        return Found(z);
      }
      return GoOn(Resume(j, incr));
    }

    /** One pass of the search of alloc_bootmem_core. */
    method ScanFrom(from: nat, incr: nat, areasize: nat) returns (r: Option<nat>)
      requires |bits| > 0 && IsPow2(incr) && areasize > 0
      ensures r == Scan(bits, from, incr, areasize)
      ensures incr == 1 ==> forall s: nat | from <= s && (r.None? || s < r.value) :: !RunFree(bits, s, areasize)
    {
      PassFirst(bits, from, incr, areasize);
      var i := from;
      while i < |bits| - 1
        invariant Scan(bits, i, incr, areasize) == Scan(bits, from, incr, areasize)
      {
        var round := RoundAt(i, incr, areasize);
        match round {
          case Found(z) => return Some(z);
          case GoOn(next) => i := next;
        }
      }
      return None;
    }

    /** free_bootmem_core: the owner of a range gives it back; only whole pages become free. */
    method FreeCore(addr: nat, size: nat)
      requires Valid() && size > 0 && origin <= addr && (addr + size) / PAGE <= lowPfn
      requires Bytes(addr - origin, size) <= live
      modifies this
      ensures Valid() && live == old(live) - Bytes(addr - origin, size)
      ensures |bits| == |old(bits)|
      ensures forall k: nat {:trigger bits[k]} | k < |bits| :: bits[k] <==> old(bits)[k] && !Inside(addr - origin, size, k)
      ensures lastPos == old(lastPos) && lastOffset == old(lastOffset)
      ensures lastSuccess == if addr < old(lastSuccess) then addr else old(lastSuccess)
    {
      RangePages(origin, addr, size);
      var eidx := (addr + size - origin) / PAGE;
      if addr < lastSuccess {
        lastSuccess := addr;
      }
      var start := (addr + PAGE - 1) / PAGE;
      var sidx := start - origin / PAGE;
      ghost var b, a: nat := View(), addr - origin;
      assert sidx == (a + PAGE - 1) / PAGE && eidx == (a + size) / PAGE;
      WholePagesOwned(b, live, a, size);
      FreeKeeps(b, live, a, size);
      ClearBits(sidx, eidx);
      InsideRange(a, size);
      live := live - Bytes(a, size);
      assert View() == b.(bits := SetRange(b.bits, (a + PAGE - 1) / PAGE, (a + size) / PAGE, false));
    }

    /** alloc_bootmem_core: size bytes at the given alignment, from the goal up if possible.  Only a merge
        with alignment zero can hand out bytes that are owned. */
    method AllocCore(size: nat, align: nat, goal: nat) returns (r: Option<nat>)
      requires Valid() && size > 0 && (align == 0 || IsPow2(align))
      modifies this
      ensures var preferred := Preferred(origin, lowPfn, old(lastSuccess), align, goal);
              var found := Search(old(bits), preferred, Offset(origin, align), Incr(align), PagesFor(size));
              && (align <= PAGE ==> GoalFirst(old(bits), preferred, PagesFor(size), found))
              && if found.None? then r == None && unchanged(this)
              else
                && Placed(old(View()), old(live), found.value, size, align, r)
                && (align > 0 || !Merges(old(View()), found.value, align) ==> Sound(old(live), size, align, r))
      ensures r.None? || align > 0 ==> Valid()
      ensures r.Some? ==> r.value >= origin && ExactAt(old(bits), View(), r.value - origin, size)
      ensures r.Some? && align > 0 ==> Sound(old(live), size, align, r)
      ensures r.None? && align <= PAGE ==> forall s: nat :: !RunFree(bits, s, PagesFor(size))
    {
      var areasize := PagesFor(size);
      var incr := Incr(align);
      var offset := Offset(origin, align);
      var preferred := Preferred(origin, lowPfn, lastSuccess, align, goal);
      FoundRun(View(), live, preferred, offset, incr, areasize);
      SearchGoal(origin, bits, preferred, align, areasize);
      var found := SearchFrom(preferred, offset, incr, areasize);
      if found == None {
        AllocFails(origin, bits, preferred, align, areasize);
        return None;
      }
      r := TakeRun(found.value, size, align);
    }

    /** The two passes of the search. */
    method SearchFrom(preferred: nat, offset: nat, incr: nat, areasize: nat) returns (r: Option<nat>)
      requires |bits| > 0 && IsPow2(incr) && areasize > 0
      ensures r == Search(bits, preferred, offset, incr, areasize)
    {
      r := ScanFrom(preferred, incr, areasize);
      if r == None && preferred > offset {
        r := ScanFrom(offset, incr, areasize);
      }
    }

    /** A request was placed at the free run that begins at start. */
    ghost predicate Placed(b: Boot, owned: set<nat>, start: nat, size: nat, align: nat, r: Option<nat>)
      requires b.lastOffset < PAGE && (align == 0 || IsPow2(align))
      reads this
    {
      var p := Place(b, start, size, align);
      && p.lastPos >= 0
      && r == Some(origin + p.ret)
      && View() == AfterPlace(b, start, p)
      && live == owned + Bytes(p.ret, size)
      && lastSuccess == start * PAGE
    }

    /** The bytes handed out were nobody's, lie in reserved pages of the node and are aligned as asked,
        for more than a page exactly when the node is. */
    ghost predicate Sound(owned: set<nat>, size: nat, align: nat, r: Option<nat>)
      reads this
    {
      && Valid() && r.Some? && r.value >= origin
      && live == owned + Bytes(r.value - origin, size)
      && SoundAt(bits, owned, r.value - origin, size, align, origin)
    }

    /** The part of alloc_bootmem_core after the label found. */
    method TakeRun(start: nat, size: nat, align: nat) returns (r: Option<nat>)
      requires Valid() && size > 0 && (align == 0 || IsPow2(align))
      requires RunFree(bits, start, PagesFor(size)) && MultipleOf(start, Incr(align))
      modifies this
      ensures Placed(old(View()), old(live), start, size, align, r)
      ensures align > 0 || !Merges(old(View()), start, align) ==> Sound(old(live), size, align, r)
      ensures r.Some? && r.value >= origin && ExactAt(old(bits), View(), r.value - origin, size)
    {
      ghost var b, owned := View(), live;
      if align > 0 || !Merges(b, start, align) {
        PlaceSound(b, live, start, size, align, origin);
      }
      r := PlaceAt(start, size, align);
      assert align > 0 || !Merges(b, start, align) ==> BootOk(View(), live);
    }

    /** What alloc_bootmem_core does at a free run. */
    method PlaceAt(start: nat, size: nat, align: nat) returns (r: Option<nat>)
      requires lastOffset < PAGE && size > 0 && (align == 0 || IsPow2(align)) && RunFree(bits, start, PagesFor(size))
      requires Merges(View(), start, align) ==> bits[lastPos]
      modifies this
      ensures Placed(old(View()), old(live), start, size, align, r)
      ensures r.Some? && r.value >= origin && ExactAt(old(bits), View(), r.value - origin, size)
    {
      ghost var p := Place(View(), start, size, align);
      PlaceExact(View(), start, size, align);
      PlaceArea(View(), start, size, align);
      lastSuccess := start * PAGE;
      assert start < |bits| - 1;
      var ret, areasize := MergeOrStart(start, size, align);
      MarkBits(start, start + areasize);
      live := live + Bytes(p.ret, size);
      return Some(ret + origin);
    }

    /** The merge decision of alloc_bootmem_core. */
    method MergeOrStart(start: nat, size: nat, align: nat) returns (ret: nat, areasize: nat)
      requires (align == 0 || IsPow2(align)) && lastOffset < PAGE && size > 0
      modifies this`lastPos, this`lastOffset
      ensures old(Place(View(), start, size, align)) == Placement(ret, areasize, lastPos, lastOffset)
    {
      areasize := PagesFor(size);
      if align < PAGE && lastOffset != 0 && lastPos + 1 == start {
        OffsetInPage(lastOffset, align);
        var offset := RoundUp(lastOffset, align);
        assert offset <= PAGE;
        var remaining := PAGE - offset;
        ret := lastPos * PAGE + offset;
        if size < remaining {
          areasize := 0;
          lastOffset := offset + size;
        } else {
          remaining := size - remaining;
          areasize := PagesFor(remaining);
          lastPos := start + areasize - 1;
          lastOffset := remaining;
        }
        lastOffset := lastOffset % PAGE;
      } else {
        lastPos := start + areasize - 1;
        lastOffset := size % PAGE;
        ret := start * PAGE;
      }
    }

    /** The loop of reserve_bootmem_core; twice says whether a bit was set already. */
    method SetBits(sidx: nat, eidx: nat) returns (twice: bool)
      requires sidx <= eidx < |bits|
      modifies this`bits
      ensures bits == SetRange(old(bits), sidx, eidx, true) && (twice <==> !Clear(old(bits), sidx, eidx))
    {
      twice := false;
      for i := sidx to eidx
        invariant bits == SetRange(old(bits), sidx, i, true) && (twice <==> !Clear(old(bits), sidx, i))
      {
        if bits[i] {
          twice := true;
        }
        bits := bits[i := true];
      }
    }

    /** reserve_bootmem_core: the pages that a range touches become reserved.  The range gets an owner
        when it is nobody's and misses the unused tail of the last allocation. */
    method ReserveCore(addr: nat, size: nat) returns (twice: bool, ghost owned: bool)
      requires Valid() && size > 0 && origin <= addr && (addr + size + PAGE - 1) / PAGE <= lowPfn
      modifies this
      ensures Valid()
      ensures |bits| == |old(bits)|
      ensures forall k: nat {:trigger bits[k]} | k < |bits| :: bits[k] <==> old(bits)[k] || Touched(addr - origin, size, k)
      ensures twice <==> !Clear(old(bits), (addr - origin) / PAGE, (addr + size - origin + PAGE - 1) / PAGE)
      ensures owned <==> Bytes(addr - origin, size) !! old(live) && Bytes(addr - origin, size) !! old(Tail(View()))
      ensures live == if owned then old(live) + Bytes(addr - origin, size) else old(live)
      ensures !twice ==> owned
      ensures lastPos == old(lastPos) && lastOffset == old(lastOffset) && lastSuccess == old(lastSuccess)
    {
      var sidx := (addr - origin) / PAGE;
      var eidx := (addr + size - origin + PAGE - 1) / PAGE;
      assert sidx < eidx < |bits| && (addr - origin) / PAGE == addr / PAGE - origin / PAGE;
      ghost var b, a: nat := View(), addr - origin;
      assert eidx == (a + size + PAGE - 1) / PAGE;
      ReserveKeeps(b, live, a, size);
      TouchedRange(a, size);
      twice := SetBits(sidx, eidx);
      owned := Bytes(a, size) !! live && Bytes(a, size) !! Tail(b);
      if owned {
        live := live + Bytes(a, size);
      }
      assert View() == b.(bits := SetRange(b.bits, a / PAGE, (a + size + PAGE - 1) / PAGE, true));
    }
  }

  /** The search only finds free runs at multiples of its step. */
  lemma {:induction false} FoundRun(b: Boot, live: set<nat>, preferred: nat, offset: nat, incr: nat, k: nat)
    requires BootOk(b, live) && IsPow2(incr) && k > 0
    ensures FoundClear(b.bits, Search(b.bits, preferred, offset, incr, k), k)
    ensures var r := Search(b.bits, preferred, offset, incr, k); r.Some? ==> MultipleOf(r.value, incr)
  {
    ScanSound(b.bits, preferred, incr, k);
    ScanSound(b.bits, offset, incr, k);
  }

  lemma {:induction false} OriginAligned(origin: nat)
    requires origin % PAGE == 0
    ensures MultipleOf(origin, PageSize())
  {
    MultipleTimes(origin / PAGE, PageSize());
  }

  lemma {:induction false} AllocFails(origin: nat, bits: seq<bool>, preferred: nat, align: nat, k: nat)
    requires |bits| > 0 && k > 0 && (align == 0 || IsPow2(align)) && origin % PAGE == 0
    requires Search(bits, preferred, Offset(origin, align), Incr(align), k) == None
    ensures align <= PAGE ==> forall s: nat :: !RunFree(bits, s, k)
  {
    if align <= PAGE {
      NoOffset(origin, align);
      CompleteIffAtMostAPage(1);
      forall s: nat
        ensures !RunFree(bits, s, k)
      {
        assert MultipleOf(s, Incr(align));
      }
    }
  }

  /** The run found is the first one from the preferred page on, or the first one of all if there is none there. */
  ghost predicate GoalFirst(bits: seq<bool>, preferred: nat, k: nat, found: Option<nat>) {
    match found
    case None => forall s: nat :: !RunFree(bits, s, k)
    case Some(f) =>
      && RunFree(bits, f, k)
      && forall s: nat | RunFree(bits, s, k) :: if f >= preferred then s < preferred || s >= f else s < preferred && s >= f
  }

  lemma {:induction false} SearchGoal(origin: nat, bits: seq<bool>, preferred: nat, align: nat, k: nat)
    requires |bits| > 0 && bits[|bits| - 1] && k > 0 && (align == 0 || IsPow2(align)) && origin % PAGE == 0
    ensures align <= PAGE ==> GoalFirst(bits, preferred, k, Search(bits, preferred, Offset(origin, align), Incr(align), k))
  {
    if align <= PAGE {
      NoOffset(origin, align);
      PassFirst(bits, preferred, Incr(align), k);
      PassFirst(bits, 0, Incr(align), k);
      ScanSound(bits, preferred, Incr(align), k);
      ScanSound(bits, 0, Incr(align), k);
    }
  }

  /** x & (a - 1) is what is left of x beyond a multiple of a. */
  lemma {:induction false} AndIsMod(x: nat, a: nat)
    requires IsPow2(a)
    ensures And(x, a - 1) == x % a
  {
    if a == 1 {
      AndZero(x);
    } else {
      AndIsMod(x / 2, a / 2);
      HalfDivMod(x, a / 2);
      assert (a - 1) / 2 == a / 2 - 1 && (a - 1) % 2 == 1;
    }
  }

  /** The offset is the distance, in pages, from the node's start to the next address with the alignment. */
  lemma {:induction false} OffsetIs(origin: nat, align: nat)
    requires IsPow2(align) && origin % PAGE == 0
    ensures align > PAGE ==> Offset(origin, align) * PAGE < align && MultipleOf(origin + Offset(origin, align) * PAGE, align)
    ensures align <= PAGE ==> Offset(origin, align) == 0
  {
    if align <= PAGE {
      NoOffset(origin, align);
    } else {
      var r := NextAligned(origin, align);
    }
  }

  /** The multiples of a next to x. */
  lemma {:induction false} Around(x: nat, a: nat) returns (m: nat)
    requires IsPow2(a)
    ensures MultipleOf(m, a) && MultipleOf(m + a, a) && x == m + x % a
  {
    if a == 1 {
      m := x;
    } else {
      var h := Around(x / 2, a / 2);
      HalfDivMod(x, a / 2);
      DoubleBoth(h, a / 2);
      DoubleBoth(h + a / 2, a / 2);
      m := 2 * h;
    }
  }

  lemma {:induction false} WholePages(x: nat, align: nat)
    requires IsPow2(align) && align > PAGE && MultipleOf(x, align)
    ensures x % PAGE == 0
  {
    PageIsPow2();
    MultipleTrans(x, align, PAGE);
    MultipleIsMod(x, PAGE);
  }

  lemma {:induction false} NextBy(origin: nat, align: nat, m: nat, r: nat)
    requires IsPow2(align) && origin % PAGE == 0 && align > PAGE && origin == m + r && r <= align
    requires MultipleOf(m, align) && MultipleOf(m + align, align)
    ensures (align - r) % PAGE == 0 && MultipleOf(origin + (align - r), align)
    ensures r == 0 ==> MultipleOf(origin, align)
  {
    WholePages(m, align);
    WholePages(m + align, align);
    assert origin + (align - r) == m + align;
  }

  lemma {:induction false} NextAligned(origin: nat, align: nat) returns (r: nat)
    requires IsPow2(align) && origin % PAGE == 0 && align > PAGE
    ensures r == And(origin, align - 1) < align
    ensures (align - r) % PAGE == 0 && MultipleOf(origin + (align - r), align)
    ensures r == 0 ==> MultipleOf(origin, align)
  {
    AndIsMod(origin, align);
    var m := Around(origin, align);
    r := And(origin, align - 1);
    NextBy(origin, align, m, r);
  }

  /** The search begins at the goal, or at the last success if that is further up, rounded up to the alignment;
      without a usable goal it begins at the node's first aligned page. */
  lemma {:induction false} PreferredIs(origin: nat, lowPfn: nat, lastSuccess: nat, align: nat, goal: nat)
    requires IsPow2(align)
    ensures var usable := goal != 0 && goal >= origin && goal / PAGE < lowPfn;
            && (!usable ==> Preferred(origin, lowPfn, lastSuccess, align, goal) == Offset(origin, align))
            && (usable ==> exists m: nat ::
                  && MultipleOf(m, align) && goal - origin <= m && lastSuccess <= m
                  && (m < goal - origin + align || m < lastSuccess + align)
                  && Preferred(origin, lowPfn, lastSuccess, align, goal) == m / PAGE + Offset(origin, align))
  {
    var p: nat := if goal < origin then 0 else if lastSuccess >= goal - origin then lastSuccess else goal - origin;
    AlignUpIsLeast(p, align);
    MultipleTimes(0, align);
    AlignUpFixed(0, align);
  }

  /** With steps of one page a pass finds the first free run. */
  lemma {:induction false} PassFirst(bits: seq<bool>, from: nat, incr: nat, k: nat)
    requires |bits| > 0 && IsPow2(incr) && k > 0
    ensures var r := Scan(bits, from, incr, k);
            incr == 1 ==> forall s: nat | from <= s && (r.None? || s < r.value) :: !RunFree(bits, s, k)
  {
    var r := Scan(bits, from, incr, k);
    if incr == 1 {
      forall s: nat | from <= s && (r.None? || s < r.value)
        ensures !RunFree(bits, s, k)
      {
        if r.None? {
          ScanComplete(bits, from, k, s);
        } else {
          ScanFirst(bits, from, k, s);
        }
      }
    }
  }

  /** A page-aligned node needs no alignment offset for alignments up to a page. */
  lemma {:induction false} NoOffset(origin: nat, align: nat)
    requires (align == 0 || IsPow2(align)) && align <= PAGE && origin % PAGE == 0
    ensures Offset(origin, align) == 0
  {
    if align > 0 {
      OriginAligned(origin);
      MultipleTrans(origin, PageSize(), align);
      MultipleMask(origin, align);
    }
  }

  /** Page numbers of an address range relative to the node. */
  lemma {:induction false} RangePages(origin: nat, addr: nat, size: nat)
    requires origin % PAGE == 0 && origin <= addr
    ensures (addr + PAGE - 1) / PAGE - origin / PAGE == (addr - origin + PAGE - 1) / PAGE
    ensures (addr + size) / PAGE - origin / PAGE == (addr + size - origin) / PAGE
  {
  }

  /** A page all of whose bytes are owned is reserved and holds no partly used tail. */
  lemma {:induction false} WholePageOwned(b: Boot, live: set<nat>, a: nat, size: nat, i: nat)
    requires BootOk(b, live) && Bytes(a, size) <= live
    requires (a + PAGE - 1) / PAGE <= i < (a + size) / PAGE
    ensures i < |b.bits| - 1 && b.bits[i] && (b.lastOffset != 0 ==> i != b.lastPos)
  {
    assert i * PAGE in Bytes(a, size) && i * PAGE + PAGE - 1 in Bytes(a, size);
    if b.lastOffset != 0 {
      assert b.lastPos * PAGE + PAGE - 1 in Bytes(b.lastPos * PAGE + b.lastOffset, PAGE - b.lastOffset);
    }
  }

  lemma {:induction false} WholePagesOwned(b: Boot, live: set<nat>, a: nat, size: nat)
    requires BootOk(b, live) && Bytes(a, size) <= live
    ensures (a + size) / PAGE <= |b.bits| || (a + size) / PAGE <= (a + PAGE - 1) / PAGE
    ensures forall i | (a + PAGE - 1) / PAGE <= i < (a + size) / PAGE :: i < |b.bits| && b.bits[i]
  {
    forall i | (a + PAGE - 1) / PAGE <= i < (a + size) / PAGE
      ensures i < |b.bits| && b.bits[i]
    {
      WholePageOwned(b, live, a, size, i);
    }
    if (a + PAGE - 1) / PAGE < (a + size) / PAGE {
      WholePageOwned(b, live, a, size, (a + size) / PAGE - 1);
    }
  }

  lemma {:induction false} FreeKeeps(b: Boot, live: set<nat>, a: nat, size: nat)
    requires BootOk(b, live) && Bytes(a, size) <= live
    ensures BootOk(b.(bits := SetRange(b.bits, (a + PAGE - 1) / PAGE, (a + size) / PAGE, false)), live - Bytes(a, size))
  {
    var sidx, eidx := (a + PAGE - 1) / PAGE, (a + size) / PAGE;
    var b' := b.(bits := SetRange(b.bits, sidx, eidx, false));
    if sidx <= |b.bits| - 1 < eidx {
      WholePageOwned(b, live, a, size, |b.bits| - 1);
    }
    if sidx <= b.lastPos < eidx {
      WholePageOwned(b, live, a, size, b.lastPos);
    }
    forall x | x in live - Bytes(a, size)
      ensures x / PAGE < |b'.bits| - 1 && b'.bits[x / PAGE]
    {
      assert x < a || a + size <= x;
    }
  }

  /** Reserving pages keeps the state consistent, also when the range gets an owner. */
  lemma {:induction false} ReserveKeeps(b: Boot, live: set<nat>, a: nat, size: nat)
    requires BootOk(b, live) && size > 0 && (a + size + PAGE - 1) / PAGE < |b.bits|
    ensures var b' := b.(bits := SetRange(b.bits, a / PAGE, (a + size + PAGE - 1) / PAGE, true));
            && BootOk(b', live)
            && (Bytes(a, size) !! live && Bytes(a, size) !! Tail(b) ==> BootOk(b', live + Bytes(a, size)))
    ensures Clear(b.bits, a / PAGE, (a + size + PAGE - 1) / PAGE) ==> Bytes(a, size) !! live && Bytes(a, size) !! Tail(b)
  {
    forall x | x in Bytes(a, size)
      ensures a / PAGE <= x / PAGE < (a + size + PAGE - 1) / PAGE
    {
    }
    if Clear(b.bits, a / PAGE, (a + size + PAGE - 1) / PAGE) {
      forall x | x in Bytes(a, size)
        ensures x !in live && x !in Tail(b)
      {
        assert !b.bits[x / PAGE];
      }
    }
  }

  /** The size bytes at ret were nobody's, lie in reserved pages and are aligned as asked. */
  ghost predicate SoundAt(bits: seq<bool>, owned: set<nat>, ret: nat, size: nat, align: nat, origin: nat) {
    && Bytes(ret, size) !! owned
    && (forall x | x in Bytes(ret, size) :: x / PAGE < |bits| - 1 && bits[x / PAGE])
    && (IsPow2(align) && align <= PAGE ==> MultipleOf(origin + ret, align))
    && (IsPow2(align) && align > PAGE ==> (MultipleOf(origin + ret, align) <==> MultipleOf(origin, align)))
  }

  /** What the placement of a request guarantees. */
  lemma {:induction false} PlaceSound(b: Boot, live: set<nat>, start: nat, size: nat, align: nat, origin: nat)
    requires BootOk(b, live) && size > 0 && (align == 0 || IsPow2(align)) && (align > 0 || !Merges(b, start, align))
    requires RunFree(b.bits, start, PagesFor(size)) && MultipleOf(start, Incr(align)) && origin % PAGE == 0
    ensures var p := Place(b, start, size, align);
            && p.lastPos >= 0 && BootOk(AfterPlace(b, start, p), live + Bytes(p.ret, size))
            && SoundAt(AfterPlace(b, start, p).bits, live, p.ret, size, align, origin)
  {
    var al := if align == 0 then 1 else align;
    if align == 0 {
      PlaceUnaligned(b, start, size);
    }
    PlaceFresh(b, live, start, size, al);
    PlaceOk(b, live, start, size, al);
    OriginAligned(origin);
    PlaceAligned(b, start, size, al, origin);
  }

  // ----- reserved ranges without an owner

  /** A set of bytes in reserved pages is safe from the next request exactly when it misses the tail of
      the last allocation, or the page after it is not free, so that nothing can be merged. */
  lemma {:induction false} SafeFromMerges(b: Boot, live: set<nat>, r: set<nat>)
    requires BootOk(b, live) && forall x | x in r :: x / PAGE < |b.bits| - 1 && b.bits[x / PAGE]
    ensures (forall start: nat, size: nat, align: nat |
               size > 0 && IsPow2(align) && RunFree(b.bits, start, PagesFor(size)) :: Bytes(Place(b, start, size, align).ret, size) !! r)
       <==> r !! Tail(b) || b.bits[b.lastPos + 1]
  {
    if r !! Tail(b) || b.bits[b.lastPos + 1] {
      forall start: nat, size: nat, align: nat | size > 0 && IsPow2(align) && RunFree(b.bits, start, PagesFor(size))
        ensures Bytes(Place(b, start, size, align).ret, size) !! r
      {
        PlacedBytes(b, start, size, align);
      }
    } else {
      TailMerged(b);
    }
  }

  /** An aligned request is placed at a free run. */
  ghost predicate PlaceStep(b: Boot, live: set<nat>, b': Boot, live': set<nat>, start: nat, size: nat, align: nat)
    requires b.lastOffset < PAGE
  {
    && size > 0 && IsPow2(align) && RunFree(b.bits, start, PagesFor(size))
    && var p := Place(b, start, size, align);
       p.lastPos >= 0 && b' == AfterPlace(b, start, p) && live' == live + Bytes(p.ret, size)
  }

  /** The owner of a range gives it back. */
  ghost predicate FreeStep(b: Boot, live: set<nat>, b': Boot, live': set<nat>, a: nat, size: nat) {
    && Bytes(a, size) <= live && live' == live - Bytes(a, size)
    && b' == b.(bits := SetRange(b.bits, (a + PAGE - 1) / PAGE, (a + size) / PAGE, false))
  }

  /** A range is reserved. */
  ghost predicate ReserveStep(b: Boot, live: set<nat>, b': Boot, live': set<nat>, a: nat, size: nat)
    requires b.lastOffset < PAGE
  {
    && size > 0 && (a + size + PAGE - 1) / PAGE < |b.bits|
    && b' == b.(bits := SetRange(b.bits, a / PAGE, (a + size + PAGE - 1) / PAGE, true))
    && live' == if Bytes(a, size) !! live && Bytes(a, size) !! Tail(b) then live + Bytes(a, size) else live
  }

  /** One operation of the boot allocator; a range that is reserved does not touch r. */
  ghost predicate BootStep(b: Boot, live: set<nat>, b': Boot, live': set<nat>, r: set<nat>)
    requires BootOk(b, live)
  {
    || (exists start: nat, size: nat, align: nat :: PlaceStep(b, live, b', live', start, size, align))
    || (exists a: nat, size: nat :: FreeStep(b, live, b', live', a, size))
    || (exists a: nat, size: nat :: ReserveStep(b, live, b', live', a, size) && Bytes(a, size) !! r)
  }

  lemma {:induction false} PlaceStepKeeps(b: Boot, live: set<nat>, b': Boot, live': set<nat>, r: set<nat>, start: nat, size: nat, align: nat)
    requires BootOk(b, live + r) && live !! r && PlaceStep(b, live, b', live', start, size, align)
    ensures BootOk(b', live' + r) && live' !! r
  {
    PlaceFresh(b, live + r, start, size, align);
    PlaceOk(b, live + r, start, size, align);
    assert live' + r == live + r + Bytes(Place(b, start, size, align).ret, size);
  }

  lemma {:induction false} FreeStepKeeps(b: Boot, live: set<nat>, b': Boot, live': set<nat>, r: set<nat>, a: nat, size: nat)
    requires BootOk(b, live + r) && live !! r && FreeStep(b, live, b', live', a, size)
    ensures BootOk(b', live' + r) && live' !! r
  {
    FreeKeeps(b, live + r, a, size);
    assert live' + r == live + r - Bytes(a, size);
  }

  lemma {:induction false} ReserveStepKeeps(b: Boot, live: set<nat>, b': Boot, live': set<nat>, r: set<nat>, a: nat, size: nat)
    requires BootOk(b, live + r) && live !! r && ReserveStep(b, live, b', live', a, size) && Bytes(a, size) !! r
    ensures BootOk(b', live' + r) && live' !! r
  {
    ReserveKeeps(b, live + r, a, size);
    assert live + r + Bytes(a, size) == live + Bytes(a, size) + r;
  }

  /** Bytes in reserved pages that are nobody's stay so when they are in no tail: they are as good as owned. */
  lemma {:induction false} BootStepKeeps(b: Boot, live: set<nat>, b': Boot, live': set<nat>, r: set<nat>)
    requires BootOk(b, live) && BootOk(b, live + r) && live !! r && BootStep(b, live, b', live', r)
    ensures BootOk(b', live') && BootOk(b', live' + r) && live' !! r
  {
    if start: nat, size: nat, align: nat :| PlaceStep(b, live, b', live', start, size, align) {
      PlaceStepKeeps(b, live, b', live', r, start, size, align);
    } else if a: nat, size: nat :| FreeStep(b, live, b', live', a, size) {
      FreeStepKeeps(b, live, b', live', r, a, size);
    } else {
      var a: nat, size: nat :| ReserveStep(b, live, b', live', a, size) && Bytes(a, size) !! r;
      ReserveStepKeeps(b, live, b', live', r, a, size);
    }
    Fewer(b', live' + r, live');
  }

  lemma {:induction false} Fewer(b: Boot, live: set<nat>, part: set<nat>)
    requires BootOk(b, live) && part <= live
    ensures BootOk(b, part)
  {
  }

  datatype Owned = Owned(b: Boot, live: set<nat>)

  ghost predicate BootNext(trace: seq<Owned>, n: nat, r: set<nat>)
    requires n + 1 < |trace|
  {
    BootOk(trace[n].b, trace[n].live) && BootStep(trace[n].b, trace[n].live, trace[n + 1].b, trace[n + 1].live, r)
  }

  /** Over any run of requests, frees by owners and reservations elsewhere, a reserved range that is
      nobody's and misses the tail is never handed out. */
  lemma {:induction false} SafeInRuns(trace: seq<Owned>, n: nat, r: set<nat>)
    requires n < |trace| && forall k: nat | k + 1 < |trace| :: BootNext(trace, k, r)
    requires BootOk(trace[0].b, trace[0].live) && r !! trace[0].live && r !! Tail(trace[0].b)
    requires forall x | x in r :: x / PAGE < |trace[0].b.bits| - 1 && trace[0].b.bits[x / PAGE]
    ensures BootOk(trace[n].b, trace[n].live + r) && BootOk(trace[n].b, trace[n].live) && trace[n].live !! r
  {
    if n > 0 {
      SafeInRuns(trace, n - 1, r);
      assert BootNext(trace, n - 1, r);
      BootStepKeeps(trace[n - 1].b, trace[n - 1].live, trace[n].b, trace[n].live, r);
    }
  }

  /** The bytes of a placed request lie in the free run and, only if it is merged, in the tail. */
  lemma {:induction false} PlacedBytes(b: Boot, start: nat, size: nat, align: nat)
    requires b.lastOffset < PAGE && size > 0 && IsPow2(align) && RunFree(b.bits, start, PagesFor(size))
    ensures forall x | x in Bytes(Place(b, start, size, align).ret, size) ::
              (start <= x / PAGE < start + PagesFor(size) && !b.bits[x / PAGE]) || (Merges(b, start, align) && x in Tail(b))
  {
    if Merges(b, start, align) {
      OffsetInPage(b.lastOffset, align);
    }
    forall x | x in Bytes(Place(b, start, size, align).ret, size)
      ensures (start <= x / PAGE < start + PagesFor(size) && !b.bits[x / PAGE]) || (Merges(b, start, align) && x in Tail(b))
    {
      assert x / PAGE >= start ==> start <= x / PAGE < start + PagesFor(size) && !b.bits[x / PAGE];
    }
  }

  /** A request for just the tail is merged into it when the next page is free. */
  lemma {:induction false} TailMerged(b: Boot)
    requires b.lastOffset != 0 && b.lastOffset < PAGE && b.lastPos + 1 < |b.bits| - 1 && !b.bits[b.lastPos + 1]
    ensures RunFree(b.bits, b.lastPos + 1, PagesFor(PAGE - b.lastOffset))
    ensures IsPow2(1) && Bytes(Place(b, b.lastPos + 1, PAGE - b.lastOffset, 1).ret, PAGE - b.lastOffset) == Tail(b)
  {
    AlignUpFixed(b.lastOffset, 1);
    assert PagesFor(PAGE - b.lastOffset) == 1;
  }

  lemma {:induction false} RangeInTail()
    ensures var b := Boot([true, false, true], 0, 100);
            && !(Bytes(200, 100) !! Tail(b)) && Bytes(200, 100) <= Bytes(100, 500)
            && RunFree(b.bits, 1, PagesFor(500)) && IsPow2(1) && Place(b, 1, 500, 1).ret == 100
  {
    assert 200 in Bytes(200, 100) && 200 in Bytes(100, 3996);
    AlignUpFixed(100, 1);
  }

  /** Such a range in the tail of a page, reserved without an owner, is handed out by the next request. */
  method ReserveInTail(d: BootmemData) returns (twice: bool, ghost owned: bool, r: Option<nat>)
    requires d.Valid() && d.origin == 0 && d.bits == [true, false, true] && d.live == Bytes(0, 100)
    requires d.lastPos == 0 && d.lastOffset == 100
    modifies d
    ensures twice && !owned && r == Some(100) && Bytes(200, 100) <= Bytes(100, 500)
  {
    RangeInTail();
    twice, owned := d.ReserveCore(200, 100);
    assert d.bits == [true, false, true];
    r := d.TakeRun(1, 500, 1);
  }
}
