/** The list of vmalloc areas: the search for a gap in it, and what it keeps. */
module VmList {
  import opened Bits

  const IOREMAP_MAX_ORDER: nat := 19   // 7 + PAGE_SHIFT

  /** vm_struct; the size includes the guard page. */
  datatype Area = Area(addr: nat, size: nat) {
    function End(): nat {
      addr + size
    }
  }

  ghost predicate AreaOk(a: Area) {
    a.addr % PAGE == 0 && a.size % PAGE == 0 && a.size >= 2 * PAGE && a.End() < WORD
  }

  ghost predicate Sorted(areas: seq<Area>) {
    forall i, j | 0 <= i < j < |areas| :: areas[i].End() <= areas[j].addr
  }

  /** Page-aligned areas in order of address, disjoint together with their guard pages. */
  ghost predicate AreasOk(areas: seq<Area>) {
    (forall i | 0 <= i < |areas| :: AreaOk(areas[i])) && Sorted(areas)
  }

  /** Nothing is in the way of size bytes at a. */
  predicate Free(areas: seq<Area>, a: nat, size: nat) {
    forall i | 0 <= i < |areas| :: areas[i].End() <= a || a + size <= areas[i].addr
  }

  /** Some area is in the way. */
  ghost predicate Blocked(areas: seq<Area>, n: nat, a: nat, size: nat)
    requires n <= |areas|
  {
    exists i :: 0 <= i < n && a < areas[i].End() && areas[i].addr < a + size
  }

  /** fls */
  function Fls(n: nat): nat {
    if n == 0 then 0 else 1 + Fls(n / 2)
  }

  /** The alignment of a request. */
  function AlignFor(size: nat, ioremap: bool): (r: nat)
    ensures IsPow2(r) && r <= 0x8_0000 && (ioremap ==> r >= PAGE) && (!ioremap ==> r == 1)
  {
    if ioremap then
      var bit := Fls(size);
      var b := if bit > IOREMAP_MAX_ORDER then IOREMAP_MAX_ORDER else if bit < PAGE_SHIFT then PAGE_SHIFT else bit;
      AlignRange(b);
      Pow2(b)
    else
      1
  }

  /** A request for I/O memory is aligned to the least power of two above its size, but to a page at least and
      to half a megabyte at most. */
  lemma {:induction false} AlignForIs(size: nat)
    ensures var a := AlignFor(size, true);
            && IsPow2(a) && PAGE <= a <= 0x8_0000
            && (a < 0x8_0000 ==> size < a)
            && (a > PAGE ==> a <= 2 * size)
  {
    FlsBounds(size);
    OrderBounds();
    var bit := Fls(size);
    var b := if bit > IOREMAP_MAX_ORDER then IOREMAP_MAX_ORDER else if bit < PAGE_SHIFT then PAGE_SHIFT else bit;
    assert AlignFor(size, true) == Pow2(b);
    assert b == bit ==> size < Pow2(b) && (size > 0 ==> Pow2(b) <= 2 * size);
  }

  lemma {:induction false} OrderBounds()
    ensures Pow2(PAGE_SHIFT) == PAGE && Pow2(IOREMAP_MAX_ORDER) == 0x8_0000 && Pow2(IOREMAP_MAX_ORDER + 1) == 0x10_0000
  {
    assert Pow2(6) == 64 && Pow2(7) == 128 && Pow2(8) == 256;
    Pow2Add(6, 6);
    Pow2Add(12, 7);
    Pow2Add(12, 8);
  }

  /** The size of an I/O request lies between half its power of two and the power. */
  lemma {:induction false} FlsBounds(n: nat)
    ensures n < Pow2(Fls(n)) && (n > 0 ==> Fls(n) > 0 && Pow2(Fls(n)) <= 2 * n)
    ensures Fls(n) < PAGE_SHIFT ==> n < PAGE
    ensures Fls(n) > IOREMAP_MAX_ORDER ==> n >= 0x8_0000
  {
    FlsBetween(n);
    OrderBounds();
    if Fls(n) < PAGE_SHIFT {
      Pow2Monotone(Fls(n), PAGE_SHIFT);
    }
    if Fls(n) > IOREMAP_MAX_ORDER {
      Pow2Monotone(IOREMAP_MAX_ORDER + 1, Fls(n));
    }
  }

  lemma {:induction false} FlsBetween(n: nat)
    ensures n < Pow2(Fls(n)) && (n > 0 ==> Fls(n) > 0 && Pow2(Fls(n)) <= 2 * n)
  {
    if n > 0 {
      FlsBetween(n / 2);
    }
  }

  lemma {:induction false} AlignRange(b: nat)
    requires PAGE_SHIFT <= b <= IOREMAP_MAX_ORDER
    ensures IsPow2(Pow2(b)) && PAGE <= Pow2(b) <= 0x8_0000
  {
    Pow2IsPow2(b);
    Pow2Monotone(PAGE_SHIFT, b);
    Pow2Monotone(b, IOREMAP_MAX_ORDER);
    OrderBounds();
  }

  /** The address the search considers before it looks at area k. */
  function Candidate(areas: seq<Area>, k: nat, align: nat, start: nat): (c: nat)
    requires IsPow2(align) && k <= |areas|
  {
    if k == 0 then AlignUp(start, align)
    else
      var c := Candidate(areas, k - 1, align, start);
      if areas[k - 1].End() >= c then AlignUp(areas[k - 1].End(), align) else c
  }

  /** Area j is not below the candidate, so the search compares the next candidate with the window. */
  predicate Compared(areas: seq<Area>, j: nat, align: nat, start: nat)
    requires IsPow2(align) && j < |areas|
  {
    areas[j].addr >= Candidate(areas, j, align, start)
  }

  /** No candidate up to the one before area k was compared with the window and found too high. */
  ghost predicate NoneTooHigh(areas: seq<Area>, k: nat, size: nat, align: nat, start: nat, end: nat)
    requires IsPow2(align) && k <= |areas|
  {
    forall j | 0 <= j < k && Compared(areas, j, align, start) :: Candidate(areas, j + 1, align, start) + size <= end
  }

  /** The state of the search before it looks at area k. */
  ghost predicate Searching(areas: seq<Area>, k: nat, addr: nat, size: nat, align: nat, start: nat)
    requires IsPow2(align) && k <= |areas|
  {
    && MultipleOf(addr, align) && start <= addr
    && (forall i | 0 <= i < k :: areas[i].End() <= addr)
    && (forall a | start <= a < addr && MultipleOf(a, align) :: Blocked(areas, k, a, size))
  }

  /** Going on past area k to the next aligned address after it. */
  lemma {:induction false} PassArea(areas: seq<Area>, k: nat, addr: nat, size: nat, align: nat, start: nat)
    requires IsPow2(align) && k < |areas| && AreasOk(areas) && size > 0
    requires Searching(areas, k, addr, size, align, start)
    requires areas[k].addr < addr + size && areas[k].End() >= addr
    ensures Searching(areas, k + 1, AlignUp(areas[k].End(), align), size, align, start)
    ensures AlignUp(areas[k].End(), align) < areas[k].End() + align
  {
    var next := AlignUp(areas[k].End(), align);
    AlignUpIsLeast(areas[k].End(), align);
    forall a | start <= a < next && MultipleOf(a, align)
      ensures Blocked(areas, k + 1, a, size)
    {
      if a < addr {
        assert Blocked(areas, k, a, size);
      } else {
        assert a < areas[k].End() && areas[k].addr < a + size;
      }
    }
  }

  /** Going on past an area that ends before the current address. */
  lemma {:induction false} SkipArea(areas: seq<Area>, k: nat, addr: nat, size: nat, align: nat, start: nat)
    requires IsPow2(align) && k < |areas| && Searching(areas, k, addr, size, align, start) && areas[k].End() <= addr
    ensures Searching(areas, k + 1, addr, size, align, start)
  {
    forall a | start <= a < addr && MultipleOf(a, align)
      ensures Blocked(areas, k + 1, a, size)
    {
      assert Blocked(areas, k, a, size);
    }
  }

  /** The search is at the lowest free address when the next area leaves room or there is none. */
  lemma {:induction false} Found(areas: seq<Area>, k: nat, addr: nat, size: nat, align: nat, start: nat)
    requires IsPow2(align) && k <= |areas| && AreasOk(areas) && Searching(areas, k, addr, size, align, start)
    requires k < |areas| ==> addr + size <= areas[k].addr
    ensures LowestFree(areas, addr, size, align, start)
  {
    forall a | start <= a < addr && MultipleOf(a, align)
      ensures !Free(areas, a, size)
    {
      assert Blocked(areas, k, a, size);
    }
  }

  ghost predicate LowestFree(areas: seq<Area>, addr: nat, size: nat, align: nat, start: nat)
    requires IsPow2(align)
  {
    && MultipleOf(addr, align) && start <= addr && Free(areas, addr, size)
    && forall a | start <= a < addr && MultipleOf(a, align) :: !Free(areas, a, size)
  }

  /** Every free aligned address from start on is too high for the window. */
  ghost predicate NoRoom(areas: seq<Area>, size: nat, align: nat, start: nat, end: nat)
    requires IsPow2(align)
  {
    forall a {:trigger Free(areas, a, size)} | start <= a && MultipleOf(a, align) && Free(areas, a, size) :: a + size > end
  }

  lemma {:induction false} FreeNotBlocked(areas: seq<Area>, k: nat, a: nat, size: nat)
    requires k <= |areas| && Free(areas, a, size)
    ensures !Blocked(areas, k, a, size)
  {
  }

  lemma {:induction false} OutOfRoom(areas: seq<Area>, k: nat, addr: nat, size: nat, align: nat, start: nat, end: nat)
    requires IsPow2(align) && k <= |areas| && Searching(areas, k, addr, size, align, start) && addr + size > end
    ensures NoRoom(areas, size, align, start, end)
  {
    forall a | start <= a && MultipleOf(a, align) && Free(areas, a, size)
      ensures a + size > end
    {
      FreeNotBlocked(areas, k, a, size);
    }
  }

  /** Addresses stay below 2^32 while the search looks at these areas. */
  ghost predicate NoWrap(areas: seq<Area>, start: nat, size: nat) {
    && start + 0x8_0000 + size < WORD
    && forall i | 0 <= i < |areas| :: areas[i].End() + 0x8_0000 + size < WORD
  }

  // ----- leaving the window

  /** The lowest free place does not fit the window, and the search gets to it without having found a
      candidate too high before. */
  ghost predicate Escapes(areas: seq<Area>, size: nat, align: nat, start: nat, end: nat)
    requires IsPow2(align)
  {
    exists k :: 0 <= k <= |areas| && EscapesAt(areas, k, size, align, start, end)
  }

  ghost predicate EscapesAt(areas: seq<Area>, k: nat, size: nat, align: nat, start: nat, end: nat)
    requires IsPow2(align) && k <= |areas|
  {
    var c := Candidate(areas, k, align, start);
    c + size > end && LowestFree(areas, c, size, align, start) && NoneTooHigh(areas, k, size, align, start, end)
  }

  lemma {:induction false} CandidateGrows(areas: seq<Area>, i: nat, j: nat, align: nat, start: nat)
    requires IsPow2(align) && i <= j <= |areas|
    ensures Candidate(areas, i, align, start) <= Candidate(areas, j, align, start)
  {
    if i < j {
      CandidateGrows(areas, i, j - 1, align, start);
      AlignUpIsLeast(areas[j - 1].End(), align);
    }
  }

  /** The search before it looks at area k. */
  ghost predicate SearchAt(areas: seq<Area>, k: nat, addr: nat, size: nat, align: nat, start: nat, end: nat)
    requires IsPow2(align)
  {
    && k <= |areas| && addr == Candidate(areas, k, align, start) && Searching(areas, k, addr, size, align, start)
    && (size <= end ==> NoneTooHigh(areas, k, size, align, start, end))
  }

  lemma {:induction false} SearchStart(areas: seq<Area>, size: nat, align: nat, start: nat, end: nat)
    requires IsPow2(align)
    ensures SearchAt(areas, 0, AlignUp(start, align), size, align, start, end) && AlignUp(start, align) < start + align
  {
    AlignUpIsLeast(start, align);
  }

  /** The area at hand begins below the current address. */
  lemma {:induction false} SearchBelow(areas: seq<Area>, k: nat, addr: nat, size: nat, align: nat, start: nat, end: nat)
    requires IsPow2(align) && AreasOk(areas) && size > 0 && SearchAt(areas, k, addr, size, align, start, end)
    requires k < |areas| && areas[k].addr < addr
    ensures var next := if areas[k].End() >= addr then AlignUp(areas[k].End(), align) else addr;
            SearchAt(areas, k + 1, next, size, align, start, end)
    ensures AlignUp(areas[k].End(), align) < areas[k].End() + align
  {
    AlignUpIsLeast(areas[k].End(), align);
    if areas[k].End() >= addr {
      PassArea(areas, k, addr, size, align, start);
    } else {
      SkipArea(areas, k, addr, size, align, start);
    }
  }

  /** The area at hand is in the way. */
  lemma {:induction false} SearchAbove(areas: seq<Area>, k: nat, addr: nat, size: nat, align: nat, start: nat, end: nat)
    requires IsPow2(align) && AreasOk(areas) && size > 0 && SearchAt(areas, k, addr, size, align, start, end)
    requires k < |areas| && addr <= areas[k].addr < addr + size
    ensures var next := AlignUp(areas[k].End(), align);
            && next < areas[k].End() + align
            && (next + size <= end || size > end ==> SearchAt(areas, k + 1, next, size, align, start, end))
            && (next + size > end && size <= end ==>
                  NoRoom(areas, size, align, start, end) && !Escapes(areas, size, align, start, end))
  {
    var next := AlignUp(areas[k].End(), align);
    PassArea(areas, k, addr, size, align, start);
    if next + size > end && size <= end {
      OutOfRoom(areas, k + 1, next, size, align, start, end);
      GivenUp(areas, k, size, align, start, end);
    }
  }

  /** A search that gives up after area k has not missed a way out of the window. */
  lemma {:induction false} GivenUp(areas: seq<Area>, k: nat, size: nat, align: nat, start: nat, end: nat)
    requires IsPow2(align) && k < |areas| && Compared(areas, k, align, start)
    requires var next := Candidate(areas, k + 1, align, start);
             Candidate(areas, k, align, start) < next && next + size > end && Searching(areas, k + 1, next, size, align, start)
    ensures !Escapes(areas, size, align, start, end)
  {
    forall i | 0 <= i <= |areas|
      ensures !EscapesAt(areas, i, size, align, start, end)
    {
      if i <= k {
        CandidateGrows(areas, i, k, align, start);
        var c := Candidate(areas, i, align, start);
        if MultipleOf(c, align) && start <= c && Free(areas, c, size) {
          FreeNotBlocked(areas, k + 1, c, size);
        }
      } else {
        assert Compared(areas, k, align, start);
      }
    }
  }

  lemma {:induction false} SearchEnd(areas: seq<Area>, k: nat, addr: nat, size: nat, align: nat, start: nat, end: nat)
    requires IsPow2(align) && AreasOk(areas) && SearchAt(areas, k, addr, size, align, start, end)
    requires k < |areas| ==> addr + size <= areas[k].addr
    ensures LowestFree(areas, addr, size, align, start)
    ensures forall i | 0 <= i < k :: areas[i].End() <= addr
    ensures size <= end ==> (addr + size > end <==> Escapes(areas, size, align, start, end))
  {
    Found(areas, k, addr, size, align, start);
    if addr + size > end && size <= end {
      assert EscapesAt(areas, k, size, align, start, end);
    }
    forall i | 0 <= i <= |areas| && EscapesAt(areas, i, size, align, start, end)
      ensures addr + size > end
    {
      OnlyLowest(areas, addr, Candidate(areas, i, align, start), size, align, start);
    }
  }

  lemma {:induction false} OnlyLowest(areas: seq<Area>, a: nat, b: nat, size: nat, align: nat, start: nat)
    requires IsPow2(align) && LowestFree(areas, a, size, align, start) && LowestFree(areas, b, size, align, start)
    ensures a == b
  {
  }

  lemma {:induction false} AlignedToPage(x: nat, align: nat)
    requires IsPow2(align) && (align == 1 || align >= PAGE) && x % PAGE == 0
    ensures AlignUp(x, align) % PAGE == 0
  {
    PageIsPow2();
    AlignUpIsLeast(x, align);
    if align == 1 {
      AlignOne(x);
    } else {
      MultipleTrans(AlignUp(x, align), align, PAGE);
      MultipleIsMod(AlignUp(x, align), PAGE);
    }
  }

  lemma {:induction false} EndAligned(a: Area)
    requires AreaOk(a)
    ensures a.End() % PAGE == 0
  {
  }

  /** The loop of __get_vm_area: the position in the list and the address, if there is a place. */
  method FindGap(areas: seq<Area>, size: nat, align: nat, start: nat, end: nat) returns (ok: bool, k: nat, addr: nat)
    requires AreasOk(areas) && IsPow2(align) && align <= 0x8_0000 && size > 0 && NoWrap(areas, start, size) && end < WORD
    requires start % PAGE == 0 && (align == 1 || align >= PAGE)
    ensures ok ==> addr % PAGE == 0
    ensures areas == [] ==> ok
    ensures ok ==> k <= |areas| && LowestFree(areas, addr, size, align, start) && addr + size < WORD
    ensures ok ==> (forall i | 0 <= i < k :: areas[i].End() <= addr) && (k < |areas| ==> addr + size <= areas[k].addr)
    ensures !ok && size <= end ==> NoRoom(areas, size, align, start, end)
    ensures size <= end ==> (ok && addr + size > end <==> Escapes(areas, size, align, start, end))
  {
    SearchStart(areas, size, align, start, end);
    AlignedToPage(start, align);
    addr := AlignUp(start, align);
    k := 0;
    while k < |areas|
      invariant SearchAt(areas, k, addr, size, align, start, end) && addr + size < WORD && addr % PAGE == 0
    {
      var tmp := areas[k];
      EndAligned(tmp);
      AlignedToPage(tmp.End(), align);
      if tmp.addr < addr {
        SearchBelow(areas, k, addr, size, align, start, end);
        if tmp.End() >= addr {
          addr := AlignUp(tmp.End(), align);
        }
        k := k + 1;
        continue;
      }
      if U32(size + addr) < addr {
        assert false;
      }
      if size + addr <= tmp.addr {
        break;
      }
      SearchAbove(areas, k, addr, size, align, start, end);
      addr := AlignUp(tmp.End(), align);
      k := k + 1;
      if addr > U32(end - size) {
        return false, k, addr;
      }
    }
    SearchEnd(areas, k, addr, size, align, start, end);
    ok := true;
  }

  // ----- requests without alignment

  lemma {:induction false} AlignOne(x: nat)
    ensures AlignUp(x, 1) == x
  {
    AlignUpIsLeast(x, 1);
  }

  /** Where a request without alignment can first go: start, or the end of an area that reaches across it. */
  function FirstPlace(areas: seq<Area>, k: nat, start: nat): nat
    decreases |areas| - k
  {
    if k >= |areas| then start
    else if areas[k].addr < start && areas[k].End() >= start then areas[k].End()
    else FirstPlace(areas, k + 1, start)
  }

  /** Up to area m the candidates are compared with nothing, and then there is the first place. */
  ghost predicate Reached(areas: seq<Area>, m: nat, start: nat, first: nat) {
    && m <= |areas| && Candidate(areas, m, 1, start) == first && start <= first
    && (forall j | 0 <= j < m :: !Compared(areas, j, 1, start))
    && (first > start ==> m > 0 && areas[m - 1].addr < start && areas[m - 1].End() == first)
    && (m < |areas| ==> first <= areas[m].addr)
  }

  lemma {:induction false} ReachFirst(areas: seq<Area>, k: nat, start: nat) returns (m: nat)
    requires AreasOk(areas) && k <= |areas| && Candidate(areas, k, 1, start) == start
    requires forall j | 0 <= j < k :: !Compared(areas, j, 1, start)
    ensures Reached(areas, m, start, FirstPlace(areas, k, start))
    decreases |areas| - k
  {
    if k == |areas| {
      m := k;
    } else if areas[k].addr >= start {
      NoneAcross(areas, k, start);
      m := k;
    } else if areas[k].End() >= start {
      AlignOne(areas[k].End());
      m := k + 1;
    } else {
      m := ReachFirst(areas, k + 1, start);
    }
  }

  /** Nothing from area k on reaches across start. */
  lemma {:induction false} NoneAcross(areas: seq<Area>, k: nat, start: nat)
    requires AreasOk(areas) && k <= |areas| && (k < |areas| ==> areas[k].addr >= start)
    ensures FirstPlace(areas, k, start) == start
    decreases |areas| - k
  {
    if k < |areas| {
      NoneAcross(areas, k + 1, start);
    }
  }

  /** From the first place on every area is compared. */
  lemma {:induction false} AllCompared(areas: seq<Area>, m: nat, j: nat, start: nat, first: nat)
    requires AreasOk(areas) && Reached(areas, m, start, first) && m <= j < |areas|
    ensures Compared(areas, j, 1, start)
  {
    if m < j {
      AllCompared(areas, m, j - 1, start, first);
      AlignOne(areas[j - 1].End());
      assert areas[j - 1].End() <= areas[j].addr;
    }
  }

  /** A request without alignment is placed outside the window exactly when it is free at its first
      place and does not fit the window there. */
  lemma {:induction false} PlainEscapes(areas: seq<Area>, size: nat, start: nat, end: nat)
    requires AreasOk(areas) && size > 0
    ensures var first := FirstPlace(areas, 0, start);
            Escapes(areas, size, 1, start, end) <==> first + size > end && Free(areas, first, size)
  {
    var first := FirstPlace(areas, 0, start);
    AlignOne(start);
    var m := ReachFirst(areas, 0, start);
    BelowFirst(areas, m, size, start, first);
    if first + size > end && Free(areas, first, size) {
      assert EscapesAt(areas, m, size, 1, start, end);
    }
    forall k | 0 <= k <= |areas| && EscapesAt(areas, k, size, 1, start, end)
      ensures Candidate(areas, k, 1, start) == first
    {
      EscapesFirst(areas, size, start, end, m, first, k);
    }
  }

  /** A request without alignment can only escape at its first place. */
  lemma {:induction false} EscapesFirst(areas: seq<Area>, size: nat, start: nat, end: nat, m: nat, first: nat, k: nat)
    requires AreasOk(areas) && Reached(areas, m, start, first) && k <= |areas| && EscapesAt(areas, k, size, 1, start, end)
    ensures Candidate(areas, k, 1, start) == first
  {
    if k <= m {
      CandidateGrows(areas, k, m, 1, start);
    } else {
      AllCompared(areas, m, k - 1, start, first);
    }
  }

  /** Below the first place nothing is free. */
  lemma {:induction false} BelowFirst(areas: seq<Area>, m: nat, size: nat, start: nat, first: nat)
    requires Reached(areas, m, start, first) && size > 0
    ensures forall a | start <= a < first :: !Free(areas, a, size)
    ensures Free(areas, first, size) ==> LowestFree(areas, first, size, 1, start)
  {
    forall a | start <= a < first
      ensures !Free(areas, a, size)
    {
      assert areas[m - 1].End() > a && a + size > areas[m - 1].addr;
    }
  }

  /** When no area reaches across the start of the window, a request without alignment that is no
      larger than the window never leaves it. */
  lemma {:induction false} NoEscape(areas: seq<Area>, size: nat, start: nat, end: nat)
    requires AreasOk(areas) && size > 0 && start + size <= end
    requires forall i | 0 <= i < |areas| :: areas[i].addr >= start || areas[i].End() < start
    ensures !Escapes(areas, size, 1, start, end)
  {
    NothingAcross(areas, 0, start);
    PlainEscapes(areas, size, start, end);
  }

  lemma {:induction false} NothingAcross(areas: seq<Area>, k: nat, start: nat)
    requires k <= |areas| && forall i | 0 <= i < |areas| :: areas[i].addr >= start || areas[i].End() < start
    ensures FirstPlace(areas, k, start) == start
    decreases |areas| - k
  {
    if k < |areas| {
      NothingAcross(areas, k + 1, start);
    }
  }

  /** With an area across the start, an ordinary request leaves the window exactly when it fits behind
      that area, but not within the window. */
  lemma {:induction false} AcrossEscapes(areas: seq<Area>, i: nat, size: nat, start: nat, end: nat)
    requires AreasOk(areas) && i < |areas| && areas[i].addr < start <= areas[i].End() && size > 0
    ensures Escapes(areas, size, 1, start, end) <==>
            areas[i].End() + size > end && (i + 1 < |areas| ==> areas[i].End() + size <= areas[i + 1].addr)
  {
    FirstIs(areas, 0, i, start);
    PlainEscapes(areas, size, start, end);
    if i + 1 < |areas| && areas[i].End() + size <= areas[i + 1].addr {
      assert forall j | i < j < |areas| :: areas[i + 1].addr <= areas[j].addr;
    }
  }

  lemma {:induction false} FirstIs(areas: seq<Area>, k: nat, i: nat, start: nat)
    requires AreasOk(areas) && k <= i < |areas| && areas[i].addr < start <= areas[i].End()
    ensures FirstPlace(areas, k, start) == areas[i].End()
    decreases i - k
  {
    if k < i {
      assert areas[k].End() <= areas[i].addr;
      FirstIs(areas, k + 1, i, start);
    }
  }

  // ----- requests for I/O memory

  /** With an empty list a request leaves the window exactly when it does not fit at the aligned start. */
  lemma {:induction false} EmptyEscapes(size: nat, align: nat, start: nat, end: nat)
    requires IsPow2(align)
    ensures Escapes([], size, align, start, end) <==> AlignUp(start, align) + size > end
  {
    SearchStart([], size, align, start, end);
    if AlignUp(start, align) + size > end {
      Found([], 0, AlignUp(start, align), size, align, start);
      assert EscapesAt([], 0, size, align, start, end);
    }
  }

  lemma {:induction false} FlsOfPow2(n: nat)
    ensures Fls(Pow2(n)) == n + 1
  {
    if n > 0 {
      FlsOfPow2(n - 1);
    }
  }

  lemma {:induction false} TwoPagesAlign()
    ensures AlignFor(0x2000, true) == 0x4000 && IsPow2(0x4000)
  {
    FlsOfPow2(13);
    PageIsPow2();
    Pow2Add(12, 1);
    Pow2Add(12, 2);
    Pow2IsPow2(14);
  }

  /** An aligned address above a number is at least the next multiple. */
  lemma {:induction false} NextMultipleOf(a: nat, align: nat, q: nat)
    requires IsPow2(align) && MultipleOf(a, align) && a > q * align
    ensures a >= (q + 1) * align
  {
    MultipleIsMod(a, align);
    assert a == a / align * align + a % align;
    if a / align <= q {
      MulMonotone(a / align, q, align);
    }
    MulMonotone(q + 1, a / align, align);
  }

  /** Two pages of I/O memory, with their guard page, do not fit the aligned start of a window of just
      three pages. */
  lemma {:induction false} IoremapEscapes()
    ensures Escapes([], 0x3000, AlignFor(0x2000, true), 0xc000_1000, 0xc000_1000 + 0x3000)
  {
    TwoPagesAlign();
    AlignUpIsLeast(0xc000_1000, 0x4000);
    NextMultipleOf(AlignUp(0xc000_1000, 0x4000), 0x4000, 0x3_0000);
    EmptyEscapes(0x3000, 0x4000, 0xc000_1000, 0xc000_4000);
  }

  /** The search puts such a request behind the end of the empty window. */
  method IoremapLeavesWindow() returns (ok: bool, addr: nat)
    ensures ok && addr + 0x3000 > 0xc000_1000 + 0x3000
  {
    var k;
    IoremapEscapes();
    ok, k, addr := FindGap([], 0x3000, AlignFor(0x2000, true), 0xc000_1000, 0xc000_1000 + 0x3000);
  }
}
