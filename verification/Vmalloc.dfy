/** The kernel's virtual areas and their page tables: reserving and removing areas, and the walkers
    that map and unmap them. */
module Vmalloc {
  import opened Bits
  import opened Lists
  import opened VmList

  const PGDIR_SIZE: nat := 0x20_0000   // 1 << PGDIR_SHIFT

  /** pgd_addr_end: the next 2 MB boundary, or end if that comes first, in 32-bit arithmetic. */
  function PgdAddrEnd(addr: nat, end: nat): nat {
    var sum := U32(addr + PGDIR_SIZE);
    var boundary := sum - sum % PGDIR_SIZE;
    if U32(boundary - 1) < U32(end - 1) then boundary else end
  }

  lemma {:induction false} PgdAddrEndFacts(addr: nat, end: nat)
    requires addr < end < WORD && addr % PAGE == 0 && end % PAGE == 0
    ensures addr < PgdAddrEnd(addr, end) <= end && PgdAddrEnd(addr, end) % PAGE == 0
    ensures (PgdAddrEnd(addr, end) - 1) / PGDIR_SIZE == addr / PGDIR_SIZE
    ensures PgdAddrEnd(addr, end) == end || PgdAddrEnd(addr, end) % PGDIR_SIZE == 0
  {
    if addr + PGDIR_SIZE < WORD {
      NextBoundary(addr, PgdAddrEnd(addr, end));
    } else {
      assert U32(addr + PGDIR_SIZE) == addr + PGDIR_SIZE - WORD < PGDIR_SIZE;
      assert PgdAddrEnd(addr, end) == end;
    }
  }

  lemma {:induction false} NextBoundary(addr: nat, x: nat)
    ensures var b := addr + PGDIR_SIZE - (addr + PGDIR_SIZE) % PGDIR_SIZE;
            addr < b && b % PAGE == 0 && (addr < x <= b ==> (x - 1) / PGDIR_SIZE == addr / PGDIR_SIZE)
  {
    var q := addr / PGDIR_SIZE;
    assert addr + PGDIR_SIZE - (addr + PGDIR_SIZE) % PGDIR_SIZE == (q + 1) * PGDIR_SIZE;
  }

  /** From m to m2 the translations of the pages v, v + 1, ... have become ps and no other has changed. */
  ghost predicate Written(m: map<nat, nat>, m2: map<nat, nat>, v: nat, ps: seq<nat>) {
    && (forall w | v <= w < v + |ps| :: w in m2 && m2[w] == ps[w - v])
    && (forall w | !(v <= w < v + |ps|) :: (w in m2 <==> w in m) && (w in m ==> m2[w] == m[w]))
  }

  lemma {:induction false} WrittenMore(m: map<nat, nat>, m1: map<nat, nat>, m2: map<nat, nat>, v: nat, ps: seq<nat>, qs: seq<nat>)
    requires Written(m, m1, v, ps) && Written(m1, m2, v + |ps|, qs)
    ensures Written(m, m2, v, ps + qs)
  {
  }

  lemma {:induction false} WrittenOne(m: map<nat, nat>, m1: map<nat, nat>, m2: map<nat, nat>, v: nat, pages: seq<nat>, c: nat, d: nat)
    requires c <= d < |pages| && Written(m, m1, v, pages[c..d]) && Written(m1, m2, v + (d - c), [pages[d]])
    ensures Written(m, m2, v, pages[c..d + 1])
  {
    WrittenMore(m, m1, m2, v, pages[c..d], [pages[d]]);
    assert pages[c..d + 1] == pages[c..d] + [pages[d]];
  }

  lemma {:induction false} WrittenNext(m: map<nat, nat>, m1: map<nat, nat>, m2: map<nat, nat>, v: nat, pages: seq<nat>, c: nat, d: nat)
    requires c <= d <= |pages| && Written(m, m1, v, pages[..c]) && Written(m1, m2, v + c, pages[c..d])
    ensures Written(m, m2, v, pages[..d])
  {
    WrittenMore(m, m1, m2, v, pages[..c], pages[c..d]);
    assert pages[..d] == pages[..c] + pages[c..d];
  }

  /** From m to m2 the pages from v up to u have lost their translations and no other has changed. */
  ghost predicate Cleared(m: map<nat, nat>, m2: map<nat, nat>, v: nat, u: nat) {
    forall w :: (w in m2 <==> w in m && !(v <= w < u)) && (w in m2 ==> m2[w] == m[w])
  }

  lemma {:induction false} ClearedMore(m: map<nat, nat>, m1: map<nat, nat>, m2: map<nat, nat>, v: nat, u: nat, x: nat)
    requires v <= u <= x && Cleared(m, m1, v, u) && Cleared(m1, m2, u, x)
    ensures Cleared(m, m2, v, x)
  {
  }

  // ----- second-level tables

  const PTRS_PER_PTE: nat := 512

  /** Every section that the bytes from up to end touch has a second-level table. */
  ghost predicate SectionsIn(tables: set<nat>, from: nat, end: nat) {
    forall s: nat | from / PGDIR_SIZE <= s && s * PGDIR_SIZE < end :: s in tables
  }

  /** Every mapped page is in a second-level table. */
  ghost predicate TablesOk(ptes: map<nat, nat>, tables: set<nat>) {
    forall v | v in ptes :: v / PTRS_PER_PTE in tables
  }

  /** Tables were only added for sections that the bytes touch. */
  ghost predicate TablesFor(before: set<nat>, tables: set<nat>, from: nat, end: nat) {
    before <= tables && forall s | s in tables && s !in before :: from / PGDIR_SIZE <= s && s * PGDIR_SIZE < end
  }

  lemma {:induction false} SectionOf(addr: nat, from: nat, end: nat)
    requires from <= addr < end && (end - 1) / PGDIR_SIZE == from / PGDIR_SIZE
    ensures addr / PAGE / PTRS_PER_PTE == from / PGDIR_SIZE
  {
  }

  lemma {:induction false} SectionsMore(tables: set<nat>, from: nat, addr: nat, next: nat)
    requires from <= addr < next && (next - 1) / PGDIR_SIZE == addr / PGDIR_SIZE
    requires (from < addr ==> SectionsIn(tables, from, addr)) && addr / PGDIR_SIZE in tables
    ensures SectionsIn(tables, from, next)
  {
    forall s: nat | from / PGDIR_SIZE <= s && s * PGDIR_SIZE < next
      ensures s in tables
    {
      if s * PGDIR_SIZE >= addr {
        assert s == addr / PGDIR_SIZE;
      }
    }
  }

  lemma {:induction false} SectionsGrow(before: set<nat>, tables: set<nat>, from: nat, end: nat)
    requires before <= tables
    ensures SectionsIn(before, from, end) ==> SectionsIn(tables, from, end)
  {
  }

  /** The sections that the bytes touch and that have no second-level table. */
  ghost function Missing(tables: set<nat>, from: nat, end: nat): set<nat> {
    set s: nat | s < end && from / PGDIR_SIZE <= s && s * PGDIR_SIZE < end && s !in tables
  }

  /** Each new table was one of the spare ones. */
  ghost predicate SpareUsed(before: set<nat>, spare0: nat, tables: set<nat>, spare: nat) {
    before <= tables && spare0 == spare + |tables - before|
  }

  lemma {:induction false} SpareMore(t0: set<nat>, s0: nat, t1: set<nat>, s1: nat, t2: set<nat>, s2: nat)
    requires SpareUsed(t0, s0, t1, s1) && SpareUsed(t1, s1, t2, s2)
    ensures SpareUsed(t0, s0, t2, s2)
  {
    assert t2 - t0 == (t1 - t0) + (t2 - t1);
  }

  lemma {:induction false} SmallerSet(a: set<nat>, b: set<nat>)
    requires a <= b
    ensures |a| <= |b| && (a != b ==> |a| < |b|)
  {
    assert b == a + (b - a);
  }

  /** The spare tables are enough exactly when there are as many as sections without a table. */
  lemma {:induction false} Enough(before: set<nat>, spare0: nat, tables: set<nat>, spare: nat, from: nat, end: nat)
    requires TablesFor(before, tables, from, end) && SpareUsed(before, spare0, tables, spare)
    ensures SectionsIn(tables, from, end) ==> |Missing(before, from, end)| <= spare0
    ensures spare == 0 && !SectionsIn(tables, from, end) ==> |Missing(before, from, end)| > spare0
  {
    var all := Missing(before, from, end);
    assert tables - before <= all;
    SmallerSet(tables - before, all);
    if SectionsIn(tables, from, end) {
      assert all == tables - before;
    } else {
      var s: nat :| from / PGDIR_SIZE <= s && s * PGDIR_SIZE < end && s !in tables;
      assert s in all && s !in tables - before;
    }
  }

  /** map_vm_area has mapped the pages below addr. */
  ghost predicate Progress(m0: map<nat, nat>, m: map<nat, nat>, t0: set<nat>, t: set<nat>, from: nat, addr: nat, end: nat, pages: seq<nat>, d: nat) {
    && from <= addr <= end && from % PAGE == 0 && addr % PAGE == 0 && end % PAGE == 0
    && d == (addr - from) / PAGE && (end - from) / PAGE <= |pages|
    && Written(m0, m, from / PAGE, pages[..d]) && (forall i | 0 <= i < d :: pages[i] != 0)
    && TablesOk(m, t) && TablesFor(t0, t, from, end) && (from < addr ==> SectionsIn(t, from, addr))
  }

  lemma {:induction false} SectionMissing(tables: set<nat>, from: nat, addr: nat, end: nat)
    requires from <= addr < end && addr / PGDIR_SIZE !in tables
    ensures !SectionsIn(tables, from, end)
  {
    var s := addr / PGDIR_SIZE;
    assert from / PGDIR_SIZE <= s && s * PGDIR_SIZE < end;
  }

  /** One section more: m2 and t2 are the translations and tables after pages c to d were written. */
  lemma {:induction false} SectionDone(m0: map<nat, nat>, m: map<nat, nat>, m2: map<nat, nat>, t0: set<nat>, t: set<nat>, t2: set<nat>,
                                       from: nat, addr: nat, next: nat, end: nat, pages: seq<nat>, c: nat, d: nat)
    requires Progress(m0, m, t0, t, from, addr, end, pages, c)
    requires addr < next <= end && next % PAGE == 0 && (next - 1) / PGDIR_SIZE == addr / PGDIR_SIZE
    requires c <= d <= c + (next - addr) / PAGE && Written(m, m2, addr / PAGE, pages[c..d])
    requires TablesOk(m2, t2) && t <= t2 <= t + {addr / PGDIR_SIZE}
    ensures TablesFor(t0, t2, from, end) && d <= (end - from) / PAGE && Written(m0, m2, from / PAGE, pages[..d])
    ensures d == c + (next - addr) / PAGE && addr / PGDIR_SIZE in t2 && (forall i | c <= i < d :: pages[i] != 0) ==>
              Progress(m0, m2, t0, t2, from, next, end, pages, d)
    ensures addr / PGDIR_SIZE !in t2 ==> !SectionsIn(t2, from, end)
  {
    PageSteps(from, addr, next);
    PageSteps(from, next, end);
    WrittenNext(m0, m, m2, from / PAGE, pages, c, d);
    if addr / PGDIR_SIZE in t2 {
      SectionsGrow(t, t2, from, addr);
      SectionsMore(t2, from, addr, next);
    } else {
      SectionMissing(t2, from, addr, end);
    }
  }

  /** PAGE_ALIGN */
  function PageAlign(size: nat): (r: nat)
    ensures size <= r < size + PAGE && r % PAGE == 0
  {
    size + PAGE - 1 - (size + PAGE - 1) % PAGE
  }

  /** What a request takes, with its guard page. */
  function Total(size: nat): nat {
    PageAlign(size) + PAGE
  }

  lemma {:induction false} TotalOfPages(count: nat)
    ensures Total(count * PAGE) == (count + 1) * PAGE && Total(count * PAGE) / PAGE - 1 == count
  {
  }

  /** The pages of an area without its guard page. */
  function Pages(a: Area): int {
    a.size / PAGE - 1
  }

  /** Page v belongs to the mapped part of area i. */
  predicate InArea(areas: seq<Area>, i: nat, v: nat)
    requires i < |areas|
  {
    areas[i].addr / PAGE <= v < areas[i].addr / PAGE + Pages(areas[i])
  }

  ghost predicate Owned(areas: seq<Area>, v: nat) {
    exists i :: 0 <= i < |areas| && InArea(areas, i, v)
  }

  /** Only pages of areas, and never guard pages, are mapped. */
  ghost predicate PtesOk(areas: seq<Area>, ptes: map<nat, nat>) {
    forall v | v in ptes :: Owned(areas, v)
  }

  function Inserted(areas: seq<Area>, k: nat, a: Area): seq<Area>
    requires k <= |areas|
  {
    areas[..k] + [a] + areas[k..]
  }

  lemma {:induction false} InInserted(areas: seq<Area>, k: nat, a: Area, i: nat, v: nat)
    requires k <= |areas| && i < |areas| && InArea(areas, i, v)
    ensures Owned(Inserted(areas, k, a), v)
  {
    var l, j := Inserted(areas, k, a), if i < k then i else i + 1;
    assert l[j] == areas[i];
    assert InArea(l, j, v);
  }

  lemma {:induction false} InRest(areas: seq<Area>, k: nat, i: nat, v: nat)
    requires k < |areas| && i < |areas| && i != k && InArea(areas, i, v)
    ensures Owned(areas[..k] + areas[k + 1..], v)
  {
    var l, j := areas[..k] + areas[k + 1..], if i < k then i else i - 1;
    assert l[j] == areas[i];
    assert InArea(l, j, v);
  }

  lemma {:induction false} InsertApart(areas: seq<Area>, ptes: map<nat, nat>, k: nat, a: Area, v: nat)
    requires AreasOk(areas) && PtesOk(areas, ptes) && k <= |areas| && AreaOk(a) && v in ptes
    requires (forall i | 0 <= i < k :: areas[i].End() <= a.addr) && (k < |areas| ==> a.End() <= areas[k].addr)
    ensures Owned(Inserted(areas, k, a), v) && !(a.addr / PAGE <= v < a.End() / PAGE)
  {
    assert Owned(areas, v);
    var i :| 0 <= i < |areas| && InArea(areas, i, v);
    InInserted(areas, k, a, i, v);
    if i < k {
      Apart(areas[i], a);
    } else {
      Apart(a, areas[i]);
    }
  }

  lemma {:induction false} InsertOk(areas: seq<Area>, ptes: map<nat, nat>, k: nat, a: Area)
    requires AreasOk(areas) && PtesOk(areas, ptes) && k <= |areas| && AreaOk(a)
    requires (forall i | 0 <= i < k :: areas[i].End() <= a.addr) && (k < |areas| ==> a.End() <= areas[k].addr)
    ensures AreasOk(Inserted(areas, k, a)) && PtesOk(Inserted(areas, k, a), ptes)
    ensures forall v | v in ptes :: !(a.addr / PAGE <= v < a.End() / PAGE)
  {
    forall v | v in ptes
      ensures Owned(Inserted(areas, k, a), v) && !(a.addr / PAGE <= v < a.End() / PAGE)
    {
      InsertApart(areas, ptes, k, a, v);
    }
  }

  /** Where a request for an area in a window goes. */
  ghost predicate Placed(areas: seq<Area>, a: Area, size: nat, ioremap: bool, start: nat, end: nat) {
    && size > 0 && a.size == Total(size)
    && LowestFree(areas, a.addr, Total(size), AlignFor(size, ioremap), start)
    && (Total(size) <= end ==> (a.End() > end <==> Escapes(areas, Total(size), AlignFor(size, ioremap), start, end)))
  }

  /** An area is placed in the window, or some area is removed. */
  ghost predicate WindowStep(areas: seq<Area>, areas': seq<Area>, start: nat, end: nat) {
    || (exists k: nat, a, size: nat, ioremap :: k <= |areas| && areas' == Inserted(areas, k, a) && Placed(areas, a, size, ioremap, start, end))
    || (exists k :: 0 <= k < |areas| && areas' == areas[..k] + areas[k + 1..])
  }

  ghost predicate WindowNext(trace: seq<seq<Area>>, n: nat, start: nat, end: nat)
    requires n + 1 < |trace|
  {
    WindowStep(trace[n], trace[n + 1], start, end)
  }

  /** A run in which all requests name the same window. */
  ghost predicate WindowRun(trace: seq<seq<Area>>, start: nat, end: nat) {
    && |trace| > 0 && trace[0] == []
    && (forall n | 0 <= n < |trace| :: AreasOk(trace[n]))
    && (forall n: nat | n + 1 < |trace| :: WindowNext(trace, n, start, end))
  }

  lemma {:induction false} AllFromStart(trace: seq<seq<Area>>, start: nat, end: nat, n: nat)
    requires WindowRun(trace, start, end) && n < |trace|
    ensures forall i | 0 <= i < |trace[n]| :: trace[n][i].addr >= start
  {
    if n > 0 {
      AllFromStart(trace, start, end, n - 1);
      assert WindowNext(trace, n - 1, start, end);
    }
  }

  /** In such a run a request without alignment that is no larger than the window stays inside it,
      whatever requests for I/O memory there have been. */
  lemma {:induction false} OneWindow(trace: seq<seq<Area>>, start: nat, end: nat, n: nat, a: Area, size: nat)
    requires WindowRun(trace, start, end) && n < |trace| && Placed(trace[n], a, size, false, start, end) && start + Total(size) <= end
    ensures start <= a.addr && a.End() <= end
  {
    AllFromStart(trace, start, end, n);
    NoEscape(trace[n], Total(size), start, end);
  }

  lemma {:induction false} Apart(a: Area, b: Area)
    requires AreaOk(a) && AreaOk(b) && a.End() <= b.addr
    ensures a.addr / PAGE + Pages(a) < a.End() / PAGE <= b.addr / PAGE
  {
  }

  lemma {:induction false} RemoveOk(areas: seq<Area>, ptes: map<nat, nat>, ptes': map<nat, nat>, k: nat)
    requires AreasOk(areas) && PtesOk(areas, ptes) && k < |areas|
    requires Cleared(ptes, ptes', areas[k].addr / PAGE, areas[k].End() / PAGE)
    ensures AreasOk(areas[..k] + areas[k + 1..]) && PtesOk(areas[..k] + areas[k + 1..], ptes')
  {
    var l := areas[..k] + areas[k + 1..];
    forall v | v in ptes'
      ensures Owned(l, v)
    {
      assert Owned(areas, v);
      var i :| 0 <= i < |areas| && InArea(areas, i, v);
      InRest(areas, k, i, v);
    }
  }

  lemma {:induction false} MappedOk(areas: seq<Area>, ptes: map<nat, nat>, ptes': map<nat, nat>, k: nat, ps: seq<nat>)
    requires AreasOk(areas) && PtesOk(areas, ptes) && k < |areas| && |ps| <= Pages(areas[k])
    requires Written(ptes, ptes', areas[k].addr / PAGE, ps)
    ensures PtesOk(areas, ptes')
  {
    forall v | v in ptes'
      ensures Owned(areas, v)
    {
      if areas[k].addr / PAGE <= v < areas[k].addr / PAGE + |ps| {
        assert InArea(areas, k, v);
      } else {
        assert Owned(areas, v);
      }
    }
  }

  lemma {:induction false} AddressOrder(areas: seq<Area>, i: nat, j: nat)
    requires AreasOk(areas) && i < j < |areas|
    ensures areas[i].addr < areas[j].addr
  {
    assert areas[i].End() <= areas[j].addr;
  }

  lemma {:induction false} SamePosition(areas: seq<Area>, i: nat, j: nat, addr: nat)
    requires AreasOk(areas) && i < |areas| && j < |areas| && areas[i].addr == addr && areas[j].addr == addr
    ensures i == j
  {
    if i < j {
      AddressOrder(areas, i, j);
    } else if j < i {
      AddressOrder(areas, j, i);
    }
  }

  lemma {:induction false} AtPosition(areas: seq<Area>, k: nat, a: Area, j: nat)
    requires k <= |areas| && AreasOk(Inserted(areas, k, a)) && j <= |areas| && Inserted(areas, k, a)[j].addr == a.addr
    ensures j == k && Inserted(areas, k, a)[j] == a
  {
    assert Inserted(areas, k, a)[k] == a;
    SamePosition(Inserted(areas, k, a), k, j, a.addr);
  }

  /** Removing an area that was just inserted, however much of it was mapped, restores everything. */
  lemma {:induction false} UndoneOk(areas: seq<Area>, m: map<nat, nat>, k: nat, a: Area, m1: map<nat, nat>, ps: seq<nat>, j: nat, m2: map<nat, nat>)
    requires k <= |areas| && AreaOk(a) && |ps| <= Pages(a) && j == k
    requires forall v | v in m :: !(a.addr / PAGE <= v < a.End() / PAGE)
    requires Written(m, m1, a.addr / PAGE, ps) && Cleared(m1, m2, a.addr / PAGE, a.End() / PAGE)
    ensures Inserted(areas, k, a)[..j] + Inserted(areas, k, a)[j + 1..] == areas && m2 == m
  {
    forall v
      ensures v in m2 <==> v in m
      ensures v in m ==> m2[v] == m[v]
    {
      assert a.addr / PAGE + Pages(a) < a.End() / PAGE;
    }
  }

  lemma {:induction false} SectionsPart(tables: set<nat>, from: nat, mid: nat, end: nat)
    requires mid <= end
    ensures SectionsIn(tables, from, end) ==> SectionsIn(tables, from, mid)
  {
  }

  lemma {:induction false} PageInSection(x: nat)
    requires x % PAGE == 0
    ensures (x + PAGE - 1) / PGDIR_SIZE == x / PGDIR_SIZE
  {
  }

  /** Once the pages of an area are in tables, the section of its guard page decides. */
  lemma {:induction false} GuardDecides(tables: set<nat>, a: Area)
    requires AreaOk(a) && SectionsIn(tables, a.addr, a.End() - PAGE)
    ensures SectionsIn(tables, a.addr, a.End()) <==> (a.End() - PAGE) / PGDIR_SIZE in tables
  {
    var guard: nat := a.End() - PAGE;
    if guard / PGDIR_SIZE in tables {
      assert guard % PAGE == 0;
      PageInSection(guard);
      SectionsMore(tables, a.addr, guard, guard + PAGE);
    } else {
      SectionMissing(tables, a.addr, guard, guard + PAGE);
    }
  }

  /** A guard page at the beginning of a section gets no table with the pages of its area. */
  lemma {:induction false} GuardAlone(before: set<nat>, tables: set<nat>, a: Area)
    requires AreaOk(a) && TablesFor(before, tables, a.addr, a.End() - PAGE)
    requires (a.End() - PAGE) % PGDIR_SIZE == 0 && (a.End() - PAGE) / PGDIR_SIZE !in before
    ensures !SectionsIn(tables, a.addr, a.End())
  {
    var s := (a.End() - PAGE) / PGDIR_SIZE;
    assert s * PGDIR_SIZE == a.End() - PAGE;
    SectionMissing(tables, a.addr, a.End() - PAGE, a.End());
  }

  /** A request for one page in an empty list is placed where asked. */
  lemma {:induction false} EmptyPlace(r: Option<Area>, start: nat, end: nat)
    requires IsPow2(1) && start + 2 * PAGE <= end
    requires r.None? ==> NoRoom([], Total(PAGE), 1, start, end)
    requires r.Some? ==> r.value.size == Total(PAGE) && LowestFree([], r.value.addr, Total(PAGE), 1, start)
    ensures r == Some(Area(start, 2 * PAGE))
  {
    TotalOfPages(1);
    AlignUpIsLeast(start, 1);
    AlignOne(start);
    assert MultipleOf(start, 1) && Free([], start, Total(PAGE));
  }

  lemma {:induction false} PageSteps(from: nat, addr: nat, next: nat)
    requires from <= addr <= next && from % PAGE == 0 && addr % PAGE == 0 && next % PAGE == 0
    ensures (addr - from) / PAGE + (next - addr) / PAGE == (next - from) / PAGE
    ensures from / PAGE + (addr - from) / PAGE == addr / PAGE && addr / PAGE + (next - addr) / PAGE == next / PAGE
  {
  }

  lemma {:induction false} OnePage(from: nat, addr: nat, end: nat)
    requires from <= addr < end && from % PAGE == 0 && addr % PAGE == 0 && end % PAGE == 0
    ensures addr + PAGE <= end && (addr + PAGE - from) / PAGE == (addr - from) / PAGE + 1 <= (end - from) / PAGE
    ensures from / PAGE + (addr - from) / PAGE == addr / PAGE < end / PAGE
  {
  }

  /** What __remove_vm_area comes to.  Strayed is a walk that reads and clears memory which is no
      second-level table; nothing is said about what follows. */
  datatype Removal = NotFound | Removed(area: Area) | Strayed

  datatype MapOutcome = Mapped | Undone | Astray

  class VmSpace {
    var areas: seq<Area>           // vmlist
    var ptes: map<nat, nat>        // page of each mapped virtual page
    var tables: set<nat>           // sections that have a second-level table
    var spare: nat                 // second-level tables that can still be allocated
    var flushes: seq<(nat, nat)>   // ranges flushed

    /** vunmap_pte_range, which the pud and pmd levels pass their whole range to.  None of them looks
        whether there is a second-level table: without one the walk goes astray at once. */
    method VunmapPteRange(from: nat, end: nat) returns (ok: bool)
      requires from < end && from % PAGE == 0 && end % PAGE == 0
      modifies this`ptes
      ensures ok <==> from / PGDIR_SIZE in tables
      ensures if ok then Cleared(old(ptes), ptes, from / PAGE, end / PAGE) else ptes == old(ptes)
    {
      if from / PGDIR_SIZE !in tables {
        return false;
      }
      var addr := from;
      ptes := ptes - {addr / PAGE};
      addr := addr + PAGE;
      while addr != end
        invariant from < addr <= end && addr % PAGE == 0 && Cleared(old(ptes), ptes, from / PAGE, addr / PAGE)
        decreases end - addr
      {
        ptes := ptes - {addr / PAGE};
        addr := addr + PAGE;
      }
      ok := true;
    }

    /** unmap_vm_area.  The walk stays inside the tables exactly when every section of the area and its
        guard page has one; otherwise it goes astray after a part of the pages. */
    method UnmapVmArea(a: Area) returns (ok: bool)
      requires AreaOk(a)
      modifies this`ptes, this`flushes
      ensures ok <==> SectionsIn(tables, a.addr, a.End())
      ensures ok ==> Cleared(old(ptes), ptes, a.addr / PAGE, a.End() / PAGE) && flushes == old(flushes) + [(a.addr, a.End())]
      ensures !ok ==> flushes == old(flushes)
      ensures !ok ==> exists u :: a.addr / PAGE <= u < a.End() / PAGE && Cleared(old(ptes), ptes, a.addr / PAGE, u)
    {
      var addr, end := a.addr, a.End();
      var first := true;
      while first || addr != end
        invariant a.addr <= addr <= end && addr % PAGE == 0 && (first ==> addr == a.addr) && (!first ==> a.addr < addr)
        invariant Cleared(old(ptes), ptes, a.addr / PAGE, addr / PAGE) && flushes == old(flushes)
        invariant !first ==> SectionsIn(tables, a.addr, addr)
        decreases end - addr
      {
        first := false;
        PgdAddrEndFacts(addr, end);
        var next := PgdAddrEnd(addr, end);
        ghost var m := ptes;
        ok := VunmapPteRange(addr, next);
        if !ok {
          SectionMissing(tables, a.addr, addr, end);
          return;
        }
        ClearedMore(old(ptes), m, ptes, a.addr / PAGE, addr / PAGE, next / PAGE);
        SectionsMore(tables, a.addr, addr, next);
        addr := next;
      }
      flushes := flushes + [(a.addr, end)];
      ok := true;
    }

    /** set_pte_at */
    method SetPte(v: nat, page: nat)
      modifies this`ptes
      ensures Written(old(ptes), ptes, v, [page]) && ptes.Keys == old(ptes).Keys + {v}
    {
      ptes := ptes[v := page];
    }

    /** pte_alloc_kernel, without other threads: make sure the section has a second-level table. */
    method PteAllocKernel(section: nat) returns (ok: bool)
      modifies this`tables, this`spare
      ensures ok ==> section in tables
      ensures ok <==> section in old(tables) || old(spare) > 0
      ensures !ok ==> spare == 0 && section !in tables
      ensures old(tables) <= tables <= old(tables) + {section} && SpareUsed(old(tables), old(spare), tables, spare)
    {
      assert tables - tables == {} && (section !in tables ==> tables + {section} - tables == {section});
      if section !in tables {
        if spare == 0 {
          return false;
        }
        tables, spare := tables + {section}, spare - 1;
      }
      ok := true;
    }

    /** vmap_pte_range: pages come from position c of the array; 0 is a NULL entry. */
    method VmapPteRange(from: nat, end: nat, pages: seq<nat>, c: nat) returns (ok: bool, d: nat)
      requires from < end && from % PAGE == 0 && end % PAGE == 0 && (end - 1) / PGDIR_SIZE == from / PGDIR_SIZE
      requires c + (end - from) / PAGE <= |pages|
      requires TablesOk(ptes, tables) && forall v | from / PAGE <= v < end / PAGE :: v !in ptes
      modifies this`ptes, this`tables, this`spare
      ensures TablesOk(ptes, tables) && old(tables) <= tables <= old(tables) + {from / PGDIR_SIZE}
      ensures c <= d <= c + (end - from) / PAGE && Written(old(ptes), ptes, from / PAGE, pages[c..d])
      ensures ok ==> d == c + (end - from) / PAGE && from / PGDIR_SIZE in tables && forall i | c <= i < d :: pages[i] != 0
      ensures !ok ==> d < c + (end - from) / PAGE
      ensures !ok ==> if from / PGDIR_SIZE in tables then pages[d] == 0 else d == c && spare == 0
      ensures SpareUsed(old(tables), old(spare), tables, spare)
    {
      ok := PteAllocKernel(from / PGDIR_SIZE);
      d := c;
      if ok {
        ok, d := SetPtes(from, end, pages, c);
      }
    }

    /** The loop of vmap_pte_range, in a section that has its table. */
    method SetPtes(from: nat, end: nat, pages: seq<nat>, c: nat) returns (ok: bool, d: nat)
      requires from < end && from % PAGE == 0 && end % PAGE == 0 && (end - 1) / PGDIR_SIZE == from / PGDIR_SIZE
      requires c + (end - from) / PAGE <= |pages| && from / PGDIR_SIZE in tables
      requires TablesOk(ptes, tables) && forall v | from / PAGE <= v < end / PAGE :: v !in ptes
      modifies this`ptes
      ensures TablesOk(ptes, tables)
      ensures c <= d <= c + (end - from) / PAGE && Written(old(ptes), ptes, from / PAGE, pages[c..d])
      ensures if ok then d == c + (end - from) / PAGE else d < c + (end - from) / PAGE && pages[d] == 0
      ensures forall i | c <= i < d :: pages[i] != 0
    {
      var addr := from;
      var first := true;
      d := c;
      while first || addr != end
        invariant from <= addr <= end && addr % PAGE == 0 && (first ==> addr == from) && (!first ==> from < addr)
        invariant d == c + (addr - from) / PAGE && TablesOk(ptes, tables)
        invariant Written(old(ptes), ptes, from / PAGE, pages[c..d]) && forall i | c <= i < d :: pages[i] != 0
        decreases end - addr
      {
        first := false;
        OnePage(from, addr, end);
        var page := pages[d];
        assert addr / PAGE !in ptes;
        if page == 0 {
          return false, d;
        }
        ghost var m := ptes;
        SectionOf(addr, from, end);
        SetPte(addr / PAGE, page);
        WrittenOne(old(ptes), m, ptes, from / PAGE, pages, c, d);
        d := d + 1;
        addr := addr + PAGE;
      }
      ok := true;
    }

    ghost predicate Valid()
      reads this
    {
      AreasOk(areas) && PtesOk(areas, ptes) && TablesOk(ptes, tables)
    }

    /** map_vm_area: on success page i of the area is mapped to pages[i]; otherwise the first d pages
        are, and entry d is NULL or no second-level table could be had. */
    method MapVmArea(k: nat, pages: seq<nat>) returns (ok: bool, d: nat)
      requires Valid() && k < |areas| && Pages(areas[k]) <= |pages|
      requires forall v | v in ptes :: !InArea(areas, k, v)
      modifies this`ptes, this`tables, this`spare, this`flushes
      ensures Valid() && d <= Pages(areas[k]) && Written(old(ptes), ptes, areas[k].addr / PAGE, pages[..d])
      ensures TablesFor(old(tables), tables, areas[k].addr, areas[k].End() - PAGE)
      ensures ok ==> d == Pages(areas[k]) && forall i | 0 <= i < d :: pages[i] != 0
      ensures ok ==> SectionsIn(tables, areas[k].addr, areas[k].End() - PAGE)
      ensures !ok ==> d < Pages(areas[k])
      ensures !ok ==> pages[d] == 0 || (spare == 0 && !SectionsIn(tables, areas[k].addr, areas[k].End() - PAGE))
      ensures ok <==> (forall i | 0 <= i < Pages(areas[k]) :: pages[i] != 0)
                      && |Missing(old(tables), areas[k].addr, areas[k].End() - PAGE)| <= old(spare)
      ensures flushes == old(flushes) + [(areas[k].addr, areas[k].End() - PAGE)]
    {
      var addr, end: nat := areas[k].addr, areas[k].End() - PAGE;
      var from := addr;
      assert tables - tables == {};
      ok, d := true, 0;
      var first := true;
      while first || addr != end
        invariant (first ==> addr == from) && (!first ==> from < addr) && ok && flushes == old(flushes)
        invariant Progress(old(ptes), ptes, old(tables), tables, from, addr, end, pages, d)
        invariant SpareUsed(old(tables), old(spare), tables, spare)
        decreases end - addr
      {
        first := false;
        ok, d, addr := MapSection(from, addr, end, pages, d, old(ptes), old(tables), old(spare));
        if !ok {
          break;
        }
      }
      Enough(old(tables), old(spare), tables, spare, from, end);
      flushes := flushes + [(from, end)];
      MappedOk(areas, old(ptes), ptes, k, pages[..d]);
    }

    /** The body of the loop of map_vm_area. */
    method MapSection(from: nat, addr: nat, end: nat, pages: seq<nat>, c: nat,
                      ghost m0: map<nat, nat>, ghost t0: set<nat>, ghost s0: nat)
      returns (ok: bool, d: nat, next: nat)
      requires Progress(m0, ptes, t0, tables, from, addr, end, pages, c) && addr < end < WORD
      requires SpareUsed(t0, s0, tables, spare)
      requires forall v | from / PAGE <= v < end / PAGE :: v !in m0
      modifies this`ptes, this`tables, this`spare
      ensures addr < next <= end
      ensures ok ==> Progress(m0, ptes, t0, tables, from, next, end, pages, d)
      ensures TablesOk(ptes, tables) && TablesFor(t0, tables, from, end) && SpareUsed(t0, s0, tables, spare)
      ensures d <= (end - from) / PAGE && Written(m0, ptes, from / PAGE, pages[..d])
      ensures !ok ==> d < (end - from) / PAGE && (pages[d] == 0 || (spare == 0 && !SectionsIn(tables, from, end)))
    {
      PgdAddrEndFacts(addr, end);
      next := PgdAddrEnd(addr, end);
      ghost var m, t := ptes, tables;
      PageSteps(from, addr, next);
      PageSteps(from, next, end);
      ghost var s := spare;
      ok, d := VmapPteRange(addr, next, pages, c);
      SpareMore(t0, s0, t, s, tables, spare);
      SectionDone(m0, m, ptes, t0, t, tables, from, addr, next, end, pages, c, d);
    }

    /** __get_vm_area; total is the size with the guard page. */
    method GetVmArea(size: nat, ioremap: bool, start: nat, end: nat, memOk: bool) returns (r: Option<Area>, k: nat)
      requires Valid() && start % PAGE == 0 && end < WORD && NoWrap(areas, start, Total(size))
      modifies this`areas
      ensures Valid()
      ensures r.None? ==> areas == old(areas)
      ensures r.Some? ==> memOk && size > 0 && AreaOk(r.value) && r.value.size == Total(size)
      ensures r.Some? ==> k <= |old(areas)| && areas == Inserted(old(areas), k, r.value)
      ensures r.Some? ==> forall v | v in ptes :: !(r.value.addr / PAGE <= v < r.value.End() / PAGE)
      ensures r.Some? ==> Placed(old(areas), r.value, size, ioremap, start, end)
      ensures r.None? && memOk && size > 0 && Total(size) <= end ==> NoRoom(old(areas), Total(size), AlignFor(size, ioremap), start, end)
      ensures Total(size) <= end && memOk && size > 0 ==>
                (r.Some? && r.value.End() > end <==> Escapes(old(areas), Total(size), AlignFor(size, ioremap), start, end))
    {
      var align := AlignFor(size, ioremap);
      k := 0;
      if !memOk || PageAlign(size) == 0 {
        return None, k;
      }
      var total := PageAlign(size) + PAGE;
      var ok, pos, addr := FindGap(areas, total, align, start, end);
      if !ok {
        return None, k;
      }
      k := pos;
      var area := Area(addr, total);
      InsertOk(areas, ptes, pos, area);
      areas := Inserted(areas, pos, area);
      r := Some(area);
    }

    /** __remove_vm_area: the area that begins at addr goes, unless the walk over its pages goes astray. */
    method RemoveVmArea(addr: nat) returns (r: Removal, ghost k: nat)
      requires Valid()
      modifies this`areas, this`ptes, this`flushes
      ensures !r.Strayed? ==> Valid()
      ensures r.NotFound? <==> forall i | 0 <= i < |old(areas)| :: old(areas)[i].addr != addr
      ensures r.NotFound? ==> areas == old(areas) && ptes == old(ptes)
      ensures !r.NotFound? ==> k < |old(areas)| && old(areas)[k].addr == addr
      ensures !r.NotFound? ==> (r.Strayed? <==> !SectionsIn(tables, addr, old(areas)[k].End()))
      ensures r.Strayed? ==> areas == old(areas)
      ensures r.Removed? ==> areas == old(areas)[..k] + old(areas)[k + 1..] && r.area == Area(addr, old(areas)[k].size - PAGE)
      ensures r.Removed? ==> Cleared(old(ptes), ptes, addr / PAGE, old(areas)[k].End() / PAGE)
      ensures r.Removed? ==> flushes == old(flushes) + [(addr, old(areas)[k].End())]
    {
      var p := 0;
      while p < |areas|
        invariant p <= |areas| && forall i | 0 <= i < p :: areas[i].addr != addr
      {
        var tmp := areas[p];
        if tmp.addr == addr {
          var ok := UnmapVmArea(tmp);
          if !ok {
            return Strayed, p;
          }
          RemoveOk(areas, old(ptes), ptes, p);
          areas := areas[..p] + areas[p + 1..];
          return Removed(Area(addr, tmp.size - PAGE)), p;
        }
        p := p + 1;
      }
      r, k := NotFound, 0;
    }

    /** vmap of the first count pages in a window.  Zero means failure.  A failure that reserved an area
        first removes it again, which goes astray exactly when a section of the area has no table, as
        after every failure to get one; otherwise nothing has changed. */
    method Vmap(pages: seq<nat>, count: nat, ioremap: bool, start: nat, end: nat, memOk: bool, physPages: nat)
      returns (addr: nat, strayed: bool, ghost reserved: Option<Area>)
      requires Valid() && 0 < start && start % PAGE == 0 && end < WORD && count <= |pages|
      requires NoWrap(areas, start, Total(count * PAGE))
      modifies this
      ensures !strayed ==> Valid()
      ensures addr == 0 && !strayed ==> areas == old(areas) && ptes == old(ptes)
      ensures addr != 0 ==> Written(old(ptes), ptes, addr / PAGE, pages[..count]) && forall i | 0 <= i < count :: pages[i] != 0
      ensures addr != 0 ==> !strayed && reserved.Some? && reserved.value.addr == addr
      ensures reserved.Some? ==> reserved.value.size == (count + 1) * PAGE
      ensures reserved.Some? ==> LowestFree(old(areas), reserved.value.addr, (count + 1) * PAGE, AlignFor(count * PAGE, ioremap), start)
      ensures reserved.None? ==> addr == 0 && !strayed
      ensures reserved.Some? ==> count <= physPages && memOk && count > 0
      ensures reserved.None? && 0 < count <= physPages && memOk && (count + 1) * PAGE <= end ==>
                NoRoom(old(areas), (count + 1) * PAGE, AlignFor(count * PAGE, ioremap), start, end)
      ensures reserved.Some? ==>
                (addr != 0 <==> (forall i | 0 <= i < count :: pages[i] != 0)
                                && |Missing(old(tables), reserved.value.addr, reserved.value.addr + count * PAGE)| <= old(spare))
      ensures reserved.Some? && addr == 0 ==> (strayed <==> !SectionsIn(tables, reserved.value.addr, reserved.value.End()))
      ensures reserved.Some? && addr == 0 && (forall i | 0 <= i < count :: pages[i] != 0) ==> strayed
    {
      reserved := None;
      TotalOfPages(count);
      if count > physPages {
        return 0, false, reserved;
      }
      var area, k := GetVmArea(count * PAGE, ioremap, start, end, memOk);
      if area.None? {
        return 0, false, reserved;
      }
      reserved := area;
      var outcome := MapOrRemove(k, pages, old(areas), area.value);
      addr := if outcome == Mapped then area.value.addr else 0;
      strayed := outcome == Astray;
    }

    /** The rest of vmap: map the new area, and remove it again if that fails. */
    method MapOrRemove(k: nat, pages: seq<nat>, ghost before: seq<Area>, a: Area) returns (r: MapOutcome)
      requires Valid() && k <= |before| && areas == Inserted(before, k, a) && AreaOk(a) && Pages(a) <= |pages|
      requires forall v | v in ptes :: !(a.addr / PAGE <= v < a.End() / PAGE)
      modifies this`areas, this`ptes, this`tables, this`spare, this`flushes
      ensures r != Astray ==> Valid()
      ensures r == Mapped ==> areas == old(areas) && Written(old(ptes), ptes, a.addr / PAGE, pages[..Pages(a)])
      ensures r == Mapped <==> (forall i | 0 <= i < Pages(a) :: pages[i] != 0) && |Missing(old(tables), a.addr, a.End() - PAGE)| <= old(spare)
      ensures r == Undone ==> areas == before && ptes == old(ptes)
      ensures r != Mapped ==> (r == Astray <==> !SectionsIn(tables, a.addr, a.End()))
      ensures r == Undone ==> exists i :: 0 <= i < Pages(a) && pages[i] == 0
    {
      assert areas[k] == a;
      var ok, d := MapVmArea(k, pages);
      if ok {
        return Mapped;
      }
      SectionsPart(tables, a.addr, a.End() - PAGE, a.End());
      ghost var m1 := ptes;
      var gone, j := RemoveVmArea(a.addr);
      AtPosition(before, k, a, j);
      if gone.Strayed? {
        return Astray;
      }
      UndoneOk(before, old(ptes), k, a, m1, pages[..d], j, ptes);
      r := Undone;
    }

    /** An area whose guard page begins a section without a table goes astray when it is removed, whether
        its pages could be mapped or not. */
    method MapThenRemove(k: nat, pages: seq<nat>) returns (r: Removal)
      requires Valid() && k < |areas| && Pages(areas[k]) <= |pages|
      requires forall v | v in ptes :: !InArea(areas, k, v)
      requires (areas[k].End() - PAGE) % PGDIR_SIZE == 0 && (areas[k].End() - PAGE) / PGDIR_SIZE !in tables
      modifies this
      ensures r.Strayed?
    {
      var a := areas[k];
      var ok, d := MapVmArea(k, pages);
      GuardAlone(old(tables), tables, a);
      ghost var j;
      r, j := RemoveVmArea(a.addr);
      SamePosition(areas, k, j, a.addr);
    }

    /** So does one page of an empty space just below a section boundary. */
    method GuardPageStrays(page: nat) returns (r: Removal)
      requires Valid() && areas == [] && ptes == map[] && tables == {}
      modifies this
      ensures r.Strayed?
    {
      TotalOfPages(1);
      var area, k := GetVmArea(PAGE, false, 0xe01f_f000, 0xe040_0000, true);
      EmptyPlace(area, 0xe01f_f000, 0xe040_0000);
      r := MapThenRemove(k, [page]);
    }
  }
}
