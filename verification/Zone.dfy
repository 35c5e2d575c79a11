/** One zone of the buddy allocator: per-order free lists, page flags and counters. */
module ZoneAllocator {
  import opened Bits
  import opened Lists
  import opened Buddy

  /** The fields of struct page the buddy system looks at. */
  datatype Page = Page(privateFlag: bool, order: nat, reserved: bool, count: int)

  /** (1 << MAX_ORDER) - 1 */
  const INDEX_MASK: nat := 2047

  datatype FreeArea = FreeArea(list: seq<nat>, nrFree: int)

  /** A page nobody holds a reference to and that is not reserved. */
  predicate Idle(pg: Page) {
    pg.count == 0 && !pg.reserved
  }

  /** The sum of nr_free << o over the orders below n. */
  ghost function SumAreas(a: seq<FreeArea>, n: nat): int
    requires n <= |a|
  {
    if n == 0 then 0 else SumAreas(a, n - 1) + Shl(a[n - 1].nrFree, n - 1)
  }

  /** One more block of order k on the lists counts Pow2(k) more pages. */
  lemma {:induction false} SumStep(a: seq<FreeArea>, b: seq<FreeArea>, n: nat, k: nat)
    requires n <= |a| == |b| && k < |a|
    requires b[k].nrFree == a[k].nrFree + 1
    requires forall i | 0 <= i < |a| && i != k :: b[i].nrFree == a[i].nrFree
    ensures SumAreas(b, n) == SumAreas(a, n) + if k < n then Pow2(k) else 0
  {
    if n > 0 {
      SumStep(a, b, n - 1, k);
      if k == n - 1 {
        ShlStep(a[k].nrFree, k);
      }
    }
  }

  lemma {:induction false} EmptySum(a: seq<FreeArea>, n: nat)
    requires n <= |a| && forall i | 0 <= i < n :: a[i].nrFree == 0
    ensures SumAreas(a, n) == 0
  {
    if n > 0 {
      EmptySum(a, n - 1);
      ShlZero(n - 1);
    }
  }

  /** The lists and their lengths describe exactly the blocks of B. */
  ghost predicate ListsAgree(a: seq<FreeArea>, B: Blocks) {
    && |a| == MAX_ORDER
    && forall o: nat | o < MAX_ORDER ::
         && NoDup(a[o].list)
         && a[o].nrFree == |a[o].list|
         && forall p :: p in a[o].list <==> p in B && B[p] == o
  }

  /** The free lists after handing back (h, o): each merged buddy leaves its list and the
      final block becomes the head of its own. */
  ghost function InsertLists(a: seq<FreeArea>, B: Blocks, h: nat, o: nat): seq<FreeArea>
    requires |a| == MAX_ORDER && o < MAX_ORDER
    decreases MAX_ORDER - o
  {
    if o < MAX_ORDER - 1 && Mergeable(B, h, o) then
      var b := BuddyOf(h, o);
      InsertLists(a[o := Removed(a[o], b)], B - {b}, Min(h, b), o + 1)
    else
      a[o := Added(a[o], h)]
  }

  lemma {:induction false} InsertUnfold(a: seq<FreeArea>, B: Blocks, h: nat, o: nat)
    requires |a| == MAX_ORDER && o < MAX_ORDER - 1 && Mergeable(B, h, o)
    ensures Insert(B, h, o) == Insert(B - {BuddyOf(h, o)}, Min(h, BuddyOf(h, o)), o + 1)
    ensures InsertLists(a, B, h, o)
         == InsertLists(a[o := Removed(a[o], BuddyOf(h, o))], B - {BuddyOf(h, o)}, Min(h, BuddyOf(h, o)), o + 1)
  {
  }

  lemma {:induction false} CountAdded(s: set<nat>, h: nat, o: nat)
    requires s !! Block(h, o)
    ensures |s + Block(h, o)| == |s| + Pow2(o)
  {
    DisjointUnionSize(s, Block(h, o));
    BlockSize(h, o);
  }

  /** The free lists after splitting the block (h, high) down to order low. */
  ghost function SplitLists(a: seq<FreeArea>, h: nat, high: nat, low: nat): seq<FreeArea>
    requires high <= |a|
    decreases high
  {
    if high <= low then a
    else SplitLists(a[high - 1 := Added(a[high - 1], h + Pow2(high - 1))], h, high - 1, low)
  }

  ghost predicate OneGone(l: seq<nat>, l': seq<nat>) {
    exists b: nat :: l' == Unlink(l, b)
  }

  /** The block that the handed-back pages end up in heads the list of its order; on the lists of the orders
      below, one block each has gone; all other lists are as they were. */
  lemma {:induction false} InsertListsIs(a: seq<FreeArea>, B: Blocks, h: nat, o: nat) returns (H: nat, k: nat)
    requires |a| == MAX_ORDER && o < MAX_ORDER && Aligned(h, o)
    ensures o <= k < MAX_ORDER && Block(h, o) <= Block(H, k)
    ensures H in Insert(B, h, o) && Insert(B, h, o)[H] == k
    ensures var a' := InsertLists(a, B, h, o);
            && |a'| == MAX_ORDER
            && a'[k].list == [H] + a[k].list
            && (forall j | o <= j < k :: OneGone(a[j].list, a'[j].list))
            && (forall j | 0 <= j < o || k < j < MAX_ORDER :: a'[j] == a[j])
    decreases MAX_ORDER - o
  {
    if o < MAX_ORDER - 1 && Mergeable(B, h, o) {
      var b: nat := BuddyOf(h, o);
      HalvesJoin(h, o);
      var a1 := a[o := Removed(a[o], b)];
      H, k := InsertListsIs(a1, B - {b}, Min(h, b), o + 1);
      assert InsertLists(a, B, h, o)[o].list == Unlink(a[o].list, b);
      assert OneGone(a[o].list, InsertLists(a, B, h, o)[o].list);
      forall j | o < j < k
        ensures OneGone(a[j].list, InsertLists(a, B, h, o)[j].list)
      {
        assert OneGone(a1[j].list, InsertLists(a, B, h, o)[j].list);
      }
    } else {
      H, k := h, o;
    }
  }

  /** Splitting a block puts each upper half at the head of the list of its order. */
  lemma {:induction false} SplitListsIs(a: seq<FreeArea>, h: nat, high: nat, low: nat)
    requires low <= high <= |a|
    ensures var a' := SplitLists(a, h, high, low);
            && |a'| == |a|
            && (forall j | low <= j < high :: a'[j].list == [h + Pow2(j)] + a[j].list && a'[j].nrFree == a[j].nrFree + 1)
            && (forall j | 0 <= j < low || high <= j < |a| :: a'[j] == a[j])
    decreases high
  {
    if high > low {
      SplitListsIs(a[high - 1 := Added(a[high - 1], h + Pow2(high - 1))], h, high - 1, low);
    }
  }

  /** The first order from o up with a non-empty list. */
  function FirstOrder(a: seq<FreeArea>, o: nat): (r: nat)
    requires |a| == MAX_ORDER
    ensures r < MAX_ORDER ==> o <= r && a[r].list != []
    ensures forall k | o <= k < r && k < MAX_ORDER :: a[k].list == []
    decreases MAX_ORDER - o
  {
    if o >= MAX_ORDER then o else if a[o].list != [] then o else FirstOrder(a, o + 1)
  }

  function Removed(fa: FreeArea, p: nat): FreeArea {
    FreeArea(Unlink(fa.list, p), fa.nrFree - 1)
  }

  function Added(fa: FreeArea, p: nat): FreeArea {
    FreeArea([p] + fa.list, fa.nrFree + 1)
  }

  /** The free blocks as recorded in PG_private and page->private. */
  ghost function BlocksOf(start: nat, m: seq<Page>): Blocks {
    map p: nat | p in Frames(start, start + |m|) && PageAt(start, m, p).privateFlag :: PageAt(start, m, p).order
  }

  /** pfn_to_page */
  function PageAt(start: nat, m: seq<Page>, p: nat): Page
    requires start <= p < start + |m|
  {
    m[p - start]
  }

  lemma {:induction false} UnmarkBlocks(start: nat, m: seq<Page>, p: nat)
    requires start <= p < start + |m|
    ensures BlocksOf(start, m[p - start := Unmarked(m[p - start])]) == BlocksOf(start, m) - {p}
  {
  }

  lemma {:induction false} MarkBlocks(start: nat, m: seq<Page>, p: nat, o: nat)
    requires start <= p < start + |m|
    ensures BlocksOf(start, m[p - start := Marked(m[p - start], o)]) == BlocksOf(start, m)[p := o]
  {
    var m' := m[p - start := Marked(m[p - start], o)];
    assert PageAt(start, m', p) == m'[p - start];
    assert p in Frames(start, start + |m'|);
  }

  /** Page flags, lists, list lengths and the page count all describe one canonical set of free blocks. */
  ghost predicate ZoneOk(start: nat, m: seq<Page>, a: seq<FreeArea>, freePages: int) {
    ListsOk(start, start + |m|, a, BlocksOf(start, m), freePages)
  }

  /** Lists, list lengths and the page count describe the canonical blocks B. */
  ghost predicate ListsOk(lo: nat, hi: nat, a: seq<FreeArea>, B: Blocks, freePages: int) {
    WellFormed(lo, hi, B) && Canonical(B) && ListsAgree(a, B) && freePages == SumAreas(a, |a|)
  }

  /** Every page of s is in range and idle. */
  ghost predicate IdleIn(start: nat, m: seq<Page>, s: set<nat>) {
    forall p | p in s :: start <= p < start + |m| && Idle(PageAt(start, m, p))
  }

  /** Reference counts and reserved bits are the same. */
  ghost predicate SameRefs(m: seq<Page>, m': seq<Page>) {
    |m| == |m'| && forall i | 0 <= i < |m| :: m[i].count == m'[i].count && m[i].reserved == m'[i].reserved
  }

  function Unmarked(pg: Page): Page {
    pg.(privateFlag := false, order := 0)
  }

  function Marked(pg: Page, o: nat): Page {
    pg.(privateFlag := true, order := o)
  }

  lemma {:induction false} TakeOffLists(lo: nat, hi: nat, a: seq<FreeArea>, B: Blocks, freePages: int, p: nat, o: nat)
    requires ListsOk(lo, hi, a, B, freePages) && p in B && B[p] == o
    ensures lo <= p < hi && o < MAX_ORDER
    ensures ListsOk(lo, hi, a[o := Removed(a[o], p)], B - {p}, freePages - Pow2(o))
  {
    RemoveGood(lo, hi, B, p);
    RemoveAgrees(a, B, p, o);
    SumStep(a[o := Removed(a[o], p)], a, |a|, o);
  }

  lemma {:induction false} RemoveGood(lo: nat, hi: nat, B: Blocks, p: nat)
    requires WellFormed(lo, hi, B) && Canonical(B) && p in B
    ensures WellFormed(lo, hi, B - {p}) && Canonical(B - {p})
    ensures lo <= p < hi && B[p] < MAX_ORDER
  {
    RemoveCanonical(B, p);
  }

  /** Taking a head off its list keeps flags, lists and counts in agreement. */
  lemma {:induction false} TakeOffOk(start: nat, m: seq<Page>, a: seq<FreeArea>, freePages: int, p: nat, o: nat)
    requires ZoneOk(start, m, a, freePages) && p in BlocksOf(start, m) && BlocksOf(start, m)[p] == o
    ensures start <= p < start + |m| && o < |a|
    ensures BlocksOf(start, m[p - start := Unmarked(m[p - start])]) == BlocksOf(start, m) - {p}
    ensures ZoneOk(start, m[p - start := Unmarked(m[p - start])], a[o := Removed(a[o], p)], freePages - Pow2(o))
  {
    TakeOffLists(start, start + |m|, a, BlocksOf(start, m), freePages, p, o);
    UnmarkBlocks(start, m, p);
  }

  lemma {:induction false} PutOnLists(lo: nat, hi: nat, a: seq<FreeArea>, B: Blocks, freePages: int, p: nat, o: nat)
    requires ListsOk(lo, hi, a, B, freePages) && Fits(lo, hi, B, p, o) && (o == MAX_ORDER - 1 || !Mergeable(B, p, o))
    ensures lo <= p < hi && ListsOk(lo, hi, a[o := Added(a[o], p)], B[p := o], freePages + Pow2(o))
  {
    PlaceGood(lo, hi, B, p, o);
    AddAgrees(a, B, p, o);
    SumStep(a, a[o := Added(a[o], p)], |a|, o);
  }

  lemma {:induction false} PlaceGood(lo: nat, hi: nat, B: Blocks, p: nat, o: nat)
    requires WellFormed(lo, hi, B) && Canonical(B) && Fits(lo, hi, B, p, o) && (o == MAX_ORDER - 1 || !Mergeable(B, p, o))
    ensures p !in B && WellFormed(lo, hi, B[p := o]) && Canonical(B[p := o])
  {
    PlacePages(lo, hi, B, p, o);
    PlaceCanonical(lo, hi, B, p, o);
  }

  /** Putting a head on the list of its order keeps flags, lists and counts in agreement. */
  lemma {:induction false} PutOnOk(start: nat, m: seq<Page>, a: seq<FreeArea>, freePages: int, p: nat, o: nat)
    requires ZoneOk(start, m, a, freePages) && Fits(start, start + |m|, BlocksOf(start, m), p, o)
    requires o == MAX_ORDER - 1 || !Mergeable(BlocksOf(start, m), p, o)
    ensures start <= p < start + |m| && o < |a|
    ensures BlocksOf(start, m[p - start := Marked(m[p - start], o)]) == BlocksOf(start, m)[p := o]
    ensures ZoneOk(start, m[p - start := Marked(m[p - start], o)], a[o := Added(a[o], p)], freePages + Pow2(o))
  {
    PutOnLists(start, start + |m|, a, BlocksOf(start, m), freePages, p, o);
    MarkBlocks(start, m, p, o);
  }

  lemma {:induction false} RemoveAgrees(a: seq<FreeArea>, B: Blocks, p: nat, o: nat)
    requires ListsAgree(a, B) && o < MAX_ORDER && p in B && B[p] == o
    ensures ListsAgree(a[o := Removed(a[o], p)], B - {p})
  {
    var a' := a[o := Removed(a[o], p)];
    UnlinkFacts(a[o].list, p);
    forall k: nat | k < MAX_ORDER
      ensures NoDup(a'[k].list) && a'[k].nrFree == |a'[k].list|
      ensures forall q :: q in a'[k].list <==> q in B - {p} && (B - {p})[q] == k
    {
    }
  }

  lemma {:induction false} AddAgrees(a: seq<FreeArea>, B: Blocks, p: nat, o: nat)
    requires ListsAgree(a, B) && o < MAX_ORDER && p !in B
    ensures ListsAgree(a[o := Added(a[o], p)], B[p := o])
  {
    var a' := a[o := Added(a[o], p)];
    forall k: nat | k < MAX_ORDER
      ensures NoDup(a'[k].list) && a'[k].nrFree == |a'[k].list|
      ensures forall q :: q in a'[k].list <==> q in B[p := o] && B[p := o][q] == k
    {
      assert p !in a[k].list;
    }
  }

  lemma {:induction false} IdleKept(start: nat, m: seq<Page>, m': seq<Page>, s: set<nat>, t: set<nat>)
    requires SameRefs(m, m') && IdleIn(start, m, s) && t <= s
    ensures IdleIn(start, m', t)
  {
    forall p | p in t
      ensures start <= p < start + |m'| && Idle(PageAt(start, m', p))
    {
      assert Idle(PageAt(start, m, p));
    }
  }

  /** Where a free of (page0, order0) in the zone (m0, a0) stands when the lists are a, the
      flags m, and the block grown so far is (page, order). */
  ghost predicate Coalescing(start: nat, m0: seq<Page>, a0: seq<FreeArea>, page0: nat, order0: nat,
                             m: seq<Page>, a: seq<FreeArea>, freePages: int, page: nat, order: nat)
  {
    && order0 <= order < MAX_ORDER
    && |a0| == MAX_ORDER
    && ZoneOk(start, m, a, freePages - Pow2(order))
    && SameRefs(m0, m)
    && IdleIn(start, m, FreePages(BlocksOf(start, m)))
    && Fits(start, start + |m|, BlocksOf(start, m), page, order)
    && Insert(BlocksOf(start, m), page, order) == Insert(BlocksOf(start, m0), page0, order0)
    && InsertLists(a, BlocksOf(start, m), page, order) == InsertLists(a0, BlocksOf(start, m0), page0, order0)
  }

  lemma {:induction false} CoalesceStep(start: nat, m0: seq<Page>, a0: seq<FreeArea>, page0: nat, order0: nat,
                                        m: seq<Page>, a: seq<FreeArea>, freePages: int, page: nat, order: nat,
                                        m': seq<Page>, a': seq<FreeArea>, page': nat)
    requires page' == Min(page, BuddyOf(page, order))
    requires Coalescing(start, m0, a0, page0, order0, m, a, freePages, page, order)
    requires order < MAX_ORDER - 1 && Mergeable(BlocksOf(start, m), page, order)
    requires ZoneOk(start, m', a', freePages - Pow2(order + 1)) && SameRefs(m, m')
    requires BlocksOf(start, m') == BlocksOf(start, m) - {BuddyOf(page, order)}
    requires a' == a[order := Removed(a[order], BuddyOf(page, order))]
    ensures Coalescing(start, m0, a0, page0, order0, m', a', freePages, page', order + 1)
  {
    var B := BlocksOf(start, m);
    MergeStep(start, start + |m|, B, page, order);
    RemovePages(start, start + |m|, B, BuddyOf(page, order));
    IdleKept(start, m, m', FreePages(B), FreePages(BlocksOf(start, m')));
    InsertUnfold(a, B, page, order);
  }

  /** Where splitting the block (page, high0) of the zone (m0, a0) down to low stands at order high. */
  ghost predicate Expanding(start: nat, m0: seq<Page>, a0: seq<FreeArea>, page: nat, high0: nat, low: nat,
                            m: seq<Page>, a: seq<FreeArea>, freePages: int, high: nat)
  {
    && low <= high <= high0 < MAX_ORDER
    && |a0| == MAX_ORDER
    && ZoneOk(start, m, a, freePages - (Pow2(high) - Pow2(low)))
    && SameRefs(m0, m)
    && Fits(start, start + |m|, BlocksOf(start, m), page, high)
    && Split(BlocksOf(start, m), page, high, low) == Split(BlocksOf(start, m0), page, high0, low)
    && SplitLists(a, page, high, low) == SplitLists(a0, page, high0, low)
  }

  lemma {:induction false} SplitUnfold(a: seq<FreeArea>, B: Blocks, h: nat, k: nat, low: nat)
    requires low <= k < |a|
    ensures Split(B, h, k + 1, low) == Split(B[h + Pow2(k) := k], h, k, low)
    ensures SplitLists(a, h, k + 1, low) == SplitLists(a[k := Added(a[k], h + Pow2(k))], h, k, low)
  {
  }

  /** The upper half of a block that fits can go on its list. */
  lemma {:induction false} UpperFits(lo: nat, hi: nat, B: Blocks, h: nat, k: nat)
    requires WellFormed(lo, hi, B) && Canonical(B) && Fits(lo, hi, B, h, k + 1)
    ensures Fits(lo, hi, B, h + Pow2(k), k) && !Mergeable(B, h + Pow2(k), k)
  {
    SplitStep(lo, hi, B, h, k);
  }

  lemma {:induction false} ExpandStep(start: nat, m0: seq<Page>, a0: seq<FreeArea>, page: nat, high0: nat, low: nat,
                                      m: seq<Page>, a: seq<FreeArea>, freePages: int, k: nat,
                                      m': seq<Page>, a': seq<FreeArea>)
    requires Expanding(start, m0, a0, page, high0, low, m, a, freePages, k + 1) && k >= low
    requires ZoneOk(start, m', a', freePages - (Pow2(k) - Pow2(low))) && SameRefs(m, m')
    requires BlocksOf(start, m') == BlocksOf(start, m)[page + Pow2(k) := k]
    requires a' == a[k := Added(a[k], page + Pow2(k))]
    ensures Expanding(start, m0, a0, page, high0, low, m', a', freePages, k)
  {
    SplitStep(start, start + |m|, BlocksOf(start, m), page, k);
    SplitUnfold(a, BlocksOf(start, m), page, k, low);
  }

  lemma {:induction false} FreeDone(start: nat, m0: seq<Page>, m: seq<Page>, page0: nat, order0: nat)
    requires WellFormed(start, start + |m0|, BlocksOf(start, m0)) && Canonical(BlocksOf(start, m0))
    requires Fits(start, start + |m0|, BlocksOf(start, m0), page0, order0)
    requires IdleIn(start, m0, FreePages(BlocksOf(start, m0))) && IdleIn(start, m0, Block(page0, order0))
    requires SameRefs(m0, m) && BlocksOf(start, m) == Insert(BlocksOf(start, m0), page0, order0)
    ensures IdleIn(start, m, FreePages(BlocksOf(start, m)))
    ensures FreePages(BlocksOf(start, m)) == FreePages(BlocksOf(start, m0)) + Block(page0, order0)
    ensures |FreePages(BlocksOf(start, m))| == |FreePages(BlocksOf(start, m0))| + Pow2(order0)
  {
    InsertCorrect(start, start + |m0|, BlocksOf(start, m0), page0, order0);
    IdleKept(start, m0, m, FreePages(BlocksOf(start, m0)) + Block(page0, order0), FreePages(BlocksOf(start, m)));
    CountAdded(FreePages(BlocksOf(start, m0)), page0, order0);
  }

  lemma {:induction false} RmqueueOk(start: nat, m: seq<Page>, a: seq<FreeArea>, page: nat, cur: nat, order: nat)
    requires WellFormed(start, start + |m|, BlocksOf(start, m)) && ListsAgree(a, BlocksOf(start, m))
    requires order <= cur < MAX_ORDER && page in a[cur].list
    ensures page in BlocksOf(start, m) && BlocksOf(start, m)[page] == cur
    ensures Fits(start, start + |m|, BlocksOf(start, m) - {page}, page, cur)
  {
    RemovePages(start, start + |m|, BlocksOf(start, m), page);
  }

  /** The free pages after block page was taken and split. */
  lemma {:induction false} AllocPages(lo: nat, hi: nat, B0: Blocks, B: Blocks, page: nat, cur: nat, order: nat)
    requires WellFormed(lo, hi, B0) && Canonical(B0) && order <= cur && page in B0 && B0[page] == cur
    requires B == Split(B0 - {page}, page, cur, order)
    ensures Fits(lo, hi, B, page, order) && Block(page, order) <= FreePages(B0)
    ensures FreePages(B) == FreePages(B0) - Block(page, order) && FreePages(B) + Block(page, order) == FreePages(B0)
  {
    RemovePages(lo, hi, B0, page);
    SplitCorrect(lo, hi, B0 - {page}, page, cur, order);
    LowerPart(page, order, cur);
    TakePart(FreePages(B0), Block(page, cur), Block(page, order));
  }

  lemma {:induction false} TakePart<T>(f: set<T>, x: set<T>, y: set<T>)
    requires y <= x <= f
    ensures (f - x) + (x - y) == f - y && (f - y) + y == f
  {
  }

  lemma {:induction false} AllocDone(start: nat, m0: seq<Page>, m: seq<Page>, page: nat, cur: nat, order: nat)
    requires WellFormed(start, start + |m0|, BlocksOf(start, m0)) && Canonical(BlocksOf(start, m0))
    requires order <= cur && page in BlocksOf(start, m0) && BlocksOf(start, m0)[page] == cur
    requires SameRefs(m0, m) && IdleIn(start, m0, FreePages(BlocksOf(start, m0)))
    requires BlocksOf(start, m) == Split(BlocksOf(start, m0) - {page}, page, cur, order)
    ensures Fits(start, start + |m|, BlocksOf(start, m), page, order)
    ensures Block(page, order) <= FreePages(BlocksOf(start, m0))
    ensures FreePages(BlocksOf(start, m)) == FreePages(BlocksOf(start, m0)) - Block(page, order)
    ensures IdleIn(start, m, FreePages(BlocksOf(start, m)))
    ensures |FreePages(BlocksOf(start, m))| == |FreePages(BlocksOf(start, m0))| - Pow2(order)
  {
    var B0, B := BlocksOf(start, m0), BlocksOf(start, m);
    AllocPages(start, start + |m0|, B0, B, page, cur, order);
    IdleKept(start, m0, m, FreePages(B0), FreePages(B));
    CountAdded(FreePages(B), page, order);
  }

  /** PG_reserved cleared on the pages of a block. */
  function ClearReserved(start: nat, m: seq<Page>, page: nat, order: nat): (r: seq<Page>)
    ensures |r| == |m|
  {
    seq(|m|, i requires 0 <= i < |m| => if page <= start + i < page + Pow2(order) then m[i].(reserved := false) else m[i])
  }

  lemma {:induction false} ReservedKeepsBlocks(start: nat, m: seq<Page>, page: nat, order: nat)
    ensures BlocksOf(start, ClearReserved(start, m, page, order)) == BlocksOf(start, m)
    ensures forall s: set<nat> | IdleIn(start, m, s) :: IdleIn(start, ClearReserved(start, m, page, order), s)
  {
    var m' := ClearReserved(start, m, page, order);
    forall p | p in Frames(start, start + |m|)
      ensures PageAt(start, m', p).privateFlag == PageAt(start, m, p).privateFlag
      ensures PageAt(start, m', p).order == PageAt(start, m, p).order
      ensures Idle(PageAt(start, m, p)) ==> Idle(PageAt(start, m', p))
    {
    }
    forall s: set<nat> | IdleIn(start, m, s)
      ensures IdleIn(start, m', s)
    {
      forall p | p in s
        ensures start <= p < start + |m'| && Idle(PageAt(start, m', p))
      {
        assert p in Frames(start, start + |m|);
      }
    }
  }

  /** set_page_count */
  function SetRef(start: nat, m: seq<Page>, p: nat, v: int): seq<Page>
    requires start <= p < start + |m|
  {
    m[p - start := m[p - start].(count := v)]
  }

  lemma {:induction false} CountKeepsBlocks(start: nat, m: seq<Page>, page: nat, v: int)
    requires start <= page < start + |m|
    ensures BlocksOf(start, SetRef(start, m, page, v)) == BlocksOf(start, m)
  {
    var m' := SetRef(start, m, page, v);
    forall p | p in Frames(start, start + |m|)
      ensures PageAt(start, m', p).privateFlag == PageAt(start, m, p).privateFlag
      ensures PageAt(start, m', p).order == PageAt(start, m, p).order
    {
    }
  }

  /** The flag test of page_is_buddy holds exactly of a free buddy of the same order. */
  lemma {:induction false} BuddyTest(start: nat, m: seq<Page>, b: nat, o: nat)
    requires IdleIn(start, m, FreePages(BlocksOf(start, m)))
    ensures (b in BlocksOf(start, m) && BlocksOf(start, m)[b] == o)
       <==> (start <= b < start + |m| && PageAt(start, m, b).privateFlag && PageAt(start, m, b).order == o
             && Idle(PageAt(start, m, b)))
  {
    var B := BlocksOf(start, m);
    if b in B {
      assert b in Block(b, B[b]);
      assert b in FreePages(B);
    }
  }

  /** The index arithmetic of the coalescing loop, in page frames. */
  lemma {:induction false} BuddyIndex(page: nat, idx: nat, o: nat)
    requires o < MAX_ORDER && Aligned(page, o) && idx == And(page, INDEX_MASK)
    ensures page + (Xor(idx, Pow2(o)) - idx) == BuddyOf(page, o)
    ensures BuddyOf(page, o) >= 0
    ensures page + (AndNot(idx, Pow2(o)) - idx) == Min(page, BuddyOf(page, o))
    ensures AndNot(idx, Pow2(o)) == And(Min(page, BuddyOf(page, o)), INDEX_MASK)
  {
    assert INDEX_MASK == Pow2(MAX_ORDER) - 1;
    BuddyFacts(page, o);
    MaskKeepsLowBits(page, MAX_ORDER, o);
    XorPow2(idx, o);
    AndNotPow2(idx, o);
    MaskClearsBit(page, MAX_ORDER, o);
  }

  lemma {:induction false} IndexAligned(page: nat, o: nat)
    requires o < MAX_ORDER && Aligned(page, o)
    ensures And(And(page, INDEX_MASK), Pow2(o) - 1) == 0
  {
    assert INDEX_MASK == Pow2(MAX_ORDER) - 1;
    MaskKeepsLowBits(page, MAX_ORDER, o);
    AlignedTest(And(page, INDEX_MASK), o);
  }

  /** Masking and clearing a bit commute. */
  lemma {:induction false} MaskClearsBit(x: nat, n: nat, o: nat)
    requires o < n
    ensures (if Bit(x, o) then x - Pow2(o) else x) >= 0
    ensures AndNot(And(x, Pow2(n) - 1), Pow2(o)) == And(if Bit(x, o) then x - Pow2(o) else x, Pow2(n) - 1)
  {
    var m := Pow2(n) - 1;
    assert m / 2 == Pow2(n - 1) - 1 && m % 2 == 1;
    if x == 0 {
      ZeroHasNoBits(o);
    } else if o == 0 {
      AndNotZero(And(x / 2, m / 2));
    } else {
      MaskClearsBit(x / 2, n - 1, o - 1);
      ClearHalf(x, o);
    }
  }

  /** Clearing bit o of x clears bit o - 1 of its half. */
  lemma {:induction false} ClearHalf(x: nat, o: nat)
    requires o > 0 && (Bit(x / 2, o - 1) ==> x / 2 >= Pow2(o - 1))
    ensures var y := if Bit(x, o) then x - Pow2(o) else x;
            y >= 0 && y % 2 == x % 2 && y / 2 == if Bit(x / 2, o - 1) then x / 2 - Pow2(o - 1) else x / 2
  {
    assert Pow2(o) == 2 * Pow2(o - 1) && Bit(x, o) == Bit(x / 2, o - 1);
  }

  class Zone {
    const start: nat
    const spanned: nat
    var mem: seq<Page>
    var area: seq<FreeArea>
    var freePages: int

    /** A zone as the memory map is set up: every page reserved, nothing on the lists. */
    constructor (start: nat, spanned: nat)
      ensures this.start == start && this.spanned == spanned
      ensures Valid() && FreeBlocks() == map[] && freePages == 0
      ensures forall i | 0 <= i < spanned :: mem[i] == Page(false, 0, true, 0)
    {
      this.start, this.spanned, this.freePages := start, spanned, 0;
      this.mem := seq(spanned, _ => Page(false, 0, true, 0));
      this.area := seq(MAX_ORDER, _ => FreeArea([], 0));
      new;
      EmptySum(area, MAX_ORDER);
      assert FreePages(FreeBlocks()) == {};
    }

    ghost function FreeBlocks(): Blocks
      reads this
    {
      BlocksOf(start, mem)
    }

    /** Everything agrees, except that extra more pages are counted than are on the lists. */
    ghost predicate Consistent(extra: int)
      reads this
    {
      |mem| == spanned && ZoneOk(start, mem, area, freePages - extra)
    }

    /** Every page of s is in the zone and idle. */
    ghost predicate AllIdle(s: set<nat>)
      reads this
    {
      IdleIn(start, mem, s)
    }

    ghost predicate Valid()
      reads this
    {
      && Consistent(0)
      && AllIdle(FreePages(FreeBlocks()))
      && freePages == |FreePages(FreeBlocks())|
    }

    predicate BadRange(pfn: int) {
      pfn >= start + spanned || pfn < start
    }

    predicate PageIsBuddy(pfn: int, order: nat)
      requires !BadRange(pfn) && |mem| == spanned
      reads this
    {
      var pg := mem[pfn - start];
      pg.privateFlag && pg.order == order && !pg.reserved && pg.count == 0
    }

    /** The block can be handed back: in the zone, not on any list, no references. */
    ghost predicate Freeable(page: nat, order: nat)
      reads this
    {
      Fits(start, start + |mem|, FreeBlocks(), page, order) && AllIdle(Block(page, order))
    }

    /** Take the head page of a free block off its list and clear its order. */
    method TakeOff(page: nat, order: nat, ghost extra: int)
      requires Consistent(extra) && page in FreeBlocks() && FreeBlocks()[page] == order
      modifies this`mem, this`area
      ensures Consistent(extra + Pow2(order))
      ensures FreeBlocks() == old(FreeBlocks()) - {page}
      ensures area == old(area)[order := Removed(old(area)[order], page)]
      ensures SameRefs(old(mem), mem)
    {
      TakeOffOk(start, mem, area, freePages - extra, page, order);
      area := area[order := Removed(area[order], page)];
      mem := mem[page - start := Unmarked(mem[page - start])];
    }

    /** Mark a page as the head of a free block and put it at the front of its list. */
    method PutOn(page: nat, order: nat, ghost extra: int)
      requires Consistent(extra) && Fits(start, start + |mem|, FreeBlocks(), page, order)
      requires order == MAX_ORDER - 1 || !Mergeable(FreeBlocks(), page, order)
      modifies this`mem, this`area
      ensures Consistent(extra - Pow2(order))
      ensures FreeBlocks() == old(FreeBlocks())[page := order]
      ensures area == old(area)[order := Added(old(area)[order], page)]
      ensures SameRefs(old(mem), mem)
    {
      PutOnOk(start, mem, area, freePages - extra, page, order);
      mem := mem[page - start := Marked(mem[page - start], order)];
      area := area[order := Added(area[order], page)];
    }

    /** Take the buddy of (page, order) off its list if it is free at the same order. */
    method TakeBuddy(page: nat, pageIdx: nat, order: nat) returns (taken: bool)
      requires Consistent(Pow2(order)) && AllIdle(FreePages(FreeBlocks()))
      requires order < MAX_ORDER - 1 && Aligned(page, order) && pageIdx == And(page, INDEX_MASK)
      modifies this`mem, this`area
      ensures taken == Mergeable(old(FreeBlocks()), page, order)
      ensures !taken ==> unchanged(this)
      ensures taken ==> Consistent(Pow2(order + 1))
      ensures taken ==> FreeBlocks() == old(FreeBlocks()) - {BuddyOf(page, order)}
      ensures taken ==> area == old(area)[order := Removed(old(area)[order], BuddyOf(page, order))]
      ensures SameRefs(old(mem), mem)
    {
      var buddy;
      taken, buddy := FindBuddy(page, pageIdx, order);
      if taken {
        TakeOff(buddy, order, Pow2(order));
      }
    }

    /** The buddy of (page, order), and whether it is in the zone and free at the same order. */
    method FindBuddy(page: nat, pageIdx: nat, order: nat) returns (found: bool, buddy: nat)
      requires |mem| == spanned && AllIdle(FreePages(FreeBlocks()))
      requires order < MAX_ORDER && Aligned(page, order) && pageIdx == And(page, INDEX_MASK)
      ensures buddy == BuddyOf(page, order) && found == Mergeable(FreeBlocks(), page, order)
    {
      BuddyIndex(page, pageIdx, order);
      buddy := page + (Xor(pageIdx, Pow2(order)) - pageIdx);
      BuddyTest(start, mem, buddy, order);
      found := !BadRange(buddy) && PageIsBuddy(buddy, order);
    }

    /** One round of the coalescing loop: absorb the buddy or stop. */
    method TryMerge(page: nat, pageIdx: nat, order: nat,
                    ghost m0: seq<Page>, ghost a0: seq<FreeArea>, ghost page0: nat, ghost order0: nat)
      returns (merged: bool, page': nat, pageIdx': nat)
      requires |mem| == spanned && order < MAX_ORDER - 1 && pageIdx == And(page, INDEX_MASK)
      requires Coalescing(start, m0, a0, page0, order0, mem, area, freePages, page, order)
      modifies this`mem, this`area
      ensures |mem| == spanned && pageIdx' == And(page', INDEX_MASK)
      ensures merged ==> Coalescing(start, m0, a0, page0, order0, mem, area, freePages, page', order + 1)
      ensures !merged ==> page' == page && unchanged(this) && !Mergeable(FreeBlocks(), page, order)
    {
      ghost var m, a := mem, area;
      page', pageIdx' := page, pageIdx;
      merged := TakeBuddy(page, pageIdx, order);
      if merged {
        BuddyIndex(page, pageIdx, order);
        pageIdx' := AndNot(pageIdx, Pow2(order));
        page' := page + (pageIdx' - pageIdx);
        CoalesceStep(start, m0, a0, page0, order0, m, a, freePages, page, order, mem, area, page');
      }
    }

    /** The coalescing loop of __free_pages_bulk. */
    method Coalesce(page0: nat, order0: nat) returns (page: nat, order: nat)
      requires |mem| == spanned
      requires Coalescing(start, mem, area, page0, order0, mem, area, freePages, page0, order0)
      modifies this`mem, this`area
      ensures |mem| == spanned && (order == MAX_ORDER - 1 || !Mergeable(FreeBlocks(), page, order))
      ensures Coalescing(start, old(mem), old(area), page0, order0, mem, area, freePages, page, order)
    {
      page, order := page0, order0;
      var pageIdx := And(page, INDEX_MASK);
      while order < MAX_ORDER - 1
        invariant |mem| == spanned && pageIdx == And(page, INDEX_MASK)
        invariant Coalescing(start, old(mem), old(area), page0, order0, mem, area, freePages, page, order)
      {
        var merged;
        merged, page, pageIdx := TryMerge(page, pageIdx, order, old(mem), old(area), page0, order0);
        if !merged {
          break;
        }
        order := order + 1;
      }
    }

    /** __free_pages_bulk: hand a block back, coalescing with free buddies. */
    method FreeBlock(page0: nat, order0: nat)
      requires Valid() && Freeable(page0, order0)
      modifies this
      ensures Valid()
      ensures FreeBlocks() == Insert(old(FreeBlocks()), page0, order0)
      ensures FreePages(FreeBlocks()) == old(FreePages(FreeBlocks())) + Block(page0, order0)
      ensures area == InsertLists(old(area), old(FreeBlocks()), page0, order0)
      ensures freePages == old(freePages) + Pow2(order0)
      ensures SameRefs(old(mem), mem)
    {
      assert And(And(page0, INDEX_MASK), Pow2(order0) - 1) == 0 by {
        IndexAligned(page0, order0);
      }
      assert !BadRange(page0);
      LinkBlock(page0, order0);
      FreeDone(start, old(mem), mem, page0, order0);
    }

    /** What __free_pages_bulk does to the lists. */
    method LinkBlock(page0: nat, order0: nat)
      requires Consistent(0) && AllIdle(FreePages(FreeBlocks())) && Fits(start, start + |mem|, FreeBlocks(), page0, order0)
      modifies this
      ensures Consistent(0) && FreeBlocks() == Insert(old(FreeBlocks()), page0, order0)
      ensures area == InsertLists(old(area), old(FreeBlocks()), page0, order0)
      ensures freePages == old(freePages) + Pow2(order0) && SameRefs(old(mem), mem)
    {
      freePages := freePages + Pow2(order0);
      var page, order := Coalesce(page0, order0);
      PutOn(page, order, Pow2(order));
    }

    /** One round of expand: the upper half of the block of order k + 1 goes on its list. */
    method GiveUpperHalf(page: nat, size: nat, k: nat, low: nat,
                         ghost m0: seq<Page>, ghost a0: seq<FreeArea>, ghost high0: nat)
      requires |mem| == spanned && low <= k && size == Pow2(k)
      requires Expanding(start, m0, a0, page, high0, low, mem, area, freePages, k + 1)
      modifies this`mem, this`area
      ensures |mem| == spanned && Expanding(start, m0, a0, page, high0, low, mem, area, freePages, k)
    {
      ghost var m, a := mem, area;
      UpperFits(start, start + |m|, BlocksOf(start, m), page, k);
      var u := page + size;
      assert u == page + Pow2(k) && !BadRange(u);
      PutOn(u, k, Pow2(k + 1) - Pow2(low));
      ExpandStep(start, m0, a0, page, high0, low, m, a, freePages, k, mem, area);
    }

    /** __ClearPageReserved on every page of a block that is not free. */
    method Unreserve(page: nat, order: nat)
      requires Valid() && start <= page && page + Pow2(order) <= start + |mem|
      modifies this`mem
      ensures Valid() && FreeBlocks() == old(FreeBlocks()) && |mem| == old(|mem|)
      ensures mem == ClearReserved(start, old(mem), page, order)
    {
      ReservedKeepsBlocks(start, mem, page, order);
      mem := ClearReserved(start, mem, page, order);
    }

    /** set_page_count on a page that is not free. */
    method SetCount(page: nat, v: int)
      requires Valid() && !BadRange(page) && page !in FreePages(FreeBlocks())
      modifies this`mem
      ensures Valid() && FreeBlocks() == old(FreeBlocks())
      ensures mem == SetRef(start, old(mem), page, v)
    {
      CountKeepsBlocks(start, mem, page, v);
      mem := SetRef(start, mem, page, v);
    }

    /** expand: give back the upper halves of the block (page, high0) until order low is left. */
    method Expand(page: nat, low: nat, high0: nat)
      requires low <= high0 && Consistent(Pow2(high0) - Pow2(low))
      requires Fits(start, start + |mem|, FreeBlocks(), page, high0)
      modifies this`mem, this`area
      ensures Consistent(0)
      ensures FreeBlocks() == Split(old(FreeBlocks()), page, high0, low)
      ensures area == SplitLists(old(area), page, high0, low)
      ensures SameRefs(old(mem), mem)
    {
      var high: nat, size: nat := high0, Pow2(high0);
      ghost var m0, a0 := mem, area;
      while high > low
        invariant |mem| == spanned && size == Pow2(high)
        invariant Expanding(start, m0, a0, page, high0, low, mem, area, freePages, high)
      {
        high, size := high - 1, size / 2;
        GiveUpperHalf(page, size, high, low, m0, a0, high0);
      }
    }

    /** __rmqueue: take the first block of the smallest sufficient order and split it. */
    method Rmqueue(order: nat) returns (r: Option<nat>)
      requires Valid()
      modifies this
      ensures Valid() && SameRefs(old(mem), mem)
      ensures var cur := FirstOrder(old(area), order);
              if cur >= MAX_ORDER then
                r == None && unchanged(this)
              else
                && r == Some(old(area)[cur].list[0])
                && FreeBlocks() == Split(old(FreeBlocks()) - {r.value}, r.value, cur, order)
                && area == SplitLists(old(area)[cur := Removed(old(area)[cur], r.value)], r.value, cur, order)
                && freePages == old(freePages) - Pow2(order)
      ensures r.Some? ==> Fits(start, start + |mem|, FreeBlocks(), r.value, order)
      ensures r.Some? ==> Block(r.value, order) <= old(FreePages(FreeBlocks()))
      ensures r.Some? ==> FreePages(FreeBlocks()) == old(FreePages(FreeBlocks())) - Block(r.value, order)
    {
      var current := order;
      while current < MAX_ORDER
        invariant order <= current
        invariant FirstOrder(area, order) == FirstOrder(area, current)
        invariant unchanged(this)
      {
        if area[current].list != [] {
          var page := TakeFirst(order, current);
          return Some(page);
        }
        current := current + 1;
      }
      return None;
    }

    /** The first block of the list of order cur is taken and split. */
    method TakeFirst(order: nat, cur: nat) returns (page: nat)
      requires Valid() && order <= cur < MAX_ORDER && area[cur].list != []
      modifies this
      ensures Valid() && SameRefs(old(mem), mem) && page == old(area)[cur].list[0]
      ensures FreeBlocks() == Split(old(FreeBlocks()) - {page}, page, cur, order)
      ensures area == SplitLists(old(area)[cur := Removed(old(area)[cur], page)], page, cur, order)
      ensures freePages == old(freePages) - Pow2(order)
      ensures Fits(start, start + |mem|, FreeBlocks(), page, order) && Block(page, order) <= old(FreePages(FreeBlocks()))
      ensures FreePages(FreeBlocks()) == old(FreePages(FreeBlocks())) - Block(page, order)
    {
      page := area[cur].list[0];
      RmqueueOk(start, mem, area, page, cur, order);
      SplitOff(page, order, cur);
      AllocDone(start, old(mem), mem, page, cur, order);
    }

    /** What __rmqueue does to the lists. */
    method SplitOff(page: nat, order: nat, cur: nat)
      requires Consistent(0) && order <= cur && page in FreeBlocks() && FreeBlocks()[page] == cur
      requires Fits(start, start + |mem|, FreeBlocks() - {page}, page, cur)
      modifies this
      ensures Consistent(0) && FreeBlocks() == Split(old(FreeBlocks()) - {page}, page, cur, order)
      ensures cur < |old(area)| && area == SplitLists(old(area)[cur := Removed(old(area)[cur], page)], page, cur, order)
      ensures freePages == old(freePages) - Pow2(order) && SameRefs(old(mem), mem)
    {
      TakeOff(page, cur, 0);
      freePages := freePages - Pow2(order);
      Expand(page, order, cur);
    }
  }
}
