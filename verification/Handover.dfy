/** The end of the boot allocator: every free page goes to the page allocator, whole words of the
    bitmap as blocks of 32 pages, and the bitmap's own pages follow. */
module Handover {
  import opened Bits
  import opened Buddy
  import opened Bootmem
  import opened ZoneAllocator
  import PA = PageAllocator

  const BITS_PER_LONG: nat := 32
  const WORD_ORDER: nat := 5

  /** ffs: the number of the lowest set bit, counted from one. */
  function Ffs(x: nat): nat {
    if x == 0 then 0 else if x % 2 == 1 then 1 else 1 + Ffs(x / 2)
  }

  /** The node starts on a boundary coarse enough for blocks of 32 pages. */
  predicate GoFast(origin: nat) {
    origin == 0 || Ffs(origin) - 12 > Ffs(BITS_PER_LONG)
  }

  lemma {:induction false} FfsAligned(x: nat, o: nat)
    requires x > 0 && o < Ffs(x)
    ensures Aligned(x, o)
  {
    if o > 0 {
      FfsAligned(x / 2, o - 1);
    }
  }

  lemma {:induction false} PagesAligned(x: nat)
    requires Aligned(x, 17)
    ensures Aligned(x / PAGE, WORD_ORDER)
  {
    AlignedIsMultiple(x, 17);
    AlignedIsMultiple(x / PAGE, WORD_ORDER);
    Pow2Add(12, WORD_ORDER);
    assert Pow2(WORD_ORDER) == 32 && Pow2(12) == PAGE && Pow2(17) == 131072;
    MegaPages(x);
  }

  lemma {:induction false} MegaPages(x: nat)
    requires x % 131072 == 0
    ensures x / PAGE % 32 == 0
  {
    assert x == 131072 * (x / 131072);
  }

  /** On a coarse enough node every word of the bitmap starts on a 32-page boundary. */
  lemma {:induction false} WordsAligned(origin: nat, i: nat)
    requires GoFast(origin) && Aligned(i, WORD_ORDER)
    ensures Aligned(origin / PAGE + i, WORD_ORDER)
  {
    assert Ffs(32) == 6 by {
      assert Ffs(1) == 1 && Ffs(2) == 2 && Ffs(4) == 3 && Ffs(8) == 4 && Ffs(16) == 5;
    }
    if origin == 0 {
      ZeroHasNoBits(WORD_ORDER);
    } else {
      FfsAligned(origin, 17);
      PagesAligned(origin);
    }
    AlignedSum(origin / PAGE, i, WORD_ORDER);
  }

  lemma {:induction false} AlignedSum(x: nat, y: nat, o: nat)
    requires Aligned(x, o) && Aligned(y, o)
    ensures Aligned(x + y, o)
  {
    if o > 0 {
      AlignedSum(x / 2, y / 2, o - 1);
      assert (x + y) / 2 == x / 2 + y / 2;
    }
  }

  /** The number of clear bits below i. */
  function CountClear(bits: seq<bool>, i: nat): nat
    requires i <= |bits|
  {
    if i == 0 then 0 else CountClear(bits, i - 1) + if bits[i - 1] then 0 else 1
  }

  predicate Covered(cs: seq<Chunk>, p: nat) {
    exists j :: 0 <= j < |cs| && cs[j].head <= p < cs[j].head + Pow2(cs[j].order)
  }

  /** The blocks released once the bits below i were looked at. */
  ghost predicate ReleasedUpTo(bits: seq<bool>, pfn: nat, i: nat, cs: seq<Chunk>) {
    && i < |bits|
    && (forall j | 0 <= j < |cs| ::
          && (cs[j].order == 0 || cs[j].order == WORD_ORDER)
          && Aligned(cs[j].head, cs[j].order)
          && pfn <= cs[j].head && cs[j].head + Pow2(cs[j].order) <= pfn + i)
    && (forall j, k | 0 <= j < k < |cs| :: cs[j].head + Pow2(cs[j].order) <= cs[k].head)
    && (forall k: nat {:trigger bits[k]} | k < i :: !bits[k] <==> Covered(cs, pfn + k))
  }

  /** A run of reserved pages. */
  lemma {:induction false} SkipRun(bits: seq<bool>, pfn: nat, i: nat, j: nat, cs: seq<Chunk>)
    requires ReleasedUpTo(bits, pfn, i, cs) && i <= j < |bits| && forall k | i <= k < j :: bits[k]
    ensures ReleasedUpTo(bits, pfn, j, cs) && CountClear(bits, j) == CountClear(bits, i)
  {
    if i < j {
      SkipRun(bits, pfn, i, j - 1, cs);
    }
  }

  lemma {:induction false} CoveredMore(cs: seq<Chunk>, c: Chunk, p: nat)
    ensures Covered(cs + [c], p) <==> Covered(cs, p) || c.head <= p < c.head + Pow2(c.order)
  {
    var ds := cs + [c];
    if Covered(cs, p) {
      var j :| 0 <= j < |cs| && cs[j].head <= p < cs[j].head + Pow2(cs[j].order);
      assert ds[j] == cs[j];
    } else if Covered(ds, p) {
      var j :| 0 <= j < |ds| && ds[j].head <= p < ds[j].head + Pow2(ds[j].order);
      assert j < |cs| ==> ds[j] == cs[j];
    }
    assert ds[|cs|] == c;
  }

  /** One more released block, of clear pages. */
  lemma {:induction false} ReleaseBlock(bits: seq<bool>, pfn: nat, i: nat, cs: seq<Chunk>, o: nat, n: nat)
    requires ReleasedUpTo(bits, pfn, i, cs) && (o == 0 || o == WORD_ORDER) && Aligned(pfn + i, o)
    requires n == Pow2(o) && Clear(bits, i, i + n)
    ensures ReleasedUpTo(bits, pfn, i + n, cs + [Chunk(pfn + i, o)])
  {
    var c := Chunk(pfn + i, o);
    var ds := cs + [c];
    forall k: nat | k < i + n
      ensures !bits[k] <==> Covered(ds, pfn + k)
    {
      if k >= i {
        assert ds[|cs|].head <= pfn + k < ds[|cs|].head + Pow2(ds[|cs|].order);
      } else {
        CoveredMore(cs, c, pfn + k);
      }
    }
  }

  lemma {:induction false} CountRun(bits: seq<bool>, i: nat, j: nat)
    requires i <= j && Clear(bits, i, j)
    ensures CountClear(bits, j) == CountClear(bits, i) + (j - i)
  {
    if i < j {
      CountRun(bits, i, j - 1);
    }
  }

  /** All 32 bits of the word at i are clear, or all are set. */
  predicate WordClear(bits: seq<bool>, i: nat) {
    forall m | i <= m < i + BITS_PER_LONG :: !TestBit(bits, m)
  }

  predicate WordSet(bits: seq<bool>, i: nat) {
    forall m | i <= m < i + BITS_PER_LONG :: TestBit(bits, m)
  }

  /** What is left of the bitmap's pages: bytes of the map, rounded up to pages. */
  function MapPages(pages: nat): nat {
    (pages / 8 + PAGE - 1) / PAGE
  }

  /** bootmem_bootmap_pages: the pages set aside for the bitmap. */
  function BootmapPages(pages: nat): nat {
    var mapsize := (pages + 7) / 8;
    AndNot(mapsize + (PAGE - 1), PAGE - 1) / PAGE
  }

  lemma {:induction false} BootmapPagesIs(pages: nat)
    ensures BootmapPages(pages) == ((pages + 7) / 8 + PAGE - 1) / PAGE
  {
    var x := (pages + 7) / 8 + (PAGE - 1);
    assert Pow2(12) == PAGE;
    AndNotMask(x, 12);
  }

  /** The pages given back for the bitmap are those set aside, except that one is lost exactly when
      the last page of the bitmap would hold at most seven bits. */
  lemma {:induction false} MapPagesReturned(pages: nat)
    ensures MapPages(pages) == BootmapPages(pages) - if 1 <= pages % 32768 <= 7 then 1 else 0
  {
    BootmapPagesIs(pages);
    var q, r := pages / 32768, pages % 32768;
    assert pages == 32768 * q + r;
    assert pages / 8 == 4096 * q + r / 8;
    assert (pages + 7) / 8 == 4096 * q + (r + 7) / 8;
  }

  /** A word of clear bits goes as one block. */
  lemma {:induction false} ReleaseClearWord(bits: seq<bool>, pfn: nat, i: nat, freed: seq<Chunk>)
    requires |bits| > 0 && bits[|bits| - 1] && i < |bits| - 1 && WordClear(bits, i) && Aligned(pfn + i, WORD_ORDER)
    requires ReleasedUpTo(bits, pfn, i, freed)
    ensures i + BITS_PER_LONG <= |bits| - 1
    ensures ReleasedUpTo(bits, pfn, i + BITS_PER_LONG, freed + [Chunk(pfn + i, WORD_ORDER)])
    ensures CountClear(bits, i + BITS_PER_LONG) == CountClear(bits, i) + BITS_PER_LONG
  {
    WordInside(bits, i);
    ReleaseBlock(bits, pfn, i, freed, WORD_ORDER, BITS_PER_LONG);
    CountRun(bits, i, i + BITS_PER_LONG);
  }

  /** Below n each word of clear bits has gone as one block. */
  ghost predicate WordsWhole(bits: seq<bool>, pfn: nat, n: nat, freed: seq<Chunk>) {
    forall k: nat | k < n && Aligned(k, WORD_ORDER) && WordClear(bits, k) :: Chunk(pfn + k, WORD_ORDER) in freed
  }

  lemma {:induction false} WordsMore(bits: seq<bool>, pfn: nat, i: nat, freed: seq<Chunk>, next: seq<Chunk>)
    requires WordsWhole(bits, pfn, i, freed) && freed <= next && Aligned(i, WORD_ORDER)
    requires WordClear(bits, i) ==> Chunk(pfn + i, WORD_ORDER) in next
    ensures WordsWhole(bits, pfn, i + BITS_PER_LONG, next)
  {
    forall k: nat | k < i + BITS_PER_LONG && Aligned(k, WORD_ORDER) && WordClear(bits, k)
      ensures Chunk(pfn + k, WORD_ORDER) in next
    {
      AlignedIsMultiple(k, WORD_ORDER);
      AlignedIsMultiple(i, WORD_ORDER);
      assert Pow2(WORD_ORDER) == 32;
    }
  }

  /** The first loop of free_all_bootmem_core. */
  method ReleasePages(bits: seq<bool>, origin: nat) returns (freed: seq<Chunk>, count: nat)
    requires |bits| > 0 && bits[|bits| - 1]
    ensures ReleasedUpTo(bits, origin / PAGE, |bits| - 1, freed)
    ensures count == CountClear(bits, |bits| - 1)
    ensures !GoFast(origin) ==> forall j | 0 <= j < |freed| :: freed[j].order == 0
    ensures GoFast(origin) ==> WordsWhole(bits, origin / PAGE, |bits| - 1, freed)
  {
    var gofast := GoFast(origin);
    if gofast {
      StartAligned(origin);
    }
    freed, count := ReleaseAll(bits, origin / PAGE, gofast);
  }

  method ReleaseAll(bits: seq<bool>, pfn: nat, gofast: bool) returns (freed: seq<Chunk>, count: nat)
    requires |bits| > 0 && bits[|bits| - 1] && (gofast ==> Aligned(pfn, WORD_ORDER))
    ensures Releasing(bits, pfn, gofast, |bits| - 1, freed, count)
  {
    var idx := |bits| - 1;
    freed, count := [], 0;
    var i := 0;
    while i < idx
      invariant i < idx ==> Aligned(i, WORD_ORDER)
      invariant Releasing(bits, pfn, gofast, Min(i, idx), freed, count)
    {
      NextWord(i);
      freed, count := ReleaseRound(bits, pfn, gofast, i, freed, count);
      i := i + BITS_PER_LONG;
    }
  }

  lemma {:induction false} StartAligned(origin: nat)
    requires GoFast(origin)
    ensures Aligned(origin / PAGE, WORD_ORDER)
  {
    ZeroHasNoBits(WORD_ORDER);
    WordsAligned(origin, 0);
  }

  /** The loop has looked at the bits below n. */
  ghost predicate Releasing(bits: seq<bool>, pfn: nat, gofast: bool, n: nat, freed: seq<Chunk>, count: nat) {
    && ReleasedUpTo(bits, pfn, n, freed) && count == CountClear(bits, n)
    && if gofast then WordsWhole(bits, pfn, n, freed) else forall j | 0 <= j < |freed| :: freed[j].order == 0
  }

  /** One round of that loop: the word at i, or what there is of it. */
  method ReleaseRound(bits: seq<bool>, pfn: nat, gofast: bool, i: nat, freed0: seq<Chunk>, count0: nat) returns (freed: seq<Chunk>, count: nat)
    requires |bits| > 0 && bits[|bits| - 1] && i < |bits| - 1 && Aligned(i, WORD_ORDER) && (gofast ==> Aligned(pfn, WORD_ORDER))
    requires Releasing(bits, pfn, gofast, i, freed0, count0)
    ensures Releasing(bits, pfn, gofast, Min(i + BITS_PER_LONG, |bits| - 1), freed, count)
  {
    freed, count := freed0, count0;
    if gofast && WordClear(bits, i) {
      AlignedSum(pfn, i, WORD_ORDER);
      ReleaseClearWord(bits, pfn, i, freed);
      freed := freed + [Chunk(pfn + i, WORD_ORDER)];
      count := count + BITS_PER_LONG;
    } else if !WordSet(bits, i) {
      var n;
      n, freed, count := ReleaseWord(bits, pfn, i, freed, count);
    } else {
      SkipSetWord(bits, pfn, i, freed);
    }
    if gofast {
      WordsMore(bits, pfn, i, freed0, freed);
    }
  }

  lemma {:induction false} NextWord(i: nat)
    requires Aligned(i, WORD_ORDER)
    ensures Aligned(i + BITS_PER_LONG, WORD_ORDER)
  {
    AlignedSum(i, BITS_PER_LONG, WORD_ORDER);
  }

  /** A word of clear bits lies inside the map. */
  lemma {:induction false} WordInside(bits: seq<bool>, i: nat)
    requires |bits| > 0 && bits[|bits| - 1] && i < |bits| - 1 && WordClear(bits, i)
    ensures Pow2(WORD_ORDER) == BITS_PER_LONG && Clear(bits, i, i + BITS_PER_LONG)
  {
    assert !TestBit(bits, i + BITS_PER_LONG - 1);
    assert TestBit(bits, |bits| - 1);
    forall k | i <= k < i + BITS_PER_LONG
      ensures !bits[k]
    {
      assert !TestBit(bits, k);
    }
  }

  /** A word of set bits releases nothing. */
  lemma {:induction false} SkipSetWord(bits: seq<bool>, pfn: nat, i: nat, cs: seq<Chunk>)
    requires i < |bits| - 1 && WordSet(bits, i) && ReleasedUpTo(bits, pfn, i, cs)
    ensures ReleasedUpTo(bits, pfn, Min(i + BITS_PER_LONG, |bits| - 1), cs)
    ensures CountClear(bits, Min(i + BITS_PER_LONG, |bits| - 1)) == CountClear(bits, i)
  {
    forall k | i <= k < Min(i + BITS_PER_LONG, |bits| - 1)
      ensures bits[k]
    {
      assert TestBit(bits, k);
    }
    SkipRun(bits, pfn, i, Min(i + BITS_PER_LONG, |bits| - 1), cs);
  }

  /** Single pages were added to a list of blocks. */
  ghost predicate Extended(cs: seq<Chunk>, ds: seq<Chunk>) {
    cs <= ds && forall j | |cs| <= j < |ds| :: ds[j].order == 0
  }

  /** The bit at i is done: a clear bit releases its page. */
  lemma {:induction false} ReleaseBit(bits: seq<bool>, pfn: nat, i: nat, freed0: seq<Chunk>, freed: seq<Chunk>, next: seq<Chunk>)
    requires i < |bits| - 1 && ReleasedUpTo(bits, pfn, i, freed) && Extended(freed0, freed)
    requires next == if bits[i] then freed else freed + [Chunk(pfn + i, 0)]
    ensures ReleasedUpTo(bits, pfn, i + 1, next) && Extended(freed0, next)
    ensures CountClear(bits, i + 1) == CountClear(bits, i) + if bits[i] then 0 else 1
  {
    if bits[i] {
      SkipRun(bits, pfn, i, i + 1, freed);
    } else {
      ReleaseBlock(bits, pfn, i, freed, 0, 1);
    }
  }

  /** The bits of one word, one page at a time. */
  method ReleaseWord(bits: seq<bool>, pfn: nat, i0: nat, freed0: seq<Chunk>, count0: nat)
    returns (i: nat, freed: seq<Chunk>, count: nat)
    requires i0 < |bits| - 1 && ReleasedUpTo(bits, pfn, i0, freed0) && count0 == CountClear(bits, i0)
    ensures i == if i0 + BITS_PER_LONG < |bits| - 1 then i0 + BITS_PER_LONG else |bits| - 1
    ensures ReleasedUpTo(bits, pfn, i, freed) && count == CountClear(bits, i)
    ensures Extended(freed0, freed)
  {
    i, freed, count := i0, freed0, count0;
    while i < i0 + BITS_PER_LONG && i < |bits| - 1
      invariant i0 <= i <= i0 + BITS_PER_LONG && i <= |bits| - 1
      invariant ReleasedUpTo(bits, pfn, i, freed) && count == CountClear(bits, i)
      invariant Extended(freed0, freed)
    {
      freed, count := ReleaseIfClear(bits, pfn, i, freed0, freed, count);
      i := i + 1;
    }
  }

  /** One bit of the word. */
  method ReleaseIfClear(bits: seq<bool>, pfn: nat, i: nat, ghost freed0: seq<Chunk>, freed: seq<Chunk>, count: nat)
    returns (next: seq<Chunk>, n: nat)
    requires i < |bits| - 1 && ReleasedUpTo(bits, pfn, i, freed) && count == CountClear(bits, i) && Extended(freed0, freed)
    ensures ReleasedUpTo(bits, pfn, i + 1, next) && n == CountClear(bits, i + 1) && Extended(freed0, next)
  {
    next, n := freed, count;
    if !bits[i] {
      next := next + [Chunk(pfn + i, 0)];
      n := n + 1;
    }
    ReleaseBit(bits, pfn, i, freed0, freed, next);
  }

  /** free_all_bootmem_core on a bitmap whose own pages start at mapPfn. */
  method FreeAllCore(bits: seq<bool>, origin: nat, mapPfn: nat) returns (freed: seq<Chunk>, mapFreed: seq<Chunk>, total: nat)
    requires |bits| > 0 && bits[|bits| - 1]
    ensures ReleasedUpTo(bits, origin / PAGE, |bits| - 1, freed)
    ensures mapFreed == seq(MapPages(|bits| - 1), k requires 0 <= k < MapPages(|bits| - 1) => Chunk(mapPfn + k, 0))
    ensures total == CountClear(bits, |bits| - 1) + |mapFreed|
    ensures |mapFreed| == BootmapPages(|bits| - 1) - if 1 <= (|bits| - 1) % 32768 <= 7 then 1 else 0
  {
    var count;
    freed, count := ReleasePages(bits, origin);
    total := count;
    mapFreed, count := [], 0;
    while count < MapPages(|bits| - 1)
      invariant count <= MapPages(|bits| - 1)
      invariant mapFreed == seq(count, k requires 0 <= k < count => Chunk(mapPfn + k, 0))
    {
      mapFreed := mapFreed + [Chunk(mapPfn + count, 0)];
      count := count + 1;
    }
    total := total + count;
    MapPagesReturned(|bits| - 1);
  }

  /** The number of pages in a list of blocks. */
  function PageCount(cs: seq<Chunk>): nat {
    if cs == [] then 0 else PageCount(cs[..|cs| - 1]) + Pow2(cs[|cs| - 1].order)
  }

  /** Nothing is released twice: the released blocks hold exactly as many pages as there are clear bits. */
  lemma {:induction false} ReleasedOnce(bits: seq<bool>, pfn: nat, i: nat, cs: seq<Chunk>)
    requires ReleasedUpTo(bits, pfn, i, cs)
    ensures PageCount(cs) == CountClear(bits, i)
    decreases |cs|
  {
    if cs == [] {
      forall k | 0 <= k < i
        ensures bits[k]
      {
        assert !bits[k] <==> Covered(cs, pfn + k);
      }
      SkipRun(bits, pfn, 0, i, cs);
    } else {
      var ds, c := cs[..|cs| - 1], cs[|cs| - 1];
      var lo, hi: nat := c.head - pfn, c.head - pfn + Pow2(c.order);
      CoveredPrefix(bits, pfn, i, cs);
      ReleasedOnce(bits, pfn, lo, ds);
      CountRun(bits, lo, hi);
      CountSet(bits, hi, i);
    }
  }

  lemma {:induction false} CountSet(bits: seq<bool>, i: nat, j: nat)
    requires i <= j < |bits| && forall k | i <= k < j :: bits[k]
    ensures CountClear(bits, j) == CountClear(bits, i)
  {
    if i < j {
      CountSet(bits, i, j - 1);
    }
  }

  /** The last block covers its own pages, the earlier blocks the pages before it, none the rest. */
  lemma {:induction false} CoveredPrefix(bits: seq<bool>, pfn: nat, i: nat, cs: seq<Chunk>)
    requires ReleasedUpTo(bits, pfn, i, cs) && cs != []
    ensures var c := cs[|cs| - 1];
            && ReleasedUpTo(bits, pfn, c.head - pfn, cs[..|cs| - 1])
            && c.head - pfn + Pow2(c.order) <= i
            && Clear(bits, c.head - pfn, c.head - pfn + Pow2(c.order))
            && forall k | c.head - pfn + Pow2(c.order) <= k < i :: bits[k]
  {
    var ds, c := cs[..|cs| - 1], cs[|cs| - 1];
    assert cs == ds + [c];
    forall k: nat | k < i
      ensures !bits[k] <==> Covered(cs, pfn + k)
      ensures Covered(cs, pfn + k) <==> Covered(ds, pfn + k) || c.head <= pfn + k < c.head + Pow2(c.order)
    {
      CoveredMore(ds, c, pfn + k);
    }
  }

  /** Outside s, pages the allocator has not seen keep their reference counts. */
  ghost predicate OthersKept(start: nat, m: seq<Page>, m': seq<Page>, w: PA.Owners, s: set<nat>) {
    |m| == |m'| && forall p | start <= p < start + |m| && p !in s && p !in w ::
      PageAt(start, m', p).count == PageAt(start, m, p).count
  }

  /** Exposing a block and dropping its reference leaves all other counts alone. */
  lemma {:induction false} ExposeDrop(start: nat, m: seq<Page>, w: PA.Owners, h: nat, o: nat, m': seq<Page>)
    requires start <= h < start + |m|
    requires SameRefs(SetRef(start, PA.Exposed(start, m, h, o), h, 0), m')
    ensures OthersKept(start, m, m', w, Block(h, o))
  {
    forall p | start <= p < start + |m| && p !in Block(h, o) && p !in w
      ensures PageAt(start, m', p).count == PageAt(start, m, p).count
    {
      assert h in Block(h, o);
    }
  }

  lemma {:induction false} BlockOne(p: nat)
    ensures Block(p, 0) == {p}
  {
  }

  /** The block that was handed over is in nobody's hands, and no holder has got any other page. */
  lemma {:induction false} NotHeld(w: PA.Owners, w1: PA.Owners, w2: PA.Owners, pcp: seq<PA.PerCpuPages>, pcp': seq<PA.PerCpuPages>, c: Chunk, i: nat)
    requires i < |pcp| && w1 == PA.Adopted(w, c.head, c.order)
    requires if c.order > 0 then PA.Moved(w1, w2, Block(c.head, c.order), PA.InBuddy)
             else Block(c.head, c.order) == {c.head} && PA.HotFreed(pcp, pcp', w1, w2, i, c.head)
    ensures w2.Keys == w.Keys + Block(c.head, c.order)
    ensures forall p | p in w2 && w2[p].Held? :: p in w && w[p].Held?
  {
    assert w1.Keys == w.Keys + Block(c.head, c.order);
  }

  /** One block goes from the boot allocator to the page allocator. */
  method HandOverOne(alloc: PA.Allocator, c: Chunk, i: nat)
    requires alloc.Valid() && i < |alloc.pcp|
    requires PA.Unseen(alloc.zone.start, alloc.zone.mem, alloc.where, c.head, c.order)
    modifies alloc, alloc.zone
    ensures alloc.Valid() && |alloc.pcp| == old(|alloc.pcp|)
    ensures alloc.where.Keys == old(alloc.where.Keys) + Block(c.head, c.order)
    ensures forall p | p in alloc.where && alloc.where[p].Held? :: p in old(alloc.where) && old(alloc.where)[p].Held?
    ensures OthersKept(alloc.zone.start, old(alloc.zone.mem), alloc.zone.mem, old(alloc.where), Block(c.head, c.order))
  {
    ghost var w := alloc.where;
    alloc.Adopt(c.head, c.order);
    assert alloc.zone.mem[c.head - alloc.zone.start].count == 1;
    ghost var w1, lists := alloc.where, alloc.pcp;
    alloc.FreePagesRef(c.head, c.order, i);
    BlockOne(c.head);
    NotHeld(w, w1, alloc.where, lists, alloc.pcp, c, i);
    ExposeDrop(alloc.zone.start, old(alloc.zone.mem), old(alloc.where), c.head, c.order, alloc.zone.mem);
  }

  /** The blocks from j on are still unseen. */
  ghost predicate RestUnseen(start: nat, m: seq<Page>, w: PA.Owners, cs: seq<Chunk>, j: nat) {
    forall k | j <= k < |cs| :: PA.Unseen(start, m, w, cs[k].head, cs[k].order)
  }

  /** The blocks do not overlap. */
  ghost predicate Apart(cs: seq<Chunk>) {
    forall i, k | 0 <= i < k < |cs| :: Block(cs[i].head, cs[i].order) !! Block(cs[k].head, cs[k].order)
  }

  lemma {:induction false} RestStillUnseen(start: nat, m: seq<Page>, w: PA.Owners, m': seq<Page>, w': PA.Owners, cs: seq<Chunk>, j: nat)
    requires j < |cs| && RestUnseen(start, m, w, cs, j) && Apart(cs)
    requires w'.Keys == w.Keys + Block(cs[j].head, cs[j].order)
    requires OthersKept(start, m, m', w, Block(cs[j].head, cs[j].order))
    ensures RestUnseen(start, m', w', cs, j + 1)
  {
    forall k | j + 1 <= k < |cs|
      ensures PA.Unseen(start, m', w', cs[k].head, cs[k].order)
    {
      assert PA.Unseen(start, m, w, cs[k].head, cs[k].order);
      assert Block(cs[j].head, cs[j].order) !! Block(cs[k].head, cs[k].order);
    }
  }

  lemma {:induction false} CoveredNext(cs: seq<Chunk>, j: nat, p: nat)
    requires j < |cs|
    ensures Covered(cs[..j + 1], p) <==> Covered(cs[..j], p) || p in Block(cs[j].head, cs[j].order)
  {
    var a, b := cs[..j], cs[..j + 1];
    assert b[j] == cs[j] && forall k | 0 <= k < j :: a[k] == b[k];
  }

  /** What the page allocator knows after the first j blocks. */
  ghost predicate Known(before: PA.Owners, w: PA.Owners, cs: seq<Chunk>, j: nat)
    requires j <= |cs|
  {
    && (forall p: nat :: p in w <==> p in before || Covered(cs[..j], p))
    && |w.Keys| == |before.Keys| + PageCount(cs[..j])
    && (forall p | p in w && w[p].Held? :: p in before && before[p].Held?)
  }

  lemma {:induction false} KnownStart(w: PA.Owners, cs: seq<Chunk>)
    ensures Known(w, w, cs, 0)
  {
    assert cs[..0] == [];
  }

  lemma {:induction false} KnownNext(before: PA.Owners, w: PA.Owners, w': PA.Owners, cs: seq<Chunk>, j: nat)
    requires j < |cs| && Known(before, w, cs, j) && w'.Keys == w.Keys + Block(cs[j].head, cs[j].order)
    requires w.Keys !! Block(cs[j].head, cs[j].order)
    requires forall p | p in w' && w'[p].Held? :: p in w && w[p].Held?
    ensures Known(before, w', cs, j + 1)
  {
    forall p: nat
      ensures p in w' <==> p in before || Covered(cs[..j + 1], p)
    {
      CoveredNext(cs, j, p);
    }
    OneMore(w.Keys, cs, j);
  }

  lemma {:induction false} OneMore(s: set<nat>, cs: seq<Chunk>, j: nat)
    requires j < |cs| && s !! Block(cs[j].head, cs[j].order)
    ensures |s + Block(cs[j].head, cs[j].order)| + PageCount(cs[..j]) == |s| + PageCount(cs[..j + 1])
  {
    BlockSize(cs[j].head, cs[j].order);
    DisjointUnionSize(s, Block(cs[j].head, cs[j].order));
    assert cs[..j + 1][..j] == cs[..j] && cs[..j + 1][j] == cs[j];
  }

  /** One turn of the loop over the blocks. */
  method HandOverNext(alloc: PA.Allocator, cs: seq<Chunk>, j: nat, i: nat, ghost before: PA.Owners)
    requires alloc.Valid() && i < |alloc.pcp| && Apart(cs) && j < |cs|
    requires RestUnseen(alloc.zone.start, alloc.zone.mem, alloc.where, cs, j)
    requires Known(before, alloc.where, cs, j)
    modifies alloc, alloc.zone
    ensures alloc.Valid() && |alloc.pcp| == old(|alloc.pcp|)
    ensures RestUnseen(alloc.zone.start, alloc.zone.mem, alloc.where, cs, j + 1)
    ensures Known(before, alloc.where, cs, j + 1)
  {
    ghost var m, w := alloc.zone.mem, alloc.where;
    assert PA.Unseen(alloc.zone.start, m, w, cs[j].head, cs[j].order);
    HandOverOne(alloc, cs[j], i);
    RestStillUnseen(alloc.zone.start, m, w, alloc.zone.mem, alloc.where, cs, j);
    KnownNext(before, w, alloc.where, cs, j);
  }

  /** A list of blocks goes from the boot allocator to the page allocator. */
  method HandOverList(alloc: PA.Allocator, cs: seq<Chunk>, i: nat)
    requires alloc.Valid() && i < |alloc.pcp| && Apart(cs)
    requires RestUnseen(alloc.zone.start, alloc.zone.mem, alloc.where, cs, 0)
    modifies alloc, alloc.zone
    ensures alloc.Valid() && Known(old(alloc.where), alloc.where, cs, |cs|)
  {
    KnownStart(alloc.where, cs);
    var j := 0;
    while j < |cs|
      invariant j <= |cs| && alloc.Valid() && i < |alloc.pcp|
      invariant RestUnseen(alloc.zone.start, alloc.zone.mem, alloc.where, cs, j)
      invariant Known(old(alloc.where), alloc.where, cs, j)
    {
      HandOverNext(alloc, cs, j, i, old(alloc.where));
      j := j + 1;
    }
  }

  /** Page p has a clear bit. */
  predicate ClearPage(bits: seq<bool>, pfn: nat, p: nat) {
    pfn <= p < pfn + |bits| - 1 && !bits[p - pfn]
  }

  /** Page p is one of those of the bitmap that are given back. */
  predicate MapPage(bits: seq<bool>, mapPfn: nat, p: nat)
    requires |bits| > 0
  {
    mapPfn <= p < mapPfn + MapPages(|bits| - 1)
  }

  /** The pages that the handover releases: those with a clear bit, and those of the bitmap. */
  predicate Released(bits: seq<bool>, pfn: nat, mapPfn: nat, p: nat)
    requires |bits| > 0
  {
    ClearPage(bits, pfn, p) || MapPage(bits, mapPfn, p)
  }

  /** The blocks that free_all_bootmem_core releases, one after the other. */
  lemma {:induction false} AllReleased(bits: seq<bool>, pfn: nat, mapPfn: nat, cs: seq<Chunk>, ms: seq<Chunk>)
    requires |bits| > 0 && ReleasedUpTo(bits, pfn, |bits| - 1, cs)
    requires ms == seq(MapPages(|bits| - 1), k requires 0 <= k < MapPages(|bits| - 1) => Chunk(mapPfn + k, 0))
    requires forall p: nat | MapPage(bits, mapPfn, p) :: !ClearPage(bits, pfn, p)
    ensures Apart(cs + ms)
    ensures forall p: nat :: Covered(cs + ms, p) <==> Released(bits, pfn, mapPfn, p)
    ensures PageCount(cs + ms) == CountClear(bits, |bits| - 1) + |ms|
  {
    forall p: nat
      ensures Covered(cs + ms, p) <==> Released(bits, pfn, mapPfn, p)
    {
      CoveredBoth(cs, ms, p);
      CoveredIsClear(bits, pfn, cs, p);
      if mapPfn <= p < mapPfn + |ms| {
        assert ms[p - mapPfn] == Chunk(p, 0);
      }
    }
    forall j, k | 0 <= j < |cs| && 0 <= k < |ms|
      ensures Block(cs[j].head, cs[j].order) !! Block(ms[k].head, ms[k].order)
    {
      CoveredIsClear(bits, pfn, cs, mapPfn + k);
      assert MapPage(bits, mapPfn, mapPfn + k) && !Covered(cs, mapPfn + k);
      forall p | p in Block(ms[k].head, ms[k].order)
        ensures p !in Block(cs[j].head, cs[j].order)
      {
        assert p == mapPfn + k;
      }
    }
    ReleasedOnce(bits, pfn, |bits| - 1, cs);
    CountSingles(cs, ms);
  }

  lemma {:induction false} CoveredBoth(cs: seq<Chunk>, ms: seq<Chunk>, p: nat)
    ensures Covered(cs + ms, p) <==> Covered(cs, p) || Covered(ms, p)
  {
    var all := cs + ms;
    if Covered(cs, p) {
      var j :| 0 <= j < |cs| && cs[j].head <= p < cs[j].head + Pow2(cs[j].order);
      assert all[j] == cs[j];
    }
    if Covered(ms, p) {
      var j :| 0 <= j < |ms| && ms[j].head <= p < ms[j].head + Pow2(ms[j].order);
      assert all[|cs| + j] == ms[j];
    }
  }

  lemma {:induction false} CountSingles(cs: seq<Chunk>, ms: seq<Chunk>)
    requires forall k | 0 <= k < |ms| :: ms[k].order == 0
    ensures PageCount(cs + ms) == PageCount(cs) + |ms|
  {
    if ms == [] {
      assert cs + ms == cs;
    } else {
      var n := |ms| - 1;
      assert (cs + ms)[..|cs + ms| - 1] == cs + ms[..n];
      CountSingles(cs, ms[..n]);
    }
  }

  /** A page in the zone that the page allocator does not know yet. */
  ghost predicate PageUnseen(start: nat, m: seq<Page>, w: PA.Owners, p: nat) {
    start <= p < start + |m| && p !in w && PageAt(start, m, p).count == 0
  }

  lemma {:induction false} ChunksUnseen(start: nat, m: seq<Page>, w: PA.Owners, cs: seq<Chunk>)
    requires forall p: nat | Covered(cs, p) :: PageUnseen(start, m, w, p)
    requires forall k | 0 <= k < |cs| :: cs[k].order < MAX_ORDER && Aligned(cs[k].head, cs[k].order)
    ensures RestUnseen(start, m, w, cs, 0)
  {
    forall k | 0 <= k < |cs|
      ensures PA.Unseen(start, m, w, cs[k].head, cs[k].order)
    {
      var c := cs[k];
      assert Covered(cs, c.head) && Covered(cs, c.head + Pow2(c.order) - 1);
      forall p | p in Block(c.head, c.order)
        ensures Covered(cs, p)
      {
      }
    }
  }

  /** free_all_bootmem_core and the page allocator: afterwards it knows exactly the pages it knew before,
      those whose bit was clear and those of the bitmap, none of the new ones is held by anybody, and
      total is the number of new pages. */
  method HandOverAll(alloc: PA.Allocator, bits: seq<bool>, origin: nat, mapPfn: nat, i: nat) returns (total: nat)
    requires alloc.Valid() && i < |alloc.pcp| && |bits| > 0 && bits[|bits| - 1]
    requires forall p: nat | MapPage(bits, mapPfn, p) :: !ClearPage(bits, origin / PAGE, p)
    requires forall p: nat | Released(bits, origin / PAGE, mapPfn, p) :: PageUnseen(alloc.zone.start, alloc.zone.mem, alloc.where, p)
    modifies alloc, alloc.zone
    ensures alloc.Valid()
    ensures forall p: nat :: p in alloc.where <==> p in old(alloc.where) || Released(bits, origin / PAGE, mapPfn, p)
    ensures forall p | p in alloc.where && alloc.where[p].Held? :: p in old(alloc.where) && old(alloc.where)[p].Held?
    ensures |alloc.where.Keys| == |old(alloc.where.Keys)| + total
  {
    var cs, ms;
    cs, ms, total := FreeAllCore(bits, origin, mapPfn);
    AllReleased(bits, origin / PAGE, mapPfn, cs, ms);
    ChunksUnseen(alloc.zone.start, alloc.zone.mem, alloc.where, cs + ms);
    HandOverList(alloc, cs + ms, i);
    assert (cs + ms)[..|cs + ms|] == cs + ms;
  }

  lemma {:induction false} CoveredIsClear(bits: seq<bool>, pfn: nat, cs: seq<Chunk>, p: nat)
    requires |bits| > 0 && ReleasedUpTo(bits, pfn, |bits| - 1, cs)
    ensures Covered(cs, p) <==> ClearPage(bits, pfn, p)
  {
    if pfn <= p < pfn + |bits| - 1 {
      assert !bits[p - pfn] <==> Covered(cs, pfn + (p - pfn));
    }
  }
}
