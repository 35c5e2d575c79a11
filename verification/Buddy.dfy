/** The buddy system on values: a set of free blocks is a map from each block's first page
    frame to its order.  Everything here is about such maps; Zone.dfy ties the allocator's
    lists, flags and counters to them. */
module Buddy {
  import opened Bits

  const MAX_ORDER: nat := 11

  type Blocks = map<nat, nat>

  predicate Within(p: int, lo: int, hi: int) {
    lo <= p < hi
  }

  /** The page frames from lo up to hi. */
  function Frames(lo: nat, hi: nat): set<nat> {
    set p: nat | lo <= p < hi && Within(p, lo, hi)
  }

  /** The page frames of the block of order o at h. */
  function Block(h: nat, o: nat): set<nat> {
    Frames(h, h + Pow2(o))
  }

  /** Every page frame covered by a block. */
  ghost function FreePages(B: Blocks): set<nat> {
    set h, p | h in B && p in Block(h, B[h]) :: p
  }

  /** Blocks are aligned, inside [lo, hi) and pairwise disjoint. */
  ghost predicate WellFormed(lo: nat, hi: nat, B: Blocks) {
    && (forall h | h in B :: B[h] < MAX_ORDER && Aligned(h, B[h]) && lo <= h && h + Pow2(B[h]) <= hi)
    && (forall g, h | g in B && h in B && g < h :: g + Pow2(B[g]) <= h)
  }

  /** The other half of the order o + 1 block around h. */
  function BuddyOf(h: nat, o: nat): int {
    if Bit(h, o) then h - Pow2(o) else h + Pow2(o)
  }

  /** The buddy of h is a free block of the same order. */
  predicate Mergeable(B: Blocks, h: nat, o: nat) {
    var b := BuddyOf(h, o);
    b >= 0 && b in B && B[b] == o
  }

  /** No two buddies below the top order are both free. */
  ghost predicate Canonical(B: Blocks) {
    forall h {:trigger Mergeable(B, h, B[h])} | h in B && B[h] < MAX_ORDER - 1 :: !Mergeable(B, h, B[h])
  }

  /** The block (h, o) can be handed back: aligned, inside the range, disjoint from what is free. */
  ghost predicate Fits(lo: nat, hi: nat, B: Blocks, h: nat, o: nat) {
    && o < MAX_ORDER && Aligned(h, o) && lo <= h && h + Pow2(o) <= hi
    && (forall g | g in B :: g + Pow2(B[g]) <= h || h + Pow2(o) <= g)
  }

  /** Free the block (h, o), merging upwards as long as the buddy is free. */
  function Insert(B: Blocks, h: nat, o: nat): Blocks
    decreases MAX_ORDER - o
  {
    if o < MAX_ORDER - 1 && Mergeable(B, h, o) then
      Insert(B - {BuddyOf(h, o)}, Min(h, BuddyOf(h, o)), o + 1)
    else
      B[h := o]
  }

  // ----- arithmetic of aligned blocks

  lemma {:induction false} BuddyFacts(h: nat, o: nat)
    requires Aligned(h, o)
    ensures BuddyOf(h, o) >= 0 && Aligned(BuddyOf(h, o), o) && BuddyOf(BuddyOf(h, o), o) == h
    ensures Aligned(Min(h, BuddyOf(h, o)), o + 1)
  {
    if o > 0 {
      BuddyFacts(h / 2, o - 1);
    }
  }

  /** Two aligned blocks that share a page are nested. */
  lemma {:induction false} Nested(g: nat, m: nat, h: nat, n: nat)
    requires m <= n && Aligned(g, m) && Aligned(h, n)
    requires g < h + Pow2(n) && h < g + Pow2(m)
    ensures h <= g && g + Pow2(m) <= h + Pow2(n)
  {
    if m > 0 {
      Nested(g / 2, m - 1, h / 2, n - 1);
    }
  }

  lemma {:induction false} FramesSize(lo: nat, hi: nat)
    requires lo <= hi
    ensures |Frames(lo, hi)| == hi - lo
    decreases hi - lo
  {
    if lo < hi {
      FramesSize(lo + 1, hi);
      assert Frames(lo, hi) == {lo} + Frames(lo + 1, hi);
    } else {
      assert Frames(lo, hi) == {};
    }
  }

  lemma {:induction false} BlockSize(h: nat, o: nat)
    ensures |Block(h, o)| == Pow2(o)
  {
    FramesSize(h, h + Pow2(o));
  }

  lemma {:induction false} DisjointUnionSize<T>(a: set<T>, b: set<T>)
    requires a !! b
    ensures |a + b| == |a| + |b|
  {
  }

  lemma {:induction false} Regroup<T>(f: set<T>, f': set<T>, x: set<T>, y: set<T>, xy: set<T>)
    requires f' == f - y && y <= f && xy == x + y
    ensures f' + xy == f + x
  {
  }

  // ----- inserting a block

  lemma {:induction false} FitsIffDisjoint(lo: nat, hi: nat, B: Blocks, h: nat, o: nat)
    requires WellFormed(lo, hi, B)
    requires o < MAX_ORDER && Aligned(h, o) && lo <= h && h + Pow2(o) <= hi
    ensures Fits(lo, hi, B, h, o) <==> FreePages(B) !! Block(h, o)
  {
    forall g | g in B && FreePages(B) !! Block(h, o)
      ensures g + Pow2(B[g]) <= h || h + Pow2(o) <= g
    {
      var p := if g <= h then h else g;
      assert p in Block(g, B[g]) ==> p in FreePages(B);
      assert p !in Block(h, o) || p !in Block(g, B[g]);
    }
  }

  /** Freeing keeps the free blocks well formed and canonical and adds exactly the freed pages. */
  lemma {:induction false} InsertCorrect(lo: nat, hi: nat, B: Blocks, h: nat, o: nat)
    requires WellFormed(lo, hi, B) && Canonical(B) && Fits(lo, hi, B, h, o)
    ensures WellFormed(lo, hi, Insert(B, h, o)) && Canonical(Insert(B, h, o))
    ensures FreePages(Insert(B, h, o)) == FreePages(B) + Block(h, o)
    ensures FreePages(B) !! Block(h, o)
    decreases MAX_ORDER - o
  {
    BuddyFacts(h, o);
    if o < MAX_ORDER - 1 && Mergeable(B, h, o) {
      var b := BuddyOf(h, o);
      MergeStep(lo, hi, B, h, o);
      InsertCorrect(lo, hi, B - {b}, Min(h, b), o + 1);
      assert Insert(B, h, o) == Insert(B - {b}, Min(h, b), o + 1);
      RemovePages(lo, hi, B, b);
      HalvesJoin(h, o);
      FitsIffDisjoint(lo, hi, B, h, o);
      Regroup(FreePages(B), FreePages(B - {b}), Block(h, o), Block(b, o), Block(Min(h, b), o + 1));
    } else {
      PlacePages(lo, hi, B, h, o);
      PlaceCanonical(lo, hi, B, h, o);
    }
  }

  /** A block and its buddy are aligned alike, do not overlap, and together are the block one order up;
      the buddy of the buddy is the block. */
  lemma {:induction false} HalvesJoin(h: nat, o: nat)
    requires Aligned(h, o)
    ensures BuddyOf(h, o) >= 0 && Aligned(BuddyOf(h, o), o) && BuddyOf(BuddyOf(h, o), o) == h
    ensures Aligned(Min(h, BuddyOf(h, o)), o + 1) && Block(h, o) !! Block(BuddyOf(h, o), o)
    ensures Block(Min(h, BuddyOf(h, o)), o + 1) == Block(h, o) + Block(BuddyOf(h, o), o)
  {
    BuddyFacts(h, o);
  }

  lemma {:induction false} MergeStep(lo: nat, hi: nat, B: Blocks, h: nat, o: nat)
    requires WellFormed(lo, hi, B) && Fits(lo, hi, B, h, o) && o < MAX_ORDER - 1 && Mergeable(B, h, o)
    ensures WellFormed(lo, hi, B - {BuddyOf(h, o)})
    ensures Fits(lo, hi, B - {BuddyOf(h, o)}, Min(h, BuddyOf(h, o)), o + 1)
    ensures Canonical(B) ==> Canonical(B - {BuddyOf(h, o)})
  {
    BuddyFacts(h, o);
    RemoveCanonical(B, BuddyOf(h, o));
  }

  lemma {:induction false} RemoveCanonical(B: Blocks, b: nat)
    ensures Canonical(B) ==> Canonical(B - {b})
  {
    if Canonical(B) {
      forall h | h in B - {b} && (B - {b})[h] < MAX_ORDER - 1
        ensures !Mergeable(B - {b}, h, (B - {b})[h])
      {
        assert !Mergeable(B, h, B[h]);
      }
    }
  }

  lemma {:induction false} PlacePages(lo: nat, hi: nat, B: Blocks, h: nat, o: nat)
    requires WellFormed(lo, hi, B) && Fits(lo, hi, B, h, o)
    ensures h !in B && WellFormed(lo, hi, B[h := o])
    ensures FreePages(B[h := o]) == FreePages(B) + Block(h, o)
    ensures FreePages(B) !! Block(h, o)
  {
    PlacedPages(B, h, o);
    forall p | p in FreePages(B)
      ensures p !in Block(h, o)
    {
      var g: nat :| g in B && p in Block(g, B[g]);
      assert g + Pow2(B[g]) <= h || h + Pow2(o) <= g;
    }
  }

  lemma {:induction false} PlacedPages(B: Blocks, h: nat, o: nat)
    requires h !in B
    ensures FreePages(B[h := o]) == FreePages(B) + Block(h, o)
  {
    var C := B[h := o];
    forall p
      ensures p in FreePages(C) <==> p in FreePages(B) || p in Block(h, o)
    {
      if p in FreePages(B) {
        var g: nat :| g in B && p in Block(g, B[g]);
        assert g in C && C[g] == B[g];
      }
      if p in Block(h, o) {
        assert h in C && C[h] == o;
      }
    }
  }

  lemma {:induction false} PlaceCanonical(lo: nat, hi: nat, B: Blocks, h: nat, o: nat)
    requires WellFormed(lo, hi, B) && Canonical(B) && Fits(lo, hi, B, h, o)
    requires o == MAX_ORDER - 1 || !Mergeable(B, h, o)
    ensures Canonical(B[h := o])
  {
    var C := B[h := o];
    forall g | g in C && C[g] < MAX_ORDER - 1
      ensures !Mergeable(C, g, C[g])
    {
      BuddyFacts(g, C[g]);
      if g != h {
        assert !Mergeable(B, g, B[g]);
      }
    }
  }

  lemma {:induction false} RemovePages(lo: nat, hi: nat, B: Blocks, h: nat)
    requires WellFormed(lo, hi, B) && h in B
    ensures WellFormed(lo, hi, B - {h}) && Fits(lo, hi, B - {h}, h, B[h])
    ensures FreePages(B - {h}) == FreePages(B) - Block(h, B[h])
    ensures Block(h, B[h]) <= FreePages(B)
    ensures Canonical(B) ==> Canonical(B - {h})
  {
    RemoveCanonical(B, h);
    RemovedPages(lo, hi, B, h);
  }

  lemma {:induction false} RemovedPages(lo: nat, hi: nat, B: Blocks, h: nat)
    requires WellFormed(lo, hi, B) && h in B
    ensures FreePages(B - {h}) == FreePages(B) - Block(h, B[h])
  {
    var C := B - {h};
    forall p
      ensures p in FreePages(C) <==> p in FreePages(B) && p !in Block(h, B[h])
    {
      if p in FreePages(B) && p !in Block(h, B[h]) {
        var g: nat :| g in B && p in Block(g, B[g]);
        assert g in C && C[g] == B[g];
      }
    }
  }

  // ----- splitting a block

  /** Give back the upper halves of (h, high) down to order low. */
  function Split(B: Blocks, h: nat, high: nat, low: nat): Blocks
    decreases high
  {
    if high <= low then B
    else Split(B[h + Pow2(high - 1) := high - 1], h, high - 1, low)
  }

  /** Splitting keeps everything well formed and canonical and leaves exactly (h, low) out. */
  lemma {:induction false} SplitCorrect(lo: nat, hi: nat, B: Blocks, h: nat, high: nat, low: nat)
    requires low <= high && WellFormed(lo, hi, B) && Canonical(B) && Fits(lo, hi, B, h, high)
    ensures WellFormed(lo, hi, Split(B, h, high, low)) && Canonical(Split(B, h, high, low))
    ensures Fits(lo, hi, Split(B, h, high, low), h, low)
    ensures FreePages(Split(B, h, high, low)) == FreePages(B) + (Block(h, high) - Block(h, low))
    decreases high
  {
    SplitGood(lo, hi, B, h, high, low);
    SplitFree(lo, hi, B, h, high, low);
  }

  lemma {:induction false} SplitGood(lo: nat, hi: nat, B: Blocks, h: nat, high: nat, low: nat)
    requires low <= high && WellFormed(lo, hi, B) && Canonical(B) && Fits(lo, hi, B, h, high)
    ensures WellFormed(lo, hi, Split(B, h, high, low)) && Canonical(Split(B, h, high, low))
    ensures Fits(lo, hi, Split(B, h, high, low), h, low)
    decreases high
  {
    if high > low {
      var C := B[h + Pow2(high - 1) := high - 1];
      SplitOnce(B, C, h, high, low);
      SplitStepGood(lo, hi, B, C, h, high - 1);
      SplitGood(lo, hi, C, h, high - 1, low);
    }
  }

  lemma {:induction false} SplitOnce(B: Blocks, C: Blocks, h: nat, high: nat, low: nat)
    requires high > low && C == B[h + Pow2(high - 1) := high - 1]
    ensures Split(B, h, high, low) == Split(C, h, high - 1, low)
  {
  }

  lemma {:induction false} SplitStepGood(lo: nat, hi: nat, B: Blocks, C: Blocks, h: nat, k: nat)
    requires WellFormed(lo, hi, B) && Canonical(B) && Fits(lo, hi, B, h, k + 1) && C == B[h + Pow2(k) := k]
    ensures WellFormed(lo, hi, C) && Canonical(C) && Fits(lo, hi, C, h, k)
  {
    SplitStep(lo, hi, B, h, k);
  }

  lemma {:induction false} SplitFree(lo: nat, hi: nat, B: Blocks, h: nat, high: nat, low: nat)
    requires low <= high && WellFormed(lo, hi, B) && Canonical(B) && Fits(lo, hi, B, h, high)
    ensures FreePages(Split(B, h, high, low)) == FreePages(B) + (Block(h, high) - Block(h, low))
    decreases high
  {
    if high > low {
      var k := high - 1;
      var C := B[h + Pow2(k) := k];
      SplitStepGood(lo, hi, B, C, h, k);
      SplitStepPages(lo, hi, B, C, h, k);
      SplitFree(lo, hi, C, h, k, low);
      SplitOnce(B, C, h, high, low);
      SplitRegroup(FreePages(B), h, low, k);
    } else {
      Regroup3(FreePages(B), Block(h, high));
    }
  }

  lemma {:induction false} SplitStepPages(lo: nat, hi: nat, B: Blocks, C: Blocks, h: nat, k: nat)
    requires WellFormed(lo, hi, B) && Canonical(B) && Fits(lo, hi, B, h, k + 1) && C == B[h + Pow2(k) := k]
    ensures FreePages(C) == FreePages(B) + Block(h + Pow2(k), k)
    ensures Block(h, k + 1) == Block(h + Pow2(k), k) + Block(h, k)
  {
    SplitStep(lo, hi, B, h, k);
  }

  lemma {:induction false} Regroup3<T>(f: set<T>, x: set<T>)
    ensures f == f + (x - x)
  {
  }

  lemma {:induction false} LowerPart(h: nat, low: nat, k: nat)
    requires low <= k
    ensures Block(h, low) <= Block(h, k) && Block(h + Pow2(k), k) !! Block(h, k)
  {
    Pow2Monotone(low, k);
  }

  /** The pages of the upper half come on top of those given back from the lower half. */
  lemma {:induction false} SplitRegroup(f: set<nat>, h: nat, low: nat, k: nat)
    requires low <= k && Block(h, k + 1) == Block(h + Pow2(k), k) + Block(h, k)
    ensures (f + Block(h + Pow2(k), k)) + (Block(h, k) - Block(h, low)) == f + (Block(h, k + 1) - Block(h, low))
  {
    LowerPart(h, low, k);
    Regroup2(f, Block(h + Pow2(k), k), Block(h, k), Block(h, low), Block(h, k + 1));
  }

  lemma {:induction false} Regroup2<T>(f: set<T>, u: set<T>, l: set<T>, m: set<T>, x: set<T>)
    requires m <= l && x == u + l && u !! l
    ensures (f + u) + (l - m) == f + (x - m)
  {
  }

  /** Giving back the upper half of an order k + 1 block. */
  lemma {:induction false} SplitStep(lo: nat, hi: nat, B: Blocks, h: nat, k: nat)
    requires WellFormed(lo, hi, B) && Canonical(B) && Fits(lo, hi, B, h, k + 1)
    ensures var C := B[h + Pow2(k) := k];
            && WellFormed(lo, hi, C) && Canonical(C) && Fits(lo, hi, C, h, k)
            && FreePages(C) == FreePages(B) + Block(h + Pow2(k), k)
    ensures Block(h, k + 1) == Block(h + Pow2(k), k) + Block(h, k)
    ensures Fits(lo, hi, B, h + Pow2(k), k) && !Mergeable(B, h + Pow2(k), k)
  {
    HalvesAligned(h, k);
    BuddyFacts(h, k);
    var u := h + Pow2(k);
    UpperAlone(lo, hi, B, h, k);
    PlacePages(lo, hi, B, u, k);
    PlaceCanonical(lo, hi, B, u, k);
  }

  /** The upper half of a block that fits can be placed, and its buddy, the lower half, is not free. */
  lemma {:induction false} UpperAlone(lo: nat, hi: nat, B: Blocks, h: nat, k: nat)
    requires WellFormed(lo, hi, B) && Canonical(B) && Fits(lo, hi, B, h, k + 1)
    requires Aligned(h, k) && Aligned(h + Pow2(k), k) && BuddyOf(h, k) == h + Pow2(k) && BuddyOf(h + Pow2(k), k) == h
    ensures Fits(lo, hi, B, h + Pow2(k), k) && Fits(lo, hi, B, h, k) && !Mergeable(B, h + Pow2(k), k)
  {
  }

  lemma {:induction false} HalvesAligned(h: nat, k: nat)
    requires Aligned(h, k + 1)
    ensures Aligned(h, k) && Aligned(h + Pow2(k), k) && BuddyOf(h, k) == h + Pow2(k)
  {
    if k > 0 {
      HalvesAligned(h / 2, k - 1);
      assert (h + Pow2(k)) / 2 == h / 2 + Pow2(k - 1);
    }
  }

  // ----- the free blocks are a canonical form of the set of free pages

  /** An aligned run of free pages lies inside one free block. */
  lemma {:induction false} FreeRunInOneBlock(lo: nat, hi: nat, B: Blocks, h: nat, o: nat) returns (H: nat)
    requires WellFormed(lo, hi, B) && Canonical(B)
    requires o < MAX_ORDER && Aligned(h, o) && Block(h, o) <= FreePages(B)
    ensures H in B && o <= B[H] && H <= h && h + Pow2(o) <= H + Pow2(B[H])
    decreases o
  {
    if o == 0 {
      assert h in Block(h, o);
      H :| H in B && H <= h < H + Pow2(B[H]);
    } else {
      var k := o - 1;
      HalvesAligned(h, k);
      assert Block(h, k) <= Block(h, o) && Block(h + Pow2(k), k) <= Block(h, o);
      var L := FreeRunInOneBlock(lo, hi, B, h, k);
      var U := FreeRunInOneBlock(lo, hi, B, h + Pow2(k), k);
      if o <= B[L] {
        H := L;
        Nested(h, o, H, B[H]);
      } else if o <= B[U] {
        H := U;
        Nested(h, o, H, B[H]);
      } else {
        assert L == h && U == h + Pow2(k) && B[L] == k && B[U] == k;
        assert Mergeable(B, L, k);
        assert false;
      }
    }
  }

  /** Two canonical sets of free blocks with the same free pages are the same set of blocks. */
  lemma {:induction false} CanonicalUnique(lo: nat, hi: nat, A: Blocks, B: Blocks)
    requires WellFormed(lo, hi, A) && Canonical(A) && WellFormed(lo, hi, B) && Canonical(B)
    requires FreePages(A) == FreePages(B)
    ensures A == B
  {
    CanonicalIncluded(lo, hi, A, B);
    CanonicalIncluded(lo, hi, B, A);
  }

  lemma {:induction false} CanonicalIncluded(lo: nat, hi: nat, A: Blocks, B: Blocks)
    requires WellFormed(lo, hi, A) && Canonical(A) && WellFormed(lo, hi, B) && Canonical(B)
    requires FreePages(A) == FreePages(B)
    ensures forall h | h in A :: h in B && B[h] == A[h]
  {
    forall h | h in A
      ensures h in B && B[h] == A[h]
    {
      assert Block(h, A[h]) <= FreePages(A);
      var H := FreeRunInOneBlock(lo, hi, B, h, A[h]);
      assert Block(H, B[H]) <= FreePages(B);
      var G := FreeRunInOneBlock(lo, hi, A, H, B[H]);
      assert G == h;
    }
  }

  /** Taking a block out, splitting it down and freeing the piece again changes nothing. */
  lemma {:induction false} SplitThenInsert(lo: nat, hi: nat, B: Blocks, h: nat, low: nat)
    requires WellFormed(lo, hi, B) && Canonical(B) && h in B && low <= B[h]
    ensures Insert(Split(B - {h}, h, B[h], low), h, low) == B
  {
    RemovePages(lo, hi, B, h);
    SplitCorrect(lo, hi, B - {h}, h, B[h], low);
    var C := Split(B - {h}, h, B[h], low);
    InsertCorrect(lo, hi, C, h, low);
    Pow2Monotone(low, B[h]);
    assert FreePages(Insert(C, h, low)) == FreePages(B);
    CanonicalUnique(lo, hi, Insert(C, h, low), B);
  }

  // ----- freeing many blocks

  datatype Chunk = Chunk(head: nat, order: nat)

  function InsertAll(B: Blocks, cs: seq<Chunk>): Blocks
    decreases |cs|
  {
    if cs == [] then B else InsertAll(Insert(B, cs[0].head, cs[0].order), cs[1..])
  }

  ghost function ChunkPages(cs: seq<Chunk>): set<nat> {
    if cs == [] then {} else Block(cs[0].head, cs[0].order) + ChunkPages(cs[1..])
  }

  /** The blocks of cs are in range, aligned, and disjoint from B and from each other. */
  ghost predicate AllFit(lo: nat, hi: nat, B: Blocks, cs: seq<Chunk>) {
    && (forall i | 0 <= i < |cs| :: Fits(lo, hi, B, cs[i].head, cs[i].order))
    && (forall i, j | 0 <= i < j < |cs| :: Block(cs[i].head, cs[i].order) !! Block(cs[j].head, cs[j].order))
  }

  lemma {:induction false} InsertAllCorrect(lo: nat, hi: nat, B: Blocks, cs: seq<Chunk>)
    requires WellFormed(lo, hi, B) && Canonical(B) && AllFit(lo, hi, B, cs)
    ensures WellFormed(lo, hi, InsertAll(B, cs)) && Canonical(InsertAll(B, cs))
    ensures FreePages(InsertAll(B, cs)) == FreePages(B) + ChunkPages(cs)
    decreases |cs|
  {
    if cs != [] {
      var c := cs[0];
      InsertCorrect(lo, hi, B, c.head, c.order);
      var C := Insert(B, c.head, c.order);
      forall i | 0 <= i < |cs[1..]|
        ensures Fits(lo, hi, C, cs[1..][i].head, cs[1..][i].order)
      {
        var d := cs[i + 1];
        FitsIffDisjoint(lo, hi, B, d.head, d.order);
        FitsIffDisjoint(lo, hi, C, d.head, d.order);
      }
      InsertAllCorrect(lo, hi, C, cs[1..]);
    }
  }

  lemma {:induction false} ChunkPagesOf(cs: seq<Chunk>, p: nat)
    ensures p in ChunkPages(cs) <==> exists c :: c in cs && p in Block(c.head, c.order)
  {
    if cs != [] {
      ChunkPagesOf(cs[1..], p);
      assert cs == [cs[0]] + cs[1..];
    }
  }

  /** Freeing the same blocks in any order leaves the same free blocks. */
  lemma {:induction false} FreeOrderIrrelevant(lo: nat, hi: nat, B: Blocks, cs: seq<Chunk>, ds: seq<Chunk>)
    requires WellFormed(lo, hi, B) && Canonical(B) && AllFit(lo, hi, B, cs) && AllFit(lo, hi, B, ds)
    requires forall c :: c in cs <==> c in ds
    ensures InsertAll(B, cs) == InsertAll(B, ds)
  {
    InsertAllCorrect(lo, hi, B, cs);
    InsertAllCorrect(lo, hi, B, ds);
    forall p: nat
      ensures p in ChunkPages(cs) <==> p in ChunkPages(ds)
    {
      ChunkPagesOf(cs, p);
      ChunkPagesOf(ds, p);
    }
    CanonicalUnique(lo, hi, InsertAll(B, cs), InsertAll(B, ds));
  }
}
