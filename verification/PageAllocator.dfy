/** The page allocator: per-CPU hot and cold lists in front of a buddy zone, and the callers
    that hold pages. */
module PageAllocator {
  import opened Bits
  import opened Lists
  import opened Buddy
  import opened ZoneAllocator

  datatype PerCpuPages = PerCpuPages(count: int, low: int, high: int, batch: nat, list: seq<nat>)

  /** Where a page is: in a free block, on a per-CPU list, handed out as part of a block, or on its
      way back after its last reference was dropped. */
  datatype Place = InBuddy | OnPcp(list: nat) | Held(head: nat, order: nat) | Freeing

  type Owners = map<nat, Place>

  /** The block of the holder of a page. */
  ghost predicate HeldBlock(w: Owners, h: nat, o: nat) {
    o < MAX_ORDER && Aligned(h, o) && forall q | q in Block(h, o) :: q in w && w[q] == Held(h, o)
  }

  /** Flags and reference counts fit the place of each page: a held block has its references on
      its first page, everything else has none. */
  ghost predicate CountsFit(start: nat, m: seq<Page>, w: Owners) {
    forall p | p in w ::
      && start <= p < start + |m|
      && var pg := PageAt(start, m, p);
         !pg.reserved && if w[p].Held? && w[p].head == p then pg.count >= 1 else pg.count == 0
  }

  /** The pages on the per-CPU lists are those w puts there, each once. */
  ghost predicate ListsFit(pcp: seq<PerCpuPages>, w: Owners) {
    && (forall i | 0 <= i < |pcp| :: NoDup(pcp[i].list) && forall p :: p in pcp[i].list <==> p in w && w[p] == OnPcp(i))
    && (forall p | p in w && w[p].OnPcp? :: w[p].list < |pcp|)
  }

  /** Every held page belongs to a block that is held as a whole. */
  ghost predicate HoldersFit(w: Owners) {
    forall p | p in w && w[p].Held? :: p in Block(w[p].head, w[p].order) && HeldBlock(w, w[p].head, w[p].order)
  }

  /** Every page is in exactly the one place w says. */
  ghost predicate OwnersOk(start: nat, m: seq<Page>, free: set<nat>, pcp: seq<PerCpuPages>, w: Owners) {
    && (forall p :: p in free <==> p in w && w[p] == InBuddy)
    && ListsFit(pcp, w)
    && HoldersFit(w)
    && CountsFit(start, m, w)
  }

  /** The pages of s have moved to place x, and every other page is where it was. */
  ghost predicate Moved(w: Owners, w': Owners, s: set<nat>, x: Place) {
    w'.Keys == w.Keys && forall p | p in w :: w'[p] == if p in s then x else w[p]
  }

  lemma {:induction false} MovedMore(w: Owners, w1: Owners, w2: Owners, s: set<nat>, t: set<nat>, x: Place)
    requires Moved(w, w1, s, x) && Moved(w1, w2, t, x)
    ensures Moved(w, w2, s + t, x)
  {
  }

  /** The pages of a list. */
  ghost function PagesIn(l: seq<nat>): set<nat> {
    set p | p in l
  }

  lemma {:induction false} PagesInMore(l: seq<nat>, x: nat)
    ensures PagesIn(l + [x]) == PagesIn(l) + {x} && PagesIn([x] + l) == PagesIn(l) + {x}
  {
    assert x in l + [x] && x in [x] + l;
    assert forall p | p in l :: p in l + [x] && p in [x] + l;
  }

  /** The pages of s move to place x. */
  ghost function Move(w: Owners, s: set<nat>, x: Place): Owners {
    map p | p in w :: if p in s then x else w[p]
  }

  lemma {:induction false} BlockZero(p: nat)
    ensures Block(p, 0) == {p} && Aligned(p, 0)
  {
  }

  function WithFirst(pcp: seq<PerCpuPages>, i: nat, page: nat): seq<PerCpuPages>
    requires i < |pcp|
  {
    pcp[i := pcp[i].(list := [page] + pcp[i].list, count := pcp[i].count + 1)]
  }

  function WithList(c: PerCpuPages, l: seq<nat>): PerCpuPages {
    c.(list := l)
  }

  /** A page leaves a per-CPU list. */
  lemma {:induction false} OffList(pcp: seq<PerCpuPages>, w: Owners, i: nat, l: seq<nat>, p: nat, x: Place)
    requires ListsFit(pcp, w) && i < |pcp| && !x.OnPcp? && p in pcp[i].list
    requires NoDup(l) && forall q :: q in l <==> q in pcp[i].list && q != p
    ensures ListsFit(pcp[i := WithList(pcp[i], l)], Move(w, {p}, x))
  {
    assert w[p] == OnPcp(i);
  }

  /** A page that is on no list joins one. */
  lemma {:induction false} OnList(pcp: seq<PerCpuPages>, w: Owners, i: nat, l: seq<nat>, p: nat)
    requires ListsFit(pcp, w) && i < |pcp| && p in w && !w[p].OnPcp?
    requires NoDup(l) && forall q :: q in l <==> q in pcp[i].list || q == p
    ensures ListsFit(pcp[i := WithList(pcp[i], l)], Move(w, {p}, OnPcp(i)))
  {
  }

  /** Pages that nobody holds move without touching a holder. */
  lemma {:induction false} HoldersApart(w: Owners, s: set<nat>, x: Place)
    requires HoldersFit(w) && !x.Held? && forall p | p in s && p in w :: !w[p].Held?
    ensures HoldersFit(Move(w, s, x))
  {
    var w' := Move(w, s, x);
    forall p | p in w' && w'[p].Held?
      ensures p in Block(w'[p].head, w'[p].order) && HeldBlock(w', w'[p].head, w'[p].order)
    {
      assert HeldBlock(w, w[p].head, w[p].order);
    }
  }

  /** A page goes from the tail of a per-CPU list to the buddy lists. */
  lemma {:induction false} PcpToBuddy(start: nat, m: seq<Page>, free: set<nat>, pcp: seq<PerCpuPages>, w: Owners,
                                      i: nat, l: seq<nat>, p: nat, m': seq<Page>, free': set<nat>)
    requires OwnersOk(start, m, free, pcp, w) && i < |pcp| && SameRefs(m, m')
    requires pcp[i].list == l + [p] && free' == free + Block(p, 0)
    ensures OwnersOk(start, m', free', pcp[i := WithList(pcp[i], l)], Move(w, {p}, InBuddy))
  {
    BlockZero(p);
    assert pcp[i].list[|l|] == p && l == pcp[i].list[..|l|];
    OffList(pcp, w, i, l, p, InBuddy);
    HoldersApart(w, {p}, InBuddy);
    CountsKept(start, m, w, m', Move(w, {p}, InBuddy));
  }

  lemma {:induction false} CountsKept(start: nat, m: seq<Page>, w: Owners, m': seq<Page>, w': Owners)
    requires CountsFit(start, m, w) && SameRefs(m, m') && w.Keys == w'.Keys
    requires forall p | p in w :: w'[p] == w[p] || (!w[p].Held? && !w'[p].Held?)
    ensures CountsFit(start, m', w')
  {
    forall p | p in w'
      ensures start <= p < start + |m'|
      ensures PageAt(start, m', p).reserved == PageAt(start, m, p).reserved
      ensures PageAt(start, m', p).count == PageAt(start, m, p).count
    {
      assert p in w;
    }
  }

  /** A page goes from the buddy lists to the tail of a per-CPU list. */
  lemma {:induction false} BuddyToPcp(start: nat, m: seq<Page>, free: set<nat>, pcp: seq<PerCpuPages>, w: Owners,
                                      i: nat, p: nat, m': seq<Page>, free': set<nat>)
    requires OwnersOk(start, m, free, pcp, w) && i < |pcp| && SameRefs(m, m')
    requires Block(p, 0) <= free && free' == free - Block(p, 0)
    ensures OwnersOk(start, m', free', pcp[i := WithList(pcp[i], pcp[i].list + [p])], Move(w, {p}, OnPcp(i)))
  {
    BlockZero(p);
    assert p in Block(p, 0);
    OnList(pcp, w, i, pcp[i].list + [p], p);
    HoldersApart(w, {p}, OnPcp(i));
    CountsKept(start, m, w, m', Move(w, {p}, OnPcp(i)));
  }

  /** The first page of a per-CPU list is handed out. */
  lemma {:induction false} PcpToHeld(start: nat, m: seq<Page>, free: set<nat>, pcp: seq<PerCpuPages>, w: Owners, i: nat)
    requires OwnersOk(start, m, free, pcp, w) && i < |pcp| && pcp[i].list != []
    ensures var p := pcp[i].list[0];
            && p in w && w[p] == OnPcp(i) && p !in free && start <= p < start + |m|
            && OwnersOk(start, SetRef(start, m, p, 1), free, pcp[i := WithList(pcp[i], pcp[i].list[1..])],
                        Move(w, {p}, Held(p, 0)))
  {
    var l, p := pcp[i].list, pcp[i].list[0];
    assert p in l && l == [p] + l[1..];
    BlockZero(p);
    MoveToHeld(w, p, 0);
    OffList(pcp, w, i, l[1..], p, Held(p, 0));
    CountsHeld(start, m, w, p, 0, m);
  }

  /** A block that nobody holds can be given to one holder without touching the others. */
  lemma {:induction false} MoveToHeld(w: Owners, h: nat, o: nat)
    requires o < MAX_ORDER && Aligned(h, o) && forall q | q in Block(h, o) :: q in w && !w[q].Held?
    requires HoldersFit(w)
    ensures HoldersFit(Move(w, Block(h, o), Held(h, o)))
  {
    var w' := Move(w, Block(h, o), Held(h, o));
    forall p | p in w' && w'[p].Held?
      ensures p in Block(w'[p].head, w'[p].order) && HeldBlock(w', w'[p].head, w'[p].order)
    {
      if p !in Block(h, o) {
        assert HeldBlock(w, w[p].head, w[p].order);
        assert Block(w[p].head, w[p].order) !! Block(h, o) by {
          forall q | q in Block(w[p].head, w[p].order)
            ensures q !in Block(h, o)
          {
            assert w[q].Held?;
          }
        }
      }
    }
  }

  /** The first page of a block gets the reference of its holder. */
  lemma {:induction false} CountsHeld(start: nat, m: seq<Page>, w: Owners, h: nat, o: nat, m': seq<Page>)
    requires CountsFit(start, m, w) && SameRefs(m, m') && start <= h < start + |m|
    requires forall q | q in Block(h, o) :: q in w && !w[q].Held?
    ensures CountsFit(start, SetRef(start, m', h, 1), Move(w, Block(h, o), Held(h, o)))
  {
    var w', m'' := Move(w, Block(h, o), Held(h, o)), SetRef(start, m', h, 1);
    assert h in Block(h, o);
    forall p | p in w'
      ensures start <= p < start + |m''|
      ensures !PageAt(start, m'', p).reserved
      ensures if w'[p].Held? && w'[p].head == p then PageAt(start, m'', p).count >= 1 else PageAt(start, m'', p).count == 0
    {
      assert PageAt(start, m', p).count == PageAt(start, m, p).count && PageAt(start, m', p).reserved == PageAt(start, m, p).reserved;
    }
  }

  /** A block from the buddy lists is handed out. */
  lemma {:induction false} BuddyToHeld(start: nat, m: seq<Page>, free: set<nat>, pcp: seq<PerCpuPages>, w: Owners,
                                       h: nat, o: nat, m': seq<Page>, free': set<nat>)
    requires OwnersOk(start, m, free, pcp, w) && SameRefs(m, m') && o < MAX_ORDER && Aligned(h, o)
    requires Block(h, o) <= free && free' == free - Block(h, o)
    ensures h in Block(h, o) && start <= h < start + |m|
    ensures OwnersOk(start, SetRef(start, m', h, 1), free', pcp, Move(w, Block(h, o), Held(h, o)))
    ensures HeldBlock(Move(w, Block(h, o), Held(h, o)), h, o)
    ensures forall q | q in Block(h, o) :: q in w && !w[q].Held?
  {
    assert h in Block(h, o);
    MoveToHeld(w, h, o);
    CountsHeld(start, m, w, h, o, m');
  }

  /** The holder of a block drops its last reference. */
  lemma {:induction false} HeldToFreeing(start: nat, m: seq<Page>, free: set<nat>, pcp: seq<PerCpuPages>, w: Owners, h: nat, o: nat)
    requires OwnersOk(start, m, free, pcp, w) && HeldBlock(w, h, o)
    requires h in Block(h, o) && start <= h < start + |m| && PageAt(start, m, h).count == 1
    ensures OwnersOk(start, SetRef(start, m, h, 0), free, pcp, Move(w, Block(h, o), Freeing))
  {
    var w', m' := Move(w, Block(h, o), Freeing), SetRef(start, m, h, 0);
    forall p | p in w' && w'[p].Held?
      ensures p in Block(w'[p].head, w'[p].order) && HeldBlock(w', w'[p].head, w'[p].order)
    {
      assert HeldBlock(w, w[p].head, w[p].order);
      forall q | q in Block(w[p].head, w[p].order)
        ensures q !in Block(h, o)
      {
        assert w[q] == w[p] && w[p] != Held(h, o);
      }
    }
    forall p | p in w'
      ensures start <= p < start + |m'|
      ensures PageAt(start, m', p) == if p == h then PageAt(start, m, p).(count := 0) else PageAt(start, m, p)
    {
    }
  }

  /** A reference that is not the last one. */
  lemma {:induction false} DropOne(start: nat, m: seq<Page>, free: set<nat>, pcp: seq<PerCpuPages>, w: Owners, h: nat, o: nat)
    requires OwnersOk(start, m, free, pcp, w) && HeldBlock(w, h, o)
    ensures h in Block(h, o) && start <= h < start + |m| && h !in free
    ensures PageAt(start, m, h).count >= 1 && !PageAt(start, m, h).reserved
    ensures var c := PageAt(start, m, h).count - 1; c >= 1 ==> OwnersOk(start, SetRef(start, m, h, c), free, pcp, w)
  {
    assert h in Block(h, o);
    assert w[h] == Held(h, o);
    var c := PageAt(start, m, h).count - 1;
    var m' := SetRef(start, m, h, c);
    forall p | p in w && c >= 1
      ensures start <= p < start + |m'|
      ensures PageAt(start, m', p) == if p == h then PageAt(start, m, p).(count := c) else PageAt(start, m, p)
    {
    }
  }

  /** A released page goes to the front of a per-CPU list. */
  lemma {:induction false} FreeingToPcp(start: nat, m: seq<Page>, free: set<nat>, pcp: seq<PerCpuPages>, w: Owners, h: nat, i: nat)
    requires OwnersOk(start, m, free, pcp, w) && i < |pcp| && h in w && w[h] == Freeing
    ensures OwnersOk(start, m, free, pcp[i := WithList(pcp[i], [h] + pcp[i].list)], Move(w, {h}, OnPcp(i)))
  {
    assert h !in pcp[i].list;
    OnList(pcp, w, i, [h] + pcp[i].list, h);
    HoldersApart(w, {h}, OnPcp(i));
    CountsKept(start, m, w, m, Move(w, {h}, OnPcp(i)));
  }

  /** A released block goes back to the buddy lists. */
  lemma {:induction false} FreeingToBuddy(start: nat, m: seq<Page>, free: set<nat>, pcp: seq<PerCpuPages>, w: Owners, h: nat, o: nat,
                                          m': seq<Page>, free': set<nat>)
    requires OwnersOk(start, m, free, pcp, w) && SameRefs(m, m') && free' == free + Block(h, o)
    requires forall p | p in Block(h, o) :: p in w && w[p] == Freeing
    ensures OwnersOk(start, m', free', pcp, Move(w, Block(h, o), InBuddy))
  {
    HoldersApart(w, Block(h, o), InBuddy);
    CountsKept(start, m, w, m', Move(w, Block(h, o), InBuddy));
  }

  /** A released block can be handed back to the zone. */
  lemma {:induction false} FreeingFreeable(start: nat, m: seq<Page>, B: Blocks, pcp: seq<PerCpuPages>, w: Owners, h: nat, o: nat)
    requires OwnersOk(start, m, FreePages(B), pcp, w) && B == BlocksOf(start, m) && WellFormed(start, start + |m|, B)
    requires o < MAX_ORDER && Aligned(h, o) && forall p | p in Block(h, o) :: p in w && w[p] == Freeing
    ensures Fits(start, start + |m|, B, h, o) && IdleIn(start, m, Block(h, o))
  {
    FreeableFrom(start, m, h, o);
  }

  /** The tail of a per-CPU list can be handed back to the zone. */
  lemma {:induction false} TailFreeable(start: nat, m: seq<Page>, B: Blocks, pcp: seq<PerCpuPages>, w: Owners, i: nat)
    requires OwnersOk(start, m, FreePages(B), pcp, w) && i < |pcp| && pcp[i].list != []
    requires B == BlocksOf(start, m) && WellFormed(start, start + |m|, B)
    ensures var p := pcp[i].list[|pcp[i].list| - 1];
            Fits(start, start + |m|, B, p, 0) && IdleIn(start, m, Block(p, 0))
  {
    var p := pcp[i].list[|pcp[i].list| - 1];
    assert p in pcp[i].list;
    BlockZero(p);
    FreeableFrom(start, m, p, 0);
  }

  /** A block no one has seen yet: in range, no references. */
  ghost predicate Unseen(start: nat, m: seq<Page>, w: Owners, h: nat, o: nat) {
    && o < MAX_ORDER && Aligned(h, o) && start <= h && h + Pow2(o) <= start + |m|
    && forall p | p in Block(h, o) :: p !in w && PageAt(start, m, p).count == 0
  }

  /** The flags and counts once a block was exposed: not reserved, one reference on its head. */
  function Exposed(start: nat, m: seq<Page>, h: nat, o: nat): seq<Page>
    requires start <= h < start + |m|
  {
    SetRef(start, ClearReserved(start, m, h, o), h, 1)
  }

  ghost function Adopted(w: Owners, h: nat, o: nat): Owners {
    w + (map p | p in Block(h, o) :: Held(h, o))
  }

  /** A new block of pages that nobody knew about becomes held. */
  lemma {:induction false} AdoptOk(start: nat, m: seq<Page>, free: set<nat>, pcp: seq<PerCpuPages>, w: Owners, h: nat, o: nat)
    requires OwnersOk(start, m, free, pcp, w) && Unseen(start, m, w, h, o)
    ensures h in Block(h, o) && h !in free && start <= h < start + |m|
    ensures OwnersOk(start, Exposed(start, m, h, o), free, pcp, Adopted(w, h, o))
    ensures HeldBlock(Adopted(w, h, o), h, o)
  {
    assert h in Block(h, o);
    var w', m' := Adopted(w, h, o), Exposed(start, m, h, o);
    forall p | p in w' && w'[p].Held?
      ensures p in Block(w'[p].head, w'[p].order) && HeldBlock(w', w'[p].head, w'[p].order)
    {
      if p !in Block(h, o) {
        assert HeldBlock(w, w[p].head, w[p].order);
      }
    }
    forall p | p in w'
      ensures start <= p < start + |m'|
      ensures PageAt(start, m', p).count == if p == h then 1 else PageAt(start, m, p).count
      ensures PageAt(start, m', p).reserved == (p !in Block(h, o) && PageAt(start, m, p).reserved)
    {
    }
  }

  /** What a zone needs to take a block back. */
  lemma {:induction false} FreeableFrom(start: nat, m: seq<Page>, h: nat, o: nat)
    requires WellFormed(start, start + |m|, BlocksOf(start, m)) && o < MAX_ORDER && Aligned(h, o)
    requires IdleIn(start, m, Block(h, o)) && Block(h, o) !! FreePages(BlocksOf(start, m))
    ensures Fits(start, start + |m|, BlocksOf(start, m), h, o)
  {
    assert h in Block(h, o) && h + Pow2(o) - 1 in Block(h, o);
    FitsIffDisjoint(start, start + |m|, BlocksOf(start, m), h, o);
  }

  // ----- what the operations on per-CPU lists come to

  /** The last k pages of list i have gone to the buddy lists; every other page is where it was. */
  ghost predicate CutBy(pcp: seq<PerCpuPages>, pcp': seq<PerCpuPages>, w: Owners, w': Owners, i: nat, k: nat) {
    && i < |pcp| && k <= |pcp[i].list|
    && pcp' == pcp[i := WithList(pcp[i], pcp[i].list[..|pcp[i].list| - k])]
    && Moved(w, w', PagesIn(pcp[i].list[|pcp[i].list| - k..]), InBuddy)
  }

  lemma {:induction false} CutNone(pcp: seq<PerCpuPages>, w: Owners, i: nat)
    requires i < |pcp|
    ensures CutBy(pcp, pcp, w, w, i, 0)
  {
    var l := pcp[i].list;
    assert l[..|l| - 0] == l && PagesIn(l[|l| - 0..]) == {};
  }

  lemma {:induction false} TailCut(pcp: seq<PerCpuPages>, w: Owners, i: nat)
    requires i < |pcp| && pcp[i].list != []
    ensures var l := pcp[i].list;
            CutBy(pcp, pcp[i := WithList(pcp[i], l[..|l| - 1])], w, Move(w, {l[|l| - 1]}, InBuddy), i, 1)
  {
    var l := pcp[i].list;
    assert l[|l| - 1..] == [l[|l| - 1]];
    PagesInMore([], l[|l| - 1]);
  }

  lemma {:induction false} CutMore(pcp: seq<PerCpuPages>, pcp1: seq<PerCpuPages>, pcp2: seq<PerCpuPages>,
                                   w: Owners, w1: Owners, w2: Owners, i: nat, k: nat)
    requires CutBy(pcp, pcp1, w, w1, i, k) && k < |pcp[i].list|
    requires CutBy(pcp1, pcp2, w1, w2, i, 1)
    ensures CutBy(pcp, pcp2, w, w2, i, k + 1)
  {
    var l := pcp[i].list;
    var x := l[|l| - k - 1];
    var m := l[..|l| - k];
    assert m[..|m| - 1] == l[..|l| - (k + 1)] && m[|m| - 1..] == [x];
    assert l[|l| - (k + 1)..] == [x] + l[|l| - k..];
    PagesInMore(l[|l| - k..], x);
    PagesInMore([], x);
    MovedMore(w, w1, w2, PagesIn(l[|l| - k..]), {x}, InBuddy);
  }

  /** The pages t have come from the buddy lists to the end of list i; every other page is where it was. */
  ghost predicate GrownBy(pcp: seq<PerCpuPages>, pcp': seq<PerCpuPages>, w: Owners, w': Owners, i: nat, t: seq<nat>) {
    && i < |pcp|
    && pcp' == pcp[i := WithList(pcp[i], pcp[i].list + t)]
    && Moved(w, w', PagesIn(t), OnPcp(i))
    && forall p | p in t :: p in w && w[p] == InBuddy
  }

  lemma {:induction false} GrownNone(pcp: seq<PerCpuPages>, w: Owners, i: nat)
    requires i < |pcp|
    ensures GrownBy(pcp, pcp, w, w, i, [])
  {
    assert pcp[i].list + [] == pcp[i].list;
  }

  lemma {:induction false} GrownMore(pcp: seq<PerCpuPages>, pcp1: seq<PerCpuPages>, w: Owners, w1: Owners, i: nat, t: seq<nat>, x: nat)
    requires GrownBy(pcp, pcp1, w, w1, i, t) && x in w1 && w1[x] == InBuddy
    ensures GrownBy(pcp, pcp1[i := WithList(pcp1[i], pcp1[i].list + [x])], w, Move(w1, {x}, OnPcp(i)), i, t + [x])
  {
    PagesInMore(t, x);
    MovedMore(w, w1, Move(w1, {x}, OnPcp(i)), PagesIn(t), {x}, OnPcp(i));
    assert pcp[i].list + t + [x] == pcp[i].list + (t + [x]);
  }

  /** The block r, if any, has gone to a holder, and the pages t from the buddy lists to list i; every other
      page is where it was. */
  ghost predicate Taken(w: Owners, w': Owners, r: Option<nat>, order: nat, t: seq<nat>, i: nat) {
    && w'.Keys == w.Keys
    && (forall p | p in t :: p in w && w[p] == InBuddy)
    && forall p | p in w ::
         w'[p] == if r.Some? && p in Block(r.value, order) then Held(r.value, order) else if p in t then OnPcp(i) else w[p]
  }

  /** List i has got the pages t at its end and then lost its first page, if it had one. */
  ghost predicate FromHead(pcp: seq<PerCpuPages>, pcp': seq<PerCpuPages>, i: nat, t: seq<nat>)
    requires i < |pcp|
  {
    var l := pcp[i].list + t;
    pcp' == if l == [] then pcp else pcp[i := pcp[i].(list := l[1..], count := |l| - 1)]
  }

  lemma {:induction false} Popped(pcp: seq<PerCpuPages>, pcp1: seq<PerCpuPages>, pcp2: seq<PerCpuPages>, i: nat, t: seq<nat>)
    requires i < |pcp| && pcp[i].list + t != []
    requires pcp1 == pcp[i := pcp[i].(list := pcp[i].list + t, count := |pcp[i].list| + |t|)]
    requires pcp2 == pcp1[i := pcp1[i].(list := pcp1[i].list[1..], count := pcp1[i].count - 1)]
    ensures FromHead(pcp, pcp2, i, t)
  {
  }

  lemma {:induction false} RefilledTaken(w: Owners, w1: Owners, w2: Owners, t: seq<nat>, i: nat, x: nat)
    requires Moved(w, w1, PagesIn(t), OnPcp(i)) && forall p | p in t :: p in w && w[p] == InBuddy
    requires Moved(w1, w2, Block(x, 0), Held(x, 0)) && forall q | q in Block(x, 0) :: q in w1 && !w1[q].Held?
    ensures Taken(w, w2, Some(x), 0, t, i) && forall q | q in Block(x, 0) :: q in w && !w[q].Held?
  {
  }

  lemma {:induction false} NothingTaken(w: Owners, w': Owners, pcp: seq<PerCpuPages>, pcp': seq<PerCpuPages>, t: seq<nat>, i: nat)
    requires i < |pcp| && Moved(w, w', PagesIn(t), OnPcp(i)) && pcp[i].count == |pcp[i].list| && pcp[i].list + t == []
    requires pcp' == pcp[i := pcp[i].(list := pcp[i].list + t, count := |pcp[i].list| + |t|)]
    ensures t == [] && w' == w && pcp' == pcp && Taken(w, w', None, 0, t, i) && FromHead(pcp, pcp', i, t)
  {
  }

  /** A block from the buddy lists when nothing came from the per-CPU list. */
  lemma {:induction false} NothingBefore(w: Owners, w1: Owners, w2: Owners, r: Option<nat>, order: nat, t: seq<nat>, i: nat)
    requires w1 == w && t == []
    requires if r.None? then w2 == w1 else Moved(w1, w2, Block(r.value, order), Held(r.value, order))
    ensures Taken(w, w2, r, order, t, i)
  {
  }

  /** A page has come to the front of list i.  If the count had reached high, the last pages of the list, as
      many as the batch says or all, went to the buddy lists; every other page is where it was. */
  ghost predicate HotFreed(pcp: seq<PerCpuPages>, pcp': seq<PerCpuPages>, w: Owners, w': Owners, i: nat, page: nat)
    requires i < |pcp|
  {
    var c := pcp[i];
    var n := |c.list|;
    var k := if c.count < c.high then 0 else if c.batch <= n then c.batch else n;
    && pcp' == pcp[i := c.(list := [page] + c.list[..n - k], count := n - k + 1)]
    && w'.Keys == w.Keys
    && forall p | p in w :: w'[p] == if p == page then OnPcp(i) else if p in c.list[n - k..] then InBuddy else w[p]
  }

  /** List i is shorter by a batch, or empty, its count is its length, and what it has lost is with the buddy
      lists; every other page is where it was. */
  ghost predicate Shortened(pcp: seq<PerCpuPages>, pcp': seq<PerCpuPages>, w: Owners, w': Owners, i: nat)
    requires i < |pcp|
  {
    var c := pcp[i];
    var n := |c.list|;
    var k := if c.batch <= n then c.batch else n;
    && pcp' == pcp[i := c.(list := c.list[..n - k], count := n - k)]
    && Moved(w, w', PagesIn(c.list[n - k..]), InBuddy)
  }

  lemma {:induction false} ShortenedBy(pcp: seq<PerCpuPages>, pcp1: seq<PerCpuPages>, w: Owners, w': Owners, i: nat, k: nat)
    requires i < |pcp| && pcp[i].count == |pcp[i].list| && CutBy(pcp, pcp1, w, w', i, k)
    requires k == if pcp[i].batch <= |pcp[i].list| then pcp[i].batch else |pcp[i].list|
    ensures |pcp1| == |pcp| && Shortened(pcp, pcp1[i := pcp1[i].(count := pcp1[i].count - k)], w, w', i)
  {
  }

  ghost predicate RoomMade(pcp: seq<PerCpuPages>, pcp': seq<PerCpuPages>, w: Owners, w': Owners, i: nat)
    requires i < |pcp|
  {
    if pcp[i].count < pcp[i].high then pcp' == pcp && w' == w else Shortened(pcp, pcp', w, w', i)
  }

  lemma {:induction false} HotFreedBy(pcp: seq<PerCpuPages>, pcp1: seq<PerCpuPages>, w: Owners, w1: Owners, i: nat, page: nat)
    requires i < |pcp| && RoomMade(pcp, pcp1, w, w1, i) && pcp1[i].count == |pcp1[i].list|
    ensures HotFreed(pcp, WithFirst(pcp1, i, page), w, Move(w1, {page}, OnPcp(i)), i, page)
  {
    var l := pcp[i].list;
    assert l[..|l| - 0] == l;
  }

  /** The same seen from before the page lost its last reference. */
  lemma {:induction false} HotFreedBefore(w0: Owners, w: Owners, pcp: seq<PerCpuPages>, pcp': seq<PerCpuPages>, w': Owners, i: nat, page: nat)
    requires i < |pcp| && Moved(w0, w, {page}, Freeing) && HotFreed(pcp, pcp', w, w', i, page)
    ensures HotFreed(pcp, pcp', w0, w', i, page)
  {
  }

  class Allocator {
    const zone: Zone
    var pcp: seq<PerCpuPages>
    ghost var where: Owners

    /** Valid, except that the count of list i is off by shift. */
    ghost predicate ValidBut(i: nat, shift: int)
      reads this, zone
    {
      && zone.Valid()
      && OwnersOk(zone.start, zone.mem, FreePages(zone.FreeBlocks()), pcp, where)
      && forall j | 0 <= j < |pcp| :: pcp[j].count == |pcp[j].list| + if j == i then shift else 0
    }

    /** Every page known to the allocator is in a free block, on a per-CPU list or held, in exactly
        one way, and the counts match the lists. */
    ghost predicate Valid()
      reads this, zone
    {
      ValidBut(0, 0) && forall p | p in where :: where[p] != Freeing
    }

    /** The page has exactly one reference. */
    ghost predicate OneReference(page: nat)
      reads this, zone
    {
      zone.start <= page < zone.start + |zone.mem| && zone.mem[page - zone.start].count == 1
    }

    /** An empty set of lists over a zone with nothing free: all pages are still reserved. */
    constructor (zone: Zone, pcp: seq<PerCpuPages>)
      requires zone.Valid() && zone.FreeBlocks() == map[]
      requires forall i | 0 <= i < |pcp| :: pcp[i].list == [] && pcp[i].count == 0
      ensures Valid() && this.zone == zone && this.pcp == pcp && where == map[]
    {
      this.zone, this.pcp, this.where := zone, pcp, map[];
    }

    /** The boot allocator hands over a block: PG_reserved goes, and the block is held with one reference. */
    method Adopt(page: nat, order: nat)
      requires Valid() && Unseen(zone.start, zone.mem, where, page, order)
      modifies this`where, zone`mem
      ensures Valid() && where == Adopted(old(where), page, order) && HeldBlock(where, page, order)
      ensures !zone.BadRange(page) && zone.mem == Exposed(zone.start, old(zone.mem), page, order)
    {
      AdoptOk(zone.start, zone.mem, FreePages(zone.FreeBlocks()), pcp, where, page, order);
      zone.Unreserve(page, order);
      zone.SetCount(page, 1);
      where := Adopted(where, page, order);
      assert OwnersOk(zone.start, zone.mem, FreePages(zone.FreeBlocks()), pcp, where);
    }

    /** Hand a block to the zone; only the effect on the set of free pages matters here. */
    method ToZone(page: nat, order: nat)
      requires zone.Valid() && Fits(zone.start, zone.start + |zone.mem|, zone.FreeBlocks(), page, order)
      requires IdleIn(zone.start, zone.mem, Block(page, order))
      modifies zone
      ensures zone.Valid() && SameRefs(old(zone.mem), zone.mem)
      ensures FreePages(zone.FreeBlocks()) == old(FreePages(zone.FreeBlocks())) + Block(page, order)
    {
      zone.FreeBlock(page, order);
    }

    /** Take a block from the zone. */
    method FromZone(order: nat) returns (r: Option<nat>)
      requires zone.Valid()
      modifies zone
      ensures zone.Valid() && SameRefs(old(zone.mem), zone.mem)
      ensures r.None? <==> FirstOrder(old(zone.area), order) >= MAX_ORDER
      ensures r.None? ==> unchanged(zone)
      ensures r.Some? ==> order < MAX_ORDER && Aligned(r.value, order) && Block(r.value, order) <= old(FreePages(zone.FreeBlocks()))
      ensures r.Some? ==> FreePages(zone.FreeBlocks()) == old(FreePages(zone.FreeBlocks())) - Block(r.value, order)
      ensures r.Some? ==> r.value == old(zone.area)[FirstOrder(old(zone.area), order)].list[0]
    {
      r := zone.Rmqueue(order);
    }

    /** free_pages_bulk on per-CPU list i: up to n pages go from its tail to the buddy lists. */
    method FreePagesBulk(i: nat, n: nat) returns (ret: int)
      requires ValidBut(i, 0) && i < |pcp|
      modifies this, zone
      ensures ret == if n <= |old(pcp)[i].list| then n else |old(pcp)[i].list|
      ensures ValidBut(i, ret) && CutBy(old(pcp), pcp, old(where), where, i, ret)
      ensures SameRefs(old(zone.mem), zone.mem)
    {
      ret := 0;
      CutNone(pcp, where, i);
      while pcp[i].list != [] && ret < n
        invariant 0 <= ret <= n && |pcp| == |old(pcp)|
        invariant ValidBut(i, ret) && CutBy(old(pcp), pcp, old(where), where, i, ret)
        invariant SameRefs(old(zone.mem), zone.mem)
        decreases n - ret
      {
        FreeTail(i, ret, old(pcp), old(where));
        ret := ret + 1;
      }
    }

    /** One round of free_pages_bulk, after k pages of the lists pcp0 have gone. */
    method FreeTail(i: nat, ghost k: nat, ghost pcp0: seq<PerCpuPages>, ghost w0: Owners)
      requires ValidBut(i, k) && i < |pcp| && pcp[i].list != [] && CutBy(pcp0, pcp, w0, where, i, k)
      modifies this, zone
      ensures ValidBut(i, k + 1) && CutBy(pcp0, pcp, w0, where, i, k + 1)
      ensures SameRefs(old(zone.mem), zone.mem) && |pcp| == old(|pcp|)
    {
      TailCut(pcp, where, i);
      var page := TailToZone(i);
      pcp := pcp[i := WithList(pcp[i], pcp[i].list[..|pcp[i].list| - 1])];
      where := Move(where, {page}, InBuddy);
      CutMore(pcp0, old(pcp), pcp, w0, old(where), where, i, k);
    }

    /** The last page of list i, which is about to leave the list, goes to the buddy lists. */
    method TailToZone(i: nat) returns (page: nat)
      requires zone.Valid() && OwnersOk(zone.start, zone.mem, FreePages(zone.FreeBlocks()), pcp, where)
      requires i < |pcp| && pcp[i].list != []
      modifies zone
      ensures page == pcp[i].list[|pcp[i].list| - 1] && zone.Valid() && SameRefs(old(zone.mem), zone.mem)
      ensures OwnersOk(zone.start, zone.mem, FreePages(zone.FreeBlocks()),
                       pcp[i := WithList(pcp[i], pcp[i].list[..|pcp[i].list| - 1])], Move(where, {page}, InBuddy))
    {
      var l := pcp[i].list;
      page := l[|l| - 1];
      assert l == l[..|l| - 1] + [page];
      ghost var m, free := zone.mem, FreePages(zone.FreeBlocks());
      TailFreeable(zone.start, m, zone.FreeBlocks(), pcp, where, i);
      ToZone(page, 0);
      PcpToBuddy(zone.start, m, free, pcp, where, i, l[..|l| - 1], page, zone.mem, FreePages(zone.FreeBlocks()));
    }

    /** rmqueue_bulk: up to n single pages go from the buddy lists to the tail of list i. */
    method RmqueueBulk(i: nat, n: nat) returns (taken: int, ghost t: seq<nat>)
      requires ValidBut(i, 0) && i < |pcp|
      modifies this, zone
      ensures ValidBut(i, -taken) && GrownBy(old(pcp), pcp, old(where), where, i, t)
      ensures |t| == taken <= n && (taken < n ==> FirstOrder(zone.area, 0) >= MAX_ORDER)
      ensures taken == 0 ==> unchanged(zone)
    {
      taken, t := 0, [];
      GrownNone(pcp, where, i);
      while taken < n
        invariant |t| == taken <= n && |pcp| == |old(pcp)| && (taken == 0 ==> unchanged(zone))
        invariant ValidBut(i, -taken) && GrownBy(old(pcp), pcp, old(where), where, i, t)
      {
        var r := TakeToTail(i, t, old(pcp), old(where));
        if r == None {
          break;
        }
        t := t + [r.value];
        taken := taken + 1;
      }
    }

    /** One round of rmqueue_bulk, after the pages t have joined the lists pcp0. */
    method TakeToTail(i: nat, ghost t: seq<nat>, ghost pcp0: seq<PerCpuPages>, ghost w0: Owners) returns (r: Option<nat>)
      requires ValidBut(i, -|t|) && i < |pcp| && GrownBy(pcp0, pcp, w0, where, i, t)
      modifies this, zone
      ensures |pcp| == old(|pcp|)
      ensures r.None? ==> unchanged(this) && unchanged(zone) && FirstOrder(zone.area, 0) >= MAX_ORDER
      ensures r.Some? ==> ValidBut(i, -|t| - 1) && GrownBy(pcp0, pcp, w0, where, i, t + [r.value])
    {
      r := ZoneToTail(i);
      if r.Some? {
        GrownMore(pcp0, pcp, w0, where, i, t, r.value);
        pcp := pcp[i := WithList(pcp[i], pcp[i].list + [r.value])];
        where := Move(where, {r.value}, OnPcp(i));
      }
    }

    /** A single page from the buddy lists, which is about to join list i. */
    method ZoneToTail(i: nat) returns (r: Option<nat>)
      requires zone.Valid() && OwnersOk(zone.start, zone.mem, FreePages(zone.FreeBlocks()), pcp, where) && i < |pcp|
      modifies zone
      ensures r.None? ==> unchanged(zone) && FirstOrder(zone.area, 0) >= MAX_ORDER
      ensures r.Some? ==> zone.Valid() && r.value in where && where[r.value] == InBuddy
      ensures r.Some? ==> OwnersOk(zone.start, zone.mem, FreePages(zone.FreeBlocks()),
                                   pcp[i := WithList(pcp[i], pcp[i].list + [r.value])], Move(where, {r.value}, OnPcp(i)))
    {
      ghost var m, free := zone.mem, FreePages(zone.FreeBlocks());
      r := FromZone(0);
      if r.Some? {
        BlockZero(r.value);
        BuddyToPcp(zone.start, m, free, pcp, where, i, r.value, zone.mem, FreePages(zone.FreeBlocks()));
      }
    }

    /** buffered_rmqueue: a page from per-CPU list i for order 0, else from the buddy lists.  The pages t
        have come from the buddy lists to the end of the per-CPU list. */
    method BufferedRmqueue(order: nat, i: nat) returns (r: Option<nat>, ghost t: seq<nat>)
      requires Valid() && i < |pcp|
      modifies this, zone
      ensures Valid()
      ensures r.Some? ==> HeldBlock(where, r.value, order) && !zone.BadRange(r.value) && OneReference(r.value)
      ensures r.Some? ==> forall q | q in Block(r.value, order) :: q in old(where) && !old(where)[q].Held?
      ensures Taken(old(where), where, r, order, t, i)
      ensures order > 0 ==> t == [] && pcp == old(pcp)
      ensures order == 0 ==> FromHead(old(pcp), pcp, i, t) && (old(pcp)[i].list + t != [] ==> r == Some((old(pcp)[i].list + t)[0]))
      ensures order == 0 && old(pcp)[i].count < old(pcp)[i].low ==> t == []
      ensures order == 0 && old(pcp)[i].count >= old(pcp)[i].low ==>
                |t| <= old(pcp)[i].batch && (|t| < old(pcp)[i].batch ==> FirstOrder(zone.area, 0) >= MAX_ORDER)
      ensures order > 0 || old(pcp)[i].list + t == [] ==>
                var o := FirstOrder(old(zone.area), order);
                r == if o >= MAX_ORDER then None else Some(old(zone.area)[o].list[0])
    {
      r, t := None, [];
      if order == 0 {
        r, t := FromList(i);
      }
      if r == None {
        ghost var w := where;
        r := TakeBlock(order);
        NothingBefore(old(where), w, where, r, order, t, i);
      }
    }

    /** The order-0 path: refill list i if its count says so, and take its first page. */
    method FromList(i: nat) returns (r: Option<nat>, ghost t: seq<nat>)
      requires Valid() && i < |pcp|
      modifies this, zone
      ensures Valid() && |pcp| == old(|pcp|) && FromHead(old(pcp), pcp, i, t)
      ensures r == if old(pcp)[i].list + t == [] then None else Some((old(pcp)[i].list + t)[0])
      ensures r.None? ==> unchanged(zone) && where == old(where)
      ensures old(pcp)[i].count < old(pcp)[i].low ==> t == []
      ensures old(pcp)[i].count >= old(pcp)[i].low ==>
                |t| <= old(pcp)[i].batch && (|t| < old(pcp)[i].batch ==> FirstOrder(zone.area, 0) >= MAX_ORDER)
      ensures r.Some? ==> HeldBlock(where, r.value, 0) && !zone.BadRange(r.value) && OneReference(r.value)
      ensures r.Some? ==> forall q | q in Block(r.value, 0) :: q in old(where) && !old(where)[q].Held?
      ensures Taken(old(where), where, r, 0, t, i)
    {
      r, t := None, [];
      ghost var w, lists := where, pcp;
      assert pcp[i].list + t == pcp[i].list && pcp[i := pcp[i]] == pcp;
      if pcp[i].count >= pcp[i].low {
        t := Refill(i);
      }
      ghost var w1, lists1 := where, pcp;
      if pcp[i].count != 0 {
        r := PopHead(i);
        Popped(lists, lists1, pcp, i, t);
        RefilledTaken(w, w1, where, t, i, r.value);
      } else {
        NothingTaken(w, where, lists, pcp, t, i);
      }
    }

    /** Add a batch of pages to per-CPU list i. */
    method Refill(i: nat) returns (ghost t: seq<nat>)
      requires Valid() && i < |pcp|
      modifies this, zone
      ensures Valid() && |pcp| == old(|pcp|)
      ensures |t| <= old(pcp)[i].batch && (|t| < old(pcp)[i].batch ==> FirstOrder(zone.area, 0) >= MAX_ORDER)
      ensures t == [] ==> unchanged(zone)
      ensures pcp == old(pcp)[i := old(pcp)[i].(list := old(pcp)[i].list + t, count := |old(pcp)[i].list| + |t|)]
      ensures Moved(old(where), where, PagesIn(t), OnPcp(i))
      ensures forall p | p in t :: p in old(where) && old(where)[p] == InBuddy
    {
      var taken;
      taken, t := RmqueueBulk(i, pcp[i].batch);
      pcp := pcp[i := pcp[i].(count := pcp[i].count + taken)];
      assert OwnersOk(zone.start, zone.mem, FreePages(zone.FreeBlocks()), pcp, where);
    }

    /** Give back a batch of pages from per-CPU list i: its last k pages, all of them if there are fewer. */
    method Empty(i: nat)
      requires ValidBut(i, 0) && i < |pcp|
      modifies this, zone
      ensures ValidBut(i, 0) && Shortened(old(pcp), pcp, old(where), where, i)
      ensures SameRefs(old(zone.mem), zone.mem)
    {
      var ret := FreePagesBulk(i, pcp[i].batch);
      ShortenedBy(old(pcp), pcp, old(where), where, i, ret);
      pcp := pcp[i := pcp[i].(count := pcp[i].count - ret)];
      assert OwnersOk(zone.start, zone.mem, FreePages(zone.FreeBlocks()), pcp, where);
    }

    /** Hand out the first page of per-CPU list i. */
    method PopHead(i: nat) returns (r: Option<nat>)
      requires Valid() && i < |pcp| && pcp[i].count != 0
      modifies this, zone`mem
      ensures Valid() && |pcp| == old(|pcp|)
      ensures pcp == old(pcp)[i := old(pcp)[i].(list := old(pcp)[i].list[1..], count := old(pcp)[i].count - 1)]
      ensures r == Some(old(pcp)[i].list[0]) && HeldBlock(where, r.value, 0) && !zone.BadRange(r.value) && OneReference(r.value)
      ensures forall q | q in Block(r.value, 0) :: q in old(where) && !old(where)[q].Held?
      ensures Moved(old(where), where, Block(r.value, 0), Held(r.value, 0))
    {
      var page := pcp[i].list[0];
      PcpToHeld(zone.start, zone.mem, FreePages(zone.FreeBlocks()), pcp, where, i);
      BlockZero(page);
      zone.SetCount(page, 1);
      pcp := pcp[i := pcp[i].(list := pcp[i].list[1..], count := pcp[i].count - 1)];
      where := Move(where, {page}, Held(page, 0));
      assert OwnersOk(zone.start, zone.mem, FreePages(zone.FreeBlocks()), pcp, where);
      return Some(page);
    }

    /** Hand out a block from the buddy lists. */
    method TakeBlock(order: nat) returns (r: Option<nat>)
      requires Valid()
      modifies this, zone
      ensures Valid() && pcp == old(pcp)
      ensures r.None? <==> FirstOrder(old(zone.area), order) >= MAX_ORDER
      ensures r.None? ==> unchanged(this) && unchanged(zone)
      ensures r.Some? ==> HeldBlock(where, r.value, order) && !zone.BadRange(r.value) && OneReference(r.value)
      ensures r.Some? ==> forall q | q in Block(r.value, order) :: q in old(where) && !old(where)[q].Held?
      ensures r.Some? ==> Moved(old(where), where, Block(r.value, order), Held(r.value, order))
      ensures r.Some? ==> r.value == old(zone.area)[FirstOrder(old(zone.area), order)].list[0]
    {
      ghost var m, free := zone.mem, FreePages(zone.FreeBlocks());
      r := FromZone(order);
      if r.Some? {
        HoldTaken(r.value, order, m, free);
      }
    }

    /** A block just taken from the zone, whose pages were m and free before, gets its holder. */
    method HoldTaken(page: nat, order: nat, ghost m: seq<Page>, ghost free: set<nat>)
      requires zone.Valid() && OwnersOk(zone.start, m, free, pcp, where) && SameRefs(m, zone.mem)
      requires forall j | 0 <= j < |pcp| :: pcp[j].count == |pcp[j].list|
      requires forall p | p in where :: where[p] != Freeing
      requires order < MAX_ORDER && Aligned(page, order)
      requires Block(page, order) <= free && FreePages(zone.FreeBlocks()) == free - Block(page, order)
      modifies this`where, zone`mem
      ensures Valid() && HeldBlock(where, page, order) && !zone.BadRange(page) && OneReference(page)
      ensures forall q | q in Block(page, order) :: q in old(where) && !old(where)[q].Held?
      ensures Moved(old(where), where, Block(page, order), Held(page, order))
    {
      BuddyToHeld(zone.start, m, free, pcp, where, page, order, zone.mem, FreePages(zone.FreeBlocks()));
      where := Move(where, Block(page, order), Held(page, order));
      zone.SetCount(page, 1);
      assert OwnersOk(zone.start, zone.mem, FreePages(zone.FreeBlocks()), pcp, where);
    }

    /** __free_pages: drop a reference; the last one sends the block back, a single page to the front of
        per-CPU list i and a larger block to the buddy lists. */
    method FreePagesRef(page: nat, order: nat, i: nat)
      requires Valid() && i < |pcp| && HeldBlock(where, page, order)
      modifies this, zone
      ensures Valid() && |pcp| == old(|pcp|) && !zone.BadRange(page)
      ensures old(zone.mem)[page - zone.start].count >= 1
      ensures SameRefs(SetRef(zone.start, old(zone.mem), page, old(zone.mem)[page - zone.start].count - 1), zone.mem)
      ensures old(zone.mem)[page - zone.start].count > 1 ==> where == old(where)
      ensures order > 0 || old(zone.mem)[page - zone.start].count > 1 ==> pcp == old(pcp)
      ensures old(zone.mem)[page - zone.start].count == 1 && order > 0 ==> Moved(old(where), where, Block(page, order), InBuddy)
      ensures old(zone.mem)[page - zone.start].count == 1 && order == 0 ==> HotFreed(old(pcp), pcp, old(where), where, i, page)
    {
      var c := DropRef(page, order);
      if c == 0 {
        ghost var w := where;
        if order == 0 {
          BlockZero(page);
          FreeHotColdPage(page, i);
          HotFreedBefore(old(where), w, old(pcp), pcp, where, i, page);
        } else {
          FreePagesOk(page, order);
        }
      }
    }

    /** put_page_testzero: one reference less; a block without references leaves its holder. */
    method DropRef(page: nat, order: nat) returns (c: int)
      requires Valid() && HeldBlock(where, page, order)
      modifies this`where, zone`mem
      ensures ValidBut(0, 0) && !zone.BadRange(page) && c == old(zone.mem)[page - zone.start].count - 1 >= 0
      ensures c > 0 ==> Valid() && where == old(where)
      ensures c == 0 ==> (forall p | p in Block(page, order) :: p in where && where[p] == Freeing)
      ensures c == 0 ==> (forall p | p in where && where[p] == Freeing :: p in Block(page, order))
      ensures c == 0 ==> Moved(old(where), where, Block(page, order), Freeing)
      ensures zone.mem == SetRef(zone.start, old(zone.mem), page, c)
    {
      DropOne(zone.start, zone.mem, FreePages(zone.FreeBlocks()), pcp, where, page, order);
      c := zone.mem[page - zone.start].count - 1;
      if c == 0 {
        HeldToFreeing(zone.start, zone.mem, FreePages(zone.FreeBlocks()), pcp, where, page, order);
        where := Move(where, Block(page, order), Freeing);
      }
      zone.SetCount(page, c);
      assert OwnersOk(zone.start, zone.mem, FreePages(zone.FreeBlocks()), pcp, where);
    }

    /** free_hot_cold_page: put a released page at the front of per-CPU list i. */
    method FreeHotColdPage(page: nat, i: nat)
      requires ValidBut(i, 0) && i < |pcp| && page in where && where[page] == Freeing
      requires forall p | p in where && where[p] == Freeing :: p == page
      modifies this, zone
      ensures Valid() && HotFreed(old(pcp), pcp, old(where), where, i, page)
      ensures old(pcp)[i].count < old(pcp)[i].high ==> unchanged(zone)
      ensures SameRefs(old(zone.mem), zone.mem)
    {
      MakeRoom(i, page);
      PushFront(page, i);
    }

    /** Before a page is put on list i a batch goes back if the count has reached high. */
    method MakeRoom(i: nat, ghost page: nat)
      requires ValidBut(i, 0) && i < |pcp| && page in where && where[page] == Freeing
      requires forall p | p in where && where[p] == Freeing :: p == page
      modifies this, zone
      ensures ValidBut(i, 0) && |pcp| == old(|pcp|) && page in where && where[page] == Freeing
      ensures forall p | p in where && where[p] == Freeing :: p == page
      ensures old(pcp)[i].count < old(pcp)[i].high ==> unchanged(zone)
      ensures HotFreed(old(pcp), WithFirst(pcp, i, page), old(where), Move(where, {page}, OnPcp(i)), i, page) && SameRefs(old(zone.mem), zone.mem)
    {
      if pcp[i].count >= pcp[i].high {
        assert page !in PagesIn(pcp[i].list);
        Empty(i);
      }
      HotFreedBy(old(pcp), pcp, old(where), where, i, page);
    }

    /** A released page becomes the first of per-CPU list i. */
    method PushFront(page: nat, i: nat)
      requires ValidBut(i, 0) && i < |pcp| && page in where && where[page] == Freeing
      requires forall p | p in where && where[p] == Freeing :: p == page
      modifies this`pcp, this`where
      ensures Valid() && where == Move(old(where), {page}, OnPcp(i))
      ensures pcp == WithFirst(old(pcp), i, page)
    {
      FreeingToPcp(zone.start, zone.mem, FreePages(zone.FreeBlocks()), pcp, where, page, i);
      pcp := pcp[i := pcp[i].(list := [page] + pcp[i].list, count := pcp[i].count + 1)];
      where := Move(where, {page}, OnPcp(i));
      assert OwnersOk(zone.start, zone.mem, FreePages(zone.FreeBlocks()), pcp, where);
    }

    /** __free_pages_ok: a released block goes straight to the buddy lists. */
    method FreePagesOk(page: nat, order: nat)
      requires ValidBut(0, 0) && order < MAX_ORDER && Aligned(page, order)
      requires forall p | p in Block(page, order) :: p in where && where[p] == Freeing
      requires forall p | p in where && where[p] == Freeing :: p in Block(page, order)
      modifies this, zone
      ensures Valid() && pcp == old(pcp)
      ensures Moved(old(where), where, Block(page, order), InBuddy)
      ensures SameRefs(old(zone.mem), zone.mem)
    {
      ghost var m, free := zone.mem, FreePages(zone.FreeBlocks());
      FreeingFreeable(zone.start, m, zone.FreeBlocks(), pcp, where, page, order);
      ToZone(page, order);
      assert OwnersOk(zone.start, m, free, pcp, where);
      FreeingToBuddy(zone.start, m, free, pcp, where, page, order, zone.mem, FreePages(zone.FreeBlocks()));
      where := Move(where, Block(page, order), InBuddy);
      assert OwnersOk(zone.start, zone.mem, FreePages(zone.FreeBlocks()), pcp, where);
    }
  }
}
