/** The layout of a slab: how many objects, which page order, where the management structure goes
    and which colour offsets there are. */
module SlabGeometry {
  import opened Bits
  import opened Lists
  import SlabStore

  const MAX_GFP_ORDER: nat := 5
  const BYTES_PER_WORD: nat := 4
  const CACHE_LINE: nat := 32
  const SIZEOF_SLAB: nat := 24      // struct slab on a 32-bit machine
  const SIZEOF_BUFCTL: nat := 4
  const OFF_SLAB_MIN: nat := 512    // PAGE_SIZE >> 3

  /** The bytes of a slab of an order. */
  function SlabBytes(order: nat): (r: nat)
    ensures r >= PAGE
  {
    if order == 0 then PAGE else 2 * SlabBytes(order - 1)
  }

  /** The management structure of n objects before it is aligned: nothing when it is off-slab. */
  function MgmtBytes(n: nat, off: bool): nat {
    if off then 0 else SIZEOF_SLAB + n * SIZEOF_BUFCTL
  }

  /** The space that n objects take. */
  function Needed(n: nat, size: nat, align: nat, off: bool): nat
    requires IsPow2(align)
  {
    n * size + AlignUp(MgmtBytes(n, off), align)
  }

  predicate Fits(n: nat, size: nat, align: nat, off: bool, bytes: nat)
    requires IsPow2(align)
  {
    Needed(n, size, align, off) <= bytes
  }

  lemma {:induction false} AlignUpMonotone(x: nat, y: nat, a: nat)
    requires IsPow2(a) && x <= y
    ensures x <= AlignUp(x, a) <= AlignUp(y, a)
  {
    AlignUpIsLeast(x, a);
    AlignUpIsLeast(y, a);
  }

  lemma {:induction false} NeededGrows(m: nat, n: nat, size: nat, align: nat, off: bool)
    requires IsPow2(align) && m <= n
    ensures Needed(m, size, align, off) <= Needed(n, size, align, off)
    ensures n * size <= Needed(n, size, align, off)
    ensures size > 0 ==> n <= n * size
  {
    MulMonotone(m, n, size);
    if size > 0 {
      MulMonotone(1, size, n);
    }
    AlignUpMonotone(MgmtBytes(m, off), MgmtBytes(n, off), align);
  }

  /** n is the number of objects a slab of that many bytes can have. */
  predicate IsCount(n: nat, size: nat, align: nat, off: bool, bytes: nat)
    requires IsPow2(align)
  {
    (n > 0 ==> Fits(n, size, align, off, bytes)) && !Fits(n + 1, size, align, off, bytes)
  }

  /** Such a number is the largest that fits, so there is only one. */
  lemma {:induction false} CountIsLargest(n: nat, size: nat, align: nat, off: bool, bytes: nat, m: nat)
    requires IsPow2(align) && IsCount(n, size, align, off, bytes) && m > 0
    ensures Fits(m, size, align, off, bytes) <==> m <= n
  {
    if m <= n {
      NeededGrows(m, n, size, align, off);
    } else {
      NeededGrows(n + 1, m, size, align, off);
    }
  }

  /** The loop of cache_estimate: the first number of objects that does not fit. */
  method FirstTooMany(size: nat, align: nat, off: bool, bytes: nat) returns (i: nat)
    requires size > 0 && IsPow2(align)
    ensures !Fits(i, size, align, off, bytes) && (i > 0 ==> Fits(i - 1, size, align, off, bytes))
  {
    i := 0;
    while i * size + AlignUp(MgmtBytes(i, off), align) <= bytes
      invariant i > 0 ==> Fits(i - 1, size, align, off, bytes)
      decreases bytes + 1 - i
    {
      NeededGrows(i, i, size, align, off);
      i := i + 1;
    }
  }

  /** cache_estimate: the count and the bytes left over, the latter as a 32-bit number. */
  method CacheEstimate(order: nat, size: nat, align: nat, off: bool) returns (leftOver: nat, num: nat)
    requires order <= MAX_GFP_ORDER && size > 0 && IsPow2(align)
    ensures IsCount(num, size, align, off, SlabBytes(order))
    ensures num > 0 ==> leftOver == SlabBytes(order) - Needed(num, size, align, off)
  {
    var wastage := SlabBytes(order);
    SmallEnough(order);
    var i := FirstTooMany(size, align, off, wastage);
    LoopEnd(i, size, align, off, wastage);
    if i > 0 {
      i := i - 1;
    }
    if i > SlabStore.SLAB_LIMIT {
      i := SlabStore.SLAB_LIMIT;
    }
    num := i;
    leftOver := (wastage - i * size - AlignUp(MgmtBytes(i, off), align)) % WORD;
  }

  /** i is the first number for which the loop stops. */
  lemma {:induction false} LoopEnd(i: nat, size: nat, align: nat, off: bool, bytes: nat)
    requires size > 0 && IsPow2(align) && !Fits(i, size, align, off, bytes) && (i > 0 ==> Fits(i - 1, size, align, off, bytes))
    ensures IsCount(if i > 0 then i - 1 else 0, size, align, off, bytes) && i <= bytes + 1
  {
    if i == 0 {
      NeededGrows(0, 1, size, align, off);
    } else {
      NeededGrows(i - 1, i - 1, size, align, off);
    }
  }

  lemma {:induction false} SmallEnough(order: nat)
    requires order <= MAX_GFP_ORDER
    ensures SlabBytes(order) <= 32 * PAGE
  {
    BytesGrow(order, MAX_GFP_ORDER);
    assert SlabBytes(1) == 2 * PAGE && SlabBytes(2) == 4 * PAGE && SlabBytes(3) == 8 * PAGE && SlabBytes(4) == 16 * PAGE;
  }

  // ----- the search for the order

  /** An order whose n objects are acceptable to the search. */
  predicate Acceptable(order: nat, n: nat, size: nat, align: nat, off: bool, offslabLimit: nat, slabBreak: nat)
    requires IsPow2(align)
  {
    && n > 0
    && (off ==> n <= offslabLimit)
    && (order >= slabBreak || (SlabBytes(order) - Needed(n, size, align, off)) * 8 <= SlabBytes(order))
  }

  /** No order below this one is acceptable, and none of them has too many objects. */
  ghost predicate LowerRejected(order: nat, size: nat, align: nat, off: bool, offslabLimit: nat, slabBreak: nat)
    requires IsPow2(align)
  {
    forall o: nat, n: nat {:trigger IsCount(n, size, align, off, SlabBytes(o))} |
      o < order && IsCount(n, size, align, off, SlabBytes(o)) ::
      !Acceptable(o, n, size, align, off, offslabLimit, slabBreak) && (off ==> n <= offslabLimit)
  }

  /** An off-slab cache would have more objects than a bufctl array in a general cache can manage. */
  ghost predicate TooMany(order: nat, size: nat, align: nat, offslabLimit: nat)
    requires IsPow2(align)
  {
    exists n: nat {:trigger IsCount(n, size, align, true, SlabBytes(order))} ::
      n > offslabLimit && IsCount(n, size, align, true, SlabBytes(order))
  }

  /** A page never holds more objects of an off-slab cache than eight, so the order never goes below zero. */
  lemma {:induction false} PageIsEnough(n: nat, size: nat, align: nat)
    requires IsPow2(align) && size >= OFF_SLAB_MIN && IsCount(n, size, align, true, SlabBytes(0))
    ensures n <= 8
  {
    NeededGrows(n, n, size, align, true);
    MulMonotone(OFF_SLAB_MIN, size, n);
  }

  lemma {:induction false} OffNeeded(n: nat, size: nat, align: nat)
    requires IsPow2(align)
    ensures Needed(n, size, align, true) == n * size
  {
    AlignUpIsLeast(0, align);
    MultipleSelf(align);
  }

  /** Twice the bytes hold about twice the off-slab objects. */
  lemma {:induction false} HalfCount(m: nat, n: nat, size: nat, align: nat, order: nat)
    requires IsPow2(align) && size > 0 && order > 0
    requires IsCount(m, size, align, true, SlabBytes(order - 1)) && IsCount(n, size, align, true, SlabBytes(order))
    ensures n / 2 <= m && n <= 2 * m + 1
  {
    OffNeeded(n, size, align);
    OffNeeded(m + 1, size, align);
    assert (m + 1) * size > SlabBytes(order - 1);
    assert (2 * m + 2) * size == 2 * ((m + 1) * size);
    if n >= 2 * m + 2 {
      MulMonotone(2 * m + 2, n, size);
    }
  }

  /** The loop of kmem_cache_create that looks for an order. */
  method ChooseOrder(size: nat, align: nat, off: bool, offslabLimit: nat, slabBreak: nat) returns (order: nat, leftOver: nat, num: nat)
    requires size > 0 && IsPow2(align) && (off ==> size >= OFF_SLAB_MIN && offslabLimit >= 8) && slabBreak <= 1
    ensures order <= MAX_GFP_ORDER && IsCount(num, size, align, off, SlabBytes(order))
    ensures num > 0 ==> leftOver == SlabBytes(order) - Needed(num, size, align, off)
    ensures num == 0 <==> !Fits(1, size, align, off, SlabBytes(MAX_GFP_ORDER))
    ensures off ==> num <= offslabLimit
    ensures LowerRejected(order, size, align, off, offslabLimit, slabBreak)
    ensures Acceptable(order, num, size, align, off, offslabLimit, slabBreak) || order == MAX_GFP_ORDER
            || (off && TooMany(order + 1, size, align, offslabLimit))
  {
    order := 0;
    var breakFlag := false;
    while true
      invariant order <= MAX_GFP_ORDER && LowerRejected(order, size, align, off, offslabLimit, slabBreak)
      invariant breakFlag ==> order < MAX_GFP_ORDER && off
      invariant breakFlag ==> TooMany(order + 1, size, align, offslabLimit)
      invariant breakFlag ==> LowerRejected(order + 1, size, align, off, offslabLimit, slabBreak)
      decreases if breakFlag then 0 else 1 + MAX_GFP_ORDER - order
    {
      leftOver, num := CacheEstimate(order, size, align, off);
      if breakFlag {
        WentBack(order, num, size, align, offslabLimit, slabBreak);
        break;
      }
      if order >= MAX_GFP_ORDER {
        AtMaximum(num, size, align, off, offslabLimit, slabBreak);
        break;
      }
      if num != 0 {
        if off && num > offslabLimit {
          if order == 0 {
            PageIsEnough(num, size, align);
          }
          order := order - 1;
          breakFlag := true;
          continue;
        }
        if order >= slabBreak || leftOver * 8 <= SlabBytes(order) {
          LargerFits(order, num, size, align, off);
          break;
        }
      }
      NextRejected(order, num, size, align, off, offslabLimit, slabBreak);
      order := order + 1;
    }
  }

  lemma {:induction false} NextRejected(order: nat, num: nat, size: nat, align: nat, off: bool, offslabLimit: nat, slabBreak: nat)
    requires IsPow2(align) && LowerRejected(order, size, align, off, offslabLimit, slabBreak)
    requires IsCount(num, size, align, off, SlabBytes(order))
    requires !Acceptable(order, num, size, align, off, offslabLimit, slabBreak) && (off ==> num <= offslabLimit)
    ensures LowerRejected(order + 1, size, align, off, offslabLimit, slabBreak)
  {
    forall o: nat, n: nat | o < order + 1 && IsCount(n, size, align, off, SlabBytes(o))
      ensures !Acceptable(o, n, size, align, off, offslabLimit, slabBreak) && (off ==> n <= offslabLimit)
    {
      if o == order {
        SameCount(num, n, size, align, off, SlabBytes(order));
      }
    }
  }

  lemma {:induction false} SameCount(m: nat, n: nat, size: nat, align: nat, off: bool, bytes: nat)
    requires IsPow2(align) && IsCount(m, size, align, off, bytes) && IsCount(n, size, align, off, bytes)
    ensures m == n
  {
    if m > 0 {
      CountIsLargest(n, size, align, off, bytes, m);
    }
    if n > 0 {
      CountIsLargest(m, size, align, off, bytes, n);
    }
  }

  lemma {:induction false} LargerFits(order: nat, num: nat, size: nat, align: nat, off: bool)
    requires IsPow2(align) && order <= MAX_GFP_ORDER && IsCount(num, size, align, off, SlabBytes(order)) && num > 0
    ensures Fits(1, size, align, off, SlabBytes(MAX_GFP_ORDER))
  {
    CountIsLargest(num, size, align, off, SlabBytes(order), 1);
    BytesGrow(order, MAX_GFP_ORDER);
  }

  lemma {:induction false} BytesGrow(a: nat, b: nat)
    requires a <= b
    ensures SlabBytes(a) <= SlabBytes(b)
  {
    if a < b {
      BytesGrow(a, b - 1);
    }
  }

  /** The order below one with too many objects has some, and not too many. */
  lemma {:induction false} WentBack(order: nat, num: nat, size: nat, align: nat, offslabLimit: nat, slabBreak: nat)
    requires size > 0 && IsPow2(align) && order < MAX_GFP_ORDER && offslabLimit >= 8
    requires IsCount(num, size, align, true, SlabBytes(order))
    requires TooMany(order + 1, size, align, offslabLimit)
    requires LowerRejected(order + 1, size, align, true, offslabLimit, slabBreak)
    ensures 0 < num <= offslabLimit && Fits(1, size, align, true, SlabBytes(MAX_GFP_ORDER))
  {
    var n: nat :| n > offslabLimit && IsCount(n, size, align, true, SlabBytes(order + 1));
    HalfCount(num, n, size, align, order + 1);
    LargerFits(order, num, size, align, true);
  }

  /** There is a count for every size. */
  lemma {:induction false} CountFrom(n: nat, size: nat, align: nat, off: bool, bytes: nat) returns (m: nat)
    requires size > 0 && IsPow2(align) && (n > 0 ==> Fits(n, size, align, off, bytes))
    ensures IsCount(m, size, align, off, bytes)
    decreases bytes + 1 - n
  {
    if Fits(n + 1, size, align, off, bytes) {
      NeededGrows(n + 1, n + 1, size, align, off);
      m := CountFrom(n + 1, size, align, off, bytes);
    } else {
      m := n;
    }
  }

  /** At the largest order a count above one means that half of it was possible one order below. */
  lemma {:induction false} AtMaximum(num: nat, size: nat, align: nat, off: bool, offslabLimit: nat, slabBreak: nat)
    requires size > 0 && IsPow2(align) && (off ==> offslabLimit >= 8) && slabBreak <= 1
    requires IsCount(num, size, align, off, SlabBytes(MAX_GFP_ORDER))
    requires LowerRejected(MAX_GFP_ORDER, size, align, off, offslabLimit, slabBreak)
    ensures num == 0 <==> !Fits(1, size, align, off, SlabBytes(MAX_GFP_ORDER))
    ensures off ==> num <= offslabLimit
  {
    CountIsLargest(num, size, align, off, SlabBytes(MAX_GFP_ORDER), 1);
    if off {
      var m := CountFrom(0, size, align, true, SlabBytes(MAX_GFP_ORDER - 1));
      HalfCount(m, num, size, align, MAX_GFP_ORDER);
    }
  }

  // ----- the layout

  datatype Layout = Layout(order: nat, num: nat, size: nat, align: nat, off: bool, slabSize: nat, colour: nat, colourOff: nat)

  /** alloc_slabmgmt: where the objects begin in a slab of colour k, relative to its memory. */
  function FirstObject(l: Layout, k: nat): nat {
    k * l.colourOff + if l.off then 0 else l.slabSize
  }

  function ObjectAt(l: Layout, k: nat, i: nat): nat {
    FirstObject(l, k) + i * l.size
  }

  /** free_block: the number of an object from its address. */
  function ObjectNr(l: Layout, k: nat, at: int): int
    requires l.size > 0
  {
    (at - FirstObject(l, k)) / l.size
  }

  /** What every colour of a layout guarantees. */
  ghost predicate LayoutOk(l: Layout) {
    && l.order <= MAX_GFP_ORDER && l.num > 0 && l.size > 0
    && IsPow2(l.align) && MultipleOf(l.size, l.align)
    && IsPow2(l.colourOff) && l.colourOff >= l.align && l.colourOff >= CACHE_LINE
    && l.slabSize >= SIZEOF_SLAB + l.num * SIZEOF_BUFCTL
    && (!l.off ==> MultipleOf(l.slabSize, l.align))
    && l.num * l.size + (if l.off then 0 else l.slabSize) + l.colour * l.colourOff <= SlabBytes(l.order)
  }

  lemma {:induction false} MultipleScale(i: nat, x: nat, a: nat)
    requires IsPow2(a) && MultipleOf(x, a)
    ensures i * x >= 0 && MultipleOf(i * x, a)
  {
    if i == 0 {
      MultipleSelf(a);
    } else {
      MultipleScale(i - 1, x, a);
      MultipleAdd((i - 1) * x, x, a);
      assert (i - 1) * x + x == i * x;
    }
  }

  lemma {:induction false} ColourOffset(l: Layout, k: nat)
    requires LayoutOk(l) && k < SlabStore.Colours(l.colour)
    ensures 0 <= k * l.colourOff <= l.colour * l.colourOff && MultipleOf(k * l.colourOff, l.align)
  {
    MultipleTimes(k, l.colourOff);
    MultipleTrans(k * l.colourOff, l.colourOff, l.align);
    MulMonotone(k, l.colour, l.colourOff);
  }

  lemma {:induction false} NextObject(i: nat, n: nat, size: nat)
    requires i < n
    ensures i * size + size <= n * size
  {
    MulMonotone(i + 1, n, size);
    assert (i + 1) * size == i * size + size;
  }

  lemma {:induction false} SumOfParts(colour: int, mgmt: int, before: int, size: int, objects: int, colours: int, bytes: int)
    requires 0 <= colour <= colours && 0 <= mgmt && 0 <= before && before + size <= objects && objects + mgmt + colours <= bytes
    ensures colour + mgmt + before + size <= bytes && colour + mgmt <= colour + mgmt + before
  {
  }

  lemma {:induction false} ObjectAligned(l: Layout, k: nat, i: nat)
    requires LayoutOk(l) && k < SlabStore.Colours(l.colour) && i < l.num
    ensures MultipleOf(ObjectAt(l, k, i), l.align)
  {
    ColourOffset(l, k);
    var first := FirstObject(l, k);
    assert MultipleOf(first, l.align) by {
      if !l.off {
        MultipleAdd(k * l.colourOff, l.slabSize, l.align);
      }
    }
    MultipleScale(i, l.size, l.align);
    MultipleAdd(first, i * l.size, l.align);
  }

  /** In a slab of any colour every object is aligned and, with the management structure if it is
      on-slab, inside the slab's pages; the management structure lies before the objects. */
  lemma {:induction false} ObjectsInside(l: Layout, k: nat, i: nat)
    requires LayoutOk(l) && k < SlabStore.Colours(l.colour) && i < l.num
    ensures MultipleOf(ObjectAt(l, k, i), l.align)
    ensures ObjectAt(l, k, i) + l.size <= SlabBytes(l.order)
    ensures !l.off ==> k * l.colourOff + SIZEOF_SLAB + l.num * SIZEOF_BUFCTL <= ObjectAt(l, k, i)
  {
    ObjectAligned(l, k, i);
    ColourOffset(l, k);
    NextObject(i, l.num, l.size);
    MulMonotone(0, i, l.size);
    SumOfParts(k * l.colourOff, if l.off then 0 else l.slabSize, i * l.size, l.size, l.num * l.size, l.colour * l.colourOff,
               SlabBytes(l.order));
  }

  /** Different objects of a slab do not overlap. */
  lemma {:induction false} ObjectsDisjoint(l: Layout, k: nat, i: nat, j: nat)
    requires LayoutOk(l) && i < j < l.num
    ensures ObjectAt(l, k, i) + l.size <= ObjectAt(l, k, j)
  {
    NextObject(i, j, l.size);
  }

  /** The number of an object is found again from any address inside it. */
  lemma {:induction false} ObjectNrOf(l: Layout, k: nat, i: nat, b: nat)
    requires LayoutOk(l) && b < l.size
    ensures ObjectNr(l, k, ObjectAt(l, k, i) + b) == i
  {
    DivModUnique(i * l.size + b, l.size, i, b);
  }

  // ----- kmem_cache_create

  /** The alignment of the objects of a cache. */
  method FinalAlign(size: nat, hwAlign: bool, align: nat) returns (ralign: nat)
    requires size >= BYTES_PER_WORD && (align == 0 || IsPow2(align))
    ensures IsPow2(ralign) && ralign >= align && ralign >= BYTES_PER_WORD
    ensures ralign > BYTES_PER_WORD && ralign > align ==> hwAlign && ralign <= CACHE_LINE && 2 * size > ralign
    ensures hwAlign && ralign < CACHE_LINE ==> size <= ralign
  {
    if hwAlign {
      ralign := CACHE_LINE;
      while size <= ralign / 2
        invariant IsPow2(ralign) && BYTES_PER_WORD <= ralign <= CACHE_LINE
        invariant ralign < CACHE_LINE ==> size <= ralign
      {
        ralign := ralign / 2;
      }
    } else {
      ralign := BYTES_PER_WORD;
    }
    if ralign < align {
      ralign := align;
    }
  }

  /** The size in whole words. */
  method WordSize(size: nat) returns (r: nat)
    ensures r == AlignUp(size, BYTES_PER_WORD)
  {
    r := size;
    if And(r, BYTES_PER_WORD - 1) != 0 {
      r := r + (BYTES_PER_WORD - 1);
      r := AndNot(r, BYTES_PER_WORD - 1);
    } else {
      WordAligned(size);
    }
  }

  lemma {:induction false} WordAligned(size: nat)
    requires And(size, BYTES_PER_WORD - 1) == 0
    ensures AlignUp(size, BYTES_PER_WORD) == size
  {
    AlignedTest(size, 2);
    assert Pow2(2) == 4;
    assert MultipleOf(size, 4);
    AlignUpFixed(size, 4);
  }

  /** Object size, alignment and whether the management structure would start off-slab. */
  datatype Shape = Shape(size: nat, align: nat, off: bool)

  /** The alignment is the largest of a word, the caller's alignment and, if that is asked for, a cache line, halved
      as long as two objects fit; the size is the least multiple of it; objects of OFF_SLAB_MIN bytes, in whole
      words, or more start off-slab. */
  ghost predicate ShapeOk(sh: Shape, size: nat, align: nat, hwAlign: bool) {
    && IsPow2(sh.align) && sh.align >= align && sh.align >= BYTES_PER_WORD
    && (sh.align > BYTES_PER_WORD && sh.align > align ==> hwAlign && sh.align <= CACHE_LINE && 2 * size > sh.align)
    && (hwAlign && sh.align < CACHE_LINE ==> size <= sh.align)
    && MultipleOf(sh.size, sh.align) && 0 < size <= sh.size < size + sh.align
    && (sh.off <==> size > OFF_SLAB_MIN - BYTES_PER_WORD)
  }

  method ObjectShape(size: nat, align: nat, hwAlign: bool) returns (sh: Shape)
    requires size >= BYTES_PER_WORD && (align == 0 || IsPow2(align))
    ensures ShapeOk(sh, size, align, hwAlign) && (sh.off ==> sh.size >= OFF_SLAB_MIN)
  {
    var words := WordSize(size);
    Words(size, words);
    var a := FinalAlign(words, hwAlign, align);
    AlignUpIsLeast(words, a);
    WholeWords(size, words, a, AlignUp(words, a));
    sh := Shape(AlignUp(words, a), a, words >= OFF_SLAB_MIN);
  }

  lemma {:induction false} Words(size: nat, words: nat)
    requires words == AlignUp(size, BYTES_PER_WORD)
    ensures words % 4 == 0 && size <= words < size + 4
  {
    Pow2IsPow2(2);
    AlignUpIsLeast(size, BYTES_PER_WORD);
    MultipleIsMod(words, BYTES_PER_WORD);
  }

  /** Rounding up to words first makes no difference. */
  lemma {:induction false} WholeWords(size: nat, words: nat, a: nat, r: nat)
    requires words % 4 == 0 && size <= words < size + 4 && IsPow2(a) && a >= BYTES_PER_WORD
    requires MultipleOf(r, a) && words <= r < words + a
    ensures r < size + a && (a > BYTES_PER_WORD && 2 * words > a ==> 2 * size > a) && (words <= a <==> size <= a)
  {
    Pow2IsPow2(2);
    MultipleTrans(r, a, BYTES_PER_WORD);
    MultipleIsMod(r, BYTES_PER_WORD);
    MultipleSelf(a);
    MultipleTrans(a, a, BYTES_PER_WORD);
    MultipleIsMod(a, BYTES_PER_WORD);
    if a > BYTES_PER_WORD {
      MultipleSelf(a / 2);
      MultipleTrans(a / 2, a / 2, BYTES_PER_WORD);
      MultipleIsMod(a / 2, BYTES_PER_WORD);
      assert a == 2 * (a / 2);
    }
  }

  /** The sizing part of kmem_cache_create.  It fails exactly when one object does not fit in a slab
      of the largest order it may use. */
  method CreateLayout(size: nat, align: nat, hwAlign: bool, reclaim: bool, offslabLimit: nat, slabBreak: nat)
    returns (l: Option<Layout>, ghost sh: Shape)
    requires BYTES_PER_WORD <= size <= SlabBytes(MAX_GFP_ORDER) && (align == 0 || IsPow2(align))
    requires offslabLimit >= 8 && slabBreak <= 1
    ensures ShapeOk(sh, size, align, hwAlign)
    ensures l.None? <==> !Fits(1, sh.size, sh.align, sh.off, SlabBytes(if reclaim && sh.size <= PAGE then 0 else MAX_GFP_ORDER))
    ensures l.Some? ==> LayoutOk(l.value) && l.value.size == sh.size && l.value.align == sh.align
    ensures l.Some? ==> IsCount(l.value.num, sh.size, sh.align, sh.off, SlabBytes(l.value.order))
    ensures l.Some? && l.value.off ==> sh.off && l.value.slabSize <= SIZEOF_SLAB + offslabLimit * SIZEOF_BUFCTL
    ensures l.Some? ==> Placed(l.value, sh.off)
    ensures l.Some? && reclaim && sh.size <= PAGE ==> l.value.order == 0
    ensures l.Some? && !(reclaim && sh.size <= PAGE) ==>
              OrderChosen(l.value.order, l.value.num, sh.size, sh.align, sh.off, offslabLimit, slabBreak)
  {
    var s := ObjectShape(size, align, hwAlign);
    sh := s;
    var order, leftOver, num := 0, 0, 0;
    if reclaim && s.size <= PAGE {
      leftOver, num := CacheEstimate(0, s.size, s.align, s.off);
      CountIsLargest(num, s.size, s.align, s.off, SlabBytes(0), 1);
      if s.off {
        PageIsEnough(num, s.size, s.align);
      }
    } else {
      order, leftOver, num := ChooseOrder(s.size, s.align, s.off, offslabLimit, slabBreak);
    }
    if num == 0 {
      return None, sh;
    }
    var made := PlaceManagement(s, order, num, leftOver);
    l := Some(made);
  }

  /** No smaller order was acceptable, and this one is, or there is no other choice. */
  ghost predicate OrderChosen(order: nat, num: nat, size: nat, align: nat, off: bool, offslabLimit: nat, slabBreak: nat)
    requires IsPow2(align)
  {
    && LowerRejected(order, size, align, off, offslabLimit, slabBreak)
    && (Acceptable(order, num, size, align, off, offslabLimit, slabBreak) || order == MAX_GFP_ORDER
        || (off && TooMany(order + 1, size, align, offslabLimit)))
  }

  /** The management structure stays off-slab only when it began there and does not fit behind the objects;
      it takes no more than it needs; the colours use up what is left over. */
  ghost predicate Placed(l: Layout, off: bool) {
    var mgmt := SIZEOF_SLAB + l.num * SIZEOF_BUFCTL;
    && IsPow2(l.align)
    && (l.off <==> off && l.num * l.size + AlignUp(mgmt, l.align) > SlabBytes(l.order))
    && l.slabSize == (if l.off then mgmt else AlignUp(mgmt, l.align))
    && l.colourOff == (if l.align > CACHE_LINE then l.align else CACHE_LINE)
    && SlabBytes(l.order) < l.num * l.size + (if l.off then 0 else l.slabSize) + l.colour * l.colourOff + l.colourOff
  }

  /** Where the management structure goes, and the colours. */
  method PlaceManagement(s: Shape, order: nat, num: nat, left: nat) returns (l: Layout)
    requires s.size > 0 && IsPow2(s.align) && MultipleOf(s.size, s.align) && order <= MAX_GFP_ORDER && num > 0
    requires Fits(num, s.size, s.align, s.off, SlabBytes(order))
    requires left == SlabBytes(order) - Needed(num, s.size, s.align, s.off)
    ensures LayoutOk(l) && l.size == s.size && l.align == s.align && l.order == order && l.num == num
    ensures l.off <==> s.off && left < AlignUp(SIZEOF_SLAB + num * SIZEOF_BUFCTL, s.align)
    ensures Placed(l, s.off)
  {
    var leftOver, off := left, s.off;
    var slabSize := AlignUp(num * SIZEOF_BUFCTL + SIZEOF_SLAB, s.align);
    AlignUpIsLeast(num * SIZEOF_BUFCTL + SIZEOF_SLAB, s.align);
    if s.off {
      OffNeeded(num, s.size, s.align);
    }
    if off && leftOver >= slabSize {
      off := false;
      leftOver := leftOver - slabSize;
    }
    if off {
      slabSize := num * SIZEOF_BUFCTL + SIZEOF_SLAB;
    }
    assert num * s.size + (if off then 0 else slabSize) + leftOver == SlabBytes(order);
    var colour, colourOff := ColourRange(leftOver, s.align);
    l := Layout(order, num, s.size, s.align, off, slabSize, colour, colourOff);
  }

  lemma {:induction false} CacheLineIsPow2()
    ensures IsPow2(CACHE_LINE)
  {
    Pow2IsPow2(5);
  }

  lemma {:induction false} DivBounds(x: nat, d: nat)
    requires d > 0
    ensures x / d * d <= x < x / d * d + d
  {
    var q, r := x / d, x % d;
    assert x == q * d + r && 0 <= r < d;
  }

  /** The colour offset is a whole number of cache lines and of alignments. */
  method ColourRange(leftOver: nat, align: nat) returns (colour: nat, colourOff: nat)
    requires IsPow2(align)
    ensures IsPow2(colourOff) && colourOff == if align > CACHE_LINE then align else CACHE_LINE
    ensures colour * colourOff <= leftOver < colour * colourOff + colourOff
  {
    CacheLineIsPow2();
    colourOff := CACHE_LINE;
    if colourOff < align {
      colourOff := align;
    }
    colour := leftOver / colourOff;
    DivBounds(leftOver, colourOff);
  }
}
