/** The boot allocator: a bitmap of pages, first fit, and the merging of small requests into the
    last page of the previous one.  Byte offsets are relative to the node's start. */
module Bootmem {
  import opened Bits
  import opened Lists

  /** The bitmap of n pages and a set padding bit, and the position where the last allocation ended. */
  datatype Boot = Boot(bits: seq<bool>, lastPos: nat, lastOffset: nat)

  /** Pages in the map. */
  function Pages(b: Boot): int {
    |b.bits| - 1
  }

  /** test_bit; what lies behind the padding bit reads as reserved. */
  predicate TestBit(bits: seq<bool>, i: nat) {
    i < |bits| ==> bits[i]
  }

  /** The pages from i up to j are all free. */
  ghost predicate Clear(bits: seq<bool>, i: nat, j: nat) {
    j < |bits| && forall k | i <= k < j :: !bits[k]
  }

  /** A free run of k pages starts at s. */
  ghost predicate RunFree(bits: seq<bool>, s: nat, k: nat) {
    Clear(bits, s, s + k)
  }

  /** find_next_zero_bit */
  function FindNextZero(bits: seq<bool>, n: nat, i: nat): (r: nat)
    requires i <= n < |bits|
    ensures i <= r <= n && (r < n ==> !bits[r])
    ensures forall k | i <= k < r :: bits[k]
    decreases n - i
  {
    if i == n || !bits[i] then i else FindNextZero(bits, n, i + 1)
  }

  /** The first page from j up to hi that is reserved or past the end. */
  function FirstBlocked(bits: seq<bool>, n: nat, j: nat, hi: nat): (r: nat)
    requires j <= hi && n < |bits|
    ensures j <= r <= hi && (j < r ==> r <= n)
    ensures r < hi ==> r >= n || bits[r]
    ensures forall k | j <= k < r :: !bits[k]
    decreases hi - j
  {
    if j == hi || j >= n || bits[j] then j else FirstBlocked(bits, n, j + 1, hi)
  }

  /** The next candidate from page i: the first free page, rounded up to the step. */
  function Candidate(bits: seq<bool>, i: nat, incr: nat): (z: nat)
    requires i < |bits| && IsPow2(incr)
    ensures z >= i && MultipleOf(z, incr)
  {
    AlignUpIsLeast(FindNextZero(bits, |bits| - 1, i), incr);
    AlignUp(FindNextZero(bits, |bits| - 1, i), incr)
  }

  /** Where the pass goes on after running into page j. */
  function Resume(j: nat, incr: nat): (i: nat)
    requires IsPow2(incr)
    ensures i > j
  {
    AlignUpIsLeast(j, incr);
    AlignUp(j, incr) + incr
  }

  /** One round of the search at page i: a run found, or the page to go on from. */
  datatype Round = Found(start: nat) | GoOn(next: nat)

  function SearchRound(bits: seq<bool>, i: nat, incr: nat, k: nat): (r: Round)
    requires i < |bits| - 1 && IsPow2(incr) && k > 0
    ensures r.GoOn? ==> r.next > i
  {
    var z := Candidate(bits, i, incr);
    if TestBit(bits, z) then GoOn(z + incr)
    else
      var j := FirstBlocked(bits, |bits| - 1, z + 1, z + k);
      if j == z + k then Found(z) else GoOn(Resume(j, incr))
  }

  /** One pass of the search from page i, in steps of incr, for k free pages. */
  function Scan(bits: seq<bool>, i: nat, incr: nat, k: nat): Option<nat>
    requires |bits| > 0 && IsPow2(incr) && k > 0
    decreases |bits| - i
  {
    if i >= |bits| - 1 then None
    else
      match SearchRound(bits, i, incr, k)
      case Found(z) => Some(z)
      case GoOn(next) => Scan(bits, next, incr, k)
  }

  /** The two passes: from the preferred page, then from the first aligned one. */
  function Search(bits: seq<bool>, preferred: nat, offset: nat, incr: nat, k: nat): Option<nat>
    requires |bits| > 0 && IsPow2(incr) && k > 0
  {
    var r := Scan(bits, preferred, incr, k);
    if r.Some? || preferred <= offset then r else Scan(bits, offset, incr, k)
  }

  ghost predicate FoundClear(bits: seq<bool>, r: Option<nat>, k: nat) {
    r.Some? ==> RunFree(bits, r.value, k)
  }

  /** A run found in one round is free, inside the map, and starts at a multiple of the step. */
  lemma {:induction false} RoundSound(bits: seq<bool>, i: nat, incr: nat, k: nat)
    requires i < |bits| - 1 && bits[|bits| - 1] && IsPow2(incr) && k > 0
    ensures SearchRound(bits, i, incr, k).Found? ==>
              var z := SearchRound(bits, i, incr, k).start;
              RunFree(bits, z, k) && MultipleOf(z, incr)
  {
    var z := Candidate(bits, i, incr);
    if !TestBit(bits, z) {
      assert z < |bits| - 1;
    }
  }

  /** The run that a pass finds is free and starts at a multiple of the step. */
  lemma {:induction false} ScanSound(bits: seq<bool>, i: nat, incr: nat, k: nat)
    requires |bits| > 0 && bits[|bits| - 1] && IsPow2(incr) && k > 0
    ensures FoundClear(bits, Scan(bits, i, incr, k), k)
    ensures Scan(bits, i, incr, k).Some? ==> Scan(bits, i, incr, k).value >= i && MultipleOf(Scan(bits, i, incr, k).value, incr)
    decreases |bits| - i
  {
    if i < |bits| - 1 {
      RoundSound(bits, i, incr, k);
      match SearchRound(bits, i, incr, k) {
        case Found(_) =>
        case GoOn(next) => ScanSound(bits, next, incr, k);
      }
    }
  }

  /** With steps of one page, a round that goes on has ruled out every run it passed. */
  lemma {:induction false} RoundComplete(bits: seq<bool>, i: nat, k: nat, s: nat)
    requires i < |bits| - 1 && k > 0 && SearchRound(bits, i, 1, k).GoOn?
    requires i <= s < SearchRound(bits, i, 1, k).next
    ensures !RunFree(bits, s, k)
  {
    var f := FindNextZero(bits, |bits| - 1, i);
    AlignUpFixed(f, 1);
    assert RunFree(bits, s, k) ==> !bits[s];
    if !TestBit(bits, f) {
      var j := FirstBlocked(bits, |bits| - 1, f + 1, f + k);
      AlignUpFixed(j, 1);
      assert f <= s <= j ==> !RunFree(bits, s, k);
    }
  }

  /** With steps of one page, a pass that fails leaves no free run behind. */
  lemma {:induction false} ScanComplete(bits: seq<bool>, i: nat, k: nat, s: nat)
    requires |bits| > 0 && k > 0 && Scan(bits, i, 1, k) == None
    requires i <= s
    ensures !RunFree(bits, s, k)
    decreases |bits| - i
  {
    if i < |bits| - 1 {
      var next := SearchRound(bits, i, 1, k).next;
      if s < next {
        RoundComplete(bits, i, k, s);
      } else {
        ScanComplete(bits, next, k, s);
      }
    }
  }

  /** With steps of one page, the run that a pass finds is the first free one. */
  lemma {:induction false} ScanFirst(bits: seq<bool>, i: nat, k: nat, s: nat)
    requires |bits| > 0 && k > 0 && Scan(bits, i, 1, k).Some? && i <= s < Scan(bits, i, 1, k).value
    ensures !RunFree(bits, s, k)
    decreases |bits| - i
  {
    match SearchRound(bits, i, 1, k) {
      case Found(z) =>
        var f := FindNextZero(bits, |bits| - 1, i);
        AlignUpFixed(f, 1);
        assert bits[s];
      case GoOn(next) =>
        if s < next {
          RoundComplete(bits, i, k, s);
        } else {
          ScanFirst(bits, next, k, s);
        }
    }
  }

  /** Whatever page the search starts from, it fails only if no aligned free run exists. */
  ghost predicate SearchIsComplete(incr: nat)
    requires IsPow2(incr)
  {
    forall bits: seq<bool>, preferred: nat, k: nat, s: nat |
      |bits| > 0 && k > 0 && Search(bits, preferred, 0, incr, k) == None && MultipleOf(s, incr) :: !RunFree(bits, s, k)
  }

  /** The page step of the search is align >> PAGE_SHIFT, or 1. */
  function Incr(align: nat): (r: nat)
    requires align == 0 || IsPow2(align)
    ensures IsPow2(r) && (r == 1 <==> align <= PAGE)
    ensures align > PAGE ==> align == r * PAGE
  {
    if align / PAGE != 0 then IncrIsPow2(align); align / PAGE else 1
  }

  lemma {:induction false} IncrIsPow2(align: nat)
    requires IsPow2(align) && align >= PAGE
    ensures IsPow2(align / PAGE) && align == (align / PAGE) * PAGE
  {
    assert Pow2(12) == PAGE;
    QuotientIsPow2(align, 12);
  }

  lemma {:induction false} TwiceProduct(q: nat, p: nat)
    ensures q * (2 * p) == 2 * (q * p)
  {
  }

  lemma {:induction false} QuotientIsPow2(a: nat, m: nat)
    requires IsPow2(a) && Pow2(m) <= a
    ensures IsPow2(a / Pow2(m)) && a == (a / Pow2(m)) * Pow2(m)
  {
    if m > 0 {
      QuotientIsPow2(a / 2, m - 1);
      HalfDivMod(a, Pow2(m - 1));
      var q, p := a / 2 / Pow2(m - 1), Pow2(m - 1);
      TwiceProduct(q, p);
      assert a / Pow2(m) == q && a == 2 * (a / 2);
    }
  }

  /** The search misses runs exactly for alignments above a page. */
  lemma {:induction false} CompleteIffAtMostAPage(align: nat)
    requires IsPow2(align)
    ensures SearchIsComplete(Incr(align)) <==> align <= PAGE
  {
    var incr := Incr(align);
    if incr == 1 {
      forall bits: seq<bool>, preferred: nat, k: nat, s: nat |
        |bits| > 0 && k > 0 && MultipleOf(s, incr) && Search(bits, preferred, 0, incr, k) == None
        ensures !RunFree(bits, s, k)
      {
        ScanComplete(bits, if preferred <= s then preferred else 0, k, s);
      }
    } else {
      MissedRun(incr);
    }
  }

  /** A pass that finds page 1 reserved goes on two steps further. */
  lemma {:induction false} MissedRound(bits: seq<bool>, incr: nat)
    requires IsPow2(incr) && incr > 1 && |bits| == 2 * incr + 1 && !bits[0] && bits[1]
    ensures SearchRound(bits, 0, incr, 2) == GoOn(2 * incr)
  {
    assert FindNextZero(bits, 2 * incr, 0) == 0;
    MultipleSelf(incr);
    AlignUpFixed(0, incr);
    AlignUpIsLeast(1, incr);
    MultipleAtLeast(AlignUp(1, incr), incr);
    assert Candidate(bits, 0, incr) == 0 && Resume(1, incr) == 2 * incr;
    assert FirstBlocked(bits, 2 * incr, 1, 2) == 1;
  }

  /** Two free pages at incr are missed when page 1 is reserved: the pass steps over them. */
  lemma {:induction false} MissedRun(incr: nat)
    requires IsPow2(incr) && incr > 1
    ensures !SearchIsComplete(incr)
  {
    var bits := seq(2 * incr + 1, i => i == 1 || i == 2 * incr);
    MissedRound(bits, incr);
    MultipleSelf(incr);
    assert Scan(bits, 2 * incr, incr, 2) == None;
    assert Scan(bits, 0, incr, 2) == Scan(bits, 2 * incr, incr, 2);
    assert Search(bits, 0, 0, incr, 2) == None;
    assert RunFree(bits, incr, 2);
  }
}
