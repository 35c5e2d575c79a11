/** The persistent kmap pool: the page table of the slots, the hash table from pages to addresses,
    and the scan for a slot.  Each method is one stretch of code under the kmap lock. */
module Pkmap {
  import opened Bits
  import opened Lists
  import opened KmapProtocol

  const BUCKETS: nat := 128

  /** page_address_map */
  datatype Entry = Entry(page: nat, virt: nat)

  /** PKMAP_ADDR and PKMAP_NR */
  function SlotAddr(base: nat, nr: nat): nat {
    base + nr * PAGE
  }

  function SlotNr(base: nat, virt: nat): int {
    (virt - base) / PAGE
  }

  /** The page at position k of a bucket. */
  function PageOf(ent: seq<Entry>, bucket: seq<nat>, k: nat): nat
    requires k < |bucket| && bucket[k] < |ent|
  {
    ent[bucket[k]].page
  }

  /** Bucket b lists one entry for each page of the table that hashes to b, and nothing else. */
  ghost predicate BucketOk(base: nat, hash: nat -> nat, ent: seq<Entry>, pool: seq<nat>, bucket: seq<nat>, b: nat, addr: map<nat, nat>) {
    && (forall k | 0 <= k < |bucket| :: bucket[k] < |ent| && bucket[k] !in pool)
    && (forall k | 0 <= k < |bucket| ::
          && PageOf(ent, bucket, k) in addr && hash(PageOf(ent, bucket, k)) % BUCKETS == b
          && ent[bucket[k]].virt == SlotAddr(base, addr[PageOf(ent, bucket, k)]))
    && (forall j, k | 0 <= j < k < |bucket| :: PageOf(ent, bucket, j) != PageOf(ent, bucket, k))
    && (forall p | p in addr && hash(p) % BUCKETS == b :: exists k :: 0 <= k < |bucket| && PageOf(ent, bucket, k) == p)
  }

  ghost function PageAt(ent: seq<Entry>, e: nat): nat
    requires e < |ent|
  {
    ent[e].page
  }

  /** Entries outside the pool stand for different mapped pages. */
  ghost predicate Linked(ent: seq<Entry>, pool: seq<nat>, addr: map<nat, nat>) {
    && (forall e {:trigger PageAt(ent, e)} | 0 <= e < |ent| && e !in pool :: PageAt(ent, e) in addr)
    && (forall d, e {:trigger PageAt(ent, d), PageAt(ent, e)} | 0 <= d < e < |ent| && d !in pool && e !in pool ::
          PageAt(ent, d) != PageAt(ent, e))
  }

  /** The hash table represents addr, and the rest of the entries is in the pool. */
  ghost predicate HashOk(base: nat, hash: nat -> nat, ent: seq<Entry>, pool: seq<nat>, buckets: seq<seq<nat>>, addr: map<nat, nat>) {
    && |ent| == LAST_PKMAP && |buckets| == BUCKETS
    && NoDup(pool) && (forall e | e in pool :: e < LAST_PKMAP)
    && Linked(ent, pool, addr)
    && forall b {:trigger BucketOk(base, hash, ent, pool, buckets[b], b, addr)} | 0 <= b < BUCKETS :: BucketOk(base, hash, ent, pool, buckets[b], b, addr)
  }

  /** Each mapped page is in the pte of its slot, and no other pte is set. */
  ghost predicate PteOk(pte: seq<Option<nat>>, addr: map<nat, nat>) {
    && |pte| == LAST_PKMAP
    && (forall p | p in addr :: addr[p] < LAST_PKMAP && pte[addr[p]] == Some(p))
    && (forall i | 0 <= i < LAST_PKMAP && pte[i].Some? :: pte[i].value in addr && addr[pte[i].value] == i)
  }

  lemma {:induction false} SlotIsEmpty(s: State, pte: seq<Option<nat>>, i: nat)
    requires TableOk(s) && PteOk(pte, s.addr) && i < LAST_PKMAP && s.count[i] == 0
    ensures pte[i].None?
  {
  }

  lemma {:induction false} AddPte(pte: seq<Option<nat>>, addr: map<nat, nat>, p: nat, i: nat)
    requires PteOk(pte, addr) && i < LAST_PKMAP && pte[i].None? && p !in addr
    ensures PteOk(pte[i := Some(p)], addr[p := i])
  {
  }

  /** Taking the entry of page p out of its bucket and back into the pool. */
  lemma {:induction false} RemoveOk(base: nat, hash: nat -> nat, ent: seq<Entry>, pool: seq<nat>, buckets: seq<seq<nat>>,
                                    addr: map<nat, nat>, p: nat, b: nat, k: nat)
    requires HashOk(base, hash, ent, pool, buckets, addr) && p in addr && b == hash(p) % BUCKETS
    requires BucketOk(base, hash, ent, pool, buckets[b], b, addr) && k < |buckets[b]| && PageOf(ent, buckets[b], k) == p
    ensures HashOk(base, hash, ent, pool + [buckets[b][k]], buckets[b := buckets[b][..k] + buckets[b][k + 1..]], addr - {p})
  {
    var e := buckets[b][k];
    var pool', addr' := pool + [e], addr - {p};
    var l := buckets[b][..k] + buckets[b][k + 1..];
    var buckets' := buckets[b := l];
    assert Linked(ent, pool', addr') by {
      assert PageAt(ent, e) == p;
    }
    forall c | 0 <= c < BUCKETS
      ensures BucketOk(base, hash, ent, pool', buckets'[c], c, addr')
    {
      assert BucketOk(base, hash, ent, pool, buckets[c], c, addr);
      if c == b {
        RemoveBucket(base, hash, ent, pool, buckets[b], b, addr, k);
      } else {
        forall j | 0 <= j < |buckets[c]|
          ensures buckets[c][j] != e
        {
          assert hash(PageOf(ent, buckets[c], j)) % BUCKETS == c;
        }
      }
    }
  }

  /** Entry j of what is left of a bucket without its entry k. */
  lemma {:induction false} WithoutEntry(bucket: seq<nat>, k: nat, j: nat)
    requires k < |bucket| && j < |bucket| - 1
    ensures (bucket[..k] + bucket[k + 1..])[j] == bucket[if j < k then j else j + 1]
  {
  }

  /** The entry taken out does not occur in the rest of its bucket, nor does its page. */
  lemma {:induction false} RestOfBucket(base: nat, hash: nat -> nat, ent: seq<Entry>, pool: seq<nat>, bucket: seq<nat>, b: nat,
                                        addr: map<nat, nat>, k: nat, j: nat)
    requires BucketOk(base, hash, ent, pool, bucket, b, addr) && k < |bucket| && j < |bucket| - 1
    ensures var l := bucket[..k] + bucket[k + 1..];
            && l[j] < |ent| && l[j] !in pool + [bucket[k]] && PageOf(ent, l, j) != PageOf(ent, bucket, k)
            && PageOf(ent, l, j) == PageOf(ent, bucket, if j < k then j else j + 1)
  {
    WithoutEntry(bucket, k, j);
    assert PageOf(ent, bucket, if j < k then j else j + 1) != PageOf(ent, bucket, k);
  }

  /** The pages of the other entries of the bucket are still there. */
  lemma {:induction false} OthersInBucket(base: nat, hash: nat -> nat, ent: seq<Entry>, pool: seq<nat>, bucket: seq<nat>, b: nat,
                                          addr: map<nat, nat>, k: nat, l: seq<nat>, q: nat)
    requires BucketOk(base, hash, ent, pool, bucket, b, addr) && k < |bucket|
    requires l == bucket[..k] + bucket[k + 1..] && forall j | 0 <= j < |l| :: l[j] < |ent|
    requires q in addr && q != PageOf(ent, bucket, k) && hash(q) % BUCKETS == b
    ensures exists j :: 0 <= j < |l| && PageOf(ent, l, j) == q
  {
    var i :| 0 <= i < |bucket| && PageOf(ent, bucket, i) == q;
    assert PageOf(ent, l, if i < k then i else i - 1) == q;
  }

  lemma {:induction false} RemoveBucket(base: nat, hash: nat -> nat, ent: seq<Entry>, pool: seq<nat>, bucket: seq<nat>, b: nat,
                                        addr: map<nat, nat>, k: nat)
    requires BucketOk(base, hash, ent, pool, bucket, b, addr) && k < |bucket|
    ensures BucketOk(base, hash, ent, pool + [bucket[k]], bucket[..k] + bucket[k + 1..], b, addr - {PageOf(ent, bucket, k)})
  {
    var l := bucket[..k] + bucket[k + 1..];
    var p := PageOf(ent, bucket, k);
    forall j | 0 <= j < |l|
      ensures l[j] < |ent| && l[j] !in pool + [bucket[k]] && PageOf(ent, l, j) != p
      ensures PageOf(ent, l, j) == PageOf(ent, bucket, if j < k then j else j + 1)
    {
      RestOfBucket(base, hash, ent, pool, bucket, b, addr, k, j);
    }
    forall q | q in addr - {p} && hash(q) % BUCKETS == b
      ensures exists j :: 0 <= j < |l| && PageOf(ent, l, j) == q
    {
      OthersInBucket(base, hash, ent, pool, bucket, b, addr, k, l, q);
    }
  }

  /** Filling the pool's first entry for page p and linking it into its bucket. */
  lemma {:induction false} AddOk(base: nat, hash: nat -> nat, ent: seq<Entry>, pool: seq<nat>, buckets: seq<seq<nat>>,
                                 addr: map<nat, nat>, p: nat, b: nat, slot: nat)
    requires HashOk(base, hash, ent, pool, buckets, addr) && p !in addr && b == hash(p) % BUCKETS && pool != []
    ensures pool[0] < |ent|
    ensures HashOk(base, hash, ent[pool[0] := Entry(p, SlotAddr(base, slot))], pool[1..],
                   buckets[b := buckets[b] + [pool[0]]], addr[p := slot])
  {
    var e := pool[0];
    assert e in pool;
    var ent', pool', addr' := ent[e := Entry(p, SlotAddr(base, slot))], pool[1..], addr[p := slot];
    var buckets' := buckets[b := buckets[b] + [e]];
    assert e !in pool' && forall x | x in pool' :: x in pool;
    assert Linked(ent', pool', addr') by {
      assert forall d | 0 <= d < |ent| && d != e :: PageAt(ent', d) == PageAt(ent, d);
      assert PageAt(ent', e) == p;
    }
    forall c | 0 <= c < BUCKETS
      ensures BucketOk(base, hash, ent', pool', buckets'[c], c, addr')
    {
      assert BucketOk(base, hash, ent, pool, buckets[c], c, addr);
      if c == b {
        AddHere(base, hash, ent, pool, buckets[c], c, addr, p, slot);
      } else {
        AddElsewhere(base, hash, ent, pool, buckets[c], c, addr, p, slot);
      }
    }
  }

  /** The entry that is filled does not occur in a bucket, and its page is new to it. */
  lemma {:induction false} EntryIsNew(base: nat, hash: nat -> nat, ent: seq<Entry>, pool: seq<nat>, bucket: seq<nat>, c: nat,
                                      addr: map<nat, nat>, p: nat, v: Entry)
    requires BucketOk(base, hash, ent, pool, bucket, c, addr) && p !in addr && pool != [] && pool[0] < |ent|
    ensures forall k | 0 <= k < |bucket| ::
              && bucket[k] != pool[0] && PageOf(ent, bucket, k) != p
              && PageOf(ent[pool[0] := v], bucket, k) == PageOf(ent, bucket, k)
  {
    forall k | 0 <= k < |bucket|
      ensures bucket[k] != pool[0] && PageOf(ent, bucket, k) != p
    {
      assert pool[0] in pool;
      assert PageOf(ent, bucket, k) in addr;
    }
  }

  /** The bucket stays as it is when the page hashes elsewhere. */
  lemma {:induction false} AddElsewhere(base: nat, hash: nat -> nat, ent: seq<Entry>, pool: seq<nat>, bucket: seq<nat>, c: nat,
                                        addr: map<nat, nat>, p: nat, slot: nat)
    requires BucketOk(base, hash, ent, pool, bucket, c, addr) && p !in addr && pool != [] && pool[0] < |ent|
    requires hash(p) % BUCKETS != c
    ensures BucketOk(base, hash, ent[pool[0] := Entry(p, SlotAddr(base, slot))], pool[1..], bucket, c, addr[p := slot])
  {
    var ent' := ent[pool[0] := Entry(p, SlotAddr(base, slot))];
    EntryIsNew(base, hash, ent, pool, bucket, c, addr, p, Entry(p, SlotAddr(base, slot)));
    forall q | q in addr[p := slot] && hash(q) % BUCKETS == c
      ensures exists k :: 0 <= k < |bucket| && PageOf(ent', bucket, k) == q
    {
      var k :| 0 <= k < |bucket| && PageOf(ent, bucket, k) == q;
      assert PageOf(ent', bucket, k) == q;
    }
  }

  /** The bucket of the page gets the entry at its end. */
  lemma {:induction false} AddHere(base: nat, hash: nat -> nat, ent: seq<Entry>, pool: seq<nat>, bucket: seq<nat>, c: nat,
                                   addr: map<nat, nat>, p: nat, slot: nat)
    requires BucketOk(base, hash, ent, pool, bucket, c, addr) && p !in addr && pool != [] && NoDup(pool) && pool[0] < |ent|
    requires hash(p) % BUCKETS == c
    ensures BucketOk(base, hash, ent[pool[0] := Entry(p, SlotAddr(base, slot))], pool[1..], bucket + [pool[0]], c, addr[p := slot])
  {
    var ent', l := ent[pool[0] := Entry(p, SlotAddr(base, slot))], bucket + [pool[0]];
    EntryIsNew(base, hash, ent, pool, bucket, c, addr, p, Entry(p, SlotAddr(base, slot)));
    assert forall k | 0 <= k < |bucket| :: PageOf(ent', l, k) == PageOf(ent, bucket, k);
    forall q | q in addr[p := slot] && hash(q) % BUCKETS == c
      ensures exists k :: 0 <= k < |l| && PageOf(ent', l, k) == q
    {
      if q == p {
        assert PageOf(ent', l, |bucket|) == p;
      } else {
        var k :| 0 <= k < |bucket| && PageOf(ent, bucket, k) == q;
        assert PageOf(ent', l, k) == q;
      }
    }
  }

  /** At most n keys go one to one to numbers below n. */
  lemma {:induction false} InjectiveSize(m: map<nat, nat>, n: nat)
    requires forall p | p in m :: m[p] < n
    requires forall p, q | p in m && q in m && m[p] == m[q] :: p == q
    ensures |m| <= n
  {
    if n == 0 {
      assert forall p | p in m :: false;
      assert m == map[];
    } else if p :| p in m && m[p] == n - 1 {
      assert m == (m - {p})[p := n - 1];
      InjectiveSize(m - {p}, n - 1);
    } else {
      InjectiveSize(m, n - 1);
    }
  }

  /** Fewer than n keys go one to one to numbers below n other than i. */
  lemma {:induction false} SizeWithout(m: map<nat, nat>, n: nat, i: nat)
    requires i < n && forall p | p in m :: m[p] < n && m[p] != i
    requires forall p, q | p in m && q in m && m[p] == m[q] :: p == q
    ensures |m| < n
  {
    var r: map<nat, nat> := map p | p in m :: if m[p] == n - 1 then i else m[p];
    assert r.Keys == m.Keys;
    InjectiveSize(r, n - 1);
  }

  /** While a slot is free the pool of entries is not empty. */
  lemma {:induction false} FreeSlotLeavesRoom(s: State, i: nat)
    requires TableOk(s) && i < LAST_PKMAP && s.count[i] == 0
    ensures |s.addr| < LAST_PKMAP
  {
    SizeWithout(s.addr, LAST_PKMAP, i);
  }

  lemma {:induction false} EntriesInUse(ent: seq<Entry>, addr: map<nat, nat>, n: nat)
    requires n <= |ent| && forall e | 0 <= e < n :: PageAt(ent, e) in addr
    requires forall d, e | 0 <= d < e < n :: PageAt(ent, d) != PageAt(ent, e)
    ensures |addr| >= n
  {
    if n > 0 {
      var p := PageAt(ent, n - 1);
      EntriesInUse(ent, addr - {p}, n - 1);
      assert addr.Keys == (addr - {p}).Keys + {p};
    }
  }

  /** The pool is not empty while a page can still be added. */
  lemma {:induction false} PoolHasEntry(ent: seq<Entry>, pool: seq<nat>, addr: map<nat, nat>)
    requires |ent| == LAST_PKMAP && Linked(ent, pool, addr) && |addr| < LAST_PKMAP
    ensures pool != []
  {
    if pool == [] {
      EntriesInUse(ent, addr, LAST_PKMAP);
    }
  }

  lemma {:induction false} SlotOfAddress(base: nat, nr: nat)
    ensures SlotNr(base, SlotAddr(base, nr)) == nr
  {
  }

  lemma {:induction false} SleepDone(s: State, s': State, t: nat, p: nat)
    requires Inv(s) && (t in s.threads ==> s.threads[t] == Retrying(p)) && p !in s.addr
    requires AllInUse(Flush(s).count) && s' == Flush(s).(threads := s.threads[t := Sleeping(p)])
    ensures SleepStep(s, s', t, p) && Inv(s')
  {
    assert SleepStep(s, s', t, p);
    StepKeeps(s, s');
  }

  /** m is the state from s in which page p has slot i but is not counted yet; r is where a new slot was found. */
  ghost predicate Counting(s: State, r: State, m: State, p: nat, i: nat)
    requires TableOk(s)
  {
    if p in s.addr then m == r == s && i == s.addr[p]
    else FreshSlot(s, r, i) && m == r.(count := r.count[i := 1], addr := r.addr[p := i])
  }

  /** One more use of page p, which has slot i, by thread t. */
  ghost function Used(m: State, t: nat, p: nat, i: nat): State
    requires i < |m.count|
  {
    State(m.count[i := m.count[i] + 1], m.addr, m.uses[p := m.uses[p] + 1], m.threads - {t})
  }

  lemma {:induction false} CountingInRange(s: State, r: State, m: State, p: nat, i: nat)
    requires TableOk(s) && Counting(s, r, m, p, i)
    ensures p in m.addr && m.addr[p] == i && i < |m.count| && m.count[i] >= 1
  {
  }

  lemma {:induction false} UsedAgain(s: State, t: nat, p: nat)
    requires TableOk(s) && (t in s.threads ==> s.threads[t] == Retrying(p)) && p in s.addr
    ensures s.addr[p] < |s.count| && MapStep(s, Used(s, t, p, s.addr[p]), t, p)
  {
    var i := s.addr[p];
    assert s.addr[p := i] == s.addr;
    assert Used(s, t, p, i) == Mapped(s, p, i, s.count[i] + 1).(threads := s.threads - {t});
  }

  lemma {:induction false} UsedFirst(r: State, t: nat, p: nat, i: nat)
    requires i < |r.count|
    ensures Used(r.(count := r.count[i := 1], addr := r.addr[p := i]), t, p, i) == Mapped(r, p, i, 2).(threads := r.threads - {t})
  {
    assert r.count[i := 1][i := 2] == r.count[i := 2];
  }

  lemma {:induction false} MapSteps(s: State, r: State, t: nat, p: nat, i: nat)
    requires TableOk(s) && (t in s.threads ==> s.threads[t] == Retrying(p))
    requires p !in s.addr && FreshSlot(s, r, i)
    ensures MapStep(s, Mapped(r, p, i, 2).(threads := s.threads - {t}), t, p)
  {
  }

  lemma {:induction false} MapDone(s: State, r: State, m: State, t: nat, p: nat, i: nat)
    requires Inv(s) && (t in s.threads ==> s.threads[t] == Retrying(p))
    requires Counting(s, r, m, p, i) && i < |m.count|
    ensures MapStep(s, Used(m, t, p, i), t, p) && Inv(Used(m, t, p, i))
  {
    if p in s.addr {
      UsedAgain(s, t, p);
    } else {
      UsedFirst(r, t, p, i);
      MapSteps(s, r, t, p, i);
    }
    StepKeeps(s, Used(m, t, p, i));
  }

  /** The scan before and after the flush; from is where it began. */
  ghost predicate Scanning(s: State, now: State, last: nat, from: nat, flushed: bool, left: nat)
    requires TableOk(s)
  {
    && last < LAST_PKMAP && |now.count| == LAST_PKMAP
    && if flushed then now == Flush(s) && left == LAST_PKMAP - 1 - last && NoneFree(now, -1, last + 1) && NoneFree(s, from, LAST_PKMAP)
       else now == s && left == LAST_PKMAP - (last - from) && from <= last && NoneFree(s, from, last + 1)
  }

  /** No slot strictly between l and n is free. */
  ghost predicate NoneFree(s: State, l: int, n: int) {
    |s.count| == LAST_PKMAP && forall j | l < j < n && 0 <= j < LAST_PKMAP :: s.count[j] != 0
  }

  /** Slot n is the next free one after l; if there is none up to the end of the ring, all slots without users
      were flushed, and n is the first one that is free then. */
  ghost predicate NextFree(s: State, l: nat, n: nat, flushed: bool)
    requires TableOk(s)
  {
    && n < LAST_PKMAP
    && if !flushed then l < n && s.count[n] == 0 && NoneFree(s, l, n)
       else NoneFree(s, l, LAST_PKMAP) && Flush(s).count[n] == 0 && NoneFree(Flush(s), -1, n)
  }

  /** The next slot of the scan is free, or the scan goes on. */
  lemma {:induction false} ScanNext(s: State, now: State, last: nat, from: nat, flushed: bool, left: nat,
                                    now': State, last': nat, left': nat)
    requires TableOk(s) && Scanning(s, now, last, from, flushed, left) && left > 0
    requires last < LAST_PKMAP - 1 ==> last' == last + 1 && left' == left && now' == now
    requires last == LAST_PKMAP - 1 ==> TableOk(now) && last' == 0 && left' == LAST_PKMAP && now' == Flush(now)
    ensures last' < LAST_PKMAP == |now'.count| && left' > 0
    ensures if now'.count[last'] == 0 then FreshSlot(s, now', last') && NextFree(s, from, last', flushed || last == LAST_PKMAP - 1)
            else Scanning(s, now', last', from, flushed || last == LAST_PKMAP - 1, left' - 1)
  {
  }

  lemma {:induction false} ScanOver(s: State, now: State, last: nat, from: nat, flushed: bool)
    requires TableOk(s) && Scanning(s, now, last, from, flushed, 0)
    ensures flushed && now == Flush(s) && AllInUse(now.count) && last == LAST_PKMAP - 1 && NoneFree(s, from, LAST_PKMAP)
  {
    if flushed {
      FlushedInUse(s.count);
    }
  }

  lemma {:induction false} UnmapDone(s: State, s': State, t: nat, p: nat)
    requires Inv(s) && UnmapStep(s, s', t, p)
    ensures Inv(s')
  {
    StepKeeps(s, s');
  }

  /** The pool after page_address_init, which puts each entry at the front. */
  function FullPool(): (r: seq<nat>)
    ensures NoDup(r) && forall e :: e in r <==> 0 <= e < LAST_PKMAP
  {
    var r := seq(LAST_PKMAP, i requires 0 <= i < LAST_PKMAP => LAST_PKMAP - 1 - i);
    assert forall e | 0 <= e < LAST_PKMAP :: e in r by {
      forall e | 0 <= e < LAST_PKMAP
        ensures e in r
      {
        assert r[LAST_PKMAP - 1 - e] == e;
      }
    }
    r
  }

  lemma {:induction false} EmptyTables(base: nat, hash: nat -> nat, ent: seq<Entry>, buckets: seq<seq<nat>>)
    requires |ent| == LAST_PKMAP && |buckets| == BUCKETS && forall b | 0 <= b < BUCKETS :: buckets[b] == []
    ensures HashOk(base, hash, ent, FullPool(), buckets, map[])
  {
  }

  /** pkmap_count, last_pkmap_nr, the pte array, and the page address hash table. */
  class Pkmap {
    const base: nat
    const hash: nat -> nat
    var count: seq<nat>
    var last: nat
    var pte: seq<Option<nat>>
    var ent: seq<Entry>
    var pool: seq<nat>
    var buckets: seq<seq<nat>>
    var flushes: nat                 // cache and TLB flushes issued
    var threads: map<nat, Thread>
    ghost var addr: map<nat, nat>    // slot of each mapped page
    ghost var uses: multiset<nat>    // outstanding mappings

    ghost function Now(): State
      reads this`count, this`addr, this`uses, this`threads
    {
      State(count, addr, uses, threads)
    }

    /** The hash table and the ptes both represent addr.  The quantifier only keeps proofs from
        unfolding HashOk and PteOk where they do not name them. */
    ghost predicate TablesOk()
      reads this`ent, this`pool, this`buckets, this`pte, this`addr
    {
      && base > 0
      && forall a {:trigger HashOk(base, hash, ent, pool, buckets, a)} {:trigger PteOk(pte, a)} |
           a == addr :: HashOk(base, hash, ent, pool, buckets, a) && PteOk(pte, a)
    }

    ghost predicate Valid()
      reads this
    {
      TablesOk() && Inv(Now()) && last < LAST_PKMAP
    }

    /** page_address_init and the static tables. */
    constructor (base: nat, hash: nat -> nat)
      requires base > 0
      ensures Valid() && Init(Now())
      ensures this.base == base && this.hash == hash
    {
      this.base := base;
      this.hash := hash;
      count := seq(LAST_PKMAP, _ => 0);
      last := 0;
      pte := seq(LAST_PKMAP, _ => None);
      ent := seq(LAST_PKMAP, _ => Entry(0, 0));
      pool := FullPool();
      buckets := seq(BUCKETS, _ => []);
      flushes := 0;
      threads := map[];
      addr := map[];
      uses := multiset{};
      EmptyTables(base, hash, seq(LAST_PKMAP, _ => Entry(0, 0)), seq(BUCKETS, _ => []));
    }

    /** page_address */
    method PageAddress(page: nat) returns (virt: nat)
      requires TablesOk()
      ensures virt == if page in addr then base + addr[page] * PAGE else 0
    {
      var b := hash(page) % BUCKETS;
      assert HashOk(base, hash, ent, pool, buckets, addr);
      assert BucketOk(base, hash, ent, pool, buckets[b], b, addr);
      var bucket := buckets[b];
      for k := 0 to |bucket|
        invariant forall j | 0 <= j < k :: PageOf(ent, bucket, j) != page
      {
        if ent[bucket[k]].page == page {
          assert PageOf(ent, bucket, k) == page;
          return ent[bucket[k]].virt;
        }
      }
      virt := 0;
    }

    /** set_page_address with an address: the pool is never empty here. */
    method AddAddress(page: nat, slot: nat)
      requires base > 0 && HashOk(base, hash, ent, pool, buckets, addr) && page !in addr && |addr| < LAST_PKMAP
      modifies this`ent, this`pool, this`buckets, this`addr
      ensures HashOk(base, hash, ent, pool, buckets, addr) && addr == old(addr)[page := slot]
    {
      var b := hash(page) % BUCKETS;
      PoolHasEntry(ent, pool, addr);
      AddOk(base, hash, ent, pool, buckets, addr, page, b, slot);
      var e := pool[0];
      pool := pool[1..];
      ent := ent[e := Entry(page, SlotAddr(base, slot))];
      buckets := buckets[b := buckets[b] + [e]];
      addr := addr[page := slot];
    }

    /** set_page_address with NULL */
    method RemoveAddress(page: nat)
      requires HashOk(base, hash, ent, pool, buckets, addr)
      modifies this`pool, this`buckets, this`addr
      ensures HashOk(base, hash, ent, pool, buckets, addr) && addr == old(addr) - {page}
    {
      var b := hash(page) % BUCKETS;
      assert BucketOk(base, hash, ent, pool, buckets[b], b, addr);
      var bucket := buckets[b];
      for k := 0 to |bucket|
        invariant forall j | 0 <= j < k :: PageOf(ent, bucket, j) != page
      {
        if ent[bucket[k]].page == page {
          assert PageOf(ent, bucket, k) == page;
          RemoveOk(base, hash, ent, pool, buckets, addr, page, b, k);
          buckets := buckets[b := bucket[..k] + bucket[k + 1..]];
          pool := pool + [bucket[k]];
          addr := addr - {page};
          return;
        }
      }
      assert addr - {page} == addr;
    }

    /** The body of the loop of flush_all_zero_pkmaps, for a slot without users: its pte is set. */
    method FlushSlot(i: nat)
      requires TablesOk() && i < |count| == LAST_PKMAP && HasPage(addr, i)
      modifies this`count, this`pte, this`pool, this`buckets, this`addr
      ensures TablesOk()
      ensures count == old(count)[i := 0]
      ensures exists p :: p in old(addr) && old(addr)[p] == i && addr == old(addr) - {p}
    {
      ghost var p :| p in addr && addr[p] == i;
      assert PteOk(pte, addr);
      count := count[i := 0];
      assert pte[i].Some?;
      var page := pte[i].value;
      assert page == p;
      pte := pte[i := None];
      RemoveAddress(page);
    }

    method FlushRound(i: nat, ghost s: State)
      requires TableOk(s) && i < LAST_PKMAP && TablesOk() && Now() == FlushPart(s, i)
      modifies this`count, this`pte, this`pool, this`buckets, this`addr
      ensures TablesOk() && Now() == FlushPart(s, i + 1)
    {
      FlushOne(s, i);
      if count[i] == 1 {
        FlushSlot(i);
      }
    }

    /** flush_all_zero_pkmaps */
    method FlushAllZero()
      requires TablesOk() && TableOk(Now())
      modifies this`count, this`pte, this`pool, this`buckets, this`addr, this`flushes
      ensures TablesOk() && TableOk(Now())
      ensures Now() == Flush(old(Now())) && flushes == old(flushes) + 1
    {
      ghost var s := Now();
      FlushPartEnds(s);
      flushes := flushes + 1;
      for i := 0 to LAST_PKMAP
        invariant TablesOk() && Now() == FlushPart(s, i) && flushes == old(flushes) + 1
      {
        FlushRound(i, s);
      }
      FlushKeeps(s);
    }

    /** The next slot of the ring; passing slot 0 flushes and starts the count of tries again. */
    method NextSlot(tries: nat) returns (left: nat)
      requires TablesOk() && TableOk(Now()) && last < LAST_PKMAP
      modifies this`count, this`pte, this`pool, this`buckets, this`addr, this`flushes, this`last
      ensures TablesOk() && TableOk(Now())
      ensures old(last) < LAST_PKMAP - 1 ==> last == old(last) + 1 && left == tries && Now() == old(Now()) && flushes == old(flushes)
      ensures old(last) == LAST_PKMAP - 1 ==> last == 0 && left == LAST_PKMAP && Now() == Flush(old(Now())) && flushes == old(flushes) + 1
    {
      left := tries;
      last := (last + 1) % LAST_PKMAP;
      if last == 0 {
        FlushAllZero();
        left := LAST_PKMAP;
      }
    }

    /** The scan of map_new_virtual.  It ends at a free slot, or after a flush which left all slots in use. */
    method ScanForSlot() returns (found: bool)
      requires TablesOk() && TableOk(Now()) && last < LAST_PKMAP
      modifies this`count, this`pte, this`pool, this`buckets, this`addr, this`flushes, this`last
      ensures TablesOk() && TableOk(Now()) && last < LAST_PKMAP
      ensures found ==> FreshSlot(old(Now()), Now(), last)
      ensures found ==> NextFree(old(Now()), old(last), last, flushes != old(flushes)) && flushes <= old(flushes) + 1
      ensures !found ==> Now() == Flush(old(Now())) && AllInUse(count) && last == LAST_PKMAP - 1 && flushes == old(flushes) + 1
    {
      ghost var s, from, flushed := Now(), last, false;
      var left := LAST_PKMAP;
      while true
        invariant TablesOk() && TableOk(Now()) && Scanning(s, Now(), last, from, flushed, left) && left > 0
        invariant flushes == old(flushes) + if flushed then 1 else 0
        decreases !flushed, left
      {
        ghost var now, was, tries := Now(), last, left;
        left := NextSlot(left);
        ScanNext(s, now, was, from, flushed, tries, Now(), last, left);
        flushed := flushed || was == LAST_PKMAP - 1;
        if count[last] == 0 {
          return true;
        }
        left := left - 1;
        if left == 0 {
          ScanOver(s, Now(), last, from, flushed);
          return false;
        }
      }
    }

    /** The end of map_new_virtual: slot last, which is free, becomes the slot of the page. */
    method TakeSlot(page: nat)
      requires TablesOk() && TableOk(Now()) && last < LAST_PKMAP && count[last] == 0 && page !in addr
      modifies this`count, this`pte, this`ent, this`pool, this`buckets, this`addr
      ensures TablesOk() && addr == old(addr)[page := last] && count == old(count)[last := 1]
    {
      FreeSlotLeavesRoom(Now(), last);
      SlotIsEmpty(Now(), pte, last);
      AddPte(pte, addr, page, last);
      assert pte[last].None?;
      pte := pte[last := Some(page)];
      count := count[last := 1];
      AddAddress(page, last);
    }

    /** map_new_virtual up to the place where it sleeps; r is the state in which the slot was found. */
    method MapNewVirtual(page: nat) returns (virt: nat, ghost r: State)
      requires TablesOk() && TableOk(Now()) && last < LAST_PKMAP && page !in addr
      modifies this`count, this`pte, this`ent, this`pool, this`buckets, this`addr, this`flushes, this`last
      ensures TablesOk() && last < LAST_PKMAP
      ensures virt != 0 ==> FreshSlot(old(Now()), r, last) && virt == SlotAddr(base, last)
      ensures virt != 0 ==> NextFree(old(Now()), old(last), last, flushes != old(flushes)) && flushes <= old(flushes) + 1
      ensures virt != 0 ==> Now() == r.(count := r.count[last := 1], addr := r.addr[page := last])
      ensures virt == 0 ==> Now() == Flush(old(Now())) && AllInUse(count) && flushes == old(flushes) + 1
    {
      var found := ScanForSlot();
      r := Now();
      if !found {
        return 0, r;
      }
      TakeSlot(page);
      virt := SlotAddr(base, last);
    }

    /** kmap_high by thread t up to the release of the lock, or its retry after a sleep.  Zero means
        that the thread has gone to sleep. */
    method KmapHigh(t: nat, page: nat) returns (virt: nat)
      requires Valid() && (t in threads ==> threads[t] == Retrying(page))
      modifies this
      ensures Valid()
      ensures virt != 0 ==> MapStep(old(Now()), Now(), t, page) && virt == base + addr[page] * PAGE
      ensures virt != 0 && page in old(addr) ==> last == old(last) && flushes == old(flushes)
      ensures virt != 0 && page !in old(addr) ==>
                addr[page] == last && NextFree(old(Now()), old(last), last, flushes != old(flushes)) && flushes <= old(flushes) + 1
      ensures virt == 0 ==> SleepStep(old(Now()), Now(), t, page) && flushes == old(flushes) + 1
      ensures virt == 0 <==> page !in old(addr) && AllInUse(old(count))
    {
      ghost var s, r := Now(), Now();
      virt := PageAddress(page);
      if virt == 0 {
        virt, r := MapNewVirtual(page);
        if virt == 0 {
          threads := threads[t := Sleeping(page)];
          SleepDone(s, Now(), t, page);
          BlocksExactly(s, Now(), t, page);
          return;
        }
      }
      CountingInRange(s, r, Now(), page, addr[page]);
      MapDone(s, r, Now(), t, page, addr[page]);
      CountUse(t, page, virt);
      if page !in s.addr {
        BlocksExactly(s, Now(), t, page);
      }
    }

    /** The end of kmap_high: the count is at least two. */
    method CountUse(t: nat, page: nat, virt: nat)
      requires TablesOk() && page in addr && virt == SlotAddr(base, addr[page])
      requires addr[page] < |count| && count[addr[page]] >= 1
      modifies this`count, this`uses, this`threads
      ensures TablesOk() && Now() == Used(old(Now()), t, page, addr[page])
    {
      var nr := SlotNr(base, virt);
      SlotOfAddress(base, addr[page]);
      count := count[nr := count[nr] + 1];
      assert count[nr] >= 2;
      uses := uses[page := uses[page] + 1];
      threads := threads - {t};
    }

    /** kunmap_high by thread t, which has the page mapped. */
    method KunmapHigh(t: nat, page: nat) returns (needWakeup: bool)
      requires Valid() && t !in threads && uses[page] > 0
      modifies this`count, this`threads, this`uses
      ensures Valid() && UnmapStep(old(Now()), Now(), t, page)
      ensures needWakeup <==> t in threads
      ensures needWakeup <==> old(count)[addr[page]] == 2 && exists u :: u in old(threads) && (old(threads)[u].Sleeping? || old(threads)[u].Woken?)
    {
      ghost var s := Now();
      UsedIsMapped(s, page);
      var virt := PageAddress(page);
      assert virt != 0;
      var nr := SlotNr(base, virt);
      SlotOfAddress(base, addr[page]);
      count := count[nr := count[nr] - 1];
      assert count[nr] != 0;
      uses := uses[page := uses[page] - 1];
      needWakeup := count[nr] == 1 && QueueActive(threads);
      if needWakeup {
        threads := threads[t := Waking];
      }
      assert UnmapStep(s, Now(), t, page);
      UnmapDone(s, Now(), t, page);
    }

    /** wake_up, outside the lock */
    method WakeUp(t: nat)
      requires Valid() && t in threads && threads[t].Waking?
      modifies this`threads
      ensures Valid() && WakeStep(old(Now()), Now(), t)
      ensures threads.Keys == old(threads).Keys - {t}
      ensures forall u | u in threads ::
                threads[u] == if old(threads)[u].Sleeping? then Woken(old(threads)[u].page) else old(threads)[u]
    {
      ghost var s := Now();
      threads := map u | u in threads && u != t ::
        if threads[u].Sleeping? then Woken(threads[u].page) else threads[u];
      assert WakeStep(s, Now(), t);
      StepKeeps(s, Now());
    }

    /** remove_wait_queue after schedule has returned */
    method LeaveQueue(t: nat)
      requires Valid() && t in threads && threads[t].Woken?
      modifies this`threads
      ensures Valid() && LeaveStep(old(Now()), Now(), t)
    {
      ghost var s := Now();
      threads := threads[t := Retrying(threads[t].page)];
      assert LeaveStep(s, Now(), t);
      StepKeeps(s, Now());
    }
  }
}
