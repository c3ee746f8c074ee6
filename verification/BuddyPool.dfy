/** The free pool of the buddy allocator as a value, and the theory behind
`kernel-core/src/buddy.rs`.

A pool is one set of block indices per order: `i in pool[o]` says that the `Pow2(o)` pages
`i << o ..` are one free block. `Shr(p, o)` is the index of the order-`o` block that holds page
`p`, so `Shr(p, o) == i` reads "page `p` lies in block `(o, i)`". */
module BuddyPools {
  import opened Options
  import opened Sets
  import opened Words

  const MAX_ORDER: nat := 13

  type Pool = seq<set<nat>>

  // ---- blocks ----

  /** Index of the other half of the parent block. */
  function Buddy(i: nat): nat {
    if i % 2 == 0 then i + 1 else i - 1
  }

  predicate InRange(total: nat, o: nat, i: nat) {
    Shl(i + 1, o) <= total
  }

  lemma {:induction false} ShrAdd(x: nat, a: nat, b: nat)
    ensures Shr(Shr(x, a), b) == Shr(x, a + b)
  {
    if a > 0 {
      ShrAdd(x / 2, a - 1, b);
    }
  }

  lemma ShrSucc(x: nat, a: nat)
    ensures Shr(x, a + 1) == Shr(x, a) / 2
  {
    ShrAdd(x, a, 1);
    assert Shr(Shr(x, a), 1) == Shr(Shr(x, a) / 2, 0);
  }

  lemma {:induction false} ShlSucc(i: nat, o: nat)
    ensures Shl(i + 1, o) == Shl(i, o) + Pow2(o)
  {
    if o > 0 {
      ShlSucc(i, o - 1);
    }
  }

  lemma {:induction false} ShlDouble(i: nat, o: nat)
    ensures Shl(2 * i, o) == Shl(i, o + 1)
  {
    if o > 0 {
      ShlDouble(i, o - 1);
    }
  }

  lemma {:induction false} ShlAdd(i: nat, a: nat, b: nat)
    ensures Shl(Shl(i, a), b) == Shl(i, a + b)
  {
    if b > 0 {
      ShlAdd(i, a, b - 1);
    }
  }

  /** Block `(o, i)` is the pages from `i << o` up to the next block. */
  lemma {:induction false} ShrRange(p: nat, o: nat, i: nat)
    ensures Shr(p, o) == i <==> Shl(i, o) <= p < Shl(i + 1, o)
  {
    if o > 0 {
      ShrRange(p / 2, o - 1, i);
    }
  }

  lemma ShrStart(o: nat, i: nat)
    ensures Shr(Shl(i, o), o) == i
  {
    ShlSucc(i, o);
    ShrRange(Shl(i, o), o, i);
  }

  // ---- the invariant of every reachable pool ----

  predicate FreeAt(pool: Pool, p: nat, o: nat) {
    o < |pool| && Shr(p, o) in pool[o]
  }

  ghost predicate FreePage(pool: Pool, p: nat) {
    exists o: nat :: FreeAt(pool, p, o)
  }

  ghost predicate BlocksInRange(pool: Pool, total: nat) {
    forall o: nat, i | o < |pool| && i in pool[o] :: InRange(total, o, i)
  }

  /** No free block lies inside another. */
  ghost predicate Disjoint(pool: Pool) {
    forall o: nat, i, k: nat | o < k < |pool| && i in pool[o] :: Shr(i, k - o) !in pool[k]
  }

  /** Below the top order no two buddies are both free. */
  ghost predicate Merged(pool: Pool) {
    forall o: nat, i | o + 1 < |pool| && i in pool[o] :: Buddy(i) !in pool[o]
  }

  ghost predicate Sound(pool: Pool, total: nat) {
    && |pool| == MAX_ORDER + 1
    && BlocksInRange(pool, total)
    && Disjoint(pool)
    && Merged(pool)
  }

  ghost predicate AllFree(pool: Pool, o: nat, i: nat) {
    forall p: nat | Shr(p, o) == i :: FreePage(pool, p)
  }

  ghost predicate NoneFree(pool: Pool, o: nat, i: nat) {
    forall p: nat | Shr(p, o) == i :: !FreePage(pool, p)
  }

  function EmptyPool(): Pool {
    seq(MAX_ORDER + 1, _ => {})
  }

  function Push(pool: Pool, o: nat, i: nat): Pool
    requires o < |pool|
  {
    pool[o := pool[o] + {i}]
  }

  function Remove(pool: Pool, o: nat, i: nat): Pool
    requires o < |pool|
  {
    pool[o := pool[o] - {i}]
  }

  /** Two blocks that share a page are nested. */
  lemma NestedBlocks(p: nat, o: nat, k: nat)
    requires o <= k
    ensures Shr(Shr(p, o), k - o) == Shr(p, k)
  {
    ShrAdd(p, o, k - o);
  }

  /** If no page of `(o, i)` is free then no free block meets it, at any order. */
  lemma NoneFreeBlocks(pool: Pool, o: nat, i: nat)
    requires NoneFree(pool, o, i)
    ensures forall k: nat | o <= k < |pool| :: Shr(i, k - o) !in pool[k]
    ensures forall k: nat, j | k < o && k < |pool| && j in pool[k] :: Shr(j, o - k) != i
  {
    forall k: nat | o <= k < |pool| ensures Shr(i, k - o) !in pool[k] {
      var p := Shl(i, o);
      ShrStart(o, i);
      NestedBlocks(p, o, k);
      assert !FreeAt(pool, p, k);
    }
    forall k: nat, j | k < o && k < |pool| && j in pool[k] ensures Shr(j, o - k) != i {
      var p := Shl(j, k);
      ShrStart(k, j);
      NestedBlocks(p, k, o);
      assert FreeAt(pool, p, k);
    }
  }

  /** Marking a wholly used block free keeps the pool sound, unless its buddy is free too. */
  lemma PushSound(pool: Pool, total: nat, o: nat, i: nat)
    requires Sound(pool, total) && o <= MAX_ORDER && InRange(total, o, i)
    requires NoneFree(pool, o, i)
    requires o == MAX_ORDER || Buddy(i) !in pool[o]
    ensures Sound(Push(pool, o, i), total)
  {
    var r := Push(pool, o, i);
    NoneFreeBlocks(pool, o, i);
    forall a: nat, j, k: nat | a < k < |r| && j in r[a] ensures Shr(j, k - a) !in r[k] {
      if a == o && j == i {
        assert Shr(i, k - o) !in pool[k];
      } else {
        assert Shr(j, k - a) !in pool[k];
      }
    }
    forall a: nat, j | a + 1 < |r| && j in r[a] ensures Buddy(j) !in r[a] {
      assert Buddy(Buddy(i)) == i;
      assert j in pool[a] ==> Buddy(j) !in pool[a];
    }
  }

  lemma PushPages(pool: Pool, o: nat, i: nat, p: nat)
    requires o < |pool|
    ensures FreePage(Push(pool, o, i), p) <==> FreePage(pool, p) || Shr(p, o) == i
  {
    var r := Push(pool, o, i);
    if FreePage(r, p) {
      var k: nat :| FreeAt(r, p, k);
      assert FreeAt(pool, p, k) || (k == o && Shr(p, o) == i);
    }
    if FreePage(pool, p) {
      var k: nat :| FreeAt(pool, p, k);
      assert FreeAt(r, p, k);
    }
    if Shr(p, o) == i {
      assert FreeAt(r, p, o);
    }
  }

  lemma RemoveSound(pool: Pool, total: nat, o: nat, i: nat)
    requires Sound(pool, total) && o <= MAX_ORDER
    ensures Sound(Remove(pool, o, i), total)
  {
    var r := Remove(pool, o, i);
    forall a: nat | a < |r| ensures r[a] <= pool[a] {
    }
  }

  lemma RemovePages(pool: Pool, total: nat, o: nat, i: nat, p: nat)
    requires Sound(pool, total) && o <= MAX_ORDER && i in pool[o]
    ensures FreePage(Remove(pool, o, i), p) <==> FreePage(pool, p) && Shr(p, o) != i
  {
    var r := Remove(pool, o, i);
    if FreePage(r, p) {
      var k: nat :| FreeAt(r, p, k);
      assert FreeAt(pool, p, k);
      if Shr(p, o) == i && k != o {
        if k < o { NestedBlocks(p, k, o); } else { NestedBlocks(p, o, k); }
        assert false;
      }
    }
    if FreePage(pool, p) && Shr(p, o) != i {
      var k: nat :| FreeAt(pool, p, k);
      assert FreeAt(r, p, k);
    }
  }

  // ---- the pool is canonical ----

  ghost predicate HasFreeAncestor(pool: Pool, o: nat, i: nat) {
    exists k: nat :: o <= k < |pool| && Shr(i, k - o) in pool[k]
  }

  /** A block is wholly free exactly when it, or a block around it, is in the pool. */
  lemma {:induction false} AllFreeIffAncestor(pool: Pool, total: nat, o: nat, i: nat)
    requires Sound(pool, total) && o <= MAX_ORDER
    ensures AllFree(pool, o, i) <==> HasFreeAncestor(pool, o, i)
    decreases o, 1
  {
    if HasFreeAncestor(pool, o, i) {
      var k: nat :| o <= k < |pool| && Shr(i, k - o) in pool[k];
      forall p: nat | Shr(p, o) == i ensures FreePage(pool, p) {
        NestedBlocks(p, o, k);
        assert FreeAt(pool, p, k);
      }
    }
    if AllFree(pool, o, i) {
      if o == 0 {
        assert Shr(i, 0) == i;
        assert FreePage(pool, i);
        var k: nat :| FreeAt(pool, i, k);
        assert Shr(i, k - o) in pool[k];
      } else {
        HalfAncestor(pool, total, o, i, 2 * i);
        HalfAncestor(pool, total, o, i, 2 * i + 1);
        assert Buddy(2 * i) == 2 * i + 1;
      }
    }
  }

  /** A half of a wholly free block is itself free at its order, or the whole has a free ancestor. */
  lemma {:induction false} HalfAncestor(pool: Pool, total: nat, o: nat, i: nat, half: nat)
    requires Sound(pool, total) && 0 < o <= MAX_ORDER && AllFree(pool, o, i)
    requires half / 2 == i
    ensures half in pool[o - 1] || HasFreeAncestor(pool, o, i)
    decreases o, 0
  {
    forall p: nat | Shr(p, o - 1) == half ensures FreePage(pool, p) {
      ShrSucc(p, o - 1);
    }
    AllFreeIffAncestor(pool, total, o - 1, half);
    var k: nat :| o - 1 <= k < |pool| && Shr(half, k - (o - 1)) in pool[k];
    if k >= o {
      assert Shr(half, k - (o - 1)) == Shr(i, k - o);
    }
  }

  /** Membership in the pool is a property of the set of free pages alone: a block is in the pool
      exactly when it is wholly free and its parent is not. */
  lemma Canonical(pool: Pool, total: nat, o: nat, i: nat)
    requires Sound(pool, total) && o <= MAX_ORDER
    ensures i in pool[o] <==> AllFree(pool, o, i) && (o == MAX_ORDER || !AllFree(pool, o + 1, i / 2))
  {
    AllFreeIffAncestor(pool, total, o, i);
    if i in pool[o] {
      assert Shr(i, o - o) in pool[o];
    }
    if o < MAX_ORDER {
      AllFreeIffAncestor(pool, total, o + 1, i / 2);
    }
    if AllFree(pool, o, i) && i !in pool[o] {
      var k: nat :| o <= k < |pool| && Shr(i, k - o) in pool[k];
      assert k > o && Shr(i / 2, k - (o + 1)) in pool[k];
    }
  }

  /** Two sound pools with the same free pages are identical, order by order. */
  lemma SamePagesSamePool(a: Pool, b: Pool, total: nat)
    requires Sound(a, total) && Sound(b, total)
    requires forall p: nat :: FreePage(a, p) == FreePage(b, p)
    ensures a == b
  {
    forall o: nat | o <= MAX_ORDER ensures a[o] == b[o] {
      forall i: nat ensures i in a[o] <==> i in b[o] {
        Canonical(a, total, o, i);
        Canonical(b, total, o, i);
        assert AllFree(a, o, i) == AllFree(b, o, i);
        assert AllFree(a, o + 1, i / 2) == AllFree(b, o + 1, i / 2);
      }
    }
  }

  // ---- allocation ----

  /** Least order from `o` up that has a free block; `|pool|` if there is none. */
  function SourceOrder(pool: Pool, o: nat): (s: nat)
    requires o <= |pool|
    ensures o <= s <= |pool|
    ensures forall k: nat | o <= k < s :: pool[k] == {}
    ensures s < |pool| ==> pool[s] != {}
    decreases |pool| - o
  {
    if o == |pool| || pool[o] != {} then o else SourceOrder(pool, o + 1)
  }

  /** Give back the upper halves while narrowing block `(s, j)` down to order `k`. */
  function Split(pool: Pool, s: nat, k: nat, j: nat): (r: Pool)
    requires k <= s < |pool|
    ensures |r| == |pool|
    decreases s - k
  {
    if s == k then pool else Split(Push(pool, s - 1, 2 * j + 1), s - 1, k, 2 * j)
  }

  ghost function Allocate(pool: Pool, order: nat): (Pool, Option<nat>)
    requires |pool| == MAX_ORDER + 1
  {
    if order > MAX_ORDER then (pool, None)
    else
      var s := SourceOrder(pool, order);
      if s == |pool| then (pool, None)
      else
        var j := Least(pool[s]);
        (Split(Remove(pool, s, j), s, order, j), Some(Shl(j, s)))
  }

  lemma {:induction false} SplitSound(pool: Pool, total: nat, s: nat, k: nat, j: nat)
    requires Sound(pool, total) && k <= s <= MAX_ORDER && InRange(total, s, j)
    requires NoneFree(pool, s, j)
    requires forall o: nat | k <= o < s :: pool[o] == {}
    ensures Sound(Split(pool, s, k, j), total)
    ensures forall p: nat ::
      FreePage(Split(pool, s, k, j), p) <==>
      FreePage(pool, p) || (Shr(p, s) == j && Shr(p, k) != Shl(j, s - k))
    decreases s - k
  {
    if s > k {
      var q := Push(pool, s - 1, 2 * j + 1);
      HalvesInRange(total, s - 1, j);
      forall p: nat | Shr(p, s - 1) == 2 * j + 1 ensures !FreePage(pool, p) {
        ShrSucc(p, s - 1);
      }
      PushSound(pool, total, s - 1, 2 * j + 1);
      forall p: nat ensures FreePage(q, p) <==> FreePage(pool, p) || Shr(p, s - 1) == 2 * j + 1 {
        PushPages(pool, s - 1, 2 * j + 1, p);
      }
      forall p: nat | Shr(p, s - 1) == 2 * j ensures !FreePage(q, p) {
        ShrSucc(p, s - 1);
      }
      SplitSound(q, total, s - 1, k, 2 * j);
      ShlDouble(j, s - 1 - k);
      forall p: nat ensures FreePage(Split(pool, s, k, j), p) <==>
                            FreePage(pool, p) || (Shr(p, s) == j && Shr(p, k) != Shl(j, s - k)) {
        ShrSucc(p, s - 1);
        if Shr(p, k) == Shl(j, s - k) {
          FirstPart(p, k, s, j);
        }
      }
    }
  }

  lemma HalvesInRange(total: nat, o: nat, i: nat)
    requires InRange(total, o + 1, i)
    ensures InRange(total, o, 2 * i) && InRange(total, o, 2 * i + 1)
  {
    ShlDouble(i + 1, o);
    ShlSucc(2 * i + 1, o);
  }

  lemma ParentInRange(total: nat, o: nat, i: nat)
    requires InRange(total, o, i) && InRange(total, o, Buddy(i))
    ensures InRange(total, o + 1, i / 2)
  {
    ShlDouble(i / 2 + 1, o);
  }

  /** A page in the first order-`k` part of block `(s, j)` is not in its upper half. */
  lemma FirstPart(p: nat, k: nat, s: nat, j: nat)
    requires k < s && Shr(p, k) == Shl(j, s - k)
    ensures Shr(p, s - 1) == 2 * j
  {
    NestedBlocks(p, k, s - 1);
    ShrStart(s - 1 - k, 2 * j);
    ShlDouble(j, s - 1 - k);
  }

  ghost predicate SomeBlockFree(pool: Pool, o: nat) {
    exists i: nat :: AllFree(pool, o, i)
  }

  /** Allocation is complete and exact: it succeeds exactly when some aligned run of `Pow2(order)`
      pages is wholly free, and then takes precisely such a run out of the pool. */
  lemma AllocateExact(pool: Pool, total: nat, order: nat)
    requires Sound(pool, total)
    ensures var (q, r) := Allocate(pool, order);
            && Sound(q, total)
            && (r.Some? <==> order <= MAX_ORDER && SomeBlockFree(pool, order))
            && (r.None? ==> q == pool)
            && (r.Some? ==>
                  var i := Shr(r.value, order);
                  && r.value == Shl(i, order) && InRange(total, order, i)
                  && AllFree(pool, order, i)
                  && forall p: nat :: FreePage(q, p) <==> FreePage(pool, p) && Shr(p, order) != i)
  {
    if order <= MAX_ORDER {
      var s := SourceOrder(pool, order);
      if s == |pool| {
        forall i: nat ensures !AllFree(pool, order, i) {
          AllFreeIffAncestor(pool, total, order, i);
        }
      } else {
        var j := Least(pool[s]);
        AllocateFrom(pool, total, s, order, j);
      }
    }
  }

  /** Which run is handed out: the start of the lowest block of the smallest order that has one. */
  lemma AllocateChoice(pool: Pool, total: nat, order: nat)
    requires Sound(pool, total) && Allocate(pool, order).1.Some?
    ensures exists s: nat, j: nat ::
      && order <= s <= MAX_ORDER && j in pool[s] && Allocate(pool, order).1.value == Shl(j, s)
      && (forall k: nat | order <= k < s :: pool[k] == {})
      && (forall i | i in pool[s] :: j <= i)
  {
    var s := SourceOrder(pool, order);
    var j := Least(pool[s]);
    assert order <= s <= MAX_ORDER && j in pool[s] && Allocate(pool, order).1.value == Shl(j, s);
  }

  lemma AllocateFrom(pool: Pool, total: nat, s: nat, order: nat, j: nat)
    requires Sound(pool, total) && order <= s <= MAX_ORDER && j in pool[s]
    requires forall o: nat | order <= o < s :: pool[o] == {}
    ensures var q := Split(Remove(pool, s, j), s, order, j);
            var i := Shr(Shl(j, s), order);
            && Sound(q, total)
            && Shl(j, s) == Shl(i, order) && InRange(total, order, i)
            && AllFree(pool, order, i)
            && forall p: nat :: FreePage(q, p) <==> FreePage(pool, p) && Shr(p, order) != i
  {
    var rest := Remove(pool, s, j);
    var q := Split(rest, s, order, j);
    var i := Shl(j, s - order);
    ShlAdd(j, s - order, order);
    ShrStart(order, i);
    RemoveSound(pool, total, s, j);
    forall p: nat ensures FreePage(rest, p) <==> FreePage(pool, p) && Shr(p, s) != j {
      RemovePages(pool, total, s, j, p);
    }
    SplitSound(rest, total, s, order, j);
    ShrStart(s - order, j);
    forall p: nat | Shr(p, order) == i ensures Shr(p, s) == j {
      NestedBlocks(p, order, s);
    }
    forall p: nat | Shr(p, s) == j ensures FreePage(pool, p) {
      assert FreeAt(pool, p, s);
    }
    assert InRange(total, order, i) by {
      var last := Shl(i, order) + (Pow2(order) - 1);
      ShlSucc(i, order);
      ShrRange(last, order, i);
      NestedBlocks(last, order, s);
      ShrRange(last, s, j);
    }
  }

  // ---- freeing ----

  /** `BuddyAllocator::free` on the pool, for every argument: merge with the buddy while it is free. */
  function Free(pool: Pool, total: nat, pfn: nat, order: nat): (r: Pool)
    requires |pool| == MAX_ORDER + 1
    ensures |r| == |pool|
    decreases MAX_ORDER + 1 - order
  {
    if order > MAX_ORDER then pool
    else if Shr(pfn, order) in pool[order] then pool
    else if pfn + Pow2(order) > total then
      if pfn < total then Push(pool, order, Shr(pfn, order)) else pool
    else
      var buddy := Xor(pfn, Pow2(order));
      if order < MAX_ORDER && buddy + Pow2(order) <= total && Shr(buddy, order) in pool[order] then
        Free(Remove(pool, order, Shr(buddy, order)), total, AndNot(pfn, Pow2(order)), order + 1)
      else
        Push(pool, order, Shr(pfn, order))
  }

  /** An aligned in-range block of a sound pool, none of whose pages is free: what `free` is for. */
  ghost predicate FreshBlock(pool: Pool, total: nat, pfn: nat, order: nat) {
    && Sound(pool, total)
    && order <= MAX_ORDER
    && pfn == Shl(Shr(pfn, order), order)
    && InRange(total, order, Shr(pfn, order))
    && NoneFree(pool, order, Shr(pfn, order))
  }

  lemma {:induction false} XorOfAligned(o: nat, i: nat)
    ensures Xor(Shl(i, o), Pow2(o)) == Shl(Buddy(i), o)
    ensures AndNot(Shl(i, o), Pow2(o)) == Shl(i / 2, o + 1)
  {
    if o == 0 {
      AndNotOne(i);
    } else {
      XorOfAligned(o - 1, i);
      DoubledXor(Shl(i, o - 1), Pow2(o - 1));
      DoubledAndNot(Shl(i, o - 1), Pow2(o - 1));
    }
  }

  lemma DoubledXor(a: nat, b: nat)
    ensures Xor(2 * a, 2 * b) == 2 * Xor(a, b)
  {
    if a > 0 && b > 0 {
      var x, y := 2 * a, 2 * b;
      assert x / 2 == a && y / 2 == b && x % 2 == 0 && y % 2 == 0;
      assert Xor(x, y) == 2 * Xor(x / 2, y / 2);
    }
  }

  lemma DoubledAndNot(a: nat, b: nat)
    ensures AndNot(2 * a, 2 * b) == 2 * AndNot(a, b)
  {
    if a > 0 {
      var x, y := 2 * a, 2 * b;
      assert x / 2 == a && y / 2 == b && x % 2 == 0;
      assert AndNot(x, y) == 2 * AndNot(x / 2, y / 2);
    }
  }

  lemma {:induction false} AndNotZero(a: nat)
    ensures AndNot(a, 0) == a
  {
    if a > 0 {
      AndNotZero(a / 2);
    }
  }

  lemma AndNotOne(i: nat)
    ensures Xor(i, 1) == Buddy(i)
    ensures AndNot(i, 1) == 2 * (i / 2)
  {
    AndNotZero(i / 2);
    assert Xor(i / 2, 0) == i / 2;
  }

  /** One level of `Free`, with the page arithmetic named. */
  lemma FreeByParts(pool: Pool, total: nat, pfn: nat, o: nat, buddy: nat, parent: nat)
    requires |pool| == MAX_ORDER + 1 && o <= MAX_ORDER && pfn + Pow2(o) <= total
    requires buddy == Xor(pfn, Pow2(o)) && parent == AndNot(pfn, Pow2(o))
    ensures Free(pool, total, pfn, o) ==
            if Shr(pfn, o) in pool[o] then pool
            else if o < MAX_ORDER && buddy + Pow2(o) <= total && Shr(buddy, o) in pool[o] then
              Free(Remove(pool, o, Shr(buddy, o)), total, parent, o + 1)
            else Push(pool, o, Shr(pfn, o))
  {
  }

  /** One level of `Free` on an aligned block. */
  lemma FreeUnfold(pool: Pool, total: nat, o: nat, i: nat)
    requires |pool| == MAX_ORDER + 1 && o <= MAX_ORDER && InRange(total, o, i)
    ensures Free(pool, total, Shl(i, o), o) ==
            if i in pool[o] then pool
            else if o < MAX_ORDER && InRange(total, o, Buddy(i)) && Buddy(i) in pool[o] then
              Free(Remove(pool, o, Buddy(i)), total, Shl(i / 2, o + 1), o + 1)
            else Push(pool, o, i)
  {
    ShrStart(o, i);
    ShrStart(o, Buddy(i));
    XorOfAligned(o, i);
    ShlSucc(i, o);
    ShlSucc(Buddy(i), o);
    FreeByParts(pool, total, Shl(i, o), o, Shl(Buddy(i), o), Shl(i / 2, o + 1));
  }

  /** Freeing a wholly used block keeps the pool sound and adds exactly the block's pages. */
  lemma {:induction false} FreeExact(pool: Pool, total: nat, o: nat, i: nat)
    requires Sound(pool, total) && o <= MAX_ORDER && InRange(total, o, i)
    requires NoneFree(pool, o, i)
    ensures var r := Free(pool, total, Shl(i, o), o);
            Sound(r, total) && forall p: nat :: FreePage(r, p) <==> FreePage(pool, p) || Shr(p, o) == i
    decreases MAX_ORDER - o
  {
    FreeUnfold(pool, total, o, i);
    NoneFreeBlocks(pool, o, i);
    assert Shr(i, o - o) !in pool[o];
    if o < MAX_ORDER && Buddy(i) in pool[o] {
      var q := Remove(pool, o, Buddy(i));
      assert InRange(total, o, Buddy(i));
      ParentInRange(total, o, i);
      RemoveSound(pool, total, o, Buddy(i));
      forall p: nat ensures FreePage(q, p) <==> FreePage(pool, p) && Shr(p, o) != Buddy(i) {
        RemovePages(pool, total, o, Buddy(i), p);
      }
      forall p: nat ensures Shr(p, o + 1) == i / 2 <==> Shr(p, o) == i || Shr(p, o) == Buddy(i) {
        ShrSucc(p, o);
      }
      FreeExact(q, total, o + 1, i / 2);
      forall p: nat | Shr(p, o) == Buddy(i) ensures FreePage(pool, p) {
        assert FreeAt(pool, p, o);
      }
    } else {
      PushSound(pool, total, o, i);
      forall p: nat ensures FreePage(Push(pool, o, i), p) <==> FreePage(pool, p) || Shr(p, o) == i {
        PushPages(pool, o, i, p);
      }
    }
  }

  /** Whatever the pool, freeing an in-range block leaves it covered and lower orders untouched. */
  lemma {:induction false} FreeCovers(pool: Pool, total: nat, o: nat, i: nat)
    requires |pool| == MAX_ORDER + 1 && o <= MAX_ORDER && InRange(total, o, i)
    ensures var r := Free(pool, total, Shl(i, o), o);
            HasFreeAncestor(r, o, i) && forall a: nat | a < o :: r[a] == pool[a]
    decreases MAX_ORDER - o
  {
    FreeUnfold(pool, total, o, i);
    var r := Free(pool, total, Shl(i, o), o);
    if i in pool[o] {
      assert Shr(i, o - o) in r[o];
    } else if o < MAX_ORDER && InRange(total, o, Buddy(i)) && Buddy(i) in pool[o] {
      ParentInRange(total, o, i);
      FreeCovers(Remove(pool, o, Buddy(i)), total, o + 1, i / 2);
      var k: nat :| o + 1 <= k < |r| && Shr(i / 2, k - (o + 1)) in r[k];
      assert Shr(i, k - o) in r[k];
    } else {
      assert Shr(i, o - o) in r[o];
    }
  }

  /** A block that meets a smaller free block, freed anyway, ends up overlapping it. */
  lemma FreeOverSmaller(pool: Pool, total: nat, o: nat, i: nat, p: nat, k: nat)
    requires |pool| == MAX_ORDER + 1 && o <= MAX_ORDER && InRange(total, o, i)
    requires Shr(p, o) == i && k < o && FreeAt(pool, p, k)
    ensures !Disjoint(Free(pool, total, Shl(i, o), o))
  {
    var r := Free(pool, total, Shl(i, o), o);
    FreeCovers(pool, total, o, i);
    var m: nat :| o <= m < |r| && Shr(i, m - o) in r[m];
    NestedBlocks(p, o, m);
    NestedBlocks(p, k, m);
    assert Shr(p, k) in r[k];
  }

  /** A block inside a larger free block, freed anyway, ends up overlapping it. */
  lemma FreeInsideLarger(pool: Pool, total: nat, o: nat, i: nat, p: nat, k: nat)
    requires Sound(pool, total) && o <= MAX_ORDER && InRange(total, o, i)
    requires Shr(p, o) == i && o < k && FreeAt(pool, p, k)
    ensures !Disjoint(Free(pool, total, Shl(i, o), o))
  {
    FreeUnfold(pool, total, o, i);
    NestedBlocks(p, o, k);
    assert Shr(Buddy(i), k - o) == Shr(i, k - o);
    var r := Free(pool, total, Shl(i, o), o);
    assert i in r[o] && Shr(i, k - o) in r[k];
  }

  /** The double-free check sees only the same order: freeing an aligned in-range block keeps the pool
      sound exactly when no page of it was free or the very same block was (then nothing happens). */
  lemma FreeInRangeIff(pool: Pool, total: nat, o: nat, i: nat)
    requires Sound(pool, total) && o <= MAX_ORDER && InRange(total, o, i)
    ensures Sound(Free(pool, total, Shl(i, o), o), total) <==> NoneFree(pool, o, i) || i in pool[o]
  {
    if NoneFree(pool, o, i) {
      FreeExact(pool, total, o, i);
    } else if i in pool[o] {
      FreeUnfold(pool, total, o, i);
    } else {
      var p: nat :| Shr(p, o) == i && FreePage(pool, p);
      var k: nat :| FreeAt(pool, p, k);
      if k < o {
        FreeOverSmaller(pool, total, o, i, p, k);
      } else {
        FreeInsideLarger(pool, total, o, i, p, k);
      }
    }
  }

  /** A block that starts inside the memory and ends beyond it is pushed as it is. */
  lemma FreeOverhang(pool: Pool, total: nat, o: nat, i: nat)
    requires Sound(pool, total) && o <= MAX_ORDER && Shl(i, o) < total && !InRange(total, o, i)
    ensures Free(pool, total, Shl(i, o), o) == Push(pool, o, i)
    ensures !Sound(Free(pool, total, Shl(i, o), o), total)
  {
    ShrStart(o, i);
    ShlSucc(i, o);
    assert i in Push(pool, o, i)[o];
  }

  /** What a caller can check before freeing: the call is ignored, or the block is in range and all in use. */
  ghost predicate FreeIsSafe(pool: Pool, total: nat, pfn: nat, order: nat)
    requires |pool| == MAX_ORDER + 1
  {
    || order > MAX_ORDER
    || Shr(pfn, order) in pool[order]
    || pfn >= total
    || (InRange(total, order, Shr(pfn, order)) && NoneFree(pool, order, Shr(pfn, order)))
  }

  /** The exact condition under which freeing an aligned block, of any order and anywhere, keeps the pool sound. */
  lemma FreeSoundIff(pool: Pool, total: nat, o: nat, i: nat)
    requires Sound(pool, total)
    ensures Sound(Free(pool, total, Shl(i, o), o), total) <==> FreeIsSafe(pool, total, Shl(i, o), o)
  {
    ShrStart(o, i);
    ShlSucc(i, o);
    if o <= MAX_ORDER && Shl(i, o) < total {
      if InRange(total, o, i) {
        FreeInRangeIff(pool, total, o, i);
      } else {
        FreeOverhang(pool, total, o, i);
      }
    }
  }

  lemma EmptyPoolSound(total: nat)
    ensures Sound(EmptyPool(), total) && forall p: nat :: !FreePage(EmptyPool(), p)
  {
  }

  /** Two pages merged into one block, one of them freed again: the guard looks at order 0, the block is at order 1. */
  lemma DoubleFreeUnseen()
    ensures var merged := FreeRegion(EmptyPool(), 2, 0, 2);
      && Sound(merged, 2) && FreePage(merged, 0)
      && !Sound(Free(merged, 2, 0, 0), 2)
  {
    var merged := FreeRegion(EmptyPool(), 2, 0, 2);
    EmptyPoolSound(2);
    FreeRegionExact(EmptyPool(), 2, 0, 2);
    Canonical(merged, 2, 0, 0);
    forall p: nat | Shr(p, 1) == 0 ensures FreePage(merged, p) {
      assert Shr(p, 1) == Shr(p / 2, 0);
    }
    assert Shr(0, 0) == 0 && Shl(0, 0) == 0;
    FreeSoundIff(merged, 2, 0, 0);
    assert FreePage(merged, 0);
  }

  /** Three pages, and a block of two that starts at the last of them. */
  lemma OverhangUnseen()
    ensures Sound(EmptyPool(), 3) && NoneFree(EmptyPool(), 1, 1)
    ensures !Sound(Free(EmptyPool(), 3, 2, 1), 3)
  {
    EmptyPoolSound(3);
    assert Shl(1, 1) == 2 * Shl(1, 0);
    assert Shl(2, 1) == 2 * Shl(2, 0);
    FreeOverhang(EmptyPool(), 3, 1, 1);
  }

  // ---- regions and any order of frees ----

  /** Free the pages `start .. end` one at a time. */
  function FreeRegion(pool: Pool, total: nat, start: nat, end: nat): (r: Pool)
    requires |pool| == MAX_ORDER + 1
    ensures |r| == |pool|
    decreases if start < end then end - start else 0
  {
    if start >= end then pool else FreeRegion(Free(pool, total, start, 0), total, start + 1, end)
  }

  datatype Block = Block(order: nat, index: nat)

  predicate InBlock(b: Block, p: nat) {
    Shr(p, b.order) == b.index
  }

  /** Free the listed blocks one at a time. */
  function FreeEach(pool: Pool, total: nat, blocks: seq<Block>): (r: Pool)
    requires |pool| == MAX_ORDER + 1
    ensures |r| == |pool|
    decreases |blocks|
  {
    if blocks == [] then pool
    else FreeEach(Free(pool, total, Shl(blocks[0].index, blocks[0].order), blocks[0].order), total, blocks[1..])
  }

  ghost predicate Listed(blocks: seq<Block>, p: nat) {
    exists k :: 0 <= k < |blocks| && InBlock(blocks[k], p)
  }

  /** Disjoint blocks in range, none of whose pages is free. */
  ghost predicate AllInUse(pool: Pool, total: nat, blocks: seq<Block>) {
    && (forall k | 0 <= k < |blocks| :: blocks[k].order <= MAX_ORDER && InRange(total, blocks[k].order, blocks[k].index))
    && (forall k | 0 <= k < |blocks| :: NoneFree(pool, blocks[k].order, blocks[k].index))
    && (forall k, l, p: nat | 0 <= k < l < |blocks| && InBlock(blocks[k], p) :: !InBlock(blocks[l], p))
  }

  lemma FreeOnePage(pool: Pool, total: nat, page: nat)
    requires Sound(pool, total) && page < total && !FreePage(pool, page)
    ensures Sound(Free(pool, total, page, 0), total)
    ensures forall p: nat :: FreePage(Free(pool, total, page, 0), p) <==> FreePage(pool, p) || p == page
  {
    assert Shl(page, 0) == page && Shl(page + 1, 0) == page + 1;
    forall p: nat ensures Shr(p, 0) == p {
    }
    FreeExact(pool, total, 0, page);
  }

  lemma {:induction false} FreeRegionExact(pool: Pool, total: nat, start: nat, end: nat)
    requires Sound(pool, total) && end <= total
    requires forall p: nat | start <= p < end :: !FreePage(pool, p)
    ensures Sound(FreeRegion(pool, total, start, end), total)
    ensures forall p: nat ::
      FreePage(FreeRegion(pool, total, start, end), p) <==> FreePage(pool, p) || start <= p < end
    decreases if start < end then end - start else 0
  {
    if start < end {
      FreeOnePage(pool, total, start);
      FreeRegionExact(Free(pool, total, start, 0), total, start + 1, end);
    }
  }

  lemma {:induction false} FreeEachExact(pool: Pool, total: nat, blocks: seq<Block>)
    requires Sound(pool, total) && AllInUse(pool, total, blocks)
    ensures Sound(FreeEach(pool, total, blocks), total)
    ensures forall p: nat :: FreePage(FreeEach(pool, total, blocks), p) <==> FreePage(pool, p) || Listed(blocks, p)
    decreases |blocks|
  {
    if blocks != [] {
      var b, rest := blocks[0], blocks[1..];
      var q := Free(pool, total, Shl(b.index, b.order), b.order);
      FreeExact(pool, total, b.order, b.index);
      forall k | 0 <= k < |rest| ensures NoneFree(q, rest[k].order, rest[k].index) {
        assert rest[k] == blocks[k + 1];
        forall p: nat | Shr(p, rest[k].order) == rest[k].index ensures !FreePage(q, p) {
          assert InBlock(blocks[k + 1], p);
        }
      }
      FreeEachExact(q, total, rest);
      forall p: nat ensures Listed(blocks, p) <==> InBlock(b, p) || Listed(rest, p) {
        ListedFirst(blocks, p);
      }
    }
  }

  lemma ListedFirst(blocks: seq<Block>, p: nat)
    requires blocks != []
    ensures Listed(blocks, p) <==> InBlock(blocks[0], p) || Listed(blocks[1..], p)
  {
    if Listed(blocks, p) {
      var k :| 0 <= k < |blocks| && InBlock(blocks[k], p);
      assert k == 0 || InBlock(blocks[1..][k - 1], p);
    }
    if Listed(blocks[1..], p) {
      var k :| 0 <= k < |blocks[1..]| && InBlock(blocks[1..][k], p);
      assert InBlock(blocks[k + 1], p);
    }
  }

  /** Freeing the same pages, cut into blocks of any orders and in any sequence, gives the identical pool. */
  lemma FreeOrderIndependent(pool: Pool, total: nat, xs: seq<Block>, ys: seq<Block>)
    requires Sound(pool, total) && AllInUse(pool, total, xs) && AllInUse(pool, total, ys)
    requires forall p: nat :: Listed(xs, p) <==> Listed(ys, p)
    ensures FreeEach(pool, total, xs) == FreeEach(pool, total, ys)
  {
    FreeEachExact(pool, total, xs);
    FreeEachExact(pool, total, ys);
    SamePagesSamePool(FreeEach(pool, total, xs), FreeEach(pool, total, ys), total);
  }

  // ---- counting ----

  ghost function FreePages(pool: Pool, total: nat): set<nat> {
    set p: nat | p < total && FreePage(pool, p)
  }

  function Interval(lo: nat, hi: nat): (r: set<nat>)
    ensures forall p: nat :: p in r <==> lo <= p < hi
    decreases if lo < hi then hi - lo else 0
  {
    if lo >= hi then {} else {lo} + Interval(lo + 1, hi)
  }

  /** Pages in the free blocks of order `o` and up, as `free_count` adds them. */
  function CountFrom(pool: Pool, o: nat): nat
    requires o <= |pool|
    decreases |pool| - o
  {
    if o == |pool| then 0 else |pool[o]| * Pow2(o) + CountFrom(pool, o + 1)
  }

  lemma {:induction false} IntervalSize(lo: nat, hi: nat)
    requires lo <= hi
    ensures |Interval(lo, hi)| == hi - lo
    decreases hi - lo
  {
    if lo < hi {
      IntervalSize(lo + 1, hi);
      assert Interval(lo, hi) == Interval(lo + 1, hi) + {lo};
    } else {
      assert Interval(lo, hi) == {};
    }
  }

  /** The `Pow2(o)` pages of block `(o, i)`. */
  function PagesOf(o: nat, i: nat): (r: set<nat>)
    ensures forall p: nat :: p in r <==> Shr(p, o) == i
    ensures |r| == Pow2(o)
  {
    ShlSucc(i, o);
    IntervalSize(Shl(i, o), Shl(i + 1, o));
    assert forall p: nat :: Shr(p, o) == i <==> Shl(i, o) <= p < Shl(i + 1, o) by {
      forall p: nat ensures Shr(p, o) == i <==> Shl(i, o) <= p < Shl(i + 1, o) {
        ShrRange(p, o, i);
      }
    }
    Interval(Shl(i, o), Shl(i + 1, o))
  }

  lemma PagesInRange(total: nat, o: nat, i: nat, p: nat)
    requires InRange(total, o, i) && Shr(p, o) == i
    ensures p < total
  {
    ShrRange(p, o, i);
  }

  lemma OneLess(n: nat, x: nat)
    requires n > 0
    ensures (n - 1) * x == n * x - x
  {
  }

  lemma {:induction false} CountRemove(pool: Pool, o: nat, i: nat, k: nat)
    requires k <= |pool| && o < |pool| && i in pool[o]
    ensures CountFrom(Remove(pool, o, i), k) == CountFrom(pool, k) - if k <= o then Pow2(o) else 0
    decreases |pool| - k
  {
    if k < |pool| {
      CountRemove(pool, o, i, k + 1);
      if k == o {
        OneLess(|pool[o]|, Pow2(o));
      }
    }
  }

  lemma {:induction false} CountNone(pool: Pool, k: nat)
    requires k <= |pool| && forall o: nat | k <= o < |pool| :: pool[o] == {}
    ensures CountFrom(pool, k) == 0
    decreases |pool| - k
  {
    if k < |pool| {
      CountNone(pool, k + 1);
    }
  }

  lemma RemoveCount(pool: Pool, total: nat, o: nat, i: nat)
    requires Sound(pool, total) && o <= MAX_ORDER && i in pool[o]
    ensures |FreePages(pool, total)| == |FreePages(Remove(pool, o, i), total)| + Pow2(o)
  {
    var all, rest, block := FreePages(pool, total), FreePages(Remove(pool, o, i), total), PagesOf(o, i);
    assert InRange(total, o, i);
    forall p: nat ensures p in all <==> p in rest || p in block
                  ensures p in block ==> p !in rest {
      RemovePages(pool, total, o, i, p);
      if p in block {
        PagesInRange(total, o, i, p);
        assert FreeAt(pool, p, o);
      }
    }
    assert all == rest + block;
    assert rest !! block;
  }

  /** `free_count` is the number of free pages. */
  lemma {:induction false} CountIsFreePages(pool: Pool, total: nat)
    requires Sound(pool, total)
    ensures CountFrom(pool, 0) == |FreePages(pool, total)|
    decreases CountFrom(pool, 0)
  {
    if exists o: nat :: o < |pool| && pool[o] != {} {
      var o: nat :| o < |pool| && pool[o] != {};
      var i :| i in pool[o];
      CountRemove(pool, o, i, 0);
      RemoveSound(pool, total, o, i);
      CountIsFreePages(Remove(pool, o, i), total);
      RemoveCount(pool, total, o, i);
    } else {
      CountNone(pool, 0);
      assert FreePages(pool, total) == {};
    }
  }

  // ---- runs ----

  datatype Op =
    | AddRegion(start: nat, count: nat)
    | Alloc(order: nat)
    | Release(pfn: nat, order: nat)

  /** The pool, the blocks handed out and not yet given back, and every page ever added. */
  datatype State = State(pool: Pool, out: set<Block>, added: set<nat>)

  ghost predicate Held(out: set<Block>, p: nat) {
    exists b :: b in out && InBlock(b, p)
  }

  /** Where the loop over a region stops. */
  function RegionEnd(total: nat, start: nat, count: nat): nat {
    if start + count < total then start + count else total
  }

  /** The pages of a region that the memory has. */
  function RegionPages(total: nat, start: nat, count: nat): (pages: set<nat>)
    ensures forall p: nat :: p in pages <==> p < total && start <= p < start + count
  {
    Interval(start, RegionEnd(total, start, count))
  }

  /** Adding a region frees exactly the pages of it that the memory has. */
  lemma AddRegionExact(pool: Pool, total: nat, start: nat, count: nat)
    requires Sound(pool, total)
    requires forall p: nat | p < total && start <= p < start + count :: !FreePage(pool, p)
    ensures var r := FreeRegion(pool, total, start, RegionEnd(total, start, count));
      && Sound(r, total)
      && forall p: nat :: FreePage(r, p) <==> FreePage(pool, p) || (p < total && start <= p < start + count)
  {
    FreeRegionExact(pool, total, start, RegionEnd(total, start, count));
  }

  /** What callers must respect: a region is added once, and only a handed-out block is given back. */
  ghost predicate Allowed(s: State, total: nat, op: Op) {
    match op
    case AddRegion(start, count) => forall p: nat | p < total && start <= p < start + count :: p !in s.added
    case Alloc(order) => true
    case Release(pfn, order) => Block(order, Shr(pfn, order)) in s.out && pfn == Shl(Shr(pfn, order), order)
  }

  ghost function Apply(s: State, total: nat, op: Op): (r: State)
    requires |s.pool| == MAX_ORDER + 1
    ensures |r.pool| == MAX_ORDER + 1
  {
    match op
    case AddRegion(start, count) =>
      State(FreeRegion(s.pool, total, start, RegionEnd(total, start, count)), s.out,
            s.added + RegionPages(total, start, count))
    case Alloc(order) =>
      var (q, r) := Allocate(s.pool, order);
      if r.None? then s else State(q, s.out + {Block(order, Shr(r.value, order))}, s.added)
    case Release(pfn, order) =>
      State(Free(s.pool, total, pfn, order), s.out - {Block(order, Shr(pfn, order))}, s.added)
  }

  ghost predicate BlocksDisjoint(out: set<Block>) {
    forall b, c, p: nat | b in out && c in out && InBlock(b, p) && InBlock(c, p) :: b == c
  }

  ghost predicate Inv(s: State, total: nat) {
    && Sound(s.pool, total)
    && (forall b | b in s.out :: b.order <= MAX_ORDER && InRange(total, b.order, b.index))
    && BlocksDisjoint(s.out)
    && (forall p: nat | FreePage(s.pool, p) :: !Held(s.out, p))
    && (forall p: nat :: p in s.added <==> FreePage(s.pool, p) || Held(s.out, p))
  }

  lemma AllocKeepsInv(s: State, total: nat, order: nat)
    requires Inv(s, total)
    ensures Inv(Apply(s, total, Alloc(order)), total)
  {
    AllocateExact(s.pool, total, order);
    var (q, r) := Allocate(s.pool, order);
    if r.Some? {
      var b := Block(order, Shr(r.value, order));
      var out := s.out + {b};
      forall p: nat | InBlock(b, p) ensures !Held(s.out, p) {
        assert FreePage(s.pool, p);
      }
      forall p: nat ensures Held(out, p) <==> Held(s.out, p) || InBlock(b, p) {
        if Held(out, p) {
          var c :| c in out && InBlock(c, p);
          assert c in s.out || c == b;
        }
        if InBlock(b, p) {
          assert b in out;
        }
      }
    }
  }

  lemma ReleaseKeepsInv(s: State, total: nat, pfn: nat, order: nat)
    requires Inv(s, total) && Allowed(s, total, Release(pfn, order))
    ensures Inv(Apply(s, total, Release(pfn, order)), total)
  {
    var b := Block(order, Shr(pfn, order));
    var out := s.out - {b};
    forall p: nat | InBlock(b, p) ensures !FreePage(s.pool, p) {
      assert Held(s.out, p);
    }
    FreeExact(s.pool, total, order, b.index);
    forall p: nat ensures Held(out, p) <==> Held(s.out, p) && !InBlock(b, p) {
      if Held(s.out, p) {
        var c :| c in s.out && InBlock(c, p);
        assert c != b ==> c in out;
        assert InBlock(b, p) ==> c == b;
      }
    }
  }

  lemma AddKeepsInv(s: State, total: nat, start: nat, count: nat)
    requires Inv(s, total) && Allowed(s, total, AddRegion(start, count))
    ensures Inv(Apply(s, total, AddRegion(start, count)), total)
  {
    AddRegionExact(s.pool, total, start, count);
  }

  ghost predicate AllowedRun(s: State, total: nat, ops: seq<Op>)
    requires |s.pool| == MAX_ORDER + 1
    decreases |ops|
  {
    ops == [] || (Allowed(s, total, ops[0]) && AllowedRun(Apply(s, total, ops[0]), total, ops[1..]))
  }

  ghost function Run(s: State, total: nat, ops: seq<Op>): State
    requires |s.pool| == MAX_ORDER + 1
    decreases |ops|
  {
    if ops == [] then s else Run(Apply(s, total, ops[0]), total, ops[1..])
  }

  function Initial(): State {
    State(EmptyPool(), {}, {})
  }

  lemma {:induction false} RunKeepsInv(s: State, total: nat, ops: seq<Op>)
    requires Inv(s, total) && AllowedRun(s, total, ops)
    ensures Inv(Run(s, total, ops), total)
    decreases |ops|
  {
    if ops != [] {
      match ops[0] {
        case AddRegion(start, count) => AddKeepsInv(s, total, start, count);
        case Alloc(order) => AllocKeepsInv(s, total, order);
        case Release(pfn, order) => ReleaseKeepsInv(s, total, pfn, order);
      }
      RunKeepsInv(Apply(s, total, ops[0]), total, ops[1..]);
    }
  }

  // ---- conservation ----

  ghost function Pick(out: set<Block>): (b: Block)
    requires out != {}
    ensures b in out
  {
    var b :| b in out;
    b
  }

  /** Pages in a set of blocks, counted block by block. */
  ghost function BlockPages(out: set<Block>): nat {
    if out == {} then 0 else Pow2(Pick(out).order) + BlockPages(out - {Pick(out)})
  }

  ghost function HeldPages(out: set<Block>, total: nat): set<nat> {
    set p: nat | p < total && Held(out, p)
  }

  lemma HeldSplit(out: set<Block>, b: Block, p: nat)
    requires BlocksDisjoint(out) && b in out
    ensures Held(out, p) <==> Held(out - {b}, p) || InBlock(b, p)
    ensures InBlock(b, p) ==> !Held(out - {b}, p)
  {
    var rest := out - {b};
    if Held(out, p) && !InBlock(b, p) {
      var c :| c in out && InBlock(c, p);
      assert c in rest;
    }
    if Held(rest, p) {
      var c :| c in rest && InBlock(c, p);
      assert c in out && c != b;
    }
  }

  lemma HeldBlock(out: set<Block>, b: Block, total: nat)
    requires BlocksDisjoint(out) && b in out && InRange(total, b.order, b.index)
    ensures |HeldPages(out, total)| == |HeldPages(out - {b}, total)| + Pow2(b.order)
  {
    var all, rest, block := HeldPages(out, total), HeldPages(out - {b}, total), PagesOf(b.order, b.index);
    forall p: nat ensures p in all <==> p in rest || p in block
                  ensures p in block ==> p !in rest {
      HeldSplit(out, b, p);
      if p in block {
        PagesInRange(total, b.order, b.index, p);
      }
    }
    assert all == rest + block;
    assert rest !! block;
  }

  lemma {:induction false} HeldCount(out: set<Block>, total: nat)
    requires BlocksDisjoint(out)
    requires forall b | b in out :: InRange(total, b.order, b.index)
    ensures |HeldPages(out, total)| == BlockPages(out)
  {
    if out == {} {
      assert HeldPages(out, total) == {};
    } else {
      var b := Pick(out);
      HeldBlock(out, b, total);
      HeldCount(out - {b}, total);
    }
  }

  /** Free pages plus handed-out pages are the pages ever added. */
  lemma Conservation(s: State, total: nat)
    requires Inv(s, total)
    ensures CountFrom(s.pool, 0) + BlockPages(s.out) == |s.added|
  {
    CountIsFreePages(s.pool, total);
    HeldCount(s.out, total);
    var free, held := FreePages(s.pool, total), HeldPages(s.out, total);
    forall p: nat ensures p in s.added <==> p in free || p in held {
      if FreePage(s.pool, p) {
        PageInRange(s.pool, total, p);
      }
      if Held(s.out, p) {
        var b :| b in s.out && InBlock(b, p);
        ShrRange(p, b.order, b.index);
      }
    }
    assert s.added == free + held;
    assert free !! held;
  }

  lemma InitialInv(total: nat)
    ensures Inv(Initial(), total)
  {
  }

  /** Over every run of well-formed calls from a fresh allocator: the pool is sound, handed-out blocks
      never overlap each other or the pool, and free pages plus handed-out pages are the pages added. */
  lemma RunsAreSafe(total: nat, ops: seq<Op>)
    requires AllowedRun(Initial(), total, ops)
    ensures var s := Run(Initial(), total, ops);
            && Inv(s, total)
            && CountFrom(s.pool, 0) + BlockPages(s.out) == |s.added|
  {
    InitialInv(total);
    RunKeepsInv(Initial(), total, ops);
    Conservation(Run(Initial(), total, ops), total);
  }

  lemma PageInRange(pool: Pool, total: nat, p: nat)
    requires Sound(pool, total) && FreePage(pool, p)
    ensures p < total
  {
    var o: nat :| FreeAt(pool, p, o);
    assert InRange(total, o, Shr(p, o));
    ShrRange(p, o, Shr(p, o));
  }

  /** The pool after a run depends only on which pages were added and which blocks are still out. */
  lemma RunsConverge(total: nat, xs: seq<Op>, ys: seq<Op>)
    requires AllowedRun(Initial(), total, xs) && AllowedRun(Initial(), total, ys)
    requires Run(Initial(), total, xs).added == Run(Initial(), total, ys).added
    requires Run(Initial(), total, xs).out == Run(Initial(), total, ys).out
    ensures Run(Initial(), total, xs) == Run(Initial(), total, ys)
  {
    RunsAreSafe(total, xs);
    RunsAreSafe(total, ys);
    var s, t := Run(Initial(), total, xs), Run(Initial(), total, ys);
    forall p: nat ensures FreePage(s.pool, p) == FreePage(t.pool, p) {
      assert p in s.added <==> p in t.added;
    }
    SamePagesSamePool(s.pool, t.pool, total);
  }
}
