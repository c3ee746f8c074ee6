/** The buddy frame allocator of `kernel-core/src/buddy.rs` as it runs: per-order bitmaps and counters
changed in place, tied to the pool theory of `BuddyPools`. */
module BuddyAllocators {
  import opened Limits
  import opened Options
  import opened Sets
  import opened Words
  import P = BuddyPools
  import B = SummaryBitmaps

  function BlocksAtOrder(totalPages: nat, order: nat): nat {
    Shr(totalPages + Pow2(order) - 1, order)
  }

  lemma {:induction false} ShlMonotone(a: nat, b: nat, n: nat)
    requires a <= b
    ensures Shl(a, n) <= Shl(b, n)
  {
    if n > 0 {
      ShlMonotone(a, b, n - 1);
    }
  }

  /** Every managed page has a bit at every order. */
  lemma IndexFits(pfn: nat, total: nat, order: nat)
    requires pfn < total
    ensures Shr(pfn, order) < BlocksAtOrder(total, order)
  {
    var i, n := Shr(pfn, order), BlocksAtOrder(total, order);
    P.ShrRange(pfn, order, i);
    P.ShrRange(total + Pow2(order) - 1, order, n);
    P.ShlSucc(n, order);
    if i >= n {
      ShlMonotone(n, i, order);
    }
  }

  /** A word-sized saturating sum compares with a page count as the exact sum does. */
  lemma SaturatingCompare(a: nat, b: nat, total: nat)
    requires total < U64_MAX
    ensures SaturatingAdd(a, b) <= total <==> a + b <= total
  {
  }

  lemma FreeRegionStep(pool: P.Pool, total: nat, start: nat, end: nat)
    requires |pool| == P.MAX_ORDER + 1 && start < end
    ensures P.FreeRegion(pool, total, start, end) == P.FreeRegion(P.Free(pool, total, start, 0), total, start + 1, end)
  {
  }

  lemma SplitStep(pool: P.Pool, s: nat, k: nat, j: nat)
    requires k < s < |pool|
    ensures P.Split(pool, s, k, j) == P.Split(P.Push(pool, s - 1, 2 * j + 1), s - 1, k, 2 * j)
  {
  }

  class BuddyAllocator {
    const maps: seq<B.SummaryBitmap>
    const freeCounts: array<nat>
    const totalPages: nat
    /** What the bitmaps stand for. */
    ghost var pool: P.Pool

    /** Bitmap and counter of order `o` agree with the pool. */
    ghost predicate OrderValid(o: nat)
      requires |maps| == |pool| == freeCounts.Length && o < |maps|
      reads this, maps[o], freeCounts
    {
      && maps[o].Valid()
      && maps[o].bits == BlocksAtOrder(totalPages, o)
      && maps[o].Elems() == pool[o]
      && freeCounts[o] == |pool[o]|
    }

    ghost predicate Valid()
      reads this, maps, freeCounts
    {
      && |maps| == |pool| == freeCounts.Length == P.MAX_ORDER + 1
      && totalPages < U64_MAX - 0x2000
      && (forall a, b | 0 <= a < b < |maps| :: maps[a] != maps[b])
      && (forall o: nat | o < |maps| :: OrderValid(o))
    }

    constructor (totalPages: nat)
      requires totalPages < U64_MAX - 0x2000
      ensures Valid() && fresh(maps) && fresh(freeCounts)
      ensures this.totalPages == totalPages
      ensures pool == P.EmptyPool() && P.Sound(pool, totalPages)
    {
      var ms: seq<B.SummaryBitmap> := [];
      while |ms| <= P.MAX_ORDER
        invariant |ms| <= P.MAX_ORDER + 1
        invariant fresh(ms)
        invariant forall a, b | 0 <= a < b < |ms| :: ms[a] != ms[b]
        invariant forall o | 0 <= o < |ms| ::
          ms[o].Valid() && ms[o].bits == BlocksAtOrder(totalPages, o) && ms[o].Elems() == {}
        decreases P.MAX_ORDER + 1 - |ms|
      {
        var m := new B.SummaryBitmap(BlocksAtOrder(totalPages, |ms|));
        ms := ms + [m];
      }
      maps := ms;
      freeCounts := new nat[P.MAX_ORDER + 1](_ => 0);
      this.totalPages := totalPages;
      pool := P.EmptyPool();
    }

    method IsFree(order: nat, pfn: nat) returns (r: bool)
      requires Valid() && order <= P.MAX_ORDER
      ensures r <==> Shr(pfn, order) in pool[order]
    {
      assert OrderValid(order);
      r := maps[order].Contains(Shr(pfn, order));
    }

    method PushFree(order: nat, pfn: nat)
      requires Valid() && order <= P.MAX_ORDER && pfn < totalPages
      requires Shr(pfn, order) !in pool[order]
      modifies this, maps, freeCounts
      ensures Valid() && pool == P.Push(old(pool), order, Shr(pfn, order))
    {
      assert OrderValid(order);
      IndexFits(pfn, totalPages, order);
      maps[order].Set(Shr(pfn, order));
      freeCounts[order] := freeCounts[order] + 1;
      pool := P.Push(pool, order, Shr(pfn, order));
      forall o: nat | o < |maps| ensures OrderValid(o) {
        assert old(OrderValid(o));
      }
    }

    method RemoveFree(order: nat, pfn: nat)
      requires Valid() && order <= P.MAX_ORDER && Shr(pfn, order) in pool[order]
      modifies this, maps, freeCounts
      ensures Valid() && pool == P.Remove(old(pool), order, Shr(pfn, order))
    {
      assert OrderValid(order);
      maps[order].Clear(Shr(pfn, order));
      freeCounts[order] := freeCounts[order] - 1;
      pool := P.Remove(pool, order, Shr(pfn, order));
      forall o: nat | o < |maps| ensures OrderValid(o) {
        assert old(OrderValid(o));
      }
    }

    method PopFree(order: nat) returns (pfn: nat)
      requires Valid() && order <= P.MAX_ORDER && pool[order] != {}
      modifies this, maps, freeCounts
      ensures Valid()
      ensures var j := Least(old(pool)[order]);
              pfn == Shl(j, order) && pool == P.Remove(old(pool), order, j)
    {
      assert OrderValid(order);
      var first := maps[order].FirstSet();
      maps[order].Clear(first.value);
      freeCounts[order] := freeCounts[order] - 1;
      pool := P.Remove(pool, order, first.value);
      forall o: nat | o < |maps| ensures OrderValid(o) {
        assert old(OrderValid(o));
      }
      pfn := Shl(first.value, order);
    }

    /** The splitting loop of `allocate`: push the buddy at each order below `source`. */
    method SplitDown(pfn: nat, source: nat, order: nat, ghost j: nat)
      requires Valid() && order <= source <= P.MAX_ORDER
      requires pfn == Shl(j, source) && P.InRange(totalPages, source, j)
      requires forall k: nat | order <= k < source :: pool[k] == {}
      modifies this, maps, freeCounts
      ensures Valid() && pool == P.Split(old(pool), source, order, j)
    {
      ghost var target, part := P.Split(pool, source, order, j), j;
      var o := source;
      while o > order
        invariant order <= o <= source
        invariant Valid()
        invariant forall k: nat | order <= k < o :: pool[k] == {}
        invariant part == Shl(j, source - o)
        invariant target == P.Split(pool, o, order, part)
        decreases o
      {
        o := o - 1;
        var buddy := Xor(pfn, Pow2(o));
        SplitBuddy(totalPages, source, o, j, pfn, buddy);
        ghost var before := pool;
        assert target == P.Split(before, o + 1, order, part);
        SplitStep(before, o + 1, order, part);
        PushFree(o, buddy);
        assert pool == P.Push(before, o, 2 * part + 1);
        part := 2 * part;
        assert target == P.Split(pool, o, order, part);
      }
    }

    /** A block of `1 << order` pages, or `None` when no aligned run of that size is wholly free. */
    method Allocate(order: nat) returns (r: Option<nat>)
      requires Valid() && P.Sound(pool, totalPages)
      modifies this, maps, freeCounts
      ensures Valid() && P.Sound(pool, totalPages)
      ensures (pool, r) == P.Allocate(old(pool), order)
      ensures r.Some? <==> order <= P.MAX_ORDER && P.SomeBlockFree(old(pool), order)
      ensures r.Some? ==>
                var i := Shr(r.value, order);
                r.value == Shl(i, order) && P.InRange(totalPages, order, i) && P.AllFree(old(pool), order, i)
    {
      P.AllocateExact(pool, totalPages, order);
      if order > P.MAX_ORDER {
        return None;
      }
      var source := order;
      assert OrderValid(source);
      while source <= P.MAX_ORDER && freeCounts[source] == 0
        invariant order <= source <= P.MAX_ORDER + 1
        invariant P.SourceOrder(pool, order) == P.SourceOrder(pool, source)
        invariant source <= P.MAX_ORDER ==> OrderValid(source)
        decreases P.MAX_ORDER + 1 - source
      {
        source := source + 1;
      }
      if source > P.MAX_ORDER {
        return None;
      }
      ghost var j := Least(pool[source]);
      assert P.InRange(totalPages, source, j);
      var pfn := PopFree(source);
      SplitDown(pfn, source, order, j);
      r := Some(pfn);
    }

    /** Give back `1 << order` pages from `pfn`, merging with free buddies. */
    method Free(pfn: nat, order: nat)
      requires Valid()
      modifies this, maps, freeCounts
      ensures Valid() && pool == P.Free(old(pool), totalPages, pfn, order)
      ensures P.FreshBlock(old(pool), totalPages, pfn, order) ==>
                && P.Sound(pool, totalPages)
                && forall p: nat :: P.FreePage(pool, p) <==>
                                    P.FreePage(old(pool), p) || Shr(p, order) == Shr(pfn, order)
      ensures P.Sound(old(pool), totalPages) && pfn == Shl(Shr(pfn, order), order) ==>
                (P.Sound(pool, totalPages) <==> P.FreeIsSafe(old(pool), totalPages, pfn, order))
      decreases P.MAX_ORDER + 1 - order
    {
      if P.FreshBlock(pool, totalPages, pfn, order) {
        P.FreeExact(pool, totalPages, order, Shr(pfn, order));
      }
      if P.Sound(pool, totalPages) {
        P.FreeSoundIff(pool, totalPages, order, Shr(pfn, order));
      }
      if order > P.MAX_ORDER {
        return;
      }
      var isFree := IsFree(order, pfn);
      if isFree {
        return;
      }
      var blockPages := Pow2(order);
      SaturatingCompare(pfn, blockPages, totalPages);
      if SaturatingAdd(pfn, blockPages) > totalPages {
        if pfn < totalPages {
          PushFree(order, pfn);
        }
        return;
      }
      if order < P.MAX_ORDER {
        var buddy := Xor(pfn, Pow2(order));
        SaturatingCompare(buddy, blockPages, totalPages);
        var buddyFree := IsFree(order, buddy);
        if SaturatingAdd(buddy, blockPages) <= totalPages && buddyFree {
          RemoveFree(order, buddy);
          var parent := AndNot(pfn, Pow2(order));
          Free(parent, order + 1);
          return;
        }
      }
      PushFree(order, pfn);
    }

    /** Add `pageCount` pages from `startPfn`, clipped to the managed range. */
    method AddRegion(startPfn: nat, pageCount: nat)
      requires Valid()
      modifies this, maps, freeCounts
      ensures Valid()
      ensures pool == P.FreeRegion(old(pool), totalPages, startPfn, P.RegionEnd(totalPages, startPfn, pageCount))
      ensures P.Sound(old(pool), totalPages)
              && (forall p: nat | p < totalPages && startPfn <= p < startPfn + pageCount :: !P.FreePage(old(pool), p)) ==>
                && P.Sound(pool, totalPages)
                && forall p: nat :: P.FreePage(pool, p) <==>
                     P.FreePage(old(pool), p) || (p < totalPages && startPfn <= p < startPfn + pageCount)
    {
      if P.Sound(pool, totalPages)
         && (forall p: nat | p < totalPages && startPfn <= p < startPfn + pageCount :: !P.FreePage(pool, p)) {
        P.AddRegionExact(pool, totalPages, startPfn, pageCount);
      }
      var end := SaturatingAdd(startPfn, pageCount);
      if totalPages < end {
        end := totalPages;
      }
      var start := if startPfn < totalPages then startPfn else totalPages;
      assert end == P.RegionEnd(totalPages, startPfn, pageCount);
      ghost var target := P.FreeRegion(pool, totalPages, startPfn, end);
      var pfn := start;
      while pfn < end
        invariant start <= pfn
        invariant Valid()
        invariant target == P.FreeRegion(pool, totalPages, pfn, end)
        decreases end - pfn
      {
        ghost var before := pool;
        Free(pfn, 0);
        assert pool == P.Free(before, totalPages, pfn, 0);
        assert target == P.FreeRegion(before, totalPages, pfn, end);
        FreeRegionStep(before, totalPages, pfn, end);
        assert target == P.FreeRegion(P.Free(before, totalPages, pfn, 0), totalPages, pfn + 1, end);
        pfn := pfn + 1;
        assert target == P.FreeRegion(pool, totalPages, pfn, end);
      }
    }

    /** Total number of free pages across all orders. */
    method FreeCount() returns (count: nat)
      requires Valid()
      ensures count == P.CountFrom(pool, 0)
    {
      count := 0;
      for order := 0 to P.MAX_ORDER + 1
        invariant count + P.CountFrom(pool, order) == P.CountFrom(pool, 0)
      {
        assert OrderValid(order);
        count := count + freeCounts[order] * Pow2(order);
      }
    }
  }

  /** Block `(n + o + 1, j)` starts with the order-`o` block of index `2 * Shl(j, n)`. */
  lemma FirstHalf(j: nat, n: nat, o: nat)
    ensures Shl(j, n + 1) == 2 * Shl(j, n)
    ensures Shl(j, n + 1 + o) == Shl(2 * Shl(j, n), o)
  {
    P.ShlAdd(j, n + 1, o);
  }

  /** The second order-`o` block of `(n + o + 1, j)` ends inside it. */
  lemma SecondHalfInRange(total: nat, j: nat, n: nat, o: nat)
    requires P.InRange(total, n + 1 + o, j)
    ensures Shl(2 * Shl(j, n) + 1, o) < total
  {
    var half := Shl(j, n);
    P.ShlSucc(j, n);
    P.ShlSucc(2 * half + 1, o);
    FirstHalf(j + 1, n, o);
    ShlMonotone(2 * half + 2, 2 * Shl(j + 1, n), o);
  }

  /** The buddy of a block's first order-`o` part, computed on page numbers, is its second. */
  lemma SecondHalf(j: nat, n: nat, o: nat)
    ensures Xor(Shl(2 * Shl(j, n), o), Pow2(o)) == Shl(2 * Shl(j, n) + 1, o)
    ensures Shr(Shl(2 * Shl(j, n) + 1, o), o) == 2 * Shl(j, n) + 1
  {
    P.XorOfAligned(o, 2 * Shl(j, n));
    P.ShrStart(o, 2 * Shl(j, n) + 1);
  }

  /** The buddy computed on page numbers while splitting `(s, j)` is the upper half at order `o`. */
  lemma SplitBuddy(total: nat, s: nat, o: nat, j: nat, pfn: nat, buddy: nat)
    requires o < s && P.InRange(total, s, j)
    requires pfn == Shl(j, s) && buddy == Xor(pfn, Pow2(o))
    ensures buddy < total
    ensures Shr(buddy, o) == 2 * Shl(j, s - o - 1) + 1
    ensures Shl(j, s - o) == 2 * Shl(j, s - o - 1)
  {
    var n := s - o - 1;
    assert n + 1 + o == s;
    FirstHalf(j, n, o);
    SecondHalf(j, n, o);
    SecondHalfInRange(total, j, n, o);
  }
}
