/** The span table and the partial list of a slab cache (`kernel-core/src/slab.rs`): spans sorted by base,
and a list of the spans with free slots in which every listed span knows its own position. */
module SlabTable {
  import opened Seqs
  import opened SlabSpans

  ghost predicate Sorted(g: Geometry, spans: seq<SpanMeta>) {
    forall i, j | 0 <= i < j < |spans| :: spans[i].base + g.pageSize <= spans[j].base
  }

  ghost predicate AllSpansOk(g: Geometry, mem: Memory, spans: seq<SpanMeta>, free: seq<seq<nat>>) {
    |free| == |spans| && forall s: nat | s < |spans| :: SpanOk(g, mem, spans[s], free[s])
  }

  // ---- back-indices ----

  predicate EntryOk(spans: seq<SpanMeta>, partial: seq<nat>, k: nat)
    requires k < |partial|
  {
    partial[k] < |spans| && spans[partial[k]].partialIdx == k
  }

  predicate IndexOk(spans: seq<SpanMeta>, partial: seq<nat>, s: nat)
    requires s < |spans|
  {
    spans[s].InPartialList() ==> spans[s].partialIdx < |partial| && partial[spans[s].partialIdx] == s
  }

  /** Entries and back-indices agree both ways, so every listed span is listed once. */
  ghost predicate BackIndexed(spans: seq<SpanMeta>, partial: seq<nat>) {
    && (forall k: nat | k < |partial| :: EntryOk(spans, partial, k))
    && (forall s: nat | s < |spans| :: IndexOk(spans, partial, s))
    && |partial| < NOT_IN_PARTIAL
  }

  /** Back-indices alone decide whether a list fits a table. */
  lemma SameIndices(spans: seq<SpanMeta>, spans': seq<SpanMeta>, partial: seq<nat>)
    requires BackIndexed(spans, partial) && |spans'| == |spans|
    requires forall s: nat | s < |spans| :: spans'[s].partialIdx == spans[s].partialIdx
    ensures BackIndexed(spans', partial)
  {
    forall k: nat | k < |partial| ensures EntryOk(spans', partial, k) {
      assert EntryOk(spans, partial, k);
    }
    forall s: nat | s < |spans'| ensures IndexOk(spans', partial, s) {
      assert IndexOk(spans, partial, s);
    }
  }

  /** The tables differ at most in the back-indices. */
  ghost predicate SameButIndex(spans: seq<SpanMeta>, spans': seq<SpanMeta>) {
    |spans'| == |spans| && forall s: nat | s < |spans| :: spans'[s] == spans[s].(partialIdx := spans'[s].partialIdx)
  }

  lemma SameButIndexOk(g: Geometry, mem: Memory, spans: seq<SpanMeta>, spans': seq<SpanMeta>, free: seq<seq<nat>>)
    requires AllSpansOk(g, mem, spans, free) && SameButIndex(spans, spans')
    ensures AllSpansOk(g, mem, spans', free)
  {
    forall s: nat | s < |spans'| ensures SpanOk(g, mem, spans'[s], free[s]) {
      assert SpanOk(g, mem, spans[s], free[s]);
    }
  }

  /** A span added at the end of the list. */
  function WithIndex(spans: seq<SpanMeta>, s: nat, k: nat): seq<SpanMeta>
    requires s < |spans|
  {
    spans[s := spans[s].(partialIdx := k)]
  }

  lemma AddEntry(spans: seq<SpanMeta>, partial: seq<nat>, s: nat)
    requires BackIndexed(spans, partial) && s < |spans| && !spans[s].InPartialList()
    requires |partial| + 1 < NOT_IN_PARTIAL
    ensures BackIndexed(WithIndex(spans, s, |partial|), partial + [s])
    ensures SameButIndex(spans, WithIndex(spans, s, |partial|))
  {
    var spans', partial' := WithIndex(spans, s, |partial|), partial + [s];
    forall k: nat | k < |partial'| ensures EntryOk(spans', partial', k) {
      assert k < |partial| ==> EntryOk(spans, partial, k);
    }
    forall i: nat | i < |spans'| ensures IndexOk(spans', partial', i) {
      assert IndexOk(spans, partial, i);
    }
  }

  /** Swap-remove: the last entry takes the freed position. */
  function SwapIndexed(spans: seq<SpanMeta>, partial: seq<nat>, s: nat): seq<SpanMeta>
    requires s < |spans| && spans[s].partialIdx < |partial| && partial[|partial| - 1] < |spans|
  {
    WithIndex(WithIndex(spans, partial[|partial| - 1], spans[s].partialIdx), s, NOT_IN_PARTIAL)
  }

  function SwapRemoved(partial: seq<nat>, pos: nat): seq<nat>
    requires pos < |partial|
  {
    partial[pos := partial[|partial| - 1]][..|partial| - 1]
  }

  lemma RemoveEntry(spans: seq<SpanMeta>, partial: seq<nat>, s: nat)
    requires BackIndexed(spans, partial) && s < |spans| && spans[s].InPartialList()
    ensures spans[s].partialIdx < |partial| && partial[|partial| - 1] < |spans|
    ensures BackIndexed(SwapIndexed(spans, partial, s), SwapRemoved(partial, spans[s].partialIdx))
    ensures SameButIndex(spans, SwapIndexed(spans, partial, s))
    ensures forall i: nat | i < |spans| ::
      SwapIndexed(spans, partial, s)[i].InPartialList() <==> spans[i].InPartialList() && i != s
  {
    assert IndexOk(spans, partial, s);
    var last := |partial| - 1;
    assert EntryOk(spans, partial, last);
    var pos := spans[s].partialIdx;
    var spans', partial' := SwapIndexed(spans, partial, s), SwapRemoved(partial, pos);
    forall k: nat | k < |partial'| ensures EntryOk(spans', partial', k) {
      assert EntryOk(spans, partial, k);
    }
    forall i: nat | i < |spans'| ensures IndexOk(spans', partial', i) {
      assert IndexOk(spans, partial, i);
    }
  }

  function ShiftUp(partial: seq<nat>, p: nat): seq<nat> {
    seq(|partial|, k requires 0 <= k < |partial| => if partial[k] >= p then partial[k] + 1 else partial[k])
  }

  function ShiftDown(partial: seq<nat>, p: nat): seq<nat> {
    seq(|partial|, k requires 0 <= k < |partial| => if partial[k] > p then partial[k] - 1 else partial[k])
  }

  /** Inserting an unlisted span shifts the entries at or above its place. */
  lemma InsertSpan(spans: seq<SpanMeta>, partial: seq<nat>, p: nat, m: SpanMeta)
    requires BackIndexed(spans, partial) && p <= |spans| && !m.InPartialList()
    ensures BackIndexed(InsertAt(spans, p, m), ShiftUp(partial, p))
  {
    var spans', partial' := InsertAt(spans, p, m), ShiftUp(partial, p);
    forall k: nat | k < |partial'| ensures EntryOk(spans', partial', k) {
      assert EntryOk(spans, partial, k);
    }
    forall i: nat | i < |spans'| ensures IndexOk(spans', partial', i) {
      if i < p {
        assert IndexOk(spans, partial, i);
      } else if i > p {
        assert IndexOk(spans, partial, i - 1);
      }
    }
  }

  /** Removing an unlisted span shifts the entries above it down. */
  lemma RemoveSpan(spans: seq<SpanMeta>, partial: seq<nat>, p: nat)
    requires BackIndexed(spans, partial) && p < |spans| && !spans[p].InPartialList()
    ensures BackIndexed(RemoveAt(spans, p), ShiftDown(partial, p))
  {
    var spans', partial' := RemoveAt(spans, p), ShiftDown(partial, p);
    forall k: nat | k < |partial'| ensures EntryOk(spans', partial', k) {
      assert EntryOk(spans, partial, k);
    }
    forall i: nat | i < |spans'| ensures IndexOk(spans', partial', i) {
      if i < p {
        assert IndexOk(spans, partial, i);
      } else {
        assert IndexOk(spans, partial, i + 1);
      }
    }
  }

  // ---- bounds ----

  lemma {:induction false} BaseAboveIndex(g: Geometry, spans: seq<SpanMeta>, s: nat)
    requires Sorted(g, spans) && g.pageSize > 0 && s < |spans| && spans[0].base > 0
    ensures spans[s].base > s
  {
    if s > 0 {
      BaseAboveIndex(g, spans, s - 1);
      assert spans[s - 1].base + g.pageSize <= spans[s].base;
    }
  }

  /** There are fewer spans than the sentinel, so a back-index never collides with it. */
  lemma FewSpans(g: Geometry, mem: Memory, spans: seq<SpanMeta>, free: seq<seq<nat>>)
    requires GeometryOk(g) && AllSpansOk(g, mem, spans, free) && Sorted(g, spans)
    ensures |spans| + 2 < NOT_IN_PARTIAL
  {
    PageAtLeastWord(g);
    if spans != [] {
      var last := |spans| - 1;
      assert SpanOk(g, mem, spans[last], free[last]) && SpanOk(g, mem, spans[0], free[0]);
      BaseAboveIndex(g, spans, last);
    }
  }

  lemma PageAtLeastWord(g: Geometry)
    requires GeometryOk(g)
    ensures g.pageSize >= USIZE_BYTES
  {
    SlotInPage(g, 0, 0);
  }

  lemma EntriesDistinct(spans: seq<SpanMeta>, partial: seq<nat>)
    requires BackIndexed(spans, partial)
    ensures Distinct(partial) && |partial| <= |spans|
  {
    forall i, j | 0 <= i < j < |partial| ensures partial[i] != partial[j] {
      assert EntryOk(spans, partial, i) && EntryOk(spans, partial, j);
    }
    forall x | x in partial ensures x < |spans| {
      var k :| 0 <= k < |partial| && partial[k] == x;
      assert EntryOk(spans, partial, k);
    }
    DistinctBelow(partial, |spans|);
  }

  // ---- live objects ----

  predicate LiveAt(g: Geometry, spans: seq<SpanMeta>, free: seq<seq<nat>>, s: nat, i: nat, a: nat)
    requires |free| == |spans|
  {
    s < |spans| && i < g.perSlab && i !in free[s] && a == SlotAddr(g, spans[s].base, i)
  }

  /** `a` is the address of an object handed out and not yet given back. */
  ghost predicate Live(g: Geometry, spans: seq<SpanMeta>, free: seq<seq<nat>>, a: nat)
    requires |free| == |spans|
  {
    exists s: nat, i: nat :: LiveAt(g, spans, free, s, i, a)
  }

  lemma SameButIndexLive(g: Geometry, spans: seq<SpanMeta>, spans': seq<SpanMeta>, free: seq<seq<nat>>)
    requires |free| == |spans| && SameButIndex(spans, spans')
    ensures forall a: nat :: Live(g, spans', free, a) <==> Live(g, spans, free, a)
  {
    forall a: nat ensures Live(g, spans', free, a) <==> Live(g, spans, free, a) {
      if s: nat, i: nat :| LiveAt(g, spans, free, s, i, a) {
        assert LiveAt(g, spans', free, s, i, a);
      }
      if s: nat, i: nat :| LiveAt(g, spans', free, s, i, a) {
        assert LiveAt(g, spans, free, s, i, a);
      }
    }
  }

  /** An address inside a page belongs to that span only. */
  lemma OneSpan(g: Geometry, spans: seq<SpanMeta>, s: nat, t: nat, a: nat)
    requires Sorted(g, spans) && s < |spans| && t < |spans|
    requires spans[s].base <= a < spans[s].base + g.pageSize
    requires spans[t].base <= a < spans[t].base + g.pageSize
    ensures s == t
  {
  }

  /** A slot has one address and an address is one slot. */
  lemma OneSlot(g: Geometry, spans: seq<SpanMeta>, s: nat, i: nat, t: nat, j: nat)
    requires GeometryOk(g) && Sorted(g, spans) && s < |spans| && t < |spans| && i < g.perSlab && j < g.perSlab
    requires SlotAddr(g, spans[s].base, i) == SlotAddr(g, spans[t].base, j)
    ensures s == t && i == j
  {
    SlotOffset(g, spans[s].base, i);
    SlotOffset(g, spans[t].base, j);
    OneSpan(g, spans, s, t, SlotAddr(g, spans[s].base, i));
  }

  /** Whether the object at a slot address is live can be read off its own slot. */
  lemma LiveIff(g: Geometry, spans: seq<SpanMeta>, free: seq<seq<nat>>, s: nat, i: nat)
    requires GeometryOk(g) && Sorted(g, spans) && |free| == |spans| && s < |spans| && i < g.perSlab
    ensures Live(g, spans, free, SlotAddr(g, spans[s].base, i)) <==> i !in free[s]
  {
    var a := SlotAddr(g, spans[s].base, i);
    if Live(g, spans, free, a) {
      var t: nat, j: nat :| LiveAt(g, spans, free, t, j, a);
      OneSlot(g, spans, s, i, t, j);
    }
    if i !in free[s] {
      assert LiveAt(g, spans, free, s, i, a);
    }
  }

  /** No other slot starts inside an object. */
  lemma OtherSlot(g: Geometry, spans: seq<SpanMeta>, s: nat, i: nat, t: nat, j: nat)
    requires GeometryOk(g) && Sorted(g, spans) && s < |spans| && t < |spans| && i < g.perSlab && j < g.perSlab
    requires s != t || i != j
    ensures !(SlotAddr(g, spans[s].base, i) <= SlotAddr(g, spans[t].base, j) < SlotAddr(g, spans[s].base, i) + g.objectSize)
  {
    SlotInPage(g, spans[s].base, i);
    SlotInPage(g, spans[t].base, j);
    if s == t {
      if i < j {
        SlotsApart(g, spans[s].base, i, j);
      } else {
        SlotsApart(g, spans[s].base, j, i);
      }
    }
  }

  /** Writing inside one object leaves the freelists of all pages as they are, but for its own slot. */
  lemma WriteFrame(g: Geometry, mem: Memory, spans: seq<SpanMeta>, free: seq<seq<nat>>, s: nat, i: nat, w: nat, value: nat, t: nat)
    requires GeometryOk(g) && AllSpansOk(g, mem, spans, free) && Sorted(g, spans)
    requires s < |spans| && i < g.perSlab && t < |spans| && (s != t || i !in free[s])
    requires SlotAddr(g, spans[s].base, i) <= w < SlotAddr(g, spans[s].base, i) + g.objectSize
    ensures SpanOk(g, mem[w := value], spans[t], free[t])
  {
    assert SpanOk(g, mem, spans[t], free[t]);
    forall j | j in free[t] ensures SlotAddr(g, spans[t].base, j) != w {
      OtherSlot(g, spans, s, i, t, j);
    }
    SpanFrame(g, mem, mem[w := value], spans[t], free[t]);
  }

  /** A word that a client may write: inside a live object. */
  ghost predicate ClientWord(g: Geometry, spans: seq<SpanMeta>, free: seq<seq<nat>>, w: nat)
    requires |free| == |spans|
  {
    exists s: nat, i: nat, a: nat :: LiveAt(g, spans, free, s, i, a) && a <= w < a + g.objectSize
  }

  /** Whatever clients write into live objects, every freelist stays exact. */
  lemma ClientWriteHarmless(g: Geometry, mem: Memory, spans: seq<SpanMeta>, free: seq<seq<nat>>, w: nat, value: nat)
    requires GeometryOk(g) && AllSpansOk(g, mem, spans, free) && Sorted(g, spans)
    requires ClientWord(g, spans, free, w)
    ensures AllSpansOk(g, mem[w := value], spans, free)
  {
    var s: nat, i: nat, a: nat :| LiveAt(g, spans, free, s, i, a) && a <= w < a + g.objectSize;
    forall t: nat | t < |spans| ensures SpanOk(g, mem[w := value], spans[t], free[t]) {
      WriteFrame(g, mem, spans, free, s, i, w, value, t);
    }
  }

  // ---- one allocation, one free ----

  /** Taking the head slot of span `s` makes exactly that object live. */
  lemma TakeSlot(g: Geometry, mem: Memory, spans: seq<SpanMeta>, free: seq<seq<nat>>, s: nat)
    requires GeometryOk(g) && AllSpansOk(g, mem, spans, free) && Sorted(g, spans)
    requires s < |spans| && free[s] != []
    ensures free[s][0] / 64 < |spans[s].bitmap|
    ensures var m := spans[s];
            var spans' := spans[s := Popped(g, m, free[s])];
            var free' := free[s := free[s][1..]];
            && AllSpansOk(g, mem, spans', free') && Sorted(g, spans')
            && (forall a :: Live(g, spans', free', a) <==> Live(g, spans, free, a) || a == SlotAddr(g, m.base, free[s][0]))
            && !Live(g, spans, free, SlotAddr(g, m.base, free[s][0]))
  {
    var m, i := spans[s], free[s][0];
    assert SpanOk(g, mem, m, free[s]);
    PopSlot(g, mem, m, free[s]);
    RestSlots(free[s]);
    var spans' := spans[s := Popped(g, m, free[s])];
    var free' := free[s := free[s][1..]];
    forall t: nat | t < |spans'| ensures SpanOk(g, mem, spans'[t], free'[t]) {
      assert t != s ==> SpanOk(g, mem, spans[t], free[t]);
    }
    assert i in free[s];
    LiveIff(g, spans, free, s, i);
    forall a ensures Live(g, spans', free', a) <==> Live(g, spans, free, a) || a == SlotAddr(g, m.base, i) {
      LiveChange(g, spans, free, spans', free', s, i, a);
    }
  }

  /** If only slot `(s, i)` changed from free to live, so did only its address. */
  lemma LiveChange(g: Geometry, spans: seq<SpanMeta>, free: seq<seq<nat>>, spans': seq<SpanMeta>, free': seq<seq<nat>>,
                   s: nat, i: nat, a: nat)
    requires |free| == |spans| == |spans'| == |free'| && s < |spans| && i < g.perSlab
    requires forall t: nat | t < |spans| :: spans'[t].base == spans[t].base
    requires forall t: nat | t < |spans| && t != s :: free'[t] == free[t]
    requires i !in free'[s] && forall j | j != i :: j in free'[s] <==> j in free[s]
    ensures Live(g, spans', free', a) <==> Live(g, spans, free, a) || a == SlotAddr(g, spans[s].base, i)
  {
    if Live(g, spans', free', a) {
      var t: nat, j: nat :| LiveAt(g, spans', free', t, j, a);
      assert LiveAt(g, spans, free, t, j, a) || (t == s && j == i);
    }
    if Live(g, spans, free, a) {
      var t: nat, j: nat :| LiveAt(g, spans, free, t, j, a);
      assert LiveAt(g, spans', free', t, j, a);
    }
    if a == SlotAddr(g, spans[s].base, i) {
      assert LiveAt(g, spans', free', s, i, a);
    }
  }

  /** Giving back live slot `i` of span `s` makes exactly that object free. */
  lemma GiveSlot(g: Geometry, mem: Memory, spans: seq<SpanMeta>, free: seq<seq<nat>>, s: nat, i: nat)
    requires GeometryOk(g) && AllSpansOk(g, mem, spans, free) && Sorted(g, spans)
    requires s < |spans| && i < g.perSlab && i !in free[s]
    ensures i / 64 < |spans[s].bitmap| && spans[s].inuseCount > 0
    ensures var m := spans[s];
            var a := SlotAddr(g, m.base, i);
            var mem' := mem[a := EncodeNext(m.freelistHead, g.key, a)];
            var spans' := spans[s := Pushed(g, m, i)];
            var free' := free[s := [i] + free[s]];
            && AllSpansOk(g, mem', spans', free') && Sorted(g, spans')
            && (forall b :: Live(g, spans', free', b) <==> Live(g, spans, free, b) && b != a)
  {
    var m := spans[s];
    var a := SlotAddr(g, m.base, i);
    var value := EncodeNext(m.freelistHead, g.key, a);
    assert SpanOk(g, mem, m, free[s]);
    PushSlot(g, mem, m, free[s], i);
    var spans' := spans[s := Pushed(g, m, i)];
    var free' := free[s := [i] + free[s]];
    forall t: nat | t < |spans'| ensures SpanOk(g, mem[a := value], spans'[t], free'[t]) {
      if t != s {
        WriteFrame(g, mem, spans, free, s, i, a, value, t);
      }
    }
    forall b ensures Live(g, spans', free', b) <==> Live(g, spans, free, b) && b != a {
      LiveChange(g, spans', free', spans, free, s, i, b);
      LiveIff(g, spans', free', s, i);
    }
  }

  // ---- adding and dropping pages ----

  /** A page apart from every page of the table. */
  ghost predicate PageApart(g: Geometry, spans: seq<SpanMeta>, base: nat) {
    forall s: nat | s < |spans| :: base + g.pageSize <= spans[s].base || spans[s].base + g.pageSize <= base
  }

  function InsertAt<T>(xs: seq<T>, p: nat, x: T): seq<T>
    requires p <= |xs|
  {
    xs[..p] + [x] + xs[p..]
  }

  function RemoveAt<T>(xs: seq<T>, p: nat): seq<T>
    requires p < |xs|
  {
    xs[..p] + xs[p + 1..]
  }

  lemma InsertKeepsLive(g: Geometry, spans: seq<SpanMeta>, free: seq<seq<nat>>, p: nat, m: SpanMeta, slots: seq<nat>, a: nat)
    requires |free| == |spans| && p <= |spans| && forall i: nat | i < g.perSlab :: i in slots
    ensures Live(g, InsertAt(spans, p, m), InsertAt(free, p, slots), a) <==> Live(g, spans, free, a)
  {
    var spans', free' := InsertAt(spans, p, m), InsertAt(free, p, slots);
    if t: nat, j: nat :| LiveAt(g, spans', free', t, j, a) {
      assert t != p;
      assert LiveAt(g, spans, free, if t < p then t else t - 1, j, a);
    }
    if t: nat, j: nat :| LiveAt(g, spans, free, t, j, a) {
      assert LiveAt(g, spans', free', if t < p then t else t + 1, j, a);
    }
  }

  lemma DropKeepsLive(g: Geometry, spans: seq<SpanMeta>, free: seq<seq<nat>>, p: nat, a: nat)
    requires |free| == |spans| && p < |spans| && forall i: nat | i < g.perSlab :: i in free[p]
    ensures Live(g, RemoveAt(spans, p), RemoveAt(free, p), a) <==> Live(g, spans, free, a)
  {
    var spans', free' := RemoveAt(spans, p), RemoveAt(free, p);
    if t: nat, j: nat :| LiveAt(g, spans', free', t, j, a) {
      assert LiveAt(g, spans, free, if t < p then t else t + 1, j, a);
    }
    if t: nat, j: nat :| LiveAt(g, spans, free, t, j, a) {
      assert t != p;
      assert LiveAt(g, spans', free', if t < p then t else t - 1, j, a);
    }
  }

  lemma InsertSorted(g: Geometry, spans: seq<SpanMeta>, p: nat, m: SpanMeta)
    requires Sorted(g, spans) && g.pageSize > 0 && PageApart(g, spans, m.base) && p <= |spans|
    requires (forall s: nat | s < p :: spans[s].base < m.base) && (forall s: nat | p <= s < |spans| :: m.base <= spans[s].base)
    ensures Sorted(g, InsertAt(spans, p, m))
  {
  }

  /** Inserting a fresh page at its place in the order makes no object live. */
  lemma InsertPage(g: Geometry, mem: Memory, mem': Memory, spans: seq<SpanMeta>, free: seq<seq<nat>>, p: nat,
                   m: SpanMeta, slots: seq<nat>)
    requires GeometryOk(g) && AllSpansOk(g, mem, spans, free)
    requires PageApart(g, spans, m.base) && p <= |spans|
    requires SpanOk(g, mem', m, slots)
    requires SameOutside(g, m.base, mem, mem')
    ensures AllSpansOk(g, mem', InsertAt(spans, p, m), InsertAt(free, p, slots))
  {
    var spans', free' := InsertAt(spans, p, m), InsertAt(free, p, slots);
    forall t: nat | t < |spans'| ensures SpanOk(g, mem', spans'[t], free'[t]) {
      if t != p {
        var old' := if t < p then t else t - 1;
        assert SpanOk(g, mem, spans[old'], free[old']);
        OutsidePage(g, mem, mem', spans[old'], free[old'], m.base);
      }
    }
  }

  /** Memory changes in another page do not touch a span. */
  lemma OutsidePage(g: Geometry, mem: Memory, mem': Memory, m: SpanMeta, slots: seq<nat>, base: nat)
    requires GeometryOk(g) && SpanOk(g, mem, m, slots)
    requires base + g.pageSize <= m.base || m.base + g.pageSize <= base
    requires SameOutside(g, base, mem, mem')
    ensures SpanOk(g, mem', m, slots)
  {
    forall i | i in slots ensures Load(mem', SlotAddr(g, m.base, i)) == Load(mem, SlotAddr(g, m.base, i)) {
      var a := SlotAddr(g, m.base, i);
      assert m.base <= a < m.base + g.pageSize by {
        SlotOffset(g, m.base, i);
      }
    }
    SpanFrame(g, mem, mem', m, slots);
  }

  /** Dropping a page without live objects changes no live object. */
  lemma DropPage(g: Geometry, mem: Memory, spans: seq<SpanMeta>, free: seq<seq<nat>>, p: nat)
    requires GeometryOk(g) && AllSpansOk(g, mem, spans, free) && Sorted(g, spans)
    requires p < |spans| && spans[p].IsEmpty()
    ensures AllSpansOk(g, mem, RemoveAt(spans, p), RemoveAt(free, p)) && Sorted(g, RemoveAt(spans, p))
    ensures forall a: nat :: Live(g, RemoveAt(spans, p), RemoveAt(free, p), a) <==> Live(g, spans, free, a)
  {
    var spans', free' := RemoveAt(spans, p), RemoveAt(free, p);
    forall t: nat | t < |spans'| ensures SpanOk(g, mem, spans'[t], free'[t]) {
      var old' := if t < p then t else t + 1;
      assert SpanOk(g, mem, spans[old'], free[old']);
    }
    assert SpanOk(g, mem, spans[p], free[p]);
    DistinctAll(free[p], g.perSlab);
    forall a: nat ensures Live(g, spans', free', a) <==> Live(g, spans, free, a) {
      DropKeepsLive(g, spans, free, p, a);
    }
  }
}
