/** `SlabCache` of `kernel-core/src/slab.rs` as it runs: allocation, freeing and page reclaim over the span
table, the partial list and the memory of the pages, all updated in place. */
module SlabCaches {
  import opened Options
  import opened Seqs
  import opened Words
  import opened SlabSpans
  import opened SlabTable

  /** Result of `free`: the panics of the source are outcomes here. */
  datatype FreeOutcome =
    | Freed(nowEmpty: bool)
    | NotInCache
    | NotAligned
    | OutsideSlots
    | DoubleFree

  datatype Place = Nowhere | OffGrid | PastEnd | AtSlot(s: nat, slot: nat)

  datatype Lookup = NoSpan | Misaligned | Found(idx: nat)

  /** Base and emptiness of every page, in table order. */
  function Pages(spans: seq<SpanMeta>): seq<(nat, bool)> {
    seq(|spans|, s requires 0 <= s < |spans| => (spans[s].base, spans[s].IsEmpty()))
  }

  function PagesWith(pages: seq<(nat, bool)>, empty: bool): seq<nat> {
    if pages == [] then []
    else (if pages[0].1 == empty then [pages[0].0] else []) + PagesWith(pages[1..], empty)
  }

  predicate InPage(g: Geometry, spans: seq<SpanMeta>, s: nat, addr: nat) {
    s < |spans| && spans[s].base <= addr < spans[s].base + g.pageSize
  }

  predicate OffSlot(g: Geometry, spans: seq<SpanMeta>, s: nat, addr: nat) {
    InPage(g, spans, s, addr) && g.objectSize > 0 && (addr - spans[s].base) % g.objectSize != 0
  }

  predicate SlotAt(g: Geometry, spans: seq<SpanMeta>, s: nat, i: nat, addr: nat) {
    s < |spans| && i < g.perSlab && addr == SlotAddr(g, spans[s].base, i)
  }

  /** `addr` is the start of an object of some page, live or not. */
  ghost predicate IsObject(g: Geometry, spans: seq<SpanMeta>, addr: nat) {
    exists s: nat, i: nat :: SlotAt(g, spans, s, i, addr)
  }

  /** The free slot at position `k` of a chain passes every freelist check. */
  lemma LinkIsFreeSlot(g: Geometry, mem: Memory, m: SpanMeta, slots: seq<nat>, k: nat)
    requires GeometryOk(g) && SpanOk(g, mem, m, slots) && k < |slots|
    ensures var a := LinkAddr(g, m.base, slots, k);
            && a != FREELIST_END && m.base <= a < m.base + g.pageSize
            && (a - m.base) % g.objectSize == 0 && (a - m.base) / g.objectSize == slots[k] < m.totalObjects
            && slots[k] / 64 < |m.bitmap| && !BitAt(m.bitmap, slots[k])
  {
    assert slots[k] in slots;
    SlotOffset(g, m.base, slots[k]);
  }

  /** Inserting a fresh page keeps the table in order, the list back-indexed and the live objects as they are. */
  lemma FreshPageIn(g: Geometry, mem: Memory, mem': Memory, spans: seq<SpanMeta>, free: seq<seq<nat>>,
                    partial: seq<nat>, p: nat, base: nat, head: nat)
    requires GeometryOk(g) && AllSpansOk(g, mem, spans, free) && Sorted(g, spans) && BackIndexed(spans, partial)
    requires PageOk(g, base) && PageApart(g, spans, base) && p <= |spans|
    requires (forall s: nat | s < p :: spans[s].base < base) && (forall s: nat | p <= s < |spans| :: base <= spans[s].base)
    requires ChainOk(g, mem', base, head, SlotsFrom(0, g.perSlab))
    requires SameOutside(g, base, mem, mem')
    ensures var spans' := InsertAt(spans, p, FreshSpan(g, base, head));
            var free' := InsertAt(free, p, SlotsFrom(0, g.perSlab));
            && AllSpansOk(g, mem', spans', free') && Sorted(g, spans')
            && BackIndexed(spans', ShiftUp(partial, p))
            && (forall a: nat :: Live(g, spans', free', a) <==> Live(g, spans, free, a))
    ensures |partial| + 1 < NOT_IN_PARTIAL
  {
    var m, slots := FreshSpan(g, base, head), SlotsFrom(0, g.perSlab);
    FreshSpanOk(g, mem', base, head);
    InsertPage(g, mem, mem', spans, free, p, m, slots);
    PageAtLeastWord(g);
    InsertSorted(g, spans, p, m);
    InsertSpan(spans, partial, p, m);
    forall i: nat | i < g.perSlab ensures i in slots {
      assert slots[i] == i;
    }
    forall a: nat ensures Live(g, InsertAt(spans, p, m), InsertAt(free, p, slots), a) <==> Live(g, spans, free, a) {
      InsertKeepsLive(g, spans, free, p, m, slots, a);
    }
    EntriesDistinct(spans, partial);
    FewSpans(g, mem, spans, free);
  }

  lemma OthersListed(spans: seq<SpanMeta>, p: nat, m: SpanMeta)
    requires p <= |spans| && forall s: nat | s < |spans| :: spans[s].InPartialList() <==> !spans[s].IsFull()
    ensures var now := InsertAt(spans, p, m);
            forall t: nat | t < |now| && t != p :: now[t].InPartialList() <==> !now[t].IsFull()
  {
    var now := InsertAt(spans, p, m);
    forall t: nat | t < |now| && t != p ensures now[t].InPartialList() <==> !now[t].IsFull() {
      assert now[t] == spans[if t < p then t else t - 1];
    }
  }

  lemma InsertedBase(spans: seq<SpanMeta>, p: nat, m: SpanMeta, now: seq<SpanMeta>)
    requires p <= |spans| && SameButIndex(InsertAt(spans, p, m), now)
    ensures Bases(now) == InsertAt(Bases(spans), p, m.base)
  {
    forall t: nat | t < |now| ensures Bases(now)[t] == InsertAt(Bases(spans), p, m.base)[t] {
      assert now[t].base == InsertAt(spans, p, m)[t].base;
    }
  }

  class SlabCache {
    const geometry: Geometry
    var spans: seq<SpanMeta>
    var partialList: seq<nat>
    /** Machine words of the backing pages. */
    var mem: Memory
    /** Free slots of every span in freelist order. */
    ghost var free: seq<seq<nat>>

    ghost predicate Valid()
      reads this
    {
      && GeometryOk(geometry)
      && AllSpansOk(geometry, mem, spans, free)
      && Sorted(geometry, spans)
      && BackIndexed(spans, partialList)
      && (forall s: nat | s < |spans| :: spans[s].InPartialList() <==> !spans[s].IsFull())
    }

    ghost predicate LiveObject(a: nat)
      reads this
      requires |free| == |spans|
    {
      Live(geometry, spans, free, a)
    }

    /** No page has an object left to hand out. */
    ghost predicate AllInUse()
      reads this
      requires |free| == |spans|
    {
      AllLive(geometry, spans, free)
    }

    /** Some object of the page at `base` is live. */
    ghost predicate PageInUse(base: nat)
      reads this
      requires |free| == |spans|
    {
      UsedPage(geometry, spans, free, base)
    }

    constructor (objectSize: nat, pageSize: nat, freelistKey: nat)
      requires objectSize >= USIZE_BYTES && objectSize % USIZE_BYTES == 0
      requires pageSize / objectSize > 0
      ensures Valid() && spans == [] && geometry == Geometry(objectSize, pageSize, pageSize / objectSize, freelistKey)
      ensures forall a: nat :: !LiveObject(a)
    {
      geometry := Geometry(objectSize, pageSize, pageSize / objectSize, freelistKey);
      spans, partialList, mem, free := [], [], map[], [];
    }

    // ---- partial list ----

    method AddToPartialList(s: nat)
      requires BackIndexed(spans, partialList) && s < |spans| && !spans[s].InPartialList()
      requires |partialList| + 1 < NOT_IN_PARTIAL
      modifies this`spans, this`partialList
      ensures BackIndexed(spans, partialList) && SameButIndex(old(spans), spans)
      ensures forall i: nat | i < |spans| :: spans[i].InPartialList() <==> old(spans)[i].InPartialList() || i == s
    {
      AddEntry(spans, partialList, s);
      var pos := |partialList|;
      partialList := partialList + [s];
      spans := WithIndex(spans, s, pos);
    }

    method RemoveFromPartialList(s: nat)
      requires BackIndexed(spans, partialList) && s < |spans| && spans[s].InPartialList()
      modifies this`spans, this`partialList
      ensures BackIndexed(spans, partialList) && SameButIndex(old(spans), spans)
      ensures forall i: nat | i < |spans| :: spans[i].InPartialList() <==> old(spans)[i].InPartialList() && i != s
    {
      RemoveEntry(spans, partialList, s);
      ghost var spans', partial' := SwapIndexed(spans, partialList, s), SwapRemoved(partialList, spans[s].partialIdx);
      var pos := spans[s].partialIdx;
      var last := |partialList| - 1;
      assert EntryOk(spans, partialList, pos);
      if pos != last {
        var swapped := partialList[last];
        partialList := partialList[pos := swapped];
        spans := WithIndex(spans, swapped, pos);
      }
      partialList := partialList[..last];
      spans := WithIndex(spans, s, NOT_IN_PARTIAL);
      assert partialList == partial';
      assert spans == spans';
    }

    method AdjustAfterInsert(p: nat)
      modifies this`partialList
      ensures partialList == ShiftUp(old(partialList), p)
    {
      for k := 0 to |partialList|
        invariant |partialList| == |old(partialList)|
        invariant forall j | 0 <= j < k :: partialList[j] == ShiftUp(old(partialList), p)[j]
        invariant forall j | k <= j < |partialList| :: partialList[j] == old(partialList)[j]
      {
        if partialList[k] >= p {
          partialList := partialList[k := partialList[k] + 1];
        }
      }
    }

    method AdjustAfterRemove(p: nat)
      modifies this`partialList
      ensures partialList == ShiftDown(old(partialList), p)
    {
      for k := 0 to |partialList|
        invariant |partialList| == |old(partialList)|
        invariant forall j | 0 <= j < k :: partialList[j] == ShiftDown(old(partialList), p)[j]
        invariant forall j | k <= j < |partialList| :: partialList[j] == old(partialList)[j]
      {
        if partialList[k] > p {
          partialList := partialList[k := partialList[k] - 1];
        }
      }
    }

    // ---- lookup ----

    /** First index whose base is above `addr` (`orEqual`: at or above), by binary search. */
    method PartitionPoint(addr: nat, orEqual: bool) returns (pos: nat)
      requires Valid()
      ensures pos <= |spans|
      ensures forall s: nat | s < pos :: spans[s].base < addr || (!orEqual && spans[s].base == addr)
      ensures forall s: nat | pos <= s < |spans| :: spans[s].base > addr || (orEqual && spans[s].base == addr)
    {
      var lo, hi := 0, |spans|;
      while lo < hi
        invariant 0 <= lo <= hi <= |spans|
        invariant forall s: nat | s < lo :: spans[s].base < addr || (!orEqual && spans[s].base == addr)
        invariant forall s: nat | hi <= s < |spans| :: spans[s].base > addr || (orEqual && spans[s].base == addr)
      {
        var mid := lo + (hi - lo) / 2;
        if spans[mid].base < addr || (!orEqual && spans[mid].base == addr) {
          lo := mid + 1;
        } else {
          hi := mid;
        }
      }
      pos := lo;
    }

    /** The span whose page holds `addr`. */
    method FindSpanIndex(addr: nat) returns (r: Lookup)
      requires Valid()
      ensures r.NoSpan? <==> forall s: nat :: !InPage(geometry, spans, s, addr)
      ensures r.Misaligned? <==> exists s: nat :: OffSlot(geometry, spans, s, addr)
      ensures r.Found? ==> InPage(geometry, spans, r.idx, addr) && (addr - spans[r.idx].base) % geometry.objectSize == 0
    {
      var pos := PartitionPoint(addr, false);
      if pos == 0 {
        return NoSpan;
      }
      var s: nat := pos - 1;
      var base := spans[s].base;
      if addr < base + geometry.pageSize {
        assert InPage(geometry, spans, s, addr);
        OnePage(s, addr);
        if (addr - base) % geometry.objectSize != 0 {
          assert OffSlot(geometry, spans, s, addr);
          return Misaligned;
        }
        return Found(s);
      }
      r := NoSpan;
    }

    // ---- allocation ----

    /** The freelist head of a span and what it points to, with the checks of the source: both are aligned,
        free slots of this page. */
    method ReadHead(s: nat) returns (head: nat, next: nat, slot: nat)
      requires Valid() && s < |spans|
      ensures head == FREELIST_END <==> free[s] == []
      ensures head != FREELIST_END ==>
                && slot == free[s][0] && slot / 64 < |spans[s].bitmap|
                && head == SlotAddr(geometry, spans[s].base, slot)
                && spans[s].base <= head < spans[s].base + geometry.pageSize
                && next == LinkAddr(geometry, spans[s].base, free[s], 1)
    {
      var m := spans[s];
      ghost var slots := free[s];
      assert SpanOk(geometry, mem, m, slots);
      head, next, slot := m.freelistHead, FREELIST_END, 0;
      if slots != [] {
        LinkIsFreeSlot(geometry, mem, m, slots, 0);
      }
      if head == FREELIST_END {
        return;
      }
      assert m.base <= head < m.base + geometry.pageSize && (head - m.base) % geometry.objectSize == 0;
      slot := (head - m.base) / geometry.objectSize;
      assert slot < m.totalObjects && !BitAt(m.bitmap, slot);
      assert LinkOk(geometry, mem, m.base, slots, 0);
      next := DecodeNext(Load(mem, head), geometry.key, head);
      if next != FREELIST_END {
        LinkIsFreeSlot(geometry, mem, m, slots, 1);
        assert m.base <= next < m.base + geometry.pageSize && (next - m.base) % geometry.objectSize == 0;
        assert !BitAt(m.bitmap, (next - m.base) / geometry.objectSize);
      }
    }

    /** Pop one object from a span's freelist; `None` exactly when the span is full. */
    method AllocateFromSpan(s: nat) returns (r: Option<nat>)
      requires Valid() && s < |spans|
      modifies this`spans, this`partialList, this`free
      ensures Valid()
      ensures r.None? <==> old(spans[s].IsFull())
      ensures r.None? ==> spans == old(spans) && free == old(free) && partialList == old(partialList)
      ensures |spans| == |old(spans)| && forall t: nat | t < |spans| :: spans[t].base == old(spans)[t].base
      ensures r.Some? ==> !old(LiveObject(r.value)) && spans[s].base <= r.value < spans[s].base + geometry.pageSize
      ensures r.Some? ==> forall a: nat :: LiveObject(a) <==> old(LiveObject(a)) || a == r.value
    {
      var m := spans[s];
      assert SpanOk(geometry, mem, m, free[s]);
      var head, next, slot := ReadHead(s);
      if head == FREELIST_END {
        return None;
      }
      TakeSlot(geometry, mem, spans, free, s);
      var m' := m.(freelistHead := next, inuseCount := m.inuseCount + 1, bitmap := BitmapSet(m.bitmap, slot, true));
      assert m' == Popped(geometry, m, free[s]);
      SameIndices(spans, spans[s := m'], partialList);
      spans := spans[s := m'];
      free := free[s := free[s][1..]];
      AfterPop(s);
      r := Some(head);
    }

    /** A span that just became full leaves the partial list. */
    method AfterPop(s: nat)
      requires GeometryOk(geometry) && AllSpansOk(geometry, mem, spans, free) && Sorted(geometry, spans)
      requires s < |spans| && BackIndexed(spans, partialList) && spans[s].InPartialList()
      requires forall t: nat | t < |spans| && t != s :: spans[t].InPartialList() <==> !spans[t].IsFull()
      modifies this`spans, this`partialList
      ensures Valid() && SameButIndex(old(spans), spans)
      ensures forall a: nat :: LiveObject(a) <==> old(LiveObject(a))
    {
      if spans[s].IsFull() {
        RemoveFromPartialList(s);
        SameButIndexOk(geometry, mem, old(spans), spans, free);
        SameButIndexLive(geometry, old(spans), spans, free);
      }
    }

    /** Take in a fresh page: thread its freelist, insert its span in order, and list it. */
    method CreateSpan(base: nat) returns (s: nat)
      requires Valid() && PageOk(geometry, base) && PageApart(geometry, spans, base)
      modifies this
      ensures Valid()
      ensures s <= |old(spans)| && Bases(spans) == InsertAt(Bases(old(spans)), s, base) && s < |spans|
      ensures !spans[s].IsFull()
      ensures forall a: nat :: LiveObject(a) <==> old(LiveObject(a))
    {
      s := PartitionPoint(base, true);
      var mem', head := ThreadFreelist(geometry, mem, base);
      var m := FreshSpan(geometry, base, head);
      ghost var slots := SlotsFrom(0, geometry.perSlab);
      ghost var was := spans;
      FreshPageIn(geometry, mem, mem', spans, free, partialList, s, base, head);
      OthersListed(spans, s, m);
      mem := mem';
      spans := InsertAt(spans, s, m);
      free := InsertAt(free, s, slots);
      AdjustAfterInsert(s);
      ListFresh(s);
      InsertedBase(was, s, m, spans);
    }

    method ListFresh(s: nat)
      requires GeometryOk(geometry) && AllSpansOk(geometry, mem, spans, free) && Sorted(geometry, spans)
      requires BackIndexed(spans, partialList) && |partialList| + 1 < NOT_IN_PARTIAL
      requires s < |spans| && !spans[s].InPartialList() && !spans[s].IsFull()
      requires forall t: nat | t < |spans| && t != s :: spans[t].InPartialList() <==> !spans[t].IsFull()
      modifies this`spans, this`partialList
      ensures Valid() && SameButIndex(old(spans), spans)
      ensures forall a: nat :: LiveObject(a) <==> old(LiveObject(a))
    {
      AddToPartialList(s);
      SameButIndexOk(geometry, mem, old(spans), spans, free);
      SameButIndexLive(geometry, old(spans), spans, free);
    }

    /** Allocate one object; `page` is what the page allocator would hand out if it were asked. */
    method Allocate(page: Option<nat>) returns (r: Option<nat>)
      requires Valid()
      requires page.Some? ==> PageOk(geometry, page.value) && PageApart(geometry, spans, page.value)
      modifies this
      ensures Valid()
      ensures r.None? <==> old(AllInUse()) && page.None?
      ensures r.Some? ==> !old(LiveObject(r.value))
      ensures forall a: nat :: LiveObject(a) <==> old(LiveObject(a)) || (r.Some? && a == r.value)
      ensures Bases(spans) == Bases(old(spans)) ||
              (page.Some? && old(AllInUse())
               && exists p: nat :: p <= |old(spans)| && Bases(spans) == InsertAt(Bases(old(spans)), p, page.value))
    {
      AllFullMeans(geometry, mem, spans, free);
      if |partialList| > 0 {
        var s := partialList[|partialList| - 1];
        assert EntryOk(spans, partialList, |partialList| - 1);
        r := AllocateFromSpan(s);
        assert Bases(spans) == Bases(old(spans));
        return;
      }
      forall s: nat | s < |spans| ensures spans[s].IsFull() {
        assert IndexOk(spans, partialList, s);
      }
      if page.None? {
        return None;
      }
      var s := CreateSpan(page.value);
      ghost var bases := Bases(spans);
      r := AllocateFromSpan(s);
      assert Bases(spans) == bases;
    }

    // ---- freeing ----

    /** Give back the object at `addr`. It succeeds exactly for live objects; otherwise nothing changes. */
    method Free(addr: nat) returns (r: FreeOutcome)
      requires Valid()
      modifies this
      ensures Valid()
      ensures r.Freed? <==> old(LiveObject(addr))
      ensures r.Freed? ==> forall a: nat :: LiveObject(a) <==> old(LiveObject(a)) && a != addr
      ensures !r.Freed? ==> spans == old(spans) && free == old(free) && mem == old(mem) && partialList == old(partialList)
      ensures r.Freed? ==> Bases(spans) == Bases(old(spans))
      ensures r.Freed? ==> exists s: nat :: InPage(geometry, spans, s, addr) && (r.nowEmpty <==> !PageInUse(spans[s].base))
      ensures r.DoubleFree? <==> IsObject(geometry, old(spans), addr) && !old(LiveObject(addr))
      ensures r.NotInCache? <==> forall s: nat :: !InPage(geometry, old(spans), s, addr)
      ensures r.NotAligned? <==> exists s: nat :: OffSlot(geometry, old(spans), s, addr)
    {
      var place := Locate(addr);
      match place
      case Nowhere => r := NotInCache;
      case OffGrid => r := NotAligned;
      case PastEnd => r := OutsideSlots;
      case AtSlot(s, slot) => r := FreeSlot(s, slot, addr);
    }

    /** The slot an address starts, or what is wrong with it. */
    method Locate(addr: nat) returns (r: Place)
      requires Valid()
      ensures r.Nowhere? <==> forall s: nat :: !InPage(geometry, spans, s, addr)
      ensures r.OffGrid? <==> exists s: nat :: OffSlot(geometry, spans, s, addr)
      ensures r.AtSlot? ==> SlotAt(geometry, spans, r.s, r.slot, addr) && InPage(geometry, spans, r.s, addr)
      ensures !r.AtSlot? ==> !IsObject(geometry, spans, addr) && !LiveObject(addr)
    {
      var found := FindSpanIndex(addr);
      if !found.Found? {
        OffGridIsNoObject(addr);
        return if found.NoSpan? then Nowhere else OffGrid;
      }
      var s := found.idx;
      OnePage(s, addr);
      var m := spans[s];
      assert SpanOk(geometry, mem, m, free[s]);
      var slot := (addr - m.base) / geometry.objectSize;
      DivMulExact(addr - m.base, geometry.objectSize);
      if slot >= m.totalObjects {
        PastEndIsNoObject(addr, s);
        return PastEnd;
      }
      r := AtSlot(s, slot);
    }

    method FreeSlot(s: nat, slot: nat, addr: nat) returns (r: FreeOutcome)
      requires Valid() && SlotAt(geometry, spans, s, slot, addr) && InPage(geometry, spans, s, addr)
      modifies this
      ensures Valid() && (r.Freed? || r.DoubleFree?)
      ensures r.Freed? <==> old(LiveObject(addr))
      ensures r.Freed? ==> forall a: nat :: LiveObject(a) <==> old(LiveObject(a)) && a != addr
      ensures !r.Freed? ==> spans == old(spans) && free == old(free) && mem == old(mem) && partialList == old(partialList)
      ensures r.Freed? ==> Bases(spans) == Bases(old(spans))
      ensures r.Freed? ==> InPage(geometry, spans, s, addr) && (r.nowEmpty <==> !PageInUse(spans[s].base))
    {
      var m := spans[s];
      assert SpanOk(geometry, mem, m, free[s]);
      LiveIff(geometry, spans, free, s, slot);
      if !BitAt(m.bitmap, slot) {
        return DoubleFree;
      }
      GiveBack(s, slot, addr);
      assert spans[s].base == Bases(spans)[s] == Bases(old(spans))[s];
      EmptyMeansNoLive(geometry, mem, spans, free, s);
      r := Freed(spans[s].IsEmpty());
    }

    /** Prepend a live object to its span's freelist; a formerly full span is listed again. */
    method GiveBack(s: nat, slot: nat, addr: nat)
      requires Valid() && s < |spans| && slot < geometry.perSlab && slot !in free[s]
      requires addr == SlotAddr(geometry, spans[s].base, slot)
      modifies this
      ensures Valid() && Bases(spans) == Bases(old(spans)) && s < |spans|
      ensures forall a: nat :: LiveObject(a) <==> old(LiveObject(a)) && a != addr
    {
      var m := spans[s];
      assert SpanOk(geometry, mem, m, free[s]);
      var wasFull := m.IsFull();
      GiveSlot(geometry, mem, spans, free, s, slot);
      var m' := m.(freelistHead := addr, inuseCount := m.inuseCount - 1, bitmap := BitmapSet(m.bitmap, slot, false));
      assert m' == Pushed(geometry, m, slot);
      SameIndices(spans, spans[s := m'], partialList);
      EntriesDistinct(spans, partialList);
      FewSpans(geometry, mem, spans, free);
      mem := mem[addr := EncodeNext(m.freelistHead, geometry.key, addr)];
      spans := spans[s := m'];
      free := free[s := [slot] + free[s]];
      if wasFull {
        ListFresh(s);
      }
      assert Bases(spans) == Bases(old(spans));
    }

    lemma SlotInPage(t: nat, i: nat, addr: nat)
      requires Valid() && SlotAt(geometry, spans, t, i, addr)
      ensures InPage(geometry, spans, t, addr) && i < geometry.perSlab
      ensures (addr - spans[t].base) % geometry.objectSize == 0 && (addr - spans[t].base) / geometry.objectSize == i
    {
      SlotOffset(geometry, spans[t].base, i);
    }

    lemma LiveIsObject(addr: nat)
      requires Valid() && LiveObject(addr)
      ensures IsObject(geometry, spans, addr)
    {
      var t: nat, i: nat :| LiveAt(geometry, spans, free, t, i, addr);
      assert SlotAt(geometry, spans, t, i, addr);
    }

    /** No object has an address between the slots of its page. */
    lemma OffGridIsNoObject(addr: nat)
      requires Valid()
      requires forall s: nat | InPage(geometry, spans, s, addr) :: (addr - spans[s].base) % geometry.objectSize != 0
      ensures !IsObject(geometry, spans, addr) && !LiveObject(addr)
    {
      if t: nat, i: nat :| SlotAt(geometry, spans, t, i, addr) {
        SlotInPage(t, i, addr);
      }
      if LiveObject(addr) {
        LiveIsObject(addr);
      }
    }

    /** No object has an address behind the last slot of its page. */
    lemma PastEndIsNoObject(addr: nat, s: nat)
      requires Valid() && InPage(geometry, spans, s, addr)
      requires (addr - spans[s].base) / geometry.objectSize >= geometry.perSlab
      ensures !IsObject(geometry, spans, addr) && !LiveObject(addr)
    {
      OnePage(s, addr);
      if t: nat, i: nat :| SlotAt(geometry, spans, t, i, addr) {
        SlotInPage(t, i, addr);
      }
      if LiveObject(addr) {
        LiveIsObject(addr);
      }
    }

    lemma OnePage(s: nat, addr: nat)
      requires Valid() && InPage(geometry, spans, s, addr)
      ensures forall t: nat | InPage(geometry, spans, t, addr) :: t == s
    {
      forall t: nat | InPage(geometry, spans, t, addr) ensures t == s {
        OneSpan(geometry, spans, s, t, addr);
      }
    }

    // ---- reclaim ----

    /** Drop the empty span at `p` from the table. */
    method DropSpan(p: nat) returns (base: nat)
      requires Valid() && p < |spans| && spans[p].IsEmpty()
      modifies this`spans, this`partialList, this`free
      ensures Valid()
      ensures base == old(spans)[p].base && Pages(spans) == RemoveAt(Pages(old(spans)), p)
      ensures forall a: nat :: LiveObject(a) <==> old(LiveObject(a))
    {
      assert SpanOk(geometry, mem, spans[p], free[p]);
      if spans[p].InPartialList() {
        RemoveFromPartialList(p);
        SameButIndexOk(geometry, mem, old(spans), spans, free);
        SameButIndexLive(geometry, old(spans), spans, free);
      }
      assert Pages(spans) == Pages(old(spans));
      base := spans[p].base;
      DropPage(geometry, mem, spans, free, p);
      RemoveSpan(spans, partialList, p);
      spans := RemoveAt(spans, p);
      free := RemoveAt(free, p);
      AdjustAfterRemove(p);
    }

    /** Drops the empty spans one by one, in table order. */
    method ReclaimLoop() returns (pages: seq<nat>)
      requires Valid()
      modifies this`spans, this`partialList, this`free
      ensures Valid()
      ensures pages == PagesWith(Pages(old(spans)), true)
      ensures Bases(spans) == PagesWith(Pages(old(spans)), false)
      ensures forall a: nat :: LiveObject(a) <==> old(LiveObject(a))
    {
      pages := [];
      var s := 0;
      ghost var all := Pages(spans);
      assert all[0..] == all;
      while s < |spans|
        invariant Valid() && Reclaiming(Pages(spans), s, pages, all)
        invariant forall a: nat :: LiveObject(a) <==> old(LiveObject(a))
        decreases |spans| - s
      {
        ghost var before := Pages(spans);
        if !spans[s].IsEmpty() {
          ReclaimKeep(before, s, pages, all);
          s := s + 1;
        } else {
          ReclaimDrop(before, s, pages, all);
          var base := DropSpan(s);
          pages := pages + [base];
        }
      }
      ReclaimDone(spans, s, pages, all);
    }

    /** Hand back the page of every empty slab: each once, and no live object moves. */
    method ReclaimEmpty() returns (pages: seq<nat>)
      requires Valid()
      modifies this`spans, this`partialList, this`free
      ensures Valid()
      ensures forall a: nat :: LiveObject(a) <==> old(LiveObject(a))
      ensures Distinct(pages)
      ensures forall b :: b in pages <==> b in Bases(old(spans)) && !old(PageInUse(b))
      ensures forall b :: b in Bases(spans) <==> b in Bases(old(spans)) && old(PageInUse(b))
    {
      ReclaimMeaning(geometry, mem, spans, free);
      pages := ReclaimLoop();
    }

    // ---- clients ----

    /** A client writes a word of an object it holds. */
    method ClientWrite(w: nat, value: nat)
      requires Valid() && ClientWord(geometry, spans, free, w)
      modifies this`mem
      ensures Valid() && mem == old(mem)[w := value]
    {
      ClientWriteHarmless(geometry, mem, spans, free, w, value);
      mem := mem[w := value];
    }
  }

  function Bases(spans: seq<SpanMeta>): seq<nat> {
    seq(|spans|, s requires 0 <= s < |spans| => spans[s].base)
  }

  ghost predicate AllLive(g: Geometry, spans: seq<SpanMeta>, free: seq<seq<nat>>)
    requires |free| == |spans|
  {
    forall s: nat, i: nat | s < |spans| && i < g.perSlab :: Live(g, spans, free, SlotAddr(g, spans[s].base, i))
  }

  lemma AllFullMeans(g: Geometry, mem: Memory, spans: seq<SpanMeta>, free: seq<seq<nat>>)
    requires GeometryOk(g) && AllSpansOk(g, mem, spans, free) && Sorted(g, spans)
    ensures AllLive(g, spans, free) <==> forall s: nat | s < |spans| :: spans[s].IsFull()
  {
    forall s: nat | s < |spans|
      ensures spans[s].IsFull() <==> forall i: nat | i < g.perSlab :: Live(g, spans, free, SlotAddr(g, spans[s].base, i)) {
      FullMeansAllLive(g, mem, spans, free, s);
    }
  }

  ghost predicate UsedPage(g: Geometry, spans: seq<SpanMeta>, free: seq<seq<nat>>, base: nat)
    requires |free| == |spans|
  {
    exists i: nat :: i < g.perSlab && Live(g, spans, free, SlotAddr(g, base, i))
  }

  lemma {:induction false} PagesWithMember(pages: seq<(nat, bool)>, empty: bool, b: nat)
    ensures b in PagesWith(pages, empty) <==> (b, empty) in pages
    decreases |pages|
  {
    if pages != [] {
      PagesWithMember(pages[1..], empty, b);
      assert pages == [pages[0]] + pages[1..];
    }
  }

  lemma {:induction false} PagesWithDistinct(pages: seq<(nat, bool)>, empty: bool)
    requires forall i, j | 0 <= i < j < |pages| :: pages[i].0 < pages[j].0
    ensures Distinct(PagesWith(pages, empty))
    decreases |pages|
  {
    if pages != [] {
      PagesWithDistinct(pages[1..], empty);
      PagesWithMember(pages[1..], empty, pages[0].0);
    }
  }

  lemma PagesDistinct(g: Geometry, spans: seq<SpanMeta>)
    requires GeometryOk(g) && Sorted(g, spans)
    ensures Distinct(PagesWith(Pages(spans), true))
  {
    PageAtLeastWord(g);
    PagesWithDistinct(Pages(spans), true);
  }

  /** The pages listed as empty are exactly those without a live object, each once. */
  lemma ReclaimMeaning(g: Geometry, mem: Memory, spans: seq<SpanMeta>, free: seq<seq<nat>>)
    requires GeometryOk(g) && AllSpansOk(g, mem, spans, free) && Sorted(g, spans)
    ensures Distinct(PagesWith(Pages(spans), true))
    ensures forall b :: b in PagesWith(Pages(spans), true) <==> b in Bases(spans) && !UsedPage(g, spans, free, b)
    ensures forall b :: b in PagesWith(Pages(spans), false) <==> b in Bases(spans) && UsedPage(g, spans, free, b)
  {
    PagesDistinct(g, spans);
    forall b, empty: bool ensures b in PagesWith(Pages(spans), empty) <==>
                                  b in Bases(spans) && UsedPage(g, spans, free, b) != empty {
      PagesWithMember(Pages(spans), empty, b);
      PageListed(g, mem, spans, free, b, empty);
    }
  }

  lemma PageListed(g: Geometry, mem: Memory, spans: seq<SpanMeta>, free: seq<seq<nat>>, b: nat, empty: bool)
    requires GeometryOk(g) && AllSpansOk(g, mem, spans, free) && Sorted(g, spans)
    ensures (b, empty) in Pages(spans) <==> b in Bases(spans) && UsedPage(g, spans, free, b) != empty
  {
    forall s: nat | s < |spans| ensures spans[s].IsEmpty() <==> !UsedPage(g, spans, free, spans[s].base) {
      EmptyMeansNoLive(g, mem, spans, free, s);
    }
    if (b, empty) in Pages(spans) {
      var s: nat :| s < |spans| && Pages(spans)[s] == (b, empty);
      assert Bases(spans)[s] == b;
    }
    if b in Bases(spans) && UsedPage(g, spans, free, b) != empty {
      var s: nat :| s < |spans| && Bases(spans)[s] == b;
      assert Pages(spans)[s] == (b, empty);
    }
  }

  /** Pages before `s` stay; those from `s` on are still to be looked at. */
  ghost predicate Reclaiming(now: seq<(nat, bool)>, s: nat, pages: seq<nat>, all: seq<(nat, bool)>) {
    && s <= |now| && (forall t: nat | t < s :: !now[t].1)
    && pages + PagesWith(now[s..], true) == PagesWith(all, true)
    && PagesWith(now, false) == PagesWith(all, false)
  }

  lemma ReclaimKeep(now: seq<(nat, bool)>, s: nat, pages: seq<nat>, all: seq<(nat, bool)>)
    requires Reclaiming(now, s, pages, all) && s < |now| && !now[s].1
    ensures Reclaiming(now, s + 1, pages, all)
  {
    PagesWithHead(now, s, true);
  }

  lemma ReclaimDrop(now: seq<(nat, bool)>, s: nat, pages: seq<nat>, all: seq<(nat, bool)>)
    requires Reclaiming(now, s, pages, all) && s < |now| && now[s].1
    ensures Reclaiming(RemoveAt(now, s), s, pages + [now[s].0], all)
  {
    PagesWithHead(now, s, true);
    PagesWithRemove(now, s, false);
    assert RemoveAt(now, s)[s..] == now[s + 1..];
  }

  lemma ReclaimDone(spans: seq<SpanMeta>, s: nat, pages: seq<nat>, all: seq<(nat, bool)>)
    requires Reclaiming(Pages(spans), s, pages, all) && s == |spans|
    ensures pages == PagesWith(all, true) && Bases(spans) == PagesWith(all, false)
  {
    AllKept(spans);
  }

  lemma PagesWithHead(pages: seq<(nat, bool)>, s: nat, empty: bool)
    requires s < |pages|
    ensures PagesWith(pages[s..], empty) ==
            (if pages[s].1 == empty then [pages[s].0] else []) + PagesWith(pages[s + 1..], empty)
  {
    assert pages[s..][1..] == pages[s + 1..];
  }

  lemma {:induction false} PagesWithRemove(pages: seq<(nat, bool)>, p: nat, empty: bool)
    requires p < |pages| && pages[p].1 != empty
    ensures PagesWith(RemoveAt(pages, p), empty) == PagesWith(pages, empty)
  {
    var r := RemoveAt(pages, p);
    if p == 0 {
      assert r == pages[1..];
    } else {
      PagesWithRemove(pages[1..], p - 1, empty);
      assert r[1..] == RemoveAt(pages[1..], p - 1);
    }
  }

  lemma {:induction false} AllKept(spans: seq<SpanMeta>)
    requires forall s: nat | s < |spans| :: !Pages(spans)[s].1
    ensures PagesWith(Pages(spans), false) == Bases(spans)
    decreases |spans|
  {
    if spans != [] {
      assert Pages(spans)[1..] == Pages(spans[1..]);
      forall s: nat | s < |spans| - 1 ensures !Pages(spans[1..])[s].1 {
        assert !Pages(spans)[s + 1].1;
      }
      AllKept(spans[1..]);
      assert Bases(spans) == [spans[0].base] + Bases(spans[1..]);
    }
  }

  /** A page is full exactly when all of its objects are live. */
  lemma FullMeansAllLive(g: Geometry, mem: Memory, spans: seq<SpanMeta>, free: seq<seq<nat>>, s: nat)
    requires GeometryOk(g) && AllSpansOk(g, mem, spans, free) && Sorted(g, spans) && s < |spans|
    ensures spans[s].IsFull() <==> forall i: nat | i < g.perSlab :: Live(g, spans, free, SlotAddr(g, spans[s].base, i))
  {
    assert SpanOk(g, mem, spans[s], free[s]);
    forall i: nat | i < g.perSlab ensures Live(g, spans, free, SlotAddr(g, spans[s].base, i)) <==> i !in free[s] {
      LiveIff(g, spans, free, s, i);
    }
    if free[s] != [] {
      assert free[s][0] in free[s];
    }
  }

  /** A page is empty exactly when none of its objects is live. */
  lemma EmptyMeansNoLive(g: Geometry, mem: Memory, spans: seq<SpanMeta>, free: seq<seq<nat>>, s: nat)
    requires GeometryOk(g) && AllSpansOk(g, mem, spans, free) && Sorted(g, spans) && s < |spans|
    ensures spans[s].IsEmpty() <==> forall i: nat | i < g.perSlab :: !Live(g, spans, free, SlotAddr(g, spans[s].base, i))
  {
    assert SpanOk(g, mem, spans[s], free[s]);
    forall i: nat | i < g.perSlab ensures Live(g, spans, free, SlotAddr(g, spans[s].base, i)) <==> i !in free[s] {
      LiveIff(g, spans, free, s, i);
    }
    if spans[s].IsEmpty() {
      DistinctAll(free[s], g.perSlab);
    } else if forall i: nat | i < g.perSlab :: i in free[s] {
      CoverSize(free[s], g.perSlab);
    }
  }
}
