/** One slab page of `kernel-core/src/slab.rs`: its slots, its allocation bitmap and the encoded freelist
threaded through its free objects. */
module SlabSpans {
  import opened Seqs
  import opened Words

  const FREELIST_END: nat := 0
  const NOT_IN_PARTIAL: nat := 0xffff_ffff_ffff_ffff
  const INLINE_BITMAP_WORDS: nat := 8
  const USIZE_BYTES: nat := 8
  const ADDRESS_LIMIT: nat := 0x1_0000_0000_0000_0000

  /** Sizes and hardening key of a cache. */
  datatype Geometry = Geometry(objectSize: nat, pageSize: nat, perSlab: nat, key: nat)

  /** What the constructor asserts, and the 512 objects that a bitmap can describe. */
  predicate GeometryOk(g: Geometry) {
    && g.objectSize >= USIZE_BYTES
    && g.objectSize % USIZE_BYTES == 0
    && g.perSlab == g.pageSize / g.objectSize
    && g.perSlab > 0
  }

  // ---- slots ----

  function SlotAddr(g: Geometry, base: nat, i: nat): nat {
    base + i * g.objectSize
  }

  lemma MulStep(i: nat, j: nat, size: nat)
    requires i < j
    ensures i * size + size <= j * size
  {
    assert (i + 1) * size <= j * size;
  }

  lemma SlotsApart(g: Geometry, base: nat, i: nat, j: nat)
    requires i < j
    ensures SlotAddr(g, base, i) + g.objectSize <= SlotAddr(g, base, j)
  {
    MulStep(i, j, g.objectSize);
  }

  lemma MulDivBound(a: nat, b: nat)
    requires b > 0
    ensures (a / b) * b <= a
  {
  }

  lemma SlotInPage(g: Geometry, base: nat, i: nat)
    requires GeometryOk(g) && i < g.perSlab
    ensures SlotAddr(g, base, i) + g.objectSize <= base + g.pageSize
  {
    MulStep(i, g.perSlab, g.objectSize);
    MulDivBound(g.pageSize, g.objectSize);
  }

  lemma MulDivExact(i: nat, size: nat)
    requires size > 0
    ensures (i * size) / size == i && (i * size) % size == 0
  {
    var x := i * size;
    var q := x / size;
    assert x == q * size + x % size;
    if q < i {
      MulStep(q, i, size);
    } else if i < q {
      MulStep(i, q, size);
    }
  }

  lemma DivMulExact(off: nat, size: nat)
    requires size > 0 && off % size == 0
    ensures (off / size) * size == off
  {
  }

  /** A slot address lies in its page, aligned, and gives its index back. */
  lemma SlotOffset(g: Geometry, base: nat, i: nat)
    requires GeometryOk(g) && i < g.perSlab
    ensures base <= SlotAddr(g, base, i) < base + g.pageSize
    ensures (SlotAddr(g, base, i) - base) % g.objectSize == 0
    ensures (SlotAddr(g, base, i) - base) / g.objectSize == i
  {
    SlotInPage(g, base, i);
    var off := i * g.objectSize;
    assert SlotAddr(g, base, i) - base == off;
    MulDivExact(i, g.objectSize);
  }

  // ---- encoded next-pointers ----

  function EncodeNext(rawNext: nat, key: nat, slotAddr: nat): nat {
    Xor(Xor(rawNext, key), slotAddr)
  }

  function DecodeNext(encoded: nat, key: nat, slotAddr: nat): nat {
    Xor(Xor(encoded, key), slotAddr)
  }

  /** Decoding in the slot it was written for gives back the pointer. */
  lemma DecodeEncode(rawNext: nat, key: nat, slotAddr: nat)
    ensures DecodeNext(EncodeNext(rawNext, key, slotAddr), key, slotAddr) == rawNext
  {
    var e := EncodeNext(rawNext, key, slotAddr);
    forall i: nat ensures Bit(DecodeNext(e, key, slotAddr), i) == Bit(rawNext, i) {
      XorBits(rawNext, key, i);
      XorBits(Xor(rawNext, key), slotAddr, i);
      XorBits(e, key, i);
      XorBits(Xor(e, key), slotAddr, i);
    }
    BitsDetermine(DecodeNext(e, key, slotAddr), rawNext);
  }

  lemma OtherKeyBit(rawNext: nat, key: nat, slotAddr: nat, key': nat, slotAddr': nat, i: nat)
    ensures Bit(DecodeNext(EncodeNext(rawNext, key, slotAddr), key', slotAddr'), i) == Bit(rawNext, i) <==>
            Bit(Xor(key, slotAddr), i) == Bit(Xor(key', slotAddr'), i)
  {
    var e := EncodeNext(rawNext, key, slotAddr);
    XorBits(rawNext, key, i);
    XorBits(Xor(rawNext, key), slotAddr, i);
    XorBits(e, key', i);
    XorBits(Xor(e, key'), slotAddr', i);
    XorBits(key, slotAddr, i);
    XorBits(key', slotAddr', i);
  }

  /** A word read in another slot or with another key decodes to its pointer exactly when key and slot mix
      to the same mask. */
  lemma OtherKeyChangesPointer(rawNext: nat, key: nat, slotAddr: nat, key': nat, slotAddr': nat)
    ensures DecodeNext(EncodeNext(rawNext, key, slotAddr), key', slotAddr') == rawNext <==>
            Xor(key, slotAddr) == Xor(key', slotAddr')
  {
    var d := DecodeNext(EncodeNext(rawNext, key, slotAddr), key', slotAddr');
    if d == rawNext {
      forall i: nat ensures Bit(Xor(key, slotAddr), i) == Bit(Xor(key', slotAddr'), i) {
        OtherKeyBit(rawNext, key, slotAddr, key', slotAddr', i);
      }
      BitsDetermine(Xor(key, slotAddr), Xor(key', slotAddr'));
    } else if Xor(key, slotAddr) == Xor(key', slotAddr') {
      forall i: nat ensures Bit(d, i) == Bit(rawNext, i) {
        OtherKeyBit(rawNext, key, slotAddr, key', slotAddr', i);
      }
      BitsDetermine(d, rawNext);
    }
  }

  type Memory = map<nat, nat>

  function Load(mem: Memory, a: nat): nat {
    if a in mem then mem[a] else 0
  }

  // ---- spans ----

  /** Metadata of one slab page. */
  datatype SpanMeta = SpanMeta(
    base: nat,
    freelistHead: nat,
    inuseCount: nat,
    totalObjects: nat,
    bitmap: seq<nat>,
    partialIdx: nat)
  {
    predicate IsFull() {
      inuseCount == totalObjects
    }

    predicate IsEmpty() {
      inuseCount == 0
    }

    predicate InPartialList() {
      partialIdx != NOT_IN_PARTIAL
    }
  }

  /** A page a span can be made of: not at the end mark, its end is an address, its slots fit the bitmap. */
  predicate PageOk(g: Geometry, base: nat) {
    && 0 < base && base % USIZE_BYTES == 0 && base + g.pageSize < ADDRESS_LIMIT
    && g.perSlab <= 64 * INLINE_BITMAP_WORDS
  }

  /** Address of the `k`-th free slot, or the end mark. */
  function LinkAddr(g: Geometry, base: nat, slots: seq<nat>, k: nat): nat {
    if k < |slots| then SlotAddr(g, base, slots[k]) else FREELIST_END
  }

  predicate LinkOk(g: Geometry, mem: Memory, base: nat, slots: seq<nat>, k: nat)
    requires k < |slots|
  {
    var a := SlotAddr(g, base, slots[k]);
    DecodeNext(Load(mem, a), g.key, a) == LinkAddr(g, base, slots, k + 1)
  }

  /** Decoding from `head` visits exactly `slots`, in order, and then the end mark. */
  ghost predicate ChainOk(g: Geometry, mem: Memory, base: nat, head: nat, slots: seq<nat>) {
    && head == LinkAddr(g, base, slots, 0)
    && (forall k: nat | k < |slots| :: LinkOk(g, mem, base, slots, k))
  }

  /** The freelist, the bitmap and the counter of a page describe the same free slots. */
  ghost predicate SpanOk(g: Geometry, mem: Memory, m: SpanMeta, slots: seq<nat>) {
    && PageOk(g, m.base)
    && m.totalObjects == g.perSlab
    && m.inuseCount + |slots| == g.perSlab
    && Distinct(slots) && (forall i | i in slots :: i < g.perSlab)
    && |m.bitmap| == INLINE_BITMAP_WORDS && WordsOk(m.bitmap)
    && (forall i: nat | i < g.perSlab :: BitAt(m.bitmap, i) <==> i !in slots)
    && ChainOk(g, mem, m.base, m.freelistHead, slots)
  }

  /** `SpanOk` reads memory only at the free slots of the page. */
  /** With one key, a word decodes to its pointer in its own slot only. */
  lemma OtherSlotChangesPointer(rawNext: nat, key: nat, slotAddr: nat, slotAddr': nat)
    ensures DecodeNext(EncodeNext(rawNext, key, slotAddr), key, slotAddr') == rawNext <==> slotAddr == slotAddr'
  {
    OtherKeyChangesPointer(rawNext, key, slotAddr, key, slotAddr');
    if Xor(key, slotAddr) == Xor(key, slotAddr') {
      forall i: nat ensures Bit(slotAddr, i) == Bit(slotAddr', i) {
        XorBits(key, slotAddr, i);
        XorBits(key, slotAddr', i);
      }
      BitsDetermine(slotAddr, slotAddr');
    }
  }

  lemma SpanFrame(g: Geometry, mem: Memory, mem': Memory, m: SpanMeta, slots: seq<nat>)
    requires SpanOk(g, mem, m, slots)
    requires forall i | i in slots :: Load(mem', SlotAddr(g, m.base, i)) == Load(mem, SlotAddr(g, m.base, i))
    ensures SpanOk(g, mem', m, slots)
  {
    forall k: nat | k < |slots| ensures LinkOk(g, mem', m.base, slots, k) {
      assert slots[k] in slots;
      assert LinkOk(g, mem, m.base, slots, k);
    }
  }

  // ---- bitmaps ----

  function BitmapSet(bitmap: seq<nat>, i: nat, inUse: bool): seq<nat>
    requires i / 64 < |bitmap|
  {
    var w := bitmap[i / 64];
    bitmap[i / 64 := if inUse then Or(w, Pow2(i % 64)) else AndNot(w, Pow2(i % 64))]
  }

  lemma BitmapSetBits(bitmap: seq<nat>, i: nat, inUse: bool)
    requires i / 64 < |bitmap| && WordsOk(bitmap)
    ensures WordsOk(BitmapSet(bitmap, i, inUse)) && |BitmapSet(bitmap, i, inUse)| == |bitmap|
    ensures forall e: nat :: BitAt(BitmapSet(bitmap, i, inUse), e) <==> if e == i then inUse else BitAt(bitmap, e)
  {
    SetOneBit(bitmap[i / 64], i % 64);
    ClearOneBit(bitmap[i / 64], i % 64);
    forall e: nat
      ensures BitAt(BitmapSet(bitmap, i, inUse), e) <==> if e == i then inUse else BitAt(bitmap, e) {
      if e / 64 == i / 64 && e % 64 == i % 64 {
        assert e == i;
      }
    }
  }

  // ---- taking a slot and giving one back ----

  lemma RestSlots(slots: seq<nat>)
    requires slots != [] && Distinct(slots)
    ensures Distinct(slots[1..])
    ensures forall i :: i in slots[1..] <==> i in slots && i != slots[0]
  {
    assert slots == [slots[0]] + slots[1..];
  }

  /** The span after its head slot was taken. */
  function Popped(g: Geometry, m: SpanMeta, slots: seq<nat>): SpanMeta
    requires slots != [] && slots[0] / 64 < |m.bitmap|
  {
    m.(freelistHead := LinkAddr(g, m.base, slots, 1), inuseCount := m.inuseCount + 1,
       bitmap := BitmapSet(m.bitmap, slots[0], true))
  }

  /** The span after slot `i` was given back. */
  function Pushed(g: Geometry, m: SpanMeta, i: nat): SpanMeta
    requires i / 64 < |m.bitmap| && m.inuseCount > 0
  {
    m.(freelistHead := SlotAddr(g, m.base, i), inuseCount := m.inuseCount - 1, bitmap := BitmapSet(m.bitmap, i, false))
  }

  /** Popping the head slot leaves the rest of the chain. */
  lemma PopSlot(g: Geometry, mem: Memory, m: SpanMeta, slots: seq<nat>)
    requires GeometryOk(g) && SpanOk(g, mem, m, slots) && slots != []
    ensures slots[0] / 64 < |m.bitmap|
    ensures SpanOk(g, mem, Popped(g, m, slots), slots[1..])
  {
    assert slots[0] in slots;
    BitmapSetBits(m.bitmap, slots[0], true);
    var rest := slots[1..];
    RestSlots(slots);
    forall k: nat | k < |rest| ensures LinkOk(g, mem, m.base, rest, k) {
      assert LinkOk(g, mem, m.base, slots, k + 1);
    }
  }

  /** Writing the old head into a freed slot and making it the head pushes it on the chain. */
  lemma PushSlot(g: Geometry, mem: Memory, m: SpanMeta, slots: seq<nat>, i: nat)
    requires GeometryOk(g) && SpanOk(g, mem, m, slots) && i < g.perSlab && i !in slots
    ensures i / 64 < |m.bitmap|
    ensures m.inuseCount > 0
    ensures var a := SlotAddr(g, m.base, i);
            SpanOk(g, mem[a := EncodeNext(m.freelistHead, g.key, a)], Pushed(g, m, i), [i] + slots)
  {
    var a := SlotAddr(g, m.base, i);
    var mem' := mem[a := EncodeNext(m.freelistHead, g.key, a)];
    BitmapSetBits(m.bitmap, i, false);
    DecodeEncode(m.freelistHead, g.key, a);
    var more := [i] + slots;
    assert forall j :: j in more <==> j in slots || j == i;
    assert |more| <= g.perSlab by { DistinctBelow(more, g.perSlab); }
    forall k: nat | k < |more| ensures LinkOk(g, mem', m.base, more, k) {
      if k > 0 {
        assert LinkOk(g, mem, m.base, slots, k - 1);
        if slots[k - 1] < i { SlotsApart(g, m.base, slots[k - 1], i); } else { SlotsApart(g, m.base, i, slots[k - 1]); }
      }
    }
  }

  /** Distinct numbers below `n` are at most `n` many. */
  lemma DistinctBelow(xs: seq<nat>, n: nat)
    requires Distinct(xs) && forall x | x in xs :: x < n
    ensures |xs| <= n
  {
    var below := Below(n);
    assert forall x | x in xs :: x in below;
    DistinctInSet(xs, below);
  }

  function Below(n: nat): (r: set<nat>)
    ensures forall x: nat :: x in r <==> x < n
    ensures |r| == n
  {
    if n == 0 then {} else Below(n - 1) + {n - 1}
  }

  lemma {:induction false} DistinctInSet(xs: seq<nat>, s: set<nat>)
    requires Distinct(xs) && forall x | x in xs :: x in s
    ensures |xs| <= |s|
    decreases |xs|
  {
    if xs != [] {
      var rest := xs[1..];
      assert xs == [xs[0]] + rest;
      DistinctInSet(rest, s - {xs[0]});
    }
  }

  /** As many distinct numbers below `n` as there are: all of them. */
  lemma DistinctAll(xs: seq<nat>, n: nat)
    requires Distinct(xs) && |xs| == n && forall x | x in xs :: x < n
    ensures forall i: nat | i < n :: i in xs
  {
    forall i: nat | i < n ensures i in xs {
      if i !in xs {
        DistinctInSet(xs, Below(n) - {i});
      }
    }
  }

  /** A list that contains all numbers below `n` has at least `n` entries. */
  lemma {:induction false} CoverSize(xs: seq<nat>, n: nat)
    requires forall i: nat | i < n :: i in xs
    ensures |xs| >= n
    decreases n
  {
    if n > 0 {
      var top: nat := n - 1;
      assert top in xs;
      var k :| 0 <= k < |xs| && xs[k] == top;
      var ys := xs[..k] + xs[k + 1..];
      forall i: nat | i < n - 1 ensures i in ys {
        assert i in xs;
        var j :| 0 <= j < |xs| && xs[j] == i;
        assert ys[if j < k then j else j - 1] == i;
      }
      CoverSize(ys, n - 1);
    }
  }

  // ---- a fresh page ----

  /** The slots `i .. n` in order. */
  function SlotsFrom(i: nat, n: nat): seq<nat>
    requires i <= n
  {
    seq(n - i, k requires 0 <= k < n - i => i + k)
  }

  lemma SlotsFromCons(i: nat, n: nat)
    requires i < n
    ensures SlotsFrom(i, n) == [i] + SlotsFrom(i + 1, n)
  {
  }

  lemma ChainPush(g: Geometry, mem: Memory, base: nat, head: nat, slots: seq<nat>, i: nat)
    requires GeometryOk(g) && ChainOk(g, mem, base, head, slots) && i !in slots
    ensures var a := SlotAddr(g, base, i);
            ChainOk(g, mem[a := EncodeNext(head, g.key, a)], base, a, [i] + slots)
  {
    var a := SlotAddr(g, base, i);
    var mem', more := mem[a := EncodeNext(head, g.key, a)], [i] + slots;
    DecodeEncode(head, g.key, a);
    forall k: nat | k < |more| ensures LinkOk(g, mem', base, more, k) {
      if k > 0 {
        assert LinkOk(g, mem, base, slots, k - 1);
        if slots[k - 1] < i { SlotsApart(g, base, slots[k - 1], i); } else { SlotsApart(g, base, i, slots[k - 1]); }
      }
    }
  }

  /** Only words of the page at `base` may differ. */
  ghost predicate SameOutside(g: Geometry, base: nat, mem: Memory, mem': Memory) {
    forall a: nat | a < base || base + g.pageSize <= a :: Load(mem', a) == Load(mem, a)
  }

  /** Linking slot `i` in front of the slots above it. */
  lemma ThreadSlot(g: Geometry, mem: Memory, mem': Memory, base: nat, head: nat, i: nat)
    requires GeometryOk(g) && i < g.perSlab
    requires ChainOk(g, mem', base, head, SlotsFrom(i + 1, g.perSlab)) && SameOutside(g, base, mem, mem')
    ensures var a := SlotAddr(g, base, i);
            var mem'' := mem'[a := EncodeNext(head, g.key, a)];
            ChainOk(g, mem'', base, a, SlotsFrom(i, g.perSlab)) && SameOutside(g, base, mem, mem'')
  {
    SlotInPage(g, base, i);
    ChainPush(g, mem', base, head, SlotsFrom(i + 1, g.perSlab), i);
    SlotsFromCons(i, g.perSlab);
  }

  /** Thread the freelist of a fresh page from the last slot back to the first. */
  method ThreadFreelist(g: Geometry, mem: Memory, base: nat) returns (mem': Memory, head: nat)
    requires GeometryOk(g)
    ensures ChainOk(g, mem', base, head, SlotsFrom(0, g.perSlab))
    ensures SameOutside(g, base, mem, mem')
  {
    mem', head := mem, FREELIST_END;
    var i := g.perSlab;
    while i > 0
      invariant 0 <= i <= g.perSlab
      invariant ChainOk(g, mem', base, head, SlotsFrom(i, g.perSlab))
      invariant SameOutside(g, base, mem, mem')
    {
      i := i - 1;
      ThreadSlot(g, mem, mem', base, head, i);
      var slotAddr := SlotAddr(g, base, i);
      mem' := mem'[slotAddr := EncodeNext(head, g.key, slotAddr)];
      head := slotAddr;
    }
  }

  function EmptyBitmap(): seq<nat> {
    seq(INLINE_BITMAP_WORDS, _ => 0)
  }

  function FreshSpan(g: Geometry, base: nat, head: nat): SpanMeta {
    SpanMeta(base, head, 0, g.perSlab, EmptyBitmap(), NOT_IN_PARTIAL)
  }

  lemma FreshSpanOk(g: Geometry, mem: Memory, base: nat, head: nat)
    requires GeometryOk(g) && PageOk(g, base) && ChainOk(g, mem, base, head, SlotsFrom(0, g.perSlab))
    ensures SpanOk(g, mem, FreshSpan(g, base, head), SlotsFrom(0, g.perSlab))
  {
    var slots := SlotsFrom(0, g.perSlab);
    forall i: nat ensures !BitAt(EmptyBitmap(), i) {
      ZeroBits(i % 64);
    }
    forall i: nat | i < g.perSlab ensures i in slots {
      assert slots[i] == i;
    }
  }
}
