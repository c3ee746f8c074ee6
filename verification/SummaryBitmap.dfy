/** The hierarchical bitmap of the buddy allocator (`SummaryBitmap` in `kernel-core/src/buddy.rs`).

Level 0 holds one bit per index. Bit `i` of level `l + 1` says whether word `i` of level `l` is
non-zero. The class is proved to be a set of indices below `bits`. */
module SummaryBitmaps {
  import opened Options
  import opened Words

  /** As many words as it takes, and no more. */
  function WordsFor(bits: nat): (words: nat)
    ensures bits <= 64 * words < bits + 64
  {
    (bits + 63) / 64
  }

  /** Number of entries that level `l` describes. */
  function LevelBits(levels: seq<seq<nat>>, bits: nat, l: nat): nat
    requires l < |levels|
  {
    if l == 0 then bits else |levels[l - 1]|
  }

  /** Every level has just enough words for its entries, and the top level has one word. */
  ghost predicate Shape(levels: seq<seq<nat>>, bits: nat) {
    && bits > 0
    && |levels| > 0
    && Sizes(levels, bits)
    && |levels[|levels| - 1]| == 1
  }

  predicate SizeOf(levels: seq<seq<nat>>, bits: nat, l: nat)
    requires l < |levels|
  {
    |levels[l]| == WordsFor(LevelBits(levels, bits, l))
  }

  ghost predicate Sizes(levels: seq<seq<nat>>, bits: nat) {
    forall l: nat | l < |levels| :: SizeOf(levels, bits, l)
  }

  ghost predicate AllWords(levels: seq<seq<nat>>) {
    forall l: nat, w: nat | l < |levels| && w < |levels[l]| :: IsWord(levels[l][w])
  }

  /** No entry beyond the described ones is set. */
  ghost predicate TailClear(levels: seq<seq<nat>>, bits: nat) {
    forall l: nat, e: nat | l < |levels| && BitAt(levels[l], e) :: e < LevelBits(levels, bits, l)
  }

  /** The summary bit of word `i` of level `l` tells whether that word is non-zero. */
  predicate SummaryBit(levels: seq<seq<nat>>, l: nat, i: nat)
    requires l + 1 < |levels| && i < |levels[l]|
  {
    BitAt(levels[l + 1], i) <==> levels[l][i] != 0
  }

  /** All summary bits are right, save perhaps that of word `xe` of level `xl`. */
  ghost predicate SyncedBut(levels: seq<seq<nat>>, xl: int, xe: nat) {
    forall l: nat, i: nat | l + 1 < |levels| && i < |levels[l]| ::
      (l == xl && i == xe) || SummaryBit(levels, l, i)
  }

  ghost predicate Consistent(levels: seq<seq<nat>>, bits: nat, xl: int, xe: nat) {
    Shape(levels, bits) && AllWords(levels) && TailClear(levels, bits) && SyncedBut(levels, xl, xe)
  }

  /** `levels` with one word replaced. */
  function WithWord(levels: seq<seq<nat>>, l: nat, w: nat, word: nat): (r: seq<seq<nat>>)
    requires l < |levels| && w < |levels[l]|
  {
    var words: seq<nat> := levels[l][w := word];
    levels[l := words]
  }

  lemma WithWordShape(levels: seq<seq<nat>>, bits: nat, l: nat, w: nat, word: nat)
    requires Shape(levels, bits) && l < |levels| && w < |levels[l]|
    ensures Shape(WithWord(levels, l, w, word), bits)
    ensures forall k: nat | k < |levels| ::
      LevelBits(WithWord(levels, l, w, word), bits, k) == LevelBits(levels, bits, k)
  {
    var r := WithWord(levels, l, w, word);
    forall k: nat | k < |levels| ensures |r[k]| == |levels[k]| {
    }
    forall k: nat | k < |r| ensures SizeOf(r, bits, k) {
      assert SizeOf(levels, bits, k);
      assert LevelBits(r, bits, k) == LevelBits(levels, bits, k);
    }
  }

  /** An entry of a level has a word there. */
  lemma EntryHasWord(levels: seq<seq<nat>>, bits: nat, l: nat, e: nat)
    requires Shape(levels, bits) && l < |levels| && e < LevelBits(levels, bits, l)
    ensures e / 64 < |levels[l]|
  {
    assert SizeOf(levels, bits, l);
  }

  lemma EntryParts(w: nat, t: nat)
    requires t < 64
    ensures (w * 64 + t) / 64 == w && (w * 64 + t) % 64 == t
  {
  }

  /** Adding a summary level on top of the last level. */
  lemma SizesExtend(levels: seq<seq<nat>>, bits: nat, top: seq<nat>)
    requires |levels| > 0 && Sizes(levels, bits)
    requires |top| == WordsFor(|levels[|levels| - 1]|)
    ensures Sizes(levels + [top], bits)
  {
    var r := levels + [top];
    forall l: nat | l < |r| ensures SizeOf(r, bits, l) {
      if l < |levels| {
        assert SizeOf(levels, bits, l);
        assert LevelBits(r, bits, l) == LevelBits(levels, bits, l);
      }
    }
  }

  /** One iteration of `set`: writing entry `e` at level `l` moves the only possibly stale summary
      bit one level up, and leaves none stale if the word was already non-zero. */
  lemma SetStep(levels: seq<seq<nat>>, bits: nat, l: nat, e: nat)
    requires l < |levels| && Consistent(levels, bits, l as int - 1, e)
    requires e < LevelBits(levels, bits, l)
    requires l > 0 ==> levels[l - 1][e] != 0
    ensures e / 64 < |levels[l]|
    ensures var word := levels[l][e / 64];
            var r := WithWord(levels, l, e / 64, Or(word, Pow2(e % 64)));
            && r[l][e / 64] != 0
            && Consistent(r, bits, l, e / 64)
            && (word != 0 ==> Consistent(r, bits, -1, 0))
            && forall x: nat :: BitAt(r[l], x) <==> BitAt(levels[l], x) || x == e
  {
    EntryHasWord(levels, bits, l, e);
    var word := levels[l][e / 64];
    var r := WithWord(levels, l, e / 64, Or(word, Pow2(e % 64)));
    WithWordShape(levels, bits, l, e / 64, Or(word, Pow2(e % 64)));
    SetOneBit(word, e % 64);
    forall x: nat ensures BitAt(r[l], x) <==> BitAt(levels[l], x) || x == e {
    }
    forall k: nat, i: nat | k + 1 < |r| && i < |r[k]| && !(k == l && i == e / 64) ensures SummaryBit(r, k, i) {
      if !(k == l as int - 1 && i == e) {
        assert SummaryBit(levels, k, i);
      }
    }
    if word != 0 && l + 1 < |r| {
      assert SummaryBit(levels, l, e / 64);
      assert SummaryBit(r, l, e / 64);
    }
  }

  /** One iteration of `clear`: the only possibly stale summary bit moves one level up, and none is
      stale if the bit was already clear or the word is still non-zero. */
  lemma ClearStep(levels: seq<seq<nat>>, bits: nat, l: nat, e: nat)
    requires l < |levels| && Consistent(levels, bits, l as int - 1, e)
    requires e < LevelBits(levels, bits, l)
    requires l > 0 ==> levels[l - 1][e] == 0
    ensures e / 64 < |levels[l]|
    ensures var word := levels[l][e / 64];
            var r := WithWord(levels, l, e / 64, AndNot(word, Pow2(e % 64)));
            && Consistent(r, bits, l, e / 64)
            && (r[l][e / 64] == word || r[l][e / 64] != 0 ==> Consistent(r, bits, -1, 0))
            && forall x: nat :: BitAt(r[l], x) <==> BitAt(levels[l], x) && x != e
  {
    EntryHasWord(levels, bits, l, e);
    var word := levels[l][e / 64];
    var r := WithWord(levels, l, e / 64, AndNot(word, Pow2(e % 64)));
    WithWordShape(levels, bits, l, e / 64, AndNot(word, Pow2(e % 64)));
    ClearOneBit(word, e % 64);
    forall x: nat ensures BitAt(r[l], x) <==> BitAt(levels[l], x) && x != e {
    }
    forall k: nat, i: nat | k + 1 < |r| && i < |r[k]| && !(k == l && i == e / 64) ensures SummaryBit(r, k, i) {
      if !(k == l as int - 1 && i == e) {
        assert SummaryBit(levels, k, i);
      }
    }
    if l + 1 < |r| {
      assert SummaryBit(levels, l, e / 64);
      if r[l][e / 64] == word || r[l][e / 64] != 0 {
        NonzeroWord(word);
        NonzeroWord(r[l][e / 64]);
        assert SummaryBit(r, l, e / 64);
      }
    }
  }

  /** If word `w` is the first non-zero word of level `l`, its lowest bit is the level's first entry. */
  lemma FirstEntry(levels: seq<seq<nat>>, bits: nat, l: nat, w: nat)
    requires Consistent(levels, bits, -1, 0) && l < |levels|
    requires w < |levels[l]| && levels[l][w] != 0
    requires forall v: nat | v < w :: levels[l][v] == 0
    ensures var e := w * 64 + TrailingZeros(levels[l][w]);
            && e < LevelBits(levels, bits, l)
            && BitAt(levels[l], e)
            && forall x: nat | x < e :: !BitAt(levels[l], x)
  {
    NonzeroWord(levels[l][w]);
    var e := w * 64 + TrailingZeros(levels[l][w]);
    EntryParts(w, TrailingZeros(levels[l][w]));
    assert BitAt(levels[l], e);
    forall x: nat | x < e ensures !BitAt(levels[l], x) {
      if x / 64 < w {
        assert levels[l][x / 64] == 0;
        ZeroBits(x % 64);
      }
    }
  }

  class SummaryBitmap {
    var levels: seq<seq<nat>>
    const bits: nat

    ghost predicate Valid()
      reads this
    {
      if bits == 0 then levels == [[]] else Consistent(levels, bits, -1, 0)
    }

    /** The set of indices that the bitmap stands for. */
    ghost function Elems(): (s: set<nat>)
      reads this
      requires |levels| > 0
    {
      set b: nat | b < bits && BitAt(levels[0], b)
    }

    constructor (bits: nat)
      ensures Valid() && this.bits == bits
      ensures Elems() == {}
    {
      this.bits := bits;
      if bits == 0 {
        levels := [[]];
      } else {
        var ls: seq<seq<nat>> := [];
        var levelBits := bits;
        var words := WordsFor(levelBits);
        ls := [seq(words, _ => 0)];
        assert SizeOf(ls, bits, 0);
        while words > 1
          invariant |ls| > 0 && words == |ls[|ls| - 1]| > 0
          invariant Sizes(ls, bits)
          invariant forall l: nat, w: nat | l < |ls| && w < |ls[l]| :: ls[l][w] == 0
          decreases words
        {
          levelBits := words;
          words := WordsFor(levelBits);
          SizesExtend(ls, bits, seq(words, _ => 0));
          ls := ls + [seq(words, _ => 0)];
        }
        ZeroLevels(ls, bits);
        levels := ls;
      }
    }

    method Contains(bitIndex: nat) returns (r: bool)
      requires Valid()
      ensures r <==> bitIndex in Elems()
    {
      if bitIndex >= bits || |levels[0]| == 0 {
        return false;
      }
      var word := bitIndex / 64;
      var bit := bitIndex % 64;
      EntryHasWord(levels, bits, 0, bitIndex);
      TestOneBit(levels[0][word], bit);
      r := And(levels[0][word], Pow2(bit)) != 0;
    }

    method Set(bitIndex: nat)
      requires Valid()
      modifies this
      ensures Valid()
      ensures Elems() == old(Elems()) + if bitIndex < bits then {bitIndex} else {}
    {
      if bitIndex < bits {
        EntryHasWord(levels, bits, 0, bitIndex);
      }
      if bitIndex >= bits || |levels[0]| == 0 {
        return;
      }
      var entry: nat := bitIndex;
      var level: nat := 0;
      while level < |levels|
        invariant level <= |levels| && Consistent(levels, bits, level - 1, entry)
        invariant level < |levels| ==> entry < LevelBits(levels, bits, level)
        invariant level == 0 ==> entry == bitIndex && levels == old(levels)
        invariant level > 0 ==> entry < |levels[level - 1]| && levels[level - 1][entry] != 0
        invariant level > 0 ==> forall x: nat :: BitAt(levels[0], x) <==> BitAt(old(levels[0]), x) || x == bitIndex
        decreases |levels| - level
      {
        SetStep(levels, bits, level, entry);
        var wordIndex := entry / 64;
        var bit := entry % 64;
        var wasZero := levels[level][wordIndex] == 0;
        levels := WithWord(levels, level, wordIndex, Or(levels[level][wordIndex], Pow2(bit)));
        if !wasZero {
          break;
        }
        entry := wordIndex;
        level := level + 1;
      }
    }

    method Clear(bitIndex: nat)
      requires Valid()
      modifies this
      ensures Valid()
      ensures Elems() == old(Elems()) - {bitIndex}
    {
      if bitIndex >= bits || |levels[0]| == 0 {
        return;
      }
      var entry: nat := bitIndex;
      var level: nat := 0;
      while level < |levels|
        invariant level <= |levels| && Consistent(levels, bits, level - 1, entry)
        invariant level < |levels| ==> entry < LevelBits(levels, bits, level)
        invariant level == 0 ==> entry == bitIndex && levels == old(levels)
        invariant level > 0 ==> entry < |levels[level - 1]| && levels[level - 1][entry] == 0
        invariant level > 0 ==> forall x: nat :: BitAt(levels[0], x) <==> BitAt(old(levels[0]), x) && x != bitIndex
        decreases |levels| - level
      {
        ClearStep(levels, bits, level, entry);
        var wordIndex := entry / 64;
        var bit := entry % 64;
        var before := levels[level][wordIndex];
        levels := WithWord(levels, level, wordIndex, AndNot(before, Pow2(bit)));
        if before == levels[level][wordIndex] || levels[level][wordIndex] != 0 {
          break;
        }
        entry := wordIndex;
        level := level + 1;
      }
    }

    /** The least index in the set, or `None` exactly when the set is empty. */
    method FirstSet() returns (r: Option<nat>)
      requires Valid()
      ensures r.None? <==> Elems() == {}
      ensures r.Some? ==> r.value in Elems() && forall b | b in Elems() :: r.value <= b
    {
      if bits == 0 || |levels[0]| == 0 {
        return None;
      }
      var top := levels[|levels| - 1][0];
      if top == 0 {
        ZeroTop(levels, bits, |levels| - 1);
        return None;
      }
      var wordIndex: nat := 0;
      var level: nat := |levels| - 1;
      while level > 0
        invariant 0 <= level < |levels|
        invariant wordIndex < |levels[level]| && levels[level][wordIndex] != 0
        invariant forall v: nat | v < wordIndex :: levels[level][v] == 0
        decreases level
      {
        FirstEntry(levels, bits, level, wordIndex);
        var word := levels[level][wordIndex];
        var bit := TrailingZeros(word);
        wordIndex := wordIndex * 64 + bit;
        level := level - 1;
        assert SummaryBit(levels, level, wordIndex);
        forall v: nat | v < wordIndex ensures levels[level][v] == 0 {
          assert SummaryBit(levels, level, v);
        }
      }
      FirstEntry(levels, bits, 0, wordIndex);
      var leaf := levels[0][wordIndex];
      var bit := TrailingZeros(leaf);
      var bitIndex := wordIndex * 64 + bit;
      assert bitIndex < bits;
      r := Some(bitIndex);
      assert bitIndex in Elems();
    }
  }

  lemma ZeroLevels(levels: seq<seq<nat>>, bits: nat)
    requires Shape(levels, bits)
    requires forall l: nat, w: nat | l < |levels| && w < |levels[l]| :: levels[l][w] == 0
    ensures Consistent(levels, bits, -1, 0)
    ensures forall e: nat :: !BitAt(levels[0], e)
  {
    forall l: nat, e: nat | l < |levels| ensures !BitAt(levels[l], e) {
      ZeroBits(e % 64);
    }
  }

  /** A zero word summary means every level below is zero. */
  lemma {:induction false} ZeroTop(levels: seq<seq<nat>>, bits: nat, l: nat)
    requires Consistent(levels, bits, -1, 0) && l < |levels|
    requires forall w: nat | w < |levels[l]| :: levels[l][w] == 0
    ensures forall e: nat :: !BitAt(levels[0], e)
  {
    forall e: nat ensures !BitAt(levels[l], e) {
      ZeroBits(e % 64);
    }
    if l > 0 {
      var below := levels[l - 1];
      forall w: nat | w < |below| ensures below[w] == 0 {
        assert SummaryBit(levels, l - 1, w);
      }
      ZeroTop(levels, bits, l - 1);
    }
  }
}
