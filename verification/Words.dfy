/** Unsigned machine words as naturals, and the bitwise operations on them.

A `u64` or `usize` is a natural below `Pow2(64)`. Every operator is defined by halving its
operands, so `Bit(x, i)` is bit `i` of `x` and each lemma says what an operator does bit by bit. */
module Words {

  const WORD_BITS: nat := 64

  function Pow2(n: nat): (r: nat)
    ensures r >= 1
  {
    if n == 0 then 1 else 2 * Pow2(n - 1)
  }

  /** `x >> n`. */
  function Shr(x: nat, n: nat): nat {
    if n == 0 then x else Shr(x / 2, n - 1)
  }

  /** `x << n`, without overflow. */
  function Shl(x: nat, n: nat): nat {
    if n == 0 then x else 2 * Shl(x, n - 1)
  }

  predicate Bit(x: nat, i: nat) {
    if i == 0 then x % 2 == 1 else Bit(x / 2, i - 1)
  }

  /** `a & b`. */
  function And(a: nat, b: nat): nat {
    if a == 0 || b == 0 then 0 else 2 * And(a / 2, b / 2) + if a % 2 == 1 && b % 2 == 1 then 1 else 0
  }

  /** `a | b`. */
  function Or(a: nat, b: nat): nat {
    if a == 0 then b else if b == 0 then a
    else 2 * Or(a / 2, b / 2) + if a % 2 == 1 || b % 2 == 1 then 1 else 0
  }

  /** `a & !b`. */
  function AndNot(a: nat, b: nat): nat {
    if a == 0 then 0 else 2 * AndNot(a / 2, b / 2) + if a % 2 == 1 && b % 2 == 0 then 1 else 0
  }

  /** `a ^ b`. */
  function Xor(a: nat, b: nat): nat {
    if a == 0 then b else if b == 0 then a
    else 2 * Xor(a / 2, b / 2) + if a % 2 != b % 2 then 1 else 0
  }

  /** `x.trailing_zeros()` of a non-zero word. */
  function TrailingZeros(x: nat): nat
    requires x > 0
  {
    if x % 2 == 1 then 0 else 1 + TrailingZeros(x / 2)
  }

  /** A word that fits in a `u64`. */
  predicate IsWord(x: nat) {
    x < Pow2(WORD_BITS)
  }

  // ---- bit by bit ----

  lemma {:induction false} ZeroBits(i: nat)
    ensures !Bit(0, i)
  {
    if i > 0 {
      ZeroBits(i - 1);
    }
  }

  lemma {:induction false} AndBits(a: nat, b: nat, i: nat)
    ensures Bit(And(a, b), i) <==> Bit(a, i) && Bit(b, i)
  {
    ZeroBits(i);
    if i > 0 && a != 0 && b != 0 {
      AndBits(a / 2, b / 2, i - 1);
    }
  }

  lemma {:induction false} OrBits(a: nat, b: nat, i: nat)
    ensures Bit(Or(a, b), i) <==> Bit(a, i) || Bit(b, i)
  {
    ZeroBits(i);
    if i > 0 && a != 0 && b != 0 {
      OrBits(a / 2, b / 2, i - 1);
    }
  }

  lemma {:induction false} AndNotBits(a: nat, b: nat, i: nat)
    ensures Bit(AndNot(a, b), i) <==> Bit(a, i) && !Bit(b, i)
  {
    ZeroBits(i);
    if i > 0 && a != 0 {
      AndNotBits(a / 2, b / 2, i - 1);
    }
  }

  lemma {:induction false} XorBits(a: nat, b: nat, i: nat)
    ensures Bit(Xor(a, b), i) <==> Bit(a, i) != Bit(b, i)
  {
    ZeroBits(i);
    if i > 0 && a != 0 && b != 0 {
      XorBits(a / 2, b / 2, i - 1);
    }
  }

  lemma {:induction false} Pow2Bits(n: nat, i: nat)
    ensures Bit(Pow2(n), i) <==> i == n
  {
    if n == 0 {
      if i > 0 {
        ZeroBits(i - 1);
      }
    } else if i > 0 {
      Pow2Bits(n - 1, i - 1);
      assert Pow2(n) / 2 == Pow2(n - 1);
    }
  }

  /** A word is determined by its bits. */
  lemma {:induction false} BitsDetermine(a: nat, b: nat)
    requires forall i: nat :: Bit(a, i) == Bit(b, i)
    ensures a == b
  {
    assert Bit(a, 0) == Bit(b, 0);
    if a != 0 || b != 0 {
      forall i: nat ensures Bit(a / 2, i) == Bit(b / 2, i) {
        assert Bit(a, i + 1) == Bit(b, i + 1);
      }
      BitsDetermine(a / 2, b / 2);
    }
  }

  lemma {:induction false} HighBitsClear(x: nat, n: nat, i: nat)
    requires x < Pow2(n) && i >= n
    ensures !Bit(x, i)
  {
    if n == 0 {
      ZeroBits(i);
    } else {
      HighBitsClear(x / 2, n - 1, i - 1);
    }
  }

  lemma {:induction false} BelowPow2(x: nat, n: nat)
    requires forall i: nat | i >= n :: !Bit(x, i)
    ensures x < Pow2(n)
  {
    if n == 0 {
      forall i: nat ensures Bit(x, i) == Bit(0, i) {
        ZeroBits(i);
      }
      BitsDetermine(x, 0);
    } else {
      forall i: nat | i >= n - 1 ensures !Bit(x / 2, i) {
        assert !Bit(x, i + 1);
      }
      BelowPow2(x / 2, n - 1);
    }
  }

  lemma {:induction false} TrailingZerosLeast(x: nat)
    requires x > 0
    ensures Bit(x, TrailingZeros(x))
    ensures forall i: nat | i < TrailingZeros(x) :: !Bit(x, i)
  {
    if x % 2 == 0 {
      TrailingZerosLeast(x / 2);
      forall i: nat | i < TrailingZeros(x) ensures !Bit(x, i) {
        if i > 0 {
          assert !Bit(x / 2, i - 1);
        }
      }
    }
  }

  // ---- setting and clearing one bit of a 64-bit word ----

  lemma SetOneBit(w: nat, k: nat)
    requires IsWord(w) && k < WORD_BITS
    ensures IsWord(Or(w, Pow2(k))) && Or(w, Pow2(k)) > 0
    ensures forall i: nat :: Bit(Or(w, Pow2(k)), i) <==> Bit(w, i) || i == k
  {
    var r := Or(w, Pow2(k));
    forall i: nat ensures Bit(r, i) <==> Bit(w, i) || i == k {
      OrBits(w, Pow2(k), i);
      Pow2Bits(k, i);
    }
    forall i: nat | i >= WORD_BITS ensures !Bit(r, i) {
      HighBitsClear(w, WORD_BITS, i);
    }
    BelowPow2(r, WORD_BITS);
    ZeroBits(k);
    assert Bit(r, k);
  }

  lemma ClearOneBit(w: nat, k: nat)
    requires IsWord(w) && k < WORD_BITS
    ensures IsWord(AndNot(w, Pow2(k)))
    ensures forall i: nat :: Bit(AndNot(w, Pow2(k)), i) <==> Bit(w, i) && i != k
    ensures AndNot(w, Pow2(k)) == w <==> !Bit(w, k)
  {
    var r := AndNot(w, Pow2(k));
    forall i: nat ensures Bit(r, i) <==> Bit(w, i) && i != k {
      AndNotBits(w, Pow2(k), i);
      Pow2Bits(k, i);
    }
    forall i: nat | i >= WORD_BITS ensures !Bit(r, i) {
      HighBitsClear(w, WORD_BITS, i);
    }
    BelowPow2(r, WORD_BITS);
    if !Bit(w, k) {
      BitsDetermine(r, w);
    }
  }

  /** The test `w & (1 << k) != 0`. */
  lemma TestOneBit(w: nat, k: nat)
    ensures And(w, Pow2(k)) != 0 <==> Bit(w, k)
  {
    var r := And(w, Pow2(k));
    forall i: nat ensures Bit(r, i) <==> Bit(w, i) && i == k {
      AndBits(w, Pow2(k), i);
      Pow2Bits(k, i);
    }
    ZeroBits(k);
    if !Bit(w, k) {
      forall i: nat ensures Bit(r, i) == Bit(0, i) {
        ZeroBits(i);
      }
      BitsDetermine(r, 0);
    }
  }

  /** A word is zero exactly when none of its 64 bits is set; `trailing_zeros` finds the least set bit. */
  lemma NonzeroWord(w: nat)
    requires IsWord(w)
    ensures w == 0 ==> forall i: nat :: !Bit(w, i)
    ensures w != 0 ==> TrailingZeros(w) < WORD_BITS && Bit(w, TrailingZeros(w))
                       && forall i: nat | i < TrailingZeros(w) :: !Bit(w, i)
  {
    if w != 0 {
      TrailingZerosLeast(w);
      if TrailingZeros(w) >= WORD_BITS {
        HighBitsClear(w, WORD_BITS, TrailingZeros(w));
      }
    } else {
      forall i: nat ensures !Bit(0, i) {
        ZeroBits(i);
      }
    }
  }

  // ---- arrays of words as bit sets ----

  /** Bit `e` of an array of words: bit `e % 64` of word `e / 64`. */
  predicate BitAt(words: seq<nat>, e: nat) {
    e / 64 < |words| && Bit(words[e / 64], e % 64)
  }

  predicate WordsOk(words: seq<nat>) {
    forall i | 0 <= i < |words| :: IsWord(words[i])
  }
}
