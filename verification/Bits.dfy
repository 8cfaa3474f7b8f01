/**
 Bit operations on unsigned machine words, defined on the binary digits of natural numbers,
 and the power-of-two tricks built from them.
 */
module Bits {
  import opened Arith
  import opened MachineInts

  const WORD_BITS: nat := 64

  function Pow2(k: nat): (p: nat)
    ensures p >= 1
  {
    if k == 0 then 1 else 2 * Pow2(k - 1)
  }

  ghost predicate IsPowerOf2(v: nat) {
    exists k: nat :: v == Pow2(k)
  }

  /** x & y */
  function And(x: nat, y: nat): nat {
    if x == 0 || y == 0 then 0
    else 2 * And(x / 2, y / 2) + if x % 2 == 1 && y % 2 == 1 then 1 else 0
  }

  /** !x in a word of the given width. */
  function Not(x: nat, bits: nat): nat
    requires x < Pow2(bits)
  {
    Pow2(bits) - 1 - x
  }

  lemma NotNot(x: nat, bits: nat)
    requires x < Pow2(bits)
    ensures Not(x, bits) < Pow2(bits) && Not(Not(x, bits), bits) == x
  {
  }

  lemma {:induction false} Pow2Add(j: nat, k: nat)
    ensures Pow2(j + k) == Pow2(j) * Pow2(k)
  {
    if j == 0 {
    } else {
      Pow2Add(j - 1, k);
    }
  }

  lemma Pow2Squared(k: nat, p: nat)
    requires Pow2(k) == p
    ensures Pow2(2 * k) == p * p
  {
    Pow2Add(k, k);
  }

  lemma WordIsPow2()
    ensures Pow2(WORD_BITS) == WORD
  {
    assert Pow2(8) == 256;
    Pow2Squared(8, 256);
    Pow2Squared(16, 0x1_0000);
    Pow2Squared(32, 0x1_0000_0000);
  }

  lemma {:induction false} Pow2Monotone(j: nat, k: nat)
    requires j <= k
    ensures Pow2(j) <= Pow2(k)
  {
    if j == k {
    } else {
      Pow2Monotone(j, k - 1);
    }
  }

  lemma {:induction false} AndSelf(x: nat)
    ensures And(x, x) == x
  {
    if x == 0 {
    } else {
      AndSelf(x / 2);
    }
  }

  lemma {:induction false} AndNot(x: nat, bits: nat)
    requires x < Pow2(bits)
    ensures And(x, Not(x, bits)) == 0
  {
    if bits == 0 || x == 0 {
    } else {
      AndNot(x / 2, bits - 1);
      assert Not(x, bits) / 2 == Not(x / 2, bits - 1);
      assert Not(x, bits) % 2 == 1 - x % 2;
    }
  }

  lemma {:induction false} AndAllOnes(x: nat, bits: nat)
    requires x < Pow2(bits)
    ensures And(x, Pow2(bits) - 1) == x
  {
    if bits == 0 || x == 0 {
    } else {
      AndAllOnes(x / 2, bits - 1);
    }
  }

  lemma AndEven(x: nat, y: nat)
    ensures And(x, 2 * y) == 2 * And(x / 2, y)
  {
    assert (2 * y) / 2 == y && (2 * y) % 2 == 0;
  }

  lemma HalfMask(k: nat, bits: nat)
    requires 1 <= k <= bits && Pow2(k) - 1 < Pow2(bits) && Pow2(k - 1) - 1 < Pow2(bits - 1)
    ensures Not(Pow2(k) - 1, bits) == 2 * Not(Pow2(k - 1) - 1, bits - 1)
  {
  }

  /** Masking with !(2^k - 1) rounds down to a multiple of 2^k. */
  lemma {:induction false} MaskRoundsDown(x: nat, k: nat, bits: nat)
    requires k <= bits && x < Pow2(bits)
    ensures Pow2(k) - 1 < Pow2(bits)
    ensures And(x, Not(Pow2(k) - 1, bits)) == x - x % Pow2(k)
  {
    Pow2Monotone(k, bits);
    if k == 0 {
      KeepAll(x, bits);
    } else {
      MaskRoundsDown(x / 2, k - 1, bits - 1);
      HalfMask(k, bits);
      RoundTwice(x, Not(Pow2(k - 1) - 1, bits - 1), Pow2(k - 1), Pow2(k));
    }
  }

  lemma KeepAll(x: nat, bits: nat)
    requires x < Pow2(bits)
    ensures Pow2(0) == 1 && And(x, Not(0, bits)) == x
  {
    AndAllOnes(x, bits);
  }

  /** From rounding x / 2 to rounding x. */
  lemma RoundTwice(x: nat, mask: nat, p: nat, p': nat)
    requires p >= 1 && p' == 2 * p && And(x / 2, mask) == x / 2 - (x / 2) % p
    ensures And(x, 2 * mask) == x - x % p'
  {
    AndEven(x, mask);
    HalfRemainder(x, p);
  }

  lemma HalfRemainder(x: nat, p: nat)
    requires p >= 1
    ensures x % (2 * p) == 2 * ((x / 2) % p) + x % 2
  {
    var q, r := (x / 2) / p, (x / 2) % p;
    assert x / 2 == p * q + r;
    assert x == (2 * p) * q + (2 * r + x % 2);
    DivMod(2 * p, x, q, 2 * r + x % 2);
  }

  lemma HalfOfPower(v: nat)
    requires v > 0 && v % 2 == 0
    ensures IsPowerOf2(v) <==> IsPowerOf2(v / 2)
  {
    if k: nat :| v == Pow2(k) {
      assert k > 0;
      assert v / 2 == Pow2(k - 1);
    }
    if k: nat :| v / 2 == Pow2(k) {
      assert v == Pow2(k + 1);
    }
  }

  lemma OddPower(v: nat)
    requires v % 2 == 1
    ensures IsPowerOf2(v) <==> v == 1
  {
    assert 1 == Pow2(0);
  }

  /** The value & !(value - 1) test of the file loader and of the page size check. */
  lemma {:induction false} LowestBitTest(v: nat, bits: nat)
    requires 0 < v < Pow2(bits)
    ensures And(v, Not(v - 1, bits)) == v <==> IsPowerOf2(v)
    decreases v
  {
    var m := Not(v - 1, bits);
    assert m == Pow2(bits) - v && bits > 0;
    if v % 2 == 1 {
      assert m / 2 == Not(v / 2, bits - 1) && m % 2 == 1;
      AndNot(v / 2, bits - 1);
      OddPower(v);
    } else {
      assert m / 2 == Not(v / 2 - 1, bits - 1) && m % 2 == 0;
      LowestBitTest(v / 2, bits - 1);
      HalfOfPower(v);
    }
  }

  /** The value & (value - 1) test of the memory allocator. */
  lemma {:induction false} ClearLowestBitTest(v: nat)
    requires v > 0
    ensures And(v, v - 1) == 0 <==> IsPowerOf2(v)
    decreases v
  {
    if v % 2 == 1 {
      assert v > 1 ==> (v - 1) / 2 == v / 2;
      AndSelf(v / 2);
      OddPower(v);
    } else {
      assert (v - 1) / 2 == v / 2 - 1 && (v - 1) % 2 == 1;
      ClearLowestBitTest(v / 2);
      HalfOfPower(v);
    }
  }

  // ---- Rounding to multiples ----

  function RoundDown(x: nat, p: nat): (r: nat)
    requires p > 0
    ensures r <= x < r + p && r % p == 0
  {
    assert x == p * (x / p) + x % p;
    NonNegativeProduct(p, x / p);
    DivMod(p, p * (x / p), x / p, 0);
    x - x % p
  }

  function RoundUp(x: nat, p: nat): (r: nat)
    requires p > 0
    ensures x <= r < x + p && r % p == 0
  {
    RoundDown(x + p - 1, p)
  }

  /** A multiple of p that lies within p below or above x is the rounded value. */
  lemma RoundUnique(x: nat, p: nat, m: nat)
    requires p > 0 && m % p == 0
    ensures m <= x < m + p ==> RoundDown(x, p) == m
    ensures x <= m < x + p ==> RoundUp(x, p) == m
  {
    var q := m / p;
    assert m == p * q;
    if m <= x < m + p {
      DivMod(p, x, q, x - m);
    }
    if x <= m < x + p {
      DivMod(p, x + p - 1, q, x + p - 1 - m);
    }
  }

  lemma MultiplesAdd(x: nat, y: nat, p: nat)
    requires p > 0 && x % p == 0 && y % p == 0
    ensures (x + y) % p == 0
    ensures x >= y ==> (x - y) % p == 0
  {
    var i, j := x / p, y / p;
    assert x == p * i && y == p * j;
    Distribute(p, i, j);
    DivMod(p, x + y, i + j, 0);
    Distribute(p, j, i - j);
    if x >= y {
      DivMod(p, x - y, i - j, 0);
    }
  }

  lemma RoundUpMonotone(x: nat, y: nat, p: nat)
    requires p > 0 && x <= y
    ensures RoundUp(x, p) <= RoundUp(y, p)
  {
    RoundDownMonotone(x + p - 1, y + p - 1, p);
  }

  lemma RoundDownMonotone(x: nat, y: nat, p: nat)
    requires p > 0 && x <= y
    ensures RoundDown(x, p) <= RoundDown(y, p)
  {
    QuotientMonotone(x, y, p);
    MultipleGap(p, x / p, y / p);
    RoundDownIsMultiple(x, p);
    RoundDownIsMultiple(y, p);
  }

  lemma RoundDownIsMultiple(x: nat, p: nat)
    requires p > 0
    ensures RoundDown(x, p) == p * (x / p)
  {
  }

  lemma QuotientMonotone(x: nat, y: nat, p: nat)
    requires p > 0 && x <= y
    ensures x / p <= y / p
  {
    MultipleGap(p, y / p, x / p);
  }

  // ---- Masks and wrapping addition ----

  function WrappingAdd(x: nat, y: nat): nat {
    (x + y) % WORD
  }

  lemma NoWrap(x: nat, y: nat)
    requires x + y < WORD
    ensures WrappingAdd(x, y) == x + y
  {
  }

  lemma PowerExponent(p: nat) returns (k: nat)
    requires p < WORD && IsPowerOf2(p)
    ensures k <= WORD_BITS && p == Pow2(k)
  {
    WordIsPow2();
    k :| p == Pow2(k);
    if k > WORD_BITS {
      Pow2Monotone(WORD_BITS, k);
    }
  }

  /** Masking rounds down, stated without the word size to keep the proofs small. */
  lemma MaskRounds(x: nat, p: nat, bits: nat, k: nat)
    requires k <= bits && x < Pow2(bits) && p == Pow2(k)
    ensures p - 1 < Pow2(bits) && And(x, Not(p - 1, bits)) == RoundDown(x, p)
  {
    MaskRoundsDown(x, k, bits);
  }

  /** x & !(p - 1) for a power of two p. */
  lemma MaskIsRoundDown(x: nat, p: nat)
    requires x < WORD && p < WORD && IsPowerOf2(p)
    ensures p >= 1 && p - 1 < Pow2(WORD_BITS) && And(x, Not(p - 1, WORD_BITS)) == RoundDown(x, p)
  {
    var k := PowerExponent(p);
    WordIsPow2();
    MaskRounds(x, p, WORD_BITS, k);
  }

  /** The mask of a word w that holds x + (p - 1). */
  lemma MaskOfSum(x: nat, p: nat, w: nat)
    requires 0 < p < WORD && w < WORD && w == x + p - 1 && IsPowerOf2(p)
    ensures p - 1 < Pow2(WORD_BITS) && And(w, Not(p - 1, WORD_BITS)) == RoundUp(x, p)
  {
    assert RoundUp(x, p) == RoundDown(w, p);
    MaskIsRoundDown(w, p);
  }

  /** (x + (p - 1)) & !(p - 1) in wrapping arithmetic that does not wrap. */
  lemma MaskIsRoundUp(x: nat, p: nat)
    requires 0 < p < WORD && x + (p - 1) < WORD && IsPowerOf2(p)
    ensures p - 1 < Pow2(WORD_BITS)
    ensures And(WrappingAdd(x, p - 1), Not(p - 1, WORD_BITS)) == RoundUp(x, p)
  {
    NoWrap(x, p - 1);
    MaskOfSum(x, p, WrappingAdd(x, p - 1));
  }
}
