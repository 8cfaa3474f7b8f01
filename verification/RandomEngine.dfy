/**
 The minstd generator and exact uniform integers drawn from it by rejection.
 */
module RandomEngine {
  import opened Arith

  const A: nat := 16807
  const M: nat := 2147483647
  const A_INVERSE: nat := 1407677000
  const MIN: nat := 1

  /** The number of different outputs. */
  const ENGINE_RANGE: nat := 2147483646

  const U128: int := 0x1_0000_0000_0000_0000_0000_0000_0000_0000

  // ---- The engine ----

  predicate InCycle(s: nat) {
    1 <= s < M
  }

  function Next(s: nat): nat {
    (s * A) % M
  }

  function Previous(s: nat): nat {
    (s * A_INVERSE) % M
  }

  /** Reducing a factor first does not change a product modulo M. */
  lemma ModProduct(x: nat, y: nat)
    ensures ((x % M) * y) % M == (x * y) % M
  {
    var q := x / M;
    assert x == M * q + x % M;
    assert x * y == M * (q * y) + (x % M) * y;
    ModShift((x % M) * y, q * y);
  }

  lemma ModShift(x: int, k: int)
    ensures (x + M * k) % M == x % M
  {
  }

  /** A and its inverse cancel modulo M. */
  lemma Cancel(s: nat)
    requires InCycle(s)
    ensures (s * A * A_INVERSE) % M == s && (s * A_INVERSE * A) % M == s
  {
    assert s * 16807 * 1407677000 == s + 2147483647 * (11017 * s);
    ModShift(s, 11017 * s);
  }

  /** On 1 .. M - 1 the step is a bijection; in particular it never produces 0. */
  lemma StepIsBijection(s: nat)
    requires InCycle(s)
    ensures InCycle(Next(s)) && InCycle(Previous(s))
    ensures Previous(Next(s)) == s && Next(Previous(s)) == s
  {
    Cancel(s);
    ModProduct(s * A, A_INVERSE);
    ModProduct(s * A_INVERSE, A);
  }

  /** The state after k steps. */
  function Iterate(s: nat, k: nat): nat {
    if k == 0 then s else Next(Iterate(s, k - 1))
  }

  lemma {:induction false} StaysInCycle(s: nat, k: nat)
    requires InCycle(s)
    ensures InCycle(Iterate(s, k))
  {
    if k == 0 {
    } else {
      StaysInCycle(s, k - 1);
      StepIsBijection(Iterate(s, k - 1));
    }
  }

  class Minstd0 {
    var state: nat

    ghost predicate Valid()
      reads this
    {
      InCycle(state)
    }

    constructor (seed: nat)
      requires seed < 0x1_0000_0000
      ensures Valid() && 1 <= state < 2147483647
      ensures state == if seed % 2147483647 == 0 then 1 else seed % 2147483647
    {
      var s := seed % M;
      if s == 0 {
        s := 1;
      }
      state := s;
    }

    /** The product stays below 2^46 and the output minus MIN below the engine range. */
    method NextU32() returns (r: nat)
      requires Valid()
      modifies this
      ensures Valid() && r == state == Next(old(state)) == (16807 * old(state)) % 2147483647
      ensures old(state) * A < 0x4000_0000_0000
      ensures MIN <= r && r - MIN < ENGINE_RANGE
    {
      StepIsBijection(state);
      state := (state * A) % M;
      r := state;
    }
  }

  // ---- Half of the cycle negates ----

  /** A to the power k, modulo M. */
  function PowMod(k: nat): nat {
    if k == 0 then 1 else Next(PowMod(k - 1))
  }

  /** Stepping a product is stepping its second factor. */
  lemma StepProduct(x: nat, y: nat)
    ensures Next((x * y) % M) == (x * Next(y)) % M
  {
    ModProduct(x * y, A);
    ModProduct(y * A, x);
    Rearrange(x, y, A);
    Commute(x, Next(y));
  }

  lemma Rearrange(x: nat, y: nat, z: nat)
    ensures (x * y) * z == (y * z) * x
  {
  }

  lemma {:induction false} IterateIsProduct(s: nat, k: nat)
    requires s < M
    ensures Iterate(s, k) == (s * PowMod(k)) % M
  {
    if k == 0 {
    } else {
      IterateIsProduct(s, k - 1);
      StepProduct(s, PowMod(k - 1));
    }
  }

  lemma {:induction false} PowAdd(j: nat, k: nat)
    ensures PowMod(j + k) == (PowMod(j) * PowMod(k)) % M
  {
    PowIsIterate(j + k);
    IterateAdd(1, j, k);
    PowIsIterate(j);
    PowBound(j);
    IterateIsProduct(PowMod(j), k);
  }

  lemma {:induction false} PowIsIterate(k: nat)
    ensures PowMod(k) == Iterate(1, k)
  {
    if k == 0 {
    } else {
      PowIsIterate(k - 1);
    }
  }

  lemma PowBound(k: nat)
    ensures PowMod(k) < M
  {
  }

  lemma {:induction false} IterateAdd(s: nat, j: nat, k: nat)
    ensures Iterate(s, j + k) == Iterate(Iterate(s, j), k)
  {
    if k == 0 {
    } else {
      IterateAdd(s, j, k - 1);
    }
  }

  /** From A^k to A^(2k + 1). */
  lemma PowDoubleStep(k: nat, p: nat, p': nat)
    requires PowMod(k) == p && p' == (((p * p) % M) * A) % M
    ensures PowMod(2 * k + 1) == p'
  {
    PowAdd(k, k);
  }

  /** The exponent after i steps k -> 2k + 1 from 0. */
  function Exponent(i: nat): nat {
    if i == 0 then 0 else 2 * Exponent(i - 1) + 1
  }

  /** A to that power, by squaring. */
  function Doubled(i: nat): nat {
    if i == 0 then 1 else var p := Doubled(i - 1); (((p * p) % M) * A) % M
  }

  lemma {:induction false} DoubledIsPower(i: nat)
    ensures PowMod(Exponent(i)) == Doubled(i)
  {
    if i == 0 {
    } else {
      DoubledIsPower(i - 1);
      PowDoubleStep(Exponent(i - 1), Doubled(i - 1), Doubled(i));
    }
  }

  /** (M - 1) / 2 == 2^30 - 1 */
  const HALF_CYCLE: nat := 1073741823

  ghost predicate DoubledIs(i: nat, p: nat) {
    Doubled(i) == p
  }

  /** p squared times A is p' modulo M, with quotient q. */
  lemma DoubledStep(i: nat, p: nat, q: nat, p': nat)
    requires DoubledIs(i, p) && p * p * 16807 == 2147483647 * q + p' && p' < 2147483647
    ensures DoubledIs(i + 1, p')
  {
    ModProduct(p * p, A);
    DivMod(M, p * p * A, q, p');
  }

  /** A^((M - 1) / 2) is -1 modulo M: thirty squarings from i = 0 on. */
  lemma DoublingReachesMinusOne(i: nat)
    requires DoubledIs(i, 1)
    ensures DoubledIs(i + 30, 2147483646)
  {
    DoubledStep(i, 1, 0, 16807);
    DoubledStep(i + 1, 16807, 2210, 1622650073);
    DoubledStep(i + 2, 1622650073, 20606777505697, 101027544);
    DoubledStep(i + 3, 101027544, 79880343795, 114807987);
    DoubledStep(i + 4, 114807987, 103158386138, 1954899097);
    DoubledStep(i + 5, 1954899097, 29909491305262, 1108728549);
    DoubledStep(i + 6, 1108728549, 9620791340602, 2014119113);
    DoubledStep(i + 7, 2014119113, 31749042787156, 685428651);
    DoubledStep(i + 8, 685428651, 3676925603767, 268317158);
    DoubledStep(i + 9, 268317158, 563452389790, 754609818);
    DoubledStep(i + 10, 754609818, 4456616228906, 994734886);
    DoubledStep(i + 11, 994734886, 7744172764823, 1083014291);
    DoubledStep(i + 12, 1083014291, 9179704675745, 1655627552);
    DoubledStep(i + 13, 1655627552, 21452881054676, 1181132756);
    DoubledStep(i + 14, 1181132756, 10918368864620, 1079224412);
    DoubledStep(i + 15, 1079224412, 9115570529787, 816826219);
    DoubledStep(i + 16, 816826219, 5221793265592, 817222503);
    DoubledStep(i + 17, 817222503, 5226861210374, 103492285);
    DoubledStep(i + 18, 103492285, 83825525814, 596864917);
    DoubledStep(i + 19, 596864917, 2788126276123, 1872592842);
    DoubledStep(i + 20, 1872592842, 27443977374205, 2031328313);
    DoubledStep(i + 21, 2031328313, 32293906114335, 1799481238);
    DoubledStep(i + 22, 1799481238, 25342822424033, 1043219357);
    DoubledStep(i + 23, 1043219357, 8517489528969, 566127400);
    DoubledStep(i + 24, 566127400, 2508353171430, 1470714790);
    DoubledStep(i + 25, 1470714790, 16928452310198, 797756594);
    DoubledStep(i + 26, 797756594, 4980823357127, 1098008483);
    DoubledStep(i + 27, 1098008483, 9435647880038, 706645637);
    DoubledStep(i + 28, 706645637, 3908082277510, 1877990613);
    DoubledStep(i + 29, 1877990613, 27602420581071, 2147483646);
  }

  lemma HalfCycleExponent()
    ensures Exponent(30) == HALF_CYCLE
  {
    assert Exponent(10) == 1023;
    assert Exponent(20) == 1048575;
  }

  lemma PowerAt(i: nat, k: nat, p: nat)
    requires Exponent(i) == k && DoubledIs(i, p)
    ensures PowMod(k) == p
  {
    DoubledIsPower(i);
  }

  lemma HalfPowerIsMinusOne()
    ensures PowMod(HALF_CYCLE) == M - 1
  {
    assert DoubledIs(0, 1);
    DoublingReachesMinusOne(0);
    HalfCycleExponent();
    PowerAt(30, HALF_CYCLE, M - 1);
  }

  lemma TimesMinusOne(s: nat)
    requires InCycle(s)
    ensures (s * (M - 1)) % M == M - s
  {
    assert s * (M - 1) == (M - s) + M * (s - 1);
    ModShift(M - s, s - 1);
  }

  /** Half a cycle after s the engine is at M - s. */
  lemma HalfCycleNegates(s: nat)
    requires InCycle(s)
    ensures Iterate(s, HALF_CYCLE) == M - s
  {
    HalfPowerIsMinusOne();
    IterateIsProduct(s, HALF_CYCLE);
    TimesMinusOne(s);
  }

  // ---- Uniform integers ----

  /** The size of low .. high as the code computes it, in unsigned 128-bit arithmetic. */
  function RangeOf(low: int, high: int): nat {
    (high - low + 1) % U128
  }

  /** Outputs at or above the limit are rejected. */
  function Limit(range: nat): nat
    requires range > 0
  {
    ENGINE_RANGE - ENGINE_RANGE % range
  }

  predicate Accepted(s: nat, range: nat)
    requires range > 0
  {
    InCycle(s) && s - MIN < Limit(range)
  }

  lemma LimitIsMultiple(range: nat)
    requires 1 <= range <= ENGINE_RANGE
    ensures Limit(range) == range * (ENGINE_RANGE / range) && ENGINE_RANGE / range >= 1
    ensures ENGINE_RANGE % range < range <= Limit(range)
  {
    var q := ENGINE_RANGE / range;
    assert ENGINE_RANGE == range * q + ENGINE_RANGE % range;
    MultipleGap(range, 1, q);
  }

  /** If s is rejected, its mirror image M - s is accepted. */
  lemma MirrorIsAccepted(s: nat, range: nat)
    requires InCycle(s) && 1 <= range <= ENGINE_RANGE && !Accepted(s, range)
    ensures Accepted(M - s, range)
  {
    LimitIsMultiple(range);
  }

  /** Some output is ever accepted exactly when the range is no larger than the engine's. */
  lemma AcceptanceIsPossible(range: nat)
    requires range >= 1
    ensures (exists s :: Accepted(s, range)) <==> range <= ENGINE_RANGE
  {
    if range <= ENGINE_RANGE {
      LimitIsMultiple(range);
      assert Accepted(1, range);
    } else {
      assert ENGINE_RANGE % range == ENGINE_RANGE;
    }
  }

  /** From any state an accepted output comes within half a cycle and one step. */
  lemma AcceptanceIsNear(s: nat, range: nat)
    requires InCycle(s) && 1 <= range <= ENGINE_RANGE
    ensures Accepted(Iterate(s, 1), range) || Accepted(Iterate(s, 1 + HALF_CYCLE), range)
  {
    StaysInCycle(s, 1);
    var t := Iterate(s, 1);
    if !Accepted(t, range) {
      HalfCycleNegates(t);
      MirrorIsAccepted(t, range);
      IterateAdd(s, 1, HALF_CYCLE);
    }
  }

  const EXACT_LIMIT: int := 0x20_0000_0000_0000

  /** Doubles hold every integer of at most 2^53 exactly; others are rounded somehow. */
  ghost predicate IsDouble(toDouble: int -> real) {
    forall v :: -EXACT_LIMIT <= v <= EXACT_LIMIT ==> toDouble(v) == v as real
  }

  /** The range is the number of integers in the interval, counted modulo 2^128. */
  lemma RangeCounts(low: int, high: int)
    requires low <= high && high - low < 0x1_0000_0000_0000_0000
    ensures RangeOf(low, high) == high - low + 1
  {
  }

  /** An inverted or oversized interval aside, every accepted output falls into the interval. */
  lemma InRangeOf(low: int, high: int, d: nat)
    requires d < RangeOf(low, high) <= ENGINE_RANGE
    ensures -EXACT_LIMIT <= low <= high <= EXACT_LIMIT ==> low <= low + d <= high
  {
  }

  class UniformIntDistribution {
    const low: int
    const high: int

    constructor (low: int, high: int)
      ensures this.low == low && this.high == high
    {
      this.low, this.high := low, high;
    }

    /**
     Draws one integer and converts it to a double. The loop ends for every seed, after at most
     half a cycle and one step, with the first accepted output; a range beyond the engine's would
     never end.
     */
    method Sample(rng: Minstd0, toDouble: int -> real) returns (x: real, ghost steps: nat)
      requires rng.Valid() && RangeOf(low, high) <= ENGINE_RANGE
      modifies rng
      ensures rng.Valid() && rng.state == Iterate(old(rng.state), steps)
      ensures var range := RangeOf(low, high);
        if range == 0 then x == toDouble(low) && steps == 0
        else
          && 1 <= steps <= HALF_CYCLE + 1
          && Accepted(rng.state, range)
          && (forall j :: 1 <= j < steps ==> !Accepted(Iterate(old(rng.state), j), range))
          && x == toDouble(low + (rng.state - MIN) % range)
      ensures IsDouble(toDouble) && -EXACT_LIMIT <= low <= high <= EXACT_LIMIT ==>
        low as real <= x <= high as real && x == (low + (rng.state - MIN) % RangeOf(low, high)) as real
    {
      var range := RangeOf(low, high);
      steps := 0;
      if range == 0 {
        return toDouble(low), 0;
      }
      var limit := ENGINE_RANGE - ENGINE_RANGE % range;
      AcceptanceIsNear(rng.state, range);
      while true
        invariant rng.Valid() && rng.state == Iterate(old(rng.state), steps) && steps <= HALF_CYCLE
        invariant forall j :: 1 <= j <= steps ==> !Accepted(Iterate(old(rng.state), j), range)
        decreases HALF_CYCLE + 1 - steps
      {
        var output := rng.NextU32();
        steps := steps + 1;
        var r := output - MIN;
        if r < limit {
          InRangeOf(low, high, r % range);
          return toDouble(low + r % range), steps;
        }
      }
    }
  }

  // ---- Every value is equally likely ----

  /** The states that are accepted and yield low + d. */
  ghost predicate Yields(s: nat, range: nat, d: nat)
    requires range > 0
  {
    Accepted(s, range) && (s - MIN) % range == d
  }

  function Hits(range: nat, d: nat, q: nat): set<nat> {
    if q == 0 then {} else Hits(range, d, q - 1) + {range * (q - 1) + d + 1}
  }

  lemma {:induction false} HitsMembers(range: nat, d: nat, q: nat, s: nat)
    requires d < range
    ensures s in Hits(range, d, q) <==> 1 <= s <= range * q && (s - 1) % range == d
  {
    if q == 0 {
    } else {
      HitsMembers(range, d, q - 1, s);
      assert range * q == range * (q - 1) + range;
      if range * (q - 1) < s <= range * q {
        DivMod(range, s - 1, q - 1, s - 1 - range * (q - 1));
      }
      if s == range * (q - 1) + d + 1 {
        NonNegativeProduct(range, q - 1);
        DivMod(range, s - 1, q - 1, d);
      }
    }
  }

  lemma NextHitIsNew(range: nat, d: nat, q: nat)
    requires d < range && q > 0
    ensures 0 <= range * (q - 1) && range * (q - 1) + d + 1 !in Hits(range, d, q - 1)
  {
    NonNegativeProduct(range, q - 1);
    HitsMembers(range, d, q - 1, range * (q - 1) + d + 1);
  }

  lemma {:induction false} HitsCount(range: nat, d: nat, q: nat)
    requires d < range
    ensures |Hits(range, d, q)| == q
  {
    if q == 0 {
    } else {
      HitsCount(range, d, q - 1);
      NextHitIsNew(range, d, q);
    }
  }

  /** Each value of the range is produced by exactly limit / range engine states. */
  lemma EachValueIsEquallyLikely(range: nat, d: nat) returns (states: set<nat>)
    requires 1 <= range <= ENGINE_RANGE && d < range
    ensures forall s: nat :: s in states <==> Yields(s, range, d)
    ensures |states| == Limit(range) / range == ENGINE_RANGE / range
  {
    var q := ENGINE_RANGE / range;
    LimitIsMultiple(range);
    states := Hits(range, d, q);
    HitsCount(range, d, q);
    forall s: nat ensures s in states <==> Yields(s, range, d) {
      HitsMembers(range, d, q, s);
    }
    DivMod(range, Limit(range), q, 0);
  }

  /**
   The law over an interval: every integer of low .. high is drawn from equally many engine
   states, namely the engine range divided by the number of integers, and no other is drawn.
   */
  lemma EveryIntegerIsEquallyLikely(low: int, high: int, v: int) returns (states: set<nat>)
    requires low <= high && high - low + 1 <= ENGINE_RANGE
    ensures forall s: nat :: s in states <==>
      && 1 <= s <= 2147483646
      && Accepted(s, RangeOf(low, high))
      && low + (s - 1) % RangeOf(low, high) == v
    ensures |states| == if low <= v <= high then 2147483646 / (high - low + 1) else 0
  {
    RangeCounts(low, high);
    if low <= v <= high {
      states := EachValueIsEquallyLikely(high - low + 1, v - low);
      assert forall s: nat :: s in states <==> Yields(s, high - low + 1, v - low);
    } else {
      states := {};
    }
  }

  /** One draw from an interval: the value is v exactly when the accepted state is one of v's. */
  method DrawInteger(low: int, high: int, rng: Minstd0, toDouble: int -> real, v: int)
    returns (x: real, ghost states: set<nat>)
    requires rng.Valid() && IsDouble(toDouble)
    requires -0x20_0000_0000_0000 <= low <= v <= high <= 0x20_0000_0000_0000 && high - low + 1 <= 2147483646
    modifies rng
    ensures rng.Valid() && low as real <= x <= high as real
    ensures x == v as real <==> rng.state in states
    ensures |states| == 2147483646 / (high - low + 1)
  {
    RangeCounts(low, high);
    states := EveryIntegerIsEquallyLikely(low, high, v);
    var d := new UniformIntDistribution(low, high);
    ghost var steps;
    x, steps := d.Sample(rng, toDouble);
  }
}
