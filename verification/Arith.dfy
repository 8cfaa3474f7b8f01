/** Facts about products and quotients that the solver does not find unaided. */
module Arith {

  lemma Distribute(r: int, x: int, y: int)
    ensures r * (x + y) == r * x + r * y
  {
  }

  lemma NonNegativeProduct(x: int, y: int)
    requires x >= 0 && y >= 0
    ensures x * y >= 0
  {
  }

  lemma AtMostProduct(x: int, y: int)
    requires x >= 1 && y >= 0
    ensures y <= y * x
  {
  }

  /** Multiples of r are at least r apart. */
  lemma MultipleGap(r: int, i: int, j: int)
    requires r >= 0
    ensures i < j ==> r * i + r <= r * j
    ensures i <= j ==> r * i <= r * j
  {
    if i < j {
      NonNegativeProduct(r, j - i - 1);
      Distribute(r, i, j - i);
      Distribute(r, 1, j - i - 1);
    }
  }

  /** Quotient and remainder are determined by x == w * q + r. */
  lemma DivMod(w: int, x: int, q: int, r: int)
    requires w > 0 && x == w * q + r && 0 <= r < w
    ensures x / w == q && x % w == r
  {
    MultipleGap(w, q, x / w);
    MultipleGap(w, x / w, q);
  }

  /** Adding to a number carries from its remainder into its quotient. */
  lemma QuotientShift(x: int, i: int, p: int)
    requires p > 0
    ensures (x + i) / p == x / p + (x % p + i) / p && (x + i) % p == (x % p + i) % p
  {
    Distribute(p, x / p, (x % p + i) / p);
    DivMod(p, x + i, x / p + (x % p + i) / p, (x % p + i) % p);
  }

  lemma Commute(x: int, y: int)
    ensures x * y == y * x
  {
  }

  function Min(x: nat, y: nat): nat {
    if x <= y then x else y
  }

  // ---- Reals ----

  /** y is r times x. */
  ghost predicate Multiple(y: real, r: real, x: real) {
    y == r * x
  }

  lemma AddMultiples(x: real, x': real, y: real, y': real, r: real, z: real, z': real)
    requires Multiple(x, r, x') && Multiple(y, r, y') && z == x + y && z' == x' + y'
    ensures Multiple(z, r, z')
  {
  }

  lemma CommuteReals(x: real, y: real)
    ensures x * y == y * x
  {
  }

  lemma TimesZero(r: real)
    ensures r * 0.0 == 0.0
  {
  }

  function Squares(s: seq<real>): (r: seq<real>)
    ensures |r| == |s| && forall i :: 0 <= i < |r| ==> r[i] == s[i] * s[i]
  {
    seq(|s|, i requires 0 <= i < |s| => s[i] * s[i])
  }
}
