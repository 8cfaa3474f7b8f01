/**
 What layer normalisation achieves: rows of mean 0 and of mean square var / (var + eps),
 whatever the level of the input, and independently of how the rows are spread over threads.
 */
module LayerNormLaws {
  import opened Arith
  import opened ChunkedParallel
  import opened FlatRows
  import opened Folds
  import opened LayerNorm
  import opened MachineInts
  import opened Wrappers

  ghost predicate ScaledBy(t: seq<real>, r: real, s: seq<real>) {
    |t| == |s| && forall j :: 0 <= j < |s| ==> Multiple(t[j], r, s[j])
  }

  lemma {:induction false} TotalScales(t: seq<real>, r: real, s: seq<real>)
    requires ScaledBy(t, r, s)
    ensures Multiple(Total(t), r, Total(s))
  {
    if s == [] {
    } else {
      var n := |s| - 1;
      TotalScales(t[..n], r, s[..n]);
      AddMultiples(Total(t[..n]), Total(s[..n]), t[n], s[n], r, Total(t), Total(s));
    }
  }

  /** Adding c to every element adds |s| * c to the total. */
  lemma {:induction false} TotalShifts(t: seq<real>, c: real, s: seq<real>)
    requires |t| == |s| && forall j :: 0 <= j < |s| ==> t[j] == s[j] + c
    ensures Multiple(Total(t) - Total(s), |s| as real, c)
  {
    if s == [] {
    } else {
      var n := |s| - 1;
      TotalShifts(t[..n], c, s[..n]);
      OneMore(Total(t[..n]) - Total(s[..n]), n as real, c);
    }
  }

  lemma OneMore(x: real, n: real, c: real)
    requires Multiple(x, n, c)
    ensures Multiple(x + c, n + 1.0, c)
  {
  }

  lemma QuotientTimes(x: real, n: real)
    requires n > 0.0
    ensures n * (x / n) == x && n * -(x / n) == -x
  {
  }

  /** The total is the sum taken from either end. */
  lemma {:induction false} TotalFromFront(s: seq<real>)
    ensures Total(s) == if s == [] then 0.0 else s[0] + Total(s[1..])
  {
    if |s| > 1 {
      var n := |s| - 1;
      TotalFromFront(s[..n]);
      assert s[..n][1..] == s[1..][..n - 1];
    }
  }

  lemma CentredSumsToZero(x: seq<real>)
    requires |x| > 0
    ensures Total(Centred(x)) == 0.0
  {
    TotalShifts(Centred(x), -Mean(x), x);
    QuotientTimes(Total(x), |x| as real);
  }

  /** The rows for which the quotient exists. */
  ghost predicate Regular(x: seq<real>, eps: real) {
    |x| > 0 && Variance(x) + eps > 0.0
  }

  /** 1 / sqrt(variance + eps) as a real. */
  ghost function Reciprocal(x: seq<real>, eps: real, sqrt: real -> real): (r: real)
    requires Regular(x, eps) && IsSqrt(sqrt)
    ensures InvStd(x, eps, sqrt) == Real(r)
  {
    1.0 / sqrt(Variance(x) + eps)
  }

  /** The values of the row that the kernel computes without gamma and beta. */
  ghost function Plain(x: seq<real>, eps: real, sqrt: real -> real): (y: seq<real>)
    requires Regular(x, eps) && IsSqrt(sqrt)
    ensures |y| == |x|
    ensures forall j :: 0 <= j < |x| ==> NormRow(x, None, None, eps, sqrt)[j] == Real(y[j])
  {
    var row := NormRow(x, None, None, eps, sqrt);
    assert forall j :: 0 <= j < |x| ==> row[j] == NormAt(x, Mean(x), Real(Reciprocal(x, eps, sqrt)), None, None, j);
    seq(|x|, j requires 0 <= j < |x| => row[j].r)
  }

  /** A row has real results if and only if its variance plus eps is positive. */
  lemma RealResults(x: seq<real>, gamma: Option<seq<real>>, beta: Option<seq<real>>, eps: real,
                    sqrt: real -> real, j: nat)
    requires IsSqrt(sqrt) && ParamsFit(gamma, beta, |x|) && j < |x|
    ensures NormRow(x, gamma, beta, eps, sqrt)[j].Real? <==> Regular(x, eps)
  {
    var row := NormRow(x, gamma, beta, eps, sqrt);
    assert row[j] == NormAt(x, Mean(x), InvStd(x, eps, sqrt), gamma, beta, j);
  }

  lemma PlainIsScaled(x: seq<real>, eps: real, sqrt: real -> real)
    requires Regular(x, eps) && IsSqrt(sqrt)
    ensures ScaledBy(Plain(x, eps, sqrt), Reciprocal(x, eps, sqrt), Centred(x))
  {
    var y, c, r := Plain(x, eps, sqrt), Centred(x), Reciprocal(x, eps, sqrt);
    forall j | 0 <= j < |x| ensures Multiple(y[j], r, c[j]) {
      NeutralParams(Real(c[j] * r));
      assert NormRow(x, None, None, eps, sqrt)[j] == NormAt(x, Mean(x), Real(r), None, None, j) == Real(c[j] * r);
      CommuteReals(c[j], r);
    }
  }

  /** Each normalised row sums to 0. */
  lemma RowSumIsZero(x: seq<real>, eps: real, sqrt: real -> real)
    requires Regular(x, eps) && IsSqrt(sqrt)
    ensures Total(Plain(x, eps, sqrt)) == 0.0
  {
    PlainIsScaled(x, eps, sqrt);
    TotalScales(Plain(x, eps, sqrt), Reciprocal(x, eps, sqrt), Centred(x));
    CentredSumsToZero(x);
    TimesZero(Reciprocal(x, eps, sqrt));
  }

  lemma SquaresScale(t: seq<real>, r: real, s: seq<real>)
    requires ScaledBy(t, r, s)
    ensures ScaledBy(Squares(t), r * r, Squares(s))
  {
    forall j | 0 <= j < |s| ensures Multiple(Squares(t)[j], r * r, Squares(s)[j]) {
      assert Multiple(t[j], r, s[j]);
      SquareOfMultiple(t[j], r, s[j]);
    }
  }

  /** Each normalised row has mean square var / (var + eps). */
  lemma RowMeanSquare(x: seq<real>, eps: real, sqrt: real -> real)
    requires Regular(x, eps) && IsSqrt(sqrt)
    ensures Total(Squares(Plain(x, eps, sqrt))) / |x| as real == Variance(x) / (Variance(x) + eps)
  {
    var y, c, r, v := Plain(x, eps, sqrt), Centred(x), Reciprocal(x, eps, sqrt), Variance(x) + eps;
    PlainIsScaled(x, eps, sqrt);
    SquaresScale(y, r, c);
    TotalScales(Squares(y), r * r, Squares(c));
    RootReciprocal(sqrt(v), v, r);
    ScaledQuotient(Total(Squares(y)), r * r, Total(Squares(c)), |x| as real, v);
  }

  lemma SquareOfMultiple(y: real, r: real, x: real)
    requires Multiple(y, r, x)
    ensures Multiple(y * y, r * r, x * x)
  {
    assert (r * x) * (r * x) == (r * r) * (x * x);
  }

  lemma RootReciprocal(s: real, v: real, r: real)
    requires s > 0.0 && v > 0.0 && s * s == v && r == 1.0 / s
    ensures r * r == 1.0 / v
  {
    assert r * s == 1.0;
    assert (r * r) * v == (r * s) * (r * s);
  }

  lemma ScaledQuotient(y: real, r: real, x: real, n: real, v: real)
    requires n > 0.0 && v > 0.0 && r == 1.0 / v && Multiple(y, r, x)
    ensures y / n == (x / n) / v
  {
    assert y == x / v;
  }

  /** All four gamma/beta cases are one affine map of the plain row. */
  lemma AffineOfPlain(x: seq<real>, gamma: Option<seq<real>>, beta: Option<seq<real>>, eps: real,
                      sqrt: real -> real, j: nat)
    requires Regular(x, eps) && IsSqrt(sqrt) && ParamsFit(gamma, beta, |x|) && j < |x|
    ensures var scale := if gamma.Some? then gamma.value[j] else 1.0;
      var shift := if beta.Some? then beta.value[j] else 0.0;
      NormRow(x, gamma, beta, eps, sqrt)[j] == Real(scale * Plain(x, eps, sqrt)[j] + shift)
  {
    var z := Times(Real(x[j] - Mean(x)), Real(Reciprocal(x, eps, sqrt)));
    NeutralParams(z);
    assert NormRow(x, None, None, eps, sqrt)[j] == z;
  }

  /** The value of one element, with every constant and branch written out. */
  ghost predicate IsValue(y: Float, x: seq<real>, gamma: Option<seq<real>>, beta: Option<seq<real>>, eps: real,
                          sqrt: real -> real, j: nat)
    requires j < |x| && ParamsFit(gamma, beta, |x|)
  {
    if Variance(x) + eps > 0.0 && sqrt(Variance(x) + eps) != 0.0 then
      var z := (x[j] - Mean(x)) * (1.0 / sqrt(Variance(x) + eps));
      y == Real((if gamma.Some? then gamma.value[j] else 1.0) * z + if beta.Some? then beta.value[j] else 0.0)
    else
      y.NonFinite?
  }

  lemma NormRowValue(x: seq<real>, gamma: Option<seq<real>>, beta: Option<seq<real>>, eps: real,
                     sqrt: real -> real, j: nat)
    requires ParamsFit(gamma, beta, |x|) && j < |x|
    ensures IsValue(NormRow(x, gamma, beta, eps, sqrt)[j], x, gamma, beta, eps, sqrt, j)
  {
    assert NormRow(x, gamma, beta, eps, sqrt)[j] == NormAt(x, Mean(x), InvStd(x, eps, sqrt), gamma, beta, j);
  }

  /** Adding a constant to the whole row does not change its result, real or not. */
  lemma ShiftInvariance(x: seq<real>, x': seq<real>, c: real, gamma: Option<seq<real>>, beta: Option<seq<real>>,
                        eps: real, sqrt: real -> real)
    requires |x| > 0 && ParamsFit(gamma, beta, |x|)
    requires |x'| == |x| && forall j :: 0 <= j < |x| ==> x'[j] == x[j] + c
    ensures NormRow(x', gamma, beta, eps, sqrt) == NormRow(x, gamma, beta, eps, sqrt)
  {
    TotalShifts(x', c, x);
    ShiftedQuotient(Total(x'), Total(x), |x| as real, c);
    assert Mean(x') == Mean(x) + c;
    assert Centred(x') == Centred(x);
    var y, y' := NormRow(x, gamma, beta, eps, sqrt), NormRow(x', gamma, beta, eps, sqrt);
    forall j | 0 <= j < |x| ensures y'[j] == y[j] {
      assert x'[j] - Mean(x') == x[j] - Mean(x);
    }
  }

  lemma ShiftedQuotient(y: real, x: real, n: real, c: real)
    requires n > 0.0 && Multiple(y - x, n, c)
    ensures y / n == x / n + c
  {
    assert y == x + n * c;
  }

  // ---- Threads ----

  /** The rows as items of a chunked run. */
  ghost function RowItems(input: seq<real>, w: nat, gamma: Option<seq<real>>, beta: Option<seq<real>>,
                          eps: real, sqrt: real -> real, n: nat): Item<Float>
    requires w > 0 && ParamsFit(gamma, beta, w)
  {
    (t: nat) =>
      if t < n && |Row(input, w, t)| == w then Some(NormRow(Row(input, w, t), gamma, beta, eps, sqrt)) else None
  }

  lemma CompleteIsNormalised(input: seq<real>, w: nat, gamma: Option<seq<real>>, beta: Option<seq<real>>,
                             eps: real, sqrt: real -> real, n: nat, buf: seq<Float>)
    requires w > 0 && ParamsFit(gamma, beta, w)
    requires Complete(RowItems(input, w, gamma, beta, eps, sqrt, n), w, n, buf)
    ensures RowsNormalised(input, w, gamma, beta, eps, sqrt, 0, n, buf)
  {
    var items := RowItems(input, w, gamma, beta, eps, sqrt, n);
    forall t: nat {:trigger Row(buf, w, t)} | t < n
      ensures IsNormalised(Row(buf, w, t), Row(input, w, t), w, gamma, beta, eps, sqrt)
    {
      assert items(t) == Some(Row(buf, w, t));
    }
  }

  /** However the rows are cut into chunks and interleaved, every finished run normalises every row. */
  lemma NormalisationIsScheduleIndependent(input: seq<real>, w: nat, gamma: Option<seq<real>>,
                                           beta: Option<seq<real>>, eps: real, sqrt: real -> real, n: nat,
                                           chunks: seq<Chunk>, buf: seq<Float>, s: State<Float>)
    requires w > 0 && ParamsFit(gamma, beta, w) && RowStart(w, n) <= |input|
    requires FinalState(chunks, w, n, RowItems(input, w, gamma, beta, eps, sqrt, n), buf, s)
    ensures s.ok && RowsNormalised(input, w, gamma, beta, eps, sqrt, 0, n, s.buf)
  {
    var items := RowItems(input, w, gamma, beta, eps, sqrt, n);
    forall t: nat | t < n ensures items(t).Some? {
      RowFits(n, w, t);
    }
    FinalOutcome(chunks, w, n, items, buf, s);
    CompleteIsNormalised(input, w, gamma, beta, eps, sqrt, n, s.buf);
  }

  // ---- The operator ----

  /** Element j of row t of a flat output has its value, computed from the w elements of that row. */
  ghost predicate IsElement(input: seq<real>, w: nat, gamma: Option<seq<real>>, beta: Option<seq<real>>, eps: real,
                            sqrt: real -> real, out: seq<Float>, t: nat, j: nat)
    requires ParamsFit(gamma, beta, w) && j < w
  {
    && 0 <= t * w && t * w + w <= |input| == |out|
    && IsValue(out[t * w + j], input[t * w..t * w + w], gamma, beta, eps, sqrt, j)
  }

  lemma ElementValue(input: seq<real>, w: nat, n: nat, gamma: Option<seq<real>>, beta: Option<seq<real>>, eps: real,
                     sqrt: real -> real, out: seq<Float>, t: nat, j: nat)
    requires t < n && j < w && ParamsFit(gamma, beta, w) && |out| == |input| >= RowStart(w, n)
    requires RowsNormalised(input, w, gamma, beta, eps, sqrt, 0, n, out)
    ensures IsElement(input, w, gamma, beta, eps, sqrt, out, t, j)
  {
    RowFits(n, w, t);
    RowStartIsProduct(w, t);
    assert IsNormalised(Row(out, w, t), Row(input, w, t), w, gamma, beta, eps, sqrt);
    NormRowValue(Row(input, w, t), gamma, beta, eps, sqrt, j);
  }

  lemma ElementValues(input: seq<real>, w: nat, gamma: Option<seq<real>>, beta: Option<seq<real>>, eps: real,
                      sqrt: real -> real, before: seq<Float>, out: seq<Float>, n: nat)
    requires w > 0 && ParamsFit(gamma, beta, w) && |out| == |input| == n * w
    requires AllNormalised(input, w, gamma, beta, eps, sqrt, before, out)
    ensures forall t: nat, j: nat :: t < n && j < w ==> IsElement(input, w, gamma, beta, eps, sqrt, out, t, j)
  {
    RowStartIsProduct(w, n);
    DivMod(w, |input|, n, 0);
    forall t: nat, j: nat | t < n && j < w
      ensures IsElement(input, w, gamma, beta, eps, sqrt, out, t, j)
    {
      ElementValue(input, w, n, gamma, beta, eps, sqrt, out, t, j);
    }
  }

  lemma NormSizeFits(shape: seq<I64>, w: nat)
    requires PrefixProduct(shape, |shape|) == w < 0x8000_0000_0000_0000
    ensures NormSize(shape, |shape|) == w
  {
    NormSizeIsProduct(shape, |shape|);
  }

  /**
   On extents whose product w divides the element count, every element is normalised over the w
   elements of its row.
   */
  method NormaliseElements(input: seq<real>, shape: seq<I64>, w: nat, n: nat, gamma: Option<seq<real>>,
                           beta: Option<seq<real>>, eps: real, sqrt: real -> real, workers: Option<nat>,
                           out: array<Float>)
    returns (status: LayerNorm.Status)
    requires PrefixProduct(shape, |shape|) == w && 1 <= w < 0x8000_0000_0000_0000
    requires |input| == n * w == out.Length && ParamsFit(gamma, beta, w)
    modifies out
    ensures status.Ok?
    ensures forall t: nat, j: nat :: t < n && j < w ==>
      IsElement(input, w, gamma, beta, eps, sqrt, out[..], t, j)
  {
    NormSizeFits(shape, w);
    status := LayerNormOut(input, true, shape, gamma, beta, eps, sqrt, workers, true, out);
    ElementValues(input, w, gamma, beta, eps, sqrt, old(out[..]), out[..], n);
  }
}
