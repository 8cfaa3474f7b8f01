/**
 Layer normalisation over the reals: every row is centred, divided by the square root of its
 variance plus eps, then scaled by gamma and shifted by beta where those are given. A row whose
 variance plus eps is not positive has no such quotient; its results are infinities or NaNs.
 */
module LayerNorm {
  import opened Arith
  import opened ChunkedParallel
  import opened FlatRows
  import opened Folds
  import opened MachineInts
  import opened Wrappers

  datatype Status = Ok | InvalidArgument

  function Total(s: seq<real>): real {
    if s == [] then 0.0 else Total(s[..|s| - 1]) + s[|s| - 1]
  }

  function Mean(x: seq<real>): real
    requires |x| > 0
  {
    Total(x) / |x| as real
  }

  function Centred(x: seq<real>): (r: seq<real>)
    requires |x| > 0
    ensures |r| == |x|
  {
    seq(|x|, j requires 0 <= j < |x| => x[j] - Mean(x))
  }

  function Variance(x: seq<real>): real
    requires |x| > 0
  {
    Total(Squares(Centred(x))) / |x| as real
  }

  /** The square root function, known by what it promises for positive arguments. */
  ghost predicate IsSqrt(sqrt: real -> real) {
    forall v :: v > 0.0 ==> sqrt(v) > 0.0 && sqrt(v) * sqrt(v) == v
  }

  /** A computed number: a real, or an infinity or NaN, none of which turns into a real again here. */
  datatype Float = Real(r: real) | NonFinite

  function Times(x: Float, y: Float): Float {
    if x.Real? && y.Real? then Real(x.r * y.r) else NonFinite
  }

  function Plus(x: Float, y: Float): Float {
    if x.Real? && y.Real? then Real(x.r + y.r) else NonFinite
  }

  /** 1 / sqrt(variance + eps). */
  function InvStd(x: seq<real>, eps: real, sqrt: real -> real): Float
    requires |x| > 0
  {
    var v := Variance(x) + eps;
    if v > 0.0 && sqrt(v) != 0.0 then Real(1.0 / sqrt(v)) else NonFinite
  }

  /** An absent gamma counts as 1 and an absent beta as 0. */
  function Param(p: Option<seq<real>>, j: nat, default: real): real
    requires p.Some? ==> j < |p.value|
  {
    if p.Some? then p.value[j] else default
  }

  /** One element, from the row's mean and reciprocal deviation. */
  function NormAt(x: seq<real>, mean: real, invStd: Float, gamma: Option<seq<real>>, beta: Option<seq<real>>,
                  j: nat): Float
    requires j < |x| && (gamma.Some? ==> j < |gamma.value|) && (beta.Some? ==> j < |beta.value|)
  {
    Plus(Times(Real(Param(gamma, j, 1.0)), Times(Real(x[j] - mean), invStd)), Real(Param(beta, j, 0.0)))
  }

  /** The result for one row. */
  ghost function NormRow(x: seq<real>, gamma: Option<seq<real>>, beta: Option<seq<real>>, eps: real,
                         sqrt: real -> real): (y: seq<Float>)
    requires |x| > 0 && ParamsFit(gamma, beta, |x|)
    ensures |y| == |x|
  {
    seq(|x|, j requires 0 <= j < |x| => NormAt(x, Mean(x), InvStd(x, eps, sqrt), gamma, beta, j))
  }

  ghost predicate ParamsFit(gamma: Option<seq<real>>, beta: Option<seq<real>>, w: nat) {
    (gamma.Some? ==> |gamma.value| == w) && (beta.Some? ==> |beta.value| == w)
  }

  // ---- The kernel ----

  method RowMean(x: seq<real>) returns (mean: real)
    requires |x| > 0
    ensures mean == Mean(x)
  {
    var sum := 0.0;
    for j := 0 to |x|
      invariant sum == Total(x[..j])
    {
      assert x[..j + 1][..j] == x[..j];
      sum := sum + x[j];
    }
    assert x[..|x|] == x;
    mean := sum / |x| as real;
  }

  method RowVariance(x: seq<real>, mean: real) returns (variance: real)
    requires |x| > 0 && mean == Mean(x)
    ensures variance == Variance(x)
  {
    var varSum := 0.0;
    ghost var centred := Centred(x);
    ghost var squares := Squares(centred);
    for j := 0 to |x|
      invariant varSum == Total(squares[..j])
    {
      var diff := x[j] - mean;
      assert centred[j] == diff && squares[j] == centred[j] * centred[j];
      assert squares[..j + 1][..j] == squares[..j];
      varSum := varSum + diff * diff;
    }
    assert squares[..|x|] == squares;
    variance := varSum / |x| as real;
  }

  method RowStatistics(x: seq<real>, eps: real, sqrt: real -> real) returns (mean: real, invStd: Float)
    requires |x| > 0
    ensures mean == Mean(x) && invStd == InvStd(x, eps, sqrt)
  {
    mean := RowMean(x);
    var variance := RowVariance(x, mean);
    var v := variance + eps;
    invStd := if v > 0.0 && sqrt(v) != 0.0 then Real(1.0 / sqrt(v)) else NonFinite;
  }

  /** The last pass for one element, in its four gamma/beta cases. */
  method ScaleShift(x: seq<real>, mean: real, invStd: Float, gamma: Option<seq<real>>, beta: Option<seq<real>>, j: nat)
    returns (y: Float)
    requires j < |x| && (gamma.Some? ==> j < |gamma.value|) && (beta.Some? ==> j < |beta.value|)
    ensures y == NormAt(x, mean, invStd, gamma, beta, j)
  {
    var z := Times(Real(x[j] - mean), invStd);
    NeutralParams(z);
    match (gamma, beta) {
      case (Some(g), Some(b)) => y := Plus(Times(Real(g[j]), z), Real(b[j]));
      case (Some(g), None) => y := Times(Real(g[j]), z);
      case (None, Some(b)) => y := Plus(z, Real(b[j]));
      case (None, None) => y := z;
    }
  }

  lemma NeutralParams(z: Float)
    ensures Times(Real(1.0), z) == z && Plus(z, Real(0.0)) == z
  {
  }

  /** Writes the normalised row t. */
  method WriteRow(x: seq<real>, w: nat, gamma: Option<seq<real>>, beta: Option<seq<real>>, eps: real,
                  sqrt: real -> real, t: nat, range: nat, out: array<Float>)
    requires |x| == w > 0 && ParamsFit(gamma, beta, w)
    requires t < range && RowStart(w, range) <= out.Length
    modifies out
    ensures out[..] == Put(old(out[..]), w, t, NormRow(x, gamma, beta, eps, sqrt))
  {
    RowFits(range, w, t);
    RowStartIsProduct(w, t);
    var off := t * w;
    var mean, invStd := RowStatistics(x, eps, sqrt);
    ghost var row := NormRow(x, gamma, beta, eps, sqrt);
    for j := 0 to w
      invariant forall k :: 0 <= k < out.Length ==>
                  out[k] == if off <= k < off + j then row[k - off] else old(out[k])
    {
      var y := ScaleShift(x, mean, invStd, gamma, beta, j);
      assert y == row[j];
      out[off + j] := y;
    }
    PutElements(old(out[..]), out[..], w, range, t, row);
  }

  /** The product of the first k extents, in wrapping 64-bit arithmetic. */
  function NormSize(shape: seq<I64>, k: nat): I64
    requires k <= |shape|
  {
    if k == 0 then 1 else Wrap64(NormSize(shape, k - 1) as int * shape[k - 1] as int)
  }

  /** The row width is the product of the extents, wrapped once at the end. */
  lemma {:induction false} NormSizeIsProduct(shape: seq<I64>, k: nat)
    requires k <= |shape|
    ensures NormSize(shape, k) == Wrap64(PrefixProduct(shape, k))
  {
    if k == 0 {
    } else {
      NormSizeIsProduct(shape, k - 1);
      Wrap64Product(PrefixProduct(shape, k - 1), shape[k - 1]);
    }
  }

  /** y is the result for the whole row x. */
  ghost predicate IsNormalised(y: seq<Float>, x: seq<real>, w: nat, gamma: Option<seq<real>>, beta: Option<seq<real>>,
                               eps: real, sqrt: real -> real)
    requires w > 0 && ParamsFit(gamma, beta, w)
  {
    |x| == w && y == NormRow(x, gamma, beta, eps, sqrt)
  }

  /** Rows lo .. hi - 1 of the output are the normalised rows of the input. */
  ghost predicate RowsNormalised(input: seq<real>, w: nat, gamma: Option<seq<real>>, beta: Option<seq<real>>,
                                 eps: real, sqrt: real -> real, lo: nat, hi: nat, out: seq<Float>)
    requires w > 0 && ParamsFit(gamma, beta, w)
  {
    forall t: nat {:trigger Row(out, w, t)} :: lo <= t < hi ==>
      IsNormalised(Row(out, w, t), Row(input, w, t), w, gamma, beta, eps, sqrt)
  }

  /** Outside the rows lo .. hi - 1 nothing has changed. */
  ghost predicate RowsKept(w: nat, n: nat, lo: nat, hi: nat, before: seq<Float>, after: seq<Float>) {
    && RowStart(w, n) <= |before| == |after|
    && after[RowStart(w, n)..] == before[RowStart(w, n)..]
    && forall u: nat {:trigger Row(after, w, u)} :: u < n && !(lo <= u < hi) ==> Row(after, w, u) == Row(before, w, u)
  }

  const PAR_MIN_ELEMS: nat := 32 * 1024

  lemma RowNormalised(input: seq<real>, w: nat, gamma: Option<seq<real>>, beta: Option<seq<real>>, eps: real,
                      sqrt: real -> real, n: nat, lo: nat, t: nat, first: seq<Float>, before: seq<Float>)
    requires w > 0 && ParamsFit(gamma, beta, w) && lo <= t < n && RowStart(w, n) <= |before| == |input|
    requires RowsNormalised(input, w, gamma, beta, eps, sqrt, lo, t, before) && RowsKept(w, n, lo, t, first, before)
    ensures |Row(input, w, t)| == w
    ensures var after := Put(before, w, t, NormRow(Row(input, w, t), gamma, beta, eps, sqrt));
      && RowsNormalised(input, w, gamma, beta, eps, sqrt, lo, t + 1, after)
      && RowsKept(w, n, lo, t + 1, first, after)
  {
    RowFits(n, w, t);
    var row := NormRow(Row(input, w, t), gamma, beta, eps, sqrt);
    var after := Put(before, w, t, row);
    forall u: nat {:trigger Row(after, w, u)} | u < n
      ensures Row(after, w, u) == if u == t then row else Row(before, w, u)
    {
      RowAfterPut(before, w, n, t, row, u);
    }
    Splice(before, RowStart(w, t), RowStart(w, t + 1), row, RowStart(w, n), |before|);
  }

  lemma NothingChanged(w: nat, n: nat, lo: nat, x: seq<Float>)
    requires RowStart(w, n) <= |x|
    ensures RowsKept(w, n, lo, lo, x, x)
  {
  }

  /** Adjacent stretches of finished rows join. */
  lemma RowsJoin(input: seq<real>, w: nat, gamma: Option<seq<real>>, beta: Option<seq<real>>, eps: real,
                 sqrt: real -> real, n: nat, mid: nat, hi: nat, first: seq<Float>, x: seq<Float>, y: seq<Float>)
    requires w > 0 && ParamsFit(gamma, beta, w) && mid <= hi <= n
    requires RowsNormalised(input, w, gamma, beta, eps, sqrt, 0, mid, x) && RowsKept(w, n, 0, mid, first, x)
    requires RowsNormalised(input, w, gamma, beta, eps, sqrt, mid, hi, y) && RowsKept(w, n, mid, hi, x, y)
    ensures RowsNormalised(input, w, gamma, beta, eps, sqrt, 0, hi, y) && RowsKept(w, n, 0, hi, first, y)
  {
    forall t: nat {:trigger Row(y, w, t)} | t < hi
      ensures IsNormalised(Row(y, w, t), Row(input, w, t), w, gamma, beta, eps, sqrt)
    {
      assert Row(y, w, t) == if t < mid then Row(x, w, t) else Row(y, w, t);
    }
  }

  /** One chunk of rows. */
  method LayerNormRows(input: seq<real>, w: nat, n: nat, lo: nat, hi: nat, gamma: Option<seq<real>>,
                       beta: Option<seq<real>>, eps: real, sqrt: real -> real, out: array<Float>)
    requires w > 0 && ParamsFit(gamma, beta, w)
    requires lo <= hi <= n && RowStart(w, n) <= |input| == out.Length
    modifies out
    ensures RowsNormalised(input, w, gamma, beta, eps, sqrt, lo, hi, out[..])
    ensures RowsKept(w, n, lo, hi, old(out[..]), out[..])
  {
    NothingChanged(w, n, lo, out[..]);
    for t := lo to hi
      invariant RowsNormalised(input, w, gamma, beta, eps, sqrt, lo, t, out[..])
      invariant RowsKept(w, n, lo, t, old(out[..]), out[..])
    {
      RowNormalised(input, w, gamma, beta, eps, sqrt, n, lo, t, old(out[..]), out[..]);
      WriteRow(Row(input, w, t), w, gamma, beta, eps, sqrt, t, n, out);
    }
  }

  /** All rows, chunk by chunk. */
  method LayerNormChunks(input: seq<real>, w: nat, n: nat, chunks: seq<Chunk>, gamma: Option<seq<real>>,
                         beta: Option<seq<real>>, eps: real, sqrt: real -> real, out: array<Float>)
    requires w > 0 && ParamsFit(gamma, beta, w)
    requires Partition(chunks, 0, n) && RowStart(w, n) <= |input| == out.Length
    modifies out
    ensures RowsNormalised(input, w, gamma, beta, eps, sqrt, 0, n, out[..])
    ensures RowsKept(w, n, 0, n, old(out[..]), out[..])
  {
    ghost var done: nat := 0;
    NothingChanged(w, n, 0, out[..]);
    for k := 0 to |chunks|
      invariant done <= n && Partition(chunks[k..], done, n)
      invariant RowsNormalised(input, w, gamma, beta, eps, sqrt, 0, done, out[..])
      invariant RowsKept(w, n, 0, done, old(out[..]), out[..])
    {
      var c := chunks[k];
      assert chunks[k..][0] == c && chunks[k..][1..] == chunks[k + 1..];
      ghost var before := out[..];
      LayerNormRows(input, w, n, c.start, c.start + c.count, gamma, beta, eps, sqrt, out);
      RowsJoin(input, w, gamma, beta, eps, sqrt, n, done, done + c.count, old(out[..]), before, out[..]);
      done := done + c.count;
    }
    assert chunks[|chunks|..] == [];
  }

  method ComputeNormSize(shape: seq<I64>) returns (normSize: I64)
    ensures normSize == NormSize(shape, |shape|)
  {
    normSize := 1;
    for i := 0 to |shape|
      invariant normSize == NormSize(shape, i)
    {
      normSize := Wrap64(normSize as int * shape[i] as int);
    }
  }

  /** The number of whole rows. */
  function RowCount(size: nat, w: nat): (n: nat)
    requires w > 0
    ensures RowStart(w, n) <= size < RowStart(w, n + 1)
  {
    assert size == w * (size / w) + size % w;
    RowStartIsProduct(w, size / w);
    size / w
  }

  /** All whole rows are normalised, and nothing after them has changed. */
  ghost predicate AllNormalised(input: seq<real>, w: nat, gamma: Option<seq<real>>, beta: Option<seq<real>>,
                                eps: real, sqrt: real -> real, before: seq<Float>, after: seq<Float>)
    requires w > 0 && ParamsFit(gamma, beta, w)
  {
    var n := RowCount(|input|, w);
    RowsNormalised(input, w, gamma, beta, eps, sqrt, 0, n, after) && RowsKept(w, n, 0, n, before, after)
  }

  /** The whole rows cover all but a remainder of the elements. */
  lemma RemainderIsKept(input: seq<real>, w: nat, gamma: Option<seq<real>>, beta: Option<seq<real>>, eps: real,
                        sqrt: real -> real, before: seq<Float>, after: seq<Float>)
    requires w > 0 && ParamsFit(gamma, beta, w) && |before| == |after| == |input|
    requires AllNormalised(input, w, gamma, beta, eps, sqrt, before, after)
    ensures forall i :: |input| - |input| % w <= i < |input| ==> after[i] == before[i]
  {
    var n := RowCount(|input|, w);
    RowStartIsProduct(w, n);
    DivMod(w, |input|, n, |input| - RowStart(w, n));
    forall i | RowStart(w, n) <= i < |input| ensures after[i] == before[i] {
      assert after[i] == after[RowStart(w, n)..][i - RowStart(w, n)];
    }
  }

  /**
   The operator. `out` has as many elements as the input; elements past the last whole row are
   not written.
   */
  method LayerNormOut(input: seq<real>, isFloat: bool, shape: seq<I64>, gamma: Option<seq<real>>,
                      beta: Option<seq<real>>, eps: real, sqrt: real -> real, workers: Option<nat>,
                      resizeOk: bool, out: array<Float>)
    returns (status: Status)
    requires NormSize(shape, |shape|) > 0 ==> ParamsFit(gamma, beta, NormSize(shape, |shape|))
    requires resizeOk ==> out.Length == |input|
    modifies out
    ensures NormSize(shape, |shape|) == Wrap64(PrefixProduct(shape, |shape|))
    ensures status.Ok? <==> isFloat && NormSize(shape, |shape|) > 0 && resizeOk
    ensures !status.Ok? ==> out[..] == old(out[..])
    ensures status.Ok? ==>
      AllNormalised(input, NormSize(shape, |shape|), gamma, beta, eps, sqrt, old(out[..]), out[..])
    ensures status.Ok? ==>
      forall i :: |input| - |input| % NormSize(shape, |shape|) <= i < |input| ==> out[i] == old(out[i])
  {
    NormSizeIsProduct(shape, |shape|);
    if !isFloat {
      return InvalidArgument;
    }
    var normSize := ComputeNormSize(shape);
    if normSize <= 0 || !resizeOk {
      return InvalidArgument;
    }
    var w: nat := normSize;
    var n := RowCount(|input|, w);
    var threshold := DivCeil(PAR_MIN_ELEMS, w);
    PlanIsPartition(n, threshold, workers);
    LayerNormChunks(input, w, n, Plan(n, threshold, workers), gamma, beta, eps, sqrt, out);
    RemainderIsKept(input, w, gamma, beta, eps, sqrt, old(out[..]), out[..]);
    return Ok;
  }
}
