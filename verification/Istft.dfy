/**
 Inverse short-time Fourier transform, over the reals.

 Stage 1 turns every frame's half spectrum into a windowed time frame (in parallel chunks),
 stage 2 overlap-adds the frames, divides by the accumulated squared window and clears the
 synthesis padding at both ends. The inverse FFT is any function that returns n_fft samples
 or fails.
 */
module Istft {
  import opened Arith
  import opened ChunkedParallel
  import opened FlatRows
  import opened MachineInts
  import opened Wrappers

  const COLA_THRESHOLD: real := 0.00000001

  datatype Complex = Complex(re: real, im: real)

  type InverseFft = seq<Complex> -> Option<seq<real>>

  datatype Status = Ok | InvalidArgument | Internal

  /** What the kernel reads of one batch; `base` is where its spectrum starts. */
  datatype Batch = Batch(re: seq<real>, im: seq<real>, base: nat, nFrames: nat, window: seq<real>, fft: InverseFft) {
    function NFft(): nat { |window| }
    function NFreqs(): nat { |window| / 2 + 1 }

    ghost predicate Valid() {
      && |window| >= 2
      && base + NFreqs() * nFrames <= |re|
      && |re| == |im|
      && forall s :: fft(s).Some? ==> |fft(s).value| == |window|
    }
  }

  /** Bins that are their own conjugate lose their imaginary part. */
  predicate SelfConjugate(nFft: nat, f: nat) {
    f == 0 || (nFft % 2 == 0 && f == nFft / 2)
  }

  lemma BinInRange(b: Batch, f: nat, t: nat)
    requires b.Valid() && f < b.NFreqs() && t < b.nFrames
    ensures 0 <= f * b.nFrames && b.base + f * b.nFrames + t < |b.re|
  {
    NonNegativeProduct(f, b.nFrames);
    MultipleGap(b.nFrames, f, b.NFreqs());
    assert b.nFrames * f == f * b.nFrames && b.nFrames * b.NFreqs() == b.NFreqs() * b.nFrames;
  }

  /** Column t of the spectrum. */
  ghost function Spectrum(b: Batch, t: nat): (s: seq<Complex>)
    requires b.Valid() && t < b.nFrames
    ensures |s| == b.NFreqs()
  {
    seq(b.NFreqs(), f requires 0 <= f < b.NFreqs() =>
      BinInRange(b, f, t);
      var k := b.base + f * b.nFrames + t;
      Complex(b.re[k], if SelfConjugate(b.NFft(), f) then 0.0 else b.im[k]))
  }

  /** A time frame scaled by 1 / n_fft and the window. */
  function Windowed(frame: seq<real>, window: seq<real>): (r: seq<real>)
    requires |frame| == |window| > 0
    ensures |r| == |window|
    ensures forall i :: 0 <= i < |r| ==> r[i] == frame[i] * (1.0 / |window| as real) * window[i]
  {
    seq(|window|, i requires 0 <= i < |window| => frame[i] * (1.0 / |window| as real) * window[i])
  }

  /** Frame t as stage 1 computes it, or its failure. */
  ghost function Frame(b: Batch, t: nat): (r: Option<seq<real>>)
    requires b.Valid() && t < b.nFrames
    ensures r.Some? ==> |r.value| == b.NFft()
  {
    match b.fft(Spectrum(b, t))
    case None => None
    case Some(frame) => Some(Windowed(frame, b.window))
  }

  /** The frames as items of a chunked run. */
  ghost function Frames(b: Batch): Item<real>
    requires b.Valid()
  {
    (t: nat) => if t < b.nFrames then Frame(b, t) else None
  }

  // ---- Stage 1 ----

  method FillSpectrum(b: Batch, t: nat, spectrum: array<Complex>)
    requires b.Valid() && t < b.nFrames && spectrum.Length == b.NFreqs()
    modifies spectrum
    ensures spectrum[..] == Spectrum(b, t)
    ensures forall f :: 0 <= f < b.NFreqs() ==>
      && 0 <= f * b.nFrames && b.base + f * b.nFrames + t < |b.re|
      && spectrum[f].re == b.re[b.base + f * b.nFrames + t]
      && spectrum[f].im == if f == 0 || 2 * f == b.NFft() then 0.0 else b.im[b.base + f * b.nFrames + t]
  {
    for f := 0 to b.NFreqs()
      invariant forall k :: 0 <= k < f ==>
                  && 0 <= k * b.nFrames && b.base + k * b.nFrames + t < |b.re|
                  && spectrum[k] == Complex(b.re[b.base + k * b.nFrames + t], b.im[b.base + k * b.nFrames + t])
    {
      BinInRange(b, f, t);
      var idx := b.base + f * b.nFrames + t;
      spectrum[f] := Complex(b.re[idx], b.im[idx]);
    }
    spectrum[0] := spectrum[0].(im := 0.0);
    if b.NFft() % 2 == 0 {
      spectrum[b.NFft() / 2] := spectrum[b.NFft() / 2].(im := 0.0);
    }
  }

  /** Writes frame * inv_n * window to row t of the flat buffer. */
  method WriteFrame(frame: seq<real>, window: seq<real>, t: nat, range: nat, windowed: array<real>)
    requires |frame| == |window| > 0 && t < range && windowed.Length == RowStart(|window|, range)
    modifies windowed
    ensures windowed[..] == Put(old(windowed[..]), |window|, t, Windowed(frame, window))
  {
    var w := |window|;
    RowFits(range, w, t);
    RowStartIsProduct(w, t);
    var off := t * w;
    var invN := 1.0 / w as real;
    for i := 0 to w
      invariant forall k :: 0 <= k < windowed.Length ==>
        windowed[k] == if off <= k < off + i then Windowed(frame, window)[k - off] else old(windowed[k])
    {
      windowed[off + i] := frame[i] * invN * window[i];
    }
    PutElements(old(windowed[..]), windowed[..], w, range, t, Windowed(frame, window));
  }

  ghost predicate RowsDone(b: Batch, lo: nat, hi: nat, buf: seq<real>)
    requires b.Valid()
  {
    && |buf| == RowStart(b.NFft(), b.nFrames)
    && hi <= b.nFrames
    && forall t :: lo <= t < hi ==> Frame(b, t) == Some(Row(buf, b.NFft(), t))
  }

  /** The buffers agree on every row outside lo .. hi - 1. */
  ghost predicate SameOutside(b: Batch, lo: nat, hi: nat, x: seq<real>, y: seq<real>) {
    && |x| == |y| == RowStart(b.NFft(), b.nFrames)
    && forall u: nat {:trigger Row(y, b.NFft(), u)} :: u < b.nFrames && !(lo <= u < hi) ==>
         Row(x, b.NFft(), u) == Row(y, b.NFft(), u)
  }

  lemma SameRefl(b: Batch, lo: nat, hi: nat, x: seq<real>)
    requires |x| == RowStart(b.NFft(), b.nFrames)
    ensures SameOutside(b, lo, hi, x, x)
  {
    forall u: nat {:trigger Row(x, b.NFft(), u)} | u < b.nFrames
      ensures Row(x, b.NFft(), u) == Row(x, b.NFft(), u)
    {
      RowFits(b.nFrames, b.NFft(), u);
    }
  }

  /** Writing row t completes it and leaves the other rows alone. */
  lemma RowWritten(b: Batch, lo: nat, hi: nat, t: nat, x: seq<real>, y: seq<real>, z: seq<real>, row: seq<real>)
    requires b.Valid() && lo <= t < hi <= b.nFrames && Frame(b, t) == Some(row)
    requires SameOutside(b, lo, hi, x, y) && RowsDone(b, lo, t, y)
    requires z == Put(y, b.NFft(), t, row)
    ensures SameOutside(b, lo, hi, x, z) && RowsDone(b, lo, t + 1, z)
  {
    forall u: nat {:trigger Row(z, b.NFft(), u)} | u < b.nFrames
      ensures Row(z, b.NFft(), u) == if u == t then row else Row(y, b.NFft(), u)
    {
      RowAfterPut(y, b.NFft(), b.nFrames, t, row, u);
    }
  }

  /** The inverse FFT of the frames lo .. hi - 1; stops at the first frame that fails. */
  method IstftFrames(b: Batch, lo: nat, hi: nat, windowed: array<real>) returns (ok: bool)
    requires b.Valid() && lo <= hi <= b.nFrames && windowed.Length == RowStart(b.NFft(), b.nFrames)
    modifies windowed
    ensures ok <==> forall t :: lo <= t < hi ==> Frame(b, t).Some?
    ensures ok ==> RowsDone(b, lo, hi, windowed[..])
    ensures SameOutside(b, lo, hi, old(windowed[..]), windowed[..])
  {
    var spectrum := new Complex[b.NFreqs()](_ => Complex(0.0, 0.0));
    SameRefl(b, lo, hi, windowed[..]);
    for t := lo to hi
      invariant fresh(spectrum)
      invariant RowsDone(b, lo, t, windowed[..])
      invariant SameOutside(b, lo, hi, old(windowed[..]), windowed[..])
    {
      FillSpectrum(b, t, spectrum);
      var frame := b.fft(spectrum[..]);
      if frame.None? {
        assert Frame(b, t).None?;
        return false;
      }
      ghost var before := windowed[..];
      WriteFrame(frame.value, b.window, t, b.nFrames, windowed);
      RowWritten(b, lo, hi, t, old(windowed[..]), before, windowed[..], Windowed(frame.value, b.window));
    }
    return true;
  }

  lemma RowsJoin(b: Batch, mid: nat, hi: nat, x: seq<real>, y: seq<real>)
    requires b.Valid() && mid <= hi
    requires RowsDone(b, 0, mid, x) && SameOutside(b, mid, hi, x, y) && RowsDone(b, mid, hi, y)
    ensures RowsDone(b, 0, hi, y)
  {
    forall t: nat | t < hi
      ensures Frame(b, t) == Some(Row(y, b.NFft(), t))
    {
      RowFits(b.nFrames, b.NFft(), t);
      if t < mid {
        assert Frame(b, t) == Some(Row(x, b.NFft(), t));
        assert Row(x, b.NFft(), t) == Row(y, b.NFft(), t);
      }
    }
  }

  lemma RowsComplete(b: Batch, buf: seq<real>)
    requires b.Valid() && RowsDone(b, 0, b.nFrames, buf)
    ensures Complete(Frames(b), b.NFft(), b.nFrames, buf)
  {
  }

  /** The frames all succeed exactly when the inverse FFT accepts every column. */
  lemma SuccessMeansAccepted(b: Batch)
    requires b.Valid()
    ensures AllSucceed(Frames(b), b.nFrames) <==> forall t: nat :: t < b.nFrames ==> b.fft(Spectrum(b, t)).Some?
  {
    forall t: nat | t < b.nFrames
      ensures Frames(b)(t).Some? <==> b.fft(Spectrum(b, t)).Some?
    {
      assert Frames(b)(t) == Frame(b, t);
    }
  }

  /** Stage 1 over any partition of the frames; a failing chunk only clears the flag. */
  method Stage1(b: Batch, chunks: seq<Chunk>, windowed: array<real>) returns (ok: bool)
    requires b.Valid() && windowed.Length == RowStart(b.NFft(), b.nFrames)
    requires Partition(chunks, 0, b.nFrames)
    modifies windowed
    ensures ok <==> AllSucceed(Frames(b), b.nFrames)
    ensures ok ==> Complete(Frames(b), b.NFft(), b.nFrames, windowed[..])
  {
    ok := true;
    ghost var done: nat := 0;
    for j := 0 to |chunks|
      invariant done <= b.nFrames && Partition(chunks[j..], done, b.nFrames)
      invariant ok <==> forall t :: 0 <= t < done ==> Frame(b, t).Some?
      invariant ok ==> RowsDone(b, 0, done, windowed[..])
    {
      var c := chunks[j];
      assert chunks[j..][0] == c && chunks[j..][1..] == chunks[j + 1..];
      ghost var before := windowed[..];
      var chunkOk := IstftFrames(b, c.start, c.start + c.count, windowed);
      if ok && chunkOk {
        RowsJoin(b, c.start, c.start + c.count, before, windowed[..]);
      }
      if !chunkOk {
        ok := false;
      }
      done := done + c.count;
    }
    assert chunks[|chunks|..] == [];
    if ok {
      RowsComplete(b, windowed[..]);
    }
    assert forall t: nat :: t < b.nFrames ==> Frames(b)(t) == Frame(b, t);
  }

  // ---- Stage 2 ----

  /**
   The sample at which frame t starts. The hop is cast to an unsigned word, so with a negative hop
   only frame 0 starts within the audio: see NegativeHop. A non-negative hop cannot wrap around,
   since the audio holds every frame.
   */
  function Start(t: nat, hop: int): nat {
    NonNegativeProduct(t, if hop >= 0 then hop else 0);
    if hop >= 0 then t * hop else (t * hop) % WORD
  }

  /** What a frame that starts at sample `start` adds to sample s. */
  function Term(row: seq<real>, start: int, s: int): real {
    if start <= s < start + |row| then row[s - start] else 0.0
  }

  /** The sum over all frames that cover sample s. */
  function OverlapSum(rows: seq<seq<real>>, hop: int, s: int): real {
    if rows == [] then 0.0
    else
      var t := |rows| - 1;
      OverlapSum(rows[..t], hop, s) + Term(rows[t], Start(t, hop), s)
  }

  function SquareRows(window: seq<real>, nFrames: nat): (r: seq<seq<real>>)
    ensures |r| == nFrames
  {
    seq(nFrames, _ => Squares(window))
  }

  /** Samples at both ends that the kernel clears. */
  predicate Trimmed(nFft: nat, audioLen: int, s: nat) {
    s < nFft / 2 || s >= audioLen - nFft / 2
  }

  /** The output sample s, from the windowed frames. */
  function Sample(rows: seq<seq<real>>, window: seq<real>, hop: int, audioLen: nat, s: nat): real {
    var sum := OverlapSum(rows, hop, s);
    var norm := OverlapSum(SquareRows(window, |rows|), hop, s);
    if Trimmed(|window|, audioLen, s) then 0.0 else if norm > COLA_THRESHOLD then sum / norm else sum
  }

  /** With a negative hop every sample comes from frame 0 alone. */
  lemma NegativeHop(rows: seq<seq<real>>, hop: int, nFft: nat, audioLen: nat, s: nat)
    requires rows != [] && hop < 0 && nFft < I64_LIMIT
    requires audioLen == AudioLen(|rows|, hop, nFft) && s < audioLen
    ensures OverlapSum(rows, hop, s) == Term(rows[0], 0, s)
  {
    NegativeStarts(rows, hop, nFft, audioLen, s, |rows|);
    assert rows[..|rows|] == rows;
  }

  lemma {:induction false} NegativeStarts(rows: seq<seq<real>>, hop: int, nFft: nat, audioLen: nat, s: nat, n: nat)
    requires 1 <= n <= |rows| && hop < 0 && nFft < I64_LIMIT
    requires audioLen == AudioLen(|rows|, hop, nFft) && s < audioLen
    ensures OverlapSum(rows[..n], hop, s) == Term(rows[0], 0, s)
  {
    if n == 1 {
      assert rows[..1][..0] == [];
      assert OverlapSum(rows[..1][..0], hop, s) == 0.0;
    } else {
      NegativeStarts(rows, hop, nFft, audioLen, s, n - 1);
      assert rows[..n][..n - 1] == rows[..n - 1];
      StartWrapsAround(n - 1, |rows|, hop, nFft);
    }
  }

  /** A later frame starts in the upper half of the unsigned range, beyond the audio. */
  lemma StartWrapsAround(t: nat, nFrames: nat, hop: int, nFft: nat)
    requires 1 <= t < nFrames && hop < 0 && nFft < I64_LIMIT && AudioLen(nFrames, hop, nFft) >= 0
    ensures Start(t, hop) >= I64_LIMIT > AudioLen(nFrames, hop, nFft)
  {
    MultipleGap(-hop, t, nFrames - 1);
    MultipleGap(-hop, 1, t);
    assert t * hop == -(-hop * t) && (nFrames - 1) * hop == -(-hop * (nFrames - 1));
    DivMod(WORD, t * hop, -1, t * hop + WORD);
  }

  /** Adds one frame to the accumulators. */
  method AddFrame(row: seq<real>, window: seq<real>, start: nat, out: array<real>, windowSum: array<real>)
    requires |row| == |window| && out != windowSum && out.Length == windowSum.Length
    modifies out, windowSum
    ensures forall s :: 0 <= s < out.Length ==> out[s] == old(out[s]) + Term(row, start, s)
    ensures forall s :: 0 <= s < out.Length ==> windowSum[s] == old(windowSum[s]) + Term(Squares(window), start, s)
  {
    var i := 0;
    while i < |row| && start + i < out.Length
      invariant 0 <= i <= |row|
      invariant forall s :: 0 <= s < out.Length ==>
                  out[s] == old(out[s]) + if s < start + i then Term(row, start, s) else 0.0
      invariant forall s :: 0 <= s < out.Length ==>
                  windowSum[s] == old(windowSum[s]) + if s < start + i then Term(Squares(window), start, s) else 0.0
    {
      var w := window[i];
      out[start + i] := out[start + i] + row[i];
      windowSum[start + i] := windowSum[start + i] + w * w;
      i := i + 1;
    }
  }

  method OverlapAdd(rows: seq<seq<real>>, window: seq<real>, hop: int, out: array<real>, windowSum: array<real>)
    requires out != windowSum && out.Length == windowSum.Length
    requires forall t :: 0 <= t < |rows| ==> |rows[t]| == |window|
    requires forall s :: 0 <= s < out.Length ==> out[s] == 0.0 && windowSum[s] == 0.0
    modifies out, windowSum
    ensures forall s :: 0 <= s < out.Length ==> out[s] == OverlapSum(rows, hop, s)
    ensures forall s :: 0 <= s < out.Length ==> windowSum[s] == OverlapSum(SquareRows(window, |rows|), hop, s)
  {
    for t := 0 to |rows|
      invariant forall s :: 0 <= s < out.Length ==> out[s] == OverlapSum(rows[..t], hop, s)
      invariant forall s :: 0 <= s < out.Length ==> windowSum[s] == OverlapSum(SquareRows(window, t), hop, s)
    {
      AddFrame(rows[t], window, Start(t, hop), out, windowSum);
      assert rows[..t + 1][..t] == rows[..t];
      assert SquareRows(window, t + 1)[..t] == SquareRows(window, t);
    }
    assert rows[..|rows|] == rows;
  }

  /** Divides by the window sums that exceed the threshold. */
  method Normalise(out: array<real>, windowSum: seq<real>)
    requires |windowSum| == out.Length
    modifies out
    ensures forall k :: 0 <= k < out.Length ==>
      out[k] == if windowSum[k] > COLA_THRESHOLD then old(out[k]) / windowSum[k] else old(out[k])
  {
    for s := 0 to out.Length
      invariant forall k :: 0 <= k < out.Length ==>
                  out[k] == if k < s && windowSum[k] > COLA_THRESHOLD then old(out[k]) / windowSum[k] else old(out[k])
    {
      if windowSum[s] > COLA_THRESHOLD {
        out[s] := out[s] / windowSum[s];
      }
    }
  }

  /** Clears half a frame at both ends. */
  method Trim(out: array<real>, nFft: nat)
    modifies out
    ensures forall k :: 0 <= k < out.Length ==>
      out[k] == if k < nFft / 2 || k >= out.Length - nFft / 2 then 0.0 else old(out[k])
  {
    var halfN, audioLen := nFft / 2, out.Length;
    for s := 0 to Min(halfN, audioLen)
      invariant forall k :: 0 <= k < audioLen ==> out[k] == if k < s then 0.0 else old(out[k])
    {
      out[s] := 0.0;
    }
    var tail := if audioLen < halfN then 0 else audioLen - halfN;
    for s := tail to audioLen
      invariant forall k :: 0 <= k < audioLen ==> out[k] == if k < halfN || tail <= k < s then 0.0 else old(out[k])
    {
      out[s] := 0.0;
    }
  }

  /** Stage 2, with normalisation and trimming. */
  method Stage2(rows: seq<seq<real>>, window: seq<real>, hop: int, out: array<real>)
    requires forall t :: 0 <= t < |rows| ==> |rows[t]| == |window|
    modifies out
    ensures forall s :: 0 <= s < out.Length ==> out[s] == Sample(rows, window, hop, out.Length, s)
  {
    for s := 0 to out.Length
      invariant forall k :: 0 <= k < s ==> out[k] == 0.0
    {
      out[s] := 0.0;
    }
    var windowSum := new real[out.Length](_ => 0.0);
    OverlapAdd(rows, window, hop, out, windowSum);
    Normalise(out, windowSum[..]);
    Trim(out, |window|);
  }

  // ---- The operator ----

  const PAR_MIN_VALUES: nat := 32 * 1024

  /** The frame count from which stage 1 is spread over the pool; None means never. */
  function ParFrameThreshold(workSize: nat, nFrames: nat): Option<nat> {
    if nFrames == 0 then None
    else
      var nFreqs := workSize / nFrames;
      Some(DivCeil(PAR_MIN_VALUES, if nFreqs < 1 then 1 else nFreqs))
  }

  /** The pool is used exactly when the spectrum holds at least 32k values. */
  lemma ThresholdCountsValues(nFreqs: nat, nFrames: nat)
    requires nFreqs >= 1 && nFrames >= 1
    ensures var threshold := ParFrameThreshold(nFreqs * nFrames, nFrames);
      threshold.Some? && (nFrames >= threshold.value <==> nFreqs * nFrames >= 32768)
  {
    assert nFreqs * nFrames == nFrames * nFreqs + 0;
    DivMod(nFrames, nFreqs * nFrames, nFreqs, 0);
    var q := PAR_MIN_VALUES / nFreqs;
    assert PAR_MIN_VALUES == nFreqs * q + PAR_MIN_VALUES % nFreqs;
    MultipleGap(nFreqs, nFrames, q);
    MultipleGap(nFreqs, q, nFrames);
    MultipleGap(nFreqs, q + 1, nFrames);
    MultipleGap(nFreqs, nFrames, q + 1);
  }

  /** A float tensor has `data` of as many elements as its sizes say. */
  datatype Tensor = Tensor(isFloat: bool, sizes: seq<nat>, data: seq<real>)

  function AudioLen(nFrames: nat, hop: int, nFft: nat): int {
    (nFrames - 1) * hop + nFft
  }

  predicate ShapesAccepted(re: Tensor, im: Tensor, nFft: int) {
    && |re.sizes| == 3 && |im.sizes| == 3 && re.isFloat && im.isFloat
    && nFft >= 2 && re.sizes[1] == nFft / 2 + 1
  }

  ghost predicate ReadsFit(re: Tensor, im: Tensor, nFft: int) {
    ShapesAccepted(re, im, nFft) ==>
      |re.data| == |im.data| == re.sizes[0] * (re.sizes[1] * re.sizes[2])
  }

  /** What the kernel reads of batch number k. */
  function BatchOf(re: Tensor, im: Tensor, window: seq<real>, fft: InverseFft, k: nat): Batch
    requires |re.sizes| == 3
  {
    NonNegativeProduct(re.sizes[1], re.sizes[2]);
    NonNegativeProduct(k, re.sizes[1] * re.sizes[2]);
    Batch(re.data, im.data, k * (re.sizes[1] * re.sizes[2]), re.sizes[2], window, fft)
  }

  lemma BatchIsValid(re: Tensor, im: Tensor, nFft: int, window: seq<real>, fft: InverseFft, k: nat)
    requires ShapesAccepted(re, im, nFft) && ReadsFit(re, im, nFft) && |window| == nFft && k < re.sizes[0]
    requires forall s :: fft(s).Some? ==> |fft(s).value| == nFft
    ensures BatchOf(re, im, window, fft, k).Valid()
  {
    var work := re.sizes[1] * re.sizes[2];
    NonNegativeProduct(re.sizes[1], re.sizes[2]);
    RowFits(re.sizes[0], work, k);
    RowStartIsProduct(work, k);
    RowStartIsProduct(work, re.sizes[0]);
  }

  /** The windowed frames of a batch whose frames all succeed. */
  ghost function FrameRows(b: Batch): (rows: seq<seq<real>>)
    requires b.Valid() && AllSucceed(Frames(b), b.nFrames)
    ensures |rows| == b.nFrames
    ensures forall t :: 0 <= t < |rows| ==> Frames(b)(t) == Some(rows[t]) && |rows[t]| == b.NFft()
  {
    seq(b.nFrames, t requires 0 <= t < b.nFrames => Frames(b)(t).value)
  }

  /** Every frame of the batch succeeds and `audio` is its output. */
  ghost predicate Reconstructed(b: Batch, hop: int, audio: seq<real>) {
    && b.Valid()
    && AllSucceed(Frames(b), b.nFrames)
    && forall s :: 0 <= s < |audio| ==> audio[s] == Sample(FrameRows(b), b.window, hop, |audio|, s)
  }

  function SplitRows(flat: seq<real>, w: nat, n: nat): (rows: seq<seq<real>>)
    requires |flat| == RowStart(w, n)
    ensures |rows| == n
  {
    seq(n, t requires 0 <= t < n => RowFits(n, w, t); Row(flat, w, t))
  }

  lemma CompleteRows(b: Batch, flat: seq<real>)
    requires b.Valid() && Complete(Frames(b), b.NFft(), b.nFrames, flat)
    ensures AllSucceed(Frames(b), b.nFrames)
    ensures SplitRows(flat, b.NFft(), b.nFrames) == FrameRows(b)
  {
    forall t | 0 <= t < b.nFrames
      ensures Frames(b)(t).Some? && SplitRows(flat, b.NFft(), b.nFrames)[t] == FrameRows(b)[t]
    {
      assert Frames(b)(t) == Some(Row(flat, b.NFft(), t));
    }
  }

  /** Stage 1 as dispatched for a batch: over the pool or in one piece. */
  method DispatchStage1(b: Batch, workers: Option<nat>) returns (ok: bool, flat: seq<real>)
    requires b.Valid()
    ensures ok <==> AllSucceed(Frames(b), b.nFrames)
    ensures ok ==> Complete(Frames(b), b.NFft(), b.nFrames, flat)
  {
    NonNegativeProduct(b.nFrames, b.NFft());
    var windowed := new real[b.nFrames * b.NFft()](_ => 0.0);
    RowStartIsProduct(b.NFft(), b.nFrames);
    NonNegativeProduct(b.NFreqs(), b.nFrames);
    var threshold := ParFrameThreshold(b.NFreqs() * b.nFrames, b.nFrames);
    var pool := if threshold.Some? then workers else None;
    PlanIsPartition(b.nFrames, threshold.GetOr(0), pool);
    ok := Stage1(b, Plan(b.nFrames, threshold.GetOr(0), pool), windowed);
    flat := windowed[..];
  }

  method IstftBatch(b: Batch, hop: int, audioLen: nat, workers: Option<nat>) returns (ok: bool, audio: array<real>)
    requires b.Valid()
    ensures fresh(audio) && audio.Length == audioLen
    ensures ok <==> forall t: nat :: t < b.nFrames ==> b.fft(Spectrum(b, t)).Some?
    ensures ok ==> Reconstructed(b, hop, audio[..])
  {
    audio := new real[audioLen](_ => 0.0);
    var flat;
    ok, flat := DispatchStage1(b, workers);
    SuccessMeansAccepted(b);
    if ok {
      CompleteRows(b, flat);
      Stage2(SplitRows(flat, b.NFft(), b.nFrames), b.window, hop, audio);
    }
  }

  /** The first n batches have been written to the flat output. */
  ghost predicate BatchesDone(re: Tensor, im: Tensor, window: seq<real>, fft: InverseFft, hop: int,
                              audioLen: nat, n: nat, out: seq<real>)
    requires |re.sizes| == 3
  {
    forall k: nat {:trigger Row(out, audioLen, k)} :: k < n ==>
      Reconstructed(BatchOf(re, im, window, fft, k), hop, Row(out, audioLen, k))
  }

  lemma BatchWritten(re: Tensor, im: Tensor, window: seq<real>, fft: InverseFft, hop: int,
                     audioLen: nat, range: nat, n: nat, before: seq<real>, audio: seq<real>)
    requires |re.sizes| == 3 && n < range && |before| == RowStart(audioLen, range) && |audio| == audioLen
    requires BatchesDone(re, im, window, fft, hop, audioLen, n, before)
    requires Reconstructed(BatchOf(re, im, window, fft, n), hop, audio)
    ensures BatchesDone(re, im, window, fft, hop, audioLen, n + 1, Put(before, audioLen, n, audio))
  {
    RowFits(range, audioLen, n);
    var after := Put(before, audioLen, n, audio);
    forall k: nat {:trigger Row(after, audioLen, k)} | k < n + 1
      ensures Reconstructed(BatchOf(re, im, window, fft, k), hop, Row(after, audioLen, k))
    {
      RowAfterPut(before, audioLen, range, n, audio, k);
    }
  }

  /** The inverse FFT rejects some column of the batch. */
  ghost predicate Rejected(b: Batch) {
    b.Valid() && exists t: nat :: t < b.nFrames && b.fft(Spectrum(b, t)).None?
  }

  /**
   The operator over all batches. `resizeOk` says whether `out` could be resized to
   [batch, audio_len]; `hann` supplies the window. On Ok every batch of the output is the
   reconstruction of that batch's frames; Internal reports that some frame was rejected.
   */
  method IstftOut(re: Tensor, im: Tensor, nFft: int, hop: int, hann: nat -> seq<real>, fft: InverseFft,
                  workers: Option<nat>, resizeOk: bool, out: array<real>)
    returns (status: Status)
    requires ReadsFit(re, im, nFft) && forall n :: |hann(n)| == n
    requires forall s :: fft(s).Some? ==> |fft(s).value| == nFft
    requires ShapesAccepted(re, im, nFft) && resizeOk ==>
      var audioLen := AudioLen(re.sizes[2], hop, nFft);
      audioLen >= 0 && out.Length == re.sizes[0] * audioLen
    modifies out
    ensures status.InvalidArgument? <==>
      !(&& |re.sizes| == 3 && |im.sizes| == 3 && re.isFloat && im.isFloat
        && nFft >= 2 && re.sizes[1] == nFft / 2 + 1 && resizeOk)
    ensures status.InvalidArgument? ==> out[..] == old(out[..])
    ensures status.Ok? ==>
      BatchesDone(re, im, hann(nFft), fft, hop, AudioLen(re.sizes[2], hop, nFft), re.sizes[0], out[..])
    ensures status.Internal? ==>
      exists k: nat :: k < re.sizes[0] && Rejected(BatchOf(re, im, hann(nFft), fft, k))
  {
    if !(|re.sizes| == 3 && |im.sizes| == 3 && re.isFloat && im.isFloat && nFft >= 2) {
      return InvalidArgument;
    }
    var batch, nFreqs, nFrames := re.sizes[0], re.sizes[1], re.sizes[2];
    if nFreqs != nFft / 2 + 1 || !resizeOk {
      return InvalidArgument;
    }
    var audioLen: nat := AudioLen(nFrames, hop, nFft);
    var window := hann(nFft);
    RowStartIsProduct(audioLen, batch);
    for k := 0 to batch
      invariant BatchesDone(re, im, window, fft, hop, audioLen, k, out[..])
    {
      BatchIsValid(re, im, nFft, window, fft, k);
      var ok, audio := IstftBatch(BatchOf(re, im, window, fft, k), hop, audioLen, workers);
      if !ok {
        return Internal;
      }
      BatchWritten(re, im, window, fft, hop, audioLen, batch, k, out[..], audio[..]);
      CopyRow(audio, out, k, batch, audioLen);
    }
    return Ok;
  }

  /** Fills row k of the flat output. */
  method CopyRow(row: array<real>, out: array<real>, k: nat, range: nat, w: nat)
    requires row != out && row.Length == w && k < range && out.Length == RowStart(w, range)
    modifies out
    ensures out[..] == Put(old(out[..]), w, k, row[..])
  {
    RowFits(range, w, k);
    RowStartIsProduct(w, k);
    var off := k * w;
    for i := 0 to w
      invariant forall j :: 0 <= j < out.Length ==>
        out[j] == if off <= j < off + i then row[j - off] else old(out[j])
    {
      out[off + i] := row[i];
    }
    PutElements(old(out[..]), out[..], w, range, k, row[..]);
  }
}
