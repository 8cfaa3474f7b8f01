/**
 What the inverse transform is for: it gives back the signal that was analysed.
 */
module IstftReconstruction {
  import opened Arith
  import opened ChunkedParallel
  import opened FlatRows
  import opened Istft
  import opened Wrappers

  // ---- The accumulators over a signal ----

  /** A row holds the samples of x from `start` on, times the squared window. */
  ghost predicate RowMatches(row: seq<real>, start: int, x: seq<real>, window: seq<real>) {
    && |row| == |window| && start >= 0
    && forall i :: 0 <= i < |row| && start + i < |x| ==> row[i] == x[start + i] * (window[i] * window[i])
  }

  ghost predicate WindowedTwice(rows: seq<seq<real>>, x: seq<real>, window: seq<real>, hop: nat) {
    forall t :: 0 <= t < |rows| ==> RowMatches(rows[t], t * hop, x, window)
  }

  lemma OverlapSumStep(rows: seq<seq<real>>, hop: nat, s: int, n: nat)
    requires n > 0 && n == |rows|
    ensures OverlapSum(rows, hop, s) == OverlapSum(rows[..n - 1], hop, s) + Term(rows[n - 1], (n - 1) * hop, s)
  {
  }

  /** The overlap sum of such rows is the sample times the squared-window sum. */
  lemma {:induction false} SumFactorsOut(rows: seq<seq<real>>, x: seq<real>, window: seq<real>, hop: nat,
                                       s: nat, n: nat)
    requires WindowedTwice(rows, x, window, hop) && s < |x| && n == |rows|
    ensures Multiple(OverlapSum(rows, hop, s), x[s], OverlapSum(SquareRows(window, n), hop, s))
  {
    if n == 0 {
      TimesZero(x[s]);
    } else {
      var row, start := rows[n - 1], (n - 1) * hop;
      assert RowMatches(row, start, x, window);
      SumFactorsOut(rows[..n - 1], x, window, hop, s, n - 1);
      TermFactorsOut(row, start, x, window, s);
      OverlapSumStep(rows, hop, s, n);
      SquareSumStep(window, n, hop, s);
      AddMultiples(OverlapSum(rows[..n - 1], hop, s), OverlapSum(SquareRows(window, n - 1), hop, s),
                   Term(row, start, s), Term(Squares(window), start, s), x[s],
                   OverlapSum(rows, hop, s), OverlapSum(SquareRows(window, n), hop, s));
    }
  }

  lemma SquareSumStep(window: seq<real>, n: nat, hop: nat, s: int)
    requires n > 0
    ensures OverlapSum(SquareRows(window, n), hop, s)
         == OverlapSum(SquareRows(window, n - 1), hop, s) + Term(Squares(window), (n - 1) * hop, s)
  {
    assert SquareRows(window, n)[..n - 1] == SquareRows(window, n - 1);
  }

  lemma TermFactorsOut(row: seq<real>, start: int, x: seq<real>, window: seq<real>, s: nat)
    requires RowMatches(row, start, x, window) && s < |x|
    ensures Multiple(Term(row, start, s), x[s], Term(Squares(window), start, s))
  {
    if start <= s < start + |row| {
      assert row[s - start] == x[start + (s - start)] * (window[s - start] * window[s - start]);
    } else {
      TimesZero(x[s]);
    }
  }

  lemma {:induction false} SquaresNonNegative(window: seq<real>, n: nat, hop: nat, s: int)
    ensures OverlapSum(SquareRows(window, n), hop, s) >= 0.0
  {
    if n == 0 {
    } else {
      SquaresNonNegative(window, n - 1, hop, s);
      SquareSumStep(window, n, hop, s);
      TermNonNegative(window, (n - 1) * hop, s);
    }
  }

  /** The squared-window sum is at least the contribution of any covering frame. */
  lemma {:induction false} CoverContributes(window: seq<real>, n: nat, hop: nat, s: nat, t: nat, i: nat)
    requires t < n && i == s - t * hop && i < |window|
    ensures OverlapSum(SquareRows(window, n), hop, s) >= Squares(window)[i]
  {
    SquareSumStep(window, n, hop, s);
    if t == n - 1 {
      SquaresNonNegative(window, n - 1, hop, s);
    } else {
      CoverContributes(window, n - 1, hop, s, t, i);
      TermNonNegative(window, (n - 1) * hop, s);
    }
  }

  /** Two adjacent frames contribute both their squares. */
  lemma {:induction false} TwoCoversContribute(window: seq<real>, n: nat, hop: nat, s: nat, t: nat, i: nat, j: nat)
    requires t + 1 < n && i == s - t * hop && j == s - (t + 1) * hop && i < |window| && j < |window|
    ensures OverlapSum(SquareRows(window, n), hop, s) >= Squares(window)[i] + Squares(window)[j]
  {
    SquareSumStep(window, n, hop, s);
    if t + 1 == n - 1 {
      CoverContributes(window, n - 1, hop, s, t, i);
    } else {
      TwoCoversContribute(window, n - 1, hop, s, t, i, j);
      TermNonNegative(window, (n - 1) * hop, s);
    }
  }

  lemma TermNonNegative(window: seq<real>, start: int, s: int)
    ensures Term(Squares(window), start, s) >= 0.0
  {
  }

  // ---- Which samples are covered ----

  /** The length guard of the overlap-add never cuts a frame short. */
  lemma FramesFit(nFrames: nat, hop: nat, nFft: nat, t: nat, i: nat)
    requires t < nFrames && i < nFft
    ensures 0 <= t * hop && t * hop + i < AudioLen(nFrames, hop, nFft)
  {
    NonNegativeProduct(t, hop);
    MultipleGap(hop, t, nFrames - 1);
    assert hop * t == t * hop && hop * (nFrames - 1) == (nFrames - 1) * hop;
  }

  /** A sample that survives the trim. */
  predicate Kept(nFft: nat, audioLen: int, s: nat) {
    nFft / 2 <= s < audioLen - nFft / 2
  }

  /**
   Every sample that survives the trim lies under some frame at an index other than 0.
   */
  lemma KeptSampleIsCovered(nFrames: nat, hop: nat, nFft: nat, s: nat) returns (t: nat)
    requires nFft >= 2 && 1 <= hop < nFft && nFrames >= 1
    requires Kept(nFft, AudioLen(nFrames, hop, nFft), s)
    ensures t < nFrames && 1 <= s - t * hop < nFft
  {
    var q := (s - 1) / hop;
    assert s - 1 == hop * q + (s - 1) % hop;
    if q < nFrames {
      t := q;
      assert t * hop == hop * q;
    } else {
      t := nFrames - 1;
      MultipleGap(hop, t, q);
      assert t * hop == hop * t;
    }
  }

  /**
   When frames overlap by at least half, it even lies in the hop that starts at a frame's centre.
   */
  lemma KeptSampleIsNearACentre(nFrames: nat, hop: nat, nFft: nat, s: nat) returns (t: nat)
    requires nFft >= 2 && 1 <= hop <= nFft - nFft / 2 && nFrames >= 1
    requires Kept(nFft, AudioLen(nFrames, hop, nFft), s)
    ensures t < nFrames && nFft / 2 <= s - t * hop < nFft / 2 + hop <= nFft
  {
    var m := s - nFft / 2;
    t := m / hop;
    assert m == hop * t + m % hop && t * hop == hop * t;
    MultipleGap(hop, nFrames - 1, t);
    assert hop * (nFrames - 1) == (nFrames - 1) * hop;
  }

  // ---- Main results ----

  /** The spectra come from analysing x: each inverse FFT, scaled, is x under the window. */
  ghost predicate AnalysisOf(b: Batch, x: seq<real>, hop: nat)
    requires b.Valid()
  {
    forall t: nat :: t < b.nFrames ==>
      && b.fft(Spectrum(b, t)).Some?
      && forall i :: 0 <= i < b.NFft() && 0 <= t * hop && t * hop + i < |x| ==>
           b.fft(Spectrum(b, t)).value[i] * (1.0 / b.NFft() as real) == x[t * hop + i] * b.window[i]
  }

  lemma AnalysisRows(b: Batch, x: seq<real>, hop: nat)
    requires b.Valid() && AnalysisOf(b, x, hop)
    ensures AllSucceed(Frames(b), b.nFrames)
    ensures WindowedTwice(FrameRows(b), x, b.window, hop)
  {
    assert forall t: nat :: t < b.nFrames ==> Frames(b)(t) == Frame(b, t);
    var rows := FrameRows(b);
    forall t: nat | t < |rows| ensures RowMatches(rows[t], t * hop, x, b.window) {
      NonNegativeProduct(t, hop);
      assert Frames(b)(t) == Some(rows[t]);
      var frame := b.fft(Spectrum(b, t)).value;
      assert rows[t] == Windowed(frame, b.window);
      forall i | 0 <= i < b.NFft() && t * hop + i < |x|
        ensures rows[t][i] == x[t * hop + i] * (b.window[i] * b.window[i])
      {
        assert frame[i] * (1.0 / b.NFft() as real) == x[t * hop + i] * b.window[i];
        AssociateReal(x[t * hop + i], b.window[i], b.window[i]);
      }
    }
  }

  lemma AssociateReal(x: real, y: real, z: real)
    ensures (x * y) * z == x * (y * z)
  {
  }

  /**
   Perfect reconstruction. From the spectra of x, the output is 0 in the padding at both ends and
   elsewhere equals x exactly where the squared-window sum exceeds the threshold, or x is silent.
   */
  lemma PerfectReconstruction(b: Batch, hop: nat, x: seq<real>, audio: seq<real>, s: nat)
    requires b.Valid() && AnalysisOf(b, x, hop)
    requires Reconstructed(b, hop, audio) && |audio| == |x| && s < |x|
    ensures s < b.NFft() / 2 || s >= |x| - b.NFft() / 2 ==> audio[s] == 0.0
    ensures b.NFft() / 2 <= s < |x| - b.NFft() / 2 ==>
      var norm := OverlapSum(SquareRows(b.window, b.nFrames), hop, s);
      && audio[s] == (if norm > 0.00000001 then x[s] else x[s] * norm)
      && (audio[s] == x[s] <==> x[s] == 0.0 || norm > 0.00000001)
  {
    AnalysisRows(b, x, hop);
    SumFactorsOut(FrameRows(b), x, b.window, hop, s, b.nFrames);
    var sum, norm := OverlapSum(FrameRows(b), hop, s), OverlapSum(SquareRows(b.window, b.nFrames), hop, s);
    assert audio[s] == Sample(FrameRows(b), b.window, hop, |x|, s);
    if norm > COLA_THRESHOLD {
      DivideOut(x[s], norm, sum);
    } else {
      ScaledDown(x[s], norm, sum);
    }
  }

  lemma DivideOut(x: real, n: real, y: real)
    requires n > 0.0 && Multiple(y, x, n)
    ensures y / n == x
  {
  }

  /** Scaling by less than 1 changes every number but 0. */
  lemma ScaledDown(x: real, n: real, y: real)
    requires n < 1.0 && Multiple(y, x, n)
    ensures y == x <==> x == 0.0
  {
    TimesZero(n);
    assert x - y == x * (1.0 - n);
  }

  // ---- Windows that normalise every kept sample ----

  /** Every kept sample has a squared-window sum above the threshold. */
  ghost predicate WellCovered(window: seq<real>, nFrames: nat, hop: nat) {
    forall s: nat :: Kept(|window|, AudioLen(nFrames, hop, |window|), s) ==>
      OverlapSum(SquareRows(window, nFrames), hop, s) > COLA_THRESHOLD
  }

  /** The output is the signal at every kept sample. */
  ghost predicate GivenBack(nFft: nat, x: seq<real>, audio: seq<real>)
    requires |audio| == |x|
  {
    forall s: nat :: Kept(nFft, |x|, s) ==> audio[s] == x[s]
  }

  /** No kept sample of the signal is 0. */
  ghost predicate NowhereSilent(nFft: nat, x: seq<real>) {
    forall s: nat :: Kept(nFft, |x|, s) ==> x[s] != 0.0
  }

  /**
   Every kept sample is reconstructed when window, hop and frame count cover every kept sample;
   for a signal that is nowhere silent there, if and only if they do.
   */
  lemma EveryKeptSampleIsReconstructed(b: Batch, hop: nat, x: seq<real>, audio: seq<real>)
    requires b.Valid() && AnalysisOf(b, x, hop) && Reconstructed(b, hop, audio)
    requires |audio| == |x| == AudioLen(b.nFrames, hop, b.NFft())
    ensures WellCovered(b.window, b.nFrames, hop) ==> GivenBack(b.NFft(), x, audio)
    ensures NowhereSilent(b.NFft(), x) ==>
      (GivenBack(b.NFft(), x, audio) <==> WellCovered(b.window, b.nFrames, hop))
  {
    forall s: nat | Kept(b.NFft(), |x|, s)
      ensures audio[s] == x[s] <==>
        x[s] == 0.0 || OverlapSum(SquareRows(b.window, b.nFrames), hop, s) > COLA_THRESHOLD
    {
      PerfectReconstruction(b, hop, x, audio, s);
    }
  }

  /** The squared window exceeds the threshold at the indices lo .. hi - 1. */
  ghost predicate OpenWindow(window: seq<real>, lo: nat, hi: nat) {
    forall i :: lo <= i < hi && i < |window| ==> Squares(window)[i] > COLA_THRESHOLD
  }

  /**
   In the hop after the centre, the squares under two overlapping frames together exceed the
   threshold; in a window of odd length the centre itself does.
   */
  ghost predicate OpenPairs(window: seq<real>, hop: nat) {
    var centre := |window| / 2;
    && 1 <= hop <= centre
    && (forall i :: centre <= i < centre + hop && i < |window| ==>
          Squares(window)[i] + Squares(window)[i - hop] > COLA_THRESHOLD)
    && (|window| % 2 == 1 ==> Squares(window)[centre] > COLA_THRESHOLD)
  }

  /** Any one of three conditions on the window alone, for every number of frames. */
  ghost predicate OpenFor(window: seq<real>, hop: nat) {
    || OpenWindow(window, 1, |window|)
    || (hop <= |window| - |window| / 2 && OpenWindow(window, |window| / 2, |window| / 2 + hop))
    || OpenPairs(window, hop)
  }

  lemma KeptSampleIsNormalised(window: seq<real>, nFrames: nat, hop: nat, s: nat)
    requires |window| >= 2 && nFrames >= 1 && 1 <= hop < |window| && OpenFor(window, hop)
    requires Kept(|window|, AudioLen(nFrames, hop, |window|), s)
    ensures OverlapSum(SquareRows(window, nFrames), hop, s) > COLA_THRESHOLD
  {
    if OpenWindow(window, 1, |window|) {
      var t := KeptSampleIsCovered(nFrames, hop, |window|, s);
      CoverContributes(window, nFrames, hop, s, t, s - t * hop);
    } else {
      var t := KeptSampleIsNearACentre(nFrames, hop, |window|, s);
      var i := s - t * hop;
      if hop <= |window| - |window| / 2 && OpenWindow(window, |window| / 2, |window| / 2 + hop) {
        CoverContributes(window, nFrames, hop, s, t, i);
      } else if t + 1 < nFrames {
        assert (t + 1) * hop == t * hop + hop;
        TwoCoversContribute(window, nFrames, hop, s, t, i, i - hop);
      } else {
        LastFrame(nFrames, hop, |window|, s);
        CoverContributes(window, nFrames, hop, s, t, i);
      }
    }
  }

  /** A kept sample in the last frame comes before its centre, or is the centre of an odd frame. */
  lemma LastFrame(nFrames: nat, hop: nat, nFft: nat, s: nat)
    requires nFrames >= 1 && Kept(nFft, AudioLen(nFrames, hop, nFft), s)
    ensures s - (nFrames - 1) * hop < nFft - nFft / 2
  {
  }

  /** Such windows cover every kept sample, for any hop shorter than the frame. */
  lemma OpenWindowsCover(window: seq<real>, nFrames: nat, hop: nat)
    requires |window| >= 2 && nFrames >= 1 && 1 <= hop < |window| && OpenFor(window, hop)
    ensures WellCovered(window, nFrames, hop)
  {
    forall s: nat | Kept(|window|, AudioLen(nFrames, hop, |window|), s)
      ensures OverlapSum(SquareRows(window, nFrames), hop, s) > COLA_THRESHOLD
    {
      KeptSampleIsNormalised(window, nFrames, hop, s);
    }
  }

  lemma FramesHaveWidth(b: Batch)
    requires b.Valid()
    ensures RowsHaveWidth(Frames(b), b.NFft(), b.nFrames)
  {
  }

  /**
   The reconstruction does not depend on threads: however the frames are cut into chunks and
   the workers interleaved, a finished run succeeds exactly when every frame does, and its
   buffer then splits into the frames that stage 2 adds up.
   */
  lemma ReconstructionIsScheduleIndependent(b: Batch, chunks: seq<Chunk>, buf: seq<real>, s: State<real>)
    requires b.Valid() && Partition(chunks, 0, b.nFrames)
    requires FinalState(chunks, b.NFft(), b.nFrames, Frames(b), buf, s)
    ensures s.ok <==> AllSucceed(Frames(b), b.nFrames)
    ensures s.ok ==> |s.buf| == RowStart(b.NFft(), b.nFrames) && SplitRows(s.buf, b.NFft(), b.nFrames) == FrameRows(b)
  {
    FinalOutcome(chunks, b.NFft(), b.nFrames, Frames(b), buf, s);
    if s.ok {
      CompleteRows(b, s.buf);
    }
  }

  /** Such a run exists for every plan the dispatcher makes. */
  lemma PlannedRunFinishes(b: Batch, threshold: nat, workers: Option<nat>, buf: seq<real>) returns (s: State<real>)
    requires b.Valid() && |buf| == RowStart(b.NFft(), b.nFrames)
    ensures FinalState(Plan(b.nFrames, threshold, workers), b.NFft(), b.nFrames, Frames(b), buf, s)
  {
    PlanIsPartition(b.nFrames, threshold, workers);
    FramesHaveWidth(b);
    s := SomeRunFinishes(Plan(b.nFrames, threshold, workers), b.NFft(), b.nFrames, Frames(b), buf);
  }

  // ---- The operator ----

  /** Bin f of column t of batch k; the data of sizes [batch, bins, frames] is flat and row-major. */
  ghost predicate IsBin(re: Tensor, im: Tensor, nFft: nat, nFrames: nat, k: nat, t: nat, f: nat, c: Complex) {
    var i := (k * (nFft / 2 + 1) + f) * nFrames + t;
    && 0 <= i < |re.data| && i < |im.data|
    && c.re == re.data[i]
    && c.im == if f == 0 || 2 * f == nFft then 0.0 else im.data[i]
  }

  ghost predicate IsColumn(re: Tensor, im: Tensor, nFft: nat, nFrames: nat, k: nat, t: nat, column: seq<Complex>) {
    |column| == nFft / 2 + 1 && forall f :: 0 <= f < |column| ==> IsBin(re, im, nFft, nFrames, k, t, f, column[f])
  }

  /** What the kernel hands to the inverse FFT is that column. */
  lemma SpectrumIsColumn(re: Tensor, im: Tensor, nFft: nat, window: seq<real>, fft: InverseFft, k: nat, t: nat)
    requires ShapesAccepted(re, im, nFft) && ReadsFit(re, im, nFft) && |window| == nFft
    requires k < re.sizes[0] && t < re.sizes[2]
    requires forall s :: fft(s).Some? ==> |fft(s).value| == nFft
    ensures BatchOf(re, im, window, fft, k).Valid()
    ensures IsColumn(re, im, nFft, re.sizes[2], k, t, Spectrum(BatchOf(re, im, window, fft, k), t))
  {
    BatchIsValid(re, im, nFft, window, fft, k);
    var b := BatchOf(re, im, window, fft, k);
    forall f: nat | f < b.NFreqs()
      ensures IsBin(re, im, nFft, b.nFrames, k, t, f, Spectrum(b, t)[f])
    {
      SpectrumIsBin(re, im, b, k, t, f);
    }
  }

  lemma SpectrumIsBin(re: Tensor, im: Tensor, b: Batch, k: nat, t: nat, f: nat)
    requires b.Valid() && b.re == re.data && b.im == im.data && b.base == k * (b.NFreqs() * b.nFrames)
    requires t < b.nFrames && f < b.NFreqs()
    ensures IsBin(re, im, b.NFft(), b.nFrames, k, t, f, Spectrum(b, t)[f])
  {
    BinInRange(b, f, t);
    FlatIndex(k, b.NFreqs(), f, b.nFrames);
  }

  lemma FlatIndex(k: nat, n: nat, f: nat, m: nat)
    ensures (k * n + f) * m == k * (n * m) + f * m
  {
  }

  /** Signal number k is what the columns of batch k come from, by analysis with the window. */
  ghost predicate Analysed(re: Tensor, im: Tensor, nFft: nat, nFrames: nat, hop: nat, window: seq<real>,
                           fft: InverseFft, k: nat, x: seq<real>)
    requires |window| == nFft >= 2
    requires forall s :: fft(s).Some? ==> |fft(s).value| == nFft
  {
    forall t: nat, column :: t < nFrames && IsColumn(re, im, nFft, nFrames, k, t, column) ==>
      && fft(column).Some?
      && forall i :: 0 <= i < nFft && 0 <= t * hop && t * hop + i < |x| ==>
           fft(column).value[i] * (1.0 / nFft as real) == x[t * hop + i] * window[i]
  }

  lemma BatchGivesBack(re: Tensor, im: Tensor, nFft: nat, hop: nat, window: seq<real>, fft: InverseFft, k: nat,
                       x: seq<real>)
    requires ShapesAccepted(re, im, nFft) && ReadsFit(re, im, nFft) && |window| == nFft && k < re.sizes[0]
    requires forall s :: fft(s).Some? ==> |fft(s).value| == nFft
    requires Analysed(re, im, nFft, re.sizes[2], hop, window, fft, k, x)
    ensures BatchOf(re, im, window, fft, k).Valid() && AnalysisOf(BatchOf(re, im, window, fft, k), x, hop)
  {
    BatchIsValid(re, im, nFft, window, fft, k);
    var b := BatchOf(re, im, window, fft, k);
    forall t: nat | t < b.nFrames
      ensures IsColumn(re, im, nFft, b.nFrames, k, t, Spectrum(b, t))
    {
      SpectrumIsColumn(re, im, nFft, window, fft, k, t);
    }
  }

  /** Sample s of the output for the signal x, where the squared windows sum to norm. */
  ghost predicate BatchSample(y: real, x: seq<real>, nFft: nat, norm: real, s: nat)
    requires s < |x|
  {
    && (s < nFft / 2 || s >= |x| - nFft / 2 ==> y == 0.0)
    && (nFft / 2 <= s < |x| - nFft / 2 ==> y == if norm > 0.00000001 then x[s] else x[s] * norm)
  }

  /** Element k * audioLen + s of the flat output is sample s for the signal x. */
  ghost predicate SampleAt(x: seq<real>, nFft: nat, norm: real, audioLen: nat, out: seq<real>, k: nat, s: nat)
    requires s < |x|
  {
    0 <= k * audioLen + s < |out| && BatchSample(out[k * audioLen + s], x, nFft, norm, s)
  }

  /** The flat output holds every signal, its padding cleared. */
  ghost predicate GivesBack(xs: seq<seq<real>>, nFft: nat, hop: nat, window: seq<real>, nFrames: nat, audioLen: nat,
                            out: seq<real>) {
    forall k: nat, s: nat :: k < |xs| && s < audioLen == |xs[k]| ==>
      SampleAt(xs[k], nFft, OverlapSum(SquareRows(window, nFrames), hop, s), audioLen, out, k, s)
  }

  /**
   The operator gives back the signals its spectra were made from: every batch of the output is 0
   in the padding and the signal elsewhere, wherever the squared-window sum exceeds the threshold.
   */
  method ReconstructSignals(re: Tensor, im: Tensor, nFft: nat, hop: nat, hann: nat -> seq<real>, fft: InverseFft,
                  workers: Option<nat>, xs: seq<seq<real>>, audioLen: nat, out: array<real>)
    returns (status: Istft.Status)
    requires nFft >= 2 && |re.sizes| == 3 && |im.sizes| == 3 && re.isFloat && im.isFloat
    requires re.sizes[1] == nFft / 2 + 1 && |re.data| == |im.data| == re.sizes[0] * (re.sizes[1] * re.sizes[2])
    requires (forall n :: |hann(n)| == n) && forall s :: fft(s).Some? ==> |fft(s).value| == nFft
    requires audioLen == (re.sizes[2] - 1) * hop + nFft && out.Length == re.sizes[0] * audioLen
    requires |xs| == re.sizes[0]
    requires forall k :: 0 <= k < |xs| ==>
      |xs[k]| == audioLen && Analysed(re, im, nFft, re.sizes[2], hop, hann(nFft), fft, k, xs[k])
    modifies out
    ensures status.Ok?
    ensures GivesBack(xs, nFft, hop, hann(nFft), re.sizes[2], audioLen, out[..])
  {
    NoneRejected(re, im, nFft, hop, hann(nFft), fft, xs);
    status := IstftOut(re, im, nFft, hop, hann, fft, workers, true, out);
    OutputSamples(re, im, nFft, hop, hann(nFft), fft, xs, audioLen, out[..], |xs|);
  }

  /** Such a batch is not rejected. */
  lemma NoneRejected(re: Tensor, im: Tensor, nFft: nat, hop: nat, window: seq<real>, fft: InverseFft,
                     xs: seq<seq<real>>)
    requires ShapesAccepted(re, im, nFft) && ReadsFit(re, im, nFft) && |window| == nFft && |xs| == re.sizes[0]
    requires forall s :: fft(s).Some? ==> |fft(s).value| == nFft
    requires forall k :: 0 <= k < |xs| ==> Analysed(re, im, nFft, re.sizes[2], hop, window, fft, k, xs[k])
    ensures forall k: nat :: k < |xs| ==> !Istft.Rejected(BatchOf(re, im, window, fft, k))
  {
    forall k: nat | k < |xs|
      ensures !Istft.Rejected(BatchOf(re, im, window, fft, k))
    {
      BatchGivesBack(re, im, nFft, hop, window, fft, k, xs[k]);
      AnalysisRows(BatchOf(re, im, window, fft, k), xs[k], hop);
    }
  }

  lemma ReconstructedSample(b: Batch, hop: nat, x: seq<real>, audio: seq<real>, s: nat)
    requires b.Valid() && AnalysisOf(b, x, hop)
    requires Reconstructed(b, hop, audio) && |audio| == |x| && s < |x|
    ensures BatchSample(audio[s], x, b.NFft(), OverlapSum(SquareRows(b.window, b.nFrames), hop, s), s)
  {
    PerfectReconstruction(b, hop, x, audio, s);
  }

  /** Row k of the output is what batch k reconstructs. */
  lemma OutputRow(re: Tensor, im: Tensor, nFft: nat, hop: nat, window: seq<real>, fft: InverseFft, x: seq<real>,
                  audioLen: nat, out: seq<real>, k: nat, s: nat)
    requires ShapesAccepted(re, im, nFft) && ReadsFit(re, im, nFft) && |window| == nFft && k < re.sizes[0]
    requires forall s :: fft(s).Some? ==> |fft(s).value| == nFft
    requires Analysed(re, im, nFft, re.sizes[2], hop, window, fft, k, x) && s < audioLen == |x|
    requires BatchesDone(re, im, window, fft, hop, audioLen, re.sizes[0], out) && |Row(out, audioLen, k)| == audioLen
    ensures BatchSample(Row(out, audioLen, k)[s], x, nFft, OverlapSum(SquareRows(window, re.sizes[2]), hop, s), s)
  {
    BatchGivesBack(re, im, nFft, hop, window, fft, k, x);
    ReconstructedSample(BatchOf(re, im, window, fft, k), hop, x, Row(out, audioLen, k), s);
  }

  lemma OutputSample(re: Tensor, im: Tensor, nFft: nat, hop: nat, window: seq<real>, fft: InverseFft, x: seq<real>,
                     audioLen: nat, out: seq<real>, batch: nat, k: nat, s: nat)
    requires ShapesAccepted(re, im, nFft) && ReadsFit(re, im, nFft) && |window| == nFft && k < batch == re.sizes[0]
    requires forall s :: fft(s).Some? ==> |fft(s).value| == nFft
    requires Analysed(re, im, nFft, re.sizes[2], hop, window, fft, k, x) && s < audioLen == |x|
    requires BatchesDone(re, im, window, fft, hop, audioLen, batch, out) && |out| == batch * audioLen
    ensures SampleAt(x, nFft, OverlapSum(SquareRows(window, re.sizes[2]), hop, s), audioLen, out, k, s)
  {
    RowAt(out, audioLen, batch, k, s);
    OutputRow(re, im, nFft, hop, window, fft, x, audioLen, out, k, s);
  }

  lemma OutputSamples(re: Tensor, im: Tensor, nFft: nat, hop: nat, window: seq<real>, fft: InverseFft,
                      xs: seq<seq<real>>, audioLen: nat, out: seq<real>, batch: nat)
    requires ShapesAccepted(re, im, nFft) && ReadsFit(re, im, nFft) && |window| == nFft && |xs| == batch == re.sizes[0]
    requires forall s :: fft(s).Some? ==> |fft(s).value| == nFft
    requires forall k :: 0 <= k < |xs| ==>
      |xs[k]| == audioLen && Analysed(re, im, nFft, re.sizes[2], hop, window, fft, k, xs[k])
    requires BatchesDone(re, im, window, fft, hop, audioLen, batch, out) && |out| == batch * audioLen
    ensures GivesBack(xs, nFft, hop, window, re.sizes[2], audioLen, out)
  {
    forall k: nat, s: nat | k < |xs| && s < audioLen
      ensures SampleAt(xs[k], nFft, OverlapSum(SquareRows(window, re.sizes[2]), hop, s), audioLen, out, k, s)
    {
      OutputSample(re, im, nFft, hop, window, fft, xs[k], audioLen, out, batch, k, s);
    }
  }
}
