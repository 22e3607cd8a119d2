/** The inverse transform undoes the forward one: the spectrogram of a signal, taken back through
    the inverse transform, gives the signal again, given a per-frame synthesis that undoes the
    per-frame analysis wherever the window is not zero. */
module RoundTrip {
  import opened Shape
  import opened Framing
  import opened SourcesIstft

  /** Synthesis undoes analysis at every sample of a frame but the first (where the periodic Hann
      window vanishes). */
  ghost predicate Reconstructs(analyze: seq<real> -> seq<Complex>, synthesize: seq<Complex> -> seq<real>, nFft: int)
    requires Analyzes(analyze, nFft) && Synthesizes(synthesize, nFft)
  {
    forall frame: seq<real>, i | |frame| == nFft && 1 <= i < nFft :: synthesize(analyze(frame))[i] == frame[i]
  }

  /** The length the inverse transform returns for a spectrogram of `signal`: the signal length less
      the samples after the last whole frame, and less one more for an odd centred `n_fft`. */
  lemma {:induction false} RoundTripLength(signal: seq<real>, nFft: int, hop: int, center: bool)
    requires nFft >= 1 && hop >= 1
    requires center ==> nFft / 2 <= |signal| - 1
    requires !center ==> |signal| >= nFft
    ensures var x := Padded(signal, nFft, center);
      && |x| >= nFft && FrameCount(|x|, nFft, hop) >= 1
      && BufferLength(FrameCount(|x|, nFft, hop), nFft, hop, center)
         == |signal| - (|x| - nFft) % hop - (if center then nFft % 2 else 0)
  {
    var x := Padded(signal, nFft, center);
    var pad := PadAmount(nFft, center);
    assert |x| == |signal| + 2 * pad;
    var d := |x| - nFft;
    assert d >= 0 by {
      if center { assert nFft == 2 * (nFft / 2) + nFft % 2; }
    }
    var nFrames := FrameCount(|x|, nFft, hop);
    assert nFrames - 1 == d / hop;
    assert (nFrames - 1) * hop == d - d % hop;
    if center {
      assert 2 * pad == nFft - nFft % 2;
      assert BufferLength(nFrames, nFft, hop, center) == (nFrames - 1) * hop;
    } else {
      assert BufferLength(nFrames, nFft, hop, center) == (nFrames - 1) * hop + nFft;
    }
  }

  /** The forward transform's test signal of 16 samples comes back as 16 samples. */
  lemma RoundTripLengthExample()
    ensures BufferLength(5, 8, 4, true) == 16
  {
  }

  /** The bins the inverse transform reads for frame `f` of a spectrogram are the bins the forward
      transform stored. */
  lemma BinsOfStft(cells: seq<real>, x: seq<real>, nFft: int, hop: int, analyze: seq<real> -> seq<Complex>, f: int)
    requires nFft >= 0 && hop >= 1 && Analyzes(analyze, nFft)
    requires IsStftOf(cells, x, nFft, hop, analyze)
    requires 0 <= f < FrameCount(|x|, nFft, hop)
    ensures InputShapeOk(StftShape(|x|, nFft, hop), nFft)
    ensures FrameBins(cells, StftShape(|x|, nFft, hop), f, nFft) == analyze(Frame(x, f, hop, nFft))
  {
    var shape := StftShape(|x|, nFft, hop);
    var bins := FrameBins(cells, shape, f, nFft);
    var spectrum := analyze(Frame(x, f, hop, nFft));
    forall k | 0 <= k < HalfSize(nFft)
      ensures bins[k] == spectrum[k]
    {
      assert CellHolds(cells, x, nFft, hop, analyze, k, f, 0);
      assert CellHolds(cells, x, nFft, hop, analyze, k, f, 1);
    }
  }

  /** Where the winning frame reaches position `q` past its first sample, the inverse transform
      of a spectrogram returns the sample of the analysed signal at `q`. */
  lemma SampleOfStft(cells: seq<real>, x: seq<real>, nFft: int, hop: int, center: bool,
                     analyze: seq<real> -> seq<Complex>, synthesize: seq<Complex> -> seq<real>, p: int, f: int)
    requires nFft >= 1 && hop >= 1
    requires Analyzes(analyze, nFft) && Synthesizes(synthesize, nFft)
    requires Reconstructs(analyze, synthesize, nFft)
    requires IsStftOf(cells, x, nFft, hop, analyze)
    requires Winner(p + PadAmount(nFft, center), 0, FrameCount(|x|, nFft, hop), hop, nFft) == Some(f)
    requires p + PadAmount(nFft, center) - f * hop != 0
    ensures 0 <= p + PadAmount(nFft, center) < |x|
    ensures InputShapeOk(StftShape(|x|, nFft, hop), nFft)
    ensures IstftAt(cells, StftShape(|x|, nFft, hop), nFft, hop, center, synthesize, p)
         == Some(x[p + PadAmount(nFft, center)])
  {
    var shape := StftShape(|x|, nFft, hop);
    var q := p + PadAmount(nFft, center);
    BinsOfStft(cells, x, nFft, hop, analyze, f);
    var frame := Frame(x, f, hop, nFft);
    assert IstftAt(cells, shape, nFft, hop, center, synthesize, p)
        == Some(synthesize(FrameBins(cells, shape, f, nFft))[q - f * hop]);
    assert synthesize(analyze(frame))[q - f * hop] == frame[q - f * hop];
  }

  /** The padded signal holds sample `p` of the signal `PadAmount` positions further on. */
  lemma PaddedSample(signal: seq<real>, nFft: int, center: bool, p: int)
    requires nFft >= 0 && (center ==> nFft / 2 <= |signal| - 1)
    requires 0 <= p < |signal|
    ensures 0 <= p + PadAmount(nFft, center) < |Padded(signal, nFft, center)|
    ensures Padded(signal, nFft, center)[p + PadAmount(nFft, center)] == signal[p]
  {
    if center {
      var pad := nFft / 2;
      assert PadAmount(nFft, center) == pad;
      assert Padded(signal, nFft, center) == ReflectPad(signal, pad);
      assert ReflectPad(signal, pad)[pad + p] == signal[p];
    }
  }

  /** Every position the inverse transform returns lies in the signal and, when it is not the
      very first padded position, is covered by a winning frame at a non-zero frame offset. */
  lemma WinnerOfSample(signal: seq<real>, nFft: int, hop: int, center: bool, p: int)
    requires nFft >= 1 && 1 <= hop < nFft
    requires center ==> nFft / 2 <= |signal| - 1
    requires !center ==> |signal| >= nFft
    requires 0 <= p < BufferLength(FrameCount(|Padded(signal, nFft, center)|, nFft, hop), nFft, hop, center)
    requires p + PadAmount(nFft, center) >= 1
    ensures p < |signal|
    ensures var q := p + PadAmount(nFft, center);
      var w := Winner(q, 0, FrameCount(|Padded(signal, nFft, center)|, nFft, hop), hop, nFft);
      w.Some? && q - w.value * hop != 0
  {
    var x := Padded(signal, nFft, center);
    var nFrames := FrameCount(|x|, nFft, hop);
    var q := p + PadAmount(nFft, center);
    RoundTripLength(signal, nFft, hop, center);
    FullCoverage(q, nFrames, hop, nFft);
    var f := Winner(q, 0, nFrames, hop, nFft).value;
    NoOffsetZeroSurvives(q, nFrames, hop, nFft, f);
  }

  /** Every output sample of the inverse transform of the spectrogram of `signal` is the signal's
      sample at the same position, except the very first when nothing is padded (there the first
      sample of the first frame is the only one covering it). */
  lemma StftThenIstft(signal: seq<real>, nFft: int, hop: int, center: bool,
                      analyze: seq<real> -> seq<Complex>, synthesize: seq<Complex> -> seq<real>,
                      cells: seq<real>, p: int)
    requires nFft >= 1 && 1 <= hop < nFft
    requires center ==> nFft / 2 <= |signal| - 1
    requires !center ==> |signal| >= nFft
    requires Analyzes(analyze, nFft) && Synthesizes(synthesize, nFft)
    requires Reconstructs(analyze, synthesize, nFft)
    requires IsStftOf(cells, Padded(signal, nFft, center), nFft, hop, analyze)
    requires 0 <= p < BufferLength(FrameCount(|Padded(signal, nFft, center)|, nFft, hop), nFft, hop, center)
    requires p + PadAmount(nFft, center) >= 1
    ensures p < |signal|
    ensures InputShapeOk(StftShape(|Padded(signal, nFft, center)|, nFft, hop), nFft)
    ensures IstftAt(cells, StftShape(|Padded(signal, nFft, center)|, nFft, hop), nFft, hop, center, synthesize, p)
         == Some(signal[p])
  {
    var x := Padded(signal, nFft, center);
    var q := p + PadAmount(nFft, center);
    WinnerOfSample(signal, nFft, hop, center, p);
    var f := Winner(q, 0, FrameCount(|x|, nFft, hop), hop, nFft).value;
    SampleOfStft(cells, x, nFft, hop, center, analyze, synthesize, p, f);
    PaddedSample(signal, nFft, center, p);
  }
}
