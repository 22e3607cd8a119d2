/** Index arithmetic shared by the short-time Fourier transforms: reflect padding, the frame
    count, frame windows and the `[bin, frame, re/im]` layout of a spectrogram. The sample values
    are opaque: windowing and the discrete Fourier transforms are parameters of the model. */
module Framing {
  import opened Shape

  /** One complex bin, `DSPComplex`. */
  datatype Complex = Complex(re: real, im: real)

  /** Component 0 is the real part, component 1 the imaginary part. */
  function Component(z: Complex, c: int): real
  {
    if c == 0 then z.re else z.im
  }

  /** Swift's `/` on `Int` by a positive divisor, which rounds toward zero (Dafny's `/` rounds
      toward negative infinity). */
  function TruncDiv(a: int, b: int): (q: int)
    requires b > 0
    ensures a >= 0 ==> 0 <= a - q * b < b
    ensures a < 0 ==> 0 <= q * b - a < b
  {
    if a >= 0 then a / b
    else
      var m := (-a) / b;
      assert -a == m * b + (-a) % b;
      assert (-m) * b == -(m * b);
      -m
  }

  /** The frame count as the source computes it:
      `max(0, (totalLength - n_fft) / hop + 1)` with Swift's truncating division. */
  function FrameCountAsWritten(totalLength: int, nFft: int, hop: int): int
    requires hop >= 1
  {
    var q := TruncDiv(totalLength - nFft, hop) + 1;
    if q > 0 then q else 0
  }

  /** The number of windows of `nFft` samples, `hop` apart, that lie inside `totalLength` samples. */
  function FrameCount(totalLength: int, nFft: int, hop: int): nat
    requires hop >= 1
  {
    if totalLength >= nFft then (totalLength - nFft) / hop + 1 else 0
  }

  /** Frame `f` fits in the input exactly when it is one of the counted frames. */
  lemma FrameFits(totalLength: int, nFft: int, hop: int, f: int)
    requires hop >= 1 && f >= 0
    ensures f < FrameCount(totalLength, nFft, hop) <==> f * hop + nFft <= totalLength
  {
    MulMonotone(0, f, hop);
    if totalLength >= nFft {
      var d := totalLength - nFft;
      assert d == (d / hop) * hop + d % hop;
      if f <= d / hop {
        MulMonotone(f, d / hop, hop);
      } else {
        MulMonotone(d / hop + 1, f, hop);
        assert (d / hop + 1) * hop == (d / hop) * hop + hop;
      }
    }
  }

  /** Where the window fits, the source's count and the corrected count agree. */
  lemma FrameCountAgrees(totalLength: int, nFft: int, hop: int)
    requires hop >= 1 && totalLength >= nFft
    ensures FrameCountAsWritten(totalLength, nFft, hop) == FrameCount(totalLength, nFft, hop)
  {
  }

  /** The two counts differ exactly when the input is shorter than one window by less than a hop:
      then truncation toward zero yields one frame, whose window runs past the end of the input. */
  lemma {:induction false} FrameCountAsWrittenOverruns(totalLength: int, nFft: int, hop: int)
    requires hop >= 1
    ensures FrameCountAsWritten(totalLength, nFft, hop) != FrameCount(totalLength, nFft, hop)
      <==> nFft - hop < totalLength < nFft
    ensures nFft - hop < totalLength < nFft ==>
      FrameCountAsWritten(totalLength, nFft, hop) == 1 && 0 * hop + nFft > totalLength
  {
    if totalLength < nFft {
      var d := nFft - totalLength;
      assert TruncDiv(totalLength - nFft, hop) == -(d / hop);
      if d < hop {
        assert d / hop == 0;
      } else {
        assert d / hop >= 1;
      }
    }
  }

  /** An uncentred input of 5 samples with `n_fft` 8 and hop 4: the count as written is one
      frame, though that frame needs 8 samples and none fits. */
  lemma FrameCountOverrunExample()
    ensures FrameCountAsWritten(5, 8, 4) == 1 && FrameCount(5, 8, 4) == 0
  {
    FrameCountAsWrittenOverruns(5, 8, 4);
  }

  /** `n_fft / 2 + 1`: the bins of a one-sided spectrum, frequencies `0 ..= n_fft / 2`. */
  function HalfSize(nFft: int): (h: int)
    ensures nFft >= 0 ==> h >= 1 && 2 * (h - 1) <= nFft < 2 * h
  {
    nFft / 2 + 1
  }

  /** The window of frame `f`, one of the counted frames: samples `[f * hop, f * hop + nFft)`. */
  function Frame(x: seq<real>, f: int, hop: int, nFft: int): (frame: seq<real>)
    requires hop >= 1 && nFft >= 0 && 0 <= f < FrameCount(|x|, nFft, hop)
    ensures f * hop + nFft <= |x|
    ensures |frame| == nFft
    ensures forall i :: 0 <= i < nFft ==> frame[i] == x[f * hop + i]
  {
    FrameFits(|x|, nFft, hop, f);
    MulMonotone(0, f, hop);
    x[f * hop .. f * hop + nFft]
  }

  function Reversed<T>(s: seq<T>): (r: seq<T>)
    ensures |r| == |s|
  {
    if s == [] then [] else Reversed(s[1..]) + [s[0]]
  }

  lemma {:induction false} ReversedAt<T>(s: seq<T>, k: int)
    requires 0 <= k < |s|
    ensures Reversed(s)[k] == s[|s| - 1 - k]
  {
    if k < |s| - 1 {
      ReversedAt(s[1..], k);
    }
  }

  /** Reflect padding (PyTorch's `pad_mode='reflect'`): the `pad` samples after the first one,
      mirrored, then the input, then the `pad` samples before the last one, mirrored. Padding by
      more than `count - 1` is a precondition failure. */
  function ReflectPad<T>(input: seq<T>, pad: int): (out: seq<T>)
    requires 0 <= pad <= |input| - 1
    ensures |out| == |input| + 2 * pad
    ensures out[pad .. pad + |input|] == input
    ensures forall k :: 0 <= k < pad ==> out[k] == input[pad - k]
    ensures forall k :: pad + |input| <= k < |out| ==> out[k] == input[2 * |input| + pad - 2 - k]
  {
    var left := Reversed(input[1..pad + 1]);
    var right := Reversed(input[|input| - pad - 1 .. |input| - 1]);
    var out := left + input + right;
    forall k | 0 <= k < pad
      ensures out[k] == input[pad - k]
    {
      ReversedAt(input[1..pad + 1], k);
    }
    forall k | pad + |input| <= k < |out|
      ensures out[k] == input[2 * |input| + pad - 2 - k]
    {
      ReversedAt(input[|input| - pad - 1 .. |input| - 1], k - pad - |input|);
    }
    out
  }

  /** The example in the documentation of `reflectPad`. */
  lemma ReflectPadExample()
    ensures ReflectPad([1, 2, 3, 4, 5], 2) == [3, 2, 1, 2, 3, 4, 5, 4, 3]
  {
    var out := ReflectPad([1, 2, 3, 4, 5], 2);
    assert out[0] == 3 && out[1] == 2 && out[7] == 4 && out[8] == 3;
    assert out[2..7] == [1, 2, 3, 4, 5] by {
      forall i | 0 <= i < 5 ensures out[2..7][i] == [1, 2, 3, 4, 5][i] {
        assert out[2 + i] == [1, 2, 3, 4, 5][i];
      }
    }
  }

  /** The signal the frames are taken from: reflect-padded by `n_fft / 2` on both sides when centred. */
  function Padded(input: seq<real>, nFft: int, center: bool): (x: seq<real>)
    requires nFft >= 0 && (center ==> nFft / 2 <= |input| - 1)
    ensures var pad := if center then nFft / 2 else 0;
      |x| == |input| + 2 * pad && x[pad .. pad + |input|] == input
  {
    if center then ReflectPad(input, nFft / 2) else input
  }

  /** The per-frame transform (Hann window, then the real forward DFT) yields `n_fft / 2 + 1` bins. */
  ghost predicate Analyzes(analyze: seq<real> -> seq<Complex>, nFft: int)
  {
    forall frame: seq<real> :: |frame| == nFft ==> |analyze(frame)| == HalfSize(nFft)
  }

  /** The shape of a spectrogram: `[n_fft / 2 + 1, nFrames, 2]`. */
  function StftShape(totalLength: int, nFft: int, hop: int): (shape: seq<int>)
    requires nFft >= 0 && hop >= 1
    ensures |shape| == 3 && ValidShape(shape)
  {
    [HalfSize(nFft), FrameCount(totalLength, nFft, hop), 2]
  }

  /** Cell `[k, f, c]` of `cells` holds component `c` of bin `k` of the transform of frame `f` of `x`. */
  ghost predicate CellHolds(cells: seq<real>, x: seq<real>, nFft: int, hop: int, analyze: seq<real> -> seq<Complex>,
                            k: int, f: int, c: int)
    requires nFft >= 0 && hop >= 1 && Analyzes(analyze, nFft)
    requires |cells| == Product(StftShape(|x|, nFft, hop))
    requires 0 <= k < HalfSize(nFft) && 0 <= f < FrameCount(|x|, nFft, hop) && 0 <= c < 2
  {
    ElementAt(cells, StftShape(|x|, nFft, hop), [k, f, c]) == Component(analyze(Frame(x, f, hop, nFft))[k], c)
  }

  /** `cells` is the row-major spectrogram of `x`, laid out `[bin, frame, re/im]`. */
  ghost predicate IsStftOf(cells: seq<real>, x: seq<real>, nFft: int, hop: int, analyze: seq<real> -> seq<Complex>)
    requires nFft >= 0 && hop >= 1 && Analyzes(analyze, nFft)
  {
    && |cells| == Product(StftShape(|x|, nFft, hop))
    && forall k, f, c | 0 <= k < HalfSize(nFft) && 0 <= f < FrameCount(|x|, nFft, hop) && 0 <= c < 2 ::
         CellHolds(cells, x, nFft, hop, analyze, k, f, c)
  }

  /** The cells of the first `frames` frames, and the first `bins` bins of frame `frames`, hold
      their spectrogram values: the region a frame-major, bin-minor fill has reached. */
  ghost predicate Filled(cells: seq<real>, x: seq<real>, nFft: int, hop: int, analyze: seq<real> -> seq<Complex>,
                         frames: int, bins: int)
    requires nFft >= 0 && hop >= 1 && Analyzes(analyze, nFft)
    requires |cells| == Product(StftShape(|x|, nFft, hop))
  {
    forall k, f, c | 0 <= k < HalfSize(nFft) && 0 <= f < FrameCount(|x|, nFft, hop) && 0 <= c < 2
                     && (f < frames || (f == frames && k < bins)) ::
      CellHolds(cells, x, nFft, hop, analyze, k, f, c)
  }

  /** Finishing every bin of a frame is the same as starting the next frame. */
  lemma FilledNextFrame(cells: seq<real>, x: seq<real>, nFft: int, hop: int, analyze: seq<real> -> seq<Complex>,
                        frames: int)
    requires nFft >= 0 && hop >= 1 && Analyzes(analyze, nFft)
    requires |cells| == Product(StftShape(|x|, nFft, hop))
    requires Filled(cells, x, nFft, hop, analyze, frames, HalfSize(nFft))
    ensures Filled(cells, x, nFft, hop, analyze, frames + 1, 0)
  {
  }

  /** Having filled every frame is being the spectrogram. */
  lemma FilledAll(cells: seq<real>, x: seq<real>, nFft: int, hop: int, analyze: seq<real> -> seq<Complex>)
    requires nFft >= 0 && hop >= 1 && Analyzes(analyze, nFft)
    requires |cells| == Product(StftShape(|x|, nFft, hop))
    ensures Filled(cells, x, nFft, hop, analyze, FrameCount(|x|, nFft, hop), 0) <==> IsStftOf(cells, x, nFft, hop, analyze)
  {
  }

  /** Writing one cell keeps every other cell as it was. */
  lemma WriteKeepsCell(cells: seq<real>, x: seq<real>, nFft: int, hop: int, analyze: seq<real> -> seq<Complex>,
                       written: seq<int>, v: real, k: int, f: int, c: int)
    requires nFft >= 0 && hop >= 1 && Analyzes(analyze, nFft)
    requires |cells| == Product(StftShape(|x|, nFft, hop))
    requires ValidIndex(written, StftShape(|x|, nFft, hop))
    requires 0 <= k < HalfSize(nFft) && 0 <= f < FrameCount(|x|, nFft, hop) && 0 <= c < 2
    requires [k, f, c] != written && CellHolds(cells, x, nFft, hop, analyze, k, f, c)
    ensures CellHolds(WriteElement(cells, StftShape(|x|, nFft, hop), written, v), x, nFft, hop, analyze, k, f, c)
  {
    WriteThenRead(cells, StftShape(|x|, nFft, hop), written, [k, f, c], v);
  }

  /** Writing the right value into a cell establishes it. */
  lemma WriteSetsCell(cells: seq<real>, x: seq<real>, nFft: int, hop: int, analyze: seq<real> -> seq<Complex>,
                      k: int, f: int, c: int)
    requires nFft >= 0 && hop >= 1 && Analyzes(analyze, nFft)
    requires |cells| == Product(StftShape(|x|, nFft, hop))
    requires 0 <= k < HalfSize(nFft) && 0 <= f < FrameCount(|x|, nFft, hop) && 0 <= c < 2
    ensures CellHolds(WriteElement(cells, StftShape(|x|, nFft, hop), [k, f, c],
                             Component(analyze(Frame(x, f, hop, nFft))[k], c)),
                x, nFft, hop, analyze, k, f, c)
  {
    var shape := StftShape(|x|, nFft, hop);
    WriteThenRead(cells, shape, [k, f, c], [k, f, c], Component(analyze(Frame(x, f, hop, nFft))[k], c));
  }

  /** A spectrogram is determined cell by cell: every cell is the image of exactly one
      `(bin, frame, component)` triple. */
  lemma StftDetermined(a: seq<real>, b: seq<real>, x: seq<real>, nFft: int, hop: int, analyze: seq<real> -> seq<Complex>)
    requires nFft >= 0 && hop >= 1 && Analyzes(analyze, nFft)
    requires IsStftOf(a, x, nFft, hop, analyze) && IsStftOf(b, x, nFft, hop, analyze)
    ensures a == b
  {
    var shape := StftShape(|x|, nFft, hop);
    forall index | ValidIndex(index, shape)
      ensures ElementAt(a, shape, index) == ElementAt(b, shape, index)
    {
      assert index == [index[0], index[1], index[2]];
      assert CellHolds(a, x, nFft, hop, analyze, index[0], index[1], index[2]);
      assert CellHolds(b, x, nFft, hop, analyze, index[0], index[1], index[2]);
    }
    ElementsDetermineCells(a, b, shape);
  }

  /** The forward transform's test: 16 samples, `n_fft` 8, hop 4, centred, give a `[5, 5, 2]` spectrogram. */
  lemma StftShapeExample(x: seq<real>)
    requires |x| == 16
    ensures StftShape(|Padded(x, 8, true)|, 8, 4) == [5, 5, 2]
  {
  }
}
