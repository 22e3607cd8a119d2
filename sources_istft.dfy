/** `InverseShortTimeFourierTransform.callAsFunction`: frames are synthesised from the last to the
    first and every sample a frame covers is written into the output, so an output sample ends up
    holding the value of the FIRST frame that covers it. The inverse DFT of one frame and the
    division by the window are the parameter `synthesize`. */
module SourcesIstft {
  import opened Shape
  import opened Framing
  import opened SourcesMultiArray

  datatype Option<T> = None | Some(value: T)

  /** Frame `f` covers padded position `q`. */
  predicate Covers(f: int, q: int, hop: int, nFft: int)
  {
    f * hop <= q < f * hop + nFft
  }

  /** The first frame in `[lo, nFrames)` that covers position `q`, if any. */
  function Winner(q: int, lo: int, nFrames: int, hop: int, nFft: int): (w: Option<int>)
    requires lo >= 0
    ensures w.Some? ==> lo <= w.value < nFrames && Covers(w.value, q, hop, nFft)
    decreases nFrames - lo
  {
    if lo >= nFrames then None
    else if Covers(lo, q, hop, nFft) then Some(lo)
    else Winner(q, lo + 1, nFrames, hop, nFft)
  }

  /** `Winner` is exactly the least covering frame. */
  lemma {:induction false} WinnerIsFirstCovering(q: int, lo: int, nFrames: int, hop: int, nFft: int, f: int)
    requires lo >= 0
    ensures Winner(q, lo, nFrames, hop, nFft) == Some(f)
        <==> lo <= f < nFrames && Covers(f, q, hop, nFft)
             && forall g :: lo <= g < f ==> !Covers(g, q, hop, nFft)
    decreases nFrames - lo
  {
    if lo < nFrames && !Covers(lo, q, hop, nFft) {
      WinnerIsFirstCovering(q, lo + 1, nFrames, hop, nFft, f);
      if f > lo && lo < f && forall g :: lo + 1 <= g < f ==> !Covers(g, q, hop, nFft) {
        assert forall g :: lo <= g < f ==> !Covers(g, q, hop, nFft) by {
          forall g | lo <= g < f ensures !Covers(g, q, hop, nFft) {
            if g > lo {
              assert lo + 1 <= g < f;
            }
          }
        }
      }
    }
  }

  /** Some frame covers `q` as soon as any frame in range does, and the winner comes no later. */
  lemma {:induction false} WinnerFindsCover(q: int, lo: int, nFrames: int, hop: int, nFft: int, f: int)
    requires 0 <= lo <= f < nFrames && Covers(f, q, hop, nFft)
    ensures Winner(q, lo, nFrames, hop, nFft).Some? && Winner(q, lo, nFrames, hop, nFft).value <= f
    decreases f - lo
  {
    if !Covers(lo, q, hop, nFft) {
      WinnerFindsCover(q, lo + 1, nFrames, hop, nFft, f);
    }
  }

  /** With a hop no longer than a frame, the frames leave no gap: every position before
      `L = (nFrames - 1) * hop + n_fft` is covered by some frame. */
  lemma FullCoverage(q: int, nFrames: int, hop: int, nFft: int)
    requires 1 <= hop <= nFft && nFrames >= 1
    requires 0 <= q < (nFrames - 1) * hop + nFft
    ensures Winner(q, 0, nFrames, hop, nFft).Some?
  {
    var f := if q / hop < nFrames then q / hop else nFrames - 1;
    assert q == (q / hop) * hop + q % hop;
    if q / hop < nFrames {
      assert f * hop <= q < f * hop + hop;
    } else {
      MulMonotone(nFrames - 1, q / hop, hop);
    }
    assert Covers(f, q, hop, nFft);
    WinnerFindsCover(q, 0, nFrames, hop, nFft, f);
  }

  /** With frames overlapping (`hop < n_fft`), the first sample of a frame reaches the output only
      at position 0: any later position is covered by an earlier frame, which wins. The periodic
      Hann window is zero at its first sample, so that is the one sample the division by the
      window cannot recover. */
  lemma NoOffsetZeroSurvives(q: int, nFrames: int, hop: int, nFft: int, f: int)
    requires 1 <= hop < nFft && q >= 1
    requires Winner(q, 0, nFrames, hop, nFft) == Some(f)
    ensures q - f * hop != 0
  {
    WinnerIsFirstCovering(q, 0, nFrames, hop, nFft, f);
    if q == f * hop {
      assert f >= 1;
      assert (f - 1) * hop == f * hop - hop;
      assert Covers(f - 1, q, hop, nFft);
      assert false;
    }
  }

  /** `L - n_fft` when centred, else `L`, where `L = (nFrames - 1) * hop + n_fft`. */
  function BufferLength(nFrames: int, nFft: int, hop: int, center: bool): int
  {
    var l := (nFrames - 1) * hop + nFft;
    if center then l - nFft else l
  }

  /** The samples cut off the front of the overlap-added signal: `n_fft / 2` when centred. */
  function PadAmount(nFft: int, center: bool): int
  {
    if center then nFft / 2 else 0
  }

  /** The spectrogram shape the transform reads: the frame count `shape[1]`, and once there is a
      frame to read, `[bin, frame, re/im]` subscripts within range. */
  predicate InputShapeOk(shape: seq<int>, nFft: int)
  {
    && |shape| >= 2
    && (shape[1] >= 1 ==> |shape| == 3 && shape[0] >= HalfSize(nFft) && shape[2] >= 2)
  }

  /** The per-frame synthesis (inverse DFT, then division by the window) yields `n_fft` samples. */
  ghost predicate Synthesizes(synthesize: seq<Complex> -> seq<real>, nFft: int)
  {
    forall bins: seq<Complex> :: |bins| == HalfSize(nFft) ==> |synthesize(bins)| == nFft
  }

  /** The `n_fft / 2 + 1` bins of frame `f`, read as `input[index, f, 0]` and `input[index, f, 1]`. */
  function FrameBins(cells: seq<real>, shape: seq<int>, f: int, nFft: int): (bins: seq<Complex>)
    requires ValidShape(shape) && |cells| == Product(shape) && InputShapeOk(shape, nFft)
    requires nFft >= 0 && 0 <= f < shape[1]
    ensures |bins| == HalfSize(nFft)
  {
    seq(HalfSize(nFft), k requires 0 <= k < HalfSize(nFft) =>
      Complex(ElementAt(cells, shape, [k, f, 0]), ElementAt(cells, shape, [k, f, 1])))
  }

  /** What output sample `p` holds once frames `lo ..< nFrames` have been placed: the sample of
      the first of them that covers padded position `p + padAmount`, or nothing. */
  ghost function Expected(cells: seq<real>, shape: seq<int>, nFft: int, hop: int, center: bool,
                          synthesize: seq<Complex> -> seq<real>, p: int, lo: int): Option<real>
    requires ValidShape(shape) && |cells| == Product(shape) && InputShapeOk(shape, nFft)
    requires nFft >= 0 && lo >= 0 && Synthesizes(synthesize, nFft)
  {
    var q := p + PadAmount(nFft, center);
    match Winner(q, lo, shape[1], hop, nFft)
    case None => None
    case Some(f) => Some(synthesize(FrameBins(cells, shape, f, nFft))[q - f * hop])
  }

  /** The inverse transform, sample by sample: `None` where no frame reaches. */
  ghost function IstftAt(cells: seq<real>, shape: seq<int>, nFft: int, hop: int, center: bool,
                         synthesize: seq<Complex> -> seq<real>, p: int): Option<real>
    requires ValidShape(shape) && |cells| == Product(shape) && InputShapeOk(shape, nFft)
    requires nFft >= 0 && Synthesizes(synthesize, nFft)
  {
    Expected(cells, shape, nFft, hop, center, synthesize, p, 0)
  }

  /** With at least one frame and a hop no longer than a frame, every output sample is covered:
      the inverse transform leaves no sample of its `bufferLength` outputs unwritten. */
  lemma OutputCovered(cells: seq<real>, shape: seq<int>, nFft: int, hop: int, center: bool,
                      synthesize: seq<Complex> -> seq<real>)
    requires ValidShape(shape) && |cells| == Product(shape) && InputShapeOk(shape, nFft)
    requires 1 <= hop <= nFft && Synthesizes(synthesize, nFft)
    requires shape[1] >= 1
    ensures forall p | 0 <= p < BufferLength(shape[1], nFft, hop, center) ::
      IstftAt(cells, shape, nFft, hop, center, synthesize, p).Some?
  {
    forall p | 0 <= p < BufferLength(shape[1], nFft, hop, center)
      ensures IstftAt(cells, shape, nFft, hop, center, synthesize, p).Some?
    {
      FullCoverage(p + PadAmount(nFft, center), shape[1], hop, nFft);
    }
  }

  /** A spectrogram without frames still yields `bufferLength = n_fft - hop` samples when not
      centred, and no frame writes any of them. */
  lemma ZeroFramesWriteNothing(cells: seq<real>, shape: seq<int>, nFft: int, hop: int, center: bool,
                               synthesize: seq<Complex> -> seq<real>)
    requires ValidShape(shape) && |cells| == Product(shape) && InputShapeOk(shape, nFft)
    requires nFft >= 0 && Synthesizes(synthesize, nFft)
    requires shape[1] == 0
    ensures BufferLength(shape[1], nFft, hop, center) == nFft - hop - (if center then nFft else 0)
    ensures forall p :: IstftAt(cells, shape, nFft, hop, center, synthesize, p) == None
  {
  }

  /** An output sample and whether it was ever initialised, as an optional value. */
  function Sample(out: seq<real>, written: seq<bool>, p: int): Option<real>
    requires 0 <= p < |out| && |written| == |out|
  {
    if written[p] then Some(out[p]) else None
  }

  method Istft(input: MultiArray<real>, nFft: int, hop: int, center: bool, synthesize: seq<Complex> -> seq<real>)
    returns (out: seq<real>, ghost written: seq<bool>)
    requires input.Valid() && InputShapeOk(input.shape, nFft)
    requires nFft >= 1 && Synthesizes(synthesize, nFft)
    requires BufferLength(input.shape[1], nFft, hop, center) >= 0
    ensures |out| == |written| == BufferLength(input.shape[1], nFft, hop, center)
    ensures forall p | 0 <= p < |out| ::
      Sample(out, written, p) == IstftAt(input.buffer[..], input.shape, nFft, hop, center, synthesize, p)
    ensures forall p | 0 <= p < |out| && IstftAt(input.buffer[..], input.shape, nFft, hop, center, synthesize, p).Some? ::
      out[p] == IstftAt(input.buffer[..], input.shape, nFft, hop, center, synthesize, p).value
  {
    var nFrames := input.shape[1];
    var bufferLength := BufferLength(nFrames, nFft, hop, center);
    var padAmount := PadAmount(nFft, center);
    var buffer := new real[bufferLength];
    written := seq(bufferLength, _ => false);

    var frameIndex := nFrames - 1;
    while frameIndex >= 0
      invariant -1 <= frameIndex < nFrames
      invariant |written| == buffer.Length == bufferLength
      invariant forall p | 0 <= p < bufferLength ::
        Sample(buffer[..], written, p)
          == Expected(input.buffer[..], input.shape, nFft, hop, center, synthesize, p, frameIndex + 1)
    {
      var data := ReadBins(input, frameIndex, nFft);
      var frame := synthesize(data);
      written := PlaceFrame(input, nFft, hop, center, synthesize, frameIndex, frame, buffer, written);
      frameIndex := frameIndex - 1;
    }
    out := buffer[..];
  }

  /** The gathering loop: bin `index` of frame `frameIndex` from `input[index, frameIndex, 0/1]`. */
  method ReadBins(input: MultiArray<real>, frameIndex: int, nFft: int) returns (data: seq<Complex>)
    requires input.Valid() && InputShapeOk(input.shape, nFft)
    requires nFft >= 0 && 0 <= frameIndex < input.shape[1]
    ensures data == FrameBins(input.buffer[..], input.shape, frameIndex, nFft)
  {
    var halfSize := HalfSize(nFft);
    var bins := new Complex[halfSize];
    for index := 0 to halfSize
      invariant forall k | 0 <= k < index ::
        bins[k] == Complex(input.Get([k, frameIndex, 0]), input.Get([k, frameIndex, 1]))
    {
      bins[index] := Complex(input.Get([index, frameIndex, 0]), input.Get([index, frameIndex, 1]));
    }
    data := bins[..];
  }

  /** The offset loop of one frame: every covered position that survives the guard
      `index >= padAmount && index < bufferLength + padAmount` is overwritten with the frame's sample. */
  method PlaceFrame(input: MultiArray<real>, nFft: int, hop: int, center: bool,
                    synthesize: seq<Complex> -> seq<real>, frameIndex: int, frame: seq<real>,
                    buffer: array<real>, ghost written0: seq<bool>)
    returns (ghost written: seq<bool>)
    requires input.Valid() && InputShapeOk(input.shape, nFft)
    requires nFft >= 0 && Synthesizes(synthesize, nFft)
    requires 0 <= frameIndex < input.shape[1]
    requires frame == synthesize(FrameBins(input.buffer[..], input.shape, frameIndex, nFft))
    requires buffer != input.buffer && |written0| == buffer.Length
    requires forall p | 0 <= p < buffer.Length ::
      Sample(buffer[..], written0, p)
        == Expected(input.buffer[..], input.shape, nFft, hop, center, synthesize, p, frameIndex + 1)
    modifies buffer
    ensures |written| == buffer.Length
    ensures forall p | 0 <= p < buffer.Length ::
      Sample(buffer[..], written, p)
        == Expected(input.buffer[..], input.shape, nFft, hop, center, synthesize, p, frameIndex)
  {
    written := written0;
    var bufferLength := buffer.Length;
    var padAmount := PadAmount(nFft, center);
    var start := frameIndex * hop;
    var end := start + nFft;
    var span := end - start;
    var offset := 0;
    while offset < span
      invariant 0 <= offset <= span
      invariant |written| == bufferLength
      invariant forall p | 0 <= p < bufferLength ::
        Sample(buffer[..], written, p)
          == if start <= p + padAmount < start + offset
             then Expected(input.buffer[..], input.shape, nFft, hop, center, synthesize, p, frameIndex)
             else Expected(input.buffer[..], input.shape, nFft, hop, center, synthesize, p, frameIndex + 1)
    {
      var index := start + offset;
      ghost var before, writtenBefore := buffer[..], written;
      if index >= padAmount && index < bufferLength + padAmount {
        buffer[index - padAmount] := frame[offset];
        written := written[index - padAmount := true];
      }
      forall p | 0 <= p < bufferLength
        ensures Sample(buffer[..], written, p)
          == if start <= p + padAmount < start + offset + 1
             then Expected(input.buffer[..], input.shape, nFft, hop, center, synthesize, p, frameIndex)
             else Expected(input.buffer[..], input.shape, nFft, hop, center, synthesize, p, frameIndex + 1)
      {
        ExpectedStep(input.buffer[..], input.shape, nFft, hop, center, synthesize, p, frameIndex);
        if p + padAmount != index {
          assert Sample(buffer[..], written, p) == Sample(before, writtenBefore, p);
        }
      }
      offset := offset + 1;
    }
  }

  /** Placing frame `f` overwrites exactly the positions it covers. */
  lemma ExpectedStep(cells: seq<real>, shape: seq<int>, nFft: int, hop: int, center: bool,
                     synthesize: seq<Complex> -> seq<real>, p: int, f: int)
    requires ValidShape(shape) && |cells| == Product(shape) && InputShapeOk(shape, nFft)
    requires nFft >= 0 && 0 <= f < shape[1] && Synthesizes(synthesize, nFft)
    ensures var q := p + PadAmount(nFft, center);
      Expected(cells, shape, nFft, hop, center, synthesize, p, f)
        == if Covers(f, q, hop, nFft) then Some(synthesize(FrameBins(cells, shape, f, nFft))[q - f * hop])
           else Expected(cells, shape, nFft, hop, center, synthesize, p, f + 1)
  {
  }
}
