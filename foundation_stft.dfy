/** `ShortTimeFourierTransform.callAsFunction` of the Foundation tree: every frame is windowed into
    a scratch buffer of its own, which a `.free` array adopts and releases, and the DFT stores the
    frame's bins straight into the result through a pointer and a complex stride. The window
    multiplication and the forward DFT are the parameter `analyze`. */
module FoundationStft {
  import opened Shape
  import opened Ownership
  import opened Framing
  import opened FoundationMultiArray

  /** The input assertion: rank 1, or every dimension but the last is 1. */
  predicate AcceptedInputShape(shape: seq<int>)
  {
    |shape| == 1 || forall i :: 0 <= i < |shape| - 1 ==> shape[i] == 1
  }

  /** An accepted shape holds one signal: its element count is its last dimension, the `L` of
      the documented input shape. */
  lemma {:induction false} AcceptedShapeIsSignal(shape: seq<int>)
    requires |shape| >= 1 && AcceptedInputShape(shape)
    ensures Product(shape) == shape[|shape| - 1]
  {
    if |shape| == 1 {
      assert shape[1..] == [];
    } else {
      assert AcceptedInputShape(shape[1..]) by {
        if |shape[1..]| != 1 {
          forall i | 0 <= i < |shape[1..]| - 1 ensures shape[1..][i] == 1 {
            assert shape[1..][i] == shape[i + 1];
          }
        }
      }
      AcceptedShapeIsSignal(shape[1..]);
      assert shape[0] == 1;
    }
  }

  /** Where the DFT stores component `c` of bin `k` of frame `f`: the destination pointer is
      `result.baseAddress + f * 2` and bin `k` lies `2 * stride * k` floats after it. */
  function DestinationOffset(f: int, stride: int, k: int, c: int): int
  {
    f * 2 + 2 * stride * k + c
  }

  /** With the complex stride `result.strides[0] / 2`, the DFT's stores land exactly on the
      row-major cells `[k, f, c]` of a `[halfSize, nFrames, 2]` array. */
  lemma DestinationIsRowMajor(halfSize: int, nFrames: int, k: int, f: int, c: int)
    requires halfSize >= 0 && nFrames >= 0
    ensures DestinationOffset(f, RowMajorStrides([halfSize, nFrames, 2])[0] / 2, k, c)
         == Offset([k, f, c], RowMajorStrides([halfSize, nFrames, 2]))
  {
    var shape := [halfSize, nFrames, 2];
    StridesClosedForm(shape, 0);
    assert shape[1..] == [nFrames, 2] && [nFrames, 2][1..] == [2] && [2][1..] == [];
    assert RowMajorStrides(shape)[0] == nFrames * 2;
    assert (nFrames * 2) / 2 == nFrames;
    Offset3(k, f, c, shape);
    assert 2 * nFrames * k == (k * nFrames) * 2;
  }

  /** Distinct `(bin, frame, component)` triples are stored at distinct offsets: no frame
      overwrites another frame's cells. */
  lemma DestinationsAreDisjoint(halfSize: int, nFrames: int, k: int, f: int, c: int, k': int, f': int, c': int)
    requires halfSize >= 0 && nFrames >= 0
    requires 0 <= k < halfSize && 0 <= f < nFrames && 0 <= c < 2
    requires 0 <= k' < halfSize && 0 <= f' < nFrames && 0 <= c' < 2
    requires DestinationOffset(f, RowMajorStrides([halfSize, nFrames, 2])[0] / 2, k, c)
          == DestinationOffset(f', RowMajorStrides([halfSize, nFrames, 2])[0] / 2, k', c')
    ensures k == k' && f == f' && c == c'
  {
    var shape := [halfSize, nFrames, 2];
    DestinationIsRowMajor(halfSize, nFrames, k, f, c);
    DestinationIsRowMajor(halfSize, nFrames, k', f', c');
    assert ValidShape(shape) && ValidIndex([k, f, c], shape) && ValidIndex([k', f', c'], shape);
    OffsetInjective([k, f, c], [k', f', c'], shape);
    assert [k, f, c][0] == k' && [k, f, c][1] == f' && [k, f, c][2] == c';
  }

  /** Every float of the result is the destination of some `(bin, frame, component)` triple: the
      frames' stores together cover all `halfSize * nFrames * 2` cells. */
  lemma DestinationsCoverResult(halfSize: int, nFrames: int, o: int)
    requires halfSize >= 0 && nFrames >= 0 && 0 <= o < Product([halfSize, nFrames, 2])
    ensures var index := IndexAt(o, [halfSize, nFrames, 2]);
      && 0 <= index[0] < halfSize && 0 <= index[1] < nFrames && 0 <= index[2] < 2
      && DestinationOffset(index[1], RowMajorStrides([halfSize, nFrames, 2])[0] / 2, index[0], index[2]) == o
  {
    var shape := [halfSize, nFrames, 2];
    var index := IndexAt(o, shape);
    DestinationIsRowMajor(halfSize, nFrames, index[0], index[1], index[2]);
    assert index == [index[0], index[1], index[2]];
  }

  method Stft(input: MultiArray<real>, nFft: int, hop: int, center: bool, analyze: seq<real> -> seq<Complex>)
    returns (result: MultiArray<real>, ghost scratch: seq<array<real>>, ghost releases: seq<Teardown>)
    requires input.Valid() && !input.destroyed
    requires AcceptedInputShape(input.shape)
    requires nFft >= 1 && hop >= 1
    requires center ==> nFft / 2 <= input.Count() - 1
    requires Analyzes(analyze, nFft)
    ensures fresh(result) && fresh(result.buffer) && fresh(result.strides)
    ensures result.Valid() && !result.destroyed && result.deallocator == Free
    ensures |Padded(input.buffer[..], nFft, center)|
         == input.shape[|input.shape| - 1] + (if center then 2 * (nFft / 2) else 0)
    ensures result.shape == StftShape(|Padded(input.buffer[..], nFft, center)|, nFft, hop)
    ensures IsStftOf(result.buffer[..], Padded(input.buffer[..], nFft, center), nFft, hop, analyze)
    ensures |scratch| == |releases| == FrameCount(|Padded(input.buffer[..], nFft, center)|, nFft, hop)
    ensures forall i :: 0 <= i < |scratch| ==> fresh(scratch[i]) && releases[i] == Completed([Deallocate(scratch[i])])
    ensures forall i :: 0 <= i < |scratch| ==> scratch[i][..] == Frame(Padded(input.buffer[..], nFft, center), i, hop, nFft)
    ensures forall i, j :: 0 <= i < j < |scratch| ==> scratch[i] != scratch[j]
  {
    AcceptedShapeIsSignal(input.shape);
    var x := input.buffer[..];
    if center {
      x := ReflectPad(x, nFft / 2);
    }
    var totalLength := |x|;
    var nFrames := FrameCount(totalLength, nFft, hop);
    var halfSize := HalfSize(nFft);
    var shape := [halfSize, nFrames, 2];
    ProductNonNegative(shape);
    var storage := new real[Product(shape)];
    result := new MultiArray(storage, shape, Free, 4);
    scratch, releases := [], [];

    var frameIndex := 0;
    while frameIndex < nFrames
      modifies result.buffer
      invariant 0 <= frameIndex <= nFrames
      invariant Filled(result.buffer[..], x, nFft, hop, analyze, frameIndex, 0)
      invariant |scratch| == |releases| == frameIndex
      invariant forall i :: 0 <= i < |scratch| ==> fresh(scratch[i]) && releases[i] == Completed([Deallocate(scratch[i])])
      invariant forall i :: 0 <= i < |scratch| ==> scratch[i] != result.buffer && scratch[i][..] == Frame(x, i, hop, nFft)
      invariant forall i, j :: 0 <= i < j < |scratch| ==> scratch[i] != scratch[j]
    {
      ghost var buffer, release := AnalyzeFrame(result, x, nFft, hop, analyze, frameIndex);
      scratch, releases := scratch + [buffer], releases + [release];
      frameIndex := frameIndex + 1;
    }
    FilledAll(result.buffer[..], x, nFft, hop, analyze);
  }

  /** One turn of the frame loop: window the frame into a fresh scratch buffer, let a `.free`
      array adopt it, transform it into the result, and release the array with its buffer. */
  method AnalyzeFrame(result: MultiArray<real>, x: seq<real>, nFft: int, hop: int, analyze: seq<real> -> seq<Complex>,
                      frameIndex: int)
    returns (ghost buffer: array<real>, ghost release: Teardown)
    requires nFft >= 0 && hop >= 1 && Analyzes(analyze, nFft)
    requires result.Valid() && result.shape == StftShape(|x|, nFft, hop)
    requires 0 <= frameIndex < FrameCount(|x|, nFft, hop)
    requires Filled(result.buffer[..], x, nFft, hop, analyze, frameIndex, 0)
    modifies result.buffer
    ensures Filled(result.buffer[..], x, nFft, hop, analyze, frameIndex + 1, 0)
    ensures fresh(buffer) && release == Completed([Deallocate(buffer)])
    ensures buffer[..] == Frame(x, frameIndex, hop, nFft)
  {
    var start := frameIndex * hop;
    FrameFits(|x|, nFft, hop, frameIndex);
    MulMonotone(0, frameIndex, hop);
    var scratch := new real[nFft](i requires 0 <= i < nFft => x[start + i]);
    ghost var window := Frame(x, frameIndex, hop, nFft);
    assert forall i | 0 <= i < nFft :: scratch[i] == window[i];
    assert scratch[..] == window;
    var frame := new MultiArray(scratch, [nFft], Free, 4);
    StoreSpectrum(result, x, nFft, hop, analyze, frameIndex, frame.buffer, result.strides[0] / 2);
    frame.Deinit();
    buffer, release := scratch, frame.teardown;
  }

  /** `dft(frame, result: result.baseAddress + frameIndex * 2, stride: result.strides[0] / 2)`:
      the bins of one frame, stored through the strided destination. */
  method StoreSpectrum(result: MultiArray<real>, x: seq<real>, nFft: int, hop: int, analyze: seq<real> -> seq<Complex>,
                       frameIndex: int, frame: array<real>, stride: int)
    requires nFft >= 0 && hop >= 1 && Analyzes(analyze, nFft)
    requires result.Valid() && result.shape == StftShape(|x|, nFft, hop)
    requires 0 <= frameIndex < FrameCount(|x|, nFft, hop)
    requires frame[..] == Frame(x, frameIndex, hop, nFft)
    requires stride == result.strides[0] / 2
    requires Filled(result.buffer[..], x, nFft, hop, analyze, frameIndex, 0)
    modifies result.buffer
    ensures Filled(result.buffer[..], x, nFft, hop, analyze, frameIndex + 1, 0)
  {
    var data := analyze(frame[..]);
    var k := 0;
    while k < |data|
      modifies result.buffer
      invariant 0 <= k <= |data|
      invariant Filled(result.buffer[..], x, nFft, hop, analyze, frameIndex, k)
    {
      StoreComponent(result, x, nFft, hop, analyze, k, frameIndex, 0, stride, data[k].re);
      StoreComponent(result, x, nFft, hop, analyze, k, frameIndex, 1, stride, data[k].im);
      k := k + 1;
    }
    FilledNextFrame(result.buffer[..], x, nFft, hop, analyze, frameIndex);
  }

  /** One float stored by the DFT at `destination + 2 * stride * k + c`: the filled region grows by
      that cell and nothing filled is lost. */
  method StoreComponent(result: MultiArray<real>, x: seq<real>, nFft: int, hop: int, analyze: seq<real> -> seq<Complex>,
                        k: int, frameIndex: int, c: int, stride: int, v: real)
    requires nFft >= 0 && hop >= 1 && Analyzes(analyze, nFft)
    requires result.Valid() && result.shape == StftShape(|x|, nFft, hop)
    requires 0 <= k < HalfSize(nFft) && 0 <= frameIndex < FrameCount(|x|, nFft, hop) && 0 <= c < 2
    requires stride == result.strides[0] / 2
    requires v == Component(analyze(Frame(x, frameIndex, hop, nFft))[k], c)
    requires Filled(result.buffer[..], x, nFft, hop, analyze, frameIndex, k)
    requires c == 1 ==> CellHolds(result.buffer[..], x, nFft, hop, analyze, k, frameIndex, 0)
    modifies result.buffer
    ensures c == 0 ==> (Filled(result.buffer[..], x, nFft, hop, analyze, frameIndex, k)
                       && CellHolds(result.buffer[..], x, nFft, hop, analyze, k, frameIndex, 0))
    ensures c == 1 ==> Filled(result.buffer[..], x, nFft, hop, analyze, frameIndex, k + 1)
  {
    var shape := result.shape;
    ghost var before := result.buffer[..];
    DestinationIsRowMajor(shape[0], shape[1], k, frameIndex, c);
    OffsetInBounds([k, frameIndex, c], shape);
    var offset := DestinationOffset(frameIndex, stride, k, c);
    result.buffer[offset] := v;
    assert result.buffer[..] == WriteElement(before, shape, [k, frameIndex, c], v);
    forall k', f, c' | 0 <= k' < HalfSize(nFft) && 0 <= f < FrameCount(|x|, nFft, hop) && 0 <= c' < 2
                       && (f < frameIndex || (f == frameIndex && k' < k))
      ensures CellHolds(result.buffer[..], x, nFft, hop, analyze, k', f, c')
    {
      WriteKeepsCell(before, x, nFft, hop, analyze, [k, frameIndex, c], v, k', f, c');
    }
    WriteSetsCell(before, x, nFft, hop, analyze, k, frameIndex, c);
    if c == 1 {
      WriteKeepsCell(before, x, nFft, hop, analyze, [k, frameIndex, c], v, k, frameIndex, 0);
    }
  }
}
