/** `ShortTimeFourierTransform.callAsFunction` of the package tree: pad, count the frames, then
    fill a `[n_fft / 2 + 1, nFrames, 2]` array frame by frame and bin by bin. The Hann window and
    the forward DFT of one frame are the parameter `analyze`. The private `reflectPad` is
    `ReflectPad`; its closed range `1...pad` traps for `pad == 0`, hence `1 <= n_fft / 2` when
    centring. */
module SourcesStft {
  import opened Shape
  import opened Framing
  import opened Ownership
  import opened SourcesMultiArray

  method Stft(input: seq<real>, nFft: int, hop: int, center: bool, analyze: seq<real> -> seq<Complex>)
    returns (result: MultiArray<real>)
    requires nFft >= 1 && hop >= 1
    requires center ==> 1 <= nFft / 2 <= |input| - 1
    requires Analyzes(analyze, nFft)
    ensures fresh(result) && fresh(result.buffer) && result.Valid() && !result.destroyed
    ensures result.deallocator == Free
    ensures result.shape == StftShape(|Padded(input, nFft, center)|, nFft, hop)
    ensures IsStftOf(result.buffer[..], Padded(input, nFft, center), nFft, hop, analyze)
  {
    var x := input;
    var padAmount := nFft / 2;
    if center {
      x := ReflectPad(x, padAmount);
    }
    var totalLength := |x|;
    var nFrames := FrameCount(totalLength, nFft, hop);
    var halfSize := HalfSize(nFft);
    var shape := [halfSize, nFrames, 2];
    result := Allocate(shape, 4);

    var frameIndex := 0;
    while frameIndex < nFrames
      modifies result.buffer
      invariant 0 <= frameIndex <= nFrames
      invariant Filled(result.buffer[..], x, nFft, hop, analyze, frameIndex, 0)
    {
      FillFrame(result, x, nFft, hop, analyze, frameIndex);
      frameIndex := frameIndex + 1;
    }
    FilledAll(result.buffer[..], x, nFft, hop, analyze);
  }

  /** One turn of the frame loop: slice the window, transform it, store every bin. */
  method FillFrame(result: MultiArray<real>, x: seq<real>, nFft: int, hop: int, analyze: seq<real> -> seq<Complex>,
                   frameIndex: int)
    requires nFft >= 0 && hop >= 1 && Analyzes(analyze, nFft)
    requires result.Valid() && result.shape == StftShape(|x|, nFft, hop)
    requires 0 <= frameIndex < FrameCount(|x|, nFft, hop)
    requires Filled(result.buffer[..], x, nFft, hop, analyze, frameIndex, 0)
    modifies result.buffer
    ensures Filled(result.buffer[..], x, nFft, hop, analyze, frameIndex + 1, 0)
  {
    var start := frameIndex * hop;
    var end := start + nFft;
    FrameFits(|x|, nFft, hop, frameIndex);
    MulMonotone(0, frameIndex, hop);
    var frame := x[start..end];
    assert frame == Frame(x, frameIndex, hop, nFft);
    var data := analyze(frame);

    var index := 0;
    while index < |data|
      modifies result.buffer
      invariant 0 <= index <= |data|
      invariant Filled(result.buffer[..], x, nFft, hop, analyze, frameIndex, index)
    {
      var value := data[index];
      WriteCell(result, x, nFft, hop, analyze, index, frameIndex, 0, value.re);
      WriteCell(result, x, nFft, hop, analyze, index, frameIndex, 1, value.im);
      index := index + 1;
    }
    FilledNextFrame(result.buffer[..], x, nFft, hop, analyze, frameIndex);
  }

  /** One `initializeElement(at: [index, frameIndex, c], to: v)` of the frame loop: the filled region
      grows by that cell and nothing filled is lost. */
  method WriteCell(result: MultiArray<real>, x: seq<real>, nFft: int, hop: int, analyze: seq<real> -> seq<Complex>,
                   index: int, frameIndex: int, c: int, v: real)
    requires nFft >= 0 && hop >= 1 && Analyzes(analyze, nFft)
    requires result.Valid() && result.shape == StftShape(|x|, nFft, hop)
    requires 0 <= index < HalfSize(nFft) && 0 <= frameIndex < FrameCount(|x|, nFft, hop) && 0 <= c < 2
    requires v == Component(analyze(Frame(x, frameIndex, hop, nFft))[index], c)
    requires Filled(result.buffer[..], x, nFft, hop, analyze, frameIndex, index)
    requires c == 1 ==> CellHolds(result.buffer[..], x, nFft, hop, analyze, index, frameIndex, 0)
    modifies result.buffer
    ensures c == 0 ==> (Filled(result.buffer[..], x, nFft, hop, analyze, frameIndex, index)
                       && CellHolds(result.buffer[..], x, nFft, hop, analyze, index, frameIndex, 0))
    ensures c == 1 ==> Filled(result.buffer[..], x, nFft, hop, analyze, frameIndex, index + 1)
  {
    ghost var before := result.buffer[..];
    result.InitializeElement([index, frameIndex, c], v);
    forall k, f, c' | 0 <= k < HalfSize(nFft) && 0 <= f < FrameCount(|x|, nFft, hop) && 0 <= c' < 2
                      && (f < frameIndex || (f == frameIndex && k < index))
      ensures CellHolds(result.buffer[..], x, nFft, hop, analyze, k, f, c')
    {
      WriteKeepsCell(before, x, nFft, hop, analyze, [index, frameIndex, c], v, k, f, c');
    }
    WriteSetsCell(before, x, nFft, hop, analyze, index, frameIndex, c);
    if c == 1 {
      WriteKeepsCell(before, x, nFft, hop, analyze, [index, frameIndex, c], v, index, frameIndex, 0);
    }
  }
}
