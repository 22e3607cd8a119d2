# MultiArray: storage, ownership and short-time Fourier framing, in Dafny

This project models the verifiable core of the Swift package `MultiArray`, which appears in two
source trees: the package tree (`Sources/MultiArray`) and the older Foundation tree
(`MultiArray/Foundation`, `MultiArray/DSP`). Three parts are modelled.

- **Array storage and ownership.** A `MultiArray` adopts a buffer of `product(shape)` elements. It
  stores contiguous row-major strides and a release policy (`Data.Deallocator`). Destroying the
  array performs the one release action the policy selects. The Foundation class keeps its strides
  in a buffer of its own and can give up ownership with `moved()`. The package class keeps its
  strides in an immutable array and offers the subscript writer `initializeElement(at:to:)`.
- **The short-time Fourier transform (STFT).** Both versions reflect-pad the signal, count the
  frames, and fill a `[n_fft/2+1, nFrames, 2]` array with the `(re, im)` bins of every windowed
  frame. The package version writes each cell through `initializeElement`. The Foundation version
  copies each frame into a scratch buffer, which a `.free` array adopts. The DFT then stores the
  bins through a raw pointer at offset `frameIndex * 2` with complex stride `strides[0] / 2`.
- **The inverse STFT (ISTFT).** Frames are synthesised from last to first. Each covered position
  that passes the range guard is overwritten, so an output sample ends up holding the sample of
  the first frame that covers it.

The window, the forward DFT and the inverse DFT work on floats through Accelerate, so they are
parameters of the model:

- `analyze`: window one frame, then apply the forward DFT; it returns `n_fft/2+1` bins.
- `synthesize`: apply the inverse DFT, then divide by the window; it returns `n_fft` samples.

Samples are `real`. Release actions are ghost events: `Deallocate`, `Munmap` and `CallCustom`.
Each class has a ghost `teardown` that records what `deinit` did. In Swift these are traps:

- `precondition` failures;
- out-of-range slices;
- a negative array capacity.

They become `requires` clauses. The one exception is `deinit`'s `fatalError` for `.virtualMemory`,
which is the value `Teardown.FatalError`.

Swift's `assert` is checked only in debug builds (`-Onone`). In an optimised build (`-O`) a failed
`assert` does not trap, and the program goes on with undefined behaviour. This applies to the
shape and count checks of both initialisers, the Foundation STFT's input-shape check and the
subscript's bounds check. The model treats those assertions as `requires` clauses too, so it
says nothing about what an optimised build does when one of them fails.

Files:

- `shape.dfy`: `Product`, `RowMajorStrides`, `ContiguousStrides`, and the index ↔ offset
  correspondence.
- `ownership.dfy`: the release switch.
- `foundation_multiarray.dfy` and `sources_multiarray.dfy`: the two classes.
- `framing.dfy`: frame arithmetic, reflect padding and the spectrogram layout.
- `sources_stft.dfy`, `foundation_stft.dfy` and `sources_istft.dfy`: the transforms.
- `round_trip.dfy`: the ISTFT of an STFT gives back the signal.

## Model

The subscript helpers (`Sources/MultiArray/Array + subscript.swift`, lines 37-44), `allocate`
(`Sources/MultiArray/Array + Init.swift`, lines 14-22) and `contiguousStrides`
(`MultiArray/Foundation/Array + Helpers.swift`, lines 13-21) live in files whose names contain
spaces. Their rows cite the declarations and call sites that use them instead.

| member | source | states |
|---|---|---|
| Shape.ProductNonNegative | MultiArray/Foundation/MultiArray.swift:74-75 | a shape with no negative dimension has a non-negative element count |
| Shape.StridesClosedForm | MultiArray/Foundation/MultiArray.swift:80 | stride `i` is the product of the dimensions after `i` |
| Shape.StridesRecurrence | Sources/MultiArray/MultiArray.swift:59 | the last stride is 1 and each other stride is the next dimension times the next stride |
| Shape.StridesMatchCoreML | Tests/MultiArrayTests/MultiArrayTests.swift:16-38 | `[5,4,3,2]` has strides `[24,6,2,1]` and `[5]` has `[1]`, as CoreML reports |
| Shape.ContiguousStrides | MultiArray/Foundation/MultiArray.swift:80 | the backwards loop fills a fresh buffer with exactly the row-major strides; a rank-0 shape indexes `-1` and is excluded |
| Shape.Offset | Sources/MultiArray/MultiArray.swift:31-32 | the flat offset `sum(index[i] * strides[i])`; with row-major strides it is in bounds (`OffsetInBounds`), one-to-one (`OffsetInjective`) and onto (`IndexAt`) |
| Shape.OffsetInBounds | Sources/MultiArray/MultiArray.swift:31-32 | every in-range multi-index maps to an offset inside the buffer |
| Shape.OffsetInjective | Sources/MultiArray/MultiArray.swift:14-17 | distinct in-range multi-indices map to distinct offsets |
| Shape.IndexAt | Sources/MultiArray/MultiArray.swift:14-17 | every offset of the buffer is the offset of an in-range multi-index |
| Shape.ElementsDetermineCells | Sources/MultiArray/MultiArray.swift:14-17 | two buffers that agree at every multi-index are equal |
| Shape.ElementAt | Sources/MultiArray/DSP/ISTFT.swift:59-60 | the subscript read `input[i, j, k]`: the cell at the row-major offset of the index; `ElementsDetermineCells` shows these reads determine the whole buffer |
| Shape.WriteElement | Sources/MultiArray/DSP/STFT.swift:75-76 | the subscript write keeps the buffer length; `WriteThenRead` shows it sets the written element and keeps every other one |
| Shape.WriteThenRead | Sources/MultiArray/DSP/STFT.swift:75-76 | after `initializeElement(at: i, to: v)` the element at `i` is `v` and every other element is unchanged |
| Shape.Offset3 | Sources/MultiArray/DSP/STFT.swift:75-76 | the flat offset of `[a, b, c]` is `(a*shape[1] + b)*shape[2] + c` |
| Ownership.ReleaseOnDeinit | MultiArray/Foundation/MultiArray.swift:85-100 | the only fatal policy is `.virtualMemory`; `.none` releases nothing; every other policy makes exactly one release, of this buffer, of the policy's kind, with `count * stride` bytes for `munmap` and the custom closure |
| Ownership.CanMove | MultiArray/Foundation/MultiArray.swift:57-60 | the policies `moved()` accepts, `.free` and `.none`; it is the precondition of `FoundationMultiArray.MultiArray.Moved` |
| FoundationMultiArray.MultiArray.constructor | MultiArray/Foundation/MultiArray.swift:68-82 | adopts the buffer; requires non-negative dimensions and `buffer.count == product(shape)`; computes row-major strides into a fresh buffer |
| FoundationMultiArray.MultiArray.Count | MultiArray/Foundation/MultiArray.swift:46-48 | `count` is the product of the shape |
| FoundationMultiArray.MultiArray.Moved | MultiArray/Foundation/MultiArray.swift:56-64 | allowed only for `.free` or `.none`; returns its own buffer and leaves `.none` |
| FoundationMultiArray.MultiArray.Deinit | MultiArray/Foundation/MultiArray.swift:85-100 | releases the strides buffer, then performs `ReleaseOnDeinit` for the current policy |
| FoundationMultiArray.MoveTwiceThenDrop | MultiArray/Foundation/MultiArray.swift:57-63 | a second `moved()` is allowed and returns the same buffer; destroying the array afterwards releases nothing |
| SourcesMultiArray.MultiArray.constructor | Sources/MultiArray/MultiArray.swift:47-61 | adopts the buffer; requires non-negative dimensions and `buffer.count == product(shape)`; strides derived from the shape alone |
| SourcesMultiArray.MultiArray.Count | Sources/MultiArray/MultiArray.swift:41-43 | `count` is the product of the shape |
| SourcesMultiArray.MultiArray.Get | Sources/MultiArray/DSP/ISTFT.swift:59-60 | reading through the stored strides yields the row-major element `ElementAt` at the index |
| SourcesMultiArray.MultiArray.InitializeElement | Sources/MultiArray/DSP/STFT.swift:75 | the buffer becomes `WriteElement` of the old buffer at the multi-index |
| SourcesMultiArray.MultiArray.Deinit | Sources/MultiArray/MultiArray.swift:64-79 | performs `ReleaseOnDeinit` for the current policy (`.virtualMemory` is fatal) |
| SourcesMultiArray.Allocate | Sources/MultiArray/DSP/STFT.swift:53 | a fresh valid array of the given shape under `.free` |
| Framing.TruncDiv | Sources/MultiArray/DSP/STFT.swift:49 | Swift's division: the remainder has the sign of the dividend and is smaller than the divisor |
| Framing.FrameCountAsWritten | Sources/MultiArray/DSP/STFT.swift:49 | the count as written, `max(0, (totalLength - n_fft) / hop + 1)` with truncating division; `FrameCountAgrees` and `FrameCountAsWrittenOverruns` relate it to `FrameCount` |
| Framing.FrameCount | Sources/MultiArray/DSP/STFT.swift:49 | the corrected count: by `FrameFits`, frame `f` is counted exactly when `f*hop + n_fft <= totalLength` |
| Framing.FrameCountAsWrittenOverruns | Sources/MultiArray/DSP/STFT.swift:49 | the source's frame count differs from the number of frames that fit exactly when `n_fft - hop < totalLength < n_fft`; it is then 1 though the frame needs `n_fft > totalLength` samples |
| Framing.FrameCountOverrunExample | MultiArray/DSP/STFT.swift:53 | 5 samples, `n_fft` 8, hop 4: one frame as written, none fits |
| Framing.FrameCountAgrees | Sources/MultiArray/DSP/STFT.swift:49 | when the window fits, the source's count equals the corrected count |
| Framing.FrameFits | Sources/MultiArray/DSP/STFT.swift:62-67 | frame `f` is counted exactly when `f*hop + n_fft <= totalLength`, so every frame range lies inside the padded input |
| Framing.HalfSize | Sources/MultiArray/DSP/STFT.swift:50 | `n_fft / 2 + 1` is at least 1 and `2*(h-1) <= n_fft < 2*h`: the bins of frequencies `0` to `n_fft / 2` |
| Framing.Frame | Sources/MultiArray/DSP/STFT.swift:63-67 | the window of frame `f` is the `n_fft` samples from `f*hop` on |
| Framing.ReflectPad | Sources/MultiArray/DSP/STFT.swift:99-107 | length `count + 2*pad`; the input sits at `pad`; `out[k] == input[pad-k]` on the left and `out[pad+count+j] == input[count-2-j]` on the right |
| Framing.ReflectPadExample | Sources/MultiArray/DSP/STFT.swift:98 | `[1,2,3,4,5]` padded by 2 is `[3,2,1,2,3,4,5,4,3]` |
| Framing.Reversed | Sources/MultiArray/DSP/STFT.swift:103-105 | `.reversed()` keeps the length; `ReversedAt` shows element `k` of the result is element `count-1-k` of the slice |
| Framing.Padded | Sources/MultiArray/DSP/STFT.swift:39-42 | the signal the frames are taken from: `count + 2*pad` samples with the input unchanged at `pad`, where `pad = n_fft / 2` when centred and 0 otherwise |
| Framing.StftShape | Sources/MultiArray/DSP/STFT.swift:49-53 | the result shape `[n_fft/2+1, nFrames, 2]` is rank 3 with non-negative dimensions |
| Framing.StftShapeExample | Tests/MultiArrayTests/DSPTests.swift:18-25 | 16 samples, `n_fft` 8, hop 4, centred: shape `[5,5,2]` |
| Framing.StftDetermined | Sources/MultiArray/DSP/STFT.swift:61-82 | a spectrogram is determined cell by cell: each cell is the image of exactly one `(bin, frame, component)` |
| Framing.FilledAll | Sources/MultiArray/DSP/STFT.swift:61-82 | having filled every frame is being the spectrogram |
| SourcesStft.Stft | Sources/MultiArray/DSP/STFT.swift:36-85 | a fresh `.free` array of shape `[n_fft/2+1, nFrames, 2]` whose cell `[k, f, c]` is component `c` of bin `k` of the transformed frame `f` of the padded input |
| SourcesStft.FillFrame | Sources/MultiArray/DSP/STFT.swift:62-81 | one frame-loop turn fills every bin of frame `f` and keeps the earlier frames |
| SourcesStft.WriteCell | Sources/MultiArray/DSP/STFT.swift:74-76 | one `initializeElement` sets its cell and keeps every filled cell |
| FoundationStft.AcceptedShapeIsSignal | MultiArray/DSP/STFT.swift:40 | an input passing the shape assertion has as many elements as its last dimension |
| FoundationStft.AcceptedInputShape | MultiArray/DSP/STFT.swift:40 | the input-shape assertion: rank 1, or every dimension but the last is 1; `AcceptedShapeIsSignal` gives its meaning |
| FoundationStft.DestinationOffset | MultiArray/DSP/STFT.swift:74 | the float the DFT stores component `c` of bin `k` of frame `f` into, `f*2 + 2*stride*k + c`; `DestinationIsRowMajor` shows it is the row-major cell `[k, f, c]` |
| FoundationStft.DestinationIsRowMajor | MultiArray/DSP/STFT.swift:74 | the DFT's store for bin `k`, component `c` at `frameIndex*2 + 2*(strides[0]/2)*k + c` is the row-major offset of `[k, frameIndex, c]` |
| FoundationStft.DestinationsAreDisjoint | MultiArray/DSP/STFT.swift:65-77 | distinct `(bin, frame, component)` triples are stored at distinct offsets |
| FoundationStft.DestinationsCoverResult | MultiArray/DSP/STFT.swift:65-77 | every float of the result is the destination of some triple |
| FoundationStft.Stft | MultiArray/DSP/STFT.swift:39-80 | the signal is the input's last dimension `L`, padded to `L + 2*(n_fft/2)` when centred; the same spectrogram as the package version; one scratch buffer per frame, each holding exactly that frame's input samples, all distinct, each freed exactly once by the `.free` array that adopted it |
| FoundationStft.AnalyzeFrame | MultiArray/DSP/STFT.swift:66-76 | a fresh scratch buffer holds the frame's samples, the frame's bins are stored, and the buffer is deallocated once |
| FoundationStft.StoreSpectrum | MultiArray/DSP/STFT.swift:74 | the strided DFT store fills every bin of the frame and keeps the earlier frames |
| FoundationStft.StoreComponent | MultiArray/DSP/DFT.swift:60-62 | one strided store sets its cell and keeps every filled cell |
| SourcesIstft.Winner | Sources/MultiArray/DSP/ISTFT.swift:52-82 | a winning frame lies in range and covers the position |
| SourcesIstft.WinnerIsFirstCovering | Sources/MultiArray/DSP/ISTFT.swift:52-82 | the winner is exactly the smallest frame covering the position, in both directions |
| SourcesIstft.WinnerFindsCover | Sources/MultiArray/DSP/ISTFT.swift:52-82 | any covering frame in range makes a winner no later than it |
| SourcesIstft.FullCoverage | Sources/MultiArray/DSP/ISTFT.swift:44 | with `1 <= hop <= n_fft` and at least one frame, every padded position `q` with `0 <= q < L` is covered by some frame |
| SourcesIstft.OutputCovered | Sources/MultiArray/DSP/ISTFT.swift:49-50 | with `1 <= hop <= n_fft` and at least one frame, every one of the `bufferLength` output samples is written, so declaring them all initialised is sound |
| SourcesIstft.ZeroFramesWriteNothing | Sources/MultiArray/DSP/ISTFT.swift:43-53 | with no frames the output still has `n_fft - hop` samples when not centred (`-hop` when centred), and none of them is written |
| SourcesIstft.NoOffsetZeroSurvives | Sources/MultiArray/DSP/ISTFT.swift:52-82 | with `hop < n_fft` no surviving value at a position past 0 comes from the first sample of a frame |
| SourcesIstft.FrameBins | Sources/MultiArray/DSP/ISTFT.swift:54-63 | a frame's bins are `n_fft/2+1` values read at `[index, frameIndex, 0/1]` |
| SourcesIstft.BufferLength | Sources/MultiArray/DSP/ISTFT.swift:44-46 | `L - n_fft` when centred, else `L`; for the spectrogram of a signal, `RoundTrip.RoundTripLength` gives it in terms of the signal length |
| SourcesIstft.PadAmount | Sources/MultiArray/DSP/ISTFT.swift:47 | `n_fft / 2` when centred, else 0; `RoundTrip.StftThenIstft` shows output `p` is padded sample `p + padAmount` |
| SourcesIstft.ExpectedStep | Sources/MultiArray/DSP/ISTFT.swift:68-81 | placing frame `f` changes exactly the positions it covers |
| SourcesIstft.Istft | Sources/MultiArray/DSP/ISTFT.swift:37-85 | output length `bufferLength`; sample `p` is initialised exactly when some frame covers `p + padAmount`, and then holds that frame's sample at offset `p + padAmount - f*hop` for the first such frame `f` |
| SourcesIstft.ReadBins | Sources/MultiArray/DSP/ISTFT.swift:54-63 | the gathering loop reads exactly `FrameBins` of the frame |
| SourcesIstft.PlaceFrame | Sources/MultiArray/DSP/ISTFT.swift:68-81 | the guarded offset loop moves the output from "first covering frame after `f`" to "first covering frame from `f`" |
| RoundTrip.RoundTripLength | Sources/MultiArray/DSP/ISTFT.swift:43-47 | for a spectrogram of `signal` the ISTFT length is `count - (paddedCount - n_fft) % hop`, less one for an odd centred `n_fft` |
| RoundTrip.RoundTripLengthExample | Tests/MultiArrayTests/DSPTests.swift:33-43 | `[5,5,2]`, `n_fft` 8, hop 4, centred: 16 samples |
| RoundTrip.BinsOfStft | Sources/MultiArray/DSP/ISTFT.swift:57-62 | the bins the ISTFT reads for frame `f` of an STFT are the bins the STFT stored |
| RoundTrip.SampleOfStft | Sources/MultiArray/DSP/ISTFT.swift:65-80 | past a frame's first sample, the ISTFT of a spectrogram returns the analysed padded signal |
| RoundTrip.StftThenIstft | Tests/Others/DSPTests.swift:42-58 | with `1 <= hop < n_fft` and synthesis undoing analysis away from a frame's first sample, every ISTFT output sample of the STFT of `signal` is `signal[p]` (all of them when centred) |

## Left out

- The Foundation `reflectionPad(size:)` is not part of this model. Its padding is taken to be
  `ReflectPad`, which the package tree's `reflectionPad` also computes.
- The window, DFT and IDFT are parameters of the model. The Hann coefficients, Accelerate calls,
  float arithmetic and tolerance comparisons are not modelled. The window multiplication that
  `vDSP_vmul` performs into the scratch buffer is folded into `analyze`. The scratch buffer
  therefore holds the frame's raw samples in the model.
- `n_fft >= 1` is required because the transforms are set up for `n_fft` samples and their
  construction is not modelled.
- A negative or zero `hop` is not modelled in the STFTs. Zero divides by zero; a negative hop has
  no meaning. The ISTFT method accepts any hop.
- Integer overflow traps and the wrapping `&+` increments are not modelled; integers are unbounded.
- The contents of uninitialised memory are not modelled. Fresh buffers start at the element
  type's default, and the ISTFT reports through a ghost mask which samples were written.
- Negative subscripts are out of range in the model. The source's range assertion checks only
  the upper bound.
- The package tree's `contiguousStrides(shape:)` is not part of this model. Its strides are taken
  to be row-major, as in the Foundation helper.
- The Foundation STFT's input is a class reference, and its lifetime is not modelled.
  `consuming` only hands over a reference.
- `view(at:)`, `captureReference()` and the view lifetime test are not modelled. A view keeps its
  parent alive through a retained reference, and ARC reference counting and shared sub-buffers
  are not modelled.
- Not modelled: the transaction engine, `reshape`, `forEach`, the CoreML bridge, the LogMel
  filter and `operatorsShouldReturnCopiedSelf`.
- `munmap`, `free` and custom closures are recorded as ghost release events. A custom closure is
  identified by a token.
- Framing.ReflectPad: admits `pad == 0` (returning the input). The package's private
  `reflectPad` traps there on its closed range `1...pad`, so SourcesStft.Stft requires
  `1 <= n_fft / 2` when centring instead.
- Framing.TruncDiv: states Swift's division only for a positive divisor, the only case the
  frame count uses.
- SourcesStft.Stft and FoundationStft.Stft: use the corrected frame count (see Findings), not the
  as-written one. The two agree whenever the padded input holds at least one frame.
- SourcesIstft.Istft: with no frames and `hop < n_fft` uncentred (for example a `[5, 0, 2]`
  spectrogram with `n_fft` 8 and hop 4), the source declares `n_fft - hop` output samples initialised
  and writes none (`ZeroFramesWriteNothing`). Their values are uninitialised memory. The model
  reports them through the ghost mask as unwritten and promises nothing about their values. With
  centring and no frames, `bufferLength` is negative and the array initialiser traps, which the
  model excludes by requiring `bufferLength >= 0`.
- RoundTrip.StftThenIstft: an idealised perfect inverse is assumed through `Reconstructs` in
  place of float accuracy.

## Findings

| source | as written | input that shows it | evidently intended | confidence | as-written member | corrected member |
|---|---|---|---|---|---|---|
| Sources/MultiArray/DSP/STFT.swift:49 (also MultiArray/DSP/STFT.swift:53) | `max(0, (totalLength - n_fft) / hop + 1)` with Swift's truncating `/` gives 1 frame when `n_fft - hop < totalLength < n_fft`; that frame reads past the input (a slice trap in the package tree, an out-of-bounds `vDSP_vmul` read in the Foundation tree) | `center: false`, `n_fft` 8, `hop` 4, 5 samples | no frame when the input is shorter than one window | not executed | Framing.FrameCountAsWrittenOverruns | Framing.FrameFits |
