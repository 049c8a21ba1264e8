# nami: direct 1-D wavelet transform and bit reader, in Dafny

This project models two pieces of nami, a wavelet compression library.

- **`wt_1d_direct`** is the direct (convolution) strategy for the one-dimensional discrete wavelet transform.
  - `sym_extend` copies a signal of `n` samples into a scratch buffer `temp_`. The copy is either plain or interleaved, with the second half of the signal placed on the odd cells. It then fills `h = size/2` cells on each side, plus one trailing cell, by whole-sample symmetric reflection.
  - `fwt_1d_single` convolves the extended signal with the analysis filters and writes the result in place: `n/2` approximation coefficients, then `n/2` detail coefficients.
  - `iwt_1d_single` extends the two bands interleaved, then convolves with the synthesis filters. The filter used at each tap depends on parity.
- **`vector_ibitstream`** reads a byte buffer one bit at a time, most significant bit first. It tracks a byte position `pos_`, a single-bit `mask_` and a running bit count. `good()` reports whether unread bytes remain.

The Dafny files follow the same split:

- **`sym_extension.dfy`** (module `SymExtension`) is the specification of the extension.
  - `Reflect` is the reflection map on signal positions. `ReflectIsPeriodicMirror` proves it equals a closed form with period `2(n-1)`, mirrored inside each period.
  - `Window` is the extended buffer that `sym_extend` must produce.
  - The lemmas about `Window` state what the source's copy and mirror loops rely on.
- **`wt_1d_direct.dfy`** (module `WaveletDirect`) models the transform.
  - The filter bank is a value type.
  - `Analyse`/`Synthesise` specify one pass over an extended buffer. `Forward`/`Inverse` specify the whole transform of a signal.
  - Class `WtDirect` owns the scratch buffer `temp` and the in-place methods.
  - The source's loops appear as `while` loops over the same indices. Each nested loop is factored into a method of its own: a pass over all outputs, and one output (or one output pair) per call.
  - The methods are proved against the specification functions. Those functions in turn get lemmas:
    - constant signals give constant bands;
    - the transform is linear;
    - the result depends only on the window cells.
- **`vector_ibitstream.dfy`** (module `BitStream`) models the bit reader.
  - `Unpack` is the bit sequence of a buffer, most significant bit first, and `Pack` is its inverse.
  - Class `VectorIBitstream` has the source's fields, `ReadBit` and `Good`.
  - `ReadAll` is the caller's loop `while (good()) read_bit()`. It returns exactly `Unpack` of the buffer from the starting cursor on, and `good()` fails right after the last bit. From a fresh reader, packing the bits it returns gives the buffer back, which is the bit-stream round trip.

Doubles are modelled as exact `real` numbers.

## Model

| member | source | states |
|---|---|---|
| `SymExtension.Reflect` | src/wt_1d_direct.cpp:67-76 | the mirror map sends every extended position to a sample index below `n` and leaves positions inside the signal unchanged |
| `SymExtension.ReflectIsPeriodicMirror` | src/wt_1d_direct.cpp:67-76 | the recursive mirror map equals whole-sample symmetric extension in closed form: periodic with period `2(n-1)`, reflected about 0 and `n-1` within a period |
| `SymExtension.SourceTargetInverse` | src/wt_1d_direct.cpp:52-65 | the copy places the `n` samples on `n` distinct centre cells: the interleaved placement (first half on even cells, second half on odd cells) and its inverse undo each other in both directions |
| `SymExtension.SourceIndex` | src/wt_1d_direct.cpp:52-65 | every centre offset of the window is filled from a sample index below `n`: in order for the plain copy, the first half on even offsets and the second half on odd offsets for the interleaved copy |
| `SymExtension.Strided` | src/wt_1d_direct.cpp:56-57 | the strided view `x[0], x[stride], ...` of the caller's buffer has exactly `n` samples |
| `SymExtension.StridedAt` | src/wt_1d_direct.cpp:55-63 | sample `i` of the strided signal is `x[i*stride]`, which lies inside the buffer |
| `SymExtension.StridedOne` | src/wt_1d_direct.cpp:83 | with stride 1, as both transforms call it (here and at line 99), the strided signal is the first `n` values of the buffer |
| `SymExtension.Cell` | src/wt_1d_direct.cpp:52-76 | every cell of the extension holds a sample of the signal, and in the plain layout the centre cell `h+i` holds sample `i` |
| `SymExtension.Window` | src/wt_1d_direct.cpp:49 | the extended buffer has `n + 2*(size/2) + 1` cells |
| `SymExtension.PlainPlacement` | src/wt_1d_direct.cpp:60-65 | in the plain layout, cell `h+i` of the window holds sample `i` |
| `SymExtension.InterleavedPlacement` | src/wt_1d_direct.cpp:52-58 | in the interleaved layout, sample `i < n/2` sits at cell `h+2i` and sample `n/2+i` at cell `h+2i+1` |
| `SymExtension.PlainCenter` | src/wt_1d_direct.cpp:60-65 | any buffer that the plain copy has filled agrees with the window on all `n` centre cells |
| `SymExtension.InterleavedCenter` | src/wt_1d_direct.cpp:52-58 | any buffer that the interleaved copy has filled agrees with the window on all `n` centre cells |
| `SymExtension.LeftMirror` | src/wt_1d_direct.cpp:68-74 | each left border cell `k < h` equals its mirror image `2h - k` about the first sample |
| `SymExtension.RightMirror` | src/wt_1d_direct.cpp:69-75 | each right border cell `k >= n + h` equals its mirror image `2(n+h-1) - k` about the last sample |
| `SymExtension.TrailingCell` | src/wt_1d_direct.cpp:76 | the extra last cell `n + 2h` repeats cell `n - 2` |
| `SymExtension.ConstantWindow` | src/wt_1d_direct.cpp:48-77 | extending a constant signal gives a constant window: the border cells hold signal values only |
| `WaveletDirect.FilterBank.Valid` | src/wt_1d_direct.cpp:49 | the filter bank invariant the transform relies on: an even number of taps, and four filters of exactly that length |
| `WaveletDirect.Dot` | src/wt_1d_direct.cpp:88-90 | the `+=` accumulation of one filter against `size` consecutive scratch cells, in increasing tap order |
| `WaveletDirect.DotSilent` | src/wt_1d_direct.cpp:88-90 | a tap sum is zero when the scratch cells it reads are all zero, or when its taps are all zero |
| `WaveletDirect.SynthTap` | src/wt_1d_direct.cpp:106-107 | the high-pass synthesis tap applies exactly where `i + d` is odd and the low-pass tap where it is even, which upsamples the two interleaved bands |
| `WaveletDirect.Synth` | src/wt_1d_direct.cpp:102-107 | the `+=` accumulation of the parity-selected synthesis taps against `size` scratch cells from output index `i` |
| `WaveletDirect.SynthSilent` | src/wt_1d_direct.cpp:102-107 | a synthesis sum is zero when the scratch cells it reads are all zero |
| `WaveletDirect.Analyse` | src/wt_1d_direct.cpp:84-92 | one analysis pass over an extended buffer yields exactly `n` coefficients |
| `WaveletDirect.Synthesise` | src/wt_1d_direct.cpp:100-109 | one synthesis pass over an extended buffer yields exactly `n` samples |
| `WaveletDirect.Forward` | src/wt_1d_direct.cpp:80-93 | the forward transform of `n` samples has `n` coefficients |
| `WaveletDirect.Inverse` | src/wt_1d_direct.cpp:96-110 | the inverse transform of `n` coefficients has `n` samples |
| `WaveletDirect.DotConstant` | src/wt_1d_direct.cpp:87-90 | a filter applied to a constant stretch of the buffer gives the constant times the sum of its taps |
| `WaveletDirect.SynthConstant` | src/wt_1d_direct.cpp:102-107 | a parity-selected synthesis sum over a constant stretch gives the constant times the sum of the selected taps |
| `WaveletDirect.AnalyseConstant` | src/wt_1d_direct.cpp:84-92 | on a constant buffer every approximation coefficient is `c` times the low-pass sum, and every detail coefficient is `c` times the high-pass sum |
| `WaveletDirect.SynthesiseConstant` | src/wt_1d_direct.cpp:100-109 | on a constant buffer output `i` is `c` times the sum of the synthesis taps that the parity of `i + d` selects |
| `WaveletDirect.ForwardConstant` | src/wt_1d_direct.cpp:80-93 | the forward transform of a constant signal is constant on each band, with the band's filter sum as the gain |
| `WaveletDirect.InverseConstant` | src/wt_1d_direct.cpp:96-110 | the inverse transform of a constant input is `c` times the parity-selected synthesis sums |
| `WaveletDirect.WindowCombine` | src/wt_1d_direct.cpp:48-77 | symmetric extension commutes with linear combinations of signals |
| `WaveletDirect.DotLinear` | src/wt_1d_direct.cpp:87-90 | a filter tap sum is linear in the buffer |
| `WaveletDirect.SynthLinear` | src/wt_1d_direct.cpp:102-107 | a synthesis tap sum is linear in the buffer |
| `WaveletDirect.AnalyseLinear` | src/wt_1d_direct.cpp:84-92 | an analysis pass is linear in the buffer |
| `WaveletDirect.SynthesiseLinear` | src/wt_1d_direct.cpp:100-109 | a synthesis pass is linear in the buffer |
| `WaveletDirect.ForwardLinear` | src/wt_1d_direct.cpp:80-93 | the forward transform maps `a*x + y` to `a*Forward(x) + Forward(y)` |
| `WaveletDirect.InverseLinear` | src/wt_1d_direct.cpp:96-110 | the inverse transform maps `a*x + y` to `a*Inverse(x) + Inverse(y)` |
| `WaveletDirect.DotPrefix` | src/wt_1d_direct.cpp:87-90 | a tap sum reads only the `size` cells starting at its offset |
| `WaveletDirect.SynthPrefix` | src/wt_1d_direct.cpp:102-107 | a synthesis sum reads only the `size` cells starting at its output index |
| `WaveletDirect.AnalyseWindowOnly` | src/wt_1d_direct.cpp:84-92 | an analysis pass reads only the first `n + 2*(size/2) + 1` cells, so scratch cells left over from longer signals do not matter |
| `WaveletDirect.SynthesiseWindowOnly` | src/wt_1d_direct.cpp:100-109 | a synthesis pass reads only the first `n + 2*(size/2) + 1` cells, so scratch cells left over from longer signals do not matter |
| `WaveletDirect.WtDirect.constructor` | src/wt_1d_direct.cpp:42 | the strategy keeps the filter bank it is given and starts with an empty scratch buffer |
| `WaveletDirect.WtDirect.SymExtend` | src/wt_1d_direct.cpp:48-77 | the scratch buffer grows to at least `n + 2h + 1` cells and never shrinks; its first `n + 2h + 1` cells are the symmetric extension of the strided signal; cells past that are unchanged |
| `WaveletDirect.WtDirect.CopyPlain` | src/wt_1d_direct.cpp:60-65 | cell `h+i` receives strided sample `i`; no other cell changes |
| `WaveletDirect.WtDirect.CopyInterleaved` | src/wt_1d_direct.cpp:52-58 | cells `h+2i` and `h+2i+1` receive strided samples `i` and `n/2+i`; no other cell changes |
| `WaveletDirect.WtDirect.ExtendBorders` | src/wt_1d_direct.cpp:67-76 | given the centre cells, the mirror loop and the trailing assignment fill every border cell with its mirror image; cells past the window are unchanged |
| `WaveletDirect.WtDirect.FwtSingle` | src/wt_1d_direct.cpp:80-93 | the first `n` values of `data` become the forward transform of their old values; the rest of `data` is untouched; `temp` holds the plain extension |
| `WaveletDirect.WtDirect.AnalysisPass` | src/wt_1d_direct.cpp:84-92 | the outer loop leaves the analysis of the scratch buffer in `data[..n]`; the rest of `data` is untouched |
| `WaveletDirect.WtDirect.AnalysePair` | src/wt_1d_direct.cpp:86-91 | iteration `i` sets `data[i]` to the low-pass sum at `2i` and `data[n/2+i]` to the high-pass sum at `2i+1`; nothing else changes |
| `WaveletDirect.WtDirect.IwtSingle` | src/wt_1d_direct.cpp:96-110 | the first `n` values of `data` become the inverse transform of their old values; the rest of `data` is untouched; `temp` holds the interleaved extension |
| `WaveletDirect.WtDirect.SynthesisPass` | src/wt_1d_direct.cpp:100-109 | the outer loop leaves the synthesis of the scratch buffer in `data[..n]`; the rest of `data` is untouched |
| `WaveletDirect.WtDirect.SynthesiseAt` | src/wt_1d_direct.cpp:101-108 | iteration `i` sets `data[i]` to the parity-selected synthesis sum at `i`; nothing else changes |
| `BitStream.MaskAt` | src/vector_ibitstream.h:49 | the mask for each of the eight bit positions has exactly one bit set |
| `BitStream.Offset` | src/vector_ibitstream.h:49 | every single-bit mask selects one of the eight bit positions, and `MaskAt` maps that position back to the mask |
| `BitStream.ShiftMask` | src/vector_ibitstream.h:66 | shifting a mask other than `0x01` right by one selects the next bit of the same byte |
| `BitStream.Unpack` | src/vector_ibitstream.h:64-75 | a buffer of `m` bytes yields `8m` bits |
| `BitStream.Pack` | src/vector_ibitstream.h:64-75 | `8m` bits reassemble into `m` bytes |
| `BitStream.UnpackAt` | src/vector_ibitstream.h:65 | bit `j` of byte `p`, counting from the most significant bit, is bit `8p + j` of the stream |
| `BitStream.ByteRoundTrip` | src/vector_ibitstream.h:64-75 | reading a byte's eight bits and reassembling them gives the byte back |
| `BitStream.AssembleBits` | src/vector_ibitstream.h:64-75 | the eight bits read from an assembled byte are the bits it was assembled from |
| `BitStream.AssembleBit` | src/vector_ibitstream.h:65 | bit `j` of an assembled byte is exactly the `j`-th assembled bit |
| `BitStream.ByteReadBack` | src/vector_ibitstream.h:64-75 | the eight stream bits of byte `p` reassemble to byte `p` |
| `BitStream.PackUnpack` | src/vector_ibitstream.h:64-75 | packing the bits read from a buffer gives the buffer back |
| `BitStream.UnpackPack` | src/vector_ibitstream.h:64-75 | reading the bits of packed bits gives the bits back |
| `BitStream.VectorIBitstream.Valid` | src/vector_ibitstream.h:46-51 | the reader invariant over its fields: `pos_` never passes `end_`, `mask_` has exactly one bit set, and at `end_` the mask is back at `0x80` |
| `BitStream.VectorIBitstream.Cursor` | src/vector_ibitstream.h:46-51 | the number of bits consumed never exceeds `8 * end` |
| `BitStream.VectorIBitstream.Good` | src/vector_ibitstream.h:78-80 | `good()` holds exactly when bits remain, that is, when the cursor is below `8 * end` |
| `BitStream.VectorIBitstream.ReadBit` | src/vector_ibitstream.h:64-75 | returns the bit the mask selects in the current byte, which is the next bit of the stream; moves the cursor by one bit, wrapping to the next byte with mask `0x80` after `0x01`; counts one more bit read; keeps the reader state consistent |
| `BitStream.ReadAll` | src/vector_ibitstream.h:64-80 | reading while `good()` returns every remaining bit of the buffer, most significant bit first, and stops exactly at the end of the buffer; from a fresh reader the bits read reassemble, byte by byte, into the buffer |

## Left out

- Floating point: doubles are exact reals, so rounding and the accumulation order of the `+=` sums are not modelled.
- The perfect-reconstruction round trip, inverse of forward, is not stated. It holds only for particular filter coefficients and only up to rounding, and the filter bank's coefficients are not part of this model. The constant-signal, linearity and window-only properties are proved for every filter bank instead.
- The lifting strategy (`wt_1d_lift.h`) is not part of this model.
- The filter bank's construction and validation, the `divisible_by_2` helper, the 2-D/N-D orchestration and the bit writer are not part of this model. `FilterBank.Valid` states the filter bank invariant (even size, four arrays of that length) as a precondition.
- The variable-length codec exercised by `tests/vltest.cpp` is not part of this model.
- The bit reader's constructor, `in_bytes` and `next_byte` are declared in the header without a body, so they are not modelled. `VectorIBitstream` has no constructor. `Valid()` describes the states reachable from a fresh reader. The fresh state, `pos == 0` and `mask == 0x80`, is assumed here rather than derived from the constructor.
- Concurrency: one strategy instance shared by two calls would share `temp_`. This is not modelled.
- `WaveletDirect.WtDirect.SymExtend`: requires `n >= 2`, plus `n` even in the interleaved layout. The source calls it only from the transforms, which assert an even `n`. With `n == 0` the source's mirror loop reads before the buffer.
- `WaveletDirect.WtDirect.FwtSingle`: requires `n >= 2` besides the source's even `n`; an empty signal is not modelled.
- `WaveletDirect.WtDirect.IwtSingle`: requires `n >= 2` besides the source's even `n`; an empty signal is not modelled.
- `WaveletDirect.WtDirect.SymExtend`: `std::vector::resize` value-initialises new cells to `0.0`. The model pads with `0.0` too, and every padded cell lies inside the window, which is overwritten.
- The source needs no `n >= size`, although the transform's documented precondition asks for it. The model follows the code. For `size/2 > n-1` the mirror loop reads cells it has itself written, and the result is still the periodic whole-sample reflection, which `ReflectIsPeriodicMirror` states.
- The width of `size_t` and `int` is not modelled: all indices are unbounded integers, and `tsize` and the cursors `l`/`r` cannot overflow in the model.
- `BitStream.VectorIBitstream.ReadBit`: `total_bits_` is a `size_t` and wraps at 2^64. The model's counter is an unbounded natural.
- `BitStream.VectorIBitstream.ReadBit`: requires `good()`. The source leaves a read past the end undefined.
