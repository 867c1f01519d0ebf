# Dropout reference kernels of the LIBXSMM element-wise sample

This project models the reference ("gold") dropout kernels of LIBXSMM's
element-wise unary dropout sample, and proves what they write.

**Forward** (`dropout_fwd_*_gold`):
- A call handles one row of `M` elements in vectors of 16 lanes (AVX-512) or 8 lanes (AVX2).
- For each vector it draws one vector of random values from a random state owned by the caller.
- A lane is kept when its random value is below `1 - p`.
- A kept lane's output is the input times `1 / (1 - p)`; a dropped lane's output is zero.
- The vector's decisions are recorded as one mask word (`unsigned short`, AVX-512) or one mask byte (AVX2), lane `j` in bit `j`.

**Backward** (`dropout_bwd_*_gold`) reads the recorded mask back and applies the same masked multiply. It draws no random values.

**AVX-512 tail.** When `M` is not a multiple of 16, a last partial vector of `rem = M % 16` lanes runs under the lane mask `(1 << rem) - 1`:
- it draws a full vector of random values;
- it loads and stores only `rem` lanes;
- it clears the mask bits from `rem` up.

**AVX2 tail.** The AVX2 kernels have no tail (the block is compiled out), so the last `M % 8` elements are neither written nor recorded.

**Precision variants.** The four AVX-512 variants (f32→f32, bf16→bf16, f32→bf16, bf16→f32) differ only in how a lane is loaded and stored:
- A BF16 load sign-extends and shifts left by 16.
- A BF16 store rounds, shifts right arithmetically by 16 and truncates to 16 bits.

**Test driver.** The test program computes its reference result by calling a kernel once per row:
- row `i` is at `in + i*ldi` and `out + i*ldo`, with its mask at byte `(i*ldo)/8`;
- all rows share one random state.

The driving loop is the same whichever kernels the build selects. With AVX-512 the mask is a buffer of 16-bit words; with AVX2 only, the kernels read and write it as bytes.

**Abstractions.**
- Float arithmetic is not modelled bit-exactly. The comparison with `1 - p` and the multiplication by `1 / (1 - p)` are the parameters `keep` and `scale` of `Dropout.Prob`.
- The random generator is the parameter `stream` of `Rng.RngState`: `stream(k)(j)` is lane `j` of the `k`-th vector drawn. The state counts the vectors drawn so far (`drawn`).
- BF16 rounding is a parameter `round`.

**Modules.**
- `Align`: `LIBXSMM_ALIGNDOWN` on 32-bit unsigned values.
- `Precision`: the BF16 widening and narrowing bit operations.
- `MaskBits`: mask words and bytes.
- `Rng`: the random state.
- `Dropout`: the shared abstractions.
- `Dropout512`: the AVX-512 kernels, generic over the precision pair `Conv`.
- `Dropout256`: the AVX2 kernels.
- `RowLayout`: where row `r` of a strided buffer starts.
- `RowDriver`: the per-row driving loops over the AVX-512 kernels.
- `RowDriver256`: the same loops in a build with AVX2 but without AVX-512, over the AVX2 kernels.

The kernels are imperative methods over `array`s:
- the output buffer and the mask buffer are updated in place;
- the random state is a class whose counter advances once per vector.

Each method is proved against a function that states the whole buffer afterwards: `ForwardOut`, `ForwardMask`, `BackwardOut`, and `RowsOut`, `RowsMask`, `RowsBackwardOut` for several rows. Lemmas prove what those functions mean.

## Model

| member | source | states |
|---|---|---|
| Align.BitAndBits | samples/eltwise/eltwise_unary_dropout.c:25 | the `&` of the macro: bit `i` of the result is set iff it is set in both operands |
| Align.Complement32Bits | samples/eltwise/eltwise_unary_dropout.c:25 | the `~` of the macro on an `unsigned int`: bit `i < 32` of `~y` is set iff bit `i` of `y` is clear, and no bit from 32 up is set |
| Align.AndHighBits | samples/eltwise/eltwise_unary_dropout.c:25 | AND-ing with a mask that clears the low `k` of `w` bits rounds `x < 2^w` down to a multiple of `2^k` |
| Align.AlignDownValue | samples/eltwise/eltwise_unary_dropout.c:25 | `LIBXSMM_ALIGNDOWN(n, 2^k)` equals `n - n % 2^k` for every 32-bit `n` |
| Align.AlignDownIsFloor | samples/eltwise/eltwise_unary_dropout.c:25 | `LIBXSMM_ALIGNDOWN(n, 2^k)` is a multiple of `2^k`, at most `n`, and less than `2^k` below `n`: the largest such multiple |
| Precision.SignExtend | samples/eltwise/eltwise_unary_dropout.c:60 | `_mm512_cvtepi16_epi32` keeps the 16 bits in the low half and fills the high half with the sign bit |
| Precision.Widen | samples/eltwise/eltwise_unary_dropout.c:60 | a BF16 load puts the 16 bits in the upper half of the lane and zeros in the lower half; the sign extension is shifted out |
| Precision.ShiftRightArith16 | samples/eltwise/eltwise_unary_dropout.c:63 | `_mm512_srai_epi32(v, 16)` moves the upper half down and fills the upper half with the sign bit |
| Precision.Upper16 | samples/eltwise/eltwise_unary_dropout.c:63 | shifting arithmetically and then truncating extracts exactly the upper 16 bits; the sign fill is discarded |
| Precision.Narrow | samples/eltwise/eltwise_unary_dropout.c:63 | a BF16 store keeps the upper 16 bits of the rounded value |
| Precision.UpperOfWiden | samples/eltwise/eltwise_unary_dropout.c:60-63 | the upper half of a widened BF16 is the BF16 itself, for every 16-bit value |
| MaskBits.TailMask | samples/eltwise/eltwise_unary_dropout.c:42-43 | `(1 << rem) - 1` for `1 <= rem < 16` enables exactly the lanes below `rem` |
| MaskBits.BitOfAnd | samples/eltwise/eltwise_unary_dropout.c:49 | a bit of `a & b` is set iff it is set in both words |
| MaskBits.PackBit | samples/eltwise/eltwise_unary_dropout.c:36 | packing lane decisions into a word puts lane `j` in bit `j`, and zeros above the last lane |
| MaskBits.PackByte | samples/eltwise/eltwise_unary_dropout.c:223 | packing up to 8 lane decisions into a byte puts lane `j` in bit `j`, and zeros above the last lane |
| MaskBits.PackThenUnpack | samples/eltwise/eltwise_unary_dropout.c:36-39 | reading a packed word's bits gives back the lane decisions |
| MaskBits.UnpackThenPack | samples/eltwise/eltwise_unary_dropout.c:134-135 | packing a word's 16 bits gives back the word |
| MaskBits.BitsDetermineWord | samples/eltwise/eltwise_unary_dropout.c:39 | two mask words with the same 16 bits are equal |
| Rng.RngState.constructor | samples/eltwise/eltwise_unary_dropout.c:381-382 | a fresh state from a seed has drawn nothing and yields the seed's stream |
| Rng.RngState.Next | samples/eltwise/eltwise_unary_dropout.c:34 | a draw returns the next vector of the stream and advances the count by one |
| Dropout512.BF16ToBF16 | samples/eltwise/eltwise_unary_dropout.c:60-63 | the bf16→bf16 variant widens on load (upper half the value, lower half zero) and stores the upper half of the rounded result |
| Dropout512.F32ToBF16 | samples/eltwise/eltwise_unary_dropout.c:85-88 | the f32→bf16 variant loads unchanged and stores the upper half of the rounded result |
| Dropout512.BF16ToF32 | samples/eltwise/eltwise_unary_dropout.c:110-113 | the bf16→f32 variant widens on load and stores unchanged |
| Dropout512.BF16StoreOfLoad | samples/eltwise/eltwise_unary_dropout.c:60-63 | a BF16 lane that is loaded and stored back, with rounding leaving it alone, comes back unchanged |
| Dropout512.DroppedLaneIsZero | samples/eltwise/eltwise_unary_dropout.c:37-38 | a dropped lane's `+0.0` is stored as zero by all four variants; for a BF16 output this holds when rounding leaves the upper half of `+0.0` clear |
| Dropout512.Chunks | samples/eltwise/eltwise_unary_dropout.c:33-44 | a row of `m` elements takes `ceil(m / 16)` vectors: enough to cover `m`, and no more |
| Dropout512.CompareMask | samples/eltwise/eltwise_unary_dropout.c:36 | bit `j` of the decision word is set iff lane `j`'s random value is kept |
| Dropout512.LoadTailVector | samples/eltwise/eltwise_unary_dropout.c:45 | the masked load reads the first `rem` inputs and yields zero in the other lanes |
| Dropout512.LoadLanes | samples/eltwise/eltwise_unary_dropout.c:35-45 | the load of a step yields the converted inputs in its first `lanes` lanes |
| Dropout512.StoreLanes | samples/eltwise/eltwise_unary_dropout.c:38-48 | a store under `(1 << lanes) - 1` writes exactly `lanes` cells from `at` and leaves every other cell |
| Dropout512.MaskWordBit | samples/eltwise/eltwise_unary_dropout.c:36-49 | bit `j` of the row's word `c` is set iff element `16c + j` lies in the row and was kept |
| Dropout512.ForwardMaskBits | samples/eltwise/eltwise_unary_dropout.c:36-49 | after forward, bit `j` of the row's word `c < ceil(m/16)` is set iff element `16c + j < m` was kept; the words outside the row are unchanged |
| Dropout512.TailBitsClear | samples/eltwise/eltwise_unary_dropout.c:41-49 | when `m % 16 != 0` the last word is word `m / 16`, and all its bits at or above `m % 16` are clear |
| Dropout512.ForwardWrites | samples/eltwise/eltwise_unary_dropout.c:37-48 | forward writes the converted `scale(in)` to a kept element and the stored `+0.0` to a dropped one (zero, by `DroppedLaneIsZero`), and leaves every cell outside the row's `m` elements unchanged |
| Dropout512.BackwardWrites | samples/eltwise/eltwise_unary_dropout.c:134-144 | backward writes element `k < m` from bit `k % 16` of the row's word `k / 16`, and leaves every cell outside the row's `m` elements unchanged |
| Dropout512.ForwardMaskFromWords | samples/eltwise/eltwise_unary_dropout.c:39-49 | a buffer holding the row's mask words in the row's slots and the old words elsewhere is the buffer that forward leaves |
| Dropout512.ForwardMaskHoldsRowWords | samples/eltwise/eltwise_unary_dropout.c:39-49 | after forward, the row's slots hold the `ceil(m/16)` words of the row |
| Dropout512.ForwardMaskBefore | samples/eltwise/eltwise_unary_dropout.c:39-49 | forward leaves the mask words before its row unchanged |
| Dropout512.BackwardOfRowWords | samples/eltwise/eltwise_unary_dropout.c:134-143 | backward over mask words equal to those forward records writes exactly what that forward call wrote |
| Dropout512.BackwardReplaysForward | samples/eltwise/eltwise_unary_dropout.c:37-47 | backward given forward's mask and the same input reproduces forward's output, for every precision pair |
| Dropout512.FullWord | samples/eltwise/eltwise_unary_dropout.c:39 | the decisions of a full vector are the row's mask word for it |
| Dropout512.TailWord | samples/eltwise/eltwise_unary_dropout.c:49 | `dmsk & ((1 << rem) - 1)` of the partial vector is the row's mask word for it |
| Dropout512.StoredWordIsMaskWord | samples/eltwise/eltwise_unary_dropout.c:39-49 | the word each vector stores is the row's mask word for it |
| Dropout512.ForwardStepMeaning | samples/eltwise/eltwise_unary_dropout.c:34-49 | one forward vector drawn as the row's `c`-th yields the row's forward values in its first `lanes` lanes and the row's word `c` |
| Dropout512.ForwardLane | samples/eltwise/eltwise_unary_dropout.c:35-38 | each lane of a forward vector is the forward value of its element |
| Dropout512.BackwardStepMeaning | samples/eltwise/eltwise_unary_dropout.c:133-143 | one backward vector reading word `c` yields the row's backward values in its first `lanes` lanes |
| Dropout512.BackwardLane | samples/eltwise/eltwise_unary_dropout.c:133-136 | each lane of a backward vector is the backward value of its element |
| Dropout512.LoopBound | samples/eltwise/eltwise_unary_dropout.c:33-42 | the loop stops at `m - m % 16` after `m / 16` vectors; the tail, if it runs, has 1 to 15 lanes; the vectors total `ceil(m / 16)` |
| Dropout512.ForwardVector | samples/eltwise/eltwise_unary_dropout.c:34-49 | one forward vector draws once, writes its elements' forward values and the row's word `c`, and nothing else |
| Dropout512.ForwardRow | samples/eltwise/eltwise_unary_dropout.c:28-51 | a forward call draws `ceil(m/16)` vectors, leaves the output as `ForwardOut` and the mask as `ForwardMask` (the other three variants at :53-126 differ only in `Conv`) |
| Dropout512.BackwardVector | samples/eltwise/eltwise_unary_dropout.c:133-144 | one backward vector writes its elements' backward values and nothing else |
| Dropout512.BackwardRow | samples/eltwise/eltwise_unary_dropout.c:128-145 | a backward call leaves the output as `BackwardOut` and changes nothing else (variants at :148-206) |
| Dropout256.LaneOfSign | samples/eltwise/eltwise_unary_dropout.c:219-223 | the sign bit of a compare result lane is its truth value |
| Dropout256.CompareVector | samples/eltwise/eltwise_unary_dropout.c:219 | each compare lane is all ones or all zeros, with the sign bit set iff the lane is kept |
| Dropout256.MoveMask | samples/eltwise/eltwise_unary_dropout.c:223 | bit `j` of the mask byte is the sign bit of lane `j` |
| Dropout256.BroadcastSelect | samples/eltwise/eltwise_unary_dropout.c:238-243 | the broadcast byte AND `1 << j` equals `1 << j` iff bit `j` of the byte is set |
| Dropout256.ExpandMask | samples/eltwise/eltwise_unary_dropout.c:241-243 | backward rebuilds lane `j` as all ones iff bit `j` of the mask byte is set |
| Dropout256.MoveMaskThenExpand | samples/eltwise/eltwise_unary_dropout.c:219-243 | expanding the byte collected from compare lanes gives back those lanes |
| Dropout256.ExpandThenMoveMask | samples/eltwise/eltwise_unary_dropout.c:223-243 | collecting the sign bits of an expanded byte gives back the byte |
| Dropout256.ByteBitsDetermineByte | samples/eltwise/eltwise_unary_dropout.c:223 | two bytes with the same 8 bits are equal |
| Dropout256.MaskByteBit | samples/eltwise/eltwise_unary_dropout.c:219-223 | bit `j` of mask byte `c` is set iff lane `j` of vector `c` was kept |
| Dropout256.ForwardWrites | samples/eltwise/eltwise_unary_dropout.c:216-229 | forward writes kept/dropped values to the first `m - m % 8` elements only; every later cell, the row's last `m % 8` included, is unchanged |
| Dropout256.BackwardWrites | samples/eltwise/eltwise_unary_dropout.c:239-252 | backward writes the first `m - m % 8` elements from their mask bits only; every later cell is unchanged |
| Dropout256.ForwardMaskBits | samples/eltwise/eltwise_unary_dropout.c:216-223 | after forward, bit `j` of byte `c < m / 8` records lane `j` of vector `c`; later bytes are unchanged |
| Dropout256.ForwardMaskHoldsRowBytes | samples/eltwise/eltwise_unary_dropout.c:216-223 | after forward, the row's slots hold the `m / 8` bytes of the row |
| Dropout256.ForwardMaskBefore | samples/eltwise/eltwise_unary_dropout.c:216-223 | forward leaves the mask bytes before its row unchanged |
| Dropout256.BackwardOfRowBytes | samples/eltwise/eltwise_unary_dropout.c:239-245 | backward over mask bytes equal to those forward records writes exactly what that forward call wrote |
| Dropout256.BackwardReplaysForward | samples/eltwise/eltwise_unary_dropout.c:219-245 | backward given forward's mask bytes and the same input reproduces forward's output |
| Dropout256.ForwardStepMeaning | samples/eltwise/eltwise_unary_dropout.c:217-223 | one forward vector yields its elements' forward values and the row's byte for it |
| Dropout256.BackwardStepMeaning | samples/eltwise/eltwise_unary_dropout.c:240-245 | one backward vector yields its elements' backward values from its mask byte |
| Dropout256.LoopBound | samples/eltwise/eltwise_unary_dropout.c:216 | the loop stops at `m - m % 8` after `m / 8` vectors |
| Dropout256.ForwardVector | samples/eltwise/eltwise_unary_dropout.c:217-223 | one forward vector draws once, writes its 8 elements and its byte, and nothing else |
| Dropout256.ForwardRow | samples/eltwise/eltwise_unary_dropout.c:209-230 | a forward call draws `m / 8` vectors, leaves the output as `ForwardOut` and the mask as `ForwardMask` |
| Dropout256.BackwardVector | samples/eltwise/eltwise_unary_dropout.c:240-246 | one backward vector writes its 8 elements and nothing else |
| Dropout256.BackwardRow | samples/eltwise/eltwise_unary_dropout.c:232-253 | a backward call leaves the output as `BackwardOut` |
| RowLayout.OffIsProduct | samples/eltwise/eltwise_unary_dropout.c:386 | the row start built up row by row is `r * ld` |
| RowLayout.OffMonotonic | samples/eltwise/eltwise_unary_dropout.c:386 | row `r < n` ends no later than row `n` starts |
| RowDriver.RowsOutAt | samples/eltwise/eltwise_unary_dropout.c:385-387 | after `n` rows, element `k < m` of row `r` is its forward value, drawn after the `r * ceil(m/16)` vectors of the earlier rows; padding `m <= k < ldo` is unchanged |
| RowDriver.RowsOutBeyond | samples/eltwise/eltwise_unary_dropout.c:385-387 | the cells past the last row are unchanged |
| RowDriver.RowsMaskWords | samples/eltwise/eltwise_unary_dropout.c:385-387 | after `N` rows, row `r`'s mask words are those of a forward call on that row alone, with its own random values |
| RowDriver.RowsBackwardReplaysForward | samples/eltwise/eltwise_unary_dropout.c:885-887 | backward over the rows, given the mask that forward over the rows left, writes exactly what forward wrote |
| RowDriver.ForwardRows | samples/eltwise/eltwise_unary_dropout.c:385-387 | driving forward over `n` rows on one random state draws `n * ceil(m/16)` vectors and leaves `RowsOut` and `RowsMask` (same loop at :510, :637, :764) |
| RowDriver.BackwardRows | samples/eltwise/eltwise_unary_dropout.c:885-887 | driving backward over `n` rows leaves `RowsBackwardOut` (same loop at :988, :1092, :1197) |
| RowDriver256.RowsOutAt | samples/eltwise/eltwise_unary_dropout.c:385-387 | after `n` rows on the AVX2 kernels, element `k < m - m % 8` of row `r` is its forward value, drawn after the `r * (m / 8)` vectors of the earlier rows; the row's last `m % 8` elements and the padding are unchanged |
| RowDriver256.RowsOutBeyond | samples/eltwise/eltwise_unary_dropout.c:385-387 | the cells past the last row are unchanged |
| RowDriver256.RowsMaskBytes | samples/eltwise/eltwise_unary_dropout.c:385-387 | after `N` rows, row `r`'s mask bytes are those of a forward call on that row alone, with its own random values |
| RowDriver256.RowsBackwardReplaysForward | samples/eltwise/eltwise_unary_dropout.c:885-887 | backward over the rows, given the mask bytes that forward over the rows left, writes exactly what forward wrote |
| RowDriver256.ForwardRows | samples/eltwise/eltwise_unary_dropout.c:385-387 | driving the AVX2 forward kernel over `n` rows on one random state draws `n * (m / 8)` vectors and leaves `RowsOut` and `RowsMask` |
| RowDriver256.BackwardRows | samples/eltwise/eltwise_unary_dropout.c:885-887 | driving the AVX2 backward kernel over `n` rows leaves `RowsBackwardOut` |

## Definitions

These functions transcribe one operator, intrinsic or loop body each. Their
contracts give at most lengths or restate the body; the lemmas named beside
them in the table above state what they mean. Source lines are in
samples/eltwise/eltwise_unary_dropout.c.

- `Align.BitAnd`: C's `&` on naturals (:25); meaning in `Align.BitAndBits`.
- `Align.Complement32`: C's `~` on an `unsigned int` (:25); meaning in `Align.Complement32Bits`.
- `Align.AlignDown`: `LIBXSMM_ALIGNDOWN` (:25); meaning in `Align.AlignDownValue` and `Align.AlignDownIsFloor`.
- `Precision.Truncate16`: `_mm512_cvtepi32_epi16` (:63); meaning in `Precision.Upper16`.
- `MaskBits.Pack`: lane decisions into a mask word (:36); meaning in `MaskBits.PackBit`, `MaskBits.PackThenUnpack` and `MaskBits.UnpackThenPack`.
- `Dropout512.F32ToF32`: the f32→f32 loads and stores (:35-38), both the identity.
- `Dropout512.LoadVector`: `_mm512_loadu_ps` (:35); meaning in `Dropout512.LoadLanes`.
- `Dropout512.StoreVector`: the store conversion of every lane before `_mm512_storeu_ps` (:38); meaning in `Dropout512.StoreLanes`.
- `Dropout512.MaskzMul`: `_mm512_maskz_mul_ps` (:37); meaning in `Dropout512.ForwardLane` and `Dropout512.BackwardLane`.
- `Dropout512.StoredWord`: the word stored at :39 and :49; meaning in `Dropout512.StoredWordIsMaskWord`.
- `Dropout512.ForwardStep`, `Dropout512.BackwardStep`: one vector of the loop or the tail (:34-39 and :44-49, :133-136 and :141-144); meaning in `Dropout512.ForwardStepMeaning` and `Dropout512.BackwardStepMeaning`.
- `Dropout256.LaneOf`: a compare result lane (:219); meaning in `Dropout256.LaneOfSign`.
- `Dropout256.Blend`: `_mm256_blendv_ps` (:221, :245); meaning in `Dropout256.ForwardStepMeaning` and `Dropout256.BackwardStepMeaning`.
- `Dropout256.Broadcast`, `Dropout256.Select`: `_mm256_set1_epi8` (:241) and the lanes of `vand` (:238); meaning in `Dropout256.BroadcastSelect`.
- `Dropout256.ForwardStep`, `Dropout256.BackwardStep`: the loop bodies (:217-223, :240-246); meaning in `Dropout256.ForwardStepMeaning` and `Dropout256.BackwardStepMeaning`.

## Left out

- Float arithmetic is not modelled bit-exactly: `1 - p`, `1.0 / pn`, the multiply and the comparison with the random value are the parameters `keep` and `scale`.
- The two comparisons differ on NaN random values: AVX-512 uses `cmplt`, and AVX2 uses `_CMP_NLE_UQ`, which keeps a NaN. Both are `keep`, and the difference is not captured.
- `LIBXSMM_INTRINSICS_MM512_ROUNDNE_BF16` is a library macro not part of this model. It is the parameter `round`; only the upper-16-bit extraction after it is modelled. Nothing is assumed of `round`, so the BF16 value a dropped lane receives is zero only under the condition `Dropout512.DroppedLaneIsZero` names.
- The random generator (`LIBXSMM_INTRINSICS_MM512_RNG_EXTSTATE_PS`, `..._MM256_...`, `libxsmm_rng_create_extstate`) is a given stream per seed. `libxsmm_rng_destroy_extstate` is not modelled.
- The order of the output store and the mask store within one vector is not captured: the two buffers are distinct, so it does not affect the result.
- The JIT-dispatched kernel, the comparison of its results with the reference, allocation, printing, argument parsing and `main` are harness code outside the kernels.
- The stand-in definitions that only report an error are not modelled: the f32 kernels of a build without AVX2 (lines 255-272), and the other precision pairs in any build without AVX-512BW (lines 275-330).
- The input row is a `seq`, so aliasing between input and output is not modelled. Output and mask are required to be distinct arrays.
- RowDriver.ForwardRows: requires `ldo % 16 == 0`, so the mask byte offset `(i*ldo)/8` (line 386) is a whole number of 16-bit words. For `ldo % 16 == 8` a row's mask starts at an odd byte, which a word array cannot express; the next row then overwrites only the high byte of the previous row's last word, whose bits lie past `M`. For `ldo % 8 != 0` the rows' masks overlap where it matters: with `M = ldo = 20`, row 0's second word (elements 16..19) is at bytes 2..3 and row 1's first word is stored at byte `20/8 = 2`, over it. Backward over the rows then applies row 1's decisions to row 0's elements 16..19, so the replay that `RowDriver.RowsBackwardReplaysForward` proves does not hold for such strides. The test program accepts them: it only checks `M <= ldo` (line 349).
- RowDriver.BackwardRows: requires `ldo % 16 == 0` for the same reason.
- RowDriver256.ForwardRows: requires `ldo % 8 == 0`, so the mask byte offset `(i*ldo)/8` equals `i * (ldo / 8)` and the rows' mask bytes follow one another at a fixed stride. For other strides the AVX2 rows' bytes still do not overlap (a row writes `M/8 <= ldo/8` bytes), but their offsets are not a fixed stride, which the model does not express.
- RowDriver256.BackwardRows: requires `ldo % 8 == 0` for the same reason.
- Only the f32 variants have AVX2 kernels, so `RowDriver256` drives the f32 kernels alone; in such a build the other precision pairs are the error-reporting stand-ins.
- The harness sizes and pre-fills the reference mask buffer (`N*(mask_ld+1)` bytes, filled with `0xaa` before backward). That is not modelled; the model's mask buffer is any array large enough for the rows.
- The compiled-out AVX2 tail (lines 225-229, 248-252) is modelled as absent: the last `m % 8` elements are not written, get no mask bits and draw nothing.
