/** The AVX-512 reference ("gold") dropout kernels (built with `__AVX512BW__`).
 *
 *  A forward call walks one row of `m` elements in vectors of 16 lanes. For
 *  each vector it draws 16 random values, keeps lane `j` iff its value is
 *  below the keep probability `1 - p`, writes the scaled input for kept lanes
 *  and zero for dropped ones, and stores the 16 decisions as one mask word.
 *  When `m` is not a multiple of 16 a last, partial vector handles the
 *  remaining `rem` lanes under the lane mask `(1 << rem) - 1`: it still draws
 *  a full vector, stores only `rem` outputs, and clears the mask bits from
 *  `rem` up. A backward call reads the mask words back and applies the same
 *  masked multiply without drawing.
 *
 *  Here `Prob.keep(r)` stands for `_mm512_cmplt_ps_mask(r, 1 - p)`, that is
 *  `r < 1 - p`. The four precision variants differ only in how a lane is
 *  loaded into and stored from an F32 (`Conv`).
 */
module Dropout512 {
  import opened Align
  import opened MaskBits
  import opened Precision
  import opened Rng
  import opened Dropout

  /** How one precision pair loads an input lane into an F32 and stores an F32 result. */
  datatype Conv<-In, Out> = Conv(load: In -> F32, store: F32 -> Out)

  function SameF32(x: F32): F32 { x }

  /** `dropout_*_f32_f32_gold`: plain float loads and stores. */
  function F32ToF32(): (c: Conv<F32, F32>)
    ensures forall x :: c.load(x) == x && c.store(x) == x
  {
    Conv(SameF32, SameF32)
  }

  /** `dropout_*_bf16_bf16_gold`: widening loads, rounding narrowing stores. */
  function BF16ToBF16(round: F32 -> F32): (c: Conv<BF16, BF16>)
    ensures forall x :: c.load(x) >> 16 == x as bv32 && c.load(x) & 0xFFFF == 0
    ensures forall v :: c.store(v) as bv32 == round(v) >> 16
  {
    Conv(Widen, v => Narrow(round, v))
  }

  /** `dropout_*_f32_bf16_gold`: float loads, rounding narrowing stores. */
  function F32ToBF16(round: F32 -> F32): (c: Conv<F32, BF16>)
    ensures forall x :: c.load(x) == x
    ensures forall v :: c.store(v) as bv32 == round(v) >> 16
  {
    Conv(SameF32, v => Narrow(round, v))
  }

  /** `dropout_*_bf16_f32_gold`: widening loads, float stores. */
  function BF16ToF32(): (c: Conv<BF16, F32>)
    ensures forall x :: c.load(x) >> 16 == x as bv32 && c.load(x) & 0xFFFF == 0
    ensures forall v :: c.store(v) == v
  {
    Conv(Widen, SameF32)
  }

  /** A kept BF16 lane whose scaled value the rounding step leaves alone is
   *  stored back unchanged: the BF16 load and store lose nothing. */
  lemma BF16StoreOfLoad(round: F32 -> F32, x: BF16)
    requires round(Widen(x)) == Widen(x)
    ensures BF16ToBF16(round).store(BF16ToBF16(round).load(x)) == x
  {
    UpperOfWiden(x);
  }

  /** A dropped lane, `+0.0`, is stored as zero by every variant: unchanged by
   *  an f32 store, and the BF16 `+0.0` by a BF16 store as long as rounding
   *  leaves the upper half of `+0.0` clear, as round-to-nearest-even does. */
  lemma DroppedLaneIsZero(round: F32 -> F32)
    requires round(Zero) >> 16 == 0
    ensures F32ToF32().store(Zero) == Zero && BF16ToF32().store(Zero) == Zero
    ensures BF16ToBF16(round).store(Zero) == 0 && F32ToBF16(round).store(Zero) == 0
  {
  }

  /** The number of vectors a row of `m` elements takes: `ceil(m / 16)`. */
  function Chunks(m: nat): (c: nat)
    ensures 16 * c >= m && (c == 0 || 16 * (c - 1) < m)
  {
    (m + 15) / 16
  }

  // ---------------------------------------------------------------------------
  // Vector operations of one kernel step
  // ---------------------------------------------------------------------------

  /** `_mm512_cmplt_ps_mask(rnd, vp)`: one decision bit per lane. */
  function CompareMask(rnd: seq<F32>, keep: F32 -> bool): (w: bv16)
    requires |rnd| == 16
    ensures forall j :: 0 <= j < 16 ==> Bit(w, j) == keep(rnd[j])
  {
    var d := seq(16, j requires 0 <= j < 16 => keep(rnd[j]));
    forall j | 0 <= j < 16 ensures Bit(Pack(d), j) == keep(rnd[j]) {
      PackBit(d, j);
    }
    Pack(d)
  }

  /** `_mm512_loadu_ps(in + i)` with the variant's conversion: lanes `i .. i + 16`. */
  function LoadVector<In>(input: seq<In>, i: nat, load: In -> F32): (v: seq<F32>)
    requires i + 16 <= |input|
    ensures |v| == 16 && forall j :: 0 <= j < 16 ==> v[j] == load(input[i + j])
  {
    seq(16, j requires 0 <= j < 16 => load(input[i + j]))
  }

  /** `_mm512_maskz_loadu_ps(mask, in + i)` with `mask == (1 << rem) - 1`:
   *  only the first `rem` lanes are read, the others are zero. */
  function LoadTailVector<In>(input: seq<In>, i: nat, rem: nat, load: In -> F32): (v: seq<F32>)
    requires 1 <= rem < 16 && i + rem <= |input|
    ensures |v| == 16
    ensures forall j :: 0 <= j < 16 ==> v[j] == if j < rem then load(input[i + j]) else Zero
  {
    seq(16, j requires 0 <= j < 16 => if Bit(TailMask(rem), j) then load(input[i + j]) else Zero)
  }

  /** The load of a kernel step: the full load in the loop body
   *  (`lanes == 16`), the masked load in the tail block otherwise. */
  function LoadLanes<In>(input: seq<In>, i: nat, lanes: nat, load: In -> F32): (v: seq<F32>)
    requires 1 <= lanes <= 16 && i + lanes <= |input|
    ensures |v| == 16
    ensures forall j :: 0 <= j < lanes ==> v[j] == load(input[i + j])
  {
    if lanes == 16 then LoadVector(input, i, load) else LoadTailVector(input, i, lanes, load)
  }

  /** `_mm512_maskz_mul_ps(dmsk, vin, vpi)`: scaled lanes where the mask bit is set, zero elsewhere. */
  function MaskzMul(dmsk: bv16, vin: seq<F32>, scale: F32 -> F32): (v: seq<F32>)
    requires |vin| == 16
    ensures |v| == 16
  {
    seq(16, j requires 0 <= j < 16 => if Bit(dmsk, j) then scale(vin[j]) else Zero)
  }

  /** The store conversion applied to every lane of a vector. */
  function StoreVector<Out>(v: seq<F32>, store: F32 -> Out): (r: seq<Out>)
    requires |v| == 16
    ensures |r| == 16 && forall j :: 0 <= j < 16 ==> r[j] == store(v[j])
  {
    seq(16, j requires 0 <= j < 16 => store(v[j]))
  }

  /** `_mm512_storeu_ps(out + at, v)` when `lanes == 16`, and the lane-masked
   *  `_mm512_mask_storeu_ps(out + at, (1 << lanes) - 1, v)` otherwise, whose
   *  mask enables exactly the first `lanes` lanes (`TailMask`). */
  method StoreLanes<T>(a: array<T>, at: nat, v: seq<T>, lanes: nat)
    requires lanes <= |v| && at + lanes <= a.Length
    modifies a
    ensures forall x :: 0 <= x < a.Length ==> a[x] == if at <= x < at + lanes then v[x - at] else old(a[x])
  {
    forall x | at <= x < at + lanes {
      a[x] := v[x - at];
    }
  }

  // ---------------------------------------------------------------------------
  // What a row computes
  // ---------------------------------------------------------------------------

  /** The forward result for element `k` of a row. */
  function ForwardValue<In, Out>(input: seq<In>, k: nat, stream: nat -> nat -> F32, base: nat,
                                 prob: Prob, conv: Conv<In, Out>): Out
    requires k < |input|
  {
    conv.store(if Kept(stream, prob.keep, base, k / 16, k % 16) then prob.scale(conv.load(input[k])) else Zero)
  }

  /** The output buffer after a forward call on the row of `m` elements that
   *  starts at `oo`: the row's elements are written, every other cell keeps
   *  its value. */
  function ForwardOut<In, Out>(input: seq<In>, out0: seq<Out>, oo: nat, m: nat,
                               stream: nat -> nat -> F32, base: nat, prob: Prob, conv: Conv<In, Out>): seq<Out>
    requires m <= |input| && oo + m <= |out0|
  {
    seq(|out0|, x requires 0 <= x < |out0| =>
      if oo <= x < oo + m then ForwardValue(input, x - oo, stream, base, prob, conv) else out0[x])
  }

  /** The mask word of the row's `c`-th vector: bit `j` records whether element
   *  `16 c + j` exists and was kept. */
  function MaskWord(m: nat, c: nat, stream: nat -> nat -> F32, keep: F32 -> bool, base: nat): bv16
  {
    Pack(seq(16, j requires 0 <= j < 16 => 16 * c + j < m && Kept(stream, keep, base, c, j)))
  }

  /** The mask buffer after a forward call whose mask words start at `mo`. */
  function ForwardMask(mask0: seq<bv16>, mo: nat, m: nat,
                       stream: nat -> nat -> F32, keep: F32 -> bool, base: nat): seq<bv16>
    requires mo + Chunks(m) <= |mask0|
  {
    seq(|mask0|, x requires 0 <= x < |mask0| =>
      if mo <= x < mo + Chunks(m) then MaskWord(m, x - mo, stream, keep, base) else mask0[x])
  }

  /** The backward result for element `k` of a row, from the recorded mask bit. */
  function BackwardValue<In, Out>(input: seq<In>, k: nat, mask: seq<bv16>, mo: nat,
                                  prob: Prob, conv: Conv<In, Out>): Out
    requires k < |input| && mo + k / 16 < |mask|
  {
    conv.store(if Bit(mask[mo + k / 16], k % 16) then prob.scale(conv.load(input[k])) else Zero)
  }

  /** The output buffer after a backward call on the row of `m` elements. */
  function BackwardOut<In, Out>(input: seq<In>, out0: seq<Out>, oo: nat, mask: seq<bv16>, mo: nat, m: nat,
                                prob: Prob, conv: Conv<In, Out>): seq<Out>
    requires m <= |input| && oo + m <= |out0| && mo + Chunks(m) <= |mask|
  {
    seq(|out0|, x requires 0 <= x < |out0| =>
      if oo <= x < oo + m then BackwardValue(input, x - oo, mask, mo, prob, conv) else out0[x])
  }

  // ---------------------------------------------------------------------------
  // Properties of a row
  // ---------------------------------------------------------------------------

  lemma DivModLane(c: nat, j: nat)
    requires j < 16
    ensures (16 * c + j) / 16 == c && (16 * c + j) % 16 == j
  {}

  /** Bit `j` of the `c`-th mask word is set exactly when element `16 c + j`
   *  lies in the row and was kept. */
  lemma MaskWordBit(m: nat, c: nat, stream: nat -> nat -> F32, keep: F32 -> bool, base: nat, j: nat)
    requires j < 16
    ensures Bit(MaskWord(m, c, stream, keep, base), j) == (16 * c + j < m && Kept(stream, keep, base, c, j))
  {
    PackBit(seq(16, i requires 0 <= i < 16 => 16 * c + i < m && Kept(stream, keep, base, c, i)), j);
  }

  /** After forward, bit `j` of the row's mask word `c` is set exactly when
   *  element `16 c + j` lies in the row and was kept; the words outside the
   *  row are unchanged. */
  lemma ForwardMaskBits(mask0: seq<bv16>, mo: nat, m: nat, stream: nat -> nat -> F32, keep: F32 -> bool, base: nat)
    requires mo + Chunks(m) <= |mask0|
    ensures |ForwardMask(mask0, mo, m, stream, keep, base)| == |mask0|
    ensures forall c, j :: 0 <= c < Chunks(m) && 0 <= j < 16 ==>
      (Bit(ForwardMask(mask0, mo, m, stream, keep, base)[mo + c], j) <==> 16 * c + j < m && Kept(stream, keep, base, c, j))
    ensures forall x :: 0 <= x < |mask0| && !(mo <= x < mo + Chunks(m)) ==>
      ForwardMask(mask0, mo, m, stream, keep, base)[x] == mask0[x]
  {
    forall c, j | 0 <= c < Chunks(m) && 0 <= j < 16
      ensures Bit(ForwardMask(mask0, mo, m, stream, keep, base)[mo + c], j) <==> 16 * c + j < m && Kept(stream, keep, base, c, j)
    {
      MaskWordBit(m, c, stream, keep, base, j);
    }
  }

  /** When `m` is not a multiple of 16 its last word is word `m / 16`, and
   *  every bit of it at or above `rem = m % 16` is clear. */
  lemma TailBitsClear(m: nat, stream: nat -> nat -> F32, keep: F32 -> bool, base: nat)
    requires m % 16 != 0
    ensures m / 16 == Chunks(m) - 1
    ensures forall j :: m % 16 <= j < 16 ==> !Bit(MaskWord(m, m / 16, stream, keep, base), j)
  {
    forall j | m % 16 <= j < 16 ensures !Bit(MaskWord(m, m / 16, stream, keep, base), j) {
      MaskWordBit(m, m / 16, stream, keep, base, j);
    }
  }

  /** Forward writes `scale(in)` to a kept element and zero to a dropped one,
   *  and leaves every cell outside `[oo, oo + m)` as it was. */
  lemma ForwardWrites<In, Out>(input: seq<In>, out0: seq<Out>, oo: nat, m: nat,
                               stream: nat -> nat -> F32, base: nat, prob: Prob, conv: Conv<In, Out>)
    requires m <= |input| && oo + m <= |out0|
    ensures |ForwardOut(input, out0, oo, m, stream, base, prob, conv)| == |out0|
    ensures forall k :: 0 <= k < m ==>
      ForwardOut(input, out0, oo, m, stream, base, prob, conv)[oo + k]
      == conv.store(if Kept(stream, prob.keep, base, k / 16, k % 16) then prob.scale(conv.load(input[k])) else Zero)
    ensures forall x :: 0 <= x < |out0| && !(oo <= x < oo + m) ==>
      ForwardOut(input, out0, oo, m, stream, base, prob, conv)[x] == out0[x]
  {
    var r := ForwardOut(input, out0, oo, m, stream, base, prob, conv);
    forall k | 0 <= k < m
      ensures r[oo + k] == conv.store(if Kept(stream, prob.keep, base, k / 16, k % 16) then prob.scale(conv.load(input[k])) else Zero)
    {
      assert r[oo + k] == ForwardValue(input, oo + k - oo, stream, base, prob, conv);
    }
  }

  /** Backward writes element `k < m` of the row from bit `k % 16` of word
   *  `k / 16` of the row's mask words, and no cell outside the row. */
  lemma BackwardWrites<In, Out>(input: seq<In>, out0: seq<Out>, oo: nat, mask: seq<bv16>, mo: nat, m: nat,
                                prob: Prob, conv: Conv<In, Out>)
    requires m <= |input| && oo + m <= |out0| && mo + Chunks(m) <= |mask|
    ensures |BackwardOut(input, out0, oo, mask, mo, m, prob, conv)| == |out0|
    ensures forall k :: 0 <= k < m ==>
      (mo + k / 16 < |mask| &&
       BackwardOut(input, out0, oo, mask, mo, m, prob, conv)[oo + k]
       == conv.store(if Bit(mask[mo + k / 16], k % 16) then prob.scale(conv.load(input[k])) else Zero))
    ensures forall x :: 0 <= x < |out0| && !(oo <= x < oo + m) ==>
      BackwardOut(input, out0, oo, mask, mo, m, prob, conv)[x] == out0[x]
  {
    var r := BackwardOut(input, out0, oo, mask, mo, m, prob, conv);
    forall k | 0 <= k < m
      ensures mo + k / 16 < |mask|
      ensures r[oo + k] == conv.store(if Bit(mask[mo + k / 16], k % 16) then prob.scale(conv.load(input[k])) else Zero)
    {
      assert r[oo + k] == BackwardValue(input, oo + k - oo, mask, mo, prob, conv);
    }
  }

  /** The `ceil(m / 16)` mask words a forward call on a row records. */
  function RowWords(m: nat, stream: nat -> nat -> F32, keep: F32 -> bool, base: nat): (w: seq<bv16>)
    ensures |w| == Chunks(m)
  {
    seq(Chunks(m), c requires 0 <= c < Chunks(m) => MaskWord(m, c, stream, keep, base))
  }

  /** A buffer that holds the row's mask words from `mo` on and the old
   *  words elsewhere is the buffer forward leaves. */
  lemma ForwardMaskFromWords(mask0: seq<bv16>, mo: nat, m: nat, stream: nat -> nat -> F32, keep: F32 -> bool, base: nat,
                             w: seq<bv16>)
    requires mo + Chunks(m) <= |mask0| && |w| == |mask0|
    requires forall x :: 0 <= x < |w| ==>
      w[x] == if mo <= x < mo + Chunks(m) then MaskWord(m, x - mo, stream, keep, base) else mask0[x]
    ensures w == ForwardMask(mask0, mo, m, stream, keep, base)
  {}

  /** After forward, the row's words are `RowWords`. */
  lemma ForwardMaskHoldsRowWords(mask0: seq<bv16>, mo: nat, m: nat, stream: nat -> nat -> F32, keep: F32 -> bool, base: nat)
    requires mo + Chunks(m) <= |mask0|
    ensures ForwardMask(mask0, mo, m, stream, keep, base)[mo .. mo + Chunks(m)] == RowWords(m, stream, keep, base)
  {
    var w := ForwardMask(mask0, mo, m, stream, keep, base);
    forall c | 0 <= c < Chunks(m) ensures w[mo .. mo + Chunks(m)][c] == RowWords(m, stream, keep, base)[c] {
      assert w[mo + c] == MaskWord(m, c, stream, keep, base);
    }
  }

  /** Forward leaves the words before its row as they were. */
  lemma ForwardMaskBefore(mask0: seq<bv16>, mo: nat, m: nat, stream: nat -> nat -> F32, keep: F32 -> bool, base: nat,
                          a: nat, b: nat)
    requires a <= b <= mo && mo + Chunks(m) <= |mask0|
    ensures ForwardMask(mask0, mo, m, stream, keep, base)[a .. b] == mask0[a .. b]
  {
    var w := ForwardMask(mask0, mo, m, stream, keep, base);
    forall x | a <= x < b ensures w[x] == mask0[x] {}
  }

  /** Backward on a row whose mask words are those a forward call with the
   *  same random values records writes exactly what that forward call wrote. */
  lemma BackwardOfRowWords<In, Out>(input: seq<In>, out0: seq<Out>, oo: nat, mask: seq<bv16>, mo: nat, m: nat,
                                    stream: nat -> nat -> F32, base: nat, prob: Prob, conv: Conv<In, Out>)
    requires m <= |input| && oo + m <= |out0| && mo + Chunks(m) <= |mask|
    requires mask[mo .. mo + Chunks(m)] == RowWords(m, stream, prob.keep, base)
    ensures BackwardOut(input, out0, oo, mask, mo, m, prob, conv) == ForwardOut(input, out0, oo, m, stream, base, prob, conv)
  {
    forall k | 0 <= k < m
      ensures BackwardValue(input, k, mask, mo, prob, conv) == ForwardValue(input, k, stream, base, prob, conv)
    {
      assert mask[mo + k / 16] == mask[mo .. mo + Chunks(m)][k / 16];
      MaskWordBit(m, k / 16, stream, prob.keep, base, k % 16);
    }
  }

  /** Backward, given the mask words a forward call produced and the same
   *  input, writes exactly what that forward call wrote. */
  lemma BackwardReplaysForward<In, Out>(input: seq<In>, out0: seq<Out>, oo: nat, mask0: seq<bv16>, mo: nat, m: nat,
                                        stream: nat -> nat -> F32, base: nat, prob: Prob, conv: Conv<In, Out>)
    requires m <= |input| && oo + m <= |out0| && mo + Chunks(m) <= |mask0|
    ensures BackwardOut(input, out0, oo, ForwardMask(mask0, mo, m, stream, prob.keep, base), mo, m, prob, conv)
            == ForwardOut(input, out0, oo, m, stream, base, prob, conv)
  {
    ForwardMaskHoldsRowWords(mask0, mo, m, stream, prob.keep, base);
    BackwardOfRowWords(input, out0, oo, ForwardMask(mask0, mo, m, stream, prob.keep, base), mo, m, stream, base, prob, conv);
  }

  // ---------------------------------------------------------------------------
  // Steps of the kernels
  // ---------------------------------------------------------------------------

  /** The word a full vector stores is the row's mask word for that vector. */
  lemma FullWord(dmsk: bv16, m: nat, c: nat, stream: nat -> nat -> F32, keep: F32 -> bool, base: nat)
    requires 16 * c + 16 <= m
    requires forall j :: 0 <= j < 16 ==> Bit(dmsk, j) == Kept(stream, keep, base, c, j)
    ensures dmsk == MaskWord(m, c, stream, keep, base)
  {
    forall j | 0 <= j < 16 ensures Bit(MaskWord(m, c, stream, keep, base), j) == Bit(dmsk, j) {
      MaskWordBit(m, c, stream, keep, base, j);
    }
    BitsDetermineWord(MaskWord(m, c, stream, keep, base), dmsk);
  }

  /** The word the partial vector stores, `dmsk & ((1 << rem) - 1)`, is the
   *  row's mask word for that vector. */
  lemma TailWord(dmsk: bv16, rem: nat, m: nat, c: nat, stream: nat -> nat -> F32, keep: F32 -> bool, base: nat)
    requires 1 <= rem < 16 && m == 16 * c + rem
    requires forall j :: 0 <= j < 16 ==> Bit(dmsk, j) == Kept(stream, keep, base, c, j)
    ensures dmsk & TailMask(rem) == MaskWord(m, c, stream, keep, base)
  {
    forall j | 0 <= j < 16 ensures Bit(MaskWord(m, c, stream, keep, base), j) == Bit(dmsk & TailMask(rem), j) {
      TailWordBit(dmsk, rem, m, c, stream, keep, base, j);
    }
    BitsDetermineWord(MaskWord(m, c, stream, keep, base), dmsk & TailMask(rem));
  }

  lemma TailWordBit(dmsk: bv16, rem: nat, m: nat, c: nat, stream: nat -> nat -> F32, keep: F32 -> bool, base: nat, j: nat)
    requires 1 <= rem < 16 && m == 16 * c + rem && j < 16
    requires Bit(dmsk, j) == Kept(stream, keep, base, c, j)
    ensures Bit(MaskWord(m, c, stream, keep, base), j) == Bit(dmsk & TailMask(rem), j)
  {
    MaskWordBit(m, c, stream, keep, base, j);
    BitOfAnd(dmsk, TailMask(rem), j);
  }

  /** The word a vector stores into `dropout_mask[i/16]`: the decisions
   *  `dmsk` of a full vector, and `dmsk & ((1 << rem) - 1)` for the partial one. */
  function StoredWord(dmsk: bv16, lanes: nat): bv16
    requires 1 <= lanes <= 16
  {
    if lanes == 16 then dmsk else dmsk & TailMask(lanes)
  }

  /** The word a vector stores is the row's mask word for that vector. */
  lemma StoredWordIsMaskWord(dmsk: bv16, lanes: nat, m: nat, c: nat, stream: nat -> nat -> F32, keep: F32 -> bool, base: nat)
    requires 1 <= lanes <= 16 && 16 * c + lanes <= m && (lanes < 16 ==> m == 16 * c + lanes)
    requires forall j :: 0 <= j < 16 ==> Bit(dmsk, j) == Kept(stream, keep, base, c, j)
    ensures StoredWord(dmsk, lanes) == MaskWord(m, c, stream, keep, base)
  {
    if lanes == 16 {
      FullWord(dmsk, m, c, stream, keep, base);
    } else {
      TailWord(dmsk, lanes, m, c, stream, keep, base);
    }
  }

  /** What one forward vector computes from its 16 random values `rnd`: the
   *  converted output lanes (`_mm512_maskz_mul_ps` of the loaded lanes under
   *  the decisions of `_mm512_cmplt_ps_mask`) and the word it records. Only
   *  the first `lanes` inputs are read. */
  function ForwardStep<In, Out>(input: seq<In>, i: nat, lanes: nat, rnd: seq<F32>, prob: Prob, conv: Conv<In, Out>)
    : (r: (seq<Out>, bv16))
    requires 1 <= lanes <= 16 && i + lanes <= |input| && |rnd| == 16
    ensures |r.0| == 16
  {
    var vin := LoadLanes(input, i, lanes, conv.load);
    var dmsk := CompareMask(rnd, prob.keep);
    (StoreVector(MaskzMul(dmsk, vin, prob.scale), conv.store), StoredWord(dmsk, lanes))
  }

  /** A forward vector drawn as the row's `c`-th, `i == 16 c`, stores the row's forward
   *  values in its first `lanes` lanes and the row's mask word for it. */
  lemma ForwardStepMeaning<In, Out>(input: seq<In>, i: nat, c: nat, lanes: nat, rnd: seq<F32>, m: nat,
                                    stream: nat -> nat -> F32, base: nat, prob: Prob, conv: Conv<In, Out>)
    requires i == 16 * c && 1 <= lanes <= 16 && i + lanes <= m <= |input| && (lanes < 16 ==> i + lanes == m)
    requires |rnd| == 16 && forall j :: 0 <= j < 16 ==> rnd[j] == stream(base + c)(j)
    ensures forall k :: i <= k < i + lanes ==>
      ForwardStep(input, i, lanes, rnd, prob, conv).0[k - i] == ForwardValue(input, k, stream, base, prob, conv)
    ensures ForwardStep(input, i, lanes, rnd, prob, conv).1 == MaskWord(m, c, stream, prob.keep, base)
  {
    var vals := ForwardStep(input, i, lanes, rnd, prob, conv).0;
    forall k | i <= k < i + lanes ensures vals[k - i] == ForwardValue(input, k, stream, base, prob, conv) {
      ForwardLane(input, i, c, lanes, rnd, stream, base, prob, conv, k);
    }
    StoredWordIsMaskWord(CompareMask(rnd, prob.keep), lanes, m, c, stream, prob.keep, base);
  }

  /** Lane `k - i` of a forward vector is the forward value of element `k`. */
  lemma ForwardLane<In, Out>(input: seq<In>, i: nat, c: nat, lanes: nat, rnd: seq<F32>,
                             stream: nat -> nat -> F32, base: nat, prob: Prob, conv: Conv<In, Out>, k: nat)
    requires i == 16 * c && 1 <= lanes <= 16 && i + lanes <= |input| && i <= k < i + lanes
    requires |rnd| == 16 && rnd[k - i] == stream(base + c)(k - i)
    ensures ForwardStep(input, i, lanes, rnd, prob, conv).0[k - i] == ForwardValue(input, k, stream, base, prob, conv)
  {
    var j := k - i;
    DivModLane(c, j);
    var vin := LoadLanes(input, i, lanes, conv.load);
    var dmsk := CompareMask(rnd, prob.keep);
    assert MaskzMul(dmsk, vin, prob.scale)[j] == if Bit(dmsk, j) then prob.scale(conv.load(input[i + j])) else Zero;
  }

  /** What one backward vector computes from its recorded word `dmsk`. */
  function BackwardStep<In, Out>(input: seq<In>, i: nat, lanes: nat, dmsk: bv16, prob: Prob, conv: Conv<In, Out>)
    : (r: seq<Out>)
    requires 1 <= lanes <= 16 && i + lanes <= |input|
    ensures |r| == 16
  {
    var vin := LoadLanes(input, i, lanes, conv.load);
    StoreVector(MaskzMul(dmsk, vin, prob.scale), conv.store)
  }

  /** A backward vector reading the row's word `c`, `i == 16 c`, stores the row's
   *  backward values in its first `lanes` lanes. */
  lemma BackwardStepMeaning<In, Out>(input: seq<In>, i: nat, c: nat, lanes: nat, dmsk: bv16, mask: seq<bv16>, mo: nat,
                                     prob: Prob, conv: Conv<In, Out>)
    requires i == 16 * c && 1 <= lanes <= 16 && i + lanes <= |input| && mo + c < |mask| && dmsk == mask[mo + c]
    ensures forall k :: i <= k < i + lanes ==>
      BackwardStep(input, i, lanes, dmsk, prob, conv)[k - i] == BackwardValue(input, k, mask, mo, prob, conv)
  {
    var vals := BackwardStep(input, i, lanes, dmsk, prob, conv);
    forall k | i <= k < i + lanes ensures vals[k - i] == BackwardValue(input, k, mask, mo, prob, conv) {
      BackwardLane(input, i, c, lanes, dmsk, mask, mo, prob, conv, k);
    }
  }

  /** Lane `k - i` of a backward vector is the backward value of element `k`. */
  lemma BackwardLane<In, Out>(input: seq<In>, i: nat, c: nat, lanes: nat, dmsk: bv16, mask: seq<bv16>, mo: nat,
                              prob: Prob, conv: Conv<In, Out>, k: nat)
    requires i == 16 * c && 1 <= lanes <= 16 && i + lanes <= |input| && mo + c < |mask| && dmsk == mask[mo + c]
    requires i <= k < i + lanes
    ensures BackwardStep(input, i, lanes, dmsk, prob, conv)[k - i] == BackwardValue(input, k, mask, mo, prob, conv)
  {
    var j := k - i;
    DivModLane(c, j);
    var vin := LoadLanes(input, i, lanes, conv.load);
    assert MaskzMul(dmsk, vin, prob.scale)[j] == if Bit(dmsk, j) then prob.scale(conv.load(input[i + j])) else Zero;
  }

  /** The row's loop stops at `m - m % 16`, after `m / 16` full vectors;
   *  what is left, if anything, is one partial vector of 1 to 15 lanes, and
   *  the row takes `ceil(m / 16)` vectors. */
  lemma LoopBound(m: U32)
    ensures AlignDown(m, 16) == m - m % 16 == 16 * (m / 16)
    ensures m - AlignDown(m, 16) < 16
    ensures m / 16 + (if AlignDown(m, 16) < m then 1 else 0) == Chunks(m)
  {
    Pow2Values();
    AlignDownIsFloor(m, 4);
    AlignDownValue(m, 4);
  }

  // ---------------------------------------------------------------------------
  // The kernels
  // ---------------------------------------------------------------------------

  /** One vector of a forward call: a full vector (`lanes == 16`, the loop
   *  body) or the partial last one (`lanes == rem`, the tail block). It is
   *  the row's `c`-th vector, `i == 16 c`. */
  method ForwardVector<In, Out>(m: U32, i: nat, ghost c: nat, lanes: nat, input: seq<In>, out: array<Out>, oo: nat,
                                mask: array<bv16>, mo: nat, rng: RngState, prob: Prob, conv: Conv<In, Out>, ghost base: nat)
    requires i == 16 * c && 1 <= lanes <= 16 && i + lanes <= m && (lanes < 16 ==> i + lanes == m)
    requires m <= |input| && oo + m <= out.Length && mo + Chunks(m) <= mask.Length
    requires out as object != mask
    requires rng.drawn == base + c
    modifies out, mask, rng
    ensures rng.drawn == old(rng.drawn) + 1
    ensures forall x :: 0 <= x < out.Length ==>
      out[x] == if oo + i <= x < oo + i + lanes then ForwardValue(input, x - oo, rng.stream, base, prob, conv) else old(out[x])
    ensures forall x :: 0 <= x < mask.Length ==>
      mask[x] == if x == mo + c then MaskWord(m, c, rng.stream, prob.keep, base) else old(mask[x])
  {
    var rnd := rng.Next(16);
    ForwardStepMeaning(input, i, c, lanes, rnd, m, rng.stream, base, prob, conv);
    var step := ForwardStep(input, i, lanes, rnd, prob, conv);
    DivModLane(c, 0);
    // `step.0` goes to the output and `step.1` to the mask buffer; the two
    // buffers are distinct, so the order of the two stores is immaterial.
    mask[mo + i / 16] := step.1;
    StoreLanes(out, oo + i, step.0, lanes);
    forall x | oo + i <= x < oo + i + lanes
      ensures out[x] == ForwardValue(input, x - oo, rng.stream, base, prob, conv)
    {
      assert out[x] == step.0[x - oo - i];
    }
  }

  /** One forward call on a row (`dropout_fwd_*_gold`), for the precision pair
   *  `conv`. The row's output starts at `out[oo]`, its mask words at
   *  `mask[mo]`. It draws `ceil(m / 16)` vectors. */
  method ForwardRow<In, Out>(m: U32, input: seq<In>, out: array<Out>, oo: nat, mask: array<bv16>, mo: nat,
                             rng: RngState, prob: Prob, conv: Conv<In, Out>)
    requires m <= |input| && oo + m <= out.Length && mo + Chunks(m) <= mask.Length
    requires out as object != mask
    modifies out, mask, rng
    ensures rng.drawn == old(rng.drawn) + Chunks(m)
    ensures out[..] == ForwardOut(input, old(out[..]), oo, m, rng.stream, old(rng.drawn), prob, conv)
    ensures mask[..] == ForwardMask(old(mask[..]), mo, m, rng.stream, prob.keep, old(rng.drawn))
  {
    ghost var base, out0, mask0 := rng.drawn, out[..], mask[..];
    LoopBound(m);
    var i: nat := 0;
    ghost var c: nat, full := 0, m / 16;
    while i < AlignDown(m, 16)
      invariant i == 16 * c && c <= full
      invariant rng.drawn == base + c
      invariant forall x :: 0 <= x < out.Length ==>
        out[x] == if oo <= x < oo + i then ForwardValue(input, x - oo, rng.stream, base, prob, conv) else out0[x]
      invariant forall x :: 0 <= x < mask.Length ==>
        mask[x] == if mo <= x < mo + c then MaskWord(m, x - mo, rng.stream, prob.keep, base) else mask0[x]
    {
      ForwardVector(m, i, c, 16, input, out, oo, mask, mo, rng, prob, conv, base);
      i, c := i + 16, c + 1;
    }
    if i < m {
      ForwardVector(m, i, c, m - i, input, out, oo, mask, mo, rng, prob, conv, base);
      i, c := m, c + 1;
    }
    assert c == Chunks(m);
    assert out[..] == ForwardOut(input, out0, oo, m, rng.stream, base, prob, conv);
    ForwardMaskFromWords(mask0, mo, m, rng.stream, prob.keep, base, mask[..]);
  }

  /** One vector of a backward call: the recorded mask word of the vector
   *  selects which lanes get the scaled input. It is the row's `c`-th
   *  vector, `i == 16 c`. */
  method BackwardVector<In, Out>(m: U32, i: nat, ghost c: nat, lanes: nat, input: seq<In>, out: array<Out>, oo: nat,
                                 mask: array<bv16>, mo: nat, prob: Prob, conv: Conv<In, Out>)
    requires i == 16 * c && 1 <= lanes <= 16 && i + lanes <= m && (lanes < 16 ==> i + lanes == m)
    requires m <= |input| && oo + m <= out.Length && mo + Chunks(m) <= mask.Length
    requires out as object != mask
    modifies out
    ensures forall x :: 0 <= x < out.Length ==>
      out[x] == if oo + i <= x < oo + i + lanes then BackwardValue(input, x - oo, mask[..], mo, prob, conv) else old(out[x])
  {
    ghost var words := mask[..];
    DivModLane(c, 0);
    var dmsk := mask[mo + i / 16];
    var vals := BackwardStep(input, i, lanes, dmsk, prob, conv);
    BackwardStepMeaning(input, i, c, lanes, dmsk, words, mo, prob, conv);
    StoreLanes(out, oo + i, vals, lanes);
    assert mask[..] == words;
    forall x | oo + i <= x < oo + i + lanes
      ensures out[x] == BackwardValue(input, x - oo, words, mo, prob, conv)
    {
      assert out[x] == vals[x - oo - i];
    }
  }

  /** One backward call on a row (`dropout_bwd_*_gold`). It reads the row's
   *  mask words and draws nothing. */
  method BackwardRow<In, Out>(m: U32, input: seq<In>, out: array<Out>, oo: nat, mask: array<bv16>, mo: nat,
                              prob: Prob, conv: Conv<In, Out>)
    requires m <= |input| && oo + m <= out.Length && mo + Chunks(m) <= mask.Length
    requires out as object != mask
    modifies out
    ensures out[..] == BackwardOut(input, old(out[..]), oo, mask[..], mo, m, prob, conv)
  {
    ghost var out0 := out[..];
    LoopBound(m);
    var i: nat := 0;
    ghost var c: nat, full := 0, m / 16;
    while i < AlignDown(m, 16)
      invariant i == 16 * c && c <= full
      invariant forall x :: 0 <= x < out.Length ==>
        out[x] == if oo <= x < oo + i then BackwardValue(input, x - oo, mask[..], mo, prob, conv) else out0[x]
    {
      BackwardVector(m, i, c, 16, input, out, oo, mask, mo, prob, conv);
      i, c := i + 16, c + 1;
    }
    if i < m {
      BackwardVector(m, i, c, m - i, input, out, oo, mask, mo, prob, conv);
      i := m;
    }
    assert out[..] == BackwardOut(input, out0, oo, mask[..], mo, m, prob, conv);
  }
}
