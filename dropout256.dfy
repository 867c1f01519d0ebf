/** The AVX2 reference ("gold") dropout kernels, built when `__AVX2__` is
 *  defined and `__AVX512BW__` is not; on that path only the f32-to-f32 pair
 *  exists.
 *
 *  A forward call walks the row in vectors of 8 lanes up to `m - m % 8`.
 *  The block that would handle the remaining `m % 8` elements is compiled
 *  out, so those elements are not written, get no mask bits and draw no
 *  vector. The compare gives each lane all ones (true) or all zeros (false).
 *  `_mm256_blendv_ps` chooses by the lane's sign bit, and
 *  `_mm256_movemask_ps` collects the 8 sign bits into one mask byte per
 *  vector (the mask buffer is read as bytes). Backward broadcasts a mask
 *  byte to every byte of a vector, keeps bit `j` in lane `j`, and compares
 *  the lane with that bit, rebuilding the all-ones / all-zeros lanes.
 *
 *  Here `Prob.keep(r)` stands for `_mm256_cmp_ps(1 - p, r, _CMP_NLE_UQ)`,
 *  that is "not `1 - p <= r`".
 */
module Dropout256 {
  import opened Align
  import opened MaskBits
  import opened Precision
  import opened Rng
  import opened Dropout

  const AllOnes: bv32 := 0xFFFF_FFFF
  const SignBit: bv32 := 0x8000_0000

  /** A compare result lane: all ones for true, all zeros for false. */
  function LaneOf(b: bool): bv32
  {
    if b then AllOnes else 0
  }

  /** The sign bit of a compare result lane is its truth value. */
  lemma LaneOfSign(b: bool)
    ensures (LaneOf(b) & SignBit != 0) == b
  {}

  // ---------------------------------------------------------------------------
  // Vector operations
  // ---------------------------------------------------------------------------

  /** `_mm256_cmp_ps(vp, rnd, _CMP_NLE_UQ)`: one compare result lane per random value. */
  function CompareVector(rnd: seq<F32>, keep: F32 -> bool): (v: seq<bv32>)
    requires |rnd| == 8
    ensures |v| == 8
    ensures forall j :: 0 <= j < 8 ==> (v[j] == AllOnes || v[j] == 0) && (v[j] & SignBit != 0) == keep(rnd[j])
  {
    seq(8, j requires 0 <= j < 8 => LaneOf(keep(rnd[j])))
  }

  /** `_mm256_movemask_ps`: the sign bit of lane `j` goes to bit `j` of a byte. */
  function MoveMask(v: seq<bv32>): (b: bv8)
    requires |v| == 8
    ensures forall j :: 0 <= j < 8 ==> ByteBit(b, j) == (v[j] & SignBit != 0)
  {
    PackByte(seq(8, j requires 0 <= j < 8 => v[j] & SignBit != 0))
  }

  /** `_mm256_blendv_ps(a, b, msk)`: lane `j` of `b` where lane `j` of `msk`
   *  has its sign bit set, lane `j` of `a` elsewhere. */
  function Blend(a: seq<F32>, b: seq<F32>, msk: seq<bv32>): (v: seq<F32>)
    requires |a| == 8 && |b| == 8 && |msk| == 8
    ensures |v| == 8
  {
    seq(8, j requires 0 <= j < 8 => if msk[j] & SignBit != 0 then b[j] else a[j])
  }

  /** `_mm256_set1_epi8(b)` read as 32-bit lanes: the byte in all four bytes of a lane. */
  function Broadcast(b: bv8): bv32
  {
    var x := b as bv32;
    x | (x << 8) | (x << 16) | (x << 24)
  }

  /** Lane `j` of the constant `vand`: the single bit `1 << j`. */
  function Select(j: nat): bv32
    requires j < 8
  {
    LaneBit(j) as bv32
  }

  /** Bit `j` of a broadcast byte, isolated by `vand`, equals `vand`'s lane
   *  exactly when bit `j` of the byte is set. */
  lemma BroadcastSelect(b: bv8, j: nat)
    requires j < 8
    ensures (Broadcast(b) & Select(j) == Select(j)) == ByteBit(b, j)
  {}

  /** Backward's rebuild of the compare lanes from a mask byte:
   *  `_mm256_cmpeq_epi32(_mm256_and_si256(_mm256_set1_epi8(b), vand), vand)`. */
  function ExpandMask(b: bv8): (v: seq<bv32>)
    ensures |v| == 8 && forall j :: 0 <= j < 8 ==> v[j] == LaneOf(ByteBit(b, j))
  {
    var v := seq(8, j requires 0 <= j < 8 => LaneOf(Broadcast(b) & Select(j) == Select(j)));
    forall j | 0 <= j < 8 ensures v[j] == LaneOf(ByteBit(b, j)) {
      BroadcastSelect(b, j);
    }
    v
  }

  /** Expanding the byte that `_mm256_movemask_ps` collected from compare
   *  result lanes gives back those lanes. */
  lemma MoveMaskThenExpand(v: seq<bv32>)
    requires |v| == 8 && forall j :: 0 <= j < 8 ==> v[j] == AllOnes || v[j] == 0
    ensures ExpandMask(MoveMask(v)) == v
  {
    var w := ExpandMask(MoveMask(v));
    forall j | 0 <= j < 8 ensures w[j] == v[j] {
      LaneOfSign(v[j] & SignBit != 0);
    }
  }

  /** Collecting the sign bits of an expanded byte gives back the byte. */
  lemma ExpandThenMoveMask(b: bv8)
    ensures MoveMask(ExpandMask(b)) == b
  {
    var w := MoveMask(ExpandMask(b));
    forall j | 0 <= j < 8 ensures ByteBit(w, j) == ByteBit(b, j) {
      LaneOfSign(ByteBit(b, j));
    }
    ByteBitsDetermineByte(w, b);
  }

  /** Two bytes with the same 8 bits are the same byte. */
  lemma ByteBitsDetermineByte(a: bv8, b: bv8)
    requires forall j :: 0 <= j < 8 ==> ByteBit(a, j) == ByteBit(b, j)
    ensures a == b
  {
    assert ByteBit(a, 0) == ByteBit(b, 0) && ByteBit(a, 1) == ByteBit(b, 1);
    assert ByteBit(a, 2) == ByteBit(b, 2) && ByteBit(a, 3) == ByteBit(b, 3);
    assert ByteBit(a, 4) == ByteBit(b, 4) && ByteBit(a, 5) == ByteBit(b, 5);
    assert ByteBit(a, 6) == ByteBit(b, 6) && ByteBit(a, 7) == ByteBit(b, 7);
  }

  // ---------------------------------------------------------------------------
  // What a row computes
  // ---------------------------------------------------------------------------

  /** The forward result for element `k` of a row; vector `c = k / 8` holds it in lane `k % 8`. */
  function ForwardValue(input: seq<F32>, k: nat, stream: nat -> nat -> F32, base: nat, prob: Prob): F32
    requires k < |input|
  {
    if Kept(stream, prob.keep, base, k / 8, k % 8) then prob.scale(input[k]) else Zero
  }

  /** The output buffer after a forward call on the row that starts at `oo`:
   *  the row's first `m - m % 8` elements are written, every other cell, the
   *  row's last `m % 8` elements included, keeps its value. */
  function ForwardOut(input: seq<F32>, out0: seq<F32>, oo: nat, m: nat,
                      stream: nat -> nat -> F32, base: nat, prob: Prob): seq<F32>
    requires m - m % 8 <= |input| && oo + m - m % 8 <= |out0|
  {
    seq(|out0|, x requires 0 <= x < |out0| =>
      if oo <= x < oo + m - m % 8 then ForwardValue(input, x - oo, stream, base, prob) else out0[x])
  }

  /** The mask byte of the row's vector `c`: bit `j` records whether lane `j` was kept. */
  function MaskByte(c: nat, stream: nat -> nat -> F32, keep: F32 -> bool, base: nat): bv8
  {
    PackByte(seq(8, j requires 0 <= j < 8 => Kept(stream, keep, base, c, j)))
  }

  /** The mask buffer after a forward call whose bytes start at `mo`: one
   *  byte per full vector. */
  function ForwardMask(mask0: seq<bv8>, mo: nat, m: nat, stream: nat -> nat -> F32, keep: F32 -> bool, base: nat)
    : seq<bv8>
    requires mo + m / 8 <= |mask0|
  {
    seq(|mask0|, x requires 0 <= x < |mask0| =>
      if mo <= x < mo + m / 8 then MaskByte(x - mo, stream, keep, base) else mask0[x])
  }

  /** The backward result for element `k` of a row, from the recorded mask bit. */
  function BackwardValue(input: seq<F32>, k: nat, mask: seq<bv8>, mo: nat, prob: Prob): F32
    requires k < |input| && mo + k / 8 < |mask|
  {
    if ByteBit(mask[mo + k / 8], k % 8) then prob.scale(input[k]) else Zero
  }

  /** The output buffer after a backward call: again only the row's first
   *  `m - m % 8` elements are written. */
  function BackwardOut(input: seq<F32>, out0: seq<F32>, oo: nat, mask: seq<bv8>, mo: nat, m: nat, prob: Prob)
    : seq<F32>
    requires m - m % 8 <= |input| && oo + m - m % 8 <= |out0| && mo + m / 8 <= |mask|
  {
    seq(|out0|, x requires 0 <= x < |out0| =>
      if oo <= x < oo + m - m % 8 then BackwardValue(input, x - oo, mask, mo, prob) else out0[x])
  }

  // ---------------------------------------------------------------------------
  // Properties of a row
  // ---------------------------------------------------------------------------

  /** Bit `j` of mask byte `c` is set exactly when lane `j` of vector `c` was kept. */
  lemma MaskByteBit(c: nat, stream: nat -> nat -> F32, keep: F32 -> bool, base: nat, j: nat)
    requires j < 8
    ensures ByteBit(MaskByte(c, stream, keep, base), j) == Kept(stream, keep, base, c, j)
  {}

  /** Forward writes `scale(in)` to a kept element and zero to a dropped one
   *  among the row's first `m - m % 8`, and leaves every other cell, the
   *  row's last `m % 8` elements among them, as it was. */
  lemma ForwardWrites(input: seq<F32>, out0: seq<F32>, oo: nat, m: nat, stream: nat -> nat -> F32, base: nat, prob: Prob)
    requires m - m % 8 <= |input| && oo + m - m % 8 <= |out0|
    ensures |ForwardOut(input, out0, oo, m, stream, base, prob)| == |out0|
    ensures forall k :: 0 <= k < m - m % 8 ==>
      ForwardOut(input, out0, oo, m, stream, base, prob)[oo + k]
      == if prob.keep(stream(base + k / 8)(k % 8)) then prob.scale(input[k]) else Zero
    ensures forall x :: 0 <= x < |out0| && !(oo <= x < oo + m - m % 8) ==>
      ForwardOut(input, out0, oo, m, stream, base, prob)[x] == out0[x]
  {
    var r := ForwardOut(input, out0, oo, m, stream, base, prob);
    forall k | 0 <= k < m - m % 8
      ensures r[oo + k] == if prob.keep(stream(base + k / 8)(k % 8)) then prob.scale(input[k]) else Zero
    {
      assert r[oo + k] == ForwardValue(input, oo + k - oo, stream, base, prob);
    }
  }

  /** Backward writes element `k < m - m % 8` of the row from bit `k % 8` of
   *  the row's mask byte `k / 8`, and leaves every other cell unchanged. */
  lemma BackwardWrites(input: seq<F32>, out0: seq<F32>, oo: nat, mask: seq<bv8>, mo: nat, m: nat, prob: Prob)
    requires m - m % 8 <= |input| && oo + m - m % 8 <= |out0| && mo + m / 8 <= |mask|
    ensures |BackwardOut(input, out0, oo, mask, mo, m, prob)| == |out0|
    ensures forall k :: 0 <= k < m - m % 8 ==>
      (mo + k / 8 < |mask| &&
       BackwardOut(input, out0, oo, mask, mo, m, prob)[oo + k]
       == if ByteBit(mask[mo + k / 8], k % 8) then prob.scale(input[k]) else Zero)
    ensures forall x :: 0 <= x < |out0| && !(oo <= x < oo + m - m % 8) ==>
      BackwardOut(input, out0, oo, mask, mo, m, prob)[x] == out0[x]
  {
    var r := BackwardOut(input, out0, oo, mask, mo, m, prob);
    forall k | 0 <= k < m - m % 8
      ensures mo + k / 8 < |mask|
      ensures r[oo + k] == if ByteBit(mask[mo + k / 8], k % 8) then prob.scale(input[k]) else Zero
    {
      assert r[oo + k] == BackwardValue(input, oo + k - oo, mask, mo, prob);
    }
  }

  /** After forward, bit `j` of the row's byte `c < m / 8` records whether
   *  lane `j` of vector `c` was kept; the bytes outside the row are unchanged. */
  lemma ForwardMaskBits(mask0: seq<bv8>, mo: nat, m: nat, stream: nat -> nat -> F32, keep: F32 -> bool, base: nat)
    requires mo + m / 8 <= |mask0|
    ensures |ForwardMask(mask0, mo, m, stream, keep, base)| == |mask0|
    ensures forall c, j :: 0 <= c < m / 8 && 0 <= j < 8 ==>
      ByteBit(ForwardMask(mask0, mo, m, stream, keep, base)[mo + c], j) == Kept(stream, keep, base, c, j)
    ensures forall x :: 0 <= x < |mask0| && !(mo <= x < mo + m / 8) ==>
      ForwardMask(mask0, mo, m, stream, keep, base)[x] == mask0[x]
  {
    forall c, j | 0 <= c < m / 8 && 0 <= j < 8
      ensures ByteBit(ForwardMask(mask0, mo, m, stream, keep, base)[mo + c], j) == Kept(stream, keep, base, c, j)
    {
      MaskByteBit(c, stream, keep, base, j);
    }
  }

  /** The `m / 8` mask bytes a forward call on a row records. */
  function RowBytes(m: nat, stream: nat -> nat -> F32, keep: F32 -> bool, base: nat): (b: seq<bv8>)
    ensures |b| == m / 8
  {
    seq(m / 8, c requires 0 <= c < m / 8 => MaskByte(c, stream, keep, base))
  }

  /** After forward, the row's bytes are `RowBytes`. */
  lemma ForwardMaskHoldsRowBytes(mask0: seq<bv8>, mo: nat, m: nat, stream: nat -> nat -> F32, keep: F32 -> bool, base: nat)
    requires mo + m / 8 <= |mask0|
    ensures ForwardMask(mask0, mo, m, stream, keep, base)[mo .. mo + m / 8] == RowBytes(m, stream, keep, base)
  {
    var w := ForwardMask(mask0, mo, m, stream, keep, base);
    forall c | 0 <= c < m / 8 ensures w[mo .. mo + m / 8][c] == RowBytes(m, stream, keep, base)[c] {
      assert w[mo + c] == MaskByte(c, stream, keep, base);
    }
  }

  /** Forward leaves the bytes before its row as they were. */
  lemma ForwardMaskBefore(mask0: seq<bv8>, mo: nat, m: nat, stream: nat -> nat -> F32, keep: F32 -> bool, base: nat,
                          a: nat, b: nat)
    requires a <= b <= mo && mo + m / 8 <= |mask0|
    ensures ForwardMask(mask0, mo, m, stream, keep, base)[a .. b] == mask0[a .. b]
  {
    var w := ForwardMask(mask0, mo, m, stream, keep, base);
    forall x | a <= x < b ensures w[x] == mask0[x] {}
  }

  /** Backward on a row whose mask bytes are those a forward call with the
   *  same random values records writes exactly what that forward call wrote. */
  lemma BackwardOfRowBytes(input: seq<F32>, out0: seq<F32>, oo: nat, mask: seq<bv8>, mo: nat, m: nat,
                           stream: nat -> nat -> F32, base: nat, prob: Prob)
    requires m - m % 8 <= |input| && oo + m - m % 8 <= |out0| && mo + m / 8 <= |mask|
    requires mask[mo .. mo + m / 8] == RowBytes(m, stream, prob.keep, base)
    ensures BackwardOut(input, out0, oo, mask, mo, m, prob) == ForwardOut(input, out0, oo, m, stream, base, prob)
  {
    forall k | 0 <= k < m - m % 8
      ensures BackwardValue(input, k, mask, mo, prob) == ForwardValue(input, k, stream, base, prob)
    {
      assert k / 8 < m / 8;
      assert mask[mo + k / 8] == mask[mo .. mo + m / 8][k / 8];
      MaskByteBit(k / 8, stream, prob.keep, base, k % 8);
    }
  }

  /** Backward, given the mask bytes a forward call produced and the same
   *  input, writes exactly what that forward call wrote. */
  lemma BackwardReplaysForward(input: seq<F32>, out0: seq<F32>, oo: nat, mask0: seq<bv8>, mo: nat, m: nat,
                               stream: nat -> nat -> F32, base: nat, prob: Prob)
    requires m - m % 8 <= |input| && oo + m - m % 8 <= |out0| && mo + m / 8 <= |mask0|
    ensures BackwardOut(input, out0, oo, ForwardMask(mask0, mo, m, stream, prob.keep, base), mo, m, prob)
            == ForwardOut(input, out0, oo, m, stream, base, prob)
  {
    ForwardMaskHoldsRowBytes(mask0, mo, m, stream, prob.keep, base);
    BackwardOfRowBytes(input, out0, oo, ForwardMask(mask0, mo, m, stream, prob.keep, base), mo, m, stream, base, prob);
  }

  // ---------------------------------------------------------------------------
  // Steps of the kernels
  // ---------------------------------------------------------------------------

  /** The loop body of forward on the vector at `i`, given its random values:
   *  the 8 output lanes and the mask byte. */
  function ForwardStep(input: seq<F32>, i: nat, rnd: seq<F32>, prob: Prob): (r: (seq<F32>, bv8))
    requires i + 8 <= |input| && |rnd| == 8
    ensures |r.0| == 8
  {
    var vmsk := CompareVector(rnd, prob.keep);
    var vout := seq(8, j requires 0 <= j < 8 => prob.scale(input[i + j]));
    (Blend(seq(8, j => Zero), vout, vmsk), MoveMask(vmsk))
  }

  /** A forward vector drawn as the row's `i / 8`-th stores the row's forward
   *  values and the row's mask byte for it. */
  lemma ForwardStepMeaning(input: seq<F32>, i: nat, rnd: seq<F32>, stream: nat -> nat -> F32, base: nat, prob: Prob)
    requires i % 8 == 0 && i + 8 <= |input|
    requires |rnd| == 8 && forall j :: 0 <= j < 8 ==> rnd[j] == stream(base + i / 8)(j)
    ensures forall k :: i <= k < i + 8 ==>
      ForwardStep(input, i, rnd, prob).0[k - i] == ForwardValue(input, k, stream, base, prob)
    ensures ForwardStep(input, i, rnd, prob).1 == MaskByte(i / 8, stream, prob.keep, base)
  {
    var vmsk := CompareVector(rnd, prob.keep);
    forall k | i <= k < i + 8
      ensures ForwardStep(input, i, rnd, prob).0[k - i] == ForwardValue(input, k, stream, base, prob)
    {
      assert k / 8 == i / 8 && k % 8 == k - i;
    }
    var kept := seq(8, j requires 0 <= j < 8 => Kept(stream, prob.keep, base, i / 8, j));
    assert seq(8, j requires 0 <= j < 8 => vmsk[j] & SignBit != 0) == kept;
  }

  /** The loop body of backward on the vector at `i`, given its mask byte. */
  function BackwardStep(input: seq<F32>, i: nat, b: bv8, prob: Prob): (r: seq<F32>)
    requires i + 8 <= |input|
    ensures |r| == 8
  {
    var vmask := ExpandMask(b);
    var vout := seq(8, j requires 0 <= j < 8 => prob.scale(input[i + j]));
    Blend(seq(8, j => Zero), vout, vmask)
  }

  /** A backward vector reading the row's byte `i / 8` stores the row's
   *  backward values. */
  lemma BackwardStepMeaning(input: seq<F32>, i: nat, mask: seq<bv8>, mo: nat, prob: Prob)
    requires i % 8 == 0 && i + 8 <= |input| && mo + i / 8 < |mask|
    ensures forall k :: i <= k < i + 8 ==>
      BackwardStep(input, i, mask[mo + i / 8], prob)[k - i] == BackwardValue(input, k, mask, mo, prob)
  {
    forall k | i <= k < i + 8
      ensures BackwardStep(input, i, mask[mo + i / 8], prob)[k - i] == BackwardValue(input, k, mask, mo, prob)
    {
      assert k / 8 == i / 8 && k % 8 == k - i;
      LaneOfSign(ByteBit(mask[mo + i / 8], k - i));
    }
  }

  /** The loop stops at `m - m % 8`, after `m / 8` vectors. */
  lemma LoopBound(m: U32)
    ensures AlignDown(m, 8) == m - m % 8
    ensures (m - m % 8) / 8 == m / 8
  {
    Pow2Values();
    AlignDownValue(m, 3);
  }

  // ---------------------------------------------------------------------------
  // The kernels
  // ---------------------------------------------------------------------------

  /** One iteration of forward's loop, on the row's vector at `i`. */
  method ForwardVector(i: nat, input: seq<F32>, out: array<F32>, oo: nat, mask: array<bv8>, mo: nat,
                       rng: RngState, prob: Prob, ghost base: nat)
    requires i % 8 == 0 && i + 8 <= |input| && oo + i + 8 <= out.Length && mo + i / 8 < mask.Length
    requires rng.drawn == base + i / 8
    modifies out, mask, rng
    ensures rng.drawn == old(rng.drawn) + 1
    ensures forall x :: 0 <= x < out.Length ==>
      out[x] == if oo + i <= x < oo + i + 8 then ForwardValue(input, x - oo, rng.stream, base, prob) else old(out[x])
    ensures forall x :: 0 <= x < mask.Length ==>
      mask[x] == if x == mo + i / 8 then MaskByte(i / 8, rng.stream, prob.keep, base) else old(mask[x])
  {
    var rnd := rng.Next(8);
    ForwardStepMeaning(input, i, rnd, rng.stream, base, prob);
    var step := ForwardStep(input, i, rnd, prob);
    // `step.0` goes to the output and `step.1` to the mask buffer; the two
    // buffers have different element types, so they are distinct and the
    // order of the two stores is immaterial.
    mask[mo + i / 8] := step.1;
    forall x | oo + i <= x < oo + i + 8 {
      out[x] := step.0[x - oo - i];
    }
  }

  /** One forward call on a row (`dropout_fwd_f32_f32_gold`). The row's
   *  output starts at `out[oo]`, its mask bytes at `mask[mo]`. It draws
   *  `m / 8` vectors. */
  method ForwardRow(m: U32, input: seq<F32>, out: array<F32>, oo: nat, mask: array<bv8>, mo: nat,
                    rng: RngState, prob: Prob)
    requires m - m % 8 <= |input| && oo + m - m % 8 <= out.Length && mo + m / 8 <= mask.Length
    modifies out, mask, rng
    ensures rng.drawn == old(rng.drawn) + m / 8
    ensures out[..] == ForwardOut(input, old(out[..]), oo, m, rng.stream, old(rng.drawn), prob)
    ensures mask[..] == ForwardMask(old(mask[..]), mo, m, rng.stream, prob.keep, old(rng.drawn))
  {
    ghost var base, out0, mask0 := rng.drawn, out[..], mask[..];
    LoopBound(m);
    var i: nat := 0;
    while i < AlignDown(m, 8)
      invariant i <= AlignDown(m, 8) && i % 8 == 0
      invariant rng.drawn == base + i / 8
      invariant forall x :: 0 <= x < out.Length ==>
        out[x] == if oo <= x < oo + i then ForwardValue(input, x - oo, rng.stream, base, prob) else out0[x]
      invariant forall x :: 0 <= x < mask.Length ==>
        mask[x] == if mo <= x < mo + i / 8 then MaskByte(x - mo, rng.stream, prob.keep, base) else mask0[x]
    {
      ForwardVector(i, input, out, oo, mask, mo, rng, prob, base);
      i := i + 8;
    }
    assert out[..] == ForwardOut(input, out0, oo, m, rng.stream, base, prob);
    assert mask[..] == ForwardMask(mask0, mo, m, rng.stream, prob.keep, base);
  }

  /** One iteration of backward's loop, on the row's vector at `i`. */
  method BackwardVector(i: nat, input: seq<F32>, out: array<F32>, oo: nat, mask: array<bv8>, mo: nat, prob: Prob)
    requires i % 8 == 0 && i + 8 <= |input| && oo + i + 8 <= out.Length && mo + i / 8 < mask.Length
    modifies out
    ensures forall x :: 0 <= x < out.Length ==>
      out[x] == if oo + i <= x < oo + i + 8 then BackwardValue(input, x - oo, mask[..], mo, prob) else old(out[x])
  {
    var vals := BackwardStep(input, i, mask[mo + i / 8], prob);
    BackwardStepMeaning(input, i, mask[..], mo, prob);
    forall x | oo + i <= x < oo + i + 8 {
      out[x] := vals[x - oo - i];
    }
    forall x | oo + i <= x < oo + i + 8 ensures out[x] == BackwardValue(input, x - oo, mask[..], mo, prob) {
      assert out[x] == vals[x - oo - i];
    }
  }

  /** One backward call on a row (`dropout_bwd_f32_f32_gold`). */
  method BackwardRow(m: U32, input: seq<F32>, out: array<F32>, oo: nat, mask: array<bv8>, mo: nat, prob: Prob)
    requires m - m % 8 <= |input| && oo + m - m % 8 <= out.Length && mo + m / 8 <= mask.Length
    modifies out
    ensures out[..] == BackwardOut(input, old(out[..]), oo, mask[..], mo, m, prob)
  {
    ghost var out0 := out[..];
    LoopBound(m);
    var i: nat := 0;
    while i < AlignDown(m, 8)
      invariant i <= AlignDown(m, 8) && i % 8 == 0
      invariant forall x :: 0 <= x < out.Length ==>
        out[x] == if oo <= x < oo + i then BackwardValue(input, x - oo, mask[..], mo, prob) else out0[x]
    {
      BackwardVector(i, input, out, oo, mask, mo, prob);
      i := i + 8;
    }
    assert out[..] == BackwardOut(input, out0, oo, mask[..], mo, m, prob);
  }
}
