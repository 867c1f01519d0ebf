/** The per-row driving loop of the test program in a build with AVX2 but
 *  without AVX-512, where it calls the AVX2 kernels. The loop is the same:
 *  row `r` starts at element `r * ldi` of the input and `r * ldo` of the
 *  output, and all rows share one random state. The mask is passed at byte
 *  `(r * ldo) / 8`, and the AVX2 kernels read and write it as bytes, so row
 *  `r`'s mask bytes start at `r * (ldo / 8)`.
 *
 *  Each row writes its first `m - m % 8` elements and `m / 8` mask bytes,
 *  and draws `m / 8` vectors.
 */
module RowDriver256 {
  import opened Align
  import opened Precision
  import opened Rng
  import opened Dropout
  import opened Dropout256
  import opened RowLayout

  /** A row of at most `ld` elements has at most `ld / 8` mask bytes. */
  lemma RowBytesFit(m: nat, ld: nat)
    requires m <= ld
    ensures m / 8 <= ld / 8
  {}

  /** The output buffer after forward calls on rows `0 .. n - 1`. */
  function RowsOut(input: seq<F32>, ldi: nat, out0: seq<F32>, ldo: nat, m: nat, n: nat,
                   stream: nat -> nat -> F32, base: nat, prob: Prob): (r: seq<F32>)
    requires m <= ldi && m <= ldo && Off(n, ldi) <= |input| && Off(n, ldo) <= |out0|
    ensures |r| == |out0|
  {
    if n == 0 then out0
    else
      var prev := RowsOut(input, ldi, out0, ldo, m, n - 1, stream, base, prob);
      ForwardOut(input[Off(n - 1, ldi)..], prev, Off(n - 1, ldo), m, stream, base + Off(n - 1, m / 8), prob)
  }

  /** The mask buffer after forward calls on rows `0 .. n - 1`, row `r`'s
   *  bytes starting at `Off(r, ldm)`. */
  function RowsMask(mask0: seq<bv8>, ldm: nat, m: nat, n: nat,
                    stream: nat -> nat -> F32, keep: F32 -> bool, base: nat): (r: seq<bv8>)
    requires m / 8 <= ldm && Off(n, ldm) <= |mask0|
    ensures |r| == |mask0|
  {
    if n == 0 then mask0
    else
      var prev := RowsMask(mask0, ldm, m, n - 1, stream, keep, base);
      ForwardMask(prev, Off(n - 1, ldm), m, stream, keep, base + Off(n - 1, m / 8))
  }

  /** The output buffer after backward calls on rows `0 .. n - 1`. */
  function RowsBackwardOut(input: seq<F32>, ldi: nat, out0: seq<F32>, ldo: nat, mask: seq<bv8>, ldm: nat,
                           m: nat, n: nat, prob: Prob): (r: seq<F32>)
    requires m <= ldi && m <= ldo && Off(n, ldi) <= |input| && Off(n, ldo) <= |out0|
    requires m / 8 <= ldm && Off(n, ldm) <= |mask|
    ensures |r| == |out0|
  {
    if n == 0 then out0
    else
      var prev := RowsBackwardOut(input, ldi, out0, ldo, mask, ldm, m, n - 1, prob);
      BackwardOut(input[Off(n - 1, ldi)..], prev, Off(n - 1, ldo), mask, Off(n - 1, ldm), m, prob)
  }

  // ---------------------------------------------------------------------------
  // Properties of the rows
  // ---------------------------------------------------------------------------

  /** Element `k < m - m % 8` of row `r` holds the forward result of that
   *  element, the row having drawn its vectors after the `Off(r, m / 8) == r * (m / 8)`
   *  vectors of the rows before it; every later cell of the row, the last
   *  `m % 8` elements and the padding, keeps its value. */
  lemma {:induction false} RowsOutAt(input: seq<F32>, ldi: nat, out0: seq<F32>, ldo: nat, m: nat, n: nat,
                                     stream: nat -> nat -> F32, base: nat, prob: Prob, r: nat, k: nat)
    requires m <= ldi && m <= ldo && Off(n, ldi) <= |input| && Off(n, ldo) <= |out0|
    requires r < n && k < ldo
    ensures Off(r, ldo) + k < |out0| && (k < m ==> Off(r, ldi) + k < |input|)
    ensures Off(r, m / 8) == r * (m / 8)
    ensures RowsOut(input, ldi, out0, ldo, m, n, stream, base, prob)[Off(r, ldo) + k]
      == if k < m - m % 8 then
           (if prob.keep(stream(base + Off(r, m / 8) + k / 8)(k % 8)) then prob.scale(input[Off(r, ldi) + k]) else Zero)
         else out0[Off(r, ldo) + k]
  {
    OffIsProduct(r, m / 8);
    OffMonotonic(r, n, ldi);
    OffMonotonic(r, n, ldo);
    if r == n - 1 {
      LastRowAt(input, ldi, out0, ldo, m, r, stream, base, prob, k);
    } else {
      OffMonotonic(r, n - 1, ldo);
      RowsOutAt(input, ldi, out0, ldo, m, n - 1, stream, base, prob, r, k);
      EarlierRowAt(input, ldi, out0, ldo, m, n - 1, stream, base, prob, Off(r, ldo) + k);
    }
  }

  /** The row written last: its first `m - m % 8` elements as forward
   *  computes them, the rest of the row as before. */
  lemma LastRowAt(input: seq<F32>, ldi: nat, out0: seq<F32>, ldo: nat, m: nat, r: nat,
                  stream: nat -> nat -> F32, base: nat, prob: Prob, k: nat)
    requires m <= ldi && m <= ldo && Off(r + 1, ldi) <= |input| && Off(r + 1, ldo) <= |out0| && k < ldo
    ensures Off(r, ldo) + k < |out0| && (k < m ==> Off(r, ldi) + k < |input|)
    ensures RowsOut(input, ldi, out0, ldo, m, r + 1, stream, base, prob)[Off(r, ldo) + k]
      == if k < m - m % 8 then
           (if prob.keep(stream(base + Off(r, m / 8) + k / 8)(k % 8)) then prob.scale(input[Off(r, ldi) + k]) else Zero)
         else out0[Off(r, ldo) + k]
  {
    var prev := RowsOut(input, ldi, out0, ldo, m, r, stream, base, prob);
    var row := input[Off(r, ldi)..];
    ForwardWrites(row, prev, Off(r, ldo), m, stream, base + Off(r, m / 8), prob);
    if k < m - m % 8 {
      assert row[k] == input[Off(r, ldi) + k];
    } else {
      RowsOutBeyond(input, ldi, out0, ldo, m, r, stream, base, prob, Off(r, ldo) + k);
    }
  }

  /** A cell before row `n` keeps its value when row `n` is written. */
  lemma EarlierRowAt(input: seq<F32>, ldi: nat, out0: seq<F32>, ldo: nat, m: nat, n: nat,
                     stream: nat -> nat -> F32, base: nat, prob: Prob, x: nat)
    requires m <= ldi && m <= ldo && Off(n + 1, ldi) <= |input| && Off(n + 1, ldo) <= |out0| && x < Off(n, ldo)
    ensures x < |out0|
    ensures RowsOut(input, ldi, out0, ldo, m, n + 1, stream, base, prob)[x]
      == RowsOut(input, ldi, out0, ldo, m, n, stream, base, prob)[x]
  {
    var prev := RowsOut(input, ldi, out0, ldo, m, n, stream, base, prob);
    ForwardWrites(input[Off(n, ldi)..], prev, Off(n, ldo), m, stream, base + Off(n, m / 8), prob);
  }

  /** The cells past the last of the `n` rows keep their values. */
  lemma {:induction false} RowsOutBeyond(input: seq<F32>, ldi: nat, out0: seq<F32>, ldo: nat, m: nat, n: nat,
                                         stream: nat -> nat -> F32, base: nat, prob: Prob, x: nat)
    requires m <= ldi && m <= ldo && Off(n, ldi) <= |input| && Off(n, ldo) <= |out0|
    requires Off(n, ldo) <= x < |out0|
    ensures RowsOut(input, ldi, out0, ldo, m, n, stream, base, prob)[x] == out0[x]
  {
    if n > 0 {
      var prev := RowsOut(input, ldi, out0, ldo, m, n - 1, stream, base, prob);
      ForwardWrites(input[Off(n - 1, ldi)..], prev, Off(n - 1, ldo), m, stream, base + Off(n - 1, m / 8), prob);
      RowsOutBeyond(input, ldi, out0, ldo, m, n - 1, stream, base, prob, x);
    }
  }

  /** After forward over `N` rows, the bytes of row `r` are the bytes a
   *  forward call on that row alone records, with the row's own random values. */
  lemma {:induction false} RowsMaskBytes(mask0: seq<bv8>, ldm: nat, m: nat, N: nat,
                                         stream: nat -> nat -> F32, keep: F32 -> bool, base: nat, r: nat)
    requires m / 8 <= ldm && Off(N, ldm) <= |mask0| && r < N
    ensures Off(r, ldm) + m / 8 <= |mask0|
    ensures RowsMask(mask0, ldm, m, N, stream, keep, base)[Off(r, ldm) .. Off(r, ldm) + m / 8]
      == RowBytes(m, stream, keep, base + Off(r, m / 8))
  {
    OffMonotonic(r, N, ldm);
    if r == N - 1 {
      LastRowBytes(mask0, ldm, m, N, stream, keep, base, r);
    } else {
      OffMonotonic(r, N - 1, ldm);
      RowsMaskBytes(mask0, ldm, m, N - 1, stream, keep, base, r);
      EarlierRowKeepsBytes(mask0, ldm, m, N, stream, keep, base, r);
    }
  }

  /** Row `r`'s bytes survive the writing of a later row `n - 1`. */
  lemma EarlierRowKeepsBytes(mask0: seq<bv8>, ldm: nat, m: nat, n: nat,
                             stream: nat -> nat -> F32, keep: F32 -> bool, base: nat, r: nat)
    requires 0 < n && m / 8 <= ldm && Off(n, ldm) <= |mask0| && Off(r, ldm) + m / 8 <= Off(n - 1, ldm)
    requires RowsMask(mask0, ldm, m, n - 1, stream, keep, base)[Off(r, ldm) .. Off(r, ldm) + m / 8]
      == RowBytes(m, stream, keep, base + Off(r, m / 8))
    ensures RowsMask(mask0, ldm, m, n, stream, keep, base)[Off(r, ldm) .. Off(r, ldm) + m / 8]
      == RowBytes(m, stream, keep, base + Off(r, m / 8))
  {
    EarlierRowBytes(mask0, ldm, m, n, stream, keep, base, Off(r, ldm), Off(r, ldm) + m / 8);
  }

  /** The row written last, row `r == n - 1`, holds its own bytes. */
  lemma LastRowBytes(mask0: seq<bv8>, ldm: nat, m: nat, n: nat,
                     stream: nat -> nat -> F32, keep: F32 -> bool, base: nat, r: nat)
    requires r + 1 == n && m / 8 <= ldm && Off(n, ldm) <= |mask0|
    ensures Off(r, ldm) + m / 8 <= |mask0|
    ensures RowsMask(mask0, ldm, m, n, stream, keep, base)[Off(r, ldm) .. Off(r, ldm) + m / 8]
      == RowBytes(m, stream, keep, base + Off(r, m / 8))
  {
    var prev := RowsMask(mask0, ldm, m, r, stream, keep, base);
    ForwardMaskHoldsRowBytes(prev, Off(r, ldm), m, stream, keep, base + Off(r, m / 8));
  }

  /** Bytes before row `n - 1` keep their values when row `n - 1` is written. */
  lemma EarlierRowBytes(mask0: seq<bv8>, ldm: nat, m: nat, n: nat,
                        stream: nat -> nat -> F32, keep: F32 -> bool, base: nat, a: nat, b: nat)
    requires 0 < n && m / 8 <= ldm && Off(n, ldm) <= |mask0| && a <= b <= Off(n - 1, ldm)
    ensures RowsMask(mask0, ldm, m, n, stream, keep, base)[a .. b]
      == RowsMask(mask0, ldm, m, n - 1, stream, keep, base)[a .. b]
  {
    var prev := RowsMask(mask0, ldm, m, n - 1, stream, keep, base);
    ForwardMaskBefore(prev, Off(n - 1, ldm), m, stream, keep, base + Off(n - 1, m / 8), a, b);
  }

  /** Backward over the first `n` of `N` rows, given the mask buffer that
   *  forward over the `N` rows left, writes exactly what forward wrote. */
  lemma {:induction false} RowsBackwardReplaysForward(input: seq<F32>, ldi: nat, out0: seq<F32>, ldo: nat,
                                                      mask0: seq<bv8>, ldm: nat, m: nat, N: nat, n: nat,
                                                      stream: nat -> nat -> F32, base: nat, prob: Prob)
    requires m <= ldi && m <= ldo && m / 8 <= ldm && n <= N
    requires Off(n, ldi) <= |input| && Off(n, ldo) <= |out0| && Off(N, ldm) <= |mask0|
    ensures Off(n, ldm) <= |mask0|
    ensures RowsBackwardOut(input, ldi, out0, ldo, RowsMask(mask0, ldm, m, N, stream, prob.keep, base), ldm, m, n, prob)
      == RowsOut(input, ldi, out0, ldo, m, n, stream, base, prob)
  {
    if n < N {
      OffMonotonic(n, N, ldm);
    }
    if n > 0 {
      RowsBackwardReplaysForward(input, ldi, out0, ldo, mask0, ldm, m, N, n - 1, stream, base, prob);
      RowsMaskBytes(mask0, ldm, m, N, stream, prob.keep, base, n - 1);
      BackwardRowStep(input, ldi, out0, ldo, RowsMask(mask0, ldm, m, N, stream, prob.keep, base), ldm, m, n,
                      stream, base, prob);
    }
  }

  /** If backward over rows `0 .. n - 2` wrote what forward wrote, and the
   *  bytes of row `n - 1` are the ones forward recorded for it, backward
   *  over rows `0 .. n - 1` still writes what forward wrote. */
  lemma BackwardRowStep(input: seq<F32>, ldi: nat, out0: seq<F32>, ldo: nat, mask: seq<bv8>, ldm: nat,
                        m: nat, n: nat, stream: nat -> nat -> F32, base: nat, prob: Prob)
    requires 0 < n && m <= ldi && m <= ldo && m / 8 <= ldm
    requires Off(n, ldi) <= |input| && Off(n, ldo) <= |out0| && Off(n, ldm) <= |mask|
    requires mask[Off(n - 1, ldm) .. Off(n - 1, ldm) + m / 8] == RowBytes(m, stream, prob.keep, base + Off(n - 1, m / 8))
    requires RowsBackwardOut(input, ldi, out0, ldo, mask, ldm, m, n - 1, prob)
      == RowsOut(input, ldi, out0, ldo, m, n - 1, stream, base, prob)
    ensures RowsBackwardOut(input, ldi, out0, ldo, mask, ldm, m, n, prob)
      == RowsOut(input, ldi, out0, ldo, m, n, stream, base, prob)
  {
    var row := input[Off(n - 1, ldi)..];
    assert m <= |row|;
    BackwardOfRowBytes(row, RowsOut(input, ldi, out0, ldo, m, n - 1, stream, base, prob),
                       Off(n - 1, ldo), mask, Off(n - 1, ldm), m, stream, base + Off(n - 1, m / 8), prob);
  }

  // ---------------------------------------------------------------------------
  // The driving loops
  // ---------------------------------------------------------------------------

  /** Forward over `n` rows, as the test program computes its reference
   *  result: one `dropout_fwd_f32_f32_gold` call per row, all on one random state. */
  method ForwardRows(m: U32, n: nat, input: seq<F32>, ldi: nat, out: array<F32>, ldo: nat,
                     mask: array<bv8>, rng: RngState, prob: Prob)
    requires m <= ldi && m <= ldo && ldo % 8 == 0
    requires Off(n, ldi) <= |input| && Off(n, ldo) <= out.Length && Off(n, ldo / 8) <= mask.Length
    modifies out, mask, rng
    ensures rng.drawn == old(rng.drawn) + n * (m / 8)
    ensures out[..] == RowsOut(input, ldi, old(out[..]), ldo, m, n, rng.stream, old(rng.drawn), prob)
    ensures mask[..] == RowsMask(old(mask[..]), ldo / 8, m, n, rng.stream, prob.keep, old(rng.drawn))
  {
    ghost var base, out0, mask0 := rng.drawn, out[..], mask[..];
    RowBytesFit(m, ldo);
    ghost var v, ldm := m / 8, ldo / 8;
    assert m - m % 8 <= m && v <= ldm;
    var r: nat := 0;
    while r < n
      invariant r <= n
      invariant Off(r, ldi) <= |input| && Off(r, ldo) <= out.Length && Off(r, ldo / 8) <= mask.Length
      invariant rng.drawn == base + Off(r, v)
      invariant out[..] == RowsOut(input, ldi, out0, ldo, m, r, rng.stream, base, prob)
      invariant mask[..] == RowsMask(mask0, ldm, m, r, rng.stream, prob.keep, base)
    {
      OffMonotonic(r, n, ldi);
      OffMonotonic(r, n, ldo);
      OffMonotonic(r, n, ldm);
      OffIsProduct(r, ldi);
      OffIsProduct(r, ldo);
      OffIsProduct(r, ldm);
      ForwardRow(m, input[r * ldi..], out, r * ldo, mask, r * (ldo / 8), rng, prob);
      r := r + 1;
    }
    OffIsProduct(n, m / 8);
  }

  /** Backward over `n` rows: one `dropout_bwd_f32_f32_gold` call per row. */
  method BackwardRows(m: U32, n: nat, input: seq<F32>, ldi: nat, out: array<F32>, ldo: nat,
                      mask: array<bv8>, prob: Prob)
    requires m <= ldi && m <= ldo && ldo % 8 == 0
    requires Off(n, ldi) <= |input| && Off(n, ldo) <= out.Length && Off(n, ldo / 8) <= mask.Length
    modifies out
    ensures out[..] == RowsBackwardOut(input, ldi, old(out[..]), ldo, mask[..], ldo / 8, m, n, prob)
  {
    ghost var out0 := out[..];
    RowBytesFit(m, ldo);
    var r: nat := 0;
    while r < n
      invariant r <= n
      invariant Off(r, ldi) <= |input| && Off(r, ldo) <= out.Length && Off(r, ldo / 8) <= mask.Length
      invariant out[..] == RowsBackwardOut(input, ldi, out0, ldo, mask[..], ldo / 8, m, r, prob)
    {
      OffMonotonic(r, n, ldi);
      OffMonotonic(r, n, ldo);
      OffMonotonic(r, n, ldo / 8);
      OffIsProduct(r, ldi);
      OffIsProduct(r, ldo);
      OffIsProduct(r, ldo / 8);
      BackwardRow(m, input[r * ldi..], out, r * ldo, mask, r * (ldo / 8), prob);
      r := r + 1;
    }
  }
}
