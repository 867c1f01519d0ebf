/** The per-row driving loop of the test program over the AVX-512 kernels:
 *  row `r` of an `n`-row matrix starts at element `r * ldi` of the input, at
 *  element `r * ldo` of the output and at mask word `r * (ldo / 16)`, and
 *  every row is given the same random state, so a row draws the vectors
 *  that follow those of the rows before it.
 *
 *  The specification functions place row `r` at `Off(r, ld)`; the methods
 *  compute the products as the test program does.
 */
module RowDriver {
  import opened Align
  import opened Precision
  import opened Rng
  import opened Dropout
  import opened Dropout512
  import opened RowLayout

  /** A row of at most `ld` elements whose words start at a multiple of
   *  `ld / 16` fits in the words of its own row when `ld` is a multiple of 16. */
  lemma RowWordsFit(m: nat, ld: nat)
    requires m <= ld && ld % 16 == 0
    ensures Chunks(m) <= ld / 16
  {}

  /** The output buffer after forward calls on rows `0 .. n - 1`. */
  function RowsOut<In, Out>(input: seq<In>, ldi: nat, out0: seq<Out>, ldo: nat, m: nat, n: nat,
                            stream: nat -> nat -> F32, base: nat, prob: Prob, conv: Conv<In, Out>): (r: seq<Out>)
    requires m <= ldi && m <= ldo && Off(n, ldi) <= |input| && Off(n, ldo) <= |out0|
    ensures |r| == |out0|
  {
    if n == 0 then out0
    else
      var prev := RowsOut(input, ldi, out0, ldo, m, n - 1, stream, base, prob, conv);
      ForwardOut(input[Off(n - 1, ldi)..], prev, Off(n - 1, ldo), m, stream, base + Off(n - 1, Chunks(m)), prob, conv)
  }

  /** The mask buffer after forward calls on rows `0 .. n - 1`, row `r`'s
   *  words starting at `Off(r, ldm)`. */
  function RowsMask(mask0: seq<bv16>, ldm: nat, m: nat, n: nat,
                    stream: nat -> nat -> F32, keep: F32 -> bool, base: nat): (r: seq<bv16>)
    requires Chunks(m) <= ldm && Off(n, ldm) <= |mask0|
    ensures |r| == |mask0|
  {
    if n == 0 then mask0
    else
      var prev := RowsMask(mask0, ldm, m, n - 1, stream, keep, base);
      ForwardMask(prev, Off(n - 1, ldm), m, stream, keep, base + Off(n - 1, Chunks(m)))
  }

  /** The output buffer after backward calls on rows `0 .. n - 1`. */
  function RowsBackwardOut<In, Out>(input: seq<In>, ldi: nat, out0: seq<Out>, ldo: nat, mask: seq<bv16>, ldm: nat,
                                    m: nat, n: nat, prob: Prob, conv: Conv<In, Out>): (r: seq<Out>)
    requires m <= ldi && m <= ldo && Off(n, ldi) <= |input| && Off(n, ldo) <= |out0|
    requires Chunks(m) <= ldm && Off(n, ldm) <= |mask|
    ensures |r| == |out0|
  {
    if n == 0 then out0
    else
      var prev := RowsBackwardOut(input, ldi, out0, ldo, mask, ldm, m, n - 1, prob, conv);
      BackwardOut(input[Off(n - 1, ldi)..], prev, Off(n - 1, ldo), mask, Off(n - 1, ldm), m, prob, conv)
  }

  // ---------------------------------------------------------------------------
  // Properties of the rows
  // ---------------------------------------------------------------------------

  /** Element `k < m` of row `r` holds the forward result of that element,
   *  the row having drawn its vectors after the `Off(r, Chunks(m)) == r * Chunks(m)` vectors
   *  of the rows before it; a padding cell `m <= k < ldo` keeps its value. */
  lemma {:induction false} RowsOutAt<In, Out>(input: seq<In>, ldi: nat, out0: seq<Out>, ldo: nat, m: nat, n: nat,
                                              stream: nat -> nat -> F32, base: nat, prob: Prob, conv: Conv<In, Out>,
                                              r: nat, k: nat)
    requires m <= ldi && m <= ldo && Off(n, ldi) <= |input| && Off(n, ldo) <= |out0|
    requires r < n && k < ldo
    ensures Off(r, ldo) + k < |out0| && (k < m ==> Off(r, ldi) + k < |input|)
    ensures Off(r, Chunks(m)) == r * Chunks(m)
    ensures RowsOut(input, ldi, out0, ldo, m, n, stream, base, prob, conv)[Off(r, ldo) + k]
      == if k < m then
           conv.store(if prob.keep(stream(base + Off(r, Chunks(m)) + k / 16)(k % 16))
                      then prob.scale(conv.load(input[Off(r, ldi) + k])) else Zero)
         else out0[Off(r, ldo) + k]
  {
    OffIsProduct(r, Chunks(m));
    OffMonotonic(r, n, ldi);
    OffMonotonic(r, n, ldo);
    if r == n - 1 {
      LastRowAt(input, ldi, out0, ldo, m, r, stream, base, prob, conv, k);
    } else {
      OffMonotonic(r, n - 1, ldo);
      RowsOutAt(input, ldi, out0, ldo, m, n - 1, stream, base, prob, conv, r, k);
      EarlierRowAt(input, ldi, out0, ldo, m, n - 1, stream, base, prob, conv, Off(r, ldo) + k);
    }
  }

  /** The row written last: element `k` as forward computes it, padding as before. */
  lemma LastRowAt<In, Out>(input: seq<In>, ldi: nat, out0: seq<Out>, ldo: nat, m: nat, r: nat,
                           stream: nat -> nat -> F32, base: nat, prob: Prob, conv: Conv<In, Out>, k: nat)
    requires m <= ldi && m <= ldo && Off(r + 1, ldi) <= |input| && Off(r + 1, ldo) <= |out0| && k < ldo
    ensures Off(r, ldo) + k < |out0| && (k < m ==> Off(r, ldi) + k < |input|)
    ensures RowsOut(input, ldi, out0, ldo, m, r + 1, stream, base, prob, conv)[Off(r, ldo) + k]
      == if k < m then
           conv.store(if prob.keep(stream(base + Off(r, Chunks(m)) + k / 16)(k % 16))
                      then prob.scale(conv.load(input[Off(r, ldi) + k])) else Zero)
         else out0[Off(r, ldo) + k]
  {
    var prev := RowsOut(input, ldi, out0, ldo, m, r, stream, base, prob, conv);
    var row := input[Off(r, ldi)..];
    ForwardWrites(row, prev, Off(r, ldo), m, stream, base + Off(r, Chunks(m)), prob, conv);
    if k < m {
      assert row[k] == input[Off(r, ldi) + k];
    } else {
      RowsOutBeyond(input, ldi, out0, ldo, m, r, stream, base, prob, conv, Off(r, ldo) + k);
    }
  }

  /** A cell before row `n` keeps its value when row `n` is written. */
  lemma EarlierRowAt<In, Out>(input: seq<In>, ldi: nat, out0: seq<Out>, ldo: nat, m: nat, n: nat,
                              stream: nat -> nat -> F32, base: nat, prob: Prob, conv: Conv<In, Out>, x: nat)
    requires m <= ldi && m <= ldo && Off(n + 1, ldi) <= |input| && Off(n + 1, ldo) <= |out0| && x < Off(n, ldo)
    ensures x < |out0|
    ensures RowsOut(input, ldi, out0, ldo, m, n + 1, stream, base, prob, conv)[x]
      == RowsOut(input, ldi, out0, ldo, m, n, stream, base, prob, conv)[x]
  {
    var prev := RowsOut(input, ldi, out0, ldo, m, n, stream, base, prob, conv);
    ForwardWrites(input[Off(n, ldi)..], prev, Off(n, ldo), m, stream, base + Off(n, Chunks(m)), prob, conv);
  }

  /** The cells past the last of the `n` rows keep their values. */
  lemma {:induction false} RowsOutBeyond<In, Out>(input: seq<In>, ldi: nat, out0: seq<Out>, ldo: nat, m: nat, n: nat,
                                                  stream: nat -> nat -> F32, base: nat, prob: Prob, conv: Conv<In, Out>,
                                                  x: nat)
    requires m <= ldi && m <= ldo && Off(n, ldi) <= |input| && Off(n, ldo) <= |out0|
    requires Off(n, ldo) <= x < |out0|
    ensures RowsOut(input, ldi, out0, ldo, m, n, stream, base, prob, conv)[x] == out0[x]
  {
    if n > 0 {
      var prev := RowsOut(input, ldi, out0, ldo, m, n - 1, stream, base, prob, conv);
      ForwardWrites(input[Off(n - 1, ldi)..], prev, Off(n - 1, ldo), m, stream, base + Off(n - 1, Chunks(m)), prob, conv);
      RowsOutBeyond(input, ldi, out0, ldo, m, n - 1, stream, base, prob, conv, x);
    }
  }

  /** After forward over `N` rows, the words of row `r` are the words a
   *  forward call on that row alone records, with the row's own random values. */
  lemma {:induction false} RowsMaskWords(mask0: seq<bv16>, ldm: nat, m: nat, N: nat,
                                         stream: nat -> nat -> F32, keep: F32 -> bool, base: nat, r: nat)
    requires Chunks(m) <= ldm && Off(N, ldm) <= |mask0| && r < N
    ensures Off(r, ldm) + Chunks(m) <= |mask0|
    ensures RowsMask(mask0, ldm, m, N, stream, keep, base)[Off(r, ldm) .. Off(r, ldm) + Chunks(m)]
      == RowWords(m, stream, keep, base + Off(r, Chunks(m)))
  {
    OffMonotonic(r, N, ldm);
    if r == N - 1 {
      LastRowWords(mask0, ldm, m, N, stream, keep, base, r);
    } else {
      OffMonotonic(r, N - 1, ldm);
      RowsMaskWords(mask0, ldm, m, N - 1, stream, keep, base, r);
      EarlierRowKeepsWords(mask0, ldm, m, N, stream, keep, base, r);
    }
  }

  /** Row `r`'s words survive the writing of a later row `n - 1`. */
  lemma EarlierRowKeepsWords(mask0: seq<bv16>, ldm: nat, m: nat, n: nat,
                             stream: nat -> nat -> F32, keep: F32 -> bool, base: nat, r: nat)
    requires 0 < n && Chunks(m) <= ldm && Off(n, ldm) <= |mask0| && Off(r, ldm) + Chunks(m) <= Off(n - 1, ldm)
    requires RowsMask(mask0, ldm, m, n - 1, stream, keep, base)[Off(r, ldm) .. Off(r, ldm) + Chunks(m)]
      == RowWords(m, stream, keep, base + Off(r, Chunks(m)))
    ensures RowsMask(mask0, ldm, m, n, stream, keep, base)[Off(r, ldm) .. Off(r, ldm) + Chunks(m)]
      == RowWords(m, stream, keep, base + Off(r, Chunks(m)))
  {
    EarlierRowWords(mask0, ldm, m, n, stream, keep, base, Off(r, ldm), Off(r, ldm) + Chunks(m));
  }

  /** The row written last, row `r == n - 1`, holds its own words. */
  lemma LastRowWords(mask0: seq<bv16>, ldm: nat, m: nat, n: nat,
                     stream: nat -> nat -> F32, keep: F32 -> bool, base: nat, r: nat)
    requires r + 1 == n && Chunks(m) <= ldm && Off(n, ldm) <= |mask0|
    ensures Off(r, ldm) + Chunks(m) <= |mask0|
    ensures RowsMask(mask0, ldm, m, n, stream, keep, base)[Off(r, ldm) .. Off(r, ldm) + Chunks(m)]
      == RowWords(m, stream, keep, base + Off(r, Chunks(m)))
  {
    var prev := RowsMask(mask0, ldm, m, r, stream, keep, base);
    ForwardMaskHoldsRowWords(prev, Off(r, ldm), m, stream, keep, base + Off(r, Chunks(m)));
  }

  /** Words before row `n - 1` keep their values when row `n - 1` is written. */
  lemma EarlierRowWords(mask0: seq<bv16>, ldm: nat, m: nat, n: nat,
                        stream: nat -> nat -> F32, keep: F32 -> bool, base: nat, a: nat, b: nat)
    requires 0 < n && Chunks(m) <= ldm && Off(n, ldm) <= |mask0| && a <= b <= Off(n - 1, ldm)
    ensures RowsMask(mask0, ldm, m, n, stream, keep, base)[a .. b]
      == RowsMask(mask0, ldm, m, n - 1, stream, keep, base)[a .. b]
  {
    var prev := RowsMask(mask0, ldm, m, n - 1, stream, keep, base);
    ForwardMaskBefore(prev, Off(n - 1, ldm), m, stream, keep, base + Off(n - 1, Chunks(m)), a, b);
  }

  /** Backward over the first `n` of `N` rows, given the mask buffer that
   *  forward over the `N` rows left, writes exactly what forward wrote. */
  lemma {:induction false} RowsBackwardReplaysForward<In, Out>(input: seq<In>, ldi: nat, out0: seq<Out>, ldo: nat,
                                                               mask0: seq<bv16>, ldm: nat, m: nat, N: nat, n: nat,
                                                               stream: nat -> nat -> F32, base: nat,
                                                               prob: Prob, conv: Conv<In, Out>)
    requires m <= ldi && m <= ldo && Chunks(m) <= ldm && n <= N
    requires Off(n, ldi) <= |input| && Off(n, ldo) <= |out0| && Off(N, ldm) <= |mask0|
    ensures Off(n, ldm) <= |mask0|
    ensures RowsBackwardOut(input, ldi, out0, ldo, RowsMask(mask0, ldm, m, N, stream, prob.keep, base), ldm, m, n, prob, conv)
      == RowsOut(input, ldi, out0, ldo, m, n, stream, base, prob, conv)
  {
    if n < N {
      OffMonotonic(n, N, ldm);
    }
    if n > 0 {
      RowsBackwardReplaysForward(input, ldi, out0, ldo, mask0, ldm, m, N, n - 1, stream, base, prob, conv);
      RowsMaskWords(mask0, ldm, m, N, stream, prob.keep, base, n - 1);
      BackwardRowStep(input, ldi, out0, ldo, RowsMask(mask0, ldm, m, N, stream, prob.keep, base), ldm, m, n,
                      stream, base, prob, conv);
    }
  }

  /** If backward over rows `0 .. n - 2` wrote what forward wrote, and the
   *  words of row `n - 1` are the ones forward recorded for it, backward
   *  over rows `0 .. n - 1` still writes what forward wrote. */
  lemma BackwardRowStep<In, Out>(input: seq<In>, ldi: nat, out0: seq<Out>, ldo: nat, mask: seq<bv16>, ldm: nat,
                                 m: nat, n: nat, stream: nat -> nat -> F32, base: nat, prob: Prob, conv: Conv<In, Out>)
    requires 0 < n && m <= ldi && m <= ldo && Chunks(m) <= ldm
    requires Off(n, ldi) <= |input| && Off(n, ldo) <= |out0| && Off(n, ldm) <= |mask|
    requires mask[Off(n - 1, ldm) .. Off(n - 1, ldm) + Chunks(m)] == RowWords(m, stream, prob.keep, base + Off(n - 1, Chunks(m)))
    requires RowsBackwardOut(input, ldi, out0, ldo, mask, ldm, m, n - 1, prob, conv)
      == RowsOut(input, ldi, out0, ldo, m, n - 1, stream, base, prob, conv)
    ensures RowsBackwardOut(input, ldi, out0, ldo, mask, ldm, m, n, prob, conv)
      == RowsOut(input, ldi, out0, ldo, m, n, stream, base, prob, conv)
  {
    var row := input[Off(n - 1, ldi)..];
    assert m <= |row|;
    BackwardOfRowWords(row, RowsOut(input, ldi, out0, ldo, m, n - 1, stream, base, prob, conv),
                       Off(n - 1, ldo), mask, Off(n - 1, ldm), m, stream, base + Off(n - 1, Chunks(m)), prob, conv);
  }

  // ---------------------------------------------------------------------------
  // The driving loops
  // ---------------------------------------------------------------------------

  /** Forward over `n` rows, as the test program computes its reference
   *  result: one `dropout_fwd_*_gold` call per row, all on one random state. */
  method ForwardRows<In, Out>(m: U32, n: nat, input: seq<In>, ldi: nat, out: array<Out>, ldo: nat,
                              mask: array<bv16>, rng: RngState, prob: Prob, conv: Conv<In, Out>)
    requires m <= ldi && m <= ldo && ldo % 16 == 0
    requires Off(n, ldi) <= |input| && Off(n, ldo) <= out.Length && Off(n, ldo / 16) <= mask.Length
    requires out as object != mask
    modifies out, mask, rng
    ensures rng.drawn == old(rng.drawn) + n * Chunks(m)
    ensures out[..] == RowsOut(input, ldi, old(out[..]), ldo, m, n, rng.stream, old(rng.drawn), prob, conv)
    ensures mask[..] == RowsMask(old(mask[..]), ldo / 16, m, n, rng.stream, prob.keep, old(rng.drawn))
  {
    ghost var base, out0, mask0 := rng.drawn, out[..], mask[..];
    RowWordsFit(m, ldo);
    var r: nat := 0;
    while r < n
      invariant r <= n
      invariant Off(r, ldi) <= |input| && Off(r, ldo) <= out.Length && Off(r, ldo / 16) <= mask.Length
      invariant rng.drawn == base + Off(r, Chunks(m))
      invariant out[..] == RowsOut(input, ldi, out0, ldo, m, r, rng.stream, base, prob, conv)
      invariant mask[..] == RowsMask(mask0, ldo / 16, m, r, rng.stream, prob.keep, base)
    {
      OffMonotonic(r, n, ldi);
      OffMonotonic(r, n, ldo);
      OffMonotonic(r, n, ldo / 16);
      OffIsProduct(r, ldi);
      OffIsProduct(r, ldo);
      OffIsProduct(r, ldo / 16);
      ForwardRow(m, input[r * ldi..], out, r * ldo, mask, r * (ldo / 16), rng, prob, conv);
      r := r + 1;
    }
    OffIsProduct(n, Chunks(m));
  }

  /** Backward over `n` rows: one `dropout_bwd_*_gold` call per row. */
  method BackwardRows<In, Out>(m: U32, n: nat, input: seq<In>, ldi: nat, out: array<Out>, ldo: nat,
                               mask: array<bv16>, prob: Prob, conv: Conv<In, Out>)
    requires m <= ldi && m <= ldo && ldo % 16 == 0
    requires Off(n, ldi) <= |input| && Off(n, ldo) <= out.Length && Off(n, ldo / 16) <= mask.Length
    requires out as object != mask
    modifies out
    ensures out[..] == RowsBackwardOut(input, ldi, old(out[..]), ldo, mask[..], ldo / 16, m, n, prob, conv)
  {
    ghost var out0 := out[..];
    RowWordsFit(m, ldo);
    var r: nat := 0;
    while r < n
      invariant r <= n
      invariant Off(r, ldi) <= |input| && Off(r, ldo) <= out.Length && Off(r, ldo / 16) <= mask.Length
      invariant out[..] == RowsBackwardOut(input, ldi, out0, ldo, mask[..], ldo / 16, m, r, prob, conv)
    {
      OffMonotonic(r, n, ldi);
      OffMonotonic(r, n, ldo);
      OffMonotonic(r, n, ldo / 16);
      OffIsProduct(r, ldi);
      OffIsProduct(r, ldo);
      OffIsProduct(r, ldo / 16);
      BackwardRow(m, input[r * ldi..], out, r * ldo, mask, r * (ldo / 16), prob, conv);
      r := r + 1;
    }
  }
}
