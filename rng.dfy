/** The caller-owned random state (`rng_state`) that the forward kernels draw
 *  from. The generator itself is not part of this model: what a state seeded
 *  with a given seed produces is a parameter, `stream`, and the state only
 *  records how many vectors have been drawn.
 */
module Rng {
  import opened Precision

  class RngState {
    /** `stream(k)(j)` is lane `j` of the `k`-th vector of uniform values in
     *  [0, 1) that the state produces, as F32 bit patterns. Two states created
     *  from the same seed have the same stream. */
    const stream: nat -> nat -> F32
    /** How many vectors have been drawn so far. */
    var drawn: nat

    /** `libxsmm_rng_create_extstate(seed)`, with the seed's stream given. */
    constructor (stream: nat -> nat -> F32)
      ensures this.stream == stream && drawn == 0
    {
      this.stream := stream;
      drawn := 0;
    }

    /** `LIBXSMM_INTRINSICS_MM512_RNG_EXTSTATE_PS` (16 lanes) or
     *  `LIBXSMM_INTRINSICS_MM256_RNG_EXTSTATE_PS` (8 lanes): the next vector. */
    method Next(lanes: nat) returns (v: seq<F32>)
      modifies this`drawn
      ensures drawn == old(drawn) + 1
      ensures |v| == lanes && forall j :: 0 <= j < lanes ==> v[j] == stream(old(drawn))(j)
    {
      var k, s := drawn, stream;
      v := seq(lanes, j requires 0 <= j < lanes => s(k)(j));
      drawn := drawn + 1;
    }
  }
}
