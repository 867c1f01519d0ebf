/** What the AVX-512 and the AVX2 dropout kernels share: the float
 *  arithmetic, which this model keeps abstract, and the reading of the
 *  random stream.
 *
 *  A kernel computes `pn = 1 - p` and `1 / pn` from the drop probability `p`
 *  once per call; a lane is kept when its random value compares below `pn`,
 *  and a kept lane's input is multiplied by `1 / pn`. Both steps are float
 *  operations, so they are the parameters `keep` and `scale` of a `Prob`.
 */
module Dropout {
  import opened Precision

  /** The bit pattern of `+0.0f`, what a dropped lane receives. */
  const Zero: F32 := 0

  /** The random-value comparison and the scaling a kernel derives from `p`. */
  datatype Prob = Prob(keep: F32 -> bool, scale: F32 -> F32)

  /** Whether lane `j` of the row's `c`-th vector is kept, the row having started
   *  after `base` vectors had been drawn from `stream`. */
  function Kept(stream: nat -> nat -> F32, keep: F32 -> bool, base: nat, c: nat, j: nat): bool
  {
    keep(stream(base + c)(j))
  }
}
