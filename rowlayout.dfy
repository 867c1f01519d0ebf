/** Where the rows of a matrix start in a buffer: row `r` of a buffer whose
 *  rows are `ld` elements apart starts at `r * ld`. The specification
 *  functions of the driving loops place rows with `Off`, which builds the
 *  product up one row at a time; `OffIsProduct` relates it to the product
 *  the test program computes.
 */
module RowLayout {

  /** Where row `r` starts in a buffer whose rows are `ld` elements apart. */
  function Off(r: nat, ld: nat): nat
  {
    if r == 0 then 0 else Off(r - 1, ld) + ld
  }

  lemma {:induction false} OffIsProduct(r: nat, ld: nat)
    ensures Off(r, ld) == r * ld
  {
    if r > 0 {
      OffIsProduct(r - 1, ld);
      assert (r - 1) * ld + ld == r * ld;
    }
  }

  /** Row `r < n` ends no later than where row `n` starts. */
  lemma {:induction false} OffMonotonic(r: nat, n: nat, ld: nat)
    requires r < n
    ensures Off(r, ld) + ld <= Off(n, ld)
  {
    if r < n - 1 {
      OffMonotonic(r, n - 1, ld);
    }
  }
}
