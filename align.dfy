/** Unsigned 32-bit arithmetic and the LIBXSMM_ALIGNDOWN macro.
 *
 *  The kernels' row width `M` is a C `unsigned int`. The macro
 *  `LIBXSMM_ALIGNDOWN(N, A)` is `N & ~(A - 1)`; here the bitwise AND and the
 *  32-bit complement are written out on naturals, least significant bit first,
 *  and the lemma `AlignDownIsFloor` proves that for a power of two `A` the
 *  result is the largest multiple of `A` that is at most `N`.
 */
module Align {

  /** The values of a C `unsigned int`. */
  const U32Limit: nat := 0x1_0000_0000
  type U32 = x: int | 0 <= x < U32Limit

  function Pow2(k: nat): (r: nat)
    ensures r >= 1
  {
    if k == 0 then 1 else 2 * Pow2(k - 1)
  }

  /** Bitwise AND of two naturals, one bit at a time from the least significant. */
  function BitAnd(x: nat, y: nat): nat
  {
    if x == 0 || y == 0 then 0
    else 2 * BitAnd(x / 2, y / 2) + (if x % 2 == 1 && y % 2 == 1 then 1 else 0)
  }

  /** `~y` on a 32-bit unsigned value. */
  function Complement32(y: U32): (r: U32)
    ensures r + y == U32Limit - 1
  {
    U32Limit - 1 - y
  }

  /** Bit `i` of a natural, counting from the least significant bit. */
  function BitAt(x: nat, i: nat): bool
  {
    if i == 0 then x % 2 == 1 else BitAt(x / 2, i - 1)
  }

  /** A natural below `2^w` has no bit set from `w` up. */
  lemma {:induction false} BitsAbove(x: nat, w: nat, i: nat)
    requires x < Pow2(w) && w <= i
    ensures !BitAt(x, i)
  {
    if w > 0 {
      BitsAbove(x / 2, w - 1, i - 1);
    } else if i > 0 {
      BitsAbove(x / 2, 0, i - 1);
    }
  }

  /** `BitAnd` is C's `&`: bit `i` of the result is set iff it is set in both operands. */
  lemma {:induction false} BitAndBits(x: nat, y: nat, i: nat)
    ensures BitAt(BitAnd(x, y), i) == (BitAt(x, i) && BitAt(y, i))
  {
    if x == 0 || y == 0 {
      BitsAbove(0, 0, i);
    } else if i > 0 {
      BitAndBits(x / 2, y / 2, i - 1);
    }
  }

  /** `Complement32` is C's `~` on an `unsigned int`: each of the 32 bits of
   *  `y` is flipped, and no bit is set above them. */
  lemma Complement32Bits(y: U32, i: nat)
    ensures BitAt(Complement32(y), i) == (i < 32 && !BitAt(y, i))
  {
    Pow2Values();
    if i < 32 {
      ComplementBits(y, 32, i);
    } else {
      BitsAbove(Complement32(y), 32, i);
    }
  }

  /** Subtracting from `2^w - 1` flips the low `w` bits of `y < 2^w`. */
  lemma {:induction false} ComplementBits(y: nat, w: nat, i: nat)
    requires y < Pow2(w) && i < w
    ensures BitAt(Pow2(w) - 1 - y, i) == !BitAt(y, i)
  {
    assert Pow2(w) == 2 * Pow2(w - 1);
    if i > 0 {
      ComplementBits(y / 2, w - 1, i - 1);
      assert (Pow2(w) - 1 - y) / 2 == Pow2(w - 1) - 1 - y / 2;
    }
  }

  /** `LIBXSMM_ALIGNDOWN(n, a)`: `n & ~(a - 1)` on 32-bit unsigned values. */
  function AlignDown(n: U32, a: U32): nat
    requires a >= 1
  {
    BitAnd(n, Complement32(a - 1))
  }

  lemma {:induction false} Pow2Monotonic(k: nat, w: nat)
    requires k <= w
    ensures Pow2(k) <= Pow2(w)
  {
    if k < w {
      Pow2Monotonic(k, w - 1);
    }
  }

  lemma Pow2Values()
    ensures Pow2(3) == 8 && Pow2(4) == 16 && Pow2(32) == U32Limit
  {
    assert Pow2(8) == 256;
    Pow2Sum(8, 8);
    Pow2Sum(16, 16);
  }

  lemma {:induction false} Pow2Sum(a: nat, b: nat)
    ensures Pow2(a + b) == Pow2(a) * Pow2(b)
  {
    if a > 0 {
      Pow2Sum(a - 1, b);
    }
  }

  /** ANDing with `w` one-bits keeps every value below `2^w` unchanged. */
  lemma {:induction false} AndAllOnes(x: nat, w: nat)
    requires x < Pow2(w)
    ensures BitAnd(x, Pow2(w) - 1) == x
  {
    if x != 0 {
      assert w > 0;
      AndAllOnes(x / 2, w - 1);
    }
  }

  lemma MulNonnegative(x: int, y: int)
    requires x >= 0 && y >= 0
    ensures x * y >= 0
  {}

  /** Euclidean division has a unique remainder. */
  lemma ModUnique(x: int, m: int, a: int, b: int)
    requires m > 0 && 0 <= b < m && x == m * a + b
    ensures x % m == b
  {
    var d := x / m - a;
    assert m * d == b - x % m;
    if d > 0 {
      MulNonnegative(m, d - 1);
      assert false;
    } else if d < 0 {
      MulNonnegative(m, -d - 1);
      assert false;
    }
  }

  lemma ModDouble(x: nat, p: nat)
    requires p >= 1
    ensures x % (2 * p) == 2 * ((x / 2) % p) + x % 2
  {
    var q, r := x / 2, x % 2;
    var a, b := q / p, q % p;
    assert q == p * a + b;
    assert x == (2 * p) * a + (2 * b + r);
    ModUnique(x, 2 * p, a, 2 * b + r);
  }

  lemma RoundedDownIsMultiple(n: nat, a: nat)
    requires a > 0
    ensures (n - n % a) % a == 0
  {
    ModUnique(n - n % a, a, n / a, 0);
  }

  /** Clearing the low `k` of `w` bits rounds down to a multiple of `2^k`. */
  lemma AndHighBits(x: nat, w: nat, k: nat)
    requires k <= w && x < Pow2(w)
    ensures Pow2(k) <= Pow2(w)
    ensures BitAnd(x, Pow2(w) - Pow2(k)) == x - x % Pow2(k)
  {
    Pow2Monotonic(k, w);
    AndHighBitsAt(x, w, k, Pow2(w) - Pow2(k), Pow2(k));
  }

  /** `AndHighBits` with the mask `z = 2^w - 2^k` and the modulus `a = 2^k` named. */
  lemma {:induction false} AndHighBitsAt(x: nat, w: nat, k: nat, z: nat, a: nat)
    requires k <= w && x < Pow2(w) && a == Pow2(k) <= Pow2(w) && z == Pow2(w) - a
    ensures BitAnd(x, z) == x - x % a
  {
    if k == 0 {
      AndAllOnes(x, w);
      ModOne(x, a);
    } else if x == 0 {
      ZeroMod(a);
    } else {
      Pow2Monotonic(k - 1, w - 1);
      AndHighBitsAt(x / 2, w - 1, k - 1, Pow2(w - 1) - Pow2(k - 1), Pow2(k - 1));
      AndHighBitsStep(x, Pow2(w - 1), Pow2(k - 1), z, a);
    }
  }

  lemma ModOne(x: nat, a: nat)
    requires a == 1
    ensures x % a == 0
  {}

  lemma ZeroMod(a: nat)
    requires a >= 1
    ensures 0 % a == 0
  {}

  /** One step of `AndHighBits`: from `q = 2^(w-1)` and `p = 2^(k-1)` to
   *  `z = 2^w - 2^k` and `p2 = 2^k`. */
  lemma AndHighBitsStep(x: nat, q: nat, p: nat, z: nat, p2: nat)
    requires 1 <= p <= q && z == 2 * q - 2 * p && p2 == 2 * p
    requires BitAnd(x / 2, q - p) == x / 2 - (x / 2) % p
    ensures BitAnd(x, z) == x - x % p2
  {
    AndEven(x, z, q - p);
    FloorDouble(x, p);
    assert 2 * (x / 2 - (x / 2) % p) == x - x % p2;
  }

  /** Rounding `x` down to a multiple of `2 p` is twice rounding `x / 2` down to a multiple of `p`. */
  lemma FloorDouble(x: nat, p: nat)
    requires p >= 1
    ensures 2 * (x / 2 - (x / 2) % p) == x - x % (2 * p)
  {
    ModDouble(x, p);
    assert x == 2 * (x / 2) + x % 2;
  }

  /** An even mask `z = 2 y` clears the low bit and ANDs the rest one position up. */
  lemma AndEven(x: nat, z: nat, y: nat)
    requires z == 2 * y
    ensures BitAnd(x, z) == 2 * BitAnd(x / 2, y)
  {
    if x != 0 && y != 0 {
      assert z / 2 == y && z % 2 == 0;
    }
  }

  /** For `a == 2^k`, `LIBXSMM_ALIGNDOWN(n, a)` clears the low `k` bits of `n`. */
  lemma AlignDownValue(n: U32, k: nat)
    requires k < 32
    ensures Pow2(k) < U32Limit
    ensures AlignDown(n, Pow2(k)) == n - n % Pow2(k)
  {
    Pow2Values();
    Pow2Monotonic(k, 31);
    var a := Pow2(k);
    assert Complement32(a - 1) == Pow2(32) - a;
    AndHighBits(n, 32, k);
  }

  /** For `a == 2^k`, `LIBXSMM_ALIGNDOWN(n, a)` is a multiple of `a`, at most
   *  `n`, and less than `a` below it: the largest multiple of `a` not above `n`. */
  lemma AlignDownIsFloor(n: U32, k: nat)
    requires k < 32
    ensures Pow2(k) < U32Limit
    ensures AlignDown(n, Pow2(k)) % Pow2(k) == 0
    ensures AlignDown(n, Pow2(k)) <= n < AlignDown(n, Pow2(k)) + Pow2(k)
  {
    AlignDownValue(n, k);
    var a := Pow2(k);
    RoundedDownIsMultiple(n, a);
  }
}
