/** Lane masks as 16-bit words: the `__mmask16` values that the AVX-512
 *  kernels compute and store into `dropout_mask`, lane `j` in bit `j`.
 */
module MaskBits {

  /** The word `1 << j` that selects lane `j`, written out so that every
   *  shift in the model is by a constant. */
  function LaneBit(j: nat): bv16
    requires j < 16
  {
    if j == 0 then 0x1 else if j == 1 then 0x2 else if j == 2 then 0x4 else if j == 3 then 0x8
    else if j == 4 then 0x10 else if j == 5 then 0x20 else if j == 6 then 0x40 else if j == 7 then 0x80
    else if j == 8 then 0x100 else if j == 9 then 0x200 else if j == 10 then 0x400 else if j == 11 then 0x800
    else if j == 12 then 0x1000 else if j == 13 then 0x2000 else if j == 14 then 0x4000 else 0x8000
  }

  /** Bit `j` of a mask word. */
  function Bit(w: bv16, j: nat): bool
    requires j < 16
  {
    w & LaneBit(j) != 0
  }

  /** Bit `j` of a mask byte (the AVX2 kernels store one byte per chunk). */
  function ByteBit(b: bv8, j: nat): bool
    requires j < 8
  {
    Bit(b as bv16, j)
  }

  /** Packs up to 16 lane decisions into a mask word, lane `j` into bit `j`;
   *  the bits above the last lane are zero. */
  function Pack(d: seq<bool>): bv16
    requires |d| <= 16
  {
    if d == [] then 0 else (if d[0] then 1 else 0) | (Pack(d[1..]) << 1)
  }

  /** The first `n` lane decisions recorded in a mask word. */
  function Unpack(w: bv16, n: nat): seq<bool>
    requires n <= 16
  {
    seq(n, j requires 0 <= j < n => Bit(w, j))
  }

  /** Packs up to 8 lane decisions into a mask byte, lane `j` into bit `j`. */
  function PackByte(d: seq<bool>): (b: bv8)
    requires |d| <= 8
    ensures forall j :: 0 <= j < 8 ==> ByteBit(b, j) == (j < |d| && d[j])
  {
    var w := Pack(d);
    PackBitsAbove(d);
    assert w < 256;
    var b := w as bv8;
    forall j | 0 <= j < 8 ensures ByteBit(b, j) == (j < |d| && d[j]) {
      PackBit(d, j);
      ByteBitOfWord(w, j);
    }
    b
  }

  /** The lane mask `(1 << rem) - 1` that the tail of a row uses: exactly the
   *  low `rem` lanes are enabled. */
  function TailMask(rem: nat): (m: bv16)
    requires 1 <= rem < 16
    ensures forall j :: 0 <= j < 16 ==> Bit(m, j) == (j < rem)
  {
    ((1 as bv16) << rem) - 1
  }

  lemma LaneBitIsOneHot(j: nat)
    requires j < 16
    ensures LaneBit(j) != 0 && LaneBit(j) & (LaneBit(j) - 1) == 0
  {}

  lemma LaneBitStep(j: nat)
    requires 1 <= j < 16
    ensures LaneBit(j) == LaneBit(j - 1) << 1 && LaneBit(j - 1) < 0x8000
  {}

  lemma OneHotAnd(a: bv16, b: bv16, l: bv16)
    requires l != 0 && l & (l - 1) == 0
    ensures (a & b) & l != 0 <==> (a & l != 0 && b & l != 0)
  {}

  lemma AndLaneBit(a: bv16, b: bv16, j: nat)
    requires j < 16
    ensures (a & b) & LaneBit(j) != 0 <==> (a & LaneBit(j) != 0 && b & LaneBit(j) != 0)
  {
    LaneBitIsOneHot(j);
    OneHotAnd(a, b, LaneBit(j));
  }

  lemma BitOfAnd(a: bv16, b: bv16, j: nat)
    requires j < 16
    ensures Bit(a & b, j) == (Bit(a, j) && Bit(b, j))
  {
    AndLaneBit(a, b, j);
  }

  lemma LowBitOfStep(b: bv16, x: bv16)
    requires b <= 1
    ensures Bit(b | (x << 1), 0) == (b == 1)
  {}

  lemma OneHotStep(b: bv16, x: bv16, l: bv16)
    requires b <= 1 && l != 0 && l & (l - 1) == 0 && l < 0x8000
    ensures (b | (x << 1)) & (l << 1) != 0 <==> x & l != 0
  {}

  lemma HighBitOfStep(b: bv16, x: bv16, j: nat)
    requires b <= 1 && 1 <= j < 16
    ensures Bit(b | (x << 1), j) == Bit(x, j - 1)
  {
    LaneBitStep(j);
    LaneBitIsOneHot(j - 1);
    OneHotStep(b, x, LaneBit(j - 1));
  }

  lemma ByteBitOfWord(w: bv16, j: nat)
    requires w < 256 && j < 8
    ensures ByteBit(w as bv8, j) == Bit(w, j)
  {}

  /** Bit `j` of a packed word is lane `j`'s decision, and zero past the last lane. */
  lemma {:induction false} PackBit(d: seq<bool>, j: nat)
    requires |d| <= 16 && j < 16
    ensures Bit(Pack(d), j) == (j < |d| && d[j])
  {
    if d == [] {
      assert Pack(d) == 0;
    } else if j == 0 {
      PackLowBit(d);
    } else {
      PackBit(d[1..], j - 1);
      PackHighBit(d, j);
    }
  }

  lemma PackLowBit(d: seq<bool>)
    requires 1 <= |d| <= 16
    ensures Bit(Pack(d), 0) == d[0]
  {
    var b: bv16 := if d[0] then 1 else 0;
    LowBitOfStep(b, Pack(d[1..]));
  }

  lemma PackHighBit(d: seq<bool>, j: nat)
    requires 1 <= |d| <= 16 && 1 <= j < 16
    ensures Bit(Pack(d), j) == Bit(Pack(d[1..]), j - 1)
  {
    var b: bv16 := if d[0] then 1 else 0;
    HighBitOfStep(b, Pack(d[1..]), j);
  }

  /** A packed word of at most 8 lanes fits in a byte. */
  lemma PackBitsAbove(d: seq<bool>)
    requires |d| <= 8
    ensures Pack(d) < 256
  {
    var w := Pack(d);
    PackBit(d, 8); PackBit(d, 9); PackBit(d, 10); PackBit(d, 11);
    PackBit(d, 12); PackBit(d, 13); PackBit(d, 14); PackBit(d, 15);
    WordOfLowBits(w);
  }

  lemma WordOfLowBits(w: bv16)
    requires !Bit(w, 8) && !Bit(w, 9) && !Bit(w, 10) && !Bit(w, 11)
    requires !Bit(w, 12) && !Bit(w, 13) && !Bit(w, 14) && !Bit(w, 15)
    ensures w < 256
  {}

  /** Two mask words with the same 16 bits are the same word. */
  lemma BitsDetermineWord(a: bv16, b: bv16)
    requires forall j :: 0 <= j < 16 ==> Bit(a, j) == Bit(b, j)
    ensures a == b
  {
    SameBitsSameWord(a, b);
  }

  lemma SameBitsSameWord(a: bv16, b: bv16)
    requires Bit(a, 0) == Bit(b, 0) && Bit(a, 1) == Bit(b, 1)
    requires Bit(a, 2) == Bit(b, 2) && Bit(a, 3) == Bit(b, 3)
    requires Bit(a, 4) == Bit(b, 4) && Bit(a, 5) == Bit(b, 5)
    requires Bit(a, 6) == Bit(b, 6) && Bit(a, 7) == Bit(b, 7)
    requires Bit(a, 8) == Bit(b, 8) && Bit(a, 9) == Bit(b, 9)
    requires Bit(a, 10) == Bit(b, 10) && Bit(a, 11) == Bit(b, 11)
    requires Bit(a, 12) == Bit(b, 12) && Bit(a, 13) == Bit(b, 13)
    requires Bit(a, 14) == Bit(b, 14) && Bit(a, 15) == Bit(b, 15)
    ensures a == b
  {}

  /** Unpacking a packed word gives back the lane decisions. */
  lemma PackThenUnpack(d: seq<bool>)
    requires |d| <= 16
    ensures Unpack(Pack(d), |d|) == d
  {
    forall j | 0 <= j < |d| ensures Unpack(Pack(d), |d|)[j] == d[j] {
      PackBit(d, j);
    }
  }

  /** Packing the 16 unpacked lanes of a word gives back the word. */
  lemma UnpackThenPack(w: bv16)
    ensures Pack(Unpack(w, 16)) == w
  {
    forall j | 0 <= j < 16 ensures Bit(Pack(Unpack(w, 16)), j) == Bit(w, j) {
      PackBit(Unpack(w, 16), j);
    }
    BitsDetermineWord(Pack(Unpack(w, 16)), w);
  }
}
