/**
 * 128-bit values (`u128`) as a low and a high 64-bit word.
 */
module Wide {
  /** The low and the high word of a 128-bit value (`x as u64`, `(x >> 64) as u64`). */
  function Low64(w: bv128): bv64
  {
    (w & 0xFFFF_FFFF_FFFF_FFFF) as bv64
  }

  function High64(w: bv128): bv64
  {
    (w >> 64) as bv64
  }

  /* ---- The two halves ---- */

  lemma LowXor(x: bv128, y: bv128)
    ensures Low64(x ^ y) == Low64(x) ^ Low64(y)
  {
  }

  lemma HighXor(x: bv128, y: bv128)
    ensures High64(x ^ y) == High64(x) ^ High64(y)
  {
  }

  lemma LowShl1(w: bv128)
    ensures Low64(w << 1) == Low64(w) << 1
  {
  }

  lemma HighShl1(w: bv128)
    ensures High64(w << 1) == (High64(w) << 1) ^ (Low64(w) >> 63)
  {
  }

  lemma XorZeroRight(x: bv64)
    ensures x ^ 0 == x
  {
  }

  lemma HalvesWiden(b: bv64)
    ensures Low64(b as bv128) == b && High64(b as bv128) == 0
  {
  }

  lemma HalvesZero()
    ensures Low64(0) == 0 && High64(0) == 0
  {
  }

  lemma HalvesSet(hi: bv64, lo: bv64, w: bv128)
    requires w == (hi as bv128 << 64) | lo as bv128
    ensures Low64(w) == lo && High64(w) == hi
  {
  }

  lemma HalvesJoin(w: bv128)
    ensures w == (High64(w) as bv128 << 64) | Low64(w) as bv128
  {
  }

  lemma TopClear(w: bv128)
    requires High64(w) >> 63 == 0
    ensures w < 1 << 127
  {
  }

}

/**
 * The 64 x 64 -> 128 bit carry-less multiplication that PCLMULQDQ (x86) and
 * PMULL / `vmull_p64` (AArch64) perform, on a `bv128` result.
 *
 * Bit k of the result is the coefficient of X^k of the polynomial product; the
 * low 64 bits are the first word and the high 64 bits the second.
 * `Clmul64` is defined by the shift-and-xor recurrence and its contract is the
 * polynomial product, which is all the rest of the model relies on from the hardware.
 */
module Clmul {
  import opened Poly
  import opened Words
  import opened Wide

  /** The polynomial of a 128-bit value, on 128 coefficients. */
  function WideBits(w: bv128): (r: Poly)
    ensures |r| == 128
  {
    WordBits(Low64(w)) + WordBits(High64(w))
  }

  /* ---- Exclusive or and shifting of 128-bit values ---- */

  /** Exclusive or of 128-bit values is polynomial addition. */
  lemma WideBitsXor(x: bv128, y: bv128, z: bv128)
    requires z == x ^ y
    ensures WideBits(z) == Add(WideBits(x), WideBits(y))
  {
    LowXor(x, y);
    HighXor(x, y);
    WordBitsXor(Low64(x), Low64(y));
    WordBitsXor(High64(x), High64(y));
    AddConcat(WordBits(Low64(x)), WordBits(High64(x)), WordBits(Low64(y)), WordBits(High64(y)));
  }

  /** Shifting a 128-bit value left by one multiplies by X and drops the coefficient of X^127. */
  lemma ConcatShl1(lo: Poly, hi: Poly, lo': Poly, hi': Poly)
    requires |lo| == 64 && |hi| == 64
    requires lo' == [false] + lo[..63] && hi' == [lo[63]] + hi[..63]
    ensures lo' + hi' == [false] + (lo + hi)[..127]
  {
    assert (lo + hi)[..127] == lo + hi[..63];
  }

  lemma WideBitsShl1(w: bv128, v: bv128)
    requires v == w << 1
    ensures WideBits(v) == [false] + WideBits(w)[..127]
  {
    var lo, hi := Low64(w), High64(w);
    var c := lo >> 63;
    LowShl1(w);
    HighShl1(w);
    XorZeroRight(lo << 1);
    WordBitsShl1(lo, 0);
    WordBitsShr63(lo);
    WordBitsShl1(hi, c);
    ConcatShl1(WordBits(lo), WordBits(hi), WordBits(Low64(v)), WordBits(High64(v)));
  }

  lemma WideBitsWiden(b: bv64)
    ensures WideBits(b as bv128) == WordBits(b) + Zero(64)
  {
    HalvesWiden(b);
    WordBitsZero();
  }

  lemma WideBitsZero()
    ensures WideBits(0) == Zero(128)
  {
    HalvesZero();
    WordBitsZero();
  }

  /** A 128-bit value is determined by its bits. */
  lemma WideBitsInjective(x: bv128, y: bv128)
    requires WideBits(x) == WideBits(y)
    ensures x == y
  {
    assert WideBits(x)[..64] == WordBits(Low64(x));
    assert WideBits(y)[..64] == WordBits(Low64(y));
    assert WideBits(x)[64..] == WordBits(High64(x));
    assert WideBits(y)[64..] == WordBits(High64(y));
    WordBitsInjective(Low64(x), Low64(y));
    WordBitsInjective(High64(x), High64(y));
    HalvesJoin(x);
    HalvesJoin(y);
  }

  /* ---- The shift-and-xor recurrence ---- */

  /** `(b as u128) << i`, one shift at a time. */
  function ShiftedCopy(b: bv64, i: nat): bv128
  {
    if i == 0 then b as bv128 else Shl1(ShiftedCopy(b, i - 1))
  }

  /**
   * Shift by one and exclusive or, as functions: recursive definitions apply them
   * to their recursive calls, and the solver handles that far better than a bare operator.
   */
  function Shl1(w: bv128): bv128
  {
    w << 1
  }

  lemma ShiftStep(u: Poly, j: nat, w: Poly, v: Poly)
    requires |w| == 128 && j < 64 && |u| == 64
    requires Eqv(w, Shift(u, j)) && v == [false] + w[..127]
    ensures Eqv(v, Shift(u, j + 1))
  {
    forall t
      ensures Coef(v, t) == Coef(Shift(u, j + 1), t)
    {
      if 0 < t < 128 {
        assert Coef(w, t - 1) == Coef(Shift(u, j), t - 1);
      }
    }
  }

  lemma ShiftedCopySucc(b: bv64, j: nat)
    ensures WideBits(ShiftedCopy(b, j + 1)) == [false] + WideBits(ShiftedCopy(b, j))[..127]
  {
    var w := ShiftedCopy(b, j);
    WideBitsShl1(w, Shl1(w));
  }

  /** For i <= 64 no bit of b is lost: the shifted copy is X^i b. */
  lemma {:induction false} ShiftedCopyBits(b: bv64, i: nat)
    requires i <= 64
    ensures Eqv(WideBits(ShiftedCopy(b, i)), Shift(WordBits(b), i))
  {
    if i > 0 {
      var j := i - 1;
      ShiftedCopyBits(b, j);
      ShiftedCopySucc(b, j);
      ShiftStep(WordBits(b), j, WideBits(ShiftedCopy(b, j)), WideBits(ShiftedCopy(b, i)));
    } else {
      WideBitsWiden(b);
    }
  }

  /** The xor of the copies `(b as u128) << j` over the set coefficients a_j, j < i. */
  function PartialProduct(a: bv64, b: bv64, i: nat): bv128
    requires i <= 64
  {
    if i == 0 then 0
    else
      var j := i - 1;
      Xor128(PartialProduct(a, b, j), Term(a, b, j))
  }

  function Xor128(x: bv128, y: bv128): bv128
  {
    x ^ y
  }

  lemma Xor128Bits(x: bv128, y: bv128)
    ensures WideBits(Xor128(x, y)) == Add(WideBits(x), WideBits(y))
  {
    WideBitsXor(x, y, x ^ y);
  }

  /** The copy of b contributed by coefficient j of a. */
  function Term(a: bv64, b: bv64, j: nat): bv128
    requires j < 64
  {
    if WordBits(a)[j] then ShiftedCopy(b, j) else 0
  }

  lemma ProductStep(u: Poly, v: Poly, j: nat, p: Poly, q: Poly, r: Poly)
    requires j < |u|
    requires Eqv(p, ClMul(u[..j], v)) && Eqv(q, Scale(u[j], Shift(v, j))) && r == Add(p, q)
    ensures Eqv(r, ClMul(u[..j + 1], v))
  {
    ClMulPrefix(u, v, j);
  }

  lemma TermBits(a: bv64, b: bv64, j: nat)
    requires j < 64
    ensures Eqv(WideBits(Term(a, b, j)), Scale(WordBits(a)[j], Shift(WordBits(b), j)))
  {
    ShiftedCopyBits(b, j);
    WideBitsZero();
  }

  /** The partial product over bits 0 .. i - 1 of a is their carry-less product with b. */
  lemma {:induction false} PartialProductBits(a: bv64, b: bv64, i: nat)
    requires i <= 64
    ensures Eqv(WideBits(PartialProduct(a, b, i)), ClMul(WordBits(a)[..i], WordBits(b)))
  {
    if i > 0 {
      var j := i - 1;
      var p := PartialProduct(a, b, j);
      var q := Term(a, b, j);
      var r := Xor128(p, q);
      assert PartialProduct(a, b, i) == r;
      PartialProductBits(a, b, j);
      TermBits(a, b, j);
      Xor128Bits(p, q);
      ProductStep(WordBits(a), WordBits(b), j, WideBits(p), WideBits(q), WideBits(r));
    } else {
      WideBitsZero();
      assert WordBits(a)[..0] == [];
    }
  }

  /** The carry-less product of two words: the intrinsic `_mm_clmulepi64_si128` / `vmull_p64`. */
  function Clmul64(a: bv64, b: bv64): (r: bv128)
    ensures WideBits(r) == ClMul(WordBits(a), WordBits(b))
  {
    var r := PartialProduct(a, b, 64);
    PartialProductBits(a, b, 64);
    assert WordBits(a)[..64] == WordBits(a);
    Ext(WideBits(r), ClMul(WordBits(a), WordBits(b)));
    r
  }

  /** The product has degree at most 126, so bit 127 is never set. */
  lemma Clmul64Top(a: bv64, b: bv64)
    ensures Clmul64(a, b) < 1 << 127
  {
    var r := Clmul64(a, b);
    ClMulDegree(WordBits(a), WordBits(b), 127);
    assert WordBits(High64(r))[63] == WideBits(r)[127];
    WordBitsShr63(High64(r));
    TopClear(r);
  }

  /** The product does not depend on the order of the operands. */
  lemma Clmul64Comm(a: bv64, b: bv64)
    ensures Clmul64(a, b) == Clmul64(b, a)
  {
    ClMulComm(WordBits(a), WordBits(b));
    Ext(ClMul(WordBits(a), WordBits(b)), ClMul(WordBits(b), WordBits(a)));
    WideBitsInjective(Clmul64(a, b), Clmul64(b, a));
  }
}
