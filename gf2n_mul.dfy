/**
 * Multiplication and inversion of `GF2n` elements: `mul_clmul_u64` (the schoolbook
 * product of the words with one carry-less multiplication per pair of words, then
 * `propagate_carries`), the `Mul` operator that picks it or `mul_as_add` by the
 * compilation target, `MulAssign` and `invert`.
 */
module GF2nMul {
  import opened Poly
  import P = Poly
  import opened Words
  import opened Wide
  import opened Clmul
  import Pmul
  import opened Fields
  import opened GF2n
  import BinaryField

  /* ---- The compilation target ---- */

  /**
   * What `#[cfg]` sees: whether the `clmul` feature is on, the target architecture and
   * the target features enabled at compile time.
   */
  datatype Target = Target(clmul: bool, arch: Pmul.Arch, enabled: Pmul.CpuFeatures)

  /** The x86_64 branch of `mul` is compiled: PCLMULQDQ. */
  predicate ClmulX86(t: Target)
  {
    t.clmul && t.arch == Pmul.X86_64 && t.enabled.sse2 && t.enabled.pclmulqdq
  }

  /** The AArch64 branch of `mul` is compiled: PMULL. */
  predicate ClmulAarch64(t: Target)
  {
    t.clmul && t.arch == Pmul.Aarch64 && t.enabled.neon && t.enabled.aes
  }

  /* ---- The schoolbook product ---- */

  /**
   * The product of two words: on x86, `_mm_clmulepi64_si128` with selector 0 on the
   * registers `_mm_set_epi64x(0, x)` and `_mm_set_epi64x(0, y)`; on AArch64, `vmull_p64`.
   */
  function WordProduct(x86: bool, xi: bv64, yj: bv64): (r: bv128)
    ensures WideBits(r) == ClMul(WordBits(xi), WordBits(yj))
  {
    if x86 then Pmul.ClmulEpi64(Pmul.SetEpi64x(0, xi), Pmul.SetEpi64x(0, yj), 0) else Clmul64(xi, yj)
  }

  /**
   * Word k of the double-length product is `words[k]` below NWORDS and `carry[k - NWORDS]`
   * from there on: xoring v into it adds v X^s, with s = 64 k.
   */
  method XorWide(words: array<bv64>, carry: array<bv64>, k: nat, v: bv64, ghost s: nat)
    requires words != carry && words.Length == carry.Length && k < 2 * words.Length && s == 64 * k
    modifies words, carry
    ensures Bits(words[..] + carry[..]) == P.Add(old(Bits(words[..] + carry[..])), Shift(WordBits(v), s))
  {
    ghost var ws := words[..] + carry[..];
    if k < words.Length {
      words[k] := Xor64(words[k], v);
    } else {
      carry[k - words.Length] := Xor64(carry[k - words.Length], v);
    }
    assert words[..] + carry[..] == ws[k := Xor64(ws[k], v)];
    BitsXorInto(ws, words[..] + carry[..], k, v, s);
  }

  /** The two halves of a 128-bit value at X^s and X^(s + 64) are the value at X^s. */
  lemma HalvesPlaced(a: Poly, lo: Poly, hi: Poly, s: nat)
    requires |lo| == 64
    ensures Eqv(P.Add(P.Add(a, Shift(lo, s)), Shift(hi, s + 64)), P.Add(a, Shift(lo + hi, s)))
  {
    ShiftConcat(lo, hi, s);
    AddAssoc(a, Shift(lo, s), Shift(hi, s + 64));
    AddCongr(a, a, P.Add(Shift(lo, s), Shift(hi, s + 64)), Shift(lo + hi, s));
  }

  /**
   * The body of the inner loop of `mul_clmul_u64`: the product of x_i and y_j is xored
   * into word i + j (low half) and word i + j + 1 (high half) of the double-length result.
   */
  method AccumulateProduct(x86: bool, words: array<bv64>, carry: array<bv64>, i: nat, j: nat, xi: bv64, yj: bv64)
    requires words != carry && words.Length == carry.Length && i < words.Length && j < words.Length
    modifies words, carry
    ensures Eqv(Bits(words[..] + carry[..]),
                P.Add(old(Bits(words[..] + carry[..])), Shift(ClMul(WordBits(xi), WordBits(yj)), 64 * (i + j))))
  {
    ghost var a := Bits(words[..] + carry[..]);
    var clmul := WordProduct(x86, xi, yj);
    var low, high := Low64(clmul), High64(clmul);
    var ij := i + j;
    XorWide(words, carry, ij, low, 64 * ij);
    var ij1 := ij + 1;
    XorWide(words, carry, ij1, high, 64 * ij1);
    HalvesPlaced(a, WordBits(low), WordBits(high), 64 * ij);
  }

  /** The rows 0 .. i - 1 of the product: the words of x below i times y. */
  ghost predicate RowsDone(x: seq<bv64>, y: seq<bv64>, acc: Poly, i: nat)
    requires i <= |x|
  {
    Eqv(acc, ClMul(Bits(x[..i]), Bits(y)))
  }

  /** Rows 0 .. i - 1, and in row i the products of x_i with the words of y below j. */
  ghost predicate RowPartial(x: seq<bv64>, y: seq<bv64>, acc: Poly, i: nat, j: nat)
    requires i < |x| && j <= |y|
  {
    Eqv(acc, P.Add(ClMul(Bits(x[..i]), Bits(y)), Shift(ClMul(WordBits(x[i]), Bits(y[..j])), 64 * i)))
  }

  /** The words below j + 1 are those below j followed by word j. */
  lemma BitsPrefix(ws: seq<bv64>, j: nat)
    requires j < |ws|
    ensures Bits(ws[..j + 1]) == Bits(ws[..j]) + WordBits(ws[j])
  {
    assert ws[..j + 1] == ws[..j] + [ws[j]];
    BitsAppend(ws[..j], [ws[j]]);
    BitsSingle(ws[j]);
  }

  /** A row starts with nothing of it added. */
  lemma RowStart(x: seq<bv64>, y: seq<bv64>, acc: Poly, i: nat)
    requires i < |x| && RowsDone(x, y, acc, i)
    ensures RowPartial(x, y, acc, i, 0)
  {
    assert y[..0] == [];
    ClMulZeroRight(WordBits(x[i]), Bits(y[..0]));
  }

  /** One more product of a row, on polynomials. */
  lemma RowStepPoly(done: Poly, u: Poly, pre: Poly, v: Poly, acc: Poly, acc': Poly, s: nat, t: nat)
    requires |pre| == t
    requires Eqv(acc, P.Add(done, Shift(ClMul(u, pre), s)))
    requires Eqv(acc', P.Add(acc, Shift(ClMul(u, v), s + t)))
    ensures Eqv(acc', P.Add(done, Shift(ClMul(u, pre + v), s)))
  {
    ClMulConcatRight(u, pre, v);
    ShiftCongr(ClMul(u, pre + v), P.Add(ClMul(u, pre), Shift(ClMul(u, v), t)), s);
    ShiftAdd(ClMul(u, pre), Shift(ClMul(u, v), t), s);
    ShiftShift(ClMul(u, v), t, s);
  }

  lemma RowStep(x: seq<bv64>, y: seq<bv64>, acc: Poly, acc': Poly, i: nat, j: nat)
    requires i < |x| && j < |y| && RowPartial(x, y, acc, i, j)
    requires Eqv(acc', P.Add(acc, Shift(ClMul(WordBits(x[i]), WordBits(y[j])), 64 * (i + j))))
    ensures RowPartial(x, y, acc', i, j + 1)
  {
    BitsPrefix(y, j);
    RowStepPoly(ClMul(Bits(x[..i]), Bits(y)), WordBits(x[i]), Bits(y[..j]), WordBits(y[j]), acc, acc', 64 * i, 64 * j);
  }

  /** A finished row i completes rows 0 .. i. */
  lemma RowEnd(x: seq<bv64>, y: seq<bv64>, acc: Poly, i: nat)
    requires i < |x| && RowPartial(x, y, acc, i, |y|)
    ensures RowsDone(x, y, acc, i + 1)
  {
    assert y[..|y|] == y;
    BitsPrefix(x, i);
    ClMulConcatLeft(Bits(x[..i]), WordBits(x[i]), Bits(y));
  }

  /** Before the first row: the zero words hold the empty product. */
  lemma RowsStart(x: seq<bv64>, y: seq<bv64>, z: seq<bv64>)
    requires z == Zeros(2 * |x|)
    ensures RowsDone(x, y, Bits(z), 0)
  {
    assert x[..0] == [];
  }

  /** The inner loop of `mul_clmul_u64`: row i, word x_i times every word of y. */
  method ProductRow(x86: bool, words: array<bv64>, carry: array<bv64>, x: seq<bv64>, y: seq<bv64>, i: nat)
    requires words != carry && words.Length == carry.Length == |x| == |y| && i < |x|
    requires RowsDone(x, y, Bits(words[..] + carry[..]), i)
    modifies words, carry
    ensures RowsDone(x, y, Bits(words[..] + carry[..]), i + 1)
  {
    var xi := x[i];
    RowStart(x, y, Bits(words[..] + carry[..]), i);
    for j := 0 to |y|
      invariant RowPartial(x, y, Bits(words[..] + carry[..]), i, j)
    {
      ghost var acc := Bits(words[..] + carry[..]);
      var yj := y[j];
      AccumulateProduct(x86, words, carry, i, j, xi, yj);
      RowStep(x, y, acc, Bits(words[..] + carry[..]), i, j);
    }
    RowEnd(x, y, Bits(words[..] + carry[..]), i);
  }

  /** Reducing the double-length product of x and y gives the field product. */
  lemma ProductReduced(f: Field, x: Element, y: Element, words: seq<bv64>, carry: seq<bv64>, r: Element)
    requires Wf(f, x) && Wf(f, y) && RowsDone(x.words, y.words, Bits(words + carry), NWords(f))
    requires Value(r) == BinaryField.Reduce(Modulus(f), Bits(words) + Bits(carry))
    ensures Value(r) == BinaryField.Mul(Modulus(f), Value(x), Value(y))
  {
    assert x.words[..NWords(f)] == x.words;
    BitsAppend(words, carry);
    BinaryField.ReduceEqv(Modulus(f), Bits(words + carry), ClMul(Value(x), Value(y)));
  }

  /**
   * `mul_clmul_u64`: the double-length product is accumulated in `words` (its low n
   * bits) and `carry` (its high n bits), then reduced by `propagate_carries`. The x86
   * and AArch64 versions differ only in the intrinsic that multiplies two words.
   */
  method MulClmulU64(f: Field, x86: bool, x: Element, y: Element) returns (r: Element)
    requires Wf(f, x) && Wf(f, y)
    ensures Wf(f, r) && Value(r) == BinaryField.Mul(Modulus(f), Value(x), Value(y))
  {
    var words := new bv64[NWords(f)](_ => 0);
    var carry := new bv64[NWords(f)](_ => 0);
    assert words[..] + carry[..] == Zeros(2 * NWords(f));
    RowsStart(x.words, y.words, words[..] + carry[..]);
    for i := 0 to NWords(f)
      invariant RowsDone(x.words, y.words, Bits(words[..] + carry[..]), i)
    {
      ProductRow(x86, words, carry, x.words, y.words, i);
    }
    r := PropagateCarries(f, words[..], carry[..]);
    ProductReduced(f, x, y, words[..], carry[..], r);
  }

  /* ---- The operators ---- */

  /**
   * `mul`: the carry-less version on x86_64 with SSE2 and PCLMULQDQ and on AArch64 with
   * NEON and AES when the `clmul` feature is on (the only word type has 64 bits), and
   * `mul_as_add` otherwise. Every choice computes the field product.
   */
  method Mul(t: Target, f: Field, x: Element, y: Element) returns (r: Element)
    requires Wf(f, x) && Wf(f, y)
    ensures Wf(f, r) && Value(r) == BinaryField.Mul(Modulus(f), Value(x), Value(y))
  {
    if ClmulX86(t) {
      r := MulClmulU64(f, true, x, y);
    } else if ClmulAarch64(t) {
      r := MulClmulU64(f, false, x, y);
    } else {
      r := MulAsAdd(f, x, y);
    }
  }

  /** `mul_assign`: replaces the words of self by those of the product self * other. */
  method MulAssign(t: Target, f: Field, words: array<bv64>, other: Element)
    requires words.Length == NWords(f) && Wf(f, other)
    modifies words
    ensures Bits(words[..]) == BinaryField.Mul(Modulus(f), Bits(old(words[..])), Value(other))
  {
    var product := Mul(t, f, Element(words[..]), other);
    StoreWords(words, product.words);
  }

  /** Writes the words ws into the array, one by one. */
  method StoreWords(words: array<bv64>, ws: seq<bv64>)
    requires words.Length == |ws|
    modifies words
    ensures words[..] == ws
  {
    for i := 0 to words.Length
      invariant forall k | 0 <= k < i :: words[k] == ws[k]
    {
      words[i] := ws[i];
    }
  }

  /* ---- Inversion ---- */

  lemma Pow2Succ(k: nat)
    ensures BinaryField.Pow2(k + 1) == 2 * BinaryField.Pow2(k)
  {
  }

  /**
   * The exponents of one round of `invert`: self goes from x^(2^(k-1)) to
   * x^(2^k), and result, which stays at self's exponent doubled minus two,
   * gains self's new exponent.
   */
  lemma ExponentsStep(k: nat, e: nat, a: nat, e2: nat, a2: nat)
    requires k >= 1 && e == BinaryField.Pow2(k - 1) && a + 2 == e + e
    requires e2 == e + e && a2 == a + e2
    ensures e2 == BinaryField.Pow2(k) && a2 + 2 == e2 + e2
  {
    Pow2Succ(k - 1);
  }

  /**
   * One round of `invert`: self is squared and result is multiplied by the new
   * self, x^e and x^a becoming x^(2 e) and x^(a + 2 e).
   */
  method InvertRound(t: Target, f: Field, ghost X: Poly, s: Element, result: array<bv64>,
                     ghost e: nat, ghost a: nat, ghost e2: nat, ghost a2: nat) returns (s': Element)
    requires Wf(f, s) && |X| == Modulus(f).n && result.Length == NWords(f)
    requires e2 == e + e && a2 == a + e2
    requires Value(s) == BinaryField.Pow(Modulus(f), X, e)
    requires Bits(result[..]) == BinaryField.Pow(Modulus(f), X, a)
    modifies result
    ensures Wf(f, s') && Value(s') == BinaryField.Pow(Modulus(f), X, e2)
    ensures Bits(result[..]) == BinaryField.Pow(Modulus(f), X, a2)
  {
    BinaryField.PowAdd(Modulus(f), X, e, e, e2);
    s' := Mul(t, f, s, s);
    BinaryField.PowAdd(Modulus(f), X, a, e2, a2);
    MulAssign(t, f, result, s');
  }

  /** A fresh array holding the words of x. */
  method NewWords(x: Element) returns (a: array<bv64>)
    ensures fresh(a) && a[..] == x.words
  {
    a := new bv64[|x.words|](i requires 0 <= i < |x.words| => x.words[i]);
  }

  /** The inverse of a nonzero x in the field f, as the power x^(2^n - 2). */
  ghost function Inverse(p: BinaryField.Pentanomial, x: Poly): Poly
    requires BinaryField.Valid(p) && |x| == p.n
  {
    BinaryField.Pow(p, x, InverseExponent(p.n))
  }

  /** 2^n - 2, the exponent that inverts in GF(2^n). */
  function InverseExponent(n: nat): nat
    requires n >= 1
  {
    BinaryField.Pow2(n) - 2
  }

  /**
   * `invert`: n - 1 rounds of squaring self and multiplying the result by it, which
   * computes x^(2^n - 2), the inverse of a nonzero x in GF(2^n).
   */
  method Invert(t: Target, f: Field, x: Element) returns (r: Element)
    requires Wf(f, x)
    ensures Wf(f, r) && Value(r) == Inverse(Modulus(f), Value(x))
  {
    ghost var p := Modulus(f);
    ghost var X := Value(x);
    var s := x;
    var result := NewWords(One(f));
    // the exponents of self and of result
    ghost var e: nat := 1;
    ghost var a: nat := 0;
    BinaryField.PowOne(p, X);
    BinaryField.PowZero(p, X, a);
    for k := 1 to 64 * NWords(f)
      invariant e == BinaryField.Pow2(k - 1) && a + 2 == e + e
      invariant Wf(f, s) && Value(s) == BinaryField.Pow(p, X, e)
      invariant Bits(result[..]) == BinaryField.Pow(p, X, a)
    {
      ghost var e2: nat := e + e;
      ghost var a2: nat := a + e2;
      s := InvertRound(t, f, X, s, result, e, a, e2, a2);
      ExponentsStep(k, e, a, e2, a2);
      e, a := e2, a2;
    }
    Pow2Succ(64 * NWords(f) - 1);
    assert a == InverseExponent(p.n);
    r := Element(result[..]);
  }

  /* ---- What the exponent 2^n - 2 gives ---- */

  /** `invert` maps zero to zero: the exponent 2^n - 2 is at least one. */
  lemma InverseOfZero(p: BinaryField.Pentanomial)
    requires BinaryField.Valid(p)
    ensures Inverse(p, Zero(p.n)) == Zero(p.n)
  {
    var e := InverseExponent(p.n);
    ExponentPositive(p.n);
    PowOfZero(p, e);
  }

  /** 2^n - 2 is at least one from n = 2 on. */
  lemma ExponentPositive(n: nat)
    requires n >= 2
    ensures InverseExponent(n) >= 1
  {
    Pow2Succ(n - 1);
  }

  /** Every positive power of zero is zero. */
  lemma PowOfZero(p: BinaryField.Pentanomial, e: nat)
    requires BinaryField.Valid(p) && e >= 1
    ensures BinaryField.Pow(p, Zero(p.n), e) == Zero(p.n)
  {
    var rest := BinaryField.Pow(p, Zero(p.n), e - 1);
    ClMulZeroLeft(Zero(p.n), rest);
    BinaryField.ReduceZero(p, ClMul(Zero(p.n), rest));
  }

  /** Every power of one is one. */
  lemma {:induction false} PowOfOne(p: BinaryField.Pentanomial, e: nat)
    requires BinaryField.Valid(p)
    ensures BinaryField.Pow(p, BinaryField.One(p), e) == BinaryField.One(p)
  {
    if e > 0 {
      var k := e - 1;
      PowOfOne(p, k);
      BinaryField.PowStep(p, BinaryField.One(p), k, e);
      BinaryField.MulOneLeft(p, BinaryField.Pow(p, BinaryField.One(p), k));
    }
  }

  /** `invert` maps one to one. */
  lemma InverseOfOne(p: BinaryField.Pentanomial)
    requires BinaryField.Valid(p)
    ensures Inverse(p, BinaryField.One(p)) == BinaryField.One(p)
  {
    PowOfOne(p, InverseExponent(p.n));
  }

  /**
   * x times the result of `invert` is x^(2^n - 1). Field theory makes that power one for
   * every nonzero x when the pentanomial is irreducible (the nonzero elements then form a
   * group of order 2^n - 1); that step is not proved here.
   */
  lemma InverseTimes(p: BinaryField.Pentanomial, x: Poly)
    requires BinaryField.Valid(p) && |x| == p.n
    ensures BinaryField.Mul(p, x, Inverse(p, x)) == BinaryField.Pow(p, x, BinaryField.Pow2(p.n) - 1)
  {
    var e := InverseExponent(p.n);
    ExponentPositive(p.n);
    var i := BinaryField.Pow2(p.n) - 1;
    assert i == e + 1;
    BinaryField.PowStep(p, x, e, i);
    assert Inverse(p, x) == BinaryField.Pow(p, x, e);
  }
}
