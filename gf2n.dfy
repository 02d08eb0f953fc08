/**
 * The three instances of the field and the reduction of a word carried past X^n.
 */
module Fields {
  import opened Poly
  import opened Words
  import opened Shifts
  import BinaryField

  /* ---- The three instances ---- */

  /** `GF64`, `GF128` and `GF256`. */
  datatype Field = GF64 | GF128 | GF256

  /** NWORDS. */
  function NWords(f: Field): nat
  {
    match f
    case GF64 => 1
    case GF128 => 2
    case GF256 => 4
  }

  /** The reducing pentanomial X^n + X^A + X^B + X^C + 1. */
  function Modulus(f: Field): (p: BinaryField.Pentanomial)
    ensures BinaryField.Valid(p) && p.n == 64 * NWords(f)
  {
    match f
    case GF64 => BinaryField.Pentanomial(64, 4, 3, 1)
    case GF128 => BinaryField.Pentanomial(128, 7, 2, 1)
    case GF256 => BinaryField.Pentanomial(256, 10, 5, 2)
  }

  /** `c ^ (c << A) ^ (c << B) ^ (c << C)`: the low word of c X^n after folding. */
  function FoldLow(f: Field, c: bv64): bv64
  {
    match f
    case GF64 => Xor64(Xor64(Xor64(c, c << 4), c << 3), c << 1)
    case GF128 => Xor64(Xor64(Xor64(c, c << 7), c << 2), c << 1)
    case GF256 => Xor64(Xor64(Xor64(c, c << 10), c << 5), c << 2)
  }

  /** `(c >> (64 - A)) ^ (c >> (64 - B)) ^ (c >> (64 - C))`: the bits folded past the word. */
  function FoldHigh(f: Field, c: bv64): bv64
  {
    match f
    case GF64 => Xor64(Xor64(c >> 60, c >> 61), c >> 63)
    case GF128 => Xor64(Xor64(c >> 57, c >> 62), c >> 63)
    case GF256 => Xor64(Xor64(c >> 54, c >> 59), c >> 62)
  }

  /** The fold of u, when each shifted copy X^s u is split as ls + X^64 hs. */
  lemma FoldPair(p: BinaryField.Pentanomial, u: Poly, la: Poly, ha: Poly, lb: Poly, hb: Poly,
                 lc: Poly, hc: Poly, lo: Poly, hi: Poly)
    requires BinaryField.Valid(p) && |u| == 64
    requires |la| == |lb| == |lc| == 64
    requires Eqv(Shift(u, p.a), la + ha) && Eqv(Shift(u, p.b), lb + hb) && Eqv(Shift(u, p.c), lc + hc)
    requires lo == Add(Add(Add(u, la), lb), lc) && hi == Add(Add(ha, hb), hc)
    ensures Eqv(BinaryField.Fold(p, u), lo + hi)
  {
    forall t
      ensures Coef(BinaryField.Fold(p, u), t) == Coef(lo + hi, t)
    {
      assert Coef(Shift(u, p.a), t) == Coef(la + ha, t);
      assert Coef(Shift(u, p.b), t) == Coef(lb + hb, t);
      assert Coef(Shift(u, p.c), t) == Coef(lc + hc, t);
      if 0 <= t < 64 {
        assert Coef(lo + hi, t) == Coef(lo, t);
      } else if 64 <= t {
        var j := t - 64;
        assert Coef(lo + hi, t) == Coef(hi, j);
        assert Coef(la + ha, t) == Coef(ha, j);
        assert Coef(lb + hb, t) == Coef(hb, j);
        assert Coef(lc + hc, t) == Coef(hc, j);
      }
    }
  }

  /**
   * c X^n is congruent to c (X^A + X^B + X^C + 1), which is FoldLow(c) + X^64 FoldHigh(c):
   * the xor of the shifted copies of c, split at the word boundary.
   */
  lemma FoldWord(f: Field, c: bv64)
    ensures Eqv(BinaryField.Fold(Modulus(f), WordBits(c)), WordBits(FoldLow(f, c)) + WordBits(FoldHigh(f, c)))
  {
    var p := Modulus(f);
    match f
    case GF64 =>
      Split4(c);
      Split3(c);
      Split1(c);
      Xor64Bits(c, c << 4);
      Xor64Bits(Xor64(c, c << 4), c << 3);
      Xor64Bits(Xor64(Xor64(c, c << 4), c << 3), c << 1);
      Xor64Bits(c >> 60, c >> 61);
      Xor64Bits(Xor64(c >> 60, c >> 61), c >> 63);
      FoldPair(p, WordBits(c), WordBits(c << 4), WordBits(c >> 60), WordBits(c << 3), WordBits(c >> 61),
               WordBits(c << 1), WordBits(c >> 63), WordBits(FoldLow(f, c)), WordBits(FoldHigh(f, c)));
    case GF128 =>
      Split7(c);
      Split2(c);
      Split1(c);
      Xor64Bits(c, c << 7);
      Xor64Bits(Xor64(c, c << 7), c << 2);
      Xor64Bits(Xor64(Xor64(c, c << 7), c << 2), c << 1);
      Xor64Bits(c >> 57, c >> 62);
      Xor64Bits(Xor64(c >> 57, c >> 62), c >> 63);
      FoldPair(p, WordBits(c), WordBits(c << 7), WordBits(c >> 57), WordBits(c << 2), WordBits(c >> 62),
               WordBits(c << 1), WordBits(c >> 63), WordBits(FoldLow(f, c)), WordBits(FoldHigh(f, c)));
    case GF256 =>
      Split10(c);
      Split5(c);
      Split2(c);
      Xor64Bits(c, c << 10);
      Xor64Bits(Xor64(c, c << 10), c << 5);
      Xor64Bits(Xor64(Xor64(c, c << 10), c << 5), c << 2);
      Xor64Bits(c >> 54, c >> 59);
      Xor64Bits(Xor64(c >> 54, c >> 59), c >> 62);
      FoldPair(p, WordBits(c), WordBits(c << 10), WordBits(c >> 54), WordBits(c << 5), WordBits(c >> 59),
               WordBits(c << 2), WordBits(c >> 62), WordBits(FoldLow(f, c)), WordBits(FoldHigh(f, c)));
  }

  /** The mask `ONE ^ (ONE << A) ^ (ONE << B) ^ (ONE << C)` holds X^A + X^B + X^C + 1. */
  lemma ReductionWord(f: Field)
    ensures Eqv(WordBits(FoldLow(f, 1)), BinaryField.Low(Modulus(f)))
  {
    var p := Modulus(f);
    var lo, hi := WordBits(FoldLow(f, 1)), WordBits(FoldHigh(f, 1));
    FoldWord(f, 1);
    assert FoldHigh(f, 1) == 0;
    WordBitsZero();
    WordBitsOne();
    BinaryField.FoldCongr(p, WordBits(1), [true]);
    BinaryField.LowAsSum(p);
    ConcatAdd(lo, hi);
  }

  lemma FoldShiftedEqv(f: Field, c: bv64, k: nat)
    ensures Eqv(BinaryField.Fold(Modulus(f), Shift(WordBits(c), k)),
                Add(Shift(WordBits(FoldLow(f, c)), k), Shift(WordBits(FoldHigh(f, c)), k + 64)))
  {
    var p := Modulus(f);
    var w, lo, hi := WordBits(c), WordBits(FoldLow(f, c)), WordBits(FoldHigh(f, c));
    BinaryField.FoldShift(p, w, k);
    FoldWord(f, c);
    ShiftCongr(BinaryField.Fold(p, w), lo + hi, k);
    ShiftConcat(lo, hi, k);
    EqvTrans(BinaryField.Fold(p, Shift(w, k)), Shift(BinaryField.Fold(p, w), k), Shift(lo + hi, k));
  }

  /**
   * A word c at X^t = X^(n + k) is congruent to FoldLow(c) at X^k plus FoldHigh(c) at
   * X^h = X^(k + 64): one step of `propagate_carries`.
   */
  lemma FoldShifted(f: Field, c: bv64, k: nat, t: nat, h: nat)
    requires t == Modulus(f).n + k && h == k + 64
    ensures BinaryField.Reduce(Modulus(f), Shift(WordBits(c), t))
         == BinaryField.Reduce(Modulus(f), Add(Shift(WordBits(FoldLow(f, c)), k), Shift(WordBits(FoldHigh(f, c)), h)))
  {
    var p := Modulus(f);
    var w, lo, hi := WordBits(c), WordBits(FoldLow(f, c)), WordBits(FoldHigh(f, c));
    var u := Shift(w, k);
    ShiftShift(w, k, p.n);
    BinaryField.ReduceEqv(p, Shift(w, p.n + k), Shift(u, p.n));
    BinaryField.ReduceShiftN(p, u);
    FoldShiftedEqv(f, c, k);
    BinaryField.ReduceEqv(p, BinaryField.Fold(p, u), Add(Shift(lo, k), Shift(hi, k + 64)));
  }

  /** FoldShifted, on residue classes. */
  lemma FoldClass(f: Field, c: bv64, k: nat, t: nat, h: nat)
    requires t == Modulus(f).n + k && h == k + 64
    ensures BinaryField.Class(Modulus(f), Shift(WordBits(c), t))
         == BinaryField.Class(Modulus(f), Add(Shift(WordBits(FoldLow(f, c)), k), Shift(WordBits(FoldHigh(f, c)), h)))
  {
    FoldShifted(f, c, k, t, h);
  }

  /**
   * One carry word of `propagate_carries` with a next word, on polynomials: the word
   * cw at X^a, followed by the carry words rest, is replaced by lo at X^s and hi at
   * X^(s + 64), which have the same remainder; rest moves on to X^(a + 64).
   */
  lemma CarryStepPoly(p: BinaryField.Pentanomial, total: Poly, w: Poly, w2: Poly, cw: Poly, lo: Poly, hi: Poly,
                      rest: Poly, a: nat, s: nat)
    requires BinaryField.Valid(p) && |cw| == 64
    requires BinaryField.Class(p, Add(w, Shift(cw + rest, a))) == BinaryField.Class(p, total)
    requires BinaryField.Class(p, Shift(cw, a)) == BinaryField.Class(p, Add(Shift(lo, s), Shift(hi, s + 64)))
    requires w2 == Add(Add(w, Shift(lo, s)), Shift(hi, s + 64))
    ensures BinaryField.Class(p, Add(w2, Shift(rest, a + 64))) == BinaryField.Class(p, total)
  {
    ShiftConcat(cw, rest, a);
    ShiftBy(rest, a + |cw|, a + 64);
    BinaryField.ReduceSubstSum(p, w2, w, Shift(cw, a), Shift(lo, s), Shift(hi, s + 64), Shift(rest, a + 64), Shift(cw + rest, a));
  }

  /** CarryStepPoly with the next word at s = 64 i. */
  lemma NextStep(p: BinaryField.Pentanomial, total: Poly, w: Poly, w2: Poly, cw: Poly, lo: Poly, hi: Poly,
                 rest: Poly, a: nat, i: nat)
    requires BinaryField.Valid(p) && |cw| == 64
    requires BinaryField.Class(p, Add(w, Shift(cw + rest, a))) == BinaryField.Class(p, total)
    requires BinaryField.Class(p, Shift(cw, a)) == BinaryField.Class(p, Add(Shift(lo, 64 * i), Shift(hi, 64 * i + 64)))
    requires w2 == Add(Add(w, Shift(lo, 64 * i)), Shift(hi, 64 * i + 64))
    ensures BinaryField.Class(p, Add(w2, Shift(rest, a + 64))) == BinaryField.Class(p, total)
  {
    var s := 64 * i;
    CarryStepPoly(p, total, w, w2, cw, lo, hi, rest, a, s);
  }

  /**
   * The last carry word, on polynomials: cw at X^a is replaced by lo at X^s and hi at
   * X^(s + 64) = X^n, and hi in turn by lo2 at X^0 and hi2 at X^64.
   */
  lemma CarryLastPoly(p: BinaryField.Pentanomial, total: Poly, w: Poly, w3: Poly, cw: Poly,
                      lo: Poly, hi: Poly, lo2: Poly, hi2: Poly, a: nat, s: nat)
    requires BinaryField.Valid(p) && s + 64 == p.n
    requires BinaryField.Class(p, Add(w, Shift(cw, a))) == BinaryField.Class(p, total)
    requires BinaryField.Class(p, Shift(cw, a)) == BinaryField.Class(p, Add(Shift(lo, s), Shift(hi, s + 64)))
    requires BinaryField.Class(p, Shift(hi, p.n)) == BinaryField.Class(p, Add(Shift(lo2, 0), Shift(hi2, 64)))
    requires w3 == Add(Add(Add(w, Shift(lo, s)), Shift(lo2, 0)), Shift(hi2, 64))
    ensures BinaryField.Class(p, w3) == BinaryField.Class(p, total)
  {
    var w1 := Add(w, Shift(lo, s));
    ShiftBy(hi, p.n, s + 64);
    BinaryField.ReduceSubst(p, w3, w1, Shift(hi, s + 64), Shift(lo2, 0), Shift(hi2, 64));
    BinaryField.ReduceSubst(p, Add(w1, Shift(hi, s + 64)), w, Shift(cw, a), Shift(lo, s), Shift(hi, s + 64));
  }

  /**
   * One round of the loop of `propagate_carries` for a single word: the carry cw at X^a = X^n
   * is replaced by lo, xored into the word, and the new carry hi, again at X^a.
   */
  lemma CarryFoldPoly(p: BinaryField.Pentanomial, total: Poly, w: Poly, w2: Poly, cw: Poly, lo: Poly, hi: Poly, a: nat)
    requires BinaryField.Valid(p)
    requires BinaryField.Class(p, Add(w, Shift(cw, a))) == BinaryField.Class(p, total)
    requires BinaryField.Class(p, Shift(cw, a)) == BinaryField.Class(p, Add(Shift(lo, 0), Shift(hi, a)))
    requires w2 == Add(w, Shift(lo, 0))
    ensures BinaryField.Class(p, Add(w2, Shift(hi, a))) == BinaryField.Class(p, total)
  {
    BinaryField.ReduceSubst(p, Add(w2, Shift(hi, a)), w, Shift(cw, a), Shift(lo, 0), Shift(hi, a));
  }

  /** In GF(2^64) the bits folded past the word are fewer than the carry had: the loop ends. */
  lemma FoldHighShrinks(f: Field, c: bv64)
    requires NWords(f) == 1 && c != 0
    ensures FoldHigh(f, c) as int < c as int
  {
  }

  /** An empty tail of carry words adds nothing. */
  lemma ClassEmptyTail(p: BinaryField.Pentanomial, u: Poly, k: nat)
    requires BinaryField.Valid(p)
    ensures BinaryField.Class(p, Add(u, Shift([], k))) == BinaryField.Class(p, u)
  {
    BinaryField.ReduceEqv(p, Add(u, Shift([], k)), u);
  }

  /** A polynomial on n coefficients in the class of total is the remainder of total. */
  lemma ClassRemainder(p: BinaryField.Pentanomial, total: Poly, u: Poly)
    requires BinaryField.Valid(p) && |u| == p.n && BinaryField.Class(p, u) == BinaryField.Class(p, total)
    ensures u == BinaryField.Reduce(p, total)
  {
    BinaryField.ReduceElement(p, u);
  }
}

/**
 * The binary fields GF(2^64), GF(2^128) and GF(2^256) of the `relinked` crate.
 *
 * An element is NWORDS 64-bit words, least-significant word first; its value is
 * the polynomial `Bits(words)` of degree below n = 64 NWORDS. The field is the
 * quotient by the pentanomial X^n + X^A + X^B + X^C + 1 of its instance.
 * Element values are the `GF2n` datatype (the Rust type is `Copy`); the
 * operations that take `&mut self` work in place on an `array<bv64>` holding
 * the `words` field.
 */
module GF2n {
  import opened Poly
  import P = Poly
  import opened Words
  import opened Fields
  import BinaryField

  /** A field element: the `words` of a `GF2n` value. */
  datatype Element = Element(words: seq<bv64>)

  /** An element of the field f holds NWORDS words. */
  predicate Wf(f: Field, x: Element)
  {
    |x.words| == NWords(f)
  }

  /** The polynomial an element stands for. */
  function Value(x: Element): (r: Poly)
    ensures |r| == 64 * |x.words|
  {
    Bits(x.words)
  }

  /** Elements with the same words are the same element, and conversely. */
  lemma ValueInjective(f: Field, x: Element, y: Element)
    requires Wf(f, x) && Wf(f, y)
    ensures Value(x) == Value(y) <==> x == y
  {
    if Value(x) == Value(y) {
      BitsInjective(x.words, y.words);
    }
  }

  /* ---- Construction and conversion ---- */

  /** `[W::ZERO; NWORDS]`. */
  function ZeroElement(f: Field): (r: Element)
    ensures Wf(f, r) && Value(r) == Zero(Modulus(f).n)
  {
    Element(Zeros(NWords(f)))
  }

  /** `new_small`: the word w in word 0, every other word zero. */
  function NewSmall(f: Field, w: bv64): (r: Element)
    ensures Wf(f, r) && Value(r) == WordBits(w) + Zero(Modulus(f).n - 64)
  {
    var z := Zeros(NWords(f) - 1);
    BitsAppend([w], z);
    BitsSingle(w);
    Element([w] + z)
  }

  /** `ONE`, the unit of the field. */
  function One(f: Field): (r: Element)
    ensures Wf(f, r) && Value(r) == BinaryField.One(Modulus(f))
  {
    var r := NewSmall(f, 1);
    WordBitsOne();
    Ext(Resize([true], 64) + Zero(Modulus(f).n - 64), BinaryField.One(Modulus(f)));
    r
  }

  /** `From<u8>`: the byte in word 0, zero-extended, every other word zero. */
  function FromByte(f: Field, b: bv8): (r: Element)
    ensures Wf(f, r) && Value(r) == WordBits(b as bv64) + Zero(Modulus(f).n - 64)
    ensures forall i | 8 <= i :: !Coef(Value(r), i)
  {
    var z := Zeros(NWords(f) - 1);
    var r := Element([b as bv64] + z);
    BitsAppend([b as bv64], z);
    BitsSingle(b as bv64);
    forall i | 8 <= i
      ensures !Coef(Value(r), i)
    {
      if i < 64 {
        ByteDegree(b, i);
      }
    }
    r
  }

  /** `from_words`: the element with the given words. */
  function FromWords(f: Field, ws: seq<bv64>): (r: Element)
    requires |ws| == NWords(f)
    ensures Wf(f, r) && Value(r) == Bits(ws)
  {
    Element(ws)
  }

  /** `to_words`: the words of an element. */
  function ToWords(f: Field, x: Element): (r: seq<bv64>)
    requires Wf(f, x)
    ensures |r| == NWords(f) && Bits(r) == Value(x)
  {
    x.words
  }

  datatype Option<T> = None | Some(value: T)

  /** The byte of w at bits s to s + 7. */
  function ByteAt(w: bv64, s: bv7): bv8
    requires s <= 56
  {
    ((w >> s) & 0xFF) as bv8
  }

  /** `u64::to_be_bytes`: the eight bytes of w, most significant first. */
  function ToBeBytes(w: bv64): (r: seq<bv8>)
    ensures |r| == 8
  {
    [ByteAt(w, 56), ByteAt(w, 48), ByteAt(w, 40), ByteAt(w, 32), ByteAt(w, 24), ByteAt(w, 16), ByteAt(w, 8), ByteAt(w, 0)]
  }

  /**
   * `Word::from_bytes` for u64: the word whose big-endian bytes are the given
   * ones; a slice of any other length than 8 makes the source panic, which is
   * None here.
   */
  function WordFromBytes(bytes: seq<bv8>): (r: Option<bv64>)
    ensures r.Some? <==> |bytes| == 8
    ensures r.Some? ==> ToBeBytes(r.value) == bytes
  {
    if |bytes| != 8 then None
    else
      var w := (bytes[0] as bv64 << 56) | (bytes[1] as bv64 << 48) | (bytes[2] as bv64 << 40) | (bytes[3] as bv64 << 32)
        | (bytes[4] as bv64 << 24) | (bytes[5] as bv64 << 16) | (bytes[6] as bv64 << 8) | bytes[7] as bv64;
      assert ToBeBytes(w) == bytes;
      Some(w)
  }

  /** Parsing the big-endian bytes of a word gives the word back. */
  lemma WordFromBytesRoundTrip(w: bv64)
    ensures WordFromBytes(ToBeBytes(w)) == Some(w)
  {
  }

  lemma WordsRoundTrip(f: Field, ws: seq<bv64>, x: Element)
    requires |ws| == NWords(f) && Wf(f, x)
    ensures ToWords(f, FromWords(f, ws)) == ws && FromWords(f, ToWords(f, x)) == x
  {
  }

  /** `PartialEq`: word-wise equality, which is equality of the field elements. */
  function Equal(f: Field, x: Element, y: Element): (r: bool)
    requires Wf(f, x) && Wf(f, y)
    ensures r <==> Value(x) == Value(y)
  {
    ValueInjective(f, x, y);
    x.words == y.words
  }

  /* ---- Addition ---- */

  /** The sum of two elements, word-wise exclusive or. */
  function Sum(f: Field, x: Element, y: Element): (r: Element)
    requires Wf(f, x) && Wf(f, y)
    ensures Wf(f, r) && Value(r) == P.Add(Value(x), Value(y))
  {
    BitsXorWords(x.words, y.words);
    Element(XorWords(x.words, y.words))
  }

  lemma SumComm(f: Field, x: Element, y: Element)
    requires Wf(f, x) && Wf(f, y)
    ensures Sum(f, x, y) == Sum(f, y, x)
  {
    AddComm(Value(x), Value(y));
    ValueInjective(f, Sum(f, x, y), Sum(f, y, x));
  }

  /** Every element is its own negative: x + x == 0. */
  lemma SumSelf(f: Field, x: Element)
    requires Wf(f, x)
    ensures Sum(f, x, x) == ZeroElement(f)
  {
    AddSelf(Value(x));
    ValueInjective(f, Sum(f, x, x), ZeroElement(f));
  }

  /** Adding y twice gives back x, so subtraction undoes addition. */
  lemma SumCancel(f: Field, x: Element, y: Element)
    requires Wf(f, x) && Wf(f, y)
    ensures Sum(f, Sum(f, x, y), y) == x
  {
    AddCancel(Value(x), Value(y));
    ValueInjective(f, Sum(f, Sum(f, x, y), y), x);
  }

  lemma SumZero(f: Field, x: Element)
    requires Wf(f, x)
    ensures Sum(f, x, ZeroElement(f)) == x
  {
    BinaryField.AddZeroRight(Value(x), Modulus(f).n);
    ValueInjective(f, Sum(f, x, ZeroElement(f)), x);
  }

  /** `add`: fills a fresh array with the word-wise exclusive or. */
  method Add(f: Field, x: Element, y: Element) returns (r: Element)
    requires Wf(f, x) && Wf(f, y)
    ensures r == Sum(f, x, y)
  {
    var words := new bv64[NWords(f)](_ => 0);
    for i := 0 to NWords(f)
      invariant forall k | 0 <= k < i :: words[k] == Xor64(x.words[k], y.words[k])
    {
      words[i] := Xor64(x.words[i], y.words[i]);
    }
    XorWordsIs(x.words, y.words, words[..]);
    r := Element(words[..]);
  }

  /** `sub`: the same as `add`. */
  method Sub(f: Field, x: Element, y: Element) returns (r: Element)
    requires Wf(f, x) && Wf(f, y)
    ensures r == Sum(f, x, y)
  {
    r := Add(f, x, y);
  }

  /** `add_assign`: xors the words of other into the array, word by word. */
  method AddAssign(f: Field, words: array<bv64>, other: Element)
    requires words.Length == NWords(f) && Wf(f, other)
    modifies words
    ensures words[..] == Sum(f, Element(old(words[..])), other).words
  {
    ghost var u := words[..];
    for i := 0 to words.Length
      invariant forall k | 0 <= k < i :: words[k] == Xor64(u[k], other.words[k])
      invariant forall k | i <= k < words.Length :: words[k] == u[k]
    {
      words[i] := Xor64(words[i], other.words[i]);
    }
    XorWordsIs(u, other.words, words[..]);
  }

  /* ---- Multiplication by X ---- */

  /**
   * After the word loop of `shl1`: the words hold X u without its top coefficient, which
   * is the outgoing carry; xoring the reduction mask into word 0 exactly when it is set
   * gives MulX(u).
   */
  lemma Shl1Result(f: Field, u: seq<bv64>, ws: seq<bv64>, carry: bv64, r: seq<bv64>)
    requires |u| == NWords(f) && |ws| == NWords(f) && carry <= 1
    requires Bits(ws) + [carry == 1] == [false] + Bits(u)
    requires r == if carry != 0 then ws[0 := Xor64(ws[0], FoldLow(f, 1))] else ws
    ensures Bits(r) == BinaryField.MulX(Modulus(f), Bits(u))
  {
    var p := Modulus(f);
    ShiftedOut(Bits(ws), Bits(u), carry == 1);
    if carry != 0 {
      BitsXorAt(ws, 0, FoldLow(f, 1), 0);
      ReductionWord(f);
      assert Shift(WordBits(FoldLow(f, 1)), 0) == WordBits(FoldLow(f, 1));
      AddCongr(Bits(ws), Bits(ws), WordBits(FoldLow(f, 1)), BinaryField.Low(p));
      Ext(Bits(r), P.Add(Bits(ws), BinaryField.Low(p)));
    }
  }

  /**
   * The state of `shl1` after the first i words of u: those are shifted up by one
   * with the top bit of word i - 1 in carry, the rest are untouched.
   */
  ghost predicate Shl1Progress(w: seq<bv64>, u: seq<bv64>, i: nat, carry: bv64)
  {
    i <= |w| == |u| && carry <= 1 && w[i..] == u[i..]
    && Bits(w[..i]) + [carry == 1] == [false] + Bits(u[..i])
  }

  /** One step of `shl1`: word i takes the carry in and gives its top bit out. */
  lemma Shl1Step(w: seq<bv64>, u: seq<bv64>, i: nat, carry: bv64)
    requires Shl1Progress(w, u, i, carry) && i < |w|
    ensures Shl1Progress(w[i := ShiftIn(w[i], carry)], u, i + 1, TopBit(w[i]))
  {
    var d := w[i];
    var e := ShiftIn(d, carry);
    var w' := w[i := e];
    ShiftWordIn(w[..i], u[..i], carry, d);
    assert w'[..i + 1] == w[..i] + [e];
    assert u[..i + 1] == u[..i] + [d];
    assert w'[i + 1..] == u[i + 1..];
  }

  /**
   * `shl1`: shifts the words up by one bit, each word's top bit carried into the next
   * word, and folds the bit shifted out of X^(n-1) back as X^A + X^B + X^C + 1.
   */
  method Shl1(f: Field, words: array<bv64>)
    requires words.Length == NWords(f)
    modifies words
    ensures Bits(words[..]) == BinaryField.MulX(Modulus(f), Bits(old(words[..])))
  {
    ghost var u := words[..];
    var carry: bv64 := 0;
    for i := 0 to words.Length
      invariant Shl1Progress(words[..], u, i, carry)
    {
      Shl1Step(words[..], u, i, carry);
      var d := words[i];
      words[i] := ShiftIn(d, carry);
      carry := TopBit(d);
    }
    ghost var ws := words[..];
    assert ws[..words.Length] == ws && u[..words.Length] == u;
    if carry != 0 {
      words[0] := Xor64(words[0], FoldLow(f, 1));
    }
    Shl1Result(f, u, ws, carry, words[..]);
  }

  /* ---- Multiplication by shifting and adding ---- */

  /** The shifted copy of `mul_as_add` after k coefficients: x multiplied by X, k times. */
  ghost function CopyAt(p: BinaryField.Pentanomial, X: Poly, k: nat): (r: Poly)
    requires BinaryField.Valid(p) && |X| == p.n
    ensures |r| == p.n
    decreases k
  {
    if k == 0 then X else BinaryField.MulX(p, CopyAt(p, X, k - 1))
  }

  /**
   * The result of `mul_as_add` after k coefficients: zero, with the copy added at
   * each coefficient of y that is set.
   */
  ghost function ResultAt(p: BinaryField.Pentanomial, X: Poly, Y: Poly, k: nat): (r: Poly)
    requires BinaryField.Valid(p) && |X| == p.n && k <= |Y|
    ensures |r| == p.n
    decreases k
  {
    if k == 0 then Zero(p.n)
    else if Y[k - 1] then P.Add(ResultAt(p, X, Y, k - 1), CopyAt(p, X, k - 1))
    else ResultAt(p, X, Y, k - 1)
  }

  /**
   * The state of `mul_as_add` after k coefficients of y: the shifted copy and the
   * result are those of the recurrences above.
   */
  ghost predicate MulAsAddProgress(f: Field, x: Element, y: Element, s: seq<bv64>, res: seq<bv64>, k: nat)
  {
    Wf(f, x) && Wf(f, y) && |s| == NWords(f) && |res| == NWords(f) && k <= Modulus(f).n
    && Bits(s) == CopyAt(Modulus(f), Value(x), k)
    && Bits(res) == ResultAt(Modulus(f), Value(x), Value(y), k)
  }

  /** Multiplying the reduced copy X^k x by X gives the reduced X^(k+1) x. */
  lemma MulAsAddShifted(p: BinaryField.Pentanomial, X: Poly, k: nat, S: Poly, S': Poly)
    requires BinaryField.Valid(p)
    requires S == BinaryField.Reduce(p, Shift(X, k)) && S' == BinaryField.MulX(p, S)
    ensures S' == BinaryField.Reduce(p, Shift(X, k + 1))
  {
    BinaryField.ReduceShift1(p, Shift(X, k));
    ShiftShift(X, k, 1);
    BinaryField.ReduceEqv(p, Shift(Shift(X, k), 1), Shift(X, k + 1));
  }

  /** Adding the copy X^k x exactly when coefficient k of y is set extends the product by one coefficient. */
  lemma MulAsAddAccumulated(p: BinaryField.Pentanomial, X: Poly, Y: Poly, k: nat, S: Poly, R: Poly, R': Poly)
    requires BinaryField.Valid(p) && k < |Y| && |S| == p.n && |R| == p.n
    requires S == BinaryField.Reduce(p, Shift(X, k)) && R == BinaryField.Reduce(p, ClMul(Y[..k], X))
    requires R' == if Y[k] then P.Add(R, S) else R
    ensures R' == BinaryField.Reduce(p, ClMul(Y[..k + 1], X))
  {
    ClMulPrefix(Y, X, k);
    if Y[k] {
      BinaryField.ReduceAddEqv(p, ClMul(Y[..k + 1], X), ClMul(Y[..k], X), Shift(X, k));
    } else {
      BinaryField.AddZeroRight(ClMul(Y[..k], X), |Shift(X, k)|);
      BinaryField.ReduceEqv(p, ClMul(Y[..k + 1], X), ClMul(Y[..k], X));
    }
  }

  /**
   * The recurrences compute the reduced X^k x and the reduced product of x with the
   * first k coefficients of y.
   */
  lemma {:induction false} RecurrencesReduce(p: BinaryField.Pentanomial, X: Poly, Y: Poly, k: nat)
    requires BinaryField.Valid(p) && |X| == p.n && k <= |Y|
    ensures CopyAt(p, X, k) == BinaryField.Reduce(p, Shift(X, k))
    ensures ResultAt(p, X, Y, k) == BinaryField.Reduce(p, ClMul(Y[..k], X))
  {
    if k == 0 {
      assert Y[..0] == [];
      BinaryField.ReduceZero(p, ClMul([], X));
      BinaryField.ReduceEqv(p, Shift(X, 0), X);
      BinaryField.ReduceElement(p, X);
    } else {
      RecurrencesReduce(p, X, Y, k - 1);
      MulAsAddShifted(p, X, k - 1, CopyAt(p, X, k - 1), CopyAt(p, X, k));
      MulAsAddAccumulated(p, X, Y, k - 1, CopyAt(p, X, k - 1), ResultAt(p, X, Y, k - 1), ResultAt(p, X, Y, k));
    }
  }

  /**
   * One coefficient of `mul_as_add`: the copy is added to the result when
   * coefficient k of y is set, then multiplied by X.
   */
  lemma MulAsAddStep(f: Field, x: Element, y: Element, s: seq<bv64>, res: seq<bv64>, k: nat,
                     s': seq<bv64>, res': seq<bv64>)
    requires MulAsAddProgress(f, x, y, s, res, k) && k < Modulus(f).n
    requires |s'| == NWords(f) && Bits(s') == BinaryField.MulX(Modulus(f), Bits(s))
    requires res' == if Value(y)[k] then Sum(f, Element(res), Element(s)).words else res
    ensures MulAsAddProgress(f, x, y, s', res', k + 1)
  {
    if Value(y)[k] {
      assert Bits(res') == P.Add(Bits(res), Bits(s));
    }
  }

  /** The body of the inner loop of `mul_as_add`, for coefficient k = 64 j + i of y. */
  method MulAsAddBit(f: Field, x: Element, y: Element, s: array<bv64>, res: array<bv64>, j: nat, i: nat)
    requires s != res && j < NWords(f) && i < 64
    requires MulAsAddProgress(f, x, y, s[..], res[..], 64 * j + i)
    modifies s, res
    ensures MulAsAddProgress(f, x, y, s[..], res[..], 64 * j + i + 1)
  {
    ghost var k := 64 * j + i;
    ghost var s0, r0 := s[..], res[..];
    BitsAt(y.words, j, i);
    if BitSet(y.words[j], i) {
      AddAssign(f, res, Element(s[..]));
    }
    Shl1(f, s);
    MulAsAddStep(f, x, y, s0, r0, k, s[..], res[..]);
  }

  /** After all n coefficients of y the result is the product x y. */
  lemma MulAsAddDone(f: Field, x: Element, y: Element, s: seq<bv64>, res: seq<bv64>, k: nat)
    requires MulAsAddProgress(f, x, y, s, res, k) && k == Modulus(f).n
    ensures Wf(f, Element(res)) && Value(Element(res)) == BinaryField.Mul(Modulus(f), Value(x), Value(y))
  {
    RecurrencesReduce(Modulus(f), Value(x), Value(y), k);
    assert Value(y)[..k] == Value(y);
    BinaryField.MulComm(Modulus(f), Value(y), Value(x));
  }

  /** The inner loop of `mul_as_add`: the 64 coefficients of word j of y. */
  method MulAsAddWord(f: Field, x: Element, y: Element, s: array<bv64>, res: array<bv64>, j: nat)
    requires s != res && j < NWords(f)
    requires MulAsAddProgress(f, x, y, s[..], res[..], 64 * j)
    modifies s, res
    ensures MulAsAddProgress(f, x, y, s[..], res[..], 64 * j + 64)
  {
    for i := 0 to 64
      invariant MulAsAddProgress(f, x, y, s[..], res[..], 64 * j + i)
    {
      MulAsAddBit(f, x, y, s, res, j, i);
    }
  }

  /** The start of `mul_as_add`: a copy of x, and a result of zero. */
  method MulAsAddInit(f: Field, x: Element, y: Element) returns (s: array<bv64>, res: array<bv64>)
    requires Wf(f, x) && Wf(f, y)
    ensures fresh(s) && fresh(res) && s != res
    ensures MulAsAddProgress(f, x, y, s[..], res[..], 0)
  {
    s := new bv64[NWords(f)](i requires 0 <= i < NWords(f) => x.words[i]);
    res := new bv64[NWords(f)](_ => 0);
    assert s[..] == x.words;
    assert res[..] == ZeroElement(f).words;
  }

  /**
   * `mul_as_add`: for each coefficient of y from the lowest, adds the running copy
   * of x into the result when the coefficient is set, and multiplies the copy by X.
   */
  method MulAsAdd(f: Field, x: Element, y: Element) returns (r: Element)
    requires Wf(f, x) && Wf(f, y)
    ensures Wf(f, r) && Value(r) == BinaryField.Mul(Modulus(f), Value(x), Value(y))
  {
    var s, res := MulAsAddInit(f, x, y);
    for j := 0 to NWords(f)
      invariant MulAsAddProgress(f, x, y, s[..], res[..], 64 * j)
    {
      MulAsAddWord(f, x, y, s, res, j);
    }
    MulAsAddDone(f, x, y, s[..], res[..], 64 * NWords(f));
    r := Element(res[..]);
  }

  /* ---- Reduction of a double-length product ---- */

  /**
   * The state of the word loop of `propagate_carries` (NWORDS > 1) after carry words
   * 0 .. i - 1 have been folded in: the words w plus the remaining carry words, placed
   * at X^a, are in the class of the double-length input total.
   */
  ghost predicate CarriesProgress(p: BinaryField.Pentanomial, total: Poly, w: seq<bv64>, carry: seq<bv64>, i: nat, a: nat)
    requires BinaryField.Valid(p)
  {
    i <= |carry| && BinaryField.Class(p, P.Add(Bits(w), Shift(Bits(carry[i..]), a))) == BinaryField.Class(p, total)
  }

  /** Before the first carry word: the carry words sit at X^n, above the n bits of the words. */
  lemma CarriesStart(p: BinaryField.Pentanomial, words: seq<bv64>, carry: seq<bv64>)
    requires BinaryField.Valid(p) && 64 * |words| == p.n
    ensures CarriesProgress(p, Bits(words) + Bits(carry), words, carry, 0, p.n)
  {
    assert carry[0..] == carry;
    ConcatAdd(Bits(words), Bits(carry));
    BinaryField.ReduceEqv(p, P.Add(Bits(words), Shift(Bits(carry), p.n)), Bits(words) + Bits(carry));
  }

  /** Carry word i at X^a is split off the carry words after it, which sit at X^(a + 64). */
  lemma CarriesSplit(p: BinaryField.Pentanomial, total: Poly, w: seq<bv64>, carry: seq<bv64>, i: nat, a: nat)
    requires BinaryField.Valid(p) && CarriesProgress(p, total, w, carry, i, a) && i < |carry|
    ensures BinaryField.Class(p, P.Add(Bits(w), Shift(WordBits(carry[i]) + Bits(carry[i + 1..]), a))) == BinaryField.Class(p, total)
  {
    BitsFrom(carry, i);
  }

  /**
   * Ready for carry word i when a next word exists: the words so far are in progress and
   * carry word i at X^a is congruent to lo at X^(64 i) and hi at X^(64 i + 64).
   */
  ghost predicate NextReady(p: BinaryField.Pentanomial, total: Poly, w: seq<bv64>, carry: seq<bv64>, i: nat, a: nat,
                            lo: bv64, hi: bv64)
  {
    && BinaryField.Valid(p) && i + 1 < |carry| && CarriesProgress(p, total, w, carry, i, a)
    && BinaryField.Class(p, Shift(WordBits(carry[i]), a))
       == BinaryField.Class(p, P.Add(Shift(WordBits(lo), 64 * i), Shift(WordBits(hi), 64 * i + 64)))
  }

  /** One word of the loop with a next word: w2 is w with lo and hi added at words i and i + 1. */
  lemma CarriesNext(p: BinaryField.Pentanomial, total: Poly, w: seq<bv64>, w2: seq<bv64>, carry: seq<bv64>,
                    i: nat, a: nat, lo: bv64, hi: bv64)
    requires NextReady(p, total, w, carry, i, a, lo, hi)
    requires Bits(w2) == P.Add(P.Add(Bits(w), Shift(WordBits(lo), 64 * i)), Shift(WordBits(hi), 64 * i + 64))
    ensures CarriesProgress(p, total, w2, carry, i + 1, a + 64)
  {
    CarriesSplit(p, total, w, carry, i, a);
    NextStep(p, total, Bits(w), Bits(w2), WordBits(carry[i]), WordBits(lo), WordBits(hi), Bits(carry[i + 1..]), a, i);
  }

  /**
   * The last word: carry word i at X^a is congruent to lo at X^s and hi at X^n, and hi at X^n
   * to lo2 at X^0 and hi2 at X^64; w3 is w with lo, lo2 and hi2 added.
   */
  lemma CarriesLast(p: BinaryField.Pentanomial, total: Poly, w: seq<bv64>, w3: seq<bv64>, carry: seq<bv64>,
                    i: nat, a: nat, lo: bv64, hi: bv64, lo2: bv64, hi2: bv64, s: nat)
    requires BinaryField.Valid(p) && CarriesProgress(p, total, w, carry, i, a) && i + 1 == |carry| && s + 64 == p.n
    requires BinaryField.Class(p, Shift(WordBits(carry[i]), a)) == BinaryField.Class(p, P.Add(Shift(WordBits(lo), s), Shift(WordBits(hi), s + 64)))
    requires BinaryField.Class(p, Shift(WordBits(hi), p.n)) == BinaryField.Class(p, P.Add(Shift(WordBits(lo2), 0), Shift(WordBits(hi2), 64)))
    requires Bits(w3) == P.Add(P.Add(P.Add(Bits(w), Shift(WordBits(lo), s)), Shift(WordBits(lo2), 0)), Shift(WordBits(hi2), 64))
    ensures CarriesProgress(p, total, w3, carry, i + 1, a + 64)
  {
    assert carry[i..] == [carry[i]] && carry[i + 1..] == [];
    BitsSingle(carry[i]);
    CarryLastPoly(p, total, Bits(w), Bits(w3), WordBits(carry[i]), WordBits(lo), WordBits(hi), WordBits(lo2), WordBits(hi2), a, s);
    ClassEmptyTail(p, Bits(w3), a + 64);
  }

  /** After the last carry word the words are the remainder itself. */
  lemma CarriesDone(p: BinaryField.Pentanomial, total: Poly, w: seq<bv64>, carry: seq<bv64>, a: nat)
    requires BinaryField.Valid(p) && CarriesProgress(p, total, w, carry, |carry|, a) && 64 * |w| == p.n
    ensures Bits(w) == BinaryField.Reduce(p, total)
  {
    assert carry[|carry|..] == [];
    ClassEmptyTail(p, Bits(w), a);
    ClassRemainder(p, total, Bits(w));
  }

  /**
   * One round of the loop for a single word (NWORDS = 1): the carry c at X^a is congruent
   * to lo at X^0 and hi at X^a; lo goes into the word and hi is the new carry.
   */
  lemma CarriesFold(p: BinaryField.Pentanomial, total: Poly, w: seq<bv64>, w2: seq<bv64>, c: bv64, a: nat,
                    lo: bv64, hi: bv64)
    requires BinaryField.Valid(p) && CarriesProgress(p, total, w, [c], 0, a)
    requires BinaryField.Class(p, Shift(WordBits(c), a)) == BinaryField.Class(p, P.Add(Shift(WordBits(lo), 0), Shift(WordBits(hi), a)))
    requires Bits(w2) == P.Add(Bits(w), Shift(WordBits(lo), 0))
    ensures CarriesProgress(p, total, w2, [hi], 0, a)
  {
    assert [c][0..] == [c] && [hi][0..] == [hi];
    BitsSingle(c);
    BitsSingle(hi);
    CarryFoldPoly(p, total, Bits(w), Bits(w2), WordBits(c), WordBits(lo), WordBits(hi), a);
  }

  /** A zero carry adds nothing: the word is the remainder itself. */
  lemma CarriesZero(p: BinaryField.Pentanomial, total: Poly, w: seq<bv64>, a: nat)
    requires BinaryField.Valid(p) && CarriesProgress(p, total, w, [0], 0, a) && 64 * |w| == p.n
    ensures Bits(w) == BinaryField.Reduce(p, total)
  {
    assert [0 as bv64][0..] == [0];
    BitsSingle(0);
    WordBitsZero();
    BinaryField.ReduceEqv(p, P.Add(Bits(w), Shift(Zero(64), a)), Bits(w));
    ClassRemainder(p, total, Bits(w));
  }

  /**
   * The body of the word loop of `propagate_carries`: carry word i is folded into
   * words i and i + 1, or, for the last word, into word i and then words 0 and 1.
   */
  method CarryWord(f: Field, w: array<bv64>, carry: seq<bv64>, i: nat, ghost total: Poly, ghost a: nat)
    requires w.Length == NWords(f) && |carry| == NWords(f) && 1 < NWords(f) && i < NWords(f)
    requires a == Modulus(f).n + 64 * i && CarriesProgress(Modulus(f), total, w[..], carry, i, a)
    modifies w
    ensures CarriesProgress(Modulus(f), total, w[..], carry, i + 1, a + 64)
  {
    if i + 1 < NWords(f) {
      CarryInner(f, w, carry, i, total, a);
    } else {
      CarryWrap(f, w, carry, i, total, a);
    }
  }

  /** A carry word other than the last one: lo goes into word i and hi into word i + 1. */
  method CarryInner(f: Field, w: array<bv64>, carry: seq<bv64>, i: nat, ghost total: Poly, ghost a: nat)
    requires w.Length == NWords(f) && |carry| == NWords(f) && i + 1 < NWords(f)
    requires a == Modulus(f).n + 64 * i && CarriesProgress(Modulus(f), total, w[..], carry, i, a)
    modifies w
    ensures CarriesProgress(Modulus(f), total, w[..], carry, i + 1, a + 64)
  {
    var c := carry[i];
    var lo, hi := FoldLow(f, c), FoldHigh(f, c);
    InnerReady(f, w[..], carry, i, total, a);
    CarryNext(Modulus(f), w, carry, i, total, a, lo, hi);
  }

  /** Carry word i of an inner position folds into lo and hi at words i and i + 1. */
  lemma InnerReady(f: Field, w: seq<bv64>, carry: seq<bv64>, i: nat, total: Poly, a: nat)
    requires |carry| == NWords(f) && i + 1 < NWords(f)
    requires a == Modulus(f).n + 64 * i && CarriesProgress(Modulus(f), total, w, carry, i, a)
    ensures NextReady(Modulus(f), total, w, carry, i, a, FoldLow(f, carry[i]), FoldHigh(f, carry[i]))
  {
    FoldClass(f, carry[i], 64 * i, a, 64 * i + 64);
  }

  /** The last carry word: lo goes into word i, and the fold of hi into words 0 and 1. */
  method CarryWrap(f: Field, w: array<bv64>, carry: seq<bv64>, i: nat, ghost total: Poly, ghost a: nat)
    requires w.Length == NWords(f) && |carry| == NWords(f) && 1 < NWords(f) && i + 1 == NWords(f)
    requires a == Modulus(f).n + 64 * i && CarriesProgress(Modulus(f), total, w[..], carry, i, a)
    modifies w
    ensures CarriesProgress(Modulus(f), total, w[..], carry, i + 1, a + 64)
  {
    var c := carry[i];
    var lo, hi := FoldLow(f, c), FoldHigh(f, c);
    FoldClass(f, c, 64 * i, a, 64 * i + 64);
    var lo2, hi2 := FoldLow(f, hi), FoldHigh(f, hi);
    FoldClass(f, hi, 0, Modulus(f).n, 64);
    CarryAround(Modulus(f), w, carry, i, total, a, lo, hi, lo2, hi2);
  }

  /** Carry word i, congruent to lo at X^(64 i) and hi at X^(64 i + 64), goes into words i and i + 1. */
  method CarryNext(ghost p: BinaryField.Pentanomial, w: array<bv64>, carry: seq<bv64>, i: nat, ghost total: Poly, ghost a: nat,
                   lo: bv64, hi: bv64)
    requires |carry| == w.Length && NextReady(p, total, w[..], carry, i, a, lo, hi)
    modifies w
    ensures CarriesProgress(p, total, w[..], carry, i + 1, a + 64)
  {
    ghost var w0 := w[..];
    XorTwo(w, i, lo, hi);
    CarriesNext(p, total, w0, w[..], carry, i, a, lo, hi);
  }

  /**
   * The last carry word, congruent to lo at X^(64 i) and hi at X^n, goes into word i, and
   * hi at X^n, congruent to lo2 + X^64 hi2, into words 0 and 1.
   */
  method CarryAround(ghost p: BinaryField.Pentanomial, w: array<bv64>, carry: seq<bv64>, i: nat, ghost total: Poly, ghost a: nat,
                     lo: bv64, hi: bv64, lo2: bv64, hi2: bv64)
    requires BinaryField.Valid(p) && |carry| == w.Length && 1 < w.Length && i + 1 == w.Length && p.n == 64 * w.Length
    requires CarriesProgress(p, total, w[..], carry, i, a)
    requires BinaryField.Class(p, Shift(WordBits(carry[i]), a)) == BinaryField.Class(p, P.Add(Shift(WordBits(lo), 64 * i), Shift(WordBits(hi), 64 * i + 64)))
    requires BinaryField.Class(p, Shift(WordBits(hi), p.n)) == BinaryField.Class(p, P.Add(Shift(WordBits(lo2), 0), Shift(WordBits(hi2), 64)))
    modifies w
    ensures CarriesProgress(p, total, w[..], carry, i + 1, a + 64)
  {
    ghost var w0 := w[..];
    XorThree(w, i, lo, 0, lo2, 1, hi2, 64 * i, 0, 64);
    CarriesLast(p, total, w0, w[..], carry, i, a, lo, hi, lo2, hi2, 64 * i);
  }

  /**
   * Xors u into word i and then v into word i + 1. The new state is stated through Bits alone
   * (Bits is injective, so this determines it), which keeps callers' proofs small.
   */
  method XorTwo(w: array<bv64>, i: nat, u: bv64, v: bv64)
    requires i + 1 < w.Length
    modifies w
    ensures Bits(w[..]) == P.Add(P.Add(old(Bits(w[..])), Shift(WordBits(u), 64 * i)), Shift(WordBits(v), 64 * i + 64))
  {
    ghost var w0 := w[..];
    w[i] := Xor64(w[i], u);
    ghost var w1 := w[..];
    w[i + 1] := Xor64(w[i + 1], v);
    BitsXorPair(w0, w1, w[..], i, u, 64 * i, i + 1, v, 64 * i + 64);
  }

  /** Xors u into word j, v into word k and x into word l, in that order. */
  method XorThree(w: array<bv64>, j: nat, u: bv64, k: nat, v: bv64, l: nat, x: bv64, ghost s: nat, ghost t: nat, ghost r: nat)
    requires j < w.Length && k < w.Length && l < w.Length && s == 64 * j && t == 64 * k && r == 64 * l
    modifies w
    ensures Bits(w[..]) == P.Add(P.Add(P.Add(old(Bits(w[..])), Shift(WordBits(u), s)), Shift(WordBits(v), t)), Shift(WordBits(x), r))
  {
    ghost var w0 := w[..];
    w[j] := Xor64(w[j], u);
    ghost var w1 := w[..];
    w[k] := Xor64(w[k], v);
    ghost var w2 := w[..];
    w[l] := Xor64(w[l], x);
    BitsXorTriple(w0, w1, w2, w[..], j, u, s, k, v, t, l, x, r);
  }

  /**
   * The body of the single-word loop of `propagate_carries`: FoldLow(c) goes into the word
   * and FoldHigh(c), a smaller word, is what is carried on.
   */
  method CarryRound(f: Field, w: array<bv64>, c: bv64, ghost total: Poly) returns (c': bv64)
    requires w.Length == NWords(f) == 1 && c != 0
    requires CarriesProgress(Modulus(f), total, w[..], [c], 0, Modulus(f).n)
    modifies w
    ensures CarriesProgress(Modulus(f), total, w[..], [c'], 0, Modulus(f).n)
    ensures c' as int < c as int
  {
    var p := Modulus(f);
    FoldHighShrinks(f, c);
    FoldClass(f, c, 0, p.n, p.n);
    ghost var w0 := w[..];
    w[0] := Xor64(w[0], FoldLow(f, c));
    BitsXorInto(w0, w[..], 0, FoldLow(f, c), 0);
    CarriesFold(p, total, w0, w[..], c, p.n, FoldLow(f, c), FoldHigh(f, c));
    c' := FoldHigh(f, c);
  }

  /** One word: the carry is folded into the word until nothing is carried past X^n. */
  method FoldSingle(f: Field, w: array<bv64>, carry: seq<bv64>, ghost total: Poly)
    requires w.Length == NWords(f) == 1 && |carry| == 1
    requires CarriesProgress(Modulus(f), total, w[..], carry, 0, Modulus(f).n)
    modifies w
    ensures Bits(w[..]) == BinaryField.Reduce(Modulus(f), total)
  {
    var p := Modulus(f);
    var c := carry[0];
    assert carry == [c];
    while c != 0
      invariant CarriesProgress(p, total, w[..], [c], 0, p.n)
      decreases c as int
    {
      c := CarryRound(f, w, c, total);
    }
    CarriesZero(p, total, w[..], p.n);
  }

  /** Several words: each carry word is folded in turn into the words it lands on. */
  method FoldWords(f: Field, w: array<bv64>, carry: seq<bv64>, ghost total: Poly)
    requires w.Length == NWords(f) && |carry| == NWords(f) && 1 < NWords(f)
    requires CarriesProgress(Modulus(f), total, w[..], carry, 0, Modulus(f).n)
    modifies w
    ensures Bits(w[..]) == BinaryField.Reduce(Modulus(f), total)
  {
    var p := Modulus(f);
    ghost var a := p.n;
    for i := 0 to NWords(f)
      invariant a == p.n + 64 * i
      invariant CarriesProgress(p, total, w[..], carry, i, a)
    {
      CarryWord(f, w, carry, i, total, a);
      a := a + 64;
    }
    CarriesDone(p, total, w[..], carry, a);
  }

  /**
   * `propagate_carries`: reduces the double-length value words + X^n carry. With one word,
   * the carry is folded into the word until nothing is carried past it; with more, each
   * carry word is folded into the word it lands on and the next one, and the last word's
   * overflow, which lands on X^n, is folded once more into words 0 and 1.
   */
  method PropagateCarries(f: Field, words: seq<bv64>, carry: seq<bv64>) returns (r: Element)
    requires |words| == NWords(f) && |carry| == NWords(f)
    ensures Wf(f, r) && Value(r) == BinaryField.Reduce(Modulus(f), Bits(words) + Bits(carry))
  {
    var p := Modulus(f);
    ghost var total := Bits(words) + Bits(carry);
    var w := new bv64[NWords(f)](i requires 0 <= i < NWords(f) => words[i]);
    assert w[..] == words;
    CarriesStart(p, words, carry);
    if NWords(f) == 1 {
      FoldSingle(f, w, carry, total);
    } else {
      FoldWords(f, w, carry, total);
    }
    r := Element(w[..]);
  }
}
