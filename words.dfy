/**
 * 64-bit words as polynomials over GF(2).
 *
 * Bit k of a word is the coefficient of X^k. A sequence of words denotes the polynomial
 * whose word i holds the coefficients of X^(64i) .. X^(64i+63): the least-significant word
 * comes first, as in the `words` array of a field element.
 *
 * Bit positions are `bv7` values; `ToBv` carries an integer index over to a bit position.
 */
module Words {
  import opened Poly

  /** The bit position with integer value i (modulo 128). */
  function ToBv(i: nat): bv7
  {
    if i == 0 then 0 else ToBv(i - 1) + 1
  }

  lemma {:induction false} ToBvValue(i: nat)
    requires i < 128
    ensures ToBv(i) as int == i
  {
    if i > 0 {
      ToBvValue(i - 1);
    }
  }

  lemma {:induction false} ToBvAdd(i: nat, j: nat)
    ensures ToBv(i + j) == ToBv(i) + ToBv(j)
  {
    if j > 0 {
      ToBvAdd(i, j - 1);
    }
  }

  /** Bit k of w (positions 64 and above are clear). */
  predicate Bit(w: bv64, k: bv7)
  {
    k < 64 && (w >> k) & 1 == 1
  }

  /**
   * Coefficient i of w: the low bit of w shifted right i times. Stated one shift at a
   * time, so that reading a coefficient does not need a shift by a variable amount.
   */
  predicate Coefficient(w: bv64, i: nat)
  {
    if i == 0 then w & 1 == 1 else Coefficient(w >> 1, i - 1)
  }

  /** The polynomial of one word, on 64 coefficients. */
  function WordBits(w: bv64): (r: Poly)
    ensures |r| == 64
  {
    seq(64, i requires 0 <= i < 64 => Coefficient(w, i))
  }

  /** The polynomial of a sequence of words, least-significant word first. */
  function Bits(ws: seq<bv64>): (r: Poly)
    ensures |r| == 64 * |ws|
  {
    if |ws| == 0 then [] else WordBits(ws[0]) + Bits(ws[1..])
  }

  /* ---- Bit positions ---- */

  lemma ToBvIs(i: nat)
    requires i < 128
    ensures ToBv(i) == i as bv7
  {
    ToBvValue(i);
  }

  /** The position of a literal index. */
  lemma ToBvLit(i: nat, k: bv7)
    requires i < 128 && k as int == i
    ensures ToBv(i) == k
  {
    ToBvValue(i);
  }

  lemma ToBvLt(i: nat, m: bv7)
    requires i < m as int
    ensures ToBv(i) < m
  {
    ToBvValue(i);
  }

  lemma ToBvLe(i: nat, j: nat)
    requires i < 128 && j < 128
    ensures (ToBv(i) <= ToBv(j)) == (i <= j)
  {
    ToBvValue(i);
    ToBvValue(j);
  }

  /* ---- Coefficients are bits ---- */

  lemma BitShr1(w: bv64, k: bv7)
    requires k < 63
    ensures Bit(w >> 1, k) == Bit(w, k + 1)
  {
  }

  /** Coefficient i of w is bit i of w. */
  lemma {:induction false} CoefficientIsBit(w: bv64, i: nat)
    requires i < 64
    ensures Coefficient(w, i) == Bit(w, ToBv(i))
  {
    if i > 0 {
      CoefficientIsBit(w >> 1, i - 1);
      ToBvLt(i - 1, 63);
      BitShr1(w, ToBv(i - 1));
    }
  }

  lemma WordBitsAt(w: bv64, i: nat)
    requires i < 64
    ensures WordBits(w)[i] == Bit(w, ToBv(i))
  {
    CoefficientIsBit(w, i);
  }

  /* ---- Exclusive or is polynomial addition ---- */

  /**
   * Exclusive or of words, as a function: proofs that name the partial xors of a
   * chain relate them by congruence instead of bit by bit.
   */
  function Xor64(x: bv64, y: bv64): bv64
  {
    x ^ y
  }

  lemma BitXor(a: bv64, b: bv64, k: bv7)
    ensures Bit(a ^ b, k) == (Bit(a, k) != Bit(b, k))
  {
  }

  lemma ShrXor(a: bv64, b: bv64)
    ensures (a ^ b) >> 1 == (a >> 1) ^ (b >> 1)
  {
  }

  lemma CoefficientXor(a: bv64, b: bv64, i: nat)
    requires i < 64
    ensures Coefficient(a ^ b, i) == (Coefficient(a, i) != Coefficient(b, i))
  {
    var k := ToBv(i);
    CoefficientIsBit(a ^ b, i);
    CoefficientIsBit(a, i);
    CoefficientIsBit(b, i);
    BitXor(a, b, k);
    CoefficientXorGlue(a, b, i, k);
  }

  lemma CoefficientXorGlue(a: bv64, b: bv64, i: nat, k: bv7)
    requires Coefficient(a ^ b, i) == Bit(a ^ b, k)
    requires Coefficient(a, i) == Bit(a, k) && Coefficient(b, i) == Bit(b, k)
    requires Bit(a ^ b, k) == (Bit(a, k) != Bit(b, k))
    ensures Coefficient(a ^ b, i) == (Coefficient(a, i) != Coefficient(b, i))
  {
  }

  lemma XorAt(a: bv64, b: bv64, i: nat)
    requires i < 64
    ensures WordBits(Xor64(a, b))[i] == (WordBits(a)[i] != WordBits(b)[i])
  {
    CoefficientXor(a, b, i);
  }

  lemma Xor64Bits(a: bv64, b: bv64)
    ensures WordBits(Xor64(a, b)) == Add(WordBits(a), WordBits(b))
  {
    var r := Add(WordBits(a), WordBits(b));
    forall i | 0 <= i < 64
      ensures WordBits(Xor64(a, b))[i] == r[i]
    {
      XorAt(a, b, i);
      assert Coef(WordBits(a), i) == WordBits(a)[i];
      assert Coef(WordBits(b), i) == WordBits(b)[i];
    }
  }

  lemma WordBitsXor(a: bv64, b: bv64)
    ensures WordBits(a ^ b) == Add(WordBits(a), WordBits(b))
  {
    Xor64Bits(a, b);
  }

  /* ---- Shifting left by one bit, with a carried-in bit ---- */

  lemma BitShl1Succ(d: bv64, c: bv64, k: bv7)
    requires c <= 1 && k < 63
    ensures Bit((d << 1) ^ c, k + 1) == Bit(d, k)
  {
  }

  lemma BitShl1Zero(d: bv64, c: bv64)
    requires c <= 1
    ensures Bit((d << 1) ^ c, 0) == (c == 1)
  {
  }

  lemma Shl1At(d: bv64, c: bv64, i: nat)
    requires c <= 1 && 0 < i < 64
    ensures WordBits((d << 1) ^ c)[i] == WordBits(d)[i - 1]
  {
    var j := i - 1;
    ToBvLt(j, 63);
    WordBitsAt((d << 1) ^ c, i);
    WordBitsAt(d, j);
    BitShl1Succ(d, c, ToBv(j));
  }

  /** `(d << 1) ^ c` is d times X, with the bit c carried in at X^0 and the top bit dropped. */
  lemma WordBitsShl1(d: bv64, c: bv64)
    requires c <= 1
    ensures WordBits((d << 1) ^ c) == [c == 1] + WordBits(d)[..63]
  {
    var r := [c == 1] + WordBits(d)[..63];
    forall i | 0 <= i < 64
      ensures WordBits((d << 1) ^ c)[i] == r[i]
    {
      if i > 0 {
        Shl1At(d, c, i);
      } else {
        WordBitsAt((d << 1) ^ c, 0);
        BitShl1Zero(d, c);
      }
    }
  }

  lemma BitShr63(d: bv64)
    ensures d >> 63 <= 1 && ((d >> 63) == 1) == Bit(d, 63)
  {
  }

  /** `d >> 63` is the top coefficient of d, as a word 0 or 1. */
  lemma WordBitsShr63(d: bv64)
    ensures d >> 63 <= 1 && ((d >> 63) == 1) == WordBits(d)[63]
  {
    var k := ToBv(63);
    ToBvIs(63);
    WordBitsAt(d, 63);
    BitShr63(d);
  }

  /* ---- Constants and single-bit masks ---- */

  lemma WordBitsZero()
    ensures WordBits(0) == Zero(64)
  {
    forall i | 0 <= i < 64
      ensures WordBits(0)[i] == Zero(64)[i]
    {
      WordBitsAt(0, i);
    }
  }

  lemma BitOne(k: bv7)
    ensures Bit(1, k) == (k == 0)
  {
  }

  lemma WordBitsOne()
    ensures WordBits(1) == Resize([true], 64)
  {
    forall i | 0 <= i < 64
      ensures WordBits(1)[i] == Resize([true], 64)[i]
    {
      ToBvValue(i);
      WordBitsAt(1, i);
      BitOne(ToBv(i));
    }
  }

  /** Whether w and m have a set bit in common: `w & m != 0`. */
  predicate Overlaps(w: bv64, m: bv64)
  {
    w & m != 0
  }

  /** Testing `w & (1 << k)` reads bit k. */
  lemma MaskBit(w: bv64, k: bv7)
    requires k < 64
    ensures Overlaps(w, 1 << k) == Bit(w, k)
  {
  }

  /** Shifting a one by an integer amount and by the matching bit position agree. */
  lemma OneShl(i: nat, k: bv7)
    requires i < 64 && k == i as bv7
    ensures (1 as bv64) << i == (1 as bv64) << k
  {
  }

  /** Testing `w & (1 << i)` reads coefficient i of w. */
  lemma MaskAt(w: bv64, i: nat)
    requires i < 64
    ensures Overlaps(w, 1 << i) == WordBits(w)[i]
  {
    var k := ToBv(i);
    ToBvIs(i);
    OneShl(i, k);
    WordBitsAt(w, i);
    MaskBit(w, k);
  }

  /** `a & (1 << i) != 0`: coefficient i of a. */
  function BitSet(a: bv64, i: nat): (r: bool)
    requires i < 64
    ensures r == WordBits(a)[i]
  {
    MaskAt(a, i);
    Overlaps(a, 1 << i)
  }

  /* ---- Sequences of words ---- */

  lemma BitsSingle(w: bv64)
    ensures Bits([w]) == WordBits(w)
  {
    assert [w][1..] == [];
  }

  lemma {:induction false} BitsAppend(ws: seq<bv64>, vs: seq<bv64>)
    ensures Bits(ws + vs) == Bits(ws) + Bits(vs)
    decreases |ws|
  {
    if |ws| > 0 {
      assert (ws + vs)[1..] == ws[1..] + vs;
      BitsAppend(ws[1..], vs);
    } else {
      assert ws + vs == vs;
    }
  }

  /** Coefficient 64j + k of a word sequence is bit k of word j. */
  lemma {:induction false} BitsAt(ws: seq<bv64>, j: nat, k: nat)
    requires j < |ws| && k < 64
    ensures Bits(ws)[64 * j + k] == WordBits(ws[j])[k]
    decreases j
  {
    if j > 0 {
      BitsAt(ws[1..], j - 1, k);
    }
  }

  /** The all-zero word sequence is the zero polynomial. */
  lemma {:induction false} BitsZeros(n: nat)
    ensures Bits(seq(n, _ => 0)) == Zero(64 * n)
  {
    if n > 0 {
      var z := seq(n, _ => 0 as bv64);
      assert z[1..] == seq(n - 1, _ => 0);
      BitsZeros(n - 1);
      WordBitsZero();
      assert Zero(64) + Zero(64 * (n - 1)) == Zero(64 * n);
    }
  }

  lemma BitsXorAtPoint(ws: seq<bv64>, j: nat, v: bv64, q: nat, k: nat)
    requires j < |ws| && q < |ws| && k < 64
    ensures Bits(ws[j := Xor64(ws[j], v)])[64 * q + k]
         == (Bits(ws)[64 * q + k] != Coef(Shift(WordBits(v), 64 * j), 64 * q + k))
  {
    var us := ws[j := Xor64(ws[j], v)];
    BitsAt(us, q, k);
    BitsAt(ws, q, k);
    ShiftedWordAt(v, j, q, k);
    if q == j {
      XorAt(ws[j], v, k);
    }
  }

  lemma ShiftedWordAt(v: bv64, j: nat, q: nat, k: nat)
    requires k < 64
    ensures Coef(Shift(WordBits(v), 64 * j), 64 * q + k) == (q == j && WordBits(v)[k])
  {
    if q < j {
      assert 64 * q + k < 64 * j;
    } else if q > j {
      assert 64 * q + k - 64 * j >= 64;
    }
  }

  lemma DivMod64(t: nat)
    ensures t == 64 * (t / 64) + t % 64 && t % 64 < 64
  {
  }

  /** Xor-ing v into word j adds v times X^s, where s = 64 j. */
  lemma BitsXorAt(ws: seq<bv64>, j: nat, v: bv64, s: nat)
    requires j < |ws| && s == 64 * j
    ensures Bits(ws[j := Xor64(ws[j], v)]) == Add(Bits(ws), Shift(WordBits(v), s))
  {
    var us := ws[j := Xor64(ws[j], v)];
    var r := Add(Bits(ws), Shift(WordBits(v), 64 * j));
    forall t | 0 <= t < 64 * |ws|
      ensures Bits(us)[t] == r[t]
    {
      DivMod64(t);
      var q, k := t / 64, t % 64;
      BitsXorAtPoint(ws, j, v, q, k);
      assert Coef(Bits(ws), t) == Bits(ws)[t];
    }
  }

  /** The words from i on are word i followed by the words from i + 1 on. */
  lemma BitsFrom(ws: seq<bv64>, i: nat)
    requires i < |ws|
    ensures Bits(ws[i..]) == WordBits(ws[i]) + Bits(ws[i + 1..])
  {
    assert ws[i..][1..] == ws[i + 1..];
  }

  /** BitsXorAt, for a sequence us named by the caller. */
  lemma BitsXorInto(ws: seq<bv64>, us: seq<bv64>, j: nat, v: bv64, s: nat)
    requires j < |ws| && s == 64 * j && us == ws[j := Xor64(ws[j], v)]
    ensures Bits(us) == Add(Bits(ws), Shift(WordBits(v), s))
  {
    BitsXorAt(ws, j, v, s);
  }

  /** Xor-ing u into word j and then v into word k adds u X^s and v X^t. */
  lemma BitsXorPair(w0: seq<bv64>, w1: seq<bv64>, w2: seq<bv64>, j: nat, u: bv64, s: nat, k: nat, v: bv64, t: nat)
    requires j < |w0| && s == 64 * j && k < |w0| && t == 64 * k
    requires w1 == w0[j := Xor64(w0[j], u)] && w2 == w1[k := Xor64(w1[k], v)]
    ensures Bits(w2) == Add(Add(Bits(w0), Shift(WordBits(u), s)), Shift(WordBits(v), t))
  {
    BitsXorInto(w0, w1, j, u, s);
    BitsXorInto(w1, w2, k, v, t);
  }

  /** Three words xored in turn, as in BitsXorPair. */
  lemma BitsXorTriple(w0: seq<bv64>, w1: seq<bv64>, w2: seq<bv64>, w3: seq<bv64>, j: nat, u: bv64, s: nat,
                      k: nat, v: bv64, t: nat, l: nat, x: bv64, r: nat)
    requires j < |w0| && s == 64 * j && k < |w0| && t == 64 * k && l < |w0| && r == 64 * l
    requires w1 == w0[j := Xor64(w0[j], u)] && w2 == w1[k := Xor64(w1[k], v)] && w3 == w2[l := Xor64(w2[l], x)]
    ensures Bits(w3) == Add(Add(Add(Bits(w0), Shift(WordBits(u), s)), Shift(WordBits(v), t)), Shift(WordBits(x), r))
  {
    BitsXorPair(w0, w1, w2, j, u, s, k, v, t);
    BitsXorInto(w2, w3, l, x, r);
  }

  /* ---- A word is determined by its bits ---- */

  /** The mask of the n lowest bits. */
  function LowMask(n: nat): bv64
    requires n <= 64
  {
    if n == 0 then 0 else ToBvLt(n - 1, 64); LowMask(n - 1) | (1 << ToBv(n - 1))
  }

  lemma AndOr(x: bv64, m: bv64, n: bv64)
    requires x & m == 0 && x & n == 0
    ensures x & (m | n) == 0
  {
  }

  lemma ClearStep(x: bv64, m: bv64, t: bv7)
    requires t < 64 && x & m == 0 && !Bit(x, t)
    ensures x & (m | (1 << t)) == 0
  {
    MaskBit(x, t);
    AndOr(x, m, 1 << t);
  }

  lemma {:induction false} ClearBelow(x: bv64, i: nat)
    requires i <= 64
    requires forall k: bv7 | k < 64 :: !Bit(x, k)
    ensures x & LowMask(i) == 0
  {
    if i > 0 {
      var j := i - 1;
      ClearBelow(x, j);
      ToBvLt(j, 64);
      ClearStep(x, LowMask(j), ToBv(j));
    }
  }

  lemma MaskSucc(t: bv7, m: bv64)
    requires t < 64 && m == (1 << t) - 1
    ensures m | (1 << t) == (1 << (t + 1)) - 1
  {
  }

  lemma {:induction false} LowMaskClosed(n: nat)
    requires n <= 64
    ensures ToBv(n) <= 64
    ensures LowMask(n) == (1 << ToBv(n)) - 1
  {
    ToBvLt(n, 65);
    if n > 0 {
      var j := n - 1;
      LowMaskClosed(j);
      ToBvLt(j, 64);
      MaskSucc(ToBv(j), LowMask(j));
    }
  }

  lemma ClearWord(x: bv64)
    requires forall k: bv7 | k < 64 :: !Bit(x, k)
    ensures x == 0
  {
    ClearBelow(x, 64);
    LowMaskClosed(64);
    ToBvIs(64);
  }

  lemma ToBvOfBv(k: bv7)
    ensures ToBv(k as int) == k
  {
    ToBvIs(k as int);
  }

  lemma XorZero(a: bv64, b: bv64)
    requires a ^ b == 0
    ensures a == b
  {
  }

  lemma SameBit(a: bv64, b: bv64, k: bv7)
    requires k < 64 && WordBits(a) == WordBits(b)
    ensures Bit(a, k) == Bit(b, k)
  {
    var i := k as int;
    ToBvOfBv(k);
    WordBitsAt(a, i);
    WordBitsAt(b, i);
    assert WordBits(a)[i] == WordBits(b)[i];
  }

  /** Two words with the same bits are the same word. */
  lemma WordBitsInjective(a: bv64, b: bv64)
    requires WordBits(a) == WordBits(b)
    ensures a == b
  {
    forall k: bv7 | k < 64
      ensures !Bit(Xor64(a, b), k)
    {
      SameBit(a, b, k);
      BitXor(a, b, k);
    }
    ClearWord(Xor64(a, b));
    XorZero(a, b);
  }

  /** Two word sequences of the same length with the same polynomial are equal. */
  lemma {:induction false} BitsInjective(ws: seq<bv64>, vs: seq<bv64>)
    requires |ws| == |vs| && Bits(ws) == Bits(vs)
    ensures ws == vs
  {
    if |ws| > 0 {
      assert Bits(ws)[..64] == WordBits(ws[0]);
      assert Bits(vs)[..64] == WordBits(vs[0]);
      WordBitsInjective(ws[0], vs[0]);
      assert Bits(ws)[64..] == Bits(ws[1..]);
      assert Bits(vs)[64..] == Bits(vs[1..]);
      BitsInjective(ws[1..], vs[1..]);
      assert ws == [ws[0]] + ws[1..];
      assert vs == [vs[0]] + vs[1..];
    }
  }

  /* ---- Word-wise operations on sequences ---- */

  /** n zero words: `[0; n]`. */
  function Zeros(n: nat): (r: seq<bv64>)
    ensures |r| == n && Bits(r) == Zero(64 * n)
  {
    BitsZeros(n);
    seq(n, _ => 0)
  }

  /** The word-wise exclusive or of two word sequences of equal length. */
  function XorWords(xs: seq<bv64>, ys: seq<bv64>): (r: seq<bv64>)
    requires |xs| == |ys|
    ensures |r| == |xs|
    ensures forall i | 0 <= i < |xs| :: r[i] == Xor64(xs[i], ys[i])
  {
    if |xs| == 0 then [] else [Xor64(xs[0], ys[0])] + XorWords(xs[1..], ys[1..])
  }

  /** A sequence whose every word is the xor of the matching words is their XorWords. */
  lemma XorWordsIs(xs: seq<bv64>, ys: seq<bv64>, zs: seq<bv64>)
    requires |xs| == |ys| == |zs|
    requires forall k | 0 <= k < |zs| :: zs[k] == Xor64(xs[k], ys[k])
    ensures zs == XorWords(xs, ys)
  {
  }

  /** Word-wise exclusive or is addition of the polynomials. */
  lemma {:induction false} BitsXorWords(xs: seq<bv64>, ys: seq<bv64>)
    requires |xs| == |ys|
    ensures Bits(XorWords(xs, ys)) == Add(Bits(xs), Bits(ys))
  {
    if |xs| > 0 {
      var h := Xor64(xs[0], ys[0]);
      var t := XorWords(xs[1..], ys[1..]);
      assert XorWords(xs, ys) == [h] + t;
      assert ([h] + t)[1..] == t;
      BitsXorWords(xs[1..], ys[1..]);
      Xor64Bits(xs[0], ys[0]);
      AddConcat(WordBits(xs[0]), Bits(xs[1..]), WordBits(ys[0]), Bits(ys[1..]));
    }
  }

  /** `(d << 1) ^ carry`: d shifted up by a bit, with the carried-in bit at the bottom. */
  function ShiftIn(d: bv64, carry: bv64): bv64
  {
    (d << 1) ^ carry
  }

  /** `d >> 63`: the top bit of d, carried out. */
  function TopBit(d: bv64): bv64
  {
    d >> 63
  }

  /** The coefficients of `ShiftIn(d, carry)` and of `TopBit(d)`. */
  lemma ShiftInBits(d: bv64, carry: bv64)
    requires carry <= 1
    ensures WordBits(ShiftIn(d, carry)) == [carry == 1] + WordBits(d)[..63]
    ensures TopBit(d) <= 1 && (TopBit(d) == 1) == WordBits(d)[63]
  {
    WordBitsShl1(d, carry);
    WordBitsShr63(d);
  }

  /**
   * One step of shifting a word sequence left by a bit: the word d becomes
   * `ShiftIn(d, carry)` and its top bit is carried into the next word.
   */
  lemma ShiftWordIn(pre: seq<bv64>, old_pre: seq<bv64>, carry: bv64, d: bv64)
    requires carry <= 1
    requires Bits(pre) + [carry == 1] == [false] + Bits(old_pre)
    ensures TopBit(d) <= 1
    ensures Bits(pre + [ShiftIn(d, carry)]) + [TopBit(d) == 1] == [false] + Bits(old_pre + [d])
  {
    var e := ShiftIn(d, carry);
    ShiftInBits(d, carry);
    BitsAppend(pre, [e]);
    BitsSingle(e);
    BitsAppend(old_pre, [d]);
    BitsSingle(d);
    CarryOut(Bits(pre), Bits(old_pre), carry == 1, WordBits(d), WordBits(e), TopBit(d) == 1);
  }

  lemma ByteBit(b: bv8, k: bv7)
    requires 8 <= k
    ensures !Bit(b as bv64, k)
  {
  }

  /** A byte widened to a word has no coefficient at X^8 or above. */
  lemma ByteDegree(b: bv8, i: nat)
    requires 8 <= i < 64
    ensures !WordBits(b as bv64)[i]
  {
    ToBvLe(8, i);
    ToBvLit(8, 8);
    WordBitsAt(b as bv64, i);
    ByteBit(b, ToBv(i));
  }
}
