/**
 * Polynomials over GF(2).
 *
 * A polynomial is a sequence of booleans: index i holds the coefficient of X^i.
 * Trailing `false` entries do not change the polynomial, so most facts are stated
 * with `Eqv` ("same coefficients"), and exact equality is used where the lengths agree.
 * Carry-less multiplication `ClMul` is the polynomial product that the hardware
 * instructions PCLMULQDQ and PMULL compute on 64-bit operands.
 */
module Poly {

  type Poly = seq<bool>

  /** Coefficient of X^i; zero beyond the stored length. */
  function Coef(u: Poly, i: int): bool
  {
    0 <= i < |u| && u[i]
  }

  /** u and v denote the same polynomial. */
  ghost predicate Eqv(u: Poly, v: Poly)
  {
    forall i :: Coef(u, i) == Coef(v, i)
  }

  /** Two representations of the same length that denote the same polynomial are equal. */
  lemma Ext(u: Poly, v: Poly)
    requires |u| == |v| && Eqv(u, v)
    ensures u == v
  {
    forall i | 0 <= i < |u|
      ensures u[i] == v[i]
    {
      assert Coef(u, i) == Coef(v, i);
    }
  }

  function Max(a: nat, b: nat): nat
  {
    if a < b then b else a
  }

  /** The zero polynomial, stored on k coefficients. */
  function Zero(k: nat): (r: Poly)
    ensures |r| == k
    ensures forall i :: !Coef(r, i)
  {
    seq(k, _ => false)
  }

  /** Sum (coefficient-wise exclusive or). */
  function Add(u: Poly, v: Poly): (r: Poly)
    ensures |r| == Max(|u|, |v|)
    ensures forall i :: Coef(r, i) == (Coef(u, i) != Coef(v, i))
  {
    seq(Max(|u|, |v|), i => Coef(u, i) != Coef(v, i))
  }

  /** Product with the constant b. */
  function Scale(b: bool, u: Poly): (r: Poly)
    ensures |r| == |u|
    ensures forall i :: Coef(r, i) == (b && Coef(u, i))
  {
    seq(|u|, i requires 0 <= i < |u| => b && u[i])
  }

  /** Product with X^k. */
  function Shift(u: Poly, k: nat): (r: Poly)
    ensures |r| == |u| + k
    ensures forall i :: Coef(r, i) == (k <= i && Coef(u, i - k))
  {
    Zero(k) + u
  }

  /** The coefficients of u below X^k, stored on exactly k entries. */
  function Resize(u: Poly, k: nat): (r: Poly)
    ensures |r| == k
    ensures forall i :: Coef(r, i) == (i < k && Coef(u, i))
  {
    seq(k, i => Coef(u, i))
  }

  /** Coefficient of X^0, and the polynomial divided by X (remainder dropped). */
  function Head(u: Poly): bool
  {
    Coef(u, 0)
  }

  function Tail(u: Poly): (r: Poly)
    ensures forall i :: Coef(r, i) == (0 <= i && Coef(u, i + 1))
  {
    if |u| == 0 then [] else u[1..]
  }

  /** Every polynomial is its constant term plus X times its tail. */
  lemma HeadTail(u: Poly)
    ensures Eqv(u, Add(Scale(Head(u), [true]), Shift(Tail(u), 1)))
  {
  }

  /**
   * Carry-less product: the sum of the shifted copies X^i * v over the set
   * coefficients i of u. Its storage length is |u| + |v|.
   */
  function ClMul(u: Poly, v: Poly): (r: Poly)
    ensures |r| == |u| + |v|
    decreases |u|
  {
    if |u| == 0 then Zero(|v|) else Add(Scale(u[0], v), Shift(ClMul(u[1..], v), 1))
  }

  /** The defining recursion of ClMul also holds on the empty polynomial. */
  lemma ClMulUnfold(u: Poly, v: Poly)
    ensures Eqv(ClMul(u, v), Add(Scale(Head(u), v), Shift(ClMul(Tail(u), v), 1)))
  {
  }

  /** A carry-less product has degree below |u| + |v| - 1: its top stored coefficient is zero. */
  lemma {:induction false} ClMulDegree(u: Poly, v: Poly, k: int)
    requires k >= |u| + |v| - 1
    ensures !Coef(ClMul(u, v), k)
    decreases |u|
  {
    if |u| > 0 {
      ClMulDegree(u[1..], v, k - 1);
      assert ClMul(u, v) == Add(Scale(u[0], v), Shift(ClMul(u[1..], v), 1));
    }
  }

  /** ClMul only depends on the polynomials, not on their representations. */
  lemma {:induction false} ClMulCongr(u: Poly, u': Poly, v: Poly, v': Poly)
    requires Eqv(u, u') && Eqv(v, v')
    ensures Eqv(ClMul(u, v), ClMul(u', v'))
    decreases |u| + |u'|
  {
    ClMulUnfold(u, v);
    ClMulUnfold(u', v');
    if |u| + |u'| > 0 {
      ClMulCongr(Tail(u), Tail(u'), v, v');
    }
  }

  lemma {:induction false} ClMulZeroLeft(u: Poly, v: Poly)
    requires Eqv(u, [])
    ensures Eqv(ClMul(u, v), [])
  {
    ClMulCongr(u, [], v, v);
  }

  lemma {:induction false} ClMulZeroRight(u: Poly, v: Poly)
    requires Eqv(v, [])
    ensures Eqv(ClMul(u, v), [])
    decreases |u|
  {
    if |u| > 0 {
      ClMulZeroRight(u[1..], v);
    }
  }

  lemma ClMulOneLeft(v: Poly)
    ensures Eqv(ClMul([true], v), v)
  {
    assert [true][1..] == [];
  }

  lemma {:induction false} ClMulScaleLeft(b: bool, u: Poly, v: Poly)
    ensures Eqv(ClMul(Scale(b, u), v), Scale(b, ClMul(u, v)))
    decreases |u|
  {
    if |u| > 0 {
      assert Scale(b, u)[1..] == Scale(b, u[1..]);
      ClMulScaleLeft(b, u[1..], v);
    }
  }

  lemma ShiftSucc(u: Poly, k: nat)
    requires k > 0
    ensures Shift(u, k) == [false] + Shift(u, k - 1)
  {
    assert Zero(k) == [false] + Zero(k - 1);
  }

  lemma ShiftEqvShift(a: Poly, b: Poly, j: nat)
    requires Eqv(a, Shift(b, j))
    ensures Eqv(Shift(a, 1), Shift(b, j + 1))
  {
    forall i
      ensures Coef(Shift(a, 1), i) == Coef(Shift(b, j + 1), i)
    {
      assert Coef(a, i - 1) == Coef(Shift(b, j), i - 1);
    }
  }

  lemma ClMulXLeft(u: Poly, v: Poly)
    ensures Eqv(ClMul([false] + u, v), Shift(ClMul(u, v), 1))
  {
    assert ([false] + u)[1..] == u;
  }

  lemma {:induction false} ClMulShiftLeft(u: Poly, k: nat, v: Poly)
    ensures Eqv(ClMul(Shift(u, k), v), Shift(ClMul(u, v), k))
    decreases k
  {
    if k > 0 {
      var w := Shift(u, k - 1);
      ShiftSucc(u, k);
      ClMulXLeft(w, v);
      ClMulShiftLeft(u, k - 1, v);
      ShiftEqvShift(ClMul(w, v), ClMul(u, v), k - 1);
    } else {
      assert Shift(u, 0) == u;
    }
  }

  /** ClMul distributes over Add on the right. */
  lemma {:induction false} ClMulAddRight(u: Poly, v: Poly, w: Poly)
    ensures Eqv(ClMul(u, Add(v, w)), Add(ClMul(u, v), ClMul(u, w)))
    decreases |u|
  {
    if |u| > 0 {
      ClMulAddRight(u[1..], v, w);
    }
  }

  lemma {:induction false} ClMulScaleRight(u: Poly, b: bool, v: Poly)
    ensures Eqv(ClMul(u, Scale(b, v)), Scale(b, ClMul(u, v)))
    decreases |u|
  {
    if |u| > 0 {
      ClMulScaleRight(u[1..], b, v);
    }
  }

  lemma {:induction false} ClMulShiftRight(u: Poly, v: Poly, k: nat)
    ensures Eqv(ClMul(u, Shift(v, k)), Shift(ClMul(u, v), k))
    decreases |u|
  {
    if |u| > 0 {
      ClMulShiftRight(u[1..], v, k);
    }
  }

  lemma {:induction false} ClMulConstRight(u: Poly, b: bool)
    ensures Eqv(ClMul(u, [b]), Scale(b, u))
    decreases |u|
  {
    if |u| > 0 {
      ClMulConstRight(u[1..], b);
    }
  }

  /** Carry-less multiplication is commutative. */
  lemma {:induction false} ClMulComm(u: Poly, v: Poly)
    ensures Eqv(ClMul(u, v), ClMul(v, u))
    decreases |u|
  {
    if |u| > 0 {
      var t := u[1..];
      ClMulComm(t, v);
      HeadTail(u);
      ClMulCongr(v, v, u, Add(Scale(u[0], [true]), Shift(t, 1)));
      ClMulAddRight(v, Scale(u[0], [true]), Shift(t, 1));
      ClMulScaleRight(v, u[0], [true]);
      ClMulConstRight(v, true);
      ClMulShiftRight(v, t, 1);
    } else {
      ClMulZeroRight(v, u);
    }
  }

  /** ClMul distributes over Add on the left. */
  lemma ClMulAddLeft(u: Poly, w: Poly, v: Poly)
    ensures Eqv(ClMul(Add(u, w), v), Add(ClMul(u, v), ClMul(w, v)))
  {
    ClMulComm(Add(u, w), v);
    ClMulAddRight(v, u, w);
    ClMulComm(v, u);
    ClMulComm(v, w);
  }

  /** Carry-less multiplication is associative. */
  lemma {:induction false} ClMulAssoc(u: Poly, v: Poly, w: Poly)
    ensures Eqv(ClMul(ClMul(u, v), w), ClMul(u, ClMul(v, w)))
    decreases |u|
  {
    if |u| > 0 {
      var t := u[1..];
      var tv := ClMul(t, v);
      ClMulAddLeft(Scale(u[0], v), Shift(tv, 1), w);
      ClMulScaleLeft(u[0], v, w);
      ClMulShiftLeft(tv, 1, w);
      ClMulAssoc(t, v, w);
    } else {
      ClMulZeroLeft(ClMul(u, v), w);
    }
  }

  lemma ClMulSingle(h: bool, v: Poly)
    ensures Eqv(ClMul([h], v), Scale(h, v))
  {
    assert [h][1..] == [];
  }

  lemma ShiftCongr(x: Poly, y: Poly, k: nat)
    requires Eqv(x, y)
    ensures Eqv(Shift(x, k), Shift(y, k))
  {
    forall i
      ensures Coef(Shift(x, k), i) == Coef(Shift(y, k), i)
    {
      assert Coef(x, i - k) == Coef(y, i - k);
    }
  }

  /** Appending a top coefficient h to u adds h X^|u| v to the product. */
  lemma ClMulAppend(u: Poly, h: bool, v: Poly)
    ensures Eqv(ClMul(u + [h], v), Add(ClMul(u, v), Scale(h, Shift(v, |u|))))
  {
    var k := |u|;
    var s := Shift([h], k);
    var a := Add(u, s);
    assert Eqv(u + [h], a);
    ClMulCongr(u + [h], a, v, v);
    ClMulAddLeft(u, s, v);
    ClMulShiftLeft([h], k, v);
    ClMulSingle(h, v);
    ShiftCongr(ClMul([h], v), Scale(h, v), k);
    forall i
      ensures Coef(ClMul(u + [h], v), i) == Coef(Add(ClMul(u, v), Scale(h, Shift(v, k))), i)
    {
      assert Coef(ClMul(u + [h], v), i) == Coef(ClMul(a, v), i);
      assert Coef(ClMul(a, v), i) == (Coef(ClMul(u, v), i) != Coef(ClMul(s, v), i));
      assert Coef(ClMul(s, v), i) == Coef(Shift(ClMul([h], v), k), i);
      assert Coef(Shift(ClMul([h], v), k), i) == Coef(Shift(Scale(h, v), k), i);
    }
  }

  /** The product with the first i + 1 coefficients of u, from the product with the first i. */
  lemma ClMulPrefix(u: Poly, v: Poly, i: nat)
    requires i < |u|
    ensures Eqv(ClMul(u[..i + 1], v), Add(ClMul(u[..i], v), Scale(u[i], Shift(v, i))))
  {
    assert u[..i + 1] == u[..i] + [u[i]];
    ClMulAppend(u[..i], u[i], v);
  }

  /** Addition of two concatenations whose first parts have equal lengths. */
  lemma AddConcat(a1: Poly, a2: Poly, b1: Poly, b2: Poly)
    requires |a1| == |b1| && |a2| == |b2|
    ensures Add(a1 + a2, b1 + b2) == Add(a1, b1) + Add(a2, b2)
  {
    var l, r := Add(a1 + a2, b1 + b2), Add(a1, b1) + Add(a2, b2);
    forall i | 0 <= i < |l|
      ensures l[i] == r[i]
    {
      assert Coef(l, i) == (Coef(a1 + a2, i) != Coef(b1 + b2, i));
      if i < |a1| {
        assert Coef(Add(a1, b1), i) == r[i];
      } else {
        assert Coef(Add(a2, b2), i - |a1|) == r[i];
      }
    }
  }

  /**
   * Shifting a polynomial up by one coefficient across a split point: if x, with one
   * coefficient c carried out, is y shifted up by one, then appending d to y shifts
   * into x appended with [c] + d[..n-1], carrying out the top coefficient of d.
   */
  lemma CarryOut(x: Poly, y: Poly, c: bool, d: Poly, e: Poly, c': bool)
    requires |d| > 0 && x + [c] == [false] + y
    requires e == [c] + d[..|d| - 1] && c' == d[|d| - 1]
    ensures (x + e) + [c'] == [false] + (y + d)
  {
    var l, r := (x + e) + [c'], [false] + (y + d);
    assert |l| == |r|;
    forall t | 0 <= t < |l|
      ensures l[t] == r[t]
    {
      if t < |x| {
        assert l[t] == (x + [c])[t];
      } else if t == |x| {
        assert (x + [c])[t] == c;
      } else if t < |x| + |e| {
        assert l[t] == e[t - |x|];
      }
    }
  }

  /** The coefficient shifted out at the top. */
  lemma ShiftedOut(x: Poly, y: Poly, c: bool)
    requires |y| > 0 && x + [c] == [false] + y
    ensures x == [false] + y[..|y| - 1] && c == y[|y| - 1]
  {
    assert x == (x + [c])[..|x|];
    assert c == (x + [c])[|x|];
  }

  /** A concatenation is its low part plus its high part shifted past the low part. */
  lemma ConcatAdd(lo: Poly, hi: Poly)
    ensures Eqv(lo + hi, Add(lo, Shift(hi, |lo|)))
  {
    forall i
      ensures Coef(lo + hi, i) == Coef(Add(lo, Shift(hi, |lo|)), i)
    {
      if 0 <= i < |lo| {
        assert Coef(lo + hi, i) == lo[i];
      } else if |lo| <= i < |lo| + |hi| {
        assert Coef(lo + hi, i) == hi[i - |lo|];
      }
    }
  }

  /** Shifts by amounts written differently but equal are the same polynomial. */
  lemma ShiftBy(u: Poly, j: nat, k: nat)
    requires j == k
    ensures Shift(u, j) == Shift(u, k)
  {
  }

  lemma ShiftShift(u: Poly, j: nat, k: nat)
    ensures Eqv(Shift(Shift(u, j), k), Shift(u, j + k))
  {
  }

  lemma ShiftAdd(u: Poly, v: Poly, k: nat)
    ensures Eqv(Shift(Add(u, v), k), Add(Shift(u, k), Shift(v, k)))
  {
  }

  lemma AddComm(u: Poly, v: Poly)
    ensures Add(u, v) == Add(v, u)
  {
    Ext(Add(u, v), Add(v, u));
  }

  lemma AddAssoc(u: Poly, v: Poly, w: Poly)
    ensures Add(Add(u, v), w) == Add(u, Add(v, w))
  {
    Ext(Add(Add(u, v), w), Add(u, Add(v, w)));
  }

  /** Adding v twice gives back u. */
  lemma AddCancel(u: Poly, v: Poly)
    requires |v| <= |u|
    ensures Add(Add(u, v), v) == u
  {
    Ext(Add(Add(u, v), v), u);
  }

  lemma AddSelf(u: Poly)
    ensures Add(u, u) == Zero(|u|)
  {
    Ext(Add(u, u), Zero(|u|));
  }

  /** Sums respect equivalence. */
  lemma AddCongr(u: Poly, u': Poly, v: Poly, v': Poly)
    requires Eqv(u, u') && Eqv(v, v')
    ensures Eqv(Add(u, v), Add(u', v'))
  {
    forall i
      ensures Coef(Add(u, v), i) == Coef(Add(u', v'), i)
    {
      assert Coef(u, i) == Coef(u', i);
      assert Coef(v, i) == Coef(v', i);
    }
  }

  lemma EqvTrans(a: Poly, b: Poly, c: Poly)
    requires Eqv(a, b) && Eqv(b, c)
    ensures Eqv(a, c)
  {
  }

  /** Shifting a concatenation shifts its parts, the high one past the low one. */
  lemma ShiftConcat(lo: Poly, hi: Poly, k: nat)
    ensures Eqv(Shift(lo + hi, k), Add(Shift(lo, k), Shift(hi, k + |lo|)))
  {
    ConcatAdd(lo, hi);
    ShiftCongr(lo + hi, Add(lo, Shift(hi, |lo|)), k);
    ShiftAdd(lo, Shift(hi, |lo|), k);
    ShiftShift(hi, |lo|, k);
    AddCongr(Shift(lo, k), Shift(lo, k), Shift(Shift(hi, |lo|), k), Shift(hi, k + |lo|));
  }

  /** A product with a concatenation on the right: the high part's product sits past the low part. */
  lemma ClMulConcatRight(u: Poly, a: Poly, b: Poly)
    ensures Eqv(ClMul(u, a + b), Add(ClMul(u, a), Shift(ClMul(u, b), |a|)))
  {
    ConcatAdd(a, b);
    ClMulCongr(u, u, a + b, Add(a, Shift(b, |a|)));
    ClMulAddRight(u, a, Shift(b, |a|));
    ClMulShiftRight(u, b, |a|);
    AddCongr(ClMul(u, a), ClMul(u, a), ClMul(u, Shift(b, |a|)), Shift(ClMul(u, b), |a|));
  }

  /** A product with a concatenation on the left. */
  lemma ClMulConcatLeft(a: Poly, b: Poly, v: Poly)
    ensures Eqv(ClMul(a + b, v), Add(ClMul(a, v), Shift(ClMul(b, v), |a|)))
  {
    ConcatAdd(a, b);
    ClMulCongr(a + b, Add(a, Shift(b, |a|)), v, v);
    ClMulAddLeft(a, Shift(b, |a|), v);
    ClMulShiftLeft(b, |a|, v);
    AddCongr(ClMul(a, v), ClMul(a, v), ClMul(Shift(b, |a|), v), Shift(ClMul(b, v), |a|));
  }
}
