/**
 * The binary field GF(2^n) defined by a pentanomial X^n + X^a + X^b + X^c + 1.
 *
 * Elements are polynomials of degree below n, stored on exactly n coefficients.
 * `MulX` is multiplication by X with the fold-back of X^n, `Reduce` maps any
 * polynomial to its remainder modulo the pentanomial (Horner's rule from the low
 * coefficient), and `Mul` is the reduced carry-less product.
 */
module BinaryField {
  import opened Poly

  datatype Pentanomial = Pentanomial(n: nat, a: nat, b: nat, c: nat)

  predicate Valid(p: Pentanomial)
  {
    0 < p.c < p.b < p.a < p.n
  }

  /** X^a + X^b + X^c + 1, the remainder of X^n, on n coefficients. */
  function Low(p: Pentanomial): (r: Poly)
    requires Valid(p)
    ensures |r| == p.n
  {
    seq(p.n, i => i == 0 || i == p.c || i == p.b || i == p.a)
  }

  /** The pentanomial itself. */
  function Full(p: Pentanomial): (r: Poly)
    requires Valid(p)
    ensures |r| == p.n + 1
  {
    Low(p) + [true]
  }

  /** The unit element. */
  function One(p: Pentanomial): (r: Poly)
    requires Valid(p)
    ensures |r| == p.n
  {
    Resize([true], p.n)
  }

  /** Multiplication by X of an element: shift up, and add Low when X^n falls out. */
  function MulX(p: Pentanomial, u: Poly): (r: Poly)
    requires Valid(p) && |u| == p.n
    ensures |r| == p.n
  {
    var s := [false] + u[..p.n - 1];
    if u[p.n - 1] then Add(s, Low(p)) else s
  }

  /** The remainder of u modulo the pentanomial. */
  function Reduce(p: Pentanomial, u: Poly): (r: Poly)
    requires Valid(p)
    ensures |r| == p.n
    decreases |u|
  {
    if |u| == 0 then Zero(p.n) else Add(Scale(u[0], One(p)), MulX(p, Reduce(p, u[1..])))
  }

  /** Field multiplication. */
  function Mul(p: Pentanomial, x: Poly, y: Poly): (r: Poly)
    requires Valid(p)
    ensures |r| == p.n
  {
    Reduce(p, ClMul(x, y))
  }

  /**
   * The residue class of u modulo the pentanomial, as a value: u and v are congruent
   * exactly when Class(p, u) == Class(p, v).
   */
  datatype Residue = Residue(remainder: Poly)

  function Class(p: Pentanomial, u: Poly): Residue
    requires Valid(p)
  {
    Residue(Reduce(p, u))
  }

  /** x raised to the power e. */
  function Pow(p: Pentanomial, x: Poly, e: nat): (r: Poly)
    requires Valid(p)
    ensures |r| == p.n
  {
    if e == 0 then One(p) else Mul(p, x, Pow(p, x, e - 1))
  }

  function Pow2(k: nat): (r: nat)
    ensures r >= 1 && (k >= 1 ==> r >= 2)
  {
    if k == 0 then 1 else 2 * Pow2(k - 1)
  }

  /** u + X^c u + X^b u + X^a u: the image of X^n u before reduction. */
  function Fold(p: Pentanomial, u: Poly): Poly
    requires Valid(p)
  {
    Add(Add(Add(u, Shift(u, p.c)), Shift(u, p.b)), Shift(u, p.a))
  }

  // ---------------------------------------------------------------------------
  // MulX

  /**
   * MulX(u) is X u minus the multiple u[n-1] of the pentanomial, so it is
   * congruent to X u and stored below X^n.
   */
  lemma MulXMeaning(p: Pentanomial, u: Poly)
    requires Valid(p) && |u| == p.n
    ensures Eqv(Shift(u, 1), Add(MulX(p, u), Scale(u[p.n - 1], Full(p))))
  {
    var s := [false] + u[..p.n - 1];
    forall i
      ensures Coef(Shift(u, 1), i) == Coef(Add(MulX(p, u), Scale(u[p.n - 1], Full(p))), i)
    {
      if 0 <= i < p.n {
        assert Coef(Full(p), i) == Coef(Low(p), i);
        assert Coef(s, i) == Coef(Shift(u, 1), i);
      } else if i == p.n {
        assert Coef(Full(p), i);
      }
    }
  }

  lemma MulXAdd(p: Pentanomial, u: Poly, v: Poly)
    requires Valid(p) && |u| == p.n && |v| == p.n
    ensures MulX(p, Add(u, v)) == Add(MulX(p, u), MulX(p, v))
  {
    var w := Add(u, v);
    forall i
      ensures Coef(MulX(p, w), i) == Coef(Add(MulX(p, u), MulX(p, v)), i)
    {
      if 0 < i < p.n {
        assert Coef(MulX(p, w), i) == (w[i - 1] != (w[p.n - 1] && Coef(Low(p), i)));
        assert Coef(MulX(p, u), i) == (u[i - 1] != (u[p.n - 1] && Coef(Low(p), i)));
        assert Coef(MulX(p, v), i) == (v[i - 1] != (v[p.n - 1] && Coef(Low(p), i)));
      }
    }
    Ext(MulX(p, w), Add(MulX(p, u), MulX(p, v)));
  }

  lemma MulXScale(p: Pentanomial, b: bool, u: Poly)
    requires Valid(p) && |u| == p.n
    ensures MulX(p, Scale(b, u)) == Scale(b, MulX(p, u))
  {
    var w := Scale(b, u);
    forall i
      ensures Coef(MulX(p, w), i) == Coef(Scale(b, MulX(p, u)), i)
    {
      if 0 < i < p.n {
        assert Coef(MulX(p, w), i) == (w[i - 1] != (w[p.n - 1] && Coef(Low(p), i)));
        assert Coef(MulX(p, u), i) == (u[i - 1] != (u[p.n - 1] && Coef(Low(p), i)));
      }
    }
    Ext(MulX(p, w), Scale(b, MulX(p, u)));
  }

  lemma MulXZero(p: Pentanomial)
    requires Valid(p)
    ensures MulX(p, Zero(p.n)) == Zero(p.n)
  {
    Ext(MulX(p, Zero(p.n)), Zero(p.n));
  }

  // ---------------------------------------------------------------------------
  // Reduce: linearity and congruence

  lemma ReduceUnfold(p: Pentanomial, u: Poly)
    requires Valid(p)
    ensures Reduce(p, u) == Add(Scale(Head(u), One(p)), MulX(p, Reduce(p, Tail(u))))
  {
    if |u| == 0 {
      MulXZero(p);
      Ext(Reduce(p, u), Add(Scale(false, One(p)), Zero(p.n)));
    }
  }

  /** Reduce only depends on the polynomial, not on its representation. */
  lemma {:induction false} ReduceEqv(p: Pentanomial, u: Poly, v: Poly)
    requires Valid(p) && Eqv(u, v)
    ensures Reduce(p, u) == Reduce(p, v)
    decreases |u| + |v|
  {
    ReduceUnfold(p, u);
    ReduceUnfold(p, v);
    if |u| + |v| > 0 {
      ReduceEqv(p, Tail(u), Tail(v));
    }
  }

  lemma AddShuffle(a1: Poly, b1: Poly, a2: Poly, b2: Poly)
    requires |a1| == |b1| == |a2| == |b2|
    ensures Add(Add(a1, b1), Add(a2, b2)) == Add(Add(a1, a2), Add(b1, b2))
  {
    Ext(Add(Add(a1, b1), Add(a2, b2)), Add(Add(a1, a2), Add(b1, b2)));
  }

  lemma ScaleXor(p: Pentanomial, h1: bool, h2: bool)
    requires Valid(p)
    ensures Scale(h1 != h2, One(p)) == Add(Scale(h1, One(p)), Scale(h2, One(p)))
  {
    Ext(Scale(h1 != h2, One(p)), Add(Scale(h1, One(p)), Scale(h2, One(p))));
  }

  /** Reduce is linear. */
  lemma {:induction false} ReduceAdd(p: Pentanomial, u: Poly, v: Poly)
    requires Valid(p)
    ensures Reduce(p, Add(u, v)) == Add(Reduce(p, u), Reduce(p, v))
    decreases |u| + |v|
  {
    var w := Add(u, v);
    ReduceUnfold(p, w);
    ReduceUnfold(p, u);
    ReduceUnfold(p, v);
    if |u| + |v| > 0 {
      ReduceEqv(p, Tail(w), Add(Tail(u), Tail(v)));
      ReduceAdd(p, Tail(u), Tail(v));
      MulXAdd(p, Reduce(p, Tail(u)), Reduce(p, Tail(v)));
      ScaleXor(p, Head(u), Head(v));
      AddShuffle(Scale(Head(u), One(p)), MulX(p, Reduce(p, Tail(u))),
                 Scale(Head(v), One(p)), MulX(p, Reduce(p, Tail(v))));
    } else {
      Ext(Reduce(p, w), Add(Reduce(p, u), Reduce(p, v)));
    }
  }

  lemma {:induction false} ReduceScale(p: Pentanomial, b: bool, u: Poly)
    requires Valid(p)
    ensures Reduce(p, Scale(b, u)) == Scale(b, Reduce(p, u))
    decreases |u|
  {
    var w := Scale(b, u);
    if |u| > 0 {
      assert w[1..] == Scale(b, u[1..]);
      ReduceScale(p, b, u[1..]);
      MulXScale(p, b, Reduce(p, u[1..]));
      Ext(Reduce(p, w), Scale(b, Reduce(p, u)));
    } else {
      Ext(Reduce(p, w), Scale(b, Reduce(p, u)));
    }
  }

  lemma ReduceZero(p: Pentanomial, u: Poly)
    requires Valid(p) && Eqv(u, [])
    ensures Reduce(p, u) == Zero(p.n)
  {
    ReduceEqv(p, u, []);
  }

  /** Reducing X u is multiplying the remainder of u by X. */
  lemma ReduceShift1(p: Pentanomial, u: Poly)
    requires Valid(p)
    ensures Reduce(p, Shift(u, 1)) == MulX(p, Reduce(p, u))
  {
    var s := Shift(u, 1);
    assert s[1..] == u;
    Ext(Reduce(p, s), MulX(p, Reduce(p, u)));
  }

  /** A polynomial of degree below n is its own remainder. */
  /** The Horner step on a short polynomial does not wrap around. */
  lemma ReduceSmallStep(p: Pentanomial, u: Poly)
    requires Valid(p) && 0 < |u| <= p.n
    requires Reduce(p, u[1..]) == Resize(u[1..], p.n)
    ensures Reduce(p, u) == Resize(u, p.n)
  {
    var t := u[1..];
    var r := Resize(t, p.n);
    var m := p.n - 1;
    assert !r[m];
    var s := [false] + r[..m];
    assert MulX(p, r) == s;
    forall i | 0 <= i < p.n
      ensures Add(Scale(u[0], One(p)), s)[i] == Resize(u, p.n)[i]
    {
      if i > 0 {
        assert s[i] == r[i - 1] == Coef(t, i - 1);
      }
    }
  }

  lemma {:induction false} ReduceSmall(p: Pentanomial, u: Poly)
    requires Valid(p) && |u| <= p.n
    ensures Reduce(p, u) == Resize(u, p.n)
    decreases |u|
  {
    if |u| > 0 {
      ReduceSmall(p, u[1..]);
      ReduceSmallStep(p, u);
    } else {
      Ext(Reduce(p, u), Resize(u, p.n));
    }
  }

  lemma ReduceElement(p: Pentanomial, u: Poly)
    requires Valid(p) && |u| == p.n
    ensures Reduce(p, u) == u
  {
    ReduceSmall(p, u);
    Ext(Resize(u, p.n), u);
  }

  /** X^(n-1), written as X^n divided by X, times X folds back to Low. */
  lemma MulXTop(p: Pentanomial)
    requires Valid(p)
    ensures MulX(p, Shift([true], p.n)[1..]) == Low(p)
  {
    var top := Shift([true], p.n);
    var b := top[1..];
    var m := p.n - 1;
    assert b[m] == top[p.n];
    var s := [false] + b[..m];
    forall i | 0 <= i < p.n
      ensures s[i] == Zero(p.n)[i]
    {
      if i > 0 {
        assert s[i] == top[i];
      }
    }
    assert s == Zero(p.n);
    Ext(Add(Zero(p.n), Low(p)), Low(p));
  }

  /** X^n has remainder Low. */
  lemma ReduceXn(p: Pentanomial)
    requires Valid(p)
    ensures Reduce(p, Shift([true], p.n)) == Low(p)
  {
    var top := Shift([true], p.n);
    assert !top[0];
    ReduceElement(p, top[1..]);
    MulXTop(p);
    Ext(Add(Scale(false, One(p)), Low(p)), Low(p));
  }

  /** The pentanomial is congruent to zero. */
  lemma ReduceFull(p: Pentanomial)
    requires Valid(p)
    ensures Reduce(p, Full(p)) == Zero(p.n)
  {
    var low := Low(p);
    var top := Shift([true], p.n);
    assert Eqv(Full(p), Add(low, top));
    ReduceAddEqv(p, Full(p), low, top);
    ReduceElement(p, low);
    ReduceXn(p);
    Ext(Add(low, low), Zero(p.n));
  }

  /** Every multiple of the pentanomial is congruent to zero. */
  lemma {:induction false} ReduceMultipleOfFull(p: Pentanomial, v: Poly)
    requires Valid(p)
    ensures Reduce(p, ClMul(v, Full(p))) == Zero(p.n)
    decreases |v|
  {
    if |v| > 0 {
      var t := ClMul(v[1..], Full(p));
      ReduceMultipleOfFull(p, v[1..]);
      ReduceAdd(p, Scale(v[0], Full(p)), Shift(t, 1));
      ReduceScale(p, v[0], Full(p));
      ReduceFull(p);
      ReduceShift1(p, t);
      MulXZero(p);
      Ext(Scale(v[0], Zero(p.n)), Zero(p.n));
      Ext(Add(Zero(p.n), Zero(p.n)), Zero(p.n));
    } else {
      ReduceZero(p, ClMul(v, Full(p)));
    }
  }

  lemma ReduceAddEqv(p: Pentanomial, u: Poly, a: Poly, b: Poly)
    requires Valid(p) && Eqv(u, Add(a, b))
    ensures Reduce(p, u) == Add(Reduce(p, a), Reduce(p, b))
  {
    ReduceEqv(p, u, Add(a, b));
    ReduceAdd(p, a, b);
  }

  lemma AddZeroRight(u: Poly, k: nat)
    requires |u| == k
    ensures Add(u, Zero(k)) == u
  {
    Ext(Add(u, Zero(k)), u);
  }

  /** Multiplying an element by X before the product is multiplying the remainder by X after. */
  lemma ReduceMulXLeft(p: Pentanomial, r: Poly, v: Poly)
    requires Valid(p) && |r| == p.n
    ensures Reduce(p, ClMul(MulX(p, r), v)) == MulX(p, Reduce(p, ClMul(r, v)))
  {
    var m := MulX(p, r);
    var top := Scale(r[p.n - 1], Full(p));
    MulXMeaning(p, r);
    assert Eqv(m, Add(Shift(r, 1), top));
    ClMulCongr(m, Add(Shift(r, 1), top), v, v);
    ClMulAddLeft(Shift(r, 1), top, v);
    ReduceAddEqv(p, ClMul(m, v), ClMul(Shift(r, 1), v), ClMul(top, v));
    ClMulShiftLeft(r, 1, v);
    ReduceEqv(p, ClMul(Shift(r, 1), v), Shift(ClMul(r, v), 1));
    ReduceShift1(p, ClMul(r, v));
    ClMulScaleLeft(r[p.n - 1], Full(p), v);
    ClMulComm(Full(p), v);
    ReduceEqv(p, ClMul(top, v), Scale(r[p.n - 1], ClMul(v, Full(p))));
    ReduceScale(p, r[p.n - 1], ClMul(v, Full(p)));
    ReduceMultipleOfFull(p, v);
    Ext(Scale(r[p.n - 1], Zero(p.n)), Zero(p.n));
    AddZeroRight(MulX(p, Reduce(p, ClMul(r, v))), p.n);
  }

  /** One Horner step of a reduced left factor, pushed through the product. */
  lemma ReduceClMulStep(p: Pentanomial, h: bool, r: Poly, v: Poly)
    requires Valid(p) && |r| == p.n
    ensures Reduce(p, ClMul(Add(Scale(h, One(p)), MulX(p, r)), v))
         == Add(Reduce(p, Scale(h, v)), MulX(p, Reduce(p, ClMul(r, v))))
  {
    var c := Scale(h, One(p));
    ClMulAddLeft(c, MulX(p, r), v);
    ReduceAddEqv(p, ClMul(Add(c, MulX(p, r)), v), ClMul(c, v), ClMul(MulX(p, r), v));
    ClMulScaleLeft(h, One(p), v);
    ClMulCongr(One(p), [true], v, v);
    ClMulOneLeft(v);
    ReduceEqv(p, ClMul(c, v), Scale(h, v));
    ReduceMulXLeft(p, r, v);
  }

  /** Reducing a left factor first does not change the reduced product. */
  lemma {:induction false} ReduceClMulLeft(p: Pentanomial, u: Poly, v: Poly)
    requires Valid(p)
    ensures Reduce(p, ClMul(Reduce(p, u), v)) == Reduce(p, ClMul(u, v))
    decreases |u|
  {
    var ru := Reduce(p, u);
    if |u| > 0 {
      var t := u[1..];
      ReduceClMulLeft(p, t, v);
      ReduceClMulStep(p, u[0], Reduce(p, t), v);
      ReduceAdd(p, Scale(u[0], v), Shift(ClMul(t, v), 1));
      ReduceShift1(p, ClMul(t, v));
    } else {
      ClMulZeroLeft(ru, v);
      ReduceZero(p, ClMul(ru, v));
      ReduceZero(p, ClMul(u, v));
    }
  }

  // ---------------------------------------------------------------------------
  // The field laws for Mul

  lemma MulComm(p: Pentanomial, x: Poly, y: Poly)
    requires Valid(p)
    ensures Mul(p, x, y) == Mul(p, y, x)
  {
    ClMulComm(x, y);
    ReduceEqv(p, ClMul(x, y), ClMul(y, x));
  }

  lemma MulOneLeft(p: Pentanomial, y: Poly)
    requires Valid(p) && |y| == p.n
    ensures Mul(p, One(p), y) == y
  {
    ClMulCongr(One(p), [true], y, y);
    ClMulOneLeft(y);
    ReduceEqv(p, ClMul(One(p), y), y);
    ReduceElement(p, y);
  }

  lemma MulOneRight(p: Pentanomial, x: Poly)
    requires Valid(p) && |x| == p.n
    ensures Mul(p, x, One(p)) == x
  {
    MulComm(p, x, One(p));
    MulOneLeft(p, x);
  }

  lemma ReduceClMulRight(p: Pentanomial, u: Poly, v: Poly)
    requires Valid(p)
    ensures Reduce(p, ClMul(u, Reduce(p, v))) == Reduce(p, ClMul(u, v))
  {
    ClMulComm(u, Reduce(p, v));
    ReduceEqv(p, ClMul(u, Reduce(p, v)), ClMul(Reduce(p, v), u));
    ReduceClMulLeft(p, v, u);
    ClMulComm(v, u);
    ReduceEqv(p, ClMul(v, u), ClMul(u, v));
  }

  lemma MulAssoc(p: Pentanomial, x: Poly, y: Poly, z: Poly)
    requires Valid(p)
    ensures Mul(p, Mul(p, x, y), z) == Mul(p, x, Mul(p, y, z))
  {
    ReduceClMulLeft(p, ClMul(x, y), z);
    ClMulAssoc(x, y, z);
    ReduceEqv(p, ClMul(ClMul(x, y), z), ClMul(x, ClMul(y, z)));
    ReduceClMulRight(p, x, ClMul(y, z));
  }

  lemma MulAddLeft(p: Pentanomial, x: Poly, y: Poly, z: Poly)
    requires Valid(p)
    ensures Mul(p, Add(x, y), z) == Add(Mul(p, x, z), Mul(p, y, z))
  {
    ClMulAddLeft(x, y, z);
    ReduceAddEqv(p, ClMul(Add(x, y), z), ClMul(x, z), ClMul(y, z));
  }

  /** The product by X is MulX. */
  lemma MulByX(p: Pentanomial, u: Poly)
    requires Valid(p) && |u| == p.n
    ensures Mul(p, Shift([true], 1), u) == MulX(p, u)
  {
    ClMulShiftLeft([true], 1, u);
    ClMulOneLeft(u);
    ReduceEqv(p, ClMul(Shift([true], 1), u), Shift(u, 1));
    ReduceShift1(p, u);
    ReduceElement(p, u);
  }

  // ---------------------------------------------------------------------------
  // Folding X^n back

  lemma LowAsSum(p: Pentanomial)
    requires Valid(p)
    ensures Eqv(Low(p), Fold(p, [true]))
  {
  }

  /** X^n = Full + Low, so X^n u = u Full + u Low. */
  lemma ShiftNSplit(p: Pentanomial, u: Poly)
    requires Valid(p)
    ensures Eqv(Shift(u, p.n), Add(ClMul(u, Full(p)), ClMul(u, Low(p))))
  {
    var top := Shift([true], p.n);
    assert Eqv(top, Add(Full(p), Low(p)));
    ClMulShiftRight(u, [true], p.n);
    ClMulConstRight(u, true);
    assert Eqv(Shift(u, p.n), ClMul(u, top));
    ClMulCongr(u, u, top, Add(Full(p), Low(p)));
    ClMulAddRight(u, Full(p), Low(p));
  }

  lemma ReduceRightMultipleOfFull(p: Pentanomial, u: Poly)
    requires Valid(p)
    ensures Reduce(p, ClMul(u, Full(p))) == Zero(p.n)
  {
    ClMulComm(u, Full(p));
    ClMulComm(Full(p), u);
    ReduceEqv(p, ClMul(u, Full(p)), ClMul(Full(p), u));
    ReduceMultipleOfFull(p, u);
  }

  /** X^n u has the same remainder as u + X^c u + X^b u + X^a u. */
  lemma ReduceShiftN(p: Pentanomial, u: Poly)
    requires Valid(p)
    ensures Reduce(p, Shift(u, p.n)) == Reduce(p, Fold(p, u))
  {
    ShiftNSplit(p, u);
    ReduceAddEqv(p, Shift(u, p.n), ClMul(u, Full(p)), ClMul(u, Low(p)));
    ReduceRightMultipleOfFull(p, u);
    LowAsSum(p);
    FoldClMul(p, u);
    ReduceEqv(p, ClMul(u, Low(p)), Fold(p, u));
    Ext(Add(Zero(p.n), Reduce(p, Fold(p, u))), Reduce(p, Fold(p, u)));
  }

  lemma FoldClMul(p: Pentanomial, u: Poly)
    requires Valid(p) && Eqv(Low(p), Fold(p, [true]))
    ensures Eqv(ClMul(u, Low(p)), Fold(p, u))
  {
    var one: Poly := [true];
    ClMulCongr(u, u, Low(p), Fold(p, one));
    ClMulAddRight(u, Add(Add(one, Shift(one, p.c)), Shift(one, p.b)), Shift(one, p.a));
    ClMulAddRight(u, Add(one, Shift(one, p.c)), Shift(one, p.b));
    ClMulAddRight(u, one, Shift(one, p.c));
    ClMulConstRight(u, true);
    ClMulShiftRight(u, one, p.a);
    ClMulShiftRight(u, one, p.b);
    ClMulShiftRight(u, one, p.c);
  }

  lemma FoldCongr(p: Pentanomial, u: Poly, v: Poly)
    requires Valid(p) && Eqv(u, v)
    ensures Eqv(Fold(p, u), Fold(p, v))
  {
    LowAsSum(p);
    FoldClMul(p, u);
    FoldClMul(p, v);
    ClMulCongr(u, v, Low(p), Low(p));
  }

  /** Folding commutes with multiplication by X^k. */
  lemma FoldShift(p: Pentanomial, u: Poly, k: nat)
    requires Valid(p)
    ensures Eqv(Fold(p, Shift(u, k)), Shift(Fold(p, u), k))
  {
    LowAsSum(p);
    FoldClMul(p, Shift(u, k));
    ClMulShiftLeft(u, k, Low(p));
    FoldClMul(p, u);
    ShiftCongr(ClMul(u, Low(p)), Fold(p, u), k);
  }

  /**
   * Replacing a part C of a sum by SL + SH, where C and SL + SH have the same
   * remainder, keeps the remainder of the sum.
   */
  lemma ReduceSubst(p: Pentanomial, x: Poly, w: Poly, c: Poly, sl: Poly, sh: Poly)
    requires Valid(p) && x == Add(Add(w, sl), sh) && Reduce(p, c) == Reduce(p, Add(sl, sh))
    ensures Reduce(p, x) == Reduce(p, Add(w, c))
  {
    ReduceAdd(p, Add(w, sl), sh);
    ReduceAdd(p, w, sl);
    ReduceAdd(p, w, c);
    ReduceAdd(p, sl, sh);
    AddAssoc(Reduce(p, w), Reduce(p, sl), Reduce(p, sh));
  }

  /**
   * The same inside a larger sum: the remainder of w + c + rest is kept when c
   * is replaced by sl + sh.
   */
  lemma ReduceSubstSum(p: Pentanomial, x: Poly, w: Poly, c: Poly, sl: Poly, sh: Poly, rest: Poly, whole: Poly)
    requires Valid(p) && x == Add(Add(w, sl), sh) && Reduce(p, c) == Reduce(p, Add(sl, sh))
    requires Eqv(whole, Add(c, rest))
    ensures Reduce(p, Add(x, rest)) == Reduce(p, Add(w, whole))
  {
    ReduceAdd(p, x, rest);
    ReduceSubst(p, x, w, c, sl, sh);
    ReduceAdd(p, Add(w, c), rest);
    AddAssoc(w, c, rest);
    AddCongr(w, w, whole, Add(c, rest));
    ReduceEqv(p, Add(w, whole), Add(w, Add(c, rest)));
  }

  // ---------------------------------------------------------------------------
  // Powers

  /** Pow depends on the exponent only through its value (stated to spare the solver arithmetic). */
  lemma PowEq(p: Pentanomial, x: Poly, e1: nat, e2: nat)
    requires Valid(p) && e1 == e2
    ensures Pow(p, x, e1) == Pow(p, x, e2)
  {
  }

  lemma PowZero(p: Pentanomial, x: Poly, e: nat)
    requires Valid(p) && e == 0
    ensures Pow(p, x, e) == One(p)
  {
  }

  lemma PowStep(p: Pentanomial, x: Poly, k: nat, i: nat)
    requires Valid(p) && i == k + 1
    ensures Pow(p, x, i) == Mul(p, x, Pow(p, x, k))
  {
  }

  /** One step of PowAdd: from x^k x^j = x^t to x^(k+1) x^j = x^(t+1). */
  lemma PowAddStep(p: Pentanomial, x: Poly, k: nat, i: nat, j: nat, t: nat, s: nat)
    requires Valid(p) && |x| == p.n && i == k + 1 && s == t + 1
    requires Mul(p, Pow(p, x, k), Pow(p, x, j)) == Pow(p, x, t)
    ensures Mul(p, Pow(p, x, i), Pow(p, x, j)) == Pow(p, x, s)
  {
    PowStep(p, x, k, i);
    PowStep(p, x, t, s);
    MulAssoc(p, x, Pow(p, x, k), Pow(p, x, j));
  }

  /**
   * x^i x^j = x^s where s = i + j. The sum is a parameter so that callers name
   * every exponent by a variable, which keeps the solver away from arithmetic
   * under Pow.
   */
  lemma {:induction false} PowAdd(p: Pentanomial, x: Poly, i: nat, j: nat, s: nat)
    requires Valid(p) && |x| == p.n && s == i + j
    ensures Mul(p, Pow(p, x, i), Pow(p, x, j)) == Pow(p, x, s)
    decreases i
  {
    if i > 0 {
      var k := i - 1;
      var t := s - 1;
      PowAdd(p, x, k, j, t);
      PowAddStep(p, x, k, i, j, t, s);
    } else {
      PowZero(p, x, i);
      PowEq(p, x, j, s);
      MulOneLeft(p, Pow(p, x, j));
    }
  }

  lemma PowOne(p: Pentanomial, x: Poly)
    requires Valid(p) && |x| == p.n
    ensures Pow(p, x, 1) == x
  {
    MulOneRight(p, x);
  }
}
