/**
 * Shifts of a 64-bit word by a constant amount s, 0 < s < 64, as polynomials:
 * `w << s` holds the coefficients of X^s w below X^64 and `w >> (64 - s)` those
 * above, so together they are X^s w on 128 coefficients.
 *
 * The amounts are the exponents a, b, c of the three field pentanomials; each has
 * its own bit lemmas, because the solver decides these quickly only for a
 * constant amount.
 */
module Shifts {
  import opened Poly
  import opened Words

  /** From the coefficients of lo and hi to the polynomial X^s w. */
  lemma SplitShift(w: bv64, s: nat, lo: bv64, hi: bv64)
    requires 0 < s < 64
    requires forall t | 0 <= t < 64 :: WordBits(lo)[t] == (s <= t && WordBits(w)[t - s])
    requires forall t | 0 <= t < 64 :: WordBits(hi)[t] == (t < s && WordBits(w)[t + 64 - s])
    ensures Eqv(Shift(WordBits(w), s), WordBits(lo) + WordBits(hi))
  {
    var l, r := Shift(WordBits(w), s), WordBits(lo) + WordBits(hi);
    forall t
      ensures Coef(l, t) == Coef(r, t)
    {
      if 0 <= t < 64 {
        assert r[t] == WordBits(lo)[t];
      } else if 64 <= t < 128 {
        var j := t - 64;
        assert r[t] == WordBits(hi)[j];
      }
    }
  }

  lemma ShiftLeft1Bit(w: bv64, k: bv7)
    requires k < 64
    ensures k < 1 ==> !Bit(w << 1, k)
    ensures k < 63 ==> Bit(w << 1, k + 1) == Bit(w, k)
  {
  }

  lemma ShiftRight63Bit(w: bv64, k: bv7)
    requires k < 64
    ensures k < 1 ==> Bit(w >> 63, k) == Bit(w, k + 63)
    ensures 1 <= k ==> !Bit(w >> 63, k)
  {
  }

  lemma ShiftLeft1At(w: bv64, t: nat)
    requires t < 64
    ensures WordBits(w << 1)[t] == (1 <= t && WordBits(w)[t - 1])
  {
    ToBvLit(1, 1);
    WordBitsAt(w << 1, t);
    if t < 1 {
      ToBvLt(t, 1);
      ShiftLeft1Bit(w, ToBv(t));
    } else {
      var j := t - 1;
      WordBitsAt(w, j);
      ToBvLt(j, 63);
      ToBvAdd(j, 1);
      ShiftLeft1Bit(w, ToBv(j));
    }
  }

  lemma ShiftRight63At(w: bv64, t: nat)
    requires t < 64
    ensures WordBits(w >> 63)[t] == (t < 1 && WordBits(w)[t + 63])
  {
    ToBvLit(63, 63);
    WordBitsAt(w >> 63, t);
    if t < 1 {
      ToBvLt(t, 1);
      ToBvAdd(t, 63);
      WordBitsAt(w, t + 63);
      ShiftRight63Bit(w, ToBv(t));
    } else {
      ToBvLe(1, t);
      ToBvLit(1, 1);
      ToBvLt(t, 64);
      ShiftRight63Bit(w, ToBv(t));
    }
  }

  /** X^1 w is `w << 1` followed by `w >> 63`. */
  lemma Split1(w: bv64)
    ensures Eqv(Shift(WordBits(w), 1), WordBits(w << 1) + WordBits(w >> 63))
  {
    var lo, hi := w << 1, w >> 63;
    forall t | 0 <= t < 64
      ensures WordBits(lo)[t] == (1 <= t && WordBits(w)[t - 1])
      ensures WordBits(hi)[t] == (t < 1 && WordBits(w)[t + 64 - 1])
    {
      ShiftLeft1At(w, t);
      ShiftRight63At(w, t);
    }
    SplitShift(w, 1, lo, hi);
  }

  lemma ShiftLeft2Bit(w: bv64, k: bv7)
    requires k < 64
    ensures k < 2 ==> !Bit(w << 2, k)
    ensures k < 62 ==> Bit(w << 2, k + 2) == Bit(w, k)
  {
  }

  lemma ShiftRight62Bit(w: bv64, k: bv7)
    requires k < 64
    ensures k < 2 ==> Bit(w >> 62, k) == Bit(w, k + 62)
    ensures 2 <= k ==> !Bit(w >> 62, k)
  {
  }

  lemma ShiftLeft2At(w: bv64, t: nat)
    requires t < 64
    ensures WordBits(w << 2)[t] == (2 <= t && WordBits(w)[t - 2])
  {
    ToBvLit(2, 2);
    WordBitsAt(w << 2, t);
    if t < 2 {
      ToBvLt(t, 2);
      ShiftLeft2Bit(w, ToBv(t));
    } else {
      var j := t - 2;
      WordBitsAt(w, j);
      ToBvLt(j, 62);
      ToBvAdd(j, 2);
      ShiftLeft2Bit(w, ToBv(j));
    }
  }

  lemma ShiftRight62At(w: bv64, t: nat)
    requires t < 64
    ensures WordBits(w >> 62)[t] == (t < 2 && WordBits(w)[t + 62])
  {
    ToBvLit(62, 62);
    WordBitsAt(w >> 62, t);
    if t < 2 {
      ToBvLt(t, 2);
      ToBvAdd(t, 62);
      WordBitsAt(w, t + 62);
      ShiftRight62Bit(w, ToBv(t));
    } else {
      ToBvLe(2, t);
      ToBvLit(2, 2);
      ToBvLt(t, 64);
      ShiftRight62Bit(w, ToBv(t));
    }
  }

  /** X^2 w is `w << 2` followed by `w >> 62`. */
  lemma Split2(w: bv64)
    ensures Eqv(Shift(WordBits(w), 2), WordBits(w << 2) + WordBits(w >> 62))
  {
    var lo, hi := w << 2, w >> 62;
    forall t | 0 <= t < 64
      ensures WordBits(lo)[t] == (2 <= t && WordBits(w)[t - 2])
      ensures WordBits(hi)[t] == (t < 2 && WordBits(w)[t + 64 - 2])
    {
      ShiftLeft2At(w, t);
      ShiftRight62At(w, t);
    }
    SplitShift(w, 2, lo, hi);
  }

  lemma ShiftLeft3Bit(w: bv64, k: bv7)
    requires k < 64
    ensures k < 3 ==> !Bit(w << 3, k)
    ensures k < 61 ==> Bit(w << 3, k + 3) == Bit(w, k)
  {
  }

  lemma ShiftRight61Bit(w: bv64, k: bv7)
    requires k < 64
    ensures k < 3 ==> Bit(w >> 61, k) == Bit(w, k + 61)
    ensures 3 <= k ==> !Bit(w >> 61, k)
  {
  }

  lemma ShiftLeft3At(w: bv64, t: nat)
    requires t < 64
    ensures WordBits(w << 3)[t] == (3 <= t && WordBits(w)[t - 3])
  {
    ToBvLit(3, 3);
    WordBitsAt(w << 3, t);
    if t < 3 {
      ToBvLt(t, 3);
      ShiftLeft3Bit(w, ToBv(t));
    } else {
      var j := t - 3;
      WordBitsAt(w, j);
      ToBvLt(j, 61);
      ToBvAdd(j, 3);
      ShiftLeft3Bit(w, ToBv(j));
    }
  }

  lemma ShiftRight61At(w: bv64, t: nat)
    requires t < 64
    ensures WordBits(w >> 61)[t] == (t < 3 && WordBits(w)[t + 61])
  {
    ToBvLit(61, 61);
    WordBitsAt(w >> 61, t);
    if t < 3 {
      ToBvLt(t, 3);
      ToBvAdd(t, 61);
      WordBitsAt(w, t + 61);
      ShiftRight61Bit(w, ToBv(t));
    } else {
      ToBvLe(3, t);
      ToBvLit(3, 3);
      ToBvLt(t, 64);
      ShiftRight61Bit(w, ToBv(t));
    }
  }

  /** X^3 w is `w << 3` followed by `w >> 61`. */
  lemma Split3(w: bv64)
    ensures Eqv(Shift(WordBits(w), 3), WordBits(w << 3) + WordBits(w >> 61))
  {
    var lo, hi := w << 3, w >> 61;
    forall t | 0 <= t < 64
      ensures WordBits(lo)[t] == (3 <= t && WordBits(w)[t - 3])
      ensures WordBits(hi)[t] == (t < 3 && WordBits(w)[t + 64 - 3])
    {
      ShiftLeft3At(w, t);
      ShiftRight61At(w, t);
    }
    SplitShift(w, 3, lo, hi);
  }

  lemma ShiftLeft4Bit(w: bv64, k: bv7)
    requires k < 64
    ensures k < 4 ==> !Bit(w << 4, k)
    ensures k < 60 ==> Bit(w << 4, k + 4) == Bit(w, k)
  {
  }

  lemma ShiftRight60Bit(w: bv64, k: bv7)
    requires k < 64
    ensures k < 4 ==> Bit(w >> 60, k) == Bit(w, k + 60)
    ensures 4 <= k ==> !Bit(w >> 60, k)
  {
  }

  lemma ShiftLeft4At(w: bv64, t: nat)
    requires t < 64
    ensures WordBits(w << 4)[t] == (4 <= t && WordBits(w)[t - 4])
  {
    ToBvLit(4, 4);
    WordBitsAt(w << 4, t);
    if t < 4 {
      ToBvLt(t, 4);
      ShiftLeft4Bit(w, ToBv(t));
    } else {
      var j := t - 4;
      WordBitsAt(w, j);
      ToBvLt(j, 60);
      ToBvAdd(j, 4);
      ShiftLeft4Bit(w, ToBv(j));
    }
  }

  lemma ShiftRight60At(w: bv64, t: nat)
    requires t < 64
    ensures WordBits(w >> 60)[t] == (t < 4 && WordBits(w)[t + 60])
  {
    ToBvLit(60, 60);
    WordBitsAt(w >> 60, t);
    if t < 4 {
      ToBvLt(t, 4);
      ToBvAdd(t, 60);
      WordBitsAt(w, t + 60);
      ShiftRight60Bit(w, ToBv(t));
    } else {
      ToBvLe(4, t);
      ToBvLit(4, 4);
      ToBvLt(t, 64);
      ShiftRight60Bit(w, ToBv(t));
    }
  }

  /** X^4 w is `w << 4` followed by `w >> 60`. */
  lemma Split4(w: bv64)
    ensures Eqv(Shift(WordBits(w), 4), WordBits(w << 4) + WordBits(w >> 60))
  {
    var lo, hi := w << 4, w >> 60;
    forall t | 0 <= t < 64
      ensures WordBits(lo)[t] == (4 <= t && WordBits(w)[t - 4])
      ensures WordBits(hi)[t] == (t < 4 && WordBits(w)[t + 64 - 4])
    {
      ShiftLeft4At(w, t);
      ShiftRight60At(w, t);
    }
    SplitShift(w, 4, lo, hi);
  }

  lemma ShiftLeft5Bit(w: bv64, k: bv7)
    requires k < 64
    ensures k < 5 ==> !Bit(w << 5, k)
    ensures k < 59 ==> Bit(w << 5, k + 5) == Bit(w, k)
  {
  }

  lemma ShiftRight59Bit(w: bv64, k: bv7)
    requires k < 64
    ensures k < 5 ==> Bit(w >> 59, k) == Bit(w, k + 59)
    ensures 5 <= k ==> !Bit(w >> 59, k)
  {
  }

  lemma ShiftLeft5At(w: bv64, t: nat)
    requires t < 64
    ensures WordBits(w << 5)[t] == (5 <= t && WordBits(w)[t - 5])
  {
    ToBvLit(5, 5);
    WordBitsAt(w << 5, t);
    if t < 5 {
      ToBvLt(t, 5);
      ShiftLeft5Bit(w, ToBv(t));
    } else {
      var j := t - 5;
      WordBitsAt(w, j);
      ToBvLt(j, 59);
      ToBvAdd(j, 5);
      ShiftLeft5Bit(w, ToBv(j));
    }
  }

  lemma ShiftRight59At(w: bv64, t: nat)
    requires t < 64
    ensures WordBits(w >> 59)[t] == (t < 5 && WordBits(w)[t + 59])
  {
    ToBvLit(59, 59);
    WordBitsAt(w >> 59, t);
    if t < 5 {
      ToBvLt(t, 5);
      ToBvAdd(t, 59);
      WordBitsAt(w, t + 59);
      ShiftRight59Bit(w, ToBv(t));
    } else {
      ToBvLe(5, t);
      ToBvLit(5, 5);
      ToBvLt(t, 64);
      ShiftRight59Bit(w, ToBv(t));
    }
  }

  /** X^5 w is `w << 5` followed by `w >> 59`. */
  lemma Split5(w: bv64)
    ensures Eqv(Shift(WordBits(w), 5), WordBits(w << 5) + WordBits(w >> 59))
  {
    var lo, hi := w << 5, w >> 59;
    forall t | 0 <= t < 64
      ensures WordBits(lo)[t] == (5 <= t && WordBits(w)[t - 5])
      ensures WordBits(hi)[t] == (t < 5 && WordBits(w)[t + 64 - 5])
    {
      ShiftLeft5At(w, t);
      ShiftRight59At(w, t);
    }
    SplitShift(w, 5, lo, hi);
  }

  lemma ShiftLeft7Bit(w: bv64, k: bv7)
    requires k < 64
    ensures k < 7 ==> !Bit(w << 7, k)
    ensures k < 57 ==> Bit(w << 7, k + 7) == Bit(w, k)
  {
  }

  lemma ShiftRight57Bit(w: bv64, k: bv7)
    requires k < 64
    ensures k < 7 ==> Bit(w >> 57, k) == Bit(w, k + 57)
    ensures 7 <= k ==> !Bit(w >> 57, k)
  {
  }

  lemma ShiftLeft7At(w: bv64, t: nat)
    requires t < 64
    ensures WordBits(w << 7)[t] == (7 <= t && WordBits(w)[t - 7])
  {
    ToBvLit(7, 7);
    WordBitsAt(w << 7, t);
    if t < 7 {
      ToBvLt(t, 7);
      ShiftLeft7Bit(w, ToBv(t));
    } else {
      var j := t - 7;
      WordBitsAt(w, j);
      ToBvLt(j, 57);
      ToBvAdd(j, 7);
      ShiftLeft7Bit(w, ToBv(j));
    }
  }

  lemma ShiftRight57At(w: bv64, t: nat)
    requires t < 64
    ensures WordBits(w >> 57)[t] == (t < 7 && WordBits(w)[t + 57])
  {
    ToBvLit(57, 57);
    WordBitsAt(w >> 57, t);
    if t < 7 {
      ToBvLt(t, 7);
      ToBvAdd(t, 57);
      WordBitsAt(w, t + 57);
      ShiftRight57Bit(w, ToBv(t));
    } else {
      ToBvLe(7, t);
      ToBvLit(7, 7);
      ToBvLt(t, 64);
      ShiftRight57Bit(w, ToBv(t));
    }
  }

  /** X^7 w is `w << 7` followed by `w >> 57`. */
  lemma Split7(w: bv64)
    ensures Eqv(Shift(WordBits(w), 7), WordBits(w << 7) + WordBits(w >> 57))
  {
    var lo, hi := w << 7, w >> 57;
    forall t | 0 <= t < 64
      ensures WordBits(lo)[t] == (7 <= t && WordBits(w)[t - 7])
      ensures WordBits(hi)[t] == (t < 7 && WordBits(w)[t + 64 - 7])
    {
      ShiftLeft7At(w, t);
      ShiftRight57At(w, t);
    }
    SplitShift(w, 7, lo, hi);
  }

  lemma ShiftLeft10Bit(w: bv64, k: bv7)
    requires k < 64
    ensures k < 10 ==> !Bit(w << 10, k)
    ensures k < 54 ==> Bit(w << 10, k + 10) == Bit(w, k)
  {
  }

  lemma ShiftRight54Bit(w: bv64, k: bv7)
    requires k < 64
    ensures k < 10 ==> Bit(w >> 54, k) == Bit(w, k + 54)
    ensures 10 <= k ==> !Bit(w >> 54, k)
  {
  }

  lemma ShiftLeft10At(w: bv64, t: nat)
    requires t < 64
    ensures WordBits(w << 10)[t] == (10 <= t && WordBits(w)[t - 10])
  {
    ToBvLit(10, 10);
    WordBitsAt(w << 10, t);
    if t < 10 {
      ToBvLt(t, 10);
      ShiftLeft10Bit(w, ToBv(t));
    } else {
      var j := t - 10;
      WordBitsAt(w, j);
      ToBvLt(j, 54);
      ToBvAdd(j, 10);
      ShiftLeft10Bit(w, ToBv(j));
    }
  }

  lemma ShiftRight54At(w: bv64, t: nat)
    requires t < 64
    ensures WordBits(w >> 54)[t] == (t < 10 && WordBits(w)[t + 54])
  {
    ToBvLit(54, 54);
    WordBitsAt(w >> 54, t);
    if t < 10 {
      ToBvLt(t, 10);
      ToBvAdd(t, 54);
      WordBitsAt(w, t + 54);
      ShiftRight54Bit(w, ToBv(t));
    } else {
      ToBvLe(10, t);
      ToBvLit(10, 10);
      ToBvLt(t, 64);
      ShiftRight54Bit(w, ToBv(t));
    }
  }

  /** X^10 w is `w << 10` followed by `w >> 54`. */
  lemma Split10(w: bv64)
    ensures Eqv(Shift(WordBits(w), 10), WordBits(w << 10) + WordBits(w >> 54))
  {
    var lo, hi := w << 10, w >> 54;
    forall t | 0 <= t < 64
      ensures WordBits(lo)[t] == (10 <= t && WordBits(w)[t - 10])
      ensures WordBits(hi)[t] == (t < 10 && WordBits(w)[t + 64 - 10])
    {
      ShiftLeft10At(w, t);
      ShiftRight54At(w, t);
    }
    SplitShift(w, 10, lo, hi);
  }
}
