/**
 * The software AES round of the `fallback` module: SubBytes, ShiftRows,
 * MixColumns and AddRoundKey working in place on a 16-byte state, as in FIPS-197
 * (sections 5.1.1 to 5.1.4), and the in-place inversion of GF(2^64), GF(2^128)
 * and GF(2^256) elements held in word buffers.
 *
 * The state is laid out column by column: byte 4 c + r is row r of column c
 * (FIPS-197 section 3.4).
 */
module Fallback {
  import opened Poly
  import opened Words
  import BinaryField
  import opened Fields
  import GF2n
  import GF2nMul

  /* ---- Bytes as elements of GF(2^8) ---- */

  /** GF(2^8) of AES: X^8 + X^4 + X^3 + X + 1 (FIPS-197 section 4.2). */
  function AesField(): (p: BinaryField.Pentanomial)
    ensures BinaryField.Valid(p) && p.n == 8
  {
    BinaryField.Pentanomial(8, 4, 3, 1)
  }

  /** Bit i of a byte, the coefficient of X^i. */
  predicate ByteBit(b: bv8, i: nat)
    requires i < 8
  {
    b & (if i == 0 then 0x01 else if i == 1 then 0x02 else if i == 2 then 0x04 else if i == 3 then 0x08
         else if i == 4 then 0x10 else if i == 5 then 0x20 else if i == 6 then 0x40 else 0x80) != 0
  }

  /** The polynomial of a byte. */
  function ByteBits(b: bv8): (r: Poly)
    ensures |r| == 8 && forall i | 0 <= i < 8 :: r[i] == ByteBit(b, i)
  {
    seq(8, i requires 0 <= i < 8 => ByteBit(b, i))
  }

  lemma XorBit(a: bv8, b: bv8, i: nat)
    requires i < 8
    ensures ByteBit(a ^ b, i) == (ByteBit(a, i) != ByteBit(b, i))
  {
    if i == 0 {
    } else if i == 1 {
    } else if i == 2 {
    } else if i == 3 {
    } else if i == 4 {
    } else if i == 5 {
    } else if i == 6 {
    } else {
    }
  }

  /** The exclusive or of bytes is the sum of their polynomials. */
  lemma ByteBitsXor(a: bv8, b: bv8)
    ensures ByteBits(a ^ b) == Add(ByteBits(a), ByteBits(b))
  {
    var u, v, w := ByteBits(a ^ b), ByteBits(a), ByteBits(b);
    forall i | 0 <= i < 8
      ensures u[i] == Add(v, w)[i]
    {
      XorBit(a, b, i);
      assert Coef(Add(v, w), i) == (Coef(v, i) != Coef(w, i));
    }
  }

  /** The bits of 0x01 and 0x02. */
  lemma SmallBits(i: nat)
    requires i < 8
    ensures ByteBit(0x01, i) == (i == 0) && ByteBit(0x02, i) == (i == 1)
  {
    if i == 0 {
    } else if i == 1 {
    } else if i == 2 {
    } else if i == 3 {
    } else if i == 4 {
    } else if i == 5 {
    } else if i == 6 {
    } else {
    }
  }

  /** The byte 0x01 is the unit and 0x02 the polynomial X. */
  lemma SmallBytes()
    ensures ByteBits(0x01) == BinaryField.One(AesField())
    ensures Eqv(ByteBits(0x02), Shift([true], 1))
  {
    var one, two := ByteBits(0x01), ByteBits(0x02);
    forall i | 0 <= i < 8
      ensures one[i] == BinaryField.One(AesField())[i]
    {
      SmallBits(i);
      assert Coef(BinaryField.One(AesField()), i) == (i < 8 && Coef([true], i));
    }
    forall i
      ensures Coef(two, i) == Coef(Shift([true], 1), i)
    {
      if 0 <= i < 8 {
        SmallBits(i);
      }
    }
  }

  /** Bit i of the shifted byte with 0x1b folded in when bit 7 falls out. */
  lemma XtimeBit(x: bv8, i: nat)
    requires i < 8
    ensures ByteBit((x << 1) ^ (((x >> 7) & 1) * 0x1b), i) ==
      ((0 < i && ByteBit(x, i - 1)) != (ByteBit(x, 7) && (i == 0 || i == 1 || i == 3 || i == 4)))
  {
    if i == 0 {
    } else if i == 1 {
    } else if i == 2 {
    } else if i == 3 {
    } else if i == 4 {
    } else if i == 5 {
    } else if i == 6 {
    } else {
    }
  }

  /** The shift-and-fold on a byte is the field's multiplication by X. */
  lemma XtimeBits(x: bv8)
    ensures ByteBits((x << 1) ^ (((x >> 7) & 1) * 0x1b)) == BinaryField.MulX(AesField(), ByteBits(x))
  {
    var p := AesField();
    var u := ByteBits(x);
    var s := [false] + u[..7];
    var r := ByteBits((x << 1) ^ (((x >> 7) & 1) * 0x1b));
    forall i | 0 <= i < 8
      ensures r[i] == BinaryField.MulX(p, u)[i]
    {
      XtimeBit(x, i);
      assert Coef(Add(s, BinaryField.Low(p)), i) == (Coef(s, i) != Coef(BinaryField.Low(p), i));
    }
  }

  /**
   * `mul2`: multiplication by {02}, the shift left with the conditional
   * exclusive or of 0x1b (the `xtime` of FIPS-197 section 4.2.1).
   */
  function Mul2(x: bv8): bv8
  {
    (x << 1) ^ (((x >> 7) & 1) * 0x1b)
  }

  /** `mul2` multiplies the polynomial of its byte by X modulo the AES polynomial. */
  lemma Mul2Meaning(x: bv8)
    ensures ByteBits(Mul2(x)) == BinaryField.MulX(AesField(), ByteBits(x))
  {
    XtimeBits(x);
  }

  /** {02} x is the product of x by {02} in GF(2^8). */
  lemma Mul2Field(x: bv8)
    ensures ByteBits(Mul2(x)) == BinaryField.Mul(AesField(), ByteBits(0x02), ByteBits(x))
  {
    var p := AesField();
    Mul2Meaning(x);
    SmallBytes();
    BinaryField.MulByX(p, ByteBits(x));
    ClMulCongr(Shift([true], 1), ByteBits(0x02), ByteBits(x), ByteBits(x));
    BinaryField.ReduceEqv(p, ClMul(Shift([true], 1), ByteBits(x)), ClMul(ByteBits(0x02), ByteBits(x)));
  }

  /** {03} x, written {02} x + x in MixColumns, is the product of x by {03}. */
  lemma Mul3Field(x: bv8)
    ensures ByteBits(Mul2(x) ^ x) == BinaryField.Mul(AesField(), ByteBits(0x03), ByteBits(x))
  {
    var p := AesField();
    var u := ByteBits(x);
    Mul2Field(x);
    ByteBitsXor(Mul2(x), x);
    SmallBytes();
    BinaryField.MulOneLeft(p, u);
    ByteBitsXor(0x02, 0x01);
    BinaryField.MulAddLeft(p, ByteBits(0x02), ByteBits(0x01), u);
  }

  /** Exclusive or commutes with `mul2`, which is linear. */
  lemma Mul2Xor(a: bv8, b: bv8)
    ensures Mul2(a ^ b) == Mul2(a) ^ Mul2(b)
  {
  }

  /* ---- SubBytes ---- */

  /** `AES_SBOX`, the S-box table of FIPS-197 section 5.1.1 (Figure 7). */
  const AesSbox: seq<bv8> :=
    [0x63, 0x7c, 0x77, 0x7b, 0xf2, 0x6b, 0x6f, 0xc5, 0x30, 0x01, 0x67, 0x2b, 0xfe, 0xd7, 0xab, 0x76] +
    [0xca, 0x82, 0xc9, 0x7d, 0xfa, 0x59, 0x47, 0xf0, 0xad, 0xd4, 0xa2, 0xaf, 0x9c, 0xa4, 0x72, 0xc0] +
    [0xb7, 0xfd, 0x93, 0x26, 0x36, 0x3f, 0xf7, 0xcc, 0x34, 0xa5, 0xe5, 0xf1, 0x71, 0xd8, 0x31, 0x15] +
    [0x04, 0xc7, 0x23, 0xc3, 0x18, 0x96, 0x05, 0x9a, 0x07, 0x12, 0x80, 0xe2, 0xeb, 0x27, 0xb2, 0x75] +
    [0x09, 0x83, 0x2c, 0x1a, 0x1b, 0x6e, 0x5a, 0xa0, 0x52, 0x3b, 0xd6, 0xb3, 0x29, 0xe3, 0x2f, 0x84] +
    [0x53, 0xd1, 0x00, 0xed, 0x20, 0xfc, 0xb1, 0x5b, 0x6a, 0xcb, 0xbe, 0x39, 0x4a, 0x4c, 0x58, 0xcf] +
    [0xd0, 0xef, 0xaa, 0xfb, 0x43, 0x4d, 0x33, 0x85, 0x45, 0xf9, 0x02, 0x7f, 0x50, 0x3c, 0x9f, 0xa8] +
    [0x51, 0xa3, 0x40, 0x8f, 0x92, 0x9d, 0x38, 0xf5, 0xbc, 0xb6, 0xda, 0x21, 0x10, 0xff, 0xf3, 0xd2] +
    [0xcd, 0x0c, 0x13, 0xec, 0x5f, 0x97, 0x44, 0x17, 0xc4, 0xa7, 0x7e, 0x3d, 0x64, 0x5d, 0x19, 0x73] +
    [0x60, 0x81, 0x4f, 0xdc, 0x22, 0x2a, 0x90, 0x88, 0x46, 0xee, 0xb8, 0x14, 0xde, 0x5e, 0x0b, 0xdb] +
    [0xe0, 0x32, 0x3a, 0x0a, 0x49, 0x06, 0x24, 0x5c, 0xc2, 0xd3, 0xac, 0x62, 0x91, 0x95, 0xe4, 0x79] +
    [0xe7, 0xc8, 0x37, 0x6d, 0x8d, 0xd5, 0x4e, 0xa9, 0x6c, 0x56, 0xf4, 0xea, 0x65, 0x7a, 0xae, 0x08] +
    [0xba, 0x78, 0x25, 0x2e, 0x1c, 0xa6, 0xb4, 0xc6, 0xe8, 0xdd, 0x74, 0x1f, 0x4b, 0xbd, 0x8b, 0x8a] +
    [0x70, 0x3e, 0xb5, 0x66, 0x48, 0x03, 0xf6, 0x0e, 0x61, 0x35, 0x57, 0xb9, 0x86, 0xc1, 0x1d, 0x9e] +
    [0xe1, 0xf8, 0x98, 0x11, 0x69, 0xd9, 0x8e, 0x94, 0x9b, 0x1e, 0x87, 0xe9, 0xce, 0x55, 0x28, 0xdf] +
    [0x8c, 0xa1, 0x89, 0x0d, 0xbf, 0xe6, 0x42, 0x68, 0x41, 0x99, 0x2d, 0x0f, 0xb0, 0x54, 0xbb, 0x16]

  /** The S-box image of a byte. */
  function Sbox(b: bv8): bv8
  {
    AesSbox[b as int]
  }

  /** SubBytes on a state: every byte replaced by its S-box image. */
  function SubBytesSpec(s: seq<bv8>): (r: seq<bv8>)
    ensures |r| == |s| && forall i | 0 <= i < |s| :: r[i] == Sbox(s[i])
  {
    seq(|s|, i requires 0 <= i < |s| => Sbox(s[i]))
  }

  /** `subbytes`: each byte x of the state becomes `AES_SBOX[x]`, in place. */
  method SubBytes(state: array<bv8>)
    requires state.Length == 16
    modifies state
    ensures state[..] == SubBytesSpec(old(state[..]))
  {
    ghost var s := state[..];
    for i := 0 to 16
      invariant state[..] == SubBytesSpec(s)[..i] + s[i..]
    {
      ghost var t := state[..];
      state[i] := Sbox(state[i]);
      assert state[..] == t[i := Sbox(s[i])];
      SubBytesStep(t, s, i);
    }
  }

  /** Substituting byte i extends the substituted prefix by one byte. */
  lemma SubBytesStep(t: seq<bv8>, s: seq<bv8>, i: nat)
    requires i < |s| && t == SubBytesSpec(s)[..i] + s[i..]
    ensures t[i := Sbox(s[i])] == SubBytesSpec(s)[..i + 1] + s[i + 1..]
  {
    assert t[i := Sbox(s[i])] == SubBytesSpec(s)[..i + 1] + s[i + 1..];
  }

  /* ---- ShiftRows ---- */

  /** ShiftRows: row r is rotated left by r columns (FIPS-197 section 5.1.2). */
  function ShiftRowsSpec(s: seq<bv8>): (r: seq<bv8>)
    requires |s| == 16
    ensures |r| == 16
  {
    seq(16, k requires 0 <= k < 16 => s[4 * ((k / 4 + k % 4) % 4) + k % 4])
  }

  /** Its inverse, which rotates row r right by r columns (FIPS-197 section 5.3.1). */
  function InvShiftRowsSpec(s: seq<bv8>): (r: seq<bv8>)
    requires |s| == 16
    ensures |r| == 16
  {
    seq(16, k requires 0 <= k < 16 => s[4 * ((k / 4 + 4 - k % 4) % 4) + k % 4])
  }

  /** The byte moves of ShiftRows, written out. */
  lemma ShiftRowsBytes(s: seq<bv8>)
    requires |s| == 16
    ensures ShiftRowsSpec(s) == [s[0], s[5], s[10], s[15], s[4], s[9], s[14], s[3],
                                 s[8], s[13], s[2], s[7], s[12], s[1], s[6], s[11]]
  {
  }

  lemma InvShiftRowsBytes(s: seq<bv8>)
    requires |s| == 16
    ensures InvShiftRowsSpec(s) == [s[0], s[13], s[10], s[7], s[4], s[1], s[14], s[11],
                                    s[8], s[5], s[2], s[15], s[12], s[9], s[6], s[3]]
  {
  }

  /** Undoing ShiftRows gives the state back. */
  lemma ShiftRowsInverse(s: seq<bv8>)
    requires |s| == 16
    ensures InvShiftRowsSpec(ShiftRowsSpec(s)) == s
  {
    ShiftRowsBytes(s);
    InvShiftRowsBytes(ShiftRowsSpec(s));
  }

  /** The state with the bytes at i and j exchanged, which keeps the multiset of bytes. */
  function Swap(s: seq<bv8>, i: nat, j: nat): (r: seq<bv8>)
    requires i < |s| && j < |s|
    ensures multiset(r) == multiset(s)
  {
    s[i := s[j]][j := s[i]]
  }

  /** ShiftRows is a product of exchanges: three for row 1, two for row 2, three for row 3. */
  lemma ShiftRowsSwaps(s: seq<bv8>)
    requires |s| == 16
    ensures ShiftRowsSpec(s) == Swap(Swap(Swap(Swap(Swap(Swap(Swap(Swap(s, 1, 5), 5, 9), 9, 13), 2, 10), 6, 14), 3, 15), 15, 11), 11, 7)
  {
    ShiftRowsBytes(s);
  }

  /** ShiftRows only moves bytes, and leaves row 0 in place. */
  lemma ShiftRowsPermutes(s: seq<bv8>)
    requires |s| == 16
    ensures multiset(ShiftRowsSpec(s)) == multiset(s)
    ensures forall c | 0 <= c < 4 :: ShiftRowsSpec(s)[4 * c] == s[4 * c]
  {
    ShiftRowsSwaps(s);
  }

  /** a holds the bytes of b moved as ShiftRows moves them. */
  predicate ShiftedRows(a: seq<bv8>, b: seq<bv8>)
    requires |a| == 16 && |b| == 16
  {
    a[0] == b[0] && a[1] == b[5] && a[2] == b[10] && a[3] == b[15] &&
    a[4] == b[4] && a[5] == b[9] && a[6] == b[14] && a[7] == b[3] &&
    a[8] == b[8] && a[9] == b[13] && a[10] == b[2] && a[11] == b[7] &&
    a[12] == b[12] && a[13] == b[1] && a[14] == b[6] && a[15] == b[11]
  }

  lemma ShiftedRowsSpec(a: seq<bv8>, b: seq<bv8>)
    requires |a| == 16 && |b| == 16 && ShiftedRows(a, b)
    ensures a == ShiftRowsSpec(b)
  {
    var r := ShiftRowsSpec(b);
    forall k | 0 <= k < 16
      ensures a[k] == r[k]
    {
    }
  }

  /** `shiftrows`: the rotations done in place through one temporary. */
  method ShiftRows(state: array<bv8>)
    requires state.Length == 16
    modifies state
    ensures state[..] == ShiftRowsSpec(old(state[..]))
  {
    ghost var s := state[..];
    var tmp := state[1];
    state[1] := state[5];
    state[5] := state[9];
    state[9] := state[13];
    state[13] := tmp;

    tmp := state[2];
    state[2] := state[10];
    state[10] := tmp;
    tmp := state[6];
    state[6] := state[14];
    state[14] := tmp;

    tmp := state[3];
    state[3] := state[15];
    state[15] := state[11];
    state[11] := state[7];
    state[7] := tmp;
    ShiftedRowsSpec(state[..], s);
  }

  /* ---- MixColumns ---- */

  /**
   * One output byte of MixColumns: {02} a + {03} b + c + d, with {03} b written
   * {02} b + b (FIPS-197 section 5.1.3).
   */
  function MixRow(a: bv8, b: bv8, c: bv8, d: bv8): bv8
  {
    Mul2(a) ^ (Mul2(b) ^ b) ^ c ^ d
  }

  /** The exclusive or of four bytes is the sum of their polynomials. */
  lemma SumOfFour(x: bv8, y: bv8, c: bv8, d: bv8)
    ensures ByteBits(x ^ y ^ c ^ d) == Add(Add(Add(ByteBits(x), ByteBits(y)), ByteBits(c)), ByteBits(d))
  {
    var xy := x ^ y;
    var xyc := xy ^ c;
    ByteBitsXor(x, y);
    ByteBitsXor(xy, c);
    ByteBitsXor(xyc, d);
  }

  /** An output byte of MixColumns as the sum of the polynomials of its four terms. */
  lemma MixRowSum(a: bv8, b: bv8, c: bv8, d: bv8, u: Poly, v: Poly)
    requires ByteBits(Mul2(a)) == u && ByteBits(Mul2(b) ^ b) == v
    ensures ByteBits(MixRow(a, b, c, d)) == Add(Add(Add(u, v), ByteBits(c)), ByteBits(d))
  {
    SumOfFour(Mul2(a), Mul2(b) ^ b, c, d);
  }

  /** An output byte of MixColumns as the field expression {02} a + {03} b + c + d. */
  lemma MixRowField(a: bv8, b: bv8, c: bv8, d: bv8)
    ensures ByteBits(MixRow(a, b, c, d)) ==
      Add(Add(Add(BinaryField.Mul(AesField(), ByteBits(0x02), ByteBits(a)),
                  BinaryField.Mul(AesField(), ByteBits(0x03), ByteBits(b))), ByteBits(c)), ByteBits(d))
  {
    Mul2Field(a);
    Mul3Field(b);
    MixRowSum(a, b, c, d, BinaryField.Mul(AesField(), ByteBits(0x02), ByteBits(a)),
              BinaryField.Mul(AesField(), ByteBits(0x03), ByteBits(b)));
  }

  /** Row r of column c after MixColumns, rows counted modulo 4 within the column. */
  function MixByte(s: seq<bv8>, c: nat, r: nat): bv8
    requires |s| == 16 && c < 4 && r < 4
  {
    MixRow(s[4 * c + r], s[4 * c + (r + 1) % 4], s[4 * c + (r + 2) % 4], s[4 * c + (r + 3) % 4])
  }

  function MixColumnsSpec(s: seq<bv8>): (r: seq<bv8>)
    requires |s| == 16
    ensures |r| == 16
  {
    seq(16, k requires 0 <= k < 16 => MixByte(s, k / 4, k % 4))
  }

  /** One byte updated the way the source does it: x0 ^= mul2(x0 ^ x1) ^ x. */
  lemma MixColumnBytes(x0: bv8, x1: bv8, x2: bv8, x3: bv8, x: bv8)
    requires x == x0 ^ x1 ^ x2 ^ x3
    ensures x0 ^ (Mul2(x0 ^ x1) ^ x) == MixRow(x0, x1, x2, x3)
  {
    Mul2Xor(x0, x1);
  }

  /** The first 4 i bytes of m followed by the rest of s. */
  function Splice(s: seq<bv8>, m: seq<bv8>, i: nat): (r: seq<bv8>)
    requires |s| == 16 && |m| == 16 && i <= 4
    ensures |r| == 16
    ensures forall k | 0 <= k < 16 :: r[k] == if k < 4 * i then m[k] else s[k]
  {
    m[..4 * i] + s[4 * i..]
  }

  lemma SpliceEnds(s: seq<bv8>, m: seq<bv8>)
    requires |s| == 16 && |m| == 16
    ensures Splice(s, m, 0) == s && Splice(s, m, 4) == m
  {
    assert Splice(s, m, 0) == s;
    assert Splice(s, m, 4) == m;
  }

  /** Writing the four bytes of column i of m extends the splice by one column. */
  lemma SpliceStep(t: seq<bv8>, s: seq<bv8>, m: seq<bv8>, i: nat, y0: bv8, y1: bv8, y2: bv8, y3: bv8)
    requires |s| == 16 && |m| == 16 && i < 4 && t == Splice(s, m, i)
    requires y0 == m[4 * i] && y1 == m[4 * i + 1] && y2 == m[4 * i + 2] && y3 == m[4 * i + 3]
    ensures t[4 * i := y0][4 * i + 1 := y1][4 * i + 2 := y2][4 * i + 3 := y3] == Splice(s, m, i + 1)
  {
    var u := t[4 * i := y0][4 * i + 1 := y1][4 * i + 2 := y2][4 * i + 3 := y3];
    var v := Splice(s, m, i + 1);
    forall k | 0 <= k < 16
      ensures u[k] == v[k]
    {
    }
  }

  /** Column i of MixColumnsSpec(s), row by row. */
  lemma MixColumnAt(s: seq<bv8>, i: nat)
    requires |s| == 16 && i < 4
    ensures var m, a, b, c, d := MixColumnsSpec(s), s[4 * i], s[4 * i + 1], s[4 * i + 2], s[4 * i + 3];
      m[4 * i] == MixRow(a, b, c, d) && m[4 * i + 1] == MixRow(b, c, d, a) &&
      m[4 * i + 2] == MixRow(c, d, a, b) && m[4 * i + 3] == MixRow(d, a, b, c)
  {
    ColumnIndex(i, 0);
    ColumnIndex(i, 1);
    ColumnIndex(i, 2);
    ColumnIndex(i, 3);
  }

  /** Byte 4 i + r of the state is row r of column i. */
  lemma ColumnIndex(i: nat, r: nat)
    requires i < 4 && r < 4
    ensures (4 * i + r) / 4 == i && (4 * i + r) % 4 == r
  {
  }

  /** `mixcolumns`: each column read into four temporaries, then rewritten. */
  method MixColumns(state: array<bv8>)
    requires state.Length == 16
    modifies state
    ensures state[..] == MixColumnsSpec(old(state[..]))
  {
    ghost var s := state[..];
    ghost var m := MixColumnsSpec(s);
    SpliceEnds(s, m);
    for i := 0 to 4
      invariant state[..] == Splice(s, m, i)
    {
      ghost var t := state[..];
      var x0 := state[4 * i];
      var x1 := state[4 * i + 1];
      var x2 := state[4 * i + 2];
      var x3 := state[4 * i + 3];
      var x := x0 ^ x1 ^ x2 ^ x3;
      // Each byte gets mul2 of its xor with the next byte, and x, xored in.
      var y0, y1, y2, y3 := x0 ^ (Mul2(x0 ^ x1) ^ x), x1 ^ (Mul2(x1 ^ x2) ^ x), x2 ^ (Mul2(x2 ^ x3) ^ x), x3 ^ (Mul2(x3 ^ x0) ^ x);
      MixColumnAt(s, i);
      MixColumnBytes(x0, x1, x2, x3, x);
      MixColumnBytes(x1, x2, x3, x0, x);
      MixColumnBytes(x2, x3, x0, x1, x);
      MixColumnBytes(x3, x0, x1, x2, x);
      SpliceStep(t, s, m, i, y0, y1, y2, y3);
      state[4 * i], state[4 * i + 1], state[4 * i + 2], state[4 * i + 3] := y0, y1, y2, y3;
      assert state[..] == t[4 * i := y0][4 * i + 1 := y1][4 * i + 2 := y2][4 * i + 3 := y3];
    }
    SpliceEnds(s, m);
  }

  /* ---- AddRoundKey ---- */

  /** Byte-wise exclusive or of the state and the round key (FIPS-197 section 5.1.4). */
  function AddRoundKeySpec(s: seq<bv8>, k: seq<bv8>): (r: seq<bv8>)
    requires |s| == |k|
    ensures |r| == |s| && forall i | 0 <= i < |s| :: r[i] == s[i] ^ k[i]
  {
    seq(|s|, i requires 0 <= i < |s| => s[i] ^ k[i])
  }

  /** Adding the same round key twice gives the state back. */
  lemma AddRoundKeyTwice(s: seq<bv8>, k: seq<bv8>)
    requires |s| == |k|
    ensures AddRoundKeySpec(AddRoundKeySpec(s, k), k) == s
  {
    var r := AddRoundKeySpec(AddRoundKeySpec(s, k), k);
    forall i | 0 <= i < |s|
      ensures r[i] == s[i]
    {
      XorTwice(s[i], k[i]);
    }
  }

  lemma XorTwice(a: bv8, b: bv8)
    ensures a ^ b ^ b == a
  {
  }

  /** `addroundkey`: state[i] ^= rkey[i] for the sixteen bytes; the key is only read. */
  method AddRoundKey(state: array<bv8>, rkey: array<bv8>)
    requires state.Length == 16 && rkey.Length == 16 && state != rkey
    modifies state
    ensures state[..] == AddRoundKeySpec(old(state[..]), rkey[..])
  {
    ghost var s0 := state[..];
    for i := 0 to 16
      invariant forall k | 0 <= k < i :: state[k] == s0[k] ^ rkey[k]
      invariant forall k | i <= k < 16 :: state[k] == s0[k]
    {
      state[i] := state[i] ^ rkey[i];
    }
    assert state[..] == AddRoundKeySpec(s0, rkey[..]);
  }

  /* ---- The round ---- */

  /** One middle round of the cipher of FIPS-197 section 5.1 under the round key k. */
  function AesRound(s: seq<bv8>, k: seq<bv8>): (r: seq<bv8>)
    requires |s| == 16 && |k| == 16
    ensures |r| == 16
  {
    AddRoundKeySpec(MixColumnsSpec(ShiftRowsSpec(SubBytesSpec(s))), k)
  }

  /** `aesenc_fallback`: the round done in place on the block; the status is 1. */
  method AesencFallback(block: array<bv8>, key: array<bv8>) returns (status: bv32)
    requires block.Length == 16 && key.Length == 16 && block != key
    modifies block
    ensures block[..] == AesRound(old(block[..]), key[..]) && status == 1
  {
    SubBytes(block);
    ShiftRows(block);
    MixColumns(block);
    AddRoundKey(block, key);
    status := 1;
  }

  lemma Sbox01()
    ensures Sbox(0x01) == 0x7c
  {
  }

  /** A block of sixteen copies of b. */
  function Block(b: bv8): (r: seq<bv8>)
    ensures |r| == 16 && forall k | 0 <= k < 16 :: r[k] == b
  {
    seq(16, _ => b)
  }

  /** MixColumns maps a column of four equal bytes to itself: {02} + {03} + 1 + 1 = 1. */
  lemma MixRowSame(b: bv8)
    ensures MixRow(b, b, b, b) == b
  {
  }

  /** On a block of equal bytes, each step acts byte by byte or not at all. */
  lemma SubBytesBlock(b: bv8)
    ensures SubBytesSpec(Block(b)) == Block(Sbox(b))
  {
    assert SubBytesSpec(Block(b)) == Block(Sbox(b));
  }

  lemma ShiftRowsBlock(b: bv8)
    ensures ShiftRowsSpec(Block(b)) == Block(b)
  {
    assert ShiftRowsSpec(Block(b)) == Block(b);
  }

  lemma MixColumnsBlock(b: bv8)
    ensures MixColumnsSpec(Block(b)) == Block(b)
  {
    var m, c := MixColumnsSpec(Block(b)), Block(b);
    forall k | 0 <= k < 16
      ensures m[k] == c[k]
    {
      MixRowSame(b);
    }
  }

  lemma AddRoundKeyBlock(b: bv8, k: bv8)
    ensures AddRoundKeySpec(Block(b), Block(k)) == Block(b ^ k)
  {
    assert AddRoundKeySpec(Block(b), Block(k)) == Block(b ^ k);
  }

  /** A block of bytes 0x01 under a key of bytes 0x02 becomes a block of bytes 0x7e. */
  lemma AesRoundKnownVector()
    ensures AesRound(Block(0x01), Block(0x02)) == Block(0x7e)
  {
    Sbox01();
    SubBytesBlock(0x01);
    ShiftRowsBlock(0x7c);
    MixColumnsBlock(0x7c);
    AddRoundKeyBlock(0x7c, 0x02);
  }

  /* ---- Inversion wrappers ---- */

  /** Shared body of the wrappers: the buffer becomes `invert(from_words(buf)).to_words()`. */
  method InvertFallback(t: GF2nMul.Target, f: Field, bytes: array<bv64>)
    requires bytes.Length == NWords(f)
    modifies bytes
    ensures Bits(bytes[..]) == GF2nMul.Inverse(Modulus(f), Bits(old(bytes[..])))
  {
    var x := GF2n.FromWords(f, bytes[..]);
    var r := GF2nMul.Invert(t, f, x);
    ghost var y := GF2nMul.Inverse(Modulus(f), GF2n.Value(x));
    assert GF2n.Value(r) == y;
    var ws := GF2n.ToWords(f, r);
    GF2nMul.StoreWords(bytes, ws);
    assert Bits(bytes[..]) == y;
  }

  /** `gf64_invert_fallback`: one word inverted in place. */
  method Gf64InvertFallback(t: GF2nMul.Target, bytes: array<bv64>)
    requires bytes.Length == 1
    modifies bytes
    ensures Bits(bytes[..]) == GF2nMul.Inverse(Modulus(GF64), Bits(old(bytes[..])))
  {
    InvertFallback(t, GF64, bytes);
  }

  /** `gf128_invert_fallback`: two words inverted in place. */
  method Gf128InvertFallback(t: GF2nMul.Target, bytes: array<bv64>)
    requires bytes.Length == 2
    modifies bytes
    ensures Bits(bytes[..]) == GF2nMul.Inverse(Modulus(GF128), Bits(old(bytes[..])))
  {
    InvertFallback(t, GF128, bytes);
  }

  /** `gf256_invert_fallback`: four words inverted in place. */
  method Gf256InvertFallback(t: GF2nMul.Target, bytes: array<bv64>)
    requires bytes.Length == 4
    modifies bytes
    ensures Bits(bytes[..]) == GF2nMul.Inverse(Modulus(GF256), Bits(old(bytes[..])))
  {
    InvertFallback(t, GF256, bytes);
  }
}
