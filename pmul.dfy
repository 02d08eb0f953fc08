/**
 * The carry-less 64-bit multiplication `pmul` and its three strategies: the
 * PCLMULQDQ instruction on x86, PMULL (`vmull_p64`) on AArch64, and a portable
 * shift-and-xor loop. Each returns the 128-bit product and the name of the
 * strategy that computed it.
 *
 * CPU feature detection (`is_x86_feature_detected!`, `is_aarch64_feature_detected!`)
 * and the compilation target (`#[cfg(target_arch)]`) become parameters.
 */
module Pmul {
  import opened Poly
  import opened Words
  import opened Wide
  import opened Clmul

  /** The compilation target. */
  datatype Arch = X86 | X86_64 | Aarch64 | OtherArch

  /** The CPU features that the run-time detection reports. */
  datatype CpuFeatures = CpuFeatures(sse2: bool, pclmulqdq: bool, neon: bool, aes: bool)

  predicate IsX86(arch: Arch)
  {
    arch == X86 || arch == X86_64
  }

  /* ---- The x86 intrinsics ---- */

  /** `_mm_set_epi64x(hi, lo)`: a 128-bit register from two 64-bit lanes. */
  function SetEpi64x(hi: bv64, lo: bv64): (r: bv128)
    ensures Low64(r) == lo && High64(r) == hi
  {
    var r := (hi as bv128 << 64) | lo as bv128;
    HalvesSet(hi, lo, r);
    r
  }

  /**
   * `_mm_clmulepi64_si128(x, y, imm)`: bit 0 of imm selects the lane of x and
   * bit 4 the lane of y; the result is their carry-less product.
   */
  function ClmulEpi64(x: bv128, y: bv128, imm: bv8): (r: bv128)
    ensures WideBits(r) == ClMul(WordBits(if imm & 0x01 == 0 then Low64(x) else High64(x)),
                                 WordBits(if imm & 0x10 == 0 then Low64(y) else High64(y)))
  {
    var a := if imm & 0x01 == 0 then Low64(x) else High64(x);
    var b := if imm & 0x10 == 0 then Low64(y) else High64(y);
    Clmul64(a, b)
  }

  /** `pmul_x86_clmul`: both operands in the low lanes, selector 0. */
  function PmulX86Clmul(a: bv64, b: bv64): (r: (bv128, string))
    ensures WideBits(r.0) == ClMul(WordBits(a), WordBits(b))
    ensures r.1 == "x86_clmul"
  {
    var x := SetEpi64x(0, a);
    var y := SetEpi64x(0, b);
    (ClmulEpi64(x, y, 0), "x86_clmul")
  }

  /** `pmul_aarch64_neon`: the `vmull_p64` intrinsic. */
  function PmulAarch64Neon(a: bv64, b: bv64): (r: (bv128, string))
    ensures WideBits(r.0) == ClMul(WordBits(a), WordBits(b))
    ensures r.1 == "aarch64_neon"
  {
    (Clmul64(a, b), "aarch64_neon")
  }

  /* ---- The portable loop ---- */

  lemma PartialProductNext(a: bv64, b: bv64, i: nat, p: bv128, t: bv128, p': bv128)
    requires i < 64 && p == PartialProduct(a, b, i) && t == ShiftedCopy(b, i)
    requires p' == if WordBits(a)[i] then p ^ t else p
    ensures p' == PartialProduct(a, b, i + 1)
  {
    var q := Term(a, b, i);
    assert PartialProduct(a, b, i + 1) == Xor128(p, q);
    if WordBits(a)[i] {
      XorIs(p, t, p');
    } else {
      XorIs(p, 0, p');
    }
  }

  lemma XorIs(x: bv128, y: bv128, z: bv128)
    requires z == x ^ y || (y == 0 && z == x)
    ensures Xor128(x, y) == z
  {
  }

  /**
   * `pmul_nosimd`: xor `(b as u128) << i` into the result for every set bit i of a.
   * The result is the carry-less product, so it agrees with both intrinsics.
   */
  method PmulNosimd(a: bv64, b: bv64) returns (result: bv128, strategy: string)
    ensures WideBits(result) == ClMul(WordBits(a), WordBits(b))
    ensures result == Clmul64(a, b) && result < 1 << 127
    ensures strategy == "nosimd"
  {
    var tmp: bv128 := b as bv128;
    result := 0;
    for i := 0 to 64
      invariant tmp == ShiftedCopy(b, i)
      invariant result == PartialProduct(a, b, i)
    {
      ghost var before := result;
      if BitSet(a, i) {
        result := result ^ tmp;
      }
      PartialProductNext(a, b, i, before, tmp, result);
      tmp := Shl1(tmp);
    }
    Clmul64Top(a, b);
    strategy := "nosimd";
  }

  /* ---- Dispatch ---- */

  /**
   * `pmul`: the x86 instruction when sse2 and pclmulqdq are detected, the AArch64
   * instruction when neon and aes are detected, the portable loop otherwise.
   * Every path returns the same product; the name depends only on the target and
   * the features.
   */
  method Pmul(arch: Arch, f: CpuFeatures, a: bv64, b: bv64) returns (result: bv128, strategy: string)
    ensures result == Clmul64(a, b)
    ensures strategy == "x86_clmul" <==> IsX86(arch) && f.sse2 && f.pclmulqdq
    ensures strategy == "aarch64_neon" <==> arch == Aarch64 && f.neon && f.aes
    ensures strategy == "nosimd" <==>
      !(IsX86(arch) && f.sse2 && f.pclmulqdq) && !(arch == Aarch64 && f.neon && f.aes)
  {
    if IsX86(arch) && f.sse2 && f.pclmulqdq {
      var r := PmulX86Clmul(a, b);
      WideBitsInjective(r.0, Clmul64(a, b));
      return r.0, r.1;
    }
    if arch == Aarch64 && f.neon && f.aes {
      var r := PmulAarch64Neon(a, b);
      return r.0, r.1;
    }
    result, strategy := PmulNosimd(a, b);
  }

  /**
   * `pmul_cheat`: as `pmul`, except that on AArch64 only neon is checked, not aes.
   * The product is the same on every path.
   */
  method PmulCheat(arch: Arch, f: CpuFeatures, a: bv64, b: bv64) returns (result: bv128, strategy: string)
    ensures result == Clmul64(a, b)
    ensures strategy == "x86_clmul" <==> IsX86(arch) && f.sse2 && f.pclmulqdq
    ensures strategy == "aarch64_neon" <==> arch == Aarch64 && f.neon
    ensures strategy == "nosimd" <==>
      !(IsX86(arch) && f.sse2 && f.pclmulqdq) && !(arch == Aarch64 && f.neon)
  {
    if IsX86(arch) && f.sse2 && f.pclmulqdq {
      var r := PmulX86Clmul(a, b);
      WideBitsInjective(r.0, Clmul64(a, b));
      return r.0, r.1;
    }
    if arch == Aarch64 && f.neon {
      var r := PmulAarch64Neon(a, b);
      return r.0, r.1;
    }
    result, strategy := PmulNosimd(a, b);
  }

  /* ---- The test vector ---- */

  lemma KnownSteps0(a: bv64, b: bv64)
    requires a == 0x1234567890abcdef && b == 0xfedcba0987654321
    ensures ShiftedCopy(b, 16) == 0xfedcba09876543210000
    ensures PartialProduct(a, b, 16) == 0x44703412f0280347810f
  {
    ToBvLit(0, 0);
    WordBitsAt(a, 0);
    assert WordBits(a)[0] == true;
    assert Term(a, b, 0) == 0xfedcba0987654321;
    assert ShiftedCopy(b, 1) == 0x1fdb974130eca8642;
    assert PartialProduct(a, b, 1) == 0xfedcba0987654321;
    ToBvLit(1, 1);
    WordBitsAt(a, 1);
    assert WordBits(a)[1] == true;
    assert Term(a, b, 1) == 0x1fdb974130eca8642;
    assert ShiftedCopy(b, 2) == 0x3fb72e8261d950c84;
    assert PartialProduct(a, b, 2) == 0x10365ce1a89afc563;
    ToBvLit(2, 2);
    WordBitsAt(a, 2);
    assert WordBits(a)[2] == true;
    assert Term(a, b, 2) == 0x3fb72e8261d950c84;
    assert ShiftedCopy(b, 3) == 0x7f6e5d04c3b2a1908;
    assert PartialProduct(a, b, 3) == 0x2f817263c943ac9e7;
    ToBvLit(3, 3);
    WordBitsAt(a, 3);
    assert WordBits(a)[3] == true;
    assert Term(a, b, 3) == 0x7f6e5d04c3b2a1908;
    assert ShiftedCopy(b, 4) == 0xfedcba09876543210;
    assert PartialProduct(a, b, 4) == 0x50ef2f670af10d0ef;
    ToBvLit(4, 4);
    WordBitsAt(a, 4);
    assert WordBits(a)[4] == false;
    assert Term(a, b, 4) == 0x0;
    assert ShiftedCopy(b, 5) == 0x1fdb974130eca86420;
    assert PartialProduct(a, b, 5) == 0x50ef2f670af10d0ef;
    ToBvLit(5, 5);
    WordBitsAt(a, 5);
    assert WordBits(a)[5] == true;
    assert Term(a, b, 5) == 0x1fdb974130eca86420;
    assert ShiftedCopy(b, 6) == 0x3fb72e8261d950c840;
    assert PartialProduct(a, b, 6) == 0x1ad565b74043b8b4cf;
    ToBvLit(6, 6);
    WordBitsAt(a, 6);
    assert WordBits(a)[6] == true;
    assert Term(a, b, 6) == 0x3fb72e8261d950c840;
    assert ShiftedCopy(b, 7) == 0x7f6e5d04c3b2a19080;
    assert PartialProduct(a, b, 7) == 0x25624b35219ae87c8f;
    ToBvLit(7, 7);
    WordBitsAt(a, 7);
    assert WordBits(a)[7] == true;
    assert Term(a, b, 7) == 0x7f6e5d04c3b2a19080;
    assert ShiftedCopy(b, 8) == 0xfedcba098765432100;
    assert PartialProduct(a, b, 8) == 0x5a0c1631e22849ec0f;
    ToBvLit(8, 8);
    WordBitsAt(a, 8);
    assert WordBits(a)[8] == true;
    assert Term(a, b, 8) == 0xfedcba098765432100;
    assert ShiftedCopy(b, 9) == 0x1fdb974130eca864200;
    assert PartialProduct(a, b, 9) == 0xa4d0ac38654d0acd0f;
    ToBvLit(9, 9);
    WordBitsAt(a, 9);
    assert WordBits(a)[9] == false;
    assert Term(a, b, 9) == 0x0;
    assert ShiftedCopy(b, 10) == 0x3fb72e8261d950c8400;
    assert PartialProduct(a, b, 10) == 0xa4d0ac38654d0acd0f;
    ToBvLit(10, 10);
    WordBitsAt(a, 10);
    assert WordBits(a)[10] == true;
    assert Term(a, b, 10) == 0x3fb72e8261d950c8400;
    assert ShiftedCopy(b, 11) == 0x7f6e5d04c3b2a190800;
    assert PartialProduct(a, b, 11) == 0x35fa2441e78d806490f;
    ToBvLit(11, 11);
    WordBitsAt(a, 11);
    assert WordBits(a)[11] == true;
    assert Term(a, b, 11) == 0x7f6e5d04c3b2a190800;
    assert ShiftedCopy(b, 12) == 0xfedcba0987654321000;
    assert PartialProduct(a, b, 12) == 0x4a947945243f21f410f;
    ToBvLit(12, 12);
    WordBitsAt(a, 12);
    assert WordBits(a)[12] == false;
    assert Term(a, b, 12) == 0x0;
    assert ShiftedCopy(b, 13) == 0x1fdb974130eca8642000;
    assert PartialProduct(a, b, 13) == 0x4a947945243f21f410f;
    ToBvLit(13, 13);
    WordBitsAt(a, 13);
    assert WordBits(a)[13] == false;
    assert Term(a, b, 13) == 0x0;
    assert ShiftedCopy(b, 14) == 0x3fb72e8261d950c84000;
    assert PartialProduct(a, b, 14) == 0x4a947945243f21f410f;
    ToBvLit(14, 14);
    WordBitsAt(a, 14);
    assert WordBits(a)[14] == true;
    assert Term(a, b, 14) == 0x3fb72e8261d950c84000;
    assert ShiftedCopy(b, 15) == 0x7f6e5d04c3b2a1908000;
    assert PartialProduct(a, b, 15) == 0x3b1e6916339aa2d7010f;
    ToBvLit(15, 15);
    WordBitsAt(a, 15);
    assert WordBits(a)[15] == true;
    assert Term(a, b, 15) == 0x7f6e5d04c3b2a1908000;
    assert ShiftedCopy(b, 16) == 0xfedcba09876543210000;
    assert PartialProduct(a, b, 16) == 0x44703412f0280347810f;
  }

  lemma KnownSteps1(a: bv64, b: bv64)
    requires a == 0x1234567890abcdef && b == 0xfedcba0987654321
    ensures ShiftedCopy(b, 32) == 0xfedcba098765432100000000
    ensures PartialProduct(a, b, 32) == 0x70e5929e3473e906bb8c810f
  {
    KnownSteps0(a, b);
    ToBvLit(16, 16);
    WordBitsAt(a, 16);
    assert WordBits(a)[16] == true;
    assert Term(a, b, 16) == 0xfedcba09876543210000;
    assert ShiftedCopy(b, 17) == 0x1fdb974130eca86420000;
    assert PartialProduct(a, b, 17) == 0xbaac8e1b774d4066810f;
    ToBvLit(17, 17);
    WordBitsAt(a, 17);
    assert WordBits(a)[17] == true;
    assert Term(a, b, 17) == 0x1fdb974130eca86420000;
    assert ShiftedCopy(b, 18) == 0x3fb72e8261d950c840000;
    assert PartialProduct(a, b, 18) == 0x14715fa087987c624810f;
    ToBvLit(18, 18);
    WordBitsAt(a, 18);
    assert WordBits(a)[18] == false;
    assert Term(a, b, 18) == 0x0;
    assert ShiftedCopy(b, 19) == 0x7f6e5d04c3b2a19080000;
    assert PartialProduct(a, b, 19) == 0x14715fa087987c624810f;
    ToBvLit(19, 19);
    WordBitsAt(a, 19);
    assert WordBits(a)[19] == true;
    assert Term(a, b, 19) == 0x7f6e5d04c3b2a19080000;
    assert ShiftedCopy(b, 20) == 0xfedcba098765432100000;
    assert PartialProduct(a, b, 20) == 0x6b1f02a4442addf2c810f;
    ToBvLit(20, 20);
    WordBitsAt(a, 20);
    assert WordBits(a)[20] == false;
    assert Term(a, b, 20) == 0x0;
    assert ShiftedCopy(b, 21) == 0x1fdb974130eca864200000;
    assert PartialProduct(a, b, 21) == 0x6b1f02a4442addf2c810f;
    ToBvLit(21, 21);
    WordBitsAt(a, 21);
    assert WordBits(a)[21] == true;
    assert Term(a, b, 21) == 0x1fdb974130eca864200000;
    assert ShiftedCopy(b, 22) == 0x3fb72e8261d950c8400000;
    assert PartialProduct(a, b, 22) == 0x196a676b74ae05bb0c810f;
    ToBvLit(22, 22);
    WordBitsAt(a, 22);
    assert WordBits(a)[22] == false;
    assert Term(a, b, 22) == 0x0;
    assert ShiftedCopy(b, 23) == 0x7f6e5d04c3b2a190800000;
    assert PartialProduct(a, b, 23) == 0x196a676b74ae05bb0c810f;
    ToBvLit(23, 23);
    WordBitsAt(a, 23);
    assert WordBits(a)[23] == true;
    assert Term(a, b, 23) == 0x7f6e5d04c3b2a190800000;
    assert ShiftedCopy(b, 24) == 0xfedcba0987654321000000;
    assert PartialProduct(a, b, 24) == 0x66043a6fb71ca42b8c810f;
    ToBvLit(24, 24);
    WordBitsAt(a, 24);
    assert WordBits(a)[24] == false;
    assert Term(a, b, 24) == 0x0;
    assert ShiftedCopy(b, 25) == 0x1fdb974130eca8642000000;
    assert PartialProduct(a, b, 25) == 0x66043a6fb71ca42b8c810f;
    ToBvLit(25, 25);
    WordBitsAt(a, 25);
    assert WordBits(a)[25] == false;
    assert Term(a, b, 25) == 0x0;
    assert ShiftedCopy(b, 26) == 0x3fb72e8261d950c84000000;
    assert PartialProduct(a, b, 26) == 0x66043a6fb71ca42b8c810f;
    ToBvLit(26, 26);
    WordBitsAt(a, 26);
    assert WordBits(a)[26] == false;
    assert Term(a, b, 26) == 0x0;
    assert ShiftedCopy(b, 27) == 0x7f6e5d04c3b2a1908000000;
    assert PartialProduct(a, b, 27) == 0x66043a6fb71ca42b8c810f;
    ToBvLit(27, 27);
    WordBitsAt(a, 27);
    assert WordBits(a)[27] == false;
    assert Term(a, b, 27) == 0x0;
    assert ShiftedCopy(b, 28) == 0xfedcba09876543210000000;
    assert PartialProduct(a, b, 28) == 0x66043a6fb71ca42b8c810f;
    ToBvLit(28, 28);
    WordBitsAt(a, 28);
    assert WordBits(a)[28] == true;
    assert Term(a, b, 28) == 0xfedcba09876543210000000;
    assert ShiftedCopy(b, 29) == 0x1fdb974130eca86420000000;
    assert PartialProduct(a, b, 29) == 0xf8bcf9af7c148963b8c810f;
    ToBvLit(29, 29);
    WordBitsAt(a, 29);
    assert WordBits(a)[29] == false;
    assert Term(a, b, 29) == 0x0;
    assert ShiftedCopy(b, 30) == 0x3fb72e8261d950c840000000;
    assert PartialProduct(a, b, 30) == 0xf8bcf9af7c148963b8c810f;
    ToBvLit(30, 30);
    WordBitsAt(a, 30);
    assert WordBits(a)[30] == false;
    assert Term(a, b, 30) == 0x0;
    assert ShiftedCopy(b, 31) == 0x7f6e5d04c3b2a19080000000;
    assert PartialProduct(a, b, 31) == 0xf8bcf9af7c148963b8c810f;
    ToBvLit(31, 31);
    WordBitsAt(a, 31);
    assert WordBits(a)[31] == true;
    assert Term(a, b, 31) == 0x7f6e5d04c3b2a19080000000;
    assert ShiftedCopy(b, 32) == 0xfedcba098765432100000000;
    assert PartialProduct(a, b, 32) == 0x70e5929e3473e906bb8c810f;
  }

  lemma KnownSteps2(a: bv64, b: bv64)
    requires a == 0x1234567890abcdef && b == 0xfedcba0987654321
    ensures ShiftedCopy(b, 48) == 0xfedcba0987654321000000000000
    ensures PartialProduct(a, b, 48) == 0x327429cceda71785f87ebb8c810f
  {
    KnownSteps1(a, b);
    ToBvLit(32, 32);
    WordBitsAt(a, 32);
    assert WordBits(a)[32] == false;
    assert Term(a, b, 32) == 0x0;
    assert ShiftedCopy(b, 33) == 0x1fdb974130eca864200000000;
    assert PartialProduct(a, b, 33) == 0x70e5929e3473e906bb8c810f;
    ToBvLit(33, 33);
    WordBitsAt(a, 33);
    assert WordBits(a)[33] == false;
    assert Term(a, b, 33) == 0x0;
    assert ShiftedCopy(b, 34) == 0x3fb72e8261d950c8400000000;
    assert PartialProduct(a, b, 34) == 0x70e5929e3473e906bb8c810f;
    ToBvLit(34, 34);
    WordBitsAt(a, 34);
    assert WordBits(a)[34] == false;
    assert Term(a, b, 34) == 0x0;
    assert ShiftedCopy(b, 35) == 0x7f6e5d04c3b2a190800000000;
    assert PartialProduct(a, b, 35) == 0x70e5929e3473e906bb8c810f;
    ToBvLit(35, 35);
    WordBitsAt(a, 35);
    assert WordBits(a)[35] == true;
    assert Term(a, b, 35) == 0x7f6e5d04c3b2a190800000000;
    assert ShiftedCopy(b, 36) == 0xfedcba0987654321000000000;
    assert PartialProduct(a, b, 36) == 0x7860042d20f59f00ebb8c810f;
    ToBvLit(36, 36);
    WordBitsAt(a, 36);
    assert WordBits(a)[36] == true;
    assert Term(a, b, 36) == 0xfedcba0987654321000000000;
    assert ShiftedCopy(b, 37) == 0x1fdb974130eca8642000000000;
    assert PartialProduct(a, b, 37) == 0x86bcbe24a790dc21ebb8c810f;
    ToBvLit(37, 37);
    WordBitsAt(a, 37);
    assert WordBits(a)[37] == true;
    assert Term(a, b, 37) == 0x1fdb974130eca8642000000000;
    assert ShiftedCopy(b, 38) == 0x3fb72e8261d950c84000000000;
    assert PartialProduct(a, b, 38) == 0x17b05ca37a95a5a63ebb8c810f;
    ToBvLit(38, 38);
    WordBitsAt(a, 38);
    assert WordBits(a)[38] == true;
    assert Term(a, b, 38) == 0x3fb72e8261d950c84000000000;
    assert ShiftedCopy(b, 39) == 0x7f6e5d04c3b2a1908000000000;
    assert PartialProduct(a, b, 39) == 0x280772211b4cf56e7ebb8c810f;
    ToBvLit(39, 39);
    WordBitsAt(a, 39);
    assert WordBits(a)[39] == false;
    assert Term(a, b, 39) == 0x0;
    assert ShiftedCopy(b, 40) == 0xfedcba09876543210000000000;
    assert PartialProduct(a, b, 40) == 0x280772211b4cf56e7ebb8c810f;
    ToBvLit(40, 40);
    WordBitsAt(a, 40);
    assert WordBits(a)[40] == false;
    assert Term(a, b, 40) == 0x0;
    assert ShiftedCopy(b, 41) == 0x1fdb974130eca86420000000000;
    assert PartialProduct(a, b, 41) == 0x280772211b4cf56e7ebb8c810f;
    ToBvLit(41, 41);
    WordBitsAt(a, 41);
    assert WordBits(a)[41] == true;
    assert Term(a, b, 41) == 0x1fdb974130eca86420000000000;
    assert ShiftedCopy(b, 42) == 0x3fb72e8261d950c840000000000;
    assert PartialProduct(a, b, 42) == 0x1d5be06321586732c7ebb8c810f;
    ToBvLit(42, 42);
    WordBitsAt(a, 42);
    assert WordBits(a)[42] == true;
    assert Term(a, b, 42) == 0x3fb72e8261d950c840000000000;
    assert ShiftedCopy(b, 43) == 0x7f6e5d04c3b2a19080000000000;
    assert PartialProduct(a, b, 43) == 0x22eccee1408137fa87ebb8c810f;
    ToBvLit(43, 43);
    WordBitsAt(a, 43);
    assert WordBits(a)[43] == false;
    assert Term(a, b, 43) == 0x0;
    assert ShiftedCopy(b, 44) == 0xfedcba098765432100000000000;
    assert PartialProduct(a, b, 44) == 0x22eccee1408137fa87ebb8c810f;
    ToBvLit(44, 44);
    WordBitsAt(a, 44);
    assert WordBits(a)[44] == true;
    assert Term(a, b, 44) == 0xfedcba098765432100000000000;
    assert ShiftedCopy(b, 45) == 0x1fdb974130eca864200000000000;
    assert PartialProduct(a, b, 45) == 0xdc3074e8c7e474db87ebb8c810f;
    ToBvLit(45, 45);
    WordBitsAt(a, 45);
    assert WordBits(a)[45] == false;
    assert Term(a, b, 45) == 0x0;
    assert ShiftedCopy(b, 46) == 0x3fb72e8261d950c8400000000000;
    assert PartialProduct(a, b, 46) == 0xdc3074e8c7e474db87ebb8c810f;
    ToBvLit(46, 46);
    WordBitsAt(a, 46);
    assert WordBits(a)[46] == true;
    assert Term(a, b, 46) == 0x3fb72e8261d950c8400000000000;
    assert ShiftedCopy(b, 47) == 0x7f6e5d04c3b2a190800000000000;
    assert PartialProduct(a, b, 47) == 0x327429cceda71785f87ebb8c810f;
    ToBvLit(47, 47);
    WordBitsAt(a, 47);
    assert WordBits(a)[47] == false;
    assert Term(a, b, 47) == 0x0;
    assert ShiftedCopy(b, 48) == 0xfedcba0987654321000000000000;
    assert PartialProduct(a, b, 48) == 0x327429cceda71785f87ebb8c810f;
  }

  lemma KnownSteps3(a: bv64, b: bv64)
    requires a == 0x1234567890abcdef && b == 0xfedcba0987654321
    ensures ShiftedCopy(b, 64) == 0xfedcba09876543210000000000000000
    ensures PartialProduct(a, b, 64) == 0xe038d8eab3af47a1f31f87ebb8c810f
  {
    KnownSteps2(a, b);
    ToBvLit(48, 48);
    WordBitsAt(a, 48);
    assert WordBits(a)[48] == false;
    assert Term(a, b, 48) == 0x0;
    assert ShiftedCopy(b, 49) == 0x1fdb974130eca8642000000000000;
    assert PartialProduct(a, b, 49) == 0x327429cceda71785f87ebb8c810f;
    ToBvLit(49, 49);
    WordBitsAt(a, 49);
    assert WordBits(a)[49] == false;
    assert Term(a, b, 49) == 0x0;
    assert ShiftedCopy(b, 50) == 0x3fb72e8261d950c84000000000000;
    assert PartialProduct(a, b, 50) == 0x327429cceda71785f87ebb8c810f;
    ToBvLit(50, 50);
    WordBitsAt(a, 50);
    assert WordBits(a)[50] == true;
    assert Term(a, b, 50) == 0x3fb72e8261d950c84000000000000;
    assert ShiftedCopy(b, 51) == 0x7f6e5d04c3b2a1908000000000000;
    assert PartialProduct(a, b, 51) == 0x3c906c1eaf0321b01f87ebb8c810f;
    ToBvLit(51, 51);
    WordBitsAt(a, 51);
    assert WordBits(a)[51] == false;
    assert Term(a, b, 51) == 0x0;
    assert ShiftedCopy(b, 52) == 0xfedcba09876543210000000000000;
    assert PartialProduct(a, b, 52) == 0x3c906c1eaf0321b01f87ebb8c810f;
    ToBvLit(52, 52);
    WordBitsAt(a, 52);
    assert WordBits(a)[52] == true;
    assert Term(a, b, 52) == 0xfedcba09876543210000000000000;
    assert ShiftedCopy(b, 53) == 0x1fdb974130eca86420000000000000;
    assert PartialProduct(a, b, 53) == 0xc24cd617286662911f87ebb8c810f;
    ToBvLit(53, 53);
    WordBitsAt(a, 53);
    assert WordBits(a)[53] == true;
    assert Term(a, b, 53) == 0x1fdb974130eca86420000000000000;
    assert ShiftedCopy(b, 54) == 0x3fb72e8261d950c840000000000000;
    assert PartialProduct(a, b, 54) == 0x13ff5a20426ace4d31f87ebb8c810f;
    ToBvLit(54, 54);
    WordBitsAt(a, 54);
    assert WordBits(a)[54] == false;
    assert Term(a, b, 54) == 0x0;
    assert ShiftedCopy(b, 55) == 0x7f6e5d04c3b2a19080000000000000;
    assert PartialProduct(a, b, 55) == 0x13ff5a20426ace4d31f87ebb8c810f;
    ToBvLit(55, 55);
    WordBitsAt(a, 55);
    assert WordBits(a)[55] == false;
    assert Term(a, b, 55) == 0x0;
    assert ShiftedCopy(b, 56) == 0xfedcba098765432100000000000000;
    assert PartialProduct(a, b, 56) == 0x13ff5a20426ace4d31f87ebb8c810f;
    ToBvLit(56, 56);
    WordBitsAt(a, 56);
    assert WordBits(a)[56] == false;
    assert Term(a, b, 56) == 0x0;
    assert ShiftedCopy(b, 57) == 0x1fdb974130eca864200000000000000;
    assert PartialProduct(a, b, 57) == 0x13ff5a20426ace4d31f87ebb8c810f;
    ToBvLit(57, 57);
    WordBitsAt(a, 57);
    assert WordBits(a)[57] == true;
    assert Term(a, b, 57) == 0x1fdb974130eca864200000000000000;
    assert ShiftedCopy(b, 58) == 0x3fb72e8261d950c8400000000000000;
    assert PartialProduct(a, b, 58) == 0x1ee462e334ca0480f31f87ebb8c810f;
    ToBvLit(58, 58);
    WordBitsAt(a, 58);
    assert WordBits(a)[58] == false;
    assert Term(a, b, 58) == 0x0;
    assert ShiftedCopy(b, 59) == 0x7f6e5d04c3b2a190800000000000000;
    assert PartialProduct(a, b, 59) == 0x1ee462e334ca0480f31f87ebb8c810f;
    ToBvLit(59, 59);
    WordBitsAt(a, 59);
    assert WordBits(a)[59] == false;
    assert Term(a, b, 59) == 0x0;
    assert ShiftedCopy(b, 60) == 0xfedcba0987654321000000000000000;
    assert PartialProduct(a, b, 60) == 0x1ee462e334ca0480f31f87ebb8c810f;
    ToBvLit(60, 60);
    WordBitsAt(a, 60);
    assert WordBits(a)[60] == true;
    assert Term(a, b, 60) == 0xfedcba0987654321000000000000000;
    assert ShiftedCopy(b, 61) == 0x1fdb974130eca8642000000000000000;
    assert PartialProduct(a, b, 61) == 0xe038d8eab3af47a1f31f87ebb8c810f;
    ToBvLit(61, 61);
    WordBitsAt(a, 61);
    assert WordBits(a)[61] == false;
    assert Term(a, b, 61) == 0x0;
    assert ShiftedCopy(b, 62) == 0x3fb72e8261d950c84000000000000000;
    assert PartialProduct(a, b, 62) == 0xe038d8eab3af47a1f31f87ebb8c810f;
    ToBvLit(62, 62);
    WordBitsAt(a, 62);
    assert WordBits(a)[62] == false;
    assert Term(a, b, 62) == 0x0;
    assert ShiftedCopy(b, 63) == 0x7f6e5d04c3b2a1908000000000000000;
    assert PartialProduct(a, b, 63) == 0xe038d8eab3af47a1f31f87ebb8c810f;
    ToBvLit(63, 63);
    WordBitsAt(a, 63);
    assert WordBits(a)[63] == false;
    assert Term(a, b, 63) == 0x0;
    assert ShiftedCopy(b, 64) == 0xfedcba09876543210000000000000000;
    assert PartialProduct(a, b, 64) == 0xe038d8eab3af47a1f31f87ebb8c810f;
  }
  /** The product of 0x1234567890abcdef and 0xfedcba0987654321. */
  lemma PmulKnownVector(a: bv64, b: bv64)
    requires a == 0x1234567890abcdef && b == 0xfedcba0987654321
    ensures Clmul64(a, b) == 0x0e038d8eab3af47a1f31f87ebb8c810f
  {
    KnownSteps3(a, b);
  }
}
