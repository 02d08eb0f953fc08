# Binary fields, carry-less multiplication and the software AES round

This project models three parts of a Rust library, which runs on Android:

- **Binary field arithmetic.** `GF2n` implements the finite fields GF(2^n). Elements are stored as 64-bit words, least significant word first. Each field is defined by an irreducible pentanomial `x^n + x^a + x^b + x^c + 1`. The library declares three fields:
  - GF(2^64), with `x^64 + x^4 + x^3 + x + 1`;
  - GF(2^128), with `x^128 + x^7 + x^2 + x + 1`;
  - GF(2^256), with `x^256 + x^10 + x^5 + x^2 + 1`.

  The operations are addition (word-wise exclusive or), multiplication by X (`shl1`), shift-and-add multiplication (`mul_as_add`), carry-less multiplication with carry propagation (`mul_clmul_u64`, `propagate_carries`), the `Mul` operator that picks one of them, and inversion by exponentiation to 2^n - 2.
- **The 64 x 64 -> 128-bit carry-less product `pmul`.** It has three strategies: a portable shift-and-xor loop, PCLMULQDQ on x86, and PMULL on AArch64. The strategy is chosen from run-time CPU feature detection.
- **The `fallback` module of the native library.** It holds one AES encryption round on a 16-byte state (SubBytes, ShiftRows, MixColumns and AddRoundKey, as in FIPS-197 section 5.1). It also holds the three exported wrappers that invert a GF(2^64), GF(2^128) or GF(2^256) element in place in a word buffer.

## How the model is built

Polynomials over GF(2) are `seq<bool>` (module `Poly`). Entry i is the coefficient of X^i, and `Eqv` means equality up to trailing zeros. Carry-less multiplication `ClMul` is defined on these sequences, and its ring laws are proved there.

`BinaryField` defines reduction modulo a pentanomial (`Reduce`), the field product `Mul` and powers `Pow`. It proves commutativity, associativity, distributivity and the unit laws. The same theory serves both:

- the three GF(2^n) fields;
- the AES byte field GF(2^8), with `x^8 + x^4 + x^3 + x + 1` (FIPS-197 section 4.2).

The code and its contracts are linked as follows:

- Words are `bv64`. `Words.Bits` reads a word sequence as a polynomial.
- The Rust code changes state in place at `&mut self` methods and `&mut [u8; 16]` arguments. There the model uses methods on `array`s with `modifies` clauses and loops with invariants.
- Values that the code copies (the `Copy` type `GF2n`) are the datatype `GF2n.Element`.
- Every method is proved against a specification function:
  - `Pmul.PmulNosimd`, `Pmul.Pmul` and `Pmul.PmulCheat` against `Clmul.Clmul64`, whose contract is the GF(2)[X] product `Poly.ClMul`;
  - `GF2n.Add`, `GF2n.Sub` and `GF2n.AddAssign` against `GF2n.Sum`;
  - `GF2n.Shl1` against `BinaryField.MulX`;
  - `GF2n.MulAsAdd`, `GF2nMul.MulClmulU64`, `GF2nMul.Mul` and `GF2nMul.MulAssign` against `BinaryField.Mul`;
  - `GF2n.FoldSingle`, `GF2n.FoldWords` and `GF2n.PropagateCarries` against `BinaryField.Reduce`;
  - `GF2nMul.Invert` and the `Fallback` invert wrappers against `GF2nMul.Inverse`;
  - `Fallback.SubBytes`, `Fallback.ShiftRows`, `Fallback.MixColumns`, `Fallback.AddRoundKey` and `Fallback.AesencFallback` against `Fallback.SubBytesSpec`, `Fallback.ShiftRowsSpec`, `Fallback.MixColumnsSpec`, `Fallback.AddRoundKeySpec` and `Fallback.AesRound`.

Compile-time configuration is passed in as parameters:

- `GF2nMul.Target` holds the value of `#[cfg(feature = "clmul")]`, the target architecture and the target features.
- `Pmul.CpuFeatures` holds the answers of `is_x86_feature_detected!` and `is_aarch64_feature_detected!`.

## Model

| member | source | states |
|---|---|---|
| Pmul.PmulNosimd | src/android-simd/src/pmul.rs:40-50 | the shift-and-xor loop over the 64 bits of a returns the carry-less product of a and b as polynomials, that product is below 2^127, and the strategy is "nosimd" |
| Pmul.PartialProductNext | src/android-simd/src/pmul.rs:43-48 | one loop iteration (xor in the shifted copy of b when bit i of a is set, then shift) advances the partial product over the low i bits of a to the one over i + 1 bits |
| Clmul.PartialProductBits | src/android-simd/src/pmul.rs:41-48 | the partial product after i iterations is the carry-less product of the low i bits of a with b |
| Clmul.Clmul64 | src/android-simd/src/pmul.rs:40-50 | the 128-bit carry-less product, as bits, is the GF(2)[X] product of the two words |
| Clmul.Clmul64Comm | src/android-simd/src/pmul.rs:40-50 | the carry-less product is commutative, so iterating over a instead of b gives the same result |
| Clmul.Clmul64Top | src/android-simd/src/pmul.rs:41-48 | bit 127 of a 64 x 64 carry-less product is always clear |
| Pmul.SetEpi64x | src/android-simd/src/pmul.rs:61-63 | `_mm_set_epi64x(hi, lo)` puts lo in the low and hi in the high 64-bit lane |
| Pmul.ClmulEpi64 | src/android-simd/src/pmul.rs:65 | `_mm_clmulepi64_si128(x, y, imm)` is the carry-less product of the lanes that bits 0 and 4 of imm select |
| Pmul.PmulX86Clmul | src/android-simd/src/pmul.rs:52-74 | the PCLMULQDQ path returns the carry-less product of a and b with strategy "x86_clmul" |
| Pmul.PmulAarch64Neon | src/android-simd/src/pmul.rs:76-84 | the PMULL path returns the carry-less product of a and b with strategy "aarch64_neon" |
| Pmul.Pmul | src/android-simd/src/pmul.rs:1-18 | the result is the carry-less product whatever the CPU; the strategy is "x86_clmul" exactly when x86 has SSE2 and PCLMULQDQ, "aarch64_neon" exactly when AArch64 has NEON and AES, and "nosimd" exactly otherwise |
| Pmul.PmulCheat | src/android-simd/src/pmul.rs:20-38 | as `pmul`, except that "aarch64_neon" is chosen exactly when AArch64 has NEON, with AES not detected |
| Pmul.PmulKnownVector | src/android-simd/src/pmul.rs:92-113 | 0x1234567890abcdef times 0xfedcba0987654321 carry-less is 0x0e038d8eab3af47a1f31f87ebb8c810f |
| Fields.Modulus | src/relinked/src/gf2n.rs:55-63 | each declared field's pentanomial has n = 64 NWORDS and exponents 0 < c < b < a < n |
| Fields.FoldWord | src/relinked/src/gf2n.rs:265-266 | for a carry word c, `c ^ (c << A) ^ (c << B) ^ (c << C)` and `(c >> (64 - A)) ^ (c >> (64 - B)) ^ (c >> (64 - C))` together hold c (X^a + X^b + X^c + 1), which is X^n c reduced once |
| Fields.ReductionWord | src/relinked/src/gf2n.rs:227-229 | `1 ^ (1 << A) ^ (1 << B) ^ (1 << C)` is the low part of the pentanomial, X^a + X^b + X^c + 1 |
| GF2n.Value | src/relinked/src/gf2n.rs:48-53 | an element's polynomial has 64 coefficients per word |
| GF2n.ValueInjective | src/relinked/src/gf2n.rs:48-53 | two well-formed elements are equal exactly when their polynomials are |
| GF2n.ZeroElement | src/relinked/src/gf2n.rs:233-235 | the all-zero words are the zero polynomial |
| GF2n.NewSmall | src/relinked/src/gf2n.rs:214-218 | `new_small(w)` is the polynomial of w in the low word and zeros above |
| GF2n.One | src/relinked/src/gf2n.rs:287 | `ONE` is the unit polynomial 1 of the field |
| GF2n.FromByte | src/relinked/src/gf2n.rs:308-316 | `From<u8>` gives the byte's polynomial, all of whose coefficients from X^8 up are zero |
| GF2n.FromWords | src/relinked/src/gf2n.rs:299-301 | `from_words(ws)` is the element whose polynomial is the words read least significant first |
| GF2n.ToWords | src/relinked/src/gf2n.rs:303-305 | `to_words` returns NWORDS words whose polynomial is the element's |
| GF2n.WordsRoundTrip | src/relinked/src/gf2n.rs:299-305 | `to_words(from_words(ws)) == ws` and `from_words(to_words(x)) == x` |
| GF2n.ToBeBytes | src/relinked/src/gf2n.rs:42-45 | the big-endian encoding of a word has eight bytes |
| GF2n.WordFromBytes | src/relinked/src/gf2n.rs:42-45 | `from_bytes` succeeds exactly on slices of eight bytes (otherwise the unwrap panics, modelled as None), and the word it returns encodes back to those bytes |
| GF2n.WordFromBytesRoundTrip | src/relinked/src/gf2n.rs:42-45 | parsing the big-endian bytes of a word gives the word back |
| GF2n.Equal | src/relinked/src/gf2n.rs:98-104 | `eq` holds exactly when the two elements denote the same polynomial |
| GF2n.Sum | src/relinked/src/gf2n.rs:318-332 | the word-wise exclusive or is the sum of the two polynomials |
| GF2n.SumComm | src/relinked/src/gf2n.rs:318-332 | addition is commutative |
| GF2n.SumSelf | src/relinked/src/gf2n.rs:318-332 | every element is its own additive inverse |
| GF2n.SumCancel | src/relinked/src/gf2n.rs:345-354 | adding y after adding y gives the element back, so `sub` (which is `add`) undoes `add` |
| GF2n.SumZero | src/relinked/src/gf2n.rs:318-332 | zero is the additive unit |
| GF2n.Add | src/relinked/src/gf2n.rs:318-332 | the loop over the words computes the field sum |
| GF2n.Sub | src/relinked/src/gf2n.rs:345-354 | subtraction is the same field sum |
| GF2n.AddAssign | src/relinked/src/gf2n.rs:334-343 | the words of self become those of self + other, in place |
| GF2n.Shl1 | src/relinked/src/gf2n.rs:220-230 | shifting the words left by one with carries between words, then folding the pentanomial in when the top bit falls out, multiplies the element by X modulo the pentanomial |
| GF2n.MulAsAdd | src/relinked/src/gf2n.rs:232-245 | shift-and-add over the bits of other, least significant first, returns the field product of self and other |
| GF2n.RecurrencesReduce | src/relinked/src/gf2n.rs:236-243 | after k steps the shifted copy of self is X^k self reduced, and the accumulated result is the reduced product of self with the low k bits of other |
| GF2n.CarryRound | src/relinked/src/gf2n.rs:264-267 | one round of the single-word carry loop keeps the element's residue modulo the pentanomial and strictly decreases the carry, so the loop ends |
| GF2n.FoldSingle | src/relinked/src/gf2n.rs:262-267 | for one word, the loop leaves the reduction of words + X^64 carry |
| GF2n.FoldWords | src/relinked/src/gf2n.rs:268-282 | for several words, folding each carry word in and the last overflow back into words 0 and 1 leaves the reduction of words + X^n carry |
| GF2n.PropagateCarries | src/relinked/src/gf2n.rs:261-285 | the result is the 2n-bit product held in words and carry, reduced modulo the pentanomial |
| GF2nMul.WordProduct | src/relinked/src/gf2n.rs:138-148 | the x86 route (`_mm_set_epi64x`, `_mm_clmulepi64_si128` with selector 0, `_mm_storeu_si128`) and the AArch64 route (`vmull_p64`, lines 182-188) both give the carry-less product of the two words |
| GF2nMul.AccumulateProduct | src/relinked/src/gf2n.rs:150-162 | xoring the low half into word i + j and the high half into word i + j + 1, in words or in carry past NWORDS, adds X^(64(i + j)) times the word product to the 2n-bit accumulator |
| GF2nMul.MulClmulU64 | src/relinked/src/gf2n.rs:125-167 | the schoolbook product followed by `propagate_carries` is the field product (the AArch64 copy at lines 170-207 has the same body) |
| GF2nMul.Mul | src/relinked/src/gf2n.rs:356-396 | whichever branch the target compiles, `mul` returns the field product |
| GF2nMul.MulAssign | src/relinked/src/gf2n.rs:398-404 | the words of self become those of self * other |
| GF2nMul.Invert | src/relinked/src/gf2n.rs:289-297 | n - 1 rounds of squaring self and multiplying the result by it return self^(2^n - 2) |
| GF2nMul.InverseOfZero | src/relinked/src/gf2n.rs:289-297 | `invert` maps zero to zero |
| GF2nMul.PowOfZero | src/relinked/src/gf2n.rs:289-297 | every positive power of zero is zero |
| GF2nMul.PowOfOne | src/relinked/src/gf2n.rs:289-297 | every power of one is one |
| GF2nMul.InverseOfOne | src/relinked/src/gf2n.rs:289-297 | `invert` maps one to one |
| GF2nMul.InverseTimes | src/relinked/src/gf2n.rs:289-297 | x times `invert(x)` is x^(2^n - 1), the power that is one for every nonzero element of a field with 2^n elements |
| BinaryField.MulComm | src/relinked/src/gf2n.rs:356-396 | the field product is commutative |
| BinaryField.MulAssoc | src/relinked/src/gf2n.rs:289-297 | the field product is associative, which `invert` relies on when it regroups the squarings |
| BinaryField.MulOneLeft | src/relinked/src/gf2n.rs:287-291 | `ONE` times y is y |
| BinaryField.MulOneRight | src/relinked/src/gf2n.rs:287-291 | x times `ONE` is x |
| BinaryField.MulAddLeft | src/relinked/src/gf2n.rs:236-243 | the product distributes over the sum, which `mul_as_add` relies on |
| BinaryField.PowAdd | src/relinked/src/gf2n.rs:292-295 | x^i times x^j is x^(i + j) |
| BinaryField.ReduceElement | src/relinked/src/gf2n.rs:48-53 | reduction leaves a polynomial of degree below n unchanged |
| Fallback.Mul2Meaning | src/relinked/src/lib.rs:91-94 | `mul2` is multiplication by X modulo x^8 + x^4 + x^3 + x + 1 |
| Fallback.Mul2Field | src/relinked/src/lib.rs:91-94 | `mul2(x)` is the GF(2^8) product {02} x |
| Fallback.Mul3Field | src/relinked/src/lib.rs:102-106 | `mul2(x) ^ x` is the GF(2^8) product {03} x |
| Fallback.Mul2Xor | src/relinked/src/lib.rs:103-106 | `mul2` distributes over exclusive or, which lets MixColumns write `mul2(x0 ^ x1)` |
| Fallback.MixRowField | src/relinked/src/lib.rs:102-106 | an output byte of MixColumns is {02} a + {03} b + c + d in GF(2^8) (FIPS-197 section 5.1.3) |
| Fallback.SubBytes | src/relinked/src/lib.rs:64-68 | every byte of the state is replaced by its `AES_SBOX` image |
| Fallback.ShiftRows | src/relinked/src/lib.rs:70-89 | the in-place moves through one temporary rotate row r of the state left by r columns |
| Fallback.ShiftRowsInverse | src/relinked/src/lib.rs:70-89 | rotating each row right by its index undoes ShiftRows |
| Fallback.ShiftRowsPermutes | src/relinked/src/lib.rs:70-89 | ShiftRows keeps the multiset of bytes and does not move row 0 |
| Fallback.MixColumnAt | src/relinked/src/lib.rs:96-108 | column i becomes (2a+3b+c+d, 2b+3c+d+a, 2c+3d+a+b, 2d+3a+b+c) of its old bytes a, b, c, d |
| Fallback.MixColumns | src/relinked/src/lib.rs:96-108 | the in-place update of each column with `x = x0 ^ x1 ^ x2 ^ x3` gives MixColumns of the old state |
| Fallback.MixRowSame | src/relinked/src/lib.rs:102-106 | a column of four equal bytes is left unchanged, since 2 + 3 + 1 + 1 = 1 |
| Fallback.AddRoundKey | src/relinked/src/lib.rs:110-114 | each byte of the state is xored with the byte of the round key at the same index |
| Fallback.AddRoundKeyTwice | src/relinked/src/lib.rs:110-114 | adding the same round key twice gives the state back |
| Fallback.AesencFallback | src/relinked/src/lib.rs:51-62 | the block becomes AddRoundKey(MixColumns(ShiftRows(SubBytes(block))), key) and the status is 1 |
| Fallback.AesRoundKnownVector | src/android-simd/src/aes.rs:71-77 | a block of sixteen 0x01 bytes under a key of sixteen 0x02 bytes becomes sixteen 0x7e bytes |
| Fallback.InvertFallback | src/relinked/src/lib.rs:27-49 | the buffer is replaced by the words of `invert(from_words(buffer))` |
| Fallback.Gf64InvertFallback | src/relinked/src/lib.rs:27-33 | the one-word buffer becomes x^(2^64 - 2) in GF(2^64) |
| Fallback.Gf128InvertFallback | src/relinked/src/lib.rs:35-41 | the two-word buffer becomes x^(2^128 - 2) in GF(2^128) |
| Fallback.Gf256InvertFallback | src/relinked/src/lib.rs:43-49 | the four-word buffer becomes x^(2^256 - 2) in GF(2^256) |

## Left out

- Generic fields: `GF2n` is generic in the word type and in NWORDS, A, B and C. Only the three declared instances (GF64, GF128, GF256 at src/relinked/src/gf2n.rs:55-63) are modelled, with 64-bit words, the only `Word` implementation. Proving the word-level shift facts for symbolic shift amounts was out of reach, so each fact is proved for the literal amounts of these three fields.
- GF2nMul.InverseTimes: proves x · invert(x) = x^(2^n - 1) but not that this equals one for nonzero x. That step needs the irreducibility of the three pentanomials and Lagrange's theorem for the multiplicative group, neither of which is modelled.
- `Debug`, `Display` and `Hash` (src/relinked/src/gf2n.rs:65-117): formatting and hashing are I/O concerns without field meaning.
- The Shamir secret-sharing wrapper `gf256_shamir_split_10_fallback` (src/relinked/src/lib.rs:13-25): it calls the external `horcrux` crate and a random source, neither of which is part of this model.
- The `simd` module of src/relinked/src/lib.rs (lines 138-190): it is hardware intrinsics only, and the software round stands for it.
- Conditional compilation: `#[cfg]` and `target_feature` gates become the `GF2nMul.Target` and `Pmul.Arch`/`Pmul.CpuFeatures` parameters. Two details are not modelled:
  - the fallback module exists only when NEON and AES are not both enabled (src/relinked/src/lib.rs:9);
  - the AArch64 `mul_clmul_u64` is reached only through `mul`'s NEON-and-AES branch.

  Run-time feature detection becomes the `CpuFeatures` argument.
- Intrinsics: `_mm_clmulepi64_si128`, `_mm_set_epi64x`, `_mm_storeu_si128` and `vmull_p64` are modelled by their documented results. Lane selection is written out. The carry-less product is `Clmul.Clmul64`, which is defined by the shift-and-xor recurrence of the portable loop and whose proved contract is the GF(2)[X] product `Poly.ClMul`; `Pmul.ClmulEpi64` and the AArch64 branch of `GF2nMul.WordProduct` use it too. Register types and unaligned stores are not modelled.
- The S-box: `AES_SBOX` is taken as the table of FIPS-197 section 5.1.1. The model does not derive it from inversion in GF(2^8) and the affine map.
- Raw pointers: the `extern "C"` wrappers cast raw pointers to fixed-size arrays. The model takes arrays of the right length and requires the block and the key to be distinct arrays. Aliasing and unchecked length are not modelled.
- Word-array sizes: in `mul_clmul_u64` the `words` and `carry` buffers are distinct arrays. The product is reduced from their contents read as one 2n-bit polynomial.
- Fallback.MixColumns: reads the four bytes of a column into locals, then writes the four new bytes. The source xors each byte in place, using values read before any write. Both give the same bytes.
- Pmul.PmulCheat: on AArch64 with NEON but without AES, `pmul_cheat` still calls `pmul_aarch64_neon` (src/android-simd/src/pmul.rs:31-34). That function is compiled with the `neon` and `aes` target features (src/android-simd/src/pmul.rs:77), and PMULL (`vmull_p64`) belongs to the AES extension, so on such a CPU the source has undefined behaviour and may trap on an illegal instruction; its own FIXME at line 31 says as much. The model does not represent undefined behaviour and still gives the instruction's documented carry-less product on that path.
- Pmul.PmulAarch64Neon: target features are not parameters of the model, so its contract does not state that the NEON and AES extensions must be present for the call to be defined.
- Pmul.Pmul: the strategy string is returned as the model's `string`; the `&'static str` lifetime is not modelled.
