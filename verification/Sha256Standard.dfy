/**
 SHA-256 as FIPS 180-4 defines it: padding of a bit string (section 5.1.1), parsing into blocks
 of sixteen words (section 5.2.1) and the hash computation (section 6.2).

 The computation is written over a record of word functions, `Functions`; `FIPS()` holds the ones
 of sections 3.2 and 4.1.2.
 */
module Sha256Standard {

  const MODULUS: nat := 0x1_0000_0000

  /** A 32-bit word, as the number it stands for. */
  type Word = n: nat | n < MODULUS

  type Bit = bool

  function Pow2(n: nat): (p: nat)
    ensures p > 0
  {
    if n == 0 then 1 else 2 * Pow2(n - 1)
  }

  // ----- Sections 2.2.2 and 3.2: operations on words -----

  /** Addition modulo 2^32. */
  function Add(x: Word, y: Word): Word {
    (x + y) % MODULUS
  }

  /** A bitwise operation on the `width` low bits. */
  function Bitwise(op: (bool, bool) -> bool, x: nat, y: nat, width: nat): (r: nat)
    ensures r < Pow2(width)
    decreases width
  {
    if width == 0 then 0
    else 2 * Bitwise(op, x / 2, y / 2, width - 1) + (if op(x % 2 == 1, y % 2 == 1) then 1 else 0)
  }

  const WORD_BITS: nat := 32

  predicate Both(a: bool, b: bool) {
    a && b
  }

  predicate OneOf(a: bool, b: bool) {
    a != b
  }

  function And(x: Word, y: Word): Word {
    Bitwise(Both, x, y, WORD_BITS) % MODULUS
  }

  function Xor(x: Word, y: Word): Word {
    Bitwise(OneOf, x, y, WORD_BITS) % MODULUS
  }

  function Not(x: Word): Word {
    MODULUS - 1 - x
  }

  function Quotient(x: Word, d: nat): Word
    requires d > 0
  {
    QuotientIsNoLarger(x, d);
    x / d
  }

  function Shr(x: Word, n: nat): Word
    requires n < 32
  {
    Quotient(x, Pow2(n))
  }

  lemma QuotientIsNoLarger(x: nat, d: nat)
    requires d > 0
    ensures x / d <= x
  {
    MulGrows(d, 1, x / d);
    assert x == d * (x / d) + x % d;
  }

  lemma MulGrows(a: nat, b: nat, c: nat)
    ensures a >= b ==> a * c >= b * c
  {
  }

  function Rotr(x: Word, n: nat): Word
    requires n < 32
  {
    ((x % Pow2(n)) * Pow2(32 - n) + x / Pow2(n)) % MODULUS
  }

  // ----- Section 4.1.2: functions -----

  function Ch(x: Word, y: Word, z: Word): Word { Xor(And(x, y), And(Not(x), z)) }

  function Maj(x: Word, y: Word, z: Word): Word { Xor(Xor(And(x, y), And(x, z)), And(y, z)) }

  function UpperSigma0(x: Word): Word { Xor(Xor(Rotr(x, 2), Rotr(x, 13)), Rotr(x, 22)) }

  function UpperSigma1(x: Word): Word { Xor(Xor(Rotr(x, 6), Rotr(x, 11)), Rotr(x, 25)) }

  function LowerSigma0(x: Word): Word { Xor(Xor(Rotr(x, 7), Rotr(x, 18)), Shr(x, 3)) }

  function LowerSigma1(x: Word): Word { Xor(Xor(Rotr(x, 17), Rotr(x, 19)), Shr(x, 10)) }

  /** Addition modulo 2^32, the word with a given value, and the six functions. */
  datatype Functions = Functions(
    add: (Word, Word) -> Word, word: nat -> Word,
    ch: (Word, Word, Word) -> Word, maj: (Word, Word, Word) -> Word,
    upper0: Word -> Word, upper1: Word -> Word, lower0: Word -> Word, lower1: Word -> Word)

  function FIPS(): Functions {
    Functions(Add, (n: nat) => n % MODULUS, Ch, Maj, UpperSigma0, UpperSigma1, LowerSigma0, LowerSigma1)
  }

  // ----- Sections 4.2.2 and 5.3.3: constants -----

  const K: seq<Word> :=
    [0x428a2f98, 0x71374491, 0xb5c0fbcf, 0xe9b5dba5, 0x3956c25b, 0x59f111f1, 0x923f82a4, 0xab1c5ed5] +
    [0xd807aa98, 0x12835b01, 0x243185be, 0x550c7dc3, 0x72be5d74, 0x80deb1fe, 0x9bdc06a7, 0xc19bf174] +
    [0xe49b69c1, 0xefbe4786, 0x0fc19dc6, 0x240ca1cc, 0x2de92c6f, 0x4a7484aa, 0x5cb0a9dc, 0x76f988da] +
    [0x983e5152, 0xa831c66d, 0xb00327c8, 0xbf597fc7, 0xc6e00bf3, 0xd5a79147, 0x06ca6351, 0x14292967] +
    [0x27b70a85, 0x2e1b2138, 0x4d2c6dfc, 0x53380d13, 0x650a7354, 0x766a0abb, 0x81c2c92e, 0x92722c85] +
    [0xa2bfe8a1, 0xa81a664b, 0xc24b8b70, 0xc76c51a3, 0xd192e819, 0xd6990624, 0xf40e3585, 0x106aa070] +
    [0x19a4c116, 0x1e376c08, 0x2748774c, 0x34b0bcb5, 0x391c0cb3, 0x4ed8aa4a, 0x5b9cca4f, 0x682e6ff3] +
    [0x748f82ee, 0x78a5636f, 0x84c87814, 0x8cc70208, 0x90befffa, 0xa4506ceb, 0xbef9a3f7, 0xc67178f2]

  const H0: seq<Word> := [
    0x6a09e667, 0xbb67ae85, 0x3c6ef372, 0xa54ff53a, 0x510e527f, 0x9b05688c, 0x1f83d9ab, 0x5be0cd19]

  // ----- Section 5.1.1: padding -----

  /** The `width` low bits of `n`, most significant first. */
  function BitsOfNat(n: nat, width: nat): (bits: seq<Bit>)
    ensures |bits| == width
    decreases width
  {
    if width == 0 then [] else BitsOfNat(n / 2, width - 1) + [n % 2 == 1]
  }

  function Zeros(n: nat): seq<Bit> {
    seq(n, i => false)
  }

  predicate FillsBlock(l: nat, k: nat) {
    (l + 1 + k) % 512 == 448
  }

  /** The number of zero bits: the smallest non-negative solution of l + 1 + k = 448 mod 512. */
  function ZeroCount(l: nat): (k: nat)
    ensures FillsBlock(l, k)
    ensures forall j: nat | FillsBlock(l, j) :: k <= j
  {
    (447 - l) % 512
  }

  const LENGTH_BITS: nat := 64

  function PadBits(message: seq<Bit>): seq<Bit>
    requires |message| < 0x1_0000_0000_0000_0000
  {
    message + [true] + Zeros(ZeroCount(|message|)) + BitsOfNat(|message|, LENGTH_BITS)
  }

  // ----- Section 5.2.1: parsing -----

  function ValueOfBits(bits: seq<Bit>): nat {
    if bits == [] then 0
    else 2 * ValueOfBits(bits[..|bits| - 1]) + (if bits[|bits| - 1] then 1 else 0)
  }

  lemma {:induction false} ValueBound(bits: seq<Bit>)
    requires |bits| <= 32
    ensures ValueOfBits(bits) < Pow2(|bits|) <= 0x1_0000_0000
  {
    if bits != [] {
      ValueBound(bits[..|bits| - 1]);
    }
    Pow2Grows(|bits|, 32);
    Pow2Of32();
  }

  lemma {:induction false} Pow2Grows(a: nat, b: nat)
    requires a <= b
    ensures Pow2(a) <= Pow2(b)
    decreases b
  {
    if a < b {
      Pow2Grows(a, b - 1);
    }
  }

  lemma Pow2Of32()
    ensures Pow2(32) == 0x1_0000_0000
  {
    assert Pow2(8) == 256;
    assert Pow2(16) == 65536;
    assert Pow2(24) == 0x100_0000;
  }

  function WordOfBits(f: Functions, bits: seq<Bit>): Word {
    f.word(ValueOfBits(bits))
  }

  /** Block `i` of a padded message, as sixteen words. */
  function BlockOfBits(f: Functions, padded: seq<Bit>, i: nat): (block: seq<Word>)
    requires 512 * (i + 1) <= |padded|
    ensures |block| == 16
  {
    seq(16, j requires 0 <= j < 16 => WordOfBits(f, padded[512 * i + 32 * j..512 * i + 32 * (j + 1)]))
  }

  // ----- Section 6.2.2: the hash computation -----

  function Schedule(f: Functions, block: seq<Word>, t: nat): Word
    requires |block| == 16
  {
    if t < 16 then block[t]
    else f.add(f.add(f.add(f.lower1(Schedule(f, block, t - 2)), Schedule(f, block, t - 7)),
                     f.lower0(Schedule(f, block, t - 15))), Schedule(f, block, t - 16))
  }

  datatype Working = Working(a: Word, b: Word, c: Word, d: Word, e: Word, f: Word, g: Word, h: Word)

  function Round(f: Functions, v: Working, k: Word, w: Word): Working {
    var t1 := f.add(f.add(f.add(f.add(v.h, f.upper1(v.e)), f.ch(v.e, v.f, v.g)), k), w);
    var t2 := f.add(f.upper0(v.a), f.maj(v.a, v.b, v.c));
    Working(f.add(t1, t2), v.a, v.b, v.c, f.add(v.d, t1), v.e, v.f, v.g)
  }

  const ROUNDS: nat := 64

  function Rounds(f: Functions, block: seq<Word>, v: Working, t: nat): Working
    requires |block| == 16 && t <= ROUNDS
  {
    if t == 0 then v else Round(f, Rounds(f, block, v, t - 1), K[t - 1], Schedule(f, block, t - 1))
  }

  function Compress(f: Functions, h: seq<Word>, block: seq<Word>): (h': seq<Word>)
    requires |h| == 8 && |block| == 16
    ensures |h'| == 8
  {
    var v := Rounds(f, block, Working(h[0], h[1], h[2], h[3], h[4], h[5], h[6], h[7]), ROUNDS);
    [f.add(v.a, h[0]), f.add(v.b, h[1]), f.add(v.c, h[2]), f.add(v.d, h[3]),
     f.add(v.e, h[4]), f.add(v.f, h[5]), f.add(v.g, h[6]), f.add(v.h, h[7])]
  }

  /** The hash value after the first `n` blocks. */
  function HashBlocks(f: Functions, padded: seq<Bit>, n: nat): (h: seq<Word>)
    requires 512 * n <= |padded|
    ensures |h| == 8
  {
    if n == 0 then H0 else Compress(f, HashBlocks(f, padded, n - 1), BlockOfBits(f, padded, n - 1))
  }

  function Digest(f: Functions, message: seq<Bit>): (h: seq<Word>)
    requires |message| < 0x1_0000_0000_0000_0000
    ensures |h| == 8
  {
    HashBlocks(f, PadBits(message), |PadBits(message)| / 512)
  }
}
