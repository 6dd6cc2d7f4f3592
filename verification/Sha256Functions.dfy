/**
 What the six functions of SHA-256 (section 4.1.2 of FIPS 180-4) do to the bits of a word, most
 significant first.
 */
module Sha256Functions {
  import opened Sha256Standard
  import opened Sha256Padding
  import Sha256

  /** Bit `i` of a word, counted from the top. */
  function BitAt(x: Word, i: nat): Bit
    requires i < 32
  {
    BitsOfNat(x, WORD_BITS)[i]
  }

  // ----- Bitwise operations -----

  lemma {:induction false} BitwiseBits(op: (bool, bool) -> bool, x: nat, y: nat, width: nat, i: nat)
    requires i < width
    ensures BitsOfNat(Bitwise(op, x, y, width), width)[i] == op(BitsOfNat(x, width)[i], BitsOfNat(y, width)[i])
    decreases width
  {
    var r := Bitwise(op, x, y, width);
    assert r / 2 == Bitwise(op, x / 2, y / 2, width - 1);
    assert r % 2 == if op(x % 2 == 1, y % 2 == 1) then 1 else 0;
    if i < width - 1 {
      BitwiseBits(op, x / 2, y / 2, width - 1, i);
    }
  }

  lemma FitsInWord(r: nat, width: nat)
    requires width == WORD_BITS && r < Pow2(width)
    ensures r % MODULUS == r
  {
    Pow2Of32();
  }

  lemma OperationBits(op: (bool, bool) -> bool, x: Word, y: Word, r: Word, width: nat, i: nat)
    requires width == WORD_BITS && r == Bitwise(op, x, y, width) && i < width
    ensures BitAt(r, i) == op(BitAt(x, i), BitAt(y, i))
  {
    BitwiseBits(op, x, y, width, i);
  }

  lemma AndBits(x: Word, y: Word, i: nat)
    requires i < 32
    ensures BitAt(And(x, y), i) == (BitAt(x, i) && BitAt(y, i))
  {
    var width := WORD_BITS;
    FitsInWord(Bitwise(Both, x, y, width), width);
    OperationBits(Both, x, y, And(x, y), width, i);
  }

  lemma XorBits(x: Word, y: Word, i: nat)
    requires i < 32
    ensures BitAt(Xor(x, y), i) == (BitAt(x, i) != BitAt(y, i))
  {
    var width := WORD_BITS;
    FitsInWord(Bitwise(OneOf, x, y, width), width);
    OperationBits(OneOf, x, y, Xor(x, y), width, i);
  }

  lemma {:induction false} ComplementBits(x: nat, y: nat, width: nat, i: nat)
    requires i < width && x + y == Pow2(width) - 1
    ensures BitsOfNat(y, width)[i] == !BitsOfNat(x, width)[i]
    decreases width
  {
    assert Pow2(width) == 2 * Pow2(width - 1);
    assert x / 2 + y / 2 == Pow2(width - 1) - 1 && x % 2 + y % 2 == 1;
    if i < width - 1 {
      ComplementBits(x / 2, y / 2, width - 1, i);
    }
  }

  lemma NotBits(x: Word, i: nat)
    requires i < 32
    ensures BitAt(Not(x), i) == !BitAt(x, i)
  {
    Pow2Of32();
    ComplementBits(x, Not(x), WORD_BITS, i);
  }

  // ----- Shifts and rotations -----

  lemma {:induction false} ZeroBits(width: nat, i: nat)
    requires i < width
    ensures !BitsOfNat(0, width)[i]
    decreases width
  {
    if i < width - 1 {
      ZeroBits(width - 1, i);
    }
  }

  /** A shift moves the bits down and fills with zeros. */
  lemma ShrBits(x: Word, n: nat, i: nat)
    requires n < 32 && i < 32
    ensures BitAt(Shr(x, n), i) == (i >= n && BitAt(x, i - n))
  {
    var high, low := Sha256.RotrHalves(x, n);
    var a: nat := 32 - n;
    assert Shr(x, n) == high;
    BitsOfSum(high, low, a, n);
    BitsOfSum(0, high, n, a);
    if i < n {
      ZeroBits(n, i);
    }
  }

  /** A rotation moves them down and round. */
  lemma RotrBits(x: Word, n: nat, i: nat)
    requires 0 < n < 32 && i < 32
    ensures BitAt(Rotr(x, n), i) == BitAt(x, (i + 32 - n) % 32)
  {
    Sha256.RotrRotatesBits(x, n);
    RotatedAt(BitsOfNat(x, WORD_BITS), n, i);
  }

  lemma RotatedAt(bits: seq<Bit>, n: nat, i: nat)
    requires |bits| == 32 && 0 < n < 32 && i < 32
    ensures (bits[32 - n..] + bits[..32 - n])[i] == bits[(i + 32 - n) % 32]
  {
  }

  // ----- The functions -----

  /** Ch chooses each bit of `y` or `z` by the bit of `x`. */
  lemma ChChooses(x: Word, y: Word, z: Word, i: nat)
    requires i < 32
    ensures BitAt(FIPS().ch(x, y, z), i) == if BitAt(x, i) then BitAt(y, i) else BitAt(z, i)
  {
    AndBits(x, y, i);
    NotBits(x, i);
    AndBits(Not(x), z, i);
    XorBits(And(x, y), And(Not(x), z), i);
  }

  /** Maj takes the majority of each three bits. */
  lemma MajIsMajority(x: Word, y: Word, z: Word, i: nat)
    requires i < 32
    ensures var ones := (if BitAt(x, i) then 1 else 0) + (if BitAt(y, i) then 1 else 0) + (if BitAt(z, i) then 1 else 0);
            BitAt(FIPS().maj(x, y, z), i) <==> ones >= 2
  {
    AndBits(x, y, i);
    AndBits(x, z, i);
    AndBits(y, z, i);
    XorBits(And(x, y), And(x, z), i);
    XorBits(Xor(And(x, y), And(x, z)), And(y, z), i);
  }

  /** The bit `n` places above, round the word. */
  function BitAbove(x: Word, i: nat, n: nat): Bit
    requires i < 32 && n < 32
  {
    BitAt(x, (i + 32 - n) % 32)
  }

  /** An odd number of the three. */
  predicate IsOdd(a: bool, b: bool, c: bool) {
    ((if a then 1 else 0) + (if b then 1 else 0) + (if c then 1 else 0)) % 2 == 1
  }

  lemma XorOfThree(a: Word, b: Word, c: Word, i: nat)
    requires i < 32
    ensures BitAt(Xor(Xor(a, b), c), i) == IsOdd(BitAt(a, i), BitAt(b, i), BitAt(c, i))
  {
    XorBits(a, b, i);
    XorBits(Xor(a, b), c, i);
  }

  lemma ThreeRotations(x: Word, n: nat, m: nat, k: nat, i: nat)
    requires 0 < n < 32 && 0 < m < 32 && 0 < k < 32 && i < 32
    ensures BitAt(Xor(Xor(Rotr(x, n), Rotr(x, m)), Rotr(x, k)), i)
            == IsOdd(BitAbove(x, i, n), BitAbove(x, i, m), BitAbove(x, i, k))
  {
    RotrBits(x, n, i);
    RotrBits(x, m, i);
    RotrBits(x, k, i);
    XorOfThree(Rotr(x, n), Rotr(x, m), Rotr(x, k), i);
  }

  lemma TwoRotationsAndShift(x: Word, n: nat, m: nat, k: nat, i: nat)
    requires 0 < n < 32 && 0 < m < 32 && k < 32 && i < 32
    ensures BitAt(Xor(Xor(Rotr(x, n), Rotr(x, m)), Shr(x, k)), i)
            == IsOdd(BitAbove(x, i, n), BitAbove(x, i, m), i >= k && BitAt(x, i - k))
  {
    RotrBits(x, n, i);
    RotrBits(x, m, i);
    ShrBits(x, k, i);
    XorOfThree(Rotr(x, n), Rotr(x, m), Shr(x, k), i);
  }

  /** The four functions (4.4) to (4.7), bit by bit. */
  lemma UpperSigma0Is(x: Word, i: nat)
    requires i < 32
    ensures BitAt(FIPS().upper0(x), i) == IsOdd(BitAbove(x, i, 2), BitAbove(x, i, 13), BitAbove(x, i, 22))
  {
    ThreeRotations(x, 2, 13, 22, i);
  }

  lemma UpperSigma1Is(x: Word, i: nat)
    requires i < 32
    ensures BitAt(FIPS().upper1(x), i) == IsOdd(BitAbove(x, i, 6), BitAbove(x, i, 11), BitAbove(x, i, 25))
  {
    ThreeRotations(x, 6, 11, 25, i);
  }

  lemma LowerSigma0Is(x: Word, i: nat)
    requires i < 32
    ensures BitAt(FIPS().lower0(x), i) == IsOdd(BitAbove(x, i, 7), BitAbove(x, i, 18), i >= 3 && BitAt(x, i - 3))
  {
    TwoRotationsAndShift(x, 7, 18, 3, i);
  }

  lemma LowerSigma1Is(x: Word, i: nat)
    requires i < 32
    ensures BitAt(FIPS().lower1(x), i) == IsOdd(BitAbove(x, i, 17), BitAbove(x, i, 19), i >= 10 && BitAt(x, i - 10))
  {
    TwoRotationsAndShift(x, 17, 19, 10, i);
  }

  /** Words are added as the numbers they stand for, without the carry out of the top. */
  lemma SumsAre(x: Word, y: Word)
    ensures FIPS().add(x, y) == if x + y < 4294967296 then x + y else x + y - 4294967296
  {
  }
}
