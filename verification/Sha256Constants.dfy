/**
 The constants of SHA-256 are the numbers FIPS 180-4 says: the first thirty-two bits of the
 fractional parts of the cube roots of the first sixty-four primes (section 4.2.2) and of the square
 roots of the first eight (section 5.3.3).
 */
module Sha256Constants {
  import opened Sha256Standard

  // ----- Primes -----

  predicate IsPrime(n: nat) {
    n > 1 && forall d | 1 < d < n :: n % d != 0
  }

  /** The primes from 2 on, none left out. */
  predicate AreFirstPrimes(s: seq<nat>) {
    && s != [] && s[0] == 2
    && (forall i | 0 <= i < |s| :: IsPrime(s[i]))
    && (forall i | 0 < i < |s| :: s[i - 1] < s[i])
    && (forall i, n: nat | 0 < i < |s| && s[i - 1] < n < s[i] :: !IsPrime(n))
  }

  const PRIMES: seq<nat> :=
    [2, 3, 5, 7, 11, 13, 17, 19] +
    [23, 29, 31, 37, 41, 43, 47, 53] +
    [59, 61, 67, 71, 73, 79, 83, 89] +
    [97, 101, 103, 107, 109, 113, 127, 131] +
    [137, 139, 149, 151, 157, 163, 167, 173] +
    [179, 181, 191, 193, 197, 199, 211, 223] +
    [227, 229, 233, 239, 241, 251, 257, 263] +
    [269, 271, 277, 281, 283, 293, 307, 311]

  predicate HasSmallFactor(n: nat) {
    n % 2 == 0 || n % 3 == 0 || n % 5 == 0 || n % 7 == 0 || n % 11 == 0 || n % 13 == 0 || n % 17 == 0
  }

  lemma SmallFactor(n: nat, m: nat)
    requires 1 < m < 19 && n % m == 0
    ensures HasSmallFactor(n)
  {
    var k := n / m;
    assert n == m * k;
    if m % 2 == 0 {
      Factor(n, 2, m / 2, k);
    } else if m % 3 == 0 {
      Factor(n, 3, m / 3, k);
    } else if m % 5 == 0 {
      Factor(n, 5, m / 5, k);
    }
  }

  lemma Factor(n: nat, q: nat, j: nat, k: nat)
    requires q > 0 && n == (q * j) * k
    ensures n % q == 0
  {
    assert n == (j * k) * q;
    DividesToo(n, j * k, q);
  }

  lemma Cofactor(n: nat, d: nat)
    requires 1 < d < n < 361 && n % d == 0
    ensures HasSmallFactor(n)
  {
    var e := n / d;
    assert n == d * e;
    if d >= 19 {
      if e >= 19 {
        ProductGrows(d, e);
        assert false;
      }
      assert e > 1;
      DividesToo(n, d, e);
      SmallFactor(n, e);
    } else {
      SmallFactor(n, d);
    }
  }

  lemma ProductGrows(d: nat, e: nat)
    requires d >= 19 && e >= 19
    ensures d * e >= 361
  {
  }

  lemma DividesToo(n: nat, d: nat, e: nat)
    requires n == d * e && e > 0
    ensures n % e == 0
  {
    var q, r := n / e, n % e;
    assert e * (d - q) == r;
    if d > q {
      MulGrows(d - q, 1, e);
    } else if d < q {
      MulGrows(q - d, 1, e);
    }
  }

  /** Below 361 a number without a prime factor up to 17 is prime. */
  lemma NoFactorIsPrime(n: nat)
    requires 1 < n < 361 && !HasSmallFactor(n)
    ensures IsPrime(n)
  {
    forall d | 1 < d < n
      ensures n % d != 0
    {
      if n % d == 0 {
        Cofactor(n, d);
      }
    }
  }

  lemma FactorIsNotPrime(n: nat)
    requires n > 17 && HasSmallFactor(n)
    ensures !IsPrime(n)
  {
    assert n % 2 == 0 || n % 3 == 0 || n % 5 == 0 || n % 7 == 0 || n % 11 == 0 || n % 13 == 0 || n % 17 == 0;
  }

  /** A prime and the numbers up to the next. */
  predicate IsStep(p: nat, next: nat) {
    17 < p < next <= 313 && !HasSmallFactor(p) && HaveSmallFactors(p + 1, next)
  }

  predicate HaveSmallFactors(from: nat, to: nat) {
    to <= from || (HasSmallFactor(to - 1) && HaveSmallFactors(from, to - 1))
  }

  lemma {:induction false} SmallFactorsAre(from: nat, to: nat, n: nat)
    requires HaveSmallFactors(from, to) && from <= n < to
    ensures HasSmallFactor(n)
  {
    if n < to - 1 {
      SmallFactorsAre(from, to - 1, n);
    }
  }

  lemma SmallPrimes(i: nat)
    requires i < 7
    ensures IsPrime(PRIMES[i]) && PRIMES[i] < PRIMES[i + 1]
    ensures forall n: nat | PRIMES[i] < n < PRIMES[i + 1] :: !IsPrime(n)
  {
    assert PRIMES[0] == 2 && PRIMES[1] == 3 && PRIMES[2] == 5 && PRIMES[3] == 7 && PRIMES[4] == 11 && PRIMES[5] == 13;
    assert PRIMES[6] == 17 && PRIMES[7] == 19;
    assert 4 % 2 == 0 && 6 % 2 == 0 && 8 % 2 == 0 && 9 % 3 == 0 && 10 % 2 == 0;
    assert 12 % 2 == 0 && 14 % 2 == 0 && 15 % 3 == 0 && 16 % 2 == 0 && 18 % 2 == 0;
  }

  lemma StepsFrom7(i: nat)
    requires 7 <= i < 15
    ensures IsStep(PRIMES[i], PRIMES[i + 1])
  {
    assert IsStep(19, 23);
    assert IsStep(23, 29);
    assert IsStep(29, 31);
    assert IsStep(31, 37);
    assert IsStep(37, 41);
    assert IsStep(41, 43);
    assert IsStep(43, 47);
    assert IsStep(47, 53);
  }

  lemma StepsFrom15(i: nat)
    requires 15 <= i < 23
    ensures IsStep(PRIMES[i], PRIMES[i + 1])
  {
    assert IsStep(53, 59);
    assert IsStep(59, 61);
    assert IsStep(61, 67);
    assert IsStep(67, 71);
    assert IsStep(71, 73);
    assert IsStep(73, 79);
    assert IsStep(79, 83);
    assert IsStep(83, 89);
  }

  lemma StepsFrom23(i: nat)
    requires 23 <= i < 31
    ensures IsStep(PRIMES[i], PRIMES[i + 1])
  {
    assert IsStep(89, 97);
    assert IsStep(97, 101);
    assert IsStep(101, 103);
    assert IsStep(103, 107);
    assert IsStep(107, 109);
    assert IsStep(109, 113);
    assert IsStep(113, 127);
    assert IsStep(127, 131);
  }

  lemma StepsFrom31(i: nat)
    requires 31 <= i < 39
    ensures IsStep(PRIMES[i], PRIMES[i + 1])
  {
    assert IsStep(131, 137);
    assert IsStep(137, 139);
    assert IsStep(139, 149);
    assert IsStep(149, 151);
    assert IsStep(151, 157);
    assert IsStep(157, 163);
    assert IsStep(163, 167);
    assert IsStep(167, 173);
  }

  lemma StepsFrom39(i: nat)
    requires 39 <= i < 47
    ensures IsStep(PRIMES[i], PRIMES[i + 1])
  {
    assert IsStep(173, 179);
    assert IsStep(179, 181);
    assert IsStep(181, 191);
    assert IsStep(191, 193);
    assert IsStep(193, 197);
    assert IsStep(197, 199);
    assert IsStep(199, 211);
    assert IsStep(211, 223);
  }

  lemma StepsFrom47(i: nat)
    requires 47 <= i < 55
    ensures IsStep(PRIMES[i], PRIMES[i + 1])
  {
    assert IsStep(223, 227);
    assert IsStep(227, 229);
    assert IsStep(229, 233);
    assert IsStep(233, 239);
    assert IsStep(239, 241);
    assert IsStep(241, 251);
    assert IsStep(251, 257);
    assert IsStep(257, 263);
  }

  lemma StepsFrom55(i: nat)
    requires 55 <= i < 63
    ensures IsStep(PRIMES[i], PRIMES[i + 1])
  {
    assert IsStep(263, 269);
    assert IsStep(269, 271);
    assert IsStep(271, 277);
    assert IsStep(277, 281);
    assert IsStep(281, 283);
    assert IsStep(283, 293);
    assert IsStep(293, 307);
    assert IsStep(307, 311);
  }

  lemma StepAt(i: nat)
    requires 7 <= i < 63
    ensures IsStep(PRIMES[i], PRIMES[i + 1])
  {
    if i < 15 { StepsFrom7(i); }
    else if i < 23 { StepsFrom15(i); }
    else if i < 31 { StepsFrom23(i); }
    else if i < 39 { StepsFrom31(i); }
    else if i < 47 { StepsFrom39(i); }
    else if i < 55 { StepsFrom47(i); }
    else { StepsFrom55(i); }
  }

  /** A prime and the next. */
  lemma PrimeAt(i: nat)
    requires i < 63
    ensures IsPrime(PRIMES[i]) && PRIMES[i] < PRIMES[i + 1]
    ensures forall n: nat | PRIMES[i] < n < PRIMES[i + 1] :: !IsPrime(n)
  {
    if i < 7 {
      SmallPrimes(i);
    } else {
      var p, next := PRIMES[i], PRIMES[i + 1];
      StepAt(i);
      NoFactorIsPrime(p);
      forall n | p < n < next
        ensures !IsPrime(n)
      {
        SmallFactorsAre(p + 1, next, n);
        FactorIsNotPrime(n);
      }
    }
  }

  /** `PRIMES` is the first sixty-four of them. */
  lemma PrimesAreFirst()
    ensures |PRIMES| == 64 && AreFirstPrimes(PRIMES)
  {
    forall i | 0 <= i < 63
      ensures IsPrime(PRIMES[i]) && PRIMES[i] < PRIMES[i + 1]
      ensures forall n: nat | PRIMES[i] < n < PRIMES[i + 1] :: !IsPrime(n)
    {
      PrimeAt(i);
    }
    LastPrime();
    forall i | 0 < i < 64
      ensures PRIMES[i - 1] < PRIMES[i]
      ensures forall n: nat | PRIMES[i - 1] < n < PRIMES[i] :: !IsPrime(n)
    {
      var before := i - 1;
      PrimeAt(before);
    }
  }

  lemma LastPrime()
    ensures PRIMES[63] == 311 && IsPrime(311) && PRIMES[0] == 2
  {
    NoFactorIsPrime(311);
  }

  // ----- Fractional parts of roots -----

  function Square(x: nat): nat {
    x * x
  }

  function Cube(x: nat): nat {
    x * x * x
  }

  /** `k` is the first thirty-two bits of the fractional part of the cube root of `p`, whose integer
      part is `n`. */
  predicate IsCubeRoot(p: nat, n: nat, k: Word) {
    && Cube(n) <= p < Cube(n + 1)
    && Cube(n * MODULUS + k) <= p * Cube(MODULUS) < Cube(n * MODULUS + k + 1)
  }

  predicate IsSquareRoot(p: nat, n: nat, k: Word) {
    && Square(n) <= p < Square(n + 1)
    && Square(n * MODULUS + k) <= p * Square(MODULUS) < Square(n * MODULUS + k + 1)
  }

  function CubeRootFloor(p: nat): nat {
    if p < 8 then 1 else if p < 27 then 2 else if p < 64 then 3 else if p < 125 then 4 else if p < 216 then 5 else 6
  }

  lemma CubeRootsFrom0(t: nat)
    requires 0 <= t < 8
    ensures IsCubeRoot(PRIMES[t], CubeRootFloor(PRIMES[t]), K[t])
  {
    assert IsCubeRoot(2, 1, 0x428a2f98);
    assert IsCubeRoot(3, 1, 0x71374491);
    assert IsCubeRoot(5, 1, 0xb5c0fbcf);
    assert IsCubeRoot(7, 1, 0xe9b5dba5);
    assert IsCubeRoot(11, 2, 0x3956c25b);
    assert IsCubeRoot(13, 2, 0x59f111f1);
    assert IsCubeRoot(17, 2, 0x923f82a4);
    assert IsCubeRoot(19, 2, 0xab1c5ed5);
  }

  lemma CubeRootsFrom8(t: nat)
    requires 8 <= t < 16
    ensures IsCubeRoot(PRIMES[t], CubeRootFloor(PRIMES[t]), K[t])
  {
    assert IsCubeRoot(23, 2, 0xd807aa98);
    assert IsCubeRoot(29, 3, 0x12835b01);
    assert IsCubeRoot(31, 3, 0x243185be);
    assert IsCubeRoot(37, 3, 0x550c7dc3);
    assert IsCubeRoot(41, 3, 0x72be5d74);
    assert IsCubeRoot(43, 3, 0x80deb1fe);
    assert IsCubeRoot(47, 3, 0x9bdc06a7);
    assert IsCubeRoot(53, 3, 0xc19bf174);
  }

  lemma CubeRootsFrom16(t: nat)
    requires 16 <= t < 24
    ensures IsCubeRoot(PRIMES[t], CubeRootFloor(PRIMES[t]), K[t])
  {
    assert IsCubeRoot(59, 3, 0xe49b69c1);
    assert IsCubeRoot(61, 3, 0xefbe4786);
    assert IsCubeRoot(67, 4, 0x0fc19dc6);
    assert IsCubeRoot(71, 4, 0x240ca1cc);
    assert IsCubeRoot(73, 4, 0x2de92c6f);
    assert IsCubeRoot(79, 4, 0x4a7484aa);
    assert IsCubeRoot(83, 4, 0x5cb0a9dc);
    assert IsCubeRoot(89, 4, 0x76f988da);
  }

  lemma CubeRootsFrom24(t: nat)
    requires 24 <= t < 32
    ensures IsCubeRoot(PRIMES[t], CubeRootFloor(PRIMES[t]), K[t])
  {
    assert IsCubeRoot(97, 4, 0x983e5152);
    assert IsCubeRoot(101, 4, 0xa831c66d);
    assert IsCubeRoot(103, 4, 0xb00327c8);
    assert IsCubeRoot(107, 4, 0xbf597fc7);
    assert IsCubeRoot(109, 4, 0xc6e00bf3);
    assert IsCubeRoot(113, 4, 0xd5a79147);
    assert IsCubeRoot(127, 5, 0x06ca6351);
    assert IsCubeRoot(131, 5, 0x14292967);
  }

  lemma CubeRootsFrom32(t: nat)
    requires 32 <= t < 40
    ensures IsCubeRoot(PRIMES[t], CubeRootFloor(PRIMES[t]), K[t])
  {
    assert IsCubeRoot(137, 5, 0x27b70a85);
    assert IsCubeRoot(139, 5, 0x2e1b2138);
    assert IsCubeRoot(149, 5, 0x4d2c6dfc);
    assert IsCubeRoot(151, 5, 0x53380d13);
    assert IsCubeRoot(157, 5, 0x650a7354);
    assert IsCubeRoot(163, 5, 0x766a0abb);
    assert IsCubeRoot(167, 5, 0x81c2c92e);
    assert IsCubeRoot(173, 5, 0x92722c85);
  }

  lemma CubeRootsFrom40(t: nat)
    requires 40 <= t < 48
    ensures IsCubeRoot(PRIMES[t], CubeRootFloor(PRIMES[t]), K[t])
  {
    assert IsCubeRoot(179, 5, 0xa2bfe8a1);
    assert IsCubeRoot(181, 5, 0xa81a664b);
    assert IsCubeRoot(191, 5, 0xc24b8b70);
    assert IsCubeRoot(193, 5, 0xc76c51a3);
    assert IsCubeRoot(197, 5, 0xd192e819);
    assert IsCubeRoot(199, 5, 0xd6990624);
    assert IsCubeRoot(211, 5, 0xf40e3585);
    assert IsCubeRoot(223, 6, 0x106aa070);
  }

  lemma CubeRootsFrom48(t: nat)
    requires 48 <= t < 56
    ensures IsCubeRoot(PRIMES[t], CubeRootFloor(PRIMES[t]), K[t])
  {
    assert IsCubeRoot(227, 6, 0x19a4c116);
    assert IsCubeRoot(229, 6, 0x1e376c08);
    assert IsCubeRoot(233, 6, 0x2748774c);
    assert IsCubeRoot(239, 6, 0x34b0bcb5);
    assert IsCubeRoot(241, 6, 0x391c0cb3);
    assert IsCubeRoot(251, 6, 0x4ed8aa4a);
    assert IsCubeRoot(257, 6, 0x5b9cca4f);
    assert IsCubeRoot(263, 6, 0x682e6ff3);
  }

  lemma CubeRootsFrom56(t: nat)
    requires 56 <= t < 64
    ensures IsCubeRoot(PRIMES[t], CubeRootFloor(PRIMES[t]), K[t])
  {
    assert IsCubeRoot(269, 6, 0x748f82ee);
    assert IsCubeRoot(271, 6, 0x78a5636f);
    assert IsCubeRoot(277, 6, 0x84c87814);
    assert IsCubeRoot(281, 6, 0x8cc70208);
    assert IsCubeRoot(283, 6, 0x90befffa);
    assert IsCubeRoot(293, 6, 0xa4506ceb);
    assert IsCubeRoot(307, 6, 0xbef9a3f7);
    assert IsCubeRoot(311, 6, 0xc67178f2);
  }

  /** Section 4.2.2. */
  lemma CubeRoots(t: nat)
    requires t < 64
    ensures |K| == 64 && exists n: nat :: IsCubeRoot(PRIMES[t], n, K[t])
  {
    if t < 8 { CubeRootsFrom0(t); }
    else if t < 16 { CubeRootsFrom8(t); }
    else if t < 24 { CubeRootsFrom16(t); }
    else if t < 32 { CubeRootsFrom24(t); }
    else if t < 40 { CubeRootsFrom32(t); }
    else if t < 48 { CubeRootsFrom40(t); }
    else if t < 56 { CubeRootsFrom48(t); }
    else { CubeRootsFrom56(t); }
  }

  function SquareRootFloor(p: nat): nat {
    if p < 4 then 1 else if p < 9 then 2 else if p < 16 then 3 else 4
  }

  lemma SquareRootAt(i: nat)
    requires i < 8
    ensures IsSquareRoot(PRIMES[i], SquareRootFloor(PRIMES[i]), H0[i])
  {
    assert IsSquareRoot(2, 1, 0x6a09e667);
    assert IsSquareRoot(3, 1, 0xbb67ae85);
    assert IsSquareRoot(5, 2, 0x3c6ef372);
    assert IsSquareRoot(7, 2, 0xa54ff53a);
    assert IsSquareRoot(11, 3, 0x510e527f);
    assert IsSquareRoot(13, 3, 0x9b05688c);
    assert IsSquareRoot(17, 4, 0x1f83d9ab);
    assert IsSquareRoot(19, 4, 0x5be0cd19);
  }

  /** Section 5.3.3. */
  lemma SquareRoots(i: nat)
    requires i < 8
    ensures |H0| == 8 && exists n: nat :: IsSquareRoot(PRIMES[i], n, H0[i])
  {
    SquareRootAt(i);
  }
}
