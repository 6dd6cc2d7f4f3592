/**
 The byte-level padding of SHA-256: it is the padding of FIPS 180-4, it is the shortest that
 fits, and it can be undone.
 */
module Sha256Padding {
  import opened Wrappers
  import opened Sha256Standard

  const BYTE_BITS: nat := 8

  function ByteBits(b: Byte): (bits: seq<Bit>)
    ensures |bits| == 8
  {
    BitsOfNat(b, BYTE_BITS)
  }

  function ConcatMap<T, U>(f: T -> seq<U>, s: seq<T>): seq<U> {
    if s == [] then [] else ConcatMap(f, s[..|s| - 1]) + f(s[|s| - 1])
  }

  lemma {:induction false} ConcatMapAppend<T, U>(f: T -> seq<U>, a: seq<T>, b: seq<T>)
    ensures ConcatMap(f, a + b) == ConcatMap(f, a) + ConcatMap(f, b)
    decreases b
  {
    if b == [] {
      assert a + b == a;
    } else {
      ConcatMapAppend(f, a, b[..|b| - 1]);
      assert (a + b)[..|a + b| - 1] == a + b[..|b| - 1];
    }
  }

  lemma {:induction false} ConcatMapLength<T(!new), U>(f: T -> seq<U>, s: seq<T>, width: nat)
    requires forall x :: |f(x)| == width
    ensures |ConcatMap(f, s)| == width * |s|
  {
    if s != [] {
      var n := |s| - 1;
      ConcatMapLength(f, s[..n], width);
      MulAdds(width, n, 1);
    }
  }

  lemma MulAdds(width: nat, a: nat, b: nat)
    ensures width * (a + b) == width * a + width * b
  {
  }

  lemma {:induction false} ConcatMapAt<T(!new), U>(f: T -> seq<U>, s: seq<T>, width: nat, i: nat)
    requires i < |s| && forall x :: |f(x)| == width
    ensures |ConcatMap(f, s)| == width * |s|
    ensures 0 <= width * i <= width * (i + 1) <= width * |s|
    ensures ConcatMap(f, s)[width * i..width * (i + 1)] == f(s[i])
  {
    ConcatMapLength(f, s, width);
    ConcatMapLength(f, s[..i], width);
    MulAdds(width, i, 1);
    MulAdds(width, i + 1, |s| - i - 1);
    assert s == s[..i] + ([s[i]] + s[i + 1..]);
    ConcatMapAppend(f, s[..i], [s[i]] + s[i + 1..]);
    ConcatMapAppend(f, [s[i]], s[i + 1..]);
    assert [s[i]][..0] == [];
    ConcatMiddle(ConcatMap(f, s[..i]), f(s[i]), ConcatMap(f, s[i + 1..]));
  }

  lemma ConcatMiddle<U>(a: seq<U>, b: seq<U>, c: seq<U>)
    ensures (a + (b + c))[|a|..|a| + |b|] == b
  {
  }

  /** The bits of a byte string, most significant bit of each byte first. */
  function BitsOf(bytes: Bytes): (bits: seq<Bit>)
  {
    ConcatMap(ByteBits, bytes)
  }

  lemma {:induction false} BitCount(bytes: Bytes)
    ensures |BitsOf(bytes)| == 8 * |bytes|
  {
    if bytes != [] {
      BitCount(bytes[..|bytes| - 1]);
    }
  }

  /** `n` as `count` big-endian bytes, dropping what does not fit. */
  function BytesOfNat(n: nat, count: nat): (bytes: Bytes)
    ensures |bytes| == count
    decreases count
  {
    if count == 0 then [] else BytesOfNat(n / 256, count - 1) + [n % 256]
  }

  function ZeroBytes(n: nat): Bytes {
    seq(n, i => 0)
  }

  /** How many zero bytes bring a message and its 0x80 to 56 modulo 64. */
  function ZeroByteCount(length: nat): (n: nat)
    ensures (length + 1 + n) % 64 == 56 && n < 64
  {
    (55 - length) % 64
  }

  /** The length field is the bit length modulo 2^64. */
  function LengthField(length: nat): (n: nat) {
    (8 * length) % 0x1_0000_0000_0000_0000
  }

  const LENGTH_BYTES: nat := 8

  function PaddedBytes(data: Bytes): Bytes {
    data + [0x80] + ZeroBytes(ZeroByteCount(|data|)) + BytesOfNat(LengthField(|data|), LENGTH_BYTES)
  }

  lemma BitsOfAppend(a: Bytes, b: Bytes)
    ensures BitsOf(a + b) == BitsOf(a) + BitsOf(b)
  {
    ConcatMapAppend(ByteBits, a, b);
  }

  lemma {:induction false} BitsOfSum(q: nat, r: nat, high: nat, low: nat)
    requires r < Pow2(low)
    ensures BitsOfNat(q * Pow2(low) + r, high + low) == BitsOfNat(q, high) + BitsOfNat(r, low)
    decreases low
  {
    if low > 0 {
      var n := q * Pow2(low) + r;
      var half := Pow2(low - 1);
      assert q * Pow2(low) == 2 * (q * half) by { MulTwo(q, half); }
      assert n / 2 == q * half + r / 2 && n % 2 == r % 2;
      BitsOfSum(q, r / 2, high, low - 1);
    }
  }

  lemma MulTwo(q: nat, half: nat)
    ensures q * (2 * half) == 2 * (q * half)
  {
  }

  lemma BitsOfLastByte(high: nat, low: nat, width: nat)
    requires low < 256
    ensures BitsOfNat(high * 256 + low, width + 8) == BitsOfNat(high, width) + ByteBits(low)
  {
    var eight: nat := BYTE_BITS;
    assert Pow2(8) == 256;
    BitsOfSum(high, low, width, eight);
  }

  lemma BitsOfOneMore(bytes: Bytes, b: Byte)
    ensures BitsOf(bytes + [b]) == BitsOf(bytes) + ByteBits(b)
  {
    assert (bytes + [b])[..|bytes|] == bytes;
  }

  lemma OneMoreByte(n: nat, bytes: Bytes, width: nat, wider: nat)
    requires BitsOf(bytes) == BitsOfNat(n / 256, width) && wider == width + 8
    ensures BitsOf(bytes + [n % 256]) == BitsOfNat(n, wider)
  {
    SplitByte(n, n / 256, n % 256);
    BitsOfLastByte(n / 256, n % 256, width);
    BitsOfOneMore(bytes, n % 256);
  }

  lemma SplitByte(n: nat, high: nat, low: nat)
    requires high == n / 256 && low == n % 256
    ensures n == high * 256 + low
  {
  }

  lemma {:induction false} BitsOfBytesOfNat(n: nat, count: nat)
    ensures BitsOf(BytesOfNat(n, count)) == BitsOfNat(n, 8 * count)
    decreases count
  {
    if count > 0 {
      BitsOfBytesOfNat(n / 256, count - 1);
      OneMoreByte(n, BytesOfNat(n / 256, count - 1), 8 * (count - 1), 8 * count);
    }
  }

  lemma {:induction false} BitsOfZero(width: nat)
    ensures BitsOfNat(0, width) == Zeros(width)
  {
    if width > 0 {
      BitsOfZero(width - 1);
      assert Zeros(width - 1) + [false] == Zeros(width);
    }
  }

  lemma {:induction false} BitsOfZeroBytes(n: nat)
    ensures BitsOf(ZeroBytes(n)) == Zeros(8 * n)
  {
    if n > 0 {
      BitsOfZeroBytes(n - 1);
      assert ZeroBytes(n)[..n - 1] == ZeroBytes(n - 1);
      BitsOfZero(8);
      assert Zeros(8 * (n - 1)) + Zeros(8) == Zeros(8 * n);
    }
  }

  lemma MarkerBits()
    ensures BitsOf([0x80]) == [true] + Zeros(7)
  {
    OneAndZeros();
    assert [0x80][..0] == [];
    assert BitsOf([0x80]) == BitsOf([]) + ByteBits(0x80);
  }

  lemma OneAndZeros()
    ensures ByteBits(0x80) == [true] + Zeros(7)
  {
    var one: nat, seven: nat := 1, 7;
    assert Pow2(7) == 128;
    BitsOfSum(1, 0, one, seven);
    assert BitsOfNat(1, one) == BitsOfNat(0, 0) + [true] == [true];
    BitsOfZero(seven);
  }

  lemma ZeroCountsAgree(length: nat)
    ensures ZeroCount(8 * length) == 7 + 8 * ZeroByteCount(length)
  {
    var m, q := (55 - length) % 64, (55 - length) / 64;
    assert 447 - 8 * length == 512 * q + (8 * m + 7);
  }

  lemma PaddedLength(length: nat)
    ensures length + 1 + ZeroByteCount(length) + 8 == 64 * (1 - (55 - length) / 64)
  {
  }

  lemma PaddedBytesLength(data: Bytes)
    ensures |PaddedBytes(data)| == 64 * (1 - (55 - |data|) / 64)
  {
    var zeros := ZeroBytes(ZeroByteCount(|data|));
    var length := BytesOfNat(LengthField(|data|), LENGTH_BYTES);
    assert |data + [0x80] + zeros + length| == |data| + 1 + |zeros| + |length|;
    PaddedLength(|data|);
  }

  lemma PaddedIsWhole(data: Bytes)
    ensures |PaddedBytes(data)| % 64 == 0
  {
    PaddedBytesLength(data);
    Multiple(1 - (55 - |data|) / 64);
  }

  lemma Multiple(k: int)
    ensures (64 * k) % 64 == 0
  {
  }

  lemma BitsOfParts(data: Bytes, zeros: Bytes, field: Bytes)
    ensures BitsOf(data + [0x80] + zeros + field)
         == BitsOf(data) + BitsOf([0x80]) + BitsOf(zeros) + BitsOf(field)
  {
    BitsOfAppend(data + [0x80] + zeros, field);
    BitsOfAppend(data + [0x80], zeros);
    BitsOfAppend(data, [0x80]);
  }

  lemma MarkerAndZeros(n: nat)
    ensures BitsOf([0x80]) + BitsOf(ZeroBytes(n)) == [true] + Zeros(7 + 8 * n)
  {
    MarkerBits();
    BitsOfZeroBytes(n);
    assert Zeros(7) + Zeros(8 * n) == Zeros(7 + 8 * n);
  }

  lemma Regroup(a: seq<Bit>, b: seq<Bit>, c: seq<Bit>, d: seq<Bit>, one: seq<Bit>, zeros: seq<Bit>)
    requires b + c == one + zeros
    ensures a + b + c + d == a + one + zeros + d
  {
    assert a + b + c == a + (b + c);
    assert a + one + zeros == a + (one + zeros);
  }

  lemma PaddingShape(data: Bytes, n: nat, field: Bytes, k: nat, bits: seq<Bit>)
    requires k == 7 + 8 * n && BitsOf(field) == bits
    ensures BitsOf(data + [0x80] + ZeroBytes(n) + field) == BitsOf(data) + [true] + Zeros(k) + bits
  {
    BitsOfParts(data, ZeroBytes(n), field);
    MarkerAndZeros(n);
    Regroup(BitsOf(data), BitsOf([0x80]), BitsOf(ZeroBytes(n)), bits, [true], Zeros(k));
  }

  lemma LengthFits(length: nat)
    requires length < 0x2000_0000_0000_0000
    ensures LengthField(length) == 8 * length < 0x1_0000_0000_0000_0000
  {
  }

  /** Under 2^61 bytes the bytes of the padded message are the padding of FIPS 180-4. */
  lemma PaddingIsStandard(data: Bytes)
    requires |data| < 0x2000_0000_0000_0000
    ensures |BitsOf(data)| < 0x1_0000_0000_0000_0000
    ensures BitsOf(PaddedBytes(data)) == PadBits(BitsOf(data))
  {
    BitCount(data);
    LengthFits(|data|);
    ZeroCountsAgree(|data|);
    BitsOfBytesOfNat(8 * |data|, LENGTH_BYTES);
    PaddingShape(data, ZeroByteCount(|data|), BytesOfNat(8 * |data|, LENGTH_BYTES),
                 ZeroCount(|BitsOf(data)|), BitsOfNat(8 * |data|, LENGTH_BITS));
  }

  /** No shorter multiple of 64 has room for the message, the 0x80 byte and the length. */
  lemma PaddingIsShortest(data: Bytes, blocks: nat)
    ensures |data| + 9 <= |PaddedBytes(data)|
    ensures 64 * blocks >= |data| + 9 ==> 64 * blocks >= |PaddedBytes(data)|
  {
    PaddedBytesLength(data);
    LeastMultiple(|data|, blocks);
  }

  lemma LeastMultiple(length: nat, blocks: nat)
    ensures length + 9 <= 64 * (1 - (55 - length) / 64)
    ensures 64 * blocks >= length + 9 ==> blocks >= 1 - (55 - length) / 64
  {
  }

  // ----- Undoing the padding -----

  function WithoutZeros(bytes: Bytes): Bytes {
    if bytes != [] && bytes[|bytes| - 1] == 0 then WithoutZeros(bytes[..|bytes| - 1]) else bytes
  }

  /** Drops the length, the zeros and the 0x80 byte. */
  function Unpad(padded: Bytes): Option<Bytes> {
    if |padded| < 8 then None
    else
      var marked := WithoutZeros(padded[..|padded| - 8]);
      if marked != [] && marked[|marked| - 1] == 0x80 then Some(marked[..|marked| - 1]) else None
  }

  lemma {:induction false} ZerosAreStripped(bytes: Bytes, n: nat)
    requires bytes != [] && bytes[|bytes| - 1] != 0
    ensures WithoutZeros(bytes + ZeroBytes(n)) == bytes
  {
    var padded := bytes + ZeroBytes(n);
    if n == 0 {
      assert padded == bytes;
    } else {
      assert padded[..|padded| - 1] == bytes + ZeroBytes(n - 1);
      ZerosAreStripped(bytes, n - 1);
    }
  }

  /** Padding loses nothing: the message can be read back. */
  lemma UnpadRecovers(data: Bytes)
    ensures Unpad(PaddedBytes(data)) == Some(data)
  {
    var padded := PaddedBytes(data);
    var n := ZeroByteCount(|data|);
    assert padded[..|padded| - 8] == (data + [0x80]) + ZeroBytes(n);
    ZerosAreStripped(data + [0x80], n);
    assert (data + [0x80])[..|data|] == data;
  }
}
