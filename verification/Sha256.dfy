/**
 `sha256_hex`: the message buffer, the sixty-four word schedule, the eight rolling variables and
 the hash value, all updated in place, and the proof that they compute FIPS 180-4.
 */
module Sha256 {
  import opened Wrappers
  import opened Sha256Standard
  import opened Sha256Padding

  // ----- Words of bytes and words of bits -----

  function ValueOfBytes(bytes: Bytes): nat {
    if bytes == [] then 0 else 256 * ValueOfBytes(bytes[..|bytes| - 1]) + bytes[|bytes| - 1]
  }

  lemma {:induction false} ValueOfAppend(a: seq<Bit>, b: seq<Bit>)
    ensures ValueOfBits(a + b) == ValueOfBits(a) * Pow2(|b|) + ValueOfBits(b)
    decreases b
  {
    if b == [] {
      assert a + b == a;
    } else {
      var init := b[..|b| - 1];
      ValueOfAppend(a, init);
      assert (a + b)[..|a + b| - 1] == a + init;
      MulTwo(ValueOfBits(a), Pow2(|init|));
    }
  }

  lemma {:induction false} ValueOfNatBits(n: nat, width: nat)
    requires n < Pow2(width)
    ensures ValueOfBits(BitsOfNat(n, width)) == n
    decreases width
  {
    if width > 0 {
      ValueOfNatBits(n / 2, width - 1);
      assert BitsOfNat(n, width)[..width - 1] == BitsOfNat(n / 2, width - 1);
    }
  }

  lemma ValueOfByteBits(b: Byte)
    ensures ValueOfBits(ByteBits(b)) == b && Pow2(|ByteBits(b)|) == 256
  {
    assert Pow2(8) == 256;
    ValueOfNatBits(b, BYTE_BITS);
  }

  lemma {:induction false} ValuesAgree(bytes: Bytes)
    ensures ValueOfBits(ConcatMap(ByteBits, bytes)) == ValueOfBytes(bytes)
  {
    if bytes != [] {
      var init, last := bytes[..|bytes| - 1], bytes[|bytes| - 1];
      ValuesAgree(init);
      ValueOfAppend(ConcatMap(ByteBits, init), ByteBits(last));
      ValueOfByteBits(last);
    }
  }

  /** A big-endian word. */
  function WordOfBytes(f: Functions, bytes: Bytes): Word {
    f.word(ValueOfBytes(bytes))
  }

  function WordsOfChunk(f: Functions, chunk: Bytes): (block: seq<Word>)
    requires |chunk| == 64
    ensures |block| == 16
  {
    seq(16, j requires 0 <= j < 16 => WordOfBytes(f, chunk[4 * j..4 * (j + 1)]))
  }

  lemma SliceOfBits(bytes: Bytes, from: nat, to: nat)
    requires from <= to <= |bytes|
    ensures |BitsOf(bytes)| == 8 * |bytes|
    ensures BitsOf(bytes)[8 * from..8 * to] == BitsOf(bytes[from..to])
  {
    BitCount(bytes);
    BitCount(bytes[..from]);
    BitCount(bytes[from..to]);
    assert bytes == bytes[..from] + bytes[from..to] + bytes[to..];
    BitsOfAppend(bytes[..from] + bytes[from..to], bytes[to..]);
    BitsOfAppend(bytes[..from], bytes[from..to]);
  }

  lemma WordsAgree(f: Functions, padded: Bytes, from: nat)
    requires from + 4 <= |padded|
    ensures |BitsOf(padded)| == 8 * |padded|
    ensures WordOfBits(f, BitsOf(padded)[8 * from..8 * from + 32]) == WordOfBytes(f, padded[from..from + 4])
  {
    SliceOfBits(padded, from, from + 4);
    ValuesAgree(padded[from..from + 4]);
    assert 8 * (from + 4) == 8 * from + 32;
  }

  lemma SliceOfSlice<T>(s: seq<T>, from: nat, to: nat, lo: nat, hi: nat)
    requires from <= to <= |s| && lo <= hi <= to - from
    ensures s[from..to][lo..hi] == s[from + lo..from + hi]
  {
    forall k | 0 <= k < hi - lo
      ensures s[from..to][lo..hi][k] == s[from + lo..from + hi][k]
    {
      assert s[from..to][lo + k] == s[from + (lo + k)];
    }
  }

  lemma BlockWordsAgree(f: Functions, padded: Bytes, i: nat, j: nat)
    requires 64 * (i + 1) <= |padded| && j < 16
    ensures |BitsOf(padded)| == 8 * |padded|
    ensures BlockOfBits(f, BitsOf(padded), i)[j] == WordsOfChunk(f, padded[64 * i..64 * (i + 1)])[j]
  {
    var from := 64 * i + 4 * j;
    BitCount(padded);
    BlockWord(f, BitsOf(padded), i, j);
    WordsAgree(f, padded, from);
    ChunkWord(f, padded, i, j);
  }

  lemma ChunkWord(f: Functions, padded: Bytes, i: nat, j: nat)
    requires 64 * (i + 1) <= |padded| && j < 16
    ensures var from := 64 * i + 4 * j;
            WordsOfChunk(f, padded[64 * i..64 * (i + 1)])[j] == WordOfBytes(f, padded[from..from + 4])
  {
    SliceOfSlice(padded, 64 * i, 64 * (i + 1), 4 * j, 4 * (j + 1));
  }

  lemma BlockWord(f: Functions, bits: seq<Bit>, i: nat, j: nat)
    requires 512 * (i + 1) <= |bits| && j < 16
    ensures var from := 64 * i + 4 * j;
            8 * from + 32 <= |bits| && BlockOfBits(f, bits, i)[j] == WordOfBits(f, bits[8 * from..8 * from + 32])
  {
    assert 512 * i + 32 * j == 8 * (64 * i + 4 * j) && 512 * i + 32 * (j + 1) == 8 * (64 * i + 4 * j) + 32;
  }

  /** Reading sixteen big-endian words from 64 bytes is parsing a block of bits. */
  lemma BlocksAgree(f: Functions, padded: Bytes, i: nat)
    requires 64 * (i + 1) <= |padded|
    ensures |BitsOf(padded)| == 8 * |padded|
    ensures BlockOfBits(f, BitsOf(padded), i) == WordsOfChunk(f, padded[64 * i..64 * (i + 1)])
  {
    BitCount(padded);
    forall j: nat | j < 16
      ensures BlockOfBits(f, BitsOf(padded), i)[j] == WordsOfChunk(f, padded[64 * i..64 * (i + 1)])[j]
    {
      BlockWordsAgree(f, padded, i, j);
    }
  }

  // ----- Rotation is rotation of the bits -----

  lemma Pow2Splits(a: nat, b: nat)
    ensures Pow2(a + b) == Pow2(a) * Pow2(b)
    decreases b
  {
    if b > 0 {
      Pow2Splits(a, b - 1);
      MulTwo(Pow2(a), Pow2(b - 1));
    }
  }

  lemma Fits(low: nat, p: nat, q: nat, high: nat)
    requires low < p && high < q
    ensures low * q + high < p * q
  {
    MulGrows(p - 1, low, q);
    assert (p - 1) * q == p * q - q;
  }

  /** ROTR moves the `n` low bits of a word to its top. */
  lemma RotrRotatesBits(x: Word, n: nat)
    requires n < 32
    ensures var bits := BitsOfNat(x, WORD_BITS);
            BitsOfNat(Rotr(x, n), WORD_BITS) == bits[32 - n..] + bits[..32 - n]
  {
    var high, low := RotrHalves(x, n);
    RotatesParts(high, low, 32 - n, n, x, Rotr(x, n), WORD_BITS);
  }

  lemma DivMod(x: nat, d: nat) returns (high: nat, low: nat)
    requires d > 0
    ensures high == x / d && low == x % d
    ensures x == high * d + low && low < d
  {
    high, low := x / d, x % d;
  }

  lemma RotrHalves(x: Word, n: nat) returns (high: nat, low: nat)
    requires n < 32
    ensures high == x / Pow2(n) && x == high * Pow2(n) + low && low < Pow2(n)
    ensures Rotr(x, n) == low * Pow2(32 - n) + high && high < Pow2(32 - n)
  {
    high, low := DivMod(x, Pow2(n));
    RotatedFits(high, low, 32 - n, n, x);
    RotrIs(x, n, high, low);
  }

  lemma RotrIs(x: Word, n: nat, high: nat, low: nat)
    requires n < 32 && high == x / Pow2(n) && low == x % Pow2(n) && low * Pow2(32 - n) + high < MODULUS
    ensures Rotr(x, n) == low * Pow2(32 - n) + high
  {
    SmallModulus(low * Pow2(32 - n) + high);
  }

  lemma RotatedFits(high: nat, low: nat, a: nat, b: nat, x: Word)
    requires a + b == 32 && x == high * Pow2(b) + low && low < Pow2(b)
    ensures high < Pow2(a) && low * Pow2(a) + high < MODULUS
  {
    Pow2Of32();
    Pow2Splits(a, b);
    HighFits(high, low, Pow2(a), Pow2(b));
    Fits(low, Pow2(b), Pow2(a), high);
  }

  lemma RotatesParts(high: nat, low: nat, a: nat, b: nat, x: nat, rotated: nat, width: nat)
    requires a + b == width && x == high * Pow2(b) + low && low < Pow2(b)
    requires rotated == low * Pow2(a) + high && high < Pow2(a)
    ensures BitsOfNat(rotated, width) == BitsOfNat(x, width)[a..] + BitsOfNat(x, width)[..a]
  {
    BitsOfSum(high, low, a, b);
    BitsOfSum(low, high, b, a);
    SwapsHalves(BitsOfNat(high, a), BitsOfNat(low, b));
  }

  lemma SmallModulus(n: nat)
    requires n < MODULUS
    ensures n % MODULUS == n
  {
  }

  lemma SwapsHalves<T>(top: seq<T>, bottom: seq<T>)
    ensures (top + bottom)[|top|..] + (top + bottom)[..|top|] == bottom + top
  {
  }

  lemma HighFits(high: nat, low: nat, p: nat, q: nat)
    requires high * q + low < p * q
    ensures high < p
  {
    MulGrows(high, p, q);
  }

  // ----- The hash, in place -----

  predicate SwapsAt(f: Functions, a: Word, b: Word) {
    f.add(a, b) == f.add(b, a)
  }

  predicate RegroupsAt(f: Functions, a: Word, b: Word, c: Word, d: Word) {
    f.add(f.add(f.add(a, b), c), d) == f.add(f.add(f.add(d, c), b), a)
  }

  /** What the in-place computation needs of addition: it writes its sums in its own order. */
  ghost predicate AddsInAnyOrder(f: Functions) {
    && (forall a, b :: SwapsAt(f, a, b))
    && (forall a, b, c, d :: RegroupsAt(f, a, b, c, d))
  }

  lemma SumOfFour(a: Word, b: Word, c: Word, d: Word)
    ensures Add(Add(Add(a, b), c), d) == (a + b + c + d) % MODULUS
  {
    SumStep(a, b);
    SumStep(a + b, c);
    SumStep(a + b + c, d);
  }

  lemma SumStep(sum: nat, x: Word)
    ensures (sum % MODULUS + x) % MODULUS == (sum + x) % MODULUS
  {
  }

  lemma AdditionModulo2To32()
    ensures AddsInAnyOrder(FIPS())
  {
    forall a, b, c, d
      ensures RegroupsAt(FIPS(), a, b, c, d)
    {
      SumOfFour(a, b, c, d);
      SumOfFour(d, c, b, a);
    }
  }

  method LoadWords(f: Functions, w: array<Word>, chunk: Bytes)
    requires w.Length == 64 && |chunk| == 64
    modifies w
    ensures w[..16] == WordsOfChunk(f, chunk)
  {
    for i := 0 to 16
      invariant forall t | 0 <= t < i :: w[t] == WordOfBytes(f, chunk[4 * t..4 * (t + 1)])
    {
      w[i] := WordOfBytes(f, chunk[4 * i..4 * (i + 1)]);
    }
  }

  method ExtendSchedule(f: Functions, w: array<Word>, ghost block: seq<Word>)
    requires AddsInAnyOrder(f)
    requires w.Length == 64 && |block| == 16 && w[..16] == block
    modifies w
    ensures forall t | 0 <= t < 64 :: w[t] == Schedule(f, block, t)
  {
    assert forall t | 0 <= t < 16 :: w[t] == w[..16][t] == Schedule(f, block, t);
    for i := 16 to 64
      invariant forall t | 0 <= t < i :: w[t] == Schedule(f, block, t)
    {
      var s0 := f.lower0(w[i - 15]);
      var s1 := f.lower1(w[i - 2]);
      assert RegroupsAt(f, w[i - 16], s0, w[i - 7], s1);
      w[i] := f.add(f.add(f.add(w[i - 16], s0), w[i - 7]), s1);
    }
  }

  /** The sixty-four rounds on the eight rolling variables. */
  method RunRounds(f: Functions, h: array<Word>, w: array<Word>, ghost block: seq<Word>)
    returns (v: Working)
    requires h.Length == 8 && w.Length == 64 && |block| == 16
    requires forall t | 0 <= t < 64 :: w[t] == Schedule(f, block, t)
    ensures v == Rounds(f, block, Working(h[0], h[1], h[2], h[3], h[4], h[5], h[6], h[7]), ROUNDS)
  {
    var a, b, c, d, e, ff, g, hh := h[0], h[1], h[2], h[3], h[4], h[5], h[6], h[7];
    ghost var start := Working(a, b, c, d, e, ff, g, hh);
    for i := 0 to ROUNDS
      invariant Working(a, b, c, d, e, ff, g, hh) == Rounds(f, block, start, i)
    {
      var t1 := f.add(f.add(f.add(f.add(hh, f.upper1(e)), f.ch(e, ff, g)), K[i]), w[i]);
      var t2 := f.add(f.upper0(a), f.maj(a, b, c));
      hh := g;
      g := ff;
      ff := e;
      e := f.add(d, t1);
      d := c;
      c := b;
      b := a;
      a := f.add(t1, t2);
    }
    v := Working(a, b, c, d, e, ff, g, hh);
  }

  function Listed(v: Working): (s: seq<Word>)
    ensures |s| == 8
  {
    [v.a, v.b, v.c, v.d, v.e, v.f, v.g, v.h]
  }

  function RoundsFrom(f: Functions, block: seq<Word>, h: seq<Word>): Working
    requires |block| == 16 && |h| == 8
  {
    Rounds(f, block, Working(h[0], h[1], h[2], h[3], h[4], h[5], h[6], h[7]), ROUNDS)
  }

  lemma CompressedInto(f: Functions, before: seq<Word>, block: seq<Word>, after: seq<Word>)
    requires AddsInAnyOrder(f) && |before| == 8 && |block| == 16 && |after| == 8
    requires forall i | 0 <= i < 8 :: after[i] == f.add(before[i], Listed(RoundsFrom(f, block, before))[i])
    ensures after == Compress(f, before, block)
  {
    forall i | 0 <= i < 8
      ensures after[i] == Compress(f, before, block)[i]
    {
      assert SwapsAt(f, before[i], Listed(RoundsFrom(f, block, before))[i]);
    }
  }

  /** One block of the hash computation, on the hash value `h`. */
  method CompressChunk(f: Functions, h: array<Word>, w: array<Word>, chunk: Bytes)
    requires AddsInAnyOrder(f)
    requires h.Length == 8 && w.Length == 64 && h != w && |chunk| == 64
    modifies h, w
    ensures h[..] == Compress(f, old(h[..]), WordsOfChunk(f, chunk))
  {
    ghost var block := WordsOfChunk(f, chunk);
    LoadWords(f, w, chunk);
    ExtendSchedule(f, w, block);
    var v := RunRounds(f, h, w, block);
    ghost var before := h[..];
    AddInto(f, h, Listed(v));
    CompressedInto(f, before, block, h[..]);
  }

  /** Adds the rolling variables into the hash value, slot by slot. */
  method AddInto(f: Functions, h: array<Word>, v: seq<Word>)
    requires h.Length == 8 && |v| == 8
    modifies h
    ensures forall i | 0 <= i < 8 :: h[i] == f.add(old(h[i]), v[i])
  {
    for i := 0 to 8
      invariant forall j | 0 <= j < i :: h[j] == f.add(old(h[j]), v[j])
      invariant forall j | i <= j < 8 :: h[j] == old(h[j])
    {
      h[i] := f.add(h[i], v[i]);
    }
  }

  /** Appends the 0x80 byte, the zeros and the length to a copy of the message. */
  method PadMessage(data: Bytes) returns (msg: Bytes)
    ensures msg == PaddedBytes(data)
  {
    msg := data + [0x80];
    ghost var zeros := 0;
    while |msg| % 64 != 56
      invariant zeros <= ZeroByteCount(|data|)
      invariant msg == data + [0x80] + ZeroBytes(zeros)
      decreases ZeroByteCount(|data|) - zeros
    {
      NotYetFull(|data|, zeros);
      msg := msg + [0];
      assert ZeroBytes(zeros) + [0] == ZeroBytes(zeros + 1);
      zeros := zeros + 1;
    }
    FullAt(|data|, zeros);
    msg := msg + BytesOfNat(LengthField(|data|), LENGTH_BYTES);
  }

  lemma NotYetFull(length: nat, zeros: nat)
    requires zeros <= ZeroByteCount(length) && (length + 1 + zeros) % 64 != 56
    ensures zeros < ZeroByteCount(length)
  {
  }

  lemma FullAt(length: nat, zeros: nat)
    requires zeros <= ZeroByteCount(length) && (length + 1 + zeros) % 64 == 56
    ensures zeros == ZeroByteCount(length)
  {
    var z := ZeroByteCount(length);
    assert (z - zeros) % 64 == 0;
  }

  // ----- The hexadecimal digest -----

  function HexDigit(n: nat): char
    requires n < 16
  {
    "0123456789abcdef"[n]
  }

  function HexOfNat(n: nat, width: nat): (hex: string)
    ensures |hex| == width
    decreases width
  {
    if width == 0 then "" else HexOfNat(n / 16, width - 1) + [HexDigit(n % 16)]
  }

  const HEX_WIDTH: nat := 8

  function HexOfWord(w: Word): (hex: string)
    ensures |hex| == 8
  {
    HexOfNat(w, HEX_WIDTH)
  }

  function HexOfWords(words: seq<Word>): string {
    ConcatMap(HexOfWord, words)
  }

  predicate IsLowerHex(c: char) {
    '0' <= c <= '9' || 'a' <= c <= 'f'
  }

  function DigitValue(c: char): nat
    requires IsLowerHex(c)
  {
    if c <= '9' then (c - '0') as nat else 10 + (c - 'a') as nat
  }

  function HexValue(hex: string): nat
    requires forall c | c in hex :: IsLowerHex(c)
  {
    if hex == "" then 0 else 16 * HexValue(hex[..|hex| - 1]) + DigitValue(hex[|hex| - 1])
  }

  function Pow16(n: nat): nat {
    if n == 0 then 1 else 16 * Pow16(n - 1)
  }

  lemma {:induction false} HexReadsBack(n: nat, width: nat)
    requires n < Pow16(width)
    ensures forall c | c in HexOfNat(n, width) :: IsLowerHex(c)
    ensures HexValue(HexOfNat(n, width)) == n
    decreases width
  {
    if width > 0 {
      HexReadsBack(n / 16, width - 1);
      assert HexOfNat(n, width)[..width - 1] == HexOfNat(n / 16, width - 1);
    }
  }

  lemma HexOfWordReadsBack(w: Word)
    ensures forall c | c in HexOfWord(w) :: IsLowerHex(c)
    ensures HexValue(HexOfWord(w)) == w
  {
    assert Pow16(4) == 0x1_0000;
    assert Pow16(8) == 0x1_0000_0000;
    HexReadsBack(w, HEX_WIDTH);
  }

  /** The output has eight lower-case hexadecimal digits a word, which read back as the word. */
  lemma HexDecodes(words: seq<Word>, i: nat)
    requires i < |words|
    ensures |HexOfWords(words)| == 8 * |words|
    ensures var digits := HexOfWords(words)[8 * i..8 * (i + 1)];
            (forall c | c in digits :: IsLowerHex(c)) && HexValue(digits) == words[i]
  {
    ConcatMapAt(HexOfWord, words, 8, i);
    HexOfWordReadsBack(words[i]);
  }

  lemma HashStep(f: Functions, msg: Bytes, i: nat)
    requires 64 * (i + 1) <= |msg|
    ensures |BitsOf(msg)| == 8 * |msg|
    ensures HashBlocks(f, BitsOf(msg), i + 1)
         == Compress(f, HashBlocks(f, BitsOf(msg), i), WordsOfChunk(f, msg[64 * i..64 * (i + 1)]))
  {
    BlocksAgree(f, msg, i);
  }

  /** Each value is the one before it compressed with the next chunk. */
  ghost predicate IsHashed(f: Functions, msg: Bytes, hashes: seq<seq<Word>>) {
    && |hashes| == |msg| / 64 + 1
    && (forall i | 0 <= i < |hashes| :: |hashes[i]| == 8)
    && forall i | 0 < i < |hashes| :: NextHash(f, hashes[i - 1], msg, i - 1, hashes[i])
  }

  ghost predicate NextHash(f: Functions, before: seq<Word>, msg: Bytes, i: nat, after: seq<Word>)
    requires |before| == 8 && 64 * (i + 1) <= |msg|
  {
    after == Compress(f, before, WordsOfChunk(f, msg[64 * i..64 * (i + 1)]))
  }

  /** The hash after each number of blocks, by the standard. */
  ghost function HashesOf(f: Functions, msg: Bytes): (hashes: seq<seq<Word>>)
    ensures |hashes| == |msg| / 64 + 1 && |BitsOf(msg)| == 8 * |msg|
    ensures forall i | 0 <= i < |hashes| :: hashes[i] == HashBlocks(f, BitsOf(msg), i)
  {
    BitCount(msg);
    seq(|msg| / 64 + 1, i requires 0 <= i < |msg| / 64 + 1 => HashBlocks(f, BitsOf(msg), i))
  }

  lemma HashesFollow(f: Functions, msg: Bytes)
    ensures IsHashed(f, msg, HashesOf(f, msg))
  {
    var hashes := HashesOf(f, msg);
    forall i | 0 < i < |hashes|
      ensures NextHash(f, hashes[i - 1], msg, i - 1, hashes[i])
    {
      HashStep(f, msg, i - 1);
    }
  }

  /** Hashes every block of the padded message into `h`. */
  method HashMessage(f: Functions, h: array<Word>, msg: Bytes, ghost hashes: seq<seq<Word>>)
    requires AddsInAnyOrder(f) && IsHashed(f, msg, hashes)
    requires h.Length == 8 && h[..] == hashes[0]
    modifies h
    ensures h[..] == hashes[|msg| / 64]
  {
    var w := new Word[64];
    for i := 0 to |msg| / 64
      invariant h[..] == hashes[i]
    {
      CompressChunk(f, h, w, msg[64 * i..64 * (i + 1)]);
      assert NextHash(f, hashes[i], msg, i, hashes[i + 1]);
    }
  }

  method PrintHex(h: array<Word>) returns (hex: string)
    requires h.Length == 8
    ensures hex == HexOfWords(h[..])
  {
    hex := "";
    for i := 0 to 8
      invariant hex == HexOfWords(h[..i])
    {
      assert h[..i + 1][..i] == h[..i];
      hex := hex + HexOfWord(h[i]);
    }
    assert h[..8] == h[..];
  }

  /** From the initial hash value through every block. */
  method HashFromStart(f: Functions, msg: Bytes) returns (h: array<Word>)
    requires AddsInAnyOrder(f)
    ensures fresh(h) && h.Length == 8
    ensures |BitsOf(msg)| == 8 * |msg| && h[..] == HashBlocks(f, BitsOf(msg), |msg| / 64)
  {
    h := new Word[8](i requires 0 <= i < 8 => H0[i]);
    assert h[..] == H0;
    ghost var hashes := HashesOf(f, msg);
    HashesFollow(f, msg);
    assert hashes[0] == HashBlocks(f, BitsOf(msg), 0) == H0;
    HashMessage(f, h, msg, hashes);
  }

  method Sha256Hex(data: Bytes) returns (hex: string)
    ensures |BitsOf(PaddedBytes(data))| == 8 * |PaddedBytes(data)|
    ensures hex == HexOfWords(HashBlocks(FIPS(), BitsOf(PaddedBytes(data)), |PaddedBytes(data)| / 64))
  {
    var msg := PadMessage(data);
    AdditionModulo2To32();
    var h := HashFromStart(FIPS(), msg);
    hex := PrintHex(h);
  }

  lemma BlockCount(bytes: nat)
    ensures 8 * bytes / 512 == bytes / 64
  {
  }

  /** For every message under 2^61 bytes the blocks hashed are those of the standard, so the
      output is the hexadecimal form of the FIPS 180-4 digest. */
  lemma MethodComputesTheStandard(data: Bytes)
    requires |data| < 0x2000_0000_0000_0000
    ensures |BitsOf(data)| < 0x1_0000_0000_0000_0000
    ensures |BitsOf(PaddedBytes(data))| == 8 * |PaddedBytes(data)|
    ensures HashBlocks(FIPS(), BitsOf(PaddedBytes(data)), |PaddedBytes(data)| / 64) == Digest(FIPS(), BitsOf(data))
  {
    PaddingIsStandard(data);
    var padded := PaddedBytes(data);
    PaddedIsWhole(data);
    BitCount(padded);
    BlockCount(|padded|);
  }
}
