/**
 Text in bytes: UTF-8 as section 4 of RFC 3629 defines it, and Windows-1252.
 */
module Encoding {
  import opened Wrappers

  // ----- UTF-8 -----

  predicate IsTail(b: Byte) {
    0x80 <= b <= 0xbf
  }

  predicate IsThree(b0: Byte, b1: Byte) {
    || (b0 == 0xe0 && 0xa0 <= b1 <= 0xbf)
    || ((0xe1 <= b0 <= 0xec || 0xee <= b0 <= 0xef) && IsTail(b1))
    || (b0 == 0xed && 0x80 <= b1 <= 0x9f)
  }

  predicate IsFour(b0: Byte, b1: Byte) {
    || (b0 == 0xf0 && 0x90 <= b1 <= 0xbf)
    || (0xf1 <= b0 <= 0xf3 && IsTail(b1))
    || (b0 == 0xf4 && 0x80 <= b1 <= 0x8f)
  }

  /** The number whose base-64 digits a sequence carries, most significant first. */
  function Two(b0: int, b1: int): int { (b0 - 0xc0) * 0x40 + (b1 - 0x80) }

  function Three(b0: int, b1: int, b2: int): int { ((b0 - 0xe0) * 0x40 + (b1 - 0x80)) * 0x40 + (b2 - 0x80) }

  function Four(b0: int, b1: int, b2: int, b3: int): int {
    (((b0 - 0xf0) * 0x40 + (b1 - 0x80)) * 0x40 + (b2 - 0x80)) * 0x40 + (b3 - 0x80)
  }

  datatype Next = Bad | Char(c: char, length: nat)

  /** The character a byte sequence starts with. */
  function NextChar(bytes: Bytes): (next: Next)
    requires bytes != []
    ensures next.Char? ==> 1 <= next.length <= |bytes|
  {
    var b0 := bytes[0];
    if b0 < 0x80 then Char(b0 as char, 1)
    else if |bytes| >= 2 && 0xc2 <= b0 <= 0xdf && IsTail(bytes[1]) then
      Char(Two(b0, bytes[1]) as char, 2)
    else if |bytes| >= 3 && IsThree(b0, bytes[1]) && IsTail(bytes[2]) then
      Char(Three(b0, bytes[1], bytes[2]) as char, 3)
    else if |bytes| >= 4 && IsFour(b0, bytes[1]) && IsTail(bytes[2]) && IsTail(bytes[3]) then
      Char(Four(b0, bytes[1], bytes[2], bytes[3]) as char, 4)
    else Bad
  }

  function DecodeUtf8(bytes: Bytes): Option<string> {
    if bytes == [] then Some("")
    else
      match NextChar(bytes)
      case Bad => None
      case Char(c, length) =>
        match DecodeUtf8(bytes[length..])
        case None => None
        case Some(rest) => Some([c] + rest)
  }

  predicate IsUtf8(bytes: Bytes) {
    DecodeUtf8(bytes).Some?
  }

  function EncodeChar(c: char): (bytes: Bytes)
    ensures bytes != []
  {
    var n := c as int;
    if n < 0x80 then [n]
    else if n < 0x800 then [0xc0 + n / 0x40, 0x80 + n % 0x40]
    else if n < 0x10000 then [0xe0 + n / 0x40 / 0x40, 0x80 + n / 0x40 % 0x40, 0x80 + n % 0x40]
    else [0xf0 + n / 0x40 / 0x40 / 0x40, 0x80 + n / 0x40 / 0x40 % 0x40, 0x80 + n / 0x40 % 0x40, 0x80 + n % 0x40]
  }

  function EncodeUtf8(text: string): Bytes {
    if text == "" then [] else EncodeChar(text[0]) + EncodeUtf8(text[1..])
  }

  lemma EncodedCharIsValid(c: char)
    ensures NextChar(EncodeChar(c)) == Char(c, |EncodeChar(c)|)
  {
    var n := c as int;
    assert n == n / 0x40 * 0x40 + n % 0x40;
    assert n / 0x40 == n / 0x40 / 0x40 * 0x40 + n / 0x40 % 0x40;
  }

  lemma EncodedCharIsNext(c: char, rest: Bytes)
    ensures NextChar(EncodeChar(c) + rest) == Char(c, |EncodeChar(c)|)
  {
    var bytes := EncodeChar(c);
    EncodedCharIsValid(c);
    assert forall i | 0 <= i < |bytes| :: (bytes + rest)[i] == bytes[i];
  }

  /** Every text is the decoding of its encoding. */
  lemma {:induction false} Utf8ReadsBack(text: string)
    ensures DecodeUtf8(EncodeUtf8(text)) == Some(text)
  {
    if text != "" {
      var first, rest := EncodeChar(text[0]), EncodeUtf8(text[1..]);
      EncodedCharIsNext(text[0], rest);
      Utf8ReadsBack(text[1..]);
      assert (first + rest)[|first|..] == rest;
      assert [text[0]] + text[1..] == text;
    }
  }

  lemma TwoIsEncoded(b0: Byte, b1: Byte)
    requires 0xc2 <= b0 <= 0xdf && IsTail(b1)
    ensures EncodeChar(Two(b0, b1) as char) == [b0, b1]
  {
    Base64(b0 as int - 0xc0, b1 as int - 0x80);
  }

  lemma ThreeIsEncoded(b0: Byte, b1: Byte, b2: Byte)
    requires IsThree(b0, b1) && IsTail(b2)
    ensures EncodeChar(Three(b0, b1, b2) as char) == [b0, b1, b2]
  {
    var high := (b0 as int - 0xe0) * 0x40 + (b1 as int - 0x80);
    Base64(high, b2 as int - 0x80);
    Base64(b0 as int - 0xe0, b1 as int - 0x80);
  }

  lemma FourIsEncoded(b0: Byte, b1: Byte, b2: Byte, b3: Byte)
    requires IsFour(b0, b1) && IsTail(b2) && IsTail(b3)
    ensures EncodeChar(Four(b0, b1, b2, b3) as char) == [b0, b1, b2, b3]
  {
    var high := (b0 as int - 0xf0) * 0x40 + (b1 as int - 0x80);
    Base64(high * 0x40 + (b2 as int - 0x80), b3 as int - 0x80);
    Base64(high, b2 as int - 0x80);
    Base64(b0 as int - 0xf0, b1 as int - 0x80);
  }

  lemma NextIsEncoded(bytes: Bytes)
    requires bytes != [] && NextChar(bytes).Char?
    ensures EncodeChar(NextChar(bytes).c) == bytes[..NextChar(bytes).length]
  {
    var n := NextChar(bytes).length;
    if n == 1 {
      assert bytes[..1] == [bytes[0]];
    } else if n == 2 {
      assert bytes[..2] == [bytes[0], bytes[1]];
      TwoIsEncoded(bytes[0], bytes[1]);
    } else if n == 3 {
      assert bytes[..3] == [bytes[0], bytes[1], bytes[2]];
      ThreeIsEncoded(bytes[0], bytes[1], bytes[2]);
    } else {
      assert bytes[..4] == [bytes[0], bytes[1], bytes[2], bytes[3]];
      FourIsEncoded(bytes[0], bytes[1], bytes[2], bytes[3]);
    }
  }

  lemma Base64(high: int, low: int)
    requires 0 <= low < 0x40
    ensures (high * 0x40 + low) / 0x40 == high && (high * 0x40 + low) % 0x40 == low
  {
  }

  lemma FirstChar(bytes: Bytes) returns (c: char, n: nat)
    requires bytes != [] && IsUtf8(bytes)
    ensures 1 <= n <= |bytes| && EncodeChar(c) == bytes[..n]
    ensures IsUtf8(bytes[n..]) && DecodeUtf8(bytes).value == [c] + DecodeUtf8(bytes[n..]).value
  {
    c, n := NextChar(bytes).c, NextChar(bytes).length;
    NextIsEncoded(bytes);
  }

  lemma EncodesApart(c: char, rest: string)
    ensures EncodeUtf8([c] + rest) == EncodeChar(c) + EncodeUtf8(rest)
  {
    assert ([c] + rest)[1..] == rest;
  }

  /** And only the encoding of a text decodes to it: UTF-8 has no second spelling. */
  lemma {:induction false} Utf8WritesBack(bytes: Bytes)
    requires IsUtf8(bytes)
    ensures EncodeUtf8(DecodeUtf8(bytes).value) == bytes
  {
    if bytes != [] {
      var c, n := FirstChar(bytes);
      Utf8WritesBack(bytes[n..]);
      EncodesApart(c, DecodeUtf8(bytes[n..]).value);
      assert bytes == bytes[..n] + bytes[n..];
    }
  }

  predicate IsAscii(bytes: Bytes) {
    forall i | 0 <= i < |bytes| :: bytes[i] < 0x80
  }

  /** UTF-8 text has as many characters as bytes only when it is ASCII. */
  lemma {:induction false} Utf8Shrinks(bytes: Bytes)
    requires IsUtf8(bytes)
    ensures |DecodeUtf8(bytes).value| <= |bytes|
    ensures |DecodeUtf8(bytes).value| == |bytes| ==> IsAscii(bytes)
  {
    if bytes != [] {
      var next := NextChar(bytes);
      Utf8Shrinks(bytes[next.length..]);
      if next.length == 1 {
        assert forall i | 0 < i < |bytes| :: bytes[i] == bytes[1..][i - 1];
      }
    }
  }

  // ----- Windows-1252 -----

  /** The characters of bytes 0x80 to 0x9f; the five undefined ones are the C1 controls. */
  function High1252(b: Byte): (n: nat)
    requires 0x80 <= b < 0xa0
    ensures 0x80 < n < 0xa0 || 0x152 <= n < 0x2200
  {
    match b
    case 0x80 => 0x20ac case 0x82 => 0x201a case 0x83 => 0x192 case 0x84 => 0x201e
    case 0x85 => 0x2026 case 0x86 => 0x2020 case 0x87 => 0x2021 case 0x88 => 0x2c6
    case 0x89 => 0x2030 case 0x8a => 0x160 case 0x8b => 0x2039 case 0x8c => 0x152
    case 0x8e => 0x17d case 0x91 => 0x2018 case 0x92 => 0x2019 case 0x93 => 0x201c
    case 0x94 => 0x201d case 0x95 => 0x2022 case 0x96 => 0x2013 case 0x97 => 0x2014
    case 0x98 => 0x2dc case 0x99 => 0x2122 case 0x9a => 0x161 case 0x9b => 0x203a
    case 0x9c => 0x153 case 0x9e => 0x17e case 0x9f => 0x178
    case _ => b
  }

  function Char1252(b: Byte): char {
    if 0x80 <= b < 0xa0 then High1252(b) as char else b as char
  }

  function Decode1252(bytes: Bytes): (text: string)
    ensures |text| == |bytes|
  {
    seq(|bytes|, i requires 0 <= i < |bytes| => Char1252(bytes[i]))
  }

  /** The byte of a character that has one. */
  function Byte1252(c: char): (r: Option<Byte>)
    ensures r.Some? ==> Char1252(r.value) == c
  {
    var n := c as int;
    if n < 0x80 || 0xa0 <= n < 0x100 then Some(n)
    else if n in {0x81, 0x8d, 0x8f, 0x90, 0x9d} then Some(n)
    else
      match n
      case 0x20ac => Some(0x80) case 0x201a => Some(0x82) case 0x192 => Some(0x83) case 0x201e => Some(0x84)
      case 0x2026 => Some(0x85) case 0x2020 => Some(0x86) case 0x2021 => Some(0x87) case 0x2c6 => Some(0x88)
      case 0x2030 => Some(0x89) case 0x160 => Some(0x8a) case 0x2039 => Some(0x8b) case 0x152 => Some(0x8c)
      case 0x17d => Some(0x8e) case 0x2018 => Some(0x91) case 0x2019 => Some(0x92) case 0x201c => Some(0x93)
      case 0x201d => Some(0x94) case 0x2022 => Some(0x95) case 0x2013 => Some(0x96) case 0x2014 => Some(0x97)
      case 0x2dc => Some(0x98) case 0x2122 => Some(0x99) case 0x161 => Some(0x9a) case 0x203a => Some(0x9b)
      case 0x153 => Some(0x9c) case 0x17e => Some(0x9e) case 0x178 => Some(0x9f)
      case _ => None
  }

  /** Every byte is one character, and is that character's byte. */
  lemma ByteOfChar(b: Byte)
    ensures Byte1252(Char1252(b)) == Some(b)
  {
  }

  /** The bytes of a text all of whose characters have one. */
  function Encode1252(text: string): (r: Option<Bytes>)
    ensures r.Some? <==> forall i | 0 <= i < |text| :: Byte1252(text[i]).Some?
    ensures r.Some? ==> |r.value| == |text| && Decode1252(r.value) == text
  {
    if text == "" then Some([])
    else
      var first, rest := Byte1252(text[0]), Encode1252(text[1..]);
      if first.None? || rest.None? then None
      else
        assert Decode1252([first.value] + rest.value) == [text[0]] + Decode1252(rest.value);
        Some([first.value] + rest.value)
  }

  /** Bytes are the encoding of a text exactly when they decode to it. */
  lemma {:induction false} EncodesExactly(text: string, bytes: Bytes)
    ensures Encode1252(text) == Some(bytes) <==> Decode1252(bytes) == text
  {
    if Decode1252(bytes) == text && text != "" {
      assert Decode1252(bytes)[0] == text[0] && Decode1252(bytes[1..]) == text[1..];
      ByteOfChar(bytes[0]);
      EncodesExactly(text[1..], bytes[1..]);
      assert bytes == [bytes[0]] + bytes[1..];
    }
  }

  // ----- Newlines -----

  lemma {:induction false} NewlineBytes1252(bytes: Bytes)
    ensures LF in bytes <==> '\n' in Decode1252(bytes)
  {
    if LF in bytes {
      var i :| 0 <= i < |bytes| && bytes[i] == LF;
      assert Decode1252(bytes)[i] == '\n';
    }
    if '\n' in Decode1252(bytes) {
      var i :| 0 <= i < |bytes| && Decode1252(bytes)[i] == '\n';
      assert bytes[i] == LF;
    }
  }

  lemma {:induction false} NoNewlineUtf8(bytes: Bytes)
    requires IsUtf8(bytes) && LF !in bytes
    ensures '\n' !in DecodeUtf8(bytes).value
  {
    if bytes != [] {
      var next := NextChar(bytes);
      assert bytes[0] in bytes;
      NoNewlineUtf8(bytes[next.length..]);
    }
  }

  lemma NextStopsAtNewline(line: Bytes, rest: Bytes)
    requires line != []
    ensures NextChar(line + [LF] + rest) == NextChar(line)
  {
    var whole := line + [LF] + rest;
    assert whole[0] == line[0];
    if |line| == 1 { assert whole[1] == LF; }
    if |line| == 2 { assert whole[2] == LF; }
    if |line| == 3 { assert whole[3] == LF; }
  }

  function JoinLines(a: Option<string>, b: Option<string>): Option<string> {
    if a.None? || b.None? then None else Some(a.value + "\n" + b.value)
  }

  /** UTF-8 decodes line by line: no character spans a newline. */
  lemma {:induction false} Utf8ByLine(line: Bytes, rest: Bytes)
    ensures DecodeUtf8(line + [LF] + rest) == JoinLines(DecodeUtf8(line), DecodeUtf8(rest))
    decreases |line|
  {
    var whole := line + [LF] + rest;
    if line == [] {
      assert whole[0] == LF && whole[1..] == rest;
      assert forall text: string :: ['\n'] + text == "" + "\n" + text;
    } else {
      NextStopsAtNewline(line, rest);
      var next := NextChar(line);
      if next.Char? {
        var n := next.length;
        assert whole[n..] == line[n..] + [LF] + rest;
        Utf8ByLine(line[n..], rest);
        var later := DecodeUtf8(line[n..]);
        if later.Some? && DecodeUtf8(rest).Some? {
          assert [next.c] + (later.value + "\n" + DecodeUtf8(rest).value)
              == ([next.c] + later.value) + "\n" + DecodeUtf8(rest).value;
        }
      }
    }
  }

  // ----- The table of Windows-1252 -----

  /** The characters of the bytes from 0x80 on, as the Encoding Standard's index lists them. */
  const INDEX_1252: seq<nat> :=
    [8364, 129, 8218, 402, 8222, 8230, 8224, 8225] +
    [710, 8240, 352, 8249, 338, 141, 381, 143] +
    [144, 8216, 8217, 8220, 8221, 8226, 8211, 8212] +
    [732, 8482, 353, 8250, 339, 157, 382, 376]

  /** Bytes below 0x80 are ASCII, those from 0xa0 on Latin-1, and those between as in the index. */
  lemma CharactersAre(b: Byte)
    ensures |INDEX_1252| == 32
    ensures Char1252(b) as int == if 128 <= b < 160 then INDEX_1252[b - 128] else b
  {
  }
}
