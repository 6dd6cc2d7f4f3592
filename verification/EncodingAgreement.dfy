/**
 Two readers decide the encoding of a filing: one for the whole file, one for each line. When
 they agree; and what the writer must do so that its own output is read back.
 */
module EncodingAgreement {
  import opened Wrappers
  import opened Text
  import opened Encoding

  const BOM: Bytes := [0xef, 0xbb, 0xbf]

  function WithoutBom(bytes: Bytes): Bytes {
    if BOM <= bytes then bytes[3..] else bytes
  }

  /** UTF-8 if the bytes are, else Windows-1252. */
  function DecodeBest(bytes: Bytes): string {
    if IsUtf8(bytes) then DecodeUtf8(bytes).value else Decode1252(bytes)
  }

  /** The eager parser decides once, for all of the file after a byte-order mark. */
  function DecodeWhole(bytes: Bytes): string {
    DecodeBest(WithoutBom(bytes))
  }

  function DecodeEach(lines: seq<Bytes>): (texts: seq<string>)
    ensures |texts| == |lines|
  {
    seq(|lines|, i requires 0 <= i < |lines| => DecodeBest(lines[i]))
  }

  /** The streaming reader decides for each line, the first one after a byte-order mark. */
  function DecodeLines(bytes: Bytes): string {
    var lines := Split(bytes, LF);
    Join(DecodeEach([WithoutBom(lines[0])] + lines[1..]), '\n')
  }

  /** The check the fuzz targets make. */
  predicate DecodersAgree(bytes: Bytes) {
    IsUtf8(bytes) || AllPlain(Split(bytes, LF))
  }

  predicate AllPlain(lines: seq<Bytes>) {
    forall i | 0 <= i < |lines| :: LineIsPlain(lines[i])
  }

  predicate LineIsPlain(line: Bytes) {
    IsUtf8(line) ==> IsAscii(line)
  }

  // ----- Lines -----

  function Each1252(lines: seq<Bytes>): (texts: seq<string>)
    ensures |texts| == |lines|
  {
    seq(|lines|, i requires 0 <= i < |lines| => Decode1252(lines[i]))
  }

  /** A byte sequence is its first line, or that, a newline and the rest. */
  lemma SplitUnfolds(bytes: Bytes)
    ensures var lines := Split(bytes, LF);
            && LF !in lines[0]
            && if |lines| == 1 then bytes == lines[0]
               else exists rest :: bytes == lines[0] + [LF] + rest && |rest| < |bytes| && Split(rest, LF) == lines[1..]
  {
    var lines := Split(bytes, LF);
    SplitJoins(bytes, LF);
    if |lines| > 1 {
      var rest := Join(lines[1..], LF);
      assert bytes == lines[0] + [LF] + rest;
      JoinSplits(lines[1..], LF);
    }
  }

  lemma Appends1252(line: Bytes, rest: Bytes)
    ensures Decode1252(line + [LF] + rest) == Decode1252(line) + "\n" + Decode1252(rest)
  {
  }

  lemma {:induction false} WholeBy1252(bytes: Bytes)
    ensures Join(Each1252(Split(bytes, LF)), '\n') == Decode1252(bytes)
    decreases |bytes|
  {
    var lines := Split(bytes, LF);
    SplitUnfolds(bytes);
    if |lines| > 1 {
      var rest :| bytes == lines[0] + [LF] + rest && |rest| < |bytes| && Split(rest, LF) == lines[1..];
      WholeBy1252(rest);
      assert Each1252(lines)[1..] == Each1252(lines[1..]);
      Appends1252(lines[0], rest);
    }
  }

  ghost predicate AllUtf8(lines: seq<Bytes>) {
    forall i | 0 <= i < |lines| :: IsUtf8(lines[i])
  }

  lemma AllUtf8Unfolds(lines: seq<Bytes>)
    requires lines != []
    ensures AllUtf8(lines) <==> IsUtf8(lines[0]) && AllUtf8(lines[1..])
  {
    assert forall i | 0 < i < |lines| :: lines[i] == lines[1..][i - 1];
  }

  /** A file is UTF-8 exactly when each line is; and then decoding by line is decoding the whole. */
  lemma {:induction false} WholeByUtf8(bytes: Bytes)
    ensures IsUtf8(bytes) <==> AllUtf8(Split(bytes, LF))
    ensures IsUtf8(bytes) ==> Join(DecodeEach(Split(bytes, LF)), '\n') == DecodeUtf8(bytes).value
    decreases |bytes|
  {
    var lines := Split(bytes, LF);
    SplitUnfolds(bytes);
    if |lines| > 1 {
      var rest :| bytes == lines[0] + [LF] + rest && |rest| < |bytes| && Split(rest, LF) == lines[1..];
      WholeByUtf8(rest);
      Utf8ByLine(lines[0], rest);
      AllUtf8Unfolds(lines);
      assert DecodeEach(lines)[1..] == DecodeEach(lines[1..]);
    }
  }

  lemma NoNewlineInLine(line: Bytes)
    requires LF !in line
    ensures '\n' !in DecodeBest(line) && '\n' !in Decode1252(line)
  {
    NewlineBytes1252(line);
    if IsUtf8(line) {
      NoNewlineUtf8(line);
    }
  }

  lemma {:induction false} AsciiIsBoth(bytes: Bytes)
    requires IsAscii(bytes)
    ensures DecodeUtf8(bytes) == Some(Decode1252(bytes))
  {
    if bytes != [] {
      AsciiIsBoth(bytes[1..]);
      assert [Char1252(bytes[0])] + Decode1252(bytes[1..]) == Decode1252(bytes);
    }
  }

  /** One line reads the same in its own encoding and in Windows-1252 exactly when it is plain. */
  lemma PlainLines(line: Bytes)
    ensures DecodeBest(line) == Decode1252(line) <==> LineIsPlain(line)
  {
    if IsUtf8(line) {
      Utf8Shrinks(line);
      if IsAscii(line) {
        AsciiIsBoth(line);
      }
    }
  }

  /** Whether decoding by line gives the text of decoding the whole, byte-order marks aside. */
  lemma AgreeWithoutBom(bytes: Bytes)
    ensures DecodeBest(bytes) == Join(DecodeEach(Split(bytes, LF)), '\n') <==> DecodersAgree(bytes)
  {
    var lines := Split(bytes, LF);
    WholeByUtf8(bytes);
    if !IsUtf8(bytes) {
      WholeBy1252(bytes);
      SplitJoins(bytes, LF);
      forall i | 0 <= i < |lines|
        ensures '\n' !in DecodeEach(lines)[i] && '\n' !in Each1252(lines)[i]
        ensures DecodeEach(lines)[i] == Each1252(lines)[i] <==> LineIsPlain(lines[i])
      {
        NoNewlineInLine(lines[i]);
        PlainLines(lines[i]);
      }
      JoinSplits(DecodeEach(lines), '\n');
      JoinSplits(Each1252(lines), '\n');
      assert DecodeEach(lines) == Each1252(lines) <==> AllPlain(lines);
    }
  }

  // ----- The byte-order mark -----

  lemma BomIsInFirstLine(bytes: Bytes)
    ensures var lines := Split(bytes, LF);
            Split(WithoutBom(bytes), LF) == [WithoutBom(lines[0])] + lines[1..]
  {
    var lines := Split(bytes, LF);
    if BOM <= bytes {
      FirstLineIsMarked(bytes);
      var rest := Split(bytes[3..], LF);
      assert rest == [rest[0]] + rest[1..];
    } else {
      FirstLineIsUnmarked(bytes);
      assert [lines[0]] + lines[1..] == lines;
    }
  }

  lemma FirstLineIsUnmarked(bytes: Bytes)
    requires !(BOM <= bytes)
    ensures !(BOM <= Split(bytes, LF)[0])
  {
    SplitUnfolds(bytes);
  }

  lemma FirstLineIsMarked(bytes: Bytes)
    requires BOM <= bytes
    ensures BOM <= Split(bytes, LF)[0] && Split(bytes, LF)[0][3..] == Split(bytes[3..], LF)[0]
    ensures Split(bytes, LF)[1..] == Split(bytes[3..], LF)[1..]
  {
    var b := bytes[3..];
    assert bytes == [0xef] + ([0xbb] + ([0xbf] + b));
    SplitAfterByte(0xbf, b);
    SplitAfterByte(0xbb, [0xbf] + b);
    SplitAfterByte(0xef, [0xbb] + ([0xbf] + b));
  }

  lemma SplitAfterByte(b: Byte, rest: Bytes)
    requires b != LF
    ensures Split([b] + rest, LF) == [[b] + Split(rest, LF)[0]] + Split(rest, LF)[1..]
  {
    assert ([b] + rest)[1..] == rest;
  }

  /** The two readers give the same text if and only if the check holds of the file after its
      byte-order mark. */
  lemma ReadersAgreeExactly(bytes: Bytes)
    ensures DecodeWhole(bytes) == DecodeLines(bytes) <==> DecodersAgree(WithoutBom(bytes))
  {
    BomIsInFirstLine(bytes);
    AgreeWithoutBom(WithoutBom(bytes));
  }

  lemma BomIsUtf8(bytes: Bytes)
    requires BOM <= bytes
    ensures IsUtf8(bytes) <==> IsUtf8(bytes[3..])
    ensures !IsAscii(bytes)
  {
    assert bytes[0] == 0xef;
    assert NextChar(bytes) == Char('\U{feff}', 3);
  }

  /** Made on the file itself the check never claims too much; it claims too little exactly when a
      byte-order mark makes an ASCII first line of an otherwise plain, non-UTF-8 file look like
      UTF-8. */
  lemma CheckIsSound(bytes: Bytes)
    ensures DecodersAgree(bytes) ==> DecodeWhole(bytes) == DecodeLines(bytes)
    ensures DecodeWhole(bytes) == DecodeLines(bytes) && !DecodersAgree(bytes) <==>
            && BOM <= bytes && !IsUtf8(bytes)
            && DecodersAgree(bytes[3..]) && IsAscii(Split(bytes[3..], LF)[0])
  {
    ReadersAgreeExactly(bytes);
    if BOM <= bytes {
      BomIsUtf8(bytes);
      if !IsUtf8(bytes) {
        MarkedFirstLine(bytes);
      }
    }
  }

  lemma MarkedFirstLine(bytes: Bytes)
    requires BOM <= bytes && !IsUtf8(bytes)
    ensures DecodersAgree(bytes) <==> DecodersAgree(bytes[3..]) && !IsAscii(Split(bytes[3..], LF)[0])
  {
    var lines, rest := Split(bytes, LF), Split(bytes[3..], LF);
    BomIsUtf8(bytes);
    FirstLineIsMarked(bytes);
    AllPlainUnfolds(lines);
    AllPlainUnfolds(rest);
    MarkedLineIsPlain(lines[0]);
  }

  lemma AllPlainUnfolds(lines: seq<Bytes>)
    requires lines != []
    ensures AllPlain(lines) <==> LineIsPlain(lines[0]) && AllPlain(lines[1..])
  {
    assert forall i | 0 < i < |lines| :: lines[i] == lines[1..][i - 1];
  }

  lemma MarkedLineIsPlain(line: Bytes)
    requires BOM <= line
    ensures LineIsPlain(line) <==> LineIsPlain(line[3..]) && !IsAscii(line[3..])
  {
    BomIsUtf8(line);
    if IsAscii(line[3..]) {
      AsciiIsBoth(line[3..]);
    }
  }

  // ----- What the writer writes is read back -----

  function EncodeText(text: string): Bytes {
    match Encode1252(text)
    case None => EncodeUtf8(text)
    case Some(bytes) =>
      if (forall i | 0 <= i < |text| :: text[i] as int < 0x80) then bytes
      else if IsUtf8(bytes) && DecodeUtf8(bytes).value != text then EncodeUtf8(text)
      else bytes
  }

  predicate StartsWithMark(text: string) {
    text != "" && text[0] == '\U{feff}'
  }

  /** Text in Windows-1252 whose first three bytes are those of a byte-order mark, and whose bytes
      are not UTF-8. */
  predicate LooksMarked(text: string) {
    Encode1252(text).Some? && BOM <= Encode1252(text).value && !IsUtf8(Encode1252(text).value)
  }

  lemma Utf8StartsWithMark(text: string)
    ensures BOM <= EncodeUtf8(text) <==> StartsWithMark(text)
  {
    if text != "" {
      assert EncodeChar('\U{feff}') == BOM;
      if BOM <= EncodeUtf8(text) {
        Utf8ReadsBack(text);
        assert EncodeUtf8(text)[0] == 0xef && EncodeUtf8(text)[1] == 0xbb && EncodeUtf8(text)[2] == 0xbf;
      }
    }
  }

  /** The whole-file reader recovers the writer's text, for every text except one that starts with
      a byte-order mark, or with the three characters that are its bytes in Windows-1252 when the
      output is Windows-1252. */
  lemma WriterIsReadBack(text: string)
    ensures DecodeWhole(EncodeText(text)) == text <==> !StartsWithMark(text) && !LooksMarked(text)
  {
    var bytes := EncodeText(text);
    Utf8ReadsBack(text);
    Utf8StartsWithMark(text);
    if bytes == EncodeUtf8(text) {
      Utf8TextReadsBack(text);
    } else {
      TextIn1252ReadsBack(text);
    }
  }

  lemma Utf8TextReadsBack(text: string)
    requires EncodeText(text) == EncodeUtf8(text)
    ensures DecodeWhole(EncodeText(text)) == text <==> !StartsWithMark(text)
    ensures !LooksMarked(text)
  {
    var bytes := EncodeUtf8(text);
    Utf8ReadsBack(text);
    Utf8StartsWithMark(text);
    if StartsWithMark(text) {
      BomIsUtf8(bytes);
      assert DecodeUtf8(bytes).value == ['\U{feff}'] + DecodeUtf8(bytes[3..]).value;
    }
  }

  lemma TextIn1252ReadsBack(text: string)
    requires EncodeText(text) != EncodeUtf8(text)
    ensures DecodeWhole(EncodeText(text)) == text <==> !LooksMarked(text)
    ensures !StartsWithMark(text)
  {
    var bytes := EncodeText(text);
    NoByteForMark(text);
    assert Decode1252(bytes) == text;
    if IsUtf8(bytes) {
      AsciiReadsBack(text, bytes);
    } else if BOM <= bytes {
      BomIsUtf8(bytes);
    }
  }

  lemma NoByteForMark(text: string)
    requires Encode1252(text).Some?
    ensures !StartsWithMark(text)
  {
  }

  lemma AsciiReadsBack(text: string, bytes: Bytes)
    requires Decode1252(bytes) == text && IsUtf8(bytes)
    requires DecodeUtf8(bytes).value == text || forall i | 0 <= i < |text| :: text[i] as int < 0x80
    ensures DecodeWhole(bytes) == text
  {
    Utf8Shrinks(bytes);
    if DecodeUtf8(bytes).value != text {
      forall i | 0 <= i < |bytes|
        ensures bytes[i] < 0x80
      {
        assert Decode1252(bytes)[i] == text[i];
      }
    }
    AsciiIsBoth(bytes);
    assert bytes != [] ==> bytes[0] != BOM[0];
  }
}
