/**
 The text of the `meta` file: what an attempt records of the server's headers is what the next one
 reads.
 */
module MetaFile {
  import opened Wrappers
  import opened Text
  import opened Download

  const BOUND: nat := 0x1_0000_0000_0000_0000

  /** How instants are written (RFC 3339) and read. */
  datatype Clock = Clock(write: int -> string, read: string -> Option<int>)

  /** Reading an instant undoes writing it, which gives text without spaces at its ends. */
  ghost predicate IsClock(clock: Clock) {
    forall t: int :: clock.read(clock.write(t)) == Some(t) && Trim(clock.write(t)) == clock.write(t) && '\n' !in clock.write(t)
  }

  function MetaLines(clock: Clock, m: RemoteDump): seq<string> {
    (if m.size.Some? then ["size=" + Decimal(m.size.value)] else [])
    + (if m.etag.Some? then ["etag=" + m.etag.value] else [])
    + (if m.lastModified.Some? then ["last_modified=" + clock.write(m.lastModified.value)] else [])
  }

  /** Every line ended. */
  function Ended(lines: seq<string>): string {
    if lines == [] then "" else lines[0] + "\n" + Ended(lines[1..])
  }

  function WriteMeta(clock: Clock, m: RemoteDump): string {
    Ended(MetaLines(clock, m))
  }

  function ReadSize(text: string): Option<nat> {
    var n := ParseUnsigned(Trim(text));
    if n.Some? && n.value < BOUND then n else None
  }

  function ReadMetaLine(clock: Clock, m: RemoteDump, line: string): RemoteDump {
    match SplitOnce(line, '=')
    case None => m
    case Some((key, value)) =>
      if key == "size" then m.(size := ReadSize(value))
      else if key == "etag" then m.(etag := Some(Trim(value)))
      else if key == "last_modified" then m.(lastModified := clock.read(Trim(value)))
      else m
  }

  function ReadMetaLines(clock: Clock, m: RemoteDump, lines: seq<string>): RemoteDump
    decreases |lines|
  {
    if lines == [] then m else ReadMetaLines(clock, ReadMetaLine(clock, m, lines[0]), lines[1..])
  }

  method ReadMeta(clock: Clock, text: string) returns (m: RemoteDump)
    ensures m == ReadMetaLines(clock, NOTHING_SAVED, Split(text, '\n'))
  {
    var lines := Split(text, '\n');
    m := NOTHING_SAVED;
    for i := 0 to |lines|
      invariant ReadMetaLines(clock, m, lines[i..]) == ReadMetaLines(clock, NOTHING_SAVED, lines)
    {
      assert lines[i..][1..] == lines[i + 1..];
      m := ReadMetaLine(clock, m, lines[i]);
    }
  }

  lemma {:induction false} EndedSplits(lines: seq<string>)
    requires forall i | 0 <= i < |lines| :: '\n' !in lines[i]
    ensures Split(Ended(lines), '\n') == lines + [""]
  {
    if lines != [] {
      SplitsAtFirst(lines[0], '\n', Ended(lines[1..]));
      EndedSplits(lines[1..]);
      assert [lines[0]] + (lines[1..] + [""]) == lines + [""];
    }
  }

  lemma {:induction false} BlankLineIsIgnored(clock: Clock, m: RemoteDump, lines: seq<string>)
    ensures ReadMetaLines(clock, m, lines + [""]) == ReadMetaLines(clock, m, lines)
    decreases |lines|
  {
    if lines == [] {
      assert ([] + [""])[1..] == [];
    } else {
      assert (lines + [""])[1..] == lines[1..] + [""];
      BlankLineIsIgnored(clock, ReadMetaLine(clock, m, lines[0]), lines[1..]);
    }
  }

  lemma KeysAreDistinct()
    ensures '=' !in "size" && '=' !in "etag" && '=' !in "last_modified"
    ensures "size" != "etag" && "size" != "last_modified" && "etag" != "last_modified"
    ensures '\n' !in "size=" && '\n' !in "etag=" && '\n' !in "last_modified="
  {
  }

  lemma SizeLine(clock: Clock, m: RemoteDump, n: nat)
    requires n < BOUND
    ensures ReadMetaLine(clock, m, "size=" + Decimal(n)) == m.(size := Some(n)) && '\n' !in "size=" + Decimal(n)
  {
    KeysAreDistinct();
    SplitOnceAt("size", '=', Decimal(n));
    assert "size" + ['='] + Decimal(n) == "size=" + Decimal(n);
    DecimalReadsBack(n);
    var s := Decimal(n);
    assert !IsDigit('\n') && s[0] in s && s[|s| - 1] in s;
    TrimPadded("", s, "");
    assert "" + s + "" == s;
  }

  lemma EtagLine(clock: Clock, m: RemoteDump, etag: string)
    ensures ReadMetaLine(clock, m, "etag=" + etag) == m.(etag := Some(Trim(etag)))
    ensures '\n' in "etag=" + etag <==> '\n' in etag
  {
    KeysAreDistinct();
    SplitOnceAt("etag", '=', etag);
    assert "etag" + ['='] + etag == "etag=" + etag;
  }

  lemma DateLine(clock: Clock, m: RemoteDump, t: int)
    requires IsClock(clock)
    ensures ReadMetaLine(clock, m, "last_modified=" + clock.write(t)) == m.(lastModified := Some(t))
    ensures '\n' !in "last_modified=" + clock.write(t)
  {
    KeysAreDistinct();
    SplitOnceAt("last_modified", '=', clock.write(t));
    assert "last_modified" + ['='] + clock.write(t) == "last_modified=" + clock.write(t);
  }

  lemma {:induction false} ReadsInTurn(clock: Clock, m: RemoteDump, a: seq<string>, b: seq<string>)
    ensures ReadMetaLines(clock, m, a + b) == ReadMetaLines(clock, ReadMetaLines(clock, m, a), b)
    decreases |a|
  {
    if a == [] {
      assert a + b == b;
    } else {
      assert (a + b)[1..] == a[1..] + b;
      ReadsInTurn(clock, ReadMetaLine(clock, m, a[0]), a[1..], b);
    }
  }

  lemma ReadsOne(clock: Clock, m: RemoteDump, line: string)
    ensures ReadMetaLines(clock, m, [line]) == ReadMetaLine(clock, m, line)
  {
    assert [line][1..] == [];
  }

  /** The lines written, read one by one, give everything back, the tag without outer spaces. */
  lemma LinesReadBack(clock: Clock, m: RemoteDump)
    requires IsClock(clock) && (m.size.Some? ==> m.size.value < BOUND)
    ensures ReadMetaLines(clock, NOTHING_SAVED, MetaLines(clock, m))
            == m.(etag := if m.etag.Some? then Some(Trim(m.etag.value)) else None)
  {
    var size := if m.size.Some? then ["size=" + Decimal(m.size.value)] else [];
    var etag := if m.etag.Some? then ["etag=" + m.etag.value] else [];
    var date := if m.lastModified.Some? then ["last_modified=" + clock.write(m.lastModified.value)] else [];
    var afterSize := NOTHING_SAVED.(size := m.size);
    var afterTag := afterSize.(etag := if m.etag.Some? then Some(Trim(m.etag.value)) else None);
    ReadsInTurn(clock, NOTHING_SAVED, size + etag, date);
    ReadsInTurn(clock, NOTHING_SAVED, size, etag);
    if m.size.Some? {
      SizeLine(clock, NOTHING_SAVED, m.size.value);
      ReadsOne(clock, NOTHING_SAVED, size[0]);
    }
    if m.etag.Some? {
      EtagLine(clock, afterSize, m.etag.value);
      ReadsOne(clock, afterSize, etag[0]);
    }
    if m.lastModified.Some? {
      DateLine(clock, afterTag, m.lastModified.value);
      ReadsOne(clock, afterTag, date[0]);
    }
  }

  lemma NoNewlineInLines(clock: Clock, m: RemoteDump)
    requires IsClock(clock) && (m.size.Some? ==> m.size.value < BOUND) && (m.etag.Some? ==> '\n' !in m.etag.value)
    ensures forall i | 0 <= i < |MetaLines(clock, m)| :: '\n' !in MetaLines(clock, m)[i]
  {
    if m.size.Some? {
      SizeLine(clock, NOTHING_SAVED, m.size.value);
    }
    if m.etag.Some? {
      EtagLine(clock, NOTHING_SAVED, m.etag.value);
    }
    if m.lastModified.Some? {
      DateLine(clock, NOTHING_SAVED, m.lastModified.value);
    }
  }

  /** Text a tag can be read back from: on one line, without spaces at its ends. */
  predicate IsPlainTag(etag: string) {
    '\n' !in etag && Trim(etag) == etag
  }

  predicate TagHasNewline(etag: Option<string>) {
    etag.Some? && '\n' in etag.value
  }

  lemma {:induction false} TagsAreOneLine(clock: Clock, m: RemoteDump, lines: seq<string>)
    requires !TagHasNewline(m.etag) && forall i | 0 <= i < |lines| :: '\n' !in lines[i]
    ensures !TagHasNewline(ReadMetaLines(clock, m, lines).etag)
    decreases |lines|
  {
    if lines != [] {
      TagStaysOneLine(clock, m, lines[0]);
      TagsAreOneLine(clock, ReadMetaLine(clock, m, lines[0]), lines[1..]);
    }
  }

  lemma TagStaysOneLine(clock: Clock, m: RemoteDump, line: string)
    requires !TagHasNewline(m.etag) && '\n' !in line
    ensures !TagHasNewline(ReadMetaLine(clock, m, line).etag)
  {
    var split := SplitOnce(line, '=');
    if split.Some? {
      var value := split.value.1;
      assert forall c | c in value :: c in line;
      TrimStartKeeps(value, IsWhiteSpace);
      TrimEndKeeps(TrimStart(value, IsWhiteSpace), IsWhiteSpace);
    }
  }

  lemma {:induction false} TrimStartKeeps(s: string, drop: char -> bool)
    ensures forall c | c in TrimStart(s, drop) :: c in s
  {
    if s != "" && drop(s[0]) {
      TrimStartKeeps(s[1..], drop);
    }
  }

  lemma {:induction false} TrimEndKeeps(s: string, drop: char -> bool)
    ensures forall c | c in TrimEnd(s, drop) :: c in s
  {
    if s != "" && drop(s[|s| - 1]) {
      TrimEndKeeps(s[..|s| - 1], drop);
    }
  }

  /** The largest size that is read. */
  const LARGEST: nat := 18446744073709551615

  predicate SizeFits(size: Option<nat>) {
    size.Some? ==> size.value <= LARGEST
  }

  lemma {:induction false} SizesAreBounded(clock: Clock, m: RemoteDump, lines: seq<string>)
    requires SizeFits(m.size)
    ensures SizeFits(ReadMetaLines(clock, m, lines).size)
    decreases |lines|
  {
    if lines != [] {
      SizesAreBounded(clock, ReadMetaLine(clock, m, lines[0]), lines[1..]);
    }
  }

  /** What was recorded is what is read, if and only if the size, when there is one, fits sixty-four
      bits, and the entity tag, when there is one, is on one line without spaces at its ends. */
  lemma MetaReadsBackExactly(clock: Clock, m: RemoteDump)
    requires IsClock(clock)
    ensures ReadMetaLines(clock, NOTHING_SAVED, Split(WriteMeta(clock, m), '\n')) == m
            <==> (m.size.Some? ==> m.size.value <= 18446744073709551615) && (m.etag.Some? ==> IsPlainTag(m.etag.value))
  {
    var lines := MetaLines(clock, m);
    SizesAreBounded(clock, NOTHING_SAVED, Split(WriteMeta(clock, m), '\n'));
    if TagHasNewline(m.etag) {
      SplitJoins(WriteMeta(clock, m), '\n');
      TagsAreOneLine(clock, NOTHING_SAVED, Split(WriteMeta(clock, m), '\n'));
    } else if SizeFits(m.size) {
      NoNewlineInLines(clock, m);
      EndedSplits(lines);
      BlankLineIsIgnored(clock, NOTHING_SAVED, lines);
      LinesReadBack(clock, m);
    }
  }

  /** White space around a value does not matter, whatever it is a value of. */
  lemma PaddedValueIsRead(clock: Clock, m: RemoteDump, key: string, before: string, value: string, after: string)
    requires '=' !in key && value != "" && Trim(value) == value
    requires !IsWhiteSpace(value[0]) && !IsWhiteSpace(value[|value| - 1])
    requires forall c | c in before + after :: IsWhiteSpace(c)
    ensures ReadMetaLine(clock, m, key + ['='] + (before + value + after)) == ReadMetaLine(clock, m, key + ['='] + value)
  {
    SplitOnceAt(key, '=', before + value + after);
    SplitOnceAt(key, '=', value);
    TrimPadded(before, value, after);
  }
}
