/**
 The watcher's list of filing ids it has seen: a text file with one id a line, only ever appended
 to.
 */
module SeenList {
  import opened Wrappers
  import opened Text

  const BOUND: nat := 0x1_0000_0000_0000_0000

  type Id = n: nat | n < BOUND

  /** A line that is no number is ignored. */
  function IdOf(line: string): Option<nat> {
    var n := ParseUnsigned(Trim(line));
    if n.Some? && n.value < BOUND then n else None
  }

  function IdsIn(lines: seq<string>): set<nat> {
    if lines == [] then {}
    else (if IdOf(lines[0]).Some? then {IdOf(lines[0]).value} else {}) + IdsIn(lines[1..])
  }

  function ReadSeen(text: string): set<nat> {
    IdsIn(Split(text, '\n'))
  }

  /** What appending ids writes. */
  function IdLines(ids: seq<Id>): string {
    if ids == [] then "" else Decimal(ids[0]) + "\n" + IdLines(ids[1..])
  }

  function IdSet(ids: seq<Id>): set<nat> {
    set i | 0 <= i < |ids| :: ids[i]
  }

  /** Every line is ended. */
  predicate IsEnded(text: string) {
    text == "" || text[|text| - 1] == '\n'
  }

  lemma {:induction false} IdsInBoth(a: seq<string>, b: seq<string>)
    ensures IdsIn(a + b) == IdsIn(a) + IdsIn(b)
  {
    if a == [] {
      assert a + b == b;
    } else {
      assert (a + b)[1..] == a[1..] + b;
      IdsInBoth(a[1..], b);
    }
  }

  lemma SplitStarts(c: char, t: string)
    ensures Split([c] + t, '\n')
            == if c == '\n' then [""] + Split(t, '\n') else [[c] + Split(t, '\n')[0]] + Split(t, '\n')[1..]
  {
    assert ([c] + t)[1..] == t;
  }

  lemma {:induction false} SplitsAtNewline(a: string, b: string)
    ensures Split(a + "\n" + b, '\n') == Split(a, '\n') + Split(b, '\n')
  {
    if a == "" {
      NewlineFirst(b);
    } else {
      SplitsAtNewline(a[1..], b);
      OneMoreChar(a, b);
    }
  }

  lemma NewlineFirst(b: string)
    ensures Split("" + "\n" + b, '\n') == Split("", '\n') + Split(b, '\n')
  {
    SplitStarts('\n', b);
    assert "" + "\n" + b == ['\n'] + b;
  }

  lemma OneMoreChar(a: string, b: string)
    requires a != "" && Split(a[1..] + "\n" + b, '\n') == Split(a[1..], '\n') + Split(b, '\n')
    ensures Split(a + "\n" + b, '\n') == Split(a, '\n') + Split(b, '\n')
  {
    var c, t := a[0], a[1..];
    SplitStarts(c, t);
    SplitStarts(c, t + "\n" + b);
    MoreLines(c, Split(t, '\n'), Split(b, '\n'));
    assert a == [c] + t && a + "\n" + b == [c] + (t + "\n" + b);
  }

  lemma MoreLines(c: char, x: seq<string>, y: seq<string>)
    requires x != []
    ensures [""] + (x + y) == ([""] + x) + y
    ensures [[c] + (x + y)[0]] + (x + y)[1..] == ([[c] + x[0]] + x[1..]) + y
  {
  }

  /** What follows an ended text is read on its own. */
  lemma EndedReadsApart(text: string, more: string)
    requires IsEnded(text)
    ensures ReadSeen(text + more) == ReadSeen(text) + ReadSeen(more)
  {
    if text == "" {
      assert text + more == more;
    } else {
      var a := text[..|text| - 1];
      assert text == a + "\n" + "" && text + more == a + "\n" + more;
      SplitsAtNewline(a, "");
      SplitsAtNewline(a, more);
      IdsInBoth(Split(a, '\n'), Split("", '\n'));
      IdsInBoth(Split(a, '\n'), Split(more, '\n'));
      BlankIsNoId();
    }
  }

  lemma BlankIsNoId()
    ensures IdsIn(Split("", '\n')) == {}
  {
    assert Split("", '\n') == [""];
    assert [""][1..] == [];
  }

  lemma IdReadsBack(id: Id)
    ensures '\n' !in Decimal(id) && IdOf(Decimal(id)) == Some(id)
  {
    var s := Decimal(id);
    DecimalReadsBack(id);
    assert !IsDigit('\n');
    assert s[0] in s && s[|s| - 1] in s;
    TrimPadded("", s, "");
    assert "" + s + "" == s;
  }

  lemma {:induction false} LinesReadBack(ids: seq<Id>)
    ensures IsEnded(IdLines(ids)) && ReadSeen(IdLines(ids)) == IdSet(ids)
  {
    if ids == [] {
      BlankIsNoId();
    } else {
      LinesReadBack(ids[1..]);
      IdReadsBack(ids[0]);
      SplitsAtFirst(Decimal(ids[0]), '\n', IdLines(ids[1..]));
      var rest := Split(IdLines(ids[1..]), '\n');
      assert ([Decimal(ids[0])] + rest)[1..] == rest;
      assert IdSet(ids) == {ids[0] as nat} + IdSet(ids[1..]);
    }
  }

  /** After an append the list has its ids besides those it had. */
  lemma AppendAdds(text: string, ids: seq<Id>)
    requires IsEnded(text)
    ensures IsEnded(text + IdLines(ids)) && ReadSeen(text + IdLines(ids)) == ReadSeen(text) + IdSet(ids)
  {
    LinesReadBack(ids);
    EndedReadsApart(text, IdLines(ids));
  }

  // ----- An append cut short -----

  lemma {:induction false} NumberGrows(a: string, b: string)
    requires AllDigits(a) && AllDigits(b)
    ensures AllDigits(a + b) && ReadDigits(a + b) >= ReadDigits(b)
    ensures ReadDigits(a) > 0 ==> ReadDigits(a + b) > ReadDigits(b)
    decreases |b|
  {
    if b == "" {
      assert a + b == a;
    } else {
      assert b[|b| - 1] in b;
      assert (a + b)[..|a + b| - 1] == a + b[..|b| - 1];
      NumberGrows(a, b[..|b| - 1]);
    }
  }

  lemma DigitsAreOneLine(line: string)
    requires line != "" && AllDigits(line)
    ensures '\n' !in line && IdOf(line) == if ReadDigits(line) < BOUND then Some(ReadDigits(line)) else None
  {
    assert !IsDigit('\n');
    assert line[0] in line && line[|line| - 1] in line;
    TrimPadded("", line, "");
    assert "" + line + "" == line;
  }

  /** A number on a line of its own, ended or not. */
  lemma NumberReads(line: string)
    requires line != "" && AllDigits(line)
    ensures ReadSeen(line) == ReadSeen(line + "\n") == if ReadDigits(line) < BOUND then {ReadDigits(line)} else {}
  {
    DigitsAreOneLine(line);
    NoSepSplitsToOne(line, '\n');
    SplitsAtFirst(line, '\n', "");
    assert line + "\n" == line + "\n" + "";
    assert [line][1..] == [] && [line, ""][1..] == [""];
    BlankIsNoId();
  }

  /** The digits of an id whose newline was never written run into the next id appended: that id
      is then not on the list, unless it was already. */
  lemma CutIdSwallowsNext(text: string, cut: string, next: Id)
    requires IsEnded(text) && cut != "" && AllDigits(cut) && ReadDigits(cut) > 0 && next !in ReadSeen(text)
    ensures next !in ReadSeen(text + (cut + IdLines([next])))
  {
    var line := cut + Decimal(next);
    DecimalReadsBack(next);
    NumberGrows(cut, Decimal(next));
    assert IdLines([next]) == Decimal(next) + "\n" + IdLines([next][1..]);
    assert cut + IdLines([next]) == line + "\n";
    EndedReadsApart(text, line + "\n");
    NumberReads(line);
  }

  /** And until then the list holds the number the digits written happen to make. */
  lemma CutIdIsListed(text: string, cut: string)
    requires IsEnded(text) && cut != "" && AllDigits(cut) && ReadDigits(cut) < BOUND
    ensures ReadSeen(text + cut) == ReadSeen(text) + {ReadDigits(cut)}
  {
    EndedReadsApart(text, cut);
    NumberReads(cut);
  }

  /** None of the ids is on the list, and none is given twice. */
  predicate AreNew(ids: seq<Id>, seen: set<nat>) {
    && (forall i | 0 <= i < |ids| :: ids[i] !in seen)
    && (forall i, j | 0 <= i < j < |ids| :: ids[i] != ids[j])
  }

  lemma GlueText(text: string, tail: string, ids: seq<Id>)
    requires ids != []
    ensures text + tail + IdLines(ids) == (text + ((tail + Decimal(ids[0])) + "\n")) + IdLines(ids[1..])
  {
    assert IdLines(ids) == Decimal(ids[0]) + "\n" + IdLines(ids[1..]);
  }

  lemma LineReads(text: string, line: string)
    requires IsEnded(text) && AllDigits(line) && line != ""
    ensures ReadSeen(text + line) == ReadSeen(text + (line + "\n")) == ReadSeen(text) + Listed(ReadDigits(line))
    ensures IsEnded(text + (line + "\n"))
  {
    NumberReads(line);
    EndedReadsApart(text, line);
    EndedReadsApart(text, line + "\n");
  }

  lemma TailReads(text: string, tail: string, ids: seq<Id>)
    requires IsEnded(text) && AllDigits(tail) && tail != "" && ids != []
    ensures var line := tail + Decimal(ids[0]);
            && AllDigits(line)
            && ReadSeen(text + tail) == ReadSeen(text) + Listed(ReadDigits(tail))
            && ReadSeen(text + tail + IdLines(ids)) == ReadSeen(text) + Listed(ReadDigits(line)) + IdSet(ids[1..])
  {
    var line := tail + Decimal(ids[0]);
    DecimalReadsBack(ids[0]);
    NumberGrows(tail, Decimal(ids[0]));
    LineReads(text, tail);
    LineReads(text, line);
    AppendAdds(text + (line + "\n"), ids[1..]);
    GlueText(text, tail, ids);
  }

  /** A number too large is no id. */
  function Listed(n: nat): set<nat> {
    if n < BOUND then {n} else {}
  }

  /** Appending new ids to a list that ends in digits adds them, and keeps what was read, if and only
      if there are no such digits: the last line is ended. (Zeros do no harm when 0 is listed.) */
  lemma AppendAddsExactly(text: string, tail: string, ids: seq<Id>)
    requires IsEnded(text) && AllDigits(tail) && ids != [] && AreNew(ids, ReadSeen(text + tail))
    ensures ReadSeen(text + tail + IdLines(ids)) == ReadSeen(text + tail) + IdSet(ids)
            <==> tail == "" || (ReadDigits(tail) == 0 && 0 in ReadSeen(text))
  {
    if tail == "" {
      assert text + tail == text;
      AppendAdds(text, ids);
    } else {
      TailReads(text, tail, ids);
      FirstId(ids);
      var first: nat := ids[0];
      DecimalReadsBack(first);
      NumberGrows(tail, Decimal(first));
      var glued := ReadDigits(tail + Decimal(first));
      if ReadDigits(tail) == 0 {
        ZerosLeadNowhere(tail, Decimal(first));
        ZeroIsNew(ids, ReadSeen(text + tail));
        assert Listed(0) == {0} && Listed(glued) == {first};
      } else {
        assert first !in ReadSeen(text) + Listed(glued) + IdSet(ids[1..]);
      }
    }
  }

  lemma FirstId(ids: seq<Id>)
    requires ids != [] && forall i, j | 0 <= i < j < |ids| :: ids[i] != ids[j]
    ensures IdSet(ids) == {ids[0] as nat} + IdSet(ids[1..]) && ids[0] !in IdSet(ids[1..])
  {
  }

  lemma ZeroIsNew(ids: seq<Id>, seen: set<nat>)
    requires 0 in seen && AreNew(ids, seen)
    ensures 0 !in IdSet(ids)
  {
  }

  lemma {:induction false} ZerosLeadNowhere(a: string, b: string)
    requires AllDigits(a) && AllDigits(b) && ReadDigits(a) == 0
    ensures AllDigits(a + b) && ReadDigits(a + b) == ReadDigits(b)
    decreases |b|
  {
    if b == "" {
      assert a + b == a;
    } else {
      assert b[|b| - 1] in b;
      assert (a + b)[..|a + b| - 1] == a + b[..|b| - 1];
      ZerosLeadNowhere(a, b[..|b| - 1]);
    }
  }

  // ----- What a cut leaves -----

  /** The ids whose lines fit in what was written. */
  function WholeIds(ids: seq<Id>, written: nat): seq<Id> {
    if ids == [] || |Decimal(ids[0])| + 1 > written then []
    else [ids[0]] + WholeIds(ids[1..], written - |Decimal(ids[0])| - 1)
  }

  /** What was written of the line cut: digits, or nothing when the cut fell between lines. */
  function CutTail(ids: seq<Id>, written: nat): string {
    if ids == [] then ""
    else
      var line := Decimal(ids[0]);
      if |line| + 1 <= written then CutTail(ids[1..], written - |line| - 1)
      else line[..written]
  }

  /** What an append writes before it is cut short. */
  function CutText(ids: seq<Id>, written: nat): string {
    IdLines(WholeIds(ids, written)) + CutTail(ids, written)
  }

  /** That is the first `written` characters. */
  lemma {:induction false} CutTextIsPrefix(ids: seq<Id>, written: nat)
    ensures CutText(ids, written) == Beginning(IdLines(ids), written)
  {
    if ids == [] {
      assert CutText(ids, written) == "";
    } else if |Decimal(ids[0])| < written {
      var line := FirstLine(ids, written);
      CutTextIsPrefix(ids[1..], written - |line|);
      FirstWhole(line, IdLines(ids[1..]), CutText(ids[1..], written - |line|), IdLines(ids), CutText(ids, written), written);
    } else {
      CutInFirst(ids, written);
    }
  }

  lemma CutInFirst(ids: seq<Id>, written: nat)
    requires ids != [] && written <= |Decimal(ids[0])|
    ensures CutText(ids, written) == Beginning(IdLines(ids), written)
  {
    LinesStart(ids);
    PrefixOfFirst(Decimal(ids[0]), IdLines(ids[1..]), written);
    assert WholeIds(ids, written) == [];
  }

  lemma LinesStart(ids: seq<Id>)
    requires ids != []
    ensures IdLines(ids) == Decimal(ids[0]) + "\n" + IdLines(ids[1..])
  {
  }

  function Beginning(s: string, n: nat): string {
    if n <= |s| then s[..n] else s
  }

  lemma {:induction false} CutTailIsDigits(ids: seq<Id>, written: nat)
    ensures AllDigits(CutTail(ids, written))
  {
    if ids != [] {
      var line := Decimal(ids[0]);
      DecimalReadsBack(ids[0]);
      if |line| + 1 <= written {
        CutTailIsDigits(ids[1..], written - |line| - 1);
      }
    }
  }

  lemma PrefixOfFirst(line: string, rest: string, n: nat)
    requires n <= |line|
    ensures Beginning(line + "\n" + rest, n) == line[..n]
  {
  }

  lemma FirstLine(ids: seq<Id>, written: nat) returns (line: string)
    requires ids != [] && |Decimal(ids[0])| < written
    ensures 0 < |line| <= written
    ensures IdLines(ids) == line + IdLines(ids[1..])
    ensures CutText(ids, written) == line + CutText(ids[1..], written - |line|)
  {
    line := Decimal(ids[0]) + "\n";
    var whole := WholeIds(ids[1..], written - |line|);
    assert ([ids[0]] + whole)[1..] == whole;
  }

  lemma FirstWhole(line: string, rest: string, cutRest: string, lines: string, cut: string, n: nat)
    requires lines == line + rest && cut == line + cutRest
    requires |line| <= n && cutRest == Beginning(rest, n - |line|)
    ensures cut == Beginning(lines, n)
  {
  }

  lemma {:induction false} DecimalStarts(n: nat)
    requires n > 0
    ensures Decimal(n)[0] != '0'
  {
    if n >= 10 {
      DecimalStarts(n / 10);
    }
  }

  lemma {:induction false} NoLeadingZero(s: string)
    requires s != "" && AllDigits(s) && s[0] != '0'
    ensures ReadDigits(s) > 0
  {
    assert s[|s| - 1] in s;
    if |s| > 1 {
      NoLeadingZero(s[..|s| - 1]);
    } else {
      assert s[..0] == "" && s[0] in s;
    }
  }

  lemma {:induction false} CutTailIsPositive(ids: seq<Id>, written: nat)
    requires CutTail(ids, written) != "" && 0 !in IdSet(ids)
    ensures AllDigits(CutTail(ids, written)) && ReadDigits(CutTail(ids, written)) > 0
  {
    var line := Decimal(ids[0]);
    DecimalReadsBack(ids[0]);
    assert ids[0] != 0;
    DecimalStarts(ids[0]);
    if |line| + 1 <= written {
      assert IdSet(ids[1..]) <= IdSet(ids);
      CutTailIsPositive(ids[1..], written - |line| - 1);
    } else {
      NoLeadingZero(line[..written]);
    }
  }

  /** The first id appended after the digits of another is not on the list. */
  lemma FirstIsSwallowed(text: string, tail: string, ids: seq<Id>)
    requires IsEnded(text) && AllDigits(tail) && tail != "" && ReadDigits(tail) > 0
    requires ids != [] && AreNew(ids, ReadSeen(text + tail))
    ensures ids[0] !in ReadSeen(text + tail + IdLines(ids))
  {
    TailReads(text, tail, ids);
    FirstId(ids);
    DecimalReadsBack(ids[0]);
    NumberGrows(tail, Decimal(ids[0]));
  }

  /** New ids of a feed appended after a tail of digits. */
  lemma AppendAfterTail(text: string, tail: string, ids: seq<Id>, feed: set<nat>)
    requires IsEnded(text) && AllDigits(tail) && (tail != "" ==> ReadDigits(tail) > 0)
    requires ids != [] && AreNew(ids, ReadSeen(text + tail)) && IdSet(ids) == feed - ReadSeen(text + tail)
    ensures ReadSeen(text + tail + IdLines(ids)) == ReadSeen(text) + feed <==> tail == ""
    ensures ids[0] in feed && ids[0] !in ReadSeen(text + tail)
    ensures tail != "" ==> ids[0] !in ReadSeen(text + tail + IdLines(ids))
  {
    assert ids[0] in IdSet(ids);
    if tail == "" {
      assert text + tail == text;
      AppendAdds(text, ids);
    } else {
      FirstIsSwallowed(text, tail, ids);
    }
  }

  /** A number that does not fit sixty-four bits is no id. */
  lemma LargeIdsAreIgnored(n: nat)
    ensures IdOf(Decimal(n)) == if n <= 18446744073709551615 then Some(n) else None
  {
    var s := Decimal(n);
    DecimalReadsBack(n);
    assert s[0] in s && s[|s| - 1] in s;
    TrimPadded("", s, "");
    assert "" + s + "" == s;
  }

  /** White space around an id does not matter. */
  lemma PaddedIdIsRead(id: Id, before: string, after: string)
    requires forall c | c in before + after :: IsWhiteSpace(c)
    ensures IdOf(before + Decimal(id) + after) == Some(id)
  {
    var s := Decimal(id);
    DecimalReadsBack(id);
    assert s[0] in s && s[|s| - 1] in s;
    TrimPadded(before, s, after);
  }
}
