/**
 The listing `pg_restore --list` prints, and the reader that recovers its entries.
 */
module ArchiveListing {
  import opened Wrappers
  import opened Text

  datatype TocKind = Schema | Table | TableData | Index | Constraint | Trigger | Function | Other(desc: string)

  datatype TocEntry = TocEntry(dumpId: nat, kind: TocKind, schema: Option<string>, name: string, owner: Option<string>)

  datatype DumpToc = DumpToc(created: Option<string>, version: Option<string>, entries: seq<TocEntry>)

  // ----- Reading -----

  function KindOf(desc: string): TocKind {
    if desc == "SCHEMA" then Schema
    else if desc == "TABLE" then Table
    else if desc == "TABLE DATA" then TableData
    else if desc == "INDEX" then Index
    else if desc == "CONSTRAINT" then Constraint
    else if desc == "TRIGGER" then Trigger
    else if desc == "FUNCTION" then Function
    else Other(desc)
  }

  predicate IsUpperWord(s: string) {
    s != "" && forall c | c in s :: 'A' <= c <= 'Z' || c == '_'
  }

  /** How many tokens the description takes. */
  function DescLength(tokens: seq<string>): (n: nat)
    ensures n <= |tokens|
  {
    if tokens == [] || !IsUpperWord(tokens[0]) then 0 else 1 + DescLength(tokens[1..])
  }

  function NameAndOwner(tokens: seq<string>): (string, Option<string>) {
    var n := |tokens|;
    if n == 0 then ("", None)
    else if n == 1 then (tokens[0], None)
    else (Join(tokens[..n - 1], ' '), Some(tokens[n - 1]))
  }

  /** An entry from its number and the tokens after the two catalog ids. */
  function EntryOf(dumpId: nat, tokens: seq<string>): Option<TocEntry> {
    var n := DescLength(tokens);
    if n == 0 || n == |tokens| then None
    else
      var rest := NameAndOwner(tokens[n + 1..]);
      Some(TocEntry(dumpId, KindOf(Join(tokens[..n], ' ')), if tokens[n] == "-" then None else Some(tokens[n]),
                    rest.0, rest.1))
  }

  function ParseBounded(s: string, bound: nat): Option<nat> {
    var n := ParseUnsigned(s);
    if n.Some? && n.value < bound then n else None
  }

  const TWO_TO_32: nat := 0x1_0000_0000
  const TWO_TO_64: nat := 0x1_0000_0000_0000_0000

  function ParseEntry(text: string): Option<TocEntry> {
    var line := Trim(text);
    if line == "" || line[0] == ';' then None
    else
      match SplitOnce(line, ';')
      case None => None
      case Some((id, rest)) =>
        var dumpId := ParseBounded(Trim(id), TWO_TO_32);
        var tokens := Words(rest);
        if dumpId.None? || |tokens| < 2 then None
        else if ParseBounded(tokens[0], TWO_TO_64).None? || ParseBounded(tokens[1], TWO_TO_64).None? then None
        else EntryOf(dumpId.value, tokens[2..])
  }

  const CREATED := "Archive created at"
  const VERSION := "Dumped from database version:"

  /** What one line adds to the table of contents. */
  function ReadLine(toc: DumpToc, line: string): DumpToc {
    var trimmed := Trim(line);
    if trimmed != "" && trimmed[0] == ';' then
      var rest := Trim(trimmed[1..]);
      var created, version := StripPrefix(rest, CREATED), StripPrefix(rest, VERSION);
      if created.Some? then toc.(created := Some(Trim(created.value)))
      else if version.Some? then toc.(version := Some(Trim(version.value)))
      else toc
    else
      match ParseEntry(trimmed)
      case None => toc
      case Some(entry) => toc.(entries := toc.entries + [entry])
  }

  function ReadLines(lines: seq<string>): DumpToc {
    if lines == [] then DumpToc(None, None, []) else ReadLine(ReadLines(lines[..|lines| - 1]), lines[|lines| - 1])
  }

  method ParseToc(listing: string) returns (toc: DumpToc)
    ensures toc == ReadLines(Split(listing, '\n'))
  {
    var lines := Split(listing, '\n');
    toc := DumpToc(None, None, []);
    for i := 0 to |lines|
      invariant toc == ReadLines(lines[..i])
    {
      assert lines[..i + 1][..i] == lines[..i];
      toc := ReadLine(toc, lines[i]);
    }
    assert lines[..|lines|] == lines;
  }

  // ----- Printing -----

  function KindText(kind: TocKind): string {
    match kind
    case Schema => "SCHEMA"
    case Table => "TABLE"
    case TableData => "TABLE DATA"
    case Index => "INDEX"
    case Constraint => "CONSTRAINT"
    case Trigger => "TRIGGER"
    case Function => "FUNCTION"
    case Other(desc) => desc
  }

  function Tokens(e: TocEntry): seq<string> {
    Words(KindText(e.kind)) + [if e.schema.Some? then e.schema.value else "-"] + Words(e.name)
    + if e.owner.Some? then [e.owner.value] else []
  }

  /** An entry as it is listed, with its two catalog ids. */
  function EntryLine(e: TocEntry, tableId: nat, objectId: nat): string {
    Decimal(e.dumpId) + ";" + (" " + Join([Decimal(tableId), Decimal(objectId)] + Tokens(e), ' '))
  }

  /** Words separated by single spaces. */
  predicate IsSpaced(s: string) {
    s == Join(Words(s), ' ')
  }

  ghost predicate AllUpper(words: seq<string>) {
    forall i | 0 <= i < |words| :: IsUpperWord(words[i])
  }

  /** What the listing prints of a kind: upper-case words, read as that kind. */
  ghost predicate IsKind(kind: TocKind) {
    var words := Words(KindText(kind));
    words != [] && AllUpper(words) && IsSpaced(KindText(kind)) && KindOf(KindText(kind)) == kind
  }

  /** Entries the listing can show: an owner after a tag, or at most one word of tag without. */
  ghost predicate IsListable(e: TocEntry) {
    && e.dumpId <= 4294967295 && IsKind(e.kind) && IsSpaced(e.name)
    && (e.schema.Some? ==> IsToken(e.schema.value))
    && if e.owner.Some? then IsToken(e.owner.value) && Words(e.name) != [] else |Words(e.name)| <= 1
  }

  /** A schema that cannot be mistaken for a word of the description or for no schema. */
  predicate IsPlainSchema(schema: Option<string>) {
    schema.Some? ==> schema.value != "-" && !IsUpperWord(schema.value)
  }

  // ----- Reading undoes printing -----

  lemma {:induction false} WordsAreTokens(s: string)
    ensures AllTokens(Words(s))
    decreases |s|
  {
    if s != "" {
      if IsWhiteSpace(s[0]) {
        WordsAreTokens(s[1..]);
      } else {
        WordsAreTokens(s[TokenLength(s)..]);
      }
    }
  }

  lemma TokensAreTokens(e: TocEntry)
    requires IsListable(e)
    ensures AllTokens(Tokens(e))
  {
    var schema := if e.schema.Some? then e.schema.value else "-";
    var owner := if e.owner.Some? then [e.owner.value] else [];
    WordsAreTokens(KindText(e.kind));
    WordsAreTokens(e.name);
    DashIsToken();
    PartsAreTokens(Words(KindText(e.kind)), schema, Words(e.name), owner);
    TokensParts(e);
  }

  lemma DashIsToken()
    ensures IsToken("-")
  {
  }

  lemma PartsAreTokens(desc: seq<string>, schema: string, name: seq<string>, owner: seq<string>)
    requires AllTokens(desc) && IsToken(schema) && AllTokens(name) && AllTokens(owner)
    ensures AllTokens(desc + ([schema] + (name + owner)))
  {
    TokensTogether(name, owner);
    TokensTogether([schema], name + owner);
    TokensTogether(desc, [schema] + (name + owner));
  }

  lemma TokensTogether(a: seq<string>, b: seq<string>)
    requires AllTokens(a) && AllTokens(b)
    ensures AllTokens(a + b)
  {
  }

  lemma DecimalIsToken(n: nat)
    ensures IsToken(Decimal(n)) && ';' !in Decimal(n) && Trim(Decimal(n)) == Decimal(n)
  {
    var s := Decimal(n);
    DecimalReadsBack(n);
    assert !IsDigit(';');
    assert s[0] in s && s[|s| - 1] in s;
    TrimPadded("", s, "");
    assert "" + s + "" == s;
  }

  lemma {:induction false} DescTakesItsWords(words: seq<string>, rest: seq<string>)
    requires AllUpper(words)
    ensures DescLength(words + rest) == |words| + DescLength(rest)
    decreases |words|
  {
    if words != [] {
      assert (words + rest)[1..] == words[1..] + rest;
      DescTakesItsWords(words[1..], rest);
    } else {
      assert words + rest == rest;
    }
  }

  lemma KindTextReadsBack(desc: string)
    ensures KindText(KindOf(desc)) == desc
  {
  }

  lemma NameReadsBack(e: TocEntry)
    requires IsListable(e)
    ensures NameAndOwner(Words(e.name) + if e.owner.Some? then [e.owner.value] else []) == (e.name, e.owner)
  {
    var words := Words(e.name);
    if e.owner.Some? {
      assert (words + [e.owner.value])[..|words|] == words;
    } else {
      assert words + [] == words;
    }
  }

  lemma DescriptionEnds(dumpId: nat, desc: seq<string>, schema: string, last: seq<string>)
    requires desc != [] && AllUpper(desc) && !IsUpperWord(schema)
    ensures var rest := NameAndOwner(last);
            EntryOf(dumpId, desc + ([schema] + last))
            == Some(TocEntry(dumpId, KindOf(Join(desc, ' ')), if schema == "-" then None else Some(schema), rest.0, rest.1))
  {
    var tokens := desc + ([schema] + last);
    DescTakesItsWords(desc, [schema] + last);
    assert tokens[..|desc|] == desc && tokens[|desc|] == schema && tokens[|desc| + 1..] == last;
  }

  lemma TokensParts(e: TocEntry)
    ensures Tokens(e) == Words(KindText(e.kind))
                         + ([if e.schema.Some? then e.schema.value else "-"]
                            + (Words(e.name) + if e.owner.Some? then [e.owner.value] else []))
  {
  }

  /** The tokens of an entry read back as the entry exactly when its schema is plain. */
  lemma TokensReadBack(e: TocEntry)
    requires IsListable(e)
    ensures EntryOf(e.dumpId, Tokens(e)) == Some(e) <==> IsPlainSchema(e.schema)
  {
    var desc := Words(KindText(e.kind));
    var schema := if e.schema.Some? then e.schema.value else "-";
    var last := Words(e.name) + if e.owner.Some? then [e.owner.value] else [];
    TokensParts(e);
    NameReadsBack(e);
    NoSchemaIsPlain();
    if IsUpperWord(schema) {
      LongerDescription(e.dumpId, e.kind, desc, schema, last);
    } else {
      DescriptionEnds(e.dumpId, desc, schema, last);
    }
  }

  lemma NoSchemaIsPlain()
    ensures !IsUpperWord("-")
  {
    assert '-' in "-";
  }

  lemma {:induction false} JoinedLength(words: seq<string>, more: seq<string>)
    requires words != [] && more != []
    ensures |Join(words + more, ' ')| == |Join(words, ' ')| + 1 + |Join(more, ' ')|
    decreases |words|
  {
    assert (words + more)[1..] == words[1..] + more;
    if |words| > 1 {
      JoinedLength(words[1..], more);
    } else {
      assert words[1..] + more == more;
    }
  }

  /** An upper-case schema is read into the description. */
  lemma LongerDescription(dumpId: nat, kind: TocKind, desc: seq<string>, schema: string, last: seq<string>)
    requires desc != [] && AllUpper(desc) && KindText(kind) == Join(desc, ' ') && IsUpperWord(schema)
    ensures EntryOf(dumpId, desc + ([schema] + last)).Some? ==> EntryOf(dumpId, desc + ([schema] + last)).value.kind != kind
  {
    var more := [schema] + last;
    DescTakesItsWords(desc, more);
    EntryKindText(dumpId, desc + more);
    LongerText(desc, more, DescLength(more));
  }

  lemma EntryKindText(dumpId: nat, tokens: seq<string>)
    ensures EntryOf(dumpId, tokens).Some? ==>
              KindText(EntryOf(dumpId, tokens).value.kind) == Join(tokens[..DescLength(tokens)], ' ')
  {
    KindTextReadsBack(Join(tokens[..DescLength(tokens)], ' '));
  }

  lemma LongerText(desc: seq<string>, more: seq<string>, n: nat)
    requires desc != [] && 0 < n <= |more|
    ensures |Join((desc + more)[..|desc| + n], ' ')| > |Join(desc, ' ')|
  {
    assert (desc + more)[..|desc| + n] == desc + more[..n];
    JoinedLength(desc, more[..n]);
  }

  lemma LineParses(dumpId: nat, tableId: nat, objectId: nat, tokens: seq<string>, line: string)
    requires AllTokens(tokens) && dumpId < TWO_TO_32 && tableId < TWO_TO_64 && objectId < TWO_TO_64
    requires line == Decimal(dumpId) + ";" + (" " + Join([Decimal(tableId), Decimal(objectId)] + tokens, ' '))
    requires Trim(line) == line && line != "" && line[0] != ';'
    ensures ParseEntry(line) == EntryOf(dumpId, tokens)
  {
    var words := [Decimal(tableId), Decimal(objectId)] + tokens;
    IdParses(dumpId, TWO_TO_32);
    IdParses(tableId, TWO_TO_64);
    IdParses(objectId, TWO_TO_64);
    SplitOnceAt(Decimal(dumpId), ';', " " + Join(words, ' '));
    SpacedWords(words);
    assert words[2..] == tokens;
  }

  lemma IdParses(id: nat, bound: nat)
    requires id < bound
    ensures IsToken(Decimal(id)) && ';' !in Decimal(id)
    ensures Trim(Decimal(id)) == Decimal(id) && ParseBounded(Decimal(id), bound) == Some(id)
  {
    DecimalIsToken(id);
    DecimalReadsBack(id);
  }

  lemma SpacedWords(words: seq<string>)
    requires AllTokens(words)
    ensures Words(" " + Join(words, ' ')) == words
  {
    WordsOfJoined(words);
    assert (" " + Join(words, ' '))[1..] == Join(words, ' ');
  }

  lemma LineShape(id: string, joined: string)
    requires IsToken(id) && id[0] != ';' && joined != "" && !IsWhiteSpace(joined[|joined| - 1]) && '\n' !in joined
    ensures var line := id + ";" + (" " + joined);
            Trim(line) == line && line != "" && line[0] != ';' && '\n' !in line
  {
    var line := id + ";" + (" " + joined);
    assert line[|line| - 1] == joined[|joined| - 1] && line[0] == id[0] && id[0] in id;
    TrimPadded("", line, "");
    assert "" + line + "" == line;
    assert '\n' !in id;
  }

  lemma LineSplits(e: TocEntry, tableId: nat, objectId: nat)
    requires IsListable(e) && tableId <= 18446744073709551615 && objectId <= 18446744073709551615
    ensures var line := EntryLine(e, tableId, objectId);
            && Trim(line) == line && line != "" && line[0] != ';' && '\n' !in line
            && ParseEntry(line) == EntryOf(e.dumpId, Tokens(e))
  {
    TokensAreTokens(e);
    EntryLineShape(e.dumpId, tableId, objectId, Tokens(e));
    LineParses(e.dumpId, tableId, objectId, Tokens(e), EntryLine(e, tableId, objectId));
  }

  lemma EntryLineShape(dumpId: nat, tableId: nat, objectId: nat, tokens: seq<string>)
    requires AllTokens(tokens)
    ensures var line := Decimal(dumpId) + ";" + (" " + Join([Decimal(tableId), Decimal(objectId)] + tokens, ' '));
            Trim(line) == line && line != "" && line[0] != ';' && '\n' !in line
  {
    DecimalIsToken(dumpId);
    DecimalIsToken(tableId);
    DecimalIsToken(objectId);
    var ids := [Decimal(tableId), Decimal(objectId)];
    TokensTogether(ids, tokens);
    WordsShape(Decimal(dumpId), ids + tokens);
  }

  lemma WordsShape(id: string, words: seq<string>)
    requires IsToken(id) && ';' !in id && AllTokens(words) && words != []
    ensures var line := id + ";" + (" " + Join(words, ' '));
            Trim(line) == line && line != "" && line[0] != ';' && '\n' !in line
  {
    assert id[0] in id;
    JoinedEnds(words);
    NoNewlineInJoined(words);
    LineShape(id, Join(words, ' '));
  }

  lemma {:induction false} JoinedEnds(words: seq<string>)
    requires AllTokens(words) && words != []
    ensures var joined := Join(words, ' '); joined != "" && !IsWhiteSpace(joined[|joined| - 1])
    decreases |words|
  {
    if |words| > 1 {
      JoinedEnds(words[1..]);
    } else {
      assert words[0][|words[0]| - 1] in words[0];
    }
  }

  lemma {:induction false} NoNewlineInJoined(words: seq<string>)
    requires AllTokens(words)
    ensures '\n' !in Join(words, ' ')
    decreases |words|
  {
    if |words| > 0 {
      NoNewlineInJoined(words[1..]);
      assert '\n' !in words[0];
    }
  }

  /** A listed entry is read back if and only if its schema is plain. */
  lemma EntryReadsBack(e: TocEntry, tableId: nat, objectId: nat)
    requires IsListable(e) && tableId <= 18446744073709551615 && objectId <= 18446744073709551615
    ensures ParseEntry(EntryLine(e, tableId, objectId)) == Some(e) <==> IsPlainSchema(e.schema)
  {
    LineSplits(e, tableId, objectId);
    TokensReadBack(e);
  }

  // ----- A whole listing -----

  /** A line of a listing: an entry, or a comment or blank line. */
  datatype Item = Listed(entry: TocEntry, tableId: nat, objectId: nat) | Remark(text: string)

  ghost predicate IsItem(item: Item) {
    match item
    case Listed(e, tableId, objectId) =>
      IsListable(e) && IsPlainSchema(e.schema) && tableId <= 18446744073709551615 && objectId <= 18446744073709551615
    case Remark(text) => '\n' !in text && (Trim(text) == "" || Trim(text)[0] == ';')
  }

  function ItemLine(item: Item): string {
    match item
    case Listed(e, tableId, objectId) => EntryLine(e, tableId, objectId)
    case Remark(text) => text
  }

  function ItemLines(items: seq<Item>): (lines: seq<string>)
    ensures |lines| == |items|
  {
    seq(|items|, i requires 0 <= i < |items| => ItemLine(items[i]))
  }

  function EntriesOf(items: seq<Item>): seq<TocEntry> {
    if items == [] then []
    else EntriesOf(items[..|items| - 1]) + if items[|items| - 1].Listed? then [items[|items| - 1].entry] else []
  }

  lemma {:induction false} LinesReadBack(items: seq<Item>)
    requires forall i | 0 <= i < |items| :: IsItem(items[i])
    ensures ReadLines(ItemLines(items)).entries == EntriesOf(items)
    decreases |items|
  {
    if items != [] {
      var n := |items| - 1;
      LinesReadBack(items[..n]);
      assert ItemLines(items)[..n] == ItemLines(items[..n]);
      var item := items[n];
      if item.Listed? {
        LineSplits(item.entry, item.tableId, item.objectId);
        EntryReadsBack(item.entry, item.tableId, item.objectId);
      }
    }
  }

  /** A listing of entries with comments and blank lines between them, read back, gives the
      entries in order. */
  lemma ListingReadsBack(items: seq<Item>)
    requires items != [] && forall i | 0 <= i < |items| :: IsItem(items[i])
    ensures ReadLines(Split(Join(ItemLines(items), '\n'), '\n')).entries == EntriesOf(items)
  {
    forall i | 0 <= i < |items|
      ensures '\n' !in ItemLines(items)[i]
    {
      if items[i].Listed? {
        LineSplits(items[i].entry, items[i].tableId, items[i].objectId);
      }
    }
    JoinSplits(ItemLines(items), '\n');
    LinesReadBack(items);
  }

  lemma UpperWordIsKind(text: string)
    requires IsUpperWord(text)
    ensures Words(text) == [text] && IsSpaced(text) && IsKind(KindOf(text))
  {
    WordsAfterToken(text, "");
    assert text + "" == text && [text] + [] == [text];
    KindTextReadsBack(text);
  }

  lemma TwoUpperWordsAreKind(first: string, second: string)
    requires IsUpperWord(first) && IsUpperWord(second)
    ensures IsKind(KindOf(first + " " + second))
  {
    var words := [first, second];
    assert words[1..] == [second];
    assert Join(words, ' ') == first + [' '] + second;
    WordsOfJoined(words);
    KindTextReadsBack(first + " " + second);
  }

  lemma NamedKindText(kind: TocKind)
    requires !kind.Other?
    ensures KindOf(KindText(kind)) == kind
    ensures !kind.TableData? ==> IsUpperWord(KindText(kind))
    ensures kind.TableData? ==> KindText(kind) == "TABLE" + " " + "DATA" && IsUpperWord("TABLE") && IsUpperWord("DATA")
  {
  }

  /** Every kind acted on is listed as it is read: no entry of one is lost. */
  lemma NamedKindsAreKinds(kind: TocKind)
    requires !kind.Other?
    ensures IsKind(kind)
  {
    NamedKindText(kind);
    if kind.TableData? {
      TwoUpperWordsAreKind("TABLE", "DATA");
    } else {
      UpperWordIsKind(KindText(kind));
    }
  }

  // ----- The header, and lines that are no entries -----

  /** A header line: a semicolon, spaces, what it is about, spaces, the text. */
  lemma HeaderReadsBack(toc: DumpToc, key: string, text: string, before: string, between: string)
    requires key == "Archive created at" || key == "Dumped from database version:"
    requires text != "" && Trim(text) == text
    requires forall c | c in before + between :: IsWhiteSpace(c)
    ensures var line := ";" + (before + (key + (between + text)));
            ReadLine(toc, line)
            == if key == "Archive created at" then toc.(created := Some(text)) else toc.(version := Some(text))
  {
    var value := between + text;
    KeysAreKeys();
    TrimmedEnds(text);
    CommentTrims(before, key + value);
    ValueTrims(between, text);
    PrefixStrips(key, value);
    if key == VERSION {
      NotStripped(CREATED, key + value);
    }
  }

  lemma KeysAreKeys()
    ensures !IsWhiteSpace(CREATED[0]) && !IsWhiteSpace(VERSION[0]) && CREATED[0] != VERSION[0]
  {
  }

  lemma CommentTrims(before: string, rest: string)
    requires forall c | c in before :: IsWhiteSpace(c)
    requires rest != "" && !IsWhiteSpace(rest[0]) && !IsWhiteSpace(rest[|rest| - 1])
    ensures var line := ";" + (before + rest); Trim(line) == line && Trim(line[1..]) == rest && line[0] == ';'
  {
    var line := ";" + (before + rest);
    assert line[|line| - 1] == rest[|rest| - 1];
    TrimPadded("", line, "");
    assert "" + line + "" == line && line[1..] == before + rest;
    assert before + "" == before;
    TrimPadded(before, rest, "");
    assert before + rest + "" == before + rest;
  }

  lemma ValueTrims(between: string, text: string)
    requires forall c | c in between :: IsWhiteSpace(c)
    requires text != "" && !IsWhiteSpace(text[0]) && !IsWhiteSpace(text[|text| - 1])
    ensures Trim(between + text) == text
  {
    assert between + "" == between;
    TrimPadded(between, text, "");
    assert between + text + "" == between + text;
  }

  lemma PrefixStrips(key: string, value: string)
    ensures StripPrefix(key + value, key) == Some(value)
  {
    assert (key + value)[|key|..] == value;
  }

  lemma NotStripped(key: string, rest: string)
    requires key != "" && rest != "" && key[0] != rest[0]
    ensures StripPrefix(rest, key) == None
  {
  }

  lemma TrimmedEnds(text: string)
    requires text != "" && Trim(text) == text
    ensures !IsWhiteSpace(text[0]) && !IsWhiteSpace(text[|text| - 1])
  {
    TrimStartShortens(text);
    TrimEndShortens(TrimStart(text, IsWhiteSpace));
  }

  lemma {:induction false} TrimStartShortens(s: string)
    ensures |TrimStart(s, IsWhiteSpace)| <= |s|
    ensures s != "" && IsWhiteSpace(s[0]) ==> |TrimStart(s, IsWhiteSpace)| < |s|
    decreases |s|
  {
    if s != "" && IsWhiteSpace(s[0]) {
      TrimStartShortens(s[1..]);
    }
  }

  lemma {:induction false} TrimEndShortens(s: string)
    ensures |TrimEnd(s, IsWhiteSpace)| <= |s|
    ensures s != "" && IsWhiteSpace(s[|s| - 1]) ==> |TrimEnd(s, IsWhiteSpace)| < |s|
    decreases |s|
  {
    if s != "" && IsWhiteSpace(s[|s| - 1]) {
      TrimEndShortens(s[..|s| - 1]);
    }
  }

  /** A number that does not fit thirty-two bits, or a catalog id that does not fit sixty-four, makes a
      line no entry. */
  lemma LargeNumbersAreNoEntry(dumpId: nat, tableId: nat, objectId: nat, tokens: seq<string>)
    requires AllTokens(tokens)
    requires dumpId > 4294967295 || tableId > 18446744073709551615 || objectId > 18446744073709551615
    ensures ParseEntry(Decimal(dumpId) + ";" + (" " + Join([Decimal(tableId), Decimal(objectId)] + tokens, ' '))) == None
  {
    var words := [Decimal(tableId), Decimal(objectId)] + tokens;
    EntryLineShape(dumpId, tableId, objectId, tokens);
    NumberParses(dumpId);
    NumberParses(tableId);
    NumberParses(objectId);
    SplitOnceAt(Decimal(dumpId), ';', " " + Join(words, ' '));
    TokensTogether([Decimal(tableId), Decimal(objectId)], tokens);
    SpacedWords(words);
  }

  lemma NumberParses(n: nat)
    ensures IsToken(Decimal(n)) && ';' !in Decimal(n) && Trim(Decimal(n)) == Decimal(n) && ParseUnsigned(Decimal(n)) == Some(n)
  {
    DecimalIsToken(n);
    DecimalReadsBack(n);
  }

  /** The kinds acted on, by the words the listing has for them. */
  lemma KindsByName(kind: TocKind)
    ensures KindText(kind) == "TABLE" <==> kind == Table || kind == Other("TABLE")
    ensures KindOf("TABLE") == Table && KindOf("TABLE DATA") == TableData && KindOf("INDEX") == Index
    ensures KindOf("SCHEMA") == Schema && KindOf("CONSTRAINT") == Constraint && KindOf("TRIGGER") == Trigger
    ensures KindOf("FUNCTION") == Function
  {
  }

  /** A word of a description has only capitals and underscores, and at least one. */
  lemma UpperWordIs(c: char)
    ensures IsUpperWord([c]) <==> 65 <= c as int <= 90 || c as int == 95
    ensures !IsUpperWord("")
  {
    assert c in [c] && forall d | d in [c] :: d == c;
  }
}
