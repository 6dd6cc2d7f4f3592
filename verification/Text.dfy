/** Strings: white space, splitting and joining, decimal digits. */
module Text {
  import opened Wrappers

  /** The characters Unicode calls white space. */
  predicate IsWhiteSpace(c: char) {
    var code := c as int;
    || 0x09 <= code <= 0x0d || code == 0x20 || code == 0x85 || code == 0xa0 || code == 0x1680
    || 0x2000 <= code <= 0x200a || code == 0x2028 || code == 0x2029 || code == 0x202f
    || code == 0x205f || code == 0x3000
  }

  function TrimStart(s: string, drop: char -> bool): string {
    if s != [] && drop(s[0]) then TrimStart(s[1..], drop) else s
  }

  function TrimEnd(s: string, drop: char -> bool): string {
    if s != [] && drop(s[|s| - 1]) then TrimEnd(s[..|s| - 1], drop) else s
  }

  function Trim(s: string): string {
    TrimEnd(TrimStart(s, IsWhiteSpace), IsWhiteSpace)
  }

  /** What a character predicate strips does not matter to text that has none of it. */
  lemma {:induction false} TrimPadded(before: string, t: string, after: string)
    requires forall c | c in before + after :: IsWhiteSpace(c)
    requires t != [] && !IsWhiteSpace(t[0]) && !IsWhiteSpace(t[|t| - 1])
    ensures Trim(before + t + after) == t
    decreases |before| + |after|
  {
    var s := before + t + after;
    if before != [] {
      assert before[0] in before + after;
      assert s[1..] == before[1..] + t + after;
      TrimPadded(before[1..], t, after);
    } else {
      assert TrimStart(s, IsWhiteSpace) == s;
      if after != [] {
        assert after[|after| - 1] in before + after;
        assert s[..|s| - 1] == before + t + after[..|after| - 1];
        TrimPadded(before, t, after[..|after| - 1]);
        assert TrimStart(s[..|s| - 1], IsWhiteSpace) == s[..|s| - 1];
      } else {
        assert s == t;
      }
    }
  }

  function Split<T(==)>(s: seq<T>, sep: T): (parts: seq<seq<T>>)
    ensures parts != []
  {
    if s == [] then [[]]
    else
      var rest := Split(s[1..], sep);
      if s[0] == sep then [[]] + rest else [[s[0]] + rest[0]] + rest[1..]
  }

  function Join<T>(parts: seq<seq<T>>, sep: T): seq<T> {
    if parts == [] then []
    else if |parts| == 1 then parts[0]
    else parts[0] + [sep] + Join(parts[1..], sep)
  }

  /** One more element before the joined text belongs to the first part. */
  lemma JoinGrows<T>(x: T, first: seq<T>, rest: seq<seq<T>>, sep: T)
    ensures Join([[x] + first] + rest, sep) == [x] + Join([first] + rest, sep)
  {
    if rest == [] {
      assert [[x] + first] + rest == [[x] + first] && [first] + rest == [first];
    } else {
      JoinCons(first, rest, sep);
      JoinCons([x] + first, rest, sep);
      Shift(x, first, [sep] + Join(rest, sep));
      assert first + [sep] + Join(rest, sep) == first + ([sep] + Join(rest, sep));
      assert ([x] + first) + [sep] + Join(rest, sep) == ([x] + first) + ([sep] + Join(rest, sep));
    }
  }

  lemma Shift<T>(x: T, a: seq<T>, b: seq<T>)
    ensures ([x] + a) + b == [x] + (a + b)
  {
  }

  lemma JoinCons<T>(first: seq<T>, rest: seq<seq<T>>, sep: T)
    requires rest != []
    ensures Join([first] + rest, sep) == first + [sep] + Join(rest, sep)
  {
    assert ([first] + rest)[1..] == rest;
  }

  lemma {:induction false} SplitJoins<T>(s: seq<T>, sep: T)
    ensures Join(Split(s, sep), sep) == s
    ensures forall i | 0 <= i < |Split(s, sep)| :: sep !in Split(s, sep)[i]
  {
    if s != [] {
      SplitJoins(s[1..], sep);
      var parts := Split(s[1..], sep);
      if s[0] == sep {
        JoinCons([], parts, sep);
      } else {
        JoinGrows(s[0], parts[0], parts[1..], sep);
        assert parts == [parts[0]] + parts[1..];
      }
      assert s == [s[0]] + s[1..];
    }
  }

  lemma {:induction false} NoSepSplitsToOne<T>(part: seq<T>, sep: T)
    requires sep !in part
    ensures Split(part, sep) == [part]
  {
    if part != [] {
      NoSepSplitsToOne(part[1..], sep);
      assert [part[0]] + part[1..] == part;
    }
  }

  lemma {:induction false} SplitsAtFirst<T>(first: seq<T>, sep: T, rest: seq<T>)
    requires sep !in first
    ensures Split(first + [sep] + rest, sep) == [first] + Split(rest, sep)
  {
    var s := first + [sep] + rest;
    if first == [] {
      assert s[1..] == rest;
    } else {
      assert s[1..] == first[1..] + [sep] + rest;
      SplitsAtFirst(first[1..], sep, rest);
      assert [first[0]] + first[1..] == first;
    }
  }

  /** Joining is undone by splitting, when no part has the separator. */
  lemma {:induction false} JoinSplits<T>(parts: seq<seq<T>>, sep: T)
    requires parts != [] && forall i | 0 <= i < |parts| :: sep !in parts[i]
    ensures Split(Join(parts, sep), sep) == parts
    decreases |parts|
  {
    if |parts| == 1 {
      NoSepSplitsToOne(parts[0], sep);
    } else {
      SplitsAtFirst(parts[0], sep, Join(parts[1..], sep));
      JoinSplits(parts[1..], sep);
    }
  }

  // ----- Splitting once -----

  function StripPrefix(s: string, prefix: string): Option<string> {
    if prefix <= s then Some(s[|prefix|..]) else None
  }

  /** The text before and after the first separator. */
  function SplitOnce(s: string, sep: char): (r: Option<(string, string)>)
    ensures r.Some? ==> s == r.value.0 + [sep] + r.value.1 && sep !in r.value.0
    ensures r.None? ==> sep !in s
  {
    if s == "" then None
    else if s[0] == sep then Some(("", s[1..]))
    else
      match SplitOnce(s[1..], sep)
      case None => None
      case Some((before, after)) => Some(([s[0]] + before, after))
  }

  lemma {:induction false} SplitOnceAt(before: string, sep: char, after: string)
    requires sep !in before
    ensures SplitOnce(before + [sep] + after, sep) == Some((before, after))
  {
    var s := before + [sep] + after;
    if before == "" {
      assert s[1..] == after;
    } else {
      assert s[1..] == before[1..] + [sep] + after;
      SplitOnceAt(before[1..], sep, after);
      assert [before[0]] + before[1..] == before;
    }
  }

  lemma {:induction false} NothingToSplit(s: string, sep: char)
    requires sep !in s
    ensures SplitOnce(s, sep) == None
  {
    if s != "" {
      NothingToSplit(s[1..], sep);
    }
  }

  // ----- Decimal digits -----

  predicate IsDigit(c: char) {
    '0' <= c <= '9'
  }

  predicate AllDigits(s: string) {
    forall c | c in s :: IsDigit(c)
  }

  function DigitChar(n: nat): char
    requires n < 10
  {
    '0' + n as char
  }

  /** The `width` lowest decimal digits of `n`. */
  function Digits(n: nat, width: nat): (s: string)
    ensures |s| == width
  {
    if width == 0 then "" else Digits(n / 10, width - 1) + [DigitChar(n % 10)]
  }

  /** A run of decimal digits read as a number. */
  function ReadDigits(s: string): (n: nat)
    requires AllDigits(s)
  {
    if s == [] then 0
    else
      assert s[|s| - 1] in s;
      ReadDigits(s[..|s| - 1]) * 10 + (s[|s| - 1] as int - '0' as int)
  }

  function Pow10(n: nat): (p: nat)
    ensures p > 0
  {
    if n == 0 then 1 else 10 * Pow10(n - 1)
  }

  lemma {:induction false} DigitsAreDigits(n: nat, width: nat)
    ensures AllDigits(Digits(n, width))
  {
    if width > 0 {
      DigitsAreDigits(n / 10, width - 1);
    }
  }

  lemma {:induction false} DigitsReadBack(n: nat, width: nat)
    requires n < Pow10(width)
    ensures AllDigits(Digits(n, width)) && ReadDigits(Digits(n, width)) == n
  {
    DigitsAreDigits(n, width);
    if width > 0 {
      DigitsReadBack(n / 10, width - 1);
      var s := Digits(n, width);
      assert s[..|s| - 1] == Digits(n / 10, width - 1);
    }
  }

  lemma {:induction false} ReadWritesBack(s: string)
    requires AllDigits(s)
    ensures ReadDigits(s) < Pow10(|s|) && Digits(ReadDigits(s), |s|) == s
  {
    if s != [] {
      ReadWritesBack(s[..|s| - 1]);
      var last := s[|s| - 1] as int - '0' as int;
      assert s[|s| - 1] in s;
      assert ReadDigits(s) / 10 == ReadDigits(s[..|s| - 1]) && ReadDigits(s) % 10 == last;
    }
  }

  // ----- Reading numbers -----

  function ParseDigits(s: string): Option<nat> {
    if s != [] && AllDigits(s) then Some(ReadDigits(s)) else None
  }

  /** An unsigned number may carry a plus sign. */
  function ParseUnsigned(s: string): Option<nat> {
    if s != [] && s[0] == '+' then ParseDigits(s[1..]) else ParseDigits(s)
  }

  function ParseSigned(s: string): Option<int> {
    if s != [] && s[0] == '-' then
      match ParseDigits(s[1..])
      case None => None
      case Some(n) => Some(-(n as int))
    else
      match ParseUnsigned(s)
      case None => None
      case Some(n) => Some(n)
  }

  /** A number in as many digits as it needs. */
  function Decimal(n: nat): (s: string)
    ensures s != ""
  {
    if n < 10 then [DigitChar(n)] else Decimal(n / 10) + [DigitChar(n % 10)]
  }

  lemma {:induction false} DecimalReadsBack(n: nat)
    ensures AllDigits(Decimal(n)) && ReadDigits(Decimal(n)) == n && ParseUnsigned(Decimal(n)) == Some(n)
  {
    var s := Decimal(n);
    if n >= 10 {
      DecimalReadsBack(n / 10);
      assert s[..|s| - 1] == Decimal(n / 10);
    } else {
      assert s[..0] == "" && ReadDigits(s[..0]) == 0;
    }
    assert s[0] in s;
  }

  /** A lower_snake_case name. */
  predicate IsSnakeIdent(s: string) {
    s != "" && forall c | c in s :: 'a' <= c <= 'z' || IsDigit(c) || c == '_'
  }

  // ----- Words -----

  predicate IsToken(s: string) {
    s != "" && forall c | c in s :: !IsWhiteSpace(c)
  }

  /** The length of the leading run of characters that are not white space. */
  function TokenLength(s: string): (n: nat)
    ensures n <= |s|
    ensures forall i | 0 <= i < n :: !IsWhiteSpace(s[i])
    ensures n < |s| ==> IsWhiteSpace(s[n])
  {
    if s == "" || IsWhiteSpace(s[0]) then 0 else 1 + TokenLength(s[1..])
  }

  /** The text between runs of white space. */
  function Words(s: string): seq<string>
    decreases |s|
  {
    if s == "" then []
    else if IsWhiteSpace(s[0]) then Words(s[1..])
    else [s[..TokenLength(s)]] + Words(s[TokenLength(s)..])
  }

  lemma WordsAfterToken(token: string, rest: string)
    requires IsToken(token) && (rest == "" || IsWhiteSpace(rest[0]))
    ensures Words(token + rest) == [token] + Words(rest)
  {
    var s := token + rest;
    assert forall i | 0 <= i < |token| :: s[i] == token[i] && token[i] in token;
    assert rest != "" ==> s[|token|] == rest[0];
    var n := TokenLength(s);
    assert n == |token|;
    assert s[..n] == token && s[n..] == rest;
  }

  ghost predicate AllTokens(words: seq<string>) {
    forall i | 0 <= i < |words| :: IsToken(words[i])
  }

  lemma {:induction false} WordsOfJoined(words: seq<string>)
    requires AllTokens(words)
    ensures Words(Join(words, ' ')) == words
    decreases |words|
  {
    if |words| == 1 {
      WordsAfterToken(words[0], "");
      assert words[0] + "" == words[0] && words == [words[0]] + [];
    } else if |words| > 1 {
      var rest := Join(words[1..], ' ');
      WordsOfJoined(words[1..]);
      WordsAfterToken(words[0], " " + rest);
      assert (" " + rest)[1..] == rest;
      assert words[0] + [' '] + rest == words[0] + (" " + rest);
      assert [words[0]] + words[1..] == words;
    }
  }

  // ----- Which characters are which -----

  /** The digits, in order. */
  lemma DigitsAre(n: nat)
    requires n < 10
    ensures DigitChar(n) == ['0', '1', '2', '3', '4', '5', '6', '7', '8', '9'][n] && Decimal(n) == [DigitChar(n)]
  {
  }

  /** The twenty-five characters with the Unicode property White_Space. */
  lemma WhiteSpaceIs(c: char)
    ensures IsWhiteSpace(c) <==> c as int in {
              9, 10, 11, 12, 13, 32, 133, 160, 5760, 8192, 8193, 8194, 8195, 8196, 8197, 8198, 8199, 8200, 8201, 8202,
              8232, 8233, 8239, 8287, 12288}
  {
  }

  /** A name in snake case has only small letters, digits and underscores, and at least one. */
  lemma SnakeIdentIs(c: char)
    ensures IsSnakeIdent([c]) <==> 97 <= c as int <= 122 || 48 <= c as int <= 57 || c as int == 95
    ensures !IsSnakeIdent("")
  {
    assert c in [c] && forall d | d in [c] :: d == c;
  }
}
