/**
 Passwords in connection URLs: taking one out, hiding one, and decoding one.
 */
module Urls {
  import opened Wrappers
  import opened Text
  import opened Encoding

  /** A URL with a password: what precedes `://`, the user, the password, and the rest from `@` on. */
  datatype Parts = Parts(scheme: string, user: string, password: string, tail: string)

  // ----- Finding the password -----

  /** The text before and after the first `://`. */
  function SplitScheme(url: string): Option<(string, string)> {
    if |url| < 3 then None
    else if url[0] == ':' && url[1] == '/' && url[2] == '/' then Some(("", url[3..]))
    else
      match SplitScheme(url[1..])
      case None => None
      case Some((scheme, rest)) => Some(([url[0]] + scheme, rest))
  }

  predicate EndsAuthority(c: char) {
    c == '/' || c == '?' || c == '#'
  }

  function AuthorityEnd(rest: string): (n: nat)
    ensures n <= |rest|
    ensures forall i | 0 <= i < n :: !EndsAuthority(rest[i])
    ensures n < |rest| ==> EndsAuthority(rest[n])
  {
    if rest == "" || EndsAuthority(rest[0]) then 0 else 1 + AuthorityEnd(rest[1..])
  }

  function LastAt(s: string): (r: Option<nat>)
    ensures r.Some? ==> r.value < |s| && s[r.value] == '@' && forall i | r.value < i < |s| :: s[i] != '@'
    ensures r.None? ==> '@' !in s
  {
    if s == "" then None
    else if s[|s| - 1] == '@' then Some(|s| - 1)
    else LastAt(s[..|s| - 1])
  }

  function FindPassword(url: string): Option<Parts> {
    match SplitScheme(url)
    case None => None
    case Some((scheme, rest)) =>
      match LastAt(rest[..AuthorityEnd(rest)])
      case None => None
      case Some(at) =>
        match SplitOnce(rest[..at], ':')
        case None => None
        case Some((user, password)) => Some(Parts(scheme, user, password, rest[at..]))
  }

  /** What to put for bytes that are not UTF-8. */
  type Lossy = Bytes -> string

  function StripPassword(lossy: Lossy, url: string): (string, Option<string>) {
    match FindPassword(url)
    case None => (url, None)
    case Some(p) =>
      var password := PercentDecode(lossy, p.password);
      (p.scheme + "://" + p.user + p.tail, if password == "" then None else Some(password))
  }

  const STARS := "***"

  function RedactUrl(url: string): string {
    match FindPassword(url)
    case None => url
    case Some(p) => p.scheme + "://" + p.user + ":" + STARS + p.tail
  }

  // ----- Which URLs have a password -----

  function UrlOf(p: Parts): string {
    p.scheme + "://" + (p.user + ":" + p.password + p.tail)
  }

  predicate InAuthority(s: string) {
    forall i | 0 <= i < |s| :: !EndsAuthority(s[i])
  }

  /** The rest of a URL from the `@` before its host. */
  predicate IsTail(tail: string) {
    && tail != "" && tail[0] == '@'
    && var n := AuthorityEnd(tail); forall i | 0 < i < n :: tail[i] != '@'
  }

  /** No `://` before the one that ends the scheme. */
  predicate IsScheme(scheme: string) {
    SplitScheme(scheme + "://") == Some((scheme, ""))
  }

  predicate IsUserInfo(user: string, password: string, tail: string) {
    ':' !in user && InAuthority(user) && InAuthority(password) && IsTail(tail)
  }

  lemma {:induction false} SchemeSplits(scheme: string, rest: string)
    requires IsScheme(scheme)
    ensures SplitScheme(scheme + "://" + rest) == Some((scheme, rest))
    decreases |scheme|
  {
    var s := scheme + "://" + rest;
    if scheme == "" {
      assert s[3..] == rest;
    } else {
      var t := scheme + "://";
      assert t[1..] == scheme[1..] + "://" && s[1..] == scheme[1..] + "://" + rest;
      var later := SplitScheme(t[1..]).value;
      assert s[0] == t[0] && s[1] == t[1] && s[2] == t[2];
      assert scheme == [scheme[0]] + later.0;
      assert later.0 == scheme[1..];
      SchemeSplits(scheme[1..], rest);
    }
  }

  lemma {:induction false} SplitSchemeIs(url: string)
    requires SplitScheme(url).Some?
    ensures var (scheme, rest) := SplitScheme(url).value; url == scheme + "://" + rest && IsScheme(scheme)
  {
    var (scheme, rest) := SplitScheme(url).value;
    if url[0] == ':' && url[1] == '/' && url[2] == '/' {
      assert url == "://" + rest;
      assert scheme + "://" == "://" && "://"[3..] == "";
    } else {
      SplitSchemeIs(url[1..]);
      var later := SplitScheme(url[1..]).value.0;
      assert url == [url[0]] + url[1..];
      var t := scheme + "://";
      assert t[1..] == later + "://";
      assert t[0] == url[0] && t[1] == url[1] && t[2] == url[2];
    }
  }

  /** Where the authority of `info + tail` ends, and its last `@`. */
  lemma TailIsFound(info: string, tail: string)
    requires InAuthority(info) && IsTail(tail)
    ensures var rest := info + tail;
            AuthorityEnd(rest) == |info| + AuthorityEnd(tail) && LastAt(rest[..AuthorityEnd(rest)]) == Some(|info|)
  {
    var rest := info + tail;
    var n := AuthorityEnd(tail);
    assert forall i | 0 <= i < |tail| :: rest[|info| + i] == tail[i];
    assert AuthorityEnd(rest) == |info| + n;
    var authority := rest[..|info| + n];
    assert authority[|info|] == '@';
    assert forall i | |info| < i < |authority| :: authority[i] == tail[i - |info|];
  }

  lemma UserInfoSplits(user: string, password: string, tail: string)
    requires IsUserInfo(user, password, tail)
    ensures var rest := user + ":" + password + tail;
            && LastAt(rest[..AuthorityEnd(rest)]) == Some(|user| + 1 + |password|)
            && SplitOnce(rest[..|user| + 1 + |password|], ':') == Some((user, password))
            && rest[|user| + 1 + |password|..] == tail
  {
    var info := user + [':'] + password;
    assert InAuthority(info);
    TailIsFound(info, tail);
    assert user + ":" + password + tail == info + tail;
    assert (info + tail)[..|info|] == info;
    SplitOnceAt(user, ':', password);
  }

  /** A URL has a password exactly when it is put together this way, and then in one way only. */
  lemma PasswordIsExact(url: string, p: Parts)
    ensures FindPassword(url) == Some(p) <==>
            url == UrlOf(p) && IsScheme(p.scheme) && IsUserInfo(p.user, p.password, p.tail)
  {
    if url == UrlOf(p) && IsScheme(p.scheme) && IsUserInfo(p.user, p.password, p.tail) {
      SchemeSplits(p.scheme, p.user + ":" + p.password + p.tail);
      UserInfoSplits(p.user, p.password, p.tail);
    }
    if FindPassword(url) == Some(p) {
      FoundIsComposed(url, p);
    }
  }

  lemma AuthorityEndIs(s: string, n: nat)
    requires n <= |s| && (forall i | 0 <= i < n :: !EndsAuthority(s[i])) && (n < |s| ==> EndsAuthority(s[n]))
    ensures AuthorityEnd(s) == n
  {
  }

  lemma TailAt(rest: string, at: nat, end: nat)
    requires at < end <= |rest| && rest[at] == '@'
    requires (forall i | 0 <= i < end :: !EndsAuthority(rest[i])) && (end < |rest| ==> EndsAuthority(rest[end]))
    requires forall i | at < i < end :: rest[i] != '@'
    ensures IsTail(rest[at..]) && InAuthority(rest[..at])
  {
    var tail := rest[at..];
    assert forall i | 0 <= i < |tail| :: tail[i] == rest[at + i];
    AuthorityEndIs(tail, end - at);
  }

  lemma TailFrom(rest: string, at: nat)
    requires LastAt(rest[..AuthorityEnd(rest)]) == Some(at)
    ensures at < |rest| && IsTail(rest[at..]) && InAuthority(rest[..at])
  {
    var end := AuthorityEnd(rest);
    assert forall i | 0 <= i < end :: rest[..end][i] == rest[i];
    TailAt(rest, at, end);
  }

  lemma InfoParts(info: string, user: string, password: string)
    requires info == user + [':'] + password && InAuthority(info)
    ensures InAuthority(user) && InAuthority(password)
  {
    assert forall i | 0 <= i < |user| :: user[i] == info[i];
    assert forall i | 0 <= i < |password| :: password[i] == info[|user| + 1 + i];
  }

  lemma FoundIsComposed(url: string, p: Parts)
    requires FindPassword(url) == Some(p)
    ensures url == UrlOf(p) && IsScheme(p.scheme) && IsUserInfo(p.user, p.password, p.tail)
  {
    SplitSchemeIs(url);
    var rest := SplitScheme(url).value.1;
    var at := LastAt(rest[..AuthorityEnd(rest)]).value;
    TailFrom(rest, at);
    InfoParts(rest[..at], p.user, p.password);
    UrlFrom(p, rest, at);
  }

  lemma UrlFrom(p: Parts, rest: string, at: nat)
    requires at <= |rest| && rest[..at] == p.user + [':'] + p.password && rest[at..] == p.tail
    ensures p.scheme + "://" + rest == UrlOf(p)
  {
    assert rest == rest[..at] + rest[at..];
    assert rest == p.user + ":" + p.password + p.tail;
  }

  // ----- What stripping and redacting do -----

  lemma NoColonNoPassword(scheme: string, user: string, tail: string)
    requires IsScheme(scheme) && ':' !in user && InAuthority(user) && IsTail(tail)
    ensures FindPassword(scheme + "://" + user + tail) == None
  {
    SchemeSplits(scheme, user + tail);
    assert scheme + "://" + user + tail == scheme + "://" + (user + tail);
    TailIsFound(user, tail);
    assert (user + tail)[..|user|] == user;
    NothingToSplit(user, ':');
  }

  /** Stripping leaves a URL without a password; so stripping again changes nothing. */
  lemma StrippedHasNone(lossy: Lossy, url: string)
    ensures FindPassword(StripPassword(lossy, url).0) == None
    ensures StripPassword(lossy, StripPassword(lossy, url).0) == (StripPassword(lossy, url).0, None)
  {
    if FindPassword(url).Some? {
      var p := FindPassword(url).value;
      PasswordIsExact(url, p);
      NoColonNoPassword(p.scheme, p.user, p.tail);
    }
  }

  lemma SameUrl(p: Parts)
    ensures p.scheme + "://" + p.user + ":" + p.password + p.tail == UrlOf(p)
  {
  }

  lemma RedactedHasStars(url: string)
    requires FindPassword(url).Some?
    ensures FindPassword(RedactUrl(url)) == Some(FindPassword(url).value.(password := STARS))
  {
    var p := FindPassword(url).value;
    PasswordIsExact(url, p);
    var stars := p.(password := STARS);
    SameUrl(stars);
    PasswordIsExact(RedactUrl(url), stars);
  }

  /** Redacting twice is redacting once, and stripping a redacted URL strips the original. */
  lemma RedactThenStrip(lossy: Lossy, url: string)
    ensures RedactUrl(RedactUrl(url)) == RedactUrl(url)
    ensures StripPassword(lossy, RedactUrl(url)).0 == StripPassword(lossy, url).0
  {
    if FindPassword(url).Some? {
      RedactedHasStars(url);
    }
  }

  /** What is printed does not depend on the password. */
  lemma RedactedHidesPassword(p: Parts, other: string)
    requires IsScheme(p.scheme) && IsUserInfo(p.user, p.password, p.tail) && InAuthority(other)
    ensures RedactUrl(UrlOf(p)) == RedactUrl(UrlOf(p.(password := other)))
  {
    PasswordIsExact(UrlOf(p), p);
    PasswordIsExact(UrlOf(p.(password := other)), p.(password := other));
  }

  /** A URL comes back unchanged exactly when no password is found in it, an empty one included;
      one is found and none handed on exactly when it decodes to nothing. */
  lemma UnchangedExactly(lossy: Lossy, url: string)
    ensures StripPassword(lossy, url).0 == url <==> FindPassword(url).None?
    ensures StripPassword(lossy, url).0 != url && StripPassword(lossy, url).1.None? <==>
            FindPassword(url).Some? && PercentDecode(lossy, FindPassword(url).value.password) == ""
  {
    if FindPassword(url).Some? {
      var p := FindPassword(url).value;
      PasswordIsExact(url, p);
      assert |UrlOf(p)| == |p.scheme| + 3 + |p.user| + 1 + |p.password| + |p.tail|;
    }
  }

  /** A password decodes to nothing only when it is empty, if bytes that are not UTF-8 never decode
      to nothing. */
  lemma EmptyDecodesExactly(lossy: Lossy, password: string)
    requires forall bytes | !IsUtf8(bytes) :: lossy(bytes) != ""
    ensures PercentDecode(lossy, password) == "" <==> password == ""
  {
    var encoded := EncodeUtf8(password);
    if password != "" {
      assert encoded == EncodeChar(password[0]) + EncodeUtf8(password[1..]);
      var bytes := DecodeEscapes(encoded);
      assert bytes != [];
      if IsUtf8(bytes) {
        Utf8WritesBack(bytes);
      }
    }
  }

  /** The colon of an empty password is dropped, whatever the URL. */
  lemma EmptyPasswordIsDropped(lossy: Lossy, p: Parts)
    requires IsScheme(p.scheme) && IsUserInfo(p.user, p.password, p.tail) && p.password == ""
    ensures StripPassword(lossy, UrlOf(p)) == (p.scheme + "://" + p.user + p.tail, None)
    ensures StripPassword(lossy, UrlOf(p)).0 != UrlOf(p)
  {
    PasswordIsExact(UrlOf(p), p);
    UnchangedExactly(lossy, UrlOf(p));
    assert DecodeEscapes(EncodeUtf8("")) == [];
  }

  const EMPTY_PASSWORD := Parts("postgres", "alice", "", "@host/db")

  lemma EmptyPasswordUrl()
    ensures UrlOf(EMPTY_PASSWORD) == "postgres://alice:@host/db"
  {
  }

  /** So `postgres://alice:@host/db` loses its colon. */
  lemma AliceLosesHerColon(lossy: Lossy)
    ensures var url := UrlOf(EMPTY_PASSWORD);
            StripPassword(lossy, url) == (EMPTY_PASSWORD.scheme + "://" + EMPTY_PASSWORD.user + EMPTY_PASSWORD.tail, None)
            && StripPassword(lossy, url).0 != url
  {
    var p := EMPTY_PASSWORD;
    PostgresIsScheme();
    AliceAtHost();
    EmptyPasswordIsDropped(lossy, p);
  }

  lemma {:induction false} NoColonIsScheme(scheme: string)
    requires ':' !in scheme
    ensures IsScheme(scheme)
  {
    var url := scheme + "://";
    if scheme == "" {
      assert url[3..] == "";
    } else {
      assert url[1..] == scheme[1..] + "://";
      NoColonIsScheme(scheme[1..]);
      assert url[0] == scheme[0] && scheme[0] in scheme;
      assert [scheme[0]] + scheme[1..] == scheme;
    }
  }

  lemma PostgresIsScheme()
    ensures IsScheme("postgres")
  {
    NoColonIsScheme("postgres");
  }

  lemma AliceAtHost()
    ensures IsUserInfo("alice", "", "@host/db")
  {
    AuthorityEndIs("@host/db", 5);
  }

  // ----- Percent encoding -----

  const PERCENT: Byte := 0x25

  function HexValue(b: Byte): Option<nat> {
    if 0x30 <= b <= 0x39 then Some(b - 0x30)
    else if 0x61 <= b <= 0x66 then Some(b - 0x61 + 10)
    else if 0x41 <= b <= 0x46 then Some(b - 0x41 + 10)
    else None
  }

  predicate IsEscape(bytes: Bytes) {
    |bytes| >= 3 && bytes[0] == PERCENT && HexValue(bytes[1]).Some? && HexValue(bytes[2]).Some?
  }

  function EscapedByte(high: Byte, low: Byte): Byte
    requires HexValue(high).Some? && HexValue(low).Some?
  {
    HexValue(high).value * 16 + HexValue(low).value
  }

  function DecodeEscapes(bytes: Bytes): Bytes {
    if bytes == [] then []
    else if IsEscape(bytes) then [EscapedByte(bytes[1], bytes[2])] + DecodeEscapes(bytes[3..])
    else [bytes[0]] + DecodeEscapes(bytes[1..])
  }

  method ReadEscapes(bytes: Bytes) returns (out: Bytes)
    ensures out == DecodeEscapes(bytes)
  {
    out := [];
    var i := 0;
    while i < |bytes|
      invariant 0 <= i <= |bytes| && out + DecodeEscapes(bytes[i..]) == DecodeEscapes(bytes)
    {
      var left := bytes[i..];
      if IsEscape(left) {
        var b := EscapedByte(left[1], left[2]);
        assert left[3..] == bytes[i + 3..];
        Together(out, b, DecodeEscapes(bytes[i + 3..]));
        out, i := out + [b], i + 3;
      } else {
        assert left[1..] == bytes[i + 1..];
        Together(out, left[0], DecodeEscapes(bytes[i + 1..]));
        out, i := out + [left[0]], i + 1;
      }
    }
  }

  lemma Together(a: Bytes, b: Byte, c: Bytes)
    ensures a + ([b] + c) == (a + [b]) + c
  {
  }

  function PercentDecode(lossy: Lossy, s: string): string {
    var bytes := DecodeEscapes(EncodeUtf8(s));
    if IsUtf8(bytes) then DecodeUtf8(bytes).value else lossy(bytes)
  }

  /** A hexadecimal digit in either case. */
  function HexByte(n: nat, upper: bool): (b: Byte)
    requires n < 16
    ensures HexValue(b) == Some(n) && b < 0x80
  {
    if n < 10 then 0x30 + n else if upper then 0x41 + n - 10 else 0x61 + n - 10
  }

  /** Percent encoding: the bytes that may stay as they are stay, the others become escapes. */
  function PercentEncode(bytes: Bytes, stays: Byte -> bool, upper: bool): Bytes {
    if bytes == [] then []
    else
      (if stays(bytes[0]) then [bytes[0]] else [PERCENT, HexByte(bytes[0] / 16, upper), HexByte(bytes[0] % 16, upper)])
      + PercentEncode(bytes[1..], stays, upper)
  }

  /** Whatever is left unescaped, short of the percent sign, decoding recovers the bytes. */
  lemma {:induction false} EscapesReadBack(bytes: Bytes, stays: Byte -> bool, upper: bool)
    requires !stays(PERCENT)
    ensures DecodeEscapes(PercentEncode(bytes, stays, upper)) == bytes
  {
    if bytes != [] {
      var rest := PercentEncode(bytes[1..], stays, upper);
      var all := PercentEncode(bytes, stays, upper);
      EscapesReadBack(bytes[1..], stays, upper);
      assert bytes == [bytes[0]] + bytes[1..];
      if stays(bytes[0]) {
        assert all[1..] == rest && all[0] == bytes[0];
      } else {
        assert all[3..] == rest && all[1] == HexByte(bytes[0] / 16, upper) && all[2] == HexByte(bytes[0] % 16, upper);
      }
    }
  }

  lemma {:induction false} EscapesAreAscii(bytes: Bytes, stays: Byte -> bool, upper: bool)
    requires forall b: Byte | b >= 0x80 :: !stays(b)
    ensures IsAscii(PercentEncode(bytes, stays, upper))
  {
    if bytes != [] {
      EscapesAreAscii(bytes[1..], stays, upper);
    }
  }

  function AsciiText(bytes: Bytes): string
    requires IsAscii(bytes)
  {
    seq(|bytes|, i requires 0 <= i < |bytes| => bytes[i] as char)
  }

  lemma {:induction false} AsciiTextEncodes(bytes: Bytes)
    requires IsAscii(bytes)
    ensures EncodeUtf8(AsciiText(bytes)) == bytes
  {
    if bytes != [] {
      AsciiTextEncodes(bytes[1..]);
      assert AsciiText(bytes)[1..] == AsciiText(bytes[1..]);
      assert bytes == [bytes[0]] + bytes[1..];
    }
  }

  /** A password of any text, percent-encoded into a URL, is the password handed on. */
  lemma EncodedPasswordReadsBack(lossy: Lossy, text: string, stays: Byte -> bool, upper: bool)
    requires !stays(PERCENT) && forall b: Byte | b >= 0x80 :: !stays(b)
    ensures var encoded := PercentEncode(EncodeUtf8(text), stays, upper);
            IsAscii(encoded) && PercentDecode(lossy, AsciiText(encoded)) == text
  {
    var encoded := PercentEncode(EncodeUtf8(text), stays, upper);
    EscapesAreAscii(EncodeUtf8(text), stays, upper);
    AsciiTextEncodes(encoded);
    EscapesReadBack(EncodeUtf8(text), stays, upper);
    Utf8ReadsBack(text);
  }

  // ----- Which characters end what -----

  /** An authority ends at these three characters (section 3.2 of RFC 3986). */
  lemma AuthorityEndsAt(c: char)
    ensures EndsAuthority(c) <==> c in {'/', '?', '#'}
  {
  }

  /** What a hexadecimal digit is worth, by the digits in order. */
  lemma HexDigitsAre(b: Byte, n: nat)
    ensures HexValue(b) == Some(n) <==>
            n < 16 && (b as char == "0123456789abcdef"[n] || b as char == "0123456789ABCDEF"[n])
  {
  }

  predicate HasEscape(bytes: Bytes) {
    exists i | 0 <= i < |bytes| :: IsEscapeAt(bytes, i)
  }

  /** A percent sign with two hexadecimal digits after it. */
  predicate IsEscapeAt(bytes: Bytes, i: nat) {
    i + 2 < |bytes| && bytes[i] as char == '%' && HexValue(bytes[i + 1]).Some? && HexValue(bytes[i + 2]).Some?
  }

  /** Bytes without an escape, stray percent signs included, pass through as they are; whatever follows
      the first escape is decoded on its own. */
  lemma {:induction false} PassesThrough(bytes: Bytes)
    requires !HasEscape(bytes)
    ensures DecodeEscapes(bytes) == bytes
    decreases |bytes|
  {
    if bytes != [] {
      assert !IsEscapeAt(bytes, 0);
      assert forall i: nat | i < |bytes| - 1 :: IsEscapeAt(bytes[1..], i) <==> IsEscapeAt(bytes, i + 1);
      PassesThrough(bytes[1..]);
      assert bytes == [bytes[0]] + bytes[1..];
    }
  }

  lemma {:induction false} FirstEscapeDecodes(before: Bytes, high: Byte, low: Byte, rest: Bytes)
    requires HexValue(high).Some? && HexValue(low).Some?
    requires forall i: nat | i < |before| :: !IsEscapeAt(before + [PERCENT, high, low] + rest, i)
    ensures DecodeEscapes(before + [PERCENT, high, low] + rest)
            == before + [EscapedByte(high, low)] + DecodeEscapes(rest)
    decreases |before|
  {
    var bytes := before + [PERCENT, high, low] + rest;
    if before == [] {
      assert bytes[3..] == rest;
    } else {
      var later := before[1..] + [PERCENT, high, low] + rest;
      assert bytes[1..] == later;
      assert !IsEscapeAt(bytes, 0);
      assert forall i: nat | i < |before| - 1 :: IsEscapeAt(later, i) <==> IsEscapeAt(bytes, i + 1);
      FirstEscapeDecodes(before[1..], high, low, rest);
      assert before == [before[0]] + before[1..];
    }
  }

  /** A password shows as three stars, in its place. */
  lemma RedactedShowsStars(p: Parts)
    requires IsScheme(p.scheme) && IsUserInfo(p.user, p.password, p.tail)
    ensures RedactUrl(UrlOf(p)) == p.scheme + "://" + p.user + ":" + "***" + p.tail
  {
    PasswordIsExact(UrlOf(p), p);
  }

  /** A URL whose password is an encoded text, stripped: the URL without it, and the text. */
  lemma EncodedUrlStrips(lossy: Lossy, p: Parts, text: string, stays: Byte -> bool, upper: bool)
    requires !stays(PERCENT) && (forall b: Byte | b >= 0x80 :: !stays(b)) && text != ""
    requires IsAscii(PercentEncode(EncodeUtf8(text), stays, upper))
    requires p.password == AsciiText(PercentEncode(EncodeUtf8(text), stays, upper))
    requires IsScheme(p.scheme) && IsUserInfo(p.user, p.password, p.tail)
    ensures StripPassword(lossy, UrlOf(p)) == (p.scheme + "://" + p.user + p.tail, Some(text))
  {
    PasswordIsExact(UrlOf(p), p);
    EncodedPasswordReadsBack(lossy, text, stays, upper);
  }
}
