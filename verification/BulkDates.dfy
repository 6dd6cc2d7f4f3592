/**
 The two date forms of the bulk files, MMDDYYYY and MM/DD/YYYY, brought to ISO YYYY-MM-DD.
 */
module BulkDates {
  import opened Wrappers
  import opened Text

  datatype Date = Date(year: int, month: nat, day: nat)

  // ----- The calendar -----

  predicate IsLeap(year: int) {
    year % 4 == 0 && (year % 100 != 0 || year % 400 == 0)
  }

  function DaysIn(year: int, month: nat): nat {
    if month == 2 then (if IsLeap(year) then 29 else 28)
    else if month in {4, 6, 9, 11} then 30
    else 31
  }

  predicate IsCalendarDate(d: Date) {
    1 <= d.month <= 12 && 1 <= d.day <= DaysIn(d.year, d.month)
  }

  // ----- Reading -----

  /** Month, day and year as written, when the text has one of the two shapes. */
  function Parts(t: string): (parts: Option<(string, string, string)>)
    ensures parts.Some? ==> |parts.value.0| == 2 && |parts.value.1| == 2 && |parts.value.2| == 4
  {
    if |t| == 8 && AllDigits(t) then Some((t[..2], t[2..4], t[4..]))
    else if |t| == 10 && t[2] == '/' && t[5] == '/' then Some((t[..2], t[3..5], t[6..]))
    else None
  }

  function DateOf(parts: (string, string, string)): Option<Date> {
    var month, day, year := ParseUnsigned(parts.0), ParseUnsigned(parts.1), ParseSigned(parts.2);
    if month.None? || day.None? || year.None? || year.value == 0 then None
    else
      var date := Date(year.value, month.value, day.value);
      if IsCalendarDate(date) then Some(date) else None
  }

  function ReadBulkDate(raw: string): Option<Date> {
    var parts := Parts(Trim(raw));
    if parts.None? then None else DateOf(parts.value)
  }

  // ----- Printing -----

  /** A year before 0 is written with its sign. */
  function IsoYear(year: int): string {
    if year < 0 then "-" + Digits(-year, 4) else Digits(year, 4)
  }

  function Iso(d: Date): string {
    IsoYear(d.year) + "-" + Digits(d.month, 2) + "-" + Digits(d.day, 2)
  }

  function NormalizeBulkDate(raw: string): Option<string> {
    match ReadBulkDate(raw)
    case None => None
    case Some(date) => Some(Iso(date))
  }

  function Packed(d: Date): string
    requires d.year >= 0
  {
    Digits(d.month, 2) + Digits(d.day, 2) + Digits(d.year, 4)
  }

  function Slashed(d: Date): string
    requires d.year >= 0
  {
    Digits(d.month, 2) + "/" + Digits(d.day, 2) + "/" + Digits(d.year, 4)
  }

  /** An ISO date read as a database column reads it. */
  function ReadIso(iso: string): Option<Date> {
    var n := |iso|;
    if n < 10 || iso[n - 3] != '-' || iso[n - 6] != '-' then None
    else
      var year, month, day := ParseSigned(iso[..n - 6]), ParseDigits(iso[n - 5..n - 3]), ParseDigits(iso[n - 2..]);
      if year.None? || month.None? || day.None? then None
      else Some(Date(year.value, month.value, day.value))
  }

  // ----- Properties -----

  lemma TwoDigits(n: nat)
    requires n < 100
    ensures ParseUnsigned(Digits(n, 2)) == ParseDigits(Digits(n, 2)) == Some(n)
    ensures AllDigits(Digits(n, 2))
  {
    assert Pow10(2) == 10 * Pow10(1) && Pow10(1) == 10 * Pow10(0);
    DigitsReadBack(n, 2);
    assert Digits(n, 2)[0] in Digits(n, 2);
  }

  lemma FourDigits(n: nat)
    requires n < 10_000
    ensures ParseSigned(Digits(n, 4)) == Some(n) && ParseDigits(Digits(n, 4)) == Some(n)
    ensures AllDigits(Digits(n, 4))
  {
    assert Pow10(4) == 10 * Pow10(3) && Pow10(3) == 10 * Pow10(2) && Pow10(2) == 10 * Pow10(1) && Pow10(1) == 10 * Pow10(0);
    DigitsReadBack(n, 4);
    assert Digits(n, 4)[0] in Digits(n, 4);
  }

  lemma ConcatParts(a: string, x: string, b: string, y: string, c: string)
    requires |a| == |b| == 2 && |c| == 4 && |x| == |y| <= 1
    ensures var s := a + x + b + y + c; var k := |x|;
            s[..2] == a && s[2 + k..4 + k] == b && s[4 + 2 * k..] == c && |s| == 8 + 2 * k
            && (k == 1 ==> s[2] == x[0] && s[5] == y[0])
  {
  }

  lemma PartsOfDate(d: Date)
    requires IsCalendarDate(d) && 1 <= d.year <= 9999
    ensures DateOf((Digits(d.month, 2), Digits(d.day, 2), Digits(d.year, 4))) == Some(d)
  {
    TwoDigits(d.month);
    TwoDigits(d.day);
    FourDigits(d.year);
  }

  lemma PackedParts(d: Date)
    requires d.year >= 0
    ensures Parts(Packed(d)) == Some((Digits(d.month, 2), Digits(d.day, 2), Digits(d.year, 4)))
    ensures |Packed(d)| == 8 && AllDigits(Packed(d))
  {
    var m, dd, y := Digits(d.month, 2), Digits(d.day, 2), Digits(d.year, 4);
    DigitsAreDigits(d.month, 2);
    DigitsAreDigits(d.day, 2);
    DigitsAreDigits(d.year, 4);
    ConcatParts(m, "", dd, "", y);
    assert m + "" + dd + "" + y == Packed(d);
  }

  lemma SlashedParts(d: Date)
    requires d.year >= 0
    ensures Parts(Slashed(d)) == Some((Digits(d.month, 2), Digits(d.day, 2), Digits(d.year, 4)))
    ensures |Slashed(d)| == 10 && IsDigit(Slashed(d)[0]) && IsDigit(Slashed(d)[9])
  {
    var m, dd, y := Digits(d.month, 2), Digits(d.day, 2), Digits(d.year, 4);
    DigitsAreDigits(d.month, 2);
    DigitsAreDigits(d.year, 4);
    assert m[0] in m && y[3] in y;
    ConcatParts(m, "/", dd, "/", y);
    assert Slashed(d)[0] == m[0] && Slashed(d)[9] == y[3];
  }

  /** Every date of years 1 to 9999 is recognised in both forms, with any white space around it. */
  lemma BothFormsAreRead(d: Date, before: string, after: string)
    requires IsCalendarDate(d) && 1 <= d.year <= 9999
    requires forall c | c in before + after :: IsWhiteSpace(c)
    ensures NormalizeBulkDate(before + Packed(d) + after) == Some(Iso(d))
    ensures NormalizeBulkDate(before + Slashed(d) + after) == Some(Iso(d))
  {
    PartsOfDate(d);
    PackedParts(d);
    SlashedParts(d);
    assert Packed(d)[0] in Packed(d) && Packed(d)[7] in Packed(d);
    TrimPadded(before, Packed(d), after);
    TrimPadded(before, Slashed(d), after);
  }

  predicate Signed(s: string) {
    s != [] && (s[0] == '+' || s[0] == '-')
  }

  lemma UnsignedWrites(s: string, width: nat)
    requires |s| == width && !Signed(s) && ParseUnsigned(s).Some?
    ensures s == Digits(ParseUnsigned(s).value, width)
  {
    ReadWritesBack(s);
  }

  /** Nothing else is: text that normalises is one of the two forms of the date it becomes, unless
      the slashed form carries a sign. */
  lemma OnlyTheTwoForms(raw: string)
    requires NormalizeBulkDate(raw).Some?
    ensures exists d: Date | IsCalendarDate(d) && d.year != 0 ::
              && NormalizeBulkDate(raw) == Some(Iso(d))
              && var t := Trim(raw);
                 || (d.year > 0 && (t == Packed(d) || t == Slashed(d)))
                 || (|t| == 10 && t[2] == '/' && t[5] == '/' && (Signed(t[..2]) || Signed(t[3..5]) || Signed(t[6..])))
  {
    var t := Trim(raw);
    var parts := Parts(t).value;
    var d := ReadBulkDate(raw).value;
    if |t| == 8 && AllDigits(t) {
      assert forall i | 0 <= i < 8 :: IsDigit(t[i]);
    }
    if !Signed(parts.0) && !Signed(parts.1) && !Signed(parts.2) {
      UnsignedWrites(parts.0, 2);
      UnsignedWrites(parts.1, 2);
      UnsignedWrites(parts.2, 4);
      assert t == Packed(d) || t == Slashed(d);
    }
  }

  /** The ISO text names the date: it reads back as the date the raw text denotes. */
  lemma IsoReadsBack(d: Date)
    requires IsCalendarDate(d) && -10_000 < d.year < 10_000
    ensures ReadIso(Iso(d)) == Some(d)
  {
    TwoDigits(d.month);
    TwoDigits(d.day);
    IsoYearReadsBack(d.year);
    IsoParts(IsoYear(d.year), Digits(d.month, 2), Digits(d.day, 2));
  }

  lemma IsoYearReadsBack(year: int)
    requires -10_000 < year < 10_000
    ensures ParseSigned(IsoYear(year)) == Some(year)
  {
    FourDigits(if year < 0 then -year else year);
    if year < 0 {
      assert ("-" + Digits(-year, 4))[1..] == Digits(-year, 4);
    }
  }

  lemma IsoParts(y: string, m: string, d: string)
    requires |m| == |d| == 2
    ensures var iso := y + "-" + m + "-" + d; var n := |iso|;
            && n == |y| + 6 && iso[n - 3] == '-' && iso[n - 6] == '-'
            && iso[..n - 6] == y && iso[n - 5..n - 3] == m && iso[n - 2..] == d
  {
    var iso := y + "-" + m + "-" + d;
    assert iso[..|y|] == y && iso[|y| + 1..|y| + 3] == m && iso[|y| + 4..] == d;
  }

  lemma YearBounds(s: string)
    requires |s| == 4 && ParseSigned(s).Some?
    ensures -10_000 < ParseSigned(s).value < 10_000
  {
    assert Pow10(4) == 10 * Pow10(3) && Pow10(3) == 10 * Pow10(2) && Pow10(2) == 10 * Pow10(1) && Pow10(1) == 10 * Pow10(0);
    if s[0] == '+' || s[0] == '-' {
      ReadWritesBack(s[1..]);
    } else {
      ReadWritesBack(s);
    }
  }

  /** So the date column of a row holds the date its text column denotes, and is blank for text
      that denotes none. */
  lemma DateTwinDenotes(raw: string)
    ensures NormalizeBulkDate(raw).Some? <==> ReadBulkDate(raw).Some?
    ensures NormalizeBulkDate(raw).Some? ==> ReadIso(NormalizeBulkDate(raw).value) == ReadBulkDate(raw)
  {
    if ReadBulkDate(raw).Some? {
      YearBounds(Parts(Trim(raw)).value.2);
      IsoReadsBack(ReadBulkDate(raw).value);
    }
  }

  // ----- The Gregorian calendar -----

  /** How many of the years from 1 to `year` are leap years. */
  function LeapYears(year: nat): nat {
    if year == 0 then 0 else LeapYears(year - 1) + if IsLeap(year) then 1 else 0
  }

  lemma {:induction false} LeapYearsAre(year: nat)
    ensures LeapYears(year) == year / 4 - year / 100 + year / 400
  {
    if year > 0 {
      LeapYearsAre(year - 1);
      QuotientGrows(year, 4);
      QuotientGrows(year, 100);
      QuotientGrows(year, 400);
      MultiplesNest(year);
    }
  }

  lemma MultiplesNest(n: nat)
    ensures (n % 100 == 0 ==> n % 4 == 0) && (n % 400 == 0 ==> n % 100 == 0)
  {
    if n % 100 == 0 {
      MultipleOf4(n, n / 100);
    }
    if n % 400 == 0 {
      MultipleOf100(n, n / 400);
    }
  }

  lemma MultipleOf4(n: nat, k: nat)
    requires n == 100 * k
    ensures n % 4 == 0
  {
    assert n == 4 * (25 * k);
  }

  lemma MultipleOf100(n: nat, k: nat)
    requires n == 400 * k
    ensures n % 100 == 0
  {
    assert n == 100 * (4 * k);
  }

  lemma QuotientGrows(n: nat, d: nat)
    requires n > 0 && (d == 4 || d == 100 || d == 400)
    ensures n / d == (n - 1) / d + if n % d == 0 then 1 else 0
  {
    if d == 4 {
    } else if d == 100 {
    }
  }

  /** The month that comes `i` months after March; January and February belong to the next year. */
  function FromMarch(i: nat): nat
    requires i < 12
  {
    if i < 10 then i + 3 else i - 9
  }

  /** The days from the first of March to the first of the month `i` months later. */
  function DaysFromMarch(year: int, i: nat): nat
    requires i <= 11
  {
    if i == 0 then 0 else DaysFromMarch(year, i - 1) + DaysIn(if i > 10 then year + 1 else year, FromMarch(i - 1))
  }

  /** The months from March to January follow the five-month pattern of 153 days; the year has 365 days,
      or 366 when the February at its end belongs to a leap year. */
  lemma MonthsAre(year: int, i: nat)
    requires i <= 11
    ensures DaysFromMarch(year, i) == (153 * i + 2) / 5
    ensures DaysFromMarch(year, 11) + DaysIn(year + 1, 2) == if IsLeap(year + 1) then 366 else 365
  {
    assert DaysFromMarch(year, 1) == 31;
    assert DaysFromMarch(year, 2) == 61;
    assert DaysFromMarch(year, 3) == 92;
    assert DaysFromMarch(year, 4) == 122;
    assert DaysFromMarch(year, 5) == 153;
    assert DaysFromMarch(year, 6) == 184;
    assert DaysFromMarch(year, 7) == 214;
    assert DaysFromMarch(year, 8) == 245;
    assert DaysFromMarch(year, 9) == 275;
    assert DaysFromMarch(year, 10) == 306;
    assert DaysFromMarch(year, 11) == 337;
  }
}
