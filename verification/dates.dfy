/**
 The date normaliser: the four date encodings the local-export pipeline
 accepts, each modelled on the exact `datetime.strptime` /
 `datetime.fromisoformat` behaviour it relies on (token shapes, month
 abbreviations, the two-digit-year pivot, day-of-month validation), the
 fixed order in which they are tried, and the month labels printed in the
 output.
 */
module Dates {
  import opened Wrappers
  import opened Text

  datatype Date = Date(year: int, month: int, day: int)

  /** A calendar month: the `"%Y-%m"` bucket key of both scripts. */
  datatype YearMonth = YearMonth(year: int, month: int)

  /** First year the local-export pipeline counts; the API build leaves its date cutoff to the server. */
  const CutoffYear := 2025

  /** Gregorian leap years, as `datetime` uses them. */
  predicate IsLeapYear(y: int) {
    y % 4 == 0 && (y % 100 != 0 || y % 400 == 0)
  }

  function DaysInMonth(y: int, m: int): (n: int)
    requires 1 <= m <= 12
    ensures 28 <= n <= 31
  {
    if m == 2 then (if IsLeapYear(y) then 29 else 28)
    else if m == 4 || m == 6 || m == 9 || m == 11 then 30
    else 31
  }

  /** The dates a `datetime` object can hold (years 1 to 9999, real days of real months). */
  predicate IsValid(d: Date) {
    1 <= d.year <= 9999 && 1 <= d.month <= 12 && 1 <= d.day <= DaysInMonth(d.year, d.month)
  }

  /** The constructor `datetime(y, m, d)`, with its `ValueError` as `None`. */
  function MakeDate(y: int, m: int, d: int): (r: Option<Date>)
    ensures r.Some? <==> IsValid(Date(y, m, d))
    ensures r.Some? ==> r.value == Date(y, m, d)
  {
    if IsValid(Date(y, m, d)) then Some(Date(y, m, d)) else None
  }

  function MonthOf(d: Date): YearMonth {
    YearMonth(d.year, d.month)
  }

  /** Position of the first `c` in `s`, or `|s|` when there is none. */
  function IndexOf(s: string, c: char): (i: nat)
    ensures i <= |s|
    ensures i < |s| ==> s[i] == c
    ensures forall j :: 0 <= j < i ==> s[j] != c
  {
    if |s| == 0 then 0
    else if s[0] == c then 0
    else 1 + IndexOf(s[1..], c)
  }

  /** `s.split("T")[0]`: the text before the first `T`. */
  function BeforeT(s: string): (r: string)
    ensures r <= s && 'T' !in r
    ensures |r| == |s| || s[|r|] == 'T'
  {
    s[..IndexOf(s, 'T')]
  }

  function DigitOf(c: char): int {
    c as int - '0' as int
  }

  /** The `%m` directive of `strptime`: `1[0-2]|0[1-9]|[1-9]`. */
  function MonthToken(t: string): (r: Option<int>)
    ensures r.Some? ==> 1 <= r.value <= 12 && 1 <= |t| <= 2
  {
    if |t| == 1 && '1' <= t[0] <= '9' then Some(DigitOf(t[0]))
    else if |t| == 2 && AllDigits(t) && 1 <= Value(t) <= 12 then Some(Value(t))
    else None
  }

  /** The `%d` directive of `strptime`: `3[01]|[12]\d|0[1-9]|[1-9]| [1-9]`. */
  function DayToken(t: string): (r: Option<int>)
    ensures r.Some? ==> 1 <= r.value <= 31 && 1 <= |t| <= 2
    ensures r.Some? ==> forall i :: 0 <= i < |t| ==> t[i] == ' ' || '0' <= t[i] <= '9'
  {
    if |t| == 1 && '1' <= t[0] <= '9' then Some(DigitOf(t[0]))
    else if |t| == 2 && t[0] == ' ' && '1' <= t[1] <= '9' then Some(DigitOf(t[1]))
    else if |t| == 2 && AllDigits(t) && 1 <= Value(t) <= 31 then Some(Value(t))
    else None
  }

  /** The C-locale month abbreviations `strftime("%b")` prints and `%b` parses. */
  const MonthAbbreviations: seq<string> :=
    ["Jan", "Feb", "Mar", "Apr", "May", "Jun", "Jul", "Aug", "Sep", "Oct", "Nov", "Dec"]

  function MonthAbbr(m: int): (s: string)
    requires 1 <= m <= 12
    ensures |s| == 3
  {
    MonthAbbreviations[m - 1]
  }

  /** The same abbreviations upper-cased, as the day-month-year form is matched after `upper()`. */
  const UpperAbbreviations: seq<string> :=
    ["JAN", "FEB", "MAR", "APR", "MAY", "JUN", "JUL", "AUG", "SEP", "OCT", "NOV", "DEC"]

  function UpperAbbr(m: int): (s: string)
    requires 1 <= m <= 12
    ensures |s| == 3
  {
    UpperAbbreviations[m - 1]
  }

  /** The upper-case abbreviations are made of capital letters only. */
  lemma UpperAbbrLetters(m: int)
    requires 1 <= m <= 12
    ensures forall k :: 0 <= k < 3 ==> 'A' <= UpperAbbr(m)[k] <= 'Z'
    ensures Upper(UpperAbbr(m)) == UpperAbbr(m)
  {
  }

  /** Each upper-case abbreviation is read back as its own month. */
  lemma UpperAbbrParses(m: int)
    requires 1 <= m <= 12
    ensures MonthOfAbbr(UpperAbbr(m)) == Some(m)
  {
    UpperAbbrLetters(m);
    assert forall k :: 1 <= k < m ==> UpperAbbr(k) != UpperAbbr(m);
  }

  /** The `%b` directive under `re.IGNORECASE`: which month a three-letter word names. */
  function MonthOfAbbr(t: string): (r: Option<int>)
    ensures r.Some? ==> 1 <= r.value <= 12 && Upper(t) == UpperAbbr(r.value)
    ensures r.None? ==> forall m :: 1 <= m <= 12 ==> Upper(t) != UpperAbbr(m)
  {
    FindAbbr(Upper(t), 1)
  }

  function FindAbbr(u: string, m: int): (r: Option<int>)
    requires 1 <= m <= 13
    ensures r.Some? ==> m <= r.value <= 12 && u == UpperAbbr(r.value)
    ensures r.None? ==> forall k :: m <= k <= 12 ==> u != UpperAbbr(k)
    decreases 13 - m
  {
    if m == 13 then None
    else if u == UpperAbbr(m) then Some(m)
    else FindAbbr(u, m + 1)
  }

  /** `%y`: two digits, 00-68 in the 2000s and 69-99 in the 1900s. */
  function PivotYear(yy: int): int {
    if yy <= 68 then 2000 + yy else 1900 + yy
  }

  /** Encoding 1: `strptime(s, "%Y%m%d")`, tried only when `s` is eight digits. */
  function ParseCompact(s: string): (r: Option<Date>)
    ensures r.Some? ==> IsValid(r.value) && |s| == 8 && AllDigits(s)
  {
    if |s| == 8 && AllDigits(s) then
      assert AllDigits(s[..4]) && AllDigits(s[4..6]) && AllDigits(s[6..]);
      MakeDate(Value(s[..4]), Value(s[4..6]), Value(s[6..]))
    else None
  }

  /** Encoding 2: `datetime.fromisoformat(s)` on a `YYYY-MM-DD` text. */
  function ParseIso(s: string): (r: Option<Date>)
    ensures r.Some? ==> IsValid(r.value) && |s| == 10 && s[4] == '-' && s[7] == '-'
    ensures r.Some? ==> AllDigits(s[..4]) && AllDigits(s[5..7]) && AllDigits(s[8..])
  {
    if |s| == 10 && s[4] == '-' && s[7] == '-' && AllDigits(s[..4]) && AllDigits(s[5..7]) && AllDigits(s[8..]) then
      MakeDate(Value(s[..4]), Value(s[5..7]), Value(s[8..]))
    else None
  }

  /** Encoding 3: `strptime(s, "%d-%b-%y")`, e.g. `15-JUN-25`. */
  function ParseDayMonYy(s: string): (r: Option<Date>)
    ensures r.Some? ==> IsValid(r.value)
    ensures r.Some? ==> var i := IndexOf(s, '-'); 1 <= i <= 2 && |s| == i + 7
  {
    var i := IndexOf(s, '-');
    if i < |s| && |s| == i + 7 && s[i + 4] == '-' && AllDigits(s[i + 5..]) then
      match (DayToken(s[..i]), MonthOfAbbr(s[i + 1..i + 4]))
      case (Some(d), Some(m)) => MakeDate(PivotYear(Value(s[i + 5..])), m, d)
      case _ => None
    else None
  }

  /** Encoding 4: `strptime(s, "%m/%d/%Y")`, e.g. `06/15/2025` or `6/5/2025`. */
  function ParseSlash(s: string): (r: Option<Date>)
    ensures r.Some? ==> IsValid(r.value) && 1 <= IndexOf(s, '/') <= 2
  {
    var i := IndexOf(s, '/');
    if i < |s| then
      var rest := s[i + 1..];
      var j := IndexOf(rest, '/');
      if j < |rest| && |rest| == j + 5 && AllDigits(rest[j + 1..]) then
        match (MonthToken(s[..i]), DayToken(rest[..j]))
        case (Some(m), Some(d)) => MakeDate(Value(rest[j + 1..]), m, d)
        case _ => None
      else None
    else None
  }

  /**
   The inspection-date normaliser: the four encodings in their fixed order on
   the stripped text. The day-month-year form is matched on the upper-cased
   text, the ISO form on the part before the first `T`.
   */
  function Normalize(s: string): (r: Option<Date>)
    ensures r.Some? ==> IsValid(r.value)
  {
    var compact := ParseCompact(s);
    if compact.Some? then compact
    else
      var iso := ParseIso(BeforeT(s));
      if iso.Some? then iso
      else
        var dmy := ParseDayMonYy(Upper(s));
        if dmy.Some? then dmy
        else ParseSlash(s)
  }

  // ---------------------------------------------------------------------------
  // The encodings never overlap, so the fixed trial order never decides
  // between two readings of the same text.
  // ---------------------------------------------------------------------------

  lemma CompactExcludesOthers(s: string)
    requires ParseCompact(s).Some?
    ensures ParseIso(BeforeT(s)).None? && ParseDayMonYy(Upper(s)).None? && ParseSlash(s).None?
  {
    assert 'T' !in s;
    assert BeforeT(s) == s;
    var u := Upper(s);
    assert IndexOf(u, '-') == |u|;
    assert IndexOf(s, '/') == |s|;
  }

  lemma IsoExcludesLater(s: string)
    requires ParseIso(BeforeT(s)).Some?
    ensures ParseDayMonYy(Upper(s)).None? && ParseSlash(s).None?
  {
    var p := BeforeT(s);
    assert p == s[..10];
    assert forall k :: 0 <= k < 4 ==> '0' <= s[k] <= '9' by {
      forall k | 0 <= k < 4 ensures '0' <= s[k] <= '9' { assert s[k] == p[..4][k]; }
    }
    var u := Upper(s);
    assert u[4] == UpperChar(s[4]) == '-';
    assert IndexOf(u, '-') == 4;
    assert IndexOf(s, '/') >= 10;
  }

  lemma DayMonYyExcludesSlash(s: string)
    requires ParseDayMonYy(Upper(s)).Some?
    ensures ParseSlash(s).None?
  {
    var u := Upper(s);
    var i := IndexOf(u, '-');
    var m := MonthOfAbbr(u[i + 1..i + 4]);
    var day := DayToken(u[..i]);
    assert m.Some? && day.Some?;
    assert forall k :: 0 <= k < |u| ==> u[k] != '/' by {
      forall k | 0 <= k < |u| ensures u[k] != '/' {
        if k < i {
          assert u[k] == u[..i][k];
        } else if k == i || k == i + 4 {
        } else if k < i + 4 {
          var t := u[i + 1..i + 4];
          assert Upper(t) == UpperAbbr(m.value);
          UpperAbbrLetters(m.value);
          assert u[k] == t[k - i - 1];
          assert UpperChar(t[k - i - 1]) == UpperAbbr(m.value)[k - i - 1];
        } else {
          assert u[k] == u[i + 5..][k - i - 5];
        }
      }
    }
    assert IndexOf(s, '/') == |s|;
  }

  /**
   Whatever the trial order, a text normalises to `d` exactly when one of the
   four encodings reads it as `d`: no text is read two ways.
   */
  lemma NormalizeIsTheMatchingEncoding(s: string, d: Date)
    ensures Normalize(s) == Some(d) <==>
      (|| ParseCompact(s) == Some(d) || ParseIso(BeforeT(s)) == Some(d)
       || ParseDayMonYy(Upper(s)) == Some(d) || ParseSlash(s) == Some(d))
  {
    if ParseCompact(s).Some? { CompactExcludesOthers(s); }
    if ParseIso(BeforeT(s)).Some? { IsoExcludesLater(s); }
    if ParseDayMonYy(Upper(s)).Some? { DayMonYyExcludesSlash(s); }
  }

  // ---------------------------------------------------------------------------
  // Round trips: each encoding written out from a date reads back as that date.
  // ---------------------------------------------------------------------------

  /** `strftime("%Y%m%d")`. */
  function FormatCompact(d: Date): string
    requires IsValid(d)
  {
    Digits(d.year, 4) + Digits(d.month, 2) + Digits(d.day, 2)
  }

  /** `strftime("%Y-%m-%d")`, i.e. `date.isoformat()`. */
  function FormatIso(d: Date): string
    requires IsValid(d)
  {
    Digits(d.year, 4) + "-" + Digits(d.month, 2) + "-" + Digits(d.day, 2)
  }

  /** `strftime("%d-%b-%y").upper()`, e.g. `15-JUN-25`. */
  function FormatDayMonYy(d: Date): string
    requires IsValid(d)
  {
    Digits(d.day, 2) + "-" + UpperAbbr(d.month) + "-" + Digits(d.year % 100, 2)
  }

  /** `strftime("%m/%d/%Y")`. */
  function FormatSlash(d: Date): string
    requires IsValid(d)
  {
    Digits(d.month, 2) + "/" + Digits(d.day, 2) + "/" + Digits(d.year, 4)
  }

  lemma PowersUsed()
    ensures Pow10(2) == 100 && Pow10(4) == 10000
  {
  }

  lemma CompactRoundTrip(d: Date)
    requires IsValid(d)
    ensures ParseCompact(FormatCompact(d)) == Some(d)
  {
    var s := FormatCompact(d);
    PowersUsed();
    assert s[..4] == Digits(d.year, 4) && s[4..6] == Digits(d.month, 2) && s[6..] == Digits(d.day, 2);
    assert |s| == 8 && AllDigits(s);
    ValueOfDigits(d.year, 4);
    ValueOfDigits(d.month, 2);
    ValueOfDigits(d.day, 2);
  }

  /** Conversely, the only eight-digit text read as `d` is the one written from `d`. */
  lemma CompactCanonical(s: string, d: Date)
    requires ParseCompact(s) == Some(d)
    ensures FormatCompact(d) == s
  {
    var y, m, dd := s[..4], s[4..6], s[6..];
    assert s == y + m + dd;
    assert d.year == Value(y) && d.month == Value(m) && d.day == Value(dd);
    DigitsOfValue(y);
    DigitsOfValue(m);
    DigitsOfValue(dd);
  }

  lemma IsoRoundTrip(d: Date)
    requires IsValid(d)
    ensures ParseIso(FormatIso(d)) == Some(d)
  {
    var s := FormatIso(d);
    PowersUsed();
    assert s[..4] == Digits(d.year, 4) && s[5..7] == Digits(d.month, 2) && s[8..] == Digits(d.day, 2);
    ValueOfDigits(d.year, 4);
    ValueOfDigits(d.month, 2);
    ValueOfDigits(d.day, 2);
  }

  /** Conversely, the only ISO text read as `d` is the one written from `d`. */
  lemma IsoCanonical(s: string, d: Date)
    requires ParseIso(s) == Some(d)
    ensures FormatIso(d) == s
  {
    var y, m, dd := s[..4], s[5..7], s[8..];
    assert s == y + "-" + m + "-" + dd by {
      assert s[4..5] == "-" && s[7..8] == "-";
      assert s == y + s[4..5] + m + s[7..8] + dd;
    }
    assert d.year == Value(y) && d.month == Value(m) && d.day == Value(dd);
    DigitsOfValue(y);
    DigitsOfValue(m);
    DigitsOfValue(dd);
  }

  /**
   The two-digit year reads back only inside the pivot window 1969-2068:
   `31-DEC-68` is 2068 but `01-JAN-69` is 1969.
   */
  lemma DayMonYyRoundTrip(d: Date)
    requires IsValid(d) && 1969 <= d.year <= 2068
    ensures ParseDayMonYy(FormatDayMonYy(d)) == Some(d)
  {
    var dd, abbr, yy := Digits(d.day, 2), UpperAbbr(d.month), Digits(d.year % 100, 2);
    assert DayToken(dd) == Some(d.day) by { DayOfDigits(d.day); }
    assert MonthOfAbbr(abbr) == Some(d.month) by { UpperAbbrParses(d.month); }
    assert PivotYear(Value(yy)) == d.year by {
      PowersUsed();
      ValueOfDigits(d.year % 100, 2);
    }
    DayMonYyReads(dd, abbr, yy, d);
  }

  /** How the day-month-year parser reads a text whose three parts are each accepted. */
  lemma DayMonYyReads(dd: string, abbr: string, yy: string, d: Date)
    requires |dd| == 2 && AllDigits(dd) && |abbr| == 3 && |yy| == 2 && AllDigits(yy)
    requires DayToken(dd) == Some(d.day) && MonthOfAbbr(abbr) == Some(d.month)
    requires PivotYear(Value(yy)) == d.year && IsValid(d)
    ensures ParseDayMonYy(dd + "-" + abbr + "-" + yy) == Some(d)
  {
    var s := dd + "-" + abbr + "-" + yy;
    assert s[0] == dd[0] && s[1] == dd[1] && s[2] == '-';
    assert IndexOf(s, '-') == 2;
    assert s[..2] == dd && s[3..6] == abbr && s[7..] == yy;
  }

  /** A two-digit day of month is accepted by `%d`. */
  lemma DayOfDigits(day: int)
    requires 1 <= day <= 31
    ensures DayToken(Digits(day, 2)) == Some(day)
  {
    PowersUsed();
    ValueOfDigits(day, 2);
  }

  lemma SlashRoundTrip(d: Date)
    requires IsValid(d)
    ensures ParseSlash(FormatSlash(d)) == Some(d)
  {
    var s := FormatSlash(d);
    PowersUsed();
    assert s[..2] == Digits(d.month, 2);
    assert s[0] == Digits(d.month, 2)[0] && s[1] == Digits(d.month, 2)[1] && s[2] == '/';
    assert IndexOf(s, '/') == 2;
    var rest := s[3..];
    assert rest[..2] == Digits(d.day, 2);
    assert rest[0] == Digits(d.day, 2)[0] && rest[1] == Digits(d.day, 2)[1] && rest[2] == '/';
    assert IndexOf(rest, '/') == 2;
    assert rest[3..] == Digits(d.year, 4);
    ValueOfDigits(d.month, 2);
    ValueOfDigits(d.day, 2);
    ValueOfDigits(d.year, 4);
  }

  /** The four encodings start and end with a digit, so stripping leaves them alone. */
  lemma EncodingsUnpadded(d: Date)
    requires IsValid(d)
    ensures Strip(FormatCompact(d)) == FormatCompact(d)
    ensures Strip(FormatIso(d)) == FormatIso(d)
    ensures Strip(FormatDayMonYy(d)) == FormatDayMonYy(d)
    ensures Strip(FormatSlash(d)) == FormatSlash(d)
  {
    var c, i, y, s := FormatCompact(d), FormatIso(d), FormatDayMonYy(d), FormatSlash(d);
    assert c[0] == Digits(d.year, 4)[0] && c[|c| - 1] == Digits(d.day, 2)[1];
    StripUnpadded(c);
    assert i[0] == Digits(d.year, 4)[0] && i[|i| - 1] == Digits(d.day, 2)[1];
    StripUnpadded(i);
    assert y[0] == Digits(d.day, 2)[0] && y[|y| - 1] == Digits(d.year % 100, 2)[1];
    StripUnpadded(y);
    assert s[0] == Digits(d.month, 2)[0] && s[|s| - 1] == Digits(d.year, 4)[3];
    StripUnpadded(s);
  }

  /** An ISO date has no `T`, so a timestamp's text before the first `T` is its date. */
  lemma IsoBeforeT(d: Date, time: string)
    requires IsValid(d) && (time == "" || time[0] == 'T')
    ensures BeforeT(FormatIso(d) + time) == FormatIso(d)
  {
    var iso := FormatIso(d);
    var s := iso + time;
    assert 'T' !in iso by {
      forall k | 0 <= k < |iso| ensures iso[k] == '-' || '0' <= iso[k] <= '9' {
        if k < 4 { assert iso[k] == Digits(d.year, 4)[k]; }
        else if 4 < k < 7 { assert iso[k] == Digits(d.month, 2)[k - 5]; }
        else if 7 < k { assert iso[k] == Digits(d.day, 2)[k - 8]; }
      }
    }
    assert IndexOf(s, 'T') == |iso| by {
      assert forall k :: 0 <= k < |iso| ==> s[k] == iso[k];
      assert |iso| == |s| || s[|iso|] == 'T';
    }
  }

  /** The day-month-year encoding is already upper case. */
  lemma DayMonYyUpper(d: Date)
    requires IsValid(d)
    ensures Upper(FormatDayMonYy(d)) == FormatDayMonYy(d)
  {
    var dd, abbr, yy := Digits(d.day, 2), UpperAbbr(d.month), Digits(d.year % 100, 2);
    UpperAppend(dd + "-" + abbr + "-", yy);
    UpperAppend(dd + "-" + abbr, "-");
    UpperAppend(dd + "-", abbr);
    UpperAppend(dd, "-");
    UpperAbbrLetters(d.month);
  }

  /** All four encodings of one date normalise to that date. */
  lemma NormalizeRoundTrips(d: Date)
    requires IsValid(d)
    ensures Normalize(FormatCompact(d)) == Some(d)
    ensures Normalize(FormatIso(d)) == Some(d)
    ensures 1969 <= d.year <= 2068 ==> Normalize(FormatDayMonYy(d)) == Some(d)
    ensures Normalize(FormatSlash(d)) == Some(d)
  {
    CompactRoundTrip(d);
    var iso := FormatIso(d);
    IsoRoundTrip(d);
    IsoBeforeT(d, "");
    assert iso + "" == iso;
    NormalizeIsTheMatchingEncoding(iso, d);
    if 1969 <= d.year <= 2068 {
      DayMonYyRoundTrip(d);
      DayMonYyUpper(d);
      NormalizeIsTheMatchingEncoding(FormatDayMonYy(d), d);
    }
    SlashRoundTrip(d);
    NormalizeIsTheMatchingEncoding(FormatSlash(d), d);
  }

  // ---------------------------------------------------------------------------
  // Month keys and labels
  // ---------------------------------------------------------------------------

  /** Sort key of a month: months in calendar order have increasing ranks. */
  function MonthRank(ym: YearMonth): real {
    (ym.year * 12 + ym.month) as real
  }

  /**
   Ranks order valid months chronologically, which for four-digit years is
   also the order of their `"%Y-%m"` texts.
   */
  lemma MonthRankChronological(a: YearMonth, b: YearMonth)
    requires 1 <= a.month <= 12 && 1 <= b.month <= 12
    ensures MonthRank(a) < MonthRank(b) <==> a.year < b.year || (a.year == b.year && a.month < b.month)
    ensures MonthRank(a) == MonthRank(b) <==> a == b
  {
  }

  /** `strftime("%b %y")`, e.g. `Jun 25`: the monthly chart label. */
  function MonthLabel(ym: YearMonth): string
    requires 1 <= ym.month <= 12
  {
    MonthAbbr(ym.month) + " " + Digits(ym.year % 100, 2)
  }

  /** `strftime("%b '%y")`, e.g. `Jun '25`: the peak-month label. */
  function PeakLabel(ym: YearMonth): string
    requires 1 <= ym.month <= 12
  {
    MonthAbbr(ym.month) + " '" + Digits(ym.year % 100, 2)
  }

  /**
   Two months share a chart label exactly when they are the same calendar
   month of years a multiple of 100 apart.
   */
  lemma MonthLabelIdentifies(a: YearMonth, b: YearMonth)
    requires 1 <= a.month <= 12 && 1 <= b.month <= 12
    ensures MonthLabel(a) == MonthLabel(b) <==> a.month == b.month && a.year % 100 == b.year % 100
  {
    if MonthLabel(a) == MonthLabel(b) {
      assert MonthLabel(a)[..3] == MonthAbbr(a.month);
      assert MonthLabel(b)[..3] == MonthAbbr(b.month);
      assert a.month == b.month;
      assert MonthLabel(a)[4..] == Digits(a.year % 100, 2);
      assert MonthLabel(b)[4..] == Digits(b.year % 100, 2);
      PowersUsed();
      ValueOfDigits(a.year % 100, 2);
      ValueOfDigits(b.year % 100, 2);
    }
  }
}
