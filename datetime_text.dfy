/**
 * Reading and writing the timestamp layout `%d-%m-%Y %I:%M %p`
 * (day-month-year, then a 12-hour clock time and an AM/PM marker).
 *
 * `Parse` follows the matcher that Python's `strptime` builds for that layout, which is
 * what a pandas `to_datetime` call with this `format` applies to each string:
 *   - `%d` matches `3[01] | [12]\d | 0[1-9] | [1-9] | " "[1-9]`,
 *   - `%m` and `%I` match `1[0-2] | 0[1-9] | [1-9]`,
 *   - `%M` matches `[0-5]\d | \d`, and `%Y` exactly four digits,
 *   - every run of whitespace in the layout matches one or more whitespace characters,
 *   - `%p` matches `am` or `pm` in any letter case,
 *   - the whole string must be consumed.
 * The matched numbers then become a date only when the day exists in that month of
 * that year and the year is at least 1; 12 AM is hour 0 and 12 PM is hour 12.
 */
module DateTimeText {
  import opened Wrappers
  import opened Calendar

  predicate IsDigit(c: char) {
    '0' <= c <= '9'
  }

  predicate IsNonZeroDigit(c: char) {
    '1' <= c <= '9'
  }

  function DigitValue(c: char): int
    requires IsDigit(c)
  {
    c as int - '0' as int
  }

  /** The characters that `\s` matches in a Python string pattern. */
  predicate IsSpace(c: char) {
    ('\t' <= c <= '\r') || ('\U{1C}' <= c <= ' ') || c == '\U{85}' || c == '\U{A0}'
    || c == '\U{1680}' || ('\U{2000}' <= c <= '\U{200A}') || c == '\U{2028}' || c == '\U{2029}'
    || c == '\U{202F}' || c == '\U{205F}' || c == '\U{3000}'
  }

  // ---------------------------------------------------------------------------
  // The fields of the layout

  /** `%d`: `3[01] | [12]\d | 0[1-9] | [1-9] | " "[1-9]` */
  predicate IsDayText(t: string) {
    (|t| == 2 && ((t[0] == '3' && (t[1] == '0' || t[1] == '1'))
               || ((t[0] == '1' || t[0] == '2') && IsDigit(t[1]))
               || ((t[0] == '0' || t[0] == ' ') && IsNonZeroDigit(t[1]))))
    || (|t| == 1 && IsNonZeroDigit(t[0]))
  }

  /** `%m` and `%I`: `1[0-2] | 0[1-9] | [1-9]` */
  predicate IsUpToTwelveText(t: string) {
    (|t| == 2 && ((t[0] == '1' && '0' <= t[1] <= '2') || (t[0] == '0' && IsNonZeroDigit(t[1]))))
    || (|t| == 1 && IsNonZeroDigit(t[0]))
  }

  /** `%M`: `[0-5]\d | \d` */
  predicate IsMinuteText(t: string) {
    (|t| == 2 && '0' <= t[0] <= '5' && IsDigit(t[1]))
    || (|t| == 1 && IsDigit(t[0]))
  }

  /** `%Y`: four digits. */
  predicate IsYearText(t: string) {
    |t| == 4 && IsDigit(t[0]) && IsDigit(t[1]) && IsDigit(t[2]) && IsDigit(t[3])
  }

  /** `%p`: `am` or `pm`, in any letter case. */
  predicate IsMarkerText(t: string) {
    |t| == 2 && (t[0] in "aApP") && (t[1] in "mM")
  }

  /** One or two digits, possibly after one space, as Python's `int` reads them. */
  predicate IsNumeral(t: string) {
    (|t| == 1 && IsDigit(t[0])) || (|t| == 2 && (IsDigit(t[0]) || t[0] == ' ') && IsDigit(t[1]))
  }

  function NumeralValue(t: string): (n: int)
    requires IsNumeral(t)
    ensures 0 <= n < 100
  {
    if |t| == 1 then DigitValue(t[0])
    else if t[0] == ' ' then DigitValue(t[1])
    else 10 * DigitValue(t[0]) + DigitValue(t[1])
  }

  function YearValue(t: string): (n: int)
    requires IsYearText(t)
    ensures 0 <= n < 10000
  {
    1000 * DigitValue(t[0]) + 100 * DigitValue(t[1]) + 10 * DigitValue(t[2]) + DigitValue(t[3])
  }

  /** A one-digit numeral, the same digit after a zero, and after a space all read alike. */
  lemma NumeralPadding(c: char)
    requires IsDigit(c)
    ensures NumeralValue([c]) == NumeralValue(['0', c]) == NumeralValue([' ', c]) == DigitValue(c)
  {
  }

  lemma FieldRanges(t: string)
    ensures IsDayText(t) ==> IsNumeral(t) && 1 <= NumeralValue(t) <= 31
    ensures IsUpToTwelveText(t) ==> IsNumeral(t) && 1 <= NumeralValue(t) <= 12
    ensures IsMinuteText(t) ==> IsNumeral(t) && 0 <= NumeralValue(t) <= 59
  {
  }

  /** The hour on the 24-hour clock for a 12-hour clock reading and its AM/PM marker. */
  function To24Hour(h: int, pm: bool): (hour: int)
    requires 1 <= h <= 12
    ensures 0 <= hour < 24
    ensures hour < 12 <==> !pm
    ensures hour % 12 == h % 12
  {
    if !pm then (if h == 12 then 0 else h)
    else (if h == 12 then 12 else h + 12)
  }

  // ---------------------------------------------------------------------------
  // Matching the layout

  /** The texts the layout's six fields matched, before they are read as numbers. */
  datatype Fields = Fields(day: string, month: string, year: string, hour: string, minute: string, marker: string)

  predicate WellFormed(f: Fields) {
    IsDayText(f.day) && IsUpToTwelveText(f.month) && IsYearText(f.year)
    && IsUpToTwelveText(f.hour) && IsMinuteText(f.minute) && IsMarkerText(f.marker)
  }

  /** A field of one or two characters that ends at the literal `sep`, and what follows `sep`. */
  function FieldBefore(s: string, sep: char): (r: Option<(string, string)>)
    ensures r.Some? ==> 1 <= |r.value.0| <= 2 && s == r.value.0 + [sep] + r.value.1
  {
    if |s| >= 2 && s[1] == sep then Some((s[..1], s[2..]))
    else if |s| >= 3 && s[2] == sep then Some((s[..2], s[3..]))
    else None
  }

  /** A field of one or two characters that ends where whitespace starts, and what follows the whitespace. */
  function FieldBeforeSpaces(s: string): (r: Option<(string, string)>)
    ensures r.Some? ==> 1 <= |r.value.0| <= 2 && |r.value.0| < |s| && IsSpace(s[|r.value.0|])
    ensures r.Some? ==> Spaces(s[|r.value.0|..]) == Some(r.value.1) && r.value.0 == s[..|r.value.0|]
  {
    if |s| >= 2 && IsSpace(s[1]) then Some((s[..1], DropSpaces(s[2..])))
    else if |s| >= 3 && IsSpace(s[2]) then Some((s[..2], DropSpaces(s[3..])))
    else None
  }

  /** `\s+`, taken greedily: drops a nonempty run of whitespace. */
  function Spaces(s: string): (r: Option<string>)
    ensures r.Some? ==> |r.value| < |s| && (r.value == [] || !IsSpace(r.value[0]))
  {
    if |s| > 0 && IsSpace(s[0]) then Some(DropSpaces(s[1..])) else None
  }

  function DropSpaces(s: string): (r: string)
    ensures |r| <= |s| && (r == [] || !IsSpace(r[0]))
  {
    if |s| > 0 && IsSpace(s[0]) then DropSpaces(s[1..]) else s
  }

  /** Matches the whole of `s` against `%d-%m-%Y %I:%M %p`, field by field from the left. */
  function Scan(s: string): (r: Option<Fields>)
    ensures r.Some? ==> WellFormed(r.value)
  {
    var day :- FieldBefore(s, '-');
    if !IsDayText(day.0) then None else ScanMonth(day.0, day.1)
  }

  function ScanMonth(d: string, s: string): (r: Option<Fields>)
    requires IsDayText(d)
    ensures r.Some? ==> WellFormed(r.value)
  {
    var month :- FieldBefore(s, '-');
    if !IsUpToTwelveText(month.0) then None else ScanYear(d, month.0, month.1)
  }

  function ScanYear(d: string, m: string, s: string): (r: Option<Fields>)
    requires IsDayText(d) && IsUpToTwelveText(m)
    ensures r.Some? ==> WellFormed(r.value)
  {
    if |s| < 4 || !IsYearText(s[..4]) then None else
    var rest :- Spaces(s[4..]);
    ScanHour(d, m, s[..4], rest)
  }

  function ScanHour(d: string, m: string, y: string, s: string): (r: Option<Fields>)
    requires IsDayText(d) && IsUpToTwelveText(m) && IsYearText(y)
    ensures r.Some? ==> WellFormed(r.value)
  {
    var hour :- FieldBefore(s, ':');
    if !IsUpToTwelveText(hour.0) then None else ScanMinute(d, m, y, hour.0, hour.1)
  }

  function ScanMinute(d: string, m: string, y: string, h: string, s: string): (r: Option<Fields>)
    requires IsDayText(d) && IsUpToTwelveText(m) && IsYearText(y) && IsUpToTwelveText(h)
    ensures r.Some? ==> WellFormed(r.value)
  {
    var minute :- FieldBeforeSpaces(s);
    if !IsMinuteText(minute.0) || !IsMarkerText(minute.1) then None
    else Some(Fields(d, m, y, h, minute.0, minute.1))
  }

  /** The datetime the matched fields denote, if their date exists. */
  function Convert(f: Fields): (r: Option<DateTime>)
    requires WellFormed(f)
    ensures r.Some? ==> IsValid(r.value) && 1 <= r.value.year <= 9999
    ensures r.None? <==> YearValue(f.year) == 0
                         || NumeralValue(f.day) > DaysInMonth(YearValue(f.year), NumeralValue(f.month))
    ensures r.Some? ==> r.value.year == YearValue(f.year) && r.value.month == NumeralValue(f.month)
                        && r.value.day == NumeralValue(f.day) && r.value.minute == NumeralValue(f.minute)
                        && r.value.hour == To24Hour(NumeralValue(f.hour), f.marker[0] in "pP")
  {
    FieldRanges(f.day);
    FieldRanges(f.month);
    FieldRanges(f.hour);
    FieldRanges(f.minute);
    var year, month, day := YearValue(f.year), NumeralValue(f.month), NumeralValue(f.day);
    if year < 1 || !IsValidDate(year, month, day) then None
    else Some(DateTime(year, month, day,
                       To24Hour(NumeralValue(f.hour), f.marker[0] in "pP"), NumeralValue(f.minute)))
  }

  /** The datetime `s` denotes under the layout, or None where pandas would produce NaT. */
  function Parse(s: string): (r: Option<DateTime>)
    ensures r.Some? ==> IsValid(r.value) && 1 <= r.value.year <= 9999
  {
    var f :- Scan(s);
    Convert(f)
  }

  // ---------------------------------------------------------------------------
  // The strings the layout accepts

  /** Whitespace characters only, possibly none. */
  predicate AllSpace(w: string) {
    forall i :: 0 <= i < |w| ==> IsSpace(w[i])
  }

  /** What `\s+` matches: one or more whitespace characters. */
  predicate IsSpaceRun(w: string) {
    w != [] && AllSpace(w)
  }

  /**
   * The text made of the six field texts, with `-` between the date fields, the run `w1`
   * between the year and the hour, `:` between hour and minute, and the run `w2` before
   * the marker.
   */
  function Layout(f: Fields, w1: string, w2: string): string {
    f.day + "-" + (f.month + "-" + (f.year + w1 + (f.hour + ":" + (f.minute + w2 + f.marker))))
  }

  /**
   * The matcher accepts exactly the layout: it yields `f` precisely for the strings that
   * lay out the well-formed fields `f` with some whitespace runs; every other string,
   * including one with anything left over at either end, is rejected.
   */
  lemma ScanMatchesLayout(s: string, f: Fields)
    ensures Scan(s) == Some(f) <==>
            WellFormed(f) && exists w1, w2 :: IsSpaceRun(w1) && IsSpaceRun(w2) && s == Layout(f, w1, w2)
  {
    if Scan(s) == Some(f) {
      var w1, w2 := ScanSound(s);
    }
    if WellFormed(f) && exists w1, w2 :: IsSpaceRun(w1) && IsSpaceRun(w2) && s == Layout(f, w1, w2) {
      var w1, w2 :| IsSpaceRun(w1) && IsSpaceRun(w2) && s == Layout(f, w1, w2);
      ScanComplete(f, w1, w2);
    }
  }

  /**
   * A string reads as `dt` exactly when it lays out well-formed fields, with any
   * whitespace runs, whose numbers denote `dt`.
   */
  lemma ParseMatchesLayout(s: string, dt: DateTime)
    ensures Parse(s) == Some(dt) <==>
            exists f, w1, w2 :: WellFormed(f) && IsSpaceRun(w1) && IsSpaceRun(w2) && s == Layout(f, w1, w2)
                                && Convert(f) == Some(dt)
  {
    if Parse(s) == Some(dt) {
      var f := Scan(s).value;
      var w1, w2 := ScanSound(s);
      assert Convert(f) == Some(dt);
    }
    if exists f, w1, w2 :: WellFormed(f) && IsSpaceRun(w1) && IsSpaceRun(w2) && s == Layout(f, w1, w2)
                           && Convert(f) == Some(dt) {
      var f, w1, w2 :| WellFormed(f) && IsSpaceRun(w1) && IsSpaceRun(w2) && s == Layout(f, w1, w2)
                       && Convert(f) == Some(dt);
      ScanComplete(f, w1, w2);
    }
  }

  /**
   * Pieces the layout accepts besides the zero-padded form, and pieces it refuses: with
   * `ScanMatchesLayout`, `" 5-6-2024\t 2:15  pm"` reads as 5 June 2024, 14:15, while
   * `"PM "` (trailing whitespace) is no marker and `"150"` no minute.
   */
  lemma LayoutExamples()
    ensures WellFormed(Fields(" 5", "6", "2024", "2", "15", "pm")) && IsSpaceRun("\t ") && IsSpaceRun("  ")
    ensures Convert(Fields(" 5", "6", "2024", "2", "15", "pm")) == Some(DateTime(2024, 6, 5, 14, 15))
    ensures Convert(Fields("1", "1", "2024", "12", "00", "Am")) == Some(DateTime(2024, 1, 1, 0, 0))
    ensures !IsMarkerText("PM ") && !IsMinuteText("150") && !IsSpaceRun("")
  {
  }

  /** Matched fields whose date does not exist: 31 April, 29 February of a common year, year 0. */
  lemma ConvertRejects()
    ensures Convert(Fields("31", "04", "2024", "02", "15", "PM")) == None
    ensures Convert(Fields("29", "02", "2023", "02", "15", "PM")) == None
    ensures Convert(Fields("29", "02", "2024", "02", "15", "PM")).Some?
    ensures Convert(Fields("01", "01", "0000", "02", "15", "PM")) == None
  {
  }

  /** Whatever the matcher accepts is the layout of the fields it returns. */
  lemma ScanSound(s: string) returns (w1: string, w2: string)
    requires Scan(s).Some?
    ensures IsSpaceRun(w1) && IsSpaceRun(w2) && s == Layout(Scan(s).value, w1, w2)
  {
    var d, s1 := FieldBefore(s, '-').value.0, FieldBefore(s, '-').value.1;
    assert IsDayText(d) && Scan(s) == ScanMonth(d, s1);
    w1, w2 := MonthSound(d, s1);
  }

  lemma MonthSound(d: string, s: string) returns (w1: string, w2: string)
    requires IsDayText(d) && ScanMonth(d, s).Some?
    ensures var f := ScanMonth(d, s).value;
            IsSpaceRun(w1) && IsSpaceRun(w2) && f.day == d
            && s == f.month + "-" + (f.year + w1 + (f.hour + ":" + (f.minute + w2 + f.marker)))
  {
    var m, rest := FieldBefore(s, '-').value.0, FieldBefore(s, '-').value.1;
    assert IsUpToTwelveText(m) && ScanMonth(d, s) == ScanYear(d, m, rest);
    w1, w2 := YearSound(d, m, rest);
  }

  lemma YearSound(d: string, m: string, s: string) returns (w1: string, w2: string)
    requires IsDayText(d) && IsUpToTwelveText(m) && ScanYear(d, m, s).Some?
    ensures var f := ScanYear(d, m, s).value;
            IsSpaceRun(w1) && IsSpaceRun(w2) && f.day == d && f.month == m
            && s == f.year + w1 + (f.hour + ":" + (f.minute + w2 + f.marker))
  {
    var y, rest := s[..4], Spaces(s[4..]).value;
    assert IsYearText(y) && ScanYear(d, m, s) == ScanHour(d, m, y, rest);
    w1 := SpacesSplit(s[4..]);
    assert s == y + w1 + rest by {
      assert s == s[..4] + s[4..];
    }
    w2 := HourSound(d, m, y, rest);
  }

  lemma HourSound(d: string, m: string, y: string, s: string) returns (w2: string)
    requires IsDayText(d) && IsUpToTwelveText(m) && IsYearText(y) && ScanHour(d, m, y, s).Some?
    ensures var f := ScanHour(d, m, y, s).value;
            IsSpaceRun(w2) && f.day == d && f.month == m && f.year == y
            && s == f.hour + ":" + (f.minute + w2 + f.marker)
  {
    var h, rest := FieldBefore(s, ':').value.0, FieldBefore(s, ':').value.1;
    assert IsUpToTwelveText(h) && ScanHour(d, m, y, s) == ScanMinute(d, m, y, h, rest);
    w2 := MinuteSound(d, m, y, h, rest);
  }

  lemma MinuteSound(d: string, m: string, y: string, h: string, s: string) returns (w2: string)
    requires IsDayText(d) && IsUpToTwelveText(m) && IsYearText(y) && IsUpToTwelveText(h)
    requires ScanMinute(d, m, y, h, s).Some?
    ensures var f := ScanMinute(d, m, y, h, s).value;
            IsSpaceRun(w2) && f.day == d && f.month == m && f.year == y && f.hour == h
            && s == f.minute + w2 + f.marker
  {
    var n, p := FieldBeforeSpaces(s).value.0, FieldBeforeSpaces(s).value.1;
    assert ScanMinute(d, m, y, h, s) == Some(Fields(d, m, y, h, n, p));
    w2 := SpacesSplit(s[|n|..]);
    assert s == s[..|n|] + s[|n|..];
  }

  /** The matcher takes apart every layout of well-formed fields. */
  lemma ScanComplete(f: Fields, w1: string, w2: string)
    requires WellFormed(f) && IsSpaceRun(w1) && IsSpaceRun(w2)
    ensures Scan(Layout(f, w1, w2)) == Some(f)
  {
    ScanUpToMinute(f.day, f.month, f.year, f.hour, w1, f.minute + w2 + f.marker);
    MinuteComplete(f.minute, w2, f.marker);
  }

  /**
   * Once the day, month, year and hour have matched, what follows the `:` alone decides
   * the outcome.
   */
  lemma ScanUpToMinute(d: string, m: string, y: string, h: string, w1: string, tail: string)
    requires IsDayText(d) && IsUpToTwelveText(m) && IsYearText(y) && IsUpToTwelveText(h) && IsSpaceRun(w1)
    ensures Scan(d + "-" + (m + "-" + (y + w1 + (h + ":" + tail)))) == ScanMinute(d, m, y, h, tail)
  {
    var s3 := h + ":" + tail;
    var s2 := y + w1 + s3;
    var s1 := m + "-" + s2;
    FieldBeforeComplete(h, ':', tail);
    assert s3[0] == h[0];
    YearComplete(y, w1, s3);
    assert ScanYear(d, m, s2) == ScanMinute(d, m, y, h, tail);
    FieldBeforeComplete(m, '-', s2);
    FieldBeforeComplete(d, '-', s1);
  }

  lemma FieldBeforeComplete(t: string, sep: char, rest: string)
    requires 1 <= |t| <= 2 && (|t| == 2 ==> t[1] != sep)
    ensures FieldBefore(t + [sep] + rest, sep) == Some((t, rest))
  {
    var s := t + [sep] + rest;
    if |t| == 1 {
      assert s[1] == sep && s[..1] == t && s[2..] == rest;
    } else {
      assert s[1] == t[1] && s[2] == sep;
      assert s[..2] == t && s[3..] == rest;
    }
  }

  lemma MinuteComplete(n: string, w: string, p: string)
    requires IsMinuteText(n) && IsSpaceRun(w) && (p == [] || !IsSpace(p[0]))
    ensures FieldBeforeSpaces(n + w + p) == Some((n, p))
  {
    var s := n + w + p;
    var k := |n|;
    assert s[k] == w[0];
    if k == 2 {
      assert s[1] == n[1];
    }
    assert s[..k] == n;
    assert s[k + 1..] == w[1..] + p;
    DropSpacesRun(w[1..], p);
  }

  lemma YearComplete(y: string, w: string, rest: string)
    requires |y| == 4 && IsSpaceRun(w) && rest != [] && !IsSpace(rest[0])
    ensures var s := y + w + rest; s[..4] == y && Spaces(s[4..]) == Some(rest)
  {
    var s := y + w + rest;
    assert s[..4] == y && s[4..] == w + rest;
    assert (w + rest)[0] == w[0] && (w + rest)[1..] == w[1..] + rest;
    DropSpacesRun(w[1..], rest);
  }

  /** Dropping whitespace from a run of whitespace followed by non-whitespace leaves the rest. */
  lemma {:induction false} DropSpacesRun(w: string, t: string)
    requires AllSpace(w) && (t == [] || !IsSpace(t[0]))
    ensures DropSpaces(w + t) == t
    decreases |w|
  {
    if w == [] {
      assert w + t == t;
    } else {
      assert (w + t)[0] == w[0] && (w + t)[1..] == w[1..] + t;
      assert AllSpace(w[1..]) by {
        forall i | 0 <= i < |w[1..]| ensures IsSpace(w[1..][i]) {
          assert w[1..][i] == w[i + 1];
        }
      }
      DropSpacesRun(w[1..], t);
    }
  }

  /** What `DropSpaces` removes is a run of whitespace in front of what it keeps. */
  lemma {:induction false} DropSpacesSplit(s: string) returns (w: string)
    ensures AllSpace(w) && s == w + DropSpaces(s)
    decreases |s|
  {
    if |s| > 0 && IsSpace(s[0]) {
      var w' := DropSpacesSplit(s[1..]);
      w := [s[0]] + w';
      assert s == [s[0]] + s[1..];
      assert [s[0]] + (w' + DropSpaces(s[1..])) == w + DropSpaces(s[1..]);
      assert forall i :: 1 <= i < |w| ==> w[i] == w'[i - 1];
    } else {
      w := [];
      assert s == [] + s;
    }
  }

  lemma SpacesSplit(s: string) returns (w: string)
    requires Spaces(s).Some?
    ensures IsSpaceRun(w) && s == w + Spaces(s).value
  {
    var w' := DropSpacesSplit(s[1..]);
    w := [s[0]] + w';
    assert s == [s[0]] + s[1..];
    assert [s[0]] + (w' + DropSpaces(s[1..])) == w + DropSpaces(s[1..]);
    assert forall i :: 1 <= i < |w| ==> w[i] == w'[i - 1];
  }

  // ---------------------------------------------------------------------------
  // Writing the layout, and reading back what was written

  function DigitChar(n: int): (c: char)
    requires 0 <= n < 10
    ensures IsDigit(c) && DigitValue(c) == n
  {
    ('0' as int + n) as char
  }

  /** Two digits, zero-padded. */
  function Pad2(n: int): (t: string)
    requires 0 <= n < 100
    ensures IsNumeral(t) && |t| == 2 && NumeralValue(t) == n
  {
    [DigitChar(n / 10), DigitChar(n % 10)]
  }

  /** Four digits, zero-padded. */
  function Pad4(n: int): (t: string)
    requires 0 <= n < 10000
    ensures IsYearText(t) && YearValue(t) == n
  {
    var tens := n / 10;
    var hundreds := tens / 10;
    [DigitChar(hundreds / 10), DigitChar(hundreds % 10), DigitChar(tens % 10), DigitChar(n % 10)]
  }

  /** The 12-hour clock reading of a 24-hour clock hour. */
  function To12Hour(hour: int): (h: int)
    requires 0 <= hour < 24
    ensures 1 <= h <= 12 && To24Hour(h, hour >= 12) == hour
  {
    if hour % 12 == 0 then 12 else hour % 12
  }

  /** The `date` text of a reading, `DD-MM-YYYY`. */
  function FormatDate(dt: DateTime): string
    requires IsValid(dt) && 1 <= dt.year <= 9999
  {
    Pad2(dt.day) + "-" + Pad2(dt.month) + "-" + Pad4(dt.year)
  }

  /** The `time` text of a reading, `hh:mm AM` or `hh:mm PM`. */
  function FormatTime(dt: DateTime): string
    requires IsValid(dt)
  {
    Pad2(To12Hour(dt.hour)) + ":" + Pad2(dt.minute) + " " + (if dt.hour >= 12 then "PM" else "AM")
  }

  lemma PaddedFields(dt: DateTime)
    requires IsValid(dt) && 1 <= dt.year <= 9999
    ensures IsDayText(Pad2(dt.day)) && IsUpToTwelveText(Pad2(dt.month))
    ensures IsUpToTwelveText(Pad2(To12Hour(dt.hour))) && IsMinuteText(Pad2(dt.minute))
  {
  }

  lemma LayoutOfFormatted(dt: DateTime)
    requires IsValid(dt) && 1 <= dt.year <= 9999
    ensures FormatDate(dt) + " " + FormatTime(dt)
            == Layout(Fields(Pad2(dt.day), Pad2(dt.month), Pad4(dt.year), Pad2(To12Hour(dt.hour)), Pad2(dt.minute),
                             if dt.hour >= 12 then "PM" else "AM"), " ", " ")
  {
  }

  /**
   * Every valid datetime of years 1 to 9999, written in the layout the readings use,
   * parses back to itself.
   */
  lemma ParseFormatted(dt: DateTime)
    requires IsValid(dt) && 1 <= dt.year <= 9999
    ensures Parse(FormatDate(dt) + " " + FormatTime(dt)) == Some(dt)
  {
    var d, m, y := Pad2(dt.day), Pad2(dt.month), Pad4(dt.year);
    var h, n := Pad2(To12Hour(dt.hour)), Pad2(dt.minute);
    var p := if dt.hour >= 12 then "PM" else "AM";
    PaddedFields(dt);
    var f := Fields(d, m, y, h, n, p);
    assert IsSpaceRun(" ");
    ScanComplete(f, " ", " ");
    assert (p[0] in "pP") == (dt.hour >= 12);
    assert Convert(f) == Some(dt);
    LayoutOfFormatted(dt);
  }
}
