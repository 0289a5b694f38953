/**
 * The due-date normaliser at the top of `add_task` (main.py:63-76): an
 * optional user string becomes an optional `due_string` for the store.
 *
 * The format test is `datetime.strptime(due_date, '%d-%m-%Y')`. CPython's
 * `_strptime` turns that format into the regular expression
 *   day   `3[01]|[12]\d|0[1-9]|[1-9]| [1-9]`
 *   month `1[0-2]|0[1-9]|[1-9]`
 *   year  `\d\d\d\d`
 * joined by literal dashes, demands that the match cover the whole string,
 * and then builds `date(year, month, day)`, which refuses a day beyond the
 * end of the month and the year 0. `ParseDate` computes that; `StrptimeAccepts`
 * states it declaratively and `ParseDateMatchesStrptime` connects the two.
 */
module DueDate {
  import opened Wrappers
  import opened Text

  datatype Date = Date(day: nat, month: nat, year: nat)

  /** Proleptic Gregorian leap years, as Python's `datetime` uses. */
  predicate IsLeapYear(year: nat) {
    year % 4 == 0 && (year % 100 != 0 || year % 400 == 0)
  }

  function DaysInMonth(month: nat, year: nat): (n: nat)
    requires 1 <= month <= 12
    ensures 28 <= n <= 31
    ensures n == 29 <==> month == 2 && IsLeapYear(year)
  {
    if month == 2 then (if IsLeapYear(year) then 29 else 28)
    else if month == 4 || month == 6 || month == 9 || month == 11 then 30
    else 31
  }

  /** What `date(year, month, day)` accepts (years stop at 9999, as four digits do). */
  predicate IsCalendarDate(d: Date) {
    1 <= d.year <= 9999 && 1 <= d.month <= 12 && 1 <= d.day <= DaysInMonth(d.month, d.year)
  }

  predicate IsNonZeroDigit(c: char) {
    '1' <= c <= '9'
  }

  /** Text matched by the `%d` pattern. */
  predicate IsDayText(t: string) {
    || (|t| == 1 && IsNonZeroDigit(t[0]))
    || (|t| == 2 &&
         (|| (t[0] == '3' && (t[1] == '0' || t[1] == '1'))
          || ((t[0] == '1' || t[0] == '2') && IsDigit(t[1]))
          || (t[0] == '0' && IsNonZeroDigit(t[1]))
          || (t[0] == ' ' && IsNonZeroDigit(t[1]))))
  }

  /** Text matched by the `%m` pattern. */
  predicate IsMonthText(t: string) {
    || (|t| == 1 && IsNonZeroDigit(t[0]))
    || (|t| == 2 &&
         (|| (t[0] == '1' && '0' <= t[1] <= '2')
          || (t[0] == '0' && IsNonZeroDigit(t[1]))))
  }

  /** Text matched by the `%Y` pattern. */
  predicate IsYearText(t: string) {
    |t| == 4 && AllDigits(t)
  }

  /** `int()` of a matched field; `int(' 7')` ignores the leading space. */
  function FieldValue(t: string): nat
    requires IsDayText(t) || IsMonthText(t) || IsYearText(t)
  {
    if t[0] == ' ' then DigitValue(t[1]) else DecimalValue(t)
  }

  /** The date that the dashes at `i` and `j` cut `s` into, when each piece matches its field. */
  predicate AcceptedAt(s: string, i: int, j: int)
    requires 0 <= i < j < |s|
  {
    && s[i] == '-' && s[j] == '-'
    && IsDayText(s[..i]) && IsMonthText(s[i + 1..j]) && IsYearText(s[j + 1..])
    && IsCalendarDate(Date(FieldValue(s[..i]), FieldValue(s[i + 1..j]), FieldValue(s[j + 1..])))
  }

  /** `strptime(s, '%d-%m-%Y')` returns without raising `ValueError`. */
  ghost predicate StrptimeAccepts(s: string) {
    exists i, j | 0 <= i < j < |s| :: AcceptedAt(s, i, j)
  }

  /** The three pieces of `s` around its first two dashes, if it has two. */
  function DashFields(s: string): (r: Option<(string, string, string)>)
    ensures r.Some? ==> s == r.value.0 + "-" + r.value.1 + "-" + r.value.2
    ensures r.Some? ==> '-' !in r.value.0 && '-' !in r.value.1
  {
    if '-' !in s then None
    else
      var i := IndexOf(s, '-');
      var rest := s[i + 1..];
      if '-' !in rest then None
      else
        var j := IndexOf(rest, '-');
        assert s == s[..i] + "-" + rest[..j] + "-" + rest[j + 1..];
        Some((s[..i], rest[..j], rest[j + 1..]))
  }

  /** Splitting at any two dashes with none before them finds those pieces. */
  lemma DashFieldsAt(s: string, a: string, b: string, c: string)
    requires s == a + "-" + b + "-" + c && '-' !in a && '-' !in b
    ensures DashFields(s) == Some((a, b, c))
  {
    assert s[..|a|] == a;
    IndexOfIsFirst(s, '-', |a|);
    var rest := s[|a| + 1..];
    assert rest == b + "-" + c;
    assert rest[..|b|] == b;
    IndexOfIsFirst(rest, '-', |b|);
    assert rest[|b| + 1..] == c;
  }

  /** The date that matched day, month and year texts denote, if it exists. */
  function ReadDate(dayText: string, monthText: string, yearText: string): (r: Option<Date>)
    ensures r.Some? ==> IsCalendarDate(r.value)
  {
    if !(IsDayText(dayText) && IsMonthText(monthText) && IsYearText(yearText)) then None
    else
      var d := Date(FieldValue(dayText), FieldValue(monthText), FieldValue(yearText));
      if IsCalendarDate(d) then Some(d) else None
  }

  /** The date `strptime(s, '%d-%m-%Y')` reads, or `None` where it raises `ValueError`. */
  function ParseDate(s: string): (r: Option<Date>)
    ensures r.Some? ==> IsCalendarDate(r.value)
  {
    match DashFields(s)
    case None => None
    case Some((dayText, monthText, yearText)) => ReadDate(dayText, monthText, yearText)
  }

  lemma DayTextHasNoDash(t: string)
    requires IsDayText(t) || IsMonthText(t)
    ensures '-' !in t
  {
  }

  lemma AcceptedAtFields(s: string, i: int, j: int)
    requires 0 <= i < j < |s| && s[i] == '-' && s[j] == '-'
    ensures s == s[..i] + "-" + s[i + 1..j] + "-" + s[j + 1..]
  {
  }

  /** Whatever `ParseDate` reads, `strptime` accepts, at the first two dashes. */
  lemma ParseDateSound(s: string)
    requires ParseDate(s).Some?
    ensures StrptimeAccepts(s)
  {
    var (a, b, c) := DashFields(s).value;
    var i, j := |a|, |a| + 1 + |b|;
    assert s[..i] == a && s[i + 1..j] == b && s[j + 1..] == c;
    assert AcceptedAt(s, i, j);
  }

  /** Whatever `strptime` accepts, `ParseDate` reads, and as the same date. */
  lemma ParseDateComplete(s: string, i: int, j: int)
    requires 0 <= i < j < |s| && AcceptedAt(s, i, j)
    ensures ParseDate(s) == Some(Date(FieldValue(s[..i]), FieldValue(s[i + 1..j]), FieldValue(s[j + 1..])))
  {
    DayTextHasNoDash(s[..i]);
    DayTextHasNoDash(s[i + 1..j]);
    AcceptedAtFields(s, i, j);
    DashFieldsAt(s, s[..i], s[i + 1..j], s[j + 1..]);
  }

  /** `ParseDate` succeeds exactly on the strings `strptime` accepts. */
  lemma ParseDateMatchesStrptime(s: string)
    ensures ParseDate(s).Some? <==> StrptimeAccepts(s)
  {
    if ParseDate(s).Some? {
      ParseDateSound(s);
    }
    if StrptimeAccepts(s) {
      var i, j :| 0 <= i < j < |s| && AcceptedAt(s, i, j);
      ParseDateComplete(s, i, j);
    }
  }

  /** A number below 100 as two digits, zero-padded like `%d` and `%m` in `strftime`. */
  function Pad2(n: nat): (t: string)
    requires n < 100
    ensures |t| == 2 && AllDigits(t)
  {
    [DigitChar(n / 10), DigitChar(n % 10)]
  }

  /** A number below 10000 as four digits, like `%Y` in `strftime`. */
  function Pad4(n: nat): (t: string)
    requires n < 10000
    ensures |t| == 4 && AllDigits(t)
  {
    [DigitChar(n / 1000), DigitChar(n / 100 % 10), DigitChar(n / 10 % 10), DigitChar(n % 10)]
  }

  /** `DD-MM-YYYY` with every field zero-padded, as `strftime('%d-%m-%Y')` writes a date. */
  function FormatDate(d: Date): (s: string)
    requires IsCalendarDate(d)
    ensures |s| == 10
  {
    Pad2(d.day) + "-" + Pad2(d.month) + "-" + Pad4(d.year)
  }

  lemma TwoDigitValue(t: string)
    requires |t| == 2 && AllDigits(t)
    ensures DecimalValue(t) == 10 * DigitValue(t[0]) + DigitValue(t[1])
  {
    var p := t[..1];
    assert p[..0] == [] && p[0] == t[0];
    assert DecimalValue(p) == DigitValue(t[0]);
    assert t[..|t| - 1] == p;
  }

  lemma FourDigitValue(t: string)
    requires |t| == 4 && AllDigits(t)
    ensures DecimalValue(t) == 1000 * DigitValue(t[0]) + 100 * DigitValue(t[1]) + 10 * DigitValue(t[2]) + DigitValue(t[3])
  {
    TwoDigitValue(t[..2]);
    var p := t[..3];
    assert p[..2] == t[..2] && p[2] == t[2];
    assert DecimalValue(p) == DecimalValue(t[..2]) * 10 + DigitValue(t[2]);
    assert t[..|t| - 1] == p;
  }

  /** A padded day of the month matches `%d` and reads back as itself. */
  lemma PaddedDay(n: nat)
    requires 1 <= n <= 31
    ensures IsDayText(Pad2(n)) && FieldValue(Pad2(n)) == n
  {
    TwoDigitValue(Pad2(n));
  }

  /** A padded month matches `%m` and reads back as itself. */
  lemma PaddedMonth(n: nat)
    requires 1 <= n <= 12
    ensures IsMonthText(Pad2(n)) && FieldValue(Pad2(n)) == n
  {
    TwoDigitValue(Pad2(n));
  }

  /** A padded year matches `%Y` and reads back as itself. */
  lemma PaddedYear(n: nat)
    requires n < 10000
    ensures IsYearText(Pad4(n)) && FieldValue(Pad4(n)) == n
  {
    FourDigitValue(Pad4(n));
    assert n / 100 == 10 * (n / 1000) + n / 100 % 10;
    assert n / 10 == 10 * (n / 100) + n / 10 % 10;
    assert n == 10 * (n / 10) + n % 10;
  }

  /** Every calendar date, written zero-padded, is read back as itself. */
  lemma ParseFormattedDate(d: Date)
    requires IsCalendarDate(d)
    ensures ParseDate(FormatDate(d)) == Some(d)
  {
    DashFieldsAt(FormatDate(d), Pad2(d.day), Pad2(d.month), Pad4(d.year));
    PaddedDay(d.day);
    PaddedMonth(d.month);
    PaddedYear(d.year);
  }

  const Today := "today"
  const Tomorrow := "tomorrow"

  /** The `due_string` `add_task` sends for the optional `due_date` it was given. */
  function Normalize(dueDate: Option<string>): (r: Option<string>)
    ensures r.Some? ==> dueDate.Some? && dueDate.value != ""
    ensures r.Some? ==> r.value == dueDate.value || r.value == Lower(dueDate.value)
  {
    match dueDate
    case None => None
    case Some(raw) =>
      if raw == "" then None
      else if Lower(raw) == Today then Some(Today)
      else if Lower(raw) == Tomorrow then Some(Tomorrow)
      else if ParseDate(raw).Some? then Some(raw)
      else None
  }

  /** A date string never reads as a keyword: it has dashes and the keywords do not. */
  lemma DatesAreNotKeywords(s: string)
    requires ParseDate(s).Some?
    ensures Lower(s) != Today && Lower(s) != Tomorrow
  {
    var i := IndexOf(s, '-');
    assert Lower(s)[i] == '-';
  }

  /** Absent or empty input gives no due string. */
  lemma NormalizeAbsent(dueDate: Option<string>)
    requires dueDate == None || dueDate == Some("")
    ensures Normalize(dueDate) == None
  {
  }

  /** `today` and `tomorrow`, in any letter case and only they, give the lower-case keyword. */
  lemma NormalizeKeywords(raw: string)
    ensures Normalize(Some(raw)) == Some(Today) <==> Lower(raw) == Today
    ensures Normalize(Some(raw)) == Some(Tomorrow) <==> Lower(raw) == Tomorrow
  {
    if ParseDate(raw).Some? {
      DatesAreNotKeywords(raw);
      var i := IndexOf(raw, '-');
      assert raw[i] == '-';
      assert Today[..] == "today" && Tomorrow[..] == "tomorrow";
      assert '-' !in Today && '-' !in Tomorrow;
    }
  }

  /**
   * Anything else is passed through byte for byte exactly when `strptime`
   * accepts it, and dropped otherwise; no input makes normalisation fail.
   */
  lemma NormalizeOtherText(raw: string)
    requires raw != "" && Lower(raw) != Today && Lower(raw) != Tomorrow
    ensures StrptimeAccepts(raw) ==> Normalize(Some(raw)) == Some(raw)
    ensures !StrptimeAccepts(raw) ==> Normalize(Some(raw)) == None
  {
    ParseDateMatchesStrptime(raw);
  }

  /** A zero-padded calendar date is forwarded unchanged. */
  lemma NormalizeForwardsDates(d: Date)
    requires IsCalendarDate(d)
    ensures Normalize(Some(FormatDate(d))) == Some(FormatDate(d))
  {
    ParseFormattedDate(d);
    DatesAreNotKeywords(FormatDate(d));
  }

  /** Keywords are recognised in any letter case. */
  lemma NormalizeKeywordExamples()
    ensures Normalize(Some("TOMORROW")) == Some(Tomorrow)
    ensures Normalize(Some("Today")) == Some(Today)
  {
    assert Lower("TOMORROW") == Tomorrow;
    assert Lower("Today") == Today;
  }

  /** Text that `strptime` reads is forwarded unchanged. */
  lemma NormalizeKeepsDates(raw: string)
    requires ParseDate(raw).Some?
    ensures Normalize(Some(raw)) == Some(raw)
  {
    DatesAreNotKeywords(raw);
  }

  /** The documented example of a padded date. */
  lemma ParseDateExample()
    ensures ParseDate("25-12-2025") == Some(Date(25, 12, 2025))
  {
    assert FormatDate(Date(25, 12, 2025)) == "25-12-2025";
    ParseFormattedDate(Date(25, 12, 2025));
  }

  /** Text with two dashes but no numbers is no date. */
  lemma ParseDateRejectsWords()
    ensures ParseDate("not-a-date") == None
  {
    DashFieldsAt("not-a-date", "not", "a", "date");
  }

  /** `strptime` also takes unpadded fields. */
  lemma ParseDateUnpadded()
    ensures ParseDate("5-1-2025") == Some(Date(5, 1, 2025))
  {
    assert FieldValue("2025") == 2025 by { FourDigitValue("2025"); }
    assert FieldValue("5") == 5 && FieldValue("1") == 1 by { assert "5"[..0] == [] && "1"[..0] == []; }
    assert ReadDate("5", "1", "2025") == Some(Date(5, 1, 2025));
    assert DashFields("5-1-2025") == Some(("5", "1", "2025")) by {
      DashFieldsAt("5-1-2025", "5", "1", "2025");
    }
  }

  /** `strptime` also takes a day written as a space and one digit. */
  lemma ParseDateSpacedDay()
    ensures ParseDate(" 5-01-2025") == Some(Date(5, 1, 2025))
  {
    assert FieldValue("2025") == 2025 by { FourDigitValue("2025"); }
    assert FieldValue("01") == 1 by { TwoDigitValue("01"); }
    assert IsDayText(" 5") && FieldValue(" 5") == 5;
    assert ReadDate(" 5", "01", "2025") == Some(Date(5, 1, 2025));
    assert DashFields(" 5-01-2025") == Some((" 5", "01", "2025")) by {
      DashFieldsAt(" 5-01-2025", " 5", "01", "2025");
    }
  }

  /** 29 February exists in a leap year... */
  lemma ParseDateLeapDay()
    ensures ParseDate("29-02-2024") == Some(Date(29, 2, 2024))
  {
    assert FormatDate(Date(29, 2, 2024)) == "29-02-2024";
    ParseFormattedDate(Date(29, 2, 2024));
  }

  /** ...and not in other years. */
  lemma ParseDateNoLeapDay()
    ensures ParseDate("29-02-2025") == None
  {
    assert FieldValue("2025") == 2025 by { FourDigitValue("2025"); }
    assert FieldValue("29") == 29 by { TwoDigitValue("29"); }
    assert FieldValue("02") == 2 by { TwoDigitValue("02"); }
    assert DashFields("29-02-2025") == Some(("29", "02", "2025")) by {
      DashFieldsAt("29-02-2025", "29", "02", "2025");
    }
  }

  /** A day past the end of a 30-day month is no date. */
  lemma ParseDateDayOutOfRange()
    ensures ParseDate("31-04-2025") == None
  {
    assert FieldValue("2025") == 2025 by { FourDigitValue("2025"); }
    assert FieldValue("31") == 31 by { TwoDigitValue("31"); }
    assert FieldValue("04") == 4 by { TwoDigitValue("04"); }
    assert DashFields("31-04-2025") == Some(("31", "04", "2025")) by {
      DashFieldsAt("31-04-2025", "31", "04", "2025");
    }
  }

  /** The year 0 is no date. */
  lemma ParseDateYearZero()
    ensures ParseDate("01-01-0000") == None
  {
    assert FieldValue("0000") == 0 by { FourDigitValue("0000"); }
    assert FieldValue("01") == 1 by { TwoDigitValue("01"); }
    assert DashFields("01-01-0000") == Some(("01", "01", "0000")) by {
      DashFieldsAt("01-01-0000", "01", "01", "0000");
    }
  }
}
