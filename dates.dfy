/** Calendar dates and timestamps as Python's `datetime.date` and
    `datetime.datetime` hold them, and the two `strptime` formats the
    extractors use: `"%d.%m.%Y"` and `"%d.%m.%Y %H:%M:%S"`. */
module Dates {
  import opened Results
  import opened Text

  datatype Date = Date(year: int, month: int, day: int)

  datatype DateTime = DateTime(date: Date, hour: int, minute: int, second: int)

  predicate IsLeapYear(y: int) {
    y % 4 == 0 && (y % 100 != 0 || y % 400 == 0)
  }

  function DaysInMonth(y: int, m: int): int
    requires 1 <= m <= 12
  {
    if m == 2 then (if IsLeapYear(y) then 29 else 28)
    else if m == 4 || m == 6 || m == 9 || m == 11 then 30
    else 31
  }

  /** The dates `datetime.date` accepts: years 1 to 9999 and an existing day. */
  predicate ValidDate(d: Date) {
    1 <= d.year <= 9999 && 1 <= d.month <= 12 && 1 <= d.day <= DaysInMonth(d.year, d.month)
  }

  predicate ValidDateTime(t: DateTime) {
    ValidDate(t.date) && 0 <= t.hour < 24 && 0 <= t.minute < 60 && 0 <= t.second < 60
  }

  /** Python's date ordering: by year, then month, then day. */
  predicate DateLe(a: Date, b: Date) {
    a.year < b.year || (a.year == b.year && (a.month < b.month || (a.month == b.month && a.day <= b.day)))
  }

  lemma DateLeTotal(a: Date, b: Date)
    ensures DateLe(a, b) || DateLe(b, a)
    ensures DateLe(a, b) && DateLe(b, a) ==> a == b
  {
  }

  /** A `%d` field: one or two digits, or a space and a digit, of value 1 to 31. */
  predicate DayToken(t: string) {
    (1 <= |t| <= 2 && AllDigits(t) && 1 <= DigitsValue(t) <= 31)
    || (|t| == 2 && t[0] == ' ' && IsDigit(t[1]) && t[1] != '0')
  }

  function DayValue(t: string): int
    requires DayToken(t)
  {
    if t[0] == ' ' then t[1] as int - '0' as int else DigitsValue(t)
  }

  /** A `%m` field: one or two digits of value 1 to 12. */
  predicate MonthToken(t: string) {
    1 <= |t| <= 2 && AllDigits(t) && 1 <= DigitsValue(t) <= 12
  }

  /** A `%Y` field: exactly four digits. */
  predicate YearToken(t: string) {
    |t| == 4 && AllDigits(t)
  }

  /** `datetime.strptime(s, "%d.%m.%Y").date()`: the whole text must be the
      three fields separated by dots and must name an existing day;
      otherwise `ValueError` is raised. */
  function ParseDate(s: string): (r: Result<Date>)
    ensures r.Ok? ==> ValidDate(r.value)
    ensures r.Err? ==> r.error == ValueError
  {
    var parts := Split(s, ".");
    if |parts| == 3 && DayToken(parts[0]) && MonthToken(parts[1]) && YearToken(parts[2]) then
      var d := Date(DigitsValue(parts[2]), DigitsValue(parts[1]), DayValue(parts[0]));
      if ValidDate(d) then Ok(d) else Err(ValueError)
    else
      Err(ValueError)
  }

  /** The two-character decimal form of `n` (0 to 99). */
  function TwoDigits(n: nat): string
    requires n < 100
  {
    [('0' as int + n / 10) as char, ('0' as int + n % 10) as char]
  }

  function FourDigits(n: nat): string
    requires n < 10000
  {
    TwoDigits(n / 100) + TwoDigits(n % 100)
  }

  /** A date written `DD.MM.YYYY`, as the school's pages write it. */
  function FormatDate(d: Date): string
    requires ValidDate(d)
  {
    TwoDigits(d.day) + "." + TwoDigits(d.month) + "." + FourDigits(d.year)
  }

  lemma TwoDigitsValue(n: nat)
    requires n < 100
    ensures |TwoDigits(n)| == 2 && AllDigits(TwoDigits(n)) && DigitsValue(TwoDigits(n)) == n
  {
    var t := TwoDigits(n);
    assert t[0] as int - '0' as int == n / 10;
    assert t[1] as int - '0' as int == n % 10;
    assert t[..1] == [t[0]];
    assert t[..1][..0] == [];
    assert t[..2] == t;
    assert DigitsValue(t[..1]) == n / 10;
  }

  lemma FourDigitsValue(n: nat)
    requires n < 10000
    ensures |FourDigits(n)| == 4 && AllDigits(FourDigits(n)) && DigitsValue(FourDigits(n)) == n
  {
    var hi, lo := TwoDigits(n / 100), TwoDigits(n % 100);
    TwoDigitsValue(n / 100);
    TwoDigitsValue(n % 100);
    var t := hi + lo;
    assert t[..3][..2] == hi;
    assert t[..3] == hi + [lo[0]];
    assert t[..3][..2] == hi;
    assert DigitsValue(t[..3]) == 10 * DigitsValue(hi) + (lo[0] as int - '0' as int);
    assert t[..4] == t;
    assert DigitsValue(t) == 10 * DigitsValue(t[..3]) + (lo[1] as int - '0' as int);
    assert lo[..1] == [lo[0]];
    assert DigitsValue(lo) == 10 * (lo[0] as int - '0' as int) + (lo[1] as int - '0' as int);
  }

  /** Reading back a date written `DD.MM.YYYY` gives the date itself. */
  lemma ParseFormatDate(d: Date)
    requires ValidDate(d)
    ensures ParseDate(FormatDate(d)) == Ok(d)
  {
    var dd, mm, yyyy := TwoDigits(d.day), TwoDigits(d.month), FourDigits(d.year);
    TwoDigitsValue(d.day);
    TwoDigitsValue(d.month);
    FourDigitsValue(d.year);
    assert dd[0] != ' ';
    ParseDotted(dd, mm, yyyy, d);
  }

  /** Two-digit fields that name a day which does not exist (`31.02.2024`,
      `29.02.2023`, month `13`, day `00`) make the whole text raise
      `ValueError`; the parser never moves to some other date. */
  lemma ParseDateInvalid(dd: string, mm: string, yyyy: string)
    requires |dd| == 2 && AllDigits(dd) && |mm| == 2 && AllDigits(mm) && YearToken(yyyy)
    requires !ValidDate(Date(DigitsValue(yyyy), DigitsValue(mm), DigitsValue(dd)))
    ensures ParseDate(dd + "." + mm + "." + yyyy) == Err(ValueError)
  {
    SplitDotted(dd, mm, yyyy);
  }

  /** A date written in digits and dots holds no comma, dash or whitespace
      at either end. */
  lemma DottedText(dd: string, mm: string, yyyy: string)
    requires |dd| == 2 && AllDigits(dd) && AllDigits(mm) && YearToken(yyyy)
    ensures var g := dd + "." + mm + "." + yyyy;
      && ',' !in g && '-' !in g && g != [] && !IsSpace(g[0]) && !IsSpace(g[|g| - 1])
  {
    var g := dd + "." + mm + "." + yyyy;
    assert forall i :: 0 <= i < |g| ==> IsDigit(g[i]) || g[i] == '.' by {
      forall i | 0 <= i < |g| ensures IsDigit(g[i]) || g[i] == '.' {
        if i < |dd| { assert g[i] == dd[i]; }
        else if i < |dd| + 1 + |mm| + 1 && i > |dd| && i < |dd| + 1 + |mm| { assert g[i] == mm[i - |dd| - 1]; }
        else if i >= |dd| + 1 + |mm| + 1 { assert g[i] == yyyy[i - |dd| - 2 - |mm|]; }
      }
    }
    assert g[|g| - 1] == yyyy[3];
  }

  /** Three valid fields joined by dots read as the date they name. */
  lemma ParseDotted(dd: string, mm: string, yyyy: string, d: Date)
    requires |dd| == 2 && AllDigits(dd) && DigitsValue(dd) == d.day
    requires MonthToken(mm) && DigitsValue(mm) == d.month
    requires YearToken(yyyy) && DigitsValue(yyyy) == d.year
    requires ValidDate(d)
    ensures ParseDate(dd + "." + mm + "." + yyyy) == Ok(d)
  {
    SplitDotted(dd, mm, yyyy);
    assert DayToken(dd) && DayValue(dd) == d.day;
  }

  lemma SplitDotted(dd: string, mm: string, yyyy: string)
    requires AllDigits(dd) && AllDigits(mm) && AllDigits(yyyy)
    ensures Split(dd + "." + mm + "." + yyyy, ".") == [dd, mm, yyyy]
  {
    assert '.' !in dd && '.' !in mm && '.' !in yyyy by {
      assert forall s: string :: AllDigits(s) ==> forall i :: 0 <= i < |s| ==> s[i] != '.';
    }
    assert dd + "." + mm + "." + yyyy == dd + ['.'] + (mm + ['.'] + yyyy);
    SplitAtChar(dd, '.', mm + ['.'] + yyyy);
    SplitAtChar(mm, '.', yyyy);
    SplitNoChar(yyyy, '.');
  }

  /** The shape `DD.MM.YYYY HH:MM:SS` (with any whitespace character between
      date and time) that the last-update regular expressions capture. */
  predicate TimestampShape(g: string) {
    |g| == 19
    && AllDigits(g[0..2]) && g[2] == '.' && AllDigits(g[3..5]) && g[5] == '.' && AllDigits(g[6..10])
    && IsSpace(g[10])
    && AllDigits(g[11..13]) && g[13] == ':' && AllDigits(g[14..16]) && g[16] == ':' && AllDigits(g[17..19])
  }

  /** A timestamp written `DD.MM.YYYY HH:MM:SS`, as the copyright line writes it. */
  function FormatDateTime(t: DateTime): string
    requires ValidDateTime(t)
  {
    FormatDate(t.date) + " " + TwoDigits(t.hour) + ":" + TwoDigits(t.minute) + ":" + TwoDigits(t.second)
  }

  /** A written timestamp has the captured shape and reads back as itself. */
  lemma ParseFormatDateTime(t: DateTime)
    requires ValidDateTime(t)
    ensures TimestampShape(FormatDateTime(t))
    ensures ParseDateTime(FormatDateTime(t)) == Ok(t)
  {
    var d := t.date;
    var dd, mm, yyyy := TwoDigits(d.day), TwoDigits(d.month), FourDigits(d.year);
    var hh, mi, ss := TwoDigits(t.hour), TwoDigits(t.minute), TwoDigits(t.second);
    TwoDigitsValue(d.day);
    TwoDigitsValue(d.month);
    FourDigitsValue(d.year);
    TwoDigitsValue(t.hour);
    TwoDigitsValue(t.minute);
    TwoDigitsValue(t.second);
    var g := FormatDateTime(t);
    assert g == dd + "." + mm + "." + yyyy + " " + hh + ":" + mi + ":" + ss;
    assert g[0..2] == dd && g[3..5] == mm && g[6..10] == yyyy;
    assert g[11..13] == hh && g[14..16] == mi && g[17..19] == ss;
  }

  /** Two decimal digits are the written form of their value. */
  lemma TwoDigitsOf(s: string)
    requires |s| == 2 && AllDigits(s)
    ensures DigitsValue(s) == 10 * (s[0] as int - '0' as int) + (s[1] as int - '0' as int)
    ensures DigitsValue(s) < 100 && TwoDigits(DigitsValue(s)) == s
  {
    var d0, d1 := s[0] as int - '0' as int, s[1] as int - '0' as int;
    assert IsDigit(s[0]) && IsDigit(s[1]);
    assert s[..1][..0] == [];
    assert DigitsValue(s[..1]) == d0;
    assert DigitsValue(s) == 10 * d0 + d1;
    var n := DigitsValue(s);
    assert n / 10 == d0 && n % 10 == d1;
  }

  /** The value of four digits is that of the first two, times a hundred,
      plus that of the last two. */
  lemma FourDigitsSplit(s: string)
    requires |s| == 4 && AllDigits(s)
    ensures AllDigits(s[..2]) && AllDigits(s[2..])
    ensures DigitsValue(s) == 100 * DigitsValue(s[..2]) + DigitsValue(s[2..])
  {
    var lo := s[2..];
    assert s[..3][..2] == s[..2];
    assert lo[0] == s[2] && lo[1] == s[3];
    TwoDigitsOf(lo);
  }

  /** Four decimal digits are the written form of their value. */
  lemma FourDigitsOf(s: string)
    requires |s| == 4 && AllDigits(s)
    ensures DigitsValue(s) < 10000 && FourDigits(DigitsValue(s)) == s
  {
    var hi, lo := s[..2], s[2..];
    FourDigitsSplit(s);
    TwoDigitsOf(hi);
    TwoDigitsOf(lo);
    var n := DigitsValue(s);
    assert n / 100 == DigitsValue(hi) && n % 100 == DigitsValue(lo);
    assert s == hi + lo;
  }

  /** A captured timestamp that reads successfully is the written form of
      the moment it reads as (up to the whitespace character between date
      and time): every field is taken digit for digit, so a text naming an
      hour `24`, a second `60` or a day that does not exist cannot read as
      any moment at all. */
  lemma FormatParseDateTime(g: string)
    requires TimestampShape(g)
    requires ParseDateTime(g).Ok?
    ensures FormatDateTime(ParseDateTime(g).value) == g[..10] + " " + g[11..]
  {
    var t := ParseDateTime(g).value;
    TwoDigitsOf(g[0..2]);
    TwoDigitsOf(g[3..5]);
    FourDigitsOf(g[6..10]);
    TwoDigitsOf(g[11..13]);
    TwoDigitsOf(g[14..16]);
    TwoDigitsOf(g[17..19]);
    assert FormatDate(t.date) == g[..10];
    assert g[11..] == g[11..13] + ":" + g[14..16] + ":" + g[17..19];
  }

  /** `datetime.strptime(g, "%d.%m.%Y %H:%M:%S")` on a captured timestamp:
      `ValueError` unless every field is in range (seconds 60 and 61 pass
      the format but not the `datetime` constructor). */
  function ParseDateTime(g: string): (r: Result<DateTime>)
    requires TimestampShape(g)
    ensures r.Ok? ==> ValidDateTime(r.value)
    ensures r.Err? ==> r.error == ValueError
  {
    var t := DateTime(Date(DigitsValue(g[6..10]), DigitsValue(g[3..5]), DigitsValue(g[0..2])),
                      DigitsValue(g[11..13]), DigitsValue(g[14..16]), DigitsValue(g[17..19]));
    if ValidDateTime(t) then Ok(t) else Err(ValueError)
  }
}
