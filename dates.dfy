/** Calendar dates as Python's `datetime.date` knows them, and the two
    ways the reminder job turns an order's date text into a date:
    `datetime.strptime(text, "%Y-%m-%d")` and, for text containing `T`,
    `datetime.fromisoformat` after every `Z` is replaced by `+00:00`. */
module Dates {
  import opened Wrappers

  /** A proleptic Gregorian date; `ValidDate` says which ones exist. */
  datatype Date = Date(year: int, month: int, day: int)

  const MinYear := 1
  const MaxYear := 9999

  predicate IsLeapYear(y: int)
  {
    y % 4 == 0 && (y % 100 != 0 || y % 400 == 0)
  }

  function DaysInMonth(y: int, m: int): (n: int)
    requires 1 <= m <= 12
    ensures 28 <= n <= 31
    ensures m == 2 ==> (n == 29 <==> IsLeapYear(y))
  {
    if m == 2 then (if IsLeapYear(y) then 29 else 28)
    else if m == 4 || m == 6 || m == 9 || m == 11 then 30
    else 31
  }

  function DaysInYear(y: int): int
  {
    if IsLeapYear(y) then 366 else 365
  }

  /** The dates `datetime.date` accepts: years 1 to 9999, months 1 to 12,
      and a day that the month has in that year. */
  predicate ValidDate(d: Date)
  {
    MinYear <= d.year <= MaxYear && 1 <= d.month <= 12 && 1 <= d.day <= DaysInMonth(d.year, d.month)
  }

  /** Python's date comparison `a <= b`: by year, then month, then day. */
  predicate OnOrBefore(a: Date, b: Date)
  {
    a.year < b.year
    || (a.year == b.year && (a.month < b.month || (a.month == b.month && a.day <= b.day)))
  }

  // ---------------------------------------------------------------------
  // Day numbers (`date.toordinal()`: 0001-01-01 is day 1)
  // ---------------------------------------------------------------------

  function DaysBeforeYear(y: int): int
    requires y >= 1
  {
    var n := y - 1;
    n * 365 + n / 4 - n / 100 + n / 400
  }

  function DaysBeforeMonth(y: int, m: int): int
    requires 1 <= m <= 12
  {
    var leap := if m > 2 && IsLeapYear(y) then 1 else 0;
    leap + (if m == 1 then 0 else if m == 2 then 31 else if m == 3 then 59 else if m == 4 then 90
            else if m == 5 then 120 else if m == 6 then 151 else if m == 7 then 181
            else if m == 8 then 212 else if m == 9 then 243 else if m == 10 then 273
            else if m == 11 then 304 else 334)
  }

  function DayOfYear(d: Date): int
    requires ValidDate(d)
  {
    DaysBeforeMonth(d.year, d.month) + d.day
  }

  function Ordinal(d: Date): int
    requires ValidDate(d)
  {
    DaysBeforeYear(d.year) + DayOfYear(d)
  }

  /** How the leap-year counts change from one year to the next. */
  lemma CountsStep(n: int)
    requires n >= 0
    ensures (n + 1) / 4 == n / 4 + (if (n + 1) % 4 == 0 then 1 else 0)
    ensures (n + 1) / 100 == n / 100 + (if (n + 1) % 100 == 0 then 1 else 0)
    ensures (n + 1) / 400 == n / 400 + (if (n + 1) % 400 == 0 then 1 else 0)
  {
  }

  /** A year contributes its own length to the day count. */
  lemma DaysBeforeYearStep(y: int)
    requires y >= 1
    ensures DaysBeforeYear(y + 1) == DaysBeforeYear(y) + DaysInYear(y)
  {
    CountsStep(y - 1);
  }

  lemma DaysBeforeYearGrows(y1: int, y2: int)
    requires 1 <= y1 < y2
    ensures DaysBeforeYear(y1) + DaysInYear(y1) <= DaysBeforeYear(y2)
    decreases y2 - y1
  {
    DaysBeforeYearStep(y1);
    if y1 + 1 < y2 {
      DaysBeforeYearGrows(y1 + 1, y2);
    }
  }

  lemma DayOfYearBounds(d: Date)
    requires ValidDate(d)
    ensures 1 <= DayOfYear(d) <= DaysInYear(d.year)
  {
  }

  /** A month contributes its own length to the day count of the year. */
  lemma DaysBeforeMonthStep(y: int, m: int)
    requires 2 <= m <= 12
    ensures DaysBeforeMonth(y, m - 1) + DaysInMonth(y, m - 1) == DaysBeforeMonth(y, m)
  {
  }

  lemma MonthsInOrder(y: int, m1: int, m2: int)
    requires 1 <= m1 < m2 <= 12
    ensures DaysBeforeMonth(y, m1) + DaysInMonth(y, m1) <= DaysBeforeMonth(y, m2)
  {
  }

  /** Python compares dates by their day numbers: comparing the fields,
      as `OnOrBefore` does, agrees with comparing `Ordinal`. */
  lemma {:induction false} OrdinalOrder(a: Date, b: Date)
    requires ValidDate(a) && ValidDate(b)
    ensures OnOrBefore(a, b) <==> Ordinal(a) <= Ordinal(b)
  {
    DayOfYearBounds(a);
    DayOfYearBounds(b);
    if a.year < b.year {
      DaysBeforeYearGrows(a.year, b.year);
    } else if b.year < a.year {
      DaysBeforeYearGrows(b.year, a.year);
    } else if a.month < b.month {
      MonthsInOrder(a.year, a.month, b.month);
    } else if b.month < a.month {
      MonthsInOrder(a.year, b.month, a.month);
    }
  }

  /** The day before `d`. */
  function PrevDay(d: Date): (r: Date)
    requires ValidDate(d) && Ordinal(d) > 1
    ensures ValidDate(r) && Ordinal(r) == Ordinal(d) - 1
  {
    if d.day > 1 then
      PrevInMonth(d);
      Date(d.year, d.month, d.day - 1)
    else if d.month > 1 then
      PrevMonth(d);
      Date(d.year, d.month - 1, DaysInMonth(d.year, d.month - 1))
    else
      PrevYear(d);
      Date(d.year - 1, 12, 31)
  }

  lemma PrevInMonth(d: Date)
    requires ValidDate(d) && d.day > 1
    ensures var r := Date(d.year, d.month, d.day - 1);
      ValidDate(r) && Ordinal(r) == Ordinal(d) - 1
  {
  }

  lemma PrevMonth(d: Date)
    requires ValidDate(d) && d.day == 1 && d.month > 1
    ensures var r := Date(d.year, d.month - 1, DaysInMonth(d.year, d.month - 1));
      ValidDate(r) && Ordinal(r) == Ordinal(d) - 1
  {
    DaysBeforeMonthStep(d.year, d.month);
  }

  lemma PrevYear(d: Date)
    requires ValidDate(d) && d.day == 1 && d.month == 1 && Ordinal(d) > 1
    ensures var r := Date(d.year - 1, 12, 31);
      ValidDate(r) && Ordinal(r) == Ordinal(d) - 1
  {
    assert d.year > 1;
    DaysBeforeYearStep(d.year - 1);
  }

  /** The date `n` days before `d` (`d - timedelta(days=n)`, then `.date()`). */
  function DaysEarlier(d: Date, n: nat): (r: Date)
    requires ValidDate(d) && Ordinal(d) > n
    ensures ValidDate(r) && Ordinal(r) == Ordinal(d) - n
    decreases n
  {
    if n == 0 then d else DaysEarlier(PrevDay(d), n - 1)
  }

  // ---------------------------------------------------------------------
  // Digits
  // ---------------------------------------------------------------------

  predicate IsDigit(c: char)
  {
    '0' <= c <= '9'
  }

  function DigitValue(c: char): int
    requires IsDigit(c)
  {
    c as int - '0' as int
  }

  predicate AllDigits(s: string)
  {
    forall i :: 0 <= i < |s| ==> IsDigit(s[i])
  }

  /** The two digits at `s[i]`, `s[i + 1]` read as a number. */
  function Two(s: string, i: int): int
    requires 0 <= i && i + 2 <= |s| && IsDigit(s[i]) && IsDigit(s[i + 1])
  {
    10 * DigitValue(s[i]) + DigitValue(s[i + 1])
  }

  predicate TwoDigitsAt(s: string, i: int)
  {
    0 <= i && i + 2 <= |s| && IsDigit(s[i]) && IsDigit(s[i + 1])
  }

  // ---------------------------------------------------------------------
  // strptime(text, "%Y-%m-%d")
  // ---------------------------------------------------------------------

  /** Text `%m` reads: `1[0-2]`, `0[1-9]` or `[1-9]`. */
  predicate IsMonthField(t: string)
  {
    (|t| == 1 && '1' <= t[0] <= '9')
    || (|t| == 2 && ((t[0] == '1' && '0' <= t[1] <= '2') || (t[0] == '0' && '1' <= t[1] <= '9')))
  }

  /** Text `%d` reads: `3[01]`, `[12]` and a digit, `0[1-9]`, `[1-9]`, or a
      space and `[1-9]`. */
  predicate IsDayField(t: string)
  {
    (|t| == 1 && '1' <= t[0] <= '9')
    || (|t| == 2 && ((t[0] == '3' && (t[1] == '0' || t[1] == '1'))
                     || ((t[0] == '1' || t[0] == '2') && IsDigit(t[1]))
                     || ((t[0] == '0' || t[0] == ' ') && '1' <= t[1] <= '9')))
  }

  /** The number a month or day field stands for. */
  function FieldValue(t: string): (v: int)
    requires IsMonthField(t) || IsDayField(t)
    ensures 1 <= v <= 31
  {
    if |t| == 1 then DigitValue(t[0])
    else if t[0] == ' ' then DigitValue(t[1])
    else Two(t, 0)
  }

  /** `datetime.strptime(text, "%Y-%m-%d").date()`: `None` where Python
      raises `ValueError`. The pattern must match the whole text (Python
      reports "unconverted data remains" otherwise) and the date must
      exist. */
  function ParseYmd(s: string): (r: Option<Date>)
    ensures r.Some? ==> ValidDate(r.value)
  {
    if |s| < 8 || !AllDigits(s[..4]) || s[4] != '-' then None
    else
      var rest := s[5..];
      var m := if rest[1] == '-' then 1 else 2;
      if rest[m] != '-' then None
      else
        var month, day := rest[..m], rest[m + 1..];
        if !IsMonthField(month) || !IsDayField(day) then None
        else
          var d := Date(100 * Two(s, 0) + Two(s, 2), FieldValue(month), FieldValue(day));
          if ValidDate(d) then Some(d) else None
  }

  // ---------------------------------------------------------------------
  // fromisoformat(text.replace('Z', '+00:00')).date()
  // ---------------------------------------------------------------------

  /** `text.replace('Z', '+00:00')`: only a `Z` changes, and it grows, so
      text that keeps its length is unchanged. */
  function ReplaceZ(s: string): (r: string)
    ensures |r| >= |s|
    ensures |r| == |s| ==> r == s
  {
    if s == [] then []
    else
      var head := if s[0] == 'Z' then "+00:00" else [s[0]];
      assert s == [s[0]] + s[1..];
      head + ReplaceZ(s[1..])
  }

  /** Ten-character `YYYY-MM-DD` layout: digits, with `-` at 4 and 7. */
  predicate IsoDateLayout(t: string)
  {
    |t| == 10 && TwoDigitsAt(t, 0) && TwoDigitsAt(t, 2) && t[4] == '-' && TwoDigitsAt(t, 5)
    && t[7] == '-' && TwoDigitsAt(t, 8)
  }

  /** `YYYY-MM-DD` naming a date that exists. What it accepts is exactly
      how `date.isoformat()` writes the date it returns; `ParseIsoDateFormat`
      is the converse. */
  function ParseIsoDate(t: string): (r: Option<Date>)
    ensures r.Some? ==> ValidDate(r.value) && t == FormatDate(r.value)
  {
    if IsoDateLayout(t) then
      var d := Date(100 * Two(t, 0) + Two(t, 2), Two(t, 5), Two(t, 8));
      if ValidDate(d) then
        LayoutIsFormat(t);
        Some(d)
      else None
    else None
  }

  /** `HH`, `HH:MM`, `HH:MM:SS`, `HH:MM:SS.fff` or `HH:MM:SS.ffffff`,
      naming a time of day. */
  predicate IsIsoTime(t: string)
  {
    TwoDigitsAt(t, 0) && Two(t, 0) < 24
    && (|t| == 2
        || (|t| >= 5 && t[2] == ':' && TwoDigitsAt(t, 3) && Two(t, 3) < 60
            && (|t| == 5
                || (|t| >= 8 && t[5] == ':' && TwoDigitsAt(t, 6) && Two(t, 6) < 60
                    && (|t| == 8 || (t[8] == '.' && (|t| == 12 || |t| == 15) && AllDigits(t[9..])))))))
  }

  /** `+HH:MM` or `-HH:MM`, an offset of less than a day. The fields are
      not range-checked one by one: `timezone()` only bounds the whole
      offset, so `+05:75` is six hours and fifteen minutes. */
  predicate IsIsoOffset(t: string)
  {
    |t| == 6 && (t[0] == '+' || t[0] == '-') && TwoDigitsAt(t, 1) && t[3] == ':' && TwoDigitsAt(t, 4)
    && 60 * Two(t, 1) + Two(t, 4) < 24 * 60
  }

  /** The part after `T`: a time, optionally followed by an offset. An
      offset is six characters and starts with a sign, which a time never
      contains, so this is Python's split at the first sign. */
  predicate IsIsoTimeAndOffset(t: string)
  {
    IsIsoTime(t) || (|t| >= 6 && IsIsoTime(t[..|t| - 6]) && IsIsoOffset(t[|t| - 6..]))
  }

  /** `datetime.fromisoformat(text.replace('Z', '+00:00')).date()`, for the
      extended ISO 8601 forms above: `None` where Python raises. */
  function ParseIsoDateTime(s: string): (r: Option<Date>)
    ensures r.Some? ==> ValidDate(r.value)
  {
    var t := ReplaceZ(s);
    if |t| < 11 || t[10] != 'T' || !IsIsoTimeAndOffset(t[11..]) then None
    else ParseIsoDate(t[..10])
  }

  /** The date the reminder job reads from an order's date text. */
  function ParseOrderDate(s: string): (r: Option<Date>)
    ensures r.Some? ==> ValidDate(r.value)
    ensures 'T' !in s ==> r == ParseYmd(s)
    ensures 'T' in s ==> r == ParseIsoDateTime(s)
  {
    if 'T' in s then ParseIsoDateTime(s) else ParseYmd(s)
  }

  // ---------------------------------------------------------------------
  // What the parsers promise
  // ---------------------------------------------------------------------

  lemma ReplaceZHead(s: string)
    requires s != []
    ensures ReplaceZ(s) == (if s[0] == 'Z' then "+00:00" else [s[0]]) + ReplaceZ(s[1..])
    ensures s[0] == 'Z' ==> ReplaceZ(s)[0] == '+'
  {
  }

  /** Replacing `Z` changes nothing before the first `Z`; the first `Z`
      becomes a `+`. So a replaced prefix without `+` is the original text. */
  lemma {:induction false} ReplaceZPrefix(s: string, k: nat)
    requires k <= |ReplaceZ(s)|
    requires forall i :: 0 <= i < k ==> ReplaceZ(s)[i] != '+'
    ensures k <= |s| && s[..k] == ReplaceZ(s)[..k]
  {
    if k > 0 {
      assert s != [];
      var tail := ReplaceZ(s[1..]);
      ReplaceZHead(s);
      if s[0] != 'Z' {
        forall i | 0 <= i < k - 1 ensures tail[i] != '+' {
          assert tail[i] == ReplaceZ(s)[i + 1];
        }
        ReplaceZPrefix(s[1..], k - 1);
        assert s[..k] == [s[0]] + s[1..][..k - 1];
      }
    }
  }

  /** A date-time text yields the calendar date written in its first ten
      characters, whatever offset follows: there is no time-zone
      conversion. */
  lemma LayoutHasNoSign(u: string)
    requires IsoDateLayout(u)
    ensures forall i :: 0 <= i < |u| ==> u[i] != '+'
  {
    forall i | 0 <= i < |u| ensures u[i] != '+' {
      var j := if i < 2 then 0 else if i < 4 then 2 else if i < 7 then 5 else 8;
      if i != 4 && i != 7 {
        assert TwoDigitsAt(u, j) && (i == j || i == j + 1);
      }
    }
  }

  /** What acceptance says about the replaced text. */
  lemma IsoAccepted(s: string)
    requires ParseIsoDateTime(s).Some?
    ensures var t := ReplaceZ(s);
      && |t| >= 11 && t[10] == 'T' && IsIsoTimeAndOffset(t[11..]) && IsoDateLayout(t[..10])
      && ParseIsoDate(t[..10]) == ParseIsoDateTime(s)
      && var u := t[..10];
         ParseIsoDateTime(s).value == Date(100 * Two(u, 0) + Two(u, 2), Two(u, 5), Two(u, 8))
  {
  }

  /** Eleven replaced characters without a sign are the original ones. */
  lemma IsoPrefixKept(s: string)
    requires var t := ReplaceZ(s); |t| >= 11 && t[10] == 'T' && IsoDateLayout(t[..10])
    ensures |s| >= 11 && s[..11] == ReplaceZ(s)[..11]
  {
    var t := ReplaceZ(s);
    var u := t[..10];
    LayoutHasNoSign(u);
    forall i | 0 <= i < 11 ensures t[i] != '+' {
      if i < 10 {
        assert u[i] == t[i];
      }
    }
    ReplaceZPrefix(s, 11);
  }

  lemma IsoDateIsWritten(s: string)
    requires ParseIsoDateTime(s).Some?
    ensures |s| >= 11 && s[10] == 'T'
    ensures ParseIsoDate(s[..10]) == ParseIsoDateTime(s)
    ensures IsIsoTimeAndOffset(ReplaceZ(s)[11..])
    ensures IsoDateLayout(s[..10])
    ensures var u := s[..10];
      ParseIsoDateTime(s).value == Date(100 * Two(u, 0) + Two(u, 2), Two(u, 5), Two(u, 8))
    ensures s[..10] == FormatDate(ParseIsoDateTime(s).value)
  {
    var t := ReplaceZ(s);
    IsoAccepted(s);
    IsoPrefixKept(s);
    assert s[..11][10] == s[10] && t[..11][10] == t[10];
    assert s[..10] == s[..11][..10] == t[..11][..10] == t[..10];
  }

  /** What `strptime` accepts is written `YYYY-`, a month field, `-` and a
      day field, and the date read is the one those fields name. */
  lemma ParseYmdIsWritten(s: string)
    requires ParseYmd(s).Some?
    ensures |s| >= 8 && TwoDigitsAt(s, 0) && TwoDigitsAt(s, 2) && s[4] == '-'
    ensures exists mt, dt :: IsMonthField(mt) && IsDayField(dt) && s == s[..5] + mt + "-" + dt
              && ParseYmd(s).value == Date(100 * Two(s, 0) + Two(s, 2), FieldValue(mt), FieldValue(dt))
  {
    var rest := s[5..];
    var m := if rest[1] == '-' then 1 else 2;
    var mt, dt := rest[..m], rest[m + 1..];
    assert s[..4][0] == s[0] && s[..4][1] == s[1] && s[..4][2] == s[2] && s[..4][3] == s[3];
    assert s == s[..5] + mt + "-" + dt;
  }

  /** ... and every such text is read as the date its fields name, when
      that date exists, and rejected otherwise. */
  lemma ParseYmdAccepts(y: string, mt: string, dt: string)
    requires |y| == 4 && AllDigits(y) && IsMonthField(mt) && IsDayField(dt)
    ensures var d := Date(100 * Two(y, 0) + Two(y, 2), FieldValue(mt), FieldValue(dt));
      ParseYmd(y + "-" + mt + "-" + dt) == if ValidDate(d) then Some(d) else None
  {
    var s := y + "-" + mt + "-" + dt;
    assert s[..4] == y && s[4] == '-';
    var rest := s[5..];
    assert rest == mt + "-" + dt;
    var m := |mt|;
    assert rest[..m] == mt;
    assert rest[m] == '-';
    assert rest[m + 1..] == dt;
    assert rest[1] == (if m == 1 then '-' else mt[1]);
    assert s[0] == y[0] && s[1] == y[1] && s[2] == y[2] && s[3] == y[3];
  }

  /** How `date.isoformat()` writes a date: `YYYY-MM-DD`, zero-padded. */
  function Digit(n: int): (c: char)
    requires 0 <= n <= 9
    ensures IsDigit(c) && DigitValue(c) == n
  {
    ('0' as int + n) as char
  }

  function Pad2(n: int): (t: string)
    requires 0 <= n <= 99
    ensures |t| == 2 && TwoDigitsAt(t, 0) && Two(t, 0) == n
  {
    [Digit(n / 10), Digit(n % 10)]
  }

  /** Year, month and day fields written as `YYYY-MM-DD`, zero-padded,
      whether or not they name a date. */
  function FormatYmd(y: int, m: int, d: int): (t: string)
    requires 0 <= y <= 9999 && 1 <= m <= 12 && 1 <= d <= 31
    ensures |t| == 10 && 'T' !in t && 'Z' !in t
  {
    Pad2(y / 100) + Pad2(y % 100) + "-" + Pad2(m) + "-" + Pad2(d)
  }

  function FormatDate(d: Date): (t: string)
    requires ValidDate(d)
    ensures |t| == 10 && 'T' !in t && 'Z' !in t
  {
    FormatYmd(d.year, d.month, d.day)
  }

  lemma {:induction false} ReplaceZAppend(a: string, b: string)
    ensures ReplaceZ(a + b) == ReplaceZ(a) + ReplaceZ(b)
  {
    if a == [] {
      assert a + b == b;
    } else {
      assert (a + b)[0] == a[0] && (a + b)[1..] == a[1..] + b;
      ReplaceZAppend(a[1..], b);
    }
  }

  lemma {:induction false} ReplaceZNoZ(s: string)
    requires 'Z' !in s
    ensures ReplaceZ(s) == s
  {
    if s != [] {
      assert s == [s[0]] + s[1..];
      ReplaceZNoZ(s[1..]);
    }
  }

  lemma YearDigits(y: int)
    requires 0 <= y <= 9999
    ensures 100 * (y / 100) + y % 100 == y
  {
  }

  /** `strptime` with `%Y-%m-%d` reads the fields of padded text, and
      accepts it exactly when they name a date that exists: a day the month
      does not have, such as 29 February outside leap years, or year 0 is a
      `ValueError`. */
  lemma ParseYmdFields(y: int, m: int, d: int)
    requires 0 <= y <= 9999 && 1 <= m <= 12 && 1 <= d <= 31
    ensures ParseYmd(FormatYmd(y, m, d)) == if ValidDate(Date(y, m, d)) then Some(Date(y, m, d)) else None
  {
    var s := FormatYmd(y, m, d);
    FormatYmdFields(y, m, d);
    var rest := s[5..];
    assert rest[1] == s[6] && rest[2] == '-';
    assert rest[..2] == s[5..7] && rest[3..] == s[8..];
  }

  /** The reminder job reads back what `isoformat` writes. */
  lemma ParseYmdFormat(d: Date)
    requires ValidDate(d)
    ensures ParseYmd(FormatDate(d)) == Some(d)
    ensures ParseOrderDate(FormatDate(d)) == Some(d)
  {
    ParseYmdFields(d.year, d.month, d.day);
  }

  /** Where `FormatYmd` puts each field. */
  lemma FormatYmdFields(y: int, m: int, d: int)
    requires 0 <= y <= 9999 && 1 <= m <= 12 && 1 <= d <= 31
    ensures var t := FormatYmd(y, m, d);
      && TwoDigitsAt(t, 0) && TwoDigitsAt(t, 2) && t[4] == '-' && TwoDigitsAt(t, 5) && t[7] == '-' && TwoDigitsAt(t, 8)
      && 100 * Two(t, 0) + Two(t, 2) == y && Two(t, 5) == m && Two(t, 8) == d
  {
    var t := FormatYmd(y, m, d);
    YearDigits(y);
    assert t[..2] == Pad2(y / 100) && t[2..4] == Pad2(y % 100) && t[5..7] == Pad2(m) && t[8..] == Pad2(d);
  }

  lemma DigitOfValue(c: char)
    requires IsDigit(c)
    ensures Digit(DigitValue(c)) == c
  {
  }

  /** Two digits read as a number are written back as the same digits. */
  lemma PadOfTwo(t: string, i: int)
    requires TwoDigitsAt(t, i)
    ensures Pad2(Two(t, i)) == t[i..i + 2]
  {
    var n := Two(t, i);
    assert n / 10 == DigitValue(t[i]) && n % 10 == DigitValue(t[i + 1]);
    DigitOfValue(t[i]);
    DigitOfValue(t[i + 1]);
  }

  /** Text laid out `YYYY-MM-DD` is what `FormatYmd` writes for its fields. */
  lemma LayoutIsFormat(t: string)
    requires IsoDateLayout(t) && 1 <= Two(t, 5) <= 12 && 1 <= Two(t, 8) <= 31
    ensures var y := 100 * Two(t, 0) + Two(t, 2);
      0 <= y <= 9999 && t == FormatYmd(y, Two(t, 5), Two(t, 8))
  {
    var y := 100 * Two(t, 0) + Two(t, 2);
    assert y / 100 == Two(t, 0) && y % 100 == Two(t, 2);
    PadOfTwo(t, 0);
    PadOfTwo(t, 2);
    PadOfTwo(t, 5);
    PadOfTwo(t, 8);
    assert t == t[0..2] + t[2..4] + "-" + t[5..7] + "-" + t[8..10];
  }

  lemma ParseIsoDateFormat(d: Date)
    requires ValidDate(d)
    ensures ParseIsoDate(FormatDate(d)) == Some(d)
  {
    FormatYmdFields(d.year, d.month, d.day);
  }

  lemma ZReplaced()
    ensures ReplaceZ("Z") == "+00:00"
  {
  }

  lemma TReplaced()
    ensures ReplaceZ("T") == "T"
  {
  }

  lemma UtcIsOffset()
    ensures IsIsoOffset("+00:00")
  {
  }

  /** A time or an offset is written without `Z`. */
  lemma NoZInTime(t: string)
    requires IsIsoTime(t) || IsIsoOffset(t)
    ensures 'Z' !in t
  {
    if IsIsoTime(t) && |t| > 8 {
      assert forall i :: 9 <= i < |t| ==> t[i] == t[9..][i - 9];
    }
  }

  /** The text after `T` as `fromisoformat` sees it, once `Z` is replaced. */
  function OffsetReplaced(off: string): string
  {
    if off == "Z" then "+00:00" else off
  }

  lemma ReplacedTail(tm: string, off: string)
    requires IsIsoTime(tm)
    requires off == "" || off == "Z" || IsIsoOffset(off)
    ensures ReplaceZ(tm + off) == tm + OffsetReplaced(off)
    ensures IsIsoTimeAndOffset(ReplaceZ(tm + off))
  {
    ReplaceZAppend(tm, off);
    NoZInTime(tm);
    ReplaceZNoZ(tm);
    if off == "Z" {
      ZReplaced();
      UtcIsOffset();
    } else if off != "" {
      NoZInTime(off);
      ReplaceZNoZ(off);
    }
    var rest := tm + OffsetReplaced(off);
    if OffsetReplaced(off) != "" {
      assert rest[..|rest| - 6] == tm && rest[|rest| - 6..] == OffsetReplaced(off);
    } else {
      assert rest == tm;
    }
  }

  lemma ParseIsoOfReplaced(text: string, s: string, rest: string)
    requires |s| == 10 && ReplaceZ(text) == s + ("T" + rest) && IsIsoTimeAndOffset(rest)
    ensures ParseIsoDateTime(text) == ParseIsoDate(s)
  {
    var t := ReplaceZ(text);
    assert t[11..] == rest && t[..10] == s && t[10] == 'T';
  }

  /** Whatever follows `T`, as long as it reads as a time and an offset once
      `Z` is replaced, the date is read from the ten characters before it. */
  lemma ParseIsoWithTail(s: string, tail: string)
    requires |s| == 10 && 'Z' !in s && IsIsoTimeAndOffset(ReplaceZ(tail))
    ensures ParseIsoDateTime(s + ("T" + tail)) == ParseIsoDate(s)
    ensures ParseOrderDate(s + ("T" + tail)) == ParseIsoDate(s)
  {
    var text := s + ("T" + tail);
    ReplaceZAppend(s, "T" + tail);
    ReplaceZNoZ(s);
    ReplaceZAppend("T", tail);
    TReplaced();
    ParseIsoOfReplaced(text, s, ReplaceZ(tail));
    assert text[10] == 'T';
  }

  /** A date-time in the forms `isoformat` writes, with any time, and with
      no offset, `Z` or any numeric offset, yields its written date. */
  lemma ParseIsoFormat(d: Date, tm: string, off: string)
    requires ValidDate(d) && IsIsoTime(tm)
    requires off == "" || off == "Z" || IsIsoOffset(off)
    ensures ParseOrderDate(FormatDate(d) + "T" + tm + off) == Some(d)
  {
    ReplacedTail(tm, off);
    assert FormatDate(d) + "T" + tm + off == FormatDate(d) + ("T" + (tm + off));
    ParseIsoWithTail(FormatDate(d), tm + off);
    ParseIsoDateFormat(d);
  }

  // ---------------------------------------------------------------------
  // Examples
  // ---------------------------------------------------------------------

  /** 29 February exists in 2024 ... */
  lemma LeapDayAccepted()
    ensures ParseYmd(FormatYmd(2024, 2, 29)) == Some(Date(2024, 2, 29))
  {
    ParseYmdFields(2024, 2, 29);
  }

  /** ... and not in 2023. */
  lemma LeapDayRejected()
    ensures ParseYmd(FormatYmd(2023, 2, 29)) == None
  {
    ParseYmdFields(2023, 2, 29);
  }

  /** An offset's minutes may exceed 59 as long as the whole offset is
      under a day: `+05:75` is read, and the date is still the written one. */
  lemma LongOffsetMinutesAccepted(d: Date)
    requires ValidDate(d)
    ensures ParseOrderDate(FormatDate(d) + "T" + "12:00" + "+05:75") == Some(d)
  {
    assert IsIsoOffset("+05:75");
    ParseIsoFormat(d, "12:00", "+05:75");
  }

  /** A missing date prints as `None`, which is not a date. */
  lemma NoneRejected()
    ensures ParseOrderDate("None") == None
  {
  }
}
