/**
 * Release dates as the alert logic reads them: the two regular expressions
 * that gate a date string, the `strptime` formats that parse it, and the
 * instants they are compared with.
 *
 * An instant is a count of microseconds on Python's proleptic Gregorian
 * ordinal scale: day number `k` (1 is 1 January of year 1) starts at
 * `k * MicrosPerDay`.  A parsed date stands for its midnight.
 */
module DateText {
  import opened PyText

  datatype Date = Date(year: int, month: int, day: int)

  predicate IsLeap(y: int) {
    y % 4 == 0 && (y % 100 != 0 || y % 400 == 0)
  }

  function DaysInMonth(y: int, m: int): (n: int)
    requires 1 <= m <= 12
    ensures 28 <= n <= 31
    ensures n == 29 <==> m == 2 && IsLeap(y)
  {
    if m == 2 then (if IsLeap(y) then 29 else 28)
    else if m == 4 || m == 6 || m == 9 || m == 11 then 30
    else 31
  }

  /** The dates `datetime` can hold: years 1 to 9999, real days of real months. */
  predicate ValidDate(d: Date) {
    1 <= d.year <= 9999 && 1 <= d.month <= 12 && 1 <= d.day <= DaysInMonth(d.year, d.month)
  }

  const MicrosPerDay: nat := 86_400_000_000

  function DaysBeforeYear(y: int): (n: int)
    requires y >= 1
    ensures n >= 0
  {
    var p := y - 1;
    p * 365 + p / 4 - p / 100 + p / 400
  }

  /** The days of year `y`. */
  function DaysInYear(y: int): int {
    if IsLeap(y) then 366 else 365
  }

  /** The days of year `y` before the first of month `m`. */
  function DaysBeforeMonth(y: int, m: int): nat
    requires 1 <= m <= 12
  {
    if m == 1 then 0 else DaysBeforeMonth(y, m - 1) + DaysInMonth(y, m - 1)
  }

  /** The twelve months fill the year exactly, and each one ends within it. */
  lemma MonthsFillYear(y: int, m: int)
    requires 1 <= m <= 12
    ensures DaysBeforeMonth(y, m) + DaysInMonth(y, m) <= DaysInYear(y)
    ensures m == 12 ==> DaysBeforeMonth(y, m) + DaysInMonth(y, m) == DaysInYear(y)
  {
    var leap := if IsLeap(y) then 1 else 0;
    assert DaysBeforeMonth(y, 2) == 31;
    assert DaysBeforeMonth(y, 3) == 59 + leap;
    assert DaysBeforeMonth(y, 4) == 90 + leap;
    assert DaysBeforeMonth(y, 5) == 120 + leap;
    assert DaysBeforeMonth(y, 6) == 151 + leap;
    assert DaysBeforeMonth(y, 7) == 181 + leap;
    assert DaysBeforeMonth(y, 8) == 212 + leap;
    assert DaysBeforeMonth(y, 9) == 243 + leap;
    assert DaysBeforeMonth(y, 10) == 273 + leap;
    assert DaysBeforeMonth(y, 11) == 304 + leap;
    assert DaysBeforeMonth(y, 12) == 334 + leap;
  }

  /** The days before each new year: the previous year's start plus its length. */
  lemma DaysBeforeNextYear(y: int)
    requires y >= 1
    ensures DaysBeforeYear(y + 1) == DaysBeforeYear(y) + DaysInYear(y)
  {
    CountStep(y, 4);
    CountStep(y, 100);
    CountStep(y, 400);
    MultiplesNest(y);
  }

  /** Going from `y - 1` to `y`, the count of multiples of `k` grows exactly when `k` divides `y`. */
  lemma CountStep(y: int, k: int)
    requires k == 4 || k == 100 || k == 400
    ensures y / k == (y - 1) / k + (if y % k == 0 then 1 else 0)
  {
    var q, r := (y - 1) / k, (y - 1) % k;
    assert y == q * k + r + 1;
    if r + 1 == k {
      assert y == (q + 1) * k + 0;
    } else {
      assert y == q * k + (r + 1);
    }
  }

  /** A multiple of 400 is one of 100, and a multiple of 100 one of 4. */
  lemma MultiplesNest(y: int)
    ensures y % 400 == 0 ==> y % 100 == 0
    ensures y % 100 == 0 ==> y % 4 == 0
  {
    if y % 400 == 0 {
      var q := y / 400;
      assert y == (4 * q) * 100;
      MultipleOfHundred(4 * q);
    }
    if y % 100 == 0 {
      var q := y / 100;
      assert y == (25 * q) * 4;
      MultipleOfFour(25 * q);
    }
  }

  lemma MultipleOfHundred(m: int)
    ensures m * 100 % 100 == 0
  {
  }

  lemma MultipleOfFour(m: int)
    ensures m * 4 % 4 == 0
  {
  }

  /** `date.toordinal()`. */
  function Ordinal(d: Date): (n: int)
    requires ValidDate(d)
    ensures n >= 1
  {
    DaysBeforeYear(d.year) + DaysBeforeMonth(d.year, d.month) + d.day
  }

  /** `d1 < d2` for `date`: by year, then month, then day. */
  predicate Before(d1: Date, d2: Date) {
    d1.year < d2.year ||
    (d1.year == d2.year && (d1.month < d2.month || (d1.month == d2.month && d1.day < d2.day)))
  }

  /** Every day of year `y` lies before the start of any later year. */
  lemma {:induction false} YearEndsBefore(d: Date, y: int)
    requires ValidDate(d) && d.year < y <= 9999
    ensures Ordinal(d) <= DaysBeforeYear(y)
    decreases y - d.year
  {
    DaysBeforeNextYear(d.year);
    MonthsFillYear(d.year, d.month);
    if d.year + 1 < y {
      YearEndsBefore(Date(d.year + 1, 1, 1), y);
    }
  }

  /** Within one year, every day of month `m1` lies before month `m2` begins. */
  lemma {:induction false} MonthEndsBefore(y: int, m1: int, m2: int)
    requires 1 <= m1 < m2 <= 12
    ensures DaysBeforeMonth(y, m1) + DaysInMonth(y, m1) <= DaysBeforeMonth(y, m2)
    decreases m2 - m1
  {
    if m1 + 1 < m2 {
      MonthEndsBefore(y, m1, m2 - 1);
    }
  }

  /** The ordinal follows the calendar order: it grows exactly when the date
      does, and two valid dates share an ordinal only when they are equal. */
  lemma OrdinalOrder(d1: Date, d2: Date)
    requires ValidDate(d1) && ValidDate(d2)
    ensures Before(d1, d2) <==> Ordinal(d1) < Ordinal(d2)
    ensures d1 == d2 <==> Ordinal(d1) == Ordinal(d2)
  {
    if Before(d1, d2) {
      OrdinalGrows(d1, d2);
    } else if Before(d2, d1) {
      OrdinalGrows(d2, d1);
    }
  }

  lemma OrdinalGrows(d1: Date, d2: Date)
    requires ValidDate(d1) && ValidDate(d2) && Before(d1, d2)
    ensures Ordinal(d1) < Ordinal(d2)
  {
    if d1.year < d2.year {
      YearEndsBefore(d1, d2.year);
    } else if d1.month < d2.month {
      MonthEndsBefore(d1.year, d1.month, d2.month);
    }
  }

  /** A parsed date is before, at or after another exactly as its midnight is. */
  lemma MidnightOrder(d1: Date, d2: Date)
    requires ValidDate(d1) && ValidDate(d2)
    ensures Before(d1, d2) <==> Midnight(d1) < Midnight(d2)
    ensures d1 == d2 <==> Midnight(d1) == Midnight(d2)
  {
    OrdinalOrder(d1, d2);
  }

  /** The instant a parsed date stands for: its midnight. */
  function Midnight(d: Date): (t: nat)
    requires ValidDate(d)
    ensures t % MicrosPerDay == 0
  {
    var n := Ordinal(d);
    assert n * MicrosPerDay % MicrosPerDay == 0 by {
      MultipleOfDay(n);
    }
    n * MicrosPerDay
  }

  lemma MultipleOfDay(n: nat)
    ensures n * MicrosPerDay % MicrosPerDay == 0
  {
  }

  /** `t.replace(hour=0, minute=0, second=0, microsecond=0)`. */
  function StartOfDay(t: nat): (r: nat)
    ensures r <= t < r + MicrosPerDay
    ensures r % MicrosPerDay == 0
  {
    (t / MicrosPerDay) * MicrosPerDay
  }

  /** `(now + timedelta(days=7))` truncated to midnight. */
  function WeekLater(now: nat): (r: nat)
    ensures r == StartOfDay(now) + 7 * MicrosPerDay
    ensures now + 6 * MicrosPerDay < r <= now + 7 * MicrosPerDay
  {
    StartOfDay(now + 7 * MicrosPerDay)
  }

  /** A midnight equals the start of the day holding `now` exactly when its
      day is the day of `now`. */
  lemma MidnightIsToday(d: Date, now: nat)
    requires ValidDate(d)
    ensures Midnight(d) == StartOfDay(now) <==> Midnight(d) <= now < Midnight(d) + MicrosPerDay
  {
  }

  // ------------------------------------------------------------ month names

  /** The month names `strptime` knows in the C locale, lower-cased as it keeps them. */
  const LongMonthNames: seq<string> :=
    ["january", "february", "march", "april", "may", "june",
     "july", "august", "september", "october", "november", "december"]

  const ShortMonthNames: seq<string> :=
    ["jan", "feb", "mar", "apr", "may", "jun", "jul", "aug", "sep", "oct", "nov", "dec"]

  predicate Distinct(names: seq<string>) {
    forall i, j :: 0 <= i < j < |names| ==> names[i] != names[j]
  }

  lemma MonthNamesDistinct()
    ensures |LongMonthNames| == 12 && Distinct(LongMonthNames)
    ensures |ShortMonthNames| == 12 && Distinct(ShortMonthNames)
  {
  }

  /** One plus the first index of `x` in `xs`, or 0 when `x` is absent. */
  function FirstIndex(xs: seq<string>, x: string): (m: nat)
    ensures m <= |xs|
    ensures m > 0 ==> xs[m - 1] == x
    ensures m == 0 <==> x !in xs
    ensures forall j :: 0 <= j < m - 1 ==> xs[j] != x
    decreases |xs|
  {
    if xs == [] then 0
    else if xs[0] == x then 1
    else
      var r := FirstIndex(xs[1..], x);
      assert forall j :: 1 <= j < r ==> xs[j] == xs[1..][j - 1];
      assert x in xs[1..] ==> x in xs;
      assert x in xs && x != xs[0] ==> x in xs[1..] by {
        if x in xs && x != xs[0] {
          var i :| 0 <= i < |xs| && xs[i] == x;
          assert xs[1..][i - 1] == x;
        }
      }
      if r == 0 then 0 else r + 1
  }

  /** The month a `%B` or `%b` token names, ignoring case; 0 when none. */
  function MonthNumber(token: string, names: seq<string>): (m: nat)
    ensures m <= |names|
    ensures m > 0 ==> names[m - 1] == LowerStr(token)
    ensures m == 0 <==> LowerStr(token) !in names
  {
    FirstIndex(names, LowerStr(token))
  }

  // ------------------------------------------------------------ strptime

  /**
   * `datetime.strptime(s, '%d %B %Y')` (with `names == LongMonthNames`) or
   * `'%d %b %Y'` (with `ShortMonthNames`): a day of one or two digits, blanks,
   * a month name in any case, blanks, four digits, and nothing after them;
   * a day the month does not have, or year 0, raises as well.  `None` is the
   * `ValueError`.
   */
  function ParseDate(s: string, names: seq<string>): (r: Option<Date>)
    requires |names| == 12
    ensures r.Some? ==> ValidDate(r.value)
  {
    var i := RunEnd(s, 0, Digits);
    var j := RunEnd(s, i, Spaces);
    var k := RunEnd(s, j, NonSpaces);
    var l := RunEnd(s, k, Spaces);
    if 1 <= i <= 2 && i < j && k < l && |s| - l == 4 && AllIn(s[l..], Digits) then
      var d := Date(DigitsValue(s[l..]), MonthNumber(s[j..k], names), DigitsValue(s[..i]));
      if ValidDate(d) then Some(d) else None
    else None
  }

  /** `str(day) + ' ' + month + ' ' + str(year)`. */
  function FormatDate(d: Date, month: string): string
    requires ValidDate(d)
  {
    NatToString(d.day) + " " + month + " " + NatToString(d.year)
  }

  /** Where the three fields of `a + " " + b + " " + c` sit. */
  lemma FieldsOf(a: string, b: string, c: string)
    ensures var s := a + " " + b + " " + c;
      && |s| == |a| + |b| + |c| + 2
      && s[..|a|] == a && s[|a|] == ' '
      && s[|a| + 1..|a| + 1 + |b|] == b && s[|a| + 1 + |b|] == ' '
      && s[|a| + 2 + |b|..] == c
  {
    var s := a + " " + b + " " + c;
    assert s == (a + " " + b) + (" " + c);
    assert (a + " " + b)[|a| + 1..] == b;
  }

  /** A month word picks its own month out of either list of names. */
  lemma MonthOf(month: string, names: seq<string>, m: int)
    requires names == LongMonthNames || names == ShortMonthNames
    requires 1 <= m <= 12 && LowerStr(month) == names[m - 1]
    ensures MonthNumber(month, names) == m
  {
    MonthNamesDistinct();
  }

  /** The runs `ParseDate` finds in `a + " " + b + " " + c` for digits `a`, a word `b` and digits `c`. */
  lemma FormattedRuns(a: string, b: string, c: string)
    requires a != [] && AllIn(a, Digits) && b != [] && AllIn(b, NonSpaces) && c != [] && AllIn(c, Digits)
    ensures var s := a + " " + b + " " + c;
      && RunEnd(s, 0, Digits) == |a|
      && RunEnd(s, |a|, Spaces) == |a| + 1
      && RunEnd(s, |a| + 1, NonSpaces) == |a| + 1 + |b|
      && RunEnd(s, |a| + 1 + |b|, Spaces) == |a| + 2 + |b|
      && s[..|a|] == a && s[|a| + 1..|a| + 1 + |b|] == b && s[|a| + 2 + |b|..] == c
  {
    var s := a + " " + b + " " + c;
    var i, k := |a|, |a| + 1 + |b|;
    FieldsOf(a, b, c);
    RunEndAt(s, 0, i, Digits);
    assert s[i..i + 1] == " ";
    assert s[i + 1] == b[0];
    RunEndAt(s, i, i + 1, Spaces);
    RunEndAt(s, i + 1, k, NonSpaces);
    assert s[k..k + 1] == " ";
    assert s[k + 1] == c[0] && IsDigit(c[0]);
    RunEndAt(s, k, k + 1, Spaces);
  }

  /** `strptime` reads a day `a`, a month token `b` and a year `c` out of
      `a + " " + b + " " + c`; it raises unless the day has at most two
      digits, the year four, and the three make a real date. */
  lemma {:induction false} ParseFields(a: string, b: string, c: string, names: seq<string>)
    requires |names| == 12
    requires a != [] && AllIn(a, Digits) && b != [] && AllIn(b, NonSpaces) && c != [] && AllIn(c, Digits)
    ensures var d := Date(DigitsValue(c), MonthNumber(b, names), DigitsValue(a));
      ParseDate(a + " " + b + " " + c, names)
      == if |a| <= 2 && |c| == 4 && ValidDate(d) then Some(d) else None
  {
    FormattedRuns(a, b, c);
  }

  /** A date written with a month token naming its month parses back to itself. */
  lemma {:induction false} ParseFormattedToken(d: Date, month: string, names: seq<string>)
    requires ValidDate(d) && 1000 <= d.year && |names| == 12
    requires month != "" && AllIn(month, NonSpaces)
    requires MonthNumber(month, names) == d.month
    ensures ParseDate(FormatDate(d, month), names) == Some(d)
  {
    var ds, ys := NatToString(d.day), NatToString(d.year);
    assert 1 <= |ds| <= 2 && |ys| == 4 by {
      NatToStringLength(d.year);
      NatToStringLength(d.day);
    }
    ParseFields(ds, month, ys, names);
  }

  /** A date whose month token names no month does not parse. */
  lemma {:induction false} UnnamedMonthToken(d: Date, month: string, names: seq<string>)
    requires ValidDate(d) && |names| == 12
    requires month != "" && AllIn(month, NonSpaces)
    requires MonthNumber(month, names) == 0
    ensures ParseDate(FormatDate(d, month), names) == None
  {
    ParseFields(NatToString(d.day), month, NatToString(d.year), names);
  }

  /** Every date written day, month name (in any case), four-digit year parses back to itself. */
  lemma ParseFormatted(d: Date, month: string, names: seq<string>)
    requires ValidDate(d) && 1000 <= d.year
    requires names == LongMonthNames || names == ShortMonthNames
    requires month != "" && AllIn(month, NonSpaces)
    requires LowerStr(month) == names[d.month - 1]
    ensures ParseDate(FormatDate(d, month), names) == Some(d)
  {
    MonthOf(month, names, d.month);
    ParseFormattedToken(d, month, names);
  }

  // ------------------------------------------------------------ regex gates

  /** `\d{1,2}\s\w{3,9}\s\d{4}` matches at the start of `s`, with `d` digits and a word of `w` characters. */
  ghost predicate MovieRegexAt(s: string, d: int, w: int) {
    1 <= d <= 2 && 3 <= w <= 9 && d + w + 6 <= |s| &&
    AllIn(s[..d], Digits) && IsSpace(s[d]) && AllIn(s[d + 1..d + 1 + w], Words) &&
    IsSpace(s[d + 1 + w]) && AllIn(s[d + 2 + w..d + 6 + w], Digits)
  }

  /** `re.match(r'\d{1,2}\s\w{3,9}\s\d{4}', s)` succeeds. */
  ghost predicate MovieRegexMatches(s: string) {
    exists d, w :: MovieRegexAt(s, d, w)
  }

  /** The movie gate, decided by scanning runs: the leading digits, a blank,
      the word run, a blank and four digits. */
  function MovieGate(s: string): bool {
    var n := RunEnd(s, 0, Digits);
    if 1 <= n <= 2 && n < |s| && IsSpace(s[n]) then
      var e := RunEnd(s, n + 1, Words);
      3 <= e - (n + 1) <= 9 && e + 5 <= |s| && IsSpace(s[e]) && AllIn(s[e + 1..e + 5], Digits)
    else false
  }

  /** The scan decides exactly the regular expression (anchored at the start only). */
  lemma MovieGateIsRegex(s: string)
    ensures MovieGate(s) <==> MovieRegexMatches(s)
  {
    if MovieGate(s) {
      var n := RunEnd(s, 0, Digits);
      var e := RunEnd(s, n + 1, Words);
      assert MovieRegexAt(s, n, e - n - 1);
    }
    if MovieRegexMatches(s) {
      var d, w :| MovieRegexAt(s, d, w);
      RunEndAt(s, 0, d, Digits);
      RunEndAt(s, d + 1, d + 1 + w, Words);
    }
  }

  /** `\d{1,2}\s\w{3}.{0,1}\s\d{4}` matches at the start of `s`, with `d`
      digits and `p` characters taken by `.{0,1}`. */
  ghost predicate SeriesRegexAt(s: string, d: int, p: int) {
    1 <= d <= 2 && 0 <= p <= 1 && d + p + 9 <= |s| &&
    AllIn(s[..d], Digits) && IsSpace(s[d]) && AllIn(s[d + 1..d + 4], Words) &&
    (p == 1 ==> s[d + 4] != '\n') &&
    IsSpace(s[d + 4 + p]) && AllIn(s[d + 5 + p..d + 9 + p], Digits)
  }

  /** `re.match(r'\d{1,2}\s\w{3}.{0,1}\s\d{4}', s)` succeeds. */
  ghost predicate SeriesRegexMatches(s: string) {
    exists d, p :: SeriesRegexAt(s, d, p)
  }

  /** The episode gate, by scanning: leading digits, a blank, three word
      characters, then a blank or one more character (not a line feed) and a
      blank, then four digits. */
  function SeriesGate(s: string): bool {
    var n := RunEnd(s, 0, Digits);
    if 1 <= n <= 2 && n + 9 <= |s| && IsSpace(s[n]) && AllIn(s[n + 1..n + 4], Words) then
      (IsSpace(s[n + 4]) && AllIn(s[n + 5..n + 9], Digits)) ||
      (n + 10 <= |s| && s[n + 4] != '\n' && IsSpace(s[n + 5]) && AllIn(s[n + 6..n + 10], Digits))
    else false
  }

  lemma SeriesGateIsRegex(s: string)
    ensures SeriesGate(s) <==> SeriesRegexMatches(s)
  {
    if SeriesGate(s) {
      var n := RunEnd(s, 0, Digits);
      if IsSpace(s[n + 4]) && AllIn(s[n + 5..n + 9], Digits) {
        assert SeriesRegexAt(s, n, 0);
      } else {
        assert SeriesRegexAt(s, n, 1);
      }
    }
    if SeriesRegexMatches(s) {
      var d, p :| SeriesRegexAt(s, d, p);
      RunEndAt(s, 0, d, Digits);
    }
  }

  /** A day of one or two digits, a blank, a word of three to nine
      characters, a blank and four digits match the movie pattern. */
  lemma {:induction false} MovieFieldsMatch(a: string, w: string, c: string)
    requires 1 <= |a| <= 2 && AllIn(a, Digits) && 3 <= |w| <= 9 && AllIn(w, Words)
    requires |c| == 4 && AllIn(c, Digits)
    ensures MovieGate(a + " " + w + " " + c)
  {
    var s := a + " " + w + " " + c;
    FieldsOf(a, w, c);
    assert s[|a| + 2 + |w|..|a| + 6 + |w|] == c;
    assert MovieRegexAt(s, |a|, |w|);
    MovieGateIsRegex(s);
  }

  /** Every date written with a month word of three to nine letters passes the movie gate. */
  lemma MovieGateAcceptsFormatted(d: Date, month: string)
    requires ValidDate(d) && 1000 <= d.year
    requires 3 <= |month| <= 9 && AllIn(month, Words)
    ensures MovieGate(FormatDate(d, month))
  {
    NatToStringLength(d.day);
    NatToStringLength(d.year);
    MovieFieldsMatch(NatToString(d.day), month, NatToString(d.year));
  }

  /** A day of one or two digits, a blank, three word characters, an
      optional `.` or `,`, a blank and four digits match the episode pattern. */
  lemma {:induction false} SeriesFieldsMatch(a: string, month: string, mark: string, c: string)
    requires 1 <= |a| <= 2 && AllIn(a, Digits) && |month| == 3 && AllIn(month, Words)
    requires mark == "" || mark == "." || mark == ","
    requires |c| == 4 && AllIn(c, Digits)
    ensures SeriesGate(a + " " + (month + mark) + " " + c)
  {
    var m := month + mark;
    var s := a + " " + m + " " + c;
    var i, k := |a|, |a| + 1 + |m|;
    FieldsOf(a, m, c);
    assert s[i + 1..i + 4] == month by {
      assert s[i + 1..i + 4] == s[i + 1..k][..3];
      assert m[..3] == month;
    }
    if mark != "" {
      assert s[i + 4] == s[i + 1..k][3] == mark[0];
    }
    assert s[k + 1..k + 5] == c;
    assert SeriesRegexAt(s, i, |mark|);
    SeriesGateIsRegex(s);
  }

  /** Every date written with a three-letter month, optionally followed by
      `.` or `,`, passes the episode gate. */
  lemma SeriesGateAcceptsFormatted(d: Date, month: string, mark: string)
    requires ValidDate(d) && 1000 <= d.year
    requires |month| == 3 && AllIn(month, Words)
    requires mark == "" || mark == "." || mark == ","
    ensures SeriesGate(FormatDate(d, month + mark))
  {
    NatToStringLength(d.day);
    NatToStringLength(d.year);
    SeriesFieldsMatch(NatToString(d.day), month, mark, NatToString(d.year));
  }
}
