/**
 * The date check of load_dataset: `datetime.strptime(key, "%Y-%m-%d")`.
 *
 * CPython turns the format into a regular expression (%Y is four digits, %m is
 * `1[0-2]|0[1-9]|[1-9]`, %d is `3[01]|[12]\d|0[1-9]|[1-9]| [1-9]`), matches it
 * at the start of the key, rejects the key when characters are left over, and
 * then builds a `datetime`, which rejects year 0 and a day past the end of its
 * month. Any of these rejections is a ValueError, which load_dataset turns into
 * a skipped entry.
 */
module Dates {
  import opened Wrappers

  datatype Date = Date(year: int, month: int, day: int)

  /** The Gregorian leap-year rule that `datetime` applies. */
  predicate IsLeapYear(y: int) {
    y % 4 == 0 && (y % 100 != 0 || y % 400 == 0)
  }

  function DaysInMonth(y: int, m: int): (n: int)
    requires 1 <= m <= 12
    ensures 28 <= n <= 31
  {
    if m == 2 then (if IsLeapYear(y) then 29 else 28)
    else if m == 4 || m == 6 || m == 9 || m == 11 then 30
    else 31
  }

  /** A date `datetime` accepts: year between MINYEAR 1 and MAXYEAR 9999, a real month and day. */
  predicate IsValidDate(d: Date) {
    1 <= d.year <= 9999 && 1 <= d.month <= 12 && 1 <= d.day <= DaysInMonth(d.year, d.month)
  }

  predicate IsDigit(c: char) {
    '0' <= c <= '9'
  }

  function DigitValue(c: char): (v: nat)
    requires IsDigit(c)
    ensures v < 10
  {
    c as int - '0' as int
  }

  predicate HasYearDigits(s: string) {
    |s| >= 4 && IsDigit(s[0]) && IsDigit(s[1]) && IsDigit(s[2]) && IsDigit(s[3])
  }

  /** The number the four leading digits of a key spell. */
  function YearComponent(s: string): (y: nat)
    requires HasYearDigits(s)
    ensures y <= 9999
  {
    1000 * DigitValue(s[0]) + 100 * DigitValue(s[1]) + 10 * DigitValue(s[2]) + DigitValue(s[3])
  }

  /**
   * The %m field followed by the literal '-': the month and what follows the
   * dash. Of the alternatives only one can be followed by '-', so the order in
   * which the regular expression tries them does not matter here.
   */
  function ParseMonth(r: string): (res: Option<(int, string)>)
    ensures res.Some? ==> 1 <= res.value.0 <= 12
    ensures res.Some? ==> |res.value.1| < |r|
    ensures res.Some? ==>
      var k := |r| - |res.value.1| - 1;
      1 <= k <= 2 && r[k] == '-' && SpellsMonth(r[..k], res.value.0) && res.value.1 == r[k + 1..]
  {
    if |r| >= 3 && r[2] == '-' && ((r[0] == '1' && '0' <= r[1] <= '2') || (r[0] == '0' && '1' <= r[1] <= '9')) then
      TwoDigitsOf(r[..2]);
      Some((10 * DigitValue(r[0]) + DigitValue(r[1]), r[3..]))
    else if |r| >= 2 && r[1] == '-' && '1' <= r[0] <= '9' then
      DigitOf(r[0]);
      Some((DigitValue(r[0]), r[2..]))
    else
      None
  }

  /**
   * The %d field, which ends the pattern: the first alternative that matches a
   * prefix wins, and the key is rejected unless it consumed every character.
   */
  function ParseDay(r: string): (res: Option<int>)
    ensures res.Some? ==> 1 <= res.value <= 31
    ensures res.Some? ==> 1 <= |r| <= 2
    ensures res.Some? ==> SpellsDay(r, res.value)
  {
    if |r| >= 2 && r[0] == '3' && '0' <= r[1] <= '1' then
      if |r| == 2 then TwoDigitsOf(r); Some(30 + DigitValue(r[1])) else None
    else if |r| >= 2 && '1' <= r[0] <= '2' && IsDigit(r[1]) then
      if |r| == 2 then TwoDigitsOf(r); Some(10 * DigitValue(r[0]) + DigitValue(r[1])) else None
    else if |r| >= 2 && r[0] == '0' && '1' <= r[1] <= '9' then
      if |r| == 2 then TwoDigitsOf(r); Some(DigitValue(r[1])) else None
    else if |r| >= 1 && '1' <= r[0] <= '9' then
      if |r| == 1 then DigitOf(r[0]); Some(DigitValue(r[0])) else None
    else if |r| >= 2 && r[0] == ' ' && '1' <= r[1] <= '9' then
      if |r| == 2 then DigitOf(r[1]); Some(DigitValue(r[1])) else None
    else
      None
  }

  /** `datetime.strptime(s, "%Y-%m-%d")`: the date, or None where it raises ValueError. */
  function ParseDate(s: string): (res: Option<Date>)
    ensures res.Some? ==> IsValidDate(res.value)
    ensures res.Some? ==> HasYearDigits(s) && res.value.year == YearComponent(s)
  {
    if HasYearDigits(s) && |s| >= 5 && s[4] == '-' then
      match ParseMonth(s[5..])
      case None => None
      case Some((m, rest)) =>
        match ParseDay(rest)
        case None => None
        case Some(d) =>
          var date := Date(YearComponent(s), m, d);
          if IsValidDate(date) then Some(date) else None
    else
      None
  }

  function Digit(n: nat): (c: char)
    requires n < 10
    ensures IsDigit(c) && DigitValue(c) == n
  {
    ('0' as int + n) as char
  }

  lemma DigitOf(c: char)
    requires IsDigit(c)
    ensures Digit(DigitValue(c)) == c
  {
  }

  /** A number below 10000 written with four digits, zero-padded. */
  function YearDigits(y: int): (f: string)
    requires 0 <= y <= 9999
    ensures |f| == 4
  {
    [Digit(y / 1000), Digit(y / 100 % 10), Digit(y / 10 % 10), Digit(y % 10)]
  }

  /** A number below 100 written with two digits, zero-padded. */
  function TwoDigits(n: int): (f: string)
    requires 0 <= n < 100
    ensures |f| == 2
  {
    [Digit(n / 10), Digit(n % 10)]
  }

  /** Two digits are the two-digit spelling of the number they denote. */
  lemma TwoDigitsOf(f: string)
    requires |f| == 2 && IsDigit(f[0]) && IsDigit(f[1])
    ensures TwoDigits(10 * DigitValue(f[0]) + DigitValue(f[1])) == f
  {
    SplitTwoDigits(DigitValue(f[0]), DigitValue(f[1]));
    DigitOf(f[0]);
    DigitOf(f[1]);
  }

  /** The ways %m can spell month m: two digits, zero-padded, or one digit below 10. */
  predicate SpellsMonth(f: string, m: int) {
    1 <= m <= 12 && (f == TwoDigits(m) || (m < 10 && f == [Digit(m)]))
  }

  /** The ways %d can spell day d: two digits, zero-padded, or below 10 one digit alone or after a space. */
  predicate SpellsDay(f: string, d: int) {
    1 <= d <= 31 && (f == TwoDigits(d) || (d < 10 && (f == [Digit(d)] || f == [' ', Digit(d)])))
  }

  /** The key that writes year y in four digits and then the given month and day fields. */
  function KeyOf(y: int, month: string, day: string): string
    requires 0 <= y <= 9999
  {
    YearDigits(y) + ['-'] + month + ['-'] + day
  }

  /** The keys `%Y-%m-%d` reads as the fields of d. */
  ghost predicate IsSpellingOf(s: string, d: Date) {
    0 <= d.year <= 9999 &&
    exists month, day :: SpellsMonth(month, d.month) && SpellsDay(day, d.day) && s == KeyOf(d.year, month, day)
  }

  /** The canonical `YYYY-MM-DD` spelling of a date, zero-padded. */
  function FormatDate(d: Date): (s: string)
    requires IsValidDate(d)
    ensures |s| == 10
  {
    KeyOf(d.year, TwoDigits(d.month), TwoDigits(d.day))
  }

  /** A key in the canonical shape: four digits, dash, two digits, dash, two digits. */
  predicate IsCanonicalShape(s: string) {
    |s| == 10 && HasYearDigits(s) && s[4] == '-' && IsDigit(s[5]) && IsDigit(s[6]) &&
    s[7] == '-' && IsDigit(s[8]) && IsDigit(s[9])
  }

  lemma FourDigits(y: int)
    requires 0 <= y <= 9999
    ensures 1000 * (y / 1000) + 100 * (y / 100 % 10) + 10 * (y / 10 % 10) + y % 10 == y
  {
    var q1 := y / 10;
    var q2 := q1 / 10;
    var q3 := q2 / 10;
    DivModOf(y, q2, 10 * (q1 % 10) + y % 10, 100);
    DivModOf(y, q3, 100 * (q2 % 10) + 10 * (q1 % 10) + y % 10, 1000);
  }

  /** The two-digit month field of a canonical key. */
  lemma ParseTwoDigitMonth(r: string, m: int)
    requires 1 <= m <= 12 && |r| >= 3
    requires r[0] == Digit(m / 10) && r[1] == Digit(m % 10) && r[2] == '-'
    ensures ParseMonth(r) == Some((m, r[3..]))
  {
  }

  /** The two-digit day field of a canonical key. */
  lemma ParseTwoDigitDay(r: string, d: int)
    requires 1 <= d <= 31 && |r| == 2
    requires r[0] == Digit(d / 10) && r[1] == Digit(d % 10)
    ensures ParseDay(r) == Some(d)
  {
  }

  /** On two digits and a dash, the month field can only read them as one number. */
  lemma TwoDigitMonthValue(r: string)
    requires |r| >= 3 && IsDigit(r[0]) && IsDigit(r[1]) && r[2] == '-'
    ensures ParseMonth(r).Some? ==> ParseMonth(r) == Some((10 * DigitValue(r[0]) + DigitValue(r[1]), r[3..]))
  {
  }

  /** On two digits, the day field can only read them as one number. */
  lemma TwoDigitDayValue(r: string)
    requires |r| == 2 && IsDigit(r[0]) && IsDigit(r[1])
    ensures ParseDay(r).Some? ==> ParseDay(r) == Some(10 * DigitValue(r[0]) + DigitValue(r[1]))
  {
  }

  /** Every valid date, spelled canonically, is parsed back to itself. */
  lemma ParseFormattedDate(d: Date)
    requires IsValidDate(d)
    ensures IsCanonicalShape(FormatDate(d))
    ensures ParseDate(FormatDate(d)) == Some(d)
  {
    SpellingParses(d, TwoDigits(d.month), TwoDigits(d.day));
  }

  /** The date a canonically shaped key spells, read field by field. */
  function CanonicalFields(s: string): Date
    requires IsCanonicalShape(s)
  {
    Date(YearComponent(s), 10 * DigitValue(s[5]) + DigitValue(s[6]), 10 * DigitValue(s[8]) + DigitValue(s[9]))
  }

  lemma ParseCanonicalFields(s: string)
    requires IsCanonicalShape(s)
    ensures ParseDate(s) == if IsValidDate(CanonicalFields(s)) then Some(CanonicalFields(s)) else None
  {
    var d := CanonicalFields(s);
    if ParseDate(s).Some? {
      assert s[5..][3..] == s[8..];
      TwoDigitMonthValue(s[5..]);
      TwoDigitDayValue(s[8..]);
      assert ParseDate(s).value == d;
    }
    if IsValidDate(d) {
      FormatCanonicalFields(s);
      SpellingParses(d, s[5..7], s[8..10]);
    }
  }

  lemma SplitFourDigits(a: nat, b: nat, c: nat, e: nat)
    requires a < 10 && b < 10 && c < 10 && e < 10
    ensures var y := 1000 * a + 100 * b + 10 * c + e;
      y / 1000 == a && y / 100 % 10 == b && y / 10 % 10 == c && y % 10 == e
  {
    var y := 1000 * a + 100 * b + 10 * c + e;
    DivModOf(y, a, 100 * b + 10 * c + e, 1000);
    DivModOf(y, 10 * a + b, 10 * c + e, 100);
    DivModOf(y, 100 * a + 10 * b + c, e, 10);
    SplitTwoDigits(a, b);
    DivModOf(100 * a + 10 * b + c, 10 * a + b, c, 10);
  }

  lemma DivModOf(y: int, q: int, r: int, n: int)
    requires n == 10 || n == 100 || n == 1000
    requires 0 <= r < n && y == q * n + r
    ensures y / n == q && y % n == r
  {
    if n == 10 {
      assert y == q * 10 + r;
    } else if n == 100 {
      assert y == q * 100 + r;
    } else {
      assert y == q * 1000 + r;
    }
  }

  lemma SplitTwoDigits(a: nat, b: nat)
    requires a < 10 && b < 10
    ensures (10 * a + b) / 10 == a && (10 * a + b) % 10 == b
  {
  }

  lemma FormatCanonicalFields(s: string)
    requires IsCanonicalShape(s)
    ensures s == KeyOf(YearComponent(s), s[5..7], s[8..10])
    ensures s[5..7] == TwoDigits(CanonicalFields(s).month) && s[8..10] == TwoDigits(CanonicalFields(s).day)
    ensures IsValidDate(CanonicalFields(s)) ==> FormatDate(CanonicalFields(s)) == s
  {
    YearDigitsOf(s);
    TwoDigitsOf(s[5..7]);
    TwoDigitsOf(s[8..10]);
    assert s == s[..4] + ['-'] + s[5..7] + ['-'] + s[8..10];
  }

  /**
   * A canonically shaped key is accepted exactly when its fields form a valid
   * date, and an accepted one is the canonical spelling of what it parses to.
   */
  lemma ParseCanonicalDate(s: string)
    requires IsCanonicalShape(s)
    ensures ParseDate(s).Some? <==> IsValidDate(CanonicalFields(s))
    ensures ParseDate(s).Some? ==> ParseDate(s).value == CanonicalFields(s) && FormatDate(ParseDate(s).value) == s
  {
    ParseCanonicalFields(s);
    if IsValidDate(CanonicalFields(s)) {
      FormatCanonicalFields(s);
    }
  }

  /** A month field that spells m, then a dash, is read as m, leaving what follows the dash. */
  lemma MonthSpellingParses(f: string, m: int, rest: string)
    requires SpellsMonth(f, m)
    ensures ParseMonth(f + ['-'] + rest) == Some((m, rest))
  {
    var r := f + ['-'] + rest;
    if f == TwoDigits(m) {
      assert r[0] == Digit(m / 10) && r[1] == Digit(m % 10) && r[2] == '-';
      assert r[3..] == rest;
      ParseTwoDigitMonth(r, m);
    } else {
      assert r[0] == Digit(m) && r[1] == '-' && r[2..] == rest;
    }
  }

  /** A day field that spells d is read as d. */
  lemma DaySpellingParses(f: string, d: int)
    requires SpellsDay(f, d)
    ensures ParseDay(f) == Some(d)
  {
    if f == TwoDigits(d) {
      ParseTwoDigitDay(f, d);
    }
  }

  /** Four digits are the four-digit spelling of the year they denote. */
  lemma YearDigitsOf(s: string)
    requires HasYearDigits(s)
    ensures YearDigits(YearComponent(s)) == s[..4]
  {
    SplitFourDigits(DigitValue(s[0]), DigitValue(s[1]), DigitValue(s[2]), DigitValue(s[3]));
    DigitOf(s[0]);
    DigitOf(s[1]);
    DigitOf(s[2]);
    DigitOf(s[3]);
  }

  /** A key that opens with the four-digit spelling of y has year component y. */
  lemma YearComponentOf(s: string, y: int)
    requires 0 <= y <= 9999 && |s| >= 4 && s[..4] == YearDigits(y)
    ensures HasYearDigits(s) && YearComponent(s) == y
  {
    FourDigits(y);
    assert s[0] == s[..4][0] && s[1] == s[..4][1] && s[2] == s[..4][2] && s[3] == s[..4][3];
  }

  /** Every spelling of a valid date is parsed back to that date. */
  lemma SpellingParses(d: Date, month: string, day: string)
    requires IsValidDate(d) && SpellsMonth(month, d.month) && SpellsDay(day, d.day)
    ensures ParseDate(KeyOf(d.year, month, day)) == Some(d)
  {
    var s := KeyOf(d.year, month, day);
    assert s[..4] == YearDigits(d.year);
    YearComponentOf(s, d.year);
    assert s[4] == '-';
    assert s[5..] == month + ['-'] + day;
    MonthSpellingParses(month, d.month, day);
    DaySpellingParses(day, d.day);
  }

  /** A key that strptime accepts is one of the spellings of the date it yields. */
  lemma ParsedIsSpelling(s: string)
    requires ParseDate(s).Some?
    ensures IsSpellingOf(s, ParseDate(s).value)
  {
    var d := ParseDate(s).value;
    var r := s[5..];
    var rest := ParseMonth(r).value.1;
    var k := |r| - |rest| - 1;
    var month := r[..k];
    YearDigitsOf(s);
    assert r == month + [r[k]] + rest;
    assert s == s[..4] + [s[4]] + r;
    assert s == KeyOf(d.year, month, rest);
  }

  /**
   * The keys `datetime.strptime(key, "%Y-%m-%d")` accepts for a valid date are
   * exactly its spellings: the year in four digits, the month in two digits or
   * (below 10) one, the day in two digits or (below 10) one digit alone or after
   * a space.
   */
  lemma ParseDateSpellings(s: string, d: Date)
    requires IsValidDate(d)
    ensures ParseDate(s) == Some(d) <==> IsSpellingOf(s, d)
  {
    if ParseDate(s) == Some(d) {
      ParsedIsSpelling(s);
    }
    if IsSpellingOf(s, d) {
      var month, day :| SpellsMonth(month, d.month) && SpellsDay(day, d.day) && s == KeyOf(d.year, month, day);
      SpellingParses(d, month, day);
    }
  }

  /** strptime also takes a one-digit month or day, or a day padded with a space. */
  lemma LenientFieldsAccepted()
    ensures ParseDate("1989-4-16") == Some(Date(1989, 4, 16))
    ensures ParseDate("1989-04- 6") == Some(Date(1989, 4, 6))
    ensures ParseDate("1989-4-6") == Some(Date(1989, 4, 6))
  {
    assert YearDigits(1989) == "1989";
    assert TwoDigits(4) == "04" && TwoDigits(16) == "16";
    assert KeyOf(1989, "4", "16") == "1989-4-16";
    assert KeyOf(1989, "04", " 6") == "1989-04- 6";
    assert KeyOf(1989, "4", "6") == "1989-4-6";
    SpellingParses(Date(1989, 4, 16), "4", "16");
    SpellingParses(Date(1989, 4, 6), "04", " 6");
    SpellingParses(Date(1989, 4, 6), "4", "6");
  }

  /** The leap-year rule: 2000 is a leap year, so it has a 29 February. */
  lemma LeapDayAccepted(s: string)
    requires s == "2000-02-29"
    ensures ParseDate(s) == Some(Date(2000, 2, 29))
  {
    ParseCanonicalDate(s);
    assert CanonicalFields(s) == Date(2000, 2, 29);
  }

  /** The leap-year rule: 1900 is not a leap year, so it has no 29 February. */
  lemma LeapDayRejected(s: string)
    requires s == "1900-02-29"
    ensures ParseDate(s) == None
  {
    ParseCanonicalDate(s);
    assert CanonicalFields(s) == Date(1900, 2, 29);
  }

  /** A day past the end of its month: April has 30 days. */
  lemma DayPastMonthRejected(s: string)
    requires s == "1989-04-31"
    ensures ParseDate(s) == None
  {
    ParseCanonicalDate(s);
    assert CanonicalFields(s) == Date(1989, 4, 31);
  }

  /** Year 0 is below MINYEAR. */
  lemma YearZeroRejected(s: string)
    requires s == "0000-01-01"
    ensures ParseDate(s) == None
  {
    ParseCanonicalDate(s);
    assert CanonicalFields(s) == Date(0, 1, 1);
  }

  /** There is no month 13. */
  lemma MonthThirteenRejected(s: string)
    requires s == "1989-13-01"
    ensures ParseDate(s) == None
  {
    ParseCanonicalDate(s);
    assert CanonicalFields(s) == Date(1989, 13, 1);
  }

  /** A character left over after the day field: "unconverted data remains". */
  lemma LeftoverRejected(s: string)
    requires s == "1989-04-161"
    ensures ParseDate(s) == None
  {
    assert s[5..] == "04-161";
    assert ParseMonth(s[5..]) == Some((4, "161"));
    assert ParseDay("161") == None;
  }
}
