/** Days of the Gregorian calendar, numbered from 1970-01-01, and their rendering as `2006-01-02`. */
module Dates {

  datatype Date = Date(year: int, month: int, day: int)

  predicate IsLeap(year: int) {
    year % 4 == 0 && (year % 100 != 0 || year % 400 == 0)
  }

  const COMMON_STARTS := [0, 31, 59, 90, 120, 151, 181, 212, 243, 273, 304, 334, 365]

  /** The number of days of a year before its month `m`; month 13 stands for the end of the year. */
  function MonthStart(leap: bool, m: int): int
    requires 1 <= m <= 13
  {
    COMMON_STARTS[m - 1] + if leap && m > 2 then 1 else 0
  }

  /** The last month, up to `m`, that starts on day `yday` of the year or before. */
  function MonthOf(leap: bool, yday: int, m: int): (month: int)
    requires 1 <= m <= 12 && 0 <= yday < MonthStart(leap, m + 1)
    ensures 1 <= month <= m && MonthStart(leap, month) <= yday < MonthStart(leap, month + 1)
    decreases m
  {
    if MonthStart(leap, m) <= yday then m else MonthOf(leap, yday, m - 1)
  }

  // days from 0001-01-01 to 1970-01-01, and in 400, 100 and 4 years that start with year 1
  const EPOCH := 719162
  const DAYS_400 := 146097
  const DAYS_100 := 36524
  const DAYS_4 := 1461

  /** Year, counted from 0, and day of that year, by cycles of 400, 100, 4 years and single years. */
  function YearAndDay(day: int): (int, int) {
    var n400, r400 := (day + EPOCH) / DAYS_400, (day + EPOCH) % DAYS_400;
    var n100 := if r400 / DAYS_100 == 4 then 3 else r400 / DAYS_100;
    var r100 := r400 - n100 * DAYS_100;
    var n4, r4 := r100 / DAYS_4, r100 % DAYS_4;
    var n1 := if r4 / 365 == 4 then 3 else r4 / 365;
    (400 * n400 + 100 * n100 + 4 * n4 + n1, r4 - 365 * n1)
  }

  /** The days before a year, counted from 0, since 1970: 365 each and one more for every leap year. */
  function YearStart(years: int): int {
    365 * years + years / 4 - years / 100 + years / 400 - EPOCH
  }

  lemma YearAndDayExact(day: int)
    ensures var (years, yday) := YearAndDay(day);
            && day == YearStart(years) + yday
            && 0 <= yday < (if IsLeap(years + 1) then 366 else 365)
  {
    var n400, r400 := (day + EPOCH) / DAYS_400, (day + EPOCH) % DAYS_400;
    var n100 := if r400 / DAYS_100 == 4 then 3 else r400 / DAYS_100;
    var r100 := r400 - n100 * DAYS_100;
    var n4, r4 := r100 / DAYS_4, r100 % DAYS_4;
    var n1 := if r4 / 365 == 4 then 3 else r4 / 365;
    Centuries(r400);
    FourYears(r100);
    SingleYears(r4);
    CycleYears(n400, n100, n4, n1);
    CycleDays(day, n400, r400, n100, r100, n4, r4, n1);
  }

  /** The days of the cycles add up. */
  lemma CycleDays(day: int, n400: int, r400: int, n100: int, r100: int, n4: int, r4: int, n1: int)
    requires day + EPOCH == n400 * DAYS_400 + r400 && r400 == n100 * DAYS_100 + r100 && r100 == n4 * DAYS_4 + r4
    requires 0 <= n100 <= 3 && 0 <= n4 <= 24 && 0 <= n1 <= 3
    ensures day == YearStart(400 * n400 + 100 * n100 + 4 * n4 + n1) + r4 - 365 * n1
  {
    CycleYears(n400, n100, n4, n1);
  }

  lemma Centuries(r: int)
    requires 0 <= r < DAYS_400
    ensures var n := if r / DAYS_100 == 4 then 3 else r / DAYS_100;
            0 <= n <= 3 && 0 <= r - n * DAYS_100 <= DAYS_100 && (n < 3 ==> r - n * DAYS_100 < DAYS_100)
  {
  }

  lemma FourYears(r: int)
    requires 0 <= r <= DAYS_100
    ensures 0 <= r / DAYS_4 <= 24 && r == r / DAYS_4 * DAYS_4 + r % DAYS_4
    ensures r / DAYS_4 == 24 && r % DAYS_4 == DAYS_4 - 1 ==> r == DAYS_100
  {
  }

  lemma SingleYears(r: int)
    requires 0 <= r < DAYS_4
    ensures var n := if r / 365 == 4 then 3 else r / 365;
            0 <= n <= 3 && 0 <= r - 365 * n <= 365 && (r - 365 * n == 365 ==> n == 3 && r == DAYS_4 - 1)
  {
  }

  lemma By4(q: int, r: int)
    requires 0 <= r < 4
    ensures (4 * q + r) / 4 == q && (4 * q + r) % 4 == r
  {
  }

  lemma By100(q: int, r: int)
    requires 0 <= r < 100
    ensures (100 * q + r) / 100 == q && (100 * q + r) % 100 == r
  {
  }

  lemma By400(q: int, r: int)
    requires 0 <= r < 400
    ensures (400 * q + r) / 400 == q && (400 * q + r) % 400 == r
  {
  }

  lemma CycleYears(n400: int, n100: int, n4: int, n1: int)
    requires 0 <= n100 <= 3 && 0 <= n4 <= 24 && 0 <= n1 <= 3
    ensures var years := 400 * n400 + 100 * n100 + 4 * n4 + n1;
            && years / 4 == 100 * n400 + 25 * n100 + n4
            && years / 100 == 4 * n400 + n100
            && years / 400 == n400
            && (IsLeap(years + 1) <==> n1 == 3 && (n4 != 24 || n100 == 3))
  {
    By4(100 * n400 + 25 * n100 + n4, n1);
    By100(4 * n400 + n100, 4 * n4 + n1);
    By400(n400, 100 * n100 + 4 * n4 + n1);
    if n1 < 3 {
      By4(100 * n400 + 25 * n100 + n4, n1 + 1);
    } else {
      By4(100 * n400 + 25 * n100 + n4 + 1, 0);
      if n4 < 24 {
        By100(4 * n400 + n100, 4 * n4 + 4);
      } else {
        By100(4 * n400 + n100 + 1, 0);
        if n100 < 3 { By400(n400, 100 * n100 + 100); } else { By400(n400 + 1, 0); }
      }
    }
  }

  function CivilDate(day: int): Date {
    var (years, yday) := YearAndDay(day);
    YearAndDayExact(day);
    var leap := IsLeap(years + 1);
    var month := MonthOf(leap, yday, 12);
    Date(years + 1, month, yday - MonthStart(leap, month) + 1)
  }

  predicate IsDate(d: Date) {
    && 1 <= d.month <= 12
    && 1 <= d.day <= MonthStart(IsLeap(d.year), d.month + 1) - MonthStart(IsLeap(d.year), d.month)
  }

  function DayNumber(d: Date): int
    requires IsDate(d)
  {
    YearStart(d.year - 1) + MonthStart(IsLeap(d.year), d.month) + d.day - 1
  }

  /** The day after, by the lengths of months and years. */
  function NextDate(d: Date): Date
    requires IsDate(d)
  {
    if d.day < MonthStart(IsLeap(d.year), d.month + 1) - MonthStart(IsLeap(d.year), d.month) then d.(day := d.day + 1)
    else if d.month < 12 then Date(d.year, d.month + 1, 1)
    else Date(d.year + 1, 1, 1)
  }

  lemma QuotientSteps(year: int)
    ensures year / 4 - (year - 1) / 4 == if year % 4 == 0 then 1 else 0
    ensures year / 100 - (year - 1) / 100 == if year % 100 == 0 then 1 else 0
    ensures year / 400 - (year - 1) / 400 == if year % 400 == 0 then 1 else 0
  {
    if year % 4 == 0 { By4(year / 4 - 1, 3); } else { By4(year / 4, year % 4 - 1); }
    if year % 100 == 0 { By100(year / 100 - 1, 99); } else { By100(year / 100, year % 100 - 1); }
    if year % 400 == 0 { By400(year / 400 - 1, 399); } else { By400(year / 400, year % 400 - 1); }
  }

  lemma Multiples(year: int)
    ensures year % 400 == 0 ==> year % 100 == 0
    ensures year % 100 == 0 ==> year % 4 == 0
  {
    if year % 400 == 0 { By100(4 * (year / 400), 0); }
    if year % 100 == 0 { By4(25 * (year / 100), 0); }
  }

  lemma YearLength(year: int)
    ensures YearStart(year) - YearStart(year - 1) == if IsLeap(year) then 366 else 365
  {
    QuotientSteps(year);
    Multiples(year);
  }

  lemma EpochIsDayZero()
    ensures DayNumber(Date(1970, 1, 1)) == 0
  {
  }

  lemma NextDateIsDate(d: Date)
    requires IsDate(d)
    ensures IsDate(NextDate(d))
    ensures NextDate(d).year == d.year || (d.month == 12 && d.day == 31 && NextDate(d) == Date(d.year + 1, 1, 1))
  {
  }

  /** The numbering is that of the calendar: 1 January 1970 has number 0, and each next date the next number. */
  lemma NumbersFollowTheCalendar(d: Date)
    requires IsDate(d)
    ensures DayNumber(Date(1970, 1, 1)) == 0
    ensures IsDate(NextDate(d)) && DayNumber(NextDate(d)) == DayNumber(d) + 1
  {
    EpochIsDayZero();
    NextDateIsDate(d);
    if NextDate(d).year != d.year {
      YearLength(d.year);
      assert MonthStart(IsLeap(d.year), 12) + 31 == if IsLeap(d.year) then 366 else 365;
      LastDay(YearStart(d.year - 1), MonthStart(IsLeap(d.year), 12), YearStart(d.year), IsLeap(d.year));
    }
  }

  lemma LastDay(start: int, december: int, next: int, leap: bool)
    requires next - start == (if leap then 366 else 365) && december + 31 == (if leap then 366 else 365)
    ensures next == start + december + 31
  {
  }

  /** Every day has a valid date, and counting days and leap days back from it gives the day. */
  lemma CivilDateExact(day: int)
    ensures IsDate(CivilDate(day)) && DayNumber(CivilDate(day)) == day
  {
    YearAndDayExact(day);
  }

  // ----- rendering -----

  predicate AllDigits(s: string) {
    forall i :: 0 <= i < |s| ==> '0' <= s[i] <= '9'
  }

  function Digit(n: int): (c: char)
    requires 0 <= n <= 9
    ensures '0' <= c <= '9' && c as int - '0' as int == n
  {
    "0123456789"[n]
  }

  function Decimal(n: nat): (s: string)
    ensures AllDigits(s)
  {
    if n < 10 then [Digit(n)] else Decimal(n / 10) + [Digit(n % 10)]
  }

  function Value(s: string): int {
    if s == "" then 0 else 10 * Value(s[..|s| - 1]) + s[|s| - 1] as int - '0' as int
  }

  function Padded(s: string, width: nat): (p: string)
    requires AllDigits(s)
    ensures AllDigits(p) && width <= |p|
    decreases width - |s|
  {
    if |s| >= width then s else Padded("0" + s, width)
  }

  lemma {:induction false} ValueOfDecimal(n: nat)
    ensures Value(Decimal(n)) == n
  {
    if n >= 10 {
      ValueOfDecimal(n / 10);
      assert Decimal(n)[..|Decimal(n)| - 1] == Decimal(n / 10);
    } else {
      assert [Digit(n)][..0] == "";
    }
  }

  lemma {:induction false} ValueOfZero(s: string)
    ensures Value("0" + s) == Value(s)
  {
    var z := "0" + s;
    if s == "" {
      assert z[..0] == "";
    } else {
      ValueOfZero(s[..|s| - 1]);
      assert z[..|z| - 1] == "0" + s[..|s| - 1];
    }
  }

  lemma {:induction false} ValueOfPadded(s: string, width: nat)
    requires AllDigits(s)
    ensures Value(Padded(s, width)) == Value(s)
    decreases width - |s|
  {
    if |s| < width {
      ValueOfZero(s);
      ValueOfPadded("0" + s, width);
    }
  }

  /** At least four digits, after a sign for years before 0. */
  function YearString(year: int): (s: string)
    ensures forall i :: 0 <= i < |s| ==> s[i] == '-' || '0' <= s[i] <= '9'
    ensures s != "" && (s[0] == '-' <==> year < 0)
  {
    if year < 0 then "-" + Padded(Decimal(-year), 4) else Padded(Decimal(year), 4)
  }

  lemma YearStringInjective(a: int, b: int)
    requires YearString(a) == YearString(b)
    ensures a == b
  {
    var n, m: nat := if a < 0 then -a else a, if b < 0 then -b else b;
    ValueOfDecimal(n);
    ValueOfDecimal(m);
    ValueOfPadded(Decimal(n), 4);
    ValueOfPadded(Decimal(m), 4);
    if a < 0 {
      assert YearString(a)[1..] == Padded(Decimal(n), 4) && YearString(b)[1..] == Padded(Decimal(m), 4);
    }
  }

  function TwoDigits(n: int): (s: string)
    requires 0 <= n <= 99
    ensures |s| == 2 && AllDigits(s)
  {
    [Digit(n / 10), Digit(n % 10)]
  }

  lemma TwoDigitsInjective(a: int, b: int)
    requires 0 <= a <= 99 && 0 <= b <= 99 && TwoDigits(a) == TwoDigits(b)
    ensures a == b
  {
    assert TwoDigits(a)[0] == TwoDigits(b)[0] && TwoDigits(a)[1] == TwoDigits(b)[1];
  }

  function Rendered(d: Date): string
    requires IsDate(d)
  {
    YearString(d.year) + "-" + TwoDigits(d.month) + "-" + TwoDigits(d.day)
  }

  /** The last six characters tell where a date's parts are. */
  lemma SameParts(y: string, m: string, d: string, y': string, m': string, d': string)
    requires |m| == |d| == |m'| == |d'| == 2 && y + "-" + m + "-" + d == y' + "-" + m' + "-" + d'
    ensures y == y' && m == m' && d == d'
  {
    var s, t := y + "-" + m + "-" + d, y' + "-" + m' + "-" + d';
    assert |s| == |y| + 6 && |t| == |y'| + 6;
    assert y == s[..|y|] && y' == t[..|y|];
    assert m == s[|y| + 1..|y| + 3] && m' == t[|y| + 1..|y| + 3];
    assert d == s[|y| + 4..] && d' == t[|y| + 4..];
  }

  lemma RenderedInjective(a: Date, b: Date)
    requires IsDate(a) && IsDate(b) && Rendered(a) == Rendered(b)
    ensures a == b
  {
    SameParts(YearString(a.year), TwoDigits(a.month), TwoDigits(a.day),
              YearString(b.year), TwoDigits(b.month), TwoDigits(b.day));
    YearStringInjective(a.year, b.year);
    TwoDigitsInjective(a.month, b.month);
    TwoDigitsInjective(a.day, b.day);
  }

  lemma RenderedParts(d: Date)
    requires IsDate(d) && |YearString(d.year)| == 4
    ensures |Rendered(d)| == 10 && Rendered(d)[4] == '-' && Rendered(d)[7] == '-'
    ensures Rendered(d)[..4] == YearString(d.year)
    ensures Rendered(d)[5..7] == TwoDigits(d.month) && Rendered(d)[8..] == TwoDigits(d.day)
  {
  }

  lemma FourDigitYear(year: nat)
    requires year <= 9999
    ensures |YearString(year)| == 4 && Value(YearString(year)) == year
  {
    assert PowerOfTen(2) == 100;
    assert PowerOfTen(4) == 10000;
    DecimalWidth(year, 4);
    PaddedWidth(Decimal(year), 4);
    ValueOfDecimal(year);
    ValueOfPadded(Decimal(year), 4);
  }

  /** For a year of four digits: the year first, then the month, then the day, each readable as a number. */
  lemma RenderedSays(d: Date)
    requires IsDate(d) && 0 <= d.year <= 9999
    ensures |Rendered(d)| == 10 && Rendered(d)[4] == '-' && Rendered(d)[7] == '-'
    ensures Value(Rendered(d)[..4]) == d.year
    ensures Value(Rendered(d)[5..7]) == d.month && Value(Rendered(d)[8..]) == d.day
  {
    FourDigitYear(d.year);
    RenderedParts(d);
    ValueOfTwoDigits(d.month);
    ValueOfTwoDigits(d.day);
  }

  lemma ValueOfTwoDigits(n: int)
    requires 0 <= n <= 99
    ensures Value(TwoDigits(n)) == n
  {
    var s := TwoDigits(n);
    assert s[..1] == [Digit(n / 10)] && s[..1][..0] == "";
    assert Value(s[..1]) == n / 10;
  }

  function DateString(day: int): string {
    CivilDateExact(day);
    Rendered(CivilDate(day))
  }

  /** Different days look different, and no date contains a colon. */
  lemma DateStringExact(day: int, other: int)
    ensures DateString(day) == DateString(other) <==> day == other
    ensures ':' !in DateString(day)
  {
    CivilDateExact(day);
    CivilDateExact(other);
    if DateString(day) == DateString(other) {
      RenderedInjective(CivilDate(day), CivilDate(other));
    }
  }

  function PowerOfTen(w: nat): nat {
    if w == 0 then 1 else 10 * PowerOfTen(w - 1)
  }

  lemma {:induction false} DecimalWidth(n: nat, w: nat)
    requires w > 0 && n < PowerOfTen(w)
    ensures |Decimal(n)| <= w
  {
    if n >= 10 {
      assert PowerOfTen(1) == 10;
      TenthIsBelow(n, PowerOfTen(w - 1));
      DecimalWidth(n / 10, w - 1);
    }
  }

  lemma TenthIsBelow(n: nat, p: nat)
    requires n < 10 * p
    ensures n / 10 < p
  {
  }

  /** Ten characters for every day of the years 0 to 9999. */
  lemma DateStringWidth(day: int)
    requires 0 <= CivilDate(day).year <= 9999
    ensures |DateString(day)| == 10
  {
    CivilDateExact(day);
    FourDigitYear(CivilDate(day).year);
    RenderedWidth(CivilDate(day));
  }

  lemma RenderedWidth(d: Date)
    requires IsDate(d)
    ensures |Rendered(d)| == |YearString(d.year)| + 6
  {
  }

  lemma {:induction false} PaddedWidth(s: string, width: nat)
    requires AllDigits(s) && |s| <= width
    ensures |Padded(s, width)| == width
    decreases width - |s|
  {
    if |s| < width { PaddedWidth("0" + s, width); }
  }
}
