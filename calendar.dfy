/**
 * The part of java.time the core uses: ISO dates (LocalDate), times of day
 * (LocalTime, kept to the second), date comparison, plusMonths/minusDays, the
 * epoch-day count behind getDayOfWeek, and the "yyyy-MM" pattern.
 */
module Calendar {
  import opened Common
  import opened Orders
  import opened Text

  /** The year range LocalDate accepts. */
  const MIN_YEAR: int := -999999999
  const MAX_YEAR: int := 999999999

  predicate IsLeapYear(y: int) {
    y % 4 == 0 && (y % 100 != 0 || y % 400 == 0)
  }

  function LengthOfMonth(y: int, m: int): (n: int)
    requires 1 <= m <= 12
    ensures 28 <= n <= 31
    ensures n == 29 <==> m == 2 && IsLeapYear(y)
  {
    if m == 2 then (if IsLeapYear(y) then 29 else 28)
    else if m == 4 || m == 6 || m == 9 || m == 11 then 30
    else 31
  }

  datatype Date = Date(year: int, month: int, day: int)

  predicate IsValidDate(d: Date) {
    && MIN_YEAR <= d.year <= MAX_YEAR
    && 1 <= d.month <= 12
    && 1 <= d.day <= LengthOfMonth(d.year, d.month)
  }

  /** A date LocalDate can represent. */
  type LocalDate = d: Date | IsValidDate(d) witness Date(1970, 1, 1)

  /** A LocalTime, as the second of the day (sub-second precision is not modelled). */
  type LocalTime = s: int | 0 <= s < 86400

  /** `a.isBefore(b)`: year, then month, then day. */
  function IsBefore(a: Date, b: Date): bool {
    a.year < b.year || (a.year == b.year && (a.month < b.month || (a.month == b.month && a.day < b.day)))
  }

  lemma IsBeforeIsStrictTotal()
    ensures StrictTotalOrder(IsBefore)
  {
  }

  /** `LocalDate.of(year, month, 1)`, which rejects a month outside 1..12 or a year out of range. */
  function FirstOfMonth(year: int, month: int): (r: Result<LocalDate>)
    ensures r.Ok? <==> MIN_YEAR <= year <= MAX_YEAR && 1 <= month <= 12
    ensures r.Ok? ==> r.value == Date(year, month, 1)
    ensures r.Err? ==> r.error == InvalidDate
  {
    if MIN_YEAR <= year <= MAX_YEAR && 1 <= month <= 12 then Ok(Date(year, month, 1)) else Err(InvalidDate)
  }

  /** `d.plusMonths(1)`: the same day next month, clamped to that month's length. */
  function PlusOneMonth(d: LocalDate): (r: Result<LocalDate>)
    ensures r.Err? <==> d.year == MAX_YEAR && d.month == 12
    ensures r.Err? ==> r.error == InvalidDate
    ensures r.Ok? ==> r.value.year * 12 + r.value.month == d.year * 12 + d.month + 1
    ensures r.Ok? ==> r.value.day <= d.day
    ensures r.Ok? && r.value.day < d.day ==> r.value.day == LengthOfMonth(r.value.year, r.value.month)
  {
    if d.month == 12 then
      if d.year == MAX_YEAR then Err(InvalidDate) else Ok(Date(d.year + 1, 1, d.day))
    else
      var n := LengthOfMonth(d.year, d.month + 1);
      Ok(Date(d.year, d.month + 1, if d.day <= n then d.day else n))
  }

  /** `d.minusDays(1)`: the day before, which fails only before the first representable date. */
  function MinusOneDay(d: LocalDate): (r: Result<LocalDate>)
    ensures r.Err? <==> d == Date(MIN_YEAR, 1, 1)
    ensures r.Err? ==> r.error == InvalidDate
    ensures r.Ok? ==> IsBefore(r.value, d)
  {
    if d.day > 1 then Ok(Date(d.year, d.month, d.day - 1))
    else if d.month > 1 then Ok(Date(d.year, d.month - 1, LengthOfMonth(d.year, d.month - 1)))
    else if d.year == MIN_YEAR then Err(InvalidDate)
    else Ok(Date(d.year - 1, 12, 31))
  }

  /** No date lies strictly between `d.minusDays(1)` and `d`. */
  lemma MinusOneDayIsPrevious(d: LocalDate, e: LocalDate)
    requires MinusOneDay(d).Ok?
    ensures IsBefore(e, d) <==> !IsBefore(MinusOneDay(d).value, e)
  {
  }

  /**
   * `startDate.plusMonths(1).minusDays(1)` for the first day of a month: the
   * month's last day, except for December of the last representable year,
   * where plusMonths throws.
   */
  function EndOfMonth(start: LocalDate): (r: Result<LocalDate>)
    requires start.day == 1
    ensures r.Err? <==> start.year == MAX_YEAR && start.month == 12
    ensures r.Ok? ==> r.value == Date(start.year, start.month, LengthOfMonth(start.year, start.month))
  {
    match PlusOneMonth(start)
    case Err(e) => Err(e)
    case Ok(next) => MinusOneDay(next)
  }

  /** A date lies between the first and the last day of a month exactly when it has that year and month. */
  lemma InMonthIff(d: LocalDate, start: LocalDate, end: LocalDate)
    requires start.day == 1 && end == Date(start.year, start.month, LengthOfMonth(start.year, start.month))
    ensures (!IsBefore(d, start) && !IsBefore(end, d)) <==> (d.year == start.year && d.month == start.month)
  {
  }

  /**
   * The leap days java.time counts between year 0 and the start of year `y`
   * (negative before year 0), with Java's truncating division.
   */
  function LeapDays(y: int): int {
    if y >= 0 then JavaDiv(y + 3, 4) - JavaDiv(y + 99, 100) + JavaDiv(y + 399, 400)
    else -(JavaDiv(-y, 4) - JavaDiv(-y, 100) + JavaDiv(-y, 400))
  }

  // One year on, the count of multiples of 4, 100 and 400 that LeapDays takes
  // grows by one exactly when the year left behind is such a multiple.

  lemma ForwardStep4(y: int)
    requires y >= 0
    ensures (y + 4) / 4 - (y + 3) / 4 == if y % 4 == 0 then 1 else 0
  {
    var q, r := y / 4, y % 4;
    assert y == 4 * q + r;
    assert (y + 4) / 4 == q + 1;
    assert (y + 3) / 4 == if r == 0 then q else q + 1;
  }

  lemma BackwardStep4(y: int)
    requires y <= -1
    ensures (-y) / 4 - (-y - 1) / 4 == if y % 4 == 0 then 1 else 0
  {
    var x := -y - 1;
    var q, r := x / 4, x % 4;
    assert x == 4 * q + r;
    assert (x + 1) / 4 == if r == 3 then q + 1 else q;
    assert y == 4 * (-q - 1) + (3 - r);
    assert y % 4 == 3 - r;
  }

  lemma ForwardStep100(y: int)
    requires y >= 0
    ensures (y + 100) / 100 - (y + 99) / 100 == if y % 100 == 0 then 1 else 0
  {
    var q, r := y / 100, y % 100;
    assert y == 100 * q + r;
    assert (y + 100) / 100 == q + 1;
    assert (y + 99) / 100 == if r == 0 then q else q + 1;
  }

  lemma BackwardStep100(y: int)
    requires y <= -1
    ensures (-y) / 100 - (-y - 1) / 100 == if y % 100 == 0 then 1 else 0
  {
    var x := -y - 1;
    var q, r := x / 100, x % 100;
    assert x == 100 * q + r;
    assert (x + 1) / 100 == if r == 99 then q + 1 else q;
    assert y == 100 * (-q - 1) + (99 - r);
    assert y % 100 == 99 - r;
  }

  lemma ForwardStep400(y: int)
    requires y >= 0
    ensures (y + 400) / 400 - (y + 399) / 400 == if y % 400 == 0 then 1 else 0
  {
    var q, r := y / 400, y % 400;
    assert y == 400 * q + r;
    assert (y + 400) / 400 == q + 1;
    assert (y + 399) / 400 == if r == 0 then q else q + 1;
  }

  lemma BackwardStep400(y: int)
    requires y <= -1
    ensures (-y) / 400 - (-y - 1) / 400 == if y % 400 == 0 then 1 else 0
  {
    var x := -y - 1;
    var q, r := x / 400, x % 400;
    assert x == 400 * q + r;
    assert (x + 1) / 400 == if r == 399 then q + 1 else q;
    assert y == 400 * (-q - 1) + (399 - r);
    assert y % 400 == 399 - r;
  }

  /** A multiple of 400 is one of 100. */
  lemma MultipleOf400(y: int)
    requires y % 400 == 0
    ensures y % 100 == 0
  {
    var q := y / 400;
    assert y == 400 * q;
    assert y == 100 * (4 * q) + 0;
  }

  /** A multiple of 100 is one of 4. */
  lemma MultipleOf100(y: int)
    requires y % 100 == 0
    ensures y % 4 == 0
  {
    var q := y / 100;
    assert y == 100 * q;
    assert y == 4 * (25 * q) + 0;
  }

  lemma NestedMultiples(y: int)
    ensures y % 400 == 0 ==> y % 100 == 0
    ensures y % 100 == 0 ==> y % 4 == 0
  {
    if y % 400 == 0 { MultipleOf400(y); }
    if y % 100 == 0 { MultipleOf100(y); }
  }

  /** LeapDays with the truncating divisions written as divisions of non-negative numbers. */
  lemma LeapDaysFormula(y: int)
    ensures y >= 0 ==> LeapDays(y) == (y + 3) / 4 - (y + 99) / 100 + (y + 399) / 400
    ensures y < 0 ==> LeapDays(y) == -((-y) / 4 - (-y) / 100 + (-y) / 400)
  {
  }

  lemma LeapDaysStepNonNegative(y: int)
    requires y >= 0
    ensures LeapDays(y + 1) - LeapDays(y) == if IsLeapYear(y) then 1 else 0
  {
    LeapDaysFormula(y);
    LeapDaysFormula(y + 1);
    ForwardStep4(y);
    ForwardStep100(y);
    ForwardStep400(y);
    NestedMultiples(y);
  }

  lemma LeapDaysStepNegative(y: int)
    requires y <= -2
    ensures LeapDays(y + 1) - LeapDays(y) == if IsLeapYear(y) then 1 else 0
  {
    LeapDaysFormula(y);
    LeapDaysFormula(y + 1);
    BackwardStep4(y);
    BackwardStep100(y);
    BackwardStep400(y);
    NestedMultiples(y);
  }

  /** One year on, the count grows by one exactly when the year left behind is a leap year. */
  lemma LeapDaysStep(y: int)
    ensures LeapDays(y + 1) - LeapDays(y) == if IsLeapYear(y) then 1 else 0
  {
    if y >= 0 { LeapDaysStepNonNegative(y); }
    else if y <= -2 { LeapDaysStepNegative(y); }
  }

  /**
   * The days of year `y` before the first of month `m`: java.time's
   * `(367 * m - 362) / 12`, less two days after February (one in a leap year).
   */
  function DaysBeforeMonth(y: int, m: int): int
    requires 1 <= m <= 12
  {
    JavaDiv(367 * m - 362, 12) - (if m > 2 then (if IsLeapYear(y) then 1 else 2) else 0)
  }

  /** A month starts where the previous one ends; January starts the year, and December ends it. */
  lemma DaysBeforeMonthStep(y: int, m: int)
    requires 1 <= m <= 12
    ensures m == 1 ==> DaysBeforeMonth(y, m) == 0
    ensures m > 1 ==> DaysBeforeMonth(y, m) == DaysBeforeMonth(y, m - 1) + LengthOfMonth(y, m - 1)
    ensures m == 12 ==> DaysBeforeMonth(y, m) + 31 == if IsLeapYear(y) then 366 else 365
  {
    if m == 1 { assert JavaDiv(5, 12) == 0; }
    else if m == 2 { assert JavaDiv(372, 12) == 31; }
    else if m == 3 { assert JavaDiv(739, 12) == 61; }
    else if m == 4 { assert JavaDiv(1106, 12) == 92; }
    else if m == 5 { assert JavaDiv(1473, 12) == 122; }
    else if m == 6 { assert JavaDiv(1840, 12) == 153; }
    else if m == 7 { assert JavaDiv(2207, 12) == 183; }
    else if m == 8 { assert JavaDiv(2574, 12) == 214; }
    else if m == 9 { assert JavaDiv(2941, 12) == 245; }
    else if m == 10 { assert JavaDiv(3308, 12) == 275; }
    else if m == 11 { assert JavaDiv(3675, 12) == 306; }
    else { assert JavaDiv(4042, 12) == 336; }
  }

  /** `d.toEpochDay()`: the days since 1970-01-01, as java.time.LocalDate computes them. */
  function ToEpochDay(d: LocalDate): int {
    365 * d.year + LeapDays(d.year) + DaysBeforeMonth(d.year, d.month) + d.day - 1 - 719528
  }

  /** `d.minusDays(1)` is exactly one epoch day before `d`. */
  lemma MinusOneDayEpoch(d: LocalDate)
    requires MinusOneDay(d).Ok?
    ensures ToEpochDay(MinusOneDay(d).value) + 1 == ToEpochDay(d)
  {
    if d.day == 1 {
      if d.month > 1 {
        DaysBeforeMonthStep(d.year, d.month);
      } else {
        DaysBeforeMonthStep(d.year, 1);
        DaysBeforeMonthStep(d.year - 1, 12);
        LeapDaysStep(d.year - 1);
      }
    }
  }

  /** The epoch starts on 1970-01-01; the report's scenario falls on day 19894, a leap-year March on 11017. */
  lemma EpochExamples()
    ensures ToEpochDay(Date(1970, 1, 1)) == 0
    ensures ToEpochDay(Date(2024, 6, 20)) == 19894
    ensures ToEpochDay(Date(2000, 3, 1)) == 11017
  {
    LeapDaysFormula(1970);
    LeapDaysFormula(2024);
    LeapDaysFormula(2000);
    DaysBeforeMonthStep(1970, 1);
    DaysBeforeMonthStep(2024, 6);
    DaysBeforeMonthStep(2000, 3);
  }

  datatype DayOfWeek = MONDAY | TUESDAY | WEDNESDAY | THURSDAY | FRIDAY | SATURDAY | SUNDAY {
    /** The enum constant's `toString()`. */
    function Name(): string {
      match this
      case MONDAY => "MONDAY"
      case TUESDAY => "TUESDAY"
      case WEDNESDAY => "WEDNESDAY"
      case THURSDAY => "THURSDAY"
      case FRIDAY => "FRIDAY"
      case SATURDAY => "SATURDAY"
      case SUNDAY => "SUNDAY"
    }

    /** `plus(1)`: the following day of the week, SUNDAY wrapping to MONDAY. */
    function Next(): DayOfWeek {
      match this
      case MONDAY => TUESDAY
      case TUESDAY => WEDNESDAY
      case WEDNESDAY => THURSDAY
      case THURSDAY => FRIDAY
      case FRIDAY => SATURDAY
      case SATURDAY => SUNDAY
      case SUNDAY => MONDAY
    }
  }

  /** `DayOfWeek.of(floorMod(epochDay + 3, 7) + 1)`: 1970-01-01 was a Thursday. */
  function DayOfWeekOfEpochDay(epochDay: int): DayOfWeek {
    [MONDAY, TUESDAY, WEDNESDAY, THURSDAY, FRIDAY, SATURDAY, SUNDAY][(epochDay + 3) % 7]
  }

  /** `d.getDayOfWeek()`. */
  function GetDayOfWeek(d: LocalDate): DayOfWeek {
    DayOfWeekOfEpochDay(ToEpochDay(d))
  }

  /** The next epoch day is the next day of the week. */
  lemma DayOfWeekOfEpochDayNext(e: int)
    ensures DayOfWeekOfEpochDay(e + 1) == DayOfWeekOfEpochDay(e).Next()
  {
  }

  /** Consecutive dates fall on consecutive days of the week. */
  lemma GetDayOfWeekAdvances(d: LocalDate)
    requires MinusOneDay(d).Ok?
    ensures GetDayOfWeek(d) == GetDayOfWeek(MinusOneDay(d).value).Next()
  {
    MinusOneDayEpoch(d);
    DayOfWeekOfEpochDayNext(ToEpochDay(MinusOneDay(d).value));
  }

  lemma DayNamesDistinct(a: DayOfWeek, b: DayOfWeek)
    ensures a.Name() == b.Name() <==> a == b
  {
  }

  /** The dates of the report scenario: 2024-06-20 was a Thursday and 2024-06-21 a Friday. */
  lemma KnownWeekdays()
    ensures GetDayOfWeek(Date(1970, 1, 1)) == THURSDAY
    ensures GetDayOfWeek(Date(2024, 6, 20)) == THURSDAY
    ensures GetDayOfWeek(Date(2024, 6, 21)) == FRIDAY
  {
  }

  /** `%0Nd` for a non-negative number: its digits, left-padded with zeros to `width`. */
  function ZeroPad(n: nat, width: nat): (s: string)
    ensures |s| >= width && AllDigits(s) && DigitsValue(s) == n
    ensures |Digits(n)| <= width ==> |s| == width
  {
    var digits := Digits(n);
    DigitsRoundTrip(n);
    if |digits| >= width then digits
    else
      LeadingZerosValue(seq(width - |digits|, _ => '0'), digits);
      seq(width - |digits|, _ => '0') + digits
  }

  /**
   * Pattern "yyyy" of DateTimeFormatter: the year of era (1 - year for years
   * before 1), at least four digits, with a '+' sign once it needs more than four.
   */
  function YearOfEraText(year: int): (s: string)
    ensures var yoe := if year >= 1 then year else 1 - year;
            && (yoe <= 9999 ==> |s| == 4 && AllDigits(s) && DigitsValue(s) == yoe)
            && (yoe > 9999 ==> |s| > 5 && s[0] == '+' && AllDigits(s[1..]) && DigitsValue(s[1..]) == yoe && s[1] != '0')
  {
    var yoe := if year >= 1 then year else 1 - year;
    if yoe > 9999 then
      DigitsRoundTrip(yoe);
      DigitsLengthAtLeast(yoe, 4);
      assert ("+" + Digits(yoe))[1..] == Digits(yoe);
      "+" + Digits(yoe)
    else
      DigitsLength(yoe, 4);
      ZeroPad(yoe, 4)
  }

  /**
   * `d.format(DateTimeFormatter.ofPattern("yyyy-MM"))`: the year text, a dash,
   * and the month on two digits; for years 1 to 9999 exactly seven characters.
   */
  function YearMonthText(d: LocalDate): (s: string)
    ensures |s| >= 7 && s[|s| - 3] == '-'
    ensures AllDigits(s[|s| - 2..]) && DigitsValue(s[|s| - 2..]) == d.month
    ensures 1 <= d.year <= 9999 ==> |s| == 7 && AllDigits(s[..4]) && DigitsValue(s[..4]) == d.year
  {
    var year := YearOfEraText(d.year);
    var month := ZeroPad2(d.month);
    var s := year + "-" + month;
    assert s[|s| - 2..] == month;
    assert 1 <= d.year <= 9999 ==> s[..4] == year;
    s
  }
}
