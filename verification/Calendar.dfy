/** Calendar arithmetic.

    The relay holds two closed-form calendar functions that never meet: the audit log turns seconds
    since the epoch into a civil date, and the certificate check turns a civil date into a day number.
    Both are compared here with a third, independent definition: counting days one by one.
 */
module Calendar {
  import opened Arith

  datatype Date = Date(year: int, month: int, day: int)

  /** The integer division of Rust, which truncates toward zero. */
  function TruncDiv(a: int, b: int): int
    requires b > 0
  {
    if a >= 0 then a / b else -((-a) / b)
  }

  /** A Rust `as i32` cast. */
  function AsI32(x: int): int {
    (x + 0x8000_0000) % 0x1_0000_0000 - 0x8000_0000
  }

  // ----- the two closed forms of the source -----

  const SECS_PER_DAY := 86400

  /** The 64-bit part of the audit log's date function, before the casts of the result. */
  function CivilFromDays(days: nat): Date {
    var z := days + 719468;
    var era := z / 146097;
    var doe := z - era * 146097;
    var yoe := (doe - doe / 1460 + doe / 36524 - doe / 146096) / 365;
    var y := yoe + era * 400;
    var doy := doe - (365 * yoe + yoe / 4 - yoe / 100);
    var mp := (5 * doy + 2) / 153;
    var d := doy - (153 * mp + 2) / 5 + 1;
    var m := if mp < 10 then mp + 3 else mp - 9;
    Date(if m <= 2 then y + 1 else y, m, d)
  }

  function EpochToYmd(secs: nat): Date {
    var date := CivilFromDays(secs / SECS_PER_DAY);
    date.(year := AsI32(date.year))
  }

  /** The Julian-day formula of the certificate check. */
  function DaysSinceEpoch(date: Date): int {
    var a := TruncDiv(14 - date.month, 12);
    var y := date.year + 4800 - a;
    var m := date.month + 12 * a - 3;
    var jdn := date.day + TruncDiv(153 * m + 2, 5) + 365 * y
               + TruncDiv(y, 4) - TruncDiv(y, 100) + TruncDiv(y, 400) - 32045;
    jdn - 2440588
  }

  // ----- the reference: the Gregorian calendar, day by day -----

  predicate IsLeap(year: int) {
    year % 4 == 0 && (year % 100 != 0 || year % 400 == 0)
  }

  function DaysInMonth(year: int, month: int): int {
    if month == 2 then (if IsLeap(year) then 29 else 28)
    else if month == 4 || month == 6 || month == 9 || month == 11 then 30
    else 31
  }

  predicate ValidDate(date: Date) {
    && 1 <= date.month <= 12
    && 1 <= date.day <= DaysInMonth(date.year, date.month)
  }

  function NextDay(date: Date): Date {
    if date.day < DaysInMonth(date.year, date.month) then date.(day := date.day + 1)
    else if date.month < 12 then Date(date.year, date.month + 1, 1)
    else Date(date.year + 1, 1, 1)
  }

  const EPOCH := Date(1970, 1, 1)

  function CountFromEpoch(n: nat): Date {
    if n == 0 then EPOCH else NextDay(CountFromEpoch(n - 1))
  }

  predicate Before(a: Date, b: Date) {
    || a.year < b.year
    || (a.year == b.year && a.month < b.month)
    || (a.year == b.year && a.month == b.month && a.day < b.day)
  }

  // ----- one day at a time -----

  /** March-based view of a date, in which the leap day is the last day of the year. */
  function MarchYear(date: Date): int {
    if date.month <= 2 then date.year - 1 else date.year
  }

  function MarchMonth(date: Date): int {
    if date.month <= 2 then date.month + 9 else date.month - 3
  }

  function MarchDay(date: Date): int {
    (153 * MarchMonth(date) + 2) / 5 + date.day - 1
  }

  function DaysBeforeMarchYear(y: int): int {
    365 * y + y / 4 - y / 100 + y / 400
  }

  lemma JulianAsMarch(date: Date)
    requires 1 <= date.month <= 12 && date.year >= -4799
    ensures DaysSinceEpoch(date) == DaysBeforeMarchYear(MarchYear(date)) + MarchDay(date) - 719468
  {
    var y := MarchYear(date);
    QuotientIs(y + 4800, 4, y / 4 + 1200, y % 4);
    QuotientIs(y + 4800, 100, y / 100 + 48, y % 100);
    QuotientIs(y + 4800, 400, y / 400 + 12, y % 400);
  }

  lemma DivStep(y: int, b: int)
    requires b == 4 || b == 100 || b == 400
    ensures y / b - (y - 1) / b == if y % b == 0 then 1 else 0
  {
  }

  lemma LeapStep(y: int)
    ensures DaysBeforeMarchYear(y) - DaysBeforeMarchYear(y - 1) == if IsLeap(y) then 366 else 365
  {
    DivStep(y, 4);
    DivStep(y, 100);
    DivStep(y, 400);
    assert y == 400 * (y / 400) + y % 400;
    assert y == 100 * (y / 100) + y % 100;
  }

  lemma MarchDayRange(date: Date)
    requires ValidDate(date)
    ensures 0 <= MarchDay(date) <= (if IsLeap(MarchYear(date) + 1) then 365 else 364)
  {
  }

  lemma SuccessorOnMarchYear(date: Date)
    requires ValidDate(date)
    ensures ValidDate(NextDay(date))
    ensures var next := NextDay(date);
            if MarchYear(next) == MarchYear(date) then
              MarchDay(next) == MarchDay(date) + 1
            else
              && MarchYear(next) == date.year == MarchYear(date) + 1
              && MarchDay(next) == 0
              && MarchDay(date) == if IsLeap(date.year) then 365 else 364
  {
  }

  lemma SuccessorAddsOneDay(date: Date)
    requires ValidDate(date) && date.year >= -4799
    ensures ValidDate(NextDay(date))
    ensures DaysSinceEpoch(NextDay(date)) == DaysSinceEpoch(date) + 1
  {
    SuccessorOnMarchYear(date);
    var next := NextDay(date);
    JulianAsMarch(date);
    JulianAsMarch(next);
    if MarchYear(next) != MarchYear(date) {
      LeapStep(date.year);
    }
  }

  // ----- undoing the closed form -----

  /** A year of the 400-year era is 100c + 4q + r; each division of the closed form is then exact. */
  lemma YearOfEra(c: int, q: int, r: int, doy: int)
    requires 0 <= c < 4 && 0 <= q < 25 && 0 <= r < 4
    requires 0 <= doy <= (if IsLeap(100 * c + 4 * q + r + 1) then 365 else 364)
    ensures var doe := 36524 * c + 1461 * q + 365 * r + doy;
            && 0 <= doe < 146097
            && (doe - doe / 1460 + doe / 36524 - doe / 146096) / 365 == 100 * c + 4 * q + r
  {
    var doe := 36524 * c + 1461 * q + 365 * r + doy;
    assert doy == 365 ==> r == 3;
    var e := if 24 * c + q + 365 * r + doy >= 1460 then 1 else 0;
    QuotientIs(doe, 1460, 25 * c + q + e, 24 * c + q + 365 * r + doy - 1460 * e);
    var last := if c == 3 && q == 24 && r == 3 && doy == 365 then 1 else 0;
    assert last == 0 ==> 1461 * q + 365 * r + doy < 36524;
    QuotientIs(doe, 36524, c + last, 1461 * q + 365 * r + doy - 36524 * last);
    assert doe / 146096 == last;
  }

  lemma EraDigits(yoe: int)
    requires 0 <= yoe < 400
    ensures var c, q, r := yoe / 100, yoe % 100 / 4, yoe % 4;
            && yoe == 100 * c + 4 * q + r
            && 365 * yoe + yoe / 4 - yoe / 100 == 36524 * c + 1461 * q + 365 * r
  {
    var c, q := yoe / 100, yoe % 100 / 4;
    QuotientIs(yoe, 4, 25 * c + q, yoe % 100 % 4);
  }

  lemma MarchMonthOfDay(mp: int, d: int)
    requires 0 <= mp < 12
    requires 1 <= d <= (if mp == 11 then 29 else if mp in {1, 3, 6, 8} then 30 else 31)
    ensures var doy := (153 * mp + 2) / 5 + d - 1;
            (5 * doy + 2) / 153 == mp && doy - (153 * mp + 2) / 5 + 1 == d
  {
  }

  lemma MarchYearOfEra(y: int)
    requires y >= 0
    ensures DaysBeforeMarchYear(y) == 146097 * (y / 400) + 365 * (y % 400) + y % 400 / 4 - y % 400 / 100
  {
    var era, yoe := y / 400, y % 400;
    QuotientIs(y, 4, 100 * era + yoe / 4, yoe % 4);
    QuotientIs(y, 100, 4 * era + yoe / 100, yoe % 100);
  }

  lemma ShiftByEras(x: int, k: int)
    ensures (x + 400 * k) % 4 == x % 4 && (x + 400 * k) % 100 == x % 100 && (x + 400 * k) % 400 == x % 400
  {
    QuotientIs(x + 400 * k, 4, x / 4 + 100 * k, x % 4);
    QuotientIs(x + 400 * k, 100, x / 100 + 4 * k, x % 100);
    QuotientIs(x + 400 * k, 400, x / 400 + k, x % 400);
  }

  lemma LeapInEra(y: int)
    ensures IsLeap(y + 1) == IsLeap(y % 400 + 1)
  {
    ShiftByEras(y % 400 + 1, y / 400);
  }

  lemma EraDay(yoe: int, doy: int)
    requires 0 <= yoe < 400
    requires 0 <= doy <= (if IsLeap(yoe + 1) then 365 else 364)
    ensures var doe := 365 * yoe + yoe / 4 - yoe / 100 + doy;
            && 0 <= doe < 146097
            && (doe - doe / 1460 + doe / 36524 - doe / 146096) / 365 == yoe
  {
    EraDigits(yoe);
    var c, q, r := yoe / 100, yoe % 100 / 4, yoe % 4;
    YearOfEra(c, q, r, doy);
  }

  lemma CivilFromParts(era: int, yoe: int, doy: int, days: nat)
    requires 0 <= yoe < 400
    requires 0 <= doy <= (if IsLeap(yoe + 1) then 365 else 364)
    requires days == 146097 * era + 365 * yoe + yoe / 4 - yoe / 100 + doy - 719468
    ensures var mp := (5 * doy + 2) / 153;
            var m := if mp < 10 then mp + 3 else mp - 9;
            CivilFromDays(days)
            == Date(400 * era + yoe + (if m <= 2 then 1 else 0), m, doy - (153 * mp + 2) / 5 + 1)
  {
    var doe := 365 * yoe + yoe / 4 - yoe / 100 + doy;
    EraDay(yoe, doy);
    var z := days + 719468;
    QuotientIs(z, 146097, era, doe);
  }

  lemma CivilOfMarch(y: int, doy: int, days: nat)
    requires 0 <= doy <= (if IsLeap(y + 1) then 365 else 364)
    requires y >= 0 && days == DaysBeforeMarchYear(y) + doy - 719468
    ensures var mp := (5 * doy + 2) / 153;
            var m := if mp < 10 then mp + 3 else mp - 9;
            CivilFromDays(days) == Date(y + (if m <= 2 then 1 else 0), m, doy - (153 * mp + 2) / 5 + 1)
  {
    MarchYearOfEra(y);
    LeapInEra(y);
    CivilFromParts(y / 400, y % 400, doy, days);
  }

  lemma EpochMarchYear()
    ensures DaysBeforeMarchYear(1969) == 719468 - 306
  {
  }

  /** The audit log's closed form undoes the certificate check's. */
  lemma CivilUndoesJulian(date: Date)
    requires ValidDate(date) && date.year >= 1970
    ensures DaysSinceEpoch(date) >= 0
    ensures CivilFromDays(DaysSinceEpoch(date)) == date
  {
    hide CivilFromDays, DaysSinceEpoch, DaysBeforeMarchYear;
    var days := DaysSinceEpoch(date);
    JulianAsMarch(date);
    MarchDayRange(date);
    EpochMarchYear();
    MarchYearGrows(1969, MarchYear(date));
    MarchMonthOfDay(MarchMonth(date), date.day);
    CivilOfMarch(MarchYear(date), MarchDay(date), days);
  }

  lemma MarchYearGrows(y0: int, y1: int)
    requires y0 <= y1
    ensures DaysBeforeMarchYear(y0) + 365 * (y1 - y0) <= DaysBeforeMarchYear(y1)
  {
    var c0, c1 := y0 / 100, y1 / 100;
    QuotientIs(y0, 4, 25 * c0 + y0 % 100 / 4, y0 % 100 % 4);
    QuotientIs(y1, 4, 25 * c1 + y1 % 100 / 4, y1 % 100 % 4);
    assert c0 <= c1;
    assert y0 % 100 / 4 <= 24;
    if c0 == c1 {
      assert y0 % 100 / 4 <= y1 % 100 / 4;
    }
    assert y0 / 400 <= y1 / 400;
  }

  // ----- both closed forms against the day count -----

  lemma EpochIsDayZero()
    ensures DaysSinceEpoch(EPOCH) == 0
  {
  }

  lemma {:induction false} JulianCountsDays(n: nat)
    ensures ValidDate(CountFromEpoch(n)) && CountFromEpoch(n).year >= 1970
    ensures DaysSinceEpoch(CountFromEpoch(n)) == n
  {
    hide DaysSinceEpoch;
    EpochIsDayZero();
    if n > 0 {
      JulianCountsDays(n - 1);
      SuccessorAddsOneDay(CountFromEpoch(n - 1));
    }
  }

  lemma CivilCountsDays(n: nat)
    ensures CivilFromDays(n) == CountFromEpoch(n)
    ensures ValidDate(CivilFromDays(n)) && CivilFromDays(n).year >= 1970
    ensures CivilFromDays(n + 1) == NextDay(CivilFromDays(n))
    ensures DaysSinceEpoch(CivilFromDays(n)) == n
  {
    JulianCountsDays(n);
    CivilUndoesJulian(CountFromEpoch(n));
    JulianCountsDays(n + 1);
    CivilUndoesJulian(CountFromEpoch(n + 1));
  }

  lemma JulianRespectsOrder(a: Date, b: Date)
    requires ValidDate(a) && ValidDate(b) && a.year >= -4799 && Before(a, b)
    ensures DaysSinceEpoch(a) < DaysSinceEpoch(b)
  {
    hide DaysSinceEpoch;
    JulianAsMarch(a);
    JulianAsMarch(b);
    var ya, yb := MarchYear(a), MarchYear(b);
    assert MarchDay(a) >= 0 && MarchDay(b) >= 0;
    MarchDayRange(a);
    if ya == yb {
      MarchMonthsInOrder(a, b);
    } else {
      LeapStep(ya + 1);
      MarchYearGrows(ya + 1, yb);
    }
  }

  lemma MarchMonthsInOrder(a: Date, b: Date)
    requires ValidDate(a) && ValidDate(b) && Before(a, b) && MarchYear(a) == MarchYear(b)
    ensures MarchDay(a) < MarchDay(b)
  {
    if MarchMonth(a) < MarchMonth(b) {
      assert (153 * (MarchMonth(a) + 1) + 2) / 5 <= (153 * MarchMonth(b) + 2) / 5;
    }
  }

  /** Later days have later dates, so dates compare as days do. */
  lemma CivilRespectsOrder(m: nat, n: nat)
    ensures m < n <==> Before(CivilFromDays(m), CivilFromDays(n))
    ensures m == n <==> CivilFromDays(m) == CivilFromDays(n)
  {
    hide CivilFromDays, DaysSinceEpoch;
    CivilCountsDays(m);
    CivilCountsDays(n);
    var a, b := CivilFromDays(m), CivilFromDays(n);
    if Before(a, b) {
      JulianRespectsOrder(a, b);
    } else if Before(b, a) {
      JulianRespectsOrder(b, a);
    }
  }

  // ----- the range of the audit log's 32-bit year -----

  /** The day number of January 1 of the year 2^31, the first year that does not fit the result. */
  const YEAR_OVERFLOW_DAY := 784351576777

  lemma OverflowDay()
    ensures DaysSinceEpoch(Date(0x8000_0000, 1, 1)) == YEAR_OVERFLOW_DAY
  {
  }

  lemma JulianOfSmallYear(date: Date)
    requires 1 <= date.month <= 12 && 1 <= date.day <= 31
    requires date.year < -4799
    ensures DaysSinceEpoch(date) < 0
  {
    var y := date.year + 4800 - TruncDiv(14 - date.month, 12);
    assert y <= 0;
    assert -TruncDiv(y, 100) <= -y;
  }

  lemma JulianOfCast(date: Date)
    requires 1 <= date.month <= 12 && 1 <= date.day <= 31 && date.year < 0x8000_0000
    ensures DaysSinceEpoch(date) < YEAR_OVERFLOW_DAY
  {
    if date.year < -4799 {
      JulianOfSmallYear(date);
    } else {
      JulianAsMarch(date);
      MarchYearGrows(MarchYear(date), 0x7FFF_FFFF);
    }
  }

  lemma YearFits(n: nat)
    ensures CivilFromDays(n).year < 0x8000_0000 <==> n < YEAR_OVERFLOW_DAY
  {
    hide CivilFromDays, DaysSinceEpoch;
    var limit := Date(0x8000_0000, 1, 1);
    OverflowDay();
    CivilUndoesJulian(limit);
    CivilCountsDays(n);
    CivilRespectsOrder(n, YEAR_OVERFLOW_DAY);
  }

  /** The audit log's date is right, and is undone by the certificate check's formula,
      exactly for the days before the year 2^31. */
  lemma EpochToYmdExact(secs: nat)
    ensures DaysSinceEpoch(EpochToYmd(secs)) == secs / SECS_PER_DAY
       <==> secs < SECS_PER_DAY * YEAR_OVERFLOW_DAY
    ensures EpochToYmd(secs) == CountFromEpoch(secs / SECS_PER_DAY)
       <==> secs < SECS_PER_DAY * YEAR_OVERFLOW_DAY
  {
    hide CivilFromDays, DaysSinceEpoch;
    var n := secs / SECS_PER_DAY;
    YearFits(n);
    CivilCountsDays(n);
    if n >= YEAR_OVERFLOW_DAY {
      JulianOfCast(EpochToYmd(secs));
    }
  }

  /** A valid date from the epoch on, of a year that fits the result, comes back from its day number. */
  lemma EpochToYmdUndoesJulian(date: Date)
    requires ValidDate(date) && 1970 <= date.year < 0x8000_0000
    ensures DaysSinceEpoch(date) >= 0
    ensures EpochToYmd(SECS_PER_DAY * DaysSinceEpoch(date)) == date
  {
    hide CivilFromDays, DaysSinceEpoch;
    CivilUndoesJulian(date);
    var n: nat := DaysSinceEpoch(date);
    assert SECS_PER_DAY * n / SECS_PER_DAY == n;
  }

  /** The date at a time of day, n days after the epoch, is the n-th calendar day from 1970-01-01 on. */
  lemma DateOfSecond(n: nat, hour: nat, minute: nat, second: nat)
    requires hour < 24 && minute < 60 && second < 60 && n < YEAR_OVERFLOW_DAY
    ensures EpochToYmd(24 * 60 * 60 * n + 60 * 60 * hour + 60 * minute + second) == CountFromEpoch(n)
  {
    hide CivilFromDays, DaysSinceEpoch, EpochToYmd, CountFromEpoch;
    var secs := 24 * 60 * 60 * n + 60 * 60 * hour + 60 * minute + second;
    QuotientIs(secs, 86400, n, 60 * 60 * hour + 60 * minute + second);
    EpochToYmdExact(secs);
  }
}
