/** Civil dates and day numbers (proleptic Gregorian calendar), with the source's unsigned month shifts. */
module Calendar {

  const TWO_32: int := 0x1_0000_0000
  const EPOCH: int := 719468
  const ERA_DAYS: int := 146097

  predicate Leap(year: int) {
    year % 4 == 0 && (year % 100 != 0 || year % 400 == 0)
  }

  function DaysInMonth(year: int, month: int): int {
    if month < 1 || month > 12 then 0
    else if month == 2 && Leap(year) then 29
    else [31, 28, 31, 30, 31, 30, 31, 31, 30, 31, 30, 31][month - 1]
  }

  predicate ValidDate(year: int, month: int, day: int) {
    1 <= month <= 12 && 1 <= day <= DaysInMonth(year, month)
  }

  /** C division: towards zero. */
  function Quotient(a: int, b: int): int
    requires b > 0
  {
    if a >= 0 then a / b else -((-a) / b)
  }

  /** The 400-year era of a year, or the era of a day: the source's way to divide rounding down. */
  function EraOf(x: int, length: int): int
    requires length > 0
  {
    if x >= 0 then Quotient(x, length) else Quotient(x - (length - 1), length)
  }

  /** Day of the year that starts in March, in unsigned 32-bit arithmetic. */
  function DayOfYear(month: int, day: int): int {
    var shifted := (month + (if month > 2 then TWO_32 - 3 else 9)) % TWO_32;
    (153 * shifted + 2) % TWO_32 / 5 + day - 1
  }

  function DaysFromCivil(year: int, month: int, day: int): int
    requires 0 <= month < TWO_32 && 0 <= day < TWO_32
  {
    var y := year - (if month <= 2 then 1 else 0);
    var era := EraOf(y, 400);
    var yoe := (y - era * 400) % TWO_32;
    var doy := DayOfYear(month, day) % TWO_32;
    var doe := (yoe * 365 + yoe / 4 - yoe / 100 + doy) % TWO_32;
    era * ERA_DAYS + doe - EPOCH
  }

  datatype Civil = Civil(year: int, month: int, day: int)

  function YearOfDay(doe: int): int {
    (doe - doe / 1460 + doe / 36524 - doe / 146096) % TWO_32 / 365
  }

  /** Month and day of a day counted from 1 March of year `y`. */
  function DateInYear(y: int, doy: int): Civil {
    var mp := (5 * doy + 2) % TWO_32 / 153;
    var day := (doy - (153 * mp + 2) / 5 + 1) % TWO_32;
    var month := (mp + (if mp < 10 then 3 else TWO_32 - 9)) % TWO_32;
    Civil(y + (if month <= 2 then 1 else 0), month, day)
  }

  function DayOfEra(days: int): int {
    (days + EPOCH - EraOf(days + EPOCH, ERA_DAYS) * ERA_DAYS) % TWO_32
  }

  function DayInYear(doe: int, yoe: int): int {
    (doe - (365 * yoe + yoe / 4 - yoe / 100)) % TWO_32
  }

  function CivilFromDays(days: int): Civil {
    var doe := DayOfEra(days);
    var yoe := YearOfDay(doe);
    DateInYear(yoe + EraOf(days + EPOCH, ERA_DAYS) * 400, DayInYear(doe, yoe))
  }

  // ---- The calendar counted naively ----

  function YearLength(year: int): int {
    if Leap(year) then 366 else 365
  }

  /** Days from 1 January 1970 to 1 January of `year`, year by year. */
  function DaysBeforeYear(year: int): int
    decreases if year >= 1970 then year - 1970 else 1970 - year
  {
    if year == 1970 then 0
    else if year > 1970 then DaysBeforeYear(year - 1) + YearLength(year - 1)
    else DaysBeforeYear(year + 1) - YearLength(year)
  }

  /** Days from 1 January to the first of `month`, month by month. */
  function DaysBeforeMonth(year: int, month: int): int
    requires 1 <= month <= 12
  {
    if month == 1 then 0 else DaysBeforeMonth(year, month - 1) + DaysInMonth(year, month - 1)
  }

  function NaiveDays(year: int, month: int, day: int): int
    requires 1 <= month <= 12
  {
    DaysBeforeYear(year) + DaysBeforeMonth(year, month) + day - 1
  }

  // ---- The closed form ----

  /** Days from 1 March of year 0 to 1 March of `y`. */
  function MarchYear(y: int): int {
    365 * y + y / 4 - y / 100 + y / 400
  }

  /** Months counted from March, and days from 1 March to the first of such a month. */
  function MarchMonth(month: int): int {
    if month > 2 then month - 3 else month + 9
  }

  function MarchDays(mp: int): int {
    (153 * mp + 2) / 5
  }

  function StartOf(year: int, month: int): int {
    if month <= 2 then year - 1 else year
  }

  lemma FloorDivision(y: int, n: int)
    requires n > 0
    ensures EraOf(y, n) == y / n
  {
    if y < 0 {
      var q, r := y / n, y % n;
      assert y == n * q + r;
      assert (n - 1) - y == n * (-q) + (n - 1 - r);
      QuotientIs(n - 1 - y, n, -q, n - 1 - r);
    }
  }

  lemma QuotientIs(x: int, n: int, q: int, r: int)
    requires 0 <= r < n && x == n * q + r
    ensures x / n == q
  {
    assert n * (x / n - q) == r - x % n by {
      assert x == n * (x / n) + x % n;
    }
    if x / n - q >= 1 { assert n * (x / n - q) >= n by { MultiplyAtLeast(n, x / n - q); } }
    if x / n - q <= -1 { assert n * (x / n - q) <= -n by { MultiplyAtLeast(n, -(x / n - q)); } }
  }

  lemma MultiplyAtLeast(n: int, k: int)
    requires n > 0 && k >= 1
    ensures n * k >= n && n * (-k) <= -n
  {
  }

  lemma MarchYearByEra(y: int)
    ensures MarchYear(y) == y / 400 * ERA_DAYS + (y % 400 * 365 + y % 400 / 4 - y % 400 / 100)
  {
    var era, yoe := y / 400, y % 400;
    assert y == 400 * era + yoe;
    assert y / 4 == 100 * era + yoe / 4;
    assert y / 100 == 4 * era + yoe / 100;
  }

  lemma DayOfYearIs(month: int, day: int)
    requires 1 <= month <= 12 && 1 <= day <= 31
    ensures DayOfYear(month, day) == MarchDays(MarchMonth(month)) + day - 1
    ensures 0 <= DayOfYear(month, day) < 400
  {
    var mp := MarchMonth(month);
    assert (month + (if month > 2 then TWO_32 - 3 else 9)) % TWO_32 == mp by { FitsUnsigned(mp); }
    assert 0 <= (153 * mp + 2) / 5 <= 337;
    FitsUnsigned(153 * mp + 2);
    FitsUnsigned((153 * mp + 2) / 5 + day - 1);
  }

  /** The cast to `unsigned` keeps what fits it. */
  lemma FitsUnsigned(x: int)
    requires 0 <= x < TWO_32
    ensures x % TWO_32 == x && (x + TWO_32) % TWO_32 == x
  {
  }

  lemma ClosedForm(year: int, month: int, day: int)
    requires 1 <= month <= 12 && 1 <= day <= 31
    ensures DaysFromCivil(year, month, day)
         == MarchYear(StartOf(year, month)) + MarchDays(MarchMonth(month)) + day - 1 - EPOCH
  {
    var y, doy := StartOf(year, month), DayOfYear(month, day);
    var era, yoe := y / 400, y % 400;
    FloorDivision(y, 400);
    MarchYearByEra(y);
    DayOfYearIs(month, day);
    assert y - era * 400 == yoe;
    FitsUnsigned(yoe);
    FitsUnsigned(doy);
    FitsUnsigned(yoe * 365 + yoe / 4 - yoe / 100 + doy);
  }

  // ---- Agreement with naive counting ----

  lemma {:induction false} YearsByClosedForm(year: int)
    ensures DaysBeforeYear(year) == MarchYear(year - 1) + 306 - EPOCH
    decreases if year >= 1970 then year - 1970 else 1970 - year
  {
    if year > 1970 {
      YearsByClosedForm(year - 1);
      OneYear(year - 1);
    } else if year < 1970 {
      YearsByClosedForm(year + 1);
      OneYear(year);
    }
  }

  lemma OneYear(year: int)
    ensures MarchYear(year) - MarchYear(year - 1) == YearLength(year)
  {
    FloorStep(year, 4);
    FloorStep(year, 100);
    FloorStep(year, 400);
  }

  lemma FloorStep(y: int, n: int)
    requires n > 1
    ensures y / n - (y - 1) / n == if y % n == 0 then 1 else 0
  {
    var q, r := y / n, y % n;
    assert y == n * q + r;
    if r == 0 {
      assert y - 1 == n * (q - 1) + (n - 1);
      QuotientIs(y - 1, n, q - 1, n - 1);
    } else {
      QuotientIs(y - 1, n, q, r - 1);
    }
  }

  lemma MonthsByClosedForm(year: int, month: int)
    requires 1 <= month <= 12
    ensures DaysBeforeMonth(year, month)
         == if month <= 2 then MarchDays(MarchMonth(month)) - 306
            else MarchDays(MarchMonth(month)) + YearLength(year) - 306
  {
    if month > 1 {
      MonthsByClosedForm(year, month - 1);
    }
  }

  /** The day number is what summing up whole years and months gives, in every year, positive or negative. */
  lemma DaysAreNaiveDays(year: int, month: int, day: int)
    requires ValidDate(year, month, day)
    ensures DaysFromCivil(year, month, day) == NaiveDays(year, month, day)
  {
    ClosedForm(year, month, day);
    YearsByClosedForm(year);
    MonthsByClosedForm(year, month);
    OneYear(year);
  }

  lemma EpochIsZero()
    ensures DaysFromCivil(1970, 1, 1) == 0
  {
    ClosedForm(1970, 1, 1);
  }

  // ---- Monotonicity ----

  predicate Earlier(a: Civil, b: Civil) {
    a.year < b.year || (a.year == b.year && (a.month < b.month || (a.month == b.month && a.day < b.day)))
  }

  predicate Valid(c: Civil) {
    ValidDate(c.year, c.month, c.day)
  }

  function Days(c: Civil): int
    requires Valid(c)
  {
    DaysFromCivil(c.year, c.month, c.day)
  }

  lemma {:induction false} YearsGrow(a: int, b: int)
    requires a < b
    ensures DaysBeforeYear(a) + YearLength(a) <= DaysBeforeYear(b)
    decreases b - a
  {
    YearsByClosedForm(b);
    YearsByClosedForm(b - 1);
    OneYear(b - 1);
    if a < b - 1 {
      YearsGrow(a, b - 1);
    }
  }

  lemma {:induction false} MonthsGrow(year: int, a: int, b: int)
    requires 1 <= a < b <= 12
    ensures DaysBeforeMonth(year, a) + DaysInMonth(year, a) <= DaysBeforeMonth(year, b)
    decreases b - a
  {
    if a < b - 1 {
      MonthsGrow(year, a, b - 1);
    }
  }

  lemma DayFitsYear(c: Civil)
    requires Valid(c)
    ensures 0 <= DaysBeforeMonth(c.year, c.month) + c.day - 1 < YearLength(c.year)
  {
    MonthsByClosedForm(c.year, c.month);
  }

  /** Later dates have larger day numbers. */
  lemma LaterIsLarger(a: Civil, b: Civil)
    requires Valid(a) && Valid(b) && Earlier(a, b)
    ensures Days(a) < Days(b)
  {
    DaysAreNaiveDays(a.year, a.month, a.day);
    DaysAreNaiveDays(b.year, b.month, b.day);
    DayFitsYear(a);
    DayFitsYear(b);
    if a.year < b.year {
      YearsGrow(a.year, b.year);
    } else if a.month < b.month {
      MonthsGrow(a.year, a.month, b.month);
    }
  }

  // ---- The inverse ----

  /** The year within the era is recovered from the day within the era. */
  lemma YearOfEra(yoe: int, doy: int, doe: int)
    requires 0 <= yoe < 400 && 0 <= doy <= 365
    requires doy == 365 ==> Leap(yoe + 1)
    requires doe == 365 * yoe + yoe / 4 - yoe / 100 + doy
    ensures 0 <= doe < ERA_DAYS
    ensures (doe - doe / 1460 + doe / 36524 - doe / 146096) / 365 == yoe
  {
    var k, q, s := yoe / 100, yoe / 4, yoe % 4;
    var t := q + 365 * s + doy - k;
    assert q >= 25 * k;
    assert doe == 1460 * q + t;
    assert 0 <= t < 2920;
    assert doe / 1460 == if t < 1460 then q else q + 1;
    Century(yoe, doy, doe);
  }

  lemma Century(yoe: int, doy: int, doe: int)
    requires 0 <= yoe < 400 && 0 <= doy <= 365
    requires doy == 365 ==> Leap(yoe + 1)
    requires doe == 365 * yoe + yoe / 4 - yoe / 100 + doy
    ensures 0 <= doe < ERA_DAYS
    ensures doe / 36524 - doe / 146096 == yoe / 100
  {
    var k, r := yoe / 100, yoe % 100;
    assert yoe / 4 == 25 * k + r / 4;
    assert doe == 36524 * k + (365 * r + r / 4 + doy);
    assert 365 * r + r / 4 + doy <= 36524;
  }

  lemma MonthOfYear(mp: int, day: int)
    requires 0 <= mp <= 11 && 1 <= day
    requires day <= if mp == 11 then 29 else if mp in {1, 3, 6, 8} then 30 else 31
    ensures (5 * (MarchDays(mp) + day - 1) + 2) / 153 == mp
    ensures 0 <= MarchDays(mp) + day - 1 <= 365
  {
  }

  lemma DateInYearIs(y: int, mp: int, day: int)
    requires 0 <= mp <= 11 && 1 <= day
    requires day <= if mp == 11 then 29 else if mp in {1, 3, 6, 8} then 30 else 31
    ensures DateInYear(y, MarchDays(mp) + day - 1)
         == Civil(if mp < 10 then y else y + 1, if mp < 10 then mp + 3 else mp - 9, day)
  {
    MonthOfYear(mp, day);
    var doy := MarchDays(mp) + day - 1;
    assert (5 * doy + 2) % TWO_32 == 5 * doy + 2;
    assert (doy - MarchDays(mp) + 1) % TWO_32 == day;
  }

  lemma YearOfDayIs(yoe: int, doy: int, doe: int)
    requires 0 <= yoe < 400 && 0 <= doy <= 365
    requires doy == 365 ==> Leap(yoe + 1)
    requires doe == 365 * yoe + yoe / 4 - yoe / 100 + doy
    ensures 0 <= doe < ERA_DAYS && YearOfDay(doe) == yoe
  {
    YearOfEra(yoe, doy, doe);
    var n := doe - doe / 1460 + doe / 36524 - doe / 146096;
    assert n % TWO_32 == n;
  }

  lemma EraAndDayAre(days: int, era: int, doe: int)
    requires 0 <= doe < ERA_DAYS && days + EPOCH == ERA_DAYS * era + doe
    ensures EraOf(days + EPOCH, ERA_DAYS) == era && DayOfEra(days) == doe
  {
    FloorDivision(days + EPOCH, ERA_DAYS);
    QuotientIs(days + EPOCH, ERA_DAYS, era, doe);
  }

  lemma CivilFromDaysIs(days: int, era: int, yoe: int, doy: int)
    requires 0 <= yoe < 400 && 0 <= doy <= 365 && (doy == 365 ==> Leap(yoe + 1))
    requires days + EPOCH == ERA_DAYS * era + (365 * yoe + yoe / 4 - yoe / 100 + doy)
    ensures CivilFromDays(days) == DateInYear(yoe + era * 400, doy)
  {
    var doe := 365 * yoe + yoe / 4 - yoe / 100 + doy;
    YearOfDayIs(yoe, doy, doe);
    EraAndDayAre(days, era, doe);
    DayInYearIs(doe, yoe, doy);
  }

  lemma DayInYearIs(doe: int, yoe: int, doy: int)
    requires 0 <= doy <= 365 && doe == 365 * yoe + yoe / 4 - yoe / 100 + doy
    ensures DayInYear(doe, yoe) == doy
  {
  }

  lemma ModuloShift(x: int, n: int, k: int)
    requires n > 0
    ensures (n * k + x) % n == x % n
  {
    var q, r := x / n, x % n;
    assert n * k + x == n * (k + q) + r;
    QuotientIs(n * k + x, n, k + q, r);
    assert n * k + x == n * ((n * k + x) / n) + (n * k + x) % n;
  }

  lemma LeapByEra(y: int)
    ensures Leap(y + 1) <==> Leap(y % 400 + 1)
  {
    var e, x := y / 400, y % 400 + 1;
    ModuloShift(x, 4, 100 * e);
    ModuloShift(x, 100, 4 * e);
    ModuloShift(x, 400, e);
    assert y + 1 == 4 * (100 * e) + x && y + 1 == 100 * (4 * e) + x && y + 1 == 400 * e + x;
  }

  /** The 366th day of a March year is 29 February. */
  lemma LastDayIsLeap(c: Civil)
    requires Valid(c)
    ensures MarchDays(MarchMonth(c.month)) + c.day - 1 == 365 ==> c.month == 2 && Leap(c.year)
  {
    MonthOfYear(MarchMonth(c.month), c.day);
  }

  /** Every valid date is found again from its day number. */
  lemma CivilUndoesDays(c: Civil)
    requires Valid(c)
    ensures CivilFromDays(Days(c)) == c
  {
    var y, mp := StartOf(c.year, c.month), MarchMonth(c.month);
    var doy := MarchDays(mp) + c.day - 1;
    assert CivilFromDays(Days(c)) == DateInYear(y, doy) by {
      assert Days(c) == MarchYear(y) + doy - EPOCH by { ClosedForm(c.year, c.month, c.day); }
      assert 0 <= doy <= 365 by { MonthOfYear(mp, c.day); }
      assert doy == 365 ==> Leap(y % 400 + 1) by {
        LeapByEra(y);
        LastDayIsLeap(c);
      }
      MarchYearByEra(y);
      CivilFromDaysIs(Days(c), y / 400, y % 400, doy);
    }
    DateInYearIs(y, mp, c.day) by { MonthOfYear(mp, c.day); }
  }

  function NextDay(c: Civil): Civil {
    if c.day < DaysInMonth(c.year, c.month) then Civil(c.year, c.month, c.day + 1)
    else if c.month < 12 then Civil(c.year, c.month + 1, 1)
    else Civil(c.year + 1, 1, 1)
  }

  function DayBefore(c: Civil): Civil {
    if c.day > 1 then Civil(c.year, c.month, c.day - 1)
    else if c.month > 1 then Civil(c.year, c.month - 1, DaysInMonth(c.year, c.month - 1))
    else Civil(c.year - 1, 12, 31)
  }

  lemma NextDayIsNext(c: Civil)
    requires Valid(c)
    ensures Valid(NextDay(c)) && Days(NextDay(c)) == Days(c) + 1
  {
    var n := NextDay(c);
    DaysAreNaiveDays(c.year, c.month, c.day);
    DaysAreNaiveDays(n.year, n.month, n.day);
    if n.year > c.year {
      MonthsByClosedForm(c.year, 12);
      YearsByClosedForm(c.year);
      YearsByClosedForm(c.year + 1);
      OneYear(c.year);
    }
  }

  /** Every day number belongs to a valid date. */
  lemma {:induction false} DateOf(days: int) returns (c: Civil)
    ensures Valid(c) && Days(c) == days
    decreases if days >= 0 then days else -days
  {
    if days == 0 {
      c := Civil(1970, 1, 1);
    } else if days > 0 {
      c := DateOf(days - 1);
      NextDayIsNext(c);
      c := NextDay(c);
    } else {
      var d := DateOf(days + 1);
      c := DayBefore(d);
      NextDayIsNext(c);
    }
  }

  /** Every day number is found again from its date, which is valid: the two functions are inverse bijections. */
  lemma DaysUndoCivil(days: int)
    ensures Valid(CivilFromDays(days)) && Days(CivilFromDays(days)) == days
  {
    var c := DateOf(days);
    CivilUndoesDays(c);
  }
}
