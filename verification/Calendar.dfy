/** The day-number-to-date arithmetic of crates/core/src/datetime.rs, against a Gregorian
    calendar that steps one day at a time. */
module Calendar {

  datatype Date = Date(year: int, month: int, day: int)

  // ----- The calendar, one day at a time -----

  predicate IsLeap(year: int) {
    year % 4 == 0 && (year % 100 != 0 || year % 400 == 0)
  }

  function DaysInMonth(year: int, month: int): int {
    if month == 2 then (if IsLeap(year) then 29 else 28)
    else if month in {4, 6, 9, 11} then 30
    else 31
  }

  predicate ValidDate(d: Date) {
    1 <= d.month <= 12 && 1 <= d.day <= DaysInMonth(d.year, d.month)
  }

  function NextDate(d: Date): Date {
    if d.day < DaysInMonth(d.year, d.month) then d.(day := d.day + 1)
    else if d.month < 12 then Date(d.year, d.month + 1, 1)
    else Date(d.year + 1, 1, 1)
  }

  function PreviousDate(d: Date): Date {
    if 1 < d.day then d.(day := d.day - 1)
    else if 1 < d.month then Date(d.year, d.month - 1, DaysInMonth(d.year, d.month - 1))
    else Date(d.year - 1, 12, 31)
  }

  const EPOCH := Date(1970, 1, 1)

  /** The date reached by stepping `z` days from the epoch, forwards or backwards. */
  function StepFromEpoch(z: int): Date
    decreases if 0 <= z then z else -z
  {
    if z == 0 then EPOCH
    else if 0 < z then NextDate(StepFromEpoch(z - 1))
    else PreviousDate(StepFromEpoch(z + 1))
  }

  // ----- The closed form -----

  /** Rust's `/` on signed integers: the quotient truncated toward zero. */
  function TruncatedDivide(a: int, b: int): int
    requires 0 < b
  {
    if 0 <= a then a / b else -((-a) / b)
  }

  /** Howard Hinnant's conversion, operation for operation. */
  function CivilFromDays(days: int): Date {
    var z := days + 719_468;
    var era := TruncatedDivide(if 0 <= z then z else z - 146_096, 146_097);
    FromEra(era, z - era * 146_097)
  }

  /** The date of a 400-year era and a day of it. */
  function FromEra(era: int, doe: int): Date {
    var yoe := YearOfEra(doe);
    FromMarch(yoe + era * 400, doe - DaysBeforeYear(yoe))
  }

  /** The date of a year counted from March and a day of it. */
  function FromMarch(y: int, doy: int): Date {
    var m := MonthIndex(doy);
    var d := doy - DaysBeforeMonth(m) + 1;
    var month := if m < 10 then m + 3 else m - 9;
    Date(if month <= 2 then y + 1 else y, month, d)
  }

  function YearOfEra(doe: int): int {
    TruncatedDivide(
      doe - TruncatedDivide(doe, 1460) + TruncatedDivide(doe, 36_524) - TruncatedDivide(doe, 146_096), 365)
  }

  /** Days from the first of March that opens the era to the one that opens year `yoe`. */
  function DaysBeforeYear(yoe: int): int {
    365 * yoe + TruncatedDivide(yoe, 4) - TruncatedDivide(yoe, 100)
  }

  /** Months counted from March, so that a leap day ends the year. */
  function MonthIndex(doy: int): int {
    TruncatedDivide(5 * doy + 2, 153)
  }

  function DaysBeforeMonth(m: int): int {
    TruncatedDivide(153 * m + 2, 5)
  }

  // ----- The conversion one level at a time -----

  /** An era is 400 years of days: the code's adjusted truncation is a floor. */
  lemma EraIsFloor(z: int)
    ensures TruncatedDivide(if 0 <= z then z else z - 146_096, 146_097) == z / 146_097
  {
  }

  /** A day of the era as centuries, four-year cycles, years and days. A year runs to a
      366th day (t == 365) only as the last of its cycle, and the last cycle of a century
      has one only in the last century. */
  predicate EraDay(c: int, q: int, k: int, t: int) {
    && 0 <= c < 4 && 0 <= q < 25 && 0 <= k < 4 && 0 <= t <= 365
    && (t == 365 ==> k == 3 && (q == 24 ==> c == 3))
  }

  lemma EraDayQuotients(c: int, q: int, k: int, t: int)
    requires EraDay(c, q, k, t)
    ensures
      var doe := 36_524 * c + 1461 * q + 365 * k + t;
      && doe / 1460 == 25 * c + q + (if 24 * c + q + 365 * k + t < 1460 then 0 else 1)
      && doe / 36_524 - doe / 146_096 == c
  {
  }

  lemma YearOfEraSplit(c: int, q: int, k: int, t: int)
    requires EraDay(c, q, k, t)
    ensures YearOfEra(36_524 * c + 1461 * q + 365 * k + t) == 100 * c + 4 * q + k
  {
    EraDayQuotients(c, q, k, t);
    var e := if 24 * c + q + 365 * k + t < 1460 then 0 else 1;
    assert 0 <= t - e < 365 || (e == 0 && t < 365);
    assert (36_500 * c + 1460 * q + 365 * k + t - e) / 365 == 100 * c + 4 * q + k;
  }

  lemma DaysBeforeYearSplit(c: int, q: int, k: int)
    requires 0 <= c < 4 && 0 <= q < 25 && 0 <= k < 4
    ensures DaysBeforeYear(100 * c + 4 * q + k) == 36_524 * c + 1461 * q + 365 * k
  {
  }

  /** Every day of the era splits that way. */
  lemma SplitEra(doe: int) returns (c: int, q: int, k: int, t: int)
    requires 0 <= doe < 146_097
    ensures EraDay(c, q, k, t) && doe == 36_524 * c + 1461 * q + 365 * k + t
  {
    c := if doe == 146_096 then 3 else doe / 36_524;
    var r := doe - 36_524 * c;
    q := r / 1461;
    var w := r - 1461 * q;
    k := if w == 1460 then 3 else w / 365;
    t := w - 365 * k;
  }

  /** A date counted from March: the year that started in March, and the day of it. */
  function MarchYear(d: Date): int {
    if d.month <= 2 then d.year - 1 else d.year
  }

  function MarchMonth(month: int): int {
    if month <= 2 then month + 9 else month - 3
  }

  function MarchDay(d: Date): int {
    DaysBeforeMonth(MarchMonth(d.month)) + d.day - 1
  }

  /** Days from 1 March of year 0 to 1 March of year `y`. */
  function DaysToMarch(y: int): int {
    365 * y + y / 4 - y / 100 + y / 400
  }

  /** The number of a date: how many days it lies after the epoch. */
  function DayNumber(d: Date): int {
    DaysToMarch(MarchYear(d)) + MarchDay(d) - 719_468
  }

  /** Days in the year that starts in March `y`, whose last day is in year `y + 1`. */
  function MarchYearLength(y: int): int {
    if IsLeap(y + 1) then 366 else 365
  }

  lemma DaysToMarchStep(y: int)
    ensures DaysToMarch(y + 1) == DaysToMarch(y) + MarchYearLength(y)
  {
    assert (y + 1) / 4 == y / 4 + if (y + 1) % 4 == 0 then 1 else 0;
    assert (y + 1) / 100 == y / 100 + if (y + 1) % 100 == 0 then 1 else 0;
    assert (y + 1) / 400 == y / 400 + if (y + 1) % 400 == 0 then 1 else 0;
    LeapRule(y + 1);
  }

  lemma LeapRule(year: int)
    ensures year % 100 == 0 ==> year % 4 == 0
    ensures year % 400 == 0 ==> year % 100 == 0
  {
    Multiples(year / 100);
    Multiples(year / 400);
  }

  lemma Multiples(k: int)
    ensures (100 * k) % 4 == 0 && (400 * k) % 100 == 0
  {
    assert 100 * k == 4 * (25 * k) && 400 * k == 100 * (4 * k);
  }

  lemma NextDateCounts(d: Date)
    requires ValidDate(d)
    ensures ValidDate(NextDate(d)) && DayNumber(NextDate(d)) == DayNumber(d) + 1
  {
    NextMarchDay(d);
    DaysToMarchStep(MarchYear(d));
  }

  /** The next date is the next day of the same March year, or the first of the next. */
  lemma NextMarchDay(d: Date)
    requires ValidDate(d)
    ensures ValidDate(NextDate(d))
    ensures
      var n := NextDate(d);
      if MarchYear(n) == MarchYear(d) then MarchDay(n) == MarchDay(d) + 1
      else MarchYear(n) == MarchYear(d) + 1 && MarchDay(n) == 0 && MarchDay(d) + 1 == MarchYearLength(MarchYear(d))
  {
  }

  /** Within a March year the day of the year is in range. */
  lemma MarchDayRange(d: Date)
    requires ValidDate(d)
    ensures 0 <= MarchDay(d) < MarchYearLength(MarchYear(d))
  {
  }

  lemma {:induction false} DaysToMarchMonotone(y: int, y': int)
    requires y < y'
    ensures DaysToMarch(y) + MarchYearLength(y) <= DaysToMarch(y')
    decreases y' - y
  {
    DaysToMarchStep(y);
    if y + 1 < y' {
      DaysToMarchMonotone(y + 1, y');
    }
  }

  /** No two dates have one number. */
  lemma DayNumberInjective(d: Date, d': Date)
    requires ValidDate(d) && ValidDate(d') && DayNumber(d) == DayNumber(d')
    ensures d == d'
  {
    MarchDayRange(d);
    MarchDayRange(d');
    if MarchYear(d) < MarchYear(d') {
      DaysToMarchMonotone(MarchYear(d), MarchYear(d'));
    } else if MarchYear(d') < MarchYear(d) {
      DaysToMarchMonotone(MarchYear(d'), MarchYear(d));
    } else {
      MarchDayInjective(d, d');
    }
  }

  lemma MarchDayInjective(d: Date, d': Date)
    requires ValidDate(d) && ValidDate(d') && MarchYear(d) == MarchYear(d') && MarchDay(d) == MarchDay(d')
    ensures d == d'
  {
    MarchDayMonth(d);
    MarchDayMonth(d');
  }

  lemma MarchDayMonth(d: Date)
    requires ValidDate(d)
    ensures MonthIndex(MarchDay(d)) == MarchMonth(d.month)
  {
  }

  // ----- The closed form is the calendar -----

  lemma CivilEra(days: int)
    ensures
      var z := days + 719_468;
      CivilFromDays(days) == FromEra(z / 146_097, z - z / 146_097 * 146_097)
  {
    EraIsFloor(days + 719_468);
  }

  lemma FromEraParts(era: int, c: int, q: int, k: int, t: int)
    requires EraDay(c, q, k, t)
    ensures FromEra(era, 36_524 * c + 1461 * q + 365 * k + t) == FromMarch(400 * era + 100 * c + 4 * q + k, t)
  {
    YearOfEraSplit(c, q, k, t);
    DaysBeforeYearSplit(c, q, k);
  }

  lemma YearSplit(era: int, c: int, q: int, k: int)
    requires 0 <= c < 4 && 0 <= q < 25 && 0 <= k < 4
    ensures DaysToMarch(400 * era + 100 * c + 4 * q + k) == 146_097 * era + 36_524 * c + 1461 * q + 365 * k
  {
    var y := 400 * era + 100 * c + 4 * q + k;
    assert y / 4 == 100 * era + 25 * c + q;
    assert y / 100 == 4 * era + c;
    assert y / 400 == era;
  }

  /** The last year of a cycle is the leap one, except for the last cycle of the first
      three centuries. */
  lemma LeapSplit(era: int, c: int, q: int, k: int)
    requires 0 <= c < 4 && 0 <= q < 25 && 0 <= k < 4
    ensures IsLeap(400 * era + 100 * c + 4 * q + k + 1) <==> k == 3 && (q == 24 ==> c == 3)
  {
    var y := 400 * era + 100 * c + 4 * q + k + 1;
    MultipleWhen(y, 4, 100 * era + 25 * c + q, k + 1);
    MultipleWhen(y, 100, 4 * era + c, 4 * q + k + 1);
    MultipleWhen(y, 400, era, 100 * c + 4 * q + k + 1);
  }

  lemma MultipleWhen(n: int, d: int, q: int, r: int)
    requires d == 4 || d == 100 || d == 400
    requires 1 <= r <= d && n == d * q + r
    ensures n % d == 0 <==> r == d
  {
    var e := if r == d then 1 else 0;
    if d == 4 {
      assert n / 4 == q + e;
    } else if d == 100 {
      assert n / 100 == q + e;
    } else {
      assert n / 400 == q + e;
    }
  }

  /** A day of the year lands in a month that contains it. */
  lemma FromMarchInverts(y: int, t: int)
    requires 0 <= t < MarchYearLength(y)
    ensures ValidDate(FromMarch(y, t)) && MarchYear(FromMarch(y, t)) == y && MarchDay(FromMarch(y, t)) == t
  {
  }

  lemma FromMarchNumber(y: int, t: int)
    requires 0 <= t < MarchYearLength(y)
    ensures ValidDate(FromMarch(y, t)) && DayNumber(FromMarch(y, t)) == DaysToMarch(y) + t - 719_468
  {
    FromMarchInverts(y, t);
  }

  /** A day of a March year that is counted by centuries, cycles and years. */
  lemma FromMarchOfEra(era: int, c: int, q: int, k: int, t: int)
    requires EraDay(c, q, k, t)
    ensures var d := FromMarch(400 * era + 100 * c + 4 * q + k, t);
            ValidDate(d) && DayNumber(d) == 146_097 * era + (36_524 * c + 1461 * q + 365 * k + t) - 719_468
  {
    YearSplit(era, c, q, k);
    LeapSplit(era, c, q, k);
    FromMarchNumber(400 * era + 100 * c + 4 * q + k, t);
  }

  lemma FromEraInverts(era: int, doe: int)
    requires 0 <= doe < 146_097
    ensures ValidDate(FromEra(era, doe)) && DayNumber(FromEra(era, doe)) == 146_097 * era + doe - 719_468
  {
    var c, q, k, t := SplitEra(doe);
    FromEraParts(era, c, q, k, t);
    FromMarchOfEra(era, c, q, k, t);
  }

  /** For every day number, the conversion yields a real date and inverts counting. */
  lemma CivilInvertsCounting(days: int)
    ensures ValidDate(CivilFromDays(days)) && DayNumber(CivilFromDays(days)) == days
  {
    CivilEra(days);
    var z := days + 719_468;
    FromEraInverts(z / 146_097, z - z / 146_097 * 146_097);
  }

  lemma CountingInvertsCivil(d: Date)
    requires ValidDate(d)
    ensures CivilFromDays(DayNumber(d)) == d
  {
    CivilInvertsCounting(DayNumber(d));
    DayNumberInjective(CivilFromDays(DayNumber(d)), d);
  }

  /** The day after a day is the date after its date. */
  lemma CivilSteps(days: int)
    ensures CivilFromDays(days + 1) == NextDate(CivilFromDays(days))
    ensures PreviousDate(CivilFromDays(days + 1)) == CivilFromDays(days)
  {
    CivilInvertsCounting(days);
    CivilInvertsCounting(days + 1);
    var d := CivilFromDays(days);
    NextDateCounts(d);
    DayNumberInjective(CivilFromDays(days + 1), NextDate(d));
    PreviousOfNext(d);
  }

  lemma PreviousOfNext(d: Date)
    requires ValidDate(d)
    ensures PreviousDate(NextDate(d)) == d
  {
  }

  lemma CivilAtEpoch()
    ensures CivilFromDays(0) == EPOCH
  {
  }

  lemma AgreesOneDayLater(days: int)
    requires 0 <= days && CivilFromDays(days) == StepFromEpoch(days)
    ensures CivilFromDays(days + 1) == StepFromEpoch(days + 1)
  {
    CivilSteps(days);
  }

  lemma AgreesOneDayEarlier(days: int)
    requires days < 0 && CivilFromDays(days + 1) == StepFromEpoch(days + 1)
    ensures CivilFromDays(days) == StepFromEpoch(days)
  {
    CivilSteps(days);
  }

  /** The closed form agrees with stepping through the calendar, for every day number. */
  lemma {:induction false} CivilIsTheCalendar(days: int)
    ensures CivilFromDays(days) == StepFromEpoch(days)
    decreases if 0 <= days then days else -days
  {
    if days == 0 {
      CivilAtEpoch();
    } else if 0 < days {
      CivilIsTheCalendar(days - 1);
      AgreesOneDayLater(days - 1);
    } else {
      CivilIsTheCalendar(days + 1);
      AgreesOneDayEarlier(days);
    }
  }
}
