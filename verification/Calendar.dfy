/** The proleptic Gregorian calendar, day by day, and the closed form that turns a
    day number into a date (crates/softfig-cli/src/cmd_onboard.rs,
    crates/softfig-cli/src/cmd_repo.rs, crates/softfig-cli/src/cmd_growlight.rs). */
module Calendar {

  datatype Date = Date(year: int, month: int, day: int)

  // ---- the calendar (section 5.7 and Appendix C of RFC 3339) -------------------

  predicate IsLeap(y: int) {
    y % 4 == 0 && (y % 100 != 0 || y % 400 == 0)
  }

  function DaysInMonth(y: int, m: int): int
    requires 1 <= m <= 12
  {
    if m == 2 then if IsLeap(y) then 29 else 28
    else if m == 4 || m == 6 || m == 9 || m == 11 then 30
    else 31
  }

  predicate ValidDate(d: Date) {
    1 <= d.month <= 12 && 1 <= d.day <= DaysInMonth(d.year, d.month)
  }

  function NextDay(d: Date): (n: Date)
    requires ValidDate(d)
    ensures ValidDate(n)
  {
    if d.day < DaysInMonth(d.year, d.month) then d.(day := d.day + 1)
    else if d.month < 12 then Date(d.year, d.month + 1, 1)
    else Date(d.year + 1, 1, 1)
  }

  const EPOCH := Date(1970, 1, 1)

  // ---- the closed form -----------------------------------------------------------

  /** `/` on signed integers: towards zero. */
  function TruncDiv(a: int, b: int): int
    requires b > 0
  {
    if a >= 0 then a / b else -((-a) / b)
  }

  /** The day of the 400-year era, counted from 1 March of year 0. */
  function DayOfEra(z: int): int {
    z - Era(z) * 146097
  }

  function Era(z: int): int {
    TruncDiv(if z >= 0 then z else z - 146096, 146097)
  }

  function YearOfEra(doe: int): int {
    TruncDiv(doe - TruncDiv(doe, 1460) + TruncDiv(doe, 36524) - TruncDiv(doe, 146096), 365)
  }

  function DayOfYear(doe: int, yoe: int): int {
    doe - (365 * yoe + TruncDiv(yoe, 4) - TruncDiv(yoe, 100))
  }

  function MonthIndex(doy: int): int {
    TruncDiv(5 * doy + 2, 153)
  }

  function DayOfMonth(doy: int, mp: int): int {
    doy - TruncDiv(153 * mp + 2, 5) + 1
  }

  /** `civil_from_days`. */
  function CivilFromDays(days: int): Date {
    CivilInEra(Era(days + 719468), DayOfEra(days + 719468))
  }

  /** Its part after the era is known. */
  function CivilInEra(era: int, doe: int): Date {
    var yoe := YearOfEra(doe);
    var y := yoe + era * 400;
    var doy := DayOfYear(doe, yoe);
    var mp := MonthIndex(doy);
    var d := DayOfMonth(doy, mp);
    var m := if mp < 10 then mp + 3 else mp - 9;
    Date(if m <= 2 then y + 1 else y, m, d)
  }

  // ---- where a day lies ------------------------------------------------------------

  /** Days of the era before its year `yoe`, years starting on 1 March. */
  function YearStart(yoe: int): int {
    365 * yoe + yoe / 4 - yoe / 100
  }

  /** The length of that year: its February belongs to the next calendar year. */
  function YearLength(yoe: int): int {
    if IsLeap(yoe + 1) then 366 else 365
  }

  lemma EraIsFloor(z: int)
    ensures Era(z) == z / 146097 && 0 <= DayOfEra(z) <= 146096
  {
  }

  /** A day of the era as centuries, four-year cycles and days. */
  lemma Cycles(doe: int) returns (q: int, k: int, t: int)
    requires 0 <= doe <= 146096
    ensures doe == 36524 * q + 1461 * k + t
    ensures 0 <= q <= 3 && 0 <= k <= 24 && 0 <= t <= 1460
    ensures k == 24 && q < 3 ==> t < 1460
  {
    q := if doe == 146096 then 3 else doe / 36524;
    var r := doe - 36524 * q;
    k := r / 1461;
    t := r % 1461;
  }

  lemma DivideBy1460(a: int, r: int)
    requires 1460 * r <= a < 1460 * r + 1460
    ensures a / 1460 == r
  {
  }

  lemma DivideBy365(a: int, r: int)
    requires 365 * r <= a < 365 * r + 365
    ensures a / 365 == r
  {
  }

  lemma CenturiesIn(doe: int, q: int)
    requires 0 <= q <= 3 && 36524 * q <= doe <= 146096 && (q < 3 ==> doe < 36524 * q + 36524)
    ensures doe / 36524 - doe / 146096 == q
  {
  }

  /** The closed form picks the year the day lies in. */
  lemma YearOfEraInCycles(doe: int, q: int, k: int, t: int)
    requires 0 <= q <= 3 && 0 <= k <= 24 && 0 <= t <= 1460
    requires k == 24 && q < 3 ==> t < 1460
    requires doe == 36524 * q + 1461 * k + t
    ensures 0 <= doe <= 146096
    ensures YearOfEra(doe) == 100 * q + 4 * k + (if t == 1460 then 3 else t / 365)
  {
    var carry := if 24 * q + k + t >= 1460 then 1 else 0;
    var year := if t == 1460 then 3 else t / 365;
    DivideBy1460(doe, 25 * q + k + carry);
    CenturiesIn(doe, q);
    assert 365 * year <= t - carry < 365 * year + 365;
    DivideBy365(doe - doe / 1460 + doe / 36524 - doe / 146096, 100 * q + 4 * k + year);
  }

  lemma YearBounds(q: int, k: int, j: int, doe: int, t: int)
    requires 0 <= q <= 3 && 0 <= k <= 24 && 0 <= t <= 1460 && j == (if t == 1460 then 3 else t / 365)
    requires k == 24 && q < 3 ==> t < 1460
    requires doe == 36524 * q + 1461 * k + t
    ensures var y := 100 * q + 4 * k + j;
            0 <= y <= 399 && YearStart(y) <= doe < YearStart(y) + YearLength(y)
  {
    var y := 100 * q + 4 * k + j;
    assert y / 4 == 25 * q + k && y / 100 == q;
    assert YearStart(y) == 36524 * q + 1461 * k + 365 * j;
    if j == 3 {
      assert (y + 1) % 4 == 0;
      if k == 24 {
        assert y + 1 == 100 * (q + 1);
      } else {
        assert (y + 1) % 100 == 4 * (k + 1);
      }
    }
  }

  lemma DayLiesInYear(doe: int)
    requires 0 <= doe <= 146096
    ensures var y := YearOfEra(doe); 0 <= y <= 399 && YearStart(y) <= doe < YearStart(y) + YearLength(y)
  {
    var q, k, t := Cycles(doe);
    YearOfEraInCycles(doe, q, k, t);
    YearBounds(q, k, if t == 1460 then 3 else t / 365, doe, t);
  }

  /** Years of the era follow on one another and fill it. */
  lemma YearsAbut(y: int)
    requires 0 <= y <= 399
    ensures y < 399 ==> YearStart(y + 1) == YearStart(y) + YearLength(y)
    ensures y == 399 ==> YearStart(y) + YearLength(y) == 146097
  {
    assert (y + 1) / 4 == y / 4 + (if (y + 1) % 4 == 0 then 1 else 0);
    assert (y + 1) / 100 == y / 100 + (if (y + 1) % 100 == 0 then 1 else 0);
    if y < 399 {
      assert (y + 1) % 400 != 0;
      assert (y + 1) % 100 == 0 ==> (y + 1) % 4 == 0;
    }
  }

  lemma YearOfDayUnique(doe: int, y: int)
    requires 0 <= doe <= 146096 && 0 <= y <= 399
    requires YearStart(y) <= doe < YearStart(y) + YearLength(y)
    ensures YearOfEra(doe) == y
  {
    DayLiesInYear(doe);
    YearsOrdered(YearOfEra(doe), y);
    YearsOrdered(y, YearOfEra(doe));
  }

  lemma YearsOrdered(a: int, b: int)
    requires 0 <= a <= 399 && 0 <= b <= 399
    ensures a < b ==> YearStart(a) + YearLength(a) <= YearStart(b)
  {
    if a < b {
      YearsAbut(a);
      assert b / 4 >= (a + 1) / 4 && b / 100 - (a + 1) / 100 <= b - (a + 1);
    }
  }

  // ---- months ------------------------------------------------------------------------

  /** Days before month `mp` of a year that starts in March. */
  function MonthStart(mp: int): int
    requires 0 <= mp <= 12
  {
    if mp == 12 then 366 else [0, 31, 61, 92, 122, 153, 184, 214, 245, 275, 306, 337][mp]
  }

  lemma DayLiesInMonth(doy: int)
    requires 0 <= doy <= 365
    ensures var mp := MonthIndex(doy);
            0 <= mp <= 11 && MonthStart(mp) <= doy < MonthStart(mp + 1)
            && DayOfMonth(doy, mp) == doy - MonthStart(mp) + 1
  {
    var mp := MonthIndex(doy);
    assert 153 * mp <= 5 * doy + 2 < 153 * mp + 153;
    assert 0 <= mp <= 11;
    if mp == 0 {} else if mp == 1 {} else if mp == 2 {} else if mp == 3 {}
    else if mp == 4 {} else if mp == 5 {} else if mp == 6 {} else if mp == 7 {}
    else if mp == 8 {} else if mp == 9 {} else if mp == 10 {} else {}
  }

  /** The date of day `doy` of year `yoe` of an era. */
  function DateInYear(era: int, yoe: int, doy: int): Date {
    var mp := MonthIndex(doy);
    var m := if mp < 10 then mp + 3 else mp - 9;
    Date(yoe + era * 400 + (if m <= 2 then 1 else 0), m, DayOfMonth(doy, mp))
  }

  lemma Mod4Periodic(y: int, k: int)
    ensures (y + 4 * k) % 4 == y % 4
  {
  }

  lemma Mod100Periodic(y: int, k: int)
    ensures (y + 100 * k) % 100 == y % 100
  {
  }

  lemma Mod400Periodic(y: int, k: int)
    ensures (y + 400 * k) % 400 == y % 400
  {
  }

  lemma LeapInEra(era: int, yoe: int)
    ensures IsLeap(yoe + 1 + era * 400) <==> IsLeap(yoe + 1)
  {
    Mod4Periodic(yoe + 1, 100 * era);
    Mod100Periodic(yoe + 1, 4 * era);
    Mod400Periodic(yoe + 1, era);
  }

  /** The calendar month and year of month `mp` of a March year. */
  function MonthOf(mp: int): int {
    if mp < 10 then mp + 3 else mp - 9
  }

  function YearOf(era: int, yoe: int, mp: int): int {
    yoe + era * 400 + (if MonthOf(mp) <= 2 then 1 else 0)
  }

  /** Where month `mp` of that year ends: its last month is a February. */
  function MonthEnd(yoe: int, mp: int): int
    requires 0 <= mp <= 11
  {
    if mp == 11 then YearLength(yoe) else MonthStart(mp + 1)
  }

  /** The months of a March year have their calendar lengths. */
  lemma MonthLength(era: int, yoe: int, mp: int)
    requires 0 <= mp <= 11
    ensures 1 <= MonthOf(mp) <= 12
    ensures DaysInMonth(YearOf(era, yoe, mp), MonthOf(mp)) == MonthEnd(yoe, mp) - MonthStart(mp)
  {
    LeapInEra(era, yoe);
  }

  /** A day of month `mp` has that month's date. */
  lemma DateInMonth(era: int, yoe: int, doy: int, mp: int)
    requires 0 <= mp <= 11 && MonthStart(mp) <= doy < MonthStart(mp + 1)
    ensures DateInYear(era, yoe, doy) == Date(YearOf(era, yoe, mp), MonthOf(mp), doy - MonthStart(mp) + 1)
  {
    DayLiesInMonth(doy);
    MonthsApart(MonthIndex(doy), mp);
    MonthsApart(mp, MonthIndex(doy));
  }

  lemma MonthsApart(a: int, b: int)
    requires 0 <= a <= 11 && 0 <= b <= 11
    ensures a < b ==> MonthStart(a + 1) <= MonthStart(b)
  {
  }

  /** Within a year: valid dates, and each day's successor is the next one's date. */
  lemma DayInYearSteps(era: int, yoe: int, doy: int)
    requires 0 <= doy < YearLength(yoe)
    ensures ValidDate(DateInYear(era, yoe, doy))
    ensures NextDay(DateInYear(era, yoe, doy)) == NextDateInYear(era, yoe, doy)
  {
    DayLiesInMonth(doy);
    var mp := MonthIndex(doy);
    DateInMonth(era, yoe, doy, mp);
    MonthLength(era, yoe, mp);
    if doy + 1 < MonthEnd(yoe, mp) {
      DateInMonth(era, yoe, doy + 1, mp);
    } else if mp < 11 {
      DateInMonth(era, yoe, doy + 1, mp + 1);
    }
  }

  function NextDateInYear(era: int, yoe: int, doy: int): Date {
    if doy + 1 < YearLength(yoe) then DateInYear(era, yoe, doy + 1)
    else Date(yoe + era * 400 + 1, 3, 1)
  }

  // ---- the theorem ---------------------------------------------------------------------

  /** Day number `days` is day `doy` of year `yoe` of `era`. */
  predicate IsDay(days: int, era: int, yoe: int, doy: int) {
    && 0 <= yoe <= 399 && 0 <= doy < YearLength(yoe)
    && days + 719468 == era * 146097 + YearStart(yoe) + doy
  }

  lemma EraIs(z: int, era: int)
    requires era * 146097 <= z < era * 146097 + 146097
    ensures Era(z) == era
  {
    EraIsFloor(z);
  }

  lemma DayOfYearIs(doe: int, yoe: int)
    requires 0 <= yoe
    ensures DayOfYear(doe, yoe) == doe - YearStart(yoe)
  {
  }

  lemma CivilInYear(era: int, doe: int, yoe: int, doy: int)
    requires YearOfEra(doe) == yoe && DayOfYear(doe, yoe) == doy
    ensures CivilInEra(era, doe) == DateInYear(era, yoe, doy)
  {
  }

  lemma PlaceInEra(yoe: int, doy: int, doe: int)
    requires 0 <= yoe <= 399 && 0 <= doy < YearLength(yoe) && doe == YearStart(yoe) + doy
    ensures 0 <= doe <= 146096 && YearOfEra(doe) == yoe && DayOfYear(doe, yoe) == doy
  {
    YearsFit(yoe);
    YearOfDayUnique(doe, yoe);
    DayOfYearIs(doe, yoe);
  }

  lemma DateInEra(days: int, era: int, doe: int, date: Date)
    requires 0 <= doe <= 146096 && days + 719468 == era * 146097 + doe
    requires CivilInEra(era, doe) == date
    ensures CivilFromDays(days) == date
  {
    EraIs(days + 719468, era);
  }

  lemma DateOfDay(days: int, era: int, yoe: int, doy: int)
    requires IsDay(days, era, yoe, doy)
    ensures CivilFromDays(days) == DateInYear(era, yoe, doy)
  {
    var doe := YearStart(yoe) + doy;
    PlaceInEra(yoe, doy, doe);
    CivilInYear(era, doe, yoe, doy);
    DateInEra(days, era, doe, DateInYear(era, yoe, doy));
  }

  lemma YearsFit(yoe: int)
    requires 0 <= yoe <= 399
    ensures 0 <= YearStart(yoe) && YearStart(yoe) + YearLength(yoe) <= 146097
  {
    YearsOrdered(yoe, 399);
    YearsAbut(399);
  }

  lemma DayExists(days: int) returns (era: int, yoe: int, doy: int)
    ensures IsDay(days, era, yoe, doy)
  {
    var z := days + 719468;
    EraIsFloor(z);
    DayLiesInYear(DayOfEra(z));
    era, yoe := Era(z), YearOfEra(DayOfEra(z));
    doy := DayOfEra(z) - YearStart(yoe);
  }

  lemma DayAfter(days: int, era: int, yoe: int, doy: int)
    requires IsDay(days, era, yoe, doy)
    ensures if doy + 1 < YearLength(yoe) then IsDay(days + 1, era, yoe, doy + 1)
            else if yoe < 399 then IsDay(days + 1, era, yoe + 1, 0)
            else IsDay(days + 1, era + 1, 0, 0)
  {
    YearsAbut(yoe);
  }

  /** Every day number gives a valid date. */
  lemma CivilIsValid(days: int)
    ensures ValidDate(CivilFromDays(days))
  {
    var era, yoe, doy := DayExists(days);
    DateOfDay(days, era, yoe, doy);
    DayInYearSteps(era, yoe, doy);
  }

  lemma CivilEpoch()
    ensures CivilFromDays(0) == EPOCH
  {
    assert Era(719468) == 4 && DayOfEra(719468) == 135080;
    assert YearOfEra(135080) == 369 && DayOfYear(135080, 369) == 306;
    assert MonthIndex(306) == 10 && DayOfMonth(306, 10) == 1;
  }

  lemma FirstOfYear(era: int, yoe: int)
    ensures DateInYear(era, yoe, 0) == Date(yoe + era * 400, 3, 1)
  {
  }

  /** The next day's place: the same year, the next one, or the next era. */
  lemma NextPlace(days: int, era: int, yoe: int, doy: int) returns (era': int, yoe': int, doy': int)
    requires IsDay(days, era, yoe, doy)
    ensures IsDay(days + 1, era', yoe', doy')
    ensures if doy + 1 < YearLength(yoe) then era' == era && yoe' == yoe && doy' == doy + 1
            else doy' == 0 && yoe' + era' * 400 == yoe + 1 + era * 400
  {
    DayAfter(days, era, yoe, doy);
    if doy + 1 < YearLength(yoe) {
      return era, yoe, doy + 1;
    } else if yoe < 399 {
      return era, yoe + 1, 0;
    } else {
      return era + 1, 0, 0;
    }
  }

  lemma DateOfNextPlace(era: int, yoe: int, doy: int, era': int, yoe': int, doy': int)
    requires if doy + 1 < YearLength(yoe) then era' == era && yoe' == yoe && doy' == doy + 1
             else doy' == 0 && yoe' + era' * 400 == yoe + 1 + era * 400
    ensures DateInYear(era', yoe', doy') == NextDateInYear(era, yoe, doy)
  {
    if doy + 1 >= YearLength(yoe) {
      FirstOfYear(era', yoe');
    }
  }

  /** The day after has the date after. */
  lemma CivilSuccessor(days: int)
    ensures ValidDate(CivilFromDays(days))
    ensures CivilFromDays(days + 1) == NextDay(CivilFromDays(days))
  {
    var era, yoe, doy := DayExists(days);
    DateOfDay(days, era, yoe, doy);
    DayInYearSteps(era, yoe, doy);
    var era', yoe', doy' := NextPlace(days, era, yoe, doy);
    DateOfDay(days + 1, era', yoe', doy');
    DateOfNextPlace(era, yoe, doy, era', yoe', doy');
  }

  // ---- an independent day count ----------------------------------------------------------

  function YearDays(y: int): int {
    if IsLeap(y) then 366 else 365
  }

  /** Days from 1970-01-01 to the first day of year `y`, one year at a time. */
  function DaysToYear(y: int): int
    decreases if y >= 1970 then y - 1970 else 1970 - y
  {
    if y == 1970 then 0
    else if y > 1970 then DaysToYear(y - 1) + YearDays(y - 1)
    else DaysToYear(y + 1) - YearDays(y)
  }

  function DaysToMonth(y: int, m: int): int
    requires 1 <= m <= 12
    decreases m
  {
    if m == 1 then 0 else DaysToMonth(y, m - 1) + DaysInMonth(y, m - 1)
  }

  function DayNumber(d: Date): int
    requires ValidDate(d)
  {
    DaysToYear(d.year) + DaysToMonth(d.year, d.month) + d.day - 1
  }

  lemma NextDayCounts(d: Date)
    requires ValidDate(d)
    ensures DayNumber(NextDay(d)) == DayNumber(d) + 1
  {
    if d.month == 12 && d.day == 31 {
      YearAdds(d.year);
      MonthsAddUp(d.year);
    }
  }

  lemma YearAdds(y: int)
    ensures DaysToYear(y + 1) == DaysToYear(y) + YearDays(y)
  {
  }

  lemma MonthsAddUp(y: int)
    ensures DaysToMonth(y, 12) + 31 == YearDays(y)
  {
    assert DaysToMonth(y, 3) == 31 + DaysInMonth(y, 2);
    assert DaysToMonth(y, 6) == DaysToMonth(y, 3) + 92;
    assert DaysToMonth(y, 9) == DaysToMonth(y, 6) + 92;
    assert DaysToMonth(y, 12) == DaysToMonth(y, 9) + 91;
  }

  lemma CivilStepCounts(days: int)
    ensures ValidDate(CivilFromDays(days)) && ValidDate(CivilFromDays(days + 1))
    ensures DayNumber(CivilFromDays(days + 1)) == DayNumber(CivilFromDays(days)) + 1
  {
    CivilSuccessor(days);
    NextDayCounts(CivilFromDays(days));
  }

  /** A count that starts at zero and goes up by one is the identity. */
  lemma {:induction false} CountsUp(f: int -> int, n: int)
    requires f(0) == 0 && forall k :: f(k + 1) == f(k) + 1
    ensures f(n) == n
    decreases if n >= 0 then n else -n
  {
    if n > 0 {
      CountsUp(f, n - 1);
      assert f(n - 1 + 1) == f(n - 1) + 1;
    } else if n < 0 {
      CountsUp(f, n + 1);
      assert f(n + 1) == f(n) + 1;
    }
  }

  function CountOf(days: int): int {
    if ValidDate(CivilFromDays(days)) then DayNumber(CivilFromDays(days)) else 0
  }

  lemma CountSteps(days: int)
    ensures CountOf(days + 1) == CountOf(days) + 1
  {
    CivilStepCounts(days);
  }

  lemma CountAtEpoch()
    ensures CountOf(0) == 0
  {
    CivilEpoch();
  }

  lemma CountIsIdentity(days: int)
    ensures CountOf(days) == days
  {
    CountAtEpoch();
    forall k
      ensures CountOf(k + 1) == CountOf(k) + 1
    {
      CountSteps(k);
    }
    CountsUp(CountOf, days);
  }

  /** Counting days gives the number back. */
  lemma DayNumberOfCivil(days: int)
    ensures ValidDate(CivilFromDays(days)) && DayNumber(CivilFromDays(days)) == days
  {
    CivilIsValid(days);
    CountIsIdentity(days);
  }

  lemma {:induction false} YearsGrow(a: int, b: int)
    requires a < b
    ensures DaysToYear(a) + YearDays(a) <= DaysToYear(b)
    decreases b - a
  {
    YearAdds(a);
    if a + 1 < b {
      YearsGrow(a + 1, b);
    }
  }

  lemma {:induction false} MonthsGrow(y: int, a: int, b: int)
    requires 1 <= a < b <= 12
    ensures DaysToMonth(y, a) + DaysInMonth(y, a) <= DaysToMonth(y, b)
    decreases b - a
  {
    if a + 1 < b {
      MonthsGrow(y, a, b - 1);
    }
  }

  lemma MonthWithinYear(d: Date)
    requires ValidDate(d)
    ensures 0 <= DaysToMonth(d.year, d.month) + d.day - 1 < YearDays(d.year)
  {
    MonthsAddUp(d.year);
    if d.month > 1 {
      MonthsGrow(d.year, 1, d.month);
    }
    if d.month < 12 {
      MonthsGrow(d.year, d.month, 12);
    }
  }

  /** Different dates have different day numbers. */
  lemma DayNumberInjective(a: Date, b: Date)
    requires ValidDate(a) && ValidDate(b) && DayNumber(a) == DayNumber(b)
    ensures a == b
  {
    MonthWithinYear(a);
    MonthWithinYear(b);
    if a.year < b.year {
      YearsGrow(a.year, b.year);
    } else if b.year < a.year {
      YearsGrow(b.year, a.year);
    } else if a.month < b.month {
      MonthsGrow(a.year, a.month, b.month);
    } else if b.month < a.month {
      MonthsGrow(a.year, b.month, a.month);
    }
  }

  /** ... so the closed form inverts the day count: every valid date, of any year,
      is the date of its day number. */
  lemma CivilOfDayNumber(d: Date)
    requires ValidDate(d)
    ensures CivilFromDays(DayNumber(d)) == d
  {
    DayNumberOfCivil(DayNumber(d));
    DayNumberInjective(CivilFromDays(DayNumber(d)), d);
  }

  // ---- the unsigned copy and the printed forms -----------------------------------------

  const U64 := 0x1_0000_0000_0000_0000

  /** Unsigned 64-bit subtraction, wrapping below zero. */
  function SubU64(a: int, b: int): int {
    (a - b) % U64
  }

  function YearOfEraU64(doe: int): int {
    SubU64(SubU64(doe, doe / 1460) + doe / 36524, doe / 146096) / 365
  }

  function DayOfYearU64(doe: int, yoe: int): int {
    SubU64(doe, SubU64(365 * yoe + yoe / 4, yoe / 100))
  }

  function MonthU64(mp: int): int {
    if mp < 10 then mp + 3 else SubU64(mp, 9)
  }

  /** `ymd_from_days`: the same steps with the day of the era as a `u64`. */
  function YmdFromDays(days: int): Date {
    YmdInEra(Era(days + 719468), DayOfEra(days + 719468) % U64)
  }

  function YmdInEra(era: int, doe: int): Date {
    var yoe := YearOfEraU64(doe);
    var y := yoe + era * 400;
    var doy := DayOfYearU64(doe, yoe);
    var mp := (5 * doy + 2) / 153;
    var m := MonthU64(mp);
    Date(if m <= 2 then y + 1 else y, m, SubU64(doy, (153 * mp + 2) / 5) + 1)
  }

  lemma CastExact(a: int)
    requires 0 <= a < U64
    ensures a % U64 == a
  {
  }

  lemma SubExact(a: int, b: int)
    requires 0 <= b <= a < U64
    ensures SubU64(a, b) == a - b
  {
  }

  lemma UnsignedYearAgrees(doe: int)
    requires 0 <= doe <= 146096
    ensures YearOfEraU64(doe) == YearOfEra(doe)
  {
    SubExact(doe, doe / 1460);
    SubExact(doe - doe / 1460 + doe / 36524, doe / 146096);
  }

  lemma SubSubExact(a: int, b: int, c: int)
    requires 0 <= c <= b <= a + c && a < U64 && b < U64
    ensures SubU64(a, SubU64(b, c)) == a - (b - c)
  {
    SubExact(b, c);
    SubExact(a, b - c);
  }

  lemma UnsignedDayAgrees(doe: int, yoe: int)
    requires 0 <= doe <= 146096 && 0 <= yoe <= 399 && YearStart(yoe) <= doe
    ensures DayOfYearU64(doe, yoe) == DayOfYear(doe, yoe) == doe - YearStart(yoe)
  {
    var b, c := 365 * yoe + yoe / 4, yoe / 100;
    assert YearStart(yoe) == b - c;
    SubSubExact(doe, b, c);
  }

  lemma UnsignedMonthAgrees(doy: int)
    requires 0 <= doy <= 365
    ensures (5 * doy + 2) / 153 == MonthIndex(doy)
    ensures SubU64(doy, (153 * MonthIndex(doy) + 2) / 5) + 1 == DayOfMonth(doy, MonthIndex(doy))
    ensures MonthU64(MonthIndex(doy)) == if MonthIndex(doy) < 10 then MonthIndex(doy) + 3 else MonthIndex(doy) - 9
  {
    DayLiesInMonth(doy);
  }

  lemma UnsignedInEra(era: int, doe: int)
    requires 0 <= doe <= 146096
    ensures YmdInEra(era, doe) == CivilInEra(era, doe)
  {
    DayLiesInYear(doe);
    UnsignedYearAgrees(doe);
    UnsignedDayAgrees(doe, YearOfEra(doe));
    UnsignedMonthAgrees(DayOfYear(doe, YearOfEra(doe)));
  }

  /** No unsigned subtraction of the copy goes below zero, and everything fits 64 bits. */
  predicate NoWrap(doe: int) {
    var yoe, mp := YearOfEraU64(doe), (5 * DayOfYearU64(doe, YearOfEraU64(doe)) + 2) / 153;
    var doy := DayOfYearU64(doe, yoe);
    && 0 <= doe / 1460 <= doe < U64 && 0 <= doe / 146096 <= doe - doe / 1460 + doe / 36524 < U64
    && 0 <= yoe / 100 <= 365 * yoe + yoe / 4 < U64 && 365 * yoe + yoe / 4 - yoe / 100 <= doe
    && 0 <= 5 * doy + 2 < U64 && 0 <= mp <= 11
    && 0 <= (153 * mp + 2) / 5 <= doy
  }

  lemma NothingWraps(doe: int)
    requires 0 <= doe <= 146096
    ensures NoWrap(doe)
  {
    DayLiesInYear(doe);
    UnsignedYearAgrees(doe);
    var yoe := YearOfEra(doe);
    UnsignedDayAgrees(doe, yoe);
    DayLiesInMonth(doe - YearStart(yoe));
    UnsignedMonthAgrees(doe - YearStart(yoe));
  }

  /** The day of the era a `u64` cast takes is exact, no unsigned step wraps, and so the
      copies agree on every day. */
  lemma UnsignedCopyAgrees(days: int)
    ensures 0 <= DayOfEra(days + 719468) < U64 && NoWrap(DayOfEra(days + 719468))
    ensures YmdFromDays(days) == CivilFromDays(days)
  {
    EraIsFloor(days + 719468);
    NothingWraps(DayOfEra(days + 719468));
    UnsignedSameDate(days);
  }

  lemma UnsignedSameDate(days: int)
    ensures YmdFromDays(days) == CivilFromDays(days)
  {
    var era, doe := Era(days + 719468), DayOfEra(days + 719468);
    EraIsFloor(days + 719468);
    CastExact(doe);
    UnsignedInEra(era, doe);
    calc {
      YmdFromDays(days);
      YmdInEra(era, doe % U64);
      YmdInEra(era, doe);
      CivilInEra(era, doe);
      CivilFromDays(days);
    }
  }

  /** Seconds since the epoch as `iso8601` and `today_iso` print them. */
  datatype Stamp = Stamp(date: Date, hour: int, minute: int, second: int)

  /** `iso8601`. */
  function Iso8601(unix: int): Stamp {
    var secsInDay := unix % 86400;
    Stamp(YmdFromDays(unix / 86400), secsInDay / 3600, secsInDay % 3600 / 60, secsInDay % 60)
  }

  lemma ClockAddsUp(unix: int)
    ensures var s := unix % 86400;
            && 0 <= s / 3600 <= 23 && 0 <= s % 3600 / 60 <= 59 && 0 <= s % 60 <= 59
            && unix / 86400 * 86400 + s / 3600 * 3600 + s % 3600 / 60 * 60 + s % 60 == unix
  {
    var s := unix % 86400;
    assert s % 3600 % 60 == s % 60;
  }

  lemma PrintedDate(days: int)
    ensures ValidDate(YmdFromDays(days)) && DayNumber(YmdFromDays(days)) == days
  {
    UnsignedCopyAgrees(days);
    DayNumberOfCivil(days);
  }

  /** The printed time names the second it came from, before or after the epoch. */
  lemma Iso8601RoundTrips(unix: int, s: Stamp)
    requires s == Iso8601(unix)
    ensures ValidDate(s.date) && 0 <= s.hour <= 23 && 0 <= s.minute <= 59 && 0 <= s.second <= 59
    ensures DayNumber(s.date) * 86400 + s.hour * 3600 + s.minute * 60 + s.second == unix
  {
    PrintedDate(unix / 86400);
    ClockAddsUp(unix);
  }

  /** For every `i64` number of seconds the signed steps stay far inside 64 bits. */
  lemma NoOverflow(unix: int)
    requires -0x8000_0000_0000_0000 <= unix < 0x8000_0000_0000_0000
    ensures var z := unix / 86400 + 719468;
            && -0x4000_0000_0000_0000 <= z - 146096 <= z < 0x4000_0000_0000_0000
            && -0x4000_0000_0000_0000 <= Era(z) * 146097 < 0x4000_0000_0000_0000
            && -0x4000_0000_0000_0000 <= Era(z) * 400 < 0x4000_0000_0000_0000
  {
    EraIsFloor(unix / 86400 + 719468);
  }
}
