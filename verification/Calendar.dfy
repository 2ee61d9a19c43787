/** Days since 1970-01-01 to a Gregorian date, and the log timestamps built on it. */
module Calendar {
  import opened Arithmetic

  const U32: nat := 0x1_0000_0000

  /** Days from 0000-03-01, where the algorithm's eras start, to 1970-01-01. */
  const EPOCH_SHIFT: nat := 719468

  const ERA_DAYS: nat := 146097

  datatype Date = Date(year: nat, month: nat, day: nat)

  // ---------- The algorithm ----------

  /** Year of the 400-year era, counted from March, that day `doe` of the era falls in. */
  function YearOfEra(doe: nat): nat
    requires doe < ERA_DAYS
  {
    var n: nat := doe - doe / 1460 + doe / 36524 - doe / 146096;
    n / 365
  }

  /** The date before the year is narrowed to 32 bits. Every intermediate is a `nat`: nothing goes negative. */
  function Civil(days: nat): Date {
    var z := days + EPOCH_SHIFT;
    var era := z / ERA_DAYS;
    var doe: nat := z - era * ERA_DAYS;
    var yoe := YearOfEra(doe);
    var y := yoe + era * 400;
    YearOfEraBrackets(doe);
    var doy: nat := doe - (365 * yoe + yoe / 4 - yoe / 100);
    FromMarch(y, doy)
  }

  /** Day `doy`, counted from 1 March of year `y`. */
  function FromMarch(y: nat, doy: nat): Date
    requires doy <= 365
  {
    var mp := (5 * doy + 2) / 153;
    var d: nat := doy - (153 * mp + 2) / 5 + 1;
    var m: nat := if mp < 10 then mp + 3 else mp - 9;
    Date(if m <= 2 then y + 1 else y, m, d)
  }

  function DaysToYmd(days: nat): Date {
    var c := Civil(days);
    c.(year := c.year % U32)
  }

  // ---------- The Gregorian calendar ----------

  predicate IsLeap(y: nat) {
    y % 4 == 0 && (y % 100 != 0 || y % 400 == 0)
  }

  function DaysInMonth(y: nat, m: nat): nat {
    if m == 2 then (if IsLeap(y) then 29 else 28)
    else if m == 4 || m == 6 || m == 9 || m == 11 then 30
    else 31
  }

  function NextDay(d: Date): Date {
    if d.day < DaysInMonth(d.year, d.month) then d.(day := d.day + 1)
    else if d.month < 12 then Date(d.year, d.month + 1, 1)
    else Date(d.year + 1, 1, 1)
  }

  /** The reference: count days one by one from the epoch. */
  ghost function DayByDay(days: nat): Date {
    if days == 0 then Date(1970, 1, 1) else NextDay(DayByDay(days - 1))
  }

  // ---------- Correctness of the algorithm ----------

  /** Days in the era before March-year `y`. */
  ghost function YearStart(y: nat): nat {
    365 * y + y / 4 - y / 100 + y / 400
  }

  /** The start of a March-year, from its century, its four-year group and its place in the group. */
  lemma YearStartSplits(c: nat, q: nat, u: nat)
    requires c <= 3 && q <= 24 && u <= 3
    ensures var y := 100 * c + 4 * q + u;
            && YearStart(y) == 365 * y + y / 4 - y / 100 == 36524 * c + 1461 * q + 365 * u
            && (u < 3 ==> YearStart(y + 1) == YearStart(y) + 365)
            && (u == 3 && q < 24 ==> YearStart(y + 1) == YearStart(y) + 366)
            && (u == 3 && q == 24 ==> YearStart(y + 1) == YearStart(y) + (if c == 3 then 366 else 365))
  {
    YearStartAt(c, q, u);
    hide YearStart;
    if u < 3 {
      YearStartAt(c, q, u + 1);
    } else if q < 24 {
      YearStartAt(c, q + 1, 0);
    } else if c < 3 {
      YearStartAt(c + 1, 0, 0);
    } else {
      EraLength();
    }
  }

  lemma YearStartAt(c: nat, q: nat, u: nat)
    requires c <= 3 && q <= 24 && u <= 3
    ensures var y := 100 * c + 4 * q + u;
            YearStart(y) == 365 * y + y / 4 - y / 100 == 36524 * c + 1461 * q + 365 * u
  {
    var y := 100 * c + 4 * q + u;
    DivIs(y, 4, 25 * c + q, u);
    DivIs(y, 100, c, 4 * q + u);
    DivIs(y, 400, 0, y);
  }

  lemma EraLength()
    ensures YearStart(400) == ERA_DAYS
  {
  }

  /** The correction terms recover the century, the four-year group and the year in the group. */
  lemma YearOfEraSplits(doe: nat, c: nat, q: nat, s: nat, u: nat)
    requires c <= 3 && q <= 24 && s <= 1460 && (q == 24 ==> s < 1460) && doe == 36524 * c + 1461 * q + s
    requires u <= 3 && 365 * u <= s && (u < 3 ==> s < 365 * u + 365)
    ensures doe < ERA_DAYS && YearOfEra(doe) == 100 * c + 4 * q + u
  {
    var t := if 24 * c + q + s >= 1460 then 1 else 0;
    assert doe / 1460 == 25 * c + q + t;
    assert doe / 36524 == c;
    assert doe / 146096 == 0;
    assert doe - doe / 1460 + doe / 36524 - doe / 146096 == 365 * (100 * c + 4 * q + u) + (s - t - 365 * u);
  }

  lemma YearOfEraBrackets(doe: nat)
    requires doe < ERA_DAYS
    ensures var yoe := YearOfEra(doe);
            && yoe <= 399
            && YearStart(yoe) == 365 * yoe + yoe / 4 - yoe / 100
            && YearStart(yoe) <= doe < YearStart(yoe + 1)
            && doe - YearStart(yoe) <= 365
  {
    if doe == 146096 {
      LastDayOfEra();
    } else {
      var c, q, s, u := EraSplit(doe);
      hide YearOfEra, YearStart;
      YearOfEraSplits(doe, c, q, s, u);
      YearStartSplits(c, q, u);
    }
  }

  lemma LastDayOfEra()
    ensures YearOfEra(146096) == 399 && YearStart(399) == 145731 == 365 * 399 + 399 / 4 - 399 / 100
    ensures YearStart(400) == ERA_DAYS
  {
  }

  /** Century, four-year group, day in the group and year in the group of a day of the era. */
  lemma EraSplit(doe: nat) returns (c: nat, q: nat, s: nat, u: nat)
    requires doe < 146096
    ensures c <= 3 && q <= 24 && s <= 1460 && (q == 24 ==> s < 1460) && doe == 36524 * c + 1461 * q + s
    ensures u <= 3 && 365 * u <= s && (u < 3 ==> s < 365 * u + 365)
  {
    c := doe / 36524;
    var r := doe % 36524;
    q, s := r / 1461, r % 1461;
    u := if s < 365 then 0 else if s < 730 then 1 else if s < 1095 then 2 else 3;
  }

  /** Only one March-year of the era can hold a given day. */
  lemma YearOfEraUnique(doe: nat, y: nat)
    requires doe < ERA_DAYS && y <= 399 && YearStart(y) <= doe < YearStart(y + 1)
    ensures YearOfEra(doe) == y
  {
    YearOfEraBrackets(doe);
    YearStartMonotone(y + 1, YearOfEra(doe));
    YearStartMonotone(YearOfEra(doe) + 1, y);
  }

  lemma YearStartMonotone(x: nat, y: nat)
    ensures x <= y ==> YearStart(x) <= YearStart(y)
  {
  }

  /** March-year `y` has 366 days exactly when the February it ends with is in a leap year. */
  lemma YearLength(y: nat)
    ensures YearStart(y + 1) == YearStart(y) + (if IsLeap(y + 1) then 366 else 365)
  {
    QuotientStep(y, 4);
    QuotientStep(y, 100);
    QuotientStep(y, 400);
    Hundreds(y + 1);
  }

  lemma Hundreds(y: nat)
    ensures y % 400 == 0 ==> y % 100 == 0
    ensures y % 100 == 0 ==> y % 4 == 0
  {
    if y % 400 == 0 {
      assert y == 100 * (4 * (y / 400));
    }
    if y % 100 == 0 {
      assert y == 4 * (25 * (y / 100));
    }
  }

  lemma QuotientStep(y: nat, k: nat)
    requires k > 1
    ensures (y + 1) / k == y / k + (if (y + 1) % k == 0 then 1 else 0)
  {
    var q, r := y / k, y % k;
    assert y == q * k + r;
    if r + 1 == k {
      DivIs(y + 1, k, q + 1, 0);
    } else {
      DivIs(y + 1, k, q, r + 1);
    }
  }

  lemma NextDayFromMarch(y: nat, doy: nat)
    requires doy <= 365 && (doy == 365 ==> IsLeap(y + 1))
    ensures NextDay(FromMarch(y, doy))
         == if doy == (if IsLeap(y + 1) then 365 else 364) then FromMarch(y + 1, 0) else FromMarch(y, doy + 1)
  {
    hide IsLeap;
    var mp := (5 * doy + 2) / 153;
    assert mp <= 11;
    if doy < 365 {
      var mp' := (5 * (doy + 1) + 2) / 153;
      assert mp' == if doy + 1 < (153 * (mp + 1) + 2) / 5 then mp else mp + 1;
    }
  }

  lemma LeapPeriodic(era: nat, y: nat)
    ensures IsLeap(era * 400 + y) == IsLeap(y)
  {
    ModShift(era, y, 400);
    ModShift(era * 4, y, 100);
    ModShift(era * 100, y, 4);
  }

  /** Reading the algorithm backwards: any era, March-year and day of it give that date. */
  lemma CivilAt(days: nat, era: nat, y: nat, doy: nat)
    requires y <= 399 && doy <= 365 && YearStart(y) + doy < YearStart(y + 1)
    requires days + EPOCH_SHIFT == era * ERA_DAYS + YearStart(y) + doy
    ensures Civil(days) == FromMarch(y + era * 400, doy)
  {
    hide YearOfEra, FromMarch;
    var doe := YearStart(y) + doy;
    YearStartMonotone(y + 1, 400);
    assert YearStart(400) == ERA_DAYS;
    hide YearStart;
    DivIs(days + EPOCH_SHIFT, ERA_DAYS, era, doe);
    YearOfEraUnique(doe, y);
    YearOfEraBrackets(doe);
  }

  /** Every day lies in some era and some March-year of it. */
  lemma Locate(days: nat) returns (era: nat, y: nat, doy: nat)
    ensures y <= 399 && doy <= 365 && YearStart(y) + doy < YearStart(y + 1)
    ensures days + EPOCH_SHIFT == era * ERA_DAYS + YearStart(y) + doy
  {
    var z := days + EPOCH_SHIFT;
    era := z / ERA_DAYS;
    YearOfEraBrackets(z % ERA_DAYS);
    hide YearOfEra;
    y := YearOfEra(z % ERA_DAYS);
    doy := z % ERA_DAYS - YearStart(y);
  }

  /** The date of the next day is the Gregorian successor of the date, for every day. */
  lemma CivilSuccessor(days: nat)
    ensures Civil(days + 1) == NextDay(Civil(days))
  {
    var era, y, doy := Locate(days);
    hide Civil, FromMarch, NextDay, IsLeap;
    CivilAt(days, era, y, doy);
    YearLength(y);
    LeapPeriodic(era, y + 1);
    NextDayFromMarch(y + era * 400, doy);
    if YearStart(y) + doy + 1 < YearStart(y + 1) {
      CivilAt(days + 1, era, y, doy + 1);
    } else if y < 399 {
      YearLength(y + 1);
      CivilAt(days + 1, era, y + 1, 0);
    } else {
      assert YearStart(400) == ERA_DAYS && YearStart(0) == 0 && YearStart(1) == 365;
      CivilAt(days + 1, era + 1, 0, 0);
    }
  }

  lemma CivilEpoch()
    ensures Civil(0) == Date(1970, 1, 1)
  {
    assert YearStart(369) == 134774 && YearStart(370) == 135139;
    CivilAt(0, 4, 369, 306);
    hide Civil;
  }

  /** The closed form agrees with counting days one by one. */
  lemma {:induction false} CivilIsTheCalendar(days: nat)
    ensures Civil(days) == DayByDay(days)
  {
    hide Civil, NextDay;
    if days == 0 {
      CivilEpoch();
    } else {
      CivilIsTheCalendar(days - 1);
      CivilSuccessor(days - 1);
    }
  }

  // ---------- Order of dates ----------

  predicate IsDate(d: Date) {
    1 <= d.month <= 12 && 1 <= d.day <= DaysInMonth(d.year, d.month)
  }

  predicate Earlier(a: Date, b: Date) {
    || a.year < b.year
    || (a.year == b.year && (a.month < b.month || (a.month == b.month && a.day < b.day)))
  }

  lemma {:induction false} DatesAscend(a: nat, b: nat)
    requires a <= b
    ensures IsDate(DayByDay(a)) && IsDate(DayByDay(b))
    ensures a < b ==> Earlier(DayByDay(a), DayByDay(b))
    decreases b
  {
    if b > 0 {
      if a < b {
        DatesAscend(a, b - 1);
      } else {
        DatesAscend(a - 1, b - 1);
      }
    }
  }

  /** Later days have later dates, and every date is a real one. */
  lemma CivilOrder(a: nat, b: nat)
    ensures IsDate(Civil(a))
    ensures a < b <==> Earlier(Civil(a), Civil(b))
  {
    CivilIsTheCalendar(a);
    CivilIsTheCalendar(b);
    hide Civil, DayByDay;
    if a <= b {
      DatesAscend(a, b);
    } else {
      DatesAscend(b, a);
    }
  }

  /** First day of the year 2^32, where the 32-bit year wraps to 0. */
  const YEAR_WRAP_DAY: nat := 1568703873082

  /** First day of the year 10000, where four digits no longer suffice. */
  const YEAR_10000_DAY: nat := 2932897

  lemma YearWrapDay()
    ensures Civil(YEAR_WRAP_DAY) == Date(U32, 1, 1)
  {
    assert YearStart(95) == 34698 && YearStart(96) == 35064;
    CivilAt(YEAR_WRAP_DAY, 10737418, 95, 306);
    hide Civil;
  }

  lemma Year10000Day()
    ensures Civil(YEAR_10000_DAY) == Date(10000, 1, 1)
  {
    assert YearStart(399) == 145731 && YearStart(400) == ERA_DAYS;
    CivilAt(YEAR_10000_DAY, 24, 399, 306);
    hide Civil;
  }

  /** The function returns the calendar date exactly up to the wrap of its 32-bit year. */
  lemma DaysToYmdIsTheCalendar(days: nat)
    ensures DaysToYmd(days) == DayByDay(days) <==> days < YEAR_WRAP_DAY
  {
    CivilIsTheCalendar(days);
    YearWrapDay();
    CivilOrder(days, YEAR_WRAP_DAY);
    CivilOrder(YEAR_WRAP_DAY, days);
    hide Civil, DayByDay;
  }
}
