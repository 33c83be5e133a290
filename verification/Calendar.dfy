/** Day counting and ISO 8601 time stamps to FILETIME ticks (src/graph_convert.cpp). */
module Calendar {
  import opened Bytes

  // ---- Days ----

  /** daysFromCivil, in the source's 32-bit unsigned arithmetic: days since 1970-01-01. */
  function DaysFromCivil(year: int, m: nat, d: nat): int
    requires m < 100 && d < 100
  {
    var y := if m <= 2 then year - 1 else year;
    var era := Era(y);
    var yoe := y - era * 400;
    var doy := Wrap(MonthOffset(m) + d - 1);
    var doe := Wrap(EraDays(yoe) + doy);
    era * 146097 + doe - 719468
  }

  /** Division by 400 that truncates, corrected to round down. */
  function Era(y: int): int {
    if y >= 0 then y / 400 else -((399 - y) / 400)
  }

  function EraDays(yoe: int): int {
    yoe * 365 + yoe / 4 - yoe / 100
  }

  /** Days from the first of March to the first of month `m`, for years that begin in March. */
  function MonthOffset(m: nat): nat {
    (153 * (if m > 2 then m - 3 else m + 9) + 2) / 5
  }

  function Wrap(x: int): UInt32 {
    x % 0x1_0000_0000
  }

  // ---- The Gregorian calendar, by adding up years and months ----

  predicate IsLeap(y: int) {
    y % 4 == 0 && (y % 100 != 0 || y % 400 == 0)
  }

  function YearLength(y: int): nat {
    if IsLeap(y) then 366 else 365
  }

  function MonthLength(y: int, m: nat): nat {
    if m == 2 then (if IsLeap(y) then 29 else 28)
    else if m == 4 || m == 6 || m == 9 || m == 11 then 30
    else 31
  }

  /** Days from the first day of year 0 to the first day of year `y`, negative before year 0. */
  function YearStart(y: int): int
    decreases if y >= 0 then y else -y
  {
    if y == 0 then 0
    else if y > 0 then YearStart(y - 1) + YearLength(y - 1)
    else YearStart(y + 1) - YearLength(y)
  }

  function MonthStart(y: int, m: nat): nat
    requires m >= 1
  {
    if m == 1 then 0 else MonthStart(y, m - 1) + MonthLength(y, m - 1)
  }

  predicate ValidDate(y: int, m: nat, d: nat) {
    1 <= m <= 12 && 1 <= d <= MonthLength(y, m)
  }

  function DayCount(y: int, m: nat, d: nat): int
    requires m >= 1
  {
    YearStart(y) + MonthStart(y, m) + d - 1
  }

  // ---- Both agree on every valid date ----

  /** The days of all years before `y` with their leap days, counted with floors. */
  function YearFormula(y: int): int {
    365 * y + (y + 3) / 4 - (y + 99) / 100 + (y + 399) / 400
  }

  lemma FormulaStep(y: int)
    ensures YearFormula(y + 1) == YearFormula(y) + YearLength(y)
  {
    assert (y + 4) / 4 == (y + 3) / 4 + if y % 4 == 0 then 1 else 0;
    assert (y + 100) / 100 == (y + 99) / 100 + if y % 100 == 0 then 1 else 0;
    assert (y + 400) / 400 == (y + 399) / 400 + if y % 400 == 0 then 1 else 0;
  }

  lemma {:induction false} YearStartFormula(y: int)
    ensures YearStart(y) == YearFormula(y)
    decreases if y >= 0 then y else -y
  {
    hide YearLength;
    if y > 0 {
      YearStartFormula(y - 1);
      FormulaStep(y - 1);
    } else if y < 0 {
      YearStartFormula(y + 1);
      FormulaStep(y);
    }
  }

  /** March to December start at fixed distances after the end of February. */
  lemma MonthStartFormula(y: int, m: nat)
    requires 3 <= m <= 12
    ensures MonthStart(y, m) == YearLength(y) - 306 + MonthOffset(m)
  {
    hide IsLeap;
    assert MonthStart(y, 2) == 31;
    assert MonthStart(y, 3) == 31 + MonthLength(y, 2);
    assert MonthStart(y, 4) == MonthStart(y, 3) + 31;
    assert MonthStart(y, 5) == MonthStart(y, 4) + 30;
    assert MonthStart(y, 6) == MonthStart(y, 5) + 31;
    assert MonthStart(y, 7) == MonthStart(y, 6) + 30;
    assert MonthStart(y, 8) == MonthStart(y, 7) + 31;
    assert MonthStart(y, 9) == MonthStart(y, 8) + 31;
    assert MonthStart(y, 10) == MonthStart(y, 9) + 30;
    assert MonthStart(y, 11) == MonthStart(y, 10) + 31;
    assert MonthStart(y, 12) == MonthStart(y, 11) + 30;
  }

  /** The four-century cycle: the formula for year `y + 1` split at a multiple of 400. */
  lemma FormulaSplit(era: int, yoe: nat)
    requires yoe < 400
    ensures YearFormula(era * 400 + yoe + 1) == era * 146097 + EraDays(yoe) + 366
  {
    var y := era * 400 + yoe;
    assert (y + 4) / 4 == era * 100 + yoe / 4 + 1;
    assert (y + 100) / 100 == era * 4 + yoe / 100 + 1;
    assert (y + 400) / 400 == era + 1;
  }

  lemma EraSplits(y: int)
    ensures 0 <= y - Era(y) * 400 < 400
  {
  }

  /** Nothing wraps unless the month offset and the day add up to zero. */
  lemma NothingWraps(year: int, m: nat, d: nat)
    requires m < 100 && d < 100 && MonthOffset(m) + d >= 1
    ensures var y := if m <= 2 then year - 1 else year;
            DaysFromCivil(year, m, d) == Era(y) * 146097 + EraDays(y - Era(y) * 400) + MonthOffset(m) + d - 1 - 719468
  {
    hide Era;
    var y := if m <= 2 then year - 1 else year;
    EraSplits(y);
    var yoe := y - Era(y) * 400;
    SmallDays(yoe, m);
    assert Wrap(MonthOffset(m) + d - 1) == MonthOffset(m) + d - 1;
    assert Wrap(EraDays(yoe) + MonthOffset(m) + d - 1) == EraDays(yoe) + MonthOffset(m) + d - 1;
  }

  lemma SmallDays(yoe: nat, m: nat)
    requires yoe < 400 && m < 100
    ensures 0 <= EraDays(yoe) < 0x10_0000 && MonthOffset(m) < 0x10_0000
  {
  }

  lemma EarlyMonths(y: int)
    ensures MonthStart(y, 1) == 0 == MonthOffset(1) - 306 && MonthStart(y, 2) == 31 == MonthOffset(2) - 306
  {
  }

  lemma EpochDay()
    ensures DayCount(1970, 1, 1) == 719528
  {
    hide YearStart;
    YearStartFormula(1970);
  }

  /**
   The closed form counts exactly the days that adding year and month lengths counts; a day beyond the end of its
   month counts on into the next.
   */
  lemma DaysAreCounted(y: int, m: nat, d: nat)
    requires 1 <= m <= 12 && 1 <= d < 100
    ensures DaysFromCivil(y, m, d) == DayCount(y, m, d) - DayCount(1970, 1, 1)
  {
    hide YearLength, YearStart, MonthStart, YearFormula, Era, EraDays, MonthOffset, DaysFromCivil;
    var march := if m <= 2 then y - 1 else y;
    var era := Era(march);
    EraSplits(march);
    FormulaSplit(era, march - era * 400);
    YearStartFormula(march + 1);
    YearStartFormula(y);
    FormulaStep(y);
    EpochDay();
    NothingWraps(y, m, d);
    if m <= 2 {
      EarlyMonths(y);
    } else {
      MonthStartFormula(y, m);
    }
  }

  /** Day 0 of a month counts as the day before its first day, except in March of every 400th year, where it wraps. */
  lemma DayZero(y: int, m: nat)
    requires 1 <= m <= 12
    ensures DaysFromCivil(y, m, 0) == DaysFromCivil(y, m, 1) - 1 <==> !(m == 3 && y % 400 == 0)
  {
    hide EraDays, Era;
    NothingWraps(y, m, 1);
    if m == 3 {
      EraSplits(y);
      EraDaysZero(y - Era(y) * 400);
      assert Wrap(-1) == 0xFFFF_FFFF;
      assert y % 400 == y - Era(y) * 400;
    } else {
      NothingWraps(y, m, 0);
    }
  }

  lemma EraDaysZero(yoe: nat)
    requires yoe < 400
    ensures 0 <= EraDays(yoe) < 0x10_0000 && (EraDays(yoe) == 0 <==> yoe == 0)
    ensures Wrap(EraDays(yoe) + 0xFFFF_FFFF) == if yoe == 0 then 0xFFFF_FFFF else EraDays(yoe) - 1
  {
  }

  // ---- Later dates have larger counts ----

  lemma {:induction false} MonthsAscend(y: int, m: nat, n: nat)
    requires 1 <= m < n
    ensures MonthStart(y, m) + MonthLength(y, m) <= MonthStart(y, n)
  {
    hide MonthLength;
    if m + 1 >= n {
    } else {
      MonthsAscend(y, m, n - 1);
    }
  }

  lemma YearIsItsMonths(y: int, m: nat)
    requires 1 <= m <= 12
    ensures MonthStart(y, m) + MonthLength(y, m) <= YearLength(y)
  {
    hide MonthStart;
    MonthStartFormula(y, 12);
    if m < 12 {
      MonthsAscend(y, m, 12);
    }
  }

  lemma {:induction false} YearsAscend(y: int, z: int)
    requires y < z
    ensures YearStart(y) + YearLength(y) <= YearStart(z)
    decreases z - y
  {
    hide YearLength, YearStart, YearFormula;
    YearStartFormula(z - 1);
    YearStartFormula(z);
    FormulaStep(z - 1);
    if y + 1 >= z {
    } else {
      YearsAscend(y, z - 1);
    }
  }

  predicate EarlierDate(y0: int, m0: nat, d0: nat, y1: int, m1: nat, d1: nat) {
    y0 < y1 || (y0 == y1 && (m0 < m1 || (m0 == m1 && d0 < d1)))
  }

  lemma EarlierCountsLess(y0: int, m0: nat, d0: nat, y1: int, m1: nat, d1: nat)
    requires ValidDate(y0, m0, d0) && ValidDate(y1, m1, d1) && EarlierDate(y0, m0, d0, y1, m1, d1)
    ensures DayCount(y0, m0, d0) < DayCount(y1, m1, d1)
  {
    hide YearStart, MonthStart, YearLength, MonthLength;
    if y0 < y1 {
      YearsAscend(y0, y1);
      YearIsItsMonths(y0, m0);
    } else if m0 < m1 {
      MonthsAscend(y0, m0, m1);
    }
  }
}
