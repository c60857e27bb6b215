/** Proleptic Gregorian day arithmetic as ECMAScript's `Date` performs it
    (section 21.4.1 of ECMA-262: Days in Year, Month from Time, MakeDay),
    with day 0 the first of January 1970. Local time is taken as UTC:
    no time zone and no daylight-saving shift. */
module Calendar {

  /** The day number of the first of January of year `y`. */
  function DayFromYear(y: int): int {
    365 * (y - 1970) + (y - 1969) / 4 - (y - 1901) / 100 + (y - 1601) / 400
  }

  predicate IsLeap(y: int) {
    y % 4 == 0 && (y % 100 != 0 || y % 400 == 0)
  }

  function DaysInYear(y: int): int {
    if IsLeap(y) then 366 else 365
  }

  /** Each year is as long as the leap rule says. */
  lemma DayFromYearStep(y: int)
    ensures DayFromYear(y + 1) == DayFromYear(y) + DaysInYear(y)
  {
    var q4 := LeapTermStep(y, 4, 1969);
    var q100 := LeapTermStep(y, 100, 1901);
    var q400 := LeapTermStep(y, 400, 1601);
    DivisibilityChain(y);
    assert q4 - q100 + q400 == (if IsLeap(y) then 1 else 0);
  }

  /** Multiples of 400 are multiples of 100, which are multiples of 4. */
  lemma DivisibilityChain(y: int)
    ensures y % 400 == 0 ==> y % 100 == 0
    ensures y % 100 == 0 ==> y % 4 == 0
  {
    if y % 400 == 0 {
      MultipleOf(y, y / 400, 4, 100);
    }
    if y % 100 == 0 {
      MultipleOf(y, y / 100, 25, 4);
    }
  }

  /** A multiple of `a * b` is a multiple of `b`. */
  lemma MultipleOf(y: int, k: int, a: int, b: int)
    requires (a == 4 && b == 100) || (a == 25 && b == 4)
    requires y == k * (a * b)
    ensures y % b == 0
  {
    assert y == (k * a) * b;
  }

  /** A leap-rule term of `DayFromYear` grows by one, the returned step,
      exactly when `y` is a multiple of the period. */
  lemma LeapTermStep(y: int, k: int, base: int) returns (step: int)
    requires (k == 4 && base == 1969) || (k == 100 && base == 1901) || (k == 400 && base == 1601)
    ensures step == (if y % k == 0 then 1 else 0)
    ensures (y + 1 - base) / k == (y - base) / k + step
  {
    FloorStep(y - base, k);
    assert (y + 1 - base) % k == 0 <==> y % k == 0;
    step := if y % k == 0 then 1 else 0;
  }

  /** A floor division by one of the leap-rule periods steps up exactly at
      the multiples of the period. */
  lemma FloorStep(a: int, k: int)
    requires k == 4 || k == 100 || k == 400
    ensures (a + 1) / k == a / k + (if (a + 1) % k == 0 then 1 else 0)
  {
    if k == 4 {
      assert (a + 1) / 4 == a / 4 + (if (a + 1) % 4 == 0 then 1 else 0);
    } else if k == 100 {
      assert (a + 1) / 100 == a / 100 + (if (a + 1) % 100 == 0 then 1 else 0);
    } else {
      assert (a + 1) / 400 == a / 400 + (if (a + 1) % 400 == 0 then 1 else 0);
    }
  }

  /** Days in month `m0` (0 = January) of year `y`. */
  function DaysInMonth(y: int, m0: int): (r: int)
    requires 0 <= m0 < 12
    ensures 28 <= r <= 31
  {
    if m0 == 1 then (if IsLeap(y) then 29 else 28)
    else if m0 == 3 || m0 == 5 || m0 == 8 || m0 == 10 then 30
    else 31
  }

  /** Days in the months of `y` before month `m0`. */
  function DaysBeforeMonth(y: int, m0: int): (r: int)
    requires 0 <= m0 <= 12
    ensures 28 * m0 <= r <= 31 * m0
  {
    if m0 == 0 then 0 else DaysBeforeMonth(y, m0 - 1) + DaysInMonth(y, m0 - 1)
  }

  lemma MonthsMakeYear(y: int)
    ensures DaysBeforeMonth(y, 12) == DaysInYear(y)
  {
    assert DaysBeforeMonth(y, 1) == 31;
    assert DaysBeforeMonth(y, 2) == 31 + DaysInMonth(y, 1);
    assert DaysBeforeMonth(y, 3) == 62 + DaysInMonth(y, 1);
    assert DaysBeforeMonth(y, 4) == 92 + DaysInMonth(y, 1);
    assert DaysBeforeMonth(y, 5) == 123 + DaysInMonth(y, 1);
    assert DaysBeforeMonth(y, 6) == 153 + DaysInMonth(y, 1);
    assert DaysBeforeMonth(y, 7) == 184 + DaysInMonth(y, 1);
    assert DaysBeforeMonth(y, 8) == 215 + DaysInMonth(y, 1);
    assert DaysBeforeMonth(y, 9) == 245 + DaysInMonth(y, 1);
    assert DaysBeforeMonth(y, 10) == 276 + DaysInMonth(y, 1);
    assert DaysBeforeMonth(y, 11) == 306 + DaysInMonth(y, 1);
  }

  /** The day number of the first of month `m` of year `y`; months outside
      0..11 carry into the year as MakeDay prescribes. */
  function FirstOfMonth(y: int, m: int): int {
    var ym := y + m / 12;
    var mn := m % 12;
    DayFromYear(ym) + DaysBeforeMonth(ym, mn)
  }

  /** `MakeDay(year, month, date)`. */
  function MakeDay(y: int, m: int, d: int): int {
    FirstOfMonth(y, m) + d - 1
  }

  /** Consecutive months of one year are a month apart. */
  lemma MonthStep(y: int, m0: int)
    requires 0 <= m0 < 11
    ensures FirstOfMonth(y, m0 + 1) == FirstOfMonth(y, m0) + DaysInMonth(y, m0)
  {
  }

  /** January follows December a month later. */
  lemma YearStep(y: int)
    ensures FirstOfMonth(y + 1, 0) == FirstOfMonth(y, 11) + 31
  {
    DayFromYearStep(y);
    MonthsMakeYear(y);
    assert FirstOfMonth(y + 1, 0) == DayFromYear(y + 1);
    assert FirstOfMonth(y, 11) == DayFromYear(y) + DaysBeforeMonth(y, 11);
  }

  /** A month reached by carrying is the month after the carry. */
  lemma FirstOfMonthCarry(y: int, m: int)
    ensures FirstOfMonth(y, m) == FirstOfMonth(y + m / 12, m % 12)
  {
  }

  /** A calendar date with a zero-based month. */
  datatype CivilDate = CivilDate(year: int, month0: int, day: int)

  predicate ValidDate(c: CivilDate) {
    0 <= c.month0 < 12 && 1 <= c.day <= DaysInMonth(c.year, c.month0)
  }

  function DayIndex(c: CivilDate): int {
    FirstOfMonth(c.year, c.month0) + c.day - 1
  }

  function NextMonth(y: int, m0: int): (c: CivilDate)
    requires 0 <= m0 < 12
    ensures 0 <= c.month0 < 12
    ensures FirstOfMonth(c.year, c.month0) == FirstOfMonth(y, m0) + DaysInMonth(y, m0)
  {
    if m0 == 11 then YearStep(y); CivilDate(y + 1, 0, 1)
    else MonthStep(y, m0); CivilDate(y, m0 + 1, 1)
  }

  function PrevMonth(y: int, m0: int): (c: CivilDate)
    requires 0 <= m0 < 12
    ensures 0 <= c.month0 < 12
    ensures FirstOfMonth(y, m0) == FirstOfMonth(c.year, c.month0) + DaysInMonth(c.year, c.month0)
  {
    if m0 == 0 then YearStep(y - 1); CivilDate(y - 1, 11, 1)
    else MonthStep(y, m0 - 1); CivilDate(y, m0 - 1, 1)
  }

  /** The valid date of day `d` of month `m0` of `y`, where `d` may run past
      either end of the month: what `Date` shows after `setDate(d)`. */
  function Normalize(y: int, m0: int, d: int): (c: CivilDate)
    requires 0 <= m0 < 12
    ensures ValidDate(c)
    ensures DayIndex(c) == FirstOfMonth(y, m0) + d - 1
    decreases if d < 1 then 1 else 0, if d < 1 then 1 - d else d
  {
    if d < 1 then
      var p := PrevMonth(y, m0);
      Normalize(p.year, p.month0, d + DaysInMonth(p.year, p.month0))
    else if d > DaysInMonth(y, m0) then
      var n := NextMonth(y, m0);
      Normalize(n.year, n.month0, d - DaysInMonth(y, m0))
    else CivilDate(y, m0, d)
  }

  /** A valid date is its own normal form. */
  lemma NormalizeValid(c: CivilDate)
    requires ValidDate(c)
    ensures Normalize(c.year, c.month0, c.day) == c
  {
  }

  /** Distinct valid dates have distinct day numbers, so `Normalize` is the
      only valid date with its day number. */
  lemma {:induction false} DayIndexInjective(a: CivilDate, b: CivilDate)
    requires ValidDate(a) && ValidDate(b) && DayIndex(a) == DayIndex(b)
    ensures a == b
  {
    if (a.year, a.month0) != (b.year, b.month0) {
      if Before(a.year, a.month0, b.year, b.month0) {
        MonthOrder(a.year, a.month0, b.year, b.month0);
        assert false;
      } else {
        MonthOrder(b.year, b.month0, a.year, a.month0);
        assert false;
      }
    }
  }

  predicate Before(y1: int, m1: int, y2: int, m2: int) {
    y1 < y2 || (y1 == y2 && m1 < m2)
  }

  /** A later month starts after every day of an earlier one. */
  lemma MonthOrder(y1: int, m1: int, y2: int, m2: int)
    requires 0 <= m1 < 12 && 0 <= m2 < 12 && Before(y1, m1, y2, m2)
    ensures FirstOfMonth(y2, m2) >= FirstOfMonth(y1, m1) + DaysInMonth(y1, m1)
    decreases y2 - y1, m2
  {
    var n := NextMonth(y1, m1);
    if n.year != y2 || n.month0 != m2 {
      var p := PrevMonth(y2, m2);
      PrevStillAfter(y1, m1, y2, m2);
      MonthOrder(y1, m1, p.year, p.month0);
    }
  }

  /** A month after the one following `(y1, m1)` is preceded by a month
      that is itself after `(y1, m1)`. */
  lemma PrevStillAfter(y1: int, m1: int, y2: int, m2: int)
    requires 0 <= m1 < 12 && 0 <= m2 < 12 && Before(y1, m1, y2, m2)
    requires NextMonth(y1, m1).year != y2 || NextMonth(y1, m1).month0 != m2
    ensures Before(y1, m1, PrevMonth(y2, m2).year, PrevMonth(y2, m2).month0)
  {
  }
}
