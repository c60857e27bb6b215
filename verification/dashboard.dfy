/** The dashboard's list logic (components/Dashboard.tsx): the expiry gate
    that hides fixtures finished more than four hours ago, the tab
    predicates, and the ticket list. The current time is an input. */
module Dashboard {
  import opened Common
  import opened JsText
  import opened Types
  import opened Calendar

  /** The time value, in milliseconds, of minute `minute` counted from the
      start of day `day`: a day is 1440 minutes of 60000 ms. */
  function Instant(day: int, minute: int): int {
    day * 86400000 + minute * 60000
  }

  /** The local date and time of `new Date()`. */
  datatype Clock = Clock(date: CivilDate, hour: int, minute: int, second: int, ms: int)

  predicate ValidClock(c: Clock) {
    ValidDate(c.date) && 0 <= c.hour < 24 && 0 <= c.minute < 60 && 0 <= c.second < 60 && 0 <= c.ms < 1000
  }

  /** The clock's time value in milliseconds. */
  function NowMs(c: Clock): int {
    Instant(DayIndex(c.date), c.hour * 60 + c.minute) + c.second * 1000 + c.ms
  }

  /** How long after kick-off a fixture stays listed. */
  const BufferMinutes := 240

  // ---------------------------------------------------------------------------
  // Reading the date and the time

  /** The numbers in a date's first three fields (`NaN` where a field is
      missing), and whether the date is year-month-day: split on `/` when it
      has one, on `-` otherwise, and year-month-day when a `-` date has
      three fields and the first is a four-digit year. */
  datatype DateFields = DateFields(first: Num, second: Num, third: Num, iso: bool)

  function DateParts(date: string): seq<string> {
    if '/' in date then Split(date, '/') else Split(date, '-')
  }

  function ReadDate(date: string): DateFields {
    var parts := DateParts(date);
    DateFields(
      ParseNumber(parts[0]),
      if |parts| > 1 then ParseNumber(parts[1]) else NaN,
      if |parts| > 2 then ParseNumber(parts[2]) else NaN,
      '/' !in date && |parts| >= 3 && IsYearField(parts[0]))
  }

  /** A field written as a four-digit year. */
  predicate IsYearField(p: string) {
    |p| == 4 && AllDigits(p)
  }

  /** The minutes after midnight that `setHours(hour || 0, minute || 0)`
      sets: only the first `h` becomes `:`, and a missing or unreadable
      hour or minute counts as 0. */
  function ClockMinutes(time: string): int {
    var parts := Split(ReplaceFirst(time, 'h', ':'), ':');
    var hour := ParseNumber(parts[0]);
    var minute := if |parts| > 1 then ParseNumber(parts[1]) else NaN;
    Trunc(hour.Or(0.0)) * 60 + Trunc(minute.Or(0.0))
  }

  /** A January fixture seen in December, or a December fixture seen in January. */
  predicate YearEnd(month: real, now: Clock) {
    (month == 1.0 && now.date.month0 == 11) || (month == 12.0 && now.date.month0 == 0)
  }

  /** The year-end rule: a January fixture seen in December belongs to next
      year, a December fixture seen in January to last year, any other
      fixture to this year. */
  function ResolvedYear(month: real, now: Clock): (y: int)
    ensures month == 1.0 && now.date.month0 == 11 ==> y == now.date.year + 1
    ensures month == 12.0 && now.date.month0 == 0 ==> y == now.date.year - 1
    ensures !YearEnd(month, now) ==> y == now.date.year
  {
    if month == 1.0 && now.date.month0 == 11 then now.date.year + 1
    else if month == 12.0 && now.date.month0 == 0 then now.date.year - 1
    else now.date.year
  }

  predicate Present(s: Option<string>) {
    s.Some? && s.value != ""
  }

  /** Past the buffer: strictly more than 240 minutes after kick-off. */
  predicate PastBuffer(kickoff: Option<int>, now: Clock) {
    kickoff.Some? && NowMs(now) > kickoff.value + BufferMinutes * 60000
  }

  // ---------------------------------------------------------------------------
  // The gate as written

  /** Now's day of the month exists in month `m` of this year, so
      `setMonth(m)` does not overflow. */
  predicate NoOverflow(now: Clock, m: int) {
    now.date.day <= DaysInMonth(now.date.year + m / 12, m % 12)
  }

  /** A copy of now after `setMonth(m)`: it keeps now's day of the month,
      which overflows into the following month when month `m` is shorter. */
  function SetMonth(now: Clock, m: int): (c: CivilDate)
    requires ValidClock(now)
    ensures ValidDate(c)
    ensures DayIndex(c) == MakeDay(now.date.year, m, now.date.day)
    ensures NoOverflow(now, m) ==> c.day == now.date.day
  {
    FirstOfMonthCarry(now.date.year, m);
    if NoOverflow(now, m) then
      NormalizeValid(CivilDate(now.date.year + m / 12, m % 12, now.date.day));
      Normalize(now.date.year + m / 12, m % 12, now.date.day)
    else
      Normalize(now.date.year + m / 12, m % 12, now.date.day)
  }

  /** A copy of now after `setMonth(m)` then `setDate(d)`. */
  function SetMonthThenDate(now: Clock, m: int, d: int): CivilDate
    requires ValidClock(now)
  {
    var afterMonth := SetMonth(now, m);
    Normalize(afterMonth.year, afterMonth.month0, d)
  }

  /** The date a copy of now shows after `setMonth(m)`, `setDate(d)` and
      `setHours` to minute `t` of the day, which carries whole days. */
  function AfterSetters(now: Clock, m: int, d: int, t: int): CivilDate
    requires ValidClock(now)
  {
    var afterDate := SetMonthThenDate(now, m, d);
    Normalize(afterDate.year, afterDate.month0, afterDate.day + t / 1440)
  }

  /** The instant the setters produce for month `m`, day `d` and minute
      `t`, with the year replaced by `fullYear` when the year-end
      `setFullYear` runs. */
  function InstantAsWritten(now: Clock, m: int, d: int, t: int, fullYear: Option<int>): int
    requires ValidClock(now)
  {
    var c := AfterSetters(now, m, d, t);
    Instant(MakeDay(fullYear.GetOr(c.year), c.month0, c.day), t % 1440)
  }

  /** The kick-off instant as `isMatchExpiredLocal` builds it. `None` when
      the first or second field is 0 or unreadable; the first field is
      always taken as the day. */
  function KickoffAsWritten(f: DateFields, t: int, now: Clock): Option<int>
    requires ValidClock(now)
  {
    if !f.first.Truthy() || !f.second.Truthy() then None
    else
      var fullYear := if YearEnd(f.second.v, now) then Some(ResolvedYear(f.second.v, now)) else None;
      Some(InstantAsWritten(now, Trunc(f.second.v - 1.0), Trunc(f.first.v), t, fullYear))
  }

  /** `isMatchExpiredLocal(date, time)` as written. */
  predicate IsMatchExpiredAsWritten(date: Option<string>, time: Option<string>, now: Clock)
    requires ValidClock(now)
  {
    Present(date) && Present(time) && PastBuffer(KickoffAsWritten(ReadDate(date.value), ClockMinutes(time.value), now), now)
  }

  // ---------------------------------------------------------------------------
  // The gate as intended

  /** The kick-off instant of the fixture's own calendar date and time: for
      a year-month-day date all three come from the text, otherwise day and
      month do and the year follows the year-end rule. */
  function Kickoff(f: DateFields, t: int, now: Clock): (r: Option<int>)
    ensures !f.iso ==> (r.Some? <==> f.first.Truthy() && f.second.Truthy())
    ensures !f.iso && r.Some? ==>
              r.value == Instant(MakeDay(ResolvedYear(f.second.v, now), Trunc(f.second.v - 1.0), Trunc(f.first.v)), t)
    ensures f.iso ==> (r.Some? <==> f.first.Truthy() && f.second.Truthy() && f.third.Truthy())
    ensures f.iso && r.Some? ==>
              r.value == Instant(MakeDay(Trunc(f.first.v), Trunc(f.second.v - 1.0), Trunc(f.third.v)), t)
  {
    var day := if f.iso then f.third else f.first;
    if !day.Truthy() || !f.second.Truthy() || (f.iso && !f.first.Truthy()) then None
    else
      var year := if f.iso then Trunc(f.first.v) else ResolvedYear(f.second.v, now);
      Some(Instant(MakeDay(year, Trunc(f.second.v - 1.0), Trunc(day.v)), t))
  }

  /** The expiry gate: more than four hours have passed since kick-off.
      Fixtures with a missing or unreadable date are always shown. */
  predicate IsMatchExpired(date: Option<string>, time: Option<string>, now: Clock) {
    Present(date) && Present(time) && PastBuffer(Kickoff(ReadDate(date.value), ClockMinutes(time.value), now), now)
  }

  // ---------------------------------------------------------------------------
  // Properties of the gate

  /** Without a date or a time, or with a day or month that reads as 0 or
      not at all, a fixture is never hidden, by either version. */
  lemma UnreadableNeverExpires(date: Option<string>, time: Option<string>, now: Clock)
    requires ValidClock(now)
    requires !Present(date) || !Present(time)
             || (!ReadDate(date.value).iso && (!ReadDate(date.value).first.Truthy() || !ReadDate(date.value).second.Truthy()))
    ensures !IsMatchExpired(date, time, now) && !IsMatchExpiredAsWritten(date, time, now)
  {
  }

  /** A fixture is hidden only strictly after the buffer: at exactly 240
      minutes past kick-off it is still shown, one millisecond later it is not. */
  lemma ExpiryThreshold(date: string, time: string, now: Clock)
    requires date != "" && time != ""
    requires Kickoff(ReadDate(date), ClockMinutes(time), now).Some?
    ensures var k := Kickoff(ReadDate(date), ClockMinutes(time), now).value;
            && (NowMs(now) == k + 240 * 60000 ==> !IsMatchExpired(Some(date), Some(time), now))
            && (NowMs(now) == k + 240 * 60000 + 1 ==> IsMatchExpired(Some(date), Some(time), now))
  {
  }

  /** The fields of a `dd/mm` date written in digits. */
  lemma ReadDigitDate(dd: string, mm: string)
    requires |dd| > 0 && AllDigits(dd) && |mm| > 0 && AllDigits(mm)
    ensures ReadDate(dd + "/" + mm) == DateFields(Fin(IntVal(dd) as real), Fin(IntVal(mm) as real), NaN, false)
  {
    var date := dd + "/" + mm;
    assert date[|dd|] == '/';
    NoCharInDigits(dd, '/');
    NoCharInDigits(mm, '/');
    assert date == dd + ['/'] + mm;
    SplitTwo(dd, mm, '/');
    assert DateParts(date) == [dd, mm];
    ParseDigits(dd);
    ParseDigits(mm);
  }

  /** An `hh:mm` time in digits is `hh` hours and `mm` minutes after midnight. */
  lemma DigitTime(hh: string, mi: string)
    requires |hh| > 0 && AllDigits(hh) && |mi| > 0 && AllDigits(mi)
    ensures ClockMinutes(hh + ":" + mi) == IntVal(hh) * 60 + IntVal(mi)
  {
    var time := hh + ":" + mi;
    NoCharInDigits(hh, 'h');
    NoCharInDigits(mi, 'h');
    NoCharInDigits(hh, ':');
    NoCharInDigits(mi, ':');
    assert 'h' !in time by {
      forall i | 0 <= i < |time|
        ensures time[i] != 'h'
      {
        if i < |hh| {
          assert time[i] == hh[i];
        } else if i > |hh| {
          assert time[i] == mi[i - |hh| - 1];
        }
      }
    }
    assert time == hh + [':'] + mi;
    SplitTwo(hh, mi, ':');
    ParseDigits(hh);
    ParseDigits(mi);
  }

  /** `20h30` reads as `20:30`: the first `h` is turned into a colon. */
  lemma HourMarkAsColon(hh: string, mi: string)
    requires |hh| > 0 && AllDigits(hh) && |mi| > 0 && AllDigits(mi)
    ensures ClockMinutes(hh + "h" + mi) == ClockMinutes(hh + ":" + mi)
  {
    NoCharInDigits(hh, 'h');
    NoCharInDigits(mi, 'h');
    ReplaceFirstAfter(hh, mi, 'h', ':');
    var colon := hh + ":" + mi;
    assert hh + "h" + mi == hh + ['h'] + mi && colon == hh + [':'] + mi;
    assert 'h' !in colon;
    assert ReplaceFirst(colon, 'h', ':') == colon;
  }

  /** A time without minutes is on the hour. */
  lemma HourOnlyOnTheHour(hh: string)
    requires |hh| > 0 && AllDigits(hh)
    ensures ClockMinutes(hh) == IntVal(hh) * 60
  {
    NoCharInDigits(hh, 'h');
    NoCharInDigits(hh, ':');
    SplitUnique(hh, ':', [hh]);
    ParseDigits(hh);
  }

  /** For a `dd/mm` date and an `hh:mm` time in digits, the fixture is
      hidden exactly when now is more than 240 minutes past the civil
      kick-off, in the year the year-end rule picks. */
  lemma ExpiredOfDigits(dd: string, mm: string, hh: string, mi: string, d: int, m: int, h: int, n: int, now: Clock)
    requires |dd| > 0 && AllDigits(dd) && IntVal(dd) == d && d > 0
    requires |mm| > 0 && AllDigits(mm) && IntVal(mm) == m && m > 0
    requires |hh| > 0 && AllDigits(hh) && IntVal(hh) == h && |mi| > 0 && AllDigits(mi) && IntVal(mi) == n
    ensures IsMatchExpired(Some(dd + "/" + mm), Some(hh + ":" + mi), now)
            <==> NowMs(now) > Instant(MakeDay(ResolvedYear(m as real, now), m - 1, d), h * 60 + n + BufferMinutes)
  {
    ReadDigitDate(dd, mm);
    DigitTime(hh, mi);
    ExpiredOfReading(dd + "/" + mm, hh + ":" + mi, d, m, h * 60 + n, now);
  }

  /** A date read as day `d` and month `m`, and a time read as minute `t`. */
  lemma ExpiredOfReading(date: string, time: string, d: int, m: int, t: int, now: Clock)
    requires date != "" && time != "" && d > 0 && m > 0
    requires ReadDate(date) == DateFields(Fin(d as real), Fin(m as real), NaN, false) && ClockMinutes(time) == t
    ensures IsMatchExpired(Some(date), Some(time), now)
            <==> NowMs(now) > Instant(MakeDay(ResolvedYear(m as real, now), m - 1, d), t + BufferMinutes)
  {
    ExpiredOfDayMonth(d, m, t, now);
  }

  /** A `dd/mm` date with positive whole day and month expires exactly when
      now is more than 240 minutes past minute `t` of that day. */
  lemma ExpiredOfDayMonth(d: int, m: int, t: int, now: Clock)
    requires d > 0 && m > 0
    ensures PastBuffer(Kickoff(DateFields(Fin(d as real), Fin(m as real), NaN, false), t, now), now)
            <==> NowMs(now) > Instant(MakeDay(ResolvedYear(m as real, now), m - 1, d), t + BufferMinutes)
  {
    assert Trunc(d as real) == d && Trunc(m as real - 1.0) == m - 1;
  }

  // ---------------------------------------------------------------------------
  // The two versions compared

  /** When now's day of the month exists in the target month, `setMonth`
      then `setDate` lands on day `d` of month `m`. */
  lemma SetMonthThenDateLands(now: Clock, m: int, d: int)
    requires ValidClock(now) && NoOverflow(now, m)
    ensures DayIndex(SetMonthThenDate(now, m, d)) == MakeDay(now.date.year, m, d)
  {
  }

  /** Whole days and the remaining minutes of a span make up the span. */
  lemma InstantCarry(day: int, t: int)
    ensures Instant(day + t / 1440, t % 1440) == Instant(day, t)
  {
    assert t == 1440 * (t / 1440) + t % 1440;
  }

  /** The inputs on which both versions compute the same kick-off: a
      `dd/mm` date for which `setMonth` does not overflow (now's day of the
      month exists in the fixture's month) and, in the year-end case, a day
      within the month and a time within the day. */
  predicate Agreeable(f: DateFields, t: int, now: Clock) {
    && !f.iso
    && (f.first.Truthy() && f.second.Truthy() ==>
          && NoOverflow(now, Trunc(f.second.v - 1.0))
          && (YearEnd(f.second.v, now) ==> 1 <= Trunc(f.first.v) <= 31 && 0 <= t < 1440))
  }

  /** Without overflow, the setters land on minute `t` after the start of
      day `d` of month `m` of this year. */
  lemma SettersLand(now: Clock, m: int, d: int, t: int)
    requires ValidClock(now) && NoOverflow(now, m)
    ensures InstantAsWritten(now, m, d, t, None) == Instant(MakeDay(now.date.year, m, d), t)
  {
    SetMonthThenDateLands(now, m, d);
    InstantCarry(MakeDay(now.date.year, m, d), t);
  }

  /** In the year-end case the setters land on day `d` of month `m`, and
      the correction puts it in year `y`. */
  lemma SettersAtYearEnd(now: Clock, m: int, d: int, t: int, y: int)
    requires ValidClock(now) && (m == 0 || m == 11) && 1 <= d <= 31 && 0 <= t < 1440
    ensures InstantAsWritten(now, m, d, t, Some(y)) == Instant(MakeDay(y, m, d), t)
  {
    YearEndMonthLands(now, m, d);
    NormalizeValid(CivilDate(now.date.year, m, d));
    assert t / 1440 == 0 && t % 1440 == t;
  }

  /** January and December have 31 days, so the setters land on day `d`
      of month `m` of now's year. */
  lemma YearEndMonthLands(now: Clock, m: int, d: int)
    requires ValidClock(now) && (m == 0 || m == 11) && 1 <= d <= 31
    ensures SetMonthThenDate(now, m, d) == CivilDate(now.date.year, m, d)
  {
    assert m / 12 == 0 && m % 12 == m;
    var c := SetMonth(now, m);
    DayIndexInjective(c, CivilDate(now.date.year, m, now.date.day));
    NormalizeValid(CivilDate(now.date.year, m, d));
  }

  /** On agreeable inputs both versions compute the same kick-off. */
  lemma AgreeOnFields(f: DateFields, t: int, now: Clock)
    requires ValidClock(now) && Agreeable(f, t, now)
    ensures KickoffAsWritten(f, t, now) == Kickoff(f, t, now)
  {
    if f.first.Truthy() && f.second.Truthy() {
      var m, d := Trunc(f.second.v - 1.0), Trunc(f.first.v);
      var y := ResolvedYear(f.second.v, now);
      assert Kickoff(f, t, now) == Some(Instant(MakeDay(y, m, d), t));
      if YearEnd(f.second.v, now) {
        assert m == 0 || m == 11;
        assert KickoffAsWritten(f, t, now) == Some(InstantAsWritten(now, m, d, t, Some(y)));
        SettersAtYearEnd(now, m, d, t, y);
      } else {
        SettersWithoutYear(f, t, now, m, d);
        SettersLand(now, m, d, t);
      }
    } else {
      assert KickoffAsWritten(f, t, now) == None;
    }
  }

  /** The gate as written hides the same fixtures as the intended gate
      whenever the date and time are agreeable. */
  lemma AsWrittenAgrees(date: Option<string>, time: Option<string>, now: Clock)
    requires ValidClock(now) && Present(date) && Present(time)
    requires Agreeable(ReadDate(date.value), ClockMinutes(time.value), now)
    ensures IsMatchExpiredAsWritten(date, time, now) == IsMatchExpired(date, time, now)
  {
    AgreeOnFields(ReadDate(date.value), ClockMinutes(time.value), now);
  }

  /** On 29 March of a non-leap year at 01:00, a fixture of 28 February at
      23:00 is moved to 28 March by the month overflow and stays listed,
      though its kick-off was a month earlier. */
  lemma MonthOverflowKeepsStaleFixture(now: Clock, date: string, time: string)
    requires ValidClock(now) && now.date.month0 == 2 && now.date.day == 29 && !IsLeap(now.date.year)
    requires now.hour == 1 && now.minute == 0 && now.second == 0 && now.ms == 0
    requires date == "28/02" && time == "23:00"
    ensures !IsMatchExpiredAsWritten(Some(date), Some(time), now)
    ensures IsMatchExpired(Some(date), Some(time), now)
  {
    ReadOverflowExample(date, time);
    OverflowKickoffs(now, ReadDate(date), ClockMinutes(time));
  }

  lemma ReadOverflowExample(date: string, time: string)
    requires date == "28/02" && time == "23:00"
    ensures ReadDate(date) == DateFields(Fin(28.0), Fin(2.0), NaN, false)
    ensures ClockMinutes(time) == 1380
  {
    assert date == "28" + "/" + "02" && time == "23" + ":" + "00";
    DigitValues("28", 28);
    DigitValues("02", 2);
    DigitValues("23", 23);
    DigitValues("00", 0);
    ReadDigitDate("28", "02");
    DigitTime("23", "00");
  }

  /** The value of a two-digit literal. */
  lemma DigitValues(s: string, n: int)
    requires |s| == 2 && IsDigit(s[0]) && IsDigit(s[1]) && n == DigitVal(s[0]) * 10 + DigitVal(s[1])
    ensures AllDigits(s) && IntVal(s) == n
  {
    assert IntVal(s[..1]) == DigitVal(s[0]) by {
      assert s[..1][..0] == [];
    }
  }

  lemma OverflowKickoffs(now: Clock, f: DateFields, t: int)
    requires ValidClock(now) && now.date.month0 == 2 && now.date.day == 29 && !IsLeap(now.date.year)
    requires now.hour == 1 && now.minute == 0 && now.second == 0 && now.ms == 0
    requires f == DateFields(Fin(28.0), Fin(2.0), NaN, false) && t == 1380
    ensures !PastBuffer(KickoffAsWritten(f, t, now), now) && PastBuffer(Kickoff(f, t, now), now)
  {
    var y := now.date.year;
    assert Trunc(f.first.v) == 28 && Trunc(f.second.v - 1.0) == 1;
    SettersWithoutYear(f, t, now, 1, 28);
    SettersOverflow(now);
    assert Kickoff(f, t, now) == Some(Instant(MakeDay(y, 1, 28), 1380));
    MonthStep(y, 1);
  }

  /** In a non-leap year, `setMonth(1)` on 29 March lands on 1 March, so
      `setDate(28)` gives 28 March. */
  lemma SettersOverflow(now: Clock)
    requires ValidClock(now) && now.date.month0 == 2 && now.date.day == 29 && !IsLeap(now.date.year)
    ensures InstantAsWritten(now, 1, 28, 1380, None) == Instant(MakeDay(now.date.year, 2, 28), 1380)
  {
    var y := now.date.year;
    assert 1 / 12 == 0 && 1 % 12 == 1;
    FebruaryOverflow(y);
    assert SetMonthThenDate(now, 1, 28) == Normalize(y, 2, 28);
    NormalizeValid(CivilDate(y, 2, 28));
    assert 1380 / 1440 == 0 && 1380 % 1440 == 1380;
    assert AfterSetters(now, 1, 28, 1380) == CivilDate(y, 2, 28);
  }

  /** The 29th of February of a non-leap year is the 1st of March. */
  lemma FebruaryOverflow(y: int)
    requires !IsLeap(y)
    ensures Normalize(y, 1, 29) == CivilDate(y, 2, 1)
  {
    assert DaysInMonth(y, 1) == 28;
    NextMonthNormal(y, 1, 29);
    NormalizeValid(CivilDate(y, 2, 1));
  }

  /** A day past the end of its month is the same day counted in the next month. */
  lemma NextMonthNormal(y: int, m0: int, d: int)
    requires 0 <= m0 < 12 && d > DaysInMonth(y, m0)
    ensures Normalize(y, m0, d) == Normalize(NextMonth(y, m0).year, NextMonth(y, m0).month0, d - DaysInMonth(y, m0))
  {
  }

  /** A year-month-day date has its year read as the day of the month, which
      pushes the kick-off years ahead: on 10 April 2025 at noon, a fixture of
      28 March 2025 at 20:00 stays listed. */
  lemma IsoDateReadAsDay(now: Clock, date: string, time: string)
    requires now == Clock(CivilDate(2025, 3, 10), 12, 0, 0, 0) && date == "2025-03-28" && time == "20:00"
    ensures ValidClock(now)
    ensures !IsMatchExpiredAsWritten(Some(date), Some(time), now)
    ensures IsMatchExpired(Some(date), Some(time), now)
  {
    ReadIsoExample(date, time);
    IsoKickoffs(now, ReadDate(date), ClockMinutes(time));
  }

  lemma ReadIsoExample(date: string, time: string)
    requires date == "2025-03-28" && time == "20:00"
    ensures ReadDate(date) == DateFields(Fin(2025.0), Fin(3.0), Fin(28.0), true)
    ensures ClockMinutes(time) == 1200
  {
    assert date == "2025" + "-" + "03" + "-" + "28" && time == "20" + ":" + "00";
    Year2025();
    DigitValues("03", 3);
    DigitValues("28", 28);
    DigitValues("20", 20);
    DigitValues("00", 0);
    ReadIsoDate("2025", "03", "28");
    DigitTime("20", "00");
  }

  lemma Year2025()
    ensures AllDigits("2025") && IntVal("2025") == 2025
  {
    DigitValues("20", 20);
    DigitValues("25", 25);
    assert "2025"[..3] == "202" && "202"[..2] == "20";
    assert IntVal("202") == 202;
  }

  lemma IsoKickoffs(now: Clock, f: DateFields, t: int)
    requires now == Clock(CivilDate(2025, 3, 10), 12, 0, 0, 0)
    requires f == DateFields(Fin(2025.0), Fin(3.0), Fin(28.0), true) && t == 1200
    ensures ValidClock(now)
    ensures !PastBuffer(KickoffAsWritten(f, t, now), now) && PastBuffer(Kickoff(f, t, now), now)
  {
    assert Trunc(f.first.v) == 2025 && Trunc(f.second.v - 1.0) == 2 && Trunc(f.third.v) == 28;
    SettersWithoutYear(f, t, now, 2, 2025);
    TenthOfApril(now);
  }

  /** Away from the year's end, the setters alone place the kick-off. */
  lemma SettersWithoutYear(f: DateFields, t: int, now: Clock, m: int, d: int)
    requires ValidClock(now) && f.first.Truthy() && f.second.Truthy() && !YearEnd(f.second.v, now)
    requires m == Trunc(f.second.v - 1.0) && d == Trunc(f.first.v)
    ensures KickoffAsWritten(f, t, now) == Some(InstantAsWritten(now, m, d, t, None))
  {
  }

  /** At noon on 10 April of any year: day 2025 of March lies years ahead,
      while 28 March at 20:00 is more than four hours past. */
  lemma TenthOfApril(now: Clock)
    requires ValidClock(now) && now.date.month0 == 3 && now.date.day == 10
    requires now.hour == 12 && now.minute == 0 && now.second == 0 && now.ms == 0
    ensures !PastBuffer(Some(InstantAsWritten(now, 2, 2025, 1200, None)), now)
    ensures PastBuffer(Some(Instant(MakeDay(now.date.year, 2, 28), 1200)), now)
  {
    var y := now.date.year;
    assert 2 / 12 == 0 && 2 % 12 == 2;
    var c := SetMonth(now, 2);
    var afterDate := SetMonthThenDate(now, 2, 2025);
    assert DayIndex(afterDate) == FirstOfMonth(y, 2) + 2024;
    assert 1200 / 1440 == 0 && 1200 % 1440 == 1200;
    assert DayIndex(AfterSetters(now, 2, 2025, 1200)) == DayIndex(afterDate);
    MonthStep(y, 2);
    assert DayIndex(now.date) == FirstOfMonth(y, 2) + 40;
  }

  /** The fields of a `yyyy-mm-dd` date written in digits. */
  lemma ReadIsoDate(yy: string, mm: string, dd: string)
    requires |yy| == 4 && AllDigits(yy) && |mm| > 0 && AllDigits(mm) && |dd| > 0 && AllDigits(dd)
    ensures ReadDate(yy + "-" + mm + "-" + dd)
            == DateFields(Fin(IntVal(yy) as real), Fin(IntVal(mm) as real), Fin(IntVal(dd) as real), true)
  {
    var date := yy + "-" + mm + "-" + dd;
    NoSlashInIso(yy, mm, dd);
    SplitIso(yy, mm, dd);
    assert DateParts(date) == [yy, mm, dd];
    ParseDigits(yy);
    ParseDigits(mm);
    ParseDigits(dd);
  }

  /** A `dd-mm-yyyy` date, whose first field is not a four-digit year, is
      read day first, as `dd/mm` is: its kick-off is on day `dd` of month
      `mm`. */
  lemma ReadDayFirstDashed(dd: string, mm: string, yy: string)
    requires |dd| > 0 && |dd| != 4 && AllDigits(dd) && |mm| > 0 && AllDigits(mm) && |yy| > 0 && AllDigits(yy)
    ensures ReadDate(dd + "-" + mm + "-" + yy)
            == DateFields(Fin(IntVal(dd) as real), Fin(IntVal(mm) as real), Fin(IntVal(yy) as real), false)
  {
    var date := dd + "-" + mm + "-" + yy;
    NoSlashInIso(dd, mm, yy);
    SplitIso(dd, mm, yy);
    assert DateParts(date) == [dd, mm, yy];
    ParseDigits(dd);
    ParseDigits(mm);
    ParseDigits(yy);
  }

  lemma NoSlashInIso(yy: string, mm: string, dd: string)
    requires AllDigits(yy) && AllDigits(mm) && AllDigits(dd)
    ensures '/' !in yy + "-" + mm + "-" + dd
  {
    var date := yy + "-" + mm + "-" + dd;
    NoCharInDigits(yy, '/');
    NoCharInDigits(mm, '/');
    NoCharInDigits(dd, '/');
    forall i | 0 <= i < |date|
      ensures date[i] != '/'
    {
      if i < |yy| {
        assert date[i] == yy[i];
      } else if |yy| < i < |yy| + 1 + |mm| {
        assert date[i] == mm[i - |yy| - 1];
      } else if i > |yy| + 1 + |mm| {
        assert date[i] == dd[i - |yy| - |mm| - 2];
      }
    }
  }

  lemma SplitIso(yy: string, mm: string, dd: string)
    requires AllDigits(yy) && AllDigits(mm) && AllDigits(dd)
    ensures Split(yy + "-" + mm + "-" + dd, '-') == [yy, mm, dd]
  {
    NoCharInDigits(yy, '-');
    NoCharInDigits(mm, '-');
    NoCharInDigits(dd, '-');
    var parts := [yy, mm, dd];
    assert Join([mm, dd], "-") == mm + "-" + dd by {
      assert [mm, dd][1..] == [dd];
    }
    assert Join(parts, "-") == yy + "-" + mm + "-" + dd by {
      assert parts[1..] == [mm, dd];
    }
    SplitUnique(yy + "-" + mm + "-" + dd, '-', parts);
  }

  // ---------------------------------------------------------------------------
  // Tabs

  datatype Tab = All | SportTab(sport: SportType) | Trending | Safe | HighOdds | Value

  /** `x || d` for an optional number. */
  function OrNumber(x: Option<real>, d: real): real {
    if x.Some? && x.value != 0.0 then x.value else d
  }

  /** The predicate of each tab; a sport tab other than football or
      basketball lets everything through. */
  predicate ShowOnTab(tab: Tab, m: Match) {
    match tab
    case Trending => m.isTrending == Some(true)
    case Safe => OrNumber(m.quickConfidence, 0.0) > 70.0
    case HighOdds => OrNumber(m.quickOdds, 0.0) >= 2.5
    case Value => OrNumber(m.quickConfidence, 50.0) / 100.0 * OrNumber(m.quickOdds, 0.0) > 1.1
    case SportTab(s) => (s == Football || s == Basketball) ==> m.sport == s
    case All => true
  }

  /** The two expiry gates: the one `filteredMatches` calls, as written,
      and the intended one. */
  datatype Gate = AsWritten | Intended

  predicate Expired(gate: Gate, date: Option<string>, time: Option<string>, now: Clock)
    requires ValidClock(now)
  {
    match gate
    case AsWritten => IsMatchExpiredAsWritten(date, time, now)
    case Intended => IsMatchExpired(date, time, now)
  }

  predicate Fresh(m: Match, now: Clock, gate: Gate)
    requires ValidClock(now)
  {
    !Expired(gate, m.date, Some(m.time), now)
  }

  /** `filteredMatches`: expired fixtures are dropped first, then the tab's
      predicate applies. The program lists with the gate `AsWritten`. */
  function FilteredMatches(ms: seq<Match>, tab: Tab, now: Clock, gate: Gate): seq<Match>
    requires ValidClock(now)
  {
    Keep(Keep(ms, m => Fresh(m, now, gate)), m => ShowOnTab(tab, m))
  }

  /** A fixture is listed exactly when it is in the input, not expired by
      the gate, and passes the tab. */
  lemma FilteredMembership(ms: seq<Match>, tab: Tab, now: Clock, gate: Gate, m: Match)
    requires ValidClock(now)
    ensures m in FilteredMatches(ms, tab, now, gate) <==> m in ms && Fresh(m, now, gate) && ShowOnTab(tab, m)
  {
    var kept := Keep(ms, m => Fresh(m, now, gate));
    var r := FilteredMatches(ms, tab, now, gate);
    if m in r {
      var i :| 0 <= i < |r| && r[i] == m;
      assert m in kept;
      var j :| 0 <= j < |kept| && kept[j] == m;
    }
    if m in ms && Fresh(m, now, gate) && ShowOnTab(tab, m) {
      var i :| 0 <= i < |ms| && ms[i] == m;
      assert m in kept;
      var j :| 0 <= j < |kept| && kept[j] == m;
    }
  }

  /** The "All" tab hides nothing but expired fixtures. */
  lemma AllTabShowsFresh(ms: seq<Match>, now: Clock, gate: Gate)
    requires ValidClock(now)
    ensures FilteredMatches(ms, All, now, gate) == Keep(ms, m => Fresh(m, now, gate))
  {
    var kept := Keep(ms, m => Fresh(m, now, gate));
    KeepAll(kept, m => ShowOnTab(All, m));
  }

  /** Filtering is element by element, so listed fixtures keep their order. */
  lemma FilteredAppend(a: seq<Match>, b: seq<Match>, tab: Tab, now: Clock, gate: Gate)
    requires ValidClock(now)
    ensures FilteredMatches(a + b, tab, now, gate) == FilteredMatches(a, tab, now, gate) + FilteredMatches(b, tab, now, gate)
  {
    KeepAppend(a, b, m => Fresh(m, now, gate));
    KeepAppend(Keep(a, m => Fresh(m, now, gate)), Keep(b, m => Fresh(m, now, gate)), m => ShowOnTab(tab, m));
  }

  /** Every listed fixture's date and time are agreeable, or missing. */
  predicate AllAgreeable(ms: seq<Match>, now: Clock) {
    forall i :: 0 <= i < |ms| ==>
      Present(ms[i].date) && ms[i].time != "" ==> Agreeable(ReadDate(ms[i].date.value), ClockMinutes(ms[i].time), now)
  }

  /** When every fixture is agreeable, the program's listing is the
      intended one. */
  lemma ListingsAgree(ms: seq<Match>, tab: Tab, now: Clock)
    requires ValidClock(now) && AllAgreeable(ms, now)
    ensures FilteredMatches(ms, tab, now, AsWritten) == FilteredMatches(ms, tab, now, Intended)
  {
    forall i | 0 <= i < |ms|
      ensures Fresh(ms[i], now, AsWritten) == Fresh(ms[i], now, Intended)
    {
      if Present(ms[i].date) && ms[i].time != "" {
        AsWrittenAgrees(ms[i].date, Some(ms[i].time), now);
      }
    }
    KeepAgree(ms, m => Fresh(m, now, AsWritten), m => Fresh(m, now, Intended));
  }

  /** The listing on the overflow inputs: the program still shows the
      finished fixture of 28 February at 23:00, the intended gate drops it. */
  lemma StaleFixtureListed(m: Match, now: Clock)
    requires ValidClock(now) && now.date.month0 == 2 && now.date.day == 29 && !IsLeap(now.date.year)
    requires now.hour == 1 && now.minute == 0 && now.second == 0 && now.ms == 0
    requires m.date == Some("28/02") && m.time == "23:00"
    ensures FilteredMatches([m], All, now, AsWritten) == [m]
    ensures FilteredMatches([m], All, now, Intended) == []
  {
    MonthOverflowKeepsStaleFixture(now, "28/02", "23:00");
    AllTabShowsFresh([m], now, AsWritten);
    AllTabShowsFresh([m], now, Intended);
  }

  /** A fixture without a confidence is valued as a coin flip: it is a value
      bet exactly when its odds exceed 2.2. Without odds it is neither safe,
      nor a long shot, nor a value bet. */
  lemma MissingFieldDefaults(m: Match)
    ensures OrNumber(m.quickConfidence, 0.0) == 0.0 ==> (ShowOnTab(Value, m) <==> OrNumber(m.quickOdds, 0.0) > 2.2)
    ensures m.quickConfidence.None? ==> !ShowOnTab(Safe, m)
    ensures m.quickOdds.None? ==> !ShowOnTab(HighOdds, m) && !ShowOnTab(Value, m)
  {
  }

  // ---------------------------------------------------------------------------
  // Ticket

  predicate HasId(items: seq<TicketItem>, id: string) {
    exists i :: 0 <= i < |items| && items[i].id == id
  }

  predicate UniqueIds(items: seq<TicketItem>) {
    forall i, j :: 0 <= i < j < |items| ==> items[i].id != items[j].id
  }

  /** `addToTicket`: appended unless an item with the same id is present. */
  function AddToTicket(items: seq<TicketItem>, item: TicketItem): (r: seq<TicketItem>)
    ensures HasId(items, item.id) ==> r == items
    ensures !HasId(items, item.id) ==> r == items + [item]
  {
    if HasId(items, item.id) then items else items + [item]
  }

  /** `removeFromTicket`. */
  function RemoveFromTicket(items: seq<TicketItem>, id: string): seq<TicketItem> {
    Keep(items, (t: TicketItem) => t.id != id)
  }

  /** Adding keeps the ids distinct and the item's id present. */
  lemma AddKeepsUnique(items: seq<TicketItem>, item: TicketItem)
    requires UniqueIds(items)
    ensures UniqueIds(AddToTicket(items, item)) && HasId(AddToTicket(items, item), item.id)
  {
    var r := AddToTicket(items, item);
    if !HasId(items, item.id) {
      assert r[|items|] == item;
    }
  }

  lemma AddIdempotent(items: seq<TicketItem>, item: TicketItem)
    ensures AddToTicket(AddToTicket(items, item), item) == AddToTicket(items, item)
  {
    if !HasId(items, item.id) {
      assert (items + [item])[|items|] == item;
    }
  }

  /** Removal drops every item with the id and keeps the others, in order. */
  lemma RemoveSpec(items: seq<TicketItem>, id: string, x: TicketItem)
    ensures !HasId(RemoveFromTicket(items, id), id)
    ensures x in RemoveFromTicket(items, id) <==> x in items && x.id != id
  {
  }

  /** Removing a freshly added item restores the ticket. */
  lemma RemoveUndoesAdd(items: seq<TicketItem>, item: TicketItem)
    requires !HasId(items, item.id)
    ensures RemoveFromTicket(AddToTicket(items, item), item.id) == items
  {
    KeepAppend(items, [item], (t: TicketItem) => t.id != item.id);
    KeepAll(items, (t: TicketItem) => t.id != item.id);
    assert Keep([item], (t: TicketItem) => t.id != item.id) == [];
  }

  /** Removal keeps the ids distinct. */
  lemma RemoveKeepsUnique(items: seq<TicketItem>, id: string)
    requires UniqueIds(items)
    ensures UniqueIds(RemoveFromTicket(items, id))
  {
    KeepSublistUnique(items, (t: TicketItem) => t.id != id);
  }

  lemma {:induction false} KeepSublistUnique(items: seq<TicketItem>, f: TicketItem -> bool)
    requires UniqueIds(items)
    ensures UniqueIds(Keep(items, f))
    decreases |items|
  {
    if |items| > 0 {
      UniqueTail(items);
      KeepSublistUnique(items[1..], f);
      if f(items[0]) {
        var rest := Keep(items[1..], f);
        forall k | 0 <= k < |rest|
          ensures items[0].id != rest[k].id
        {
          var j :| 0 <= j < |items[1..]| && items[1..][j] == rest[k];
          assert items[j + 1] == rest[k];
        }
        UniqueCons(items[0], rest);
      }
    }
  }

  /** Dropping the first item keeps the ids distinct. */
  lemma UniqueTail(items: seq<TicketItem>)
    requires |items| > 0 && UniqueIds(items)
    ensures UniqueIds(items[1..])
  {
    forall i, j | 0 <= i < j < |items| - 1
      ensures items[1..][i].id != items[1..][j].id
    {
      assert items[1..][i] == items[i + 1] && items[1..][j] == items[j + 1];
    }
  }

  /** An item whose id is new to a list of distinct ids extends it. */
  lemma UniqueCons(x: TicketItem, rest: seq<TicketItem>)
    requires UniqueIds(rest)
    requires forall k :: 0 <= k < |rest| ==> x.id != rest[k].id
    ensures UniqueIds([x] + rest)
  {
    var r := [x] + rest;
    forall i, j | 0 <= i < j < |r|
      ensures r[i].id != r[j].id
    {
      assert r[j] == rest[j - 1];
      if i > 0 {
        assert r[i] == rest[i - 1];
      }
    }
  }
}
