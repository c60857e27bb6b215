/** Match-time helpers of services/geminiService.ts: whether a fixture is live
    now (`isLive`) and the order in which fixtures are listed
    (`sortMatchesByTime`). "Today" (the `dd/mm` text of the current date) and
    "now" (minutes since local midnight) are inputs. */
module MatchTime {
  import opened Common
  import opened JsText
  import opened Types

  /** Length of the live window after kick-off, in minutes. */
  const LiveWindow := 150

  /** `h * 60 + m` where `[h, m] = time.split(':').map(Number)`; a missing
      minute part is `undefined`, which makes the sum NaN. */
  function KickoffMinute(time: string): Num
  {
    var parts := Split(time, ':');
    var h := ParseNumber(parts[0]);
    var m := if |parts| > 1 then ParseNumber(parts[1]) else NaN;
    Add(Scale(h, 60.0), m)
  }

  /** `isLive(dateStr, timeStr)`: dated today and kicked off at most 150
      minutes ago; missing or empty fields are never live. */
  predicate IsLive(date: Option<string>, time: Option<string>, today: string, now: int) {
    && date.Some? && date.value != ""
    && time.Some? && time.value != ""
    && date.value == today
    && AtMost(KickoffMinute(time.value), Fin(now as real))
    && Less(Fin(now as real), Add(KickoffMinute(time.value), Fin(LiveWindow as real)))
  }

  /** For a well-formed `HH:MM` time dated today, live means exactly
      `kickoff <= now < kickoff + 150`, counted in minutes of the same day:
      the window does not wrap past midnight. */
  lemma LiveWindowOfDigits(hh: string, mm: string, today: string, now: int)
    requires |hh| > 0 && AllDigits(hh) && |mm| > 0 && AllDigits(mm)
    requires today != ""
    ensures var kickoff := IntVal(hh) * 60 + IntVal(mm);
            IsLive(Some(today), Some(hh + ":" + mm), today, now) <==> kickoff <= now < kickoff + LiveWindow
  {
    NoCharInDigits(hh, ':');
    NoCharInDigits(mm, ':');
    KickoffOfParts(hh, mm);
    ParseDigits(hh);
    ParseDigits(mm);
    var a, b := IntVal(hh), IntVal(mm);
    var k := KickoffMinute(hh + ":" + mm);
    MinutesOfParts(ParseNumber(hh), ParseNumber(mm), a, b);
    assert k == Fin((a * 60 + b) as real);
    LiveByKickoff(today, hh + ":" + mm, now);
  }

  lemma MinutesOfParts(h: Num, m: Num, a: nat, b: nat)
    requires h == Fin(a as real) && m == Fin(b as real)
    ensures Add(Scale(h, 60.0), m) == Fin((a * 60 + b) as real)
  {
  }

  /** Dated today, a fixture is live exactly when its kick-off minute is a
      number within the window. */
  lemma LiveByKickoff(today: string, time: string, now: int)
    requires today != "" && time != ""
    ensures IsLive(Some(today), Some(time), today, now) <==>
              var k := KickoffMinute(time); k.Fin? && k.v <= now as real < k.v + LiveWindow as real
  {
  }

  /** `HH:MM` reads as `HH * 60 + MM` minutes when neither part holds a colon. */
  lemma KickoffOfParts(hh: string, mm: string)
    requires ':' !in hh && ':' !in mm
    ensures KickoffMinute(hh + ":" + mm) == Add(Scale(ParseNumber(hh), 60.0), ParseNumber(mm))
  {
    assert hh + ":" + mm == hh + [':'] + mm;
    SplitTwo(hh, mm, ':');
  }

  /** A fixture dated any other day, or without a date, is never live. */
  lemma NotTodayNotLive(date: Option<string>, time: Option<string>, today: string, now: int)
    requires date != Some(today)
    ensures !IsLive(date, time, today, now)
  {
  }

  /** A time without a minute part never reads as live. */
  lemma HourOnlyNeverLive(date: Option<string>, hh: string, today: string, now: int)
    requires ':' !in hh
    ensures !IsLive(date, Some(hh), today, now)
  {
    assert Split(hh, ':') == [hh] by {
      SplitUnique(hh, ':', [hh]);
    }
  }

  // ---------------------------------------------------------------------------
  // Ordering

  /** `getAdjustedTime`: the hour before the first ':'; hours before 10 count
      as the next day's (`h + 24`). NaN stays NaN. */
  function AdjustedHour(time: string): (r: Num)
    ensures r.Fin? <==> HourOf(time).Fin?
    ensures HourOf(time).Fin? && HourOf(time).v < 10.0 ==> r == Fin(HourOf(time).v + 24.0)
    ensures HourOf(time).Fin? && HourOf(time).v >= 10.0 ==> r == HourOf(time)
  {
    var h := HourOf(time);
    if h.Fin? && h.v < 10.0 then Fin(h.v + 24.0) else h
  }

  /** The number before the first ':' of a time. */
  function HourOf(time: string): Num {
    ParseNumber(Split(time, ':')[0])
  }

  predicate IsLiveStatus(m: Match) {
    m.status == Some(Live)
  }

  /** The comparator of `sortMatchesByTime`: live fixtures first, then the
      adjusted hour, then the time text. NaN when an hour is not numeric. */
  function Comparator(a: Match, b: Match): Num
  {
    CompareKeys(IsLiveStatus(a), IsLiveStatus(b), AdjustedHour(a.time), AdjustedHour(b.time), StrCompare(a.time, b.time))
  }

  /** The comparator over the sort fields of two fixtures: their live flags,
      their adjusted hours and the comparison of their time texts. */
  function CompareKeys(liveA: bool, liveB: bool, ta: Num, tb: Num, textOrder: int): Num
  {
    if liveA && !liveB then Fin(-1.0)
    else if !liveA && liveB then Fin(1.0)
    else if ta != tb || ta.NaN? then
      (if ta.Fin? && tb.Fin? then Fin(ta.v - tb.v) else NaN)
    else Fin(textOrder as real)
  }

  /** What `Array.prototype.sort` makes of the comparator's value: NaN reads as 0. */
  function Order(a: Match, b: Match): real
  {
    var c := Comparator(a, b);
    if c.NaN? then 0.0 else c.v
  }

  /** Every fixture's hour is numeric. */
  predicate HoursNumeric(ms: seq<Match>) {
    forall i :: 0 <= i < |ms| ==> AdjustedHour(ms[i].time).Fin?
  }

  /** The sort key the comparator implements, as an explicit lexicographic
      order: live rank, then adjusted hour, then the time text. */
  predicate KeyLe(a: Match, b: Match)
    requires AdjustedHour(a.time).Fin? && AdjustedHour(b.time).Fin?
  {
    KeysLe(IsLiveStatus(a), IsLiveStatus(b), AdjustedHour(a.time).v, AdjustedHour(b.time).v, StrCompare(a.time, b.time))
  }

  /** The key order over the sort fields: a live fixture ranks 0, any other 1. */
  predicate KeysLe(liveA: bool, liveB: bool, ha: real, hb: real, textOrder: int) {
    var ra := if liveA then 0 else 1;
    var rb := if liveB then 0 else 1;
    ra < rb || (ra == rb && (ha < hb || (ha == hb && textOrder <= 0)))
  }

  /** With numeric hours the comparator agrees with the key order. */
  lemma OrderIsKeyOrder(a: Match, b: Match)
    requires AdjustedHour(a.time).Fin? && AdjustedHour(b.time).Fin?
    ensures Order(a, b) <= 0.0 <==> KeyLe(a, b)
  {
    CompareKeysOrder(IsLiveStatus(a), IsLiveStatus(b), AdjustedHour(a.time).v, AdjustedHour(b.time).v, StrCompare(a.time, b.time));
  }

  /** On numeric hours the comparator never answers NaN, and answers at
      most 0 exactly in key order. */
  lemma CompareKeysOrder(liveA: bool, liveB: bool, ha: real, hb: real, textOrder: int)
    ensures CompareKeys(liveA, liveB, Fin(ha), Fin(hb), textOrder).Fin?
    ensures CompareKeys(liveA, liveB, Fin(ha), Fin(hb), textOrder).v <= 0.0 <==> KeysLe(liveA, liveB, ha, hb, textOrder)
  {
  }

  lemma KeyLeTotal(a: Match, b: Match)
    requires AdjustedHour(a.time).Fin? && AdjustedHour(b.time).Fin?
    ensures KeyLe(a, b) || KeyLe(b, a)
  {
    StrCompareAntisymmetric(a.time, b.time);
    KeysTotal(IsLiveStatus(a), IsLiveStatus(b), AdjustedHour(a.time).v, AdjustedHour(b.time).v, StrCompare(a.time, b.time));
  }

  /** Swapping two fixtures negates the text comparison, so one of the two
      is first in key order. */
  lemma KeysTotal(liveA: bool, liveB: bool, ha: real, hb: real, textOrder: int)
    ensures KeysLe(liveA, liveB, ha, hb, textOrder) || KeysLe(liveB, liveA, hb, ha, -textOrder)
  {
  }

  lemma KeyLeTransitive(a: Match, b: Match, c: Match)
    requires AdjustedHour(a.time).Fin? && AdjustedHour(b.time).Fin? && AdjustedHour(c.time).Fin?
    requires KeyLe(a, b) && KeyLe(b, c)
    ensures KeyLe(a, c)
  {
    if AdjustedHour(a.time) == AdjustedHour(b.time) == AdjustedHour(c.time)
       && IsLiveStatus(a) == IsLiveStatus(b) == IsLiveStatus(c) {
      StrCompareTransitive(a.time, b.time, c.time);
    }
  }

  /** The night rule: an hour from 0 to 9 counts as the next day's, so of
      two fixtures with the same live status, one kicking off in the small
      hours is listed after one kicking off from 10:00 to 23:59. */
  lemma NightAfterEvening(a: Match, b: Match)
    requires IsLiveStatus(a) == IsLiveStatus(b)
    requires HourOf(a.time).Fin? && HourOf(b.time).Fin?
    requires 0.0 <= HourOf(a.time).v < 10.0 <= HourOf(b.time).v < 24.0
    ensures AdjustedHour(a.time).Fin? && AdjustedHour(b.time).Fin?
    ensures Order(b, a) < 0.0 && Order(a, b) > 0.0
    ensures KeyLe(b, a) && !KeyLe(a, b)
  {
    OrderIsKeyOrder(a, b);
    OrderIsKeyOrder(b, a);
  }

  /** The night rule on `hh:mm` times: `01:00` is listed after `20:00`. */
  lemma NightDigitsAfterEvening(a: Match, b: Match, ha: string, ma: string, hb: string, mb: string)
    requires IsLiveStatus(a) == IsLiveStatus(b)
    requires |ha| > 0 && AllDigits(ha) && AllDigits(ma) && a.time == ha + ":" + ma
    requires |hb| > 0 && AllDigits(hb) && AllDigits(mb) && b.time == hb + ":" + mb
    requires IntVal(ha) < 10 <= IntVal(hb) < 24
    ensures AdjustedHour(a.time).Fin? && AdjustedHour(b.time).Fin?
    ensures KeyLe(b, a) && !KeyLe(a, b)
  {
    HourOfDigits(ha, ma);
    HourOfDigits(hb, mb);
    NightAfterEvening(a, b);
  }

  /** Two fixtures of the same live status and hour, with `hh:mm` times
      whose minutes have the same number of digits, are ordered by their
      minutes: on such texts the code-unit order of the model and the
      collation of `localeCompare` agree. */
  lemma SameHourByMinute(a: Match, b: Match, hh: string, ma: string, mb: string)
    requires IsLiveStatus(a) == IsLiveStatus(b)
    requires |hh| > 0 && AllDigits(hh) && AllDigits(ma) && AllDigits(mb) && |ma| == |mb|
    requires a.time == hh + ":" + ma && b.time == hh + ":" + mb
    ensures AdjustedHour(a.time).Fin? && AdjustedHour(b.time).Fin?
    ensures KeyLe(a, b) <==> IntVal(ma) <= IntVal(mb)
  {
    HourOfDigits(hh, ma);
    HourOfDigits(hh, mb);
    StrComparePrefix(hh + ":", ma, mb);
    assert hh + ":" + ma == (hh + ":") + ma && hh + ":" + mb == (hh + ":") + mb;
    DigitTextOrder(ma, mb);
  }

  /** The hour of an `hh:mm` time in digits is `hh`. */
  lemma HourOfDigits(hh: string, mm: string)
    requires |hh| > 0 && AllDigits(hh) && AllDigits(mm)
    ensures HourOf(hh + ":" + mm) == Fin(IntVal(hh) as real)
  {
    NoCharInDigits(hh, ':');
    NoCharInDigits(mm, ':');
    assert hh + ":" + mm == hh + [':'] + mm;
    SplitTwo(hh, mm, ':');
    ParseDigits(hh);
  }

  predicate SortedByKey(ms: seq<Match>)
    requires HoursNumeric(ms)
  {
    forall i, j :: 0 <= i < j < |ms| ==> KeyLe(ms[i], ms[j])
  }

  /** `a` may stay in front of `b`: the comparator does not put `b` first. */
  predicate LeByTime(a: Match, b: Match) {
    Order(a, b) <= 0.0
  }

  // Insertion sort over any "may precede" relation.

  /** Places `x` in front of the first element it may precede. */
  function InsertBy(x: Match, s: seq<Match>, le: (Match, Match) -> bool): (r: seq<Match>)
    ensures multiset(r) == multiset(s) + multiset{x}
    decreases |s|
  {
    if |s| == 0 then [x]
    else if le(x, s[0]) then [x] + s
    else
      var rest := InsertBy(x, s[1..], le);
      assert s == [s[0]] + s[1..];
      [s[0]] + rest
  }

  function SortBy(ms: seq<Match>, le: (Match, Match) -> bool): (r: seq<Match>)
    ensures multiset(r) == multiset(ms)
    decreases |ms|
  {
    if |ms| == 0 then []
    else
      assert ms == [ms[0]] + ms[1..];
      InsertBy(ms[0], SortBy(ms[1..], le), le)
  }

  /** `sortMatchesByTime`: the fixtures rearranged by the comparator. */
  function SortByTime(ms: seq<Match>): (r: seq<Match>)
    ensures multiset(r) == multiset(ms)
  {
    SortBy(ms, LeByTime)
  }

  predicate SortedBy(s: seq<Match>, le: (Match, Match) -> bool) {
    forall i, j :: 0 <= i < j < |s| ==> le(s[i], s[j])
  }

  /** `le` relates every two elements of `s` one way or the other. */
  predicate TotalOn(s: multiset<Match>, le: (Match, Match) -> bool) {
    forall a, b :: a in s && b in s ==> le(a, b) || le(b, a)
  }

  predicate TransitiveOn(s: multiset<Match>, le: (Match, Match) -> bool) {
    forall a, b, c :: a in s && b in s && c in s && le(a, b) && le(b, c) ==> le(a, c)
  }

  lemma PrependSortedBy(x: Match, s: seq<Match>, le: (Match, Match) -> bool)
    requires SortedBy(s, le) && TransitiveOn(multiset(s) + multiset{x}, le)
    requires |s| == 0 || le(x, s[0])
    ensures SortedBy([x] + s, le)
  {
    var r := [x] + s;
    forall i, j | 0 <= i < j < |r|
      ensures le(r[i], r[j])
    {
      if i == 0 {
        if j > 1 {
          assert s[0] in multiset(s) && s[j - 1] in multiset(s);
          assert le(s[0], s[j - 1]);
        }
      } else {
        assert r[i] == s[i - 1];
        assert r[j] == s[j - 1];
      }
    }
  }

  lemma {:induction false} InsertBySorted(x: Match, s: seq<Match>, le: (Match, Match) -> bool)
    requires SortedBy(s, le)
    requires TotalOn(multiset(s) + multiset{x}, le) && TransitiveOn(multiset(s) + multiset{x}, le)
    ensures SortedBy(InsertBy(x, s, le), le)
    decreases |s|
  {
    if |s| > 0 && !le(x, s[0]) {
      assert s == [s[0]] + s[1..];
      PreorderOnPart(multiset(s[1..]) + multiset{x}, multiset(s) + multiset{x}, le);
      TailSortedBy(s, le);
      InsertBySorted(x, s[1..], le);
      HeadBeforeInsert(x, s, le);
      PrependSortedBy(s[0], InsertBy(x, s[1..], le), le);
    } else if |s| > 0 {
      PrependSortedBy(x, s, le);
    }
  }

  /** A total preorder on a collection is one on any part of it. */
  lemma PreorderOnPart(part: multiset<Match>, whole: multiset<Match>, le: (Match, Match) -> bool)
    requires part <= whole && TotalOn(whole, le) && TransitiveOn(whole, le)
    ensures TotalOn(part, le) && TransitiveOn(part, le)
  {
  }

  lemma TailSortedBy(s: seq<Match>, le: (Match, Match) -> bool)
    requires |s| > 0 && SortedBy(s, le)
    ensures SortedBy(s[1..], le)
  {
    forall i, j | 0 <= i < j < |s| - 1
      ensures le(s[1..][i], s[1..][j])
    {
      assert s[1..][i] == s[i + 1] && s[1..][j] == s[j + 1];
    }
  }

  /** When `x` goes past the head, the head may precede whatever comes
      first in the rest: `x` itself or a later element of `s`. */
  lemma HeadBeforeInsert(x: Match, s: seq<Match>, le: (Match, Match) -> bool)
    requires |s| > 0 && !le(x, s[0]) && SortedBy(s, le) && TotalOn(multiset(s) + multiset{x}, le)
    ensures le(s[0], InsertBy(x, s[1..], le)[0])
  {
    var rest := InsertBy(x, s[1..], le);
    assert s == [s[0]] + s[1..];
    assert s[0] in multiset(s);
    assert rest[0] in multiset(rest);
    if rest[0] != x {
      assert rest[0] in multiset(s[1..]);
      var k :| 0 <= k < |s[1..]| && s[1..][k] == rest[0];
      assert le(s[0], s[k + 1]);
    }
  }

  lemma {:induction false} SortBySorted(ms: seq<Match>, le: (Match, Match) -> bool)
    requires TotalOn(multiset(ms), le) && TransitiveOn(multiset(ms), le)
    ensures SortedBy(SortBy(ms, le), le)
    decreases |ms|
  {
    if |ms| > 0 {
      assert ms == [ms[0]] + ms[1..];
      assert multiset(ms[1..]) <= multiset(ms);
      SortBySorted(ms[1..], le);
      InsertBySorted(ms[0], SortBy(ms[1..], le), le);
    }
  }

  /** With numeric hours the comparator is a total preorder on the fixtures. */
  lemma ByTimeIsPreorder(ms: seq<Match>)
    requires HoursNumeric(ms)
    ensures TotalOn(multiset(ms), LeByTime) && TransitiveOn(multiset(ms), LeByTime)
  {
    forall a, b | a in multiset(ms) && b in multiset(ms)
      ensures LeByTime(a, b) || LeByTime(b, a)
    {
      OrderIsKeyOrder(a, b);
      OrderIsKeyOrder(b, a);
      KeyLeTotal(a, b);
    }
    forall a, b, c | a in multiset(ms) && b in multiset(ms) && c in multiset(ms) && LeByTime(a, b) && LeByTime(b, c)
      ensures LeByTime(a, c)
    {
      OrderIsKeyOrder(a, b);
      OrderIsKeyOrder(b, c);
      OrderIsKeyOrder(a, c);
      KeyLeTransitive(a, b, c);
    }
  }

  /** With numeric hours the listing is ordered by the key: live fixtures
      first, then by adjusted hour, then by time text. */
  lemma SortByTimeSorted(ms: seq<Match>)
    requires HoursNumeric(ms)
    ensures HoursNumeric(SortByTime(ms)) && SortedByKey(SortByTime(ms))
  {
    var r := SortByTime(ms);
    ByTimeIsPreorder(ms);
    SortBySorted(ms, LeByTime);
    forall i | 0 <= i < |r|
      ensures AdjustedHour(r[i].time).Fin?
    {
      assert r[i] in multiset(ms);
    }
    forall i, j | 0 <= i < j < |r|
      ensures KeyLe(r[i], r[j])
    {
      assert LeByTime(r[i], r[j]);
      OrderIsKeyOrder(r[i], r[j]);
    }
  }
}
