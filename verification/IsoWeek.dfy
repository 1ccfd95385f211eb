/** ISO 8601 week dates computed from a broken-down Gregorian date. */
module IsoWeek {

  /** Division that truncates toward zero, by counting how often the divisor can be taken away. */
  function DivTrunc(x: int, d: int): int
    requires d > 0
    decreases if x >= 0 then x else -x
  {
    if x >= d then 1 + DivTrunc(x - d, d) else if x <= -d then DivTrunc(x + d, d) - 1 else 0
  }

  function ModTrunc(x: int, d: int): int
    requires d > 0
  {
    x - d * DivTrunc(x, d)
  }

  lemma {:induction false} DivTruncIs(x: int, d: int)
    requires x >= 0 && (d == 4 || d == 7 || d == 100 || d == 400)
    ensures DivTrunc(x, d) == x / d && ModTrunc(x, d) == x % d
    decreases x
  {
    if x >= d { DivTruncIs(x - d, d); }
    if d == 4 {
    } else if d == 7 {
    } else if d == 100 {
    } else {
    }
  }

  /** The day of the week on which a year ends, counted from Sunday. */
  function YearEnd(year: int): int {
    ModTrunc(year + DivTrunc(year, 4) - DivTrunc(year, 100) + DivTrunc(year, 400), 7)
  }

  function IsoYearWeeks(year: int): int {
    52 + if YearEnd(year) == 4 || YearEnd(year - 1) == 3 then 1 else 0
  }

  function IsoWeekNum(yday: int, wday: int): int {
    DivTrunc(yday + 11 - (if wday == 0 then 7 else wday), 7)
  }

  function IsoWeekYear(year: int, yday: int, wday: int): int {
    WeekYear(year, IsoWeekNum(yday, wday), IsoYearWeeks(year))
  }

  function IsoWeekOfYear(year: int, yday: int, wday: int): int {
    WeekOfYear(IsoWeekNum(yday, wday), IsoYearWeeks(year), IsoYearWeeks(year - 1))
  }

  /** Week numbers below 1 belong to the year before, those above the number of weeks to the year after. */
  function WeekYear(year: int, w: int, weeks: int): int {
    if w < 1 then year - 1 else if w > weeks then year + 1 else year
  }

  function WeekOfYear(w: int, weeks: int, weeksBefore: int): int {
    if w < 1 then weeksBefore else if w > weeks then 1 else w
  }

  // The calendar, counted in days since Monday, 1 January of year 1.

  predicate Leap(year: int) {
    year % 4 == 0 && (year % 100 != 0 || year % 400 == 0)
  }

  function YearLength(year: int): int {
    if Leap(year) then 366 else 365
  }

  /** The number of days before a year, by adding up the lengths of the years before it. */
  function DaysBefore(year: int): int
    requires year >= 1
  {
    if year == 1 then 0 else DaysBefore(year - 1) + YearLength(year - 1)
  }

  /** Day n of the calendar has the given date; weekdays are counted from Sunday. */
  ghost predicate DateOf(n: nat, year: int, yday: int, wday: int) {
    year >= 1 && 0 <= yday < YearLength(year) && n == DaysBefore(year) + yday && wday == (n + 1) % 7
  }

  /** The Thursday of the week, from Monday to Sunday, that day n lies in. */
  function Thursday(n: int): int {
    n - n % 7 + 3
  }

  /** The year that day d lies in, searching upwards from a year that does not start after it. */
  function YearOf(d: int, from: int): int
    requires from >= 1 && DaysBefore(from) <= d
    decreases d - DaysBefore(from)
  {
    if d < DaysBefore(from + 1) then from else YearOf(d, from + 1)
  }

  /** The standard's definition: a week belongs to the year of its Thursday, and is numbered within it. */
  function WeekDate(n: int): (int, int)
    requires n >= 0
  {
    var isoYear := YearOf(Thursday(n), 1);
    YearOfSpans(Thursday(n), 1);
    (isoYear, (Thursday(n) - DaysBefore(isoYear)) / 7 + 1)
  }

  lemma {:induction false} YearOfSpans(d: int, from: int)
    requires from >= 1 && DaysBefore(from) <= d
    ensures var y := YearOf(d, from); y >= from && DaysBefore(y) <= d < DaysBefore(y + 1)
    decreases d - DaysBefore(from)
  {
    if d >= DaysBefore(from + 1) { YearOfSpans(d, from + 1); }
  }

  lemma YearOfUnique(d: int, y: int)
    requires y >= 1 && DaysBefore(y) <= d < DaysBefore(y + 1)
    ensures 0 <= d && YearOf(d, 1) == y
  {
    DaysMonotone(1, y);
    YearOfSpans(d, 1);
    var x := YearOf(d, 1);
    if x < y { DaysMonotone(x + 1, y); }
    if y < x { DaysMonotone(y + 1, x); }
  }

  lemma {:induction false} DaysMonotone(y: int, y': int)
    requires 1 <= y <= y'
    ensures DaysBefore(y) <= DaysBefore(y')
    decreases y'
  {
    if y < y' { DaysMonotone(y, y' - 1); }
  }

  lemma {:induction false} DaysBeforeClosed(year: int)
    requires year >= 1
    ensures var k := year - 1; DaysBefore(year) == 365 * k + k / 4 - k / 100 + k / 400
    decreases year
  {
    if year > 1 {
      DaysBeforeClosed(year - 1);
      LeapStep(year - 1);
    }
  }

  lemma LeapStep(y: int)
    requires y >= 1
    ensures var k := y - 1;
            (y / 4 - y / 100 + y / 400) - (k / 4 - k / 100 + k / 400) == if Leap(y) then 1 else 0
  {
    Step(y, 4);
    Step(y, 100);
    Step(y, 400);
    assert y % 400 == 0 ==> y % 100 == 0;
    assert y % 100 == 0 ==> y % 4 == 0;
  }

  lemma Step(y: int, d: int)
    requires y >= 1 && (d == 4 || d == 100 || d == 400)
    ensures y / d - (y - 1) / d == if y % d == 0 then 1 else 0
  {}

  /** The closed formula gives the weekday of the New Year after. */
  lemma YearEndIsNewYear(year: int)
    requires year >= 1
    ensures YearEnd(year - 1) == DaysBefore(year) % 7
  {
    var c := (year - 1) / 4 - (year - 1) / 100 + (year - 1) / 400;
    YearEndClosed(year, c);
    NewYearClosed(year, c);
  }

  lemma NewYearClosed(year: int, c: int)
    requires year >= 1 && c == (year - 1) / 4 - (year - 1) / 100 + (year - 1) / 400
    ensures DaysBefore(year) % 7 == (year - 1 + c) % 7
  {
    DaysBeforeClosed(year);
    ModOf(DaysBefore(year), 52 * (year - 1), year - 1 + c);
  }

  lemma ModOf(x: int, q: int, r: int)
    requires x == 7 * q + r
    ensures x % 7 == r % 7
  {}

  lemma YearEndClosed(year: int, c: int)
    requires year >= 1 && c == (year - 1) / 4 - (year - 1) / 100 + (year - 1) / 400
    ensures YearEnd(year - 1) == (year - 1 + c) % 7
  {
    var k := year - 1;
    DivTruncIs(k, 4);
    DivTruncIs(k, 100);
    DivTruncIs(k, 400);
    DivTruncIs(k + c, 7);
    assert k + DivTrunc(k, 4) - DivTrunc(k, 100) + DivTrunc(k, 400) == k + c;
  }

  lemma Mod7(q: int, r: int)
    ensures (7 * q + r) % 7 == r % 7
  {}

  lemma AddMod7(x: int, y: int)
    ensures (x + y) % 7 == (x % 7 + y) % 7
  {
    assert x + y == 7 * (x / 7) + (x % 7 + y);
    Mod7(x / 7, x % 7 + y);
  }

  /** 53 weeks exactly if the year starts on a Thursday or ends on one; a is its first weekday from Monday. */
  function WeeksFrom(a: int, length: int): int {
    52 + if (a + length) % 7 == 4 || a == 3 then 1 else 0
  }

  lemma YearEndFromStart(year: int)
    requires year >= 1
    ensures YearEnd(year) == (DaysBefore(year) % 7 + YearLength(year)) % 7
  {
    YearEndIsNewYear(year + 1);
    NewYearFollows(year);
  }

  lemma NewYearFollows(year: int)
    requires year >= 1
    ensures DaysBefore(year + 1) % 7 == (DaysBefore(year) % 7 + YearLength(year)) % 7
  {
    var x, l := DaysBefore(year), YearLength(year);
    assert DaysBefore(year + 1) == x + l;
    AddMod7(x, l);
  }

  /** The number of weeks of a year, from its first weekday and length. */
  function WeeksOf(year: int): int
    requires year >= 1
  {
    WeeksFrom(DaysBefore(year) % 7, YearLength(year))
  }

  lemma WeeksInYear(year: int)
    requires year >= 1
    ensures IsoYearWeeks(year) == WeeksOf(year)
  {
    YearEndFromStart(year);
    YearEndIsNewYear(year);
    WeeksFromEnds(year, (DaysBefore(year) % 7 + YearLength(year)) % 7, DaysBefore(year) % 7);
  }

  function NextWeekday(a: int): int {
    if a == 6 then 0 else a + 1
  }

  /** The number of Thursdays in so many days, the first of which is weekday a, counted from Monday as 0. */
  function Thursdays(a: int, days: nat): nat
    decreases days
  {
    if days == 0 then 0 else (if a == 3 then 1 else 0) + Thursdays(NextWeekday(a), days - 1)
  }

  lemma OneEachWeek(a: int, days: nat)
    requires 0 <= a < 7
    ensures Thursdays(a, days + 7) == 1 + Thursdays(a, days)
  {
    var b := NextWeekday(a);
    var c := NextWeekday(b);
    var d := NextWeekday(c);
    var e := NextWeekday(d);
    var f := NextWeekday(e);
    assert Thursdays(a, days + 7) == (if a == 3 then 1 else 0) + Thursdays(b, days + 6);
    assert Thursdays(b, days + 6) == (if b == 3 then 1 else 0) + Thursdays(c, days + 5);
    assert Thursdays(c, days + 5) == (if c == 3 then 1 else 0) + Thursdays(d, days + 4);
    assert Thursdays(d, days + 4) == (if d == 3 then 1 else 0) + Thursdays(e, days + 3);
    assert Thursdays(e, days + 3) == (if e == 3 then 1 else 0) + Thursdays(f, days + 2);
  }

  lemma {:induction false} WholeWeeks(a: int, weeks: nat, days: nat)
    requires 0 <= a < 7
    ensures Thursdays(a, 7 * weeks + days) == weeks + Thursdays(a, days)
  {
    if weeks > 0 {
      WholeWeeks(a, weeks - 1, days);
      OneEachWeek(a, 7 * (weeks - 1) + days);
    }
  }

  lemma ThursdaysFrom(a: int, length: int, k: int)
    requires 0 <= a < 7 && 1 <= k <= 2 && length == 7 * 52 + k
    ensures Thursdays(a, length) == WeeksFrom(a, length)
  {
    WholeWeeks(a, 52, k);
    DaysLeft(a, k);
    LastWeekday(a, k);
  }

  lemma DaysLeft(a: int, k: int)
    requires 0 <= a < 7 && 1 <= k <= 2
    ensures Thursdays(a, k) == if a == 3 || (k == 2 && a == 2) then 1 else 0
  {
    assert Thursdays(a, k) == (if a == 3 then 1 else 0) + Thursdays(NextWeekday(a), k - 1);
  }

  lemma LastWeekday(a: int, k: int)
    requires 0 <= a < 7 && 1 <= k <= 2
    ensures (a + (7 * 52 + k)) % 7 == 4 <==> a + k == 4
  {
    Mod7(52, a + k);
    assert a + (7 * 52 + k) == 7 * 52 + (a + k);
  }

  /** The number of weeks by the formula is the number of the year's Thursdays. */
  lemma WeeksAreThursdays(year: int)
    requires year >= 1
    ensures IsoYearWeeks(year) == Thursdays(DaysBefore(year) % 7, YearLength(year))
  {
    WeeksInYear(year);
    LengthIs(year);
    ThursdaysFrom(DaysBefore(year) % 7, YearLength(year), YearLength(year) - 7 * 52);
  }

  lemma WeeksFromEnds(year: int, end: int, endBefore: int)
    requires YearEnd(year) == end && YearEnd(year - 1) == endBefore
    ensures IsoYearWeeks(year) == 52 + if end == 4 || endBefore == 3 then 1 else 0
  {}

  /** The week number counted from the Thursday's day of the year. */
  function Rank(start: int, yday: int): int {
    (Offset(start, yday) + 7) / 7
  }

  /** The Thursday's day of the year; it may lie in a neighbouring year. */
  function Offset(start: int, yday: int): int {
    yday - (start % 7 + yday) % 7 + 3
  }

  lemma RankIs(start: int, yday: int, wday: int)
    requires 0 <= yday && wday == (start + yday + 1) % 7
    ensures IsoWeekNum(yday, wday) == Rank(start, yday)
  {
    var m := (start % 7 + yday) % 7;
    assert (start + yday) % 7 == m by { AddMod7(start, yday); }
    assert wday == (m + 1) % 7 by { AddMod7(start + yday, 1); }
    DivTruncIs(yday - m + 10, 7);
  }

  lemma OffsetIs(start: int, yday: int)
    ensures Thursday(start + yday) == start + Offset(start, yday)
  {
    AddMod7(start, yday);
  }

  lemma LengthIs(year: int)
    ensures YearLength(year) == 365 || YearLength(year) == 366
  {}

  /** The Thursday lies in the year before. */
  lemma WeekBefore(start': int, l': int, start: int, yday: int)
    requires start == start' + l' && (l' == 365 || l' == 366) && yday >= 0 && Offset(start, yday) < 0
    ensures Rank(start, yday) < 1 && -l' <= Offset(start, yday)
    ensures (Offset(start, yday) + l') / 7 + 1 == WeeksFrom(start' % 7, l')
  {
    AddMod7(start', l');
    EndOfPreviousYear(start' % 7, l', start % 7, yday, (start % 7 + yday) % 7);
  }

  /** The Thursday lies in the year itself or in the year after. */
  lemma WeekWithin(start: int, l: int, yday: int)
    requires (l == 365 || l == 366) && 0 <= yday < l && Offset(start, yday) >= 0
    ensures Rank(start, yday) == Offset(start, yday) / 7 + 1 >= 1
    ensures Rank(start, yday) > WeeksFrom(start % 7, l) <==> Offset(start, yday) >= l
    ensures Offset(start, yday) < l + 7
  {
    EndOfYear(start % 7, l, yday, (start % 7 + yday) % 7);
  }

  lemma EndOfYear(a: int, l: int, yday: int, m: int)
    requires 0 <= a < 7 && (l == 365 || l == 366) && 0 <= yday < l && m == (a + yday) % 7 && yday - m + 3 >= 0
    ensures (yday - m + 3 + 7) / 7 > WeeksFrom(a, l) <==> yday - m + 3 >= l
    ensures yday - m + 3 < l + 7
  {}

  lemma EndOfPreviousYear(b: int, l: int, a: int, yday: int, m: int)
    requires 0 <= b < 7 && (l == 365 || l == 366) && a == (b + l) % 7
    requires 0 <= yday && m == (a + yday) % 7 && yday - m + 3 < 0
    ensures (yday - m + 3 + l) / 7 + 1 == WeeksFrom(b, l) && 0 <= yday - m + 3 + l
  {}

  /** Day t of an ISO year being the Thursday fixes the week date. */
  lemma InYear(isoYear: int, n: int, t: int)
    requires isoYear >= 1 && 0 <= t < YearLength(isoYear) && Thursday(n) == DaysBefore(isoYear) + t
    ensures n >= 0 && WeekDate(n) == (isoYear, t / 7 + 1)
  {
    YearOfUnique(Thursday(n), isoYear);
  }

  lemma FromYearBefore(year: int, start: int, yday: int)
    requires year > 1 && 0 <= yday && start == DaysBefore(year) && Offset(start, yday) < 0
    ensures Rank(start, yday) < 1 && start + yday >= 0 && WeekDate(start + yday) == (year - 1, WeeksOf(year - 1))
  {
    LengthIs(year - 1);
    WeekBefore(DaysBefore(year - 1), YearLength(year - 1), start, yday);
    OffsetIs(start, yday);
    InYear(year - 1, start + yday, Offset(start, yday) + YearLength(year - 1));
  }

  lemma FromSameYear(year: int, start: int, yday: int)
    requires year >= 1 && 0 <= yday < YearLength(year) && start == DaysBefore(year)
    requires 0 <= Offset(start, yday) < YearLength(year)
    ensures 1 <= Rank(start, yday) <= WeeksOf(year)
    ensures start + yday >= 0 && WeekDate(start + yday) == (year, Rank(start, yday))
  {
    LengthIs(year);
    WeekWithin(start, YearLength(year), yday);
    OffsetIs(start, yday);
    InYear(year, start + yday, Offset(start, yday));
  }

  lemma FromYearAfter(year: int, start: int, yday: int)
    requires year >= 1 && 0 <= yday < YearLength(year) && start == DaysBefore(year)
    requires Offset(start, yday) >= YearLength(year)
    ensures Rank(start, yday) > WeeksOf(year) && Rank(start, yday) >= 1
    ensures start + yday >= 0 && WeekDate(start + yday) == (year + 1, 1)
  {
    var l := YearLength(year);
    LengthIs(year);
    WeekWithin(start, l, yday);
    OffsetIs(start, yday);
    NextYear(year, start, l, start + yday, Offset(start, yday) - l);
  }

  lemma NextYear(year: int, start: int, l: int, n: int, t: int)
    requires year >= 1 && start == DaysBefore(year) && l == YearLength(year) && 0 <= t < 7
    requires Thursday(n) == start + l + t
    ensures n >= 0 && WeekDate(n) == (year + 1, 1)
  {
    LengthIs(year + 1);
    assert DaysBefore(year + 1) == start + l;
    InYear(year + 1, n, t);
    assert t / 7 == 0;
  }

  /** The correction of the raw week number, with the numbers of weeks given. */
  lemma Corrected(n: nat, year: int, start: int, yday: int, weeks: int, weeksBefore: int)
    requires year >= 1 && 0 <= yday < YearLength(year) && start == DaysBefore(year) && n == start + yday
    requires weeks == WeeksOf(year) && (year > 1 ==> weeksBefore == WeeksOf(year - 1))
    ensures WeekYear(year, Rank(start, yday), weeks) == WeekDate(n).0
    ensures WeekOfYear(Rank(start, yday), weeks, weeksBefore) == WeekDate(n).1
  {
    if Offset(start, yday) < 0 {
      FirstWeekOfAll(year, start, yday);
      FromYearBefore(year, start, yday);
    } else if Offset(start, yday) < YearLength(year) {
      FromSameYear(year, start, yday);
    } else {
      FromYearAfter(year, start, yday);
    }
  }

  /** Year 1 starts on a Monday, so none of its days belongs to a week of the year before. */
  lemma FirstWeekOfAll(year: int, start: int, yday: int)
    requires year >= 1 && start == DaysBefore(year) && yday >= 0 && Offset(start, yday) < 0
    ensures year > 1
  {}

  /** For every date, the computed year and week are those of the standard. */
  lemma WeekDateCorrect(n: nat, year: int, yday: int, wday: int)
    requires DateOf(n, year, yday, wday)
    ensures IsoWeekYear(year, yday, wday) == WeekDate(n).0
    ensures IsoWeekOfYear(year, yday, wday) == WeekDate(n).1
  {
    RankIs(DaysBefore(year), yday, wday);
    WeekCounts(year);
    Corrected(n, year, DaysBefore(year), yday, IsoYearWeeks(year), IsoYearWeeks(year - 1));
  }

  lemma WeekCounts(year: int)
    requires year >= 1
    ensures IsoYearWeeks(year) == WeeksOf(year) && (year > 1 ==> IsoYearWeeks(year - 1) == WeeksOf(year - 1))
  {
    WeeksInYear(year);
    if year > 1 { WeeksInYear(year - 1); }
  }

  /** The week date is the same from Monday to Sunday. */
  lemma ConstantInWeek(n: nat, n': nat)
    requires Thursday(n) == Thursday(n')
    ensures WeekDate(n) == WeekDate(n')
  {}

  /** A week later it is the next week, or week 1 of the next year after the last of 52 or 53 weeks. */
  lemma NextWeek(n: nat)
    ensures var (y, w) := WeekDate(n);
            y >= 1 && WeekDate(n + 7) == if w < WeeksOf(y) then (y, w + 1) else (y + 1, 1)
  {
    var d := Thursday(n);
    YearOfSpans(d, 1);
    var y := WeekDate(n).0;
    var start, l := DaysBefore(y), YearLength(y);
    LengthIs(y);
    ThursdayAfter(n);
    assert (start + (d - start)) % 7 == 3 by { Mod7(n / 7, 3); }
    AddMod7(start, d - start);
    LastWeek(start % 7, l, d - start);
    if d + 7 < start + l { InYear(y, n + 7, d + 7 - start); } else { NextYear(y, start, l, n + 7, d + 7 - start - l); }
  }

  lemma LastWeek(a: int, l: int, t: int)
    requires (l == 365 || l == 366) && 0 <= t < l && 0 <= a < 7 && (a + t) % 7 == 3
    ensures (t / 7 + 1 < WeeksFrom(a, l) <==> t + 7 < l) && t / 7 + 1 <= WeeksFrom(a, l)
  {}

  /** What the code computes is the same on all days of a week, from Monday to Sunday. */
  lemma SameInWeek(n: nat, year: int, yday: int, wday: int, n': nat, year': int, yday': int, wday': int)
    requires DateOf(n, year, yday, wday) && DateOf(n', year', yday', wday') && Thursday(n) == Thursday(n')
    ensures IsoWeekYear(year, yday, wday) == IsoWeekYear(year', yday', wday')
    ensures IsoWeekOfYear(year, yday, wday) == IsoWeekOfYear(year', yday', wday')
  {
    WeekDateCorrect(n, year, yday, wday);
    WeekDateCorrect(n', year', yday', wday');
    ConstantInWeek(n, n');
  }

  /** A week later it has moved on by one, to week 1 of the next year after the last week of a year. */
  lemma StepsEachWeek(n: nat, year: int, yday: int, wday: int, n': nat, year': int, yday': int, wday': int)
    requires DateOf(n, year, yday, wday) && DateOf(n', year', yday', wday') && n' == n + 7
    ensures var y, w := IsoWeekYear(year, yday, wday), IsoWeekOfYear(year, yday, wday);
            (IsoWeekYear(year', yday', wday'), IsoWeekOfYear(year', yday', wday'))
            == if w < IsoYearWeeks(y) then (y, w + 1) else (y + 1, 1)
  {
    WeekDateCorrect(n, year, yday, wday);
    WeekDateCorrect(n', year', yday', wday');
    StepIs(n, n');
  }

  lemma StepIs(n: nat, n': nat)
    requires n' == n + 7
    ensures var (y, w) := WeekDate(n);
            WeekDate(n') == if w < IsoYearWeeks(y) then (y, w + 1) else (y + 1, 1)
  {
    NextWeek(n);
    WeeksInYear(WeekDate(n).0);
  }

  lemma ThursdayAfter(n: int)
    ensures Thursday(n + 7) == Thursday(n) + 7
  {
    AddMod7(n, 7);
  }
}
