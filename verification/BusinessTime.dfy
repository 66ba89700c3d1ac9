/**
 `core/time.py`: working days and the nightly quiet window.

 A date is its proleptic Gregorian ordinal; an instant is microseconds of UTC counted from
 a midnight. Tashkent is UTC+5 all year round.
 */
module BusinessTime {

  // Monday is 0; ordinal 1 is a Monday.
  function Weekday(date: int): int {
    (date + 6) % 7
  }

  predicate IsWorkingDay(date: int) {
    Weekday(date) < 5
  }

  /** Monday to Friday, counted from 1 January 1970, ordinal 719163 and a Thursday. */
  lemma WeekOfTheEpoch(date: int)
    ensures IsWorkingDay(date) <==> (date - 719_163 + 3) % 7 in {0, 1, 2, 3, 4}
  {
  }

  // ---------------------------------------------------------------------------
  // Working days
  // ---------------------------------------------------------------------------

  /** How many working days there are after `start`, up to and including `end`. */
  function Count(start: int, end: int): (n: nat)
    decreases end - start
  {
    if end <= start then 0 else Count(start, end - 1) + if IsWorkingDay(end) then 1 else 0
  }

  /** The least date with that many working days after `start`. */
  ghost predicate IsNth(start: int, days: int, date: int) {
    && start <= date
    && Count(start, date) == (if days > 0 then days else 0)
    && forall d :: start <= d < date ==> Count(start, d) < days
  }

  // Days until the next working day, which the loop runs down between two of them.
  function Ahead(date: int): nat {
    if IsWorkingDay(date + 1) then 0 else 7 - Weekday(date + 1)
  }

  /** `add_working_days`. */
  method AddWorkingDays(start: int, days: int) returns (current: int)
    ensures IsNth(start, days, current)
    ensures days > 0 ==> current == NthWorkingDay(start, days)
  {
    current := start;
    var remaining := days;
    while remaining > 0
      invariant if days > 0 then Counted(start, days, current, remaining) else remaining == days && current == start
      decreases remaining, Ahead(current)
    {
      CountedStep(start, days, current, remaining);
      current := current + 1;
      if Weekday(current) < 5 {
        remaining := remaining - 1;
      }
    }
    if days > 0 { CountedToTheEnd(start, days, current); }
  }

  // The loop so far: `remaining` of the days are still to come, and none of the dates passed
  // had them all.
  ghost predicate Counted(start: int, days: int, current: int, remaining: int) {
    && start <= current && 0 <= remaining && Count(start, current) == days - remaining
    && forall d :: start <= d < current ==> Count(start, d) < days
  }

  lemma CountedStep(start: int, days: int, current: int, remaining: int)
    requires Counted(start, days, current, remaining) && remaining > 0
    ensures Counted(start, days, current + 1, if IsWorkingDay(current + 1) then remaining - 1 else remaining)
    ensures !IsWorkingDay(current + 1) ==> Ahead(current + 1) < Ahead(current)
  {
  }

  lemma CountedToTheEnd(start: int, days: int, current: int)
    requires Counted(start, days, current, 0) && days > 0
    ensures IsNth(start, days, current) && current == NthWorkingDay(start, days)
  {
    NthIsLeast(start, days);
    OneNth(start, days, current, NthWorkingDay(start, days));
  }

  /** The same without a loop: back to Friday from a week-end, whole weeks, then the rest,
      over a week-end if there is one in the way. */
  function NthWorkingDay(start: int, days: nat): int {
    if days == 0 then start
    else
      var late := if Weekday(start) > 4 then Weekday(start) - 4 else 0;
      var rest := days % 5;
      start - late + 7 * (days / 5) + rest + if Weekday(start) - late + rest > 4 then 2 else 0
  }

  lemma {:induction false} CountSplits(start: int, middle: int, end: int)
    requires start <= middle <= end
    ensures Count(start, end) == Count(start, middle) + Count(middle, end)
    decreases end - middle
  {
    if middle < end {
      CountSplits(start, middle, end - 1);
    }
  }

  lemma OneNth(start: int, days: int, a: int, b: int)
    requires IsNth(start, days, a) && IsNth(start, days, b)
    ensures a == b
  {
  }

  /** Days add up. */
  lemma NthOfSum(start: int, a: nat, middle: int, b: nat, end: int)
    requires IsNth(start, a, middle) && IsNth(middle, b, end)
    ensures IsNth(start, a + b, end)
  {
    CountSplits(start, middle, end);
    forall d | start <= d < end ensures Count(start, d) < a + b
    {
      if middle <= d { CountSplits(start, middle, d); }
    }
  }

  // The next working day.
  function Next(date: int): int {
    date + if Weekday(date) == 4 then 3 else if Weekday(date) == 5 then 2 else 1
  }

  lemma CountOneMore(start: int, end: int)
    requires start < end
    ensures Count(start, end) == Count(start, end - 1) + if IsWorkingDay(end) then 1 else 0
  {
  }

  // The days skipped are the week-end.
  lemma NextSkipsWeekEnd(date: int)
    ensures date < Next(date) <= date + 3 && IsWorkingDay(Next(date))
    ensures forall d :: date < d < Next(date) ==> !IsWorkingDay(d)
  {
  }

  lemma NextIsFirst(date: int)
    ensures IsNth(date, 1, Next(date))
  {
    NextSkipsWeekEnd(date);
    CountOneMore(date, Next(date));
    if Next(date) > date + 1 { CountOneMore(date, date + 1); }
    if Next(date) > date + 2 { CountOneMore(date, date + 2); }
    assert Count(date, date) == 0;
    forall d | date <= d < Next(date) ensures Count(date, d) < 1
    {
      assert d == date || d == date + 1 || d == date + 2;
    }
  }

  lemma OneDayMore(days: nat)
    ensures if days % 5 == 4 then (days + 1) / 5 == days / 5 + 1 && (days + 1) % 5 == 0
            else (days + 1) / 5 == days / 5 && (days + 1) % 5 == days % 5 + 1
  {
  }

  lemma WeekdayLater(date: int, weeks: int, days: int)
    ensures Weekday(date + 7 * weeks + days) == (Weekday(date) + days) % 7
  {
  }

  lemma NthIsNext(start: int, days: nat)
    ensures NthWorkingDay(start, days + 1) == Next(NthWorkingDay(start, days))
  {
    OneDayMore(days);
    if days > 0 {
      var late := if Weekday(start) > 4 then Weekday(start) - 4 else 0;
      var rest := days % 5;
      var over := if Weekday(start) - late + rest > 4 then 2 else 0;
      WeekdayLater(start, days / 5, rest - late + over);
      assert NthWorkingDay(start, days) == start + 7 * (days / 5) + (rest - late + over);
    }
  }

  lemma {:induction false} NthIsLeast(start: int, days: nat)
    ensures IsNth(start, days, NthWorkingDay(start, days))
  {
    if days == 0 {
    } else {
      NthIsLeast(start, days - 1);
      NthIsNext(start, days - 1);
      NextIsFirst(NthWorkingDay(start, days - 1));
      NthOfSum(start, days - 1, NthWorkingDay(start, days - 1), 1, NthWorkingDay(start, days));
    }
  }

  /** Adding in two goes is adding at once. */
  lemma AddingInTwoGoes(start: int, a: nat, b: nat)
    ensures NthWorkingDay(NthWorkingDay(start, a), b) == NthWorkingDay(start, a + b)
  {
    var middle := NthWorkingDay(start, a);
    NthIsLeast(start, a);
    NthIsLeast(middle, b);
    NthOfSum(start, a, middle, b, NthWorkingDay(middle, b));
    NthIsLeast(start, a + b);
    OneNth(start, a + b, NthWorkingDay(middle, b), NthWorkingDay(start, a + b));
  }

  /** A later start or more days never give an earlier date; more days give a later one. */
  lemma NthIsMonotone(start: int, later: int, days: nat, more: nat)
    requires start <= later && days <= more
    ensures NthWorkingDay(start, days) <= NthWorkingDay(later, more)
    ensures start == later && days < more ==> NthWorkingDay(start, days) < NthWorkingDay(later, more)
  {
    var end := NthWorkingDay(later, more);
    NthIsLeast(start, days);
    NthIsLeast(later, more);
    if days > 0 {
      CountSplits(start, later, end);
    }
  }

  // ---------------------------------------------------------------------------
  // The quiet window
  // ---------------------------------------------------------------------------

  const HOUR := 3_600_000_000

  const DAY := 24 * HOUR

  const OFFSET := 5 * HOUR

  function LocalHour(now: int): int {
    (now + OFFSET) % DAY / HOUR
  }

  /** `in_quiet_hours`. */
  predicate InQuietHours(startHour: int, endHour: int, now: int) {
    var hour := LocalHour(now);
    if startHour == endHour then false
    else if startHour < endHour then startHour <= hour < endHour
    else hour >= startHour || hour < endHour
  }

  /** `next_quiet_window_end`. */
  function NextQuietWindowEnd(endHour: int, now: int): int
    requires 0 <= endHour < 24
  {
    var local := now + OFFSET;
    var target := local - local % DAY + endHour * HOUR;
    (if target <= local then target + DAY else target) - OFFSET
  }

  /** Quiet are the hours that follow the start, round the clock, before the end: none when the two
      are equal, and across midnight when the end is the smaller. */
  lemma QuietExactly(startHour: int, endHour: int, now: int)
    requires 0 <= startHour < 24 && 0 <= endHour < 24
    ensures var hour := (now / 3_600_000_000 + 5) % 24;
            InQuietHours(startHour, endHour, now) <==> (hour - startHour) % 24 < (endHour - startHour) % 24
  {
    HourOfTashkent(now);
    var hour := LocalHour(now);
    RoundTheClock(hour, startHour);
    RoundTheClock(endHour, startHour);
  }

  lemma HourOfTashkent(now: int)
    ensures LocalHour(now) == (now / 3_600_000_000 + 5) % 24
  {
    var local := now + OFFSET;
    assert local / HOUR == now / HOUR + 5;
    assert local % DAY / HOUR == local / HOUR % 24 by {
      var days := local / DAY;
      assert local == days * DAY + local % DAY && DAY == 24 * HOUR;
      assert local / HOUR == 24 * days + local % DAY / HOUR;
    }
  }

  lemma RoundTheClock(hour: int, start: int)
    requires 0 <= hour < 24 && 0 <= start < 24
    ensures (hour - start) % 24 == if hour >= start then hour - start else hour - start + 24
  {
  }

  // The time of day of an instant no more than a day later.
  lemma TimeOfDayLater(now: int, t: int)
    requires now <= t <= now + DAY
    ensures var (m, n) := ((now + OFFSET) % DAY, (t + OFFSET) % DAY);
            n == m + (t - now) - if m + (t - now) < DAY then 0 else if m + (t - now) < 2 * DAY then DAY else 2 * DAY
  {
  }

  lemma EndIsNext(endHour: int, now: int)
    requires 0 <= endHour < 24
    ensures var end := NextQuietWindowEnd(endHour, now);
            && now < end <= now + DAY && (end + OFFSET) % DAY == endHour * HOUR
            && end - now == endHour * HOUR - (now + OFFSET) % DAY +
                            if endHour * HOUR <= (now + OFFSET) % DAY then DAY else 0
  {
  }

  // Between the instant and the computed end the time of day goes from one to the other,
  // round midnight if need be.
  lemma QuietTill(startHour: int, endHour: int, now: int, t: int)
    requires 0 <= endHour < 24 && InQuietHours(startHour, endHour, now)
    requires now <= t < NextQuietWindowEnd(endHour, now)
    ensures InQuietHours(startHour, endHour, t)
  {
    EndIsNext(endHour, now);
    TimeOfDayLater(now, t);
    var (m, n) := ((now + OFFSET) % DAY, (t + OFFSET) % DAY);
    assert n < endHour * HOUR || (n >= m && endHour * HOUR <= m);
    assert n >= m || (n < endHour * HOUR && endHour * HOUR <= m);
  }

  /** Whatever the shape of the window, it is quiet from a quiet instant up to the computed
      end and not at the end, the first such hour after the instant. */
  lemma WindowEndsThen(startHour: int, endHour: int, now: int)
    requires 0 <= endHour < 24
    ensures var end := NextQuietWindowEnd(endHour, now);
            && now < end <= now + DAY && (end + OFFSET) % DAY == endHour * HOUR
            && !InQuietHours(startHour, endHour, end)
            && (InQuietHours(startHour, endHour, now) ==>
                  forall t :: now <= t < end ==> InQuietHours(startHour, endHour, t))
  {
    EndIsNext(endHour, now);
    var end := NextQuietWindowEnd(endHour, now);
    assert LocalHour(end) == endHour;
    if InQuietHours(startHour, endHour, now) {
      forall t | now <= t < end ensures InQuietHours(startHour, endHour, t) { QuietTill(startHour, endHour, now, t); }
    }
  }
}
