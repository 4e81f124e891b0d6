/**
  Adding an interval to a timestamp with a calendar.  The calendar is a counter of milliseconds, kept as a
  double: setting it and adding to it round, and what months and days amount to is left to it.
*/
module CalendarAdd {

  type int64 = n: int | -0x8000_0000_0000_0000 <= n <= 0x7FFF_FFFF_FFFF_FFFF
  type int32 = n: int | -0x8000_0000 <= n <= 0x7FFF_FFFF

  const INT64_MAX := 0x7FFF_FFFF_FFFF_FFFF
  const INT32_MAX := 0x7FFF_FFFF
  const INT32_MIN := -0x8000_0000

  const MICROS_PER_MSEC := 1000
  const MSECS_PER_SEC := 1000
  const SECS_PER_MINUTE := 60
  const MINS_PER_HOUR := 60
  const MSECS_PER_HOUR := 3_600_000
  const MICROS_PER_DAY := 86_400_000_000

  /** Up to here every integer is a double. */
  const EXACT_DOUBLE := 0x20_0000_0000_0000

  datatype Result<+T> = Ok(value: T) | Failure

  datatype Interval = Interval(months: int32, days: int32, micros: int64)

  /** An interval of microseconds. */
  function Micros(n: int64): Interval {
    Interval(0, 0, n)
  }

  predicate InRange(n: int) {
    -0x8000_0000_0000_0000 <= n <= INT64_MAX
  }

  /** Positive and negative infinity are the two ends of the range. */
  predicate IsFinite(ts: int64) {
    ts != INT64_MAX && ts != -INT64_MAX
  }

  /** Division and remainder that round toward zero. */
  function TruncDiv(a: int, b: int): int
    requires b != 0
  {
    if a >= 0 then a / b else -((-a) / b)
  }

  function TruncMod(a: int, b: int): int
    requires b != 0
  {
    a - TruncDiv(a, b) * b
  }

  // ----- the calendar ----------------------------------------------------------------------------

  /** How a calendar rounds a number of milliseconds, and what adding months and days does to a time. */
  datatype Rules = Rules(round: int -> int, months: (int, int32) -> int, days: (int, int32) -> int) {
    ghost predicate Valid() {
      && (forall n :: -EXACT_DOUBLE <= n <= EXACT_DOUBLE ==> round(n) == n)
      && (forall n :: round(round(n)) == round(n))
      && (forall time :: months(time, 0) == time)
      && (forall time :: days(time, 0) == time)
    }
  }

  datatype Field = Hour | Minute | Second | Millisecond | Month | Date

  function Milliseconds(field: Field): int {
    match field
    case Hour => MSECS_PER_HOUR
    case Minute => 60_000
    case Second => 1000
    case _ => 1
  }

  /** The time after adding to one field. */
  function Moved(rules: Rules, time: int, field: Field, amount: int32): int {
    match field
    case Month => rules.months(time, amount)
    case Date => rules.days(time, amount)
    case _ => rules.round(time + amount * Milliseconds(field))
  }

  /** Adding hours, at most what a 32-bit number holds at a time. */
  function MovedHours(rules: Rules, time: int, hours: int): int
    decreases if hours >= 0 then hours else -hours
  {
    if hours == 0 then time
    else if hours > INT32_MAX then MovedHours(rules, Moved(rules, time, Hour, INT32_MAX), hours - INT32_MAX)
    else if hours < INT32_MIN then MovedHours(rules, Moved(rules, time, Hour, INT32_MIN), hours - INT32_MIN)
    else Moved(rules, time, Hour, hours)
  }

  class Calendar {
    const rules: Rules
    var time: int

    constructor (rules: Rules)
      ensures this.rules == rules
    {
      this.rules := rules;
    }

    method SetTime(millis: int)
      modifies this
      ensures time == rules.round(millis)
    {
      time := rules.round(millis);
    }

    method Add(field: Field, amount: int32)
      modifies this
      ensures time == Moved(rules, old(time), field, amount)
    {
      time := Moved(rules, time, field, amount);
    }
  }

  method CalendarAddHour(calendar: Calendar, intervalHour: int64)
    modifies calendar
    ensures calendar.time == MovedHours(calendar.rules, old(calendar.time), intervalHour)
  {
    var hours: int := intervalHour;
    if hours >= 0 {
      while hours > 0
        invariant MovedHours(calendar.rules, calendar.time, Max(hours, 0)) ==
                  MovedHours(calendar.rules, old(calendar.time), intervalHour)
      {
        calendar.Add(Hour, if hours > INT32_MAX then INT32_MAX else hours);
        hours := hours - INT32_MAX;
      }
    } else {
      while hours < 0
        invariant MovedHours(calendar.rules, calendar.time, -Max(-hours, 0)) ==
                  MovedHours(calendar.rules, old(calendar.time), intervalHour)
      {
        calendar.Add(Hour, if hours < INT32_MIN then INT32_MIN else hours);
        hours := hours - INT32_MIN;
      }
    }
  }

  function Max(a: int, b: int): int {
    if a > b then a else b
  }

  // ----- the range of timestamps -----------------------------------------------------------------

  /** The day of a finite timestamp. */
  function GetDate(micros: int): int {
    var negative := if micros < 0 then 1 else 0;
    TruncDiv(micros + negative, MICROS_PER_DAY) - negative
  }

  /** Whether the midnight before a timestamp is in range; an infinite timestamp has no such midnight. */
  predicate HasDate(micros: int64) {
    IsFinite(micros) && InRange(GetDate(micros) * MICROS_PER_DAY)
  }

  /** The timestamp a number of milliseconds and microseconds makes. */
  function ToTimestamp(millis: int, micros: int): Result<int64> {
    if InRange(millis * MICROS_PER_MSEC) && InRange(millis * MICROS_PER_MSEC + micros)
        && HasDate(millis * MICROS_PER_MSEC + micros)
    then Ok(millis * MICROS_PER_MSEC + micros)
    else Failure
  }

  // ----- adding an interval ----------------------------------------------------------------------

  /** An interval's microseconds as hours, minutes, seconds and milliseconds, all of its sign. */
  datatype Parts = Parts(hours: int64, minutes: int32, seconds: int32, millis: int32)

  function Split(micros: int64): Parts {
    var ms := TruncDiv(micros, MICROS_PER_MSEC);
    var s := TruncDiv(ms, MSECS_PER_SEC);
    var m := TruncDiv(s, SECS_PER_MINUTE);
    Parts(TruncDiv(m, MINS_PER_HOUR), TruncMod(m, MINS_PER_HOUR), TruncMod(s, SECS_PER_MINUTE),
        TruncMod(ms, MSECS_PER_SEC))
  }

  /** The milliseconds and the microseconds that are left over, after the interval's own left-over
      microseconds have been added by hand. */
  function Carry(ts: int64, interval: Interval): (int, int) {
    var millis, micros := TruncDiv(ts, MICROS_PER_MSEC), TruncMod(ts, MICROS_PER_MSEC)
        + TruncMod(interval.micros, MICROS_PER_MSEC);
    if micros >= MICROS_PER_MSEC then (millis + 1, micros - MICROS_PER_MSEC)
    else if micros < 0 then (millis - 1, micros + MICROS_PER_MSEC)
    else (millis, micros)
  }

  function MovedBy(rules: Rules, time: int, interval: Interval): int {
    var parts := Split(interval.micros);
    if interval.months < 0 || interval.days < 0 || interval.micros < 0 then
      var time := Moved(rules, Moved(rules, Moved(rules, time, Millisecond, parts.millis), Second, parts.seconds),
          Minute, parts.minutes);
      Moved(rules, Moved(rules, MovedHours(rules, time, parts.hours), Month, interval.months), Date, interval.days)
    else
      var time := MovedHours(rules, Moved(rules, Moved(rules, time, Month, interval.months), Date, interval.days),
          parts.hours);
      Moved(rules, Moved(rules, Moved(rules, time, Minute, parts.minutes), Second, parts.seconds), Millisecond,
          parts.millis)
  }

  function Sum(rules: Rules, ts: int64, interval: Interval): Result<int64> {
    if !IsFinite(ts) then Ok(ts)
    else
      var (millis, micros) := Carry(ts, interval);
      if !InRange(millis * MICROS_PER_MSEC) || !HasDate(millis * MICROS_PER_MSEC) then Failure
      else ToTimestamp(MovedBy(rules, rules.round(millis), interval), micros)
  }

  method Add(calendar: Calendar, ts: int64, interval: Interval) returns (r: Result<int64>)
    modifies calendar
    ensures r == Sum(calendar.rules, ts, interval)
  {
    hide MovedHours, Moved, TruncMod, TruncDiv, HasDate;
    if !IsFinite(ts) { return Ok(ts); }
    var millis := TruncDiv(ts, MICROS_PER_MSEC);
    var micros := TruncMod(ts, MICROS_PER_MSEC);
    micros := micros + TruncMod(interval.micros, MICROS_PER_MSEC);
    if micros >= MICROS_PER_MSEC {
      micros := micros - MICROS_PER_MSEC;
      millis := millis + 1;
    } else if micros < 0 {
      micros := micros + MICROS_PER_MSEC;
      millis := millis - 1;
    }
    if !InRange(millis * MICROS_PER_MSEC) || !HasDate(millis * MICROS_PER_MSEC) { return Failure; }

    calendar.SetTime(millis);
    var parts := Split(interval.micros);
    if interval.months < 0 || interval.days < 0 || interval.micros < 0 {
      calendar.Add(Millisecond, parts.millis);
      calendar.Add(Second, parts.seconds);
      calendar.Add(Minute, parts.minutes);
      CalendarAddHour(calendar, parts.hours);
      calendar.Add(Month, interval.months);
      calendar.Add(Date, interval.days);
    } else {
      calendar.Add(Month, interval.months);
      calendar.Add(Date, interval.days);
      CalendarAddHour(calendar, parts.hours);
      calendar.Add(Minute, parts.minutes);
      calendar.Add(Second, parts.seconds);
      calendar.Add(Millisecond, parts.millis);
    }
    return ToTimestamp(calendar.time, micros);
  }

  // ----- exactness -------------------------------------------------------------------------------

  predicate IsExact(n: int) {
    -EXACT_DOUBLE <= n <= EXACT_DOUBLE
  }

  /** Timestamps whose milliseconds are doubles, with a millisecond to spare. */
  predicate IsExactTimestamp(ts: int) {
    -EXACT_DOUBLE * MICROS_PER_MSEC + MICROS_PER_MSEC <= ts <= EXACT_DOUBLE * MICROS_PER_MSEC - MICROS_PER_MSEC
  }

  lemma SplitAddsUp(micros: int64)
    ensures var parts := Split(micros);
            && parts.hours * MSECS_PER_HOUR + parts.minutes * 60_000 + parts.seconds * 1000 + parts.millis ==
               TruncDiv(micros, MICROS_PER_MSEC)
            && (micros >= 0 ==> parts.hours >= 0 && parts.minutes >= 0 && parts.seconds >= 0 && parts.millis >= 0)
            && (micros <= 0 ==> parts.hours <= 0 && parts.minutes <= 0 && parts.seconds <= 0 && parts.millis <= 0)
  {
  }

  lemma {:induction false} HoursAreExact(rules: Rules, time: int, hours: int)
    requires rules.Valid() && IsExact(time) && IsExact(time + hours * MSECS_PER_HOUR)
    ensures MovedHours(rules, time, hours) == time + hours * MSECS_PER_HOUR
    decreases if hours >= 0 then hours else -hours
  {
    if hours > INT32_MAX {
      HoursAreExact(rules, time + INT32_MAX * MSECS_PER_HOUR, hours - INT32_MAX);
    } else if hours < INT32_MIN {
      HoursAreExact(rules, time + INT32_MIN * MSECS_PER_HOUR, hours - INT32_MIN);
    }
  }

  /** Adding microseconds moves the calendar by exactly their milliseconds, whatever the sign, as long as
      it starts and ends where doubles are exact. */
  lemma MovedByIsExact(rules: Rules, time: int, micros: int64)
    requires rules.Valid() && IsExact(time) && IsExact(time + TruncDiv(micros, MICROS_PER_MSEC))
    ensures MovedBy(rules, time, Interval(0, 0, micros)) == time + TruncDiv(micros, MICROS_PER_MSEC)
  {
    SplitAddsUp(micros);
    hide TruncDiv, TruncMod, MovedHours, Split;
    var parts := Split(micros);
    if micros < 0 {
      HoursAreExact(rules, time + parts.millis + parts.seconds * 1000 + parts.minutes * 60_000, parts.hours);
    } else {
      HoursAreExact(rules, time, parts.hours);
    }
  }

  lemma CarryAddsUp(ts: int64, interval: Interval)
    ensures var (millis, micros) := Carry(ts, interval);
            && (millis + TruncDiv(interval.micros, MICROS_PER_MSEC)) * MICROS_PER_MSEC + micros == ts + interval.micros
            && -MICROS_PER_MSEC < micros < MICROS_PER_MSEC
            && -1 <= millis - TruncDiv(ts, MICROS_PER_MSEC) <= 1
  {
  }

  lemma ExactIsInRange(millis: int, micros: int)
    requires IsExact(millis) && -MICROS_PER_MSEC < micros < MICROS_PER_MSEC
    ensures InRange(millis * MICROS_PER_MSEC) && HasDate(millis * MICROS_PER_MSEC)
    ensures ToTimestamp(millis, micros) == Ok(millis * MICROS_PER_MSEC + micros)
  {
  }

  /** Adding an interval of microseconds is integer addition, for either sign. */
  lemma AddsExactly(rules: Rules, ts: int64, micros: int64)
    requires rules.Valid() && IsExactTimestamp(ts) && IsExactTimestamp(ts + micros)
    ensures Sum(rules, ts, Interval(0, 0, micros)) == Ok(ts + micros)
  {
    hide MovedBy, Carry, ToTimestamp, HasDate;
    var interval := Interval(0, 0, micros);
    CarryAddsUp(ts, interval);
    var (millis, left) := Carry(ts, interval);
    MovedByIsExact(rules, millis, micros);
    ExactIsInRange(millis, 0);
    ExactIsInRange(millis + TruncDiv(micros, MICROS_PER_MSEC), left);
  }

  /** What a sum is, once the first range check has passed. */
  lemma SumSteps(rules: Rules, ts: int64, interval: Interval, millis: int, micros: int)
    requires IsFinite(ts) && Carry(ts, interval) == (millis, micros)
    requires InRange(millis * MICROS_PER_MSEC) && HasDate(millis * MICROS_PER_MSEC)
    ensures Sum(rules, ts, interval) == ToTimestamp(MovedBy(rules, rules.round(millis), interval), micros)
  {
    hide Carry, HasDate, MovedBy, ToTimestamp;
  }

  // ----- months and days -------------------------------------------------------------------------

  /** The time of day of an interval moves the calendar by exactly its milliseconds, before months and days
      if a field of the interval is negative and after them otherwise. */
  lemma MovedByInOrder(rules: Rules, time: int, interval: Interval)
    requires rules.Valid()
    requires var rest := TruncDiv(interval.micros, MICROS_PER_MSEC);
             if interval.months < 0 || interval.days < 0 || interval.micros < 0
                 then IsExact(time) && IsExact(time + rest)
             else
               var date := rules.days(rules.months(time, interval.months), interval.days);
               IsExact(date) && IsExact(date + rest)
    ensures var rest := TruncDiv(interval.micros, MICROS_PER_MSEC);
            MovedBy(rules, time, interval) ==
            if interval.months < 0 || interval.days < 0 || interval.micros < 0 then
              rules.days(rules.months(time + rest, interval.months), interval.days)
            else rules.days(rules.months(time, interval.months), interval.days) + rest
  {
    SplitAddsUp(interval.micros);
    hide TruncDiv, TruncMod, MovedHours, Split;
    var parts := Split(interval.micros);
    if interval.months < 0 || interval.days < 0 || interval.micros < 0 {
      HoursAreExact(rules, time + parts.millis + parts.seconds * 1000 + parts.minutes * 60_000, parts.hours);
    } else {
      HoursAreExact(rules, rules.days(rules.months(time, interval.months), interval.days), parts.hours);
    }
  }

  /** Adding any interval where doubles are exact: with no negative field the months first, then the days,
      then the time; with a negative field the time first, then the months, then the days. */
  lemma AddsInOrder(rules: Rules, ts: int64, interval: Interval, millis: int, left: int)
    requires rules.Valid() && IsExactTimestamp(ts) && Carry(ts, interval) == (millis, left)
    requires var rest := TruncDiv(interval.micros, MICROS_PER_MSEC);
             if interval.months < 0 || interval.days < 0 || interval.micros < 0 then IsExact(millis + rest)
             else
               var date := rules.days(rules.months(millis, interval.months), interval.days);
               IsExact(date) && IsExact(date + rest)
    ensures millis * MICROS_PER_MSEC + left == ts + TruncMod(interval.micros, MICROS_PER_MSEC)
    ensures var rest := TruncDiv(interval.micros, MICROS_PER_MSEC);
            Sum(rules, ts, interval) ==
            if interval.months >= 0 && interval.days >= 0 && interval.micros >= 0 then
              ToTimestamp(rules.days(rules.months(millis, interval.months), interval.days) + rest, left)
            else ToTimestamp(rules.days(rules.months(millis + rest, interval.months), interval.days), left)
  {
    CarryAddsUp(ts, interval);
    ExactMillis(ts);
    hide MovedBy, Carry, ToTimestamp, HasDate, TruncDiv;
    assert IsExact(millis);
    ExactIsInRange(millis, 0);
    SumSteps(rules, ts, interval, millis, left);
    MovedByInOrder(rules, millis, interval);
  }

  lemma ExactMillis(ts: int64)
    requires IsExactTimestamp(ts)
    ensures IsFinite(ts) && -EXACT_DOUBLE + 1 <= TruncDiv(ts, MICROS_PER_MSEC) <= EXACT_DOUBLE - 1
  {
  }

  /** A calendar without changes of the clock: a day has 24 hours. */
  ghost predicate DaysAreEven(rules: Rules) {
    forall time: int, n: int32 :: rules.days(time, n) == time + n * 86_400_000
  }

  /** There, adding days is integer addition. */
  lemma DaysAddExactly(rules: Rules, ts: int64, days: int32)
    requires rules.Valid() && DaysAreEven(rules)
    requires IsExactTimestamp(ts) && IsExactTimestamp(ts + days * MICROS_PER_DAY)
    ensures Sum(rules, ts, Interval(0, days, 0)) == Ok(ts + days * MICROS_PER_DAY)
  {
    hide Carry, TruncDiv, TruncMod, Sum, ToTimestamp, Rules.Valid, DaysAreEven, IsExactTimestamp;
    var interval := Interval(0, days, 0);
    var (millis, left) := Carry(ts, interval);
    NothingSplit();
    CarryAddsUp(ts, interval);
    EvenDays(rules, ts, days, millis, left);
    AddsInOrder(rules, ts, interval, millis, left);
    var time := millis + days * 86_400_000;
    ExactIsInRange(time, left);
    SameMicros(ts, days, millis, left);
  }

  lemma NothingSplit()
    ensures TruncDiv(0, MICROS_PER_MSEC) == 0 == TruncMod(0, MICROS_PER_MSEC)
  {
  }

  lemma SameMicros(ts: int, days: int, millis: int, left: int)
    requires millis * MICROS_PER_MSEC + left == ts
    ensures (millis + days * 86_400_000) * MICROS_PER_MSEC + left == ts + days * MICROS_PER_DAY
  {
  }

  lemma EvenDays(rules: Rules, ts: int64, days: int32, millis: int, left: int)
    requires rules.Valid() && DaysAreEven(rules) && millis * MICROS_PER_MSEC + left == ts
    requires IsExactTimestamp(ts) && IsExactTimestamp(ts + days * MICROS_PER_DAY)
             && -MICROS_PER_MSEC < left < MICROS_PER_MSEC
    ensures rules.days(rules.months(millis, 0), days) == millis + days * 86_400_000
    ensures IsExact(millis + days * 86_400_000) && IsExact(millis)
  {
    assert (millis + days * 86_400_000) * MICROS_PER_MSEC + left == ts + days * MICROS_PER_DAY;
  }

  // ----- which sums are timestamps ---------------------------------------------------------------

  /** A timestamp has a date exactly if it is finite and not before the first midnight in range, that of the
      day 106751991 days before 1970-01-01. */
  lemma HasDateExactly(micros: int64)
    ensures HasDate(micros) <==> IsFinite(micros) && micros >= -106_751_991 * 86_400_000_000
  {
    DayOf(micros);
  }

  /** The date is the day of the midnight before. */
  lemma DayOf(micros: int)
    ensures GetDate(micros) * MICROS_PER_DAY <= micros < (GetDate(micros) + 1) * MICROS_PER_DAY
  {
  }

  /** Milliseconds and microseconds make a timestamp exactly if their sum is finite, in range and has a date,
      and the milliseconds are in range. */
  lemma ToTimestampExactly(millis: int, micros: int)
    ensures ToTimestamp(millis, micros).Ok? <==>
            && -0x8000_0000_0000_0000 <= millis * 1000 <= 0x7FFF_FFFF_FFFF_FFFF
            && -106_751_991 * 86_400_000_000 <= millis * 1000 + micros < 0x7FFF_FFFF_FFFF_FFFF
    ensures ToTimestamp(millis, micros).Ok? ==> ToTimestamp(millis, micros).value == millis * 1000 + micros
  {
    if InRange(millis * MICROS_PER_MSEC + micros) { HasDateExactly(millis * MICROS_PER_MSEC + micros); }
    hide HasDate;
  }

  /** Whatever the interval, there is no sum where the whole milliseconds of the timestamp, after the carry of
      the microseconds, are out of range or have no date. */
  lemma RefusedAtOnce(rules: Rules, ts: int64, interval: Interval)
    requires IsFinite(ts)
    ensures var from := Carry(ts, interval).0 * 1000;
            !(-106_751_991 * 86_400_000_000 <= from < 0x7FFF_FFFF_FFFF_FFFF) ==> Sum(rules, ts, interval) == Failure
  {
    hide MovedBy, ToTimestamp, Carry, HasDate;
    var from := Carry(ts, interval).0 * 1000;
    if InRange(from) { HasDateExactly(from); }
  }

  /** The infinite timestamps stay where they are. */
  lemma InfinityStays(rules: Rules, interval: Interval)
    ensures Sum(rules, 0x7FFF_FFFF_FFFF_FFFF, interval) == Ok(0x7FFF_FFFF_FFFF_FFFF)
    ensures Sum(rules, -0x7FFF_FFFF_FFFF_FFFF, interval) == Ok(-0x7FFF_FFFF_FFFF_FFFF)
  {
  }
}
