/**
  Adding microseconds with a calendar whose time is a double: exactly when the sum is the integer sum.
*/
module CalendarRounding {
  import opened CalendarAdd

  // ----- adding nothing --------------------------------------------------------------------------

  lemma NothingMoved(rules: Rules, time: int, micros: int64)
    requires rules.Valid() && micros == 0
    ensures MovedBy(rules, time, Micros(micros)) == rules.round(time) && TruncDiv(micros, MICROS_PER_MSEC) == 0
  {
    SplitAddsUp(micros);
    hide Split;
    assert Split(micros) == Parts(0, 0, 0, 0);
  }

  /** However the calendar rounds, adding nothing leaves a timestamp where it is exactly if its milliseconds
      are a number the calendar can hold. */
  lemma AddingNothingExactly(rules: Rules, ts: int64, millis: int, micros: int)
    requires rules.Valid() && IsFinite(ts) && Carry(ts, Micros(0)) == (millis, micros)
    requires InRange(millis * MICROS_PER_MSEC) && HasDate(millis * MICROS_PER_MSEC) && ToTimestamp(millis, micros).Ok?
    ensures Sum(rules, ts, Micros(0)) == Ok(ts) <==> rules.round(millis) == millis
  {
    hide Carry, HasDate, MovedBy;
    SumSteps(rules, ts, Micros(0), millis, micros);
    NothingMoved(rules, rules.round(millis), 0);
    CarryAddsUp(ts, Micros(0));
  }

  // ----- doubles ---------------------------------------------------------------------------------

  /** The numbers of up to 54 bits that are doubles. */
  predicate IsDouble(n: int) {
    IsExact(n) || n % 2 == 0
  }

  /** The multiple of four next to an odd number. */
  function Neighbour(n: int): int {
    if (n + 1) % 4 == 0 then n + 1 else n - 1
  }

  /** Rounding to a double, ties to even, for numbers of up to 54 bits. */
  function RoundToEven(n: int): int {
    if IsDouble(n) then n else Neighbour(n)
  }

  /** A calendar that keeps its time as a double. */
  function Doubles(): Rules {
    Rules(RoundToEven, (time, _) => time, (time, _) => time)
  }

  lemma DoublesAreValid()
    ensures Doubles().Valid()
  {
    forall n ensures RoundToEven(RoundToEven(n)) == RoundToEven(n) { RoundedIsDouble(n); }
    hide RoundToEven;
  }

  /** A double moved by a multiple of four, in steps of the same direction: once an odd number leaves the
      exact range it is rounded, and stays a multiple of four. */
  function Path(x: int, d: int): int {
    if x % 2 == 0 || IsExact(x + d) then x + d else Neighbour(x + d)
  }

  /** Adding a multiple of four. */
  lemma FoursKept(x: int, k: int)
    ensures (x + 4 * k) % 4 == x % 4 && (x + 4 * k) % 2 == x % 2
  {
    RemainderIs(x + 4 * k, 4, x / 4 + k, x % 4);
    RemainderIs(x + 4 * k, 2, x / 2 + 2 * k, x % 2);
  }

  lemma RemainderIs(n: int, d: int, q: int, r: int)
    requires (d == 2 || d == 4) && 0 <= r < d && n == d * q + r
    ensures n % d == r
  {
    if d == 2 {
      assert n == 2 * (n / 2) + n % 2;
      TwoUnique(q, r, n / 2, n % 2);
    } else {
      assert n == 4 * (n / 4) + n % 4;
      FourUnique(q, r, n / 4, n % 4);
    }
  }

  lemma TwoUnique(q: int, r: int, p: int, t: int)
    requires 2 * q + r == 2 * p + t && 0 <= r < 2 && 0 <= t < 2
    ensures q == p && r == t
  {
  }

  lemma FourUnique(q: int, r: int, p: int, t: int)
    requires 4 * q + r == 4 * p + t && 0 <= r < 4 && 0 <= t < 4
    ensures q == p && r == t
  {
  }

  lemma NeighbourIsFour(n: int)
    requires n % 2 != 0
    ensures Neighbour(n) % 4 == 0 && Neighbour(n) % 2 == 0
  {
    OddIsOneOrThree(n);
    var q := n / 4;
    if n % 4 == 3 {
      assert n + 1 == 4 * (q + 1);
      Multiple(q + 1);
    } else {
      assert n - 1 == 4 * q;
      Multiple(q);
    }
  }

  lemma Multiple(q: int)
    ensures (4 * q) % 4 == 0 && (2 * q) % 2 == 0 && (4 * q) % 2 == 0
  {
  }

  lemma OddIsOneOrThree(n: int)
    requires n % 2 != 0
    ensures n % 4 == 1 || n % 4 == 3
  {
    FoursKept(n % 4, n / 4);
    assert n == n % 4 + 4 * (n / 4);
  }

  lemma FourIsEven(n: int)
    requires n % 4 == 0
    ensures n % 2 == 0
  {
    assert n == 2 * (2 * (n / 4));
  }

  lemma PathStep(x: int, k: int)
    requires IsDouble(x)
    ensures RoundToEven(x + 4 * k) == Path(x, 4 * k) && IsDouble(Path(x, 4 * k))
  {
    FoursKept(x, k);
    if x % 2 != 0 { NeighbourIsFour(x + 4 * k); }
    hide Neighbour;
  }

  lemma NeighbourMoves(n: int, k: int)
    ensures Neighbour(n + 4 * k) == Neighbour(n) + 4 * k
  {
    FoursKept(n + 1, k);
  }

  lemma PathTogether(x: int, k: int, l: int)
    requires IsDouble(x) && ((k >= 0 && l >= 0) || (k <= 0 && l <= 0))
    ensures Path(Path(x, 4 * k), 4 * l) == Path(x, 4 * k + 4 * l)
  {
    FoursKept(x, k);
    NeighbourMoves(x + 4 * k, l);
    if x % 2 != 0 { NeighbourIsFour(x + 4 * k); }
    hide Neighbour;
  }

  /** A quarter of an hour's milliseconds. */
  const QUARTER_HOUR := 900_000

  lemma {:induction false} HoursAlongPath(x: int, hours: int)
    requires IsDouble(x)
    ensures MovedHours(Doubles(), x, hours) == Path(x, 4 * (QUARTER_HOUR * hours))
    decreases if hours >= 0 then hours else -hours
  {
    if hours > INT32_MAX || hours < INT32_MIN {
      var step := if hours > 0 then INT32_MAX else INT32_MIN;
      PathStep(x, QUARTER_HOUR * step);
      PathTogether(x, QUARTER_HOUR * step, QUARTER_HOUR * (hours - step));
      HoursAlongPath(Path(x, 4 * (QUARTER_HOUR * step)), hours - step);
    } else {
      PathStep(x, QUARTER_HOUR * hours);
    }
    hide Path, RoundToEven, IsDouble;
  }

  // ----- microseconds ----------------------------------------------------------------------------

  /** The milliseconds of an interval below a second, and the rest of its milliseconds. */
  function BelowSecond(micros: int64): int {
    Split(micros).millis
  }

  function WholeSeconds(micros: int64): int {
    TruncDiv(micros, MICROS_PER_MSEC) - BelowSecond(micros)
  }

  /** Hours, minutes and seconds follow the path of a double. */
  lemma MovedAlongPath(x: int, micros: int64)
    requires IsDouble(x)
    ensures MovedBy(Doubles(), x, Micros(micros)) ==
            if micros >= 0 then RoundToEven(Path(x, WholeSeconds(micros)) + BelowSecond(micros))
            else Path(RoundToEven(x + BelowSecond(micros)), WholeSeconds(micros))
  {
    SplitAddsUp(micros);
    hide TruncDiv, TruncMod, MovedHours, Split, Path, IsDouble, RoundToEven;
    var parts := Split(micros);
    assert WholeSeconds(micros) == 4 * Quarters(parts);
    if micros >= 0 {
      UpAlongPath(x, parts);
    } else {
      RoundedIsDouble(x + parts.millis);
      DownAlongPath(RoundToEven(x + parts.millis), parts);
    }
  }

  lemma UpAlongPath(x: int, parts: Parts)
    requires IsDouble(x) && parts.hours >= 0 && parts.minutes >= 0 && parts.seconds >= 0
    ensures Moved(Doubles(), Moved(Doubles(), MovedHours(Doubles(), x, parts.hours), Minute, parts.minutes), Second,
            parts.seconds) ==
            Path(x, 4 * Quarters(parts))
  {
    hide MovedHours, Path, IsDouble, RoundToEven;
    var h, m, s := QUARTER_HOUR * parts.hours, 15_000 * parts.minutes, 250 * parts.seconds;
    HoursAlongPath(x, parts.hours);
    PathStep(x, h);
    PathStep(Path(x, 4 * h), m);
    PathTogether(x, h, m);
    PathStep(Path(x, 4 * h + 4 * m), s);
    PathTogether(x, h + m, s);
  }

  /** A quarter of the milliseconds of the whole seconds. */
  function Quarters(parts: Parts): int {
    QUARTER_HOUR * parts.hours + 15_000 * parts.minutes + 250 * parts.seconds
  }

  lemma DownAlongPath(y: int, parts: Parts)
    requires IsDouble(y) && parts.hours <= 0 && parts.minutes <= 0 && parts.seconds <= 0
    ensures MovedHours(Doubles(), Moved(Doubles(), Moved(Doubles(), y, Second, parts.seconds), Minute, parts.minutes),
            parts.hours) ==
            Path(y, 4 * Quarters(parts))
  {
    hide MovedHours, Path, IsDouble, RoundToEven;
    var h, m, s := QUARTER_HOUR * parts.hours, 15_000 * parts.minutes, 250 * parts.seconds;
    PathStep(y, s);
    PathStep(Path(y, 4 * s), m);
    PathTogether(y, s, m);
    HoursAlongPath(Path(y, 4 * s + 4 * m), parts.hours);
    PathTogether(y, s + m, h);
  }

  lemma RoundedIsDouble(n: int)
    ensures IsDouble(RoundToEven(n)) && RoundToEven(RoundToEven(n)) == RoundToEven(n)
  {
    if !IsDouble(n) { NeighbourIsFour(n); }
    hide Neighbour;
  }

  /** The condition, on the milliseconds of the timestamp and those of the interval: the sum is a double,
      and either no number rounded on the way was not, or the roundings cancel.  Whole seconds are multiples
      of four, so only the number from which the milliseconds below a second are counted matters. */
  predicate AddsUp(millis: int, micros: int64) {
    var below, whole := BelowSecond(micros), WholeSeconds(micros);
    var from := if micros >= 0 then millis + whole else millis;
    && IsDouble(millis + whole + below)
    && if IsDouble(millis) && IsDouble(from) then IsDouble(from + below)
       else (from + below) % 4 == 0 && !IsExact(Neighbour(from) + below)
  }

  lemma WholeSecondsAreFours(micros: int64)
    ensures WholeSeconds(micros) % 4 == 0 && -1000 < BelowSecond(micros) < 1000
    ensures if micros >= 0 then WholeSeconds(micros) >= 0 && BelowSecond(micros) >= 0
            else WholeSeconds(micros) <= 0 && BelowSecond(micros) <= 0
  {
    SplitAddsUp(micros);
    BelowIsSmall(TruncDiv(micros, MICROS_PER_MSEC));
    assert BelowSecond(micros) == TruncMod(TruncDiv(micros, MICROS_PER_MSEC), MSECS_PER_SEC);
    hide Split, TruncDiv, TruncMod;
    assert WholeSeconds(micros) == 4 * Quarters(Split(micros));
    Multiple(Quarters(Split(micros)));
  }

  lemma BelowIsSmall(ms: int)
    ensures -1000 < TruncMod(ms, MSECS_PER_SEC) < 1000
  {
  }

  /** The arithmetic of the condition, counting up. */
  lemma UpExactly(m: int, whole: nat, below: nat)
    requires whole % 4 == 0 && below >= 0
    ensures RoundToEven(Path(RoundToEven(m), whole) + below) == m + whole + below <==>
            Up(m, whole, below)
  {
    RoundedStart(m, whole);
    FoursKept(m, whole / 4);
    if !(IsDouble(m) && IsDouble(m + whole)) {
      LastRounding(m + whole, below);
      FourIsDouble(m + whole + below);
    } else {
      RoundedOnlyDoubles(m + whole + below);
    }
    hide RoundToEven, Path, IsDouble, Neighbour;
  }

  lemma FourIsDouble(n: int)
    ensures n % 4 == 0 ==> IsDouble(n)
  {
    if n % 4 == 0 { FourIsEven(n); }
  }

  lemma RoundedOnlyDoubles(n: int)
    ensures RoundToEven(n) == n <==> IsDouble(n)
  {
  }

  predicate Up(m: int, whole: int, below: int) {
    && IsDouble(m + whole + below)
    && if IsDouble(m) && IsDouble(m + whole) then true
       else (m + whole + below) % 4 == 0 && !IsExact(Neighbour(m + whole) + below)
  }

  predicate Down(m: int, whole: int, below: int) {
    && IsDouble(m + whole + below)
    && if IsDouble(m) then IsDouble(m + below) else (m + below) % 4 == 0 && !IsExact(Neighbour(m) + below)
  }

  /** A rounded start and whole seconds. */
  lemma RoundedStart(m: int, whole: int)
    requires whole % 4 == 0
    ensures Path(RoundToEven(m), whole) == if IsDouble(m) && IsDouble(m + whole) then m + whole
            else Neighbour(m + whole)
  {
    FoursKept(m, whole / 4);
    NeighbourMoves(m, whole / 4);
    if m % 2 != 0 { NeighbourIsFour(m); }
    hide Neighbour;
  }

  /** Rounding once more after a rounding cancels it exactly if the sum is a multiple of four. */
  lemma LastRounding(p: int, below: int)
    requires p % 2 != 0
    ensures RoundToEven(Neighbour(p) + below) == p + below <==> (p + below) % 4 == 0 && !IsExact(Neighbour(p) + below)
  {
    var b := Neighbour(p) + below;
    if IsDouble(b) {
      if (p + below) % 4 == 0 {
        FourIsEven(p + below);
        NextToEven(p + below, b);
      }
    } else {
      NeighbourIsFour(b);
      if (p + below) % 4 == 0 { OnlyNeighbour(b, p + below); }
    }
  }

  lemma NextToEven(n: int, m: int)
    requires n % 2 == 0 && (m == n + 1 || m == n - 1)
    ensures m % 2 != 0
  {
  }

  /** The multiple of four next to a number is its neighbour. */
  lemma OnlyNeighbour(n: int, m: int)
    requires m % 4 == 0 && (m == n + 1 || m == n - 1)
    ensures Neighbour(n) == m
  {
    if m == n - 1 { RemainderIs(n + 1, 4, m / 4, 2); }
  }

  /** Counting down; within the range of timestamps the exact range is not crossed from end to end. */
  lemma DownExactly(m: int, whole: int, below: int)
    requires whole % 4 == 0 && whole <= 0 && below <= 0
    requires m > EXACT_DOUBLE ==> m + whole + below >= -EXACT_DOUBLE + 2
    ensures Path(RoundToEven(RoundToEven(m) + below), whole) == m + whole + below <==>
            Down(m, whole, below)
  {
    var a, f := m + below, m + whole + below;
    FoursKept(a, whole / 4);
    RoundedOnlyDoubles(a);
    RoundedOnlyDoubles(m);
    if IsDouble(m) {
      if IsDouble(a) { PathArrives(a, whole); } else { PathMisses(a, whole); }
    } else {
      var b := Neighbour(m) + below;
      LastRounding(m, below);
      FourIsDouble(a);
      if a % 4 == 0 && !IsExact(b) {
        FourIsEven(a);
      } else {
        RoundedPathMisses(m, whole, below);
      }
    }
    hide Neighbour, Path;
  }

  /** From a double the path arrives at the sum exactly if that is a double. */
  lemma PathArrives(a: int, whole: int)
    requires IsDouble(a) && whole % 4 == 0
    ensures Path(a, whole) == a + whole <==> IsDouble(a + whole)
  {
    FoursKept(a, whole / 4);
  }

  /** From the neighbour of an odd number it never does. */
  lemma PathMisses(a: int, whole: int)
    requires !IsDouble(a) && whole % 4 == 0
    ensures Path(RoundToEven(a), whole) != a + whole
  {
    NeighbourIsFour(a);
  }

  /** A start that was rounded and a first rounding that did not cancel it: the path down goes elsewhere. */
  lemma RoundedPathMisses(m: int, whole: int, below: int)
    requires !IsDouble(m) && whole % 4 == 0 && whole <= 0 && below <= 0
    requires m > EXACT_DOUBLE ==> m + whole + below >= -EXACT_DOUBLE + 2
    requires RoundToEven(Neighbour(m) + below) != m + below
    ensures Path(RoundToEven(Neighbour(m) + below), whole) != m + whole + below
  {
    var b := Neighbour(m) + below;
    if IsDouble(b) {
      assert b % 2 != 0 ==> IsExact(b + whole);
    } else {
      NeighbourIsFour(b);
    }
  }

  /** Adding microseconds is integer addition exactly under this condition, if the sum is a timestamp. */
  lemma AddsExactlyIf(ts: int64, micros: int64, millis: int, left: int)
    requires IsFinite(ts) && Carry(ts, Micros(micros)) == (millis, left)
    requires InRange(millis * MICROS_PER_MSEC) && HasDate(millis * MICROS_PER_MSEC)
    requires ToTimestamp(millis + TruncDiv(micros, MICROS_PER_MSEC), left).Ok?
    ensures Sum(Doubles(), ts, Micros(micros)) == Ok(ts + micros) <==> AddsUp(millis, micros)
  {
    SumSteps(Doubles(), ts, Micros(micros), millis, left);
    CarryAddsUp(ts, Micros(micros));
    SumIsTarget(millis, micros);
    hide Carry, HasDate, MovedBy, AddsUp;
  }

  lemma SumIsTarget(millis: int, micros: int64)
    requires InRange(millis * MICROS_PER_MSEC)
    ensures MovedBy(Doubles(), RoundToEven(millis), Micros(micros)) == millis + TruncDiv(micros, MICROS_PER_MSEC) <==>
            AddsUp(millis, micros)
  {
    hide *;
    RoundedIsDouble(millis);
    MovedAlongPath(RoundToEven(millis), micros);
    WholeSecondsAreFours(micros);
    InnerCrossing(millis, micros);
    AddsUpIs(millis, micros);
    var whole, below := WholeSeconds(micros), BelowSecond(micros);
    if micros >= 0 { UpExactly(millis, whole, below); } else { DownExactly(millis, whole, below); }
  }

  lemma AddsUpIs(millis: int, micros: int64)
    ensures var below, whole := BelowSecond(micros), WholeSeconds(micros);
            AddsUp(millis, micros) <==>
            if micros >= 0 then Up(millis, whole, below) else Down(millis, whole, below)
  {
    hide BelowSecond, WholeSeconds, IsDouble, IsExact, Neighbour;
  }

  lemma InnerCrossing(millis: int, micros: int64)
    ensures WholeSeconds(micros) + BelowSecond(micros) == TruncDiv(micros, MICROS_PER_MSEC)
    ensures millis > EXACT_DOUBLE ==> millis + TruncDiv(micros, MICROS_PER_MSEC) >= -EXACT_DOUBLE + 2
  {
  }

  /** Beyond 2 to the 53rd milliseconds, which timestamps reach, even adding nothing can move a timestamp. */
  lemma RoundingMovesTimestamps()
    ensures var ts := (EXACT_DOUBLE + 1) * MICROS_PER_MSEC;
            IsFinite(ts) && Sum(Doubles(), ts, Micros(0)) == Ok(ts - MICROS_PER_MSEC)
  {
    var ts := (EXACT_DOUBLE + 1) * MICROS_PER_MSEC;
    assert IsFinite(ts);
    hide *;
    DoublesAreValid();
    NothingCarried(EXACT_DOUBLE + 1);
    ExactIsInRange(EXACT_DOUBLE, 0);
    NothingMoved(Doubles(), EXACT_DOUBLE, 0);
    ExactStays();
    SumSteps(Doubles(), ts, Micros(0), EXACT_DOUBLE + 1, 0);
  }

  lemma ExactStays()
    ensures Doubles().round(EXACT_DOUBLE) == EXACT_DOUBLE == Doubles().round(EXACT_DOUBLE + 1) && IsExact(EXACT_DOUBLE)
  {
  }

  lemma NothingCarried(millis: nat)
    requires millis <= EXACT_DOUBLE + 1
    ensures Carry(millis * MICROS_PER_MSEC, Micros(0)) == (millis, 0)
    ensures InRange(millis * MICROS_PER_MSEC) && HasDate(millis * MICROS_PER_MSEC)
  {
  }
}
