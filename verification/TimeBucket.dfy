/** Time buckets whose width is a number of microseconds. */
module TimeBucket {
  import opened CalendarAdd

  /** 2000-01-03, a Monday: 10959 days after 1970-01-01. */
  const DEFAULT_ORIGIN_MICROS := 10959 * MICROS_PER_DAY

  /** The distance from the origin to the bucket of a timestamp at this distance: a quotient that rounds
      toward zero, corrected for negative distances. */
  function BucketDistance(distance: int64, width: int64): int
    requires width != 0
  {
    var multiple := TruncDiv(distance, width) * width;
    if distance < 0 && TruncMod(distance, width) != 0 then multiple - width else multiple
  }

  // ----- the origin ------------------------------------------------------------------------------

  predicate IsLeapYear(year: nat) {
    year % 4 == 0 && (year % 100 != 0 || year % 400 == 0)
  }

  /** The days from 1970-01-01 to the first day of a year. */
  function DaysToYear(year: nat): nat
    requires 1970 <= year
  {
    if year == 1970 then 0 else DaysToYear(year - 1) + if IsLeapYear(year - 1) then 366 else 365
  }

  lemma {:induction false} DaysToYearExactly(year: nat)
    requires 1970 <= year
    ensures DaysToYear(year) == 365 * (year - 1970) + (year - 1) / 4 - (year - 1) / 100 + (year - 1) / 400 - 477
  {
    if year > 1970 {
      hide IsLeapYear;
      DaysToYearExactly(year - 1);
      NextMultiples(year - 1);
      LeapYears(year - 1);
    }
  }

  /** Each fourth, hundredth and four hundredth year is a multiple more. */
  lemma NextMultiples(n: nat)
    requires n > 0
    ensures n / 4 == (n - 1) / 4 + if n % 4 == 0 then 1 else 0
    ensures n / 100 == (n - 1) / 100 + if n % 100 == 0 then 1 else 0
    ensures n / 400 == (n - 1) / 400 + if n % 400 == 0 then 1 else 0
  {
  }

  lemma LeapYears(n: nat)
    ensures (if IsLeapYear(n) then 1 else 0) ==
            (if n % 4 == 0 then 1 else 0) - (if n % 100 == 0 then 1 else 0) + (if n % 400 == 0 then 1 else 0)
  {
    EveryHundredth(n);
    EveryFourHundredth(n);
  }

  lemma EveryHundredth(n: nat)
    ensures n % 100 == 0 ==> n % 4 == 0
  {
    if n % 100 == 0 {
      var k := 25 * (n / 100) - n / 4;
      assert n % 4 == 4 * k;
    }
  }

  lemma EveryFourHundredth(n: nat)
    ensures n % 400 == 0 ==> n % 100 == 0
  {
    if n % 400 == 0 {
      var k := 4 * (n / 400) - n / 100;
      assert n % 100 == 100 * k;
    }
  }

  /** A microsecond at which a Monday begins, counted from 1970-01-01, a Thursday. */
  predicate IsStartOfMonday(ts: int) {
    ts % (7 * 24 * 60 * 60 * 1_000_000) == 4 * 24 * 60 * 60 * 1_000_000
  }

  /** The origin is the beginning of the third day of 2000, a Monday. */
  lemma OriginIsFirstMonday()
    ensures DEFAULT_ORIGIN_MICROS == (DaysToYear(2000) + 2) * 24 * 60 * 60 * 1_000_000
    ensures IsStartOfMonday(DEFAULT_ORIGIN_MICROS)
  {
    DaysToYearExactly(2000);
    assert DEFAULT_ORIGIN_MICROS == 1565 * (7 * MICROS_PER_DAY) + 4 * MICROS_PER_DAY;
  }

  /** WidthConvertibleToMicrosCommon */
  function Bucket(rules: Rules, width: int64, ts: int64, origin: int64): Result<int64> {
    if width == 0 || !InRange(ts - origin) then Failure
    else
      var distance := BucketDistance(ts - origin, width);
      if !InRange(distance) then Failure else Sum(rules, origin, Micros(distance))
  }

  method WidthConvertibleToMicrosCommon(calendar: Calendar, width: int64, ts: int64, origin: int64)
    returns (r: Result<int64>)
    modifies calendar
    ensures r == Bucket(calendar.rules, width, ts, origin)
  {
    hide Sum, TruncDiv, TruncMod;
    if width == 0 { return Failure; }
    if !InRange(ts - origin) { return Failure; }
    var tsMicros := ts - origin;
    var resultMicros := TruncDiv(tsMicros, width) * width;
    if tsMicros < 0 && TruncMod(tsMicros, width) != 0 {
      resultMicros := resultMicros - width;
    }
    MultipleInRange(tsMicros, width);
    if !InRange(resultMicros) { return Failure; }
    r := Add(calendar, origin, Micros(resultMicros));
  }

  /** The multiple of the width itself cannot overflow. */
  lemma MultipleInRange(a: int64, b: int64)
    requires b != 0
    ensures InRange(TruncDiv(a, b) * b)
  {
    TruncDivides(a, b);
  }

  lemma MultiplyMonotone(c: nat, x: int, y: int)
    requires x <= y
    ensures c * x <= c * y
  {
  }

  /** The multiple of `b` that a quotient of a non-negative number makes. */
  lemma QuotientMultiple(a: nat, b: int)
    requires b != 0
    ensures 0 <= a / b * b <= a && a - a / b * b < (if b > 0 then b else -b)
  {
    var q, r := a / b, a % b;
    assert a == q * b + r;
    if b > 0 {
      if q < 0 { MultiplyMonotone(b, q, -1); }
      if q >= 0 { MultiplyMonotone(b, 0, q); }
    } else {
      if q > 0 { MultiplyMonotone(-b, 1, q); }
      if q <= 0 { MultiplyMonotone(-b, q, 0); }
    }
  }

  lemma TruncDivides(a: int, b: int)
    requires b != 0
    ensures a >= 0 ==> 0 <= TruncDiv(a, b) * b <= a
    ensures a <= 0 ==> a <= TruncDiv(a, b) * b <= 0
    ensures var size := if b > 0 then b else -b; -size < TruncMod(a, b) < size
  {
    if a >= 0 {
      QuotientMultiple(a, b);
    } else {
      QuotientMultiple(-a, b);
      Negated(-a / b, b);
    }
  }

  lemma Negated(q: int, b: int)
    ensures (-q) * b == -(q * b)
  {
  }

  // ----- what a bucket is ------------------------------------------------------------------------

  /** A bucket start at or before the timestamp, less than a width away, and a whole number of widths from
      the origin. */
  predicate IsBucketOf(bucket: int, width: int, ts: int, origin: int)
    requires width > 0
  {
    bucket <= ts < bucket + width && (bucket - origin) % width == 0
  }

  /** There is only one. */
  lemma BucketIsUnique(a: int, b: int, width: int, ts: int, origin: int)
    requires width > 0 && IsBucketOf(a, width, ts, origin) && IsBucketOf(b, width, ts, origin)
    ensures a == b
  {
    var p, q := (a - origin) / width, (b - origin) / width;
    assert a - origin == width * p && b - origin == width * q;
    if p < q { MultiplyMonotone(width, p + 1, q); }
    if q < p { MultiplyMonotone(width, q + 1, p); }
  }

  /** The distance found is that of the bucket. */
  lemma DistanceIsBucket(distance: int64, width: int64)
    requires width > 0
    ensures IsBucketOf(BucketDistance(distance, width), width, distance, 0)
  {
    hide TruncDiv;
    var q := TruncDiv(distance, width);
    TruncDivides(distance, width);
    if distance < 0 && TruncMod(distance, width) != 0 {
      MultipleOf(q - 1, width);
      assert (q - 1) * width == q * width - width;
    } else {
      MultipleOf(q, width);
    }
  }

  lemma MultipleOf(q: int, width: nat)
    requires width > 0
    ensures q * width % width == 0
  {
    var n := q * width;
    assert n == width * (n / width) + n % width;
    if q < n / width { MultiplyMonotone(width, q + 1, n / width); }
    if n / width < q { MultiplyMonotone(width, n / width + 1, q); }
  }

  /** The bucket of a timestamp, for any numbers. */
  function BucketStart(width: int64, ts: int, origin: int): int
    requires width > 0
  {
    ts - (ts - origin) % width
  }

  lemma BucketStartIsBucket(width: int64, ts: int, origin: int)
    requires width > 0
    ensures IsBucketOf(BucketStart(width, ts, origin), width, ts, origin)
  {
    var d := ts - origin;
    assert d == width * (d / width) + d % width;
    MultipleOf(d / width, width);
    assert BucketStart(width, ts, origin) - origin == d / width * width;
  }

  /** The bucket computed is the bucket, if the distances involved fit 64 bits, and there is an error if one
      does not. */
  lemma BucketIsExact(rules: Rules, width: int64, ts: int64, origin: int64)
    requires rules.Valid() && width > 0
    requires var b := BucketStart(width, ts, origin); IsExactTimestamp(origin) && IsExactTimestamp(b)
    ensures var b := BucketStart(width, ts, origin);
            && IsBucketOf(b, width, ts, origin)
            && Bucket(rules, width, ts, origin) ==
               if InRange(ts - origin) && InRange(b - origin) then Ok(b) else Failure
  {
    hide Sum, BucketDistance;
    var b := BucketStart(width, ts, origin);
    BucketStartIsBucket(width, ts, origin);
    if InRange(ts - origin) {
      DistanceIsBucket(ts - origin, width);
      var distance := BucketDistance(ts - origin, width);
      assert IsBucketOf(b - origin, width, ts - origin, 0);
      BucketIsUnique(distance, b - origin, width, ts - origin, 0);
      if InRange(distance) { AddsExactly(rules, origin, distance); }
    }
  }

  // ----- the three forms -------------------------------------------------------------------------

  /** time_bucket(width, ts) */
  function TimeBucket(rules: Rules, width: int64, ts: int64): Result<int64> {
    if !IsFinite(ts) then Ok(ts) else Bucket(rules, width, ts, DEFAULT_ORIGIN_MICROS)
  }

  /** time_bucket(width, ts, offset), for an offset of microseconds: the timestamp is moved back by the
      offset and its bucket forth. */
  function OffsetBucket(rules: Rules, width: int64, ts: int64, offset: int64): Result<int64>
    requires -INT64_MAX <= offset
  {
    if !IsFinite(ts) then Ok(ts)
    else
      match Sum(rules, ts, Micros(-offset))
      case Failure => Failure
      case Ok(moved) =>
        match Bucket(rules, width, moved, DEFAULT_ORIGIN_MICROS)
        case Failure => Failure
        case Ok(bucket) => Sum(rules, bucket, Micros(offset))
  }

  /** time_bucket(width, ts, origin) */
  function OriginBucket(rules: Rules, width: int64, ts: int64, origin: int64): Result<int64> {
    if !IsFinite(ts) then Ok(ts) else Bucket(rules, width, ts, origin)
  }

  /** The infinite timestamps are their own buckets. */
  lemma InfinityStaysInPlace(rules: Rules, width: int64, ts: int64, offset: int64, origin: int64)
    requires -INT64_MAX <= offset && ts in {0x7FFF_FFFF_FFFF_FFFF, -0x7FFF_FFFF_FFFF_FFFF}
    ensures TimeBucket(rules, width, ts) == OffsetBucket(rules, width, ts, offset) == Ok(ts)
    ensures OriginBucket(rules, width, ts, origin) == Ok(ts)
  {
  }

  method TimeBucketOffset(calendar: Calendar, width: int64, ts: int64, offset: int64) returns (r: Result<int64>)
    requires -INT64_MAX <= offset
    modifies calendar
    ensures r == OffsetBucket(calendar.rules, width, ts, offset)
  {
    hide Sum, Bucket;
    if !IsFinite(ts) { return Ok(ts); }
    var moved := Add(calendar, ts, Micros(-offset));
    if moved.Failure? { return Failure; }
    var bucket := WidthConvertibleToMicrosCommon(calendar, width, moved.value, DEFAULT_ORIGIN_MICROS);
    if bucket.Failure? { return Failure; }
    r := Add(calendar, bucket.value, Micros(offset));
  }

  /** time_bucket gives a timestamp's bucket, counted from the default origin. */
  lemma TimeBucketIsBucket(rules: Rules, width: int64, ts: int64)
    requires rules.Valid() && width > 0 && IsFinite(ts)
    requires IsExactTimestamp(BucketStart(width, ts, DEFAULT_ORIGIN_MICROS))
    ensures var r := TimeBucket(rules, width, ts);
            r.Ok? && IsBucketOf(r.value, width, ts, DEFAULT_ORIGIN_MICROS)
  {
    hide Bucket, BucketStart;
    BucketIsExact(rules, width, ts, DEFAULT_ORIGIN_MICROS);
  }

  /** Buckets of a week begin on Mondays. */
  lemma WeeksBeginOnMondays(rules: Rules, ts: int64)
    requires rules.Valid() && IsFinite(ts)
    requires IsExactTimestamp(BucketStart(7 * MICROS_PER_DAY, ts, DEFAULT_ORIGIN_MICROS))
    ensures var r := TimeBucket(rules, 7 * MICROS_PER_DAY, ts);
            r.Ok? && r.value <= ts < r.value + 7 * MICROS_PER_DAY && IsStartOfMonday(r.value)
  {
    hide TimeBucket, BucketStart, IsStartOfMonday;
    TimeBucketIsBucket(rules, 7 * MICROS_PER_DAY, ts);
    OriginIsFirstMonday();
    WeeksApart(TimeBucket(rules, 7 * MICROS_PER_DAY, ts).value, DEFAULT_ORIGIN_MICROS);
  }

  lemma WeeksApart(a: int, b: int)
    requires (a - b) % (7 * MICROS_PER_DAY) == 0 && IsStartOfMonday(b)
    ensures IsStartOfMonday(a)
  {
    var week := 7 * MICROS_PER_DAY;
    assert a == week * ((a - b) / week + b / week) + b % week;
  }

  lemma ShiftedStart(width: int64, ts: int, origin: int, offset: int)
    requires width > 0
    ensures BucketStart(width, ts, origin + offset) - offset == BucketStart(width, ts - offset, origin)
  {
    assert ts - (origin + offset) == ts - offset - origin;
  }

  /** The offset form is the origin form with the origin shifted by the offset. */
  lemma OffsetShiftsOrigin(rules: Rules, width: int64, ts: int64, offset: int64)
    requires rules.Valid() && width > 0 && IsFinite(ts) && -INT64_MAX <= offset
    requires IsExactTimestamp(ts) && IsExactTimestamp(ts - offset) && IsExactTimestamp(DEFAULT_ORIGIN_MICROS + offset)
    requires var b := BucketStart(width, ts, DEFAULT_ORIGIN_MICROS + offset);
             IsExactTimestamp(b) && IsExactTimestamp(b - offset)
    ensures OffsetBucket(rules, width, ts, offset) == OriginBucket(rules, width, ts, DEFAULT_ORIGIN_MICROS + offset)
  {
    hide Sum, Bucket, BucketStart, IsBucketOf;
    var b := BucketStart(width, ts, DEFAULT_ORIGIN_MICROS + offset);
    ShiftedStart(width, ts, DEFAULT_ORIGIN_MICROS, offset);
    AddsExactly(rules, ts, -offset);
    BucketIsExact(rules, width, ts - offset, DEFAULT_ORIGIN_MICROS);
    BucketIsExact(rules, width, ts, DEFAULT_ORIGIN_MICROS + offset);
    AddsExactly(rules, b - offset, offset);
  }
}
