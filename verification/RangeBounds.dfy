/**
  Where ranges stop, and which arguments have no range.
*/
module RangeBounds {
  import opened Common
  import opened CalendarAdd
  import opened Ranges
  import opened TableRange

  /** A range of values upward: it is empty exactly if it begins past its end; none of its values is past the
      end, and the value after its last one is. */
  lemma {:induction false} UpwardStops(setup: Setup, v: int64, end: int64, step: Interval)
    requires setup.Valid() && IsPositive(step) && !IsNegative(step) && Elements(setup, v, end, step).Some?
    ensures var l := Elements(setup, v, end, step).value;
            && (l == [] <==> if setup.inclusive then v > end else v >= end)
            && (forall j :: 0 <= j < |l| ==> if setup.inclusive then l[j] <= end else l[j] < end)
            && (l != [] ==> l[0] == v && setup.add(l[|l| - 1], step).Some?)
            && (l != [] ==> var after := setup.add(l[|l| - 1], step).value; if setup.inclusive then after > end
                else after >= end)
    decreases Distance(setup.inclusive, true, v, end)
  {
    if !Past(setup.inclusive, true, v, end) {
      var next := setup.add(v, step).value;
      UpwardStops(setup, next, end, step);
      FirstThenRest(setup, v, end, step);
    }
  }

  /** The same downward. */
  lemma {:induction false} DownwardStops(setup: Setup, v: int64, end: int64, step: Interval)
    requires setup.Valid() && IsNegative(step) && !IsPositive(step) && Elements(setup, v, end, step).Some?
    ensures var l := Elements(setup, v, end, step).value;
            && (l == [] <==> if setup.inclusive then v < end else v <= end)
            && (forall j :: 0 <= j < |l| ==> if setup.inclusive then l[j] >= end else l[j] > end)
            && (l != [] ==> l[0] == v && setup.add(l[|l| - 1], step).Some?)
            && (l != [] ==> var after := setup.add(l[|l| - 1], step).value; if setup.inclusive then after < end
                else after <= end)
    decreases Distance(setup.inclusive, false, v, end)
  {
    if !Past(setup.inclusive, false, v, end) {
      var next := setup.add(v, step).value;
      DownwardStops(setup, next, end, step);
      FirstThenRest(setup, v, end, step);
    }
  }

  lemma FirstThenRest(setup: Setup, v: int64, end: int64, step: Interval)
    requires setup.Valid() && OneWay(step) && Elements(setup, v, end, step).Some?
    requires !Past(setup.inclusive, IsPositive(step), v, end)
    ensures setup.add(v, step).Some?
    ensures var rest := Elements(setup, setup.add(v, step).value, end, step);
            && rest.Some? && Elements(setup, v, end, step).value == [v] + rest.value
            && (forall j :: 0 <= j < |rest.value| ==> ([v] + rest.value)[j + 1] == rest.value[j])
  {
  }

  // ----- steps of microseconds -------------------------------------------------------------------

  /** The number of values from `v` on in steps of `s`. */
  function Count(inclusive: bool, v: int, end: int, s: int): nat
    requires s != 0
  {
    var span, size := if s > 0 then end - v else v - end, if s > 0 then s else -s;
    if span < 0 then 0 else if inclusive then span / size + 1 else (span + size - 1) / size
  }

  function Multiples(v: int, s: int, n: nat): seq<int> {
    seq(n, j => v + j * s)
  }

  lemma DivStep(a: int, s: int)
    requires s > 0
    ensures (a + s) / s == a / s + 1
  {
    assert a == s * (a / s) + a % s;
    assert a + s == s * (a / s + 1) + a % s;
    QuotientIs(a + s, s, a / s + 1, a % s);
  }

  lemma QuotientIs(a: int, s: int, q: int, r: int)
    requires s > 0 && a == s * q + r && 0 <= r < s
    ensures a / s == q
  {
    var d := a / s - q;
    assert s * (a / s) + a % s == s * q + r;
    assert s * d == r - a % s;
    AtLeastOnce(s, d);
  }

  lemma AtLeastOnce(s: int, d: int)
    requires s > 0
    ensures (d > 0 ==> s * d >= s) && (d < 0 ==> s * d <= -s)
  {
  }

  lemma SmallQuotient(a: int, s: int)
    requires 0 <= a < s
    ensures a / s == 0
  {
    QuotientIs(a, s, 0, a);
  }

  /** One value less after one step. */
  lemma CountStep(inclusive: bool, v: int, end: int, s: int)
    requires s != 0
    ensures var past := if s > 0 then (if inclusive then v > end else v >= end)
            else (if inclusive then v < end else v <= end);
            Count(inclusive, v, end, s) == if past then 0 else 1 + Count(inclusive, v + s, end, s)
  {
    var span, size := if s > 0 then end - v else v - end, if s > 0 then s else -s;
    if inclusive {
      if span >= size { DivStep(span - size, size); } else if span >= 0 { SmallQuotient(span, size); }
    } else {
      if span >= size { DivStep(span - 1, size); }
      else if span > 0 { QuotientIs(span + size - 1, size, 1, span - 1); }
      else if span == 0 { SmallQuotient(size - 1, size); }
      if span == size { SmallQuotient(size - 1, size); }
    }
  }

  lemma MultiplesStep(v: int, s: int, n: nat)
    ensures Multiples(v, s, n + 1) == [v] + Multiples(v + s, s, n) && v + s + n * s == v + (n + 1) * s
  {
    var whole, rest := Multiples(v, s, n + 1), Multiples(v + s, s, n);
    forall j | 0 <= j < n + 1 ensures whole[j] == ([v] + rest)[j] {
      if j > 0 { assert rest[j - 1] == v + s + (j - 1) * s == v + j * s; }
    }
  }

  /** Adding on never comes back into range. */
  lemma StaysOut(v: int64, s: int, n: nat)
    requires n >= 1 && !InRange(v + s)
    ensures !InRange(v + n * s)
  {
    assert n * s == s + (n - 1) * s;
    if s >= 0 { assert (n - 1) * s >= 0; } else { assert (n - 1) * s <= 0; }
  }

  /** In steps of microseconds: exactly the values `v`, `v + s`, `v + 2 * s`, ... that are not past the end, as
      many as division tells, provided the first value past the end can still be computed. */
  lemma {:induction false} MicrosExactly(inclusive: bool, v: int64, end: int64, s: int64)
    requires s != 0
    ensures Setup(AddMicros, inclusive).Valid() && OneWay(Micros(s))
    ensures var n := Count(inclusive, v, end, s);
            Elements(Setup(AddMicros, inclusive), v, end, Micros(s)) ==
            if InRange(v + n * s) then Some(Multiples(v, s, n)) else None
    decreases Distance(inclusive, s > 0, v, end)
  {
    AddMicrosMoves(inclusive);
    var setup, step := Setup(AddMicros, inclusive), Micros(s);
    var n := Count(inclusive, v, end, s);
    hide Count, Multiples;
    CountStep(inclusive, v, end, s);
    if Past(inclusive, s > 0, v, end) {
      NoMultiples(v, s);
    } else if InRange(v + s) {
      MicrosExactly(inclusive, v + s, end, s);
      MultiplesStep(v, s, n - 1);
    } else {
      StaysOut(v, s, n);
    }
  }

  lemma NoMultiples(v: int, s: int)
    ensures Multiples(v, s, 0) == [] && v + 0 * s == v
  {
  }

  // ----- arguments without a range ---------------------------------------------------------------

  /** A row has no list exactly if it is not NULL, its step is not zero, and a bound is infinite, the step goes
      both ways, or, when the range is not reversed, a value cannot be computed or there are too many. */
  lemma ListExactly(setup: Setup, row: Row)
    requires setup.Valid()
    ensures row.Null? ==> ListOf(setup, row) == Some([])
    ensures row.Row? ==>
              var step := row.step;
              var up, down := step.months > 0 || step.days > 0 || step.micros > 0, step.months < 0 || step.days < 0
                  || step.micros < 0;
              var infinite := row.start in {0x7FFF_FFFF_FFFF_FFFF, -0x7FFF_FFFF_FFFF_FFFF}
                  || row.end in {0x7FFF_FFFF_FFFF_FFFF, -0x7FFF_FFFF_FFFF_FFFF};
              var reversed := (up && row.start > row.end) || (down && row.start < row.end);
              if !up && !down then ListOf(setup, row) == Some([])
              else if infinite || (up && down) then ListOf(setup, row) == None
              else if reversed then ListOf(setup, row) == Some([])
              else if Elements(setup, row.start, row.end, step).None? then ListOf(setup, row) == None
              else if |Elements(setup, row.start, row.end, step).value| >= 0x1_0000_0000 then ListOf(setup, row) == None
              else ListOf(setup, row) == Elements(setup, row.start, row.end, step)
  {
    hide Elements;
  }

  /** The table form refuses a zero step besides. */
  lemma TableRefusesExactly(inclusive: bool, row: Row, empty: bool)
    ensures ParamsOf(inclusive, row, empty).None? <==>
            row.Row? &&
            var step := row.step;
            var up, down := step.months > 0 || step.days > 0 || step.micros > 0, step.months < 0 || step.days < 0
                || step.micros < 0;
            || row.start in {0x7FFF_FFFF_FFFF_FFFF, -0x7FFF_FFFF_FFFF_FFFF}
            || row.end in {0x7FFF_FFFF_FFFF_FFFF, -0x7FFF_FFFF_FFFF_FFFF}
            || (up <==> down)
  {
  }

  /** generate_series from 0 to 1 by one microsecond, and range without the end. */
  lemma SeriesHasItsEnd()
    ensures Setup(AddMicros, true).Valid() && Setup(AddMicros, false).Valid()
    ensures ListOf(Setup(AddMicros, true), Row(0, 1, Micros(1))) == Some([0, 1])
    ensures ListOf(Setup(AddMicros, false), Row(0, 1, Micros(1))) == Some([0])
  {
    MicrosExactly(true, 0, 1, 1);
    MicrosExactly(false, 0, 1, 1);
    assert Multiples(0, 1, 2) == [0, 1] && Multiples(0, 1, 1) == [0];
    hide Elements, Multiples;
  }
}
