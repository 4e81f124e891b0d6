/**
  Ranges of timestamps: as lists, where a first pass counts and a second one fills, and as a table, where
  batches of rows are made on request from a state kept between the calls.  Adding a step is abstract: it
  fails or moves in the direction of the step.
*/
module Ranges {
  import opened Common
  import opened CalendarAdd

  const MAX_LIST := 0xFFFF_FFFF

  predicate IsPositive(step: Interval) {
    step.months > 0 || step.days > 0 || step.micros > 0
  }

  predicate IsNegative(step: Interval) {
    step.months < 0 || step.days < 0 || step.micros < 0
  }

  /** One row of the arguments. */
  datatype Row = Null | Row(start: int64, end: int64, step: Interval)

  /** How steps are added, and whether the end belongs to the range. */
  datatype Setup = Setup(add: (int64, Interval) -> Option<int64>, inclusive: bool) {
    ghost predicate Valid() {
      forall t: int64, step :: add(t, step).Some? ==>
        && (IsPositive(step) && !IsNegative(step) ==> add(t, step).value > t)
        && (IsNegative(step) && !IsPositive(step) ==> add(t, step).value < t)
    }
  }

  /** Steps that go one way only. */
  predicate OneWay(step: Interval) {
    IsPositive(step) != IsNegative(step)
  }

  /** Whether a value lies past the end, in the direction of the step. */
  predicate Past(inclusive: bool, positive: bool, v: int64, end: int64) {
    if positive then (if inclusive then v > end else v >= end) else (if inclusive then v < end else v <= end)
  }

  function Distance(inclusive: bool, positive: bool, v: int64, end: int64): nat {
    if Past(inclusive, positive, v, end) then 0 else 1 + (if positive then end - v else v - end)
  }

  /** The values from `v` on, unless adding fails on the way. */
  function Elements(setup: Setup, v: int64, end: int64, step: Interval): Option<seq<int64>>
    requires setup.Valid() && OneWay(step)
    decreases Distance(setup.inclusive, IsPositive(step), v, end)
  {
    if Past(setup.inclusive, IsPositive(step), v, end) then Some([])
    else
      match setup.add(v, step)
      case None => None
      case Some(next) => Before([v], Elements(setup, next, end, step))
  }

  function Before(a: seq<int64>, b: Option<seq<int64>>): Option<seq<int64>> {
    if b.Some? then Some(a + b.value) else None
  }

  predicate Reversed(row: Row) {
    row.Row? && if IsPositive(row.step) then row.start > row.end else row.start < row.end
  }

  // ----- lists -----------------------------------------------------------------------------------

  /** The list of one row; a step of zero gives an empty one. */
  function ListOf(setup: Setup, row: Row): Option<seq<int64>>
    requires setup.Valid()
  {
    if row.Null? || (!IsPositive(row.step) && !IsNegative(row.step)) then Some([])
    else if !IsFinite(row.start) || !IsFinite(row.end) then None
    else if !OneWay(row.step) then None
    else if Reversed(row) then Some([])
    else
      var elements := Elements(setup, row.start, row.end, row.step);
      if elements.Some? && |elements.value| > MAX_LIST then None else elements
  }

  method ListLength(setup: Setup, row: Row) returns (length: Option<nat>)
    requires setup.Valid() && row.Row?
    ensures length == if ListOf(setup, row).Some? then Some(|ListOf(setup, row).value|) else None
  {
    var isPositive, isNegative := IsPositive(row.step), IsNegative(row.step);
    if !isNegative && !isPositive { return Some(0); }
    if !IsFinite(row.start) || !IsFinite(row.end) { return None; }
    if isNegative && isPositive { return None; }
    if row.start > row.end && isPositive { return Some(0); }
    if row.start < row.end && isNegative { return Some(0); }
    var total := 0;
    var value := row.start;
    ghost var counted: seq<int64> := [];
    NothingBefore(Elements(setup, value, row.end, row.step));
    while !Past(setup.inclusive, isPositive, value, row.end)
      invariant total == |counted| <= MAX_LIST
      invariant Elements(setup, row.start, row.end, row.step) ==
                Before(counted, Elements(setup, value, row.end, row.step))
      decreases Distance(setup.inclusive, isPositive, value, row.end)
    {
      BeforeBefore(counted, [value], if setup.add(value, row.step).Some?
          then Elements(setup, setup.add(value, row.step).value, row.end, row.step) else None);
      var next := setup.add(value, row.step);
      if next.None? { return None; }
      counted := counted + [value];
      value := next.value;
      total := total + 1;
      if total > MAX_LIST { return None; }
    }
    return Some(total);
  }

  lemma NothingBefore(b: Option<seq<int64>>)
    ensures Before([], b) == b
  {
    if b.Some? { assert [] + b.value == b.value; }
  }

  lemma BeforeBefore(a: seq<int64>, b: seq<int64>, c: Option<seq<int64>>)
    ensures Before(a + b, c) == Before(a, Before(b, c))
  {
    if c.Some? { assert a + b + c.value == a + (b + c.value); }
  }

  /** Each value of a list is its predecessor with the step added. */
  lemma {:induction false} NextElement(setup: Setup, v: int64, end: int64, step: Interval, j: nat)
    requires setup.Valid() && OneWay(step) && Elements(setup, v, end, step).Some?
             && j < |Elements(setup, v, end, step).value|
    ensures var l := Elements(setup, v, end, step).value;
            l[0] == v && (j + 1 < |l| ==> setup.add(l[j], step) == Some(l[j + 1]))
    decreases j
  {
    var next := setup.add(v, step).value;
    var rest := Elements(setup, next, end, step).value;
    if j > 0 {
      NextElement(setup, next, end, step, j - 1);
    } else if rest != [] {
      assert !Past(setup.inclusive, IsPositive(step), next, end);
    }
  }

  datatype Entry = Entry(offset: nat, length: nat, valid: bool)

  function Total(entries: seq<Entry>): nat {
    if entries == [] then 0 else entries[0].length + Total(entries[1..])
  }

  lemma {:induction false} TotalGrows(entries: seq<Entry>, entry: Entry)
    ensures Total(entries + [entry]) == Total(entries) + entry.length
  {
    if entries == [] {
      assert entries + [entry] == [entry] && [entry][1..] == [];
    } else {
      assert (entries + [entry])[1..] == entries[1..] + [entry];
      TotalGrows(entries[1..], entry);
    }
  }

  /** The rows counted: each entry begins where the one before it ended, and has its list's length. */
  ghost predicate Counted(setup: Setup, rows: seq<Row>, entries: seq<Entry>)
    requires setup.Valid()
  {
    && |entries| <= |rows|
    && forall i :: 0 <= i < |entries| ==>
         && entries[i].offset == Total(entries[..i]) && entries[i].valid == rows[i].Row?
         && ListOf(setup, rows[i]).Some? && entries[i].length == |ListOf(setup, rows[i]).value|
  }

  /** The lists of the first rows, joined. */
  ghost function Joined(setup: Setup, rows: seq<Row>, n: nat): seq<int64>
    requires setup.Valid() && n <= |rows|
  {
    if n == 0 || ListOf(setup, rows[n - 1]).None? then []
    else Joined(setup, rows, n - 1) + ListOf(setup, rows[n - 1]).value
  }

  lemma CountedStep(setup: Setup, rows: seq<Row>, entries: seq<Entry>, entry: Entry)
    requires setup.Valid() && Counted(setup, rows, entries) && |entries| < |rows|
    requires var row := rows[|entries|];
             && ListOf(setup, row).Some?
             && entry == Entry(Total(entries), |ListOf(setup, row).value|, row.Row?)
    ensures Counted(setup, rows, entries + [entry]) && Total(entries + [entry]) == Total(entries) + entry.length
  {
    hide ListOf;
    TotalGrows(entries, entry);
    var longer := entries + [entry];
    forall i | 0 <= i < |longer|
      ensures longer[i].offset == Total(longer[..i]) && longer[i].valid == rows[i].Row?
      ensures ListOf(setup, rows[i]).Some? && longer[i].length == |ListOf(setup, rows[i]).value|
    {
      if i < |entries| {
        assert longer[..i] == entries[..i];
      } else {
        assert longer[..i] == entries;
      }
    }
  }

  lemma {:induction false} JoinedLength(setup: Setup, rows: seq<Row>, entries: seq<Entry>, n: nat)
    requires setup.Valid() && Counted(setup, rows, entries) && n <= |entries|
    ensures |Joined(setup, rows, n)| == Total(entries[..n])
  {
    hide ListOf;
    if n > 0 {
      JoinedLength(setup, rows, entries, n - 1);
      assert entries[..n] == entries[..n - 1] + [entries[n - 1]];
      TotalGrows(entries[..n - 1], entries[n - 1]);
    }
  }

  /** Count, then fill. */
  method ListRange(setup: Setup, rows: seq<Row>) returns (r: Option<(seq<Entry>, seq<int64>)>)
    requires setup.Valid()
    ensures r.Some? <==> forall i :: 0 <= i < |rows| ==> ListOf(setup, rows[i]).Some?
    ensures r.Some? ==>
              Counted(setup, rows, r.value.0) && |r.value.0| == |rows| && r.value.1 == Joined(setup, rows, |rows|)
  {
    hide ListOf, Total, Joined;
    var entries: seq<Entry> := [];
    var totalSize := 0;
    assert totalSize == Total(entries) by { NoEntries(); }
    for i := 0 to |rows|
      invariant |entries| == i && Counted(setup, rows, entries) && totalSize == Total(entries)
    {
      var entry := Entry(totalSize, 0, false);
      if rows[i].Null? {
        NullIsEmpty(setup);
      } else {
        var length := ListLength(setup, rows[i]);
        if length.None? { return None; }
        entry := Entry(totalSize, length.value, true);
      }
      CountedStep(setup, rows, entries, entry);
      entries := entries + [entry];
      totalSize := totalSize + entry.length;
    }
    var child := Fill(setup, rows, entries);
    return Some((entries, child));
  }

  lemma NoEntries()
    ensures Total([]) == 0
  {
  }

  lemma NullIsEmpty(setup: Setup)
    requires setup.Valid()
    ensures ListOf(setup, Null) == Some([])
  {
  }

  method Fill(setup: Setup, rows: seq<Row>, entries: seq<Entry>) returns (child: seq<int64>)
    requires setup.Valid() && Counted(setup, rows, entries) && |entries| == |rows|
    ensures child == Joined(setup, rows, |rows|)
  {
    hide ListOf, Total;
    child := [];
    for i := 0 to |rows|
      invariant child == Joined(setup, rows, i)
    {
      var list := FillRow(setup, rows[i], entries[i].length);
      child := child + list;
    }
  }

  /** The values of one row, by adding the step again and again. */
  method FillRow(setup: Setup, row: Row, length: nat) returns (list: seq<int64>)
    requires setup.Valid() && ListOf(setup, row).Some? && length == |ListOf(setup, row).value|
    ensures list == ListOf(setup, row).value
  {
    list := [];
    if row.Null? || length == 0 { return; }
    ghost var all := ListOf(setup, row).value;
    NextElement(setup, row.start, row.end, row.step, 0);
    var value := row.start;
    for j := 0 to length
      invariant list == all[..j] && (j > 0 ==> value == all[j - 1]) && (j == 0 ==> value == row.start)
    {
      if j > 0 {
        NextElement(setup, row.start, row.end, row.step, j - 1);
        value := setup.add(value, row.step).value;
      }
      list := list + [value];
    }
  }
}
