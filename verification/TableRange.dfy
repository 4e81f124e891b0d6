/** The table form of a range: a state machine that is asked for one batch after another. */
module TableRange {
  import opened Common
  import opened CalendarAdd
  import opened Ranges

  /** The parameters of the row being worked on; `empty` is set for a reversed range and never cleared. */
  datatype Params = Params(start: int64, end: int64, step: Interval, greaterThan: bool, inclusive: bool, empty: bool)

  datatype Progress = Progress(initialized: bool, row: nat, current: int64, params: Params)

  /** The parameters of a row, given whether an empty range has been met before. */
  function ParamsOf(inclusive: bool, row: Row, empty: bool): Option<Params> {
    if row.Null? then Some(Params(0, 0, Interval(0, 0, 0), true, false, empty))
    else if !IsFinite(row.start) || !IsFinite(row.end) then None
    else if row.step == Interval(0, 0, 0) then None
    else if !OneWay(row.step) then None
    else Some(Params(row.start, row.end, row.step, IsPositive(row.step), inclusive, empty || Reversed(row)))
  }

  predicate Finished(p: Params, v: int64) {
    Past(p.inclusive, p.greaterThan, v, p.end)
  }

  /** Parameters that ParamsOf can give: a step in one direction, or nothing to do. */
  predicate WellFormed(setup: Setup, p: Params) {
    if OneWay(p.step) then p.greaterThan == IsPositive(p.step) && p.inclusive == setup.inclusive
    else p.start == p.end && p.greaterThan && !p.inclusive
  }

  /** What is still to come of a row whose next value is `v`. */
  function RestOfRow(setup: Setup, p: Params, v: int64): Option<seq<int64>>
    requires setup.Valid() && WellFormed(setup, p)
  {
    if p.empty || !OneWay(p.step) then Some([]) else Elements(setup, v, p.end, p.step)
  }

  lemma ParamsAreWellFormed(setup: Setup, row: Row, empty: bool)
    requires ParamsOf(setup.inclusive, row, empty).Some?
    ensures WellFormed(setup, ParamsOf(setup.inclusive, row, empty).value)
  {
  }

  /** What is still to come from row `k` on, if `empty` says whether an empty range has been met. */
  function RestOfRows(setup: Setup, rows: seq<Row>, k: nat, empty: bool): Option<seq<int64>>
    requires setup.Valid()
    decreases |rows| - k
  {
    if k >= |rows| then Some([])
    else
      match ParamsOf(setup.inclusive, rows[k], empty)
      case None => None
      case Some(p) =>
        ParamsAreWellFormed(setup, rows[k], empty);
        Both(RestOfRow(setup, p, p.start), RestOfRows(setup, rows, k + 1, p.empty))
  }

  function Both(a: Option<seq<int64>>, b: Option<seq<int64>>): Option<seq<int64>> {
    if a.Some? then Before(a.value, b) else None
  }

  /** What all further calls will give. */
  function Remaining(setup: Setup, rows: seq<Row>, s: Progress): Option<seq<int64>>
    requires setup.Valid() && (s.initialized ==> WellFormed(setup, s.params))
  {
    if s.initialized then Both(RestOfRow(setup, s.params, s.current),
        RestOfRows(setup, rows, s.row + 1, s.params.empty))
    else RestOfRows(setup, rows, s.row, s.params.empty)
  }

  // ----- the program -----------------------------------------------------------------------------

  datatype Outcome = NeedMoreInput | HaveMoreOutput(batch: seq<int64>) | Thrown

  class RangeState {
    const setup: Setup
    const vectorSize: nat
    var initializedRow: bool
    var currentInputRow: nat
    var currentState: int64
    var params: Params

    ghost function State(): Progress
      reads this
    {
      Progress(initializedRow, currentInputRow, currentState, params)
    }

    ghost predicate Valid(rows: seq<Row>)
      reads this
    {
      && setup.Valid() && vectorSize > 0 && currentInputRow <= |rows|
      && (initializedRow ==>
            && currentInputRow < |rows| && WellFormed(setup, params)
            && (OneWay(params.step) || currentState == params.end))
    }

    constructor (setup: Setup, vectorSize: nat)
      requires setup.Valid() && vectorSize > 0
      ensures this.setup == setup && this.vectorSize == vectorSize
      ensures !initializedRow && currentInputRow == 0 && !params.empty
    {
      this.setup, this.vectorSize := setup, vectorSize;
      initializedRow, currentInputRow, currentState := false, 0, 0;
      params := Params(0, 0, Interval(0, 0, 0), true, false, false);
    }

    /** Fill one batch; it is not filled up only if the row is finished. */
    method FillBatch() returns (batch: seq<int64>, thrown: bool)
      requires setup.Valid() && vectorSize > 0 && WellFormed(setup, params) && !params.empty
      requires OneWay(params.step) || currentState == params.end
      modifies `currentState
      ensures |batch| <= vectorSize
      ensures var before := RestOfRow(setup, params, old(currentState));
              if thrown then before == None else before == Before(batch, RestOfRow(setup, params, currentState))
      ensures OneWay(params.step) || currentState == params.end
      ensures batch == [] && !thrown ==> RestOfRow(setup, params, old(currentState)) == Some([])
      ensures batch != [] && !thrown ==> Left(params, currentState) < Left(params, old(currentState))
    {
      batch, thrown := [], false;
      NothingBefore(RestOfRow(setup, params, currentState));
      while !Finished(params, currentState)
        invariant |batch| < vectorSize && (OneWay(params.step) || currentState == params.end)
        invariant RestOfRow(setup, params, old(currentState)) == Before(batch, RestOfRow(setup, params, currentState))
        invariant if batch == [] then currentState == old(currentState)
                  else Left(params, currentState) < Left(params, old(currentState))
        decreases Left(params, currentState)
      {
        var next := setup.add(currentState, params.step);
        if next.None? { return batch, true; }
        BeforeBefore(batch, [currentState], RestOfRow(setup, params, next.value));
        batch := batch + [currentState];
        currentState := next.value;
        if |batch| >= vectorSize { break; }
      }
    }

    /** Begin the current input row, unless its parameters are refused. */
    method BeginRow(rows: seq<Row>) returns (ok: bool)
      requires Valid(rows) && !initializedRow && currentInputRow < |rows|
      modifies `initializedRow, `currentState, `params
      ensures !ok ==> Remaining(setup, rows, old(State())) == None
      ensures ok ==> Valid(rows) && initializedRow
      ensures ok ==> Remaining(setup, rows, State()) == Remaining(setup, rows, old(State()))
      ensures ok ==> RowsLeft(rows, State()) < RowsLeft(rows, old(State()))
    {
      hide RestOfRow, ParamsOf, RestOfRows, Before;
      RowBegins(setup, rows, currentInputRow, params.empty);
      var p := ParamsOf(setup.inclusive, rows[currentInputRow], params.empty);
      if p.None? { return false; }
      params := p.value;
      initializedRow := true;
      currentState := params.start;
      return true;
    }

    /** One request for rows. */
    method Next(rows: seq<Row>) returns (outcome: Outcome)
      requires Valid(rows)
      modifies `initializedRow, `currentInputRow, `currentState, `params
      ensures Valid(rows) || outcome == Thrown
      ensures var before := Remaining(setup, rows, old(State()));
              match outcome
              case Thrown => before == None
              case NeedMoreInput => before == Some([]) && !initializedRow && currentInputRow == 0
              case HaveMoreOutput(batch) =>
                && |batch| <= vectorSize && before == Before(batch, Remaining(setup, rows, State()))
                && (RowsLeft(rows, State()) < RowsLeft(rows, old(State())) ||
                    (RowsLeft(rows, State()) == RowsLeft(rows, old(State()))
                        && ValuesLeft(State()) < ValuesLeft(old(State()))))
    {
      hide RestOfRow, ParamsOf, RestOfRows, Before, Left, WellFormed;
      while true
        invariant Valid(rows)
        invariant Remaining(setup, rows, State()) == Remaining(setup, rows, old(State()))
        invariant State() == old(State()) || RowsLeft(rows, State()) < RowsLeft(rows, old(State()))
        decreases RowsLeft(rows, State())
      {
        if !initializedRow {
          if currentInputRow >= |rows| {
            RowBegins(setup, rows, currentInputRow, params.empty);
            currentInputRow := 0;
            initializedRow := false;
            return NeedMoreInput;
          }
          var ok := BeginRow(rows);
          if !ok { return Thrown; }
        }
        if params.empty {
          EmptyRow(setup, params, currentState, RestOfRows(setup, rows, currentInputRow + 1, params.empty));
          currentInputRow := currentInputRow + 1;
          initializedRow := false;
          return HaveMoreOutput([]);
        }
        var rest := RestOfRows(setup, rows, currentInputRow + 1, params.empty);
        var batch, thrown := FillBatch();
        if thrown { return Thrown; }
        if batch == [] {
          JoinedNothing(rest);
          currentInputRow := currentInputRow + 1;
          initializedRow := false;
        } else {
          JoinedBefore(batch, RestOfRow(setup, params, currentState), rest);
          return HaveMoreOutput(batch);
        }
      }
    }

    /** All that a chunk of input rows gives, batch by batch. */
    method All(rows: seq<Row>) returns (values: Option<seq<int64>>)
      requires Valid(rows)
      modifies `initializedRow, `currentInputRow, `currentState, `params
      ensures values == Remaining(setup, rows, old(State()))
    {
      hide Remaining;
      var total: seq<int64> := [];
      NothingBefore(Remaining(setup, rows, State()));
      while true
        invariant Valid(rows)
        invariant Before(total, Remaining(setup, rows, State())) == Remaining(setup, rows, old(State()))
        decreases RowsLeft(rows, State()), ValuesLeft(State())
      {
        ghost var before := State();
        var outcome := Next(rows);
        match outcome
        case Thrown => return None;
        case NeedMoreInput =>
          assert total + [] == total;
          return Some(total);
        case HaveMoreOutput(batch) =>
          BeforeBefore(total, batch, Remaining(setup, rows, State()));
          total := total + batch;
      }
    }
  }

  /** The rows that are left, those not begun counting twice. */
  ghost function RowsLeft(rows: seq<Row>, s: Progress): nat {
    if s.row > |rows| then 0 else 2 * (|rows| - s.row) + (if s.initialized then 0 else 1)
  }

  ghost function ValuesLeft(s: Progress): nat {
    if s.initialized then Left(s.params, s.current) else 0
  }

  lemma RowBegins(setup: Setup, rows: seq<Row>, k: nat, empty: bool)
    requires setup.Valid()
    ensures RestOfRows(setup, rows, k, empty) ==
            if k >= |rows| then Some([])
            else if ParamsOf(setup.inclusive, rows[k], empty).None? then None
            else Both(RestOfRow(setup, ParamsOf(setup.inclusive, rows[k], empty).value,
                ParamsOf(setup.inclusive, rows[k], empty).value.start),
                         RestOfRows(setup, rows, k + 1, ParamsOf(setup.inclusive, rows[k], empty).value.empty))
    ensures k < |rows| && ParamsOf(setup.inclusive, rows[k], empty).Some? ==>
              var p := ParamsOf(setup.inclusive, rows[k], empty).value;
              WellFormed(setup, p) && (OneWay(p.step) || p.start == p.end)
  {
    if k < |rows| && ParamsOf(setup.inclusive, rows[k], empty).Some? {
      ParamsAreWellFormed(setup, rows[k], empty);
    }
  }

  lemma EmptyRow(setup: Setup, p: Params, v: int64, rest: Option<seq<int64>>)
    requires setup.Valid() && WellFormed(setup, p) && p.empty
    ensures Both(RestOfRow(setup, p, v), rest) == rest == Before([], rest)
  {
    NothingBefore(rest);
  }

  lemma JoinedNothing(rest: Option<seq<int64>>)
    ensures Both(Some([]), rest) == rest
  {
    NothingBefore(rest);
  }

  lemma JoinedBefore(batch: seq<int64>, a: Option<seq<int64>>, rest: Option<seq<int64>>)
    ensures Both(Before(batch, a), rest) == Before(batch, Both(a, rest))
  {
    if a.Some? { BeforeBefore(batch, a.value, rest); }
  }

  function Left(p: Params, v: int64): nat {
    Distance(p.inclusive, p.greaterThan, v, p.end)
  }

  // ----- the table and the lists -----------------------------------------------------------------

  /** For one row the batches, joined, are the list: for a step in one direction, finite bounds and a list
      that is not too long. */
  lemma OneRowIsItsList(setup: Setup, row: Row)
    requires setup.Valid() && row.Row? && OneWay(row.step) && IsFinite(row.start) && IsFinite(row.end)
    requires ListOf(setup, row).Some?
    ensures RestOfRows(setup, [row], 0, false) == ListOf(setup, row)
  {
    hide Elements;
    RowBegins(setup, [row], 0, false);
    assert RestOfRows(setup, [row], 1, Reversed(row)) == Some([]);
    var list := ListOf(setup, row).value;
    assert list + [] == list;
  }

  /** Rows the table form accepts: finite bounds and a step in one direction, or a null. */
  predicate Accepted(row: Row) {
    row.Row? ==> IsFinite(row.start) && IsFinite(row.end) && OneWay(row.step)
  }

  /** The lists of the rows from `k` on, joined. */
  function Lists(setup: Setup, rows: seq<Row>, k: nat): (r: Option<seq<int64>>)
    requires setup.Valid()
    decreases |rows| - k
  {
    if k >= |rows| then Some([]) else Both(ListOf(setup, rows[k]), Lists(setup, rows, k + 1))
  }

  /** The first reversed row from `k` on. */
  function FirstReversed(rows: seq<Row>, k: nat): (r: nat)
    requires k <= |rows|
    ensures k <= r <= |rows| && (r < |rows| ==> Reversed(rows[r])) && forall i :: k <= i < r ==> !Reversed(rows[i])
    decreases |rows| - k
  {
    if k == |rows| || Reversed(rows[k]) then k else FirstReversed(rows, k + 1)
  }

  lemma {:induction false} NothingAfterEmpty(setup: Setup, rows: seq<Row>, k: nat)
    requires setup.Valid() && forall i :: 0 <= i < |rows| ==> Accepted(rows[i])
    ensures RestOfRows(setup, rows, k, true) == Some([])
    decreases |rows| - k
  {
    if k < |rows| {
      RowBegins(setup, rows, k, true);
      NothingAfterEmpty(setup, rows, k + 1);
      JoinedNothing(Some([]));
    }
  }

  /** A table over many rows gives the lists of the rows before the first reversed one, and nothing from
      there on: the mark of an empty range is never taken back. */
  lemma {:induction false} TableStopsAtReversed(setup: Setup, rows: seq<Row>, k: nat)
    requires setup.Valid() && k <= |rows| && forall i :: 0 <= i < |rows| ==>
             Accepted(rows[i]) && ListOf(setup, rows[i]).Some?
    ensures var r := FirstReversed(rows, k);
            Lists(setup, rows[..r], k).Some? && RestOfRows(setup, rows, k, false) == Lists(setup, rows[..r], k)
    decreases |rows| - k
  {
    var r := FirstReversed(rows, k);
    if k < |rows| {
      hide ListOf, RestOfRow;
      RowBegins(setup, rows, k, false);
      if r == k {
        NothingAfterEmpty(setup, rows, k + 1);
        ReversedIsEmpty(setup, rows[k]);
      } else {
        TableStopsAtReversed(setup, rows, k + 1);
        RowIsItsList(setup, rows[k]);
      }
    }
  }

  lemma ReversedIsEmpty(setup: Setup, row: Row)
    requires setup.Valid() && Accepted(row) && Reversed(row)
    ensures var p := ParamsOf(setup.inclusive, row, false);
            p.Some? && p.value.empty && Both(RestOfRow(setup, p.value, p.value.start), Some([])) == Some([])
    ensures ListOf(setup, row) == Some([])
  {
    JoinedNothing(Some([]));
  }

  lemma RowIsItsList(setup: Setup, row: Row)
    requires setup.Valid() && Accepted(row) && !Reversed(row) && ListOf(setup, row).Some?
    ensures var p := ParamsOf(setup.inclusive, row, false);
            p.Some? && !p.value.empty && RestOfRow(setup, p.value, p.value.start) == ListOf(setup, row)
  {
  }

  lemma {:induction false} ListsSplit(setup: Setup, rows: seq<Row>, k: nat, r: nat)
    requires setup.Valid() && k <= r <= |rows| && forall i :: 0 <= i < |rows| ==> ListOf(setup, rows[i]).Some?
    ensures Lists(setup, rows[..r], k).Some? && Lists(setup, rows, r).Some?
    ensures Lists(setup, rows, k) == Before(Lists(setup, rows[..r], k).value, Lists(setup, rows, r))
    decreases r - k, |rows| - k
  {
    hide ListOf;
    if k < r {
      ListsSplit(setup, rows, k + 1, r);
      BeforeBefore(ListOf(setup, rows[k]).value, Lists(setup, rows[..r], k + 1).value, Lists(setup, rows, r));
    } else {
      if r < |rows| { ListsSplit(setup, rows, r + 1, r + 1); }
      NothingBefore(Lists(setup, rows, r));
    }
  }

  /** Exactly when the table gives all the lists: when no row after the first reversed one has any values. */
  lemma TableIsLists(setup: Setup, rows: seq<Row>)
    requires setup.Valid() && forall i :: 0 <= i < |rows| ==> Accepted(rows[i]) && ListOf(setup, rows[i]).Some?
    ensures RestOfRows(setup, rows, 0, false) == Lists(setup, rows, 0) <==>
            Lists(setup, rows, FirstReversed(rows, 0)) == Some([])
  {
    hide ListOf, Lists, RestOfRows;
    var r := FirstReversed(rows, 0);
    TableStopsAtReversed(setup, rows, 0);
    ListsSplit(setup, rows, 0, r);
    var a, b := Lists(setup, rows[..r], 0).value, Lists(setup, rows, r).value;
    assert a + b == a ==> |a + b| == |a|;
    assert b == [] ==> a + b == a;
  }

  /** Adding microseconds, within the range of timestamps. */
  function AddMicros(t: int64, step: Interval): Option<int64> {
    if step.months == 0 && step.days == 0 && InRange(t + step.micros) then Some(t + step.micros) else None
  }

  lemma AddMicrosMoves(inclusive: bool)
    ensures Setup(AddMicros, inclusive).Valid()
  {
  }

  /** A reversed range followed by one that holds a single value: the list form has the value, the table
      form does not. */
  lemma TableLosesRows()
    ensures var setup := Setup(AddMicros, false);
            var step := Interval(0, 0, 1);
            var rows := [Row(1, 0, step), Row(0, 1, step)];
            && setup.Valid()
            && Lists(setup, rows, 0) == Some([0])
            && RestOfRows(setup, rows, 0, false) == Some([])
  {
    var setup := Setup(AddMicros, false);
    var step := Interval(0, 0, 1);
    var rows := [Row(1, 0, step), Row(0, 1, step)];
    AddMicrosMoves(false);
    OneValue(setup);
    assert Reversed(rows[0]) && FirstReversed(rows, 0) == 0;
    TableStopsAtReversed(setup, rows, 0);
    assert rows[..0] == [];
    assert ListOf(setup, rows[0]) == Some([]);
    assert [0] + [] == [0] && [] + [0] == [0];
    assert Lists(setup, rows, 2) == Some([]);
    assert Lists(setup, rows, 1) == Some([0]);
  }

  lemma OneValue(setup: Setup)
    requires setup == Setup(AddMicros, false) && setup.Valid()
    ensures ListOf(setup, Row(0, 1, Interval(0, 0, 1))) == Some([0])
  {
    var step := Interval(0, 0, 1);
    assert Elements(setup, 1, 1, step) == Some([]);
    assert Elements(setup, 0, 1, step) == Before([0], Elements(setup, 1, 1, step));
    assert [0] + [] == [0];
  }
}
