/**
  Runs of fetches and reads with a forward-only cursor, with one type for each column, and runs that go
  wrong.
*/
module GetDataCursors {
  import opened Common
  import opened Fetch
  import FetchRuns
  import opened GetData
  import opened GetDataRuns

  // ----- no overrun without crossing -------------------------------------------------------------

  /** A mark is not beyond the end of its value. */
  predicate Inside(mark: Bookmark, values: Values) {
    mark.ReadUpTo? ==>
      var value := values(mark.cell, mark.ctype);
      value.Some? && mark.offset <= |value.value|
  }

  predicate NoOverrun(readings: seq<Reading>) {
    forall i :: 0 <= i < |readings| && readings[i].Handed? ==> readings[i].outcome.Part?
  }

  lemma NoOverrunTogether(a: seq<Reading>, b: seq<Reading>)
    requires NoOverrun(a) && NoOverrun(b)
    ensures NoOverrun(a + b)
  {
  }

  lemma PartStaysInside(value: Bytes, offset: Size, buffer: Buffer)
    requires offset <= |value|
    ensures NextPart(value, offset, buffer).Part? && OffsetAfter(value, offset, buffer) <= |value|
  {
    OverrunExactly(value, offset, buffer);
  }

  lemma StaysInside(mark: Bookmark, values: Values, visit: Visit)
    requires Inside(mark, values)
    ensures NoOverrun(IdealReads(mark, values, visit)) && Inside(MarkAfter(mark, values, visit), values)
  {
    hide NextPart, OffsetAfter;
    if visit.At? && values(visit.cell, visit.buffer.ctype).Some? {
      var value := values(visit.cell, visit.buffer.ctype).value;
      PartStaysInside(value, OffsetIn(mark, visit.cell, visit.buffer.ctype), visit.buffer);
    }
  }

  lemma {:induction false} IdealNeverOverruns(mark: Bookmark, values: Values, visits: seq<Visit>)
    requires Inside(mark, values)
    ensures NoOverrun(Ideal(mark, values, visits))
    decreases |visits|
  {
    hide IdealReads, MarkAfter, Inside, NoOverrun;
    if visits == [] {
      NothingOverrun();
    } else {
      var next := MarkAfter(mark, values, visits[0]);
      StaysInside(mark, values, visits[0]);
      IdealNeverOverruns(next, values, visits[1..]);
      NoOverrunTogether(IdealReads(mark, values, visits[0]), Ideal(next, values, visits[1..]));
    }
  }

  lemma NothingOverrun()
    ensures NoOverrun([])
  {
  }

  // ----- forward-only cursors --------------------------------------------------------------------

  /** Some of the cell has been handed out, and it is read on as a different type. */
  predicate Switches(mark: Bookmark, cell: Cell, ctype: CType) {
    mark.ReadUpTo? && mark.offset > 0 && mark.cell == cell && mark.ctype != ctype
  }

  /** No cell is read on as a different type. */
  predicate NeverSwitches(mark: Bookmark, values: Values, visits: seq<Visit>) {
    Never(Switches, mark, values, visits)
  }

  /** The marked cell, if any, lies in the chunk. */
  predicate MarkedIn(mark: Bookmark, chunk: nat) {
    mark.ReadUpTo? ==> mark.cell.chunk == chunk
  }

  function MarkAfterAll(mark: Bookmark, values: Values, visits: seq<Visit>): Bookmark
    decreases |visits|
  {
    if visits == [] then mark else MarkAfterAll(MarkAfter(mark, values, visits[0]), values, visits[1..])
  }

  lemma {:induction false} NeverConcat(bad: (Bookmark, Cell, CType) -> bool, mark: Bookmark, values: Values,
                                       a: seq<Visit>, b: seq<Visit>)
    ensures Never(bad, mark, values, a + b) <==>
            Never(bad, mark, values, a) && Never(bad, MarkAfterAll(mark, values, a), values, b)
    ensures MarkAfterAll(mark, values, a + b) == MarkAfterAll(MarkAfterAll(mark, values, a), values, b)
    decreases |a|
  {
    hide MarkAfter, BadVisit;
    if a == [] {
      assert a + b == b;
    } else {
      assert (a + b)[1..] == a[1..] + b;
      NeverConcat(bad, MarkAfter(mark, values, a[0]), values, a[1..], b);
    }
  }

  /** Among these visits the only crossings are switches of the type, and afterwards the mark lies in the
      chunk. */
  ghost predicate CrossesBySwitching(mark: Bookmark, values: Values, visits: seq<Visit>, chunk: nat) {
    && (NeverCrosses(mark, values, visits) <==> NeverSwitches(mark, values, visits))
    && MarkedIn(MarkAfterAll(mark, values, visits), chunk)
  }

  lemma CrossesTogether(mark: Bookmark, values: Values, a: seq<Visit>, chunk: nat, b: seq<Visit>, end: nat)
    requires CrossesBySwitching(mark, values, a, chunk)
    requires CrossesBySwitching(MarkAfterAll(mark, values, a), values, b, end)
    ensures CrossesBySwitching(mark, values, a + b, end)
  {
    NeverConcat(Crosses, mark, values, a, b);
    NeverConcat(Switches, mark, values, a, b);
    hide Never, MarkAfterAll, MarkedIn;
  }

  /** Cells of one chunk. */
  predicate AllIn(visits: seq<Visit>, chunk: nat) {
    forall i :: 0 <= i < |visits| ==> visits[i].Missed? || (visits[i].At? && visits[i].cell.chunk == chunk)
  }

  lemma {:induction false} OneChunk(mark: Bookmark, values: Values, visits: seq<Visit>, chunk: nat)
    requires MarkedIn(mark, chunk) && AllIn(visits, chunk)
    ensures CrossesBySwitching(mark, values, visits, chunk)
    decreases |visits|
  {
    hide OffsetAfter;
    if visits != [] {
      assert visits[0].Missed? || (visits[0].At? && visits[0].cell.chunk == chunk);
      OneChunk(MarkAfter(mark, values, visits[0]), values, visits[1..], chunk);
    }
  }

  lemma AskedForgets(mark: Bookmark, values: Values, chunk: nat)
    ensures CrossesBySwitching(mark, values, [Asked], chunk) && MarkAfterAll(mark, values, [Asked]) == Nothing
  {
    assert [Asked][1..] == [];
  }

  lemma {:induction false} ColumnsInChunk<R>(s: Cursor<R>, columns: Columns)
    ensures AllIn(ColumnVisits(s, columns), CurrentChunk(s))
    decreases |columns|
  {
    if columns != [] { ColumnsInChunk(s, columns[1..]); }
  }

  lemma {:induction false} RowsInChunk<R>(s: Cursor<R>, columns: Columns, n: nat)
    ensures AllIn(RowVisits(s, columns, n), CurrentChunk(s))
    decreases n
  {
    if n > 0 {
      ColumnsInChunk(s.(chunkRow := s.chunkRow + 1), columns);
      RowsInChunk(s.(chunkRow := s.chunkRow + 1), columns, n - 1);
    }
  }

  /** A forward-only cursor changes its chunk only by asking for one. */
  lemma ForwardMove<R>(s: Cursor<R>, orientation: Orientation, rowset: Rowset)
    requires s.Valid() && s.open && s.cursorType == ForwardOnly
    ensures var t := Move(s, orientation, rowset).0;
            t.cursorType == ForwardOnly && (!AsksForChunk(s, orientation) ==> |t.pending| == |s.pending|)
  {
  }

  lemma ForwardFetch<R>(s: Cursor<R>, mark: Bookmark, values: Values, orientation: Orientation, rowset: Rowset,
                        columns: Option<Columns>)
    requires s.Valid() && s.open && s.cursorType == ForwardOnly && MarkedIn(mark, |s.pending|)
    ensures var event := Fetch(orientation, rowset, columns);
            var t := Step(s, values, event).0;
            t.cursorType == ForwardOnly && CrossesBySwitching(mark, values, StepVisits(s, event), |t.pending|)
  {
    hide Move, RowsetAfter, CrossesBySwitching, AsksForChunk, RowVisits;
    var (t, ret) := Move(s, orientation, rowset);
    ForwardMove(s, orientation, rowset);
    var rows := if ret != Success || columns.None? then [] else RowVisits(t, columns.value, |RowsetAfter(t, rowset)|);
    if ret == Success && columns.Some? { RowsInChunk(t, columns.value, |RowsetAfter(t, rowset)|); }
    if AsksForChunk(s, orientation) {
      AskedForgets(mark, values, |t.pending|);
      OneChunk(Nothing, values, rows, |t.pending|);
      CrossesTogether(mark, values, [Asked], |t.pending|, rows, |t.pending|);
    } else {
      assert [] + rows == rows;
      OneChunk(mark, values, rows, |t.pending|);
    }
  }

  lemma ForwardStep<R>(s: Cursor<R>, mark: Bookmark, values: Values, event: Event)
    requires s.Valid() && s.cursorType == ForwardOnly && MarkedIn(mark, |s.pending|)
    ensures var t := Step(s, values, event).0;
            t.cursorType == ForwardOnly && CrossesBySwitching(mark, values, StepVisits(s, event), |t.pending|)
  {
    hide CrossesBySwitching, Move, RowsetAfter, RowVisits, ReadRows;
    if event.Fetch? && s.open {
      ForwardFetch(s, mark, values, event.orientation, event.rowset, event.columns);
    } else {
      OneChunk(mark, values, StepVisits(s, event), |s.pending|);
    }
  }

  lemma {:induction false} ForwardCrosses<R>(s: Cursor<R>, mark: Bookmark, values: Values, events: seq<Event>)
    requires s.Valid() && s.cursorType == ForwardOnly && MarkedIn(mark, |s.pending|)
    ensures var visits := Visits(s, values, events);
            NeverCrosses(mark, values, visits) <==> NeverSwitches(mark, values, visits)
    decreases |events|
  {
    hide Step, StepVisits, NeverCrosses, NeverSwitches, MarkAfterAll, ReadsOffRow;
    if events == [] {
      OneChunk(mark, values, [], |s.pending|);
    } else {
      var first := StepVisits(s, events[0]);
      ForwardStep(s, mark, values, events[0]);
      if !ReadsOffRow(s, events[0]) {
        var t := Step(s, values, events[0]).0;
        var next := MarkAfterAll(mark, values, first);
        ForwardCrosses(t, next, values, events[1..]);
        CrossingsConcat(mark, values, first, Visits(t, values, events[1..]));
      }
    }
  }

  lemma CrossingsConcat(mark: Bookmark, values: Values, a: seq<Visit>, b: seq<Visit>)
    ensures NeverCrosses(mark, values, a + b) <==>
            NeverCrosses(mark, values, a) && NeverCrosses(MarkAfterAll(mark, values, a), values, b)
    ensures NeverSwitches(mark, values, a + b) <==>
            NeverSwitches(mark, values, a) && NeverSwitches(MarkAfterAll(mark, values, a), values, b)
  {
    NeverConcat(Crosses, mark, values, a, b);
    NeverConcat(Switches, mark, values, a, b);
  }

  /** With a forward-only cursor, whatever is fetched and read, bound or not: every value is read from its
      own offset exactly if none is read on as a different type, and then nothing is read beyond a value. */
  lemma OffsetsStayWithTheirCell<R>(s: Cursor<R>, mark: Bookmark, values: Values, events: seq<Event>)
    requires s.Valid() && s.cursorType == ForwardOnly
    requires Agrees(s.last, mark) && MarkedIn(mark, |s.pending|) && Inside(mark, values)
    ensures var visits, readings := Visits(s, values, events), Run(s, values, events).1;
            && (readings == Ideal(mark, values, visits) <==> NeverSwitches(mark, values, visits))
            && (NeverSwitches(mark, values, visits) ==> NoOverrun(readings))
  {
    hide Run, Ideal, NeverCrosses, NeverSwitches, Visits, Agrees, Inside;
    RunIsRightExactly(s, mark, values, events);
    ForwardCrosses(s, mark, values, events);
    IdealNeverOverruns(mark, values, Visits(s, values, events));
  }

  // ----- one type for each column ----------------------------------------------------------------

  /** Every column is bound and read as its own type. */
  ghost predicate Typed(events: seq<Event>, typeOf: int -> CType) {
    forall i :: 0 <= i < |events| ==> TypedEvent(events[i], typeOf)
  }

  ghost predicate TypedEvent(event: Event, typeOf: int -> CType) {
    match event
    case Read(col, buffer) => buffer.ctype == typeOf(col)
    case Fetch(_, _, columns) => columns.Some? ==> TypedColumns(columns.value, typeOf)
  }

  ghost predicate TypedColumns(columns: Columns, typeOf: int -> CType) {
    forall i :: 0 <= i < |columns| ==> columns[i].1.ctype == typeOf(columns[i].0)
  }

  ghost predicate TypedVisits(visits: seq<Visit>, typeOf: int -> CType) {
    forall i :: 0 <= i < |visits| && visits[i].At? ==> visits[i].buffer.ctype == typeOf(visits[i].cell.col)
  }

  lemma TypedTogether(a: seq<Visit>, b: seq<Visit>, typeOf: int -> CType)
    requires TypedVisits(a, typeOf) && TypedVisits(b, typeOf)
    ensures TypedVisits(a + b, typeOf)
  {
  }

  lemma {:induction false} ColumnsTyped<R>(s: Cursor<R>, columns: Columns, typeOf: int -> CType)
    requires TypedColumns(columns, typeOf)
    ensures TypedVisits(ColumnVisits(s, columns), typeOf)
    decreases |columns|
  {
    if columns != [] {
      assert columns[0].1.ctype == typeOf(columns[0].0);
      ColumnsTyped(s, columns[1..], typeOf);
      TypedTogether([At(CurrentCell(s, columns[0].0), columns[0].1)], ColumnVisits(s, columns[1..]), typeOf);
    }
  }

  lemma {:induction false} RowsTyped<R>(s: Cursor<R>, columns: Columns, n: nat, typeOf: int -> CType)
    requires TypedColumns(columns, typeOf)
    ensures TypedVisits(RowVisits(s, columns, n), typeOf)
    decreases n
  {
    hide TypedColumns, ColumnVisits;
    if n == 0 {
      NothingTyped(typeOf);
    } else {
      var t := s.(chunkRow := s.chunkRow + 1);
      ColumnsTyped(t, columns, typeOf);
      RowsTyped(t, columns, n - 1, typeOf);
      TypedTogether(ColumnVisits(t, columns), RowVisits(t, columns, n - 1), typeOf);
    }
  }

  lemma NothingTyped(typeOf: int -> CType)
    ensures TypedVisits([], typeOf) && TypedVisits([Asked], typeOf)
  {
  }

  lemma StepTyped<R>(s: Cursor<R>, event: Event, typeOf: int -> CType)
    requires s.Valid() && TypedEvent(event, typeOf)
    ensures TypedVisits(StepVisits(s, event), typeOf)
  {
    hide Move, RowsetAfter, AsksForChunk, RowVisits, TypedColumns;
    if event.Fetch? && s.open {
      NothingTyped(typeOf);
      var asked := if AsksForChunk(s, event.orientation) then [Asked] else [];
      var (t, ret) := Move(s, event.orientation, event.rowset);
      if ret == Success && event.columns.Some? {
        var rows := RowVisits(t, event.columns.value, |RowsetAfter(t, event.rowset)|);
        RowsTyped(t, event.columns.value, |RowsetAfter(t, event.rowset)|, typeOf);
        TypedTogether(asked, rows, typeOf);
      } else {
        TypedTogether(asked, [], typeOf);
      }
    }
  }

  lemma {:induction false} RunTyped<R>(s: Cursor<R>, values: Values, events: seq<Event>, typeOf: int -> CType)
    requires s.Valid() && Typed(events, typeOf)
    ensures TypedVisits(Visits(s, values, events), typeOf)
    decreases |events|
  {
    hide Step, StepVisits, TypedEvent, TypedVisits, ReadsOffRow;
    if events == [] {
      NothingTyped(typeOf);
    } else {
      assert TypedEvent(events[0], typeOf);
      StepTyped(s, events[0], typeOf);
      if !ReadsOffRow(s, events[0]) {
        var t := Step(s, values, events[0]).0;
        RunTyped(t, values, events[1..], typeOf);
        TypedTogether(StepVisits(s, events[0]), Visits(t, values, events[1..]), typeOf);
      }
    }
  }

  lemma {:induction false} TypedNeverSwitches(mark: Bookmark, values: Values, visits: seq<Visit>, typeOf: int -> CType)
    requires TypedVisits(visits, typeOf) && (mark.ReadUpTo? ==> mark.ctype == typeOf(mark.cell.col))
    ensures NeverSwitches(mark, values, visits)
    decreases |visits|
  {
    hide OffsetAfter, OffsetIn;
    if visits != [] {
      assert visits[0].At? ==> visits[0].buffer.ctype == typeOf(visits[0].cell.col);
      TypedNeverSwitches(MarkAfter(mark, values, visits[0]), values, visits[1..], typeOf);
    }
  }

  /** From the execution of a forward-only statement on, a client that gives every column one type gets
      every value from the right offset. */
  lemma TypedRunsAreRight<R>(result: seq<Pulled<R>>, values: Values, events: seq<Event>, typeOf: int -> CType)
    requires Typed(events, typeOf)
    ensures var s := AfterExecution(Executed(ForwardOnly, result)).0;
            && s.Valid() && Run(s, values, events).1 == Ideal(Nothing, values, Visits(s, values, events))
            && NoOverrun(Run(s, values, events).1)
  {
    hide Run, Ideal, NeverSwitches, Visits, NoOverrun;
    FetchRuns.Begin(ForwardOnly, result);
    NothingSaved(ForwardOnly, result);
    var s := AfterExecution(Executed(ForwardOnly, result)).0;
    hide Cursor.Valid;
    RunTyped(s, values, events, typeOf);
    TypedNeverSwitches(Nothing, values, Visits(s, values, events), typeOf);
    OffsetsStayWithTheirCell(s, Nothing, values, events);
  }

  // ----- runs that go wrong ----------------------------------------------------------------------

  const FORWARD := Fetch(Next, 1, None)

  lemma RunStep<R>(s: Cursor<R>, values: Values, event: Event, rest: seq<Event>)
    requires s.Valid() && !ReadsOffRow(s, event)
    ensures var (t, readings) := Step(s, values, event);
            Run(s, values, [event] + rest).1 == readings + Run(t, values, rest).1
  {
    assert ([event] + rest)[1..] == rest;
  }

  /** Every cell holds the same value. */
  function SameEverywhere(value: CType -> Bytes): Values {
    (cell: Cell, ctype: CType) => Some(value(ctype))
  }

  /** A forward-only cursor on the only row of its result. */
  function OnlyRow<R>(a: R, last: LastFetched): Cursor<R> {
    Cursor(ForwardOnly, [[a]], 0, Some([a]), 0, -1, false, last, true, [])
  }

  lemma ToOnlyRow<R>(a: R, values: Values)
    ensures var s := AfterExecution(Executed(ForwardOnly, [Chunk([a])])).0;
            s.Valid() && Step(s, values, FORWARD) == (OnlyRow(a, NOTHING_FETCHED), [])
  {
    var s := AfterExecution(Executed(ForwardOnly, [Chunk([a])])).0;
    assert [Chunk([a])][1..] == [] && [] + [[a]] == [[a]];
    assert s == Cursor(ForwardOnly, [[a]], 0, Some([a]), -1, -1, false, NOTHING_FETCHED, true, []);
    hide AfterExecution, Executed;
  }

  lemma ReadOnlyRow<R>(a: R, last: LastFetched, value: CType -> Bytes, buffer: Buffer)
    ensures var s, offset := OnlyRow(a, last), SavedLength(last, 0, 0);
            && s.Valid() && s.OnRow()
            && Step(s, SameEverywhere(value), Read(0, buffer)) ==
               (OnlyRow(a, LastFetched(0, 0, OffsetAfter(value(buffer.ctype), offset, buffer))),
                [Handed(offset, NextPart(value(buffer.ctype), offset, buffer))])
  {
    hide NextPart;
  }

  /** One row of a forward-only cursor, read twice: the second read begins where the first one ended, whatever
      the two types are. */
  lemma TwoReads<R>(a: R, value: CType -> Bytes, first: Buffer, second: Buffer)
    ensures var s := AfterExecution(Executed(ForwardOnly, [Chunk([a])])).0;
            var offset := OffsetAfter(value(first.ctype), 0, first);
            && s.Valid()
            && Run(s, SameEverywhere(value), [FORWARD, Read(0, first), Read(0, second)]).1 ==
               [Handed(0, NextPart(value(first.ctype), 0, first)),
                Handed(offset, NextPart(value(second.ctype), offset, second))]
  {
    hide NextPart, OffsetAfter, Step, AfterExecution, Executed;
    var values := SameEverywhere(value);
    var s := AfterExecution(Executed(ForwardOnly, [Chunk([a])])).0;
    var t, last := OnlyRow(a, NOTHING_FETCHED), LastFetched(0, 0, OffsetAfter(value(first.ctype), 0, first));
    ToOnlyRow(a, values);
    ReadOnlyRow(a, NOTHING_FETCHED, value, first);
    ReadOnlyRow(a, last, value, second);
    assert [FORWARD] + [Read(0, first), Read(0, second)] == [FORWARD, Read(0, first), Read(0, second)];
    assert [Read(0, first)] + [Read(0, second)] == [Read(0, first), Read(0, second)];
    assert [Read(0, second)] + [] == [Read(0, second)];
    RunStep(s, values, FORWARD, [Read(0, first), Read(0, second)]);
    RunStep(t, values, Read(0, first), [Read(0, second)]);
    RunStep(OnlyRow(a, last), values, Read(0, second), []);
  }

  /** One byte of "ab" as SQL_C_CHAR, the rest as SQL_C_WCHAR: it begins inside the first unit. */
  lemma TypeSwitchMisreads<R>(a: R)
    ensures var s := AfterExecution(Executed(ForwardOnly, [Chunk([a])])).0;
            var events := [FORWARD, Read(0, Buffer(2, CharType)), Read(0, Buffer(10, WideType))];
            && s.Valid()
            && Run(s, SameEverywhere(TwoLetters()), events).1 ==
               [Handed(0, Part(SuccessWithInfo, [97])), Handed(1, Part(Success, [0, 98, 0]))]
  {
    hide *;
    LettersInParts();
    TwoReads(a, TwoLetters(), Buffer(2, CharType), Buffer(10, WideType));
  }

  lemma LettersInParts()
    ensures var narrow, wide := TwoLetters()(CharType), TwoLetters()(WideType);
            && NextPart(narrow, 0, Buffer(2, CharType)) == Part(SuccessWithInfo, [97])
            && OffsetAfter(narrow, 0, Buffer(2, CharType)) == 1
            && NextPart(wide, 1, Buffer(10, WideType)) == Part(Success, [0, 98, 0])
  {
    var narrow, wide := TwoLetters()(CharType), TwoLetters()(WideType);
    PartInside(narrow, 0, Buffer(2, CharType));
    PartInside(wide, 1, Buffer(10, WideType));
    assert narrow[0..1] == [97] && wide[1..] == [0, 98, 0];
    hide NextPart;
  }

  /** A text that begins with a NUL: its blob is empty. */
  function NulFirst(): CType -> Bytes {
    (ctype: CType) =>
      match ctype
      case CharType => [0, 65]
      case WideType => [0, 0, 65, 0]
      case BinaryType => []
  }

  /** One byte of it as SQL_C_CHAR, the next as SQL_C_BINARY: it lies beyond the value. */
  lemma TypeSwitchOverruns<R>(a: R)
    ensures var s := AfterExecution(Executed(ForwardOnly, [Chunk([a])])).0;
            var events := [FORWARD, Read(0, Buffer(2, CharType)), Read(0, Buffer(1, BinaryType))];
            && s.Valid()
            && Run(s, SameEverywhere(NulFirst()), events).1 ==
               [Handed(0, Part(SuccessWithInfo, [0])), Handed(1, Overrun(SuccessWithInfo, 1))]
  {
    hide *;
    NulInParts();
    TwoReads(a, NulFirst(), Buffer(2, CharType), Buffer(1, BinaryType));
  }

  lemma NulInParts()
    ensures var narrow, blob := NulFirst()(CharType), NulFirst()(BinaryType);
            && NextPart(narrow, 0, Buffer(2, CharType)) == Part(SuccessWithInfo, [0])
            && OffsetAfter(narrow, 0, Buffer(2, CharType)) == 1
            && NextPart(blob, 1, Buffer(1, BinaryType)) == Overrun(SuccessWithInfo, 1)
  {
    var narrow := NulFirst()(CharType);
    assert narrow[0..1] == [0];
  }

  // ----- a scrollable cursor can cross -----------------------------------------------------------

  /** An empty value in the first chunk, two bytes in the second. */
  function TwoValues(): Values {
    (cell: Cell, ctype: CType) => Some(if cell.chunk == 1 then [1, 2] else [])
  }

  const SMALL := Buffer(2, CharType)

  /** A scrollable cursor on two chunks of one row each. */
  function OnTwo<R>(a: R, b: R, idx: nat, row: int, prior: int, last: LastFetched): Cursor<R>
    requires idx < 2
  {
    Cursor(Scrollable, [[a], [b]], idx, Some([[a], [b]][idx]), row, prior, false, last, true, [])
  }

  lemma TwoForward<R>(a: R, b: R)
    ensures var s := AfterExecution(Executed(Scrollable, [Chunk([a]), Chunk([b])])).0;
            && s == Cursor(Scrollable, [[a]], 0, Some([a]), -1, -1, false, NOTHING_FETCHED, true, [Chunk([b])])
            && s.Valid()
            && var t := Step(s, TwoValues(), FORWARD).0;
            && Step(s, TwoValues(), FORWARD).1 == []
            && t.Valid() && Step(t, TwoValues(), FORWARD) == (OnTwo(a, b, 1, 0, -1, NOTHING_FETCHED), [])
  {
    assert [Chunk([a]), Chunk([b])][1..] == [Chunk([b])] && [Chunk([b])][1..] == [];
    assert [[a]] + [[b]] == [[a], [b]];
  }

  lemma ReadAndBack<R>(a: R, b: R)
    ensures var s := OnTwo(a, b, 1, 0, -1, NOTHING_FETCHED);
            && s.Valid() && s.OnRow()
            && Step(s, TwoValues(), Read(0, SMALL)) ==
               (OnTwo(a, b, 1, 0, -1, LastFetched(0, 0, 1)), [Handed(0, Part(SuccessWithInfo, [1]))])
    ensures var s := OnTwo(a, b, 1, 0, -1, LastFetched(0, 0, 1));
            && s.Valid()
            && Step(s, TwoValues(), Fetch(Prior, 1, None)) == (OnTwo(a, b, 0, 0, -1, LastFetched(0, 0, 1)), [])
  {
    assert [1, 2][0..1] == [1];
  }

  lemma ReadOver<R>(a: R, b: R)
    ensures var s := OnTwo(a, b, 0, 0, -1, LastFetched(0, 0, 1));
            && s.Valid() && s.OnRow()
            && Step(s, TwoValues(), Read(0, SMALL)).1 == [Handed(1, Overrun(SuccessWithInfo, 1))]
  {
  }

  /** From the execution on: two rows forward, one byte of the second, back to the first row, whose value
      is empty, and the offset of the other cell leads beyond it. */
  lemma OffsetCrossesChunks<R>(a: R, b: R)
    ensures var s := AfterExecution(Executed(Scrollable, [Chunk([a]), Chunk([b])])).0;
            s.Valid() &&
            Run(s, TwoValues(), [FORWARD, FORWARD, Read(0, SMALL), Fetch(Prior, 1, None), Read(0, SMALL)]).1 ==
            [Handed(0, Part(SuccessWithInfo, [1])), Handed(1, Overrun(SuccessWithInfo, 1))]
  {
    hide AfterExecution, Executed, Step, OnTwo, Cursor.Valid, Cursor.OnRow;
    TwoForward(a, b);
    ReadAndBack(a, b);
    ReadOver(a, b);
    var s := AfterExecution(Executed(Scrollable, [Chunk([a]), Chunk([b])])).0;
    var t := Step(s, TwoValues(), FORWARD).0;
    var u := OnTwo(a, b, 1, 0, -1, NOTHING_FETCHED);
    var v, w := OnTwo(a, b, 1, 0, -1, LastFetched(0, 0, 1)), OnTwo(a, b, 0, 0, -1, LastFetched(0, 0, 1));
    var read, back := Read(0, SMALL), Fetch(Prior, 1, None);
    assert [FORWARD] + [FORWARD, read, back, read] == [FORWARD, FORWARD, read, back, read];
    assert [FORWARD] + [read, back, read] == [FORWARD, read, back, read];
    assert [read] + [back, read] == [read, back, read] && [back] + [read] == [back, read] && [read] + [] == [read];
    RunStep(s, TwoValues(), FORWARD, [FORWARD, read, back, read]);
    RunStep(t, TwoValues(), FORWARD, [read, back, read]);
    RunStep(u, TwoValues(), read, [back, read]);
    RunStep(v, TwoValues(), back, [read]);
    RunStep(w, TwoValues(), read, []);
  }
}
