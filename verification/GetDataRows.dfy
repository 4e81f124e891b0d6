/**
  Which runs of fetches and reads read only rows of the chunk.
*/
module GetDataRows {
  import opened Common
  import opened Fetch
  import opened FetchRuns
  import opened FetchRowByRow
  import opened GetData
  import opened GetDataRuns

  /** A fetch forward, with bound columns or of a single row, or a read. */
  predicate Careful(event: Event) {
    event.Fetch? ==> event.orientation == Next && (event.columns.Some? || event.rowset == 1)
  }

  predicate AllCareful(events: seq<Event>) {
    forall i :: 0 <= i < |events| ==> Careful(events[i])
  }

  /** The cursor is in the chunk pulled last, and if anything can be read, on a row of it. */
  ghost predicate Settled<R>(s: Cursor<R>) {
    AtFront(s) && (s.open && s.currentChunk.Some? ==> s.OnRow())
  }

  lemma SettledAlike<R>(s: Cursor<R>, t: Cursor<R>)
    requires s.(last := t.last) == t && Settled(s)
    ensures Settled(t)
  {
  }

  /** Behind the last row of the last chunk the cursor is on that row. */
  lemma EndSettled<R>(t: Cursor<R>)
    requires AtFront(t) && Remaining(t) == []
    ensures Settled(t)
  {
    if t.chunks != [] {
      assert t.chunks[t.currentChunkIdx] in t.chunks;
      assert |Remaining(t)| == |Buffered(t)| + |Source(t)|;
    }
    hide Source;
  }

  lemma BoundSettles<R>(s: Cursor<R>, rowset: nat)
    requires AtFront(s) && s.open && rowset > 0
    ensures s.Valid() && Settled(FetchBound(s, Next, rowset).0)
  {
    FrontIsValid(s);
    NextDelivers(s, rowset);
    BoundLands(s, Next, rowset);
    var (t, ret, rows) := FetchBound(s, Next, rowset);
    hide FetchBound, AtFront, Remaining, Whole, EndsWith, Cursor.OnRow, Cursor.Valid;
    if rows == [] {
      assert [] + Remaining(t) == Remaining(t);
      EndSettled(t);
    }
  }

  /** After such a fetch the cursor is on a row, or nothing can be read. */
  lemma FetchSettles<R>(s: Cursor<R>, values: Values, event: Event)
    requires AtFront(s) && event.Fetch? && Careful(event)
    ensures s.Valid() && Settled(Step(s, values, event).0)
  {
    FrontIsValid(s);
    hide AtFront, Settled, Move, FetchBound, FetchUnbound, Cursor.Valid, RowsetAfter;
    if s.open {
      var rowset := event.rowset;
      BoundSettles(s, rowset);
      StepMoves(s, values, event);
      if event.columns.None? { NextRowIsFetch(s); }
      SettledAlike(FetchBound(s, Next, rowset).0, Step(s, values, event).0);
    } else {
      ClosedSettled(s);
    }
  }

  lemma ClosedSettled<R>(s: Cursor<R>)
    requires AtFront(s) && !s.open
    ensures Settled(s)
  {
  }

  lemma ReadSettles<R>(s: Cursor<R>, values: Values, event: Event)
    requires Settled(s) && event.Read?
    ensures s.Valid() && !ReadsOffRow(s, event)
    ensures Settled(Step(s, values, event).0) && OffRow !in Step(s, values, event).1
  {
    FrontIsValid(s);
    var t := Step(s, values, event).0;
    SettledAlike(s, t);
    hide Settled, AtFront;
  }

  lemma {:induction false} ColumnsOnRow<R>(s: Cursor<R>, values: Values, columns: Columns)
    ensures OffRow !in ReadColumns(s, values, columns).1
    decreases |columns|
  {
    hide NextPart;
    if columns != [] { ColumnsOnRow(ReadCell(s, values, columns[0].0, columns[0].1).0, values, columns[1..]); }
  }

  lemma {:induction false} RowsOnRow<R>(s: Cursor<R>, values: Values, columns: Columns, n: nat)
    ensures OffRow !in ReadRows(s, values, columns, n).1
    decreases n
  {
    hide ReadColumns;
    if n > 0 {
      var next := s.(chunkRow := s.chunkRow + 1);
      ColumnsOnRow(next, values, columns);
      RowsOnRow(ReadColumns(next, values, columns).0, values, columns, n - 1);
    }
  }

  lemma FetchOnRow<R>(s: Cursor<R>, values: Values, event: Event)
    requires s.Valid() && event.Fetch?
    ensures OffRow !in Step(s, values, event).1
  {
    hide Move, RowsetAfter, ReadRows;
    if s.open {
      var (t, ret) := Move(s, event.orientation, event.rowset);
      if ret == Success && event.columns.Some? {
        RowsOnRow(t, values, event.columns.value, |RowsetAfter(t, event.rowset)|);
      }
    }
  }

  /** A run that starts with a fetch, or on a row, and moves carefully never reads beside a row. */
  lemma {:induction false} CarefulRunsStayOnRows<R>(s: Cursor<R>, values: Values, events: seq<Event>)
    requires AtFront(s) && AllCareful(events)
    requires Settled(s) || (events != [] && events[0].Fetch?)
    ensures s.Valid() && OffRow !in Run(s, values, events).1
    decreases |events|
  {
    hide Step, Settled, AtFront, Careful, ReadsOffRow;
    FrontIsValid(s);
    if events != [] {
      var event := events[0];
      assert Careful(event);
      if event.Fetch? {
        FetchSettles(s, values, event);
        FetchOnRow(s, values, event);
      } else {
        ReadSettles(s, values, event);
      }
      SettledAtFront(Step(s, values, event).0);
      CarefulRunsStayOnRows(Step(s, values, event).0, values, events[1..]);
    }
  }

  lemma SettledAtFront<R>(s: Cursor<R>)
    requires Settled(s)
    ensures AtFront(s)
  {
  }

  /** Two fetches of two rows without bound columns on a chunk of three rows, and a read: it is beside the
      rows, though both fetches succeed (`FetchRowByRow.UnboundLeavesChunk`). */
  lemma ReadBesideRows<R>(rows: seq<R>, values: Values, buffer: Buffer)
    requires |rows| == 3
    ensures var s := AfterExecution(Executed(ForwardOnly, [Chunk(rows)])).0;
            var skip := Fetch(Next, 2, None);
            s.Valid() && Run(s, values, [skip, skip, Read(0, buffer)]).1 == [OffRow]
  {
    var s := AfterExecution(Executed(ForwardOnly, [Chunk(rows)])).0;
    var skip := Fetch(Next, 2, None);
    UnboundLeavesChunk(rows);
    hide AfterExecution, Executed, Cursor.OnRow, NextPart, Move;
    var t := Step(s, values, skip).0;
    var u := Step(t, values, skip).0;
    assert [skip, skip, Read(0, buffer)][1..] == [skip, Read(0, buffer)];
    assert [skip, Read(0, buffer)][1..] == [Read(0, buffer)];
    assert Run(u, values, [Read(0, buffer)]).1 == [OffRow];
  }
}
