/**
  Fetches without bound columns: the cursor is moved over a rowset without looking at the chunk.
*/
module FetchRowByRow {
  import opened Common
  import opened Fetch
  import opened FetchRuns

  /** A fetch without bound columns that succeeds leaves the cursor on a row exactly if the chunk is long
      enough, counted from the place the move has reached. */
  lemma UnboundLandsExactly<R>(s: Cursor<R>, orientation: Orientation, rowset: nat)
    requires s.Valid() && rowset > 0 && Move(s, orientation, rowset).1 == Success
    ensures var t, (u, ret) := Move(s, orientation, rowset).0, FetchUnbound(s, orientation, rowset);
            ret == Success && t.currentChunk.Some? && (u.OnRow() <==> t.chunkRow + rowset < |t.currentChunk.value|)
  {
    hide Move;
  }

  /** A fetch with bound columns that delivers rows leaves it on the last of them. */
  lemma BoundLands<R>(s: Cursor<R>, orientation: Orientation, rowset: nat)
    requires s.Valid() && rowset > 0
    ensures var (u, ret, rows) := FetchBound(s, orientation, rowset);
            rows != [] ==> u.OnRow() && u.currentChunk.value[u.chunkRow] == rows[|rows| - 1]
  {
    hide Move;
    var (t, ret) := Move(s, orientation, rowset);
    if ret == Success { RowsetIs(t, rowset); }
    hide RowsetAfter;
  }

  // ----- row by row ------------------------------------------------------------------------------

  /** SQLFetch without bound columns and with rowset size one, and the row it stops at. */
  function NextRow<R>(s: Cursor<R>): (r: (Cursor<R>, Return, seq<R>))
    requires s.Valid()
    ensures r.0.Valid()
  {
    if !s.open then (s, NoData, [])
    else
      var (t, ret) := FetchUnbound(s, Next, 1);
      (t, ret, if ret == Success && t.OnRow() then [t.currentChunk.value[t.chunkRow]] else [])
  }

  function Walk<R>(s: Cursor<R>, n: nat): (r: (Cursor<R>, seq<(Return, seq<R>)>))
    requires s.Valid()
    ensures r.0.Valid()
    decreases n
  {
    if n == 0 then (s, [])
    else
      var (t, ret, rows) := NextRow(s);
      var (end, rest) := Walk(t, n - 1);
      (end, [(ret, rows)] + rest)
  }

  /** In the chunk pulled last a row is left to move to, so bound columns make no difference. */
  lemma NextRowIsFetch<R>(s: Cursor<R>)
    requires AtFront(s)
    ensures s.Valid() && NextRow(s) == FetchStmt(s, Next, 1)
  {
    FrontIsValid(s);
    if s.open {
      MoveNextFront(s);
      var (t, ret) := MoveNext(s);
      if ret == Success {
        FrontIsCurrent(t);
        OneRow(t);
      }
    }
    hide MoveNext, AtFront, Remaining, RowsetAfter;
  }

  function Singles(n: nat): (calls: seq<(Orientation, nat)>)
    ensures |calls| == n && forall i :: 0 <= i < n ==> calls[i] == (Next, 1)
  {
    if n == 0 then [] else [(Next, 1)] + Singles(n - 1)
  }

  lemma {:induction false} SinglesReadForward(n: nat)
    ensures ReadsForward(Singles(n))
  {
    if n > 0 {
      SinglesReadForward(n - 1);
      assert Singles(n)[1..] == Singles(n - 1);
    }
  }

  lemma StaysAtFront<R>(s: Cursor<R>)
    requires AtFront(s)
    ensures s.Valid() && AtFront(FetchStmt(s, Next, 1).0)
  {
    FrontIsValid(s);
    if s.open { NextDelivers(s, 1); }
    hide FetchBound, AtFront, EndsWith, Remaining, Whole;
  }

  lemma {:induction false} WalkIsFetches<R>(s: Cursor<R>, n: nat)
    requires AtFront(s)
    ensures s.Valid() && Walk(s, n) == Fetches(s, Singles(n))
    decreases n
  {
    hide NextRow, FetchStmt, AtFront, Cursor.Valid;
    FrontIsValid(s);
    if n > 0 {
      NextRowIsFetch(s);
      StaysAtFront(s);
      WalkIsFetches(FetchStmt(s, Next, 1).0, n - 1);
      assert Singles(n)[1..] == Singles(n - 1);
    }
  }

  /** Row by row a forward run stops at every row of the result once, in order, and then reports the end. */
  lemma WalkVisitsEveryRow<R>(cursorType: CursorType, result: seq<Pulled<R>>, n: nat)
    requires n > |Upcoming(result)| && (result == [] || result[0] != QueryError)
    ensures var s := AfterExecution(Executed(cursorType, result)).0;
            && s.Valid()
            && Delivered(Walk(s, n).1) == Upcoming(result) && SucceedsUntilEnd(Walk(s, n).1)
  {
    hide AfterExecution, Executed, Walk, Fetches, Upcoming, Delivered, SucceedsUntilEnd, ReadsForward, AtFront;
    Begin(cursorType, result);
    var s := AfterExecution(Executed(cursorType, result)).0;
    WalkIsFetches(s, n);
    SinglesReadForward(n);
    WholeResultForward(cursorType, result, Singles(n));
  }

  // ----- several rows at a time ------------------------------------------------------------------

  /** Three rows in one chunk, two fetches of two rows without bound columns: both succeed, and the second
      leaves the cursor behind the last row. */
  lemma UnboundLeavesChunk<R>(rows: seq<R>)
    requires |rows| == 3
    ensures var s := AfterExecution(Executed(ForwardOnly, [Chunk(rows)])).0;
            && s.Valid()
            && var (t, first) := FetchUnbound(s, Next, 2);
            && first == Success && t.OnRow()
            && var (u, second) := FetchUnbound(t, Next, 2);
            && second == Success && u.chunkRow == 3 && u.currentChunk == Some(rows) && u.open && !u.OnRow()
  {
    var s := AfterExecution(Executed(ForwardOnly, [Chunk(rows)])).0;
    assert [Chunk(rows)][1..] == [];
    assert s == Cursor(ForwardOnly, [rows], 0, Some(rows), -1, -1, false, NOTHING_FETCHED, true, []);
    hide AfterExecution, Executed;
  }

  /** Four rows in one chunk, fetched two at a time with bound columns: the third and the fourth land behind
      the client's two places. */
  lemma SecondRowsetIsMisplaced<R>(rows: seq<R>, places: seq<nat>)
    requires |rows| == 4 && |places| == 2
    ensures var s := AfterExecution(Executed(ForwardOnly, [Chunk(rows)])).0;
            && s.Valid()
            && var t := FetchBound(s, Next, 2).0;
            && var (u, ret) := Move(t, Next, 2);
            && ret == Success && u.currentChunk == Some(rows) && u.chunkRow == 1 && |RowsetAfter(u, 2)| == 2
            && (Placed(places, 2, u.chunkRow + 1) ==> places == [2, 3])
  {
    var s := AfterExecution(Executed(ForwardOnly, [Chunk(rows)])).0;
    assert [Chunk(rows)][1..] == [];
    assert s == Cursor(ForwardOnly, [rows], 0, Some(rows), -1, -1, false, NOTHING_FETCHED, true, []);
    hide AfterExecution, Executed;
  }
}
