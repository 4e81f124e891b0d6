/**
  What whole sequences of fetches deliver.
*/
module FetchRuns {
  import opened Common
  import opened Fetch

  /** One call of SQLFetch or SQLFetchScroll with bound columns. */
  function FetchStmt<R>(s: Cursor<R>, orientation: Orientation, rowset: nat): (r: (Cursor<R>, Return, seq<R>))
    requires s.Valid() && rowset > 0
    ensures r.0.Valid()
  {
    if s.open then FetchBound(s, orientation, rowset) else (s, NoData, [])
  }

  // ----- reading forward -------------------------------------------------------------------------

  /** The rows of the chunks that the query result hands out before it ends or fails. */
  ghost function Upcoming<R>(pending: seq<Pulled<R>>): seq<R> {
    if pending == [] || pending[0] == Chunk([]) || pending[0].QueryError? then []
    else pending[0].rows + Upcoming(pending[1..])
  }

  /** The rows still to be pulled by this statement. */
  ghost function Source<R>(s: Cursor<R>): seq<R> {
    if s.resultsetEnd || !s.open then [] else Upcoming(s.pending)
  }

  /** The rows of the current chunk after the current row. */
  ghost function Buffered<R>(s: Cursor<R>): seq<R>
    requires s.InChunk()
  {
    if s.chunks == [] then [] else s.chunks[s.currentChunkIdx][s.chunkRow + 1..]
  }

  /** The cursor stands in the chunk pulled last. */
  ghost predicate AtFront<R>(s: Cursor<R>) {
    s.InChunk() && (s.chunks != [] ==> s.currentChunkIdx == |s.chunks| - 1)
  }

  /** The rows after the current one. */
  ghost function Remaining<R>(s: Cursor<R>): seq<R>
    requires AtFront(s)
  {
    Buffered(s) + Source(s)
  }

  /** The kept chunks and the rows not yet pulled, which together hold the whole result. */
  ghost function Whole<R>(s: Cursor<R>): seq<R> {
    Flatten(s.chunks) + Source(s)
  }

  /** Pulling at the end of the last chunk: nothing is lost, and a chunk becomes current if there is one. */
  lemma PullFront<R>(s: Cursor<R>)
    requires AtFront(s) && s.RequireFetch() && !s.resultsetEnd && s.open
    ensures var (t, ret) := Pull(s);
            && AtFront(t) && t.cursorType == s.cursorType
            && Buffered(s) == []
            && (ret == Success ==> t.open && t.chunks != [] && t.chunkRow == -1 && Source(s) == Buffered(t) + Source(t))
            && (ret == Success && s.cursorType != ForwardOnly ==>
                  t.chunks == s.chunks + [t.chunks[t.currentChunkIdx]] && Buffered(t) == t.chunks[t.currentChunkIdx])
            && (ret != Success ==> Source(s) == Source(t) == [] && t.chunks == s.chunks && t.chunkRow == s.chunkRow
                                   && t.priorChunkRow == s.priorChunkRow)
            && (ret == Success || ret == NoData || ret == Error)
            && (ret == NoData ==> t.resultsetEnd && t.open)
            && (ret == Error ==> !t.open)
  {
    if s.pending != [] && s.pending[0].Chunk? && s.pending[0].rows != [] {
      PullsChunk(s);
    } else {
      PullsNothing(s);
    }
    hide Pull, AtFront, Source;
  }

  lemma PullsNothing<R>(s: Cursor<R>)
    requires AtFront(s) && s.RequireFetch() && !s.resultsetEnd && s.open
    requires s.pending == [] || s.pending[0].QueryError? || s.pending[0].rows == []
    ensures var (t, ret) := Pull(s);
            && AtFront(t) && t.cursorType == s.cursorType && Buffered(s) == [] && Source(s) == Source(t) == []
            && t.chunks == s.chunks && t.chunkRow == s.chunkRow && t.priorChunkRow == s.priorChunkRow
            && (ret == NoData || ret == Error) && (ret == NoData ==> t.resultsetEnd && t.open)
            && (ret == Error ==> !t.open)
  {
  }

  /** The next chunk of the result becomes the current one. */
  lemma PullsChunk<R>(s: Cursor<R>)
    requires AtFront(s) && s.RequireFetch() && !s.resultsetEnd && s.open
    requires s.pending != [] && s.pending[0].Chunk? && s.pending[0].rows != []
    ensures var (t, ret) := Pull(s);
            var kept := if s.cursorType == ForwardOnly then [] else s.chunks;
            && ret == Success && AtFront(t) && t.open && t.chunkRow == -1 && t.cursorType == s.cursorType
            && t.chunks == kept + [s.pending[0].rows] && Buffered(t) == s.pending[0].rows && Buffered(s) == []
            && Source(s) == Buffered(t) + Source(t)
  {
    PullAtFront(s);
    assert Buffered(s) == [];
    hide Cursor.InChunk, Cursor.Valid;
    var t := Pull(s).0;
    assert t.chunks[t.currentChunkIdx] == s.pending[0].rows;
    assert t.chunks[t.currentChunkIdx][0..] == s.pending[0].rows;
  }

  lemma PullAtFront<R>(s: Cursor<R>)
    requires s.Valid() && !s.resultsetEnd && s.pending != [] && s.pending[0].Chunk? && s.pending[0].rows != []
    requires s.chunks != [] ==> s.currentChunkIdx == |s.chunks| - 1
    ensures AtFront(Pull(s).0) && Pull(s).1 == Success
  {
    PullValid(s);
  }

  /** What a move leaves, and when it succeeds. */
  ghost predicate MovesOn<R>(s: Cursor<R>, t: Cursor<R>, ret: Return)
    requires AtFront(s)
  {
    && AtFront(t) && t.cursorType == s.cursorType
    && Remaining(t) == Remaining(s)
    && (ret == Success <==> Remaining(s) != [])
    && (ret == Success ==> t.open && t.chunks != [] && t.chunkRow + 1 < |t.chunks[t.currentChunkIdx]|)
    && (ret == Success || ret == NoData || ret == Error)
    && (ret == NoData ==> t.resultsetEnd && t.open)
    && (ret == Error ==> !t.open)
    && (ret != Success ==> t.priorChunkRow == t.chunkRow)
  }

  lemma PullMovesOn<R>(s: Cursor<R>)
    requires AtFront(s) && s.RequireFetch() && !s.resultsetEnd && s.open && s.priorChunkRow == s.chunkRow
    ensures MovesOn(s, Pull(s).0, Pull(s).1)
  {
    hide Pull, Upcoming;
    PullFront(s);
    var (t, ret) := Pull(s);
    if ret == Success {
      FrontNotEmpty(t);
    } else {
      assert Buffered(t) == [];
    }
  }

  /** The current chunk is not empty. */
  lemma FrontNotEmpty<R>(t: Cursor<R>)
    requires AtFront(t) && t.chunks != [] && t.chunkRow == -1
    ensures |t.chunks[t.currentChunkIdx]| > 0 && Buffered(t) != []
  {
    assert t.chunks[t.currentChunkIdx] in t.chunks;
  }

  lemma SamePlace<R>(s: Cursor<R>)
    requires AtFront(s)
    ensures var t := s.(priorChunkRow := s.chunkRow);
            AtFront(t) && Remaining(t) == Remaining(s) && t.RequireFetch() == s.RequireFetch()
  {
  }

  lemma StayMovesOn<R>(s: Cursor<R>)
    requires AtFront(s) && s.open && !s.RequireFetch()
    ensures MovesOn(s, s, Success)
  {
    assert s.chunks[s.currentChunkIdx][s.chunkRow + 1..] != [];
  }

  lemma EndMovesOn<R>(s: Cursor<R>)
    requires AtFront(s) && s.open && s.RequireFetch() && s.resultsetEnd && s.priorChunkRow == s.chunkRow
    ensures MovesOn(s, s, NoData)
    ensures s.chunks == [] ==> Pull(s) == (s, NoData)
  {
    assert Buffered(s) == [];
  }

  lemma MoveNextFront<R>(s: Cursor<R>)
    requires AtFront(s) && s.open
    ensures MovesOn(s, MoveNext(s).0, MoveNext(s).1)
  {
    hide AtFront, Remaining, Pull, Cursor.RequireFetch, Cursor.InChunk;
    var t := s.(priorChunkRow := s.chunkRow);
    SamePlace(s);
    if !t.RequireFetch() {
      StayMovesOn(t);
    } else if t.resultsetEnd {
      EndMovesOn(t);
      if t.chunks != [] { EndIsLast(t); }
    } else {
      PullMovesOn(t);
    }
  }

  lemma EndIsLast<R>(s: Cursor<R>)
    requires AtFront(s) && s.chunks != []
    ensures s.currentChunkIdx == |s.chunks| - 1
  {
  }

  /** A cursor that can scroll keeps every chunk. */
  lemma MoveNextKeeps<R>(s: Cursor<R>)
    requires AtFront(s) && s.open && s.cursorType != ForwardOnly
    ensures Whole(MoveNext(s).0) == Whole(s)
  {
    var s' := s.(priorChunkRow := s.chunkRow);
    if s.RequireFetch() && !s.resultsetEnd {
      PullFront(s');
      var (t, ret) := Pull(s');
      if ret == Success {
        FlattenConcat(s.chunks, [Buffered(t)]);
        FlattenOne(Buffered(t));
      }
    }
  }

  lemma NextMoves<R>(s: Cursor<R>)
    requires AtFront(s) && s.open
    ensures var (t, ret) := MoveNext(s);
            MovesOn(s, t, ret) && (s.cursorType != ForwardOnly ==> Whole(t) == Whole(s))
  {
    hide *;
    MoveNextFront(s);
    if s.cursorType != ForwardOnly {
      MoveNextKeeps(s);
    }
  }

  lemma SplitAt<R>(chunk: seq<R>, from: nat, to: nat, source: seq<R>)
    requires from <= to <= |chunk|
    ensures chunk[from..to] + (chunk[to..] + source) == chunk[from..] + source
  {
  }

  lemma RowsetIsSlice<R>(s: Cursor<R>, rowset: nat)
    requires s.currentChunk.Some? && -1 <= s.chunkRow && s.chunkRow + 1 < |s.currentChunk.value| && rowset > 0
    ensures var chunk, rows := s.currentChunk.value, RowsetAfter(s, rowset);
            && 0 < |rows| <= rowset && s.chunkRow + 1 + |rows| <= |chunk|
            && (|rows| < rowset ==> s.chunkRow + 1 + |rows| == |chunk|)
            && rows == chunk[s.chunkRow + 1..s.chunkRow + 1 + |rows|]
  {
  }

  lemma AdvancedFront<R>(s: Cursor<R>, n: nat)
    requires AtFront(s) && s.chunks != [] && s.chunkRow + n < |s.chunks[s.currentChunkIdx]|
    ensures var t := s.(chunkRow := s.chunkRow + n);
            var chunk := s.chunks[s.currentChunkIdx];
            && AtFront(t) && Source(t) == Source(s) && Whole(t) == Whole(s)
            && Buffered(s) == chunk[s.chunkRow + 1..] && Buffered(t) == chunk[s.chunkRow + n + 1..]
  {
    hide Upcoming, Flatten;
  }

  lemma FrontIsValid<R>(s: Cursor<R>)
    requires AtFront(s)
    ensures s.Valid()
  {
  }

  lemma FrontIsCurrent<R>(s: Cursor<R>)
    requires AtFront(s) && s.chunks != []
    ensures s.currentChunkIdx < |s.chunks| && s.currentChunk == Some(s.chunks[s.currentChunkIdx]) && -1 <= s.chunkRow
  {
  }

  lemma RowsetDelivers<R>(s: Cursor<R>, rowset: nat)
    requires AtFront(s) && rowset > 0 && s.chunks != [] && s.chunkRow + 1 < |s.chunks[s.currentChunkIdx]|
    ensures var rows := RowsetAfter(s, rowset);
            var t := s.(chunkRow := s.chunkRow + |rows|);
            && AtFront(t) && 0 < |rows| <= rowset
            && rows + Remaining(t) == Remaining(s) && Whole(t) == Whole(s)
            && EndsWith(t, rows) && (|rows| < rowset ==> AtChunkEnd(t))
  {
    hide Source, Flatten, Whole, Buffered, RowsetAfter, AtFront, Cursor.Valid, Cursor.InChunk;
    FrontIsCurrent(s);
    RowsetOfFront(s, rowset);
    var n := |RowsetAfter(s, rowset)|;
    AdvancedFront(s, n);
    SplitAt(s.chunks[s.currentChunkIdx], s.chunkRow + 1, s.chunkRow + 1 + n, Source(s));
  }

  /** The rowset of a cursor at the front is a part of its chunk. */
  lemma RowsetOfFront<R>(s: Cursor<R>, rowset: nat)
    requires AtFront(s) && rowset > 0 && s.chunks != [] && s.chunkRow + 1 < |s.chunks[s.currentChunkIdx]|
    ensures s.currentChunk.Some? && -1 <= s.chunkRow
    ensures var chunk, rows := s.chunks[s.currentChunkIdx], RowsetAfter(s, rowset);
            && 0 < |rows| <= rowset && s.chunkRow + 1 + |rows| <= |chunk|
            && (|rows| < rowset ==> s.chunkRow + 1 + |rows| == |chunk|)
            && rows == chunk[s.chunkRow + 1..s.chunkRow + 1 + |rows|]
  {
    FrontIsCurrent(s);
    hide AtFront, RowsetAfter;
    RowsetIsSlice(s, rowset);
  }

  /** A forward fetch delivers the next rows, all from one chunk, or finds that there are none. */
  ghost predicate DeliversNext<R>(s: Cursor<R>, rowset: nat, t: Cursor<R>, ret: Return, rows: seq<R>)
    requires AtFront(s)
  {
    && AtFront(t) && t.cursorType == s.cursorType
    && rows + Remaining(t) == Remaining(s)
    && |rows| <= rowset && (rows != [] && |rows| < rowset ==> AtChunkEnd(t))
    && (ret == Success <==> Remaining(s) != []) && (ret == Success <==> rows != [])
    && (ret == NoData ==> t.resultsetEnd)
    && (ret == Error <==> !t.open)
    && (rows != [] ==> EndsWith(t, rows))
    && (rows == [] ==> t.priorChunkRow == t.chunkRow)
    && (s.cursorType != ForwardOnly ==> Whole(t) == Whole(s))
  }

  /** The cursor stands on the last row of the current chunk. */
  ghost predicate AtChunkEnd<R>(t: Cursor<R>) {
    t.currentChunkIdx < |t.chunks| && t.chunkRow + 1 == |t.chunks[t.currentChunkIdx]|
  }

  /** The cursor stands on the last of `rows` in the current chunk. */
  ghost predicate EndsWith<R>(t: Cursor<R>, rows: seq<R>) {
    && t.currentChunkIdx < |t.chunks| && |rows| <= t.chunkRow + 1 <= |t.chunks[t.currentChunkIdx]|
    && t.chunks[t.currentChunkIdx][t.chunkRow + 1 - |rows|..t.chunkRow + 1] == rows
  }

  /** One forward fetch: it delivers the next rows, all from one chunk, or finds that there are none
      and that this stays so. */
  lemma NextDelivers<R>(s: Cursor<R>, rowset: nat)
    requires AtFront(s) && s.open && rowset > 0
    ensures s.Valid()
    ensures var (t, ret, rows) := FetchBound(s, Next, rowset); DeliversNext(s, rowset, t, ret, rows)
  {
    FrontIsValid(s);
    hide *;
    FetchNextIs(s, rowset);
    NextMoves(s);
    var (t, ret) := MoveNext(s);
    var (u, fetched, rows) := FetchBound(s, Next, rowset);
    if ret == Success {
      FoundDelivers(s, t, rowset, u, rows);
    } else {
      MissingDelivers(s, t, ret, rowset);
    }
  }

  lemma FoundDelivers<R>(s: Cursor<R>, t: Cursor<R>, rowset: nat, u: Cursor<R>, rows: seq<R>)
    requires AtFront(s) && rowset > 0 && MovesOn(s, t, Success)
    requires s.cursorType != ForwardOnly ==> Whole(t) == Whole(s)
    requires t.currentChunk.Some? && -1 <= t.chunkRow
    requires rows == RowsetAfter(t, rowset) && u == t.(chunkRow := t.chunkRow + |rows|)
    ensures DeliversNext(s, rowset, u, Success, rows)
  {
    hide RowsetAfter, Remaining, Whole, AtFront, EndsWith;
    FrontIsCurrent(t);
    RowsetDelivers(t, rowset);
  }

  lemma MissingDelivers<R>(s: Cursor<R>, t: Cursor<R>, ret: Return, rowset: nat)
    requires AtFront(s) && MovesOn(s, t, ret) && ret != Success
    requires s.cursorType != ForwardOnly ==> Whole(t) == Whole(s)
    ensures DeliversNext(s, rowset, t, ret, [])
  {
    hide Remaining, Whole, AtFront, EndsWith;
  }

  /** A forward fetch is the move followed by the rowset. */
  lemma FetchNextIs<R>(s: Cursor<R>, rowset: nat)
    requires s.Valid() && rowset > 0
    ensures var (t, ret) := MoveNext(s);
            var (u, fetched, rows) := FetchBound(s, Next, rowset);
            if ret != Success then u == t && fetched == ret && rows == []
            else
              && t.currentChunk.Some? && -1 <= t.chunkRow
              && rows == RowsetAfter(t, rowset) && u == t.(chunkRow := t.chunkRow + |rows|) && fetched == Success
  {
    MovesValid(s, rowset);
    hide MoveNext, RowsetAfter;
  }

  /** What a sequence of fetches returns, and the cursor after it. */
  function Fetches<R>(s: Cursor<R>, calls: seq<(Orientation, nat)>): (r: (Cursor<R>, seq<(Return, seq<R>)>))
    requires s.Valid() && forall i :: 0 <= i < |calls| ==> calls[i].1 > 0
    ensures r.0.Valid() && |r.1| == |calls|
    decreases |calls|
  {
    if calls == [] then (s, [])
    else
      var (t, ret, rows) := FetchStmt(s, calls[0].0, calls[0].1);
      var (end, rest) := Fetches(t, calls[1..]);
      (end, [(ret, rows)] + rest)
  }

  /** The rows delivered by a sequence of fetches. */
  ghost function Delivered<R>(results: seq<(Return, seq<R>)>): seq<R> {
    if results == [] then [] else results[0].1 + Delivered(results[1..])
  }

  /** Every call asks for the next rowset. */
  ghost predicate ReadsForward(calls: seq<(Orientation, nat)>) {
    calls != [] ==> calls[0].0 == Next && calls[0].1 > 0 && ReadsForward(calls[1..])
  }

  lemma {:induction false} ReadsForwardSizes(calls: seq<(Orientation, nat)>)
    requires ReadsForward(calls)
    ensures forall i :: 0 <= i < |calls| ==> calls[i].1 > 0
  {
    if calls != [] {
      ReadsForwardSizes(calls[1..]);
    }
  }

  /** Every call reports the end. */
  ghost predicate AllAtEnd<R>(results: seq<(Return, seq<R>)>) {
    results != [] ==> results[0] == (NoData, []) && AllAtEnd(results[1..])
  }

  /** Calls succeed with rows until one does not; that one delivers nothing, and all later calls
      report the end. */
  ghost predicate SucceedsUntilEnd<R>(results: seq<(Return, seq<R>)>) {
    results != [] ==>
      if results[0].0 == Success then results[0].1 != [] && SucceedsUntilEnd(results[1..])
      else results[0].1 == [] && AllAtEnd(results[1..])
  }

  ghost predicate AllSucceed<R>(results: seq<(Return, seq<R>)>) {
    results != [] ==> results[0].0 == Success && AllSucceed(results[1..])
  }

  /** The cursor stands after the last row, and no chunk will be pulled any more. */
  ghost predicate Exhausted<R>(s: Cursor<R>) {
    AtFront(s) && Buffered(s) == [] && s.priorChunkRow == s.chunkRow && (s.resultsetEnd || !s.open)
  }

  lemma StaysExhausted<R>(s: Cursor<R>, rowset: nat)
    requires Exhausted(s) && rowset > 0
    ensures var (t, ret, rows) := FetchStmt(s, Next, rowset);
            && Exhausted(t) && t.cursorType == s.cursorType && ret == NoData && rows == []
            && t.chunks == s.chunks && t.chunkRow == s.chunkRow && t.currentChunkIdx == s.currentChunkIdx
            && t.open == s.open && t.resultsetEnd == s.resultsetEnd && t.pending == s.pending
  {
  }

  lemma {:induction false} EndIsPermanent<R>(s: Cursor<R>, calls: seq<(Orientation, nat)>)
    requires Exhausted(s) && ReadsForward(calls)
    ensures forall i :: 0 <= i < |calls| ==> calls[i].1 > 0
    ensures var (t, results) := Fetches(s, calls);
            && Exhausted(t) && t.cursorType == s.cursorType && AllAtEnd(results) && Delivered(results) == []
            && Whole(t) == Whole(s) && t.open == s.open
    decreases |calls|
  {
    ReadsForwardSizes(calls);
    if calls != [] {
      hide Exhausted, FetchStmt;
      StaysExhausted(s, calls[0].1);
      var (t, ret, rows) := FetchStmt(s, Next, calls[0].1);
      EndIsPermanent(t, calls[1..]);
    }
  }

  /** Reading forward with any rowset sizes delivers the remaining rows, each once and in order: what
      has been delivered is followed by what still remains, and nothing remains once a call has not
      succeeded.  (A forward-only cursor holds at most one chunk in every valid state.) */
  lemma {:induction false} ForwardRun<R>(s: Cursor<R>, calls: seq<(Orientation, nat)>)
    requires AtFront(s) && s.open && ReadsForward(calls)
    ensures forall i :: 0 <= i < |calls| ==> calls[i].1 > 0
    ensures var (t, results) := Fetches(s, calls);
            && AtFront(t) && t.cursorType == s.cursorType
            && Delivered(results) + Remaining(t) == Remaining(s)
            && SucceedsUntilEnd(results)
            && (AllSucceed(results) || Exhausted(t))
            && (s.cursorType != ForwardOnly ==> Whole(t) == Whole(s))
    decreases |calls|
  {
    ReadsForwardSizes(calls);
    if calls != [] {
      hide Remaining, Whole, FetchBound, Exhausted, Buffered;
      NextDelivers(s, calls[0].1);
      var (t, ret, rows) := FetchStmt(s, Next, calls[0].1);
      if ret == Success {
        ForwardRun(t, calls[1..]);
        var (end, results) := Fetches(t, calls[1..]);
        ConcatAssociative(rows, Delivered(results), Remaining(end));
      } else {
        NothingRemains(t);
        EndIsPermanent(t, calls[1..]);
        NothingRemains(Fetches(t, calls[1..]).0);
      }
    }
  }

  lemma NothingRemains<R>(s: Cursor<R>)
    requires AtFront(s) && (s.resultsetEnd || !s.open) && s.priorChunkRow == s.chunkRow
    ensures Remaining(s) == [] <==> Exhausted(s)
  {
  }

  lemma {:induction false} SuccessesDeliver<R>(results: seq<(Return, seq<R>)>)
    requires SucceedsUntilEnd(results) && AllSucceed(results)
    ensures |Delivered(results)| >= |results|
  {
    if results != [] {
      SuccessesDeliver(results[1..]);
    }
  }

  /** The cursor with which fetching starts after an execution. */
  lemma Begin<R>(cursorType: CursorType, result: seq<Pulled<R>>)
    ensures var s := AfterExecution(Executed(cursorType, result)).0;
            && AtFront(s) && s.cursorType == cursorType
            && Remaining(s) == Whole(s) == Upcoming(result)
            && (s.open <==> result == [] || result[0] != QueryError)
  {
    if result != [] && result[0].Chunk? && result[0].rows != [] {
      BeginWithChunk(cursorType, result);
      var rows := result[0].rows;
      assert rows[0..] == rows;
      FlattenOne(rows);
    } else {
      BeginWithNothing(cursorType, result);
      EmptyFlatten<R>();
    }
    hide Flatten, AfterExecution, Executed;
  }

  lemma BeginWithChunk<R>(cursorType: CursorType, result: seq<Pulled<R>>)
    requires result != [] && result[0].Chunk? && result[0].rows != []
    ensures var rows := result[0].rows;
            var s := AfterExecution(Executed(cursorType, result)).0;
            && s == Cursor(cursorType, [rows], 0, Some(rows), -1, -1, false, NOTHING_FETCHED, true, result[1..])
            && AtFront(s)
  {
  }

  lemma BeginWithNothing<R>(cursorType: CursorType, result: seq<Pulled<R>>)
    requires result == [] || result[0].QueryError? || result[0].rows == []
    ensures var s := AfterExecution(Executed(cursorType, result)).0;
            && AtFront(s) && s.cursorType == cursorType && s.chunks == [] && Source(s) == [] && Upcoming(result) == []
            && (s.open <==> result == [] || result[0] != QueryError)
  {
  }

  lemma EmptyFlatten<R>()
    ensures Flatten<R>([]) == []
  {
  }

  /** For every chunking and all rowset sizes, a forward run long enough to meet the end has delivered
      exactly the rows of the result. */
  lemma WholeResultForward<R>(cursorType: CursorType, result: seq<Pulled<R>>, calls: seq<(Orientation, nat)>)
    requires ReadsForward(calls) && |calls| > |Upcoming(result)|
    requires result == [] || result[0] != QueryError
    ensures forall i :: 0 <= i < |calls| ==> calls[i].1 > 0
    ensures var (t, results) := Fetches(AfterExecution(Executed(cursorType, result)).0, calls);
            Delivered(results) == Upcoming(result) && SucceedsUntilEnd(results) && Exhausted(t)
  {
    hide AfterExecution, Executed, Fetches, Remaining, Whole, Upcoming, Delivered, Exhausted, ReadsForward;
    Begin(cursorType, result);
    ReadsForwardSizes(calls);
    var s := AfterExecution(Executed(cursorType, result)).0;
    ForwardRun(s, calls);
    var (t, results) := Fetches(s, calls);
    if !Exhausted(t) {
      SuccessesDeliver(results);
      assert false;
    }
    ExhaustedRemains(t);
  }

  lemma ExhaustedRemains<R>(s: Cursor<R>)
    requires Exhausted(s)
    ensures Remaining(s) == [] && Whole(s) == Flatten(s.chunks)
  {
  }
}
