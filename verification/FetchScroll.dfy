/**
  Scrolling: reading backward, and stepping forward again from a chunk that is not the last one.
*/
module FetchScroll {
  import opened Common
  import opened Fetch
  import opened FetchRuns

  // ----- reading backward ------------------------------------------------------------------------

  ghost function RowsBefore<R>(chunks: seq<seq<R>>, idx: nat): nat
    requires idx <= |chunks|
  {
    if idx == 0 then 0 else RowsBefore(chunks, idx - 1) + |chunks[idx - 1]|
  }

  lemma {:induction false} RowsBeforeFlatten<R>(chunks: seq<seq<R>>, idx: nat)
    requires idx <= |chunks|
    ensures RowsBefore(chunks, idx) == |Flatten(chunks[..idx])|
  {
    if idx == 0 {
      assert chunks[..0] == [];
    } else {
      RowsBeforeFlatten(chunks, idx - 1);
      assert chunks[..idx] == chunks[..idx - 1] + [chunks[idx - 1]];
      FlattenConcat(chunks[..idx - 1], [chunks[idx - 1]]);
      FlattenOne(chunks[idx - 1]);
    }
  }

  /** A row of a kept chunk is a row of the result. */
  lemma RowOfChunk<R>(chunks: seq<seq<R>>, idx: nat, row: nat)
    requires idx < |chunks| && row < |chunks[idx]|
    ensures RowsBefore(chunks, idx) + row < |Flatten(chunks)|
    ensures Flatten(chunks)[RowsBefore(chunks, idx) + row] == chunks[idx][row]
  {
    RowsBeforeFlatten(chunks, idx);
    assert chunks == chunks[..idx] + chunks[idx..];
    FlattenConcat(chunks[..idx], chunks[idx..]);
    assert chunks[idx..][0] == chunks[idx];
  }

  /** The number of rows before the one that a backward fetch moves away from. */
  ghost function BackPosition<R>(s: Cursor<R>): nat
    requires s.Valid()
  {
    var n := RowsBefore(s.chunks, s.currentChunkIdx) + s.priorChunkRow + 1;
    if n < 0 then 0 else n
  }

  /** A scrollable cursor from which one can read backward: all kept chunks are at hand. */
  ghost predicate ReadsBack<R>(s: Cursor<R>) {
    && s.Valid() && s.open && s.cursorType != ForwardOnly
    && (s.chunks != [] && s.priorChunkRow >= 0 ==> s.priorChunkRow < |s.chunks[s.currentChunkIdx]|)
    && (s.priorChunkRow < -1 ==> s.currentChunkIdx == 0)
  }

  lemma MovePriorSteps<R>(s: Cursor<R>)
    requires ReadsBack(s)
    ensures var (t, ret) := MovePrior(s, 1);
            && t.Valid() && ReadsBack(t) && t.chunks == s.chunks && t.chunkRow >= t.priorChunkRow
            && if BackPosition(s) > 0 then
                 && ret == Success && t.chunks != [] && t.chunkRow == t.priorChunkRow
                 && t.chunkRow + 1 < |t.chunks[t.currentChunkIdx]|
                 && BackPosition(t) == BackPosition(s) - 1 == RowsBefore(t.chunks, t.currentChunkIdx) + t.chunkRow + 1
               else
                 ret == NoData && BackPosition(t) == 0
  {
    if s.currentChunkIdx > 0 {
      assert s.chunks[s.currentChunkIdx - 1] in s.chunks;
    }
  }

  /** One backward fetch: it delivers the row before, also across a chunk boundary. */
  lemma PriorDelivers<R>(s: Cursor<R>)
    requires ReadsBack(s)
    ensures var (t, ret, rows) := FetchStmt(s, Prior, 1);
            && ReadsBack(t) && t.chunks == s.chunks
            && if BackPosition(s) > 0 then
                 && ret == Success && BackPosition(s) <= |Flatten(s.chunks)|
                 && rows == [Flatten(s.chunks)[BackPosition(s) - 1]]
                 && BackPosition(t) == BackPosition(s) - 1
               else
                 ret == NoData && rows == [] && BackPosition(t) == 0
  {
    hide MovePrior, Flatten, RowsBefore, ReadsBack, BackPosition, Cursor.Valid;
    PriorMoves(s);
    var (t, ret) := MovePrior(s, 1);
    if ret == Success {
      RowDelivered(t);
    }
  }

  /** MovePriorSteps, with what a fetch needs besides. */
  lemma PriorMoves<R>(s: Cursor<R>)
    requires ReadsBack(s)
    ensures var (t, ret) := MovePrior(s, 1);
            && s.Valid() && s.open && s.cursorType != ForwardOnly && t.Valid() && ReadsBack(t) && t.chunks == s.chunks
            && if BackPosition(s) > 0 then
                 ret == Success && OnRow(t) && RowsBefore(t.chunks, t.currentChunkIdx) + t.chunkRow + 1 ==
                     BackPosition(s) - 1 == BackPosition(t)
               else
                 ret == NoData && BackPosition(t) == 0
  {
    MovePriorSteps(s);
  }

  /** The row after the current one is in the current chunk, and reading backward goes on from it. */
  ghost predicate OnRow<R>(t: Cursor<R>) {
    && ReadsBack(t) && t.chunks != [] && t.chunkRow == t.priorChunkRow
    && t.chunkRow + 1 < |t.chunks[t.currentChunkIdx]|
  }

  lemma RowDelivered<R>(t: Cursor<R>)
    requires OnRow(t)
    ensures var row := RowsBefore(t.chunks, t.currentChunkIdx) + t.chunkRow + 1;
            && t.currentChunk.Some? && -1 <= t.chunkRow
            && 0 <= row < |Flatten(t.chunks)| && RowsetAfter(t, 1) == [Flatten(t.chunks)[row]]
    ensures var u := t.(chunkRow := t.chunkRow + 1);
            ReadsBack(u) && u.Valid() && BackPosition(u) == BackPosition(t)
  {
    hide Flatten, RowsBefore, RowsetAfter;
    RowOfChunk(t.chunks, t.currentChunkIdx, t.chunkRow + 1);
    OneRow(t);
  }

  /** One backward fetch of any rowset size: the rowset that ends before the one fetched last, if the chunk has
      it in full; otherwise the last rows of the chunk before, at most a rowset; and nothing at all from the
      first chunk. */
  lemma PriorRowset<R>(s: Cursor<R>, rowset: nat)
    requires ReadsBack(s) && rowset > 0
    ensures var (t, ret, rows) := FetchStmt(s, Prior, rowset);
            var end := s.priorChunkRow + 1;
            if end >= rowset && s.chunks != [] then
              && ret == Success && t.currentChunkIdx == s.currentChunkIdx
              && end <= |s.chunks[s.currentChunkIdx]| && rows == s.chunks[s.currentChunkIdx][end - rowset..end]
            else if s.currentChunkIdx > 0 then
              var before := s.chunks[s.currentChunkIdx - 1];
              && ret == Success && t.currentChunkIdx == s.currentChunkIdx - 1
              && rows == if |before| <= rowset then before else before[|before| - rowset..]
            else ret == NoData && rows == []
  {
    PriorRowsetMoves(s, rowset);
    hide MovePrior, ReadsBack;
    var (t, ret) := MovePrior(s, rowset);
    if ret == Success { RowsetIs(t, rowset); }
    hide RowsetAfter;
    if ret == Success && t.chunkRow == -1 { assert t.currentChunk.value[0..] == t.currentChunk.value; }
  }

  lemma PriorRowsetMoves<R>(s: Cursor<R>, rowset: nat)
    requires ReadsBack(s) && rowset > 0
    ensures var (t, ret) := MovePrior(s, rowset);
            var end := s.priorChunkRow + 1;
            && s.Valid() && s.open && s.cursorType != ForwardOnly && t.Valid()
            && if end >= rowset && s.chunks != [] then
                 && ret == Success && t.currentChunkIdx == s.currentChunkIdx < |s.chunks|
                 && end <= |s.chunks[s.currentChunkIdx]|
                 && t.currentChunk == Some(s.chunks[s.currentChunkIdx]) && t.chunkRow + 1 == end - rowset
               else if s.currentChunkIdx > 0 then
                 var before := s.chunks[s.currentChunkIdx - 1];
                 && ret == Success && t.currentChunkIdx == s.currentChunkIdx - 1 && t.currentChunk == Some(before)
                 && before != [] && t.chunkRow + 1 == if |before| <= rowset then 0 else |before| - rowset
               else ret == NoData
  {
    if s.currentChunkIdx > 0 {
      assert s.chunks[s.currentChunkIdx - 1] in s.chunks;
    }
  }

  ghost predicate ReadsBackward(calls: seq<(Orientation, nat)>) {
    calls != [] ==> calls[0] == (Prior, 1) && ReadsBackward(calls[1..])
  }

  lemma {:induction false} ReadsBackwardSizes(calls: seq<(Orientation, nat)>)
    requires ReadsBackward(calls)
    ensures forall i :: 0 <= i < |calls| ==> calls[i].1 > 0
  {
    if calls != [] {
      ReadsBackwardSizes(calls[1..]);
    }
  }

  /** What reading backward from row `n` of `rows` returns: the rows before it in reverse order, then
      the report that there are none. */
  ghost function Backward<R>(rows: seq<R>, n: nat, calls: nat): seq<(Return, seq<R>)>
    requires n <= |rows|
  {
    if calls == 0 then []
    else if n > 0 then [(Success, [rows[n - 1]])] + Backward(rows, n - 1, calls - 1)
    else [(NoData, [])] + Backward(rows, n, calls - 1)
  }

  lemma {:induction false} BackwardRun<R>(s: Cursor<R>, calls: seq<(Orientation, nat)>)
    requires ReadsBack(s) && ReadsBackward(calls) && BackPosition(s) <= |Flatten(s.chunks)|
    ensures forall i :: 0 <= i < |calls| ==> calls[i].1 > 0
    ensures Fetches(s, calls).1 == Backward(Flatten(s.chunks), BackPosition(s), |calls|)
    decreases |calls|
  {
    hide *;
    ReadsBackwardSizes(calls);
    BackValid(s);
    if calls == [] {
      NothingBackward(s, calls);
    } else {
      BackwardCalls(calls);
      PriorDelivers(s);
      var (t, ret, rows) := FetchStmt(s, Prior, 1);
      BackwardRun(t, calls[1..]);
      BackwardStep(Flatten(s.chunks), BackPosition(s), |calls|, ret, rows, Fetches(t, calls[1..]).1);
      FetchesStep(s, calls, t, ret, rows);
    }
  }

  lemma NothingBackward<R>(s: Cursor<R>, calls: seq<(Orientation, nat)>)
    requires s.Valid() && calls == [] && BackPosition(s) <= |Flatten(s.chunks)|
    ensures Fetches(s, calls).1 == Backward(Flatten(s.chunks), BackPosition(s), |calls|)
  {
  }

  lemma BackwardCalls(calls: seq<(Orientation, nat)>)
    requires ReadsBackward(calls) && calls != []
    ensures calls[0] == (Prior, 1) && ReadsBackward(calls[1..])
  {
  }

  lemma BackValid<R>(s: Cursor<R>)
    requires ReadsBack(s)
    ensures s.Valid()
  {
  }

  lemma BackwardStep<R>(all: seq<R>, n: nat, calls: nat, ret: Return, rows: seq<R>, rest: seq<(Return, seq<R>)>)
    requires n <= |all| && calls > 0
    requires if n > 0 then ret == Success && rows == [all[n - 1]] else ret == NoData && rows == []
    requires rest == Backward(all, if n > 0 then n - 1 else 0, calls - 1)
    ensures Backward(all, n, calls) == [(ret, rows)] + rest
  {
  }

  lemma FetchesStep<R>(s: Cursor<R>, calls: seq<(Orientation, nat)>, t: Cursor<R>, ret: Return, rows: seq<R>)
    requires s.Valid() && calls != [] && forall i :: 0 <= i < |calls| ==> calls[i].1 > 0
    requires (t, ret, rows) == FetchStmt(s, calls[0].0, calls[0].1)
    ensures t.Valid() && Fetches(s, calls).1 == [(ret, rows)] + Fetches(t, calls[1..]).1
  {
    hide FetchStmt;
  }

  /** Reading a scrollable cursor forward to the end and then backward delivers the result and then
      its reverse, whatever the chunks are. */
  lemma ForwardThenBackward<R>(result: seq<Pulled<R>>, forward: seq<(Orientation, nat)>,
                               backward: seq<(Orientation, nat)>)
    requires ReadsForward(forward) && |forward| > |Upcoming(result)| && ReadsBackward(backward)
    requires result == [] || result[0] != QueryError
    ensures forall i :: 0 <= i < |forward| ==> forward[i].1 > 0
    ensures forall i :: 0 <= i < |backward| ==> backward[i].1 > 0
    ensures var (s, there) := Fetches(AfterExecution(Executed(Scrollable, result)).0, forward);
            var (_, back) := Fetches(s, backward);
            && Delivered(there) == Upcoming(result)
            && (s.open ==> back == Backward(Upcoming(result), |Upcoming(result)|, |backward|))
  {
    hide AfterExecution, Executed, Fetches, Whole, Upcoming, Delivered, ReadsForward, ReadsBackward;
    ReadsForwardSizes(forward);
    ReadsBackwardSizes(backward);
    WholeResultForward(Scrollable, result, forward);
    Begin(Scrollable, result);
    var s0 := AfterExecution(Executed(Scrollable, result)).0;
    ForwardRun(s0, forward);
    var s := Fetches(s0, forward).0;
    ExhaustedRemains(s);
    if s.open {
      EndPosition(s);
      BackwardRun(s, backward);
    }
  }

  lemma EndPosition<R>(s: Cursor<R>)
    requires Exhausted(s) && s.open && s.cursorType != ForwardOnly
    ensures ReadsBack(s) && BackPosition(s) == |Flatten(s.chunks)|
  {
    RowsBeforeFlatten(s.chunks, |s.chunks|);
    assert s.chunks[..|s.chunks|] == s.chunks;
    hide Flatten;
  }

  // ----- stepping forward from any kept chunk ----------------------------------------------------

  /** The place of the current row among all rows of the result, -1 before the first. */
  ghost function Position<R>(s: Cursor<R>): int
    requires s.Valid() && s.chunks != []
  {
    RowsBefore(s.chunks, s.currentChunkIdx) + s.chunkRow
  }

  /** A forward fetch of one row moves to the row after the current one and delivers it, or, after the
      last row, delivers nothing and does not succeed. */
  ghost predicate StepsToSuccessor<R>(s: Cursor<R>)
    requires s.Valid() && s.chunks != []
  {
    var (t, ret, rows) := FetchBound(s, Next, 1);
    var all := Whole(s);
    if Position(s) + 1 < |all| then
      && ret == Success && Position(s) + 1 >= 0 && rows == [all[Position(s) + 1]]
      && t.chunks != [] && Position(t) == Position(s) + 1
    else
      ret != Success && rows == []
  }

  /** A chunk would be pulled. */
  predicate HasNextChunk<R>(s: Cursor<R>) {
    !s.resultsetEnd && s.pending != [] && s.pending[0].Chunk? && s.pending[0].rows != []
  }

  /** Whether a chunk must be left is decided by the size of the last kept chunk, not by that of the
      current one.  In a chunk that is not the last, a forward step is right exactly when the two
      sizes lead to the same decision, and when leaving the chunk does not first run into the end of
      the result. */
  predicate ForwardStepIsSafe<R>(s: Cursor<R>)
    requires s.Valid() && s.chunks != []
  {
    var size, lastSize := |s.chunks[s.currentChunkIdx]|, |s.chunks[|s.chunks| - 1]|;
    || s.currentChunkIdx == |s.chunks| - 1
    || ((s.chunkRow + 1 < size <==> s.chunkRow + 1 < lastSize)
        && (s.chunkRow + 1 == size ==> s.resultsetEnd || HasNextChunk(s)))
  }

  lemma {:induction false} RowsBeforeAppend<R>(chunks: seq<seq<R>>, chunk: seq<R>, idx: nat)
    requires idx <= |chunks|
    ensures RowsBefore(chunks + [chunk], idx) == RowsBefore(chunks, idx)
  {
    if idx > 0 {
      RowsBeforeAppend(chunks, chunk, idx - 1);
    }
  }

  /** At the front, the rows after the current place are those that remain. */
  lemma FrontPosition<R>(s: Cursor<R>)
    requires AtFront(s) && s.chunks != []
    ensures -1 <= Position(s) && Position(s) + 1 + |Remaining(s)| == |Whole(s)|
    ensures Remaining(s) != [] ==> Whole(s)[Position(s) + 1] == Remaining(s)[0]
  {
    var n := s.currentChunkIdx;
    RowsBeforeFlatten(s.chunks, n);
    assert s.chunks == s.chunks[..n] + [s.chunks[n]];
    FlattenConcat(s.chunks[..n], [s.chunks[n]]);
    FlattenOne(s.chunks[n]);
    assert Whole(s) == Flatten(s.chunks[..n]) + (s.chunks[n] + Source(s));
  }

  lemma StepAtFront<R>(s: Cursor<R>)
    requires AtFront(s) && s.open && s.cursorType != ForwardOnly && s.chunks != []
    ensures StepsToSuccessor(s)
  {
    NextDelivers(s, 1);
    FrontPosition(s);
    var (t, ret, rows) := FetchBound(s, Next, 1);
    if ret == Success {
      assert rows == [Remaining(s)[0]];
      FrontPosition(t);
    }
  }

  /** Where a forward step from a chunk that is not the last one leads. */
  lemma MoveWithinKept<R>(s: Cursor<R>)
    requires s.InChunk() && s.cursorType != ForwardOnly && s.currentChunkIdx < |s.chunks| - 1
    ensures var (t, ret) := MoveNext(s);
            if s.chunkRow + 1 < |s.chunks[|s.chunks| - 1]| then
              ret == Success && t == s.(priorChunkRow := s.chunkRow)
            else if s.resultsetEnd || HasNextChunk(s) then
              ret == Success && t.Valid() && t.currentChunkIdx == s.currentChunkIdx + 1 && t.chunkRow == -1
              && (t.chunks == s.chunks || (HasNextChunk(s) && t.chunks == s.chunks + [s.pending[0].rows]))
            else
              ret != Success
  {
  }

  /** The row after the current one, from a chunk that is not the last. */
  lemma SuccessorInKept<R>(s: Cursor<R>)
    requires s.InChunk() && s.currentChunkIdx < |s.chunks| - 1
    ensures 0 <= Position(s) + 1 < |Flatten(s.chunks)| && s.chunks[s.currentChunkIdx + 1] != []
    ensures Flatten(s.chunks)[Position(s) + 1] ==
            if s.chunkRow + 1 < |s.chunks[s.currentChunkIdx]| then s.chunks[s.currentChunkIdx][s.chunkRow + 1]
            else s.chunks[s.currentChunkIdx + 1][0]
    ensures s.chunkRow + 1 <= |s.chunks[s.currentChunkIdx]|
    ensures RowsBefore(s.chunks, s.currentChunkIdx + 1) == RowsBefore(s.chunks, s.currentChunkIdx)
            + |s.chunks[s.currentChunkIdx]|
  {
    assert s.chunks[s.currentChunkIdx + 1] in s.chunks;
    if s.chunkRow + 1 < |s.chunks[s.currentChunkIdx]| {
      RowOfChunk(s.chunks, s.currentChunkIdx, s.chunkRow + 1);
    } else {
      RowOfChunk(s.chunks, s.currentChunkIdx + 1, 0);
    }
  }

  /** The row after the current one belongs to a kept chunk. */
  lemma SuccessorInWhole<R>(s: Cursor<R>)
    requires s.InChunk() && s.currentChunkIdx < |s.chunks| - 1
    ensures 0 <= Position(s) + 1 < |Flatten(s.chunks)| <= |Whole(s)|
    ensures Whole(s)[Position(s) + 1] == Flatten(s.chunks)[Position(s) + 1]
  {
    hide Flatten, RowsBefore;
    SuccessorInKept(s);
  }

  lemma StepWithinKept<R>(s: Cursor<R>)
    requires s.InChunk() && s.open && s.cursorType != ForwardOnly && s.currentChunkIdx < |s.chunks| - 1
    ensures StepsToSuccessor(s) <==> ForwardStepIsSafe(s)
  {
    hide Flatten, RowsBefore, MoveNext, Whole;
    MoveWithinKept(s);
    SuccessorInKept(s);
    SuccessorInWhole(s);
    var t := MoveNext(s).0;
    if s.chunkRow + 1 < |s.chunks[|s.chunks| - 1]| {
      StepStays(s, t);
    } else if s.resultsetEnd || HasNextChunk(s) {
      StepLeaves(s, t);
    }
  }

  lemma StepStays<R>(s: Cursor<R>, t: Cursor<R>)
    requires s.InChunk() && s.chunks != [] && t == s.(priorChunkRow := s.chunkRow)
    ensures RowsetAfter(t, 1) == if s.chunkRow + 1 < |s.chunks[s.currentChunkIdx]|
            then [s.chunks[s.currentChunkIdx][s.chunkRow + 1]] else []
  {
  }

  lemma StepLeaves<R>(s: Cursor<R>, t: Cursor<R>)
    requires s.InChunk() && s.currentChunkIdx < |s.chunks| - 1
    requires t.Valid() && t.currentChunkIdx == s.currentChunkIdx + 1 && t.chunkRow == -1
    requires t.chunks == s.chunks || (HasNextChunk(s) && t.chunks == s.chunks + [s.pending[0].rows])
    ensures s.chunks[s.currentChunkIdx + 1] != []
    ensures RowsetAfter(t, 1) == [s.chunks[s.currentChunkIdx + 1][0]]
    ensures RowsBefore(t.chunks, t.currentChunkIdx) == RowsBefore(s.chunks, s.currentChunkIdx + 1)
  {
    if t.chunks != s.chunks {
      RowsBeforeAppend(s.chunks, s.pending[0].rows, s.currentChunkIdx + 1);
    }
    assert t.chunks[t.currentChunkIdx] == s.chunks[s.currentChunkIdx + 1];
    assert s.chunks[s.currentChunkIdx + 1] in s.chunks;
  }

  /** Exactly when a forward step of a scrollable cursor does what it should. */
  lemma ForwardStepExact<R>(s: Cursor<R>)
    requires s.InChunk() && s.open && s.cursorType != ForwardOnly && s.chunks != []
    ensures StepsToSuccessor(s) <==> ForwardStepIsSafe(s)
  {
    if s.currentChunkIdx == |s.chunks| - 1 {
      StepAtFront(s);
    } else {
      StepWithinKept(s);
    }
  }

  /** The cursor of a scrollable statement that has kept `chunks` of a result without more. */
  function Kept<R>(chunks: seq<seq<R>>, idx: nat, row: int, prior: int, pending: seq<Pulled<R>>): Cursor<R>
    requires idx < |chunks|
  {
    Cursor(Scrollable, chunks, idx, Some(chunks[idx]), row, prior, false, NOTHING_FETCHED, true, pending)
  }

  lemma FirstChunk<R>(a: seq<R>, b: seq<R>)
    requires |a| == 2 && |b| == 1
    ensures AfterExecution(Executed(Scrollable, [Chunk(a), Chunk(b)])).0 == Kept([a], 0, -1, -1, [Chunk(b)])
    ensures Kept([a], 0, -1, -1, [Chunk(b)]).Valid()
  {
    assert [Chunk(a), Chunk(b)][1..] == [Chunk(b)];
  }

  /** A successful move, and the fetch that follows it. */
  lemma MoveThenRow<R>(s: Cursor<R>, orientation: Orientation)
    requires s.Valid() && s.open
    ensures var (t, ret) := Move(s, orientation, 1);
            if ret != Success then FetchStmt(s, orientation, 1) == (t, ret, [])
            else if t.chunkRow + 1 < |t.currentChunk.value| then
              FetchStmt(s, orientation, 1) == (t.(chunkRow := t.chunkRow + 1), Success,
                  [t.currentChunk.value[t.chunkRow + 1]])
            else true
  {
    hide Move, RowsetAfter;
    var (t, ret) := Move(s, orientation, 1);
    if ret == Success && t.chunkRow + 1 < |t.currentChunk.value| { OneRow(t); }
  }

  lemma MoveInChunk<R>(s: Cursor<R>)
    requires s.Valid() && !s.RequireFetch()
    ensures Move(s, Next, 1) == (s.(priorChunkRow := s.chunkRow), Success)
  {
  }

  /** A forward fetch that stays in the chunk. */
  lemma NextInChunk<R>(s: Cursor<R>)
    requires s.Valid() && s.open && !s.RequireFetch() && s.currentChunk.Some? && s.chunkRow + 1 < |s.currentChunk.value|
    ensures FetchStmt(s, Next, 1) ==
            (s.(priorChunkRow := s.chunkRow, chunkRow := s.chunkRow + 1), Success,
                [s.currentChunk.value[s.chunkRow + 1]])
  {
    hide FetchStmt, Cursor.Valid, Move, Cursor.RequireFetch;
    MoveInChunk(s);
    MoveThenRow(s, Next);
  }

  lemma TwoRowsForward<R>(a: seq<R>, b: seq<R>)
    requires |a| == 2
    ensures Kept([a], 0, -1, -1, [Chunk(b)]).Valid() && Kept([a], 0, 0, -1, [Chunk(b)]).Valid()
    ensures FetchStmt(Kept([a], 0, -1, -1, [Chunk(b)]), Next, 1).0 == Kept([a], 0, 0, -1, [Chunk(b)])
    ensures FetchStmt(Kept([a], 0, 0, -1, [Chunk(b)]), Next, 1).0 == Kept([a], 0, 1, 0, [Chunk(b)])
  {
    hide FetchStmt;
    NextInChunk(Kept([a], 0, -1, -1, [Chunk(b)]));
    NextInChunk(Kept([a], 0, 0, -1, [Chunk(b)]));
  }

  lemma ThirdRowForward<R>(a: seq<R>, b: seq<R>)
    requires |a| == 2 && |b| == 1
    ensures Kept([a], 0, 1, 0, [Chunk(b)]).Valid()
    ensures FetchStmt(Kept([a], 0, 1, 0, [Chunk(b)]), Next, 1).0 == Kept([a, b], 1, 0, -1, [])
  {
    assert [a] + [b] == [a, b] && [Chunk(b)][1..] == [];
  }

  lemma TwoRowsBack<R>(a: seq<R>, b: seq<R>)
    requires |a| == 2 && |b| == 1
    ensures FetchStmt(Kept([a, b], 1, 0, -1, []), Prior, 1).0 == Kept([a, b], 0, 1, 0, [])
    ensures FetchStmt(Kept([a, b], 0, 1, 0, []), Prior, 1) == (Kept([a, b], 0, 0, -1, []), Success, [a[0]])
    ensures FetchStmt(Kept([a, b], 0, 0, -1, []), Next, 1).1 == NoData
  {
    assert a[0..1] == [a[0]];
  }

  /** Two chunks of sizes two and one, read to the third row and back to the first: the second row is
      not found again. */
  lemma ForwardStepCanFail<R>(a: seq<R>, b: seq<R>)
    requires |a| == 2 && |b| == 1
    ensures var s0 := AfterExecution(Executed(Scrollable, [Chunk(a), Chunk(b)])).0;
            s0.Valid() &&
            var s1 := FetchStmt(FetchStmt(FetchStmt(s0, Next, 1).0, Next, 1).0, Next, 1).0;
            var (s2, ret, rows) := FetchStmt(FetchStmt(s1, Prior, 1).0, Prior, 1);
            ret == Success && rows == [a[0]] && FetchStmt(s2, Next, 1).1 == NoData
  {
    hide *;
    FirstChunk(a, b);
    TwoRowsForward(a, b);
    ThirdRowForward(a, b);
    TwoRowsBack(a, b);
  }
}
