/**
  Whole scrolling sessions: NEXT, PRIOR and FIRST in any order on a result in any chunks.
*/
module FetchScrollRuns {
  import opened Common
  import opened Fetch
  import opened FetchRuns
  import opened FetchScroll

  // ----- the simple cursor -----------------------------------------------------------------------

  /** The positions of a scrollable cursor over rows. */
  datatype Place = BeforeFirst | At(row: nat) | AfterLast

  /** A scrollable cursor over `rows`: where a move leads, and what it delivers there. */
  ghost function Scroll<R>(rows: seq<R>, place: Place, orientation: Orientation): (r: (Place, Return, seq<R>))
    requires rows != [] && (place.At? ==> place.row < |rows|)
    ensures r.0.At? ==> r.0.row < |rows|
  {
    var target :=
      match orientation
      case First => At(0)
      case Next =>
        (match place
         case BeforeFirst => At(0)
         case At(i) => if i + 1 < |rows| then At(i + 1) else AfterLast
         case AfterLast => AfterLast)
      case Prior =>
        (match place
         case BeforeFirst => BeforeFirst
         case At(i) => if i > 0 then At(i - 1) else BeforeFirst
         case AfterLast => At(|rows| - 1));
    if target.At? then (target, Success, [rows[target.row]]) else (target, NoData, [])
  }

  /** The last row at or before a place. */
  ghost function RowOf<R>(rows: seq<R>, place: Place): int {
    match place case BeforeFirst => -1 case At(i) => i case AfterLast => |rows| - 1
  }

  /** The number of rows before a place. */
  ghost function RowsAhead<R>(rows: seq<R>, place: Place): nat {
    match place case BeforeFirst => 0 case At(i) => i case AfterLast => |rows|
  }

  lemma ScrollNext<R>(rows: seq<R>, place: Place)
    requires rows != [] && (place.At? ==> place.row < |rows|)
    ensures Scroll(rows, place, Next) ==
            if RowOf(rows, place) + 1 < |rows| then (At(RowOf(rows, place) + 1), Success,
                [rows[RowOf(rows, place) + 1]])
            else (AfterLast, NoData, [])
  {
  }

  lemma ScrollPrior<R>(rows: seq<R>, place: Place)
    requires rows != [] && (place.At? ==> place.row < |rows|)
    ensures Scroll(rows, place, Prior) ==
            if RowsAhead(rows, place) > 0 then (At(RowsAhead(rows, place) - 1), Success,
                [rows[RowsAhead(rows, place) - 1]])
            else (BeforeFirst, NoData, [])
  {
  }

  ghost function Scrolls<R>(rows: seq<R>, place: Place, moves: seq<Orientation>): seq<(Return, seq<R>)>
    requires rows != [] && (place.At? ==> place.row < |rows|)
    decreases |moves|
  {
    if moves == [] then []
    else
      var (target, ret, delivered) := Scroll(rows, place, moves[0]);
      [(ret, delivered)] + Scrolls(rows, target, moves[1..])
  }

  // ----- the fetcher at a place ------------------------------------------------------------------

  /** The query result does not fail before its end. */
  ghost predicate QuerySucceeds<R>(pending: seq<Pulled<R>>) {
    pending != [] && pending[0] != Chunk([]) ==> pending[0].Chunk? && QuerySucceeds(pending[1..])
  }

  /** A scrollable fetcher of a result with rows, in one of its chunks. */
  ghost predicate Scrolling<R>(s: Cursor<R>, rows: seq<R>) {
    && s.InChunk() && s.open && s.cursorType != ForwardOnly && s.chunks != []
    && (s.resultsetEnd || QuerySucceeds(s.pending)) && Whole(s) == rows
  }

  ghost predicate StandsAt<R>(s: Cursor<R>, rows: seq<R>, place: Place) {
    && Scrolling(s, rows)
    && match place
       case BeforeFirst => s.currentChunkIdx == 0 && s.chunkRow == -1 && s.priorChunkRow <= -1
       case At(i) => OnRowOf(s) && Position(s) == i
       case AfterLast =>
         s.resultsetEnd && s.currentChunkIdx == |s.chunks| - 1
             && s.chunkRow == s.priorChunkRow == |s.chunks[s.currentChunkIdx]| - 1
  }

  /** On a row that was fetched by itself. */
  ghost predicate OnRowOf<R>(s: Cursor<R>) {
    s.InChunk() && s.chunks != [] && s.chunkRow >= 0 && s.priorChunkRow == s.chunkRow - 1
  }

  /** The row before or at a place, and the number of rows before the one that PRIOR leaves. */
  lemma PlaceIs<R>(s: Cursor<R>, rows: seq<R>, place: Place)
    requires StandsAt(s, rows, place)
    ensures rows != [] && (place.At? ==> place.row < |rows|) && ReadsBack(s)
    ensures Position(s) == RowOf(rows, place) && BackPosition(s) == RowsAhead(rows, place)
    ensures BackPosition(s) <= |Flatten(s.chunks)| <= |rows| && Flatten(s.chunks) <= rows && Whole(s) == rows
  {
    RowsBeforeFlatten(s.chunks, |s.chunks|);
    assert s.chunks[..|s.chunks|] == s.chunks;
    assert s.chunks[s.currentChunkIdx] in s.chunks;
    RowOfChunk(s.chunks, s.currentChunkIdx, 0);
    if place.At? { RowOfChunk(s.chunks, s.currentChunkIdx, s.chunkRow); }
  }

  // ----- NEXT ------------------------------------------------------------------------------------

  /** What a forward move leaves. */
  ghost predicate Lands<R>(s: Cursor<R>, rows: seq<R>, t: Cursor<R>, ret: Return) {
    && t.Valid() && t.open && t.cursorType != ForwardOnly && t.chunks != []
    && (t.resultsetEnd || QuerySucceeds(t.pending)) && Whole(t) == rows
    && (ret == Success ==> t.priorChunkRow == t.chunkRow)
    && (ret == Success || ret == NoData)
    && (ret == NoData ==> t.resultsetEnd && t.chunks == s.chunks && t.currentChunkIdx == s.currentChunkIdx
                          && t.chunkRow == t.priorChunkRow == s.chunkRow && s.RequireFetch())
  }

  lemma PullLands<R>(s: Cursor<R>, rows: seq<R>)
    requires Scrolling(s, rows) && s.RequireFetch() && s.priorChunkRow == s.chunkRow
    requires s.resultsetEnd ==> s.currentChunkIdx < |s.chunks| - 1
    ensures Lands(s, rows, Pull(s).0, Pull(s).1)
  {
    PullValid(s);
    if !s.resultsetEnd && s.pending != [] && s.pending[0] != Chunk([]) {
      var chunk := s.pending[0].rows;
      FlattenConcat(s.chunks, [chunk]);
      FlattenOne(chunk);
      ConcatAssociative(Flatten(s.chunks), chunk, Upcoming(s.pending[1..]));
    }
  }

  lemma MoveNextLands<R>(s: Cursor<R>, rows: seq<R>)
    requires Scrolling(s, rows)
    ensures Lands(s, rows, MoveNext(s).0, MoveNext(s).1)
  {
    hide Pull;
    var t := s.(priorChunkRow := s.chunkRow);
    if t.RequireFetch() && !(t.resultsetEnd && t.currentChunkIdx == |t.chunks| - 1) {
      PullLands(t, rows);
    }
  }

  /** A fetch of one row lands on it. */
  lemma RowLands<R>(s: Cursor<R>, rows: seq<R>, t: Cursor<R>, u: Cursor<R>)
    requires Lands(s, rows, t, Success)
    requires t.currentChunk.Some? && -1 <= t.chunkRow && u == t.(chunkRow := t.chunkRow + |RowsetAfter(t, 1)|)
    ensures RowsetAfter(t, 1) != [] ==> Scrolling(u, rows) && OnRowOf(u)
  {
    RowsetOfOne(t);
    WholeAlike(t, u);
    hide RowsetAfter, Whole, QuerySucceeds;
  }

  lemma RowsetOfOne<R>(t: Cursor<R>)
    requires t.currentChunk.Some? && -1 <= t.chunkRow
    ensures |RowsetAfter(t, 1)| == if t.chunkRow + 1 < |t.currentChunk.value| then 1 else 0
  {
  }

  lemma WholeAlike<R>(t: Cursor<R>, u: Cursor<R>)
    requires t.chunks == u.chunks && t.pending == u.pending && t.resultsetEnd == u.resultsetEnd && t.open == u.open
    ensures Whole(t) == Whole(u)
  {
  }

  /** What a forward fetch leaves. */
  lemma NextLands<R>(s: Cursor<R>, rows: seq<R>, u: Cursor<R>, ret: Return, delivered: seq<R>)
    requires Scrolling(s, rows) && (u, ret, delivered) == FetchBound(s, Next, 1)
    ensures if ret == Success then delivered != [] ==> Scrolling(u, rows) && OnRowOf(u) else Lands(s, rows, u, ret)
  {
    hide MoveNext, Lands, RowsetAfter, FetchBound, Scrolling, OnRowOf;
    ScrollingValid(s, rows);
    MoveNextLands(s, rows);
    FetchNextIs(s, 1);
    var (t, moved) := MoveNext(s);
    if moved == Success {
      RowLands(s, rows, t, u);
    }
  }

  lemma ScrollingValid<R>(s: Cursor<R>, rows: seq<R>)
    requires Scrolling(s, rows)
    ensures s.Valid()
  {
  }

  /** A forward step that is right leads to the next place. */
  lemma RightStepFollows<R>(s: Cursor<R>, rows: seq<R>, place: Place)
    requires StandsAt(s, rows, place) && s.Valid() && s.chunks != [] && StepsToSuccessor(s)
    ensures rows != [] && (place.At? ==> place.row < |rows|)
    ensures Follows(s, rows, place, Next)
  {
    hide FetchBound, Whole, Scroll, RowOf, Cursor.Valid, Cursor.InChunk, StandsAt, Position, BackPosition, ReadsBack,
        Scrolling, OnRowOf, Lands;
    PlaceIs(s, rows, place);
    ScrollingInChunk(s, rows, place);
    ScrollNext(rows, place);
    var (u, ret, delivered) := FetchBound(s, Next, 1);
    NextLands(s, rows, u, ret, delivered);
    if ret == Success {
      OnRowStands(u, rows, RowOf(rows, place) + 1);
    } else {
      EndLands(s, rows, u, ret, place);
    }
  }

  lemma OnRowStands<R>(u: Cursor<R>, rows: seq<R>, row: nat)
    requires Scrolling(u, rows) && OnRowOf(u) && Position(u) == row
    ensures StandsAt(u, rows, At(row))
  {
  }

  /** A forward step that finds no further row ends after the last one. */
  lemma EndLands<R>(s: Cursor<R>, rows: seq<R>, t: Cursor<R>, ret: Return, place: Place)
    requires StandsAt(s, rows, place) && Lands(s, rows, t, ret) && ret != Success && Position(s) + 1 >= |rows|
    ensures StandsAt(t, rows, AfterLast) && ret == NoData
  {
    if s.currentChunkIdx < |s.chunks| - 1 {
      SuccessorInWhole(s);
    }
    hide Whole, Flatten, RowsBefore;
  }

  // ----- every step ------------------------------------------------------------------------------

  /** One fetch leads where the simple cursor goes, and delivers what it delivers. */
  ghost predicate Follows<R>(s: Cursor<R>, rows: seq<R>, place: Place, orientation: Orientation)
    requires s.Valid() && rows != [] && (place.At? ==> place.row < |rows|)
  {
    var (t, ret, delivered) := FetchStmt(s, orientation, 1);
    var (target, expectedRet, expected) := Scroll(rows, place, orientation);
    StandsAt(t, rows, target) && ret == expectedRet && delivered == expected
  }

  lemma AtRow<R>(u: Cursor<R>, rows: seq<R>, row: nat)
    requires StandsAt(u, rows, At(row))
    ensures u.Valid() && u.chunks != [] && Position(u) == row
  {
  }

  lemma FollowedStepIsRight<R>(s: Cursor<R>, rows: seq<R>, place: Place)
    requires StandsAt(s, rows, place) && s.Valid() && s.open && rows != [] && (place.At? ==> place.row < |rows|)
    requires Follows(s, rows, place, Next)
    ensures s.chunks != [] && StepsToSuccessor(s)
  {
    hide FetchBound, Whole, Scroll, RowOf, Cursor.Valid, Cursor.InChunk, StandsAt, Position, BackPosition, ReadsBack;
    ScrollingInChunk(s, rows, place);
    PlaceIs(s, rows, place);
    ScrollNext(rows, place);
    var row := RowOf(rows, place) + 1;
    if row < |rows| { AtRow(FetchBound(s, Next, 1).0, rows, row); }
  }

  /** A backward move keeps the result, and leaves what the next fetch needs. */
  lemma PriorLands<R>(s: Cursor<R>, rows: seq<R>)
    requires Scrolling(s, rows) && ReadsBack(s)
    ensures var (t, ret) := MovePrior(s, 1);
            if ret == Success then Lands(s, rows, t, ret)
            else StandsAt(t, rows, BeforeFirst)
  {
    if s.currentChunkIdx > 0 {
      assert s.chunks[s.currentChunkIdx - 1] in s.chunks;
    }
    WholeAlike(s, MovePrior(s, 1).0);
    hide Whole, QuerySucceeds;
  }

  /** What a backward fetch leaves. */
  lemma PriorFetches<R>(s: Cursor<R>, rows: seq<R>, u: Cursor<R>, ret: Return, delivered: seq<R>)
    requires Scrolling(s, rows) && ReadsBack(s) && (u, ret, delivered) == FetchStmt(s, Prior, 1)
    ensures if ret != Success then StandsAt(u, rows, BeforeFirst) else delivered != [] ==>
            Scrolling(u, rows) && OnRowOf(u)
  {
    PriorLands(s, rows);
    hide MovePrior, Lands, RowsetAfter, StandsAt, OnRowOf, Whole, ReadsBack;
    var (t, moved) := MovePrior(s, 1);
    if moved == Success {
      RowLands(s, rows, t, u);
    }
  }

  lemma BackToRow<R>(u: Cursor<R>)
    requires OnRowOf(u)
    ensures u.Valid() && BackPosition(u) == Position(u)
  {
  }

  lemma PriorFollows<R>(s: Cursor<R>, rows: seq<R>, place: Place)
    requires StandsAt(s, rows, place)
    ensures s.Valid() && rows != [] && (place.At? ==> place.row < |rows|)
    ensures Follows(s, rows, place, Prior)
  {
    PlaceIs(s, rows, place);
    PriorDelivers(s);
    ScrollPrior(rows, place);
    var (u, ret, delivered) := FetchStmt(s, Prior, 1);
    PriorFetches(s, rows, u, ret, delivered);
    hide FetchStmt, Whole, Flatten, RowsBefore, Scroll, RowsAhead, OnRowOf, BackPosition, Position, ReadsBack,
        Cursor.Valid, Cursor.InChunk;
    if ret == Success {
      BackToRow(u);
    }
  }

  lemma FirstLands<R>(s: Cursor<R>, rows: seq<R>)
    requires Scrolling(s, rows)
    ensures var t := BeforeStart(s); Lands(s, rows, t, Success) && Move(s, First, 1) == (t, Success)
  {
    WholeAlike(s, BeforeStart(s));
    hide Whole, QuerySucceeds;
  }

  lemma FirstRow<R>(s: Cursor<R>, rows: seq<R>, u: Cursor<R>, delivered: seq<R>)
    requires Scrolling(s, rows)
    requires var t := BeforeStart(s);
             t.currentChunk.Some? && u == t.(chunkRow := t.chunkRow + |delivered|) && delivered == RowsetAfter(t, 1)
    requires delivered != [] ==> Scrolling(u, rows) && OnRowOf(u)
    ensures rows != [] && delivered == [rows[0]] && StandsAt(u, rows, At(0))
  {
    assert s.chunks[0] in s.chunks;
    RowOfChunk(s.chunks, 0, 0);
    OneRow(BeforeStart(s));
    hide RowsetAfter, Flatten;
  }

  lemma FirstFollows<R>(s: Cursor<R>, rows: seq<R>, place: Place)
    requires StandsAt(s, rows, place)
    ensures s.Valid() && rows != [] && (place.At? ==> place.row < |rows|)
    ensures Follows(s, rows, place, First)
  {
    PlaceIs(s, rows, place);
    ScrollingInChunk(s, rows, place);
    FirstLands(s, rows);
    hide RowsetAfter, Whole, Move, StandsAt, Lands, OnRowOf, Cursor.Valid, Cursor.InChunk, ReadsBack, BackPosition,
        Position;
    var (u, ret, delivered) := FetchStmt(s, First, 1);
    RowLands(s, rows, BeforeStart(s), u);
    FirstRow(s, rows, u, delivered);
  }

  /** The only step that can go wrong is one forward, and exactly when it is not safe. */
  lemma StepFollowsExactly<R>(s: Cursor<R>, rows: seq<R>, place: Place, move: Orientation)
    requires StandsAt(s, rows, place)
    ensures s.Valid() && s.chunks != [] && rows != [] && (place.At? ==> place.row < |rows|)
    ensures Follows(s, rows, place, move) <==> (move == Next ==> ForwardStepIsSafe(s))
  {
    hide *;
    PlaceIs(s, rows, place);
    ScrollingInChunk(s, rows, place);
    match move
    case Next =>
      ForwardStepExact(s);
      if StepsToSuccessor(s) { RightStepFollows(s, rows, place); }
      if Follows(s, rows, place, Next) { FollowedStepIsRight(s, rows, place); }
    case Prior => PriorFollows(s, rows, place);
    case First => FirstFollows(s, rows, place);
  }

  lemma ScrollingInChunk<R>(s: Cursor<R>, rows: seq<R>, place: Place)
    requires StandsAt(s, rows, place)
    ensures Scrolling(s, rows) && s.InChunk() && s.Valid() && s.open && s.cursorType != ForwardOnly && s.chunks != []
  {
  }

  // ----- runs ------------------------------------------------------------------------------------

  function SingleRows(moves: seq<Orientation>): (calls: seq<(Orientation, nat)>)
    ensures |calls| == |moves| && forall i :: 0 <= i < |calls| ==> calls[i] == (moves[i], 1)
  {
    seq(|moves|, i requires 0 <= i < |moves| => (moves[i], 1))
  }

  /** Every step leads where the simple cursor goes. */
  ghost predicate FollowsAll<R>(s: Cursor<R>, rows: seq<R>, place: Place, moves: seq<Orientation>)
    requires s.Valid() && rows != [] && (place.At? ==> place.row < |rows|)
    decreases |moves|
  {
    moves != [] ==>
      && Follows(s, rows, place, moves[0])
      && FollowsAll(FetchStmt(s, moves[0], 1).0, rows, Scroll(rows, place, moves[0]).0, moves[1..])
  }

  /** Every forward step is safe where it is made. */
  predicate AllSafe<R>(s: Cursor<R>, moves: seq<Orientation>)
    requires s.Valid()
    decreases |moves|
  {
    moves != [] ==>
      && (moves[0] == Next ==> s.chunks != [] && ForwardStepIsSafe(s))
      && AllSafe(FetchStmt(s, moves[0], 1).0, moves[1..])
  }

  /** Every interleaving of the moves, over any chunks, follows the simple cursor exactly if each of its
      forward steps is safe. */
  lemma {:induction false} RunFollowsExactly<R>(s: Cursor<R>, rows: seq<R>, place: Place, moves: seq<Orientation>)
    requires StandsAt(s, rows, place)
    ensures s.Valid() && rows != [] && (place.At? ==> place.row < |rows|)
    ensures FollowsAll(s, rows, place, moves) <==> AllSafe(s, moves)
    decreases |moves|
  {
    hide FetchStmt, Scroll, StandsAt, Cursor.Valid, ForwardStepIsSafe;
    PlaceIs(s, rows, place);
    if moves != [] {
      StepFollowsExactly(s, rows, place, moves[0]);
      if Follows(s, rows, place, moves[0]) {
        RunFollowsExactly(FetchStmt(s, moves[0], 1).0, rows, Scroll(rows, place, moves[0]).0, moves[1..]);
      }
    }
  }

  /** A run that follows the simple cursor returns what it returns. */
  lemma {:induction false} FollowingReturns<R>(s: Cursor<R>, rows: seq<R>, place: Place, moves: seq<Orientation>)
    requires s.Valid() && rows != [] && (place.At? ==> place.row < |rows|)
    requires FollowsAll(s, rows, place, moves)
    ensures Fetches(s, SingleRows(moves)).1 == Scrolls(rows, place, moves)
    decreases |moves|
  {
    hide FetchStmt, Scroll, StandsAt, Cursor.Valid;
    if moves != [] {
      FollowingReturns(FetchStmt(s, moves[0], 1).0, rows, Scroll(rows, place, moves[0]).0, moves[1..]);
      assert SingleRows(moves)[1..] == SingleRows(moves[1..]);
    }
  }

  lemma ScrollingBegins<R>(result: seq<Pulled<R>>)
    requires QuerySucceeds(result) && Upcoming(result) != []
    ensures StandsAt(AfterExecution(Executed(Scrollable, result)).0, Upcoming(result), BeforeFirst)
  {
    BeginWithChunk(Scrollable, result);
    Begin(Scrollable, result);
    hide Whole, Upcoming;
  }

  /** From execution on: a result in any chunks, and any moves. */
  lemma ScrollsFromExecution<R>(result: seq<Pulled<R>>, moves: seq<Orientation>)
    requires QuerySucceeds(result) && Upcoming(result) != []
    ensures var s, rows := AfterExecution(Executed(Scrollable, result)).0, Upcoming(result);
            && s.Valid() && (FollowsAll(s, rows, BeforeFirst, moves) <==> AllSafe(s, moves))
            && (AllSafe(s, moves) ==> Fetches(s, SingleRows(moves)).1 == Scrolls(rows, BeforeFirst, moves))
  {
    hide *;
    var s, rows := AfterExecution(Executed(Scrollable, result)).0, Upcoming(result);
    ScrollingBegins(result);
    RunFollowsExactly(s, rows, BeforeFirst, moves);
    if AllSafe(s, moves) {
      FollowingReturns(s, rows, BeforeFirst, moves);
    }
  }

  // ----- a result in one chunk -------------------------------------------------------------------

  /** A move over the only chunk keeps it. */
  lemma OneChunkKept<R>(s: Cursor<R>, rows: seq<R>, move: Orientation)
    requires s.Valid() && s.open && s.cursorType != ForwardOnly && s.chunks == [rows]
    requires s.resultsetEnd || s.pending == [] || s.pending[0] == Chunk([])
    ensures Move(s, move, 1).0.chunks == [rows]
  {
  }

  /** A result in one chunk stays in one chunk. */
  lemma OneChunkStays<R>(s: Cursor<R>, rows: seq<R>, move: Orientation)
    requires Scrolling(s, rows) && s.chunks == [rows]
    ensures ForwardStepIsSafe(s) && FetchStmt(s, move, 1).0.chunks == [rows]
  {
    FlattenOne(rows);
    assert Source(s) == [];
    OneChunkKept(s, rows, move);
    hide RowsetAfter, Flatten, Move, Whole, QuerySucceeds, Upcoming;
  }

  lemma {:induction false} OneChunkSafe<R>(s: Cursor<R>, rows: seq<R>, place: Place, moves: seq<Orientation>)
    requires StandsAt(s, rows, place) && s.chunks == [rows]
    ensures s.Valid() && AllSafe(s, moves)
    decreases |moves|
  {
    ScrollingInChunk(s, rows, place);
    if moves != [] {
      hide FetchStmt, Scroll, Cursor.Valid, ForwardStepIsSafe;
      PlaceIs(s, rows, place);
      OneChunkStays(s, rows, moves[0]);
      StepFollowsExactly(s, rows, place, moves[0]);
      OneChunkSafe(FetchStmt(s, moves[0], 1).0, rows, Scroll(rows, place, moves[0]).0, moves[1..]);
    }
  }

  /** From execution on, every interleaving of the moves on a result that arrives in one chunk returns
      what the simple cursor returns. */
  lemma OneChunkScrolls<R>(rows: seq<R>, moves: seq<Orientation>)
    requires rows != []
    ensures Fetches(AfterExecution(Executed(Scrollable, [Chunk(rows)])).0, SingleRows(moves)).1
         == Scrolls(rows, BeforeFirst, moves)
  {
    var s := AfterExecution(Executed(Scrollable, [Chunk(rows)])).0;
    assert s.chunks == [rows];
    assert Upcoming([Chunk(rows)]) == rows;
    hide AfterExecution, Executed;
    ScrollingBegins([Chunk(rows)]);
    OneChunkSafe(s, rows, BeforeFirst, moves);
    ScrollsFromExecution([Chunk(rows)], moves);
  }
}
