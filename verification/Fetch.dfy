/**
  The cursor of a statement: a query result arrives chunk by chunk, and SQLFetch and SQLFetchScroll
  move over the chunks that have been kept.
*/
module Fetch {
  import opened Common

  datatype CursorType = ForwardOnly | Scrollable

  datatype Orientation = Next | Prior | First

  datatype Return = Success | SuccessWithInfo | NoData | Error

  /** What the query result hands out when it is asked for a chunk.  An empty chunk means its end. */
  datatype Pulled<R> = Chunk(rows: seq<R>) | QueryError

  /** size_t */
  type Size = n: int | 0 <= n < 0x1_0000_0000_0000_0000

  /** The part of a long value already handed out by SQLGetData: column, row in the chunk, length. */
  datatype LastFetched = LastFetched(colIdx: int, rowIdx: int, length: Size)

  const SINGLE_VALUE_FETCH := 1

  const NOTHING_FETCHED := LastFetched(-1, -1, 0)

  /** The fields of the fetcher together with what the query result will still hand out. */
  datatype Cursor<R> = Cursor(
    cursorType: CursorType,
    chunks: seq<seq<R>>,
    currentChunkIdx: nat,
    currentChunk: Option<seq<R>>,
    chunkRow: int,
    priorChunkRow: int,
    resultsetEnd: bool,
    last: LastFetched,
    open: bool,
    pending: seq<Pulled<R>>)
  {
    /** The current chunk is one of those kept, and no kept chunk is empty. */
    ghost predicate Valid() {
      && (chunks == [] ==> currentChunk.None? && currentChunkIdx == 0 && chunkRow == -1)
      && (chunks != [] ==> currentChunkIdx < |chunks| && currentChunk == Some(chunks[currentChunkIdx]))
      && (forall c :: c in chunks ==> c != [])
      && (cursorType == ForwardOnly ==> |chunks| <= 1)
      && -1 <= chunkRow && priorChunkRow <= chunkRow
    }

    /** The cursor stands before the first row or on a row of the current chunk. */
    ghost predicate InChunk() {
      Valid() && (chunks != [] ==> chunkRow < |chunks[currentChunkIdx]|)
    }

    /** There is a current row. */
    predicate OnRow() {
      currentChunk.Some? && 0 <= chunkRow < |currentChunk.value|
    }

    predicate RequireFetch() {
      chunks == [] || chunkRow >= |chunks[|chunks| - 1]| - 1
    }
  }

  // ----- the moves as functions ------------------------------------------------------------------

  function ChunkSet<R>(s: Cursor<R>): (Cursor<R>, Return) {
    if s.chunks == [] then (s, NoData)
    else
      var idx := if s.cursorType != ForwardOnly && s.currentChunkIdx < |s.chunks| - 1 then s.currentChunkIdx + 1
          else |s.chunks| - 1;
      (s.(currentChunkIdx := idx, currentChunk := Some(s.chunks[idx]), chunkRow := -1, priorChunkRow := -1), Success)
  }

  function Pull<R>(s: Cursor<R>): (Cursor<R>, Return) {
    if s.resultsetEnd then ChunkSet(s)
    else
      var s := s.(last := NOTHING_FETCHED);
      if s.pending == [] || s.pending[0] == Chunk([]) then (s.(resultsetEnd := true), NoData)
      else if s.pending[0].QueryError? then (s.(open := false, pending := s.pending[1..]), Error)
      else
        var kept := if s.cursorType == ForwardOnly then [] else s.chunks;
        ChunkSet(s.(chunks := kept + [s.pending[0].rows], pending := s.pending[1..]))
  }

  function MoveNext<R>(s: Cursor<R>): (Cursor<R>, Return) {
    var s := s.(priorChunkRow := s.chunkRow);
    if !s.RequireFetch() then (s, Success)
    else if s.resultsetEnd && s.chunks != [] && s.currentChunkIdx == |s.chunks| - 1 then (s, NoData)
    else Pull(s)
  }

  function MovePrior<R>(s: Cursor<R>, rowset: nat): (Cursor<R>, Return)
    requires s.Valid()
  {
    var prior := s.priorChunkRow - rowset;
    if s.currentChunkIdx == 0 && prior < -1 then (s.(priorChunkRow := prior, chunkRow := -1), NoData)
    else if prior < -1 then
      var chunk := s.chunks[s.currentChunkIdx - 1];
      var prior := if |chunk| - rowset - 1 < 0 then -1 else |chunk| - rowset - 1;
      (s.(currentChunkIdx := s.currentChunkIdx - 1, currentChunk := Some(chunk), priorChunkRow := prior,
          chunkRow := prior), Success)
    else (s.(priorChunkRow := prior, chunkRow := prior), Success)
  }

  function BeforeStart<R>(s: Cursor<R>): Cursor<R> {
    s.(currentChunk := if s.chunks != [] then Some(s.chunks[0]) else s.currentChunk,
       currentChunkIdx := 0, chunkRow := -1, priorChunkRow := -1)
  }

  function MoveFirst<R>(s: Cursor<R>): (Cursor<R>, Return) {
    var s := BeforeStart(s);
    if s.currentChunk.None? then Pull(s) else (s, Success)
  }

  function Move<R>(s: Cursor<R>, orientation: Orientation, rowset: nat): (r: (Cursor<R>, Return))
    requires s.Valid() && rowset > 0
    ensures r.0.Valid() && (r.1 == Success ==> r.0.chunks != [])
  {
    if s.cursorType == ForwardOnly && orientation != Next then (s, Error)
    else
      MovesValid(s, rowset);
      match orientation
      case Next => MoveNext(s)
      case Prior => MovePrior(s, rowset)
      case First => MoveFirst(s)
  }

  lemma ChunkSetValid<R>(s: Cursor<R>)
    requires forall c :: c in s.chunks ==> c != []
    requires s.cursorType == ForwardOnly ==> |s.chunks| <= 1
    requires s.chunks != []
    ensures var (t, ret) := ChunkSet(s); t.Valid() && ret == Success && t.chunks == s.chunks
  {
    var t := ChunkSet(s).0;
    assert t.chunks == s.chunks;
  }

  lemma PullValid<R>(s: Cursor<R>)
    requires s.Valid()
    ensures var (t, ret) := Pull(s); t.Valid() && (ret == Success ==> t.chunks != [])
  {
    hide ChunkSet;
    if s.resultsetEnd {
      if s.chunks != [] { ChunkSetValid(s); } else { NoChunkSet(s); }
    } else if s.pending != [] && s.pending[0].Chunk? && s.pending[0].rows != [] {
      var kept := if s.cursorType == ForwardOnly then [] else s.chunks;
      ChunkSetValid(s.(last := NOTHING_FETCHED, chunks := kept + [s.pending[0].rows], pending := s.pending[1..]));
    }
  }

  lemma NoChunkSet<R>(s: Cursor<R>)
    requires s.chunks == []
    ensures ChunkSet(s) == (s, NoData)
  {
  }

  lemma MovesValid<R>(s: Cursor<R>, rowset: nat)
    requires s.Valid() && rowset > 0
    ensures MoveNext(s).0.Valid() && (MoveNext(s).1 == Success ==> MoveNext(s).0.chunks != [])
    ensures s.cursorType != ForwardOnly ==>
              MovePrior(s, rowset).0.Valid() && (MovePrior(s, rowset).1 == Success ==>
                  MovePrior(s, rowset).0.chunks != [])
    ensures MoveFirst(s).0.Valid() && (MoveFirst(s).1 == Success ==> MoveFirst(s).0.chunks != [])
  {
    hide Pull;
    PullValid(s.(priorChunkRow := s.chunkRow));
    PullValid(BeforeStart(s));
  }

  /** The rows of the current chunk that a rowset beginning after the current row covers. */
  function RowsetAfter<R>(s: Cursor<R>, rowset: nat): seq<R>
    requires s.currentChunk.Some? && -1 <= s.chunkRow
  {
    var chunk := s.currentChunk.value;
    var from := s.chunkRow + 1;
    if from >= |chunk| then [] else if from + rowset > |chunk| then chunk[from..] else chunk[from..from + rowset]
  }

  lemma RowsetIs<R>(s: Cursor<R>, rowset: nat)
    requires s.currentChunk.Some? && -1 <= s.chunkRow
    ensures var chunk, from := s.currentChunk.value, s.chunkRow + 1;
            var to := if from + rowset > |chunk| then |chunk| else from + rowset;
            if from < to then RowsetAfter(s, rowset) == chunk[from..to] && |RowsetAfter(s, rowset)| == to - from
            else RowsetAfter(s, rowset) == []
  {
    var chunk, from := s.currentChunk.value, s.chunkRow + 1;
    if from + rowset > |chunk| {
      if from < |chunk| { assert chunk[from..] == chunk[from..|chunk|]; }
    }
  }

  lemma OneRow<R>(t: Cursor<R>)
    requires t.currentChunk.Some? && -1 <= t.chunkRow && t.chunkRow + 1 < |t.currentChunk.value|
    ensures RowsetAfter(t, 1) == [t.currentChunk.value[t.chunkRow + 1]]
  {
  }

  function RowsBetween<R>(chunk: seq<R>, from: nat, to: nat): seq<R> {
    if from <= to <= |chunk| then chunk[from..to] else []
  }

  lemma RowsetBetween<R>(s: Cursor<R>, rowset: nat)
    requires s.currentChunk.Some? && -1 <= s.chunkRow
    ensures var chunk, from := s.currentChunk.value, s.chunkRow + 1;
            var to := if from + rowset > |chunk| then |chunk| else from + rowset;
            && RowsBetween(chunk, from, from) == []
            && RowsetAfter(s, rowset) == RowsBetween(chunk, from, if from < to then to else from)
  {
    RowsetIs(s, rowset);
  }

  lemma RowsGrow<R>(chunk: seq<R>, from: nat, to: nat)
    requires from <= to < |chunk|
    ensures RowsBetween(chunk, from, to + 1) == RowsBetween(chunk, from, to) + [chunk[to]]
    ensures |RowsBetween(chunk, from, to)| == to - from && |RowsBetween(chunk, from, to + 1)| == to + 1 - from
  {
  }

  /** One fetch with bound columns: the move, then the rowset.  What the conversions return is added
      by the fetcher. */
  function FetchBound<R>(s: Cursor<R>, orientation: Orientation, rowset: nat): (r: (Cursor<R>, Return, seq<R>))
    requires s.Valid() && rowset > 0
    ensures r.0.Valid()
  {
    var (t, ret) := Move(s, orientation, rowset);
    if ret != Success then (t, ret, [])
    else
      var rows := RowsetAfter(t, rowset);
      (t.(chunkRow := t.chunkRow + |rows|), Success, rows)
  }

  /** One fetch without bound columns: the move, then the current row is advanced unseen. */
  function FetchUnbound<R>(s: Cursor<R>, orientation: Orientation, rowset: nat): (r: (Cursor<R>, Return))
    requires s.Valid() && rowset > 0
    ensures r.0.Valid()
  {
    var (t, ret) := Move(s, orientation, rowset);
    if ret != Success then (t, ret) else (t.(chunkRow := t.chunkRow + rowset), Success)
  }

  // ----- the conversions of the bound columns ----------------------------------------------------

  /** SQL_SUCCEEDED */
  predicate Succeeded(ret: Return) {
    ret == Success || ret == SuccessWithInfo
  }

  predicate AllSucceeded(reports: seq<Return>) {
    forall i :: 0 <= i < |reports| ==> Succeeded(reports[i])
  }

  /** What the conversions of the bound columns return, row by row. */
  function Reports<R>(convert: R -> seq<Return>, rows: seq<R>): seq<Return> {
    if rows == [] then [] else Reports(convert, rows[..|rows| - 1]) + convert(rows[|rows| - 1])
  }

  /** A fetch returns what the last conversion returned. */
  function LastReport(reports: seq<Return>): Return {
    if reports == [] then Success else reports[|reports| - 1]
  }

  /** The status of the rows in order: whether a conversion failed. */
  ghost predicate MarksErrors<R>(errors: seq<bool>, convert: R -> seq<Return>, rows: seq<R>) {
    |errors| == |rows| && forall i :: 0 <= i < |rows| ==> (errors[i] <==> !AllSucceeded(convert(rows[i])))
  }

  lemma BothSucceed(a: seq<Return>, b: seq<Return>)
    ensures AllSucceeded(a + b) <==> AllSucceeded(a) && AllSucceeded(b)
  {
    if AllSucceeded(a + b) {
      forall i | 0 <= i < |a| ensures Succeeded(a[i]) { assert (a + b)[i] == a[i]; }
      forall i | 0 <= i < |b| ensures Succeeded(b[i]) { assert (a + b)[|a| + i] == b[i]; }
    }
  }

  /** Where a row lands in the client's arrays: a single row in the only place, the rows of a rowset at the
      places they have in the chunk. */
  function PlaceOf(rowset: nat, rowIdx: nat): nat {
    if rowset == 1 then 0 else rowIdx
  }

  predicate Placed(places: seq<nat>, rowset: nat, first: nat) {
    forall i :: 0 <= i < |places| ==> places[i] == PlaceOf(rowset, first + i)
  }

  /** The rows land at the beginning of the client's arrays, in order, exactly if the rowset has one row or
      begins the chunk. */
  lemma RowsetInPlaceExactly<R>(t: Cursor<R>, rowset: nat, places: seq<nat>)
    requires t.currentChunk.Some? && -1 <= t.chunkRow && rowset > 0 && RowsetAfter(t, rowset) != []
    requires |places| == |RowsetAfter(t, rowset)| && Placed(places, rowset, t.chunkRow + 1)
    ensures (forall i :: 0 <= i < |places| ==> places[i] == i) <==> rowset == 1 || t.chunkRow == -1
  {
    assert places[0] == PlaceOf(rowset, t.chunkRow + 1);
  }

  /** The number of rows the client is told, in 64-bit arithmetic. */
  function RowsReported<R>(t: Cursor<R>, rowset: nat): Size
    requires t.currentChunk.Some?
  {
    var first, size := t.chunkRow + 1, |t.currentChunk.value|;
    ((if first + rowset > size then size else first + rowset) - first) % 0x1_0000_0000_0000_0000
  }

  lemma ReportedRows<R>(t: Cursor<R>, rowset: nat, first: int, last: int)
    requires t.currentChunk.Some? && first == t.chunkRow + 1
    requires last == if first + rowset > |t.currentChunk.value| then |t.currentChunk.value| else first + rowset
    ensures RowsReported(t, rowset) == (last - first) % 0x1_0000_0000_0000_0000
  {
  }

  /** It is the number of rows delivered exactly if the cursor has not been moved beyond the chunk. */
  lemma CountIsRightExactly<R>(t: Cursor<R>, rowset: Size)
    requires t.currentChunk.Some? && -1 <= t.chunkRow < 0x7FFF_FFFF_FFFF_FFFF
    requires |t.currentChunk.value| < 0x8000_0000_0000_0000
    ensures RowsReported(t, rowset) == |RowsetAfter(t, rowset)| <==> t.chunkRow + 1 <= |t.currentChunk.value|
  {
    var first, size := t.chunkRow + 1, |t.currentChunk.value|;
    RowsetIs(t, rowset);
    if first > size {
      assert (size - first) % 0x1_0000_0000_0000_0000 == size - first + 0x1_0000_0000_0000_0000;
    }
  }

  /** The conversions of some rows, one after the other. */
  ghost predicate Converted<R>(convert: R -> seq<Return>, rows: seq<R>, ret: Return, errors: seq<bool>) {
    ret == LastReport(Reports(convert, rows)) && MarksErrors(errors, convert, rows)
  }

  lemma NoRows<R>(convert: R -> seq<Return>, rowset: nat, first: nat)
    ensures Converted(convert, [], Success, []) && Placed([], rowset, first)
  {
  }

  lemma OneMorePlace(places: seq<nat>, rowset: nat, first: nat)
    requires Placed(places, rowset, first)
    ensures Placed(places + [PlaceOf(rowset, first + |places|)], rowset, first)
  {
  }

  lemma OneMoreRow<R>(convert: R -> seq<Return>, rows: seq<R>, row: R, before: Return, errors: seq<bool>, error: bool)
    requires Converted(convert, rows, before, errors) && (error <==> !AllSucceeded(convert(row)))
    ensures Converted(convert, rows + [row], if convert(row) == [] then before
            else convert(row)[|convert(row)| - 1], errors + [error])
  {
    assert (rows + [row])[..|rows|] == rows;
    hide AllSucceeded;
  }

  /** A conversion of row `k` of the rows of a chunk from `first` on fails. */
  predicate RowFails<R>(convert: R -> seq<Return>, chunk: seq<R>, first: nat, k: nat)
    requires first + k < |chunk|
  {
    !AllSucceeded(convert(chunk[first + k]))
  }

  ghost predicate FirstError<R>(convert: R -> seq<Return>, chunk: seq<R>, first: nat, k: nat)
    requires first + k < |chunk|
  {
    RowFails(convert, chunk, first, k) && forall j :: 0 <= j < k ==> !RowFails(convert, chunk, first, j)
  }

  ghost predicate HasFirstError<R>(convert: R -> seq<Return>, chunk: seq<R>, first: nat, n: nat)
    requires first + n <= |chunk|
  {
    exists k :: 0 <= k < n && FirstError(convert, chunk, first, k)
  }

  /** A row that failed, or the first before it. */
  lemma {:induction false} FindFirstError<R>(convert: R -> seq<Return>, chunk: seq<R>, first: nat, k: nat)
    returns (e: nat)
    requires first + k < |chunk| && RowFails(convert, chunk, first, k)
    ensures e <= k && FirstError(convert, chunk, first, e)
  {
    hide RowFails;
    if j :| 0 <= j < k && RowFails(convert, chunk, first, j) {
      e := FindFirstError(convert, chunk, first, j);
    } else {
      e := k;
    }
  }

  /** The rowset of a fetch is a part of the chunk the move leads to. */
  lemma FetchedRows<R>(s: Cursor<R>, orientation: Orientation, rowset: nat)
    requires s.Valid() && rowset > 0 && Move(s, orientation, rowset).1 == Success
    ensures var t, rows := Move(s, orientation, rowset).0, FetchBound(s, orientation, rowset).2;
            && t.currentChunk.Some? && -1 <= t.chunkRow && rows == RowsetAfter(t, rowset)
            && (rows != [] ==> t.chunkRow + 1 + |rows| <= |t.currentChunk.value|)
            && forall i :: 0 <= i < |rows| ==> rows[i] == t.currentChunk.value[t.chunkRow + 1 + i]
  {
    hide Move;
  }

  /** A fetch with bound columns that succeeds although a row has an error: exactly if there is a first row
      with an error and the very last conversion, in the last row of the rowset, succeeds. */
  lemma ErrorsAreMaskedExactly<R>(s: Cursor<R>, orientation: Orientation, rowset: nat, convert: R -> seq<Return>,
                                  errors: seq<bool>)
    requires s.Valid() && rowset > 0 && Move(s, orientation, rowset).1 == Success
    requires var rows := FetchBound(s, orientation, rowset).2;
             rows != [] && convert(rows[|rows| - 1]) != [] && MarksErrors(errors, convert, rows)
    ensures var t, rows := Move(s, orientation, rowset).0, FetchBound(s, orientation, rowset).2;
            && t.currentChunk.Some? && -1 <= t.chunkRow && t.chunkRow + 1 + |rows| <= |t.currentChunk.value|
            && var chunk, first := t.currentChunk.value, t.chunkRow + 1;
            var last := convert(chunk[first + |rows| - 1]);
            && last != []
            && (Succeeded(LastReport(Reports(convert, rows))) && true in errors <==>
                Succeeded(last[|last| - 1]) && HasFirstError(convert, chunk, first, |rows|))
  {
    hide Move, FetchBound, AllSucceeded, RowsetAfter, MarksErrors, Reports, LastReport, HasFirstError;
    FetchedRows(s, orientation, rowset);
    var t, rows := Move(s, orientation, rowset).0, FetchBound(s, orientation, rowset).2;
    LastOfReports(convert, rows);
    var chunk, first := t.currentChunk.value, t.chunkRow + 1;
    ErrorsHaveFirst(convert, rows, errors, chunk, first);
    assert rows[|rows| - 1] == chunk[first + |rows| - 1];
  }

  lemma LastOfReports<R>(convert: R -> seq<Return>, rows: seq<R>)
    requires rows != [] && convert(rows[|rows| - 1]) != []
    ensures LastReport(Reports(convert, rows)) == convert(rows[|rows| - 1])[|convert(rows[|rows| - 1])| - 1]
  {
  }

  lemma ErrorsHaveFirst<R>(convert: R -> seq<Return>, rows: seq<R>, errors: seq<bool>, chunk: seq<R>, first: nat)
    requires MarksErrors(errors, convert, rows) && first + |rows| <= |chunk|
    requires forall i :: 0 <= i < |rows| ==> rows[i] == chunk[first + i]
    ensures true in errors <==> HasFirstError(convert, chunk, first, |rows|)
  {
    hide AllSucceeded;
    if true in errors {
      var i :| 0 <= i < |errors| && errors[i];
      assert rows[i] == chunk[first + i] && RowFails(convert, chunk, first, i);
      var k := FindFirstError(convert, chunk, first, i);
      assert FirstError(convert, chunk, first, k);
    }
    if k :| 0 <= k < |rows| && FirstError(convert, chunk, first, k) {
      assert RowFails(convert, chunk, first, k) && rows[k] == chunk[first + k];
      assert errors[k];
    }
  }

  /** The first of two rows fails, and the fetch succeeds. */
  lemma ErrorIsMasked<R>(a: R, b: R, convert: R -> seq<Return>)
    requires convert(a) == [Error] && convert(b) == [Success]
    ensures LastReport(Reports(convert, [a, b])) == Success && !AllSucceeded(convert(a))
  {
    assert !Succeeded(convert(a)[0]);
    assert [a, b][..1] == [a];
  }

  // ----- the fetcher -----------------------------------------------------------------------------

  class OdbcFetch<R(==)> {
    var cursorType: CursorType
    var last: LastFetched
    var chunks: seq<seq<R>>
    var currentChunkIdx: nat
    var currentChunk: Option<seq<R>>
    var chunkRow: int
    var priorChunkRow: int
    var resultsetEnd: bool
    // the statement's open flag, and its query result
    var open: bool
    var pending: seq<Pulled<R>>

    function State(): Cursor<R>
      reads this
    {
      Cursor(cursorType, chunks, currentChunkIdx, currentChunk, chunkRow, priorChunkRow, resultsetEnd, last, open,
          pending)
    }

    /** A statement that has just been executed: nothing has been pulled from its result. */
    constructor (cursorType: CursorType, result: seq<Pulled<R>>)
      ensures State() == Executed(cursorType, result)
    {
      this.cursorType := cursorType;
      last := NOTHING_FETCHED;
      chunks, currentChunk, currentChunkIdx := [], None, 0;
      chunkRow, priorChunkRow := -1, -1;
      resultsetEnd, open, pending := false, true, result;
    }

    method SetCurrentChunk() returns (ret: Return)
      modifies this
      ensures (State(), ret) == ChunkSet(old(State()))
    {
      if chunks == [] {
        return NoData;
      }
      if cursorType != ForwardOnly && currentChunkIdx < |chunks| - 1 {
        currentChunkIdx := currentChunkIdx + 1;
        currentChunk := Some(chunks[currentChunkIdx]);
        chunkRow, priorChunkRow := -1, -1;
        return Success;
      }
      currentChunk := Some(chunks[|chunks| - 1]);
      currentChunkIdx := |chunks| - 1;
      chunkRow, priorChunkRow := -1, -1;
      return Success;
    }

    method FetchNext() returns (ret: Return)
      modifies this
      ensures (State(), ret) == Pull(old(State()))
    {
      if !resultsetEnd {
        last := NOTHING_FETCHED;
        if pending == [] || pending[0] == Chunk([]) {
          resultsetEnd := true;
          return NoData;
        }
        var pulled := pending[0];
        pending := pending[1..];
        if pulled.QueryError? {
          open := false;
          return Error;
        }
        if cursorType == ForwardOnly {
          chunks := [];
        }
        chunks := chunks + [pulled.rows];
      }
      ret := SetCurrentChunk();
    }

    method SetPriorCurrentChunk(rowset: nat) returns (ret: Return)
      requires State().Valid()
      modifies this
      ensures (State(), ret) == MovePrior(old(State()), rowset)
    {
      priorChunkRow := priorChunkRow - rowset;
      if currentChunkIdx == 0 && priorChunkRow < -1 {
        chunkRow := -1;
        return NoData;
      }
      if priorChunkRow < -1 {
        currentChunkIdx := currentChunkIdx - 1;
        currentChunk := Some(chunks[currentChunkIdx]);
        priorChunkRow := |chunks[currentChunkIdx]| - rowset - 1;
        if priorChunkRow < 0 {
          priorChunkRow := -1;
        }
      }
      chunkRow := priorChunkRow;
      return Success;
    }

    method SetFirstCurrentChunk() returns (ret: Return)
      modifies this
      ensures (State(), ret) == MoveFirst(old(State()))
    {
      if chunks != [] {
        currentChunk := Some(chunks[0]);
      }
      currentChunkIdx := 0;
      chunkRow, priorChunkRow := -1, -1;
      if currentChunk.None? {
        ret := FetchNext();
        return;
      }
      return Success;
    }

    method FetchNextChunk(orientation: Orientation, rowset: nat) returns (ret: Return)
      requires State().Valid() && rowset > 0
      modifies this
      ensures (State(), ret) == Move(old(State()), orientation, rowset)
    {
      if cursorType == ForwardOnly && orientation != Next {
        return Error;
      }
      match orientation {
        case Next =>
          priorChunkRow := chunkRow;
          if chunks == [] || chunkRow >= |chunks[|chunks| - 1]| - 1 {
            if resultsetEnd && chunks != [] && currentChunkIdx == |chunks| - 1 {
              return NoData;
            }
            ret := FetchNext();
            return;
          }
          return Success;
        case Prior =>
          ret := SetPriorCurrentChunk(rowset);
        case First =>
          ret := SetFirstCurrentChunk();
      }
    }

    /** SQLFetch and SQLFetchScroll.  With bound columns `rows` are the rows converted for the client, in
        order, and `errors` their status. */
    method FetchStmtResult(orientation: Orientation, rowset: nat, bound: bool, convert: R -> seq<Return>)
      returns (ret: Return, rows: seq<R>, errors: seq<bool>, places: seq<nat>, count: Option<Size>)
      requires State().Valid() && rowset > 0
      modifies this
      ensures MarksErrors(errors, convert, rows) && |places| == |rows|
      ensures old(open) && bound ==>
                var t, (u, moved, fetched) := Move(old(State()), orientation, rowset).0,
                    FetchBound(old(State()), orientation, rowset);
                && State() == u && rows == fetched
                && ret == (if moved == Success then LastReport(Reports(convert, rows)) else moved)
                && Placed(places, rowset, t.chunkRow + 1)
                && count == (if moved == Success then Some(RowsReported(t, rowset)) else None)
      ensures old(open) && !bound ==>
                && (State(), ret) == FetchUnbound(old(State()), orientation, rowset) && rows == []
                && count == if ret == Success then Some(1) else None
      ensures !old(open) ==> (State(), ret, rows, count) == (old(State()), NoData, [], None)
    {
      hide Move, RowsReported;
      rows, errors, places, count := [], [], [], None;
      if !open {
        return NoData, rows, errors, places, None;
      }
      ret := FetchNextChunk(orientation, rowset);
      if ret != Success {
        return;
      }
      if bound {
        var reported;
        ret, rows, errors, places, reported := ColumnWise(rowset, convert);
        count := Some(reported);
      } else {
        chunkRow := chunkRow + rowset;
        count := Some(1);
      }
    }

    method ColumnWise(rowset: nat, convert: R -> seq<Return>)
      returns (ret: Return, rows: seq<R>, errors: seq<bool>, places: seq<nat>, count: Size)
      requires State().currentChunk.Some? && -1 <= chunkRow
      modifies this`chunkRow
      ensures rows == RowsetAfter(old(State()), rowset)
      ensures State() == old(State()).(chunkRow := old(chunkRow) + |rows|)
      ensures Converted(convert, rows, ret, errors)
      ensures |places| == |rows| && Placed(places, rowset, old(chunkRow) + 1)
      ensures count == RowsReported(old(State()), rowset)
    {
      hide RowsetAfter, RowsBetween, Converted, RowsReported, Placed;
      ret := Success;
      var chunk := currentChunk.value;
      var firstRow := chunkRow + 1;
      var lastRow := firstRow + rowset;
      if lastRow > |chunk| {
        lastRow := |chunk|;
      }
      rows, errors, places := [], [], [];
      var rowIdx := firstRow;
      RowsetBetween(State(), rowset);
      ReportedRows(State(), rowset, firstRow, lastRow);
      NoRows(convert, rowset, firstRow);
      while rowIdx < lastRow
        invariant firstRow <= rowIdx <= (if firstRow < lastRow then lastRow else firstRow)
        invariant chunkRow == rowIdx - 1
        invariant rows == RowsBetween(chunk, firstRow, rowIdx) && |rows| == rowIdx - firstRow == |places|
        invariant Converted(convert, rows, ret, errors)
        invariant Placed(places, rowset, firstRow)
      {
        chunkRow := chunkRow + 1;
        RowsGrow(chunk, firstRow, rowIdx);
        OneMorePlace(places, rowset, firstRow);
        ret, rows, errors := ConvertRow(chunk[chunkRow], convert, ret, rows, errors);
        places := places + [if rowset != SINGLE_VALUE_FETCH then rowIdx else 0];
        rowIdx := rowIdx + 1;
      }
      count := (lastRow - firstRow) % 0x1_0000_0000_0000_0000;
    }

    /** One row, and its status. */
    static method ConvertRow(row: R, convert: R -> seq<Return>, before: Return, rowsBefore: seq<R>,
                             errorsBefore: seq<bool>)
      returns (ret: Return, rows: seq<R>, errors: seq<bool>)
      requires Converted(convert, rowsBefore, before, errorsBefore)
      ensures rows == rowsBefore + [row] && Converted(convert, rows, ret, errors)
    {
      hide Converted;
      var error;
      ret, error := FillColumns(convert(row), before);
      OneMoreRow(convert, rowsBefore, row, before, errorsBefore, error);
      rows, errors := rowsBefore + [row], errorsBefore + [error];
    }

    /** The conversions of one row, one column after the other. */
    static method FillColumns(reports: seq<Return>, before: Return) returns (ret: Return, error: bool)
      ensures ret == if reports == [] then before else reports[|reports| - 1]
      ensures error <==> !AllSucceeded(reports)
    {
      ret, error := before, false;
      for col := 0 to |reports|
        invariant ret == if col == 0 then before else reports[col - 1]
        invariant error <==> !AllSucceeded(reports[..col])
      {
        ret := reports[col];
        assert reports[..col + 1] == reports[..col] + [ret];
        BothSucceed(reports[..col], [ret]);
        if !Succeeded(ret) {
          assert !Succeeded([ret][0]);
          error := true;
        }
      }
      assert reports[..|reports|] == reports;
    }

    /** Forget the offset saved for a long value unless it was saved for this column and row. */
    method SetLastFetchedVariableVal(colIdx: int)
      modifies this`last
      ensures last == LastFetched(colIdx, chunkRow, SavedLength(old(last), colIdx, chunkRow))
    {
      if last.colIdx != colIdx || last.rowIdx != chunkRow {
        last := last.(length := 0);
      }
      last := last.(colIdx := colIdx, rowIdx := chunkRow);
    }

    method SetLastFetchedLength(newLen: Size)
      modifies this`last
      ensures last == old(last).(length := newLen)
    {
      last := last.(length := newLen);
    }

    /** The fetch after execution: the first chunk is pulled as if the cursor could scroll. */
    method FetchFirst() returns (ret: Return)
      requires State().Valid()
      modifies this
      ensures (State(), ret) == AfterExecution(old(State()))
    {
      var cursorTypeBefore := cursorType;
      cursorType := Scrollable;
      ret := FetchNextChunk(First, 1);
      cursorType := cursorTypeBefore;
    }
  }

  /** The offset at which the next part of a long value starts. */
  function SavedLength(last: LastFetched, colIdx: int, rowIdx: int): Size {
    if last.colIdx == colIdx && last.rowIdx == rowIdx then last.length else 0
  }

  function Executed<R>(cursorType: CursorType, result: seq<Pulled<R>>): Cursor<R> {
    Cursor(cursorType, [], 0, None, -1, -1, false, NOTHING_FETCHED, true, result)
  }

  function AfterExecution<R>(s: Cursor<R>): (Cursor<R>, Return)
  {
    var (t, ret) := MoveFirst(s.(cursorType := Scrollable));
    (t.(cursorType := s.cursorType), ret)
  }
}
