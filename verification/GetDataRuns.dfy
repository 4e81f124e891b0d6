/**
  SQLGetData and bound columns between fetches: which saved offset is applied to which cell.
*/
module GetDataRuns {
  import opened Common
  import opened Fetch
  import FetchRuns
  import opened GetData

  type Rowset = n: nat | n > 0 witness 1

  /** The bound columns of variable length, and their buffers. */
  type Columns = seq<(int, Buffer)>

  /** SQLFetch or SQLFetchScroll, with bound columns if there are any, or SQLGetData on a column of the
      current row. */
  datatype Event =
    | Fetch(orientation: Orientation, rowset: Rowset, columns: Option<Columns>)
    | Read(col: int, buffer: Buffer)

  /** A cell of the result.  A scrollable cursor keeps its chunks, so the place of a chunk names it; of a
      forward-only cursor, which holds one chunk, the number of chunks still to come does. */
  datatype Cell = Cell(chunk: nat, row: int, col: int)

  /** The bytes of a cell in a C type; none if the cell is NULL or cannot be converted. */
  type Values = (Cell, CType) -> Option<Bytes>

  function CurrentChunk<R>(s: Cursor<R>): nat {
    if s.cursorType == ForwardOnly then |s.pending| else s.currentChunkIdx
  }

  function CurrentCell<R>(s: Cursor<R>, col: int): Cell {
    Cell(CurrentChunk(s), s.chunkRow, col)
  }

  /** A read hands out a part of a value from an offset on, or there is no value, or the current place is
      not a row, and what is read there is not known. */
  datatype Reading = Handed(offset: Size, outcome: Outcome) | NoValue | OffRow

  function ReadingAt(value: Option<Bytes>, offset: Size, buffer: Buffer): Reading {
    if value.None? then NoValue else Handed(offset, NextPart(value.value, offset, buffer))
  }

  function OffsetAfter(value: Bytes, offset: Size, buffer: Buffer): Size {
    (offset + NextPart(value, offset, buffer).Count()) % SIZES
  }

  // ----- the driver ------------------------------------------------------------------------------

  function ReadCell<R>(s: Cursor<R>, values: Values, col: int, buffer: Buffer): (r: (Cursor<R>, Reading))
    ensures s.Valid() ==> r.0.Valid()
  {
    var value, offset := values(CurrentCell(s, col), buffer.ctype), SavedLength(s.last, col, s.chunkRow);
    var last := if value.None? then s.last else LastFetched(col, s.chunkRow, OffsetAfter(value.value, offset, buffer));
    (s.(last := last), ReadingAt(value, offset, buffer))
  }

  /** SQLGetData: after a failed query an error is returned, and without a chunk a NULL. */
  function GetCell<R>(s: Cursor<R>, values: Values, col: int, buffer: Buffer): (r: (Cursor<R>, Reading))
    ensures s.Valid() ==> r.0.Valid()
  {
    if !s.open || s.currentChunk.None? then (s, NoValue)
    else if !s.OnRow() then (s, OffRow)
    else ReadCell(s, values, col, buffer)
  }

  /** The dispatch on the C type; `values` are the conversions of the value.  The diagnostics and the length
      pointer are those of GetVariableValue. */
  method GetDataStmtResult<R>(fetcher: OdbcFetch<R>, values: Values, col: int, target: array<Byte>, buffer: Buffer)
    returns (reading: Reading)
    requires buffer.length <= target.Length
    modifies fetcher`last, target
    ensures (fetcher.State(), reading) == GetCell(old(fetcher.State()), values, col, buffer)
  {
    if !fetcher.open || fetcher.currentChunk.None? {
      return NoValue;
    }
    if !fetcher.State().OnRow() {
      return OffRow;
    }
    var value := values(CurrentCell(fetcher.State(), col), buffer.ctype);
    if value.None? {
      return NoValue;
    }
    hide NextPart;
    var offset := SavedLength(fetcher.last, col, fetcher.chunkRow);
    var ret, _, copied, overrun := GetVariableValue(fetcher, col, value.value, target, buffer, true);
    reading := Handed(offset, if overrun then Overrun(ret, copied) else Part(ret, target[..copied]));
  }

  /** The bound columns of the current row. */
  function ReadColumns<R>(s: Cursor<R>, values: Values, columns: Columns): (r: (Cursor<R>, seq<Reading>))
    ensures s.Valid() ==> r.0.Valid()
    ensures r.0.(last := s.last) == s
    decreases |columns|
  {
    if columns == [] then (s, [])
    else
      var (t, reading) := ReadCell(s, values, columns[0].0, columns[0].1);
      var (u, rest) := ReadColumns(t, values, columns[1..]);
      (u, [reading] + rest)
  }

  /** The bound columns of the next `n` rows. */
  function ReadRows<R>(s: Cursor<R>, values: Values, columns: Columns, n: nat): (r: (Cursor<R>, seq<Reading>))
    ensures s.Valid() && s.chunks != [] ==> r.0.Valid()
    ensures r.0.(last := s.last) == s.(chunkRow := s.chunkRow + n)
    decreases n
  {
    if n == 0 then (s, [])
    else
      var (t, row) := ReadColumns(s.(chunkRow := s.chunkRow + 1), values, columns);
      var (u, rest) := ReadRows(t, values, columns, n - 1);
      (u, row + rest)
  }

  function Step<R>(s: Cursor<R>, values: Values, event: Event): (r: (Cursor<R>, seq<Reading>))
    requires s.Valid()
    ensures r.0.Valid()
  {
    match event
    case Read(col, buffer) =>
      var (t, reading) := GetCell(s, values, col, buffer);
      (t, [reading])
    case Fetch(orientation, rowset, columns) =>
      if !s.open then (s, [])
      else
        var (t, ret) := Move(s, orientation, rowset);
        if ret != Success then (t, [])
        else if columns.None? then (t.(chunkRow := t.chunkRow + rowset), [])
        else ReadRows(t, values, columns.value, |RowsetAfter(t, rowset)|)
  }

  /** Between the reads a step moves as the fetcher does. */
  lemma StepMoves<R>(s: Cursor<R>, values: Values, event: Event)
    requires s.Valid() && event.Fetch? && s.open
    ensures var t := if event.columns.None? then FetchUnbound(s, event.orientation, event.rowset).0
                     else FetchBound(s, event.orientation, event.rowset).0;
            Step(s, values, event).0.(last := t.last) == t
  {
    hide Move, RowsetAfter;
  }

  /** What is read is not a row of the chunk. */
  predicate ReadsOffRow<R>(s: Cursor<R>, event: Event) {
    event.Read? && s.open && s.currentChunk.Some? && !s.OnRow()
  }

  /** A run ends with a read that is not on a row, for nothing is known of what follows. */
  function Run<R>(s: Cursor<R>, values: Values, events: seq<Event>): (r: (Cursor<R>, seq<Reading>))
    requires s.Valid()
    ensures r.0.Valid()
    decreases |events|
  {
    if events == [] then (s, [])
    else
      var (t, readings) := Step(s, values, events[0]);
      if ReadsOffRow(s, events[0]) then (t, readings)
      else
        var (u, rest) := Run(t, values, events[1..]);
        (u, readings + rest)
  }

  // ----- the cells a run visits ------------------------------------------------------------------

  /** A chunk is asked for, or a cell is read, or a read finds no cell, because there is no chunk
      or because the place in it is not a row. */
  datatype Visit = Asked | At(cell: Cell, buffer: Buffer) | Missed(offRow: bool)

  /** A chunk is asked of the query result, which makes the fetcher forget its saved offset. */
  predicate AsksForChunk<R>(s: Cursor<R>, orientation: Orientation) {
    && s.open && !s.resultsetEnd && (s.cursorType == ForwardOnly ==> orientation == Next)
    && match orientation
       case Next => s.RequireFetch()
       case Prior => false
       case First => s.chunks == [] && s.currentChunk.None?
  }

  function ReadVisit<R>(s: Cursor<R>, col: int, buffer: Buffer): Visit {
    if !s.open || s.currentChunk.None? then Missed(false)
    else if !s.OnRow() then Missed(true)
    else At(CurrentCell(s, col), buffer)
  }

  function ColumnVisits<R>(s: Cursor<R>, columns: Columns): seq<Visit> {
    if columns == [] then []
    else [At(CurrentCell(s, columns[0].0), columns[0].1)] + ColumnVisits(s, columns[1..])
  }

  function RowVisits<R>(s: Cursor<R>, columns: Columns, n: nat): seq<Visit>
    decreases n
  {
    if n == 0 then []
    else
      var t := s.(chunkRow := s.chunkRow + 1);
      ColumnVisits(t, columns) + RowVisits(t, columns, n - 1)
  }

  function StepVisits<R>(s: Cursor<R>, event: Event): seq<Visit>
    requires s.Valid()
  {
    match event
    case Read(col, buffer) => [ReadVisit(s, col, buffer)]
    case Fetch(orientation, rowset, columns) =>
      (if AsksForChunk(s, orientation) then [Asked] else []) +
      if !s.open then []
      else
        var (t, ret) := Move(s, orientation, rowset);
        if ret != Success || columns.None? then [] else RowVisits(t, columns.value, |RowsetAfter(t, rowset)|)
  }

  function Visits<R>(s: Cursor<R>, values: Values, events: seq<Event>): seq<Visit>
    requires s.Valid()
    decreases |events|
  {
    if events == [] then []
    else if ReadsOffRow(s, events[0]) then StepVisits(s, events[0])
    else StepVisits(s, events[0]) + Visits(Step(s, values, events[0]).0, values, events[1..])
  }

  // ----- two readers of these cells --------------------------------------------------------------

  /** The driver recognises a cell by its column and its row in the current chunk. */
  function DriverReads(last: LastFetched, values: Values, visit: Visit): seq<Reading> {
    match visit
    case Asked => []
    case Missed(offRow) => [if offRow then OffRow else NoValue]
    case At(cell, buffer) =>
      [ReadingAt(values(cell, buffer.ctype), SavedLength(last, cell.col, cell.row), buffer)]
  }

  function LastAfter(last: LastFetched, values: Values, visit: Visit): LastFetched {
    match visit
    case Asked => NOTHING_FETCHED
    case Missed(_) => last
    case At(cell, buffer) =>
      var value := values(cell, buffer.ctype);
      if value.None? then last
      else LastFetched(cell.col, cell.row, OffsetAfter(value.value, SavedLength(last, cell.col, cell.row), buffer))
  }

  function Driver(last: LastFetched, values: Values, visits: seq<Visit>): seq<Reading>
    decreases |visits|
  {
    if visits == [] then []
    else DriverReads(last, values, visits[0]) + Driver(LastAfter(last, values, visits[0]), values, visits[1..])
  }

  function LastAfterAll(last: LastFetched, values: Values, visits: seq<Visit>): LastFetched
    decreases |visits|
  {
    if visits == [] then last else LastAfterAll(LastAfter(last, values, visits[0]), values, visits[1..])
  }

  /** A reader that knows which cell it has read last, in which type, and how far, until a chunk is asked
      for. */
  datatype Bookmark = Nothing | ReadUpTo(cell: Cell, ctype: CType, offset: Size)

  function OffsetIn(mark: Bookmark, cell: Cell, ctype: CType): Size {
    if mark.ReadUpTo? && mark.cell == cell && mark.ctype == ctype then mark.offset else 0
  }

  function IdealReads(mark: Bookmark, values: Values, visit: Visit): seq<Reading> {
    match visit
    case Asked => []
    case Missed(offRow) => [if offRow then OffRow else NoValue]
    case At(cell, buffer) =>
      [ReadingAt(values(cell, buffer.ctype), OffsetIn(mark, cell, buffer.ctype), buffer)]
  }

  function MarkAfter(mark: Bookmark, values: Values, visit: Visit): Bookmark {
    match visit
    case Asked => Nothing
    case Missed(_) => mark
    case At(cell, buffer) =>
      var value := values(cell, buffer.ctype);
      if value.None? then mark
      else ReadUpTo(cell, buffer.ctype, OffsetAfter(value.value, OffsetIn(mark, cell, buffer.ctype), buffer))
  }

  function Ideal(mark: Bookmark, values: Values, visits: seq<Visit>): seq<Reading>
    decreases |visits|
  {
    if visits == [] then []
    else IdealReads(mark, values, visits[0]) + Ideal(MarkAfter(mark, values, visits[0]), values, visits[1..])
  }

  /** The value read last had the same column and the same row number, some of it had been handed out, and
      it was in a different chunk or read as a different type. */
  predicate Crosses(mark: Bookmark, cell: Cell, ctype: CType) {
    && mark.ReadUpTo? && mark.offset > 0 && mark.cell.col == cell.col && mark.cell.row == cell.row
    && (mark.cell.chunk != cell.chunk || mark.ctype != ctype)
  }

  /** No value is read where `bad` holds of it and of what has been read last. */
  predicate Never(bad: (Bookmark, Cell, CType) -> bool, mark: Bookmark, values: Values, visits: seq<Visit>)
    decreases |visits|
  {
    visits != [] ==>
      && !BadVisit(bad, mark, values, visits[0])
      && Never(bad, MarkAfter(mark, values, visits[0]), values, visits[1..])
  }

  predicate BadVisit(bad: (Bookmark, Cell, CType) -> bool, mark: Bookmark, values: Values, visit: Visit) {
    visit.At? && values(visit.cell, visit.buffer.ctype).Some? && bad(mark, visit.cell, visit.buffer.ctype)
  }

  predicate NeverCrosses(mark: Bookmark, values: Values, visits: seq<Visit>) {
    Never(Crosses, mark, values, visits)
  }

  /** The saved offset is that of the marked cell. */
  predicate Agrees(last: LastFetched, mark: Bookmark) {
    match mark
    case Nothing => last.length == 0
    case ReadUpTo(cell, _, offset) => last == LastFetched(cell.col, cell.row, offset)
  }

  /** One read: the driver's offset is right exactly if the read does not cross over from another chunk or
      another type. */
  lemma OffsetIsRightExactly(last: LastFetched, mark: Bookmark, cell: Cell, ctype: CType)
    requires Agrees(last, mark)
    ensures SavedLength(last, cell.col, cell.row) == OffsetIn(mark, cell, ctype) <==> !Crosses(mark, cell, ctype)
  {
  }

  /** One visit: both readers return the same exactly if it is not a crossing, and then they still agree. */
  lemma VisitIsRightExactly(last: LastFetched, mark: Bookmark, values: Values, visit: Visit)
    requires Agrees(last, mark)
    ensures |DriverReads(last, values, visit)| == |IdealReads(mark, values, visit)|
    ensures DriverReads(last, values, visit) == IdealReads(mark, values, visit) <==>
            !BadVisit(Crosses, mark, values, visit)
    ensures !BadVisit(Crosses, mark, values, visit) ==>
              Agrees(LastAfter(last, values, visit), MarkAfter(mark, values, visit))
  {
    hide NextPart, OffsetAfter;
    if visit.At? {
      var cell, buffer := visit.cell, visit.buffer;
      OffsetIsRightExactly(last, mark, cell, buffer.ctype);
      var driven := ReadingAt(values(cell, buffer.ctype), SavedLength(last, cell.col, cell.row), buffer);
      var known := ReadingAt(values(cell, buffer.ctype), OffsetIn(mark, cell, buffer.ctype), buffer);
      assert [driven] == [known] <==> driven == known by { HeadsDiffer([driven], [], [known], []); }
    }
  }

  /** A whole run: the driver returns what the reader that knows its cells returns, exactly if no read
      crosses over from another chunk or another type. */
  lemma {:induction false} ReadsAreRightExactly(last: LastFetched, mark: Bookmark, values: Values, visits: seq<Visit>)
    requires Agrees(last, mark)
    ensures Driver(last, values, visits) == Ideal(mark, values, visits) <==> NeverCrosses(mark, values, visits)
    decreases |visits|
  {
    hide DriverReads, IdealReads, LastAfter, MarkAfter, BadVisit, Agrees, Crosses;
    if visits != [] {
      var visit, rest := visits[0], visits[1..];
      VisitIsRightExactly(last, mark, values, visit);
      var next, known := LastAfter(last, values, visit), MarkAfter(mark, values, visit);
      HeadsDiffer(DriverReads(last, values, visit), Driver(next, values, rest),
                  IdealReads(mark, values, visit), Ideal(known, values, rest));
      if !BadVisit(Crosses, mark, values, visit) {
        ReadsAreRightExactly(next, known, values, rest);
      }
    }
  }

  lemma HeadsDiffer<T>(a: seq<T>, c: seq<T>, b: seq<T>, d: seq<T>)
    requires |a| == |b|
    ensures a + c == b + d <==> a == b && c == d
  {
    if a + c == b + d {
      assert a == (a + c)[..|a|] == (b + d)[..|a|] == b;
      assert c == (a + c)[|a|..] == (b + d)[|a|..] == d;
    }
  }

  // ----- a run is what its visits make of it -----------------------------------------------------

  lemma {:induction false} DriverConcat(last: LastFetched, values: Values, a: seq<Visit>, b: seq<Visit>)
    ensures Driver(last, values, a + b) == Driver(last, values, a) + Driver(LastAfterAll(last, values, a), values, b)
    ensures LastAfterAll(last, values, a + b) == LastAfterAll(LastAfterAll(last, values, a), values, b)
    decreases |a|
  {
    hide DriverReads, LastAfter;
    if a == [] {
      assert a + b == b;
    } else {
      assert (a + b)[1..] == a[1..] + b;
      var next := LastAfter(last, values, a[0]);
      DriverConcat(next, values, a[1..], b);
      ConcatAssociative(DriverReads(last, values, a[0]), Driver(next, values, a[1..]),
                        Driver(LastAfterAll(next, values, a[1..]), values, b));
    }
  }

  /** Reading cells leaves what the visits leave. */
  ghost predicate Mirrors(before: LastFetched, after: LastFetched, readings: seq<Reading>, values: Values,
                          visits: seq<Visit>) {
    readings == Driver(before, values, visits) && after == LastAfterAll(before, values, visits)
  }

  lemma MirrorsTogether(before: LastFetched, between: LastFetched, after: LastFetched, first: seq<Reading>,
                        second: seq<Reading>, values: Values, a: seq<Visit>, b: seq<Visit>)
    requires Mirrors(before, between, first, values, a) && Mirrors(between, after, second, values, b)
    ensures Mirrors(before, after, first + second, values, a + b)
  {
    hide Driver, LastAfterAll;
    DriverConcat(before, values, a, b);
  }

  lemma OneVisitMirrors(before: LastFetched, values: Values, visit: Visit)
    ensures Mirrors(before, LastAfter(before, values, visit), DriverReads(before, values, visit), values, [visit])
  {
    hide DriverReads, LastAfter;
    var last := LastAfter(before, values, visit);
    assert [visit][1..] == [];
    assert Driver(last, values, []) == [] && LastAfterAll(last, values, []) == last;
    assert DriverReads(before, values, visit) + [] == DriverReads(before, values, visit);
  }

  lemma NoVisitMirrors(before: LastFetched, values: Values)
    ensures Mirrors(before, before, [], values, [])
  {
  }

  lemma CellMirrors<R>(s: Cursor<R>, values: Values, col: int, buffer: Buffer)
    ensures var (t, reading) := ReadCell(s, values, col, buffer);
            Mirrors(s.last, t.last, [reading], values, [At(CurrentCell(s, col), buffer)]) && t == s.(last := t.last)
  {
    hide Mirrors;
    OneVisitMirrors(s.last, values, At(CurrentCell(s, col), buffer));
    hide ReadingAt, OffsetAfter;
  }

  lemma GetMirrors<R>(s: Cursor<R>, values: Values, col: int, buffer: Buffer)
    ensures var (t, reading) := GetCell(s, values, col, buffer);
            Mirrors(s.last, t.last, [reading], values, [ReadVisit(s, col, buffer)])
  {
    hide Mirrors, ReadCell;
    CellMirrors(s, values, col, buffer);
    OneVisitMirrors(s.last, values, ReadVisit(s, col, buffer));
  }

  /** Which cells are visited does not depend on the saved offset. */
  lemma {:induction false} ColumnVisitsAlike<R>(s: Cursor<R>, t: Cursor<R>, columns: Columns)
    requires t == s.(last := t.last)
    ensures ColumnVisits(t, columns) == ColumnVisits(s, columns)
    decreases |columns|
  {
    if columns != [] { ColumnVisitsAlike(s, t, columns[1..]); }
  }

  lemma {:induction false} RowVisitsAlike<R>(s: Cursor<R>, t: Cursor<R>, columns: Columns, n: nat)
    requires t == s.(last := t.last)
    ensures RowVisits(t, columns, n) == RowVisits(s, columns, n)
    decreases n
  {
    hide ColumnVisits;
    if n > 0 {
      var s', t' := s.(chunkRow := s.chunkRow + 1), t.(chunkRow := t.chunkRow + 1);
      ColumnVisitsAlike(s', t', columns);
      RowVisitsAlike(s', t', columns, n - 1);
    }
  }

  lemma {:induction false} ColumnsMirror<R>(s: Cursor<R>, values: Values, columns: Columns)
    ensures var (t, readings) := ReadColumns(s, values, columns);
            Mirrors(s.last, t.last, readings, values, ColumnVisits(s, columns))
    decreases |columns|
  {
    hide Mirrors, ReadCell, CurrentCell;
    if columns == [] {
      NoVisitMirrors(s.last, values);
    } else {
      var (col, buffer) := columns[0];
      var (t, reading) := ReadCell(s, values, col, buffer);
      CellMirrors(s, values, col, buffer);
      ColumnsMirror(t, values, columns[1..]);
      ColumnVisitsAlike(s, t, columns[1..]);
      var (u, rest) := ReadColumns(t, values, columns[1..]);
      MirrorsTogether(s.last, t.last, u.last, [reading], rest, values, [At(CurrentCell(s, col), buffer)],
          ColumnVisits(s, columns[1..]));
    }
  }

  lemma {:induction false} RowsMirror<R>(s: Cursor<R>, values: Values, columns: Columns, n: nat)
    ensures var (t, readings) := ReadRows(s, values, columns, n);
            Mirrors(s.last, t.last, readings, values, RowVisits(s, columns, n))
    decreases n
  {
    hide Mirrors, ReadColumns, ColumnVisits;
    if n == 0 {
      NoVisitMirrors(s.last, values);
    } else {
      var next := s.(chunkRow := s.chunkRow + 1);
      var (t, row) := ReadColumns(next, values, columns);
      ColumnsMirror(next, values, columns);
      RowsMirror(t, values, columns, n - 1);
      RowVisitsAlike(next, t, columns, n - 1);
      var (u, rest) := ReadRows(t, values, columns, n - 1);
      MirrorsTogether(s.last, t.last, u.last, row, rest, values, ColumnVisits(next, columns),
          RowVisits(next, columns, n - 1));
    }
  }

  /** A move forgets the saved offset exactly when it asks for a chunk. */
  lemma MoveForgets<R>(s: Cursor<R>, orientation: Orientation, rowset: Rowset)
    requires s.Valid() && s.open
    ensures Move(s, orientation, rowset).0.last == if AsksForChunk(s, orientation) then NOTHING_FETCHED else s.last
  {
  }

  lemma AskedMirrors(before: LastFetched, values: Values, asks: bool)
    ensures Mirrors(before, if asks then NOTHING_FETCHED else before, [], values, if asks then [Asked] else [])
  {
    OneVisitMirrors(before, values, Asked);
    NoVisitMirrors(before, values);
    hide Mirrors;
  }

  lemma FetchMirrors<R>(s: Cursor<R>, values: Values, orientation: Orientation, rowset: Rowset,
                        columns: Option<Columns>)
    requires s.Valid() && s.open
    ensures var (t, readings) := Step(s, values, Fetch(orientation, rowset, columns));
            Mirrors(s.last, t.last, readings, values, StepVisits(s, Fetch(orientation, rowset, columns)))
  {
    hide Mirrors, Move, RowsetAfter, AsksForChunk, ReadRows, RowVisits;
    MoveForgets(s, orientation, rowset);
    AskedMirrors(s.last, values, AsksForChunk(s, orientation));
    var (t, ret) := Move(s, orientation, rowset);
    var asked := if AsksForChunk(s, orientation) then [Asked] else [];
    assert asked + [] == asked;
    if ret == Success && columns.Some? {
      var n := |RowsetAfter(t, rowset)|;
      RowsMirror(t, values, columns.value, n);
      var (u, rows) := ReadRows(t, values, columns.value, n);
      MirrorsTogether(s.last, t.last, u.last, [], rows, values, asked, RowVisits(t, columns.value, n));
      assert [] + rows == rows;
    }
  }

  lemma StepMirrors<R>(s: Cursor<R>, values: Values, event: Event)
    requires s.Valid()
    ensures var (t, readings) := Step(s, values, event);
            Mirrors(s.last, t.last, readings, values, StepVisits(s, event))
  {
    match event
    case Read(col, buffer) => GetMirrors(s, values, col, buffer);
    case Fetch(orientation, rowset, columns) =>
      if s.open { FetchMirrors(s, values, orientation, rowset, columns); } else { NoVisitMirrors(s.last, values); }
    hide Mirrors, GetCell, ReadVisit, Move, RowsetAfter, ReadRows, RowVisits;
  }

  lemma {:induction false} RunIsDriver<R>(s: Cursor<R>, values: Values, events: seq<Event>)
    requires s.Valid()
    ensures var (t, readings) := Run(s, values, events);
            Mirrors(s.last, t.last, readings, values, Visits(s, values, events))
    decreases |events|
  {
    hide Mirrors, Step, StepVisits, ReadsOffRow;
    if events == [] {
      NoVisitMirrors(s.last, values);
    } else {
      StepMirrors(s, values, events[0]);
      if !ReadsOffRow(s, events[0]) {
        var (t, first) := Step(s, values, events[0]);
        RunIsDriver(t, values, events[1..]);
        var (u, rest) := Run(t, values, events[1..]);
        MirrorsTogether(s.last, t.last, u.last, first, rest, values, StepVisits(s, events[0]),
            Visits(t, values, events[1..]));
      }
    }
  }

  /** Any cursor, any interleaving of fetches and reads: what the driver returns is right exactly if no
      read crosses over from another chunk or another type. */
  lemma RunIsRightExactly<R>(s: Cursor<R>, mark: Bookmark, values: Values, events: seq<Event>)
    requires s.Valid() && Agrees(s.last, mark)
    ensures Run(s, values, events).1 == Ideal(mark, values, Visits(s, values, events)) <==>
            NeverCrosses(mark, values, Visits(s, values, events))
  {
    RunIsDriver(s, values, events);
    ReadsAreRightExactly(s.last, mark, values, Visits(s, values, events));
    hide Run, Ideal, NeverCrosses, Visits, Driver, Agrees;
  }

  /** The same from the execution of a statement on, when nothing has been read yet. */
  lemma RunFromExecution<R>(cursorType: CursorType, result: seq<Pulled<R>>, values: Values, events: seq<Event>)
    ensures var s := AfterExecution(Executed(cursorType, result)).0;
            && s.Valid()
            && (Run(s, values, events).1 == Ideal(Nothing, values, Visits(s, values, events)) <==>
                NeverCrosses(Nothing, values, Visits(s, values, events)))
  {
    hide Run, Ideal, NeverCrosses, Visits;
    FetchRuns.Begin(cursorType, result);
    NothingSaved(cursorType, result);
    RunIsRightExactly(AfterExecution(Executed(cursorType, result)).0, Nothing, values, events);
  }

  lemma NothingSaved<R>(cursorType: CursorType, result: seq<Pulled<R>>)
    ensures AfterExecution(Executed(cursorType, result)).0.last == NOTHING_FETCHED
  {
  }
}
