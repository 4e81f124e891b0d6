/**
  list_filter and list_transform over a column of lists.

  The elements of all lists are pushed through the lambda in batches of at most `vectorSize`
  elements, whatever the row boundaries are.  `ListFilterInfo` carries, from one batch to the next,
  what is needed to cut the surviving elements into rows again.  The specification is one line: the
  list of a row is filtered, or mapped, on its own.
*/
module ListLambda {
  import opened Common

  // ----- the column as a stream of elements ------------------------------------------------------

  /** An element of the column: its row and its place in the list of that row. */
  datatype Cell = Cell(row: nat, pos: nat)

  /** The number of elements in the rows before `r`, which is also the place of the first element
      of row `r` in the stream of all elements. */
  ghost function Start(lengths: seq<nat>, r: nat): nat
    requires r <= |lengths|
  {
    if r == 0 then 0 else Start(lengths, r - 1) + lengths[r - 1]
  }

  lemma {:induction false} StartMonotone(lengths: seq<nat>, q: nat, r: nat)
    requires q < r <= |lengths|
    ensures Start(lengths, q) + lengths[q] <= Start(lengths, r)
  {
    if q < r - 1 {
      StartMonotone(lengths, q, r - 1);
    }
  }

  /** `c` is the element at place `k` of the stream, and lies in the first `n` rows. */
  ghost predicate IsAt(lengths: seq<nat>, c: Cell, k: nat, n: nat) {
    c.row < n <= |lengths| && c.pos < lengths[c.row] && Start(lengths, c.row) + c.pos == k
  }

  lemma AtMostOneAt(lengths: seq<nat>, c: Cell, d: Cell, k: nat, n: nat)
    requires IsAt(lengths, c, k, n) && IsAt(lengths, d, k, n)
    ensures c == d
  {
    if c.row < d.row {
      StartMonotone(lengths, c.row, d.row);
    } else if d.row < c.row {
      StartMonotone(lengths, d.row, c.row);
    }
  }

  /** What `f` makes of the first `n` elements of row `r`. */
  ghost function RowPart<B>(f: Cell -> seq<B>, r: nat, n: nat): seq<B> {
    if n == 0 then [] else RowPart(f, r, n - 1) + f(Cell(r, n - 1))
  }

  /** What `f` makes of the rows before `r`. */
  ghost function RowsBefore<B>(lengths: seq<nat>, f: Cell -> seq<B>, r: nat): seq<B>
    requires r <= |lengths|
  {
    if r == 0 then [] else RowsBefore(lengths, f, r - 1) + RowPart(f, r - 1, lengths[r - 1])
  }

  /** One more element of row `r` extends the output by what `f` makes of it, also when the element
      is the last of its row. */
  lemma OneMoreElement<B>(lengths: seq<nat>, f: Cell -> seq<B>, r: nat, pos: nat)
    requires r < |lengths| && pos < lengths[r]
    ensures RowsBefore(lengths, f, r) + RowPart(f, r, pos + 1)
         == RowsBefore(lengths, f, r) + RowPart(f, r, pos) + f(Cell(r, pos))
    ensures pos + 1 == lengths[r] ==>
              RowsBefore(lengths, f, r + 1) + RowPart(f, r + 1, 0) ==
                  RowsBefore(lengths, f, r) + RowPart(f, r, pos) + f(Cell(r, pos))
    ensures |RowPart(f, r, pos + 1)| == |RowPart(f, r, pos)| + |f(Cell(r, pos))|
    ensures pos + 1 == lengths[r] ==>
              && EntryOf(lengths, f, r) == ListEntry(|RowsBefore(lengths, f, r)|, |RowPart(f, r, pos + 1)|)
              && |RowsBefore(lengths, f, r + 1)| == |RowsBefore(lengths, f, r)| + |RowPart(f, r, pos + 1)|
              && RowPart(f, r + 1, 0) == [] && Start(lengths, r + 1) == Start(lengths, r) + pos + 1
  {
    ConcatAssociative(RowsBefore(lengths, f, r), RowPart(f, r, pos), f(Cell(r, pos)));
  }

  lemma {:induction false} RowsBeforePrefix<B>(lengths: seq<nat>, f: Cell -> seq<B>, m: nat, n: nat)
    requires m <= n <= |lengths|
    ensures RowsBefore(lengths, f, m) <= RowsBefore(lengths, f, n)
  {
    if m < n {
      RowsBeforePrefix(lengths, f, m, n - 1);
    }
  }

  /** A list of a list column: a slice of its child vector. */
  datatype ListEntry = ListEntry(offset: nat, length: nat)

  /** The slice of the result that belongs to row `r`. */
  ghost function EntryOf<B>(lengths: seq<nat>, f: Cell -> seq<B>, r: nat): ListEntry
    requires r < |lengths|
  {
    ListEntry(|RowsBefore(lengths, f, r)|, |RowPart(f, r, lengths[r])|)
  }

  lemma EntryIsSlice<B>(lengths: seq<nat>, f: Cell -> seq<B>, r: nat)
    requires r < |lengths|
    ensures var entry, child := EntryOf(lengths, f, r), RowsBefore(lengths, f, |lengths|);
            && entry.offset + entry.length == |RowsBefore(lengths, f, r + 1)| <= |child|
            && child[entry.offset..entry.offset + entry.length] == RowPart(f, r, lengths[r])
  {
    RowsBeforePrefix(lengths, f, r + 1, |lengths|);
    MiddleOf(RowsBefore(lengths, f, r), RowPart(f, r, lengths[r]), RowsBefore(lengths, f, |lengths|));
    hide RowPart;
  }

  lemma MiddleOf<B>(a: seq<B>, b: seq<B>, whole: seq<B>)
    requires a + b <= whole
    ensures |a| + |b| <= |whole| && whole[|a|..|a| + |b|] == b
  {
    assert whole[..|a| + |b|] == a + b;
    assert whole[|a|..|a| + |b|] == whole[..|a| + |b|][|a|..];
  }

  // ----- the state list_filter carries across batches --------------------------------------------

  /** The result vector: its child vector grows by appending, and rows can be set to NULL. */
  class ListVector<U> {
    var child: seq<U>
    var nulls: set<nat>

    constructor ()
      ensures child == [] && nulls == {}
    {
      child, nulls := [], {};
    }

    method Append(values: seq<U>)
      modifies this`child
      ensures child == old(child) + values
    {
      child := child + values;
    }

    method SetInvalid(rowIdx: nat)
      modifies this`nulls
      ensures nulls == old(nulls) + {rowIdx}
    {
      nulls := nulls + {rowIdx};
    }
  }

  class ListFilterInfo {
    var entryLengths: seq<nat>
    var length: nat
    var offset: nat
    var rowIdx: nat
    var srcLength: nat

    constructor ()
      ensures entryLengths == [] && length == offset == rowIdx == srcLength == 0
    {
      entryLengths, length, offset, rowIdx, srcLength := [], 0, 0, 0, 0;
    }

    /** Exactly the first `seen` elements of the stream have been seen: all rows before `rowIdx` and
        the first `srcLength` elements of `rowIdx`.  Their entries and counts are up to date. */
    ghost predicate Progress<T>(lengths: seq<nat>, kept: Cell -> seq<T>, seen: nat, entries: array<ListEntry>)
      reads this, entries
    {
      && rowIdx <= |entryLengths| <= |lengths| == entries.Length
      && (forall r :: 0 <= r < |entryLengths| ==> entryLengths[r] == lengths[r])
      && (srcLength == 0 || (rowIdx < |entryLengths| && srcLength < entryLengths[rowIdx]))
      && seen == Start(lengths, rowIdx) + srcLength
      && offset == |RowsBefore(lengths, kept, rowIdx)|
      && length == |RowPart(kept, rowIdx, srcLength)|
      && forall r :: 0 <= r < rowIdx ==> entries[r] == EntryOf(lengths, kept, r)
    }

    /** What has been kept of the elements seen. */
    ghost function Output<T>(lengths: seq<nat>, kept: Cell -> seq<T>): seq<T>
      requires rowIdx <= |lengths|
      reads this
    {
      RowsBefore(lengths, kept, rowIdx) + RowPart(kept, rowIdx, srcLength)
    }

    /** The current row, if any, has elements that are still to come. */
    ghost predicate AtElement()
      reads this
    {
      rowIdx < |entryLengths| ==> entryLengths[rowIdx] != 0
    }

    /** Rows whose source list is empty get their entry without an element being seen. */
    method SetEmptyLists<T>(resultEntries: array<ListEntry>, ghost lengths: seq<nat>, ghost kept: Cell -> seq<T>,
                            ghost seen: nat)
      requires Progress(lengths, kept, seen, resultEntries)
      modifies this, resultEntries
      ensures Progress(lengths, kept, seen, resultEntries) && AtElement()
      ensures entryLengths == old(entryLengths)
      ensures Output(lengths, kept) == old(Output(lengths, kept))
    {
      while rowIdx < |entryLengths| && entryLengths[rowIdx] == 0
        invariant Progress(lengths, kept, seen, resultEntries)
        invariant entryLengths == old(entryLengths)
        invariant Output(lengths, kept) == old(Output(lengths, kept))
      {
        resultEntries[rowIdx] := ListEntry(offset, 0);
        rowIdx := rowIdx + 1;
      }
    }

    /** The next element of the current row has been seen and was kept or not. */
    method CountElement<T>(isKept: bool, resultEntries: array<ListEntry>, ghost lengths: seq<nat>,
                           ghost kept: Cell -> seq<T>, ghost seen: nat)
      requires Progress(lengths, kept, seen, resultEntries)
      requires rowIdx < |entryLengths| && srcLength < entryLengths[rowIdx]
      requires |kept(Cell(rowIdx, srcLength))| == if isKept then 1 else 0
      modifies this, resultEntries
      ensures Progress(lengths, kept, seen + 1, resultEntries)
      ensures entryLengths == old(entryLengths)
      ensures Output(lengths, kept) == old(Output(lengths, kept)) + kept(Cell(old(rowIdx), old(srcLength)))
    {
      hide RowPart, RowsBefore, EntryOf, Start;
      OneMoreElement(lengths, kept, rowIdx, srcLength);
      if isKept {
        length := length + 1;
      }
      srcLength := srcLength + 1;
      if entryLengths[rowIdx] == srcLength {
        resultEntries[rowIdx] := ListEntry(offset, length);
        offset := offset + length;
        rowIdx := rowIdx + 1;
        length := 0;
        srcLength := 0;
      }
    }

    /** Use the predicate values of one batch to compute entries and to append the kept elements. */
    method AppendResult<T>(result: ListVector<T>, lambdaValues: seq<Option<bool>>, elemCnt: nat,
                           resultEntries: array<ListEntry>, slice: seq<T>, ghost lengths: seq<nat>,
                           ghost kept: Cell -> seq<T>, ghost seen: nat, ghost batch: seq<Cell>)
      requires Progress(lengths, kept, seen, resultEntries) && result.child == Output(lengths, kept)
      requires |batch| == |slice| == |lambdaValues| == elemCnt
      requires forall i :: 0 <= i < elemCnt ==> IsAt(lengths, batch[i], seen + i, |entryLengths|)
      requires forall i :: 0 <= i < elemCnt ==>
                 kept(batch[i]) == if lambdaValues[i] == Some(true) then [slice[i]] else []
      modifies this, resultEntries, result`child
      ensures Progress(lengths, kept, seen + elemCnt, resultEntries) && AtElement()
      ensures entryLengths == old(entryLengths)
      ensures result.child == Output(lengths, kept)
    {
      hide RowPart, RowsBefore, EntryOf, Start, IsAt;
      var sel: seq<nat> := [];
      assert result.child + Sliced(slice, sel) == result.child;
      for i := 0 to elemCnt
        invariant Progress(lengths, kept, seen + i, resultEntries)
        invariant entryLengths == old(entryLengths) && result.child == old(result.child)
        invariant forall k :: 0 <= k < |sel| ==> sel[k] < elemCnt
        invariant result.child + Sliced(slice, sel) == Output(lengths, kept)
      {
        SetEmptyLists(resultEntries, lengths, kept, seen + i);
        CurrentElement(lengths, kept, seen + i, batch[i], resultEntries);
        var isKept := lambdaValues[i] == Some(true);
        CountElement(isKept, resultEntries, lengths, kept, seen + i);
        if isKept {
          SlicedSnoc(slice, sel, i);
          ConcatAssociative(result.child, Sliced(slice, sel), [slice[i]]);
          sel := sel + [i];
        }
      }
      SetEmptyLists(resultEntries, lengths, kept, seen + elemCnt);
      result.Append(Sliced(slice, sel));
    }

    /** The next element of the stream belongs to the current row. */
    lemma CurrentElement<T>(lengths: seq<nat>, kept: Cell -> seq<T>, seen: nat, c: Cell, entries: array<ListEntry>)
      requires Progress(lengths, kept, seen, entries) && AtElement()
      requires IsAt(lengths, c, seen, |entryLengths|)
      ensures rowIdx < |entryLengths| && srcLength < entryLengths[rowIdx] && c == Cell(rowIdx, srcLength)
    {
      if rowIdx == |entryLengths| {
        StartMonotone(lengths, c.row, rowIdx);
      } else {
        AtMostOneAt(lengths, c, Cell(rowIdx, srcLength), seen, |entryLengths|);
      }
    }

    /** Once every element has been seen and no empty row is left over, every row has its entry. */
    lemma AllRowsDone<T>(lengths: seq<nat>, kept: Cell -> seq<T>, entries: array<ListEntry>)
      requires Progress(lengths, kept, Start(lengths, |lengths|), entries) && AtElement()
      requires |entryLengths| == |lengths|
      ensures rowIdx == |lengths|
    {
      if rowIdx < |lengths| {
        StartMonotone(lengths, rowIdx, |lengths|);
      }
    }
  }

  /** The elements of `slice` at the selected positions. */
  function Sliced<T>(slice: seq<T>, sel: seq<nat>): seq<T>
    requires forall k :: 0 <= k < |sel| ==> sel[k] < |slice|
  {
    seq(|sel|, k requires 0 <= k < |sel| => slice[sel[k]])
  }

  lemma SlicedSnoc<T>(slice: seq<T>, sel: seq<nat>, i: nat)
    requires (forall k :: 0 <= k < |sel| ==> sel[k] < |slice|) && i < |slice|
    ensures Sliced(slice, sel + [i]) == Sliced(slice, sel) + [slice[i]]
  {
  }

  // ----- the arguments of a call -----------------------------------------------------------------

  /** A column captured by the lambda, one value for all rows or one value per row. */
  datatype Column<C> = Constant(value: C) | PerRow(values: seq<C>)

  /** What one evaluation of the lambda sees. */
  datatype Input<T, C> = Input(index: Option<int>, element: T, captured: seq<C>)

  /** The list column (a NULL row is None) over its child vector, the captured columns, and whether
      the lambda takes the index of the element. */
  datatype Args<T, C> = Args(rows: seq<Option<ListEntry>>, child: seq<T>, columns: seq<Column<C>>, hasIndex: bool) {

    ghost predicate Valid() {
      && (forall r :: 0 <= r < |rows| && rows[r].Some? ==> rows[r].value.offset + rows[r].value.length <= |child|)
      && (forall c :: 0 <= c < |columns| && columns[c].PerRow? ==> |columns[c].values| == |rows|)
    }

    /** The NULL rows among the first `n`. */
    ghost function NullRows(n: nat): set<nat>
      requires n <= |rows|
    {
      if n == 0 then {} else NullRows(n - 1) + if rows[n - 1].None? then {n - 1} else {}
    }

    lemma {:induction false} NullRowsExactly(n: nat)
      requires n <= |rows|
      ensures forall r: nat :: r in NullRows(n) <==> r < n && rows[r].None?
    {
      if n > 0 { NullRowsExactly(n - 1); }
    }

    ghost function Lengths(): seq<nat> {
      seq(|rows|, r requires 0 <= r < |rows| => if rows[r].Some? then rows[r].value.length else 0)
    }

    function Captured(r: nat): seq<C>
      requires Valid() && r < |rows|
    {
      seq(|columns|, c requires 0 <= c < |columns| =>
        if columns[c].Constant? then columns[c].value else columns[c].values[r])
    }

    ghost predicate InColumn(c: Cell) {
      c.row < |rows| && c.pos < Lengths()[c.row]
    }

    ghost function CellInput(c: Cell): Input<T, C>
      requires Valid() && InColumn(c)
    {
      Input(if hasIndex then Some(c.pos + 1) else None, child[rows[c.row].value.offset + c.pos], Captured(c.row))
    }

    /** The inputs of the lambda for the list of row `r`, in list order. */
    ghost function RowInputs(r: nat): seq<Input<T, C>>
      requires Valid() && r < |rows|
    {
      seq(Lengths()[r], j requires 0 <= j < Lengths()[r] => CellInput(Cell(r, j)))
    }
  }

  /** What the lambda sees of a row: its list, element by element, each with its place counted from one when
      the lambda takes it, and the values of the captured columns in that row. */
  lemma RowInputsExactly<T, C>(args: Args<T, C>, r: nat)
    requires args.Valid() && r < |args.rows|
    ensures args.rows[r].None? ==> args.RowInputs(r) == []
    ensures args.rows[r].Some? ==>
              var list := args.child[args.rows[r].value.offset..args.rows[r].value.offset + args.rows[r].value.length];
              && |args.RowInputs(r)| == |list|
              && forall j :: 0 <= j < |list| ==>
                   var input := args.RowInputs(r)[j];
                   && input.element == list[j] && input.index == (if args.hasIndex then Some(j + 1) else None)
                   && |input.captured| == |args.columns|
                   && forall c :: 0 <= c < |args.columns| ==>
                        input.captured[c] == match args.columns[c]
                                             case Constant(value) => value
                                             case PerRow(values) => values[r]
  {
  }

  // ----- one batch of elements -------------------------------------------------------------------

  /** The selection vector of the child vector, the selection vector shared by the captured columns
      that are not constant, and the index vector. */
  class Batch<T, C> {
    const childSel: array<nat>
    const rowSel: array<nat>
    const indexes: array<int>
    var elemCnt: nat
    ghost var cells: seq<Cell>
    ghost const Repr: set<object>

    /** The vectors select exactly `cells`. */
    ghost predicate Valid(args: Args<T, C>)
      reads this, Repr
    {
      && Repr == {this, childSel, rowSel, indexes} && childSel != rowSel
      && |cells| == elemCnt <= childSel.Length == rowSel.Length == indexes.Length
      && forall i :: 0 <= i < elemCnt ==>
           && args.InColumn(cells[i])
           && childSel[i] == args.rows[cells[i].row].value.offset + cells[i].pos
           && rowSel[i] == cells[i].row
           && (args.hasIndex ==> indexes[i] == cells[i].pos + 1)
    }

    constructor (ghost args: Args<T, C>, vectorSize: nat)
      ensures Valid(args) && fresh(Repr) && elemCnt == 0 && childSel.Length == vectorSize
    {
      var children, rows, places := new nat[vectorSize], new nat[vectorSize], new int[vectorSize];
      childSel, rowSel, indexes := children, rows, places;
      elemCnt, cells := 0, [];
      Repr := {this, children, rows, places};
    }

    lemma InColumns(args: Args<T, C>)
      requires Valid(args)
      ensures this in Repr && |cells| == elemCnt && forall i :: 0 <= i < |cells| ==> args.InColumn(cells[i])
    {
    }

    method Reset(ghost args: Args<T, C>)
      requires Valid(args)
      modifies this
      ensures Valid(args) && elemCnt == 0
    {
      elemCnt, cells := 0, [];
    }

    /** Place the element `pos` of row `r` at the end of the batch. */
    method Select(args: Args<T, C>, r: nat, pos: nat)
      requires Valid(args) && elemCnt < childSel.Length && args.InColumn(Cell(r, pos))
      modifies Repr
      ensures Valid(args) && cells == old(cells) + [Cell(r, pos)]
    {
      childSel[elemCnt] := args.rows[r].value.offset + pos;
      rowSel[elemCnt] := r;
      if args.hasIndex {
        indexes[elemCnt] := pos + 1;
      }
      elemCnt, cells := elemCnt + 1, cells + [Cell(r, pos)];
    }

    /** Slice the child vector and the captured columns and run the lambda on the selected elements;
        `slice` is the sliced child vector. */
    method ExecuteExpression<V>(args: Args<T, C>, lambda: Input<T, C> -> V) returns (slice: seq<T>, values: seq<V>)
      requires args.Valid() && Valid(args)
      ensures |slice| == |values| == elemCnt
      ensures forall i :: 0 <= i < elemCnt ==> slice[i] == args.CellInput(cells[i]).element
      ensures forall i :: 0 <= i < elemCnt ==> values[i] == lambda(args.CellInput(cells[i]))
    {
      slice, values := [], [];
      for i := 0 to elemCnt
        invariant |slice| == |values| == i
        invariant forall k :: 0 <= k < i ==> slice[k] == args.CellInput(cells[k]).element
        invariant forall k :: 0 <= k < i ==> values[k] == lambda(args.CellInput(cells[k]))
      {
        var element := args.child[childSel[i]];
        var index := if args.hasIndex then Some(indexes[i]) else None;
        slice := slice + [element];
        values := values + [lambda(Input(index, element, args.Captured(rowSel[i])))];
      }
    }
  }

  // ----- list_filter -----------------------------------------------------------------------------

  /** The elements whose predicate is true; NULL counts as false. */
  ghost function Filtered<T, C>(inputs: seq<Input<T, C>>, keep: Input<T, C> -> Option<bool>): seq<T> {
    if inputs == [] then []
    else (if keep(inputs[0]) == Some(true) then [inputs[0].element] else []) + Filtered(inputs[1..], keep)
  }

  /** The list the predicate leaves: the elements at exactly those places where it is true, in order. */
  lemma {:induction false} FilteredExactly<T, C>(inputs: seq<Input<T, C>>, keep: Input<T, C> -> Option<bool>)
    returns (places: seq<nat>)
    ensures forall i :: 0 <= i < |places| ==> places[i] < |inputs|
    ensures forall i, j :: 0 <= i < j < |places| ==> places[i] < places[j]
    ensures forall p: nat :: p in places <==> p < |inputs| && keep(inputs[p]) == Some(true)
    ensures |Filtered(inputs, keep)| == |places|
    ensures forall i :: 0 <= i < |places| ==> Filtered(inputs, keep)[i] == inputs[places[i]].element
  {
    if inputs == [] {
      places := [];
    } else {
      var n := |inputs| - 1;
      var before := FilteredExactly(inputs[..n], keep);
      assert inputs == inputs[..n] + [inputs[n]];
      FilteredSnoc(inputs[..n], inputs[n], keep);
      places := before + if keep(inputs[n]) == Some(true) then [n] else [];
      if keep(inputs[n]) == Some(true) { assert places[|before|] == n; }
      assert forall p: nat :: p in places <==> p in before || (p == n && keep(inputs[n]) == Some(true));
      assert forall p: nat :: p < n ==> inputs[..n][p] == inputs[p];
    }
  }

  lemma FilteredCons<T, C>(x: Input<T, C>, inputs: seq<Input<T, C>>, keep: Input<T, C> -> Option<bool>)
    ensures Filtered([x] + inputs, keep) == (if keep(x) == Some(true) then [x.element] else []) + Filtered(inputs, keep)
  {
    assert ([x] + inputs)[1..] == inputs;
  }

  lemma {:induction false} FilteredSnoc<T, C>(inputs: seq<Input<T, C>>, x: Input<T, C>, keep: Input<T,
                                              C> -> Option<bool>)
    ensures Filtered(inputs + [x], keep) == Filtered(inputs, keep) + if keep(x) == Some(true) then [x.element] else []
  {
    if inputs == [] {
      FilteredCons(x, [], keep);
      assert [x] + [] == [x] && inputs + [x] == [x];
    } else {
      FilteredCons(inputs[0], inputs[1..], keep);
      FilteredCons(inputs[0], inputs[1..] + [x], keep);
      assert inputs == [inputs[0]] + inputs[1..];
      ConcatAssociative([inputs[0]], inputs[1..], [x]);
      FilteredSnoc(inputs[1..], x, keep);
    }
  }

  /** What the filter keeps of one element: the element itself or nothing. */
  ghost function KeptBy<T, C>(args: Args<T, C>, keep: Input<T, C> -> Option<bool>): Cell -> seq<T>
    requires args.Valid()
  {
    c => if args.InColumn(c) && keep(args.CellInput(c)) == Some(true) then [args.CellInput(c).element] else []
  }

  lemma {:induction false} KeptOfRow<T, C>(args: Args<T, C>, keep: Input<T, C> -> Option<bool>, r: nat, n: nat)
    requires args.Valid() && r < |args.rows| && n <= args.Lengths()[r]
    ensures RowPart(KeptBy(args, keep), r, n) == Filtered(args.RowInputs(r)[..n], keep)
  {
    if n > 0 {
      KeptOfRow(args, keep, r, n - 1);
      var inputs := args.RowInputs(r);
      assert inputs[..n] == inputs[..n - 1] + [inputs[n - 1]];
      FilteredSnoc(inputs[..n - 1], inputs[n - 1], keep);
    }
  }

  /** The entry of row `r` begins where the one before it ended and spans the row's filtered list. */
  ghost predicate HoldsFiltered<T, C>(args: Args<T, C>, keep: Input<T, C> -> Option<bool>, entries: seq<ListEntry>,
                                      child: seq<T>, r: nat)
    requires args.Valid() && r < |entries| == |args.rows|
  {
    && entries[r].offset == (if r == 0 then 0 else entries[r - 1].offset + entries[r - 1].length)
    && entries[r].offset + entries[r].length <= |child|
    && child[entries[r].offset..entries[r].offset + entries[r].length] == Filtered(args.RowInputs(r), keep)
  }

  /** Every row is a slice of the child vector holding its filtered list; the slices follow each
      other without a gap and cover the child vector. */
  ghost predicate IsFiltered<T, C>(args: Args<T, C>, keep: Input<T, C> -> Option<bool>, entries: seq<ListEntry>,
                                   child: seq<T>)
    requires args.Valid()
  {
    && |entries| == |args.rows|
    && (forall r :: 0 <= r < |entries| ==> HoldsFiltered(args, keep, entries, child, r))
    && |child| == (if entries == [] then 0 else entries[|entries| - 1].offset + entries[|entries| - 1].length)
  }

  lemma FilteredSlice<T, C>(args: Args<T, C>, keep: Input<T, C> -> Option<bool>, r: nat)
    requires args.Valid() && r < |args.rows|
    ensures var entry, child := EntryOf(args.Lengths(), KeptBy(args, keep), r),
            RowsBefore(args.Lengths(), KeptBy(args, keep), |args.rows|);
            && entry.offset + entry.length == |RowsBefore(args.Lengths(), KeptBy(args, keep), r + 1)| <= |child|
            && child[entry.offset..entry.offset + entry.length] == Filtered(args.RowInputs(r), keep)
  {
    EntryIsSlice(args.Lengths(), KeptBy(args, keep), r);
    KeptOfRow(args, keep, r, args.Lengths()[r]);
    assert args.RowInputs(r)[..args.Lengths()[r]] == args.RowInputs(r);
  }

  lemma EntriesTile<T, C>(args: Args<T, C>, keep: Input<T, C> -> Option<bool>, entries: seq<ListEntry>, child: seq<T>)
    requires args.Valid() && |entries| == |args.rows|
    requires forall r :: 0 <= r < |entries| ==> entries[r] == EntryOf(args.Lengths(), KeptBy(args, keep), r)
    requires child == RowsBefore(args.Lengths(), KeptBy(args, keep), |args.rows|)
    ensures IsFiltered(args, keep, entries, child)
  {
    hide Filtered, KeptBy, RowPart;
    forall r: nat | r < |entries|
      ensures entries[r].offset + entries[r].length == |RowsBefore(args.Lengths(), KeptBy(args, keep),
              r + 1)| <= |child|
      ensures child[entries[r].offset..entries[r].offset + entries[r].length] == Filtered(args.RowInputs(r), keep)
    {
      FilteredSlice(args, keep, r);
    }
  }

  /** list_filter in the middle of a column: the first `k` elements of the stream, all from the first
      `n` rows, are either reflected in the result or wait in the batch. */
  ghost predicate Filtering<T, C>(args: Args<T, C>, keep: Input<T, C> -> Option<bool>, batch: Batch<T, C>,
                                  info: ListFilterInfo,
                                  result: ListVector<T>, entries: array<ListEntry>, n: nat, k: nat)
    requires args.Valid()
    reads batch, batch.Repr, info, result, entries
  {
    && batch.Valid(args) && info !in batch.Repr && result !in batch.Repr && entries !in batch.Repr
    && batch.elemCnt <= k && |info.entryLengths| == n
    && info.Progress(args.Lengths(), KeptBy(args, keep), k - batch.elemCnt, entries)
    && result.child == info.Output(args.Lengths(), KeptBy(args, keep))
    && result.nulls == args.NullRows(n)
    && forall i :: 0 <= i < batch.elemCnt ==> IsAt(args.Lengths(), batch.cells[i], k - batch.elemCnt + i, n)
  }

  /** Announce the source list of row `rowIdx`; a NULL row is announced as an empty list. */
  method SetResultEntry<T, C>(args: Args<T, C>, ghost keep: Input<T, C> -> Option<bool>, rowIdx: nat,
                              ghost batch: Batch<T, C>,
                              info: ListFilterInfo, result: ListVector<T>, ghost entries: array<ListEntry>)
                                  returns (length: nat)
    requires args.Valid() && rowIdx < |args.rows|
    requires Filtering(args, keep, batch, info, result, entries, rowIdx, Start(args.Lengths(), rowIdx))
    modifies info, result`nulls
    ensures Filtering(args, keep, batch, info, result, entries, rowIdx + 1, Start(args.Lengths(), rowIdx))
    ensures length == args.Lengths()[rowIdx]
  {
    hide RowsBefore, RowPart, Start, EntryOf, KeptBy;
    if args.rows[rowIdx].None? {
      result.SetInvalid(rowIdx);
      length := 0;
    } else {
      length := args.rows[rowIdx].value.length;
    }
    info.entryLengths := info.entryLengths + [length];
  }

  lemma KeptOfBatch<T, C>(args: Args<T, C>, keep: Input<T, C> -> Option<bool>, cells: seq<Cell>)
    requires args.Valid() && forall i :: 0 <= i < |cells| ==> args.InColumn(cells[i])
    ensures forall i :: 0 <= i < |cells| ==>
              KeptBy(args, keep)(cells[i]) ==
              if keep(args.CellInput(cells[i])) == Some(true) then [args.CellInput(cells[i]).element] else []
  {
  }

  /** Run the lambda on the batch and bring the result up to date. */
  method FlushFilter<T, C>(args: Args<T, C>, keep: Input<T, C> -> Option<bool>, batch: Batch<T, C>,
                           info: ListFilterInfo,
                           result: ListVector<T>, entries: array<ListEntry>, ghost n: nat, ghost k: nat)
    requires args.Valid() && Filtering(args, keep, batch, info, result, entries, n, k)
    modifies batch, info, result`child, entries
    ensures Filtering(args, keep, batch, info, result, entries, n, k)
    ensures batch.elemCnt == 0 && info.AtElement()
  {
    hide RowsBefore, RowPart, Start, EntryOf, IsAt, KeptBy, ListFilterInfo.Progress, ListFilterInfo.Output;
    hide Args.InColumn, Args.CellInput, Args.NullRows, Args.Lengths, Batch.Valid;
    ghost var cells := batch.cells;
    batch.InColumns(args);
    KeptOfBatch(args, keep, cells);
    var slice, lambdaValues := batch.ExecuteExpression(args, keep);
    info.AppendResult(result, lambdaValues, batch.elemCnt, entries, slice, args.Lengths(), KeptBy(args, keep),
                      k - batch.elemCnt, cells);
    batch.Reset(args);
  }

  /** Push the elements of row `rowIdx` through the lambda. */
  method FilterElements<T, C>(args: Args<T, C>, keep: Input<T, C> -> Option<bool>, rowIdx: nat, length: nat,
                              batch: Batch<T, C>,
                              info: ListFilterInfo, result: ListVector<T>, entries: array<ListEntry>)
    requires args.Valid() && rowIdx < |args.rows| && length == args.Lengths()[rowIdx] && batch.childSel.Length > 0
    requires Filtering(args, keep, batch, info, result, entries, rowIdx + 1, Start(args.Lengths(), rowIdx))
    modifies batch.Repr, info, result`child, entries
    ensures Filtering(args, keep, batch, info, result, entries, rowIdx + 1, Start(args.Lengths(), rowIdx) + length)
  {
    hide RowsBefore, RowPart, EntryOf, KeptBy;
    for childIdx := 0 to length
      invariant Filtering(args, keep, batch, info, result, entries, rowIdx + 1,
                Start(args.Lengths(), rowIdx) + childIdx)
    {
      if batch.elemCnt == batch.childSel.Length {
        FlushFilter(args, keep, batch, info, result, entries, rowIdx + 1, Start(args.Lengths(), rowIdx) + childIdx);
      }
      batch.Select(args, rowIdx, childIdx);
    }
  }

  method BeginFilter<T, C>(args: Args<T, C>, ghost keep: Input<T, C> -> Option<bool>, vectorSize: nat)
    returns (batch: Batch<T, C>, info: ListFilterInfo, result: ListVector<T>, entries: array<ListEntry>)
    requires args.Valid()
    ensures fresh(batch.Repr) && fresh(info) && fresh(result) && fresh(entries) && batch.childSel.Length == vectorSize
    ensures Filtering(args, keep, batch, info, result, entries, 0, 0)
  {
    hide EntryOf, KeptBy;
    entries := new ListEntry[|args.rows|];
    result := new ListVector();
    info := new ListFilterInfo();
    batch := new Batch(args, vectorSize);
  }

  /** Once every element has been pushed, every row has its entry. */
  method EndFilter<T, C>(args: Args<T, C>, keep: Input<T, C> -> Option<bool>, batch: Batch<T, C>, info: ListFilterInfo,
                         result: ListVector<T>, entries: array<ListEntry>)
    requires args.Valid()
    requires Filtering(args, keep, batch, info, result, entries, |args.rows|, Start(args.Lengths(), |args.rows|))
    modifies batch.Repr, info, result`child, entries
    ensures result.nulls == args.NullRows(|args.rows|)
    ensures IsFiltered(args, keep, entries[..], result.child)
  {
    hide EntryOf, KeptBy;
    FlushFilter(args, keep, batch, info, result, entries, |args.rows|, Start(args.Lengths(), |args.rows|));
    info.AllRowsDone(args.Lengths(), KeptBy(args, keep), entries);
    EntriesTile(args, keep, entries[..], result.child);
  }

  method ListFilter<T, C>(args: Args<T, C>, keep: Input<T, C> -> Option<bool>, vectorSize: nat)
    returns (resultEntries: array<ListEntry>, result: ListVector<T>)
    requires args.Valid() && vectorSize > 0
    ensures forall r: nat :: r in result.nulls <==> r < |args.rows| && args.rows[r].None?
    ensures IsFiltered(args, keep, resultEntries[..], result.child)
  {
    hide Filtering, Args.NullRows, IsFiltered;
    var batch, info;
    batch, info, result, resultEntries := BeginFilter(args, keep, vectorSize);
    for rowIdx := 0 to |args.rows|
      invariant Filtering(args, keep, batch, info, result, resultEntries, rowIdx, Start(args.Lengths(), rowIdx))
    {
      var length := SetResultEntry(args, keep, rowIdx, batch, info, result, resultEntries);
      if length != 0 {
        FilterElements(args, keep, rowIdx, length, batch, info, result, resultEntries);
      }
    }
    EndFilter(args, keep, batch, info, result, resultEntries);
    args.NullRowsExactly(|args.rows|);
  }

  /** The filtered lists of the first `n` rows. */
  ghost function FilteredRows<T, C>(args: Args<T, C>, keep: Input<T, C> -> Option<bool>, n: nat): seq<T>
    requires args.Valid() && n <= |args.rows|
  {
    if n == 0 then [] else FilteredRows(args, keep, n - 1) + Filtered(args.RowInputs(n - 1), keep)
  }

  lemma {:induction false} FilteredDetermined<T, C>(args: Args<T, C>, keep: Input<T, C> -> Option<bool>,
                                                    entries: seq<ListEntry>,
                                                    child: seq<T>, n: nat)
    requires args.Valid() && IsFiltered(args, keep, entries, child) && n <= |entries|
    ensures |FilteredRows(args, keep, n)| == (if n == 0 then 0
            else entries[n - 1].offset + entries[n - 1].length) <= |child|
    ensures child[..|FilteredRows(args, keep, n)|] == FilteredRows(args, keep, n)
  {
    SameCount(args, keep, entries, child);
    hide Filtered, IsFiltered;
    if n > 0 {
      FilteredDetermined(args, keep, entries, child, n - 1);
      var entry := entries[n - 1];
      EntrySpans(args, keep, entries, child, n - 1);
      SplitAt(child, entry.offset, entry.offset + entry.length);
    }
  }

  /** Where an entry begins, and what it spans. */
  lemma EntrySpans<T, C>(args: Args<T, C>, keep: Input<T, C> -> Option<bool>, entries: seq<ListEntry>, child: seq<T>,
                         r: nat)
    requires args.Valid() && IsFiltered(args, keep, entries, child) && r < |entries| == |args.rows|
    ensures entries[r].offset == (if r == 0 then 0 else entries[r - 1].offset + entries[r - 1].length)
    ensures entries[r].offset + entries[r].length <= |child|
    ensures child[entries[r].offset..entries[r].offset + entries[r].length] == Filtered(args.RowInputs(r), keep)
    ensures entries[r].length == |Filtered(args.RowInputs(r), keep)|
  {
    hide Filtered, Args.RowInputs;
    assert HoldsFiltered(args, keep, entries, child, r);
    hide Args.Valid, IsFiltered;
    var entry := entries[r];
    SplitAt(child, entry.offset, entry.offset + entry.length);
  }

  lemma SameCount<T, C>(args: Args<T, C>, keep: Input<T, C> -> Option<bool>, entries: seq<ListEntry>, child: seq<T>)
    requires args.Valid() && IsFiltered(args, keep, entries, child)
    ensures |entries| == |args.rows|
  {
  }

  lemma SplitAt<T>(s: seq<T>, i: nat, j: nat)
    requires i <= j <= |s|
    ensures s[..j] == s[..i] + s[i..j] && |s[..i]| == i && |s[i..j]| == j - i
  {
  }

  lemma EntryDetermined<T, C>(args: Args<T, C>, keep: Input<T, C> -> Option<bool>, entries: seq<ListEntry>,
                              child: seq<T>, r: nat)
    requires args.Valid() && IsFiltered(args, keep, entries, child) && r < |entries|
    ensures entries[r] == ListEntry(|FilteredRows(args, keep, r)|, |Filtered(args.RowInputs(r), keep)|)
  {
    SameCount(args, keep, entries, child);
    hide Filtered, IsFiltered, FilteredRows, Args.RowInputs;
    FilteredDetermined(args, keep, entries, child, r);
    EntrySpans(args, keep, entries, child, r);
  }

  /** The result does not depend on where the batches are cut: whatever two runs with different vector
      sizes return, their child vectors are the concatenated filtered lists and their entries agree. */
  lemma BatchSizeIrrelevant<T, C>(args: Args<T, C>, keep: Input<T, C> -> Option<bool>, entries: seq<ListEntry>,
                                  child: seq<T>,
                                  entries': seq<ListEntry>, child': seq<T>)
    requires args.Valid() && IsFiltered(args, keep, entries, child) && IsFiltered(args, keep, entries', child')
    ensures child == child' == FilteredRows(args, keep, |args.rows|)
    ensures entries == entries'
  {
    hide *;
    ChildDetermined(args, keep, entries, child);
    ChildDetermined(args, keep, entries', child');
    forall r: nat | r < |entries|
      ensures entries[r] == entries'[r]
    {
      EntryDetermined(args, keep, entries, child, r);
      EntryDetermined(args, keep, entries', child', r);
    }
  }

  lemma ChildDetermined<T, C>(args: Args<T, C>, keep: Input<T, C> -> Option<bool>, entries: seq<ListEntry>,
                              child: seq<T>)
    requires args.Valid() && IsFiltered(args, keep, entries, child)
    ensures |entries| == |args.rows| && child == FilteredRows(args, keep, |args.rows|)
  {
    hide Filtered, FilteredRows;
    FilteredDetermined(args, keep, entries, child, |entries|);
    assert child[..|child|] == child;
  }

  // ----- list_transform --------------------------------------------------------------------------

  ghost function Mapped<T, C, U>(inputs: seq<Input<T, C>>, f: Input<T, C> -> U): seq<U> {
    seq(|inputs|, i requires 0 <= i < |inputs| => f(inputs[i]))
  }

  /** Every row that is not NULL is a slice of the child vector holding its mapped list, and the
      child vector holds nothing else. */
  ghost predicate IsMapped<T, C, U>(args: Args<T, C>, f: Input<T, C> -> U, entries: seq<ListEntry>, child: seq<U>)
    requires args.Valid()
  {
    && |entries| == |args.rows| && |child| == Start(args.Lengths(), |args.rows|)
    && forall r :: 0 <= r < |entries| && args.rows[r].Some? ==>
         && entries[r].offset == Start(args.Lengths(), r)
         && entries[r].offset + entries[r].length <= |child|
         && child[entries[r].offset..entries[r].offset + entries[r].length] == Mapped(args.RowInputs(r), f)
  }

  /** `child` holds the images of the first elements of the stream. */
  ghost predicate IsImage<T, C, U>(args: Args<T, C>, f: Input<T, C> -> U, child: seq<U>)
    requires args.Valid()
  {
    forall c: Cell, k: nat :: IsAt(args.Lengths(), c, k, |args.rows|) && k < |child| ==>
        child[k] == f(args.CellInput(c))
  }

  lemma ImageExtends<T, C, U>(args: Args<T, C>, f: Input<T, C> -> U, child: seq<U>, batch: seq<Cell>, values: seq<U>)
    requires args.Valid() && IsImage(args, f, child) && |batch| == |values|
    requires forall i :: 0 <= i < |batch| ==> IsAt(args.Lengths(), batch[i], |child| + i, |args.rows|)
    requires forall i :: 0 <= i < |batch| ==> values[i] == f(args.CellInput(batch[i]))
    ensures IsImage(args, f, child + values)
  {
    forall c: Cell, k: nat | IsAt(args.Lengths(), c, k, |args.rows|) && k < |child + values|
      ensures (child + values)[k] == f(args.CellInput(c))
    {
      if k >= |child| {
        AtMostOneAt(args.Lengths(), c, batch[k - |child|], k, |args.rows|);
      }
    }
  }

  /** list_transform in the middle of a column: the first `k` elements of the stream, all from the
      first `n` rows, are either reflected in the result or wait in the batch. */
  ghost predicate Transforming<T, C, U>(args: Args<T, C>, f: Input<T, C> -> U, batch: Batch<T, C>,
                                        result: ListVector<U>,
                                        entries: array<ListEntry>, n: nat, k: nat)
    requires args.Valid()
    reads batch, batch.Repr, result, entries
  {
    && batch.Valid(args) && result !in batch.Repr && entries !in batch.Repr
    && n <= |args.rows| == entries.Length
    && |result.child| + batch.elemCnt == k && IsImage(args, f, result.child)
    && result.nulls == args.NullRows(n)
    && (forall i :: 0 <= i < batch.elemCnt ==> IsAt(args.Lengths(), batch.cells[i], |result.child| + i, |args.rows|))
    && forall r :: 0 <= r < n && args.rows[r].Some? ==>
                     entries[r] == ListEntry(Start(args.Lengths(), r), args.Lengths()[r])
  }

  /** Run the lambda on the batch and append the lambda vector to the result. */
  method FlushTransform<T, C, U>(args: Args<T, C>, f: Input<T, C> -> U, batch: Batch<T, C>, result: ListVector<U>,
                                 ghost entries: array<ListEntry>, ghost n: nat, ghost k: nat)
    requires args.Valid() && Transforming(args, f, batch, result, entries, n, k)
    modifies batch, result`child
    ensures Transforming(args, f, batch, result, entries, n, k) && batch.elemCnt == 0
  {
    hide Start, IsAt;
    var _, values := batch.ExecuteExpression(args, f);
    ImageExtends(args, f, result.child, batch.cells, values);
    result.Append(values);
    batch.Reset(args);
  }

  /** One row of the column; the entry of a NULL row is left as it was. */
  method TransformRow<T, C, U>(args: Args<T, C>, f: Input<T, C> -> U, rowIdx: nat, offset: nat, batch: Batch<T, C>,
                               result: ListVector<U>, entries: array<ListEntry>) returns (newOffset: nat)
    requires args.Valid() && rowIdx < |args.rows| && batch.childSel.Length > 0
             && offset == Start(args.Lengths(), rowIdx)
    requires Transforming(args, f, batch, result, entries, rowIdx, offset)
    modifies batch.Repr, result, entries
    ensures newOffset == Start(args.Lengths(), rowIdx + 1)
    ensures Transforming(args, f, batch, result, entries, rowIdx + 1, newOffset)
  {
    hide IsImage, IsAt;
    if args.rows[rowIdx].None? {
      result.SetInvalid(rowIdx);
      return offset;
    }
    var length := args.rows[rowIdx].value.length;
    entries[rowIdx] := ListEntry(offset, length);
    newOffset := offset + length;
    TransformElements(args, f, rowIdx, offset, length, batch, result, entries);
  }

  /** Push the elements of row `rowIdx` through the lambda. */
  method TransformElements<T, C, U>(args: Args<T, C>, f: Input<T, C> -> U, rowIdx: nat, ghost offset: nat,
                                    length: nat, batch: Batch<T, C>,
                                    result: ListVector<U>, ghost entries: array<ListEntry>)
    requires args.Valid() && rowIdx < |args.rows| && length == args.Lengths()[rowIdx] && batch.childSel.Length > 0
    requires offset == Start(args.Lengths(), rowIdx) && Transforming(args, f, batch, result, entries, rowIdx + 1,
             offset)
    modifies batch.Repr, result`child
    ensures Transforming(args, f, batch, result, entries, rowIdx + 1, offset + length)
  {
    hide IsImage;
    for childIdx := 0 to length
      invariant Transforming(args, f, batch, result, entries, rowIdx + 1, offset + childIdx)
    {
      if batch.elemCnt == batch.childSel.Length {
        FlushTransform(args, f, batch, result, entries, rowIdx + 1, offset + childIdx);
      }
      batch.Select(args, rowIdx, childIdx);
    }
  }

  lemma RowIsImage<T, C, U>(args: Args<T, C>, f: Input<T, C> -> U, child: seq<U>, r: nat)
    requires args.Valid() && r < |args.rows| && |child| == Start(args.Lengths(), |args.rows|)
    requires IsImage(args, f, child)
    ensures Start(args.Lengths(), r) + args.Lengths()[r] <= |child|
    ensures child[Start(args.Lengths(), r)..Start(args.Lengths(), r) + args.Lengths()[r]] ==
            Mapped(args.RowInputs(r), f)
  {
    hide *;
    MappedLength(args, f, r);
    ElementsAreImages(args, f, child, r);
    SameElements(child, Start(args.Lengths(), r), Mapped(args.RowInputs(r), f));
  }

  lemma ElementsAreImages<T, C, U>(args: Args<T, C>, f: Input<T, C> -> U, child: seq<U>, r: nat)
    requires args.Valid() && r < |args.rows| && |child| == Start(args.Lengths(), |args.rows|)
    requires IsImage(args, f, child)
    ensures |Mapped(args.RowInputs(r), f)| == args.Lengths()[r]
    ensures Start(args.Lengths(), r) + |Mapped(args.RowInputs(r), f)| <= |child|
    ensures forall j :: 0 <= j < |Mapped(args.RowInputs(r), f)| ==>
              child[Start(args.Lengths(), r) + j] == Mapped(args.RowInputs(r), f)[j]
  {
    hide *;
    MappedLength(args, f, r);
    StartMonotone(args.Lengths(), r, |args.rows|);
    forall j: nat | j < |Mapped(args.RowInputs(r), f)|
      ensures child[Start(args.Lengths(), r) + j] == Mapped(args.RowInputs(r), f)[j]
    {
      ElementIsImage(args, f, child, r, j);
    }
  }

  lemma MappedLength<T, C, U>(args: Args<T, C>, f: Input<T, C> -> U, r: nat)
    requires args.Valid() && r < |args.rows|
    ensures |args.Lengths()| == |args.rows| && |Mapped(args.RowInputs(r), f)| == args.Lengths()[r]
  {
  }

  /** The image of one element. */
  lemma ElementIsImage<T, C, U>(args: Args<T, C>, f: Input<T, C> -> U, child: seq<U>, r: nat, j: nat)
    requires args.Valid() && r < |args.rows| && j < args.Lengths()[r]
    requires IsImage(args, f, child) && Start(args.Lengths(), r) + j < |child|
    ensures j < |Mapped(args.RowInputs(r), f)|
    ensures child[Start(args.Lengths(), r) + j] == Mapped(args.RowInputs(r), f)[j]
  {
    hide Start;
    assert IsAt(args.Lengths(), Cell(r, j), Start(args.Lengths(), r) + j, |args.rows|);
  }

  lemma SameElements<U>(s: seq<U>, start: nat, t: seq<U>)
    requires start + |t| <= |s| && forall j :: 0 <= j < |t| ==> s[start + j] == t[j]
    ensures s[start..start + |t|] == t
  {
  }

  lemma TransformDone<T, C, U>(args: Args<T, C>, f: Input<T, C> -> U, entries: seq<ListEntry>, child: seq<U>)
    requires args.Valid() && |entries| == |args.rows| && |child| == Start(args.Lengths(), |args.rows|)
    requires IsImage(args, f, child)
    requires forall r :: 0 <= r < |entries| && args.rows[r].Some? ==>
             entries[r] == ListEntry(Start(args.Lengths(), r), args.Lengths()[r])
    ensures IsMapped(args, f, entries, child)
  {
    hide Mapped, IsImage;
    forall r: nat | r < |entries| && args.rows[r].Some?
      ensures entries[r].offset + entries[r].length <= |child|
      ensures child[entries[r].offset..entries[r].offset + entries[r].length] == Mapped(args.RowInputs(r), f)
    {
      RowIsImage(args, f, child, r);
    }
  }

  lemma NothingTransformed<T, C, U>(args: Args<T, C>, f: Input<T, C> -> U)
    requires args.Valid()
    ensures args.NullRows(0) == {} && IsImage(args, f, [])
  {
  }

  /** The lists of a transformed column one after the other, the NULL rows left out, and the place of each. */
  lemma {:induction false} MappedExactly<T, C, U>(args: Args<T, C>, f: Input<T, C> -> U, entries: seq<ListEntry>,
                                                  child: seq<U>, n: nat)
    requires args.Valid() && IsMapped(args, f, entries, child) && n <= |args.rows|
    ensures Start(args.Lengths(), n) == |Flatten(MappedRows(args, f, n))| <= |child|
    ensures child[..Start(args.Lengths(), n)] == Flatten(MappedRows(args, f, n))
    ensures n == |args.rows| ==> child == Flatten(MappedRows(args, f, n))
    ensures n < |args.rows| && args.rows[n].Some? ==>
              entries[n] == ListEntry(|Flatten(MappedRows(args, f, n))|, args.rows[n].value.length)
  {
    hide Mapped, Start, IsMapped, Flatten, Args.Lengths, Args.RowInputs;
    StartIsInside(args, f, entries, child, n);
    if n == 0 {
      NothingMapped(args, f);
    } else {
      var row, before := Mapped(args.RowInputs(n - 1), f), MappedRows(args, f, n - 1);
      MappedExactly(args, f, entries, child, n - 1);
      SpansMapped(args, f, entries, child, n - 1);
      FlattenConcat(before, [row]);
      FlattenOne(row);
      SplitAt(child, Start(args.Lengths(), n - 1), Start(args.Lengths(), n));
    }
    if n == |args.rows| { assert child[..|child|] == child; }
  }

  lemma NothingMapped<T, C, U>(args: Args<T, C>, f: Input<T, C> -> U)
    requires args.Valid()
    ensures Flatten(MappedRows(args, f, 0)) == [] && Start(args.Lengths(), 0) == 0
  {
  }

  lemma StartIsInside<T, C, U>(args: Args<T, C>, f: Input<T, C> -> U, entries: seq<ListEntry>, child: seq<U>, n: nat)
    requires args.Valid() && IsMapped(args, f, entries, child) && n <= |args.rows|
    ensures n <= |args.Lengths()| == |entries| && Start(args.Lengths(), n) <= |child|
    ensures n == |args.rows| ==> |child| == Start(args.Lengths(), n)
    ensures n < |args.rows| && args.rows[n].Some? ==>
              entries[n] == ListEntry(Start(args.Lengths(), n), args.rows[n].value.length)
  {
    if n < |args.rows| {
      StartMonotone(args.Lengths(), n, |args.rows|);
      if args.rows[n].Some? { EntryMapped(args, f, entries, child, n); }
    }
    hide Start;
  }

  lemma EntryMapped<T, C, U>(args: Args<T, C>, f: Input<T, C> -> U, entries: seq<ListEntry>, child: seq<U>, r: nat)
    requires args.Valid() && IsMapped(args, f, entries, child) && r < |args.rows| && args.rows[r].Some?
    ensures entries[r] == ListEntry(Start(args.Lengths(), r), args.rows[r].value.length)
    ensures entries[r].offset + entries[r].length <= |child|
    ensures child[entries[r].offset..entries[r].offset + entries[r].length] == Mapped(args.RowInputs(r), f)
  {
    hide Start;
    MappedLength(args, f, r);
    SplitAt(child, entries[r].offset, entries[r].offset + entries[r].length);
    hide Mapped;
  }

  lemma SpansMapped<T, C, U>(args: Args<T, C>, f: Input<T, C> -> U, entries: seq<ListEntry>, child: seq<U>, r: nat)
    requires args.Valid() && IsMapped(args, f, entries, child) && r < |args.rows|
    ensures |args.Lengths()| == |args.rows|
    ensures Start(args.Lengths(), r) + |Mapped(args.RowInputs(r), f)| == Start(args.Lengths(), r + 1) <= |child|
    ensures child[Start(args.Lengths(), r)..Start(args.Lengths(), r + 1)] == Mapped(args.RowInputs(r), f)
  {
    MappedLength(args, f, r);
    StartIsInside(args, f, entries, child, r + 1);
    if args.rows[r].Some? { EntryMapped(args, f, entries, child, r); }
    hide Mapped, IsMapped;
  }

  /** What the lambda makes of the lists of the first `n` rows; a NULL row has no elements. */
  ghost function MappedRows<T, C, U>(args: Args<T, C>, f: Input<T, C> -> U, n: nat): seq<seq<U>>
    requires args.Valid() && n <= |args.rows|
  {
    if n == 0 then [] else MappedRows(args, f, n - 1) + [Mapped(args.RowInputs(n - 1), f)]
  }

  method ListTransform<T, C, U>(args: Args<T, C>, f: Input<T, C> -> U, vectorSize: nat)
    returns (resultEntries: array<ListEntry>, result: ListVector<U>)
    requires args.Valid() && vectorSize > 0
    ensures forall r: nat :: r in result.nulls <==> r < |args.rows| && args.rows[r].None?
    ensures IsMapped(args, f, resultEntries[..], result.child)
  {
    NothingTransformed(args, f);
    hide Args.NullRows, IsMapped, IsImage, IsAt;
    resultEntries := new ListEntry[|args.rows|];
    result := new ListVector();
    var batch := new Batch(args, vectorSize);
    var offset := 0;
    for rowIdx := 0 to |args.rows|
      invariant fresh(batch.Repr) && offset == Start(args.Lengths(), rowIdx)
      invariant Transforming(args, f, batch, result, resultEntries, rowIdx, offset)
    {
      offset := TransformRow(args, f, rowIdx, offset, batch, result, resultEntries);
    }
    FlushTransform(args, f, batch, result, resultEntries, |args.rows|, offset);
    TransformDone(args, f, resultEntries[..], result.child);
    args.NullRowsExactly(|args.rows|);
  }
}
