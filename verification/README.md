# Models of the ODBC driver and of the engine code it carries

The modules model parts of an ODBC driver for an embedded SQL engine, and parts of the engine that is built
into it, and prove what these parts promise over whole runs. Code that updates state is modelled by classes
and loops; every such method is tied to a function of the old state, and the results are lemmas about these
functions.

- `ListLambda`: `list_filter` and `list_transform`. All elements of a column of lists are pushed through
  batches of fixed size, and the lists of the result are rebuilt from a state carried between the batches.
- `Json`, `JsonPathReader`, `JsonPath`, `JsonPathBounds`, `JsonPathPrinter`, `JsonPathForms`, `JsonSelection`:
  JSON paths. Validation and the two evaluators each read the path text again; all three are proved against
  one syntax and one meaning.
- `Fetch`, `FetchRuns`, `FetchRowByRow`, `FetchScroll`, `FetchScrollRuns`: the cursor over the chunks of a
  result, forward, row by row, backward and scrolling.
- `GetData`, `GetDataRuns`, `GetDataCursors`, `GetDataRows`: values of variable length handed out in parts by
  SQLGetData, in any C type, between fetches.
- `Diagnostics`: SQLGetDiagRec, which continues a long message under further record numbers.
- `ConnectionString`, `ConnectionStringText`, `ConnectionStringRuns`: the connection string, with values in
  braces and without.
- `Parameters`, `ParameterRuns`, `DataAtExecution`: parameter arrays and data sent in pieces.
- `CalendarAdd`, `CalendarRounding`, `TimeBucket`, `Ranges`, `TableRange`, `RangeBounds`: adding intervals with
  a calendar, time buckets, and ranges as lists and as tables.
- `Utf16`: the repair of UTF-16 text (well-formedness as in section 2.2 of RFC 2781).
- `Common`: an option type and the flattening of sequences.

What the code calls but does not contain is abstract. A lambda, a predicate, the decoding of a bound
parameter, the engine that executes a statement, the chunks of a query result, the set of option names, the
conversion of a value to a C type, the adding of a step to a timestamp, and what months and days mean to a
calendar are parameters of the model.
A calendar is a counter of milliseconds that rounds as a double; the rounding is any idempotent function that
is exact up to 2 to the 53rd, and for exact conditions the rounding of doubles below 2 to the 54th.

Some obvious stronger statements are false of this code. Each is recorded by a lemma with an input, and by
one that says for all inputs exactly when the statement holds.

- Stepping forward over kept chunks: `FetchScroll.ForwardStepCanFail`; `FetchScroll.ForwardStepExact`, and for
  whole runs `FetchScrollRuns.RunFollowsExactly`.
- Offsets of long values: `GetDataCursors.OffsetCrossesChunks`, `TypeSwitchMisreads` and `TypeSwitchOverruns`;
  `GetDataRuns.RunIsRightExactly`, `GetDataCursors.OffsetsStayWithTheirCell`, and `GetData.OverrunExactly` for
  reading beyond a value.
- Fetches that succeed without a row: `FetchRowByRow.UnboundLeavesChunk` and `GetDataRows.ReadBesideRows`;
  `FetchRowByRow.UnboundLandsExactly`.
- Errors and places of bound columns: `Fetch.ErrorIsMasked` and `FetchRowByRow.SecondRowsetIsMisplaced`;
  `Fetch.ErrorsAreMaskedExactly`, `RowsetInPlaceExactly` and `CountIsRightExactly`.
- Text of diagnostic records: `Diagnostics.ByteIsLost` and `LongMessageIsCutSilently`;
  `Diagnostics.TextsAreCompleteExactly` and `TruncationIsToldExactly`.
- Pieces of a parameter: `DataAtExecution.NullIsOverread`; `DataAtExecution.OverreadExactly`.
- Adding to timestamps: `CalendarRounding.RoundingMovesTimestamps`; `CalendarRounding.AddsExactlyIf`.
- Ranges as tables: `TableRange.TableLosesRows`; `TableRange.TableIsLists`.
- Repaired text: `Utf16.RepairIsIncomplete`; `Utf16.ReplacedWellFormed`.
- Bounds of JSON paths: `JsonPathBounds.OpenIndexLeavesBounds`; `JsonPathBounds.LeavesBoundsExactly`.
- Brackets of JSON paths: `JsonPathBounds.UnclosedIsAccepted`; `JsonPathBounds.AcceptsStrictlyExactly`.

## Model

| member | source | states |
|---|---|---|
| ListLambda.ListFilter | src/duckdb/extension/core_functions/lambda_functions.cpp:271-356 | for every list column, predicate and positive vector size: each row is a slice of the child vector holding its list filtered in order (NULL predicate drops), the slices follow each other without a gap and cover the child vector, exactly the NULL rows are set NULL |
| ListLambda.ListTransform | src/duckdb/extension/core_functions/lambda_functions.cpp:271-356 | for every list column, lambda and positive vector size: each non-NULL row is the slice holding the images of its elements, the lambda having seen the element, its index from 1 and the row's captured columns |
| ListLambda.FilteredExactly | src/duckdb/extension/core_functions/lambda_functions.cpp:125-144 | a list filtered by a predicate: its elements are those at the places the predicate accepts, each once and in order, a NULL answer counting as no |
| ListLambda.RowInputsExactly | src/duckdb/extension/core_functions/lambda_functions.cpp:183-217 | the inputs of a row, one for each element in order: the element, its index counted from one when the lambda takes it, and the row's own captured values |
| ListLambda.MappedExactly | src/duckdb/extension/core_functions/lambda_functions.cpp:271-356 | in any result that meets the transform specification the child vector is the images of the non-NULL rows one after the other, and each entry is the place and length of its row's |
| ListLambda.BatchSizeIrrelevant | src/duckdb/extension/core_functions/lambda_functions.cpp:318-351 | any two results that meet the filter specification are equal, so where batches are cut cannot be observed |
| ListLambda.ListFilterInfo.SetEmptyLists | src/duckdb/extension/core_functions/lambda_functions.cpp:118-123 | pending empty rows get their entry; what has been seen and kept is unchanged, and the current row has an element to come |
| ListLambda.ListFilterInfo.CountElement | src/duckdb/extension/core_functions/lambda_functions.cpp:125-144 | one element of the stream moves the progress by one and, when it completes a row, that row's entry is final |
| ListLambda.ListFilterInfo.AppendResult | src/duckdb/extension/core_functions/lambda_functions.cpp:104-159 | a batch of predicate values moves the progress by its size and appends exactly the kept elements |
| ListLambda.ListFilterInfo.CurrentElement | src/duckdb/extension/core_functions/lambda_functions.cpp:114-134 | the next element of the stream always belongs to the row the carried state points at |
| ListLambda.ListFilterInfo.AllRowsDone | src/duckdb/extension/core_functions/lambda_functions.cpp:134-152 | once all elements are seen, no row is without an entry |
| ListLambda.SetResultEntry | src/duckdb/extension/core_functions/lambda_functions.cpp:300-311 | announcing a source list, or an empty one for a NULL row, keeps the carried state in step |
| ListLambda.FlushFilter | src/duckdb/extension/core_functions/lambda_functions.cpp:320-329 | a flush empties the batch without losing the place in the column |
| ListLambda.FilterElements | src/duckdb/extension/core_functions/lambda_functions.cpp:318-344 | all elements of a row pass through the batches, however many flushes that takes |
| ListLambda.FlushTransform | src/duckdb/extension/core_functions/lambda_functions.cpp:81-85 | a flush appends the images of exactly the batched elements |
| ListLambda.TransformRow | src/duckdb/extension/core_functions/lambda_functions.cpp:74-80 | a row's entry is its own offset and length; a NULL row leaves no entry |
| ListLambda.Batch.Select | src/duckdb/extension/core_functions/lambda_functions.cpp:331-343 | the selection vectors gain exactly the chosen element |
| ListLambda.Batch.ExecuteExpression | src/duckdb/extension/core_functions/lambda_functions.cpp:183-217 | evaluation j sees element j of the batch, its index when asked for, and its own row's captured columns |
| ListLambda.EntryDetermined | src/duckdb/extension/core_functions/lambda_functions.cpp:133-151 | an entry is fixed by the filtered lengths of the rows before it |
| JsonPathReader.ReadString | src/duckdb/extension/json/json_common.cpp:67-105 | the key and the exact number of characters consumed, quoted or not; the key buffer of `end - ptr` bytes is never overrun |
| JsonPathReader.ReadQuoted | src/duckdb/extension/json/json_common.cpp:69-95 | the in-place unescaping loop computes the denotation of the quoted text |
| JsonPathReader.ReadInteger | src/duckdb/extension/json/json_common.cpp:107-132 | the digits up to the bracket and their value, or failure; at most nineteen are read |
| JsonPathReader.ReadKey | src/duckdb/extension/json/json_common.cpp:134-175 | the key read, with wildcard, recursion and the length including quotes and second dot |
| JsonPathReader.KeyAfterSecondDot | src/duckdb/extension/json/json_common.cpp:309-313 | the key of a recursive step read again from its second dot is the same key, valid and not recursive |
| JsonPathReader.ReadArrayIndex | src/duckdb/extension/json/json_common.cpp:177-215 | success, position, index and direction of an array step, for every input |
| JsonPathReader.IndexLeavesPath | src/duckdb/extension/json/json_common.cpp:107-132 | the position passes the end exactly when the path ends in nineteen digits without a bracket |
| JsonPathReader.WildcardIndex | src/duckdb/extension/json/json_common.cpp:180-186 | the reserved index stands for the wildcard only |
| JsonPath.ValidatePath | src/duckdb/extension/json/json_common.cpp:217-254 | the class of every path: regular, wildcard, malformed, or leaving its bounds, as the parse of the whole path says |
| JsonPathBounds.LeavesBoundsExactly | src/duckdb/extension/json/json_common.cpp:217-254 | a path is read past its end if and only if it ends in an open bracket with nineteen digits and would be valid with the bracket closed; every other path stays within its bounds |
| JsonPathBounds.OpenIndexLeavesBounds | src/duckdb/extension/json/json_common.cpp:107-132 | the path `$[` followed by nineteen zeros is read past its end |
| JsonPathBounds.ClosingIsValid | src/duckdb/extension/json/json_common.cpp:217-254 | from any earlier position, a path with an open index at its end is read past it if and only if closing the bracket makes it valid |
| JsonPathBounds.StaysInside | src/duckdb/extension/json/json_common.cpp:177-215 | a path leaves its bounds only by an open index of nineteen digits at its end |
| JsonPathBounds.OpenIsNotAccepted | src/duckdb/extension/json/json_common.cpp:217-254 | a path with an open index of nineteen digits at its end is never accepted |
| JsonPathBounds.AcceptsStrictlyExactly | src/duckdb/extension/json/json_common.cpp:107-132 | an accepted path follows the syntax in which every index is closed by its bracket, if and only if no step of it has nineteen digits followed by something else |
| JsonPathBounds.UnclosedIsAccepted | src/duckdb/extension/json/json_common.cpp:107-132 | the path `$[` with nineteen zeros and a letter is accepted as index zero |
| JsonPath.GetPath | src/duckdb/extension/json/json_common.cpp:256-299 | on every validated regular path, the one value the path denotes, or none |
| JsonPath.ArrayGetSelects | src/duckdb/extension/json/json_common.cpp:287-290 | an index from the back selects by unsigned 64-bit subtraction, so one larger than the array selects nothing |
| JsonPath.RegularSelectsAtMostOne | src/duckdb/extension/json/json_common.cpp:256-299 | a regular path denotes at most one value |
| JsonPath.GetWildcardPathInternal | src/duckdb/extension/json/json_common.cpp:301-388 | from any position of a validated path, exactly the denoted values are appended in order, and the calls end |
| JsonPath.GetFromDescendants | src/duckdb/extension/json/json_common.cpp:313-334 | the growing worklist ends and evaluates the rest of the path from every node, the root only if something follows |
| JsonPath.GetFromAll | src/duckdb/extension/json/json_common.cpp:340-346 | a wildcard evaluates the rest of the path from every child in order |
| JsonPath.GetWildcardPath | src/duckdb/extension/json/json_common.cpp:390-395 | every validated path appends exactly what it denotes; on a regular path this is what GetPath returns |
| JsonPath.ParseSecondDot | src/duckdb/extension/json/json_common.cpp:309-313 | re-reading after `..key` denotes a descent followed by the key |
| JsonPath.DescentIsExhaustive | src/duckdb/extension/json/json_common.cpp:313-334 | a final descent selects every node below the root exactly once, breadth first |
| JsonSelection.LookupExactly | src/duckdb/extension/json/json_common.cpp:265-272 | looking up a key finds the first member that has it, or none when none has |
| JsonSelection.StepExactly | src/duckdb/extension/json/json_common.cpp:256-388 | what each single step selects, in places: the first member with the key, the element so far from the front or from the back, all members or elements in document order, everything below |
| JsonSelection.PathsCompose | src/duckdb/extension/json/json_common.cpp:301-388 | a longer path selects what its end selects from each value that its beginning selects, in that order; a descent that goes on includes the value itself |
| Json.WorklistIsLevelOrder | src/duckdb/extension/json/json_common.cpp:315-329 | the worklist order is level order |
| Json.WorklistVisitsEachNodeOnce | src/duckdb/extension/json/json_common.cpp:315-329 | the worklist visits the nodes of a preorder traversal, each as often |
| JsonPathPrinter.QuotedAtEscaped | src/duckdb/extension/json/json_common.cpp:69-95 | reading an escaped key gives the key back with the exact length, for every key |
| JsonPathPrinter.DecimalRoundTrip | src/duckdb/extension/json/json_common.cpp:107-132 | reading a printed index gives the index back |
| JsonPathPrinter.ParsePrinted | src/duckdb/extension/json/json_common.cpp:217-254 | every list of expressible steps is what its printed path parses to |
| JsonPathPrinter.ParsedIsExpressible | src/duckdb/extension/json/json_common.cpp:217-254 | from any position, what a path denotes can be printed |
| JsonPathPrinter.ExpressibleExactly | src/duckdb/extension/json/json_common.cpp:217-254 | the lists of steps that paths denote are exactly those of non-empty keys other than `*`, indices of at most nineteen digits, positive indices from the back, wildcards and descents |
| JsonPathPrinter.PrintedPathDenotes | src/duckdb/extension/json/json_common.cpp:217-254 | the printed path is accepted and classified by whether it can select more than one value |
| JsonPathForms.QuotedAtSpelled | src/duckdb/extension/json/json_common.cpp:69-95 | a quoted key, however it is spelled with and without escapes, reads as the characters it spells |
| JsonPathForms.BareKeyAt | src/duckdb/extension/json/json_common.cpp:97-103 | a key without quotes is read up to the next dot, bracket or end, whole |
| JsonPathForms.FormParsed | src/duckdb/extension/json/json_common.cpp:217-254 | every way to write a step, bare and quoted keys, `*`, `**`, descents, `[n]`, `[-n]`, `[#-n]`, `[#]`, `[*]`, parses to the steps it stands for |
| JsonPathForms.FormsParsed | src/duckdb/extension/json/json_common.cpp:217-254 | the same for any list of written steps |
| JsonPathForms.StrictHasForms | src/duckdb/extension/json/json_common.cpp:217-254 | a path that parses without an unclosed index is a list of written steps |
| JsonPathForms.FormsExactly | src/duckdb/extension/json/json_common.cpp:217-254 | a path parses to these steps without an unclosed index if and only if it is a list of written steps that stands for them |
| Fetch.OdbcFetch.FetchNext | src/odbc_driver/common/odbc_fetch.cpp:62-97 | the state after a pull: end, error, or the chunk kept and made current |
| Fetch.OdbcFetch.SetCurrentChunk | src/odbc_driver/common/odbc_fetch.cpp:99-115 | the next kept chunk, or the last one, becomes current before its first row |
| Fetch.OdbcFetch.SetPriorCurrentChunk | src/odbc_driver/common/odbc_fetch.cpp:117-138 | the state after a backward move, also across a chunk boundary |
| Fetch.OdbcFetch.SetFirstCurrentChunk | src/odbc_driver/common/odbc_fetch.cpp:140-149 | the state after a move to the start |
| Fetch.OdbcFetch.FetchNextChunk | src/odbc_driver/common/odbc_fetch.cpp:221-248 | the move for each orientation, refused for forward-only cursors |
| Fetch.OdbcFetch.FetchStmtResult | src/odbc_driver/common/odbc_fetch.cpp:283-318 | one fetch: the move, then the rowset of the current chunk, with the return code of the last conversion, an error mark for each row that has one, the places of the rows and the number reported; without bound columns the cursor moves over the rowset and one row is reported |
| Fetch.OdbcFetch.ColumnWise | src/odbc_driver/common/odbc_fetch.cpp:328-375 | exactly the rows of the rowset, cut at the end of the chunk, are converted in order; a row is marked just when a conversion of it failed; where each row lands, and the number reported |
| Fetch.RowsetInPlaceExactly | src/odbc_driver/common/odbc_fetch.cpp:352-360 | the rows land at the beginning of the client's arrays, in order, if and only if the rowset has one row or begins the chunk |
| Fetch.CountIsRightExactly | src/odbc_driver/common/odbc_fetch.cpp:370-372 | the number reported, an unsigned difference, is that of the rows delivered if and only if the cursor was not moved beyond the chunk |
| Fetch.OdbcFetch.FillColumns | src/odbc_driver/common/odbc_fetch.cpp:343-367 | the columns of a row: the code of the last conversion, and whether any failed |
| Fetch.ErrorsAreMaskedExactly | src/odbc_driver/common/odbc_fetch.cpp:328-374 | for any fetch with bound columns from any state: it succeeds although a conversion failed, if and only if there is a first row with an error in the rowset and the last conversion of the last row succeeded |
| Fetch.ErrorIsMasked | src/odbc_driver/common/odbc_fetch.cpp:359-374 | two rows of which the first fails: the fetch reports success |
| Fetch.OdbcFetch.FetchFirst | src/odbc_driver/common/odbc_fetch.cpp:320-326 | positioning after execution leaves the cursor type as it was |
| Fetch.OdbcFetch.SetLastFetchedVariableVal | src/odbc_driver/common/odbc_fetch.cpp:432-438 | an offset survives only for the same column and row |
| Fetch.Move | src/odbc_driver/common/odbc_fetch.cpp:221-248 | every move keeps the cursor valid: a kept current chunk, no empty chunk, one chunk at most if forward-only |
| FetchRuns.NextDelivers | src/odbc_driver/common/odbc_fetch.cpp:283-318 | a forward fetch delivers a non-empty part of one chunk in order, or nothing is left |
| FetchRuns.EndIsPermanent | src/odbc_driver/common/odbc_fetch.cpp:229-238 | after the end every further fetch reports SQL_NO_DATA |
| FetchRuns.ForwardRun | src/odbc_driver/common/odbc_fetch.cpp:283-318 | in any forward run what is delivered, followed by what remains, is what remained before it |
| FetchRuns.WholeResultForward | src/odbc_driver/common/odbc_fetch.cpp:221-248 | for any chunking and any positive rowset sizes a long enough forward run delivers the whole result once, in order, then only SQL_NO_DATA |
| FetchRuns.Begin | src/odbc_driver/statement/statement_functions.cpp:103-107 | after execution the cursor is before the first row with the whole result to come |
| FetchRowByRow.UnboundLandsExactly | src/odbc_driver/common/odbc_fetch.cpp:291-300 | a fetch without bound columns that succeeds leaves the cursor on a row if and only if the chunk is long enough from the place the move reached |
| FetchRowByRow.BoundLands | src/odbc_driver/common/odbc_fetch.cpp:328-339 | a fetch with bound columns that delivers rows leaves the cursor on the last of them |
| FetchRowByRow.WalkVisitsEveryRow | src/odbc_driver/common/odbc_fetch.cpp:291-300 | without bound columns and with rowset size one a forward run stops at every row of the result once, in order, then reports the end |
| FetchRowByRow.UnboundLeavesChunk | src/odbc_driver/common/odbc_fetch.cpp:291-300 | three rows, two fetches of two rows without bound columns: both succeed, the second leaves the cursor behind the last row |
| FetchRowByRow.SecondRowsetIsMisplaced | src/odbc_driver/common/odbc_fetch.cpp:352-360 | four rows fetched two at a time: the second rowset lands behind the client's two places |
| FetchScroll.PriorDelivers | src/odbc_driver/common/odbc_fetch.cpp:117-138 | a backward fetch delivers the row before, or reaches the start |
| FetchScroll.PriorRowset | src/odbc_driver/common/odbc_fetch.cpp:117-138 | what a backward fetch delivers for any rowset size: the rowset of that many rows that ends where the cursor was, or, when the chunk has too few rows before it, the last rowset of the chunk before, or no data at the first chunk |
| FetchScroll.BackwardRun | src/odbc_driver/common/odbc_fetch.cpp:117-138 | repeated backward fetches deliver the rows in reverse order, then SQL_NO_DATA |
| FetchScroll.ForwardThenBackward | src/odbc_driver/common/odbc_fetch.cpp:221-248 | reading to the end and back returns the whole result reversed, across chunk boundaries |
| FetchScroll.ForwardStepExact | include/odbc_fetch.hpp:86-88 | a forward step of a scrollable cursor moves to the successor row if and only if the sizes of the current and of the last kept chunk lead to the same decision and leaving the chunk meets no end |
| FetchScroll.ForwardStepCanFail | include/odbc_fetch.hpp:86-88 | two chunks of two rows and one row: forward to the end, back to the first row, and the second row is not found |
| FetchScrollRuns.StepFollowsExactly | src/odbc_driver/common/odbc_fetch.cpp:221-248 | in any kept chunks, a move does what a simple cursor with places before, on and after the rows does, always for PRIOR and FIRST and for NEXT exactly if the step is safe |
| FetchScrollRuns.RunFollowsExactly | src/odbc_driver/common/odbc_fetch.cpp:221-248 | every interleaving of NEXT, PRIOR and FIRST over any chunks follows the simple cursor step by step if and only if each of its forward steps is safe where it is made |
| FetchScrollRuns.ScrollsFromExecution | src/odbc_driver/common/odbc_fetch.cpp:221-248 | the same from the execution on, for every result with rows; a run of safe steps returns what the simple cursor returns |
| FetchScrollRuns.OneChunkScrolls | src/odbc_driver/common/odbc_fetch.cpp:221-248 | on a result in one chunk every interleaving returns what the simple cursor returns |
| GetData.GetVariableValue | src/odbc_driver/statement/statement_functions.cpp:242-320 | return code, copied bytes, terminator, untouched rest of the buffer, remaining length and saved offset of one call, in every branch, with the 64-bit wrap of the remaining length and whether memory beyond the value is read |
| GetData.OverrunExactly | src/odbc_driver/statement/statement_functions.cpp:255-313 | memory beyond the value is read if and only if the value is empty, the saved offset is not zero, and the buffer has room |
| GetData.PartExactly | src/odbc_driver/statement/statement_functions.cpp:250-313 | one call at any place of a value: no data, a buffer too small for the terminator, the rest, or as many bytes as there is room for beside a terminator of one, two or no bytes |
| GetData.PartsReassemble | src/odbc_driver/statement/statement_functions.cpp:242-320 | with any buffers of one C type larger than the terminator the parts concatenate to the value in that type, end with one SQL_SUCCESS and then SQL_NO_DATA |
| GetData.LengthExactly | src/odbc_driver/statement/statement_functions.cpp:262-288 | the length reported is that of the rest of the value if and only if a signed number of 64 bits can tell it |
| GetData.IndicatorsCountDown | src/odbc_driver/statement/statement_functions.cpp:242-320 | over any run of parts of a value below 2 to the 63rd bytes, each call reports what was left less the bytes handed out since, and nothing once the value is used up |
| GetData.PartsOfTwoTypes | src/odbc_driver/statement/statement_functions.cpp:462-482 | one byte of a text as SQL_C_CHAR and the rest as SQL_C_WCHAR: the second part begins inside a unit |
| GetData.EmptyValueRepeats | src/odbc_driver/statement/statement_functions.cpp:255-258 | a value that is empty in the type asked for is handed out again by every call, never SQL_NO_DATA |
| GetDataRuns.GetDataStmtResult | src/odbc_driver/statement/statement_functions.cpp:394-482 | what a read returns and which offset it leaves: converted for the C type, NULL, without a chunk, or beside the rows |
| GetDataRuns.StepMoves | src/odbc_driver/common/odbc_fetch.cpp:283-318 | the fetches of a run move as the fetcher does |
| GetDataRuns.OffsetIsRightExactly | src/odbc_driver/common/odbc_fetch.cpp:432-438 | the offset applied to a cell is the one reached in it in this type, if and only if the last read was not of the same column and row number in another chunk or another type with something handed out |
| GetDataRuns.RunIsRightExactly | src/odbc_driver/common/odbc_fetch.cpp:426-446 | for every cursor type and every interleaving of NEXT, PRIOR, FIRST, with any rowsets and bound or unbound columns, and reads of any C types: all values are read from the right offset if and only if no value is read after such a crossing |
| GetDataRuns.RunFromExecution | src/odbc_driver/common/odbc_fetch.cpp:426-446 | the same from the execution on |
| GetDataCursors.IdealNeverOverruns | src/odbc_driver/statement/statement_functions.cpp:255-313 | reads from the right offsets never go beyond a value |
| GetDataCursors.OffsetsStayWithTheirCell | src/odbc_driver/common/odbc_fetch.cpp:426-446 | with a forward-only cursor, whatever is fetched and read, all values are read from the right offset if and only if none is read on in another type; then nothing is read beyond a value, empty or not |
| GetDataCursors.TypedRunsAreRight | src/odbc_driver/common/odbc_fetch.cpp:426-446 | from the execution of a forward-only statement on, a client that uses one type for each column gets every value from the right offset and never beyond it |
| GetDataCursors.TypeSwitchMisreads | src/odbc_driver/statement/statement_functions.cpp:462-482 | one row of a forward-only cursor: a byte as SQL_C_CHAR, and the text as SQL_C_WCHAR then lacks its first byte |
| GetDataCursors.TypeSwitchOverruns | src/odbc_driver/statement/statement_functions.cpp:469-482 | a text that begins with a NUL: a byte as SQL_C_CHAR, and as SQL_C_BINARY it is then read beyond its end |
| GetDataRows.CarefulRunsStayOnRows | src/odbc_driver/statement/statement_functions.cpp:394-406 | a forward run that begins with a fetch, and fetches bound columns or single rows, never reads beside a row |
| GetDataRows.ReadBesideRows | src/odbc_driver/common/odbc_fetch.cpp:291-300 | three rows, two fetches of two rows without bound columns, and a read: there is no row to read |
| GetDataCursors.OffsetCrossesChunks | src/odbc_driver/common/odbc_fetch.cpp:432-438 | a run from the execution of a scrollable statement in which the offset of one cell is applied to an empty value of another chunk and leads beyond it |
| Diagnostics.OdbcDiagnostic.AddDiagRecord | src/odbc_driver/common/odbc_diagnostic.cpp:216-220 | a record is appended under the next record number |
| Diagnostics.OdbcDiagnostic.AddNewRecIdx | src/odbc_driver/common/odbc_diagnostic.cpp:222-226 | a further record number is inserted after the one just read, for the same record |
| Diagnostics.OdbcDiagnostic.GetDiagRecord | src/odbc_driver/common/odbc_diagnostic.cpp:250-263 | the record of a number; asking for the first one resets the numbers and every offset |
| Diagnostics.OdbcDiagnostic.GetMessage | src/odbc_driver/common/odbc_diagnostic.cpp:328-337 | the rest of the message from the saved offset, and the offset moved by the buffer length or reset |
| Diagnostics.OdbcDiagnostic.ClearStackMsgOffset | src/odbc_driver/common/odbc_diagnostic.cpp:344-349 | the offsets are popped down to the start of the message |
| Diagnostics.OdbcDiagnostic.Clean | src/odbc_driver/common/odbc_diagnostic.cpp:232-236 | no record and no record number is left |
| Diagnostics.OdbcDiagnostic.GetDiagRecInternal | src/odbc_api/diagnostic_api.cpp:306-361 | reply and state after one call, including bad numbers, bad lengths, null pointers and 16-bit truncation |
| Diagnostics.AddedValid | src/odbc_driver/common/odbc_diagnostic.cpp:216-220 | adding a record keeps the record numbers sorted, in range and onto the records |
| Diagnostics.ReadsKeepIndex | src/odbc_driver/common/odbc_diagnostic.cpp:216-263 | any read keeps the record numbers sorted, in range and onto the records, and changes no message |
| Diagnostics.RecordsAreTiled | src/odbc_api/diagnostic_api.cpp:314-361 | whatever was read before, reading records 1, 2, 3, ... offers each message from its start in consecutive windows of the buffer lengths, in record order, then no data |
| Diagnostics.TilingCovers | src/odbc_driver/common/odbc_diagnostic.cpp:328-337 | the windows of a tiling joined are a prefix of the messages, and all of them once no data is reported |
| Diagnostics.RunOffersEverything | src/odbc_api/diagnostic_api.cpp:314-361 | a run of reads that ends with no data has offered the text of all messages |
| Diagnostics.LostBytes | src/odbc_driver/common/odbc_utils.cpp:279-288 | each part that fills its buffer loses one byte, and no other part loses any |
| Diagnostics.FullBuffersExactly | src/odbc_driver/common/odbc_utils.cpp:279-288 | no part fills its buffer if and only if every message is shorter than the buffer given for its number |
| Diagnostics.TextsAreCompleteExactly | src/odbc_api/diagnostic_api.cpp:314-361 | reading records 1, 2, 3, ... the client gets the text of all the windows, without a byte lost, if and only if every message is shorter than the buffer given for its number |
| Diagnostics.OfferedExactly | src/odbc_api/diagnostic_api.cpp:318-361 | one call with any pointers on a message of any length: the window, the text copied, the length and the return code, in terms of what is left of the message |
| Diagnostics.LeftExactly | src/odbc_api/diagnostic_api.cpp:318-361 | the state after such a call: where the message goes on, and that only a call with both pointers makes a further number for it |
| Diagnostics.RefusedExactly | src/odbc_api/diagnostic_api.cpp:306-316 | a bad record number or a negative length gives SQL_SUCCESS with a complaint as the text, a number beyond the records no data; neither changes the records |
| Diagnostics.TruncationIsToldExactly | src/odbc_api/diagnostic_api.cpp:340-358 | a call tells that the message goes on just when it does, if and only if nothing is left or a number of 16 bits can tell what is |
| Diagnostics.LongMessageIsCutSilently | src/odbc_api/diagnostic_api.cpp:340-358 | a message of 40000 bytes of which one byte is asked for: the call returns SQL_SUCCESS |
| Diagnostics.ByteIsLost | src/odbc_driver/common/odbc_utils.cpp:279-288 | a message of two bytes read with two buffers of two: the second byte is never copied |
| ConnectionString.ReadBraced | src/odbc_driver/connect/connect.cpp:106-120 | the value up to the closing brace, doubled braces undone, and whether it was closed |
| ConnectionString.Connect.ReadPair | src/odbc_driver/connect/connect.cpp:92-132 | the next pair, the end, or malformed, for every string |
| ConnectionString.Connect.FindKeyValPair | src/odbc_driver/connect/connect.cpp:47-84 | what a row does to the options: ignored, warned about, refused, or stored trimmed |
| ConnectionString.Connect.ParseInputStr | src/odbc_driver/connect/connect.cpp:86-155 | options, flags, return code and DSN after the whole string, including what an error leaves behind |
| ConnectionString.TrimLower | src/odbc_driver/common/odbc_utils.cpp:448-456 | lower-casing and trimming commute |
| ConnectionString.RowSplits | src/odbc_driver/connect/connect.cpp:141-143 | a pair handed on as `key=value` splits into the same key and value |
| ConnectionString.TrimCuts | src/odbc_driver/common/odbc_utils.cpp:448-456 | trimming takes the characters 9 to 13 and 32 off both ends, all of them and nothing else |
| ConnectionString.LowerExactly | src/odbc_driver/connect/connect.cpp:100 | capital letters become small ones, nothing else changes |
| ConnectionStringText.SegmentsAreScanned | src/odbc_driver/connect/connect.cpp:91-132 | any mix of pairs written as `key=text;` and as `key={value}...;` with closing braces doubled, and of blank segments, scans to exactly the keys and values written: the text trimmed, the braced value as it is |
| ConnectionStringText.WellFormedExactly | src/odbc_driver/connect/connect.cpp:91-132 | a string is well formed if and only if it is such a mix, the last one with or without its semicolon |
| ConnectionStringText.KeyReadIsIdentity | src/odbc_driver/connect/connect.cpp:96-101 | the keys read back unchanged are exactly the lower-case ones without spaces at their ends or a leading semicolon |
| ConnectionStringRuns.LastPairWins | src/odbc_driver/connect/connect.cpp:136-144 | from any state, also when the string is refused: every option ends with the value of the last pair taken that sets it, and no other key leaves a trace |
| ConnectionStringRuns.SegmentsAreRecovered | src/odbc_driver/connect/connect.cpp:86-155 | parsing any mix of pairs written with and without braces: each option has the value of the last pair that names it before any session option, exactly for cupolaconnection and trimmed for the others; ignored and unknown keys leave no trace |
| ConnectionStringRuns.AcceptedStrings | src/odbc_driver/connect/connect.cpp:86-155 | a string is accepted if and only if it is well formed, names no session option and, with cupolaconnection, names only a driver and empty credentials besides, each once; a warning is returned exactly for unknown keys |
| Parameters.Statement.SetValue | src/odbc_driver/parameter_descriptor.cpp:430-437 | a value is appended or replaces the one of an earlier set |
| Parameters.Statement.SetParamIndex | src/odbc_driver/parameter_descriptor.cpp:443-452 | the set is counted, the processed counter follows, and the last set is recognised |
| Parameters.Statement.GetParamValues | src/odbc_driver/parameter_descriptor.cpp:65-91 | values, status array, counters and return code for one set, in every branch |
| Parameters.Statement.SingleExecuteStmt | src/odbc_driver/statement/statement_functions.cpp:128-156 | one execution with the values of the current set, or none |
| Parameters.Statement.BatchExecuteStmt | src/odbc_driver/statement/statement_functions.cpp:92-101 | the loop ends; its effect is that of executing set after set until one stops it |
| Parameters.StillExecutingAdvances | src/odbc_driver/parameter_descriptor.cpp:443-452 | only a set that is not the last leaves the statement executing, and it moves on by one |
| ParameterRuns.BatchExecutesEverySet | src/odbc_driver/statement/statement_functions.cpp:92-156 | the call succeeds if and only if every set gets through; then each set was executed once, in order, and the processed counter is the array size; a parameter that failed to decode had the value of the closest earlier set |
| ParameterRuns.EverySetByItself | src/odbc_driver/statement/statement_functions.cpp:92-156 | if every set decodes, execution k uses exactly the values of set k and nothing left over |
| ParameterRuns.NoParametersRunOnce | src/odbc_driver/statement/statement_functions.cpp:92-156 | a statement without bound parameters is executed once, whatever the array size |
| ParameterRuns.StatusesAreReported | src/odbc_driver/parameter_descriptor.cpp:65-91 | the status array after any run, however it ends: the entry of an executed set tells whether its last parameter decoded, that of a set that stopped the run why, and all others are as before |
| ParameterRuns.RunExecutesUpToStop | src/odbc_driver/statement/statement_functions.cpp:92-156 | however a run ends, the sets it got beyond were executed once each, in order, with the values carried to them, and nothing else was |
| ParameterRuns.FillSucceeds | src/odbc_driver/parameter_descriptor.cpp:72-89 | collecting the values of a set succeeds if and only if every parameter decodes, or its failure is reported and an earlier value exists |
| DataAtExecution.ParameterDescriptor.FillParamCharDataBuffer | src/odbc_driver/parameter_descriptor.cpp:172-200 | the piece is appended, cut to the declared length, and the parameter left when it is full; or more bytes are copied than the piece has |
| DataAtExecution.ParameterDescriptor.PutData | src/odbc_driver/parameter_descriptor.cpp:137-157 | the effect of a piece with any length argument on the current parameter, for character, binary, other and NULL data, an error when none is left, or an overread |
| DataAtExecution.OverreadExactly | src/odbc_driver/parameter_descriptor.cpp:185-192 | a piece is read beyond its end if and only if the parameter still wants more than it has and its length promises more or is negative |
| DataAtExecution.NullIsOverread | src/odbc_driver/parameter_descriptor.cpp:185-192 | SQL_NULL_DATA sent to an untouched character parameter is read beyond its end |
| DataAtExecution.PiecesFillParameter | src/odbc_driver/parameter_descriptor.cpp:172-200 | the pieces of a parameter joined and cut to the declared length are its value, and it is left exactly when that length is reached |
| DataAtExecution.RunFillsParameters | src/odbc_driver/parameter_descriptor.cpp:137-200 | over a whole run every parameter holds its own pieces and is left exactly once |
| DataAtExecution.AllSentAt | src/odbc_driver/parameter_descriptor.cpp:172-200 | each parameter holds its own group of pieces cut to its length, the others are untouched |
| DataAtExecution.RunStoresEverything | src/odbc_driver/parameter_descriptor.cpp:137-200 | a whole run that mixes character data in pieces, other data and NULL: every call succeeds, each parameter holds what was sent to it, NULL only in its indicator, and the others are untouched |
| DataAtExecution.RefusedExactly | src/odbc_driver/parameter_descriptor.cpp:137-157 | a call is refused if and only if no parameter is left, and then changes nothing |
| CalendarAdd.CalendarAddHour | src/duckdb/extension/icu/icu-dateadd.cpp:47-65 | the loops add the hours in 32-bit steps |
| CalendarAdd.Add | src/duckdb/extension/icu/icu-dateadd.cpp:67-133 | the result or failure of adding any interval: truncating split, carry, range checks, order of the fields |
| CalendarAdd.HoursAreExact | src/duckdb/extension/icu/icu-dateadd.cpp:47-65 | the 32-bit steps add up to all the hours, for either sign |
| CalendarAdd.MovedByIsExact | src/duckdb/extension/icu/icu-dateadd.cpp:98-130 | hours, minutes, seconds and milliseconds move the calendar by exactly the interval's milliseconds |
| CalendarAdd.AddsInOrder | src/duckdb/extension/icu/icu-dateadd.cpp:98-130 | adding any interval where doubles are exact, in terms of what months and days mean: months, then days, then the time; with a negative field the time first, then months, then days |
| CalendarAdd.DaysAddExactly | src/duckdb/extension/icu/icu-dateadd.cpp:98-130 | with days of 86,400,000 milliseconds, adding a number of days is adding as many times that |
| CalendarAdd.HasDateExactly | src/duckdb/extension/icu/icu-datefunc.cpp:102-132 | a timestamp has a date if and only if it is finite and not before the first midnight that 64 bits can hold |
| CalendarAdd.ToTimestampExactly | src/duckdb/extension/icu/icu-datefunc.cpp:102-132 | milliseconds become the timestamp a thousand times as large plus the microseconds, or a failure exactly when it, or the milliseconds alone, is out of range |
| CalendarAdd.InfinityStays | src/duckdb/extension/icu/icu-dateadd.cpp:70-72 | adding to an infinite timestamp leaves it as it is |
| CalendarAdd.RefusedAtOnce | src/duckdb/extension/icu/icu-dateadd.cpp:87-91 | whatever the interval, adding fails where the whole milliseconds of the timestamp are out of range or have no date |
| CalendarAdd.CarryAddsUp | src/duckdb/extension/icu/icu-dateadd.cpp:74-85 | carry and borrow of the microseconds keep the sum, also when both parts are negative |
| CalendarAdd.ExactIsInRange | src/duckdb/extension/icu/icu-datefunc.cpp:102-132 | where doubles are exact the range checks pass and nothing is lost converting back |
| CalendarAdd.AddsExactly | src/duckdb/extension/icu/icu-dateadd.cpp:67-133 | adding an interval of microseconds is integer addition for both signs, where milliseconds are exact doubles |
| CalendarRounding.AddingNothingExactly | src/duckdb/extension/icu/icu-dateadd.cpp:93-96 | for any rounding, adding an empty interval leaves a timestamp as it is if and only if its milliseconds are not rounded |
| CalendarRounding.AddsExactlyIf | src/duckdb/extension/icu/icu-dateadd.cpp:67-133 | with the rounding of doubles, for every timestamp and interval of microseconds that pass the range checks and whose sum is a timestamp: adding is integer addition if and only if the sum is a double and the roundings on the way are none or cancel |
| CalendarRounding.MovedAlongPath | src/duckdb/extension/icu/icu-dateadd.cpp:98-130 | hours, minutes and seconds, in however many steps, round like one step of all of them; only the milliseconds below a second are rounded by themselves |
| CalendarRounding.RoundingMovesTimestamps | src/duckdb/extension/icu/icu-dateadd.cpp:93-96 | beyond 2 to the 53rd milliseconds adding nothing moves a timestamp |
| TimeBucket.WidthConvertibleToMicrosCommon | src/duckdb/extension/icu/icu-timebucket.cpp:63-77 | the bucket or the failure, for every width, timestamp and origin |
| TimeBucket.BucketIsUnique | src/duckdb/extension/icu/icu-timebucket.cpp:70-74 | at most one bucket start lies within a width before a timestamp and a whole number of widths from the origin |
| TimeBucket.DistanceIsBucket | src/duckdb/extension/icu/icu-timebucket.cpp:70-74 | truncating division with its correction finds that bucket, before and after the origin |
| TimeBucket.BucketIsExact | src/duckdb/extension/icu/icu-timebucket.cpp:63-77 | the result is the bucket exactly when the distances fit 64 bits, and a failure otherwise |
| TimeBucket.TimeBucketIsBucket | src/duckdb/extension/icu/icu-timebucket.cpp:159-167 | time_bucket gives the bucket counted from the default origin |
| TimeBucket.TimeBucketOffset | src/duckdb/extension/icu/icu-timebucket.cpp:205-216 | the offset form: moved back, bucketed, moved forth |
| TimeBucket.OffsetShiftsOrigin | src/duckdb/extension/icu/icu-timebucket.cpp:205-216 | the offset form equals the origin form with the origin shifted by the offset |
| TimeBucket.OriginIsFirstMonday | src/duckdb/extension/icu/icu-timebucket.cpp:19-24 | the default origin is the beginning of 2000-01-03, counted in days of the calendar from 1970, and a Monday |
| TimeBucket.WeeksBeginOnMondays | src/duckdb/extension/icu/icu-timebucket.cpp:159-167 | buckets of seven days begin when Mondays begin |
| TimeBucket.InfinityStaysInPlace | src/duckdb/extension/icu/icu-timebucket.cpp:159-216 | infinite timestamps are their own buckets, in all three forms |
| Ranges.ListLength | src/duckdb/extension/icu/icu-list-range.cpp:79-123 | the counting pass returns the length of the row's list, or fails exactly when there is none or it is too long |
| Ranges.NextElement | src/duckdb/extension/icu/icu-list-range.cpp:168-174 | each value of a list is its predecessor with the step added |
| Ranges.FillRow | src/duckdb/extension/icu/icu-list-range.cpp:165-174 | the filling pass writes exactly the list that was counted |
| Ranges.ListRange | src/duckdb/extension/icu/icu-list-range.cpp:126-181 | it succeeds if and only if every row has a list; the entries lie one after the other and the child vector is the lists joined |
| Ranges.JoinedLength | src/duckdb/extension/icu/icu-list-range.cpp:147-162 | the reserved size is the size of the joined lists |
| RangeBounds.UpwardStops | src/duckdb/extension/icu/icu-list-range.cpp:104-116 | for a positive step: every value is at most the end, or below it when exclusive; the list is empty if and only if the start is beyond; and a further step would be |
| RangeBounds.DownwardStops | src/duckdb/extension/icu/icu-list-range.cpp:104-116 | the mirror image for negative steps |
| RangeBounds.MicrosExactly | src/duckdb/extension/icu/icu-list-range.cpp:79-123 | for steps of microseconds: the closed form of every value and of the length, inclusive and exclusive, upward and downward |
| RangeBounds.ListExactly | src/duckdb/extension/icu/icu-list-range.cpp:79-123 | for every row: the empty list, no list, or the values from its start, by plain conditions on its bounds, its step and their number |
| RangeBounds.TableRefusesExactly | src/duckdb/extension/icu/icu-table-range.cpp:94-150 | the table form refuses infinite bounds, and steps that are zero or of mixed signs, and nothing else |
| RangeBounds.SeriesHasItsEnd | src/duckdb/extension/icu/icu-list-range.cpp:104-116 | generate_series from 0 to 1 by one microsecond has both values, and range only the first |
| TableRange.RangeState.FillBatch | src/duckdb/extension/icu/icu-table-range.cpp:209-220 | a batch is the next values of the row, at most a vector full, and makes progress unless the row is finished |
| TableRange.RangeState.Next | src/duckdb/extension/icu/icu-table-range.cpp:184-230 | a request returns the next part of what remains, reports the end exactly when nothing remains, and makes progress |
| TableRange.RangeState.All | src/duckdb/extension/icu/icu-table-range.cpp:184-230 | all batches joined are what remained, for every vector size |
| TableRange.OneRowIsItsList | src/duckdb/extension/icu/icu-table-range.cpp:184-230 | for one row the batches joined are the list the list form builds |
| TableRange.TableStopsAtReversed | src/duckdb/extension/icu/icu-table-range.cpp:143-150 | over many rows the table gives the lists of the rows before the first reversed one and nothing after it |
| TableRange.TableIsLists | src/duckdb/extension/icu/icu-table-range.cpp:202-208 | the table gives all the lists if and only if no row after the first reversed one has values |
| TableRange.TableLosesRows | src/duckdb/extension/icu/icu-table-range.cpp:143-150 | a reversed row followed by a row with one value: the list form has the value, the table form nothing |
| Utf16.FindInvalid | src/odbc_driver/widechar/widechar_utf16.hpp:6-24 | the longest well-formed prefix; the end is returned if and only if the text is well formed or its only fault is a lone final low surrogate |
| Utf16.WellFormedExactly | src/odbc_driver/widechar/widechar_utf16.hpp:6-24 | the well-formed texts are exactly the encodings of sequences of scalar values (section 2.1 of RFC 2781), each of one sequence |
| Utf16.ReplaceInvalid | src/odbc_driver/widechar/widechar_utf16.hpp:26-53 | the loop computes the replacement |
| Utf16.ReplacedUnitwise | src/odbc_driver/widechar/widechar_utf16.hpp:26-53 | one unit is written for every unit read, each either kept or the replacement |
| Utf16.ReplacedExactly | src/odbc_driver/widechar/widechar_utf16.hpp:26-53 | which units are replaced: leads are taken in twos, so of every other lead the next unit decides, the others are kept whatever follows, and a trail is kept exactly after an odd number of leads |
| Utf16.ReplacedIsIdentity | src/odbc_driver/widechar/widechar_utf16.hpp:26-53 | nothing changes if and only if the text is well formed, for a replacement that is no surrogate |
| Utf16.ReplacedWellFormed | src/odbc_driver/widechar/widechar_utf16.hpp:26-53 | the output is well formed if and only if the input has no two adjacent high surrogates |
| Utf16.Lenient | src/odbc_driver/widechar/widechar.cpp:19-43 | what is handed to the UTF-8 encoder, when it is well formed, and the reported position: the first invalid unit, or none |
| Utf16.RepairIsIncomplete | src/odbc_driver/widechar/widechar_utf16.hpp:32-41 | a text whose replacement is not well formed |

## Left out

- JsonPath.ValidatePath: when the pointer has moved past the end of the path the model stops with `OutOfBounds`; what the code does from there is not modelled.
- GetData.GetVariableValue: the buffer length is not negative; a driver manager refuses negative lengths. The bytes found beyond a value are not modelled.
- GetDataRuns.RunIsRightExactly: SQLGetData calls with a target buffer and one of the three C types of variable length; the others leave the saved offset alone. A run ends with a read beside the rows, after which nothing is known.
- Diagnostics.RecordsAreTiled: record numbers up to 32767, the largest of their type; messages of at most 32767 bytes and buffers of 1 to 32767; beyond that the 16-bit lengths wrap and the continuation is decided by the wrapped number.
- Diagnostics.OdbcDiagnostic.GetDiagRecInternal: the narrow call with a valid handle; handle checks, the SQLSTATE and native code outputs, and the wide call are not modelled.
- FetchScrollRuns.ScrollsFromExecution: rowset size one, and a query that does not fail while its result is read.
- Fetch.OdbcFetch.ColumnWise: the status of a row lands at its place in the chunk, also for rowset size one; row-wise binding visits the same rows.
- Parameters.Statement.BatchExecuteStmt: the set index is below the array size, as the code asserts; diagnostic records are not modelled.
- ParameterRuns.BatchExecutesEverySet: at least one bound parameter; `NoParametersRunOnce` has the other case.
- DataAtExecution.ParameterDescriptor.PutData: an array of one set; the status array is not modelled, and neither are indicators that carry an announced length. The buffer is a sequence of the bytes written so far, and nothing is said about it after an overread.
- DataAtExecution.ParameterDescriptor.FillParamCharDataBuffer: what is stored by an overread.
- CalendarAdd.AddsExactly: timestamps whose milliseconds stay within 2 to the 53rd, for any rounding; `CalendarRounding.AddsExactlyIf` has the exact condition for doubles.
- CalendarRounding.AddsExactlyIf: intervals of microseconds; sums outside the range of timestamps fail (`CalendarAdd.Add`).
- TimeBucket.OffsetShiftsOrigin: within the same bound, and for an offset that can be negated in 64 bits.
- TableRange.TableIsLists: finite bounds and steps in one direction, which the table form demands, and lists below 2 to the 32nd elements.
- Ranges.ListRange: the child vector is a sequence that grows instead of a reserved buffer; constant arguments are treated like one value per row.
- ListLambda.ListTransform: the flag of a constant result vector, and lambdas that are not functions of their input.
- SQL_FETCH_ABSOLUTE: its offsets are relative to whichever chunk is current.
- Materialize, row counts and SQL_RD_OFF: not needed for what the cursor delivers.
- Parameter arrays filled by SQLPutData: their buffer depends on a pool shared by all parameters.
- Time buckets of days and months, time zones, and calendars themselves: library code.
- The JSON parser, UTF-8 conversion, vectors and the engine: library code.
- Reading DSN files and the registry, opening the database, driver-manager entry points: input and output.
- Interval structures, descriptor fields, type and information tables: switches without state.
