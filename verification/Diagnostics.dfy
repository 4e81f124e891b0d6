/**
  Diagnostic records.  SQLGetDiagRec reads records by number; a message that does not fit the buffer
  is continued under the next record number, for which a further entry of the record index is made.
*/
module Diagnostics {
  import opened Common

  datatype Return = Success | SuccessWithInfo | NoData

  /** SQLSMALLINT */
  type SmallInt = n: int | -0x8000 <= n <= 0x7FFF

  /** The value of an integer stored in a SQLSMALLINT. */
  function ToSmallInt(n: int): SmallInt {
    (n + 0x8000) % 0x1_0000 - 0x8000
  }

  const SMALLINT_MAX := 0x7FFF

  /** A record and the stack of offsets at which the reading of its message continues. */
  datatype DiagRecord = DiagRecord(message: string, offsets: seq<nat>) {

    predicate Valid() {
      message != "" && offsets != [] && offsets[0] == 0 && forall i :: 0 <= i < |offsets| ==> offsets[i] < |message|
    }

    function Top(): nat
      requires offsets != []
    {
      offsets[|offsets| - 1]
    }

    /** The offsets popped down to the start of the message. */
    function Cleared(): (r: DiagRecord)
      requires Valid()
      ensures r.Valid() && r.message == message && r.Top() == 0
      decreases |offsets|
    {
      if Top() == 0 then this
      else
        assert offsets[..|offsets| - 1][0] == offsets[0];
        this.(offsets := offsets[..|offsets| - 1]).Cleared()
    }

    /** Once `length` bytes more have been handed out. */
    function Advanced(length: nat): (r: DiagRecord)
      requires Valid()
      ensures r.Valid() && r.message == message
      ensures r.Top() == if Top() + length < |message| then Top() + length else 0
    {
      if Top() + length >= |message| then Cleared() else this.(offsets := offsets + [Top() + length])
    }
  }

  /** The records of a handle, and for every record number the record it refers to. */
  datatype Diagnostic = Diagnostic(records: seq<DiagRecord>, index: seq<int>) {

    /** The index is non-decreasing and runs over exactly the records. */
    ghost predicate Valid() {
      && |records| <= SMALLINT_MAX + 1
      && (forall r :: 0 <= r < |records| ==> records[r].Valid())
      && (forall i :: 0 <= i < |index| ==> 0 <= index[i] < |records|)
      && (forall i, j :: 0 <= i < j < |index| ==> index[i] <= index[j])
      && (forall r :: 0 <= r < |records| ==> r in index)
    }

    function Messages(): (r: seq<string>)
      ensures |r| == |records|
    {
      seq(|records|, i requires 0 <= i < |records| => records[i].message)
    }

    function Added(record: DiagRecord): Diagnostic {
      Diagnostic(records + [record], index + [ToSmallInt(|records|)])
    }

    function Restarted(): Diagnostic
      requires forall r :: 0 <= r < |records| ==> records[r].Valid()
    {
      Diagnostic(seq(|records|, i requires 0 <= i < |records| => records[i].Cleared()), Identity(|records|))
    }

    function WithNewIdx(recIdx: nat): Diagnostic
      requires recIdx < |index|
    {
      this.(index := index[..recIdx + 1] + [index[recIdx]] + index[recIdx + 1..])
    }
  }

  function Identity(n: nat): seq<int> {
    seq(n, i => i)
  }

  /** A part of a message offered to the client: the record, and where in its message the part starts. */
  datatype Window = Window(record: nat, offset: nat)

  /** What one call of SQLGetDiagRec leaves with the client. */
  datatype Reply = Reply(ret: Return, window: Option<Window>, text: string, textLength: Option<int>)

  /** The bytes of `s` that are copied to a buffer, whose last byte is kept for the terminator. */
  function Copied(s: string, bufferLength: nat): string {
    if bufferLength == 0 || |s| <= bufferLength - 1 then s else s[..bufferLength - 1]
  }

  function Complaint(s: string, bufferLength: nat, hasText: bool, hasLength: bool): Reply {
    Reply(Success, None, if hasText then Copied(s, bufferLength) else "", if hasLength then Some(|s|) else None)
  }

  function GetDiagRec(d: Diagnostic, recNumber: int, bufferLength: int, hasText: bool,
                      hasLength: bool): (r: (Diagnostic, Reply))
    requires d.Valid()
  {
    if recNumber <= 0 then
      (d, Complaint("Record number is less than 1", (bufferLength % 0x1_0000_0000_0000_0000), hasText, hasLength))
    else if bufferLength < 0 then
      (d, Complaint("Buffer length is negative", (bufferLength % 0x1_0000_0000_0000_0000), hasText, hasLength))
    else if recNumber > |d.index| then (d, Reply(NoData, None, "", None))
    else
      var recIdx := recNumber - 1;
      RestartedValid(d);
      Offer(if recIdx == 0 then d.Restarted() else d, d.index[recIdx], recIdx, bufferLength, hasText, hasLength)
  }

  /** Offer the next part of the message of record `origin`, which was read as number `recIdx`. */
  function Offer(d: Diagnostic, origin: nat, recIdx: nat, bufferLength: nat, hasText: bool,
                 hasLength: bool): (Diagnostic, Reply)
    requires d.Valid() && origin < |d.records| && recIdx < |d.index|
  {
    var record := d.records[origin];
    var message := record.message[record.Top()..];
    var window := Some(Window(origin, record.Top()));
    var d := d.(records := d.records[origin := record.Advanced(bufferLength)]);
    if !hasText then
      (d, Reply(SuccessWithInfo, window, "", if hasLength then Some(if |message| <= SMALLINT_MAX then |message|
          else SMALLINT_MAX) else None))
    else
      var text := Copied(message, bufferLength);
      if !hasLength then (d, Reply(Success, window, text, None))
      else if ToSmallInt(ToSmallInt(|message|) - bufferLength) > 0 then
        (d.WithNewIdx(recIdx), Reply(SuccessWithInfo, window, text, Some(ToSmallInt(|message|))))
      else (d, Reply(Success, window, text, Some(ToSmallInt(|message|))))
  }

  // ----- the invariant of the index --------------------------------------------------------------

  lemma RestartedValid(d: Diagnostic)
    requires d.Valid()
    ensures d.Restarted().Valid() && d.Restarted().Messages() == d.Messages()
  {
    var e := d.Restarted();
    forall r | 0 <= r < |e.records| ensures r in e.index { assert e.index[r] == r; }
  }

  lemma AddedValid(d: Diagnostic, record: DiagRecord)
    requires d.Valid() && record.Valid() && |d.records| <= SMALLINT_MAX
    ensures d.Added(record).Valid() && d.Added(record).Messages() == d.Messages() + [record.message]
  {
    var e := d.Added(record);
    assert e.index[|d.index|] == |d.records|;
    forall r | 0 <= r < |e.records|
      ensures r in e.index
    {
      if r < |d.records| {
        assert r in d.index;
      }
    }
  }

  /** An entry of the index made twice. */
  lemma EntryTwice(index: seq<int>, recIdx: nat, e: seq<int>)
    requires recIdx < |index| && e == index[..recIdx + 1] + [index[recIdx]] + index[recIdx + 1..]
    ensures |e| == |index| + 1
    ensures forall i :: 0 <= i < |e| ==> e[i] == index[if i <= recIdx then i else i - 1]
    ensures forall r :: r in index ==> r in e
  {
    forall r | r in index
      ensures r in e
    {
      var i :| 0 <= i < |index| && index[i] == r;
      assert e[if i <= recIdx then i else i + 1] == r;
    }
  }

  lemma NewIdxValid(d: Diagnostic, recIdx: nat)
    requires d.Valid() && recIdx < |d.index|
    ensures d.WithNewIdx(recIdx).Valid() && d.WithNewIdx(recIdx).records == d.records
  {
    hide DiagRecord.Valid;
    EntryTwice(d.index, recIdx, d.WithNewIdx(recIdx).index);
  }

  lemma AdvancedValid(d: Diagnostic, r: nat, length: nat)
    requires d.Valid() && r < |d.records|
    ensures var e := d.(records := d.records[r := d.records[r].Advanced(length)]);
            e.Valid() && e.Messages() == d.Messages()
  {
  }

  lemma OfferKeepsIndex(d: Diagnostic, origin: nat, recIdx: nat, bufferLength: nat, hasText: bool, hasLength: bool)
    requires d.Valid() && origin < |d.records| && recIdx < |d.index|
    ensures var (e, reply) := Offer(d, origin, recIdx, bufferLength, hasText, hasLength);
            e.Valid() && e.Messages() == d.Messages()
  {
    hide Diagnostic.WithNewIdx;
    AdvancedValid(d, origin, bufferLength);
    NewIdxValid(d.(records := d.records[origin := d.records[origin].Advanced(bufferLength)]), recIdx);
  }

  /** Whatever is read, in whatever order and with whatever arguments, the index stays sorted, in range
      and onto the records, and no message changes. */
  lemma ReadsKeepIndex(d: Diagnostic, recNumber: int, bufferLength: int, hasText: bool, hasLength: bool)
    requires d.Valid()
    ensures GetDiagRec(d, recNumber, bufferLength, hasText, hasLength).0.Valid()
    ensures GetDiagRec(d, recNumber, bufferLength, hasText, hasLength).0.Messages() == d.Messages()
  {
    if recNumber > 0 && bufferLength >= 0 && recNumber <= |d.index| {
      hide Diagnostic.Restarted, Offer;
      RestartedValid(d);
      RestartedIndex(d, recNumber - 1);
      OfferKeepsIndex(if recNumber == 1 then d.Restarted() else d, d.index[recNumber - 1], recNumber - 1,
          bufferLength, hasText, hasLength);
    }
  }

  /** Restarting leaves the record that is first. */
  lemma RestartedIndex(d: Diagnostic, recIdx: nat)
    requires d.Valid() && recIdx < |d.index|
    ensures |d.Restarted().records| == |d.records| && (recIdx == 0 ==> d.index[0] == 0 && |d.Restarted().index| > 0)
  {
    if recIdx == 0 {
      assert 0 <= d.index[0] < |d.records|;
      FirstIsZero(d);
    }
  }

  lemma FirstIsZero(d: Diagnostic)
    requires d.Valid() && d.index != [] && d.records != []
    ensures d.index[0] == 0
  {
    hide Diagnostic.Messages;
    assert d.records[0].Valid();
    assert 0 in d.index;
    var i :| 0 <= i < |d.index| && d.index[i] == 0;
    if i > 0 { assert d.index[0] <= d.index[i]; }
  }

  // ----- one call --------------------------------------------------------------------------------

  /** The record numbers in the state in which number `recNumber` is looked up. */
  function NumbersAt(d: Diagnostic, recNumber: nat): seq<int> {
    if recNumber == 1 then Identity(|d.records|) else d.index
  }

  /** The text copied is the rest of the message, or as much of it as the buffer has room for besides the
      terminator; a length of zero stands for a buffer that is large enough. */
  ghost predicate IsCopied(text: string, rest: string, bufferLength: nat) {
    if bufferLength == 0 || |rest| < bufferLength then text == rest
    else |text| == bufferLength - 1 && text <= rest
  }

  /** Whether a number of 16 bits tells that something is left. */
  predicate TellsMore(rest: nat, bufferLength: nat) {
    0 < (rest - bufferLength) % 0x1_0000 < 0x8000
  }

  lemma SmallIntDifference(rest: nat, bufferLength: SmallInt)
    requires bufferLength >= 0
    ensures ToSmallInt(ToSmallInt(rest) - bufferLength) > 0 <==> TellsMore(rest, bufferLength)
    ensures (rest - ToSmallInt(rest)) % 0x1_0000 == 0
  {
  }

  lemma CopiedExactly(rest: string, bufferLength: nat)
    ensures IsCopied(Copied(rest, bufferLength), rest, bufferLength)
  {
  }

  lemma OfferedReply(d: Diagnostic, origin: nat, recIdx: nat, bufferLength: SmallInt, hasText: bool, hasLength: bool)
    requires d.Valid() && origin < |d.records| && recIdx < |d.index| && bufferLength >= 0
    ensures d.records[origin].offsets != [] && d.records[origin].Top() < |d.records[origin].message|
    ensures var (offset, message) := (d.records[origin].Top(), d.records[origin].message);
            var rest := |message| - offset;
            var (_, reply) := Offer(d, origin, recIdx, bufferLength, hasText, hasLength);
            && reply.window == Some(Window(origin, offset))
            && (if hasText then IsCopied(reply.text, message[offset..], bufferLength) else reply.text == "")
            && (reply.textLength.Some? <==> hasLength)
            && (hasLength && !hasText ==> reply.textLength.value == if rest < 0x8000 then rest else 0x7FFF)
            && (hasLength && hasText ==>
                  -0x8000 <= reply.textLength.value < 0x8000 && (rest - reply.textLength.value) % 0x1_0000 == 0)
            && (reply.ret == SuccessWithInfo <==> !hasText || (hasLength && TellsMore(rest, bufferLength)))
            && (reply.ret == Success <==> hasText && (hasLength ==> !TellsMore(rest, bufferLength)))
  {
    hide ToSmallInt, TellsMore, Copied, IsCopied, Diagnostic.WithNewIdx, DiagRecord.Advanced;
    var rest := d.records[origin].message[d.records[origin].Top()..];
    SmallIntDifference(|rest|, bufferLength);
    CopiedExactly(rest, bufferLength);
  }

  /** What a call leaves with the client, whichever pointers it gives and however long the message is. */
  lemma OfferedExactly(d: Diagnostic, recNumber: int, bufferLength: SmallInt, hasText: bool, hasLength: bool)
    requires d.Valid() && 0 < recNumber <= |d.index| && bufferLength >= 0
    ensures var origin := d.index[recNumber - 1];
            var offset := if recNumber == 1 then 0 else d.records[origin].Top();
            var rest := |d.records[origin].message| - offset;
            var (_, reply) := GetDiagRec(d, recNumber, bufferLength, hasText, hasLength);
            && rest > 0 && reply.window == Some(Window(origin, offset))
            && (if hasText then IsCopied(reply.text, d.records[origin].message[offset..], bufferLength)
                else reply.text == "")
            && (reply.textLength.Some? <==> hasLength)
            && (hasLength && !hasText ==> reply.textLength.value == if rest < 0x8000 then rest else 0x7FFF)
            && (hasLength && hasText ==>
                  && -0x8000 <= reply.textLength.value < 0x8000
                  && (rest - reply.textLength.value) % 0x1_0000 == 0)
            && (reply.ret == SuccessWithInfo <==> !hasText || (hasLength && TellsMore(rest, bufferLength)))
            && (reply.ret == Success <==> hasText && (hasLength ==> !TellsMore(rest, bufferLength)))
  {
    hide ToSmallInt, TellsMore, IsCopied, Offer, Diagnostic.Restarted;
    RestartedValid(d);
    AtNumberOne(d, recNumber);
    OfferedReply(if recNumber == 1 then d.Restarted() else d, d.index[recNumber - 1], recNumber - 1, bufferLength,
        hasText, hasLength);
  }

  lemma OfferedState(d: Diagnostic, origin: nat, recIdx: nat, bufferLength: SmallInt, hasText: bool, hasLength: bool)
    requires d.Valid() && origin < |d.records| && recIdx < |d.index| && bufferLength >= 0
    ensures d.records[origin].offsets != [] && d.records[origin].Top() < |d.records[origin].message|
    ensures var (offset, size) := (d.records[origin].Top(), |d.records[origin].message|);
            var (e, _) := Offer(d, origin, recIdx, bufferLength, hasText, hasLength);
            && |e.records| == |d.records| && e.records[origin].offsets != []
            && e.records[origin].Top() == (if offset + bufferLength < size then offset + bufferLength else 0)
            && e.index == if hasText && hasLength && TellsMore(size - offset, bufferLength) then
                            d.index[..recIdx + 1] + [d.index[recIdx]] + d.index[recIdx + 1..]
                          else d.index
  {
    hide ToSmallInt, TellsMore, Copied;
    SmallIntDifference(|d.records[origin].message[d.records[origin].Top()..]|, bufferLength);
  }

  /** The state a call leaves: the message goes on after as many bytes as the buffer has, or from its start,
      and only a call with both pointers makes a further number for it. */
  lemma LeftExactly(d: Diagnostic, recNumber: int, bufferLength: SmallInt, hasText: bool, hasLength: bool)
    requires d.Valid() && 0 < recNumber <= |d.index| && bufferLength >= 0
    ensures var origin, numbers := d.index[recNumber - 1], NumbersAt(d, recNumber);
            var offset := if recNumber == 1 then 0 else d.records[origin].Top();
            var size := |d.records[origin].message|;
            var (e, _) := GetDiagRec(d, recNumber, bufferLength, hasText, hasLength);
            && |e.records| == |d.records| && |numbers| >= recNumber
            && e.records[origin].offsets != []
            && e.records[origin].Top() == (if offset + bufferLength < size then offset + bufferLength else 0)
            && e.index == if hasText && hasLength && TellsMore(size - offset, bufferLength) then
                            numbers[..recNumber] + [origin] + numbers[recNumber..]
                          else numbers
  {
    hide ToSmallInt, TellsMore, Offer, Diagnostic.Restarted;
    RestartedValid(d);
    AtNumberOne(d, recNumber);
    OfferedState(if recNumber == 1 then d.Restarted() else d, d.index[recNumber - 1], recNumber - 1, bufferLength,
        hasText, hasLength);
  }

  /** Looking up the first record starts afresh, and the first number is that of the first record. */
  lemma AtNumberOne(d: Diagnostic, recNumber: int)
    requires d.Valid() && 0 < recNumber <= |d.index|
    ensures recNumber == 1 ==>
              && d.index[0] == 0 && |d.records| > 0
              && d.Restarted().index == Identity(|d.records|)
              && |d.Restarted().records| == |d.records|
              && d.Restarted().records[0].Top() == 0
              && d.Restarted().records[0].message == d.records[0].message
  {
    if recNumber == 1 {
      assert 0 <= d.index[0] < |d.records|;
      FirstIsZero(d);
    }
  }

  /** A call with a bad record number or a bad length returns SQL_SUCCESS with a complaint for a message, one
      beyond the record numbers returns no data; neither changes the records. */
  lemma RefusedExactly(d: Diagnostic, recNumber: int, bufferLength: SmallInt, hasText: bool, hasLength: bool)
    requires d.Valid() && (recNumber <= 0 || bufferLength < 0 || recNumber > |d.index|)
    ensures var (e, reply) := GetDiagRec(d, recNumber, bufferLength, hasText, hasLength);
            && e == d && reply.window == None
            && if recNumber > 0 && bufferLength >= 0 then reply == Reply(NoData, None, "", None)
               else
                 var complaint :=
                   if recNumber <= 0 then "Record number is less than 1" else "Buffer length is negative";
                 && reply.ret == Success
                 && reply.textLength == (if hasLength then Some(|complaint|) else None)
                 && if hasText then IsCopied(reply.text, complaint, if bufferLength < 0 then 0 else bufferLength)
                    else reply.text == ""
  {
  }

  /** A call with both pointers tells that the message goes on just when it does, exactly if nothing is left
      or the number of 16 bits can tell what is. */
  lemma TruncationIsToldExactly(d: Diagnostic, recNumber: int, bufferLength: SmallInt)
    requires d.Valid() && 0 < recNumber <= |d.index| && bufferLength >= 0
    ensures var origin := d.index[recNumber - 1];
            var rest := |d.records[origin].message| - if recNumber == 1 then 0 else d.records[origin].Top();
            var told := GetDiagRec(d, recNumber, bufferLength, true, true).1.ret == SuccessWithInfo;
            (told <==> rest > bufferLength) <==> rest <= bufferLength || TellsMore(rest, bufferLength)
  {
    hide GetDiagRec, TellsMore;
    OfferedExactly(d, recNumber, bufferLength, true, true);
    NothingToTell(|d.records[d.index[recNumber - 1]].message|, bufferLength);
    NothingToTell(|d.records[d.index[recNumber - 1]].message| - d.records[d.index[recNumber - 1]].Top(), bufferLength);
  }

  lemma NothingToTell(rest: nat, bufferLength: SmallInt)
    requires bufferLength >= 0
    ensures rest <= bufferLength ==> !TellsMore(rest, bufferLength)
  {
  }

  /** A message of 40000 bytes, of which one byte is asked for: the call returns SQL_SUCCESS. */
  lemma LongMessageIsCutSilently(message: string)
    requires |message| == 40000
    ensures var d := Diagnostic([DiagRecord(message, [0])], [0]);
            d.Valid() && GetDiagRec(d, 1, 1, true, true).1.ret == Success
  {
    var d := Diagnostic([DiagRecord(message, [0])], [0]);
    assert d.Valid() by { assert d.index[0] == 0; }
    hide GetDiagRec;
    OfferedExactly(d, 1, 1, true, true);
  }

  // ----- reading the records in turn -------------------------------------------------------------

  /** Reading records 1, 2, 3, ... from record number `recNumber` on, with buffers of these lengths and
      with both output pointers given.  A record number is a signed number of 16 bits. */
  function ReadAll(d: Diagnostic, recNumber: nat, buffers: seq<nat>): seq<Reply>
    requires d.Valid() && recNumber + |buffers| <= SMALLINT_MAX + 1
    decreases |buffers|
  {
    if buffers == [] then []
    else
      ReadsKeepIndex(d, recNumber, buffers[0], true, true);
      var (e, reply) := GetDiagRec(d, recNumber, buffers[0], true, true);
      [reply] + ReadAll(e, recNumber + 1, buffers[1..])
  }

  /** The parts in which messages are to be offered, from `offset` in message `k` on: consecutive parts
      of the buffers' lengths until the message is covered, then the next message from its start. */
  function Tiling(messages: seq<string>, k: nat, offset: nat, buffers: seq<nat>): seq<Reply>
    requires k <= |messages| && (k < |messages| ==> offset <= |messages[k]|)
    decreases |buffers|
  {
    if buffers == [] then []
    else if k == |messages| then [Reply(NoData, None, "", None)] + Tiling(messages, k, offset, buffers[1..])
    else
      var (l, next) := After(messages, k, offset, buffers[0]);
      [Part(messages, k, offset, buffers[0])] + Tiling(messages, l, next, buffers[1..])
  }

  /** The message, and the offset in it, at which the part after this one starts. */
  function After(messages: seq<string>, k: nat, offset: nat, b: nat): (r: (nat, nat))
    requires k < |messages| && offset <= |messages[k]|
    ensures r.0 <= |messages| && (if r.0 < |messages| then r.1 <= |messages[r.0]| else r.1 == 0)
  {
    if offset + b < |messages[k]| then (k, offset + b) else (k + 1, 0)
  }

  /** The reply that offers the part of message `k` that starts at `offset`. */
  function Part(messages: seq<string>, k: nat, offset: nat, b: nat): Reply
    requires k < |messages| && offset <= |messages[k]|
  {
    var message := messages[k];
    Reply(if offset + b < |message| then SuccessWithInfo else Success, Some(Window(k, offset)),
          Copied(message[offset..], b), Some(|message| - offset))
  }

  /** `n` record numbers have been read, and the next one continues message `k` at `offset`. */
  ghost predicate Continues(d: Diagnostic, n: nat, k: nat, offset: nat) {
    && d.Valid() && k <= |d.records| && |d.index| == n + (|d.records| - k)
    && (forall i :: n <= i < |d.index| ==> d.index[i] == k + (i - n))
    && (forall r :: k < r < |d.records| ==> d.records[r].Top() == 0)
    && (if k < |d.records| then d.records[k].Top() == offset else offset == 0)
  }

  /** Messages whose length a SQLSMALLINT can hold. */
  ghost predicate Short(messages: seq<string>) {
    forall m :: 0 <= m < |messages| ==> |messages[m]| <= SMALLINT_MAX
  }

  lemma RestartContinues(d: Diagnostic)
    requires d.Valid()
    ensures Continues(d.Restarted(), 0, 0, 0)
  {
    RestartedValid(d);
  }

  /** The state in which record number `n + 1` is looked up. */
  ghost function AtNumber(d: Diagnostic, n: nat): Diagnostic
    requires d.Valid()
  {
    if n == 0 then d.Restarted() else d
  }

  lemma OfferContinues(d: Diagnostic, n: nat, k: nat, offset: nat, b: nat)
    requires Continues(d, n, k, offset) && k < |d.records| && 0 < b <= SMALLINT_MAX && Short(d.Messages())
    ensures var (e, reply) := Offer(d, k, n, b, true, true);
            var message := d.Messages()[k];
            && offset <= |message|
            && reply == Part(d.Messages(), k, offset, b)
            && Continues(e, n + 1, After(d.Messages(), k, offset, b).0, After(d.Messages(), k, offset, b).1)
  {
    OfferKeepsIndex(d, k, n, b, true, true);
    assert d.index[n] == k;
    assert |d.Messages()[k]| <= SMALLINT_MAX;
  }

  /** One read in turn: it offers the next part of the message that is being read. */
  lemma ReadContinues(d: Diagnostic, n: nat, k: nat, offset: nat, b: nat)
    requires d.Valid() && Continues(AtNumber(d, n), n, k, offset) && k < |d.records|
    requires 0 < b <= SMALLINT_MAX && Short(d.Messages())
    ensures var (e, reply) := GetDiagRec(d, n + 1, b, true, true);
            var message := d.Messages()[k];
            && e.Valid() && e.Messages() == d.Messages() && |e.records| == |d.records| && offset <= |message|
            && reply == Part(d.Messages(), k, offset, b)
            && Continues(e, n + 1, After(d.Messages(), k, offset, b).0, After(d.Messages(), k, offset, b).1)
  {
    ReadsKeepIndex(d, n + 1, b, true, true);
    RestartedValid(d);
    if n == 0 {
      assert 0 in d.index;
      RestartedIndex(d, 0);
      assert d.Restarted().index[0] == k;
    }
    hide Offer, Diagnostic.Restarted, Copied;
    OfferContinues(AtNumber(d, n), n, k, offset, b);
    assert AtNumber(d, n).Messages()[k] == AtNumber(d, n).records[k].message;
  }

  lemma {:induction false} ReadPastEnd(d: Diagnostic, n: nat, buffers: seq<nat>)
    requires d.Valid() && n >= |d.index| && n + |buffers| <= SMALLINT_MAX
    ensures ReadAll(d, n + 1, buffers) == Tiling(d.Messages(), |d.records|, 0, buffers)
    decreases |buffers|
  {
    if buffers != [] {
      ReadPastEnd(d, n + 1, buffers[1..]);
    }
  }

  /** Reading on from record number `n + 1` offers the rest of the messages, without a gap. */
  lemma {:induction false} ReadsTile(d: Diagnostic, n: nat, k: nat, offset: nat, buffers: seq<nat>)
    requires d.Valid() && Continues(AtNumber(d, n), n, k, offset) && k <= |d.records| && Short(d.Messages())
    requires n + |buffers| <= SMALLINT_MAX && forall i :: 0 <= i < |buffers| ==> 0 < buffers[i] <= SMALLINT_MAX
    ensures k < |d.records| ==> offset <= |d.Messages()[k]|
    ensures ReadAll(d, n + 1, buffers) == Tiling(d.Messages(), k, offset, buffers)
    decreases |buffers|
  {
    hide GetDiagRec, Diagnostic.Restarted, Diagnostic.Valid, Diagnostic.Messages, Part, ReadAll, Tiling, After;
    ContinuesInside(d, n, k, offset);
    RestartedValid(d);
    RestartedIndexLength(d);
    if k == |d.records| {
      ReadPastEnd(d, n, buffers);
    } else if buffers != [] {
      var b := buffers[0];
      ReadContinues(d, n, k, offset, b);
      var e := GetDiagRec(d, n + 1, b, true, true).0;
      var (l, next) := After(d.Messages(), k, offset, b);
      ReadsTile(e, n + 1, l, next, buffers[1..]);
      ReadAllStep(d, n + 1, buffers);
      TilingStep(d.Messages(), k, offset, buffers);
    } else {
      NothingRead(d, n + 1, k, offset);
    }
  }

  lemma NothingRead(d: Diagnostic, recNumber: nat, k: nat, offset: nat)
    requires d.Valid() && k <= |d.records| && (k < |d.records| ==> offset <= |d.Messages()[k]|)
    requires recNumber <= SMALLINT_MAX + 1
    ensures ReadAll(d, recNumber, []) == Tiling(d.Messages(), k, offset, []) == []
  {
  }

  lemma ReadAllStep(d: Diagnostic, recNumber: nat, buffers: seq<nat>)
    requires d.Valid() && buffers != [] && recNumber + |buffers| <= SMALLINT_MAX + 1
    ensures var (e, reply) := GetDiagRec(d, recNumber, buffers[0], true, true);
            e.Valid() && ReadAll(d, recNumber, buffers) == [reply] + ReadAll(e, recNumber + 1, buffers[1..])
  {
    hide GetDiagRec;
    ReadsKeepIndex(d, recNumber, buffers[0], true, true);
  }

  lemma TilingStep(messages: seq<string>, k: nat, offset: nat, buffers: seq<nat>)
    requires k < |messages| && offset <= |messages[k]| && buffers != []
    ensures var (l, next) := After(messages, k, offset, buffers[0]);
            Tiling(messages, k, offset, buffers) ==
            [Part(messages, k, offset, buffers[0])] + Tiling(messages, l, next, buffers[1..])
  {
  }

  lemma ContinuesInside(d: Diagnostic, n: nat, k: nat, offset: nat)
    requires d.Valid() && Continues(AtNumber(d, n), n, k, offset)
    ensures k < |d.records| ==> offset < |d.Messages()[k]|
  {
    RestartedValid(d);
    if k < |d.records| {
      assert AtNumber(d, n).Messages()[k] == AtNumber(d, n).records[k].message;
    }
  }

  lemma RestartedIndexLength(d: Diagnostic)
    requires d.Valid()
    ensures |d.Restarted().index| == |d.Restarted().records| == |d.records|
    ensures d.records == [] ==> d.index == []
  {
    if d.index != [] { assert 0 <= d.index[0] < |d.records|; }
  }

  /** Whatever was read before, reading records 1, 2, 3, ... offers every message from its start, in
      consecutive parts and in the order of the records, and then there is no data. */
  lemma RecordsAreTiled(d: Diagnostic, buffers: seq<nat>)
    requires d.Valid() && Short(d.Messages())
    requires |buffers| <= SMALLINT_MAX && forall i :: 0 <= i < |buffers| ==> 0 < buffers[i] <= SMALLINT_MAX
    ensures ReadAll(d, 1, buffers) == Tiling(d.Messages(), 0, 0, buffers)
  {
    hide *;
    assert d.Valid();
    RestartContinues(d);
    AtFirst(d);
    ReadsTile(d, 0, 0, 0, buffers);
  }

  lemma AtFirst(d: Diagnostic)
    requires d.Valid()
    ensures AtNumber(d, 0) == d.Restarted()
  {
  }

  // ----- what a tiling covers --------------------------------------------------------------------

  /** What is left of the messages from `offset` in message `k` on. */
  function Rest(messages: seq<string>, k: nat, offset: nat): string
    requires k <= |messages| && (k < |messages| ==> offset <= |messages[k]|)
  {
    if k == |messages| then "" else messages[k][offset..] + Flatten(messages[k + 1..])
  }

  /** The part of a message inside a window of the buffer's length. */
  function InWindow(messages: seq<string>, w: Window, b: nat): string {
    if w.record >= |messages| || w.offset > |messages[w.record]| then ""
    else if w.offset + b < |messages[w.record]| then messages[w.record][w.offset..w.offset + b]
    else messages[w.record][w.offset..]
  }

  /** The windows of the replies, joined. */
  function Covered(messages: seq<string>, replies: seq<Reply>, buffers: seq<nat>): string
    requires |replies| == |buffers|
  {
    if replies == [] then ""
    else
      (if replies[0].window.Some? then InWindow(messages, replies[0].window.value, buffers[0]) else "") +
      Covered(messages, replies[1..], buffers[1..])
  }

  lemma {:induction false} NothingIsLeft(messages: seq<string>, buffers: seq<nat>)
    ensures var replies := Tiling(messages, |messages|, 0, buffers);
            |replies| == |buffers| && Covered(messages, replies, buffers) == ""
    decreases |buffers|
  {
    if buffers != [] { NothingIsLeft(messages, buffers[1..]); }
  }

  /** The windows of a tiling, joined, are what was left of the messages, up to where the reading stopped;
      and all of it, once a read has reported that there is no data. */
  lemma {:induction false} TilingCovers(messages: seq<string>, k: nat, offset: nat, buffers: seq<nat>)
    requires k <= |messages| && (if k < |messages| then offset <= |messages[k]| else offset == 0)
    ensures var replies := Tiling(messages, k, offset, buffers);
            && |replies| == |buffers|
            && Covered(messages, replies, buffers) <= Rest(messages, k, offset)
            && (replies != [] && replies[|replies| - 1].ret == NoData ==>
                  Covered(messages, replies, buffers) == Rest(messages, k, offset))
    decreases |buffers|
  {
    if k == |messages| {
      NothingIsLeft(messages, buffers);
    } else if buffers != [] {
      hide Part, After, InWindow, Rest, Tiling, Covered, Flatten;
      var (l, next) := After(messages, k, offset, buffers[0]);
      var rest := Tiling(messages, l, next, buffers[1..]);
      TilingCovers(messages, l, next, buffers[1..]);
      TilingStep(messages, k, offset, buffers);
      CoveredStep(messages, k, offset, buffers, rest);
      PrefixGrows(InWindow(messages, Window(k, offset), buffers[0]), Covered(messages, rest, buffers[1..]),
          Rest(messages, l, next));
      PartNotEmpty(messages, k, offset, buffers[0]);
    }
  }

  lemma CoveredStep(messages: seq<string>, k: nat, offset: nat, buffers: seq<nat>, rest: seq<Reply>)
    requires k < |messages| && offset <= |messages[k]| && |rest| + 1 == |buffers|
    ensures Covered(messages, [Part(messages, k, offset, buffers[0])] + rest, buffers) ==
            InWindow(messages, Window(k, offset), buffers[0]) + Covered(messages, rest, buffers[1..])
  {
    var replies := [Part(messages, k, offset, buffers[0])] + rest;
    assert replies[1..] == rest;
  }

  lemma PartNotEmpty(messages: seq<string>, k: nat, offset: nat, b: nat)
    requires k < |messages| && offset <= |messages[k]|
    ensures Part(messages, k, offset, b).ret != NoData
    ensures var (l, next) := After(messages, k, offset, b);
            Rest(messages, k, offset) == InWindow(messages, Window(k, offset), b) + Rest(messages, l, next)
  {
    hide Flatten, Copied;
    var (l, next) := After(messages, k, offset, b);
    if offset + b < |messages[k]| {
      Cut(messages[k], offset, offset + b, Flatten(messages[k + 1..]));
      RestInside(messages, k, offset);
      RestInside(messages, k, offset + b);
      assert InWindow(messages, Window(k, offset), b) == messages[k][offset..offset + b];
    } else {
      RestInside(messages, k, offset);
      FlattenFrom(messages, k + 1);
      assert InWindow(messages, Window(k, offset), b) == messages[k][offset..];
    }
    hide Rest, InWindow;
  }

  lemma RestInside(messages: seq<string>, k: nat, offset: nat)
    requires k < |messages| && offset <= |messages[k]|
    ensures Rest(messages, k, offset) == messages[k][offset..] + Flatten(messages[k + 1..])
  {
  }

  lemma Cut(message: string, i: nat, j: nat, rest: string)
    requires i <= j <= |message|
    ensures message[i..] + rest == message[i..j] + (message[j..] + rest)
  {
    assert message[i..] == message[i..j] + message[j..];
  }

  lemma PrefixGrows(a: string, b: string, c: string)
    requires b <= c
    ensures a + b <= a + c
  {
  }

  lemma FlattenFrom(messages: seq<string>, k: nat)
    requires k <= |messages|
    ensures Flatten(messages[k..]) == Rest(messages, k, 0)
  {
    if k < |messages| {
      assert messages[k..][0] == messages[k] && messages[k..][1..] == messages[k + 1..];
      assert messages[k][0..] == messages[k];
    }
  }

  /** A run of reads that ends with no data has offered the text of all messages. */
  lemma RunOffersEverything(d: Diagnostic, buffers: seq<nat>)
    requires d.Valid() && Short(d.Messages())
    requires |buffers| <= SMALLINT_MAX && forall i :: 0 <= i < |buffers| ==> 0 < buffers[i] <= SMALLINT_MAX
    requires buffers != []
    ensures var replies := ReadAll(d, 1, buffers);
            && |replies| == |buffers|
            && Covered(d.Messages(), replies, buffers) <= Flatten(d.Messages())
            && (replies[|replies| - 1].ret == NoData ==>
                  Covered(d.Messages(), replies, buffers) == Flatten(d.Messages()))
  {
    hide ReadAll, Tiling, Covered, Diagnostic.Valid, Flatten;
    RecordsAreTiled(d, buffers);
    TilingCovers(d.Messages(), 0, 0, buffers);
    FlattenFrom(d.Messages(), 0);
    assert d.Messages()[0..] == d.Messages();
  }

  // ----- the bytes copied ------------------------------------------------------------------------

  /** The text the client has copied, joined. */
  function Texts(replies: seq<Reply>): string {
    if replies == [] then "" else replies[0].text + Texts(replies[1..])
  }

  /** The number of replies that filled their buffer. */
  function FullBuffers(replies: seq<Reply>, buffers: seq<nat>): nat
    requires |replies| == |buffers|
  {
    if replies == [] then 0
    else
      (if replies[0].textLength.Some? && replies[0].textLength.value >= buffers[0] then 1 else 0) +
      FullBuffers(replies[1..], buffers[1..])
  }

  /** The offset moves by the whole buffer but its last byte holds the terminator, so of every window that
      fills its buffer one byte is not copied: the client has the text of the windows just when no
      message, or part of one, was as long as its buffer. */
  lemma {:induction false} LostBytes(messages: seq<string>, k: nat, offset: nat, buffers: seq<nat>)
    requires k <= |messages| && (if k < |messages| then offset <= |messages[k]| else offset == 0)
    requires forall i :: 0 <= i < |buffers| ==> 0 < buffers[i]
    ensures var replies := Tiling(messages, k, offset, buffers);
            && |replies| == |buffers|
            && |Covered(messages, replies, buffers)| == |Texts(replies)| + FullBuffers(replies, buffers)
            && (Texts(replies) == Covered(messages, replies, buffers) <==> FullBuffers(replies, buffers) == 0)
    decreases |buffers|
  {
    if buffers != [] {
      if k == |messages| {
        LostBytes(messages, k, offset, buffers[1..]);
      } else {
        hide Part, After, InWindow, Tiling, Covered, FullBuffers, Texts;
        var (l, next) := After(messages, k, offset, buffers[0]);
        var part, rest := Part(messages, k, offset, buffers[0]), Tiling(messages, l, next, buffers[1..]);
        LostBytes(messages, l, next, buffers[1..]);
        TilingStep(messages, k, offset, buffers);
        CoveredStep(messages, k, offset, buffers, rest);
        LostByte(messages, k, offset, buffers[0]);
        TextsStep(part, rest, buffers);
        SameParts(part.text, InWindow(messages, Window(k, offset), buffers[0]), Texts(rest),
            Covered(messages, rest, buffers[1..]));
      }
    }
  }

  /** No message is as long as the buffer it is read with. */
  ghost predicate FitsBuffers(messages: seq<string>, k: nat, buffers: seq<nat>) {
    forall i :: 0 <= i < |buffers| && k + i < |messages| ==> |messages[k + i]| < buffers[i]
  }

  /** No reply fills its buffer exactly if every message is shorter than the buffer of its number: until
      one is not, every read is of a whole message. */
  lemma {:induction false} FullBuffersExactly(messages: seq<string>, k: nat, buffers: seq<nat>)
    requires k <= |messages|
    ensures |Tiling(messages, k, 0, buffers)| == |buffers|
    ensures FullBuffers(Tiling(messages, k, 0, buffers), buffers) == 0 <==> FitsBuffers(messages, k, buffers)
    decreases |buffers|
  {
    if buffers != [] {
      var rest := buffers[1..];
      if k == |messages| {
        FullBuffersExactly(messages, k, rest);
      } else {
        TilingLength(messages, k, 0, buffers);
        TilingStep(messages, k, 0, buffers);
        FitsStep(messages, k, buffers);
        if |messages[k]| < buffers[0] { FullBuffersExactly(messages, k + 1, rest); }
        hide Part, After, Tiling, FullBuffers, FitsBuffers;
        var (l, next) := After(messages, k, 0, buffers[0]);
        PartLength(messages, k, buffers[0]);
        TextsStep(Part(messages, k, 0, buffers[0]), Tiling(messages, l, next, rest), buffers);
      }
    }
  }

  lemma PartLength(messages: seq<string>, k: nat, b: nat)
    requires k < |messages|
    ensures Part(messages, k, 0, b).textLength == Some(|messages[k]|)
    ensures |messages[k]| < b ==> After(messages, k, 0, b) == (k + 1, 0)
  {
  }

  lemma {:induction false} TilingLength(messages: seq<string>, k: nat, offset: nat, buffers: seq<nat>)
    requires k <= |messages| && (if k < |messages| then offset <= |messages[k]| else offset == 0)
    ensures |Tiling(messages, k, offset, buffers)| == |buffers|
    decreases |buffers|
  {
    hide Part;
    if buffers != [] {
      if k == |messages| {
        TilingLength(messages, k, offset, buffers[1..]);
      } else {
        var (l, next) := After(messages, k, offset, buffers[0]);
        TilingLength(messages, l, next, buffers[1..]);
      }
    }
  }

  lemma FitsStep(messages: seq<string>, k: nat, buffers: seq<nat>)
    requires k < |messages| && buffers != []
    ensures FitsBuffers(messages, k, buffers) <==>
            |messages[k]| < buffers[0] && FitsBuffers(messages, k + 1, buffers[1..])
  {
    var rest := buffers[1..];
    if |messages[k]| < buffers[0] && FitsBuffers(messages, k + 1, rest) {
      forall i | 0 <= i < |buffers| && k + i < |messages| ensures |messages[k + i]| < buffers[i] {
        if i > 0 { assert buffers[i] == rest[i - 1] && messages[k + i] == messages[k + 1 + (i - 1)]; }
      }
    }
    if FitsBuffers(messages, k, buffers) {
      forall i | 0 <= i < |rest| && k + 1 + i < |messages| ensures |messages[k + 1 + i]| < rest[i] {
        assert rest[i] == buffers[i + 1] && messages[k + 1 + i] == messages[k + (i + 1)];
      }
    }
  }

  /** Reading records 1, 2, 3, ...: the client has the text of all the windows, without a byte lost,
      exactly if every message is shorter than the buffer given for its number. */
  lemma TextsAreCompleteExactly(d: Diagnostic, buffers: seq<nat>)
    requires d.Valid() && Short(d.Messages())
    requires |buffers| <= SMALLINT_MAX && forall i :: 0 <= i < |buffers| ==> 0 < buffers[i] <= SMALLINT_MAX
    ensures var replies := ReadAll(d, 1, buffers);
            && |replies| == |buffers|
            && (Texts(replies) == Covered(d.Messages(), replies, buffers) <==> FitsBuffers(d.Messages(), 0, buffers))
  {
    hide ReadAll, Tiling, Covered, Texts, FullBuffers, FitsBuffers, Diagnostic.Valid;
    RecordsAreTiled(d, buffers);
    LostBytes(d.Messages(), 0, 0, buffers);
    FullBuffersExactly(d.Messages(), 0, buffers);
  }

  /** Two bytes read with two buffers of two bytes: the first reply holds one byte, and no reply the other. */
  lemma ByteIsLost()
    ensures var d := Diagnostic([DiagRecord("ab", [0])], [0]);
            && d.Valid()
            && var replies := ReadAll(d, 1, [2, 2]);
               |replies| == 2 && replies[0].text == "a" && replies[1] == Reply(NoData, None, "", None)
  {
    var d := Diagnostic([DiagRecord("ab", [0])], [0]);
    assert d.Valid() by { assert d.index[0] == 0; }
    assert d.Messages() == ["ab"];
    hide ReadAll, Diagnostic.Valid, Diagnostic.Messages;
    RecordsAreTiled(d, [2, 2]);
    TilingStep(["ab"], 0, 0, [2, 2]);
    assert [2, 2][1..] == [2] && [2][1..] == [];
    assert Tiling(["ab"], 1, 0, [2]) == [Reply(NoData, None, "", None)];
    assert "ab"[0..] == "ab" && "ab"[..1] == "a";
  }

  lemma LostByte(messages: seq<string>, k: nat, offset: nat, b: nat)
    requires k < |messages| && offset <= |messages[k]| && 0 < b
    ensures var part, window := Part(messages, k, offset, b), InWindow(messages, Window(k, offset), b);
            part.text == if part.textLength.value >= b then window[..|window| - 1] else window
    ensures Part(messages, k, offset, b).textLength.value >= b ==> InWindow(messages, Window(k, offset), b) != ""
  {
  }

  lemma TextsStep(part: Reply, rest: seq<Reply>, buffers: seq<nat>)
    requires |rest| + 1 == |buffers| && part.textLength.Some?
    ensures Texts([part] + rest) == part.text + Texts(rest)
    ensures FullBuffers([part] + rest, buffers) ==
            (if part.textLength.value >= buffers[0] then 1 else 0) + FullBuffers(rest, buffers[1..])
  {
    assert ([part] + rest)[1..] == rest;
  }

  lemma SameParts(a: string, b: string, c: string, d: string)
    requires |a| <= |b| && |c| <= |d|
    ensures a + c == b + d <==> a == b && c == d
  {
    if a + c == b + d {
      assert |a + c| == |a| + |c|;
      assert a == (a + c)[..|a|] == (b + d)[..|a|] == b;
      assert c == (a + c)[|a|..] == (b + d)[|a|..] == d;
    }
  }

  // ----- the program -----------------------------------------------------------------------------

  class OdbcDiagnostic {
    var records: seq<DiagRecord>
    var recordIdx: seq<int>

    ghost function State(): Diagnostic
      reads this
    {
      Diagnostic(records, recordIdx)
    }

    constructor ()
      ensures State() == Diagnostic([], []) && State().Valid()
    {
      records, recordIdx := [], [];
    }

    method Clean()
      modifies this
      ensures State() == Diagnostic([], [])
    {
      records := [];
      recordIdx := [];
    }

    method AddDiagRecord(record: DiagRecord)
      modifies this
      ensures State() == old(State()).Added(record)
    {
      var recIdx := ToSmallInt(|records|);
      records := records + [record];
      recordIdx := recordIdx + [recIdx];
    }

    method AddNewRecIdx(recIdx: nat)
      requires recIdx < |recordIdx|
      modifies `recordIdx
      ensures State() == old(State()).WithNewIdx(recIdx)
    {
      var originIdx := recordIdx[recIdx];
      recordIdx := recordIdx[..recIdx + 1] + [originIdx] + recordIdx[recIdx + 1..];
    }

    method ClearStackMsgOffset(r: nat)
      requires r < |records| && records[r].Valid()
      modifies `records
      ensures records == old(records)[r := old(records[r]).Cleared()]
    {
      while records[r].offsets != [] && records[r].Top() != 0
        invariant |records| == |old(records)| && records[r].Valid()
        invariant records[r].message == old(records[r].message)
        invariant records == old(records)[r := records[r]]
        invariant records[r].Cleared() == old(records[r]).Cleared()
        decreases |records[r].offsets|
      {
        var offsets := records[r].offsets;
        assert offsets[..|offsets| - 1][0] == offsets[0];
        records := records[r := records[r].(offsets := offsets[..|offsets| - 1])];
      }
    }

    /** The position of the record that `recIdx` refers to; asking for the first one starts afresh. */
    method GetDiagRecord(recIdx: nat) returns (originIdx: int)
      requires State().Valid() && recIdx < |recordIdx|
      modifies this
      ensures State() == if recIdx == 0 then old(State()).Restarted() else old(State())
      ensures originIdx == old(recordIdx[recIdx])
    {
      originIdx := recordIdx[recIdx];
      if recIdx == 0 {
        recordIdx := [];
        for i := 0 to |records|
          invariant |records| == |old(records)| && recordIdx == Identity(i)
          invariant forall r :: 0 <= r < i ==> records[r] == old(records[r]).Cleared()
          invariant forall r :: i <= r < |records| ==> records[r] == old(records[r])
        {
          recordIdx := recordIdx + [i];
          ClearStackMsgOffset(i);
        }
      }
    }

    method GetMessage(r: nat, buffLength: nat) returns (message: string)
      requires r < |records| && records[r].Valid()
      modifies `records
      ensures message == old(records[r].message[records[r].Top()..])
      ensures records == old(records)[r := old(records[r]).Advanced(buffLength)]
    {
      var lastOffset := records[r].Top();
      var newOffset := lastOffset + buffLength;
      message := records[r].message[lastOffset..];
      if newOffset >= |records[r].message| {
        ClearStackMsgOffset(r);
      } else {
        records := records[r := records[r].(offsets := records[r].offsets + [newOffset])];
      }
    }

    method GetDiagRecInternal(recNumber: SmallInt, bufferLength: SmallInt, hasText: bool, hasLength: bool)
      returns (ret: Return, text: string, textLength: Option<int>)
      requires State().Valid()
      modifies this
      ensures var (d, reply) := GetDiagRec(old(State()), recNumber, bufferLength, hasText, hasLength);
              State() == d && ret == reply.ret && text == reply.text && textLength == reply.textLength
    {
      hide Diagnostic.Valid, Diagnostic.Restarted, Diagnostic.WithNewIdx, DiagRecord.Advanced, Copied;
      ret, text, textLength := Success, "", None;
      if recNumber <= 0 {
        text, textLength := Write("Record number is less than 1", bufferLength, hasText, hasLength);
        return;
      }
      if bufferLength < 0 {
        text, textLength := Write("Buffer length is negative", bufferLength, hasText, hasLength);
        return;
      }
      if recNumber > |recordIdx| {
        return NoData, "", None;
      }
      var recIdx := recNumber - 1;
      OriginValid(State(), recIdx);
      var originIdx := GetDiagRecord(recIdx);
      var message := GetMessage(originIdx, bufferLength);
      if !hasText {
        if hasLength {
          textLength := Some(if |message| <= SMALLINT_MAX then |message| else SMALLINT_MAX);
        }
        return SuccessWithInfo, "", textLength;
      }
      text, textLength := Write(message, bufferLength, hasText, hasLength);
      if hasLength {
        var remaining := ToSmallInt(ToSmallInt(|message|) - bufferLength);
        if remaining > 0 {
          AddNewRecIdx(recIdx);
          ret := SuccessWithInfo;
        }
      }
    }
  }

  /** Copy a text to the client's buffer and tell its length. */
  method Write(s: string, bufferLength: int, hasText: bool, hasLength: bool) returns (text: string, length: Option<int>)
    ensures text == if hasText then Copied(s, bufferLength % 0x1_0000_0000_0000_0000) else ""
    ensures length == if hasLength then Some(ToSmallInt(|s|)) else None
  {
    text := if hasText then Copied(s, bufferLength % 0x1_0000_0000_0000_0000) else "";
    length := if hasLength then Some(ToSmallInt(|s|)) else None;
  }

  lemma OriginValid(d: Diagnostic, recIdx: nat)
    requires d.Valid() && recIdx < |d.index|
    ensures 0 <= d.index[recIdx] < |d.records| == |d.Restarted().records|
    ensures d.records[d.index[recIdx]].Valid() && d.Restarted().records[d.index[recIdx]].Valid()
    ensures recIdx == 0 ==> |d.Restarted().index| > 0
  {
  }
}
