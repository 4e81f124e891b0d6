/**
  SQLGetData on values of variable length: a value is handed out in parts, and the fetcher remembers
  how much of which cell has been handed out.
*/
module GetData {
  import opened Common
  import opened Fetch

  type Byte = b: int | 0 <= b < 256

  const SIZES := 0x1_0000_0000_0000_0000

  /** A value, whose length is a size. */
  type Bytes = s: seq<Byte> | |s| < SIZES

  /** A length the client gives, which is not negative. */
  type Length = n: int | 0 <= n < 0x8000_0000_0000_0000

  /** The C type a value is read as: SQL_C_CHAR, SQL_C_WCHAR or SQL_C_BINARY.  The value is converted to its
      text, to UTF-16 or to a blob before it is handed out, so its bytes differ from type to type. */
  datatype CType = CharType | WideType | BinaryType {
    /** The size of the terminator. */
    function Unit(): nat {
      match this
      case CharType => 1
      case WideType => 2
      case BinaryType => 0
    }
  }

  /** The buffer of one call. */
  datatype Buffer = Buffer(length: Length, ctype: CType) {
    function Unit(): nat {
      ctype.Unit()
    }

    predicate TooSmall() {
      length < Unit()
    }

    function Capacity(): Length
      requires !TooSmall()
    {
      length - Unit()
    }
  }

  /** What a call does: it returns a part of the value, or it reads `count` bytes that are not all the
      value's. */
  datatype Outcome = Part(ret: Return, bytes: seq<Byte>) | Overrun(ret: Return, count: nat) {
    function Count(): nat {
      if Part? then |bytes| else count
    }
  }

  /** The bytes that remain, in 64-bit arithmetic. */
  function RemainingLength(value: Bytes, offset: Size): Size {
    (|value| - offset) % SIZES
  }

  /** The next part of `value` from `offset` on. */
  function NextPart(value: Bytes, offset: Size, buffer: Buffer): Outcome {
    if value != [] && offset >= |value| then Part(NoData, [])
    else if buffer.TooSmall() then Part(Error, [])
    else
      var remaining, capacity := RemainingLength(value, offset), buffer.Capacity();
      var count := if remaining > capacity then capacity else remaining;
      var ret := if remaining > capacity then SuccessWithInfo else Success;
      if count > 0 && offset + count > |value| then Overrun(ret, count)
      else Part(ret, if count == 0 then [] else value[offset..offset + count])
  }

  /** The branches of NextPart. */
  lemma NextPartCases(value: Bytes, offset: Size, buffer: Buffer)
    ensures var outcome := NextPart(value, offset, buffer);
            if value != [] && offset >= |value| then outcome == Part(NoData, [])
            else if buffer.TooSmall() then outcome == Part(Error, [])
            else
              var remaining, capacity := RemainingLength(value, offset), buffer.Capacity();
              && outcome.ret == (if remaining > capacity then SuccessWithInfo else Success)
              && outcome.Count() == (if remaining > capacity then capacity else remaining)
              && (outcome.Overrun? <==> outcome.Count() > 0 && offset + outcome.Count() > |value|)
              && (outcome.Part? && outcome.bytes != [] ==> outcome.bytes == value[offset..offset + outcome.Count()])
  {
    hide RemainingLength;
  }

  /** The remaining length has wrapped, and memory beyond the value is read, exactly for an empty value
      with a saved offset and a buffer that has room. */
  lemma OverrunExactly(value: Bytes, offset: Size, buffer: Buffer)
    ensures NextPart(value, offset, buffer).Overrun? <==> value == [] && offset > 0 && buffer.length > buffer.Unit()
  {
    if value == [] && offset > 0 {
      assert RemainingLength(value, offset) == SIZES - offset;
    }
  }

  /** One call at any place of a value, in terms of what is left of it and of the room in the buffer: its
      length less one byte for a text, two for UTF-16, none for a blob. */
  lemma PartExactly(value: Bytes, offset: Size, buffer: Buffer)
    requires offset <= |value|
    ensures var left := |value| - offset;
            var room := buffer.length - match buffer.ctype case CharType => 1 case WideType => 2 case BinaryType => 0;
            NextPart(value, offset, buffer) ==
            if left == 0 && offset > 0 then Part(NoData, [])
            else if room < 0 then Part(Error, [])
            else if left <= room then Part(Success, value[offset..])
            else Part(SuccessWithInfo, value[offset..offset + room])
  {
    assert value[offset..offset + (|value| - offset)] == value[offset..];
  }

  /** A size stored in a signed number of 64 bits. */
  function ToSigned(n: Size): int {
    if n < 0x8000_0000_0000_0000 then n else n - SIZES
  }

  predicate FitsSigned(n: int) {
    -0x8000_0000_0000_0000 <= n < 0x8000_0000_0000_0000
  }

  /** The length reported is that of the rest of the value, if a signed number of 64 bits can tell it, and
      is wrong otherwise. */
  lemma LengthExactly(value: Bytes, offset: Size)
    ensures ToSigned(RemainingLength(value, offset)) == |value| - offset <==> FitsSigned(|value| - offset)
  {
  }

  /** What a call stores through the length pointer. */
  function Indicator(value: Bytes, offset: Size, buffer: Buffer): Option<int> {
    var outcome := NextPart(value, offset, buffer);
    if outcome == Part(NoData, []) || outcome == Part(Error, []) then None
    else Some(ToSigned(RemainingLength(value, offset)))
  }

  /** Copy `n` bytes of a value from `offset` on to the beginning of the client's buffer. */
  method Copy(value: seq<Byte>, offset: nat, n: nat, target: array<Byte>)
    requires offset + n <= |value| && n <= target.Length
    modifies target
    ensures target[..n] == value[offset..offset + n] && target[n..] == old(target[n..])
  {
    for i := 0 to n
      invariant target[..i] == value[offset..offset + i]
      invariant target[i..] == old(target[i..])
    {
      target[i] := value[offset + i];
    }
  }

  /** Write a terminator of `unit` bytes. */
  method Terminate(target: array<Byte>, at: nat, unit: nat)
    requires at + unit <= target.Length
    modifies target
    ensures target[..at] == old(target[..at]) && target[at + unit..] == old(target[at + unit..])
    ensures forall k :: at <= k < at + unit ==> target[k] == 0
  {
    for i := 0 to unit
      invariant target[..at] == old(target[..at]) && target[at + i..] == old(target[at + i..])
      invariant forall k :: at <= k < at + i ==> target[k] == 0
    {
      target[at + i] := 0;
    }
  }

  /** The buffer begins with the part, if it is known, and a terminator; the rest is as before. */
  ghost predicate Holds(after: seq<Byte>, before: seq<Byte>, outcome: Outcome, unit: nat) {
    var count := outcome.Count();
    && |after| == |before| && count + unit <= |after|
    && (outcome.Part? ==> after[..count] == outcome.bytes)
    && (forall k :: count <= k < count + unit ==> after[k] == 0)
    && after[count + unit..] == before[count + unit..]
  }

  /** Copy, unless it would go beyond the value, and terminate. */
  method CopyOut(value: seq<Byte>, offset: nat, n: nat, target: array<Byte>, unit: nat, ghost outcome: Outcome)
    requires n + unit <= target.Length && n == outcome.Count()
    requires outcome.Part? && n > 0 ==> offset + n <= |value| && outcome.bytes == value[offset..offset + n]
    modifies target
    ensures Holds(target[..], old(target[..]), outcome, unit)
  {
    if offset + n <= |value| {
      Copy(value, offset, n, target);
      assert target[n + unit..] == target[n..][unit..];
      assert old(target[n + unit..]) == old(target[n..])[unit..];
    }
    ghost var copied := target[..n];
    Terminate(target, n, unit);
    assert target[..][..n] == target[..n] == copied;
    assert target[..][n + unit..] == target[n + unit..] && old(target[..])[n + unit..] == old(target[n + unit..]);
  }

  /** Copy the next part of a value into the client's buffer.  `indicator` is what is stored through
      the length pointer, if anything is stored.  Where the source reads beyond the value, what it finds
      there is not modelled, but the rest of its effect is. */
  method GetVariableValue<R>(fetcher: OdbcFetch<R>, colIdx: int, value: Bytes, target: array?<Byte>, buffer: Buffer,
                             hasIndicator: bool)
    returns (ret: Return, indicator: Option<int>, copied: nat, overrun: bool)
    requires target != null ==> buffer.length <= target.Length
    modifies fetcher`last, target
    ensures var left := |value| - SavedLength(old(fetcher.last), colIdx, fetcher.chunkRow);
            indicator.Some? ==> (indicator.value == left <==> FitsSigned(left))
    ensures var offset := SavedLength(old(fetcher.last), colIdx, fetcher.chunkRow);
            indicator == if hasIndicator then Indicator(value, offset, buffer) else None
    ensures var offset := SavedLength(old(fetcher.last), colIdx, fetcher.chunkRow);
            var outcome := NextPart(value, offset, buffer);
            var remaining := if hasIndicator then Some(ToSigned(RemainingLength(value, offset))) else None;
            (copied == if target == null then 0 else outcome.Count()) &&
            if outcome == Part(NoData, []) || outcome == Part(Error, []) then
              && ret == outcome.ret && indicator == None && !overrun
              && fetcher.last == LastFetched(colIdx, fetcher.chunkRow, offset)
              && (target != null ==> target[..] == old(target[..]))
            else if target == null then
              && ret == (if hasIndicator then Success else Error)
              && indicator == remaining && !overrun
              && fetcher.last == LastFetched(colIdx, fetcher.chunkRow, offset)
            else
              var count := outcome.Count();
              && overrun == outcome.Overrun? && ret == outcome.ret
              && indicator == remaining
              && fetcher.last == LastFetched(colIdx, fetcher.chunkRow, (offset + count) % SIZES)
              && Holds(target[..], old(target[..]), outcome, buffer.Unit())
  {
    hide RemainingLength, ToSigned, FitsSigned, NextPart, Holds;
    LengthExactly(value, SavedLength(fetcher.last, colIdx, fetcher.chunkRow));
    NextPartCases(value, SavedLength(fetcher.last, colIdx, fetcher.chunkRow), buffer);
    fetcher.SetLastFetchedVariableVal(colIdx);
    copied, overrun := 0, false;
    var lastLen := fetcher.last.length;
    if |value| > 0 && lastLen >= |value| {
      return NoData, None, 0, false;
    }
    if buffer.length < buffer.Unit() {
      return Error, None, 0, false;
    }
    var effectiveSize := buffer.length - buffer.Unit();
    var remainingLen := RemainingLength(value, lastLen);
    if target == null {
      if hasIndicator {
        return Success, Some(ToSigned(remainingLen)), 0, false;
      }
      return Error, None, 0, false;
    }
    ret := Success;
    var outLen := remainingLen;
    if outLen > effectiveSize {
      outLen := effectiveSize;
      ret := SuccessWithInfo;
    }
    overrun := outLen > 0 && lastLen + outLen > |value|;
    CopyOut(value, lastLen, outLen, target, buffer.Unit(), NextPart(value, lastLen, buffer));
    copied := outLen;
    indicator := if hasIndicator then Some(ToSigned(remainingLen)) else None;
    fetcher.SetLastFetchedLength((lastLen + outLen) % SIZES);
  }

  // ----- repeated calls on one cell --------------------------------------------------------------

  /** Successive calls on one cell, nothing else being read in between.  Each call hands out the bytes of the
      value in the type it asks for, and all share the saved offset. */
  function Parts(value: CType -> Bytes, offset: Size, buffers: seq<Buffer>): seq<Outcome>
    decreases |buffers|
  {
    if buffers == [] then []
    else
      var outcome := NextPart(value(buffers[0].ctype), offset, buffers[0]);
      [outcome] + Parts(value, (offset + outcome.Count()) % SIZES, buffers[1..])
  }

  ghost function Joined(results: seq<Outcome>): seq<Byte> {
    if results == [] then [] else (if results[0].Part? then results[0].bytes else []) + Joined(results[1..])
  }

  /** Every buffer is of the type and has room for at least one byte besides the terminator. */
  ghost predicate Roomy(buffers: seq<Buffer>, ctype: CType) {
    forall i :: 0 <= i < |buffers| ==> buffers[i].ctype == ctype && buffers[i].length > ctype.Unit()
  }

  /** Truncated parts, then the last part with SQL_SUCCESS, then only SQL_NO_DATA. */
  ghost predicate EndsOnce(results: seq<Outcome>) {
    results != [] ==>
      results[0].Part? &&
      match results[0].ret
      case SuccessWithInfo => results[0].bytes != [] && EndsOnce(results[1..])
      case Success => results[0].bytes != [] && AllNoData(results[1..])
      case _ => false
  }

  ghost predicate AllNoData(results: seq<Outcome>) {
    results != [] ==> results[0] == Part(NoData, []) && AllNoData(results[1..])
  }

  ghost predicate HasLastPart(results: seq<Outcome>) {
    results != [] && (results[0].ret == Success || HasLastPart(results[1..]))
  }

  lemma {:induction false} NothingLeft(value: CType -> Bytes, ctype: CType, offset: Size, buffers: seq<Buffer>)
    requires Roomy(buffers, ctype) && value(ctype) != [] && offset >= |value(ctype)|
    ensures AllNoData(Parts(value, offset, buffers)) && Joined(Parts(value, offset, buffers)) == []
    decreases |buffers|
  {
    if buffers != [] {
      assert buffers[0].ctype == ctype;
      NothingLeft(value, ctype, offset, buffers[1..]);
    }
  }

  /** One call in the middle of a value. */
  lemma PartInside(value: Bytes, offset: Size, buffer: Buffer)
    requires offset < |value| && buffer.length > buffer.Unit()
    ensures var rest, capacity := |value| - offset, buffer.Capacity();
            NextPart(value, offset, buffer) ==
            if rest > capacity then Part(SuccessWithInfo, value[offset..offset + capacity])
            else Part(Success, value[offset..])
  {
    assert value[offset..offset + (|value| - offset)] == value[offset..];
  }

  /** The parts put together are what was left of the value, or a prefix of it while no call has returned
      SQL_SUCCESS. */
  ghost predicate Reassembles(results: seq<Outcome>, left: seq<Byte>) {
    EndsOnce(results) && Joined(results) <= left && (HasLastPart(results) <==> Joined(results) == left)
  }

  /** Repeated calls of one type hand out the value in that type completely, after at most as many calls as
      bytes are left. */
  lemma {:induction false} PartsReassemble(value: CType -> Bytes, ctype: CType, offset: Size, buffers: seq<Buffer>)
    requires offset < |value(ctype)| && Roomy(buffers, ctype)
    ensures Reassembles(Parts(value, offset, buffers), value(ctype)[offset..])
    ensures |buffers| >= |value(ctype)| - offset ==> HasLastPart(Parts(value, offset, buffers))
    decreases |buffers|
  {
    hide NextPart, Parts, Reassembles, HasLastPart, Roomy;
    if buffers == [] {
      NoParts(value, ctype, offset, buffers);
    } else {
      var buffer, rest := buffers[0], buffers[1..];
      var bytes := value(ctype);
      RoomyStep(buffers, ctype);
      PartInside(bytes, offset, buffer);
      PartsStep(value, offset, buffers);
      var results := Parts(value, offset, buffers);
      if |bytes| - offset > buffer.Capacity() {
        var next := offset + buffer.Capacity();
        PartsReassemble(value, ctype, next, rest);
        TruncatedPart(bytes, offset, next, Parts(value, next, rest), results);
      } else {
        LastPart(value, ctype, offset, rest, results);
      }
    }
  }

  lemma NoParts(value: CType -> Bytes, ctype: CType, offset: Size, buffers: seq<Buffer>)
    requires offset < |value(ctype)| && buffers == []
    ensures Reassembles(Parts(value, offset, buffers), value(ctype)[offset..])
  {
  }

  lemma RoomyStep(buffers: seq<Buffer>, ctype: CType)
    requires Roomy(buffers, ctype) && buffers != []
    ensures buffers[0].ctype == ctype && buffers[0].length > buffers[0].Unit() && Roomy(buffers[1..], ctype)
  {
  }

  lemma TruncatedPart(value: Bytes, offset: Size, next: Size, rest: seq<Outcome>, results: seq<Outcome>)
    requires offset < next <= |value| && Reassembles(rest, value[next..])
    requires results == [Part(SuccessWithInfo, value[offset..next])] + rest
    ensures Reassembles(results, value[offset..]) && (HasLastPart(results) <==> HasLastPart(rest))
  {
    hide EndsOnce, Joined, HasLastPart, AllNoData;
    OnePart(Part(SuccessWithInfo, value[offset..next]), rest);
    SplitPrefix(value, offset, next, Joined(rest));
  }

  lemma LastPart(value: CType -> Bytes, ctype: CType, offset: Size, rest: seq<Buffer>, results: seq<Outcome>)
    requires offset < |value(ctype)| && Roomy(rest, ctype)
    requires results == [Part(Success, value(ctype)[offset..])] + Parts(value, |value(ctype)|, rest)
    ensures Reassembles(results, value(ctype)[offset..]) && HasLastPart(results)
  {
    hide Parts, EndsOnce, Joined, HasLastPart, AllNoData, Roomy;
    var bytes := value(ctype);
    OnePart(Part(Success, bytes[offset..]), Parts(value, |bytes|, rest));
    NothingLeft(value, ctype, |bytes|, rest);
    assert bytes[offset..] + [] == bytes[offset..];
  }

  lemma SplitPrefix(value: seq<Byte>, i: nat, j: nat, rest: seq<Byte>)
    requires i <= j <= |value| && rest <= value[j..]
    ensures value[i..j] + rest <= value[i..]
    ensures value[i..j] + rest == value[i..] <==> rest == value[j..]
  {
    assert value[i..] == value[i..j] + value[j..];
    if value[i..j] + rest == value[i..] {
      assert |rest| == |value[j..]|;
    }
  }

  lemma PartsStep(value: CType -> Bytes, offset: Size, buffers: seq<Buffer>)
    requires buffers != []
    ensures var outcome := NextPart(value(buffers[0].ctype), offset, buffers[0]);
            offset + outcome.Count() < SIZES ==>
              Parts(value, offset, buffers) == [outcome] + Parts(value, offset + outcome.Count(), buffers[1..])
  {
    hide NextPart;
  }

  lemma OnePart(part: Outcome, rest: seq<Outcome>)
    requires part.Part? && part.bytes != [] && (part.ret == Success || part.ret == SuccessWithInfo)
    ensures var results := [part] + rest;
            && Joined(results) == part.bytes + Joined(rest)
            && (EndsOnce(results) <==> if part.ret == Success then AllNoData(rest) else EndsOnce(rest))
            && (HasLastPart(results) <==> part.ret == Success || HasLastPart(rest))
  {
    assert ([part] + rest)[1..] == rest;
  }

  /** What successive calls on one cell store through the length pointer. */
  function Indicators(value: CType -> Bytes, offset: Size, buffers: seq<Buffer>): seq<Option<int>>
    decreases |buffers|
  {
    if buffers == [] then []
    else
      var bytes := value(buffers[0].ctype);
      var next := (offset + NextPart(bytes, offset, buffers[0]).Count()) % SIZES;
      [Indicator(bytes, offset, buffers[0])] + Indicators(value, next, buffers[1..])
  }

  /** Every call reports how much of the value is left, which is what was left before less the bytes handed
      out since, until nothing is. */
  lemma {:induction false} IndicatorsCountDown(
      value: CType -> Bytes, ctype: CType, offset: Size, buffers: seq<Buffer>, i: nat)
    requires Roomy(buffers, ctype) && i < |buffers|
    requires value(ctype) != [] && offset <= |value(ctype)| < 0x8000_0000_0000_0000
    ensures |Parts(value, offset, buffers)| == |Indicators(value, offset, buffers)| == |buffers|
    ensures var left := |value(ctype)| - offset - |Joined(Parts(value, offset, buffers)[..i])|;
            left >= 0 && Indicators(value, offset, buffers)[i] == if left == 0 then None else Some(left)
    decreases |buffers|
  {
    hide NextPart, Joined, ToSigned, RemainingLength, Roomy;
    var bytes, buffer, rest := value(ctype), buffers[0], buffers[1..];
    RoomyStep(buffers, ctype);
    PartsLength(value, offset, buffers);
    OneIndicator(bytes, offset, buffer);
    if i == 0 {
      NothingJoined(Parts(value, offset, buffers)[..0]);
    } else {
      var part := NextPart(bytes, offset, buffer);
      var next := offset + part.Count();
      IndicatorsCountDown(value, ctype, next, rest, i - 1);
      assert Parts(value, offset, buffers)[..i] == [part] + Parts(value, next, rest)[..i - 1];
      JoinedStep(part, Parts(value, next, rest)[..i - 1]);
    }
  }

  lemma NothingJoined(results: seq<Outcome>)
    requires results == []
    ensures Joined(results) == []
  {
  }

  lemma JoinedStep(part: Outcome, rest: seq<Outcome>)
    requires part.Part?
    ensures Joined([part] + rest) == part.bytes + Joined(rest)
  {
    assert ([part] + rest)[1..] == rest;
  }

  lemma {:induction false} PartsLength(value: CType -> Bytes, offset: Size, buffers: seq<Buffer>)
    ensures |Parts(value, offset, buffers)| == |Indicators(value, offset, buffers)| == |buffers|
    decreases |buffers|
  {
    hide NextPart, Indicator;
    if buffers != [] {
      var next := (offset + NextPart(value(buffers[0].ctype), offset, buffers[0]).Count()) % SIZES;
      PartsLength(value, next, buffers[1..]);
    }
  }

  lemma OneIndicator(value: Bytes, offset: Size, buffer: Buffer)
    requires value != [] && offset <= |value| < 0x8000_0000_0000_0000 && buffer.length > buffer.Unit()
    ensures var left := |value| - offset;
            && NextPart(value, offset, buffer).Part?
            && offset + NextPart(value, offset, buffer).Count() <= |value|
            && Indicator(value, offset, buffer) == if left == 0 then None else Some(left)
  {
    if offset < |value| { PartInside(value, offset, buffer); }
    LengthExactly(value, offset);
  }

  /** A value that is empty in the type asked for is handed out again by every call. */
  lemma {:induction false} EmptyValueRepeats(value: CType -> Bytes, ctype: CType, buffers: seq<Buffer>)
    requires Roomy(buffers, ctype) && value(ctype) == []
    ensures |Parts(value, 0, buffers)| == |buffers|
    ensures forall i :: 0 <= i < |buffers| ==> Parts(value, 0, buffers)[i] == Part(Success, [])
    decreases |buffers|
  {
    if buffers != [] { EmptyValueRepeats(value, ctype, buffers[1..]); }
  }

  /** The bytes of "ab" in each type. */
  function TwoLetters(): CType -> Bytes {
    (ctype: CType) => if ctype == WideType then [97, 0, 98, 0] else [97, 98]
  }

  /** One byte of "ab" as SQL_C_CHAR, and the rest as SQL_C_WCHAR: the second part begins inside a unit. */
  lemma PartsOfTwoTypes()
    ensures Parts(TwoLetters(), 0, [Buffer(2, CharType), Buffer(10, WideType)]) ==
            [Part(SuccessWithInfo, [97]), Part(Success, [0, 98, 0])]
  {
    var buffers := [Buffer(2, CharType), Buffer(10, WideType)];
    var narrow, wide := TwoLetters()(CharType), TwoLetters()(WideType);
    PartInside(narrow, 0, buffers[0]);
    PartInside(wide, 1, buffers[1]);
    assert narrow[0..1] == [97] && wide[1..] == [0, 98, 0];
    PartsStep(TwoLetters(), 0, buffers);
    PartsStep(TwoLetters(), 1, buffers[1..]);
    hide NextPart;
    assert Parts(TwoLetters(), 4, []) == [];
  }
}
