/**
  Parameters whose data is sent in pieces by SQLPutData, for a statement with one parameter set: the pieces
  go to the current parameter until its declared length is reached, then to the next one.
*/
module DataAtExecution {
  import opened Common

  type byte = b: int | 0 <= b < 0x100

  const SQL_DATA_AT_EXEC := -2
  const SQL_NULL_DATA := -1

  /** A parameter: whether it is character or binary data, its declared length, its indicator and the bytes
      it holds. */
  datatype Slot = Slot(isChar: bool, declared: nat, indicator: int, content: seq<byte>) {
    predicate Valid() {
      declared < 0x1_0000_0000_0000_0000 &&
      (isChar ==> indicator == SQL_DATA_AT_EXEC || 0 <= indicator == |content| <= declared)
    }

    /** The bytes already there; none before the first piece. */
    function Offset(): nat
      requires isChar && Valid()
    {
      if indicator == SQL_DATA_AT_EXEC then 0 else indicator
    }

    /** The bytes that are still wanted. */
    function Room(): nat
      requires isChar && Valid()
    {
      declared - Offset()
    }
  }

  /** The number of bytes a length argument stands for: it is taken as an unsigned 64-bit number. */
  function Size(length: int): nat {
    length % 0x1_0000_0000_0000_0000
  }

  /** Overread: bytes after those the client sent would be copied. */
  datatype Return = Success | Error | Overread

  datatype Feed = Feed(cur: nat, slots: seq<Slot>) {
    ghost predicate Valid() {
      forall i :: 0 <= i < |slots| ==> slots[i].Valid()
    }

    predicate AtChar() {
      cur < |slots| && slots[cur].isChar
    }

    /** The copy into the current parameter takes more bytes than there are. */
    predicate Overreads(data: seq<byte>, length: int)
      requires Valid()
    {
      AtChar() && Min(Size(length), slots[cur].Room()) > |data|
    }

    function FillCurrent(data: seq<byte>, length: int): Feed
      requires Valid() && AtChar() && !Overreads(data, length)
    {
      var slot := slots[cur];
      var held := if slot.indicator == SQL_DATA_AT_EXEC then [] else slot.content;
      var size := Min(Size(length), slot.Room());
      Feed(if Size(length) >= slot.Room() then cur + 1 else cur,
           slots[cur := slot.(indicator := slot.Offset() + size, content := held + data[..size])])
    }

    /** After an overread nothing is said about what is stored. */
    function PutData(data: seq<byte>, length: int): (Feed, Return)
      requires Valid()
    {
      if cur >= |slots| then (this, Error)
      else if Overreads(data, length) then (this, Overread)
      else if AtChar() then (FillCurrent(data, length), Success)
      else if length == SQL_NULL_DATA then (Feed(cur + 1, slots[cur := slots[cur].(indicator := SQL_NULL_DATA)]),
          Success)
      else (Feed(cur + 1, slots[cur := slots[cur].(content := data)]), Success)
    }
  }

  function Min(a: int, b: int): int {
    if a < b then a else b
  }

  // ----- the program -----------------------------------------------------------------------------

  class ParameterDescriptor {
    var curParamIdx: nat
    var slots: seq<Slot>

    ghost function State(): Feed
      reads this
    {
      Feed(curParamIdx, slots)
    }

    constructor (slots: seq<Slot>)
      ensures State() == Feed(0, slots)
    {
      this.slots := slots;
      curParamIdx := 0;
    }

    method FillParamCharDataBuffer(data: seq<byte>, length: int) returns (overread: bool)
      requires State().Valid() && State().AtChar()
      modifies this
      ensures overread <==> old(State()).Overreads(data, length)
      ensures !overread ==> State() == old(State()).FillCurrent(data, length)
    {
      var i := curParamIdx;
      var offset := 0;
      if slots[i].indicator == SQL_DATA_AT_EXEC {
        slots := slots[i := slots[i].(indicator := 0, content := [])];
      } else {
        offset := slots[i].indicator;
      }
      var size := Size(length);
      if size >= slots[i].declared - offset {
        size := slots[i].declared - offset;
        curParamIdx := curParamIdx + 1;
      }
      if size > |data| {
        return true;
      }
      assert slots[i].content[..offset] == slots[i].content;
      slots := slots[i := slots[i].(content := slots[i].content[..offset] + data[..size],
          indicator := slots[i].indicator + size)];
      assert slots == old(slots)[i := slots[i]];
      return false;
    }

    method PutData(data: seq<byte>, length: int) returns (ret: Return)
      requires State().Valid()
      modifies this
      ensures ret == old(State()).PutData(data, length).1
      ensures ret != Overread ==> State() == old(State()).PutData(data, length).0
    {
      if curParamIdx >= |slots| { return Error; }
      if slots[curParamIdx].isChar {
        var overread := FillParamCharDataBuffer(data, length);
        return if overread then Overread else Success;
      }
      var i := curParamIdx;
      curParamIdx := curParamIdx + 1;
      if length == SQL_NULL_DATA {
        slots := slots[i := slots[i].(indicator := SQL_NULL_DATA)];
        return Success;
      }
      slots := slots[i := slots[i].(content := data)];
      return Success;
    }
  }

  // ----- runs ------------------------------------------------------------------------------------

  /** Pieces sent one after the other, each with its own length. */
  function PutAll(feed: Feed, pieces: seq<seq<byte>>): Feed
    requires feed.Valid() && forall i :: 0 <= i < |pieces| ==> |pieces[i]| < 0x1_0000_0000_0000_0000
    decreases |pieces|
  {
    if pieces == [] then feed
    else
      PieceAccepted(feed, pieces[0]);
      PutAll(feed.PutData(pieces[0], |pieces[0]|).0, pieces[1..])
  }

  lemma PieceAccepted(feed: Feed, piece: seq<byte>)
    requires feed.Valid() && |piece| < 0x1_0000_0000_0000_0000
    ensures feed.PutData(piece, |piece|).1 != Overread && feed.PutData(piece, |piece|).0.Valid()
  {
  }

  /** A piece is read beyond its end exactly if the parameter still wants more than it has and its length,
      a signed 64-bit number, promises more or is negative, as SQL_NULL_DATA and SQL_NTS are. */
  lemma OverreadExactly(feed: Feed, data: seq<byte>, length: int)
    requires feed.Valid() && |data| < 0x8000_0000_0000_0000 && -0x8000_0000_0000_0000 <= length < 0x8000_0000_0000_0000
    ensures feed.PutData(data, length).1 == Overread <==>
            feed.AtChar() && (length < 0 || length > |data|) && feed.slots[feed.cur].Room() > |data|
  {
    if length < 0 {
      assert Size(length) == length + 0x1_0000_0000_0000_0000;
    }
  }

  /** A NULL sent to an untouched character parameter is read beyond its end. */
  lemma NullIsOverread(declared: nat)
    requires 0 < declared < 0x1_0000_0000_0000_0000
    ensures Feed(0, [Slot(true, declared, SQL_DATA_AT_EXEC, [])]).PutData([], SQL_NULL_DATA).1 == Overread
  {
    var feed := Feed(0, [Slot(true, declared, SQL_DATA_AT_EXEC, [])]);
    assert feed.slots[feed.cur].Room() == declared;
  }

  /** The first `n` bytes of `s`, or all of it. */
  function Cut(s: seq<byte>, n: nat): seq<byte> {
    if |s| <= n then s else s[..n]
  }

  /** What a slot holds before a further piece. */
  function Held(slot: Slot): seq<byte> {
    if slot.indicator == SQL_DATA_AT_EXEC then [] else slot.content
  }

  /** A slot with `all` sent to it. */
  function Sent(slot: Slot, all: seq<byte>): Slot {
    slot.(indicator := |Cut(all, slot.declared)|, content := Cut(all, slot.declared))
  }

  lemma OnePiece(feed: Feed, piece: seq<byte>)
    requires feed.Valid() && feed.AtChar() && |piece| < 0x1_0000_0000_0000_0000
    ensures var slot, all := feed.slots[feed.cur], Held(feed.slots[feed.cur]) + piece;
            feed.PutData(piece, |piece|) ==
            (Feed(if |all| >= slot.declared then feed.cur + 1 else feed.cur, feed.slots[feed.cur := Sent(slot, all)]),
                Success)
  {
    PieceAccepted(feed, piece);
    var slot, all := feed.slots[feed.cur], Held(feed.slots[feed.cur]) + piece;
    assert piece[..|piece|] == piece;
    if |all| > slot.declared {
      assert all[..slot.declared] == Held(slot) + piece[..slot.Room()];
    }
  }

  /** The pieces of one parameter: it holds what has been sent, cut to its declared length, and it is left
      exactly when that length is reached. */
  lemma {:induction false} PiecesFillParameter(feed: Feed, pieces: seq<seq<byte>>)
    requires feed.Valid() && feed.AtChar() && pieces != []
    requires forall i :: 0 <= i < |pieces| ==> |pieces[i]| < 0x1_0000_0000_0000_0000
    requires |Held(feed.slots[feed.cur]) + Flatten(pieces[..|pieces| - 1])| < feed.slots[feed.cur].declared
             || |pieces| == 1
    ensures var slot, all := feed.slots[feed.cur], Held(feed.slots[feed.cur]) + Flatten(pieces);
            PutAll(feed, pieces) ==
            Feed(if |all| >= slot.declared then feed.cur + 1 else feed.cur, feed.slots[feed.cur := Sent(slot, all)])
    decreases |pieces|
  {
    var slot, p := feed.slots[feed.cur], pieces[0];
    OnePiece(feed, p);
    PieceAccepted(feed, p);
    assert Flatten(pieces) == p + Flatten(pieces[1..]);
    var next := feed.PutData(p, |p|).0;
    assert Held(slot) + Flatten(pieces) == (Held(slot) + p) + Flatten(pieces[1..]);
    if |pieces| == 1 {
      assert Flatten(pieces[1..]) == [];
      assert PutAll(next, pieces[1..]) == next;
      assert Held(slot) + p + [] == Held(slot) + p;
    } else {
      assert pieces[..|pieces| - 1][1..] == pieces[1..][..|pieces[1..]| - 1];
      assert Flatten(pieces[..|pieces| - 1]) == p + Flatten(pieces[1..][..|pieces[1..]| - 1]);
      PiecesFillParameter(next, pieces[1..]);
    }
  }

  /** Groups of pieces, one for each parameter from `cur` on. */
  ghost predicate GroupsFill(slots: seq<Slot>, cur: nat, groups: seq<seq<seq<byte>>>) {
    && cur + |groups| <= |slots|
    && forall g :: 0 <= g < |groups| ==> Fills(slots[cur + g], groups[g])
  }

  /** Pieces of which the last one, and no earlier one, completes an untouched parameter. */
  ghost predicate Fills(slot: Slot, pieces: seq<seq<byte>>) {
    && slot.isChar && slot.indicator == -2 && pieces != []
    && (forall i :: 0 <= i < |pieces| ==> |pieces[i]| < 0x1_0000_0000_0000_0000)
    && (|Flatten(pieces[..|pieces| - 1])| < slot.declared || |pieces| == 1)
    && |Flatten(pieces)| >= slot.declared
  }

  /** The parameters from `cur` on hold what the groups sent to them. */
  function AllSent(slots: seq<Slot>, cur: nat, groups: seq<seq<seq<byte>>>): seq<Slot>
    requires cur + |groups| <= |slots|
    decreases |groups|
  {
    if groups == [] then slots
    else AllSent(slots[cur := Sent(slots[cur], Flatten(groups[0]))], cur + 1, groups[1..])
  }

  lemma {:induction false} PutConcat(feed: Feed, a: seq<seq<byte>>, b: seq<seq<byte>>)
    requires feed.Valid()
    requires forall i :: 0 <= i < |a| ==> |a[i]| < 0x1_0000_0000_0000_0000
    requires forall i :: 0 <= i < |b| ==> |b[i]| < 0x1_0000_0000_0000_0000
    ensures PutAll(feed, a).Valid() && PutAll(feed, a + b) == PutAll(PutAll(feed, a), b)
    decreases |a|
  {
    if a == [] {
      assert a + b == b;
    } else {
      PieceAccepted(feed, a[0]);
      assert (a + b)[1..] == a[1..] + b;
      PutConcat(feed.PutData(a[0], |a[0]|).0, a[1..], b);
    }
  }

  lemma {:induction false} GroupsAreShort(slots: seq<Slot>, cur: nat, groups: seq<seq<seq<byte>>>)
    requires GroupsFill(slots, cur, groups)
    ensures forall i :: 0 <= i < |Flatten(groups)| ==> |Flatten(groups)[i]| < 0x1_0000_0000_0000_0000
    decreases |groups|
  {
    if groups != [] {
      assert Fills(slots[cur], groups[0]);
      GroupsTail(slots, slots[cur], cur, groups);
      GroupsAreShort(slots, cur + 1, groups[1..]);
      assert slots[cur := slots[cur]] == slots;
    }
  }

  lemma GroupsTail(slots: seq<Slot>, slot: Slot, cur: nat, groups: seq<seq<seq<byte>>>)
    requires GroupsFill(slots, cur, groups) && groups != []
    ensures GroupsFill(slots[cur := slot], cur + 1, groups[1..])
  {
    hide Fills;
    forall g | 0 <= g < |groups[1..]|
      ensures Fills(slots[cur := slot][cur + 1 + g], groups[1..][g])
    {
      assert Fills(slots[cur + (g + 1)], groups[g + 1]);
    }
  }

  /** A whole run: every parameter ends up with its own pieces joined and cut to its declared length, and
      each is left exactly once. */
  lemma {:induction false} RunFillsParameters(feed: Feed, groups: seq<seq<seq<byte>>>)
    requires feed.Valid() && GroupsFill(feed.slots, feed.cur, groups)
    ensures forall i :: 0 <= i < |Flatten(groups)| ==> |Flatten(groups)[i]| < 0x1_0000_0000_0000_0000
    ensures PutAll(feed, Flatten(groups)) == Feed(feed.cur + |groups|, AllSent(feed.slots, feed.cur, groups))
    decreases |groups|
  {
    hide Fills, PutAll, Flatten, AllSent, Feed.Valid, Sent;
    GroupsAreShort(feed.slots, feed.cur, groups);
    if groups == [] {
      NothingSent(feed, groups);
    } else {
      var group, rest := groups[0], groups[1..];
      var sent := Sent(feed.slots[feed.cur], Flatten(group));
      var next := Feed(feed.cur + 1, feed.slots[feed.cur := sent]);
      OneGroup(feed, groups);
      GroupsTail(feed.slots, sent, feed.cur, groups);
      GroupsAreShort(next.slots, next.cur, rest);
      PutConcat(feed, group, Flatten(rest));
      RunFillsParameters(next, rest);
      GroupsSplit(feed.slots, feed.cur, groups);
    }
  }

  lemma NothingSent(feed: Feed, groups: seq<seq<seq<byte>>>)
    requires feed.Valid() && groups == [] && feed.cur <= |feed.slots|
    ensures PutAll(feed, Flatten(groups)) == Feed(feed.cur, AllSent(feed.slots, feed.cur, groups))
  {
  }

  /** The first group completes the current parameter. */
  lemma OneGroup(feed: Feed, groups: seq<seq<seq<byte>>>)
    requires feed.Valid() && GroupsFill(feed.slots, feed.cur, groups) && groups != []
    ensures feed.cur < |feed.slots|
    ensures forall i :: 0 <= i < |groups[0]| ==> |groups[0][i]| < 0x1_0000_0000_0000_0000
    ensures PutAll(feed, groups[0]) ==
            Feed(feed.cur + 1, feed.slots[feed.cur := Sent(feed.slots[feed.cur], Flatten(groups[0]))])
    ensures PutAll(feed, groups[0]).Valid()
  {
    hide Fills, PutAll, Flatten, Sent, Held, Feed.Valid, Slot.Valid;
    var slot, all := feed.slots[feed.cur], Flatten(groups[0]);
    assert Fills(slot, groups[0]);
    FillsUntouched(slot, groups[0]);
    PutConcat(feed, groups[0], []);
    PiecesFillParameter(feed, groups[0]);
    assert Held(slot) + all == all;
  }

  lemma FillsUntouched(slot: Slot, pieces: seq<seq<byte>>)
    requires Fills(slot, pieces)
    ensures slot.isChar && pieces != [] && |Flatten(pieces)| >= slot.declared
    ensures forall i :: 0 <= i < |pieces| ==> |pieces[i]| < 0x1_0000_0000_0000_0000
    ensures Held(slot) == [] && (|Held(slot) + Flatten(pieces[..|pieces| - 1])| < slot.declared || |pieces| == 1)
  {
  }

  lemma GroupsSplit(slots: seq<Slot>, cur: nat, groups: seq<seq<seq<byte>>>)
    requires cur + |groups| <= |slots| && groups != []
    ensures Flatten(groups) == groups[0] + Flatten(groups[1..])
    ensures AllSent(slots, cur, groups) == AllSent(slots[cur := Sent(slots[cur], Flatten(groups[0]))], cur + 1,
            groups[1..])
  {
  }

  lemma {:induction false} AllSentAt(slots: seq<Slot>, cur: nat, groups: seq<seq<seq<byte>>>, i: nat)
    requires cur + |groups| <= |slots| && i < |slots|
    ensures |AllSent(slots, cur, groups)| == |slots|
    ensures AllSent(slots, cur, groups)[i] ==
            if cur <= i < cur + |groups| then Sent(slots[i], Flatten(groups[i - cur])) else slots[i]
    decreases |groups|
  {
    if groups != [] {
      AllSentAt(slots[cur := Sent(slots[cur], Flatten(groups[0]))], cur + 1, groups[1..], i);
    }
  }

  // ----- runs with data of every kind ------------------------------------------------------------

  /** One call: the data and the length argument. */
  datatype Call = Call(data: seq<byte>, length: int)

  /** Calls one after the other, until one does not succeed. */
  function PutCalls(feed: Feed, calls: seq<Call>): (Feed, Return)
    requires feed.Valid()
    decreases |calls|
  {
    if calls == [] then (feed, Success)
    else
      PutKeepsValid(feed, calls[0]);
      var (next, ret) := feed.PutData(calls[0].data, calls[0].length);
      if ret != Success then (next, ret) else PutCalls(next, calls[1..])
  }

  lemma PutKeepsValid(feed: Feed, call: Call)
    requires feed.Valid()
    ensures feed.PutData(call.data, call.length).1 == Success ==> feed.PutData(call.data, call.length).0.Valid()
  {
  }

  /** What a client sends to one parameter: character data in pieces, each with its own length, or other data,
      or NULL, in one call. */
  datatype Sending = Pieces(pieces: seq<seq<byte>>) | Whole(call: Call) {
    function Calls(): seq<Call> {
      if Whole? then [call] else seq(|pieces|, i requires 0 <= i < |pieces| => Call(pieces[i], |pieces[i]|))
    }

    /** The sending is of the kind of the parameter, and completes it if it is in pieces. */
    ghost predicate Suits(slot: Slot) {
      if Whole? then !slot.isChar else Fills(slot, pieces)
    }

    /** What the parameter is afterwards. */
    ghost predicate Leaves(before: Slot, after: Slot) {
      && after.isChar == before.isChar && after.declared == before.declared
      && match this
         case Pieces(pieces) =>
           var all := Flatten(pieces);
           && after.content == (if |all| <= before.declared then all else all[..before.declared])
           && after.indicator == |after.content|
         case Whole(call) =>
           if call.length == -1 then after.content == before.content && after.indicator == -1
           else after.content == call.data && after.indicator == before.indicator
    }
  }

  function AllCalls(sendings: seq<Sending>): seq<Call> {
    if sendings == [] then [] else sendings[0].Calls() + AllCalls(sendings[1..])
  }

  ghost predicate AllSuit(slots: seq<Slot>, cur: nat, sendings: seq<Sending>) {
    && cur + |sendings| <= |slots|
    && forall i :: 0 <= i < |sendings| ==> sendings[i].Suits(slots[cur + i])
  }

  lemma {:induction false} CallsConcat(feed: Feed, a: seq<Call>, b: seq<Call>)
    requires feed.Valid() && PutCalls(feed, a).1 == Success
    ensures PutCalls(feed, a).0.Valid() && PutCalls(feed, a + b) == PutCalls(PutCalls(feed, a).0, b)
    decreases |a|
  {
    hide Feed.PutData, Feed.Valid;
    if a == [] {
      assert a + b == b;
    } else {
      PutKeepsValid(feed, a[0]);
      assert (a + b)[0] == a[0] && (a + b)[1..] == a[1..] + b;
      CallsConcat(feed.PutData(a[0].data, a[0].length).0, a[1..], b);
    }
  }

  /** The first of several pieces leaves the parameter wanting the others. */
  lemma FirstPiece(feed: Feed, pieces: seq<seq<byte>>)
    requires feed.Valid() && feed.AtChar() && pieces != []
    requires forall i :: 0 <= i < |pieces| ==> |pieces[i]| < 0x1_0000_0000_0000_0000
    requires |Held(feed.slots[feed.cur]) + Flatten(pieces[..|pieces| - 1])| < feed.slots[feed.cur].declared
             || |pieces| == 1
    ensures var (next, ret) := feed.PutData(pieces[0], |pieces[0]|);
            && ret == Success && next.Valid()
            && (|pieces| > 1 ==>
                  && next.AtChar()
                  && |Held(next.slots[next.cur]) + Flatten(pieces[1..][..|pieces| - 2])| <
                     next.slots[next.cur].declared)
  {
    var slot, p, rest := feed.slots[feed.cur], pieces[0], pieces[1..];
    OnePiece(feed, p);
    PieceAccepted(feed, p);
    if |pieces| > 1 { FlattenFirst(pieces); }
  }

  lemma FlattenFirst(pieces: seq<seq<byte>>)
    requires |pieces| > 1
    ensures Flatten(pieces[..|pieces| - 1]) == pieces[0] + Flatten(pieces[1..][..|pieces| - 2])
  {
    assert pieces[..|pieces| - 1][1..] == pieces[1..][..|pieces| - 2];
  }

  lemma PieceCalls(pieces: seq<seq<byte>>)
    requires pieces != []
    ensures Pieces(pieces).Calls() == [Call(pieces[0], |pieces[0]|)] + Pieces(pieces[1..]).Calls()
  {
  }

  lemma FirstCall(feed: Feed, call: Call, calls: seq<Call>)
    requires feed.Valid() && feed.PutData(call.data, call.length).1 == Success
    ensures feed.PutData(call.data, call.length).0.Valid()
    ensures PutCalls(feed, [call] + calls) == PutCalls(feed.PutData(call.data, call.length).0, calls)
  {
    hide Feed.PutData, Feed.Valid;
    PutKeepsValid(feed, call);
    assert ([call] + calls)[1..] == calls;
  }

  /** Every call that sends a piece of one parameter succeeds. */
  lemma {:induction false} PiecesSucceed(feed: Feed, pieces: seq<seq<byte>>)
    requires feed.Valid() && feed.AtChar() && pieces != []
    requires forall i :: 0 <= i < |pieces| ==> |pieces[i]| < 0x1_0000_0000_0000_0000
    requires |Held(feed.slots[feed.cur]) + Flatten(pieces[..|pieces| - 1])| < feed.slots[feed.cur].declared
             || |pieces| == 1
    ensures PutCalls(feed, Pieces(pieces).Calls()) == (PutAll(feed, pieces), Success)
    decreases |pieces|
  {
    hide Feed.PutData, Feed.Valid, Feed.AtChar, Held, Flatten, PutCalls, Sending.Calls;
    var p, rest := pieces[0], pieces[1..];
    FirstPiece(feed, pieces);
    PieceCalls(pieces);
    var next := feed.PutData(p, |p|).0;
    FirstCall(feed, Call(p, |p|), Pieces(rest).Calls());
    if |pieces| == 1 {
      NoPieces(next, rest);
    } else {
      PiecesSucceed(next, rest);
    }
  }

  lemma NoPieces(feed: Feed, pieces: seq<seq<byte>>)
    requires feed.Valid() && pieces == []
    ensures PutCalls(feed, Pieces(pieces).Calls()) == (PutAll(feed, pieces), Success)
  {
  }

  /** One sending is stored in the current parameter, which is left, and nowhere else. */
  lemma OneSending(feed: Feed, sending: Sending)
    requires feed.Valid() && feed.cur < |feed.slots| && sending.Suits(feed.slots[feed.cur])
    ensures var (after, ret) := PutCalls(feed, sending.Calls());
            && ret == Success && after.Valid() && after.cur == feed.cur + 1 && |after.slots| == |feed.slots|
            && sending.Leaves(feed.slots[feed.cur], after.slots[feed.cur])
            && forall i :: 0 <= i < |feed.slots| && i != feed.cur ==> after.slots[i] == feed.slots[i]
  {
    hide Fills, PutAll, Flatten, Held, Feed.Valid, Slot.Valid;
    if sending.Whole? {
      PutKeepsValid(feed, sending.call);
      WholeStored(feed, sending.call);
    } else {
      var slot, all := feed.slots[feed.cur], Flatten(sending.pieces);
      FillsUntouched(slot, sending.pieces);
      PiecesSucceed(feed, sending.pieces);
      CallsConcat(feed, sending.Calls(), []);
      PiecesFillParameter(feed, sending.pieces);
      assert Held(slot) + all == all;
    }
  }

  lemma WholeStored(feed: Feed, call: Call)
    requires feed.Valid() && feed.cur < |feed.slots| && !feed.slots[feed.cur].isChar
    ensures PutCalls(feed, [call]) == feed.PutData(call.data, call.length)
    ensures feed.PutData(call.data, call.length).1 == Success
  {
    assert [call][1..] == [];
  }

  /** A whole run of data of every kind: each parameter holds what was sent to it, character data joined and
      cut, other data as it was sent, NULL in the indicator only, and all other parameters are untouched. */
  lemma {:induction false} RunStoresEverything(feed: Feed, sendings: seq<Sending>)
    requires feed.Valid() && AllSuit(feed.slots, feed.cur, sendings)
    ensures var (after, ret) := PutCalls(feed, AllCalls(sendings));
            && ret == Success && after.Valid()
            && after.cur == feed.cur + |sendings| && |after.slots| == |feed.slots|
            && (forall i :: 0 <= i < |sendings| ==>
                  sendings[i].Leaves(feed.slots[feed.cur + i], after.slots[feed.cur + i]))
            && (forall i :: 0 <= i < |feed.slots| && !(feed.cur <= i < feed.cur + |sendings|) ==>
                  after.slots[i] == feed.slots[i])
    decreases |sendings|
  {
    hide PutCalls, Feed.Valid, Sending.Suits, Sending.Leaves, Sending.Calls;
    if sendings == [] {
      NoCalls(feed);
    } else {
      var rest := sendings[1..];
      assert sendings[0].Suits(feed.slots[feed.cur + 0]);
      OneSending(feed, sendings[0]);
      var next := PutCalls(feed, sendings[0].Calls()).0;
      forall i | 0 <= i < |rest|
        ensures rest[i].Suits(next.slots[next.cur + i])
      {
        assert sendings[i + 1].Suits(feed.slots[feed.cur + (i + 1)]);
      }
      CallsConcat(feed, sendings[0].Calls(), AllCalls(rest));
      RunStoresEverything(next, rest);
      var after := PutCalls(feed, AllCalls(sendings)).0;
      forall i | 0 <= i < |sendings|
        ensures sendings[i].Leaves(feed.slots[feed.cur + i], after.slots[feed.cur + i])
      {
        if i > 0 { assert rest[i - 1].Leaves(next.slots[next.cur + (i - 1)], after.slots[next.cur + (i - 1)]); }
      }
    }
  }

  /** A call is refused exactly if no parameter is left that wants data, and then changes nothing. */
  lemma RefusedExactly(feed: Feed, call: Call)
    requires feed.Valid()
    ensures feed.PutData(call.data, call.length).1 == Error <==> feed.cur >= |feed.slots|
    ensures feed.cur >= |feed.slots| ==> feed.PutData(call.data, call.length).0 == feed
  {
  }

  lemma NoCalls(feed: Feed)
    requires feed.Valid()
    ensures PutCalls(feed, []) == (feed, Success)
  {
  }
}
