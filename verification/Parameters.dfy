/**
  Executing a statement once for every set of an array of parameters.  Decoding one bound value of one set
  is abstract, and so is the engine: it is known by the vectors of values it is given.
*/
module Parameters {
  import opened Common

  datatype Status = ParamSuccess | NeedsData | ParamError

  /** What decoding a bound value comes to. */
  datatype Decoded<+V> = Value(value: V) | AtExecution | Undecodable

  datatype Return = Success | StillExecuting | NeedData | Error | OutOfRange

  /** The bound parameters: how many there are, how many sets, what each decodes to, and on which vectors
      the engine fails. */
  datatype Setup<!V> = Setup(recordCount: nat, arraySize: nat, decode: (nat, nat) -> Decoded<V>, fails: seq<V> -> bool)

  datatype Progress<V> = Progress(
    paramsetIdx: nat, values: seq<V>, processed: Option<nat>, status: Option<seq<Status>>,
    executed: seq<seq<V>>, open: bool)
  {
    predicate Valid(setup: Setup<V>) {
      status.Some? ==> |status.value| == setup.arraySize
    }
  }

  function StatusOf<V>(d: Decoded<V>): Status {
    match d
    case Value(_) => ParamSuccess
    case AtExecution => NeedsData
    case Undecodable => ParamError
  }

  /** A value is appended when there is none yet, and replaces the one there is otherwise. */
  function Put<V>(values: seq<V>, i: nat, v: V): seq<V> {
    if i >= |values| then values + [v] else values[i := v]
  }

  /** The values of one set, collected from record `rec` on. */
  datatype Filled<V> = Filled(ret: Return, values: seq<V>, out: seq<V>, status: Option<Status>)

  function Fill<V>(setup: Setup<V>, hasStatus: bool, set_: nat, values: seq<V>, out: seq<V>, status: Option<Status>,
                   rec: nat): Filled<V>
    decreases setup.recordCount - rec
  {
    if rec >= setup.recordCount then Filled(Success, values, out, status)
    else
      var d := setup.decode(set_, rec);
      var values := if d.Value? then Put(values, rec, d.value) else values;
      var status := Some(StatusOf(d));
      if d.AtExecution? then Filled(NeedData, values, out, status)
      else if d.Undecodable? && !hasStatus then Filled(Error, values, out, status)
      else if rec >= |values| then Filled(OutOfRange, values, out, status)
      else Fill(setup, hasStatus, set_, values, out + [values[rec]], status, rec + 1)
  }

  /** The status array, when there is one, after the entry of a set has been written. */
  function Report(status: Option<seq<Status>>, set_: nat, entry: Option<Status>): (r: Option<seq<Status>>)
    requires status.Some? ==> set_ < |status.value|
    ensures r.Some? == status.Some? && (r.Some? ==> |r.value| == |status.value|)
  {
    if status.Some? && entry.Some? then Some(status.value[set_ := entry.value]) else status
  }

  lemma ReportAgain(status: Option<seq<Status>>, set_: nat, first: Option<Status>, second: Status)
    requires status.Some? ==> set_ < |status.value|
    ensures Report(Report(status, set_, first), set_, Some(second)) == Report(status, set_, Some(second))
  {
    if status.Some? && first.Some? {
      assert status.value[set_ := first.value][set_ := second] == status.value[set_ := second];
    }
  }

  /** The values for the next execution; the set is done with once they are all there. */
  function TakeSet<V>(setup: Setup<V>, s: Progress<V>): (r: (Progress<V>, Return, seq<V>))
    requires s.Valid(setup) && (setup.recordCount > 0 ==> s.paramsetIdx < setup.arraySize)
    ensures r.0.Valid(setup)
  {
    if setup.recordCount == 0 then (s, Success, [])
    else
      var filled := Fill(setup, s.status.Some?, s.paramsetIdx, s.values, [], None, 0);
      var s := s.(values := filled.values, status := Report(s.status, s.paramsetIdx, filled.status));
      if filled.ret != Success then (s, filled.ret, filled.out)
      else
        var next := s.paramsetIdx + 1;
        (s.(paramsetIdx := next, processed := if s.processed.Some? then Some(next) else None),
         if next == setup.arraySize then Success else StillExecuting,
         filled.out)
  }

  function ExecuteOnce<V>(setup: Setup<V>, s: Progress<V>): (r: (Progress<V>, Return))
    requires s.Valid(setup) && (setup.recordCount > 0 ==> s.paramsetIdx < setup.arraySize)
    ensures r.0.Valid(setup)
  {
    var (after, ret, values) := TakeSet(setup, s.(open := false));
    if ret != Success && ret != StillExecuting then (after, ret)
    else
      var after := after.(executed := after.executed + [values]);
      if setup.fails(values) then (after, Error) else (after.(open := true), ret)
  }

  lemma StillExecutingAdvances<V>(setup: Setup<V>, s: Progress<V>)
    requires s.Valid(setup) && (setup.recordCount > 0 ==> s.paramsetIdx < setup.arraySize)
    ensures var (after, ret) := ExecuteOnce(setup, s);
            ret == StillExecuting ==>
              setup.recordCount > 0 && after.paramsetIdx == s.paramsetIdx + 1 < setup.arraySize
  {
    hide Fill;
    if setup.recordCount > 0 { FillReturns(setup, s.status.Some?, s.paramsetIdx, s.values, [], None, 0); }
  }

  lemma {:induction false} FillReturns<V>(
      setup: Setup<V>, hasStatus: bool, set_: nat, values: seq<V>, out: seq<V>, status: Option<Status>, rec: nat)
    ensures Fill(setup, hasStatus, set_, values, out, status, rec).ret != StillExecuting
    decreases setup.recordCount - rec
  {
    if rec < setup.recordCount {
      var d := setup.decode(set_, rec);
      var later := if d.Value? then Put(values, rec, d.value) else values;
      if rec < |later| {
        FillReturns(setup, hasStatus, set_, later, out + [later[rec]], Some(StatusOf(d)), rec + 1);
      }
    }
  }

  /** Execute until the sets are used up or something stops the run. */
  function ExecuteAll<V>(setup: Setup<V>, s: Progress<V>): (Progress<V>, Return)
    requires s.Valid(setup) && (setup.recordCount > 0 ==> s.paramsetIdx < setup.arraySize)
    decreases setup.arraySize - s.paramsetIdx
  {
    var (after, ret) := ExecuteOnce(setup, s);
    StillExecutingAdvances(setup, s);
    if ret == StillExecuting then ExecuteAll(setup, after) else (after, ret)
  }

  // ----- the program -----------------------------------------------------------------------------

  class Statement<V(0)> {
    const setup: Setup<V>
    var paramsetIdx: nat
    var values: seq<V>
    var processed: Option<nat>
    var status: Option<seq<Status>>
    var executed: seq<seq<V>>
    var open: bool

    ghost function State(): Progress<V>
      reads this
    {
      Progress(paramsetIdx, values, processed, status, executed, open)
    }

    constructor (setup: Setup<V>, processed: Option<nat>, status: Option<seq<Status>>)
      requires status.Some? ==> |status.value| == setup.arraySize
      ensures this.setup == setup && State().Valid(setup)
      ensures State() == Progress(0, [], processed, status, [], false)
    {
      this.setup, this.processed, this.status := setup, processed, status;
      paramsetIdx, values, executed, open := 0, [], [], false;
    }

    method SetValue(value: V, valIdx: nat)
      modifies `values
      ensures values == Put(old(values), valIdx, value)
    {
      if valIdx >= |values| {
        values := values + [value];
        return;
      }
      values := values[valIdx := value];
    }

    method SetParamIndex() returns (ret: Return)
      modifies `paramsetIdx, `processed
      ensures paramsetIdx == old(paramsetIdx) + 1
      ensures processed == if old(processed).Some? then Some(paramsetIdx) else None
      ensures ret == if paramsetIdx == setup.arraySize then Success else StillExecuting
    {
      paramsetIdx := paramsetIdx + 1;
      if processed.Some? { processed := Some(paramsetIdx); }
      return if paramsetIdx == setup.arraySize then Success else StillExecuting;
    }

    method GetParamValues() returns (ret: Return, out: seq<V>)
      requires State().Valid(setup) && (setup.recordCount > 0 ==> paramsetIdx < setup.arraySize)
      modifies `paramsetIdx, `values, `processed, `status
      ensures State().Valid(setup)
      ensures (State(), ret, out) == TakeSet(setup, old(State()))
    {
      hide Put, StatusOf;
      out := [];
      if setup.recordCount == 0 { return Success, out; }
      ghost var last := None;
      for rec := 0 to setup.recordCount
        invariant State().Valid(setup) && paramsetIdx == old(paramsetIdx) && processed == old(processed)
        invariant status.Some? == old(status).Some?
        invariant status == Report(old(status), paramsetIdx, last)
        invariant Fill(setup, status.Some?, paramsetIdx, values, out, last, rec) ==
                  Fill(setup, status.Some?, paramsetIdx, old(values), [], None, 0)
      {
        var d := setup.decode(paramsetIdx, rec);
        if d.Value? { SetValue(d.value, rec); }
        ReportAgain(old(status), paramsetIdx, last, StatusOf(d));
        last := Some(StatusOf(d));
        if status.Some? { status := Some(status.value[paramsetIdx := StatusOf(d)]); }
        if d.AtExecution? { return NeedData, out; }
        if d.Undecodable? && status.None? { return Error, out; }
        if rec >= |values| { return OutOfRange, out; }
        out := out + [values[rec]];
      }
      ret := SetParamIndex();
    }

    method SingleExecuteStmt() returns (ret: Return)
      requires State().Valid(setup) && (setup.recordCount > 0 ==> paramsetIdx < setup.arraySize)
      modifies this
      ensures State().Valid(setup)
      ensures (State(), ret) == ExecuteOnce(setup, old(State()))
    {
      hide Fill;
      open := false;
      var out;
      ret, out := GetParamValues();
      if ret != Success && ret != StillExecuting { return; }
      executed := executed + [out];
      if setup.fails(out) { return Error; }
      open := true;
    }

    method BatchExecuteStmt() returns (ret: Return)
      requires State().Valid(setup) && (setup.recordCount > 0 ==> paramsetIdx < setup.arraySize)
      modifies this
      ensures (State(), ret) == ExecuteAll(setup, old(State()))
    {
      hide ExecuteOnce;
      StillExecutingAdvances(setup, State());
      ret := SingleExecuteStmt();
      while ret == StillExecuting
        invariant State().Valid(setup)
        invariant ret == StillExecuting ==> setup.recordCount > 0 ==> paramsetIdx < setup.arraySize
        invariant ExecuteAll(setup, old(State())) == if ret == StillExecuting then ExecuteAll(setup, State())
                  else (State(), ret)
        decreases if ret == StillExecuting then 1 else 0, setup.arraySize - paramsetIdx
      {
        StillExecutingAdvances(setup, State());
        ret := SingleExecuteStmt();
      }
    }
  }
}
