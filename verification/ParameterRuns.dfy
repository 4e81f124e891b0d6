/** What a statement with an array of parameter sets executes. */
module ParameterRuns {
  import opened Common
  import opened Parameters

  function Lookup<V>(values: seq<V>, r: nat): Option<V> {
    if r < |values| then Some(values[r]) else None
  }

  /** The value parameter `r` has in an execution of set `k`, where the run began with set `from` and with
      these values: what the set decodes to, or else what the closest earlier set decoded to. */
  function Carried<V>(setup: Setup<V>, from: nat, initial: seq<V>, k: nat, r: nat): Option<V>
    requires from <= k
    decreases k, 1
  {
    var d := setup.decode(k, r);
    if d.Value? then Some(d.value) else CarriedBefore(setup, from, initial, k, r)
  }

  function CarriedBefore<V>(setup: Setup<V>, from: nat, initial: seq<V>, k: nat, r: nat): Option<V>
    requires from <= k
    decreases k, 0
  {
    if k == from then Lookup(initial, r) else Carried(setup, from, initial, k - 1, r)
  }

  /** A parameter that does not stop the run: it decodes, or its failure is reported in a status array and
      there is an earlier value for it. */
  ghost predicate Usable<V>(setup: Setup<V>, hasStatus: bool, k: nat, r: nat, value: Option<V>) {
    setup.decode(k, r).Value? || (setup.decode(k, r).Undecodable? && hasStatus && value.Some?)
  }

  /** Whether set `k` gets through: every parameter is usable and the engine does not fail. */
  ghost predicate SetRuns<V(!new)>(setup: Setup<V>, hasStatus: bool, from: nat, initial: seq<V>, k: nat)
    requires from <= k
  {
    && (forall r :: 0 <= r < setup.recordCount ==> Usable(setup, hasStatus, k, r, Carried(setup, from, initial, k, r)))
    && !setup.fails(Vector(setup, from, initial, k))
  }

  /** Every set from `a` on gets through. */
  ghost predicate SetsRun<V(!new)>(setup: Setup<V>, hasStatus: bool, from: nat, initial: seq<V>, a: nat)
    requires from <= a
  {
    forall k :: a <= k < setup.arraySize ==> SetRuns(setup, hasStatus, from, initial, k)
  }

  /** The values set `k` is executed with. */
  ghost function Vector<V(!new)>(setup: Setup<V>, from: nat, initial: seq<V>, k: nat): seq<V>
    requires from <= k
  {
    if forall r :: 0 <= r < setup.recordCount ==> Carried(setup, from, initial, k, r).Some? then
      seq(setup.recordCount, r requires 0 <= r < setup.recordCount => Carried(setup, from, initial, k, r).value)
    else []
  }

  /** The values of the sets from `a` up to `b`, one vector for each. */
  ghost function Vectors<V(!new)>(setup: Setup<V>, from: nat, initial: seq<V>, a: nat, b: nat): seq<seq<V>>
    requires from <= a <= b
    decreases b - a
  {
    if a == b then [] else [Vector(setup, from, initial, a)] + Vectors(setup, from, initial, a + 1, b)
  }

  // ----- one set ---------------------------------------------------------------------------------

  /** What parameter `r` contributes to an execution of set `k` that begins with these values. */
  function Chosen<V>(setup: Setup<V>, k: nat, values: seq<V>, r: nat): Option<V> {
    if setup.decode(k, r).Value? then Some(setup.decode(k, r).value) else Lookup(values, r)
  }

  ghost predicate AllUsable<V>(setup: Setup<V>, hasStatus: bool, k: nat, values: seq<V>, rec: nat) {
    forall r :: rec <= r < setup.recordCount ==> Usable(setup, hasStatus, k, r, Chosen(setup, k, values, r))
  }

  lemma PutLooksUp<V>(setup: Setup<V>, hasStatus: bool, k: nat, values: seq<V>, rec: nat)
    requires rec <= |values| && rec < setup.recordCount
    requires setup.decode(k, rec).Value?
    ensures var later := Put(values, rec, setup.decode(k, rec).value);
            && rec < |later|
            && (forall r: nat :: Lookup(later, r) == if r == rec then Some(setup.decode(k, rec).value)
                else Lookup(values, r))
            && (AllUsable(setup, hasStatus, k, later, rec + 1) == AllUsable(setup, hasStatus, k, values, rec + 1))
  {
    var later := Put(values, rec, setup.decode(k, rec).value);
    forall r: nat | rec + 1 <= r
      ensures Chosen(setup, k, later, r) == Chosen(setup, k, values, r)
    {
      assert Lookup(later, r) == Lookup(values, r);
    }
  }

  /** What collecting goes on with after record `rec`. */
  function Later<V>(setup: Setup<V>, k: nat, values: seq<V>, rec: nat): seq<V> {
    if setup.decode(k, rec).Value? then Put(values, rec, setup.decode(k, rec).value) else values
  }

  lemma FillStep<V>(setup: Setup<V>, hasStatus: bool, k: nat, values: seq<V>, out: seq<V>, status: Option<Status>,
                    rec: nat)
    requires rec <= |values| && rec < setup.recordCount
    ensures var filled := Fill(setup, hasStatus, k, values, out, status, rec);
            var later := Later(setup, k, values, rec);
            if Usable(setup, hasStatus, k, rec, Chosen(setup, k, values, rec)) then
              && rec < |later|
              && Some(later[rec]) == Chosen(setup, k, values, rec)
              && filled == Fill(setup, hasStatus, k, later, out + [later[rec]], Some(StatusOf(setup.decode(k, rec))),
                  rec + 1)
            else filled.ret != Success
    ensures var later := Later(setup, k, values, rec);
            forall r: nat :: Lookup(later, r) == if r == rec then Chosen(setup, k, values, rec) else Lookup(values, r)
    ensures AllUsable(setup, hasStatus, k, Later(setup, k, values, rec), rec + 1) ==
            AllUsable(setup, hasStatus, k, values, rec + 1)
  {
    if setup.decode(k, rec).Value? { PutLooksUp(setup, hasStatus, k, values, rec); }
  }

  lemma {:induction false} FillSucceeds<V>(
      setup: Setup<V>, hasStatus: bool, k: nat, values: seq<V>, out: seq<V>, status: Option<Status>, rec: nat)
    requires rec <= |values| && rec <= setup.recordCount
    ensures Fill(setup, hasStatus, k, values, out, status, rec).ret == Success <==>
            AllUsable(setup, hasStatus, k, values, rec)
    decreases setup.recordCount - rec
  {
    if rec < setup.recordCount {
      FillStep(setup, hasStatus, k, values, out, status, rec);
      var later := Later(setup, k, values, rec);
      hide Fill, Later, Usable;
      assert AllUsable(setup, hasStatus, k, values, rec) <==>
             Usable(setup, hasStatus, k, rec, Chosen(setup, k, values, rec))
                 && AllUsable(setup, hasStatus, k, values, rec + 1);
      if Usable(setup, hasStatus, k, rec, Chosen(setup, k, values, rec)) {
        FillSucceeds(setup, hasStatus, k, later, out + [later[rec]], Some(StatusOf(setup.decode(k, rec))), rec + 1);
      }
    }
  }

  lemma {:induction false} FillCollects<V>(
      setup: Setup<V>, hasStatus: bool, k: nat, values: seq<V>, out: seq<V>, status: Option<Status>, rec: nat)
    requires rec <= |values| && rec <= setup.recordCount && AllUsable(setup, hasStatus, k, values, rec)
    ensures var filled := Fill(setup, hasStatus, k, values, out, status, rec);
            && setup.recordCount <= |filled.values|
            && filled.out == out + filled.values[rec..setup.recordCount]
    ensures var filled := Fill(setup, hasStatus, k, values, out, status, rec);
            forall r: nat :: Lookup(filled.values, r) ==
              if rec <= r < setup.recordCount then Chosen(setup, k, values, r) else Lookup(values, r)
    decreases setup.recordCount - rec
  {
    if rec < setup.recordCount {
      FillStep(setup, hasStatus, k, values, out, status, rec);
      var later := Later(setup, k, values, rec);
      assert Usable(setup, hasStatus, k, rec, Chosen(setup, k, values, rec));
      hide Fill, Later, Usable;
      FillCollects(setup, hasStatus, k, later, out + [later[rec]], Some(StatusOf(setup.decode(k, rec))), rec + 1);
      var filled := Fill(setup, hasStatus, k, values, out, status, rec);
      assert Lookup(filled.values, rec) == Lookup(later, rec);
      assert filled.values[rec..setup.recordCount] == [filled.values[rec]] + filled.values[rec + 1..setup.recordCount];
    }
  }

  // ----- a run -----------------------------------------------------------------------------------

  /** The values kept when set `k` is next are those carried from the sets before it. */
  ghost predicate Carries<V>(setup: Setup<V>, from: nat, initial: seq<V>, k: nat, values: seq<V>)
    requires from <= k
  {
    forall r :: 0 <= r < setup.recordCount ==> Lookup(values, r) == CarriedBefore(setup, from, initial, k, r)
  }

  lemma ChosenIsCarried<V(!new)>(setup: Setup<V>, hasStatus: bool, from: nat, initial: seq<V>, k: nat, values: seq<V>)
    requires from <= k && Carries(setup, from, initial, k, values)
    ensures forall r :: 0 <= r < setup.recordCount ==>
                          Chosen(setup, k, values, r) == Carried(setup, from, initial, k, r)
    ensures SetRuns(setup, hasStatus, from, initial, k) <==>
            AllUsable(setup, hasStatus, k, values, 0) && !setup.fails(Vector(setup, from, initial, k))
  {
  }

  lemma CollectedIsVector<V(!new)>(setup: Setup<V>, hasStatus: bool, from: nat, initial: seq<V>, k: nat, values: seq<V>)
    requires from <= k && Carries(setup, from, initial, k, values) && AllUsable(setup, hasStatus, k, values, 0)
    ensures var filled := Fill(setup, hasStatus, k, values, [], None, 0);
            && filled.out == Vector(setup, from, initial, k)
            && Carries(setup, from, initial, k + 1, filled.values)
  {
    hide Fill, Chosen, Usable;
    FillCollects(setup, hasStatus, k, values, [], None, 0);
    ChosenIsCarried(setup, hasStatus, from, initial, k, values);
    var filled := Fill(setup, hasStatus, k, values, [], None, 0);
    assert filled.out == filled.values[0..setup.recordCount];
    forall r | 0 <= r < setup.recordCount
      ensures Carried(setup, from, initial, k, r) == Lookup(filled.values, r) == Some(filled.out[r])
    {
      assert Lookup(filled.values, r) == Chosen(setup, k, values, r);
    }
  }

  lemma OneSet<V(!new)>(setup: Setup<V>, s: Progress<V>, from: nat, initial: seq<V>)
    requires s.Valid(setup) && setup.recordCount > 0 && from <= s.paramsetIdx < setup.arraySize
    requires Carries(setup, from, initial, s.paramsetIdx, s.values)
    ensures var (after, ret) := ExecuteOnce(setup, s);
            var k := s.paramsetIdx;
            if SetRuns(setup, s.status.Some?, from, initial, k) then
              && ret == (if k + 1 == setup.arraySize then Success else StillExecuting)
              && after.executed == s.executed + [Vector(setup, from, initial, k)]
              && after.paramsetIdx == k + 1 && after.status.Some? == s.status.Some?
              && after.processed == (if s.processed.Some? then Some(k + 1) else None)
              && after.open && Carries(setup, from, initial, k + 1, after.values)
            else ret != Success && ret != StillExecuting
  {
    hide Fill, SetRuns, AllUsable, Carries, Vector;
    var hasStatus, k := s.status.Some?, s.paramsetIdx;
    ChosenIsCarried(setup, hasStatus, from, initial, k, s.values);
    FillSucceeds(setup, hasStatus, k, s.values, [], None, 0);
    FillReturns(setup, hasStatus, k, s.values, [], None, 0);
    if AllUsable(setup, hasStatus, k, s.values, 0) {
      CollectedIsVector(setup, hasStatus, from, initial, k, s.values);
    }
  }

  /** From any point of a run: it succeeds exactly if every set that is left gets through, and then each of
      them has been executed once, in order. */
  lemma {:induction false} RunFrom<V(!new)>(setup: Setup<V>, s: Progress<V>, from: nat, initial: seq<V>)
    requires s.Valid(setup) && setup.recordCount > 0 && from <= s.paramsetIdx < setup.arraySize
    requires Carries(setup, from, initial, s.paramsetIdx, s.values)
    ensures var (after, ret) := ExecuteAll(setup, s);
            && ret != StillExecuting
            && (ret == Success <==> SetsRun(setup, s.status.Some?, from, initial, s.paramsetIdx))
            && (ret == Success ==>
                  && after.executed == s.executed + Vectors(setup, from, initial, s.paramsetIdx, setup.arraySize)
                  && after.paramsetIdx == setup.arraySize && after.open
                  && after.processed == if s.processed.Some? then Some(setup.arraySize) else None)
    decreases setup.arraySize - s.paramsetIdx
  {
    hide ExecuteOnce, ExecuteAll, SetRuns, SetsRun, Carries, Vector, Vectors, Progress.Valid;
    OneSet(setup, s, from, initial);
    StillExecutingAdvances(setup, s);
    ExecuteAllStep(setup, s);
    SetsRunStep(setup, s.status.Some?, from, initial, s.paramsetIdx);
    var (after, ret) := ExecuteOnce(setup, s);
    VectorsStep(setup, s.executed, from, initial, s.paramsetIdx);
    if ret == StillExecuting {
      RunFrom(setup, after, from, initial);
    } else if ret == Success {
      NoVectors(setup, s.executed, from, initial, s.paramsetIdx);
    }
  }

  lemma ExecuteAllStep<V(!new)>(setup: Setup<V>, s: Progress<V>)
    requires s.Valid(setup) && setup.recordCount > 0 && s.paramsetIdx < setup.arraySize
    ensures var (after, ret) := ExecuteOnce(setup, s);
            if ret == StillExecuting then
              setup.recordCount > 0 && after.paramsetIdx < setup.arraySize
                  && ExecuteAll(setup, s) == ExecuteAll(setup, after)
            else ExecuteAll(setup, s) == (after, ret)
  {
    hide ExecuteOnce;
    StillExecutingAdvances(setup, s);
  }

  lemma NoVectors<V(!new)>(setup: Setup<V>, executed: seq<seq<V>>, from: nat, initial: seq<V>, k: nat)
    requires from <= k < setup.arraySize
    ensures executed + [Vector(setup, from, initial, k)] + Vectors(setup, from, initial, setup.arraySize,
            setup.arraySize) ==
            executed + [Vector(setup, from, initial, k)]
  {
  }

  lemma SetsRunStep<V(!new)>(setup: Setup<V>, hasStatus: bool, from: nat, initial: seq<V>, a: nat)
    requires from <= a < setup.arraySize
    ensures SetsRun(setup, hasStatus, from, initial, a) <==>
            SetRuns(setup, hasStatus, from, initial, a) && SetsRun(setup, hasStatus, from, initial, a + 1)
    ensures SetsRun(setup, hasStatus, from, initial, setup.arraySize)
  {
    hide SetRuns;
  }

  lemma VectorsStep<V(!new)>(setup: Setup<V>, executed: seq<seq<V>>, from: nat, initial: seq<V>, k: nat)
    requires from <= k < setup.arraySize
    ensures executed + Vectors(setup, from, initial, k, setup.arraySize) ==
            executed + [Vector(setup, from, initial, k)] + Vectors(setup, from, initial, k + 1, setup.arraySize)
    ensures Vectors(setup, from, initial, setup.arraySize, setup.arraySize) == []
  {
    hide Vector;
  }

  /** Executing a statement with parameters succeeds exactly if every set of the array gets through.  It
      then has executed once for each set, in order; a parameter that failed to decode had the value of the
      closest earlier set in which it did decode. */
  lemma BatchExecutesEverySet<V(!new)>(setup: Setup<V>, s: Progress<V>)
    requires s.Valid(setup) && setup.recordCount > 0 && s.paramsetIdx < setup.arraySize
    ensures var (after, ret) := ExecuteAll(setup, s);
            var from := s.paramsetIdx;
            && (ret == Success <==> SetsRun(setup, s.status.Some?, from, s.values, from))
            && (ret == Success ==>
                  && after.executed == s.executed + Vectors(setup, from, s.values, from, setup.arraySize)
                  && after.paramsetIdx == setup.arraySize
                  && after.processed == if s.processed.Some? then Some(setup.arraySize) else None)
  {
    hide ExecuteAll, SetsRun, Vectors;
    RunFrom(setup, s, s.paramsetIdx, s.values);
  }

  /** The values of set `k` by itself. */
  ghost function Own<V(!new)>(setup: Setup<V>, k: nat): seq<V>
    requires forall r :: 0 <= r < setup.recordCount ==> setup.decode(k, r).Value?
  {
    seq(setup.recordCount, r requires 0 <= r < setup.recordCount => setup.decode(k, r).value)
  }

  lemma {:induction false} VectorsAreOwn<V(!new)>(setup: Setup<V>, from: nat, initial: seq<V>, a: nat, b: nat)
    requires from <= a <= b
    requires forall k, r :: a <= k < b && 0 <= r < setup.recordCount ==> setup.decode(k, r).Value?
    ensures |Vectors(setup, from, initial, a, b)| == b - a
    ensures forall k :: a <= k < b ==> Vectors(setup, from, initial, a, b)[k - a] == Own(setup, k)
    decreases b - a
  {
    if a < b {
      assert forall r :: 0 <= r < setup.recordCount ==> setup.decode(a, r).Value?;
      assert Vector(setup, from, initial, a) == Own(setup, a);
      VectorsAreOwn(setup, from, initial, a + 1, b);
    }
  }

  /** When every set decodes, whatever was executed before leaves no trace: from set 0 the statement is
      executed exactly `arraySize` times, the k-th time with the values of set k. */
  lemma EverySetByItself<V(!new)>(setup: Setup<V>, s: Progress<V>)
    requires s.Valid(setup) && setup.recordCount > 0 && s.paramsetIdx == 0 < setup.arraySize
    requires forall k, r :: 0 <= k < setup.arraySize && 0 <= r < setup.recordCount ==> setup.decode(k, r).Value?
    requires forall k :: 0 <= k < setup.arraySize ==> !setup.fails(Own(setup, k))
    ensures var (after, ret) := ExecuteAll(setup, s);
            && ret == Success && after.paramsetIdx == setup.arraySize
            && (s.processed.Some? ==> after.processed == Some(setup.arraySize))
            && |after.executed| == |s.executed| + setup.arraySize && s.executed <= after.executed
            && forall k :: 0 <= k < setup.arraySize ==> after.executed[|s.executed| + k] == Own(setup, k)
  {
    hide ExecuteAll, Vectors;
    forall k | 0 <= k < setup.arraySize
      ensures SetRuns(setup, s.status.Some?, 0, s.values, k)
    {
      assert forall r :: 0 <= r < setup.recordCount ==> setup.decode(k, r).Value?;
      assert Vector(setup, 0, s.values, k) == Own(setup, k);
    }
    BatchExecutesEverySet(setup, s);
    VectorsAreOwn(setup, 0, s.values, 0, setup.arraySize);
  }

  lemma OneExecution<V(!new)>(setup: Setup<V>, s: Progress<V>, from: nat, initial: seq<V>)
    requires s.Valid(setup) && setup.recordCount > 0 && from <= s.paramsetIdx < setup.arraySize
    requires Carries(setup, from, initial, s.paramsetIdx, s.values)
    ensures var (after, ret) := ExecuteOnce(setup, s);
            var k := s.paramsetIdx;
            && (after.open <==> ret == Success || ret == StillExecuting)
            && if after.paramsetIdx == k then after.executed == s.executed
               else after.paramsetIdx == k + 1 && after.executed == s.executed + [Vector(setup, from, initial, k)]
  {
    hide Fill, SetRuns, AllUsable, Carries, Vector;
    var hasStatus, k := s.status.Some?, s.paramsetIdx;
    FillSucceeds(setup, hasStatus, k, s.values, [], None, 0);
    FillReturns(setup, hasStatus, k, s.values, [], None, 0);
    if AllUsable(setup, hasStatus, k, s.values, 0) {
      CollectedIsVector(setup, hasStatus, from, initial, k, s.values);
    }
  }

  /** However a run ends, the sets it got beyond have been executed once each, in order, also the one on
      which the engine failed; and nothing else has. */
  lemma {:induction false} RunExecutesUpToStop<V(!new)>(setup: Setup<V>, s: Progress<V>, from: nat, initial: seq<V>)
    requires s.Valid(setup) && setup.recordCount > 0 && from <= s.paramsetIdx < setup.arraySize
    requires Carries(setup, from, initial, s.paramsetIdx, s.values)
    ensures var (after, ret) := ExecuteAll(setup, s);
            && s.paramsetIdx <= after.paramsetIdx && (after.open <==> ret == Success)
            && after.executed == s.executed + Vectors(setup, from, initial, s.paramsetIdx, after.paramsetIdx)
    decreases setup.arraySize - s.paramsetIdx
  {
    hide ExecuteOnce, ExecuteAll, SetRuns, Carries, Vector, Progress.Valid;
    OneSet(setup, s, from, initial);
    OneExecution(setup, s, from, initial);
    StillExecutingAdvances(setup, s);
    ExecuteAllStep(setup, s);
    var (after, ret) := ExecuteOnce(setup, s);
    if ret == StillExecuting {
      RunExecutesUpToStop(setup, after, from, initial);
    } else {
      assert Vectors(setup, from, initial, after.paramsetIdx, after.paramsetIdx) == [];
    }
  }

  /** Without bound parameters the statement is executed once, with no values, whatever the array size, and
      nothing is counted or reported. */
  lemma NoParametersRunOnce<V(!new)>(setup: Setup<V>, s: Progress<V>)
    requires s.Valid(setup) && setup.recordCount == 0
    ensures var (after, ret) := ExecuteAll(setup, s);
            && ret == (if setup.fails([]) then Error else Success)
            && after == Progress(s.paramsetIdx, s.values, s.processed, s.status, s.executed + [[]], !setup.fails([]))
  {
  }

  // ----- the status array ------------------------------------------------------------------------

  /** The status array of a run that began with set `from` and did not get beyond set `to`: the entry of a
      set that was executed tells whether its last parameter decoded, that of a set that stopped the run why it
      did, and all other entries are as before. */
  ghost predicate Reported<V>(setup: Setup<V>, before: seq<Status>, after: seq<Status>, from: nat, to: nat, ret: Return)
    requires setup.recordCount > 0
  {
    && |after| == |before|
    && forall k :: 0 <= k < |before| ==>
      after[k] ==
      if from <= k < to then if setup.decode(k, setup.recordCount - 1).Value? then ParamSuccess else ParamError
      else if k == to && ret == NeedData then NeedsData
      else if k == to && ret == OutOfRange then ParamError
      else before[k]
  }

  /** The status that collecting the values of one set leaves. */
  lemma {:induction false} FillReports<V>(
      setup: Setup<V>, k: nat, values: seq<V>, out: seq<V>, status: Option<Status>, rec: nat)
    requires rec <= |values| && rec < setup.recordCount
    ensures var filled := Fill(setup, true, k, values, out, status, rec);
            filled.status.Some? &&
            match filled.ret
            case Success =>
              filled.status.value == if setup.decode(k, setup.recordCount - 1).Value? then ParamSuccess else ParamError
            case NeedData => filled.status.value == NeedsData
            case OutOfRange => filled.status.value == ParamError
            case _ => false
    decreases setup.recordCount - rec
  {
    var later := Later(setup, k, values, rec);
    if rec < |later| && rec + 1 < setup.recordCount {
      FillReports(setup, k, later, out + [later[rec]], Some(StatusOf(setup.decode(k, rec))), rec + 1);
    }
  }

  lemma OneReport<V>(setup: Setup<V>, s: Progress<V>)
    requires s.Valid(setup) && setup.recordCount > 0 && s.paramsetIdx < setup.arraySize && s.status.Some?
    ensures var (after, ret) := ExecuteOnce(setup, s);
            && after.status.Some? && s.paramsetIdx <= after.paramsetIdx <= s.paramsetIdx + 1
            && Reported(setup, s.status.value, after.status.value, s.paramsetIdx, after.paramsetIdx, ret)
            && (ret == StillExecuting ==> after.paramsetIdx == s.paramsetIdx + 1)
  {
    hide Fill;
    FillReports(setup, s.paramsetIdx, s.values, [], None, 0);
    FillReturns(setup, true, s.paramsetIdx, s.values, [], None, 0);
  }

  /** The status array after any run, however it ends. */
  lemma {:induction false} StatusesAreReported<V(!new)>(setup: Setup<V>, s: Progress<V>)
    requires s.Valid(setup) && setup.recordCount > 0 && s.paramsetIdx < setup.arraySize && s.status.Some?
    ensures var (after, ret) := ExecuteAll(setup, s);
            && after.status.Some? && s.paramsetIdx <= after.paramsetIdx
            && (ret == Success ==> after.paramsetIdx == setup.arraySize)
            && Reported(setup, s.status.value, after.status.value, s.paramsetIdx, after.paramsetIdx, ret)
    decreases setup.arraySize - s.paramsetIdx
  {
    hide ExecuteOnce, ExecuteAll;
    OneReport(setup, s);
    StillExecutingAdvances(setup, s);
    ExecuteAllStep(setup, s);
    LastSet(setup, s);
    var (after, ret) := ExecuteOnce(setup, s);
    if ret == StillExecuting { StatusesAreReported(setup, after); }
  }

  lemma LastSet<V>(setup: Setup<V>, s: Progress<V>)
    requires s.Valid(setup) && setup.recordCount > 0 && s.paramsetIdx < setup.arraySize
    ensures var (after, ret) := ExecuteOnce(setup, s);
            ret == Success ==> after.paramsetIdx == setup.arraySize
  {
    hide Fill;
  }
}
