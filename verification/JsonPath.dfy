/**
  JSON paths: validation, and extraction of the value or the values a path selects.

  The three entry points of json_common.cpp each read the text of the path again.  Here a path also
  has an abstract syntax, a list of steps, and a meaning, the list of nodes it selects.
*/
module JsonPath {
  import opened Common
  import opened Json
  import opened JsonPathReader

  datatype Step =
    | Field(key: string)
    | AnyField
    | Index(index: nat)
    | FromBack(index: nat)
    | AnyElement
    | Descend

  // ----- meaning ---------------------------------------------------------------------------------

  /** The nodes selected by `steps` from `v`, in the order in which they are reported.  A descent that
      ends the path leaves out `v` itself. */
  ghost function Selected(v: Value, steps: seq<Step>): seq<Value>
    decreases |steps|, 0
  {
    if steps == [] then [v]
    else
      var rest := steps[1..];
      match steps[0]
      case Field(key) =>
        if v.Obj? && Lookup(v.members, key).Some? then Selected(Lookup(v.members, key).value, rest) else []
      case AnyField => if v.Obj? then SelectedFromAll(Children(v), rest) else []
      case Index(n) => if v.Arr? && n < |v.elements| then Selected(v.elements[n], rest) else []
      case FromBack(n) => if v.Arr? && 0 < n <= |v.elements| then Selected(v.elements[|v.elements| - n], rest) else []
      case AnyElement => if v.Arr? then SelectedFromAll(v.elements, rest) else []
      case Descend =>
        assert LevelOrder([v])[0] == v;
        if rest == [] then LevelOrder([v])[1..] else SelectedFromAll(LevelOrder([v]), rest)
  }

  ghost function SelectedFromAll(vs: seq<Value>, steps: seq<Step>): seq<Value>
    decreases |steps|, |vs| + 1
  {
    if vs == [] then [] else Selected(vs[0], steps) + SelectedFromAll(vs[1..], steps)
  }

  /** Nothing is selected from a null pointer. */
  ghost function SelectedFrom(v: Option<Value>, steps: seq<Step>): seq<Value> {
    if v.Some? then Selected(v.value, steps) else []
  }

  /** A step that leads to at most one node. */
  predicate IsRegularStep(s: Step) {
    s.Field? || s.Index? || s.FromBack?
  }

  predicate IsRegular(steps: seq<Step>) {
    forall i :: 0 <= i < |steps| ==> IsRegularStep(steps[i])
  }

  /** A regular path selects at most one node. */
  lemma {:induction false} RegularSelectsAtMostOne(v: Value, steps: seq<Step>)
    requires IsRegular(steps)
    ensures |Selected(v, steps)| <= 1
    decreases |steps|
  {
    if steps != [] {
      forall w {
        RegularSelectsAtMostOne(w, steps[1..]);
      }
      assert IsRegularStep(steps[0]);
    }
  }

  lemma RootFirst(v: Value)
    ensures LevelOrder([v]) == [v] + LevelOrder(NextLevel([v]))
    ensures Preorder([v]) == [v] + Preorder(Children(v))
  {
    assert [v][1..] == [];
    assert [v] + Preorder(Children(v)) + [] == [v] + Preorder(Children(v));
  }

  lemma SameElementsAfterFirst(v: Value, a: seq<Value>, b: seq<Value>)
    requires multiset([v] + a) == multiset([v] + b)
    ensures multiset(a) == multiset(b)
  {
    assert multiset(a) == multiset([v] + a) - multiset{v};
    assert multiset(b) == multiset([v] + b) - multiset{v};
  }

  /** A descent that ends a path selects every node below `v` exactly once, nearer levels first. */
  lemma DescentIsExhaustive(v: Value)
    ensures [v] + Selected(v, [Descend]) == LevelOrder([v])
    ensures multiset(Selected(v, [Descend])) == multiset(Preorder(Children(v)))
  {
    hide *;
    DescendSelects(v, []);
    assert [Descend] + [] == [Descend];
    RootFirst(v);
    assert LevelOrder([v])[1..] == LevelOrder(NextLevel([v]));
    WorklistIsLevelOrder([v]);
    WorklistVisitsEachNodeOnce([v]);
    SameElementsAfterFirst(v, LevelOrder(NextLevel([v])), Preorder(Children(v)));
  }

  // ----- syntax ----------------------------------------------------------------------------------

  /** The steps of a path, an error, or a path that ends inside an index of nineteen digits, where the
      pointer moves past the end of the path. */
  datatype Parsed = Steps(steps: seq<Step>) | Malformed | PastEnd

  function Then(first: seq<Step>, rest: Parsed): Parsed {
    if rest.Steps? then Steps(first + rest.steps) else rest
  }

  function KeySteps(k: KeyRead): seq<Step> {
    if k.IsWildCard() then if k.recursive then [Descend] else [AnyField]
    else if k.recursive then [Descend, Field(k.key)] else [Field(k.key)]
  }

  /** `[-0]` and `[#-0]` read as `[0]`. */
  function IndexStep(r: IndexRead): Step {
    if r.index == INVALID_INDEX then AnyElement
    else if r.fromBack && r.index != 0 then FromBack(r.index)
    else Index(r.index)
  }

  function Parse(p: string, ptr: nat): Parsed
    requires ptr <= |p|
    decreases |p| - ptr
  {
    if ptr == |p| then Steps([])
    else if ptr + 1 == |p| then Malformed
    else if p[ptr] == '.' then
      var key := KeyAt(p, ptr + 1);
      if !key.IsValid() then Malformed else Then(KeySteps(key), Parse(p, ptr + 1 + key.charsRead))
    else if p[ptr] == '[' then
      var index := IndexAt(p, ptr + 1);
      if index.None? then Malformed
      else if index.value.next > |p| then PastEnd
      else Then([IndexStep(index.value)], Parse(p, index.value.next))
    else Malformed
  }

  /** Reading on from an object step. */
  lemma ParseField(p: string, ptr: nat)
    requires ptr < |p| && p[ptr] == '.' && Parse(p, ptr).Steps?
    ensures ptr + 1 < |p| && KeyAt(p, ptr + 1).IsValid()
    ensures var key := KeyAt(p, ptr + 1);
            var rest := Parse(p, ptr + 1 + key.charsRead);
            rest.Steps? && Parse(p, ptr) == Then(KeySteps(key), rest)
  {
  }

  /** Reading on from an array step. */
  lemma ParseIndex(p: string, ptr: nat)
    requires ptr < |p| && p[ptr] == '[' && Parse(p, ptr).Steps?
    ensures ptr + 1 < |p| && IndexAt(p, ptr + 1).Some? && IndexAt(p, ptr + 1).value.next <= |p|
    ensures var index := IndexAt(p, ptr + 1).value;
            var rest := Parse(p, index.next);
            rest.Steps? && Parse(p, ptr) == Then([IndexStep(index)], rest)
  {
  }

  // ----- validation ------------------------------------------------------------------------------

  datatype Validated = Regular | Wildcard | PathError | OutOfBounds

  /** What validation reports for a path read as `r`. */
  function ClassOf(r: Parsed): Validated {
    match r
    case Steps(steps) => if IsRegular(steps) then Regular else Wildcard
    case Malformed => PathError
    case PastEnd => OutOfBounds
  }

  lemma RegularThen(first: seq<Step>, rest: seq<Step>)
    ensures IsRegular(first + rest) <==> IsRegular(first) && IsRegular(rest)
  {
    if IsRegular(first + rest) {
      forall i | 0 <= i < |first| ensures IsRegularStep(first[i]) { assert IsRegularStep((first + rest)[i]); }
      forall i | 0 <= i < |rest| ensures IsRegularStep(rest[i]) { assert IsRegularStep((first + rest)[|first| + i]); }
    }
  }

  /** The class of a path of which a part has been read, and was regular or not. */
  function ClassAfter(regularSoFar: bool, rest: Parsed): Validated {
    if regularSoFar || ClassOf(rest) != Regular then ClassOf(rest) else Wildcard
  }

  lemma ClassStep(regularSoFar: bool, first: seq<Step>, rest: Parsed)
    ensures ClassAfter(regularSoFar, Then(first, rest)) == ClassAfter(regularSoFar && IsRegular(first), rest)
  {
    if rest.Steps? {
      RegularThen(first, rest.steps);
    }
  }

  lemma ValidateKey(regularSoFar: bool, p: string, ptr: nat)
    requires ptr + 1 < |p| && p[ptr] == '.'
    ensures var key := KeyAt(p, ptr + 1);
            ClassAfter(regularSoFar, Parse(p, ptr)) ==
            if !key.IsValid() then PathError
            else ClassAfter(regularSoFar && !key.IsWildCard() && !key.recursive, Parse(p, ptr + 1 + key.charsRead))
  {
    hide KeyAt;
    var key := KeyAt(p, ptr + 1);
    if key.IsValid() {
      ClassStep(regularSoFar, KeySteps(key), Parse(p, ptr + 1 + key.charsRead));
      if key.IsWildCard() || key.recursive { assert !IsRegularStep(KeySteps(key)[0]); }
    }
  }

  lemma ValidateIndex(regularSoFar: bool, p: string, ptr: nat)
    requires ptr + 1 < |p| && p[ptr] == '['
    ensures var index := IndexAt(p, ptr + 1);
            ClassAfter(regularSoFar, Parse(p, ptr)) ==
            if index.None? then PathError
            else if index.value.next > |p| then OutOfBounds
            else ClassAfter(regularSoFar && index.value.index != INVALID_INDEX, Parse(p, index.value.next))
  {
    hide IndexAt;
    var index := IndexAt(p, ptr + 1);
    if index.Some? && index.value.next <= |p| {
      ClassStep(regularSoFar, [IndexStep(index.value)], Parse(p, index.value.next));
      if index.value.index == INVALID_INDEX { assert !IsRegularStep([IndexStep(index.value)][0]); }
    }
  }

  lemma ValidateRest(regularSoFar: bool, p: string, ptr: nat)
    requires ptr <= |p| && (ptr + 1 < |p| ==> p[ptr] != '.' && p[ptr] != '[')
    ensures ClassAfter(regularSoFar, Parse(p, ptr)) ==
            if ptr < |p| then PathError else if regularSoFar then Regular else Wildcard
  {
  }

  /** Reads the whole path; the loop ends by itself on every path that stays inside its bounds. */
  method ValidatePath(p: string) returns (pathType: Validated)
    requires |p| >= 1 && p[0] == '$'
    ensures pathType == ClassOf(Parse(p, 1))
  {
    hide Parse, ClassOf, KeyAt, IndexAt;
    var regular := true;
    var ptr := 1;
    while ptr != |p|
      invariant 1 <= ptr <= |p|
      invariant ClassOf(Parse(p, 1)) == ClassAfter(regular, Parse(p, ptr))
      decreases |p| - ptr
    {
      var c := p[ptr];
      ptr := ptr + 1;
      if ptr == |p| {
        ValidateRest(regular, p, ptr - 1);
        return PathError;
      }
      if c == '.' {
        ValidateKey(regular, p, ptr - 1);
        var key := ReadKey(p, ptr);
        if !key.IsValid() {
          return PathError;
        }
        if key.IsWildCard() || key.recursive {
          regular := false;
        }
        ptr := ptr + key.charsRead;
      } else if c == '[' {
        ValidateIndex(regular, p, ptr - 1);
        var ok, next, arrayIndex, fromBack := ReadArrayIndex(p, ptr);
        if !ok {
          return PathError;
        }
        if next > |p| {
          return OutOfBounds;
        }
        if arrayIndex == INVALID_INDEX {
          regular := false;
        }
        ptr := next;
      } else {
        ValidateRest(regular, p, ptr - 1);
        return PathError;
      }
    }
    ValidateRest(regular, p, ptr);
    pathType := if regular then Regular else Wildcard;
  }

  // ----- extraction of one value -----------------------------------------------------------------

  /** Unsigned 64-bit subtraction of two values of that type. */
  function SubtractU64(a: nat, b: nat): int {
    if b <= a then a - b else a - b + IDX_T_MAX + 1
  }

  /** The element at an index that counts from the front or from the back. */
  function ArrayGet(elements: seq<Value>, arrayIndex: nat, fromBack: bool): Option<Value> {
    var index := if fromBack && arrayIndex != 0 then SubtractU64(|elements|, arrayIndex) else arrayIndex;
    if 0 <= index < |elements| then Some(elements[index]) else None
  }

  /** An index from the back that is larger than the array wraps around and selects nothing. */
  lemma ArrayGetSelects(v: Value, r: IndexRead, rest: seq<Step>)
    requires r.index < INVALID_INDEX
    ensures Selected(v, [IndexStep(r)] + rest) ==
            if v.Arr? then SelectedFrom(ArrayGet(v.elements, r.index, r.fromBack), rest) else []
  {
    if r.fromBack && r.index != 0 {
      FromBackSelects(v, r.index, rest);
      if v.Arr? { BackIndexWraps(v.elements, r.index); }
    } else {
      IndexSelects(v, r.index, rest);
    }
    hide Selected, SubtractU64;
  }

  lemma IndexSelects(v: Value, n: nat, rest: seq<Step>)
    ensures Selected(v, [Index(n)] + rest) == if v.Arr? && n < |v.elements| then Selected(v.elements[n], rest) else []
  {
    hide LevelOrder, SelectedFromAll, Lookup, Children;
    assert ([Index(n)] + rest)[1..] == rest;
  }

  lemma FromBackSelects(v: Value, n: nat, rest: seq<Step>)
    ensures Selected(v, [FromBack(n)] + rest) ==
            if v.Arr? && 0 < n <= |v.elements| then Selected(v.elements[|v.elements| - n], rest) else []
  {
    hide LevelOrder, SelectedFromAll, Lookup, Children;
    assert ([FromBack(n)] + rest)[1..] == rest;
  }

  /** What counting from the back by subtraction finds. */
  lemma BackIndexWraps(elements: seq<Value>, n: nat)
    requires 0 < n < INVALID_INDEX
    ensures ArrayGet(elements, n, true) == if n <= |elements| then Some(elements[|elements| - n]) else None
  {
  }

  lemma LookupSelects(v: Value, key: string, rest: seq<Step>)
    ensures Selected(v, [Field(key)] + rest) == if v.Obj? then SelectedFrom(Lookup(v.members, key), rest) else []
  {
    hide LevelOrder, SelectedFromAll, Lookup, Children;
    assert ([Field(key)] + rest)[1..] == rest;
  }

  /** One step of a regular path: it selects at most `next`, and the rest goes on from there. */
  ghost predicate StepsTo(v: Value, whole: Parsed, next: Option<Value>, rest: Parsed) {
    && whole.Steps? && rest.Steps? && IsRegular(rest.steps)
    && Selected(v, whole.steps) == SelectedFrom(next, rest.steps)
  }

  /** One object step of a regular path. */
  lemma RegularField(v: Value, p: string, ptr: nat)
    requires ptr < |p| && p[ptr] == '.' && Parse(p, ptr).Steps? && IsRegular(Parse(p, ptr).steps)
    ensures ptr + 1 < |p| && KeyAt(p, ptr + 1).IsValid()
    ensures StepsTo(v, Parse(p, ptr), if v.Obj? then Lookup(v.members, KeyAt(p, ptr + 1).key) else None,
                    Parse(p, ptr + 1 + KeyAt(p, ptr + 1).charsRead))
  {
    hide Selected, Parse, KeyAt;
    ParseField(p, ptr);
    var key := KeyAt(p, ptr + 1);
    var rest := Parse(p, ptr + 1 + key.charsRead).steps;
    RegularThen(KeySteps(key), rest);
    assert IsRegularStep(KeySteps(key)[0]);
    LookupSelects(v, key.key, rest);
  }

  /** One array step of a regular path. */
  lemma RegularIndex(v: Value, p: string, ptr: nat)
    requires ptr < |p| && p[ptr] == '[' && Parse(p, ptr).Steps? && IsRegular(Parse(p, ptr).steps)
    ensures ptr + 1 < |p| && IndexAt(p, ptr + 1).Some? && IndexAt(p, ptr + 1).value.next <= |p|
    ensures var index := IndexAt(p, ptr + 1).value;
            StepsTo(v, Parse(p, ptr), if v.Arr? then ArrayGet(v.elements, index.index, index.fromBack)
                else None, Parse(p, index.next))
  {
    hide Selected, Parse, IndexAt, ArrayGet;
    ParseIndex(p, ptr);
    WildcardIndex(p, ptr + 1);
    Pow10Safe();
    var index := IndexAt(p, ptr + 1).value;
    var rest := Parse(p, index.next).steps;
    RegularThen([IndexStep(index)], rest);
    assert IsRegularStep([IndexStep(index)][0]);
    ArrayGetSelects(v, index, rest);
  }

  lemma ParseStarts(p: string, ptr: nat)
    requires ptr <= |p| && Parse(p, ptr).Steps?
    ensures ptr < |p| ==> Parse(p, ptr).steps != [] && (p[ptr] == '.' || p[ptr] == '[')
    ensures ptr == |p| ==> Parse(p, ptr).steps == []
  {
  }

  lemma SelectedNothing(v: Value)
    ensures Selected(v, []) == [v]
  {
  }

  /** A regular path selects at most one node, the one returned. */
  method GetPath(root: Option<Value>, p: string) returns (val: Option<Value>)
    requires |p| >= 1 && p[0] == '$' && ClassOf(Parse(p, 1)) == Regular
    ensures SelectedFrom(root, Parse(p, 1).steps) == if val.Some? then [val.value] else []
  {
    hide Parse, KeyAt, IndexAt, Selected, ArrayGet, Lookup, IsRegular;
    val := root;
    var ptr := 1;
    while val.Some? && ptr != |p|
      invariant 1 <= ptr <= |p| && Parse(p, ptr).Steps? && IsRegular(Parse(p, ptr).steps)
      invariant SelectedFrom(root, Parse(p, 1).steps) == SelectedFrom(val, Parse(p, ptr).steps)
      decreases |p| - ptr
    {
      ParseStarts(p, ptr);
      var c := p[ptr];
      ptr := ptr + 1;
      if c == '.' {
        RegularField(val.value, p, ptr - 1);
        if !val.value.Obj? {
          return None;
        }
        var keyResult := ReadKey(p, ptr);
        assert keyResult.IsValid();
        ptr := ptr + keyResult.charsRead;
        val := Lookup(val.value.members, keyResult.key);
      } else if c == '[' {
        RegularIndex(val.value, p, ptr - 1);
        if !val.value.Arr? {
          return None;
        }
        var success, next, arrayIndex, fromBack := ReadArrayIndex(p, ptr);
        assert success;
        ptr := next;
        val := ArrayGet(val.value.elements, arrayIndex, fromBack);
      } else {
        assert false;
      }
    }
    if val.Some? {
      ParseStarts(p, ptr);
      SelectedNothing(val.value);
    }
  }

  // ----- extraction of all values ----------------------------------------------------------------

  /** The growing list of results, shared by all recursive calls. */
  class ValueList {
    var items: seq<Value>

    constructor ()
      ensures items == []
    {
      items := [];
    }

    method Append(v: Value)
      modifies this
      ensures items == old(items) + [v]
    {
      items := items + [v];
    }
  }

  lemma {:induction false} SelectedFromAllSnoc(vs: seq<Value>, v: Value, steps: seq<Step>)
    ensures SelectedFromAll(vs + [v], steps) == SelectedFromAll(vs, steps) + Selected(v, steps)
  {
    hide Selected;
    if vs == [] {
      assert [v][1..] == [];
    } else {
      assert (vs + [v])[1..] == vs[1..] + [v];
      SelectedFromAllSnoc(vs[1..], v, steps);
    }
  }

  lemma BranchSelects(v: Value, s: Step, rest: seq<Step>)
    requires s.AnyField? || s.AnyElement?
    ensures Selected(v, [s] + rest) ==
            if (v.Obj? && s.AnyField?) || (v.Arr? && s.AnyElement?) then SelectedFromAll(Children(v), rest) else []
  {
    assert ([s] + rest)[1..] == rest;
  }

  lemma DescendSelects(v: Value, rest: seq<Step>)
    ensures |LevelOrder([v])| > 0
    ensures Selected(v, [Descend] + rest) ==
            if rest == [] then LevelOrder([v])[1..] else SelectedFromAll(LevelOrder([v]), rest)
  {
    assert LevelOrder([v])[0] == v;
    assert ([Descend] + rest)[1..] == rest;
  }

  lemma ParseKey(p: string, ptr: nat)
    requires ptr + 1 < |p| && p[ptr] == '.' && KeyAt(p, ptr + 1).IsValid()
    ensures var key := KeyAt(p, ptr + 1);
            Parse(p, ptr) == Then(KeySteps(key), Parse(p, ptr + 1 + key.charsRead))
  {
    hide KeyAt, IndexAt, KeySteps, Then;
  }

  /** After `..key` the key is read a second time, from the second dot. */
  lemma ParseSecondDot(p: string, ptr: nat)
    requires ptr < |p| && p[ptr] == '.' && Parse(p, ptr).Steps?
    requires KeyAt(p, ptr + 1).recursive && !KeyAt(p, ptr + 1).IsWildCard()
    ensures Parse(p, ptr + 1).Steps? && Parse(p, ptr).steps == [Descend] + Parse(p, ptr + 1).steps
  {
    hide KeyAt, Parse;
    ParseField(p, ptr);
    KeyAfterSecondDot(p, ptr + 1);
    var key := KeyAt(p, ptr + 1);
    var rest := Parse(p, ptr + 1 + key.charsRead);
    ParseKey(p, ptr + 1);
    assert [Descend, Field(key.key)] + rest.steps == [Descend] + ([Field(key.key)] + rest.steps);
  }

  /** Evaluate the rest of the path from every value in turn. */
  method GetFromAll(vs: seq<Value>, p: string, ptr: nat, vals: ValueList)
    requires ptr <= |p| && Parse(p, ptr).Steps?
    modifies vals
    ensures vals.items == old(vals.items) + SelectedFromAll(vs, Parse(p, ptr).steps)
    decreases |p| - ptr, 1
  {
    hide Parse, Selected;
    for i := 0 to |vs|
      invariant vals.items == old(vals.items) + SelectedFromAll(vs[..i], Parse(p, ptr).steps)
    {
      GetWildcardPathInternal(Some(vs[i]), p, ptr, vals);
      SelectedFromAllSnoc(vs[..i], vs[i], Parse(p, ptr).steps);
      assert vs[..i + 1] == vs[..i] + [vs[i]];
    }
    assert vs[..|vs|] == vs;
  }

  /** Evaluate the rest of the path from `v` and all its descendants, listed in a worklist that grows
      while it is traversed; `v` itself is left out when the path ends here. */
  method GetFromDescendants(v: Value, p: string, ptr: nat, vals: ValueList)
    requires ptr <= |p| && Parse(p, ptr).Steps?
    modifies vals
    ensures vals.items == old(vals.items) + Selected(v, [Descend] + Parse(p, ptr).steps)
    decreases |p| - ptr, 1
  {
    hide Parse, Selected, Reported, Visiting, ForestSize;
    var recVals := [v];
    var i := 0;
    ghost var steps := Parse(p, ptr).steps;
    VisitStarts(v);
    ParseStarts(p, ptr);
    NothingReported(steps);
    while i < |recVals|
      invariant i <= |recVals| && Visiting(v, recVals, i)
      invariant vals.items == old(vals.items) + Reported(recVals[..i], steps)
      decreases ForestSize(recVals[i..])
    {
      var recVal := recVals[i];
      VisitGrows(v, recVals, i);
      ReportedSnoc(recVals[..i], recVal, steps);
      recVals := recVals + Children(recVal);
      if i > 0 || ptr != |p| {
        GetWildcardPathInternal(Some(recVal), p, ptr, vals);
      }
      i := i + 1;
    }
    VisitEnds(v, recVals, i);
    AllReported(v, recVals, steps);
  }

  /** The first `i` nodes of a worklist have been visited; the others and theirs are still to come. */
  ghost predicate Visiting(v: Value, nodes: seq<Value>, i: nat)
    requires i <= |nodes|
  {
    nodes[..i] + Worklist(nodes[i..]) == Worklist([v])
  }

  lemma VisitStarts(v: Value)
    ensures Visiting(v, [v], 0) && [v][..0] == []
  {
    assert [v][0..] == [v] && [] + Worklist([v]) == Worklist([v]);
  }

  lemma VisitGrows(v: Value, nodes: seq<Value>, i: nat)
    requires i < |nodes| && Visiting(v, nodes, i)
    ensures var grown := nodes + Children(nodes[i]);
            && Visiting(v, grown, i + 1)
            && ForestSize(grown[i + 1..]) < ForestSize(nodes[i..])
            && grown[..i + 1] == nodes[..i] + [nodes[i]]
  {
    hide Worklist, ForestSize, Children;
    WorklistGrows(nodes, i);
  }

  lemma VisitEnds(v: Value, nodes: seq<Value>, i: nat)
    requires i == |nodes| && Visiting(v, nodes, i)
    ensures nodes == Worklist([v]) && nodes[..i] == nodes
  {
    assert nodes[i..] == [] && nodes[..i] == nodes && nodes + [] == nodes;
  }

  lemma AllReported(v: Value, nodes: seq<Value>, steps: seq<Step>)
    requires nodes == Worklist([v])
    ensures Reported(nodes, steps) == Selected(v, [Descend] + steps)
  {
    hide Selected, Worklist;
    WorklistIsLevelOrder([v]);
    DescendSelects(v, steps);
  }

  /** What a descent reports for its nodes so far. */
  ghost function Reported(nodes: seq<Value>, steps: seq<Step>): seq<Value> {
    if steps != [] then SelectedFromAll(nodes, steps) else if nodes == [] then [] else nodes[1..]
  }

  lemma NothingReported(steps: seq<Step>)
    ensures Reported([], steps) == []
  {
  }

  lemma ReportedSnoc(nodes: seq<Value>, v: Value, steps: seq<Step>)
    ensures Reported(nodes + [v], steps) == Reported(nodes, steps) +
            if nodes == [] && steps == [] then [] else Selected(v, steps)
  {
    if steps != [] {
      SelectedFromAllSnoc(nodes, v, steps);
    }
  }

  lemma GrownSlices(nodes: seq<Value>, i: nat, children: seq<Value>)
    requires i < |nodes|
    ensures (nodes + children)[..i + 1] == nodes[..i] + [nodes[i]]
    ensures (nodes + children)[i + 1..] == nodes[i + 1..] + children
    ensures nodes[i..] == [nodes[i]] + nodes[i + 1..]
  {
  }

  lemma WorklistGrows(nodes: seq<Value>, i: nat)
    requires i < |nodes|
    ensures var grown := nodes + Children(nodes[i]);
            && grown[..i + 1] + Worklist(grown[i + 1..]) == nodes[..i] + Worklist(nodes[i..])
            && ForestSize(grown[i + 1..]) < ForestSize(nodes[i..])
            && grown[..i + 1] == nodes[..i] + [nodes[i]]
  {
    hide Worklist, ForestSize, Children;
    var queue, children := nodes[i + 1..], Children(nodes[i]);
    GrownSlices(nodes, i, children);
    WorklistStep(nodes[i], queue);
    ConcatAssociative(nodes[..i], [nodes[i]], Worklist(queue + children));
    ForestShrinks(nodes[i], queue);
  }

  lemma ForestShrinks(v: Value, queue: seq<Value>)
    ensures ForestSize(queue + Children(v)) < ForestSize([v] + queue)
  {
    ForestSizeConcat(queue, Children(v));
    ForestSizeConcat([v], queue);
    SizeOfChildren(v);
    assert [v][1..] == [];
  }

  method GetWildcardPathInternal(root: Option<Value>, p: string, at: nat, vals: ValueList)
    requires at <= |p| && Parse(p, at).Steps?
    modifies vals
    ensures vals.items == old(vals.items) + SelectedFrom(root, Parse(p, at).steps)
    decreases |p| - at, 0
  {
    hide Parse, KeyAt, IndexAt, Selected, ArrayGet, Lookup;
    var val := root;
    var ptr := at;
    while val.Some? && ptr != |p|
      invariant at <= ptr <= |p| && Parse(p, ptr).Steps?
      invariant SelectedFrom(root, Parse(p, at).steps) == SelectedFrom(val, Parse(p, ptr).steps)
      invariant vals.items == old(vals.items)
      decreases |p| - ptr
    {
      ParseStarts(p, ptr);
      var c := p[ptr];
      ptr := ptr + 1;
      if c == '.' {
        ParseField(p, ptr - 1);
        var keyResult := ReadKey(p, ptr);
        assert keyResult.IsValid();
        if keyResult.recursive {
          if keyResult.IsWildCard() {
            ptr := ptr + keyResult.charsRead;
          } else {
            ParseSecondDot(p, ptr - 1);
          }
          GetFromDescendants(val.value, p, ptr, vals);
          return;
        }
        ptr := ptr + keyResult.charsRead;
        FieldSelects(val.value, keyResult, Parse(p, ptr).steps);
        if !val.value.Obj? {
          return;
        }
        if keyResult.IsWildCard() {
          GetFromAll(Children(val.value), p, ptr, vals);
          return;
        }
        val := Lookup(val.value.members, keyResult.key);
      } else if c == '[' {
        ParseIndex(p, ptr - 1);
        ElementSelects(val.value, p, ptr);
        if !val.value.Arr? {
          return;
        }
        var success, next, arrayIndex, fromBack := ReadArrayIndex(p, ptr);
        assert success;
        ptr := next;
        if arrayIndex == INVALID_INDEX {
          GetFromAll(val.value.elements, p, ptr, vals);
          return;
        }
        val := ArrayGet(val.value.elements, arrayIndex, fromBack);
      } else {
        assert false;
      }
    }
    if val.Some? {
      ParseStarts(p, ptr);
      SelectedNothing(val.value);
      vals.Append(val.value);
    }
  }

  lemma FieldSelects(v: Value, key: KeyRead, rest: seq<Step>)
    requires !key.recursive
    ensures Selected(v, KeySteps(key) + rest) ==
            if !v.Obj? then []
            else if key.IsWildCard() then SelectedFromAll(Children(v), rest)
            else SelectedFrom(Lookup(v.members, key.key), rest)
  {
    hide Selected;
    if key.IsWildCard() {
      BranchSelects(v, AnyField, rest);
    } else {
      LookupSelects(v, key.key, rest);
    }
  }

  lemma ElementSelects(v: Value, p: string, ptr: nat)
    requires ptr < |p| && IndexAt(p, ptr).Some? && IndexAt(p, ptr).value.next <= |p|
    requires Parse(p, IndexAt(p, ptr).value.next).Steps?
    ensures var index := IndexAt(p, ptr).value;
            var rest := Parse(p, index.next).steps;
            Selected(v, [IndexStep(index)] + rest) ==
            if !v.Arr? then []
            else if index.index == INVALID_INDEX then SelectedFromAll(v.elements, rest)
            else SelectedFrom(ArrayGet(v.elements, index.index, index.fromBack), rest)
  {
    hide Selected, Parse, IndexAt, ArrayGet;
    WildcardIndex(p, ptr);
    Pow10Safe();
    var index := IndexAt(p, ptr).value;
    var rest := Parse(p, index.next).steps;
    if index.index == INVALID_INDEX {
      BranchSelects(v, AnyElement, rest);
    } else {
      ArrayGetSelects(v, index, rest);
    }
  }

  /** The values a validated path selects are appended in order. */
  method GetWildcardPath(root: Option<Value>, p: string, vals: ValueList)
    requires |p| >= 1 && p[0] == '$' && (ClassOf(Parse(p, 1)) == Regular || ClassOf(Parse(p, 1)) == Wildcard)
    modifies vals
    ensures vals.items == old(vals.items) + SelectedFrom(root, Parse(p, 1).steps)
  {
    GetWildcardPathInternal(root, p, 1, vals);
  }
}
