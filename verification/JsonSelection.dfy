/**
  What a JSON path selects, step by step: each step by itself in terms of places in arrays and objects, and
  the steps of a longer path one after the other.
*/
module JsonSelection {
  import opened Common
  import opened Json
  import opened JsonPath

  /** The first place at which an object has this key, or the number of its members. */
  lemma {:induction false} LookupExactly(members: seq<Member>, key: string) returns (first: nat)
    ensures first <= |members| && forall i :: 0 <= i < first ==> members[i].key != key
    ensures first < |members| ==> members[first].key == key && Lookup(members, key) == Some(members[first].value)
    ensures first == |members| ==> Lookup(members, key) == None
  {
    if members == [] || members[0].key == key {
      first := 0;
    } else {
      first := LookupExactly(members[1..], key);
      first := first + 1;
    }
  }

  lemma FieldSelectsFirst(v: Value, key: string)
    ensures if v.Obj? && exists m :: m in v.members && m.key == key then
              exists i :: 0 <= i < |v.members| && v.members[i].key == key
                && (forall j :: 0 <= j < i ==> v.members[j].key != key)
                && Selected(v, [Field(key)]) == [v.members[i].value]
            else Selected(v, [Field(key)]) == []
  {
    assert [Field(key)][1..] == [];
    if v.Obj? {
      var i := LookupExactly(v.members, key);
      hide Lookup;
      if i < |v.members| { assert Selected(v, [Field(key)]) == [v.members[i].value]; }
    }
  }

  lemma AnySelectsAll(v: Value)
    ensures Selected(v, [AnyField]) == if v.Obj? then MemberValues(v.members) else []
    ensures Selected(v, [AnyElement]) == if v.Arr? then v.elements else []
  {
    assert [AnyField][1..] == [] && [AnyElement][1..] == [];
    if v.Obj? { OnlyThemselves(Children(v)); }
    if v.Arr? { OnlyThemselves(v.elements); }
  }

  /** Each step by itself.  A key selects the first member that has it, a position counted from the front or
      from the back one element, a wildcard all members or all elements in document order, a descent
      everything below the value. */
  lemma StepExactly(v: Value, step: Step)
    ensures match step
            case Field(key) =>
              if v.Obj? && exists m :: m in v.members && m.key == key then
                exists i :: 0 <= i < |v.members| && v.members[i].key == key
                  && (forall j :: 0 <= j < i ==> v.members[j].key != key)
                  && Selected(v, [step]) == [v.members[i].value]
              else Selected(v, [step]) == []
            case AnyField =>
              if v.Obj? then
                && |Selected(v, [step])| == |v.members|
                && forall i :: 0 <= i < |v.members| ==> Selected(v, [step])[i] == v.members[i].value
              else Selected(v, [step]) == []
            case Index(n) =>
              Selected(v, [step]) == if v.Arr? && n < |v.elements| then [v.elements[n]] else []
            case FromBack(n) =>
              Selected(v, [step]) ==
              if v.Arr? && 0 < n <= |v.elements| then [v.elements[|v.elements| - n]] else []
            case AnyElement => Selected(v, [step]) == if v.Arr? then v.elements else []
            case Descend => [v] + Selected(v, [step]) == Worklist([v])
  {
    match step {
      case Field(key) => FieldSelectsFirst(v, key);
      case AnyField => AnySelectsAll(v);
      case AnyElement => AnySelectsAll(v);
      case Descend =>
        DescentIsExhaustive(v);
        WorklistIsLevelOrder([v]);
      case _ => assert [step][1..] == [];
    }
  }

  lemma {:induction false} OnlyThemselves(vs: seq<Value>)
    ensures SelectedFromAll(vs, []) == vs
  {
    if vs != [] { OnlyThemselves(vs[1..]); }
  }

  /** What is selected from each of the values. */
  ghost function FromEach(vs: seq<Value>, steps: seq<Step>): seq<seq<Value>> {
    seq(|vs|, i requires 0 <= i < |vs| => Selected(vs[i], steps))
  }

  lemma {:induction false} SelectedFromEach(vs: seq<Value>, steps: seq<Step>)
    ensures SelectedFromAll(vs, steps) == Flatten(FromEach(vs, steps))
  {
    if vs != [] {
      SelectedFromEach(vs[1..], steps);
      assert FromEach(vs, steps)[1..] == FromEach(vs[1..], steps);
    }
  }

  lemma {:induction false} FromAllConcat(a: seq<Value>, b: seq<Value>, steps: seq<Step>)
    ensures SelectedFromAll(a + b, steps) == SelectedFromAll(a, steps) + SelectedFromAll(b, steps)
  {
    hide Selected;
    if a == [] {
      assert a + b == b;
    } else {
      assert (a + b)[1..] == a[1..] + b;
      FromAllConcat(a[1..], b, steps);
    }
  }

  /** A path that goes on after these steps: unless they end in a descent, which leaves out the value it
      begins with only at the end of a path. */
  ghost predicate GoesOn(steps: seq<Step>) {
    steps == [] || !steps[|steps| - 1].Descend?
  }

  lemma {:induction false} Composes(v: Value, a: seq<Step>, b: seq<Step>)
    requires GoesOn(a)
    ensures Selected(v, a + b) == SelectedFromAll(Selected(v, a), b)
    decreases |a|, 0
  {
    if a == [] {
      assert a + b == b;
      OnlyOne(v, b);
    } else {
      var rest := a[1..];
      assert (a + b)[1..] == rest + b;
      match a[0] {
        case Field(key) =>
          if v.Obj? && Lookup(v.members, key).Some? { Composes(Lookup(v.members, key).value, rest, b); }
        case Index(n) => if v.Arr? && n < |v.elements| { Composes(v.elements[n], rest, b); }
        case FromBack(n) =>
          if v.Arr? && 0 < n <= |v.elements| { Composes(v.elements[|v.elements| - n], rest, b); }
        case AnyField => AllCompose(Children(v), rest, b);
        case AnyElement => if v.Arr? { AllCompose(v.elements, rest, b); }
        case Descend =>
          assert rest != [] && rest + b != [];
          AllCompose(LevelOrder([v]), rest, b);
      }
    }
  }

  lemma OnlyOne(v: Value, steps: seq<Step>)
    ensures SelectedFromAll([v], steps) == Selected(v, steps)
  {
    assert SelectedFromAll([v][1..], steps) == [];
  }

  lemma {:induction false} AllCompose(vs: seq<Value>, a: seq<Step>, b: seq<Step>)
    requires GoesOn(a)
    ensures SelectedFromAll(vs, a + b) == SelectedFromAll(SelectedFromAll(vs, a), b)
    decreases |a|, |vs| + 1
  {
    hide Selected;
    if vs != [] {
      Composes(vs[0], a, b);
      AllCompose(vs[1..], a, b);
      FromAllConcat(Selected(vs[0], a), SelectedFromAll(vs[1..], a), b);
    }
  }

  /** A path selects what its end selects from each value that its beginning selects, in that order. */
  lemma PathsCompose(v: Value, a: seq<Step>, b: seq<Step>)
    ensures GoesOn(a) ==> Selected(v, a + b) == Flatten(FromEach(Selected(v, a), b))
    ensures b != [] ==> Selected(v, [Descend] + b) == Flatten(FromEach([v] + Selected(v, [Descend]), b))
  {
    hide Selected, SelectedFromAll;
    if GoesOn(a) {
      Composes(v, a, b);
      SelectedFromEach(Selected(v, a), b);
    }
    if b != [] {
      DescendSelects(v, b);
      DescentIsExhaustive(v);
      SelectedFromEach(LevelOrder([v]), b);
    }
  }
}
