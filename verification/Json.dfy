/**
  JSON values as trees, and the orders in which their nodes are visited.
*/
module Json {
  import opened Common

  /** Members keep their order; keys may repeat. */
  datatype Member = Member(key: string, value: Value)
  datatype Value = Scalar(text: string) | Arr(elements: seq<Value>) | Obj(members: seq<Member>)

  function MemberValues(members: seq<Member>): (values: seq<Value>)
    ensures |values| == |members| && forall i :: 0 <= i < |members| ==> values[i] == members[i].value
  {
    if members == [] then [] else [members[0].value] + MemberValues(members[1..])
  }

  /** The values directly inside `v`, in document order. */
  function Children(v: Value): seq<Value> {
    match v
    case Scalar(_) => []
    case Arr(elements) => elements
    case Obj(members) => MemberValues(members)
  }

  /** The first member with this key. */
  function Lookup(members: seq<Member>, key: string): Option<Value> {
    if members == [] then None
    else if members[0].key == key then Some(members[0].value)
    else Lookup(members[1..], key)
  }

  // ----- sizes -----------------------------------------------------------------------------------

  /** The number of nodes of a tree. */
  ghost function Size(v: Value): nat
    decreases v
  {
    1 + match v
        case Scalar(_) => 0
        case Arr(elements) => SizeOfElements(elements)
        case Obj(members) => SizeOfMembers(members)
  }

  ghost function SizeOfElements(vs: seq<Value>): nat
    decreases vs
  {
    if vs == [] then 0 else Size(vs[0]) + SizeOfElements(vs[1..])
  }

  ghost function SizeOfMembers(ms: seq<Member>): nat
    decreases ms
  {
    if ms == [] then 0 else Size(ms[0].value) + SizeOfMembers(ms[1..])
  }

  ghost function ForestSize(vs: seq<Value>): nat {
    if vs == [] then 0 else Size(vs[0]) + ForestSize(vs[1..])
  }

  lemma {:induction false} ForestSizeConcat(a: seq<Value>, b: seq<Value>)
    ensures ForestSize(a + b) == ForestSize(a) + ForestSize(b)
  {
    if a == [] {
      assert a + b == b;
    } else {
      assert (a + b)[1..] == a[1..] + b;
      ForestSizeConcat(a[1..], b);
    }
  }

  lemma {:induction false} SizeOfElementsIsForestSize(vs: seq<Value>)
    ensures SizeOfElements(vs) == ForestSize(vs)
  {
    if vs != [] {
      SizeOfElementsIsForestSize(vs[1..]);
    }
  }

  lemma {:induction false} SizeOfMembersIsForestSize(ms: seq<Member>)
    ensures SizeOfMembers(ms) == ForestSize(MemberValues(ms))
  {
    if ms != [] {
      SizeOfMembersIsForestSize(ms[1..]);
      assert MemberValues(ms)[1..] == MemberValues(ms[1..]);
    }
  }

  /** A node is its own tree's root plus the forest of its children. */
  lemma SizeOfChildren(v: Value)
    ensures Size(v) == 1 + ForestSize(Children(v))
  {
    match v
    case Scalar(_) =>
    case Arr(elements) => SizeOfElementsIsForestSize(elements);
    case Obj(members) => SizeOfMembersIsForestSize(members);
  }

  // ----- orders ----------------------------------------------------------------------------------

  /** The children of all nodes of one level. */
  ghost function NextLevel(vs: seq<Value>): seq<Value> {
    if vs == [] then [] else Children(vs[0]) + NextLevel(vs[1..])
  }

  lemma {:induction false} NextLevelShrinks(vs: seq<Value>)
    ensures ForestSize(NextLevel(vs)) + |vs| == ForestSize(vs)
  {
    if vs != [] {
      NextLevelShrinks(vs[1..]);
      SizeOfChildren(vs[0]);
      ForestSizeConcat(Children(vs[0]), NextLevel(vs[1..]));
    }
  }

  /** All nodes of a forest, level by level. */
  ghost function LevelOrder(level: seq<Value>): seq<Value>
    decreases ForestSize(level)
  {
    NextLevelShrinks(level);
    if level == [] then [] else level + LevelOrder(NextLevel(level))
  }

  /** All nodes of a forest, every root followed by its descendants. */
  ghost function Preorder(vs: seq<Value>): seq<Value>
    decreases ForestSize(vs)
  {
    if vs == [] then []
    else
      SizeOfChildren(vs[0]);
      [vs[0]] + Preorder(Children(vs[0])) + Preorder(vs[1..])
  }

  /** The nodes taken from the front of a queue to whose end the children of every node taken are
      added. */
  ghost function Worklist(queue: seq<Value>): seq<Value>
    decreases ForestSize(queue)
  {
    if queue == [] then []
    else
      SizeOfChildren(queue[0]);
      ForestSizeConcat(queue[1..], Children(queue[0]));
      [queue[0]] + Worklist(queue[1..] + Children(queue[0]))
  }

  lemma WorklistStep(first: Value, queue: seq<Value>)
    ensures Worklist([first] + queue) == [first] + Worklist(queue + Children(first))
  {
    assert ([first] + queue)[1..] == queue;
  }

  lemma NextLevelStep(first: Value, level: seq<Value>)
    ensures NextLevel([first] + level) == Children(first) + NextLevel(level)
  {
    assert ([first] + level)[1..] == level;
  }

  /** A worklist that still holds `rest` of one level and already holds `next` of the level below. */
  lemma {:induction false} WorklistWithinLevel(rest: seq<Value>, next: seq<Value>)
    ensures Worklist(rest + next) == rest + Worklist(next + NextLevel(rest))
    decreases |rest|
  {
    if rest == [] {
      assert rest + next == next && next + NextLevel(rest) == next;
      assert rest + Worklist(next) == Worklist(next);
    } else {
      hide Worklist, NextLevel, Children;
      var first, rest' := rest[0], rest[1..];
      var children := Children(first);
      assert rest == [first] + rest';
      ConcatAssociative([first], rest', next);
      WorklistStep(first, rest' + next);
      ConcatAssociative(rest', next, children);
      WorklistWithinLevel(rest', next + children);
      NextLevelStep(first, rest');
      ConcatAssociative(next, children, NextLevel(rest'));
      ConcatAssociative([first], rest', Worklist(next + NextLevel(rest)));
    }
  }

  /** A worklist visits its nodes in breadth-first order. */
  lemma {:induction false} WorklistIsLevelOrder(level: seq<Value>)
    ensures Worklist(level) == LevelOrder(level)
    decreases ForestSize(level)
  {
    if level != [] {
      NextLevelShrinks(level);
      WorklistWithinLevel(level, []);
      assert level + [] == level && [] + NextLevel(level) == NextLevel(level);
      WorklistIsLevelOrder(NextLevel(level));
    }
  }

  lemma {:induction false} PreorderConcat(a: seq<Value>, b: seq<Value>)
    ensures Preorder(a + b) == Preorder(a) + Preorder(b)
    decreases |a|
  {
    if a == [] {
      assert a + b == b;
    } else {
      assert (a + b)[1..] == a[1..] + b;
      PreorderConcat(a[1..], b);
    }
  }

  /** A worklist visits every node of the forest exactly once. */
  lemma {:induction false} WorklistVisitsEachNodeOnce(queue: seq<Value>)
    ensures multiset(Worklist(queue)) == multiset(Preorder(queue))
    decreases ForestSize(queue)
  {
    if queue != [] {
      var children := Children(queue[0]);
      SizeOfChildren(queue[0]);
      ForestSizeConcat(queue[1..], children);
      WorklistVisitsEachNodeOnce(queue[1..] + children);
      PreorderConcat(queue[1..], children);
    }
  }
}
