/**
  Which paths are read past their end: an index is read for at most nineteen digits, and the character after
  them is taken for the closing bracket.
*/
module JsonPathBounds {
  import opened Common
  import opened JsonPathReader
  import opened JsonPath

  /** The path ends inside the brackets that open at `i`, after nineteen digits. */
  predicate OpenIndexAt(p: string, i: nat) {
    && i + 1 < |p| && p[i] == '[' && NumberStart(p, i + 1).Some?
    && NumberStart(p, i + 1).value + IDX_T_SAFE_DIG == |p| && AllDigits(p[NumberStart(p, i + 1).value..])
  }

  /** A path leaves its bounds only by such an index. */
  lemma {:induction false} StaysInside(p: string, ptr: nat)
    requires ptr <= |p| && Parse(p, ptr).PastEnd?
    ensures exists i :: ptr <= i < |p| && OpenIndexAt(p, i)
    decreases |p| - ptr
  {
    hide KeyAt, IndexAt, OpenIndexAt;
    if p[ptr] == '.' {
      StaysInside(p, ptr + 1 + KeyAt(p, ptr + 1).charsRead);
    } else if IndexAt(p, ptr + 1).value.next > |p| {
      OpensHere(p, ptr);
    } else {
      StaysInside(p, IndexAt(p, ptr + 1).value.next);
    }
  }

  lemma OpensHere(p: string, ptr: nat)
    requires ptr + 1 < |p| && p[ptr] == '[' && IndexAt(p, ptr + 1).Some? && IndexAt(p, ptr + 1).value.next > |p|
    ensures OpenIndexAt(p, ptr)
  {
    hide IndexAt;
    IndexLeavesPath(p, ptr + 1);
  }

  /** No key reaches into an open index. */
  lemma KeyStops(p: string, k: nat, i: nat)
    requires OpenIndexAt(p, i) && k <= i && KeyAt(p, k).IsValid()
    ensures k + KeyAt(p, k).charsRead <= i
  {
    hide NumberStart;
    OpenIndexTail(p, i);
    if p[k] == '.' {
      if NamedKeyAt(p, k + 1).IsValid() { NamedKeyStops(p, k + 1, i); }
    } else if p[k] != '*' {
      NamedKeyStops(p, k, i);
    }
  }

  lemma NamedKeyStops(p: string, k: nat, i: nat)
    requires OpenIndexAt(p, i) && k <= i && NamedKeyAt(p, k).IsValid()
    ensures k + NamedKeyAt(p, k).charsRead <= i
  {
    hide NumberStart, QuotedAt;
    OpenIndexTail(p, i);
  }

  lemma OpenIndexTail(p: string, i: nat)
    requires OpenIndexAt(p, i)
    ensures forall j :: i < j < |p| ==> p[j] == '#' || p[j] == '-' || IsDigit(p[j])
    ensures i + 2 < |p| && p[i] == '['
  {
    var n := NumberStart(p, i + 1).value;
    forall j | n <= j < |p| ensures IsDigit(p[j]) {
      assert p[j] == p[n..][j - n];
    }
  }

  lemma OpenBracket(p: string, i: nat)
    requires OpenIndexAt(p, i)
    ensures i + 2 < |p| && p[i] == '['
  {
    OpenIndexTail(p, i);
  }

  /** An index that closes before the open one, or runs into it and takes its bracket for its own. */
  lemma IndexStops(p: string, k: nat, i: nat)
    requires OpenIndexAt(p, i) && k <= i && IndexAt(p, k).Some?
    ensures IndexAt(p, k).value.next <= i + 1
  {
    if NumberStart(p, k).Some? {
      var n := NumberStart(p, k).value;
      DigitsEndBefore(p, n, i);
    }
  }

  lemma DigitsEndBefore(p: string, n: nat, i: nat)
    requires n <= i < |p| && !IsDigit(p[i])
    ensures n + IntegerLength(p, n) <= i
  {
  }

  /** A path that ends in an open index is never accepted. */
  lemma {:induction false} OpenIsNotAccepted(p: string, ptr: nat, i: nat)
    requires OpenIndexAt(p, i) && ptr <= i
    ensures !Parse(p, ptr).Steps?
    decreases |p| - ptr
  {
    hide KeyAt, IndexAt, OpenIndexAt;
    OpenIndexTail(p, i);
    if p[ptr] == '.' {
      if KeyAt(p, ptr + 1).IsValid() {
        KeyStops(p, ptr + 1, i);
        OpenIsNotAccepted(p, ptr + 1 + KeyAt(p, ptr + 1).charsRead, i);
      }
    } else if p[ptr] == '[' && IndexAt(p, ptr + 1).Some? {
      if ptr == i {
        LeavesHere(p, i);
      } else {
        IndexStops(p, ptr + 1, i);
        if IndexAt(p, ptr + 1).value.next <= i {
          OpenIsNotAccepted(p, IndexAt(p, ptr + 1).value.next, i);
        }
      }
    }
  }

  lemma LeavesHere(p: string, i: nat)
    requires OpenIndexAt(p, i) && IndexAt(p, i + 1).Some?
    ensures IndexAt(p, i + 1).value.next > |p|
  {
    hide IndexAt;
    IndexLeavesPath(p, i + 1);
  }

  // ----- the bracket that would close it ---------------------------------------------------------

  /** Reading before an open index does not notice a bracket added at the end. */
  lemma {:induction false} QuotedAlike(p: string, k: nat)
    requires k <= |p| && p != [] && p[|p| - 1] != '\\'
    ensures QuotedAt(p + "]", k) == QuotedAt(p, k)
    decreases |p| - k
  {
    hide Prefixed;
    if k == |p| {
      assert (p + "]")[k] == ']';
      assert QuotedAt(p + "]", k + 1) == None;
      NothingPrefixed(1, "]");
    } else {
      assert (p + "]")[k] == p[k];
      QuotedAlike(p, k + 1);
      if k + 1 < |p| {
        assert (p + "]")[k + 1] == p[k + 1];
        QuotedAlike(p, k + 2);
      }
    }
  }

  lemma NothingPrefixed(n: nat, key: string)
    ensures Prefixed(n, key, None) == None
  {
  }

  lemma {:induction false} BareAlike(p: string, i: nat, k: nat)
    requires k <= i < |p| && p[i] == '['
    ensures BareLength(p + "]", k) == BareLength(p, k) && k + BareLength(p, k) <= i
    decreases i - k
  {
    assert (p + "]")[k] == p[k];
    if k < i && p[k] != '.' && p[k] != '[' { BareAlike(p, i, k + 1); }
  }

  lemma KeyAlike(p: string, i: nat, k: nat)
    requires OpenIndexAt(p, i) && k <= i
    ensures KeyAt(p + "]", k) == KeyAt(p, k)
  {
    OpenIndexTail(p, i);
    assert forall j :: 0 <= j < |p| ==> (p + "]")[j] == p[j];
    hide OpenIndexAt;
    if p[k] != '*' {
      NamedKeyAlike(p, i, k);
      if p[k] == '.' { NamedKeyAlike(p, i, k + 1); }
    }
    hide NamedKeyAt;
  }

  lemma NamedKeyAlike(p: string, i: nat, k: nat)
    requires OpenIndexAt(p, i) && k <= i
    ensures NamedKeyAt(p + "]", k) == NamedKeyAt(p, k)
  {
    OpenIndexTail(p, i);
    hide OpenIndexAt, QuotedAt, BareLength;
    assert (p + "]")[k] == p[k];
    QuotedAlike(p, k + 1);
    BareAlike(p, i, k);
    assert (p + "]")[k..k + BareLength(p, k)] == p[k..k + BareLength(p, k)];
  }

  lemma {:induction false} RunAlike(p: string, i: nat, k: nat, most: nat)
    requires k <= i < |p| && !IsDigit(p[i])
    ensures DigitRun(p + "]", k, most) == DigitRun(p, k, most) && k + DigitRun(p, k, most) <= i
    decreases i - k
  {
    assert (p + "]")[k] == p[k];
    if k < i && most > 0 && IsDigit(p[k]) { RunAlike(p, i, k + 1, most - 1); }
  }

  lemma NumberAlike(p: string, i: nat, k: nat, fromBack: bool)
    requires k <= i < |p| && !IsDigit(p[i])
    ensures NumberAt(p + "]", k, fromBack) == NumberAt(p, k, fromBack)
  {
    RunAlike(p, i, k, IDX_T_SAFE_DIG);
    assert forall j :: 0 <= j < |p| ==> (p + "]")[j] == p[j];
    var n := IntegerLength(p, k);
    hide DigitRun, DecimalValue;
    assert IntegerLength(p + "]", k) == n;
    assert (p + "]")[k..k + n] == p[k..k + n];
  }

  lemma IndexAlike(p: string, i: nat, k: nat)
    requires OpenIndexAt(p, i) && k <= i
    ensures IndexAt(p + "]", k) == IndexAt(p, k)
  {
    hide OpenIndexAt, NumberAt;
    OpenBracket(p, i);
    assert (p + "]")[k + 1] == p[k + 1] && (p + "]")[k] == p[k];
    if p[k] == '#' {
      if p[k + 1] == '-' { NumberAlike(p, i, k + 2, true); }
    } else if p[k] == '-' {
      NumberAlike(p, i, k + 1, true);
    } else {
      NumberAlike(p, i, k, false);
    }
  }

  /** The open index itself, and the same one closed. */
  lemma OpenAndClosed(p: string, i: nat)
    requires OpenIndexAt(p, i)
    ensures IndexAt(p, i + 1).Some? && IndexAt(p, i + 1).value.next == |p| + 1
    ensures OpenIndexAt(p, i) && IndexAt(p + "]", i + 1).Some? && IndexAt(p + "]", i + 1).value.next == |p| + 1
  {
    var n := NumberStart(p, i + 1).value;
    var q := p + "]";
    assert forall j :: 0 <= j < |p| ==> q[j] == p[j];
    assert q[n..|p|] == p[n..] == p[n..n + IDX_T_SAFE_DIG];
    DigitsAreRead(p, n, IDX_T_SAFE_DIG);
    DigitsAreRead(q, n, IDX_T_SAFE_DIG);
    hide DigitRun, DecimalValue;
    assert IntegerLength(p, n) == IntegerLength(q, n) == IDX_T_SAFE_DIG;
  }

  /** A path with an open index at its end runs past its end exactly if closing the index makes it valid. */
  lemma {:induction false} ClosingIsValid(p: string, ptr: nat, i: nat)
    requires OpenIndexAt(p, i) && ptr <= i
    ensures Parse(p, ptr).PastEnd? <==> Parse(p + "]", ptr).Steps?
    decreases |p| - ptr
  {
    hide KeyAt, IndexAt, OpenIndexAt;
    OpenIndexTail(p, i);
    var q := p + "]";
    assert q[ptr] == p[ptr];
    if p[ptr] == '.' {
      KeyAlike(p, i, ptr + 1);
      if KeyAt(p, ptr + 1).IsValid() {
        KeyStops(p, ptr + 1, i);
        ClosingIsValid(p, ptr + 1 + KeyAt(p, ptr + 1).charsRead, i);
      }
    } else if p[ptr] == '[' {
      if ptr == i {
        OpenAndClosed(p, i);
        ParseNothingLeft(q);
      } else {
        IndexAlike(p, i, ptr + 1);
        if IndexAt(p, ptr + 1).Some? {
          IndexStops(p, ptr + 1, i);
          var next := IndexAt(p, ptr + 1).value.next;
          if next <= i {
            ClosingIsValid(p, next, i);
          } else {
            assert q[i + 1] == p[i + 1];
          }
        }
      }
    }
  }

  lemma ParseNothingLeft(p: string)
    ensures Parse(p, |p|) == Steps([])
  {
  }

  /** Exactly which paths leave their bounds: those that end in an open index of nineteen digits and that
      the missing bracket would make valid.  All other paths are read within their bounds. */
  lemma LeavesBoundsExactly(p: string)
    requires |p| >= 1
    ensures Parse(p, 1).PastEnd? <==> (exists i :: 1 <= i < |p| && OpenIndexAt(p, i)) && Parse(p + "]", 1).Steps?
  {
    hide Parse, OpenIndexAt;
    if Parse(p, 1).PastEnd? {
      StaysInside(p, 1);
      var i :| 1 <= i < |p| && OpenIndexAt(p, i);
      ClosingIsValid(p, 1, i);
    }
    if i :| 1 <= i < |p| && OpenIndexAt(p, i) {
      ClosingIsValid(p, 1, i);
    }
  }

  /** Nineteen zeros after an open bracket. */
  lemma OpenIndexLeavesBounds()
    ensures Parse("$[0000000000000000000", 1).PastEnd?
  {
    var p := "$[0000000000000000000";
    hide OpenIndexAt, Parse;
    assert p[2..] == "0000000000000000000";
    DigitsStayOpen(p, p[2..]);
    OpenIsPastEnd(p, 1);
  }

  lemma DigitsStayOpen(p: string, digits: string)
    requires |p| > 2 && p[1] == '[' && digits == p[2..] && |digits| == IDX_T_SAFE_DIG
    requires forall k :: 0 <= k < |digits| ==> digits[k] == '0'
    ensures OpenIndexAt(p, 1)
  {
    assert p[2] == digits[0];
    assert NumberStart(p, 2) == Some(2);
  }

  lemma OpenIsPastEnd(p: string, i: nat)
    requires OpenIndexAt(p, i)
    ensures i <= |p| && Parse(p, i).PastEnd?
  {
    OpenAndClosed(p, i);
    hide IndexAt;
  }

  // ----- indices that are not closed -------------------------------------------------------------

  /** Nineteen digits after an open bracket, and something other than the closing one. */
  predicate UnclosedIndexAt(p: string, i: nat) {
    && i + 1 < |p| && p[i] == '[' && NumberStart(p, i + 1).Some?
    && var n := NumberStart(p, i + 1).value;
    n + IDX_T_SAFE_DIG < |p| && AllDigits(p[n..n + IDX_T_SAFE_DIG]) && p[n + IDX_T_SAFE_DIG] != ']'
  }

  /** Reading from `ptr` on, a step begins at `i`. */
  predicate Arrives(p: string, ptr: nat, i: nat)
    requires ptr <= |p|
    decreases |p| - ptr
  {
    || ptr == i
    || (ptr + 1 < |p| && p[ptr] == '.' && KeyAt(p, ptr + 1).IsValid()
        && Arrives(p, ptr + 1 + KeyAt(p, ptr + 1).charsRead, i))
    || (ptr + 1 < |p| && p[ptr] == '[' && IndexAt(p, ptr + 1).Some? && IndexAt(p, ptr + 1).value.next <= |p|
        && Arrives(p, IndexAt(p, ptr + 1).value.next, i))
  }

  /** The syntax in which every index is closed by its bracket. */
  function StrictParse(p: string, ptr: nat): Parsed
    requires ptr <= |p|
    decreases |p| - ptr
  {
    if ptr == |p| then Steps([])
    else if ptr + 1 == |p| then Malformed
    else if p[ptr] == '.' then
      var key := KeyAt(p, ptr + 1);
      if !key.IsValid() then Malformed else Then(KeySteps(key), StrictParse(p, ptr + 1 + key.charsRead))
    else if p[ptr] == '[' then
      var index := IndexAt(p, ptr + 1);
      if index.None? || index.value.next > |p| || p[index.value.next - 1] != ']' then Malformed
      else Then([IndexStep(index.value)], StrictParse(p, index.value.next))
    else Malformed
  }

  lemma ClosedExactly(p: string, i: nat)
    requires i + 1 < |p| && p[i] == '[' && IndexAt(p, i + 1).Some? && IndexAt(p, i + 1).value.next <= |p|
    ensures p[IndexAt(p, i + 1).value.next - 1] == ']' <==> !UnclosedIndexAt(p, i)
  {
    hide IntegerLength, DecimalValue, AllDigits;
    if NumberStart(p, i + 1).Some? {
      NumberClosedExactly(p, NumberStart(p, i + 1).value);
    }
  }

  /** A number is read up to its bracket, unless it has nineteen digits. */
  lemma NumberClosedExactly(p: string, n: nat)
    requires n <= |p| && IntegerLength(p, n) > 0 && n + IntegerLength(p, n) < |p|
    ensures p[n + IntegerLength(p, n)] == ']' <==>
            !(n + IDX_T_SAFE_DIG < |p| && AllDigits(p[n..n + IDX_T_SAFE_DIG]) && p[n + IDX_T_SAFE_DIG] != ']')
  {
    if n + IDX_T_SAFE_DIG < |p| && AllDigits(p[n..n + IDX_T_SAFE_DIG]) {
      DigitsAreRead(p, n, IDX_T_SAFE_DIG);
    }
    hide DigitRun;
  }

  ghost predicate MeetsUnclosed(p: string, ptr: nat)
    requires ptr <= |p|
  {
    exists i :: ptr <= i < |p| && Arrives(p, ptr, i) && UnclosedIndexAt(p, i)
  }

  lemma MeetsLater(p: string, ptr: nat, next: nat)
    requires ptr < next <= |p| && forall i :: Arrives(p, ptr, i) <==> i == ptr || Arrives(p, next, i)
    ensures MeetsUnclosed(p, ptr) <==> UnclosedIndexAt(p, ptr) || MeetsUnclosed(p, next)
  {
    hide Arrives, UnclosedIndexAt;
    if MeetsUnclosed(p, ptr) {
      var i :| ptr <= i < |p| && Arrives(p, ptr, i) && UnclosedIndexAt(p, i);
      if i != ptr { ArrivesAhead(p, next, i); }
    }
    if UnclosedIndexAt(p, ptr) {
      assert Arrives(p, ptr, ptr);
    }
    if MeetsUnclosed(p, next) {
      var i :| next <= i < |p| && Arrives(p, next, i) && UnclosedIndexAt(p, i);
      assert Arrives(p, ptr, i);
    }
  }

  lemma {:induction false} ArrivesAhead(p: string, ptr: nat, i: nat)
    requires ptr <= |p| && Arrives(p, ptr, i)
    ensures ptr <= i
    decreases |p| - ptr
  {
    if ptr != i {
      if p[ptr] == '.' { ArrivesAhead(p, ptr + 1 + KeyAt(p, ptr + 1).charsRead, i); }
      else { ArrivesAhead(p, IndexAt(p, ptr + 1).value.next, i); }
    }
  }

  /** An accepted path has all its indices closed exactly if no step of it has nineteen digits followed by
      something else; a path with such a step is accepted all the same. */
  lemma {:induction false} AcceptsStrictlyExactly(p: string, ptr: nat)
    requires ptr <= |p| && Parse(p, ptr).Steps?
    ensures if MeetsUnclosed(p, ptr) then StrictParse(p, ptr) == Malformed else StrictParse(p, ptr) == Parse(p, ptr)
    decreases |p| - ptr
  {
    hide KeyAt, IndexAt, UnclosedIndexAt, MeetsUnclosed, KeySteps, IndexStep;
    if ptr == |p| {
      NothingUnclosed(p);
    } else if p[ptr] == '.' {
      var next := ptr + 1 + KeyAt(p, ptr + 1).charsRead;
      AcceptsStrictlyExactly(p, next);
      MeetsLater(p, ptr, next);
      NoIndex(p, ptr);
    } else {
      var next := IndexAt(p, ptr + 1).value.next;
      AcceptsStrictlyExactly(p, next);
      MeetsLater(p, ptr, next);
      ClosedExactly(p, ptr);
    }
  }

  lemma NothingUnclosed(p: string)
    ensures !MeetsUnclosed(p, |p|)
  {
  }

  lemma NoIndex(p: string, i: nat)
    requires i < |p| && p[i] == '.'
    ensures !UnclosedIndexAt(p, i)
  {
  }

  /** Nineteen zeros, and a letter instead of the bracket. */
  lemma UnclosedIsAccepted()
    ensures Parse("$[0000000000000000000x", 1) == Steps([Index(0)])
  {
    var p := "$[0000000000000000000x";
    assert AllDigits(p[2..2 + IDX_T_SAFE_DIG]);
    DigitsAreRead(p, 2, IDX_T_SAFE_DIG);
    hide DigitRun, AllDigits;
    ZerosAreZero(p[2..2 + IDX_T_SAFE_DIG]);
    IndexToTheEnd(p, 1);
  }

  lemma {:induction false} ZerosAreZero(s: string)
    requires forall k :: 0 <= k < |s| ==> s[k] == '0'
    ensures AllDigits(s) && DecimalValue(s) == 0
    decreases |s|
  {
    if s != "" { ZerosAreZero(s[..|s| - 1]); }
  }

  lemma IndexToTheEnd(p: string, i: nat)
    requires i + 1 < |p| && p[i] == '[' && IndexAt(p, i + 1).Some? && IndexAt(p, i + 1).value.next == |p|
    ensures Parse(p, i) == Steps([IndexStep(IndexAt(p, i + 1).value)])
  {
    hide IndexAt, IndexStep;
  }
}
