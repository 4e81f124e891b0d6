/**
  The character level of JSON paths: keys and array indices.

  A path is a sequence of bytes, written as characters; a pointer into it is an index, and `end` is
  the length of the path.  Each reader is a loop proved against a function that says what it reads.
*/
module JsonPathReader {
  import opened Common

  /** The largest unsigned 64-bit integer, which also stands for the wildcard index. */
  const IDX_T_MAX := 0xFFFF_FFFF_FFFF_FFFF
  const INVALID_INDEX := IDX_T_MAX
  const UINT32_MAX := 0xFFFF_FFFF

  /** The number of digits that certainly fit 64 bits. */
  const IDX_T_SAFE_DIG := 19

  // ----- keys ------------------------------------------------------------------------------------

  datatype KeyRead = KeyRead(charsRead: nat, recursive: bool, key: string) {
    predicate IsValid() {
      charsRead != 0
    }

    predicate IsWildCard() {
      key == "*"
    }
  }

  const EMPTY := KeyRead(0, false, "")
  const WILDCARD := KeyRead(1, false, "*")
  const REC_WILDCARD := KeyRead(2, true, "*")
  const REC_WILDCARD_SHORTCUT := KeyRead(1, true, "*")

  /** The text of a quoted key that starts at `i`, just after the opening quote: its length up to the
      closing quote and the key it denotes.  A backslash hides the meaning of a following quote or
      backslash and stands for itself before any other character. */
  function QuotedAt(p: string, i: nat): (r: Option<(nat, string)>)
    requires i <= |p|
    ensures r.Some? ==> i + r.value.0 < |p| && p[i + r.value.0] == '"' && |r.value.1| <= r.value.0
    decreases |p| - i
  {
    if i == |p| then None
    else if p[i] == '"' then Some((0, ""))
    else if p[i] != '\\' then Prefixed(1, [p[i]], QuotedAt(p, i + 1))
    else if i + 1 == |p| then None
    else Prefixed(2, if p[i + 1] == '"' || p[i + 1] == '\\' then [p[i + 1]] else [p[i], p[i + 1]], QuotedAt(p, i + 2))
  }

  function Prefixed(n: nat, key: string, rest: Option<(nat, string)>): Option<(nat, string)> {
    match rest
    case None => None
    case Some((m, tail)) => Some((n + m, key + tail))
  }

  /** The length of an unquoted key: up to the next dot or bracket. */
  function BareLength(p: string, i: nat): (n: nat)
    requires i <= |p|
    ensures i + n <= |p| && (i + n == |p| || p[i + n] == '.' || p[i + n] == '[')
    ensures forall k :: i <= k < i + n ==> p[k] != '.' && p[k] != '['
    decreases |p| - i
  {
    if i == |p| || p[i] == '.' || p[i] == '[' then 0 else 1 + BareLength(p, i + 1)
  }

  function StringAt(p: string, i: nat, escaped: bool): KeyRead
    requires i <= |p|
  {
    if escaped then
      match QuotedAt(p, i)
      case None => EMPTY
      case Some((n, key)) => KeyRead(n, false, key)
    else
      KeyRead(BareLength(p, i), false, p[i..i + BareLength(p, i)])
  }

  /** The key buffer holds one byte per byte that is left; writing it never runs over. */
  method ReadString(p: string, before: nat, escaped: bool) returns (r: KeyRead)
    requires before <= |p|
    ensures r == StringAt(p, before, escaped)
  {
    if escaped {
      r := ReadQuoted(p, before);
    } else {
      var ptr := before;
      while ptr != |p|
        invariant before <= ptr <= |p|
        invariant BareLength(p, before) == ptr - before + BareLength(p, ptr)
        decreases |p| - ptr
      {
        if p[ptr] == '.' || p[ptr] == '[' {
          break;
        }
        ptr := ptr + 1;
      }
      r := KeyRead(ptr - before, false, p[before..ptr]);
    }
  }

  /** What one or two characters inside quotes contribute to the key. */
  predicate IsQuotedChar(p: string, i: nat, j: nat, chunk: string) {
    || (i < j == i + 1 <= |p| && p[i] != '"' && p[i] != '\\' && chunk == [p[i]])
    || (i < j == i + 2 <= |p| && p[i] == '\\'
        && chunk == if p[i + 1] == '"' || p[i + 1] == '\\' then [p[i + 1]] else [p[i], p[i + 1]])
  }

  lemma QuotedStep(p: string, before: nat, key: string, i: nat, j: nat, chunk: string)
    requires before <= i && IsQuotedChar(p, i, j, chunk)
    requires QuotedAt(p, before) == Prefixed(i - before, key, QuotedAt(p, i))
    ensures QuotedAt(p, before) == Prefixed(j - before, key + chunk, QuotedAt(p, j))
  {
    PrefixedTwice(i - before, key, j - i, chunk, QuotedAt(p, j));
  }

  /** The closing quote ends the key. */
  lemma QuotedEnds(p: string, before: nat, key: string, i: nat)
    requires before <= i < |p| && p[i] == '"'
    requires QuotedAt(p, before) == Prefixed(i - before, key, QuotedAt(p, i))
    ensures StringAt(p, before, true) == KeyRead(i - before, false, key)
  {
    assert key + "" == key;
  }

  /** There is no key without a closing quote, nor one that ends in a lone backslash. */
  lemma QuotedFails(p: string, before: nat, key: string, i: nat)
    requires before <= i <= |p| && (i == |p| || (i + 1 == |p| && p[i] == '\\'))
    requires QuotedAt(p, before) == Prefixed(i - before, key, QuotedAt(p, i))
    ensures StringAt(p, before, true) == EMPTY
  {
  }

  method ReadQuoted(p: string, before: nat) returns (r: KeyRead)
    requires before <= |p|
    ensures r == StringAt(p, before, true)
  {
    hide QuotedAt, Prefixed, StringAt;
    var key := new char[|p| - before];
    var keyLen := 0;
    var ptr := before;
    var backslash := false;
    PrefixedNothing(QuotedAt(p, before));
    while ptr != |p|
      invariant before <= ptr <= |p|
      invariant keyLen + (if backslash then 1 else 0) <= ptr - before
      invariant backslash ==> before < ptr && p[ptr - 1] == '\\'
      invariant var start := if backslash then ptr - 1 else ptr;
                QuotedAt(p, before) == Prefixed(start - before, key[..keyLen], QuotedAt(p, start))
      decreases |p| - ptr
    {
      ghost var start, was := if backslash then ptr - 1 else ptr, key[..keyLen];
      if backslash {
        if p[ptr] != '"' && p[ptr] != '\\' {
          key[keyLen] := '\\';
          keyLen := keyLen + 1;
        }
        backslash := false;
      } else {
        if p[ptr] == '"' {
          break;
        } else if p[ptr] == '\\' {
          backslash := true;
          ptr := ptr + 1;
          continue;
        }
      }
      key[keyLen] := p[ptr];
      keyLen := keyLen + 1;
      ptr := ptr + 1;
      assert key[..keyLen] == was + key[|was|..keyLen];
      QuotedStep(p, before, was, start, ptr, key[|was|..keyLen]);
    }
    if ptr == |p| || backslash {
      QuotedFails(p, before, key[..keyLen], if backslash then ptr - 1 else ptr);
      r := EMPTY;
    } else {
      QuotedEnds(p, before, key[..keyLen], ptr);
      r := KeyRead(ptr - before, false, key[..keyLen]);
    }
  }

  lemma PrefixedNothing(rest: Option<(nat, string)>)
    ensures Prefixed(0, "", rest) == rest
  {
    if rest.Some? {
      assert "" + rest.value.1 == rest.value.1;
    }
  }

  lemma PrefixedTwice(n: nat, key: string, m: nat, key': string, rest: Option<(nat, string)>)
    ensures Prefixed(n, key, Prefixed(m, key', rest)) == Prefixed(n + m, key + key', rest)
  {
    if rest.Some? {
      assert key + (key' + rest.value.1) == key + key' + rest.value.1;
    }
  }

  /** What stands after a dot: a wildcard, or a key that is quoted or bare; a second dot makes it
      apply to all descendants. */
  function KeyAt(p: string, i: nat): (r: KeyRead)
    requires i < |p|
    ensures i + r.charsRead <= |p|
  {
    if p[i] == '*' then
      if i + 1 != |p| && p[i + 1] == '*' then REC_WILDCARD else WILDCARD
    else if p[i] != '.' then NamedKeyAt(p, i)
    else if i + 1 == |p| then EMPTY
    else if p[i + 1] == '*' then REC_WILDCARD
    else if p[i + 1] == '[' then REC_WILDCARD_SHORTCUT
    else
      var r := NamedKeyAt(p, i + 1);
      if r.IsValid() then KeyRead(r.charsRead + 1, true, r.key) else r
  }

  function NamedKeyAt(p: string, i: nat): (r: KeyRead)
    requires i < |p|
    ensures i + r.charsRead <= |p| && !r.recursive
  {
    if p[i] == '"' then
      var r := StringAt(p, i + 1, true);
      if r.IsValid() then KeyRead(r.charsRead + 2, false, r.key) else r
    else StringAt(p, i, false)
  }

  method ReadKey(p: string, at: nat) returns (r: KeyRead)
    requires at < |p|
    ensures r == KeyAt(p, at)
  {
    var ptr := at;
    if p[ptr] == '*' {
      if ptr + 1 != |p| && p[ptr + 1] == '*' {
        return REC_WILDCARD;
      }
      return WILDCARD;
    }
    var recursive := false;
    if p[ptr] == '.' {
      var next := if ptr + 1 == |p| then '\0' else p[ptr + 1];
      if next == '*' {
        return REC_WILDCARD;
      }
      if next == '[' {
        return REC_WILDCARD_SHORTCUT;
      }
      ptr := ptr + 1;
      recursive := true;
    }
    if ptr == |p| {
      return EMPTY;
    }
    var escaped := false;
    if p[ptr] == '"' {
      ptr := ptr + 1;
      escaped := true;
    }
    r := ReadString(p, ptr, escaped);
    if !r.IsValid() {
      return;
    }
    if escaped {
      r := r.(charsRead := r.charsRead + 2);
    }
    if recursive {
      r := r.(charsRead := r.charsRead + 1, recursive := true);
    }
  }

  /** A key that applies to all descendants is read again, from its second dot, as an ordinary key. */
  lemma KeyAfterSecondDot(p: string, i: nat)
    requires i < |p| && KeyAt(p, i).IsValid() && KeyAt(p, i).recursive && !KeyAt(p, i).IsWildCard()
    ensures p[i] == '.' && i + 1 < |p|
    ensures KeyAt(p, i + 1) == KeyRead(KeyAt(p, i).charsRead - 1, false, KeyAt(p, i).key)
    ensures KeyAt(p, i + 1).IsValid()
  {
  }

  // ----- array indices ---------------------------------------------------------------------------

  predicate IsDigit(c: char) {
    '0' <= c <= '9'
  }

  function DigitValue(c: char): nat
    requires IsDigit(c)
  {
    (c - '0') as nat
  }

  /** The number of digits from `i` on, counting at most `most`. */
  function DigitRun(p: string, i: nat, most: nat): (n: nat)
    requires i <= |p|
    ensures n <= most && i + n <= |p| && forall k :: i <= k < i + n ==> IsDigit(p[k])
    ensures n < most ==> i + n == |p| || !IsDigit(p[i + n])
    decreases |p| - i
  {
    if most == 0 || i == |p| || !IsDigit(p[i]) then 0 else 1 + DigitRun(p, i + 1, most - 1)
  }

  predicate AllDigits(s: string) {
    forall k :: 0 <= k < |s| ==> IsDigit(s[k])
  }

  function DecimalValue(s: string): nat
    requires AllDigits(s)
  {
    if s == "" then 0 else DecimalValue(s[..|s| - 1]) * 10 + DigitValue(s[|s| - 1])
  }

  /** The number of digits read as an index, zero for an error: fewer than nineteen digits must be
      closed by a bracket, and after nineteen digits nothing more is looked at. */
  function IntegerLength(p: string, i: nat): (n: nat)
    requires i <= |p|
    ensures i + n <= |p| && AllDigits(p[i..i + n])
  {
    var n := DigitRun(p, i, IDX_T_SAFE_DIG);
    if n == IDX_T_SAFE_DIG || (i + n < |p| && p[i + n] == ']') then n else 0
  }

  lemma DecimalSnoc(p: string, i: nat, j: nat)
    requires i <= j < |p| && AllDigits(p[i..j]) && IsDigit(p[j])
    ensures AllDigits(p[i..j + 1]) && DecimalValue(p[i..j + 1]) == DecimalValue(p[i..j]) * 10 + DigitValue(p[j])
  {
    assert p[i..j + 1][..j - i] == p[i..j];
  }

  function Pow10(n: nat): nat {
    if n == 0 then 1 else 10 * Pow10(n - 1)
  }

  lemma {:induction false} DecimalBound(s: string)
    requires AllDigits(s)
    ensures DecimalValue(s) < Pow10(|s|)
  {
    if s != "" {
      DecimalBound(s[..|s| - 1]);
    }
  }

  lemma Pow10Safe()
    ensures Pow10(IDX_T_SAFE_DIG) == 10_000_000_000_000_000_000 < IDX_T_MAX
  {
    assert Pow10(5) == 100_000;
    assert Pow10(10) == 10_000_000_000;
    assert Pow10(15) == 1_000_000_000_000_000;
  }

  lemma {:induction false} Pow10Monotone(m: nat, n: nat)
    requires m <= n
    ensures Pow10(m) <= Pow10(n)
  {
    if m < n {
      Pow10Monotone(m, n - 1);
    }
  }

  lemma NoDigits(p: string, i: nat)
    requires i <= |p|
    ensures AllDigits(p[i..i]) && DecimalValue(p[i..i]) == 0
  {
  }

  lemma DigitRunStep(p: string, i: nat, most: nat)
    requires i <= |p|
    ensures DigitRun(p, i, most) ==
            if most == 0 || i == |p| || !IsDigit(p[i]) then 0 else 1 + DigitRun(p, i + 1, most - 1)
  {
  }

  /** The accumulator never leaves 64 bits, so the final overflow test never fires. */
  method ReadInteger(p: string, before: nat) returns (charsRead: nat, idx: nat)
    requires before <= |p|
    ensures charsRead == IntegerLength(p, before)
    ensures charsRead != 0 ==> idx == DecimalValue(p[before..before + charsRead]) < Pow10(IDX_T_SAFE_DIG)
  {
    hide DigitRun, DecimalValue, Pow10, DigitValue;
    var ptr := before;
    idx := 0;
    var i := 0;
    NoDigits(p, before);
    while i < IDX_T_SAFE_DIG
      invariant i <= IDX_T_SAFE_DIG && ptr == before + i <= |p|
      invariant AllDigits(p[before..ptr]) && idx == DecimalValue(p[before..ptr])
      invariant DigitRun(p, before, IDX_T_SAFE_DIG) == i + DigitRun(p, ptr, IDX_T_SAFE_DIG - i)
    {
      DigitRunStep(p, ptr, IDX_T_SAFE_DIG - i);
      if ptr == |p| {
        return 0, idx;
      }
      if p[ptr] == ']' {
        break;
      }
      if !IsDigit(p[ptr]) {
        return 0, idx;
      }
      DecimalSnoc(p, before, ptr);
      idx := DigitValue(p[ptr]) + idx * 10;
      ptr := ptr + 1;
      i := i + 1;
    }
    DigitRunStep(p, ptr, IDX_T_SAFE_DIG - i);
    DecimalBound(p[before..ptr]);
    Pow10Monotone(i, IDX_T_SAFE_DIG);
    Pow10Safe();
    if idx >= IDX_T_MAX {
      assert false;
    }
    charsRead := ptr - before;
  }

  /** An index as the evaluators use it: the pointer after it, which may be one past the end. */
  datatype IndexRead = IndexRead(next: nat, index: nat, fromBack: bool)

  /** What stands between brackets.  `[#]` is an index no array reaches in practice. */
  function IndexAt(p: string, i: nat): (r: Option<IndexRead>)
    requires i < |p|
    ensures r.Some? ==> i < r.value.next <= |p| + 1
  {
    if p[i] == '*' then
      if i + 1 < |p| && p[i + 1] == ']' then Some(IndexRead(i + 2, INVALID_INDEX, false)) else None
    else if p[i] == '#' then
      if i + 1 == |p| then None
      else if p[i + 1] == ']' then Some(IndexRead(i + 2, UINT32_MAX, false))
      else if p[i + 1] == '-' then NumberAt(p, i + 2, true)
      else None
    else if p[i] == '-' then NumberAt(p, i + 1, true)
    else NumberAt(p, i, false)
  }

  function NumberAt(p: string, i: nat, fromBack: bool): (r: Option<IndexRead>)
    requires i <= |p|
    ensures r.Some? ==> i < r.value.next <= |p| + 1
  {
    var n := IntegerLength(p, i);
    if n == 0 then None else Some(IndexRead(i + n + 1, DecimalValue(p[i..i + n]), fromBack))
  }

  lemma NumberBound(p: string, i: nat)
    requires i <= |p|
    ensures DecimalValue(p[i..i + IntegerLength(p, i)]) < Pow10(IDX_T_SAFE_DIG) < IDX_T_MAX
  {
    DecimalBound(p[i..i + IntegerLength(p, i)]);
    Pow10Monotone(IntegerLength(p, i), IDX_T_SAFE_DIG);
    Pow10Safe();
  }

  /** Only `[*]` yields the wildcard index. */
  lemma WildcardIndex(p: string, i: nat)
    requires i < |p| && IndexAt(p, i).Some?
    ensures IndexAt(p, i).value.index == INVALID_INDEX <==> p[i] == '*'
    ensures p[i] != '*' ==> IndexAt(p, i).value.index < Pow10(IDX_T_SAFE_DIG)
  {
    hide IntegerLength, DecimalValue;
    Pow10Safe();
    if NumberStart(p, i).Some? {
      NumberBound(p, NumberStart(p, i).value);
    }
  }

  /** Where the digits of an index begin, if it has digits. */
  function NumberStart(p: string, i: nat): Option<nat>
    requires i < |p|
  {
    if p[i] == '*' then None
    else if p[i] == '#' then if i + 1 < |p| && p[i + 1] == '-' then Some(i + 2) else None
    else if p[i] == '-' then Some(i + 1)
    else Some(i)
  }

  lemma {:induction false} DigitsAreRead(p: string, i: nat, n: nat)
    requires i + n <= |p| && AllDigits(p[i..i + n])
    ensures forall most: nat :: most >= n ==> DigitRun(p, i, most) >= n
    decreases n
  {
    if n > 0 {
      assert IsDigit(p[i..i + n][0]);
      assert p[i + 1..i + n] == p[i..i + n][1..];
      DigitsAreRead(p, i + 1, n - 1);
    }
  }

  /** The pointer leaves the path exactly when the path ends inside an index of nineteen digits. */
  lemma IndexLeavesPath(p: string, i: nat)
    requires i < |p| && IndexAt(p, i).Some?
    ensures IndexAt(p, i).value.next == |p| + 1 <==>
              NumberStart(p, i).Some? && NumberStart(p, i).value + IDX_T_SAFE_DIG == |p|
                  && AllDigits(p[NumberStart(p, i).value..])
  {
    if NumberStart(p, i).Some? {
      var j := NumberStart(p, i).value;
      if j + IDX_T_SAFE_DIG == |p| && AllDigits(p[j..]) {
        DigitsAreRead(p, j, IDX_T_SAFE_DIG);
      }
    }
  }

  method ReadArrayIndex(p: string, at: nat) returns (ok: bool, ptr: nat, arrayIndex: nat, fromBack: bool)
    requires at < |p|
    ensures ok <==> IndexAt(p, at).Some?
    ensures ok ==> IndexAt(p, at).value == IndexRead(ptr, arrayIndex, fromBack)
  {
    hide IntegerLength, DecimalValue, DigitRun;
    ptr, arrayIndex, fromBack := at, 0, false;
    if p[ptr] == '*' {
      ptr := ptr + 1;
      if ptr == |p| || p[ptr] != ']' {
        return false, ptr, arrayIndex, fromBack;
      }
      arrayIndex := INVALID_INDEX;
    } else {
      if p[ptr] == '#' {
        ptr := ptr + 1;
        if ptr == |p| {
          return false, ptr, arrayIndex, fromBack;
        }
        if p[ptr] == ']' {
          arrayIndex := UINT32_MAX;
          ptr := ptr + 1;
          return true, ptr, arrayIndex, fromBack;
        }
        if p[ptr] != '-' {
          return false, ptr, arrayIndex, fromBack;
        }
        fromBack := true;
      }
      if p[ptr] == '-' {
        ptr := ptr + 1;
        fromBack := true;
      }
      var idxLen, idx := ReadInteger(p, ptr);
      arrayIndex := idx;
      if idxLen == 0 {
        return false, ptr, arrayIndex, fromBack;
      }
      ptr := ptr + idxLen;
    }
    ptr := ptr + 1;
    ok := true;
  }
}
