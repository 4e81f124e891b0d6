/**
  Repair of UTF-16 strings received from ODBC clients.

  `FindInvalid` and `ReplaceInvalid` are the two loops of widechar_utf16.hpp, and `Lenient` is the
  decision made around them before a string reaches the unchecked UTF-8 transcoder.  They are
  compared with well-formedness as section 2.2 of RFC 2781 defines it.
*/
module Utf16 {
  import opened Common

  type Unit = u: int | 0 <= u < 0x1_0000 witness 0

  const REPLACEMENT: Unit := 0xFFFD

  predicate IsLead(u: Unit) {
    0xD800 <= u <= 0xDBFF
  }

  predicate IsTrail(u: Unit) {
    0xDC00 <= u <= 0xDFFF
  }

  /** Section 2.2 of RFC 2781: units outside the surrogate range stand alone, a lead surrogate is
      followed by a trail surrogate, and a trail surrogate appears nowhere else. */
  predicate WellFormed(s: seq<Unit>)
    decreases |s|
  {
    if s == [] then true
    else if IsLead(s[0]) then |s| >= 2 && IsTrail(s[1]) && WellFormed(s[2..])
    else !IsTrail(s[0]) && WellFormed(s[1..])
  }

  /** A Unicode scalar value: a code point that is no surrogate. */
  type Scalar = u: int | 0 <= u < 0xD800 || 0xE000 <= u <= 0x10FFFF witness 0

  /** Section 2.1 of RFC 2781. */
  function Encoded(u: Scalar): seq<Unit> {
    if u < 0x1_0000 then [u] else [0xD800 + (u - 0x1_0000) / 0x400, 0xDC00 + (u - 0x1_0000) % 0x400]
  }

  function Encoding(us: seq<Scalar>): seq<Unit> {
    if us == [] then [] else Encoded(us[0]) + Encoding(us[1..])
  }

  /** The scalar value that a pair of surrogates stands for. */
  function OfPair(lead: Unit, trail: Unit): (u: Scalar)
    requires IsLead(lead) && IsTrail(trail)
    ensures 0x1_0000 <= u && Encoded(u) == [lead, trail]
  {
    0x1_0000 + (lead - 0xD800) * 0x400 + (trail - 0xDC00)
  }

  /** The scalar values that a well-formed text stands for. */
  function Decoding(s: seq<Unit>): (us: seq<Scalar>)
    requires WellFormed(s)
    ensures Encoding(us) == s
    decreases |s|
  {
    if s == [] then []
    else if IsLead(s[0]) then
      assert s == [s[0], s[1]] + s[2..];
      [OfPair(s[0], s[1])] + Decoding(s[2..])
    else
      assert s == [s[0]] + s[1..];
      [s[0]] + Decoding(s[1..])
  }

  lemma {:induction false} EncodingDecodes(us: seq<Scalar>)
    ensures WellFormed(Encoding(us)) && Decoding(Encoding(us)) == us
    decreases |us|
  {
    if us != [] {
      EncodingDecodes(us[1..]);
      var s := Encoding(us);
      if us[0] < 0x1_0000 {
        assert s[1..] == Encoding(us[1..]);
      } else {
        assert s[2..] == Encoding(us[1..]);
      }
    }
  }

  /** The well-formed texts are exactly the encodings of sequences of scalar values, each of one sequence. */
  lemma WellFormedExactly(s: seq<Unit>)
    ensures WellFormed(s) <==> exists us: seq<Scalar> :: Encoding(us) == s
    ensures forall us: seq<Scalar>, vs: seq<Scalar> :: Encoding(us) == Encoding(vs) ==> us == vs
  {
    if us: seq<Scalar> :| Encoding(us) == s {
      EncodingDecodes(us);
    }
    if WellFormed(s) { assert Encoding(Decoding(s)) == s; }
    forall us: seq<Scalar>, vs: seq<Scalar> | Encoding(us) == Encoding(vs)
      ensures us == vs
    {
      EncodingDecodes(us);
      EncodingDecodes(vs);
    }
  }

  /** `n` is the length of the longest well-formed prefix of `s`. */
  ghost predicate LongestWellFormedPrefix(s: seq<Unit>, n: nat) {
    && n <= |s|
    && WellFormed(s[..n])
    && forall m :: n < m <= |s| ==> !WellFormed(s[..m])
  }

  /** The one malformed shape the search does not see: only a final trail surrogate is wrong. */
  predicate LoneFinalTrail(s: seq<Unit>) {
    |s| > 0 && IsTrail(s[|s| - 1]) && WellFormed(s[..|s| - 1])
  }

  predicate DoubleLead(s: seq<Unit>) {
    exists i :: 0 <= i < |s| - 1 && IsLead(s[i]) && IsLead(s[i + 1])
  }

  lemma {:induction false} WellFormedConcat(a: seq<Unit>, b: seq<Unit>)
    requires WellFormed(a)
    ensures WellFormed(a + b) == WellFormed(b)
    decreases |a|
  {
    if a == [] {
      assert a + b == b;
    } else if IsLead(a[0]) {
      assert (a + b)[2..] == a[2..] + b;
      WellFormedConcat(a[2..], b);
    } else {
      assert (a + b)[1..] == a[1..] + b;
      WellFormedConcat(a[1..], b);
    }
  }

  /** Nothing that follows a stray unit can repair it. */
  lemma {:induction false} StrayUnitEndsPrefix(s: seq<Unit>, n: nat)
    requires n < |s| && WellFormed(s[..n])
    requires IsTrail(s[n]) || (IsLead(s[n]) && (n + 1 == |s| || !IsTrail(s[n + 1])))
    ensures LongestWellFormedPrefix(s, n)
  {
    forall m | n < m <= |s|
      ensures !WellFormed(s[..m])
    {
      assert s[..m] == s[..n] + s[n..m];
      WellFormedConcat(s[..n], s[n..m]);
    }
  }

  /** Search for the first malformed unit.  The position found is one past the unit after the longest well-formed
      prefix, except that a lead surrogate in last position is reported itself. */
  method FindInvalid(s: seq<Unit>) returns (pos: nat)
    ensures pos <= |s|
    ensures pos == |s| <==> WellFormed(s) || LoneFinalTrail(s)
    ensures exists n: nat :: LongestWellFormedPrefix(s, n) &&
              pos == if n == |s| || (0xD800 <= s[n] <= 0xDBFF && n + 1 == |s|) then n else n + 1
  {
    var start := 0;
    while start != |s|
      invariant start <= |s|
      invariant WellFormed(s[..start])
    {
      ghost var before := start;
      var cp := s[start];
      start := start + 1;
      if IsLead(cp) {
        if start != |s| {
          var trail := s[start];
          start := start + 1;
          if !IsTrail(trail) {
            StrayUnit(s, before);
            return start - 1;
          }
          Extend(s, before, start);
        } else {
          StrayUnit(s, before);
          return start - 1;
        }
      } else if IsTrail(cp) {
        StrayUnit(s, before);
        return start;
      } else {
        Extend(s, before, start);
      }
    }
    assert s[..|s|] == s;
    assert LongestWellFormedPrefix(s, |s|);
    return |s|;
  }

  lemma {:induction false} Extend(s: seq<Unit>, n: nat, m: nat)
    requires n <= m <= |s| && WellFormed(s[..n]) && WellFormed(s[n..m])
    ensures WellFormed(s[..m])
  {
    assert s[..m] == s[..n] + s[n..m];
    WellFormedConcat(s[..n], s[n..m]);
  }

  /** What finding a stray unit at `n` settles about the whole string. */
  lemma {:induction false} StrayUnit(s: seq<Unit>, n: nat)
    requires n < |s| && WellFormed(s[..n])
    requires IsTrail(s[n]) || (IsLead(s[n]) && (n + 1 == |s| || !IsTrail(s[n + 1])))
    ensures LongestWellFormedPrefix(s, n)
    ensures !WellFormed(s)
    ensures LoneFinalTrail(s) <==> IsTrail(s[n]) && n + 1 == |s|
  {
    StrayUnitEndsPrefix(s, n);
    assert s[..|s|] == s;
  }

  /** The repaired string, read off unit by unit. */
  function Replaced(s: seq<Unit>): (r: seq<Unit>)
    decreases |s|
  {
    if s == [] then []
    else if IsLead(s[0]) then
      if |s| == 1 then [REPLACEMENT]
      else (if IsTrail(s[1]) then [s[0], s[1]] else [REPLACEMENT, s[1]]) + Replaced(s[2..])
    else [if IsTrail(s[0]) then REPLACEMENT else s[0]] + Replaced(s[1..])
  }

  /** What is written for the units from `i` up to `j`. */
  predicate Writes(s: seq<Unit>, i: nat, j: nat, chunk: seq<Unit>) {
    if i < |s| && IsLead(s[i]) then
      if i + 1 == |s| then j == i + 1 && chunk == [REPLACEMENT]
      else i + 1 < |s| && j == i + 2 && chunk == if IsTrail(s[i + 1]) then [s[i], s[i + 1]] else [REPLACEMENT, s[i + 1]]
    else i < |s| && j == i + 1 && chunk == [if IsTrail(s[i]) then REPLACEMENT else s[i]]
  }

  lemma ReplacedStep(s: seq<Unit>, i: nat, j: nat, chunk: seq<Unit>, out: seq<Unit>)
    requires Writes(s, i, j, chunk)
    ensures j <= |s| && out + Replaced(s[i..]) == (out + chunk) + Replaced(s[j..])
  {
    var rest := s[i..];
    assert rest[0] == s[i] && rest[j - i..] == s[j..];
    if j == i + 2 { assert rest[1] == s[i + 1]; }
    LastReplaced(rest, s[j..], chunk);
    assert out + (chunk + Replaced(s[j..])) == (out + chunk) + Replaced(s[j..]);
  }

  lemma LastReplaced(rest: seq<Unit>, next: seq<Unit>, chunk: seq<Unit>)
    requires rest != [] && Writes(rest, 0, |chunk|, chunk) && |chunk| <= |rest| && next == rest[|chunk|..]
    ensures Replaced(rest) == chunk + Replaced(next)
  {
    if IsLead(rest[0]) && |rest| == 1 { assert next == [] && [REPLACEMENT] + [] == [REPLACEMENT]; }
  }

  method ReplaceInvalid(s: seq<Unit>) returns (out: seq<Unit>)
    ensures out == Replaced(s)
  {
    hide Replaced;
    var start := 0;
    out := [];
    assert s[0..] == s && [] + Replaced(s) == Replaced(s);
    while start != |s|
      invariant start <= |s|
      invariant out + Replaced(s[start..]) == Replaced(s)
    {
      ghost var from, before := start, out;
      var char1 := s[start];
      start := start + 1;
      if IsLead(char1) {
        if start != |s| {
          var char2 := s[start];
          start := start + 1;
          if IsTrail(char2) {
            out := out + [char1];
            out := out + [char2];
          } else {
            out := out + [REPLACEMENT];
            out := out + [char2];
          }
        } else {
          out := out + [REPLACEMENT];
        }
      } else if IsTrail(char1) {
        out := out + [REPLACEMENT];
      } else {
        out := out + [char1];
      }
      ghost var chunk := out[|before|..];
      assert out == before + chunk;
      ReplacedStep(s, from, start, chunk, before);
    }
    assert s[start..] == [];
    NothingReplaced();
    assert out + [] == out;
  }

  lemma NothingReplaced()
    ensures Replaced([]) == []
  {
  }

  /** One unit out per unit in; a unit is kept or becomes the replacement, and only surrogates are
      replaced. */
  lemma {:induction false} ReplacedUnitwise(s: seq<Unit>)
    ensures |Replaced(s)| == |s|
    ensures forall i :: 0 <= i < |s| ==>
              Replaced(s)[i] == s[i] || (Replaced(s)[i] == REPLACEMENT && (IsLead(s[i]) || IsTrail(s[i])))
    decreases |s|
  {
    if s != [] {
      if IsLead(s[0]) && |s| >= 2 {
        ReplacedUnitwise(s[2..]);
      } else {
        ReplacedUnitwise(s[1..]);
      }
    }
  }

  /** Repair changes nothing exactly when nothing was wrong. */
  lemma {:induction false} ReplacedIsIdentity(s: seq<Unit>)
    ensures Replaced(s) == s <==> WellFormed(s)
    decreases |s|
  {
    if s != [] {
      if IsLead(s[0]) && |s| >= 2 {
        ReplacedIsIdentity(s[2..]);
        var chunk := if IsTrail(s[1]) then [s[0], s[1]] else [REPLACEMENT, s[1]];
        LastReplaced(s, s[2..], chunk);
        SameSplit(chunk, Replaced(s[2..]), s, 2);
      } else {
        ReplacedIsIdentity(s[1..]);
        var chunk := [if IsLead(s[0]) || IsTrail(s[0]) then REPLACEMENT else s[0]];
        LastReplaced(s, s[1..], chunk);
        SameSplit(chunk, Replaced(s[1..]), s, 1);
      }
    }
  }

  /** The number of lead surrogates directly before the unit at `i`. */
  function LeadsBefore(s: seq<Unit>, i: nat): (n: nat)
    requires i <= |s|
    ensures n <= i
  {
    if i == 0 || !IsLead(s[i - 1]) then 0 else 1 + LeadsBefore(s, i - 1)
  }

  lemma {:induction false} LeadsBeforeFrom(s: seq<Unit>, n: nat, i: nat)
    requires n <= i <= |s| && (n == 0 || !IsLead(s[n - 1]) || (n == 2 && IsLead(s[0])))
    ensures LeadsBefore(s, i) % 2 == LeadsBefore(s[n..], i - n) % 2
    decreases i
  {
    if i > n { LeadsBeforeFrom(s, n, i - 1); }
  }

  /** Which units are replaced: leads are taken in twos, so of a lead with an even number of them before it
      the next unit decides, a lead with an odd number before it is kept whatever follows, and a trail
      is kept exactly after an odd number of leads. */
  lemma {:induction false} ReplacedExactly(s: seq<Unit>, i: nat)
    requires i < |s|
    ensures |Replaced(s)| == |s|
    ensures var odd := LeadsBefore(s, i) % 2 == 1;
            var kept :=
              if IsLead(s[i]) then odd || (i + 1 < |s| && IsTrail(s[i + 1]))
              else if IsTrail(s[i]) then odd
              else true;
            Replaced(s)[i] == if kept then s[i] else 0xFFFD
    decreases |s|
  {
    ReplacedUnitwise(s);
    var n := if IsLead(s[0]) && |s| >= 2 then 2 else 1;
    if i >= n {
      LeadsBeforeFrom(s, n, i);
      ReplacedExactly(s[n..], i - n);
    }
  }

  lemma SameSplit(a: seq<Unit>, b: seq<Unit>, s: seq<Unit>, n: nat)
    requires |a| == n <= |s|
    ensures a + b == s <==> a == s[..n] && b == s[n..]
  {
    assert s == s[..n] + s[n..];
    if a + b == s {
      assert a == (a + b)[..n] && b == (a + b)[n..];
    }
  }

  /** The repaired string is well-formed exactly when no lead surrogate is directly followed by
      another lead surrogate: of such a pair only the first is replaced. */
  lemma {:induction false} ReplacedWellFormed(s: seq<Unit>)
    ensures WellFormed(Replaced(s)) <==> !DoubleLead(s)
    decreases |s|
  {
    hide WellFormed, DoubleLead, IsLead, IsTrail, Replaced;
    if s == [] {
      NothingReplaced();
      EmptyIsWellFormed();
    } else if IsLead(s[0]) && |s| >= 2 {
      ReplacedWellFormed(s[2..]);
      ReplacedPair(s);
      DoubleLeadPair(s);
    } else {
      ReplacedWellFormed(s[1..]);
      ReplacedUnit(s);
    }
  }

  lemma EmptyIsWellFormed()
    ensures WellFormed([]) && !DoubleLead([])
  {
  }

  lemma Stands(a: Unit, rest: seq<Unit>)
    requires !IsLead(a)
    ensures WellFormed([a] + rest) <==> !IsTrail(a) && WellFormed(rest)
  {
    assert ([a] + rest)[1..] == rest;
  }

  lemma Leads(a: Unit, rest: seq<Unit>)
    requires IsLead(a)
    ensures WellFormed([a] + rest) <==> rest != [] && IsTrail(rest[0]) && WellFormed(rest[1..])
  {
    if rest != [] { assert ([a] + rest)[2..] == rest[1..]; }
  }

  /** A unit that is not the first of two. */
  lemma ReplacedUnit(s: seq<Unit>)
    requires s != [] && !(IsLead(s[0]) && |s| >= 2)
    ensures WellFormed(Replaced(s)) <==> WellFormed(Replaced(s[1..]))
    ensures DoubleLead(s) <==> DoubleLead(s[1..])
  {
    DoubleLeadTail(s);
    hide WellFormed, DoubleLead;
    var unit := if IsLead(s[0]) || IsTrail(s[0]) then REPLACEMENT else s[0];
    if |s| == 1 { assert s[1..] == []; }
    LastReplaced(s, s[1..], [unit]);
    Stands(unit, Replaced(s[1..]));
  }

  /** A lead surrogate and the unit after it. */
  lemma ReplacedPair(s: seq<Unit>)
    requires |s| >= 2 && IsLead(s[0])
    ensures WellFormed(Replaced(s)) <==> !IsLead(s[1]) && WellFormed(Replaced(s[2..]))
  {
    var rest := Replaced(s[2..]);
    var chunk := if IsTrail(s[1]) then [s[0], s[1]] else [REPLACEMENT, s[1]];
    LastReplaced(s, s[2..], chunk);
    assert chunk + rest == [chunk[0]] + ([s[1]] + rest);
    if s[2..] != [] { ReplacedHead(s[2..]); } else { NothingReplaced(); }
    hide WellFormed, Replaced;
    if IsTrail(s[1]) {
      Leads(s[0], [s[1]] + rest);
      assert ([s[1]] + rest)[1..] == rest;
    } else {
      Stands(REPLACEMENT, [s[1]] + rest);
      if IsLead(s[1]) { Leads(s[1], rest); } else { Stands(s[1], rest); }
    }
  }

  lemma DoubleLeadPair(s: seq<Unit>)
    requires |s| >= 2 && IsLead(s[0])
    ensures DoubleLead(s) <==> IsLead(s[1]) || DoubleLead(s[2..])
  {
    DoubleLeadTail(s);
    DoubleLeadTail(s[1..]);
    assert s[1..][1..] == s[2..];
    hide DoubleLead;
  }

  lemma ReplacedHead(s: seq<Unit>)
    requires s != []
    ensures Replaced(s) != [] && !IsTrail(Replaced(s)[0])
  {
  }

  lemma DoubleLeadTail(s: seq<Unit>)
    requires s != []
    ensures DoubleLead(s) <==> (|s| >= 2 && IsLead(s[0]) && IsLead(s[1])) || DoubleLead(s[1..])
  {
    if i :| 0 <= i < |s| - 1 && IsLead(s[i]) && IsLead(s[i + 1]) && i > 0 {
      assert IsLead(s[1..][i - 1]) && IsLead(s[1..][i - 1 + 1]);
    }
    if i :| 0 <= i < |s[1..]| - 1 && IsLead(s[1..][i]) && IsLead(s[1..][i + 1]) {
      assert IsLead(s[i + 1]) && IsLead(s[i + 1 + 1]);
    }
  }

  /** The units given to the unchecked transcoder, the input itself when the search finds nothing and
      otherwise the repaired input, and the position reported. */
  method Lenient(s: seq<Unit>) returns (units: seq<Unit>, firstInvalid: Option<nat>)
    ensures firstInvalid == None <==> WellFormed(s) || LoneFinalTrail(s)
    ensures firstInvalid.Some? ==>
            exists n: nat :: LongestWellFormedPrefix(s, n) &&
              firstInvalid.value == if n == |s| || (0xD800 <= s[n] <= 0xDBFF && n + 1 == |s|) then n else n + 1
    ensures units == if firstInvalid.Some? then Replaced(s) else s
    ensures |units| == |s|
    ensures WellFormed(s) ==> units == s
    ensures WellFormed(units) <==> !DoubleLead(s) && !LoneFinalTrail(s)
  {
    var found := FindInvalid(s);
    if found == |s| {
      units, firstInvalid := s, None;
      if WellFormed(s) {
        WellFormedHasNoDoubleLead(s);
      }
    } else {
      units := ReplaceInvalid(s);
      firstInvalid := Some(found);
      ReplacedUnitwise(s);
      ReplacedWellFormed(s);
    }
  }

  lemma {:induction false} WellFormedHasNoDoubleLead(s: seq<Unit>)
    requires WellFormed(s)
    ensures !DoubleLead(s) && !LoneFinalTrail(s)
  {
    ReplacedIsIdentity(s);
    ReplacedWellFormed(s);
    if LoneFinalTrail(s) {
      StrayUnit(s, |s| - 1);
    }
  }

  /** Two inputs on which the stronger claims fail. */
  lemma RepairIsIncomplete()
    ensures DoubleLead([0xD800, 0xD800]) && !WellFormed(Replaced([0xD800, 0xD800]))
    ensures LoneFinalTrail([0x41, 0xDC00]) && !WellFormed([0x41, 0xDC00])
  {
    var a: seq<Unit> := [0xD800, 0xD800];
    assert IsLead(a[0]) && IsLead(a[0 + 1]);
    assert DoubleLead(a);
    ReplacedWellFormed(a);
    var b: seq<Unit> := [0x41, 0xDC00];
    assert b[..1] == [0x41];
    assert WellFormed([0x41]);
    StrayUnit(b, 1);
  }
}
