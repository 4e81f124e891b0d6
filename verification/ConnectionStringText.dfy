/**
  How connection strings are written: segments between semicolons, each a pair with or without braces, or blank.
*/
module ConnectionStringText {
  import opened Common
  import opened ConnectionString

  /** A value with every closing brace written twice. */
  function Doubled(v: string): string {
    if v == "" then "" else (if v[0] == '}' then "}}" else [v[0]]) + Doubled(v[1..])
  }

  /** A segment: nothing but separators, a pair whose value is in braces, with spaces around them, or a pair
      whose value is written as it is. */
  datatype Segment =
    | Blank(text: string)
    | InBraces(key: string, before: string, value: string, after: string)
    | Plain(key: string, text: string)

  ghost predicate AllSeparators(s: string) {
    forall i :: 0 <= i < |s| ==> IsSeparator(s[i])
  }

  /** A plain value ends at a semicolon and does not look like one in braces. */
  ghost predicate IsPlain(text: string) {
    ';' !in text && (SkipSpaces(text, 0) < |text| ==> text[SkipSpaces(text, 0)] != '{')
  }

  ghost predicate IsSegment(x: Segment) {
    match x
    case Blank(text) => AllSeparators(text)
    case InBraces(key, before, _, after) => '=' !in key && AllSpaces(before) && AllSpaces(after)
    case Plain(key, text) => '=' !in key && IsPlain(text)
  }

  function Text(x: Segment): string {
    match x
    case Blank(text) => text
    case InBraces(key, before, value, after) => key + ("=" + (before + ("{" + (Doubled(value) + ("}" + after)))))
    case Plain(key, text) => key + ("=" + text)
  }

  /** The key under which a printed key is read back. */
  function KeyRead(k: string): string {
    Lower(Trim(k[SkipSeparators(k, 0)..]))
  }

  /** The pair of a segment, if it is not blank. */
  function Reads(x: Segment): seq<Pair> {
    match x
    case Blank(_) => []
    case InBraces(key, _, value, _) => [Pair(KeyRead(key), value)]
    case Plain(key, text) => [Pair(KeyRead(key), Trim(text))]
  }

  function Join(segments: seq<Segment>): string {
    if segments == [] then ""
    else if |segments| == 1 then Text(segments[0])
    else Text(segments[0]) + (";" + Join(segments[1..]))
  }

  function ReadAll(segments: seq<Segment>): seq<Pair> {
    if segments == [] then [] else Reads(segments[0]) + ReadAll(segments[1..])
  }

  ghost predicate AreSegments(segments: seq<Segment>) {
    forall i :: 0 <= i < |segments| ==> IsSegment(segments[i])
  }

  /** The keys that are read back unchanged are exactly the lower-case ones without spaces at their ends
      and without a semicolon at their start. */
  lemma KeyReadIsIdentity(k: string)
    ensures KeyRead(k) == k <==> Lower(k) == k && Trim(k) == k && (k != "" ==> k[0] != ';')
  {
    var n := SkipSeparators(k, 0);
    LowerLower(Trim(k[n..]));
    if KeyRead(k) == k {
      assert n == 0 && k[n..] == k;
      assert |Trim(k)| == |k|;
    }
    if Lower(k) == k && Trim(k) == k && (k != "" ==> k[0] != ';') {
      assert n == 0 && k[0..] == k;
    }
  }

  // ----- reading one segment ---------------------------------------------------------------------

  lemma Begins(s: string, pos: nat, head: string, rest: string)
    requires pos <= |s| && s[pos..] == head + rest
    ensures |s| == pos + |head| + |rest| && s[pos + |head|..] == rest
    ensures forall i :: 0 <= i < |head| ==> s[pos + i] == head[i]
  {
    var t := s[pos..];
    assert t[|head|..] == rest;
    forall i | 0 <= i < |head| ensures s[pos + i] == head[i] {
      assert s[pos + i] == t[i];
    }
  }

  lemma {:induction false} BracedPrinted(s: string, pos: nat, v: string, rest: string)
    requires pos <= |s| && s[pos..] == Doubled(v) + ("}" + rest) && (rest != "" ==> rest[0] != '}')
    ensures Braced(s, pos) == BracedValue(v, |s| - |rest|, true)
    decreases |v|
  {
    if v == "" {
      assert s[pos] == s[pos..][0] == '}';
      if rest != "" { assert s[pos + 1] == s[pos..][1] == rest[0]; }
    } else {
      var head := if v[0] == '}' then "}}" else [v[0]];
      var n := |head|;
      Regroup(head, Doubled(v[1..]), "}" + rest);
      Begins(s, pos, head, Doubled(v[1..]) + ("}" + rest));
      BracedPrinted(s, pos + n, v[1..], rest);
      assert v == [v[0]] + v[1..];
    }
  }

  lemma {:induction false} SkipsAlike(s: string, pos: nat, k: string, i: nat, rest: string)
    requires pos <= |s| && s[pos..] == k + rest && i <= |k| && rest != "" && !IsSeparator(rest[0])
    ensures SkipSeparators(s, pos + i) == pos + SkipSeparators(k, i)
    decreases |k| - i
  {
    assert pos + i < |s| && s[pos + i] == s[pos..][i];
    if i < |k| {
      assert s[pos + i] == k[i];
      SkipsAlike(s, pos, k, i + 1, rest);
    } else {
      assert s[pos + i] == rest[0];
    }
  }

  lemma Inside(s: string, pos: nat, k: string, c: char, rest: string)
    requires pos <= |s| && s[pos..] == k + ([c] + rest)
    ensures |s| == pos + |k| + 1 + |rest| && s[pos..pos + |k|] == k && s[pos + |k|] == c && s[pos + |k| + 1..] == rest
  {
    var t := s[pos..];
    assert t[..|k|] == k && t[|k|] == c && t[|k| + 1..] == rest;
  }

  lemma KeyFound(s: string, pos: nat, k: string, n: nat)
    requires pos + |k| < |s| && s[pos..pos + |k|] == k && s[pos + |k|] == '=' && '=' !in k && n <= |k|
    ensures Find(s, '=', pos + n) == pos + |k| && s[pos + n..pos + |k|] == k[n..]
  {
    forall i | pos <= i < pos + |k| ensures s[i] != '=' {
      assert s[i] == k[i - pos];
    }
    FindIs(s, '=', pos + n, pos + |k|);
  }

  lemma KeyScanned(s: string, pos: nat, k: string, rest: string)
    requires pos <= |s| && s[pos..] == k + ("=" + rest) && '=' !in k
    ensures var start := SkipSeparators(s, pos);
            && start <= pos + |k| < |s| && Find(s, '=', start) == pos + |k|
            && Lower(Trim(s[start..pos + |k|])) == KeyRead(k)
    ensures s[pos + |k| + 1..] == rest
  {
    hide SkipSeparators, Find, Lower, Trim;
    Inside(s, pos, k, '=', rest);
    SkipsAlike(s, pos, k, 0, "=" + rest);
    KeyFound(s, pos, k, SkipSeparators(k, 0));
  }

  lemma First(s: string, pos: nat, c: char, rest: string)
    requires pos <= |s| && s[pos..] == [c] + rest
    ensures |s| == pos + 1 + |rest| && s[pos] == c && s[pos + 1..] == rest
  {
    assert s[pos..][0] == c && s[pos..][1..] == rest;
  }

  /** Spaces before something else are skipped. */
  lemma {:induction false} SpacesSkipped(s: string, pos: nat, spaces: string, rest: string)
    requires pos <= |s| && s[pos..] == spaces + rest && AllSpaces(spaces) && (rest != "" ==> !IsSpace(rest[0]))
    ensures |s| == pos + |spaces| + |rest| && SkipSpaces(s, pos) == pos + |spaces| && s[pos + |spaces|..] == rest
    decreases |spaces|
  {
    Begins(s, pos, spaces, rest);
    if spaces == "" {
      if rest != "" { assert s[pos] == rest[0]; }
    } else {
      assert s[pos] == spaces[0];
      assert s[pos + 1..] == s[pos..][1..] == spaces[1..] + rest;
      SpacesSkipped(s, pos + 1, spaces[1..], rest);
    }
  }

  /** A value in braces, whatever the spaces around it. */
  lemma BracedScanned(s: string, pos: nat, key: string, before: string, value: string, after: string, rest: string)
    requires pos <= |s| && s[pos..] == before + ("{" + (Doubled(value) + ("}" + (after + rest))))
    requires AllSpaces(before) && AllSpaces(after) && (rest == "" || rest[0] == ';')
    ensures |rest| <= |s|
    ensures ScanValue(s, key, SkipSpaces(s, pos)) == Found(Pair(key, value), |s| - |rest|)
  {
    hide Doubled, SkipSpaces, Braced, AllSpaces, ScanValue;
    var begin := pos + |before|;
    AfterBrace(after, rest);
    SpacesSkipped(s, pos, before, "{" + (Doubled(value) + ("}" + (after + rest))));
    First(s, begin, '{', Doubled(value) + ("}" + (after + rest)));
    BracedPrinted(s, begin + 1, value, after + rest);
    BraceFollowed(s, begin + 1, Doubled(value), after, rest);
    BracedIs(s, key, begin, value, |s| - |after + rest|, |s| - |rest|);
  }

  lemma BraceFollowed(s: string, pos: nat, doubled: string, after: string, rest: string)
    requires pos <= |s| && s[pos..] == doubled + ("}" + (after + rest))
    requires AllSpaces(after) && (rest == "" || rest[0] == ';')
    ensures |after + rest| <= |s| && SkipSpaces(s, |s| - |after + rest|) == |s| - |rest|
    ensures rest != "" ==> s[|s| - |rest|] == ';'
  {
    hide SkipSpaces, AllSpaces;
    AfterBrace(after, rest);
    Begins(s, pos, doubled, "}" + (after + rest));
    First(s, pos + |doubled|, '}', after + rest);
    SpacesSkipped(s, |s| - |after + rest|, after, rest);
    if rest != "" { assert s[|s| - |rest|] == s[|s| - |rest|..][0]; }
  }

  lemma BracedIs(s: string, key: string, begin: nat, value: string, end: nat, next: nat)
    requires begin < |s| && s[begin] == '{' && Braced(s, begin + 1) == BracedValue(value, end, true)
    requires end <= |s| && SkipSpaces(s, end) == next && (next < |s| ==> s[next] == ';')
    ensures ScanValue(s, key, begin) == Found(Pair(key, value), next)
  {
    hide Braced, SkipSpaces;
  }

  lemma AfterBrace(after: string, rest: string)
    requires AllSpaces(after) && (rest == "" || rest[0] == ';')
    ensures after + rest != "" ==> (after + rest)[0] != '}'
    ensures rest != "" ==> !IsSpace(rest[0])
  {
    if after != "" { assert IsSpace(after[0]); }
  }

  /** The spaces before a plain value do not matter. */
  lemma {:induction false} SkipsInside(s: string, pos: nat, text: string, i: nat)
    requires pos + |text| <= |s| && s[pos..pos + |text|] == text && i <= |text|
    requires pos + |text| == |s| || !IsSpace(s[pos + |text|])
    ensures SkipSpaces(s, pos + i) == pos + SkipSpaces(text, i)
    decreases |text| - i
  {
    if i < |text| {
      assert s[pos + i] == text[i];
      SkipsInside(s, pos, text, i + 1);
    }
  }

  lemma {:induction false} BackAfter(s: string, n: nat)
    requires n <= |s|
    ensures Back(s, |s|) >= n ==> Back(s[n..], |s| - n) == Back(s, |s|) - n
    ensures Back(s, |s|) < n ==> Back(s[n..], |s| - n) == 0
    decreases |s| - n
  {
    BackIs(s[n..], |s| - n, if Back(s, |s|) >= n then Back(s, |s|) - n else 0);
  }

  lemma {:induction false} BackIs(s: string, n: nat, r: nat)
    requires r <= n <= |s| && (r > 0 ==> !IsSpace(s[r - 1])) && forall i :: r <= i < n ==> IsSpace(s[i])
    ensures Back(s, n) == r
    decreases n
  {
    if n > r { BackIs(s, n - 1, r); }
  }

  lemma TrimSkipped(text: string)
    ensures Trim(text[SkipSpaces(text, 0)..]) == Trim(text)
  {
    hide SkipSpaces, Back;
    var n := SkipSpaces(text, 0);
    var tail := text[n..];
    BackAfter(text, n);
    SkippedAtOnce(text);
    var back := Back(text, |text|);
    if back > n { assert tail[0..back - n] == text[n..back]; }
  }

  lemma SkippedAtOnce(text: string)
    ensures SkipSpaces(text[SkipSpaces(text, 0)..], 0) == 0
  {
    var tail := text[SkipSpaces(text, 0)..];
    if tail != "" { assert tail[0] == text[SkipSpaces(text, 0)]; }
  }

  lemma PlainScanned(s: string, pos: nat, key: string, text: string, rest: string)
    requires pos <= |s| && s[pos..] == text + rest && IsPlain(text) && (rest == "" || rest[0] == ';')
    ensures |rest| <= |s|
    ensures ScanValue(s, key, SkipSpaces(s, pos)) == Found(Pair(key, Trim(text)), |s| - |rest|)
  {
    hide SkipSpaces, Find, Trim, Braced, IsPlain, ScanValue;
    TextBefore(s, pos, text, rest);
    PlainBegins(s, pos, text);
    var begin, end := SkipSpaces(s, pos), pos + |text|;
    PlainEnds(s, pos, text, begin);
    TrimSkipped(text);
    SliceOf(s, pos, text, begin - pos);
    PlainValue(s, key, begin, end);
  }

  lemma TextBefore(s: string, pos: nat, text: string, rest: string)
    requires pos <= |s| && s[pos..] == text + rest && (rest == "" || rest[0] == ';')
    ensures |s| == pos + |text| + |rest| && s[pos..pos + |text|] == text
    ensures pos + |text| == |s| || s[pos + |text|] == ';'
  {
    Begins(s, pos, text, rest);
    assert s[pos..pos + |text|] == s[pos..][..|text|];
    if rest != "" { assert s[pos + |text|] == s[pos + |text|..][0]; }
  }

  lemma SliceOf(s: string, pos: nat, text: string, n: nat)
    requires pos + |text| <= |s| && s[pos..pos + |text|] == text && n <= |text|
    ensures s[pos + n..pos + |text|] == text[n..]
  {
    assert s[pos..pos + |text|][n..] == text[n..];
  }

  lemma PlainBegins(s: string, pos: nat, text: string)
    requires pos + |text| <= |s| && s[pos..pos + |text|] == text && IsPlain(text)
    requires pos + |text| == |s| || s[pos + |text|] == ';'
    ensures var begin := SkipSpaces(s, pos);
            && begin == pos + SkipSpaces(text, 0) <= pos + |text| && (begin < |s| ==> s[begin] != '{') && ';' !in text
  {
    SkipsInside(s, pos, text, 0);
    hide SkipSpaces;
    var n := SkipSpaces(text, 0);
    if n < |text| { assert s[pos + n] == text[n]; }
  }

  lemma PlainValue(s: string, key: string, begin: nat, end: nat)
    requires begin <= end <= |s| && (begin < |s| ==> s[begin] != '{') && Find(s, ';', begin) == end
    ensures ScanValue(s, key, begin) == Found(Pair(key, Trim(s[begin..end])), end)
  {
    hide Find, Trim, Braced;
  }

  lemma PlainEnds(s: string, pos: nat, text: string, begin: nat)
    requires pos <= begin <= pos + |text| <= |s| && s[pos..pos + |text|] == text && ';' !in text
    requires pos + |text| == |s| || s[pos + |text|] == ';'
    ensures Find(s, ';', begin) == pos + |text|
  {
    forall i | begin <= i < pos + |text| ensures s[i] != ';' {
      assert s[i] == text[i - pos];
    }
    FindIs(s, ';', begin, pos + |text|);
  }

  /** A pair whose key is followed by its value. */
  lemma KeyThenValue(s: string, pos: nat, key: string, rest: string)
    requires pos <= |s| && s[pos..] == key + ("=" + rest) && '=' !in key
    ensures pos + |key| < |s| && s[pos + |key| + 1..] == rest
    ensures ScanPair(s, pos) == ScanValue(s, KeyRead(key), SkipSpaces(s, pos + |key| + 1))
  {
    hide Lower, Trim, KeyRead, SkipSeparators, Find, SkipSpaces, ScanValue;
    KeyScanned(s, pos, key, rest);
    KeyHasNoDelimiter(s[SkipSeparators(s, pos)..pos + |key|]);
  }

  /** A segment with a pair is read as that pair, up to the semicolon or the end. */
  lemma SegmentScanned(s: string, pos: nat, x: Segment, rest: string)
    requires pos <= |s| && s[pos..] == Text(x) + rest && IsSegment(x) && !x.Blank? && (rest == "" || rest[0] == ';')
    ensures |rest| <= |s| && Reads(x) != [] && ScanPair(s, pos) == Found(Reads(x)[0], |s| - |rest|)
  {
    if x.Plain? { PlainSegment(s, pos, x, rest); } else { BracedSegment(s, pos, x, rest); }
  }

  lemma BracedSegment(s: string, pos: nat, x: Segment, rest: string)
    requires pos <= |s| && s[pos..] == Text(x) + rest && IsSegment(x) && x.InBraces? && (rest == "" || rest[0] == ';')
    ensures |rest| <= |s| && Reads(x) != [] && ScanPair(s, pos) == Found(Reads(x)[0], |s| - |rest|)
  {
    hide Doubled, SkipSpaces, AllSpaces, ScanValue, ScanPair, KeyRead;
    var body := x.before + ("{" + (Doubled(x.value) + ("}" + (x.after + rest))));
    BracedLayout(x.key, x.before, Doubled(x.value), x.after, rest);
    KeyThenValue(s, pos, x.key, body);
    BracedScanned(s, pos + |x.key| + 1, KeyRead(x.key), x.before, x.value, x.after, rest);
  }

  lemma PlainSegment(s: string, pos: nat, x: Segment, rest: string)
    requires pos <= |s| && s[pos..] == Text(x) + rest && IsSegment(x) && x.Plain? && (rest == "" || rest[0] == ';')
    ensures |rest| <= |s| && Reads(x) != [] && ScanPair(s, pos) == Found(Reads(x)[0], |s| - |rest|)
  {
    hide IsPlain, SkipSpaces, Trim, ScanValue, ScanPair, KeyRead;
    PlainLayout(x.key, x.text, rest);
    KeyThenValue(s, pos, x.key, x.text + rest);
    PlainScanned(s, pos + |x.key| + 1, KeyRead(x.key), x.text, rest);
  }

  lemma PlainLayout(key: string, text: string, rest: string)
    ensures key + ("=" + text) + rest == key + ("=" + (text + rest))
  {
  }

  lemma BracedLayout(key: string, before: string, doubled: string, after: string, rest: string)
    ensures key + ("=" + (before + ("{" + (doubled + ("}" + after))))) + rest ==
            key + ("=" + (before + ("{" + (doubled + ("}" + (after + rest))))))
  {
  }

  // ----- reading all segments --------------------------------------------------------------------

  lemma SemicolonIsSkipped(s: string, pos: nat)
    requires pos < |s| && s[pos] == ';'
    ensures ScanPairs(s, pos) == ScanPairs(s, pos + 1)
  {
    hide ScanFrom;
    assert SkipSeparators(s, pos) == SkipSeparators(s, pos + 1);
  }

  lemma {:induction false} SeparatorsSkipped(s: string, pos: nat, blank: string)
    requires pos + |blank| <= |s| && s[pos..pos + |blank|] == blank && AllSeparators(blank)
    ensures SkipSeparators(s, pos) == SkipSeparators(s, pos + |blank|)
    decreases |blank|
  {
    if blank != "" {
      assert s[pos] == blank[0] && s[pos + 1..pos + |blank|] == blank[1..];
      SeparatorsSkipped(s, pos + 1, blank[1..]);
    }
  }

  lemma BlankScanned(s: string, pos: nat, blank: string)
    requires pos + |blank| <= |s| && s[pos..pos + |blank|] == blank && AllSeparators(blank)
    ensures ScanPairs(s, pos) == ScanPairs(s, pos + |blank|)
  {
    hide ScanFrom;
    SeparatorsSkipped(s, pos, blank);
  }

  lemma NothingScanned(s: string, pos: nat)
    requires pos == |s|
    ensures ScanPair(s, pos) == Finished
  {
  }

  /** Reading the segments of a string finds their pairs: a value in braces exactly, any other without the
      spaces at its ends, and every key in its normal form. */
  lemma {:induction false} SegmentsAreScanned(s: string, pos: nat, segments: seq<Segment>)
    requires pos <= |s| && s[pos..] == Join(segments) && AreSegments(segments)
    ensures ScanPairs(s, pos) == Pairs(ReadAll(segments), true)
    decreases |segments|
  {
    hide Text, Reads, ScanPair, IsSegment;
    if segments == [] {
      NothingScanned(s, pos);
    } else {
      var x, more := segments[0], segments[1..];
      assert IsSegment(x);
      var rest := if more == [] then "" else ";" + Join(more);
      assert Text(x) + "" == Text(x);
      assert s[pos..] == Text(x) + rest;
      Begins(s, pos, Text(x), rest);
      var next := pos + |Text(x)|;
      SegmentStep(s, pos, x, rest, next);
      if more == [] {
        SegmentsAreScanned(s, next, more);
      } else {
        First(s, next, ';', Join(more));
        SemicolonIsSkipped(s, next);
        SegmentsAreScanned(s, next + 1, more);
      }
    }
  }

  lemma SegmentStep(s: string, pos: nat, x: Segment, rest: string, next: nat)
    requires pos <= |s| && s[pos..] == Text(x) + rest && IsSegment(x) && (rest == "" || rest[0] == ';')
    requires next == pos + |Text(x)| == |s| - |rest|
    ensures var later := ScanPairs(s, next);
            ScanPairs(s, pos) == Pairs(Reads(x) + later.pairs, later.wellFormed)
  {
    hide ScanPairs, ScanPair, IsSegment, AllSeparators;
    if x.Blank? {
      assert s[pos..next] == s[pos..][..|x.text|] == x.text;
      BlankSegment(x);
      BlankScanned(s, pos, x.text);
      assert [] + ScanPairs(s, next).pairs == ScanPairs(s, next).pairs;
    } else {
      SegmentScanned(s, pos, x, rest);
      PairThenRest(s, pos, Reads(x)[0], next);
      OneRead(x);
    }
  }

  lemma BlankSegment(x: Segment)
    requires x.Blank? && IsSegment(x)
    ensures AllSeparators(x.text)
  {
  }

  lemma OneRead(x: Segment)
    requires !x.Blank?
    ensures Reads(x) == [Reads(x)[0]]
  {
  }

  lemma PairThenRest(s: string, pos: nat, pair: Pair, next: nat)
    requires pos <= |s| && ScanPair(s, pos) == Found(pair, next)
    ensures next <= |s| && ScanPairs(s, pos) == Pairs([pair] + ScanPairs(s, next).pairs, ScanPairs(s, next).wellFormed)
  {
    hide ScanPair;
  }

  // ----- every well-formed string is made of segments --------------------------------------------

  /** A value up to its closing brace is written with its closing braces doubled. */
  lemma {:induction false} BracedIsDoubled(s: string, pos: nat)
    requires pos <= |s| && Braced(s, pos).closed
    ensures pos < Braced(s, pos).end && s[pos..Braced(s, pos).end] == Doubled(Braced(s, pos).value) + "}"
    decreases |s| - pos
  {
    hide Doubled;
    var r := Braced(s, pos);
    if s[pos] == '}' && !(pos + 1 < |s| && s[pos + 1] == '}') {
      NothingDoubled();
      assert r == BracedValue("", pos + 1, true);
      assert s[pos..pos + 1] == [s[pos]];
    } else {
      var n := if s[pos] == '}' then 2 else 1;
      var rest := Braced(s, pos + n);
      BracedIsDoubled(s, pos + n);
      DoubledCons(s[pos], rest.value);
      DoubledSlice(s, pos, n, r.end, Doubled(rest.value), if s[pos] == '}' then "}}" else [s[pos]]);
    }
  }

  lemma NothingDoubled()
    ensures Doubled("") + "}" == "}"
  {
  }

  lemma DoubledSlice(s: string, pos: nat, n: nat, end: nat, doubled: string, head: string)
    requires pos + n <= end <= |s| && s[pos + n..end] == doubled + "}" && |head| == n
    requires forall i :: 0 <= i < n ==> s[pos + i] == head[i]
    ensures s[pos..end] == head + doubled + "}"
  {
    assert s[pos..end] == s[pos..pos + n] + s[pos + n..end];
    assert s[pos..pos + n] == head;
  }

  lemma DoubledCons(c: char, v: string)
    ensures Doubled([c] + v) == (if c == '}' then "}}" else [c]) + Doubled(v)
  {
    assert ([c] + v)[1..] == v;
  }

  /** The pair that begins at `pos`, separators included, as a segment. */
  lemma PairIsSegment(s: string, pos: nat) returns (x: Segment)
    requires pos <= |s| && ScanPair(s, pos).Found?
    ensures IsSegment(x) && !x.Blank? && Reads(x) == [ScanPair(s, pos).pair]
    ensures ScanPair(s, pos).next <= |s| && Text(x) == s[pos..ScanPair(s, pos).next]
    ensures ScanPair(s, pos).next < |s| ==> s[ScanPair(s, pos).next] == ';'
  {
    hide SkipSeparators, Find, SkipSpaces, Lower, Trim, KeyRead, Braced, IsPlain, ScanPair, ScanValue, Text, Reads,
        IsSegment;
    FoundParts(s, pos);
    var start := SkipSeparators(s, pos);
    var equal := Find(s, '=', start);
    var begin := SkipSpaces(s, equal + 1);
    KeyWithSeparators(s, pos, start, equal);
    if begin < |s| && s[begin] == '{' {
      x := BracedIsSegment(s, pos, equal, begin);
    } else {
      x := PlainIsSegment(s, pos, equal, begin);
    }
  }

  lemma FoundParts(s: string, pos: nat)
    requires pos <= |s| && ScanPair(s, pos).Found?
    ensures var start := SkipSeparators(s, pos);
            && pos <= start && Find(s, '=', start) < |s| && s[Find(s, '=', start)] == '='
            && start <= Find(s, '=', start)
            && ScanPair(s, pos) ==
               ScanValue(s, Lower(Trim(s[start..Find(s, '=', start)])), SkipSpaces(s, Find(s, '=', start) + 1))
  {
    hide SkipSeparators, Find, SkipSpaces, Lower, Trim, ScanValue;
  }

  lemma KeyWithSeparators(s: string, pos: nat, start: nat, equal: nat)
    requires pos <= |s| && start == SkipSeparators(s, pos) && equal == Find(s, '=', start) < |s|
    ensures pos <= start <= equal && '=' !in s[pos..equal] && KeyRead(s[pos..equal]) == Lower(Trim(s[start..equal]))
  {
    hide SkipSeparators, Find, Lower, Trim;
    var key := s[pos..equal];
    assert key + s[equal..] == s[pos..];
    NoEqualBefore(s, pos, start, equal);
    SkipsAlike(s, pos, key, 0, s[equal..]);
    assert key[start - pos..] == s[start..equal];
  }

  lemma NoEqualBefore(s: string, pos: nat, start: nat, equal: nat)
    requires pos <= |s| && start == SkipSeparators(s, pos) && equal == Find(s, '=', start) < |s|
    ensures pos <= start <= equal && s[equal] == '=' && '=' !in s[pos..equal]
  {
    hide SkipSeparators, Find;
    var key := s[pos..equal];
    forall i | 0 <= i < |key| ensures key[i] != '=' {
      assert key[i] == s[pos + i] && (pos + i < start ==> IsSeparator(s[pos + i]));
    }
  }

  lemma BracedIsSegment(s: string, pos: nat, equal: nat, begin: nat) returns (x: Segment)
    requires pos <= equal < |s| && s[equal] == '=' && '=' !in s[pos..equal]
    requires begin == SkipSpaces(s, equal + 1) < |s| && s[begin] == '{'
    requires ScanValue(s, KeyRead(s[pos..equal]), begin).Found?
    ensures var scan := ScanValue(s, KeyRead(s[pos..equal]), begin);
            && x.InBraces? && IsSegment(x) && Reads(x) == [scan.pair] && scan.next <= |s|
            && Text(x) == s[pos..scan.next] && (scan.next < |s| ==> s[scan.next] == ';')
  {
    hide SkipSpaces, Braced, KeyRead, Doubled, ScanValue, AllSpaces;
    var braced := Braced(s, begin + 1);
    var next := SkipSpaces(s, braced.end);
    BracedFound(s, KeyRead(s[pos..equal]), begin);
    BracedIsDoubled(s, begin + 1);
    SkippedAreSpaces(s, equal + 1);
    SkippedAreSpaces(s, braced.end);
    x := InBraces(s[pos..equal], s[equal + 1..begin], braced.value, s[braced.end..next]);
    BracedText(s, pos, equal, begin, braced.end, next, Doubled(braced.value));
  }

  lemma BracedFound(s: string, key: string, begin: nat)
    requires begin < |s| && s[begin] == '{' && ScanValue(s, key, begin).Found?
    ensures var braced := Braced(s, begin + 1);
            var next := SkipSpaces(s, braced.end);
            && braced.closed && ScanValue(s, key, begin) == Found(Pair(key, braced.value), next)
            && (next < |s| ==> s[next] == ';')
  {
    hide Braced, SkipSpaces;
  }

  lemma SkippedAreSpaces(s: string, pos: nat)
    requires pos <= |s|
    ensures AllSpaces(s[pos..SkipSpaces(s, pos)])
  {
    hide SkipSpaces, IsSpace;
  }

  lemma BracedText(s: string, pos: nat, equal: nat, begin: nat, end: nat, next: nat, doubled: string)
    requires pos <= equal < begin < end <= next <= |s| && s[equal] == '=' && s[begin] == '{'
    requires s[begin + 1..end] == doubled + "}"
    ensures s[pos..equal] + ("=" + (s[equal + 1..begin] + ("{" + (doubled + ("}" + s[end..next]))))) == s[pos..next]
  {
    assert s[pos..next] == s[pos..equal] + [s[equal]] + s[equal + 1..begin] + [s[begin]] + s[begin + 1..end]
        + s[end..next];
  }

  lemma PlainIsSegment(s: string, pos: nat, equal: nat, begin: nat) returns (x: Segment)
    requires pos <= equal < |s| && s[equal] == '=' && '=' !in s[pos..equal]
    requires begin == SkipSpaces(s, equal + 1) <= |s| && (begin < |s| ==> s[begin] != '{')
    ensures var scan := ScanValue(s, KeyRead(s[pos..equal]), begin);
            && scan.Found? && x.Plain? && IsSegment(x) && Reads(x) == [scan.pair] && scan.next <= |s|
            && Text(x) == s[pos..scan.next] && (scan.next < |s| ==> s[scan.next] == ';')
  {
    hide Trim, KeyRead, Find, SkipSpaces, ScanValue, IsPlain;
    var end := Find(s, ';', begin);
    var text := s[equal + 1..end];
    x := Plain(s[pos..equal], text);
    PlainValue(s, KeyRead(s[pos..equal]), begin, end);
    PlainIs(s, equal + 1, begin, end);
    PlainText(s, pos, equal, end);
  }

  lemma PlainText(s: string, pos: nat, equal: nat, end: nat)
    requires pos <= equal < end <= |s| && s[equal] == '='
    ensures s[pos..equal] + ("=" + s[equal + 1..end]) == s[pos..end]
  {
  }

  lemma PlainIs(s: string, from: nat, begin: nat, end: nat)
    requires from <= begin <= end <= |s| && begin == SkipSpaces(s, from) && end == Find(s, ';', begin)
    requires begin < |s| ==> s[begin] != '{'
    ensures IsPlain(s[from..end]) && Trim(s[from..end]) == Trim(s[begin..end]) && (end < |s| ==> s[end] == ';')
  {
    hide Trim, Find, SkipSpaces;
    var text := s[from..end];
    SpacesNoSemicolon(s, from, begin, end);
    SkipsInside(s, from, text, 0);
    TrimSkipped(text);
    SliceOf(s, from, text, begin - from);
    assert begin < end ==> text[begin - from] == s[begin];
  }

  lemma SpacesNoSemicolon(s: string, from: nat, begin: nat, end: nat)
    requires from <= begin <= end <= |s| && begin == SkipSpaces(s, from) && end == Find(s, ';', begin)
    ensures ';' !in s[from..end] && (end < |s| ==> s[end] == ';' && !IsSpace(s[end]))
  {
    hide SkipSpaces, Find;
    var text := s[from..end];
    forall i | 0 <= i < |text| ensures text[i] != ';' {
      assert text[i] == s[from + i] && (from + i < begin ==> IsSpace(s[from + i]));
    }
  }

  /** Every well-formed string is a list of segments, and these are its pairs. */
  lemma {:induction false} WellFormedHasSegments(s: string, pos: nat) returns (segments: seq<Segment>)
    requires pos <= |s| && ScanPairs(s, pos).wellFormed
    ensures segments != [] && AreSegments(segments)
    ensures Join(segments) == s[pos..] && ScanPairs(s, pos).pairs == ReadAll(segments)
    decreases |s| - pos
  {
    hide ScanPair, IsSegment, Text, Reads;
    if ScanPair(s, pos).Finished? {
      segments := [Blank(s[pos..])];
      OnlySeparators(s, pos);
    } else {
      var x := PairIsSegment(s, pos);
      var next := ScanPair(s, pos).next;
      SliceTogether(s, pos, next);
      if next == |s| {
        segments := [x];
        OneSegment(s, x);
      } else {
        SemicolonIsSkipped(s, next);
        PairThenRest(s, pos, ScanPair(s, pos).pair, next);
        var rest := WellFormedHasSegments(s, next + 1);
        segments := [x] + rest;
        SegmentThenRest(s, x, rest, next);
      }
    }
  }

  lemma SliceTogether(s: string, pos: nat, next: nat)
    requires pos <= next <= |s|
    ensures s[pos..] == s[pos..next] + s[next..] && (next < |s| ==> s[next..] == [s[next]] + s[next + 1..])
  {
  }

  lemma OnlySeparators(s: string, pos: nat)
    requires pos <= |s| && ScanPair(s, pos).Finished?
    ensures var x := Blank(s[pos..]); IsSegment(x) && Text(x) == s[pos..] && Reads(x) == []
    ensures ReadAll([Blank(s[pos..])]) == [] == ScanPairs(s, pos).pairs
  {
    hide SkipSeparators;
  }

  lemma OneSegment(s: string, x: Segment)
    ensures Join([x]) == Text(x) && ReadAll([x]) == Reads(x)
    ensures ScanPairs(s, |s|).pairs == []
  {
    assert [x][1..] == [];
  }

  lemma SegmentThenRest(s: string, x: Segment, rest: seq<Segment>, next: nat)
    requires next < |s| && s[next] == ';' && Join(rest) == s[next + 1..]
    ensures ReadAll([x] + rest) == Reads(x) + ReadAll(rest)
    ensures rest != [] ==> Join([x] + rest) == Text(x) + (";" + Join(rest))
  {
    assert ([x] + rest)[1..] == rest;
  }

  /** Exactly the strings that are made of segments are well formed, and their pairs are those of the
      segments. */
  lemma WellFormedExactly(s: string, pairs: seq<Pair>)
    ensures ScanPairs(s, 0) == Pairs(pairs, true) <==>
            exists segments :: AreSegments(segments) && Join(segments) == s && ReadAll(segments) == pairs
  {
    hide ScanPairs, AreSegments, Join, ReadAll;
    assert s[0..] == s;
    if ScanPairs(s, 0) == Pairs(pairs, true) {
      var segments := WellFormedHasSegments(s, 0);
    }
    if segments :| AreSegments(segments) && Join(segments) == s && ReadAll(segments) == pairs {
      SegmentsAreScanned(s, 0, segments);
    }
  }
}
