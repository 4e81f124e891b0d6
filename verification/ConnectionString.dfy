/**
  The connection string: pairs `key=value` separated by semicolons, where a value in braces may hold
  semicolons, and closing braces written twice.
*/
module ConnectionString {
  datatype Return = Success | SuccessWithInfo | Error

  // ----- characters ------------------------------------------------------------------------------

  predicate IsSpace(c: char) {
    c == ' ' || c == '\t' || c == '\n' || c == '\r' || c == '\U{0C}' || c == '\U{0B}'
  }

  ghost predicate AllSpaces(s: string) {
    forall i :: 0 <= i < |s| ==> IsSpace(s[i])
  }

  function LowerChar(c: char): char {
    if 'A' <= c <= 'Z' then c - 'A' + 'a' else c
  }

  function Lower(s: string): string {
    seq(|s|, i requires 0 <= i < |s| => LowerChar(s[i]))
  }

  function SkipSpaces(s: string, pos: nat): (r: nat)
    requires pos <= |s|
    ensures pos <= r <= |s| && (r < |s| ==> !IsSpace(s[r]))
    ensures forall i :: pos <= i < r ==> IsSpace(s[i])
    decreases |s| - pos
  {
    if pos < |s| && IsSpace(s[pos]) then SkipSpaces(s, pos + 1) else pos
  }

  /** The end of the first `n` characters without the spaces they end in. */
  function Back(s: string, n: nat): (r: nat)
    requires n <= |s|
    ensures r <= n && (r > 0 ==> !IsSpace(s[r - 1]))
    ensures forall i :: r <= i < n ==> IsSpace(s[i])
  {
    if n > 0 && IsSpace(s[n - 1]) then Back(s, n - 1) else n
  }

  /** The part of `s` between the spaces at its ends. */
  function Trim(s: string): (r: string)
    ensures if r == "" then AllSpaces(s) else !IsSpace(r[0]) && !IsSpace(r[|r| - 1])
  {
    var front, back := SkipSpaces(s, 0), Back(s, |s|);
    if back <= front then "" else s[front..back]
  }

  /** A blank, a tab, or one of the characters that end a line or a page. */
  ghost predicate IsBlank(c: char) {
    c as int == 32 || 9 <= c as int <= 13
  }

  /** Only spaces are cut off, at both ends, and all of them. */
  lemma TrimCuts(s: string) returns (front: string, back: string)
    ensures s == front + Trim(s) + back
    ensures (forall i :: 0 <= i < |front| ==> IsBlank(front[i])) && forall i :: 0 <= i < |back| ==> IsBlank(back[i])
    ensures Trim(s) != "" ==> !IsBlank(Trim(s)[0]) && !IsBlank(Trim(s)[|Trim(s)| - 1])
  {
    hide IsSpace, IsBlank, SkipSpaces, Back;
    var from, to := SkipSpaces(s, 0), Back(s, |s|);
    front, back := if to <= from then s else s[..from], if to <= from then "" else s[to..];
    SpacesAreBlank(front);
    SpacesAreBlank(back);
    if from < to {
      SpaceIsBlank(s[from]);
      SpaceIsBlank(s[to - 1]);
    }
  }

  lemma SpacesAreBlank(s: string)
    requires AllSpaces(s)
    ensures forall i :: 0 <= i < |s| ==> IsBlank(s[i])
  {
    hide IsSpace, IsBlank;
    forall i | 0 <= i < |s|
      ensures IsBlank(s[i])
    {
      SpaceIsBlank(s[i]);
    }
  }

  lemma SpaceIsBlank(c: char)
    ensures IsSpace(c) <==> IsBlank(c)
  {
    assert '\t' as int == 9 && '\n' as int == 10 && '\U{0B}' as int == 11 && '\U{0C}' as int == 12;
    assert '\r' as int == 13 && ' ' as int == 32;
    assert (c as int) as char == c;
  }

  /** The capital letters become small ones, nothing else changes. */
  lemma LowerExactly(s: string, i: nat)
    requires i < |s|
    ensures |Lower(s)| == |s|
    ensures Lower(s)[i] as int == if 65 <= s[i] as int <= 90 then s[i] as int + 32 else s[i] as int
  {
    assert 'A' as int == 65 && 'Z' as int == 90 && 'a' as int == 97;
  }

  lemma TrimTrimmed(s: string)
    ensures Trim(Trim(s)) == Trim(s)
  {
  }

  lemma {:induction false} SkipSpacesLower(s: string, pos: nat)
    requires pos <= |s|
    ensures SkipSpaces(Lower(s), pos) == SkipSpaces(s, pos)
    decreases |s| - pos
  {
    if pos < |s| { SkipSpacesLower(s, pos + 1); }
  }

  lemma {:induction false} BackLower(s: string, n: nat)
    requires n <= |s|
    ensures Back(Lower(s), n) == Back(s, n)
  {
    if n > 0 { BackLower(s, n - 1); }
  }

  lemma TrimLower(s: string)
    ensures Trim(Lower(s)) == Lower(Trim(s))
  {
    hide SkipSpaces, Back;
    SkipSpacesLower(s, 0);
    BackLower(s, |s|);
    var front, back := SkipSpaces(s, 0), Back(s, |s|);
    if front < back {
      assert Lower(s)[front..back] == Lower(s[front..back]);
    }
  }

  /** A key taken from the connection string is its own normal form. */
  lemma NormalKey(s: string)
    ensures Trim(Lower(Lower(Trim(s)))) == Lower(Trim(s))
  {
    LowerLower(Trim(s));
    TrimLower(Trim(s));
    TrimTrimmed(s);
  }

  lemma LowerLower(s: string)
    ensures Lower(Lower(s)) == Lower(s)
  {
  }

  // ----- reading one pair ------------------------------------------------------------------------

  /** The first `c` at or after `pos`, or the length if there is none. */
  function Find(s: string, c: char, pos: nat): (r: nat)
    requires pos <= |s|
    ensures pos <= r <= |s| && (r < |s| ==> s[r] == c)
    ensures forall i :: pos <= i < r ==> s[i] != c
    decreases |s| - pos
  {
    if pos == |s| || s[pos] == c then pos else Find(s, c, pos + 1)
  }

  lemma {:induction false} FindIs(s: string, c: char, pos: nat, r: nat)
    requires pos <= r <= |s| && (r < |s| ==> s[r] == c)
    requires forall i :: pos <= i < r ==> s[i] != c
    ensures Find(s, c, pos) == r
    decreases r - pos
  {
    if pos < r { FindIs(s, c, pos + 1, r); }
  }

  predicate IsSeparator(c: char) {
    c == ';' || IsSpace(c)
  }

  function SkipSeparators(s: string, pos: nat): (r: nat)
    requires pos <= |s|
    ensures pos <= r <= |s| && (r < |s| ==> !IsSeparator(s[r]))
    ensures forall i :: pos <= i < r ==> IsSeparator(s[i])
    decreases |s| - pos
  {
    if pos < |s| && IsSeparator(s[pos]) then SkipSeparators(s, pos + 1) else pos
  }

  /** A value read up to its closing brace: the value, the position after it, and whether it was closed. */
  datatype BracedValue = BracedValue(value: string, end: nat, closed: bool) {
    function After(c: char): BracedValue {
      this.(value := [c] + value)
    }
  }

  function Braced(s: string, pos: nat): (r: BracedValue)
    requires pos <= |s|
    ensures pos <= r.end <= |s|
    decreases |s| - pos
  {
    if pos == |s| then BracedValue("", pos, false)
    else if s[pos] != '}' then Braced(s, pos + 1).After(s[pos])
    else if pos + 1 < |s| && s[pos + 1] == '}' then Braced(s, pos + 2).After('}')
    else BracedValue("", pos + 1, true)
  }

  datatype Pair = Pair(key: string, value: string)

  /** What is found from a position on: nothing more, something malformed, or a pair. */
  datatype Scan = Finished | Malformed | Found(pair: Pair, next: nat)

  function ScanPair(s: string, pos: nat): (r: Scan)
    requires pos <= |s|
    ensures r.Found? ==> pos < r.next <= |s|
    ensures r.Found? ==> '=' !in r.pair.key
  {
    var start := SkipSeparators(s, pos);
    if start == |s| then Finished else ScanFrom(s, start)
  }

  function ScanFrom(s: string, start: nat): (r: Scan)
    requires start <= |s|
    ensures r.Found? ==> start < r.next <= |s|
    ensures r.Found? ==> '=' !in r.pair.key
  {
    var equal := Find(s, '=', start);
    if equal == |s| then Malformed
    else
      var key := Lower(Trim(s[start..equal]));
      KeyHasNoDelimiter(s[start..equal]);
      ScanValue(s, key, SkipSpaces(s, equal + 1))
  }

  /** The pair whose value begins at `begin`. */
  function ScanValue(s: string, key: string, begin: nat): (r: Scan)
    requires begin <= |s|
    ensures r.Found? ==> begin <= r.next <= |s| && r.pair.key == key
  {
    if begin < |s| && s[begin] == '{' then
      var braced := Braced(s, begin + 1);
      var next := SkipSpaces(s, braced.end);
      if !braced.closed || (next < |s| && s[next] != ';') then Malformed else Found(Pair(key, braced.value), next)
    else
      var end := Find(s, ';', begin);
      Found(Pair(key, Trim(s[begin..end])), end)
  }

  lemma KeyHasNoDelimiter(k: string)
    requires '=' !in k
    ensures '=' !in Lower(Trim(k))
  {
    hide Trim, Lower;
    var front, back := TrimCuts(k);
    NotInside(front, Trim(k), back, '=');
    LowerKeepsOut(Trim(k));
  }

  lemma NotInside(front: string, middle: string, back: string, c: char)
    requires c !in front + middle + back
    ensures c !in middle
  {
    forall i | 0 <= i < |middle| ensures middle[i] != c {
      assert (front + middle + back)[|front| + i] == middle[i];
    }
  }

  lemma LowerKeepsOut(s: string)
    requires '=' !in s
    ensures '=' !in Lower(s)
  {
    forall i | 0 <= i < |s| ensures Lower(s)[i] != '=' {
      assert s[i] in s;
    }
  }

  /** The pairs from `pos` on, up to the end or to where the string is malformed. */
  datatype Pairs = Pairs(pairs: seq<Pair>, wellFormed: bool)

  function ScanPairs(s: string, pos: nat): Pairs
    requires pos <= |s|
    decreases |s| - pos
  {
    match ScanPair(s, pos)
    case Finished => Pairs([], true)
    case Malformed => Pairs([], false)
    case Found(pair, next) =>
      var rest := ScanPairs(s, next);
      Pairs([pair] + rest.pairs, rest.wellFormed)
  }

  // ----- what a pair does ------------------------------------------------------------------------

  const CUPOLA := "cupolaconnection"

  predicate IsIgnored(key: string) {
    key == "driver" || key == "trusted_connection" || key == "uid" || key == "pwd"
  }

  predicate IsSessionInit(key: string) {
    key == "session_init_sql_file" || key == "session_init_sql_file_sha256"
  }

  /** Whether a pair may stand next to cupolaconnection. */
  predicate IsExpected(p: Pair) {
    p.key == "driver" || p.key == CUPOLA || ((p.key == "uid" || p.key == "pwd" || p.key == "trusted_connection")
        && p.value == "")
  }

  datatype Settings = Settings(config: map<string, string>, seen: map<string, bool>, withInfo: bool) {

    /** The local options are registered, and whatever has been seen has a value. */
    ghost predicate Valid() {
      && CUPOLA in seen && "dsn" in seen && "session_init_sql_file" in seen && "session_init_sql_file_sha256" in seen
      && (forall k :: k in seen && seen[k] ==> k in config)
    }

    function With(key: string, value: string): Settings {
      this.(config := config[key := value], seen := seen[key := true])
    }

    function Accept(key: string, value: string): (Settings, Return) {
      if IsIgnored(key) then (this, Success)
      else if key !in seen then (this, SuccessWithInfo)
      else if IsSessionInit(key) then (this, Error)
      else (With(key, Trim(value)), Success)
    }

    function Noted(ret: Return): Settings {
      if ret == SuccessWithInfo then this.(withInfo := true) else this
    }

    /** One pair of the connection string. */
    function Take(p: Pair): (Settings, Return) {
      if p.key == CUPOLA then (With(p.key, p.value), Success)
      else
        var (after, ret) := Accept(p.key, p.value);
        (after.Noted(ret), ret)
    }
  }

  /** The settings, and what the parser has noted about the keys. */
  datatype Parser = Parser(settings: Settings, supplied: set<string>, duplicate: bool, unexpected: bool) {

    function Take(p: Pair): (Parser, Return) {
      var (after, ret) := settings.Take(p);
      (Parser(after, supplied + {p.key}, duplicate || p.key in supplied, unexpected || !IsExpected(p)), ret)
    }

    function Run(pairs: Pairs): (Parser, Return)
      decreases |pairs.pairs|
    {
      if pairs.pairs == [] then
        (this, if !pairs.wellFormed then Error
               else if CUPOLA in settings.seen && settings.seen[CUPOLA] && (duplicate || unexpected) then Error
               else if settings.withInfo then SuccessWithInfo
               else Success)
      else
        var (after, ret) := Take(pairs.pairs[0]);
        if ret == Error then (after, Error) else after.Run(Pairs(pairs.pairs[1..], pairs.wellFormed))
    }
  }

  function Fresh(settings: Settings): Parser {
    Parser(settings, {}, false, false)
  }

  function Registered(options: set<string>): (r: Settings)
    ensures r.Valid() && !r.seen[CUPOLA]
  {
    var names := options + {CUPOLA, "database", "dsn", "session_init_sql_file", "session_init_sql_file_sha256"};
    Settings(map[], map name | name in names :: false, false)
  }

  // ----- the program -----------------------------------------------------------------------------

  lemma Regroup(a: string, b: string, c: string)
    ensures (a + b) + c == a + (b + c)
  {
  }

  lemma BracedEnds(s: string)
    ensures Braced(s, |s|) == BracedValue("", |s|, false)
  {
  }

  lemma BracedStep(s: string, pos: nat)
    requires pos < |s|
    ensures var r := Braced(s, pos);
            if s[pos] == '}' && !(pos + 1 < |s| && s[pos + 1] == '}') then r == BracedValue("", pos + 1, true)
            else
              var rest := Braced(s, if s[pos] == '}' then pos + 2 else pos + 1);
              r.value == [s[pos]] + rest.value && r.end == rest.end && r.closed == rest.closed
  {
  }

  /** Read a braced value from after its opening brace. */
  method ReadBraced(s: string, start: nat) returns (value: string, pos: nat, closed: bool)
    requires start <= |s|
    ensures BracedValue(value, pos, closed) == Braced(s, start)
  {
    hide Braced;
    value, pos, closed := "", start, false;
    while pos < |s|
      invariant start <= pos <= |s| && !closed
      invariant Braced(s, start).value == value + Braced(s, pos).value
      invariant Braced(s, start).end == Braced(s, pos).end && Braced(s, start).closed == Braced(s, pos).closed
    {
      BracedStep(s, pos);
      Regroup(value, [s[pos]], Braced(s, if s[pos] == '}' && pos + 1 < |s| then pos + 2 else pos + 1).value);
      var ch := s[pos];
      pos := pos + 1;
      if ch == '}' {
        if pos < |s| && s[pos] == '}' {
          pos := pos + 1;
        } else {
          closed := true;
          return;
        }
      }
      value := value + [ch];
    }
    BracedEnds(s);
  }

  class Connect {
    const inputStr: string
    var config: map<string, string>
    var seen: map<string, bool>
    var withInfo: bool
    var dsn: string

    ghost function State(): Settings
      reads this
    {
      Settings(config, seen, withInfo)
    }

    constructor (input: string, options: set<string>)
      ensures inputStr == input && State() == Registered(options) && dsn == ""
    {
      inputStr, config, withInfo, dsn := input, map[], false, "";
      seen := map name | name in options + {CUPOLA, "database", "dsn", "session_init_sql_file",
          "session_init_sql_file_sha256"} :: false;
    }

    method SetSuccessWithInfo(ret: Return) returns (ok: bool)
      modifies `withInfo
      ensures State() == old(State()).Noted(ret) && ok == (ret != Error)
    {
      if ret == Error { return false; }
      if ret == SuccessWithInfo { withInfo := true; }
      return true;
    }

    method FindMatchingKey(input: string) returns (ret: Return, key: string)
      ensures ret == if input in seen then Success else SuccessWithInfo
      ensures ret == Success ==> key == input
    {
      if input in seen { return Success, input; }
      return SuccessWithInfo, "";
    }

    method FindKeyValPair(row: string) returns (ret: Return)
      modifies `config, `seen
      ensures var equal := Find(row, '=', 0);
              if equal == |row| then State() == old(State()) && ret == Error
              else (State(), ret) == old(State()).Accept(Trim(Lower(row[..equal])), row[equal + 1..])
    {
      var valPos := Find(row, '=', 0);
      if valPos == |row| { return Error; }
      var candidate := Trim(Lower(row[..valPos]));
      if IsIgnored(candidate) { return Success; }
      var key;
      ret, key := FindMatchingKey(candidate);
      if ret != Success { return; }
      if IsSessionInit(key) { return Error; }
      var value := Trim(row[valPos + 1..]);
      config := config[key := value];
      seen := seen[key := true];
    }

    method GetOptionFromConfigMap(name: string) returns (value: string)
      requires State().Valid() && name in seen
      ensures value == if seen[name] then config[name] else ""
    {
      return if seen[name] then config[name] else "";
    }

    /** The next pair of the connection string. */
    method ReadPair(from: nat) returns (scan: Scan)
      requires from <= |inputStr|
      ensures scan == ScanPair(inputStr, from)
    {
      hide Trim, Lower, Find, SkipSpaces, SkipSeparators, ScanValue;
      var pos := SkipSeparators(inputStr, from);
      if pos == |inputStr| { return Finished; }
      var equal := Find(inputStr, '=', pos);
      if equal == |inputStr| { return Malformed; }
      var key := Lower(Trim(inputStr[pos..equal]));
      scan := ReadValue(key, SkipSpaces(inputStr, equal + 1));
    }

    method ReadValue(key: string, begin: nat) returns (scan: Scan)
      requires begin <= |inputStr|
      ensures scan == ScanValue(inputStr, key, begin)
    {
      hide Trim, Find, SkipSpaces, Braced;
      var pos := begin;
      var value;
      if pos < |inputStr| && inputStr[pos] == '{' {
        var closed;
        value, pos, closed := ReadBraced(inputStr, pos + 1);
        pos := SkipSpaces(inputStr, pos);
        if !closed || (pos < |inputStr| && inputStr[pos] != ';') { return Malformed; }
      } else {
        var end := Find(inputStr, ';', pos);
        value := Trim(inputStr[pos..end]);
        pos := end;
      }
      return Found(Pair(key, value), pos);
    }

    /** A cupolaconnection is taken as it is written, any other pair goes through FindKeyValPair. */
    method TakePair(pair: Pair) returns (ret: Return)
      requires '=' !in pair.key && Trim(Lower(pair.key)) == pair.key
      modifies `config, `seen, `withInfo
      ensures (State(), ret) == old(State()).Take(pair)
    {
      hide Trim, Lower, Find, IsIgnored, IsSessionInit;
      if pair.key == CUPOLA {
        config := config[pair.key := pair.value];
        seen := seen[pair.key := true];
        return Success;
      }
      RowSplits(pair.key, pair.value);
      ret := FindKeyValPair(pair.key + "=" + pair.value);
      var _ := SetSuccessWithInfo(ret);
    }

    method ParseInputStr() returns (ret: Return)
      requires State().Valid()
      modifies this
      ensures State().Valid()
      ensures var (after, outcome) := Fresh(old(State())).Run(ScanPairs(inputStr, 0));
              State() == after.settings && ret == outcome
      ensures dsn == if ret == Error then old(dsn) else if seen["dsn"] then config["dsn"] else ""
    {
      hide Parser.Run, ScanPairs, ScanPair, IsExpected, Trim, Lower, Settings.Take;
      var supplied, duplicate, unexpected := {}, false, false;
      var pos := 0;
      while pos < |inputStr|
        invariant pos <= |inputStr| && State().Valid() && dsn == old(dsn)
        invariant Parser(State(), supplied, duplicate, unexpected).Run(ScanPairs(inputStr, pos)) ==
                  Fresh(old(State())).Run(ScanPairs(inputStr, 0))
        decreases |inputStr| - pos
      {
        RunStep(Parser(State(), supplied, duplicate, unexpected), inputStr, pos);
        var scan := ReadPair(pos);
        if scan.Finished? { break; }
        if scan.Malformed? { return Error; }
        pos := scan.next;
        duplicate := duplicate || scan.pair.key in supplied;
        supplied := supplied + {scan.pair.key};
        unexpected := unexpected || !IsExpected(scan.pair);
        ret := TakePair(scan.pair);
        if ret == Error { return; }
      }
      RunEnds(Parser(State(), supplied, duplicate, unexpected), inputStr, pos);
      if seen[CUPOLA] && (duplicate || unexpected) { return Error; }
      dsn := GetOptionFromConfigMap("dsn");
      return if withInfo then SuccessWithInfo else Success;
    }
  }

  lemma RunStep(parser: Parser, s: string, pos: nat)
    requires parser.settings.Valid() && pos <= |s|
    ensures parser.Run(ScanPairs(s, pos)) ==
            match ScanPair(s, pos)
            case Finished => parser.Run(Pairs([], true))
            case Malformed => (parser, Error)
            case Found(pair, next) =>
              var (after, ret) := parser.Take(pair);
              if ret == Error then (after, Error) else after.Run(ScanPairs(s, next))
    ensures ScanPair(s, pos).Found? ==> parser.Take(ScanPair(s, pos).pair).0.settings.Valid()
    ensures ScanPair(s, pos).Found? ==> var key := ScanPair(s, pos).pair.key; Trim(Lower(key)) == key
  {
    hide Parser.Take, ScanPair;
    if ScanPair(s, pos).Found? {
      TakeValid(parser, ScanPair(s, pos).pair);
      ScannedKey(s, pos);
    }
  }

  lemma ScannedKey(s: string, pos: nat)
    requires pos <= |s| && ScanPair(s, pos).Found?
    ensures var key := ScanPair(s, pos).pair.key; Trim(Lower(key)) == key
  {
    hide Trim, Lower;
    var start := SkipSeparators(s, pos);
    NormalKey(s[start..Find(s, '=', start)]);
  }

  lemma TakeValid(parser: Parser, p: Pair)
    requires parser.settings.Valid()
    ensures parser.Take(p).0.settings.Valid()
  {
  }

  lemma RunEnds(parser: Parser, s: string, pos: nat)
    requires parser.settings.Valid() && pos <= |s| && (pos == |s| || ScanPair(s, pos) == Finished)
    ensures parser.Run(ScanPairs(s, pos)) ==
            (parser, if parser.settings.seen[CUPOLA] && (parser.duplicate || parser.unexpected) then Error
                     else if parser.settings.withInfo then SuccessWithInfo
                     else Success)
  {
  }

  /** Handing a pair on as `key=value` loses nothing but the spaces around the value. */
  lemma RowSplits(key: string, value: string)
    requires '=' !in key
    ensures var row := key + "=" + value;
            Find(row, '=', 0) == |key| && row[..|key|] == key && row[|key| + 1..] == value
  {
    var row := key + "=" + value;
    FindIs(row, '=', 0, |key|);
  }
}
