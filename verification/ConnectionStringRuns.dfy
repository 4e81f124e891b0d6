/**
  What a connection string means: which strings are accepted, which settings they leave, and that printing
  pairs and parsing them gives the pairs back.
*/
module ConnectionStringRuns {
  import opened Common
  import opened ConnectionString
  import opened ConnectionStringText

  // ----- the settings a run leaves ---------------------------------------------------------------

  /** The value of the last pair with this key. */
  function Last(pairs: seq<Pair>, key: string): Option<string> {
    if pairs == [] then None
    else
      var later := Last(pairs[1..], key);
      if later.Some? then later else if pairs[0].key == key then Some(pairs[0].value) else None
  }

  /** Whether a key sets an option. */
  predicate SetsOption(settings: Settings, key: string) {
    key == CUPOLA || (key in settings.seen && !IsIgnored(key) && !IsSessionInit(key))
  }

  /** A cupolaconnection is kept as it is written, any other value without the spaces at its ends. */
  function Stored(key: string, value: string): string {
    if key == CUPOLA then value else Trim(value)
  }

  /** The pairs before the first that names a session option, at which the parser stops. */
  function Taken(pairs: seq<Pair>): (r: seq<Pair>)
    ensures r <= pairs
    ensures forall i :: 0 <= i < |r| ==> r[i].key !in {"session_init_sql_file", "session_init_sql_file_sha256"}
    ensures |r| < |pairs| ==> pairs[|r|].key in {"session_init_sql_file", "session_init_sql_file_sha256"}
  {
    if pairs == [] || IsSessionInit(pairs[0].key) then [] else [pairs[0]] + Taken(pairs[1..])
  }

  lemma TakeSets(parser: Parser, p: Pair, key: string)
    requires parser.settings.Valid()
    ensures IsSessionInit(p.key) <==> parser.Take(p).1 == Error
    ensures IsSessionInit(p.key) ==> parser.Take(p).0.settings == parser.settings
    ensures !IsSessionInit(p.key) ==>
              var after := parser.Take(p).0;
              && after.settings.Valid() && after.settings.seen.Keys == parser.settings.seen.Keys
              && Get(after.settings.config, key) ==
                 if p.key == key && SetsOption(parser.settings, key) then Some(Stored(key, p.value))
                 else Get(parser.settings.config, key)
  {
    hide Trim;
    assert CUPOLA in parser.settings.seen;
  }

  function Get(config: map<string, string>, key: string): Option<string> {
    if key in config then Some(config[key]) else None
  }

  /** Every option is left with the value of the last pair taken that sets it. */
  lemma {:induction false} LastPairWins(parser: Parser, pairs: Pairs, key: string)
    requires parser.settings.Valid()
    ensures var config := parser.Run(pairs).0.settings.config;
            var last := Last(Taken(pairs.pairs), key);
            Get(config, key) ==
            if last.Some? && SetsOption(parser.settings, key) then Some(Stored(key, last.value))
            else Get(parser.settings.config, key)
    decreases |pairs.pairs|
  {
    hide Parser.Take, Stored, Get, IsIgnored, IsSessionInit;
    if pairs.pairs != [] {
      TakeSets(parser, pairs.pairs[0], key);
      if IsSessionInit(pairs.pairs[0].key) { return; }
      assert Taken(pairs.pairs)[1..] == Taken(pairs.pairs[1..]);
      LastPairWins(parser.Take(pairs.pairs[0]).0, Pairs(pairs.pairs[1..], pairs.wellFormed), key);
    }
  }

  /** Parsing a string of segments: every option has the value of the last pair that names it before any session
      option, for cupolaconnection as it was read and without the spaces at its ends for the others; other keys
      leave no trace. */
  lemma SegmentsAreRecovered(options: set<string>, segments: seq<Segment>, key: string)
    requires AreSegments(segments)
    ensures var config := Fresh(Registered(options)).Run(ScanPairs(Join(segments), 0)).0.settings.config;
            var last := Last(Taken(ReadAll(segments)), key);
            Get(config, key) ==
            if last.None? then None
            else if key == "cupolaconnection" then last
            else if key in {"database", "dsn"} then Some(Trim(last.value))
            else if key in options && key !in {"driver", "trusted_connection", "uid", "pwd"} then Some(Trim(last.value))
            else None
  {
    var pairs := Taken(ReadAll(segments));
    hide *;
    NothingYet(options, key);
    RunOfSegments(options, segments, key);
    if Last(pairs, key).Some? { NamedOption(options, pairs, key, Last(pairs, key).value); }
  }

  lemma RunOfSegments(options: set<string>, segments: seq<Segment>, key: string)
    requires AreSegments(segments)
    ensures var start := Registered(options);
            var last := Last(Taken(ReadAll(segments)), key);
            Get(Fresh(start).Run(ScanPairs(Join(segments), 0)).0.settings.config, key) ==
            if last.Some? && SetsOption(start, key) then Some(Stored(key, last.value))
            else Get(start.config, key)
  {
    hide Parser.Run, ScanPairs, Settings.Valid, Join;
    var s := Join(segments);
    assert s[0..] == s;
    SegmentsAreScanned(s, 0, segments);
    LastPairWins(Fresh(Registered(options)), Pairs(ReadAll(segments), true), key);
  }

  lemma NothingYet(options: set<string>, key: string)
    ensures Get(Registered(options).config, key) == None
  {
  }

  /** Which keys set an option, and what they store, in words. */
  lemma NamedOption(options: set<string>, pairs: seq<Pair>, key: string, value: string)
    requires Last(pairs, key).Some?
    requires forall i :: 0 <= i < |pairs| ==> pairs[i].key !in {"session_init_sql_file", "session_init_sql_file_sha256"}
    ensures SetsOption(Registered(options), key) <==>
            || key in {"cupolaconnection", "database", "dsn"}
            || (key in options && key !in {"driver", "trusted_connection", "uid", "pwd"})
    ensures Stored(key, value) == if key == "cupolaconnection" then value else Trim(value)
  {
    LastIsThere(pairs, key);
    hide Last, Trim;
    var p := Pair(key, Last(pairs, key).value);
    assert p in pairs;
  }

  lemma {:induction false} LastIsThere(pairs: seq<Pair>, key: string)
    requires Last(pairs, key).Some?
    ensures Pair(key, Last(pairs, key).value) in pairs
  {
    if Last(pairs[1..], key).Some? { LastIsThere(pairs[1..], key); }
  }

  lemma SessionInitsExactly(pairs: seq<Pair>)
    ensures SessionInits(pairs) <==>
            exists p :: p in pairs && p.key in {"session_init_sql_file", "session_init_sql_file_sha256"}
  {
    if p :| p in pairs && p.key in {"session_init_sql_file", "session_init_sql_file_sha256"} {
      var i :| 0 <= i < |pairs| && pairs[i] == p;
      assert IsSessionInit(pairs[i].key);
    }
  }

  // ----- which strings are accepted --------------------------------------------------------------

  predicate HasKey(pairs: seq<Pair>, key: string) {
    exists i :: 0 <= i < |pairs| && pairs[i].key == key
  }

  /** Only expected keys, each of them once. */
  ghost predicate StandsAlone(pairs: seq<Pair>) {
    && (forall i :: 0 <= i < |pairs| ==> IsExpected(pairs[i]))
    && (forall i, j :: 0 <= i < j < |pairs| ==> pairs[i].key != pairs[j].key)
  }

  /** The pairs are expected, and their keys are new. */
  ghost predicate AddsToAlone(supplied: set<string>, pairs: seq<Pair>) {
    StandsAlone(pairs) && forall i :: 0 <= i < |pairs| ==> pairs[i].key !in supplied
  }

  lemma TakeOutcome(parser: Parser, p: Pair)
    requires parser.settings.Valid()
    ensures var (after, ret) := parser.Take(p);
            && after.settings.Valid() && after.settings.seen.Keys == parser.settings.seen.Keys
            && (ret == Error <==> IsSessionInit(p.key))
            && (after.settings.seen[CUPOLA] <==> parser.settings.seen[CUPOLA] || p.key == CUPOLA)
            && (after.settings.withInfo <==> parser.settings.withInfo || IsUnknown(parser.settings, p.key))
            && (after.duplicate <==> parser.duplicate || p.key in parser.supplied)
            && (after.unexpected <==> parser.unexpected || !IsExpected(p))
            && after.supplied == parser.supplied + {p.key}
  {
  }

  predicate IsUnknown(settings: Settings, key: string) {
    key !in settings.seen && !IsIgnored(key)
  }

  predicate HasUnknown(settings: Settings, pairs: seq<Pair>) {
    exists i :: 0 <= i < |pairs| && IsUnknown(settings, pairs[i].key)
  }

  lemma AloneStep(supplied: set<string>, pairs: seq<Pair>)
    requires pairs != []
    ensures AddsToAlone(supplied, pairs) <==>
            IsExpected(pairs[0]) && pairs[0].key !in supplied && AddsToAlone(supplied + {pairs[0].key}, pairs[1..])
  {
    hide IsExpected;
    if AddsToAlone(supplied, pairs) {
      forall i, j | 0 <= i < j < |pairs[1..]| ensures pairs[1..][i].key != pairs[1..][j].key {
        assert pairs[i + 1].key != pairs[j + 1].key;
      }
    }
    if IsExpected(pairs[0]) && pairs[0].key !in supplied && AddsToAlone(supplied + {pairs[0].key}, pairs[1..]) {
      forall i, j | 0 <= i < j < |pairs| ensures pairs[i].key != pairs[j].key {
        assert pairs[j] == pairs[1..][j - 1];
        if i > 0 { assert pairs[i] == pairs[1..][i - 1]; }
      }
      forall i | 0 <= i < |pairs| ensures IsExpected(pairs[i]) && pairs[i].key !in supplied {
        if i > 0 { assert pairs[i] == pairs[1..][i - 1]; }
      }
    }
  }

  lemma KeysStep(settings: Settings, pairs: seq<Pair>, key: string)
    requires pairs != []
    ensures HasKey(pairs, key) <==> pairs[0].key == key || HasKey(pairs[1..], key)
    ensures HasUnknown(settings, pairs) <==> IsUnknown(settings, pairs[0].key) || HasUnknown(settings, pairs[1..])
    ensures SessionInits(pairs) <==> IsSessionInit(pairs[0].key) || SessionInits(pairs[1..])
  {
    hide IsUnknown, IsSessionInit;
    assert forall i :: 0 < i < |pairs| ==> pairs[i] == pairs[1..][i - 1];
    assert forall i :: 0 <= i < |pairs[1..]| ==> pairs[1..][i] == pairs[i + 1];
  }

  predicate SessionInits(pairs: seq<Pair>) {
    exists i :: 0 <= i < |pairs| && IsSessionInit(pairs[i].key)
  }

  lemma {:induction false} RunOutcome(parser: Parser, pairs: Pairs)
    requires parser.settings.Valid()
    ensures var ret := parser.Run(pairs).1;
            var cupola := parser.settings.seen[CUPOLA] || HasKey(pairs.pairs, CUPOLA);
            var alone := !parser.duplicate && !parser.unexpected && AddsToAlone(parser.supplied, pairs.pairs);
            && (ret != Error <==> pairs.wellFormed && !SessionInits(pairs.pairs) && (cupola ==> alone))
            && (ret != Error ==>
                  (ret == SuccessWithInfo <==> parser.settings.withInfo || HasUnknown(parser.settings, pairs.pairs)))
    decreases |pairs.pairs|
  {
    if pairs.pairs != [] {
      hide Parser.Take, AddsToAlone, HasKey, HasUnknown, SessionInits, IsUnknown, IsSessionInit, IsExpected;
      var p, rest := pairs.pairs[0], Pairs(pairs.pairs[1..], pairs.wellFormed);
      TakeOutcome(parser, p);
      AloneStep(parser.supplied, pairs.pairs);
      KeysStep(parser.settings, pairs.pairs, CUPOLA);
      var after := parser.Take(p).0;
      RunOutcome(after, rest);
      UnknownAlike(parser.settings, after.settings, rest.pairs);
    }
  }

  lemma UnknownAlike(a: Settings, b: Settings, pairs: seq<Pair>)
    requires a.seen.Keys == b.seen.Keys
    ensures HasUnknown(a, pairs) == HasUnknown(b, pairs)
  {
    assert forall k :: k in a.seen <==> k in b.seen;
  }

  /** Exactly which connection strings are accepted: the well-formed ones that name no session
      initialisation option and that, if they name a cupolaconnection, name besides it at most a driver and
      empty credentials, and nothing twice.  An unknown key gives a warning, not an error. */
  lemma AcceptedStrings(options: set<string>, s: string)
    ensures var scanned := ScanPairs(s, 0);
            var ret := Fresh(Registered(options)).Run(scanned).1;
            && (ret != Error <==>
                && scanned.wellFormed
                && (forall p :: p in scanned.pairs ==>
                      p.key !in {"session_init_sql_file", "session_init_sql_file_sha256"})
                && ((exists p :: p in scanned.pairs && p.key == "cupolaconnection") ==>
                      && (forall p :: p in scanned.pairs ==>
                            || p.key in {"driver", "cupolaconnection"}
                            || (p.key in {"uid", "pwd", "trusted_connection"} && p.value == ""))
                      && forall i, j :: 0 <= i < j < |scanned.pairs| ==> scanned.pairs[i].key != scanned.pairs[j].key))
            && (ret == SuccessWithInfo <==>
                && ret != Error
                && exists p :: p in scanned.pairs && p.key !in options
                     && p.key !in {"cupolaconnection", "database", "dsn", "driver", "trusted_connection", "uid", "pwd"})
  {
    hide Parser.Run, ScanPairs, Settings.Valid;
    var pairs := ScanPairs(s, 0).pairs;
    RunOutcome(Fresh(Registered(options)), ScanPairs(s, 0));
    AloneInWords(pairs);
    SessionInitsExactly(pairs);
    if !SessionInits(pairs) { UnknownInWords(options, pairs); }
    hide StandsAlone, HasKey, SessionInits, HasUnknown;
  }

  /** The predicates on the keys, spelled out. */
  lemma AloneInWords(pairs: seq<Pair>)
    ensures HasKey(pairs, CUPOLA) <==> exists p :: p in pairs && p.key == "cupolaconnection"
    ensures StandsAlone(pairs) <==>
            && (forall p :: p in pairs ==>
                  || p.key in {"driver", "cupolaconnection"}
                  || (p.key in {"uid", "pwd", "trusted_connection"} && p.value == ""))
            && forall i, j :: 0 <= i < j < |pairs| ==> pairs[i].key != pairs[j].key
  {
  }

  lemma UnknownInWords(options: set<string>, pairs: seq<Pair>)
    requires !SessionInits(pairs)
    ensures HasUnknown(Registered(options), pairs) <==>
            exists p :: p in pairs && p.key !in options
              && p.key !in {"cupolaconnection", "database", "dsn", "driver", "trusted_connection", "uid", "pwd"}
  {
  }
}
