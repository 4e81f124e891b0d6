/**
  Writing a list of steps as a path.  Every list of steps has such a path, and reading it back gives
  the steps; keys are quoted, with quotes and backslashes escaped.
*/
module JsonPathPrinter {
  import opened Common
  import opened JsonPathReader
  import opened JsonPath

  function Escape(key: string): string {
    if key == "" then ""
    else (if key[0] == '"' || key[0] == '\\' then ['\\', key[0]] else [key[0]]) + Escape(key[1..])
  }

  function Decimal(n: nat): string {
    (if n < 10 then "" else Decimal(n / 10)) + [('0' as int + n % 10) as char]
  }

  function PrintStep(s: Step): string {
    match s
    case Field(key) => ".\"" + Escape(key) + "\""
    case AnyField => ".*"
    case Index(n) => "[" + Decimal(n) + "]"
    case FromBack(n) => "[-" + Decimal(n) + "]"
    case AnyElement => "[*]"
    case Descend => "..*"
  }

  function Print(steps: seq<Step>): string {
    if steps == [] then "" else PrintStep(steps[0]) + Print(steps[1..])
  }

  /** The steps that some path denotes (`ExpressibleExactly`): an empty key is an error, the key `*` is the
      wildcard even in quotes, an index has at most nineteen digits, and index zero from the back is index
      zero. */
  predicate IsExpressible(s: Step) {
    match s
    case Field(key) => key != "" && key != "*"
    case Index(n) => n < Pow10(IDX_T_SAFE_DIG)
    case FromBack(n) => 0 < n < Pow10(IDX_T_SAFE_DIG)
    case _ => true
  }

  // ----- keys ------------------------------------------------------------------------------------

  lemma {:induction false} QuotedAtEscaped(pre: string, key: string, rest: string)
    ensures QuotedAt(pre + (Escape(key) + ("\"" + rest)), |pre|) == Some((|Escape(key)|, key))
    decreases |key|
  {
    var p := pre + (Escape(key) + ("\"" + rest));
    if key == "" {
      assert p[|pre|] == '"';
    } else {
      var chunk := if key[0] == '"' || key[0] == '\\' then ['\\', key[0]] else [key[0]];
      assert p == (pre + chunk) + (Escape(key[1..]) + ("\"" + rest));
      QuotedAtEscaped(pre + chunk, key[1..], rest);
      assert p[|pre|] == chunk[0];
      assert |chunk| == 2 ==> p[|pre| + 1] == chunk[1];
      assert key == [key[0]] + key[1..];
    }
  }

  lemma {:induction false} EscapeLonger(key: string)
    ensures |Escape(key)| >= |key|
  {
    if key != "" {
      EscapeLonger(key[1..]);
    }
  }

  lemma KeyAtPrinted(pre: string, key: string, rest: string)
    requires key != ""
    ensures KeyAt(pre + ("\"" + (Escape(key) + ("\"" + rest))), |pre|) == KeyRead(|Escape(key)| + 2, false, key)
  {
    hide Escape, QuotedAt;
    var body := Escape(key) + ("\"" + rest);
    OneChar(pre, '"', body);
    QuotedAtEscaped(pre + "\"", key, rest);
    EscapeLonger(key);
  }

  // ----- indices ---------------------------------------------------------------------------------

  lemma {:induction false} DecimalRoundTrip(n: nat)
    ensures Decimal(n) != "" && AllDigits(Decimal(n)) && DecimalValue(Decimal(n)) == n
  {
    var last := ('0' as int + n % 10) as char;
    if n < 10 {
      assert Decimal(n) == [last];
      assert [last][..0] == "";
    } else {
      DecimalRoundTrip(n / 10);
      assert Decimal(n)[..|Decimal(n)| - 1] == Decimal(n / 10);
    }
  }

  lemma {:induction false} DecimalLength(n: nat, digits: nat)
    requires digits > 0 && n < Pow10(digits)
    ensures |Decimal(n)| <= digits
    decreases digits
  {
    if n >= 10 {
      assert digits > 1 by {
        assert Pow10(1) == 10;
      }
      DecimalLength(n / 10, digits - 1);
    }
  }

  lemma DigitsPrinted(pre: string, digits: string, rest: string)
    requires 0 < |digits| <= IDX_T_SAFE_DIG && AllDigits(digits)
    ensures var p := pre + (digits + ("]" + rest));
            IntegerLength(p, |pre|) == |digits| && p[|pre|..|pre| + |digits|] == digits && IsDigit(p[|pre|])
  {
    hide DigitRun;
    var p := pre + (digits + ("]" + rest));
    assert p[|pre|..|pre| + |digits|] == digits;
    assert p[|pre| + |digits|] == ']';
    DigitsAreRead(p, |pre|, |digits|);
    assert p[|pre|] == digits[0];
  }

  lemma IntegerPrinted(pre: string, n: nat, rest: string)
    requires n < Pow10(IDX_T_SAFE_DIG)
    ensures var p := pre + (Decimal(n) + ("]" + rest));
            && IntegerLength(p, |pre|) == |Decimal(n)| > 0
            && p[|pre|..|pre| + |Decimal(n)|] == Decimal(n)
            && IsDigit(p[|pre|])
  {
    hide Decimal, Pow10, IntegerLength;
    DecimalRoundTrip(n);
    DecimalLength(n, IDX_T_SAFE_DIG);
    DigitsPrinted(pre, Decimal(n), rest);
  }

  lemma ClosedAt(pre: string, digits: string, rest: string)
    ensures var p := pre + (digits + ("]" + rest));
            |pre| + |digits| < |p| && p[|pre| + |digits|] == ']'
  {
  }

  lemma IndexAtPrinted(pre: string, n: nat, rest: string)
    requires n < Pow10(IDX_T_SAFE_DIG)
    ensures IndexAt(pre + (Decimal(n) + ("]" + rest)), |pre|) == Some(IndexRead(|pre| + |Decimal(n)| + 1, n, false))
  {
    hide IntegerLength, DecimalValue, Decimal, Pow10, AllDigits;
    DecimalRoundTrip(n);
    IntegerPrinted(pre, n, rest);
    ClosedAt(pre, Decimal(n), rest);
  }

  lemma BackIndexAtPrinted(pre: string, n: nat, rest: string)
    requires n < Pow10(IDX_T_SAFE_DIG)
    ensures IndexAt(pre + ("-" + (Decimal(n) + ("]" + rest))), |pre|) ==
            Some(IndexRead(|pre| + |Decimal(n)| + 2, n, true))
  {
    hide IntegerLength, DecimalValue, Decimal, Pow10, AllDigits;
    DecimalRoundTrip(n);
    IntegerPrinted(pre + "-", n, rest);
    ClosedAt(pre + "-", Decimal(n), rest);
    OneChar(pre, '-', Decimal(n) + ("]" + rest));
  }

  lemma OneChar(pre: string, c: char, body: string)
    ensures pre + ([c] + body) == (pre + [c]) + body
    ensures (pre + ([c] + body))[|pre|] == c
  {
  }

  // ----- steps and paths -------------------------------------------------------------------------

  lemma ParseKeyStep(p: string, i: nat, key: KeyRead)
    requires i + 1 < |p| && p[i] == '.' && KeyAt(p, i + 1) == key && key.IsValid()
    ensures Parse(p, i) == Then(KeySteps(key), Parse(p, i + 1 + key.charsRead))
  {
    hide KeyAt, IndexAt, KeySteps, Then;
  }

  lemma ParseIndexStep(p: string, i: nat, index: IndexRead)
    requires i + 1 < |p| && p[i] == '[' && IndexAt(p, i + 1) == Some(index) && index.next <= |p|
    ensures Parse(p, i) == Then([IndexStep(index)], Parse(p, index.next))
  {
    hide KeyAt, IndexAt, IndexStep, Then;
  }

  lemma Regroup(pre: string, open: string, body: string, close: string, rest: string)
    ensures pre + (open + body + close + rest) == pre + (open + (body + (close + rest)))
  {
    assert open + body + close + rest == open + (body + (close + rest));
  }

  lemma FieldPrinted(pre: string, key: string, rest: string)
    requires IsExpressible(Field(key))
    ensures var p := pre + (PrintStep(Field(key)) + rest);
            Parse(p, |pre|) == Then([Field(key)], Parse(p, |pre| + |PrintStep(Field(key))|))
  {
    hide KeyAt, Parse, Escape;
    var p := pre + (PrintStep(Field(key)) + rest);
    Regroup(pre, ".\"", Escape(key), "\"", rest);
    var body := Escape(key) + ("\"" + rest);
    assert ".\"" + body == "." + ("\"" + body);
    OneChar(pre, '.', "\"" + body);
    KeyAtPrinted(pre + ".", key, rest);
    ParseKeyStep(p, |pre|, KeyRead(|Escape(key)| + 2, false, key));
  }

  lemma IndexPrinted(pre: string, n: nat, rest: string)
    requires IsExpressible(Index(n))
    ensures var p := pre + (PrintStep(Index(n)) + rest);
            Parse(p, |pre|) == Then([Index(n)], Parse(p, |pre| + |PrintStep(Index(n))|))
  {
    hide IndexAt, Parse, Decimal, Pow10;
    Pow10Safe();
    IndexAtPrinted(pre + "[", n, rest);
    var p := pre + (PrintStep(Index(n)) + rest);
    Regroup(pre, "[", Decimal(n), "]", rest);
    OneChar(pre, '[', Decimal(n) + ("]" + rest));
    ParseIndexStep(p, |pre|, IndexRead(|pre| + |Decimal(n)| + 2, n, false));
  }

  lemma OpenBack(pre: string, body: string)
    ensures pre + ("[-" + body) == (pre + "[") + ("-" + body)
    ensures (pre + ("[-" + body))[|pre|] == '['
  {
  }

  lemma FromBackPrinted(pre: string, n: nat, rest: string)
    requires IsExpressible(FromBack(n))
    ensures var p := pre + (PrintStep(FromBack(n)) + rest);
            Parse(p, |pre|) == Then([FromBack(n)], Parse(p, |pre| + |PrintStep(FromBack(n))|))
  {
    hide IndexAt, Parse, Decimal, Pow10;
    Pow10Safe();
    BackIndexAtPrinted(pre + "[", n, rest);
    var p := pre + (PrintStep(FromBack(n)) + rest);
    Regroup(pre, "[-", Decimal(n), "]", rest);
    OpenBack(pre, Decimal(n) + ("]" + rest));
    ParseIndexStep(p, |pre|, IndexRead(|pre| + |Decimal(n)| + 3, n, true));
  }

  lemma FirstChars(pre: string, text: string, rest: string)
    ensures var p := pre + (text + rest);
            && |p| == |pre| + |text| + |rest|
            && (forall i :: 0 <= i < |text| ==> p[|pre| + i] == text[i])
            && (rest != "" ==> p[|pre| + |text|] == rest[0])
  {
  }

  lemma AnyFieldPrinted(pre: string, rest: string)
    requires rest == "" || rest[0] == '.' || rest[0] == '['
    ensures var p := pre + (".*" + rest);
            Parse(p, |pre|) == Then([AnyField], Parse(p, |pre| + 2))
  {
    hide Parse;
    var p := pre + (".*" + rest);
    FirstChars(pre, ".*", rest);
    assert p[|pre| + 1] == '*';
    ParseKeyStep(p, |pre|, WILDCARD);
  }

  lemma DescendPrinted(pre: string, rest: string)
    ensures var p := pre + ("..*" + rest);
            Parse(p, |pre|) == Then([Descend], Parse(p, |pre| + 3))
  {
    hide Parse;
    var p := pre + ("..*" + rest);
    FirstChars(pre, "..*", rest);
    assert p[|pre| + 1] == '.' && p[|pre| + 2] == '*';
    ParseKeyStep(p, |pre|, REC_WILDCARD);
  }

  lemma AnyElementPrinted(pre: string, rest: string)
    ensures var p := pre + ("[*]" + rest);
            Parse(p, |pre|) == Then([AnyElement], Parse(p, |pre| + 3))
  {
    hide Parse;
    var p := pre + ("[*]" + rest);
    FirstChars(pre, "[*]", rest);
    assert p[|pre| + 1] == '*' && p[|pre| + 2] == ']';
    ParseIndexStep(p, |pre|, IndexRead(|pre| + 3, INVALID_INDEX, false));
  }

  /** Reading one printed step leaves the reader at what was printed after it. */
  lemma ParsePrintedStep(pre: string, s: Step, rest: string)
    requires IsExpressible(s)
    requires rest == "" || rest[0] == '.' || rest[0] == '['
    ensures var p := pre + (PrintStep(s) + rest);
            Parse(p, |pre|) == Then([s], Parse(p, |pre| + |PrintStep(s)|))
  {
    hide Parse, Escape, Decimal, Then;
    match s
    case Field(key) => FieldPrinted(pre, key, rest);
    case Index(n) => IndexPrinted(pre, n, rest);
    case FromBack(n) => FromBackPrinted(pre, n, rest);
    case AnyField => AnyFieldPrinted(pre, rest);
    case AnyElement => AnyElementPrinted(pre, rest);
    case Descend => DescendPrinted(pre, rest);
  }

  lemma PrintStarts(steps: seq<Step>)
    ensures Print(steps) == "" || Print(steps)[0] == '.' || Print(steps)[0] == '['
  {
    hide Escape, Decimal;
  }

  lemma {:induction false} ParsePrinted(pre: string, steps: seq<Step>)
    requires forall i :: 0 <= i < |steps| ==> IsExpressible(steps[i])
    ensures Parse(pre + Print(steps), |pre|) == Steps(steps)
    decreases |steps|
  {
    hide Parse, PrintStep;
    if steps == [] {
      assert pre + Print(steps) == pre;
      ParseNothing(pre);
    } else {
      var rest := Print(steps[1..]);
      assert pre + Print(steps) == (pre + PrintStep(steps[0])) + rest;
      ParsePrinted(pre + PrintStep(steps[0]), steps[1..]);
      PrintStarts(steps[1..]);
      ParsePrintedStep(pre, steps[0], rest);
      assert pre + (PrintStep(steps[0]) + rest) == (pre + PrintStep(steps[0])) + rest;
      assert [steps[0]] + steps[1..] == steps;
    }
  }

  lemma ParseNothing(p: string)
    ensures Parse(p, |p|) == Steps([])
  {
  }

  /** Every list of expressible steps is what its printed path denotes, is accepted by validation, and
      is classified by whether it can select more than one node. */
  lemma PrintedPathDenotes(steps: seq<Step>)
    requires forall i :: 0 <= i < |steps| ==> IsExpressible(steps[i])
    ensures Parse("$" + Print(steps), 1) == Steps(steps)
    ensures ClassOf(Parse("$" + Print(steps), 1)) == if IsRegular(steps) then Regular else Wildcard
  {
    ParsePrinted("$", steps);
  }

  // ----- every parsed step can be printed --------------------------------------------------------

  lemma KeyIsExpressible(p: string, i: nat)
    requires i < |p| && KeyAt(p, i).IsValid()
    ensures forall k :: 0 <= k < |KeySteps(KeyAt(p, i))| ==> IsExpressible(KeySteps(KeyAt(p, i))[k])
  {
    NamedKeyNotEmpty(p, i);
    if i + 1 < |p| { NamedKeyNotEmpty(p, i + 1); }
    hide NamedKeyAt;
  }

  lemma NamedKeyNotEmpty(p: string, i: nat)
    requires i < |p|
    ensures NamedKeyAt(p, i).IsValid() ==> NamedKeyAt(p, i).key != ""
  {
    QuotedNotEmpty(p, i + 1);
    hide QuotedAt;
  }

  lemma {:induction false} QuotedNotEmpty(p: string, i: nat)
    requires i <= |p|
    ensures QuotedAt(p, i).Some? && QuotedAt(p, i).value.0 > 0 ==> QuotedAt(p, i).value.1 != ""
    decreases |p| - i
  {
  }

  lemma NumberBelow(p: string, i: nat, fromBack: bool)
    requires i <= |p| && NumberAt(p, i, fromBack).Some?
    ensures NumberAt(p, i, fromBack).value.index < Pow10(IDX_T_SAFE_DIG)
  {
    NumberBound(p, i);
    hide DecimalValue, IntegerLength;
  }

  lemma IndexIsExpressible(p: string, i: nat)
    requires i < |p| && IndexAt(p, i).Some?
    ensures IsExpressible(IndexStep(IndexAt(p, i).value))
  {
    hide IntegerLength, DecimalValue, Pow10;
    if NumberStart(p, i).Some? {
      NumberBelow(p, NumberStart(p, i).value, IndexAt(p, i).value.fromBack);
    } else {
      Pow10Safe();
    }
  }

  lemma AllTogether(a: seq<Step>, b: seq<Step>)
    requires forall k :: 0 <= k < |a| ==> IsExpressible(a[k])
    requires forall k :: 0 <= k < |b| ==> IsExpressible(b[k])
    ensures forall k :: 0 <= k < |a + b| ==> IsExpressible((a + b)[k])
  {
  }

  /** What a path denotes is a list of expressible steps. */
  lemma {:induction false} ParsedIsExpressible(p: string, ptr: nat)
    requires ptr <= |p| && Parse(p, ptr).Steps?
    ensures forall k :: 0 <= k < |Parse(p, ptr).steps| ==> IsExpressible(Parse(p, ptr).steps[k])
    decreases |p| - ptr
  {
    hide KeyAt, IndexAt, KeySteps, IndexStep, IsExpressible;
    if ptr < |p| {
      if p[ptr] == '.' {
        var next := ptr + 1 + KeyAt(p, ptr + 1).charsRead;
        KeyIsExpressible(p, ptr + 1);
        ParsedIsExpressible(p, next);
        AllTogether(KeySteps(KeyAt(p, ptr + 1)), Parse(p, next).steps);
      } else {
        var index := IndexAt(p, ptr + 1).value;
        IndexIsExpressible(p, ptr + 1);
        ParsedIsExpressible(p, index.next);
        AllTogether([IndexStep(index)], Parse(p, index.next).steps);
      }
    }
  }

  /** The lists of steps that paths denote are exactly the lists of expressible steps. */
  lemma ExpressibleExactly(steps: seq<Step>)
    ensures (exists p: string :: |p| >= 1 && Parse(p, 1) == Steps(steps)) <==>
            forall k :: 0 <= k < |steps| ==> IsExpressible(steps[k])
  {
    hide Parse, IsExpressible, Print;
    if p: string :| |p| >= 1 && Parse(p, 1) == Steps(steps) {
      ParsedIsExpressible(p, 1);
    }
    if forall k :: 0 <= k < |steps| ==> IsExpressible(steps[k]) {
      ParsePrinted("$", steps);
    }
  }
}
