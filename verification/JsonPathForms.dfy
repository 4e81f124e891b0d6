/**
  All the ways to write the steps of a path: keys with and without quotes, wildcards, descents, and indices
  from the front and from the back.
*/
module JsonPathForms {
  import opened Common
  import opened JsonPathReader
  import opened JsonPath
  import opened JsonPathBounds
  import opened JsonPathPrinter

  // ----- quoted keys -----------------------------------------------------------------------------

  /** A piece of a quoted key: a character that stands for itself, a quote or backslash behind a backslash, or
      a backslash before another character, which stays in the key. */
  datatype Piece = Plain(c: char) | Escaped(c: char) | Kept(c: char)

  predicate IsPiece(x: Piece) {
    x.Escaped? <==> x.c == '"' || x.c == '\\'
  }

  function PieceText(x: Piece): string {
    if x.Plain? then [x.c] else ['\\', x.c]
  }

  function PieceKey(x: Piece): string {
    if x.Kept? then ['\\', x.c] else [x.c]
  }

  predicate ArePieces(pieces: seq<Piece>) {
    forall i :: 0 <= i < |pieces| ==> IsPiece(pieces[i])
  }

  function Spelling(pieces: seq<Piece>): string {
    if pieces == [] then "" else PieceText(pieces[0]) + Spelling(pieces[1..])
  }

  function KeyOf(pieces: seq<Piece>): string {
    if pieces == [] then "" else PieceKey(pieces[0]) + KeyOf(pieces[1..])
  }

  /** A quoted key that begins with a piece. */
  lemma QuotedStart(p: string, i: nat, x: Piece)
    requires IsPiece(x) && i + |PieceText(x)| <= |p| && p[i..i + |PieceText(x)|] == PieceText(x)
    ensures |PieceText(x)| > 0 && p[i] != '"'
    ensures QuotedAt(p, i) == Prefixed(|PieceText(x)|, PieceKey(x), QuotedAt(p, i + |PieceText(x)|))
  {
    hide Prefixed;
    var text := p[i..i + |PieceText(x)|];
    assert p[i] == text[0] && (|text| == 2 ==> p[i + 1] == text[1]);
  }

  lemma {:induction false} QuotedAtSpelled(pre: string, pieces: seq<Piece>, rest: string)
    requires ArePieces(pieces)
    ensures QuotedAt(pre + (Spelling(pieces) + ("\"" + rest)), |pre|) == Some((|Spelling(pieces)|, KeyOf(pieces)))
    decreases |pieces|
  {
    var p := pre + (Spelling(pieces) + ("\"" + rest));
    hide QuotedAt, PieceText, PieceKey, IsPiece, Prefixed;
    if pieces == [] {
      NoPieces(p, |pre|);
    } else {
      var text := PieceText(pieces[0]);
      assert IsPiece(pieces[0]);
      assert p == (pre + text) + (Spelling(pieces[1..]) + ("\"" + rest));
      QuotedAtSpelled(pre + text, pieces[1..], rest);
      assert p[|pre|..|pre| + |text|] == text;
      QuotedStart(p, |pre|, pieces[0]);
      PrefixedParts(|text|, PieceKey(pieces[0]), QuotedAt(p, |pre| + |text|));
    }
  }

  /** The piece at `i`. */
  function PieceAt(p: string, i: nat): (x: Piece)
    requires i < |p| && p[i] != '"' && (p[i] == '\\' ==> i + 1 < |p|)
    ensures IsPiece(x) && i + |PieceText(x)| <= |p| && PieceText(x) == p[i..i + |PieceText(x)|]
  {
    if p[i] != '\\' then Plain(p[i])
    else if p[i + 1] == '"' || p[i + 1] == '\\' then Escaped(p[i + 1])
    else Kept(p[i + 1])
  }

  lemma QuotedPiece(p: string, i: nat)
    requires i <= |p| && QuotedAt(p, i).Some? && (i < |p| ==> p[i] != '"')
    ensures i < |p| && (p[i] == '\\' ==> i + 1 < |p|)
    ensures var x := PieceAt(p, i);
            && |PieceText(x)| > 0 && QuotedAt(p, i + |PieceText(x)|).Some?
            && var rest := QuotedAt(p, i + |PieceText(x)|).value;
            QuotedAt(p, i).value.0 == |PieceText(x)| + rest.0 && QuotedAt(p, i).value.1 == PieceKey(x) + rest.1
  {
    hide QuotedAt, PieceAt, PieceKey, PieceText, IsPiece, Prefixed;
    QuotedInside(p, i);
    var x := PieceAt(p, i);
    QuotedStart(p, i, x);
    PrefixedParts(|PieceText(x)|, PieceKey(x), QuotedAt(p, i + |PieceText(x)|));
  }

  lemma PrefixedParts(n: nat, key: string, rest: Option<(nat, string)>)
    ensures Prefixed(n, key, rest).Some? <==> rest.Some?
    ensures rest.Some? ==>
              Prefixed(n, key, rest).value.0 == n + rest.value.0 && Prefixed(n, key, rest).value.1 == key + rest.value.1
  {
  }

  lemma QuotedInside(p: string, i: nat)
    requires i <= |p| && QuotedAt(p, i).Some? && (i < |p| ==> p[i] != '"')
    ensures i < |p| && (p[i] == '\\' ==> i + 1 < |p|)
  {
    hide Prefixed;
  }

  lemma SliceTogether(p: string, i: nat, j: nat, k: nat)
    requires i <= j <= k <= |p|
    ensures p[i..k] == p[i..j] + p[j..k]
  {
  }

  lemma OnePieceMore(x: Piece, rest: seq<Piece>)
    requires IsPiece(x) && ArePieces(rest)
    ensures ArePieces([x] + rest) && KeyOf([x] + rest) == PieceKey(x) + KeyOf(rest)
    ensures Spelling([x] + rest) == PieceText(x) + Spelling(rest)
  {
    assert ([x] + rest)[1..] == rest;
  }

  /** Every quoted key is spelled by pieces. */
  lemma {:induction false} QuotedHasPieces(p: string, i: nat) returns (pieces: seq<Piece>)
    requires i <= |p| && QuotedAt(p, i).Some?
    ensures ArePieces(pieces) && KeyOf(pieces) == QuotedAt(p, i).value.1
    ensures i + QuotedAt(p, i).value.0 < |p| && Spelling(pieces) == p[i..i + QuotedAt(p, i).value.0]
    decreases |p| - i
  {
    hide QuotedAt, PieceAt, KeyOf, Spelling, PieceKey, PieceText, IsPiece, ArePieces;
    if p[i..] != "" && p[i] == '"' {
      pieces := [];
      NoPieces(p, i);
    } else {
      QuotedPiece(p, i);
      var x := PieceAt(p, i);
      var next := i + |PieceText(x)|;
      var rest := QuotedHasPieces(p, next);
      pieces := [x] + rest;
      OnePieceMore(x, rest);
      SliceTogether(p, i, next, next + QuotedAt(p, next).value.0);
    }
  }

  lemma NoPieces(p: string, i: nat)
    requires i < |p| && p[i] == '"'
    ensures QuotedAt(p, i) == Some((0, "")) && ArePieces([]) && KeyOf([]) == "" && Spelling([]) == "" == p[i..i]
  {
  }

  // ----- forms -----------------------------------------------------------------------------------

  datatype Sign = Front | Minus | HashMinus

  /** `deep` writes a second dot. */
  datatype Form =
    | Bare(key: string, deep: bool)
    | Quoted(pieces: seq<Piece>, deep: bool)
    | Star
    | StarStar
    | DotDotStar
    | DotDot
    | Number(sign: Sign, digits: string)
    | Hash
    | StarElement

  function Dots(deep: bool): string {
    if deep then ".." else "."
  }

  function Opening(sign: Sign): string {
    match sign
    case Front => "["
    case Minus => "[-"
    case HashMinus => "[#-"
  }

  function Text(form: Form): (text: string)
    ensures text != "" && (text[0] == '.' || text[0] == '[')
  {
    match form
    case Bare(key, deep) => Dots(deep) + key
    case Quoted(pieces, deep) => Dots(deep) + ("\"" + Spelling(pieces) + "\"")
    case Star => ".*"
    case StarStar => ".**"
    case DotDotStar => "..*"
    case DotDot => ".."
    case Number(sign, digits) => Opening(sign) + (digits + "]")
    case Hash => "[#]"
    case StarElement => "[*]"
  }

  predicate IsBareKey(key: string) {
    && key != "" && key[0] != '"' && key[0] != '*'
    && forall i :: 0 <= i < |key| ==> key[i] != '.' && key[i] != '['
  }

  predicate IsForm(form: Form) {
    match form
    case Bare(key, _) => IsBareKey(key)
    case Quoted(pieces, _) => pieces != [] && ArePieces(pieces)
    case Number(_, digits) => 0 < |digits| <= IDX_T_SAFE_DIG && AllDigits(digits)
    case _ => true
  }

  function FieldNamed(key: string, deep: bool): seq<Step> {
    if key == "*" then if deep then [Descend] else [AnyField]
    else if deep then [Descend, Field(key)] else [Field(key)]
  }

  /** What a form means; the last index from the back is that of an array nobody has. */
  function Denotes(form: Form): seq<Step>
    requires IsForm(form)
  {
    match form
    case Bare(key, deep) => FieldNamed(key, deep)
    case Quoted(pieces, deep) => FieldNamed(KeyOf(pieces), deep)
    case Star => [AnyField]
    case StarStar => [Descend]
    case DotDotStar => [Descend]
    case DotDot => [Descend]
    case Number(sign, digits) =>
      if sign.Front? || DecimalValue(digits) == 0 then [Index(DecimalValue(digits))]
          else [FromBack(DecimalValue(digits))]
    case Hash => [Index(0xFFFF_FFFF)]
    case StarElement => [AnyElement]
  }

  /** What may follow: a key without quotes and a star end where the next step begins, and two dots alone stand
      before a bracket. */
  predicate Fits(form: Form, rest: string) {
    match form
    case Bare(_, _) => rest == "" || rest[0] == '.' || rest[0] == '['
    case Star => rest == "" || rest[0] == '.' || rest[0] == '['
    case DotDot => rest != "" && rest[0] == '['
    case _ => true
  }

  // ----- one form --------------------------------------------------------------------------------

  lemma {:induction false} BareAt(pre: string, key: string, rest: string)
    requires forall i :: 0 <= i < |key| ==> key[i] != '.' && key[i] != '['
    requires rest == "" || rest[0] == '.' || rest[0] == '['
    ensures BareLength(pre + (key + rest), |pre|) == |key|
    ensures (pre + (key + rest))[|pre|..|pre| + |key|] == key
    decreases |key|
  {
    var p := pre + (key + rest);
    if key == "" {
      assert |p| > |pre| ==> p[|pre|] == rest[0];
    } else {
      assert p == (pre + [key[0]]) + (key[1..] + rest);
      BareAt(pre + [key[0]], key[1..], rest);
      assert p[|pre|] == key[0];
    }
  }

  /** A key that is not quoted is read up to the next step. */
  lemma BareKeyAt(pre: string, key: string, rest: string)
    requires IsBareKey(key) && (rest == "" || rest[0] == '.' || rest[0] == '[')
    ensures var p := pre + (key + rest);
            NamedKeyAt(p, |pre|) == KeyRead(|key|, false, key) && p[|pre|] == key[0]
  {
    BareAt(pre, key, rest);
    hide BareLength;
  }

  lemma QuotedKeyAt(pre: string, pieces: seq<Piece>, rest: string)
    requires pieces != [] && ArePieces(pieces)
    ensures var p := pre + (("\"" + Spelling(pieces) + "\"") + rest);
            NamedKeyAt(p, |pre|) == KeyRead(|Spelling(pieces)| + 2, false, KeyOf(pieces)) && p[|pre|] == '"'
  {
    hide *;
    SpellingNotEmpty(pieces);
    InQuotes(pre, Spelling(pieces), rest);
    QuotedAtSpelled(pre + "\"", pieces, rest);
    NamedQuoted(pre + (("\"" + Spelling(pieces) + "\"") + rest), |pre|, |Spelling(pieces)|, KeyOf(pieces));
  }

  lemma SpellingNotEmpty(pieces: seq<Piece>)
    requires pieces != []
    ensures |Spelling(pieces)| > 0
  {
    assert |PieceText(pieces[0])| > 0;
  }

  lemma InQuotes(pre: string, body: string, rest: string)
    ensures var p := pre + (("\"" + body + "\"") + rest);
            |p| > |pre| && p[|pre|] == '"' && p == (pre + "\"") + (body + ("\"" + rest)) && |pre + "\""| == |pre| + 1
  {
    assert ("\"" + body + "\"") + rest == "\"" + (body + ("\"" + rest));
    OneChar(pre, '"', body + ("\"" + rest));
  }

  lemma NamedQuoted(p: string, i: nat, n: nat, key: string)
    requires i < |p| && p[i] == '"' && QuotedAt(p, i + 1) == Some((n, key)) && n > 0
    ensures NamedKeyAt(p, i) == KeyRead(n + 2, false, key)
  {
    hide QuotedAt;
  }

  /** Reading one form leaves the reader at what was written after it. */
  predicate ParsesTo(pre: string, form: Form, rest: string)
    requires IsForm(form)
  {
    var p := pre + (Text(form) + rest);
    && Parse(p, |pre|) == Then(Denotes(form), Parse(p, |pre| + |Text(form)|))
    && StrictParse(p, |pre|) == Then(Denotes(form), StrictParse(p, |pre| + |Text(form)|))
  }

  lemma KeyStepParsed(p: string, i: nat, key: KeyRead)
    requires i + 1 < |p| && p[i] == '.' && KeyAt(p, i + 1) == key && key.IsValid()
    ensures Parse(p, i) == Then(KeySteps(key), Parse(p, i + 1 + key.charsRead))
    ensures StrictParse(p, i) == Then(KeySteps(key), StrictParse(p, i + 1 + key.charsRead))
  {
    hide KeyAt, IndexAt, KeySteps, Then;
  }

  lemma IndexStepParsed(p: string, i: nat, index: IndexRead)
    requires i + 1 < |p| && p[i] == '[' && IndexAt(p, i + 1) == Some(index)
    requires index.next <= |p| && p[index.next - 1] == ']'
    ensures Parse(p, i) == Then([IndexStep(index)], Parse(p, index.next))
    ensures StrictParse(p, i) == Then([IndexStep(index)], StrictParse(p, index.next))
  {
    hide KeyAt, IndexAt, IndexStep, Then;
  }

  /** A key after one dot or two. */
  lemma NamedStep(pre: string, deep: bool, name: string, rest: string, read: KeyRead)
    requires name != "" && name[0] != '.' && name[0] != '*' && name[0] != '['
    requires read.IsValid() && read.charsRead == |name| && !read.recursive
    requires NamedKeyAt(pre + Dots(deep) + (name + rest), |pre + Dots(deep)|) == read
    ensures var p := pre + ((Dots(deep) + name) + rest);
            && Parse(p, |pre|) == Then(FieldNamed(read.key, deep), Parse(p, |pre| + |Dots(deep) + name|))
            && StrictParse(p, |pre|) == Then(FieldNamed(read.key, deep), StrictParse(p, |pre| + |Dots(deep) + name|))
  {
    hide Parse, StrictParse, NamedKeyAt;
    var p := pre + ((Dots(deep) + name) + rest);
    assert p == pre + Dots(deep) + (name + rest);
    assert p[|pre|] == '.' && p[|pre| + |Dots(deep)|] == name[0];
    if deep {
      assert p[|pre| + 1] == '.';
      KeyStepParsed(p, |pre|, KeyRead(read.charsRead + 1, true, read.key));
    } else {
      KeyStepParsed(p, |pre|, read);
    }
  }

  lemma BareParsed(pre: string, form: Form, rest: string)
    requires form.Bare? && IsForm(form) && Fits(form, rest)
    ensures ParsesTo(pre, form, rest)
  {
    hide Parse, StrictParse, NamedKeyAt;
    BareKeyAt(pre + Dots(form.deep), form.key, rest);
    NamedStep(pre, form.deep, form.key, rest, KeyRead(|form.key|, false, form.key));
  }

  lemma QuotedParsed(pre: string, form: Form, rest: string)
    requires form.Quoted? && IsForm(form)
    ensures ParsesTo(pre, form, rest)
  {
    hide Parse, StrictParse, NamedKeyAt, Spelling, KeyOf, ArePieces;
    var name, key := "\"" + Spelling(form.pieces) + "\"", KeyOf(form.pieces);
    QuotedKeyAt(pre + Dots(form.deep), form.pieces, rest);
    NamedStep(pre, form.deep, name, rest, KeyRead(|Spelling(form.pieces)| + 2, false, key));
  }

  lemma StarsParsed(pre: string, form: Form, rest: string)
    requires (form.Star? || form.StarStar? || form.DotDotStar? || form.DotDot?) && Fits(form, rest)
    ensures ParsesTo(pre, form, rest)
  {
    hide Parse, StrictParse;
    var p := pre + (Text(form) + rest);
    FirstChars(pre, Text(form), rest);
    assert p[|pre|] == '.' && p[|pre| + 1] == Text(form)[1];
    assert |Text(form)| == 3 ==> p[|pre| + 2] == Text(form)[2];
    KeyStepParsed(p, |pre|, if form.Star? then WILDCARD else if form.DotDot? then REC_WILDCARD_SHORTCUT
        else REC_WILDCARD);
  }

  /** Digits between the sign and the bracket. */
  lemma DigitsAt(pre: string, digits: string, rest: string, fromBack: bool)
    requires 0 < |digits| <= IDX_T_SAFE_DIG && AllDigits(digits)
    ensures var p := pre + (digits + ("]" + rest));
            NumberAt(p, |pre|, fromBack) == Some(IndexRead(|pre| + |digits| + 1, DecimalValue(digits), fromBack))
                && IsDigit(p[|pre|])
  {
    hide IntegerLength, DecimalValue, NumberAt;
    DigitsPrinted(pre, digits, rest);
    NumberIs(pre + (digits + ("]" + rest)), |pre|, digits, fromBack);
  }

  lemma NumberIs(p: string, i: nat, digits: string, fromBack: bool)
    requires digits != "" && AllDigits(digits)
    requires i + |digits| <= |p| && IntegerLength(p, i) == |digits| && p[i..i + |digits|] == digits
    ensures NumberAt(p, i, fromBack) == Some(IndexRead(i + |digits| + 1, DecimalValue(digits), fromBack))
  {
    hide IntegerLength, DecimalValue, AllDigits;
  }

  lemma CharsOf(p: string, i: nat, text: string)
    requires i + |text| <= |p| && p[i..i + |text|] == text
    ensures forall k :: 0 <= k < |text| ==> p[i + k] == text[k]
  {
    forall k | 0 <= k < |text| ensures p[i + k] == text[k] {
      assert p[i..i + |text|][k] == text[k];
    }
  }

  /** A sign and a number. */
  lemma SignedIndex(p: string, i: nat, sign: Sign, read: IndexRead)
    requires i + |Opening(sign)| <= |p| && p[i..i + |Opening(sign)|] == Opening(sign)
    requires NumberAt(p, i + |Opening(sign)|, !sign.Front?) == Some(read)
    requires sign.Front? ==> i + 1 < |p| && IsDigit(p[i + 1])
    ensures i + 1 < |p| && p[i] == '[' && IndexAt(p, i + 1) == Some(read)
  {
    hide NumberAt, IndexAt;
    CharsOf(p, i, Opening(sign));
    match sign
    case Front => PlainIndex(p, i + 1);
    case Minus =>
      assert p[i + 1] == "[-"[1];
      MinusIndex(p, i + 1);
    case HashMinus =>
      assert p[i + 1] == "[#-"[1] && p[i + 2] == "[#-"[2];
      HashIndex(p, i + 1);
  }

  lemma PlainIndex(p: string, i: nat)
    requires i < |p| && IsDigit(p[i])
    ensures IndexAt(p, i) == NumberAt(p, i, false)
  {
    hide NumberAt;
  }

  lemma MinusIndex(p: string, i: nat)
    requires i < |p| && p[i] == '-'
    ensures IndexAt(p, i) == NumberAt(p, i + 1, true)
  {
    hide NumberAt;
  }

  lemma HashIndex(p: string, i: nat)
    requires i + 1 < |p| && p[i] == '#' && p[i + 1] == '-'
    ensures IndexAt(p, i) == NumberAt(p, i + 2, true)
  {
    hide NumberAt;
  }

  /** A form of an index in a path. */
  lemma NumberReads(p: string, i: nat, form: Form, read: IndexRead)
    requires form.Number? && IsForm(form)
    requires i + |Opening(form.sign)| <= |p| && p[i..i + |Opening(form.sign)|] == Opening(form.sign)
    requires NumberAt(p, i + |Opening(form.sign)|, !form.sign.Front?) == Some(read)
    requires form.sign.Front? ==> i + 1 < |p| && IsDigit(p[i + 1])
    requires read.index == DecimalValue(form.digits) && read.fromBack == !form.sign.Front?
    requires read.next <= |p| && p[read.next - 1] == ']'
    ensures Parse(p, i) == Then(Denotes(form), Parse(p, read.next))
    ensures StrictParse(p, i) == Then(Denotes(form), StrictParse(p, read.next))
  {
    hide Parse, StrictParse, NumberAt, DecimalValue, AllDigits, IndexAt, Opening, Then;
    SignedIndex(p, i, form.sign, read);
    SmallIndex(form.digits);
    IndexStepParsed(p, i, read);
  }

  lemma Layout(pre: string, open: string, digits: string, rest: string)
    ensures var p := pre + ((open + (digits + "]")) + rest);
            && p == (pre + open) + (digits + ("]" + rest)) && |pre + open| == |pre| + |open|
            && |p| == |pre| + |open| + |digits| + 1 + |rest| && p[|pre|..|pre| + |open|] == open
            && p[|pre| + |open| + |digits|] == ']'
  {
  }

  lemma NumberParsed(pre: string, form: Form, rest: string)
    requires form.Number? && IsForm(form)
    ensures ParsesTo(pre, form, rest)
  {
    hide Parse, StrictParse, NumberAt, DecimalValue, AllDigits, Opening, Denotes, Then;
    var sign, digits, open := form.sign, form.digits, Opening(form.sign);
    Layout(pre, open, digits, rest);
    DigitsAt(pre + open, digits, rest, !sign.Front?);
    if sign.Front? { OneBracket(); }
    var read := IndexRead(|pre| + |open| + |digits| + 1, DecimalValue(digits), !sign.Front?);
    NumberReads(pre + (Text(form) + rest), |pre|, form, read);
  }

  lemma OneBracket()
    ensures |Opening(Front)| == 1
  {
  }

  /** It is not the index that stands for the wildcard. */
  lemma SmallIndex(digits: string)
    requires |digits| <= IDX_T_SAFE_DIG && AllDigits(digits)
    ensures DecimalValue(digits) != INVALID_INDEX
  {
    DecimalBound(digits);
    Pow10Monotone(|digits|, IDX_T_SAFE_DIG);
    Pow10Safe();
  }

  lemma MarksParsed(pre: string, form: Form, rest: string)
    requires form.Hash? || form.StarElement?
    ensures ParsesTo(pre, form, rest)
  {
    hide Parse, StrictParse;
    var p := pre + (Text(form) + rest);
    FirstChars(pre, Text(form), rest);
    assert p[|pre|] == '[' && p[|pre| + 1] == Text(form)[1] && p[|pre| + 2] == ']';
    IndexStepParsed(p, |pre|, IndexRead(|pre| + 3, if form.Hash? then UINT32_MAX else INVALID_INDEX, false));
  }

  lemma FormParsed(pre: string, form: Form, rest: string)
    requires IsForm(form) && Fits(form, rest)
    ensures ParsesTo(pre, form, rest)
  {
    hide *;
    match form
    case Bare(_, _) => BareParsed(pre, form, rest);
    case Quoted(_, _) => QuotedParsed(pre, form, rest);
    case Number(_, _) => NumberParsed(pre, form, rest);
    case Hash => MarksParsed(pre, form, rest);
    case StarElement => MarksParsed(pre, form, rest);
    case _ => StarsParsed(pre, form, rest);
  }

  // ----- whole paths -----------------------------------------------------------------------------

  function PathText(forms: seq<Form>): (text: string)
    ensures text == "" || text[0] == '.' || text[0] == '['
  {
    if forms == [] then "" else Text(forms[0]) + PathText(forms[1..])
  }

  predicate IsPath(forms: seq<Form>) {
    forms != [] ==> IsForm(forms[0]) && Fits(forms[0], PathText(forms[1..])) && IsPath(forms[1..])
  }

  function Meaning(forms: seq<Form>): seq<Step>
    requires IsPath(forms)
  {
    if forms == [] then [] else Denotes(forms[0]) + Meaning(forms[1..])
  }

  lemma {:induction false} FormsParsed(pre: string, forms: seq<Form>)
    requires IsPath(forms)
    ensures Parse(pre + PathText(forms), |pre|) == Steps(Meaning(forms)) == StrictParse(pre + PathText(forms), |pre|)
    decreases |forms|
  {
    hide Parse, StrictParse, Text, IsForm, Fits, Denotes;
    if forms == [] {
      assert pre + PathText(forms) == pre;
      ParseNothing(pre);
      StrictNothing(pre);
    } else {
      var rest := PathText(forms[1..]);
      assert pre + PathText(forms) == (pre + Text(forms[0])) + rest == pre + (Text(forms[0]) + rest);
      FormsParsed(pre + Text(forms[0]), forms[1..]);
      FormParsed(pre, forms[0], rest);
    }
  }

  lemma StrictNothing(p: string)
    ensures StrictParse(p, |p|) == Steps([])
  {
  }

  // ----- every accepted path is written in these forms -------------------------------------------

  /** The text of a key after its dots. */
  lemma NameHasForm(p: string, i: nat, k: nat, deep: bool) returns (form: Form)
    requires i < k < |p| && p[i..k] == Dots(deep) && p[k] != '*' && NamedKeyAt(p, k).IsValid()
    ensures IsForm(form) && (form.Bare? || form.Quoted?)
    ensures var read := NamedKeyAt(p, k);
            && k + read.charsRead <= |p| && Text(form) == p[i..k + read.charsRead]
            && Denotes(form) == FieldNamed(read.key, deep) && Fits(form, p[k + read.charsRead..])
  {
    hide NamedKeyAt, QuotedAt, BareLength, Spelling, KeyOf, ArePieces, IsBareKey, Dots, FieldNamed;
    var end := k + NamedKeyAt(p, k).charsRead;
    if p[k] == '"' {
      QuotedValid(p, k);
      var pieces := QuotedHasPieces(p, k + 1);
      form := Quoted(pieces, deep);
      QuotedName(p, k, pieces);
    } else {
      form := Bare(p[k..end], deep);
      BareName(p, k);
    }
    SliceTogether(p, i, k, end);
  }

  lemma QuotedName(p: string, k: nat, pieces: seq<Piece>)
    requires k < |p| && p[k] == '"' && NamedKeyAt(p, k).IsValid()
    requires QuotedAt(p, k + 1).Some? && k + 1 + QuotedAt(p, k + 1).value.0 < |p|
    requires Spelling(pieces) == p[k + 1..k + 1 + QuotedAt(p, k + 1).value.0]
    ensures "\"" + Spelling(pieces) + "\"" == p[k..k + NamedKeyAt(p, k).charsRead] && pieces != []
    ensures NamedKeyAt(p, k).key == QuotedAt(p, k + 1).value.1
  {
    hide QuotedAt, NamedKeyAt, Spelling;
    var (n, key) := QuotedAt(p, k + 1).value;
    QuoteCloses(p, k + 1);
    QuotedValid(p, k);
    NamedQuoted(p, k, n, key);
    BetweenQuotes(p, k, n);
    if pieces == [] { NothingSpelled(); }
  }

  lemma NothingSpelled()
    ensures Spelling([]) == ""
  {
  }

  lemma QuotedValid(p: string, k: nat)
    requires k < |p| && p[k] == '"' && NamedKeyAt(p, k).IsValid()
    ensures QuotedAt(p, k + 1).Some? && QuotedAt(p, k + 1).value.0 > 0
  {
    hide QuotedAt;
  }

  lemma BetweenQuotes(p: string, k: nat, n: nat)
    requires k + n + 1 < |p| && p[k] == '"' && p[k + 1 + n] == '"'
    ensures p[k..k + (n + 2)] == "\"" + p[k + 1..k + 1 + n] + "\""
  {
  }

  lemma QuoteCloses(p: string, i: nat)
    requires i <= |p| && QuotedAt(p, i).Some?
    ensures i + QuotedAt(p, i).value.0 < |p| && p[i + QuotedAt(p, i).value.0] == '"'
  {
  }

  lemma BareName(p: string, k: nat)
    requires k < |p| && p[k] != '"' && p[k] != '*' && NamedKeyAt(p, k).IsValid()
    ensures var n := NamedKeyAt(p, k).charsRead;
            && k + n <= |p| && IsBareKey(p[k..k + n]) && NamedKeyAt(p, k).key == p[k..k + n]
            && (k + n == |p| || p[k + n] == '.' || p[k + n] == '[')
  {
  }

  /** What stands at a dot. */
  lemma KeyHasForm(p: string, i: nat) returns (form: Form)
    requires i + 1 < |p| && p[i] == '.' && KeyAt(p, i + 1).IsValid()
    requires var next := i + 1 + KeyAt(p, i + 1).charsRead; next < |p| ==> p[next] == '.' || p[next] == '['
    ensures IsForm(form) && Denotes(form) == KeySteps(KeyAt(p, i + 1))
    ensures var next := i + 1 + KeyAt(p, i + 1).charsRead;
            Text(form) == p[i..next] && Fits(form, p[next..])
  {
    hide NamedKeyAt, KeyAt, KeySteps, Text, Denotes, Fits, IsForm, FieldNamed;
    SecondDotInside(p, i);
    if p[i + 1] == '*' || (p[i + 1] == '.' && (p[i + 2] == '*' || p[i + 2] == '[')) {
      form := StarHasForm(p, i);
    } else {
      var deep := p[i + 1] == '.';
      var k := if deep then i + 2 else i + 1;
      NamedKeyFollows(p, i, deep, k);
      form := NameHasForm(p, i, k, deep);
    }
  }

  lemma SecondDotInside(p: string, i: nat)
    requires i + 1 < |p| && p[i] == '.' && KeyAt(p, i + 1).IsValid()
    ensures p[i + 1] == '.' ==> i + 2 < |p|
  {
    hide NamedKeyAt;
  }

  lemma NamedKeyFollows(p: string, i: nat, deep: bool, k: nat)
    requires i + 1 < |p| && p[i] == '.' && KeyAt(p, i + 1).IsValid() && p[i + 1] != '*'
    requires deep == (p[i + 1] == '.') && k == (if deep then i + 2 else i + 1)
    requires deep ==> i + 2 < |p| && p[i + 2] != '*' && p[i + 2] != '['
    ensures k < |p| && p[i..k] == Dots(deep) && p[k] != '*' && NamedKeyAt(p, k).IsValid()
    ensures k + NamedKeyAt(p, k).charsRead == i + 1 + KeyAt(p, i + 1).charsRead
    ensures KeySteps(KeyAt(p, i + 1)) == FieldNamed(NamedKeyAt(p, k).key, deep)
  {
    hide NamedKeyAt;
  }

  lemma StarHasForm(p: string, i: nat) returns (form: Form)
    requires i + 1 < |p| && p[i] == '.' && KeyAt(p, i + 1).IsValid()
    requires p[i + 1] == '*' || (p[i + 1] == '.' && i + 2 < |p| && (p[i + 2] == '*' || p[i + 2] == '['))
    requires var next := i + 1 + KeyAt(p, i + 1).charsRead; next < |p| ==> p[next] == '.' || p[next] == '['
    ensures IsForm(form) && Denotes(form) == KeySteps(KeyAt(p, i + 1))
    ensures var next := i + 1 + KeyAt(p, i + 1).charsRead;
            Text(form) == p[i..next] && Fits(form, p[next..])
  {
    hide NamedKeyAt;
    if p[i + 1] == '*' {
      form := if i + 2 < |p| && p[i + 2] == '*' then StarStar else Star;
    } else {
      form := if p[i + 2] == '*' then DotDotStar else DotDot;
    }
  }

  /** A number after its sign. */
  lemma NumberHasForm(p: string, i: nat, sign: Sign) returns (form: Form)
    requires i + |Opening(sign)| <= |p| && p[i..i + |Opening(sign)|] == Opening(sign)
    requires NumberAt(p, i + |Opening(sign)|, !sign.Front?).Some?
    requires var next := NumberAt(p, i + |Opening(sign)|, !sign.Front?).value.next; next <= |p| && p[next - 1] == ']'
    ensures form.Number? && IsForm(form)
    ensures var read := NumberAt(p, i + |Opening(sign)|, !sign.Front?).value;
            Text(form) == p[i..read.next] && Denotes(form) == [IndexStep(read)]
  {
    hide IntegerLength, DecimalValue, AllDigits, Opening;
    var k := i + |Opening(sign)|;
    var n := IntegerLength(p, k);
    form := Number(sign, p[k..k + n]);
    IntegerShort(p, k);
    SmallIndex(p[k..k + n]);
    SliceTogether(p, i, k, k + n + 1);
    SliceTogether(p, k, k + n, k + n + 1);
    assert p[k + n..k + n + 1] == "]";
  }

  lemma IntegerShort(p: string, k: nat)
    requires k <= |p|
    ensures IntegerLength(p, k) <= IDX_T_SAFE_DIG
  {
  }

  /** What stands at a bracket. */
  lemma IndexHasForm(p: string, i: nat) returns (form: Form)
    requires i + 1 < |p| && p[i] == '[' && IndexAt(p, i + 1).Some?
    requires IndexAt(p, i + 1).value.next <= |p| && p[IndexAt(p, i + 1).value.next - 1] == ']'
    ensures IsForm(form) && !form.Bare? && !form.Star? && !form.DotDot?
    ensures Denotes(form) == [IndexStep(IndexAt(p, i + 1).value)] && Text(form) == p[i..IndexAt(p, i + 1).value.next]
  {
    hide NumberAt;
    if p[i + 1] == '*' {
      form := StarElement;
      assert Text(form) == p[i..i + 3];
    } else if p[i + 1] == '#' && p[i + 2] == ']' {
      form := Hash;
      assert Text(form) == p[i..i + 3];
    } else if p[i + 1] == '#' {
      assert p[i..i + 3] == "[#-";
      form := NumberHasForm(p, i, HashMinus);
    } else if p[i + 1] == '-' {
      assert p[i..i + 2] == "[-";
      form := NumberHasForm(p, i, Minus);
    } else {
      assert p[i..i + 1] == "[";
      form := NumberHasForm(p, i, Front);
    }
  }

  /** A path begins with a dot or a bracket. */
  lemma PathStarts(p: string, ptr: nat)
    requires ptr <= |p| && StrictParse(p, ptr).Steps?
    ensures ptr < |p| ==> p[ptr] == '.' || p[ptr] == '['
  {
  }

  /** Every path whose indices are closed is written in forms that mean what it denotes. */
  lemma {:induction false} StrictHasForms(p: string, ptr: nat) returns (forms: seq<Form>)
    requires ptr <= |p| && StrictParse(p, ptr).Steps?
    ensures IsPath(forms) && PathText(forms) == p[ptr..] && StrictParse(p, ptr) == Steps(Meaning(forms))
    decreases |p| - ptr
  {
    hide KeyAt, IndexAt, KeySteps, IndexStep, Text, Denotes, IsForm, Fits;
    if ptr == |p| {
      forms := [];
    } else {
      var form, next;
      if p[ptr] == '.' {
        next := ptr + 1 + KeyAt(p, ptr + 1).charsRead;
        PathStarts(p, next);
        form := KeyHasForm(p, ptr);
      } else {
        next := IndexAt(p, ptr + 1).value.next;
        form := IndexHasForm(p, ptr);
        FitsAny(form, p[next..]);
      }
      var rest := StrictHasForms(p, next);
      forms := [form] + rest;
      assert forms[1..] == rest;
      SliceTogether(p, ptr, next, |p|);
      assert p[ptr..] == p[ptr..|p|] && p[next..] == p[next..|p|];
    }
  }

  lemma FitsAny(form: Form, rest: string)
    requires !form.Bare? && !form.Star? && !form.DotDot?
    ensures Fits(form, rest)
  {
  }

  /** Exactly the paths whose indices are closed are written in these forms, and they denote what the forms
      mean. */
  lemma FormsExactly(p: string, steps: seq<Step>)
    requires |p| >= 1
    ensures Parse(p, 1) == Steps(steps) && !MeetsUnclosed(p, 1) <==>
            exists forms :: IsPath(forms) && PathText(forms) == p[1..] && Meaning(forms) == steps
  {
    hide Parse, StrictParse, IsPath, PathText, Meaning, MeetsUnclosed;
    if Parse(p, 1) == Steps(steps) && !MeetsUnclosed(p, 1) {
      AcceptsStrictlyExactly(p, 1);
      var forms := StrictHasForms(p, 1);
    }
    if forms :| IsPath(forms) && PathText(forms) == p[1..] && Meaning(forms) == steps {
      assert p == p[..1] + PathText(forms);
      FormsParsed(p[..1], forms);
      AcceptsStrictlyExactly(p, 1);
    }
  }
}
