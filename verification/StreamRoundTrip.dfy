// Printing show operations in any admissible way and extracting them again.
module StreamRoundTrip {
  import opened Bytes
  import opened ContentLexer
  import opened ExtractorProperties
  import opened ShowOperations
  import opened TextExtractor
  import Dictionary
  import HexString
  import LiteralString

  // ---------------------------------------------------------------------------------------------
  // Marks: the lexemes a printed stream is made of, each with its choices of spelling.

  datatype Mark =
    | Literal(pieces: seq<LiteralString.Piece>)
    | Hex(body: bytes)
    | Opening
    | Closing
    | Plain(word: bytes)
    | Slash
    | Stray(b: byte)        // a brace, or a closing parenthesis or bracket with nothing to close
    | Blanks(blank: Blank)
    | Dict(items: Dictionary.Items)

  predicate ValidMark(m: Mark) {
    match m
    case Literal(ps) => LiteralString.WellFormed(ps, 1)
    case Hex(body) => GT !in body && (body == [] || body[0] != LT)
    case Plain(w) => IsWord(w)
    case Stray(b) => b == LBRACE || b == RBRACE || b == RPAREN || b == GT
    case Blanks(x) => ValidBlank(x)
    case Dict(items) => Dictionary.WellFormed(items)
    case _ => true
  }

  function MarkBytes(m: Mark): bytes {
    match m
    case Literal(ps) => [LPAREN] + (LiteralString.Print(ps) + [RPAREN])
    case Hex(body) => [LT] + (body + ([GT] + []))
    case Opening => [LBRACKET]
    case Closing => [RBRACKET]
    case Plain(w) => w
    case Slash => [SLASH]
    case Stray(b) => [b]
    case Blanks(x) => PrintBlank(x)
    case Dict(items) => [LT, LT] + (Dictionary.Print(items) + ([GT, GT] + []))
  }

  function MarkTokens(m: Mark): seq<Token> {
    match m
    case Literal(ps) => [Text(LiteralString.Meaning(ps))]
    case Hex(body) => [Text(HexString.Decode(HexString.Digits(body)))]
    case Opening => [ArrayOpen]
    case Closing => [ArrayClose]
    case Plain(w) => [Word(w)]
    case _ => []
  }

  // Every mark is valid and no word runs into the next.
  predicate Printable(ms: seq<Mark>) {
    && (forall k :: 0 <= k < |ms| ==> ValidMark(ms[k]))
    && forall k :: 0 <= k < |ms| - 1 ==> ms[k].Plain? ==> !ms[k + 1].Plain?
  }

  function Print(ms: seq<Mark>): bytes {
    if ms == [] then [] else MarkBytes(ms[0]) + Print(ms[1..])
  }

  function AllTokens(ms: seq<Mark>): seq<Token> {
    if ms == [] then [] else MarkTokens(ms[0]) + AllTokens(ms[1..])
  }

  lemma LexLiteral(ps: seq<LiteralString.Piece>)
    requires LiteralString.WellFormed(ps, 1)
    ensures var d := MarkBytes(Literal(ps));
      Lex(d, 0) == MarkTokens(Literal(ps)) && LastEnding(d, 0) == Closed
  {
    var body := LiteralString.Print(ps) + [RPAREN];
    var d := [LPAREN] + body;
    hide LiteralString.Scan, LiteralString.WellFormed, LiteralString.Print, LiteralString.Meaning;
    LiteralString.ScanReadsPieces(ps, 1);
    LiteralString.ScanShift([LPAREN], body, 0, 1);
    assert LexemeAt(d, 0) == Lexeme(|d|, MarkTokens(Literal(ps)), Closed);
    LexOne(d, 0);
  }

  lemma LexHex(body: bytes)
    requires ValidMark(Hex(body))
    ensures var d := MarkBytes(Hex(body));
      Lex(d, 0) == MarkTokens(Hex(body)) && LastEnding(d, 0) == Closed
  {
    var rest := body + ([GT] + []);
    var d := [LT] + rest;
    HexString.HexEndBody(body, [GT] + [], 0);
    assert rest[0..|body|] == body;
    assert HexString.Scan(rest, 0) == HexString.Scanned(HexString.Decode(HexString.Digits(body)), |rest|, true);
    hide HexString.Scan;
    HexString.ScanShift([LT], rest, 0);
    assert d[1] == rest[0];
    assert LexemeAt(d, 0) == Lexeme(|d|, MarkTokens(Hex(body)), Closed);
    LexOne(d, 0);
  }

  lemma LexDict(items: Dictionary.Items)
    requires Dictionary.WellFormed(items)
    ensures var d := MarkBytes(Dict(items)); Lex(d, 0) == [] && LastEnding(d, 0) == Closed
  {
    var rest := Dictionary.Print(items) + ([GT, GT] + []);
    var d := [LT, LT] + rest;
    hide Dictionary.Skip, Dictionary.Print;
    Dictionary.SkipReadsBody(items, []);
    Dictionary.SkipShift([LT, LT], rest, 0, 1);
    assert Dictionary.Pair(d, 0, LT);
    assert LexemeAt(d, 0) == Lexeme(|d|, [], Closed);
    LexOne(d, 0);
  }

  lemma LexWord(w: bytes)
    requires IsWord(w)
    ensures Lex(w, 0) == [Word(w)] && LastEnding(w, 0) == OpenWord
  {
    WordEndAt(w, 0, |w|);
    hide WordEnd;
    assert w[0..|w|] == w && !IsDelimiter(w[0]);
    assert LexemeAt(w, 0) == Lexeme(|w|, [Word(w)], OpenWord);
    LexOne(w, 0);
  }

  lemma LexMark(m: Mark)
    requires ValidMark(m)
    ensures var d := MarkBytes(m);
      && Lex(d, 0) == MarkTokens(m)
      && LastEnding(d, 0) == (if m.Plain? then OpenWord else Closed)
      && d != []
      && (!m.Plain? ==> IsDelimiter(d[0]))
  {
    match m {
      case Literal(ps) => LexLiteral(ps);
      case Hex(body) => LexHex(body);
      case Dict(items) => LexDict(items);
      case Plain(w) => LexWord(w);
      case Blanks(x) => LexBlank(x);
      case _ => LexOne(MarkBytes(m), 0);
    }
  }

  // The lexer inverts printing: whatever the spellings and spacing, the tokens come back.
  lemma {:induction false} LexPrinted(ms: seq<Mark>)
    requires Printable(ms)
    ensures Lex(Print(ms), 0) == AllTokens(ms)
    decreases |ms|
  {
    if ms != [] {
      var d, rest := MarkBytes(ms[0]), Print(ms[1..]);
      LexMark(ms[0]);
      if ms[1..] != [] {
        LexMark(ms[1]);
        assert ms[1..][0] == ms[1];
      }
      assert Print(ms) == d + rest && AllTokens(ms) == MarkTokens(ms[0]) + AllTokens(ms[1..]);
      assert Printable(ms[1..]);
      assert Accepts(LastEnding(d, 0), rest) by {
        hide MarkBytes, ValidMark, LastEnding, Lex, MarkTokens;
        assert rest != [] ==> rest[0] == MarkBytes(ms[1])[0];
      }
      hide *;
      LexPrinted(ms[1..]);
      LexConcat(d, rest);
    }
  }

  // Whole-stream round trip: however the operations are spelled, spaced and commented, extraction
  // gives back exactly the text they are meant to show, if and only if no name or operand that is
  // spelled like a show operator does harm.
  lemma {:induction false} ExtractsExactlyWhen(read: FloatReader, ops: seq<Operation>, ms: seq<Mark>)
    requires ValidOperations(read, ops) && Printable(ms) && AllTokens(ms) == Tokens(ops)
    ensures Extracted(read, Print(ms)) == ShownText(read, ops) <==> Harmless(ops, false)
    ensures |Extracted(read, Print(ms))| >= |ShownText(read, ops)|
  {
    var toks := Tokens(ops);
    assert Extracted(read, Print(ms)) == Interp(read, START, toks).out by {
      hide Interp;
      LexPrinted(ms);
    }
    assert START.last == None && START.out == [] && !START.inArray;
    hide *;
    InterpShows(read, START, ops);
    assert [] + ShownText(read, ops) == ShownText(read, ops);
  }

  // In particular where no name or operand is spelled so.
  lemma {:induction false} WholeStreamRoundTrip(read: FloatReader, ops: seq<Operation>, ms: seq<Mark>)
    requires ValidOperations(read, ops) && PlainOperations(ops)
    requires Printable(ms) && AllTokens(ms) == Tokens(ops)
    ensures Extracted(read, Print(ms)) == ShownText(read, ops)
  {
    PlainIsHarmless(ops, false);
    ExtractsExactlyWhen(read, ops, ms);
  }

  // ---------------------------------------------------------------------------------------------
  // The hypothesis is not empty: every list of operations has a spelling.

  function MarkFor(tok: Token): Mark {
    match tok
    case Text(s) => Hex(HexString.LowerCase(s))
    case ArrayOpen => Opening
    case ArrayClose => Closing
    case Word(w) => Plain(w)
  }

  function Spell(toks: seq<Token>): seq<Mark> {
    if toks == [] then [] else [MarkFor(toks[0]), Blanks(WhiteSpace(SPACE))] + Spell(toks[1..])
  }

  predicate WordsAreWords(toks: seq<Token>) {
    forall k :: 0 <= k < |toks| ==> toks[k].Word? ==> IsWord(toks[k].word)
  }

  lemma {:induction false} LowerCaseStart(s: bytes)
    ensures var body := HexString.LowerCase(s); body == [] || HexString.IsHexDigit(body[0])
  {
    if s != [] {
      LowerCaseStart(s[..|s| - 1]);
    }
  }

  lemma MarkForToken(tok: Token)
    requires tok.Word? ==> IsWord(tok.word)
    ensures ValidMark(MarkFor(tok)) && MarkTokens(MarkFor(tok)) == [tok]
  {
    match tok {
      case Text(s) =>
        LowerCaseStart(s);
        HexString.EveryStringHasASpelling(s);
        HexString.DecodeSpelling(HexString.LowerCase(s), s);
      case _ =>
    }
  }

  lemma TokensCons(m: Mark, rest: seq<Mark>)
    ensures AllTokens([m] + rest) == MarkTokens(m) + AllTokens(rest)
  {
    assert ([m] + rest)[1..] == rest;
  }

  lemma BlankKeepsPrintable(m: Mark, rest: seq<Mark>)
    requires ValidMark(m) && Printable(rest)
    ensures Printable([m] + ([Blanks(WhiteSpace(SPACE))] + rest))
  {
    var ms := [m] + ([Blanks(WhiteSpace(SPACE))] + rest);
    assert ValidMark(Blanks(WhiteSpace(SPACE)));
    hide ValidMark;
    assert forall k :: 2 <= k < |ms| ==> ms[k] == rest[k - 2];
  }

  lemma {:induction false} SpellIsPrintable(toks: seq<Token>)
    requires WordsAreWords(toks)
    ensures Printable(Spell(toks)) && AllTokens(Spell(toks)) == toks
    decreases |toks|
  {
    if toks != [] {
      var m, blank, rest := MarkFor(toks[0]), Blanks(WhiteSpace(SPACE)), Spell(toks[1..]);
      MarkForToken(toks[0]);
      SpellIsPrintable(toks[1..]);
      assert Spell(toks) == [m] + ([blank] + rest) && MarkTokens(blank) == [];
      hide *;
      BlankKeepsPrintable(m, rest);
      TokensCons(m, [blank] + rest);
      TokensCons(blank, rest);
    }
  }

  lemma {:induction false} ElementWords(read: FloatReader, es: seq<Element>)
    requires ValidElements(read, es)
    ensures WordsAreWords(ElementTokens(es))
    decreases |es|
  {
    if es != [] {
      ElementWords(read, es[1..]);
      assert ValidElement(read, es[0]);
    }
  }

  lemma {:induction false} OperationWords(read: FloatReader, ops: seq<Operation>)
    requires ValidOperations(read, ops)
    ensures WordsAreWords(Tokens(ops))
    decreases |ops|
  {
    if ops != [] {
      assert ValidOperation(read, ops[0]);
      OperationWords(read, ops[1..]);
      match ops[0] {
        case ShowArray(es) => ElementWords(read, es);
        case UnshownArray(es) => ElementWords(read, es);
        case _ =>
      }
      assert WordsAreWords(OperationTokens(ops[0]));
    }
  }

  lemma {:induction false} EveryListHasASpelling(read: FloatReader, ops: seq<Operation>)
    requires ValidOperations(read, ops)
    ensures Printable(Spell(Tokens(ops))) && AllTokens(Spell(Tokens(ops))) == Tokens(ops)
    ensures Extracted(read, Print(Spell(Tokens(ops)))) == ShownText(read, ops) <==> Harmless(ops, false)
  {
    OperationWords(read, ops);
    SpellIsPrintable(Tokens(ops));
    ExtractsExactlyWhen(read, ops, Spell(Tokens(ops)));
  }

  // ---------------------------------------------------------------------------------------------
  // Two readings that section 7.3 of ISO 32000-1 does not give.

  lemma OneShow(read: FloatReader, s: bytes, ms: seq<Mark>)
    requires Printable(ms) && AllTokens(ms) == [Text(s), Word(OP_SHOW)]
    ensures Extracted(read, Print(ms)) == s + [LF]
  {
    var ops := [ShowString(Show, s)];
    assert ops[1..] == [] && Tokens(ops) == [Text(s), Word(OP_SHOW)] + [];
    assert ShownText(read, ops) == (s + [LF]) + [];
    WholeStreamRoundTrip(read, ops, ms);
  }

  lemma {:induction false} TokensConcat(x: seq<Mark>, y: seq<Mark>)
    ensures AllTokens(x + y) == AllTokens(x) + AllTokens(y)
    decreases |x|
  {
    if x == [] {
      assert x + y == y;
    } else {
      assert (x + y)[1..] == x[1..] + y;
      TokensConcat(x[1..], y);
    }
  }

  lemma TokensOfThree(x: Mark, y: Mark, z: Mark)
    ensures AllTokens([x, y, z]) == MarkTokens(x) + MarkTokens(y) + MarkTokens(z)
  {
    TokensCons(x, [y, z]);
    TokensCons(y, [z]);
    TokensCons(z, []);
    assert [x, y, z] == [x] + [y, z] && [y, z] == [y] + [z] && [z] == [z] + [];
    Assoc(MarkTokens(x), MarkTokens(y), MarkTokens(z));
    assert MarkTokens(z) + [] == MarkTokens(z);
  }

  // A name spelled like a show operator acts as one.
  lemma NameActsAsOperator(read: FloatReader, s: bytes)
    ensures Extracted(read, Print([MarkFor(Text(s)), Slash, Plain(OP_SHOW)])) == s + [LF]
  {
    var ms := [MarkFor(Text(s)), Slash, Plain(OP_SHOW)];
    MarkForToken(Text(s));
    TokensOfThree(MarkFor(Text(s)), Slash, Plain(OP_SHOW));
    hide MarkFor, Print, AllTokens;
    OneShow(read, s, ms);
  }

  const CLOSED_IN_STRING: Mark := Dict(Dictionary.Leaf(LPAREN, Dictionary.Done))    // "<<(>>"
  const LEFT_OVER: seq<Mark> := [Stray(RPAREN), Stray(GT), Stray(GT)]               // ")>>"

  lemma CloseThenShow(s: bytes)
    ensures var front := [CLOSED_IN_STRING, MarkFor(Text(s)), Plain(OP_SHOW)];
      Printable(front) && AllTokens(front) == [Text(s), Word(OP_SHOW)]
  {
    MarkForToken(Text(s));
    TokensOfThree(CLOSED_IN_STRING, MarkFor(Text(s)), Plain(OP_SHOW));
    hide MarkFor, AllTokens;
  }

  lemma LeftOver()
    ensures Printable(LEFT_OVER) && AllTokens(LEFT_OVER) == []
  {
    TokensOfThree(Stray(RPAREN), Stray(GT), Stray(GT));
    hide AllTokens;
  }

  lemma PrintableConcat(x: seq<Mark>, y: seq<Mark>)
    requires Printable(x) && Printable(y) && (y != [] ==> !y[0].Plain?)
    ensures Printable(x + y)
  {
    hide ValidMark;
  }

  // "<<(>>", a string and its show operator, ")>>": the string in the dictionary ends it, and what
  // that string goes on with is read as part of the stream.
  lemma StringInDictionaryIsShown(read: FloatReader, s: bytes)
    ensures Extracted(read, Print([CLOSED_IN_STRING, MarkFor(Text(s)), Plain(OP_SHOW)] + LEFT_OVER)) == s + [LF]
  {
    var front := [CLOSED_IN_STRING, MarkFor(Text(s)), Plain(OP_SHOW)];
    assert !LEFT_OVER[0].Plain?;
    hide *;
    CloseThenShow(s);
    LeftOver();
    PrintableConcat(front, LEFT_OVER);
    TokensConcat(front, LEFT_OVER);
    OneShow(read, s, front + LEFT_OVER);
  }

  // ---------------------------------------------------------------------------------------------
  // Two habits of the show operator for arrays.

  // It writes a newline with no array before it.
  lemma BareArrayShowIsALine(read: FloatReader)
    ensures Extracted(read, Print([Plain(OP_SHOW_ARRAY)])) == [LF]
  {
    var ms := [Plain(OP_SHOW_ARRAY)];
    TokensCons(Plain(OP_SHOW_ARRAY), []);
    assert [Plain(OP_SHOW_ARRAY)] + [] == ms;
    assert Printable(ms);
    LexPrinted(ms);
    InterpSingle(read, START, Word(OP_SHOW_ARRAY));
    assert Join([]) == [];
  }

  lemma OuterMarks(s: bytes)
    ensures var x := [Opening, MarkFor(Text(s)), Opening];
      Printable(x) && AllTokens(x) == [ArrayOpen, Text(s), ArrayOpen]
  {
    MarkForToken(Text(s));
    TokensOfThree(Opening, MarkFor(Text(s)), Opening);
    hide MarkFor, AllTokens;
  }

  lemma InnerMarks(t: bytes)
    ensures var y := [MarkFor(Text(t)), Closing, Plain(OP_SHOW_ARRAY)];
      && Printable(y) && !y[0].Plain?
      && AllTokens(y) == [Text(t), ArrayClose, Word(OP_SHOW_ARRAY)]
  {
    MarkForToken(Text(t));
    TokensOfThree(MarkFor(Text(t)), Closing, Plain(OP_SHOW_ARRAY));
    hide AllTokens;
  }

  // An array opened inside another drops what the outer one has collected.
  lemma InnerArrayDropsTheOuter(read: FloatReader, s: bytes, t: bytes)
    ensures var outer := [Opening, MarkFor(Text(s)), Opening];
      Extracted(read, Print(outer + [MarkFor(Text(t)), Closing, Plain(OP_SHOW_ARRAY)])) == t + [LF]
  {
    var x, y := [Opening, MarkFor(Text(s)), Opening], [MarkFor(Text(t)), Closing, Plain(OP_SHOW_ARRAY)];
    hide MarkFor, Printable, AllTokens, Print, Interp, Lex;
    OuterMarks(s);
    InnerMarks(t);
    PrintableConcat(x, y);
    TokensConcat(x, y);
    LexPrinted(x + y);
    NestedArrays(read, s, t);
  }

  lemma NestedArrays(read: FloatReader, s: bytes, t: bytes)
    ensures var outer := [ArrayOpen, Text(s), ArrayOpen];
      Interp(read, START, outer + [Text(t), ArrayClose, Word(OP_SHOW_ARRAY)]).out == t + [LF]
  {
    var x, y := [ArrayOpen, Text(s), ArrayOpen], [Text(t), ArrayClose, Word(OP_SHOW_ARRAY)];
    var st := State(None, true, [], []);
    InterpConcat(read, START, x, y);
    InterpThree(read, START, ArrayOpen, Text(s), ArrayOpen);
    InterpThree(read, st, Text(t), ArrayClose, Word(OP_SHOW_ARRAY));
    hide Interp;
    assert [] + [t] == [t] && Join([t]) == [] + t;
  }

  // ---------------------------------------------------------------------------------------------
  // Integer kernings.

  function NatDigits(n: nat): bytes {
    (if n < 10 then [] else NatDigits(n / 10)) + [ZERO + (n % 10) as byte]
  }

  function Decimal(k: int): bytes {
    if k < 0 then ['-' as byte] + NatDigits(-k) else NatDigits(k)
  }

  predicate InRange(k: int, limit: nat) {
    k < limit && -k < limit
  }

  // The reader takes the decimal form of every integer below `limit` in size for a number, and puts
  // it on the right side of the word-break threshold. Rounding to a float64 keeps that side.
  ghost predicate ReadsIntegers(read: FloatReader, limit: nat) {
    forall k :: InRange(k, limit) ==>
      read(Decimal(k)).Some? && (read(Decimal(k)).value.AtMost(WORD_BREAK) <==> k <= -100)
  }

  predicate IsDigit(b: byte) {
    ZERO <= b <= ZERO + 9
  }

  lemma {:induction false} NatDigitsAreDigits(n: nat)
    ensures var ds := NatDigits(n); ds != [] && forall k :: 0 <= k < |ds| ==> IsDigit(ds[k])
  {
    if n >= 10 {
      NatDigitsAreDigits(n / 10);
    }
  }

  lemma DecimalIsWord(k: int)
    ensures IsWord(Decimal(k))
  {
    NatDigitsAreDigits(if k < 0 then -k else k);
  }

  // Such a reader takes every integer kerning for a number, and -100 or less for a word break.
  lemma IntegerKerning(read: FloatReader, limit: nat, k: int)
    requires ReadsIntegers(read, limit) && InRange(k, limit)
    ensures ValidElement(read, Num(Decimal(k)))
    ensures ElementText(read, Num(Decimal(k))) == if k <= -100 then [SPACE] else []
  {
    DecimalIsWord(k);
    assert read(Decimal(k)).Some?;
  }

  // Optionally signed decimal integers, a part of strconv.ParseFloat's grammar.
  function NatValue(ds: bytes): Option<nat> {
    if ds == [] then None
    else
      var d := ds[|ds| - 1];
      if !IsDigit(d) then None
      else if |ds| == 1 then Some((d - ZERO) as nat)
      else
        match NatValue(ds[..|ds| - 1])
        case None => None
        case Some(v) => Some(10 * v + (d - ZERO) as nat)
  }

  function ReadInteger(tok: bytes): Option<Float> {
    var negative := tok != [] && tok[0] == '-' as byte;
    match NatValue(if negative then tok[1..] else tok)
    case None => None
    case Some(v) => Some(Finite(if negative then -(v as real) else v as real))
  }

  lemma {:induction false} NatValueOfDigits(n: nat)
    ensures NatValue(NatDigits(n)) == Some(n)
  {
    var ds := NatDigits(n);
    if n >= 10 {
      NatValueOfDigits(n / 10);
      NatDigitsAreDigits(n / 10);
      assert ds[..|ds| - 1] == NatDigits(n / 10);
      assert n == 10 * (n / 10) + n % 10;
    }
  }

  lemma AReaderExists(limit: nat)
    ensures ReadsIntegers(ReadInteger, limit)
  {
    forall k | InRange(k, limit)
      ensures ReadInteger(Decimal(k)) == Some(Finite(k as real))
      ensures Finite(k as real).AtMost(WORD_BREAK) <==> k <= -100
    {
      var n: nat := if k < 0 then -k else k;
      NatValueOfDigits(n);
      NatDigitsAreDigits(n);
      if k < 0 {
        assert Decimal(k)[1..] == NatDigits(n);
      }
    }
  }
}
