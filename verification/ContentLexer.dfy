// The lexical level of a content stream: section 7.2 of ISO 32000-1 as the extractor reads it.
module ContentLexer {
  import opened Bytes
  import Dictionary
  import HexString
  import LiteralString

  // White space, comments, dictionaries, braces and stray delimiters yield no token.
  datatype Token = Text(text: bytes) | ArrayOpen | ArrayClose | Word(word: bytes)

  // Whether the end of the data, rather than a byte of its own or its neighbour, ended a lexeme.
  datatype Ending = Closed | OpenWord | OpenComment | OpenString

  datatype Lexeme = Lexeme(next: nat, tokens: seq<Token>, ending: Ending)

  // The least index from i on that holds a delimiter, or the end of the data.
  function WordEnd(data: bytes, i: nat): (e: nat)
    requires i <= |data|
    ensures i <= e <= |data|
    ensures i < |data| && !IsDelimiter(data[i]) ==> i < e
    decreases |data| - i
  {
    if i == |data| || IsDelimiter(data[i]) then i else WordEnd(data, i + 1)
  }

  // The least index from i on that holds a newline byte, or the end of the data.
  function CommentEnd(data: bytes, i: nat): (e: nat)
    requires i <= |data|
    ensures i <= e <= |data|
    ensures i < |data| && !IsNewline(data[i]) ==> i < e
    decreases |data| - i
  {
    if i == |data| || IsNewline(data[i]) then i else CommentEnd(data, i + 1)
  }

  function EndingOf(open: bool, how: Ending): Ending {
    if open then how else Closed
  }

  function LexemeAt(data: bytes, i: nat): (l: Lexeme)
    requires i < |data|
    ensures i < l.next <= |data|
    ensures l.next < |data| ==> l.ending == Closed
  {
    var c := data[i];
    if IsWhite(c) then Lexeme(i + 1, [], Closed)
    else if c == PERCENT then
      var e := CommentEnd(data, i);
      Lexeme(e, [], EndingOf(e == |data|, OpenComment))
    else if c == LPAREN then
      var r := LiteralString.Scan(data, i + 1, 1);
      Lexeme(r.next, [Text(r.text)], EndingOf(r.depth > 0, OpenString))
    else if c == LT then
      if Dictionary.Pair(data, i, LT) then
        var r := Dictionary.Skip(data, i + 2, 1);
        Lexeme(r.next, [], EndingOf(r.depth > 0, OpenString))
      else
        var r := HexString.Scan(data, i + 1);
        Lexeme(r.next, [Text(r.text)], EndingOf(!r.closed, OpenString))
    else if c == LBRACKET then Lexeme(i + 1, [ArrayOpen], Closed)
    else if c == RBRACKET then Lexeme(i + 1, [ArrayClose], Closed)
    else if IsDelimiter(c) then Lexeme(i + 1, [], Closed)
    else
      var e := WordEnd(data, i);
      Lexeme(e, [Word(data[i..e])], EndingOf(e == |data|, OpenWord))
  }

  function Lex(data: bytes, i: nat): seq<Token>
    requires i <= |data|
    decreases |data| - i
  {
    if i == |data| then [] else LexemeAt(data, i).tokens + Lex(data, LexemeAt(data, i).next)
  }

  // How the last lexeme from i on ends.
  function LastEnding(data: bytes, i: nat): Ending
    requires i <= |data|
    decreases |data| - i
  {
    if i == |data| then Closed
    else
      var l := LexemeAt(data, i);
      if l.next == |data| then l.ending else LastEnding(data, l.next)
  }

  // Bytes `b` that may follow a lexeme that ended so without becoming part of it.
  predicate Accepts(ending: Ending, b: bytes) {
    || b == []
    || ending == Closed
    || (ending == OpenWord && IsDelimiter(b[0]))
    || (ending == OpenComment && IsNewline(b[0]))
  }

  // ---------------------------------------------------------------------------------------------

  lemma {:induction false} WordEndStable(a: bytes, b: bytes, i: nat)
    requires i <= |a|
    requires WordEnd(a, i) < |a| || b == [] || IsDelimiter(b[0])
    ensures WordEnd(a + b, i) == WordEnd(a, i)
    decreases |a| - i
  {
    if i < |a| {
      assert (a + b)[i] == a[i];
      if !IsDelimiter(a[i]) {
        WordEndStable(a, b, i + 1);
      }
    } else {
      assert b != [] ==> (a + b)[i] == b[0];
    }
  }

  lemma {:induction false} CommentEndStable(a: bytes, b: bytes, i: nat)
    requires i <= |a|
    requires CommentEnd(a, i) < |a| || b == [] || IsNewline(b[0])
    ensures CommentEnd(a + b, i) == CommentEnd(a, i)
    decreases |a| - i
  {
    if i < |a| {
      assert (a + b)[i] == a[i];
      if !IsNewline(a[i]) {
        CommentEndStable(a, b, i + 1);
      }
    } else {
      assert b != [] ==> (a + b)[i] == b[0];
    }
  }

  lemma {:induction false} WordEndShift(a: bytes, b: bytes, i: nat)
    requires i <= |b|
    ensures WordEnd(a + b, |a| + i) == |a| + WordEnd(b, i)
    decreases |b| - i
  {
    if i < |b| && !IsDelimiter(b[i]) {
      WordEndShift(a, b, i + 1);
    }
  }

  lemma {:induction false} CommentEndShift(a: bytes, b: bytes, i: nat)
    requires i <= |b|
    ensures CommentEnd(a + b, |a| + i) == |a| + CommentEnd(b, i)
    decreases |b| - i
  {
    if i < |b| && !IsNewline(b[i]) {
      CommentEndShift(a, b, i + 1);
    }
  }

  // A lexeme that does not end with the data, or whose ending accepts what is appended, is read
  // the same way with those bytes appended.
  lemma LexemeStable(a: bytes, b: bytes, i: nat)
    requires i < |a|
    requires LexemeAt(a, i).next < |a| || Accepts(LexemeAt(a, i).ending, b)
    ensures LexemeAt(a + b, i).next == LexemeAt(a, i).next
    ensures LexemeAt(a + b, i).tokens == LexemeAt(a, i).tokens
  {
    if b == [] {
      assert a + b == a;
    } else {
      LexemeExtended(a, b, i);
    }
  }

  lemma LexemeExtended(a: bytes, b: bytes, i: nat)
    requires i < |a| && b != []
    requires LexemeAt(a, i).next < |a| || Accepts(LexemeAt(a, i).ending, b)
    ensures LexemeAt(a + b, i).next == LexemeAt(a, i).next
    ensures LexemeAt(a + b, i).tokens == LexemeAt(a, i).tokens
  {
    hide LiteralString.Scan, Dictionary.Skip, HexString.Scan, CommentEnd, WordEnd;
    var c, d := a[i], a + b;
    assert d[i] == c;
    if c == PERCENT {
      CommentEndStable(a, b, i);
    } else if c == LPAREN {
      LiteralString.PrefixStability(a, b, i + 1, 1);
    } else if c == LT {
      assert i + 1 < |a|;
      assert d[i + 1] == a[i + 1];
      if Dictionary.Pair(a, i, LT) {
        Dictionary.PrefixStability(a, b, i + 2, 1);
      } else {
        HexString.PrefixStability(a, b, i + 1);
      }
    } else if !IsDelimiter(c) {
      WordEndStable(a, b, i);
      assert d[i..WordEnd(a, i)] == a[i..WordEnd(a, i)];
    }
  }

  lemma LexemeShift(a: bytes, b: bytes, i: nat)
    requires i < |b|
    ensures var l := LexemeAt(b, i); LexemeAt(a + b, |a| + i) == l.(next := |a| + l.next)
  {
    hide LiteralString.Scan, Dictionary.Skip, HexString.Scan, CommentEnd, WordEnd;
    var c, d := b[i], a + b;
    assert d[|a| + i] == c;
    assert i + 1 < |b| ==> d[|a| + i + 1] == b[i + 1];
    if c == PERCENT {
      CommentEndShift(a, b, i);
    } else if c == LPAREN {
      LiteralString.ScanShift(a, b, i + 1, 1);
    } else if c == LT {
      if Dictionary.Pair(b, i, LT) {
        Dictionary.SkipShift(a, b, i + 2, 1);
      } else {
        HexString.ScanShift(a, b, i + 1);
      }
    } else if !IsDelimiter(c) {
      WordEndShift(a, b, i);
      SliceShift(a, b, i, WordEnd(b, i));
    }
  }

  lemma {:induction false} LexShift(a: bytes, b: bytes, i: nat)
    requires i <= |b|
    ensures Lex(a + b, |a| + i) == Lex(b, i)
    ensures LastEnding(a + b, |a| + i) == LastEnding(b, i)
    decreases |b| - i
  {
    hide LexemeAt;
    if i < |b| {
      LexemeShift(a, b, i);
      LexShift(a, b, LexemeAt(b, i).next);
    }
  }

  lemma {:induction false} LexAppend(a: bytes, b: bytes, i: nat)
    requires i <= |a| && Accepts(LastEnding(a, i), b)
    ensures Lex(a + b, i) == Lex(a, i) + Lex(b, 0)
    ensures b != [] ==> LastEnding(a + b, i) == LastEnding(b, 0)
    decreases |a| - i
  {
    hide LexemeAt, Accepts;
    if i == |a| {
      LexShift(a, b, 0);
    } else {
      var l := LexemeAt(a, i);
      LexemeStable(a, b, i);
      if l.next == |a| {
        LexShift(a, b, 0);
      } else {
        LexAppend(a, b, l.next);
      }
      Assoc(l.tokens, Lex(a, l.next), Lex(b, 0));
    }
  }

  // Lexing is compositional: where `a` ends with nothing open that `b` would continue, the tokens
  // of the whole are the tokens of the parts.
  lemma LexConcat(a: bytes, b: bytes)
    requires Accepts(LastEnding(a, 0), b)
    ensures Lex(a + b, 0) == Lex(a, 0) + Lex(b, 0)
    ensures LastEnding(a + b, 0) == LastEnding(if b == [] then a else b, 0)
  {
    LexAppend(a, b, 0);
    if b == [] {
      assert a + b == a;
    }
  }

  // ---------------------------------------------------------------------------------------------
  // White space and newline-ended comments between lexemes.

  datatype Blank = WhiteSpace(b: byte) | Comment(text: bytes, eol: byte)

  predicate ValidBlank(x: Blank) {
    match x
    case WhiteSpace(b) => IsWhite(b)
    case Comment(text, eol) => IsNewline(eol) && forall k :: 0 <= k < |text| ==> !IsNewline(text[k])
  }

  function PrintBlank(x: Blank): bytes {
    match x
    case WhiteSpace(b) => [b]
    case Comment(text, eol) => [PERCENT] + text + [eol]
  }

  function PrintBlanks(xs: seq<Blank>): bytes {
    if xs == [] then [] else PrintBlank(xs[0]) + PrintBlanks(xs[1..])
  }

  lemma {:induction false} CommentEndAt(data: bytes, i: nat, e: nat)
    requires i <= e <= |data|
    requires forall k :: i <= k < e ==> !IsNewline(data[k])
    requires e < |data| ==> IsNewline(data[e])
    ensures CommentEnd(data, i) == e
    decreases e - i
  {
    if i < e {
      CommentEndAt(data, i + 1, e);
    }
  }

  lemma {:induction false} WordEndAt(data: bytes, i: nat, e: nat)
    requires i <= e <= |data|
    requires forall k :: i <= k < e ==> !IsDelimiter(data[k])
    requires e < |data| ==> IsDelimiter(data[e])
    ensures WordEnd(data, i) == e
    decreases e - i
  {
    if i < e {
      WordEndAt(data, i + 1, e);
    }
  }

  // A single lexeme that takes up all of the data.
  lemma LexOne(data: bytes, i: nat)
    requires i < |data| && LexemeAt(data, i).next == |data|
    ensures Lex(data, i) == LexemeAt(data, i).tokens && LastEnding(data, i) == LexemeAt(data, i).ending
  {
    assert Lex(data, |data|) == [];
  }

  lemma LexBlank(x: Blank)
    requires ValidBlank(x)
    ensures Lex(PrintBlank(x), 0) == [] && LastEnding(PrintBlank(x), 0) == Closed
  {
    var d := PrintBlank(x);
    match x {
      case WhiteSpace(b) =>
        LexOne(d, 0);
      case Comment(text, eol) =>
        assert forall k :: 1 <= k < 1 + |text| ==> d[k] == text[k - 1];
        assert d[1 + |text|] == eol;
        CommentEndAt(d, 0, 1 + |text|);
        hide CommentEnd;
        var l, m := LexemeAt(d, 0), LexemeAt(d, 1 + |text|);
        assert l.next == 1 + |text| && l.tokens == [];
        assert m == Lexeme(|d|, [], Closed);
        LexOne(d, 1 + |text|);
    }
  }

  lemma {:induction false} LexBlanks(xs: seq<Blank>)
    requires forall k :: 0 <= k < |xs| ==> ValidBlank(xs[k])
    ensures Lex(PrintBlanks(xs), 0) == [] && LastEnding(PrintBlanks(xs), 0) == Closed
  {
    if xs != [] {
      LexBlank(xs[0]);
      LexBlanks(xs[1..]);
      LexConcat(PrintBlank(xs[0]), PrintBlanks(xs[1..]));
    }
  }

  // Inserting white space and newline-ended comments between lexemes changes no token. What stands
  // before may end in a word when the first byte inserted is a delimiter, which it always is; only
  // an open comment or string would swallow it.
  lemma BlanksChangeNothing(a: bytes, xs: seq<Blank>, b: bytes)
    requires forall k :: 0 <= k < |xs| ==> ValidBlank(xs[k])
    requires LastEnding(a, 0) == Closed || (LastEnding(a, 0) == OpenWord && Accepts(OpenWord, b))
    ensures Lex(a + (PrintBlanks(xs) + b), 0) == Lex(a + b, 0)
  {
    hide Lex, LastEnding;
    LexBlanks(xs);
    var w := PrintBlanks(xs);
    LexConcat(w, b);
    LexConcat(a, b);
    if xs == [] {
      assert w + b == b;
    } else {
      FirstBlankByte(xs);
      hide PrintBlanks, IsDelimiter;
      assert (w + b)[0] == w[0];
      LexConcat(a, w + b);
    }
  }

  lemma FirstBlankByte(xs: seq<Blank>)
    requires xs != [] && ValidBlank(xs[0])
    ensures PrintBlanks(xs) != [] && IsDelimiter(PrintBlanks(xs)[0])
  {
    assert PrintBlank(xs[0])[0] == PrintBlanks(xs)[0];
  }
}
