// Every content stream that ends with nothing open is a printed list of marks.
module StreamConverse {
  import opened Bytes
  import opened ContentLexer
  import opened StreamRoundTrip
  import Dictionary
  import HexString
  import LiteralString

  // Mark m is what stands in data[i..k], and the lexer goes on from k as it does from i.
  predicate Covers(data: bytes, i: nat, m: Mark, k: nat) {
    && i < k <= |data|
    && ValidMark(m) && MarkBytes(m) == data[i..k]
    && Lex(data, i) == MarkTokens(m) + Lex(data, k)
    && (m.Plain? <==> !IsDelimiter(data[i]))
    && (m.Plain? && k < |data| ==> IsDelimiter(data[k]))
    && (k < |data| ==> LastEnding(data, k) == LastEnding(data, i))
  }

  lemma LexFrom(data: bytes, i: nat)
    requires i < |data|
    ensures var l := LexemeAt(data, i);
      && Lex(data, i) == l.tokens + Lex(data, l.next)
      && (l.next == |data| ==> LastEnding(data, i) == l.ending)
      && (l.next < |data| ==> LastEnding(data, i) == LastEnding(data, l.next))
  {
  }

  lemma CoversBy(data: bytes, i: nat, m: Mark, k: nat, toks: seq<Token>)
    requires i < k <= |data| && !m.Plain? && IsDelimiter(data[i])
    requires ValidMark(m) && MarkBytes(m) == data[i..k] && MarkTokens(m) == toks
    requires Lex(data, i) == toks + Lex(data, k)
    requires k < |data| ==> LastEnding(data, k) == LastEnding(data, i)
    ensures Covers(data, i, m, k)
  {
    hide ValidMark, MarkBytes, MarkTokens, Lex, LastEnding, IsDelimiter;
  }

  // What stands between the bytes at i and e.
  function Inside(data: bytes, i: nat, e: nat): bytes
    requires i < e <= |data|
  {
    data[i + 1..e]
  }

  lemma Enclosed(data: bytes, i: nat, e: nat)
    requires i < e < |data|
    ensures data[i..e + 1] == [data[i]] + (Inside(data, i, e) + [data[e]])
  {
    Slices(data, i, i + 1, e + 1);
    Slices(data, i + 1, e, e + 1);
    assert data[i..i + 1] == [data[i]] && data[e..e + 1] == [data[e]];
  }

  // A hexadecimal string that starts at i and closes just before k.
  predicate HexSpan(data: bytes, i: nat, k: nat) {
    i + 1 < k <= |data| && data[i] == LT && data[i + 1] != LT && k == HexString.HexEnd(data, i + 1) + 1
  }

  function HexMarkOf(data: bytes, i: nat, k: nat): Mark
    requires i + 1 < k <= |data|
  {
    Hex(Inside(data, i, k - 1))
  }

  lemma HexBytes(data: bytes, i: nat, k: nat)
    requires i + 1 < k <= |data| && HexSpan(data, i, k)
    ensures var m := HexMarkOf(data, i, k); !m.Plain? && ValidMark(m) && MarkBytes(m) == data[i..k]
  {
    Enclosed(data, i, k - 1);
    assert [GT] + [] == [GT];
  }

  lemma HexLexeme(data: bytes, i: nat) returns (k: nat)
    requires i < |data| && data[i] == LT && !Dictionary.Pair(data, i, LT)
    ensures LexemeAt(data, i).ending == OpenString
            || (i + 1 < k <= |data| && HexSpan(data, i, k)
                && LexemeAt(data, i) == Lexeme(k, MarkTokens(HexMarkOf(data, i, k)), Closed))
    ensures LexemeAt(data, i).ending == OpenString ==> LexemeAt(data, i).next == |data|
  {
    k := HexString.HexEnd(data, i + 1) + 1;
    hide HexString.HexEnd, HexString.Digits, HexString.Decode;
  }

  lemma HexMark(data: bytes, i: nat) returns (m: Mark, k: nat)
    requires i < |data| && data[i] == LT && !Dictionary.Pair(data, i, LT) && LastEnding(data, i) != OpenString
    ensures Covers(data, i, m, k)
  {
    assert IsDelimiter(data[i]);
    hide *;
    k := HexLexeme(data, i);
    LexFrom(data, i);
    HexBytes(data, i, k);
    m := HexMarkOf(data, i, k);
    CoversBy(data, i, m, k, MarkTokens(m));
  }

  lemma LiteralLex(data: bytes, i: nat) returns (k: nat)
    requires i < |data| && data[i] == LPAREN && LastEnding(data, i) != OpenString
    ensures i + 1 < k <= |data|
    ensures LiteralString.Scan(data, i + 1, 1).depth == 0 && LiteralString.Scan(data, i + 1, 1).next == k
    ensures Lex(data, i) == [Text(LiteralString.Scan(data, i + 1, 1).text)] + Lex(data, k)
    ensures k < |data| ==> LastEnding(data, k) == LastEnding(data, i)
  {
    k := LiteralString.Scan(data, i + 1, 1).next;
    assert LiteralString.Scan(data, i + 1, 1).depth == 0 ==> k > i + 1;
    hide LiteralString.Scan, Lex, LastEnding;
    LexFrom(data, i);
  }

  lemma LiteralBytes(data: bytes, i: nat, k: nat)
    requires i + 1 < k <= |data| && data[i] == LPAREN
    requires LiteralString.Scan(data, i + 1, 1).depth == 0 && LiteralString.Scan(data, i + 1, 1).next == k
    ensures var m := Literal(LiteralString.Pieces(data, i + 1, 1));
      && ValidMark(m) && MarkBytes(m) == data[i..k]
      && MarkTokens(m) == [Text(LiteralString.Scan(data, i + 1, 1).text)]
  {
    hide LiteralString.Scan, LiteralString.Pieces, LiteralString.WellFormed, LiteralString.Print, LiteralString.Meaning;
    LiteralString.EveryClosedStringIsASpelling(data, i + 1, 1);
    Slices(data, i, i + 1, k);
    assert data[i..i + 1] == [LPAREN];
  }

  lemma LiteralMark(data: bytes, i: nat) returns (m: Mark, k: nat)
    requires i < |data| && data[i] == LPAREN && LastEnding(data, i) != OpenString
    ensures Covers(data, i, m, k)
  {
    assert IsDelimiter(data[i]);
    hide *;
    k := LiteralLex(data, i);
    LiteralBytes(data, i, k);
    m := Literal(LiteralString.Pieces(data, i + 1, 1));
    CoversBy(data, i, m, k, [Text(LiteralString.Scan(data, i + 1, 1).text)]);
  }

  lemma DictMark(data: bytes, i: nat) returns (m: Mark, k: nat)
    requires i < |data| && Dictionary.Pair(data, i, LT) && LastEnding(data, i) != OpenString
    ensures Covers(data, i, m, k)
  {
    var r := Dictionary.Skip(data, i + 2, 1);
    LexFrom(data, i);
    hide Dictionary.Skip, Lex, LastEnding;
    assert r.depth == 0;
    var items := Dictionary.EveryClosedDictionaryIsPrinted(data, i + 2);
    m, k := Dict(items), r.next;
    Slices(data, i, i + 2, k);
    assert data[i..i + 2] == [LT, LT] && [GT, GT] + [] == [GT, GT];
  }

  lemma CommentBytes(data: bytes, i: nat, e: nat)
    requires i < e < |data| && data[i] == PERCENT && e == CommentEnd(data, i)
    ensures var m := Blanks(Comment(Inside(data, i, e), data[e]));
      ValidMark(m) && MarkBytes(m) == data[i..e + 1] && MarkTokens(m) == []
  {
    CommentSpan(data, i);
    hide CommentEnd;
    Enclosed(data, i, e);
    Assoc([data[i]], Inside(data, i, e), [data[e]]);
  }

  lemma CommentLexemes(data: bytes, i: nat)
    requires i < |data| && data[i] == PERCENT
    ensures var e := CommentEnd(data, i);
      if e < |data|
      then i < e && LexemeAt(data, i) == Lexeme(e, [], Closed) && LexemeAt(data, e) == Lexeme(e + 1, [], Closed)
      else LexemeAt(data, i) == Lexeme(e, [], OpenComment)
  {
    CommentSpan(data, i);
  }

  lemma CommentLex(data: bytes, i: nat) returns (e: nat)
    requires i < |data| && data[i] == PERCENT && LastEnding(data, i) != OpenComment
    ensures i < e < |data| && e == CommentEnd(data, i) && Lex(data, i) == [] + Lex(data, e + 1)
    ensures e + 1 < |data| ==> LastEnding(data, e + 1) == LastEnding(data, i)
  {
    hide *;
    e := CommentEnd(data, i);
    CommentLexemes(data, i);
    LexFrom(data, i);
    LexFrom(data, e);
    assert [] + Lex(data, e) == Lex(data, e);
  }

  lemma CommentMark(data: bytes, i: nat) returns (m: Mark, k: nat)
    requires i < |data| && data[i] == PERCENT && LastEnding(data, i) != OpenComment
    ensures Covers(data, i, m, k)
  {
    assert IsDelimiter(data[i]);
    hide *;
    var e := CommentLex(data, i);
    CommentBytes(data, i, e);
    m, k := Blanks(Comment(Inside(data, i, e), data[e])), e + 1;
    CoversBy(data, i, m, k, []);
  }

  lemma {:induction false} CommentSpan(data: bytes, i: nat)
    requires i <= |data|
    ensures var e := CommentEnd(data, i);
      && (forall x :: i <= x < e ==> !IsNewline(data[x]))
      && (e < |data| ==> IsNewline(data[e]))
    decreases |data| - i
  {
    if i < |data| && !IsNewline(data[i]) {
      CommentSpan(data, i + 1);
    }
  }

  lemma {:induction false} WordSpan(data: bytes, i: nat)
    requires i <= |data|
    ensures var e := WordEnd(data, i);
      && (forall x :: i <= x < e ==> !IsDelimiter(data[x]))
      && (e < |data| ==> IsDelimiter(data[e]))
    decreases |data| - i
  {
    if i < |data| && !IsDelimiter(data[i]) {
      WordSpan(data, i + 1);
    }
  }

  lemma WordMark(data: bytes, i: nat) returns (m: Mark, k: nat)
    requires i < |data| && !IsDelimiter(data[i])
    ensures Covers(data, i, m, k)
  {
    k := WordEnd(data, i);
    m := Plain(data[i..k]);
    LexFrom(data, i);
    WordSpan(data, i);
    hide Lex, LastEnding, WordEnd;
    assert forall x :: 0 <= x < k - i ==> data[i..k][x] == data[i + x];
  }

  function SingleMark(b: byte): Mark {
    if IsWhite(b) then Blanks(WhiteSpace(b))
    else if b == LBRACKET then Opening
    else if b == RBRACKET then Closing
    else if b == SLASH then Slash
    else Stray(b)
  }

  lemma ByteMark(data: bytes, i: nat)
    requires i < |data| && IsDelimiter(data[i])
    requires data[i] != PERCENT && data[i] != LPAREN && data[i] != LT
    ensures Covers(data, i, SingleMark(data[i]), i + 1)
  {
    LexFrom(data, i);
    hide Lex, LastEnding;
    assert data[i..i + 1] == [data[i]];
  }

  lemma MarkAt(data: bytes, i: nat) returns (m: Mark, k: nat)
    requires i < |data| && (LastEnding(data, i) == Closed || LastEnding(data, i) == OpenWord)
    ensures Covers(data, i, m, k)
  {
    hide *;
    if data[i] == PERCENT {
      m, k := CommentMark(data, i);
    } else if data[i] == LPAREN {
      m, k := LiteralMark(data, i);
    } else if data[i] == LT {
      if Dictionary.Pair(data, i, LT) {
        m, k := DictMark(data, i);
      } else {
        m, k := HexMark(data, i);
      }
    } else if IsDelimiter(data[i]) {
      m, k := SingleMark(data[i]), i + 1;
      ByteMark(data, i);
    } else {
      m, k := WordMark(data, i);
    }
  }

  lemma PrintableCons(m: Mark, rest: seq<Mark>)
    requires ValidMark(m) && Printable(rest)
    requires m.Plain? && rest != [] ==> !rest[0].Plain?
    ensures Printable([m] + rest)
    ensures Print([m] + rest) == MarkBytes(m) + Print(rest)
    ensures AllTokens([m] + rest) == MarkTokens(m) + AllTokens(rest)
  {
    hide ValidMark, MarkBytes, MarkTokens;
    var ms := [m] + rest;
    assert ms[1..] == rest;
    assert forall k :: 1 <= k < |ms| ==> ms[k] == rest[k - 1];
  }

  // The marks cover the data from i on.
  predicate CoverFrom(data: bytes, i: nat, ms: seq<Mark>)
    requires i <= |data|
  {
    && Printable(ms) && Print(ms) == data[i..] && AllTokens(ms) == Lex(data, i)
    && (ms != [] <==> i < |data|)
    && (ms != [] ==> (ms[0].Plain? <==> !IsDelimiter(data[i])))
  }

  lemma CoverMore(data: bytes, i: nat, m: Mark, k: nat, rest: seq<Mark>)
    requires i < |data| && Covers(data, i, m, k) && CoverFrom(data, k, rest)
    ensures CoverFrom(data, i, [m] + rest)
  {
    hide Lex, LastEnding, IsDelimiter, ValidMark, MarkBytes, MarkTokens, Printable, Print, AllTokens;
    PrintableCons(m, rest);
    Slices(data, i, k, |data|);
    assert data[i..|data|] == data[i..] && data[k..|data|] == data[k..];
  }

  lemma {:induction false} MarksFrom(data: bytes, i: nat) returns (ms: seq<Mark>)
    requires i <= |data| && (LastEnding(data, i) == Closed || LastEnding(data, i) == OpenWord)
    ensures CoverFrom(data, i, ms)
    decreases |data| - i
  {
    if i == |data| {
      ms := [];
    } else {
      var m, k := MarkAt(data, i);
      assert i < k && (LastEnding(data, k) == Closed || LastEnding(data, k) == OpenWord);
      hide *;
      var rest := MarksFrom(data, k);
      CoverMore(data, i, m, k, rest);
      ms := [m] + rest;
    }
  }

  // Every stream that ends with nothing open but, at most, a word is printed from some list of marks
  // with its tokens, so the printed streams are all there are.
  lemma EveryStreamIsPrinted(data: bytes) returns (ms: seq<Mark>)
    requires LastEnding(data, 0) == Closed || LastEnding(data, 0) == OpenWord
    ensures Printable(ms) && Print(ms) == data && AllTokens(ms) == Lex(data, 0)
  {
    ms := MarksFrom(data, 0);
    assert data[0..] == data;
  }
}
