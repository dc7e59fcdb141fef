// extractTextFromContentStream: which strings of a content stream are shown, and the one-pass loop
// that finds them. Section 9.4.3 of ISO 32000-1 lists the text-showing operators.
module TextExtractor {
  import opened Bytes
  import opened ContentLexer
  import Dictionary
  import HexString
  import LiteralString

  // A float64 as far as comparing it with a threshold goes.
  datatype Float = Finite(value: real) | PosInf | NegInf | NaN {
    predicate AtMost(t: real) {
      match this
      case Finite(v) => v <= t
      case PosInf => false
      case NegInf => true
      case NaN => false
    }
  }

  // strconv.ParseFloat: a token's number, or None where it reports an error.
  type FloatReader = bytes -> Option<Float>

  const WORD_BREAK: real := -100.0

  const OP_SHOW: bytes := ['T' as byte, 'j' as byte]
  const OP_NEXT_SHOW: bytes := ['\'' as byte]
  const OP_SPACED_SHOW: bytes := ['"' as byte]
  const OP_SHOW_ARRAY: bytes := ['T' as byte, 'J' as byte]

  predicate ShowsString(op: bytes) {
    op == OP_SHOW || op == OP_NEXT_SHOW || op == OP_SPACED_SHOW
  }

  predicate IsShowOperator(op: bytes) {
    ShowsString(op) || op == OP_SHOW_ARRAY
  }

  // The operators of section 9.4.3 of ISO 32000-1, in literal bytes: Tj, ' and ", and TJ.
  lemma ShowOperatorsAre(op: bytes)
    ensures ShowsString(op) <==> op == [84, 106] || op == [39] || op == [34]
    ensures IsShowOperator(op) <==> ShowsString(op) || op == [84, 74]
    ensures OP_SHOW == [84, 106] && OP_NEXT_SHOW == [39] && OP_SPACED_SHOW == [34] && OP_SHOW_ARRAY == [84, 74]
  {
  }

  // A word break is a number of -100 or less; infinities compare as they do in float64, a NaN never does.
  lemma WordBreakExactlyWhen(x: Float)
    ensures x.AtMost(WORD_BREAK) <==> x == NegInf || (x.Finite? && x.value <= -100.0)
  {
  }

  // strings.Join with an empty separator.
  function Join(parts: seq<bytes>): bytes {
    if parts == [] then [] else Join(parts[..|parts| - 1]) + parts[|parts| - 1]
  }

  // The operand string waiting for its operator, the array being collected, and the output.
  datatype State = State(last: Option<bytes>, inArray: bool, parts: seq<bytes>, out: bytes)

  const START: State := State(None, false, [], [])

  // flushOperator.
  function Flush(st: State, op: bytes): State {
    if ShowsString(op) then
      st.(out := st.out + (if st.last.Some? then st.last.value + [LF] else []), last := None)
    else if op == OP_SHOW_ARRAY then st.(out := st.out + (Join(st.parts) + [LF]), parts := [])
    else st
  }

  function Step(read: FloatReader, st: State, tok: Token): State {
    match tok
    case Text(s) => if st.inArray then st.(parts := st.parts + [s]) else st.(last := Some(s))
    case ArrayOpen => st.(inArray := true, parts := [])
    case ArrayClose => st.(inArray := false)
    case Word(w) =>
      if st.inArray && read(w).Some? then
        if read(w).value.AtMost(WORD_BREAK) then st.(parts := st.parts + [[SPACE]]) else st
      else Flush(st, w)
  }

  function Interp(read: FloatReader, st: State, toks: seq<Token>): State
    decreases toks
  {
    if toks == [] then st else Interp(read, Step(read, st, toks[0]), toks[1..])
  }

  // The reference definition: first cut the whole stream into tokens, then interpret those.
  function Extracted(read: FloatReader, data: bytes): bytes {
    Interp(read, START, Lex(data, 0)).out
  }

  lemma InterpOne(read: FloatReader, st: State, toks: seq<Token>, rest: seq<Token>)
    requires |toks| <= 1
    ensures Interp(read, st, toks + rest)
            == Interp(read, if toks == [] then st else Step(read, st, toks[0]), rest)
  {
    assert toks == [] ==> toks + rest == rest;
    assert toks != [] ==> (toks + rest)[1..] == rest;
  }

  lemma LexemeStep(read: FloatReader, st: State, data: bytes, i: nat)
    requires i < |data|
    ensures var l := LexemeAt(data, i);
      Interp(read, st, Lex(data, i))
      == Interp(read, if l.tokens == [] then st else Step(read, st, l.tokens[0]), Lex(data, l.next))
  {
    var l := LexemeAt(data, i);
    hide LexemeAt;
    InterpOne(read, st, l.tokens, Lex(data, l.next));
  }

  // The flushOperator closure, with the variables it captures made explicit.
  method FlushOperator(op: bytes, lastString: bytes, haveLastString: bool, arrayStrings: seq<bytes>, out: bytes,
                       ghost inArray: bool)
    returns (lastString': bytes, haveLastString': bool, arrayStrings': seq<bytes>, out': bytes)
    ensures State(if haveLastString' then Some(lastString') else None, inArray, arrayStrings', out')
            == Flush(State(if haveLastString then Some(lastString) else None, inArray, arrayStrings, out), op)
  {
    lastString', haveLastString', arrayStrings', out' := lastString, haveLastString, arrayStrings, out;
    if op == OP_SHOW || op == OP_NEXT_SHOW || op == OP_SPACED_SHOW {
      if haveLastString {
        out' := out + lastString;
        out' := out' + [LF];
        Assoc(out, lastString, [LF]);
      } else {
        assert out + [] == out;
      }
      lastString' := [];
      haveLastString' := false;
    } else if op == OP_SHOW_ARRAY {
      out' := out + Join(arrayStrings);
      out' := out' + [LF];
      Assoc(out, Join(arrayStrings), [LF]);
      arrayStrings' := [];
    }
  }

  method SkipComment(data: bytes, start: nat) returns (next: nat, ghost steps: nat)
    requires start <= |data|
    ensures next == CommentEnd(data, start) && steps == next - start
  {
    next, steps := start, 0;
    while next < |data| && data[next] != LF && data[next] != CR
      invariant start <= next <= |data|
      invariant CommentEnd(data, start) == CommentEnd(data, next)
      invariant steps == next - start
    {
      next := next + 1;
      steps := steps + 1;
    }
  }

  method SkipWord(data: bytes, start: nat) returns (next: nat, ghost steps: nat)
    requires start <= |data|
    ensures next == WordEnd(data, start) && steps == next - start
  {
    next, steps := start, 0;
    while next < |data| && !IsDelimiter(data[next])
      invariant start <= next <= |data|
      invariant WordEnd(data, start) == WordEnd(data, next)
      invariant steps == next - start
    {
      next := next + 1;
      steps := steps + 1;
    }
  }

  // The one-pass loop, with the kinds of lexeme in the order the source tests for them. `steps`
  // counts the iterations of this loop and of every loop it runs.
  method ExtractTextFromContentStream(read: FloatReader, data: bytes) returns (out: bytes, ghost steps: nat)
    ensures out == Extracted(read, data)
    ensures steps <= 2 * |data|
  {
    out := [];
    var lastString: bytes := [];
    var haveLastString := false;
    var inArray := false;
    var arrayStrings: seq<bytes> := [];
    var i := 0;
    var n := |data|;
    steps := 0;
    ghost var st := START;
    ghost var goal := Interp(read, START, Lex(data, 0));
    hide Interp, Lex, LiteralString.Scan, HexString.Scan, Dictionary.Skip, CommentEnd, WordEnd;
    while i < n
      invariant 0 <= i <= n
      invariant steps <= 2 * i
      invariant st == State(if haveLastString then Some(lastString) else None, inArray, arrayStrings, out)
      invariant Interp(read, st, Lex(data, i)) == goal
      decreases n - i
    {
      LexemeStep(read, st, data, i);
      ghost var l := LexemeAt(data, i);
      ghost var was := i;
      steps := steps + 1;
      var c := data[i];
      if IsWhite(c) {
        i := i + 1;
      } else if c == PERCENT {
        var next, more := SkipComment(data, i);
        i := next;
        steps := steps + more;
      } else if c == LPAREN {
        var str, next, more := LiteralString.ParseLiteralString(data, i);
        i := next;
        steps := steps + more;
        if inArray {
          arrayStrings := arrayStrings + [str];
        } else {
          lastString := str;
          haveLastString := true;
        }
        assert l.tokens == [Text(str)];
      } else if c == LT {
        if i + 1 < n && data[i + 1] == LT {
          var next, more := Dictionary.SkipDict(data, i);
          i := next;
          steps := steps + more;
        } else {
          var str, next, more := HexString.ParseHexString(data, i);
          i := next;
          steps := steps + more;
          if inArray {
            arrayStrings := arrayStrings + [str];
          } else {
            lastString := str;
            haveLastString := true;
          }
          assert l.tokens == [Text(str)];
        }
      } else if c == LBRACKET {
        inArray := true;
        arrayStrings := [];
        i := i + 1;
      } else if c == RBRACKET {
        inArray := false;
        i := i + 1;
      } else if c == LBRACE || c == RBRACE {
        i := i + 1;
      } else {
        var start := i;
        var next, more := SkipWord(data, i);
        i := next;
        steps := steps + more;
        if i == start {
          i := i + 1;
        } else {
          var token := data[start..i];
          assert l.tokens == [Word(token)];
          var num := read(token);
          if inArray && num.Some? {
            if num.value.AtMost(WORD_BREAK) {
              arrayStrings := arrayStrings + [[SPACE]];
            }
          } else {
            lastString, haveLastString, arrayStrings, out :=
              FlushOperator(token, lastString, haveLastString, arrayStrings, out, inArray);
          }
        }
      }
      st := if l.tokens == [] then st else Step(read, st, l.tokens[0]);
      assert i == l.next;
    }
    assert Interp(read, st, []) == st;
  }
}
