// Bounds and compositionality of the extracted text, for every byte sequence.
module ExtractorProperties {
  import opened Bytes
  import opened ContentLexer
  import opened TextExtractor

  // ---------------------------------------------------------------------------------------------
  // The output never exceeds the input.

  function Total(parts: seq<bytes>): nat {
    if parts == [] then 0 else Total(parts[..|parts| - 1]) + |parts[|parts| - 1]|
  }

  // Everything the extractor holds or has written.
  function Potential(st: State): nat {
    |st.out| + (if st.last.Some? then |st.last.value| else 0) + Total(st.parts)
  }

  function Weight(toks: seq<Token>): nat {
    if toks == [] then 0
    else
      (match toks[0]
       case Text(s) => |s|
       case ArrayOpen => 0
       case ArrayClose => 0
       case Word(w) => |w|)
      + Weight(toks[1..])
  }

  lemma {:induction false} JoinLength(parts: seq<bytes>)
    ensures |Join(parts)| == Total(parts)
  {
    if parts != [] {
      JoinLength(parts[..|parts| - 1]);
    }
  }

  lemma TotalAppend(parts: seq<bytes>, s: bytes)
    ensures Total(parts + [s]) == Total(parts) + |s|
  {
    assert (parts + [s])[..|parts|] == parts;
  }

  lemma StepPotential(read: FloatReader, st: State, tok: Token)
    requires tok.Word? ==> tok.word != []
    ensures Potential(Step(read, st, tok)) <= Potential(st) + Weight([tok])
  {
    assert Weight([tok][1..]) == 0;
    JoinLength(st.parts);
    TotalAppend(st.parts, [SPACE]);
    match tok {
      case Text(s) => TotalAppend(st.parts, s);
      case _ =>
    }
  }

  lemma LexemeWeight(data: bytes, i: nat)
    requires i < |data|
    ensures var l := LexemeAt(data, i);
      && Weight(l.tokens) <= l.next - i
      && |l.tokens| <= 1
      && (l.tokens != [] && l.tokens[0].Word? ==> l.tokens[0].word != [])
  {
    var l := LexemeAt(data, i);
    assert |l.tokens| <= 1;
    assert l.tokens != [] ==> Weight(l.tokens[1..]) == 0;
  }

  // Reading on from index i adds no more than the bytes that are left.
  lemma {:induction false} PotentialBound(read: FloatReader, st: State, data: bytes, i: nat)
    requires i <= |data|
    ensures Potential(Interp(read, st, Lex(data, i))) <= Potential(st) + |data| - i
    decreases |data| - i
  {
    hide LexemeAt, Potential, Weight, Step;
    if i < |data| {
      var l := LexemeAt(data, i);
      LexemeWeight(data, i);
      LexemeStep(read, st, data, i);
      if l.tokens == [] {
        PotentialBound(read, st, data, l.next);
      } else {
        assert l.tokens == [l.tokens[0]];
        StepPotential(read, st, l.tokens[0]);
        PotentialBound(read, Step(read, st, l.tokens[0]), data, l.next);
      }
    }
  }

  lemma OutputNeverExceedsInput(read: FloatReader, data: bytes)
    ensures |Extracted(read, data)| <= |data|
  {
    PotentialBound(read, START, data, 0);
  }

  // ---------------------------------------------------------------------------------------------
  // Compositionality.

  // Nothing is waiting for an operator and no array is being collected.
  predicate Clean(st: State) {
    st.last == None && !st.inArray && st.parts == []
  }

  lemma {:induction false} InterpConcat(read: FloatReader, st: State, x: seq<Token>, y: seq<Token>)
    ensures Interp(read, st, x + y) == Interp(read, Interp(read, st, x), y)
    decreases |x|
  {
    if x == [] {
      assert x + y == y;
    } else {
      assert (x + y)[1..] == x[1..] + y;
      InterpConcat(read, Step(read, st, x[0]), x[1..], y);
    }
  }

  lemma StepKeepsOutput(read: FloatReader, before: bytes, st: State, tok: Token)
    ensures var r := Step(read, st, tok);
      Step(read, st.(out := before + st.out), tok) == r.(out := before + r.out)
  {
    var more := if st.last.Some? then st.last.value + [LF] else [];
    Assoc(before, st.out, more);
    Assoc(before, st.out, Join(st.parts) + [LF]);
  }

  // What has been written already is never looked at again.
  lemma {:induction false} InterpKeepsOutput(read: FloatReader, before: bytes, st: State, toks: seq<Token>)
    ensures var r := Interp(read, st, toks);
      Interp(read, st.(out := before + st.out), toks) == r.(out := before + r.out)
    decreases |toks|
  {
    if toks != [] {
      hide Step;
      StepKeepsOutput(read, before, st, toks[0]);
      InterpKeepsOutput(read, before, Step(read, st, toks[0]), toks[1..]);
    }
  }

  // Where `a` ends with nothing open, neither in the lexer nor in the interpreter, the text of the
  // whole is the text of the parts, one after the other.
  lemma Compositionality(read: FloatReader, a: bytes, b: bytes)
    requires Accepts(LastEnding(a, 0), b)
    requires Clean(Interp(read, START, Lex(a, 0)))
    ensures Extracted(read, a + b) == Extracted(read, a) + Extracted(read, b)
  {
    hide Interp, Lex, LastEnding;
    var st := Interp(read, START, Lex(a, 0));
    LexConcat(a, b);
    InterpConcat(read, START, Lex(a, 0), Lex(b, 0));
    assert st == START.(out := st.out + START.out);
    InterpKeepsOutput(read, st.out, START, Lex(b, 0));
  }

  lemma {:induction false} BlanksAreInvisible(read: FloatReader, a: bytes, xs: seq<Blank>, b: bytes)
    requires forall k :: 0 <= k < |xs| ==> ValidBlank(xs[k])
    requires LastEnding(a, 0) == Closed || (LastEnding(a, 0) == OpenWord && Accepts(OpenWord, b))
    ensures Extracted(read, a + (PrintBlanks(xs) + b)) == Extracted(read, a + b)
  {
    BlanksChangeNothing(a, xs, b);
  }
}
