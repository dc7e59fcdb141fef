// Lists of show operations and the text they are meant to show, against what the extractor makes of
// their tokens. Section 9.4.3 of ISO 32000-1.
module ShowOperations {
  import opened Bytes
  import opened ContentLexer
  import opened TextExtractor
  import opened ExtractorProperties

  // ---------------------------------------------------------------------------------------------
  // What a stream is meant to show.

  datatype ShowOperator = Show | NextLineShow | SpacedNextLineShow

  // A string, a number in any notation the reader knows, or a name or other word.
  datatype Element = Shown(text: bytes) | Num(word: bytes) | Name(word: bytes)

  datatype Operation =
    | ShowString(operator: ShowOperator, text: bytes)
    | ShowArray(elements: seq<Element>)
    | Operand(word: bytes)                        // a number, a name or another operator
    | UnshownString(text: bytes)                  // a string that some other operator takes
    | UnshownArray(elements: seq<Element>)        // likewise an array, say a dash pattern

  function OperatorName(op: ShowOperator): bytes {
    match op
    case Show => OP_SHOW
    case NextLineShow => OP_NEXT_SHOW
    case SpacedNextLineShow => OP_SPACED_SHOW
  }

  predicate IsWord(w: bytes) {
    w != [] && forall k :: 0 <= k < |w| ==> !IsDelimiter(w[k])
  }

  predicate ValidElement(read: FloatReader, e: Element) {
    match e
    case Shown(_) => true
    case Num(w) => IsWord(w) && read(w).Some?
    case Name(w) => IsWord(w) && read(w).None?
  }

  predicate ValidElements(read: FloatReader, es: seq<Element>) {
    forall k :: 0 <= k < |es| ==> ValidElement(read, es[k])
  }

  predicate ValidOperation(read: FloatReader, op: Operation) {
    match op
    case ShowArray(es) => ValidElements(read, es)
    case UnshownArray(es) => ValidElements(read, es)
    case Operand(w) => IsWord(w)
    case _ => true
  }

  predicate ValidOperations(read: FloatReader, ops: seq<Operation>) {
    forall k :: 0 <= k < |ops| ==> ValidOperation(read, ops[k])
  }

  function ElementText(read: FloatReader, e: Element): bytes {
    match e
    case Shown(s) => s
    case Num(w) => if read(w).Some? && read(w).value.AtMost(WORD_BREAK) then [SPACE] else []
    case Name(_) => []
  }

  function ElementsText(read: FloatReader, es: seq<Element>): bytes {
    if es == [] then [] else ElementText(read, es[0]) + ElementsText(read, es[1..])
  }

  function OperationText(read: FloatReader, op: Operation): bytes {
    match op
    case ShowString(_, s) => s + [LF]
    case ShowArray(es) => ElementsText(read, es) + [LF]
    case _ => []
  }

  // The text a reader of the page gets: each show on a line of its own, a space for each number
  // that pushes glyphs a tenth of an em apart or more.
  function ShownText(read: FloatReader, ops: seq<Operation>): bytes {
    if ops == [] then [] else OperationText(read, ops[0]) + ShownText(read, ops[1..])
  }

  function ElementToken(e: Element): Token {
    match e
    case Shown(s) => Text(s)
    case Num(w) => Word(w)
    case Name(w) => Word(w)
  }

  function ElementTokens(es: seq<Element>): seq<Token> {
    if es == [] then [] else [ElementToken(es[0])] + ElementTokens(es[1..])
  }

  function OperationTokens(op: Operation): seq<Token> {
    match op
    case ShowString(o, s) => [Text(s), Word(OperatorName(o))]
    case ShowArray(es) => [ArrayOpen] + (ElementTokens(es) + [ArrayClose, Word(OP_SHOW_ARRAY)])
    case Operand(w) => [Word(w)]
    case UnshownString(s) => [Text(s)]
    case UnshownArray(es) => [ArrayOpen] + (ElementTokens(es) + [ArrayClose])
  }

  function Tokens(ops: seq<Operation>): seq<Token> {
    if ops == [] then [] else OperationTokens(ops[0]) + Tokens(ops[1..])
  }

  // ---------------------------------------------------------------------------------------------
  // Words spelled like a show operator that are not meant as one, say in a name after '/'.

  // Such a word does no harm if it takes a string and none is waiting.
  predicate HarmlessWord(w: bytes, pending: bool) {
    w != OP_SHOW_ARRAY && (ShowsString(w) ==> !pending)
  }

  predicate HarmlessElement(e: Element, pending: bool) {
    e.Name? ==> HarmlessWord(e.word, pending)
  }

  predicate HarmlessElements(es: seq<Element>, pending: bool) {
    forall k :: 0 <= k < |es| ==> HarmlessElement(es[k], pending)
  }

  predicate HarmlessOperation(op: Operation, pending: bool) {
    match op
    case ShowArray(es) => HarmlessElements(es, pending)
    case UnshownArray(es) => HarmlessElements(es, pending)
    case Operand(w) => HarmlessWord(w, pending)
    case _ => true
  }

  // Whether a string waits for its operator after an operation.
  function PendingAfter(op: Operation, pending: bool): bool {
    match op
    case ShowString(_, _) => false
    case UnshownString(_) => true
    case _ => pending
  }

  predicate Harmless(ops: seq<Operation>, pending: bool) {
    ops == [] || (HarmlessOperation(ops[0], pending) && Harmless(ops[1..], PendingAfter(ops[0], pending)))
  }

  // No name or operand is spelled like a show operator at all.
  predicate PlainElements(es: seq<Element>) {
    forall k :: 0 <= k < |es| ==> es[k].Name? ==> !IsShowOperator(es[k].word)
  }

  predicate PlainOperation(op: Operation) {
    match op
    case ShowArray(es) => PlainElements(es)
    case UnshownArray(es) => PlainElements(es)
    case Operand(w) => !IsShowOperator(w)
    case _ => true
  }

  predicate PlainOperations(ops: seq<Operation>) {
    forall k :: 0 <= k < |ops| ==> PlainOperation(ops[k])
  }

  lemma {:induction false} PlainIsHarmless(ops: seq<Operation>, pending: bool)
    requires PlainOperations(ops)
    ensures Harmless(ops, pending)
    decreases |ops|
  {
    if ops != [] {
      assert PlainOperation(ops[0]);
      PlainIsHarmless(ops[1..], PendingAfter(ops[0], pending));
    }
  }

  // ---------------------------------------------------------------------------------------------
  // Interpreting the tokens shows exactly that text if no such word does harm, and more otherwise.

  // What has been written, and what the array being collected adds to it when shown.
  function Held(st: State): nat {
    |st.out| + Total(st.parts)
  }

  lemma JoinAppend(parts: seq<bytes>, s: bytes)
    ensures Join(parts + [s]) == Join(parts) + s
  {
    assert (parts + [s])[..|parts|] == parts;
  }

  lemma ElementStep(read: FloatReader, st: State, e: Element)
    requires st.inArray && ValidElement(read, e)
    ensures var r := Step(read, st, ElementToken(e));
      && r.inArray
      && |r.out| >= |st.out| && Held(r) >= Held(st) + |ElementText(read, e)|
      && (if HarmlessElement(e, st.last.Some?)
          then r == st.(parts := r.parts) && Join(r.parts) == Join(st.parts) + ElementText(read, e)
          else |r.out| > |st.out| && Held(r) > Held(st) + |ElementText(read, e)|)
  {
    JoinLength(st.parts);
    match e {
      case Shown(s) =>
        JoinAppend(st.parts, s);
        TotalAppend(st.parts, s);
      case Num(w) =>
        JoinAppend(st.parts, [SPACE]);
        TotalAppend(st.parts, [SPACE]);
      case Name(w) =>
        assert st.out + [] == st.out;
    }
  }

  lemma InterpTwo(read: FloatReader, st: State, a: Token, b: Token)
    ensures Interp(read, st, [a, b]) == Step(read, Step(read, st, a), b)
  {
    assert [a, b][1..] == [b];
    InterpSingle(read, Step(read, st, a), b);
  }

  lemma InterpSingle(read: FloatReader, st: State, a: Token)
    ensures Interp(read, st, [a]) == Step(read, st, a)
  {
    assert [a][1..] == [];
  }

  lemma InterpThree(read: FloatReader, st: State, a: Token, b: Token, c: Token)
    ensures Interp(read, st, [a, b, c]) == Step(read, Step(read, Step(read, st, a), b), c)
  {
    assert [a, b, c][1..] == [b, c];
    InterpTwo(read, Step(read, st, a), b, c);
  }

  lemma InterpElement(read: FloatReader, st: State, es: seq<Element>)
    requires es != []
    ensures Interp(read, st, ElementTokens(es))
            == Interp(read, Step(read, st, ElementToken(es[0])), ElementTokens(es[1..]))
    ensures ElementsText(read, es) == ElementText(read, es[0]) + ElementsText(read, es[1..])
  {
    var toks := ElementTokens(es);
    assert toks[0] == ElementToken(es[0]) && toks[1..] == ElementTokens(es[1..]);
    hide ElementTokens, Step;
  }

  lemma HarmlessCons(es: seq<Element>, pending: bool)
    requires es != []
    ensures HarmlessElements(es, pending) <==> HarmlessElement(es[0], pending) && HarmlessElements(es[1..], pending)
  {
    var rest := es[1..];
    assert forall k :: 0 < k < |es| ==> es[k] == rest[k - 1];
    hide HarmlessElement;
  }

  // The elements of an array: what r holds after them and what st held before.
  ghost predicate Collected(read: FloatReader, st: State, es: seq<Element>, r: State) {
    && r.inArray
    && |r.out| >= |st.out| && Held(r) >= Held(st) + |ElementsText(read, es)|
    && (if HarmlessElements(es, st.last.Some?)
        then r == st.(parts := r.parts) && Join(r.parts) == Join(st.parts) + ElementsText(read, es)
        else |r.out| > |st.out| && Held(r) > Held(st) + |ElementsText(read, es)|)
  }

  lemma {:induction false} CollectElements(read: FloatReader, st: State, es: seq<Element>)
    requires st.inArray && ValidElements(read, es)
    ensures Collected(read, st, es, Interp(read, st, ElementTokens(es)))
    decreases |es|
  {
    if es == [] {
      assert Join(st.parts) == Join(st.parts) + ElementsText(read, es);
    } else {
      var st' := Step(read, st, ElementToken(es[0]));
      InterpElement(read, st, es);
      HarmlessCons(es, st.last.Some?);
      ElementStep(read, st, es[0]);
      Assoc(Join(st.parts), ElementText(read, es[0]), ElementsText(read, es[1..]));
      hide Interp, Step, Held, HarmlessElement, HarmlessElements, Join, ElementText, ElementsText, ValidElement;
      CollectElements(read, st', es[1..]);
    }
  }

  // An operation: what has been written after it and before it.
  ghost predicate Shows(read: FloatReader, st: State, op: Operation, r: State) {
    && !r.inArray
    && |r.out| >= |st.out| + |OperationText(read, op)|
    && (if HarmlessOperation(op, st.last.Some?)
        then r.out == st.out + OperationText(read, op) && r.last.Some? == PendingAfter(op, st.last.Some?)
        else |r.out| > |st.out| + |OperationText(read, op)|)
  }

  lemma InterpShowArray(read: FloatReader, st: State, es: seq<Element>)
    requires ValidElements(read, es)
    ensures Shows(read, st, ShowArray(es), Interp(read, st, OperationTokens(ShowArray(es))))
  {
    var st0 := st.(inArray := true, parts := []);
    var st1 := Interp(read, st0, ElementTokens(es));
    CollectElements(read, st0, es);
    JoinLength(st1.parts);
    InterpSingle(read, st, ArrayOpen);
    InterpTwo(read, st1, ArrayClose, Word(OP_SHOW_ARRAY));
    assert Join([]) + ElementsText(read, es) == ElementsText(read, es) && Total([]) == 0;
    hide Interp, ElementTokens, HarmlessElements, Join, Total, ElementsText;
    InterpConcat(read, st, [ArrayOpen], ElementTokens(es) + [ArrayClose, Word(OP_SHOW_ARRAY)]);
    InterpConcat(read, st0, ElementTokens(es), [ArrayClose, Word(OP_SHOW_ARRAY)]);
  }

  lemma InterpUnshownArray(read: FloatReader, st: State, es: seq<Element>)
    requires ValidElements(read, es)
    ensures Shows(read, st, UnshownArray(es), Interp(read, st, OperationTokens(UnshownArray(es))))
  {
    var st0 := st.(inArray := true, parts := []);
    var st1 := Interp(read, st0, ElementTokens(es));
    CollectElements(read, st0, es);
    InterpSingle(read, st, ArrayOpen);
    InterpSingle(read, st1, ArrayClose);
    hide Interp, ElementTokens, HarmlessElements, Join, Held, ElementsText;
    InterpConcat(read, st, [ArrayOpen], ElementTokens(es) + [ArrayClose]);
    InterpConcat(read, st0, ElementTokens(es), [ArrayClose]);
    assert st.out + [] == st.out;
  }

  lemma InterpOperation(read: FloatReader, st: State, op: Operation)
    requires ValidOperation(read, op) && !st.inArray
    ensures Shows(read, st, op, Interp(read, st, OperationTokens(op)))
  {
    hide Interp;
    match op {
      case ShowString(o, s) => InterpTwo(read, st, Text(s), Word(OperatorName(o)));
      case ShowArray(es) => InterpShowArray(read, st, es);
      case UnshownArray(es) => InterpUnshownArray(read, st, es);
      case Operand(w) =>
        InterpSingle(read, st, Word(w));
        assert st.out + [] == st.out;
      case UnshownString(s) =>
        InterpSingle(read, st, Text(s));
        assert st.out + [] == st.out;
    }
  }

  // From any state outside an array: the tokens of a list of operations append the text it is meant
  // to show if no word does harm, and a longer text otherwise.
  lemma {:induction false} InterpShows(read: FloatReader, st: State, ops: seq<Operation>)
    requires !st.inArray && ValidOperations(read, ops)
    ensures var out := Interp(read, st, Tokens(ops)).out;
      && |out| >= |st.out| + |ShownText(read, ops)|
      && (if Harmless(ops, st.last.Some?) then out == st.out + ShownText(read, ops)
          else |out| > |st.out| + |ShownText(read, ops)|)
    decreases |ops|
  {
    if ops != [] {
      var toks := OperationTokens(ops[0]);
      var st' := Interp(read, st, toks);
      assert ShownText(read, ops) == OperationText(read, ops[0]) + ShownText(read, ops[1..]);
      assert Tokens(ops) == toks + Tokens(ops[1..]);
      InterpOperation(read, st, ops[0]);
      hide Interp, OperationTokens, HarmlessOperation, PendingAfter, OperationText, ShownText, Tokens, ValidOperation;
      InterpConcat(read, st, toks, Tokens(ops[1..]));
      InterpShows(read, st', ops[1..]);
      Assoc(st.out, OperationText(read, ops[0]), ShownText(read, ops[1..]));
    } else {
      assert Tokens(ops) == [] && ShownText(read, ops) == [];
      assert st.out + [] == st.out;
    }
  }
}
