// Inline dictionaries "<< ... >>" of section 7.3.7 of ISO 32000-1, which the extractor skips.
module Dictionary {
  import opened Bytes

  // `depth` is 0 exactly when the matching ">>" was found.
  datatype Skipped = Skipped(next: nat, depth: nat)

  predicate Pair(data: bytes, i: nat, b: byte) {
    i + 1 < |data| && data[i] == b && data[i + 1] == b
  }

  function Skip(data: bytes, i: nat, depth: nat): (r: Skipped)
    requires i <= |data|
    ensures i <= r.next <= |data|
    ensures r.depth == 0 || r.next == |data|
    decreases |data| - i
  {
    if i == |data| || depth == 0 then Skipped(i, depth)
    else if Pair(data, i, LT) then Skip(data, i + 2, depth + 1)
    else if Pair(data, i, GT) then Skip(data, i + 2, depth - 1)
    else Skip(data, i + 1, depth)
  }

  // skipDict. `steps` counts the iterations of its loop.
  method SkipDict(data: bytes, start: nat) returns (next: nat, ghost steps: nat)
    requires Pair(data, start, LT)
    ensures next == Skip(data, start + 2, 1).next
    ensures start + 2 <= next <= |data|
    ensures steps <= next - start - 2
  {
    var n := |data|;
    var i := start + 2;
    var depth := 1;
    steps := 0;
    while i < n && depth > 0
      invariant start + 2 <= i <= n && 0 <= depth
      invariant Skip(data, start + 2, 1) == Skip(data, i, depth)
      invariant steps <= i - start - 2
      decreases n - i
    {
      if data[i] == LT && i + 1 < n && data[i + 1] == LT {
        depth := depth + 1;
        i := i + 2;
      } else if data[i] == GT && i + 1 < n && data[i + 1] == GT {
        depth := depth - 1;
        i := i + 2;
      } else {
        i := i + 1;
      }
      steps := steps + 1;
    }
    next := i;
  }

  // ---------------------------------------------------------------------------------------------
  // Matching: nesting depth, counted byte by byte with no reference to the scanner.

  predicate IsAngle(b: byte) {
    b == LT || b == GT
  }

  // How many bytes like the one at k stand right before it, from s on.
  function Before(data: bytes, s: nat, k: nat): (n: nat)
    requires s <= k < |data|
  {
    if k > s && data[k - 1] == data[k] then Before(data, s, k - 1) + 1 else 0
  }

  // A run of equal brackets is read in pairs, from its first byte on: one starts at k.
  predicate PairStarts(data: bytes, s: nat, k: nat, b: byte)
    requires s <= k
  {
    Pair(data, k, b) && Before(data, s, k) % 2 == 0
  }

  // Dictionaries still open before index k, counting one open at s.
  function Depth(data: bytes, s: nat, k: nat): int
    requires s <= k <= |data|
  {
    if k == s then 1
    else
      Depth(data, s, k - 1)
      + if k - 1 == s then 0
        else if PairStarts(data, s, k - 2, LT) then 1
        else if PairStarts(data, s, k - 2, GT) then -1
        else 0
  }

  // No pair reaches across index i.
  predicate Aligned(data: bytes, s: nat, i: nat)
    requires s <= i <= |data|
  {
    i < |data| && IsAngle(data[i]) ==> Before(data, s, i) % 2 == 0
  }

  lemma PairChangesDepth(data: bytes, s: nat, i: nat)
    requires s <= i && i + 1 < |data| && Aligned(data, s, i)
    requires Pair(data, i, LT) || Pair(data, i, GT)
    ensures Aligned(data, s, i + 2) && Depth(data, s, i + 1) == Depth(data, s, i)
    ensures Depth(data, s, i + 2) == Depth(data, s, i) + if Pair(data, i, LT) then 1 else -1
  {
    assert Before(data, s, i + 1) == Before(data, s, i) + 1;
    assert i + 2 < |data| && data[i + 2] == data[i] ==> Before(data, s, i + 2) == Before(data, s, i) + 2;
    if i > s && IsAngle(data[i - 1]) && data[i - 1] == data[i] {
      assert Before(data, s, i) == Before(data, s, i - 1) + 1;
    }
  }

  lemma ByteKeepsDepth(data: bytes, s: nat, i: nat)
    requires s <= i < |data| && Aligned(data, s, i)
    requires !Pair(data, i, LT) && !Pair(data, i, GT)
    ensures Aligned(data, s, i + 1) && Depth(data, s, i + 1) == Depth(data, s, i)
  {
    if i > s && IsAngle(data[i - 1]) && data[i - 1] == data[i] {
      assert Before(data, s, i) == Before(data, s, i - 1) + 1;
    }
  }

  lemma {:induction false} SkipStopsAtMatch(data: bytes, s: nat, i: nat, depth: nat)
    requires s <= i <= |data|
    requires Depth(data, s, i) == depth && Aligned(data, s, i)
    ensures var r := Skip(data, i, depth);
      && Depth(data, s, r.next) == r.depth
      && forall j :: i <= j < r.next ==> Depth(data, s, j) > 0
    decreases |data| - i
  {
    if i < |data| && depth > 0 {
      if Pair(data, i, LT) {
        PairChangesDepth(data, s, i);
        SkipStopsAtMatch(data, s, i + 2, depth + 1);
      } else if Pair(data, i, GT) {
        PairChangesDepth(data, s, i);
        SkipStopsAtMatch(data, s, i + 2, depth - 1);
      } else {
        ByteKeepsDepth(data, s, i);
        SkipStopsAtMatch(data, s, i + 1, depth);
      }
    }
  }

  // The scanner stops at the least index where the depth reaches zero, and at the end of the data
  // when there is none. `s` is the index just past the opening pair.
  lemma ExactMatching(data: bytes, s: nat, m: nat)
    requires s <= m <= |data|
    ensures var r := Skip(data, s, 1);
      && (m == r.next && r.depth == 0
          <==> Depth(data, s, m) == 0 && forall j :: s <= j < m ==> Depth(data, s, j) > 0)
      && (r.depth > 0 <==> forall j :: s <= j <= |data| ==> Depth(data, s, j) > 0)
  {
    SkipStopsAtMatch(data, s, s, 1);
    var r := Skip(data, s, 1);
    assert r.depth == 0 ==> Depth(data, s, r.next) == 0;
    if r.depth > 0 {
      forall j | s <= j <= |data|
        ensures Depth(data, s, j) > 0
      {
        assert j < r.next || j == r.next;
      }
    }
  }

  // ---------------------------------------------------------------------------------------------
  // Dictionary bodies: single bytes and nested dictionaries.

  datatype Items = Done | Leaf(b: byte, rest: Items) | Nested(inner: Items, rest: Items)

  function Print(items: Items): bytes {
    match items
    case Done => []
    case Leaf(b, rest) => [b] + Print(rest)
    case Nested(inner, rest) => [LT, LT] + (Print(inner) + ([GT, GT] + Print(rest)))
  }

  // The first byte of a body and its closing pair.
  function FirstByte(items: Items): byte {
    match items
    case Done => GT
    case Leaf(b, _) => b
    case Nested(_, _) => LT
  }

  // A bracket on its own, as around a hexadecimal string, is not followed by its like.
  predicate WellFormed(items: Items) {
    match items
    case Done => true
    case Leaf(b, rest) => (IsAngle(b) ==> FirstByte(rest) != b) && WellFormed(rest)
    case Nested(inner, rest) => WellFormed(inner) && WellFormed(rest)
  }

  predicate AngleFree(items: Items) {
    match items
    case Done => true
    case Leaf(b, rest) => !IsAngle(b) && AngleFree(rest)
    case Nested(inner, rest) => AngleFree(inner) && AngleFree(rest)
  }

  lemma {:induction false} AngleFreeIsWellFormed(items: Items)
    requires AngleFree(items)
    ensures WellFormed(items)
  {
    match items {
      case Done =>
      case Leaf(_, rest) => AngleFreeIsWellFormed(rest);
      case Nested(inner, rest) =>
        AngleFreeIsWellFormed(inner);
        AngleFreeIsWellFormed(rest);
    }
  }

  lemma FirstPrinted(items: Items, tail: bytes)
    requires tail != [] && tail[0] == GT
    ensures var d := Print(items) + tail; d != [] && d[0] == FirstByte(items)
  {
  }

  lemma SkipCons(t: bytes, rest: bytes, depth: nat, depth': nat)
    requires depth > 0
    requires Skip(t + rest, 0, depth) == Skip(t + rest, |t|, depth')
    ensures var r := Skip(rest, 0, depth'); Skip(t + rest, 0, depth) == r.(next := |t| + r.next)
  {
    SkipShift(t, rest, 0, depth');
  }

  // Skipping passes over a printed body at the same nesting depth, up to what closes it.
  lemma {:induction false} SkipPassesItems(items: Items, tail: bytes, depth: nat)
    requires WellFormed(items) && depth > 0
    requires tail != [] && tail[0] == GT
    ensures var p, r := Print(items), Skip(tail, 0, depth);
      Skip(p + tail, 0, depth) == r.(next := |p| + r.next)
  {
    match items {
      case Done =>
        assert [] + tail == tail;
      case Leaf(b, rest) =>
        FirstPrinted(rest, tail);
        Assoc([b], Print(rest), tail);
        SkipPassesItems(rest, tail, depth);
        SkipCons([b], Print(rest) + tail, depth, depth);
      case Nested(inner, rest) =>
        var z := Print(rest) + tail;
        var y := [GT, GT] + z;
        var x := Print(inner) + y;
        NestedPrint(inner, rest, tail);
        SkipPassesItems(rest, tail, depth);
        SkipCons([GT, GT], z, depth + 1, depth);
        SkipPassesItems(inner, y, depth + 1);
        SkipCons([LT, LT], x, depth, depth + 1);
    }
  }

  lemma NestedPrint(inner: Items, rest: Items, tail: bytes)
    ensures Print(Nested(inner, rest)) + tail
            == [LT, LT] + (Print(inner) + ([GT, GT] + (Print(rest) + tail)))
  {
    Assoc([LT, LT], Print(inner) + ([GT, GT] + Print(rest)), tail);
    Assoc(Print(inner), [GT, GT] + Print(rest), tail);
    Assoc([GT, GT], Print(rest), tail);
  }

  // The whole printed dictionary is skipped and nothing more, whatever stands before and after.
  lemma {:induction false} RoundTrip(before: bytes, items: Items, after: bytes)
    requires WellFormed(items)
    ensures Skip(before + [LT, LT] + (Print(items) + ([GT, GT] + after)), |before| + 2, 1)
            == Skipped(|before| + |Print(items)| + 4, 0)
  {
    SkipReadsBody(items, after);
    SkipShift(before + [LT, LT], Print(items) + ([GT, GT] + after), 0, 1);
  }

  lemma SkipReadsBody(items: Items, after: bytes)
    requires WellFormed(items)
    ensures Skip(Print(items) + ([GT, GT] + after), 0, 1) == Skipped(|Print(items)| + 2, 0)
  {
    var tail := [GT, GT] + after;
    SkipPassesItems(items, tail, 1);
    assert Pair(tail, 0, GT) && Skip(tail, 2, 0) == Skipped(2, 0);
    assert Skip(tail, 0, 1) == Skipped(2, 0);
  }

  // Closing two levels is closing one and then the other.
  lemma {:induction false} SkipSplit(data: bytes, i: nat, depth: nat, more: nat)
    requires i <= |data|
    ensures var r := Skip(data, i, depth);
      Skip(data, i, depth + more) == if r.depth == 0 then Skip(data, r.next, more) else Skipped(r.next, r.depth + more)
    decreases |data| - i
  {
    if i < |data| && depth > 0 {
      if Pair(data, i, LT) {
        SkipSplit(data, i + 2, depth + 1, more);
      } else if Pair(data, i, GT) {
        SkipSplit(data, i + 2, depth - 1, more);
      } else {
        SkipSplit(data, i + 1, depth, more);
      }
    }
  }

  // Conversely, every dictionary that closes is a printed tree, so those above are all there are.
  lemma {:induction false} EveryClosedDictionaryIsPrinted(data: bytes, i: nat) returns (items: Items)
    requires i <= |data| && Skip(data, i, 1).depth == 0
    ensures WellFormed(items) && i + 2 <= Skip(data, i, 1).next && FirstByte(items) == data[i]
    ensures data[i..Skip(data, i, 1).next] == Print(items) + [GT, GT]
    decreases |data| - i
  {
    var k := Skip(data, i, 1).next;
    if Pair(data, i, GT) {
      items := Done;
      assert data[i..k] == [GT, GT];
    } else if Pair(data, i, LT) {
      SkipSplit(data, i + 2, 1, 1);
      var m := Skip(data, i + 2, 1).next;
      var inner := EveryClosedDictionaryIsPrinted(data, i + 2);
      var rest := EveryClosedDictionaryIsPrinted(data, m);
      items := Nested(inner, rest);
      NestedPrint(inner, rest, [GT, GT]);
      Slices(data, i, i + 2, k);
      Slices(data, i + 2, m, k);
      assert data[i..i + 2] == [LT, LT];
      Assoc(Print(inner), [GT, GT], Print(rest) + [GT, GT]);
    } else {
      var rest := EveryClosedDictionaryIsPrinted(data, i + 1);
      items := Leaf(data[i], rest);
      Slices(data, i, i + 1, k);
      assert data[i..i + 1] == [data[i]];
      Assoc([data[i]], Print(rest), [GT, GT]);
    }
  }

  // Bytes before a closing pair are skipped with it, and nothing more, if and only if they are a
  // printed tree when all of them, those in strings included, are taken as they stand.
  lemma SkipsBodyExactlyWhen(body: bytes, after: bytes)
    ensures Skip(body + ([GT, GT] + after), 0, 1) == Skipped(|body| + 2, 0)
            <==> exists items :: WellFormed(items) && Print(items) == body
  {
    var data := body + ([GT, GT] + after);
    if Skip(data, 0, 1) == Skipped(|body| + 2, 0) {
      var items := EveryClosedDictionaryIsPrinted(data, 0);
      Assoc(body, [GT, GT], after);
      assert data[0..|body| + 2] == body + [GT, GT];
      assert (Print(items) + [GT, GT])[..|body|] == Print(items);
      assert (body + [GT, GT])[..|body|] == body;
    }
    if items :| WellFormed(items) && Print(items) == body {
      SkipReadsBody(items, after);
    }
  }

  function Append(items: Items, more: Items): Items {
    match items
    case Done => more
    case Leaf(b, rest) => Leaf(b, Append(rest, more))
    case Nested(inner, rest) => Nested(inner, Append(rest, more))
  }

  lemma {:induction false} AppendByte(items: Items, b: byte)
    requires WellFormed(items) && !IsAngle(b)
    ensures var x := Append(items, Leaf(b, Done)); WellFormed(x) && Print(x) == Print(items) + [b]
    ensures FirstByte(Append(items, Leaf(b, Done))) == if items.Done? then b else FirstByte(items)
  {
    match items {
      case Done =>
        assert [b] + [] == [] + [b];
      case Leaf(c, rest) =>
        AppendByte(rest, b);
        Assoc([c], Print(rest), [b]);
      case Nested(inner, rest) =>
        AppendByte(rest, b);
        Assoc([GT, GT], Print(rest), [b]);
        Assoc(Print(inner), [GT, GT] + Print(rest), [b]);
        Assoc([LT, LT], Print(inner) + ([GT, GT] + Print(rest)), [b]);
    }
  }

  // Strings mean nothing to the scanner: a closing pair inside one ends the dictionary there,
  // whatever entries it follows and however the string goes on.
  lemma CloseInStringEnds(items: Items, after: bytes)
    requires WellFormed(items)
    ensures Skip(Print(items) + ([LPAREN, GT, GT] + after), 0, 1) == Skipped(|Print(items)| + 3, 0)
  {
    AppendByte(items, LPAREN);
    SkipReadsBody(Append(items, Leaf(LPAREN, Done)), after);
    Assoc(Print(items), [LPAREN], [GT, GT] + after);
    Assoc([LPAREN], [GT, GT], after);
    assert [LPAREN] + [GT, GT] == [LPAREN, GT, GT];
  }

  // ---------------------------------------------------------------------------------------------
  // Stability under appended bytes, and under bytes put in front.

  lemma {:induction false} PrefixStability(a: bytes, b: bytes, i: nat, depth: nat)
    requires i <= |a| && Skip(a, i, depth).depth == 0
    ensures Skip(a + b, i, depth) == Skip(a, i, depth)
    decreases |a| - i
  {
    if i < |a| && depth > 0 {
      if Pair(a, i, LT) {
        PrefixStability(a, b, i + 2, depth + 1);
      } else if Pair(a, i, GT) {
        PrefixStability(a, b, i + 2, depth - 1);
      } else {
        PrefixStability(a, b, i + 1, depth);
      }
    }
  }

  lemma {:induction false} SkipShift(a: bytes, b: bytes, i: nat, depth: nat)
    requires i <= |b|
    ensures var r := Skip(b, i, depth); Skip(a + b, |a| + i, depth) == r.(next := |a| + r.next)
    decreases |b| - i
  {
    var d, j := a + b, |a| + i;
    assert i < |b| ==> d[j] == b[i];
    assert i + 1 < |b| ==> d[j + 1] == b[i + 1];
    if i < |b| && depth > 0 {
      if Pair(b, i, LT) {
        SkipShift(a, b, i + 2, depth + 1);
      } else if Pair(b, i, GT) {
        SkipShift(a, b, i + 2, depth - 1);
      } else {
        SkipShift(a, b, i + 1, depth);
      }
    }
  }
}
