// Literal strings "( ... )" of section 7.3.4.2 of ISO 32000-1.
module LiteralString {
  import opened Bytes

  predicate IsOctal(b: byte) {
    ZERO <= b < ZERO + 8
  }

  // The escapes \n \r \t \b \f and the bytes they stand for.
  function NamedEscape(esc: byte): Option<byte> {
    if esc == 'n' as byte then Some(LF)
    else if esc == 'r' as byte then Some(CR)
    else if esc == 't' as byte then Some(TAB)
    else if esc == 'b' as byte then Some(BACKSPACE)
    else if esc == 'f' as byte then Some(FF)
    else None
  }

  // Table 3 of ISO 32000-1, in literal bytes: the letters n, r, t, b and f.
  lemma NamedEscapesAre(esc: byte)
    ensures NamedEscape(110) == Some(10) && NamedEscape(114) == Some(13) && NamedEscape(116) == Some(9)
    ensures NamedEscape(98) == Some(8) && NamedEscape(102) == Some(12)
    ensures esc !in {110, 114, 116, 98, 102} ==> NamedEscape(esc) == None
    ensures IsOctal(esc) <==> 48 <= esc <= 55
  {
  }

  // Index just past the run of at most `room` octal digits that starts at j.
  function OctalEnd(data: bytes, j: nat, room: nat): (k: nat)
    requires j <= |data|
    ensures j <= k <= |data| && k <= j + room
    ensures forall x :: j <= x < k ==> IsOctal(data[x])
    ensures k < |data| && k < j + room ==> !IsOctal(data[k])
    decreases room
  {
    if room > 0 && j < |data| && IsOctal(data[j]) then OctalEnd(data, j + 1, room - 1) else j
  }

  // The number that data[i..k] spells in base 8; the scanner keeps it modulo 256.
  function OctalValue(data: bytes, i: nat, k: nat): int
    requires i <= k <= |data|
    decreases k
  {
    if i == k then 0 else OctalValue(data, i, k - 1) * 8 + (data[k - 1] as int - ZERO as int)
  }

  lemma OctalValueIs(x: byte, y: byte, z: byte)
    requires x < 8 && y < 8 && z < 8
    ensures OctalValue([48 + x], 0, 1) == x as int
    ensures OctalValue([48 + x, 48 + y], 0, 2) == 8 * x as int + y as int
    ensures OctalValue([48 + x, 48 + y, 48 + z], 0, 3) == 64 * x as int + 8 * y as int + z as int
  {
    var ds := [48 + x, 48 + y, 48 + z];
    assert OctalValue(ds, 0, 1) == x as int;
    assert OctalValue(ds, 0, 2) == 8 * x as int + y as int;
    assert OctalValue([48 + x, 48 + y], 0, 1) == x as int;
  }

  lemma {:induction false} OctalValueSame(x: bytes, i: nat, y: bytes, j: nat, len: nat)
    requires i + len <= |x| && j + len <= |y|
    requires x[i..i + len] == y[j..j + len]
    ensures OctalValue(x, i, i + len) == OctalValue(y, j, j + len)
  {
    if len > 0 {
      assert x[i..i + len][len - 1] == y[j..j + len][len - 1];
      assert x[i..i + len - 1] == x[i..i + len][..len - 1] == y[j..j + len - 1];
      OctalValueSame(x, i, y, j, len - 1);
    }
  }

  // The inner loop of an octal escape: at most three digits from `start` on.
  method ReadOctal(data: bytes, start: nat) returns (val: int, j: nat, ghost steps: nat)
    requires start <= |data|
    ensures j == OctalEnd(data, start, 3)
    ensures val == OctalValue(data, start, j)
    ensures steps == j - start
  {
    j, val, steps := start, 0, 0;
    var cnt := 0;
    while j < |data| && cnt < 3 && IsOctal(data[j])
      invariant start <= j <= |data| && j == start + cnt && cnt <= 3
      invariant OctalEnd(data, start, 3) == OctalEnd(data, j, 3 - cnt)
      invariant forall x :: start <= x < j ==> IsOctal(data[x])
      invariant val == OctalValue(data, start, j)
      invariant steps == j - start
      decreases |data| - j
    {
      steps := steps + 1;
      val := val * 8 + (data[j] as int - ZERO as int);
      j := j + 1;
      cnt := cnt + 1;
    }
  }

  // One step of the scanner: where it ends, how it changes the nesting depth and what it writes.
  datatype Unit = Unit(next: nat, delta: int, text: bytes)

  // What the backslash at i and the bytes after it stand for.
  function EscapeAt(data: bytes, i: nat): (u: Unit)
    requires i + 1 < |data|
    ensures i + 2 <= u.next <= |data| && u.delta == 0 && |u.text| <= 1
  {
    var esc := data[i + 1];
    if NamedEscape(esc).Some? then Unit(i + 2, 0, [NamedEscape(esc).value])
    else if esc == CR then
      Unit(if i + 2 < |data| && data[i + 2] == LF then i + 3 else i + 2, 0, [])
    else if esc == LF then Unit(i + 2, 0, [])
    else if IsOctal(esc) then
      var k := OctalEnd(data, i + 1, 3);
      assert k > i + 1;
      Unit(k, 0, [(OctalValue(data, i + 1, k) % 256) as byte])
    else Unit(i + 2, 0, [esc])
  }

  function UnitAt(data: bytes, i: nat, depth: nat): (u: Unit)
    requires i < |data| && depth > 0
    ensures i < u.next <= |data|
    ensures depth + u.delta >= 0
    ensures |u.text| <= u.next - i
  {
    var ch := data[i];
    if ch == BACKSLASH && i + 1 < |data| then EscapeAt(data, i)
    else if ch == LPAREN then Unit(i + 1, 1, [ch])
    else if ch == RPAREN then Unit(i + 1, -1, if depth > 1 then [ch] else [])
    else Unit(i + 1, 0, [ch])
  }

  // What the scanner has produced when it stops: `depth` is 0 exactly when the string was closed.
  datatype Scanned = Scanned(text: bytes, next: nat, depth: nat)

  function Scan(data: bytes, i: nat, depth: nat): (r: Scanned)
    requires i <= |data|
    ensures i <= r.next <= |data|
    ensures r.depth == 0 || r.next == |data|
    ensures |r.text| <= r.next - i
    decreases |data| - i
  {
    if i == |data| || depth == 0 then Scanned([], i, depth)
    else
      var u := UnitAt(data, i, depth);
      var r := Scan(data, u.next, depth + u.delta);
      Scanned(u.text + r.text, r.next, r.depth)
  }

  lemma ScanStep(data: bytes, i: nat, depth: nat)
    requires i < |data| && depth > 0
    ensures var u := UnitAt(data, i, depth);
      var r := Scan(data, u.next, depth + u.delta);
      Scan(data, i, depth) == Scanned(u.text + r.text, r.next, r.depth)
  {
  }

  // The escape branch of parseLiteralString.
  method ReadEscape(data: bytes, i: nat) returns (text: bytes, next: nat, ghost steps: nat)
    requires i + 1 < |data|
    ensures Unit(next, 0, text) == EscapeAt(data, i)
    ensures steps < next - i
  {
    steps := 0;
    var esc := data[i + 1];
    next := i + 2;
    if NamedEscape(esc).Some? {
      text := [NamedEscape(esc).value];
    } else if esc == LPAREN || esc == RPAREN || esc == BACKSLASH {
      text := [esc];
    } else if esc == CR {
      text := [];
      if next < |data| && data[next] == LF {
        next := next + 1;
      }
    } else if esc == LF {
      text := [];
    } else if IsOctal(esc) {
      var val, end, inner := ReadOctal(data, i + 1);
      text := [(val % 256) as byte];
      next := end;
      steps := inner;
    } else {
      text := [esc];
    }
  }

  // `text` has been written so far and the rest of `goal` is still to come from index i.
  ghost predicate Pending(goal: Scanned, text: bytes, data: bytes, i: nat, depth: nat)
    requires i <= |data|
  {
    var r := Scan(data, i, depth);
    goal.text == text + r.text && goal.next == r.next
  }

  lemma PendingStep(goal: Scanned, text: bytes, data: bytes, i: nat, depth: nat)
    requires i < |data| && depth > 0 && Pending(goal, text, data, i, depth)
    ensures var u := UnitAt(data, i, depth);
      Pending(goal, text + u.text, data, u.next, depth + u.delta)
  {
    hide UnitAt;
    var u := UnitAt(data, i, depth);
    ScanStep(data, i, depth);
    Assoc(text, u.text, Scan(data, u.next, depth + u.delta).text);
  }

  lemma PendingStart(data: bytes, i: nat)
    requires i <= |data|
    ensures Pending(Scan(data, i, 1), [], data, i, 1)
  {
    assert [] + Scan(data, i, 1).text == Scan(data, i, 1).text;
  }

  lemma PendingEnd(goal: Scanned, text: bytes, data: bytes, i: nat, depth: nat)
    requires i <= |data| && Pending(goal, text, data, i, depth) && (i == |data| || depth == 0)
    ensures goal.text == text && goal.next == i
  {
    assert text + [] == text;
  }

  // parseLiteralString. `steps` counts the iterations of both loops.
  method ParseLiteralString(data: bytes, start: nat) returns (text: bytes, next: nat, ghost steps: nat)
    requires start < |data|
    ensures var r := Scan(data, start + 1, 1); text == r.text && next == r.next
    ensures start < next <= |data|
    ensures steps <= next - start - 1
  {
    hide Pending, EscapeAt, Scan;
    var n := |data|;
    var i := start + 1;
    var depth := 1;
    text := [];
    steps := 0;
    ghost var goal := Scan(data, start + 1, 1);
    PendingStart(data, start + 1);
    while i < n && depth > 0
      invariant start + 1 <= i <= n && 0 <= depth
      invariant steps <= i - start - 1
      invariant Pending(goal, text, data, i, depth)
      decreases n - i
    {
      PendingStep(goal, text, data, i, depth);
      ghost var u := UnitAt(data, i, depth);
      ghost var was := i;
      var ch := data[i];
      steps := steps + 1;
      if ch == BACKSLASH && i + 1 < n {
        var piece, end, inner := ReadEscape(data, i);
        text := text + piece;
        i := end;
        steps := steps + inner;
      } else if ch == LPAREN {
        depth := depth + 1;
        text := text + [ch];
        i := i + 1;
      } else if ch == RPAREN {
        depth := depth - 1;
        i := i + 1;
        if depth > 0 {
          text := text + [ch];
        } else {
          assert text == text + u.text;
        }
      } else {
        text := text + [ch];
        i := i + 1;
      }
      assert i == u.next;
    }
    PendingEnd(goal, text, data, i, depth);
    next := i;
  }

  // ---------------------------------------------------------------------------------------------
  // Matching: escape-aware nesting depth, counted byte by byte with no reference to the scanner.

  // The byte at k is preceded by a backslash that is not itself escaped.
  ghost predicate Escaped(data: bytes, s: nat, k: nat)
    requires s <= k <= |data|
  {
    k > s && data[k - 1] == BACKSLASH && !Escaped(data, s, k - 1)
  }

  // Parentheses still open before index k, counting one open at s and ignoring escaped ones.
  ghost function Depth(data: bytes, s: nat, k: nat): int
    requires s <= k <= |data|
  {
    if k == s then 1
    else
      Depth(data, s, k - 1)
      + if Escaped(data, s, k - 1) then 0
        else if data[k - 1] == LPAREN then 1
        else if data[k - 1] == RPAREN then -1
        else 0
  }

  lemma {:induction false} OctalRunKeepsDepth(data: bytes, s: nat, i: nat, k: nat)
    requires s <= i < k <= |data| && i + 1 < k
    requires data[i] == BACKSLASH && !Escaped(data, s, i)
    requires forall x :: i < x < k ==> IsOctal(data[x])
    ensures Depth(data, s, k) == Depth(data, s, i) && !Escaped(data, s, k)
    ensures forall j :: i <= j < k ==> Depth(data, s, j) == Depth(data, s, i)
  {
    if k == i + 2 {
      assert Escaped(data, s, i + 1);
    } else {
      OctalRunKeepsDepth(data, s, i, k - 1);
    }
  }

  lemma UnitKeepsDepth(data: bytes, s: nat, i: nat, depth: nat)
    requires s <= i < |data| && depth > 0
    requires Depth(data, s, i) == depth && !Escaped(data, s, i)
    ensures var u := UnitAt(data, i, depth);
      && Depth(data, s, u.next) == depth + u.delta
      && (u.next == |data| || !Escaped(data, s, u.next))
      && forall j :: i <= j < u.next ==> Depth(data, s, j) == depth
  {
    var u := UnitAt(data, i, depth);
    if data[i] == BACKSLASH && i + 1 < |data| {
      assert Escaped(data, s, i + 1) && Depth(data, s, i + 1) == depth;
      assert !Escaped(data, s, i + 2) && Depth(data, s, i + 2) == depth;
      if IsOctal(data[i + 1]) {
        OctalRunKeepsDepth(data, s, i, u.next);
      }
    }
  }

  // The scanner stops at the least index where the escape-aware depth reaches zero, and at the end
  // of the data when there is none, at any nesting depth.
  lemma {:induction false} ScanStopsAtMatch(data: bytes, s: nat, i: nat, depth: nat)
    requires s <= i <= |data|
    requires Depth(data, s, i) == depth
    requires i == |data| || !Escaped(data, s, i)
    ensures var r := Scan(data, i, depth);
      && Depth(data, s, r.next) == r.depth
      && forall j :: i <= j < r.next ==> Depth(data, s, j) > 0
    decreases |data| - i
  {
    if i < |data| && depth > 0 {
      UnitKeepsDepth(data, s, i, depth);
      hide UnitAt, EscapeAt, Escaped;
      var u := UnitAt(data, i, depth);
      ScanStopsAtMatch(data, s, u.next, depth + u.delta);
    }
  }

  // `s` is the index just past the opening parenthesis.
  lemma ExactMatching(data: bytes, s: nat, m: nat)
    requires s <= m <= |data|
    ensures var r := Scan(data, s, 1);
      && (m == r.next && r.depth == 0
          <==> Depth(data, s, m) == 0 && forall j :: s <= j < m ==> Depth(data, s, j) > 0)
      && (r.depth > 0 <==> forall j :: s <= j <= |data| ==> Depth(data, s, j) > 0)
      && (r.depth > 0 ==> r.next == |data|)
  {
    ScanStopsAtMatch(data, s, s, 1);
    var r := Scan(data, s, 1);
    assert r.depth == 0 ==> Depth(data, s, r.next) == 0;
    if r.depth > 0 {
      forall j | s <= j <= |data|
        ensures Depth(data, s, j) > 0
      {
        assert j < r.next || j == r.next;
      }
    }
  }

  // ---------------------------------------------------------------------------------------------
  // Stability under appended bytes, and under bytes put in front.

  lemma OctalEndStable(a: bytes, b: bytes, j: nat, room: nat)
    requires j <= |a|
    requires OctalEnd(a, j, room) < |a|
    ensures OctalEnd(a + b, j, room) == OctalEnd(a, j, room)
    decreases room
  {
    if room > 0 && j < |a| && IsOctal(a[j]) {
      OctalEndStable(a, b, j + 1, room - 1);
    }
  }

  lemma UnitStable(a: bytes, b: bytes, i: nat, depth: nat)
    requires i < |a| && depth > 0
    requires UnitAt(a, i, depth).next < |a| || a[i] == RPAREN
    ensures UnitAt(a + b, i, depth) == UnitAt(a, i, depth)
  {
    if a[i] == BACKSLASH && i + 1 < |a| && IsOctal(a[i + 1]) {
      OctalEndStable(a, b, i + 1, 3);
      var k := OctalEnd(a, i + 1, 3);
      assert (a + b)[i + 1..k] == a[i + 1..k];
      OctalValueSame(a + b, i + 1, a, i + 1, k - i - 1);
    }
  }

  // A string that closes parses identically whatever bytes are appended.
  lemma {:induction false} PrefixStability(a: bytes, b: bytes, i: nat, depth: nat)
    requires i <= |a|
    requires Scan(a, i, depth).depth == 0
    ensures Scan(a + b, i, depth) == Scan(a, i, depth)
    decreases |a| - i
  {
    if i < |a| && depth > 0 {
      var u := UnitAt(a, i, depth);
      assert Scan(a, u.next, depth + u.delta).depth == 0;
      assert u.next < |a| || depth + u.delta == 0;
      UnitStable(a, b, i, depth);
      hide UnitAt;
      PrefixStability(a, b, u.next, depth + u.delta);
    }
  }

  lemma OctalEndShift(a: bytes, b: bytes, j: nat, room: nat)
    requires j <= |b|
    ensures OctalEnd(a + b, |a| + j, room) == |a| + OctalEnd(b, j, room)
    decreases room
  {
    if room > 0 && j < |b| && IsOctal(b[j]) {
      OctalEndShift(a, b, j + 1, room - 1);
    }
  }

  lemma EscapeShift(a: bytes, b: bytes, i: nat)
    requires i + 1 < |b|
    ensures var u := EscapeAt(b, i); EscapeAt(a + b, |a| + i) == u.(next := |a| + u.next)
  {
    if IsOctal(b[i + 1]) {
      OctalEndShift(a, b, i + 1, 3);
      var k := OctalEnd(b, i + 1, 3);
      SliceShift(a, b, i + 1, k);
      OctalValueSame(a + b, |a| + i + 1, b, i + 1, k - i - 1);
    }
  }

  lemma UnitShift(a: bytes, b: bytes, i: nat, depth: nat)
    requires i < |b| && depth > 0
    ensures var u := UnitAt(b, i, depth); UnitAt(a + b, |a| + i, depth) == u.(next := |a| + u.next)
  {
    hide EscapeAt;
    if i + 1 < |b| {
      EscapeShift(a, b, i);
    }
  }

  lemma {:induction false} ScanShift(a: bytes, b: bytes, i: nat, depth: nat)
    requires i <= |b|
    ensures var r := Scan(b, i, depth); Scan(a + b, |a| + i, depth) == r.(next := |a| + r.next)
    decreases |b| - i
  {
    hide UnitAt;
    if i < |b| && depth > 0 {
      UnitShift(a, b, i, depth);
      var u := UnitAt(b, i, depth);
      ScanShift(a, b, u.next, depth + u.delta);
    }
  }

  // ---------------------------------------------------------------------------------------------
  // Spellings: every admissible way to write a byte string between parentheses.

  datatype Piece =
    | Raw(b: byte)             // the byte itself
    | Quoted(b: byte)          // a backslash and the byte itself
    | Named(letter: byte)      // \n \r \t \b \f
    | Octal(digits: bytes)     // a backslash and one to three octal digits
    | Continued(eol: bytes)    // a backslash and an end-of-line marker: stands for nothing
    | Open                     // an unescaped parenthesis, balanced by a later Close
    | Close

  predicate ValidPiece(p: Piece) {
    match p
    case Raw(b) => b != LPAREN && b != RPAREN && b != BACKSLASH
    case Quoted(b) => NamedEscape(b) == None && !IsNewline(b) && !IsOctal(b)
    case Named(letter) => NamedEscape(letter).Some?
    case Octal(ds) => 1 <= |ds| <= 3 && forall x :: 0 <= x < |ds| ==> IsOctal(ds[x])
    case Continued(eol) => eol == [LF] || eol == [CR] || eol == [CR, LF]
    case Open => true
    case Close => true
  }

  function PieceText(p: Piece): (t: bytes)
    ensures |t| > 0
  {
    match p
    case Raw(b) => [b]
    case Quoted(b) => [BACKSLASH, b]
    case Named(letter) => [BACKSLASH, letter]
    case Octal(ds) => [BACKSLASH] + ds
    case Continued(eol) => [BACKSLASH] + eol
    case Open => [LPAREN]
    case Close => [RPAREN]
  }

  // What a piece stands for; only meant for valid pieces.
  function PieceMeaning(p: Piece): bytes {
    match p
    case Raw(b) => [b]
    case Quoted(b) => [b]
    case Named(letter) => if NamedEscape(letter).Some? then [NamedEscape(letter).value] else []
    case Octal(ds) => [(OctalValue(ds, 0, |ds|) % 256) as byte]
    case Continued(_) => []
    case Open => [LPAREN]
    case Close => [RPAREN]
  }

  function PieceDelta(p: Piece): int {
    if p.Open? then 1 else if p.Close? then -1 else 0
  }

  // The byte printed after `p` may be `b`: a short octal code is not followed by another digit, nor
  // a continued CR by a raw LF.
  predicate MayPrecede(p: Piece, b: byte) {
    && (p.Octal? && |p.digits| < 3 ==> !IsOctal(b))
    && (p == Continued([CR]) ==> b != LF)
  }

  function FirstByte(ps: seq<Piece>): byte {
    if ps == [] then RPAREN else PieceText(ps[0])[0]
  }

  predicate WellFormed(ps: seq<Piece>, depth: nat) {
    if ps == [] then depth == 1
    else
      && ValidPiece(ps[0])
      && MayPrecede(ps[0], FirstByte(ps[1..]))
      && (ps[0].Close? ==> depth > 1)
      && depth + PieceDelta(ps[0]) >= 0
      && WellFormed(ps[1..], depth + PieceDelta(ps[0]))
  }

  function Print(ps: seq<Piece>): bytes {
    if ps == [] then [] else PieceText(ps[0]) + Print(ps[1..])
  }

  function Meaning(ps: seq<Piece>): bytes {
    if ps == [] then [] else PieceMeaning(ps[0]) + Meaning(ps[1..])
  }

  lemma {:induction false} OctalEndAt(data: bytes, j: nat, k: nat, room: nat)
    requires j <= k <= |data| && k <= j + room
    requires forall x :: j <= x < k ==> IsOctal(data[x])
    requires k < j + room ==> k < |data| && !IsOctal(data[k])
    ensures OctalEnd(data, j, room) == k
    decreases room
  {
    if j < k {
      OctalEndAt(data, j + 1, k, room - 1);
    }
  }

  lemma OctalReadsPiece(ds: bytes, rest: bytes)
    requires ValidPiece(Octal(ds)) && rest != [] && MayPrecede(Octal(ds), rest[0])
    ensures EscapeAt([BACKSLASH] + ds + rest, 0) == Unit(1 + |ds|, 0, PieceMeaning(Octal(ds)))
  {
    var t := [BACKSLASH] + ds + rest;
    assert t[1..1 + |ds|] == ds == ds[0..|ds|];
    OctalValueSame(t, 1, ds, 0, |ds|);
    assert forall x :: 1 <= x < 1 + |ds| ==> t[x] == ds[x - 1];
    assert t[1 + |ds|] == rest[0];
    hide OctalValue;
    OctalEndAt(t, 1, 1 + |ds|, 3);
    assert IsOctal(ds[0]) && t[1] == ds[0];
  }

  lemma UnitReadsPiece(p: Piece, rest: bytes, depth: nat)
    requires ValidPiece(p) && rest != [] && MayPrecede(p, rest[0]) && depth > 0
    requires p.Close? ==> depth > 1
    ensures UnitAt(PieceText(p) + rest, 0, depth) == Unit(|PieceText(p)|, PieceDelta(p), PieceMeaning(p))
  {
    if p.Octal? {
      OctalReadsPiece(p.digits, rest);
      hide EscapeAt;
    }
  }

  lemma FirstPrinted(ps: seq<Piece>)
    ensures (Print(ps) + [RPAREN])[0] == FirstByte(ps)
  {
  }

  lemma ScanCons(t: bytes, rest: bytes, depth: nat, u: Unit)
    requires t != [] && depth > 0 && UnitAt(t + rest, 0, depth) == u && u.next == |t|
    ensures depth + u.delta >= 0
    ensures var r := Scan(rest, 0, depth + u.delta);
      Scan(t + rest, 0, depth) == Scanned(u.text + r.text, |t| + r.next, r.depth)
  {
    hide UnitAt;
    ScanShift(t, rest, 0, depth + u.delta);
    ScanStep(t + rest, 0, depth);
  }

  lemma ScanReadsEnd(depth: nat)
    requires WellFormed([], depth) && depth > 0
    ensures Scan(Print([]) + [RPAREN], 0, depth) == Scanned(Meaning([]), |Print([])| + 1, 0)
  {
    ScanStep([RPAREN], 0, 1);
    assert [] + [RPAREN] == [RPAREN];
  }

  lemma ScanReadsFirst(ps: seq<Piece>, depth: nat)
    requires ps != [] && WellFormed(ps, depth) && depth > 0
    ensures depth + PieceDelta(ps[0]) > 0 && WellFormed(ps[1..], depth + PieceDelta(ps[0]))
    ensures Print(ps) == PieceText(ps[0]) + Print(ps[1..]) && Meaning(ps) == PieceMeaning(ps[0]) + Meaning(ps[1..])
    ensures UnitAt(PieceText(ps[0]) + (Print(ps[1..]) + [RPAREN]), 0, depth)
            == Unit(|PieceText(ps[0])|, PieceDelta(ps[0]), PieceMeaning(ps[0]))
  {
    FirstPrinted(ps[1..]);
    UnitReadsPiece(ps[0], Print(ps[1..]) + [RPAREN], depth);
    hide UnitAt, PieceMeaning, PieceText;
  }

  lemma {:induction false} ScanReadsPieces(ps: seq<Piece>, depth: nat)
    requires WellFormed(ps, depth) && depth > 0
    ensures Scan(Print(ps) + [RPAREN], 0, depth) == Scanned(Meaning(ps), |Print(ps)| + 1, 0)
    decreases |ps|
  {
    hide *;
    if ps == [] {
      ScanReadsEnd(depth);
    } else {
      var p, t, rest := ps[0], PieceText(ps[0]), Print(ps[1..]) + [RPAREN];
      ScanReadsFirst(ps, depth);
      ScanReadsPieces(ps[1..], depth + PieceDelta(p));
      ScanCons(t, rest, depth, Unit(|t|, PieceDelta(p), PieceMeaning(p)));
      Assoc(t, Print(ps[1..]), [RPAREN]);
    }
  }

  // Round trip: any admissible spelling, whatever stands before and after it, parses back to what
  // it stands for, and the scanner stops just past its closing parenthesis.
  lemma RoundTrip(before: bytes, ps: seq<Piece>, after: bytes)
    requires WellFormed(ps, 1)
    ensures Scan(before + [LPAREN] + (Print(ps) + [RPAREN] + after), |before| + 1, 1)
            == Scanned(Meaning(ps), |before| + |Print(ps)| + 2, 0)
  {
    hide UnitAt;
    ScanReadsPieces(ps, 1);
    PrefixStability(Print(ps) + [RPAREN], after, 0, 1);
    ScanShift(before + [LPAREN], Print(ps) + [RPAREN] + after, 0, 1);
  }

  // The piece that one scanner step reads.
  function PieceAt(data: bytes, i: nat): (p: Piece)
    requires i < |data|
  {
    var ch := data[i];
    if ch == BACKSLASH && i + 1 < |data| then
      var esc := data[i + 1];
      if NamedEscape(esc).Some? then Named(esc)
      else if esc == CR then
        Continued(if i + 2 < |data| && data[i + 2] == LF then [CR, LF] else [CR])
      else if esc == LF then Continued([LF])
      else if IsOctal(esc) then Octal(data[i + 1..OctalEnd(data, i + 1, 3)])
      else Quoted(esc)
    else if ch == LPAREN then Open
    else if ch == RPAREN then Close
    else Raw(ch)
  }

  function Pieces(data: bytes, i: nat, depth: nat): (ps: seq<Piece>)
    requires i <= |data|
    decreases |data| - i
  {
    if i == |data| || depth == 0 then []
    else
      var u := UnitAt(data, i, depth);
      if depth + u.delta == 0 then []
      else [PieceAt(data, i)] + Pieces(data, u.next, depth + u.delta)
  }

  lemma OctalParts(data: bytes, i: nat)
    requires i + 1 < |data| && IsOctal(data[i + 1]) && data[i] == BACKSLASH
    ensures var k := OctalEnd(data, i + 1, 3);
      && i + 1 < k && PieceAt(data, i) == Octal(data[i + 1..k])
      && EscapeAt(data, i) == Unit(k, 0, [(OctalValue(data, i + 1, k) % 256) as byte])
  {
    hide OctalValue;
    assert NamedEscape(data[i + 1]) == None;
  }

  lemma OctalText(data: bytes, i: nat, k: nat)
    requires i + 1 < k <= |data| && data[i] == BACKSLASH
    ensures [BACKSLASH] + data[i + 1..k] == data[i..k]
    ensures OctalValue(data[i + 1..k], 0, k - i - 1) == OctalValue(data, i + 1, k)
  {
    hide OctalValue;
    assert data[i + 1..k][0..k - i - 1] == data[i + 1..k];
    OctalValueSame(data[i + 1..k], 0, data, i + 1, k - i - 1);
  }

  lemma OctalPieceIsUnit(data: bytes, i: nat)
    requires i + 1 < |data| && IsOctal(data[i + 1]) && data[i] == BACKSLASH
    requires EscapeAt(data, i).next < |data|
    ensures var u, p := EscapeAt(data, i), PieceAt(data, i);
      ValidPiece(p) && PieceText(p) == data[i..u.next] && PieceMeaning(p) == u.text && MayPrecede(p, data[u.next])
  {
    hide EscapeAt, PieceAt, OctalEnd, OctalValue, IsOctal;
    OctalParts(data, i);
    OctalText(data, i, OctalEnd(data, i + 1, 3));
  }

  lemma EscapePieceIsUnit(data: bytes, i: nat)
    requires i + 1 < |data| && data[i] == BACKSLASH && EscapeAt(data, i).next < |data|
    ensures var u, p := EscapeAt(data, i), PieceAt(data, i);
      && ValidPiece(p) && PieceText(p) == data[i..u.next]
      && PieceMeaning(p) == u.text && PieceDelta(p) == u.delta && MayPrecede(p, data[u.next])
  {
    if IsOctal(data[i + 1]) {
      OctalPieceIsUnit(data, i);
      assert PieceAt(data, i).Octal?;
      hide EscapeAt, PieceAt, OctalEnd, OctalValue, ValidPiece, PieceText, PieceMeaning, MayPrecede;
    } else {
      var u := EscapeAt(data, i);
      hide OctalEnd, OctalValue;
      assert data[i..i + 2] == [data[i], data[i + 1]];
      assert u.next == i + 3 ==> data[i..i + 3] == [data[i], data[i + 1], data[i + 2]];
    }
  }

  lemma PieceIsUnit(data: bytes, i: nat, depth: nat)
    requires i < |data| && depth > 0
    requires UnitAt(data, i, depth).next < |data|
    requires data[i] == RPAREN ==> depth > 1
    ensures var u, p := UnitAt(data, i, depth), PieceAt(data, i);
      && ValidPiece(p)
      && PieceText(p) == data[i..u.next]
      && PieceMeaning(p) == u.text && PieceDelta(p) == u.delta
      && MayPrecede(p, data[u.next])
  {
    if data[i] == BACKSLASH && i + 1 < |data| {
      EscapePieceIsUnit(data, i);
      hide EscapeAt, PieceAt, ValidPiece, PieceText, PieceMeaning, MayPrecede;
    } else {
      assert data[i..i + 1] == [data[i]];
    }
  }

  lemma ConsSpelling(data: bytes, i: nat, mid: nat, end: nat, p: Piece, rest: seq<Piece>, depth: nat)
    requires i <= mid < end <= |data|
    requires PieceText(p) == data[i..mid] && Print(rest) + [RPAREN] == data[mid..end]
    requires ValidPiece(p) && MayPrecede(p, data[mid]) && (p.Close? ==> depth > 1)
    requires depth + PieceDelta(p) >= 0 && WellFormed(rest, depth + PieceDelta(p))
    ensures var ps := [p] + rest;
      && WellFormed(ps, depth)
      && data[i..end] == Print(ps) + [RPAREN]
      && Meaning(ps) == PieceMeaning(p) + Meaning(rest)
  {
    hide ValidPiece, MayPrecede, PieceMeaning;
    var ps := [p] + rest;
    assert ps[0] == p && ps[1..] == rest;
    assert data[mid] == (Print(rest) + [RPAREN])[0];
    FirstPrinted(rest);
    Slices(data, i, mid, end);
    Assoc(PieceText(p), Print(rest), [RPAREN]);
  }

  // The pieces from i on spell what the scanner yields from there.
  predicate SpelledAt(data: bytes, i: nat, depth: nat)
    requires i <= |data|
  {
    var r, ps := Scan(data, i, depth), Pieces(data, i, depth);
    && WellFormed(ps, depth)
    && data[i..r.next] == Print(ps) + [RPAREN]
    && Meaning(ps) == r.text
  }

  lemma SpelledOneEarlier(data: bytes, i: nat, depth: nat, mid: nat, end: nat, p: Piece, rest: seq<Piece>, later: nat)
    requires i < mid < end <= |data| && depth > 0 && later == depth + PieceDelta(p)
    requires p == PieceAt(data, i) && PieceText(p) == data[i..mid] && ValidPiece(p) && MayPrecede(p, data[mid])
    requires p.Close? ==> depth > 1
    requires rest == Pieces(data, mid, later) && end == Scan(data, mid, later).next && SpelledAt(data, mid, later)
    requires Pieces(data, i, depth) == [p] + rest
    requires Scan(data, i, depth).text == PieceMeaning(p) + Scan(data, mid, later).text
    requires Scan(data, i, depth).next == end
    ensures SpelledAt(data, i, depth)
  {
    hide ValidPiece, MayPrecede, PieceMeaning, PieceText, PieceAt, Pieces, Scan, WellFormed, Print, Meaning;
    ConsSpelling(data, i, mid, end, p, rest, depth);
  }

  lemma {:induction false} ClosedIsSpelled(data: bytes, i: nat, depth: nat)
    requires i <= |data| && depth > 0 && Scan(data, i, depth).depth == 0
    ensures SpelledAt(data, i, depth)
    decreases |data| - i
  {
    ScanGoesOn(data, i, depth);
    hide *;
    var u := UnitAt(data, i, depth);
    ScanStep(data, i, depth);
    if depth + u.delta == 0 {
      LastUnitIsASpelling(data, i, depth);
    } else {
      FirstPiece(data, i, depth);
      PieceIsUnit(data, i, depth);
      var mid, later := u.next, depth + u.delta;
      ClosedIsSpelled(data, mid, later);
      CloseIsRparen(data, i);
      SpelledOneEarlier(data, i, depth, mid, Scan(data, mid, later).next, PieceAt(data, i), Pieces(data, mid, later),
        later);
    }
  }

  lemma CloseIsRparen(data: bytes, i: nat)
    requires i < |data|
    ensures PieceAt(data, i).Close? ==> data[i] == RPAREN
  {
    hide OctalEnd, NamedEscape;
  }

  // Conversely, every string that closes is an admissible spelling of the bytes it yields, so
  // the spellings above are all there are.
  lemma {:induction false} EveryClosedStringIsASpelling(data: bytes, i: nat, depth: nat)
    requires i <= |data| && depth > 0
    requires Scan(data, i, depth).depth == 0
    ensures var r, ps := Scan(data, i, depth), Pieces(data, i, depth);
      && WellFormed(ps, depth)
      && data[i..r.next] == Print(ps) + [RPAREN]
      && Meaning(ps) == r.text
  {
    hide Scan, Pieces, WellFormed, Print, Meaning;
    ClosedIsSpelled(data, i, depth);
  }

  lemma ScanGoesOn(data: bytes, i: nat, depth: nat)
    requires i <= |data| && depth > 0 && Scan(data, i, depth).depth == 0
    ensures i < |data|
  {
  }

  lemma LastUnitIsASpelling(data: bytes, i: nat, depth: nat)
    requires i < |data| && depth > 0 && depth + UnitAt(data, i, depth).delta == 0
    ensures SpelledAt(data, i, depth)
  {
    ClosingUnit(data, i, depth);
    assert Pieces(data, i, depth) == [];
    hide Scan, UnitAt, Pieces;
    assert [] + [RPAREN] == [RPAREN];
  }

  lemma FirstPiece(data: bytes, i: nat, depth: nat)
    requires i < |data| && depth > 0 && depth + UnitAt(data, i, depth).delta > 0
    requires Scan(data, i, depth).depth == 0
    ensures var u := UnitAt(data, i, depth);
      && Pieces(data, i, depth) == [PieceAt(data, i)] + Pieces(data, u.next, depth + u.delta)
      && u.next < |data| && Scan(data, u.next, depth + u.delta).next > u.next
      && (data[i] == RPAREN ==> depth > 1)
  {
    hide EscapeAt;
    ScanStep(data, i, depth);
  }

  lemma ClosingUnit(data: bytes, i: nat, depth: nat)
    requires i < |data| && depth > 0
    requires depth + UnitAt(data, i, depth).delta == 0
    ensures Scan(data, i, depth) == Scanned([], i + 1, 0)
    ensures depth == 1 && data[i..i + 1] == [RPAREN]
  {
    ScanStep(data, i, depth);
  }

  // Every byte string has a spelling: three octal digits a byte.
  function OctalDigits(b: byte): (ds: bytes)
    ensures |ds| == 3 && forall x :: 0 <= x < 3 ==> IsOctal(ds[x])
  {
    [ZERO + b / 64, ZERO + b / 8 % 8, ZERO + b % 8]
  }

  function OctalSpelling(text: bytes): seq<Piece> {
    if text == [] then [] else [Octal(OctalDigits(text[0]))] + OctalSpelling(text[1..])
  }

  lemma OctalDigitsValue(b: byte)
    ensures OctalValue(OctalDigits(b), 0, 3) == b as int
  {
    var ds := OctalDigits(b);
    assert OctalValue(ds, 0, 1) == b as int / 64;
    assert OctalValue(ds, 0, 2) == b as int / 64 * 8 + b as int / 8 % 8;
  }

  lemma {:induction false} EveryStringHasASpelling(text: bytes)
    ensures WellFormed(OctalSpelling(text), 1)
    ensures Meaning(OctalSpelling(text)) == text
  {
    if text != [] {
      EveryStringHasASpelling(text[1..]);
      OctalDigitsValue(text[0]);
      var ps := OctalSpelling(text);
      assert ps[1..] == OctalSpelling(text[1..]);
    }
  }
}
