// End-of-line markers inside literal strings: section 7.3.4.2 of ISO 32000-1 reads each unescaped
// one as a line feed, the scanner keeps its bytes.
module LineEndings {
  import opened Bytes
  import opened LiteralString

  // What the pieces stand for in the standard: a raw CR, with a raw LF directly after it or not, is LF.
  function IsoMeaning(ps: seq<Piece>): bytes
    decreases |ps|
  {
    if ps == [] then []
    else if ps[0] == Raw(CR) then [LF] + IsoMeaning(if |ps| > 1 && ps[1] == Raw(LF) then ps[2..] else ps[1..])
    else PieceMeaning(ps[0]) + IsoMeaning(ps[1..])
  }

  lemma SamePrefix(x: bytes, y: bytes, z: bytes)
    ensures x + y == x + z <==> y == z
  {
    if x + y == x + z {
      assert y == (x + y)[|x|..] == (x + z)[|x|..] == z;
    }
  }

  // A spelling means to the scanner what it means in the standard if and only if it has no raw CR.
  lemma {:induction false} MeansTheSameExactlyWhen(ps: seq<Piece>)
    ensures Meaning(ps) == IsoMeaning(ps) <==> Raw(CR) !in ps
    decreases |ps|
  {
    if ps != [] {
      if ps[0] == Raw(CR) {
        assert Meaning(ps)[0] == CR && IsoMeaning(ps)[0] == LF;
      } else {
        MeansTheSameExactlyWhen(ps[1..]);
        SamePrefix(PieceMeaning(ps[0]), Meaning(ps[1..]), IsoMeaning(ps[1..]));
        assert ps == [ps[0]] + ps[1..];
        hide PieceMeaning;
      }
    }
  }

  // An unescaped CR stands in data[s..e]; the string began at s.
  ghost predicate HasRawCR(data: bytes, s: nat, i: nat, e: nat)
    requires s <= i <= e <= |data|
  {
    exists k :: i <= k < e && data[k] == CR && !Escaped(data, s, k)
  }

  // Only its own unit's first byte can be a raw CR.
  lemma UnitRawCR(data: bytes, s: nat, i: nat, depth: nat)
    requires s <= i < |data| && depth > 0 && !Escaped(data, s, i)
    ensures HasRawCR(data, s, i, UnitAt(data, i, depth).next) <==> data[i] == CR
    ensures data[i] == CR <==> PieceAt(data, i) == Raw(CR)
  {
    var u := UnitAt(data, i, depth);
    if data[i] == BACKSLASH && i + 1 < |data| {
      assert Escaped(data, s, i + 1);
    }
  }

  lemma LastUnitHasNoCR(data: bytes, s: nat, i: nat)
    requires s <= i < |data| && !Escaped(data, s, i) && 1 + UnitAt(data, i, 1).delta == 0
    ensures Pieces(data, i, 1) == [] && Scan(data, i, 1).next == i + 1 && !HasRawCR(data, s, i, i + 1)
  {
    ClosingUnit(data, i, 1);
    assert data[i..i + 1][0] == data[i];
    hide Escaped;
  }

  lemma {:induction false} RawCRIsAPiece(data: bytes, s: nat, i: nat, depth: nat)
    requires s <= i <= |data| && depth > 0 && Depth(data, s, i) == depth
    requires i < |data| ==> !Escaped(data, s, i)
    requires Scan(data, i, depth).depth == 0
    ensures Raw(CR) in Pieces(data, i, depth) <==> HasRawCR(data, s, i, Scan(data, i, depth).next)
    decreases |data| - i
  {
    var u := UnitAt(data, i, depth);
    ScanStep(data, i, depth);
    if depth + u.delta == 0 {
      ClosingUnit(data, i, depth);
      LastUnitHasNoCR(data, s, i);
    } else {
      var rest := Pieces(data, u.next, depth + u.delta);
      assert Pieces(data, i, depth) == [PieceAt(data, i)] + rest;
      hide EscapeAt, UnitAt, PieceAt, Escaped, Scan, Pieces, Depth;
      UnitKeepsDepth(data, s, i, depth);
      UnitRawCR(data, s, i, depth);
      RawCRIsAPiece(data, s, u.next, depth + u.delta);
    }
  }

  // For every string that closes: the scanner gives what the standard asks for if and only if no
  // unescaped CR stands in it. `s` is the index just past the opening parenthesis.
  lemma ScanMeetsIsoExactlyWhen(data: bytes, s: nat)
    requires s <= |data| && Scan(data, s, 1).depth == 0
    ensures Scan(data, s, 1).text == IsoMeaning(Pieces(data, s, 1))
            <==> !HasRawCR(data, s, s, Scan(data, s, 1).next)
  {
    EveryClosedStringIsASpelling(data, s, 1);
    MeansTheSameExactlyWhen(Pieces(data, s, 1));
    RawCRIsAPiece(data, s, s, 1);
  }

  lemma Spelled(p: Piece, rest: seq<Piece>)
    ensures var ps := [p] + rest;
      && Print(ps) == PieceText(p) + Print(rest)
      && Meaning(ps) == PieceMeaning(p) + Meaning(rest)
      && (p != Raw(CR) ==> IsoMeaning(ps) == PieceMeaning(p) + IsoMeaning(rest))
      && (p == Raw(CR) && (rest == [] || rest[0] != Raw(LF)) ==> IsoMeaning(ps) == [LF] + IsoMeaning(rest))
      && (p == Raw(CR) && rest != [] && rest[0] == Raw(LF) ==> IsoMeaning(ps) == [LF] + IsoMeaning(rest[1..]))
    ensures p.Raw? && ValidPiece(p) && WellFormed(rest, 1) ==> WellFormed([p] + rest, 1)
  {
    var ps := [p] + rest;
    assert ps[1..] == rest;
    assert rest != [] ==> ps[2..] == rest[1..];
  }

  // A CR between two bytes stays; the standard has LF.
  lemma RawCRIsKept(before: bytes, a: byte, b: byte, after: bytes)
    requires ValidPiece(Raw(a)) && ValidPiece(Raw(b)) && !IsNewline(a) && !IsNewline(b)
    ensures var ps := [Raw(a)] + ([Raw(CR)] + ([Raw(b)] + []));
      && Print(ps) == [a, CR, b] && IsoMeaning(ps) == [a, LF, b]
      && Scan(before + [LPAREN] + (Print(ps) + [RPAREN] + after), |before| + 1, 1).text == [a, CR, b]
  {
    var last := [Raw(b)] + [];
    var ps := [Raw(a)] + ([Raw(CR)] + last);
    assert ValidPiece(Raw(CR)) && WellFormed([], 1) && Print([]) == Meaning([]) == IsoMeaning([]) == [];
    hide *;
    Spelled(Raw(b), []);
    Spelled(Raw(CR), last);
    Spelled(Raw(a), [Raw(CR)] + last);
    RoundTrip(before, ps, after);
    RawPiece(a);
    RawPiece(b);
    RawPiece(CR);
  }

  // So does a CR LF; the standard has a single LF.
  lemma RawCRLFIsKept(before: bytes, a: byte, b: byte, after: bytes)
    requires ValidPiece(Raw(a)) && ValidPiece(Raw(b)) && !IsNewline(a) && !IsNewline(b)
    ensures var ps := [Raw(a)] + ([Raw(CR)] + ([Raw(LF)] + ([Raw(b)] + [])));
      && Print(ps) == [a, CR, LF, b] && IsoMeaning(ps) == [a, LF, b]
      && Scan(before + [LPAREN] + (Print(ps) + [RPAREN] + after), |before| + 1, 1).text == [a, CR, LF, b]
  {
    var last := [Raw(b)] + [];
    var tail := [Raw(LF)] + last;
    var ps := [Raw(a)] + ([Raw(CR)] + tail);
    assert ValidPiece(Raw(CR)) && ValidPiece(Raw(LF)) && WellFormed([], 1);
    assert Print([]) == Meaning([]) == IsoMeaning([]) == [];
    hide *;
    RawPiece(a);
    RawPiece(b);
    RawPiece(CR);
    RawPiece(LF);
    Spelled(Raw(b), []);
    assert Print(last) == Meaning(last) == IsoMeaning(last) == [b];
    Spelled(Raw(LF), last);
    assert Print(tail) == Meaning(tail) == [LF, b] && tail[1..] == last;
    Spelled(Raw(CR), tail);
    assert Print([Raw(CR)] + tail) == Meaning([Raw(CR)] + tail) == [CR, LF, b];
    assert IsoMeaning([Raw(CR)] + tail) == [LF, b];
    Spelled(Raw(a), [Raw(CR)] + tail);
    RoundTrip(before, ps, after);
  }

  lemma RawPiece(b: byte)
    ensures PieceText(Raw(b)) == [b] && PieceMeaning(Raw(b)) == [b]
  {
  }
}
