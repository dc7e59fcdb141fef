// How the Go encoder writes text as a JSON string (section 7 of RFC 8259), and a reader that
// inverts the escaping.
module JsonText {
  import opened Bytes
  import HexString
  import Utf8

  const QUOTE: byte := '"' as byte
  const LETTER_U: byte := 'u' as byte

  predicate Continues(s: bytes, i: nat, lo: byte, hi: byte) {
    i < |s| && lo <= s[i] <= hi
  }

  // The length of the well-formed multi-byte UTF-8 sequence at i, or 0 when there is none
  // (table 3-7 of the Unicode Standard, which utf8.DecodeRune follows).
  function RuneWidth(s: bytes, i: nat): (w: nat)
    requires i < |s|
    ensures w <= 4 && i + w <= |s| && w != 1
    ensures forall k :: i <= k < i + w ==> s[k] >= 0x80
  {
    var b := s[i];
    if 0xC2 <= b <= 0xDF && Continues(s, i + 1, 0x80, 0xBF) then 2
    else if 0xE0 <= b <= 0xEF
      && Continues(s, i + 1, if b == 0xE0 then 0xA0 else 0x80, if b == 0xED then 0x9F else 0xBF)
      && Continues(s, i + 2, 0x80, 0xBF) then 3
    else if 0xF0 <= b <= 0xF4
      && Continues(s, i + 1, if b == 0xF0 then 0x90 else 0x80, if b == 0xF4 then 0x8F else 0xBF)
      && Continues(s, i + 2, 0x80, 0xBF) && Continues(s, i + 3, 0x80, 0xBF) then 4
    else 0
  }

  // How many bytes the encoder takes from i on: one character, or one byte of malformed text.
  function UnitWidth(s: bytes, i: nat): (w: nat)
    requires i < |s|
    ensures 1 <= w && i + w <= |s|
  {
    if s[i] < 0x80 || RuneWidth(s, i) == 0 then 1 else RuneWidth(s, i)
  }

  predicate Malformed(s: bytes, i: nat)
    requires i < |s|
  {
    s[i] >= 0x80 && RuneWidth(s, i) == 0
  }

  // U+2028 and U+2029, which the encoder escapes.
  predicate IsSeparator(s: bytes, i: nat) {
    i + 2 < |s| && s[i] == 0xE2 && s[i + 1] == 0x80 && (s[i + 2] == 0xA8 || s[i + 2] == 0xA9)
  }

  function UnicodeEscape(h3: char, h2: char, h1: byte, h0: byte): bytes
    requires h3 < 128 as char && h2 < 128 as char
  {
    [BACKSLASH, LETTER_U, h3 as byte, h2 as byte, h1, h0]
  }

  function EscapeAscii(b: byte): (p: bytes)
    requires b < 0x80
  {
    if b == QUOTE || b == BACKSLASH then [BACKSLASH, b]
    else if b == BACKSPACE then [BACKSLASH, 'b' as byte]
    else if b == FF then [BACKSLASH, 'f' as byte]
    else if b == LF then [BACKSLASH, 'n' as byte]
    else if b == CR then [BACKSLASH, 'r' as byte]
    else if b == TAB then [BACKSLASH, 't' as byte]
    else if b < SPACE || b == LT || b == GT || b == '&' as byte then
      UnicodeEscape('0', '0', HexString.DigitOf(b / 16), HexString.DigitOf(b % 16))
    else [b]
  }

  // What the encoder writes for the character or malformed byte at i.
  function Piece(s: bytes, i: nat): bytes
    requires i < |s|
  {
    if s[i] < 0x80 then EscapeAscii(s[i])
    else if Malformed(s, i) then UnicodeEscape('f', 'f', 'f' as byte, 'd' as byte)
    else if IsSeparator(s, i) then
      UnicodeEscape('2', '0', '2' as byte, if s[i + 2] == 0xA8 then '8' as byte else '9' as byte)
    else s[i..i + RuneWidth(s, i)]
  }

  // The body of the JSON string for the text from i on.
  function Escaped(s: bytes, i: nat): bytes
    requires i <= |s|
    decreases |s| - i
  {
    if i == |s| then [] else Piece(s, i) + Escaped(s, i + UnitWidth(s, i))
  }

  // What an encoded text still shows: its bytes, except that malformed ones all look alike.
  datatype Mark = Byte(b: byte) | Replaced

  function Marks(s: bytes): (m: seq<Mark>)
    ensures |m| == |s|
    ensures forall k :: 0 <= k < |s| ==> m[k] == Byte(s[k])
  {
    seq(|s|, k requires 0 <= k < |s| => Byte(s[k]))
  }

  function UnitMarks(s: bytes, i: nat): (m: seq<Mark>)
    requires i < |s|
    ensures |m| == UnitWidth(s, i)
  {
    if Malformed(s, i) then [Replaced] else Marks(s[i..i + UnitWidth(s, i)])
  }

  function Seen(s: bytes, i: nat): (m: seq<Mark>)
    requires i <= |s|
    ensures |m| == |s| - i
    decreases |s| - i
  {
    if i == |s| then [] else UnitMarks(s, i) + Seen(s, i + UnitWidth(s, i))
  }

  function Normal(s: bytes): (m: seq<Mark>)
    ensures |m| == |s|
  {
    Seen(s, 0)
  }

  // utf8.Valid.
  predicate ValidFrom(s: bytes, i: nat)
    requires i <= |s|
    decreases |s| - i
  {
    i == |s| || (!Malformed(s, i) && ValidFrom(s, i + UnitWidth(s, i)))
  }

  predicate ValidUtf8(s: bytes) {
    ValidFrom(s, 0)
  }

  // ---------------------------------------------------------------------------------------------
  // Reading a JSON string.

  datatype Read = Read(marks: seq<Mark>, next: nat)

  // The bytes of a code point below U+10000; the escape of U+FFFD stands for a malformed byte.
  function CodeMarks(code: nat): seq<Mark>
    requires code < 0x10000
  {
    if code == 0xFFFD then [Replaced]
    else if code < 0x80 then [Byte(code as byte)]
    else if code < 0x800 then [Byte((0xC0 + code / 64) as byte), Byte((0x80 + code % 64) as byte)]
    else [Byte((0xE0 + code / 4096) as byte), Byte((0x80 + code / 64 % 64) as byte), Byte((0x80 + code % 64) as byte)]
  }

  function HexCode(doc: bytes, j: nat): (code: nat)
    requires j + 4 <= |doc|
    ensures code < 0x10000
  {
    HexString.HexValue(doc[j]) as nat * 4096 + HexString.HexValue(doc[j + 1]) as nat * 256
    + HexString.HexValue(doc[j + 2]) as nat * 16 + HexString.HexValue(doc[j + 3]) as nat
  }

  predicate FourDigits(doc: bytes, j: nat) {
    && j + 4 <= |doc|
    && HexString.IsHexDigit(doc[j]) && HexString.IsHexDigit(doc[j + 1])
    && HexString.IsHexDigit(doc[j + 2]) && HexString.IsHexDigit(doc[j + 3])
  }

  // Halves of surrogate pairs are refused: the encoder writes none.
  function ReadUnit(doc: bytes, j: nat): (r: Option<Read>)
    requires j < |doc|
    ensures r.Some? ==> j < r.value.next <= |doc|
  {
    if doc[j] < SPACE || doc[j] == QUOTE then None
    else if doc[j] != BACKSLASH then Some(Read([Byte(doc[j])], j + 1))
    else if j + 1 == |doc| then None
    else
      var c := doc[j + 1];
      if c == QUOTE || c == BACKSLASH || c == SLASH then Some(Read([Byte(c)], j + 2))
      else if c == 'b' as byte then Some(Read([Byte(BACKSPACE)], j + 2))
      else if c == 'f' as byte then Some(Read([Byte(FF)], j + 2))
      else if c == 'n' as byte then Some(Read([Byte(LF)], j + 2))
      else if c == 'r' as byte then Some(Read([Byte(CR)], j + 2))
      else if c == 't' as byte then Some(Read([Byte(TAB)], j + 2))
      else if c == LETTER_U && FourDigits(doc, j + 2) && !(0xD800 <= HexCode(doc, j + 2) < 0xE000) then
        Some(Read(CodeMarks(HexCode(doc, j + 2)), j + 6))
      else None
  }

  // The string whose opening quote stands just before j.
  function Unescape(doc: bytes, j: nat): (r: Option<Read>)
    ensures r.Some? ==> r.value.next <= |doc|
    decreases |doc| - j
  {
    if j >= |doc| then None
    else if doc[j] == QUOTE then Some(Read([], j + 1))
    else
      var u := ReadUnit(doc, j);
      if u.None? then None else Prepend(u.value.marks, Unescape(doc, u.value.next))
  }

  function Prepend(m: seq<Mark>, r: Option<Read>): Option<Read> {
    if r.None? then None else Some(r.value.(marks := m + r.value.marks))
  }

  // `p` stands in `doc` at j.
  predicate At(doc: bytes, j: nat, p: bytes) {
    j + |p| <= |doc| && forall k :: 0 <= k < |p| ==> doc[j + k] == p[k]
  }

  lemma AtSplit(doc: bytes, j: nat, p: bytes, q: bytes)
    requires At(doc, j, p + q)
    ensures At(doc, j, p) && At(doc, j + |p|, q)
  {
    assert forall k :: 0 <= k < |p| ==> (p + q)[k] == p[k];
    assert forall k :: 0 <= k < |q| ==> (p + q)[|p| + k] == q[k];
    forall k | 0 <= k < |q|
      ensures doc[j + |p| + k] == q[k]
    {
      assert doc[j + (|p| + k)] == (p + q)[|p| + k];
    }
  }

  lemma AtTail(doc: bytes, j: nat, p: bytes)
    requires p != [] && At(doc, j, p)
    ensures doc[j] == p[0] && At(doc, j + 1, p[1..])
  {
    assert doc[j + 0] == p[0];
    forall k | 0 <= k < |p| - 1
      ensures doc[j + 1 + k] == p[1..][k]
    {
      assert doc[j + (k + 1)] == p[k + 1];
    }
  }

  lemma RawByte(doc: bytes, j: nat)
    requires j < |doc| && doc[j] >= 0x80
    ensures Unescape(doc, j) == Prepend([Byte(doc[j])], Unescape(doc, j + 1))
  {
  }

  lemma MarksHead(p: bytes)
    requires p != []
    ensures Marks(p) == [Byte(p[0])] + Marks(p[1..])
  {
  }

  lemma PrependTwice(m: seq<Mark>, n: seq<Mark>, r: Option<Read>)
    ensures Prepend(m, Prepend(n, r)) == Prepend(m + n, r)
    ensures Prepend([], r) == r
  {
    if r.Some? {
      Assoc(m, n, r.value.marks);
      assert [] + r.value.marks == r.value.marks;
    }
  }

  lemma {:induction false} ReadRaw(doc: bytes, j: nat, p: bytes)
    requires At(doc, j, p)
    requires forall k :: 0 <= k < |p| ==> p[k] >= 0x80
    ensures Unescape(doc, j) == Prepend(Marks(p), Unescape(doc, j + |p|))
    decreases |p|
  {
    hide *;
    if p == [] {
      assert Marks(p) == [];
      PrependTwice([], [], Unescape(doc, j));
    } else {
      AtTail(doc, j, p);
      RawByte(doc, j);
      MarksHead(p);
      ReadRaw(doc, j + 1, p[1..]);
      PrependTwice([Byte(p[0])], Marks(p[1..]), Unescape(doc, j + |p|));
    }
  }

  lemma ReadAscii(doc: bytes, j: nat, b: byte)
    requires b < 0x80 && At(doc, j, EscapeAscii(b))
    ensures j < |doc| && doc[j] != QUOTE
    ensures ReadUnit(doc, j) == Some(Read([Byte(b)], j + |EscapeAscii(b)|))
  {
    var p := EscapeAscii(b);
    assert doc[j] == p[0];
    if |p| > 1 {
      assert doc[j + 1] == p[1];
    }
    if |p| > 2 {
      assert doc[j + 2] == p[2] && doc[j + 3] == p[3] && doc[j + 4] == p[4] && doc[j + 5] == p[5];
    }
  }

  lemma ReadUnicode(doc: bytes, j: nat, p: bytes, code: nat)
    requires |p| == 6 && p[0] == BACKSLASH && p[1] == LETTER_U
    requires FourDigits(p, 2) && HexCode(p, 2) == code && !(0xD800 <= code < 0xE000)
    requires At(doc, j, p)
    ensures Unescape(doc, j) == Prepend(CodeMarks(code), Unescape(doc, j + 6))
  {
    assert doc[j] == p[0] && doc[j + 1] == p[1];
    assert doc[j + 2] == p[2] && doc[j + 3] == p[3] && doc[j + 4] == p[4] && doc[j + 5] == p[5];
  }

  lemma ReadSeparator(s: bytes, i: nat, doc: bytes, j: nat)
    requires IsSeparator(s, i) && At(doc, j, Piece(s, i))
    ensures Unescape(doc, j) == Prepend(UnitMarks(s, i), Unescape(doc, j + |Piece(s, i)|))
  {
    var code := if s[i + 2] == 0xA8 then 0x2028 else 0x2029;
    assert RuneWidth(s, i) == 3;
    assert CodeMarks(code) == [Byte(s[i]), Byte(s[i + 1]), Byte(s[i + 2])] == UnitMarks(s, i);
    var p := Piece(s, i);
    hide UnitMarks, CodeMarks, RuneWidth, At;
    ReadUnicode(doc, j, p, code);
  }

  // Reading what was written for one character gives its bytes back.
  lemma ReadPiece(s: bytes, i: nat, doc: bytes, j: nat)
    requires i < |s| && At(doc, j, Piece(s, i))
    ensures Unescape(doc, j) == Prepend(UnitMarks(s, i), Unescape(doc, j + |Piece(s, i)|))
  {
    if s[i] < 0x80 {
      ReadAscii(doc, j, s[i]);
      assert s[i..i + 1] == [s[i]];
      assert UnitMarks(s, i) == [Byte(s[i])];
    } else if Malformed(s, i) {
      ReadUnicode(doc, j, Piece(s, i), 0xFFFD);
    } else if IsSeparator(s, i) {
      ReadSeparator(s, i, doc, j);
    } else {
      ReadRaw(doc, j, Piece(s, i));
    }
  }

  // The first unit of a text, and what follows it.
  lemma FirstUnit(s: bytes, i: nat)
    requires i < |s|
    ensures Escaped(s, i) == Piece(s, i) + Escaped(s, i + UnitWidth(s, i))
    ensures Seen(s, i) == UnitMarks(s, i) + Seen(s, i + UnitWidth(s, i))
  {
    hide Piece, UnitMarks, UnitWidth;
  }

  lemma SplitEscaped(s: bytes, i: nat, doc: bytes, j: nat)
    requires i < |s| && At(doc, j, Escaped(s, i) + [QUOTE])
    ensures At(doc, j, Piece(s, i))
    ensures At(doc, j + |Piece(s, i)|, Escaped(s, i + UnitWidth(s, i)) + [QUOTE])
  {
    hide *;
    FirstUnit(s, i);
    Assoc(Piece(s, i), Escaped(s, i + UnitWidth(s, i)), [QUOTE]);
    AtSplit(doc, j, Piece(s, i), Escaped(s, i + UnitWidth(s, i)) + [QUOTE]);
  }

  lemma ReadQuote(s: bytes, doc: bytes, j: nat)
    requires At(doc, j, Escaped(s, |s|) + [QUOTE])
    ensures Unescape(doc, j) == Some(Read(Seen(s, |s|), j + |Escaped(s, |s|)| + 1))
  {
    assert doc[j + 0] == ([] + [QUOTE])[0];
  }

  lemma PrependRead(m: seq<Mark>, rest: seq<Mark>, next: nat)
    ensures Prepend(m, Some(Read(rest, next))) == Some(Read(m + rest, next))
  {
  }

  // The decoder inverts the encoder up to the malformed bytes, wherever the string stands.
  lemma {:induction false} UnescapeInverts(s: bytes, i: nat, doc: bytes, j: nat)
    requires i <= |s| && At(doc, j, Escaped(s, i) + [QUOTE])
    ensures Unescape(doc, j) == Some(Read(Seen(s, i), j + |Escaped(s, i)| + 1))
    decreases |s| - i
  {
    hide *;
    if i == |s| {
      ReadQuote(s, doc, j);
    } else {
      var n, k := i + UnitWidth(s, i), j + |Piece(s, i)|;
      FirstUnit(s, i);
      SplitEscaped(s, i, doc, j);
      ReadPiece(s, i, doc, j);
      UnescapeInverts(s, n, doc, k);
      PrependRead(UnitMarks(s, i), Seen(s, n), k + |Escaped(s, n)| + 1);
    }
  }

  // ---------------------------------------------------------------------------------------------
  // When two texts are encoded alike.

  lemma SameUnit(s: bytes, i: nat, t: bytes, k: nat)
    requires i < |s| && k < |t| && Seen(s, i) == Seen(t, k)
    ensures UnitWidth(s, i) == UnitWidth(t, k) && Piece(s, i) == Piece(t, k)
  {
    assert Seen(s, i)[0] == UnitMarks(s, i)[0];
    assert Seen(t, k)[0] == UnitMarks(t, k)[0];
    if !Malformed(s, i) {
      assert s[i] == t[k];
      assert UnitWidth(s, i) == UnitWidth(t, k);
      forall x | i <= x < i + UnitWidth(s, i)
        ensures s[x] == t[k + (x - i)]
      {
        assert Seen(s, i)[x - i] == UnitMarks(s, i)[x - i];
        assert Seen(t, k)[x - i] == UnitMarks(t, k)[x - i];
      }
      assert s[i..i + UnitWidth(s, i)] == t[k..k + UnitWidth(s, i)];
    }
  }

  lemma SameRest(s: bytes, i: nat, t: bytes, k: nat)
    requires i < |s| && k < |t| && Seen(s, i) == Seen(t, k)
    ensures Piece(s, i) == Piece(t, k)
    ensures Seen(s, i + UnitWidth(s, i)) == Seen(t, k + UnitWidth(t, k))
  {
    hide *;
    SameUnit(s, i, t, k);
    FirstUnit(s, i);
    FirstUnit(t, k);
    DropFirst(UnitMarks(s, i), Seen(s, i + UnitWidth(s, i)));
    DropFirst(UnitMarks(t, k), Seen(t, k + UnitWidth(t, k)));
  }

  lemma DropFirst<T>(x: seq<T>, y: seq<T>)
    ensures (x + y)[|x|..] == y
  {
  }

  lemma NothingLeft(s: bytes, t: bytes, k: nat)
    requires k <= |t| && Seen(s, |s|) == Seen(t, k)
    ensures Escaped(s, |s|) == Escaped(t, k)
  {
  }

  lemma {:induction false} EscapedBySeen(s: bytes, i: nat, t: bytes, k: nat)
    requires i <= |s| && k <= |t| && Seen(s, i) == Seen(t, k)
    ensures Escaped(s, i) == Escaped(t, k)
    decreases |s| - i
  {
    hide *;
    assert |Seen(s, i)| == |Seen(t, k)|;
    if i < |s| {
      SameRest(s, i, t, k);
      FirstUnit(s, i);
      FirstUnit(t, k);
      EscapedBySeen(s, i + UnitWidth(s, i), t, k + UnitWidth(t, k));
    } else {
      NothingLeft(s, t, k);
    }
  }

  // Two texts have the same encoding exactly when they differ in malformed bytes only.
  lemma EncodedAlike(s: bytes, t: bytes)
    ensures Escaped(s, 0) == Escaped(t, 0) <==> Normal(s) == Normal(t)
  {
    if Escaped(s, 0) == Escaped(t, 0) {
      UnescapeInverts(s, 0, Escaped(s, 0) + [QUOTE], 0);
      UnescapeInverts(t, 0, Escaped(s, 0) + [QUOTE], 0);
    }
    if Normal(s) == Normal(t) {
      EscapedBySeen(s, 0, t, 0);
    }
  }

  lemma {:induction false} ValidFromMarks(s: bytes, i: nat)
    requires i <= |s|
    ensures ValidFrom(s, i) <==> Replaced !in Seen(s, i)
    decreases |s| - i
  {
    if i < |s| {
      ValidFromMarks(s, i + UnitWidth(s, i));
      FirstUnit(s, i);
      InConcat(UnitMarks(s, i), Seen(s, i + UnitWidth(s, i)), Replaced);
      assert Malformed(s, i) ==> UnitMarks(s, i)[0] == Replaced;
      hide Seen, Malformed;
    }
  }

  lemma InConcat<T>(x: seq<T>, y: seq<T>, e: T)
    ensures e in x + y <==> e in x || e in y
  {
  }

  lemma {:induction false} SeenWhenValid(s: bytes, i: nat)
    requires i <= |s| && ValidFrom(s, i)
    ensures Seen(s, i) == Marks(s[i..])
    decreases |s| - i
  {
    if i < |s| {
      var n := i + UnitWidth(s, i);
      assert Seen(s, i) == Marks(s[i..n]) + Seen(s, n);
      SeenWhenValid(s, n);
      hide *;
      assert s[i..] == s[i..n] + s[n..];
      MarksConcat(s[i..n], s[n..]);
    }
  }

  lemma MarksConcat(x: bytes, y: bytes)
    ensures Marks(x + y) == Marks(x) + Marks(y)
  {
  }

  lemma ValidByMarks(s: bytes)
    ensures ValidUtf8(s) <==> Replaced !in Normal(s)
  {
    ValidFromMarks(s, 0);
  }

  // Well-formed text is encoded like no other text, well-formed or not.
  lemma ValidTextIsDetermined(s: bytes, t: bytes)
    requires ValidUtf8(s) && Normal(s) == Normal(t)
    ensures s == t
  {
    ValidByMarks(s);
    ValidByMarks(t);
    SeenWhenValid(s, 0);
    SeenWhenValid(t, 0);
    assert s[0..] == s && t[0..] == t;
    forall k | 0 <= k < |s|
      ensures s[k] == t[k]
    {
      assert Marks(s)[k] == Marks(t)[k];
    }
  }

  // ---------------------------------------------------------------------------------------------
  // The tables above, against the encoding of code points and against literal bytes.

  // A multi-byte sequence is well-formed exactly when it encodes a code point, which is all of it.
  lemma RuneExactlyWhen(s: bytes, i: nat)
    requires i < |s|
    ensures RuneWidth(s, i) > 0 <==> exists c :: c >= 0x80 && Utf8.Stands(s, i, c)
    ensures forall c :: c >= 0x80 && Utf8.Stands(s, i, c) ==> RuneWidth(s, i) == |Utf8.Encoded(c)|
  {
    if RuneWidth(s, i) > 0 {
      var c := RuneStands(s, i);
    }
    forall c | c >= 0x80 && Utf8.Stands(s, i, c)
      ensures RuneWidth(s, i) == |Utf8.Encoded(c)|
    {
      EncodedIsRune(s, i, c);
    }
  }

  lemma RuneStands(s: bytes, i: nat) returns (c: int)
    requires i < |s| && RuneWidth(s, i) > 0
    ensures c >= 0x80 && Utf8.Stands(s, i, c)
  {
    var w := RuneWidth(s, i);
    if w == 2 {
      Utf8.StandsTwo(s, i);
      c := (s[i] as int - 0xC0) * 64 + s[i + 1] as int - 0x80;
    } else if w == 3 {
      Utf8.StandsThree(s, i);
      c := ((s[i] as int - 0xE0) * 64 + s[i + 1] as int - 0x80) * 64 + s[i + 2] as int - 0x80;
    } else {
      Utf8.StandsFour(s, i);
      c := (((s[i] as int - 0xF0) * 64 + s[i + 1] as int - 0x80) * 64 + s[i + 2] as int - 0x80) * 64
        + s[i + 3] as int - 0x80;
    }
    hide Utf8.Stands, Utf8.Encoded;
  }

  lemma EncodedIsRune(s: bytes, i: nat, c: int)
    requires c >= 0x80 && Utf8.Stands(s, i, c)
    ensures RuneWidth(s, i) == |Utf8.Encoded(c)|
  {
  }

  lemma SeparatorExactlyWhen(s: bytes, i: nat)
    ensures IsSeparator(s, i) <==> Utf8.Stands(s, i, 0x2028) || Utf8.Stands(s, i, 0x2029)
  {
  }

  lemma CodeMarksAreEncoded(code: nat)
    requires Utf8.IsScalar(code) && code < 0x10000 && code != 0xFFFD
    ensures CodeMarks(code) == Marks(Utf8.Encoded(code))
  {
  }

  // What the encoder writes for an ASCII byte: two characters for seven of them, six for the other
  // control characters and for those that mean something in HTML, the byte itself for the rest.
  lemma AsciiIsEscapedSo(b: byte)
    requires b < 128
    ensures EscapeAscii(34) == [92, 34] && EscapeAscii(92) == [92, 92]
    ensures EscapeAscii(8) == ['\\' as byte, 'b' as byte] && EscapeAscii(12) == ['\\' as byte, 'f' as byte]
    ensures EscapeAscii(10) == ['\\' as byte, 'n' as byte] && EscapeAscii(13) == ['\\' as byte, 'r' as byte]
    ensures EscapeAscii(9) == ['\\' as byte, 't' as byte]
    ensures b in {34, 92, 8, 12, 10, 13, 9} ||
            EscapeAscii(b) == if b < 32 || b in {60, 62, 38}
                              then [92, 117, 48, 48, HexString.DigitOf(b / 16), HexString.DigitOf(b % 16)]
                              else [b]
  {
  }

  lemma SeparatorsAndMalformedBytesAreEscapedSo()
    ensures Piece([0xE2, 0x80, 0xA8], 0) == [92, 117, 50, 48, 50, 56]
    ensures Piece([0xE2, 0x80, 0xA9], 0) == [92, 117, 50, 48, 50, 57]
    ensures Piece([0xFF], 0) == [92, 117, 102, 102, 102, 100]
  {
  }
}
