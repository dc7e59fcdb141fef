// cacheKeyFor: a search query's cache key is the hash of its JSON document.
module QueryKey {
  import opened Bytes
  import opened JsonText
  import HexString

  type Uuid = u: bytes | |u| == 16 witness [0, 0, 0, 0, 0, 0, 0, 0, 0, 0, 0, 0, 0, 0, 0, 0]

  datatype Query = Query(text: bytes, course: Option<Uuid>, kind: Option<bytes>)

  function Ascii(s: string): (b: bytes)
    ensures |b| == |s|
  {
    seq(|s|, i requires 0 <= i < |s| => if s[i] < 128 as char then s[i] as byte else 0)
  }

  const TEXT_FIELD: bytes := Ascii("{\"Text\":\"")
  const COURSE_FIELD: bytes := Ascii(",\"CourseID\":")
  const KIND_FIELD: bytes := Ascii(",\"Type\":")
  const NULL: bytes := Ascii("null")
  const CLOSING: bytes := Ascii("}")
  const KEY_PREFIX: bytes := Ascii("search:")
  const DASH: byte := '-' as byte

  // The usual notation for a UUID: lower-case digits in groups of 8, 4, 4, 4 and 12.
  function UuidText(u: Uuid): bytes {
    HexString.LowerCase(u[0..4]) + [DASH] + HexString.LowerCase(u[4..6]) + [DASH] + HexString.LowerCase(u[6..8])
    + [DASH] + HexString.LowerCase(u[8..10]) + [DASH] + HexString.LowerCase(u[10..])
  }

  // The literals of the document and of the key, in ASCII codes.
  lemma LiteralsOfTheDocument()
    ensures TEXT_FIELD == [123, 34, 84, 101, 120, 116, 34, 58, 34]
    ensures COURSE_FIELD == [44, 34, 67, 111, 117, 114, 115, 101, 73, 68, 34, 58]
    ensures KIND_FIELD == [44, 34, 84, 121, 112, 101, 34, 58]
    ensures NULL == [110, 117, 108, 108] && CLOSING == [125] && QUOTE == 34 && DASH == 45
    ensures KEY_PREFIX == [115, 101, 97, 114, 99, 104, 58]
  {
  }

  // Four dashes, and two lower-case digits for each byte.
  lemma UuidLooksSo(u: Uuid)
    ensures |UuidText(u)| == 36
    ensures UuidText(u)[8] == UuidText(u)[13] == UuidText(u)[18] == UuidText(u)[23] == 45
    ensures UuidText(u)[0] == HexString.Digit(u[0] / 16, false) && UuidText(u)[35] == HexString.Digit(u[15] % 16, false)
  {
    HexString.LowerCaseAt(u[0..4], 0);
    HexString.LowerCaseAt(u[4..6], 0);
    HexString.LowerCaseAt(u[6..8], 0);
    HexString.LowerCaseAt(u[8..10], 0);
    HexString.LowerCaseAt(u[10..], 5);
    hide HexString.LowerCase, HexString.Digit;
  }

  function Quoted(s: bytes): bytes {
    Escaped(s, 0) + [QUOTE]
  }

  function CourseJson(course: Option<Uuid>): bytes {
    if course.None? then NULL else [QUOTE] + UuidText(course.value) + [QUOTE]
  }

  function KindJson(kind: Option<bytes>): bytes {
    if kind.None? then NULL else [QUOTE] + Quoted(kind.value)
  }

  // json.Marshal of the query struct.
  function Encode(q: Query): bytes {
    TEXT_FIELD
    + (Quoted(q.text) + (COURSE_FIELD + (CourseJson(q.course) + (KIND_FIELD + (KindJson(q.kind) + CLOSING)))))
  }

  // `sha` stands for SHA-256, whose internals the model does not look into.
  function CacheKey(sha: bytes -> bytes, q: Query): bytes {
    KEY_PREFIX + HexString.LowerCase(sha(Encode(q)))
  }

  // A query as far as its document tells it.
  datatype Shown = Shown(text: seq<Mark>, course: Option<Uuid>, kind: Option<seq<Mark>>)

  function Show(q: Query): Shown {
    Shown(Normal(q.text), q.course, if q.kind.None? then None else Some(Normal(q.kind.value)))
  }

  predicate ValidQuery(q: Query) {
    ValidUtf8(q.text) && (q.kind.Some? ==> ValidUtf8(q.kind.value))
  }

  // ---------------------------------------------------------------------------------------------
  // Reading a document.

  predicate Here(doc: bytes, j: nat, p: bytes)
  {
    j + |p| <= |doc| && doc[j..j + |p|] == p
  }

  function ReadUuid(doc: bytes, j: nat): Option<Uuid> {
    if j + 36 <= |doc| then
      var u := HexString.Decode(HexString.Digits(doc[j..j + 36]));
      if |u| == 16 then Some(u) else None
    else None
  }

  // Each reader gives the value that starts at j and the index just past it.
  function ReadCourse(doc: bytes, j: nat): Option<(Option<Uuid>, nat)> {
    if Here(doc, j, NULL) then Some((None, j + 4))
    else if Here(doc, j, [QUOTE]) then
      var u := ReadUuid(doc, j + 1);
      if u.Some? && Here(doc, j + 37, [QUOTE]) then Some((u, j + 38)) else None
    else None
  }

  function ReadKind(doc: bytes, j: nat): Option<(Option<seq<Mark>>, nat)> {
    if Here(doc, j, NULL) then Some((None, j + 4))
    else if Here(doc, j, [QUOTE]) then
      var r := Unescape(doc, j + 1);
      if r.Some? then Some((Some(r.value.marks), r.value.next)) else None
    else None
  }

  function DecodeKind(doc: bytes, j: nat, text: seq<Mark>, course: Option<Uuid>): Option<Shown> {
    if Here(doc, j, KIND_FIELD) then
      var kind := ReadKind(doc, j + |KIND_FIELD|);
      if kind.Some? && Here(doc, kind.value.1, CLOSING) && kind.value.1 + 1 == |doc| then
        Some(Shown(text, course, kind.value.0))
      else None
    else None
  }

  function DecodeCourse(doc: bytes, j: nat, text: seq<Mark>): Option<Shown> {
    if Here(doc, j, COURSE_FIELD) then
      var course := ReadCourse(doc, j + |COURSE_FIELD|);
      if course.Some? then DecodeKind(doc, course.value.1, text, course.value.0) else None
    else None
  }

  function Decode(doc: bytes): Option<Shown> {
    if Here(doc, 0, TEXT_FIELD) then
      var text := Unescape(doc, |TEXT_FIELD|);
      if text.Some? then DecodeCourse(doc, text.value.next, text.value.marks) else None
    else None
  }

  // ---------------------------------------------------------------------------------------------
  // The reader inverts the encoder.

  lemma Split(doc: bytes, j: nat, p: bytes, q: bytes)
    requires Here(doc, j, p + q)
    ensures Here(doc, j, p) && Here(doc, j + |p|, q)
  {
    assert doc[j..j + |p|] == (p + q)[..|p|];
    assert doc[j + |p|..j + |p| + |q|] == (p + q)[|p|..];
  }

  lemma HereAt(doc: bytes, j: nat, p: bytes)
    requires Here(doc, j, p)
    ensures At(doc, j, p)
  {
    forall k | 0 <= k < |p|
      ensures doc[j + k] == p[k]
    {
      assert doc[j..j + |p|][k] == p[k];
    }
  }

  lemma {:induction false} LowerCaseLength(s: bytes)
    ensures |HexString.LowerCase(s)| == 2 * |s|
  {
    if s != [] {
      LowerCaseLength(s[..|s| - 1]);
    }
  }

  lemma {:induction false} DigitsConcat(x: bytes, y: bytes)
    ensures HexString.Digits(x + y) == HexString.Digits(x) + HexString.Digits(y)
  {
    if y == [] {
      assert x + y == x;
    } else {
      var init := y[..|y| - 1];
      assert (x + y)[..|x + y| - 1] == x + init;
      DigitsConcat(x, init);
    }
  }

  // A dash between two spellings spells their concatenation.
  lemma DashedSpelling(x: bytes, u: bytes, v: bytes)
    requires HexString.Spells(x, u)
    ensures HexString.Spells(x + [DASH] + HexString.LowerCase(v), u + v)
    ensures |x + [DASH] + HexString.LowerCase(v)| == |x| + 1 + 2 * |v|
  {
    var y := HexString.LowerCase(v);
    HexString.EveryStringHasASpelling(v);
    LowerCaseLength(v);
    DigitsConcat(x + [DASH], y);
    DigitsConcat(x, [DASH]);
    assert HexString.Digits([DASH]) == [];
    HexString.DigitValuesConcat(HexString.Digits(x), HexString.Digits(y));
    HexString.NibblesConcat(u, v);
    hide HexString.Digits, HexString.DigitValues, HexString.Nibbles, HexString.LowerCase;
    assert HexString.Digits(x) + [] == HexString.Digits(x);
  }

  lemma UuidIsSpelt(u: Uuid)
    ensures |UuidText(u)| == 36 && HexString.Decode(HexString.Digits(UuidText(u))) == u
  {
    HexString.EveryStringHasASpelling(u[0..4]);
    LowerCaseLength(u[0..4]);
    var t := HexString.LowerCase(u[0..4]);
    DashedSpelling(t, u[0..4], u[4..6]);
    t := t + [DASH] + HexString.LowerCase(u[4..6]);
    DashedSpelling(t, u[0..4] + u[4..6], u[6..8]);
    t := t + [DASH] + HexString.LowerCase(u[6..8]);
    DashedSpelling(t, u[0..4] + u[4..6] + u[6..8], u[8..10]);
    t := t + [DASH] + HexString.LowerCase(u[8..10]);
    DashedSpelling(t, u[0..4] + u[4..6] + u[6..8] + u[8..10], u[10..]);
    assert u[0..4] + u[4..6] + u[6..8] + u[8..10] + u[10..] == u;
    HexString.DecodeSpelling(UuidText(u), u);
  }

  lemma NotNull(doc: bytes, j: nat)
    requires Here(doc, j, [QUOTE])
    ensures !Here(doc, j, NULL)
  {
    assert doc[j..j + 1][0] == doc[j];
    if j + 4 <= |doc| {
      assert doc[j..j + 4][0] == doc[j];
    }
  }

  lemma CourseIsRead(doc: bytes, j: nat, course: Option<Uuid>)
    requires Here(doc, j, CourseJson(course))
    ensures ReadCourse(doc, j) == Some((course, j + |CourseJson(course)|))
  {
    if course.Some? {
      var t := UuidText(course.value);
      UuidIsSpelt(course.value);
      Split(doc, j, [QUOTE] + t, [QUOTE]);
      Split(doc, j, [QUOTE], t);
      NotNull(doc, j);
    }
  }

  lemma KindIsRead(doc: bytes, j: nat, kind: Option<bytes>)
    requires Here(doc, j, KindJson(kind))
    ensures ReadKind(doc, j)
            == Some((if kind.None? then None else Some(Normal(kind.value)), j + |KindJson(kind)|))
  {
    if kind.Some? {
      Split(doc, j, [QUOTE], Quoted(kind.value));
      TextIsRead(doc, j + 1, kind.value);
      NotNull(doc, j);
    }
  }

  lemma KindFieldIsRead(doc: bytes, j: nat, q: Query)
    requires Here(doc, j, KIND_FIELD + (KindJson(q.kind) + CLOSING))
    requires j + |KIND_FIELD| + |KindJson(q.kind)| + 1 == |doc|
    ensures DecodeKind(doc, j, Normal(q.text), q.course) == Some(Show(q))
  {
    hide Here, KindJson, KIND_FIELD, ReadKind;
    Split(doc, j, KIND_FIELD, KindJson(q.kind) + CLOSING);
    Split(doc, j + |KIND_FIELD|, KindJson(q.kind), CLOSING);
    KindIsRead(doc, j + |KIND_FIELD|, q.kind);
  }

  lemma CourseFieldIsRead(doc: bytes, j: nat, q: Query)
    requires Here(doc, j, COURSE_FIELD + (CourseJson(q.course) + (KIND_FIELD + (KindJson(q.kind) + CLOSING))))
    requires j + |COURSE_FIELD| + |CourseJson(q.course)| + |KIND_FIELD| + |KindJson(q.kind)| + 1 == |doc|
    ensures DecodeCourse(doc, j, Normal(q.text)) == Some(Show(q))
  {
    hide Here, KindJson, CourseJson, COURSE_FIELD, KIND_FIELD, CLOSING, ReadCourse, DecodeKind, Show;
    var rest := KIND_FIELD + (KindJson(q.kind) + CLOSING);
    var k := j + |COURSE_FIELD|;
    Split(doc, j, COURSE_FIELD, CourseJson(q.course) + rest);
    Split(doc, k, CourseJson(q.course), rest);
    CourseIsRead(doc, k, q.course);
    KindFieldIsRead(doc, k + |CourseJson(q.course)|, q);
  }

  // Round trip: a document gives its query back, up to which malformed bytes stood in it.
  lemma DecodeInverts(q: Query)
    ensures Decode(Encode(q)) == Some(Show(q))
  {
    var doc := Encode(q);
    var course := COURSE_FIELD + (CourseJson(q.course) + (KIND_FIELD + (KindJson(q.kind) + CLOSING)));
    assert doc == TEXT_FIELD + (Quoted(q.text) + course);
    assert |CLOSING| == 1;
    assert Here(doc, 0, TEXT_FIELD + (Quoted(q.text) + course));
    var j := |TEXT_FIELD|;
    hide *;
    Split(doc, 0, TEXT_FIELD, Quoted(q.text) + course);
    Split(doc, j, Quoted(q.text), course);
    CourseFieldIsRead(doc, j + |Quoted(q.text)|, q);
    TextIsRead(doc, j, q.text);
    DecodeSteps(doc, q.text);
  }

  lemma TextIsRead(doc: bytes, j: nat, text: bytes)
    requires Here(doc, j, Quoted(text))
    ensures Unescape(doc, j) == Some(Read(Normal(text), j + |Quoted(text)|))
  {
    HereAt(doc, j, Quoted(text));
    UnescapeInverts(text, 0, doc, j);
  }

  lemma DecodeSteps(doc: bytes, text: bytes)
    requires Here(doc, 0, TEXT_FIELD)
    requires Unescape(doc, |TEXT_FIELD|) == Some(Read(Normal(text), |TEXT_FIELD| + |Quoted(text)|))
    ensures Decode(doc) == DecodeCourse(doc, |TEXT_FIELD| + |Quoted(text)|, Normal(text))
  {
  }

  // Two queries have the same document exactly when they differ in malformed bytes only.
  lemma EncodedAlikeExactlyWhen(q: Query, r: Query)
    ensures Encode(q) == Encode(r) <==> Show(q) == Show(r)
  {
    DecodeInverts(q);
    DecodeInverts(r);
    EncodedAlike(q.text, r.text);
    if q.kind.Some? && r.kind.Some? {
      EncodedAlike(q.kind.value, r.kind.value);
    }
  }

  ghost predicate Injective(sha: bytes -> bytes) {
    forall x, y :: sha(x) == sha(y) ==> x == y
  }

  lemma LowerCaseInjective(x: bytes, y: bytes)
    requires HexString.LowerCase(x) == HexString.LowerCase(y)
    ensures x == y
  {
    HexString.EveryStringHasASpelling(x);
    HexString.EveryStringHasASpelling(y);
    HexString.DecodeSpelling(HexString.LowerCase(x), x);
    HexString.DecodeSpelling(HexString.LowerCase(y), y);
  }

  // Two queries share a key exactly when they differ in malformed bytes only.
  lemma SameKeyExactlyWhen(sha: bytes -> bytes, q: Query, r: Query)
    requires Injective(sha)
    ensures CacheKey(sha, q) == CacheKey(sha, r) <==> Show(q) == Show(r)
  {
    if CacheKey(sha, q) == CacheKey(sha, r) {
      var x, y := HexString.LowerCase(sha(Encode(q))), HexString.LowerCase(sha(Encode(r)));
      assert (KEY_PREFIX + x)[|KEY_PREFIX|..] == x && (KEY_PREFIX + y)[|KEY_PREFIX|..] == y;
      LowerCaseInjective(sha(Encode(q)), sha(Encode(r)));
    }
    EncodedAlikeExactlyWhen(q, r);
  }

  // The key of a query over well-formed text belongs to no other query, whatever its filters.
  lemma ValidQueryOwnsItsKey(sha: bytes -> bytes, q: Query, r: Query)
    requires Injective(sha) && ValidQuery(q) && CacheKey(sha, q) == CacheKey(sha, r)
    ensures q == r
  {
    SameKeyExactlyWhen(sha, q, r);
    ValidTextIsDetermined(q.text, r.text);
    if q.kind.Some? {
      ValidTextIsDetermined(q.kind.value, r.kind.value);
    }
  }

  // Malformed text is where keys collide: two different one-byte texts.
  lemma MalformedTextsCollide(sha: bytes -> bytes)
    ensures var q, r := Query([0xFE], None, None), Query([0xFF], None, None);
      && q != r && CacheKey(sha, q) == CacheKey(sha, r)
  {
    EncodedAlike([0xFE], [0xFF]);
    assert Seen([0xFE], 0) == [Replaced] + [] && Seen([0xFF], 0) == [Replaced] + [];
  }
}
