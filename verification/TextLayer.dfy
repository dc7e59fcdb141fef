// ExtractText: the text layer of a whole file, page stream by page stream.
module TextLayer {
  import opened Bytes
  import ExtractorProperties
  import opened TextExtractor
  import Utf8

  // What unpacking the file yields: nothing, or one entry a page stream, None where an entry could
  // not be read back.
  datatype Content = Unparseable | Entries(pages: seq<Option<bytes>>)

  datatype Extraction = Extraction(text: bytes, hasLayer: bool)

  // The number of bytes of the white-space character that starts at i, 0 if there is none. White
  // space is Unicode's White_Space property, in UTF-8.
  function SpaceLength(t: bytes, i: nat): (len: nat)
    requires i < |t|
    ensures i + len <= |t|
  {
    var b := t[i];
    if TAB <= b <= CR || b == SPACE then 1
    else if i + 1 < |t| && b == 0xC2 && (t[i + 1] == 0x85 || t[i + 1] == 0xA0) then 2
    else if i + 2 < |t| && IsWideSpace(b, t[i + 1], t[i + 2]) then 3
    else 0
  }

  predicate IsWideSpace(x: byte, y: byte, z: byte) {
    || (x == 0xE1 && y == 0x9A && z == 0x80)
    || (x == 0xE2 && y == 0x80 && (0x80 <= z <= 0x8A || z == 0xA8 || z == 0xA9 || z == 0xAF))
    || (x == 0xE2 && y == 0x81 && z == 0x9F)
    || (x == 0xE3 && y == 0x80 && z == 0x80)
  }

  // The code points that unicode.IsSpace takes for white space.
  predicate IsSpaceCode(c: int) {
    || 9 <= c <= 13 || c == 32 || c == 0x85 || c == 0xA0 || c == 0x1680 || 0x2000 <= c <= 0x200A
    || c == 0x2028 || c == 0x2029 || c == 0x202F || c == 0x205F || c == 0x3000
  }

  // White space starts at i exactly when the encoding of such a code point does, which is all of it.
  lemma SpaceExactlyWhen(t: bytes, i: nat)
    requires i < |t|
    ensures SpaceLength(t, i) > 0 <==> exists c :: IsSpaceCode(c) && Utf8.Stands(t, i, c)
    ensures forall c :: IsSpaceCode(c) && Utf8.Stands(t, i, c) ==> SpaceLength(t, i) == |Utf8.Encoded(c)|
  {
    if SpaceLength(t, i) > 0 {
      var c := SpaceStands(t, i);
    }
    forall c | IsSpaceCode(c) && Utf8.Stands(t, i, c)
      ensures SpaceLength(t, i) == |Utf8.Encoded(c)|
    {
      EncodedIsSpace(t, i, c);
    }
  }

  lemma SpaceStands(t: bytes, i: nat) returns (c: int)
    requires i < |t| && SpaceLength(t, i) > 0
    ensures IsSpaceCode(c) && Utf8.Stands(t, i, c)
  {
    var n := SpaceLength(t, i);
    if n == 1 {
      c := t[i] as int;
    } else if n == 2 {
      Utf8.StandsTwo(t, i);
      c := (t[i] as int - 0xC0) * 64 + t[i + 1] as int - 0x80;
      hide Utf8.Stands, Utf8.Encoded;
    } else {
      Utf8.StandsThree(t, i);
      c := ((t[i] as int - 0xE0) * 64 + t[i + 1] as int - 0x80) * 64 + t[i + 2] as int - 0x80;
      hide Utf8.Stands, Utf8.Encoded;
    }
  }

  lemma EncodedIsSpace(t: bytes, i: nat, c: int)
    requires i < |t| && IsSpaceCode(c) && Utf8.Stands(t, i, c)
    ensures SpaceLength(t, i) == |Utf8.Encoded(c)|
  {
  }

  // strings.TrimSpace leaves nothing of the text from i on.
  predicate Blank(t: bytes, i: nat)
    requires i <= |t|
    decreases |t| - i
  {
    i == |t| || (SpaceLength(t, i) > 0 && Blank(t, i + SpaceLength(t, i)))
  }

  function PageText(read: FloatReader, page: Option<bytes>): bytes {
    match page
    case None => []
    case Some(data) => Extracted(read, data) + [LF]
  }

  function CombinedFrom(read: FloatReader, pages: seq<Option<bytes>>, k: nat): bytes
    requires k <= |pages|
    decreases |pages| - k
  {
    if k == |pages| then [] else PageText(read, pages[k]) + CombinedFrom(read, pages, k + 1)
  }

  function Extract(read: FloatReader, content: Content): Extraction {
    if content.Entries? && !Blank(CombinedFrom(read, content.pages, 0), 0)
    then Extraction(CombinedFrom(read, content.pages, 0), true)
    else Extraction([], false)
  }

  method IsBlank(t: bytes) returns (blank: bool)
    ensures blank == Blank(t, 0)
  {
    var i := 0;
    while i < |t| && SpaceLength(t, i) > 0
      invariant 0 <= i <= |t|
      invariant Blank(t, 0) == Blank(t, i)
      decreases |t| - i
    {
      i := i + SpaceLength(t, i);
    }
    blank := i == |t|;
  }

  method ExtractText(read: FloatReader, content: Content) returns (text: bytes, hasLayer: bool)
    ensures Extraction(text, hasLayer) == Extract(read, content)
  {
    if content.Unparseable? {
      return [], false;
    }
    var combined: bytes := [];
    var k := 0;
    while k < |content.pages|
      invariant 0 <= k <= |content.pages|
      invariant combined + CombinedFrom(read, content.pages, k) == CombinedFrom(read, content.pages, 0)
    {
      Assoc(combined, PageText(read, content.pages[k]), CombinedFrom(read, content.pages, k + 1));
      if content.pages[k].Some? {
        var page, _ := ExtractTextFromContentStream(read, content.pages[k].value);
        Assoc(combined, page, [LF]);
        combined := combined + page;
        combined := combined + [LF];
      } else {
        assert combined + [] == combined;
      }
      k := k + 1;
    }
    assert combined + [] == combined;
    var blank := IsBlank(combined);
    if blank {
      return [], false;
    }
    return combined, true;
  }

  // ---------------------------------------------------------------------------------------------

  lemma {:induction false} BlankShift(a: bytes, b: bytes, i: nat)
    requires i <= |b|
    ensures Blank(a + b, |a| + i) == Blank(b, i)
    decreases |b| - i
  {
    if i < |b| {
      var d := a + b;
      assert d[|a| + i] == b[i];
      assert i + 1 < |b| ==> d[|a| + i + 1] == b[i + 1];
      assert i + 2 < |b| ==> d[|a| + i + 2] == b[i + 2];
      assert SpaceLength(d, |a| + i) == SpaceLength(b, i);
      if SpaceLength(b, i) > 0 {
        BlankShift(a, b, i + SpaceLength(b, i));
      }
    }
  }

  // A newline is no part of a longer white-space character, so it splits the question in two.
  lemma {:induction false} BlankLine(a: bytes, b: bytes, i: nat)
    requires i <= |a|
    ensures Blank(a + ([LF] + b), i) == (Blank(a, i) && Blank(b, 0))
    decreases |a| - i
  {
    var d := a + ([LF] + b);
    if i < |a| {
      assert d[i] == a[i];
      assert d[i + 1] == if i + 1 < |a| then a[i + 1] else LF;
      assert i + 2 <= |a| ==> d[i + 2] == if i + 2 < |a| then a[i + 2] else LF;
      assert SpaceLength(d, i) == SpaceLength(a, i);
      if SpaceLength(a, i) > 0 {
        BlankLine(a, b, i + SpaceLength(a, i));
      }
    } else {
      assert d[i] == LF;
      assert d == (a + [LF]) + b;
      BlankShift(a + [LF], b, 0);
      assert SpaceLength(d, i) == 1;
    }
  }

  // Page j could be read and shows something other than white space.
  predicate Visible(read: FloatReader, pages: seq<Option<bytes>>, j: nat)
    requires j < |pages|
  {
    pages[j].Some? && !Blank(Extracted(read, pages[j].value), 0)
  }

  lemma BlankPage(read: FloatReader, pages: seq<Option<bytes>>, k: nat)
    requires k < |pages|
    ensures Blank(CombinedFrom(read, pages, k), 0)
            == (!Visible(read, pages, k) && Blank(CombinedFrom(read, pages, k + 1), 0))
  {
    var rest := CombinedFrom(read, pages, k + 1);
    assert CombinedFrom(read, pages, k) == PageText(read, pages[k]) + rest;
    hide Extracted, Blank, CombinedFrom;
    match pages[k] {
      case None =>
        assert [] + rest == rest;
      case Some(data) =>
        var text := Extracted(read, data);
        Assoc(text, [LF], rest);
        BlankLine(text, rest, 0);
    }
  }

  lemma {:induction false} BlankPages(read: FloatReader, pages: seq<Option<bytes>>, k: nat)
    requires k <= |pages|
    ensures Blank(CombinedFrom(read, pages, k), 0)
            <==> forall j :: k <= j < |pages| ==> !Visible(read, pages, j)
    decreases |pages| - k
  {
    NothingAfterLast(read, pages);
    hide CombinedFrom, Visible;
    if k < |pages| {
      hide Blank;
      BlankPages(read, pages, k + 1);
      BlankPage(read, pages, k);
    }
  }

  // A file has a text layer exactly when it could be unpacked and some page shows something other
  // than white space; the text is then that of all pages, and never empty.
  lemma LayerIffSomethingIsShown(read: FloatReader, content: Content)
    ensures var r := Extract(read, content);
      && (r.hasLayer <==>
          content.Entries? && exists j :: 0 <= j < |content.pages| && Visible(read, content.pages, j))
      && (r.hasLayer <==> r.text != [])
  {
    if content.Entries? {
      BlankPages(read, content.pages, 0);
    }
  }

  // Where the text of page j starts: after the text of each readable page before it and a newline.
  function Offset(read: FloatReader, pages: seq<Option<bytes>>, j: nat): nat
    requires j <= |pages|
  {
    if j == 0 then 0
    else
      Offset(read, pages, j - 1)
      + if pages[j - 1].Some? then |Extracted(read, pages[j - 1].value)| + 1 else 0
  }

  function TextBefore(read: FloatReader, pages: seq<Option<bytes>>, j: nat): bytes
    requires j <= |pages|
  {
    if j == 0 then [] else TextBefore(read, pages, j - 1) + PageText(read, pages[j - 1])
  }

  lemma NextPage(read: FloatReader, pages: seq<Option<bytes>>, j: nat)
    requires j < |pages|
    ensures Offset(read, pages, j + 1) == Offset(read, pages, j) + |PageText(read, pages[j])|
    ensures TextBefore(read, pages, j + 1) == TextBefore(read, pages, j) + PageText(read, pages[j])
    ensures CombinedFrom(read, pages, j) == PageText(read, pages[j]) + CombinedFrom(read, pages, j + 1)
  {
    hide Extracted;
  }

  lemma BeforeFirst(read: FloatReader, pages: seq<Option<bytes>>)
    ensures TextBefore(read, pages, 0) == [] && Offset(read, pages, 0) == 0
  {
  }

  lemma {:induction false} SplitAtPage(read: FloatReader, pages: seq<Option<bytes>>, j: nat)
    requires j <= |pages|
    ensures CombinedFrom(read, pages, 0) == TextBefore(read, pages, j) + CombinedFrom(read, pages, j)
    ensures |TextBefore(read, pages, j)| == Offset(read, pages, j)
  {
    hide *;
    if j == 0 {
      BeforeFirst(read, pages);
      assert [] + CombinedFrom(read, pages, 0) == CombinedFrom(read, pages, 0);
    } else {
      SplitAtPage(read, pages, j - 1);
      NextPage(read, pages, j - 1);
      Assoc(TextBefore(read, pages, j - 1), PageText(read, pages[j - 1]), CombinedFrom(read, pages, j));
    }
  }

  lemma Middle(x: bytes, y: bytes, z: bytes)
    ensures (x + (y + z))[|x|..|x| + |y|] == y
  {
    SliceShift(x, y + z, 0, |y|);
    assert (y + z)[0..|y|] == y;
  }

  lemma PageStands(read: FloatReader, pages: seq<Option<bytes>>, j: nat)
    requires j < |pages|
    ensures var all, line, here := CombinedFrom(read, pages, 0), PageText(read, pages[j]), Offset(read, pages, j);
      here + |line| <= |all| && all[here..here + |line|] == line
  {
    hide *;
    SplitAtPage(read, pages, j);
    NextPage(read, pages, j);
    Middle(TextBefore(read, pages, j), PageText(read, pages[j]), CombinedFrom(read, pages, j + 1));
  }

  // The extracted text of readable page j, and a newline, stand in `text` at the page's offset.
  predicate PageStandsAt(read: FloatReader, pages: seq<Option<bytes>>, text: bytes, j: nat)
    requires j < |pages| && pages[j].Some?
  {
    var page, here := Extracted(read, pages[j].value), Offset(read, pages, j);
    here + |page| + 1 <= |text| && text[here..here + |page| + 1] == page + [LF]
  }

  // The text of a file with a text layer is that of its readable pages, in order, a newline after
  // each, and nothing else.
  lemma TextIsThatOfThePages(read: FloatReader, pages: seq<Option<bytes>>)
    requires Extract(read, Entries(pages)).hasLayer
    ensures var text := Extract(read, Entries(pages)).text;
      && |text| == Offset(read, pages, |pages|)
      && forall j :: 0 <= j < |pages| && pages[j].Some? ==> PageStandsAt(read, pages, text, j)
  {
    TextIsCombined(read, pages);
    SplitAtPage(read, pages, |pages|);
    NothingAfterLast(read, pages);
    hide *;
    forall j | 0 <= j < |pages| && pages[j].Some?
      ensures PageStandsAt(read, pages, Extract(read, Entries(pages)).text, j)
    {
      PageStands(read, pages, j);
      ReadablePage(read, pages, j, Extract(read, Entries(pages)).text);
    }
  }

  lemma TextIsCombined(read: FloatReader, pages: seq<Option<bytes>>)
    requires Extract(read, Entries(pages)).hasLayer
    ensures Extract(read, Entries(pages)).text == CombinedFrom(read, pages, 0)
  {
    hide CombinedFrom, Blank;
  }

  lemma NothingAfterLast(read: FloatReader, pages: seq<Option<bytes>>)
    ensures CombinedFrom(read, pages, |pages|) == []
  {
  }

  lemma ReadablePage(read: FloatReader, pages: seq<Option<bytes>>, j: nat, text: bytes)
    requires j < |pages| && pages[j].Some?
    requires var line, here := PageText(read, pages[j]), Offset(read, pages, j);
      here + |line| <= |text| && text[here..here + |line|] == line
    ensures PageStandsAt(read, pages, text, j)
  {
    hide Extracted, Offset;
  }

  function InputSize(pages: seq<Option<bytes>>, k: nat): nat
    requires k <= |pages|
    decreases |pages| - k
  {
    if k == |pages| then 0
    else (if pages[k].Some? then |pages[k].value| + 1 else 0) + InputSize(pages, k + 1)
  }

  lemma {:induction false} CombinedSize(read: FloatReader, pages: seq<Option<bytes>>, k: nat)
    requires k <= |pages|
    ensures |CombinedFrom(read, pages, k)| <= InputSize(pages, k)
    decreases |pages| - k
  {
    hide Extracted;
    if k < |pages| {
      CombinedSize(read, pages, k + 1);
      if pages[k].Some? {
        ExtractorProperties.OutputNeverExceedsInput(read, pages[k].value);
      }
    }
  }

  lemma TextNeverExceedsPages(read: FloatReader, pages: seq<Option<bytes>>)
    ensures |Extract(read, Entries(pages)).text| <= InputSize(pages, 0)
  {
    CombinedSize(read, pages, 0);
  }
}
