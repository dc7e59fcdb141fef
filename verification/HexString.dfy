// Hexadecimal strings "< ... >" of section 7.3.4.3 of ISO 32000-1.
module HexString {
  import opened Bytes

  predicate IsHexDigit(b: byte) {
    || '0' as byte <= b <= '9' as byte
    || 'a' as byte <= b <= 'f' as byte
    || 'A' as byte <= b <= 'F' as byte
  }

  // The value of a hexadecimal digit; 0 for any other byte.
  function HexValue(b: byte): (v: byte)
    ensures v < 16
  {
    if '0' as byte <= b <= '9' as byte then b - '0' as byte
    else if 'a' as byte <= b <= 'f' as byte then b - 'a' as byte + 10
    else if 'A' as byte <= b <= 'F' as byte then b - 'A' as byte + 10
    else 0
  }

  // strconv.ParseUint on two characters, base 16, 8 bits: an error unless both are digits.
  function ParseHexPair(hi: byte, lo: byte): Option<byte> {
    if IsHexDigit(hi) && IsHexDigit(lo) then Some(HexValue(hi) * 16 + HexValue(lo)) else None
  }

  // The least index from i on that holds '>', or the end of the data.
  function HexEnd(data: bytes, i: nat): (e: nat)
    requires i <= |data|
    ensures i <= e <= |data|
    ensures forall x :: i <= x < e ==> data[x] != GT
    ensures e < |data| ==> data[e] == GT
    decreases |data| - i
  {
    if i == |data| || data[i] == GT then i else HexEnd(data, i + 1)
  }

  // The hexadecimal digits of s, in order.
  function Digits(s: bytes): (ds: bytes)
    ensures |ds| <= |s|
  {
    if s == [] then []
    else Digits(s[..|s| - 1]) + if IsHexDigit(s[|s| - 1]) then [s[|s| - 1]] else []
  }

  // Digits taken two at a time from index k on, the last one paired with a 0 when it is alone.
  function DecodeFrom(ds: bytes, k: nat): (text: bytes)
    requires k <= |ds|
    ensures |text| == (|ds| - k + 1) / 2
    decreases |ds| - k
  {
    if k == |ds| then []
    else if k + 1 == |ds| then [HexValue(ds[k]) * 16]
    else [HexValue(ds[k]) * 16 + HexValue(ds[k + 1])] + DecodeFrom(ds, k + 2)
  }

  function Decode(ds: bytes): (text: bytes)
    ensures |text| == (|ds| + 1) / 2
  {
    DecodeFrom(ds, 0)
  }

  datatype Scanned = Scanned(text: bytes, next: nat, closed: bool)

  // The hexadecimal string whose opening '<' stands just before i.
  function Scan(data: bytes, i: nat): (r: Scanned)
    requires i <= |data|
    ensures i <= r.next <= |data| && |r.text| <= r.next - i
    ensures r.closed ==> r.next > i
    ensures !r.closed ==> r.next == |data|
  {
    var e := HexEnd(data, i);
    Scanned(Decode(Digits(data[i..e])), if e < |data| then e + 1 else e, e < |data|)
  }

  lemma {:induction false} DecodePadded(ds: bytes, k: nat)
    requires k <= |ds| && (|ds| - k) % 2 == 1
    ensures DecodeFrom(ds + [ZERO], k) == DecodeFrom(ds, k)
    decreases |ds| - k
  {
    var p := ds + [ZERO];
    if k + 1 == |ds| {
      assert DecodeFrom(p, k + 2) == [];
    } else {
      DecodePadded(ds, k + 2);
      assert p[k] == ds[k] && p[k + 1] == ds[k + 1];
    }
  }

  // One pair of digits converted and appended to what has been decoded before it.
  lemma PairAppend(text: bytes, ds: bytes, k: nat)
    requires k + 1 < |ds|
    ensures text + DecodeFrom(ds, k)
            == text + [HexValue(ds[k]) * 16 + HexValue(ds[k + 1])] + DecodeFrom(ds, k + 2)
  {
    Assoc(text, [HexValue(ds[k]) * 16 + HexValue(ds[k + 1])], DecodeFrom(ds, k + 2));
  }

  // The conversion loop of parseHexString. The conversion never fails, so no pair is dropped.
  method ConvertPairs(hexDigits: bytes) returns (text: bytes, ghost steps: nat)
    requires |hexDigits| % 2 == 0
    requires forall k :: 0 <= k < |hexDigits| ==> IsHexDigit(hexDigits[k])
    ensures text == Decode(hexDigits)
    ensures 2 * steps == |hexDigits|
  {
    text := [];
    steps := 0;
    var k := 0;
    while k + 1 < |hexDigits|
      invariant 0 <= k <= |hexDigits| && k % 2 == 0
      invariant text + DecodeFrom(hexDigits, k) == Decode(hexDigits)
      invariant 2 * steps == k
      decreases |hexDigits| - k
    {
      PairAppend(text, hexDigits, k);
      var b := ParseHexPair(hexDigits[k], hexDigits[k + 1]);
      assert b == Some(HexValue(hexDigits[k]) * 16 + HexValue(hexDigits[k + 1]));
      if b.Some? {
        text := text + [b.value];
      }
      k := k + 2;
      steps := steps + 1;
    }
  }

  // The scanning loop of parseHexString.
  method CollectDigits(data: bytes, start: nat) returns (hexDigits: bytes, i: nat, ghost steps: nat)
    requires start <= |data|
    ensures start <= i && i == HexEnd(data, start)
    ensures hexDigits == Digits(data[start..i])
    ensures forall k :: 0 <= k < |hexDigits| ==> IsHexDigit(hexDigits[k])
    ensures steps == i - start
  {
    hexDigits, i, steps := [], start, 0;
    while i < |data| && data[i] != GT
      invariant start <= i <= |data|
      invariant HexEnd(data, start) == HexEnd(data, i)
      invariant hexDigits == Digits(data[start..i])
      invariant forall k :: 0 <= k < |hexDigits| ==> IsHexDigit(hexDigits[k])
      invariant steps == i - start
    {
      SliceInit(data, start, i);
      if IsHexDigit(data[i]) {
        hexDigits := hexDigits + [data[i]];
      }
      i := i + 1;
      steps := steps + 1;
    }
  }

  // parseHexString. `steps` counts the iterations of both loops.
  method ParseHexString(data: bytes, start: nat) returns (text: bytes, next: nat, ghost steps: nat)
    requires start < |data|
    ensures var r := Scan(data, start + 1); text == r.text && next == r.next
    ensures start < next <= |data|
    ensures steps <= 2 * (next - start) - 1
  {
    var hexDigits, i, scanned := CollectDigits(data, start + 1);
    next := i;
    if i < |data| {
      next := i + 1;
    }
    ghost var digits := hexDigits;
    if |hexDigits| % 2 == 1 {
      DecodePadded(hexDigits, 0);
      hexDigits := hexDigits + [ZERO];
    }
    var converted, more := ConvertPairs(hexDigits);
    text := converted;
    steps := scanned + more;
    hide DecodeFrom, Digits, HexEnd;
    assert |digits| <= i - start - 1;
  }

  // ---------------------------------------------------------------------------------------------
  // Decoding inverts writing each byte as two digits, whatever the letter case.

  function Nibbles(text: bytes): bytes {
    if text == [] then [] else [text[0] / 16, text[0] % 16] + Nibbles(text[1..])
  }

  function DigitValues(ds: bytes): bytes {
    if ds == [] then [] else [HexValue(ds[0])] + DigitValues(ds[1..])
  }

  lemma TwoDigitValues(hi: byte, lo: byte, rest: bytes)
    ensures DigitValues([hi, lo] + rest) == [HexValue(hi), HexValue(lo)] + DigitValues(rest)
  {
    assert ([hi, lo] + rest)[1..] == [lo] + rest && ([lo] + rest)[1..] == rest;
  }

  lemma PairIsExact(ds: bytes, k: nat)
    requires k + 1 < |ds|
    ensures Nibbles(DecodeFrom(ds, k)) == [HexValue(ds[k]), HexValue(ds[k + 1])] + Nibbles(DecodeFrom(ds, k + 2))
    ensures DigitValues(ds[k..]) == [HexValue(ds[k]), HexValue(ds[k + 1])] + DigitValues(ds[k + 2..])
  {
    assert ds[k..] == [ds[k], ds[k + 1]] + ds[k + 2..];
    TwoDigitValues(ds[k], ds[k + 1], ds[k + 2..]);
    assert DecodeFrom(ds, k)[1..] == DecodeFrom(ds, k + 2);
    hide DigitValues, HexValue;
  }

  lemma TailIsExact(ds: bytes, k: nat)
    requires k <= |ds| <= k + 1
    ensures Nibbles(DecodeFrom(ds, k)) == DigitValues(ds[k..]) + if k < |ds| then [0] else []
  {
    if k < |ds| {
      assert ds[k..] == [ds[k]] && [ds[k]][1..] == [] && DecodeFrom(ds, k)[1..] == [];
    } else {
      assert ds[k..] == [];
    }
  }

  lemma {:induction false} DecodeFromIsExact(ds: bytes, k: nat)
    requires k <= |ds|
    ensures Nibbles(DecodeFrom(ds, k)) == DigitValues(ds[k..]) + if (|ds| - k) % 2 == 1 then [0] else []
    decreases |ds| - k
  {
    hide *;
    if k + 1 < |ds| {
      DecodeFromIsExact(ds, k + 2);
      PairIsExact(ds, k);
    } else {
      TailIsExact(ds, k);
    }
  }

  // d digits decode to ceil(d / 2) bytes whose nibbles are the digits' values, an odd tail being
  // padded by 0.
  lemma {:induction false} DecodeIsExact(ds: bytes)
    ensures Nibbles(Decode(ds)) == DigitValues(ds) + if |ds| % 2 == 1 then [0] else []
  {
    DecodeFromIsExact(ds, 0);
    assert ds[0..] == ds;
  }

  lemma {:induction false} NibblesInjective(x: bytes, y: bytes)
    requires Nibbles(x) == Nibbles(y)
    ensures x == y
  {
    assert |x| > 0 ==> Nibbles(x)[0] == x[0] / 16 && Nibbles(x)[1] == x[0] % 16 && Nibbles(x)[2..] == Nibbles(x[1..]);
    assert |y| > 0 ==> Nibbles(y)[0] == y[0] / 16 && Nibbles(y)[1] == y[0] % 16 && Nibbles(y)[2..] == Nibbles(y[1..]);
    if |x| > 0 && |y| > 0 {
      NibblesInjective(x[1..], y[1..]);
      assert x == [x[0]] + x[1..] && y == [y[0]] + y[1..];
    }
  }

  // `body` holds no '>' and its digits, between any other bytes and in any letter case, spell `text`.
  predicate Spells(body: bytes, text: bytes) {
    GT !in body && DigitValues(Digits(body)) == Nibbles(text)
  }

  lemma {:induction false} NibblesEven(text: bytes)
    ensures |Nibbles(text)| == 2 * |text|
  {
    if text != [] {
      NibblesEven(text[1..]);
    }
  }

  lemma {:induction false} DigitValuesLength(ds: bytes)
    ensures |DigitValues(ds)| == |ds|
  {
    if ds != [] {
      DigitValuesLength(ds[1..]);
    }
  }

  lemma {:induction false} HexEndBody(body: bytes, rest: bytes, i: nat)
    requires GT !in body && i <= |body|
    requires rest == [] || rest[0] == GT
    ensures HexEnd(body + rest, i) == |body|
    decreases |body| - i
  {
    if i < |body| {
      HexEndBody(body, rest, i + 1);
    }
  }

  lemma DecodeSpelling(body: bytes, text: bytes)
    requires Spells(body, text)
    ensures Decode(Digits(body)) == text
  {
    DigitValuesLength(Digits(body));
    NibblesEven(text);
    DecodeIsExact(Digits(body));
    NibblesInjective(Decode(Digits(body)), text);
  }

  lemma ScanReadsSpelling(body: bytes, text: bytes, after: bytes)
    requires Spells(body, text)
    ensures Scan(body + ([GT] + after), 0) == Scanned(text, |body| + 1, true)
  {
    var data := body + ([GT] + after);
    HexEndBody(body, [GT] + after, 0);
    assert data[0..|body|] == body;
    DecodeSpelling(body, text);
  }

  // Round trip, whatever stands before and after the string.
  lemma RoundTrip(before: bytes, body: bytes, text: bytes, after: bytes)
    requires Spells(body, text)
    ensures Scan(before + [LT] + (body + ([GT] + after)), |before| + 1)
            == Scanned(text, |before| + |body| + 2, true)
  {
    ScanReadsSpelling(body, text, after);
    ScanShift(before + [LT], body + ([GT] + after), 0);
  }

  // ---------------------------------------------------------------------------------------------
  // The digits, from two literal alphabets.

  const LOWER: string := "0123456789abcdef"
  const UPPER: string := "0123456789ABCDEF"

  // The digit of value v in either case.
  function Digit(v: byte, upper: bool): byte
    requires v < 16
  {
    (if upper then UPPER else LOWER)[v as int] as byte
  }

  lemma DigitHasItsValue(v: byte, upper: bool)
    requires v < 16
    ensures IsHexDigit(Digit(v, upper)) && HexValue(Digit(v, upper)) == v
  {
  }

  lemma HexDigitExactlyWhen(b: byte)
    ensures IsHexDigit(b) <==> exists v: byte, upper :: v < 16 && Digit(v, upper) == b
  {
    if IsHexDigit(b) {
      var v := HexValue(b);
      assert Digit(v, false) == b || Digit(v, true) == b;
    }
    forall v: byte, upper | v < 16
      ensures IsHexDigit(Digit(v, upper))
    {
      DigitHasItsValue(v, upper);
    }
  }

  // Two digits a byte, each in the case picked for it.
  function Picked(text: bytes, upper: seq<bool>): bytes
    requires |upper| == 2 * |text|
  {
    if text == [] then []
    else [Digit(text[0] / 16, upper[0]), Digit(text[0] % 16, upper[1])] + Picked(text[1..], upper[2..])
  }

  lemma {:induction false} PickedSpells(text: bytes, upper: seq<bool>)
    requires |upper| == 2 * |text|
    ensures DigitValues(Picked(text, upper)) == Nibbles(text)
  {
    if text != [] {
      PickedSpells(text[1..], upper[2..]);
      var hi, lo := Digit(text[0] / 16, upper[0]), Digit(text[0] % 16, upper[1]);
      DigitHasItsValue(text[0] / 16, upper[0]);
      DigitHasItsValue(text[0] % 16, upper[1]);
      TwoDigitValues(hi, lo, Picked(text[1..], upper[2..]));
      hide HexValue, Digit;
    }
  }

  // Round trip for digits of either case, between any bytes that are neither digits nor '>'.
  lemma RoundTripInEitherCase(before: bytes, body: bytes, text: bytes, upper: seq<bool>, after: bytes)
    requires |upper| == 2 * |text| && GT !in body && Digits(body) == Picked(text, upper)
    ensures Scan(before + [LT] + (body + ([GT] + after)), |before| + 1)
            == Scanned(text, |before| + |body| + 2, true)
  {
    PickedSpells(text, upper);
    RoundTrip(before, body, text, after);
  }

  // Every byte string has a spelling: lower-case digits and nothing else.
  function DigitOf(v: byte): (d: byte)
    requires v < 16
    ensures IsHexDigit(d) && HexValue(d) == v
    ensures d == Digit(v, false)
  {
    if v < 10 then '0' as byte + v else 'a' as byte + (v - 10)
  }

  function LowerCase(text: bytes): (body: bytes)
    ensures GT !in body
  {
    if text == [] then []
    else LowerCase(text[..|text| - 1]) + [DigitOf(text[|text| - 1] / 16), DigitOf(text[|text| - 1] % 16)]
  }

  lemma {:induction false} LowerCaseAt(text: bytes, k: nat)
    requires k < |text|
    ensures |LowerCase(text)| == 2 * |text|
    ensures LowerCase(text)[2 * k] == Digit(text[k] / 16, false)
    ensures LowerCase(text)[2 * k + 1] == Digit(text[k] % 16, false)
  {
    var init := text[..|text| - 1];
    if k < |init| {
      LowerCaseAt(init, k);
    } else if init != [] {
      LowerCaseAt(init, 0);
    }
  }

  lemma {:induction false} DigitsAppend(s: bytes, hi: byte, lo: byte)
    requires IsHexDigit(hi) && IsHexDigit(lo)
    ensures Digits(s + [hi, lo]) == Digits(s) + [hi, lo]
  {
    var t := s + [hi, lo];
    assert t[..|t| - 1] == s + [hi];
    assert (s + [hi])[..|s|] == s;
  }

  lemma {:induction false} DigitValuesConcat(x: bytes, y: bytes)
    ensures DigitValues(x + y) == DigitValues(x) + DigitValues(y)
  {
    if x == [] {
      assert x + y == y;
    } else {
      assert (x + y)[1..] == x[1..] + y;
      DigitValuesConcat(x[1..], y);
    }
  }

  lemma {:induction false} NibblesConcat(x: bytes, y: bytes)
    ensures Nibbles(x + y) == Nibbles(x) + Nibbles(y)
  {
    if x == [] {
      assert x + y == y;
    } else {
      assert (x + y)[1..] == x[1..] + y;
      NibblesConcat(x[1..], y);
    }
  }

  lemma TwoDigits(b: byte)
    ensures DigitValues([DigitOf(b / 16), DigitOf(b % 16)]) == Nibbles([b])
  {
    var ds := [DigitOf(b / 16), DigitOf(b % 16)];
    assert ds[1..] == [ds[1]] && [ds[1]][1..] == [] && [b][1..] == [];
    assert DigitValues(ds) == [b / 16, b % 16] + DigitValues([]);
    assert Nibbles([b]) == [b / 16, b % 16] + Nibbles([]);
  }

  lemma {:induction false} EveryStringHasASpelling(text: bytes)
    ensures Spells(LowerCase(text), text)
  {
    if text != [] {
      var init, b := text[..|text| - 1], text[|text| - 1];
      EveryStringHasASpelling(init);
      DigitsAppend(LowerCase(init), DigitOf(b / 16), DigitOf(b % 16));
      DigitValuesConcat(Digits(LowerCase(init)), [DigitOf(b / 16), DigitOf(b % 16)]);
      TwoDigits(b);
      NibblesConcat(init, [b]);
      assert text == init + [b];
    }
  }

  // ---------------------------------------------------------------------------------------------
  // Stability under appended bytes, and under bytes put in front.

  lemma {:induction false} HexEndStable(a: bytes, b: bytes, i: nat)
    requires i <= |a| && HexEnd(a, i) < |a|
    ensures HexEnd(a + b, i) == HexEnd(a, i)
    decreases |a| - i
  {
    assert (a + b)[i] == a[i];
    if a[i] != GT {
      HexEndStable(a, b, i + 1);
    }
  }

  lemma PrefixStability(a: bytes, b: bytes, i: nat)
    requires i <= |a| && Scan(a, i).closed
    ensures Scan(a + b, i) == Scan(a, i)
  {
    HexEndStable(a, b, i);
    var e := HexEnd(a, i);
    assert (a + b)[i..e] == a[i..e];
  }

  lemma {:induction false} HexEndShift(a: bytes, b: bytes, i: nat)
    requires i <= |b|
    ensures HexEnd(a + b, |a| + i) == |a| + HexEnd(b, i)
    decreases |b| - i
  {
    if i < |b| && b[i] != GT {
      HexEndShift(a, b, i + 1);
    }
  }

  lemma ScanShift(a: bytes, b: bytes, i: nat)
    requires i <= |b|
    ensures var r := Scan(b, i); Scan(a + b, |a| + i) == r.(next := |a| + r.next)
  {
    HexEndShift(a, b, i);
    SliceShift(a, b, i, HexEnd(b, i));
  }
}
