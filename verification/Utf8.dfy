// UTF-8, section 3 of RFC 3629.
module Utf8 {
  import opened Bytes

  predicate IsScalar(c: int) {
    0 <= c < 0xD800 || 0xE000 <= c < 0x110000
  }

  function Encoded(c: int): (s: bytes)
    requires IsScalar(c)
    ensures 1 <= |s| <= 4
  {
    if c < 0x80 then [c as byte]
    else if c < 0x800 then [(0xC0 + c / 64) as byte, (0x80 + c % 64) as byte]
    else if c < 0x10000 then
      [(0xE0 + c / 64 / 64) as byte, (0x80 + c / 64 % 64) as byte, (0x80 + c % 64) as byte]
    else
      [(0xF0 + c / 64 / 64 / 64) as byte, (0x80 + c / 64 / 64 % 64) as byte, (0x80 + c / 64 % 64) as byte,
       (0x80 + c % 64) as byte]
  }

  // The encoding of c stands in s at i.
  predicate Stands(s: bytes, i: nat, c: int) {
    && IsScalar(c)
    && i + |Encoded(c)| <= |s|
    && s[i] == Encoded(c)[0]
    && (|Encoded(c)| > 1 ==> s[i + 1] == Encoded(c)[1])
    && (|Encoded(c)| > 2 ==> s[i + 2] == Encoded(c)[2])
    && (|Encoded(c)| > 3 ==> s[i + 3] == Encoded(c)[3])
  }

  // The code points whose encoding starts with a byte's payload and goes on with others.
  lemma Payload(a: int, b: int)
    requires 0 <= b < 64
    ensures (a * 64 + b) / 64 == a && (a * 64 + b) % 64 == b
  {
  }

  lemma StandsTwo(s: bytes, i: nat)
    requires i + 1 < |s| && 0xC2 <= s[i] <= 0xDF && 0x80 <= s[i + 1] <= 0xBF
    ensures var c := (s[i] as int - 0xC0) * 64 + s[i + 1] as int - 0x80;
      0x80 <= c < 0x800 && Stands(s, i, c) && |Encoded(c)| == 2
  {
    Payload(s[i] as int - 0xC0, s[i + 1] as int - 0x80);
  }

  lemma StandsThree(s: bytes, i: nat)
    requires i + 2 < |s| && 0xE0 <= s[i] <= 0xEF && 0x80 <= s[i + 1] <= 0xBF && 0x80 <= s[i + 2] <= 0xBF
    requires s[i] == 0xE0 ==> s[i + 1] >= 0xA0
    requires s[i] == 0xED ==> s[i + 1] <= 0x9F
    ensures var c := ((s[i] as int - 0xE0) * 64 + s[i + 1] as int - 0x80) * 64 + s[i + 2] as int - 0x80;
      0x800 <= c < 0x10000 && Stands(s, i, c) && |Encoded(c)| == 3
  {
    var a, b, d := s[i] as int - 0xE0, s[i + 1] as int - 0x80, s[i + 2] as int - 0x80;
    Payload(a, b);
    Payload(a * 64 + b, d);
  }

  lemma StandsFour(s: bytes, i: nat)
    requires i + 3 < |s| && 0xF0 <= s[i] <= 0xF4
    requires 0x80 <= s[i + 1] <= 0xBF && 0x80 <= s[i + 2] <= 0xBF && 0x80 <= s[i + 3] <= 0xBF
    requires s[i] == 0xF0 ==> s[i + 1] >= 0x90
    requires s[i] == 0xF4 ==> s[i + 1] <= 0x8F
    ensures var c := (((s[i] as int - 0xF0) * 64 + s[i + 1] as int - 0x80) * 64 + s[i + 2] as int - 0x80) * 64
                     + s[i + 3] as int - 0x80;
      0x10000 <= c && Stands(s, i, c) && |Encoded(c)| == 4
  {
    var a, b, d, e := s[i] as int - 0xF0, s[i + 1] as int - 0x80, s[i + 2] as int - 0x80, s[i + 3] as int - 0x80;
    Payload(a, b);
    Payload(a * 64 + b, d);
    Payload((a * 64 + b) * 64 + d, e);
  }
}
