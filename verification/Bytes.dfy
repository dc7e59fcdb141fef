// Raw bytes and the byte classes of the content-stream mini-language.
module Bytes {
  newtype byte = b: int | 0 <= b < 256

  type bytes = seq<byte>

  datatype Option<+T> = None | Some(value: T)

  const NUL: byte := 0
  const BACKSPACE: byte := 8
  const TAB: byte := 9
  const LF: byte := 10
  const FF: byte := 12
  const CR: byte := 13
  const SPACE: byte := 32
  const PERCENT: byte := 37
  const LPAREN: byte := 40
  const RPAREN: byte := 41
  const SLASH: byte := 47
  const ZERO: byte := 48
  const LT: byte := 60
  const GT: byte := 62
  const LBRACKET: byte := 91
  const BACKSLASH: byte := 92
  const RBRACKET: byte := 93
  const LBRACE: byte := 123
  const RBRACE: byte := 125

  predicate IsNewline(b: byte) {
    b == LF || b == CR
  }

  predicate IsWhite(b: byte) {
    b == SPACE || b == TAB || b == CR || b == LF || b == FF || b == NUL
  }

  // isDelimiterByte: white space and the ten delimiters that end a bare token.
  predicate IsDelimiter(b: byte) {
    || IsWhite(b)
    || b == LPAREN || b == RPAREN || b == LT || b == GT || b == LBRACKET || b == RBRACKET
    || b == LBRACE || b == RBRACE || b == PERCENT || b == SLASH
  }

  // Section 7.2.2 of ISO 32000-1, in literal bytes.
  lemma ByteClasses(b: byte)
    ensures IsNewline(b) <==> b in {10, 13}
    ensures IsWhite(b) <==> b in {0, 9, 10, 12, 13, 32}
    ensures IsDelimiter(b) <==> IsWhite(b) || b in {37, 40, 41, 47, 60, 62, 91, 93, 123, 125}
  {
  }

  lemma NamedBytes()
    ensures [NUL, BACKSPACE, TAB, LF, FF, CR, SPACE] == [0, 8, 9, 10, 12, 13, 32]
    ensures [PERCENT, LPAREN, RPAREN, SLASH, LT, GT] == [37, 40, 41, 47, 60, 62]
    ensures [ZERO, LBRACKET, BACKSLASH, RBRACKET, LBRACE, RBRACE] == [48, 91, 92, 93, 123, 125]
  {
  }

  lemma Assoc<T>(a: seq<T>, b: seq<T>, c: seq<T>)
    ensures a + (b + c) == (a + b) + c
  {
  }

  lemma Slices<T>(s: seq<T>, i: nat, j: nat, k: nat)
    requires i <= j <= k <= |s|
    ensures s[i..k] == s[i..j] + s[j..k]
  {
  }

  lemma SliceShift<T>(a: seq<T>, b: seq<T>, i: nat, j: nat)
    requires i <= j <= |b|
    ensures (a + b)[|a| + i..|a| + j] == b[i..j]
  {
  }

  // Dropping the last element of a slice that ends just past k.
  lemma SliceInit<T>(s: seq<T>, i: nat, k: nat)
    requires i <= k < |s|
    ensures s[i..k + 1][..|s[i..k + 1]| - 1] == s[i..k] && s[i..k + 1] == s[i..k] + [s[k]]
  {
  }
}
