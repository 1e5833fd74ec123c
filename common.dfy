/**
 * Shared vocabulary: bytes, the ASCII codes the program compares against,
 * and the Option/Result wrappers that stand for Go's panics and error returns.
 */
module Common {

  /** A Go `byte`. */
  type byte = x: int | 0 <= x < 256

  datatype Option<+T> = None | Some(value: T)

  datatype Result<+T, +E> = Success(value: T) | Failure(error: E)

  const NEWLINE: byte := 10
  const SPACE: byte := 32
  const COMMA: byte := 44
  const MINUS: byte := 45
  const DOT: byte := 46
  const SLASH: byte := 47
  const ZERO: byte := 48
  const NINE: byte := 57
  const SEMICOLON: byte := 59
  const EQUALS: byte := 61
  const LBRACE: byte := 123
  const RBRACE: byte := 125

  predicate IsDigit(b: byte) {
    ZERO <= b <= NINE
  }

  /** The bytes of an ASCII/Latin-1 string literal, as Go's `[]byte("...")`. */
  function FromString(s: string): (r: seq<byte>)
    requires forall i :: 0 <= i < |s| ==> s[i] as int < 256
    ensures |r| == |s|
    ensures forall i :: 0 <= i < |s| ==> r[i] == s[i] as int
  {
    if s == [] then [] else [s[0] as int] + FromString(s[1..])
  }
}
