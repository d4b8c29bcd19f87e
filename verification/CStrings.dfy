/**
 Bytes, NUL-terminated strings and the <ctype.h> classes of the "C" locale.
 A C string is modelled by the bytes before its terminator, so it holds no NUL.
 */
module CStrings {

  type Byte = x: int | 0 <= x < 256
  type Char = x: int | 1 <= x < 256 witness 1
  type CString = seq<Char>

  datatype Option<+T> = None | Some(value: T)

  const NUL: Byte := 0
  const SPACE: Char := 32
  const QUOTE: Char := 34
  const COMMA: Char := 44

  predicate IsSpace(c: Byte): (space: bool)
    ensures space <==> c in {9, 10, 11, 12, 13, 32}
  {
    c == 32 || 9 <= c <= 13
  }

  function ToLower(c: Char): Char {
    if 65 <= c <= 90 then c + 32 else c
  }

  predicate AllSpace(s: CString) {
    forall i :: 0 <= i < |s| ==> IsSpace(s[i])
  }

  /** Two characters are the same in lower case exactly if they are the same or one letter in both cases. */
  lemma SameLetter(c: Char, d: Char)
    ensures ToLower(c) == ToLower(d) <==>
      c == d || (65 <= c <= 90 && d == c + 32) || (65 <= d <= 90 && c == d + 32)
  {
  }
}
