/**
 NUL-terminated strings as the C sources see them: a sequence of `char` values
 without NUL, read with a NUL after the last one.
 */
module CStrings {

  /** A plain `char` is a signed byte. */
  type Char = c: int | -128 <= c < 128

  ghost predicate NulFree(s: seq<Char>) {
    forall i :: 0 <= i < |s| ==> s[i] != 0
  }

  type CString = s: seq<Char> | NulFree(s)

  const NUL: Char := 0
  const SPACE: Char := 32
  const ZERO: Char := 48

  /** Reads `s[i]`; the position after the last character holds the NUL. */
  function At(s: seq<Char>, i: nat): Char {
    if i < |s| then s[i] else NUL
  }

  // The ctype predicates of the POSIX locale.

  predicate IsSpace(c: Char) { c == SPACE || 9 <= c <= 13 }

  predicate IsUpper(c: Char) { 65 <= c <= 90 }

  predicate IsLower(c: Char) { 97 <= c <= 122 }

  function ToLower(c: Char): Char {
    if IsUpper(c) then c + 32 else c
  }

  function ToUpper(c: Char): Char {
    if IsLower(c) then c - 32 else c
  }
}
