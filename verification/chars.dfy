/**
 * Character classes the bot's regular expressions rely on: Python's `\s`
 * (whitespace), `\w` (word characters, for `\b`) and `str.lower()`.
 * `\w` is restricted to ASCII and the Cyrillic block U+0400-U+04FF; lower-casing
 * covers A-Z and the Cyrillic capitals U+0400-U+042F.
 */
module Chars {

  /** Python's `\s` on `str`: the characters for which `str.isspace()` holds. */
  predicate IsSpace(c: char) {
    || c == ' '
    || '\t' <= c <= '\r'
    || '\U{1C}' <= c <= '\U{1F}'
    || c == '\U{85}'
    || c == '\U{A0}'
    || c == '\U{1680}'
    || '\U{2000}' <= c <= '\U{200A}'
    || c == '\U{2028}'
    || c == '\U{2029}'
    || c == '\U{202F}'
    || c == '\U{205F}'
    || c == '\U{3000}'
  }

  predicate IsAsciiUpper(c: char) { 'A' <= c <= 'Z' }

  predicate IsCyrillicUpper(c: char) { '\U{400}' <= c <= '\U{42F}' }

  predicate IsCyrillicLetter(c: char) {
    ('\U{400}' <= c <= '\U{481}') || ('\U{48A}' <= c <= '\U{4FF}')
  }

  /** Python's `\w` restricted to ASCII and Cyrillic letters (U+0400-U+0481, U+048A-U+04FF), digits and `_`. */
  predicate IsWordChar(c: char) {
    || 'a' <= c <= 'z'
    || 'A' <= c <= 'Z'
    || '0' <= c <= '9'
    || c == '_'
    || IsCyrillicLetter(c)
  }

  /** `str.lower()` on one character: ASCII A-Z, Cyrillic А-Я and Ѐ-Џ. */
  function Lower(c: char): (r: char)
    ensures !IsAsciiUpper(r) && !IsCyrillicUpper(r)
    ensures !IsAsciiUpper(c) && !IsCyrillicUpper(c) ==> r == c
  {
    if IsAsciiUpper(c) then (c as int + 32) as char
    else if '\U{410}' <= c <= '\U{42F}' then (c as int + 32) as char
    else if '\U{400}' <= c <= '\U{40F}' then (c as int + 80) as char
    else c
  }

  /** The lower-case partner of each upper-case letter: A-Z and А-Я move up by 32, Ѐ-Џ by 80. */
  lemma LowerOfUpper(c: char)
    ensures IsAsciiUpper(c) ==> Lower(c) as int == c as int + 32
    ensures '\U{410}' <= c <= '\U{42F}' ==> Lower(c) as int == c as int + 32
    ensures '\U{400}' <= c <= '\U{40F}' ==> Lower(c) as int == c as int + 80
  {
  }

  /** Lower-casing keeps word characters and whitespace in their class. */
  lemma LowerKeepsClasses(c: char)
    ensures IsWordChar(Lower(c)) <==> IsWordChar(c)
    ensures IsSpace(Lower(c)) <==> IsSpace(c)
  {
  }

  /** `str.lower()`: lower-cases every character, keeping the length. */
  function LowerStr(s: string): (r: string)
    ensures |r| == |s|
    ensures forall k :: 0 <= k < |s| ==> r[k] == Lower(s[k])
  {
    seq(|s|, k requires 0 <= k < |s| => Lower(s[k]))
  }

  lemma LowerIdempotent(s: string)
    ensures LowerStr(LowerStr(s)) == LowerStr(s)
  {
  }
}
