/**
 * Character classes of the regular expressions in string-utils.ts and tpls.ts,
 * and single-character case mapping.
 *
 * Characters are Unicode scalar values. Case mapping is the one-to-one part of
 * JavaScript's toUpperCase/toLowerCase on ASCII and Latin-1; every other
 * character is mapped to itself.
 */
module Chars {

  /** JavaScript's `\s`, which is also exactly what String.prototype.trim removes. */
  predicate IsWhitespace(c: char) {
    var n := c as int;
    (0x09 <= n <= 0x0D) || n == 0x20 || n == 0xA0 || n == 0x1680
    || (0x2000 <= n <= 0x200A) || n == 0x2028 || n == 0x2029 || n == 0x202F
    || n == 0x205F || n == 0x3000 || n == 0xFEFF
  }

  /** Every printable ASCII character that is neither a letter, a digit nor a space. */
  predicate IsAsciiPunctuation(c: char) {
    var n := c as int;
    (0x21 <= n <= 0x2F) || (0x3A <= n <= 0x40) || (0x5B <= n <= 0x60) || (0x7B <= n <= 0x7E)
  }

  /**
   * The class of `wordSeparators`: `\s`, U+2000..U+206F, U+2E00..U+2E7F and the
   * listed ASCII punctuation, which is all of it.
   */
  predicate IsSeparator(c: char) {
    var n := c as int;
    IsWhitespace(c) || (0x2000 <= n <= 0x206F) || (0x2E00 <= n <= 0x2E7F) || IsAsciiPunctuation(c)
  }

  predicate IsWordChar(c: char) {
    !IsSeparator(c)
  }

  predicate IsAsciiUpper(c: char) {
    'A' <= c <= 'Z'
  }

  predicate IsAsciiLower(c: char) {
    'a' <= c <= 'z'
  }

  predicate IsDigit(c: char) {
    '0' <= c <= '9'
  }

  /** `[A-ZÀ-ÝÀ-ÖÙ-Ý]`: the class of `capitals` (U+00D7 included). */
  predicate IsCapital(c: char) {
    IsAsciiUpper(c) || (0xC0 <= c as int <= 0xDD)
  }

  /** `[a-zà-ÿ]`: the second character of `capital_plus_lower`. */
  predicate IsSmall(c: char) {
    IsAsciiLower(c) || (0xE0 <= c as int <= 0xFF)
  }

  /** `[A-ZÀ-Ü]`: the class of `fourOrMoreConsecutiveCapsRegEx` and `allCapsRegEx`. */
  predicate IsAcronymCapital(c: char) {
    IsAsciiUpper(c) || (0xC0 <= c as int <= 0xDC)
  }

  /** `[a-zà-üA-ZÀ-Ü]`: the letters of `basicCamelRegEx`. */
  predicate IsCamelLetter(c: char) {
    IsAsciiLower(c) || (0xE0 <= c as int <= 0xFC) || IsAcronymCapital(c)
  }

  /** The characters `basicCamelRegEx` allows after the first: `[\d|a-z...]`. */
  predicate IsCamelTail(c: char) {
    IsDigit(c) || c == '|' || IsCamelLetter(c)
  }

  /** toUpperCase of one character: a-z, à-þ except ÷, ÿ to Ÿ and µ to Μ. */
  function Upper(c: char): char {
    var n := c as int;
    if IsAsciiLower(c) || (0xE0 <= n <= 0xFE && n != 0xF7) then (n - 32) as char
    else if n == 0xFF then 0x178 as char
    else if n == 0xB5 then 0x39C as char
    else c
  }

  /** toLowerCase of one character: A-Z and À-Þ except ×. */
  function Lower(c: char): char {
    var n := c as int;
    if IsAsciiUpper(c) || (0xC0 <= n <= 0xDE && n != 0xD7) then (n + 32) as char
    else c
  }

  /** The case-insensitive identity of a character: two characters are the same letter when their folds agree. */
  function Fold(c: char): char {
    Lower(Upper(c))
  }

  lemma UpperIdempotent(c: char)
    ensures Upper(Upper(c)) == Upper(c)
  {
  }

  lemma LowerIdempotent(c: char)
    ensures Lower(Lower(c)) == Lower(c)
  {
  }

  lemma FoldOfCaseMapping(c: char)
    ensures Fold(Upper(c)) == Fold(c)
    ensures Fold(Lower(c)) == Fold(c)
    ensures Upper(Lower(c)) == Upper(c)
  {
  }

  lemma CaseMappingKeepsSeparators(c: char)
    ensures IsSeparator(Upper(c)) <==> IsSeparator(c)
    ensures IsSeparator(Lower(c)) <==> IsSeparator(c)
    ensures IsSeparator(Fold(c)) <==> IsSeparator(c)
  {
  }

  lemma LowerRemovesAsciiUpper(c: char)
    ensures !IsAsciiUpper(Lower(c))
    ensures IsAcronymCapital(c) ==> Upper(c) == c
  {
  }

  /** What lower-casing a run of `capitals` does to one character: capitals are lowered, the rest kept. */
  function LowerCapital(c: char): char {
    if IsCapital(c) then Lower(c) else c
  }

  /** Lowering a capital first changes nothing that `LowerCapital` then does. */
  lemma LowerCapitalOfLower(c: char)
    requires IsCapital(c)
    ensures LowerCapital(Lower(c)) == LowerCapital(c)
  {
  }

  /** No ASCII capital survives `LowerCapital`. */
  lemma LowerCapitalRemovesAsciiUpper(c: char)
    ensures !IsAsciiUpper(LowerCapital(c))
    ensures IsSeparator(LowerCapital(c)) <==> IsSeparator(c)
  {
  }
}
