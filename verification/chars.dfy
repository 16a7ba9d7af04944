/**
 * Character classes and case mappings that the source takes from the
 * JavaScript runtime: the white space of `String.prototype.trim` and `\s`,
 * the letters of `\p{L}`, the word characters of `\w`, and the simple
 * case mappings of `toLowerCase` / `toUpperCase`.
 *
 * White space is the exact ECMAScript set.  Letters are ASCII, Latin-1,
 * Latin Extended-A and -B and Latin Extended Additional, which hold every
 * Pali diacritic letter (ā ī ū ṁ ṃ ṅ ñ ṭ ḍ ṇ ḷ); other scripts are outside the
 * model.  The case mappings are the one-character mappings among those
 * letters; a letter whose partner lies outside them, or whose JavaScript
 * mapping is two characters long (İ, ŉ, ß, ǰ, ẖ–ẚ), keeps its case.
 */
module Chars {

  /** ECMAScript WhiteSpace and LineTerminator code points. */
  predicate IsSpace(c: char) {
    c == '\t' || c == '\n' || c == '\U{000B}' || c == '\U{000C}' || c == '\r' || c == ' '
    || c == '\U{00A0}' || c == '\U{1680}' || ('\U{2000}' <= c <= '\U{200A}')
    || c == '\U{2028}' || c == '\U{2029}' || c == '\U{202F}' || c == '\U{205F}'
    || c == '\U{3000}' || c == '\U{FEFF}'
  }

  /** Line terminators: the characters the regex `.` does not match. */
  predicate IsLineTerminator(c: char) {
    c == '\n' || c == '\r' || c == '\U{2028}' || c == '\U{2029}'
  }

  /** `\w`: ASCII letters, digits and underscore. */
  predicate IsWordChar(c: char) {
    ('a' <= c <= 'z') || ('A' <= c <= 'Z') || ('0' <= c <= '9') || c == '_'
  }

  /** In a run whose capitals have even code points, the small letter of a capital is the next code point. */
  function EvenPairDown(n: int): int { if n % 2 == 0 then n + 1 else n }
  /** In a run whose capitals have odd code points, the small letter of a capital is the next code point. */
  function OddPairDown(n: int): int { if n % 2 == 1 then n + 1 else n }
  /** The capital of a small letter in a run whose capitals have even code points. */
  function EvenPairUp(n: int): int { if n % 2 == 1 then n - 1 else n }
  /** The capital of a small letter in a run whose capitals have odd code points. */
  function OddPairUp(n: int): int { if n % 2 == 0 then n - 1 else n }

  /**
   * The lower-case code point of a code point, as a list of intervals in
   * increasing order: Basic Latin and Latin-1 (+32), the runs of alternating
   * capital/small pairs, and the capitals whose small letter lies elsewhere.
   */
  function LowerCode(n: int): (r: int)
    ensures n < 0x1F00 ==> 0 <= r < 0x1F00 || r == n
    ensures n >= 0x1F00 ==> r == n
  {
    if n < 0x41 then n
    else if n <= 0x5A then n + 32
    else if n < 0xC0 then n
    else if n <= 0xDE then (if n == 0xD7 then n else n + 32)
    else if n < 0x100 then n
    else if n <= 0x12F then EvenPairDown(n)
    else if n < 0x132 then n
    else if n <= 0x137 then EvenPairDown(n)
    else if n < 0x139 then n
    else if n <= 0x148 then OddPairDown(n)
    else if n < 0x14A then n
    else if n <= 0x177 then EvenPairDown(n)
    else if n == 0x178 then 0xFF
    else if n <= 0x17E then OddPairDown(n)
    else if n < 0x182 then n
    else if n <= 0x185 then EvenPairDown(n)
    else if n < 0x187 then n
    else if n <= 0x188 then OddPairDown(n)
    else if n < 0x18B then n
    else if n <= 0x18C then OddPairDown(n)
    else if n == 0x18E then 0x1DD
    else if n < 0x191 then n
    else if n <= 0x192 then OddPairDown(n)
    else if n < 0x198 then n
    else if n <= 0x199 then EvenPairDown(n)
    else if n < 0x1A0 then n
    else if n <= 0x1A5 then EvenPairDown(n)
    else if n < 0x1A7 then n
    else if n <= 0x1A8 then OddPairDown(n)
    else if n < 0x1AC then n
    else if n <= 0x1AD then EvenPairDown(n)
    else if n < 0x1AF then n
    else if n <= 0x1B0 then OddPairDown(n)
    else if n < 0x1B3 then n
    else if n <= 0x1B6 then OddPairDown(n)
    else if n < 0x1B8 then n
    else if n <= 0x1B9 then EvenPairDown(n)
    else if n < 0x1BC then n
    else if n <= 0x1BD then EvenPairDown(n)
    else if n < 0x1C4 then n
    else if n <= 0x1C5 then 0x1C6
    else if n < 0x1C7 then n
    else if n <= 0x1C8 then 0x1C9
    else if n < 0x1CA then n
    else if n <= 0x1CB then 0x1CC
    else if n < 0x1CD then n
    else if n <= 0x1DC then OddPairDown(n)
    else if n < 0x1DE then n
    else if n <= 0x1EF then EvenPairDown(n)
    else if n < 0x1F1 then n
    else if n <= 0x1F2 then 0x1F3
    else if n < 0x1F4 then n
    else if n <= 0x1F5 then EvenPairDown(n)
    else if n == 0x1F6 then 0x195
    else if n == 0x1F7 then 0x1BF
    else if n <= 0x21F then EvenPairDown(n)
    else if n == 0x220 then 0x19E
    else if n < 0x222 then n
    else if n <= 0x233 then EvenPairDown(n)
    else if n < 0x23B then n
    else if n <= 0x23C then OddPairDown(n)
    else if n == 0x23D then 0x19A
    else if n < 0x241 then n
    else if n <= 0x242 then OddPairDown(n)
    else if n == 0x243 then 0x180
    else if n < 0x246 then n
    else if n <= 0x24F then EvenPairDown(n)
    else if n < 0x1E00 then n
    else if n <= 0x1E95 then EvenPairDown(n)
    else if n == 0x1E9E then 0xDF
    else if n < 0x1EA0 then n
    else if n <= 0x1EFF then EvenPairDown(n)
    else n
  }

  /** The upper-case code point of a code point, in the same layout as `LowerCode`. */
  function UpperCode(n: int): (r: int)
    ensures n < 0x1F00 ==> 0 <= r < 0x1F00 || r == n
    ensures n >= 0x1F00 ==> r == n
  {
    if n < 0x61 then n
    else if n <= 0x7A then n - 32
    else if n < 0xE0 then n
    else if n <= 0xFE then (if n == 0xF7 then n else n - 32)
    else if n == 0xFF then 0x178
    else if n < 0x100 then n
    else if n <= 0x12F then EvenPairUp(n)
    else if n == 0x131 then 0x49
    else if n < 0x132 then n
    else if n <= 0x137 then EvenPairUp(n)
    else if n < 0x139 then n
    else if n <= 0x148 then OddPairUp(n)
    else if n < 0x14A then n
    else if n <= 0x177 then EvenPairUp(n)
    else if n < 0x179 then n
    else if n <= 0x17E then OddPairUp(n)
    else if n == 0x17F then 0x53
    else if n == 0x180 then 0x243
    else if n < 0x182 then n
    else if n <= 0x185 then EvenPairUp(n)
    else if n < 0x187 then n
    else if n <= 0x188 then OddPairUp(n)
    else if n < 0x18B then n
    else if n <= 0x18C then OddPairUp(n)
    else if n < 0x191 then n
    else if n <= 0x192 then OddPairUp(n)
    else if n == 0x195 then 0x1F6
    else if n < 0x198 then n
    else if n <= 0x199 then EvenPairUp(n)
    else if n == 0x19A then 0x23D
    else if n == 0x19E then 0x220
    else if n < 0x1A0 then n
    else if n <= 0x1A5 then EvenPairUp(n)
    else if n < 0x1A7 then n
    else if n <= 0x1A8 then OddPairUp(n)
    else if n < 0x1AC then n
    else if n <= 0x1AD then EvenPairUp(n)
    else if n < 0x1AF then n
    else if n <= 0x1B0 then OddPairUp(n)
    else if n < 0x1B3 then n
    else if n <= 0x1B6 then OddPairUp(n)
    else if n < 0x1B8 then n
    else if n <= 0x1B9 then EvenPairUp(n)
    else if n < 0x1BC then n
    else if n <= 0x1BD then EvenPairUp(n)
    else if n == 0x1BF then 0x1F7
    else if n < 0x1C5 then n
    else if n <= 0x1C6 then 0x1C4
    else if n < 0x1C8 then n
    else if n <= 0x1C9 then 0x1C7
    else if n < 0x1CB then n
    else if n <= 0x1CC then 0x1CA
    else if n <= 0x1DC then OddPairUp(n)
    else if n == 0x1DD then 0x18E
    else if n <= 0x1EF then EvenPairUp(n)
    else if n < 0x1F2 then n
    else if n <= 0x1F3 then 0x1F1
    else if n <= 0x1F5 then EvenPairUp(n)
    else if n < 0x1F8 then n
    else if n <= 0x21F then EvenPairUp(n)
    else if n < 0x222 then n
    else if n <= 0x233 then EvenPairUp(n)
    else if n < 0x23B then n
    else if n <= 0x23C then OddPairUp(n)
    else if n < 0x241 then n
    else if n <= 0x242 then OddPairUp(n)
    else if n < 0x246 then n
    else if n <= 0x24F then EvenPairUp(n)
    else if n < 0x1E00 then n
    else if n <= 0x1E95 then EvenPairUp(n)
    else if n == 0x1E9B then 0x1E60
    else if n < 0x1EA0 then n
    else if n <= 0x1EFF then EvenPairUp(n)
    else n
  }

  /** `\p{L}` restricted to the modelled Latin ranges. */
  predicate IsLetter(c: char) {
    IsLetterCode(c as int)
  }

  /** The title-case digraphs ǅ ǈ ǋ ǲ, between a capital digraph and a small one. */
  predicate IsTitleDigraph(c: char) {
    IsTitleDigraphCode(c as int)
  }

  /** Simple lower-case mapping of one character. */
  function Lower(c: char): char {
    LowerCode(c as int) as char
  }

  /** Simple upper-case mapping of one character. */
  function Upper(c: char): char {
    UpperCode(c as int) as char
  }

  /**
   * The case facts are proved on code points, block by block (Basic Latin to
   * Latin Extended-A, the two halves of Latin Extended-B, and the rest), so
   * that each proof follows the intervals of one block only.
   */

  /** The letters: ASCII, Latin-1, Latin Extended-A and -B, and Latin Extended Additional. */
  predicate IsLetterCode(n: int) {
    (0x61 <= n <= 0x7A) || (0x41 <= n <= 0x5A) || n == 0xAA || n == 0xB5 || n == 0xBA
    || (0xC0 <= n <= 0x24F && n != 0xD7 && n != 0xF7) || (0x1E00 <= n <= 0x1EFF)
  }

  predicate IsTitleDigraphCode(n: int) {
    n == 0x1C5 || n == 0x1C8 || n == 0x1CB || n == 0x1F2
  }

  /** Lower-casing yields neither ẞ nor a title-case digraph. */
  lemma LowerCodeImage(n: int)
    ensures LowerCode(n) != 0x1E9E && !IsTitleDigraphCode(LowerCode(n))
  {
  }

  /** Upper-casing yields no title-case digraph, and ẞ only from itself. */
  lemma UpperCodeImage(n: int)
    ensures !IsTitleDigraphCode(UpperCode(n))
    ensures UpperCode(n) == 0x1E9E ==> n == 0x1E9E
  {
  }

  lemma LowerCodeKeepsLetters(n: int)
    ensures IsLetterCode(n) <==> IsLetterCode(LowerCode(n))
    ensures !IsLetterCode(n) ==> LowerCode(n) == n
  {
  }

  lemma UpperCodeKeepsLetters(n: int)
    ensures IsLetterCode(n) <==> IsLetterCode(UpperCode(n))
    ensures !IsLetterCode(n) ==> UpperCode(n) == n
  {
  }

  lemma LowerCodeIdempotentLatin(n: int)
    requires n < 0x180
    ensures LowerCode(LowerCode(n)) == LowerCode(n)
  {
  }

  lemma LowerCodeIdempotentExtendedB1(n: int)
    requires 0x180 <= n < 0x1C4
    ensures LowerCode(LowerCode(n)) == LowerCode(n)
  {
  }

  lemma LowerCodeIdempotentExtendedB2(n: int)
    requires 0x1C4 <= n < 0x250
    ensures LowerCode(LowerCode(n)) == LowerCode(n)
  {
  }

  lemma LowerCodeIdempotentAdditional(n: int)
    requires 0x250 <= n
    ensures LowerCode(LowerCode(n)) == LowerCode(n)
  {
  }

  lemma LowerCodeIdempotent(n: int)
    ensures LowerCode(LowerCode(n)) == LowerCode(n)
  {
    if n < 0x180 { LowerCodeIdempotentLatin(n); }
    else if n < 0x1C4 { LowerCodeIdempotentExtendedB1(n); }
    else if n < 0x250 { LowerCodeIdempotentExtendedB2(n); }
    else { LowerCodeIdempotentAdditional(n); }
  }

  lemma UpperCodeIdempotentLatin(n: int)
    requires n < 0x180
    ensures UpperCode(UpperCode(n)) == UpperCode(n)
  {
  }

  lemma UpperCodeIdempotentExtendedB1(n: int)
    requires 0x180 <= n < 0x1C4
    ensures UpperCode(UpperCode(n)) == UpperCode(n)
  {
  }

  lemma UpperCodeIdempotentExtendedB2(n: int)
    requires 0x1C4 <= n < 0x250
    ensures UpperCode(UpperCode(n)) == UpperCode(n)
  {
  }

  lemma UpperCodeIdempotentAdditional(n: int)
    requires 0x250 <= n
    ensures UpperCode(UpperCode(n)) == UpperCode(n)
  {
  }

  lemma UpperCodeIdempotent(n: int)
    ensures UpperCode(UpperCode(n)) == UpperCode(n)
  {
    if n < 0x180 { UpperCodeIdempotentLatin(n); }
    else if n < 0x1C4 { UpperCodeIdempotentExtendedB1(n); }
    else if n < 0x250 { UpperCodeIdempotentExtendedB2(n); }
    else { UpperCodeIdempotentAdditional(n); }
  }

  lemma LowerCodeRoundTripLatin(n: int)
    requires n < 0x180
    ensures LowerCode(n) != n ==> UpperCode(LowerCode(n)) == n || n == 0x1E9E || IsTitleDigraphCode(n)
  {
  }

  lemma LowerCodeRoundTripExtendedB1(n: int)
    requires 0x180 <= n < 0x1C4
    ensures LowerCode(n) != n ==> UpperCode(LowerCode(n)) == n || n == 0x1E9E || IsTitleDigraphCode(n)
  {
  }

  lemma LowerCodeRoundTripExtendedB2(n: int)
    requires 0x1C4 <= n < 0x250
    ensures LowerCode(n) != n ==> UpperCode(LowerCode(n)) == n || n == 0x1E9E || IsTitleDigraphCode(n)
  {
  }

  lemma LowerCodeRoundTripAdditional(n: int)
    requires 0x250 <= n
    ensures LowerCode(n) != n ==> UpperCode(LowerCode(n)) == n || n == 0x1E9E || IsTitleDigraphCode(n)
  {
  }

  lemma LowerCodeRoundTrip(n: int)
    ensures LowerCode(n) != n ==> UpperCode(LowerCode(n)) == n || n == 0x1E9E || IsTitleDigraphCode(n)
  {
    if n < 0x180 { LowerCodeRoundTripLatin(n); }
    else if n < 0x1C4 { LowerCodeRoundTripExtendedB1(n); }
    else if n < 0x250 { LowerCodeRoundTripExtendedB2(n); }
    else { LowerCodeRoundTripAdditional(n); }
  }

  lemma UpperCodeRoundTripLatin(n: int)
    requires n < 0x180
    ensures UpperCode(n) != n ==> LowerCode(UpperCode(n)) == n || n == 0x131 || n == 0x17F || n == 0x1E9B || IsTitleDigraphCode(n)
  {
  }

  lemma UpperCodeRoundTripExtendedB1(n: int)
    requires 0x180 <= n < 0x1C4
    ensures UpperCode(n) != n ==> LowerCode(UpperCode(n)) == n || n == 0x131 || n == 0x17F || n == 0x1E9B || IsTitleDigraphCode(n)
  {
  }

  lemma UpperCodeRoundTripExtendedB2(n: int)
    requires 0x1C4 <= n < 0x250
    ensures UpperCode(n) != n ==> LowerCode(UpperCode(n)) == n || n == 0x131 || n == 0x17F || n == 0x1E9B || IsTitleDigraphCode(n)
  {
  }

  lemma UpperCodeRoundTripAdditional(n: int)
    requires 0x250 <= n
    ensures UpperCode(n) != n ==> LowerCode(UpperCode(n)) == n || n == 0x131 || n == 0x17F || n == 0x1E9B || IsTitleDigraphCode(n)
  {
  }

  lemma UpperCodeRoundTrip(n: int)
    ensures UpperCode(n) != n ==> LowerCode(UpperCode(n)) == n || n == 0x131 || n == 0x17F || n == 0x1E9B || IsTitleDigraphCode(n)
  {
    if n < 0x180 { UpperCodeRoundTripLatin(n); }
    else if n < 0x1C4 { UpperCodeRoundTripExtendedB1(n); }
    else if n < 0x250 { UpperCodeRoundTripExtendedB2(n); }
    else { UpperCodeRoundTripAdditional(n); }
  }

  /** Case mappings send letters to letters and leave every other character alone. */
  lemma CaseMappingKeepsLetters(c: char)
    ensures IsLetter(c) <==> IsLetter(Lower(c))
    ensures IsLetter(c) <==> IsLetter(Upper(c))
    ensures !IsLetter(c) ==> Lower(c) == c && Upper(c) == c
  {
    LowerCodeKeepsLetters(c as int);
    UpperCodeKeepsLetters(c as int);
  }

  /** White space is not a letter, so case mappings leave it alone. */
  lemma SpaceIsCaseless(c: char)
    requires IsSpace(c)
    ensures !IsLetter(c) && Lower(c) == c && Upper(c) == c
  {
    CaseMappingKeepsLetters(c);
  }

  /** Lower-casing is idempotent. */
  lemma LowerIdempotent(c: char)
    ensures Lower(Lower(c)) == Lower(c)
  {
    LowerCodeIdempotent(c as int);
  }

  /** Upper-casing is idempotent. */
  lemma UpperIdempotent(c: char)
    ensures Upper(Upper(c)) == Upper(c)
  {
    UpperCodeIdempotent(c as int);
  }

  /**
   * Upper-casing a lower-cased character gives it back, except for ẞ (whose
   * small letter ß has no one-character capital) and the title-case digraphs
   * (which come back as capitals).
   */
  lemma UpperLowerRoundTrip(c: char)
    requires Lower(c) != c
    ensures Upper(Lower(c)) == c || c == '\U{1E9E}' || IsTitleDigraph(c)
  {
    LowerCodeRoundTrip(c as int);
  }

  /**
   * Lower-casing an upper-cased character gives it back, except for ı, ſ
   * and ẛ (whose capitals have other small letters) and the title-case digraphs.
   */
  lemma LowerUpperRoundTrip(c: char)
    requires Upper(c) != c
    ensures Lower(Upper(c)) == c || c == '\U{0131}' || c == '\U{017F}' || c == '\U{1E9B}' || IsTitleDigraph(c)
  {
    UpperCodeRoundTrip(c as int);
  }

  /**
   * The capital of a lower-cased character is stable: lower-casing it and
   * upper-casing again gives it back, even where lower-casing the capital
   * does not give back the character (I for ı, S for ſ, Ṡ for ẛ).
   */
  lemma CapitalIsStable(c: char)
    ensures Upper(Lower(Upper(Lower(c)))) == Upper(Lower(c))
  {
    var v := Lower(c);
    var u := Upper(v);
    LowerCodeImage(c as int);
    UpperCodeImage(v as int);
    UpperIdempotent(v);
    if Lower(u) != u {
      UpperLowerRoundTrip(u);
    }
  }

  /** Lower-casing and upper-casing a whole string, character by character. */
  function LowerStr(s: string): (r: string)
    ensures |r| == |s|
    ensures forall i {:trigger r[i]} :: 0 <= i < |s| ==> r[i] == Lower(s[i])
  {
    if s == [] then [] else [Lower(s[0])] + LowerStr(s[1..])
  }

  /** A string of lower-case characters is its own lower-casing. */
  lemma LowerStrFixed(s: string)
    requires forall i :: 0 <= i < |s| ==> Lower(s[i]) == s[i]
    ensures LowerStr(s) == s
  {
    assert forall i :: 0 <= i < |s| ==> LowerStr(s)[i] == s[i];
  }

  function UpperStr(s: string): (r: string)
    ensures |r| == |s|
    ensures forall i {:trigger r[i]} :: 0 <= i < |s| ==> r[i] == Upper(s[i])
  {
    if s == [] then [] else [Upper(s[0])] + UpperStr(s[1..])
  }
}
