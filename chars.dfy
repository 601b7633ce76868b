/** Character classes shared by the text normaliser, the regular-expression
    scanners and the link filter, and ASCII lower-casing. */
module Chars {

  predicate IsAsciiUpper(c: char) { 'A' <= c <= 'Z' }
  predicate IsAsciiLower(c: char) { 'a' <= c <= 'z' }
  predicate IsAsciiLetter(c: char) { IsAsciiUpper(c) || IsAsciiLower(c) }
  predicate IsDigit(c: char) { '0' <= c <= '9' }

  /** Characters below 128, where `\w` and `\s` read as Unicode agree with
      the ASCII classes here. */
  predicate IsAscii(c: char) { c < '\U{80}' }

  /** The class `[a-zA-Z0-9]`. */
  predicate IsAlnum(c: char) { IsAsciiLetter(c) || IsDigit(c) }

  /** `\w` as used by `\b`: letters, digits and the underscore. */
  predicate IsWordChar(c: char) { IsAlnum(c) || c == '_' }

  /** Python's `str.isspace()`, which is also what `\s` matches. */
  predicate IsSpace(c: char) {
    c == ' ' || '\t' <= c <= '\r' || '\U{1C}' <= c <= '\U{1F}' || c == '\U{85}' ||
    c == '\U{A0}' || c == '\U{1680}' || '\U{2000}' <= c <= '\U{200A}' ||
    c == '\U{2028}' || c == '\U{2029}' || c == '\U{202F}' || c == '\U{205F}' ||
    c == '\U{3000}'
  }

  /** The characters at which `str.splitlines()` ends a line. */
  predicate IsLineBoundary(c: char) {
    '\n' <= c <= '\r' || '\U{1C}' <= c <= '\U{1E}' || c == '\U{85}' ||
    c == '\U{2028}' || c == '\U{2029}'
  }

  lemma LineBoundaryIsSpace(c: char)
    ensures IsLineBoundary(c) ==> IsSpace(c)
  {
  }

  /** The bracket class of the password-like token pattern: all ASCII
      punctuation except the backquote and the tilde, which is four ranges. */
  predicate IsSpecial(c: char) {
    '!' <= c <= '/' || ':' <= c <= '@' || '[' <= c <= '_' || '{' <= c <= '}'
  }

  /** The ranges hold exactly the characters listed in the class. */
  lemma SpecialIsTheClass(c: char)
    ensures IsSpecial(c) <==> c in "!@#$%^&*()_+-=[]{};':\"\\|,.<>/?"
  {
  }

  function LowerChar(c: char): (r: char)
    ensures !IsAsciiUpper(r)
    ensures IsAsciiUpper(c) ==> IsAsciiLower(r)
    ensures !IsAsciiUpper(c) ==> r == c
  {
    if IsAsciiUpper(c) then (c as int + 32) as char else c
  }

  /** `str.lower()` restricted to ASCII: only `A`..`Z` change. */
  function Lower(s: string): (r: string)
    ensures |r| == |s|
    ensures forall i :: 0 <= i < |s| ==> r[i] == LowerChar(s[i])
  {
    seq(|s|, i requires 0 <= i < |s| => LowerChar(s[i]))
  }

  predicate HasNoUpper(s: string) {
    forall i :: 0 <= i < |s| ==> !IsAsciiUpper(s[i])
  }

  lemma LowerOfNoUpper(s: string)
    requires HasNoUpper(s)
    ensures Lower(s) == s
  {
  }

  lemma LowerSlice(s: string, i: nat, j: nat)
    requires i <= j <= |s|
    ensures Lower(s[i..j]) == Lower(s)[i..j]
  {
  }

  /** Python's `re.IGNORECASE` equality of a text character with a lower-case
      ASCII letter of a pattern: its upper-case form, and the non-ASCII
      characters that Python's simple case folding ties to `i`, `k` and `s`. */
  predicate FoldsTo(c: char, p: char)
    requires IsAsciiLower(p)
  {
    c == p || c == (p as int - 32) as char ||
    (p == 'i' && (c == '\U{130}' || c == '\U{131}')) ||
    (p == 'k' && c == '\U{212A}') ||
    (p == 's' && c == '\U{17F}')
  }

  /** One character of a pattern written in lower-case letters and
      punctuation, matched case-insensitively. */
  predicate CharMatchesCI(c: char, p: char) {
    if IsAsciiLower(p) then FoldsTo(c, p) else c == p
  }

  predicate MatchesCIAt(s: string, i: nat, p: string)
    requires i + |p| <= |s|
  {
    forall k :: 0 <= k < |p| ==> CharMatchesCI(s[i + k], p[k])
  }

  predicate StartsWithCI(s: string, p: string) {
    |p| <= |s| && MatchesCIAt(s, 0, p)
  }

  predicate EndsWithCI(s: string, p: string) {
    |p| <= |s| && MatchesCIAt(s, |s| - |p|, p)
  }
}
