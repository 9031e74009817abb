/** Character classes used by the cleaner's regular expressions and string methods. */
module Chars {

  /** Python's whitespace: what `str.isspace()` accepts, what the regex class `\s`
      matches on `str` patterns, and what `str.strip()` removes. */
  predicate IsSpace(c: char) {
    || ('\t' <= c <= '\r')
    || ('\U{1C}' <= c <= '\U{1F}')
    || c == ' '
    || c == '\U{85}'
    || c == '\U{A0}'
    || c == '\U{1680}'
    || ('\U{2000}' <= c <= '\U{200A}')
    || c == '\U{2028}'
    || c == '\U{2029}'
    || c == '\U{202F}'
    || c == '\U{205F}'
    || c == '\U{3000}'
  }

  /** The class `[a-zA-Z]`. */
  predicate IsAsciiLetter(c: char) {
    ('a' <= c <= 'z') || ('A' <= c <= 'Z')
  }

  /** One step of the URL body in app.py:57: the union of the single-character
      alternatives `[a-zA-Z]`, `[0-9]`, `[$-_@.&+]` (a range from '$' to '_' plus four
      literals) and `[!*\\(\\),]`. The `%XX` alternative matches nothing more, since '%'
      and every hexadecimal digit are already single-character alternatives. */
  predicate IsUrlChar(c: char) {
    || ('a' <= c <= 'z') || ('A' <= c <= 'Z')
    || ('0' <= c <= '9')
    || ('$' <= c <= '_') || c == '@' || c == '.' || c == '&' || c == '+'
    || c == '!' || c == '*' || c == '\\' || c == '(' || c == ')' || c == ','
  }

  /** The class `[!?.]` of the punctuation squeezer. */
  predicate IsRepeatPunct(c: char) {
    c == '!' || c == '?' || c == '.'
  }

  /** Character classes the cleaner takes from Unicode tables and the emoji library,
      which this model does not reproduce: `\w` and "is part of an emoji". */
  datatype CharClasses = CharClasses(isWord: char -> bool, isEmoji: char -> bool)

  /** `str.lower()` on one character, restricted to ASCII. */
  function AsciiLower(c: char): (d: char)
    ensures 'A' <= c <= 'Z' ==> 'a' <= d <= 'z' && d as int == c as int + 32
    ensures !('A' <= c <= 'Z') ==> d == c
  {
    if 'A' <= c <= 'Z' then (c as int + 32) as char else c
  }

  /** `str.lower()` on a string, restricted to ASCII. */
  function Lower(s: string): (r: string)
    ensures |r| == |s|
    ensures forall i :: 0 <= i < |s| ==> r[i] == AsciiLower(s[i])
  {
    seq(|s|, i requires 0 <= i < |s| => AsciiLower(s[i]))
  }
}
