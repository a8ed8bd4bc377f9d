/**
 * The character classes `\w`, `\d` and `\s` of a Python `str` pattern.
 *
 * Python decides them from the Unicode database, which is not modelled: each
 * class is an abstract predicate carried by a `Classes` value.  Only what the
 * regular-expression engine promises about the ASCII range, and that every
 * decimal digit is a word character, is stated about them.
 */
module CharClasses {
  datatype Classes = Classes(word: char -> bool, digit: char -> bool, space: char -> bool)

  predicate IsAsciiLetter(c: char) { 'a' <= c <= 'z' || 'A' <= c <= 'Z' }

  predicate IsAsciiDigit(c: char) { '0' <= c <= '9' }

  /** ASCII characters that `str.isspace` and `\s` accept. */
  predicate IsAsciiSpace(c: char) {
    c == ' ' || '\t' <= c <= '\r' || '\U{1C}' <= c <= '\U{1F}'
  }

  predicate IsAscii(c: char) { c as int < 128 }

  /** On ASCII, `\w` is `[a-zA-Z0-9_]`, `\d` is `[0-9]` and `\s` is the ASCII whitespace. */
  predicate AsciiAgrees(cc: Classes) {
    && (forall c: char :: IsAscii(c) ==> (cc.word(c) <==> IsAsciiLetter(c) || IsAsciiDigit(c) || c == '_'))
    && (forall c: char :: IsAscii(c) ==> (cc.digit(c) <==> IsAsciiDigit(c)))
    && (forall c: char :: IsAscii(c) ==> (cc.space(c) <==> IsAsciiSpace(c)))
  }

  /** The facts about Python's Unicode classes that the model relies on. */
  predicate PythonClasses(cc: Classes) {
    AsciiAgrees(cc) && forall c: char :: cc.digit(c) ==> cc.word(c)
  }

  /** Python's default classes restricted to ASCII: a witness that `PythonClasses` can be met. */
  function AsciiOnly(): (cc: Classes)
    ensures PythonClasses(cc)
  {
    Classes(c => IsAsciiLetter(c) || IsAsciiDigit(c) || c == '_', c => IsAsciiDigit(c), c => IsAsciiSpace(c))
  }
}
