/** The character classes the sanitisers consult.

    Python's `re` module with `re.UNICODE` decides `\w` and `\s` by the Unicode
    database, `str.strip()` removes Unicode whitespace and `str.upper()` applies
    Unicode case mapping.  None of these tables is modelled: a `CharClasses`
    value carries them as uninterpreted functions, and `WellFormed` lists the
    only facts about them that the proofs rely on. */
module CharClasses {

  datatype CharClasses = CharClasses(
    isWord: char -> bool,   // the regex class `\w`
    isSpace: char -> bool,  // the regex class `\s`, also what `str.strip()` removes
    upper: char -> char)    // `str.upper()`, one character at a time

  predicate IsAsciiLetterOrDigit(c: char) {
    ('a' <= c <= 'z') || ('A' <= c <= 'Z') || ('0' <= c <= '9')
  }

  /** Characters that `str.upper()` leaves as they are on every Python version. */
  predicate IsUpperFixedAscii(c: char) {
    ('A' <= c <= 'Z') || ('0' <= c <= '9') || c == '_'
  }

  /** The facts about Python's character classes that the model depends on. */
  ghost predicate WellFormed(cc: CharClasses) {
    // ASCII letters, digits and '_' are word characters
    && (forall c :: IsAsciiLetterOrDigit(c) ==> cc.isWord(c))
    && cc.isWord('_')
    // the ASCII blanks are whitespace
    && cc.isSpace(' ') && cc.isSpace('\t') && cc.isSpace('\n') && cc.isSpace('\r')
    // the characters that matter to Cypher quoting are neither
    && !cc.isWord('`') && !cc.isSpace('`')
    && !cc.isWord('-') && !cc.isSpace('-')
    && !cc.isWord(':') && !cc.isSpace(':')
    // no character is both a word character and whitespace
    && (forall c :: cc.isWord(c) ==> !cc.isSpace(c))
    // upper-casing keeps word characters word characters and is idempotent
    && (forall c :: cc.isWord(c) ==> cc.isWord(cc.upper(c)))
    && (forall c :: cc.upper(cc.upper(c)) == cc.upper(c))
    // and agrees with ASCII on ASCII letters, digits and '_'
    && (forall c :: 'a' <= c <= 'z' ==> cc.upper(c) == (c as int - 32) as char)
    && (forall c :: IsUpperFixedAscii(c) ==> cc.upper(c) == c)
  }

  /** The ASCII-only reading of the classes (what `re.ASCII` would give). */
  function Ascii(): (cc: CharClasses)
    ensures WellFormed(cc)
  {
    CharClasses(
      c => IsAsciiLetterOrDigit(c) || c == '_',
      c => c == ' ' || c == '\t' || c == '\n' || c == '\r' || c == '\U{B}' || c == '\U{C}',
      c => if 'a' <= c <= 'z' then (c as int - 32) as char else c)
  }
}
