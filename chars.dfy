/**
 The character classes that the normaliser's regular expressions and string
 methods depend on.

 - `IsSpace` is Python's Unicode whitespace (`str.isspace`), which is both what
   the regular-expression class `\s` matches on a `str` pattern and what
   `str.strip()` removes.
 - `IsWord` is Python's `\w` (alphanumeric or `_`), written out exactly for the
   code points U+0000 to U+017F (ASCII, Latin-1 Supplement, Latin Extended-A);
   no character above U+017F is treated as a word character.
 - `IsMark` is the punctuation set `, . ; : ! ?` used by the passes.
 - `IsTerminal` is the set `. ? !` that ends a cleaned reference.
 - `IsLineBreak` is the set of characters at which `str.splitlines` splits.
 */
module Chars {

  predicate IsSpace(c: char) {
    || ('\t' <= c <= '\r')                 // tab, line feed, vertical tab, form feed, carriage return
    || ('\U{1C}' <= c <= '\U{1F}')         // information separators
    || c == ' '
    || c == '\U{85}'                       // next line
    || c == '\U{A0}'                       // no-break space
    || c == '\U{1680}'                     // ogham space mark
    || ('\U{2000}' <= c <= '\U{200A}')     // en quad .. hair space
    || c == '\U{2028}' || c == '\U{2029}'  // line and paragraph separators
    || c == '\U{202F}' || c == '\U{205F}' || c == '\U{3000}'
  }

  predicate IsWord(c: char) {
    || ('0' <= c <= '9') || ('A' <= c <= 'Z') || ('a' <= c <= 'z') || c == '_'
    // Latin-1 Supplement: feminine and masculine ordinals, micro sign,
    // superscript digits, vulgar fractions and the letters
    || c == '\U{AA}' || c == '\U{B2}' || c == '\U{B3}' || c == '\U{B5}'
    || c == '\U{B9}' || c == '\U{BA}' || ('\U{BC}' <= c <= '\U{BE}')
    || ('\U{C0}' <= c <= '\U{FF}' && c != '\U{D7}' && c != '\U{F7}')
    // Latin Extended-A: all letters
    || ('\U{100}' <= c <= '\U{17F}')
  }

  /** The marks that passes 3, 4 and 6 rewrite around. */
  const Marks: set<char> := {',', '.', ';', ':', '!', '?'}

  predicate IsMark(c: char) {
    c in Marks
  }

  predicate IsTerminal(c: char) {
    c == '.' || c == '?' || c == '!'
  }

  predicate IsLineBreak(c: char) {
    || c == '\n' || c == '\r' || c == '\U{0B}' || c == '\U{0C}'
    || ('\U{1C}' <= c <= '\U{1E}')
    || c == '\U{85}' || c == '\U{2028}' || c == '\U{2029}'
  }

  /** Neither the marks nor `)` are whitespace or word characters. */
  lemma ClosersAreNotSpaceOrWord()
    ensures forall c :: c in Marks ==> !IsSpace(c) && !IsWord(c)
    ensures !IsSpace(')') && !IsWord(')')
  {
  }
}
