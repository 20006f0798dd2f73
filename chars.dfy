/** Python's single-character string predicates (str.isupper, str.islower,
    str.isalnum, str.isspace) and the regular-expression class \w, restricted to
    ASCII, together with the "some character of the string is ..." predicates the
    validators of the front end are built from. */
module PyChars {

  predicate IsUpper(c: char) { 'A' <= c <= 'Z' }

  predicate IsLower(c: char) { 'a' <= c <= 'z' }

  predicate IsDigit(c: char) { '0' <= c <= '9' }

  predicate IsAlnum(c: char) { IsUpper(c) || IsLower(c) || IsDigit(c) }

  /** str.isspace on ASCII: the blank, \t \n \v \f \r and the separators \x1c-\x1f. */
  predicate IsSpace(c: char) { c == ' ' || ('\t' <= c <= '\r') || ('\U{1c}' <= c <= '\U{1f}') }

  /** The class \w of a pattern: [A-Za-z0-9_]. */
  predicate IsWordChar(c: char) { IsAlnum(c) || c == '_' }

  /** The class [a-z0-9]. */
  predicate IsLowerAlnum(c: char) { IsLower(c) || IsDigit(c) }

  predicate HasUpper(s: string) { exists i :: 0 <= i < |s| && IsUpper(s[i]) }

  predicate HasLower(s: string) { exists i :: 0 <= i < |s| && IsLower(s[i]) }

  /** Some character of `s` occurs in `chars` (Python's `any(c in x for x in chars)`). */
  predicate HasCharIn(s: string, chars: string) { exists i :: 0 <= i < |s| && s[i] in chars }
}
