/**
  Character classes the matcher uses. The model restricts case handling to ASCII:
  `char::to_ascii_lowercase` only ever touches 'A'..'Z', and `IsUpper` stands for
  `char::is_uppercase` on ASCII input.
 */
module Ascii {

  /** `char::is_uppercase`, restricted to ASCII letters. */
  predicate IsUpper(c: char) {
    'A' <= c <= 'Z'
  }

  /** `char::to_ascii_lowercase`: maps 'A'..'Z' to 'a'..'z' and leaves every other character alone. */
  function ToLower(c: char): (r: char)
    ensures !IsUpper(r)
    ensures IsUpper(c) ==> 'a' <= r <= 'z' && r as int - c as int == 'a' as int - 'A' as int
    ensures !IsUpper(c) ==> r == c
  {
    if IsUpper(c) then (c as int - 'A' as int + 'a' as int) as char else c
  }

  /** Equal after ASCII lower-casing: the matcher's notion of "this character matches". */
  predicate SameLower(a: char, b: char) {
    ToLower(a) == ToLower(b)
  }

  /** The characters after which a match earns the word-start bonus. */
  predicate IsSeparator(c: char) {
    c == ' ' || c == '_' || c == '-' || c == '/' || c == '\\'
  }
}
