/**
 * The token alphabet of section 5.1 of RFC 2045. The media-type parser calls
 * IsTokenChar from a file of the mime package that is not part of this
 * model; the definition below is the RFC's and is an assumption about that
 * file: a token character is printable US-ASCII, neither a space nor a
 * control character, and none of the tspecials ()<>@,;:\"/[]?=
 */
module MimeGrammar {

  /** The tspecials of section 5.1 of RFC 2045. */
  predicate IsTSpecial(c: char) {
    || c == '(' || c == ')' || c == '<' || c == '>' || c == '@'
    || c == ',' || c == ';' || c == ':' || c == '\\' || c == '"'
    || c == '/' || c == '[' || c == ']' || c == '?' || c == '='

  }

  predicate IsTokenChar(c: char) {
    ' ' < c < '\U{7F}' && !IsTSpecial(c)
  }

  /**
   * The separators the media-type parser looks for (white space, ';', '=',
   * '/', the quotes and the backslash) are not token characters; letters,
   * digits and the characters RFC 2231 names and values use ('*', '%',
   * '\'', '-', '.') are.
   */
  lemma TokenCharClasses(c: char)
    ensures IsTokenChar(c) ==> c != ' ' && c != '\t' && c != '\r' && c != '\n' && c != ';' && c != '=' && c != '/' && c != '"' && c != '\\'
    ensures ('a' <= c <= 'z' || 'A' <= c <= 'Z' || '0' <= c <= '9') ==> IsTokenChar(c)
    ensures (c == '*' || c == '%' || c == '\'' || c == '-' || c == '.') ==> IsTokenChar(c)
  {
  }

  /** Every character of s is a token character (s may be empty). */
  predicate IsToken(s: string) {
    forall i :: 0 <= i < |s| ==> IsTokenChar(s[i])
  }
}
