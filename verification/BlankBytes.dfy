/** The six bytes that `isspace` takes for white space in the C locale. They hold the four of section 2.3 of XML 1.0. */
module BlankBytes {
  /** Space, tab, line feed, vertical tab, form feed, carriage return. */
  predicate IsBlank(c: char) {
    c as int in {32, 9, 10, 11, 12, 13}
  }

  predicate Blanks(g: string) {
    forall i :: 0 <= i < |g| ==> IsBlank(g[i])
  }
}
