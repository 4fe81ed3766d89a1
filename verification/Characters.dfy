/** Character classes of the texts that are scanned. */
module Characters {

  /** The ASCII whitespace of `str.isspace`, `str.strip` and the regular-expression class. */
  predicate IsSpace(c: char): (r: bool)
    ensures r <==> c as int in {9, 10, 11, 12, 13, 28, 29, 30, 31, 32}
  {
    c == ' ' || 9 <= c as int <= 13 || 28 <= c as int <= 31
  }
}
