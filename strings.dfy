/** String helpers shared by the collector and the extension. */
module Strings {

  /** Python's `str.startswith` and JavaScript's `String.prototype.startsWith`. */
  predicate StartsWith(s: string, prefix: string)
  {
    |prefix| <= |s| && s[..|prefix|] == prefix
  }
}
