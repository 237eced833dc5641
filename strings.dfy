/**
 * The SQL string function `trim`: removes the space characters (ASCII 32)
 * at both ends of a string. Other whitespace (tabs, newlines) is kept.
 */
module Strings {

  /** The suffix of `s` that starts at its first non-space character. */
  function TrimStart(s: string): (r: string)
    ensures |r| <= |s| && r == s[|s| - |r|..]
    ensures r == [] || r[0] != ' '
    ensures forall i :: 0 <= i < |s| - |r| ==> s[i] == ' '
  {
    if s != [] && s[0] == ' ' then TrimStart(s[1..]) else s
  }

  /** The prefix of `s` that ends at its last non-space character. */
  function TrimEnd(s: string): (r: string)
    ensures |r| <= |s| && r == s[..|r|]
    ensures r == [] || r[|r| - 1] != ' '
    ensures forall i :: |r| <= i < |s| ==> s[i] == ' '
  {
    if s != [] && s[|s| - 1] == ' ' then TrimEnd(s[..|s| - 1]) else s
  }

  /**
   * `trim`: neither end of the result is a space, and the result is empty
   * exactly when the string consists of spaces only.
   */
  function Trim(s: string): (r: string)
    ensures r == [] || (r[0] != ' ' && r[|r| - 1] != ' ')
    ensures r == [] <==> forall i :: 0 <= i < |s| ==> s[i] == ' '
  {
    TrimEnd(TrimStart(s))
  }
}
