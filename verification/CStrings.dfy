/** Strings that end at their first NUL. */
module CStrings {
  const NUL: char := 0 as char

  predicate NulFree(s: string) {
    forall i :: 0 <= i < |s| ==> s[i] != NUL
  }
}
