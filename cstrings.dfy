/** C strings as the matching engine sees them: a sequence of characters that
    holds no NUL, read past its last character as the terminator '\0'. */
module CStrings {

  const NUL: char := '\0'

  /** A C string holds no NUL before its terminator. */
  predicate IsCString(s: seq<char>) {
    forall k :: 0 <= k < |s| ==> s[k] != NUL
  }

  /** The character a C program reads at index k of s: s[k], or the terminator. */
  function At(s: seq<char>, k: nat): (c: char)
    ensures k >= |s| ==> c == NUL
    ensures IsCString(s) && k < |s| ==> c != NUL && c == s[k]
  {
    if k < |s| then s[k] else NUL
  }

  /** Reading a suffix of a C string is reading the string further on. */
  lemma AtSuffix(s: seq<char>, off: nat, k: nat)
    requires off <= |s|
    ensures At(s[off..], k) == At(s, off + k)
  {
  }
}
