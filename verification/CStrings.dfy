/** Strings ended by a NUL inside a buffer. */
module CStrings {
  const NUL := '\0'

  predicate Terminated(s: string) {
    exists i :: 0 <= i < |s| && s[i] == NUL
  }

  /** The characters before the first NUL. */
  function CStr(s: string): (r: string)
    ensures |r| <= |s|
  {
    if s == [] || s[0] == NUL then [] else [s[0]] + CStr(s[1..])
  }

  /** The text of a buffer is determined by where its first NUL is. */
  lemma {:induction false} CStrIs(s: string, n: nat)
    requires n < |s| && s[n] == NUL && forall i :: 0 <= i < n ==> s[i] != NUL
    ensures CStr(s) == s[..n]
  {
    if n > 0 {
      CStrIs(s[1..], n - 1);
      assert s[..n] == [s[0]] + s[1..][..n - 1];
    }
  }

  lemma {:induction false} CStrEnds(s: string)
    requires Terminated(s)
    ensures |CStr(s)| < |s| && s[|CStr(s)|] == NUL
    ensures CStr(s) == s[..|CStr(s)|]
    ensures forall i :: 0 <= i < |CStr(s)| ==> s[i] != NUL
  {
    if s[0] != NUL {
      var i :| 0 <= i < |s| && s[i] == NUL;
      assert s[1..][i - 1] == NUL;
      CStrEnds(s[1..]);
      assert forall i :: 0 < i < |CStr(s)| ==> s[i] == s[1..][i - 1];
    }
  }
}
