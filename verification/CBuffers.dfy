/** NUL-terminated texts in fixed-size character arrays. */
module CBuffers {
  const NUL: char := 0 as char

  /** The index of the first occurrence of c, or the length of s. */
  function IndexOf(s: seq<char>, c: char): (n: nat)
    ensures n <= |s|
    ensures forall i :: 0 <= i < n ==> s[i] != c
    ensures n < |s| ==> s[n] == c
  {
    if s == [] || s[0] == c then 0 else 1 + IndexOf(s[1..], c)
  }

  /** The text held by a buffer. */
  function Text(s: seq<char>): string { s[..IndexOf(s, NUL)] }

  predicate Terminated(s: seq<char>) { NUL in s }

  lemma TextIs(s: seq<char>, t: string)
    requires |t| < |s| && s[..|t|] == t && s[|t|] == NUL && NUL !in t
    ensures Text(s) == t && Terminated(s)
  {
    assert forall i :: 0 <= i < |t| ==> s[i] == s[..|t|][i] == t[i] != NUL;
  }

  method StrLen(buf: array<char>) returns (n: nat)
    requires Terminated(buf[..])
    ensures n == |Text(buf[..])| < buf.Length
    ensures buf[..n] == Text(buf[..]) && buf[n] == NUL
  {
    n := 0;
    while buf[n] != NUL
      invariant n <= IndexOf(buf[..], NUL) < buf.Length
      decreases buf.Length - n
    {
      n := n + 1;
    }
  }
}
