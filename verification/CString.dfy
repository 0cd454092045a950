/** NUL-terminated strings over any character type. */
module CString {

  /** Position n holds the first terminator of a. */
  ghost predicate EndsAt<T>(a: seq<T>, nul: T, n: nat) {
    n < |a| && a[n] == nul && forall i | 0 <= i < n :: a[i] != nul
  }

  ghost predicate Terminated<T>(a: seq<T>, nul: T) {
    exists n :: 0 <= n < |a| && a[n] == nul
  }

  /** What stands before the first terminator. */
  function Text<T(==)>(a: seq<T>, nul: T): (t: seq<T>)
    requires Terminated(a, nul)
    ensures EndsAt(a, nul, |t|) && t == a[..|t|]
  {
    if a[0] == nul then [] else [a[0]] + Text(a[1..], nul)
  }

  lemma TextIs<T>(a: seq<T>, nul: T, n: nat)
    requires EndsAt(a, nul, n)
    ensures Terminated(a, nul) && Text(a, nul) == a[..n]
  {
    assert a[|Text(a, nul)|] == nul;
  }

  method StrLen<T(==)>(str: array<T>, nul: T) returns (n: nat)
    requires Terminated(str[..], nul)
    ensures n == |Text(str[..], nul)| && n < str.Length
  {
    ghost var last :| 0 <= last < str.Length && str[last] == nul;
    n := 0;
    while str[n] != nul
      invariant n <= last
      invariant forall i | 0 <= i < n :: str[i] != nul
      decreases last - n
    {
      n := n + 1;
    }
    TextIs(str[..], nul, n);
  }
}
