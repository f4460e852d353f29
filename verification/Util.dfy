/** Character buffers: NUL-terminated strings in place, and rstrip. */
module Util {
  import opened Text

  const NUL: char := '\0'

  predicate NulFree(s: string) {
    forall i | 0 <= i < |s| :: s[i] != NUL
  }

  /** A C string of length `n` at offset `at`. */
  ghost predicate CString(a: array<char>, at: nat, n: nat)
    reads a
  {
    at + n < a.Length && a[at + n] == NUL && forall j | at <= j < at + n :: a[j] != NUL
  }

  /** `s` without its trailing whitespace. */
  function RStripped(s: string): (r: string)
    ensures r != "" ==> !IsSpace(r[|r| - 1])
  {
    s[..StrippedLength(s, |s|)]
  }

  /** The length of the first `n` characters without their trailing whitespace. */
  function StrippedLength(s: string, n: nat): (m: nat)
    requires n <= |s|
    ensures m <= n
    ensures m > 0 ==> !IsSpace(s[m - 1])
    ensures forall i | m <= i < n :: IsSpace(s[i])
  {
    if n == 0 || !IsSpace(s[n - 1]) then n else StrippedLength(s, n - 1)
  }

  lemma RStrippedIs(s: string, n: nat)
    requires n <= |s|
    requires forall i | n <= i < |s| :: IsSpace(s[i])
    requires n > 0 ==> !IsSpace(s[n - 1])
    ensures RStripped(s) == s[..n]
  {
    assert StrippedLength(s, |s|) == n;
  }

  method RStrip(a: array<char>, at: nat, len: nat) returns (n: nat)
    requires at + len < a.Length && a[at + len] == NUL
    modifies a
    ensures n <= len && a[at + n] == NUL && (old(CString(a, at, len)) ==> CString(a, at, n))
    ensures a[at..at + n] == RStripped(old(a[at..at + len]))
    ensures forall i | 0 <= i < a.Length && i != at + n :: a[i] == old(a[i])
  {
    if len < 1 {
      return len;
    }
    ghost var s := a[at..at + len];
    var e: int := at + len - 1;
    while true
      invariant at - 1 <= e < at + len
      invariant forall j | e < j < at + len :: IsSpace(a[j])
      decreases e
    {
      if e < at || !IsSpace(a[e]) {
        break;
      }
      e := e - 1;
    }
    RStrippedIs(s, e + 1 - at);
    if e < at {
      n := 0;
      a[at] := NUL;
    } else {
      n := e - at + 1;
      a[e + 1] := NUL;
    }
    assert a[at..at + n] == s[..n];
  }

  /** strlen */
  method StrLen(a: array<char>, at: nat, ghost len: nat) returns (n: nat)
    requires CString(a, at, len)
    ensures n == len
  {
    n := 0;
    while a[at + n] != NUL
      invariant n <= len
      decreases len - n
    {
      n := n + 1;
    }
  }
}
