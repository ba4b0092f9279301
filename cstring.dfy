/** C-string helpers used by the character device: the NUL terminator, the
    length of a NUL-terminated string, and the reversal of a sequence. */
module CString {

  /** The terminating NUL byte of a C string. */
  const Nul: char := '\0'

  /** No element of s is the terminator. */
  predicate NulFree(s: seq<char>) {
    forall i :: 0 <= i < |s| ==> s[i] != Nul
  }

  /** What strlen returns for a buffer: the index of its first NUL, or |s|
      when the buffer holds none. */
  function Strlen(s: seq<char>): (r: nat)
    ensures r <= |s|
    ensures forall i :: 0 <= i < r ==> s[i] != Nul
    ensures r < |s| ==> s[r] == Nul
  {
    if |s| == 0 || s[0] == Nul then 0 else 1 + Strlen(s[1..])
  }

  /** The length is determined by where the first NUL is. */
  lemma StrlenAt(s: seq<char>, k: nat)
    requires k < |s| && s[k] == Nul && NulFree(s[..k])
    ensures Strlen(s) == k
  {
    assert forall i :: 0 <= i < k ==> s[..k][i] == s[i];
  }

  /** A NUL-free prefix adds its whole length to the string length. */
  lemma {:induction false} StrlenConcat(a: seq<char>, b: seq<char>)
    requires NulFree(a)
    ensures Strlen(a + b) == |a| + Strlen(b)
  {
    if a != [] {
      assert (a + b)[0] == a[0];
      assert (a + b)[1..] == a[1..] + b;
      StrlenConcat(a[1..], b);
    } else {
      assert a + b == b;
    }
  }

  /** Dropping n bytes that come before the first NUL shortens the string by n. */
  lemma StrlenSuffix(s: seq<char>, n: nat)
    requires n <= Strlen(s)
    ensures Strlen(s[n..]) == Strlen(s) - n
  {
    assert NulFree(s[..n]);
    assert s == s[..n] + s[n..];
    StrlenConcat(s[..n], s[n..]);
  }

  /** The sequence read back to front. */
  function Reverse<T>(s: seq<T>): (r: seq<T>)
    ensures |r| == |s|
  {
    if s == [] then [] else Reverse(s[1..]) + [s[0]]
  }

  /** Element k of the reversal is element |s| - 1 - k of the original. */
  lemma {:induction false} ReverseAt<T>(s: seq<T>, k: nat)
    requires k < |s|
    ensures Reverse(s)[k] == s[|s| - 1 - k]
  {
    if k < |s| - 1 {
      ReverseAt(s[1..], k);
    }
  }

  /** Two adjacent slices join into one. */
  lemma SliceJoin<T>(s: seq<T>, a: nat, b: nat, c: nat)
    requires a <= b <= c <= |s|
    ensures s[a..b] + s[b..c] == s[a..c]
  {
  }

  /** Reversal is characterised pointwise. */
  lemma ReverseIs<T>(s: seq<T>, r: seq<T>)
    requires |r| == |s|
    requires forall i :: 0 <= i < |r| ==> r[i] == s[|s| - 1 - i]
    ensures Reverse(s) == r
  {
    forall i | 0 <= i < |r|
      ensures Reverse(s)[i] == r[i]
    {
      ReverseAt(s, i);
    }
  }
}
