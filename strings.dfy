/**
 * The C strings stored in queue elements and the `strcmp` comparison that
 * queue.c uses for every ordering decision.
 */
module Strings {

  /** A pointer that may be NULL: `None` is NULL, `Some(v)` points at `v`. */
  datatype Option<T> = None | Some(value: T)

  /** The characters of a C string before its terminating NUL. */
  type CString = s: string | '\0' !in s

  /** The character `strcmp` reads at index `i`: past the end it reads the terminator. */
  function CharAt(s: CString, i: nat): char
  {
    if i < |s| then s[i] else '\0'
  }

  /**
   * Lexicographic order on C strings, the reference for `strcmp`: a proper
   * prefix comes first, otherwise the first differing character decides.
   */
  predicate Leq(a: CString, b: CString)
    decreases |a|
  {
    |a| == 0 || (|b| > 0 && (a[0] < b[0] || (a[0] == b[0] && Leq(a[1..], b[1..]))))
  }

  /**
   * strcmp: the difference of the first characters at which the two strings
   * differ, the terminator reading as 0; 0 when the strings are equal.
   */
  function StrCmp(a: CString, b: CString): (r: int)
    ensures r == 0 <==> a == b
    ensures r <= 0 <==> Leq(a, b)
    ensures r == CharAt(a, FirstDiff(a, b)) as int - CharAt(b, FirstDiff(a, b)) as int
    decreases |a|
  {
    if |a| == 0 || |b| == 0 || a[0] != b[0] then
      CharAt(a, 0) as int - CharAt(b, 0) as int
    else
      var r := StrCmp(a[1..], b[1..]);
      assert a == [a[0]] + a[1..] && b == [b[0]] + b[1..];
      r
  }

  /** The first index at which `a` and `b` read different characters, or the common length. */
  function FirstDiff(a: CString, b: CString): (k: nat)
    ensures k <= |a| && k <= |b| && a[..k] == b[..k]
    ensures k < |a| || k < |b| ==> CharAt(a, k) != CharAt(b, k)
    ensures k == |a| && k == |b| ==> a == b
    decreases |a|
  {
    if |a| == 0 || |b| == 0 || a[0] != b[0] then 0
    else
      var k := FirstDiff(a[1..], b[1..]);
      assert a[..k + 1] == [a[0]] + a[1..][..k] && b[..k + 1] == [b[0]] + b[1..][..k];
      assert forall i | 1 <= i <= k :: CharAt(a, i) == CharAt(a[1..], i - 1);
      assert forall i | 1 <= i <= k + 1 :: CharAt(b, i) == CharAt(b[1..], i - 1) && CharAt(a, i) == CharAt(a[1..], i - 1);
      k + 1
  }

  lemma {:induction false} LeqReflexive(a: CString)
    ensures Leq(a, a)
    decreases |a|
  {
    if |a| > 0 { LeqReflexive(a[1..]); }
  }

  lemma {:induction false} LeqAntisymmetric(a: CString, b: CString)
    requires Leq(a, b) && Leq(b, a)
    ensures a == b
    decreases |a|
  {
    if |a| > 0 {
      LeqAntisymmetric(a[1..], b[1..]);
      assert a == [a[0]] + a[1..] && b == [b[0]] + b[1..];
    }
  }

  lemma {:induction false} LeqTransitive(a: CString, b: CString, c: CString)
    requires Leq(a, b) && Leq(b, c)
    ensures Leq(a, c)
    decreases |a|
  {
    if |a| > 0 && a[0] == b[0] && b[0] == c[0] {
      LeqTransitive(a[1..], b[1..], c[1..]);
    }
  }

  lemma {:induction false} LeqTotal(a: CString, b: CString)
    ensures Leq(a, b) || Leq(b, a)
    decreases |a|
  {
    if |a| > 0 && |b| > 0 && a[0] == b[0] {
      LeqTotal(a[1..], b[1..]);
    }
  }

  /**
   * The characters `snprintf(sp, bufsize, "%s", s)` writes at the start of
   * `sp`: as much of `s` as leaves room for the terminator, then NUL.
   */
  function Truncated(s: CString, bufsize: nat): (w: seq<char>)
    requires bufsize > 0
    ensures 0 < |w| <= bufsize && w[|w| - 1] == '\0'
  {
    var m := if |s| < bufsize - 1 then |s| else bufsize - 1;
    s[..m] + ['\0']
  }

  /** The C string a buffer holds: its characters before the first NUL. */
  function ReadCString(buf: seq<char>): CString
  {
    if buf == [] || buf[0] == '\0' then [] else [buf[0]] + ReadCString(buf[1..])
  }

  lemma {:induction false} ReadTerminated(t: CString, rest: seq<char>)
    ensures ReadCString(t + ['\0'] + rest) == t
  {
    if t != [] {
      assert (t + ['\0'] + rest)[1..] == t[1..] + ['\0'] + rest;
      ReadTerminated(t[1..], rest);
      assert t == [t[0]] + t[1..];
    }
  }

  /**
   * Reading the caller's buffer back after the copy gives the longest prefix
   * of `s` that fits in `bufsize - 1` characters, whatever followed in the buffer:
   * the whole of `s` when `|s| < bufsize`.
   */
  lemma TruncatedReadsBack(s: CString, bufsize: nat, rest: seq<char>)
    requires bufsize > 0
    ensures ReadCString(Truncated(s, bufsize) + rest) == s[..if |s| < bufsize then |s| else bufsize - 1]
  {
    var m := if |s| < bufsize - 1 then |s| else bufsize - 1;
    ReadTerminated(s[..m], rest);
  }
}
