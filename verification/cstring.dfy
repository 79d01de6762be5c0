/** The C library string functions that the null-tolerant helpers delegate to:
    `strlen` (section 7.24.6.3 of ISO C11), `strcmp` (section 7.24.4.2) and
    `strncmp` (section 7.24.4.4), with bytes compared as `unsigned char`
    (section 7.24.4 paragraph 1).

    A buffer is a `seq<byte>`; the C string it holds is everything before its
    first 0 byte. A buffer without any 0 byte is read to its end. */
module CString {

  type byte = bv8

  /** No byte of `s` is the terminator. */
  predicate ZeroFree(s: seq<byte>)
  {
    forall i :: 0 <= i < |s| ==> s[i] != 0
  }

  /** The C string held in buffer `s`: the bytes before its first 0. */
  function View(s: seq<byte>): (r: seq<byte>)
    ensures |r| <= |s| && r == s[..|r|]
    ensures ZeroFree(r)
    ensures |r| < |s| ==> s[|r|] == 0
  {
    if |s| == 0 || s[0] == 0 then [] else [s[0]] + View(s[1..])
  }

  /** Any prefix free of zeros that stops at a 0 byte (or at the end) is the view. */
  lemma {:induction false} ViewUnique(s: seq<byte>, k: nat)
    requires k <= |s| && ZeroFree(s[..k])
    requires k < |s| ==> s[k] == 0
    ensures View(s) == s[..k]
    decreases k
  {
    if k > 0 {
      assert s[..k][0] == s[0];
      assert s[1..][..k - 1] == s[..k][1..];
      ViewUnique(s[1..], k - 1);
      assert s[..k] == [s[0]] + s[1..][..k - 1];
    }
  }

  lemma ViewOfZeroFree(s: seq<byte>)
    requires ZeroFree(s)
    ensures View(s) == s
  {
    ViewUnique(s, |s|);
  }

  /** Bytes after a terminator never reach the view. */
  lemma ViewOfTerminated(c: seq<byte>, rest: seq<byte>)
    ensures View(c + [0] + rest) == View(c)
  {
    var s := c + [0] + rest;
    var v := View(c);
    assert s[..|v|] == v;
    if |v| < |c| {
      assert s[|v|] == c[|v|];
    } else {
      assert s[|v|] == 0;
    }
    ViewUnique(s, |v|);
  }

  /** The byte a C reader finds at offset `i`: past the end of the buffer it
      behaves as the terminator. */
  function At(s: seq<byte>, i: nat): byte
  {
    if i < |s| then s[i] else 0
  }

  /** `s` cut to at most `n` bytes. */
  function Take(s: seq<byte>, n: nat): (r: seq<byte>)
    ensures |r| <= n && |r| <= |s| && r == s[..|r|]
    ensures |r| == n || r == s
  {
    if n <= |s| then s[..n] else s
  }

  /** Index of the first position where `a` and `b` differ, or the length of
      the shorter one when it is a prefix of the other. */
  function Mismatch(a: seq<byte>, b: seq<byte>): (k: nat)
    ensures k <= |a| && k <= |b|
    ensures a[..k] == b[..k]
    ensures k < |a| && k < |b| ==> a[k] != b[k]
  {
    if |a| == 0 || |b| == 0 || a[0] != b[0] then 0
    else
      var k := Mismatch(a[1..], b[1..]);
      assert a[..k + 1] == [a[0]] + a[1..][..k];
      assert b[..k + 1] == [b[0]] + b[1..][..k];
      1 + k
  }

  lemma MismatchUnique(a: seq<byte>, b: seq<byte>, k: nat)
    requires k <= |a| && k <= |b| && a[..k] == b[..k]
    requires k < |a| && k < |b| ==> a[k] != b[k]
    ensures Mismatch(a, b) == k
  {
  }

  /** Three-way comparison decided by the first differing byte, bytes read as
      unsigned; a string that is a proper prefix of the other orders first
      (its terminator is smaller than any other byte). */
  function Compare(a: seq<byte>, b: seq<byte>): (r: int)
    ensures -1 <= r <= 1
    ensures r == 0 <==> a == b
  {
    var k := Mismatch(a, b);
    if k == |a| && k == |b| then 0
    else if k == |a| then -1
    else if k == |b| then 1
    else if a[k] < b[k] then -1
    else 1
  }

  /** Lexicographic order, head first: an independent definition of `Compare`. */
  function LexCompare(a: seq<byte>, b: seq<byte>): int
  {
    if |a| == 0 && |b| == 0 then 0
    else if |a| == 0 then -1
    else if |b| == 0 then 1
    else if a[0] < b[0] then -1
    else if b[0] < a[0] then 1
    else LexCompare(a[1..], b[1..])
  }

  lemma {:induction false} CompareIsLexCompare(a: seq<byte>, b: seq<byte>)
    ensures Compare(a, b) == LexCompare(a, b)
    decreases |a|
  {
    if |a| > 0 && |b| > 0 && a[0] == b[0] {
      var k := Mismatch(a[1..], b[1..]);
      forall i | 0 <= i < k + 1
        ensures a[i] == b[i]
      {
        if i > 0 {
          assert a[i] == a[1..][..k][i - 1] && b[i] == b[1..][..k][i - 1];
        }
      }
      assert a[..k + 1] == b[..k + 1];
      MismatchUnique(a, b, k + 1);
      CompareIsLexCompare(a[1..], b[1..]);
    } else if |a| > 0 && |b| > 0 {
      MismatchUnique(a, b, 0);
    }
  }

  lemma {:induction false} LexAntisymmetric(a: seq<byte>, b: seq<byte>)
    ensures LexCompare(a, b) == -LexCompare(b, a)
    decreases |a|
  {
    if |a| > 0 && |b| > 0 && a[0] == b[0] {
      LexAntisymmetric(a[1..], b[1..]);
    }
  }

  lemma {:induction false} LexTransitive(a: seq<byte>, b: seq<byte>, c: seq<byte>)
    requires LexCompare(a, b) == -1 && LexCompare(b, c) == -1
    ensures LexCompare(a, c) == -1
    decreases |a|
  {
    if |a| > 0 && a[0] == b[0] && b[0] == c[0] {
      LexTransitive(a[1..], b[1..], c[1..]);
    }
  }

  /** Swapping the arguments flips the sign. */
  lemma CompareAntisymmetric(a: seq<byte>, b: seq<byte>)
    ensures Compare(a, b) == -Compare(b, a)
  {
    CompareIsLexCompare(a, b);
    CompareIsLexCompare(b, a);
    LexAntisymmetric(a, b);
  }

  /** "Orders before" is transitive, so `Compare` is a total order. */
  lemma CompareTransitive(a: seq<byte>, b: seq<byte>, c: seq<byte>)
    requires Compare(a, b) == -1 && Compare(b, c) == -1
    ensures Compare(a, c) == -1
  {
    CompareIsLexCompare(a, b);
    CompareIsLexCompare(b, c);
    CompareIsLexCompare(a, c);
    LexTransitive(a, b, c);
  }

  /** Cutting both strings beyond the end of one of them does not change the order. */
  lemma {:induction false} LexTake(a: seq<byte>, b: seq<byte>, n: nat)
    requires n > |a| || n > |b|
    ensures LexCompare(Take(a, n), Take(b, n)) == LexCompare(a, b)
    decreases n
  {
    var ta, tb := Take(a, n), Take(b, n);
    if |a| > 0 && |b| > 0 && a[0] == b[0] {
      assert ta[1..] == Take(a[1..], n - 1);
      assert tb[1..] == Take(b[1..], n - 1);
      LexTake(a[1..], b[1..], n - 1);
    } else if |a| > 0 && |b| > 0 {
      assert ta[0] == a[0] && tb[0] == b[0];
    } else if |a| > 0 {
      assert |ta| > 0;
    } else if |b| > 0 {
      assert |tb| > 0;
    }
  }

  /** `strlen`: the number of bytes before the terminator. */
  function StrLen(s: seq<byte>): (n: nat)
    ensures n <= |s|
    ensures forall i :: 0 <= i < n ==> s[i] != 0
    ensures n < |s| ==> s[n] == 0
  {
    |View(s)|
  }

  /** `strcmp`, reduced to its sign. */
  function StrCmp(s1: seq<byte>, s2: seq<byte>): (r: int)
    ensures -1 <= r <= 1
    ensures r == 0 <==> View(s1) == View(s2)
    ensures r == LexCompare(View(s1), View(s2))
  {
    CompareIsLexCompare(View(s1), View(s2));
    Compare(View(s1), View(s2))
  }

  /** `strncmp`, reduced to its sign: at most `n` bytes of each string take part. */
  function StrNCmp(s1: seq<byte>, s2: seq<byte>, n: nat): (r: int)
    ensures -1 <= r <= 1
    ensures n == 0 ==> r == 0
    ensures r == 0 <==> Take(View(s1), n) == Take(View(s2), n)
    ensures r == LexCompare(Take(View(s1), n), Take(View(s2), n))
  {
    CompareIsLexCompare(Take(View(s1), n), Take(View(s2), n));
    Compare(Take(View(s1), n), Take(View(s2), n))
  }

  /** With a bound past the end of either string, `strncmp` agrees with `strcmp`. */
  lemma StrNCmpLongBound(s1: seq<byte>, s2: seq<byte>, n: nat)
    requires n > StrLen(s1) || n > StrLen(s2)
    ensures StrNCmp(s1, s2, n) == StrCmp(s1, s2)
  {
    var a, b := View(s1), View(s2);
    CompareIsLexCompare(Take(a, n), Take(b, n));
    CompareIsLexCompare(a, b);
    LexTake(a, b, n);
  }

  /** Below the terminator, the byte a C reader sees is the view's byte; at the
      view's end it sees 0. */
  lemma AtView(s: seq<byte>, i: nat)
    requires i <= StrLen(s)
    ensures i < StrLen(s) ==> At(s, i) == View(s)[i] && At(s, i) != 0
    ensures i == StrLen(s) ==> At(s, i) == 0
  {
  }

  /** Byte-by-byte `strlen`, as the C library computes it. */
  method ScanStrLen(s: seq<byte>) returns (n: nat)
    ensures n == StrLen(s)
  {
    n := 0;
    while n < |s| && s[n] != 0
      invariant n <= |s|
      invariant forall i :: 0 <= i < n ==> s[i] != 0
    {
      n := n + 1;
    }
  }

  /** Byte-by-byte `strcmp`: walk both strings while the bytes agree and the
      first has not ended, then compare the pair of bytes found as unsigned. */
  method ScanStrCmp(s1: seq<byte>, s2: seq<byte>) returns (r: int)
    ensures r == StrCmp(s1, s2)
  {
    var i: nat := 0;
    while At(s1, i) != 0 && At(s1, i) == At(s2, i)
      invariant i <= StrLen(s1) && i <= StrLen(s2)
      invariant View(s1)[..i] == View(s2)[..i]
      decreases |s1| - i
    {
      AtView(s1, i);
      AtView(s2, i);
      assert View(s1)[..i + 1] == View(s1)[..i] + [View(s1)[i]];
      assert View(s2)[..i + 1] == View(s2)[..i] + [View(s2)[i]];
      i := i + 1;
    }
    AtView(s1, i);
    AtView(s2, i);
    MismatchUnique(View(s1), View(s2), i);
    r := ByteSign(At(s1, i), At(s2, i));
  }

  /** Byte-by-byte `strncmp`: as `ScanStrCmp`, but stopping after `n` bytes. */
  method ScanStrNCmp(s1: seq<byte>, s2: seq<byte>, n: nat) returns (r: int)
    ensures r == StrNCmp(s1, s2, n)
  {
    var i: nat := 0;
    while i < n && At(s1, i) != 0 && At(s1, i) == At(s2, i)
      invariant i <= n && i <= StrLen(s1) && i <= StrLen(s2)
      invariant View(s1)[..i] == View(s2)[..i]
      decreases n - i
    {
      AtView(s1, i);
      AtView(s2, i);
      assert View(s1)[..i + 1] == View(s1)[..i] + [View(s1)[i]];
      assert View(s2)[..i + 1] == View(s2)[..i] + [View(s2)[i]];
      i := i + 1;
    }
    if i == n {
      NCmpStopAtBound(s1, s2, n);
      r := 0;
    } else {
      NCmpStopBefore(s1, s2, n, i);
      r := ByteSign(At(s1, i), At(s2, i));
    }
  }

  /** The sign of comparing two bytes as unsigned values. */
  function ByteSign(c1: byte, c2: byte): (r: int)
    ensures r == 0 <==> c1 == c2
    ensures r == -1 <==> c1 < c2
    ensures r == 1 <==> c2 < c1
  {
    if c1 < c2 then -1 else if c2 < c1 then 1 else 0
  }

  /** Both strings agree on their first `n` bytes: `strncmp` gives 0. */
  lemma NCmpStopAtBound(s1: seq<byte>, s2: seq<byte>, n: nat)
    requires n <= StrLen(s1) && n <= StrLen(s2)
    requires View(s1)[..n] == View(s2)[..n]
    ensures StrNCmp(s1, s2, n) == 0
  {
    assert Take(View(s1), n) == View(s1)[..n];
    assert Take(View(s2), n) == View(s2)[..n];
  }

  /** The walk stopped before the bound at a terminator or a differing byte:
      that pair of bytes decides `strncmp`. */
  lemma NCmpStopBefore(s1: seq<byte>, s2: seq<byte>, n: nat, i: nat)
    requires i < n && i <= StrLen(s1) && i <= StrLen(s2)
    requires View(s1)[..i] == View(s2)[..i]
    requires At(s1, i) == 0 || At(s1, i) != At(s2, i)
    ensures StrNCmp(s1, s2, n) == ByteSign(At(s1, i), At(s2, i))
  {
    AtView(s1, i);
    AtView(s2, i);
    var a, b := Take(View(s1), n), Take(View(s2), n);
    assert a[..i] == View(s1)[..i] && b[..i] == View(s2)[..i];
    assert i < |a| ==> a[i] == At(s1, i);
    assert i < |b| ==> b[i] == At(s2, i);
    MismatchUnique(a, b, i);
  }
}
