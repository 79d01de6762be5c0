/** The null-tolerant wrappers `xstrcmp`, `xstrncmp`, `xstrcasecmp` and
    `xstrlen` of src/xstring.h. Each argument is a possibly null `char *`:
    `None` for the null pointer, `Some(buf)` for a buffer read up to its first
    0 byte. The C library call they delegate to is reduced to its sign. */
module NullTolerant {
  import opened Wrappers
  import opened CString

  /** The C string an argument points to, or `None` for the null pointer. */
  function Contents(s: Option<seq<byte>>): (r: Option<seq<byte>>)
    ensures r.None? <==> s.None?
  {
    match s
    case None => None
    case Some(b) => Some(View(b))
  }

  /** `xstrcmp`: two null pointers are equal, a null pointer against a string
      gives 1 whichever side it is on, two strings are compared by `strcmp`. */
  function XStrCmp(s1: Option<seq<byte>>, s2: Option<seq<byte>>): (r: int)
    ensures -1 <= r <= 1
    ensures r == 0 <==> Contents(s1) == Contents(s2)
    ensures s1.None? != s2.None? ==> r == 1
    ensures r == -1 ==> s1.Some? && s2.Some? && Compare(View(s1.value), View(s2.value)) == -1
    ensures s1.Some? && s2.Some? ==> r == LexCompare(View(s1.value), View(s2.value))
  {
    match (s1, s2)
    case (None, None) => 0
    case (None, Some(_)) => 1
    case (Some(_), None) => 1
    case (Some(a), Some(b)) => StrCmp(a, b)
  }

  /** Equal arguments compare equal, as the identical-pointer shortcut promises. */
  lemma XStrCmpReflexive(s: Option<seq<byte>>)
    ensures XStrCmp(s, s) == 0
  {
  }

  /** The absent-value rule breaks antisymmetry: a null pointer and any string
      compare as 1 in both orders. */
  lemma XStrCmpNotAntisymmetric(p: seq<byte>)
    ensures XStrCmp(None, Some(p)) == 1 && XStrCmp(Some(p), None) == 1
    ensures XStrCmp(None, Some(p)) != -XStrCmp(Some(p), None)
  {
  }

  /** Between two strings, swapping the arguments flips the sign. */
  lemma XStrCmpAntisymmetricWhenPresent(a: seq<byte>, b: seq<byte>)
    ensures XStrCmp(Some(a), Some(b)) == -XStrCmp(Some(b), Some(a))
  {
    CompareAntisymmetric(View(a), View(b));
  }

  /** `xstrncmp`: a zero bound gives 0 before any null check; otherwise the
      null rules of `xstrcmp` apply and two strings are compared by `strncmp`. */
  function XStrNCmp(s1: Option<seq<byte>>, s2: Option<seq<byte>>, len: nat): (r: int)
    ensures -1 <= r <= 1
    ensures len == 0 ==> r == 0
    ensures len > 0 && s1.None? && s2.None? ==> r == 0
    ensures len > 0 && s1.None? != s2.None? ==> r == 1
    ensures s1.Some? && s2.Some? ==>
              (r == 0 <==> Take(View(s1.value), len) == Take(View(s2.value), len))
    ensures len > 0 && s1.Some? && s2.Some? ==>
              r == LexCompare(Take(View(s1.value), len), Take(View(s2.value), len))
  {
    if len == 0 then 0
    else
      match (s1, s2)
      case (None, None) => 0
      case (None, Some(_)) => 1
      case (Some(_), None) => 1
      case (Some(a), Some(b)) => StrNCmp(a, b, len)
  }

  /** Only the first `len` bytes take part: replacing either argument by one
      with the same first `len` bytes does not change the result. */
  lemma XStrNCmpOnlyPrefix(a: seq<byte>, a': seq<byte>, b: seq<byte>, b': seq<byte>, len: nat)
    requires Take(View(a), len) == Take(View(a'), len)
    requires Take(View(b), len) == Take(View(b'), len)
    ensures XStrNCmp(Some(a), Some(b), len) == XStrNCmp(Some(a'), Some(b'), len)
  {
  }

  /** A bound that is nonzero and reaches past the end of a present argument
      makes `xstrncmp` agree with `xstrcmp`. */
  lemma XStrNCmpLongBound(s1: Option<seq<byte>>, s2: Option<seq<byte>>, len: nat)
    requires len > 0
    requires (s1.Some? && len > StrLen(s1.value)) || (s2.Some? && len > StrLen(s2.value))
             || s1.None? || s2.None?
    ensures XStrNCmp(s1, s2, len) == XStrCmp(s1, s2)
  {
    if s1.Some? && s2.Some? {
      StrNCmpLongBound(s1.value, s2.value, len);
    }
  }

  /** `s` with every byte passed through `fold`. */
  function Fold(fold: byte -> byte, s: seq<byte>): (r: seq<byte>)
    ensures |r| == |s|
    ensures forall i :: 0 <= i < |s| ==> r[i] == fold(s[i])
  {
    seq(|s|, i requires 0 <= i < |s| => fold(s[i]))
  }

  /** `xstrcasecmp`: the null rules of `xstrcmp`; two strings are compared
      after the locale's case folding `fold` has been applied to every byte. */
  function XStrCaseCmp(s1: Option<seq<byte>>, s2: Option<seq<byte>>, fold: byte -> byte): (r: int)
    ensures -1 <= r <= 1
    ensures s1.None? && s2.None? ==> r == 0
    ensures s1.None? != s2.None? ==> r == 1
    ensures s1.Some? && s2.Some? ==>
              (r == 0 <==> Fold(fold, View(s1.value)) == Fold(fold, View(s2.value)))
  {
    match (s1, s2)
    case (None, None) => 0
    case (None, Some(_)) => 1
    case (Some(_), None) => 1
    case (Some(a), Some(b)) => Compare(Fold(fold, View(a)), Fold(fold, View(b)))
  }

  /** Without case folding, `xstrcasecmp` is `xstrcmp`. */
  lemma XStrCaseCmpIdentity(s1: Option<seq<byte>>, s2: Option<seq<byte>>)
    ensures XStrCaseCmp(s1, s2, b => b) == XStrCmp(s1, s2)
  {
    if s1.Some? && s2.Some? {
      var a, b := View(s1.value), View(s2.value);
      assert Fold(c => c, a) == a;
      assert Fold(c => c, b) == b;
    }
  }

  /** `xstrlen`: 0 for a null pointer, otherwise the number of bytes before
      the first 0. */
  function XStrLen(s: Option<seq<byte>>): (n: nat)
    ensures s.None? ==> n == 0
    ensures s.Some? ==> n <= |s.value|
    ensures s.Some? ==> forall i :: 0 <= i < n ==> s.value[i] != 0
    ensures s.Some? && n < |s.value| ==> s.value[n] == 0
  {
    match s
    case None => 0
    case Some(b) => StrLen(b)
  }

  /** `xstrlen` is the length of the string `xstrcmp` compares. */
  lemma XStrLenIsContentsLength(s: Option<seq<byte>>)
    requires s.Some?
    ensures Contents(s).Some? && XStrLen(s) == |Contents(s).value|
  {
  }

  /** A null pointer and a pointer to an empty string both have length 0 but
      do not compare equal. */
  lemma XStrLenNullVersusEmpty()
    ensures XStrLen(None) == XStrLen(Some([0])) == 0
    ensures XStrCmp(None, Some([0])) == 1
  {
  }
}
