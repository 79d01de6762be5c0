/** `xstring`, the full variant of src/xstring.h: a buffer of `size` bytes
    holding `len` bytes of content followed by a terminator. The content may
    itself contain 0 bytes; `len`, not the first 0, says where it ends. */
module DynamicString {
  import opened Wrappers
  import opened CString
  import NullTolerant

  datatype XString = XString(buf: Option<seq<byte>>, size: nat, len: nat)

  /** The class invariant: no buffer means nothing allocated and nothing
      stored; a buffer has `size` bytes, room for the content and its
      terminator, and the terminator at offset `len`. */
  predicate Valid(x: XString)
  {
    match x.buf
    case None => x.size == 0 && x.len == 0
    case Some(b) => |b| == x.size && x.len < x.size && b[x.len] == 0
  }

  /** The invariant's consequences: nothing allocated means no buffer; a
      buffer has room for the content plus its terminator. */
  lemma ValidCapacity(x: XString)
    requires Valid(x)
    ensures x.size == 0 ==> x.buf.None?
    ensures x.buf.Some? ==> x.size >= x.len + 1 && x.buf.value[x.len] == 0
  {
  }

  /** A buffer of `size` bytes is present, whatever it holds: the state in which
      the caller may write through `get_non_const`. */
  predicate Allocated(x: XString)
  {
    x.buf.Some? && |x.buf.value| == x.size
  }

  /** The bytes the string stores. */
  function Content(x: XString): (c: seq<byte>)
    requires Valid(x)
    ensures |c| == x.len
    ensures x.buf.Some? ==> c + [0] == x.buf.value[..x.len + 1]
  {
    match x.buf
    case None => []
    case Some(b) => b[..x.len]
  }

  /** `init()`: no buffer, `size == len == 0`. */
  function Init(): (x: XString)
    ensures Valid(x) && x.buf.None?
    ensures Content(x) == [] && Length(x) == 0
  {
    XString(None, 0, 0)
  }

  /** `xstring()`: the default constructor runs `init()`. */
  function New(): (x: XString)
    ensures Valid(x) && x.buf.None? && x.size == 0
    ensures Content(x) == [] && Length(x) == 0
  {
    Init()
  }

  /** `length()`: the stored content's length, which on a buffer is below the
      capacity. */
  function Length(x: XString): (n: nat)
    ensures Valid(x) ==> n == |Content(x)|
    ensures Valid(x) && x.buf.Some? ==> n < x.size
    ensures Valid(x) && x.buf.None? ==> n == 0
  {
    x.len
  }

  /** The C string a reader of the buffer sees (through `get()`) is the content
      up to its first 0 byte, and it is never longer than `length()`. */
  lemma CStringView(x: XString)
    requires Valid(x) && x.buf.Some?
    ensures View(x.buf.value) == View(Content(x))
    ensures StrLen(x.buf.value) <= Length(x)
    ensures ZeroFree(Content(x)) <==> StrLen(x.buf.value) == Length(x)
  {
    var b := x.buf.value;
    assert b == Content(x) + [0] + b[x.len + 1..];
    ViewOfTerminated(Content(x), b[x.len + 1..]);
    if ZeroFree(Content(x)) {
      ViewOfZeroFree(Content(x));
    }
  }

  /** `s` zero bytes. */
  function Zeros(n: nat): (z: seq<byte>)
    ensures |z| == n && forall i :: 0 <= i < n ==> z[i] == 0
  {
    seq(n, _ => 0)
  }

  /** `get_space(s)`: afterwards the buffer has room for at least `s` bytes,
      the content and length are kept, and a buffer that was already large
      enough is left alone. Growth is to exactly `s` bytes. */
  function GetSpace(x: XString, s: nat): (r: XString)
    requires Valid(x)
    ensures Valid(r)
    ensures r.size >= s && r.size >= x.size
    ensures r.len == x.len && Content(r) == Content(x)
    ensures s > 0 ==> r.buf.Some?
    ensures x.size >= s ==> r == x
  {
    if s <= x.size then x
    else
      match x.buf
      case None => XString(Some(Zeros(s)), s, 0)
      case Some(b) =>
        var b' := b + Zeros(s - x.size);
        assert b'[..x.len] == b[..x.len];
        XString(Some(b'), s, x.len)
  }

  /** Asking again for no more room than already granted changes nothing. */
  lemma GetSpaceIdempotent(x: XString, s: nat, t: nat)
    requires Valid(x) && t <= s
    ensures GetSpace(GetSpace(x, s), t) == GetSpace(x, s)
  {
  }

  /** Writing `data` at offset `off` through the mutable buffer (`get_non_const`).
      Only the length bookkeeping is suspended: the invariant may be broken
      until `set_length` re-establishes it. */
  function Write(x: XString, off: nat, data: seq<byte>): (r: XString)
    requires Allocated(x) && off + |data| <= x.size
    ensures Allocated(r) && r.size == x.size && r.len == x.len
    ensures forall i :: 0 <= i < |data| ==> r.buf.value[off + i] == data[i]
    ensures forall i :: 0 <= i < x.size && !(off <= i < off + |data|) ==>
              r.buf.value[i] == x.buf.value[i]
  {
    var b := x.buf.value;
    XString(Some(b[..off] + data + b[off + |data|..]), x.size, x.len)
  }

  /** `set_length(n)`: the caller declares the content length; the terminator
      is written at `n`, every other byte and the capacity stay as they are.
      It may lengthen the string as well as shorten it. */
  function SetLength(x: XString, n: nat): (r: XString)
    requires Allocated(x) && n < x.size
    ensures Valid(r) && r.buf.Some?
    ensures Length(r) == n && r.size == x.size
    ensures r.buf.value[n] == 0
    ensures forall i :: 0 <= i < x.size && i != n ==> r.buf.value[i] == x.buf.value[i]
    ensures Content(r) == x.buf.value[..n]
  {
    XString(Some(x.buf.value[n := 0]), x.size, n)
  }

  /** Shortening with `set_length` keeps the first `n` bytes of the content. */
  lemma SetLengthShortens(x: XString, n: nat)
    requires Valid(x) && x.buf.Some? && n <= x.len
    ensures Content(SetLength(x, n)) == Content(x)[..n]
  {
  }

  /** The extension pattern: `get_space` for the new length plus terminator,
      write the new bytes after the content through the mutable buffer, then
      `set_length`. The content grows by exactly the bytes written. */
  lemma {:induction false} ExtendInPlace(x: XString, data: seq<byte>)
    requires Valid(x)
    ensures var y := GetSpace(x, x.len + |data| + 1);
            Allocated(y) && x.len + |data| < y.size &&
            var w := SetLength(Write(y, x.len, data), x.len + |data|);
            Valid(w) && Content(w) == Content(x) + data && Length(w) == Length(x) + |data|
  {
    var y := GetSpace(x, x.len + |data| + 1);
    var z := Write(y, x.len, data);
    var w := SetLength(z, x.len + |data|);
    var c := Content(w);
    assert y.buf.value[..x.len] == Content(x);
    forall i | 0 <= i < x.len + |data|
      ensures c[i] == (Content(x) + data)[i]
    {
      if i < x.len {
        assert y.buf.value[..x.len][i] == y.buf.value[i];
      } else {
        assert z.buf.value[x.len + (i - x.len)] == data[i - x.len];
      }
    }
  }

  /** `nset(s, n)`: the content becomes exactly the first `n` bytes at `s`
      (embedded zeros included), terminated, with room made by `get_space`; the
      new buffer is returned. A null source is only passed with `n == 0`; it
      releases the buffer and returns the string to its `init()` state. */
  function NSet(x: XString, s: Option<seq<byte>>, n: nat): (r: (XString, Option<seq<byte>>))
    requires Valid(x)
    requires s.None? ==> n == 0
    requires s.Some? ==> n <= |s.value|
    ensures Valid(r.0) && Length(r.0) == n && r.1 == r.0.buf
    ensures s.Some? ==> r.0.buf.Some? && r.0.size >= x.size && Content(r.0) == s.value[..n]
    ensures s.None? ==> r.0.buf.None? && Content(r.0) == []
  {
    if s.None? then (Init(), None)
    else
      var bytes := s.value[..n];
      var y := GetSpace(x, n + 1);
      var z := Write(y, 0, bytes);
      var r := SetLength(z, n);
      assert Content(r) == bytes by {
        forall i | 0 <= i < n
          ensures Content(r)[i] == bytes[i]
        {
          assert z.buf.value[0 + i] == bytes[i];
        }
      }
      (r, r.buf)
  }

  /** `set(s)` for another `xstring`: `nset` of its buffer and its length, so
      the copy keeps embedded zeros and nothing of the old content survives;
      the new buffer is returned. */
  function Set(x: XString, s: XString): (r: (XString, Option<seq<byte>>))
    requires Valid(x) && Valid(s)
    ensures Valid(r.0) && r.1 == r.0.buf
    ensures Content(r.0) == Content(s) && Length(r.0) == Length(s)
    ensures r.0.buf.None? <==> s.buf.None?
    ensures s.buf.Some? ==> r.0.size >= x.size
  {
    NSet(x, s.buf, s.len)
  }

  /** Two valid strings with the same content hold the same C string, and
      both are null or neither is. */
  lemma SameContentSameCString(x: XString, y: XString)
    requires Valid(x) && Valid(y) && Content(x) == Content(y)
    requires x.buf.None? <==> y.buf.None?
    ensures NullTolerant.Contents(x.buf) == NullTolerant.Contents(y.buf)
  {
    if x.buf.Some? {
      CStringView(x);
      CStringView(y);
    }
  }

  /** After `set`, a C-string reader sees the source's C string and no
      leftover of the previous content. */
  lemma SetReplacesView(x: XString, s: XString)
    requires Valid(x) && Valid(s)
    ensures NullTolerant.Contents(Set(x, s).0.buf) == NullTolerant.Contents(s.buf)
  {
    SameContentSameCString(Set(x, s).0, s);
  }

  /** `xstring(const xstring &s)`: a new string initialised with the source's
      buffer and length. */
  function Copy(s: XString): (r: XString)
    requires Valid(s)
    ensures Valid(r)
    ensures Content(r) == Content(s) && Length(r) == Length(s)
    ensures r.buf.None? <==> s.buf.None?
  {
    NSet(Init(), s.buf, s.len).0
  }

  /** A copy compares equal to its original under `xstrcmp`, a copy of an
      empty default-constructed string included. */
  lemma CopyComparesEqual(s: XString)
    requires Valid(s)
    ensures NullTolerant.XStrCmp(s.buf, Copy(s).buf) == 0
  {
    SameContentSameCString(s, Copy(s));
  }
}
