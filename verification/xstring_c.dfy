/** `xstring_c`, the compact variant of src/xstring.h: it owns one buffer or
    none. Allocation is not modelled: duplicating a string gives its value,
    adopting a buffer takes the buffer value itself. */
module CompactString {
  import opened Wrappers
  import opened CString
  import NullTolerant

  datatype XStringC = XStringC(buf: Option<seq<byte>>)

  /** The compact string's invariant: no buffer, or a null-terminated one. */
  predicate Terminated(c: XStringC)
  {
    c.buf.Some? ==> 0 in c.buf.value
  }

  /** The allocator's duplicate of a possibly null C string: its bytes up to the
      terminator followed by a fresh terminator; the null pointer stays null. */
  function Dup(s: Option<seq<byte>>): (r: Option<seq<byte>>)
    ensures r.None? <==> s.None?
    ensures r.Some? ==> |r.value| == StrLen(s.value) + 1 && r.value[StrLen(s.value)] == 0
  {
    match s
    case None => None
    case Some(b) => Some(View(b) + [0])
  }

  /** A duplicate holds the same C string as its original. */
  lemma DupKeepsContents(s: Option<seq<byte>>)
    ensures NullTolerant.Contents(Dup(s)) == NullTolerant.Contents(s)
  {
    match s
    case None =>
    case Some(b) =>
      var v := View(b);
      assert v + [0] == v + [0] + [];
      ViewOfTerminated(v, []);
      ViewOfZeroFree(v);
      assert View(v + [0]) == v;
  }

  /** `xstring_c()`: no buffer. */
  function Empty(): (c: XStringC)
    ensures c.buf.None? && Terminated(c)
    ensures NullTolerant.XStrLen(c.buf) == 0
  {
    XStringC(None)
  }

  /** `xstring_c(s)`: owns a duplicate of `s`. */
  function FromText(s: Option<seq<byte>>): (c: XStringC)
    ensures Terminated(c) && (c.buf.None? <==> s.None?)
    ensures NullTolerant.Contents(c.buf) == NullTolerant.Contents(s)
  {
    DupKeepsContents(s);
    XStringC(Dup(s))
  }

  /** `set(s)`: replaces the buffer by a duplicate of `s` and returns the new buffer. */
  function Set(c: XStringC, s: Option<seq<byte>>): (r: (XStringC, Option<seq<byte>>))
    ensures Terminated(r.0) && (r.0.buf.None? <==> s.None?)
    ensures NullTolerant.Contents(r.0.buf) == NullTolerant.Contents(s)
    ensures r.1 == r.0.buf
  {
    DupKeepsContents(s);
    (XStringC(Dup(s)), Dup(s))
  }

  /** `set_allocated(p)`: releases the old buffer, installs `p` itself (no copy)
      and returns it. */
  function SetAllocated(c: XStringC, p: Option<seq<byte>>): (r: (XStringC, Option<seq<byte>>))
    ensures r.0.buf == p && r.1 == p
    ensures Terminated(r.0) <==> p.None? || 0 in p.value
    ensures NullTolerant.Contents(r.0.buf) == NullTolerant.Contents(p)
  {
    (XStringC(p), p)
  }

  /** `truncate(n)`: writes a terminator at offset `n`, which must lie inside the
      buffer. Cutting at or before the current end leaves exactly the first `n`
      bytes as the C string; cutting beyond it changes nothing visible. */
  function Truncate(c: XStringC, n: nat): (r: XStringC)
    requires c.buf.Some? && n < |c.buf.value|
    ensures r.buf.Some? && |r.buf.value| == |c.buf.value| && Terminated(r)
    ensures r.buf.value[n] == 0
    ensures forall i :: 0 <= i < |c.buf.value| && i != n ==> r.buf.value[i] == c.buf.value[i]
    ensures n <= StrLen(c.buf.value) ==> View(r.buf.value) == View(c.buf.value)[..n]
    ensures n > StrLen(c.buf.value) ==> View(r.buf.value) == View(c.buf.value)
  {
    var b := c.buf.value;
    var b' := b[n := 0];
    if n <= StrLen(b) then
      assert b'[..n] == b[..n];
      ViewUnique(b', n);
      XStringC(Some(b'))
    else
      var k := StrLen(b);
      assert b'[..k] == b[..k];
      ViewUnique(b', k);
      XStringC(Some(b'))
  }
}
