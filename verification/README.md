# xstring.h: null-tolerant string helpers and the `xstring` buffers

A Dafny model of src/xstring.h from lftp, in two parts.

1. **The null-tolerant helpers** `xstrcmp`, `xstrncmp`, `xstrcasecmp` and `xstrlen`.
   Each argument is a possibly null `char *`, modelled as `Option<seq<bv8>>`. A present
   buffer is read up to its first 0 byte; a buffer with no 0 byte is read to its end.
   The C library functions they call are modelled after ISO C11: `strlen` (section 7.24.6.3),
   `strcmp` (section 7.24.4.2) and `strncmp` (section 7.24.4.4). Bytes compare as
   `unsigned char` (section 7.24.4 paragraph 1). Only the sign of the result is modelled.
   Each of these functions has two definitions: a value definition based on the first
   differing byte, and a byte-scanning method proved to compute the same result. The
   null rules are deliberate: a null pointer against any string gives 1 in both argument
   orders, and `xstrncmp` with bound 0 gives 0 before it checks for null.
2. **The buffer classes.** `xstring_c` (module `CompactString`) owns one buffer or none.
   `xstring` (module `DynamicString`) is a record `(buf, size, len)`. Its invariant
   `DynamicString.Valid` says: no buffer means `size == len == 0`; a present buffer has
   `size` bytes, `len < size`, and a 0 at offset `len`. Every operation except a raw write
   through the mutable buffer (`DynamicString.Write`) keeps the invariant; such a write only
   keeps the buffer allocated, and `set_length` restores the invariant afterwards.
   `CompactString.Terminated` is the compact string's invariant: no buffer, or one holding a 0. The
   lemma `ExtendInPlace` proves that the sequence `get_space`, write, `set_length` appends
   exactly the bytes written.

Modules: `Wrappers` (Option), `CString` (the C library functions), `NullTolerant`
(the `x*` helpers), `CompactString` (`xstring_c`) and `DynamicString` (`xstring`).
Integers are unbounded; `size_t` never wraps in this model.

## Model

| member | source | states |
|---|---|---|
| CString.View | src/xstring.h:87-92 | the C string in a buffer is its longest zero-free prefix, ending at the first 0 byte or at the buffer's end |
| CString.StrLen | src/xstring.h:91 | `strlen` is the unique count n such that bytes 0..n-1 are nonzero and byte n (if any) is 0 |
| CString.ScanStrLen | src/xstring.h:91 | the byte-by-byte scan for the terminator computes `strlen` |
| CString.Compare | src/xstring.h:69 | the three-way unsigned comparison decided by the first differing byte is 0 exactly for equal strings and always in -1..1 |
| CString.CompareIsLexCompare | src/xstring.h:69 | the first-difference comparison equals head-first lexicographic order |
| CString.CompareAntisymmetric | src/xstring.h:69 | swapping the strings flips the comparison's sign |
| CString.CompareTransitive | src/xstring.h:69 | "orders before" is transitive, so the comparison is a total order |
| CString.StrCmp | src/xstring.h:69 | `strcmp` gives a sign in -1..1, 0 exactly when the two C strings are equal, and otherwise the sign of their lexicographic order |
| CString.ScanStrCmp | src/xstring.h:69 | walking both strings while the bytes agree and the first is not at its terminator, then comparing the stopping pair as unsigned, gives the `strcmp` result |
| CString.StrNCmp | src/xstring.h:77 | `strncmp` gives 0 for bound 0, 0 exactly when the first `n` bytes of the two C strings agree, and otherwise the sign of the lexicographic order of those first `n` bytes |
| CString.StrNCmpLongBound | src/xstring.h:77 | a bound larger than either string's length makes `strncmp` agree with `strcmp` |
| CString.ScanStrNCmp | src/xstring.h:77 | the bounded byte walk computes `strncmp` |
| NullTolerant.XStrCmp | src/xstring.h:63-70 | `xstrcmp` is 0 exactly when both arguments are null or both hold equal C strings; exactly one null gives 1; two strings get the sign of their lexicographic order |
| NullTolerant.XStrCmpReflexive | src/xstring.h:65-66 | equal arguments give 0, which the identical-pointer shortcut returns |
| NullTolerant.XStrCmpNotAntisymmetric | src/xstring.h:67-68 | a null pointer against any string gives 1 in both argument orders, so `xstrcmp(a,b) != -xstrcmp(b,a)` there |
| NullTolerant.XStrCmpAntisymmetricWhenPresent | src/xstring.h:69 | between two strings, swapping the arguments flips the sign |
| NullTolerant.XStrNCmp | src/xstring.h:71-78 | `xstrncmp` gives 0 for bound 0 even with null arguments; with a nonzero bound, null rules as for `xstrcmp`; for two strings, the sign of the lexicographic order of their first `len` bytes, 0 exactly when those agree |
| NullTolerant.XStrNCmpOnlyPrefix | src/xstring.h:77 | replacing either or both arguments by ones with the same first `len` bytes does not change the result |
| NullTolerant.XStrNCmpLongBound | src/xstring.h:71-78 | with a nonzero bound reaching past a present argument's end, or with a null argument, `xstrncmp` equals `xstrcmp` |
| NullTolerant.XStrCaseCmp | src/xstring.h:79-86 | `xstrcasecmp` uses the null rules of `xstrcmp`; two strings give 0 exactly when they are equal after case folding |
| NullTolerant.XStrCaseCmpIdentity | src/xstring.h:79-86 | with the identity folding, `xstrcasecmp` equals `xstrcmp` on every input |
| NullTolerant.XStrLen | src/xstring.h:87-92 | `xstrlen` is 0 for a null pointer, otherwise the number of bytes before the first 0 |
| NullTolerant.XStrLenIsContentsLength | src/xstring.h:87-92 | `xstrlen` of a present argument is the length of the C string `xstrcmp` compares |
| NullTolerant.XStrLenNullVersusEmpty | src/xstring.h:87-90 | a null pointer and an empty string both have length 0, yet `xstrcmp` tells them apart |
| CompactString.Dup | src/xstring.h:122 | duplicating keeps null as null and gives the C string's bytes plus one terminator |
| CompactString.DupKeepsContents | src/xstring.h:122 | a duplicate holds the same C string as its original |
| CompactString.Empty | src/xstring.h:121 | the default constructor holds no buffer, which satisfies the invariant, and its `xstrlen` is 0 |
| CompactString.FromText | src/xstring.h:122 | constructing from `s` holds a null-terminated buffer with the same C string as `s`, null exactly for null |
| CompactString.Set | src/xstring.h:123 | `set(s)` installs a null-terminated buffer (null exactly for null) whose C string equals `s`'s and returns it |
| CompactString.SetAllocated | src/xstring.h:124 | `set_allocated(p)` installs `p` itself, with no copy, and returns `p`; the invariant then holds exactly when `p` is null or terminated |
| CompactString.Truncate | src/xstring.h:125 | `truncate(n)` writes 0 at `n`, so the buffer is terminated, and changes no other byte; with `n` at most the string length the C string becomes its first `n` bytes, beyond it nothing visible changes |
| DynamicString.Valid | src/xstring.h:131-132 | the `xstring` invariant: no buffer means `size == len == 0`; a buffer has exactly `size` bytes, `len < size`, and a 0 at offset `len` |
| DynamicString.ValidCapacity | src/xstring.h:170 | under the invariant, zero capacity means no buffer, and a buffer has room for the content plus the terminator, which sits at offset `len` |
| DynamicString.Content | src/xstring.h:131-132 | the stored content has `len` bytes and is followed by the terminator in the buffer |
| DynamicString.Init | src/xstring.h:134 | `init()` leaves no buffer, a valid state, empty content and length 0 |
| DynamicString.New | src/xstring.h:144 | the default constructor gives no buffer, size 0, empty content and length 0 |
| DynamicString.Length | src/xstring.h:151 | `length()` on a valid string is the content length, below the capacity when a buffer is present and 0 without one |
| DynamicString.CStringView | src/xstring.h:107-108 | the C string read through `get()` is the content up to its first 0, no longer than `length()`, and equally long exactly when the content holds no 0 |
| DynamicString.GetSpace | src/xstring.h:148-149 | `get_space(s)` keeps the invariant, content and length; afterwards capacity is at least `s` and never smaller than before; a large enough buffer is left alone |
| DynamicString.GetSpaceIdempotent | src/xstring.h:148-149 | a second `get_space` for no more room than the first changes nothing |
| DynamicString.Write | src/xstring.h:109 | writing through `get_non_const` puts the given bytes at the given offset and changes no other byte, the capacity or the recorded length |
| DynamicString.SetLength | src/xstring.h:168-170 | `set_length(n)` on a present buffer with `n < size` restores the invariant, sets the length to `n`, writes 0 at `n` and changes no other byte or the capacity, so it can extend as well as shorten |
| DynamicString.SetLengthShortens | src/xstring.h:170 | shortening with `set_length(n)` leaves the first `n` bytes of the content |
| DynamicString.ExtendInPlace | src/xstring.h:168-170 | `get_space` for the new length plus terminator makes the following `set_length` legal, and writing bytes after the content then committing appends exactly those bytes |
| DynamicString.NSet | src/xstring.h:156 | `nset(s, n)` leaves a valid string of length `n` and returns its buffer; from a present source the content is exactly the first `n` source bytes, embedded zeros included, without shrinking capacity; a null source gives the `init()` state |
| DynamicString.Set | src/xstring.h:153-154 | `set` from another `xstring` copies its content and length exactly, is null exactly when the source is, and returns the new buffer |
| DynamicString.SameContentSameCString | src/xstring.h:107-108 | two valid strings with equal content, both null or both present, show the same C string through `get()` |
| DynamicString.SetReplacesView | src/xstring.h:153 | after `set`, the C string read through `get()` is the source's, with no leftover of the old content |
| DynamicString.Copy | src/xstring.h:145 | the copy constructor gives a valid string with the source's content and length, null exactly when the source is |
| DynamicString.CopyComparesEqual | src/xstring.h:145 | a copy compares equal to its original under `xstrcmp`, including the copy of a default-constructed string |

## Left out

- The preprocessor portability shims (src/xstring.h:28-47) and the libc declarations of `strcasecmp`, `strncasecmp`, `vsnprintf` and `snprintf` (src/xstring.h:51-61). They have no behaviour of their own.
- Pointer identity. The `s1==s2` shortcut of `xstrcmp`, `xstrncmp` and `xstrcasecmp` cannot be expressed over values. Value-equal arguments give 0 anyway (`XStrCmpReflexive`). Aliasing, such as `set` from the string itself, is invisible in the model.
- Reading past a buffer that has no 0 byte is undefined in C. The model reads such a buffer to its end.
- NullTolerant.XStrCaseCmp: the locale's case folding (`tolower`) is a parameter `fold`, not a definition.
- The allocator (`xstrdup`, `xstrset`, `xfree`, `xmalloc.h` is not part of this model) and the destructors. Copying and adoption are plain value assignment. Allocation failure, which is fatal, is not modelled.
- The private assignment operators that block `= xstrdup()` (src/xstring.h:115-118, src/xstring.h:138-141) and the implicit `operator const char*`. These are type-system restrictions with no runtime behaviour.
- DynamicString.GetSpace: its body is not in the header. The model grows to exactly the requested size with a zero-filled tail. The granularity argument `g` and its rounding are not modelled. The header comment promises only room for `s` bytes. The contract also promises that content and length are kept, that capacity never shrinks, and that a large enough buffer is left alone. These come from the documented growth design of `xstring`, not from the header, and `GetSpaceIdempotent` rests on the last of them.
- DynamicString.NSet: its body is not in the header. The model is `get_space(n+1)`, a copy, then `set_length(n)`. For a null source, which `set` passes only with length 0, the model releases the buffer and returns to the `init()` state, so a copy of an empty string stays null; the header does not show this choice. The `int` length parameter is unbounded here: the `size_t` to `int` conversion in `set(xstring&)` is not modelled.
- DynamicString.Copy: `init(const char*,int)` has no body in the header. It is modelled as `nset` onto an `init()`ed string.
- Bodies not in the header: `xstring(const char*)`, `init(const char*)`, `set(const char*)`, `xstring::set_allocated`, `set_substr`, `append`, `truncate`, `truncate_at`, `vstrlen`, `vappend` and `vset`. Stating their algorithms would be invention. The variadic sentinel machinery is left out with them.
