/**
 * The kernel's C string and memory primitives.
 *
 * A C string is a byte sequence read up to its first `EOS`; the read-only
 * routines are functions of the bytes they may look at, the writing routines
 * are methods that store into an `array<byte>` starting at index `d` (the
 * `dest` pointer) and return the index the C routine returns. Source strings
 * are taken by value, so overlapping `src`/`dest` regions are not modelled.
 * `char` is signed here: comparisons order bytes by their signed value.
 */
module CString {
  import opened Base

  /** The C string held at the front of `s`: `s` contains its terminator. */
  predicate Terminated(s: seq<byte>)
  {
    EOS in s
  }

  /** `strlen`: the number of bytes before the first `EOS`. */
  function Strlen(s: seq<byte>): (n: nat)
    requires Terminated(s)
    ensures n < |s| && s[n] == EOS
    ensures forall k :: 0 <= k < n ==> s[k] != EOS
  {
    if s[0] == EOS then 0 else 1 + Strlen(s[1..])
  }

  /** The characters of the C string at the front of `s`, without its terminator. */
  function Text(s: seq<byte>): (t: seq<byte>)
    requires Terminated(s)
    ensures |t| < |s| && EOS !in t && t + [EOS] == s[..|t| + 1]
  {
    s[..Strlen(s)]
  }

  /** A C string that does not start with its terminator is its first byte followed by the rest. */
  lemma TextCons(s: seq<byte>)
    requires Terminated(s) && s[0] != EOS
    ensures Terminated(s[1..]) && Text(s) == [s[0]] + Text(s[1..])
  {
    assert s == [s[0]] + s[1..];
    assert Strlen(s) == 1 + Strlen(s[1..]);
  }

  /** The text is empty exactly when the string starts with its terminator, and otherwise starts with the first byte. */
  lemma TextHead(s: seq<byte>)
    requires Terminated(s)
    ensures s[0] == EOS <==> Text(s) == []
    ensures s[0] != EOS ==> Text(s)[0] == s[0]
  {
  }

  /** A byte read as the signed `char` C compares. */
  function Signed(b: byte): int
  {
    if b < 128 then b else b - 256
  }

  /** The sign C returns for two differing characters: 1 if `l > r`, else -1. */
  function Order(l: byte, r: byte): int
  {
    if Signed(l) > Signed(r) then 1 else -1
  }

  /**
   * `strcmp`: 0 exactly when both strings are equal through their
   * terminators, otherwise the order of the first pair that differs.
   */
  function Strcmp(a: seq<byte>, b: seq<byte>): (r: int)
    requires Terminated(a) && Terminated(b)
    ensures r == 0 <==> Text(a) == Text(b)
    ensures r == 0 || r == Order(a[Mismatch(a, b)], b[Mismatch(a, b)])
  {
    if a[0] != b[0] then
      TextHead(a);
      TextHead(b);
      Order(a[0], b[0])
    else if a[0] == EOS then
      TextHead(a);
      TextHead(b);
      0
    else
      TextCons(a);
      TextCons(b);
      var r := Strcmp(a[1..], b[1..]);
      assert ([a[0]] + Text(a[1..]))[1..] == Text(a[1..]) && ([a[0]] + Text(b[1..]))[1..] == Text(b[1..]);
      r
  }

  /**
   * The index of the first differing pair of two different strings: both
   * agree before it, and it lies at or before both terminators.
   */
  function Mismatch(a: seq<byte>, b: seq<byte>): (i: nat)
    requires Terminated(a) && Terminated(b)
    ensures i <= Strlen(a) && i <= Strlen(b)
    ensures forall k :: 0 <= k < i ==> a[k] == b[k]
    ensures Text(a) != Text(b) ==> a[i] != b[i]
  {
    if a[0] != b[0] || a[0] == EOS then 0
    else
      TextCons(a);
      TextCons(b);
      1 + Mismatch(a[1..], b[1..])
  }

  /**
   * `memcmp`: 0 exactly when the first `count` bytes agree, otherwise
   * -1 or 1 by the first pair that differs (`*lhs < *rhs ? -1 : 1`).
   */
  function Memcmp(a: seq<byte>, b: seq<byte>, count: nat): (r: int)
    requires count <= |a| && count <= |b|
    ensures r == 0 <==> a[..count] == b[..count]
    ensures r != 0 ==> exists i :: 0 <= i < count && a[..i] == b[..i] && a[i] != b[i] && r == Order(a[i], b[i])
  {
    if count == 0 then 0
    else if a[0] != b[0] then
      assert a[..0] == b[..0];
      Order(a[0], b[0])
    else
      var r := Memcmp(a[1..], b[1..], count - 1);
      assert a[..count] == [a[0]] + a[1..][..count - 1] && b[..count] == [b[0]] + b[1..][..count - 1];
      if r != 0 then
        var i :| 0 <= i < count - 1 && a[1..][..i] == b[1..][..i] && a[1..][i] != b[1..][i] && r == Order(a[1..][i], b[1..][i]);
        assert a[..i + 1] == [a[0]] + a[1..][..i] && b[..i + 1] == [b[0]] + b[1..][..i];
        r
      else
        r
  }

  /** `strchr`: the index of the first `ch` before the terminator, or NULL; searching for `EOS` gives NULL. */
  function Strchr(s: seq<byte>, ch: byte): (r: Option<nat>)
    requires Terminated(s)
    ensures r.Some? <==> ch in Text(s)
    ensures r.Some? ==> r.value < Strlen(s) && s[r.value] == ch && ch !in s[..r.value]
  {
    if s[0] == EOS then None
    else if s[0] == ch then Some(0)
    else
      var r := Strchr(s[1..], ch);
      assert Text(s) == [s[0]] + Text(s[1..]);
      if r.Some? then
        assert s[..r.value + 1] == [s[0]] + s[1..][..r.value];
        Some(r.value + 1)
      else None
  }

  /** `strrchr`: the index of the last `ch` before the terminator, or NULL. */
  function Strrchr(s: seq<byte>, ch: byte): (r: Option<nat>)
    requires Terminated(s)
    ensures r.Some? <==> ch in Text(s)
    ensures r.Some? ==> r.value < Strlen(s) && s[r.value] == ch && ch !in s[r.value + 1..Strlen(s)]
  {
    if s[0] == EOS then None
    else
      var r := Strrchr(s[1..], ch);
      assert Text(s) == [s[0]] + Text(s[1..]);
      if r.Some? then
        assert s[r.value + 2..Strlen(s)] == s[1..][r.value + 1..Strlen(s[1..])];
        Some(r.value + 1)
      else if s[0] == ch then
        assert s[1..Strlen(s)] == Text(s[1..]);
        Some(0)
      else None
  }

  /** `memchr`: the index of the first `ch` among the first `count` bytes, or NULL. */
  function Memchr(s: seq<byte>, ch: byte, count: nat): (r: Option<nat>)
    requires count <= |s|
    ensures r.Some? <==> ch in s[..count]
    ensures r.Some? ==> r.value < count && s[r.value] == ch && ch !in s[..r.value]
  {
    if count == 0 then None
    else if s[0] == ch then Some(0)
    else
      var r := Memchr(s[1..], ch, count - 1);
      assert s[..count] == [s[0]] + s[1..][..count - 1];
      if r.Some? then
        assert s[..r.value + 1] == [s[0]] + s[1..][..r.value];
        Some(r.value + 1)
      else None
  }

  /**
   * `strcpy`: copies `src` through its terminator into `dest[d..]` and
   * returns the index of the copied terminator (not `d`).
   */
  method Strcpy(dest: array<byte>, d: nat, src: seq<byte>) returns (end: nat)
    requires Terminated(src) && d + Strlen(src) < dest.Length
    modifies dest
    ensures end == d + Strlen(src)
    ensures dest[d..end + 1] == src[..Strlen(src) + 1]
    ensures forall k :: 0 <= k < dest.Length && !(d <= k <= end) ==> dest[k] == old(dest[k])
  {
    var i := 0;
    while src[i] != EOS
      invariant 0 <= i <= Strlen(src)
      invariant dest[d..d + i] == src[..i]
      invariant forall k :: 0 <= k < dest.Length && !(d <= k < d + i) ==> dest[k] == old(dest[k])
      decreases Strlen(src) - i
    {
      dest[d + i] := src[i];
      i := i + 1;
    }
    dest[d + i] := src[i];
    end := d + i;
  }

  /**
   * `strcat`: copies `src` through its terminator over the terminator of the
   * string at `dest[d..]`, and returns the index of the new terminator.
   */
  method Strcat(dest: array<byte>, d: nat, src: seq<byte>) returns (end: nat)
    requires d <= dest.Length && Terminated(dest[d..]) && Terminated(src)
    requires d + Strlen(dest[d..]) + Strlen(src) < dest.Length
    modifies dest
    ensures end == d + Strlen(old(dest[d..])) + Strlen(src)
    ensures dest[d..end + 1] == Text(old(dest[d..])) + src[..Strlen(src) + 1]
    ensures forall k :: 0 <= k < dest.Length && !(d <= k <= end) ==> dest[k] == old(dest[k])
  {
    var j := d;
    while dest[j] != EOS
      invariant d <= j <= d + Strlen(dest[d..])
      decreases d + Strlen(dest[d..]) - j
    {
      j := j + 1;
    }
    assert j == d + Strlen(dest[d..]);
    ghost var prefix := dest[d..j];
    end := Strcpy(dest, j, src);
    assert dest[d..end + 1] == dest[d..j] + dest[j..end + 1];
  }

  /** `memset`: stores `ch` into exactly `count` bytes from `d` and returns `d`. */
  method Memset(dest: array<byte>, d: nat, ch: byte, count: nat) returns (r: nat)
    requires d + count <= dest.Length
    modifies dest
    ensures r == d
    ensures forall k :: d <= k < d + count ==> dest[k] == ch
    ensures forall k :: 0 <= k < dest.Length && !(d <= k < d + count) ==> dest[k] == old(dest[k])
  {
    var i := 0;
    while i < count
      invariant 0 <= i <= count
      invariant forall k :: d <= k < d + i ==> dest[k] == ch
      invariant forall k :: 0 <= k < dest.Length && !(d <= k < d + i) ==> dest[k] == old(dest[k])
    {
      dest[d + i] := ch;
      i := i + 1;
    }
    r := d;
  }

  /** `memcpy`: copies exactly `count` bytes of `src` to `dest[d..]` and returns `d`. */
  method Memcpy(dest: array<byte>, d: nat, src: seq<byte>, count: nat) returns (r: nat)
    requires count <= |src| && d + count <= dest.Length
    modifies dest
    ensures r == d
    ensures dest[d..d + count] == src[..count]
    ensures forall k :: 0 <= k < dest.Length && !(d <= k < d + count) ==> dest[k] == old(dest[k])
  {
    var i := 0;
    while i < count
      invariant 0 <= i <= count
      invariant dest[d..d + i] == src[..i]
      invariant forall k :: 0 <= k < dest.Length && !(d <= k < d + i) ==> dest[k] == old(dest[k])
    {
      dest[d + i] := src[i];
      i := i + 1;
    }
    r := d;
  }

  /**
   * The `count` bytes `strncpy` is documented to store: the characters of
   * `src` (no terminator appended when `src` is `count` long or longer),
   * padded with `EOS` when `src` is shorter.
   */
  function StrncpyBytes(src: seq<byte>, count: nat): (r: seq<byte>)
    requires Terminated(src)
    ensures |r| == count
    ensures forall k :: 0 <= k < count ==> r[k] == (if k < Strlen(src) then src[k] else EOS)
  {
    var n := Strlen(src);
    if count <= n then src[..count] else src[..n] + Zeros(count - n)
  }

  /** `strncpy` as documented: stores exactly `StrncpyBytes(src, count)` at `dest[d..]` and returns `d`. */
  method Strncpy(dest: array<byte>, d: nat, src: seq<byte>, count: nat) returns (r: nat)
    requires Terminated(src) && d + count <= dest.Length
    modifies dest
    ensures r == d
    ensures dest[d..d + count] == StrncpyBytes(src, count)
    ensures forall k :: 0 <= k < dest.Length && !(d <= k < d + count) ==> dest[k] == old(dest[k])
  {
    var n := Strlen(src);
    var i := 0;
    while i < count
      invariant 0 <= i <= count
      invariant forall k :: d <= k < d + i ==> dest[k] == (if k - d < n then src[k - d] else EOS)
      invariant forall k :: 0 <= k < dest.Length && !(d <= k < d + i) ==> dest[k] == old(dest[k])
    {
      dest[d + i] := if i < n then src[i] else EOS;
      i := i + 1;
    }
    r := d;
  }

  /**
   * The number of bytes the `strncpy` body, as written, stores from `dest`
   * on. Its first loop never advances `ptr` or `src`: it stores `src[0]` into
   * `dest[0]` until `count` runs out, or returns after one store when
   * `src[0]` is `EOS`. Otherwise the post-decrement leaves `count` wrapped to
   * `UINT_MAX`, and the padding loop stores 2^32 - 1 terminators.
   */
  function StrncpyAsWrittenExtent(src: seq<byte>, count: nat): (n: nat)
    requires |src| > 0 && count < U32_LIMIT
    ensures n == 1 || n == U32_LIMIT - 1
  {
    if count > 0 && src[0] == EOS then 1 else U32_LIMIT - 1
  }

  /** Copying a 2-character name into a 14-byte field stores far beyond the field. */
  lemma StrncpyAsWrittenOverruns()
    ensures StrncpyAsWrittenExtent([97, 98, EOS], 14) > 14
    ensures |StrncpyBytes([97, 98, EOS], 14)| == 14
  {
  }
}
