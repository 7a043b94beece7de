/** Byte strings as the C code sees them: NUL-terminated buffers of bytes,
    the bounded copy into the host buffer, and the character classes the
    cloaking routines test for. */
module CString {

  /** An 8-bit character code. */
  type byte = x: int | 0 <= x < 0x100
  /** A `uint32_t`; arithmetic on it is reduced modulo 2^32 explicitly. */
  type u32 = x: int | 0 <= x < 0x1_0000_0000

  const NUL: byte := 0
  const DOT: byte := 0x2E    // '.'
  const COLON: byte := 0x3A  // ':'
  const DASH: byte := 0x2D   // '-'

  /** Maximum host length; the copy keeps at most this many characters. */
  const HOSTLEN: nat := 50

  function Min(a: nat, b: nat): nat { if a < b then a else b }

  /** `isdigit`, restricted to the ASCII range '0'..'9'. */
  predicate IsDigit(c: byte) { 0x30 <= c <= 0x39 }

  predicate IsAscii(s: seq<byte>) { forall k :: 0 <= k < |s| ==> s[k] < 0x80 }

  /** Length of the C string held by a buffer: the position of its first NUL. */
  function StrLen(s: seq<byte>): (n: nat)
    requires NUL in s
    ensures n < |s| && s[n] == NUL
    ensures forall k :: 0 <= k < n ==> s[k] != NUL
  {
    if s[0] == NUL then 0 else 1 + StrLen(s[1..])
  }

  lemma StrLenAt(s: seq<byte>, n: nat)
    requires n < |s| && s[n] == NUL
    requires forall k :: 0 <= k < n ==> s[k] != NUL
    ensures StrLen(s) == n
  {
  }

  /** `strchr(s, c) != NULL` for a non-NUL `c`: `c` occurs in the string. */
  predicate StrChr(s: seq<byte>, c: byte)
    requires NUL in s
  {
    c in s[..StrLen(s)]
  }

  /** Position of the first `c` in `s`, or `|s|` when there is none. */
  function IndexOf(s: seq<byte>, c: byte): (i: nat)
    ensures i <= |s|
    ensures i < |s| ==> s[i] == c
    ensures forall k :: 0 <= k < i ==> s[k] != c
  {
    if s == [] then 0
    else if s[0] == c then 0
    else 1 + IndexOf(s[1..], c)
  }

  /** Number of occurrences of `c` in `s`. */
  function Count(s: seq<byte>, c: byte): nat
  {
    if s == [] then 0
    else Count(s[..|s| - 1], c) + (if s[|s| - 1] == c then 1 else 0)
  }

  /** A count is at most the length, and it is zero exactly when `c` does
      not occur. */
  lemma {:induction false} CountBounds(s: seq<byte>, c: byte)
    ensures Count(s, c) <= |s|
    ensures Count(s, c) == 0 <==> c !in s
  {
    if s != [] {
      var p := s[..|s| - 1];
      CountBounds(p, c);
      assert s == p + [s[|s| - 1]];
    }
  }

  lemma CountSnoc(s: seq<byte>, i: nat, c: byte)
    requires i < |s|
    ensures Count(s[..i + 1], c) == Count(s[..i], c) + (if s[i] == c then 1 else 0)
  {
    assert s[..i + 1][..i] == s[..i];
  }

  /** The characters `strlcpy(outbuf, inbuf, HOSTLEN + 1)` keeps. */
  function Truncate(s: seq<byte>): (t: seq<byte>)
    ensures |t| <= HOSTLEN
    ensures |s| <= HOSTLEN ==> t == s
    ensures HOSTLEN <= |s| ==> |t| == HOSTLEN
    ensures t <= s
  {
    s[..Min(|s|, HOSTLEN)]
  }

  /** A buffer of `capacity` bytes holds the copy that
      `strlcpy(outbuf, inbuf, HOSTLEN + 1)` makes of a string of length
      `len`, NUL included. */
  predicate CopyFits(len: nat, capacity: nat)
  {
    Min(len, HOSTLEN) < capacity
  }

  /** The effect of `strlcpy(dst, src, size)`: copy up to `size - 1`
      characters of the string in `src` and NUL-terminate the copy; the
      length of the whole source string is returned. */
  method StrlCpy(dst: array<byte>, src: array<byte>, size: nat) returns (srcLen: nat)
    requires dst != src
    requires NUL in src[..]
    requires 1 <= size
    requires Min(StrLen(src[..]), size - 1) < dst.Length
    modifies dst
    ensures srcLen == StrLen(src[..])
    ensures dst[..Min(srcLen, size - 1)] == src[..Min(srcLen, size - 1)]
    ensures dst[Min(srcLen, size - 1)] == NUL
    ensures forall k :: Min(srcLen, size - 1) < k < dst.Length ==> dst[k] == old(dst[k])
  {
    ghost var text := src[..];
    srcLen := StrLen(src[..]);
    var n := Min(srcLen, size - 1);
    forall k | 0 <= k < n {
      dst[k] := src[k];
    }
    dst[n] := NUL;
    assert src[..] == text;
  }
}
