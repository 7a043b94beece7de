/** The 32-bit FNV-1a hash (`fnv_hash`) that seeds both cloaking routines. */
module Fnv1a {
  import opened CString

  /** `FNV1_32_INIT`, the 32-bit offset basis. */
  const FNV1_32_INIT: bv32 := 0x811c9dc5
  /** The loop's update `h += (h<<1) + (h<<4) + (h<<7) + (h<<8) + (h<<24)`,
      modulo 2^32. */
  function Mix(h: bv32): bv32
  {
    h + (h << 1) + (h << 4) + (h << 7) + (h << 8) + (h << 24)
  }

  /** A byte as the low eight bits of a 32-bit word. */
  function Widen(b: byte): bv32
  {
    b as bv32
  }

  /** One iteration of the loop: xor the byte in, then mix; this is the
      FNV-1a step `h := (h xor b) * 16777619 mod 2^32`. */
  function Step(h: bv32, b: byte): (r: bv32)
    ensures r == (h ^ Widen(b)) * 0x01000193
  {
    MixIsPrimeMultiply(h ^ Widen(b));
    Mix(h ^ Widen(b))
  }

  /** The shift-and-add update is the multiplication by the 32-bit FNV prime
      16777619 (0x01000193). */
  lemma MixIsPrimeMultiply(h: bv32)
    ensures Mix(h) == h * 0x01000193
  {
  }

  /** Folds `Step` over `s`, starting from `h`. */
  function FnvFrom(h: bv32, s: seq<byte>): bv32
    decreases |s|
  {
    if s == [] then h else FnvFrom(Step(h, s[0]), s[1..])
  }

  /** The 32-bit FNV-1a hash of the bytes `s`: the empty string hashes to
      the offset basis, and hashing one more byte is one more step applied
      to the hash so far. */
  function Fnv(s: seq<byte>): (r: bv32)
    ensures s == [] ==> r == FNV1_32_INIT
    ensures s != [] ==> r == Step(Fnv(s[..|s| - 1]), s[|s| - 1])
    decreases |s|
  {
    if s == [] then FNV1_32_INIT
    else
      var p := s[..|s| - 1];
      assert s == p + [s[|s| - 1]];
      FnvFromAppend(FNV1_32_INIT, p, s[|s| - 1]);
      FnvFrom(FNV1_32_INIT, s)
  }

  lemma {:induction false} FnvFromAppend(h: bv32, s: seq<byte>, b: byte)
    ensures FnvFrom(h, s + [b]) == Step(FnvFrom(h, s), b)
    decreases |s|
  {
    if s != [] {
      assert (s + [b])[1..] == s[1..] + [b];
      FnvFromAppend(Step(h, s[0]), s[1..], b);
    }
  }

  lemma FnvFromUnfold(h: bv32, s: seq<byte>, i: nat)
    requires i < |s|
    ensures FnvFrom(h, s[i..]) == FnvFrom(Step(h, s[i]), s[i + 1..])
  {
    assert s[i..][1..] == s[i + 1..];
  }

  /** The xor-fold to `bits` bits, for `bits < 32`; the mask `(1 << bits) - 1`
      is taken in 32-bit arithmetic. */
  function XorFold(h: bv32, bits: nat): (r: bv32)
    requires bits < 32
    ensures r < (1 as bv32) << bits
  {
    ((h >> bits) ^ h) & (((1 as bv32) << bits) - 1)
  }

  /** What `fnv_hash(s, bits)` returns for the string `s`. */
  function Hash(s: seq<byte>, bits: int): (r: bv32)
    requires 0 <= bits
    ensures bits < 32 ==> r < (1 as bv32) << bits
    ensures 32 <= bits ==> r == Fnv(s)
  {
    if bits < 32 then XorFold(Fnv(s), bits) else Fnv(s)
  }

  /** `fnv_hash`: hashes the bytes before the first NUL of `s`. */
  method FnvHash(s: array<byte>, bits: int) returns (h: bv32)
    requires NUL in s[..]
    requires 0 <= bits
    ensures h == Hash(s[..StrLen(s[..])], bits)
    ensures 32 <= bits ==> h == Fnv(s[..StrLen(s[..])])
  {
    ghost var str := s[..StrLen(s[..])];
    h := FNV1_32_INIT;
    var i := 0;
    while s[i] != NUL
      invariant 0 <= i <= |str|
      invariant FnvFrom(h, str[i..]) == Fnv(str)
      decreases |str| - i
    {
      FnvFromUnfold(h, str, i);
      h := Step(h, s[i]);
      i := i + 1;
    }
    assert str[i..] == [];
    assert h == Fnv(str);
    if bits < 32 {
      h := XorFold(h, bits);
    }
  }
}
