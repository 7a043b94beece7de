/** `do_host_cloak_host`: scrambles the letters of the first label of a
    hostname and every digit of the whole name, in two passes that share
    one keystream. */
module HostCloak {
  import opened CString
  import opened Fnv1a
  import opened Rotate

  const B26_ALPHABET := "abcdefghijklmnopqrstuvwxyz"

  /** Whether pass 1 replaces the character at position `k`: it lies before
      the first '.' and is neither a digit nor '-'. */
  predicate LetterCloaked(t: seq<byte>, k: nat)
    requires k < |t|
  {
    k < IndexOf(t, DOT) && !IsDigit(t[k]) && t[k] != DASH
  }

  /** The number of characters pass 1 replaces before position `k`; `accum`
      has been rotated that many times when pass 1 reaches `k`. */
  function LettersBefore(t: seq<byte>, k: nat): (m: nat)
    requires k <= |t|
    ensures m <= k
  {
    if k == 0 then 0
    else LettersBefore(t, k - 1) + (if LetterCloaked(t, k - 1) then 1 else 0)
  }

  /** `b26_alphabet[(c + accum) % 26]`, the sum wrapping modulo 2^32 first:
      always a lower-case letter 'a'..'z'. */
  function LetterSubst(c: byte, accum: u32): (r: byte)
    ensures 0x61 <= r <= 0x7A
  {
    0x61 + (c + accum) % 0x1_0000_0000 % 26
  }

  /** `LetterSubst` is the lookup in `b26_alphabet`. */
  lemma LetterSubstIsTableLookup(c: byte, accum: u32)
    ensures LetterSubst(c, accum) == B26_ALPHABET[(c + accum) % 0x1_0000_0000 % 26] as int
  {
  }

  /** `'0' + (c + accum) % 10`, the sum wrapping modulo 2^32 first: always a
      digit. */
  function DigitSubst(c: byte, accum: u32): (r: byte)
    ensures IsDigit(r)
  {
    0x30 + (c + accum) % 0x1_0000_0000 % 10
  }

  /** The character at position `k` after pass 1. */
  function Pass1At(t: seq<byte>, seed: u32, k: nat): (r: byte)
    requires k < |t|
    ensures !LetterCloaked(t, k) ==> r == t[k]
    ensures LetterCloaked(t, k) ==> 0x61 <= r <= 0x7A
  {
    if LetterCloaked(t, k) then LetterSubst(t[k], RotlN(seed, LettersBefore(t, k)))
    else t[k]
  }

  /** The whole string after pass 1. */
  function Pass1Text(t: seq<byte>, seed: u32): (r: seq<byte>)
    ensures |r| == |t|
  {
    seq(|t|, k requires 0 <= k < |t| => Pass1At(t, seed, k))
  }

  /** Pass 1 keeps every digit a digit and every non-digit a non-digit, and
      writes no NUL into the string. */
  lemma Pass1Classes(t: seq<byte>, seed: u32)
    ensures forall k :: 0 <= k < |t| ==> (IsDigit(Pass1At(t, seed, k)) <==> IsDigit(t[k]))
    ensures forall k :: 0 <= k < |t| && t[k] != NUL ==> Pass1At(t, seed, k) != NUL
  {
  }

  /** `accum` at the end of pass 1: rotated once per replaced character. */
  function Pass1Accum(t: seq<byte>, seed: u32): u32
  {
    RotlN(seed, LettersBefore(t, IndexOf(t, DOT)))
  }

  /** The character at position `k` after pass 2, which reads what pass 1
      left there and whose `accum` has turned once per earlier position. */
  function CloakedHostAt(t: seq<byte>, seed: u32, k: nat): (r: byte)
    requires k < |t|
    ensures IsDigit(r) <==> IsDigit(t[k])
    ensures !IsDigit(t[k]) ==> r == Pass1At(t, seed, k)
  {
    var p := Pass1At(t, seed, k);
    if IsDigit(p) then DigitSubst(p, RotlN(Pass1Accum(t, seed), k)) else p
  }

  /** The cloaked form of `copy`, with `seed` as the initial `accum`. */
  function CloakHostText(copy: seq<byte>, seed: u32): (r: seq<byte>)
    ensures |r| == |copy|
    ensures forall k :: 0 <= k < |copy| ==> r[k] == copy[k] || IsDigit(r[k]) || 0x61 <= r[k] <= 0x7A
  {
    seq(|copy|, k requires 0 <= k < |copy| => CloakedHostAt(copy, seed, k))
  }

  /** What `do_host_cloak_host` leaves in `outbuf` for the string `input`:
      the copy is truncated, the hash is taken over the whole input. */
  function CloakHost(input: seq<byte>): (r: seq<byte>)
    ensures |r| == Min(|input|, HOSTLEN)
  {
    CloakHostText(Truncate(input), Fnv(input) as int)
  }

  /** Every '.' and '-' is in place in the result. */
  lemma DotsAndDashesKept(copy: seq<byte>, seed: u32)
    ensures forall k :: 0 <= k < |copy| && (copy[k] == DOT || copy[k] == DASH) ==>
      CloakHostText(copy, seed)[k] == copy[k]
  {
  }

  /** From the first '.' on, every character that is not a digit is kept. */
  lemma RestNonDigitsKept(copy: seq<byte>, seed: u32)
    ensures forall k :: IndexOf(copy, DOT) <= k < |copy| && !IsDigit(copy[k]) ==>
      CloakHostText(copy, seed)[k] == copy[k]
  {
  }

  /** Before the first '.', every character other than a digit or '-'
      becomes a lower-case letter 'a'..'z'. */
  lemma FirstLabelBecomesLetters(copy: seq<byte>, seed: u32)
    ensures forall k :: 0 <= k < |copy| && k < IndexOf(copy, DOT) && !IsDigit(copy[k]) && copy[k] != DASH ==>
      0x61 <= CloakHostText(copy, seed)[k] <= 0x7A
  {
  }

  /** A position holds a digit after cloaking exactly when it held one
      before. */
  lemma DigitsStayDigits(copy: seq<byte>, seed: u32)
    ensures forall k :: 0 <= k < |copy| ==> (IsDigit(CloakHostText(copy, seed)[k]) <==> IsDigit(copy[k]))
  {
    Pass1Classes(copy, seed);
  }

  /** No NUL is written, so the C string in the buffer is the whole result. */
  lemma CloakHostTextHasNoNul(copy: seq<byte>, seed: u32)
    requires NUL !in copy
    ensures NUL !in CloakHostText(copy, seed)
  {
    Pass1Classes(copy, seed);
  }

  /** One iteration of pass 1 at a position `i` before the first '.'. */
  lemma Pass1Step(t: seq<byte>, seed: u32, i: nat, accum: u32)
    requires i < |t| && i <= IndexOf(t, DOT) && t[i] != DOT
    requires accum == RotlN(seed, LettersBefore(t, i))
    ensures i + 1 <= IndexOf(t, DOT)
    ensures if IsDigit(t[i]) || t[i] == DASH then
        Pass1At(t, seed, i) == t[i] && RotlN(seed, LettersBefore(t, i + 1)) == accum
      else
        Pass1At(t, seed, i) == LetterSubst(t[i], accum) &&
        RotlN(seed, LettersBefore(t, i + 1)) == Rotl1(accum)
  {
    RotlNSucc(seed, LettersBefore(t, i));
  }

  /** Pass 1 over the copy held in `buf`: stops at the first '.'; skips
      digits and '-'; replaces every other character and rotates `accum`. */
  method ScrambleFirstLabel(buf: array<byte>, ghost copy: seq<byte>, seed: u32) returns (accum: u32)
    requires |copy| < buf.Length && buf[..|copy|] == copy && buf[|copy|] == NUL
    requires NUL !in copy
    modifies buf
    ensures buf[..|copy|] == Pass1Text(copy, seed)
    ensures forall k :: |copy| <= k < buf.Length ==> buf[k] == old(buf[k])
    ensures accum == Pass1Accum(copy, seed)
  {
    ghost var n := |copy|;
    ghost var target := Pass1Text(copy, seed);
    accum := seed;
    var i := 0;
    while buf[i] != NUL
      invariant 0 <= i <= n && i <= IndexOf(copy, DOT)
      invariant forall k :: n <= k < buf.Length ==> buf[k] == old(buf[k])
      invariant forall k :: 0 <= k < n ==> buf[k] == if k < i then Pass1At(copy, seed, k) else copy[k]
      invariant accum == RotlN(seed, LettersBefore(copy, i))
      decreases n - i
    {
      if buf[i] == DOT {
        break;
      }
      Pass1Step(copy, seed, i, accum);
      if IsDigit(buf[i]) || buf[i] == DASH {
        // digits and '-' are left for now, without a rotation
      } else {
        buf[i] := LetterSubst(buf[i], accum);
        accum := Rotl1(accum);
      }
      i := i + 1;
    }
    assert i == IndexOf(copy, DOT);
  }

  /** Pass 2 over the whole string in `buf`: replaces every digit and
      rotates `accum` at every character. */
  method ScrambleDigits(buf: array<byte>, ghost copy: seq<byte>, ghost seed: u32, accum1: u32)
    requires |copy| < buf.Length && buf[|copy|] == NUL
    requires NUL !in copy
    requires buf[..|copy|] == Pass1Text(copy, seed)
    requires accum1 == Pass1Accum(copy, seed)
    modifies buf
    ensures buf[..|copy|] == CloakHostText(copy, seed)
    ensures forall k :: |copy| <= k < buf.Length ==> buf[k] == old(buf[k])
  {
    ghost var n := |copy|;
    ghost var pass1 := Pass1Text(copy, seed);
    ghost var target := CloakHostText(copy, seed);
    Pass1Classes(copy, seed);
    var accum := accum1;
    var i := 0;
    while buf[i] != NUL
      invariant 0 <= i <= n
      invariant forall k :: n <= k < buf.Length ==> buf[k] == old(buf[k])
      invariant forall k :: 0 <= k < i ==> buf[k] == target[k]
      invariant forall k :: i <= k < n ==> buf[k] == pass1[k]
      invariant accum == RotlN(accum1, i)
      decreases n - i
    {
      RotlNSucc(accum1, i);
      if IsDigit(buf[i]) {
        buf[i] := DigitSubst(buf[i], accum);
      }
      accum := Rotl1(accum);
      i := i + 1;
    }
  }

  /** `do_host_cloak_host(inbuf, outbuf)`. */
  method DoHostCloakHost(inbuf: array<byte>, outbuf: array<byte>)
    requires inbuf != outbuf
    requires NUL in inbuf[..]
    requires CopyFits(StrLen(inbuf[..]), outbuf.Length)
    requires IsAscii(Truncate(inbuf[..StrLen(inbuf[..])]))
    modifies outbuf
    ensures var n := Min(StrLen(inbuf[..]), HOSTLEN);
      outbuf[..n] == CloakHost(inbuf[..StrLen(inbuf[..])]) &&
      outbuf[n] == NUL &&
      forall k :: n < k < outbuf.Length ==> outbuf[k] == old(outbuf[k])
  {
    ghost var input := inbuf[..StrLen(inbuf[..])];
    ghost var copy := Truncate(input);
    var h := FnvHash(inbuf, 32);
    var accum: u32 := h as int;
    ghost var seed := accum;
    assert seed == Fnv(input) as int;

    var len := StrlCpy(outbuf, inbuf, HOSTLEN + 1);
    ghost var n := Min(len, HOSTLEN);
    assert |copy| == n && outbuf[..n] == copy;
    assert NUL !in copy;

    accum := ScrambleFirstLabel(outbuf, copy, accum);
    ScrambleDigits(outbuf, copy, seed, accum);
  }
}
