/** `do_host_cloak_ip`: cloaks the trailing part of an IPv4 or IPv6 address
    with letters that cannot occur in an address. */
module IpCloak {
  import opened CString
  import opened Fnv1a
  import opened Rotate

  /** None of these characters can be valid in an IP address. */
  const CHARTABLE := "ghijklmnopqrstuvwxyz"

  predicate IsSep(c: byte) { c == COLON || c == DOT }

  /** '0'..'9', 'a'..'f' or 'A'..'F'. */
  predicate IsHexDigit(c: byte)
  {
    IsDigit(c) || 0x61 <= c <= 0x66 || 0x41 <= c <= 0x46
  }

  /** How the copy is treated: as an IPv4 address, as an IPv6 address with
      `totalcount` colons, or as text that is returned unchanged. */
  datatype Kind = Ipv4 | Ipv6(totalcount: nat) | NotAddress

  /** IPv6 if the copy contains ':', else IPv4 if it contains '.'. */
  function Classify(copy: seq<byte>): (r: Kind)
    ensures r.Ipv6? <==> COLON in copy
    ensures r.Ipv6? ==> 0 < r.totalcount <= |copy|
    ensures r == NotAddress <==> COLON !in copy && DOT !in copy
  {
    CountBounds(copy, COLON);
    if COLON in copy then Ipv6(Count(copy, COLON))
    else if DOT in copy then Ipv4
    else NotAddress
  }

  /** Whether a character after `sepcount` separators is in the leading
      part, which is kept in the clear. */
  predicate Kept(kind: Kind, sepcount: nat)
  {
    match kind
    case Ipv4 => sepcount < 2
    case Ipv6(totalcount) => sepcount < totalcount / 2
    case NotAddress => true
  }

  /** `sepcount` on reaching position `k`: both '.' and ':' count. */
  function SepsBefore(t: seq<byte>, k: nat): nat
    requires k <= |t|
  {
    Count(t[..k], DOT) + Count(t[..k], COLON)
  }

  /** Whether the character at position `k` is replaced. */
  predicate Cloaked(t: seq<byte>, kind: Kind, k: nat)
    requires k < |t|
  {
    !IsSep(t[k]) && !Kept(kind, SepsBefore(t, k))
  }

  /** The number of characters replaced before position `k`; `accum` has
      been rotated that many times on reaching `k`. */
  function CloakedBefore(t: seq<byte>, kind: Kind, k: nat): (m: nat)
    requires k <= |t|
    ensures m <= k
  {
    if k == 0 then 0
    else CloakedBefore(t, kind, k - 1) + (if Cloaked(t, kind, k - 1) then 1 else 0)
  }

  /** `chartable[(c + accum) % 20]`, the sum wrapping modulo 2^32 first; the
      table holds the twenty consecutive letters from 'g' (0x67). */
  function Substitute(c: byte, accum: u32): (r: byte)
    ensures 0x67 <= r <= 0x7A
  {
    0x67 + (c + accum) % 0x1_0000_0000 % 20
  }

  /** `Substitute` is the lookup in `chartable`, and what it yields is never
      a hexadecimal digit or a separator. */
  lemma SubstituteIsTableLookup(c: byte, accum: u32)
    ensures Substitute(c, accum) == CHARTABLE[(c + accum) % 0x1_0000_0000 % 20] as int
    ensures !IsSep(Substitute(c, accum)) && !IsHexDigit(Substitute(c, accum))
  {
  }

  /** The character at position `k` of the cloaked copy. */
  function CloakedAt(t: seq<byte>, kind: Kind, seed: u32, k: nat): (r: byte)
    requires k < |t|
    ensures !Cloaked(t, kind, k) ==> r == t[k]
    ensures Cloaked(t, kind, k) ==> 0x67 <= r <= 0x7A
  {
    if Cloaked(t, kind, k) then Substitute(t[k], RotlN(seed, CloakedBefore(t, kind, k)))
    else t[k]
  }

  /** The result of the rewriting walk over `t` in mode `kind`, with `seed`
      as the initial `accum`. */
  function WalkText(t: seq<byte>, kind: Kind, seed: u32): (r: seq<byte>)
    ensures |r| == |t|
  {
    seq(|t|, k requires 0 <= k < |t| => CloakedAt(t, kind, seed, k))
  }

  /** The cloaked form of `copy`, with `seed` as the initial `accum`. */
  function CloakIpText(copy: seq<byte>, seed: u32): (r: seq<byte>)
    ensures |r| == |copy|
    ensures forall k :: 0 <= k < |copy| ==> r[k] == copy[k] || 0x67 <= r[k] <= 0x7A
  {
    WalkText(copy, Classify(copy), seed)
  }

  /** What `do_host_cloak_ip` leaves in `outbuf` for the string `input`: the
      copy is truncated, the hash is taken over the whole input. */
  function CloakIp(input: seq<byte>): (r: seq<byte>)
    ensures |r| == Min(|input|, HOSTLEN)
  {
    CloakIpText(Truncate(input), Fnv(input) as int)
  }

  /** Text with neither ':' nor '.' comes back unchanged. */
  lemma NotAddressUnchanged(copy: seq<byte>, seed: u32)
    requires COLON !in copy && DOT !in copy
    ensures CloakIpText(copy, seed) == copy
  {
  }

  /** Every '.' and ':' of the copy is in place in the result. */
  lemma SeparatorsKept(copy: seq<byte>, seed: u32)
    ensures forall k :: 0 <= k < |copy| && IsSep(copy[k]) ==> CloakIpText(copy, seed)[k] == copy[k]
  {
  }

  /** IPv4 mode (a '.', no ':'): every character before the second
      separator is kept. */
  lemma Ipv4LeadingPartKept(copy: seq<byte>, seed: u32)
    requires COLON !in copy && DOT in copy
    ensures forall k :: 0 <= k < |copy| && SepsBefore(copy, k) < 2 ==>
      CloakIpText(copy, seed)[k] == copy[k]
  {
  }

  /** IPv6 mode (a ':'): every character before separator number
      `totalcount / 2` is kept, `totalcount` being the number of colons while
      both '.' and ':' are counted on the way. */
  lemma Ipv6LeadingPartKept(copy: seq<byte>, seed: u32)
    requires COLON in copy
    ensures forall k :: 0 <= k < |copy| && SepsBefore(copy, k) < Count(copy, COLON) / 2 ==>
      CloakIpText(copy, seed)[k] == copy[k]
  {
  }

  /** `sepcount` never decreases along the walk. */
  lemma {:induction false} SepsBeforeMonotone(t: seq<byte>, j: nat, k: nat)
    requires j <= k <= |t|
    ensures SepsBefore(t, j) <= SepsBefore(t, k)
    decreases k - j
  {
    if j < k {
      SepsBeforeMonotone(t, j, k - 1);
      CountSnoc(t, k - 1, DOT);
      CountSnoc(t, k - 1, COLON);
    }
  }

  /** The part kept in the clear is a prefix: once the walk has passed the
      cut-off separator, it never keeps a character again. */
  lemma KeptIsPrefix(t: seq<byte>, kind: Kind, j: nat, k: nat)
    requires j <= k <= |t|
    requires Kept(kind, SepsBefore(t, k))
    ensures Kept(kind, SepsBefore(t, j))
  {
    SepsBeforeMonotone(t, j, k);
  }

  /** In an address, every character past the leading part that is not a
      separator becomes one of the letters 'g'..'z'. */
  lemma TrailingPartCloaked(copy: seq<byte>, seed: u32)
    requires COLON in copy || DOT in copy
    ensures forall k :: 0 <= k < |copy| && !IsSep(copy[k]) && !Kept(Classify(copy), SepsBefore(copy, k)) ==>
      0x67 <= CloakIpText(copy, seed)[k] <= 0x7A
  {
  }

  /** For a copy made of hexadecimal digits and separators only, a character
      changes exactly where the walk cloaks it. */
  lemma ChangedExactlyWhereCloaked(copy: seq<byte>, seed: u32)
    requires forall k :: 0 <= k < |copy| ==> IsHexDigit(copy[k]) || IsSep(copy[k])
    ensures forall k :: 0 <= k < |copy| ==>
      (CloakIpText(copy, seed)[k] != copy[k] <==> Cloaked(copy, Classify(copy), k))
  {
  }

  /** No NUL is written, so the C string in the buffer is the whole result. */
  lemma CloakIpTextHasNoNul(copy: seq<byte>, seed: u32)
    requires NUL !in copy
    ensures NUL !in CloakIpText(copy, seed)
  {
  }

  /** One iteration of the rewriting walk at position `i`, with `accum` as
      the walk has it on reaching `i`: a separator advances `sepcount`; a
      replaced character takes `Substitute(c, accum)` and turns `accum` once;
      any other character is kept and leaves `accum` alone. */
  lemma WalkStep(t: seq<byte>, kind: Kind, seed: u32, i: nat, accum: u32)
    requires i < |t|
    requires accum == RotlN(seed, CloakedBefore(t, kind, i))
    ensures SepsBefore(t, i + 1) == SepsBefore(t, i) + (if IsSep(t[i]) then 1 else 0)
    ensures Cloaked(t, kind, i) ==>
      CloakedAt(t, kind, seed, i) == Substitute(t[i], accum) &&
      RotlN(seed, CloakedBefore(t, kind, i + 1)) == Rotl1(accum)
    ensures !Cloaked(t, kind, i) ==>
      CloakedAt(t, kind, seed, i) == t[i] &&
      RotlN(seed, CloakedBefore(t, kind, i + 1)) == accum
  {
    CountSnoc(t, i, DOT);
    CountSnoc(t, i, COLON);
    RotlNSucc(seed, CloakedBefore(t, kind, i));
  }

  /** The IPv6 pre-scan: the number of colons in the string held by `buf`. */
  method CountColons(buf: array<byte>, ghost text: seq<byte>) returns (totalcount: nat)
    requires |text| < buf.Length && buf[..|text|] == text && buf[|text|] == NUL
    requires NUL !in text
    ensures totalcount == Count(text, COLON)
  {
    totalcount := 0;
    var i := 0;
    while buf[i] != NUL
      invariant 0 <= i <= |text|
      invariant totalcount == Count(text[..i], COLON)
      decreases |text| - i
    {
      CountSnoc(text, i, COLON);
      if buf[i] == COLON {
        totalcount := totalcount + 1;
      }
      i := i + 1;
    }
    assert text[..i] == text;
  }

  /** The mode tests of `do_host_cloak_ip` on the copy held in `buf`: IPv6
      (with the colons counted) if it has a ':', IPv4 if it has a '.' but no
      ':', and no address at all otherwise. */
  method DetectMode(buf: array<byte>, ghost copy: seq<byte>) returns (address: bool, ipv6: bool, totalcount: nat)
    requires |copy| < buf.Length && buf[..|copy|] == copy && buf[|copy|] == NUL
    requires NUL !in copy
    ensures address <==> Classify(copy) != NotAddress
    ensures address ==> Classify(copy) == if ipv6 then Ipv6(totalcount) else Ipv4
  {
    StrLenAt(buf[..], |copy|);
    assert buf[..][..|copy|] == copy;
    address, ipv6, totalcount := true, false, 0;
    if StrChr(buf[..], COLON) {
      ipv6 := true;
      totalcount := CountColons(buf, copy);
    } else if !StrChr(buf[..], DOT) {
      address := false;
    }
  }

  /** One iteration of the rewriting walk, at position `i` of the copy held
      in `buf`: a separator advances `sepcount`; a character of the leading
      part is skipped; any other is substituted and `accum` rotated. */
  method WalkAt(buf: array<byte>, ghost copy: seq<byte>, ghost seed: u32, ipv6: bool, totalcount: nat,
                i: nat, sepcount: nat, accum: u32) returns (sepcount': nat, accum': u32)
    requires i < |copy| < buf.Length && buf[i] == copy[i]
    requires sepcount == SepsBefore(copy, i)
    requires accum == RotlN(seed, CloakedBefore(copy, if ipv6 then Ipv6(totalcount) else Ipv4, i))
    modifies buf
    ensures buf[i] == CloakedAt(copy, if ipv6 then Ipv6(totalcount) else Ipv4, seed, i)
    ensures forall k :: 0 <= k < buf.Length && k != i ==> buf[k] == old(buf[k])
    ensures sepcount' == SepsBefore(copy, i + 1)
    ensures accum' == RotlN(seed, CloakedBefore(copy, if ipv6 then Ipv6(totalcount) else Ipv4, i + 1))
  {
    WalkStep(copy, if ipv6 then Ipv6(totalcount) else Ipv4, seed, i, accum);
    sepcount', accum' := sepcount, accum;
    if buf[i] == COLON || buf[i] == DOT {
      sepcount' := sepcount + 1;
    } else if (ipv6 && sepcount < totalcount / 2) || (!ipv6 && sepcount < 2) {
      // the leading part stays in the clear
    } else {
      buf[i] := Substitute(buf[i], accum);
      accum' := Rotl1(accum);
    }
  }

  /** The rewriting walk of `do_host_cloak_ip` over the copy held in `buf`,
      in IPv6 mode with `totalcount` colons or in IPv4 mode. */
  method CloakWalk(buf: array<byte>, ghost copy: seq<byte>, ipv6: bool, totalcount: nat, accum0: u32)
    requires |copy| < buf.Length && buf[..|copy|] == copy && buf[|copy|] == NUL
    requires NUL !in copy
    modifies buf
    ensures buf[..|copy|] == WalkText(copy, if ipv6 then Ipv6(totalcount) else Ipv4, accum0)
    ensures forall k :: |copy| <= k < buf.Length ==> buf[k] == old(buf[k])
  {
    ghost var kind := if ipv6 then Ipv6(totalcount) else Ipv4;
    ghost var n := |copy|;
    ghost var target := WalkText(copy, kind, accum0);
    var accum := accum0;
    var sepcount := 0;
    var i := 0;
    while buf[i] != NUL
      invariant 0 <= i <= n
      invariant forall k :: n <= k < buf.Length ==> buf[k] == old(buf[k])
      invariant forall k :: 0 <= k < i ==> buf[k] == target[k]
      invariant forall k :: i <= k < n ==> buf[k] == copy[k]
      invariant sepcount == SepsBefore(copy, i)
      invariant accum == RotlN(accum0, CloakedBefore(copy, kind, i))
      decreases n - i
    {
      sepcount, accum := WalkAt(buf, copy, accum0, ipv6, totalcount, i, sepcount, accum);
      i := i + 1;
    }
  }

  /** `do_host_cloak_ip(inbuf, outbuf)`. */
  method DoHostCloakIp(inbuf: array<byte>, outbuf: array<byte>)
    requires inbuf != outbuf
    requires NUL in inbuf[..]
    requires CopyFits(StrLen(inbuf[..]), outbuf.Length)
    requires IsAscii(Truncate(inbuf[..StrLen(inbuf[..])]))
    modifies outbuf
    ensures var n := Min(StrLen(inbuf[..]), HOSTLEN);
      outbuf[..n] == CloakIp(inbuf[..StrLen(inbuf[..])]) &&
      outbuf[n] == NUL &&
      forall k :: n < k < outbuf.Length ==> outbuf[k] == old(outbuf[k])
  {
    ghost var input := inbuf[..StrLen(inbuf[..])];
    ghost var copy := Truncate(input);
    var h := FnvHash(inbuf, 32);
    var accum: u32 := h as int;
    ghost var seed := accum;

    var len := StrlCpy(outbuf, inbuf, HOSTLEN + 1);
    ghost var n := Min(len, HOSTLEN);
    assert |copy| == n && outbuf[..n] == copy;
    assert NUL !in copy;

    var address, ipv6, totalcount := DetectMode(outbuf, copy);
    if !address {
      NotAddressUnchanged(copy, seed);
      return;
    }
    CloakWalk(outbuf, copy, ipv6, totalcount, accum);
  }
}
