# IPCloak cloaking core in Dafny

This project models the C core of the `IPCloak` Ruby extension
(`ext/ipcloak/ipcloak.c`). That core is the hostname and IP-address cloaking
inherited from the Charybdis IRC daemon, and the model proves properties of
it. It has three routines and the callers' buffer:

- **`fnv_hash`** is the 32-bit FNV-1a hash.
  - The offset basis is 0x811c9dc5.
  - Each byte is xor-ed in, followed by the shift-and-add form of the
    multiplication by 16777619.
  - It stops at the first NUL.
  - It has an optional xor-fold down to `bits` bits.
- **`do_host_cloak_ip`** copies at most 50 characters of an address into the
  output buffer and seeds `accum` with the hash of the *whole* input.
  - It is in IPv6 mode if the copy has a `:`, in IPv4 mode if it has a `.`,
    and otherwise it returns the copy unchanged.
  - It walks the copy. `.` and `:` advance `sepcount` and are kept.
  - Every character before separator 2 (IPv4) or before separator
    `totalcount / 2` (IPv6, where `totalcount` counts the colons) is kept.
  - Every other character becomes `chartable[(c + accum) % 20]`, a letter
    `g`..`z`, and `accum` is rotated left by one bit.
- **`do_host_cloak_host`** makes the same copy and runs two passes that share
  `accum`.
  - Pass 1 runs up to the first `.`. It leaves digits and `-` alone, and
    replaces every other character by `b26_alphabet[(c + accum) % 26]`,
    rotating after each replacement.
  - Pass 2 runs over the whole string. It replaces each digit by
    `'0' + (c + accum) % 10` and rotates at every character.
- **The callers** `method_ipcloak_ip` and `method_ipcloak_host` cloak into a
  local `res` buffer and return the C string left there.

Modules:

- `CString` (cstring.dfy) holds the pieces every routine uses:
  - the character codes (`byte`), `uint32_t` (`u32`) and `HOSTLEN`;
  - the C-string length and the `strchr` test;
  - the effect of `strlcpy` (`StrlCpy`) and the truncated copy it makes
    (`Truncate`).
- `Fnv1a` (fnv.dfy) holds the hash. `FnvHash` is the loop, and `Fnv`/`Hash`
  are the functions that specify it.
- `Rotate` (rotate.dfy) holds the one-bit rotation of `accum` and its
  32-step cycle.
- `IpCloak` (ipcloak.dfy) holds `do_host_cloak_ip`.
  - The method `DoHostCloakIp` does the copy. `DetectMode` is the
    `strchr` tests and the colon pre-count. `CloakWalk` with `WalkAt` is the
    rewriting loop.
  - These methods are proved against the position-wise specification
    `CloakIp`. Character `k` of the result is given by `CloakedAt`, and the
    `accum` used there is the seed rotated once per character replaced
    before `k`.
- `HostCloak` (hostcloak.dfy) holds `do_host_cloak_host`. The methods
  `ScrambleFirstLabel` and `ScrambleDigits` are proved against `Pass1Text`
  and `CloakHostText`.
- `Callers` (callers.dfy) holds the two Ruby-facing functions, with `res`
  sized to fit the copy (see Findings).

Arithmetic follows the C code.

- `c + accum` is a `uint32_t` sum. It is reduced modulo 2^32 before the
  `% 20`, `% 26` or `% 10`.
- The hash state is a `bv32`, so its shifts and additions wrap as in C.
- `accum` is an integer below 2^32. `Rotl1` is proved equal to the C
  `(accum << 1) | (accum >> 31)`, written as `(2 * a) % 2^32 + a / 2^31`.

On truncation the model follows the code. `strlcpy(outbuf, inbuf,
HOSTLEN + 1)` keeps up to 50 characters and a NUL.

## Model

| member | source | states |
|---|---|---|
| CString.StrLen | ext/ipcloak/ipcloak.c:37 | the C-string length is the position of the first NUL: the byte there is NUL and none before it is |
| CString.IndexOf | ext/ipcloak/ipcloak.c:107-109 | the position where pass 1 stops: it holds `.` if it is inside the string, and no earlier position holds `.` |
| CString.Truncate | ext/ipcloak/ipcloak.c:57 | the copy has at most 50 characters, is a prefix of the input, and is the whole input when the input has at most 50 characters |
| CString.StrlCpy | ext/ipcloak/ipcloak.c:57 | `strlcpy(dst, src, size)` copies the first min(len, size - 1) characters, NUL-terminates them, leaves the rest of `dst` untouched and returns the full source length |
| Fnv1a.MixIsPrimeMultiply | ext/ipcloak/ipcloak.c:39 | the shift-and-add update equals multiplication by the FNV prime 0x01000193 modulo 2^32 |
| Fnv1a.Step | ext/ipcloak/ipcloak.c:38-39 | one iteration is the FNV-1a step `h := (h xor b) * 16777619 mod 2^32` |
| Fnv1a.Fnv | ext/ipcloak/ipcloak.c:35-40 | the empty string hashes to the offset basis 0x811c9dc5, and hashing one more byte is one more FNV-1a step applied to the hash of the bytes before it |
| Fnv1a.XorFold | ext/ipcloak/ipcloak.c:41-42 | for `bits < 32` the folded hash is below 2^bits |
| Fnv1a.Hash | ext/ipcloak/ipcloak.c:32-44 | for `bits < 32` the result is below 2^bits; for `bits >= 32` it is the unfolded FNV-1a hash |
| Fnv1a.FnvHash | ext/ipcloak/ipcloak.c:32-44 | `fnv_hash` returns the FNV-1a hash of the bytes before the first NUL, xor-folded when `bits < 32` and unfolded for `bits >= 32` |
| Rotate.Rotl1 | ext/ipcloak/ipcloak.c:89 | a one-bit left rotation: the new low bit is the old top bit, and the new upper 31 bits are the old low 31 bits (the same update is at lines 117 and 125) |
| Rotate.Rotl1IsShiftOr | ext/ipcloak/ipcloak.c:89 | the rotation of `accum` is the C shift-or: a doubling modulo 2^32 plus the old top bit, with no bit shared between the two |
| Rotate.RotlNFullCycle | ext/ipcloak/ipcloak.c:89 | 32 one-bit rotations give back the original `accum` |
| Rotate.RotlNPeriod | ext/ipcloak/ipcloak.c:117 | the keystream has period 32: the `accum` after m + 32 rotations is the one after m |
| IpCloak.Substitute | ext/ipcloak/ipcloak.c:88 | a replaced character is a letter in `g`..`z` |
| IpCloak.SubstituteIsTableLookup | ext/ipcloak/ipcloak.c:49-50 | the replacement is `chartable[(c + accum) % 20]` with the sum wrapped modulo 2^32, and it is never a hexadecimal digit or a separator |
| IpCloak.Classify | ext/ipcloak/ipcloak.c:59-74 | IPv6 mode exactly when the copy has a `:`, with a colon count between 1 and the length; no address exactly when the copy has neither `:` nor `.`; IPv4 otherwise |
| IpCloak.CloakedAt | ext/ipcloak/ipcloak.c:77-88 | a character the walk does not cloak (a separator, or one in the leading part) is kept; a cloaked one becomes a letter `g`..`z` |
| IpCloak.CloakIpText | ext/ipcloak/ipcloak.c:76-90 | the walk keeps the length of the copy, and every character is either kept or becomes a letter `g`..`z` |
| IpCloak.CloakIp | ext/ipcloak/ipcloak.c:46-91 | the result has the length of the truncated copy, min(len, 50) |
| IpCloak.NotAddressUnchanged | ext/ipcloak/ipcloak.c:72-73 | a copy with neither `:` nor `.` comes back unchanged |
| IpCloak.SeparatorsKept | ext/ipcloak/ipcloak.c:77-80 | every `.` and `:` stays at its position |
| IpCloak.Ipv4LeadingPartKept | ext/ipcloak/ipcloak.c:85-86 | in IPv4 mode every character before the second separator is kept |
| IpCloak.Ipv6LeadingPartKept | ext/ipcloak/ipcloak.c:82-83 | in IPv6 mode every character before separator number (number of colons)/2 is kept, with dots counted as separators on the way |
| IpCloak.SepsBeforeMonotone | ext/ipcloak/ipcloak.c:77-78 | `sepcount` never decreases along the walk |
| IpCloak.KeptIsPrefix | ext/ipcloak/ipcloak.c:82-86 | the part kept in the clear is a prefix of the copy |
| IpCloak.TrailingPartCloaked | ext/ipcloak/ipcloak.c:88 | in an address every non-separator character past the leading part becomes a letter `g`..`z` |
| IpCloak.ChangedExactlyWhereCloaked | ext/ipcloak/ipcloak.c:49 | for a copy of hex digits and separators, a character changes if and only if it lies past the leading part and is not a separator |
| IpCloak.CloakIpTextHasNoNul | ext/ipcloak/ipcloak.c:76 | the walk writes no NUL, so the C string in the buffer is the whole result |
| IpCloak.WalkStep | ext/ipcloak/ipcloak.c:77-89 | one iteration: a separator advances `sepcount`; a replaced character takes `Substitute(c, accum)` and rotates `accum` once; a kept one leaves `accum` alone |
| CString.CountBounds | ext/ipcloak/ipcloak.c:70-72 | the colon count is at most the length of the copy, and it is zero exactly when the copy has no `:` |
| IpCloak.CountColons | ext/ipcloak/ipcloak.c:70-72 | the pre-count is the number of `:` in the copy |
| IpCloak.DetectMode | ext/ipcloak/ipcloak.c:59-74 | IPv6 with the colons counted if the copy has `:`, IPv4 if it has `.` only, no address otherwise |
| IpCloak.WalkAt | ext/ipcloak/ipcloak.c:77-89 | one iteration of the walk writes `CloakedAt` at position `i`, touches no other byte, and advances `sepcount` and `accum` as the specification does |
| IpCloak.CloakWalk | ext/ipcloak/ipcloak.c:76-90 | the walk leaves the cloaked copy in the buffer and nothing past it changes |
| IpCloak.DoHostCloakIp | ext/ipcloak/ipcloak.c:46-91 | `outbuf` holds `CloakIp` of the input, then a NUL; bytes past the NUL are untouched |
| HostCloak.LetterSubst | ext/ipcloak/ipcloak.c:114 | a pass-1 replacement is a lower-case letter `a`..`z` |
| HostCloak.LetterSubstIsTableLookup | ext/ipcloak/ipcloak.c:96 | the replacement is `b26_alphabet[(c + accum) % 26]` with the sum wrapped modulo 2^32 |
| HostCloak.DigitSubst | ext/ipcloak/ipcloak.c:122-123 | a pass-2 replacement is a digit |
| HostCloak.Pass1At | ext/ipcloak/ipcloak.c:107-114 | pass 1 keeps every character it does not replace (digits, `-`, and everything from the first `.` on), and a replaced one becomes a letter `a`..`z` |
| HostCloak.Pass1Classes | ext/ipcloak/ipcloak.c:111-114 | pass 1 keeps digits digits and non-digits non-digits, and writes no NUL |
| HostCloak.CloakedHostAt | ext/ipcloak/ipcloak.c:121-125 | pass 2 yields a digit exactly where the copy had one, and leaves every non-digit as pass 1 left it |
| HostCloak.CloakHostText | ext/ipcloak/ipcloak.c:107-126 | the two passes keep the length of the copy, and every character is kept, a digit, or a letter `a`..`z` |
| HostCloak.CloakHost | ext/ipcloak/ipcloak.c:93-127 | the result has the length of the truncated copy, min(len, 50) |
| HostCloak.DotsAndDashesKept | ext/ipcloak/ipcloak.c:108-112 | every `.` and `-` stays at its position |
| HostCloak.RestNonDigitsKept | ext/ipcloak/ipcloak.c:107-109 | from the first `.` on, every non-digit is kept |
| HostCloak.FirstLabelBecomesLetters | ext/ipcloak/ipcloak.c:110-114 | before the first `.`, every character other than a digit or `-` becomes a letter `a`..`z` |
| HostCloak.DigitsStayDigits | ext/ipcloak/ipcloak.c:120-123 | a position holds a digit after cloaking if and only if it held one before |
| HostCloak.CloakHostTextHasNoNul | ext/ipcloak/ipcloak.c:121 | neither pass writes a NUL, so the C string in the buffer is the whole result |
| HostCloak.Pass1Step | ext/ipcloak/ipcloak.c:107-118 | one pass-1 iteration before the first `.`: digits and `-` are skipped without rotating; anything else takes `LetterSubst(c, accum)` and rotates once |
| HostCloak.ScrambleFirstLabel | ext/ipcloak/ipcloak.c:107-118 | pass 1 leaves `Pass1Text` in the buffer and returns `accum` rotated once per replaced character |
| HostCloak.ScrambleDigits | ext/ipcloak/ipcloak.c:120-126 | pass 2 turns the pass-1 text into the cloaked text, `accum` rotating at every position |
| HostCloak.DoHostCloakHost | ext/ipcloak/ipcloak.c:93-127 | `outbuf` holds `CloakHost` of the input, then a NUL; bytes past the NUL are untouched |
| Callers.ResAsWrittenFitsIff | ext/ipcloak/ipcloak.c:131 | the declared `res` of 50 bytes holds the copy if and only if the input is shorter than 50 characters |
| Callers.ResFits | ext/ipcloak/ipcloak.c:146 | a `res` of 51 bytes holds the copy of every input |
| Callers.CloakIpCall | ext/ipcloak/ipcloak.c:129-142 | `IPCloak.ip` raises on text that is not a C string, and otherwise returns exactly `CloakIp` of the text, with `res` of HOSTLEN + 1 bytes (see Findings) |
| Callers.CloakHostCall | ext/ipcloak/ipcloak.c:144-157 | `IPCloak.host` raises on text that is not a C string, and otherwise returns exactly `CloakHost` of the text, with `res` of HOSTLEN + 1 bytes (see Findings) |

## Left out

- The Ruby glue is not modelled: `Init_ipcloak`, the module and method registration, `rb_raise` and `rb_str_new2` (lines 17-27 and 129-157). Only the callers' `res` size and the C string they pass and read back are modelled.
- Callers.CloakIpCall: `StringValueCStr` is Ruby's and is not part of this model. Its rejection of text with an embedded NUL is modelled as `Raised`, and the `data == NULL` branch (lines 134-137) is then unreachable. Non-string arguments are not modelled.
- Callers.CloakHostCall: `StringValueCStr` is modelled as for `CloakIpCall`.
- Bytes 0x80 and above in the copy are excluded by a precondition on `DoHostCloakIp`, `DoHostCloakHost` and the callers. With a signed `char`, such bytes sign-extend in `*tptr + accum`, and `isdigit` is undefined on them. The model reads characters as unsigned. The hash takes `unsigned char` and accepts every byte.
- `isdigit` is modelled as the ASCII range `0`..`9`. Locales are not modelled.
- Fnv1a.FnvHash: `bits < 0` is excluded by a precondition, because the C shift by a negative amount is undefined. For `bits == 31` the C `(1 << 31) - 1` overflows `int`. The model takes the usual two's-complement outcome 0x7FFFFFFF, which is also what the unsigned mask gives.
- The libc routines are modelled by their effect on the buffers:
  - `strlcpy`, as `StrlCpy` with a precondition that the destination holds the copy;
  - `strchr`, as membership in the C string;
  - the C-string length.
- Update in place is modelled only as far as the buffers are separate. `inbuf` and `outbuf` are required to be different arrays (`inbuf != outbuf`), so aliasing between them is not modelled.

## Findings

| source | as written | input that shows it | evidently intended | confidence | as-written member | corrected member |
|---|---|---|---|---|---|---|
| ext/ipcloak/ipcloak.c:131 | `char res[HOSTLEN]` (50 bytes) receives `strlcpy(res, data, HOSTLEN + 1)`, which writes up to 50 characters and a NUL, that is 51 bytes; line 146 is the same | any text of 50 or more characters, e.g. a 50-character hostname: the NUL goes to `res[50]`, one byte past the buffer | `char res[HOSTLEN + 1]`, so that every copy fits | not executed | Callers.ResAsWrittenFitsIff | Callers.ResFits |
