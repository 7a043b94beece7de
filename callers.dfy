/** The C side of `IPCloak.ip` and `IPCloak.host`: the text is handed over
    as a C string, cloaked into a local buffer `res`, and the C string left
    in `res` is returned. */
module Callers {
  import opened CString
  import opened IpCloak
  import opened HostCloak
  import Fnv1a

  /** The size of `res` as declared, `char res[HOSTLEN]`. */
  const RES_LEN_AS_WRITTEN: nat := HOSTLEN
  /** The size the copy needs: `HOSTLEN` characters and the NUL. */
  const RES_LEN: nat := HOSTLEN + 1

  /** As declared, `res` holds the copy exactly when the input is shorter
      than `HOSTLEN`: an input of `HOSTLEN` characters or more has its
      terminating NUL written one byte past the end of `res`. */
  lemma ResAsWrittenFitsIff(len: nat)
    ensures CopyFits(len, RES_LEN_AS_WRITTEN) <==> len < HOSTLEN
  {
  }

  /** With room for the NUL, `res` holds the copy of every input. */
  lemma ResFits(len: nat)
    ensures CopyFits(len, RES_LEN)
  {
  }

  /** What the call gives back: an exception when the text cannot be turned
      into a C string, the cloaked text otherwise. */
  datatype Outcome = Raised | Returned(text: seq<byte>)

  /** The C string `data` as a buffer: its bytes followed by the NUL. */
  method ToCString(data: seq<byte>) returns (buf: array<byte>)
    requires NUL !in data
    ensures fresh(buf)
    ensures buf[..] == data + [NUL]
  {
    buf := new byte[|data| + 1];
    forall k | 0 <= k < buf.Length {
      buf[k] := if k < |data| then data[k] else NUL;
    }
  }

  lemma CStringOf(data: seq<byte>, buf: seq<byte>)
    requires NUL !in data && buf == data + [NUL]
    ensures NUL in buf && StrLen(buf) == |data| && buf[..StrLen(buf)] == data
  {
    StrLenAt(buf, |data|);
  }

  /** A buffer holding `text` and then a NUL holds the C string `text`. */
  lemma ReadBack(res: seq<byte>, n: nat, text: seq<byte>)
    requires n < |res| && res[..n] == text && res[n] == NUL && NUL !in text
    ensures NUL in res && res[..StrLen(res)] == text
  {
    StrLenAt(res, n);
  }

  /** `method_ipcloak_ip` with `res` of `RES_LEN` bytes. `StringValueCStr`
      rejects text with an embedded NUL; otherwise the result is the cloaked
      copy of the whole text. */
  method CloakIpCall(data: seq<byte>) returns (r: Outcome)
    requires IsAscii(Truncate(data))
    ensures NUL in data ==> r == Raised
    ensures NUL !in data ==> r == Returned(CloakIp(data))
  {
    if NUL in data {
      return Raised;
    }
    var inbuf := ToCString(data);
    var res := new byte[RES_LEN];
    assert NUL in inbuf[..] && inbuf[..StrLen(inbuf[..])] == data by {
      CStringOf(data, inbuf[..]);
    }
    ResFits(|data|);
    DoHostCloakIp(inbuf, res);
    assert NUL in res[..] && res[..StrLen(res[..])] == CloakIp(data) by {
      CloakIpTextHasNoNul(Truncate(data), Fnv1a.Fnv(data) as int);
      ReadBack(res[..], Min(|data|, HOSTLEN), CloakIp(data));
    }
    r := Returned(res[..StrLen(res[..])]);
  }

  /** `method_ipcloak_host` with `res` of `RES_LEN` bytes. */
  method CloakHostCall(data: seq<byte>) returns (r: Outcome)
    requires IsAscii(Truncate(data))
    ensures NUL in data ==> r == Raised
    ensures NUL !in data ==> r == Returned(CloakHost(data))
  {
    if NUL in data {
      return Raised;
    }
    var inbuf := ToCString(data);
    var res := new byte[RES_LEN];
    assert NUL in inbuf[..] && inbuf[..StrLen(inbuf[..])] == data by {
      CStringOf(data, inbuf[..]);
    }
    ResFits(|data|);
    DoHostCloakHost(inbuf, res);
    assert NUL in res[..] && res[..StrLen(res[..])] == CloakHost(data) by {
      CloakHostTextHasNoNul(Truncate(data), Fnv1a.Fnv(data) as int);
      ReadBack(res[..], Min(|data|, HOSTLEN), CloakHost(data));
    }
    r := Returned(res[..StrLen(res[..])]);
  }
}
