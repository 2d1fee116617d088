/**
 SPNEGO wrapping of NTLM messages: the DER writer, the NegTokenResp it builds
 (section 4.2.2 of RFC 4178) and the signature search that unwraps it.
 */
module Spnego {
  import opened Bytes
  import opened Wrappers

  /** "NTLMSSP\0" */
  const SIGNATURE: seq<byte> := [0x4E, 0x54, 0x4C, 0x4D, 0x53, 0x53, 0x50, 0x00]

  /** 1.3.6.1.4.1.311.2.2.10 */
  const NTLM_OID: seq<byte> := [0x2B, 0x06, 0x01, 0x04, 0x01, 0x82, 0x37, 0x02, 0x02, 0x0A]

  const ACCEPT_INCOMPLETE: seq<byte> := [0x0A, 0x01, 0x01]

  /** Tag and length as the DER writer emits them; above 65535 the length is truncated to 16 bits. */
  function Header(tag: byte, length: nat): (h: seq<byte>)
    ensures 2 <= |h| <= 4 && h[0] == tag
  {
    if length < 128 then [tag, length as byte]
    else if length < 256 then [tag, 0x81, length as byte]
    else [tag, 0x82, (length / 256 % 256) as byte, (length % 256) as byte]
  }

  function Wrap(tag: byte, data: seq<byte>): (r: seq<byte>)
    ensures |r| == |Header(tag, |data|)| + |data|
  {
    Header(tag, |data|) + data
  }

  /** asn1Wrap fills a result buffer branch by branch. */
  method Asn1Wrap(tag: byte, data: seq<byte>) returns (result: array<byte>)
    ensures fresh(result)
    ensures result[..] == Wrap(tag, data)
  {
    var length := |data|;
    var at: nat;
    if length < 128 {
      result := new byte[2 + length];
      result[0], result[1], at := tag, length as byte, 2;
    } else if length < 256 {
      result := new byte[3 + length];
      result[0], result[1], result[2], at := tag, 0x81, length as byte, 3;
    } else {
      result := new byte[4 + length];
      result[0], result[1], at := tag, 0x82, 4;
      result[2], result[3] := (length / 256 % 256) as byte, (length % 256) as byte;
    }
    forall i | 0 <= i < length {
      result[at + i] := data[i];
    }
    assert result[..at] == Header(tag, length);
    assert result[at..] == data;
    assert result[..] == result[..at] + result[at..];
  }

  function NegotiationPrefix(): seq<byte> {
    Wrap(0xA0, ACCEPT_INCOMPLETE) + Wrap(0xA1, Wrap(0x06, NTLM_OID))
  }

  function WrapInSpnego(m: seq<byte>): seq<byte> {
    Wrap(0xA1, Wrap(0x30, NegotiationPrefix() + Wrap(0xA2, Wrap(0x04, m))))
  }

  // ---- Unwrapping by search ----

  predicate SignatureAt(blob: seq<byte>, i: nat) {
    i + 8 <= |blob| && blob[i..i + 8] == SIGNATURE
  }

  /** Scans for the first signature that still has a byte behind it. */
  method ExtractNtlm(blob: seq<byte>) returns (r: Option<seq<byte>>)
    ensures r.Some? ==>
      exists i :: 0 <= i < |blob| - 8 && SignatureAt(blob, i) && r.value == blob[i..]
                  && forall j :: 0 <= j < i ==> !SignatureAt(blob, j)
    ensures r.None? ==> |blob| < 10 || forall j :: 0 <= j < |blob| - 8 ==> !SignatureAt(blob, j)
  {
    if |blob| < 10 {
      return None;
    }
    for i := 0 to |blob| - 8
      invariant forall j :: 0 <= j < i ==> !SignatureAt(blob, j)
    {
      if blob[i..i + 8] == SIGNATURE {
        assert SignatureAt(blob, i);
        return Some(blob[i..]);
      }
    }
    return None;
  }

  /** Three bytes that no tag or length sequence of the wrapper can produce. */
  predicate MarkAt(s: seq<byte>, i: nat) {
    i + 3 <= |s| && s[i] == 0x4E && s[i + 1] == 0x54 && s[i + 2] == 0x4C
  }

  /** `s` ends with the message `m`, whose mark is the first one in `s`. */
  predicate Carries(s: seq<byte>, m: seq<byte>) {
    |m| <= |s| && s[|s| - |m|..] == m && MarkAt(m, 0) && forall i :: 0 <= i < |s| - |m| ==> !MarkAt(s, i)
  }

  /** A DER header neither contains nor completes a mark. */
  lemma WrapCarries(tag: byte, data: seq<byte>, m: seq<byte>)
    requires tag != 0x4E && Carries(data, m)
    requires data[0] != 0x54 && data[0] != 0x4C
    ensures Carries(Wrap(tag, data), m)
  {
    var h, w := Header(tag, |data|), Wrap(tag, data);
    assert w[|w| - |m|..] == data[|data| - |m|..];
    forall i | 0 <= i < |w| - |m|
      ensures !MarkAt(w, i)
    {
      if i >= |h| {
        assert !MarkAt(data, i - |h|);
      } else {
        assert w[|h|] == data[0];
        assert forall k :: 0 <= k < |h| ==> w[k] == h[k];
      }
    }
  }

  lemma PrefixCarries(data: seq<byte>, m: seq<byte>)
    requires Carries(data, m) && data[0] == 0xA2
    ensures Carries(NegotiationPrefix() + data, m)
  {
    var p := NegotiationPrefix();
    assert p == [0xA0, 0x03, 0x0A, 0x01, 0x01, 0xA1, 0x0C, 0x06, 0x0A] + NTLM_OID;
    var w := p + data;
    assert w[|w| - |m|..] == data[|data| - |m|..];
    forall i | 0 <= i < |w| - |m|
      ensures !MarkAt(w, i)
    {
      if i >= |p| {
        assert !MarkAt(data, i - |p|);
      } else {
        assert p[i] != 0x4E;
      }
    }
  }

  lemma SignatureIsMark(s: seq<byte>, i: nat)
    requires SignatureAt(s, i)
    ensures MarkAt(s, i)
  {
  }

  lemma SpnegoCarries(m: seq<byte>)
    requires MarkAt(m, 0)
    ensures Carries(WrapInSpnego(m), m)
  {
    assert Carries(m, m);
    WrapCarries(0x04, m, m);
    WrapCarries(0xA2, Wrap(0x04, m), m);
    PrefixCarries(Wrap(0xA2, Wrap(0x04, m)), m);
    WrapCarries(0x30, NegotiationPrefix() + Wrap(0xA2, Wrap(0x04, m)), m);
    WrapCarries(0xA1, Wrap(0x30, NegotiationPrefix() + Wrap(0xA2, Wrap(0x04, m))), m);
  }

  function TokenOffset(m: seq<byte>): int {
    |WrapInSpnego(m)| - |m|
  }

  /** The wrapper ends with the message, and no signature starts before it. */
  lemma WrapperHidesNothing(m: seq<byte>)
    requires SignatureAt(m, 0)
    ensures 0 <= TokenOffset(m) && WrapInSpnego(m)[TokenOffset(m)..] == m
    ensures SignatureAt(WrapInSpnego(m), TokenOffset(m))
    ensures forall j :: 0 <= j < TokenOffset(m) ==> !SignatureAt(WrapInSpnego(m), j)
  {
    var blob := WrapInSpnego(m);
    SignatureIsMark(m, 0);
    SpnegoCarries(m);
    assert blob[TokenOffset(m)..TokenOffset(m) + 8] == blob[TokenOffset(m)..][..8];
    forall j | 0 <= j < TokenOffset(m)
      ensures !SignatureAt(blob, j)
    {
      if SignatureAt(blob, j) {
        SignatureIsMark(blob, j);
      }
    }
  }

  /** Extraction undoes wrapping exactly when the message is longer than its signature. */
  method WrapThenExtract(m: seq<byte>) returns (r: Option<seq<byte>>)
    requires SignatureAt(m, 0)
    ensures r == if |m| > 8 then Some(m) else None
  {
    WrapperHidesNothing(m);
    var blob := WrapInSpnego(m);
    r := ExtractNtlm(blob);
    if |m| > 8 {
      assert 0 <= TokenOffset(m) < |blob| - 8 && SignatureAt(blob, TokenOffset(m));
    }
  }

  // ---- A DER reader (section 8.1.3 of X.690, definite lengths) ----

  datatype Tlv = Tlv(tag: byte, value: seq<byte>, rest: seq<byte>)

  /** Reads one element; the long form must carry one or two length bytes and be minimal. */
  function ReadTlv(s: seq<byte>): Option<Tlv> {
    if |s| < 2 then None
    else if s[1] < 0x80 then Take(s, 2, s[1] as nat)
    else if s[1] == 0x81 && |s| >= 3 && s[2] >= 0x80 then Take(s, 3, s[2] as nat)
    else if s[1] == 0x82 && |s| >= 4 && s[2] > 0 then Take(s, 4, s[2] as nat * 256 + s[3] as nat)
    else None
  }

  function Take(s: seq<byte>, at: nat, length: nat): Option<Tlv>
    requires 1 <= at <= |s|
  {
    if at + length <= |s| then Some(Tlv(s[0], s[at..at + length], s[at + length..])) else None
  }

  /** The reader gets back what was wrapped exactly when the length fits the two length bytes. */
  lemma WrapReadable(tag: byte, data: seq<byte>, rest: seq<byte>)
    ensures ReadTlv(Wrap(tag, data) + rest) == Some(Tlv(tag, data, rest)) <==> |data| < 0x1_0000
  {
    var h := Header(tag, |data|);
    var s := Wrap(tag, data) + rest;
    assert s == h + (data + rest);
    assert forall k :: 0 <= k < |h| ==> s[k] == h[k];
    assert s[|h|..|h| + |data|] == data;
    assert s[|h| + |data|..] == rest;
    if |data| < 0x1_0000 {
      assert Take(s, |h|, |data|) == Some(Tlv(tag, data, rest));
    } else {
      var announced := |data| / 256 % 256 * 256 + |data| % 256;
      assert announced < |data|;
      assert ReadTlv(s) == Some(Tlv(tag, data, rest)) ==> |data| == announced;
    }
  }

  datatype NegTokenResp = NegTokenResp(negState: seq<byte>, mechanism: seq<byte>, token: seq<byte>)

  /** Opens a tag that must be `tag`, giving its content and what follows it. */
  function Open(tag: byte, s: seq<byte>): Option<(seq<byte>, seq<byte>)> {
    match ReadTlv(s)
    case Some(t) => if t.tag == tag then Some((t.value, t.rest)) else None
    case None => None
  }

  /** Reads [1]{SEQUENCE{[0] negState, [1] OID, [2] OCTET STRING}} with nothing left over. */
  function ReadNegTokenResp(s: seq<byte>): Option<NegTokenResp> {
    var outer := Open(0xA1, s);
    if outer.None? || outer.value.1 != [] then None
    else
      var body := Open(0x30, outer.value.0);
      if body.None? || body.value.1 != [] then None
      else
        var state := Open(0xA0, body.value.0);
        if state.None? then None
        else
          var mech := Open(0xA1, state.value.1);
          if mech.None? then None
          else
            var oid, resp := Open(0x06, mech.value.0), Open(0xA2, mech.value.1);
            if oid.None? || resp.None? || oid.value.1 != [] || resp.value.1 != [] then None
            else
              var token := Open(0x04, resp.value.0);
              if token.None? || token.value.1 != [] then None
              else Some(NegTokenResp(state.value.0, oid.value.0, token.value.0))
  }

  lemma OpenWrapped(tag: byte, data: seq<byte>, rest: seq<byte>)
    requires |data| < 0x1_0000
    ensures Open(tag, Wrap(tag, data) + rest) == Some((data, rest))
  {
  }

  lemma OpenAlone(tag: byte, data: seq<byte>)
    requires |data| < 0x1_0000
    ensures Open(tag, Wrap(tag, data)) == Some((data, []))
  {
    OpenWrapped(tag, data, []);
    assert Wrap(tag, data) + [] == Wrap(tag, data);
  }

  /** The element the outermost tag announces. */
  function Body(m: seq<byte>): seq<byte> {
    Wrap(0x30, NegotiationPrefix() + Wrap(0xA2, Wrap(0x04, m)))
  }

  /** While every announced length is below 65536, a DER reader recovers state, mechanism and token. */
  lemma DerRoundTrip(m: seq<byte>)
    requires |Body(m)| < 0x1_0000
    ensures ReadNegTokenResp(WrapInSpnego(m)) == Some(NegTokenResp(ACCEPT_INCOMPLETE, NTLM_OID, m))
  {
    var token := Wrap(0x04, m);
    var resp := Wrap(0xA2, token);
    var mech := Wrap(0xA1, Wrap(0x06, NTLM_OID));
    var content := NegotiationPrefix() + resp;
    assert content == Wrap(0xA0, ACCEPT_INCOMPLETE) + (mech + resp);
    assert |m| < |token| < |resp| < |content| < |Body(m)|;
    OpenAlone(0xA1, Body(m));
    OpenAlone(0x30, content);
    OpenWrapped(0xA0, ACCEPT_INCOMPLETE, mech + resp);
    OpenWrapped(0xA1, Wrap(0x06, NTLM_OID), resp);
    OpenAlone(0x06, NTLM_OID);
    OpenAlone(0xA2, token);
    OpenAlone(0x04, m);
  }

  /** The 16-bit length is the only limit: a longer body is never read back. */
  lemma DerReadableIff(m: seq<byte>)
    ensures ReadNegTokenResp(WrapInSpnego(m)) == Some(NegTokenResp(ACCEPT_INCOMPLETE, NTLM_OID, m))
            <==> |Body(m)| < 0x1_0000
  {
    if |Body(m)| < 0x1_0000 {
      DerRoundTrip(m);
    } else {
      var s := WrapInSpnego(m);
      assert s[1] == 0x82;
    }
  }

  /** The constants: the NTLM signature, the object identifier 1.3.6.1.4.1.311.2.2.10, and the state accept-incomplete. */
  lemma ConstantsMean()
    ensures |SIGNATURE| == 8 && forall i :: 0 <= i < 8 ==> SIGNATURE[i] as int == "NTLMSSP\0"[i] as int
    ensures |NTLM_OID| == 10 && NTLM_OID[0] as int == 40 * 1 + 3 && NTLM_OID[1..5] == [6, 1, 4, 1]
    ensures (NTLM_OID[5] as int - 128) * 128 + NTLM_OID[6] as int == 311 && NTLM_OID[7..10] == [2, 2, 10]
    ensures ACCEPT_INCOMPLETE == [10, 1, 1]
  {
  }
}
