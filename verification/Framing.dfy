/**
 SMB2 messages on a TCP stream: the 64-byte header codec, message signatures, and the
 NetBIOS framing that carries a list of messages and gives it back in order.
 */
module Framing {
  import opened Bytes
  import Cmac
  import opened Wrappers

  type u16 = x: nat | x < 0x1_0000
  type Sig = Cmac.Block

  const PROTOCOL_ID: seq<byte> := [0xFE, 0x53, 0x4D, 0x42]
  const HEADER_SIZE: nat := 64
  const SIGNATURE_OFFSET: nat := 48
  const MAX_TRANSACT_SIZE: nat := 8 * 1024 * 1024
  const SMB3_0: nat := 0x0300

  datatype Header = Header(
    protocolId: seq<byte>, structureSize: u16, creditCharge: u16, status: u32, command: u16,
    creditRequest: u16, flags: u32, nextCommand: u32, messageId: u64, reserved: u32,
    treeId: u32, sessionId: u64, signature: Sig)

  // ---- Header codec ----

  const LOW_WIDTHS: seq<nat> := [2, 2, 4, 2, 2, 4]
  const HIGH_WIDTHS: seq<nat> := [4, 8, 4, 4, 8]

  /** Bytes 4 to 19. */
  function LowFields(h: Header): seq<Field> {
    [Field(2, h.structureSize), Field(2, h.creditCharge), Field(4, h.status), Field(2, h.command),
     Field(2, h.creditRequest), Field(4, h.flags)]
  }

  /** Bytes 20 to 47. */
  function HighFields(h: Header): seq<Field> {
    [Field(4, h.nextCommand), Field(8, h.messageId), Field(4, h.reserved), Field(4, h.treeId), Field(8, h.sessionId)]
  }

  /** Always writes the SMB2 protocol id, whatever the header carries. */
  function Marshal(h: Header): (s: seq<byte>)
    ensures |s| == HEADER_SIZE
  {
    HeaderLayout(h);
    PROTOCOL_ID + EncodeFields(LowFields(h)) + EncodeFields(HighFields(h)) + h.signature
  }

  /** Reads the fields between the protocol id and the signature, in order. */
  function Unmarshal(data: seq<byte>): (h: Header)
    requires |data| >= HEADER_SIZE
  {
    HeaderWidths();
    Pow256Widths();
    var lo, hi := DecodeFields(LOW_WIDTHS, data[4..20]), DecodeFields(HIGH_WIDTHS, data[20..48]);
    Header(data[0..4], lo[0], lo[1], lo[2], lo[3], lo[4], lo[5], hi[0], hi[1], hi[2], hi[3], hi[4], data[48..64])
  }

  lemma HeaderWidths()
    ensures Sum(LOW_WIDTHS) == 16 && Sum(HIGH_WIDTHS) == 28
  {
  }

  lemma HeaderLayout(h: Header)
    ensures Widths(LowFields(h)) == LOW_WIDTHS && Widths(HighFields(h)) == HIGH_WIDTHS
    ensures |EncodeFields(LowFields(h))| == 16 && |EncodeFields(HighFields(h))| == 28
    ensures FieldsFit(LowFields(h)) && FieldsFit(HighFields(h))
  {
  }

  lemma DecodeEncoded(fs: seq<Field>)
    requires FieldsFit(fs)
    ensures DecodeFields(Widths(fs), EncodeFields(fs)) == Values(fs)
  {
    FieldsRoundTrip(fs, []);
    assert EncodeFields(fs) + [] == EncodeFields(fs);
  }

  /** Decoding an encoded header gives it back, with the protocol id that Marshal forces. */
  lemma HeaderRoundTrip(h: Header, payload: seq<byte>)
    ensures Unmarshal(Marshal(h) + payload) == h.(protocolId := PROTOCOL_ID)
  {
    hide LowFields, HighFields, EncodeFields;
    HeaderLayout(h);
    var data := Marshal(h) + payload;
    DecodeEncoded(LowFields(h));
    DecodeEncoded(HighFields(h));
    assert data[0..4] == PROTOCOL_ID;
    assert data[4..20] == EncodeFields(LowFields(h));
    assert data[20..48] == EncodeFields(HighFields(h));
    assert data[48..64] == h.signature;
    LowValues(h);
    HighValues(h);
  }

  lemma LowValues(h: Header)
    ensures var vs := Values(LowFields(h));
            && vs[0] == h.structureSize && vs[1] == h.creditCharge && vs[2] == h.status
            && vs[3] == h.command && vs[4] == h.creditRequest && vs[5] == h.flags
  {
  }

  lemma HighValues(h: Header)
    ensures var vs := Values(HighFields(h));
            && vs[0] == h.nextCommand && vs[1] == h.messageId && vs[2] == h.reserved
            && vs[3] == h.treeId && vs[4] == h.sessionId
  {
  }

  // ---- Signatures ----

  /** AES under a key, and HMAC-SHA256 cut to 16 bytes: any two functions of these shapes. */
  datatype Crypto = Crypto(cipher: Cmac.Cipher, hmac: (Cmac.Block, seq<byte>) -> Sig)

  function ZeroSignature(m: seq<byte>): seq<byte>
    requires |m| >= HEADER_SIZE
  {
    Splice(m, SIGNATURE_OFFSET, Zeros(16))
  }

  function SignMessage(c: Crypto, m: seq<byte>, key: seq<byte>, dialect: nat): Option<Sig> {
    if |key| == 0 || |m| < HEADER_SIZE then None
    else
      var k := Cmac.FitKey(key);
      Some(if dialect >= SMB3_0 then Cmac.Mac(c.cipher, k, ZeroSignature(m)) else c.hmac(k, ZeroSignature(m)))
  }

  predicate VerifySignature(c: Crypto, m: seq<byte>, key: seq<byte>, dialect: nat) {
    |key| > 0 && |m| >= HEADER_SIZE &&
    SignMessage(c, m, key, dialect) == Some(m[SIGNATURE_OFFSET..HEADER_SIZE])
  }

  function ApplySignature(m: seq<byte>, sig: Sig): seq<byte> {
    if |m| >= HEADER_SIZE then Splice(m, SIGNATURE_OFFSET, sig) else m
  }

  /** A signature depends on no byte of 48..63. */
  lemma SignatureIgnoresItself(c: Crypto, m: seq<byte>, m': seq<byte>, key: seq<byte>, dialect: nat)
    requires |m| == |m'| && forall i :: 0 <= i < |m| && !(SIGNATURE_OFFSET <= i < HEADER_SIZE) ==> m[i] == m'[i]
    ensures SignMessage(c, m, key, dialect) == SignMessage(c, m', key, dialect)
  {
    if |m| >= HEADER_SIZE {
      assert ZeroSignature(m) == ZeroSignature(m');
    }
  }

  /** Signing alters no other byte, and what it leaves verifies; a tampered signature does not. */
  lemma SignedVerifies(c: Crypto, m: seq<byte>, key: seq<byte>, dialect: nat, sig: Sig)
    requires |key| > 0 && |m| >= HEADER_SIZE
    ensures VerifySignature(c, ApplySignature(m, sig), key, dialect) <==> Some(sig) == SignMessage(c, m, key, dialect)
    ensures forall i :: 0 <= i < |m| && !(SIGNATURE_OFFSET <= i < HEADER_SIZE) ==> ApplySignature(m, sig)[i] == m[i]
  {
    var signed := ApplySignature(m, sig);
    assert signed == m[..48] + sig + m[64..];
    SignatureIgnoresItself(c, m, signed, key, dialect);
    assert signed[SIGNATURE_OFFSET..HEADER_SIZE] == sig;
  }

  /** A signature verifies exactly if it is the MAC of its dialect over the message with zeros in its place. */
  lemma VerifyMeans(c: Crypto, m: seq<byte>, key: seq<byte>, dialect: nat)
    requires |m| >= 64 && |key| > 0
    ensures var zeroed := m[..48] + Zeros(16) + m[64..];
            VerifySignature(c, m, key, dialect) <==>
              m[48..64] == if dialect >= 0x0300 then Cmac.Mac(c.cipher, Cmac.FitKey(key), zeroed) else c.hmac(Cmac.FitKey(key), zeroed)
  {
    hide Cmac.Mac, Cmac.FitKey;
  }

  // ---- The layout of the header ----

  lemma EncodeFirstOf(f: Field, fs: seq<Field>)
    ensures EncodeFields([f] + fs) == LE(f.value, f.width) + EncodeFields(fs)
  {
    assert ([f] + fs)[1..] == fs;
  }

  lemma LowBytes(h: Header)
    ensures EncodeFields(LowFields(h)) ==
            LE(h.structureSize, 2) + (LE(h.creditCharge, 2) + (LE(h.status, 4) + (LE(h.command, 2) + (LE(h.creditRequest, 2) + LE(h.flags, 4)))))
  {
    hide LE, EncodeFields;
    var f := LowFields(h);
    EncodeFirstOf(f[0], f[1..]);
    EncodeFirstOf(f[1], f[2..]);
    EncodeFirstOf(f[2], f[3..]);
    EncodeFirstOf(f[3], f[4..]);
    EncodeFirstOf(f[4], f[5..]);
    EncodeFirstOf(f[5], []);
    NoFields();
    assert f == [f[0]] + f[1..] && f[1..] == [f[1]] + f[2..] && f[2..] == [f[2]] + f[3..] && f[3..] == [f[3]] + f[4..];
    assert f[4..] == [f[4]] + f[5..] && f[5..] == [f[5]] + [];
    assert LE(h.flags, 4) + [] == LE(h.flags, 4);
  }

  lemma HighBytes(h: Header)
    ensures EncodeFields(HighFields(h)) ==
            LE(h.nextCommand, 4) + (LE(h.messageId, 8) + (LE(h.reserved, 4) + (LE(h.treeId, 4) + LE(h.sessionId, 8))))
  {
    hide LE, EncodeFields;
    var f := HighFields(h);
    EncodeFirstOf(f[0], f[1..]);
    EncodeFirstOf(f[1], f[2..]);
    EncodeFirstOf(f[2], f[3..]);
    EncodeFirstOf(f[3], f[4..]);
    EncodeFirstOf(f[4], []);
    NoFields();
    assert f == [f[0]] + f[1..] && f[1..] == [f[1]] + f[2..] && f[2..] == [f[2]] + f[3..];
    assert f[3..] == [f[3]] + f[4..] && f[4..] == [f[4]] + [];
    assert LE(h.sessionId, 8) + [] == LE(h.sessionId, 8);
  }

  lemma NoFields()
    ensures EncodeFields([]) == []
  {
  }

  /** The fields stand at the offsets of section 2.2.1.2 of MS-SMB2, little-endian. */
  lemma HeaderAt(h: Header)
    ensures var s := Marshal(h);
            && s[0..4] == [0xFE, 0x53, 0x4D, 0x42]
            && s[4..6] == LE(h.structureSize, 2) && s[6..8] == LE(h.creditCharge, 2) && s[8..12] == LE(h.status, 4)
            && s[12..14] == LE(h.command, 2) && s[14..16] == LE(h.creditRequest, 2) && s[16..20] == LE(h.flags, 4)
            && s[20..24] == LE(h.nextCommand, 4) && s[24..32] == LE(h.messageId, 8) && s[32..36] == LE(h.reserved, 4)
            && s[36..40] == LE(h.treeId, 4) && s[40..48] == LE(h.sessionId, 8) && s[48..64] == h.signature
  {
    hide LE, EncodeFields, LowFields, HighFields;
    LowBytes(h);
    HighBytes(h);
    HeaderLayout(h);
    var s, low, high := Marshal(h), EncodeFields(LowFields(h)), EncodeFields(HighFields(h));
    assert s[4..20] == low && s[20..48] == high;
    LowSlices(low, h);
    HighSlices(high, h);
    assert s[4..6] == low[0..2] && s[6..8] == low[2..4] && s[8..12] == low[4..8] && s[12..14] == low[8..10];
    assert s[14..16] == low[10..12] && s[16..20] == low[12..16];
    assert s[20..24] == high[0..4] && s[24..32] == high[4..12] && s[32..36] == high[12..16];
    assert s[36..40] == high[16..20] && s[40..48] == high[20..28];
  }

  lemma LowSlices(low: seq<byte>, h: Header)
    requires low == LE(h.structureSize, 2) + (LE(h.creditCharge, 2) + (LE(h.status, 4) + (LE(h.command, 2) + (LE(h.creditRequest, 2) + LE(h.flags, 4)))))
    ensures |low| == 16
    ensures low[0..2] == LE(h.structureSize, 2) && low[2..4] == LE(h.creditCharge, 2) && low[4..8] == LE(h.status, 4)
    ensures low[8..10] == LE(h.command, 2) && low[10..12] == LE(h.creditRequest, 2) && low[12..16] == LE(h.flags, 4)
  {
    hide LE;
  }

  lemma HighSlices(high: seq<byte>, h: Header)
    requires high == LE(h.nextCommand, 4) + (LE(h.messageId, 8) + (LE(h.reserved, 4) + (LE(h.treeId, 4) + LE(h.sessionId, 8))))
    ensures |high| == 28
    ensures high[0..4] == LE(h.nextCommand, 4) && high[4..12] == LE(h.messageId, 8) && high[12..16] == LE(h.reserved, 4)
    ensures high[16..20] == LE(h.treeId, 4) && high[20..28] == LE(h.sessionId, 8)
  {
    hide LE;
  }

  // ---- Framing ----

  /** A message handed to writeMessage; an empty key means unsigned. */
  datatype Message = Message(header: Header, payload: seq<byte>, signingKey: seq<byte>, dialect: nat)

  function RawBytes(m: Message): (s: seq<byte>)
    ensures |s| == HEADER_SIZE + |m.payload|
  {
    Marshal(m.header) + m.payload
  }

  /** The SMB2 bytes of a message as they leave, signed when there is a key. */
  function WireBytes(c: Crypto, m: Message): (s: seq<byte>)
    ensures |s| == HEADER_SIZE + |m.payload|
  {
    match SignMessage(c, RawBytes(m), m.signingKey, m.dialect)
    case Some(sig) => ApplySignature(RawBytes(m), sig)
    case None => RawBytes(m)
  }

  /** NetBIOS session header: a zero byte and the low 24 bits of the length, big-endian. */
  function NetBios(length: nat): (s: seq<byte>)
    ensures |s| == 4
  {
    [0, (length / 0x1_0000 % 256) as byte, (length / 0x100 % 256) as byte, (length % 256) as byte]
  }

  function Frame(c: Crypto, m: Message): seq<byte> {
    NetBios(|WireBytes(c, m)|) + WireBytes(c, m)
  }

  function FrameAll(c: Crypto, ms: seq<Message>): seq<byte> {
    if ms == [] then [] else Frame(c, ms[0]) + FrameAll(c, ms[1..])
  }

  datatype Received =
    | Smb2(header: Header, payload: seq<byte>, raw: seq<byte>, rest: seq<byte>)
    | Smb1Negotiate(rest: seq<byte>)
    | EndOfStream
    | Invalid

  /** readMessage on the bytes still unread. */
  function ReadMessage(stream: seq<byte>): Received {
    if |stream| < 4 then EndOfStream
    else
      var length := stream[1] as nat * 0x1_0000 + stream[2] as nat * 0x100 + stream[3] as nat;
      if length < HEADER_SIZE || length > MAX_TRANSACT_SIZE then Invalid
      else if |stream| < 4 + length then EndOfStream
      else
        var data, rest := stream[4..4 + length], stream[4 + length..];
        if data[0..4] == PROTOCOL_ID then Smb2(Unmarshal(data), data[HEADER_SIZE..], data, rest)
        else if data[0] == 0xFF && data[1..4] == PROTOCOL_ID[1..4] then Smb1Negotiate(rest)
        else Invalid
  }

  /** Messages read from a stream until one cannot be read. */
  function ReadAll(stream: seq<byte>): seq<Received>
    decreases |stream|
  {
    var r := ReadMessage(stream);
    if r.Smb2? then [r] + ReadAll(r.rest) else []
  }

  /** What readMessage accepts: at most MaxTransactSize bytes of SMB2 message, under the SMB2 protocol id. */
  predicate Sendable(m: Message) {
    HEADER_SIZE + |m.payload| <= MAX_TRANSACT_SIZE && m.header.protocolId == PROTOCOL_ID
  }

  /** What a reader must see of a message. */
  predicate Arrived(c: Crypto, m: Message, r: Received) {
    && r.Smb2?
    && r.payload == m.payload
    && r.header.(signature := m.header.signature) == m.header
    && (if m.signingKey == [] then r.header == m.header
        else VerifySignature(c, r.raw, m.signingKey, m.dialect))
  }

  lemma NetBiosLength(length: nat)
    requires length < 0x100_0000
    ensures var s := NetBios(length);
            s[1] as nat * 0x1_0000 + s[2] as nat * 0x100 + s[3] as nat == length
  {
  }

  /** Signing changes nothing of the wire bytes but the header's signature. */
  lemma WireIsMarshalled(c: Crypto, m: Message)
    ensures exists sig: Sig :: WireBytes(c, m) == Marshal(m.header.(signature := sig)) + m.payload
                               && (m.signingKey == [] ==> sig == m.header.signature)
  {
    var raw := RawBytes(m);
    match SignMessage(c, raw, m.signingKey, m.dialect)
    case Some(sig) =>
      MarshalSigned(m.header, sig);
      hide Marshal;
      assert ApplySignature(raw, sig) == Marshal(m.header)[..48] + sig + m.payload;
    case None =>
      assert m.header.(signature := m.header.signature) == m.header;
  }

  /** The signature is the last field of the header. */
  lemma MarshalSigned(h: Header, sig: Sig)
    ensures Marshal(h.(signature := sig)) == Marshal(h)[..48] + sig
  {
    hide EncodeFields;
    HeaderLayout(h);
    assert LowFields(h.(signature := sig)) == LowFields(h) && HighFields(h.(signature := sig)) == HighFields(h);
  }

  lemma FrameArrives(c: Crypto, m: Message, rest: seq<byte>)
    requires Sendable(m)
    ensures Arrived(c, m, ReadMessage(Frame(c, m) + rest))
    ensures ReadMessage(Frame(c, m) + rest).rest == rest
  {
    var wire := WireBytes(c, m);
    var stream := Frame(c, m) + rest;
    NetBiosLength(|wire|);
    assert stream[1] == NetBios(|wire|)[1] && stream[2] == NetBios(|wire|)[2] && stream[3] == NetBios(|wire|)[3];
    assert stream[4..4 + |wire|] == wire && stream[4 + |wire|..] == rest;
    WireIsMarshalled(c, m);
    var sig: Sig :| wire == Marshal(m.header.(signature := sig)) + m.payload
                    && (m.signingKey == [] ==> sig == m.header.signature);
    HeaderRoundTrip(m.header.(signature := sig), m.payload);
    assert wire[0..4] == PROTOCOL_ID;
    assert wire[HEADER_SIZE..] == m.payload;
    if m.signingKey != [] {
      SignedVerifies(c, RawBytes(m), m.signingKey, m.dialect,
                     SignMessage(c, RawBytes(m), m.signingKey, m.dialect).value);
    }
  }

  predicate AllArrived(c: Crypto, ms: seq<Message>, rs: seq<Received>) {
    |rs| == |ms| && forall i :: 0 <= i < |ms| ==> Arrived(c, ms[i], rs[i])
  }

  lemma AllArrivedCons(c: Crypto, m: Message, ms: seq<Message>, r: Received, rs: seq<Received>)
    requires Arrived(c, m, r) && AllArrived(c, ms, rs)
    ensures AllArrived(c, [m] + ms, [r] + rs)
  {
  }

  /** Any list of sendable messages reads back in order, and every signed one verifies. */
  lemma {:induction false} StreamRoundTrip(c: Crypto, ms: seq<Message>)
    requires forall i :: 0 <= i < |ms| ==> Sendable(ms[i])
    ensures AllArrived(c, ms, ReadAll(FrameAll(c, ms)))
  {
    if ms != [] {
      var tail := FrameAll(c, ms[1..]);
      var r := ReadMessage(Frame(c, ms[0]) + tail);
      FrameArrives(c, ms[0], tail);
      StreamRoundTrip(c, ms[1..]);
      AllArrivedCons(c, ms[0], ms[1..], r, ReadAll(tail));
      assert ms == [ms[0]] + ms[1..];
    }
  }

  // ---- The buffers ----

  /** The frame before signing: NetBIOS header, SMB2 header and payload in one buffer. */
  method BuildBuffer(m: Message) returns (buf: array<byte>)
    ensures fresh(buf) && buf.Length >= 4 + HEADER_SIZE
    ensures buf[..] == NetBios(HEADER_SIZE + |m.payload|) + RawBytes(m)
  {
    hide NetBios, Marshal, Splice;
    var headerBytes := Marshal(m.header);
    var msgLen := |headerBytes| + |m.payload|;
    buf := new byte[4 + msgLen](_ => 0);
    ghost var zeros := buf[..];
    Copy(buf, 0, NetBios(msgLen));
    Copy(buf, 4, headerBytes);
    Copy(buf, 4 + HEADER_SIZE, m.payload);
    ThreeParts(zeros, NetBios(msgLen), headerBytes, m.payload);
  }

  /** Three pieces that fill a buffer one after the other. */
  lemma ThreeParts(s: seq<byte>, a: seq<byte>, b: seq<byte>, c: seq<byte>)
    requires |s| == |a| + |b| + |c|
    ensures Splice(Splice(Splice(s, 0, a), |a|, b), |a| + |b|, c) == a + (b + c)
  {
    var s1 := Splice(s, 0, a);
    assert s1 == a + s[|a|..];
    var s2 := Splice(s1, |a|, b);
    assert s2 == a + b + s[|a| + |b|..];
  }

  /** The signature of a message, over a copy of it with the signature field zeroed. */
  method Sign(c: Crypto, message: seq<byte>, key: seq<byte>, dialect: nat) returns (signature: Option<Sig>)
    ensures signature == SignMessage(c, message, key, dialect)
  {
    hide Cmac.Mac, Cmac.FitKey;
    if |key| == 0 || |message| < HEADER_SIZE {
      return None;
    }
    var copy := message[..SIGNATURE_OFFSET] + Zeros(16) + message[HEADER_SIZE..];
    assert copy == ZeroSignature(message);
    if dialect >= SMB3_0 {
      var mac := Cmac.ComputeAesCmac(c.cipher, copy, key);
      signature := Some(mac[..]);
    } else {
      signature := Some(c.hmac(Cmac.FitKey(key), copy));
    }
  }

  /** writeMessage: the frame is signed in place, then appended to what was sent. */
  method WriteMessage(c: Crypto, m: Message, sent: seq<byte>) returns (stream: seq<byte>, smb2: seq<byte>)
    ensures smb2 == WireBytes(c, m)
    ensures stream == sent + Frame(c, m)
  {
    hide NetBios, Marshal;
    var buf := BuildBuffer(m);
    ghost var raw := RawBytes(m);
    assert buf[4..] == raw;
    if |m.signingKey| > 0 {
      var signature := Sign(c, buf[4..], m.signingKey, m.dialect);
      if signature.Some? {
        Copy(buf, 4 + SIGNATURE_OFFSET, signature.value);
        assert buf[4..] == ApplySignature(raw, signature.value);
      }
    }
    smb2 := buf[4..];
    assert buf[..4] == NetBios(|raw|);
    assert buf[..] == buf[..4] + buf[4..];
    stream := sent + buf[..];
  }

  /** copy(buf[at:], src) */
  method Copy(buf: array<byte>, at: nat, src: seq<byte>)
    requires at + |src| <= buf.Length
    modifies buf
    ensures buf[..] == Splice(old(buf[..]), at, src)
  {
    forall i | 0 <= i < |src| {
      buf[at + i] := src[i];
    }
    assert buf[..] == old(buf[..])[..at] + src + old(buf[..])[at + |src|..];
  }

  // ---- The bytes that leave ----

  /**
   What stands in the signature field of a message on the wire: AES-CMAC from dialect 3.0 on and HMAC
   before, of the message with a zeroed signature; without a key, what the header carried.
   */
  lemma WireSignature(c: Crypto, m: Message)
    ensures var wire := WireBytes(c, m);
            var zeroed := Marshal(m.header.(signature := Zeros(16))) + m.payload;
            var key := Cmac.FitKey(m.signingKey);
            && wire[..48] == Marshal(m.header)[..48] && wire[64..] == m.payload
            && wire[48..64] == (if m.signingKey == [] then m.header.signature
                                else if m.dialect >= 0x0300 then Cmac.Mac(c.cipher, key, zeroed)
                                else c.hmac(key, zeroed))
  {
    hide Cmac.Mac, Cmac.FitKey, Marshal;
    var raw, h := RawBytes(m), m.header;
    MarshalSigned(h, Zeros(16));
    MarshalSigned(h, h.signature);
    assert h.(signature := h.signature) == h;
    assert ZeroSignature(raw) == Marshal(h.(signature := Zeros(16))) + m.payload;
  }

  /** A frame starts with a zero byte and the length in three bytes, big-endian. */
  lemma FrameMeans(c: Crypto, m: Message)
    requires 64 + |m.payload| < 0x100_0000
    ensures var f := Frame(c, m);
            && |f| == 68 + |m.payload| && f[0] == 0 && f[4..] == WireBytes(c, m)
            && f[1] as nat * 0x1_0000 + f[2] as nat * 0x100 + f[3] as nat == 64 + |m.payload|
  {
    hide WireBytes;
    NetBiosLength(64 + |m.payload|);
  }

  /** Which streams give an SMB2 message, and which bytes it is made of. */
  lemma ReadMessageIff(stream: seq<byte>)
    requires |stream| >= 4
    ensures var n := stream[1] as nat * 0x1_0000 + stream[2] as nat * 0x100 + stream[3] as nat;
            var r := ReadMessage(stream);
            && (r.Smb2? <==> 64 <= n <= 8388608 && |stream| >= 4 + n && stream[4..8] == [0xFE, 0x53, 0x4D, 0x42])
            && (r.Smb2? ==> r.raw == stream[4..4 + n] && r.payload == stream[68..4 + n] && r.rest == stream[4 + n..]
                            && r.header == Unmarshal(stream[4..4 + n]))
            && (r.EndOfStream? <==> 64 <= n <= 8388608 && |stream| < 4 + n)
            && (r.Smb1Negotiate? <==> 64 <= n <= 8388608 && |stream| >= 4 + n && stream[4..8] == [0xFF, 0x53, 0x4D, 0x42])
  {
    hide Unmarshal;
    var n := stream[1] as nat * 0x1_0000 + stream[2] as nat * 0x100 + stream[3] as nat;
    if 64 <= n <= 8388608 && |stream| >= 4 + n {
      var data := stream[4..4 + n];
      assert data[0..4] == stream[4..8];
      assert data[HEADER_SIZE..] == stream[68..4 + n];
      assert stream[4..8] == [stream[4]] + stream[5..8] && data[1..4] == stream[5..8] && data[0] == stream[4];
      assert PROTOCOL_ID[1..4] == [0x53, 0x4D, 0x42];
      assert [0xFF, 0x53, 0x4D, 0x42] == [0xFF] + PROTOCOL_ID[1..4];
    }
  }
}
