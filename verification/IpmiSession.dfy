/**
 * RMCP+ packets of an IPMI session (conpot/protocols/ipmi/fakesession.py, `_checksum` of ipmi_server.py):
 * sealing a payload as in chapter 13 of the IPMI v2.0 specification and opening it at the other end.
 * AES-CBC and HMAC-SHA1 are functions with the two properties the code relies on.
 */
module IpmiSession {
  import opened Octets
  import opened Sequences
  import opened Wrappers

  type Data = seq<byte>

  /** `enc`/`dec` take key, initialization vector and text; `mac` takes key and text. */
  datatype Crypto = Crypto(enc: (Data, Data, Data) -> Data, dec: (Data, Data, Data) -> Data, mac: (Data, Data) -> Data)

  /** Decryption inverts encryption of whole blocks, which keeps the length; a digest has 20 octets. */
  ghost predicate IsCrypto(c: Crypto) {
    && (forall k, iv, p | |p| % 16 == 0 :: |c.enc(k, iv, p)| == |p| && c.dec(k, iv, c.enc(k, iv, p)) == p)
    && (forall k, p :: |c.mac(k, p)| == 20)
  }

  type Word32 = n: int | 0 <= n < 0x1_0000_0000

  function Le32(n: Word32): (s: Data)
    ensures |s| == 4 && s[0] + 256 * s[1] as int + 65536 * s[2] as int + 16777216 * s[3] as int == n
  {
    [n % 256, n / 256 % 256, n / 65536 % 256, n / 16777216]
  }

  function ReadLe32(s: Data): Word32
    requires |s| == 4
  {
    s[0] + 256 * s[1] as int + 65536 * s[2] as int + 16777216 * s[3] as int
  }

  lemma {:induction false} Le32RoundTrip(n: Word32)
    ensures ReadLe32(Le32(n)) == n
  {
  }

  // ---------- The IPMI message ----------

  function Sum(s: Data): nat {
    if s == [] then 0 else s[0] + Sum(s[1..])
  }

  /** `n ^ 0xFF`: the low eight bits flipped. */
  function XorFF(n: nat): nat {
    n - n % 256 + (255 - n % 256)
  }

  /** `_checksum`. */
  function Checksum(s: Data): byte {
    (XorFF(Sum(s)) + 1) % 256
  }

  lemma {:induction false} SumConcat(a: Data, b: Data)
    ensures Sum(a + b) == Sum(a) + Sum(b)
  {
    if a == [] {
      assert a + b == b;
    } else {
      assert (a + b)[1..] == a[1..] + b;
      SumConcat(a[1..], b);
    }
  }

  lemma {:induction false} ComplementCancels(n: nat)
    ensures (n + (XorFF(n) + 1) % 256) % 256 == 0
  {
    var q, r := n / 256, n % 256;
    assert n == 256 * q + r && XorFF(n) + 1 == 256 * q + (256 - r);
    if r == 0 {
      DivModUnique(XorFF(n) + 1, 256, q + 1, 0);
    } else {
      DivModUnique(XorFF(n) + 1, 256, q, 256 - r);
      DivModUnique(n + (256 - r), 256, q + 1, 0);
    }
  }

  /** Data and checksum add up to zero modulo 256. */
  lemma {:induction false} ChecksumCancels(s: Data)
    ensures Sum(s + [Checksum(s)]) % 256 == 0
  {
    SumConcat(s, [Checksum(s)]);
    assert Sum([Checksum(s)][1..]) == 0;
    ComplementCancels(Sum(s));
  }

  method ComputeChecksum(data: Data) returns (csum: byte)
    ensures csum == Checksum(data)
  {
    var total, rest := 0, data;
    while rest != []
      invariant total + Sum(rest) == Sum(data) && total >= 0
      decreases |rest|
    {
      total, rest := total + rest[0], rest[1..];
    }
    total := XorFF(total);
    csum := (total + 1) % 256;
  }

  /** `_make_ipmi_payload`: addresses, network function and command with a checksum after each half. */
  function IpmiMessage(rsAddr: byte, rqAddr: byte, seqLun: byte, netfn: nat, command: byte, data: Data): Data
    requires netfn < 64
  {
    var header, body := [rsAddr, netfn * 4], [rqAddr, seqLun, command] + data;
    header + [Checksum(header)] + (body + [Checksum(body)])
  }

  datatype Response = Response(netfn: nat, command: byte, data: Data)

  /** `_parse_payload`; `None` where the source indexes past the end. The checksums are not looked at. */
  function ParsePayload(payload: Data): Option<Response> {
    if |payload| < 7 then None
    else Some(Response(payload[1] / 4, payload[5], payload[6..|payload| - 1]))
  }

  lemma {:induction false} ParseInvertsMessage(
      rsAddr: byte, rqAddr: byte, seqLun: byte, netfn: nat, command: byte, data: Data)
    requires netfn < 64
    ensures var m := IpmiMessage(rsAddr, rqAddr, seqLun, netfn, command, data);
            && ParsePayload(m) == Some(Response(netfn, command, data))
            && Sum(m[..3]) % 256 == 0 && Sum(m[3..]) % 256 == 0
  {
    var header, body := [rsAddr, netfn * 4], [rqAddr, seqLun, command] + data;
    var m := IpmiMessage(rsAddr, rqAddr, seqLun, netfn, command, data);
    assert m[..3] == header + [Checksum(header)] && m[3..] == body + [Checksum(body)];
    ChecksumCancels(header);
    ChecksumCancels(body);
    assert m[6..|m| - 1] == data;
  }

  /** Neither checksum is looked at: any other octets in their places give the same response. */
  lemma {:induction false} ChecksumsAreIgnored(payload: Data, headsum: byte, bodysum: byte)
    requires |payload| >= 7
    ensures ParsePayload(payload[2 := headsum][|payload| - 1 := bodysum]) == ParsePayload(payload)
  {
    var changed := payload[2 := headsum][|payload| - 1 := bodysum];
    assert changed[6..|payload| - 1] == payload[6..|payload| - 1];
  }

  lemma {:induction false} OtherChecksumDoesNotCancel(s: Data, x: byte)
    requires x != Checksum(s)
    ensures Sum(s + [x]) % 256 != 0
  {
    ChecksumCancels(s);
    SumConcat(s, [x]);
    SumConcat(s, [Checksum(s)]);
    assert Sum([x][1..]) == 0 && Sum([Checksum(s)][1..]) == 0;
  }

  /** A message with two wrong checksums, whichever they are: both halves fail, and it is delivered all the same. */
  lemma {:induction false} WrongChecksumsAreDelivered(
      rsAddr: byte, rqAddr: byte, seqLun: byte, netfn: nat, command: byte, data: Data, headsum: byte, bodysum: byte)
    requires netfn < 64 && headsum != Checksum([rsAddr, netfn * 4])
    requires bodysum != Checksum([rqAddr, seqLun, command] + data)
    ensures var m := IpmiMessage(rsAddr, rqAddr, seqLun, netfn, command, data);
      var wrong := m[2 := headsum][|m| - 1 := bodysum];
      && Sum(wrong[..3]) % 256 != 0 && Sum(wrong[3..]) % 256 != 0
      && ParsePayload(wrong) == Some(Response(netfn, command, data))
  {
    var header, body: Data := [rsAddr, netfn * 4], [rqAddr, seqLun, command] + data;
    var m := IpmiMessage(rsAddr, rqAddr, seqLun, netfn, command, data);
    var wrong := m[2 := headsum][|m| - 1 := bodysum];
    ParseInvertsMessage(rsAddr, rqAddr, seqLun, netfn, command, data);
    ChecksumsAreIgnored(m, headsum, bodysum);
    assert wrong[..3] == header + [headsum] && wrong[3..] == body + [bodysum];
    OtherChecksumDoesNotCancel(header, headsum);
    OtherChecksumDoesNotCancel(body, bodysum);
  }

  // ---------- AES padding ----------

  function PadLength(n: nat): (p: nat)
    ensures p < 16 && (n + 1 + p) % 16 == 0
  {
    (16 - (n + 1) % 16) % 16
  }

  function Counting(n: nat): (s: Data)
    requires n < 16
    ensures |s| == n
  {
    if n == 0 then [] else Counting(n - 1) + [n]
  }

  /** The confidentiality trailer: 1, 2, .., n and then n. */
  function Padded(data: Data): (s: Data)
    ensures |s| == |data| + PadLength(|data|) + 1
  {
    data + Counting(PadLength(|data|)) + [PadLength(|data|)]
  }

  lemma {:induction false} PaddedIsWholeBlocks(data: Data)
    ensures |Padded(data)| % 16 == 0
  {
  }

  /** `_aespad`. */
  method AesPad(data: Data) returns (newdata: Data)
    ensures newdata == Padded(data)
  {
    var currlen := |data| + 1;
    var neededpad := currlen % 16;
    if neededpad != 0 {
      neededpad := 16 - neededpad;
    }
    assert neededpad == PadLength(|data|);
    newdata := data;
    var padval := 1;
    while padval <= neededpad
      invariant 1 <= padval <= neededpad + 1 <= 16
      invariant newdata == data + Counting(padval - 1)
    {
      assert Counting(padval) == Counting(padval - 1) + [padval];
      Assoc(data, Counting(padval - 1), [padval]);
      newdata := newdata + [padval];
      padval := padval + 1;
    }
    newdata := newdata + [neededpad];
  }

  /** `payload[:-(payload[-1] + 1)]`; `None` on an empty text. */
  function Unpadded(text: Data): Option<Data> {
    if text == [] then None
    else
      var padsize := text[|text| - 1] as int + 1;
      Some(if padsize > |text| then [] else text[..|text| - padsize])
  }

  lemma {:induction false} UnpadInverts(data: Data)
    ensures Unpadded(Padded(data)) == Some(data)
  {
    var s := Padded(data);
    assert s[..|data|] == data;
  }

  // ---------- Sealing ----------

  /** The session fields that `send_payload` reads, for IPMI version 2.0. */
  datatype Sender = Sender(
    authtype: byte, integrity: bool, confidentiality: bool,
    sessionId: Word32, sequence: Word32, k1: Data, aesKey: Data)

  const RMCP_HEADER: Data := [0x06, 0x00, 0xFF, 0x07]

  /** The type of an IPMI message is 0; the two top bits mark integrity and encryption. */
  function TypeOctet(s: Sender): byte {
    (if s.integrity then 0x40 else 0) + (if s.confidentiality then 0x80 else 0)
  }

  predicate MarksIntegrity(octet: byte) { octet / 64 % 2 == 1 }

  predicate MarksEncryption(octet: byte) { octet / 128 == 1 }

  /** The size the header declares: `psize`, or `psize + pad + 17` with encryption. */
  function DeclaredSize(s: Sender, payload: Data): nat {
    if s.confidentiality then |payload| + PadLength(|payload|) + 17 else |payload|
  }

  function Header(s: Sender, size: word): (h: Data)
    ensures |h| == 16
  {
    RMCP_HEADER + [s.authtype, TypeOctet(s)] + Le32(s.sessionId) + Le32(s.sequence) + [size % 256, size / 256]
  }

  /** What the header's size covers: the payload, or the vector and the encrypted padded payload. */
  function Content(c: Crypto, s: Sender, iv: Data, payload: Data): Data {
    if s.confidentiality then iv + c.enc(s.aesKey, iv, Padded(payload)) else payload
  }

  function Filler(n: nat): (s: Data)
    ensures |s| == n
  {
    if n == 0 then [] else Filler(n - 1) + [0xFF]
  }

  function TrailerPad(n: nat): (pad: nat)
    requires n >= 2
    ensures pad < 4 && (n - 4 + pad + 2) % 4 == 0
  {
    (4 - (n - 2) % 4) % 4
  }

  /** The integrity trailer of a message of `n` octets: pad, pad length, next header. */
  function Trailer(n: nat): (t: Data)
    requires n >= 2
    ensures |t| == TrailerPad(n) + 2
  {
    Filler(TrailerPad(n)) + [TrailerPad(n), 7]
  }

  /** The first 12 octets of the digest of everything after the RMCP header. */
  function AuthCode(c: Crypto, k1: Data, full: Data): Data {
    Slice(c.mac(k1, Slice(full, 4, |full|)), 0, 12)
  }

  /** `send_payload`; `None` where `struct.pack` refuses a size of more than two octets. */
  function Seal(c: Crypto, s: Sender, iv: Data, payload: Data): Option<Data> {
    if DeclaredSize(s, payload) > 0xFFFF then None
    else
      var message := Header(s, DeclaredSize(s, payload)) + Content(c, s, iv, payload);
      if !s.integrity then Some(message)
      else
        var full := message + Trailer(|message|);
        Some(full + AuthCode(c, s.k1, full))
  }

  /** The declared size is the size of vector and ciphertext; what the authentication code covers is aligned to 4. */
  lemma {:induction false} SealIsAligned(c: Crypto, s: Sender, iv: Data, payload: Data)
    requires IsCrypto(c) && |iv| == 16 && s.integrity && DeclaredSize(s, payload) <= 0xFFFF
    ensures DeclaredSize(s, payload) == |Content(c, s, iv, payload)|
    ensures s.confidentiality ==> |Padded(payload)| % 16 == 0
    ensures var covered := 16 + DeclaredSize(s, payload) + TrailerPad(16 + DeclaredSize(s, payload)) + 2 - 4;
      covered % 4 == 0 && |Seal(c, s, iv, payload).value| == 4 + covered + 12
  {
    PaddedIsWholeBlocks(payload);
    assert IsCrypto(c);
  }

  // ---------- Opening ----------

  /** The session fields that `_ipmi20` reads. */
  datatype Receiver = Receiver(k1: Option<Data>, aesKey: Data, localSid: Word32, remoteSeq: Option<Word32>)

  /** `Raises` is an exception of the source; `Other` a payload type that is not an IPMI message. */
  datatype Opened = Delivered(response: Response) | SessionClosed | Raises | Other

  function Deliver(payload: Data): Opened {
    var r := ParsePayload(payload);
    if r.None? then Raises else Delivered(r.value)
  }

  function DeclaredPayload(raw: Data): Data
    requires |raw| >= 16
  {
    Slice(raw, 16, 16 + raw[14] as nat + 256 * raw[15] as nat)
  }

  /** The payload of a packet whose session, integrity and sequence have been accepted. */
  function PlainPayload(c: Crypto, aesKey: Data, raw: Data): Option<Data> {
    if |raw| < 16 then None
    else if !MarksEncryption(raw[5]) then Some(DeclaredPayload(raw))
    else
      var text := Slice(DeclaredPayload(raw), 16, |raw|);
      if |raw| < 32 || |text| % 16 != 0 then None else Unpadded(c.dec(aesKey, raw[16..32], text))
  }

  predicate Authentic(c: Crypto, k1: Data, raw: Data) {
    |raw| >= 12 && raw[|raw| - 12..] == AuthCode(c, k1, raw[..|raw| - 12])
  }

  predicate Acceptable(r: Receiver, sequence: Word32) {
    r.remoteSeq.None? || r.remoteSeq.value <= sequence || r.remoteSeq.value == 0xFFFF_FFFF
  }

  /** A message before any session: neither bit is set, no session number and no key yet. */
  predicate Presession(r: Receiver, raw: Data)
    requires |raw| >= 10
  {
    raw[5] == 0 && ReadLe32(raw[6..10]) == 0 && r.k1.None?
  }

  /** A message that passed the integrity check. */
  function OpenAuthentic(c: Crypto, r: Receiver, raw: Data): Opened
    requires |raw| >= 12
  {
    if ReadLe32(raw[6..10]) != r.localSid then SessionClosed
    else if |raw| < 14 then Raises
    else if !Acceptable(r, ReadLe32(raw[10..14])) then SessionClosed
    else
      var payload := PlainPayload(c, r.aesKey, raw);
      if payload.None? then Raises else Deliver(payload.value)
  }

  /** `_ipmi20`. */
  function Open(c: Crypto, r: Receiver, raw: Data): Opened {
    if |raw| < 6 then Raises
    else if raw[5] % 64 != 0 then Other
    else if raw[5] == 0 && |raw| < 10 then Raises
    else if raw[5] == 0 && Presession(r, raw) then
      if |raw| < 16 then Raises
      else if |raw| - 16 < raw[14] as int + 256 * raw[15] as int then SessionClosed
      else Deliver(DeclaredPayload(raw))
    else if !MarksIntegrity(raw[5]) || r.k1.None? || !Authentic(c, r.k1.value, raw) then SessionClosed
    else OpenAuthentic(c, r, raw)
  }

  /** The packets that reach the session: their sequence number is recorded before the payload is looked at. */
  predicate Admitted(c: Crypto, r: Receiver, raw: Data) {
    && |raw| >= 14 && raw[5] % 64 == 0 && MarksIntegrity(raw[5])
    && r.k1.Some? && Authentic(c, r.k1.value, raw)
    && ReadLe32(raw[6..10]) == r.localSid && Acceptable(r, ReadLe32(raw[10..14]))
  }

  function AfterOpen(c: Crypto, r: Receiver, raw: Data): Receiver {
    if Admitted(c, r, raw) then r.(remoteSeq := Some(ReadLe32(raw[10..14]))) else r
  }

  /** The payload that `_ipmi20` hands to `_ipmi15`. */
  function HandedOn(c: Crypto, r: Receiver, raw: Data): Option<Data> {
    if Admitted(c, r, raw) then PlainPayload(c, r.aesKey, raw)
    else if |raw| >= 16 && raw[5] == 0 && Presession(r, raw)
      && |raw| - 16 >= raw[14] as int + 256 * raw[15] as int then Some(DeclaredPayload(raw))
    else None
  }

  lemma {:induction false} OpenDelivers(c: Crypto, r: Receiver, raw: Data)
    ensures HandedOn(c, r, raw).Some? ==> Open(c, r, raw) == Deliver(HandedOn(c, r, raw).value)
    ensures HandedOn(c, r, raw).None? ==> !Open(c, r, raw).Delivered?
  {
  }

  // ---------- Opening what was sealed ----------

  lemma {:induction false} HeaderReads(s: Sender, size: word, rest: Data)
    ensures var raw := Header(s, size) + rest;
            && |raw| >= 16 && raw[5] == TypeOctet(s) && raw[14] + 256 * raw[15] as int == size
            && ReadLe32(raw[6..10]) == s.sessionId && ReadLe32(raw[10..14]) == s.sequence
  {
    var raw := Header(s, size) + rest;
    Le32RoundTrip(s.sessionId);
    Le32RoundTrip(s.sequence);
    assert raw[..16] == Header(s, size);
    assert raw[6..10] == Le32(s.sessionId) && raw[10..14] == Le32(s.sequence);
  }

  lemma {:induction false} SealedIsAuthentic(c: Crypto, k1: Data, full: Data)
    requires IsCrypto(c)
    ensures Authentic(c, k1, full + AuthCode(c, k1, full))
  {
    assert IsCrypto(c);
    var raw := full + AuthCode(c, k1, full);
    assert raw[..|raw| - 12] == full;
  }

  lemma {:induction false} DeclaredPayloadIsContent(s: Sender, content: Data, rest: Data)
    requires |content| <= 0xFFFF
    ensures var raw := Header(s, |content|) + (content + rest);
            DeclaredPayload(raw) == content && (|content| >= 16 ==> raw[16..32] == content[..16])
  {
    HeaderReads(s, |content|, content + rest);
  }

  lemma {:induction false} DecryptsContent(c: Crypto, s: Sender, iv: Data, payload: Data)
    requires IsCrypto(c) && |iv| == 16 && s.confidentiality
    ensures var content := Content(c, s, iv, payload);
            && |content| >= 32 && |content| % 16 == 0 && content[..16] == iv
            && c.dec(s.aesKey, iv, content[16..]) == Padded(payload)
  {
    PaddedIsWholeBlocks(payload);
    assert IsCrypto(c);
    assert Content(c, s, iv, payload)[16..] == c.enc(s.aesKey, iv, Padded(payload));
  }

  lemma {:induction false} PlainPayloadOfSealed(c: Crypto, s: Sender, iv: Data, payload: Data, rest: Data)
    requires IsCrypto(c) && |iv| == 16 && |Content(c, s, iv, payload)| <= 0xFFFF
    ensures var content := Content(c, s, iv, payload);
            PlainPayload(c, s.aesKey, Header(s, |content|) + (content + rest)) == Some(payload)
  {
    var content := Content(c, s, iv, payload);
    var raw := Header(s, |content|) + (content + rest);
    HeaderReads(s, |content|, content + rest);
    DeclaredPayloadIsContent(s, content, rest);
    if s.confidentiality {
      DecryptsContent(c, s, iv, payload);
      UnpadInverts(payload);
      assert Slice(content, 16, |raw|) == content[16..];
    }
  }

  /** The parts of a sealed packet: header, content, and what the integrity check appends. */
  lemma {:induction false} SealedParts(c: Crypto, s: Sender, iv: Data, payload: Data) returns (rest: Data)
    requires IsCrypto(c) && |iv| == 16 && s.integrity && DeclaredSize(s, payload) <= 0xFFFF
    ensures |Content(c, s, iv, payload)| == DeclaredSize(s, payload)
    ensures Seal(c, s, iv, payload)
         == Some(Header(s, DeclaredSize(s, payload)) + (Content(c, s, iv, payload) + rest))
    ensures Authentic(c, s.k1, Seal(c, s, iv, payload).value)
  {
    SealIsAligned(c, s, iv, payload);
    var h, content := Header(s, DeclaredSize(s, payload)), Content(c, s, iv, payload);
    var trailer := Trailer(|h + content|);
    var full := h + content + trailer;
    var code := AuthCode(c, s.k1, full);
    rest := trailer + code;
    SealedIsAuthentic(c, s.k1, full);
    Assoc(h + content, trailer, code);
    Assoc(h, content, rest);
  }

  /** `_ipmi20` on a packet of which only the fields it reads are known. */
  lemma {:induction false} OpenReads(c: Crypto, s: Sender, r: Receiver, raw: Data, payload: Data)
    requires |raw| >= 16 && raw[5] == TypeOctet(s) && s.integrity && r.k1.Some? && Authentic(c, r.k1.value, raw)
    requires ReadLe32(raw[6..10]) == s.sessionId && ReadLe32(raw[10..14]) == s.sequence
    requires PlainPayload(c, r.aesKey, raw) == Some(payload)
    ensures Open(c, r, raw)
         == if s.sessionId == r.localSid && Acceptable(r, s.sequence) then Deliver(payload) else SessionClosed
  {
  }

  /**
   * Whoever holds the keys opens a sealed payload to exactly that payload, if and only if the packet names the
   * receiver's session and its sequence number is acceptable; otherwise the session is closed.
   */
  lemma {:induction false} OpenInvertsSeal(c: Crypto, s: Sender, r: Receiver, iv: Data, payload: Data)
    requires IsCrypto(c) && |iv| == 16 && s.integrity && DeclaredSize(s, payload) <= 0xFFFF
    requires r.k1 == Some(s.k1) && r.aesKey == s.aesKey
    ensures Open(c, r, Seal(c, s, iv, payload).value)
         == if s.sessionId == r.localSid && Acceptable(r, s.sequence) then Deliver(payload) else SessionClosed
  {
    var rest := SealedParts(c, s, iv, payload);
    HeaderReads(s, DeclaredSize(s, payload), Content(c, s, iv, payload) + rest);
    PlainPayloadOfSealed(c, s, iv, payload, rest);
    OpenReads(c, s, r, Seal(c, s, iv, payload).value, payload);
  }

  lemma {:induction false} UnmarkedIsClosed(c: Crypto, s: Sender, r: Receiver, raw: Data)
    requires |raw| >= 16 && raw[5] == TypeOctet(s) && !s.integrity && r.k1.Some?
    ensures Open(c, r, raw) == SessionClosed
  {
  }

  /** Without integrity nothing gets through once keys exist. */
  lemma {:induction false} UnauthenticatedIsClosed(c: Crypto, s: Sender, r: Receiver, iv: Data, payload: Data)
    requires IsCrypto(c) && |iv| == 16 && !s.integrity && DeclaredSize(s, payload) <= 0xFFFF && r.k1.Some?
    ensures Open(c, r, Seal(c, s, iv, payload).value) == SessionClosed
  {
    HeaderReads(s, DeclaredSize(s, payload), Content(c, s, iv, payload));
    UnmarkedIsClosed(c, s, r, Seal(c, s, iv, payload).value);
  }

  /** Any packet that is delivered was either sent before the session or carries code, session and sequence. */
  lemma {:induction false} DeliveryIsAuthenticated(c: Crypto, r: Receiver, raw: Data)
    requires Open(c, r, raw).Delivered? && r.k1.Some?
    ensures |raw| >= 16 && MarksIntegrity(raw[5]) && Authentic(c, r.k1.value, raw)
    ensures ReadLe32(raw[6..10]) == r.localSid && Acceptable(r, ReadLe32(raw[10..14]))
  {
  }

  /** An IPMI message survives sealing and opening with its function, command and data. */
  lemma {:induction false} MessageRoundTrip(
      c: Crypto, s: Sender, r: Receiver, iv: Data, rsAddr: byte, rqAddr: byte, seqLun: byte, netfn: nat, command: byte,
      data: Data)
    requires IsCrypto(c) && |iv| == 16 && s.integrity && netfn < 64
    requires DeclaredSize(s, IpmiMessage(rsAddr, rqAddr, seqLun, netfn, command, data)) <= 0xFFFF
    requires r.k1 == Some(s.k1) && r.aesKey == s.aesKey && s.sessionId == r.localSid && Acceptable(r, s.sequence)
    ensures Open(c, r, Seal(c, s, iv, IpmiMessage(rsAddr, rqAddr, seqLun, netfn, command, data)).value)
         == Delivered(Response(netfn, command, data))
  {
    ParseInvertsMessage(rsAddr, rqAddr, seqLun, netfn, command, data);
    OpenInvertsSeal(c, s, r, iv, IpmiMessage(rsAddr, rqAddr, seqLun, netfn, command, data));
  }
}
