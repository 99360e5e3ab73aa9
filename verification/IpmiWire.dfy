/**
 * RMCP+ packets octet by octet, as chapter 13 of the IPMI v2.0 specification lays them out: what `Seal` writes where,
 * and what `Open` makes of any octets, in terms of the octets alone.
 */
module IpmiWire {
  import opened IpmiSession
  import opened Octets
  import opened Sequences
  import opened Wrappers

  /** Four octets, least significant first. */
  function Number(a: byte, b: byte, c: byte, d: byte): nat {
    a as nat + 256 * b as nat + 65536 * c as nat + 16777216 * d as nat
  }

  // ---------- What is sealed ----------

  /** The RMCP header, the session header of version 2.0, and the size of what follows. */
  predicate IsHeader(s: Sender, size: nat, raw: Data) {
    && |raw| >= 16 && raw[..4] == [0x06, 0x00, 0xFF, 0x07] && raw[4] == s.authtype
    && raw[5] == (if s.integrity then 64 else 0) + (if s.confidentiality then 128 else 0)
    && Number(raw[6], raw[7], raw[8], raw[9]) == s.sessionId
    && Number(raw[10], raw[11], raw[12], raw[13]) == s.sequence
    && raw[14] as int + 256 * raw[15] as int == size
  }

  lemma {:induction false} HeaderLayout(s: Sender, size: word, rest: Data)
    ensures IsHeader(s, size, Header(s, size) + rest)
  {
    var raw := Header(s, size) + rest;
    var id, sequence := Le32(s.sessionId), Le32(s.sequence);
    assert raw[6] == id[0] && raw[7] == id[1] && raw[8] == id[2] && raw[9] == id[3];
    assert raw[10] == sequence[0] && raw[11] == sequence[1] && raw[12] == sequence[2] && raw[13] == sequence[3];
  }

  lemma {:induction false} CountingAt(n: nat, i: nat)
    requires i < n < 16
    ensures Counting(n)[i] == i + 1
  {
    if i < n - 1 {
      CountingAt(n - 1, i);
    }
  }

  lemma {:induction false} FillerAt(n: nat, i: nat)
    requires i < n
    ensures Filler(n)[i] == 0xFF
  {
    if i < n - 1 {
      FillerAt(n - 1, i);
    }
  }

  /** The data, then 1, 2, .., n, then n, to whole blocks of 16. */
  predicate IsPadded(text: Data, data: Data) {
    && |text| > |data| && |text| % 16 == 0 && |text| - |data| <= 16 && text[..|data|] == data
    && text[|text| - 1] as int == |text| - |data| - 1
    && forall i | |data| <= i < |text| - 1 :: text[i] as int == i - |data| + 1
  }

  lemma {:induction false} PaddedLayout(data: Data)
    ensures IsPadded(Padded(data), data)
  {
    var text, n := Padded(data), PadLength(|data|);
    PaddedIsWholeBlocks(data);
    forall i | |data| <= i < |text| - 1
      ensures text[i] as int == i - |data| + 1
    {
      CountingAt(n, i - |data|);
    }
  }

  /** The octets from 16 on carry the payload: as it is, or padded and encrypted behind the vector. */
  ghost predicate Carries(c: Crypto, s: Sender, iv: Data, payload: Data, content: Data) {
    if s.confidentiality then
      && |content| >= 32 && content[..16] == iv && |content| % 16 == 0
      && IsPadded(c.dec(s.aesKey, iv, content[16..]), payload)
    else content == payload
  }

  lemma {:induction false} ContentLayout(c: Crypto, s: Sender, iv: Data, payload: Data)
    requires IsCrypto(c) && |iv| == 16
    ensures Carries(c, s, iv, payload, Content(c, s, iv, payload))
  {
    if s.confidentiality {
      DecryptsContent(c, s, iv, payload);
      PaddedLayout(payload);
    }
  }

  /** From `start` to the end: 0xFF up to three times, how often, 7, and the code over everything after octet 4. */
  ghost predicate IsTrailer(c: Crypto, k1: Data, raw: Data, start: nat) {
    var end := |raw| - 12;
    && start + 2 <= end <= start + 5 && (end - 4) % 4 == 0
    && raw[end - 1] == 7 && raw[end - 2] as int == end - 2 - start
    && (forall i | start <= i < end - 2 :: raw[i] == 0xFF)
    && 4 <= end && raw[end..] == Slice(c.mac(k1, raw[4..end]), 0, 12)
  }

  lemma {:induction false} CodeCovers(c: Crypto, k1: Data, raw: Data)
    requires |raw| >= 16
    ensures AuthCode(c, k1, raw[..|raw| - 12]) == Slice(c.mac(k1, raw[4..|raw| - 12]), 0, 12)
  {
    var full := raw[..|raw| - 12];
    assert Slice(full, 4, |full|) == raw[4..|raw| - 12];
  }

  lemma {:induction false} TrailerLayout(c: Crypto, k1: Data, message: Data, code: Data, raw: Data)
    requires |message| >= 16 && |code| == 12 && raw == message + Trailer(|message|) + code
    requires code == AuthCode(c, k1, message + Trailer(|message|))
    ensures IsTrailer(c, k1, raw, |message|)
  {
    var n, end := TrailerPad(|message|), |raw| - 12;
    assert raw[..end] == message + Trailer(|message|) && raw[end..] == code;
    CodeCovers(c, k1, raw);
    forall i | |message| <= i < end - 2
      ensures raw[i] == 0xFF
    {
      FillerAt(n, i - |message|);
    }
  }

  lemma {:induction false} CodeLength(c: Crypto, k1: Data, full: Data)
    requires IsCrypto(c)
    ensures |AuthCode(c, k1, full)| == 12
  {
  }

  lemma {:induction false} ContentAt(head: Data, content: Data, rest: Data, raw: Data)
    requires |head| == 16 && raw == head + content + rest
    ensures raw[16..16 + |content|] == content && raw == head + (content + rest)
  {
  }

  /** Where everything stands in a packet with a code. */
  lemma {:induction false} AuthenticatedLayout(c: Crypto, s: Sender, iv: Data, payload: Data, raw: Data)
    requires IsCrypto(c) && |iv| == 16 && s.integrity && Seal(c, s, iv, payload) == Some(raw)
    ensures var size := DeclaredSize(s, payload);
      && IsHeader(s, size, raw) && 16 + size <= |raw|
      && Carries(c, s, iv, payload, raw[16..16 + size]) && IsTrailer(c, s.k1, raw, 16 + size)
  {
    var size, content := DeclaredSize(s, payload), Content(c, s, iv, payload);
    var head := Header(s, size);
    var message := head + content;
    var trailer := Trailer(|message|);
    var code := AuthCode(c, s.k1, message + trailer);
    SealIsAligned(c, s, iv, payload);
    CodeLength(c, s.k1, message + trailer);
    Assoc(message, trailer, code);
    ContentAt(head, content, trailer + code, raw);
    HeaderLayout(s, size, content + (trailer + code));
    ContentLayout(c, s, iv, payload);
    TrailerLayout(c, s.k1, message, code, raw);
  }

  /** A packet without one ends with what the size counts. */
  lemma {:induction false} PlainLayout(c: Crypto, s: Sender, iv: Data, payload: Data, raw: Data)
    requires IsCrypto(c) && |iv| == 16 && !s.integrity && Seal(c, s, iv, payload) == Some(raw)
    ensures var size := DeclaredSize(s, payload);
      IsHeader(s, size, raw) && |raw| == 16 + size && Carries(c, s, iv, payload, raw[16..])
  {
    var size, content := DeclaredSize(s, payload), Content(c, s, iv, payload);
    SealIsAligned(c, s.(integrity := true), iv, payload);
    assert Content(c, s.(integrity := true), iv, payload) == content;
    HeaderLayout(s, size, content);
    ContentLayout(c, s, iv, payload);
    assert raw[16..] == content;
  }

  /** Where everything stands in a sealed packet. */
  lemma {:induction false} SealedLayout(c: Crypto, s: Sender, iv: Data, payload: Data, raw: Data)
    requires IsCrypto(c) && |iv| == 16 && Seal(c, s, iv, payload) == Some(raw)
    ensures exists size: nat ::
      && IsHeader(s, size, raw) && 16 + size <= |raw| && Carries(c, s, iv, payload, raw[16..16 + size])
      && if s.integrity then IsTrailer(c, s.k1, raw, 16 + size) else |raw| == 16 + size
  {
    if s.integrity {
      AuthenticatedLayout(c, s, iv, payload, raw);
    } else {
      PlainLayout(c, s, iv, payload, raw);
      assert raw[16..] == raw[16..16 + DeclaredSize(s, payload)];
    }
    assert IsHeader(s, DeclaredSize(s, payload), raw);
  }

  /** No packet is sealed exactly when the size does not fit its two octets. */
  lemma {:induction false} UnsealableIffTooLarge(c: Crypto, s: Sender, iv: Data, payload: Data)
    ensures Seal(c, s, iv, payload).None? <==>
            (if s.confidentiality then (|payload| / 16 + 1) * 16 + 16 else |payload|) > 65535
  {
    var q, m := |payload| / 16, |payload| % 16;
    assert |payload| == 16 * q + m && PadLength(|payload|) == 15 - m;
  }

  lemma {:induction false} SumOfThree(a: byte, b: byte, c: byte)
    ensures Sum([a, b, c]) == a as nat + b as nat + c as nat
  {
    var none: Data := [];
    assert [c][1..] == none && Sum(none) == 0;
    assert Sum([c]) == c as nat;
    assert [b, c][1..] == [c];
    assert Sum([b, c]) == b as nat + Sum([c]);
    assert [a, b, c][1..] == [b, c];
  }

  /** The message inside: addresses, function, command, with a checksum after each half. */
  lemma {:induction false} MessageLayout(
      rsAddr: byte, rqAddr: byte, seqLun: byte, netfn: nat, command: byte, data: Data)
    requires netfn < 64
    ensures var m := IpmiMessage(rsAddr, rqAddr, seqLun, netfn, command, data);
      && |m| == 7 + |data| && m[0] == rsAddr && m[1] as int == 4 * netfn && m[3] == rqAddr && m[4] == seqLun
      && m[5] == command && m[6..|m| - 1] == data
      && (m[0] as int + m[1] as int + m[2] as int) % 256 == 0 && Sum(m[3..]) % 256 == 0
  {
    var m := IpmiMessage(rsAddr, rqAddr, seqLun, netfn, command, data);
    ParseInvertsMessage(rsAddr, rqAddr, seqLun, netfn, command, data);
    assert |m| == 7 + |data| && m[3] == rqAddr && m[4] == seqLun;
    SumOfThree(m[0], m[1], m[2]);
    assert m[..3] == [m[0], m[1], m[2]];
  }

  // ---------- What is opened ----------

  /** Whatever is delivered in a session ends in the code over everything between the RMCP header and it. */
  lemma {:induction false} DeliveryCoversAllOctets(c: Crypto, r: Receiver, raw: Data)
    requires Open(c, r, raw).Delivered? && r.k1.Some?
    ensures |raw| >= 16
    ensures raw[|raw| - 12..] == Slice(c.mac(r.k1.value, raw[4..|raw| - 12]), 0, 12)
  {
    DeliveryIsAuthenticated(c, r, raw);
    CodeCovers(c, r.k1.value, raw);
  }

  /** The integrity mark of the type octet. */
  predicate Marked(octet: byte) {
    octet / 64 == 1 || octet / 64 == 3
  }

  lemma {:induction false} AuthenticOctets(c: Crypto, k1: Data, raw: Data)
    requires |raw| >= 12
    ensures Authentic(c, k1, raw) <==> raw[|raw| - 12..] == Slice(c.mac(k1, Slice(raw, 4, |raw| - 12)), 0, 12)
    ensures |raw| >= 16 ==> Slice(raw, 4, |raw| - 12) == raw[4..|raw| - 12]
  {
    var full := raw[..|raw| - 12];
    assert Slice(full, 4, |full|) == Slice(raw, 4, |raw| - 12);
  }

  /** Another code, no key, or no mark: the session is closed, whatever the packet says. */
  lemma {:induction false} WrongCodeCloses(c: Crypto, r: Receiver, raw: Data)
    requires |raw| >= 16 && raw[5] % 64 == 0 && r.k1.Some?
    requires !Marked(raw[5]) || raw[|raw| - 12..] != Slice(c.mac(r.k1.value, raw[4..|raw| - 12]), 0, 12)
    ensures Open(c, r, raw) == SessionClosed && AfterOpen(c, r, raw) == r
  {
    AuthenticOctets(c, r.k1.value, raw);
  }

  function Judged(payload: Option<Data>): Opened {
    if payload.None? || |payload.value| < 7 then Raises
    else
      var p := payload.value;
      Delivered(Response(p[1] / 4, p[5], p[6..|p| - 1]))
  }

  /**
   * A packet with the right code: what session number, sequence number and payload decide. One that ends behind the
   * sequence number has no payload; its sequence number counts all the same.
   */
  lemma {:induction false} RightCodeIsJudged(c: Crypto, r: Receiver, raw: Data)
    requires |raw| >= 14 && (raw[5] == 64 || raw[5] == 192) && r.k1.Some?
    requires raw[|raw| - 12..] == Slice(c.mac(r.k1.value, Slice(raw, 4, |raw| - 12)), 0, 12)
    ensures var sequence := Number(raw[10], raw[11], raw[12], raw[13]);
      if Number(raw[6], raw[7], raw[8], raw[9]) != r.localSid
         || (r.remoteSeq.Some? && sequence < r.remoteSeq.value < 0xFFFF_FFFF)
      then Open(c, r, raw) == SessionClosed && AfterOpen(c, r, raw) == r
      else
        && AfterOpen(c, r, raw) == r.(remoteSeq := Some(sequence))
        && Open(c, r, raw) == Judged(PlainPayload(c, r.aesKey, raw))
    ensures |raw| < 16 ==> PlainPayload(c, r.aesKey, raw) == None
  {
    AuthenticOctets(c, r.k1.value, raw);
  }

  /** One that ends within the sequence number closes a session of another number, and raises in this one. */
  lemma {:induction false} CutSequence(c: Crypto, r: Receiver, raw: Data)
    requires 12 <= |raw| < 14 && (raw[5] == 64 || raw[5] == 192) && r.k1.Some?
    requires raw[|raw| - 12..] == Slice(c.mac(r.k1.value, Slice(raw, 4, |raw| - 12)), 0, 12)
    ensures Open(c, r, raw)
         == if Number(raw[6], raw[7], raw[8], raw[9]) != r.localSid then SessionClosed else Raises
    ensures AfterOpen(c, r, raw) == r
  {
    AuthenticOctets(c, r.k1.value, raw);
  }

  /** What the size octets count, or as much of it as there is. */
  lemma {:induction false} DeclaredOctets(head: Data, payload: Data, rest: Data)
    requires |head| == 16
    requires var size := head[14] as int + 256 * head[15] as int;
      size == |payload| || (size > |payload| && rest == [])
    ensures DeclaredPayload(head + (payload + rest)) == payload
  {
    var raw := head + (payload + rest);
    assert raw[14] == head[14] && raw[15] == head[15];
    SliceMiddle(head, payload, rest);
    if rest == [] {
      assert payload + rest == payload;
      SliceRest(head, payload, 16 + raw[14] as nat + 256 * raw[15] as nat);
    }
  }

  /** The payload of a packet that is not encrypted. */
  lemma {:induction false} PlainIsDeclared(c: Crypto, key: Data, head: Data, payload: Data, rest: Data)
    requires |head| == 16 && head[5] < 128
    requires var size := head[14] as int + 256 * head[15] as int;
      size == |payload| || (size > |payload| && rest == [])
    ensures PlainPayload(c, key, head + (payload + rest)) == Some(payload)
  {
    DeclaredOctets(head, payload, rest);
    assert (head + (payload + rest))[5] == head[5];
  }

  /** The payload of an encrypted packet, what follows the vector, is decrypted and loses its padding. */
  lemma {:induction false} EncryptedIsUnpadded(c: Crypto, key: Data, head: Data, iv: Data, text: Data, rest: Data)
    requires |head| == 16 && head[5] >= 128 && |iv| == 16
    requires var size := head[14] as int + 256 * head[15] as int;
      size == 16 + |text| || (size > 16 + |text| && rest == [])
    ensures PlainPayload(c, key, head + ((iv + text) + rest))
         == if |text| % 16 != 0 then None else Unpadded(c.dec(key, iv, text))
  {
    var raw := head + ((iv + text) + rest);
    assert raw[5] == head[5] && raw[16..32] == iv;
    DeclaredOctets(head, iv + text, rest);
    SliceRest(iv, text, |raw|);
  }

  /** An encrypted packet that ends within its vector cannot be decrypted. */
  lemma {:induction false} CutVector(c: Crypto, key: Data, raw: Data)
    requires 16 <= |raw| < 32 && raw[5] >= 128
    ensures PlainPayload(c, key, raw) == None
  {
  }

  /** Padding is cut by its last octet, whatever the others are; more padding than text leaves nothing. */
  lemma {:induction false} PaddingIsCut(text: Data, padding: Data)
    requires padding != [] && padding[|padding| - 1] as int == |padding| - 1
    ensures Unpadded(text + padding) == Some(text)
    ensures forall b: byte | b as int >= |text| + 1 :: Unpadded(text + [b]) == Some([])
    ensures Unpadded([]) == None
  {
    var s := text + padding;
    assert s[|s| - 1] == padding[|padding| - 1] && s[..|text|] == text;
  }

  /** A message before any session is delivered when its octets are all there, and closes the session otherwise. */
  lemma {:induction false} PresessionIsDelivered(c: Crypto, r: Receiver, head: Data, payload: Data)
    requires |head| == 16 && head[5] == 0 && head[6..10] == [0, 0, 0, 0] && r.k1.None?
    ensures var size := head[14] as int + 256 * head[15] as int;
      && Open(c, r, head + payload) == (if |payload| < size then SessionClosed else Judged(Some(payload[..size])))
      && AfterOpen(c, r, head + payload) == r
  {
    var raw, size := head + payload, head[14] as int + 256 * head[15] as int;
    assert raw[5] == 0 && raw[6..10] == head[6..10] && raw[14] == head[14] && raw[15] == head[15];
    if |payload| >= size {
      SplitAt(payload, size);
      SliceMiddle(head, payload[..size], payload[size..]);
    }
  }

  /** Without keys anything else is refused, and other payload types are not IPMI messages. */
  lemma {:induction false} OtherPackets(c: Crypto, r: Receiver, raw: Data)
    requires |raw| >= 16
    ensures raw[5] % 64 != 0 ==> Open(c, r, raw) == Other && AfterOpen(c, r, raw) == r
    ensures raw[5] % 64 == 0 && r.k1.None? && (raw[5] != 0 || Number(raw[6], raw[7], raw[8], raw[9]) != 0) ==>
      Open(c, r, raw) == SessionClosed
  {
  }

  /** Packets that end within the session header deliver nothing. */
  lemma {:induction false} ShortPackets(c: Crypto, r: Receiver, raw: Data)
    requires |raw| < 16
    ensures !Open(c, r, raw).Delivered?
    ensures |raw| < 6 ==> Open(c, r, raw) == Raises
    ensures |raw| >= 6 && raw[5] % 64 != 0 ==> Open(c, r, raw) == Other
    ensures |raw| >= 10 && raw[5] % 64 == 0 && r.k1.Some? && !Marked(raw[5]) ==> Open(c, r, raw) == SessionClosed
  {
  }
}
