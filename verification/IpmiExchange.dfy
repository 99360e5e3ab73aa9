/**
 * The session object of conpot/protocols/ipmi/fakesession.py: packets are built by appending to `message`, and the
 * peer's addresses and sequence number are noted while a packet is opened.
 */
module IpmiExchange {
  import opened IpmiSession
  import opened IpmiWire
  import opened Octets
  import opened Sequences
  import opened Wrappers

  /** `Refused` is an exception of the source. */
  datatype Sending = Transmitted | Deferred | Refused

  /** `sequencenumber` after a transmission. */
  function NextSender(s: Sender): Sender
    requires s.sequence < 0xFFFF_FFFF
  {
    if s.sequence == 0 then s else s.(sequence := s.sequence + 1)
  }

  class FakeSession {
    var authtype: byte
    var integrityalgo: bool
    var confalgo: bool
    var sessionid: Word32
    var sequencenumber: nat
    var k1: Option<Data>
    var aeskey: Data
    var localsid: Word32
    var remseqnumber: Option<Word32>
    var rqaddr: byte
    var seqlun: byte
    var clientaddr: byte
    var clientnetfn: nat
    var clientcommand: byte
    /** `[]` stands for None. */
    var lastpayload: Data
    var pendingpayloads: seq<Data>
    var stage: nat
    /** The packets given to the socket. */
    var sent: seq<Data>

    function AsReceiver(): Receiver
      reads this
    {
      Receiver(k1, aeskey, localsid, remseqnumber)
    }

    function AsSender(): Sender
      requires sequencenumber <= 0xFFFF_FFFF
      reads this
    {
      Sender(authtype, integrityalgo, confalgo, sessionid, sequencenumber, k1.GetOr([]), aeskey)
    }

    /** What `send_payload` would hand to the socket now; `None` where it raises. */
    function Packet(c: Crypto, iv: Data, payload: Data): (packet: Option<Data>)
      reads this
      ensures packet.Some? <==>
        && payload != [] && sequencenumber <= 0xFFFF_FFFF && (integrityalgo ==> k1.Some?)
        && (if confalgo then (|payload| / 16 + 1) * 16 + 16 else |payload|) <= 65535
    {
      if payload == [] || sequencenumber > 0xFFFF_FFFF || (integrityalgo && k1.None?) then None
      else
        UnsealableIffTooLarge(c, AsSender(), iv, payload);
        Seal(c, AsSender(), iv, payload)
    }

    /** `_make_ipmi_payload` without a bridge request. */
    method MakeIpmiPayload(netfn: nat, command: byte, data: Data) returns (payload: Data)
      requires netfn < 64
      ensures payload == IpmiMessage(clientaddr, rqaddr, seqlun, netfn, command, data)
    {
      var fn: byte := netfn * 4;
      var header: Data := [clientaddr, fn];
      var reqbody: Data := [rqaddr, seqlun, command] + data;
      var headsum := ComputeChecksum(header);
      var bodysum := ComputeChecksum(reqbody);
      payload := header + [headsum] + reqbody + [bodysum];
      Assoc(header + [headsum], reqbody, [bodysum]);
    }

    /** The 16 octets before the payload. */
    method Begin(size: word) returns (message: Data)
      requires sequencenumber <= 0xFFFF_FFFF
      ensures message == Header(AsSender(), size)
    {
      message := RMCP_HEADER;
      message := message + [authtype];
      var payloadType: byte := 0;
      if integrityalgo {
        payloadType := payloadType + 0x40;
      }
      if confalgo {
        payloadType := payloadType + 0x80;
      }
      message := message + [payloadType];
      message := message + Le32(sessionid);
      message := message + Le32(sequencenumber);
      var low: byte, high: byte := size % 256, size / 256;
      message := message + [low, high];
    }

    /** The part of `send_payload` that builds the packet. */
    method BuildPacket(c: Crypto, iv: Data, payload: Data) returns (packet: Option<Data>)
      ensures packet == Packet(c, iv, payload)
    {
      if payload == [] || sequencenumber > 0xFFFF_FFFF || (integrityalgo && k1.None?) {
        return None;
      }
      var psize := |payload|;
      ghost var size := DeclaredSize(AsSender(), payload);
      var message: Data;
      if confalgo {
        var pad := (psize + 1) % 16;
        if pad != 0 {
          pad := 16 - pad;
        }
        var newpsize := psize + pad + 17;
        assert newpsize == size;
        if newpsize > 0xFFFF {
          return None;
        }
        message := Begin(newpsize);
        message := message + iv;
        var payloadtocrypt := AesPad(payload);
        var crypted := c.enc(aeskey, iv, payloadtocrypt);
        Assoc(message[..16], iv, crypted);
        message := message + crypted;
      } else {
        if psize > 0xFFFF {
          return None;
        }
        message := Begin(psize);
        message := message + payload;
      }
      assert message == Header(AsSender(), size) + Content(c, AsSender(), iv, payload);
      if integrityalgo {
        message := Authenticate(c, k1.value, message);
      }
      packet := Some(message);
    }

    /** The integrity trailer and the authentication code. */
    static method Authenticate(c: Crypto, key: Data, start: Data) returns (message: Data)
      requires |start| >= 2
      ensures var full := start + Trailer(|start|); message == full + AuthCode(c, key, full)
      ensures IsCrypto(c) && |start| >= 16 ==> IsTrailer(c, key, message, |start|)
    {
      message := start;
      var neededpad := (|message| - 2) % 4;
      if neededpad != 0 {
        neededpad := 4 - neededpad;
      }
      assert neededpad == TrailerPad(|start|);
      message := message + Filler(neededpad);
      message := message + [neededpad];
      message := message + [7];
      assert message == start + Trailer(|start|);
      var authcode := c.mac(key, Slice(message, 4, |message|));
      message := message + Slice(authcode, 0, 12);
      if |start| >= 16 && |Slice(authcode, 0, 12)| == 12 {
        TrailerLayout(c, key, start, Slice(authcode, 0, 12), message);
      }
    }

    /** `send_payload` and `_xmit_packet` for an IPMI message without a transmission delay. */
    method SendPayload(c: Crypto, iv: Data, payload: Data, retry: bool) returns (sending: Sending)
      modifies `pendingpayloads, `lastpayload, `sequencenumber, `stage, `sent
      ensures sending == Deferred <==> payload != [] && old(lastpayload) != []
      ensures sending == Deferred ==>
        && pendingpayloads == old(pendingpayloads) + [payload] && lastpayload == old(lastpayload)
      ensures sending != Deferred ==>
        && pendingpayloads == old(pendingpayloads)
        && var chosen := if payload == [] then old(lastpayload) else payload;
           && lastpayload == (if retry then chosen else old(lastpayload))
           && var packet := old(Packet(c, iv, if payload == [] then lastpayload else payload));
              && (sending == Transmitted <==> packet.Some?)
              && (packet.Some? ==> sent == old(sent) + [packet.value])
      ensures sending != Transmitted ==>
        sent == old(sent) && stage == old(stage) && sequencenumber == old(sequencenumber)
      ensures sending == Transmitted ==>
        && stage == old(stage) + 1
        && sequencenumber == (if old(sequencenumber) == 0 then 0 else old(sequencenumber) + 1)
      ensures sending == Transmitted && old(sequencenumber) < 0xFFFF_FFFF ==>
        AsSender() == NextSender(old(AsSender()))
    {
      if payload != [] && lastpayload != [] {
        pendingpayloads := pendingpayloads + [payload];
        return Deferred;
      }
      var chosen := if payload == [] then lastpayload else payload;
      if retry {
        lastpayload := chosen;
      }
      var packet := BuildPacket(c, iv, chosen);
      if packet.None? {
        return Refused;
      }
      stage := stage + 1;
      if sequencenumber != 0 {
        sequencenumber := sequencenumber + 1;
      }
      sent := sent + [packet.value];
      sending := Transmitted;
    }

    /** `_ipmi15` and `_parse_payload`. */
    method Ipmi15(payload: Data) returns (outcome: Opened)
      modifies `seqlun, `clientaddr, `clientnetfn, `clientcommand, `lastpayload
      ensures outcome == Deliver(payload)
      ensures |payload| >= 6 ==>
        && seqlun == payload[4] && clientaddr == payload[3]
        && clientnetfn == payload[1] / 4 + 1 && clientcommand == payload[5] && lastpayload == []
      ensures |payload| == 5 ==>
        seqlun == payload[4] && clientaddr == payload[3] && clientnetfn == payload[1] / 4 + 1
      ensures |payload| < 5 ==>
        seqlun == old(seqlun) && clientaddr == old(clientaddr) && clientnetfn == old(clientnetfn)
      ensures |payload| < 6 ==> clientcommand == old(clientcommand) && lastpayload == old(lastpayload)
    {
      if |payload| < 5 {
        return Raises;
      }
      seqlun := payload[4];
      clientaddr := payload[3];
      clientnetfn := payload[1] as nat / 4 + 1;
      if |payload| < 6 {
        return Raises;
      }
      clientcommand := payload[5];
      lastpayload := [];
      var netfn := payload[1] as nat / 4;
      var rest := payload[5..];
      rest := rest[..|rest| - 1];
      if rest == [] {
        return Raises;
      }
      outcome := Delivered(Response(netfn, rest[0], rest[1..]));
      assert rest[1..] == payload[6..|payload| - 1];
    }

    /** `_ipmi20` for IPMI messages. */
    method Ipmi20(c: Crypto, raw: Data) returns (outcome: Opened)
      modifies `remseqnumber, `seqlun, `clientaddr, `clientnetfn, `clientcommand, `lastpayload
      ensures outcome == Open(c, old(AsReceiver()), raw)
      ensures AsReceiver() == AfterOpen(c, old(AsReceiver()), raw)
      ensures var payload := HandedOn(c, old(AsReceiver()), raw);
              payload.Some? && |payload.value| >= 6 ==>
                seqlun == payload.value[4] && clientaddr == payload.value[3] &&
                clientnetfn == payload.value[1] / 4 + 1 && clientcommand == payload.value[5] && lastpayload == []
      ensures var payload := HandedOn(c, old(AsReceiver()), raw);
              payload.Some? && |payload.value| < 6 ==>
                clientcommand == old(clientcommand) && lastpayload == old(lastpayload)
      ensures outcome.Delivered? ==>
        clientnetfn == outcome.response.netfn + 1 && clientcommand == outcome.response.command
      ensures HandedOn(c, old(AsReceiver()), raw).None? ==>
        && seqlun == old(seqlun) && clientaddr == old(clientaddr) && clientnetfn == old(clientnetfn)
        && clientcommand == old(clientcommand) && lastpayload == old(lastpayload)
    {
      OpenDelivers(c, AsReceiver(), raw);
      if |raw| < 6 {
        return Raises;
      }
      if raw[5] % 64 != 0 {
        return Other;
      }
      if raw[5] == 0 {
        if |raw| < 10 {
          return Raises;
        }
        if ReadLe32(raw[6..10]) == 0 && k1.None? {
          if |raw| < 16 {
            return Raises;
          }
          var psize: nat := raw[14] as nat + 256 * raw[15] as nat;
          var payload := Slice(raw, 16, 16 + psize);
          if |payload| < psize {
            return SessionClosed;
          }
          outcome := Ipmi15(payload);
          return;
        }
      }
      if !MarksIntegrity(raw[5]) || k1.None? || !Authentic(c, k1.value, raw) {
        return SessionClosed;
      }
      if ReadLe32(raw[6..10]) != localsid {
        return SessionClosed;
      }
      if |raw| < 14 {
        return Raises;
      }
      var sequence := ReadLe32(raw[10..14]);
      if remseqnumber.Some? && sequence < remseqnumber.value && remseqnumber.value != 0xFFFF_FFFF {
        return SessionClosed;
      }
      remseqnumber := Some(sequence);
      var payload := PlainPayload(c, aeskey, raw);
      if payload.None? {
        return Raises;
      }
      outcome := Ipmi15(payload.value);
    }
  }

  /** The addresses noted from a request are the requester's, and the reply function is the request's plus one. */
  lemma {:induction false} RequestIsNoted(rsAddr: byte, rqAddr: byte, lun: byte, netfn: nat, command: byte, data: Data)
    requires netfn < 64
    ensures var m := IpmiMessage(rsAddr, rqAddr, lun, netfn, command, data);
            && |m| >= 7 && m[3] == rqAddr && m[4] == lun && m[1] / 4 + 1 == netfn + 1 && m[5] == command
  {
    ParseInvertsMessage(rsAddr, rqAddr, lun, netfn, command, data);
  }

  // ---------- Runs ----------

  datatype Job = Job(iv: Data, payload: Data)

  predicate Sealable(s: Sender, jobs: seq<Job>) {
    forall j | j in jobs :: |j.iv| == 16 && DeclaredSize(s, j.payload) <= 0xFFFF
  }

  function SealAll(c: Crypto, s: Sender, jobs: seq<Job>): seq<Data>
    requires s.sequence + |jobs| <= 0xFFFF_FFFF && Sealable(s, jobs)
    decreases |jobs|
  {
    if jobs == [] then []
    else
      assert jobs[0] in jobs;
      [Seal(c, s, jobs[0].iv, jobs[0].payload).value] + SealAll(c, NextSender(s), jobs[1..])
  }

  function OpenAll(c: Crypto, r: Receiver, packets: seq<Data>): seq<Opened>
    decreases |packets|
  {
    if packets == [] then []
    else [Open(c, r, packets[0])] + OpenAll(c, AfterOpen(c, r, packets[0]), packets[1..])
  }

  function DeliverAll(jobs: seq<Job>): seq<Opened> {
    if jobs == [] then [] else [Deliver(jobs[0].payload)] + DeliverAll(jobs[1..])
  }

  lemma {:induction false} AdmittedReads(c: Crypto, s: Sender, r: Receiver, raw: Data)
    requires |raw| >= 16 && raw[5] == TypeOctet(s) && s.integrity && r.k1.Some? && Authentic(c, r.k1.value, raw)
    requires ReadLe32(raw[6..10]) == s.sessionId && ReadLe32(raw[10..14]) == s.sequence
    requires s.sessionId == r.localSid && Acceptable(r, s.sequence)
    ensures AfterOpen(c, r, raw) == r.(remoteSeq := Some(s.sequence))
  {
  }

  /** A sealed packet is admitted and leaves its sequence number behind. */
  lemma {:induction false} SealedIsAdmitted(c: Crypto, s: Sender, r: Receiver, iv: Data, payload: Data)
    requires IsCrypto(c) && |iv| == 16 && s.integrity && DeclaredSize(s, payload) <= 0xFFFF
    requires r.k1 == Some(s.k1) && s.sessionId == r.localSid && Acceptable(r, s.sequence)
    ensures AfterOpen(c, r, Seal(c, s, iv, payload).value) == r.(remoteSeq := Some(s.sequence))
  {
    var rest := SealedParts(c, s, iv, payload);
    HeaderReads(s, DeclaredSize(s, payload), Content(c, s, iv, payload) + rest);
    AdmittedReads(c, s, r, Seal(c, s, iv, payload).value);
  }

  /** Packets sent one after the other in a session and arriving in order are all delivered, each as it was. */
  lemma {:induction false} InOrderRunIsDelivered(c: Crypto, s: Sender, r: Receiver, jobs: seq<Job>)
    requires IsCrypto(c) && s.integrity && s.sequence + |jobs| <= 0xFFFF_FFFF && Sealable(s, jobs)
    requires r.k1 == Some(s.k1) && r.aesKey == s.aesKey && s.sessionId == r.localSid && Acceptable(r, s.sequence)
    ensures OpenAll(c, r, SealAll(c, s, jobs)) == DeliverAll(jobs)
    decreases |jobs|
  {
    if jobs != [] {
      var j := jobs[0];
      assert j in jobs;
      OpenInvertsSeal(c, s, r, j.iv, j.payload);
      SealedIsAdmitted(c, s, r, j.iv, j.payload);
      var packets := SealAll(c, s, jobs);
      assert packets[1..] == SealAll(c, NextSender(s), jobs[1..]);
      InOrderRunIsDelivered(c, NextSender(s), AfterOpen(c, r, packets[0]), jobs[1..]);
    }
  }
}
