/**
 * The BACnet/IP link layer (conpot/protocols/bacnet/bvlc.py): stripping and adding the BVLC header of ASHRAE 135
 * Annex J.2 and the NPDU header of clause 6.2.2.
 */
module BacnetLink {
  import opened Octets
  import opened Wrappers

  const BVLC_TYPE: byte := 0x81
  const WRITE_BDT: byte := 0x01
  const READ_BDT: byte := 0x02
  const FORWARDED_NPDU: byte := 0x04
  const REGISTER_FOREIGN_DEVICE: byte := 0x05
  const READ_FDT: byte := 0x06
  const DELETE_FDT_ENTRY: byte := 0x08
  const DISTRIBUTE_BROADCAST: byte := 0x09
  const ORIGINAL_UNICAST_NPDU: byte := 0x0A
  const ORIGINAL_BROADCAST_NPDU: byte := 0x0B
  const FORWARDED_ADDRESS_LEN := 6

  /** `LinkLayer`. */
  datatype Link = Link(function_: byte, network: Option<word>, address: Option<seq<byte>>, expectingReply: bool)

  datatype Service = Unnamed | Named(function_: byte) | NetworkLayerMessage

  datatype Decoded = Decoded(apdu: Option<seq<byte>>, link: Option<Link>, reply: Option<seq<byte>>, service: Service)

  datatype BvlcError = LengthMismatch | ShortForward | ShortNpdu | BadVersion | SpecifierCut | AddressCut | NoHopCount

  datatype WrapError = AddressTooLong | DatagramTooLong

  /** Bit `mask` (a power of two) of a control octet. */
  predicate Bit(control: byte, mask: byte)
    requires mask > 0
  {
    control / mask % 2 == 1
  }

  const NET_MESSAGE: byte := 0x80
  const DEST_SPECIFIER: byte := 0x20
  const SRC_SPECIFIER: byte := 0x08
  const EXPECTING_REPLY: byte := 0x04

  /** The refusal code of the BBMD-only functions. */
  function NakCode(f: byte): Option<word> {
    if f == WRITE_BDT then Some(0x0010)
    else if f == READ_BDT then Some(0x0020)
    else if f == REGISTER_FOREIGN_DEVICE then Some(0x0030)
    else if f == READ_FDT then Some(0x0040)
    else if f == DELETE_FDT_ENTRY then Some(0x0050)
    else if f == DISTRIBUTE_BROADCAST then Some(0x0060)
    else None
  }

  predicate CarriesNpdu(f: byte) {
    f == ORIGINAL_UNICAST_NPDU || f == ORIGINAL_BROADCAST_NPDU || f == FORWARDED_NPDU
  }

  function BuildResult(code: word): seq<byte> {
    [BVLC_TYPE, 0, 0, 6] + Be16(code)
  }

  predicate LooksFramed(data: seq<byte>) {
    |data| >= 4 && data[0] == BVLC_TYPE
  }

  datatype Specifier = Specifier(end: nat, network: word, address: Option<seq<byte>>)

  function ReadSpecifier(body: seq<byte>, offset: nat): (r: Result<Specifier, BvlcError>)
    ensures r.Ok? ==> r.value.end <= |body|
  {
    if offset + 3 > |body| then Err(SpecifierCut)
    else
      var network := ReadBe16(body[offset], body[offset + 1]);
      var end: nat := offset + 3 + body[offset + 2] as int;
      if end > |body| then Err(AddressCut)
      else Ok(Specifier(end, network, if body[offset + 2] == 0 then None else Some(body[offset + 3..end])))
  }

  datatype Stripped = Stripped(apdu: Option<seq<byte>>, link: Link)

  /** `_strip_npdu`. */
  function StripNpdu(body: seq<byte>, f: byte): Result<Stripped, BvlcError> {
    if |body| < 2 then Err(ShortNpdu)
    else if body[0] != 1 then Err(BadVersion)
    else
      var control := body[1];
      var dest := if Bit(control, DEST_SPECIFIER) then ReadSpecifier(body, 2) else Ok(Specifier(2, 0, None));
      if dest.Err? then Err(dest.error)
      else
        var src := if Bit(control, SRC_SPECIFIER) then ReadSpecifier(body, dest.value.end)
                   else Ok(Specifier(dest.value.end, 0, None));
        if src.Err? then Err(src.error)
        else if Bit(control, DEST_SPECIFIER) && src.value.end >= |body| then Err(NoHopCount)
        else
          var offset := src.value.end + if Bit(control, DEST_SPECIFIER) then 1 else 0;
          var network := if Bit(control, SRC_SPECIFIER) then Some(src.value.network) else None;
          Ok(Stripped(if Bit(control, NET_MESSAGE) then None else Some(body[offset..]),
                      Link(f, network, src.value.address, Bit(control, EXPECTING_REPLY))))
  }

  function Unwrap(data: seq<byte>): Result<Decoded, BvlcError> {
    if !LooksFramed(data) then Ok(Decoded(Some(data), None, None, Unnamed))
    else
      var f, length: int := data[1], ReadBe16(data[2], data[3]);
      if length < 4 || length > |data| then Err(LengthMismatch)
      else
        var body := data[4..length];
        if NakCode(f).Some? then Ok(Decoded(None, None, Some(BuildResult(NakCode(f).value)), Named(f)))
        else if !CarriesNpdu(f) then Ok(Decoded(None, None, None, Named(f)))
        else if f == FORWARDED_NPDU && |body| < FORWARDED_ADDRESS_LEN then Err(ShortForward)
        else
          match StripNpdu(if f == FORWARDED_NPDU then body[FORWARDED_ADDRESS_LEN..] else body, f)
          case Err(e) => Err(e)
          case Ok(s) => Ok(Decoded(s.apdu, Some(s.link), None, if s.apdu.None? then NetworkLayerMessage else Named(f)))
  }

  /** `wrap`. */
  function Wrap(apdu: seq<byte>, link: Option<Link>, broadcast: bool): Result<seq<byte>, WrapError> {
    if link.None? then Ok(apdu)
    else
      var routed := link.value.address.Some? && link.value.network.Some?;
      if routed && |link.value.address.value| > 255 then Err(AddressTooLong)
      else
        var npdu := (if routed then
                       [1, DEST_SPECIFIER] + Be16(link.value.network.value) + [|link.value.address.value|] +
                       link.value.address.value + [0xFF]
                     else [1, 0]) + apdu;
        var total := |npdu| + 4;
        if total > 0xFFFF then Err(DatagramTooLong)
        else Ok([BVLC_TYPE, if broadcast then ORIGINAL_BROADCAST_NPDU else ORIGINAL_UNICAST_NPDU] + Be16(total) + npdu)
  }

  // ---------- The code ----------

  /** `_strip_npdu`, which moves an offset through the NPCI. */
  method StripNpduFrom(body: seq<byte>, f: byte) returns (r: Result<Stripped, BvlcError>)
    ensures r == StripNpdu(body, f)
  {
    if |body| < 2 {
      return Err(ShortNpdu);
    }
    var version, control := body[0], body[1];
    if version != 1 {
      return Err(BadVersion);
    }
    var offset: nat := 2;
    var hasDestination := Bit(control, DEST_SPECIFIER);
    var network: Option<word>, address: Option<seq<byte>> := None, None;
    if hasDestination {
      var skipped := ReadSpecifier(body, offset);
      if skipped.Err? {
        return Err(skipped.error);
      }
      offset := skipped.value.end;
    }
    if Bit(control, SRC_SPECIFIER) {
      var source := ReadSpecifier(body, offset);
      if source.Err? {
        return Err(source.error);
      }
      offset, network, address := source.value.end, Some(source.value.network), source.value.address;
    }
    if hasDestination {
      if offset >= |body| {
        return Err(NoHopCount);
      }
      offset := offset + 1;
    }
    var link := Link(f, network, address, Bit(control, EXPECTING_REPLY));
    if Bit(control, NET_MESSAGE) {
      return Ok(Stripped(None, link));
    }
    r := Ok(Stripped(Some(body[offset..]), link));
  }

  /** `wrap`, which appends to the NPDU. */
  method WrapReply(apdu: seq<byte>, link: Option<Link>, broadcast: bool) returns (r: Result<seq<byte>, WrapError>)
    ensures r == Wrap(apdu, link, broadcast)
  {
    if link == None {
      return Ok(apdu);
    }
    var npdu: seq<byte> := [1, 0];
    if link.value.address.Some? && link.value.network.Some? {
      npdu := npdu[1 := DEST_SPECIFIER];
      npdu := npdu + Be16(link.value.network.value);
      if |link.value.address.value| > 255 {
        return Err(AddressTooLong);
      }
      var length: byte := |link.value.address.value|;
      npdu := npdu + [length];
      npdu := npdu + link.value.address.value;
      npdu := npdu + [0xFF];
    }
    assert npdu == if link.value.address.Some? && link.value.network.Some? then
                     [1, DEST_SPECIFIER] + Be16(link.value.network.value) + [|link.value.address.value|] +
                     link.value.address.value + [0xFF]
                   else [1, 0];
    npdu := npdu + apdu;
    var function_ := if broadcast then ORIGINAL_BROADCAST_NPDU else ORIGINAL_UNICAST_NPDU;
    var total := |npdu| + 4;
    if total > 0xFFFF {
      return Err(DatagramTooLong);
    }
    r := Ok([BVLC_TYPE, function_] + Be16(total) + npdu);
  }

  // ---------- What the standard puts on the wire ----------

  datatype Address = Address(network: word, mac: seq<byte>)

  /** An NPDU of clause 6.2.2; `hops` is sent only with a destination. */
  datatype Npdu = Npdu(
    netMessage: bool, destination: Option<Address>, source: Option<Address>, hops: byte,
    expectingReply: bool, priority: byte, payload: seq<byte>)

  datatype Carrier = Unicast | Broadcast | Forwarded(origin: seq<byte>)

  predicate Legal(n: Npdu) {
    && n.priority < 4
    && (n.destination.Some? ==> |n.destination.value.mac| < 256)
    && (n.source.Some? ==> |n.source.value.mac| < 256)
  }

  predicate LegalCarrier(c: Carrier) {
    c.Forwarded? ==> |c.origin| == FORWARDED_ADDRESS_LEN
  }

  function Control(n: Npdu): byte
    requires Legal(n)
  {
    (if n.netMessage then 0x80 else 0) + (if n.destination.Some? then 0x20 else 0) +
    (if n.source.Some? then 0x08 else 0) + (if n.expectingReply then 0x04 else 0) + n.priority
  }

  function EncodeAddress(a: Option<Address>): seq<byte>
    requires a.Some? ==> |a.value.mac| < 256
  {
    if a.None? then [] else Be16(a.value.network) + [|a.value.mac|] + a.value.mac
  }

  function EncodeNpdu(n: Npdu): seq<byte>
    requires Legal(n)
  {
    [1, Control(n)] + EncodeAddress(n.destination) + EncodeAddress(n.source) +
    (if n.destination.Some? then [n.hops] else []) + n.payload
  }

  function CarrierFunction(c: Carrier): byte {
    match c
    case Unicast => ORIGINAL_UNICAST_NPDU
    case Broadcast => ORIGINAL_BROADCAST_NPDU
    case Forwarded(_) => FORWARDED_NPDU
  }

  function CarrierBody(c: Carrier, n: Npdu): seq<byte>
    requires Legal(n)
  {
    (if c.Forwarded? then c.origin else []) + EncodeNpdu(n)
  }

  function Encode(c: Carrier, n: Npdu): seq<byte>
    requires Legal(n) && |CarrierBody(c, n)| + 4 <= 0xFFFF
  {
    [BVLC_TYPE, CarrierFunction(c)] + Be16(|CarrierBody(c, n)| + 4) + CarrierBody(c, n)
  }

  // ---------- Round trips ----------

  lemma {:induction false} ControlBits(n: Npdu)
    requires Legal(n)
    ensures Bit(Control(n), NET_MESSAGE) == n.netMessage && Bit(Control(n), DEST_SPECIFIER) == n.destination.Some?
    ensures Bit(Control(n), SRC_SPECIFIER) == n.source.Some? && Bit(Control(n), EXPECTING_REPLY) == n.expectingReply
  {
  }

  /** A MAC address as `LinkLayer` keeps it: an empty one is no address. */
  function MacOf(a: Option<Address>): Option<seq<byte>> {
    if a.None? || a.value.mac == [] then None else Some(a.value.mac)
  }

  lemma {:induction false} SpecifierInverts(before: seq<byte>, a: Address, after: seq<byte>)
    requires |a.mac| < 256
    ensures var body := before + EncodeAddress(Some(a)) + after;
            ReadSpecifier(body, |before|) ==
            Ok(Specifier(|before| + |EncodeAddress(Some(a))|, a.network, MacOf(Some(a))))
  {
    var body := before + EncodeAddress(Some(a)) + after;
    var o := |before|;
    Be16RoundTrip(a.network);
    assert body[o] == Be16(a.network)[0] && body[o + 1] == Be16(a.network)[1] && body[o + 2] == |a.mac|;
    assert body[o + 3..o + 3 + |a.mac|] == a.mac;
  }

  lemma {:induction false} Regroup(head: seq<byte>, d: seq<byte>, s: seq<byte>, hop: seq<byte>, payload: seq<byte>)
    ensures head + d + s + hop + payload == head + d + (s + hop + payload)
    ensures head + d + s + hop + payload == head + d + s + (hop + payload)
    ensures (head + d + s + hop + payload)[|head| + |d| + |s| + |hop|..] == payload
  {
  }

  /** Where the parts of an encoded NPDU are. */
  lemma {:induction false} NpduParts(n: Npdu)
    requires Legal(n)
    ensures var body, d, s := EncodeNpdu(n), EncodeAddress(n.destination), EncodeAddress(n.source);
            var hop := if n.destination.Some? then 1 else 0;
            && |body| >= 2 && body[0] == 1 && body[1] == Control(n)
            && (n.destination.Some? ==>
                  ReadSpecifier(body, 2) == Ok(Specifier(2 + |d|, n.destination.value.network, MacOf(n.destination))))
            && (n.source.Some? ==>
                  ReadSpecifier(body, 2 + |d|) ==
                  Ok(Specifier(2 + |d| + |s|, n.source.value.network, MacOf(n.source))))
            && |body| == 2 + |d| + |s| + hop + |n.payload|
            && body[2 + |d| + |s| + hop..] == n.payload
  {
    var head, d, s := [1, Control(n)], EncodeAddress(n.destination), EncodeAddress(n.source);
    var hop := if n.destination.Some? then [n.hops] else [];
    Regroup(head, d, s, hop, n.payload);
    if n.destination.Some? {
      SpecifierInverts(head, n.destination.value, s + hop + n.payload);
    }
    if n.source.Some? {
      SpecifierInverts(head + d, n.source.value, hop + n.payload);
    }
  }

  lemma {:induction false} StripInverts(n: Npdu, f: byte)
    requires Legal(n)
    ensures StripNpdu(EncodeNpdu(n), f) ==
            Ok(Stripped(if n.netMessage then None else Some(n.payload),
                        Link(f, if n.source.Some? then Some(n.source.value.network) else None, MacOf(n.source),
                             n.expectingReply)))
  {
    ControlBits(n);
    NpduParts(n);
  }

  /** What a receiver should see of an NPDU-bearing datagram. */
  function Received(c: Carrier, n: Npdu): Decoded {
    var f := CarrierFunction(c);
    Decoded(
      if n.netMessage then None else Some(n.payload),
      Some(Link(f, if n.source.Some? then Some(n.source.value.network) else None, MacOf(n.source), n.expectingReply)),
      None,
      if n.netMessage then NetworkLayerMessage else Named(f))
  }

  lemma {:induction false} CarrierBodyIs(c: Carrier, n: Npdu)
    requires Legal(n) && LegalCarrier(c)
    ensures if c.Forwarded?
      then |CarrierBody(c, n)| >= FORWARDED_ADDRESS_LEN && CarrierBody(c, n)[FORWARDED_ADDRESS_LEN..] == EncodeNpdu(n)
      else CarrierBody(c, n) == EncodeNpdu(n)
  {
  }

  /** `unwrap` on a datagram of which only header and body are known. */
  lemma {:induction false} UnwrapReads(data: seq<byte>, c: Carrier, body: seq<byte>, n: Npdu)
    requires LooksFramed(data) && data[1] == CarrierFunction(c) && ReadBe16(data[2], data[3]) == |body| + 4 <= |data|
    requires data[4..|body| + 4] == body && (c.Forwarded? ==> |body| >= FORWARDED_ADDRESS_LEN)
    requires var npdu := if c.Forwarded? then body[FORWARDED_ADDRESS_LEN..] else body;
      StripNpdu(npdu, CarrierFunction(c)) ==
      Ok(Stripped(if n.netMessage then None else Some(n.payload), Received(c, n).link.value))
    ensures Unwrap(data) == Ok(Received(c, n))
  {
  }

  /** `unwrap` inverts the standard's encoding, whatever octets follow the declared length. */
  lemma {:induction false} UnwrapInvertsEncode(c: Carrier, n: Npdu, trailer: seq<byte>)
    requires Legal(n) && LegalCarrier(c) && |CarrierBody(c, n)| + 4 <= 0xFFFF
    ensures Unwrap(Encode(c, n) + trailer) == Ok(Received(c, n))
  {
    var data, body := Encode(c, n) + trailer, CarrierBody(c, n);
    Be16RoundTrip(|body| + 4);
    assert data[1] == CarrierFunction(c) && data[2] == Be16(|body| + 4)[0] && data[3] == Be16(|body| + 4)[1];
    assert data[4..|body| + 4] == body;
    StripInverts(n, CarrierFunction(c));
    CarrierBodyIs(c, n);
    UnwrapReads(data, c, body, n);
  }

  /** A framed datagram is read only up to its declared length. */
  lemma {:induction false} OnlyDeclaredLengthCounts(data: seq<byte>)
    requires LooksFramed(data) && 4 <= ReadBe16(data[2], data[3]) as int <= |data|
    ensures Unwrap(data) == Unwrap(data[..ReadBe16(data[2], data[3])])
  {
    var length := ReadBe16(data[2], data[3]);
    assert data[..length][4..length] == data[4..length];
  }

  /** The NPDU of a reply: to the network and address the request came from, or to nobody in particular. */
  function ReplyNpdu(apdu: seq<byte>, link: Link): Npdu {
    var routed := link.address.Some? && link.network.Some?;
    var destination := if routed then Some(Address(link.network.value, link.address.value)) else None;
    Npdu(false, destination, None, 0xFF, false, 0, apdu)
  }

  /** `wrap` is the standard's encoding of that reply, and fails exactly when the fields do not fit. */
  lemma {:induction false} WrapIsEncode(apdu: seq<byte>, link: Link, broadcast: bool)
    ensures var n, c := ReplyNpdu(apdu, link), if broadcast then Broadcast else Unicast;
            if Legal(n) && |CarrierBody(c, n)| + 4 <= 0xFFFF
            then Wrap(apdu, Some(link), broadcast) == Ok(Encode(c, n))
            else Wrap(apdu, Some(link), broadcast).Err?
  {
    var n, c := ReplyNpdu(apdu, link), if broadcast then Broadcast else Unicast;
    if Legal(n) {
      var a := EncodeAddress(n.destination);
      assert CarrierBody(c, n) == EncodeNpdu(n);
      if n.destination.Some? {
        assert EncodeNpdu(n) == [1, DEST_SPECIFIER] + Be16(link.network.value) + [|link.address.value|] +
                                link.address.value + [0xFF] + apdu;
      } else {
        assert EncodeNpdu(n) == [1, 0] + apdu;
      }
    }
  }

  /** A reply that fits is read back by the same code with its APDU intact. */
  lemma {:induction false} UnwrapInvertsWrap(apdu: seq<byte>, link: Link, broadcast: bool, datagram: seq<byte>)
    requires Wrap(apdu, Some(link), broadcast) == Ok(datagram)
    ensures Unwrap(datagram).Ok? && Unwrap(datagram).value.apdu == Some(apdu)
  {
    var n, c := ReplyNpdu(apdu, link), if broadcast then Broadcast else Unicast;
    WrapIsEncode(apdu, link, broadcast);
    UnwrapInvertsEncode(c, n, []);
    assert Encode(c, n) + [] == Encode(c, n);
  }

  /**
   * A whole exchange: the reply to a routed request is the standard's datagram whose destination is the
   * request's source network and address.
   */
  lemma {:induction false} ReplyGoesBack(c: Carrier, n: Npdu, apdu: seq<byte>, datagram: seq<byte>)
    requires Legal(n) && LegalCarrier(c) && |CarrierBody(c, n)| + 4 <= 0xFFFF
    requires n.source.Some? && n.source.value.mac != []
    requires Unwrap(Encode(c, n)).Ok? && Wrap(apdu, Unwrap(Encode(c, n)).value.link, false) == Ok(datagram)
    ensures var r := Npdu(false, n.source, None, 0xFF, false, 0, apdu);
            Legal(r) && |CarrierBody(Unicast, r)| + 4 <= 0xFFFF && datagram == Encode(Unicast, r)
  {
    UnwrapInvertsEncode(c, n, []);
    assert Encode(c, n) + [] == Encode(c, n);
    WrapIsEncode(apdu, Received(c, n).link.value, false);
  }

  /** Every datagram has exactly one outcome: an APDU, a refusal, nothing to do, or an error. */
  lemma {:induction false} OneOutcome(data: seq<byte>)
    requires Unwrap(data).Ok?
    ensures var d := Unwrap(data).value;
            && !(d.apdu.Some? && d.reply.Some?)
            && (d.reply.Some? <==> LooksFramed(data) && NakCode(data[1]).Some?)
            && (d.link.Some? <==> LooksFramed(data) && CarriesNpdu(data[1]))
            && (d.apdu.Some? ==> d.link.Some? || !LooksFramed(data))
  {
  }

  /**
   * The six functions that only a broadcast manager serves are refused, each with its own code in a datagram of six
   * octets. A refusal, should it come back, is not answered again.
   */
  lemma {:induction false} RefusalIsNotAnswered(data: seq<byte>)
    requires Unwrap(data).Ok? && Unwrap(data).value.reply.Some?
    ensures data[1] in {WRITE_BDT, READ_BDT, REGISTER_FOREIGN_DEVICE, READ_FDT, DELETE_FDT_ENTRY, DISTRIBUTE_BROADCAST}
    ensures var k := if data[1] <= 2 then data[1] else if data[1] <= 6 then data[1] - 2 else data[1] - 3;
      Unwrap(data).value.reply.value == [BVLC_TYPE, 0, 0, 6, 0, 16 * k]
    ensures Unwrap(Unwrap(data).value.reply.value) == Ok(Decoded(None, None, None, Named(0)))
  {
  }

  // ---------- Datagrams without a link header ----------

  /** A bare APDU is handed on as it is, and what is sent back for it is bare as well. */
  lemma {:induction false} BareIsHandedOn(data: seq<byte>, apdu: seq<byte>, broadcast: bool)
    requires |data| < 4 || data[0] != 0x81
    ensures Unwrap(data).Ok?
    ensures var d := Unwrap(data).value;
      && d.apdu == Some(data) && d.link == None && d.reply == None && d.service == Unnamed
      && Wrap(apdu, d.link, broadcast) == Ok(apdu)
  {
  }

  /** The declared length of a framed datagram is refused if and only if it is below 4 or beyond the datagram. */
  lemma {:induction false} LengthIsChecked(data: seq<byte>)
    requires |data| >= 4 && data[0] == 0x81
    ensures Unwrap(data) == Err(LengthMismatch)
       <==> (256 * data[2] as int + data[3] as int < 4 || 256 * data[2] as int + data[3] as int > |data|)
  {
  }

  /** What a datagram of the right length is by its function: refused, ignored, or read as an NPDU. */
  lemma {:induction false} FunctionDecides(data: seq<byte>)
    requires |data| >= 4 && data[0] == 0x81 && 4 <= 256 * data[2] as int + data[3] as int <= |data|
    ensures data[1] in {1, 2, 5, 6, 8, 9} ==>
      && Unwrap(data).Ok? && Unwrap(data).value.apdu.None? && Unwrap(data).value.reply.Some?
      && Unwrap(data).value.service == Named(data[1])
    ensures data[1] !in {1, 2, 4, 5, 6, 8, 9, 10, 11} ==> Unwrap(data) == Ok(Decoded(None, None, None, Named(data[1])))
    ensures data[1] in {4, 10, 11} && Unwrap(data).Ok? ==>
      Unwrap(data).value.link.Some? && Unwrap(data).value.link.value.function_ == data[1]
  {
  }

  /** The NPDU of a datagram that may carry one, or what is refused before it is looked at. */
  lemma {:induction false} NpduIsStripped(data: seq<byte>, length: nat)
    requires |data| >= 4 && data[0] == 0x81 && length == 256 * data[2] as nat + data[3] as nat && 4 <= length <= |data|
    ensures data[1] == 4 && length < 10 ==> Unwrap(data) == Err(ShortForward)
    ensures data[1] == 4 && length >= 10 ==>
      (Unwrap(data).Ok? <==> StripNpdu(data[10..length], 4).Ok?)
      && (Unwrap(data).Err? ==> Unwrap(data).error == StripNpdu(data[10..length], 4).error)
    ensures data[1] in {10, 11} ==>
      (Unwrap(data).Ok? <==> StripNpdu(data[4..length], data[1]).Ok?)
      && (Unwrap(data).Err? ==> Unwrap(data).error == StripNpdu(data[4..length], data[1]).error)
  {
    if data[1] == 4 && length >= 10 {
      assert data[4..length][6..] == data[10..length];
    }
  }

  /** Two fields can be too long for a reply: the address to route it to, and the whole datagram. */
  lemma {:induction false} WrapRefuses(apdu: seq<byte>, link: Link, broadcast: bool)
    ensures var r := Wrap(apdu, Some(link), broadcast);
      var routed := link.address.Some? && link.network.Some?;
      var size := 4 + (if routed then 6 + |link.address.value| else 2) + |apdu|;
      && (r == Err(AddressTooLong) <==> routed && |link.address.value| > 255)
      && (r == Err(DatagramTooLong) <==> !(routed && |link.address.value| > 255) && size > 65535)
  {
  }

  // ---------- Where everything stands ----------

  /** Network number, higher octet first, length and MAC address. */
  predicate IsSpecifier(body: seq<byte>, o: nat, a: Address) {
    && o + 3 + |a.mac| <= |body| && 256 * body[o] as int + body[o + 1] as int == a.network
    && body[o + 2] as int == |a.mac| && body[o + 3..o + 3 + |a.mac|] == a.mac
  }

  lemma {:induction false} SpecifierAt(before: seq<byte>, a: Address, after: seq<byte>, body: seq<byte>)
    requires |a.mac| < 256 && body == before + EncodeAddress(Some(a)) + after
    ensures IsSpecifier(body, |before|, a) && |EncodeAddress(Some(a))| == 3 + |a.mac|
  {
    var network, o := Be16(a.network), |before|;
    assert body[o] == network[0] && body[o + 1] == network[1] && body[o + 2] == |a.mac|;
  }

  /** An NPDU octet by octet: version, control, destination, source, hop count, and the rest. */
  lemma {:induction false} NpduLayout(n: Npdu, s: nat, h: nat)
    requires Legal(n)
    requires s == 2 + if n.destination.Some? then 3 + |n.destination.value.mac| else 0
    requires h == s + if n.source.Some? then 3 + |n.source.value.mac| else 0
    ensures var body := EncodeNpdu(n);
      && |body| >= 2 && body[0] == 1
      && body[1] as int == (if n.netMessage then 128 else 0) + (if n.destination.Some? then 32 else 0)
                           + (if n.source.Some? then 8 else 0) + (if n.expectingReply then 4 else 0) + n.priority
      && (n.destination.Some? ==> IsSpecifier(body, 2, n.destination.value) && |body| > h && body[h] == n.hops)
      && (n.source.Some? ==> IsSpecifier(body, s, n.source.value))
      && |body| == h + (if n.destination.Some? then 1 else 0) + |n.payload|
      && body[|body| - |n.payload|..] == n.payload
  {
    var head, d, x := [1, Control(n)], EncodeAddress(n.destination), EncodeAddress(n.source);
    var hop := if n.destination.Some? then [n.hops] else [];
    var body := EncodeNpdu(n);
    Regroup(head, d, x, hop, n.payload);
    if n.destination.Some? {
      SpecifierAt(head, n.destination.value, x + hop + n.payload, body);
    }
    if n.source.Some? {
      SpecifierAt(head + d, n.source.value, hop + n.payload, body);
    }
  }

  /** The datagram around it: type, function, length of the whole, and the origin of a forwarded one. */
  lemma {:induction false} DatagramLayout(c: Carrier, n: Npdu)
    requires Legal(n) && LegalCarrier(c) && |CarrierBody(c, n)| + 4 <= 0xFFFF
    ensures var data := Encode(c, n);
      && |data| >= 4 && data[0] == 0x81 && 256 * data[2] as int + data[3] as int == |data|
      && match c
         case Unicast => data[1] == 0x0A && data[4..] == EncodeNpdu(n)
         case Broadcast => data[1] == 0x0B && data[4..] == EncodeNpdu(n)
         case Forwarded(origin) =>
           data[1] == 0x04 && |data| >= 10 && data[4..10] == origin && data[10..] == EncodeNpdu(n)
  {
    var data, length := Encode(c, n), Be16(|CarrierBody(c, n)| + 4);
    assert data[2] == length[0] && data[3] == length[1];
    assert data[4..] == CarrierBody(c, n);
    if c.Forwarded? {
      assert data[4..10] == c.origin && data[10..] == EncodeNpdu(n);
    }
  }

  // ---------- Headers that are cut off ----------

  /** A specifier of which fewer octets are there than it says. */
  lemma {:induction false} CutSpecifier(body: seq<byte>, o: nat, a: Address, k: nat)
    requires IsSpecifier(body, o, a) && o <= k < o + 3 + |a.mac|
    ensures ReadSpecifier(body[..k], o) == Err(if k < o + 3 then SpecifierCut else AddressCut)
  {
  }

  lemma {:induction false} WholeSpecifier(body: seq<byte>, o: nat, a: Address, k: nat)
    requires IsSpecifier(body, o, a) && o + 3 + |a.mac| <= k <= |body|
    ensures ReadSpecifier(body[..k], o)
         == Ok(Specifier(o + 3 + |a.mac|, a.network, if a.mac == [] then None else Some(a.mac)))
  {
    assert body[..k][o + 3..o + 3 + |a.mac|] == a.mac;
  }

  /** The first `k` octets of an NPDU, cut anywhere in its header, are refused, and for what is missing. */
  lemma {:induction false} CutHeaderIsRefused(n: Npdu, s: nat, h: nat, k: nat, f: byte)
    requires Legal(n)
    requires s == 2 + if n.destination.Some? then 3 + |n.destination.value.mac| else 0
    requires h == s + if n.source.Some? then 3 + |n.source.value.mac| else 0
    requires k < h + if n.destination.Some? then 1 else 0
    ensures k <= |EncodeNpdu(n)|
    ensures StripNpdu(EncodeNpdu(n)[..k], f)
         == Err(if k < 2 then ShortNpdu
                else if k < s then (if k < 5 then SpecifierCut else AddressCut)
                else if k < h then (if k < s + 3 then SpecifierCut else AddressCut)
                else NoHopCount)
  {
    NpduLayout(n, s, h);
    ControlBits(n);
    var body := EncodeNpdu(n);
    if k >= 2 {
      assert body[..k][1] == Control(n);
      if k < s {
        CutSpecifier(body, 2, n.destination.value, k);
      } else {
        if n.destination.Some? {
          WholeSpecifier(body, 2, n.destination.value, k);
        }
        if k < h {
          CutSpecifier(body, s, n.source.value, k);
        } else if n.source.Some? {
          WholeSpecifier(body, s, n.source.value, k);
        }
      }
    }
  }

  /** Any other version is refused. */
  lemma {:induction false} OtherVersionIsRefused(body: seq<byte>, f: byte)
    requires |body| >= 2 && body[0] != 1
    ensures StripNpdu(body, f) == Err(BadVersion)
  {
  }

  // ---------- The converse ----------

  lemma {:induction false} Be16OfRead(hi: byte, lo: byte)
    ensures Be16(ReadBe16(hi, lo)) == [hi, lo]
  {
  }

  /** A specifier that was read is the encoding of the address in it. */
  lemma {:induction false} SpecifierIsEncoded(body: seq<byte>, offset: nat) returns (a: Address)
    requires ReadSpecifier(body, offset).Ok?
    ensures var s := ReadSpecifier(body, offset).value;
      && offset + 3 <= s.end && |a.mac| < 256 && a.network == s.network && MacOf(Some(a)) == s.address
      && body[offset..s.end] == EncodeAddress(Some(a))
  {
    var s := ReadSpecifier(body, offset).value;
    a := Address(s.network, body[offset + 3..s.end]);
    Be16OfRead(body[offset], body[offset + 1]);
    assert body[offset..s.end] == body[offset..offset + 2] + [body[offset + 2]] + a.mac;
  }

  /** The reserved bits of the control octet. */
  predicate NoReservedBits(control: byte) {
    !Bit(control, 0x40) && !Bit(control, 0x10)
  }

  lemma {:induction false} SpecifierIsKept(body: seq<byte>, other: seq<byte>, o: nat)
    requires o >= 2 && |body| == |other| && forall i | 2 <= i < |body| :: body[i] == other[i]
    ensures ReadSpecifier(body, o) == ReadSpecifier(other, o)
    ensures ReadSpecifier(body, o).Ok? ==> ReadSpecifier(body, o).value.end >= 2
  {
    if ReadSpecifier(body, o).Ok? {
      var end := ReadSpecifier(body, o).value.end;
      assert body[o + 3..end] == other[o + 3..end];
    }
  }

  /** The reserved bits of the control octet, set or not, change nothing. */
  lemma {:induction false} ReservedBitsAreIgnored(body: seq<byte>, control: byte, f: byte)
    requires |body| >= 2 && NoReservedBits(control)
    requires forall mask | mask in {0x80, 0x20, 0x08, 0x04} :: Bit(control, mask) == Bit(body[1], mask)
    ensures StripNpdu(body, f) == StripNpdu(body[1 := control], f)
  {
    var other := body[1 := control];
    assert Bit(control, 0x80) == Bit(body[1], 0x80) && Bit(control, 0x20) == Bit(body[1], 0x20);
    assert Bit(control, 0x08) == Bit(body[1], 0x08) && Bit(control, 0x04) == Bit(body[1], 0x04);
    if Bit(control, 0x20) {
      SpecifierIsKept(body, other, 2);
    }
    var o := if Bit(control, 0x20) && ReadSpecifier(body, 2).Ok? then ReadSpecifier(body, 2).value.end else 2;
    SpecifierIsKept(body, other, o);
    assert forall i: nat | 2 <= i <= |body| :: body[i..] == other[i..];
  }

  function Weight(bit: bool, weight: byte): byte {
    if bit then weight else 0
  }

  lemma {:induction false} Bits(control: byte)
    requires NoReservedBits(control)
    ensures control as int == Weight(Bit(control, NET_MESSAGE), 0x80) + Weight(Bit(control, DEST_SPECIFIER), 0x20)
                              + Weight(Bit(control, SRC_SPECIFIER), 0x08) + Weight(Bit(control, EXPECTING_REPLY), 0x04)
                              + control % 4
  {
    var c: int := control;
    assert c == 64 * (c / 64) + c % 64;
    assert c / 64 == 2 * (c / 128) + c / 64 % 2;
    assert c / 16 == 4 * (c / 64) + 2 * (c / 32 % 2) + c / 16 % 2;
    assert c / 4 == 4 * (c / 16) + 2 * (c / 8 % 2) + c / 4 % 2;
    assert c == 4 * (c / 4) + c % 4;
  }

  lemma {:induction false} ControlIsDetermined(n: Npdu, control: byte)
    requires Legal(n) && NoReservedBits(control) && n.priority == control % 4
    requires n.netMessage == Bit(control, NET_MESSAGE) && n.destination.Some? == Bit(control, DEST_SPECIFIER)
    requires n.source.Some? == Bit(control, SRC_SPECIFIER) && n.expectingReply == Bit(control, EXPECTING_REPLY)
    ensures Control(n) == control
  {
    Bits(control);
  }

  /** The optional address at `offset`, and where it ends. */
  lemma {:induction false} OptionalAddress(
      body: seq<byte>, present: bool, offset: nat) returns (a: Option<Address>, end: nat)
    requires offset <= |body| && (present ==> ReadSpecifier(body, offset).Ok?)
    ensures a.Some? == present && (a.Some? ==> |a.value.mac| < 256) && offset <= end <= |body|
    ensures end == if present then ReadSpecifier(body, offset).value.end else offset
    ensures body[offset..end] == EncodeAddress(a)
  {
    if present {
      var address := SpecifierIsEncoded(body, offset);
      a, end := Some(address), ReadSpecifier(body, offset).value.end;
    } else {
      a, end := None, offset;
    }
  }

  lemma {:induction false} CutInFive(body: seq<byte>, i: nat, j: nat, k: nat)
    requires 2 <= i <= j <= k <= |body|
    ensures body == body[..2] + body[2..i] + body[i..j] + body[j..k] + body[k..]
  {
  }

  /** An NPDU that was stripped, its reserved bits zero, is the encoding of a legal one. */
  lemma {:induction false} StrippedIsEncoded(body: seq<byte>, f: byte) returns (n: Npdu)
    requires StripNpdu(body, f).Ok? && NoReservedBits(body[1])
    ensures Legal(n) && body == EncodeNpdu(n)
  {
    var control := body[1];
    var destination, i := OptionalAddress(body, Bit(control, DEST_SPECIFIER), 2);
    var source, j := OptionalAddress(body, Bit(control, SRC_SPECIFIER), i);
    var k := if destination.Some? then j + 1 else j;
    n := Npdu(Bit(control, NET_MESSAGE), destination, source, if destination.Some? then body[j] else 0,
              Bit(control, EXPECTING_REPLY), control % 4, body[k..]);
    ControlIsDetermined(n, control);
    CutInFive(body, i, j, k);
    assert body[..2] == [1, control];
    assert body[j..k] == if destination.Some? then [n.hops] else [];
  }

  /** The octets of the NPDU in a datagram that carries one. */
  function NpduOf(data: seq<byte>): seq<byte>
    requires LooksFramed(data) && Unwrap(data).Ok? && CarriesNpdu(data[1])
  {
    data[if data[1] == FORWARDED_NPDU then 4 + FORWARDED_ADDRESS_LEN else 4..ReadBe16(data[2], data[3])]
  }

  /** The carrier of an accepted datagram, and how its body is made up. */
  lemma {:induction false} CarrierOf(data: seq<byte>) returns (c: Carrier)
    requires LooksFramed(data) && Unwrap(data).Ok? && CarriesNpdu(data[1])
    ensures LegalCarrier(c) && CarrierFunction(c) == data[1]
    ensures data[4..ReadBe16(data[2], data[3])] == (if c.Forwarded? then c.origin else []) + NpduOf(data)
    ensures StripNpdu(NpduOf(data), data[1]).Ok?
  {
    var f, body := data[1], data[4..ReadBe16(data[2], data[3])];
    if f == FORWARDED_NPDU {
      assert body[FORWARDED_ADDRESS_LEN..] == NpduOf(data);
      c := Forwarded(body[..FORWARDED_ADDRESS_LEN]);
    } else {
      c := if f == ORIGINAL_UNICAST_NPDU then Unicast else Broadcast;
      assert [] + NpduOf(data) == NpduOf(data);
    }
  }

  lemma {:induction false} FramedIs(data: seq<byte>, f: byte, length: word, body: seq<byte>)
    requires LooksFramed(data) && data[1] == f && ReadBe16(data[2], data[3]) == length && 4 <= length as int <= |data|
    requires body == data[4..length]
    ensures data == [BVLC_TYPE, f] + Be16(length) + body + data[length..]
  {
    Be16OfRead(data[2], data[3]);
  }

  /**
   * Conversely, an NPDU-bearing datagram that is accepted, its reserved control bits zero, is the standard's encoding
   * of some legal NPDU, with octets after its declared length perhaps.
   */
  lemma {:induction false} UnwrappedIsEncoded(data: seq<byte>) returns (c: Carrier, n: Npdu, trailer: seq<byte>)
    requires LooksFramed(data) && Unwrap(data).Ok? && CarriesNpdu(data[1])
    requires |NpduOf(data)| >= 2 ==> NoReservedBits(NpduOf(data)[1])
    ensures Legal(n) && LegalCarrier(c) && |CarrierBody(c, n)| + 4 <= 0xFFFF
    ensures data == Encode(c, n) + trailer && Unwrap(data) == Ok(Received(c, n))
  {
    var length := ReadBe16(data[2], data[3]);
    c := CarrierOf(data);
    n := StrippedIsEncoded(NpduOf(data), data[1]);
    trailer := data[length..];
    FramedIs(data, data[1], length, CarrierBody(c, n));
    UnwrapInvertsEncode(c, n, trailer);
  }
}
