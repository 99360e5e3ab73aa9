/**
 * The layers under and of the S7 protocol: TPKT (section 6 of RFC 1006), COTP (section 13 of RFC 905) and the S7
 * header (conpot/protocols/s7comm/tpkt.py, cotp.py, s7.py).
 */
module IsoErrors {
  /** `Malformed` is ParseException, `Unsupported` AssembleException; `StructError` is an error of `struct` itself. */
  datatype Error = Malformed | Unsupported | StructError
}

module TpktLayer {
  import opened IsoErrors
  import opened Octets
  import opened Sequences
  import opened Wrappers

  type Data = seq<byte>

  datatype Header = Header(version: byte, reserved: byte, packetLength: nat, payload: Data)

  function Pack(h: Header): Result<Data, Error> {
    if h.packetLength > 0xFFFF then Err(StructError)
    else Ok([h.version, h.reserved] + Be16(h.packetLength) + h.payload)
  }

  /** The declared length counts the header, yet that many octets are taken after the header. */
  function Parse(packet: Data): Result<Header, Error> {
    if |packet| < 4 then Err(Malformed)
    else
      var length := ReadBe16(packet[2], packet[3]);
      Ok(Header(packet[0], packet[1], length, Slice(packet, 4, 4 + length)))
  }

  class TPKT {
    var version: byte
    var reserved: byte
    var packet_length: nat
    var payload: Data

    function View(): Header
      reads this
    {
      Header(version, reserved, packet_length, payload)
    }

    constructor (version: byte, payload: Data)
      ensures View() == Header(version, 0, |payload| + 4, payload)
    {
      this.version, reserved, packet_length, this.payload := version, 0, |payload| + 4, payload;
    }

    method ParseFrom(packet: Data) returns (failure: Option<Error>)
      modifies this
      ensures match Parse(packet)
        case Ok(h) => failure == None && View() == h
        case Err(e) => failure == Some(e) && View() == old(View())
    {
      if |packet| < 4 {
        return Some(Malformed);
      }
      version, reserved, packet_length := packet[0], packet[1], ReadBe16(packet[2], packet[3]);
      payload := Slice(packet, 4, 4 + packet_length);
      failure := None;
    }
  }

  /** Packing and parsing agree; of octets that follow the packet the first four are taken for payload. */
  lemma {:induction false} ParseInvertsPack(version: byte, payload: Data, extra: Data)
    requires |payload| + 4 <= 0xFFFF
    ensures var h := Header(version, 0, |payload| + 4, payload);
      Parse(Pack(h).value + extra) == Ok(h.(payload := payload + Slice(extra, 0, 4)))
  {
    var h := Header(version, 0, |payload| + 4, payload);
    var packet := Pack(h).value + extra;
    var head: Data := [version, 0] + Be16(h.packetLength);
    Be16RoundTrip(h.packetLength);
    assert packet == head + (payload + extra);
    assert packet[2] == head[2] && packet[3] == head[3];
    if |extra| <= 4 {
      assert Slice(extra, 0, 4) == extra;
      SliceRest(head, payload + extra, 4 + h.packetLength);
    } else {
      assert Slice(extra, 0, 4) == extra[..4];
      SplitAt(extra, 4);
      Assoc(payload, extra[..4], extra[4..]);
      SliceMiddle(head, payload + extra[..4], extra[4..]);
    }
  }

  /** So the payload comes back unchanged if and only if nothing follows the packet. */
  lemma {:induction false} PayloadIsExactIffNothingFollows(version: byte, payload: Data, extra: Data)
    requires |payload| + 4 <= 0xFFFF
    ensures var packet := Pack(Header(version, 0, |payload| + 4, payload)).value + extra;
      Parse(packet).value.payload == payload <==> extra == []
  {
    ParseInvertsPack(version, payload, extra);
    assert |payload + Slice(extra, 0, 4)| == |payload| + |Slice(extra, 0, 4)|;
  }

  /** Version, reserved octet, length in two octets, higher first; a length of more octets is refused. */
  lemma {:induction false} PackLayout(h: Header)
    ensures Pack(h) == Err(StructError) <==> h.packetLength > 65535
    ensures Pack(h).Ok? ==>
      var s := Pack(h).value;
      && |s| == 4 + |h.payload| && s[0] == h.version && s[1] == h.reserved
      && 256 * s[2] as int + s[3] as int == h.packetLength && s[4..] == h.payload
  {
    if Pack(h).Ok? {
      assert Pack(h).value[4..] == h.payload;
    }
  }

  /** Four octets are a header; what is declared and not there is missing from the payload. */
  lemma {:induction false} CutPacketIsParsed(head: Data, payload: Data)
    requires |head| == 4 && 256 * head[2] as int + head[3] as int >= |payload|
    ensures Parse(head + payload)
         == Ok(Header(head[0], head[1], 256 * head[2] as int + head[3] as int, payload))
  {
    SliceRest(head, payload, 4 + ReadBe16(head[2], head[3]));
  }

  lemma {:induction false} ShortHeaderIsRefused(packet: Data)
    ensures Parse(packet) == Err(Malformed) <==> |packet| < 4
  {
  }
}

module CotpLayer {
  import opened IsoErrors
  import opened Octets
  import opened Sequences
  import opened Wrappers

  type Data = seq<byte>

  const DATA: byte := 0xF0

  datatype Tpdu = Tpdu(packetLength: nat, tpduType: byte, optField: byte, payload: Data, trailer: Data)

  /** The constructor of `COTP`. */
  function NewTpdu(tpduType: byte, optField: byte, payload: Data, trailer: Data): Tpdu {
    Tpdu(if tpduType == DATA then 2 else 1 + |payload|, tpduType, optField, payload, trailer)
  }

  function Pack(t: Tpdu): Result<Data, Error> {
    if t.packetLength > 0xFF then Err(StructError)
    else Ok([t.packetLength as byte, t.tpduType] + (if t.tpduType == DATA then [t.optField] else [])
            + t.payload + t.trailer)
  }

  /** Parsing into an object whose option field is `optField`. */
  function Parse(packet: Data, optField: byte): Result<Tpdu, Error> {
    if |packet| < 3 then Err(Malformed)
    else
      var end := 1 + packet[0] as nat;
      var isData := packet[1] == DATA;
      Ok(Tpdu(packet[0] as nat, packet[1], if isData then packet[2] else optField,
              Slice(packet, if isData then 3 else 2, end), Slice(packet, end, |packet|)))
  }

  class COTP {
    var tpdu_type: byte
    var opt_field: byte
    var payload: Data
    var trailer: Data
    var packet_length: nat

    function View(): Tpdu
      reads this
    {
      Tpdu(packet_length, tpdu_type, opt_field, payload, trailer)
    }

    constructor (tpdu_type: byte, opt_field: byte, payload: Data, trailer: Data)
      ensures View() == NewTpdu(tpdu_type, opt_field, payload, trailer)
    {
      this.tpdu_type, this.opt_field, this.payload, this.trailer := tpdu_type, opt_field, payload, trailer;
      packet_length := if tpdu_type == DATA then 2 else 1 + |payload|;
    }

    method ParseFrom(packet: Data) returns (failure: Option<Error>)
      modifies this
      ensures match Parse(packet, old(opt_field))
        case Ok(t) => failure == None && View() == t
        case Err(e) => failure == Some(e) && View() == old(View())
    {
      if |packet| < 3 {
        return Some(Malformed);
      }
      packet_length, tpdu_type := packet[0] as nat, packet[1];
      trailer := Slice(packet, 1 + packet_length, |packet|);
      if tpdu_type == DATA {
        opt_field := packet[2];
        payload := Slice(packet, 3, 1 + packet_length);
      } else {
        payload := Slice(packet, 2, 1 + packet_length);
      }
      failure := None;
    }
  }

  /** A data TPDU keeps its option field; payload and trailer both arrive as trailer. */
  lemma {:induction false} DataArrivesAsTrailer(optField: byte, payload: Data, trailer: Data, old0: byte)
    ensures Parse(Pack(NewTpdu(DATA, optField, payload, trailer)).value, old0)
         == Ok(NewTpdu(DATA, optField, [], payload + trailer))
  {
    var head: Data := [2, DATA, optField];
    assert Pack(NewTpdu(DATA, optField, payload, trailer)).value == head + (payload + trailer);
    SliceRest(head, payload + trailer, |head + (payload + trailer)|);
  }

  /** Any other TPDU comes back if and only if it has an octet besides its header; its option field is not sent. */
  lemma {:induction false} OtherTpduRoundTrip(tpduType: byte, optField: byte, payload: Data, trailer: Data, old0: byte)
    requires tpduType != DATA && |payload| < 0xFF
    ensures Parse(Pack(NewTpdu(tpduType, optField, payload, trailer)).value, old0)
         == if payload + trailer == [] then Err(Malformed) else Ok(NewTpdu(tpduType, old0, payload, trailer))
  {
    var head: Data := [1 + |payload|, tpduType];
    var packet := head + (payload + trailer);
    assert Pack(NewTpdu(tpduType, optField, payload, trailer)).value == packet;
    Assoc(head, payload, trailer);
    SliceMiddle(head, payload, trailer);
    SliceRest(head + payload, trailer, |packet|);
    assert packet[0] == 1 + |payload| && |packet| == 2 + |payload + trailer|;
  }

  /** Length, type, and for data the option field; a length of more than one octet is refused. */
  lemma {:induction false} PackLayout(tpduType: byte, optField: byte, payload: Data, trailer: Data)
    ensures Pack(NewTpdu(tpduType, optField, payload, trailer))
         == if tpduType == 0xF0 then Ok([2, 0xF0, optField] + (payload + trailer))
            else if |payload| < 255 then Ok([1 + |payload|, tpduType] + (payload + trailer))
            else Err(StructError)
  {
    var t := NewTpdu(tpduType, optField, payload, trailer);
    if tpduType == 0xF0 {
      assert Pack(t).value == [2, 0xF0, optField] + (payload + trailer);
    } else if |payload| < 255 {
      assert Pack(t).value == [1 + |payload|, tpduType] + (payload + trailer);
    }
  }

  /** A data TPDU of which only its octets are known. */
  lemma {:induction false} DataTpduReads(length: byte, optField: byte, payload: Data, trailer: Data, old0: byte)
    requires length >= 2 && (|payload| == length as int - 2 || (|payload| < length as int - 2 && trailer == []))
    ensures Parse([length, 0xF0, optField] + (payload + trailer), old0)
         == Ok(Tpdu(length as nat, 0xF0, optField, payload, trailer))
  {
    var head: Data := [length, 0xF0, optField];
    var packet := head + (payload + trailer);
    var end := 1 + length as nat;
    if trailer == [] {
      assert payload + trailer == payload;
      SliceRest(head, payload, end);
    } else {
      SliceMiddle(head, payload, trailer);
    }
    Assoc(head, payload, trailer);
    if |payload| == length as int - 2 {
      SliceRest(head + payload, trailer, |packet|);
    }
  }

  lemma {:induction false} ShortTpduIsRefused(packet: Data, optField: byte)
    ensures Parse(packet, optField) == Err(Malformed) <==> |packet| < 3
  {
  }

  // ---------- Connection requests and confirmations ----------

  datatype Connection = Connection(
    dstRef: word, srcRef: word, optField: byte, srcTsap: word, dstTsap: word, tpduSize: word)

  const ZERO := Connection(0, 0, 0, 0, 0, 0)

  /** A parameter block: code, and a value of one or two octets. */
  datatype Param = Param(code: byte, octets: Data)

  predicate IsKnown(code: byte) {
    code == 0xC0 || code == 0xC1 || code == 0xC2
  }

  predicate IsParam(p: Param) {
    IsKnown(p.code) && (|p.octets| == 1 || |p.octets| == 2)
  }

  predicate AreParams(params: seq<Param>) {
    params == [] || (IsParam(params[0]) && AreParams(params[1..]))
  }

  function ParamValue(octets: Data): word
    requires |octets| == 1 || |octets| == 2
  {
    if |octets| == 1 then octets[0] else ReadBe16(octets[0], octets[1])
  }

  function Assign(c: Connection, code: byte, value: word): Connection
    requires IsKnown(code)
  {
    if code == 0xC1 then c.(srcTsap := value)
    else if code == 0xC2 then c.(dstTsap := value)
    else c.(tpduSize := value)
  }

  /** The field a parameter code names. */
  function FieldOf(c: Connection, code: byte): word
    requires IsKnown(code)
  {
    if code == 0xC1 then c.srcTsap else if code == 0xC2 then c.dstTsap else c.tpduSize
  }

  function DissectParams(c: Connection, chunk: Data): Result<Connection, Error>
    decreases |chunk|
  {
    if chunk == [] then Ok(c)
    else if |chunk| < 2 then Err(StructError)
    else if chunk[1] != 1 && chunk[1] != 2 then Err(Malformed)
    else if |chunk| < 2 + chunk[1] as int then Err(StructError)
    else if !IsKnown(chunk[0]) then Err(Malformed)
    else
      var end := 2 + chunk[1] as int;
      DissectParams(Assign(c, chunk[0], ParamValue(chunk[2..end])), chunk[end..])
  }

  /** `dissect` on an object whose parameter fields are those of `c`. */
  function Dissect(c: Connection, packet: Data): Result<Connection, Error> {
    if |packet| < 5 then Err(Malformed)
    else
      var fixed := c.(dstRef := ReadBe16(packet[0], packet[1]), srcRef := ReadBe16(packet[2], packet[3]),
                      optField := packet[4]);
      DissectParams(fixed, packet[5..])
  }

  function FixedPart(c: Connection): Data {
    Be16(c.dstRef) + Be16(c.srcRef) + [c.optField]
  }

  function EncodeParams(params: seq<Param>): Data
    requires AreParams(params)
  {
    if params == [] then []
    else [params[0].code, |params[0].octets|] + params[0].octets + EncodeParams(params[1..])
  }

  function ConfirmParams(c: Connection): (params: seq<Param>)
    ensures AreParams(params)
  {
    [Param(0xC1, Be16(c.srcTsap)), Param(0xC2, Be16(c.dstTsap))]
  }

  function RequestParams(c: Connection): (params: seq<Param>)
    requires c.tpduSize <= 0xFF
    ensures AreParams(params)
  {
    var size := [Param(0xC0, [c.tpduSize as byte])];
    var params := ConfirmParams(c) + size;
    assert AreParams(params) by {
      assert params[1..][1..] == size && AreParams(size);
      assert AreParams(params[1..]);
    }
    params
  }

  lemma {:induction false} ConfirmOctets(c: Connection)
    ensures EncodeParams(ConfirmParams(c)) == [0xC1, 0x02] + Be16(c.srcTsap) + ([0xC2, 0x02] + Be16(c.dstTsap))
  {
    var params := ConfirmParams(c);
    var second := params[1..];
    assert second == [params[1]] && second[1..] == [];
    assert EncodeParams(second[1..]) == [];
    assert EncodeParams(second) == [0xC2, 0x02] + Be16(c.dstTsap);
    assert params[0] == Param(0xC1, Be16(c.srcTsap));
    assert EncodeParams(params) == [0xC1, 0x02] + Be16(c.srcTsap) + EncodeParams(second);
  }

  lemma {:induction false} RequestOctets(c: Connection)
    requires c.tpduSize <= 0xFF
    ensures EncodeParams(RequestParams(c))
         == [0xC1, 0x02] + Be16(c.srcTsap) + ([0xC2, 0x02] + Be16(c.dstTsap) + [0xC0, 0x01, c.tpduSize as byte])
  {
    var params := RequestParams(c);
    var second := params[1..];
    var third := second[1..];
    assert second == [params[1], params[2]] && third == [params[2]] && third[1..] == [];
    assert EncodeParams(third) == [0xC0, 0x01, c.tpduSize as byte];
    assert EncodeParams(second) == [0xC2, 0x02] + Be16(c.dstTsap) + EncodeParams(third);
  }

  class COTPConnectionPacket {
    var dst_ref: word
    var src_ref: word
    var opt_field: byte
    var src_tsap: word
    var dst_tsap: word
    var tpdu_size: word

    function View(): Connection
      reads this
    {
      Connection(dst_ref, src_ref, opt_field, src_tsap, dst_tsap, tpdu_size)
    }

    /** The constructor of the base class. */
    constructor (c: Connection)
      ensures View() == c
    {
      dst_ref, src_ref, opt_field := c.dstRef, c.srcRef, c.optField;
      src_tsap, dst_tsap, tpdu_size := c.srcTsap, c.dstTsap, c.tpduSize;
    }

    /** `super().__init__()`, run on an object that has fields already. */
    method Initialize()
      modifies this
      ensures View() == ZERO
    {
      dst_ref, src_ref, opt_field, src_tsap, dst_tsap, tpdu_size := 0, 0, 0, 0, 0, 0;
    }

    /** The constructors of COTP_ConnectionRequest and COTP_ConnectionConfirm: the last call undoes the assignments. */
    constructor Subclass(c: Connection)
      ensures View() == ZERO
    {
      dst_ref, src_ref, opt_field := c.dstRef, c.srcRef, c.optField;
      src_tsap, dst_tsap, tpdu_size := c.srcTsap, c.dstTsap, c.tpduSize;
      new;
      Initialize();
    }

    /** `COTP_ConnectionConfirm.assemble`. */
    method AssembleConfirm() returns (packet: Data)
      ensures packet == FixedPart(View()) + EncodeParams(ConfirmParams(View()))
    {
      var start: Data := Be16(dst_ref) + Be16(src_ref) + [opt_field];
      packet := start + ([0xC1, 0x02] + Be16(src_tsap) + ([0xC2, 0x02] + Be16(dst_tsap)));
      ConfirmOctets(View());
    }

    /** `COTP_ConnectionRequest.assemble`; `None` where `pack` refuses a size of two octets. */
    method AssembleRequest() returns (packet: Option<Data>)
      ensures packet == if tpdu_size > 0xFF then None
        else Some(FixedPart(View()) + EncodeParams(RequestParams(View())))
    {
      if tpdu_size > 0xFF {
        return None;
      }
      var start: Data := Be16(dst_ref) + Be16(src_ref) + [opt_field];
      var size: byte := tpdu_size;
      var octets: Data :=
        start + ([0xC1, 0x02] + Be16(src_tsap) + ([0xC2, 0x02] + Be16(dst_tsap) + [0xC0, 0x01, size]));
      packet := Some(octets);
      RequestOctets(View());
    }

    method DissectFrom(packet: Data) returns (failure: Option<Error>)
      modifies this
      ensures match Dissect(old(View()), packet)
        case Ok(c) => failure == None && View() == c
        case Err(e) => failure == Some(e)
    {
      if |packet| < 5 {
        return Some(Malformed);
      }
      dst_ref, src_ref, opt_field := ReadBe16(packet[0], packet[1]), ReadBe16(packet[2], packet[3]), packet[4];
      var chunk := packet[5..];
      while |chunk| > 0
        invariant DissectParams(View(), chunk) == Dissect(old(View()), packet)
        decreases |chunk|
      {
        if |chunk| < 2 {
          return Some(StructError);
        }
        var code, length: nat := chunk[0], chunk[1] as nat;
        if length != 1 && length != 2 {
          return Some(Malformed);
        }
        if |chunk| < 2 + length {
          return Some(StructError);
        }
        var value := ParamValue(chunk[2..2 + length]);
        if code == 0xC1 {
          src_tsap := value;
        } else if code == 0xC2 {
          dst_tsap := value;
        } else if code == 0xC0 {
          tpdu_size := value;
        } else {
          return Some(Malformed);
        }
        chunk := chunk[2 + length..];
      }
      failure := None;
    }
  }

  // ---------- What dissecting recovers ----------

  /** The parameters assigned one after the other. */
  function AssignAll(c: Connection, params: seq<Param>): Connection
    requires AreParams(params)
    decreases |params|
  {
    if params == [] then c
    else AssignAll(Assign(c, params[0].code, ParamValue(params[0].octets)), params[1..])
  }

  lemma {:induction false} DissectsParams(c: Connection, params: seq<Param>)
    requires AreParams(params)
    ensures DissectParams(c, EncodeParams(params)) == Ok(AssignAll(c, params))
    decreases |params|
  {
    if params != [] {
      var p := params[0];
      assert p in params;
      var chunk := EncodeParams(params);
      assert chunk[2..2 + |p.octets|] == p.octets && chunk[2 + |p.octets|..] == EncodeParams(params[1..]);
      DissectsParams(Assign(c, p.code, ParamValue(p.octets)), params[1..]);
    }
  }

  lemma {:induction false} MemberIsParam(params: seq<Param>, p: Param)
    requires AreParams(params) && p in params
    ensures IsParam(p)
    decreases |params|
  {
    if p != params[0] {
      MemberIsParam(params[1..], p);
    }
  }

  predicate DistinctCodes(params: seq<Param>) {
    params == [] || ((forall p | p in params[1..] :: p.code != params[0].code) && DistinctCodes(params[1..]))
  }

  lemma {:induction false} OtherFieldsStay(c: Connection, params: seq<Param>, code: byte)
    requires AreParams(params) && IsKnown(code) && (forall p | p in params :: p.code != code)
    ensures FieldOf(AssignAll(c, params), code) == FieldOf(c, code)
    decreases |params|
  {
    if params != [] {
      assert params[0] in params;
      OtherFieldsStay(Assign(c, params[0].code, ParamValue(params[0].octets)), params[1..], code);
    }
  }

  /** Each block sets its own field. */
  lemma {:induction false} FieldIsSet(c: Connection, params: seq<Param>, p: Param)
    requires AreParams(params) && DistinctCodes(params) && p in params && IsParam(p)
    ensures FieldOf(AssignAll(c, params), p.code) == ParamValue(p.octets)
    decreases |params|
  {
    var c' := Assign(c, params[0].code, ParamValue(params[0].octets));
    if p in params[1..] {
      FieldIsSet(c', params[1..], p);
    } else {
      OtherFieldsStay(c', params[1..], p.code);
    }
  }

  lemma {:induction false} FixedFieldsStay(c: Connection, params: seq<Param>)
    requires AreParams(params)
    ensures var a := AssignAll(c, params);
      a.dstRef == c.dstRef && a.srcRef == c.srcRef && a.optField == c.optField
    decreases |params|
  {
    if params != [] {
      assert params[0] in params;
      FixedFieldsStay(Assign(c, params[0].code, ParamValue(params[0].octets)), params[1..]);
    }
  }

  /** One field, whatever the order of the blocks. */
  lemma {:induction false} FieldIgnoresOrder(c: Connection, params: seq<Param>, others: seq<Param>, code: byte)
    requires AreParams(params) && AreParams(others)
    requires DistinctCodes(params) && DistinctCodes(others)
    requires (forall p :: p in params <==> p in others) && IsKnown(code)
    ensures FieldOf(AssignAll(c, params), code) == FieldOf(AssignAll(c, others), code)
  {
    if exists p :: p in params && p.code == code {
      var p :| p in params && p.code == code;
      MemberIsParam(params, p);
      FieldIsSet(c, params, p);
      FieldIsSet(c, others, p);
    } else {
      OtherFieldsStay(c, params, code);
      OtherFieldsStay(c, others, code);
    }
  }

  lemma {:induction false} DissectsOne(c: Connection, p: Param, rest: Data)
    requires IsParam(p)
    ensures DissectParams(c, [p.code, |p.octets|] + p.octets + rest)
         == DissectParams(Assign(c, p.code, ParamValue(p.octets)), rest)
  {
    var chunk := [p.code, |p.octets|] + p.octets + rest;
    assert chunk[2..2 + |p.octets|] == p.octets && chunk[2 + |p.octets|..] == rest;
  }

  /** After valid blocks the rest is dissected with what they assigned. */
  lemma {:induction false} DissectsBefore(c: Connection, params: seq<Param>, tail: Data)
    requires AreParams(params)
    ensures DissectParams(c, EncodeParams(params) + tail) == DissectParams(AssignAll(c, params), tail)
    decreases |params|
  {
    if params == [] {
      assert EncodeParams(params) + tail == tail;
    } else {
      var p := params[0];
      Assoc([p.code, |p.octets|] + p.octets, EncodeParams(params[1..]), tail);
      DissectsOne(c, p, EncodeParams(params[1..]) + tail);
      DissectsBefore(Assign(c, p.code, ParamValue(p.octets)), params[1..], tail);
    }
  }

  /**
   * Blocks that end the parse, wherever they stand: one cut off in its header or in its value, one with a value of
   * neither one nor two octets, and one with another code.
   */
  lemma {:induction false} BrokenBlockRaises(c: Connection, fixed: Connection, params: seq<Param>, tail: Data)
    requires AreParams(params) && tail != []
    ensures var r := Dissect(c, FixedPart(fixed) + (EncodeParams(params) + tail));
      && (|tail| == 1 ==> r == Err(StructError))
      && (|tail| >= 2 && tail[1] != 1 && tail[1] != 2 ==> r == Err(Malformed))
      && (|tail| >= 2 && (tail[1] == 1 || tail[1] == 2) && |tail| < 2 + tail[1] as int ==> r == Err(StructError))
      && (|tail| >= 3 && (tail[1] == 1 || (tail[1] == 2 && |tail| >= 4)) && tail[0] !in {0xC0, 0xC1, 0xC2} ==>
            r == Err(Malformed))
  {
    var packet := FixedPart(fixed) + (EncodeParams(params) + tail);
    assert packet[5..] == EncodeParams(params) + tail;
    Be16RoundTrip(fixed.dstRef);
    Be16RoundTrip(fixed.srcRef);
    DissectsBefore(c.(dstRef := fixed.dstRef, srcRef := fixed.srcRef, optField := fixed.optField), params, tail);
  }

  /** The references, higher octet first, and the option field; fewer octets are refused. */
  lemma {:induction false} FixedPartLayout(c: Connection)
    ensures var s := FixedPart(c);
      && |s| == 5 && 256 * s[0] as int + s[1] as int == c.dstRef && 256 * s[2] as int + s[3] as int == c.srcRef
      && s[4] == c.optField
    ensures forall k: nat | k < 5 :: Dissect(c, FixedPart(c)[..k]) == Err(Malformed)
  {
  }

  lemma {:induction false} DissectsBlocks(c: Connection, fixed: Connection, params: seq<Param>)
    requires AreParams(params)
    ensures Dissect(c, FixedPart(fixed) + EncodeParams(params))
         == Ok(AssignAll(c.(dstRef := fixed.dstRef, srcRef := fixed.srcRef, optField := fixed.optField), params))
  {
    var packet := FixedPart(fixed) + EncodeParams(params);
    assert packet[5..] == EncodeParams(params);
    Be16RoundTrip(fixed.dstRef);
    Be16RoundTrip(fixed.srcRef);
    DissectsParams(c.(dstRef := fixed.dstRef, srcRef := fixed.srcRef, optField := fixed.optField), params);
  }

  /** The order of the parameter blocks does not matter while no code occurs twice. */
  lemma {:induction false} DissectIgnoresOrder(c: Connection, fixed: Connection, params: seq<Param>, others: seq<Param>)
    requires AreParams(params) && AreParams(others)
    requires DistinctCodes(params) && DistinctCodes(others) && (forall p :: p in params <==> p in others)
    ensures Dissect(c, FixedPart(fixed) + EncodeParams(params)) == Dissect(c, FixedPart(fixed) + EncodeParams(others))
  {
    var f := c.(dstRef := fixed.dstRef, srcRef := fixed.srcRef, optField := fixed.optField);
    DissectsBlocks(c, fixed, params);
    DissectsBlocks(c, fixed, others);
    FixedFieldsStay(f, params);
    FixedFieldsStay(f, others);
    FieldIgnoresOrder(f, params, others, 0xC0);
    FieldIgnoresOrder(f, params, others, 0xC1);
    FieldIgnoresOrder(f, params, others, 0xC2);
  }

  lemma {:induction false} AssignsAddresses(c: Connection, sent: Connection, rest: seq<Param>)
    requires AreParams(rest)
    ensures AreParams(ConfirmParams(sent) + rest)
    ensures AssignAll(c, ConfirmParams(sent) + rest)
         == AssignAll(c.(srcTsap := sent.srcTsap, dstTsap := sent.dstTsap), rest)
  {
    Be16RoundTrip(sent.srcTsap);
    Be16RoundTrip(sent.dstTsap);
    var params := ConfirmParams(sent) + rest;
    assert params[1..] == [params[1]] + rest && params[1..][1..] == rest;
  }

  /** A connection request comes back whole, whatever the receiving object held; a confirmation all but its size. */
  lemma {:induction false} DissectInvertsAssemble(c: Connection, sent: Connection)
    ensures sent.tpduSize <= 0xFF ==> Dissect(c, FixedPart(sent) + EncodeParams(RequestParams(sent))) == Ok(sent)
    ensures Dissect(c, FixedPart(sent) + EncodeParams(ConfirmParams(sent))) == Ok(sent.(tpduSize := c.tpduSize))
  {
    var f := c.(dstRef := sent.dstRef, srcRef := sent.srcRef, optField := sent.optField);
    DissectsBlocks(c, sent, ConfirmParams(sent));
    AssignsAddresses(f, sent, []);
    assert ConfirmParams(sent) + [] == ConfirmParams(sent);
    if sent.tpduSize <= 0xFF {
      var size := [Param(0xC0, [sent.tpduSize as byte])];
      DissectsBlocks(c, sent, RequestParams(sent));
      AssignsAddresses(f, sent, size);
      assert size[1..] == [];
    }
  }
}

module ConnectionSetup {
  import opened CotpLayer
  import opened Octets
  import opened Wrappers

  /** What the server passes to the constructor of the confirmation. */
  function Intended(request: Connection): Connection {
    Connection(request.srcRef, request.dstRef, 0, request.srcTsap, request.dstTsap, 0x0A)
  }

  function Confirmation(c: Connection): seq<byte> {
    FixedPart(c) + EncodeParams(ConfirmParams(c))
  }

  /** The server's answer to a connection request. */
  method Confirm(request: Connection) returns (packet: seq<byte>)
    ensures packet == Confirmation(ZERO)
  {
    var response := new COTPConnectionPacket.Subclass(Intended(request));
    packet := response.AssembleConfirm();
  }

  /** References and addresses zero, and no size. */
  lemma {:induction false} ConfirmationOctets()
    ensures Confirmation(ZERO) == [0, 0, 0, 0, 0] + [0xC1, 2, 0, 0] + [0xC2, 2, 0, 0]
  {
    ConfirmOctets(ZERO);
  }

  /** What was meant: the request's references and addresses as they are. */
  lemma {:induction false} IntendedIsRead(request: Connection, c: Connection)
    ensures Dissect(c, Confirmation(Intended(request)))
         == Ok(Connection(request.srcRef, request.dstRef, 0, request.srcTsap, request.dstTsap, c.tpduSize))
  {
    DissectInvertsAssemble(c, Intended(request));
  }

  /** It reads like the intended answer if and only if the request's references and addresses are all zero. */
  lemma {:induction false} ConfirmationEchoesOnlyZero(request: Connection, c: Connection)
    ensures Dissect(c, Confirmation(ZERO)) == Dissect(c, Confirmation(Intended(request)))
       <==> request.srcRef == 0 && request.dstRef == 0 && request.srcTsap == 0 && request.dstTsap == 0
  {
    DissectInvertsAssemble(c, ZERO);
    DissectInvertsAssemble(c, Intended(request));
  }
}

module S7Layer {
  import opened IsoErrors
  import opened Octets
  import opened Sequences
  import opened Wrappers

  type Data = seq<byte>

  const MAGIC: byte := 0x32

  /** `parse` stores the tuple that `unpack` returns. */
  datatype ResultInfo = Number(n: word) | Tuple(n: word)

  datatype Packet = Packet(
    pduType: byte, reserved: word, requestId: word, resultInfo: ResultInfo, parameters: Data, data: Data)

  predicate IsSupported(pduType: byte) {
    pduType in {1, 2, 3, 7}
  }

  predicate HasResult(pduType: byte) {
    pduType == 2 || pduType == 3
  }

  /** `__len__`. */
  function Length(p: Packet): nat {
    (if HasResult(p.pduType) then 12 else 10) + |p.parameters| + |p.data|
  }

  function FixedHeader(p: Packet): (h: Data)
    requires |p.parameters| <= 0xFFFF && |p.data| <= 0xFFFF
    ensures |h| == 10
  {
    [MAGIC, p.pduType] + Be16(p.reserved) + Be16(p.requestId) + Be16(|p.parameters|) + Be16(|p.data|)
  }

  function Pack(p: Packet): Result<Data, Error> {
    if !IsSupported(p.pduType) then Err(Unsupported)
    else if |p.parameters| > 0xFFFF || |p.data| > 0xFFFF then Err(StructError)
    else if !HasResult(p.pduType) then Ok(FixedHeader(p) + (p.parameters + p.data))
    else if p.resultInfo.Tuple? then Err(StructError)
    else Ok(FixedHeader(p) + Be16(p.resultInfo.n) + (p.parameters + p.data))
  }

  /** `parse` into an object whose result information is `info`. */
  function Parse(packet: Data, info: ResultInfo): Result<Packet, Error> {
    if |packet| < 10 || packet[0] != MAGIC then Err(Malformed)
    else if HasResult(packet[1]) && |packet| < 12 then Err(StructError)
    else
      var start := if HasResult(packet[1]) then 12 else 10;
      var middle := start + ReadBe16(packet[6], packet[7]);
      var parameters := Slice(packet, start, middle);
      if parameters == [] then Err(Malformed)
      else Ok(Packet(packet[1], ReadBe16(packet[2], packet[3]), ReadBe16(packet[4], packet[5]),
                     if HasResult(packet[1]) then Tuple(ReadBe16(packet[10], packet[11])) else info,
                     parameters, Slice(packet, middle, middle + ReadBe16(packet[8], packet[9]))))
  }

  class S7 {
    var pdu_type: byte
    var reserved: word
    var request_id: word
    var result_info: ResultInfo
    var param_length: nat
    var data_length: nat
    var parameters: Data
    var data: Data

    function View(): Packet
      reads this
    {
      Packet(pdu_type, reserved, request_id, result_info, parameters, data)
    }

    constructor (p: Packet)
      ensures View() == p && param_length == |p.parameters| && data_length == |p.data|
    {
      pdu_type, reserved, request_id, result_info := p.pduType, p.reserved, p.requestId, p.resultInfo;
      param_length, data_length, parameters, data := |p.parameters|, |p.data|, p.parameters, p.data;
    }

    method ParseFrom(packet: Data) returns (failure: Option<Error>)
      modifies this
      ensures match Parse(packet, old(result_info))
        case Ok(p) => failure == None && View() == p
          && param_length == ReadBe16(packet[6], packet[7]) && data_length == ReadBe16(packet[8], packet[9])
        case Err(e) => failure == Some(e)
    {
      if |packet| < 10 || packet[0] != MAGIC {
        return Some(Malformed);
      }
      pdu_type, reserved := packet[1], ReadBe16(packet[2], packet[3]);
      request_id, param_length := ReadBe16(packet[4], packet[5]), ReadBe16(packet[6], packet[7]);
      data_length := ReadBe16(packet[8], packet[9]);
      var offset := 0;
      if HasResult(pdu_type) {
        if |packet| < 12 {
          return Some(StructError);
        }
        result_info := Tuple(ReadBe16(packet[10], packet[11]));
        offset := 2;
      }
      parameters := Slice(packet, 10 + offset, 10 + offset + param_length);
      data := Slice(packet, 10 + offset + param_length, 10 + offset + param_length + data_length);
      if parameters == [] {
        return Some(Malformed);
      }
      failure := None;
    }
  }

  predicate Fits(p: Packet) {
    && IsSupported(p.pduType) && |p.parameters| <= 0xFFFF && |p.data| <= 0xFFFF
    && (HasResult(p.pduType) ==> p.resultInfo.Number?)
  }

  lemma {:induction false} PackFits(p: Packet)
    ensures Pack(p).Ok? <==> Fits(p)
    ensures Pack(p).Ok? ==> |Pack(p).value| == Length(p)
  {
  }

  /** What `parse` makes of a packet: the result information becomes a tuple, or keeps what the object held. */
  function Parsed(p: Packet, info: ResultInfo): Packet {
    p.(resultInfo := if HasResult(p.pduType) then Tuple(p.resultInfo.n) else info)
  }

  lemma {:induction false} HeaderReads(p: Packet, rest: Data)
    requires |p.parameters| <= 0xFFFF && |p.data| <= 0xFFFF
    ensures var s := FixedHeader(p) + rest;
      && |s| >= 10 && s[0] == MAGIC && s[1] == p.pduType && s[10..] == rest
      && ReadBe16(s[2], s[3]) == p.reserved && ReadBe16(s[4], s[5]) == p.requestId
      && ReadBe16(s[6], s[7]) == |p.parameters| && ReadBe16(s[8], s[9]) == |p.data|
  {
    Be16RoundTrip(p.reserved);
    Be16RoundTrip(p.requestId);
    Be16RoundTrip(|p.parameters|);
    Be16RoundTrip(|p.data|);
  }

  lemma {:induction false} BodyIsCut(head: Data, parameters: Data, data: Data, extra: Data)
    ensures var s := head + (parameters + data) + extra;
      var middle := |head| + |parameters|;
      Slice(s, |head|, middle) == parameters && Slice(s, middle, middle + |data|) == data
  {
    Assoc(head, parameters + data, extra);
    Assoc(parameters, data, extra);
    SliceMiddle(head, parameters, data + extra);
    Assoc(head, parameters, data + extra);
    SliceMiddle(head + parameters, data, extra);
  }

  /** `parse` on octets of which only the fields it reads are known. */
  lemma {:induction false} ParseReads(s: Data, p: Packet, info: ResultInfo)
    requires |s| >= 10 && s[0] == MAGIC && s[1] == p.pduType
    requires ReadBe16(s[2], s[3]) == p.reserved && ReadBe16(s[4], s[5]) == p.requestId
    requires ReadBe16(s[6], s[7]) == |p.parameters| && ReadBe16(s[8], s[9]) == |p.data|
    requires HasResult(p.pduType) ==> |s| >= 12 && ReadBe16(s[10], s[11]) == p.resultInfo.n
    requires var start := if HasResult(p.pduType) then 12 else 10;
      var middle := start + |p.parameters|;
      Slice(s, start, middle) == p.parameters && Slice(s, middle, middle + |p.data|) == p.data
    ensures Parse(s, info) == if p.parameters == [] then Err(Malformed) else Ok(Parsed(p, info))
  {
  }

  lemma {:induction false} ParseWithResult(p: Packet, info: ResultInfo, extra: Data)
    requires Fits(p) && HasResult(p.pduType)
    ensures Parse(Pack(p).value + extra, info)
         == if p.parameters == [] then Err(Malformed) else Ok(Parsed(p, info))
  {
    var h, result, body := FixedHeader(p), Be16(p.resultInfo.n), p.parameters + p.data;
    var s := h + result + body + extra;
    assert Pack(p).value + extra == s;
    Be16RoundTrip(p.resultInfo.n);
    Assoc(h + result, body, extra);
    Assoc(h, result, body + extra);
    HeaderReads(p, result + (body + extra));
    assert s[10] == result[0] && s[11] == result[1];
    BodyIsCut(h + result, p.parameters, p.data, extra);
    ParseReads(s, p, info);
  }

  lemma {:induction false} ParseWithoutResult(p: Packet, info: ResultInfo, extra: Data)
    requires Fits(p) && !HasResult(p.pduType)
    ensures Parse(Pack(p).value + extra, info)
         == if p.parameters == [] then Err(Malformed) else Ok(Parsed(p, info))
  {
    var h, body := FixedHeader(p), p.parameters + p.data;
    var s := h + body + extra;
    assert Pack(p).value + extra == s;
    Assoc(h, body, extra);
    HeaderReads(p, body + extra);
    BodyIsCut(h, p.parameters, p.data, extra);
    ParseReads(s, p, info);
  }

  /** Parsing undoes packing if and only if there are parameters, whatever follows the packet. */
  lemma {:induction false} ParseInvertsPack(p: Packet, info: ResultInfo, extra: Data)
    requires Fits(p)
    ensures Parse(Pack(p).value + extra, info)
         == if p.parameters == [] then Err(Malformed) else Ok(Parsed(p, info))
  {
    if HasResult(p.pduType) {
      ParseWithResult(p, info, extra);
    } else {
      ParseWithoutResult(p, info, extra);
    }
  }

  /** The header octet by octet, numbers with their higher octet first, then parameters and data. */
  lemma {:induction false} PackLayout(p: Packet)
    requires Fits(p)
    ensures var s, start := Pack(p).value, if p.pduType == 2 || p.pduType == 3 then 12 else 10;
      && |s| == start + |p.parameters| + |p.data| && s[0] == 0x32 && s[1] == p.pduType
      && 256 * s[2] as int + s[3] as int == p.reserved && 256 * s[4] as int + s[5] as int == p.requestId
      && 256 * s[6] as int + s[7] as int == |p.parameters| && 256 * s[8] as int + s[9] as int == |p.data|
      && (start == 12 ==> 256 * s[10] as int + s[11] as int == p.resultInfo.n)
      && s[start..start + |p.parameters|] == p.parameters && s[start + |p.parameters|..] == p.data
  {
    var h, body := FixedHeader(p), p.parameters + p.data;
    var reserved, id, params, data := Be16(p.reserved), Be16(p.requestId), Be16(|p.parameters|), Be16(|p.data|);
    assert h[2] == reserved[0] && h[3] == reserved[1] && h[4] == id[0] && h[5] == id[1];
    assert h[6] == params[0] && h[7] == params[1] && h[8] == data[0] && h[9] == data[1];
    if HasResult(p.pduType) {
      var info := Be16(p.resultInfo.n);
      assert Pack(p).value == h + info + body && (h + info)[10] == info[0] && (h + info)[11] == info[1];
    }
  }

  /** Which values cannot be packed: other types, lengths of more than two octets, and the result of a parse. */
  lemma {:induction false} PackRefuses(p: Packet)
    ensures Pack(p) == Err(Unsupported) <==> p.pduType !in {1, 2, 3, 7}
    ensures Pack(p) == Err(StructError) <==>
      p.pduType in {1, 2, 3, 7}
      && (|p.parameters| > 65535 || |p.data| > 65535 || (p.pduType in {2, 3} && p.resultInfo.Tuple?))
  {
  }

  /** Which octets cannot be parsed: too few, another magic number, a result cut off, and no parameters. */
  lemma {:induction false} ParseRefuses(packet: Data, info: ResultInfo)
    ensures |packet| < 10 || packet[0] != 0x32 ==> Parse(packet, info) == Err(Malformed)
    ensures |packet| >= 10 && packet[0] == 0x32 ==>
      (Parse(packet, info) == Err(StructError) <==> packet[1] in {2, 3} && |packet| < 12)
    ensures |packet| >= 10 && packet[0] == 0x32 && !(packet[1] in {2, 3} && |packet| < 12) ==>
      (Parse(packet, info) == Err(Malformed)
       <==> (packet[6] == packet[7] == 0) || |packet| == (if packet[1] in {2, 3} then 12 else 10))
  {
  }

  /** Parameters that are not all there are taken as far as they go, and then there are no data. */
  lemma {:induction false} CutParametersAreParsed(head: Data, parameters: Data, info: ResultInfo)
    requires |head| == 10 && head[0] == 0x32 && head[1] != 2 && head[1] != 3 && parameters != []
    requires 256 * head[6] as int + head[7] as int > |parameters|
    ensures Parse(head + parameters, info).Ok?
    ensures Parse(head + parameters, info).value.parameters == parameters
    ensures Parse(head + parameters, info).value.data == []
  {
    SliceRest(head, parameters, 10 + ReadBe16(head[6], head[7]));
  }

  /** Data that are not all there likewise. */
  lemma {:induction false} CutDataAreParsed(head: Data, parameters: Data, data: Data, info: ResultInfo)
    requires |head| == 10 && head[0] == 0x32 && head[1] != 2 && head[1] != 3 && parameters != []
    requires 256 * head[6] as int + head[7] as int == |parameters|
    requires 256 * head[8] as int + head[9] as int > |data|
    ensures Parse(head + (parameters + data), info).Ok?
    ensures Parse(head + (parameters + data), info).value.parameters == parameters
    ensures Parse(head + (parameters + data), info).value.data == data
  {
    SliceMiddle(head, parameters, data);
    Assoc(head, parameters, data);
    SliceRest(head + parameters, data, 10 + |parameters| + ReadBe16(head[8], head[9]));
  }

  /** A parsed packet can be packed again exactly when its type is supported and has no result information. */
  lemma {:induction false} RepackNeedsNoResult(packet: Data, info: ResultInfo)
    requires Parse(packet, info).Ok?
    ensures Pack(Parse(packet, info).value).Ok? <==> packet[1] == 1 || packet[1] == 7
  {
    PackFits(Parse(packet, info).value);
  }
}

module IsoOnTcp {
  import opened IsoErrors
  import opened Octets
  import opened Sequences
  import opened Wrappers
  import Cotp = CotpLayer
  import S7 = S7Layer
  import Tpkt = TpktLayer

  type Data = seq<byte>

  /** An S7 packet inside a data TPDU inside a TPKT packet, as the server nests them. */
  function Nest(p: S7.Packet, optField: byte): Result<Data, Error> {
    var s7 := S7.Pack(p);
    if s7.Err? then s7
    else
      var cotp := Cotp.Pack(Cotp.NewTpdu(Cotp.DATA, optField, s7.value, []));
      if cotp.Err? then cotp
      else Tpkt.Pack(Tpkt.Header(3, 0, |cotp.value| + 4, cotp.value))
  }

  /** The three parsers one after the other, each on a new object. */
  function Unnest(packet: Data): Result<S7.Packet, Error> {
    var tpkt := Tpkt.Parse(packet);
    if tpkt.Err? then Err(tpkt.error)
    else
      var cotp := Cotp.Parse(tpkt.value.payload, 0);
      if cotp.Err? then Err(cotp.error)
      else if cotp.value.tpduType != Cotp.DATA then Err(Malformed)
      else S7.Parse(cotp.value.trailer, S7.Number(0))
  }

  /** The outer length is 7 more than the S7 length. */
  lemma {:induction false} OuterLength(p: S7.Packet, optField: byte)
    ensures Nest(p, optField).Ok? <==> S7.Fits(p) && S7.Length(p) + 7 <= 0xFFFF
    ensures Nest(p, optField).Ok? ==>
      var packet := Nest(p, optField).value;
      |packet| == S7.Length(p) + 7 && Tpkt.Parse(packet).Ok? && Tpkt.Parse(packet).value.packetLength == |packet|
  {
    S7.PackFits(p);
    if S7.Fits(p) {
      var cotp := Cotp.Pack(Cotp.NewTpdu(Cotp.DATA, optField, S7.Pack(p).value, [])).value;
      if |cotp| + 4 <= 0xFFFF {
        Tpkt.ParseInvertsPack(3, cotp, []);
        assert Nest(p, optField).value + [] == Nest(p, optField).value;
      }
    }
  }

  /** The two outer layers hand the S7 octets on, and up to four more. */
  lemma {:induction false} OuterLayersHandOn(s7: Data, optField: byte, extra: Data)
    requires |s7| + 7 <= 0xFFFF
    ensures var cotp := [2, 0xF0, optField] + s7;
      var packet := Tpkt.Pack(Tpkt.Header(3, 0, |cotp| + 4, cotp)).value;
      Unnest(packet + extra) == S7.Parse(s7 + Slice(extra, 0, 4), S7.Number(0))
  {
    var cotp, taken := [2, 0xF0, optField] + s7, Slice(extra, 0, 4);
    Tpkt.ParseInvertsPack(3, cotp, extra);
    assert cotp + taken == [2, 0xF0, optField] + ([] + (s7 + taken));
    Cotp.DataTpduReads(2, optField, [], s7 + taken, 0);
  }

  /**
   * The three layers give back what went in if and only if there are parameters; the octets that TPKT takes too many
   * are dropped by the S7 layer, whatever follows in the stream.
   */
  lemma {:induction false} UnnestInvertsNest(p: S7.Packet, optField: byte, extra: Data)
    requires S7.Fits(p) && S7.Length(p) + 7 <= 0xFFFF
    ensures Unnest(Nest(p, optField).value + extra)
         == if p.parameters == [] then Err(Malformed) else Ok(S7.Parsed(p, S7.Number(0)))
  {
    S7.PackFits(p);
    var s7 := S7.Pack(p).value;
    Cotp.PackLayout(0xF0, optField, s7, []);
    assert s7 + [] == s7;
    OuterLayersHandOn(s7, optField, extra);
    S7.ParseInvertsPack(p, S7.Number(0), Slice(extra, 0, 4));
  }

  /** The nested packet octet by octet. */
  lemma {:induction false} NestLayout(p: S7.Packet, optField: byte)
    requires S7.Fits(p) && S7.Length(p) + 7 <= 0xFFFF
    ensures var packet := Nest(p, optField).value;
      && |packet| >= 7 && packet[0] == 3 && packet[1] == 0 && 256 * packet[2] as int + packet[3] as int == |packet|
      && packet[4..7] == [2, 0xF0, optField] && packet[7..] == S7.Pack(p).value
  {
    S7.PackFits(p);
    var s7 := S7.Pack(p).value;
    Cotp.PackLayout(0xF0, optField, s7, []);
    assert s7 + [] == s7;
    var cotp := [2, 0xF0, optField] + s7;
    Tpkt.PackLayout(Tpkt.Header(3, 0, |cotp| + 4, cotp));
    var packet := Nest(p, optField).value;
    assert packet[4..] == cotp;
    assert packet[4..7] == cotp[..3] && packet[7..] == cotp[3..];
  }

  /** A TPDU that carries no data is not looked into. */
  lemma {:induction false} OtherTpduIsRefused(head: Data, payload: Data)
    requires |head| == 4 && 256 * head[2] as int + head[3] as int >= |payload| >= 3 && payload[1] != 0xF0
    ensures Unnest(head + payload) == Err(Malformed)
  {
    Tpkt.CutPacketIsParsed(head, payload);
  }
}
