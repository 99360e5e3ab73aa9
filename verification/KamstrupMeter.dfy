/**
 * Register responses of the Kamstrup meter: `KamstrupResponseRegister.serialize`
 * (conpot/protocols/kamstrup_meter/messages.py) and the streaming decoder `Decoder382`
 * (conpot/protocols/kamstrup_meter/decoder_382.py).
 */
module KamstrupMeter {
  import opened KamstrupFrame
  import opened Octets
  import opened Sequences
  import opened Wrappers

  const GET_REGISTER: byte := 0x10

  /** A register with the value the databus holds for it. */
  datatype Register = Register(name: word, units: byte, length: byte, unknown: byte, value: int)

  function RegisterBytes(r: Register): seq<byte> {
    Be16(r.name) + [r.units, r.length, r.unknown] + BigEndian(r.value, r.length)
  }

  function RegistersBytes(rs: seq<Register>): seq<byte> {
    if rs == [] then [] else RegisterBytes(rs[0]) + RegistersBytes(rs[1..])
  }

  function Response(crc: Crc, address: byte, rs: seq<Register>): seq<byte> {
    Frame(crc, RESPONSE_MAGIC, address, [GET_REGISTER] + RegistersBytes(rs))
  }

  // ---------- serialize ----------

  function Reversed(s: seq<byte>): seq<byte> {
    if s == [] then [] else Reversed(s[1..]) + [s[0]]
  }

  lemma {:induction false} ReversedAppend(s: seq<byte>, b: byte)
    ensures Reversed(s + [b]) == [b] + Reversed(s)
  {
    if s == [] {
      assert s + [b] == [b] && Reversed([b][1..]) == [];
    } else {
      assert (s + [b])[1..] == s[1..] + [b];
      ReversedAppend(s[1..], b);
    }
  }

  /** Least significant octet first, then reversed. */
  method PackValue(value: int, length: byte) returns (packed: seq<byte>)
    ensures packed == BigEndian(value, length)
  {
    var low: seq<byte>, v := [], value;
    for i := 0 to length
      invariant BigEndian(v, length - i) + Reversed(low) == BigEndian(value, length)
    {
      ReversedAppend(low, v % 256);
      Assoc(BigEndian(v / 256, length - i - 1), [v % 256], Reversed(low));
      low, v := low + [v % 256], v / 256;
    }
    assert BigEndian(v, 0) + Reversed(low) == Reversed(low);
    packed := [];
    var rest := low;
    while rest != []
      invariant Reversed(rest) + packed == Reversed(low)
      decreases |rest|
    {
      Assoc(Reversed(rest[1..]), [rest[0]], packed);
      packed := [rest[0]] + packed;
      rest := rest[1..];
    }
    assert Reversed([]) + packed == packed;
  }

  method SerializeRegisters(registers: seq<Register>) returns (message: seq<byte>)
    ensures message == [GET_REGISTER] + RegistersBytes(registers)
  {
    message := [GET_REGISTER];
    var rest := registers;
    while rest != []
      invariant message + RegistersBytes(rest) == [GET_REGISTER] + RegistersBytes(registers)
      decreases |rest|
    {
      var r := rest[0];
      var value := PackValue(r.value, r.length);
      Assoc(message, RegisterBytes(r), RegistersBytes(rest[1..]));
      message := message + (Be16(r.name) + [r.units, r.length, r.unknown] + value);
      rest := rest[1..];
    }
    assert message + RegistersBytes([]) == message;
  }

  /** `serialize` of the response classes. */
  method Serialize(crc: Crc, address: byte, registers: seq<Register>) returns (bytes: seq<byte>)
    ensures bytes == Response(crc, address, registers)
  {
    var content := SerializeRegisters(registers);
    var message := [address] + content;
    var sum := crc(message);
    message := [RESPONSE_MAGIC] + (message + [sum / 256, sum % 256]) + [EOT];
    bytes := Escape(message);
  }

  // ---------- Decoder382 ----------

  datatype Reading = Reading(register: word, value: nat)

  /** What a completed frame is reported as; the last two are exceptions that leave the decoder. */
  datatype Decoded =
    | Readings(address: byte, readings: seq<Reading>)
    | InvalidRegister(address: byte)
    | UnknownCommand(command: byte)
    | BadCrc
    | IndexError
    | AttributeError

  datatype Framer = Framer(parsing: bool, escaped: bool, data: seq<byte>)

  const FRESH := Framer(false, false, [])

  /** The records after the command octet; `None` when a record runs past the end. */
  function ParseRecords(msg: seq<byte>): Option<seq<Reading>>
    decreases |msg|
  {
    if msg == [] then Some([])
    else if |msg| < 4 || (msg[3] > 0 && |msg| < 5 + msg[3] as int) then None
    else
      var n: nat := 5 + msg[3] as int;
      var value := if n <= |msg| then FromBigEndian(msg[5..n]) else 0;
      var rest := ParseRecords(if n <= |msg| then msg[n..] else []);
      if rest.None? then None else Some([Reading(ReadBe16(msg[0], msg[1]), value)] + rest.value)
  }

  function RegisterReply(data: seq<byte>): Decoded
    requires |data| >= 3
  {
    var msg := if |data| < 5 then [] else data[3..|data| - 2];
    if msg == [] then InvalidRegister(data[1])
    else
      var r := ParseRecords(msg);
      if r.None? then IndexError else Readings(data[1], r.value)
  }

  /** What the collected octets mean when the end marker arrives. */
  function Interpret(crc: Crc, data: seq<byte>): Decoded {
    var valid := ValidCrc(crc, if data == [] then [] else data[1..]);
    if valid.None? then IndexError
    else if !valid.value then BadCrc
    else if data[2] == GET_REGISTER then RegisterReply(data)
    else UnknownCommand(data[2])
  }

  datatype Fed = Fed(framer: Framer, result: Option<Decoded>)

  function AfterFrame(f: Framer, d: Decoded): Framer {
    match d
    case IndexError => f
    case BadCrc => Framer(false, false, [])
    case _ => Framer(true, false, [])
  }

  /** One octet of `decode_out`. */
  function FeedOne(crc: Crc, f: Framer, d: byte): Fed {
    if !f.parsing && d != RESPONSE_MAGIC then Fed(f, Some(AttributeError))
    else if f.escaped then Fed(Framer(true, false, f.data + [Flip(d)]), None)
    else if d == ESCAPE then Fed(Framer(true, true, f.data), None)
    else if d == EOT then
      var r := Interpret(crc, f.data);
      Fed(AfterFrame(Framer(true, false, f.data), r), Some(r))
    else Fed(Framer(true, false, f.data + [d]), None)
  }

  /** `decode_out` on one piece: it returns at the first result and drops the rest of the piece. */
  function Feed(crc: Crc, f: Framer, s: seq<byte>): Fed
    decreases |s|
  {
    if s == [] then Fed(f, None)
    else
      var r := FeedOne(crc, f, s[0]);
      if r.result.Some? then r else Feed(crc, r.framer, s[1..])
  }

  /** The results of `decode_out` on one piece after the other. */
  function FeedPieces(crc: Crc, f: Framer, pieces: seq<seq<byte>>): (r: seq<Option<Decoded>>)
    ensures |r| == |pieces|
    decreases |pieces|
  {
    if pieces == [] then []
    else
      var x := Feed(crc, f, pieces[0]);
      [x.result] + FeedPieces(crc, x.framer, pieces[1..])
  }

  function PrependReadings(a: seq<Reading>, b: Option<seq<Reading>>): Option<seq<Reading>> {
    if b.None? then None else Some(a + b.value)
  }

  lemma {:induction false} Distribute(a: nat, b: nat, p: nat)
    ensures a * (256 * p) + b * p == (a * 256 + b) * p
  {
  }

  /** Each octet shifted to its place and added. */
  method ReadValue(octets: seq<byte>) returns (value: nat)
    ensures value == FromBigEndian(octets)
  {
    value := 0;
    var length := |octets|;
    for p := 0 to length
      invariant value == FromBigEndian(octets[..p]) * Pow256(length - p)
    {
      assert octets[..p + 1][..p] == octets[..p];
      Distribute(FromBigEndian(octets[..p]), octets[p], Pow256(length - p - 1));
      value := value + octets[p] * Pow256(length - p - 1);
    }
    assert octets[..length] == octets;
  }

  class Decoder382 {
    const crc: Crc
    var outData: seq<byte>
    var outParsing: bool
    var outDataEscaped: bool

    constructor (crc: Crc)
      ensures this.crc == crc && View() == FRESH
    {
      this.crc := crc;
      outData, outParsing, outDataEscaped := [], false, false;
    }

    function View(): Framer
      reads this
    {
      Framer(outParsing, outDataEscaped, outData)
    }

    method DecodeOut(data: seq<byte>) returns (result: Option<Decoded>)
      modifies this
      ensures Fed(View(), result) == Feed(crc, old(View()), data)
    {
      var rest := data;
      while rest != []
        invariant Feed(crc, View(), rest) == Feed(crc, old(View()), data)
        decreases |rest|
      {
        var d := rest[0];
        rest := rest[1..];
        if !outParsing && d != RESPONSE_MAGIC {
          return Some(AttributeError);
        }
        outParsing := true;
        var escapedEscape := false;
        if outDataEscaped {
          d := Flip(d);
          escapedEscape := d == EOT;
          outDataEscaped := false;
        } else if d == ESCAPE {
          outDataEscaped := true;
          continue;
        }
        if d == EOT && !escapedEscape {
          var r := Complete();
          return Some(r);
        }
        outData := outData + [d];
      }
      result := None;
    }

    method Complete() returns (r: Decoded)
      modifies this
      ensures r == Interpret(crc, old(outData))
      ensures old(outParsing) && !old(outDataEscaped) ==> View() == AfterFrame(old(View()), r)
    {
      var valid := ValidCrc(crc, if outData == [] then [] else outData[1..]);
      if valid.None? {
        return IndexError;
      }
      if !valid.value {
        outParsing, outData := false, [];
        return BadCrc;
      }
      if outData[2] == GET_REGISTER {
        r := DecodeReturnRegister();
        if r.IndexError? {
          return;
        }
      } else {
        r := UnknownCommand(outData[2]);
      }
      outData := [];
    }

    method DecodeReturnRegister() returns (r: Decoded)
      requires |outData| >= 3
      ensures r == RegisterReply(outData)
    {
      var msg := if |outData| < 5 then [] else outData[3..|outData| - 2];
      if msg == [] {
        return InvalidRegister(outData[1]);
      }
      var readings: seq<Reading>, rest: seq<byte> := [], msg;
      assert forall more: seq<Reading> :: [] + more == more;
      while rest != []
        invariant ParseRecords(msg) == PrependReadings(readings, ParseRecords(rest))
        decreases |rest|
      {
        if |rest| < 4 {
          return IndexError;
        }
        var length: int := rest[3];
        if length > 0 && |rest| < 5 + length {
          return IndexError;
        }
        var value := 0;
        if 5 + length <= |rest| {
          value := ReadValue(rest[5..5 + length]);
        }
        ghost var later := ParseRecords(if 5 + length <= |rest| then rest[5 + length..] else []);
        var reading := Reading(ReadBe16(rest[0], rest[1]), value);
        if later.Some? {
          Assoc(readings, [reading], later.value);
        }
        readings := readings + [reading];
        rest := if 5 + length <= |rest| then rest[5 + length..] else [];
      }
      assert readings + [] == readings;
      r := Readings(outData[1], readings);
    }
  }

  // ---------- The round trip ----------

  function ReadingsOf(rs: seq<Register>): seq<Reading> {
    if rs == [] then [] else [Reading(rs[0].name, rs[0].value % Pow256(rs[0].length))] + ReadingsOf(rs[1..])
  }

  /** A record on the wire: register, units, length, an octet nobody reads, and the value, highest octet first. */
  lemma {:induction false} RecordLayout(r: Register, i: nat)
    ensures var s := RegisterBytes(r);
      && |s| == 5 + r.length as int && 256 * s[0] as int + s[1] as int == r.name
      && s[2] == r.units && s[3] == r.length && s[4] == r.unknown
      && (i < r.length as int ==> s[5 + i] as int == r.value / Pow256(r.length - 1 - i) % 256)
  {
    if i < r.length as int {
      BigEndianAt(r.value, r.length, i);
    }
  }

  /** What a decoder should say about the registers. */
  function Expected(address: byte, rs: seq<Register>): Decoded {
    if rs == [] then InvalidRegister(address) else Readings(address, ReadingsOf(rs))
  }

  lemma {:induction false} ParseOne(r: Register, rest: seq<byte>)
    ensures ParseRecords(RegisterBytes(r) + rest) ==
            PrependReadings([Reading(r.name, r.value % Pow256(r.length))], ParseRecords(rest))
  {
    var msg := RegisterBytes(r) + rest;
    var n: nat := 5 + r.length as int;
    assert msg[3] == r.length && |RegisterBytes(r)| == n;
    assert msg[5..n] == BigEndian(r.value, r.length) && msg[n..] == rest;
    BigEndianValue(r.value, r.length);
    Be16RoundTrip(r.name);
  }

  lemma {:induction false} ParseInvertsPacking(rs: seq<Register>)
    ensures ParseRecords(RegistersBytes(rs)) == Some(ReadingsOf(rs))
  {
    if rs != [] {
      ParseInvertsPacking(rs[1..]);
      ParseOne(rs[0], RegistersBytes(rs[1..]));
    }
  }

  lemma {:induction false} FeedOneEscaped(crc: Crc, data: seq<byte>, c: byte, tail: seq<byte>)
    ensures Feed(crc, Framer(true, false, data), EscapeOne(c) + tail)
         == Feed(crc, Framer(true, false, data + [c]), tail)
  {
    var f, s := Framer(true, false, data), EscapeOne(c) + tail;
    if NeedsEscape(c) {
      assert s[1..] == [Flip(c)] + tail && s[1..][1..] == tail;
      assert Feed(crc, f, s) == Feed(crc, Framer(true, true, data), s[1..]);
    } else {
      assert s[1..] == tail;
    }
  }

  /** Octets between the markers are collected unescaped. */
  lemma {:induction false} FeedEscaped(crc: Crc, data: seq<byte>, s: seq<byte>, rest: seq<byte>)
    ensures Feed(crc, Framer(true, false, data), EscapeAll(s) + rest) == Feed(crc, Framer(true, false, data + s), rest)
    decreases |s|
  {
    if s == [] {
      assert EscapeAll(s) + rest == rest && data + s == data;
    } else {
      var c := s[0];
      var tail := EscapeAll(s[1..]) + rest;
      Assoc(EscapeOne(c), EscapeAll(s[1..]), rest);
      FeedOneEscaped(crc, data, c, tail);
      FeedEscaped(crc, data + [c], s[1..], rest);
      assert data + [c] + s[1..] == data + s;
    }
  }

  lemma {:induction false} FeedConcat(crc: Crc, f: Framer, a: seq<byte>, b: seq<byte>)
    ensures var r := Feed(crc, f, a);
            Feed(crc, f, a + b) == if r.result.Some? then r else Feed(crc, r.framer, b)
    decreases |a|
  {
    if a == [] {
      assert a + b == b;
    } else {
      assert (a + b)[1..] == a[1..] + b;
      var r := FeedOne(crc, f, a[0]);
      if r.result.None? {
        FeedConcat(crc, r.framer, a[1..], b);
      }
    }
  }

  lemma {:induction false} BadCrcIsSeen(crc: Crc, first: byte, front: seq<byte>, hi: byte, lo: byte)
    ensures [hi, lo] != Be16(crc(front)) <==> Interpret(crc, [first] + (front + [hi, lo])) == BadCrc
  {
    var data := [first] + (front + [hi, lo]);
    assert data[1..] == front + [hi, lo];
    assert (front + [hi, lo])[..|front|] == front;
    Be16RoundTrip(crc(front));
    assert ReadBe16(hi, lo) == crc(front) ==> Be16(crc(front)) == [hi, lo];
  }

  /** What a frame with the right CRC says: its second octet is the command, its first the address. */
  function Meaning(front: seq<byte>, command: byte): Decoded
    requires front != []
  {
    if command != 0x10 then UnknownCommand(command)
    else if |front| < 3 then InvalidRegister(front[0])
    else
      match ParseRecords(front[2..])
      case None => IndexError
      case Some(readings) => Readings(front[0], readings)
  }

  lemma {:induction false} RightCrcIsMeant(crc: Crc, first: byte, front: seq<byte>)
    requires |front| >= 2
    ensures Interpret(crc, [first] + (front + Be16(crc(front)))) == Meaning(front, front[1])
  {
    var sum := Be16(crc(front));
    var data := [first] + (front + sum);
    assert data[1..] == front + [sum[0], sum[1]];
    assert sum == [sum[0], sum[1]];
    BadCrcIsSeen(crc, first, front, sum[0], sum[1]);
    assert data[1] == front[0] && data[2] == front[1];
    assert data[3..|data| - 2] == front[2..];
  }

  lemma {:induction false} ResponseIsInterpreted(crc: Crc, address: byte, rs: seq<Register>)
    ensures Interpret(crc, [RESPONSE_MAGIC] + Body(crc, address, [GET_REGISTER] + RegistersBytes(rs)))
         == Expected(address, rs)
  {
    var front := [address] + ([GET_REGISTER] + RegistersBytes(rs));
    RightCrcIsMeant(crc, RESPONSE_MAGIC, front);
    ParseInvertsPacking(rs);
    assert front[2..] == RegistersBytes(rs) && front[0] == address && front[1] == GET_REGISTER;
    if rs != [] {
      assert |RegistersBytes(rs)| >= |RegisterBytes(rs[0])|;
    }
  }

  /** A frame with any first octet the decoder takes there, all collected octets escaped, up to its end marker. */
  lemma {:induction false} FrontIsCollected(crc: Crc, parsing: bool, first: byte, body: seq<byte>)
    requires if parsing then first != 0x1B && first != 0x0D else first == 0x40
    ensures Feed(crc, Framer(parsing, false, []), [first] + EscapeAll(body))
         == Fed(Framer(true, false, [first] + body), None)
  {
    var f := Framer(true, false, [first]);
    var s := [first] + EscapeAll(body);
    assert s[1..] == EscapeAll(body) && [] + [first] == [first];
    assert EscapeAll(body) + [] == EscapeAll(body);
    FeedEscaped(crc, [first], body, []);
    assert Feed(crc, Framer(parsing, false, []), s) == Feed(crc, f, EscapeAll(body));
  }

  lemma {:induction false} EndIsInterpreted(crc: Crc, data: seq<byte>)
    ensures var r := Interpret(crc, data);
      Feed(crc, Framer(true, false, data), [0x0D]) == Fed(AfterFrame(Framer(true, false, data), r), Some(r))
  {
    assert [EOT][1..] == [];
  }

  lemma {:induction false} FrameIsInterpreted(crc: Crc, parsing: bool, first: byte, body: seq<byte>)
    requires if parsing then first != 0x1B && first != 0x0D else first == 0x40
    ensures var r := Interpret(crc, [first] + body);
      Feed(crc, Framer(parsing, false, []), [first] + EscapeAll(body) + [0x0D])
      == Fed(AfterFrame(Framer(true, false, [first] + body), r), Some(r))
  {
    FrontIsCollected(crc, parsing, first, body);
    FeedConcat(crc, Framer(parsing, false, []), [first] + EscapeAll(body), [0x0D]);
    EndIsInterpreted(crc, [first] + body);
  }

  /** All but the last octet of a response give no result; the last one gives the expected one. */
  lemma {:induction false} ResponseNeedsItsEnd(crc: Crc, address: byte, rs: seq<Register>)
    ensures var s := Response(crc, address, rs);
            && Feed(crc, FRESH, s[..|s| - 1]).result == None
            && Feed(crc, FRESH, s) == Fed(Framer(true, false, []), Some(Expected(address, rs)))
  {
    var content := [GET_REGISTER] + RegistersBytes(rs);
    var body, s := Body(crc, address, content), Response(crc, address, rs);
    FrameIs(crc, RESPONSE_MAGIC, address, content);
    assert s[..|s| - 1] == [RESPONSE_MAGIC] + EscapeAll(body);
    FrontIsCollected(crc, false, RESPONSE_MAGIC, body);
    FrameIsInterpreted(crc, false, RESPONSE_MAGIC, body);
    ResponseIsInterpreted(crc, address, rs);
  }

  /** `None` for every piece but the last. */
  ghost predicate OnlyLast(results: seq<Option<Decoded>>, d: Decoded) {
    && results != [] && results[|results| - 1] == Some(d)
    && forall k | 0 <= k < |results| - 1 :: results[k] == None
  }

  lemma {:induction false} LastPieceIsInFlatten(pieces: seq<seq<byte>>)
    requires pieces != [] && pieces[|pieces| - 1] != []
    ensures Flatten(pieces) != []
  {
    if |pieces| > 1 {
      LastPieceIsInFlatten(pieces[1..]);
    }
  }

  lemma {:induction false} PiecesFeed(crc: Crc, f: Framer, pieces: seq<seq<byte>>, d: Decoded)
    requires pieces != [] && pieces[|pieces| - 1] != []
    requires var s := Flatten(pieces);
             s != [] && Feed(crc, f, s[..|s| - 1]).result == None && Feed(crc, f, s).result == Some(d)
    ensures OnlyLast(FeedPieces(crc, f, pieces), d)
    decreases |pieces|
  {
    var a, b, s := pieces[0], Flatten(pieces[1..]), Flatten(pieces);
    var r := Feed(crc, f, a);
    if |pieces| == 1 {
      assert b == [] && s == a;
      assert FeedPieces(crc, f, pieces) == [r.result];
    } else {
      LastPieceIsInFlatten(pieces[1..]);
      assert s[..|s| - 1] == a + b[..|b| - 1];
      FeedConcat(crc, f, a, b);
      FeedConcat(crc, f, a, b[..|b| - 1]);
      PiecesFeed(crc, r.framer, pieces[1..], d);
    }
  }

  /**
   * The round trip under segmentation: for every register list and every way to cut the serialized response
   * into pieces, a fresh decoder reports on the last piece only, and then each register with its value modulo
   * 256^length, in order (an empty list is reported as an invalid register).
   */
  lemma {:induction false} ResponseRoundTrip(crc: Crc, address: byte, rs: seq<Register>, pieces: seq<seq<byte>>)
    requires Flatten(pieces) == Response(crc, address, rs) && pieces != [] && pieces[|pieces| - 1] != []
    ensures OnlyLast(FeedPieces(crc, FRESH, pieces), Expected(address, rs))
  {
    ResponseNeedsItsEnd(crc, address, rs);
    PiecesFeed(crc, FRESH, pieces, Expected(address, rs));
  }

  // ---------- Frames that are no responses ----------

  /** Outside a frame every octet but the magic raises, and the rest of its piece is dropped. */
  lemma {:induction false} StrayOctetRaises(crc: Crc, f: Framer, d: byte, rest: seq<byte>)
    requires !f.parsing && d != 0x40
    ensures Feed(crc, f, [d] + rest) == Fed(f, Some(AttributeError))
  {
  }

  /** A frame whose last two octets are not the CRC of what is before them is discarded, and the decoder starts anew. */
  lemma {:induction false} WrongCrcIsDiscarded(crc: Crc, parsing: bool, front: seq<byte>, hi: byte, lo: byte)
    requires [hi, lo] != Be16(crc(front))
    ensures Feed(crc, Framer(parsing, false, []), [0x40] + EscapeAll(front + [hi, lo]) + [0x0D])
         == Fed(FRESH, Some(BadCrc))
  {
    BadCrcIsSeen(crc, 0x40, front, hi, lo);
    FrameIsInterpreted(crc, parsing, 0x40, front + [hi, lo]);
  }

  /**
   * A frame with the right CRC is reported for what it says. The octets of a frame whose records run past its end stay,
   * those of every other frame are gone.
   */
  lemma {:induction false} RightCrcIsReported(crc: Crc, parsing: bool, front: seq<byte>)
    requires |front| >= 2
    ensures var r, body := Meaning(front, front[1]), front + Be16(crc(front));
      Feed(crc, Framer(parsing, false, []), [0x40] + EscapeAll(body) + [0x0D])
      == Fed(Framer(true, false, if r.IndexError? then [0x40] + body else []), Some(r))
  {
    RightCrcIsMeant(crc, 0x40, front);
    FrameIsInterpreted(crc, parsing, 0x40, front + Be16(crc(front)));
  }

  /** A frame of fewer than two octets cannot hold a CRC: reading it raises, and the octets stay. */
  lemma {:induction false} TooShortRaises(crc: Crc, parsing: bool, body: seq<byte>)
    requires |body| < 2
    ensures Feed(crc, Framer(parsing, false, []), [0x40] + EscapeAll(body) + [0x0D])
         == Fed(Framer(true, false, [0x40] + body), Some(IndexError))
  {
    FrameIsInterpreted(crc, parsing, 0x40, body);
    assert ([0x40] + body)[1..] == body;
  }

  /** Registers and then a record that is cut off: nothing is read, unless the cut record has no value to lose. */
  lemma {:induction false} CutRecordRaises(rs: seq<Register>, tail: seq<byte>)
    requires 0 < |tail| < 5 && (|tail| == 4 ==> tail[3] > 0)
    ensures ParseRecords(RegistersBytes(rs) + tail) == None
  {
    if rs == [] {
      assert RegistersBytes(rs) + tail == tail;
    } else {
      CutRecordRaises(rs[1..], tail);
      Assoc(RegisterBytes(rs[0]), RegistersBytes(rs[1..]), tail);
      ParseOne(rs[0], RegistersBytes(rs[1..]) + tail);
    }
  }

  lemma {:induction false} CutValueRaises(rs: seq<Register>, tail: seq<byte>)
    requires |tail| >= 4 && tail[3] > 0 && |tail| < 5 + tail[3] as int
    ensures ParseRecords(RegistersBytes(rs) + tail) == None
  {
    if rs == [] {
      assert RegistersBytes(rs) + tail == tail;
    } else {
      CutValueRaises(rs[1..], tail);
      Assoc(RegisterBytes(rs[0]), RegistersBytes(rs[1..]), tail);
      ParseOne(rs[0], RegistersBytes(rs[1..]) + tail);
    }
  }

  /** Four octets with length 0 at the end are read as a register with value 0. */
  lemma {:induction false} HeadOfFourIsRead(hi: byte, lo: byte, units: byte)
    ensures ParseRecords([hi, lo, units, 0]) == Some([Reading(256 * hi as int + lo as int, 0)])
  {
    var read: seq<Reading> := [Reading(ReadBe16(hi, lo), 0)];
    assert read + [] == read;
  }

  // ---------- One frame after the other ----------

  /** The frames of a connection: what is between magic and end marker, the right CRC or two other octets at the end. */
  datatype Sending = Sending(front: seq<byte>, sum: seq<byte>)

  predicate IsSending(crc: Crc, x: Sending) {
    |x.front| >= 2 && |x.sum| == 2 && (x.sum == Be16(crc(x.front)) ==> !Meaning(x.front, x.front[1]).IndexError?)
  }

  function Wire(x: Sending): seq<byte> {
    [0x40] + EscapeAll(x.front + x.sum) + [0x0D]
  }

  function Wires(xs: seq<Sending>): seq<seq<byte>> {
    if xs == [] then [] else [Wire(xs[0])] + Wires(xs[1..])
  }

  function Outcomes(crc: Crc, xs: seq<Sending>): seq<Option<Decoded>>
    requires forall k | 0 <= k < |xs| :: IsSending(crc, xs[k])
  {
    if xs == [] then []
    else
      assert IsSending(crc, xs[0]);
      var d := if xs[0].sum == Be16(crc(xs[0].front)) then Meaning(xs[0].front, xs[0].front[1]) else BadCrc;
      [Some(d)] + Outcomes(crc, xs[1..])
  }

  /** Whatever came before, each frame is reported for what it is: no frame spoils the next. */
  lemma {:induction false} FramesAreIndependent(crc: Crc, parsing: bool, xs: seq<Sending>)
    requires forall k | 0 <= k < |xs| :: IsSending(crc, xs[k])
    ensures FeedPieces(crc, Framer(parsing, false, []), Wires(xs)) == Outcomes(crc, xs)
    decreases |xs|
  {
    if xs != [] {
      var x := xs[0];
      assert IsSending(crc, x);
      var good := x.sum == Be16(crc(x.front));
      if good {
        RightCrcIsReported(crc, parsing, x.front);
      } else {
        assert x.sum == [x.sum[0], x.sum[1]];
        WrongCrcIsDiscarded(crc, parsing, x.front, x.sum[0], x.sum[1]);
      }
      assert Wires(xs)[0] == Wire(x) && Wires(xs)[1..] == Wires(xs[1..]);
      FramesAreIndependent(crc, good, xs[1..]);
    }
  }
}
