/**
 * Register requests of the Kamstrup protocol: the buffer parser of the meter
 * (conpot/protocols/kamstrup_meter/request_parser.py, messages.py) and the request built by
 * bin/kamstrup_prober.py.
 */
module KamstrupRequest {
  import opened KamstrupFrame
  import opened Octets
  import opened Sequences
  import opened Wrappers

  const GET_REGISTERS: byte := 0x10

  datatype Request =
    | GetRegisters(address: byte, registers: seq<word>)
    | Unknown(address: byte, command: byte, message: seq<byte>)

  datatype ParseError = IndexError | InvalidCount

  datatype Parsed = NoRequest | Got(request: Request) | Raised(error: ParseError)

  datatype Parser = Parser(bytes: seq<byte>, parsing: bool, escaped: bool)

  datatype Scanned = Scanned(parser: Parser, outcome: Parsed)

  /** The first `n` two-octet words of `s`. */
  function Words(s: seq<byte>, n: nat): seq<word>
    requires 2 * n <= |s|
  {
    if n == 0 then [] else [ReadBe16(s[0], s[1])] + Words(s[2..], n - 1)
  }

  /** `_parse_register_bytes`; its own length test compares the wrong way round and lets short lists through. */
  function RegisterList(message: seq<byte>): Result<seq<word>, ParseError> {
    if message == [] then Err(IndexError)
    else if (|message| - 1) * 2 < message[0] as int then Err(InvalidCount)
    else if 1 + 2 * message[0] as int > |message| then Err(IndexError)
    else Ok(Words(message[1..], message[0] as int))
  }

  /** Python's `b[3:-3]` and `b[n:]`. */
  function Middle(b: seq<byte>): seq<byte> {
    if |b| < 6 then [] else b[3..|b| - 3]
  }

  function Drop(b: seq<byte>, n: nat): seq<byte> {
    if n <= |b| then b[n..] else []
  }

  /** The end marker at `position`; a bad CRC only logs, and the code goes on with what is left of the buffer. */
  function CompleteRequest(crc: Crc, bytes: seq<byte>, position: nat): Scanned
    requires position < |bytes|
  {
    var valid := ValidCrc(crc, if position == 0 then [] else bytes[1..position]);
    if valid.None? then Scanned(Parser(bytes, true, false), Raised(IndexError))
    else
      var p := if valid.value then Parser(bytes, true, false) else Parser(bytes[position..], false, false);
      if |p.bytes| < 3 then Scanned(p, Raised(IndexError))
      else
        var left := Parser(Drop(p.bytes, position + 1), p.parsing, false);
        var message := Middle(p.bytes);
        if p.bytes[2] != GET_REGISTERS then Scanned(left, Got(Unknown(p.bytes[1], p.bytes[2], message)))
        else
          match RegisterList(message)
          case Err(e) => Scanned(p, Raised(e))
          case Ok(registers) => Scanned(left, Got(GetRegisters(p.bytes[1], registers)))
  }

  /** `get_request` from the point where `done` has been unescaped in place and `rest` is still to be read. */
  function Scan(crc: Crc, done: seq<byte>, rest: seq<byte>, parsing: bool, escaped: bool): Scanned
    decreases |rest|
  {
    if rest == [] then Scanned(Parser(done, parsing, escaped), NoRequest)
    else if !parsing && rest[0] != REQUEST_MAGIC then Scan(crc, done, rest[1..], parsing, escaped)
    else if escaped then Scan(crc, done + [Flip(rest[0])], rest[1..], true, false)
    else if rest[0] == ESCAPE then Scan(crc, done, rest[1..], true, true)
    else if rest[0] == EOT then CompleteRequest(crc, done + rest, |done|)
    else Scan(crc, done + [rest[0]], rest[1..], true, false)
  }

  method ParseRegisterBytes(message: seq<byte>) returns (r: Result<seq<word>, ParseError>)
    ensures r == RegisterList(message)
  {
    if message == [] {
      return Err(IndexError);
    }
    var registerCount: int := message[0];
    if (|message| - 1) * 2 < registerCount {
      return Err(InvalidCount);
    }
    var registers: seq<word>, rest := [], message[1..];
    for count := 0 to registerCount
      invariant |rest| == |message| - 1 - 2 * count && rest == message[1 + 2 * count..]
      invariant 2 * registerCount <= |message| - 1 ==>
                  registers + Words(rest, registerCount - count) == Words(message[1..], registerCount)
    {
      if 2 + 2 * count >= |message| {
        return Err(IndexError);
      }
      var register := ReadBe16(message[1 + 2 * count], message[2 + 2 * count]);
      if 2 * registerCount <= |message| - 1 {
        Assoc(registers, [register], Words(rest[2..], registerCount - count - 1));
      }
      registers := registers + [register];
      rest := rest[2..];
    }
    assert registers + [] == registers;
    r := Ok(registers);
  }

  class KamstrupRequestParser {
    const crc: Crc
    var bytes: seq<byte>
    var parsing: bool
    var dataEscaped: bool

    constructor (crc: Crc)
      ensures this.crc == crc && View() == Parser([], false, false)
    {
      this.crc := crc;
      bytes, parsing, dataEscaped := [], false, false;
    }

    function View(): Parser
      reads this
    {
      Parser(bytes, parsing, dataEscaped)
    }

    method AddByte(b: byte)
      modifies this
      ensures View() == old(View()).(bytes := old(bytes) + [b])
    {
      bytes := bytes + [b];
    }

    /** The octets of one `recv`, added one by one. */
    method AddBytes(data: seq<byte>)
      modifies this
      ensures View() == old(View()).(bytes := old(bytes) + data)
    {
      for i := 0 to |data|
        invariant View() == old(View()).(bytes := old(bytes) + data[..i])
      {
        Assoc(old(bytes), data[..i], [data[i]]);
        assert data[..i + 1] == data[..i] + [data[i]];
        AddByte(data[i]);
      }
      assert data[..|data|] == data;
    }

    method GetRequest() returns (outcome: Parsed)
      modifies this
      ensures Scanned(View(), outcome) == Scan(crc, [], old(bytes), old(parsing), old(dataEscaped))
    {
      var position := 0;
      ghost var done, rest: seq<byte> := [], bytes;
      while position < |bytes|
        invariant position == |done| && bytes == done + rest
        invariant Scan(crc, done, rest, parsing, dataEscaped) ==
                  Scan(crc, [], old(bytes), old(parsing), old(dataEscaped))
        decreases |rest|
      {
        var d := bytes[position];
        assert d == rest[0];
        if !parsing && d != REQUEST_MAGIC {
          bytes := bytes[..position] + bytes[position + 1..];
          rest := rest[1..];
          continue;
        }
        parsing := true;
        var escapedEscape := false;
        if dataEscaped {
          bytes := bytes[position := Flip(d)];
          escapedEscape := d == EOT;
          dataEscaped := false;
          done, rest := done + [Flip(d)], rest[1..];
        } else if d == ESCAPE {
          dataEscaped := true;
          bytes := bytes[..position] + bytes[position + 1..];
          rest := rest[1..];
          continue;
        } else if d != EOT {
          done, rest := done + [d], rest[1..];
        }
        if d == EOT && !escapedEscape {
          outcome := Complete(position);
          return;
        }
        position := position + 1;
      }
      outcome := NoRequest;
    }

    method Complete(position: nat) returns (outcome: Parsed)
      requires position < |bytes| && parsing && !dataEscaped
      modifies this
      ensures Scanned(View(), outcome) == CompleteRequest(crc, old(bytes), position)
    {
      var valid := ValidCrc(crc, if position == 0 then [] else bytes[1..position]);
      if valid.None? {
        return Raised(IndexError);
      }
      if !valid.value {
        parsing := false;
        bytes := bytes[position..];
      }
      if |bytes| < 3 {
        return Raised(IndexError);
      }
      var commAddress, commandByte := bytes[1], bytes[2];
      if commandByte == GET_REGISTERS {
        var registers := ParseRegisterBytes(Middle(bytes));
        if registers.Err? {
          return Raised(registers.error);
        }
        outcome := Got(GetRegisters(commAddress, registers.value));
      } else {
        outcome := Got(Unknown(commAddress, commandByte, Middle(bytes)));
      }
      bytes := Drop(bytes, position + 1);
    }
  }

  /** The length test meant to catch short lists lets those through that have half an octet for each register. */
  lemma {:induction false} ShortListsSlipThrough(message: seq<byte>)
    requires message != []
    ensures RegisterList(message) == Err(IndexError)
       <==> |message| - 1 < 2 * message[0] as int <= 4 * (|message| - 1)
    ensures RegisterList(message) == Err(InvalidCount) <==> 2 * message[0] as int > 4 * (|message| - 1)
  {
  }

  // ---------- The round trip ----------

  function WordsBytes(registers: seq<word>): (s: seq<byte>)
    ensures |s| == 2 * |registers|
  {
    if registers == [] then [] else Be16(registers[0]) + WordsBytes(registers[1..])
  }

  function RequestFrame(crc: Crc, address: byte, registers: seq<word>): seq<byte>
    requires |registers| < 256
  {
    Frame(crc, REQUEST_MAGIC, address, [GET_REGISTERS, |registers|] + WordsBytes(registers))
  }

  /** The prober's request for one register is that frame, though it is escaped by another algorithm. */
  method BuildProbe(crc: Crc, commAddress: byte, register: word) returns (message: seq<byte>)
    ensures message == RequestFrame(crc, commAddress, [register])
  {
    var body := [commAddress, GET_REGISTERS, 1, register / 256, register % 256];
    var sum := crc(body);
    message := [REQUEST_MAGIC] + (body + [sum / 256, sum % 256]);
    ghost var content := [GET_REGISTERS, 1] + WordsBytes([register]);
    assert WordsBytes([register]) == Be16(register) by {
      assert WordsBytes([register][1..]) == [];
    }
    assert body == [commAddress] + content;
    assert message == [REQUEST_MAGIC] + Body(crc, commAddress, content);
    SameFrame(message);
    message := EscapeInPlace(message);
    message := message + [EOT];
  }

  lemma {:induction false} WordsInvert(registers: seq<word>)
    ensures Words(WordsBytes(registers), |registers|) == registers
  {
    if registers != [] {
      WordsInvert(registers[1..]);
      Be16RoundTrip(registers[0]);
      assert WordsBytes(registers)[2..] == WordsBytes(registers[1..]);
    }
  }

  lemma {:induction false} NoiseIsSkipped(crc: Crc, noise: seq<byte>, rest: seq<byte>)
    requires REQUEST_MAGIC !in noise
    ensures Scan(crc, [], noise + rest, false, false) == Scan(crc, [], rest, false, false)
  {
    if noise == [] {
      assert noise + rest == rest;
    } else {
      assert (noise + rest)[1..] == noise[1..] + rest;
      NoiseIsSkipped(crc, noise[1..], rest);
    }
  }

  lemma {:induction false} ScanOneEscaped(crc: Crc, done: seq<byte>, c: byte, tail: seq<byte>)
    ensures Scan(crc, done, EscapeOne(c) + tail, true, false) == Scan(crc, done + [c], tail, true, false)
  {
    var s := EscapeOne(c) + tail;
    if NeedsEscape(c) {
      assert s[1..] == [Flip(c)] + tail && s[1..][1..] == tail;
      assert Scan(crc, done, s, true, false) == Scan(crc, done, s[1..], true, true);
    } else {
      assert s[1..] == tail;
    }
  }

  lemma {:induction false} ScanEscaped(crc: Crc, done: seq<byte>, s: seq<byte>, rest: seq<byte>)
    ensures Scan(crc, done, EscapeAll(s) + rest, true, false) == Scan(crc, done + s, rest, true, false)
    decreases |s|
  {
    if s == [] {
      assert EscapeAll(s) + rest == rest && done + s == done;
    } else {
      Assoc(EscapeOne(s[0]), EscapeAll(s[1..]), rest);
      ScanOneEscaped(crc, done, s[0], EscapeAll(s[1..]) + rest);
      ScanEscaped(crc, done + [s[0]], s[1..], rest);
      assert done + [s[0]] + s[1..] == done + s;
    }
  }

  lemma {:induction false} FrameShape(address: byte, message: seq<byte>, tail: seq<byte>)
    requires message != [] && |tail| == 2
    ensures var body := [address] + ([GET_REGISTERS] + message) + tail;
            var bytes := [REQUEST_MAGIC] + body + [EOT];
            && bytes[1..|body| + 1] == body && bytes[1] == address && bytes[2] == GET_REGISTERS
            && Middle(bytes) == message
            && Drop(bytes, |body| + 2) == []
  {
  }

  lemma {:induction false} RegisterListInverts(registers: seq<word>)
    requires |registers| < 256
    ensures RegisterList([|registers|] + WordsBytes(registers)) == Ok(registers)
  {
    var message := [|registers|] + WordsBytes(registers);
    assert message[1..] == WordsBytes(registers);
    WordsInvert(registers);
  }

  lemma {:induction false} CompleteKnown(crc: Crc, bytes: seq<byte>, position: nat, registers: seq<word>)
    requires 0 < position < |bytes| && |bytes| >= 3 && ValidCrc(crc, bytes[1..position]) == Some(true)
    requires bytes[2] == GET_REGISTERS && RegisterList(Middle(bytes)) == Ok(registers)
    requires Drop(bytes, position + 1) == []
    ensures CompleteRequest(crc, bytes, position) ==
            Scanned(Parser([], true, false), Got(GetRegisters(bytes[1], registers)))
  {
  }

  lemma {:induction false} CompleteFrame(crc: Crc, address: byte, message: seq<byte>, registers: seq<word>)
    requires RegisterList(message) == Ok(registers)
    ensures var body := Body(crc, address, [GET_REGISTERS] + message);
            CompleteRequest(crc, [REQUEST_MAGIC] + body + [EOT], |body| + 1) ==
            Scanned(Parser([], true, false), Got(GetRegisters(address, registers)))
  {
    var content := [GET_REGISTERS] + message;
    var body := Body(crc, address, content);
    FrameShape(address, message, Be16(crc([address] + content)));
    BodyIsValid(crc, address, content);
    CompleteKnown(crc, [REQUEST_MAGIC] + body + [EOT], |body| + 1, registers);
  }

  lemma {:induction false} ScanStart(crc: Crc, rest: seq<byte>)
    ensures Scan(crc, [], [REQUEST_MAGIC] + rest, false, false) == Scan(crc, [REQUEST_MAGIC], rest, true, false)
  {
    assert ([REQUEST_MAGIC] + rest)[1..] == rest && [] + [REQUEST_MAGIC] == [REQUEST_MAGIC];
  }

  lemma {:induction false} ScanEnd(crc: Crc, done: seq<byte>)
    ensures Scan(crc, done, [EOT], true, false) == CompleteRequest(crc, done + [EOT], |done|)
  {
  }

  /** A frame at the start of the buffer is unescaped in place up to its end marker. */
  lemma {:induction false} FrameIsScanned(crc: Crc, body: seq<byte>)
    ensures Scan(crc, [], [REQUEST_MAGIC] + EscapeAll(body) + [EOT], false, false)
         == CompleteRequest(crc, [REQUEST_MAGIC] + body + [EOT], |body| + 1)
  {
    Assoc([REQUEST_MAGIC], EscapeAll(body), [EOT]);
    ScanStart(crc, EscapeAll(body) + [EOT]);
    ScanEscaped(crc, [REQUEST_MAGIC], body, [EOT]);
    ScanEnd(crc, [REQUEST_MAGIC] + body);
  }

  lemma {:induction false} FrameAfterNoiseIsScanned(crc: Crc, noise: seq<byte>, address: byte, content: seq<byte>)
    requires REQUEST_MAGIC !in noise
    ensures var body := Body(crc, address, content);
      Scan(crc, [], noise + Frame(crc, REQUEST_MAGIC, address, content), false, false)
      == CompleteRequest(crc, [REQUEST_MAGIC] + body + [EOT], |body| + 1)
  {
    NoiseIsSkipped(crc, noise, Frame(crc, REQUEST_MAGIC, address, content));
    FrameIs(crc, REQUEST_MAGIC, address, content);
    FrameIsScanned(crc, Body(crc, address, content));
  }

  /**
   * The request round trip: a fresh parser given any octets without the magic and then a complete frame returns
   * the frame's address and register list, and its buffer is empty.
   */
  lemma {:induction false} RequestRoundTrip(crc: Crc, noise: seq<byte>, address: byte, registers: seq<word>)
    requires REQUEST_MAGIC !in noise && |registers| < 256
    ensures Scan(crc, [], noise + RequestFrame(crc, address, registers), false, false) ==
            Scanned(Parser([], true, false), Got(GetRegisters(address, registers)))
  {
    var message := [|registers|] + WordsBytes(registers);
    var content := [GET_REGISTERS] + message;
    assert content == [GET_REGISTERS, |registers|] + WordsBytes(registers);
    FrameAfterNoiseIsScanned(crc, noise, address, content);
    RegisterListInverts(registers);
    CompleteFrame(crc, address, message, registers);
  }

  /** The server's use of the parser: a new connection that receives noise and a frame yields the request. */
  method ServeRequest(crc: Crc, noise: seq<byte>, address: byte, registers: seq<word>) returns (outcome: Parsed)
    requires REQUEST_MAGIC !in noise && |registers| < 256
    ensures outcome == Got(GetRegisters(address, registers))
  {
    var parser := new KamstrupRequestParser(crc);
    var received := noise + RequestFrame(crc, address, registers);
    parser.AddBytes(received);
    assert [] + received == received;
    RequestRoundTrip(crc, noise, address, registers);
    outcome := parser.GetRequest();
  }

  // ---------- Every other buffer ----------

  lemma {:induction false} ScanEndBefore(crc: Crc, done: seq<byte>, rest: seq<byte>)
    ensures Scan(crc, done, [0x0D] + rest, true, false) == CompleteRequest(crc, done + ([0x0D] + rest), |done|)
  {
  }

  /** Noise, then the magic and escaped octets: they are unescaped in place up to whatever follows. */
  lemma {:induction false} FrontIsScanned(crc: Crc, noise: seq<byte>, body: seq<byte>, rest: seq<byte>)
    requires 0x80 !in noise
    ensures Scan(crc, [], noise + ([0x80] + (EscapeAll(body) + rest)), false, false)
         == Scan(crc, [0x80] + body, rest, true, false)
  {
    NoiseIsSkipped(crc, noise, [0x80] + (EscapeAll(body) + rest));
    ScanStart(crc, EscapeAll(body) + rest);
    ScanEscaped(crc, [0x80], body, rest);
  }

  /** Octets without the magic are deleted. */
  lemma {:induction false} NoiseIsDeleted(crc: Crc, noise: seq<byte>)
    requires 0x80 !in noise
    ensures Scan(crc, [], noise, false, false) == Scanned(Parser([], false, false), NoRequest)
  {
    NoiseIsSkipped(crc, noise, []);
    assert noise + [] == noise;
  }

  /** A frame that has not ended is no request yet; its octets stay, unescaped, and so does a pending escape. */
  lemma {:induction false} FrameIsAwaited(crc: Crc, noise: seq<byte>, body: seq<byte>)
    requires 0x80 !in noise
    ensures Scan(crc, [], noise + ([0x80] + (EscapeAll(body) + [])), false, false)
         == Scanned(Parser([0x80] + body, true, false), NoRequest)
    ensures Scan(crc, [], noise + ([0x80] + (EscapeAll(body) + [0x1B])), false, false)
         == Scanned(Parser([0x80] + body, true, true), NoRequest)
  {
    FrontIsScanned(crc, noise, body, []);
    FrontIsScanned(crc, noise, body, [0x1B]);
    assert [ESCAPE][1..] == [];
    assert Scan(crc, [0x80] + body, [ESCAPE], true, false) == Scan(crc, [0x80] + body, [], true, true);
  }

  /** The buffer when the end marker of a frame with this body is found, and where it is. */
  lemma {:induction false} FrameIsCompleted(crc: Crc, noise: seq<byte>, body: seq<byte>, rest: seq<byte>)
    requires 0x80 !in noise
    ensures Scan(crc, [], noise + ([0x80] + (EscapeAll(body) + ([0x0D] + rest))), false, false)
         == CompleteRequest(crc, [0x80] + body + ([0x0D] + rest), |body| + 1)
  {
    FrontIsScanned(crc, noise, body, [0x0D] + rest);
    ScanEndBefore(crc, [0x80] + body, rest);
  }

  /** A frame of fewer than two octets cannot hold a CRC: reading it raises, and the buffer stays. */
  lemma {:induction false} TooShortRaises(crc: Crc, noise: seq<byte>, body: seq<byte>, rest: seq<byte>)
    requires 0x80 !in noise && |body| < 2
    ensures Scan(crc, [], noise + ([0x80] + (EscapeAll(body) + ([0x0D] + rest))), false, false)
         == Scanned(Parser([0x80] + body + ([0x0D] + rest), true, false), Raised(IndexError))
  {
    FrameIsCompleted(crc, noise, body, rest);
    assert ([0x80] + body + ([0x0D] + rest))[1..|body| + 1] == body;
  }

  lemma {:induction false} CrcIsChecked(crc: Crc, front: seq<byte>, hi: byte, lo: byte, rest: seq<byte>)
    ensures var body := front + [hi, lo];
      ValidCrc(crc, ([0x80] + body + ([0x0D] + rest))[1..|body| + 1]) == Some([hi, lo] == Be16(crc(front)))
  {
    var body := front + [hi, lo];
    assert ([0x80] + body + ([0x0D] + rest))[1..|body| + 1] == body;
    assert body[..|front|] == front;
    Be16RoundTrip(crc(front));
    assert ReadBe16(hi, lo) == crc(front) ==> Be16(crc(front)) == [hi, lo];
  }

  /**
   * A wrong CRC: the frame is cut from the buffer up to its end marker and parsing is over. The code then goes on with
   * the end marker in place of a magic. If fewer than two octets have arrived behind it, that raises.
   */
  lemma {:induction false} WrongCrcCuts(
      crc: Crc, noise: seq<byte>, front: seq<byte>, hi: byte, lo: byte, rest: seq<byte>)
    requires 0x80 !in noise && [hi, lo] != Be16(crc(front)) && |rest| < 2
    ensures Scan(crc, [], noise + ([0x80] + (EscapeAll(front + [hi, lo]) + ([0x0D] + rest))), false, false)
         == Scanned(Parser([0x0D] + rest, false, false), Raised(IndexError))
  {
    var body := front + [hi, lo];
    FrameIsCompleted(crc, noise, body, rest);
    CrcIsChecked(crc, front, hi, lo, rest);
    assert ([0x80] + body + ([0x0D] + rest))[|body| + 1..] == [0x0D] + rest;
  }

  function AllButThree(s: seq<byte>): seq<byte> {
    if |s| < 3 then [] else s[..|s| - 3]
  }

  /** The request that is made of address, command and what follows them, and the buffer it leaves; or an exception. */
  function Taken(bytes: seq<byte>, parsing: bool, address: byte, command: byte, text: seq<byte>, left: seq<byte>):
    Scanned
  {
    if command != 0x10 then Scanned(Parser(left, parsing, false), Got(Unknown(address, command, AllButThree(text))))
    else
      match RegisterList(AllButThree(text))
      case Err(e) => Scanned(Parser(bytes, parsing, false), Raised(e))
      case Ok(registers) => Scanned(Parser(left, parsing, false), Got(GetRegisters(address, registers)))
  }

  lemma {:induction false} BehindMarker(rest: seq<byte>, n: nat)
    requires |rest| >= 2
    ensures var left := [0x0D] + rest;
      && Middle(left) == AllButThree(rest[2..]) && Drop(left, n + 1) == Drop(rest, n)
      && left[1] == rest[0] && left[2] == rest[1]
  {
  }

  lemma {:induction false} CompleteAfterWrongCrc(
      crc: Crc, bytes: seq<byte>, position: nat, left: seq<byte>, text: seq<byte>)
    requires 0 < position && position + 3 <= |bytes| && ValidCrc(crc, bytes[1..position]) == Some(false)
    requires left == bytes[position..] && Middle(left) == AllButThree(text)
    ensures CompleteRequest(crc, bytes, position)
         == Taken(left, false, left[1], left[2], text, Drop(left, position + 1))
  {
  }

  /** Otherwise the two octets behind the end marker are taken for address and command of a request. */
  lemma {:induction false} WrongCrcReadsOn(
      crc: Crc, noise: seq<byte>, front: seq<byte>, hi: byte, lo: byte, rest: seq<byte>)
    requires 0x80 !in noise && [hi, lo] != Be16(crc(front)) && |rest| >= 2
    ensures var left := [0x0D] + rest;
      Scan(crc, [], noise + ([0x80] + (EscapeAll(front + [hi, lo]) + left)), false, false)
      == Taken(left, false, rest[0], rest[1], rest[2..], Drop(rest, |front| + 3))
  {
    var body, left := front + [hi, lo], [0x0D] + rest;
    var bytes := [0x80] + body + left;
    FrameIsCompleted(crc, noise, body, rest);
    CrcIsChecked(crc, front, hi, lo, rest);
    BehindMarker(rest, |body| + 1);
    assert bytes[|body| + 1..] == left;
    CompleteAfterWrongCrc(crc, bytes, |body| + 1, left, rest[2..]);
  }

  /**
   * A right CRC: the request is that of the frame, its message everything that has arrived but the last three octets,
   * so that of a frame alone without CRC and end marker. What arrived behind the frame stays in the buffer.
   */
  lemma {:induction false} RightCrcIsTaken(crc: Crc, noise: seq<byte>, front: seq<byte>, rest: seq<byte>)
    requires 0x80 !in noise && |front| >= 2
    ensures var body, left := front + Be16(crc(front)), [0x0D] + rest;
      Scan(crc, [], noise + ([0x80] + (EscapeAll(body) + left)), false, false)
      == Taken([0x80] + body + left, true, front[0], front[1], body[2..] + left, rest)
  {
    var sum := Be16(crc(front));
    var body, left := front + sum, [0x0D] + rest;
    var bytes := [0x80] + body + left;
    FrameIsCompleted(crc, noise, body, rest);
    assert sum == [sum[0], sum[1]];
    CrcIsChecked(crc, front, sum[0], sum[1], rest);
    assert bytes[1] == front[0] && bytes[2] == front[1];
    assert bytes[3..] == body[2..] + left;
    assert Middle(bytes) == AllButThree(body[2..] + left);
    assert Drop(bytes, |body| + 2) == rest;
  }

  lemma {:induction false} WordsOfPrefix(s: seq<byte>, extra: seq<byte>, n: nat)
    requires 2 * n <= |s|
    ensures Words(s + extra, n) == Words(s, n)
  {
    if n > 0 {
      assert (s + extra)[2..] == s[2..] + extra;
      WordsOfPrefix(s[2..], extra, n - 1);
    }
  }

  /** A register list is read whatever octets follow it. */
  lemma {:induction false} ListIsReadBefore(registers: seq<word>, extra: seq<byte>, message: seq<byte>)
    requires |registers| < 256 && message == [|registers|] + (WordsBytes(registers) + extra)
    ensures RegisterList(message) == Ok(registers)
  {
    var s := WordsBytes(registers);
    WordsOfPrefix(s, extra, |registers|);
    WordsInvert(registers);
    assert message[0] == |registers| && message[1..] == s + extra && |message| == 1 + |s| + |extra|;
  }

  /** Each register takes two octets, the higher first. */
  lemma {:induction false} WordAt(registers: seq<word>, k: nat)
    requires k < |registers|
    ensures var s := WordsBytes(registers); 256 * s[2 * k] as int + s[2 * k + 1] as int == registers[k]
  {
    if k > 0 {
      WordAt(registers[1..], k - 1);
    }
  }
}
