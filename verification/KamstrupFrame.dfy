/**
 * The Kamstrup frame format: end markers, escaping and CRC (conpot/protocols/kamstrup_meter/messages.py and
 * kamstrup_constants.py, bin/kamstrup_prober.py). The CRC16 is any function from octets to 16-bit words.
 */
module KamstrupFrame {
  import opened Octets
  import opened Sequences
  import opened Wrappers

  const REQUEST_MAGIC: byte := 0x80
  const RESPONSE_MAGIC: byte := 0x40
  const EOT: byte := 0x0D
  const ESCAPE: byte := 0x1B

  type Crc = seq<byte> -> word

  predicate NeedsEscape(b: byte) {
    b == 0x06 || b == EOT || b == ESCAPE || b == RESPONSE_MAGIC || b == REQUEST_MAGIC
  }

  /** `b ^ 0xFF`. */
  function Flip(b: byte): byte {
    255 - b
  }

  function EscapeOne(b: byte): seq<byte> {
    if NeedsEscape(b) then [ESCAPE, Flip(b)] else [b]
  }

  lemma {:induction false} FlippedQuotient(b: byte, weight: nat, count: nat)
    requires weight >= 1 && weight * count == 256
    ensures Flip(b) / weight == count - 1 - b / weight
  {
    var q, r := b / weight, b % weight;
    assert b == weight * q + r;
    assert weight * (count - 1 - q) == weight * count - weight - weight * q;
    DivModUnique(Flip(b), weight, count - 1 - q, weight - 1 - r);
  }

  /** Every one of the eight bits is inverted; `weight` is that of a bit, and `count` the number of its multiples. */
  lemma {:induction false} FlipsEveryBit(b: byte, weight: nat, count: nat)
    requires weight >= 1 && weight * count == 256 && count % 2 == 0
    ensures Flip(b) / weight % 2 == 1 - b / weight % 2
  {
    FlippedQuotient(b, weight, count);
    var q := b / weight;
    assert (count - 1 - q) % 2 == 1 - q % 2;
  }

  /** The five octets that are escaped, and how. */
  lemma {:induction false} EscapedOctet(b: byte)
    ensures EscapeOne(b) == if b in {0x06, 0x0D, 0x1B, 0x40, 0x80} then [0x1B, 0xFF - b] else [b]
  {
  }

  function EscapeAll(s: seq<byte>): seq<byte> {
    if s == [] then [] else EscapeOne(s[0]) + EscapeAll(s[1..])
  }

  function Escaped(message: seq<byte>): seq<byte>
    requires |message| >= 2
  {
    [message[0]] + EscapeAll(message[1..|message| - 1]) + [message[|message| - 1]]
  }

  lemma {:induction false} EscapeAllConcat(a: seq<byte>, b: seq<byte>)
    ensures EscapeAll(a + b) == EscapeAll(a) + EscapeAll(b)
  {
    if a == [] {
      assert a + b == b;
    } else {
      assert (a + b)[1..] == a[1..] + b;
      EscapeAllConcat(a[1..], b);
      Assoc(EscapeOne(a[0]), EscapeAll(a[1..]), EscapeAll(b));
    }
  }

  /** Between the end markers no marker and no 0x06 remains. */
  lemma {:induction false} EscapingHidesMarkers(s: seq<byte>)
    ensures forall k | 0 <= k < |EscapeAll(s)| :: NeedsEscape(EscapeAll(s)[k]) ==> EscapeAll(s)[k] == ESCAPE
  {
    if s != [] {
      EscapingHidesMarkers(s[1..]);
    }
  }

  /** The loop of `escape`. */
  method Escape(message: seq<byte>) returns (escaped: seq<byte>)
    requires |message| >= 2
    ensures escaped == Escaped(message)
  {
    escaped := [message[0]];
    var rest := message[1..|message| - 1];
    while rest != []
      invariant escaped + EscapeAll(rest) == [message[0]] + EscapeAll(message[1..|message| - 1])
      decreases |rest|
    {
      var c := rest[0];
      rest := rest[1..];
      Assoc(escaped, EscapeOne(c), EscapeAll(rest));
      if NeedsEscape(c) {
        escaped := escaped + [ESCAPE, Flip(c)];
      } else {
        escaped := escaped + [c];
      }
    }
    escaped := escaped + [message[|message| - 1]];
  }

  /** Complementing an octet and inserting an escape before it. */
  lemma {:induction false} InsertedEscape(message: seq<byte>, done: seq<byte>, c: byte, tail: seq<byte>)
    requires message == done + ([c] + tail)
    ensures var flipped := message[|done| := Flip(c)];
      flipped[..|done|] + [ESCAPE] + flipped[|done|..] == done + [ESCAPE, Flip(c)] + tail
  {
    var flipped := message[|done| := Flip(c)];
    assert flipped == done + ([Flip(c)] + tail);
    assert flipped[..|done|] == done && flipped[|done|..] == [Flip(c)] + tail;
    assert done + [ESCAPE] + ([Flip(c)] + tail) == done + [ESCAPE, Flip(c)] + tail;
  }

  /** The prober's loop, which inserts into the message in place. */
  method EscapeInPlace(original: seq<byte>) returns (message: seq<byte>)
    requires original != []
    ensures message == [original[0]] + EscapeAll(original[1..])
  {
    message := original;
    var messageLength, y := |message|, 1;
    ghost var done, rest := message[..1], original[1..];
    while y < messageLength
      invariant messageLength == |message| && 1 <= y == |done| && message == done + rest
      invariant done + EscapeAll(rest) == [original[0]] + EscapeAll(original[1..])
      decreases messageLength - y
    {
      ghost var c := rest[0];
      assert message[y] == c;
      Assoc(done, EscapeOne(c), EscapeAll(rest[1..]));
      SplitAt(rest, 1);
      assert rest[..1] == [c];
      if NeedsEscape(c) {
        InsertedEscape(message, done, c, rest[1..]);
      } else {
        Assoc(done, [c], rest[1..]);
      }
      rest := rest[1..];
      done := done + EscapeOne(c);
      if NeedsEscape(message[y]) {
        message := message[y := Flip(message[y])];
        message := message[..y] + [ESCAPE] + message[y..];
        y := y + 1;
        messageLength := messageLength + 1;
      }
      y := y + 1;
    }
  }

  /** Both escaping implementations build the same frame. */
  lemma {:induction false} SameFrame(body: seq<byte>)
    requires body != []
    ensures [body[0]] + EscapeAll(body[1..]) + [EOT] == Escaped(body + [EOT])
  {
    var m := body + [EOT];
    assert m[1..|m| - 1] == body[1..];
  }

  /** `None` when an escape octet is the last one: the source then reads past the end. */
  function Unescaped(s: seq<byte>): Option<seq<byte>> {
    if s == [] then Some([])
    else if s[0] == ESCAPE then
      if |s| == 1 then None
      else
        var r := Unescaped(s[2..]);
        if r.None? then None else Some([Flip(s[1])] + r.value)
    else
      var r := Unescaped(s[1..]);
      if r.None? then None else Some([s[0]] + r.value)
  }

  /** The prober's loop over the reply, which deletes in place. */
  method UnescapeInPlace(received: seq<byte>) returns (data: Option<seq<byte>>)
    ensures data == Unescaped(received)
  {
    var bytes: seq<byte> := received;
    var p := 0;
    assert received[0..] == received;
    assert forall r: seq<byte> :: received[..0] + r == r;
    while p < |bytes|
      invariant 0 <= p <= |bytes|
      invariant Unescaped(received) ==
                var r := Unescaped(bytes[p..]); if r.None? then None else Some(bytes[..p] + r.value)
      decreases |bytes| - p
    {
      ghost var done, rest := bytes[..p], bytes[p..];
      if bytes[p] == ESCAPE {
        if p + 1 == |bytes| {
          return None;
        }
        bytes := bytes[..p] + bytes[p + 1..];
        bytes := bytes[p := Flip(bytes[p])];
        assert bytes[p + 1..] == rest[2..] && bytes[..p + 1] == done + [Flip(rest[1])];
      } else {
        assert bytes[p + 1..] == rest[1..] && bytes[..p + 1] == done + [rest[0]];
      }
      p := p + 1;
      var r := Unescaped(bytes[p..]);
      if r.Some? {
        Assoc(done, [bytes[p - 1]], r.value);
      }
    }
    assert bytes[p..] == [] && bytes[..p] + [] == bytes;
    data := Some(bytes);
  }

  lemma {:induction false} UnescapeOne(c: byte, tail: seq<byte>)
    requires Unescaped(tail).Some?
    ensures Unescaped(EscapeOne(c) + tail) == Some([c] + Unescaped(tail).value)
  {
    var s := EscapeOne(c) + tail;
    assert s[|EscapeOne(c)|..] == tail;
  }

  lemma {:induction false} UnescapeInvertsAll(s: seq<byte>, last: byte)
    requires last != ESCAPE
    ensures Unescaped(EscapeAll(s) + [last]) == Some(s + [last])
  {
    if s == [] {
      assert EscapeAll(s) + [last] == [last] && s + [last] == [last];
      var none: seq<byte> := [];
      assert [last][1..] == none && [last] + none == [last];
      assert Unescaped([last]) == Some([last] + none);
    } else {
      UnescapeInvertsAll(s[1..], last);
      UnescapeOne(s[0], EscapeAll(s[1..]) + [last]);
      Assoc(EscapeOne(s[0]), EscapeAll(s[1..]), [last]);
      assert s + [last] == [s[0]] + (s[1..] + [last]);
    }
  }

  /** The prober's unescaping inverts escaping, for every message with proper end markers. */
  lemma {:induction false} UnescapeInverts(message: seq<byte>)
    requires |message| >= 2 && message[0] != ESCAPE && message[|message| - 1] != ESCAPE
    ensures Unescaped(Escaped(message)) == Some(message)
  {
    var body, last := message[1..|message| - 1], message[|message| - 1];
    UnescapeInvertsAll(body, last);
    Assoc([message[0]], EscapeAll(body), [last]);
    var tail := EscapeAll(body) + [last];
    assert ([message[0]] + tail)[1..] == tail;
    assert [message[0]] + (body + [last]) == message;
  }

  function Body(crc: Crc, address: byte, content: seq<byte>): seq<byte> {
    [address] + content + Be16(crc([address] + content))
  }

  /** A frame: magic, address, content, CRC of address and content, end marker, all but the markers escaped. */
  function Frame(crc: Crc, magic: byte, address: byte, content: seq<byte>): seq<byte> {
    Escaped([magic] + Body(crc, address, content) + [EOT])
  }

  lemma {:induction false} FrameIs(crc: Crc, magic: byte, address: byte, content: seq<byte>)
    ensures Frame(crc, magic, address, content) == [magic] + EscapeAll(Body(crc, address, content)) + [EOT]
  {
    var body := Body(crc, address, content);
    var m := [magic] + body + [EOT];
    assert m[1..|m| - 1] == body;
  }

  /** `valid_crc`: reading the supplied CRC fails on fewer than two octets. */
  function ValidCrc(crc: Crc, message: seq<byte>): Option<bool> {
    if |message| < 2 then None
    else
      var n := |message|;
      Some(ReadBe16(message[n - 2], message[n - 1]) == crc(message[..n - 2]))
  }

  lemma {:induction false} BodyIsValid(crc: Crc, address: byte, content: seq<byte>)
    ensures ValidCrc(crc, Body(crc, address, content)) == Some(true)
  {
    var body := Body(crc, address, content);
    var sum := crc([address] + content);
    Be16RoundTrip(sum);
    assert body[..|body| - 2] == [address] + content;
  }
}
