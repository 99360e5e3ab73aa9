/**
 * Receiving and cutting the IEC 60870-5-104 octet stream (conpot/protocols/IEC104/IEC104_server.py).
 *
 * `recv(n)` returns between one and n octets that have arrived, or nothing at end of stream. How many is
 * the transport's choice, so `Socket.Recv` chooses freely and `Serve` takes the choices as an argument.
 */
module Iec104Stream {
  import opened Octets
  import opened Sequences

  const START: byte := 0x68

  datatype FrameKind = IFrame | SFrame | UFrame

  /** A frame as the dispatcher passes it to the link handler. */
  datatype Handed = Handed(kind: FrameKind, octets: seq<byte>)

  /** How the connection loop ends: peer closed, or the uncaught read past a frame of two octets. */
  datatype End = Disconnected | IndexError

  datatype Served = Served(frames: seq<Handed>, end: End)

  function Kind(control: byte): FrameKind {
    if control % 2 == 0 then IFrame else if control % 4 == 1 then SFrame else UFrame
  }

  /** The dispatch of one request: nothing, a frame from the first start octet on, or a failing index. */
  datatype Dispatch = Nothing | Hand(frame: Handed) | Fails

  function FirstStart(request: seq<byte>): (i: nat)
    ensures i <= |request| && (i < |request| ==> request[i] == START)
    ensures forall k | 0 <= k < i :: request[k] != START
  {
    if request == [] || request[0] == START then 0 else FirstStart(request[1..]) + 1
  }

  function DispatchOf(request: seq<byte>): Dispatch {
    var i := FirstStart(request);
    if i == |request| then Nothing
    else if |request| - i < 3 then Fails
    else Hand(Handed(Kind(request[i + 2]), request[i..]))
  }

  /** The octets one round of the loop consumes when the first `recv(6)` returned `k` of them. */
  function RequestLength(s: seq<byte>, k: nat): (n: nat)
    requires 1 <= k <= |s|
    ensures k <= n <= |s|
  {
    if |s| < 2 then |s|
    else
      var wanted: int := s[1] as int + 2;
      if k >= wanted then k else if wanted <= |s| then wanted else |s|
  }

  function Chunk(s: seq<byte>, splits: seq<nat>): (k: nat)
    requires s != []
    ensures 1 <= k <= |s| && k <= 6
  {
    var most := if |s| < 6 then |s| else 6;
    if splits != [] && 1 <= splits[0] <= most then splits[0] else most
  }

  function Prepend(h: Handed, r: Served): Served {
    r.(frames := [h] + r.frames)
  }

  /** The whole connection on stream `s`, the i-th `recv(6)` returning `splits[i]` octets if it can. */
  function Serve(s: seq<byte>, splits: seq<nat>): Served
    decreases |s|
  {
    if s == [] then Served([], Disconnected)
    else
      var n := RequestLength(s, Chunk(s, splits));
      if n < 2 then Served([], Disconnected)
      else
        var rest := Serve(s[n..], if splits == [] then [] else splits[1..]);
        match DispatchOf(s[..n])
        case Nothing => rest
        case Fails => Served([], IndexError)
        case Hand(h) => Prepend(h, rest)
  }

  class Socket {
    var pending: seq<byte>

    constructor (stream: seq<byte>)
      ensures pending == stream
    {
      pending := stream;
    }

    method Recv(n: nat) returns (chunk: seq<byte>)
      requires n > 0
      modifies this
      ensures old(pending) == chunk + pending && |chunk| <= n
      ensures chunk == [] <==> old(pending) == []
    {
      if pending == [] {
        return [];
      }
      var k: nat :| 1 <= k <= n && k <= |pending|;
      chunk := pending[..k];
      pending := pending[k..];
    }
  }

  method ReadRequest(sock: Socket) returns (request: seq<byte>)
    modifies sock
    ensures old(sock.pending) == request + sock.pending
    ensures old(sock.pending) == [] ==> request == []
    ensures old(sock.pending) != [] ==>
              exists k: nat ::
                1 <= k <= 6 && k <= |old(sock.pending)| && |request| == RequestLength(old(sock.pending), k)
  {
    ghost var stream := sock.pending;
    request := sock.Recv(6);
    ghost var k := |request|;
    if request == [] {
      return;
    }
    while |request| < 2
      invariant stream == request + sock.pending && 1 <= k <= |request|
      invariant |request| <= 2 || |request| == k
      decreases |sock.pending|
    {
      var newByte := sock.Recv(1);
      if newByte == [] {
        break;
      }
      request := request + newByte;
    }
    if |request| < 2 {
      assert |request| == RequestLength(stream, k);
      return;
    }
    var length: int := request[1];
    assert length == stream[1];
    while |request| < length + 2
      invariant stream == request + sock.pending && |request| >= k
      invariant |request| <= length + 2 || |request| == k
      decreases |sock.pending|
    {
      var newByte := sock.Recv(1);
      if newByte == [] {
        break;
      }
      request := request + newByte;
    }
    assert |request| == RequestLength(stream, k);
  }

  /** Having handed `frames`, the loop still behaves on `rest` as it would have behaved on `stream`. */
  ghost predicate Continues(stream: seq<byte>, splits: seq<nat>, frames: seq<Handed>, rest: seq<byte>) {
    forall more: seq<nat> ::
      Serve(stream, splits + more) == Served(frames + Serve(rest, more).frames, Serve(rest, more).end)
  }

  lemma {:induction false} ServeRound(s: seq<byte>, k: nat, more: seq<nat>)
    requires 1 <= k <= 6 && k <= |s|
    ensures var n := RequestLength(s, k);
            Serve(s, [k] + more) ==
            if n < 2 then Served([], Disconnected)
            else match DispatchOf(s[..n])
                 case Nothing => Serve(s[n..], more)
                 case Fails => Served([], IndexError)
                 case Hand(h) => Prepend(h, Serve(s[n..], more))
  {
    assert Chunk(s, [k] + more) == k && ([k] + more)[1..] == more;
  }

  /** The choice of the next split belongs to the choices after it. */
  lemma {:induction false} ContinuesWith(
      stream: seq<byte>, splits: seq<nat>, frames: seq<Handed>, s: seq<byte>, k: nat, more: seq<nat>)
    requires Continues(stream, splits, frames, s)
    ensures Serve(stream, (splits + [k]) + more) ==
            Served(frames + Serve(s, [k] + more).frames, Serve(s, [k] + more).end)
  {
    Assoc(splits, [k], more);
  }

  lemma {:induction false} NothingContinues(
      stream: seq<byte>, splits: seq<nat>, frames: seq<Handed>, s: seq<byte>, k: nat)
    requires Continues(stream, splits, frames, s) && 1 <= k <= 6 && k <= |s| && RequestLength(s, k) >= 2
    requires DispatchOf(s[..RequestLength(s, k)]).Nothing?
    ensures Continues(stream, splits + [k], frames, s[RequestLength(s, k)..])
  {
    forall more: seq<nat>
      ensures Serve(stream, (splits + [k]) + more) ==
              Served(frames + Serve(s[RequestLength(s, k)..], more).frames, Serve(s[RequestLength(s, k)..], more).end)
    {
      ContinuesWith(stream, splits, frames, s, k, more);
      ServeRound(s, k, more);
    }
  }

  lemma {:induction false} HandContinues(
      stream: seq<byte>, splits: seq<nat>, frames: seq<Handed>, s: seq<byte>, k: nat, h: Handed)
    requires Continues(stream, splits, frames, s) && 1 <= k <= 6 && k <= |s| && RequestLength(s, k) >= 2
    requires DispatchOf(s[..RequestLength(s, k)]) == Hand(h)
    ensures Continues(stream, splits + [k], frames + [h], s[RequestLength(s, k)..])
  {
    var rest := s[RequestLength(s, k)..];
    forall more: seq<nat>
      ensures Serve(stream, (splits + [k]) + more) ==
              Served((frames + [h]) + Serve(rest, more).frames, Serve(rest, more).end)
    {
      ContinuesWith(stream, splits, frames, s, k, more);
      ServeRound(s, k, more);
      Assoc(frames, [h], Serve(rest, more).frames);
    }
  }

  lemma {:induction false} FailureEnds(stream: seq<byte>, splits: seq<nat>, frames: seq<Handed>, s: seq<byte>, k: nat)
    requires Continues(stream, splits, frames, s) && 1 <= k <= 6 && k <= |s| && RequestLength(s, k) >= 2
    requires DispatchOf(s[..RequestLength(s, k)]).Fails?
    ensures Serve(stream, splits + [k]) == Served(frames, IndexError)
  {
    ContinuesWith(stream, splits, frames, s, k, []);
    ServeRound(s, k, []);
    assert (splits + [k]) + [] == splits + [k] && frames + [] == frames;
  }

  lemma {:induction false} LoopEnds(stream: seq<byte>, splits: seq<nat>, frames: seq<Handed>, s: seq<byte>)
    requires Continues(stream, splits, frames, s) && |s| < 2
    ensures Serve(stream, splits) == Served(frames, Disconnected)
  {
    assert splits + [] == splits && frames + [] == frames;
    assert Serve(s, []) == Served([], Disconnected);
  }

  /** The connection loop does what `Serve` says for some choice of splits. */
  method Handle(sock: Socket) returns (handed: seq<Handed>, end: End, ghost splits: seq<nat>)
    modifies sock
    ensures Served(handed, end) == Serve(old(sock.pending), splits)
  {
    handed, splits := [], [];
    ghost var stream := sock.pending;
    assert forall more: seq<nat> :: [] + more == more;
    assert forall fs: seq<Handed> :: [] + fs == fs;
    while true
      invariant Continues(stream, splits, handed, sock.pending)
      decreases |sock.pending|
    {
      ghost var before := sock.pending;
      var request := ReadRequest(sock);
      if |request| < 2 {
        LoopEnds(stream, splits, handed, before);
        return handed, Disconnected, splits;
      }
      ghost var k: nat :| 1 <= k <= 6 && k <= |before| && |request| == RequestLength(before, k);
      assert request == before[..|request|] && sock.pending == before[|request|..];
      var index := FirstStart(request);
      if index < |request| {
        var iecRequest := request[index..];
        if |iecRequest| < 3 {
          FailureEnds(stream, splits, handed, before, k);
          return handed, IndexError, splits + [k];
        }
        HandContinues(stream, splits, handed, before, k, Handed(Kind(iecRequest[2]), iecRequest));
        handed := handed + [Handed(Kind(iecRequest[2]), iecRequest)];
      } else {
        NothingContinues(stream, splits, handed, before, k);
      }
      splits := splits + [k];
    }
  }

  // ---------- What is dispatched ----------

  /** Information transfer, supervision and unnumbered control, by the two low bits of the first control octet. */
  lemma {:induction false} KindByLowBits(n: nat)
    requires n < 64
    ensures Kind(4 * n) == IFrame && Kind(4 * n + 1) == SFrame && Kind(4 * n + 2) == IFrame && Kind(4 * n + 3) == UFrame
  {
  }

  lemma {:induction false} FirstStartIs(junk: seq<byte>, frame: seq<byte>)
    requires 0x68 !in junk && (frame == [] || frame[0] == 0x68)
    ensures FirstStart(junk + frame) == |junk|
  {
    var request := junk + frame;
    if junk == [] {
      assert request == frame;
    } else {
      assert request[1..] == junk[1..] + frame;
      FirstStartIs(junk[1..], frame);
    }
  }

  /** Octets before the first start octet are dropped; what is left is handed on unless it has no control octet. */
  lemma {:induction false} DispatchIs(junk: seq<byte>, frame: seq<byte>)
    requires 0x68 !in junk && (frame == [] || frame[0] == 0x68)
    ensures DispatchOf(junk + frame)
         == if frame == [] then Nothing else if |frame| < 3 then Fails else Hand(Handed(Kind(frame[2]), frame))
  {
    FirstStartIs(junk, frame);
    assert (junk + frame)[|junk|..] == frame;
    assert |frame| >= 3 ==> (junk + frame)[|junk| + 2] == frame[2];
  }

  /** A whole chunk at the head of the stream, however much of it the first `recv` returns. */
  lemma {:induction false} ChunkIsServed(junk: seq<byte>, frame: seq<byte>, rest: seq<byte>, k: nat, more: seq<nat>)
    requires 0x68 !in junk && (frame == [] || frame[0] == 0x68)
    requires var chunk := junk + frame; |chunk| >= 2 && |chunk| == chunk[1] as int + 2 && 1 <= k <= 6 && k <= |chunk|
    ensures Serve(junk + frame + rest, [k] + more)
         == if frame == [] then Serve(rest, more)
            else if |frame| < 3 then Served([], IndexError)
            else Prepend(Handed(Kind(frame[2]), frame), Serve(rest, more))
  {
    var chunk := junk + frame;
    var s := chunk + rest;
    assert s[1] == chunk[1] && RequestLength(s, k) == |chunk|;
    assert s[..|chunk|] == chunk && s[|chunk|..] == rest;
    ServeRound(s, k, more);
    DispatchIs(junk, frame);
  }

  // ---------- Independence of the splits ----------

  /** Every length-delimited chunk of the stream begins with the start octet. */
  predicate Aligned(s: seq<byte>)
    decreases |s|
  {
    s == [] || (s[0] == START && (|s| >= 2 && s[1] as int + 2 < |s| ==> Aligned(s[s[1] as int + 2..])))
  }

  /** As `Aligned`, and no chunk but the last is shorter than an APDU with its four control octets. */
  predicate Regular(s: seq<byte>)
    decreases |s|
  {
    s == [] ||
    (s[0] == START && (|s| >= 2 && s[1] as int + 2 < |s| ==> s[1] >= 4 && Regular(s[s[1] as int + 2..])))
  }

  /** What the stream holds: its length-delimited frames, cut exactly. */
  function Cut(s: seq<byte>): Served
    decreases |s|
  {
    if |s| < 2 then Served([], Disconnected)
    else
      var n := if s[1] as int + 2 <= |s| then s[1] as int + 2 else |s|;
      if n < 3 then Served([], IndexError) else Prepend(Handed(Kind(s[2]), s[..n]), Cut(s[n..]))
  }

  lemma {:induction false} RegularIsCut(s: seq<byte>, splits: seq<nat>)
    requires Regular(s)
    ensures Serve(s, splits) == Cut(s)
    decreases |s|
  {
    if |s| >= 2 {
      var n := RequestLength(s, Chunk(s, splits));
      assert s[..n][0] == START && FirstStart(s[..n]) == 0;
      RegularIsCut(s[n..], if splits == [] then [] else splits[1..]);
    }
  }

  /** A chunk with a length octet below 4 in front of more octets: some split loses or merges frames. */
  lemma {:induction false} IrregularHasBadSplit(s: seq<byte>) returns (splits: seq<nat>)
    requires Aligned(s) && !Regular(s)
    ensures Serve(s, splits) != Cut(s)
    decreases |s|
  {
    var n := s[1] as int + 2;
    if s[1] < 4 {
      splits := [if |s| < 6 then |s| else 6];
      var m := RequestLength(s, splits[0]);
      assert s[..m][0] == START && FirstStart(s[..m]) == 0;
      assert Serve(s, splits).frames[0].octets == s[..m];
    } else {
      var later := IrregularHasBadSplit(s[n..]);
      splits := [1] + later;
      assert s[..n][0] == START && FirstStart(s[..n]) == 0;
      ServeRound(s, 1, later);
      var h := DispatchOf(s[..n]).frame;
      var a, b := Serve(s[n..], later), Cut(s[n..]);
      assert Prepend(h, a).frames[1..] == a.frames && Prepend(h, b).frames[1..] == b.frames;
    }
  }

  /** Every `recv(6)` returns one octet. */
  function Ones(n: nat): (splits: seq<nat>)
    ensures |splits| == n
  {
    if n == 0 then [] else [1] + Ones(n - 1)
  }

  /** Octet by octet an aligned stream is always cut exactly. */
  lemma {:induction false} OnesAreCut(s: seq<byte>, n: nat)
    requires Aligned(s) && n >= |s|
    ensures Serve(s, Ones(n)) == Cut(s)
    decreases |s|
  {
    if s != [] {
      var m := RequestLength(s, 1);
      assert s[..m][0] == START && FirstStart(s[..m]) == 0;
      assert Ones(n)[1..] == Ones(n - 1);
      if 2 <= |s| && m < |s| {
        OnesAreCut(s[m..], n - 1);
      } else if 2 <= |s| {
        assert s[m..] == [];
      }
    }
  }

  /** The same frames and the same end, however the stream is split. */
  ghost predicate SplitsDoNotMatter(s: seq<byte>) {
    forall a: seq<nat>, b: seq<nat> :: Serve(s, a) == Serve(s, b)
  }

  /**
   * For streams of aligned chunks reassembly is independent of fragmentation exactly when they are regular, and the
   * one result is then the exact cut.
   */
  lemma {:induction false} FragmentationIndependence(s: seq<byte>)
    requires Aligned(s)
    ensures SplitsDoNotMatter(s) <==> Regular(s)
    ensures (forall splits: seq<nat> :: Serve(s, splits) == Cut(s)) <==> Regular(s)
  {
    OnesAreCut(s, |s|);
    if Regular(s) {
      forall splits: seq<nat> ensures Serve(s, splits) == Cut(s) {
        RegularIsCut(s, splits);
      }
    } else {
      var splits := IrregularHasBadSplit(s);
      assert Serve(s, splits) != Serve(s, Ones(|s|));
    }
  }

  /** A whole APDU: start octet, a length of at least 4, and that many octets after it. */
  predicate IsApdu(f: seq<byte>) {
    |f| >= 6 && f[0] == START && f[1] as int + 2 == |f|
  }

  /** What reaches the handlers when the peer closes in the middle of a frame. */
  function Partial(tail: seq<byte>): Served {
    if |tail| < 2 then Served([], Disconnected)
    else if |tail| == 2 then Served([], IndexError)
    else Served([Handed(Kind(tail[2]), tail)], Disconnected)
  }

  function HandedOf(apdus: seq<seq<byte>>): (h: seq<Handed>)
    requires forall i | 0 <= i < |apdus| :: IsApdu(apdus[i])
    ensures |h| == |apdus|
  {
    if apdus == [] then []
    else
      assert IsApdu(apdus[0]);
      [Handed(Kind(apdus[0][2]), apdus[0])] + HandedOf(apdus[1..])
  }

  lemma {:induction false} TailIsCut(tail: seq<byte>)
    requires tail != [] ==> tail[0] == START && (|tail| >= 2 ==> |tail| < tail[1] as int + 2)
    ensures Regular(tail) && Cut(tail) == Partial(tail)
  {
    if |tail| > 2 {
      assert tail[..|tail|] == tail;
      assert Cut(tail[|tail|..]) == Served([], Disconnected);
    }
  }

  lemma {:induction false} ApduIsCut(f: seq<byte>, rest: seq<byte>)
    requires IsApdu(f) && Regular(rest)
    ensures Regular(f + rest)
    ensures Cut(f + rest) == Prepend(Handed(Kind(f[2]), f), Cut(rest))
  {
    var s := f + rest;
    assert s[..|f|] == f && s[|f|..] == rest;
  }

  lemma {:induction false} ApdusAreCut(apdus: seq<seq<byte>>, tail: seq<byte>)
    requires forall i | 0 <= i < |apdus| :: IsApdu(apdus[i])
    requires tail != [] ==> tail[0] == START && (|tail| >= 2 ==> |tail| < tail[1] as int + 2)
    ensures Regular(Flatten(apdus) + tail)
    ensures Cut(Flatten(apdus) + tail) == Served(HandedOf(apdus) + Partial(tail).frames, Partial(tail).end)
  {
    if apdus == [] {
      assert Flatten(apdus) + tail == tail;
      TailIsCut(tail);
    } else {
      assert IsApdu(apdus[0]);
      ApdusAreCut(apdus[1..], tail);
      var f, rest, frames := apdus[0], Flatten(apdus[1..]) + tail, HandedOf(apdus[1..]);
      ApduIsCut(f, rest);
      Assoc(f, Flatten(apdus[1..]), tail);
      Assoc([Handed(Kind(f[2]), f)], frames, Partial(tail).frames);
    }
  }

  /**
   * For every sequence of APDUs, every unfinished frame after them and every way `recv` may split the octets:
   * the handlers receive exactly those frames, in order, and then what the cut-off frame gives.
   */
  lemma {:induction false} ReassemblyIsExact(apdus: seq<seq<byte>>, tail: seq<byte>, splits: seq<nat>)
    requires forall i | 0 <= i < |apdus| :: IsApdu(apdus[i])
    requires tail != [] ==> tail[0] == START && (|tail| >= 2 ==> |tail| < tail[1] as int + 2)
    ensures Serve(Flatten(apdus) + tail, splits) ==
            Served(HandedOf(apdus) + Partial(tail).frames, Partial(tail).end)
  {
    ApdusAreCut(apdus, tail);
    RegularIsCut(Flatten(apdus) + tail, splits);
  }
}
