/**
 * The station from octets to frames: the stream of Iec104Stream, the checks with which the handlers of
 * conpot/protocols/IEC104/IEC104.py read a frame, and the link of Iec104Link.
 */
module Iec104Station {
  import opened Iec104Link
  import opened Iec104Stream
  import opened Octets
  import opened Sequences
  import opened Wrappers

  /** A little-endian field of two octets. */
  function ReadLe16(lo: byte, hi: byte): word {
    lo + 256 * hi as int
  }

  function Le16(n: word): (s: seq<byte>)
    ensures |s| == 2
  {
    [n % 256, n / 256]
  }

  lemma {:induction false} Le16RoundTrip(n: word)
    ensures ReadLe16(Le16(n)[0], Le16(n)[1]) == n
  {
  }

  predicate Whole(frames: seq<Handed>) {
    forall k | 0 <= k < |frames| :: |frames[k].octets| >= 6
  }

  function InformationInput<P>(lengthOk: bool, sendSeq: nat, recvSeq: nat, replies: Option<seq<P>>): Input<P> {
    if replies.None? then GotUnreadableI(lengthOk, sendSeq, recvSeq)
    else GotI(lengthOk, sendSeq, recvSeq, replies.value)
  }

  /** What a handler makes of the octets of a frame that is not cut short; `replies` answer its command, if readable. */
  function Decode<P>(h: Handed, replies: Option<seq<P>>): Input<P>
    requires |h.octets| >= 6
  {
    var o := h.octets;
    match h.kind
    case IFrame => InformationInput(o[1] as int + 2 == |o|, ReadLe16(o[2], o[3]), ReadLe16(o[4], o[5]), replies)
    case SFrame => GotS(|o| == 6 && o[1] == 4 && o[3] == 0, ReadLe16(o[4], o[5]))
    case UFrame => GotU(|o| == 6 && o[1] == 4 && o[3] == 0 && o[4] == 0 && o[5] == 0, o[2])
  }

  /** The commands' answers to a frame at its place in the connection; `None` where reading the ASDU raises. */
  type Handler<P> = (nat, Handed) -> Option<seq<P>>

  function Inputs<P>(frames: seq<Handed>, handler: Handler<P>): (ins: seq<Input<P>>)
    requires Whole(frames)
    ensures |ins| == |frames|
  {
    if frames == [] then []
    else
      var n := |frames| - 1;
      Inputs(frames[..n], handler) + [Decode(frames[n], handler(n, frames[n]))]
  }

  // ---------- The control field ----------

  /** Numbers are read with their lower octet first, and an I-frame is measured against its length octet. */
  lemma {:induction false} NumbersAreRead<P>(o: seq<byte>, replies: Option<seq<P>>)
    requires |o| >= 6
    ensures Decode(Handed(IFrame, o), replies) ==
            InformationInput(o[1] as int == |o| - 2, o[2] as nat + 256 * o[3] as nat, o[4] as nat + 256 * o[5] as nat,
                             replies)
    ensures Decode(Handed(SFrame, o), replies).recvSeq == o[4] as nat + 256 * o[5] as nat
    ensures Decode(Handed(UFrame, o), replies).ty == o[2] as nat
  {
  }

  /** S- and U-frames count only in their one shape: of any other the link takes no notice. */
  lemma {:induction false} OtherShapesAreIgnored<P>(s: State<P>, w: int, o: seq<byte>, replies: Option<seq<P>>)
    requires |o| >= 6
    ensures Decode(Handed(SFrame, o), replies).wellFormed <==> o == [o[0], 4, o[2], 0, o[4], o[5]]
    ensures Decode(Handed(UFrame, o), replies).wellFormed <==> o == [o[0], 4, o[2], 0, 0, 0]
    ensures o != [o[0], 4, o[2], 0, o[4], o[5]] ==> Step(s, w, Decode(Handed(SFrame, o), replies)) == s
    ensures o != [o[0], 4, o[2], 0, 0, 0] ==> Step(s, w, Decode(Handed(UFrame, o), replies)) == s
  {
  }

  // ---------- Any peer ----------

  lemma {:induction false} HandedAreWhole(apdus: seq<seq<byte>>)
    requires forall i | 0 <= i < |apdus| :: IsApdu(apdus[i])
    ensures Whole(HandedOf(apdus))
  {
    if apdus != [] {
      assert IsApdu(apdus[0]);
      HandedAreWhole(apdus[1..]);
    }
  }

  /**
   * From octets to frames, for every list of APDUs and every way the stream may be split: the link is in the state
   * that these APDUs alone determine, and everything it emitted until it closed is well sequenced.
   */
  lemma {:induction false} StreamIsWellSequenced<P>(
      w: int, apdus: seq<seq<byte>>, splits: seq<nat>, handler: Handler<P>)
    requires w >= 1 && forall i | 0 <= i < |apdus| :: IsApdu(apdus[i])
    ensures var frames := Serve(Flatten(apdus), splits).frames;
      && Whole(frames) && frames == HandedOf(apdus)
      && WellSequenced(WhileOpen(Run(w, Inputs(frames, handler)).log))
  {
    ReassemblyIsExact(apdus, [], splits);
    assert Flatten(apdus) + [] == Flatten(apdus);
    assert HandedOf(apdus) + [] == HandedOf(apdus);
    HandedAreWhole(apdus);
    EveryRunIsWellSequenced(w, Inputs(HandedOf(apdus), handler));
  }

  // ---------- A peer that counts as the standard asks ----------

  /** What a controlling station sends; `ty` has its two low bits set. */
  datatype PeerFrame = Information(recvSeq: word, asdu: seq<byte>) | Supervisory(recvSeq: word) | Unnumbered(ty: byte)

  predicate Legal(f: PeerFrame) {
    match f
    case Information(_, asdu) => |asdu| <= 251
    case Supervisory(_) => true
    case Unnumbered(ty) => ty % 4 == 3
  }

  predicate AllLegal(frames: seq<PeerFrame>) {
    forall k | 0 <= k < |frames| :: Legal(frames[k])
  }

  /** The APDU of a frame, `k` I-frames having been sent before it. */
  function Apdu(f: PeerFrame, k: nat): seq<byte>
    requires Legal(f)
  {
    match f
    case Information(recvSeq, asdu) => [START, 4 + |asdu|] + Le16(Number(k)) + Le16(recvSeq) + asdu
    case Supervisory(recvSeq) => [START, 4, 1, 0] + Le16(recvSeq)
    case Unnumbered(ty) => [START, 4, ty, 0, 0, 0]
  }

  function CountInformation(frames: seq<PeerFrame>): nat {
    if frames == [] then 0
    else CountInformation(frames[..|frames| - 1]) + if frames[|frames| - 1].Information? then 1 else 0
  }

  function Apdus(frames: seq<PeerFrame>): (apdus: seq<seq<byte>>)
    requires AllLegal(frames)
    ensures |apdus| == |frames|
  {
    if frames == [] then []
    else
      var before := frames[..|frames| - 1];
      Apdus(before) + [Apdu(frames[|frames| - 1], CountInformation(before))]
  }

  function Meant<P>(f: PeerFrame, k: nat, replies: Option<seq<P>>): Input<P> {
    match f
    case Information(recvSeq, _) => InformationInput(true, Number(k), recvSeq, replies)
    case Supervisory(recvSeq) => GotS(true, recvSeq)
    case Unnumbered(ty) => GotU(true, ty)
  }

  /** Numbers of I-frames are even, so that their first control octet tells them from other frames. */
  lemma {:induction false} NumberIsEven(k: nat)
    ensures Le16(Number(k))[0] % 2 == 0
  {
    var m := k % MODULUS;
    assert 2 * m == 256 * (m / 128) + 2 * (m % 128);
  }

  lemma {:induction false} InformationOctets(recvSeq: word, asdu: seq<byte>, k: nat)
    requires |asdu| <= 251
    ensures var a := Apdu(Information(recvSeq, asdu), k);
      && |a| == 6 + |asdu| && a[0] == START && a[1] as int + 2 == |a|
      && a[2] == Le16(Number(k))[0] && a[3] == Le16(Number(k))[1]
      && a[4] == Le16(recvSeq)[0] && a[5] == Le16(recvSeq)[1]
  {
  }

  /** A frame is read as it was meant. */
  lemma {:induction false} DecodeInvertsApdu<P>(f: PeerFrame, k: nat, replies: Option<seq<P>>)
    requires Legal(f)
    ensures var a := Apdu(f, k);
      IsApdu(a) && Decode(Handed(Kind(a[2]), a), replies) == Meant(f, k, replies)
  {
    match f
    case Information(recvSeq, asdu) =>
      InformationOctets(recvSeq, asdu, k);
      NumberIsEven(k);
      Le16RoundTrip(Number(k));
      Le16RoundTrip(recvSeq);
    case Supervisory(recvSeq) => Le16RoundTrip(recvSeq);
    case Unnumbered(_) =>
  }

  lemma {:induction false} HandedOfAppend(apdus: seq<seq<byte>>, a: seq<byte>)
    requires (forall i | 0 <= i < |apdus| :: IsApdu(apdus[i])) && IsApdu(a)
    ensures HandedOf(apdus + [a]) == HandedOf(apdus) + [Handed(Kind(a[2]), a)]
  {
    if apdus == [] {
      var none: seq<seq<byte>> := [];
      assert apdus + [a] == [a] && [a][1..] == none && HandedOf(none) == [];
    } else {
      assert IsApdu(apdus[0]);
      assert (apdus + [a])[0] == apdus[0] && (apdus + [a])[1..] == apdus[1..] + [a];
      HandedOfAppend(apdus[1..], a);
    }
  }

  lemma {:induction false} ApdusAreApdus(frames: seq<PeerFrame>)
    requires AllLegal(frames)
    ensures forall i | 0 <= i < |frames| :: IsApdu(Apdus(frames)[i])
  {
    if frames != [] {
      var n := |frames| - 1;
      ApdusAreApdus(frames[..n]);
      DecodeInvertsApdu<nat>(frames[n], CountInformation(frames[..n]), None);
    }
  }

  lemma {:induction false} EmitAllAcceptsNothing<P>(s: State<P>, ps: seq<P>)
    ensures CountAccepted(EmitAll(s, ps).log) == CountAccepted(s.log) && EmitAll(s, ps).closed == s.closed
    decreases |ps|
  {
    if ps != [] {
      EmitAllAcceptsNothing(EmitI(s, ps[0]), ps[1..]);
    }
  }

  lemma {:induction false} AnswerAcceptsNothing<P>(s: State<P>, w: int, ps: seq<P>)
    ensures CountAccepted(Answer(s, w, ps).log) == CountAccepted(s.log) && Answer(s, w, ps).closed == s.closed
  {
    EmitAllAcceptsNothing(s.(t2 := true), ps);
  }

  lemma {:induction false} ReleaseAcceptsNothing<P>(s: State<P>, d: Drop)
    ensures CountAccepted(Release(s, d).log) == CountAccepted(s.log) && Release(s, d).closed == s.closed
  {
    ReleasesAreSilent(s, d, s.sent, s.log);
  }

  /** The handler comes to read the ASDU of an input, and cannot. */
  predicate Raises<P>(s: State<P>, w: int, i: Input<P>) {
    i.GotUnreadableI? && ReadsAsdu(s, w, i)
  }

  /** No frame raises in the state in which it arrives. */
  predicate NeverRaises<P(==)>(w: int, ins: seq<Input<P>>) {
    ins == [] ||
    (NeverRaises(w, ins[..|ins| - 1]) && !Raises(Run(w, ins[..|ins| - 1]), w, ins[|ins| - 1]))
  }

  lemma {:induction false} InformationIsAccepted<P>(s: State<P>, w: int, i: Input<P>)
    requires Inv(s, w) && w >= 1 && i.GotI? && i.lengthOk && i.sendSeq == s.rsn
    ensures !HandleI(s, w, i).closed && CountAccepted(HandleI(s, w, i).log) == CountAccepted(s.log) + 1
  {
    var a := s.(telegrams := s.telegrams + 1, rsn := Next(s.rsn), log := Then(s.log, Accepted(s.rsn)));
    ReleaseAcceptsNothing(a, Below(i.recvSeq));
    AnswerAcceptsNothing(Accept(s, s.rsn, i.recvSeq), w, i.replies);
  }

  lemma {:induction false} OtherIsHandled<P>(s: State<P>, w: int, i: Input<P>)
    requires Inv(s, w) && w >= 1 && (i.GotS? || i.GotU?)
    ensures !Step(s, w, i).closed && CountAccepted(Step(s, w, i).log) == CountAccepted(s.log)
  {
    match i
    case GotS(_, recvSeq) =>
      var ack := if recvSeq <= s.ssn then recvSeq else s.ack;
      ReleaseAcceptsNothing(s.(ack := ack), Below(ack));
    case GotU(_, _) =>
      ReleaseAcceptsNothing(s, TestFrames);
      EmitAllAcceptsNothing(EmitU(s.(allowDT := true), STARTDT_CON), s.buffer);
  }

  /**
   * A frame that is numbered as the link expects it closes the link if and only if it raises; otherwise it is accepted
   * if it is an I-frame.
   */
  lemma {:induction false} MeantIsAccepted<P>(s: State<P>, w: int, f: PeerFrame, replies: Option<seq<P>>)
    requires Inv(s, w) && w >= 1
    ensures var i := Meant(f, CountAccepted(s.log), replies);
      var t := Step(s, w, i);
      && (t.closed <==> Raises(s, w, i))
      && (!t.closed ==> CountAccepted(t.log) == CountAccepted(s.log) + if f.Information? then 1 else 0)
  {
    var i := Meant(f, CountAccepted(s.log), replies);
    match i
    case GotI(_, _, _, _) => InformationIsAccepted(s, w, i);
    case GotUnreadableI(_, _, _) => InformationIsAccepted(s, w, Unanswered(i));
    case _ => OtherIsHandled(s, w, i);
  }

  function InputsOf<P>(frames: seq<PeerFrame>, handler: Handler<P>): seq<Input<P>>
    requires AllLegal(frames)
  {
    ApdusAreApdus(frames);
    HandedAreWhole(Apdus(frames));
    Inputs(HandedOf(Apdus(frames)), handler)
  }

  /** One more frame is one more input, read as it was meant. */
  lemma {:induction false} InputsOfOneMore<P>(
      frames: seq<PeerFrame>, handler: Handler<P>) returns (replies: Option<seq<P>>)
    requires AllLegal(frames) && frames != []
    ensures var before, f := frames[..|frames| - 1], frames[|frames| - 1];
      && InputsOf(frames, handler) == InputsOf(before, handler) + [Meant(f, CountInformation(before), replies)]
      && Legal(f)
      && var a := Apdu(f, CountInformation(before)); replies == handler(|before|, Handed(Kind(a[2]), a))
  {
    var n := |frames| - 1;
    var before, f := frames[..n], frames[n];
    ApdusAreApdus(frames);
    ApdusAreApdus(before);
    var a := Apdu(f, CountInformation(before));
    HandedAreWhole(Apdus(frames));
    HandedAreWhole(Apdus(before));
    HandedOfAppend(Apdus(before), a);
    var handed := HandedOf(Apdus(frames));
    assert handed[..n] == HandedOf(Apdus(before));
    replies := handler(n, handed[n]);
    DecodeInvertsApdu(f, CountInformation(before), replies);
  }

  lemma {:induction false} CountingPeerIsAccepted<P>(w: int, frames: seq<PeerFrame>, handler: Handler<P>)
    requires w >= 1 && AllLegal(frames)
    ensures var ins := InputsOf(frames, handler);
      && (!Run(w, ins).closed <==> NeverRaises(w, ins))
      && (!Run(w, ins).closed ==> CountAccepted(Run(w, ins).log) == CountInformation(frames))
  {
    if frames == [] {
      assert InputsOf(frames, handler) == [];
    } else {
      var n := |frames| - 1;
      var before, f := frames[..n], frames[n];
      CountingPeerIsAccepted(w, before, handler);
      var replies := InputsOfOneMore(frames, handler);
      var old0, ins := InputsOf(before, handler), InputsOf(frames, handler);
      assert ins[..|ins| - 1] == old0;
      var s := Run(w, old0);
      if !s.closed {
        EveryRunIsWellSequenced(w, old0);
        MeantIsAccepted(s, w, f, replies);
      }
    }
  }

  /**
   * The whole way: whatever a peer that numbers its I-frames sends, and however the octets are split on the way, the
   * link stays open if and only if the handler can read every ASDU it comes to read; it has then accepted every one
   * of the I-frames.
   */
  lemma {:induction false} CountingPeerIsHeard<P>(w: int, frames: seq<PeerFrame>, splits: seq<nat>, handler: Handler<P>)
    requires w >= 1 && AllLegal(frames)
    ensures var handed := Serve(Flatten(Apdus(frames)), splits).frames;
      && Whole(handed)
      && var ins := Inputs(handed, handler);
         && (!Run(w, ins).closed <==> NeverRaises(w, ins))
         && (!Run(w, ins).closed ==> Inv(Run(w, ins), w) && CountAccepted(Run(w, ins).log) == CountInformation(frames))
  {
    ApdusAreApdus(frames);
    StreamIsWellSequenced(w, Apdus(frames), splits, handler);
    CountingPeerIsAccepted(w, frames, handler);
    EveryRunIsWellSequenced(w, InputsOf(frames, handler));
  }

  /** The head of an ASDU has six octets; a handler reads it where it is whole. */
  ghost predicate ReadsWholeHeads<P>(handler: Handler<P>) {
    forall n, h: Handed | |h.octets| >= 12 :: handler(n, h).Some?
  }

  lemma {:induction false} WholeHeadsNeverRaise<P>(w: int, frames: seq<PeerFrame>, handler: Handler<P>)
    requires AllLegal(frames) && ReadsWholeHeads(handler)
    requires forall k | 0 <= k < |frames| && frames[k].Information? :: |frames[k].asdu| >= 6
    ensures NeverRaises(w, InputsOf(frames, handler))
  {
    if frames == [] {
      assert InputsOf(frames, handler) == [];
    } else {
      var n := |frames| - 1;
      var before, f := frames[..n], frames[n];
      WholeHeadsNeverRaise(w, before, handler);
      var replies := InputsOfOneMore(frames, handler);
      var ins := InputsOf(frames, handler);
      assert ins[..|ins| - 1] == InputsOf(before, handler);
      if f.Information? {
        assert |Apdu(f, CountInformation(before))| >= 12;
      }
    }
  }

  /** In particular a peer whose I-frames all carry a whole head is heard to the end. */
  lemma {:induction false} WholePeerIsHeard<P>(w: int, frames: seq<PeerFrame>, splits: seq<nat>, handler: Handler<P>)
    requires w >= 1 && AllLegal(frames) && ReadsWholeHeads(handler)
    requires forall k | 0 <= k < |frames| && frames[k].Information? :: |frames[k].asdu| >= 6
    ensures var handed := Serve(Flatten(Apdus(frames)), splits).frames;
      && Whole(handed)
      && var s := Run(w, Inputs(handed, handler));
         !s.closed && Inv(s, w) && CountAccepted(s.log) == CountInformation(frames)
  {
    CountingPeerIsHeard(w, frames, splits, handler);
    WholeHeadsNeverRaise(w, frames, handler);
    ApdusAreApdus(frames);
    StreamIsWellSequenced(w, Apdus(frames), splits, handler);
  }

  /** An I-frame without an ASDU, which no handler can read, ends the link. */
  lemma {:induction false} EmptyAsduEndsLink<P>(w: int, recvSeq: word, splits: seq<nat>, handler: Handler<P>)
    requires w >= 2 && forall n, h: Handed | |h.octets| == 6 :: handler(n, h).None?
    ensures var handed := Serve(Flatten(Apdus([Information(recvSeq, [])])), splits).frames;
      Whole(handed) && Run(w, Inputs(handed, handler)).closed
  {
    var frames := [Information(recvSeq, [])];
    CountingPeerIsHeard(w, frames, splits, handler);
    ApdusAreApdus(frames);
    StreamIsWellSequenced(w, Apdus(frames), splits, handler);
    var replies := InputsOfOneMore(frames, handler);
    var none: seq<PeerFrame> := [];
    assert frames[..0] == none && InputsOf(none, handler) == [] && CountInformation(none) == 0;
    assert |Apdu(frames[0], 0)| == 6;
    var ins := InputsOf(frames, handler);
    assert ins == [Meant(frames[0], 0, None)] && ins[..0] == [];
    assert Raises(Run(w, ins[..0]), w, ins[0]);
  }
}
