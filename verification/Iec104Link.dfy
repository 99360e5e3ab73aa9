/**
 * The IEC 60870-5-104 link of a controlled station (conpot/protocols/IEC104/IEC104.py): sequence numbers,
 * acknowledgement, STARTDT/STOPDT and the list of unacknowledged frames, as a state machine.
 *
 * `P` is the type of packet objects. Packets have an identity: the same object can be in `buffer` and in
 * `sent`, and sending it again overwrites its one SendSeq field (`seqs`).
 */
module Iec104Link {
  const STARTDT_ACT := 0x07
  const STARTDT_CON := 0x0B
  const STOPDT_ACT := 0x13
  const STOPDT_CON := 0x23
  const TESTFR_ACT := 0x43
  const TESTFR_CON := 0x83
  const BUFFER_LIMIT := 50
  const MODULUS := 32768

  /** A `frame_object_with_timer` in `sentmsgs`: an I-frame or a U-frame of some type. */
  datatype Entry<P> = EI(p: P) | EU(ty: nat)

  datatype Event<P> =
    | Accepted(sendSeq: nat)
    | SentI(p: P, sendSeq: nat, recvSeq: nat)
    | SentS(recvSeq: nat)
    | SentU(ty: nat)
    | Withheld(p: P)
    | Released(e: Entry<P>)
    | Closed

  /** Everything the link did, oldest first. `Released` is leaving `sentmsgs` with T1 cancelled. */
  datatype Trace<P> = Start | Then(past: Trace<P>, last: Event<P>)

  datatype State<P> = State(
    ssn: nat, rsn: nat, ack: nat,
    allowDT: bool, t2: bool, telegrams: int,
    sent: seq<Entry<P>>, buffer: seq<P>, seqs: map<P, nat>,
    closed: bool, log: Trace<P>)

  /**
   * What can happen to the link. `replies` are the packets the command handlers produce for the frame; a frame is
   * unreadable if asking it for its type or its common address raises an exception.
   */
  datatype Input<P> =
    | GotI(lengthOk: bool, sendSeq: nat, recvSeq: nat, replies: seq<P>)
    | GotUnreadableI(lengthOk: bool, sendSeq: nat, recvSeq: nat)
    | GotS(wellFormed: bool, recvSeq: nat)
    | GotU(wellFormed: bool, ty: nat)
    | T1Expires
    | T2Expires
    | T3Expires
    | PeerGone

  function Initial<P>(): State<P> {
    State(0, 0, 0, false, false, 0, [], [], map[], false, Start)
  }

  function Next(n: nat): nat {
    if n < 65534 then n + 2 else 0
  }

  function SeqOf<P(==)>(s: State<P>, p: P): nat {
    if p in s.seqs then s.seqs[p] else 0
  }

  // ---------- send_104frame ----------

  function EmitS<P>(s: State<P>): State<P> {
    s.(telegrams := 0, t2 := false, log := Then(s.log, SentS(s.rsn)))
  }

  function EmitU<P>(s: State<P>, ty: nat): State<P> {
    s.(sent := if ty == STARTDT_ACT || ty == TESTFR_ACT then s.sent + [EU(ty)] else s.sent,
       log := Then(s.log, SentU(ty)))
  }

  function EmitI<P(==)>(s: State<P>, p: P): State<P> {
    if s.allowDT then
      s.(t2 := false, telegrams := 0, ssn := Next(s.ssn), seqs := s.seqs[p := s.ssn], sent := s.sent + [EI(p)],
         log := Then(s.log, SentI(p, s.ssn, s.rsn)))
    else
      s.(buffer := if |s.buffer| < BUFFER_LIMIT then s.buffer + [p] else s.buffer, log := Then(s.log, Withheld(p)))
  }

  function EmitAll<P(==)>(s: State<P>, ps: seq<P>): State<P>
    decreases |ps|
  {
    if ps == [] then s else EmitAll(EmitI(s, ps[0]), ps[1..])
  }

  // ---------- Acknowledgement ----------

  /** `Below(n)` drops I-frames with SendSeq under n; `TestFrames` drops the pending TESTFR_act. */
  datatype Drop = Below(n: nat) | TestFrames

  predicate Drops<P(==)>(s: State<P>, d: Drop, e: Entry<P>) {
    match d
    case Below(n) => e.EI? && SeqOf(s, e.p) < n
    case TestFrames => e == EU(TESTFR_ACT)
  }

  function Kept<P(==)>(s: State<P>, d: Drop, sent: seq<Entry<P>>): seq<Entry<P>> {
    if sent == [] then []
    else (if Drops(s, d, sent[0]) then [] else [sent[0]]) + Kept(s, d, sent[1..])
  }

  function Releases<P(==)>(s: State<P>, d: Drop, sent: seq<Entry<P>>, log: Trace<P>): Trace<P> {
    if sent == [] then log
    else Releases(s, d, sent[1..], if Drops(s, d, sent[0]) then Then(log, Released(sent[0])) else log)
  }

  function Release<P(==)>(s: State<P>, d: Drop): State<P> {
    s.(sent := Kept(s, d, s.sent), log := Releases(s, d, s.sent, s.log))
  }

  // ---------- Received frames and timers ----------

  function Disconnect<P>(s: State<P>): State<P> {
    s.(ssn := 0, rsn := 0, ack := 0, telegrams := 0, t2 := false, closed := true, log := Then(s.log, Closed))
  }

  function Accept<P(==)>(s: State<P>, sendSeq: nat, recvSeq: nat): State<P> {
    Release(s.(telegrams := s.telegrams + 1, rsn := Next(s.rsn), log := Then(s.log, Accepted(sendSeq))), Below(recvSeq))
  }

  function Answer<P(==)>(s: State<P>, w: int, replies: seq<P>): State<P> {
    if s.telegrams >= w then EmitS(s.(t2 := true)) else EmitAll(s.(t2 := true), replies)
  }

  function HandleI<P(==)>(s: State<P>, w: int, i: Input<P>): State<P>
    requires i.GotI?
  {
    if !i.lengthOk then Answer(s, w, i.replies)
    else if i.sendSeq != s.rsn then EmitS(Disconnect(s))
    else Answer(Accept(s, i.sendSeq, i.recvSeq), w, i.replies)
  }

  /** The handler comes to read what the I-frame carries: it is not refused, nor the w-th unacknowledged one. */
  predicate ReadsAsdu<P>(s: State<P>, w: int, i: Input<P>)
    requires i.GotI? || i.GotUnreadableI?
  {
    if i.lengthOk then i.sendSeq == s.rsn && s.telegrams + 1 < w else s.telegrams < w
  }

  /** An exception that nothing catches ends the connection loop. */
  function Die<P>(s: State<P>): State<P> {
    s.(closed := true, log := Then(s.log, Closed))
  }

  /** The same frame, with nothing in it that would be answered. */
  function Unanswered<P>(i: Input<P>): Input<P>
    requires i.GotUnreadableI?
  {
    GotI(i.lengthOk, i.sendSeq, i.recvSeq, [])
  }

  function HandleUnreadableI<P(==)>(s: State<P>, w: int, i: Input<P>): State<P>
    requires i.GotUnreadableI?
  {
    var t := HandleI(s, w, Unanswered(i));
    if ReadsAsdu(s, w, i) then Die(t) else t
  }

  function HandleS<P(==)>(s: State<P>, i: Input<P>): State<P>
    requires i.GotS?
  {
    if !i.wellFormed then s
    else
      var ack := if i.recvSeq <= s.ssn then i.recvSeq else s.ack;
      Release(s.(ack := ack), Below(ack))
  }

  /** STARTDT_act: the confirmation, then the buffered packets. */
  function StartTransfer<P(==)>(s: State<P>): State<P> {
    EmitAll(EmitU(s.(allowDT := true), STARTDT_CON), s.buffer)
  }

  function HandleU<P(==)>(s: State<P>, i: Input<P>): State<P>
    requires i.GotU?
  {
    if !i.wellFormed then s
    else if i.ty == STARTDT_ACT then StartTransfer(s)
    else if i.ty == STOPDT_ACT then EmitU(EmitS(s.(allowDT := false)), STOPDT_CON)
    else if i.ty == TESTFR_ACT then EmitU(Release(s, TestFrames), TESTFR_CON)
    else if i.ty == TESTFR_CON then Release(s, TestFrames)
    else s
  }

  function Step<P(==)>(s: State<P>, w: int, i: Input<P>): State<P> {
    if s.closed then s
    else
      match i
      case GotI(_, _, _, _) => HandleI(s, w, i)
      case GotUnreadableI(_, _, _) => HandleUnreadableI(s, w, i)
      case GotS(_, _) => HandleS(s, i)
      case GotU(_, _) => HandleU(s, i)
      case T1Expires => Disconnect(s)
      case T2Expires => if s.t2 then EmitS(s) else s
      case T3Expires => EmitU(s, TESTFR_ACT)
      case PeerGone => Disconnect(s)
  }

  function Run<P(==)>(w: int, ins: seq<Input<P>>): State<P> {
    if ins == [] then Initial() else Step(Run(w, ins[..|ins| - 1]), w, ins[|ins| - 1])
  }

  // ---------- What a trace says ----------

  function CountI<P>(t: Trace<P>): nat {
    match t
    case Start => 0
    case Then(past, e) => CountI(past) + if e.SentI? then 1 else 0
  }

  function CountAccepted<P>(t: Trace<P>): nat {
    match t
    case Start => 0
    case Then(past, e) => CountAccepted(past) + if e.Accepted? then 1 else 0
  }

  /** The sequence number of the n-th frame: frames count by twos, modulo 2^16. */
  function Number(n: nat): nat {
    2 * (n % MODULUS)
  }

  /** Data transfer is started: the last of STARTDT_con and STOPDT_con was STARTDT_con. */
  predicate Started<P>(t: Trace<P>) {
    match t
    case Start => false
    case Then(past, e) =>
      if e == SentU(STARTDT_CON) then true else if e == SentU(STOPDT_CON) then false else Started(past)
  }

  /** Accepted frames that no emitted frame has acknowledged yet. */
  function Unacknowledged<P>(t: Trace<P>): nat {
    match t
    case Start => 0
    case Then(past, e) =>
      if e.SentI? || e.SentS? then 0 else Unacknowledged(past) + if e.Accepted? then 1 else 0
  }

  /** The packets produced while data transfer was stopped, in order. */
  function WithheldIn<P>(t: Trace<P>): seq<P> {
    match t
    case Start => []
    case Then(past, e) => WithheldIn(past) + if e.Withheld? then [e.p] else []
  }

  /** Every event is numbered by what went before it, and I-frames leave only while data transfer is started. */
  predicate WellSequenced<P>(t: Trace<P>) {
    match t
    case Start => true
    case Then(past, e) =>
      && WellSequenced(past)
      && match e
         case Accepted(n) => n == Number(CountAccepted(past))
         case SentI(_, n, r) => n == Number(CountI(past)) && r == Number(CountAccepted(past)) && Started(past)
         case SentS(r) => r == Number(CountAccepted(past))
         case _ => true
  }

  predicate IsOpen<P>(t: Trace<P>) {
    match t
    case Start => true
    case Then(past, e) => !e.Closed? && IsOpen(past)
  }

  /** The part of the trace before the connection was closed. */
  function WhileOpen<P>(t: Trace<P>): Trace<P> {
    match t
    case Start => Start
    case Then(past, e) => if e.Closed? then past else if IsOpen(past) then t else WhileOpen(past)
  }

  function FirstFew<P>(s: seq<P>, n: nat): seq<P> {
    if |s| <= n then s else s[..n]
  }

  // ---------- Sequencing ----------

  lemma {:induction false} KeptIsPart<P>(s: State<P>, d: Drop, sent: seq<Entry<P>>)
    ensures forall k | 0 <= k < |Kept(s, d, sent)| :: Kept(s, d, sent)[k] in sent
  {
    if sent != [] {
      KeptIsPart(s, d, sent[1..]);
    }
  }

  ghost predicate Counts<P>(s: State<P>) {
    && !s.closed && IsOpen(s.log) && WellSequenced(s.log)
    && s.ssn == Number(CountI(s.log)) && s.rsn == Number(CountAccepted(s.log))
    && s.buffer == FirstFew(WithheldIn(s.log), BUFFER_LIMIT)
    && s.telegrams == Unacknowledged(s.log)
  }

  /** The invariant of the open link. */
  ghost predicate Inv<P>(s: State<P>, w: int) {
    Counts(s) && s.allowDT == Started(s.log) && s.telegrams < w
  }

  lemma {:induction false} NumberStep(n: nat)
    ensures Next(Number(n)) == Number(n + 1)
  {
  }

  lemma {:induction false} EmitICounts<P>(s: State<P>, p: P)
    requires Counts(s) && s.allowDT == Started(s.log)
    ensures Counts(EmitI(s, p)) && EmitI(s, p).allowDT == Started(EmitI(s, p).log) == s.allowDT
    ensures EmitI(s, p).telegrams <= s.telegrams
  {
    NumberStep(CountI(s.log));
  }

  lemma {:induction false} EmitAllCounts<P>(s: State<P>, ps: seq<P>)
    requires Counts(s) && s.allowDT == Started(s.log)
    ensures Counts(EmitAll(s, ps)) && EmitAll(s, ps).allowDT == Started(EmitAll(s, ps).log) == s.allowDT
    ensures EmitAll(s, ps).telegrams <= s.telegrams
    decreases |ps|
  {
    if ps != [] {
      EmitICounts(s, ps[0]);
      EmitAllCounts(EmitI(s, ps[0]), ps[1..]);
    }
  }

  lemma {:induction false} ReleasesAreSilent<P>(s: State<P>, d: Drop, sent: seq<Entry<P>>, log: Trace<P>)
    ensures var t := Releases(s, d, sent, log);
            && CountI(t) == CountI(log) && CountAccepted(t) == CountAccepted(log) && Started(t) == Started(log)
            && Unacknowledged(t) == Unacknowledged(log) && WithheldIn(t) == WithheldIn(log)
            && WellSequenced(t) == WellSequenced(log) && IsOpen(t) == IsOpen(log)
  {
    if sent != [] {
      ReleasesAreSilent(s, d, sent[1..], if Drops(s, d, sent[0]) then Then(log, Released(sent[0])) else log);
    }
  }

  lemma {:induction false} ReleaseCounts<P>(s: State<P>, d: Drop)
    requires Counts(s)
    ensures Counts(Release(s, d)) && Started(Release(s, d).log) == Started(s.log)
  {
    ReleasesAreSilent(s, d, s.sent, s.log);
  }

  lemma {:induction false} AnswerKeepsInv<P>(s: State<P>, w: int, replies: seq<P>)
    requires Counts(s) && s.allowDT == Started(s.log) && w >= 1
    ensures Inv(Answer(s, w, replies), w)
  {
    EmitAllCounts(s.(t2 := true), replies);
  }

  lemma {:induction false} AcceptCounts<P>(s: State<P>, sendSeq: nat, recvSeq: nat)
    requires Counts(s) && sendSeq == s.rsn
    ensures var a := Accept(s, sendSeq, recvSeq);
            Counts(a) && Started(a.log) == Started(s.log) && a.allowDT == s.allowDT
  {
    NumberStep(CountAccepted(s.log));
    var a := s.(telegrams := s.telegrams + 1, rsn := Next(s.rsn), log := Then(s.log, Accepted(sendSeq)));
    ReleaseCounts(a, Below(recvSeq));
  }

  lemma {:induction false} HandleIKeepsInv<P>(s: State<P>, w: int, i: Input<P>)
    requires Inv(s, w) && w >= 1 && i.GotI?
    ensures var s' := HandleI(s, w, i);
            if s'.closed then s'.log == Then(Then(s.log, Closed), SentS(0)) else Inv(s', w)
  {
    if !i.lengthOk {
      AnswerKeepsInv(s, w, i.replies);
    } else if i.sendSeq == s.rsn {
      AcceptCounts(s, i.sendSeq, i.recvSeq);
      AnswerKeepsInv(Accept(s, i.sendSeq, i.recvSeq), w, i.replies);
    }
  }

  lemma {:induction false} HandleSKeepsInv<P>(s: State<P>, w: int, i: Input<P>)
    requires Inv(s, w) && i.GotS?
    ensures Inv(HandleS(s, i), w)
  {
    var ack := if i.recvSeq <= s.ssn then i.recvSeq else s.ack;
    ReleaseCounts(s.(ack := ack), Below(ack));
  }

  lemma {:induction false} StartKeepsInv<P>(s: State<P>, w: int)
    requires Inv(s, w)
    ensures Inv(StartTransfer(s), w)
  {
    var u := EmitU(s.(allowDT := true), STARTDT_CON);
    assert Counts(u);
    EmitAllCounts(u, s.buffer);
  }

  lemma {:induction false} StopKeepsInv<P>(s: State<P>, w: int)
    requires Inv(s, w) && w >= 1
    ensures Inv(EmitU(EmitS(s.(allowDT := false)), STOPDT_CON), w)
  {
  }

  lemma {:induction false} TestKeepsInv<P>(s: State<P>, w: int)
    requires Inv(s, w)
    ensures Inv(Release(s, TestFrames), w) && Inv(EmitU(Release(s, TestFrames), TESTFR_CON), w)
  {
    ReleaseCounts(s, TestFrames);
  }

  lemma {:induction false} HandleUKeepsInv<P>(s: State<P>, w: int, i: Input<P>)
    requires Inv(s, w) && w >= 1 && i.GotU?
    ensures Inv(HandleU(s, i), w)
  {
    if i.wellFormed {
      if i.ty == STARTDT_ACT {
        StartKeepsInv(s, w);
      } else if i.ty == STOPDT_ACT {
        StopKeepsInv(s, w);
      } else if i.ty == TESTFR_ACT || i.ty == TESTFR_CON {
        TestKeepsInv(s, w);
      }
    }
  }

  lemma {:induction false} HandleUnreadableIKeepsInv<P>(s: State<P>, w: int, i: Input<P>)
    requires Inv(s, w) && w >= 1 && i.GotUnreadableI?
    ensures var s' := HandleUnreadableI(s, w, i);
            if ReadsAsdu(s, w, i) then Inv(HandleI(s, w, Unanswered(i)), w)
            else if s'.closed then s'.log == Then(Then(s.log, Closed), SentS(0)) else Inv(s', w)
  {
    HandleIKeepsInv(s, w, Unanswered(i));
  }

  /** How a step closes the link: at once, before an S-frame, or after an unreadable frame has been accepted. */
  ghost predicate ClosesWell<P>(s: State<P>, w: int, i: Input<P>, s': State<P>) {
    || s'.log == Then(s.log, Closed)
    || s'.log == Then(Then(s.log, Closed), SentS(0))
    || (i.GotUnreadableI? && s' == Die(HandleI(s, w, Unanswered(i))) && Inv(HandleI(s, w, Unanswered(i)), w))
  }

  lemma {:induction false} StepKeepsInv<P>(s: State<P>, w: int, i: Input<P>)
    requires Inv(s, w) && w >= 1
    ensures var s' := Step(s, w, i); if s'.closed then ClosesWell(s, w, i, s') else Inv(s', w)
  {
    match i
    case GotI(_, _, _, _) => HandleIKeepsInv(s, w, i);
    case GotUnreadableI(_, _, _) => HandleUnreadableIKeepsInv(s, w, i);
    case GotS(_, _) => HandleSKeepsInv(s, w, i);
    case GotU(_, _) => HandleUKeepsInv(s, w, i);
    case _ =>
  }

  /**
   * Sequencing over every run: until the connection closes, the k-th accepted I-frame carries 2*(k mod 32768),
   * so does the k-th emitted one, every emitted I- or S-frame carries as RecvSeq the frames accepted so far,
   * no I-frame leaves while stopped, and fewer than w accepted frames wait for acknowledgement.
   */
  lemma {:induction false} EveryRunIsWellSequenced<P>(w: int, ins: seq<Input<P>>)
    requires w >= 1
    ensures WellSequenced(WhileOpen(Run(w, ins).log))
    ensures !Run(w, ins).closed ==> Inv(Run(w, ins), w) && WhileOpen(Run(w, ins).log) == Run(w, ins).log
  {
    if ins != [] {
      var s := Run(w, ins[..|ins| - 1]);
      EveryRunIsWellSequenced(w, ins[..|ins| - 1]);
      if !s.closed {
        StepKeepsInv(s, w, ins[|ins| - 1]);
      }
    }
  }

  // ---------- Where the code differs from its own comments ----------

  /**
   * On a sequence error the S-frame is meant for the last correct packet, but `disconnect` has already reset
   * the counters: it carries 0, which is the accepted count only when that count is a multiple of 32768.
   */
  lemma {:induction false} SequenceErrorReportsZero<P>(s: State<P>, w: int, i: Input<P>)
    requires Inv(s, w) && (i.GotI? || i.GotUnreadableI?) && i.lengthOk && i.sendSeq != s.rsn
    ensures Step(s, w, i).closed && Step(s, w, i).log == Then(Then(s.log, Closed), SentS(0))
    ensures 0 == Number(CountAccepted(s.log)) <==> CountAccepted(s.log) % MODULUS == 0
  {
  }

  /**
   * An I-frame whose contents cannot be read closes the link if and only if the handler comes to read them or the
   * frame is out of sequence: as the w-th unacknowledged frame it does no harm.
   */
  lemma {:induction false} UnreadableClosesIffRead<P>(s: State<P>, w: int, i: Input<P>)
    requires Inv(s, w) && w >= 1 && i.GotUnreadableI?
    ensures Step(s, w, i).closed <==> ReadsAsdu(s, w, i) || (i.lengthOk && i.sendSeq != s.rsn)
  {
    HandleUnreadableIKeepsInv(s, w, i);
    HandleIKeepsInv(s, w, Unanswered(i));
  }

  /** The command in the w-th unacknowledged frame is dropped: only the S-frame answers it. */
  lemma {:induction false} WthCommandIsDropped<P>(s: State<P>, w: int, i: Input<P>, other: seq<P>)
    requires Inv(s, w) && !s.closed && i.GotI? && i.lengthOk && i.sendSeq == s.rsn && s.telegrams + 1 >= w
    ensures Step(s, w, i) == Step(s, w, i.(replies := other))
    ensures var s' := Step(s, w, i);
            CountI(s'.log) == CountI(s.log) && s'.log.Then? && s'.log.last == SentS(Number(CountAccepted(s.log) + 1))
  {
    NumberStep(CountAccepted(s.log));
    var a := s.(telegrams := s.telegrams + 1, rsn := Next(s.rsn), log := Then(s.log, Accepted(i.sendSeq)));
    ReleasesAreSilent(a, Below(i.recvSeq), a.sent, a.log);
  }

  /**
   * Which commands are looked at: exactly those below the w-th unacknowledged frame. `p` is any packet a handler
   * could answer with.
   */
  lemma {:induction false} CommandMattersIffBelowW<P>(s: State<P>, w: int, i: Input<P>, p: P)
    requires Inv(s, w) && i.GotI? && i.lengthOk && i.sendSeq == s.rsn
    ensures (forall a, b :: Step(s, w, i.(replies := a)) == Step(s, w, i.(replies := b))) <==> s.telegrams + 1 >= w
  {
    if s.telegrams + 1 >= w {
      forall a, b
        ensures Step(s, w, i.(replies := a)) == Step(s, w, i.(replies := b))
      {
        WthCommandIsDropped(s, w, i.(replies := a), b);
      }
    } else {
      var t := Accept(s, i.sendSeq, i.recvSeq).(t2 := true);
      var none: seq<P> := [];
      assert [p][1..] == none;
      assert Step(s, w, i.(replies := [p])) == EmitAll(t, [p]) == EmitI(t, p);
      assert Step(s, w, i.(replies := none)) == t;
      assert EmitI(t, p).log != t.log;
    }
  }

  /** `n` frames in sequence that bring no command and acknowledge nothing. */
  function Quiet<P>(n: nat): (ins: seq<Input<P>>)
    ensures |ins| == n
  {
    if n == 0 then [] else Quiet(n - 1) + [GotI(true, Number(n - 1), 0, [])]
  }

  lemma {:induction false} QuietRun<P>(w: int, n: nat)
    requires n < w
    ensures var s: State<P> := Run(w, Quiet(n));
      Inv(s, w) && s.telegrams == n && CountAccepted(s.log) == n && s.sent == []
  {
    if n > 0 {
      QuietRun<P>(w, n - 1);
      var ins: seq<Input<P>> := Quiet(n);
      var s := Run(w, Quiet<P>(n - 1));
      assert ins[..n - 1] == Quiet<P>(n - 1) && ins[n - 1] == GotI(true, Number(n - 1), 0, []);
      assert Run(w, ins) == Step(s, w, ins[n - 1]);
      StepKeepsInv(s, w, ins[n - 1]);
    }
  }

  lemma {:induction false} RunOneMore<P>(w: int, ins: seq<Input<P>>, i: Input<P>)
    ensures Run(w, ins + [i]) == Step(Run(w, ins), w, i)
  {
    assert (ins + [i])[..|ins|] == ins;
  }

  /** For every w a run loses a command: after w - 1 quiet frames the w-th goes the same way whatever it asks for. */
  lemma {:induction false} EveryWLosesACommand<P>(w: int, replies: seq<P>)
    requires w >= 1
    ensures var quiet: seq<Input<P>> := Quiet(w - 1);
      && Run(w, quiet + [GotI(true, Number(w - 1), 0, replies)]) == Run(w, quiet + [GotI(true, Number(w - 1), 0, [])])
      && CountAccepted(Run(w, quiet + [GotI(true, Number(w - 1), 0, replies)]).log) == w
  {
    QuietRun<P>(w, w - 1);
    var quiet: seq<Input<P>> := Quiet(w - 1);
    var s, i := Run(w, quiet), GotI(true, Number(w - 1), 0, replies);
    WthCommandIsDropped(s, w, i, []);
    RunOneMore(w, quiet, i);
    RunOneMore(w, quiet, i.(replies := []));
    assert Step(s, w, i) == EmitS(Accept(s, i.sendSeq, 0).(t2 := true));
    ReleasesAreSilent(s, Below(0), s.sent, Then(s.log, Accepted(i.sendSeq)));
  }
}
