/**
 * What the controlled station sends in answer to each frame and timer, in the octets of IEC 60870-5-104 and in terms of
 * the frames exchanged so far: the control octets of section 5.3 and the numbering of section 5.1.
 */
module Iec104Answers {
  import opened Iec104Link
  import opened Sequences

  /** The frames that left, in order. */
  function Sent<P>(t: Trace<P>): seq<Event<P>> {
    match t
    case Start => []
    case Then(past, e) => Sent(past) + if e.SentI? || e.SentS? || e.SentU? then [e] else []
  }

  /** The number after `n` frames. */
  function After(n: nat): nat {
    2 * (n % 32768)
  }

  /** I-frames with these packets, the first numbered after `n` others, each acknowledging `accepted` frames. */
  function Numbered<P>(ps: seq<P>, n: nat, accepted: nat): seq<Event<P>> {
    if ps == [] then [] else [SentI(ps[0], After(n), After(accepted))] + Numbered(ps[1..], n + 1, accepted)
  }

  /** The answer to an I-frame in sequence, or of a length that is not looked at (then `counted` is 0). */
  function AnswerI<P>(t: Trace<P>, w: int, counted: nat, replies: seq<P>): seq<Event<P>> {
    var accepted := CountAccepted(t) + counted;
    if Unacknowledged(t) + counted >= w then [SentS(After(accepted))]
    else if Started(t) then Numbered(replies, CountI(t), accepted)
    else []
  }

  predicate OutOfSequence<P>(t: Trace<P>, i: Input<P>)
    requires i.GotI? || i.GotUnreadableI?
  {
    i.lengthOk && i.sendSeq != After(CountAccepted(t))
  }

  /** Everything that is sent in answer to `i` after the frames of `t`; `t2` says whether T2 is running. */
  function Answers<P>(t: Trace<P>, t2: bool, w: int, i: Input<P>): seq<Event<P>> {
    match i
    case GotI(ok, _, _, replies) =>
      if OutOfSequence(t, i) then [SentS(0)] else AnswerI(t, w, if ok then 1 else 0, replies)
    case GotUnreadableI(ok, _, _) =>
      if OutOfSequence(t, i) then [SentS(0)] else AnswerI(t, w, if ok then 1 else 0, [])
    case GotS(_, _) => []
    case GotU(ok, ty) =>
      if !ok then []
      else if ty == 0x07 then [SentU(0x0B)] + Numbered(FirstFew(WithheldIn(t), 50), CountI(t), CountAccepted(t))
      else if ty == 0x13 then [SentS(After(CountAccepted(t))), SentU(0x23)]
      else if ty == 0x43 then [SentU(0x83)]
      else []
    case T1Expires => []
    case T2Expires => if t2 then [SentS(After(CountAccepted(t)))] else []
    case T3Expires => [SentU(0x43)]
    case PeerGone => []
  }

  // ---------- What each operation sends ----------

  lemma {:induction false} ReleasesSendNothing<P>(s: State<P>, d: Drop, sent: seq<Entry<P>>, log: Trace<P>)
    ensures Sent(Releases(s, d, sent, log)) == Sent(log)
  {
    if sent != [] {
      ReleasesSendNothing(s, d, sent[1..], if Drops(s, d, sent[0]) then Then(log, Released(sent[0])) else log);
    }
  }

  /** Packets are sent one after the other, or all withheld. */
  lemma {:induction false} EmitAllSends<P>(s: State<P>, ps: seq<P>)
    requires Counts(s) && s.allowDT == Started(s.log)
    ensures Sent(EmitAll(s, ps).log)
         == Sent(s.log) + if Started(s.log) then Numbered(ps, CountI(s.log), CountAccepted(s.log)) else []
    ensures EmitAll(s, ps).t2 <==> s.t2 && (ps == [] || !Started(s.log))
    ensures EmitAll(s, ps).ack == s.ack && EmitAll(s, ps).closed == s.closed
    decreases |ps|
  {
    if ps != [] {
      var e := EmitI(s, ps[0]);
      EmitICounts(s, ps[0]);
      EmitAllSends(e, ps[1..]);
      if s.allowDT {
        Assoc(Sent(s.log), [SentI(ps[0], s.ssn, s.rsn)], Numbered(ps[1..], CountI(e.log), CountAccepted(e.log)));
      }
    }
  }

  /** The state after a handler has run, seen from outside. */
  ghost predicate Left<P>(s: State<P>, s': State<P>, sent: seq<Event<P>>, t2: bool) {
    Sent(s'.log) == Sent(s.log) + sent && s'.t2 == t2 && s'.ack == s.ack && s'.closed == s.closed
  }

  lemma {:induction false} AnswerSends<P>(s: State<P>, w: int, replies: seq<P>)
    requires Counts(s) && s.allowDT == Started(s.log)
    ensures Left(s, Answer(s, w, replies), AnswerI(s.log, w, 0, replies),
                 Unacknowledged(s.log) < w && (replies == [] || !Started(s.log)))
  {
    EmitAllSends(s.(t2 := true), replies);
  }

  /** Accepting a frame sends nothing and counts one more. */
  lemma {:induction false} AcceptSends<P>(s: State<P>, sendSeq: nat, recvSeq: nat)
    requires Counts(s) && sendSeq == s.rsn
    ensures var a := Accept(s, sendSeq, recvSeq);
      && Left(s, a, [], s.t2) && CountI(a.log) == CountI(s.log) && Started(a.log) == Started(s.log)
      && CountAccepted(a.log) == CountAccepted(s.log) + 1 && Unacknowledged(a.log) == Unacknowledged(s.log) + 1
  {
    var a := s.(telegrams := s.telegrams + 1, rsn := Next(s.rsn), log := Then(s.log, Accepted(sendSeq)));
    ReleasesAreSilent(a, Below(recvSeq), a.sent, a.log);
    ReleasesSendNothing(a, Below(recvSeq), a.sent, a.log);
  }

  /** No frame among these acknowledges anything. */
  ghost predicate OnlyU<P>(sent: seq<Event<P>>) {
    forall k | 0 <= k < |sent| :: sent[k].SentU?
  }

  lemma {:induction false} HandleISends<P>(s: State<P>, w: int, i: Input<P>)
    requires Inv(s, w) && i.GotI?
    ensures OutOfSequence(s.log, i) ==>
      HandleI(s, w, i).closed && Sent(HandleI(s, w, i).log) == Sent(s.log) + [SentS(0)]
    ensures !OutOfSequence(s.log, i) ==>
      var sent := AnswerI(s.log, w, if i.lengthOk then 1 else 0, i.replies);
      Left(s, HandleI(s, w, i), sent, OnlyU(sent))
  {
    if !OutOfSequence(s.log, i) {
      var sent := AnswerI(s.log, w, if i.lengthOk then 1 else 0, i.replies);
      assert OnlyU(sent) <==> sent == [] by {
        if sent != [] {
          assert !sent[0].SentU?;
        }
      }
      if !i.lengthOk {
        AnswerSends(s, w, i.replies);
      } else {
        AcceptSends(s, i.sendSeq, i.recvSeq);
        AcceptCounts(s, i.sendSeq, i.recvSeq);
        AnswerSends(Accept(s, i.sendSeq, i.recvSeq), w, i.replies);
      }
    }
  }

  lemma {:induction false} StartSends<P>(s: State<P>)
    requires Counts(s)
    ensures var sent := [SentU(0x0B)] + Numbered(s.buffer, CountI(s.log), CountAccepted(s.log));
      Left(s, StartTransfer(s), sent, s.t2 && s.buffer == [])
  {
    var u := EmitU(s.(allowDT := true), STARTDT_CON);
    EmitAllSends(u, s.buffer);
    Assoc(Sent(s.log), [SentU(0x0B)], Numbered(s.buffer, CountI(s.log), CountAccepted(s.log)));
  }

  lemma {:induction false} StopSends<P>(s: State<P>)
    requires Counts(s)
    ensures Left(s, EmitU(EmitS(s.(allowDT := false)), STOPDT_CON),
                 [SentS(After(CountAccepted(s.log))), SentU(0x23)], false)
  {
    var first: seq<Event<P>>, second: seq<Event<P>> := [SentS(s.rsn)], [SentU(STOPDT_CON)];
    Assoc(Sent(s.log), first, second);
    assert first + second == [SentS(s.rsn), SentU(STOPDT_CON)];
  }

  /** TESTFR_act is confirmed, TESTFR_con is not. */
  lemma {:induction false} TestSends<P>(s: State<P>)
    ensures Left(s, Release(s, TestFrames), [], s.t2)
    ensures Left(s, EmitU(Release(s, TestFrames), TESTFR_CON), [SentU(0x83)], s.t2)
  {
    ReleasesSendNothing(s, TestFrames, s.sent, s.log);
  }

  lemma {:induction false} StartAcknowledges<P>(s: State<P>, ps: seq<P>, n: nat, accepted: nat)
    ensures OnlyU<P>([SentU(0x0B)] + Numbered(ps, n, accepted)) <==> ps == []
  {
    var sent: seq<Event<P>> := [SentU(0x0B)] + Numbered(ps, n, accepted);
    if ps != [] {
      assert sent[1] == SentI(ps[0], After(n), After(accepted));
    }
  }

  lemma {:induction false} HandleUSends<P>(s: State<P>, w: int, i: Input<P>)
    requires Inv(s, w) && i.GotU?
    ensures var sent := Answers(s.log, s.t2, w, i);
      Left(s, HandleU(s, i), sent, s.t2 && OnlyU(sent))
  {
    if i.wellFormed && i.ty == 0x07 {
      StartSends(s);
      StartAcknowledges(s, s.buffer, CountI(s.log), CountAccepted(s.log));
    } else if i.wellFormed && i.ty == 0x13 {
      StopSends(s);
      assert Answers(s.log, s.t2, w, i)[0].SentS?;
    } else {
      TestSends(s);
    }
  }

  lemma {:induction false} HandleSSends<P>(s: State<P>, i: Input<P>)
    requires i.GotS?
    ensures Left(s.(ack := if i.wellFormed && i.recvSeq <= s.ssn then i.recvSeq else s.ack), HandleS(s, i), [], s.t2)
  {
    if i.wellFormed {
      var ack := if i.recvSeq <= s.ssn then i.recvSeq else s.ack;
      ReleasesSendNothing(s.(ack := ack), Below(ack), s.sent, s.log);
    }
  }

  /** The link is closed by T1, by the peer, by a frame out of sequence, and by one that cannot be read when it is. */
  predicate Closes<P>(t: Trace<P>, w: int, i: Input<P>) {
    match i
    case GotI(_, _, _, _) => OutOfSequence(t, i)
    case GotUnreadableI(ok, _, _) => OutOfSequence(t, i) || Unacknowledged(t) + (if ok then 1 else 0) < w
    case T1Expires => true
    case PeerGone => true
    case _ => false
  }

  /**
   * For every frame and timer, in every state that is reached: exactly these frames leave, the link closes exactly
   * then, and T2 then runs exactly if it was running, or an I-frame came, and nothing that left acknowledges.
   */
  lemma {:induction false} StepSends<P>(s: State<P>, w: int, i: Input<P>)
    requires Inv(s, w) && w >= 1
    ensures Sent(Step(s, w, i).log) == Sent(s.log) + Answers(s.log, s.t2, w, i)
    ensures Step(s, w, i).closed <==> Closes(s.log, w, i)
    ensures !Closes(s.log, w, i) ==>
      (Step(s, w, i).t2 <==>
        (s.t2 || i.GotI? || i.GotUnreadableI?) && OnlyU(Answers(s.log, s.t2, w, i)))
  {
    match i
    case GotI(_, _, _, _) => HandleISends(s, w, i);
    case GotUnreadableI(_, _, _) => HandleISends(s, w, Unanswered(i));
    case GotU(_, _) => HandleUSends(s, w, i);
    case GotS(_, _) => HandleSSends(s, i);
    case T2Expires => assert s.t2 ==> Answers(s.log, s.t2, w, i)[0].SentS?;
    case _ =>
  }

  /** The last acknowledgement changes with a readable S-frame that acknowledges no more than was sent, and only so. */
  lemma {:induction false} AckIsRecorded<P>(s: State<P>, w: int, i: Input<P>)
    requires Inv(s, w) && w >= 1 && !Closes(s.log, w, i)
    ensures Step(s, w, i).ack
         == if i.GotS? && i.wellFormed && i.recvSeq <= After(CountI(s.log)) then i.recvSeq else s.ack
  {
    match i
    case GotI(_, _, _, _) => HandleISends(s, w, i);
    case GotUnreadableI(_, _, _) => HandleISends(s, w, Unanswered(i));
    case GotU(_, _) => HandleUSends(s, w, i);
    case GotS(_, _) => HandleSSends(s, i);
    case _ =>
  }

  /** A new link has sent nothing, is open, and has nothing to acknowledge; no timer runs. */
  lemma {:induction false} NewLink<P>(w: int)
    ensures var s: State<P> := Run(w, []);
      && Sent(s.log) == [] && !s.closed && !s.allowDT && !s.t2 && s.sent == [] && s.ack == 0
  {
  }

  /** Disconnecting takes all counters back and stops T2; what was unacknowledged stays listed. */
  lemma {:induction false} DisconnectResets<P>(s: State<P>, w: int, i: Input<P>)
    requires !s.closed && (i.T1Expires? || i.PeerGone? || (i.GotI? && i.lengthOk && i.sendSeq != s.rsn))
    ensures var s' := Step(s, w, i);
      && s'.closed && s'.ssn == 0 && s'.rsn == 0 && s'.ack == 0 && s'.telegrams == 0 && !s'.t2
      && s'.sent == s.sent && s'.buffer == s.buffer
  {
  }

  // ---------- Nothing stays unacknowledged ----------

  /** T2 runs while accepted frames wait. */
  predicate Armed<P>(s: State<P>) {
    s.telegrams > 0 ==> s.t2
  }

  lemma {:induction false} EmitAllStaysArmed<P>(s: State<P>, ps: seq<P>)
    requires Armed(s)
    ensures Armed(EmitAll(s, ps))
    decreases |ps|
  {
    if ps != [] {
      EmitAllStaysArmed(EmitI(s, ps[0]), ps[1..]);
    }
  }

  lemma {:induction false} StepStaysArmed<P>(s: State<P>, w: int, i: Input<P>)
    requires Inv(s, w) && w >= 1 && Armed(s)
    ensures !Step(s, w, i).closed ==> Armed(Step(s, w, i))
  {
    match i
    case GotI(ok, n, r, replies) =>
      EmitAllStaysArmed(s.(t2 := true), replies);
      EmitAllStaysArmed(Accept(s, n, r).(t2 := true), replies);
    case GotUnreadableI(_, _, _) => UnreadableClosesIffRead(s, w, i);
    case GotU(_, _) => EmitAllStaysArmed(EmitU(s.(allowDT := true), STARTDT_CON), s.buffer);
    case _ =>
  }

  lemma {:induction false} RunIsArmed<P>(w: int, ins: seq<Input<P>>)
    requires w >= 1
    ensures !Run(w, ins).closed ==> Armed(Run(w, ins))
  {
    if ins != [] {
      var s := Run(w, ins[..|ins| - 1]);
      RunIsArmed(w, ins[..|ins| - 1]);
      EveryRunIsWellSequenced(w, ins[..|ins| - 1]);
      if !s.closed {
        StepStaysArmed(s, w, ins[|ins| - 1]);
      }
    }
  }

  /** After every run, when T2 expires: one S-frame acknowledges all that waits, and then nothing does. */
  lemma {:induction false} T2AcknowledgesAll<P>(w: int, ins: seq<Input<P>>)
    requires w >= 1 && !Run(w, ins).closed
    ensures var s, s' := Run(w, ins), Run(w, ins + [T2Expires]);
      && !s'.closed && Unacknowledged(s'.log) == 0
      && (Unacknowledged(s.log) > 0 ==> s'.log == Then(s.log, SentS(After(CountAccepted(s.log)))))
  {
    EveryRunIsWellSequenced(w, ins);
    RunIsArmed(w, ins);
    RunOneMore(w, ins, T2Expires);
  }
}
