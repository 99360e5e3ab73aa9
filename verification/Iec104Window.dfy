/**
 * The list of unacknowledged frames (`sentmsgs`) over whole runs of the link: which SendSeq numbers it holds,
 * what removes a frame from it, and what STARTDT_act does with the packets produced while stopped.
 */
module Iec104Window {
  import opened Iec104Link
  import opened Sequences

  // ---------- Frames by number, and the flush ----------

  datatype Sending<P> = Sending(p: P, sendSeq: nat, recvSeq: nat)

  function Sendings<P>(t: Trace<P>): seq<Sending<P>> {
    match t
    case Start => []
    case Then(past, e) => Sendings(past) + if e.SentI? then [Sending(e.p, e.sendSeq, e.recvSeq)] else []
  }

  function Acceptances<P>(t: Trace<P>): seq<nat> {
    match t
    case Start => []
    case Then(past, e) => Acceptances(past) + if e.Accepted? then [e.sendSeq] else []
  }

  lemma {:induction false} KthFrames<P>(t: Trace<P>)
    requires WellSequenced(t)
    ensures |Sendings(t)| == CountI(t) && forall k | 0 <= k < |Sendings(t)| :: Sendings(t)[k].sendSeq == Number(k)
    ensures |Acceptances(t)| == CountAccepted(t)
    ensures forall k | 0 <= k < |Acceptances(t)| :: Acceptances(t)[k] == Number(k)
  {
    if t.Then? {
      KthFrames(t.past);
    }
  }

  /** `ps` sent one after the other, from number `n` on. */
  function Numbered<P>(ps: seq<P>, n: nat, recvSeq: nat): seq<Sending<P>> {
    if ps == [] then [] else [Sending(ps[0], Number(n), recvSeq)] + Numbered(ps[1..], n + 1, recvSeq)
  }

  lemma {:induction false} EmitAllSends<P>(s: State<P>, ps: seq<P>)
    requires Counts(s) && s.allowDT && Started(s.log)
    ensures Sendings(EmitAll(s, ps).log) == Sendings(s.log) + Numbered(ps, CountI(s.log), s.rsn)
    decreases |ps|
  {
    if ps == [] {
      assert Sendings(s.log) + [] == Sendings(s.log);
    } else {
      EmitICounts(s, ps[0]);
      EmitAllSends(EmitI(s, ps[0]), ps[1..]);
      assert Sendings(EmitI(s, ps[0]).log) == Sendings(s.log) + [Sending(ps[0], s.ssn, s.rsn)];
      Assoc(Sendings(s.log), [Sending(ps[0], s.ssn, s.rsn)], Numbered(ps[1..], CountI(s.log) + 1, s.rsn));
    }
  }

  /**
   * STARTDT_act sends the confirmation and then the first 50 packets produced while stopped, in order and
   * consecutively numbered, and nothing else.
   */
  lemma {:induction false} StartSendsWithheld<P>(s: State<P>, w: int)
    requires Inv(s, w)
    ensures var ps := FirstFew(WithheldIn(s.log), BUFFER_LIMIT);
            Sendings(StartTransfer(s).log) == Sendings(s.log) + Numbered(ps, CountI(s.log), s.rsn)
  {
    EmitAllSends(EmitU(s.(allowDT := true), STARTDT_CON), s.buffer);
  }

  lemma {:induction false} ReleasesSendNothing<P>(s: State<P>, d: Drop, sent: seq<Entry<P>>, log: Trace<P>)
    ensures Sendings(Releases(s, d, sent, log)) == Sendings(log)
  {
    if sent != [] {
      ReleasesSendNothing(s, d, sent[1..], if Drops(s, d, sent[0]) then Then(log, Released(sent[0])) else log);
    }
  }

  lemma {:induction false} EmitAllWithholdsNothing<P>(s: State<P>, ps: seq<P>)
    requires s.allowDT
    ensures WithheldIn(EmitAll(s, ps).log) == WithheldIn(s.log)
    decreases |ps|
  {
    if ps != [] {
      EmitAllWithholdsNothing(EmitI(s, ps[0]), ps[1..]);
    }
  }

  /** While stopped, packets are withheld, in order. */
  lemma {:induction false} EmitAllWithholds<P>(s: State<P>, ps: seq<P>)
    requires !s.allowDT
    ensures WithheldIn(EmitAll(s, ps).log) == WithheldIn(s.log) + ps && Sendings(EmitAll(s, ps).log) == Sendings(s.log)
    decreases |ps|
  {
    if ps == [] {
      assert WithheldIn(s.log) + [] == WithheldIn(s.log);
    } else {
      EmitAllWithholds(EmitI(s, ps[0]), ps[1..]);
      Assoc(WithheldIn(s.log), [ps[0]], ps[1..]);
      assert [ps[0]] + ps[1..] == ps;
    }
  }

  /**
   * A command below the w-th unacknowledged frame is answered: its replies are sent in order, consecutively numbered,
   * and nothing else is; while stopped they are withheld in order. With `CommandMattersIffBelowW` this says of every
   * accepted frame whether its command is answered.
   */
  lemma {:induction false} CommandIsAnswered<P>(s: State<P>, w: int, i: Input<P>)
    requires Inv(s, w) && i.GotI? && i.lengthOk && i.sendSeq == s.rsn && s.telegrams + 1 < w
    ensures var t := Step(s, w, i);
      if s.allowDT then
        && Sendings(t.log) == Sendings(s.log) + Numbered(i.replies, CountI(s.log), Next(s.rsn))
        && WithheldIn(t.log) == WithheldIn(s.log)
      else Sendings(t.log) == Sendings(s.log) && WithheldIn(t.log) == WithheldIn(s.log) + i.replies
  {
    var a := s.(telegrams := s.telegrams + 1, rsn := Next(s.rsn), log := Then(s.log, Accepted(i.sendSeq)));
    ReleasesSendNothing(a, Below(i.recvSeq), a.sent, a.log);
    ReleasesAreSilent(a, Below(i.recvSeq), a.sent, a.log);
    AcceptCounts(s, i.sendSeq, i.recvSeq);
    var t := Accept(s, i.sendSeq, i.recvSeq).(t2 := true);
    if s.allowDT {
      EmitAllSends(t, i.replies);
      EmitAllWithholdsNothing(t, i.replies);
    } else {
      EmitAllWithholds(t, i.replies);
    }
  }

  // ---------- Conservation of timers ----------

  /** How often `e` was put into `sentmsgs`, its T1 started. */
  function Timed<P(==)>(t: Trace<P>, e: Entry<P>): nat {
    match t
    case Start => 0
    case Then(past, x) =>
      Timed(past, e) + (match x
                        case SentI(p, _, _) => if e == EI(p) then 1 else 0
                        case SentU(ty) => if e == EU(ty) && (ty == STARTDT_ACT || ty == TESTFR_ACT) then 1 else 0
                        case _ => 0)
  }

  /** How often `e` was taken out of `sentmsgs`, its T1 cancelled. */
  function Cancelled<P(==)>(t: Trace<P>, e: Entry<P>): nat {
    match t
    case Start => 0
    case Then(past, x) => Cancelled(past, e) + if x == Released(e) then 1 else 0
  }

  function Occurrences<T(==)>(s: seq<T>, e: T): nat {
    if s == [] then 0 else (if s[0] == e then 1 else 0) + Occurrences(s[1..], e)
  }

  lemma {:induction false} OccurrencesAppend<T>(s: seq<T>, x: T, e: T)
    ensures Occurrences(s + [x], e) == Occurrences(s, e) + if x == e then 1 else 0
  {
    if s == [] {
      assert s + [x] == [x];
    } else {
      assert (s + [x])[1..] == s[1..] + [x];
      OccurrencesAppend(s[1..], x, e);
    }
  }

  ghost predicate Conserved<P>(s: State<P>, e: Entry<P>) {
    Timed(s.log, e) == Occurrences(s.sent, e) + Cancelled(s.log, e)
  }

  lemma {:induction false} ReleasesConserve<P>(s: State<P>, d: Drop, sent: seq<Entry<P>>, log: Trace<P>, e: Entry<P>)
    ensures Timed(Releases(s, d, sent, log), e) == Timed(log, e)
    ensures Occurrences(Kept(s, d, sent), e) + Cancelled(Releases(s, d, sent, log), e) ==
            Occurrences(sent, e) + Cancelled(log, e)
  {
    if sent != [] {
      ReleasesConserve(s, d, sent[1..], if Drops(s, d, sent[0]) then Then(log, Released(sent[0])) else log, e);
      var k := Kept(s, d, sent[1..]);
      assert ([sent[0]] + k)[1..] == k && [] + k == k;
    }
  }

  lemma {:induction false} ReleaseConserves<P>(s: State<P>, d: Drop, e: Entry<P>)
    requires Conserved(s, e)
    ensures Conserved(Release(s, d), e)
  {
    ReleasesConserve(s, d, s.sent, s.log, e);
  }

  lemma {:induction false} EmitIConserves<P>(s: State<P>, p: P, e: Entry<P>)
    requires Conserved(s, e)
    ensures Conserved(EmitI(s, p), e)
  {
    OccurrencesAppend(s.sent, EI(p), e);
  }

  lemma {:induction false} EmitUConserves<P>(s: State<P>, ty: nat, e: Entry<P>)
    requires Conserved(s, e)
    ensures Conserved(EmitU(s, ty), e)
  {
    OccurrencesAppend(s.sent, EU(ty), e);
  }

  lemma {:induction false} EmitAllConserves<P>(s: State<P>, ps: seq<P>, e: Entry<P>)
    requires Conserved(s, e)
    ensures Conserved(EmitAll(s, ps), e)
    decreases |ps|
  {
    if ps != [] {
      EmitIConserves(s, ps[0], e);
      EmitAllConserves(EmitI(s, ps[0]), ps[1..], e);
    }
  }

  lemma {:induction false} AnswerConserves<P>(s: State<P>, w: int, ps: seq<P>, e: Entry<P>)
    requires Conserved(s, e)
    ensures Conserved(Answer(s, w, ps), e)
  {
    EmitAllConserves(s.(t2 := true), ps, e);
  }

  lemma {:induction false} AcceptConserves<P>(s: State<P>, sendSeq: nat, recvSeq: nat, e: Entry<P>)
    requires Conserved(s, e)
    ensures Conserved(Accept(s, sendSeq, recvSeq), e)
  {
    var a := s.(telegrams := s.telegrams + 1, rsn := Next(s.rsn), log := Then(s.log, Accepted(sendSeq)));
    ReleaseConserves(a, Below(recvSeq), e);
  }

  lemma {:induction false} HandleIConserves<P>(s: State<P>, w: int, i: Input<P>, e: Entry<P>)
    requires Conserved(s, e) && i.GotI?
    ensures Conserved(HandleI(s, w, i), e)
  {
    if !i.lengthOk {
      AnswerConserves(s, w, i.replies, e);
    } else if i.sendSeq == s.rsn {
      AcceptConserves(s, i.sendSeq, i.recvSeq, e);
      AnswerConserves(Accept(s, i.sendSeq, i.recvSeq), w, i.replies, e);
    }
  }

  lemma {:induction false} HandleUConserves<P>(s: State<P>, i: Input<P>, e: Entry<P>)
    requires Conserved(s, e) && i.GotU?
    ensures Conserved(HandleU(s, i), e)
  {
    if i.wellFormed && i.ty == STARTDT_ACT {
      EmitUConserves(s.(allowDT := true), STARTDT_CON, e);
      EmitAllConserves(EmitU(s.(allowDT := true), STARTDT_CON), s.buffer, e);
    } else if i.wellFormed && (i.ty == TESTFR_ACT || i.ty == TESTFR_CON) {
      ReleaseConserves(s, TestFrames, e);
    }
  }

  lemma {:induction false} HandleSConserves<P>(s: State<P>, i: Input<P>, e: Entry<P>)
    requires Conserved(s, e) && i.GotS?
    ensures Conserved(HandleS(s, i), e)
  {
    var ack := if i.recvSeq <= s.ssn then i.recvSeq else s.ack;
    ReleaseConserves(s.(ack := ack), Below(ack), e);
  }

  lemma {:induction false} StepConserves<P>(s: State<P>, w: int, i: Input<P>, e: Entry<P>)
    requires Conserved(s, e)
    ensures Conserved(Step(s, w, i), e)
  {
    match i
    case GotI(_, _, _, _) => HandleIConserves(s, w, i, e);
    case GotUnreadableI(_, _, _) => HandleIConserves(s, w, Unanswered(i), e);
    case GotS(_, _) => HandleSConserves(s, i, e);
    case GotU(_, _) => HandleUConserves(s, i, e);
    case T3Expires => EmitUConserves(s, TESTFR_ACT, e);
    case _ =>
  }

  /** Over every run: each timer started is either pending in `sentmsgs` or was cancelled, exactly once. */
  lemma {:induction false} TimersAreConserved<P>(w: int, ins: seq<Input<P>>, e: Entry<P>)
    ensures var s := Run(w, ins); Timed(s.log, e) == Occurrences(s.sent, e) + Cancelled(s.log, e)
  {
    if ins != [] {
      TimersAreConserved(w, ins[..|ins| - 1], e);
      StepConserves(Run(w, ins[..|ins| - 1]), w, ins[|ins| - 1], e);
    }
  }

  // ---------- The window ----------

  /** The SendSeq numbers of the I-frames in `sent`. */
  function ISeqs<P(==)>(s: State<P>, sent: seq<Entry<P>>): seq<nat> {
    if sent == [] then []
    else (if sent[0].EI? then [SeqOf(s, sent[0].p)] else []) + ISeqs(s, sent[1..])
  }

  /** Steps of two that end just below `next`. */
  ghost predicate RunsUpTo(q: seq<nat>, next: nat) {
    2 * |q| <= next && forall j | 0 <= j < |q| :: q[j] == next - 2 * (|q| - j)
  }

  /** Unacknowledged I-frames are numbered consecutively up to ssn-2, and none below `ack`. */
  ghost predicate Window<P>(s: State<P>) {
    var q := ISeqs(s, s.sent);
    s.ack <= s.ssn && RunsUpTo(q, s.ssn) && s.ack + 2 * |q| <= s.ssn
  }

  function AtLeast(q: seq<nat>, n: nat): seq<nat> {
    if q == [] then [] else (if q[0] < n then [] else [q[0]]) + AtLeast(q[1..], n)
  }

  lemma {:induction false} RunsUpToTail(q: seq<nat>, next: nat)
    requires RunsUpTo(q, next) && q != []
    ensures RunsUpTo(q[1..], next) && q[0] == next - 2 * |q| && q[0] !in q[1..]
  {
    assert forall j | 0 <= j < |q| - 1 :: q[1..][j] == next - 2 * (|q| - 1 - j);
  }

  lemma {:induction false} AllAtLeast(q: seq<nat>, n: nat, next: nat)
    requires RunsUpTo(q, next) && q != [] && q[0] >= n
    ensures AtLeast(q, n) == q
  {
    if |q| > 1 {
      RunsUpToTail(q, next);
      AllAtLeast(q[1..], n, next);
    }
  }

  lemma {:induction false} AtLeastRunsUpTo(q: seq<nat>, n: nat, next: nat)
    requires RunsUpTo(q, next)
    ensures RunsUpTo(AtLeast(q, n), next) && |AtLeast(q, n)| <= |q|
    ensures AtLeast(q, n) != [] ==> AtLeast(q, n)[0] >= n
    ensures q != [] && q[0] >= n ==> AtLeast(q, n) == q
  {
    if q != [] {
      RunsUpToTail(q, next);
      AtLeastRunsUpTo(q[1..], n, next);
      if q[0] >= n {
        AllAtLeast(q, n, next);
      }
    }
  }

  lemma {:induction false} KeptSeqs<P>(s: State<P>, n: nat, sent: seq<Entry<P>>)
    ensures ISeqs(s, Kept(s, Below(n), sent)) == AtLeast(ISeqs(s, sent), n)
  {
    if sent != [] {
      KeptSeqs(s, n, sent[1..]);
      var k, q := Kept(s, Below(n), sent[1..]), ISeqs(s, sent[1..]);
      assert ([sent[0]] + k)[1..] == k && [] + k == k;
      assert [] + q == q;
      if sent[0].EI? {
        assert ([SeqOf(s, sent[0].p)] + q)[1..] == q;
      }
    }
  }

  lemma {:induction false} KeptTestFrames<P>(s: State<P>, sent: seq<Entry<P>>)
    ensures ISeqs(s, Kept(s, TestFrames, sent)) == ISeqs(s, sent)
  {
    if sent != [] {
      KeptTestFrames(s, sent[1..]);
      var k := Kept(s, TestFrames, sent[1..]);
      assert ([sent[0]] + k)[1..] == k && [] + k == k;
    }
  }

  /** `ISeqs` depends on the SendSeq fields only. */
  lemma {:induction false} SeqsOnly<P>(s: State<P>, s': State<P>, sent: seq<Entry<P>>)
    requires forall e | e in sent && e.EI? :: SeqOf(s, e.p) == SeqOf(s', e.p)
    ensures ISeqs(s, sent) == ISeqs(s', sent)
  {
    if sent != [] {
      SeqsOnly(s, s', sent[1..]);
    }
  }

  lemma {:induction false} SeqsConcat<P>(s: State<P>, a: seq<Entry<P>>, b: seq<Entry<P>>)
    ensures ISeqs(s, a + b) == ISeqs(s, a) + ISeqs(s, b)
  {
    if a == [] {
      assert a + b == b;
    } else {
      assert (a + b)[1..] == a[1..] + b;
      SeqsConcat(s, a[1..], b);
    }
  }

  lemma {:induction false} ReleaseWindow<P>(s: State<P>, n: nat)
    requires Window(s)
    ensures var r := Release(s, Below(n));
            && ISeqs(r, r.sent) == AtLeast(ISeqs(s, s.sent), n)
            && Window(r)
            && (n <= s.ssn ==> Window(r.(ack := n)))
  {
    var r := Release(s, Below(n));
    KeptSeqs(s, n, s.sent);
    SeqsOnly(s, r, r.sent);
    AtLeastRunsUpTo(ISeqs(s, s.sent), n, s.ssn);
    SeqsOnly(r, r.(ack := n), r.sent);
  }

  lemma {:induction false} EmitIWindow<P>(s: State<P>, p: P)
    requires Window(s) && s.allowDT && EI(p) !in s.sent && s.ssn < 65534
    ensures Window(EmitI(s, p))
  {
    var s' := EmitI(s, p);
    SeqsOnly(s, s', s.sent);
    SeqsConcat(s', s.sent, [EI(p)]);
    assert ISeqs(s', [EI(p)]) == [s.ssn] by {
      assert [EI(p)][1..] == [];
    }
  }

  predicate NoDuplicates<P(==)>(ps: seq<P>) {
    forall i, j | 0 <= i < j < |ps| :: ps[i] != ps[j]
  }

  /** The link holds only packets of `made`, and buffers none of them twice. */
  ghost predicate Holds<P>(s: State<P>, made: set<P>) {
    && (forall k | 0 <= k < |s.sent| && s.sent[k].EI? :: s.sent[k].p in made)
    && (forall k | 0 <= k < |s.buffer| :: s.buffer[k] in made)
    && NoDuplicates(s.buffer)
  }

  ghost predicate NotSent<P>(s: State<P>, ps: seq<P>) {
    forall k | 0 <= k < |ps| :: EI(ps[k]) !in s.sent
  }

  /** STARTDT_act finds no buffered packet still waiting for its acknowledgement. */
  ghost predicate SafeStart<P>(s: State<P>) {
    NotSent(s, s.buffer)
  }

  lemma {:induction false} EmitAllCountsUp<P>(s: State<P>, ps: seq<P>)
    ensures CountI(EmitAll(s, ps).log) == CountI(s.log) + if s.allowDT then |ps| else 0
    decreases |ps|
  {
    if ps != [] {
      EmitAllCountsUp(EmitI(s, ps[0]), ps[1..]);
    }
  }

  lemma {:induction false} EmitAllWindow<P>(s: State<P>, ps: seq<P>)
    requires Counts(s) && s.allowDT == Started(s.log) && Window(s)
    requires NoDuplicates(ps) && NotSent(s, ps) && CountI(EmitAll(s, ps).log) < MODULUS
    ensures Window(EmitAll(s, ps))
    decreases |ps|
  {
    if ps != [] {
      var s1 := EmitI(s, ps[0]);
      EmitAllCountsUp(s, ps);
      if s.allowDT {
        EmitIWindow(s, ps[0]);
      } else {
        SeqsOnly(s, s1, s.sent);
      }
      EmitICounts(s, ps[0]);
      assert forall k | 0 <= k < |ps| - 1 :: ps[1..][k] == ps[k + 1] && ps[k + 1] != ps[0];
      EmitAllWindow(s1, ps[1..]);
    }
  }

  lemma {:induction false} EmitAllHolds<P>(s: State<P>, ps: seq<P>, made: set<P>)
    requires Holds(s, made) && NoDuplicates(ps)
    requires forall k | 0 <= k < |ps| :: ps[k] in made
    requires !s.allowDT ==> forall k | 0 <= k < |ps| :: ps[k] !in s.buffer
    ensures Holds(EmitAll(s, ps), made)
    decreases |ps|
  {
    if ps != [] {
      var s1 := EmitI(s, ps[0]);
      assert Holds(s1, made);
      assert forall k | 0 <= k < |ps| - 1 :: ps[1..][k] == ps[k + 1] && ps[k + 1] != ps[0];
      EmitAllHolds(s1, ps[1..], made);
    }
  }

  lemma {:induction false} ReleaseHolds<P>(s: State<P>, d: Drop, made: set<P>)
    requires Holds(s, made)
    ensures Holds(Release(s, d), made)
  {
    KeptIsPart(s, d, s.sent);
    var kept := Kept(s, d, s.sent);
    forall k | 0 <= k < |kept| && kept[k].EI?
      ensures kept[k].p in made
    {
      assert kept[k] in s.sent;
    }
  }

  /** The packets an input brings. */
  function Replies<P>(i: Input<P>): seq<P> {
    if i.GotI? then i.replies else []
  }

  function Brought<P>(i: Input<P>): set<P> {
    set p | p in Replies(i)
  }

  /** The state on which the window stands, with no more than `made` known. */
  ghost predicate Sound<P>(s: State<P>, w: int, made: set<P>) {
    Inv(s, w) && Window(s) && Holds(s, made)
  }

  ghost predicate FreshReplies<P>(i: Input<P>, made: set<P>) {
    NoDuplicates(Replies(i)) && forall k | 0 <= k < |Replies(i)| :: Replies(i)[k] !in made
  }

  lemma {:induction false} AnswerSound<P>(s: State<P>, w: int, ps: seq<P>, made: set<P>)
    requires Counts(s) && s.allowDT == Started(s.log) && Window(s) && Holds(s, made) && w >= 1
    requires NoDuplicates(ps) && (forall k | 0 <= k < |ps| :: ps[k] !in made)
    requires CountI(Answer(s, w, ps).log) < MODULUS
    ensures Window(Answer(s, w, ps)) && Holds(Answer(s, w, ps), made + set p | p in ps)
  {
    var t, more := s.(t2 := true), made + set p | p in ps;
    SeqsOnly(s, t, s.sent);
    assert Holds(t, more);
    if s.telegrams >= w {
      SeqsOnly(t, EmitS(t), s.sent);
    } else {
      EmitAllWindow(t, ps);
      EmitAllHolds(t, ps, more);
    }
  }

  lemma {:induction false} HandleISound<P>(s: State<P>, w: int, i: Input<P>, made: set<P>)
    requires Sound(s, w, made) && w >= 1 && i.GotI? && FreshReplies(i, made)
    requires !HandleI(s, w, i).closed && CountI(HandleI(s, w, i).log) < MODULUS
    ensures Window(HandleI(s, w, i)) && Holds(HandleI(s, w, i), made + Brought(i))
  {
    if !i.lengthOk {
      AnswerSound(s, w, i.replies, made);
    } else {
      var a := s.(telegrams := s.telegrams + 1, rsn := Next(s.rsn), log := Then(s.log, Accepted(i.sendSeq)));
      SeqsOnly(s, a, s.sent);
      ReleaseWindow(a, i.recvSeq);
      ReleaseHolds(a, Below(i.recvSeq), made);
      AcceptCounts(s, i.sendSeq, i.recvSeq);
      AnswerSound(Accept(s, i.sendSeq, i.recvSeq), w, i.replies, made);
    }
  }

  lemma {:induction false} SameKept<P>(s: State<P>, s': State<P>, d: Drop, sent: seq<Entry<P>>)
    requires s.seqs == s'.seqs
    ensures Kept(s, d, sent) == Kept(s', d, sent)
  {
    if sent != [] {
      SameKept(s, s', d, sent[1..]);
    }
  }

  lemma {:induction false} HandleSSound<P>(s: State<P>, w: int, i: Input<P>, made: set<P>)
    requires Sound(s, w, made) && i.GotS?
    ensures Window(HandleS(s, i)) && Holds(HandleS(s, i), made)
  {
    var ack := if i.recvSeq <= s.ssn then i.recvSeq else s.ack;
    ReleaseWindow(s, ack);
    ReleaseHolds(s, Below(ack), made);
    SameKept(s, s.(ack := ack), Below(ack), s.sent);
    var r := Release(s, Below(ack)).(ack := ack);
    if i.wellFormed {
      assert HandleS(s, i).sent == r.sent;
      SeqsOnly(r, HandleS(s, i), r.sent);
    }
  }

  lemma {:induction false} EmitUWindow<P>(s: State<P>, ty: nat, made: set<P>)
    requires Window(s) && Holds(s, made)
    ensures Window(EmitU(s, ty)) && Holds(EmitU(s, ty), made)
  {
    var s' := EmitU(s, ty);
    SeqsOnly(s, s', s.sent);
    SeqsConcat(s', s.sent, [EU(ty)]);
    assert ISeqs(s', [EU(ty)]) == [] && ISeqs(s', s.sent) + [] == ISeqs(s', s.sent);
  }

  lemma {:induction false} TestWindow<P>(s: State<P>, made: set<P>)
    requires Window(s) && Holds(s, made)
    ensures Window(Release(s, TestFrames)) && Holds(Release(s, TestFrames), made)
  {
    KeptTestFrames(s, s.sent);
    SeqsOnly(s, Release(s, TestFrames), Kept(s, TestFrames, s.sent));
    ReleaseHolds(s, TestFrames, made);
  }

  lemma {:induction false} StartSound<P>(s: State<P>, w: int, made: set<P>)
    requires Sound(s, w, made) && SafeStart(s) && CountI(StartTransfer(s).log) < MODULUS
    ensures Window(StartTransfer(s)) && Holds(StartTransfer(s), made)
  {
    var u := EmitU(s.(allowDT := true), STARTDT_CON);
    SeqsOnly(s, u, s.sent);
    assert Counts(u);
    EmitAllWindow(u, s.buffer);
    EmitAllHolds(u, s.buffer, made);
  }

  lemma {:induction false} StopSound<P>(s: State<P>, w: int, made: set<P>)
    requires Sound(s, w, made)
    ensures var t := EmitU(EmitS(s.(allowDT := false)), STOPDT_CON); Window(t) && Holds(t, made)
  {
    var t := EmitS(s.(allowDT := false));
    SeqsOnly(s, t, s.sent);
    EmitUWindow(t, STOPDT_CON, made);
  }

  lemma {:induction false} HandleUSound<P>(s: State<P>, w: int, i: Input<P>, made: set<P>)
    requires Sound(s, w, made) && w >= 1 && i.GotU?
    requires i.wellFormed && i.ty == STARTDT_ACT ==> SafeStart(s)
    requires CountI(HandleU(s, i).log) < MODULUS
    ensures Window(HandleU(s, i)) && Holds(HandleU(s, i), made)
  {
    if i.wellFormed {
      if i.ty == STARTDT_ACT {
        StartSound(s, w, made);
      } else if i.ty == STOPDT_ACT {
        StopSound(s, w, made);
      } else if i.ty == TESTFR_ACT || i.ty == TESTFR_CON {
        TestWindow(s, made);
        EmitUWindow(Release(s, TestFrames), TESTFR_CON, made);
      }
    }
  }

  lemma {:induction false} StepSound<P>(s: State<P>, w: int, i: Input<P>, made: set<P>)
    requires Sound(s, w, made) && w >= 1 && FreshReplies(i, made)
    requires i.GotU? && i.wellFormed && i.ty == STARTDT_ACT ==> SafeStart(s)
    requires !Step(s, w, i).closed && CountI(Step(s, w, i).log) < MODULUS
    ensures Sound(Step(s, w, i), w, made + Brought(i))
  {
    StepKeepsInv(s, w, i);
    match i
    case GotI(_, _, _, _) => HandleISound(s, w, i, made);
    case GotUnreadableI(_, _, _) =>
      HandleISound(s, w, Unanswered(i), made);
      assert made + Brought(Unanswered(i)) == made + Brought(i);
    case GotS(_, _) => HandleSSound(s, w, i, made);
    case GotU(_, _) => HandleUSound(s, w, i, made);
    case T2Expires => SeqsOnly(s, EmitS(s), s.sent);
    case T3Expires => EmitUWindow(s, TESTFR_ACT, made);
    case _ =>
  }

  // ---------- The window over whole runs ----------

  function Made<P>(ins: seq<Input<P>>): set<P> {
    if ins == [] then {} else Made(ins[..|ins| - 1]) + Brought(ins[|ins| - 1])
  }

  /** Handlers make a new packet object for every reply. */
  ghost predicate NewPackets<P>(ins: seq<Input<P>>) {
    forall n: nat | n < |ins| :: FreshReplies(ins[n], Made(ins[..n]))
  }

  predicate IsStart<P>(i: Input<P>) {
    i.GotU? && i.wellFormed && i.ty == STARTDT_ACT
  }

  /** No STARTDT_act of the run finds a buffered packet that is still unacknowledged. */
  ghost predicate SafeRun<P>(w: int, ins: seq<Input<P>>) {
    forall n: nat | n < |ins| && IsStart(ins[n]) :: Run(w, ins[..n]).closed || SafeStart(Run(w, ins[..n]))
  }

  lemma {:induction false} ReleasesCount<P>(s: State<P>, d: Drop, sent: seq<Entry<P>>, log: Trace<P>)
    ensures CountI(Releases(s, d, sent, log)) == CountI(log)
  {
    if sent != [] {
      ReleasesCount(s, d, sent[1..], if Drops(s, d, sent[0]) then Then(log, Released(sent[0])) else log);
    }
  }

  lemma {:induction false} HandleICountsUp<P>(s: State<P>, w: int, i: Input<P>)
    requires i.GotI?
    ensures CountI(HandleI(s, w, i).log) >= CountI(s.log)
  {
    var a := s.(telegrams := s.telegrams + 1, rsn := Next(s.rsn), log := Then(s.log, Accepted(i.sendSeq)));
    ReleasesCount(a, Below(i.recvSeq), a.sent, a.log);
    EmitAllCountsUp(s.(t2 := true), i.replies);
    EmitAllCountsUp(Accept(s, i.sendSeq, i.recvSeq).(t2 := true), i.replies);
  }

  lemma {:induction false} StepCountsUp<P>(s: State<P>, w: int, i: Input<P>)
    ensures CountI(Step(s, w, i).log) >= CountI(s.log)
  {
    match i
    case GotI(_, _, _, _) => HandleICountsUp(s, w, i);
    case GotUnreadableI(_, _, _) => HandleICountsUp(s, w, Unanswered(i));
    case GotS(_, recvSeq) =>
      var ack := if recvSeq <= s.ssn then recvSeq else s.ack;
      ReleasesCount(s.(ack := ack), Below(ack), s.sent, s.log);
    case GotU(_, _) =>
      ReleasesCount(s, TestFrames, s.sent, s.log);
      EmitAllCountsUp(EmitU(s.(allowDT := true), STARTDT_CON), s.buffer);
    case _ =>
  }

  lemma {:induction false} NewPacketsPrefix<P>(ins: seq<Input<P>>)
    requires NewPackets(ins) && ins != []
    ensures NewPackets(ins[..|ins| - 1]) && FreshReplies(ins[|ins| - 1], Made(ins[..|ins| - 1]))
  {
    var before := ins[..|ins| - 1];
    assert forall n: nat | n < |before| :: before[n] == ins[n] && before[..n] == ins[..n];
  }

  lemma {:induction false} SafeRunExtends<P>(w: int, ins: seq<Input<P>>)
    requires ins != []
    ensures var before, i := ins[..|ins| - 1], ins[|ins| - 1];
            SafeRun(w, ins) <==>
            SafeRun(w, before) && (IsStart(i) ==> Run(w, before).closed || SafeStart(Run(w, before)))
  {
    var before, i := ins[..|ins| - 1], ins[|ins| - 1];
    assert forall n: nat | n < |before| :: before[n] == ins[n] && before[..n] == ins[..n];
    if SafeRun(w, ins) && IsStart(i) {
      assert Run(w, ins[..|ins| - 1]).closed || SafeStart(Run(w, ins[..|ins| - 1]));
    }
  }

  /**
   * The unacknowledged window, over every safe run that sends fewer than 32768 I-frames: the I-frames in
   * `sentmsgs` carry consecutive SendSeq values ending at ssn-2, none below `ack`.
   */
  lemma {:induction false} WindowHolds<P>(w: int, ins: seq<Input<P>>)
    requires w >= 1 && NewPackets(ins) && SafeRun(w, ins) && CountI(Run(w, ins).log) < MODULUS
    ensures !Run(w, ins).closed ==> Sound(Run(w, ins), w, Made(ins))
  {
    if ins != [] {
      var before, i := ins[..|ins| - 1], ins[|ins| - 1];
      NewPacketsPrefix(ins);
      SafeRunExtends(w, ins);
      StepCountsUp(Run(w, before), w, i);
      WindowHolds(w, before);
      if !Run(w, ins).closed {
        StepSound(Run(w, before), w, i, Made(before));
      }
    }
  }

  // ---------- When a run is safe ----------

  /** How many STARTDT_act of the run found packets in the buffer. */
  function Flushes<P(==)>(w: int, ins: seq<Input<P>>): nat {
    if ins == [] then 0
    else
      var before, i := ins[..|ins| - 1], ins[|ins| - 1];
      Flushes(w, before) + if IsStart(i) && Run(w, before).buffer != [] && !Run(w, before).closed then 1 else 0
  }

  lemma {:induction false} EmitAllApart<P>(s: State<P>, ps: seq<P>)
    requires SafeStart(s)
    requires if s.allowDT then forall k | 0 <= k < |ps| :: ps[k] !in s.buffer else NotSent(s, ps)
    ensures SafeStart(EmitAll(s, ps))
    decreases |ps|
  {
    if ps != [] {
      assert forall k | 0 <= k < |ps| - 1 :: ps[1..][k] == ps[k + 1];
      EmitAllApart(EmitI(s, ps[0]), ps[1..]);
    }
  }

  lemma {:induction false} ReleaseApart<P>(s: State<P>, d: Drop)
    requires SafeStart(s)
    ensures SafeStart(Release(s, d))
  {
    KeptIsPart(s, d, s.sent);
  }

  lemma {:induction false} AnswerApart<P>(s: State<P>, w: int, ps: seq<P>, made: set<P>)
    requires SafeStart(s) && Holds(s, made) && forall k | 0 <= k < |ps| :: ps[k] !in made
    ensures SafeStart(Answer(s, w, ps))
  {
    assert NotSent(s, ps) by {
      forall k | 0 <= k < |ps| ensures EI(ps[k]) !in s.sent {
      }
    }
    EmitAllApart(s.(t2 := true), ps);
  }

  lemma {:induction false} HandleIApart<P>(s: State<P>, w: int, i: Input<P>, made: set<P>)
    requires SafeStart(s) && Holds(s, made) && FreshReplies(i, made) && i.GotI?
    ensures SafeStart(HandleI(s, w, i))
  {
    if !i.lengthOk {
      AnswerApart(s, w, i.replies, made);
    } else if i.sendSeq == s.rsn {
      var a := s.(telegrams := s.telegrams + 1, rsn := Next(s.rsn), log := Then(s.log, Accepted(i.sendSeq)));
      ReleaseApart(a, Below(i.recvSeq));
      ReleaseHolds(a, Below(i.recvSeq), made);
      AnswerApart(Accept(s, i.sendSeq, i.recvSeq), w, i.replies, made);
    }
  }

  lemma {:induction false} StepApart<P>(s: State<P>, w: int, i: Input<P>, made: set<P>)
    requires SafeStart(s) && Holds(s, made) && FreshReplies(i, made) && (IsStart(i) ==> s.buffer == [])
    ensures SafeStart(Step(s, w, i))
  {
    match i
    case GotI(_, _, _, _) =>
      HandleIApart(s, w, i, made);
    case GotUnreadableI(_, _, _) =>
      HandleIApart(s, w, Unanswered(i), made);
    case GotS(_, recvSeq) =>
      var ack := if recvSeq <= s.ssn then recvSeq else s.ack;
      ReleaseApart(s.(ack := ack), Below(ack));
    case GotU(_, _) =>
      ReleaseApart(s, TestFrames);
    case _ =>
  }

  /** In particular every run is safe in which at most one STARTDT_act finds packets in the buffer. */
  lemma {:induction false} OneFlushIsSafe<P>(w: int, ins: seq<Input<P>>)
    requires w >= 1 && NewPackets(ins) && CountI(Run(w, ins).log) < MODULUS && Flushes(w, ins) <= 1
    ensures SafeRun(w, ins)
    ensures Flushes(w, ins) == 0 && !Run(w, ins).closed ==> SafeStart(Run(w, ins))
  {
    if ins != [] {
      var before, i := ins[..|ins| - 1], ins[|ins| - 1];
      var s := Run(w, before);
      NewPacketsPrefix(ins);
      StepCountsUp(s, w, i);
      OneFlushIsSafe(w, before);
      SafeRunExtends(w, ins);
      WindowHolds(w, before);
      if !s.closed && Flushes(w, ins) == 0 {
        StepApart(s, w, i, Made(before));
      }
    }
  }

  // ---------- The condition is exact ----------

  lemma {:induction false} EmitAllOccurs<P>(s: State<P>, ps: seq<P>, p: P)
    requires s.allowDT
    ensures Occurrences(EmitAll(s, ps).sent, EI(p)) == Occurrences(s.sent, EI(p)) + Occurrences(ps, p)
    decreases |ps|
  {
    if ps != [] {
      OccurrencesAppend(s.sent, EI(ps[0]), EI(p));
      EmitAllOccurs(EmitI(s, ps[0]), ps[1..], p);
    }
  }

  lemma {:induction false} OccursIfIn<T>(s: seq<T>, e: T)
    ensures e in s <==> Occurrences(s, e) >= 1
  {
    if s != [] {
      OccursIfIn(s[1..], e);
      assert e in s <==> e == s[0] || e in s[1..];
    }
  }

  lemma {:induction false} WindowHasNoRepeats<P>(s: State<P>, sent: seq<Entry<P>>, p: P, next: nat)
    requires RunsUpTo(ISeqs(s, sent), next)
    ensures Occurrences(sent, EI(p)) <= 1
    ensures Occurrences(sent, EI(p)) == 1 ==> SeqOf(s, p) in ISeqs(s, sent)
  {
    if sent != [] {
      var rest := ISeqs(s, sent[1..]);
      if sent[0].EI? {
        assert ISeqs(s, sent) == [SeqOf(s, sent[0].p)] + rest;
        RunsUpToTail(ISeqs(s, sent), next);
        assert ISeqs(s, sent)[1..] == rest;
      } else {
        assert ISeqs(s, sent) == [] + rest == rest;
      }
      WindowHasNoRepeats(s, sent[1..], p, next);
    }
  }

  /**
   * STARTDT_act keeps the window if and only if no buffered packet is still unacknowledged: the buffer is never
   * emptied, so a packet sent again takes a new SendSeq in both of its places in `sentmsgs`.
   */
  lemma {:induction false} StartKeepsWindowIffSafe<P>(s: State<P>, w: int, made: set<P>)
    requires Sound(s, w, made) && CountI(StartTransfer(s).log) < MODULUS
    ensures Window(StartTransfer(s)) <==> SafeStart(s)
  {
    if SafeStart(s) {
      StartSound(s, w, made);
    } else {
      var k :| 0 <= k < |s.buffer| && EI(s.buffer[k]) in s.sent;
      var p, t := s.buffer[k], StartTransfer(s);
      EmitAllOccurs(EmitU(s.(allowDT := true), STARTDT_CON), s.buffer, p);
      OccursIfIn(s.sent, EI(p));
      OccursIfIn(s.buffer, p);
      if Window(t) {
        WindowHasNoRepeats(t, t.sent, p, t.ssn);
      }
    }
  }

  // ---------- What removes a frame ----------

  lemma {:induction false} ReleaseCause<P>(s: State<P>, d: Drop, sent: seq<Entry<P>>, log: Trace<P>, p: P)
    ensures Cancelled(Releases(s, d, sent, log), EI(p)) > Cancelled(log, EI(p)) ==>
              d.Below? && SeqOf(s, p) < d.n && EI(p) in sent
  {
    if sent != [] {
      ReleaseCause(s, d, sent[1..], if Drops(s, d, sent[0]) then Then(log, Released(sent[0])) else log, p);
    }
  }

  lemma {:induction false} EmitAllCancelsNothing<P>(s: State<P>, ps: seq<P>, e: Entry<P>)
    ensures Cancelled(EmitAll(s, ps).log, e) == Cancelled(s.log, e)
    decreases |ps|
  {
    if ps != [] {
      EmitAllCancelsNothing(EmitI(s, ps[0]), ps[1..], e);
    }
  }

  lemma {:induction false} InWindow<P>(s: State<P>, sent: seq<Entry<P>>, p: P)
    requires EI(p) in sent
    ensures SeqOf(s, p) in ISeqs(s, sent)
  {
    if sent[0] != EI(p) {
      InWindow(s, sent[1..], p);
    }
  }

  /** The RecvSeq an input acknowledges with, if it is one that is looked at. */
  function Acknowledges<P>(s: State<P>, i: Input<P>): nat {
    match i
    case GotI(ok, n, r, _) => if ok && n == s.rsn then r else 0
    case GotUnreadableI(ok, n, r) => if ok && n == s.rsn then r else 0
    case GotS(ok, r) => if ok then r else 0
    case _ => 0
  }

  lemma {:induction false} AcknowledgedByI<P>(s: State<P>, w: int, i: Input<P>, p: P)
    requires i.GotI? && Cancelled(HandleI(s, w, i).log, EI(p)) > Cancelled(s.log, EI(p))
    ensures SeqOf(s, p) < Acknowledges(s, i) && EI(p) in s.sent
  {
    if !i.lengthOk {
      EmitAllCancelsNothing(s.(t2 := true), i.replies, EI(p));
    } else if i.sendSeq == s.rsn {
      var a := s.(telegrams := s.telegrams + 1, rsn := Next(s.rsn), log := Then(s.log, Accepted(i.sendSeq)));
      ReleaseCause(a, Below(i.recvSeq), a.sent, a.log, p);
      EmitAllCancelsNothing(Accept(s, i.sendSeq, i.recvSeq).(t2 := true), i.replies, EI(p));
    }
  }

  /** No I-frame leaves `sentmsgs`, or has its T1 cancelled, unless the received frame carries a RecvSeq above it. */
  lemma {:induction false} OnlyAcknowledgedFramesLeave<P>(s: State<P>, w: int, i: Input<P>, p: P)
    requires Window(s)
    requires Cancelled(Step(s, w, i).log, EI(p)) > Cancelled(s.log, EI(p))
    ensures SeqOf(s, p) < Acknowledges(s, i) && EI(p) in s.sent
  {
    match i
    case GotI(_, _, _, _) =>
      AcknowledgedByI(s, w, i, p);
    case GotUnreadableI(_, _, _) =>
      AcknowledgedByI(s, w, Unanswered(i), p);
    case GotS(_, recvSeq) =>
      var ack := if recvSeq <= s.ssn then recvSeq else s.ack;
      ReleaseCause(s.(ack := ack), Below(ack), s.sent, s.log, p);
      if EI(p) in s.sent {
        InWindow(s, s.sent, p);
      }
    case GotU(_, _) =>
      ReleaseCause(s, TestFrames, s.sent, s.log, p);
      EmitAllCancelsNothing(EmitU(s.(allowDT := true), STARTDT_CON), s.buffer, EI(p));
    case _ =>
  }

  lemma {:induction false} KeptIsExact<P>(s: State<P>, d: Drop, sent: seq<Entry<P>>, e: Entry<P>)
    ensures e in Kept(s, d, sent) <==> e in sent && !Drops(s, d, e)
  {
    if sent != [] {
      KeptIsExact(s, d, sent[1..], e);
      assert e in sent <==> e == sent[0] || e in sent[1..];
    }
  }

  lemma {:induction false} EmitAllKeepsOthers<P>(s: State<P>, ps: seq<P>, p: P)
    requires p !in ps
    ensures EI(p) in EmitAll(s, ps).sent <==> EI(p) in s.sent
    decreases |ps|
  {
    if ps != [] {
      EmitAllKeepsOthers(EmitI(s, ps[0]), ps[1..], p);
    }
  }

  lemma {:induction false} EmitAllKeepsAll<P>(s: State<P>, ps: seq<P>, e: Entry<P>)
    ensures e in s.sent ==> e in EmitAll(s, ps).sent
    decreases |ps|
  {
    if ps != [] {
      EmitAllKeepsAll(EmitI(s, ps[0]), ps[1..], e);
    }
  }

  /** The number from which on I-frames stay in `sentmsgs`; an S-frame with a number not yet sent is ignored. */
  function StaysFrom<P>(s: State<P>, i: Input<P>): nat {
    match i
    case GotI(ok, _, r, _) => if ok then r else 0
    case GotUnreadableI(ok, _, r) => if ok then r else 0
    case GotS(ok, r) => if !ok then 0 else if r <= s.ssn then r else s.ack
    case _ => 0
  }

  lemma {:induction false} AnswerKeepsOthers<P>(s: State<P>, w: int, ps: seq<P>, p: P)
    requires p !in ps
    ensures EI(p) in Answer(s, w, ps).sent <==> EI(p) in s.sent
  {
    EmitAllKeepsOthers(s.(t2 := true), ps, p);
  }

  lemma {:induction false} AcknowledgementByI<P>(s: State<P>, w: int, i: Input<P>, p: P)
    requires i.GotI? && !HandleI(s, w, i).closed && !s.closed && p !in i.replies && EI(p) in s.sent
    ensures EI(p) in HandleI(s, w, i).sent <==> SeqOf(s, p) >= StaysFrom(s, i)
  {
    if !i.lengthOk {
      AnswerKeepsOthers(s, w, i.replies, p);
    } else {
      var a := s.(telegrams := s.telegrams + 1, rsn := Next(s.rsn), log := Then(s.log, Accepted(i.sendSeq)));
      KeptIsExact(a, Below(i.recvSeq), a.sent, EI(p));
      AnswerKeepsOthers(Accept(s, i.sendSeq, i.recvSeq), w, i.replies, p);
    }
  }

  /** An acknowledgement removes exactly the frames below its RecvSeq: all of them, and no other. */
  lemma {:induction false} AcknowledgementIsExact<P>(s: State<P>, w: int, i: Input<P>, p: P)
    requires !s.closed && !Step(s, w, i).closed && p !in Replies(i) && EI(p) in s.sent
    ensures EI(p) in Step(s, w, i).sent <==> SeqOf(s, p) >= StaysFrom(s, i)
  {
    match i
    case GotI(_, _, _, _) =>
      AcknowledgementByI(s, w, i, p);
    case GotUnreadableI(_, _, _) =>
      AcknowledgementByI(s, w, Unanswered(i), p);
    case GotS(_, recvSeq) =>
      var ack := if recvSeq <= s.ssn then recvSeq else s.ack;
      KeptIsExact(s.(ack := ack), Below(ack), s.sent, EI(p));
    case GotU(_, _) =>
      KeptIsExact(s, TestFrames, s.sent, EI(p));
      EmitAllKeepsAll(EmitU(s.(allowDT := true), STARTDT_CON), s.buffer, EI(p));
    case _ =>
  }

  /** A TESTFR frame from the peer ends every test that is pending. */
  lemma {:induction false} TestFramesEndTests<P>(s: State<P>, w: int, ty: nat)
    requires !s.closed && (ty == TESTFR_ACT || ty == TESTFR_CON)
    ensures EU(TESTFR_ACT) !in Step(s, w, GotU(true, ty)).sent
  {
    KeptIsExact(s, TestFrames, s.sent, EU(TESTFR_ACT));
  }

  // ---------- Runs that reach the failing cases ----------

  /** A command answered while stopped, and data transfer started twice. */
  function StartedTwice<P>(p: P): seq<Input<P>> {
    [GotI(true, 0, 0, [p]), GotU(true, STARTDT_ACT), GotU(true, STARTDT_ACT)]
  }

  lemma {:induction false} EmitOne<P>(s: State<P>, p: P)
    ensures EmitAll(s, [p]) == EmitI(s, p)
  {
    var none: seq<P> := [];
    assert [p][1..] == none && EmitAll(EmitI(s, p), none) == EmitI(s, p);
  }

  lemma {:induction false} StartOfOne<P>(s: State<P>, p: P)
    requires s.buffer == [p] && !s.closed
    ensures var t := Step(s, 8, GotU(true, STARTDT_ACT));
      && t.sent == s.sent + [EI(p)] && t.buffer == [p] && t.ssn == Next(s.ssn) && SeqOf(t, p) == s.ssn && !t.closed
  {
    EmitOne(EmitU(s.(allowDT := true), STARTDT_CON), p);
  }

  lemma {:induction false} AnswerWhileStopped<P>(p: P)
    ensures var t: State<P> := Step(Initial(), 8, GotI(true, 0, 0, [p]));
      t.buffer == [p] && t.sent == [] && t.ssn == 0 && !t.closed
  {
    EmitOne(Accept(Initial(), 0, 0).(t2 := true), p);
  }

  lemma {:induction false} StartedTwiceStates<P>(p: P)
    ensures var ins := StartedTwice(p);
      && Run(8, ins[..2]).sent == [EI(p)] && Run(8, ins[..2]).buffer == [p] && !Run(8, ins[..2]).closed
      && Run(8, ins).sent == [EI(p), EI(p)] && SeqOf(Run(8, ins), p) == 2 && Run(8, ins).ssn == 4
      && !Run(8, ins).closed
  {
    var ins := StartedTwice(p);
    var none: seq<Input<P>> := [];
    assert ins[..2][..1] == ins[..1] && ins[..1][..0] == none;
    assert Run(8, none) == Initial();
    assert Run(8, ins[..1]) == Step(Initial(), 8, ins[0]);
    AnswerWhileStopped(p);
    assert Run(8, ins[..2]) == Step(Run(8, ins[..1]), 8, ins[1]);
    StartOfOne(Run(8, ins[..1]), p);
    assert Run(8, ins) == Step(Run(8, ins[..2]), 8, ins[2]);
    StartOfOne(Run(8, ins[..2]), p);
  }

  /** A run can reach the start that breaks the window: the second one finds the flushed packet still waiting. */
  lemma {:induction false} SecondStartBreaksWindow<P>(p: P)
    ensures !SafeRun(8, StartedTwice(p)) && !Window(Run(8, StartedTwice(p)))
  {
    var ins := StartedTwice(p);
    StartedTwiceStates(p);
    assert IsStart(ins[2]) && !SafeStart(Run(8, ins[..2])) by {
      assert Run(8, ins[..2]).buffer[0] == p;
    }
    assert !SafeRun(8, ins);
    var s := Run(8, ins);
    var q := ISeqs(s, s.sent);
    assert q[0] == 2 && q[1] == 2 && |q| == 2 by {
      var none: seq<Entry<P>> := [];
      assert s.sent[1..] == [EI(p)] && [EI(p)][1..] == none;
      assert ISeqs(s, [EI(p)]) == [2] + ISeqs(s, none);
    }
    assert q[0] != s.ssn - 2 * (|q| - 0);
  }

  /** One frame accepted, then one with a wrong number: the last S-frame says 0 although one frame was accepted. */
  lemma {:induction false} SequenceErrorIsReached<P>()
    ensures var s: State<P> := Run(8, [GotI(true, 0, 0, []), GotI(true, 0, 0, [])]);
      && s.closed && s.log == Then(Then(Then(Start, Accepted(0)), Closed), SentS(0))
      && CountAccepted(s.log) == 1 && Number(1) == 2
  {
    var i: Input<P> := GotI(true, 0, 0, []);
    var none: seq<Input<P>> := [];
    assert [i, i][..1] == [i] && [i][..0] == none;
    assert Run(8, none) == Initial();
    var s := Run(8, [i]);
    assert s == Step(Initial(), 8, i);
    assert s.log == Then(Start, Accepted(0)) && s.rsn == 2 && !s.closed;
    assert Run(8, [i, i]) == Step(s, 8, i);
    var t: Trace<P> := Then(Then(Start, Accepted(0)), Closed);
    assert CountAccepted(t.past) == 1 && CountAccepted(t) == 1;
  }
}
