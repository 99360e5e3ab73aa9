/**
 * The `IEC104` connection object (conpot/protocols/IEC104/IEC104.py) with its mutable fields and shared packet
 * objects, each method proved against the state machine of `Iec104Link`.
 */
module Iec104Connection {
  import opened Iec104Link
  import opened Sequences

  /** A scapy `i_frame`: its ASDU is fixed, its sequence fields are written when it is sent. */
  class Packet<A> {
    const asdu: A
    var sendSeq: nat
    var recvSeq: nat

    constructor (asdu: A)
      ensures this.asdu == asdu && sendSeq == 0 && recvSeq == 0
    {
      this.asdu, sendSeq, recvSeq := asdu, 0, 0;
    }
  }

  /** A built frame, as handed to the socket. */
  datatype Wire<A> = WireI(asdu: A, sendSeq: nat, recvSeq: nat) | WireS(recvSeq: nat) | WireU(ty: nat)

  /** The frames of a trace, as they appear on the wire. */
  function Emitted<A>(t: Trace<Packet<A>>): seq<Wire<A>> {
    match t
    case Start => []
    case Then(past, e) =>
      Emitted(past) + (match e
                       case SentI(p, n, r) => [WireI(p.asdu, n, r)]
                       case SentS(r) => [WireS(r)]
                       case SentU(ty) => [WireU(ty)]
                       case _ => [])
  }

  lemma {:induction false} ReleasesEmitNothing<A>(
      s: State<Packet<A>>, d: Drop, sent: seq<Entry<Packet<A>>>, log: Trace<Packet<A>>)
    ensures Emitted(Releases(s, d, sent, log)) == Emitted(log)
  {
    if sent != [] {
      ReleasesEmitNothing(s, d, sent[1..], if Drops(s, d, sent[0]) then Then(log, Released(sent[0])) else log);
    }
  }

  class IEC104<A> {
    const w: int
    var ssn: nat
    var rsn: nat
    var ack: nat
    var allowDT: bool
    var t2Caller: bool
    var telegramCount: int
    var sentmsgs: seq<Entry<Packet<A>>>
    var sendBuffer: seq<Packet<A>>
    var closed: bool
    ghost var seqs: map<Packet<A>, nat>
    ghost var log: Trace<Packet<A>>

    ghost predicate Valid()
      reads this, seqs.Keys
    {
      && (forall p | p in seqs :: p.sendSeq == seqs[p])
      && (forall k | 0 <= k < |sentmsgs| && sentmsgs[k].EI? :: sentmsgs[k].p in seqs)
    }

    ghost function View(): State<Packet<A>>
      reads this
    {
      State(ssn, rsn, ack, allowDT, t2Caller, telegramCount, sentmsgs, sendBuffer, seqs, closed, log)
    }

    constructor (w: int)
      ensures Valid() && View() == Initial() && this.w == w
    {
      this.w := w;
      ssn, rsn, ack, telegramCount := 0, 0, 0, 0;
      allowDT, t2Caller, closed := false, false, false;
      sentmsgs, sendBuffer, seqs, log := [], [], map[], Start;
    }

    method IncrementSendSeq()
      modifies this`ssn
      ensures ssn == Next(old(ssn))
    {
      if ssn < 65534 {
        ssn := ssn + 2;
      } else {
        ssn := 0;
      }
    }

    method SendS() returns (out: Wire<A>)
      requires Valid()
      modifies this`telegramCount, this`t2Caller, this`log
      ensures Valid() && View() == EmitS(old(View())) && Emitted(log) == old(Emitted(log)) + [out]
    {
      t2Caller, telegramCount := false, 0;
      out := WireS(rsn);
      log := Then(log, SentS(rsn));
    }

    method SendU(ty: nat) returns (out: Wire<A>)
      requires Valid()
      modifies this`sentmsgs, this`log
      ensures Valid() && View() == EmitU(old(View()), ty) && Emitted(log) == old(Emitted(log)) + [out]
    {
      if ty == STARTDT_ACT || ty == TESTFR_ACT {
        sentmsgs := sentmsgs + [EU(ty)];
      }
      out := WireU(ty);
      log := Then(log, SentU(ty));
    }

    /** `send_104frame` of an I-frame: what is built, or nothing when the packet is withheld. */
    method SendI(p: Packet<A>) returns (out: seq<Wire<A>>)
      requires Valid()
      modifies this, p
      ensures Valid() && View() == EmitI(old(View()), p) && Emitted(log) == old(Emitted(log)) + out
    {
      if allowDT {
        t2Caller := false;
        p.sendSeq, p.recvSeq := ssn, rsn;
        seqs := seqs[p := ssn];
        out := [WireI(p.asdu, ssn, rsn)];
        log := Then(log, SentI(p, ssn, rsn));
        IncrementSendSeq();
        telegramCount := 0;
        sentmsgs := sentmsgs + [EI(p)];
      } else {
        if |sendBuffer| < BUFFER_LIMIT {
          sendBuffer := sendBuffer + [p];
        }
        log := Then(log, Withheld(p));
        out := [];
      }
    }

    method SendAll(ps: seq<Packet<A>>) returns (out: seq<Wire<A>>)
      requires Valid()
      modifies this, ps
      ensures Valid() && View() == EmitAll(old(View()), ps) && Emitted(log) == old(Emitted(log)) + out
    {
      out := [];
      for i := 0 to |ps|
        invariant Valid() && EmitAll(View(), ps[i..]) == EmitAll(old(View()), ps)
        invariant Emitted(log) == old(Emitted(log)) + out
      {
        assert ps[i..][0] == ps[i] && ps[i..][1..] == ps[i + 1..];
        var more := SendI(ps[i]);
        out := out + more;
      }
    }

    /** The loop that rebuilds `sentmsgs`; `t` records the timers it cancels. */
    method Rebuild(d: Drop) returns (kept: seq<Entry<Packet<A>>>, ghost t: Trace<Packet<A>>)
      requires Valid()
      ensures kept == Kept(View(), d, sentmsgs) && t == Releases(View(), d, sentmsgs, log)
    {
      var rest := sentmsgs;
      ghost var s := View();
      kept, t := [], log;
      while rest != []
        invariant kept + Kept(s, d, rest) == Kept(s, d, sentmsgs)
        invariant Releases(s, d, rest, t) == Releases(s, d, sentmsgs, log)
        invariant forall k | 0 <= k < |rest| && rest[k].EI? :: rest[k].p in seqs
        decreases |rest|
      {
        var x := rest[0];
        rest := rest[1..];
        var drop := match d
          case Below(n) => x.EI? && x.p.sendSeq < n
          case TestFrames => x == EU(TESTFR_ACT);
        if drop {
          t := Then(t, Released(x));
        } else {
          Assoc(kept, [x], Kept(s, d, rest));
          kept := kept + [x];
        }
      }
    }

    method ReleaseFrames(d: Drop)
      requires Valid()
      modifies this`sentmsgs, this`log
      ensures Valid() && View() == Release(old(View()), d) && Emitted(log) == old(Emitted(log))
    {
      KeptIsPart(View(), d, sentmsgs);
      ReleasesEmitNothing(View(), d, sentmsgs, log);
      ghost var t;
      sentmsgs, t := Rebuild(d);
      log := t;
    }

    method Close()
      requires Valid()
      modifies this
      ensures Valid() && View() == Disconnect(old(View())) && Emitted(log) == old(Emitted(log))
    {
      t2Caller := false;
      ssn, rsn, ack, telegramCount := 0, 0, 0, 0;
      closed := true;
      log := Then(log, Closed);
    }

    method AcceptFrame(sendSeq: nat, recvSeq: nat)
      requires Valid()
      modifies this
      ensures Valid() && View() == Accept(old(View()), sendSeq, recvSeq) && Emitted(log) == old(Emitted(log))
    {
      telegramCount := telegramCount + 1;
      if rsn < 65534 {
        rsn := rsn + 2;
      } else {
        rsn := 0;
      }
      log := Then(log, Accepted(sendSeq));
      ReleaseFrames(Below(recvSeq));
    }

    method AnswerFrame(replies: seq<Packet<A>>) returns (out: seq<Wire<A>>)
      requires Valid()
      modifies this, replies
      ensures Valid() && View() == Answer(old(View()), w, replies) && Emitted(log) == old(Emitted(log)) + out
    {
      if !t2Caller {
        t2Caller := true;
      }
      if telegramCount >= w {
        var s := SendS();
        return [s];
      }
      out := SendAll(replies);
    }

    /** `replies` are the packets the handler of this frame's command would send. */
    method ReceiveI(lengthOk: bool, sendSeq: nat, recvSeq: nat, replies: seq<Packet<A>>) returns (out: seq<Wire<A>>)
      requires Valid()
      modifies this, replies
      ensures Valid() && Emitted(log) == old(Emitted(log)) + out
      ensures View() == HandleI(old(View()), w, GotI(lengthOk, sendSeq, recvSeq, replies))
    {
      if lengthOk {
        if sendSeq != rsn {
          Close();
          var s := SendS();
          return [s];
        }
        AcceptFrame(sendSeq, recvSeq);
      }
      out := AnswerFrame(replies);
    }

    /** An I-frame whose type or common address cannot be read; `raised` says that the exception is reached. */
    method ReceiveUnreadableI(lengthOk: bool, sendSeq: nat, recvSeq: nat)
      returns (out: seq<Wire<A>>, raised: bool)
      requires Valid()
      modifies this
      ensures Valid() && Emitted(log) == old(Emitted(log)) + out
      ensures View() == HandleUnreadableI(old(View()), w, GotUnreadableI(lengthOk, sendSeq, recvSeq))
      ensures raised == ReadsAsdu(old(View()), w, GotUnreadableI(lengthOk, sendSeq, recvSeq))
    {
      raised := if lengthOk then sendSeq == rsn && telegramCount + 1 < w else telegramCount < w;
      out := ReceiveI(lengthOk, sendSeq, recvSeq, []);
      if raised {
        closed := true;
        log := Then(log, Closed);
      }
    }

    method ReceiveS(wellFormed: bool, recvSeq: nat)
      requires Valid()
      modifies this
      ensures Valid() && Emitted(log) == old(Emitted(log))
      ensures View() == HandleS(old(View()), GotS(wellFormed, recvSeq))
    {
      if wellFormed {
        if recvSeq <= ssn {
          ack := recvSeq;
        }
        ReleaseFrames(Below(ack));
      }
    }

    method ReceiveU(wellFormed: bool, ty: nat) returns (out: seq<Wire<A>>)
      requires Valid()
      modifies this, sendBuffer
      ensures Valid() && Emitted(log) == old(Emitted(log)) + out
      ensures View() == HandleU(old(View()), GotU(wellFormed, ty))
    {
      out := [];
      if !wellFormed {
        return;
      }
      if ty == STARTDT_ACT {
        allowDT := true;
        var con := SendU(STARTDT_CON);
        var more := SendAll(sendBuffer);
        out := [con] + more;
      } else if ty == STOPDT_ACT {
        allowDT := false;
        var s := SendS();
        var con := SendU(STOPDT_CON);
        out := [s, con];
      } else if ty == TESTFR_ACT {
        ReleaseFrames(TestFrames);
        var con := SendU(TESTFR_CON);
        out := [con];
      } else if ty == TESTFR_CON {
        ReleaseFrames(TestFrames);
      }
    }
  }
}
