/** `SndRcvHandler` itself: the object whose fields the two threads update. */
module SndRcvHandlers {
  import opened Bytes
  import opened SentTable
  import opened SndRcv

  class SndRcvHandler {
    const answers: Answers
    var tobesent: seq<Packet>
    var hsent: Table
    var ans: seq<QueryAnswer>
    var noans: nat
    var notans: nat
    var nbrecv: nat
    var sendDone: bool
    var breakout: bool
    var spc: SenderPc
    var i: nat
    var rpc: ReceiverPc
    var retry: int
    var autostop: int
    var round: bool

    function Snapshot(): Handler
      reads this
    {
      Handler(tobesent, hsent, ans, noans, notans, nbrecv, sendDone, breakout, spc, i, rpc, retry, autostop, round)
    }

    constructor (pkts: seq<Packet>, retry: int, answers: Answers)
      ensures Snapshot() == Start(pkts, retry) && this.answers == answers
    {
      this.answers := answers;
      tobesent, hsent, ans := pkts, [], [];
      noans, notans, nbrecv, i := 0, 0, 0, 0;
      sendDone, breakout := false, false;
      spc, rpc, round := Looping, Idle, true;
      if retry < 0 {
        this.retry, autostop := -retry, -retry;
      } else {
        this.retry, autostop := retry, 0;
      }
    }

    /** The next atomic step of `_sndrcv_snd`. */
    method Send()
      requires Enabled(Snapshot(), SenderStep)
      modifies this
      ensures Snapshot() == Next(old(Snapshot()), SenderStep, answers)
    {
      match spc
      case Looping =>
        if i < |tobesent| {
          hsent := Add(hsent, tobesent[i]);
          spc := Sending;
        } else {
          spc := Finishing;
        }
      case Sending =>
        spc := Checking;
      case Checking =>
        if breakout {
          spc := Finishing;
        } else {
          i := i + 1;
          spc := Looping;
        }
      case Finishing =>
        if !sendDone {
          notans := i;
        }
        spc := Publishing;
      case Publishing =>
        sendDone := true;
        spc := Done;
    }

    /** The scan of `_process_packet` over the bucket of the answer's hash. */
    method Receive(r: Packet)
      requires Enabled(Snapshot(), Deliver(r))
      modifies this
      ensures Snapshot() == Next(old(Snapshot()), Deliver(r), answers)
    {
      rpc := Missed;
      var hlst := Lookup(hsent, r.hashret);
      for k := 0 to |hlst|
        invariant rpc == Missed && Snapshot() == old(Snapshot()).(rpc := Missed)
        invariant Take(hlst, r, answers, false) == Grown(hlst[..k], Take(hlst[k..], r, answers, false))
      {
        TakeFrom(hlst, k, r, answers);
        if answers(r, hlst[k]) {
          ans := ans + [QueryAnswer(hlst[k], r)];
          hsent := Store(hsent, r.hashret, hlst[..k] + hlst[k + 1..]); // del hlst[k]
          rpc := Matched;
          return;
        }
      }
      assert hlst[|hlst|..] == [];
    }

    /** The counting at the end of `_process_packet`. */
    method CountPacket()
      requires Enabled(Snapshot(), Tally)
      modifies this
      ensures Snapshot() == Next(old(Snapshot()), Tally, answers)
    {
      if rpc == Matched {
        noans := noans + 1;
      } else {
        nbrecv := nbrecv + 1;
      }
      rpc := Idle;
    }

    /** The end of a turn of the constructor's loop, once the sender has been joined. */
    method Finish()
      requires Enabled(Snapshot(), RoundEnds)
      modifies this
      ensures Snapshot() == Next(old(Snapshot()), RoundEnds, answers)
    {
      var remain := Chain(hsent);
      ghost var h := Snapshot();
      if autostop != 0 && |remain| > 0 && |remain| != |tobesent| {
        retry := autostop;
      }
      tobesent := remain;
      if |tobesent| == 0 {
        round := false;
      } else {
        retry := retry - 1;
        round := retry >= 0;
      }
      BeginTurn();
      EndRoundIs(h, Snapshot(), answers);
    }

    /** A fresh table, and a sender that has sent nothing. */
    method BeginTurn()
      modifies this`hsent, this`breakout, this`spc, this`i
      ensures Snapshot() == old(Snapshot()).(hsent := [], breakout := false, spc := Looping, i := 0)
    {
      hsent, breakout, spc, i := [], false, Looping, 0;
    }

    method Step(e: Event)
      modifies this
      ensures Snapshot() == Next(old(Snapshot()), e, answers)
    {
      if Enabled(Snapshot(), e) {
        match e
        case SenderStep => Send();
        case SendError => spc := Finishing;
        case Deliver(r) => Receive(r);
        case Tally => CountPacket();
        case SnifferEnds => breakout := true;
        case RoundEnds => Finish();
      }
    }

    ghost predicate At(start: Handler, es: seq<Event>)
      reads this
    {
      Snapshot() == Run(start, es, answers)
    }

    /** The two threads during a turn, in any order. */
    method Play(schedule: seq<Event>, ghost start: Handler, ghost before: seq<Event>) returns (ghost es: seq<Event>)
      requires At(start, before) && round && RoundEnds !in schedule
      modifies this
      ensures At(start, es) && round
      ensures tobesent == old(tobesent) && retry == old(retry) && autostop == old(autostop)
    {
      es := before;
      for k := 0 to |schedule|
        invariant At(start, es) && round
        invariant tobesent == old(tobesent) && retry == old(retry) && autostop == old(autostop)
      {
        RunStep(start, es, schedule[k], answers);
        StepInRound(Snapshot(), schedule[k], answers);
        Step(schedule[k]);
        es := es + [schedule[k]];
      }
    }

    /** The end of a turn: the sender is joined and the packet in hand is counted. */
    method Join(ghost start: Handler, ghost before: seq<Event>) returns (ghost es: seq<Event>)
      requires At(start, before) && round
      modifies this
      ensures At(start, es) && Enabled(Snapshot(), RoundEnds)
      ensures tobesent == old(tobesent) && retry == old(retry) && autostop == old(autostop)
    {
      es := before;
      while spc != Done
        invariant At(start, es) && round
        invariant tobesent == old(tobesent) && retry == old(retry) && autostop == old(autostop)
        decreases SenderStepsLeft(Snapshot())
      {
        RunStep(start, es, SenderStep, answers);
        StepInRound(Snapshot(), SenderStep, answers);
        Send();
        es := es + [SenderStep];
      }
      if rpc != Idle {
        RunStep(start, es, Tally, answers);
        StepInRound(Snapshot(), Tally, answers);
        CountPacket();
        es := es + [Tally];
      }
    }

    /**
     * The constructor's loop, under any network: `schedule(k)` is what happens in
     * its k-th turn. It ends, and what it leaves is where some run of steps leads.
     */
    method Rounds(schedule: nat -> seq<Event>, ghost pkts: seq<Packet>, ghost retry0: int)
      returns (ghost es: seq<Event>)
      requires Snapshot() == Start(pkts, retry0)
      requires forall k: nat :: RoundEnds !in schedule(k)
      modifies this
      ensures !round
      ensures Snapshot() == Run(Start(pkts, retry0), es, answers)
    {
      var k := 0;
      es := [];
      while round
        invariant Snapshot() == Run(Start(pkts, retry0), es, answers)
        decreases round, |tobesent|, retry
      {
        RunKeeps(pkts, retry0, es, answers);
        es := Play(schedule(k), Start(pkts, retry0), es);
        es := Join(Start(pkts, retry0), es);
        RunKeeps(pkts, retry0, es, answers);
        ChainSize(hsent, Recorded(Start(pkts, retry0), es, answers).outstanding);
        RunStep(Start(pkts, retry0), es, RoundEnds, answers);
        Finish();
        es := es + [RoundEnds];
        k := k + 1;
      }
    }
  }

  /** The end of a turn, field by field. */
  lemma EndRoundIs(h: Handler, h': Handler, answers: Answers)
    requires Enabled(h, RoundEnds)
    requires h' == h.(tobesent := Chain(h.hsent), hsent := [], breakout := false, spc := Looping, i := 0,
                      retry := h'.retry, round := h'.round)
    requires var remain := Chain(h.hsent);
             var retry := if h.autostop != 0 && |remain| > 0 && |remain| != |h.tobesent| then h.autostop else h.retry;
             if |remain| == 0 then h'.retry == retry && !h'.round
             else h'.retry == retry - 1 && h'.round == (retry - 1 >= 0)
    ensures h' == Next(h, RoundEnds, answers)
  {}

  function SenderStepsLeft(h: Handler): nat {
    var todo := if h.i < |h.tobesent| then 3 * (|h.tobesent| - h.i) else 0;
    var current := if todo == 0 then 3 else todo;
    match h.spc
    case Looping => todo + 4
    case Sending => current + 3
    case Checking => current + 2
    case Finishing => 2
    case Publishing => 1
    case Done => 0
  }

  lemma StepInRound(h: Handler, e: Event, answers: Answers)
    requires h.round && e != RoundEnds
    ensures var h' := Next(h, e, answers);
            h'.round && h'.tobesent == h.tobesent && h'.retry == h.retry && h'.autostop == h.autostop
            && (e == SenderStep && h.spc != Done ==> SenderStepsLeft(h') < SenderStepsLeft(h))
            && (e == Tally ==> h'.spc == h.spc && h'.rpc == Idle)
  {}

  function Grown(front: seq<Packet>, p: Pick): Pick {
    Pick(p.found, front + p.rest)
  }

  lemma {:induction false} TakeFrom(sent: seq<Packet>, k: nat, r: Packet, answers: Answers)
    requires k < |sent|
    ensures var p := Take(sent[k..], r, answers, false);
            if answers(r, sent[k]) then Grown(sent[..k], p) == Pick(Some(sent[k]), sent[..k] + sent[k + 1..])
            else Grown(sent[..k], p) == Grown(sent[..k + 1], Take(sent[k + 1..], r, answers, false))
  {
    assert sent[k..][1..] == sent[k + 1..];
    var tail := Take(sent[k + 1..], r, answers, false);
    assert sent[..k] + ([sent[k]] + tail.rest) == sent[..k + 1] + tail.rest;
  }
}
