/** The retry loop over whole runs: when it gives up, and what it sends again, in which order. */
module SndRcvRetry {
  import opened SentTable
  import opened SndRcv

  // ----- When it gives up -----

  /** A round that ends with some of its packets answered and some not. */
  ghost predicate Progress(h: Handler, g: History, e: Event) {
    e == RoundEnds && Enabled(h, e) && 0 < |g.outstanding| < |h.tobesent|
  }

  /** The rounds ended since the last one that renewed the counter, which only a negative retry allows. */
  ghost function Idle(pkts: seq<Packet>, retry: int, es: seq<Event>, answers: Answers): nat {
    if es == [] then 0
    else
      var s, init, e := Start(pkts, retry), es[..|es| - 1], es[|es| - 1];
      var h, g := Run(s, init, answers), Recorded(s, init, answers);
      if retry < 0 && Progress(h, g, e) then 0
      else Idle(pkts, retry, init, answers) + if e == RoundEnds && Enabled(h, e) then 1 else 0
  }

  ghost predicate Renewed(pkts: seq<Packet>, retry: int, es: seq<Event>, answers: Answers) {
    es != [] &&
      var s, init, e := Start(pkts, retry), es[..|es| - 1], es[|es| - 1];
      || (retry < 0 && Progress(Run(s, init, answers), Recorded(s, init, answers), e))
      || Renewed(pkts, retry, init, answers)
  }

  /** The idle rounds after which the loop gives up: one less once it was renewed, which takes up a turn. */
  ghost function Patience(pkts: seq<Packet>, retry: int, es: seq<Event>, answers: Answers): nat {
    var n := if retry < 0 then -retry else retry;
    if Renewed(pkts, retry, es, answers) then n else n + 1
  }

  ghost predicate Waits(h: Handler, n: nat, retry: int, idle: nat, patience: nat, rounds: nat) {
    && h.autostop == (if retry < 0 then n else 0)
    && n == (if retry < 0 then -retry else retry)
    && (h.round ==> h.retry == patience - 1 - idle && idle < patience && (rounds > 0 ==> h.tobesent != []))
    && (!h.round ==> h.tobesent == [] || idle == patience)
    && (!h.round ==> rounds > 0)
  }

  lemma Waiting(h: Handler, n: nat, retry: int, idle: nat, patience: nat, rounds: nat, e: Event, answers: Answers)
    requires Waits(h, n, retry, idle, patience, rounds) && (!Enabled(h, e) || e != RoundEnds)
    ensures Waits(Next(h, e, answers), n, retry, idle, patience, rounds)
  {}

  lemma TurnEnds(h: Handler, n: nat, retry: int, idle: nat, patience: nat, rounds: nat, g: History, answers: Answers)
    requires Waits(h, n, retry, idle, patience, rounds) && Enabled(h, RoundEnds) && |Chain(h.hsent)| == |g.outstanding|
    requires |g.outstanding| <= |h.tobesent|
    ensures var renews := retry < 0 && Progress(h, g, RoundEnds);
            Waits(Next(h, RoundEnds, answers), n, retry, if renews then 0 else idle + 1, if renews then n else patience,
                  rounds + 1)
  {}

  lemma {:induction false} RunWaits(pkts: seq<Packet>, retry: int, es: seq<Event>, answers: Answers)
    ensures var s := Start(pkts, retry);
            Waits(Run(s, es, answers), if retry < 0 then -retry else retry, retry, Idle(pkts, retry, es, answers),
                  Patience(pkts, retry, es, answers), Recorded(s, es, answers).rounds)
  {
    if es != [] {
      var s, init, e := Start(pkts, retry), es[..|es| - 1], es[|es| - 1];
      var h, g, n := Run(s, init, answers), Recorded(s, init, answers), if retry < 0 then -retry else retry;
      var idle, patience := Idle(pkts, retry, init, answers), Patience(pkts, retry, init, answers);
      RunWaits(pkts, retry, init, answers);
      if e == RoundEnds && Enabled(h, e) {
        RunKeeps(pkts, retry, init, answers);
        ChainSize(h.hsent, g.outstanding);
        TurnEnds(h, n, retry, idle, patience, g.rounds, g, answers);
      } else {
        Waiting(h, n, retry, idle, patience, g.rounds, e, answers);
        assert Recorded(s, es, answers).rounds == g.rounds;
      }
    }
  }

  /**
   * Once a round has ended, the loop is left exactly when no packet remains or the idle rounds have
   * used its patience up: retry + 1 rounds, and with a negative retry |retry| of them behind one
   * that renewed the counter.
   */
  lemma {:induction false} GivesUpExactly(pkts: seq<Packet>, retry: int, es: seq<Event>, answers: Answers)
    ensures var s := Start(pkts, retry);
            var h := Run(s, es, answers);
            Recorded(s, es, answers).rounds > 0 ==>
              (!h.round <==> h.tobesent == [] || Idle(pkts, retry, es, answers) == Patience(pkts, retry, es, answers))
  {
    RunWaits(pkts, retry, es, answers);
  }

  // ----- What is sent again -----

  /** The hashes of packets, each once, in the order in which they come first. */
  function FirstSeen(sent: seq<Packet>): (hs: seq<int>) {
    if sent == [] then []
    else
      var hs, h := FirstSeen(sent[..|sent| - 1]), sent[|sent| - 1].hashret;
      if h in hs then hs else hs + [h]
  }

  /** The packets with these hashes, hash by hash. */
  function Grouped(hs: seq<int>, sent: seq<Packet>): seq<Packet> {
    if hs == [] then [] else OfHash(sent, hs[0]) + Grouped(hs[1..], sent)
  }

  function Keys(t: Table): seq<int> {
    if t == [] then [] else [t[0].hash] + Keys(t[1..])
  }

  lemma {:induction false} KeysAre(t: Table, h: int)
    ensures HasKey(t, h) <==> h in Keys(t)
  {
    if t != [] {
      KeysAre(t[1..], h);
    }
  }

  lemma {:induction false} KeysOfAdd(t: Table, p: Packet)
    ensures Keys(Add(t, p)) == if p.hashret in Keys(t) then Keys(t) else Keys(t) + [p.hashret]
  {
    if t != [] {
      KeysOfAdd(t[1..], p);
      assert Add(t, p)[1..] == if t[0].hash == p.hashret then t[1..] else Add(t[1..], p);
    }
  }

  lemma {:induction false} KeysOfStore(t: Table, h: int, sent: seq<Packet>)
    ensures Keys(Store(t, h, sent)) == Keys(t)
  {
    if t != [] && t[0].hash != h {
      KeysOfStore(t[1..], h, sent);
      assert Store(t, h, sent)[1..] == Store(t[1..], h, sent);
    } else if t != [] {
      assert Store(t, h, sent)[1..] == t[1..];
    }
  }

  lemma {:induction false} ChainIsGrouped(t: Table, sent: seq<Packet>)
    requires DistinctKeys(t) && forall h :: h in Keys(t) ==> Lookup(t, h) == OfHash(sent, h)
    ensures Chain(t) == Grouped(Keys(t), sent)
  {
    if t != [] {
      forall h | h in Keys(t[1..]) ensures Lookup(t[1..], h) == OfHash(sent, h) {
        KeysAre(t[1..], h);
        assert h in Keys(t);
      }
      ChainIsGrouped(t[1..], sent);
      assert t[0].hash in Keys(t) && Keys(t)[1..] == Keys(t[1..]);
    }
  }

  lemma FirstSeenOne(sent: seq<Packet>, p: Packet)
    ensures FirstSeen(sent + [p]) == if p.hashret in FirstSeen(sent) then FirstSeen(sent)
                                     else FirstSeen(sent) + [p.hashret]
  {
    assert (sent + [p])[..|sent|] == sent;
  }

  /** The table's keys are the hashes registered this round, in the order in which they came. */
  lemma {:induction false} KeysInOrder(pkts: seq<Packet>, retry: int, es: seq<Event>, answers: Answers)
    ensures var s := Start(pkts, retry);
            var h, g := Run(s, es, answers), Recorded(s, es, answers);
            KeysFit(h, g)
  {
    var s := Start(pkts, retry);
    if es != [] {
      var init, e := es[..|es| - 1], es[|es| - 1];
      KeysInOrder(pkts, retry, init, answers);
      RunKeeps(pkts, retry, init, answers);
      KeysStep(Run(s, init, answers), Recorded(s, init, answers), e, answers);
    }
  }

  ghost predicate KeysFit(h: Handler, g: History) {
    g.reg <= |h.tobesent| && Keys(h.hsent) == FirstSeen(h.tobesent[..g.reg])
  }

  lemma KeysStep(h: Handler, g: History, e: Event, answers: Answers)
    requires Positions(h, g) && KeysFit(h, g)
    ensures KeysFit(Next(h, e, answers), Record(g, h, e, answers))
  {
    if !Enabled(h, e) {
      NotEnabled(h, g, e, answers);
    } else if e == SenderStep && h.spc == Looping && h.i < |h.tobesent| {
      KeysOfSend(h, g, answers);
    } else if e.Deliver? {
      DeliverIs(h, g, e.r, answers);
      KeysOfStore(h.hsent, e.r.hashret, PickFrom(h.hsent, e.r, answers).rest);
    } else if e == RoundEnds {
      RoundEndIs(h, g, answers);
      assert Chain(h.hsent)[..0] == [];
    } else {
      TableUnmoved(h, g, e, answers);
    }
  }

  lemma TableUnmoved(h: Handler, g: History, e: Event, answers: Answers)
    requires Enabled(h, e) && e != RoundEnds && !e.Deliver?
    requires !(e == SenderStep && h.spc == Looping && h.i < |h.tobesent|)
    ensures var h', g' := Next(h, e, answers), Record(g, h, e, answers);
            h'.hsent == h.hsent && h'.tobesent == h.tobesent && g'.reg == g.reg
  {}

  lemma SendIs(h: Handler, g: History, answers: Answers)
    requires Enabled(h, SenderStep) && h.spc == Looping && h.i < |h.tobesent|
    ensures Next(h, SenderStep, answers) == h.(hsent := Add(h.hsent, h.tobesent[h.i]), spc := Sending)
    ensures Record(g, h, SenderStep, answers)
         == g.(outstanding := g.outstanding + [h.tobesent[h.i]], reg := g.reg + 1)
  {}

  lemma KeysOfSend(h: Handler, g: History, answers: Answers)
    requires Positions(h, g) && KeysFit(h, g) && Enabled(h, SenderStep) && h.spc == Looping && h.i < |h.tobesent|
    ensures KeysFit(Next(h, SenderStep, answers), Record(g, h, SenderStep, answers))
  {
    SendIs(h, g, answers);
    KeysOneMore(h.hsent, h.tobesent, g.reg);
  }

  lemma KeysOneMore(t: Table, sent: seq<Packet>, k: nat)
    requires k < |sent| && Keys(t) == FirstSeen(sent[..k])
    ensures Keys(Add(t, sent[k])) == FirstSeen(sent[..k + 1])
  {
    KeysOfAdd(t, sent[k]);
    FirstSeenOne(sent[..k], sent[k]);
    assert sent[..k + 1] == sent[..k] + [sent[k]];
  }

  lemma ChainInOrder(h: Handler, g: History)
    requires KeysFit(h, g) && Represents(h.hsent, g.outstanding)
    ensures Chain(h.hsent) == Grouped(FirstSeen(h.tobesent[..g.reg]), g.outstanding)
  {
    ChainIsGrouped(h.hsent, g.outstanding);
  }

  /**
   * What the next round sends: the packets without an answer, hash by hash in the order in which the
   * hashes were sent first in this round, those of a hash in the order in which they were sent.
   */
  lemma {:induction false} SendsAgainInOrder(pkts: seq<Packet>, retry: int, es: seq<Event>, answers: Answers)
    ensures var s := Start(pkts, retry);
            var h, g := Run(s, es, answers), Recorded(s, es, answers);
            g.reg <= |h.tobesent| &&
            (Enabled(h, RoundEnds) ==>
              Next(h, RoundEnds, answers).tobesent == Grouped(FirstSeen(h.tobesent[..g.reg]), g.outstanding))
  {
    var s := Start(pkts, retry);
    var h, g := Run(s, es, answers), Recorded(s, es, answers);
    RunKeeps(pkts, retry, es, answers);
    KeysInOrder(pkts, retry, es, answers);
    ChainInOrder(h, g);
    if Enabled(h, RoundEnds) {
      RoundEndIs(h, g, answers);
    }
  }
}
