/**
 * The sender thread, the receiver and the retry loop of `SndRcvHandler`, as
 * atomic steps in any order. Not flooding and not `multi`.
 */
module SndRcv {
  import opened SentTable

  // ----- State and steps -----

  /** Where `_sndrcv_snd` is: between packets, before `send`, before the breakout test, ... */
  datatype SenderPc = Looping | Sending | Checking | Finishing | Publishing | Done

  /** Where `_process_packet` is: a packet was matched but not counted, or found unmatched and not counted. */
  datatype ReceiverPc = Idle | Matched | Missed

  /** `round` is false once the constructor has left its loop. */
  datatype Handler = Handler(tobesent: seq<Packet>, hsent: Table, ans: seq<QueryAnswer>,
                             noans: nat, notans: nat, nbrecv: nat, sendDone: bool, breakout: bool,
                             spc: SenderPc, i: nat, rpc: ReceiverPc,
                             retry: int, autostop: int, round: bool)

  function Start(pkts: seq<Packet>, retry: int): Handler {
    var n := if retry < 0 then -retry else retry;
    Handler(pkts, [], [], 0, 0, 0, false, false, Looping, 0, Idle, n, if retry < 0 then n else 0, true)
  }

  datatype Event =
    | SenderStep
    | SendError            // `send` raises, and the handler logs it
    | Deliver(r: Packet)   // the sniffer hands a packet to `_process_packet`
    | Tally                // `_process_packet` counts it
    | SnifferEnds          // the sniffer ends by itself: `breakout` is set
    | RoundEnds            // the sender has been joined: what remains is put together

  function SenderNext(h: Handler): Handler {
    match h.spc
    case Looping =>
      if h.i < |h.tobesent| then h.(hsent := Add(h.hsent, h.tobesent[h.i]), spc := Sending)
      else h.(spc := Finishing)
    case Sending => h.(spc := Checking)
    case Checking => if h.breakout then h.(spc := Finishing) else h.(i := h.i + 1, spc := Looping)
    case Finishing => h.(notans := if h.sendDone then h.notans else h.i, spc := Publishing)
    case Publishing => h.(sendDone := true, spc := Done)
    case Done => h
  }

  function Match(h: Handler, r: Packet, answers: Answers): Handler {
    var p := PickFrom(h.hsent, r, answers);
    if p.found.Some? then
      h.(ans := h.ans + [QueryAnswer(p.found.value, r)], hsent := Store(h.hsent, r.hashret, p.rest), rpc := Matched)
    else h.(rpc := Missed)
  }

  function Count(h: Handler): Handler {
    match h.rpc
    case Idle => h
    case Matched => h.(noans := h.noans + 1, rpc := Idle)
    case Missed => h.(nbrecv := h.nbrecv + 1, rpc := Idle)
  }

  /** The end of one turn of the retry loop, and the start of the next if there is one. */
  function EndRound(h: Handler): Handler {
    var remain := Chain(h.hsent);
    var retry := if h.autostop != 0 && |remain| > 0 && |remain| != |h.tobesent| then h.autostop else h.retry;
    var over := remain == [] || retry - 1 < 0;
    h.(tobesent := remain, hsent := [], breakout := false, spc := Looping, i := 0,
       retry := if remain == [] then retry else retry - 1, round := !over)
  }

  predicate Enabled(h: Handler, e: Event) {
    h.round &&
    match e
    case SenderStep => h.spc != Done
    case SendError => h.spc == Sending
    case Deliver(_) => h.rpc == Idle && !h.breakout
    case Tally => h.rpc != Idle
    case SnifferEnds => h.rpc == Idle
    case RoundEnds => h.spc == Done && h.rpc == Idle
  }

  /** One atomic step; a step that cannot be taken changes nothing. */
  function Next(h: Handler, e: Event, answers: Answers): Handler {
    if !Enabled(h, e) then h
    else
      match e
      case SenderStep => SenderNext(h)
      case SendError => h.(spc := Finishing)
      case Deliver(r) => Match(h, r, answers)
      case Tally => Count(h)
      case SnifferEnds => h.(breakout := true)
      case RoundEnds => EndRound(h)
  }

  /** `_stop_sniffer_if_done` without `first`. */
  predicate StopsSniffer(h: Handler) {
    h.sendDone && h.noans >= h.notans
  }

  function Run(h: Handler, es: seq<Event>, answers: Answers): Handler {
    if es == [] then h else Next(Run(h, es[..|es| - 1], answers), es[|es| - 1], answers)
  }

  // ----- What a run has done, for the invariant -----

  /**
   * outstanding: packets awaiting an answer, in send order. reg: how many of
   * tobesent are registered this round. lost: packets a cut-short round never
   * registered. cut: some round was cut short; firstCut: the first one was.
   * rounds: how many have ended.
   */
  datatype History = History(outstanding: seq<Packet>, reg: nat, received: nat,
                             lost: multiset<Packet>, cut: bool, firstCut: bool, rounds: nat)

  /** The sender leaves its loop early; `sendDone` is set when the first round ends. */
  ghost function CutShort(g: History, h: Handler, now: bool): History {
    g.(cut := g.cut || now, firstCut := g.firstCut || (now && !h.sendDone))
  }

  ghost function Record(g: History, h: Handler, e: Event, answers: Answers): History {
    if !Enabled(h, e) then g
    else
      match e
      case SenderStep =>
        if h.spc == Looping && h.i < |h.tobesent| then
          g.(outstanding := g.outstanding + [h.tobesent[h.i]], reg := g.reg + 1)
        else CutShort(g, h, h.spc == Checking && h.breakout)
      case SendError => CutShort(g, h, true)
      case Deliver(r) => g.(outstanding := Take(g.outstanding, r, answers, true).rest, received := g.received + 1)
      case Tally => g
      case SnifferEnds => g
      case RoundEnds => g.(outstanding := [], reg := 0, rounds := g.rounds + 1,
                           lost := g.lost + if g.reg <= |h.tobesent| then multiset(h.tobesent[g.reg..]) else multiset{})
  }

  ghost function Recorded(h: Handler, es: seq<Event>, answers: Answers): History {
    if es == [] then History([], 0, 0, multiset{}, false, false, 0)
    else
      var init := es[..|es| - 1];
      Record(Recorded(h, init, answers), Run(h, init, answers), es[|es| - 1], answers)
  }

  function Queries(ans: seq<QueryAnswer>): seq<Packet> {
    if ans == [] then [] else Queries(ans[..|ans| - 1]) + [ans[|ans| - 1].query]
  }

  /** A bound on the rounds to come with n packets to send. */
  function RoundsLeft(n: nat, retry: nat, autostop: nat): nat {
    retry + 1 + Renewals(n, autostop)
  }

  /** Each packet but one can be answered in a round that renews the counter. */
  function Renewals(n: nat, autostop: nat): nat {
    if n <= 1 then 0 else autostop + Renewals(n - 1, autostop)
  }

  // ----- The invariant -----

  /** The sender is past its loop. */
  predicate Past(pc: SenderPc) {
    pc == Finishing || pc == Publishing || pc == Done
  }

  ghost predicate Positions(h: Handler, g: History) {
    && h.i <= g.reg <= |h.tobesent|
    && |g.outstanding| <= g.reg
    && (!h.round ==> g.outstanding == [] && g.reg == 0)
    && (h.spc == Looping ==> g.reg == h.i)
    && (h.spc == Sending || h.spc == Checking ==> g.reg == h.i + 1)
    && (Past(h.spc) && !g.cut ==> h.i == g.reg == |h.tobesent|)
    && (Past(h.spc) && h.spc != Done && !h.sendDone && !g.firstCut ==> h.i == |h.tobesent|)
  }

  ghost predicate Counts(h: Handler, g: History) {
    && h.noans + (if h.rpc == Matched then 1 else 0) == |h.ans|
    && h.nbrecv + |h.ans| + (if h.rpc == Missed then 1 else 0) == g.received
  }

  /** Every packet is answered, awaiting an answer, still to be sent this round, or lost. */
  ghost predicate Conserves(h: Handler, g: History, pkts: seq<Packet>)
    requires g.reg <= |h.tobesent|
  {
    Accounted(pkts, h.ans, g.outstanding, h.tobesent[g.reg..], g.lost)
  }

  ghost predicate Accounted(pkts: seq<Packet>, ans: seq<QueryAnswer>, outstanding: seq<Packet>, toCome: seq<Packet>,
                            lost: multiset<Packet>) {
    multiset(pkts) == multiset(Queries(ans)) + multiset(outstanding) + multiset(toCome) + lost
  }

  ghost predicate Published(h: Handler, g: History, pkts: seq<Packet>) {
    && (!h.sendDone ==> h.tobesent == pkts)
    && (h.spc == Done ==> h.sendDone)
    && (!g.cut ==> g.lost == multiset{})
    && ((h.sendDone || h.spc == Publishing) && !g.firstCut ==> h.notans == |pkts|)
  }

  ghost predicate Bounded(h: Handler, g: History, bound: nat) {
    && h.autostop >= 0
    && (h.round ==> h.retry >= 0 && g.rounds + RoundsLeft(|h.tobesent|, h.retry, h.autostop) <= bound)
    && g.rounds <= bound
  }

  ghost predicate Paired(h: Handler, answers: Answers) {
    forall qa :: qa in h.ans ==> answers(qa.answer, qa.query)
  }

  ghost predicate Core(h: Handler, g: History, pkts: seq<Packet>, bound: nat) {
    && Positions(h, g)
    && Counts(h, g)
    && Conserves(h, g, pkts)
    && Published(h, g, pkts)
    && Bounded(h, g, bound)
  }

  ghost predicate Inv(h: Handler, g: History, pkts: seq<Packet>, bound: nat) {
    Core(h, g, pkts, bound) && Represents(h.hsent, g.outstanding)
  }

  lemma {:induction false} QueriesLength(ans: seq<QueryAnswer>)
    ensures |Queries(ans)| == |ans|
  {
    if ans != [] {
      QueriesLength(ans[..|ans| - 1]);
    }
  }

  lemma {:induction false} QueriesAppend(ans: seq<QueryAnswer>, qa: QueryAnswer)
    ensures multiset(Queries(ans + [qa])) == multiset(Queries(ans)) + multiset{qa.query}
  {
    assert (ans + [qa])[..|ans|] == ans;
  }

  lemma {:induction false} StartInv(pkts: seq<Packet>, retry: int)
    ensures var h := Start(pkts, retry);
            Inv(h, History([], 0, 0, multiset{}, false, false, 0), pkts, RoundsLeft(|pkts|, h.retry, h.autostop))
  {
    assert pkts[0..] == pkts;
  }

  // ----- The steps, one by one, without the table -----

  lemma RegisterKeeps(h: Handler, g: History, pkts: seq<Packet>, bound: nat, h': Handler, g': History)
    requires Core(h, g, pkts, bound) && h.round && h.spc == Looping && h.i < |h.tobesent|
    requires h' == h.(hsent := h'.hsent, spc := Sending)
    requires g' == g.(outstanding := g.outstanding + [h.tobesent[h.i]], reg := g.reg + 1)
    ensures Core(h', g', pkts, bound)
  {
    RegisterConserves(h, g, pkts, h', g');
  }

  lemma RegisterConserves(h: Handler, g: History, pkts: seq<Packet>, h': Handler, g': History)
    requires g.reg == h.i < |h.tobesent| && Conserves(h, g, pkts) && h'.ans == h.ans && h'.tobesent == h.tobesent
    requires g'.outstanding == g.outstanding + [h.tobesent[h.i]] && g'.reg == g.reg + 1 && g'.lost == g.lost
    ensures Conserves(h', g', pkts)
  {
    var p, rest := h.tobesent[h.i], h.tobesent[h.i + 1..];
    assert h.tobesent[h.i..] == [p] + rest;
    assert multiset(h.tobesent[h.i..]) == multiset{p} + multiset(rest);
    Shift(multiset(Queries(h.ans)), multiset(g.outstanding), multiset{p}, multiset(rest), g.lost);
  }

  lemma Shift<T>(a: multiset<T>, b: multiset<T>, p: multiset<T>, c: multiset<T>, d: multiset<T>)
    ensures a + b + (p + c) + d == a + (b + p) + c + d
    ensures a + (p + b) + c + d == (a + p) + b + c + d
    ensures a + b + c + d == a + multiset{} + b + (d + c)
  {}

  lemma MatchKeeps(h: Handler, g: History, pkts: seq<Packet>, bound: nat, found: Packet, r: Packet, rest: seq<Packet>,
                   h': Handler, g': History)
    requires Core(h, g, pkts, bound) && h.round && h.rpc == Idle
    requires multiset(g.outstanding) == multiset{found} + multiset(rest) && |g.outstanding| == |rest| + 1
    requires h' == h.(hsent := h'.hsent, ans := h.ans + [QueryAnswer(found, r)], rpc := Matched)
    requires g' == g.(outstanding := rest, received := g.received + 1)
    ensures Core(h', g', pkts, bound)
  {
    QueriesAppend(h.ans, QueryAnswer(found, r));
    Shift(multiset(Queries(h.ans)), multiset(rest), multiset{found}, multiset(h.tobesent[g.reg..]), g.lost);
  }

  lemma MissKeeps(h: Handler, g: History, pkts: seq<Packet>, bound: nat, h': Handler, g': History)
    requires Core(h, g, pkts, bound) && h.round && h.rpc == Idle
    requires h' == h.(rpc := Missed) && g' == g.(received := g.received + 1)
    ensures Core(h', g', pkts, bound)
  {}

  /** The sender moves on without a new packet: past its loop, to the next packet, or towards its end. */
  lemma MoveKeeps(h: Handler, g: History, pkts: seq<Packet>, bound: nat, pc: SenderPc, h': Handler)
    requires Core(h, g, pkts, bound) && h.round && h' == h.(spc := pc)
    requires (h.spc == Looping && h.i == |h.tobesent| && pc == Finishing) || (h.spc == Sending && pc == Checking)
    ensures Core(h', g, pkts, bound)
  {}

  lemma NextKeeps(h: Handler, g: History, pkts: seq<Packet>, bound: nat, h': Handler)
    requires Core(h, g, pkts, bound) && h.round && h.spc == Checking && h' == h.(i := h.i + 1, spc := Looping)
    ensures Core(h', g, pkts, bound)
  {}

  lemma CutKeeps(h: Handler, g: History, pkts: seq<Packet>, bound: nat, h': Handler, g': History)
    requires Core(h, g, pkts, bound) && h.round && (h.spc == Sending || h.spc == Checking)
    requires h' == h.(spc := Finishing) && g' == g.(cut := true, firstCut := g.firstCut || !h.sendDone)
    ensures Core(h', g', pkts, bound)
  {}

  lemma PublishKeeps(h: Handler, g: History, pkts: seq<Packet>, bound: nat, n: nat, h': Handler)
    requires Core(h, g, pkts, bound) && h.round && h.spc == Finishing
    requires n == (if h.sendDone then h.notans else h.i) && h' == h.(notans := n, spc := Publishing)
    ensures Core(h', g, pkts, bound)
  {}

  lemma FinishKeeps(h: Handler, g: History, pkts: seq<Packet>, bound: nat, h': Handler)
    requires Core(h, g, pkts, bound) && h.round && h.spc == Publishing && h' == h.(sendDone := true, spc := Done)
    ensures Core(h', g, pkts, bound)
  {}

  lemma SenderKeeps(h: Handler, g: History, pkts: seq<Packet>, bound: nat, h': Handler, g': History)
    requires Core(h, g, pkts, bound) && h.round && h.spc != Done && !(h.spc == Looping && h.i < |h.tobesent|)
    requires h' == SenderNext(h) && g' == CutShort(g, h, h.spc == Checking && h.breakout)
    ensures Core(h', g', pkts, bound) && h'.hsent == h.hsent && g'.outstanding == g.outstanding
  {
    match h.spc
    case Looping => MoveKeeps(h, g, pkts, bound, Finishing, h');
    case Sending => MoveKeeps(h, g, pkts, bound, Checking, h');
    case Checking =>
      if h.breakout {
        CutKeeps(h, g, pkts, bound, h', g');
      } else {
        NextKeeps(h, g, pkts, bound, h');
      }
    case Finishing => PublishKeeps(h, g, pkts, bound, h'.notans, h');
    case Publishing => FinishKeeps(h, g, pkts, bound, h');
  }

  lemma CountMatched(h: Handler, g: History, pkts: seq<Packet>, bound: nat, h': Handler)
    requires Core(h, g, pkts, bound) && h.rpc == Matched && h' == h.(noans := h.noans + 1, rpc := Idle)
    ensures Core(h', g, pkts, bound)
  {}

  lemma CountMissed(h: Handler, g: History, pkts: seq<Packet>, bound: nat, h': Handler)
    requires Core(h, g, pkts, bound) && h.rpc == Missed && h' == h.(nbrecv := h.nbrecv + 1, rpc := Idle)
    ensures Core(h', g, pkts, bound)
  {}

  lemma BreakKeeps(h: Handler, g: History, pkts: seq<Packet>, bound: nat, h': Handler)
    requires Core(h, g, pkts, bound) && h' == h.(breakout := true)
    ensures Core(h', g, pkts, bound)
  {}

  lemma ChainSize(t: Table, sent: seq<Packet>)
    requires Represents(t, sent)
    ensures multiset(Chain(t)) == multiset(sent) && |Chain(t)| == |sent|
  {
    assert |multiset(Chain(t))| == |multiset(sent)|;
  }

  /** The end of a round with `remain` still unanswered. */
  lemma EndKeeps(h: Handler, g: History, pkts: seq<Packet>, bound: nat, remain: seq<Packet>, h': Handler, g': History)
    requires Core(h, g, pkts, bound) && h.round && h.spc == Done && h.rpc == Idle
    requires multiset(remain) == multiset(g.outstanding) && |remain| == |g.outstanding|
    requires var retry := if h.autostop != 0 && |remain| > 0 && |remain| != |h.tobesent| then h.autostop else h.retry;
             h' == h.(tobesent := remain, hsent := h'.hsent, breakout := false, spc := Looping, i := 0,
                      retry := if remain == [] then retry else retry - 1, round := remain != [] && retry > 0)
    requires g' == g.(outstanding := [], reg := 0, rounds := g.rounds + 1,
                      lost := g.lost + multiset(h.tobesent[g.reg..]))
    ensures Core(h', g', pkts, bound)
  {
    EndConserves(h, g, pkts, h', g');
    EndPublished(h, g, h', g', pkts);
    EndBounded(h, g, h', g', bound, remain);
    EndPositions(h, g, h', g');
  }

  lemma EndPublished(h: Handler, g: History, h': Handler, g': History, pkts: seq<Packet>)
    requires Published(h, g, pkts) && Positions(h, g) && h.spc == Done && h'.spc == Looping
    requires h'.sendDone == h.sendDone && h'.notans == h.notans
    requires g'.cut == g.cut && g'.firstCut == g.firstCut && g'.lost == g.lost + multiset(h.tobesent[g.reg..])
    ensures Published(h', g', pkts)
  {
    if !g.cut {
      assert h.tobesent[g.reg..] == [];
    }
  }

  lemma EndBounded(h: Handler, g: History, h': Handler, g': History, bound: nat, remain: seq<Packet>)
    requires Bounded(h, g, bound) && h.round && g'.rounds == g.rounds + 1 && |remain| <= |h.tobesent|
    requires h'.tobesent == remain && h'.autostop == h.autostop
    requires var retry := if h.autostop != 0 && |remain| > 0 && |remain| != |h.tobesent| then h.autostop else h.retry;
             h'.round == (remain != [] && retry > 0) && (h'.round ==> h'.retry == retry - 1)
    ensures Bounded(h', g', bound)
  {
    FewerRounds(|h.tobesent|, h.retry, h.autostop, |remain|);
  }

  lemma EndPositions(h: Handler, g: History, h': Handler, g': History)
    requires h'.spc == Looping && h'.i == 0 && h'.noans == h.noans && h'.nbrecv == h.nbrecv && h'.ans == h.ans
    requires h'.rpc == h.rpc && g'.outstanding == [] && g'.reg == 0 && g'.received == g.received && Counts(h, g)
    ensures Positions(h', g') && Counts(h', g')
  {}

  lemma EndConserves(h: Handler, g: History, pkts: seq<Packet>, h': Handler, g': History)
    requires g.reg <= |h.tobesent| && Conserves(h, g, pkts) && multiset(h'.tobesent) == multiset(g.outstanding)
    requires h'.ans == h.ans && g'.outstanding == [] && g'.reg == 0
    requires g'.lost == g.lost + multiset(h.tobesent[g.reg..])
    ensures Conserves(h', g', pkts)
  {
    var remain := h'.tobesent;
    assert remain[0..] == remain;
    Shift(multiset(Queries(h.ans)), multiset(remain), multiset{}, multiset(h.tobesent[g.reg..]), g.lost);
  }

  /** A turn of the retry loop uses up at least one of the rounds left. */
  lemma FewerRounds(n: nat, retry: nat, autostop: nat, remain: nat)
    requires remain <= n
    ensures var r := if autostop != 0 && remain > 0 && remain != n then autostop else retry;
            remain > 0 && r > 0 ==> RoundsLeft(remain, r - 1, autostop) < RoundsLeft(n, retry, autostop)
  {
    if 0 < remain < n {
      FewerRenewals(remain, n - 1, autostop);
    }
  }

  lemma {:induction false} FewerRenewals(m: nat, n: nat, autostop: nat)
    requires m <= n
    ensures Renewals(m, autostop) <= Renewals(n, autostop)
  {
    if m < n {
      FewerRenewals(m, n - 1, autostop);
    }
  }

  // ----- Every step -----

  lemma SameTable(h: Handler, g: History, h': Handler, g': History)
    requires Represents(h.hsent, g.outstanding) && h'.hsent == h.hsent && g'.outstanding == g.outstanding
    ensures Represents(h'.hsent, g'.outstanding)
  {}

  lemma SendKeeps(h: Handler, g: History, pkts: seq<Packet>, bound: nat, h': Handler, g': History)
    requires Inv(h, g, pkts, bound) && h.round && h.spc == Looping && h.i < |h.tobesent|
    requires h' == h.(hsent := Add(h.hsent, h.tobesent[h.i]), spc := Sending)
    requires g' == g.(outstanding := g.outstanding + [h.tobesent[h.i]], reg := g.reg + 1)
    ensures Inv(h', g', pkts, bound)
  {
    RegisterKeeps(h, g, pkts, bound, h', g');
    AddRepresents(h.hsent, g.outstanding, h.tobesent[h.i]);
  }

  lemma DeliverKeeps(h: Handler, g: History, pkts: seq<Packet>, bound: nat, r: Packet, answers: Answers,
                     h': Handler, g': History)
    requires Inv(h, g, pkts, bound) && h.round && h.rpc == Idle && h' == Match(h, r, answers)
    requires g' == g.(outstanding := Take(g.outstanding, r, answers, true).rest, received := g.received + 1)
    ensures Inv(h', g', pkts, bound)
  {
    var q := Take(g.outstanding, r, answers, true);
    PickRepresents(h.hsent, g.outstanding, r, answers);
    TakeConserves(g.outstanding, r, answers, true);
    if q.found.Some? {
      MatchKeeps(h, g, pkts, bound, q.found.value, r, q.rest, h', g');
    } else {
      MissKeeps(h, g, pkts, bound, h', g');
      SameTable(h, g, h', g');
    }
  }

  lemma RoundKeeps(h: Handler, g: History, pkts: seq<Packet>, bound: nat, h': Handler, g': History)
    requires Inv(h, g, pkts, bound) && h.round && h.spc == Done && h.rpc == Idle && h' == EndRound(h)
    requires g' == g.(outstanding := [], reg := 0, rounds := g.rounds + 1,
                      lost := g.lost + multiset(h.tobesent[g.reg..]))
    ensures Inv(h', g', pkts, bound)
  {
    assert Core(h', g', pkts, bound) by {
      ChainSize(h.hsent, g.outstanding);
      EndKeeps(h, g, pkts, bound, Chain(h.hsent), h', g');
    }
    EmptyTable(h', g');
  }

  lemma EmptyTable(h: Handler, g: History)
    requires h.hsent == [] && g.outstanding == []
    ensures Represents(h.hsent, g.outstanding)
  {}

  lemma SenderStepKeeps(h: Handler, g: History, pkts: seq<Packet>, bound: nat, answers: Answers)
    requires Inv(h, g, pkts, bound) && Enabled(h, SenderStep)
    ensures Inv(Next(h, SenderStep, answers), Record(g, h, SenderStep, answers), pkts, bound)
  {
    var h', g' := Next(h, SenderStep, answers), Record(g, h, SenderStep, answers);
    if h.spc == Looping && h.i < |h.tobesent| {
      SendKeeps(h, g, pkts, bound, h', g');
    } else {
      SenderKeeps(h, g, pkts, bound, h', g');
      SameTable(h, g, h', g');
    }
  }

  lemma OtherStepKeeps(h: Handler, g: History, pkts: seq<Packet>, bound: nat, e: Event, answers: Answers)
    requires Inv(h, g, pkts, bound) && Enabled(h, e) && (e == SendError || e == Tally || e == SnifferEnds)
    ensures Inv(Next(h, e, answers), Record(g, h, e, answers), pkts, bound)
  {
    var h', g' := Next(h, e, answers), Record(g, h, e, answers);
    if e == SendError {
      CutKeeps(h, g, pkts, bound, h', g');
    } else if e == SnifferEnds {
      BreakKeeps(h, g, pkts, bound, h');
    } else if h.rpc == Matched {
      CountMatched(h, g, pkts, bound, h');
    } else {
      CountMissed(h, g, pkts, bound, h');
    }
    SameTable(h, g, h', g');
  }

  /** What a delivery does, and what it adds to the history. */
  lemma DeliverIs(h: Handler, g: History, r: Packet, answers: Answers)
    requires Enabled(h, Deliver(r))
    ensures h.round && h.rpc == Idle && Next(h, Deliver(r), answers) == Match(h, r, answers)
    ensures Record(g, h, Deliver(r), answers)
         == g.(outstanding := Take(g.outstanding, r, answers, true).rest, received := g.received + 1)
  {}

  /** What the end of a round does, and what it adds to the history. */
  lemma RoundEndIs(h: Handler, g: History, answers: Answers)
    requires Enabled(h, RoundEnds) && g.reg <= |h.tobesent|
    ensures h.round && h.spc == Done && h.rpc == Idle && Next(h, RoundEnds, answers) == EndRound(h)
    ensures Record(g, h, RoundEnds, answers)
         == g.(outstanding := [], reg := 0, rounds := g.rounds + 1, lost := g.lost + multiset(h.tobesent[g.reg..]))
  {}

  lemma NotEnabled(h: Handler, g: History, e: Event, answers: Answers)
    requires !Enabled(h, e)
    ensures Next(h, e, answers) == h && Record(g, h, e, answers) == g
  {}

  lemma StepKeeps(h: Handler, g: History, pkts: seq<Packet>, bound: nat, e: Event, answers: Answers)
    requires Inv(h, g, pkts, bound)
    ensures Inv(Next(h, e, answers), Record(g, h, e, answers), pkts, bound)
  {
    if !Enabled(h, e) {
      NotEnabled(h, g, e, answers);
    } else {
      var h', g' := Next(h, e, answers), Record(g, h, e, answers);
      match e
      case SenderStep => SenderStepKeeps(h, g, pkts, bound, answers);
      case Deliver(r) =>
        DeliverIs(h, g, r, answers);
        DeliverKeeps(h, g, pkts, bound, r, answers, h', g');
      case RoundEnds =>
        RoundEndIs(h, g, answers);
        RoundKeeps(h, g, pkts, bound, h', g');
      case _ => OtherStepKeeps(h, g, pkts, bound, e, answers);
    }
  }

  lemma {:induction false} RunKeeps(pkts: seq<Packet>, retry: int, es: seq<Event>, answers: Answers)
    ensures var h := Start(pkts, retry);
            Inv(Run(h, es, answers), Recorded(h, es, answers), pkts, RoundsLeft(|pkts|, h.retry, h.autostop))
  {
    if es == [] {
      StartInv(pkts, retry);
    } else {
      var h, init := Start(pkts, retry), es[..|es| - 1];
      RunKeeps(pkts, retry, init, answers);
      StepKeeps(Run(h, init, answers), Recorded(h, init, answers), pkts,
                RoundsLeft(|pkts|, h.retry, h.autostop), es[|es| - 1], answers);
    }
  }

  lemma {:induction false} RunPairs(pkts: seq<Packet>, retry: int, es: seq<Event>, answers: Answers)
    ensures Paired(Run(Start(pkts, retry), es, answers), answers)
  {
    if es != [] {
      var init := es[..|es| - 1];
      RunPairs(pkts, retry, init, answers);
      var h, e := Run(Start(pkts, retry), init, answers), es[|es| - 1];
      if Enabled(h, e) && e.Deliver? {
        TakeConserves(Lookup(h.hsent, e.r.hashret), e.r, answers, false);
      }
    }
  }

  // ----- What holds at every moment of every run -----

  /** The packets no answer has been recorded for. */
  ghost function Unanswered(h: Handler, g: History): multiset<Packet> {
    multiset(g.outstanding) + multiset(if g.reg <= |h.tobesent| then h.tobesent[g.reg..] else [])
  }

  /**
   * Every packet is answered once, unanswered or lost, and nothing is lost unless
   * a round was cut short; the counters agree with what was received.
   */
  lemma {:induction false} EveryRunConserves(pkts: seq<Packet>, retry: int, es: seq<Event>, answers: Answers)
    ensures var s := Start(pkts, retry);
            var h, g := Run(s, es, answers), Recorded(s, es, answers);
            && multiset(pkts) == multiset(Queries(h.ans)) + Unanswered(h, g) + g.lost
            && (!g.cut ==> g.lost == multiset{})
            && (forall qa :: qa in h.ans ==> answers(qa.answer, qa.query))
            && (h.rpc == Idle ==> h.noans == |h.ans| && h.nbrecv + |h.ans| == g.received)
  {
    var s := Start(pkts, retry);
    RunKeeps(pkts, retry, es, answers);
    RunPairs(pkts, retry, es, answers);
    var h, g := Run(s, es, answers), Recorded(s, es, answers);
    Grouped(multiset(Queries(h.ans)), multiset(g.outstanding), multiset(h.tobesent[g.reg..]));
  }

  lemma Grouped<T>(a: multiset<T>, b: multiset<T>, c: multiset<T>)
    ensures a + b + c == a + (b + c)
  {}

  /** No packet is unanswered, and no answer uncounted. */
  ghost predicate AllDone(h: Handler, g: History) {
    Unanswered(h, g) == multiset{} && h.rpc != Matched
  }

  /** Is this the step that ends the sending of one packet of the first round, no breakout being seen? */
  predicate SendsOne(h: Handler, e: Event) {
    e == SenderStep && Enabled(h, e) && h.spc == Checking && !h.breakout && !h.sendDone
  }

  /** How many packets of the first round were sent, up to the test for a breakout behind each. */
  function SentInFirst(s: Handler, es: seq<Event>, answers: Answers): nat {
    if es == [] then 0
    else
      var init := es[..|es| - 1];
      SentInFirst(s, init, answers) + if SendsOne(Run(s, init, answers), es[|es| - 1]) then 1 else 0
  }

  predicate FirstCounted(h: Handler, n: nat) {
    && (h.spc == Done ==> h.sendDone)
    && (!h.sendDone ==> h.i == n)
    && (h.sendDone || h.spc == Publishing ==> h.notans == n)
  }

  lemma CountsSent(h: Handler, n: nat, e: Event, answers: Answers)
    requires FirstCounted(h, n)
    ensures FirstCounted(Next(h, e, answers), n + if SendsOne(h, e) then 1 else 0)
  {}

  /** What is published is the number of packets of the first round that were sent, however that round ended. */
  lemma {:induction false} NotansCountsSent(s: Handler, es: seq<Event>, answers: Answers)
    requires s.i == 0 && !s.sendDone && s.spc == Looping
    ensures FirstCounted(Run(s, es, answers), SentInFirst(s, es, answers))
    ensures Run(s, es, answers).sendDone ==> Run(s, es, answers).notans == SentInFirst(s, es, answers)
  {
    if es != [] {
      var init := es[..|es| - 1];
      NotansCountsSent(s, init, answers);
      CountsSent(Run(s, init, answers), SentInFirst(s, init, answers), es[|es| - 1], answers);
    }
  }

  /**
   * When the sniffer is stopped too early, and when it is not stopped although everything is
   * answered, in every run. If the first round was not cut short, it is never stopped too early:
   * it is stopped exactly when everything is answered and no later round lost a packet.
   */
  lemma {:induction false} StopsExactly(pkts: seq<Packet>, retry: int, es: seq<Event>, answers: Answers)
    ensures var s := Start(pkts, retry);
            var h, g := Run(s, es, answers), Recorded(s, es, answers);
            var sent := SentInFirst(s, es, answers);
            h.sendDone ==>
              && (StopsSniffer(h) <==> h.noans >= sent)
              && (StopsSniffer(h) && !AllDone(h, g) <==> sent <= h.noans < |pkts| - |g.lost|)
              && (!StopsSniffer(h) && AllDone(h, g) <==> h.noans == |pkts| - |g.lost| < sent)
              && (!g.firstCut ==> sent == |pkts| && (StopsSniffer(h) <==> AllDone(h, g) && g.lost == multiset{}))
  {
    var s := Start(pkts, retry);
    NotansCountsSent(s, es, answers);
    StopsBy(pkts, retry, es, answers);
  }

  lemma {:induction false} StopsBy(pkts: seq<Packet>, retry: int, es: seq<Event>, answers: Answers)
    ensures var s := Start(pkts, retry);
            var h, g := Run(s, es, answers), Recorded(s, es, answers);
            h.sendDone ==>
              && (StopsSniffer(h) && !AllDone(h, g) <==> h.notans <= h.noans < |pkts| - |g.lost|)
              && (!StopsSniffer(h) && AllDone(h, g) <==> h.noans == |pkts| - |g.lost| < h.notans)
              && (!g.firstCut ==>
                    h.notans == |pkts| && (StopsSniffer(h) <==> AllDone(h, g) && g.lost == multiset{}))
  {
    var s := Start(pkts, retry);
    EveryRunConserves(pkts, retry, es, answers);
    RunKeeps(pkts, retry, es, answers);
    var h, g := Run(s, es, answers), Recorded(s, es, answers);
    QueriesLength(h.ans);
    Sizes(multiset(pkts), multiset(Queries(h.ans)), Unanswered(h, g), g.lost);
    assert |multiset(pkts)| == |pkts| && |multiset(Queries(h.ans))| == |h.ans|;
  }

  lemma Sizes<T>(a: multiset<T>, b: multiset<T>, c: multiset<T>, d: multiset<T>)
    requires a == b + c + d
    ensures |a| == |b| + |c| + |d|
  {}

  lemma {:induction false} RunStep(s: Handler, es: seq<Event>, e: Event, answers: Answers)
    ensures Run(s, es + [e], answers) == Next(Run(s, es, answers), e, answers)
  {
    assert (es + [e])[..|es|] == es;
  }

  /**
   * A first round cut short does: the count it publishes leaves out its last
   * packet, so the next round is told to stop while that packet, sent again,
   * awaits its answer.
   */
  lemma {:induction false} CutRoundStopsNextRound(p: Packet, answers: Answers)
    ensures exists es :: var h := Run(Start([p], 1), es, answers);
                         h.round && h.spc == Checking && h.hsent == [Bucket(p.hashret, [p])] && StopsSniffer(h)
  {
    var s := Start([p], 1);
    var es := CutRound(p, answers);
    RunStep(s, es, SenderStep, answers);
    es := es + [SenderStep];
    RunStep(s, es, SenderStep, answers);
    es := es + [SenderStep];
    assert Run(s, es, answers) == s.(sendDone := true, retry := 0, hsent := [Bucket(p.hashret, [p])], spc := Checking);
  }

  lemma {:induction false} CutRound(p: Packet, answers: Answers) returns (es: seq<Event>)
    ensures Run(Start([p], 1), es, answers) == Start([p], 1).(sendDone := true, retry := 0)
  {
    var s, t := Start([p], 1), [Bucket(p.hashret, [p])];
    es := CutSending(p, answers);
    RunStep(s, es, SenderStep, answers);
    es := es + [SenderStep];
    RunStep(s, es, SenderStep, answers);
    es := es + [SenderStep];
    assert Run(s, es, answers) == s.(breakout := true, hsent := t, sendDone := true, spc := Done);
    assert Chain(t) == [p];
    RunStep(s, es, RoundEnds, answers);
    es := es + [RoundEnds];
  }

  lemma {:induction false} CutSending(p: Packet, answers: Answers) returns (es: seq<Event>)
    ensures Run(Start([p], 1), es, answers)
         == Start([p], 1).(breakout := true, hsent := [Bucket(p.hashret, [p])], spc := Finishing)
  {
    var s, t := Start([p], 1), [Bucket(p.hashret, [p])];
    es := [];
    RunStep(s, es, SnifferEnds, answers);
    es := es + [SnifferEnds];
    RunStep(s, es, SenderStep, answers);
    es := es + [SenderStep];
    assert Run(s, es, answers) == s.(breakout := true, hsent := t, spc := Sending);
    RunStep(s, es, SenderStep, answers);
    es := es + [SenderStep];
    RunStep(s, es, SenderStep, answers);
    es := es + [SenderStep];
  }

  // ----- The table and the retry loop over whole runs -----

  /** In every run a packet is matched with the first outstanding query it answers, in send order. */
  lemma {:induction false} EveryRunPicksFirstSent(pkts: seq<Packet>, retry: int, es: seq<Event>, r: Packet,
                                                  answers: Answers)
    requires forall q :: answers(r, q) ==> q.hashret == r.hashret
    ensures var s := Start(pkts, retry);
            var h, g := Run(s, es, answers), Recorded(s, es, answers);
            h.round && h.rpc == Idle && !h.breakout ==>
              var h', scan := Next(h, Deliver(r), answers), Take(g.outstanding, r, answers, false);
              h'.ans == if scan.found.Some? then h.ans + [QueryAnswer(scan.found.value, r)] else h.ans
  {
    var s := Start(pkts, retry);
    RunKeeps(pkts, retry, es, answers);
    PickIsScan(Run(s, es, answers).hsent, Recorded(s, es, answers).outstanding, r, answers);
  }

  /** While the loop is on, the sender can go on, or the packet in hand be counted, or the round end. */
  lemma {:induction false} NeverStuck(pkts: seq<Packet>, retry: int, es: seq<Event>, answers: Answers)
    ensures var h := Run(Start(pkts, retry), es, answers);
            h.round ==>
              && (h.spc != Done ==> Next(h, SenderStep, answers).spc != h.spc)
              && (h.rpc != Idle ==> Next(h, Tally, answers).rpc == Idle)
              && (h.spc == Done && h.rpc == Idle ==>
                    var s := Start(pkts, retry);
                    Recorded(s, es + [RoundEnds], answers).rounds == Recorded(s, es, answers).rounds + 1)
  {
    assert (es + [RoundEnds])[..|es|] == es;
  }

  /**
   * The retry loop ends: at most retry + 1 rounds, or |retry| rounds for each
   * packet and one more when a negative retry is renewed by progress.
   */
  lemma {:induction false} EveryRunIsBounded(pkts: seq<Packet>, retry: int, es: seq<Event>, answers: Answers)
    ensures Recorded(Start(pkts, retry), es, answers).rounds
         <= if retry >= 0 then retry + 1 else if pkts == [] then 1 - retry else -retry * |pkts| + 1
  {
    var s := Start(pkts, retry);
    RunKeeps(pkts, retry, es, answers);
    StartBound(|pkts|, retry, s.retry, s.autostop);
  }

  lemma {:induction false} StartBound(n: nat, retry: int, r: nat, autostop: nat)
    requires if retry < 0 then r == autostop == -retry else r == retry && autostop == 0
    ensures RoundsLeft(n, r, autostop)
         <= if retry >= 0 then retry + 1 else if n == 0 then 1 - retry else -retry * n + 1
  {
    if n > 1 {
      StartBound(n - 1, retry, r, autostop);
      assert retry < 0 ==> -retry * n == -retry * (n - 1) + autostop;
    }
  }

  /** When the loop is left, every packet is answered or reported unanswered exactly when none was lost. */
  lemma {:induction false} ResultsAreComplete(pkts: seq<Packet>, retry: int, es: seq<Event>, answers: Answers)
    ensures var s := Start(pkts, retry);
            var h, g := Run(s, es, answers), Recorded(s, es, answers);
            !h.round ==>
              (multiset(pkts) == multiset(Queries(h.ans)) + multiset(h.tobesent) <==> g.lost == multiset{})
  {
    EveryRunConserves(pkts, retry, es, answers);
    RunKeeps(pkts, retry, es, answers);
    var s := Start(pkts, retry);
    var h, g := Run(s, es, answers), Recorded(s, es, answers);
    if !h.round {
      assert h.tobesent[0..] == h.tobesent;
      Remainder(multiset(pkts), multiset(Queries(h.ans)), multiset(h.tobesent), g.lost);
    }
  }

  lemma Remainder<T>(a: multiset<T>, b: multiset<T>, c: multiset<T>, d: multiset<T>)
    requires a == b + (multiset{} + c) + d
    ensures a == b + c <==> d == multiset{}
  {
    assert |a| == |b + c| + |d|;
  }
}
