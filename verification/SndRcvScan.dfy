/**
 * `_process_packet` in small steps: it looks at the entries of a bucket one by one, appends the
 * answer, and then deletes the entry, while the sender goes on appending. Whatever the
 * interleaving, the effect is that of the one step `Match` at the moment the search ends.
 */
module SndRcvScan {
  import opened Bytes
  import opened SentTable
  import opened SndRcv

  /** Where the search for the query of r is: to look at entry k next, or entry k found and not deleted. */
  datatype ScanPc = NoScan | Scanning(r: Packet, k: nat) | Found(r: Packet, k: nat)

  datatype Fine = Fine(h: Handler, at: ScanPc)

  datatype FineEvent =
    | Begin(r: Packet)   // the packet is handed over; is its hash in the table?
    | Look               // the next entry of the bucket, or its end
    | Delete             // the entry found
    | Other(e: Event)    // a step of the sender, the sniffer or the retry loop, or the counting

  function BucketOf(h: Handler, r: Packet): seq<Packet> {
    Lookup(h.hsent, r.hashret)
  }

  /** During the search only the sender moves: sniffer and retry loop wait for the receiver. */
  predicate FineEnabled(f: Fine, e: FineEvent) {
    match e
    case Begin(r) => f.at.NoScan? && Enabled(f.h, Deliver(r))
    case Look => f.at.Scanning?
    case Delete => f.at.Found? && f.at.k < |BucketOf(f.h, f.at.r)|
    case Other(e) => !e.Deliver? && Enabled(f.h, e) && (f.at.NoScan? || e == SenderStep || e == SendError)
  }

  function LookNext(h: Handler, r: Packet, k: nat, answers: Answers): Fine {
    var hlst := BucketOf(h, r);
    if k >= |hlst| then Fine(h.(rpc := Missed), NoScan)
    else if answers(r, hlst[k]) then Fine(h.(ans := h.ans + [QueryAnswer(hlst[k], r)]), Found(r, k))
    else Fine(h, Scanning(r, k + 1))
  }

  function FineNext(f: Fine, e: FineEvent, answers: Answers): Fine {
    if !FineEnabled(f, e) then f
    else
      match e
      case Begin(r) =>
        if HasKey(f.h.hsent, r.hashret) then Fine(f.h, Scanning(r, 0)) else Fine(f.h.(rpc := Missed), NoScan)
      case Look => LookNext(f.h, f.at.r, f.at.k, answers)
      case Delete =>
        var hlst, k := BucketOf(f.h, f.at.r), f.at.k;
        Fine(f.h.(hsent := Store(f.h.hsent, f.at.r.hashret, hlst[..k] + hlst[k + 1..]), rpc := Matched), NoScan)
      case Other(e) => Fine(Next(f.h, e, answers), f.at)
  }

  function FineRun(h: Handler, es: seq<FineEvent>, answers: Answers): Fine {
    if es == [] then Fine(h, NoScan) else FineNext(FineRun(h, es[..|es| - 1], answers), es[|es| - 1], answers)
  }

  // ----- The one step each search stands for -----

  /** The state with the answer not recorded before its query is deleted. */
  function Abs(f: Fine): Handler {
    if f.at.Found? && f.h.ans != [] then f.h.(ans := f.h.ans[..|f.h.ans| - 1]) else f.h
  }

  /** The packet is delivered when its search ends; the other small steps of a search are none. */
  function Coarse(f: Fine, e: FineEvent): seq<Event> {
    if !FineEnabled(f, e) then []
    else
      match e
      case Begin(r) => if HasKey(f.h.hsent, r.hashret) then [] else [Deliver(r)]
      case Look => if f.at.k >= |BucketOf(f.h, f.at.r)| then [Deliver(f.at.r)] else []
      case Delete => [Deliver(f.at.r)]
      case Other(e) => [e]
  }

  function CoarseRun(h: Handler, es: seq<FineEvent>, answers: Answers): seq<Event> {
    if es == [] then []
    else
      var init := es[..|es| - 1];
      CoarseRun(h, init, answers) + Coarse(FineRun(h, init, answers), es[|es| - 1])
  }

  /** None of the entries before k is answered, however many were appended behind them. */
  ghost predicate Searching(h: Handler, r: Packet, k: nat, answers: Answers) {
    && Enabled(h, Deliver(r)) && HasKey(h.hsent, r.hashret)
    && k <= |BucketOf(h, r)|
    && forall j :: 0 <= j < k ==> !answers(r, BucketOf(h, r)[j])
  }

  ghost predicate ScanInv(f: Fine, answers: Answers) {
    match f.at
    case NoScan => true
    case Scanning(r, k) => Searching(f.h, r, k, answers)
    case Found(r, k) =>
      && Searching(f.h, r, k, answers) && k < |BucketOf(f.h, r)| && answers(r, BucketOf(f.h, r)[k])
      && f.h.ans != [] && f.h.ans[|f.h.ans| - 1] == QueryAnswer(BucketOf(f.h, r)[k], r)
  }

  /** What the search of a list finds, told from its first entries. */
  lemma {:induction false} TakeAt(sent: seq<Packet>, r: Packet, answers: Answers, k: nat)
    requires k <= |sent| && forall j :: 0 <= j < k ==> !answers(r, sent[j])
    ensures k == |sent| ==> Take(sent, r, answers, false).found == None
    ensures k < |sent| && answers(r, sent[k]) ==>
              Take(sent, r, answers, false) == Pick(Some(sent[k]), sent[..k] + sent[k + 1..])
  {
    if k > 0 {
      TakeAt(sent[1..], r, answers, k - 1);
      if k < |sent| {
        assert [sent[0]] + (sent[1..][..k - 1] + sent[1..][k..]) == sent[..k] + sent[k + 1..];
      }
    }
  }

  lemma RunOne(h: Handler, e: Event, answers: Answers)
    ensures Run(h, [e], answers) == Next(h, e, answers)
  {
    assert [e][..0] == [];
    assert Run(h, [], answers) == h;
  }

  lemma {:induction false} RunAppend(h: Handler, es: seq<Event>, more: seq<Event>, answers: Answers)
    requires |more| <= 1
    ensures Run(h, es + more, answers) == Run(Run(h, es, answers), more, answers)
  {
    if more == [] {
      assert es + more == es;
    } else {
      assert more == [more[0]];
      RunStep(h, es, more[0], answers);
      RunOne(Run(h, es, answers), more[0], answers);
    }
  }

  /** A step of the sender appends to a bucket, and does not mind an answer not yet recorded. */
  lemma {:induction false} SenderMeanwhile(h: Handler, e: Event, r: Packet, k: nat, answers: Answers,
                                           ans: seq<QueryAnswer>)
    requires (e == SenderStep || e == SendError) && Enabled(h, e) && Searching(h, r, k, answers)
    ensures var h' := Next(h, e, answers);
            && Searching(h', r, k, answers) && h'.ans == h.ans
            && |BucketOf(h, r)| <= |BucketOf(h', r)|
            && (forall j :: 0 <= j < |BucketOf(h, r)| ==> BucketOf(h', r)[j] == BucketOf(h, r)[j])
            && Next(h.(ans := ans), e, answers) == h'.(ans := ans)
  {
    if e == SenderStep && h.spc == Looping && h.i < |h.tobesent| {
      AddLookup(h.hsent, h.tobesent[h.i], r.hashret);
    }
  }

  /** When the search ends without an answer, or with the entry deleted, it has done what `Match` does. */
  lemma {:induction false} SearchEnds(h: Handler, r: Packet, k: nat, answers: Answers)
    requires Searching(h, r, k, answers)
    ensures k == |BucketOf(h, r)| ==> Match(h, r, answers) == h.(rpc := Missed)
    ensures k < |BucketOf(h, r)| && answers(r, BucketOf(h, r)[k]) ==>
              var hlst := BucketOf(h, r);
              Match(h, r, answers) == h.(ans := h.ans + [QueryAnswer(hlst[k], r)],
                                         hsent := Store(h.hsent, r.hashret, hlst[..k] + hlst[k + 1..]), rpc := Matched)
  {
    TakeAt(BucketOf(h, r), r, answers, k);
  }

  lemma {:induction false} BeginRefines(f: Fine, r: Packet, answers: Answers)
    requires FineEnabled(f, Begin(r))
    ensures ScanInv(FineNext(f, Begin(r), answers), answers)
    ensures Run(Abs(f), Coarse(f, Begin(r)), answers) == Abs(FineNext(f, Begin(r), answers))
  {
    if !HasKey(f.h.hsent, r.hashret) {
      RunOne(f.h, Deliver(r), answers);
      LookupAbsent(f.h.hsent, r.hashret);
    }
  }

  lemma {:induction false} LookRefines(f: Fine, answers: Answers)
    requires FineEnabled(f, Look) && ScanInv(f, answers)
    ensures ScanInv(FineNext(f, Look, answers), answers)
    ensures Run(Abs(f), Coarse(f, Look), answers) == Abs(FineNext(f, Look, answers))
  {
    var h, r, k := f.h, f.at.r, f.at.k;
    if k == |BucketOf(h, r)| {
      SearchEnds(h, r, k, answers);
      RunOne(h, Deliver(r), answers);
    } else if answers(r, BucketOf(h, r)[k]) {
      assert (h.ans + [QueryAnswer(BucketOf(h, r)[k], r)])[..|h.ans|] == h.ans;
    }
  }

  lemma {:induction false} DeleteRefines(f: Fine, answers: Answers)
    requires FineEnabled(f, Delete) && ScanInv(f, answers)
    ensures Run(Abs(f), Coarse(f, Delete), answers) == Abs(FineNext(f, Delete, answers))
  {
    var a, r, n := Abs(f), f.at.r, |f.h.ans| - 1;
    assert f.h.ans == a.ans + [f.h.ans[n]];
    SearchEnds(a, r, f.at.k, answers);
    RunOne(a, Deliver(r), answers);
  }

  lemma {:induction false} OtherRefines(f: Fine, e: Event, answers: Answers)
    requires FineEnabled(f, Other(e)) && ScanInv(f, answers)
    ensures ScanInv(FineNext(f, Other(e), answers), answers)
    ensures Run(Abs(f), Coarse(f, Other(e)), answers) == Abs(FineNext(f, Other(e), answers))
  {
    RunOne(Abs(f), e, answers);
    if !f.at.NoScan? {
      SenderMeanwhile(f.h, e, f.at.r, f.at.k, answers, Abs(f).ans);
    }
  }

  lemma {:induction false} StepRefines(f: Fine, e: FineEvent, answers: Answers)
    requires ScanInv(f, answers)
    ensures ScanInv(FineNext(f, e, answers), answers)
    ensures Run(Abs(f), Coarse(f, e), answers) == Abs(FineNext(f, e, answers))
  {
    if FineEnabled(f, e) {
      match e
      case Begin(r) => BeginRefines(f, r, answers);
      case Look => LookRefines(f, answers);
      case Delete => DeleteRefines(f, answers);
      case Other(e) => OtherRefines(f, e, answers);
    }
  }

  /** Every run in small steps is a run of the atomic ones. */
  lemma {:induction false} EveryRunRefines(h: Handler, es: seq<FineEvent>, answers: Answers)
    ensures ScanInv(FineRun(h, es, answers), answers)
    ensures Run(h, CoarseRun(h, es, answers), answers) == Abs(FineRun(h, es, answers))
  {
    if es != [] {
      var init, e := es[..|es| - 1], es[|es| - 1];
      var f := FineRun(h, init, answers);
      EveryRunRefines(h, init, answers);
      StepRefines(f, e, answers);
      RunAppend(h, CoarseRun(h, init, answers), Coarse(f, e), answers);
    }
  }

  // ----- What that means for the packets -----

  /** The query in hand: its answer is recorded, and it is still in its bucket. */
  function InHand(f: Fine): multiset<Packet> {
    if f.at.Found? && f.h.ans != [] then multiset{f.h.ans[|f.h.ans| - 1].query} else multiset{}
  }

  /**
   * At every moment, every packet is answered, unanswered or lost, but for the one in hand, which is
   * both answered and in its bucket; every pair is an answer.
   */
  lemma {:induction false} EveryScanConserves(pkts: seq<Packet>, retry: int, es: seq<FineEvent>, answers: Answers)
    ensures var s := Start(pkts, retry);
            var f, g := FineRun(s, es, answers), Recorded(s, CoarseRun(s, es, answers), answers);
            && multiset(pkts) + InHand(f) == multiset(Queries(f.h.ans)) + Unanswered(f.h, g) + g.lost
            && (forall qa :: qa in f.h.ans ==> answers(qa.answer, qa.query))
            && (f.at.NoScan? && f.h.rpc == Idle ==> f.h.noans == |f.h.ans|)
  {
    var s := Start(pkts, retry);
    var coarse, f := CoarseRun(s, es, answers), FineRun(s, es, answers);
    EveryRunRefines(s, es, answers);
    EveryRunConserves(pkts, retry, coarse, answers);
    if f.at.Found? {
      HandConserves(f, answers, pkts, Unanswered(f.h, Recorded(s, coarse, answers)), Recorded(s, coarse, answers).lost);
    }
  }

  lemma HandConserves(f: Fine, answers: Answers, pkts: seq<Packet>, u: multiset<Packet>, lost: multiset<Packet>)
    requires f.at.Found? && ScanInv(f, answers)
    requires multiset(pkts) == multiset(Queries(Abs(f).ans)) + u + lost
    requires forall qa :: qa in Abs(f).ans ==> answers(qa.answer, qa.query)
    ensures multiset(pkts) + InHand(f) == multiset(Queries(f.h.ans)) + u + lost
    ensures forall qa :: qa in f.h.ans ==> answers(qa.answer, qa.query)
  {
    var ans, qa := Abs(f).ans, f.h.ans[|f.h.ans| - 1];
    assert f.h.ans == ans + [qa];
    QueriesAppend(ans, qa);
    OneInHand(multiset(Queries(ans)), u, lost, multiset{qa.query});
  }

  lemma OneInHand<T>(a: multiset<T>, b: multiset<T>, c: multiset<T>, x: multiset<T>)
    ensures a + b + c + x == (a + x) + b + c
  {}
}
