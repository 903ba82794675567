/** `PacketList.sr`: queries and answers paired up in a list, by deleting from it while scanning it. */
module PacketListSr {
  import opened Bytes
  import opened SentTable

  /** The positions of a query and its answer. */
  datatype Couple = Couple(query: nat, answer: nat)

  datatype Matched = Matched(couples: seq<Couple>, rest: seq<nat>)

  /** Positions of packets of res, in order. */
  predicate Ascending(res: seq<Packet>, ps: seq<nat>) {
    (forall i :: 0 <= i < |ps| ==> ps[i] < |res|) && (forall i, j :: 0 <= i < j < |ps| ==> ps[i] < ps[j])
  }

  function Without(ps: seq<nat>, i: nat): seq<nat>
    requires i < |ps|
  {
    ps[..i] + ps[i + 1..]
  }

  /** The first index after j, up to last, whose packet answers the query; |ps| if there is none. */
  function FirstAnswer(res: seq<Packet>, ps: seq<nat>, i: nat, j: nat, last: int, answers: Answers): (k: nat)
    requires Ascending(res, ps) && i < |ps| && j < |ps| && last < |ps|
    ensures k == |ps| || (j < k <= last && answers(res[ps[k]], res[ps[i]]))
    ensures forall m :: j < m <= last && m < k ==> !answers(res[ps[m]], res[ps[i]])
    decreases |ps| - j
  {
    if j >= last then |ps|
    else if answers(res[ps[j + 1]], res[ps[i]]) then j + 1
    else FirstAnswer(res, ps, i, j + 1, last, answers)
  }

  function Last(n: nat, i: nat, lookahead: int): int {
    if lookahead + i < n - 1 then lookahead + i else n - 1
  }

  lemma WithoutAscending(res: seq<Packet>, ps: seq<nat>, i: nat)
    requires Ascending(res, ps) && i < |ps|
    ensures Ascending(res, Without(ps, i))
  {}

  /** Each query in turn takes the first packet after it, within the lookahead, that answers it. */
  function Match(res: seq<Packet>, ps: seq<nat>, i: nat, lookahead: int, answers: Answers): Matched
    requires Ascending(res, ps)
    decreases if i <= |ps| then |ps| - i else 0
  {
    if i >= |ps| then Matched([], ps)
    else
      var k := FirstAnswer(res, ps, i, i, Last(|ps|, i, lookahead), answers);
      if k == |ps| then Match(res, ps, i + 1, lookahead, answers)
      else
        WithoutAscending(res, ps, k);
        WithoutAscending(res, Without(ps, k), i);
        var m := Match(res, Without(Without(ps, k), i), i, lookahead, answers);
        Matched([Couple(ps[i], ps[k])] + m.couples, m.rest)
  }

  function All(n: nat): (ps: seq<nat>)
    ensures |ps| == n && forall i :: 0 <= i < n ==> ps[i] == i
  {
    seq(n, i => i)
  }

  /** The packets at these positions. */
  function At(res: seq<Packet>, ps: seq<nat>): (r: seq<Packet>)
    requires forall i :: 0 <= i < |ps| ==> ps[i] < |res|
    ensures |r| == |ps| && forall i :: 0 <= i < |ps| ==> r[i] == res[ps[i]]
  {
    seq(|ps|, i requires 0 <= i < |ps| => res[ps[i]])
  }

  function Pairs(res: seq<Packet>, cs: seq<Couple>): (qas: seq<QueryAnswer>)
    requires forall c :: c in cs ==> c.query < |res| && c.answer < |res|
    ensures |qas| == |cs|
  {
    if cs == [] then [] else [QueryAnswer(res[cs[0].query], res[cs[0].answer])] + Pairs(res, cs[1..])
  }

  lemma {:induction false} PairsAppend(res: seq<Packet>, cs: seq<Couple>, c: Couple)
    requires forall d :: d in cs ==> d.query < |res| && d.answer < |res|
    requires c.query < |res| && c.answer < |res|
    ensures Pairs(res, cs + [c]) == Pairs(res, cs) + [QueryAnswer(res[c.query], res[c.answer])]
  {
    if cs == [] {
      assert cs + [c] == [c];
    } else {
      PairsAppend(res, cs[1..], c);
      assert (cs + [c])[1..] == cs[1..] + [c];
    }
  }

  /** What a run of matching guarantees. */
  ghost predicate Sound(res: seq<Packet>, m: Matched, ps: seq<nat>, answers: Answers) {
    && Ascending(res, m.rest)
    && (forall c :: c in m.couples ==> c.query < c.answer < |res| && answers(res[c.answer], res[c.query]))
    && multiset(ps) == multiset(m.rest) + Used(m.couples)
  }

  function Used(cs: seq<Couple>): multiset<nat> {
    if cs == [] then multiset{} else multiset{cs[0].query, cs[0].answer} + Used(cs[1..])
  }

  lemma {:induction false} WithoutConserves(ps: seq<nat>, i: nat)
    requires i < |ps|
    ensures multiset(ps) == multiset(Without(ps, i)) + multiset{ps[i]}
  {
    assert ps == ps[..i] + [ps[i]] + ps[i + 1..];
  }

  lemma {:induction false} MatchSound(res: seq<Packet>, ps: seq<nat>, i: nat, lookahead: int, answers: Answers)
    requires Ascending(res, ps)
    ensures Sound(res, Match(res, ps, i, lookahead, answers), ps, answers)
    decreases if i <= |ps| then |ps| - i else 0
  {
    if i < |ps| {
      var k := FirstAnswer(res, ps, i, i, Last(|ps|, i, lookahead), answers);
      if k == |ps| {
        MatchSound(res, ps, i + 1, lookahead, answers);
      } else {
        var left := Without(ps, k);
        var next := Without(left, i);
        WithoutAscending(res, ps, k);
        WithoutAscending(res, left, i);
        MatchSound(res, next, i, lookahead, answers);
        WithoutConserves(ps, k);
        WithoutConserves(left, i);
        OneMore(res, ps, next, Match(res, next, i, lookahead, answers), Couple(ps[i], ps[k]), answers);
      }
    }
  }

  /** A couple taken out of the list and a sound matching of the rest. */
  lemma {:induction false} OneMore(res: seq<Packet>, ps: seq<nat>, next: seq<nat>, m: Matched, c: Couple,
                                   answers: Answers)
    requires Sound(res, m, next, answers) && multiset(ps) == multiset(next) + multiset{c.query} + multiset{c.answer}
    requires c.query < c.answer < |res| && answers(res[c.answer], res[c.query])
    ensures Sound(res, Matched([c] + m.couples, m.rest), ps, answers)
  {
    assert ([c] + m.couples)[1..] == m.couples;
    OneCouple(multiset(m.rest), Used(m.couples), c.query, c.answer);
  }

  lemma OneCouple(a: multiset<nat>, b: multiset<nat>, q: nat, r: nat)
    ensures (a + b) + multiset{q} + multiset{r} == a + (multiset{q, r} + b)
  {}

  /** None of the first `upto` packets listed has an answer listed after it. */
  ghost predicate Unmatched(res: seq<Packet>, ps: seq<nat>, upto: nat, answers: Answers)
    requires Ascending(res, ps)
  {
    forall m, n :: 0 <= m < n < |ps| && m < upto ==> !answers(res[ps[n]], res[ps[m]])
  }

  /** When every query can look ahead to the end of the list, nothing left has an answer left after it. */
  lemma {:induction false} MatchMaximal(res: seq<Packet>, ps: seq<nat>, i: nat, lookahead: int, answers: Answers)
    requires Ascending(res, ps) && (|ps| <= 1 || lookahead >= |ps| - 1) && Unmatched(res, ps, i, answers)
    ensures var rest := Match(res, ps, i, lookahead, answers).rest;
            Ascending(res, rest) && Unmatched(res, rest, |rest|, answers)
    decreases if i <= |ps| then |ps| - i else 0
  {
    if i < |ps| {
      var k := FirstAnswer(res, ps, i, i, Last(|ps|, i, lookahead), answers);
      if k == |ps| {
        MatchMaximal(res, ps, i + 1, lookahead, answers);
      } else {
        WithoutAscending(res, ps, k);
        WithoutAscending(res, Without(ps, k), i);
        StillUnmatched(res, ps, i, k, answers);
        MatchMaximal(res, Without(Without(ps, k), i), i, lookahead, answers);
      }
    }
  }

  lemma {:induction false} StillUnmatched(res: seq<Packet>, ps: seq<nat>, i: nat, k: nat, answers: Answers)
    requires Ascending(res, ps) && i < k < |ps| && Unmatched(res, ps, i, answers)
    requires Ascending(res, Without(Without(ps, k), i))
    ensures Unmatched(res, Without(Without(ps, k), i), i, answers)
  {
    var next := Without(Without(ps, k), i);
    forall m, n | 0 <= m < n < |next| && m < i
      ensures !answers(res[next[n]], res[next[m]])
    {
      var n' := if n < i then n else if n + 1 < k then n + 1 else n + 2;
      assert next[n] == ps[n'] && next[m] == ps[m];
    }
  }

  /** The lookahead in force: none or zero means the whole list. */
  function Reach(n: nat, lookahead: Option<int>): int {
    if lookahead.None? || lookahead.value == 0 then n else lookahead.value
  }

  /** The inner loop: the next packet that answers packet i, up to index `last`. */
  method Scan(ghost res: seq<Packet>, ghost ps: seq<nat>, remain: seq<Packet>, i: nat, last: int, answers: Answers)
    returns (j: nat, found: bool)
    requires Ascending(res, ps) && remain == At(res, ps) && i < |remain| && last < |remain|
    ensures FirstAnswer(res, ps, i, i, last, answers) == if found then j else |ps|
    ensures found ==> i < j < |remain|
  {
    j, found := i, false;
    while j < last
      invariant i <= j < |remain|
      invariant FirstAnswer(res, ps, i, i, last, answers) == FirstAnswer(res, ps, i, j, last, answers)
    {
      j := j + 1;
      if answers(remain[j], remain[i]) {
        return j, true;
      }
    }
  }

  /** A query and its answer leave the list; what is still to come follows what is done. */
  lemma {:induction false} TakeCouple(res: seq<Packet>, ps: seq<nat>, i: nat, k: nat, lookahead: int, answers: Answers,
                                      done: seq<Couple>)
    requires Ascending(res, ps) && i < |ps| && k < |ps|
    requires k == FirstAnswer(res, ps, i, i, Last(|ps|, i, lookahead), answers)
    ensures var next, c := Without(Without(ps, k), i), Couple(ps[i], ps[k]);
            && Ascending(res, next)
            && Match(res, ps, i, lookahead, answers).rest == Match(res, next, i, lookahead, answers).rest
            && done + Match(res, ps, i, lookahead, answers).couples
               == (done + [c]) + Match(res, next, i, lookahead, answers).couples
  {
    WithoutAscending(res, ps, k);
    WithoutAscending(res, Without(ps, k), i);
    var c, more := Couple(ps[i], ps[k]), Match(res, Without(Without(ps, k), i), i, lookahead, answers).couples;
    assert done + ([c] + more) == (done + [c]) + more;
  }

  lemma AtWithout(res: seq<Packet>, ps: seq<nat>, i: nat)
    requires Ascending(res, ps) && i < |ps|
    ensures Ascending(res, Without(ps, i))
    ensures At(res, Without(ps, i)) == At(res, ps)[..i] + At(res, ps)[i + 1..]
  {}

  /** Where the outer loop is: what it has paired, and what pairing the rest of the list will add. */
  ghost predicate Underway(res: seq<Packet>, ps: seq<nat>, done: seq<Couple>, remain: seq<Packet>,
                           sr: seq<QueryAnswer>, i: nat, ahead: int, answers: Answers, target: Matched) {
    && Ascending(res, ps) && remain == At(res, ps) && i <= |ps|
    && (forall c :: c in done ==> c.query < |res| && c.answer < |res|)
    && sr == Pairs(res, done)
    && target.couples == done + Match(res, ps, i, ahead, answers).couples
    && target.rest == Match(res, ps, i, ahead, answers).rest
  }

  lemma {:induction false} TakeStep(res: seq<Packet>, ps: seq<nat>, done: seq<Couple>, remain: seq<Packet>,
                                    sr: seq<QueryAnswer>, i: nat, k: nat, ahead: int, answers: Answers, target: Matched)
    requires Underway(res, ps, done, remain, sr, i, ahead, answers, target) && i < k < |ps|
    requires k == FirstAnswer(res, ps, i, i, Last(|ps|, i, ahead), answers)
    ensures var cut := remain[..k] + remain[k + 1..];
            Underway(res, Without(Without(ps, k), i), done + [Couple(ps[i], ps[k])], cut[..i] + cut[i + 1..],
                     sr + [QueryAnswer(remain[i], remain[k])], i, ahead, answers, target)
  {
    PairsAppend(res, done, Couple(ps[i], ps[k]));
    TakeCouple(res, ps, i, k, ahead, answers, done);
    AtWithout(res, ps, k);
    AtWithout(res, Without(ps, k), i);
  }

  /** One turn of the outer loop. */
  method PairOne(ghost res: seq<Packet>, ghost ps: seq<nat>, ghost done: seq<Couple>, remain: seq<Packet>,
                 sr: seq<QueryAnswer>, i: nat, ahead: int, answers: Answers, ghost target: Matched)
    returns (ghost ps': seq<nat>, ghost done': seq<Couple>, remain': seq<Packet>, sr': seq<QueryAnswer>, i': nat)
    requires Underway(res, ps, done, remain, sr, i, ahead, answers, target) && i < |remain|
    ensures Underway(res, ps', done', remain', sr', i', ahead, answers, target)
    ensures |remain'| - i' < |remain| - i
  {
    ps', done', remain', sr', i' := ps, done, remain, sr, i;
    var last := Last(|remain|, i, ahead); // min(lookahead + i, len(remain) - 1)
    var j, found := Scan(res, ps, remain, i, last, answers);
    if found {
      TakeStep(res, ps, done, remain, sr, i, j, ahead, answers, target);
      done' := done + [Couple(ps[i], ps[j])];
      ps' := Without(Without(ps, j), i);
      sr' := sr + [QueryAnswer(remain[i], remain[j])];
      remain' := remain[..j] + remain[j + 1..];
      remain' := remain'[..i] + remain'[i + 1..];
    } else {
      i' := i + 1;
    }
  }

  method Sr(res: seq<Packet>, lookahead: Option<int>, answers: Answers)
    returns (sr: seq<QueryAnswer>, remain: seq<Packet>)
    ensures var m := Match(res, All(|res|), 0, Reach(|res|, lookahead), answers);
            Sound(res, m, All(|res|), answers) && sr == Pairs(res, m.couples) && remain == At(res, m.rest)
  {
    remain := res;
    sr := [];
    var i: nat := 0;
    var ahead: int := if lookahead.None? || lookahead.value == 0 then |remain| else lookahead.value;
    ghost var ps: seq<nat>, done: seq<Couple> := All(|res|), [];
    ghost var target := Match(res, ps, 0, ahead, answers);
    MatchSound(res, ps, 0, ahead, answers);
    StartUnderway(res, ahead, answers);
    while i < |remain|
      invariant Underway(res, ps, done, remain, sr, i, ahead, answers, target)
      decreases |remain| - i
    {
      ps, done, remain, sr, i := PairOne(res, ps, done, remain, sr, i, ahead, answers, target);
    }
    assert done + [] == done;
  }

  lemma {:induction false} StartUnderway(res: seq<Packet>, ahead: int, answers: Answers)
    ensures Ascending(res, All(|res|))
    ensures Underway(res, All(|res|), [], res, [], 0, ahead, answers, Match(res, All(|res|), 0, ahead, answers))
  {
    var target := Match(res, All(|res|), 0, ahead, answers);
    assert [] + target.couples == target.couples;
  }

  // ----- What the pairing guarantees -----

  /** The packets of the pairs, each query before its answer. */
  function Paired(res: seq<Packet>, cs: seq<Couple>): multiset<Packet>
    requires forall c :: c in cs ==> c.query < |res| && c.answer < |res|
  {
    if cs == [] then multiset{} else multiset{res[cs[0].query], res[cs[0].answer]} + Paired(res, cs[1..])
  }

  lemma {:induction false} AtConserves(res: seq<Packet>, ps: seq<nat>, i: nat)
    requires Ascending(res, ps) && i < |ps|
    ensures Ascending(res, Without(ps, i))
    ensures multiset(At(res, ps)) == multiset(At(res, Without(ps, i))) + multiset{res[ps[i]]}
  {
    var r := At(res, ps);
    AtWithout(res, ps, i);
    assert r == r[..i] + [r[i]] + r[i + 1..];
  }

  /** No packet is lost or made: those paired and those left are those given, as often as given. */
  lemma {:induction false} PacketsConserved(res: seq<Packet>, ps: seq<nat>, i: nat, lookahead: int, answers: Answers)
    requires Ascending(res, ps)
    ensures var m := Match(res, ps, i, lookahead, answers);
            Sound(res, m, ps, answers) && multiset(At(res, ps)) == multiset(At(res, m.rest)) + Paired(res, m.couples)
    decreases if i <= |ps| then |ps| - i else 0
  {
    if i >= |ps| {
      MatchSound(res, ps, i, lookahead, answers);
    } else {
      var k := FirstAnswer(res, ps, i, i, Last(|ps|, i, lookahead), answers);
      if k == |ps| {
        PacketsConserved(res, ps, i + 1, lookahead, answers);
      } else {
        MatchSound(res, ps, i, lookahead, answers);
        var left := Without(ps, k);
        AtConserves(res, ps, k);
        AtConserves(res, left, i);
        PacketsConserved(res, Without(left, i), i, lookahead, answers);
        CoupleConserved(res, ps, i, k, lookahead, answers);
      }
    }
  }

  lemma Together(a: multiset<Packet>, b: multiset<Packet>, q: Packet, r: Packet)
    ensures (a + b) + multiset{q} + multiset{r} == a + (multiset{q, r} + b)
  {}

  lemma {:induction false} CoupleConserved(res: seq<Packet>, ps: seq<nat>, i: nat, k: nat, lookahead: int,
                                           answers: Answers)
    requires Ascending(res, ps) && i < |ps| && k < |ps|
    requires k == FirstAnswer(res, ps, i, i, Last(|ps|, i, lookahead), answers)
    requires Ascending(res, Without(Without(ps, k), i))
    requires var next := Without(Without(ps, k), i);
             var m := Match(res, next, i, lookahead, answers);
             && Sound(res, m, next, answers)
             && multiset(At(res, next)) == multiset(At(res, m.rest)) + Paired(res, m.couples)
             && multiset(At(res, ps)) == multiset(At(res, next)) + multiset{res[ps[i]]} + multiset{res[ps[k]]}
    ensures var m := Match(res, ps, i, lookahead, answers);
            && Ascending(res, m.rest) && (forall c :: c in m.couples ==> c.query < |res| && c.answer < |res|)
            && multiset(At(res, ps)) == multiset(At(res, m.rest)) + Paired(res, m.couples)
  {
    var m := Match(res, Without(Without(ps, k), i), i, lookahead, answers);
    assert Match(res, ps, i, lookahead, answers).couples[1..] == m.couples;
    Together(multiset(At(res, m.rest)), Paired(res, m.couples), res[ps[i]], res[ps[k]]);
  }

  /** No packet left over is answered by a later one left over. */
  ghost predicate LeavesNoPair(res: seq<Packet>, lookahead: Option<int>, answers: Answers) {
    var rest := Match(res, All(|res|), 0, Reach(|res|, lookahead), answers).rest;
    Ascending(res, rest) && Unmatched(res, rest, |rest|, answers)
  }

  /**
   * Every packet is in one pair or left over, the left-over ones keep their order,
   * every pair is an answer after its query, and when each query can look ahead to
   * the end of the list, no packet left over is answered by a later one left over.
   */
  lemma {:induction false} SrGuarantees(res: seq<Packet>, lookahead: Option<int>, answers: Answers)
    ensures var m := Match(res, All(|res|), 0, Reach(|res|, lookahead), answers);
            && Sound(res, m, All(|res|), answers)
            && multiset(res) == multiset(At(res, m.rest)) + Paired(res, m.couples)
            && (|res| <= 1 || Reach(|res|, lookahead) >= |res| - 1 ==> LeavesNoPair(res, lookahead, answers))
  {
    var ps, reach := All(|res|), Reach(|res|, lookahead);
    PacketsConserved(res, ps, 0, reach, answers);
    assert At(res, ps) == res;
    if |res| <= 1 || reach >= |res| - 1 {
      MatchMaximal(res, ps, 0, reach, answers);
    }
  }

  lemma {:induction false} NoneTaken(res: seq<Packet>, ps: seq<nat>, i: nat, lookahead: int, answers: Answers)
    requires Ascending(res, ps)
    requires forall m, n :: i <= m < n < |ps| && n <= lookahead + m ==> !answers(res[ps[n]], res[ps[m]])
    ensures Match(res, ps, i, lookahead, answers) == Matched([], ps)
    decreases if i <= |ps| then |ps| - i else 0
  {
    if i < |ps| {
      NoneTaken(res, ps, i + 1, lookahead, answers);
    }
  }

  /** Only the last of n packets answers anything, and it answers the first: too far for the lookahead. */
  lemma FarAnswer(n: nat, lookahead: Option<int>)
    requires n > 1 && Reach(n, lookahead) < n - 1
    ensures exists res: seq<Packet>, answers: Answers :: |res| == n && !LeavesNoPair(res, lookahead, answers)
  {
    var res := seq(n, i => Packet(0, i));
    var answers: Answers := (r: Packet, s: Packet) => r.id == n - 1 && s.id == 0;
    NoneTaken(res, All(n), 0, Reach(n, lookahead), answers);
    assert answers(res[All(n)[n - 1]], res[All(n)[0]]);
    assert !LeavesNoPair(res, lookahead, answers);
  }

  /** Without a lookahead, or with zero, the whole list is looked through. */
  lemma {:induction false} WholeList(res: seq<Packet>, answers: Answers)
    ensures LeavesNoPair(res, None, answers) && LeavesNoPair(res, Some(0), answers)
  {
    SrGuarantees(res, None, answers);
    SrGuarantees(res, Some(0), answers);
  }

  /** Every list of n packets is matched completely exactly when the lookahead spans the list. */
  lemma {:induction false} MaximalExactly(n: nat, lookahead: Option<int>)
    ensures (forall res: seq<Packet>, answers: Answers :: |res| == n ==> LeavesNoPair(res, lookahead, answers))
            <==> n <= 1 || Reach(n, lookahead) >= n - 1
  {
    if n <= 1 || Reach(n, lookahead) >= n - 1 {
      forall res: seq<Packet>, answers: Answers | |res| == n ensures LeavesNoPair(res, lookahead, answers) {
        SrGuarantees(res, lookahead, answers);
      }
    } else {
      FarAnswer(n, lookahead);
    }
  }
}
