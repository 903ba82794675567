/**
 * Which pairs `PacketList.sr` makes: each query that is left takes the first answer among the next
 * packets that are left, no further on than the lookahead.
 */
module PacketListGreedy {
  import opened Bytes
  import opened SentTable
  import opened PacketListSr

  function Drop(ps: seq<nat>, p: nat): seq<nat> {
    if ps == [] then [] else if ps[0] == p then ps[1..] else [ps[0]] + Drop(ps[1..], p)
  }

  /** The positions left when these couples have been taken out. */
  function Left(ps: seq<nat>, cs: seq<Couple>): seq<nat>
    decreases |cs|
  {
    if cs == [] then ps else Left(Drop(Drop(ps, cs[0].answer), cs[0].query), cs[1..])
  }

  /** The couples whose query comes before a position. */
  function Earlier(cs: seq<Couple>, r: nat): seq<Couple> {
    if cs == [] then [] else (if cs[0].query < r then [cs[0]] else []) + Earlier(cs[1..], r)
  }

  /** In the list as it then is, the answer is the first one behind the query, within the lookahead. */
  ghost predicate TakesFirst(res: seq<Packet>, now: seq<nat>, c: Couple, lookahead: int, answers: Answers)
    requires c.query < |res| && forall i :: 0 <= i < |now| ==> now[i] < |res|
  {
    exists x: nat, y: nat ::
      && x < y < |now| && y - x <= lookahead && now[x] == c.query && now[y] == c.answer
      && answers(res[now[y]], res[now[x]])
      && forall z :: x < z < y ==> !answers(res[now[z]], res[now[x]])
  }

  /** In the list as it then is, no packet within the lookahead answers the one at position r. */
  predicate FindsNone(res: seq<Packet>, now: seq<nat>, r: nat, lookahead: int, answers: Answers)
    requires r < |res| && forall i :: 0 <= i < |now| ==> now[i] < |res|
  {
    forall x, z :: 0 <= x < z < |now| && now[x] == r && z - x <= lookahead ==> !answers(res[now[z]], res[r])
  }

  lemma {:induction false} DropAt(res: seq<Packet>, ps: seq<nat>, i: nat)
    requires Ascending(res, ps) && i < |ps|
    ensures Drop(ps, ps[i]) == Without(ps, i)
  {
    if i > 0 {
      DropAt(res, ps[1..], i - 1);
      assert [ps[0]] + (ps[1..][..i - 1] + ps[1..][i..]) == Without(ps, i);
    }
  }

  /** One couple less: the list that the search goes on with. */
  lemma {:induction false} LeftNext(res: seq<Packet>, ps: seq<nat>, i: nat, k: nat, cs: seq<Couple>)
    requires Ascending(res, ps) && i < k < |ps|
    ensures Left(ps, [Couple(ps[i], ps[k])] + cs) == Left(Without(Without(ps, k), i), cs)
  {
    DropAt(res, ps, k);
    WithoutAscending(res, ps, k);
    assert Without(ps, k)[i] == ps[i];
    DropAt(res, Without(ps, k), i);
    assert ([Couple(ps[i], ps[k])] + cs)[1..] == cs;
  }

  lemma {:induction false} DropKeeps(res: seq<Packet>, ps: seq<nat>, p: nat)
    requires Ascending(res, ps)
    ensures Ascending(res, Drop(ps, p)) && forall q :: q in Drop(ps, p) ==> q in ps
  {
    if ps != [] && ps[0] != p {
      var rest := Drop(ps[1..], p);
      DropKeeps(res, ps[1..], p);
      forall j | 0 <= j < |rest| ensures ps[0] < rest[j] < |res| {
        assert rest[j] in ps[1..];
      }
    }
  }

  lemma {:induction false} LeftKeeps(res: seq<Packet>, ps: seq<nat>, cs: seq<Couple>)
    requires Ascending(res, ps)
    ensures Ascending(res, Left(ps, cs))
    decreases |cs|
  {
    if cs != [] {
      DropKeeps(res, ps, cs[0].answer);
      DropKeeps(res, Drop(ps, cs[0].answer), cs[0].query);
      LeftKeeps(res, Drop(Drop(ps, cs[0].answer), cs[0].query), cs[1..]);
    }
  }

  /** What matching from index i on makes of a list: the couples one by one, and each packet left. */
  ghost predicate Greedy(res: seq<Packet>, ps: seq<nat>, i: nat, m: Matched, lookahead: int, answers: Answers)
    requires Ascending(res, ps)
  {
    && m.rest == Left(ps, m.couples)
    && (forall c :: 0 <= c < |m.couples| ==> CoupleIs(res, ps, i, m.couples, c, lookahead, answers))
    && (forall c, d :: 0 <= c < d < |m.couples| ==> m.couples[c].query < m.couples[d].query)
    && (forall x: nat :: i <= x < |ps| && ps[x] in m.rest ==> LoneIs(res, ps, m.couples, ps[x], lookahead, answers))
  }

  ghost predicate CoupleIs(res: seq<Packet>, ps: seq<nat>, i: nat, cs: seq<Couple>, c: nat, lookahead: int,
                           answers: Answers)
    requires Ascending(res, ps) && c < |cs|
  {
    LeftKeeps(res, ps, cs[..c]);
    cs[c].query in ps[if i <= |ps| then i else |ps|..] && TakesFirst(res, Left(ps, cs[..c]), cs[c], lookahead, answers)
  }

  ghost predicate LoneIs(res: seq<Packet>, ps: seq<nat>, cs: seq<Couple>, r: nat, lookahead: int, answers: Answers)
    requires Ascending(res, ps) && r < |res|
  {
    LeftKeeps(res, ps, Earlier(cs, r));
    FindsNone(res, Left(ps, Earlier(cs, r)), r, lookahead, answers)
  }

  lemma {:induction false} EarlierNone(cs: seq<Couple>, r: nat)
    requires forall c :: 0 <= c < |cs| ==> cs[c].query >= r
    ensures Earlier(cs, r) == []
  {
    if cs != [] {
      EarlierNone(cs[1..], r);
    }
  }

  /** The packet at index i finds no answer; those behind it go on as they would. */
  lemma {:induction false} SkipsOne(res: seq<Packet>, ps: seq<nat>, i: nat, m: Matched, lookahead: int,
                                    answers: Answers)
    requires Ascending(res, ps) && i < |ps| && Greedy(res, ps, i + 1, m, lookahead, answers)
    requires FirstAnswer(res, ps, i, i, Last(|ps|, i, lookahead), answers) == |ps|
    ensures Greedy(res, ps, i, m, lookahead, answers)
  {
    forall c | 0 <= c < |m.couples|
      ensures m.couples[c].query > ps[i] && CoupleIs(res, ps, i, m.couples, c, lookahead, answers)
    {
      FromFurther(res, ps, i, m.couples, c, lookahead, answers);
    }
    forall x: nat | i <= x < |ps| && ps[x] in m.rest ensures LoneIs(res, ps, m.couples, ps[x], lookahead, answers) {
      if x == i {
        FindsNoneAt(res, ps, i, m.couples, lookahead, answers);
      }
    }
  }

  lemma {:induction false} FromFurther(res: seq<Packet>, ps: seq<nat>, i: nat, cs: seq<Couple>, c: nat, lookahead: int,
                                       answers: Answers)
    requires Ascending(res, ps) && i < |ps| && c < |cs| && CoupleIs(res, ps, i + 1, cs, c, lookahead, answers)
    ensures cs[c].query > ps[i] && CoupleIs(res, ps, i, cs, c, lookahead, answers)
  {
    var x :| 0 <= x < |ps[i + 1..]| && ps[i + 1..][x] == cs[c].query;
    assert ps[i..][x + 1] == ps[i + 1..][x] == ps[i + 1 + x];
  }

  lemma FindsNoneAt(res: seq<Packet>, ps: seq<nat>, i: nat, cs: seq<Couple>, lookahead: int, answers: Answers)
    requires Ascending(res, ps) && i < |ps| && forall c :: 0 <= c < |cs| ==> cs[c].query > ps[i]
    requires FirstAnswer(res, ps, i, i, Last(|ps|, i, lookahead), answers) == |ps|
    ensures LoneIs(res, ps, cs, ps[i], lookahead, answers)
  {
    EarlierNone(cs, ps[i]);
  }

  /** The packet at index i takes the one at index k. */
  lemma {:induction false} TakesOne(res: seq<Packet>, ps: seq<nat>, i: nat, k: nat, m: Matched, lookahead: int,
                                    answers: Answers)
    requires Ascending(res, ps) && i < k < |ps| && Ascending(res, Without(Without(ps, k), i))
    requires k == FirstAnswer(res, ps, i, i, Last(|ps|, i, lookahead), answers)
    requires Greedy(res, Without(Without(ps, k), i), i, m, lookahead, answers)
    ensures Greedy(res, ps, i, Matched([Couple(ps[i], ps[k])] + m.couples, m.rest), lookahead, answers)
  {
    var cs := [Couple(ps[i], ps[k])] + m.couples;
    LeftNext(res, ps, i, k, m.couples);
    NextBehind(res, ps, i, k);
    forall c | 0 <= c < |cs|
      ensures CoupleIs(res, ps, i, cs, c, lookahead, answers) && (c > 0 ==> cs[c].query > ps[i])
    {
      LaterCouple(res, ps, i, k, m, c, lookahead, answers);
    }
    QueriesAscend(cs, m.couples);
    forall x: nat | i <= x < |ps| && ps[x] in m.rest ensures LoneIs(res, ps, cs, ps[x], lookahead, answers) {
      LaterLone(res, ps, i, k, m, x, lookahead, answers);
    }
  }

  lemma QueriesAscend(cs: seq<Couple>, more: seq<Couple>)
    requires cs != [] && cs[1..] == more && forall c :: 0 < c < |cs| ==> cs[c].query > cs[0].query
    requires forall c, d :: 0 <= c < d < |more| ==> more[c].query < more[d].query
    ensures forall c, d :: 0 <= c < d < |cs| ==> cs[c].query < cs[d].query
  {
    assert forall c :: 0 < c < |cs| ==> cs[c] == more[c - 1];
  }

  lemma {:induction false} NextBehind(res: seq<Packet>, ps: seq<nat>, i: nat, k: nat)
    requires Ascending(res, ps) && i < k < |ps|
    ensures var next := Without(Without(ps, k), i);
            forall x :: i <= x < |next| ==> next[x] in ps[i..] && next[x] > ps[i]
  {
    var next := Without(Without(ps, k), i);
    forall x | i <= x < |next| ensures next[x] in ps[i..] && next[x] > ps[i] {
      var y := if x + 1 < k then x + 1 else x + 2;
      assert next[x] == ps[y] == ps[i..][y - i];
    }
  }

  lemma {:induction false} LaterCouple(res: seq<Packet>, ps: seq<nat>, i: nat, k: nat, m: Matched, c: nat,
                                       lookahead: int, answers: Answers)
    requires Ascending(res, ps) && i < k < |ps| && Ascending(res, Without(Without(ps, k), i)) && c <= |m.couples|
    requires k == FirstAnswer(res, ps, i, i, Last(|ps|, i, lookahead), answers)
    requires var next := Without(Without(ps, k), i);
             Greedy(res, next, i, m, lookahead, answers)
             && forall x :: i <= x < |next| ==> next[x] in ps[i..] && next[x] > ps[i]
    ensures var cs := [Couple(ps[i], ps[k])] + m.couples;
            CoupleIs(res, ps, i, cs, c, lookahead, answers) && (c > 0 ==> cs[c].query > ps[i])
  {
    if c == 0 {
      FirstCouple(res, ps, i, k, [Couple(ps[i], ps[k])] + m.couples, lookahead, answers);
    } else {
      CoupleOfNext(res, ps, i, k, m.couples, c - 1, lookahead, answers);
    }
  }

  lemma FirstCouple(res: seq<Packet>, ps: seq<nat>, i: nat, k: nat, cs: seq<Couple>, lookahead: int, answers: Answers)
    requires Ascending(res, ps) && i < k < |ps| && cs != [] && cs[0] == Couple(ps[i], ps[k])
    requires k == FirstAnswer(res, ps, i, i, Last(|ps|, i, lookahead), answers)
    ensures CoupleIs(res, ps, i, cs, 0, lookahead, answers)
  {
    assert cs[..0] == [] && ps[i..][0] == ps[i];
    assert TakesFirst(res, ps, cs[0], lookahead, answers);
  }

  lemma {:induction false} CoupleOfNext(res: seq<Packet>, ps: seq<nat>, i: nat, k: nat, more: seq<Couple>, c: nat,
                                        lookahead: int, answers: Answers)
    requires Ascending(res, ps) && i < k < |ps| && Ascending(res, Without(Without(ps, k), i)) && c < |more|
    requires var next := Without(Without(ps, k), i);
             CoupleIs(res, next, i, more, c, lookahead, answers)
             && forall x :: i <= x < |next| ==> next[x] in ps[i..] && next[x] > ps[i]
    ensures more[c].query > ps[i] && CoupleIs(res, ps, i, [Couple(ps[i], ps[k])] + more, c + 1, lookahead, answers)
  {
    var next, first := Without(Without(ps, k), i), Couple(ps[i], ps[k]);
    assert ([first] + more)[..c + 1] == [first] + more[..c];
    LeftNext(res, ps, i, k, more[..c]);
    var x :| 0 <= x < |next[i..]| && next[i..][x] == more[c].query;
    assert next[i + x] == more[c].query;
  }

  lemma {:induction false} LaterLone(res: seq<Packet>, ps: seq<nat>, i: nat, k: nat, m: Matched, x: nat,
                                     lookahead: int, answers: Answers)
    requires Ascending(res, ps) && i < k < |ps| && Ascending(res, Without(Without(ps, k), i))
    requires Greedy(res, Without(Without(ps, k), i), i, m, lookahead, answers)
    requires i <= x < |ps| && ps[x] in m.rest
    ensures LoneIs(res, ps, [Couple(ps[i], ps[k])] + m.couples, ps[x], lookahead, answers)
  {
    var next, first, r := Without(Without(ps, k), i), Couple(ps[i], ps[k]), ps[x];
    LeftOf(res, next, m.couples, r);
    var y := PlaceIn(res, ps, i, k, x);
    assert LoneIs(res, next, m.couples, next[y], lookahead, answers);
    LeftNext(res, ps, i, k, Earlier(m.couples, r));
    assert ([first] + m.couples)[1..] == m.couples;
    assert Earlier([first] + m.couples, r) == [first] + Earlier(m.couples, r);
  }

  /** A packet behind index i that is left when i and k are taken out is behind index i then, too. */
  lemma {:induction false} PlaceIn(res: seq<Packet>, ps: seq<nat>, i: nat, k: nat, x: nat) returns (y: nat)
    requires Ascending(res, ps) && i < k < |ps| && i <= x < |ps| && ps[x] in Without(Without(ps, k), i)
    ensures i <= y < |ps| - 2 && Without(Without(ps, k), i)[y] == ps[x] && ps[x] > ps[i]
  {
    var next := Without(Without(ps, k), i);
    y :| 0 <= y < |next| && next[y] == ps[x];
    assert next[y] == ps[if y < i then y else if y + 1 < k then y + 1 else y + 2];
  }

  lemma {:induction false} LeftOf(res: seq<Packet>, ps: seq<nat>, cs: seq<Couple>, r: nat)
    requires Ascending(res, ps) && r in Left(ps, cs)
    ensures r in ps
    decreases |cs|
  {
    if cs != [] {
      DropKeeps(res, ps, cs[0].answer);
      DropKeeps(res, Drop(ps, cs[0].answer), cs[0].query);
      LeftOf(res, Drop(Drop(ps, cs[0].answer), cs[0].query), cs[1..], r);
    }
  }

  lemma {:induction false} MatchIsGreedy(res: seq<Packet>, ps: seq<nat>, i: nat, lookahead: int, answers: Answers)
    requires Ascending(res, ps)
    ensures Greedy(res, ps, i, Match(res, ps, i, lookahead, answers), lookahead, answers)
    decreases if i <= |ps| then |ps| - i else 0
  {
    if i < |ps| {
      var k := FirstAnswer(res, ps, i, i, Last(|ps|, i, lookahead), answers);
      if k == |ps| {
        MatchIsGreedy(res, ps, i + 1, lookahead, answers);
        SkipsOne(res, ps, i, Match(res, ps, i + 1, lookahead, answers), lookahead, answers);
      } else {
        WithoutAscending(res, ps, k);
        WithoutAscending(res, Without(ps, k), i);
        var next := Without(Without(ps, k), i);
        MatchIsGreedy(res, next, i, lookahead, answers);
        TakesOne(res, ps, i, k, Match(res, next, i, lookahead, answers), lookahead, answers);
      }
    }
  }

  /**
   * For every list and lookahead: the couples come in the order of their queries; each query takes the
   * first answer among the packets then left behind it, at most `lookahead` of them further on; and a
   * packet is left over when, at its turn, none of those answers it.
   */
  lemma {:induction false} MatchesFirst(res: seq<Packet>, lookahead: int, answers: Answers)
    ensures Ascending(res, All(|res|))
    ensures var m := Match(res, All(|res|), 0, lookahead, answers);
            && m.rest == Left(All(|res|), m.couples)
            && (forall c, d :: 0 <= c < d < |m.couples| ==> m.couples[c].query < m.couples[d].query)
            && (forall c :: 0 <= c < |m.couples| ==> CoupleIs(res, All(|res|), 0, m.couples, c, lookahead, answers))
            && (forall r :: r in m.rest ==>
                  r < |res| && LoneIs(res, All(|res|), m.couples, r, lookahead, answers))
  {
    var ps := All(|res|);
    var m := Match(res, ps, 0, lookahead, answers);
    MatchIsGreedy(res, ps, 0, lookahead, answers);
    forall r | r in m.rest ensures r < |res| && LoneIs(res, ps, m.couples, r, lookahead, answers) {
      LeftOf(res, ps, m.couples, r);
      var x :| 0 <= x < |ps| && ps[x] == r;
    }
  }
}
