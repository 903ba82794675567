/**
 * The memo of the routing table: what one lookup answers through it and leaves in it, over runs of
 * lookups and interface changes, and when it tells the truth.
 */
module RouteMemo {
  import opened Bytes
  import opened Routes

  // ---- Lookups, with and without the memo ----

  /** What a lookup should answer: a row without a source takes it from the lookup of its gateway. */
  function Fresh(env: Env, rows: seq<Row>, dst: string, dev: Option<string>): Outcome {
    var o := Choose(env, rows, dst, dev);
    if !(o.Found? && o.ans.src == ZERO) then o
    else
      var via := Choose(env, rows, Norm(Some(o.ans.gw)), None);
      if via.Failed? then Failed else Found(o.ans.(src := via.ans.src))
  }

  datatype Reply = Reply(out: Outcome, cache: map<Key, Answer>)

  /** The inner lookup of a gateway: it does not complete the source, but does use and fill the memo. */
  function GatewayReply(env: Env, rows: seq<Row>, cache: map<Key, Answer>, dst: string, dev: Option<string>): Reply {
    var key := Key(dst, dev);
    if key in cache then Reply(Found(cache[key]), cache)
    else
      var o := Choose(env, rows, dst, dev);
      Reply(o, if o.Found? then cache[key := o.ans] else cache)
  }

  function LookupReply(env: Env, rows: seq<Row>, cache: map<Key, Answer>, dst: string, dev: Option<string>): Reply {
    var key := Key(dst, dev);
    if key in cache then Reply(Found(cache[key]), cache)
    else
      var o := Choose(env, rows, dst, dev);
      if !o.Found? then Reply(o, cache)
      else if o.ans.src != ZERO then Reply(o, cache[key := o.ans])
      else
        var via := GatewayReply(env, rows, cache, Norm(Some(o.ans.gw)), None);
        if via.out.Failed? then Reply(Failed, via.cache)
        else
          var ans := o.ans.(src := via.out.ans.src);
          Reply(Found(ans), via.cache[key := ans])
  }

  // ---- Runs ----

  datatype Op =
    | Route(dst: Option<string>, dev: Option<string>)
    | IfAdd(iff: string, text: string)
    | IfDel(iff: string)
    | IfChange(iff: string, text: string)

  datatype State = State(rows: seq<Row>, cache: map<Key, Answer>)

  /** An address with its prefix: the address as text, as a number, and the mask. */
  datatype Net = Net(addr: string, number: Word, mask: Word)

  function ReadNet(env: Env, text: string): Option<Net> {
    var c := env.cidr(text);
    if c.None? then None
    else
      var n := env.number(c.value.addr);
      if n.None? then None else Some(Net(c.value.addr, n.value, Itom(c.value.bits)))
  }

  function Added(rows: seq<Row>, iff: string, a: Net): seq<Row> {
    rows + [Row(And(a.number, a.mask), a.mask, ZERO, iff, a.addr, 1)]
  }

  function Removed(rows: seq<Row>, iff: string): seq<Row> {
    if rows == [] then []
    else if rows[0].iface == iff then Removed(rows[1..], iff)
    else [rows[0]] + Removed(rows[1..], iff)
  }

  function ChangedRow(r: Row, iff: string, a: Net): Row {
    if r.iface != iff then r
    else if r.gw == ZERO then r.(net := And(a.number, a.mask), mask := a.mask, addr := a.addr)
    else r.(addr := a.addr)
  }

  function Changed(rows: seq<Row>, iff: string, a: Net): (r: seq<Row>) {
    seq(|rows|, i requires 0 <= i < |rows| => ChangedRow(rows[i], iff, a))
  }

  /** Every change of the table empties the memo first, even one whose address can not be read. */
  function Apply(env: Env, s: State, op: Op): State {
    match op
    case Route(dst, dev) => s.(cache := LookupReply(env, s.rows, s.cache, Norm(dst), dev).cache)
    case IfAdd(iff, text) =>
      var a := ReadNet(env, text);
      State(if a.None? then s.rows else Added(s.rows, iff, a.value), map[])
    case IfDel(iff) => State(Removed(s.rows, iff), map[])
    case IfChange(iff, text) =>
      var a := ReadNet(env, text);
      State(if a.None? then s.rows else Changed(s.rows, iff, a.value), map[])
  }

  function Run(env: Env, s: State, ops: seq<Op>, n: nat): State
    requires n <= |ops|
  {
    if n == 0 then s else Apply(env, Run(env, s, ops, n - 1), ops[n - 1])
  }

  /** The lookups of the run answer what the table at that moment says. */
  ghost predicate Truthful(env: Env, s: State, ops: seq<Op>) {
    forall n: nat :: n < |ops| && ops[n].Route? ==>
      var at := Run(env, s, ops, n);
      LookupReply(env, at.rows, at.cache, Norm(ops[n].dst), ops[n].dev).out
        == Fresh(env, at.rows, Norm(ops[n].dst), ops[n].dev)
  }

  /** `key` is routed by a row without a source; `gw` is its gateway. */
  predicate ViaGateway(env: Env, rows: seq<Row>, key: Key, gw: string) {
    var o := Choose(env, rows, key.dst, key.dev);
    key.dst != "" && o.Found? && o.ans.src == ZERO && Norm(Some(o.ans.gw)) == gw
  }

  /**
   * No source is passed on through two gateways: when the gateway of a row without a source is
   * itself routed by such a row, its own gateway has no source to offer either.
   */
  ghost predicate OneHop(env: Env, rows: seq<Row>) {
    forall key: Key, gw: string, next: string ::
      ViaGateway(env, rows, key, gw) && ViaGateway(env, rows, Key(gw, None), next) ==>
        var o := Choose(env, rows, next, None);
        !o.Failed? && o.ans.src == ZERO
  }

  /** Every entry of the memo is what a fresh lookup would answer. */
  ghost predicate Coherent(env: Env, s: State) {
    forall key :: key in s.cache ==> Fresh(env, s.rows, key.dst, key.dev) == Found(s.cache[key])
  }

  /** A gateway's fresh answer, under `OneHop`, is its row as it stands. */
  lemma GatewayAsItStands(env: Env, rows: seq<Row>, key: Key, gw: string)
    requires OneHop(env, rows) && ViaGateway(env, rows, key, gw)
    ensures Fresh(env, rows, gw, None) == Choose(env, rows, gw, None)
  {
    var o := Choose(env, rows, gw, None);
    if o.Found? && o.ans.src == ZERO {
      assert ViaGateway(env, rows, Key(gw, None), Norm(Some(o.ans.gw)));
    }
  }

  /** One lookup answers truthfully and keeps the memo coherent. */
  lemma LookupTruthful(env: Env, s: State, dst: string, dev: Option<string>)
    requires OneHop(env, s.rows) && Coherent(env, s) && dst != ""
    ensures LookupReply(env, s.rows, s.cache, dst, dev).out == Fresh(env, s.rows, dst, dev)
    ensures Coherent(env, s.(cache := LookupReply(env, s.rows, s.cache, dst, dev).cache))
  {
    var key := Key(dst, dev);
    var o := Choose(env, s.rows, dst, dev);
    if key !in s.cache && o.Found? && o.ans.src == ZERO {
      var gw := Norm(Some(o.ans.gw));
      assert ViaGateway(env, s.rows, key, gw);
      GatewayAsItStands(env, s.rows, key, gw);
    }
  }

  lemma ApplyCoherent(env: Env, s: State, op: Op)
    requires Coherent(env, s) && OneHop(env, s.rows)
    ensures Coherent(env, Apply(env, s, op))
  {
    if op.Route? {
      LookupTruthful(env, s, Norm(op.dst), op.dev);
    }
  }

  /** The tables before the first `n` operations are all of that kind. */
  ghost predicate OneHopBefore(env: Env, s: State, ops: seq<Op>, n: nat)
    requires n <= |ops|
  {
    n > 0 ==> OneHopBefore(env, s, ops, n - 1) && OneHop(env, Run(env, s, ops, n - 1).rows)
  }

  lemma {:induction false} OneHopThroughout(env: Env, s: State, ops: seq<Op>, n: nat)
    requires n <= |ops| && forall m: nat :: m < |ops| ==> OneHop(env, Run(env, s, ops, m).rows)
    ensures OneHopBefore(env, s, ops, n)
  {
    if n > 0 {
      OneHopThroughout(env, s, ops, n - 1);
    }
  }

  lemma {:induction false} StaysCoherent(env: Env, s: State, ops: seq<Op>, n: nat)
    requires n <= |ops| && Coherent(env, s) && OneHopBefore(env, s, ops, n)
    ensures Coherent(env, Run(env, s, ops, n))
  {
    if n > 0 {
      StaysCoherent(env, s, ops, n - 1);
      ApplyCoherent(env, Run(env, s, ops, n - 1), ops[n - 1]);
    }
  }

  /** Over every run of lookups and interface changes, each answer is that of the table of the moment. */
  lemma EveryRunTruthful(env: Env, s: State, ops: seq<Op>)
    requires Coherent(env, s)
    requires forall m: nat :: m < |ops| ==> OneHop(env, Run(env, s, ops, m).rows)
    ensures Truthful(env, s, ops)
  {
    forall n: nat | n < |ops| && ops[n].Route?
      ensures var at := Run(env, s, ops, n);
              LookupReply(env, at.rows, at.cache, Norm(ops[n].dst), ops[n].dev).out
                == Fresh(env, at.rows, Norm(ops[n].dst), ops[n].dev)
    {
      OneHopThroughout(env, s, ops, n);
      StaysCoherent(env, s, ops, n);
      LookupTruthful(env, Run(env, s, ops, n), Norm(ops[n].dst), ops[n].dev);
    }
  }

  /** Only lookups. */
  predicate Reading(ops: seq<Op>) {
    forall k :: 0 <= k < |ops| ==> ops[k].Route?
  }

  lemma {:induction false} ReadingKeepsRows(env: Env, s: State, ops: seq<Op>, n: nat)
    requires n <= |ops| && Reading(ops)
    ensures Run(env, s, ops, n).rows == s.rows
  {
    if n > 0 {
      ReadingKeepsRows(env, s, ops, n - 1);
    }
  }

  /** Two lookups that disagree with the table: the destination, and then its gateway. */
  lemma SecondHopMisleads(env: Env, rows: seq<Row>, key: Key, gw: string, next: string)
    requires ViaGateway(env, rows, key, gw) && ViaGateway(env, rows, Key(gw, None), next)
    requires Choose(env, rows, next, None).Failed? || Choose(env, rows, next, None).ans.src != ZERO
    ensures !Truthful(env, State(rows, map[]), [Route(Some(key.dst), key.dev), Route(Some(gw), None)])
  {
    var s := State(rows, map[]);
    var ops := [Route(Some(key.dst), key.dev), Route(Some(gw), None)];
    assert Norm(Some(key.dst)) == key.dst;
    var at := Run(env, s, ops, 1);
    assert Run(env, s, ops, 0) == s;
    assert at == Apply(env, s, ops[0]);
    var o := Choose(env, rows, gw, None);
    assert key != Key(gw, None);
    assert at.cache[Key(gw, None)] == o.ans;
    assert LookupReply(env, at.rows, at.cache, gw, None).out == Found(o.ans);
    assert Fresh(env, rows, gw, None) != Found(o.ans);
    assert ops[1].Route? && Norm(ops[1].dst) == gw;
  }

  /**
   * The memo can be trusted, whatever is looked up and in whatever order, exactly when the table
   * passes no source on through two gateways.
   */
  lemma MemoExactly(env: Env, rows: seq<Row>)
    ensures OneHop(env, rows) <==>
            forall ops: seq<Op> :: Reading(ops) ==> Truthful(env, State(rows, map[]), ops)
  {
    var s := State(rows, map[]);
    if OneHop(env, rows) {
      forall ops: seq<Op> | Reading(ops) ensures Truthful(env, s, ops) {
        forall m: nat | m < |ops| ensures OneHop(env, Run(env, s, ops, m).rows) {
          ReadingKeepsRows(env, s, ops, m);
        }
        EveryRunTruthful(env, s, ops);
      }
    } else {
      var key: Key, gw: string, next: string :|
        ViaGateway(env, rows, key, gw) && ViaGateway(env, rows, Key(gw, None), next) &&
        (Choose(env, rows, next, None).Failed? || Choose(env, rows, next, None).ans.src != ZERO);
      SecondHopMisleads(env, rows, key, gw, next);
      var ops := [Route(Some(key.dst), key.dev), Route(Some(gw), None)];
      assert Reading(ops);
    }
  }

  // ---- A table that passes a source on through two gateways ----

  function Bit(k: nat): Word {
    seq(32, i => i == k)
  }

  /** Names for four addresses: `a` behind `b`, `b` behind `c`, and the host's own `s`. */
  function Numbered(text: string): Option<Word> {
    if text == "a" then Some(Bit(1))
    else if text == "b" then Some(Bit(2))
    else if text == "c" then Some(Bit(3))
    else if text == "s" then Some(Bit(4))
    else Some(Bit(32))
  }

  const CHAIN := [Row(Bit(1), Itom(32), "b", "eth0", ZERO, 1), Row(Bit(2), Itom(32), "c", "eth0", ZERO, 1),
                  Row(Bit(32), Itom(0), ZERO, "eth0", "s", 1)]

  lemma HoldsAlone(n: Word, net: Word)
    ensures And(n, Itom(32)) == And(net, Itom(32)) <==> n == net
    ensures And(n, Itom(0)) == And(net, Itom(0))
  {
    MaskIsPrefix(n, net, 32);
    MaskIsPrefix(n, net, 0);
    assert n[..32] == n && net[..32] == net;
    assert n[..0] == net[..0];
  }

  /** In the chained table, the host row `i` or else the default row is chosen. */
  lemma ChainChoice(env: Env, dst: string, k: nat)
    requires env.target == Numbered && env.number == Numbered
    requires (k == 0 && dst == "a") || (k == 1 && dst == "b") || (k == 2 && dst == "c")
    ensures Choose(env, CHAIN, dst, None) == Found(Answer(CHAIN[k].iface, CHAIN[k].addr, CHAIN[k].gw))
  {
    var n := Numbered(dst).value;
    ChainApplies(env, dst, k, n);
    NoAnswer(env, CHAIN, dst, None);
    var i, local := ChoosesLongestMatch(env, CHAIN, dst, None, n);
    MaskOrder(0, 32);
    assert (k, false) == (i, local) || Preferred(PathOf(env, CHAIN, i, local), PathOf(env, CHAIN, k, false));
  }

  /** The rows that apply are the host's own and the default row. */
  lemma ChainApplies(env: Env, dst: string, k: nat, n: Word)
    requires env.target == Numbered && env.number == Numbered && n == Numbered(dst).value
    requires (k == 0 && dst == "a") || (k == 1 && dst == "b") || (k == 2 && dst == "c")
    ensures Applies(env, CHAIN[k], n, None, false)
    ensures forall j: nat, l: bool :: j < 3 && Applies(env, CHAIN[j], n, None, l) ==> !l && (j == k || j == 2)
  {
    assert n == Bit(k + 1);
    assert n[k + 1] && !Bit(4)[k + 1] && !Bit(32)[k + 1];
    assert k != 0 ==> !Bit(1)[k + 1];
    assert k != 1 ==> !Bit(2)[k + 1];
    HoldsAlone(n, Bit(1));
    HoldsAlone(n, Bit(2));
    HoldsAlone(n, Bit(32));
  }

  /** On it, looking up `a` and then its gateway `b` gives `b` no source, where the table gives `s`. */
  lemma ChainMisleads(env: Env)
    requires env.target == Numbered && env.number == Numbered
    ensures !Truthful(env, State(CHAIN, map[]), [Route(Some("a"), None), Route(Some("b"), None)])
  {
    ChainChoice(env, "a", 0);
    ChainChoice(env, "b", 1);
    ChainChoice(env, "c", 2);
    assert ViaGateway(env, CHAIN, Key("a", None), "b");
    assert ViaGateway(env, CHAIN, Key("b", None), "c");
    SecondHopMisleads(env, CHAIN, Key("a", None), "b", "c");
  }

  // ---- Tables whose rows all have a source ----

  predicate Sourced(rows: seq<Row>) {
    forall i :: 0 <= i < |rows| ==> rows[i].addr != ZERO
  }

  /** The interface changes of the run do not set the address `0.0.0.0`. */
  predicate SetsSources(env: Env, ops: seq<Op>) {
    forall k :: 0 <= k < |ops| && (ops[k].IfAdd? || ops[k].IfChange?) ==>
      var a := ReadNet(env, ops[k].text);
      a.Some? ==> a.value.addr != ZERO
  }

  lemma {:induction false} RemovedSourced(rows: seq<Row>, iff: string)
    requires Sourced(rows)
    ensures Sourced(Removed(rows, iff))
  {
    if rows != [] {
      RemovedSourced(rows[1..], iff);
    }
  }

  lemma {:induction false} StaysSourced(env: Env, s: State, ops: seq<Op>, n: nat)
    requires n <= |ops| && Sourced(s.rows) && SetsSources(env, ops)
    ensures Sourced(Run(env, s, ops, n).rows)
  {
    if n > 0 {
      StaysSourced(env, s, ops, n - 1);
      var at := Run(env, s, ops, n - 1);
      if ops[n - 1].IfDel? {
        RemovedSourced(at.rows, ops[n - 1].iff);
      }
    }
  }

  lemma SourcedIsOneHop(env: Env, rows: seq<Row>)
    requires Sourced(rows)
    ensures OneHop(env, rows)
  {
    forall key: Key, gw: string ensures !ViaGateway(env, rows, key, gw) {
      var o := Choose(env, rows, key.dst, key.dev);
      if o.Found? {
        var i, local := ChoosesLongestMatch(env, rows, key.dst, key.dev, env.target(key.dst).value);
      }
    }
  }

  /** With a source in every row, the memo never lies, over every run with interface changes. */
  lemma SourcedRunsTruthful(env: Env, rows: seq<Row>, ops: seq<Op>)
    requires Sourced(rows) && SetsSources(env, ops)
    ensures Truthful(env, State(rows, map[]), ops)
  {
    var s := State(rows, map[]);
    forall m: nat | m < |ops| ensures OneHop(env, Run(env, s, ops, m).rows) {
      StaysSourced(env, s, ops, m);
      SourcedIsOneHop(env, Run(env, s, ops, m).rows);
    }
    EveryRunTruthful(env, s, ops);
  }
}
