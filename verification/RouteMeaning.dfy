/** What lookups and interface changes mean, told by the rows' own fields, bit by bit. */
module RouteMeaning {
  import opened Bytes
  import Bits
  import opened Routes
  import opened RouteMemo

  // ----- The row that answers -----

  /** n agrees with the network on every bit of the mask. */
  predicate Holds(r: Row, n: Word) {
    forall b :: 0 <= b < 32 && r.mask[b] ==> n[b] == r.net[b]
  }

  predicate InUse(r: Row, dev: Option<string>) {
    r.addr != "" && (dev.None? || r.iface == dev.value)
  }

  /** The greater mask, then the lesser metric, then the earlier row. */
  predicate Better(mask: nat, metric: int, i: nat, mask': nat, metric': int, j: nat) {
    mask > mask' || (mask == mask' && (metric < metric' || (metric == metric' && i <= j)))
  }

  lemma {:induction false} HoldsMeans(r: Row, n: Word)
    ensures And(n, r.mask) == And(r.net, r.mask) <==> Holds(r, n)
  {
    if And(n, r.mask) == And(r.net, r.mask) {
      forall b | 0 <= b < 32 && r.mask[b] ensures n[b] == r.net[b] {
        assert And(n, r.mask)[b] == And(r.net, r.mask)[b];
      }
    }
  }

  lemma {:induction false} NotZero(b: seq<bool>)
    ensures Bits.BitsNum(b) != 0 <==> exists i :: 0 <= i < |b| && b[i]
  {
    if b != [] {
      var init := b[..|b| - 1];
      NotZero(init);
      if i :| 0 <= i < |b| && b[i] {
        assert i < |init| ==> init[i];
      }
      if i :| 0 <= i < |init| && init[i] {
        assert b[i];
      }
    }
  }

  /** A row's own address is the destination, which is not zero. */
  predicate OwnAddress(env: Env, r: Row, n: Word) {
    env.number(r.addr) == Some(n) && exists b :: 0 <= b < 32 && n[b]
  }

  /**
   * The answer is that of a row whose network holds the destination, or the loopback interface for a
   * row's own address; that counts as a full mask with metric 1. It is the best of all of them.
   */
  lemma {:induction false} AnswersBest(env: Env, rows: seq<Row>, dst: string, dev: Option<string>, n: Word)
    returns (i: nat, local: bool, mask: nat, metric: int)
    requires env.target(dst) == Some(n) && Choose(env, rows, dst, dev).Found?
    ensures i < |rows| && InUse(rows[i], dev)
    ensures local ==> OwnAddress(env, rows[i], n) && mask == 0xffff_ffff && metric == 1
                      && Choose(env, rows, dst, dev).ans == Answer(env.loopback, rows[i].addr, "0.0.0.0")
    ensures !local ==> Holds(rows[i], n) && mask == Bits.BitsNum(rows[i].mask) && metric == rows[i].metric
                       && Choose(env, rows, dst, dev).ans == Answer(rows[i].iface, rows[i].addr, rows[i].gw)
    ensures forall j: nat :: j < |rows| && InUse(rows[j], dev) && Holds(rows[j], n) ==>
              Better(mask, metric, i, Bits.BitsNum(rows[j].mask), rows[j].metric, j)
    ensures forall j: nat :: j < |rows| && InUse(rows[j], dev) && OwnAddress(env, rows[j], n) ==>
              Better(mask, metric, i, 0xffff_ffff, 1, j)
              && (j == i ==> local || mask > 0xffff_ffff || (mask == 0xffff_ffff && metric < 1))
  {
    i, local := ChoosesLongestMatch(env, rows, dst, dev, n);
    var best := PathOf(env, rows, i, local);
    mask, metric := best.mask, best.metric;
    HoldsMeans(rows[i], n);
    NotZero(n);
    forall j: nat | j < |rows| && InUse(rows[j], dev) && Holds(rows[j], n)
      ensures Better(mask, metric, i, Bits.BitsNum(rows[j].mask), rows[j].metric, j)
    {
      HoldsMeans(rows[j], n);
      assert Applies(env, rows[j], n, dev, false);
      assert (j, false) == (i, local) || Preferred(best, PathOf(env, rows, j, false));
    }
    forall j: nat | j < |rows| && InUse(rows[j], dev) && OwnAddress(env, rows[j], n)
      ensures Better(mask, metric, i, 0xffff_ffff, 1, j)
              && (j == i ==> local || mask > 0xffff_ffff || (mask == 0xffff_ffff && metric < 1))
    {
      assert Applies(env, rows[j], n, dev, true);
      assert (j, true) == (i, local) || Preferred(best, PathOf(env, rows, j, true));
    }
  }

  /** What is answered when no row in use holds the destination or has it as its address. */
  lemma {:induction false} NoRouteAnswer(env: Env, rows: seq<Row>, dst: string, dev: Option<string>, n: Word)
    requires env.target(dst) == Some(n)
    requires forall i: nat :: i < |rows| && InUse(rows[i], dev) ==> env.number(rows[i].addr).Some?
    requires forall i: nat :: i < |rows| && InUse(rows[i], dev) ==>
               !Holds(rows[i], n) && !OwnAddress(env, rows[i], n)
    ensures Choose(env, rows, dst, dev)
         == NoRoute(Answer(if dev.Some? && dev.value != "" then dev.value else env.loopback, "0.0.0.0", "0.0.0.0"))
  {
    NoAnswer(env, rows, dst, dev);
    NotZero(n);
    forall i: nat, l: bool | i < |rows| ensures !Applies(env, rows[i], n, dev, l) {
      HoldsMeans(rows[i], n);
    }
  }

  // ----- The source of a row without one -----

  /**
   * Interface and gateway are those of the row chosen; so is the source, unless it is 0.0.0.0. Then
   * it is the source that the lookup of the gateway gives.
   */
  lemma {:induction false} SourceOfGateway(env: Env, rows: seq<Row>, dst: string, dev: Option<string>, o: Outcome)
    requires o == Choose(env, rows, dst, dev) && o.Found?
    ensures var gw := if o.ans.gw == "" then "0.0.0.0" else o.ans.gw;
            var r, via := LookupReply(env, rows, map[], dst, dev), Choose(env, rows, gw, None);
            && (o.ans.src != "0.0.0.0" ==> r.out == o)
            && (o.ans.src == "0.0.0.0" && !via.Failed? ==>
                  r.out == Found(Answer(o.ans.iface, via.ans.src, o.ans.gw)))
            && (o.ans.src == "0.0.0.0" && via.Failed? ==> r.out == Failed)
            && (r.out.Found? ==> Key(dst, dev) in r.cache && r.cache[Key(dst, dev)] == r.out.ans)
  {}

  /** No destination, or an empty one, is looked up as 0.0.0.0. */
  lemma NoDestination(env: Env, s: State, dev: Option<string>)
    ensures Apply(env, s, Route(None, dev)) == Apply(env, s, Route(Some("0.0.0.0"), dev))
    ensures Apply(env, s, Route(Some(""), dev)) == Apply(env, s, Route(Some("0.0.0.0"), dev))
    ensures Norm(None) == Norm(Some("")) == "0.0.0.0" && forall dst: string :: dst != "" ==> Norm(Some(dst)) == dst
  {}

  // ----- Interface changes -----

  lemma PrefixBits(bits: nat)
    requires bits <= 32
    ensures forall b :: 0 <= b < 32 ==> (Itom(bits)[b] <==> b < bits)
  {}

  lemma {:induction false} GrowsWith(a: nat, b: nat)
    requires a <= b
    ensures Bits.Pow2(a) <= Bits.Pow2(b)
  {
    if a < b {
      GrowsWith(a, b - 1);
    }
  }

  lemma Difference(a: int, b: int, p: int)
    ensures (a - b) * p == a * p - b * p
  {}

  lemma {:induction false} AboveOnes(hi: nat, lo: nat, m: nat)
    requires lo <= hi <= m
    ensures (Bits.Pow2(hi) - Bits.Pow2(lo)) / Bits.Pow2(m) == 0
  {
    GrowsWith(hi, m);
    GrowsWith(lo, hi);
    Bits.DivModUnique(Bits.Pow2(hi) - Bits.Pow2(lo), Bits.Pow2(m), 0, Bits.Pow2(hi) - Bits.Pow2(lo));
  }

  lemma {:induction false} AmongOnes(hi: nat, lo: nat, m: nat)
    requires lo <= m < hi
    ensures (Bits.Pow2(hi) - Bits.Pow2(lo)) / Bits.Pow2(m) == 2 * Bits.Pow2(hi - m - 1) - 1
  {
    var a, p := Bits.Pow2(hi - m), Bits.Pow2(m);
    Bits.Pow2Add(hi - m, m);
    Difference(a, 1, p);
    GrowsWith(lo, m);
    Bits.DivModUnique(Bits.Pow2(hi) - Bits.Pow2(lo), p, a - 1, p - Bits.Pow2(lo));
  }

  lemma {:induction false} BelowOnes(hi: nat, lo: nat, m: nat)
    requires m < lo <= hi
    ensures (Bits.Pow2(hi) - Bits.Pow2(lo)) / Bits.Pow2(m) == 2 * (Bits.Pow2(hi - m - 1) - Bits.Pow2(lo - m - 1))
  {
    var a: int, b: int, p: nat := Bits.Pow2(hi - m), Bits.Pow2(lo - m), Bits.Pow2(m);
    Bits.Pow2Add(hi - m, m);
    Bits.Pow2Add(lo - m, m);
    Difference(a, b, p);
    Exact(Bits.Pow2(hi) - Bits.Pow2(lo), p, a - b);
    Doubles(hi - m);
    Doubles(lo - m);
  }

  lemma Exact(x: int, p: nat, q: int)
    requires p > 0 && x == q * p
    ensures x / p == q
  {
    Bits.DivModUnique(x, p, q, 0);
  }

  lemma Doubles(n: nat)
    requires n > 0
    ensures Bits.Pow2(n) == 2 * Bits.Pow2(n - 1)
  {}

  /** The bit of weight 2^m of a number with ones from bit lo up to below bit hi. */
  lemma {:induction false} BitOfOnes(hi: nat, lo: nat, m: nat)
    requires lo <= hi
    ensures (Bits.Pow2(hi) - Bits.Pow2(lo)) / Bits.Pow2(m) % 2 == (if lo <= m < hi then 1 else 0)
  {
    if m >= hi {
      AboveOnes(hi, lo, m);
    } else if m >= lo {
      AmongOnes(hi, lo, m);
    } else {
      BelowOnes(hi, lo, m);
    }
  }

  /** The mask, bit by bit, is those ones shifted right, for every number of places. */
  lemma {:induction false} MaskIsShift(bits: nat, i: nat)
    requires i < 32
    ensures Itom(bits)[i] <==> (Bits.Pow2(64) - Bits.Pow2(32)) / Bits.Pow2(bits + (31 - i)) % 2 == 1
  {
    BitOfOnes(64, 32, bits + (31 - i));
  }

  /** The network of an address with a prefix: the prefix, and zeros behind it. */
  predicate NetworkOf(r: Row, num: Word, bits: nat) {
    bits <= 32 && forall b :: 0 <= b < 32 ==> (r.mask[b] <==> b < bits) && (r.net[b] <==> b < bits && num[b])
  }

  /** It holds exactly the addresses that share the prefix. */
  lemma {:induction false} NetworkHolds(r: Row, num: Word, bits: nat, n: Word)
    requires NetworkOf(r, num, bits)
    ensures Holds(r, n) <==> n[..bits] == num[..bits]
  {
    if n[..bits] == num[..bits] {
      forall b | 0 <= b < bits ensures n[b] == num[b] {
        assert n[..bits][b] == num[..bits][b];
      }
    }
  }

  /** A changed interface: its rows take the address, and those without a gateway its network. */
  predicate RowChanged(r: Row, r': Row, iff: string, addr: string, num: Word, bits: nat) {
    if r.iface != iff then r' == r
    else
      && r'.iface == r.iface && r'.gw == r.gw && r'.metric == r.metric && r'.addr == addr
      && (if r.gw == "0.0.0.0" then NetworkOf(r', num, bits) else r'.net == r.net && r'.mask == r.mask)
  }

  lemma {:induction false} IfChangeMeans(env: Env, s: State, iff: string, text: string, addr: string, num: Word,
                                         bits: nat)
    requires env.cidr(text) == Some(Cidr(addr, bits)) && env.number(addr) == Some(num) && bits <= 32
    ensures var s' := Apply(env, s, IfChange(iff, text));
            |s'.rows| == |s.rows| && s'.cache == map[]
            && forall i :: 0 <= i < |s.rows| ==> RowChanged(s.rows[i], s'.rows[i], iff, addr, num, bits)
  {
    PrefixBits(bits);
  }

  /** An added interface: one row more, for its network, without a gateway. */
  lemma {:induction false} IfAddMeans(env: Env, s: State, iff: string, text: string, addr: string, num: Word,
                                      bits: nat)
    returns (r: Row)
    requires env.cidr(text) == Some(Cidr(addr, bits)) && env.number(addr) == Some(num) && bits <= 32
    ensures Apply(env, s, IfAdd(iff, text)) == State(s.rows + [r], map[])
    ensures r.iface == iff && r.addr == addr && r.gw == "0.0.0.0" && r.metric == 1 && NetworkOf(r, num, bits)
  {
    r := Row(And(num, Itom(bits)), Itom(bits), ZERO, iff, addr, 1);
    PrefixBits(bits);
  }

  /** These rows of a table, in this order. */
  predicate Picks(rows: seq<Row>, kept: seq<nat>, out: seq<Row>) {
    |kept| == |out| && forall k :: 0 <= k < |kept| ==> kept[k] < |rows| && out[k] == rows[kept[k]]
  }

  predicate InOrder(kept: seq<nat>) {
    forall j, k :: 0 <= j < k < |kept| ==> kept[j] < kept[k]
  }

  /** The places of the rows of other interfaces. */
  function Others(rows: seq<Row>, iff: string): seq<nat> {
    if rows == [] then []
    else (if rows[0].iface == iff then [] else [0]) + Behind(Others(rows[1..], iff))
  }

  function Behind(kept: seq<nat>): (later: seq<nat>)
    ensures |later| == |kept| && forall k :: 0 <= k < |kept| ==> later[k] == kept[k] + 1
  {
    seq(|kept|, k requires 0 <= k < |kept| => kept[k] + 1)
  }

  /** A removed interface: exactly the rows of the others are left, in their order. */
  lemma {:induction false} IfDelMeans(env: Env, s: State, iff: string) returns (kept: seq<nat>)
    ensures var s' := Apply(env, s, IfDel(iff)); Picks(s.rows, kept, s'.rows) && s'.cache == map[]
    ensures forall i: nat :: i in kept <==> i < |s.rows| && s.rows[i].iface != iff
    ensures InOrder(kept)
  {
    kept := Others(s.rows, iff);
    PicksOthers(s.rows, iff);
    OthersInOrder(s.rows, iff);
    forall i: nat ensures i in kept <==> i < |s.rows| && s.rows[i].iface != iff {
      OthersAre(s.rows, iff, i);
    }
  }

  lemma {:induction false} PicksOthers(rows: seq<Row>, iff: string)
    ensures Picks(rows, Others(rows, iff), Removed(rows, iff))
  {
    if rows != [] {
      PicksOthers(rows[1..], iff);
      OthersUnfold(rows, iff, rows[0].iface != iff);
      PicksBehind(rows, Others(rows[1..], iff), Removed(rows[1..], iff), rows[0].iface != iff);
    }
  }

  lemma PicksBehind(rows: seq<Row>, kept: seq<nat>, out: seq<Row>, first: bool)
    requires rows != [] && Picks(rows[1..], kept, out)
    ensures Picks(rows, (if first then [0] else []) + Behind(kept), (if first then [rows[0]] else []) + out)
  {
    assert [] + Behind(kept) == Behind(kept) && [] + out == out;
  }

  lemma {:induction false} OthersInOrder(rows: seq<Row>, iff: string)
    ensures InOrder(Others(rows, iff))
  {
    if rows != [] {
      OthersInOrder(rows[1..], iff);
      assert InOrder(Behind(Others(rows[1..], iff)));
    }
  }

  lemma {:induction false} OthersAre(rows: seq<Row>, iff: string, i: nat)
    ensures i in Others(rows, iff) <==> i < |rows| && rows[i].iface != iff
  {
    if rows != [] {
      OthersUnfold(rows, iff, rows[0].iface != iff);
      InBehind(rows[0].iface != iff, Others(rows[1..], iff), i);
      if i > 0 {
        OthersAre(rows[1..], iff, i - 1);
      }
    }
  }

  lemma OthersUnfold(rows: seq<Row>, iff: string, first: bool)
    requires rows != [] && first == (rows[0].iface != iff)
    ensures Others(rows, iff) == (if first then [0] else []) + Behind(Others(rows[1..], iff))
    ensures Removed(rows, iff) == (if first then [rows[0]] else []) + Removed(rows[1..], iff)
  {
    assert [] + Removed(rows[1..], iff) == Removed(rows[1..], iff);
  }

  lemma InBehind(first: bool, kept: seq<nat>, i: nat)
    ensures i in (if first then [0] else []) + Behind(kept) <==> (i == 0 && first) || (i > 0 && i - 1 in kept)
  {
    if i > 0 && i - 1 in kept {
      var k :| 0 <= k < |kept| && kept[k] == i - 1;
      assert Behind(kept)[k] == i;
    }
  }
}
