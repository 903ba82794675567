/** The IPv4 routing table: which row answers a lookup, when the memo is left aside. */
module Routes {
  import opened Bytes
  import Bits

  // ---- The table ----

  const ZERO := "0.0.0.0"

  /** A 32-bit number, most significant bit first. */
  type Word = b: seq<bool> | |b| == 32 witness seq(32, _ => false)

  datatype Row = Row(net: Word, mask: Word, gw: string, iface: string, addr: string, metric: int)

  /** An address with the length of its prefix, as in `10.0.0.1/24`. */
  datatype Cidr = Cidr(addr: string, bits: nat)

  /**
   * How text is read, and the name of the loopback interface: a destination, a plain address, and
   * an address with a prefix length.  `None` stands for the exception that malformed text raises.
   */
  datatype Env = Env(target: string -> Option<Word>, number: string -> Option<Word>,
                     cidr: string -> Option<Cidr>, loopback: string)

  datatype Answer = Answer(iface: string, src: string, gw: string)

  /** Text that can not be read, no row that applies, or an answer. */
  datatype Outcome = Failed | NoRoute(ans: Answer) | Found(ans: Answer)

  datatype Key = Key(dst: string, dev: Option<string>)

  function Norm(dst: Option<string>): (name: string)
    ensures name != ""
  {
    if dst.None? || dst.value == "" then ZERO else dst.value
  }

  /** The network mask with `bits` leading ones; past 32 they are shifted out on the right. */
  function Itom(bits: nat): Word {
    seq(32, i requires 0 <= i < 32 => bits - 32 <= i < bits)
  }

  function And(a: Word, b: Word): Word {
    seq(32, i requires 0 <= i < 32 => a[i] && b[i])
  }

  /** Agreeing under the mask of a prefix is agreeing on the prefix. */
  lemma MaskIsPrefix(p: Word, q: Word, bits: nat)
    requires bits <= 32
    ensures And(p, Itom(bits)) == And(q, Itom(bits)) <==> p[..bits] == q[..bits]
  {
    var a, b := And(p, Itom(bits)), And(q, Itom(bits));
    if a == b {
      forall i | 0 <= i < bits ensures p[i] == q[i] {
        assert a[i] == b[i];
      }
    }
    if p[..bits] == q[..bits] {
      forall i | 0 <= i < 32 ensures a[i] == b[i] {
        assert i < bits ==> p[..bits][i] == q[..bits][i];
      }
    }
  }

  /** With more bits set, the number is greater. */
  lemma {:induction false} MoreBits(a: seq<bool>, b: seq<bool>)
    requires |a| == |b| && forall i :: 0 <= i < |a| && a[i] ==> b[i]
    ensures Bits.BitsNum(a) <= Bits.BitsNum(b) && (Bits.BitsNum(a) == Bits.BitsNum(b) ==> a == b)
    decreases |a|
  {
    if a != [] {
      var n := |a| - 1;
      MoreBits(a[..n], b[..n]);
      assert a == a[..n] + [a[n]] && b == b[..n] + [b[n]];
    }
  }

  /** The longer prefix has the greater mask. */
  lemma MaskOrder(a: nat, b: nat)
    requires a < b <= 32
    ensures Bits.BitsNum(Itom(a)) < Bits.BitsNum(Itom(b))
  {
    MoreBits(Itom(a), Itom(b));
    assert Itom(b)[a] && !Itom(a)[a];
  }

  // ---- Choosing a row ----

  /** A row that applies, as the destination's own address (`local`) or as a network that holds it. */
  datatype Path = Path(row: nat, local: bool, mask: nat, metric: int, ans: Answer)

  predicate Usable(r: Row, dev: Option<string>) {
    r.addr != "" && (dev.None? || r.iface == dev.value)
  }

  function LocalPath(env: Env, rows: seq<Row>, i: nat): Path
    requires i < |rows|
  {
    Path(i, true, 0xffff_ffff, 1, Answer(env.loopback, rows[i].addr, ZERO))
  }

  function NetPath(rows: seq<Row>, i: nat): Path
    requires i < |rows|
  {
    Path(i, false, Bits.BitsNum(rows[i].mask), rows[i].metric, Answer(rows[i].iface, rows[i].addr, rows[i].gw))
  }

  /** What row `i` contributes for destination number `n`. */
  function RowPaths(env: Env, rows: seq<Row>, i: nat, n: Word): seq<Path>
    requires i < |rows|
  {
    (if env.number(rows[i].addr) == Some(n) && Bits.BitsNum(n) != 0 then [LocalPath(env, rows, i)] else []) +
    (if And(n, rows[i].mask) == And(rows[i].net, rows[i].mask) then [NetPath(rows, i)] else [])
  }

  /** The paths of the first `k` rows, unless the address of one of them can not be read. */
  function Paths(env: Env, rows: seq<Row>, k: nat, n: Word, dev: Option<string>): Result<seq<Path>>
    requires k <= |rows|
  {
    if k == 0 then Ok([])
    else
      var before := Paths(env, rows, k - 1, n, dev);
      if before.Err? || !Usable(rows[k - 1], dev) then before
      else if env.number(rows[k - 1].addr).None? then Err
      else Ok(before.value + RowPaths(env, rows, k - 1, n))
  }

  /** The sort key: the greatest mask first, then the least metric. */
  predicate KeyLess(p: Path, q: Path) {
    p.mask > q.mask || (p.mask == q.mask && p.metric < q.metric)
  }

  function Insert(p: Path, ps: seq<Path>): (r: seq<Path>)
    ensures r != []
  {
    if ps == [] || !KeyLess(ps[0], p) then [p] + ps else [ps[0]] + Insert(p, ps[1..])
  }

  /** The stable sort: paths with the same key keep their order. */
  function Sorted(ps: seq<Path>): (r: seq<Path>)
    ensures r == [] <==> ps == []
  {
    if ps == [] then [] else Insert(ps[0], Sorted(ps[1..]))
  }

  /** What the table alone answers. */
  function Choose(env: Env, rows: seq<Row>, dst: string, dev: Option<string>): Outcome {
    var n := env.target(dst);
    if n.None? then Failed
    else
      var paths := Paths(env, rows, |rows|, n.value, dev);
      if paths.Err? then Failed
      else if paths.value == [] then
        NoRoute(Answer(if dev.None? || dev.value == "" then env.loopback else dev.value, ZERO, ZERO))
      else Found(Sorted(paths.value)[0].ans)
  }

  // ---- What is chosen ----

  /** Does the row apply to the destination, in the given way? */
  predicate Applies(env: Env, r: Row, n: Word, dev: Option<string>, local: bool) {
    && Usable(r, dev)
    && if local then env.number(r.addr) == Some(n) && Bits.BitsNum(n) != 0 else And(n, r.mask) == And(r.net, r.mask)
  }

  function PathOf(env: Env, rows: seq<Row>, i: nat, local: bool): Path
    requires i < |rows|
  {
    if local then LocalPath(env, rows, i) else NetPath(rows, i)
  }

  /** Earlier in the table; a row's own address comes before its network. */
  predicate Earlier(p: Path, q: Path) {
    p.row < q.row || (p.row == q.row && p.local && !q.local)
  }

  predicate Preferred(p: Path, q: Path) {
    KeyLess(p, q) || (!KeyLess(q, p) && Earlier(p, q))
  }

  ghost predicate InOrder(ps: seq<Path>) {
    forall a, b :: 0 <= a < b < |ps| ==> Earlier(ps[a], ps[b])
  }

  /** The row's own address, if it is the destination, and the row's network, if it holds it. */
  lemma RowPathsAre(env: Env, rows: seq<Row>, i: nat, n: Word, dev: Option<string>, ps: seq<Path>)
    requires i < |rows| && Usable(rows[i], dev) && ps == RowPaths(env, rows, i, n)
    ensures forall p :: p in ps ==>
              p.row == i && p == PathOf(env, rows, i, p.local) && Applies(env, rows[i], n, dev, p.local)
    ensures forall l: bool :: Applies(env, rows[i], n, dev, l) ==> PathOf(env, rows, i, l) in ps
    ensures InOrder(ps)
  {
    var own := if env.number(rows[i].addr) == Some(n) && Bits.BitsNum(n) != 0 then [LocalPath(env, rows, i)] else [];
    var net := if And(n, rows[i].mask) == And(rows[i].net, rows[i].mask) then [NetPath(rows, i)] else [];
    assert ps == own + net;
    if Applies(env, rows[i], n, dev, true) {
      assert own[0] == PathOf(env, rows, i, true);
      assert own[0] in ps;
    }
    if Applies(env, rows[i], n, dev, false) {
      assert net[0] == PathOf(env, rows, i, false);
      assert net[0] in ps;
    }
  }

  /** The paths are those of the applying rows among the first `k`, in order. */
  ghost predicate Exact(env: Env, rows: seq<Row>, k: nat, n: Word, dev: Option<string>, ps: seq<Path>)
    requires k <= |rows|
  {
    && (forall p :: p in ps ==>
          p.row < k && p == PathOf(env, rows, p.row, p.local) && Applies(env, rows[p.row], n, dev, p.local))
    && (forall i: nat, l: bool :: i < k && Applies(env, rows[i], n, dev, l) ==> PathOf(env, rows, i, l) in ps)
    && InOrder(ps)
  }

  lemma ExactStep(env: Env, rows: seq<Row>, k: nat, n: Word, dev: Option<string>, before: seq<Path>, own: seq<Path>)
    requires k < |rows| && Exact(env, rows, k, n, dev, before)
    requires forall p :: p in own ==>
               p.row == k && p == PathOf(env, rows, k, p.local) && Applies(env, rows[k], n, dev, p.local)
    requires forall l: bool :: Applies(env, rows[k], n, dev, l) ==> PathOf(env, rows, k, l) in own
    requires InOrder(own)
    ensures Exact(env, rows, k + 1, n, dev, before + own)
  {
    var ps := before + own;
    forall a, b | 0 <= a < b < |ps| ensures Earlier(ps[a], ps[b]) {
      if b < |before| {
        assert Earlier(before[a], before[b]);
      } else if a < |before| {
        assert before[a] in before && own[b - |before|] in own;
      } else {
        assert Earlier(own[a - |before|], own[b - |before|]);
      }
    }
    forall i: nat, l: bool | i < k + 1 && Applies(env, rows[i], n, dev, l) ensures PathOf(env, rows, i, l) in ps {
      if i == k {
        assert PathOf(env, rows, k, l) in own;
      } else {
        assert PathOf(env, rows, i, l) in before;
      }
    }
  }

  lemma {:induction false} PathsAre(env: Env, rows: seq<Row>, k: nat, n: Word, dev: Option<string>, ps: seq<Path>)
    requires k <= |rows| && Paths(env, rows, k, n, dev) == Ok(ps)
    ensures Exact(env, rows, k, n, dev, ps)
  {
    if k > 0 {
      var before := Paths(env, rows, k - 1, n, dev).value;
      PathsAre(env, rows, k - 1, n, dev, before);
      if Usable(rows[k - 1], dev) {
        var own := RowPaths(env, rows, k - 1, n);
        RowPathsAre(env, rows, k - 1, n, dev, own);
        ExactStep(env, rows, k - 1, n, dev, before, own);
      }
    }
  }

  lemma PreferredTransitive(p: Path, q: Path, r: Path)
    requires Preferred(p, q) && Preferred(q, r)
    ensures Preferred(p, r)
  {}

  lemma {:induction false} HeadOfSorted(ps: seq<Path>)
    requires ps != [] && InOrder(ps)
    ensures Sorted(ps)[0] in ps
    ensures forall p :: p in ps ==> p == Sorted(ps)[0] || Preferred(Sorted(ps)[0], p)
  {
    var rest := ps[1..];
    assert ps == [ps[0]] + rest;
    if rest != [] {
      HeadOfSorted(rest);
      var h := Sorted(rest)[0];
      assert h in rest;
      forall p | p in ps ensures p == Sorted(ps)[0] || Preferred(Sorted(ps)[0], p) {
        if p != ps[0] {
          assert p in rest;
          if Preferred(ps[0], h) && p != h {
            PreferredTransitive(ps[0], h, p);
          }
        }
      }
    } else {
      assert Sorted(rest) == [];
    }
  }

  /**
   * The answer comes from the applying row with the greatest mask, then the least metric, then the
   * earliest position; there is none exactly when no row applies.
   */
  lemma ChoosesLongestMatch(env: Env, rows: seq<Row>, dst: string, dev: Option<string>, n: Word)
    returns (i: nat, local: bool)
    requires env.target(dst) == Some(n) && Choose(env, rows, dst, dev).Found?
    ensures i < |rows| && Applies(env, rows[i], n, dev, local)
    ensures Choose(env, rows, dst, dev).ans == PathOf(env, rows, i, local).ans
    ensures forall j: nat, l: bool :: j < |rows| && Applies(env, rows[j], n, dev, l) && (j, l) != (i, local) ==>
              Preferred(PathOf(env, rows, i, local), PathOf(env, rows, j, l))
  {
    var ps := Paths(env, rows, |rows|, n, dev).value;
    PathsAre(env, rows, |rows|, n, dev, ps);
    HeadOfSorted(ps);
    var best := Sorted(ps)[0];
    i, local := best.row, best.local;
    forall j: nat, l: bool | j < |rows| && Applies(env, rows[j], n, dev, l) && (j, l) != (i, local)
      ensures Preferred(PathOf(env, rows, i, local), PathOf(env, rows, j, l))
    {
      assert PathOf(env, rows, j, l) in ps;
    }
  }

  lemma NotLonger(env: Env, rows: seq<Row>, dev: Option<string>, n: Word, i: nat, chosen: nat, j: nat, bits: nat)
    requires i < |rows| && rows[i].mask == Itom(chosen) && chosen <= 32
    requires j < |rows| && rows[j].mask == Itom(bits) && bits <= 32
    requires Usable(rows[j], dev) && n[..bits] == rows[j].net[..bits]
    requires forall k: nat, l: bool :: k < |rows| && Applies(env, rows[k], n, dev, l) && (k, l) != (i, false) ==>
               Preferred(PathOf(env, rows, i, false), PathOf(env, rows, k, l))
    ensures bits <= chosen
  {
    MaskIsPrefix(n, rows[j].net, bits);
    assert Applies(env, rows[j], n, dev, false);
    if chosen < bits {
      MaskOrder(chosen, bits);
      assert false;
    }
  }

  /** Row `i` has a prefix of `bits` bits, which `n` shares. */
  predicate Shares(rows: seq<Row>, i: nat, bits: nat, n: Word) {
    i < |rows| && bits <= 32 && rows[i].mask == Itom(bits) && n[..bits] == rows[i].net[..bits]
  }

  /**
   * With masks made from prefix lengths, a lookup that does not find the destination's own address
   * answers from a network that holds it, and no usable row shares a longer prefix with it.
   */
  lemma LongestPrefixWins(env: Env, rows: seq<Row>, dst: string, dev: Option<string>, n: Word,
                          chosen: nat, j: nat, bits: nat)
    returns (i: nat, local: bool)
    requires env.target(dst) == Some(n) && Choose(env, rows, dst, dev).Found?
    requires Shares(rows, j, bits, n) && Usable(rows[j], dev) && chosen <= 32
    ensures i < |rows| && Applies(env, rows[i], n, dev, local)
    ensures Choose(env, rows, dst, dev).ans == PathOf(env, rows, i, local).ans
    ensures !local && rows[i].mask == Itom(chosen) ==> n[..chosen] == rows[i].net[..chosen] && bits <= chosen
  {
    i, local := ChoosesLongestMatch(env, rows, dst, dev, n);
    if !local && rows[i].mask == Itom(chosen) {
      MaskIsPrefix(n, rows[i].net, chosen);
      NotLonger(env, rows, dev, n, i, chosen, j, bits);
    }
  }

  lemma {:induction false} Readable(env: Env, rows: seq<Row>, k: nat, n: Word, dev: Option<string>)
    requires k <= |rows|
    ensures Paths(env, rows, k, n, dev).Err? <==>
            exists i: nat :: i < k && Usable(rows[i], dev) && env.number(rows[i].addr).None?
  {
    if k > 0 {
      Readable(env, rows, k - 1, n, dev);
    }
  }

  /** When there is no answer: nothing applies, or an address that is looked at can not be read. */
  lemma NoAnswer(env: Env, rows: seq<Row>, dst: string, dev: Option<string>)
    ensures Choose(env, rows, dst, dev).Failed? <==>
            env.target(dst).None? ||
            exists i: nat :: i < |rows| && Usable(rows[i], dev) && env.number(rows[i].addr).None?
    ensures !Choose(env, rows, dst, dev).Failed? ==>
              (Choose(env, rows, dst, dev).NoRoute? <==>
               forall i: nat, l: bool :: i < |rows| ==> !Applies(env, rows[i], env.target(dst).value, dev, l))
  {
    if env.target(dst).Some? {
      var n := env.target(dst).value;
      Readable(env, rows, |rows|, n, dev);
      if !Choose(env, rows, dst, dev).Failed? {
        var ps := Paths(env, rows, |rows|, n, dev).value;
        PathsAre(env, rows, |rows|, n, dev, ps);
        if ps != [] {
          assert ps[0] in ps;
        }
      }
    }
  }
}
