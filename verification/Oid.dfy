/**
 * Object identifiers with ranges, such as `1.3.1-4.2.7-9`: the counter that runs through all
 * combinations of the ranged components, and the formula for how many there are.
 */
module Oid {

  /** A ranged component.  A range whose end lies before its start counts as its start alone. */
  datatype Range = Range(lo: int, hi: int)

  function Size(r: Range): (n: nat)
    ensures n > 0
  {
    (if r.hi - r.lo > 0 then r.hi - r.lo else 0) + 1
  }

  predicate Member(r: Range, x: int) {
    r.lo <= x <= r.hi || x == r.lo
  }

  /** One value for every component. */
  predicate Combination(cmpt: seq<Range>, v: seq<int>) {
    |v| == |cmpt| && forall i :: 0 <= i < |v| ==> Member(cmpt[i], v[i])
  }

  /** The number of combinations: the product of the sizes. */
  function IterLen(cmpt: seq<Range>): (n: nat)
    ensures n > 0
  {
    if cmpt == [] then 1
    else
      Positive(Size(cmpt[0]), IterLen(cmpt[1..]));
      Size(cmpt[0]) * IterLen(cmpt[1..])
  }

  lemma Positive(a: nat, b: nat)
    requires a > 0 && b > 0
    ensures a * b > 0
  {}

  /** The number a combination stands for; the first component is the least significant digit. */
  function Rank(cmpt: seq<Range>, v: seq<int>): (n: int)
    requires |v| == |cmpt|
    decreases |cmpt|
  {
    if cmpt == [] then 0 else v[0] - cmpt[0].lo + Size(cmpt[0]) * Rank(cmpt[1..], v[1..])
  }

  lemma OneMore(s: int, a: int)
    ensures s * (a + 1) == s * a + s
  {}

  lemma NotLess(s: int, a: int, b: int)
    requires s > 0 && a <= b
    ensures s * a <= s * b
  {}

  lemma {:induction false} RankBounds(cmpt: seq<Range>, v: seq<int>)
    requires Combination(cmpt, v)
    ensures 0 <= Rank(cmpt, v) < IterLen(cmpt)
    decreases |cmpt|
  {
    if cmpt != [] {
      var s, r, l := Size(cmpt[0]), Rank(cmpt[1..], v[1..]), IterLen(cmpt[1..]);
      assert Member(cmpt[0], v[0]);
      RankBounds(cmpt[1..], v[1..]);
      NotLess(s, 0, r);
      NotLess(s, r + 1, l);
      OneMore(s, r);
    }
  }

  /** `v` comes before `w`: it is smaller in the last component in which they differ. */
  ghost predicate Before(v: seq<int>, w: seq<int>) {
    |v| == |w| && exists i :: 0 <= i < |v| && v[i] < w[i] && v[i + 1..] == w[i + 1..]
  }

  lemma {:induction false} RankOrdersAt(cmpt: seq<Range>, v: seq<int>, w: seq<int>, i: nat)
    requires Combination(cmpt, v) && Combination(cmpt, w)
    requires i < |v| && v[i] < w[i] && v[i + 1..] == w[i + 1..]
    ensures Rank(cmpt, v) < Rank(cmpt, w)
    decreases |cmpt|
  {
    if i > 0 {
      var s, a, b := Size(cmpt[0]), Rank(cmpt[1..], v[1..]), Rank(cmpt[1..], w[1..]);
      assert v[1..][i..] == v[i + 1..] && w[1..][i..] == w[i + 1..];
      RankOrdersAt(cmpt[1..], v[1..], w[1..], i - 1);
      assert Member(cmpt[0], v[0]) && Member(cmpt[0], w[0]);
      NotLess(s, a + 1, b);
      OneMore(s, a);
    }
  }

  /** The numbers follow the order of the combinations. */
  lemma {:induction false} RankOrders(cmpt: seq<Range>, v: seq<int>, w: seq<int>)
    requires Combination(cmpt, v) && Combination(cmpt, w) && Before(v, w)
    ensures Rank(cmpt, v) < Rank(cmpt, w)
  {
    var i :| 0 <= i < |v| && v[i] < w[i] && v[i + 1..] == w[i + 1..];
    RankOrdersAt(cmpt, v, w, i);
  }

  lemma {:induction false} Comparable(v: seq<int>, w: seq<int>)
    requires |v| == |w|
    ensures v == w || Before(v, w) || Before(w, v)
  {
    if v != [] {
      var n := |v| - 1;
      if v[n] == w[n] {
        Comparable(v[..n], w[..n]);
        if Before(v[..n], w[..n]) {
          Extend(v, w);
        } else if Before(w[..n], v[..n]) {
          Extend(w, v);
        } else {
          assert v == v[..n] + [v[n]] && w == w[..n] + [w[n]];
        }
      } else if v[n] < w[n] {
        assert v[n + 1..] == w[n + 1..];
      } else {
        assert w[n + 1..] == v[n + 1..];
      }
    }
  }

  lemma Extend(v: seq<int>, w: seq<int>)
    requires |v| == |w| > 0 && v[|v| - 1] == w[|v| - 1] && Before(v[..|v| - 1], w[..|v| - 1])
    ensures Before(v, w)
  {
    var n := |v| - 1;
    var a, b := v[..n], w[..n];
    var i :| 0 <= i < n && a[i] < b[i] && a[i + 1..] == b[i + 1..];
    assert v[i + 1..] == a[i + 1..] + [v[n]];
    assert w[i + 1..] == b[i + 1..] + [w[n]];
  }

  /** Different combinations have different numbers. */
  lemma {:induction false} RankInjective(cmpt: seq<Range>, v: seq<int>, w: seq<int>)
    requires Combination(cmpt, v) && Combination(cmpt, w) && Rank(cmpt, v) == Rank(cmpt, w)
    ensures v == w
  {
    Comparable(v, w);
    if Before(v, w) {
      RankOrders(cmpt, v, w);
    } else if Before(w, v) {
      RankOrders(cmpt, w, v);
    }
  }

  /** The first `i` components of `v` can not be counted up. */
  predicate Full(cmpt: seq<Range>, v: seq<int>, i: nat)
    requires |v| == |cmpt| && i <= |v|
  {
    forall k :: 0 <= k < i ==> v[k] >= cmpt[k].hi
  }

  /** Resetting the first `i` components, and counting up the next, adds one to the number. */
  lemma {:induction false} Carry(cmpt: seq<Range>, v: seq<int>, w: seq<int>, i: nat)
    requires Combination(cmpt, v) && |w| == |v| && i < |v| && Full(cmpt, v, i)
    requires forall k :: 0 <= k < i ==> w[k] == cmpt[k].lo
    requires w[i] == v[i] + 1 && w[i + 1..] == v[i + 1..]
    ensures Rank(cmpt, w) == Rank(cmpt, v) + 1
    decreases |cmpt|
  {
    if i > 0 {
      assert Member(cmpt[0], v[0]);
      assert v[1..][i..] == v[i + 1..] && w[1..][i..] == w[i + 1..];
      Carry(cmpt[1..], v[1..], w[1..], i - 1);
      OneMore(Size(cmpt[0]), Rank(cmpt[1..], v[1..]));
    }
  }

  /** A combination that can not be counted up anywhere is the last. */
  lemma {:induction false} Last(cmpt: seq<Range>, v: seq<int>)
    requires Combination(cmpt, v) && Full(cmpt, v, |v|)
    ensures Rank(cmpt, v) == IterLen(cmpt) - 1
    decreases |cmpt|
  {
    if cmpt != [] {
      assert Member(cmpt[0], v[0]);
      Last(cmpt[1..], v[1..]);
      OneMore(Size(cmpt[0]), Rank(cmpt[1..], v[1..]));
    }
  }

  lemma {:induction false} First(cmpt: seq<Range>, v: seq<int>)
    requires |v| == |cmpt| && forall k :: 0 <= k < |v| ==> v[k] == cmpt[k].lo
    ensures Rank(cmpt, v) == 0
    decreases |cmpt|
  {
    if cmpt != [] {
      First(cmpt[1..], v[1..]);
    }
  }

  /** The n-th entry is the combination of number n. */
  ghost predicate CountsThrough(cmpt: seq<Range>, all: seq<seq<int>>) {
    forall n :: 0 <= n < |all| ==> Combination(cmpt, all[n]) && Rank(cmpt, all[n]) == n
  }

  /** The combinations in the order in which they are yielded. */
  method Iter(cmpt: seq<Range>) returns (all: seq<seq<int>>)
    ensures CountsThrough(cmpt, all) && |all| == IterLen(cmpt)
  {
    var ii := seq(|cmpt|, k requires 0 <= k < |cmpt| => cmpt[k].lo);
    First(cmpt, ii);
    all := [];
    while true
      invariant Combination(cmpt, ii) && Rank(cmpt, ii) == |all|
      invariant CountsThrough(cmpt, all)
      decreases IterLen(cmpt) - |all|
    {
      all := all + [ii];
      ghost var v := ii;
      RankBounds(cmpt, v);
      var i := 0;
      while true
        invariant 0 <= i <= |ii| == |cmpt| && Full(cmpt, v, i)
        invariant forall k :: 0 <= k < i ==> ii[k] == cmpt[k].lo
        invariant ii[i..] == v[i..]
        invariant Combination(cmpt, ii)
        decreases |ii| - i
      {
        if i >= |ii| {
          Last(cmpt, v);
          return;
        }
        assert ii[i] == v[i..][0] == v[i];
        if ii[i] < cmpt[i].hi {
          ii := ii[i := ii[i] + 1];
          assert ii[i + 1..] == v[i..][1..] == v[i + 1..];
          Carry(cmpt, v, ii, i);
          break;
        } else {
          ii := ii[i := cmpt[i].lo];
        }
        assert ii[i + 1..] == v[i..][1..] == v[i + 1..];
        i := i + 1;
      }
    }
  }

  /** What the counter promises: every combination once, and in order. */
  lemma {:induction false} EveryCombinationOnce(cmpt: seq<Range>, all: seq<seq<int>>)
    requires CountsThrough(cmpt, all) && |all| == IterLen(cmpt)
    ensures forall v: seq<int> :: v in all <==> Combination(cmpt, v)
    ensures forall m, n :: 0 <= m < n < |all| ==> Before(all[m], all[n]) && all[m] != all[n]
  {
    forall v: seq<int> | Combination(cmpt, v) ensures v in all {
      RankBounds(cmpt, v);
      RankInjective(cmpt, v, all[Rank(cmpt, v)]);
    }
    forall m, n | 0 <= m < n < |all| ensures Before(all[m], all[n]) && all[m] != all[n] {
      Comparable(all[m], all[n]);
      if Before(all[n], all[m]) {
        RankOrders(cmpt, all[n], all[m]);
      }
    }
  }

  /** Without ranges there is one combination, and an inverted range adds none. */
  lemma InvertedRangeCountsOnce(cmpt: seq<Range>, r: Range)
    requires r.hi <= r.lo
    ensures IterLen([]) == 1 && IterLen([r] + cmpt) == IterLen(cmpt)
  {
    assert ([r] + cmpt)[1..] == cmpt;
  }
}
