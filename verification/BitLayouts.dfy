/** Layouts made of several groups, and the layouts the class documentation shows. */
module BitLayouts {
  import opened Bytes
  import opened Bits
  import opened BitFields
  import opened BitGroups

  function Flatten(gs: seq<seq<BitField>>): seq<BitField> {
    if gs == [] then [] else gs[0] + Flatten(gs[1..])
  }

  predicate WellMarked(gs: seq<seq<BitField>>) {
    forall g :: g in gs ==> Group(g) && Balanced(g)
  }

  lemma {:induction false} DissectAppend(fs: seq<BitField>, gs: seq<BitField>, st: Rest, mid: Rest,
                                         last: Rest, vs: seq<nat>, ws: seq<nat>)
    requires st.Valid() && mid.Valid()
    requires DissectAll(fs, st) == All(mid, vs) && DissectAll(gs, mid) == All(last, ws)
    ensures DissectAll(fs + gs, st) == All(last, vs + ws)
  {
    NothingFirst(gs);
    NothingFirst(ws);
    if fs != [] {
      var got, both := GetField(fs[0], st), fs + gs;
      DissectUncons(fs, st, mid, vs);
      DissectAppend(fs[1..], gs, got.rest, mid, last, vs[1..], ws);
      HeadFirst(fs, gs);
      HeadFirst(vs, ws);
      DissectCons(both, st, got.rest, got.value, All(last, vs[1..] + ws));
    }
  }

  lemma NothingFirst<T>(b: seq<T>)
    ensures [] + b == b
  {}

  lemma HeadFirst<T>(a: seq<T>, b: seq<T>)
    requires a != []
    ensures a + b != [] && (a + b)[0] == a[0] && (a + b)[1..] == a[1..] + b
    ensures a + b == [a[0]] + (a[1..] + b)
  {}

  lemma {:induction false} DissectUncons(fs: seq<BitField>, st: Rest, last: Rest, vs: seq<nat>)
    requires fs != [] && st.Valid() && DissectAll(fs, st) == All(last, vs)
    ensures var got := GetField(fs[0], st);
            got.Got? && vs != [] && vs[0] == got.value && DissectAll(fs[1..], got.rest) == All(last, vs[1..])
  {
    var got := GetField(fs[0], st);
    var tail := DissectAll(fs[1..], got.rest);
    assert vs == [got.value] + tail.values;
    assert vs[1..] == tail.values;
  }

  /** Groups one after the other come back together. */
  lemma {:induction false} LayoutRoundTrips(gs: seq<seq<BitField>>, p: seq<Byte>, vals: seq<int>, suf: seq<Byte>)
    requires WellMarked(gs) && |vals| == |Flatten(gs)|
    ensures Survives(Flatten(gs), p, vals, suf)
  {
    if gs == [] {
      assert p[..|p|] == p && p[|p|..] == [];
      assert [] + suf == suf;
    } else {
      var (g, rest) := (gs[0], Flatten(gs[1..]));
      var (vg, vr) := (vals[..|g|], vals[|g|..]);
      assert vals == vg + vr;
      BuildAppend(g, rest, Whole(p), vg, vr);
      ListBitsAppend(g, rest, vg, vr);
      var q := BuildAll(g, Whole(p), vg).s;
      BalancedSurvives(g, p, vg, []);
      LayoutRoundTrips(gs[1..], q, vr, suf);
      var all := BuildAll(rest, Whole(q), vr).s;
      var tail := all[|q|..] + suf;
      BalancedSurvives(g, p, vg, tail);
      SplitAfter(all, p, q, suf, tail);
      DissectAppend(g, rest, Rest(all[|p|..] + suf, 0), Rest(tail, 0), Rest(suf, 0), Masked(g, vg), Masked(rest, vr));
    }
  }

  lemma {:induction false} SplitAfter(all: seq<Byte>, p: seq<Byte>, q: seq<Byte>, suf: seq<Byte>, tail: seq<Byte>)
    requires |p| <= |q| <= |all| && q[..|p|] == p && all[..|q|] == q && tail == all[|q|..] + suf
    ensures all[..|p|] == p && all[|p|..] + suf == q[|p|..] + tail
  {
    assert all == q + all[|q|..];
  }

  /** The other direction: rebuilding what was dissected gives the same bytes. */
  lemma {:induction false} GroupRebuilds(fs: seq<BitField>, s: seq<Byte>)
    requires Group(fs) && Balanced(fs) && GroupBytes(fs) <= |s|
    ensures var r := DissectAll(fs, Rest(s, 0));
            r.All? && |r.values| == |fs|
            && BuildAll(fs, Whole([]), r.values) == Whole(s[..GroupBytes(fs)])
  {
    var n, s' := GroupBytes(fs), ReverseFirst(s, GroupStart(fs));
    GroupDissect(fs, s);
    var vals := ValuesOf(fs, BytesBits(s'));
    BytesBitsSlice(s', n);
    ValuesOfPrefix(fs, BytesBits(s'));
    PlainBytesOnto(fs, s'[..n]);
    GroupBuild(fs, [], vals);
    ReversalsAgree(s, n, GroupStart(fs));
  }

  lemma {:induction false} ReverseAll(s: seq<Byte>, n: nat)
    requires n == |s|
    ensures ReverseLast(s, n) == Reverse(s)
  {
    assert s[..0] + Reverse(s[0..]) == Reverse(s);
  }

  lemma {:induction false} ReversalsAgree(s: seq<Byte>, n: nat, mark: nat)
    requires n <= |s| && (mark == 1 || mark == n)
    ensures ReverseLast([] + ReverseFirst(s, mark)[..n], mark) == s[..n]
  {
    var w := ReverseFirst(s, mark)[..n];
    NothingFirst(w);
    if mark == n {
      ReverseAll(w, n);
      assert w == Reverse(s[..n]);
    } else {
      ReverseOne(s);
      ReverseOne(w);
    }
  }

  // ----- The documented ways of declaring fields -----

  function Sum(sizes: seq<nat>): nat {
    if sizes == [] then 0 else sizes[0] + Sum(sizes[1..])
  }

  /** Ordinary fields: positive sizes, no totals. */
  function BigEndian(sizes: seq<nat>): (fs: seq<BitField>)
    ensures |fs| == |sizes|
  {
    if sizes == [] then [] else [MakeField(sizes[0], 0, 0)] + BigEndian(sizes[1..])
  }

  lemma {:induction false} BigEndianHasNoMarks(sizes: seq<nat>, off: nat)
    ensures NoEndMarks(BigEndian(sizes), off) && NoStartMarks(BigEndian(sizes), off)
    ensures TotalBits(BigEndian(sizes)) == Sum(sizes)
    ensures forall f :: f in BigEndian(sizes) ==> f.StartMark() == f.EndMark() == 1
  {
    if sizes != [] {
      BigEndianHasNoMarks(sizes[1..], off + sizes[0]);
    }
  }

  lemma {:induction false} NoEndMarksPrefix(fs: seq<BitField>, off: nat, n: nat)
    requires NoEndMarks(fs, off) && n <= |fs|
    ensures NoEndMarks(fs[..n], off)
  {
    if n > 0 {
      NoEndMarksPrefix(fs[1..], off + fs[0].size, n - 1);
      assert fs[..n][1..] == fs[1..][..n - 1];
    }
  }

  /** Ordinary fields that sum to whole bytes always come back. */
  lemma {:induction false} BigEndianRoundTrips(sizes: seq<nat>)
    requires sizes != [] && Sum(sizes) % 8 == 0
    ensures RoundTrips(BigEndian(sizes))
  {
    var fs := BigEndian(sizes);
    BigEndianHasNoMarks(sizes, 0);
    BigEndianHasNoMarks(sizes[1..], sizes[0]);
    NoEndMarksPrefix(fs, 0, |fs| - 1);
    assert fs[1..] == BigEndian(sizes[1..]);
    MarksExact(fs);
  }

  /** The documented little-endian group: total on the first field, end total on the last. */
  function LittleEndian(first: nat, inner: seq<nat>, last: nat, n: nat): seq<BitField> {
    [MakeField(first, 0 - n, 0)] + BigEndian(inner) + [MakeField(last, 0, 0 - n)]
  }

  lemma {:induction false} TotalAppend(fs: seq<BitField>, gs: seq<BitField>)
    ensures TotalBits(fs + gs) == TotalBits(fs) + TotalBits(gs)
  {
    if fs == [] {
      assert fs + gs == gs;
    } else {
      assert (fs + gs)[1..] == fs[1..] + gs;
      TotalAppend(fs[1..], gs);
    }
  }

  lemma {:induction false} NoStartMarksAppend(fs: seq<BitField>, f: BitField, off: nat)
    requires NoStartMarks(fs, off) && (InByte(off + TotalBits(fs)) == 0 ==> f.StartMark() == 1)
    ensures NoStartMarks(fs + [f], off)
  {
    if fs == [] {
      assert fs + [f] == [f];
    } else {
      assert (fs + [f])[1..] == fs[1..] + [f];
      NoStartMarksAppend(fs[1..], f, off + fs[0].size);
    }
  }

  /** Neither the first nor the last field is a number of whole bytes, two or more, by itself. */
  predicate EndsShared(first: nat, inner: seq<nat>, last: nat) {
    (InByte(first) != 0 || first < 16) && (InByte(first + Sum(inner)) != 0 || last < 16)
  }

  lemma MarksAre(size: nat, n: nat)
    ensures var f, l := MakeField(size, 0 - n, 0), MakeField(size, 0, 0 - n);
            && f.size == l.size == size
            && f.StartMark() == l.EndMark() == (if n > 1 then n else 1)
            && (n > 0 ==> f.EndMark() == l.StartMark() == if size >= 16 then size / 8 else 1)
  {}

  lemma {:induction false} LittleEndianRoundTrips(first: nat, inner: seq<nat>, last: nat, n: nat)
    requires n > 0 && first + Sum(inner) + last == 8 * n && EndsShared(first, inner, last)
    ensures RoundTrips(LittleEndian(first, inner, last, n))
  {
    MarksAre(first, n);
    MarksAre(last, n);
    OuterMarksSurvive(MakeField(first, 0 - n, 0), inner, MakeField(last, 0, 0 - n), n);
  }

  lemma {:induction false} OuterMarksSurvive(f: BitField, inner: seq<nat>, l: BitField, n: nat)
    requires f.size + Sum(inner) + l.size == 8 * n && f.StartMark() == l.EndMark() == n
    requires InByte(f.size) == 0 ==> f.EndMark() == 1
    requires InByte(f.size + Sum(inner)) == 0 ==> l.StartMark() == 1
    ensures RoundTrips([f] + BigEndian(inner) + [l])
  {
    var mid := BigEndian(inner);
    var fs := [f] + mid + [l];
    BigEndianHasNoMarks(inner, f.size);
    Middle(f, mid, l);
    TotalAppend(mid, [l]);
    OneTotal(l);
    NoStartMarksAppend(mid, l, f.size);
    Eights(TotalBits(fs), n);
    MarksExact(fs);
  }

  // ----- Why a first or last field of whole bytes does not work: its own size is taken as its other mark -----

  lemma ReversedShows(k: nat, w: seq<Byte>)
    requires k >= 2 && w == OneAt(k, k - 1)
    ensures BitsNum(BytesBits(Reverse(w))) != BitsNum(BytesBits(w))
  {
    var r := Reverse(w);
    assert r[0] == w[k - 1] == 1 && w[0] == 0;
    if BitsNum(BytesBits(r)) == BitsNum(BytesBits(w)) {
      NumBitsOfBitsNum(BytesBits(r));
      NumBitsOfBitsNum(BytesBits(w));
      BytesBitsInjective(r, w);
      assert false;
    }
  }

  /** A field of k bytes that holds w. */
  lemma OneField(f: BitField, k: nat, w: seq<Byte>) returns (v: nat)
    requires f.size == 8 * k == 8 * |w|
    ensures v == BitsNum(BytesBits(w)) && v % Pow2(f.size) == v
    ensures TotalBits([f]) == 8 * k && PlainBytes([f], [v]) == w && ListBits([f], [v]) == BytesBits(w)
  {
    var b := BytesBits(w);
    v := BitsNum(b);
    assert [f][1..] == [];
    assert TotalBits([f]) == f.size;
    assert ValuesOf([f], b) == [v] by {
      assert b[..f.size] == b;
    }
    PlainBytesOnto([f], w);
    BitsNumBound(b);
    BelowPower(v, Pow2(f.size));
  }

  lemma BelowPower(v: nat, p: nat)
    requires v < p
    ensures v % p == v
  {}

  /** What a field reads whose start mark turns its own bytes around. */
  lemma ReadsReversed(f: BitField, k: nat, w: seq<Byte>, tail: seq<Byte>, s: seq<Byte>, v: nat)
    requires f.size == 8 * k == 8 * |w| && k >= 2 && w == OneAt(k, k - 1) && v == BitsNum(BytesBits(w))
    requires f.size <= 8 * |s| && ReverseFirst(s, f.StartMark()) == Reverse(w) + tail
    ensures var r := GetField(f, Rest(s, 0)); r.Got? && r.value != v
  {
    ReadMarked(f, s);
    ReversedShows(k, w);
    var s' := Reverse(w) + tail;
    BytesBitsSlice(s', k);
    assert s'[..k] == Reverse(w);
  }

  /** A list whose first value is read wrong does not survive. */
  lemma FirstValueShows(fs: seq<BitField>, vals: seq<int>, s: seq<Byte>, v: nat)
    requires fs != [] && |vals| == |fs| && BuildAll(fs, Whole([]), vals) == Whole(s) && Masked(fs, vals)[0] == v
    requires GetField(fs[0], Rest(s, 0)).Got? && GetField(fs[0], Rest(s, 0)).value != v
    ensures !Survives(fs, [], vals, [])
  {
    assert s[0..] + [] == s;
    if Survives(fs, [], vals, []) {
      DissectUncons(fs, Rest(s, 0), Rest([], 0), Masked(fs, vals));
      assert false;
    }
  }

  lemma LastValueShows(fs: seq<BitField>, vals: seq<int>, s: seq<Byte>, v: nat)
    requires fs != [] && |vals| == |fs| && BuildAll(fs, Whole([]), vals) == Whole(s) && Masked(fs, vals)[|fs| - 1] == v
    requires var r := DissectAll(fs, Rest(s, 0)); r.All? && |r.values| == |fs| && r.values[|fs| - 1] != v
    ensures !Survives(fs, [], vals, [])
  {
    assert s[0..] + [] == s;
  }

  /** The front is turned around by itself, before the whole is. */
  lemma BuildsTurned(front: seq<BitField>, vs: seq<int>, w: seq<Byte>, rest: seq<BitField>, zs: seq<int>)
    requires |vs| == |front| && BuildAll(front, Whole([]), vs) == Whole(Reverse(w))
    requires rest != [] && |zs| == |rest| && TotalBits(rest) % 8 == 0 && NoEndMarks(rest[..|rest| - 1], 0)
    requires GroupEnd(rest) == |w| + GroupBytes(rest)
    ensures BuildAll(front + rest, Whole([]), vs + zs) == Whole(Reverse(Reverse(w) + PlainBytes(rest, zs)))
  {
    GroupBuild(rest, Reverse(w), zs);
    BuildAppend(front, rest, Whole([]), vs, zs);
    ReverseAll(Reverse(w) + PlainBytes(rest, zs), GroupEnd(rest));
  }

  lemma FirstFieldShows(fs: seq<BitField>, f: BitField, rest: seq<BitField>, n: nat, k: nat)
    requires fs == [f] + rest && f.size == 8 * k && f.EndMark() == k >= 2 && f.StartMark() == n
    requires rest != [] && NoEndMarks(rest[..|rest| - 1], 0) && rest[|rest| - 1].EndMark() == n
    requires TotalBits(rest) % 8 == 0 && k + GroupBytes(rest) == n
    ensures !RoundTrips(fs)
  {
    var w, zs := OneAt(k, k - 1), seq(|rest|, _ => 0);
    var v := OneField(f, k, w);
    var tail, vals := PlainBytes(rest, zs), [v] + zs;
    BuildFirst(f, k, w, v);
    BuildsTurned([f], [v], w, rest, zs);
    TurnedReads(f, k, w, tail, v, n);
    MaskedFirst(fs, vals, v);
    FirstValueShows(fs, vals, Reverse(Reverse(w) + tail), v);
    Refutes(fs, vals);
  }

  lemma TurnedReads(f: BitField, k: nat, w: seq<Byte>, tail: seq<Byte>, v: nat, n: nat)
    requires f.size == 8 * k == 8 * |w| && k >= 2 && w == OneAt(k, k - 1) && v == BitsNum(BytesBits(w))
    requires f.StartMark() == n == k + |tail|
    ensures var r := GetField(f, Rest(Reverse(Reverse(w) + tail), 0)); r.Got? && r.value != v
  {
    var whole := Reverse(w) + tail;
    ReverseAllFirst(Reverse(whole), n);
    assert Reverse(Reverse(whole)) == whole;
    ReadsReversed(f, k, w, tail, Reverse(whole), v);
  }

  lemma MaskedFirst(fs: seq<BitField>, vals: seq<int>, v: nat)
    requires fs != [] && |vals| == |fs| && vals[0] == v && v % Pow2(fs[0].size) == v
    ensures Masked(fs, vals)[0] == v
  {}

  lemma MaskedLast(fs: seq<BitField>, l: BitField, vals: seq<int>, v: nat)
    requires |vals| == |fs| && v % Pow2(l.size) == v
    ensures Masked(fs + [l], vals + [v])[|fs|] == v
  {
    ListBitsAppend(fs, [l], vals, [v]);
    MaskedFirst([l], [v], v);
  }

  lemma Refutes(fs: seq<BitField>, vals: seq<int>)
    requires |vals| == |fs| && !Survives(fs, [], vals, [])
    ensures !RoundTrips(fs)
  {}

  lemma BuildFirst(f: BitField, k: nat, w: seq<Byte>, v: nat)
    requires f.EndMark() == k == |w| && TotalBits([f]) == 8 * k && PlainBytes([f], [v]) == w
    ensures BuildAll([f], Whole([]), [v]) == Whole(Reverse(w))
  {
    assert [f][..0] == [];
    GroupBuild([f], [], [v]);
    assert [] + w == w;
    ReverseAll(w, k);
  }

  lemma ReverseAllFirst(s: seq<Byte>, n: nat)
    requires n == |s|
    ensures ReverseFirst(s, n) == Reverse(s)
  {
    assert s[..n] == s && s[n..] == [];
  }

  /** The last field is turned around by itself, after the whole was. */
  lemma LastFieldShows(fs: seq<BitField>, pre: seq<BitField>, l: BitField, n: nat, k: nat)
    requires fs == pre + [l] && l.size == 8 * k && l.StartMark() == k >= 2 && l.EndMark() == n
    requires pre != [] && NoEndMarks(pre, 0) && NoStartMarks(pre[1..], pre[0].size) && pre[0].StartMark() == n
    requires TotalBits(pre) % 8 == 0 && GroupBytes(pre) + k == n
    ensures !RoundTrips(fs)
  {
    var w, zs := OneAt(k, k - 1), seq(|pre|, _ => 0);
    var v := OneField(l, k, w);
    var p := PlainBytes(pre, zs);
    BuildsPlain(fs, pre, l, zs, v, p, w, n);
    LastReadWrong(fs, pre, l, zs, v, p, w, n);
    Refutes(fs, zs + [v]);
  }

  lemma LastReadWrong(fs: seq<BitField>, pre: seq<BitField>, l: BitField, zs: seq<int>, v: nat,
                      p: seq<Byte>, w: seq<Byte>, n: nat)
    requires fs == pre + [l] && l.size == 8 * |w| && l.StartMark() == |w| >= 2 && w == OneAt(|w|, |w| - 1)
    requires pre != [] && NoStartMarks(pre[1..], pre[0].size) && pre[0].StartMark() == n == |p| + |w|
    requires TotalBits(pre) == 8 * |p| && |zs| == |pre| && v == BitsNum(BytesBits(w)) == v % Pow2(l.size)
    requires BuildAll(fs, Whole([]), zs + [v]) == Whole(Reverse(p + w))
    ensures !Survives(fs, [], zs + [v], [])
  {
    LastFieldReads(pre, l, |w|, p, w, v, n);
    MaskedLast(pre, l, zs, v);
    LastValueShows(fs, zs + [v], Reverse(p + w), v);
  }

  lemma BuildsPlain(fs: seq<BitField>, pre: seq<BitField>, l: BitField, zs: seq<int>, v: nat,
                    p: seq<Byte>, w: seq<Byte>, n: nat)
    requires fs == pre + [l] && |zs| == |pre| && NoEndMarks(pre, 0) && l.EndMark() == n == |p| + |w|
    requires BytesBits(p) == ListBits(pre, zs) && ListBits([l], [v]) == BytesBits(w)
    ensures BuildAll(fs, Whole([]), zs + [v]) == Whole(Reverse(p + w))
  {
    ListBitsAppend(pre, [l], zs, [v]);
    assert fs[..|fs| - 1] == pre;
    PlainAppend(fs, zs + [v], p, w);
    GroupBuild(fs, [], zs + [v]);
    assert [] + (p + w) == p + w;
    ReverseAll(p + w, n);
  }

  lemma Eights(x: nat, q: nat)
    requires x == 8 * q
    ensures x % 8 == 0 && x / 8 == q
  {}

  lemma PlainAppend(fs: seq<BitField>, vals: seq<int>, p: seq<Byte>, w: seq<Byte>)
    requires |fs| == |vals| && ListBits(fs, vals) == BytesBits(p) + BytesBits(w)
    ensures TotalBits(fs) % 8 == 0 && PlainBytes(fs, vals) == p + w
  {
    Eights(TotalBits(fs), |p| + |w|);
    BytesBitsConcat(p, w);
    BytesBitsInjective(PlainBytes(fs, vals), p + w);
  }

  lemma LastFieldReads(pre: seq<BitField>, l: BitField, k: nat, p: seq<Byte>, w: seq<Byte>, v: nat, n: nat)
    requires pre != [] && NoStartMarks(pre[1..], pre[0].size) && TotalBits(pre) == 8 * |p| && pre[0].StartMark() == n
    requires l.size == 8 * k == 8 * |w| && l.StartMark() == k >= 2 && w == OneAt(k, k - 1) && n == |p| + k
    requires v == BitsNum(BytesBits(w))
    ensures var r := DissectAll(pre + [l], Rest(Reverse(p + w), 0));
            r.All? && |r.values| == |pre| + 1 && r.values[|pre|] != v
  {
    var vs := FrontReads(pre, p, w, n);
    var last, x := BackReads(l, k, w, v);
    DissectAppend(pre, [l], Rest(Reverse(p + w), 0), Rest(w, 0), last, vs, [x]);
    assert (vs + [x])[|pre|] == x;
  }

  lemma FrontReads(pre: seq<BitField>, p: seq<Byte>, w: seq<Byte>, n: nat) returns (vs: seq<nat>)
    requires pre != [] && NoStartMarks(pre[1..], pre[0].size) && TotalBits(pre) == 8 * |p|
    requires pre[0].StartMark() == n == |p| + |w|
    ensures |vs| == |pre| && DissectAll(pre, Rest(Reverse(p + w), 0)) == All(Rest(w, 0), vs)
  {
    var s, whole := Reverse(p + w), p + w;
    ReverseAllFirst(s, n);
    assert Reverse(s) == whole;
    MarkedDissect(pre, s, BytesBits(whole));
    vs := ValuesOf(pre, BytesBits(whole));
    WholeRest(DissectAll(pre, Rest(s, 0)).rest, whole, |p|);
    assert whole[|p|..] == w;
  }

  lemma BackReads(l: BitField, k: nat, w: seq<Byte>, v: nat) returns (last: Rest, x: nat)
    requires l.size == 8 * k == 8 * |w| && l.StartMark() == k >= 2 && w == OneAt(k, k - 1)
    requires v == BitsNum(BytesBits(w))
    ensures x != v && DissectAll([l], Rest(w, 0)) == All(last, [x])
  {
    TurnedAlone(w, k);
    ReadsReversed(l, k, w, [], w, v);
    var r := GetField(l, Rest(w, 0));
    last, x := r.rest, r.value;
    DissectOne(l, Rest(w, 0), last, x);
  }

  lemma TurnedAlone(w: seq<Byte>, k: nat)
    requires k == |w|
    ensures ReverseFirst(w, k) == Reverse(w) + []
  {
    ReverseAllFirst(w, k);
  }

  lemma DissectOne(l: BitField, st: Rest, last: Rest, x: nat)
    requires st.Valid() && last.Valid() && GetField(l, st) == Got(last, x)
    ensures DissectAll([l], st) == All(last, [x])
  {
    assert [l][1..] == [];
    DissectCons([l], st, last, x, All(last, []));
    assert [x] + [] == [x];
  }

  /**
   * The documented declaration survives exactly when its first and last field do not fill two or
   * more whole bytes of their own: such a field's own size becomes a second mark.
   */
  lemma {:induction false} LittleEndianExactly(first: nat, inner: seq<nat>, last: nat, n: nat)
    requires n > 0 && first + Sum(inner) + last == 8 * n
    ensures RoundTrips(LittleEndian(first, inner, last, n)) <==> EndsShared(first, inner, last)
  {
    if EndsShared(first, inner, last) {
      LittleEndianRoundTrips(first, inner, last, n);
    } else {
      WholeEnd(first, Sum(inner), last, n);
      var f, l := MakeField(first, 0 - n, 0), MakeField(last, 0, 0 - n);
      MarksAre(first, n);
      MarksAre(last, n);
      if InByte(first) == 0 && first >= 16 {
        WholeFirst(f, inner, l, n, first / 8);
      } else {
        WholeLast(f, inner, l, n, last / 8);
      }
    }
  }

  lemma WholeEnd(first: nat, between: nat, last: nat, n: nat)
    requires first + between + last == 8 * n
    ensures InByte(first) == 0 ==> first == 8 * (first / 8)
    ensures InByte(first + between) == 0 ==> last == 8 * (last / 8)
  {
    InByteIs(first);
    InByteIs(first + between);
  }

  lemma WholeFirst(f: BitField, inner: seq<nat>, l: BitField, n: nat, k: nat)
    requires f.size == 8 * k && f.EndMark() == k >= 2 && f.StartMark() == l.EndMark() == n
    requires f.size + Sum(inner) + l.size == 8 * n
    ensures !RoundTrips([f] + BigEndian(inner) + [l])
  {
    var mid := BigEndian(inner);
    var rest := mid + [l];
    BehindFirst(inner, l, n - k);
    Middle(f, mid, l);
    FirstFieldShows([f] + mid + [l], f, rest, n, k);
  }

  lemma BehindFirst(inner: seq<nat>, l: BitField, m: int)
    requires Sum(inner) + l.size == 8 * m
    ensures var mid := BigEndian(inner);
            NoEndMarks(mid, 0) && TotalBits(mid + [l]) % 8 == 0 && GroupBytes(mid + [l]) == m
  {
    BigEndianHasNoMarks(inner, 0);
    TotalAppend(BigEndian(inner), [l]);
    OneTotal(l);
    Eights(TotalBits(BigEndian(inner) + [l]), m);
  }

  lemma Middle<T>(x: T, mid: seq<T>, y: T)
    ensures [x] + mid + [y] == [x] + (mid + [y])
    ensures ([x] + mid)[1..] == mid && (mid + [y])[..|mid|] == mid && ([x] + mid + [y])[1..] == mid + [y]
    ensures ([x] + mid + [y])[..1 + |mid|] == [x] + mid
  {}

  lemma WholeLast(f: BitField, inner: seq<nat>, l: BitField, n: nat, k: nat)
    requires l.size == 8 * k && l.StartMark() == k >= 2 && f.StartMark() == l.EndMark() == n
    requires f.size + Sum(inner) + l.size == 8 * n && (InByte(f.size) == 0 ==> f.EndMark() == 1)
    ensures !RoundTrips([f] + BigEndian(inner) + [l])
  {
    var mid := BigEndian(inner);
    var pre := [f] + mid;
    BigEndianHasNoMarks(inner, f.size);
    TotalAppend([f], mid);
    OneTotal(f);
    Eights(TotalBits(pre), n - k);
    assert pre[1..] == mid;
    LastFieldShows(pre + [l], pre, l, n, k);
  }

  lemma OneTotal(f: BitField)
    ensures TotalBits([f]) == f.size
  {
    assert [f][1..] == [];
  }
}
