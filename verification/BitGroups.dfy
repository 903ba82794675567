/**
 * Whole lists of bit fields: what `addfield` over the values and then `getfield`
 * over the bytes give back, and exactly which little-endian marks allow it.
 */
module BitGroups {
  import opened Bytes
  import opened Bits
  import opened BitFields

  ghost function BuildAll(fs: seq<BitField>, st: Built, vals: seq<int>): (r: Built)
    requires st.Valid() && |fs| == |vals|
    ensures r.Valid()
  {
    if fs == [] then st else BuildAll(fs[1..], AddField(fs[0], st, vals[0]), vals[1..])
  }

  datatype Readings = Underflow | All(rest: Rest, values: seq<nat>)

  function DissectAll(fs: seq<BitField>, st: Rest): (r: Readings)
    requires st.Valid()
    ensures r.All? ==> r.rest.Valid()
  {
    if fs == [] then All(st, [])
    else
      match GetField(fs[0], st)
      case Short => Underflow
      case Got(rest, v) =>
        match DissectAll(fs[1..], rest)
        case Underflow => Underflow
        case All(last, vs) => All(last, [v] + vs)
  }

  function TotalBits(fs: seq<BitField>): nat {
    if fs == [] then 0 else fs[0].size + TotalBits(fs[1..])
  }

  /** The fields' values, masked to their sizes and laid out one after the other. */
  function ListBits(fs: seq<BitField>, vals: seq<int>): (b: seq<bool>)
    requires |fs| == |vals|
    ensures |b| == TotalBits(fs)
  {
    if fs == [] then [] else FieldBits(fs[0], vals[0]) + ListBits(fs[1..], vals[1..])
  }

  function Masked(fs: seq<BitField>, vals: seq<int>): (m: seq<nat>)
    requires |fs| == |vals|
    ensures |m| == |fs|
  {
    if fs == [] then [] else [vals[0] % Pow2(fs[0].size)] + Masked(fs[1..], vals[1..])
  }

  /** Reading a bit string field by field. */
  function ValuesOf(fs: seq<BitField>, b: seq<bool>): (vs: seq<nat>)
    requires TotalBits(fs) <= |b|
    ensures |vs| == |fs|
  {
    if fs == [] then [] else [BitsNum(b[..fs[0].size])] + ValuesOf(fs[1..], b[fs[0].size..])
  }

  lemma {:induction false} ValuesOfListBits(fs: seq<BitField>, vals: seq<int>, tail: seq<bool>)
    requires |fs| == |vals|
    ensures ValuesOf(fs, ListBits(fs, vals) + tail) == Masked(fs, vals)
  {
    if fs != [] {
      var n, b := fs[0].size, ListBits(fs, vals) + tail;
      assert b[..n] == FieldBits(fs[0], vals[0]);
      assert b[n..] == ListBits(fs[1..], vals[1..]) + tail;
      MaskIsIdempotent(vals[0], n);
      ValuesOfListBits(fs[1..], vals[1..], tail);
    }
  }

  lemma {:induction false} MaskIsIdempotent(val: int, n: nat)
    ensures BitsNum(NumBits(val % Pow2(n), n)) == val % Pow2(n)
  {
    BitsNumOfSmall(val % Pow2(n), n);
  }

  lemma {:induction false} ListBitsOfValues(fs: seq<BitField>, b: seq<bool>)
    requires TotalBits(fs) == |b|
    ensures ListBits(fs, ValuesOf(fs, b)) == b
  {
    if fs != [] {
      var n := fs[0].size;
      FieldOfValue(fs[0], b[..n]);
      ListBitsOfValues(fs[1..], b[n..]);
      ListBitsCons(fs, BitsNum(b[..n]), ValuesOf(fs[1..], b[n..]));
      Halves(b, n);
    }
  }

  lemma {:induction false} FieldOfValue(f: BitField, b: seq<bool>)
    requires |b| == f.size
    ensures FieldBits(f, BitsNum(b)) == b
  {
    BitsNumBound(b);
    DivModUnique(BitsNum(b), Pow2(|b|), 0, BitsNum(b));
    NumBitsOfBitsNum(b);
  }

  lemma ListBitsCons(fs: seq<BitField>, v: int, vs: seq<int>)
    requires fs != [] && |vs| == |fs| - 1
    ensures ListBits(fs, [v] + vs) == FieldBits(fs[0], v) + ListBits(fs[1..], vs)
  {
    assert ([v] + vs)[1..] == vs;
  }

  lemma Halves<T>(s: seq<T>, n: nat)
    requires n <= |s|
    ensures s == s[..n] + s[n..]
  {}

  // ----- Lists without effective marks -----

  /** How far into its byte the bit at this offset is. */
  function InByte(off: nat): (k: nat)
    ensures k < 8
  {
    if off < 8 then off else InByte(off - 8)
  }

  lemma {:induction false} InByteIs(off: nat)
    ensures InByte(off) == off % 8
  {
    if off >= 8 {
      InByteIs(off - 8);
    }
  }

  lemma {:induction false} Carry(off: nat, n: nat, used: nat, used': nat, k: int)
    requires InByte(off) == used && used' < 8 && used + n == 8 * k + used'
    ensures InByte(off + n) == used'
  {
    InByteIs(off);
    InByteIs(off + n);
    DivModUnique(off + n, 8, off / 8 + k, used');
  }

  /** No field that ends on a byte boundary asks the builder to reverse. */
  predicate NoEndMarks(fs: seq<BitField>, off: nat) {
    fs != [] ==>
      && (InByte(off + fs[0].size) == 0 ==> fs[0].EndMark() == 1)
      && NoEndMarks(fs[1..], off + fs[0].size)
  }

  /** No field that starts on a byte boundary asks the dissector to reverse. */
  predicate NoStartMarks(fs: seq<BitField>, off: nat) {
    fs != [] ==>
      && (InByte(off) == 0 ==> fs[0].StartMark() == 1)
      && NoStartMarks(fs[1..], off + fs[0].size)
  }

  lemma {:induction false} PlainBuild(fs: seq<BitField>, st: Built, vals: seq<int>, off: nat)
    requires st.Valid() && |fs| == |vals| && InByte(off) == st.bitsdone && NoEndMarks(fs, off)
    ensures BuildAll(fs, st, vals).Bits() == st.Bits() + ListBits(fs, vals)
  {
    if fs == [] {
      assert st.Bits() + [] == st.Bits();
    } else {
      var head, tail := FieldBits(fs[0], vals[0]), ListBits(fs[1..], vals[1..]);
      var next := AddField(fs[0], st, vals[0]);
      Carry(off, fs[0].size, st.bitsdone, next.bitsdone, |next.s| - |st.s|);
      PlainBuild(fs[1..], next, vals[1..], off + fs[0].size);
      Regroup(st.Bits(), head, tail);
    }
  }

  lemma {:induction false} SkipBits(s: seq<Byte>, n: nat)
    requires n <= 8 * |s|
    ensures Skip(s, n).Bits() == BytesBits(s)[n..]
  {
    if n >= 8 {
      SkipBits(s[1..], n - 8);
      BytesBitsSlice(s, 1);
      assert BytesBits(s)[8..][n - 8..] == BytesBits(s)[n..];
    }
  }

  lemma {:induction false} ReadPlain(f: BitField, st: Rest, b: seq<bool>)
    requires st.Valid() && b == st.Bits() && f.size <= |b| && (st.bn == 0 ==> f.StartMark() == 1)
    ensures var r := GetField(f, st);
            r.Got? && r.value == BitsNum(b[..f.size]) && r.rest.Bits() == b[f.size..]
  {
    var n, all := st.bn + f.size, BytesBits(st.s);
    assert GetField(f, st) == Got(Skip(st.s, n), BitsNum(all[st.bn..n]));
    assert all[st.bn..n] == b[..f.size];
    assert Skip(st.s, n).Bits() == b[f.size..] by {
      SkipBits(st.s, n);
      assert all[n..] == b[f.size..];
    }
  }

  lemma {:induction false} ReadCarry(f: BitField, st: Rest, off: nat)
    requires st.Valid() && InByte(off) == st.bn
    ensures var r := GetField(f, st); r.Got? ==> r.rest.bn == InByte(off + f.size)
  {
    var r := GetField(f, st);
    if r.Got? {
      Carry(off, f.size, st.bn, r.rest.bn, |st.s| - |r.rest.s|);
    }
  }

  /** One field, then the others from where it leaves off. */
  lemma DissectCons(fs: seq<BitField>, st: Rest, mid: Rest, v: nat, r: Readings)
    requires fs != [] && st.Valid() && mid.Valid()
    requires GetField(fs[0], st) == Got(mid, v) && DissectAll(fs[1..], mid) == r && r.All?
    ensures DissectAll(fs, st) == All(r.rest, [v] + r.values)
  {}

  lemma DropTwice<T>(s: seq<T>, i: nat, j: nat)
    requires i + j <= |s|
    ensures s[i..][j..] == s[i + j..]
  {}

  /** The same, for fields that are read off the bits b. */
  lemma {:induction false} DissectStep(fs: seq<BitField>, st: Rest, mid: Rest, b: seq<bool>, n: nat, r: Readings)
    requires fs != [] && st.Valid() && mid.Valid() && n == fs[0].size && TotalBits(fs) <= |b|
    requires GetField(fs[0], st) == Got(mid, BitsNum(b[..n])) && r == DissectAll(fs[1..], mid) && r.All?
    requires r.rest.Bits() == b[n..][TotalBits(fs[1..])..] && r.values == ValuesOf(fs[1..], b[n..])
    ensures DissectAll(fs, st) == All(r.rest, ValuesOf(fs, b)) && r.rest.Bits() == b[TotalBits(fs)..]
  {
    DissectCons(fs, st, mid, BitsNum(b[..n]), r);
    DropTwice(b, n, TotalBits(fs[1..]));
  }

  lemma {:induction false} PlainDissect(fs: seq<BitField>, st: Rest, off: nat, b: seq<bool>)
    requires st.Valid() && b == st.Bits() && TotalBits(fs) <= |b| && InByte(off) == st.bn && NoStartMarks(fs, off)
    ensures var r := DissectAll(fs, st);
            r.All? && r.rest.Bits() == b[TotalBits(fs)..] && r.values == ValuesOf(fs, b)
  {
    if fs != [] {
      ReadPlain(fs[0], st, b);
      ReadCarry(fs[0], st, off);
      var n, mid := fs[0].size, GetField(fs[0], st).rest;
      PlainDissect(fs[1..], mid, off + n, b[n..]);
      DissectStep(fs, st, mid, b, n, DissectAll(fs[1..], mid));
    }
  }

  // ----- Groups -----

  /** Whole bytes, with marks only where the group starts and ends. */
  predicate Group(fs: seq<BitField>) {
    fs != [] && TotalBits(fs) % 8 == 0 && NoEndMarks(fs[..|fs| - 1], 0) && NoStartMarks(fs[1..], fs[0].size)
  }

  function GroupBytes(fs: seq<BitField>): nat {
    TotalBits(fs) / 8
  }

  function GroupStart(fs: seq<BitField>): nat
    requires fs != []
  {
    fs[0].StartMark()
  }

  function GroupEnd(fs: seq<BitField>): nat
    requires fs != []
  {
    fs[|fs| - 1].EndMark()
  }

  lemma {:induction false} BuildAppend(fs: seq<BitField>, gs: seq<BitField>, st: Built, vals: seq<int>, ws: seq<int>)
    requires st.Valid() && |fs| == |vals| && |gs| == |ws|
    ensures BuildAll(fs + gs, st, vals + ws) == BuildAll(gs, BuildAll(fs, st, vals), ws)
  {
    if fs == [] {
      assert fs + gs == gs && vals + ws == ws;
    } else {
      assert (fs + gs)[1..] == fs[1..] + gs && (vals + ws)[1..] == vals[1..] + ws;
      BuildAppend(fs[1..], gs, AddField(fs[0], st, vals[0]), vals[1..], ws);
    }
  }

  lemma {:induction false} ListBitsAppend(fs: seq<BitField>, gs: seq<BitField>, vals: seq<int>, ws: seq<int>)
    requires |fs| == |vals| && |gs| == |ws|
    ensures ListBits(fs + gs, vals + ws) == ListBits(fs, vals) + ListBits(gs, ws)
    ensures TotalBits(fs + gs) == TotalBits(fs) + TotalBits(gs)
    ensures Masked(fs + gs, vals + ws) == Masked(fs, vals) + Masked(gs, ws)
  {
    if fs == [] {
      assert fs + gs == gs && vals + ws == ws;
    } else {
      var rest, vs := fs[1..], vals[1..];
      assert (fs + gs)[1..] == rest + gs && (vals + ws)[1..] == vs + ws;
      ListBitsAppend(rest, gs, vs, ws);
      Regroup(FieldBits(fs[0], vals[0]), ListBits(rest, vs), ListBits(gs, ws));
      Regroup([vals[0] % Pow2(fs[0].size)], Masked(rest, vs), Masked(gs, ws));
    }
  }

  /** The plain layout of the group, before any reversal. */
  function PlainBytes(fs: seq<BitField>, vals: seq<int>): (w: seq<Byte>)
    requires |fs| == |vals| && TotalBits(fs) % 8 == 0
    ensures |w| == GroupBytes(fs) && BytesBits(w) == ListBits(fs, vals)
  {
    BitsBytes(ListBits(fs, vals))
  }

  /** Only the end marks matter to the builder. */
  lemma {:induction false} GroupBuild(fs: seq<BitField>, p: seq<Byte>, vals: seq<int>)
    requires fs != [] && TotalBits(fs) % 8 == 0 && NoEndMarks(fs[..|fs| - 1], 0) && |fs| == |vals|
    ensures BuildAll(fs, Whole(p), vals) == Whole(ReverseLast(p + PlainBytes(fs, vals), GroupEnd(fs)))
  {
    var n := |fs| - 1;
    var init, vs, last := fs[..n], vals[..n], fs[n];
    WholeBits(p);
    PlainBuild(init, Whole(p), vs, 0);
    BuildLast(fs, Whole(p), vals);
    LastField(last, BuildAll(init, Whole(p), vs), vals[n], p, PlainBytes(fs, vals), ListBits(init, vs));
  }

  lemma {:induction false} WholeBits(s: seq<Byte>)
    ensures Whole(s).Valid() && Whole(s).Bits() == BytesBits(s) == Rest(s, 0).Bits()
  {
    assert BytesBits(s) + [] == BytesBits(s);
    assert BytesBits(s)[0..] == BytesBits(s);
  }

  /** The last field is added to what the others leave. */
  lemma {:induction false} BuildLast(fs: seq<BitField>, st: Built, vals: seq<int>)
    requires fs != [] && |fs| == |vals| && st.Valid()
    ensures var n := |fs| - 1;
            BuildAll(fs, st, vals) == AddField(fs[n], BuildAll(fs[..n], st, vals[..n]), vals[n])
            && ListBits(fs, vals) == ListBits(fs[..n], vals[..n]) + FieldBits(fs[n], vals[n])
  {
    var n := |fs| - 1;
    assert fs == fs[..n] + [fs[n]] && vals == vals[..n] + [vals[n]];
    BuildAppend(fs[..n], [fs[n]], st, vals[..n], [vals[n]]);
    ListBitsAppend(fs[..n], [fs[n]], vals[..n], [vals[n]]);
    assert ListBits([fs[n]], [vals[n]]) == FieldBits(fs[n], vals[n]);
  }

  /** The field that completes the bytes w hands them to its end mark. */
  lemma {:induction false} LastField(f: BitField, st: Built, val: int, p: seq<Byte>, w: seq<Byte>, low: seq<bool>)
    requires st.Valid() && st.Bits() == BytesBits(p) + low && BytesBits(w) == low + FieldBits(f, val)
    ensures AddField(f, st, val) == Whole(ReverseLast(p + w, f.EndMark()))
  {
    CompletesBytes(st.Bits(), FieldBits(f, val), p, w, low);
    ReverseOne(p + w);
  }

  lemma CompletesBytes(a: seq<bool>, field: seq<bool>, p: seq<Byte>, w: seq<Byte>, low: seq<bool>)
    requires a == BytesBits(p) + low && BytesBits(w) == low + field
    ensures FromBits(a + field) == Whole(p + w)
  {
    BytesBitsConcat(p, w);
    Regroup(BytesBits(p), low, field);
    WholeBits(p + w);
    SameBits(FromBits(a + field), Whole(p + w));
  }

  lemma {:induction false} GroupDissect(fs: seq<BitField>, s: seq<Byte>)
    requires Group(fs) && GroupBytes(fs) <= |s|
    ensures var s' := ReverseFirst(s, GroupStart(fs));
            DissectAll(fs, Rest(s, 0)) == All(Rest(s'[GroupBytes(fs)..], 0), ValuesOf(fs, BytesBits(s')))
  {
    var s', k := ReverseFirst(s, GroupStart(fs)), GroupBytes(fs);
    var r := DissectAll(fs, Rest(s, 0));
    assert r.All? && r.rest.Bits() == BytesBits(s')[8 * k..] && r.values == ValuesOf(fs, BytesBits(s')) by {
      MarkedDissect(fs, s, BytesBits(s'));
    }
    WholeRest(r.rest, s', k);
  }

  lemma {:induction false} MarkedDissect(fs: seq<BitField>, s: seq<Byte>, b: seq<bool>)
    requires fs != [] && NoStartMarks(fs[1..], fs[0].size) && TotalBits(fs) <= 8 * |s|
    requires b == BytesBits(ReverseFirst(s, GroupStart(fs)))
    ensures var r := DissectAll(fs, Rest(s, 0));
            r.All? && r.rest.Bits() == b[TotalBits(fs)..] && r.values == ValuesOf(fs, b)
  {
    var n, st := fs[0].size, Rest(s, 0);
    ReadMarked(fs[0], s);
    ReadCarry(fs[0], st, 0);
    var mid := GetField(fs[0], st).rest;
    PlainDissect(fs[1..], mid, n, b[n..]);
    DissectStep(fs, st, mid, b, n, DissectAll(fs[1..], mid));
  }

  /** A field that starts on a byte boundary reads what its start mark puts in front. */
  lemma {:induction false} ReadMarked(f: BitField, s: seq<Byte>)
    requires f.size <= 8 * |s|
    ensures var b, r := BytesBits(ReverseFirst(s, f.StartMark())), GetField(f, Rest(s, 0));
            r.Got? && r.value == BitsNum(b[..f.size]) && r.rest.Bits() == b[f.size..]
  {
    var s' := ReverseFirst(s, f.StartMark());
    AlignedIs(f, s);
    WholeBits(s);
    SkipBits(s', f.size);
    assert GetField(f, Rest(s, 0)) == Got(Skip(s', f.size), BitsNum(BytesBits(s')[0..f.size]));
  }

  lemma AlignedIs(f: BitField, s: seq<Byte>)
    ensures Aligned(f, Rest(s, 0)) == ReverseFirst(s, f.StartMark())
  {
    ReverseOne(s);
  }

  lemma {:induction false} WholeRest(t: Rest, s: seq<Byte>, k: nat)
    requires k <= |s| && t.Valid() && t.Bits() == BytesBits(s)[8 * k..]
    ensures t == Rest(s[k..], 0)
  {
    assert 8 * |t.s| - t.bn == 8 * (|s| - k);
    assert t.bn == 0;
    WholeBits(t.s);
    BytesBitsSlice(s, k);
    BytesBitsInjective(t.s, s[k..]);
  }

  // ----- The exact condition -----

  /** The two marks agree, and cover the group's own bytes or nothing. */
  predicate Balanced(fs: seq<BitField>)
    requires fs != []
  {
    GroupStart(fs) == GroupEnd(fs) && (GroupStart(fs) == 1 || GroupStart(fs) == GroupBytes(fs))
  }

  /** Built after p and dissected before suf, the values come back and p and suf are as they were. */
  ghost predicate Survives(fs: seq<BitField>, p: seq<Byte>, vals: seq<int>, suf: seq<Byte>)
    requires |fs| == |vals|
  {
    var b := BuildAll(fs, Whole(p), vals);
    b == Whole(b.s) && |p| <= |b.s| && b.s[..|p|] == p &&
    DissectAll(fs, Rest(b.s[|p|..] + suf, 0)) == All(Rest(suf, 0), Masked(fs, vals))
  }

  ghost predicate RoundTrips(fs: seq<BitField>) {
    forall p, vals, suf :: |vals| == |fs| ==> Survives(fs, p, vals, suf)
  }

  lemma {:induction false} ReversalsCancel(w: seq<Byte>, p: seq<Byte>, suf: seq<Byte>, n: nat)
    requires n == 1 || n == |w|
    ensures ReverseLast(p + w, n)[..|p|] == p
    ensures ReverseFirst(ReverseLast(p + w, n)[|p|..] + suf, n) == w + suf
  {
    if n == |w| {
      assert (p + w)[|p|..] == w && (p + w)[..|p|] == p;
      assert (Reverse(w) + suf)[..n] == Reverse(w);
      assert Reverse(Reverse(w)) == w;
    } else {
      ReverseOne(p + w);
      ReverseOne(w + suf);
    }
  }

  lemma {:induction false} BalancedSurvives(fs: seq<BitField>, p: seq<Byte>, vals: seq<int>, suf: seq<Byte>)
    requires Group(fs) && Balanced(fs) && |fs| == |vals|
    ensures Survives(fs, p, vals, suf)
  {
    var w, n := PlainBytes(fs, vals), GroupStart(fs);
    GroupBuild(fs, p, vals);
    ReversalsCancel(w, p, suf, n);
    var s := ReverseLast(p + w, n)[|p|..] + suf;
    GroupDissect(fs, s);
    BytesBitsConcat(w, suf);
    ValuesOfListBits(fs, vals, BytesBits(suf));
    assert (w + suf)[GroupBytes(fs)..] == suf;
  }

  /** Every byte string of the group's length is the plain layout of some values. */
  lemma {:induction false} PlainBytesOnto(fs: seq<BitField>, w: seq<Byte>)
    requires TotalBits(fs) == 8 * |w|
    ensures PlainBytes(fs, ValuesOf(fs, BytesBits(w))) == w
  {
    var vals := ValuesOf(fs, BytesBits(w));
    ListBitsOfValues(fs, BytesBits(w));
    BytesBitsInjective(PlainBytes(fs, vals), w);
  }

  /** Survival puts the plain layout and the suffix back where they were. */
  lemma {:induction false} SurvivalUndoesReversals(fs: seq<BitField>, p: seq<Byte>, w: seq<Byte>, suf: seq<Byte>)
    requires Group(fs) && TotalBits(fs) == 8 * |w|
    requires Survives(fs, p, ValuesOf(fs, BytesBits(w)), suf)
    ensures ReverseLast(p + w, GroupEnd(fs))[..|p|] == p
    ensures ReverseFirst(ReverseLast(p + w, GroupEnd(fs))[|p|..] + suf, GroupStart(fs)) == w + suf
  {
    var vals := ValuesOf(fs, BytesBits(w));
    PlainBytesOnto(fs, w);
    GroupBuild(fs, p, vals);
    var s := ReverseLast(p + w, GroupEnd(fs))[|p|..] + suf;
    GroupDissect(fs, s);
    var s' := ReverseFirst(s, GroupStart(fs));
    SameValues(fs, w, s', vals);
    Rejoin(s', |w|, w, suf);
  }

  /** Bytes that read as the values of w start with w. */
  lemma SameValues(fs: seq<BitField>, w: seq<Byte>, s: seq<Byte>, vals: seq<int>)
    requires TotalBits(fs) == 8 * |w| <= 8 * |s| && vals == ValuesOf(fs, BytesBits(w))
    requires ValuesOf(fs, BytesBits(s)) == Masked(fs, vals)
    ensures s[..|w|] == w
  {
    var front := s[..|w|];
    PlainBytesOnto(fs, w);
    ValuesOfListBits(fs, vals, []);
    assert ListBits(fs, vals) + [] == BytesBits(w);
    BytesBitsSlice(s, |w|);
    ValuesOfPrefix(fs, BytesBits(s));
    assert ValuesOf(fs, BytesBits(front)) == vals;
    PlainBytesOnto(fs, front);
  }

  lemma {:induction false} Rejoin(s: seq<Byte>, n: nat, w: seq<Byte>, suf: seq<Byte>)
    requires n <= |s| && s[..n] == w && s[n..] == suf
    ensures s == w + suf
  {
    assert s == s[..n] + s[n..];
  }

  lemma SliceTwice<T>(s: seq<T>, i: nat, k: nat)
    requires i <= k <= |s|
    ensures s[..k][..i] == s[..i] && s[..k][i..] == s[i..][..k - i]
  {}

  lemma {:induction false} ValuesOfPrefix(fs: seq<BitField>, b: seq<bool>)
    requires TotalBits(fs) <= |b|
    ensures ValuesOf(fs, b) == ValuesOf(fs, b[..TotalBits(fs)])
  {
    if fs != [] {
      var n, k := fs[0].size, TotalBits(fs);
      var rest, c := fs[1..], b[..k];
      ValuesOfPrefix(rest, b[n..]);
      SliceTwice(b, n, k);
      assert k - n == TotalBits(rest);
      assert c[n..] == b[n..][..TotalBits(rest)] && c[..n] == b[..n];
    }
  }

  function OneAt(n: nat, k: int): (w: seq<Byte>)
    ensures |w| == n && forall i :: 0 <= i < n ==> w[i] == if i == k then 1 else 0
  {
    seq(n, i => if i == k then 1 else 0)
  }

  /** A surroundings and a value for which the marks of an unbalanced group show. */
  function Culprit(start: nat, end: nat, n: nat): (seq<Byte>, seq<Byte>, seq<Byte>) {
    if end > 1 && end > n then (OneAt(end, n), Zeros(n), [])
    else if start > 1 && start > n then ([], Zeros(n), OneAt(start - n, start - n - 1))
    else if start == 1 || end == n then ([], OneAt(n, n - 1), [])
    else ([], OneAt(n, 0), [])
  }

  /** The end mark reaches into the bytes before the group. */
  lemma EndOutside(end: nat, n: nat)
    requires end > 1 && end > n
    ensures ReverseLast(OneAt(end, n) + Zeros(n), end)[..end] != OneAt(end, n)
  {
    var p, w := OneAt(end, n), Zeros(n);
    assert ReverseLast(p + w, end)[n] == (p + w)[end + n - 1];
  }

  /** The start mark reaches into the bytes behind the group. */
  lemma StartOutside(start: nat, b: seq<Byte>, n: nat)
    requires start > 1 && start > n && |b| == n
    ensures var suf := OneAt(start - n, start - n - 1); ReverseFirst(b + suf, start) != Zeros(n) + suf
  {
    var suf := OneAt(start - n, start - n - 1);
    assert ReverseFirst(b + suf, start)[0] == suf[start - n - 1] == 1;
    assert (Zeros(n) + suf)[0] == 0;
  }

  /** Only the end mark turns bytes around, within the group. */
  lemma EndOnly(end: nat, n: nat)
    requires 1 < end <= n
    ensures ReverseLast(OneAt(n, n - 1), end) != OneAt(n, n - 1)
  {
    assert ReverseLast(OneAt(n, n - 1), end)[n - end] == OneAt(n, n - 1)[n - 1];
  }

  /** The end mark turns all bytes around, the start mark some. */
  lemma StartShort(start: nat, n: nat)
    requires 1 < start < n
    ensures ReverseFirst(ReverseLast(OneAt(n, n - 1), n), start) != OneAt(n, n - 1)
  {
    var b := ReverseLast(OneAt(n, n - 1), n);
    assert b[0] == 1;
    assert ReverseFirst(b, start)[start - 1] == b[0];
  }

  /** The start mark turns the first byte away, and the end mark does not move it. */
  lemma FirstMoves(start: nat, end: nat, n: nat)
    requires 1 < start <= n && 1 <= end < n
    ensures ReverseFirst(ReverseLast(OneAt(n, 0), end), start) != OneAt(n, 0)
  {
    var b := ReverseLast(OneAt(n, 0), end);
    assert b[0] == 1;
    assert ReverseFirst(b, start)[start - 1] == b[0];
  }

  lemma {:induction false} CulpritShows(start: nat, end: nat, n: nat)
    requires start >= 1 && end >= 1 && !(start == end && (start == 1 || start == n))
    ensures var (p, w, suf) := Culprit(start, end, n);
            (ReverseLast(p + w, end)[..|p|] != p
          || ReverseFirst(ReverseLast(p + w, end)[|p|..] + suf, start) != w + suf)
  {
    var (p, w, suf) := Culprit(start, end, n);
    var b := ReverseLast(p + w, end);
    if end > 1 && end > n {
      EndOutside(end, n);
    } else {
      assert [] + w == w && b[0..] == b;
      if start > 1 && start > n {
        StartOutside(start, b, n);
      } else {
        assert b + suf == b && w + suf == w;
        if start == 1 {
          EndOnly(end, n);
          ReverseOne(b);
        } else if end == n {
          StartShort(start, n);
        } else {
          FirstMoves(start, end, n);
        }
      }
    }
  }

  /**
   * A group of fields comes back from the wire, whatever stands around it and
   * whatever its values, exactly when its two marks are balanced.
   */
  lemma {:induction false} MarksExact(fs: seq<BitField>)
    requires Group(fs)
    ensures RoundTrips(fs) <==> Balanced(fs)
  {
    if Balanced(fs) {
      forall p, vals, suf | |vals| == |fs|
        ensures Survives(fs, p, vals, suf)
      {
        BalancedSurvives(fs, p, vals, suf);
      }
    } else {
      var (p, w, suf) := Culprit(GroupStart(fs), GroupEnd(fs), GroupBytes(fs));
      CulpritShows(GroupStart(fs), GroupEnd(fs), GroupBytes(fs));
      if Survives(fs, p, ValuesOf(fs, BytesBits(w)), suf) {
        SurvivalUndoesReversals(fs, p, w, suf);
      }
    }
  }
}
