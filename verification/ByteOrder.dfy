/** What bit fields put on the wire, as numbers: the byte order that a declaration asks for. */
module ByteOrder {
  import opened Bytes
  import opened Bits
  import opened BitFields
  import opened BitGroups
  import opened BitLayouts
  import opened ByteNumbers

  // ----- Bits and bytes as numbers -----

  lemma {:induction false} NumberOfBits(w: seq<Byte>)
    ensures BitsNum(BytesBits(w)) == FromBytes(w)
  {
    if w != [] {
      var n := |w| - 1;
      NumberOfBits(w[..n]);
      OneByteMore(BytesBits(w[..n]), w[n]);
    }
  }

  lemma {:induction false} OneByteMore(a: seq<bool>, c: Byte)
    ensures BitsNum(a + NumBits(c, 8)) == 256 * BitsNum(a) + c
  {
    BitsNumConcat(a, NumBits(c, 8));
    Pow2Eight();
    BitsNumOfSmall(c, 8);
  }

  lemma {:induction false} PowersAgree(k: nat)
    ensures Pow2(8 * k) == Pow256(k)
  {
    if k > 0 {
      PowersAgree(k - 1);
      Pow2Eight();
      Pow2Add(8, 8 * (k - 1));
    }
  }

  /** What is written is the number modulo 256^k, negative numbers included. */
  lemma {:induction false} WrittenModulo(v: int, k: nat)
    ensures FromBytes(ToBytes(v, k)) == v % Pow256(k)
  {
    var q := NumberOfBytes(v, k);
    FromBytesBound(ToBytes(v, k));
    DivModUnique(v, Pow256(k), q, FromBytes(ToBytes(v, k)));
  }

  lemma DivideTwice(x: int, p: nat)
    requires p > 0
    ensures x / 256 / p == x / (256 * p)
  {
    var q, r := x / 256, x % 256;
    var a, b := q / p, q % p;
    assert x == 256 * (a * p + b) + r;
    Scaled(a, p);
    assert x == a * (256 * p) + (256 * b + r);
    DivModUnique(x, 256 * p, a, 256 * b + r);
  }

  /** The byte at each place, counted from the end. */
  lemma {:induction false} ByteAt(x: int, n: nat, i: nat)
    requires i < n
    ensures ToBytes(x, n)[n - 1 - i] as int == x / Pow256(i) % 256
    decreases n
  {
    if i > 0 {
      ByteAt(x / 256, n - 1, i - 1);
      DivideTwice(x, Pow256(i - 1));
    }
  }

  /** The k bytes of a number, the lowest first. */
  function LittleBytes(v: int, k: nat): (w: seq<Byte>)
    ensures |w| == k
  {
    seq(k, j requires 0 <= j < k => v / Pow256(j) % 256)
  }

  lemma {:induction false} LittleIsReversed(v: int, k: nat)
    ensures LittleBytes(v, k) == Reverse(ToBytes(v, k))
  {
    forall j | 0 <= j < k ensures LittleBytes(v, k)[j] == Reverse(ToBytes(v, k))[j] {
      ByteAt(v, k, j);
    }
  }

  // ----- Groups -----

  /** The number a group stands for: each value, masked to its size, in front of those behind it. */
  function GroupNumber(fs: seq<BitField>, vals: seq<int>): nat
    requires |fs| == |vals|
  {
    if fs == [] then 0
    else vals[0] % Pow2(fs[0].size) * Pow2(TotalBits(fs[1..])) + GroupNumber(fs[1..], vals[1..])
  }

  lemma {:induction false} GroupNumberIs(fs: seq<BitField>, vals: seq<int>)
    requires |fs| == |vals|
    ensures BitsNum(ListBits(fs, vals)) == GroupNumber(fs, vals)
  {
    if fs != [] {
      GroupNumberIs(fs[1..], vals[1..]);
      BitsNumConcat(FieldBits(fs[0], vals[0]), ListBits(fs[1..], vals[1..]));
      MaskIsIdempotent(vals[0], fs[0].size);
    }
  }

  /** Without reversals a group is its number, the highest byte first. */
  lemma {:induction false} PlainIsBigEndian(fs: seq<BitField>, vals: seq<int>)
    requires |fs| == |vals| && TotalBits(fs) % 8 == 0
    ensures PlainBytes(fs, vals) == ToBytes(GroupNumber(fs, vals), GroupBytes(fs))
  {
    var w := PlainBytes(fs, vals);
    NumberOfBits(w);
    GroupNumberIs(fs, vals);
    BytesOfNumber(w);
  }

  /** The documented little-endian group: its number, the lowest byte first, behind whatever was built. */
  lemma {:induction false} GroupOnWire(first: nat, inner: seq<nat>, last: nat, n: nat, p: seq<Byte>, vals: seq<int>)
    requires n > 0 && first + Sum(inner) + last == 8 * n && EndsShared(first, inner, last)
    requires |vals| == |inner| + 2
    ensures var fs := LittleEndian(first, inner, last, n);
            BuildAll(fs, Whole(p), vals) == Whole(p + LittleBytes(GroupNumber(fs, vals), n))
  {
    var fs, f, l := LittleEndian(first, inner, last, n), MakeField(first, 0 - n, 0), MakeField(last, 0, 0 - n);
    MarksAre(first, n);
    MarksAre(last, n);
    LittleEndianShape(f, BigEndian(inner), l, first, inner, n);
    GroupBuild(fs, p, vals);
    PlainIsBigEndian(fs, vals);
    LittleIsReversed(GroupNumber(fs, vals), n);
    ReversesLast(p, PlainBytes(fs, vals), n);
  }

  lemma LittleEndianShape(f: BitField, mid: seq<BitField>, l: BitField, first: nat, inner: seq<nat>, n: nat)
    requires mid == BigEndian(inner) && f.size == first && first + Sum(inner) + l.size == 8 * n
    requires InByte(first) == 0 ==> f.EndMark() == 1
    ensures var fs := [f] + mid + [l];
            NoEndMarks(fs[..|fs| - 1], 0) && TotalBits(fs) % 8 == 0 && GroupBytes(fs) == n
            && |fs| == |inner| + 2 && fs[|fs| - 1] == l
  {
    BigEndianHasNoMarks(inner, first);
    Middle(f, mid, l);
    TotalAppend([f] + mid, [l]);
    TotalAppend([f], mid);
    OneTotal(f);
    OneTotal(l);
    Eights(TotalBits([f] + mid + [l]), n);
    assert ([f] + mid)[1..] == mid;
  }

  lemma ReversesLast(p: seq<Byte>, w: seq<Byte>, n: nat)
    requires |w| == n
    ensures ReverseLast(p + w, if n > 1 then n else 1) == p + Reverse(w)
  {
    if n <= 1 {
      ReverseOne(p + w);
      assert Reverse(w) == w;
    } else {
      assert (p + w)[..|p|] == p && (p + w)[|p|..] == w;
    }
  }

  lemma ReversesFirst(w: seq<Byte>, suf: seq<Byte>, n: nat)
    requires |w| == n
    ensures ReverseFirst(w + suf, if n > 1 then n else 1) == Reverse(w) + suf
  {
    if n <= 1 {
      ReverseOne(w + suf);
      assert Reverse(w) == w;
    } else {
      assert (w + suf)[..n] == w && (w + suf)[n..] == suf;
    }
  }

  // ----- One field of whole bytes -----

  lemma OneField8(f: BitField, k: nat)
    requires f.size == 8 * k
    ensures TotalBits([f]) == 8 * k && GroupBytes([f]) == k && Group([f]) && GroupStart([f]) == f.StartMark()
  {
    OneTotal(f);
    Eights(TotalBits([f]), k);
    assert [f][..0] == [] && [f][1..] == [];
  }

  lemma {:induction false} Builds(f: BitField, k: nat, p: seq<Byte>, v: int)
    requires f.size == 8 * k
    ensures AddField(f, Whole(p), v) == Whole(ReverseLast(p + ToBytes(v, k), f.EndMark()))
  {
    OneField8(f, k);
    GroupBuild([f], p, [v]);
    PlainAlone(f, k, v);
    BuildAlone(f, Whole(p), v);
  }

  lemma {:induction false} PlainAlone(f: BitField, k: nat, v: int)
    requires f.size == 8 * k && TotalBits([f]) == 8 * k && GroupBytes([f]) == k
    ensures PlainBytes([f], [v]) == ToBytes(v, k)
  {
    PlainIsBigEndian([f], [v]);
    NumberAlone(f, v);
    PowersAgree(k);
    WrittenModulo(v, k);
    BytesOfNumber(ToBytes(v, k));
  }

  lemma {:induction false} NumberAlone(f: BitField, v: int)
    ensures GroupNumber([f], [v]) == v % Pow2(f.size)
  {
    assert [f][1..] == [] && [v][1..] == [];
    assert TotalBits([]) == 0 && GroupNumber([], []) == 0;
  }

  lemma BuildAlone(f: BitField, st: Built, v: int)
    requires st.Valid()
    ensures BuildAll([f], st, [v]) == AddField(f, st, v)
  {
    assert [f][1..] == [] && [v][1..] == [];
    assert BuildAll([], AddField(f, st, v), []) == AddField(f, st, v);
  }

  lemma {:induction false} Reads(f: BitField, k: nat, s: seq<Byte>, w: seq<Byte>, suf: seq<Byte>)
    requires f.size == 8 * k == 8 * |w| && ReverseFirst(s, f.StartMark()) == w + suf
    ensures GetField(f, Rest(s, 0)) == Got(Rest(suf, 0), FromBytes(w))
  {
    ReadMarked(f, s);
    BytesBitsSlice(w + suf, k);
    assert (w + suf)[..k] == w && (w + suf)[k..] == suf;
    NumberOfBits(w);
    WholeRest(GetField(f, Rest(s, 0)).rest, w + suf, k);
  }

  /**
   * A field declared with size -8k: behind any bytes it puts the k bytes of the number, the lowest
   * first, and it reads any k bytes as the number with the lowest byte first.
   */
  lemma {:induction false} NegativeSizeIsLittleEndian(k: nat, p: seq<Byte>, v: int, w: seq<Byte>, suf: seq<Byte>)
    requires k >= 1 && |w| == k
    ensures var f := MakeField(-8 * k, 0, 0);
            && AddField(f, Whole(p), v) == Whole(p + LittleBytes(v, k))
            && GetField(f, Rest(w + suf, 0)) == Got(Rest(suf, 0), FromBytes(Reverse(w)))
            && GetField(f, Rest(LittleBytes(v, k) + suf, 0)) == Got(Rest(suf, 0), v % Pow256(k))
  {
    var f, b := MakeField(-8 * k, 0, 0), ToBytes(v, k);
    assert f.size == 8 * k && f.StartMark() == f.EndMark() == if k > 1 then k else 1;
    LittleIsReversed(v, k);
    Builds(f, k, p, v);
    ReversesLast(p, b, k);
    ReversesFirst(w, suf, k);
    Reads(f, k, w + suf, Reverse(w), suf);
    ReversesFirst(Reverse(b), suf, k);
    assert Reverse(Reverse(b)) == b;
    Reads(f, k, Reverse(b) + suf, b, suf);
    WrittenModulo(v, k);
  }

  /** A field declared with size 8k, and totals if any: the same with the highest byte first. */
  lemma {:induction false} PositiveSizeIsBigEndian(k: nat, total: nat, endTotal: nat, p: seq<Byte>, v: int,
                                                   w: seq<Byte>, suf: seq<Byte>)
    requires k >= 1 && |w| == k
    ensures var f := MakeField(8 * k, total, endTotal);
            && AddField(f, Whole(p), v) == Whole(p + ToBytes(v, k))
            && GetField(f, Rest(w + suf, 0)) == Got(Rest(suf, 0), FromBytes(w))
            && GetField(f, Rest(ToBytes(v, k) + suf, 0)) == Got(Rest(suf, 0), v % Pow256(k))
  {
    var f, b := MakeField(8 * k, total, endTotal), ToBytes(v, k);
    assert f.size == 8 * k && f.StartMark() == f.EndMark() == 1;
    Builds(f, k, p, v);
    ReverseOne(p + b);
    ReverseOne(w + suf);
    Reads(f, k, w + suf, w, suf);
    ReverseOne(b + suf);
    Reads(f, k, b + suf, b, suf);
    WrittenModulo(v, k);
  }
}
