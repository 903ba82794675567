/**
 * The origin of a BGP route: the walk over the raw AS_PATH attribute in `analyze_bgp_update`.
 *
 * An AS_PATH is a list of segments, each a type, a count, and that many AS numbers of four bytes
 * (section 4.3 of RFC 4271, section 4.1 of RFC 6793).
 */
module AsPath {
  import opened Bytes
  import opened ByteNumbers

  const AS_SEQUENCE: Byte := 2

  /** An AS number of four bytes. */
  type Asn = n: nat | n < 0x1_0000_0000

  datatype Segment = Segment(kind: Byte, asns: seq<Asn>)

  ghost predicate WellFormed(segs: seq<Segment>) {
    forall k :: 0 <= k < |segs| ==> |segs[k].asns| < 256
  }

  /** The four bytes that read as `n`. */
  ghost function AsnBytes(n: Asn): (b: seq<Byte>)
    ensures |b| == 4 && FromBytes(b) == n
  {
    FourBytes(n);
    var b: seq<Byte> :| |b| == 4 && FromBytes(b) == n;
    b
  }

  ghost function EncodeAsns(asns: seq<Asn>): (b: seq<Byte>)
    ensures |b| == 4 * |asns|
  {
    if asns == [] then [] else EncodeAsns(asns[..|asns| - 1]) + AsnBytes(asns[|asns| - 1])
  }

  ghost function EncodeSegment(seg: Segment): seq<Byte>
    requires |seg.asns| < 256
  {
    [seg.kind, |seg.asns|] + EncodeAsns(seg.asns)
  }

  ghost function Encode(segs: seq<Segment>): seq<Byte>
    requires WellFormed(segs)
  {
    if segs == [] then [] else EncodeSegment(segs[0]) + Encode(segs[1..])
  }

  /** The length that a segment's header announces. */
  function SegmentLen(raw: seq<Byte>): nat
    requires |raw| >= 2
  {
    var count: int := raw[1] as int;
    2 + 4 * count
  }

  /** Too short for another segment: no room for its header, or for the numbers it announces. */
  predicate Incomplete(tail: seq<Byte>) {
    |tail| < 2 || |tail| < SegmentLen(tail)
  }

  /** The segments that `raw` holds, and what is left over at its end. */
  ghost predicate Holds(raw: seq<Byte>, segs: seq<Segment>, tail: seq<Byte>) {
    WellFormed(segs) && Incomplete(tail) && raw == Encode(segs) + tail
  }

  /** The last number of the last non-empty AS_SEQUENCE, or zero. */
  function Origin(segs: seq<Segment>): nat {
    if segs == [] then 0
    else
      var last := segs[|segs| - 1];
      if last.kind == AS_SEQUENCE && last.asns != [] then last.asns[|last.asns| - 1]
      else Origin(segs[..|segs| - 1])
  }

  /** A segment of type 2, an ordered sequence, that names some autonomous system. */
  predicate NamesOrigin(seg: Segment) {
    seg.kind == 2 && seg.asns != []
  }

  /** The origin is the last number of the last such segment, and zero without one. */
  lemma {:induction false} OriginMeans(segs: seq<Segment>, i: nat)
    ensures i < |segs| && NamesOrigin(segs[i]) && (forall j :: i < j < |segs| ==> !NamesOrigin(segs[j])) ==>
              Origin(segs) == segs[i].asns[|segs[i].asns| - 1]
    ensures (forall j :: 0 <= j < |segs| ==> !NamesOrigin(segs[j])) ==> Origin(segs) == 0
  {
    if segs != [] {
      OriginMeans(segs[..|segs| - 1], i);
    }
  }

  // ---- Every byte string is a list of segments and a tail, in one way ----

  lemma FourBytes(n: Asn)
    ensures |ToBytes(n, 4)| == 4 && FromBytes(ToBytes(n, 4)) == n
  {
    assert Pow256(2) == 0x1_0000;
    assert Pow256(4) == 0x1_0000_0000;
    NumberInRange(n, 4);
  }

  lemma FourBytesBound(b: seq<Byte>)
    requires |b| == 4
    ensures FromBytes(b) < 0x1_0000_0000
  {
    assert Pow256(2) == 0x1_0000;
    assert Pow256(4) == 0x1_0000_0000;
    FromBytesBound(b);
  }

  lemma FourBytesBack(b: seq<Byte>)
    requires |b| == 4
    ensures FromBytes(b) < 0x1_0000_0000 && AsnBytes(FromBytes(b)) == b
  {
    FourBytesBound(b);
    var n: Asn := FromBytes(b);
    SameBytes(b, AsnBytes(n));
  }

  lemma {:induction false} SplitAsns(b: seq<Byte>, count: nat) returns (asns: seq<Asn>)
    requires |b| == 4 * count
    ensures |asns| == count && EncodeAsns(asns) == b
  {
    if count == 0 {
      asns := [];
    } else {
      var init, last := b[..4 * (count - 1)], b[4 * (count - 1)..];
      var before := SplitAsns(init, count - 1);
      FourBytesBack(last);
      asns := before + [FromBytes(last)];
      assert asns[..count - 1] == before;
      assert b == init + last;
    }
  }

  lemma {:induction false} SameAsns(a: seq<Asn>, b: seq<Asn>)
    requires |a| == |b| && EncodeAsns(a) == EncodeAsns(b)
    ensures a == b
  {
    if a != [] {
      var n := |a| - 1;
      var x, y := EncodeAsns(a), EncodeAsns(b);
      assert x[..4 * n] == EncodeAsns(a[..n]) && y[..4 * n] == EncodeAsns(b[..n]);
      assert x[4 * n..] == AsnBytes(a[n]) && y[4 * n..] == AsnBytes(b[n]);
      SameAsns(a[..n], b[..n]);
      assert a == a[..n] + [a[n]] && b == b[..n] + [b[n]];
    }
  }

  /** A complete segment at the front of `raw`. */
  lemma FirstSegment(raw: seq<Byte>) returns (seg: Segment)
    requires !Incomplete(raw)
    ensures |seg.asns| == raw[1] as int && seg.kind == raw[0]
    ensures EncodeSegment(seg) == raw[..SegmentLen(raw)]
  {
    var count: int := raw[1] as int;
    var body := raw[2..2 + 4 * count];
    var asns := SplitAsns(body, count);
    seg := Segment(raw[0], asns);
    assert raw[..2 + 4 * count] == [raw[0], raw[1]] + body;
  }

  lemma Front<T>(raw: seq<T>, head: seq<T>, tail: seq<T>)
    requires raw == head + tail
    ensures raw[..|head|] == head && raw[|head|..] == tail
    ensures forall i :: 0 <= i < |head| ==> raw[i] == head[i]
  {}

  /** The type and the count of a segment. */
  lemma Header(seg: Segment)
    requires |seg.asns| < 256
    ensures var b := EncodeSegment(seg);
            |b| == 2 + 4 * |seg.asns| && b[0] == seg.kind && b[1] as int == |seg.asns| && b[2..] == EncodeAsns(seg.asns)
  {}

  lemma {:induction false} HeadSegment(segs: seq<Segment>, tail: seq<Byte>, raw: seq<Byte>)
    requires WellFormed(segs) && segs != [] && raw == Encode(segs) + tail
    ensures var len := 2 + 4 * |segs[0].asns|;
            len <= |raw| && raw[..len] == EncodeSegment(segs[0]) && raw[len..] == Encode(segs[1..]) + tail
    ensures raw[0] == segs[0].kind && raw[1] as int == |segs[0].asns|
    ensures !Incomplete(raw)
  {
    var head, rest := EncodeSegment(segs[0]), Encode(segs[1..]);
    Header(segs[0]);
    Regroup(head, rest, tail);
    Front(raw, head, rest + tail);
  }

  lemma SameSegment(a: Segment, b: Segment, raw: seq<Byte>)
    requires |a.asns| < 256 && |b.asns| < 256 && raw == EncodeSegment(a) == EncodeSegment(b)
    ensures a == b
  {
    Header(a);
    Header(b);
    SameAsns(a.asns, b.asns);
  }

  /** There are no two ways to read the bytes. */
  lemma {:induction false} HoldsUniquely(raw: seq<Byte>, a: seq<Segment>, s: seq<Byte>, b: seq<Segment>, t: seq<Byte>)
    requires Holds(raw, a, s) && Holds(raw, b, t)
    ensures a == b && s == t
    decreases |a|
  {
    assert [] + s == s && [] + t == t;
    if a == [] {
      if b != [] {
        HeadSegment(b, t, raw);
        assert false;
      }
    } else if b == [] {
      HeadSegment(a, s, raw);
      assert false;
    } else {
      HeadSegment(a, s, raw);
      HeadSegment(b, t, raw);
      var len := 2 + 4 * |a[0].asns|;
      SameSegment(a[0], b[0], raw[..len]);
      HoldsUniquely(raw[len..], a[1..], s, b[1..], t);
      assert a == [a[0]] + a[1..] && b == [b[0]] + b[1..];
    }
  }

  lemma {:induction false} EncodeAppend(segs: seq<Segment>, seg: Segment)
    requires WellFormed(segs) && |seg.asns| < 256
    ensures WellFormed(segs + [seg])
    ensures Encode(segs + [seg]) == Encode(segs) + EncodeSegment(seg)
  {
    if segs == [] {
      assert [seg][1..] == [];
    } else {
      EncodeAppend(segs[1..], seg);
      assert (segs + [seg])[1..] == segs[1..] + [seg];
      Regroup(EncodeSegment(segs[0]), Encode(segs[1..]), EncodeSegment(seg));
    }
  }

  /** The bytes of the last number of a segment. */
  lemma LastAsn(seg: Segment, raw: seq<Byte>)
    requires 0 < |seg.asns| < 256 && !Incomplete(raw)
    requires |seg.asns| == raw[1] as int && EncodeSegment(seg) == raw[..SegmentLen(raw)]
    ensures var off := 2 + 4 * (|seg.asns| - 1);
            off + 4 <= |raw| && FromBytes(raw[off..off + 4]) == seg.asns[|seg.asns| - 1]
  {
    var n := |seg.asns| - 1;
    var off := 2 + 4 * n;
    var front := [seg.kind, |seg.asns|] + EncodeAsns(seg.asns[..n]);
    assert EncodeSegment(seg) == front + AsnBytes(seg.asns[n]);
    assert raw[off..off + 4] == raw[..off + 4][off..];
  }

  /** One complete segment further. */
  lemma Advance(raw: seq<Byte>, at: nat, segs: seq<Segment>) returns (seg: Segment)
    requires at <= |raw| && WellFormed(segs) && Encode(segs) == raw[..at] && !Incomplete(raw[at..])
    ensures |seg.asns| == raw[at + 1] as int && seg.kind == raw[at]
    ensures WellFormed(segs + [seg]) && at + 2 + 4 * |seg.asns| <= |raw|
    ensures Encode(segs + [seg]) == raw[..at + 2 + 4 * |seg.asns|]
    ensures seg.asns != [] ==>
              var off := at + 2 + 4 * (|seg.asns| - 1);
              FromBytes(raw[off..off + 4]) == seg.asns[|seg.asns| - 1]
  {
    var here := raw[at..];
    seg := FirstSegment(here);
    EncodeAppend(segs, seg);
    Further(raw, at, SegmentLen(here));
    if seg.asns != [] {
      LastAsn(seg, here);
      Further(raw, at, 2 + 4 * (|seg.asns| - 1));
    }
  }

  /** Indices behind `at` and in the rest from there. */
  lemma Further(raw: seq<Byte>, at: nat, len: nat)
    requires at + len <= |raw|
    ensures raw[..at + len] == raw[..at] + raw[at..][..len]
    ensures at + len + 4 <= |raw| ==> raw[at..][len..len + 4] == raw[at + len..at + len + 4]
  {}

  lemma OriginAppend(segs: seq<Segment>, seg: Segment)
    ensures Origin(segs + [seg])
         == if seg.kind == AS_SEQUENCE && seg.asns != [] then seg.asns[|seg.asns| - 1] else Origin(segs)
  {
    assert (segs + [seg])[..|segs|] == segs;
  }

  /**
   * The walk.  It never reads past the end, and however the bytes are read as segments and a tail,
   * it returns the origin of those segments.
   */
  method Walk(raw: seq<Byte>) returns (origin: nat, ghost segs: seq<Segment>, ghost tail: seq<Byte>)
    ensures Holds(raw, segs, tail)
    ensures forall a: seq<Segment>, s: seq<Byte> :: Holds(raw, a, s) ==> origin == Origin(a)
  {
    origin := 0;
    var offset: nat := 0;
    segs := [];
    ghost var at: nat := 0;
    while offset + 2 <= |raw|
      invariant at <= |raw| && WellFormed(segs) && Encode(segs) == raw[..at]
      invariant origin == Origin(segs)
      invariant offset == at || (offset > |raw| && Incomplete(raw[at..]))
      decreases |raw| - offset
    {
      var kind := raw[offset];
      var count: int := raw[offset + 1] as int;
      var end := offset + 2 + count * 4;
      assert raw[at..][1] == raw[at + 1];
      if kind == AS_SEQUENCE && count > 0 && end <= |raw| {
        var off := offset + 2 + (count - 1) * 4;
        origin := FromBytes(raw[off..off + 4]);
      }
      if end <= |raw| {
        ghost var seg := Advance(raw, at, segs);
        OriginAppend(segs, seg);
        segs := segs + [seg];
        at := end;
      }
      offset := end;
    }
    tail := raw[at..];
    assert raw == raw[..at] + tail;
    assert Holds(raw, segs, tail);
    forall a: seq<Segment>, s: seq<Byte> | Holds(raw, a, s) ensures origin == Origin(a) {
      HoldsUniquely(raw, a, s, segs, tail);
    }
  }
}
