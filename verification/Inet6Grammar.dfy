/**
 * Which texts are read as IPv6 addresses, and as which, told by the groups they are spelled with and
 * the numbers those stand for.
 */
module Inet6Grammar {
  import opened Bytes
  import opened ByteNumbers
  import opened Inet6Groups
  import Inet6
  import opened Inet6Text

  // ----- Groups as numbers -----

  const LOWER := "0123456789abcdef"
  const UPPER := "0123456789ABCDEF"

  /** A digit's value is its place in the list, in either case; no other character has one. */
  lemma DigitsListed(c: char, d: nat)
    ensures HexValue(c) == Some(d) <==> d < |LOWER| && (c == LOWER[d] || c == UPPER[d])
  {}

  /** Printed groups have small letters (section 4.3 of RFC 5952). */
  lemma {:induction false} PrintsSmallLetters(addr: seq<Byte>, i: nat, c: char)
    requires |addr| == 16 && i < 8
    ensures |Inet6.Groups(addr)| == 8
    ensures c in Inet6.Groups(addr)[i] ==> c in LOWER
  {
    GroupsPrinted(addr);
    GroupAt(addr, i, 2 * i);
    var t := Hex4(addr[2 * i], addr[2 * i + 1]);
    StripJust(t);
    if c in Inet6.Groups(addr)[i] {
      SmallDigit(addr[2 * i] / 16);
      SmallDigit(addr[2 * i] % 16);
      SmallDigit(addr[2 * i + 1] / 16);
      SmallDigit(addr[2 * i + 1] % 16);
      SmallDigit(0);
    }
  }

  lemma SmallDigit(d: nat)
    requires d < 16
    ensures HexDigit(d) == LOWER[d] && HexDigit(d) in LOWER
  {}

  predicate IsHex(c: char) {
    HexValue(c).Some?
  }

  predicate AllHex(t: string) {
    forall i :: 0 <= i < |t| ==> IsHex(t[i])
  }

  function Digit(c: char): (d: nat)
    requires IsHex(c)
    ensures d < 16
  {
    HexValue(c).value
  }

  function Pow16(n: nat): nat {
    if n == 0 then 1 else 16 * Pow16(n - 1)
  }

  /** The number that hexadecimal digits stand for: each times a power of sixteen. */
  function Number(t: string): nat
    requires AllHex(t)
  {
    if t == [] then 0 else Digit(t[0]) * Pow16(|t| - 1) + Number(t[1..])
  }

  /** The bytes a group stands for: two for up to four digits, else half as many as there are digits. */
  predicate GroupIs(t: string, b: seq<Byte>) {
    AllHex(t) && FromBytes(b) == Number(t) && (if |t| <= 4 then |b| == 2 else |t| == 2 * |b|)
  }

  lemma {:induction false} Sixteens(k: nat)
    ensures Pow16(2 * k) == Pow256(k)
  {
    if k > 0 {
      Sixteens(k - 1);
      assert Pow16(2 * k) == 16 * (16 * Pow16(2 * k - 2));
    }
  }

  lemma {:induction false} FirstByte(x: Byte, b: seq<Byte>)
    ensures FromBytes([x] + b) == x as int * Pow256(|b|) + FromBytes(b)
  {
    if b == [] {
      assert [x] + b == [x];
    } else {
      var n := |b| - 1;
      assert ([x] + b)[..n + 1] == [x] + b[..n];
      FirstByte(x, b[..n]);
      Weigh(x as int, Pow256(n), FromBytes(b[..n]), b[n] as int);
    }
  }

  lemma Weigh(x: int, p: int, y: int, z: int)
    ensures 256 * (x * p + y) + z == x * (256 * p) + (256 * y + z)
  {}

  lemma PairWeigh(hi: nat, lo: nat, p: nat)
    ensures hi * (16 * p) + lo * p == (16 * hi + lo) * p
  {}

  lemma {:induction false} TwoDigits(t: string)
    requires |t| >= 2 && AllHex(t)
    ensures AllHex(t[2..])
    ensures Number(t) == (16 * Digit(t[0]) + Digit(t[1])) * Pow16(|t| - 2) + Number(t[2..])
  {
    assert t[1..][1..] == t[2..];
    assert Pow16(|t| - 1) == 16 * Pow16(|t| - 2);
    PairWeigh(Digit(t[0]), Digit(t[1]), Pow16(|t| - 2));
  }

  ghost predicate HexForm(t: string, b: Option<seq<Byte>>) {
    && (b.Some? <==> AllHex(t) && |t| % 2 == 0)
    && (b.Some? ==> 2 * |b.value| == |t| && FromBytes(b.value) == Number(t))
  }

  lemma {:induction false} HexBytesForm(t: string)
    ensures HexForm(t, HexBytes(t))
  {
    if |t| >= 2 {
      HexBytesForm(t[2..]);
      HexBytesPair(t, t[2..]);
      HexBytesMore(t, t[2..], HexBytes(t), HexBytes(t[2..]));
    } else if |t| == 1 {
      assert HexBytes(t).None?;
    }
  }

  lemma {:induction false} HexBytesMore(t: string, rest: string, b: Option<seq<Byte>>, c: Option<seq<Byte>>)
    requires |t| >= 2 && rest == t[2..] && HexForm(rest, c)
    requires b.Some? <==> IsHex(t[0]) && IsHex(t[1]) && c.Some?
    requires b.Some? ==> b.value == [16 * Digit(t[0]) + Digit(t[1])] + c.value
    ensures HexForm(t, b)
  {
    RestHex(t);
    if b.Some? {
      NumberOfPair(t, c.value);
    }
  }

  /** The first byte is that of the first two digits. */
  lemma {:induction false} HexBytesPair(t: string, rest: string)
    requires |t| >= 2 && rest == t[2..]
    ensures HexBytes(t).Some? <==> IsHex(t[0]) && IsHex(t[1]) && HexBytes(rest).Some?
    ensures HexBytes(t).Some? ==>
              HexBytes(t).value == [16 * Digit(t[0]) + Digit(t[1])] + HexBytes(rest).value
  {}

  lemma {:induction false} NumberOfPair(t: string, rest: seq<Byte>)
    requires |t| >= 2 && AllHex(t) && AllHex(t[2..])
    requires 2 * |rest| == |t| - 2 && FromBytes(rest) == Number(t[2..])
    ensures FromBytes([16 * Digit(t[0]) + Digit(t[1])] + rest) == Number(t)
  {
    TwoDigits(t);
    FirstByte(16 * Digit(t[0]) + Digit(t[1]), rest);
    Sixteens(|rest|);
  }

  lemma RestHex(t: string)
    requires |t| >= 2
    ensures AllHex(t) <==> IsHex(t[0]) && IsHex(t[1]) && AllHex(t[2..])
  {
    assert forall i :: 2 <= i < |t| ==> t[i] == t[2..][i - 2];
    assert forall i :: 0 <= i < |t[2..]| ==> t[2..][i] == t[i + 2];
  }

  lemma {:induction false} LeadingZero(t: string)
    ensures AllHex(['0'] + t) <==> AllHex(t)
    ensures AllHex(t) ==> Number(['0'] + t) == Number(t)
  {
    var s := ['0'] + t;
    assert s[1..] == t;
    assert forall i :: 0 <= i < |t| ==> s[i + 1] == t[i];
    assert forall i :: 0 < i < |s| ==> s[i] == t[i - 1];
  }

  lemma {:induction false} Padded(n: nat, t: string)
    ensures var s := seq(n, _ => '0') + t;
            (AllHex(s) <==> AllHex(t)) && (AllHex(t) ==> Number(s) == Number(t))
  {
    if n == 0 {
      assert seq(0, _ => '0') + t == t;
    } else {
      Padded(n - 1, t);
      LeadingZero(seq(n - 1, _ => '0') + t);
      assert seq(n, _ => '0') + t == ['0'] + (seq(n - 1, _ => '0') + t);
    }
  }

  /** A group is read exactly when its characters are digits and it is short or of even length. */
  lemma {:induction false} GroupMeans(t: string, b: seq<Byte>)
    ensures HexBytes(RightJust(t)) == Some(b) <==> GroupIs(t, b)
  {
    var s := RightJust(t);
    if |t| < 4 {
      Padded(4 - |t|, t);
    }
    HexBytesForm(s);
    if GroupIs(t, b) {
      assert 2 * |b| == |s|;
      SameBytes(b, HexBytes(s).value);
    }
  }

  // ----- Parts -----

  /** A part is a group of digits, or at the end of the text an IPv4 address with three dots. */
  predicate PartReads(t: string, last: bool, b: seq<Byte>, aton: Aton) {
    if last && '.' in t then multiset(t)['.'] == 3 && aton(t) == Some(b) else GroupIs(t, b)
  }

  lemma {:induction false} DotsAre(t: string)
    ensures Dots(t) == multiset(t)['.']
  {
    if t != [] {
      DotsAre(t[1..]);
      assert t == [t[0]] + t[1..];
    }
  }

  lemma {:induction false} PartMeans(t: string, last: bool, b: seq<Byte>, aton: Aton)
    ensures ReadPart(t, last, aton) == Some(b) <==> PartReads(t, last, b, aton)
  {
    DotsAre(t);
    GroupMeans(t, b);
  }

  function Flat(bs: seq<seq<Byte>>): seq<Byte> {
    if bs == [] then [] else bs[0] + Flat(bs[1..])
  }

  /** The parts read as these bytes, one after the other; `last` says that the text ends with them. */
  predicate Reads(ts: seq<string>, last: bool, bs: seq<seq<Byte>>, aton: Aton) {
    |bs| == |ts| && forall i :: 0 <= i < |ts| ==> PartReads(ts[i], last && i == |ts| - 1, bs[i], aton)
  }

  /** The bytes of a run of parts, if all can be read. */
  function ReadRun(ts: seq<string>, last: bool, aton: Aton): Option<seq<Byte>> {
    if ts == [] then Some([])
    else
      var b, rest := ReadPart(ts[0], last && |ts| == 1, aton), ReadRun(ts[1..], last, aton);
      if b.None? || rest.None? then None else Some(b.value + rest.value)
  }

  lemma {:induction false} RunReads(ts: seq<string>, last: bool, bs: seq<seq<Byte>>, aton: Aton)
    requires Reads(ts, last, bs, aton)
    ensures ReadRun(ts, last, aton) == Some(Flat(bs))
  {
    if ts != [] {
      PartMeans(ts[0], last && |ts| == 1, bs[0], aton);
      RunReads(ts[1..], last, bs[1..], aton);
    }
  }

  lemma {:induction false} RunOf(ts: seq<string>, last: bool, aton: Aton) returns (bs: seq<seq<Byte>>)
    requires ReadRun(ts, last, aton).Some?
    ensures Reads(ts, last, bs, aton) && Flat(bs) == ReadRun(ts, last, aton).value
  {
    bs := [];
    if ts != [] {
      var b := ReadPart(ts[0], last && |ts| == 1, aton).value;
      PartMeans(ts[0], last && |ts| == 1, b, aton);
      var rest := RunOf(ts[1..], last, aton);
      bs := [b] + rest;
      assert bs[1..] == rest;
      forall i | 0 <= i < |ts| ensures PartReads(ts[i], last && i == |ts| - 1, bs[i], aton) {
        assert i > 0 ==> ts[i] == ts[1..][i - 1] && bs[i] == rest[i - 1];
      }
    }
  }

  lemma {:induction false} ReadsOver(ts: seq<string>, rest: seq<string>, r: Reading, aton: Aton)
    requires Parts(ts)
    ensures var b := ReadRun(ts, rest == [], aton);
            ReadParts(ts + rest, r, aton)
              == if b.None? then None else ReadParts(rest, r.(result := r.result + b.value), aton)
  {
    if ts == [] {
      assert ts + rest == rest && r.result + [] == r.result;
    } else {
      var b := ReadPart(ts[0], rest == [] && |ts| == 1, aton);
      assert (ts + rest)[0] == ts[0] && (ts + rest)[1..] == ts[1..] + rest;
      assert |ts + rest| == 1 <==> rest == [] && |ts| == 1;
      if b.Some? {
        var next := r.(result := r.result + b.value);
        ReadsOver(ts[1..], rest, next, aton);
        var more := ReadRun(ts[1..], rest == [], aton);
        if more.Some? {
          Regroup(r.result, b.value, more.value);
        }
      }
    }
  }

  // ----- Texts -----

  /** The parts in front of a gap and behind it; the gap is written "::", or ":" at an end of the text. */
  datatype Text = Text(before: seq<string>, gap: string, after: seq<string>)

  function Spelled(t: Text): string {
    Join(t.before) + t.gap + Join(t.after)
  }

  predicate WellSpelled(t: Text) {
    && Parts(t.before) && Parts(t.after)
    && (t.gap == "" || t.gap == ":" || t.gap == "::")
    && (t.gap == "" ==> t.after == [])
    && (t.gap == ":" ==> (t.before == [] <==> t.after != []))
  }

  /** No text at all is a gap, too. */
  predicate HasGap(t: Text) {
    t.gap != "" || t.before == []
  }

  /** Without a gap the parts make sixteen bytes; with one they make fewer, and it fills up with zeros. */
  ghost predicate Denotes(t: Text, v: seq<Byte>, aton: Aton) {
    exists bs, cs ::
      && Reads(t.before, !HasGap(t), bs, aton) && Reads(t.after, true, cs, aton)
      && Fills(Flat(bs), Flat(cs), HasGap(t), v)
  }

  predicate Fills(x: seq<Byte>, y: seq<Byte>, gap: bool, v: seq<Byte>) {
    if gap then |x| + |y| < 16 && v == x + Zeros(16 - |x| - |y|) + y else |x| == 16 && v == x
  }

  function PartsOf(t: Text): seq<string> {
    t.before + (if HasGap(t) then [""] else []) + t.after
  }

  lemma TrimFirst(a: string)
    requires a != [] && (|a| >= 2 ==> a[1] != ':') && a[|a| - 1] != ':'
    ensures Trim(a) == a
  {
    if |a| >= 2 {
      EndsOtherwise(a);
    }
  }

  lemma TrimLast(a: string)
    requires a != [] && a[0] != ':' && (|a| >= 2 ==> a[|a| - 2] != ':')
    ensures Trim(a) == a
  {
    if |a| >= 2 {
      assert a[|a| - 2..][0] == a[|a| - 2];
    }
  }

  lemma {:induction false} SplitsText(t: Text)
    requires WellSpelled(t) && Spelled(t) != "::"
    ensures Split(Trim(Spelled(t))) == PartsOf(t)
  {
    var a, b := t.before, t.after;
    if t.gap == "" {
      assert Spelled(t) == Join(a) && PartsOf(t) == if a == [] then [""] else a;
      SplitsPlain(a);
    } else if a != [] && b != [] {
      SplitMiddle(a, b);
      TrimMiddle(a, b);
    } else if a != [] {
      assert Spelled(t) == Join(a) + t.gap && PartsOf(t) == a + [""];
      SplitsBack(a, t.gap);
    } else if b != [] {
      assert Spelled(t) == t.gap + Join(b) && PartsOf(t) == [""] + b;
      SplitsFront(b, t.gap);
    }
  }

  lemma {:induction false} SplitsPlain(a: seq<string>)
    requires Parts(a)
    ensures Split(Trim(Join(a))) == if a == [] then [""] else a
  {
    if a != [] {
      JoinEnds(a);
      TrimNothing(Join(a));
      SplitJoin(a);
    }
  }

  lemma {:induction false} SplitsBack(a: seq<string>, gap: string)
    requires a != [] && Parts(a) && (gap == ":" || gap == "::")
    ensures Split(Trim(Join(a) + gap)) == a + [""]
  {
    if gap == "::" {
      SplitBack(a);
    } else {
      var s := Join(a) + ":";
      JoinEnds(a);
      assert s[0] == Join(a)[0] && s[|s| - 2] == Join(a)[|Join(a)| - 1];
      TrimLast(s);
      SplitThen(a, "");
      assert s == Join(a) + ":" + "" && Split("") == [""];
    }
  }

  lemma {:induction false} SplitsFront(b: seq<string>, gap: string)
    requires b != [] && Parts(b) && (gap == ":" || gap == "::")
    ensures Split(Trim(gap + Join(b))) == [""] + b
  {
    if gap == "::" {
      SplitFront(b);
    } else {
      var s := ":" + Join(b);
      JoinEnds(b);
      assert s[1] == Join(b)[0] && s[|s| - 1] == Join(b)[|Join(b)| - 1];
      TrimFirst(s);
      SplitJoin(b);
      SplitFirst("", Join(b));
      assert s == "" + ":" + Join(b);
    }
  }

  // ----- A text that is spelled well -----

  /** What is read of such a text, as bytes in front of the gap and behind it. */
  lemma {:induction false} ReadsText(t: Text, aton: Aton)
    requires WellSpelled(t)
    ensures var x, y := ReadRun(t.before, !HasGap(t), aton), ReadRun(t.after, true, aton);
            ReadParts(PartsOf(t), Reading([], None), aton)
              == if x.None? || y.None? then None
                 else Some(Reading(x.value + y.value, if HasGap(t) then Some(|x.value|) else None))
  {
    var none, a, b := Reading([], None), t.before, t.after;
    var x := ReadRun(a, !HasGap(t), aton);
    if HasGap(t) {
      assert PartsOf(t) == a + ([""] + b);
      ReadsOver(a, [""] + b, none, aton);
      if x.Some? {
        ReadsGap(b, x.value, aton);
        assert [] + x.value == x.value;
      }
    } else {
      assert PartsOf(t) == a + [];
      ReadsOver(a, [], none, aton);
      if x.Some? {
        assert [] + x.value == x.value && x.value + [] == x.value;
      }
    }
  }

  lemma {:induction false} ReadsGap(b: seq<string>, x: seq<Byte>, aton: Aton)
    requires Parts(b)
    ensures var y := ReadRun(b, true, aton);
            ReadParts([""] + b, Reading(x, None), aton)
              == if y.None? then None else Some(Reading(x + y.value, Some(|x|)))
  {
    assert ([""] + b)[1..] == b && b + [] == b;
    ReadsOver(b, [], Reading(x, Some(|x|)), aton);
  }

  lemma FillMeans(x: seq<Byte>, y: seq<Byte>, gap: bool, v: seq<Byte>)
    requires !gap ==> y == []
    ensures Fill(Reading(x + y, if gap then Some(|x|) else None)) == Ok(v) <==> Fills(x, y, gap, v)
  {
    assert (x + y)[..|x|] == x && (x + y)[|x|..] == y;
    if !gap {
      assert x + y == x;
    }
  }

  lemma {:induction false} PtonOf(t: Text, v: seq<Byte>, aton: Aton)
    requires WellSpelled(t)
    ensures Pton(Spelled(t), aton) == Ok(v) <==> Denotes(t, v, aton)
  {
    var x, y, gap := ReadRun(t.before, !HasGap(t), aton), ReadRun(t.after, true, aton), HasGap(t);
    var read := x.Some? && y.Some? && Fills(x.value, y.value, gap, v);
    if Denotes(t, v, aton) {
      var bs, cs :| Reads(t.before, !gap, bs, aton) && Reads(t.after, true, cs, aton)
                    && Fills(Flat(bs), Flat(cs), gap, v);
      RunReads(t.before, !gap, bs, aton);
      RunReads(t.after, true, cs, aton);
    }
    if read {
      var bs := RunOf(t.before, !gap, aton);
      var cs := RunOf(t.after, true, aton);
      assert Denotes(t, v, aton);
    }
    assert Denotes(t, v, aton) <==> read;
    if Spelled(t) == "::" {
      OnlyColons(t);
      assert Zeros(16) == [] + Zeros(16) + [];
    } else {
      SplitsText(t);
      ReadsText(t, aton);
      if x.Some? && y.Some? {
        FillMeans(x.value, y.value, gap, v);
      }
    }
  }

  lemma {:induction false} OnlyColons(t: Text)
    requires WellSpelled(t) && Spelled(t) == "::"
    ensures t == Text([], "::", [])
  {
    var a, b := Join(t.before), Join(t.after);
    Regroup(a, t.gap, b);
    if t.before != [] {
      JoinEnds(t.before);
      FirstOf(a, t.gap + b);
    }
    if t.after != [] {
      JoinEnds(t.after);
      LastOf(a + t.gap, b);
    }
  }

  lemma FirstOf(a: string, b: string)
    requires a != []
    ensures (a + b)[0] == a[0]
  {}

  lemma LastOf(a: string, b: string)
    requires b != []
    ensures (a + b)[|a + b| - 1] == b[|b| - 1]
  {}

  // ----- Every other text fails -----

  lemma {:induction false} SplitParts(s: string)
    ensures Join(Split(s)) == s && forall i :: 0 <= i < |Split(s)| ==> NoColon(Split(s)[i])
  {
    if s != [] {
      SplitParts(s[1..]);
      var rest := Split(s[1..]);
      if s[0] == ':' {
        assert ([[]] + rest)[1..] == rest;
        assert Join([[]] + rest) == [] + ":" + Join(rest);
      } else {
        JoinLonger(s[0], rest);
      }
      assert s == [s[0]] + s[1..];
    }
  }

  lemma JoinLonger(c: char, gs: seq<string>)
    requires gs != []
    ensures Join([[c] + gs[0]] + gs[1..]) == [c] + Join(gs)
  {
    var hs := [[c] + gs[0]] + gs[1..];
    assert hs[1..] == gs[1..];
    if |gs| > 1 {
      Regroup([c], gs[0], ":");
      Regroup([c], gs[0] + ":", Join(gs[1..]));
    }
  }

  /** Two empty parts are refused. */
  lemma {:induction false} TwoGaps(parts: seq<string>, i: nat, j: nat, r: Reading, aton: Aton)
    requires i < j < |parts| && parts[i] == [] && parts[j] == []
    ensures ReadParts(parts, r, aton).None?
  {
    if i > 0 {
      if parts[0] != [] {
        var b := ReadPart(parts[0], |parts| == 1, aton);
        if b.Some? {
          TwoGaps(parts[1..], i - 1, j - 1, r.(result := r.result + b.value), aton);
        }
      } else {
        OneGap(parts[1..], i - 1, r.(joker := Some(|r.result|)), aton);
      }
    } else {
      OneGap(parts[1..], j - 1, r.(joker := Some(|r.result|)), aton);
    }
  }

  lemma {:induction false} OneGap(parts: seq<string>, i: nat, r: Reading, aton: Aton)
    requires i < |parts| && parts[i] == [] && r.joker.Some?
    ensures ReadParts(parts, r, aton).None?
  {
    if parts[0] != [] {
      var b := ReadPart(parts[0], |parts| == 1, aton);
      if b.Some? {
        OneGap(parts[1..], i - 1, r.(result := r.result + b.value), aton);
      }
    }
  }

  lemma TrimFrontIs(addr: string, a: string)
    requires a == if "::" <= addr then addr[1..] else addr
    ensures addr == a || (addr == ":" + a && a != [] && a[0] == ':')
  {
    if "::" <= addr {
      assert addr[0] == ':' && addr[1] == ':';
      assert addr == [addr[0]] + addr[1..];
    }
  }

  lemma TrimBackIs(a: string, s: string)
    requires s == if |a| >= 2 && a[|a| - 2..] == "::" then a[..|a| - 1] else a
    ensures a == s || (a == s + ":" && s != [] && s[|s| - 1] == ':' && s[0] == a[0])
  {
    if |a| >= 2 && a[|a| - 2..] == "::" {
      assert a[|a| - 1] == a[|a| - 2..][1] && a[|a| - 2] == a[|a| - 2..][0];
      assert a == a[..|a| - 1] + [a[|a| - 1]];
    }
  }

  /** What was trimmed: a colon in front of a text that still starts with one, or behind one that ends so. */
  lemma TrimIs(addr: string) returns (front: string, back: string)
    ensures front + Trim(addr) + back == addr
    ensures front == "" || (front == ":" && Trim(addr) != [] && Trim(addr)[0] == ':')
    ensures back == "" || (back == ":" && Trim(addr) != [] && Trim(addr)[|Trim(addr)| - 1] == ':')
  {
    var a := if "::" <= addr then addr[1..] else addr;
    var s := Trim(addr);
    TrimFrontIs(addr, a);
    TrimBackIs(a, s);
    front, back := if addr == a then "" else ":", if a == s then "" else ":";
    assert s + back == a;
    Regroup(front, s, back);
  }

  /** A text whose parts have no gap but one is spelled well. */
  lemma {:induction false} SpellsParts(addr: string, a: seq<string>, gap: bool, b: seq<string>) returns (t: Text)
    requires Parts(a) && Parts(b) && Trim(addr) == Join(a + (if gap then [""] else []) + b)
    requires !gap ==> a != [] && b == []
    ensures WellSpelled(t) && Spelled(t) == addr
  {
    var front, back := TrimIs(addr);
    if !gap {
      assert a + [] + b == a;
      JoinEnds(a);
      t := Text(a, "", []);
    } else if a == [] && b == [] {
      assert [] + [""] + [] == [""];
      t := Text([], "", []);
    } else if a == [] {
      assert [] + [""] + b == [""] + b;
      t := SpellsFront(addr, front, back, b);
    } else if b == [] {
      assert a + [""] + [] == a + [""];
      t := SpellsBack(addr, front, back, a);
    } else {
      t := SpellsInside(addr, front, back, a, b);
    }
  }

  lemma {:induction false} SpellsFront(addr: string, front: string, back: string, b: seq<string>) returns (t: Text)
    requires b != [] && Parts(b) && addr == front + Join([""] + b) + back && (front == "" || front == ":")
    requires back == "" || (Join([""] + b) != [] && Join([""] + b)[|Join([""] + b)| - 1] == ':')
    ensures WellSpelled(t) && Spelled(t) == addr
  {
    JoinAppend([""], b);
    JoinEnds(b);
    LastOf(":", Join(b));
    assert Join([""] + b) == ":" + Join(b);
    t := Text([], front + ":", b);
  }

  lemma {:induction false} SpellsBack(addr: string, front: string, back: string, a: seq<string>) returns (t: Text)
    requires a != [] && Parts(a) && addr == front + Join(a + [""]) + back && (back == "" || back == ":")
    requires front == "" || (Join(a + [""]) != [] && Join(a + [""])[0] == ':')
    ensures WellSpelled(t) && Spelled(t) == addr
  {
    JoinAppend(a, [""]);
    JoinEnds(a);
    FirstOf(Join(a), ":");
    assert Join(a + [""]) == Join(a) + ":";
    t := Text(a, ":" + back, []);
  }

  lemma {:induction false} SpellsInside(addr: string, front: string, back: string, a: seq<string>, b: seq<string>)
    returns (t: Text)
    requires a != [] && b != [] && Parts(a) && Parts(b)
    requires var s := Join(a + [""] + b);
             addr == front + s + back && (front == "" || (s != [] && s[0] == ':'))
             && (back == "" || (s != [] && s[|s| - 1] == ':'))
    ensures WellSpelled(t) && Spelled(t) == addr
  {
    Regroup(a, [""], b);
    JoinAppend(a, [""] + b);
    JoinAppend([""], b);
    JoinEnds(a);
    JoinEnds(b);
    assert Join(a + [""] + b) == Join(a) + "::" + Join(b);
    FirstOf(Join(a), "::" + Join(b));
    Regroup(Join(a), "::", Join(b));
    LastOf(Join(a) + "::", Join(b));
    t := Text(a, "::", b);
  }

  lemma {:induction false} SpelledOrRefused(addr: string, aton: Aton) returns (t: Text)
    requires Pton(addr, aton).Ok?
    ensures WellSpelled(t) && Spelled(t) == addr
  {
    if addr == "::" {
      t := Text([], "::", []);
    } else {
      var parts := Split(Trim(addr));
      SplitParts(Trim(addr));
      if i: nat :| i < |parts| && parts[i] == [] {
        OtherParts(parts, i, aton);
        t := SpellsAround(addr, parts, i);
      } else {
        assert parts + [] + [] == parts;
        t := SpellsParts(addr, parts, false, []);
      }
    }
  }

  lemma {:induction false} SpellsAround(addr: string, parts: seq<string>, i: nat) returns (t: Text)
    requires i < |parts| && parts[i] == [] && Parts(parts[..i]) && Parts(parts[i + 1..]) && Join(parts) == Trim(addr)
    ensures WellSpelled(t) && Spelled(t) == addr
  {
    assert parts == parts[..i] + [""] + parts[i + 1..];
    t := SpellsParts(addr, parts[..i], true, parts[i + 1..]);
  }

  /** Beside a gap there is no other. */
  lemma {:induction false} OtherParts(parts: seq<string>, i: nat, aton: Aton)
    requires i < |parts| && parts[i] == [] && ReadParts(parts, Reading([], None), aton).Some?
    requires forall j :: 0 <= j < |parts| ==> NoColon(parts[j])
    ensures Parts(parts[..i]) && Parts(parts[i + 1..])
  {
    forall j: nat | j < |parts| && j != i ensures parts[j] != [] {
      if parts[j] == [] {
        TwoGaps(parts, if i < j then i else j, if i < j then j else i, Reading([], None), aton);
      }
    }
  }

  /**
   * A text is read as an address exactly when it is spelled as groups around at most one gap, all of
   * which can be read, and they denote the address. So what fails is a second gap, a part that is not
   * a group, a dotted part that is not the last or has not three dots, and a wrong length.
   */
  lemma {:induction false} PtonExactly(addr: string, v: seq<Byte>, aton: Aton)
    ensures Pton(addr, aton) == Ok(v) <==>
            exists t :: WellSpelled(t) && Spelled(t) == addr && Denotes(t, v, aton)
  {
    if Pton(addr, aton) == Ok(v) {
      var t := SpelledOrRefused(addr, aton);
      PtonOf(t, v, aton);
    }
    if t :| WellSpelled(t) && Spelled(t) == addr && Denotes(t, v, aton) {
      PtonOf(t, v, aton);
    }
  }
}
