/** The sixteen-bit groups of an IPv6 address as text, and lists of groups joined and split at colons. */
module Inet6Groups {
  import opened Bytes

  // ----- Hexadecimal -----

  function HexDigit(d: nat): char
    requires d < 16
  {
    (if d < 10 then '0' as int + d else 'a' as int + d - 10) as char
  }

  function HexValue(c: char): Option<nat> {
    if '0' <= c <= '9' then Some(c as int - '0' as int)
    else if 'a' <= c <= 'f' then Some(c as int - 'a' as int + 10)
    else if 'A' <= c <= 'F' then Some(c as int - 'A' as int + 10)
    else None
  }

  /** `bytes_hex` of two bytes. */
  function Hex4(hi: Byte, lo: Byte): (t: string)
    ensures |t| == 4
  {
    [HexDigit(hi / 16), HexDigit(hi % 16), HexDigit(lo / 16), HexDigit(lo % 16)]
  }

  /** `hex_bytes`: pairs of digits, in either case. */
  function HexBytes(t: string): Option<seq<Byte>> {
    if t == [] then Some([])
    else if |t| == 1 then None
    else
      var hi, lo, rest := HexValue(t[0]), HexValue(t[1]), HexBytes(t[2..]);
      if hi.Some? && lo.Some? && hi.value < 16 && lo.value < 16 && rest.Some? then
        Some([16 * hi.value + lo.value] + rest.value)
      else None
  }

  /** `t.lstrip('0')` */
  function StripZeros(t: string): string {
    if t != [] && t[0] == '0' then StripZeros(t[1..]) else t
  }

  /** `t.rjust(4, "0")` */
  function RightJust(t: string): string {
    if |t| < 4 then seq(4 - |t|, _ => '0') + t else t
  }

  function GroupText(hi: Byte, lo: Byte): string {
    var t := StripZeros(Hex4(hi, lo));
    if t == [] then "0" else t
  }

  /** A group as it is printed: hexadecimal digits, no leading zero unless it is "0". */
  predicate IsGroup(g: string) {
    0 < |g| <= 4 && (g[0] == '0' ==> g == "0") && forall c :: c in g ==> HexValue(c).Some?
  }

  lemma HexDigitValue(d: nat)
    requires d < 16
    ensures HexValue(HexDigit(d)) == Some(d) && (HexDigit(d) == '0' <==> d == 0)
  {}

  lemma {:induction false} PairBack(b: Byte, t: string)
    ensures var s := [HexDigit(b / 16), HexDigit(b % 16)] + t;
            HexBytes(s) == if HexBytes(t).Some? then Some([b] + HexBytes(t).value) else None
  {
    var s := [HexDigit(b / 16), HexDigit(b % 16)] + t;
    HexDigitValue(b / 16);
    HexDigitValue(b % 16);
    assert s[2..] == t && 16 * (b / 16) + b % 16 == b;
  }

  lemma {:induction false} Hex4Back(hi: Byte, lo: Byte)
    ensures HexBytes(Hex4(hi, lo)) == Some([hi, lo])
  {
    var low := [HexDigit(lo / 16), HexDigit(lo % 16)];
    PairBack(lo, []);
    assert low + [] == low;
    var none: seq<Byte>, one: seq<Byte> := [], [lo];
    assert HexBytes(low) == Some([lo] + none) && [lo] + none == one;
    PairBack(hi, low);
    assert [hi] + one == [hi, lo];
    assert [HexDigit(hi / 16), HexDigit(hi % 16)] + low == Hex4(hi, lo);
  }

  lemma {:induction false} StripJust(t: string)
    requires |t| <= 4
    ensures |StripZeros(t)| <= |t| && (StripZeros(t) != [] ==> StripZeros(t)[0] != '0')
    ensures seq(|t| - |StripZeros(t)|, _ => '0') + StripZeros(t) == t
    ensures forall c :: c in StripZeros(t) ==> c in t
  {
    if t != [] && t[0] == '0' {
      StripJust(t[1..]);
      assert t == ['0'] + t[1..];
    }
  }

  /** Printing a group and reading it back, padded, gives its two bytes. */
  lemma {:induction false} GroupBack(hi: Byte, lo: Byte)
    ensures IsGroup(GroupText(hi, lo)) && RightJust(GroupText(hi, lo)) == Hex4(hi, lo)
    ensures HexBytes(RightJust(GroupText(hi, lo))) == Some([hi, lo])
    ensures GroupText(hi, lo) == "0" <==> hi == 0 && lo == 0
  {
    var t := Hex4(hi, lo);
    Hex4Back(hi, lo);
    StripJust(t);
    HexDigitValue(hi / 16);
    HexDigitValue(hi % 16);
    HexDigitValue(lo / 16);
    HexDigitValue(lo % 16);
    if StripZeros(t) == [] {
      assert t == seq(4, _ => '0');
      assert t[0] == '0' && t[1] == '0' && t[2] == '0' && t[3] == '0';
    }
    if hi == 0 && lo == 0 {
      assert t == "0000";
      assert StripZeros("0000") == StripZeros("000") == StripZeros("00") == StripZeros("0") == [];
    }
  }

  // ----- Joining and splitting -----

  /** `":".join(gs)` */
  function Join(gs: seq<string>): string {
    if gs == [] then [] else if |gs| == 1 then gs[0] else gs[0] + ":" + Join(gs[1..])
  }

  /** `s.split(":")` */
  function Split(s: string): (parts: seq<string>)
    ensures parts != []
  {
    if s == [] then [[]]
    else
      var rest := Split(s[1..]);
      if s[0] == ':' then [[]] + rest else [[s[0]] + rest[0]] + rest[1..]
  }

  predicate NoColon(g: string) {
    ':' !in g
  }

  /** Parts between colons that are not empty. */
  predicate Parts(gs: seq<string>) {
    forall i :: 0 <= i < |gs| ==> gs[i] != [] && NoColon(gs[i])
  }

  lemma {:induction false} SplitOne(g: string)
    requires NoColon(g)
    ensures Split(g) == [g]
  {
    if g != [] {
      SplitOne(g[1..]);
      assert [g[0]] + g[1..] == g;
    }
  }

  lemma {:induction false} SplitFirst(g: string, s: string)
    requires NoColon(g)
    ensures Split(g + ":" + s) == [g] + Split(s)
  {
    if g == [] {
      assert g + ":" + s == ":" + s && (":" + s)[1..] == s;
    } else {
      SplitFirst(g[1..], s);
      assert (g + ":" + s)[1..] == g[1..] + ":" + s;
      assert [g[0]] + g[1..] == g;
    }
  }

  lemma {:induction false} SplitJoin(gs: seq<string>)
    requires gs != [] && forall i :: 0 <= i < |gs| ==> NoColon(gs[i])
    ensures Split(Join(gs)) == gs
  {
    if |gs| == 1 {
      SplitOne(gs[0]);
    } else {
      SplitJoin(gs[1..]);
      SplitFirst(gs[0], Join(gs[1..]));
      assert gs == [gs[0]] + gs[1..];
    }
  }

  lemma {:induction false} JoinAppend(a: seq<string>, b: seq<string>)
    requires a != [] && b != []
    ensures Join(a + b) == Join(a) + ":" + Join(b)
  {
    if |a| == 1 {
      assert (a + b)[1..] == b;
    } else {
      JoinAppend(a[1..], b);
      assert (a + b)[1..] == a[1..] + b;
    }
  }
}
