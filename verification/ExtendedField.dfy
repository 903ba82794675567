/**
 * `BitExtendedField`: numbers as 7-bit digits, least significant first, each with an extension bit
 * that says whether another byte follows.  The extension bit is the lowest or the highest of the byte.
 */
module ExtendedField {
  import opened Bytes
  import Bits

  /** Where the extension bit is: position 0 or position 7. */
  datatype Extension = Lowest | Highest

  /** A byte from its digit and its extension bit. */
  function Pack(e: Extension, digit: nat, more: bool): Byte
    requires digit < 128
  {
    match e
    case Highest => digit + if more then 128 else 0
    case Lowest => 2 * digit + if more then 1 else 0
  }

  function Digit(e: Extension, b: Byte): (d: nat)
    ensures d < 128
  {
    match e
    case Highest => b % 128
    case Lowest => b / 2
  }

  predicate More(e: Extension, b: Byte) {
    match e
    case Highest => b >= 128
    case Lowest => b % 2 == 1
  }

  /** The digit and the extension bit share the byte without loss. */
  lemma PackParts(e: Extension, digit: nat, more: bool)
    requires digit < 128
    ensures Digit(e, Pack(e, digit, more)) == digit && More(e, Pack(e, digit, more)) == more
  {}

  lemma PartsPack(e: Extension, b: Byte)
    ensures Pack(e, Digit(e, b), More(e, b)) == b
  {}

  // ---- The value-level codec ----

  function Encode(e: Extension, v: nat): seq<Byte> {
    if v < 128 then [Pack(e, v, false)] else [Pack(e, v % 128, true)] + Encode(e, v / 128)
  }

  datatype Got = Got(val: nat, rest: seq<Byte>)

  /** Reading stops behind the first byte without the extension bit, or where the bytes end. */
  function Decode(e: Extension, s: seq<Byte>): Got {
    if s == [] then Got(0, [])
    else if !More(e, s[0]) then Got(Digit(e, s[0]), s[1..])
    else
      var r := Decode(e, s[1..]);
      Got(Digit(e, s[0]) + 128 * r.val, r.rest)
  }

  /** Every number comes back, and what follows it is untouched. */
  lemma {:induction false} RoundTrips(e: Extension, v: nat, suffix: seq<Byte>)
    ensures Decode(e, Encode(e, v) + suffix) == Got(v, suffix)
  {
    var s := Encode(e, v) + suffix;
    if v < 128 {
      PackParts(e, v, false);
      assert s[1..] == suffix;
    } else {
      PackParts(e, v % 128, true);
      RoundTrips(e, v / 128, suffix);
      assert s[1..] == Encode(e, v / 128) + suffix;
    }
  }

  function Pow128(n: nat): (p: nat)
    ensures p > 0
  {
    if n == 0 then 1 else 128 * Pow128(n - 1)
  }

  lemma Below(v: nat, p: nat)
    ensures v < 128 * p <==> v / 128 < p
  {}

  /** The encoding has as many bytes as the number has digits, and zero has one. */
  lemma {:induction false} EncodedLength(e: Extension, v: nat, n: nat)
    requires n > 0
    ensures |Encode(e, v)| <= n <==> v < Pow128(n)
  {
    if v >= 128 {
      if n == 1 {
        assert Pow128(1) == 128;
      } else {
        EncodedLength(e, v / 128, n - 1);
        Below(v, Pow128(n - 1));
      }
    } else {
      assert Pow128(n) == 128 * Pow128(n - 1);
    }
  }

  // ---- Which bytes are what the builder would have written ----

  /** The field ends within `s`, and its last digit is not a useless zero. */
  ghost predicate Canonical(e: Extension, s: seq<Byte>) {
    exists k: nat :: k < |s| && EndsAt(e, s, k) && (k == 0 || Digit(e, s[k]) != 0)
  }

  ghost predicate EndsAt(e: Extension, s: seq<Byte>, k: nat)
    requires k < |s|
  {
    !More(e, s[k]) && forall j: nat :: j < k ==> More(e, s[j])
  }

  lemma {:induction false} EndsAtNext(e: Extension, s: seq<Byte>, k: nat)
    requires k + 1 < |s| && More(e, s[0])
    ensures EndsAt(e, s, k + 1) <==> EndsAt(e, s[1..], k)
  {
    var t := s[1..];
    if EndsAt(e, s, k + 1) {
      assert forall j: nat :: j < k ==> t[j] == s[j + 1];
    }
    if EndsAt(e, t, k) {
      forall j: nat | j < k + 1 ensures More(e, s[j]) {
        assert j > 0 ==> s[j] == t[j - 1];
      }
    }
  }

  /** Past its first byte, a canonical field is canonical, and not zero. */
  lemma {:induction false} CanonicalNext(e: Extension, s: seq<Byte>)
    requires s != [] && More(e, s[0])
    ensures Canonical(e, s) <==> Canonical(e, s[1..]) && Decode(e, s[1..]).val != 0
  {
    var t := s[1..];
    if Canonical(e, s) {
      var k: nat :| k < |s| && EndsAt(e, s, k) && (k == 0 || Digit(e, s[k]) != 0);
      assert k != 0;
      EndsAtNext(e, s, k - 1);
      assert t[k - 1] == s[k];
      NotZero(e, t, k - 1);
    }
    if Canonical(e, t) && Decode(e, t).val != 0 {
      var k: nat :| k < |t| && EndsAt(e, t, k) && (k == 0 || Digit(e, t[k]) != 0);
      EndsAtNext(e, s, k);
      assert s[k + 1] == t[k];
    }
  }

  lemma {:induction false} NotZero(e: Extension, s: seq<Byte>, k: nat)
    requires k < |s| && EndsAt(e, s, k) && Digit(e, s[k]) != 0
    ensures Decode(e, s).val != 0
  {
    if k > 0 {
      assert More(e, s[0]);
      EndsAtNext(e, s, k - 1);
      NotZero(e, s[1..], k - 1);
    }
  }

  /** Building what was read gives the same bytes exactly when the field ended and was canonical. */
  lemma {:induction false} RebuildsExactly(e: Extension, s: seq<Byte>)
    ensures Encode(e, Decode(e, s).val) + Decode(e, s).rest == s <==> Canonical(e, s)
    decreases |s|
  {
    if s == [] {
    } else if !More(e, s[0]) {
      RebuildsLast(e, s);
    } else {
      var r := Decode(e, s[1..]);
      CanonicalNext(e, s);
      RebuildsExactly(e, s[1..]);
      if r.val == 0 {
        UselessZero(e, s, r.rest);
      } else {
        RebuildsMore(e, s, r.val, r.rest);
      }
    }
  }

  /** A single byte that ends the field. */
  lemma {:induction false} RebuildsLast(e: Extension, s: seq<Byte>)
    requires s != [] && !More(e, s[0])
    ensures Encode(e, Decode(e, s).val) + Decode(e, s).rest == s && Canonical(e, s)
  {
    PartsPack(e, s[0]);
    assert EndsAt(e, s, 0);
    assert s == [s[0]] + s[1..];
  }

  /** A byte with nothing but zero behind it is built without its extension bit. */
  lemma {:induction false} UselessZero(e: Extension, s: seq<Byte>, rest: seq<Byte>)
    requires s != [] && More(e, s[0])
    ensures Encode(e, Digit(e, s[0])) + rest != s
  {
    var d := Digit(e, s[0]);
    PartsPack(e, s[0]);
    PackParts(e, d, false);
    assert (Encode(e, d) + rest)[0] == Pack(e, d, false);
  }

  lemma {:induction false} RebuildsMore(e: Extension, s: seq<Byte>, high: nat, rest: seq<Byte>)
    requires s != [] && More(e, s[0]) && high > 0
    ensures Encode(e, Digit(e, s[0]) + 128 * high) + rest == s <==> Encode(e, high) + rest == s[1..]
  {
    var d, v := Digit(e, s[0]), Digit(e, s[0]) + 128 * high;
    PartsPack(e, s[0]);
    Unpacked(d, high);
    EncodeMore(e, d, high, v, rest);
    assert s == [s[0]] + s[1..];
    SameHead(s[0], Encode(e, high) + rest, s[1..]);
  }

  lemma Unpacked(d: nat, v: nat)
    requires d < 128
    ensures (d + 128 * v) / 128 == v && (d + 128 * v) % 128 == d
  {}

  lemma EncodeMore(e: Extension, d: nat, high: nat, v: nat, rest: seq<Byte>)
    requires high > 0 && v >= 128 && v / 128 == high && v % 128 == d
    ensures Encode(e, v) + rest == [Pack(e, d, true)] + (Encode(e, high) + rest)
  {}

  lemma SameHead(x: Byte, a: seq<Byte>, b: seq<Byte>)
    ensures [x] + a == [x] + b <==> a == b
  {
    assert ([x] + a)[1..] == a && ([x] + b)[1..] == b;
  }

  /** When every byte announces another one, all of them are read and nothing is left. */
  lemma {:induction false} Unterminated(e: Extension, s: seq<Byte>)
    requires forall j: nat :: j < |s| ==> More(e, s[j])
    ensures Decode(e, s).rest == []
  {
    if s != [] {
      assert forall j: nat :: j < |s| - 1 ==> s[1..][j] == s[j + 1];
      Unterminated(e, s[1..]);
    }
  }

  // ---- The bytes, one by one ----

  lemma DivideAgain(v: nat, p: nat)
    requires p > 0
    ensures v / 128 / p == v / (128 * p)
  {
    var q, r := v / 128, v % 128;
    var a, b := q / p, q % p;
    assert v == 128 * (a * p + b) + r;
    Distribute(a, p, b);
    Bits.DivModUnique(v, 128 * p, a, 128 * b + r);
  }

  lemma Distribute(a: nat, p: nat, b: nat)
    ensures 128 * (a * p + b) == a * (128 * p) + 128 * b
  {}

  /**
   * Byte i holds the i-th digit to the base 128, the lowest first. The extension bit, set on all bytes
   * but the last, is the highest bit, or the lowest with the digit above it.
   */
  lemma {:induction false} EncodedByte(e: Extension, v: nat, i: nat)
    requires i < |Encode(e, v)|
    ensures var digit, more := v / Pow128(i) % 128, if i < |Encode(e, v)| - 1 then 1 else 0;
            Encode(e, v)[i] as int == if e == Highest then digit + 128 * more else 2 * digit + more
  {
    if i > 0 {
      EncodedByte(e, v / 128, i - 1);
      DivideAgain(v, Pow128(i - 1));
      EncodedNext(e, v, i);
    } else {
      assert v / Pow128(0) == v;
    }
  }

  lemma EncodedNext(e: Extension, v: nat, i: nat)
    requires 0 < i < |Encode(e, v)|
    ensures v >= 128 && |Encode(e, v)| == |Encode(e, v / 128)| + 1 && Encode(e, v)[i] == Encode(e, v / 128)[i - 1]
  {}

  /** The digits of n bytes, each times a power of 128. */
  function SumOfDigits(e: Extension, s: seq<Byte>, n: nat): nat
    requires n <= |s|
  {
    if n == 0 then 0
    else
      var b: int := s[n - 1] as int;
      SumOfDigits(e, s, n - 1) + (if e == Highest then b % 128 else b / 2) * Pow128(n - 1)
  }

  lemma {:induction false} SumNext(e: Extension, s: seq<Byte>, n: nat)
    requires n < |s|
    ensures SumOfDigits(e, s, n + 1) == Digit(e, s[0]) + 128 * SumOfDigits(e, s[1..], n)
  {
    if n > 0 {
      SumNext(e, s, n - 1);
      assert s[1..][n - 1] == s[n];
      Distribute(Digit(e, s[n]), Pow128(n - 1), SumOfDigits(e, s[1..], n - 1));
    }
  }

  /** Whatever the bytes, as many are read as up to the first without the extension bit; they are summed up. */
  lemma {:induction false} DecodedSum(e: Extension, s: seq<Byte>) returns (n: nat)
    ensures n <= |s| && Decode(e, s).rest == s[n..] && Decode(e, s).val == SumOfDigits(e, s, n)
    ensures forall j :: 0 <= j < n - 1 ==> if e == Highest then s[j] >= 128 else s[j] % 2 == 1
    ensures n == |s| || (n > 0 && if e == Highest then s[n - 1] < 128 else s[n - 1] % 2 == 0)
  {
    n := 0;
    if s != [] {
      if More(e, s[0]) {
        var k := DecodedSum(e, s[1..]);
        SumNext(e, s, k);
        n := k + 1;
        assert forall j :: 0 < j < n ==> s[j] == s[1..][j - 1];
      } else {
        SumNext(e, s, 0);
        n := 1;
      }
    }
  }

  // ---- The loops ----

  method Addfield(e: Extension, s: seq<Byte>, v: nat) returns (r: seq<Byte>)
    ensures r == s + Encode(e, v)
  {
    if v == 0 {
      return s + [0];
    }
    var val := v;
    var rv: seq<Byte> := [];
    while val != 0
      invariant val != 0 ==> Encode(e, v) == rv + Encode(e, val)
      invariant val == 0 ==> Encode(e, v) == rv
      decreases val
    {
      var digit := val % 128;
      ghost var before := val;
      val := val / 128;
      EncodeDigit(e, rv, before);
      rv := rv + [Pack(e, digit, val != 0)];
    }
    r := s + rv;
  }

  /** One turn of the loop: the lowest digit moves to the bytes written. */
  lemma EncodeDigit(e: Extension, rv: seq<Byte>, v: nat)
    ensures rv + Encode(e, v) == if v < 128 then rv + [Pack(e, v, false)]
                                 else rv + [Pack(e, v % 128, true)] + Encode(e, v / 128)
  {}

  lemma WeighDigit(p: nat, d: nat, v: nat)
    ensures p * (d + 128 * v) == p * d + (128 * p) * v
    ensures p * d >= 0
  {}

  method Getfield(e: Extension, input: seq<Byte>) returns (s: seq<Byte>, val: nat)
    ensures Got(val, s) == Decode(e, input)
  {
    s, val := input, 0;
    var i := 0;
    var weight := 1;
    while s != []
      invariant weight == Pow128(i)
      invariant Decode(e, input) == Got(val + weight * Decode(e, s).val, Decode(e, s).rest)
      decreases |s|
    {
      ghost var later := if More(e, s[0]) then Decode(e, s[1..]).val else 0;
      WeighDigit(weight, Digit(e, s[0]), later);
      val := val + weight * Digit(e, s[0]);
      if !More(e, s[0]) {
        s := s[1..];
        return;
      }
      s := s[1..];
      i := i + 1;
      weight := 128 * weight;
    }
  }
}
