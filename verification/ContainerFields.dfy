/**
 * Fields of a fixed number of bytes, and fields made from another field: `NBytesField`, `PadField`,
 * and `FieldListField`.
 */
module ContainerFields {
  import opened Bytes
  import opened ByteNumbers
  import Bits

  // ---- NBytesField: a little loop for each direction ----

  method NumberToBytes(x: int, sz: nat) returns (r: seq<Byte>)
    ensures r == ToBytes(x, sz)
  {
    var rest := x;
    var x2m: seq<Byte> := [];
    for i := 0 to sz
      invariant |x2m| == i
      invariant ToBytes(x, sz) == ToBytes(rest, sz - i) + Reverse(x2m)
    {
      assert ToBytes(rest, sz - i) + Reverse(x2m)
          == ToBytes(rest / 256, sz - i - 1) + ([rest % 256] + Reverse(x2m));
      assert Reverse(x2m + [rest % 256]) == [rest % 256] + Reverse(x2m);
      x2m := x2m + [rest % 256];
      rest := rest / 256;
    }
    r := Reverse(x2m);
  }

  method BytesToNumber(x: seq<Byte>) returns (r: nat)
    ensures r == FromBytes(x)
  {
    r := 0;
    var weight := 1;
    assert x[..|x|] == x;
    for i := 0 to |x|
      invariant weight == Pow256(i)
      invariant FromBytes(x) == weight * FromBytes(x[..|x| - i]) + r
    {
      var d: int := x[|x| - 1 - i] as int;
      ghost var front := x[..|x| - i];
      assert front[..|front| - 1] == x[..|x| - i - 1];
      WeighDigit(weight, FromBytes(x[..|x| - i - 1]), d);
      r := r + weight * d;
      weight := 256 * weight;
    }
  }

  lemma WeighDigit(p: nat, v: nat, d: nat)
    ensures p * (256 * v + d) == (256 * p) * v + p * d
    ensures p * d >= 0
  {}

  // ---- A field, as a pair of functions ----

  datatype Got<V> = Got(val: V, rest: seq<Byte>)

  /** Building appends `encode(v)`; dissecting may fail. */
  datatype Field<!V(!new)> = Field(encode: V -> seq<Byte>, decode: seq<Byte> -> Result<Got<V>>)

  /** The value is read back and what follows it is left alone. */
  ghost predicate RoundTrips<V(!new)>(f: Field<V>, v: V) {
    forall suffix: seq<Byte> :: f.decode(f.encode(v) + suffix) == Ok(Got(v, suffix))
  }

  // ---- PadField ----

  /** `-flen % align` */
  function PadLen(flen: int, align: nat): (n: nat)
    requires align > 0
    ensures n < align
  {
    -flen % align
  }

  function Repeat(s: seq<Byte>, n: nat): (r: seq<Byte>)
    ensures |r| == n * |s|
  {
    if n == 0 then []
    else
      Product(n, |s|);
      s + Repeat(s, n - 1)
  }

  lemma Product(n: nat, d: nat)
    requires n > 0
    ensures n * d == d + (n - 1) * d
  {}

  function PadEncode<V(!new)>(f: Field<V>, align: nat, padWith: seq<Byte>, v: V): seq<Byte>
    requires align > 0
  {
    var sval := f.encode(v);
    sval + Repeat(padWith, PadLen(|sval|, align))
  }

  /** Missing padding is tolerated: a slice past the end is empty. */
  function PadDecode<V(!new)>(f: Field<V>, align: nat, s: seq<Byte>): Result<Got<V>>
    requires align > 0
  {
    var r := f.decode(s);
    if r.Err? then Err
    else
      var n := PadLen(|s| - |r.value.rest|, align);
      Ok(Got(r.value.val, if n <= |r.value.rest| then r.value.rest[n..] else []))
  }

  /**
   * A padded field reads back, whatever follows, exactly when no padding is needed or the padding
   * is made of single bytes: the builder repeats the filler once per byte, whatever its length.
   */
  lemma {:induction false} PadRoundTripsExactly<V(!new)>(f: Field<V>, align: nat, padWith: seq<Byte>, v: V,
                                                         suffix: seq<Byte>)
    requires align > 0 && padWith != [] && RoundTrips(f, v)
    ensures PadDecode(f, align, PadEncode(f, align, padWith, v) + suffix) == Ok(Got(v, suffix)) <==>
            PadLen(|f.encode(v)|, align) == 0 || |padWith| == 1
  {
    var sval := f.encode(v);
    var n := PadLen(|sval|, align);
    var pad := Repeat(padWith, n);
    assert sval + pad + suffix == sval + (pad + suffix);
    assert f.decode(sval + (pad + suffix)) == Ok(Got(v, pad + suffix));
    LongerPad(n, |padWith|);
    assert (pad + suffix)[|pad|..] == suffix;
    if n > 0 && |padWith| > 1 {
      assert |(pad + suffix)[n..]| > |suffix|;
    }
  }

  lemma LongerPad(n: nat, d: nat)
    requires d > 0
    ensures d == 1 ==> n * d == n
    ensures n > 0 && d > 1 ==> n * d > n
    ensures n <= n * d
  {}

  /** With single-byte padding the field ends at a multiple of the alignment. */
  lemma {:induction false} PadAligns<V(!new)>(f: Field<V>, align: nat, padWith: seq<Byte>, v: V)
    requires align > 0 && |padWith| == 1
    ensures |PadEncode(f, align, padWith, v)| % align == 0
  {
    PadMod(|f.encode(v)|, align);
  }

  lemma {:induction false} RepeatAt(s: seq<Byte>, n: nat, i: nat)
    requires s != [] && i < |Repeat(s, n)|
    ensures Repeat(s, n)[i] == s[i % |s|]
  {
    if i >= |s| {
      RepeatAt(s, n - 1, i - |s|);
      Bits.DivModUnique(i, |s|, (i - |s|) / |s| + 1, (i - |s|) % |s|);
    } else {
      Bits.DivModUnique(i, |s|, 0, i);
    }
  }

  /** With k bytes more a multiple of the alignment is reached. */
  predicate Fits(size: nat, align: nat, k: nat)
    requires align > 0
  {
    (size + k) % align == 0
  }

  ghost predicate LeastFit(size: nat, align: nat, n: nat)
    requires align > 0
  {
    Fits(size, align, n) && forall k: nat :: Fits(size, align, k) ==> n <= k
  }

  lemma {:induction false} PadIsLeast(size: nat, align: nat)
    requires align > 0
    ensures LeastFit(size, align, PadLen(size, align))
  {
    var n := PadLen(size, align);
    PadMod(size, align);
    forall k: nat | Fits(size, align, k) ensures n <= k {
      if k < n {
        Bits.DivModUnique(size + n, align, (size + k) / align, n - k);
      }
    }
  }

  /**
   * What is added is the filler over and over, once for each byte missing to the next multiple of the
   * alignment.
   */
  lemma {:induction false} PadContent<V(!new)>(f: Field<V>, align: nat, padWith: seq<Byte>, v: V)
    requires align > 0 && padWith != []
    ensures var sval, b := f.encode(v), PadEncode(f, align, padWith, v);
            && |sval| <= |b| && b[..|sval|] == sval
            && (forall i :: |sval| <= i < |b| ==> b[i] == padWith[(i - |sval|) % |padWith|])
            && exists n: nat :: LeastFit(|sval|, align, n) && |b| == |sval| + n * |padWith|
  {
    var sval, b := f.encode(v), PadEncode(f, align, padWith, v);
    var n := PadLen(|sval|, align);
    PadIsLeast(|sval|, align);
    assert b == sval + Repeat(padWith, n);
    forall i | |sval| <= i < |b| ensures b[i] == padWith[(i - |sval|) % |padWith|] {
      RepeatAt(padWith, n, i - |sval|);
    }
  }

  /** Reading drops as many bytes, as far as there are any. */
  lemma {:induction false} PadDrops<V(!new)>(f: Field<V>, align: nat, s: seq<Byte>, v: V, rest: seq<Byte>)
    returns (n: nat)
    requires align > 0 && f.decode(s) == Ok(Got(v, rest)) && |rest| <= |s|
    ensures LeastFit(|s| - |rest|, align, n)
    ensures PadDecode(f, align, s) == Ok(Got(v, if n <= |rest| then rest[n..] else []))
  {
    n := PadLen(|s| - |rest|, align);
    PadIsLeast(|s| - |rest|, align);
  }

  lemma PadMod(x: int, d: nat)
    requires d > 0
    ensures (x + -x % d) % d == 0
  {
    var q: int, r: int := -x / d, -x % d;
    assert -x == d * q + r;
    Negated(q, d);
    Bits.DivModUnique(x + r, d, -q, 0);
  }

  lemma Negated(q: int, d: int)
    ensures (-q) * d == -(d * q)
  {}

  // ---- FieldListField ----

  function EncodeList<V(!new)>(f: Field<V>, vals: seq<V>): seq<Byte> {
    if vals == [] then [] else f.encode(vals[0]) + EncodeList(f, vals[1..])
  }

  /**
   * The list from `s`: at most `count` items if one is given, all there is otherwise; more than
   * `max` items is an error.  `got` are the items already read.
   */
  function DecodeList<V(!new)>(f: Field<V>, s: seq<Byte>, count: Option<int>, max: nat,
                               got: seq<V>): Result<Got<seq<V>>>
    requires |got| <= max
    decreases max - |got|
  {
    if s == [] || (count.Some? && count.value <= 0) then Ok(Got(got, s))
    else
      var r := f.decode(s);
      if r.Err? || |got| + 1 > max then Err
      else DecodeList(f, r.value.rest, if count.None? then None else Some(count.value - 1), max, got + [r.value.val])
  }

  /** Where the slice `s[:length]` ends; a negative length counts from the end. */
  function Cut(size: nat, length: int): (n: nat)
    ensures n <= size
  {
    if length >= 0 then (if length <= size then length else size)
    else if size + length >= 0 then size + length else 0
  }

  method Getfield<V(!new)>(f: Field<V>, input: seq<Byte>, length: Option<int>, number: Option<int>, max: nat)
    returns (r: Result<Got<seq<V>>>)
    ensures r == GetList(f, input, length, number, max)
  {
    var c: Option<int> := if length.None? then number else None;
    var s, ret := input, [];
    assert input[..|input|] == input && input[|input|..] == [];
    if length.Some? {
      var n := Cut(|input|, length.value);
      s, ret := input[..n], input[n..];
    }
    var val: seq<V> := [];
    ghost var start := s;
    ghost var limit := c;
    while s != []
      invariant |val| <= max
      invariant DecodeList(f, start, limit, max, []) == DecodeList(f, s, c, max, val)
      decreases max - |val|
    {
      if c.Some? {
        if c.value <= 0 {
          break;
        }
        c := Some(c.value - 1);
      }
      var item := f.decode(s);
      if item.Err? {
        return Err;
      }
      if |val| + 1 > max {
        return Err;
      }
      s := item.value.rest;
      val := val + [item.value.val];
    }
    r := Ok(Got(val, s + ret));
  }

  /** The list field: the length, if there is one, cuts the input; otherwise the number of items counts. */
  function GetList<V(!new)>(f: Field<V>, s: seq<Byte>, length: Option<int>, number: Option<int>,
                            max: nat): Result<Got<seq<V>>> {
    var len := if length.None? then |s| else Cut(|s|, length.value);
    var r := DecodeList(f, s[..len], if length.None? then number else None, max, []);
    if r.Err? then Err else Ok(Got(r.value.val, r.value.rest + s[len..]))
  }

  /** Items that read back, each of at least one byte. */
  ghost predicate Plain<V(!new)>(f: Field<V>, vals: seq<V>) {
    forall k :: 0 <= k < |vals| ==> RoundTrips(f, vals[k]) && f.encode(vals[k]) != []
  }

  lemma {:induction false} DecodesItems<V(!new)>(f: Field<V>, vals: seq<V>, count: Option<int>, max: nat,
                                                 got: seq<V>, suffix: seq<Byte>)
    requires Plain(f, vals) && |got| <= max
    requires count == Some(|vals|) || (count.None? && suffix == [])
    ensures DecodeList(f, EncodeList(f, vals) + suffix, count, max, got)
         == if |got| + |vals| <= max then Ok(Got(got + vals, suffix)) else Err
    decreases |vals|
  {
    if vals == [] {
      assert EncodeList(f, vals) + suffix == suffix;
      assert got + vals == got;
    } else {
      var rest := vals[1..];
      var tail := EncodeList(f, rest) + suffix;
      assert EncodeList(f, vals) + suffix == f.encode(vals[0]) + tail;
      assert RoundTrips(f, vals[0]);
      assert f.decode(f.encode(vals[0]) + tail) == Ok(Got(vals[0], tail));
      if |got| + 1 <= max {
        DecodesItems(f, rest, if count.None? then None else Some(count.value - 1), max, got + [vals[0]], suffix);
        assert got + [vals[0]] + rest == got + vals;
      }
    }
  }

  /**
   * Lists of items that read back do so as well, told their number or their length and whatever
   * follows, exactly when there are no more items than the limit allows.
   */
  lemma ListRoundTripsExactly<V(!new)>(f: Field<V>, vals: seq<V>, max: nat, suffix: seq<Byte>, counted: bool)
    requires Plain(f, vals)
    ensures var b := EncodeList(f, vals);
            GetList(f, b + suffix, if counted then None else Some(|b|), if counted then Some(|vals|) else None, max)
            == Ok(Got(vals, suffix))
            <==> |vals| <= max
  {
    var b := EncodeList(f, vals);
    var s := b + suffix;
    if counted {
      DecodesItems(f, vals, Some(|vals|), max, [], suffix);
      assert s[..|s|] == s && s[|s|..] == [];
      assert suffix + [] == suffix;
    } else {
      DecodesItems(f, vals, None, max, [], []);
      assert s[..|b|] == b + [] && s[|b|..] == suffix;
      assert [] + suffix == suffix;
    }
    assert [] + vals == vals;
  }

  // ---- What a list field reads of any bytes ----

  /** The items one after the other: each is read from bytes that are left, and leaves the next ones. */
  ghost predicate Chain<V(!new)>(f: Field<V>, vals: seq<V>, ends: seq<seq<Byte>>) {
    |ends| == |vals| + 1 &&
    forall k :: 0 <= k < |vals| ==> ends[k] != [] && f.decode(ends[k]) == Ok(Got(vals[k], ends[k + 1]))
  }

  /** Where reading stops: no bytes are left, or as many items as asked for are there. */
  predicate Stops(count: Option<int>, n: nat, rest: seq<Byte>) {
    && (count.Some? ==> n == 0 || n <= count.value)
    && (rest == [] || (count.Some? && n >= count.value))
  }

  lemma {:induction false} ItemsMean<V(!new)>(f: Field<V>, s: seq<Byte>, count: Option<int>, max: nat, got: seq<V>,
                                              vals: seq<V>, rest: seq<Byte>)
    requires |got| <= max
    ensures DecodeList(f, s, count, max, got) == Ok(Got(got + vals, rest)) <==>
            exists ends :: Chain(f, vals, ends) && ends[0] == s && ends[|vals|] == rest
                           && |got| + |vals| <= max && Stops(count, |vals|, rest)
    decreases max - |got|
  {
    if DecodeList(f, s, count, max, got) == Ok(Got(got + vals, rest)) {
      var ends := ItemsChain(f, s, count, max, got, vals, rest);
    }
    if ends :| Chain(f, vals, ends) && ends[0] == s && ends[|vals|] == rest
               && |got| + |vals| <= max && Stops(count, |vals|, rest) {
      ChainItems(f, s, count, max, got, vals, ends);
    }
  }

  lemma {:induction false} ItemsChain<V(!new)>(f: Field<V>, s: seq<Byte>, count: Option<int>, max: nat, got: seq<V>,
                                               vals: seq<V>, rest: seq<Byte>) returns (ends: seq<seq<Byte>>)
    requires |got| <= max && DecodeList(f, s, count, max, got) == Ok(Got(got + vals, rest))
    ensures Chain(f, vals, ends) && ends[0] == s && ends[|vals|] == rest
    ensures |got| + |vals| <= max && Stops(count, |vals|, rest)
    decreases max - |got|
  {
    ends := [s];
    if s == [] || (count.Some? && count.value <= 0) {
      assert got == got + vals;
      assert |vals| == 0;
    } else {
      var item := f.decode(s).value;
      Longer(f, item.rest, Less(count), max, got + [item.val], got + vals);
      assert vals[0] == (got + vals)[|got|] == item.val;
      assert got + vals == got + [item.val] + vals[1..];
      var more := ItemsChain(f, item.rest, Less(count), max, got + [item.val], vals[1..], rest);
      ends := [s] + more;
      ChainCons(f, vals, s, more);
    }
  }

  function Less(count: Option<int>): Option<int> {
    if count.None? then None else Some(count.value - 1)
  }

  /** The items already read stay in front. */
  lemma {:induction false} Longer<V(!new)>(f: Field<V>, s: seq<Byte>, count: Option<int>, max: nat, got: seq<V>,
                                           all: seq<V>)
    requires |got| <= max
    requires DecodeList(f, s, count, max, got).Ok? && DecodeList(f, s, count, max, got).value.val == all
    ensures |got| <= |all| && all[..|got|] == got
    decreases max - |got|
  {
    if s != [] && !(count.Some? && count.value <= 0) {
      var item := f.decode(s).value;
      Longer(f, item.rest, Less(count), max, got + [item.val], all);
      assert all[..|got|] == all[..|got| + 1][..|got|];
    }
  }

  lemma ChainCons<V(!new)>(f: Field<V>, vals: seq<V>, s: seq<Byte>, more: seq<seq<Byte>>)
    requires vals != [] && |more| == |vals| && s != []
    ensures Chain(f, vals, [s] + more) <==> f.decode(s) == Ok(Got(vals[0], more[0])) && Chain(f, vals[1..], more)
  {
    var ends := [s] + more;
    if f.decode(s) == Ok(Got(vals[0], more[0])) && Chain(f, vals[1..], more) {
      forall k | 0 <= k < |vals| ensures ends[k] != [] && f.decode(ends[k]) == Ok(Got(vals[k], ends[k + 1])) {
        assert k > 0 ==> vals[k] == vals[1..][k - 1] && ends[k] == more[k - 1] && ends[k + 1] == more[k];
      }
    }
    if Chain(f, vals, ends) {
      assert ends[0] == s && ends[1] == more[0];
      forall k | 0 <= k < |vals[1..]| ensures more[k] != [] && f.decode(more[k]) == Ok(Got(vals[1..][k], more[k + 1])) {
        assert more[k] == ends[k + 1] && vals[1..][k] == vals[k + 1] && more[k + 1] == ends[k + 2];
      }
    }
  }

  lemma {:induction false} ChainItems<V(!new)>(f: Field<V>, s: seq<Byte>, count: Option<int>, max: nat, got: seq<V>,
                                               vals: seq<V>, ends: seq<seq<Byte>>)
    requires Chain(f, vals, ends) && ends[0] == s && |got| + |vals| <= max && Stops(count, |vals|, ends[|vals|])
    ensures DecodeList(f, s, count, max, got) == Ok(Got(got + vals, ends[|vals|]))
    decreases |vals|
  {
    if vals == [] {
      assert got + vals == got;
    } else {
      assert ends == [s] + ends[1..];
      ChainCons(f, vals, s, ends[1..]);
      ChainItems(f, ends[1], Less(count), max, got + [vals[0]], vals[1..], ends[1..]);
      assert got + [vals[0]] + vals[1..] == got + vals;
    }
  }

  /** Python's slice: a negative end counts from the back, and no end lies outside. */
  lemma CutMeans(size: nat, length: int)
    ensures Cut(size, length) == if length < 0 then (if -length <= size then size + length else 0)
                                 else if length < size then length else size
  {}

  /**
   * A list field reads, of the bytes up to the length if one is given, the items one after the other
   * until no bytes are left, or until there are as many as asked for when no length is given. It
   * fails exactly when an item can not be read before that, or there are more than the limit.
   */
  lemma {:induction false} ListMeans<V(!new)>(f: Field<V>, s: seq<Byte>, length: Option<int>, number: Option<int>,
                                              max: nat, vals: seq<V>, rest: seq<Byte>)
    ensures var len := if length.None? then |s| else Cut(|s|, length.value);
            GetList(f, s, length, number, max) == Ok(Got(vals, rest)) <==>
            exists ends :: Chain(f, vals, ends) && ends[0] == s[..len] && rest == ends[|vals|] + s[len..]
                           && |vals| <= max && Stops(if length.None? then number else None, |vals|, ends[|vals|])
  {
    var len := if length.None? then |s| else Cut(|s|, length.value);
    var count := if length.None? then number else None;
    var r := DecodeList(f, s[..len], count, max, []);
    if r.Ok? {
      var got := r.value;
      assert [] + got.val == got.val;
      ItemsMean(f, s[..len], count, max, [], got.val, got.rest);
    }
    if ends :| Chain(f, vals, ends) && ends[0] == s[..len] && rest == ends[|vals|] + s[len..]
               && |vals| <= max && Stops(count, |vals|, ends[|vals|]) {
      ItemsMean(f, s[..len], count, max, [], vals, ends[|vals|]);
      assert [] + vals == vals;
    }
  }
}
