/**
 * `StrNullField`: a string up to a delimiter that stands at a multiple of the delimiter's length,
 * so that the double zero of a 16-bit string is not found across two characters.
 */
module StrNullField {
  import opened Bytes

  /** The delimiter stands at `i`. */
  predicate Stands(s: seq<Byte>, delimiter: seq<Byte>, i: nat) {
    i + |delimiter| <= |s| && s[i..i + |delimiter|] == delimiter
  }

  /** `s.find(delimiter, from)`. */
  function Find(s: seq<Byte>, delimiter: seq<Byte>, from: nat): (r: Option<nat>)
    ensures r.Some? ==> from <= r.value && Stands(s, delimiter, r.value)
    ensures forall i: nat :: Stands(s, delimiter, i) && from <= i ==> r.Some? && r.value <= i
    decreases |s| - from
  {
    if from + |delimiter| > |s| then None
    else if Stands(s, delimiter, from) then Some(from)
    else Find(s, delimiter, from + 1)
  }

  predicate Aligned(s: seq<Byte>, delimiter: seq<Byte>, i: nat)
    requires delimiter != []
  {
    i % |delimiter| == 0 && Stands(s, delimiter, i)
  }

  ghost predicate FirstAligned(s: seq<Byte>, delimiter: seq<Byte>, i: nat)
    requires delimiter != []
  {
    Aligned(s, delimiter, i) && forall j: nat :: j < i ==> !Aligned(s, delimiter, j)
  }

  function Addfield(s: seq<Byte>, delimiter: seq<Byte>, val: seq<Byte>): seq<Byte> {
    s + val + delimiter
  }

  /**
   * What is left, and the value: all before the first aligned delimiter.  When there is none, all
   * the bytes are the value and nothing is left.
   */
  ghost predicate Gets(s: seq<Byte>, delimiter: seq<Byte>, rest: seq<Byte>, val: seq<Byte>)
    requires delimiter != []
  {
    && (forall i: nat :: FirstAligned(s, delimiter, i) ==> val == s[..i] && rest == s[i + |delimiter|..])
    && ((forall i: nat :: !Aligned(s, delimiter, i)) ==> val == s && rest == [])
  }

  /** The search goes on behind an occurrence that is not aligned. */
  method Getfield(s: seq<Byte>, delimiter: seq<Byte>) returns (rest: seq<Byte>, val: seq<Byte>)
    requires delimiter != []
    ensures Gets(s, delimiter, rest, val)
  {
    var len: nat := 0;
    while true
      invariant forall j: nat :: j < len ==> !Aligned(s, delimiter, j)
      decreases |s| - len
    {
      var found := Find(s, delimiter, len);
      if found.None? {
        return [], s;
      }
      len := found.value;
      if len % |delimiter| != 0 {
        len := len + 1;
      } else {
        break;
      }
    }
    assert FirstAligned(s, delimiter, len);
    return s[len + |delimiter|..], s[..len];
  }

  lemma {:induction false} SomeFirst(s: seq<Byte>, delimiter: seq<Byte>, n: nat)
    requires delimiter != [] && Aligned(s, delimiter, n)
    ensures exists i: nat :: i <= n && FirstAligned(s, delimiter, i)
  {
    if j: nat :| j < n && Aligned(s, delimiter, j) {
      SomeFirst(s, delimiter, j);
    } else {
      assert FirstAligned(s, delimiter, n);
    }
  }

  /** No byte is lost but the delimiter: it stands between the value and the rest, or there is none. */
  lemma NothingLost(s: seq<Byte>, delimiter: seq<Byte>, rest: seq<Byte>, got: seq<Byte>)
    requires delimiter != [] && Gets(s, delimiter, rest, got)
    ensures s == got + delimiter + rest || (s == got && rest == [])
  {
    if i: nat :| Aligned(s, delimiter, i) {
      SomeFirst(s, delimiter, i);
      var f: nat :| f <= i && FirstAligned(s, delimiter, f);
      Thirds(s, f, f + |delimiter|);
    }
  }

  lemma Thirds(s: seq<Byte>, i: nat, j: nat)
    requires i <= j <= |s|
    ensures s == s[..i] + s[i..j] + s[j..]
  {}

  /** The value fills whole delimiter lengths, or else it is all there was. */
  lemma GotAligned(s: seq<Byte>, delimiter: seq<Byte>, rest: seq<Byte>, got: seq<Byte>)
    requires delimiter != [] && Gets(s, delimiter, rest, got)
    ensures |got| % |delimiter| == 0 || (got == s && forall i: nat :: !Aligned(s, delimiter, i))
  {
    if i: nat :| Aligned(s, delimiter, i) {
      SomeFirst(s, delimiter, i);
      var f: nat :| f <= i && FirstAligned(s, delimiter, f);
      assert Aligned(s, delimiter, f) && got == s[..f];
      assert |got| == f;
    }
  }

  /**
   * Which values survive, whatever follows them: those that fill whole delimiter lengths and hold
   * no aligned delimiter.
   */
  lemma {:induction false} RoundTripsExactly(val: seq<Byte>, delimiter: seq<Byte>, suffix: seq<Byte>,
                                             rest: seq<Byte>, got: seq<Byte>)
    requires delimiter != [] && Gets(Addfield([], delimiter, val) + suffix, delimiter, rest, got)
    ensures got == val && rest == suffix <==>
            |val| % |delimiter| == 0 && forall i: nat :: !Aligned(val, delimiter, i)
  {
    var s := Addfield([], delimiter, val) + suffix;
    var n, d := |val|, |delimiter|;
    assert s == val + delimiter + suffix;
    assert s[n..n + d] == delimiter && s[..n] == val && s[n + d..] == suffix;
    forall i: nat | i + d <= n ensures Aligned(val, delimiter, i) == Aligned(s, delimiter, i) {
      assert s[i..i + d] == val[i..i + d];
    }
    if n % d == 0 {
      assert Aligned(s, delimiter, n);
      SomeFirst(s, delimiter, n);
      var i: nat :| i <= n && FirstAligned(s, delimiter, i);
      if i < n {
        AlignedFits(i, n, d);
        assert Aligned(val, delimiter, i);
        assert |got| == i;
      } else {
        assert forall j: nat :: Aligned(val, delimiter, j) ==> j + d <= n;
      }
    } else {
      GotAligned(s, delimiter, rest, got);
      assert |s| > |val|;
    }
  }

  /** Two different multiples of `d` are at least `d` apart. */
  lemma AlignedFits(i: nat, n: nat, d: nat)
    requires d > 0 && i < n && i % d == 0 && n % d == 0
    ensures i + d <= n
  {
    var a, b := i / d, n / d;
    assert i == a * d && n == b * d;
    if b <= a {
      Mono(b, a, d);
      assert false;
    }
    Mono(a + 1, b, d);
    assert (a + 1) * d == a * d + d;
  }

  lemma Mono(a: nat, b: nat, d: nat)
    requires a <= b
    ensures a * d <= b * d
  {}
}
