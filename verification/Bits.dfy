/** Numbers and byte strings read as bit strings, most significant bit first. */
module Bits {
  import opened Bytes

  function Pow2(n: nat): (p: nat)
    ensures p > 0
  {
    if n == 0 then 1 else 2 * Pow2(n - 1)
  }

  lemma {:induction false} Pow2Add(a: nat, b: nat)
    ensures Pow2(a + b) == Pow2(a) * Pow2(b)
  {
    if a != 0 {
      Pow2Add(a - 1, b);
      assert a + b - 1 == a - 1 + b;
      MulAssoc(2, Pow2(a - 1), Pow2(b));
    }
  }

  lemma MulAssoc(a: int, b: int, c: int)
    ensures a * (b * c) == (a * b) * c
  {}

  lemma {:induction false} Pow2Eight()
    ensures Pow2(8) == 256
  {
    assert Pow2(4) == 16;
  }

  lemma {:induction false} MulBeyond(k: int, d: int)
    requires d > 0
    ensures k >= 1 ==> k * d >= d
    ensures k <= -1 ==> k * d <= -d
  {
    if k >= 1 {
      assert k * d == d + (k - 1) * d;
    } else if k <= -1 {
      assert k * d == -d + (k + 1) * d;
    }
  }

  /** q and r are the quotient and remainder as soon as they look like it. */
  lemma {:induction false} DivModUnique(x: int, d: nat, q: int, r: int)
    requires 0 <= r < d
    requires x == q * d + r
    ensures x / d == q && x % d == r
  {
    var q', r' := x / d, x % d;
    assert (q - q') * d == r' - r;
    MulBeyond(q - q', d);
  }

  /** Reading a number's quotient and remainder by d and adding a low bit. */
  lemma {:induction false} DoubleDivMod(x: nat, p: nat)
    requires p > 0
    ensures x % (2 * p) == 2 * ((x / 2) % p) + x % 2
  {
    var h := x / 2;
    var q, r := h / p, h % p;
    assert h == q * p + r;
    assert x == 2 * h + x % 2;
    assert q * (2 * p) == 2 * (q * p);
    DivModUnique(x, 2 * p, q, 2 * r + x % 2);
  }

  /** The n low bits of x. */
  function NumBits(x: nat, n: nat): (b: seq<bool>)
    ensures |b| == n
  {
    if n == 0 then [] else NumBits(x / 2, n - 1) + [x % 2 == 1]
  }

  function BitsNum(b: seq<bool>): nat {
    if b == [] then 0 else 2 * BitsNum(b[..|b| - 1]) + (if b[|b| - 1] then 1 else 0)
  }

  lemma {:induction false} BitsNumBound(b: seq<bool>)
    ensures BitsNum(b) < Pow2(|b|)
  {
    if b != [] {
      BitsNumBound(b[..|b| - 1]);
    }
  }

  lemma Doubled(x: int, p: int, y: int, low: int)
    ensures 2 * (x * p + y) + low == x * (2 * p) + (2 * y + low)
  {}

  lemma {:induction false} BitsNumConcat(a: seq<bool>, b: seq<bool>)
    ensures BitsNum(a + b) == BitsNum(a) * Pow2(|b|) + BitsNum(b)
  {
    if b == [] {
      assert a + b == a;
    } else {
      var n := |b| - 1;
      var init, low := b[..n], if b[n] then 1 else 0;
      assert (a + b)[..|a + b| - 1] == a + init && (a + b)[|a + b| - 1] == b[n];
      BitsNumConcat(a, init);
      Doubled(BitsNum(a), Pow2(n), BitsNum(init), low);
    }
  }

  /** Taking leading bits is a right shift, dropping them is a mask. */
  lemma {:induction false} BitsNumSplit(b: seq<bool>, k: nat)
    requires k <= |b|
    ensures BitsNum(b[..k]) == BitsNum(b) / Pow2(|b| - k)
    ensures BitsNum(b[k..]) == BitsNum(b) % Pow2(|b| - k)
  {
    assert b == b[..k] + b[k..];
    BitsNumConcat(b[..k], b[k..]);
    BitsNumBound(b[k..]);
    DivModUnique(BitsNum(b), Pow2(|b| - k), BitsNum(b[..k]), BitsNum(b[k..]));
  }

  lemma {:induction false} NumBitsOfBitsNum(b: seq<bool>)
    ensures NumBits(BitsNum(b), |b|) == b
  {
    if b != [] {
      NumBitsOfBitsNum(b[..|b| - 1]);
    }
  }

  lemma {:induction false} BitsNumOfNumBits(x: nat, n: nat)
    ensures BitsNum(NumBits(x, n)) == x % Pow2(n)
  {
    if n != 0 {
      BitsNumOfNumBits(x / 2, n - 1);
      DoubleDivMod(x, Pow2(n - 1));
      assert NumBits(x, n)[..n - 1] == NumBits(x / 2, n - 1);
    }
  }

  lemma {:induction false} BitsNumOfSmall(x: nat, n: nat)
    requires x < Pow2(n)
    ensures BitsNum(NumBits(x, n)) == x
  {
    BitsNumOfNumBits(x, n);
    DivModUnique(x, Pow2(n), 0, x);
  }

  /** A number below 2^n is determined by its n bits. */
  lemma {:induction false} NumBitsInjective(x: nat, y: nat, n: nat)
    requires x < Pow2(n) && y < Pow2(n) && NumBits(x, n) == NumBits(y, n)
    ensures x == y
  {
    BitsNumOfSmall(x, n);
    BitsNumOfSmall(y, n);
  }

  lemma {:induction false} NumBitsSplit(hi: nat, lo: nat, a: nat, b: nat)
    requires lo < Pow2(b)
    ensures NumBits(hi * Pow2(b) + lo, a + b) == NumBits(hi, a) + NumBits(lo, b)
    decreases b
  {
    if b == 0 {
      assert NumBits(hi, a) + [] == NumBits(hi, a);
    } else {
      var x := hi * Pow2(b) + lo;
      assert hi * Pow2(b) == 2 * (hi * Pow2(b - 1));
      assert x / 2 == hi * Pow2(b - 1) + lo / 2 && x % 2 == lo % 2;
      NumBitsSplit(hi, lo / 2, a, b - 1);
      calc {
        NumBits(x, a + b);
        NumBits(hi * Pow2(b - 1) + lo / 2, a + (b - 1)) + [x % 2 == 1];
        NumBits(hi, a) + NumBits(lo / 2, b - 1) + [lo % 2 == 1];
        NumBits(hi, a) + NumBits(lo, b);
      }
    }
  }

  /** The bits of a byte string. */
  function BytesBits(s: seq<Byte>): (b: seq<bool>)
    ensures |b| == 8 * |s|
  {
    if s == [] then [] else BytesBits(s[..|s| - 1]) + NumBits(s[|s| - 1], 8)
  }

  lemma {:induction false} BytesBitsConcat(s: seq<Byte>, t: seq<Byte>)
    ensures BytesBits(s + t) == BytesBits(s) + BytesBits(t)
  {
    if t == [] {
      assert s + t == s;
    } else {
      var init, last := t[..|t| - 1], t[|t| - 1];
      assert (s + t)[..|s + t| - 1] == s + init && (s + t)[|s + t| - 1] == last;
      BytesBitsConcat(s, init);
      Regroup(BytesBits(s), BytesBits(init), NumBits(last, 8));
    }
  }

  lemma {:induction false} BytesBitsSlice(s: seq<Byte>, k: nat)
    requires k <= |s|
    ensures BytesBits(s[..k]) == BytesBits(s)[..8 * k]
    ensures BytesBits(s[k..]) == BytesBits(s)[8 * k..]
  {
    assert s == s[..k] + s[k..];
    BytesBitsConcat(s[..k], s[k..]);
  }

  lemma LastByte(b: seq<bool>)
    requires |b| == 8
    ensures BitsNum(b) < 256 && NumBits(BitsNum(b), 8) == b
  {
    BitsNumBound(b);
    Pow2Eight();
    NumBitsOfBitsNum(b);
  }

  /** The bytes of a bit string of whole bytes. */
  function BitsBytes(b: seq<bool>): (s: seq<Byte>)
    requires |b| % 8 == 0
    ensures 8 * |s| == |b|
    ensures BytesBits(s) == b
  {
    if b == [] then []
    else
      var n := |b| - 8;
      LastByte(b[n..]);
      var front := BitsBytes(b[..n]);
      AddLastByte(b, n, front, BitsNum(b[n..]));
      front + [BitsNum(b[n..])]
  }

  lemma AddLastByte(b: seq<bool>, n: nat, front: seq<Byte>, last: Byte)
    requires n <= |b| && BytesBits(front) == b[..n] && NumBits(last, 8) == b[n..]
    ensures BytesBits(front + [last]) == b
  {
    assert (front + [last])[..|front|] == front;
  }

  lemma {:induction false} BytesBitsInjective(s: seq<Byte>, t: seq<Byte>)
    requires BytesBits(s) == BytesBits(t)
    ensures s == t
  {
    if s != [] {
      var n := |s| - 1;
      assert |s| == |t|;
      var bs, bt := BytesBits(s), BytesBits(t);
      assert bs[..8 * n] == BytesBits(s[..n]) && bt[..8 * n] == BytesBits(t[..n]);
      assert bs[8 * n..] == NumBits(s[n], 8) && bt[8 * n..] == NumBits(t[n], 8);
      Pow2Eight();
      NumBitsInjective(s[n], t[n], 8);
      BytesBitsInjective(s[..n], t[..n]);
      assert s == s[..n] + [s[n]] && t == t[..n] + [t[n]];
    }
  }
}
