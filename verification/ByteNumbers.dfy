/** Big-endian numbers in a fixed number of bytes. */
module ByteNumbers {
  import opened Bytes

  function Pow256(n: nat): (p: nat)
    ensures p > 0
  {
    if n == 0 then 1 else 256 * Pow256(n - 1)
  }

  function ToBytes(x: int, n: nat): (b: seq<Byte>)
    ensures |b| == n
    decreases n
  {
    if n == 0 then [] else ToBytes(x / 256, n - 1) + [x % 256]
  }

  function FromBytes(b: seq<Byte>): nat {
    if b == [] then 0 else 256 * FromBytes(b[..|b| - 1]) + b[|b| - 1]
  }

  lemma {:induction false} FromBytesBound(b: seq<Byte>)
    ensures FromBytes(b) < Pow256(|b|)
  {
    if b != [] {
      FromBytesBound(b[..|b| - 1]);
    }
  }

  lemma {:induction false} BytesOfNumber(b: seq<Byte>)
    ensures ToBytes(FromBytes(b), |b|) == b
  {
    if b != [] {
      var init, last: int := b[..|b| - 1], b[|b| - 1] as int;
      BytesOfNumber(init);
      HighLow(FromBytes(init), last);
      assert b == init + [b[|b| - 1]];
    }
  }

  lemma HighLow(q: int, r: int)
    requires 0 <= r < 256
    ensures (256 * q + r) / 256 == q && (256 * q + r) % 256 == r
  {}

  /** Two strings of the same length that read as the same number are the same. */
  lemma {:induction false} SameBytes(a: seq<Byte>, b: seq<Byte>)
    requires |a| == |b| && FromBytes(a) == FromBytes(b)
    ensures a == b
  {
    BytesOfNumber(a);
    BytesOfNumber(b);
  }

  /** What is written is the number up to multiples of the range, negative numbers included. */
  lemma {:induction false} NumberOfBytes(x: int, n: nat) returns (k: int)
    ensures x == FromBytes(ToBytes(x, n)) + k * Pow256(n)
    decreases n
  {
    if n == 0 {
      k := x;
    } else {
      k := NumberOfBytes(x / 256, n - 1);
      var low := ToBytes(x / 256, n - 1);
      assert ToBytes(x, n)[..n - 1] == low;
      Scaled(k, Pow256(n - 1));
    }
  }

  lemma Scaled(k: int, p: int)
    ensures 256 * (k * p) == k * (256 * p)
  {}

  /** A number in range is read back as it is. */
  lemma {:induction false} NumberInRange(x: int, n: nat)
    requires 0 <= x < Pow256(n)
    ensures FromBytes(ToBytes(x, n)) == x
  {
    var k := NumberOfBytes(x, n);
    FromBytesBound(ToBytes(x, n));
    Within(k, Pow256(n));
  }

  lemma Within(k: int, p: int)
    requires p > 0
    ensures k >= 1 ==> k * p >= p
    ensures k <= -1 ==> k * p <= -p
  {}
}
