/**
 * Bit fields: a partial byte is carried from one field to the next, and marks
 * on the first and last field of a group reverse its bytes (little endian).
 */
module BitFields {
  import opened Bytes
  import opened Bits

  datatype BitField = BitField(size: nat, rev: bool, totSize: nat, endTotSize: nat) {
    /** The number of bytes the dissector reverses before this field; 1 for none. */
    function StartMark(): nat {
      if rev && totSize > 1 then totSize else 1
    }

    /** The number of bytes the builder reverses after this field; 1 for none. */
    function EndMark(): nat {
      if rev && endTotSize > 1 then endTotSize else 1
    }
  }

  function Abs(x: int): nat {
    if x < 0 then -x else x
  }

  /** The constructor: negative sizes ask for little endian, absent totals default to the field's own. */
  function MakeField(size: int, totSize: int, endTotSize: int): BitField {
    var n := Abs(size);
    BitField(n, size < 0 || totSize < 0 || endTotSize < 0,
             if totSize == 0 then n / 8 else Abs(totSize),
             if endTotSize == 0 then n / 8 else Abs(endTotSize))
  }

  // ----- The two states threaded through the fields -----

  /**
   * What `addfield` receives and returns: bytes and the bitsdone bits v of a
   * partial byte. With bitsdone == 0 it is passed as plain bytes.
   */
  datatype Built = Built(s: seq<Byte>, bitsdone: nat, v: nat) {
    predicate Valid() {
      bitsdone < 8 && v < Pow2(bitsdone)
    }

    function Bits(): (b: seq<bool>)
      ensures |b| == 8 * |s| + bitsdone
    {
      BytesBits(s) + NumBits(v, bitsdone)
    }
  }

  function Whole(s: seq<Byte>): Built {
    Built(s, 0, 0)
  }

  /**
   * What `getfield` receives and returns: bytes, the first bn bits of which are
   * used up. With bn == 0 it is passed as plain bytes.
   */
  datatype Rest = Rest(s: seq<Byte>, bn: nat) {
    predicate Valid() {
      bn < 8 && (bn != 0 ==> s != [])
    }

    function Bits(): (b: seq<bool>)
      requires Valid()
      ensures |b| == 8 * |s| - bn
    {
      BytesBits(s)[bn..]
    }
  }

  /** What `getfield` returns, or the struct.error it raises when bytes are missing. */
  datatype Reading = Short | Got(rest: Rest, value: nat)

  /** Reverse the last n bytes, `s[:-n] + s[-n:][::-1]`. */
  function ReverseLast(s: seq<Byte>, n: nat): (r: seq<Byte>)
    ensures |r| == |s|
  {
    var k := if n <= |s| then |s| - n else 0;
    s[..k] + Reverse(s[k..])
  }

  /** Reverse the first n bytes, `s[:n][::-1] + s[n:]`. */
  function ReverseFirst(s: seq<Byte>, n: nat): (r: seq<Byte>)
    ensures |r| == |s|
  {
    var k := if n <= |s| then n else |s|;
    Reverse(s[..k]) + s[k..]
  }

  lemma ReverseOne(s: seq<Byte>)
    ensures ReverseLast(s, 1) == s && ReverseFirst(s, 1) == s
  {}

  // ----- Building -----

  /** The only state holding these bits. */
  ghost function FromBits(b: seq<bool>): (r: Built)
    ensures r.Valid() && r.Bits() == b
  {
    SomeState(b);
    var r: Built :| r.Valid() && r.Bits() == b;
    r
  }

  lemma {:induction false} SomeState(b: seq<bool>)
    ensures exists r: Built :: r.Valid() && r.Bits() == b
  {
    var m := |b| - |b| % 8;
    BitsNumBound(b[m..]);
    NumBitsOfBitsNum(b[m..]);
    var r := Built(BitsBytes(b[..m]), |b| - m, BitsNum(b[m..]));
    assert r.Valid() && r.Bits() == b;
  }

  lemma {:induction false} SameBits(r: Built, t: Built)
    requires r.Valid() && t.Valid() && r.Bits() == t.Bits()
    ensures r == t
  {
    var b := r.Bits();
    assert |b| / 8 == |r.s| == |t.s|;
    assert b[..8 * |r.s|] == BytesBits(r.s) == BytesBits(t.s);
    assert b[8 * |r.s|..] == NumBits(r.v, r.bitsdone) == NumBits(t.v, t.bitsdone);
    NumBitsInjective(r.v, t.v, r.bitsdone);
    BytesBitsInjective(r.s, t.s);
  }

  function FieldBits(f: BitField, val: int): (b: seq<bool>)
    ensures |b| == f.size
  {
    NumBits(val % Pow2(f.size), f.size)
  }

  /** Specification of `addfield`: the field's bits follow the bits already there. */
  ghost function AddField(f: BitField, st: Built, val: int): (r: Built)
    requires st.Valid()
    ensures r.Valid() && |r.s| * 8 + r.bitsdone == |st.s| * 8 + st.bitsdone + f.size
    ensures r.bitsdone != 0 || f.EndMark() == 1 ==> r.Bits() == st.Bits() + FieldBits(f, val)
  {
    var r := FromBits(st.Bits() + FieldBits(f, val));
    assert |r.Bits()| == |st.Bits()| + f.size;
    if r.bitsdone == 0 && f.EndMark() > 1 then Whole(ReverseLast(r.s, f.EndMark())) else r
  }

  /** The loop of `addfield`: emit the high byte of the accumulator while there is one. */
  method EmitBytes(start: seq<Byte>, width: nat, acc: nat) returns (s: seq<Byte>, bitsdone: nat, v: nat)
    requires acc < Pow2(width)
    ensures Built(s, bitsdone, v).Valid()
    ensures Built(s, bitsdone, v).Bits() == BytesBits(start) + NumBits(acc, width)
  {
    s, bitsdone, v := start, width, acc;
    while bitsdone >= 8
      invariant v < Pow2(bitsdone)
      invariant BytesBits(s) + NumBits(v, bitsdone) == BytesBits(start) + NumBits(acc, width)
    {
      bitsdone := bitsdone - 8;
      EmitByte(s, v, bitsdone);
      var high: Byte := v / Pow2(bitsdone);
      s := s + [high];
      v := v % Pow2(bitsdone);
    }
  }

  /** The start of `addfield`: the masked value is shifted into the accumulator. */
  method ShiftIn(acc: nat, width: nat, size: nat, val: int) returns (bitsdone: nat, v: nat)
    requires acc < Pow2(width)
    ensures bitsdone == width + size && v < Pow2(bitsdone)
    ensures NumBits(v, bitsdone) == NumBits(acc, width) + NumBits(val % Pow2(size), size)
  {
    Accumulate(acc, width, val % Pow2(size), size);
    // The shifted accumulator has no bits where the masked value has them: `|` is `+`.
    v := acc * Pow2(size) + val % Pow2(size);
    bitsdone := width + size;
  }

  /** `addfield`: shift the value in, emit bytes, keep the partial byte or apply the mark. */
  method Addfield(f: BitField, st: Built, val: int) returns (r: Built)
    requires st.Valid()
    ensures r.Valid() && r == AddField(f, st, val)
  {
    var bitsdone, v := ShiftIn(st.v, st.bitsdone, f.size, val);
    ghost var carried, added := NumBits(st.v, st.bitsdone), FieldBits(f, val);
    assert BytesBits(st.s) + (carried + added) == st.Bits() + added;
    var s;
    s, bitsdone, v := EmitBytes(st.s, bitsdone, v);
    r := Built(s, bitsdone, v);
    SameBits(r, FromBits(st.Bits() + added));
    if bitsdone == 0 && f.rev && f.endTotSize > 1 {
      r := Whole(ReverseLast(s, f.endTotSize));
    }
  }

  lemma {:induction false} BelowProduct(v: nat, p: nat, x: nat, q: nat)
    requires v < p && x < q
    ensures v * q + x < p * q
  {
    MulBeyond(p - v, q);
    assert p * q == v * q + (p - v) * q;
  }

  lemma {:induction false} Accumulate(v: nat, k: nat, x: nat, n: nat)
    requires v < Pow2(k) && x < Pow2(n)
    ensures v * Pow2(n) + x < Pow2(k + n)
    ensures NumBits(v * Pow2(n) + x, k + n) == NumBits(v, k) + NumBits(x, n)
  {
    NumBitsSplit(v, x, k, n);
    Pow2Add(k, n);
    BelowProduct(v, Pow2(k), x, Pow2(n));
  }

  lemma {:induction false} HighByte(v: nat, p: nat)
    requires p > 0 && v < 256 * p
    ensures 0 <= v / p < 256 && 0 <= v % p < p && v == (v / p) * p + v % p
  {
    MulBeyond(v / p - 255, p);
    assert (v / p - 255) * p == (v / p) * p - 255 * p;
  }

  lemma {:induction false} EmitByte(s: seq<Byte>, v: nat, k: nat)
    requires v < Pow2(k + 8)
    ensures 0 <= v / Pow2(k) < 256 && v % Pow2(k) < Pow2(k)
    ensures BytesBits(s + [v / Pow2(k)]) + NumBits(v % Pow2(k), k) == BytesBits(s) + NumBits(v, k + 8)
  {
    Pow2Add(k, 8);
    Pow2Eight();
    HighByte(v, Pow2(k));
    var hi: Byte, lo := v / Pow2(k), v % Pow2(k);
    NumBitsSplit(hi, lo, 8, k);
    assert (s + [hi])[..|s|] == s;
    assert (BytesBits(s) + NumBits(hi, 8)) + NumBits(lo, k) == BytesBits(s) + (NumBits(hi, 8) + NumBits(lo, k));
  }

  // ----- Dissecting -----

  /** The bytes `getfield` reads from, after the reversal a marked field asks for. */
  function Aligned(f: BitField, st: Rest): (s: seq<Byte>)
    ensures |s| == |st.s|
  {
    if st.bn == 0 && f.StartMark() > 1 then ReverseFirst(st.s, f.StartMark()) else st.s
  }

  /** What is left of s after n bits. */
  function Skip(s: seq<Byte>, n: nat): (r: Rest)
    requires n <= 8 * |s|
    ensures r.Valid() && 8 * |r.s| - r.bn == 8 * |s| - n
  {
    if n < 8 then Rest(s, n) else Skip(s[1..], n - 8)
  }

  lemma {:induction false} SkipIs(s: seq<Byte>, n: nat)
    requires n <= 8 * |s|
    ensures Skip(s, n) == Rest(s[n / 8..], n % 8)
  {
    if n >= 8 {
      SkipIs(s[1..], n - 8);
      assert (n - 8) / 8 == n / 8 - 1;
      assert s[1..][n / 8 - 1..] == s[n / 8..];
    }
  }

  /** Specification of `getfield`: the value is read off the leading bits; too few is an error. */
  function GetField(f: BitField, st: Rest): (r: Reading)
    requires st.Valid()
    ensures r.Got? <==> f.size <= |st.Bits()|
    ensures r.Got? ==> r.rest.Valid()
  {
    var s := Aligned(f, st);
    if f.size > |st.Bits()| then Short
    else Got(Skip(s, st.bn + f.size), BitsNum(BytesBits(s)[st.bn..st.bn + f.size]))
  }

  /** The inner loop of `getfield`: w as one big-endian number. */
  method ReadNumber(w: seq<Byte>) returns (b: int)
    ensures b == BitsNum(BytesBits(w))
  {
    b := 0;
    for c := 0 to |w|
      invariant b == BitsNum(BytesBits(w[..c])) * Pow2((|w| - c) * 8)
    {
      // The byte lands where the number so far has zeros: `|` is `+`.
      AppendByte(w, c, (|w| - c - 1) * 8);
      b := b + w[c] * Pow2((|w| - c - 1) * 8);
    }
    assert w[..|w|] == w;
  }

  /** The arithmetic of `getfield`: a mask for the used bits, a shift for those to come. */
  method ReadValue(s: seq<Byte>, nbBytes: nat, bn: nat, size: nat) returns (b: nat)
    requires nbBytes <= |s| && bn + size <= 8 * nbBytes
    ensures b == BitsNum(BytesBits(s)[bn..bn + size])
  {
    var n := ReadNumber(s[..nbBytes]);
    MaskAndShift(s, nbBytes, bn, size);
    n := n % Pow2(nbBytes * 8 - bn);
    b := n / Pow2(nbBytes * 8 - size - bn);
  }

  /** `getfield`: how many bytes to read, the value, and what is left. */
  method Getfield(f: BitField, st: Rest) returns (r: Reading)
    requires st.Valid()
    ensures r == GetField(f, st)
  {
    var s, bn := st.s, st.bn;
    if bn == 0 && f.rev && f.totSize > 1 {
      s := ReverseFirst(s, f.totSize);
    }
    assert s == Aligned(f, st);
    var nbBytes := (f.size + bn - 1) / 8 + 1;
    BytesNeeded(f.size + bn, nbBytes);
    if nbBytes > |s| {
      return Short; // struct.error: the slice is shorter than the format
    }
    var b := ReadValue(s, nbBytes, bn, f.size);
    bn := bn + f.size;
    SkipIs(s, bn);
    r := Got(Rest(s[bn / 8..], bn % 8), b);
  }

  lemma BytesNeeded(bits: nat, nbBytes: nat)
    requires nbBytes == (bits - 1) / 8 + 1
    ensures 8 * nbBytes >= bits > 8 * nbBytes - 8
  {}

  lemma {:induction false} MaskAndShift(s: seq<Byte>, nb: nat, bn: nat, size: nat)
    requires nb <= |s| && bn + size <= 8 * nb
    ensures BitsNum(BytesBits(s)[bn..bn + size])
         == BitsNum(BytesBits(s[..nb])) % Pow2(nb * 8 - bn) / Pow2(nb * 8 - size - bn)
  {
    var bits := BytesBits(s[..nb]);
    BytesBitsSlice(s, nb);
    BitsNumSplit(bits, bn);
    BitsNumSplit(bits[bn..], size);
    CutOfCut(BytesBits(s), 8 * nb, bn, size);
  }

  lemma CutOfCut<T>(s: seq<T>, n: nat, i: nat, k: nat)
    requires i + k <= n <= |s|
    ensures s[..n][i..][..k] == s[i..i + k]
  {}

  lemma {:induction false} ShiftedSum(n: nat, c: nat, p: nat)
    ensures n * (256 * p) + c * p == (n * 256 + c) * p
  {
    assert n * (256 * p) == (n * 256) * p;
  }

  lemma {:induction false} AppendByte(w: seq<Byte>, c: nat, k: nat)
    requires c < |w|
    ensures BitsNum(BytesBits(w[..c])) * Pow2(k + 8) + w[c] * Pow2(k) == BitsNum(BytesBits(w[..c + 1])) * Pow2(k)
  {
    var n := BitsNum(BytesBits(w[..c]));
    assert BitsNum(BytesBits(w[..c + 1])) == n * 256 + w[c] by {
      assert w[..c + 1][..c] == w[..c];
      BitsNumConcat(BytesBits(w[..c]), NumBits(w[c], 8));
      Pow2Eight();
      BitsNumOfSmall(w[c], 8);
    }
    assert Pow2(k + 8) == 256 * Pow2(k) by {
      Pow2Add(8, k);
      Pow2Eight();
      assert 8 + k == k + 8;
    }
    ShiftedSum(n, w[c], Pow2(k));
  }
}
