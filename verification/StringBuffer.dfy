/** `StringBuffer`: TCP data put in order by relative sequence numbers, gaps filled with zeros. */
module StringBuffers {
  import opened Bytes

  /** content[k] is the byte with sequence number noff + 1 + k. */
  datatype Buffer = Buffer(content: seq<Byte>, contentLen: int, noff: int) {
    predicate Valid() {
      |content| == contentLen && noff <= 0
    }

    /** The first sequence number held. */
    function Low(): int {
      noff + 1
    }

    /** One past the last sequence number held. */
    function High(): int {
      noff + 1 + |content|
    }

    function ByteAt(q: int): Byte {
      if Low() <= q < High() then content[q - Low()] else 0
    }
  }

  const EMPTY := Buffer([], 0, 0)

  function Min(a: int, b: int): int { if a <= b then a else b }

  function Max(a: int, b: int): int { if a >= b then a else b }

  /** The byte at q once data is written at s. */
  function Patched(b: Buffer, data: seq<Byte>, s: int, q: int): Byte {
    if s <= q < s + |data| then data[q - s] else b.ByteAt(q)
  }

  /** b' is b with data written at sequence number s, the window stretched to hold it. */
  ghost predicate Wrote(b: Buffer, b': Buffer, data: seq<Byte>, s: int) {
    && b'.Valid()
    && b'.Low() == Min(b.Low(), s)
    && b'.High() == Max(b.High(), s + |data|)
    && forall q :: b'.ByteAt(q) == Patched(b, data, s, q)
  }

  /** A window and its bytes determine the buffer. */
  lemma {:induction false} Extensional(a: Buffer, b: Buffer)
    requires a.Valid() && b.Valid() && a.Low() == b.Low() && a.High() == b.High()
    requires forall q :: a.ByteAt(q) == b.ByteAt(q)
    ensures a == b
  {
    forall k | 0 <= k < |a.content|
      ensures a.content[k] == b.content[k]
    {
      assert a.ByteAt(a.Low() + k) == b.ByteAt(a.Low() + k);
    }
  }

  /** The sequence number a call without one stands for. */
  function Position(b: Buffer, s: Option<int>): int {
    if s.Some? then s.value else b.contentLen
  }

  ghost function AppendTo(b: Buffer, data: seq<Byte>, s: Option<int>): (b': Buffer)
    requires b.Valid() || data == []
    ensures b.Valid() ==> b'.Valid()
    ensures data == [] ==> b' == b
    ensures data != [] ==> Wrote(b, b', data, Position(b, s))
  {
    if data == [] then b
    else
      SomeBuffer(b, data, Position(b, s));
      var b': Buffer :| Wrote(b, b', data, Position(b, s));
      b'
  }

  lemma {:induction false} SomeBuffer(b: Buffer, data: seq<Byte>, s: int)
    requires b.Valid() && data != []
    ensures exists b' :: Wrote(b, b', data, s)
  {
    var lo, hi := Min(b.Low(), s), Max(b.High(), s + |data|);
    var content := seq<Byte>(hi - lo, k => Patched(b, data, s, lo + k));
    assert Wrote(b, Buffer(content, hi - lo, lo - 1), data, s);
  }

  /** Overwriting a buffer that was only padded with zeros. */
  lemma Overwrite(b: Buffer, padded: Buffer, data: seq<Byte>, s: int)
    requires padded.Valid() && padded.Low() == Min(b.Low(), s) && padded.High() == Max(b.High(), s + |data|)
    requires forall q :: padded.ByteAt(q) == b.ByteAt(q)
    ensures var at := s - padded.Low();
            Wrote(b, padded.(content := padded.content[..at] + data + padded.content[at + |data|..]), data, s)
  {}

  lemma WritesTo(b: Buffer, padded: Buffer, data: seq<Byte>, s: Option<int>, at: int, b': Buffer)
    requires b.Valid() && padded.Valid() && data != [] && at == Position(b, s) - padded.Low()
    requires padded.Low() == Min(b.Low(), Position(b, s)) && padded.High() == Max(b.High(), Position(b, s) + |data|)
    requires forall q :: padded.ByteAt(q) == b.ByteAt(q)
    requires b' == padded.(content := padded.content[..at] + data + padded.content[at + |data|..])
    ensures b' == AppendTo(b, data, s)
  {
    Overwrite(b, padded, data, Position(b, s));
    Extensional(b', AppendTo(b, data, s));
  }

  /** Zeros in front of the window, or behind it, change no byte. */
  lemma PadFront(b: Buffer, k: nat)
    requires b.Valid()
    ensures var p := Buffer(Zeros(k) + b.content, b.contentLen + k, b.noff - k);
            p.Valid() && p.Low() == b.Low() - k && p.High() == b.High() && forall q :: p.ByteAt(q) == b.ByteAt(q)
  {}

  lemma PadBack(b: Buffer, k: nat)
    requires b.Valid()
    ensures var p := Buffer(b.content + Zeros(k), b.contentLen + k, b.noff);
            p.Valid() && p.Low() == b.Low() && p.High() == b.High() + k && forall q :: p.ByteAt(q) == b.ByteAt(q)
  {}

  class StringBuffer {
    var content: seq<Byte>
    var contentLen: int
    var noff: int

    function Snapshot(): Buffer
      reads this
    {
      Buffer(content, contentLen, noff)
    }

    constructor ()
      ensures Snapshot() == EMPTY
    {
      content, contentLen, noff := [], 0, 0;
    }

    method Append(data: seq<Byte>, s: Option<int>)
      requires Snapshot().Valid() || data == []
      modifies this
      ensures Snapshot() == AppendTo(old(Snapshot()), data, s)
    {
      if data == [] {
        return;
      }
      ghost var before := Snapshot();
      var at := if s.Some? then s.value else contentLen;
      at := at - 1 - noff;
      if at < 0 {
        // Data from before the start of the buffer.
        PadFront(Snapshot(), -at);
        content := Zeros(-at) + content;
        contentLen := contentLen - at;
        noff := noff + at;
        at := 0;
      }
      if at + |data| > contentLen {
        // Data from after its end.
        PadBack(Snapshot(), at - contentLen + |data|);
        content := content + Zeros(at - contentLen + |data|);
        contentLen := at + |data|;
      }
      ghost var padded := Snapshot();
      content := content[..at] + data + content[at + |data|..];
      WritesTo(before, padded, data, s, at, Snapshot());
    }

    /** Drop the first i bytes; with Python's slice, a negative i keeps the last -i. */
    method ShiftLeft(i: int)
      modifies this
      ensures content == SliceFrom(old(content), i) && contentLen == old(contentLen) - i && noff == old(noff)
      ensures old(Snapshot().Valid()) ==> (Snapshot().Valid() <==> 0 <= i <= old(contentLen))
    {
      content := SliceFrom(content, i);
      contentLen := contentLen - i;
    }

    method Clear()
      modifies this
      ensures Snapshot() == EMPTY
    {
      content, contentLen, noff := [], 0, 0;
    }
  }

  /** `s[i:]` */
  function SliceFrom(s: seq<Byte>, i: int): seq<Byte> {
    if i > |s| then [] else if i >= 0 then s[i..] else if -i < |s| then s[|s| + i..] else s
  }

  /** A slice from i on drops i bytes; from -i on it keeps the last i, or all if there are fewer. */
  lemma SliceMeans(a: seq<Byte>, b: seq<Byte>)
    ensures SliceFrom(a + b, |a|) == b && (b != [] ==> SliceFrom(a + b, -|b|) == b)
    ensures forall i: int :: i > |a| ==> SliceFrom(a, i) == []
    ensures forall i: int :: i <= -|a| ==> SliceFrom(a, i) == a
  {
    assert (a + b)[|a|..] == b;
  }

  // ----- Whole runs -----

  datatype Write = Write(data: seq<Byte>, s: int)

  ghost function AppendAll(b: Buffer, ws: seq<Write>): (b': Buffer)
    requires b.Valid()
    ensures b'.Valid()
  {
    if ws == [] then b
    else
      var w := ws[|ws| - 1];
      AppendTo(AppendAll(b, ws[..|ws| - 1]), w.data, Some(w.s))
  }

  predicate Covers(w: Write, q: int) {
    w.s <= q < w.s + |w.data|
  }

  /** The byte the last write covering q put there, or zero. */
  function LastWritten(ws: seq<Write>, q: int): Byte {
    if ws == [] then 0
    else
      var w := ws[|ws| - 1];
      if Covers(w, q) then w.data[q - w.s] else LastWritten(ws[..|ws| - 1], q)
  }

  /** The window after ws: from 1, or from the first write before it, to the end of the last. */
  function LowOf(ws: seq<Write>): int {
    if ws == [] then 1
    else
      var w := ws[|ws| - 1];
      if w.data == [] then LowOf(ws[..|ws| - 1]) else Min(LowOf(ws[..|ws| - 1]), w.s)
  }

  function HighOf(ws: seq<Write>): int {
    if ws == [] then 1
    else
      var w := ws[|ws| - 1];
      if w.data == [] then HighOf(ws[..|ws| - 1]) else Max(HighOf(ws[..|ws| - 1]), w.s + |w.data|)
  }

  /** The buffer is the sparse map of the last writers, on the smallest window holding 1 and every write. */
  lemma {:induction false} IsSparseMap(ws: seq<Write>)
    ensures var b := AppendAll(EMPTY, ws);
            b.Low() == LowOf(ws) && b.High() == HighOf(ws) && forall q :: b.ByteAt(q) == LastWritten(ws, q)
  {
    if ws != [] {
      IsSparseMap(ws[..|ws| - 1]);
    }
  }

  // ----- The order of arrival -----

  /** Writes that agree wherever they overlap. */
  ghost predicate Agree(ws: seq<Write>) {
    forall v, w, q :: v in ws && w in ws && Covers(v, q) && Covers(w, q) ==> v.data[q - v.s] == w.data[q - w.s]
  }

  lemma {:induction false} WrittenBySome(ws: seq<Write>, q: int)
    ensures (exists w :: w in ws && Covers(w, q) && LastWritten(ws, q) == w.data[q - w.s])
         || (LastWritten(ws, q) == 0 && forall w :: w in ws ==> !Covers(w, q))
  {
    if ws != [] && !Covers(ws[|ws| - 1], q) {
      var init := ws[..|ws| - 1];
      WrittenBySome(init, q);
      assert forall w :: w in ws ==> w in init || w == ws[|ws| - 1];
    }
  }

  lemma {:induction false} LowIsLeast(ws: seq<Write>)
    ensures LowOf(ws) <= 1 && forall w :: w in ws && w.data != [] ==> LowOf(ws) <= w.s
    ensures LowOf(ws) == 1 || exists w :: w in ws && w.data != [] && LowOf(ws) == w.s
  {
    if ws != [] {
      var init := ws[..|ws| - 1];
      LowIsLeast(init);
      assert forall w :: w in ws <==> w in init || w == ws[|ws| - 1];
    }
  }

  lemma {:induction false} HighIsGreatest(ws: seq<Write>)
    ensures HighOf(ws) >= 1 && forall w :: w in ws && w.data != [] ==> HighOf(ws) >= w.s + |w.data|
    ensures HighOf(ws) == 1 || exists w :: w in ws && w.data != [] && HighOf(ws) == w.s + |w.data|
  {
    if ws != [] {
      var init := ws[..|ws| - 1];
      HighIsGreatest(init);
      assert forall w :: w in ws <==> w in init || w == ws[|ws| - 1];
    }
  }

  /** Fragments that agree can arrive in any order, and any number of times. */
  lemma {:induction false} OrderDoesNotMatter(vs: seq<Write>, ws: seq<Write>)
    requires Agree(vs)
    requires forall w :: w in vs <==> w in ws
    ensures AppendAll(EMPTY, vs) == AppendAll(EMPTY, ws)
  {
    IsSparseMap(vs);
    IsSparseMap(ws);
    LowIsLeast(vs);
    LowIsLeast(ws);
    HighIsGreatest(vs);
    HighIsGreatest(ws);
    var a, b := AppendAll(EMPTY, vs), AppendAll(EMPTY, ws);
    forall q
      ensures a.ByteAt(q) == b.ByteAt(q)
    {
      WrittenBySome(vs, q);
      WrittenBySome(ws, q);
    }
    Extensional(a, b);
  }

  /** Of two segments that disagree on a byte, the one that comes last shows. */
  lemma DisagreementShows(vs: seq<Write>, v: Write, ws: seq<Write>, w: Write, q: int)
    requires Covers(v, q) && Covers(w, q) && v.data[q - v.s] != w.data[q - w.s]
    ensures AppendAll(EMPTY, vs + [v]) != AppendAll(EMPTY, ws + [w])
  {
    IsSparseMap(vs + [v]);
    IsSparseMap(ws + [w]);
    assert AppendAll(EMPTY, vs + [v]).ByteAt(q) == v.data[q - v.s];
    assert AppendAll(EMPTY, ws + [w]).ByteAt(q) == w.data[q - w.s];
  }

  lemma MovedLast(vs: seq<Write>, v: Write) returns (before: seq<Write>)
    requires v in vs
    ensures multiset(before + [v]) == multiset(vs)
  {
    var i :| 0 <= i < |vs| && vs[i] == v;
    before := vs[..i] + vs[i + 1..];
    assert vs == vs[..i] + [v] + vs[i + 1..];
  }

  /** All orders leave the same buffer. */
  ghost predicate OrderIsFree(vs: seq<Write>) {
    forall ws: seq<Write> :: multiset(ws) == multiset(vs) ==> AppendAll(EMPTY, vs) == AppendAll(EMPTY, ws)
  }

  lemma SameElements<T>(vs: seq<T>, ws: seq<T>)
    requires multiset(ws) == multiset(vs)
    ensures forall w :: w in vs <==> w in ws
  {
    forall w ensures w in vs <==> w in ws {
      assert w in multiset(vs) <==> w in multiset(ws);
    }
  }

  /** The order of arrival does not matter exactly when the segments agree wherever they overlap. */
  lemma {:induction false} OrderMattersExactly(vs: seq<Write>)
    ensures OrderIsFree(vs) <==> Agree(vs)
  {
    if Agree(vs) {
      forall ws: seq<Write> | multiset(ws) == multiset(vs) ensures AppendAll(EMPTY, vs) == AppendAll(EMPTY, ws) {
        SameElements(vs, ws);
        OrderDoesNotMatter(vs, ws);
      }
    } else {
      var v, w, q :| v in vs && w in vs && Covers(v, q) && Covers(w, q) && v.data[q - v.s] != w.data[q - w.s];
      var a := MovedLast(vs, v);
      var b := MovedLast(vs, w);
      DisagreementShows(a, v, b, w, q);
    }
  }

  // ----- Appending without a sequence number -----

  /** Data without a sequence number lands at the end exactly when the offset is -1, or nothing is there yet. */
  lemma {:induction false} AppendsAtEndExactly(b: Buffer)
    requires b.Valid()
    ensures (forall data :: AppendTo(b, data, None).content == b.content + data)
            <==> b.noff == -1 || (b.noff == 0 && b.content == [])
  {
    forall data: seq<Byte> | b.noff == -1 || (b.noff == 0 && b.content == [])
      ensures AppendTo(b, data, None).content == b.content + data
    {
      AppendAtEnd(b, data);
    }
    if !(b.noff == -1 || (b.noff == 0 && b.content == [])) {
      var two: seq<Byte> := [1, 2];
      var b', s := AppendTo(b, two, None), b.contentLen;
      assert Wrote(b, b', two, s);
      assert b'.High() - b'.Low() != |b.content + two|;
    }
  }

  lemma {:induction false} AppendAtEnd(b: Buffer, data: seq<Byte>)
    requires b.Valid() && (b.noff == -1 || (b.noff == 0 && b.content == []))
    ensures var b' := AppendTo(b, data, None);
            b'.content == b.content + data && (b'.noff == -1 || (b'.noff == 0 && b'.content == []))
  {
    if data != [] {
      var b' := AppendTo(b, data, None);
      forall k | 0 <= k < |b'.content|
        ensures b'.content[k] == (b.content + data)[k]
      {
        assert b'.ByteAt(b'.Low() + k) == b'.content[k];
        assert k < |b.content| ==> b.ByteAt(b.Low() + k) == b.content[k];
      }
    }
  }
}
