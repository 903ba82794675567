/**
 * The table of packets awaiting an answer: a dictionary of lists, keyed by
 * `hashret` and kept in insertion order, against one list in send order.
 */
module SentTable {
  import opened Bytes

  datatype Packet = Packet(hashret: int, id: int)

  datatype QueryAnswer = QueryAnswer(query: Packet, answer: Packet)

  type Answers = (Packet, Packet) -> bool

  datatype Bucket = Bucket(hash: int, sent: seq<Packet>)

  type Table = seq<Bucket>

  /** The list under a key, empty when the key is absent. */
  function Lookup(t: Table, h: int): seq<Packet> {
    if t == [] then [] else if t[0].hash == h then t[0].sent else Lookup(t[1..], h)
  }

  predicate HasKey(t: Table, h: int) {
    t != [] && (t[0].hash == h || HasKey(t[1..], h))
  }

  predicate DistinctKeys(t: Table) {
    t != [] ==> !HasKey(t[1..], t[0].hash) && DistinctKeys(t[1..])
  }

  /** `t.setdefault(p.hashret(), []).append(p)` */
  function Add(t: Table, p: Packet): Table {
    if t == [] then [Bucket(p.hashret, [p])]
    else if t[0].hash == p.hashret then [Bucket(t[0].hash, t[0].sent + [p])] + t[1..]
    else [t[0]] + Add(t[1..], p)
  }

  /** Change the list under an existing key. */
  function Store(t: Table, h: int, sent: seq<Packet>): Table {
    if t == [] then []
    else if t[0].hash == h then [Bucket(h, sent)] + t[1..]
    else [t[0]] + Store(t[1..], h, sent)
  }

  /** `list(itertools.chain(*t.values()))` */
  function Chain(t: Table): seq<Packet> {
    if t == [] then [] else t[0].sent + Chain(t[1..])
  }

  // ----- Searching -----

  /** What a search takes out of a list, and what it leaves. */
  datatype Pick = Pick(found: Option<Packet>, rest: seq<Packet>)

  /** Take out the first packet that r answers; if hashed, among those with its hash. */
  function Take(sent: seq<Packet>, r: Packet, answers: Answers, hashed: bool): Pick {
    if sent == [] then Pick(None, [])
    else if (hashed ==> sent[0].hashret == r.hashret) && answers(r, sent[0]) then Pick(Some(sent[0]), sent[1..])
    else
      var tail := Take(sent[1..], r, answers, hashed);
      Pick(tail.found, [sent[0]] + tail.rest)
  }

  function PickFrom(t: Table, r: Packet, answers: Answers): Pick {
    Take(Lookup(t, r.hashret), r, answers, false)
  }

  function OfHash(sent: seq<Packet>, h: int): seq<Packet> {
    if sent == [] then []
    else (if sent[0].hashret == h then [sent[0]] else []) + OfHash(sent[1..], h)
  }

  function Found(p: Pick): multiset<Packet> {
    if p.found.Some? then multiset{p.found.value} else multiset{}
  }

  lemma {:induction false} TakeConserves(sent: seq<Packet>, r: Packet, answers: Answers, hashed: bool)
    ensures var p := Take(sent, r, answers, hashed);
            multiset(sent) == Found(p) + multiset(p.rest)
            && (p.found.None? ==> p.rest == sent)
            && |sent| == |p.rest| + (if p.found.Some? then 1 else 0)
            && (p.found.Some? ==> answers(r, p.found.value))
  {
    if sent != [] {
      TakeConserves(sent[1..], r, answers, hashed);
      var p, tail := Take(sent, r, answers, hashed), Take(sent[1..], r, answers, hashed);
      HeadOut(sent, sent[1..]);
      if p.rest != sent[1..] {
        HeadOut(p.rest, tail.rest);
        Rotate(multiset{sent[0]}, Found(tail), multiset(tail.rest));
      }
    }
  }

  lemma Rotate<T>(a: multiset<T>, b: multiset<T>, c: multiset<T>)
    ensures a + (b + c) == b + (a + c)
  {}

  lemma {:induction false} Cancel<T>(a: multiset<T>, b: multiset<T>, c: multiset<T>)
    requires a + b == a + c
    ensures b == c
  {
    assert b == (a + b) - a && c == (a + c) - a;
  }

  lemma {:induction false} HeadOut(sent: seq<Packet>, tail: seq<Packet>)
    requires sent != [] && sent[1..] == tail
    ensures multiset(sent) == multiset{sent[0]} + multiset(tail) && sent == [sent[0]] + tail
  {
    assert sent == [sent[0]] + tail;
  }

  /** Searching a bucket is searching the whole list for the same hash. */
  lemma {:induction false} TakeOfHash(sent: seq<Packet>, r: Packet, answers: Answers, h: int)
    ensures var p := Take(sent, r, answers, true);
            if h == r.hashret then
              Take(OfHash(sent, h), r, answers, false) == Pick(p.found, OfHash(p.rest, h))
            else
              OfHash(p.rest, h) == OfHash(sent, h)
  {
    if sent != [] {
      TakeOfHash(sent[1..], r, answers, h);
      var p, tail := Take(sent, r, answers, true), Take(sent[1..], r, answers, true);
      var rest := OfHash(sent[1..], h);
      if sent[0].hashret == h {
        assert OfHash(sent, h) == [sent[0]] + rest && OfHash(sent, h)[1..] == rest;
      } else {
        assert OfHash(sent, h) == rest;
      }
      if p.rest != sent[1..] {
        assert p.rest[0] == sent[0] && p.rest[1..] == tail.rest;
      }
    }
  }

  /** Where a plain scan and the hashed one part: the first packet answered has another hash. */
  lemma {:induction false} ScanAgrees(sent: seq<Packet>, r: Packet, answers: Answers)
    ensures var scan := Take(sent, r, answers, false);
            scan == Take(sent, r, answers, true)
            <==> (scan.found.Some? ==> scan.found.value.hashret == r.hashret)
  {
    if sent != [] {
      ScanAgrees(sent[1..], r, answers);
      if !answers(r, sent[0]) {
        var a, b := Take(sent[1..], r, answers, false), Take(sent[1..], r, answers, true);
        assert ([sent[0]] + a.rest)[1..] == a.rest && ([sent[0]] + b.rest)[1..] == b.rest;
      } else if sent[0].hashret != r.hashret {
        TakeConserves(sent[1..], r, answers, true);
        TakeHashed(sent, r, answers);
      }
    }
  }

  lemma {:induction false} TakeHashed(sent: seq<Packet>, r: Packet, answers: Answers)
    ensures var p := Take(sent, r, answers, true); p.found.Some? ==> p.found.value.hashret == r.hashret
  {
    if sent != [] {
      TakeHashed(sent[1..], r, answers);
    }
  }

  // ----- The table stands for the list -----

  /** t holds the packets of `sent`, each bucket in send order. */
  ghost predicate Represents(t: Table, sent: seq<Packet>) {
    && DistinctKeys(t)
    && multiset(Chain(t)) == multiset(sent)
    && forall h :: Lookup(t, h) == OfHash(sent, h)
  }

  lemma {:induction false} LookupAbsent(t: Table, h: int)
    requires !HasKey(t, h)
    ensures Lookup(t, h) == []
  {
    if t != [] {
      LookupAbsent(t[1..], h);
    }
  }

  lemma {:induction false} AddLookup(t: Table, p: Packet, h: int)
    ensures Lookup(Add(t, p), h) == Lookup(t, h) + (if h == p.hashret then [p] else [])
    ensures HasKey(Add(t, p), h) <==> HasKey(t, h) || h == p.hashret
  {
    if t != [] {
      AddLookup(t[1..], p, h);
      assert Add(t, p)[1..] == if t[0].hash == p.hashret then t[1..] else Add(t[1..], p);
    }
  }

  lemma {:induction false} AddKeeps(t: Table, p: Packet)
    ensures multiset(Chain(Add(t, p))) == multiset(Chain(t)) + multiset{p}
    ensures DistinctKeys(t) ==> DistinctKeys(Add(t, p))
  {
    if t != [] {
      AddKeeps(t[1..], p);
      AddLookup(t[1..], p, t[0].hash);
      assert Add(t, p)[1..] == if t[0].hash == p.hashret then t[1..] else Add(t[1..], p);
    }
  }

  lemma {:induction false} OfHashAppend(sent: seq<Packet>, p: Packet, h: int)
    ensures OfHash(sent + [p], h) == OfHash(sent, h) + (if h == p.hashret then [p] else [])
  {
    if sent == [] {
      assert sent + [p] == [p];
    } else {
      OfHashAppend(sent[1..], p, h);
      assert (sent + [p])[1..] == sent[1..] + [p];
    }
  }

  lemma {:induction false} AddRepresents(t: Table, sent: seq<Packet>, p: Packet)
    requires Represents(t, sent)
    ensures Represents(Add(t, p), sent + [p])
  {
    AddKeeps(t, p);
    forall h
      ensures Lookup(Add(t, p), h) == OfHash(sent + [p], h)
    {
      AddLookup(t, p, h);
      OfHashAppend(sent, p, h);
    }
  }

  lemma {:induction false} StoreLookup(t: Table, k: int, sent: seq<Packet>, h: int)
    requires HasKey(t, k)
    ensures Lookup(Store(t, k, sent), h) == if h == k then sent else Lookup(t, h)
    ensures HasKey(Store(t, k, sent), h) <==> HasKey(t, h)
  {
    if t[0].hash != k {
      StoreLookup(t[1..], k, sent, h);
      assert Store(t, k, sent)[1..] == Store(t[1..], k, sent);
    } else {
      assert Store(t, k, sent)[1..] == t[1..];
    }
  }

  /** The packets under the other keys. */
  function Others(t: Table, k: int): multiset<Packet> {
    if t == [] then multiset{}
    else if t[0].hash == k then multiset(Chain(t[1..]))
    else multiset(t[0].sent) + Others(t[1..], k)
  }

  lemma {:induction false} ChainOthers(t: Table, k: int)
    ensures multiset(Chain(t)) == multiset(Lookup(t, k)) + Others(t, k)
  {
    if t != [] && t[0].hash != k {
      ChainOthers(t[1..], k);
      Rotate(multiset(t[0].sent), multiset(Lookup(t[1..], k)), Others(t[1..], k));
    }
  }

  lemma {:induction false} StoreOthers(t: Table, k: int, sent: seq<Packet>)
    requires HasKey(t, k)
    ensures Others(Store(t, k, sent), k) == Others(t, k)
  {
    if t[0].hash != k {
      StoreOthers(t[1..], k, sent);
      assert Store(t, k, sent)[1..] == Store(t[1..], k, sent);
    } else {
      assert Store(t, k, sent)[1..] == t[1..];
    }
  }

  lemma {:induction false} StoreDistinct(t: Table, k: int, sent: seq<Packet>)
    requires HasKey(t, k) && DistinctKeys(t)
    ensures DistinctKeys(Store(t, k, sent))
  {
    if t[0].hash != k {
      StoreDistinct(t[1..], k, sent);
      StoreLookup(t[1..], k, sent, t[0].hash);
      assert Store(t, k, sent)[1..] == Store(t[1..], k, sent);
    } else {
      assert Store(t, k, sent)[1..] == t[1..];
    }
  }

  /** The search in the bucket finds what the hashed scan finds, and its deletion keeps the table in step. */
  lemma {:induction false} PickRepresents(t: Table, sent: seq<Packet>, r: Packet, answers: Answers)
    requires Represents(t, sent)
    ensures var p, q := PickFrom(t, r, answers), Take(sent, r, answers, true);
            p.found == q.found
            && (p.found.Some? ==> HasKey(t, r.hashret) && Represents(Store(t, r.hashret, p.rest), q.rest))
  {
    var k, p, q := r.hashret, PickFrom(t, r, answers), Take(sent, r, answers, true);
    TakeOfHash(sent, r, answers, k);
    if p.found.Some? {
      if !HasKey(t, k) {
        LookupAbsent(t, k);
      }
      StoreDistinct(t, k, p.rest);
      PickChain(t, sent, r, answers);
      forall h
        ensures Lookup(Store(t, k, p.rest), h) == OfHash(q.rest, h)
      {
        StoreLookup(t, k, p.rest, h);
        TakeOfHash(sent, r, answers, h);
      }
    }
  }

  lemma {:induction false} PickChain(t: Table, sent: seq<Packet>, r: Packet, answers: Answers)
    requires Represents(t, sent) && HasKey(t, r.hashret)
    ensures var p, q := PickFrom(t, r, answers), Take(sent, r, answers, true);
            multiset(Chain(Store(t, r.hashret, p.rest))) == multiset(q.rest)
  {
    var k, p, q := r.hashret, PickFrom(t, r, answers), Take(sent, r, answers, true);
    var t', others := Store(t, k, p.rest), Others(t, k);
    TakeOfHash(sent, r, answers, k);
    TakeConserves(sent, r, answers, true);
    TakeConserves(Lookup(t, k), r, answers, false);
    ChainOthers(t, k);
    ChainOthers(t', k);
    StoreOthers(t, k, p.rest);
    StoreLookup(t, k, p.rest, k);
    assert (Found(p) + multiset(p.rest)) + others == Found(p) + (multiset(p.rest) + others);
    Cancel(Found(p), multiset(Chain(t')), multiset(q.rest));
  }

  /** When an answer always has its query's hash, the table picks what a scan of all packets picks. */
  lemma {:induction false} PickIsScan(t: Table, sent: seq<Packet>, r: Packet, answers: Answers)
    requires Represents(t, sent)
    requires forall s :: answers(r, s) ==> s.hashret == r.hashret
    ensures PickFrom(t, r, answers).found == Take(sent, r, answers, false).found
  {
    PickRepresents(t, sent, r, answers);
    ScanAgrees(sent, r, answers);
    TakeConserves(sent, r, answers, false);
  }
}
