/** Searching a packet's layers: `getlayer`, which threads a counter through the tree, and `haslayer`. */
module Layers {
  import opened Bytes

  /** A layer with the packets in its packet-valued fields, in order, and its payload. */
  datatype Packet =
    | NoPayload
    | Packet(cls: nat, matchSubclass: bool, vals: map<string, int>, subs: seq<Packet>, payload: Packet)

  datatype Filter = Filter(name: string, value: int)

  /** The class asked for and the filters; `subclassOf(c, d)` says that class c derives from d. */
  datatype Query = Query(cls: Option<nat>, flt: seq<Filter>, subclassOf: (nat, nat) -> bool)

  /** The class test, exact or by subclass; no class matches everything. */
  predicate ClassMatches(q: Query, cls: nat, sub: bool) {
    q.cls.None? || q.cls.value == cls || (sub && q.subclassOf(cls, q.cls.value))
  }

  /** A field the layer does not have is looked for in its payload; at the end that raises. */
  function FieldVal(p: Packet, name: string): Option<int> {
    if p.NoPayload? then None else if name in p.vals then Some(p.vals[name]) else FieldVal(p.payload, name)
  }

  /** The filters, one after the other, up to the first that fails. */
  function Passes(p: Packet, flt: seq<Filter>): Result<bool> {
    if flt == [] then Ok(true)
    else
      var v := FieldVal(p, flt[0].name);
      if v.None? then Err else if v.value != flt[0].value then Ok(false) else Passes(p, flt[1..])
  }

  function Matches(q: Query, p: Packet, sub: bool): Result<bool>
    requires p.Packet?
  {
    if ClassMatches(q, p.cls, sub) then Passes(p, q.flt) else Ok(false)
  }

  /** Subclass matching, once asked for by a layer, holds for all the layers searched below it. */
  function Inherited(p: Packet, sub: bool): bool
    requires p.Packet?
  {
    sub || p.matchSubclass
  }

  // ----- The preorder flattening -----

  /** A layer that matches, or one whose test raises. */
  datatype Check = Hit(layer: Packet) | Raises

  function Own(q: Query, p: Packet, sub: bool): seq<Check>
    requires p.Packet?
  {
    match Matches(q, p, sub)
    case Err => [Raises]
    case Ok(yes) => if yes then [Hit(p)] else []
  }

  /** What the search meets: the packet, then those in its fields, then those in its payload. */
  function Flatten(q: Query, p: Packet, sub: bool): seq<Check>
    decreases p, 1
  {
    if p.NoPayload? then []
    else
      var s := Inherited(p, sub);
      Own(q, p, s) + FlattenAll(q, p.subs, s) + Flatten(q, p.payload, s)
  }

  function FlattenAll(q: Query, ps: seq<Packet>, sub: bool): seq<Check>
    decreases ps, 0
  {
    if ps == [] then [] else Flatten(q, ps[0], sub) + FlattenAll(q, ps[1..], sub)
  }

  /** The nb-th of the matches, counting from 1, unless a test before it raises. */
  function Nth(ms: seq<Check>, nb: int): Result<Option<Packet>> {
    if ms == [] then Ok(None)
    else if ms[0].Raises? then Err
    else if nb == 1 then Ok(Some(ms[0].layer))
    else Nth(ms[1..], nb - 1)
  }

  /** Found exactly when it is there with matches only before it; raised exactly when a test is met first. */
  lemma {:induction false} NthMeans(ms: seq<Check>, nb: int, p: Packet)
    ensures Nth(ms, nb) == Ok(Some(p)) <==>
            1 <= nb <= |ms| && ms[nb - 1] == Hit(p) && forall k :: 0 <= k < nb - 1 ==> ms[k].Hit?
    ensures Nth(ms, nb).Err? <==> exists k :: 0 <= k < |ms| && ms[k].Raises? && (nb < 1 || k < nb)
  {
    if ms != [] && ms[0].Hit? && nb != 1 {
      var rest := ms[1..];
      NthMeans(rest, nb - 1, p);
      if k :| 0 <= k < |ms| && ms[k].Raises? && (nb < 1 || k < nb) {
        assert rest[k - 1] == ms[k];
      }
      assert forall k :: 0 <= k < |rest| ==> rest[k] == ms[k + 1];
      assert forall k :: 0 < k < |ms| ==> ms[k] == rest[k - 1];
    }
  }

  /** Counting on through two stretches, one after the other. */
  lemma {:induction false} NthAppend(a: seq<Check>, b: seq<Check>, nb: int)
    ensures Nth(a + b, nb) == if Nth(a, nb) == Ok(None) then Nth(b, nb - |a|) else Nth(a, nb)
  {
    if a == [] {
      assert a + b == b;
    } else {
      assert (a + b)[1..] == a[1..] + b;
      NthAppend(a[1..], b, nb - 1);
    }
  }

  // ----- The search -----

  /**
   * `getlayer` for a layer: the match found, and what it appends to `_track`.
   * When it finds nothing it has gone on to a NoPayload, which records the count
   * that is left.
   */
  method GetLayer(q: Query, p: Packet, nb: int, sub: bool) returns (found: Result<Option<Packet>>, track: seq<int>)
    ensures found == Nth(Flatten(q, p, sub), nb)
    ensures found == Ok(None) ==> track == [nb - |Flatten(q, p, sub)|]
    decreases p, 1
  {
    if p.NoPayload? {
      return Ok(None), [nb];
    }
    var left, s := nb, Inherited(p, sub);
    ghost var own, fields, deep := Own(q, p, s), FlattenAll(q, p.subs, s), Flatten(q, p.payload, s);
    NthAppend(own, fields, nb);
    NthAppend(own + fields, deep, nb);
    track := [];
    var matches := Matches(q, p, s);
    if matches.Err? {
      return Err, [];
    }
    if matches.value {
      if left == 1 {
        return Ok(Some(p)), [];
      }
      left := left - 1;
    }
    assert own[..|own|] == own && Nth(own, nb) == Ok(None) && left == nb - |own|;
    found, left := GetInFields(q, p.subs, left, s);
    if found != Ok(None) {
      return;
    }
    found, track := GetLayer(q, p.payload, left, s);
  }

  /** The loop over the packets in the fields: each search takes up the count the one before it left. */
  method GetInFields(q: Query, ps: seq<Packet>, nb: int, sub: bool)
    returns (found: Result<Option<Packet>>, left: int)
    ensures found == Nth(FlattenAll(q, ps, sub), nb)
    ensures found == Ok(None) ==> left == nb - |FlattenAll(q, ps, sub)|
    decreases ps, 0
  {
    left, found := nb, Ok(None);
    ghost var seen := [];
    for i := 0 to |ps|
      invariant seen == FlattenAll(q, ps[..i], sub)
      invariant left == nb - |seen| && Nth(seen, nb) == Ok(None)
    {
      ghost var here := Flatten(q, ps[i], sub);
      SearchStep(q, ps, i, sub, seen, here, nb);
      var track;
      found, track := GetLayer(q, ps[i], left, sub);
      if found != Ok(None) {
        return;
      }
      left := track[0];
      seen := seen + here;
    }
    assert ps[..|ps|] == ps;
    found := Ok(None);
  }

  /** One packet further: what is found in it is found in all of them. */
  lemma {:induction false} SearchStep(q: Query, ps: seq<Packet>, i: nat, sub: bool, seen: seq<Check>, here: seq<Check>,
                                      nb: int)
    requires i < |ps| && seen == FlattenAll(q, ps[..i], sub) && here == Flatten(q, ps[i], sub)
    requires Nth(seen, nb) == Ok(None)
    ensures FlattenAll(q, ps[..i + 1], sub) == seen + here
    ensures Nth(seen + here, nb) == Nth(here, nb - |seen|)
    ensures Nth(here, nb - |seen|) != Ok(None) ==> Nth(FlattenAll(q, ps, sub), nb) == Nth(here, nb - |seen|)
  {
    SplitAt(q, ps, i, sub);
    NthAppend(seen, here, nb);
    NthAppend(seen + here, FlattenAll(q, ps[i + 1..], sub), nb);
  }

  lemma {:induction false} FlattenAppend(q: Query, ps: seq<Packet>, qs: seq<Packet>, sub: bool)
    ensures FlattenAll(q, ps + qs, sub) == FlattenAll(q, ps, sub) + FlattenAll(q, qs, sub)
  {
    if ps == [] {
      assert ps + qs == qs;
    } else {
      assert (ps + qs)[1..] == ps[1..] + qs;
      FlattenAppend(q, ps[1..], qs, sub);
    }
  }

  lemma {:induction false} SplitAt(q: Query, ps: seq<Packet>, i: nat, sub: bool)
    requires i < |ps|
    ensures var front, here := FlattenAll(q, ps[..i], sub), Flatten(q, ps[i], sub);
            FlattenAll(q, ps[..i + 1], sub) == front + here
            && FlattenAll(q, ps, sub) == (front + here) + FlattenAll(q, ps[i + 1..], sub)
  {
    assert ps[..i + 1] == ps[..i] + [ps[i]];
    FlattenAppend(q, ps[..i], [ps[i]], sub);
    assert FlattenAll(q, [ps[i]], sub) == Flatten(q, ps[i], sub);
    assert ps == ps[..i + 1] + ps[i + 1..];
    FlattenAppend(q, ps[..i + 1], ps[i + 1..], sub);
  }

  // ----- haslayer -----

  method HasLayer(q: Query, p: Packet, sub: bool) returns (r: bool)
    requires q.flt == []
    ensures r <==> exists m :: Nth(Flatten(q, p, sub), 1) == Ok(Some(m))
    ensures !r ==> Flatten(q, p, sub) == []
    decreases p, 1
  {
    if p.NoPayload? {
      return false;
    }
    var s := Inherited(p, sub);
    if ClassMatches(q, p.cls, s) {
      return true;
    }
    assert FlattenAll(q, p.subs[..0], s) == [];
    for i := 0 to |p.subs|
      invariant FlattenAll(q, p.subs[..i], s) == []
    {
      SplitAt(q, p.subs, i, s);
      r := HasLayer(q, p.subs[i], s);
      if r {
        return;
      }
    }
    assert p.subs[..|p.subs|] == p.subs;
    r := HasLayer(q, p.payload, s);
  }
}
