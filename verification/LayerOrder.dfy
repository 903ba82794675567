/** Which layers a search meets, and in which order, told by the places of the layers in the packet. */
module LayerOrder {
  import opened Bytes
  import opened Layers

  // ----- Fields and filters -----

  /** The layer d payloads further in. */
  function Deeper(p: Packet, d: nat): Packet {
    if d == 0 || p.NoPayload? then p else Deeper(p.payload, d - 1)
  }

  predicate Has(p: Packet, name: string) {
    p.Packet? && name in p.vals
  }

  /** The d-th layer from p on is the first to have the field. */
  predicate FirstWith(p: Packet, name: string, d: nat) {
    Has(Deeper(p, d), name) && forall e: nat :: e < d ==> !Has(Deeper(p, e), name)
  }

  lemma {:induction false} FieldAt(p: Packet, name: string, d: nat)
    requires FirstWith(p, name, d)
    ensures FieldVal(p, name) == Some(Deeper(p, d).vals[name])
  {
    if d > 0 {
      assert !Has(Deeper(p, 0), name);
      forall e: nat | e < d - 1 ensures !Has(Deeper(p.payload, e), name) {
        assert Deeper(p, e + 1) == Deeper(p.payload, e);
      }
      FieldAt(p.payload, name, d - 1);
    }
  }

  lemma {:induction false} FieldFound(p: Packet, name: string) returns (d: nat)
    requires FieldVal(p, name).Some?
    ensures FirstWith(p, name, d)
  {
    if name in p.vals {
      d := 0;
    } else {
      d := FieldFound(p.payload, name);
      forall e: nat | e < d + 1 ensures !Has(Deeper(p, e), name) {
        assert e > 0 ==> Deeper(p, e) == Deeper(p.payload, e - 1);
      }
      d := d + 1;
    }
  }

  lemma {:induction false} FieldNowhere(p: Packet, name: string, d: nat)
    requires FieldVal(p, name).None?
    ensures !Has(Deeper(p, d), name)
  {
    if d > 0 && p.Packet? {
      FieldNowhere(p.payload, name, d - 1);
    }
  }

  /** A field's value is that of the first layer that has it, and there is none exactly when none has it. */
  lemma {:induction false} FieldOfFirst(p: Packet, name: string)
    ensures forall d: nat :: FirstWith(p, name, d) ==> FieldVal(p, name) == Some(Deeper(p, d).vals[name])
    ensures FieldVal(p, name).None? <==> forall d: nat :: !Has(Deeper(p, d), name)
  {
    forall d: nat | FirstWith(p, name, d) ensures FieldVal(p, name) == Some(Deeper(p, d).vals[name]) {
      FieldAt(p, name, d);
    }
    if FieldVal(p, name).None? {
      forall d: nat ensures !Has(Deeper(p, d), name) {
        FieldNowhere(p, name, d);
      }
    } else {
      var d := FieldFound(p, name);
    }
  }

  /** The first k filters hold. */
  predicate HoldUpTo(p: Packet, flt: seq<Filter>, k: nat)
    requires k <= |flt|
  {
    forall i :: 0 <= i < k ==> FieldVal(p, flt[i].name) == Some(flt[i].value)
  }

  /** A filter's field is nowhere, and all filters before it hold. */
  ghost predicate RaisesAt(p: Packet, flt: seq<Filter>) {
    exists k :: 0 <= k < |flt| && FieldVal(p, flt[k].name).None? && HoldUpTo(p, flt, k)
  }

  lemma {:induction false} PassesMeans(p: Packet, flt: seq<Filter>)
    ensures Passes(p, flt) == Ok(true) <==> HoldUpTo(p, flt, |flt|)
    ensures Passes(p, flt).Err? <==> RaisesAt(p, flt)
  {
    if flt != [] {
      var v, rest := FieldVal(p, flt[0].name), flt[1..];
      PassesMeans(p, rest);
      assert forall i :: 0 <= i < |rest| ==> rest[i] == flt[i + 1];
      if v == Some(flt[0].value) {
        HoldShifts(p, flt);
      } else {
        assert v.None? ==> HoldUpTo(p, flt, 0);
        assert RaisesAt(p, flt) ==> v.None?;
      }
    }
  }

  lemma {:induction false} HoldShifts(p: Packet, flt: seq<Filter>)
    requires flt != [] && FieldVal(p, flt[0].name) == Some(flt[0].value)
    ensures HoldUpTo(p, flt, |flt|) <==> HoldUpTo(p, flt[1..], |flt| - 1)
    ensures RaisesAt(p, flt) <==> RaisesAt(p, flt[1..])
  {
    var rest := flt[1..];
    forall k: nat | k < |flt| ensures HoldUpTo(p, flt, k + 1) <==> HoldUpTo(p, rest, k) {
      assert forall i :: 0 <= i < k ==> rest[i] == flt[i + 1];
      assert forall i :: 0 < i < k + 1 ==> flt[i] == rest[i - 1];
    }
    if RaisesAt(p, flt) {
      var k :| 0 <= k < |flt| && FieldVal(p, flt[k].name).None? && HoldUpTo(p, flt, k);
      assert rest[k - 1] == flt[k] && HoldUpTo(p, rest, k - 1);
    }
    if RaisesAt(p, rest) {
      var k :| 0 <= k < |rest| && FieldVal(p, rest[k].name).None? && HoldUpTo(p, rest, k);
      assert flt[k + 1] == rest[k] && HoldUpTo(p, flt, k + 1);
    }
  }

  // ----- Places -----

  /** From a layer to the i-th packet in its fields, or to its payload. */
  datatype Step = Sub(i: nat) | Down

  type Path = seq<Step>

  predicate Valid(p: Packet, path: Path)
    decreases |path|
  {
    p.Packet? &&
    (path == [] ||
     match path[0]
     case Sub(i) => i < |p.subs| && Valid(p.subs[i], path[1..])
     case Down => Valid(p.payload, path[1..]))
  }

  function At(p: Packet, path: Path): (r: Packet)
    requires Valid(p, path)
    ensures r.Packet?
    decreases |path|
  {
    if path == [] then p
    else
      match path[0]
      case Sub(i) => At(p.subs[i], path[1..])
      case Down => At(p.payload, path[1..])
  }

  /** A layer is before all that is below it; the packets in its fields come in order, before its payload. */
  predicate Precedes(a: Path, b: Path)
    decreases |a|
  {
    b != [] &&
    (a == [] ||
     (if a[0] == b[0] then Precedes(a[1..], b[1..])
      else a[0].Sub? && (b[0].Down? || a[0].i < b[0].i)))
  }

  /** Some layer on the way to the place, or the one there, asks for subclasses to match. */
  predicate AsksSubclass(p: Packet, path: Path)
    requires Valid(p, path)
    decreases |path|
  {
    p.matchSubclass ||
    (path != [] &&
     match path[0]
     case Sub(i) => AsksSubclass(p.subs[i], path[1..])
     case Down => AsksSubclass(p.payload, path[1..]))
  }

  predicate OfClass(q: Query, p: Packet, path: Path, sub: bool)
    requires Valid(p, path)
  {
    var cls := At(p, path).cls;
    match q.cls
    case None => true
    case Some(c) => cls == c || ((sub || AsksSubclass(p, path)) && q.subclassOf(cls, c))
  }

  /** The search stops to look at the layer there, or raises. */
  ghost predicate Met(q: Query, p: Packet, path: Path, sub: bool) {
    Valid(p, path) && OfClass(q, p, path, sub)
    && (HoldUpTo(At(p, path), q.flt, |q.flt|) || RaisesAt(At(p, path), q.flt))
  }

  ghost function CheckAt(q: Query, p: Packet, path: Path): Check
    requires Valid(p, path)
  {
    if RaisesAt(At(p, path), q.flt) then Raises else Hit(At(p, path))
  }

  function Behind(s: Step, paths: seq<Path>): (r: seq<Path>)
    ensures |r| == |paths|
  {
    seq(|paths|, k requires 0 <= k < |paths| => [s] + paths[k])
  }

  /** The places of what `Flatten` lists. */
  function Places(q: Query, p: Packet, sub: bool): seq<Path>
    decreases p, 1
  {
    if p.NoPayload? then []
    else
      var s := Inherited(p, sub);
      (if Own(q, p, s) != [] then [[]] else [])
      + PlacesAll(q, p.subs, 0, s) + Behind(Down, Places(q, p.payload, s))
  }

  function PlacesAll(q: Query, ps: seq<Packet>, i: nat, sub: bool): seq<Path>
    decreases ps, 0
  {
    if ps == [] then [] else Behind(Sub(i), Places(q, ps[0], sub)) + PlacesAll(q, ps[1..], i + 1, sub)
  }

  // ----- Each place once, in order -----

  ghost predicate Increasing(paths: seq<Path>) {
    forall j, k :: 0 <= j < k < |paths| ==> Precedes(paths[j], paths[k])
  }

  lemma {:induction false} BehindIncreasing(s: Step, paths: seq<Path>)
    requires Increasing(paths)
    ensures Increasing(Behind(s, paths))
  {
    forall j, k | 0 <= j < k < |paths| ensures Precedes(Behind(s, paths)[j], Behind(s, paths)[k]) {
      assert ([s] + paths[j])[1..] == paths[j] && ([s] + paths[k])[1..] == paths[k];
    }
  }

  lemma {:induction false} AppendIncreasing(a: seq<Path>, b: seq<Path>)
    requires Increasing(a) && Increasing(b) && forall x, y :: x in a && y in b ==> Precedes(x, y)
    ensures Increasing(a + b)
  {
    forall j, k | 0 <= j < k < |a + b| ensures Precedes((a + b)[j], (a + b)[k]) {
      if j < |a| <= k {
        assert (a + b)[j] in a && (a + b)[k] in b;
      }
    }
  }

  /** The places in the fields' packets from the i-th on start with such a step. */
  lemma {:induction false} StartsAll(q: Query, ps: seq<Packet>, i: nat, sub: bool)
    ensures forall x: Path :: x in PlacesAll(q, ps, i, sub) ==> x != [] && x[0].Sub? && x[0].i >= i
    decreases |ps|
  {
    if ps != [] {
      StartsAll(q, ps[1..], i + 1, sub);
    }
  }

  lemma {:induction false} PlacesIncrease(q: Query, p: Packet, sub: bool)
    ensures Increasing(Places(q, p, sub))
    decreases p, 1
  {
    if p.Packet? {
      var s := Inherited(p, sub);
      var own: seq<Path> := if Own(q, p, s) != [] then [[]] else [];
      var subs, deep := PlacesAll(q, p.subs, 0, s), Behind(Down, Places(q, p.payload, s));
      PlacesAllIncrease(q, p.subs, 0, s);
      StartsAll(q, p.subs, 0, s);
      PlacesIncrease(q, p.payload, s);
      BehindIncreasing(Down, Places(q, p.payload, s));
      AppendIncreasing(own, subs);
      AppendIncreasing(own + subs, deep);
    }
  }

  lemma {:induction false} PlacesAllIncrease(q: Query, ps: seq<Packet>, i: nat, sub: bool)
    ensures Increasing(PlacesAll(q, ps, i, sub))
    decreases ps, 0
  {
    if ps != [] {
      PlacesIncrease(q, ps[0], sub);
      BehindIncreasing(Sub(i), Places(q, ps[0], sub));
      PlacesAllIncrease(q, ps[1..], i + 1, sub);
      StartsAll(q, ps[1..], i + 1, sub);
      AppendIncreasing(Behind(Sub(i), Places(q, ps[0], sub)), PlacesAll(q, ps[1..], i + 1, sub));
    }
  }

  // ----- Exactly the layers wanted -----

  lemma {:induction false} InBehind(s: Step, paths: seq<Path>, path: Path)
    ensures path in Behind(s, paths) <==> path != [] && path[0] == s && path[1..] in paths
  {
    if path != [] && path[0] == s && path[1..] in paths {
      var k :| 0 <= k < |paths| && paths[k] == path[1..];
      assert Behind(s, paths)[k] == path;
    }
    if path in Behind(s, paths) {
      var k :| 0 <= k < |paths| && Behind(s, paths)[k] == path;
      assert path[1..] == paths[k];
    }
  }

  lemma {:induction false} OwnMeans(q: Query, p: Packet, sub: bool)
    requires p.Packet?
    ensures Own(q, p, Inherited(p, sub)) != [] <==> Met(q, p, [], sub)
    ensures Met(q, p, [], sub) ==> Own(q, p, Inherited(p, sub)) == [CheckAt(q, p, [])]
  {
    PassesMeans(p, q.flt);
    assert At(p, []) == p;
  }

  lemma {:induction false} PlacesAre(q: Query, p: Packet, sub: bool, path: Path)
    ensures path in Places(q, p, sub) <==> Met(q, p, path, sub)
    decreases p, 1
  {
    if p.Packet? {
      var s := Inherited(p, sub);
      OwnMeans(q, p, sub);
      StartsAll(q, p.subs, 0, s);
      InBehind(Down, Places(q, p.payload, s), path);
      if path != [] && path[0].Sub? {
        PlacesAllAre(q, p.subs, 0, s, path);
      } else if path != [] {
        PlacesAre(q, p.payload, s, path[1..]);
      }
    }
  }

  lemma {:induction false} PlacesAllAre(q: Query, ps: seq<Packet>, i: nat, sub: bool, path: Path)
    requires path != [] && path[0].Sub?
    ensures path in PlacesAll(q, ps, i, sub) <==>
            i <= path[0].i < i + |ps| && Met(q, ps[path[0].i - i], path[1..], sub)
    decreases ps, 0
  {
    if ps != [] {
      InBehind(Sub(i), Places(q, ps[0], sub), path);
      PlacesAre(q, ps[0], sub, path[1..]);
      PlacesAllAre(q, ps[1..], i + 1, sub, path);
    }
  }

  // ----- What is listed for each place -----

  ghost predicate Lists(q: Query, p: Packet, paths: seq<Path>, ms: seq<Check>) {
    |paths| == |ms| && forall k :: 0 <= k < |ms| ==> Valid(p, paths[k]) && ms[k] == CheckAt(q, p, paths[k])
  }

  lemma ListsAppend(q: Query, p: Packet, a: seq<Path>, ms: seq<Check>, b: seq<Path>, ns: seq<Check>)
    requires Lists(q, p, a, ms) && Lists(q, p, b, ns)
    ensures Lists(q, p, a + b, ms + ns)
  {}

  lemma {:induction false} ListsBehind(q: Query, p: Packet, s: Step, child: Packet, paths: seq<Path>, ms: seq<Check>)
    requires p.Packet? && (if s.Down? then p.payload == child else s.i < |p.subs| && p.subs[s.i] == child)
    requires Lists(q, child, paths, ms)
    ensures Lists(q, p, Behind(s, paths), ms)
  {
    forall k | 0 <= k < |ms| ensures Valid(p, [s] + paths[k]) && ms[k] == CheckAt(q, p, [s] + paths[k]) {
      assert ([s] + paths[k])[1..] == paths[k];
    }
  }

  lemma {:induction false} PlacesList(q: Query, p: Packet, sub: bool)
    ensures Lists(q, p, Places(q, p, sub), Flatten(q, p, sub))
    decreases p, 1
  {
    if p.Packet? {
      var s := Inherited(p, sub);
      var own: seq<Path> := if Own(q, p, s) != [] then [[]] else [];
      var subs, deep := PlacesAll(q, p.subs, 0, s), Behind(Down, Places(q, p.payload, s));
      OwnMeans(q, p, sub);
      PlacesAllList(q, p, 0, s);
      assert p.subs[0..] == p.subs;
      PlacesList(q, p.payload, s);
      ListsBehind(q, p, Down, p.payload, Places(q, p.payload, s), Flatten(q, p.payload, s));
      ListsAppend(q, p, own, Own(q, p, s), subs, FlattenAll(q, p.subs, s));
      ListsAppend(q, p, own + subs, Own(q, p, s) + FlattenAll(q, p.subs, s), deep, Flatten(q, p.payload, s));
    }
  }

  lemma {:induction false} PlacesAllList(q: Query, p: Packet, i: nat, sub: bool)
    requires p.Packet? && i <= |p.subs|
    ensures Lists(q, p, PlacesAll(q, p.subs[i..], i, sub), FlattenAll(q, p.subs[i..], sub))
    decreases p, 0, |p.subs| - i
  {
    if i < |p.subs| {
      assert p.subs[i..][1..] == p.subs[i + 1..];
      PlacesList(q, p.subs[i], sub);
      ListsBehind(q, p, Sub(i), p.subs[i], Places(q, p.subs[i], sub), Flatten(q, p.subs[i], sub));
      PlacesAllList(q, p, i + 1, sub);
      ListsAppend(q, p, Behind(Sub(i), Places(q, p.subs[i], sub)), Flatten(q, p.subs[i], sub),
                  PlacesAll(q, p.subs[i + 1..], i + 1, sub), FlattenAll(q, p.subs[i + 1..], sub));
    }
  }

  /**
   * The search meets exactly the layers of the class asked for whose filters hold or can not be
   * read, each once; a layer before all that is below it, the packets in its fields in order, and
   * all of those before its payload.
   */
  lemma {:induction false} MeetsInOrder(q: Query, p: Packet, sub: bool) returns (paths: seq<Path>)
    ensures |paths| == |Flatten(q, p, sub)|
    ensures forall path :: path in paths <==> Met(q, p, path, sub)
    ensures forall j, k :: 0 <= j < k < |paths| ==> Precedes(paths[j], paths[k])
    ensures forall k :: 0 <= k < |paths| ==>
              Met(q, p, paths[k], sub) && Flatten(q, p, sub)[k] == CheckAt(q, p, paths[k])
  {
    paths := Places(q, p, sub);
    PlacesIncrease(q, p, sub);
    PlacesList(q, p, sub);
    forall path ensures path in paths <==> Met(q, p, path, sub) {
      PlacesAre(q, p, sub, path);
    }
    assert forall k :: 0 <= k < |paths| ==> paths[k] in paths;
  }

  /** No place is before itself, and of two places one is before the other: the order leaves no choice. */
  lemma {:induction false} PrecedesTotal(a: Path, b: Path)
    ensures !(Precedes(a, b) && Precedes(b, a)) && !Precedes(a, a)
    ensures a == b || Precedes(a, b) || Precedes(b, a)
    decreases |a|
  {
    if a != [] {
      PrecedesTotal(a[1..], if b == [] then [] else b[1..]);
      if b != [] && a[0] == b[0] {
        assert a == [a[0]] + a[1..] && b == [b[0]] + b[1..];
      }
    }
  }
}
