/** The packet object: fields that may hold shared, mutable values, and the two cache slots. */
module Packets {
  import opened Bytes
  import opened FieldsDesc
  import opened PacketCache

  /** A list or flag value: an object that whoever holds it can change. */
  class Box {
    var v: Value

    constructor (v: Value)
      ensures this.v == v
    {
      this.v := v;
    }
  }

  datatype Slot = Plain(v: Value) | Shared(box: Box) {
    function Val(): Value
      reads if Shared? then {box} else {}
    {
      if Plain? then v else box.v
    }
  }

  type Slots = map<string, Slot>

  function Boxes(m: Slots): set<Box> {
    set n | n in m && m[n].Shared? :: m[n].box
  }

  function Values(m: Slots): Env
    reads Boxes(m)
  {
    map n | n in m :: m[n].Val()
  }

  /** The names of values that are not objects of their own. */
  function Fixed(m: Slots): set<string> {
    set n | n in m && m[n].Plain?
  }

  lemma ValuesUpdate(m: Slots, n: string, slot: Slot)
    ensures Values(m[n := slot]) == Values(m)[n := slot.Val()]
  {}

  lemma PlusUpdate(a: Env, b: Env, n: string, v: Value)
    ensures (a + b)[n := v] == a + b[n := v]
  {}

  class Packet {
    const desc: seq<Field>
    var fields: Slots
    var defaultFields: Slots
    var rawPacketCache: Option<seq<Byte>>
    var rawPacketCacheFields: Option<Env>

    function Snapshot(): State
      reads this, Boxes(fields), Boxes(defaultFields)
    {
      State(Values(fields), Fixed(fields), Values(defaultFields), rawPacketCache, rawPacketCacheFields)
    }

    constructor (desc: seq<Field>, defaults: Slots)
      ensures this.desc == desc && fields == map[] && defaultFields == defaults
      ensures rawPacketCache == None && rawPacketCacheFields == None
    {
      this.desc, fields, defaultFields := desc, map[], defaults;
      rawPacketCache, rawPacketCacheFields := None, None;
    }

    /** `self.fields[n] = slot` */
    method Put(n: string, slot: Slot)
      modifies `fields
      ensures fields == old(fields)[n := slot]
      ensures Values(fields) == old(Values(fields))[n := old(slot.Val())]
      ensures Values(defaultFields) == old(Values(defaultFields))
    {
      ValuesUpdate(fields, n, slot);
      fields := fields[n := slot];
    }

    method SetFieldVal(attr: string, val: Slot)
      modifies `fields, `rawPacketCache, `rawPacketCacheFields
      ensures attr in old(defaultFields) ==> fields == old(fields)[attr := val]
      ensures Snapshot() == AfterSet(old(Snapshot()), attr, old(val.Val()), val.Plain?)
    {
      ghost var st, v := Snapshot(), val.Val();
      if attr in defaultFields {
        Put(attr, val);
        rawPacketCache, rawPacketCacheFields := None, None;
        assert Values(defaultFields) == st.defaults;
        assert Values(fields) == st.fields[attr := v];
        AfterSetIs(st, attr, v, val.Plain?, Snapshot());
      }
    }

    method DelFieldVal(attr: string)
      modifies `fields, `rawPacketCache, `rawPacketCacheFields
      ensures attr in old(fields) ==> rawPacketCache == None && rawPacketCacheFields == None
      ensures fields == old(fields) - {attr}
      ensures Snapshot() == AfterDel(old(Snapshot()), attr)
    {
      if attr in fields {
        fields := fields - {attr};
        rawPacketCache, rawPacketCacheFields := None, None;
        assert Values(fields) == old(Values(fields)) - {attr};
      }
    }

    /** A value that can change in place is an object of its own. */
    static method Hold(f: Field, v: Value) returns (slot: Slot)
      ensures slot.Val() == v && (slot.Shared? <==> f.tracked) && (slot.Shared? ==> fresh(slot.box))
    {
      slot := Plain(v);
      if f.tracked {
        var box := new Box(v);
        slot := Shared(box);
      }
    }

    /** Keep a dissected value and, if it can change in place, a copy of it. */
    method Keep(f: Field, v: Value)
      requires rawPacketCacheFields.Some?
      modifies `fields, `rawPacketCacheFields
      ensures Values(defaultFields) == old(Values(defaultFields))
      ensures Values(fields) == old(Values(fields))[f.name := v]
      ensures Fixed(fields) == if f.tracked then old(Fixed(fields)) - {f.name} else old(Fixed(fields)) + {f.name}
      ensures rawPacketCacheFields.Some?
      ensures rawPacketCacheFields.value
           == if f.tracked then old(rawPacketCacheFields.value)[f.name := v] else old(rawPacketCacheFields.value)
    {
      if f.tracked {
        rawPacketCacheFields := Some(rawPacketCacheFields.value[f.name := v]);
      }
      var slot := Hold(f, v);
      assert Values(fields) == old(Values(fields)) && Values(defaultFields) == old(Values(defaultFields));
      Put(f.name, slot);
    }

    /** The loop of `do_dissect`; the copies are taken of the values, not of the boxes. */
    method DissectFields(s: seq<Byte>) returns (r: Result<seq<Byte>>, ghost env: Env)
      requires WellFormed(desc)
      modifies `fields, `rawPacketCacheFields
      ensures Values(defaultFields) == old(Values(defaultFields))
      ensures r.Ok? <==> Dissect(desc, map[], s).Ok?
      ensures r.Ok? ==> Dissect(desc, map[], s) == Ok(Dissected(env, r.value))
      ensures env == Reached(desc, map[], s)
      ensures Values(fields) == old(Values(fields)) + env && rawPacketCacheFields == Some(Copies(desc, env))
      ensures Fixed(fields) == FixedAfter(desc, old(Fixed(fields)), env)
    {
      ghost var before, defaults, fixedBefore := Values(fields), Values(defaultFields), Fixed(fields);
      var rest, e: Env := s, map[];
      env := e;
      rawPacketCacheFields := Some(map[]);
      assert before + env == before;
      for i := 0 to |desc|
        invariant env == e && Upto(desc, s, i, env, rest)
        invariant Values(defaultFields) == defaults
        invariant Values(fields) == before + env
        invariant Fixed(fields) == FixedAfter(desc, fixedBefore, env)
        invariant rawPacketCacheFields == Some(Copies(desc, env))
      {
        var f := desc[i];
        UptoNext(desc, s, i, e, rest);
        if f.active(e) {
          var d := f.dec(e, rest);
          if d.Err? {
            return Err, env;
          }
          var v := d.value.value;
          CopiesExtend(desc, env, i, v);
          PlusUpdate(before, env, f.name, v);
          FixedStep(desc, env, i, v, fixedBefore);
          Keep(f, v);
          e, rest := e[f.name := v], d.value.rest;
          env := e;
        }
      }
      UptoEnd(desc, s, env, rest);
      r := Ok(rest);
    }

    method DoDissect(s: seq<Byte>) returns (r: Result<seq<Byte>>)
      requires WellFormed(desc)
      modifies `fields, `rawPacketCache, `rawPacketCacheFields
      ensures r.Ok? <==> Dissect(desc, map[], s).Ok?
      ensures r.Ok? ==> r.value == Dissect(desc, map[], s).value.rest
      ensures Snapshot() == AfterDissect(desc, old(Snapshot()), s)
    {
      ghost var st, env := Snapshot(), map[];
      r, env := DissectFields(s);
      if r.Ok? {
        rawPacketCache := Some(Consumed(s, r.value));
      }
      assert Values(fields) == st.fields + env && Values(defaultFields) == st.defaults;
      AfterDissectIs(desc, st, s, r, env, Snapshot());
    }

    /** Whether every copy still equals the value it was taken of. */
    method CopiesHold(copies: Env, ghost st: State) returns (same: bool)
      requires st == Snapshot() && rawPacketCacheFields == Some(copies)
      ensures same == CopiesMatch(st) && Snapshot() == st
    {
      var names := copies.Keys;
      same := true;
      while names != {}
        invariant names <= copies.Keys
        invariant same
        invariant forall n :: n in copies && n !in names ==> n in st.Current() && st.Current()[n] == copies[n]
      {
        var n :| n in names;
        if n in fields {
          same := fields[n].Val() == copies[n];
        } else {
          same := n in defaultFields && defaultFields[n].Val() == copies[n];
        }
        if !same {
          return;
        }
        names := names - {n};
      }
    }

    /** `self_build` without the cache. */
    method BuildFields(ghost st: State) returns (r: Result<seq<Byte>>)
      requires st == Snapshot()
      ensures r == Build(desc, map[], st.Current()) && Snapshot() == st
    {
      ghost var vals := st.Current();
      var p: seq<Byte>, env: Env := [], map[];
      PrependTwice([], [], Build(desc, env, vals));
      for i := 0 to |desc|
        invariant st == Snapshot()
        invariant Build(desc, map[], vals) == Prepend(p, Build(desc[i..], env, vals))
      {
        var f := desc[i];
        assert desc[i..][1..] == desc[i + 1..];
        if f.active(env) {
          if f.name !in fields && f.name !in defaultFields {
            return Err;
          }
          var v := if f.name in fields then fields[f.name].Val() else defaultFields[f.name].Val();
          var b := f.enc(env, v);
          if b.Err? {
            return Err;
          }
          env := env[f.name := v];
          PrependTwice(p, b.value, Build(desc[i + 1..], env, vals));
          p := p + b.value;
        }
      }
      assert desc[|desc|..] == [] && Build([], env, vals) == Ok([]) && p + [] == p;
      r := Ok(p);
    }

    /** Drop the cache if a copy no longer equals the value it was taken of. */
    method CheckCache()
      modifies `rawPacketCache, `rawPacketCacheFields
      ensures Snapshot() == AfterBuild(old(Snapshot()))
      ensures rawPacketCache.Some? && rawPacketCacheFields.Some? <==> UsesCache(old(Snapshot()))
    {
      ghost var before := Snapshot();
      if rawPacketCache.Some? && rawPacketCacheFields.Some? {
        var same := CopiesHold(rawPacketCacheFields.value, before);
        if !same {
          rawPacketCache, rawPacketCacheFields := None, None;
        }
      }
    }

    method SelfBuild() returns (r: Result<seq<Byte>>)
      modifies `rawPacketCache, `rawPacketCacheFields
      ensures r == Built(desc, old(Snapshot()))
      ensures Snapshot() == AfterBuild(old(Snapshot()))
    {
      CheckCache();
      if rawPacketCache.Some? && rawPacketCacheFields.Some? {
        return Ok(rawPacketCache.value);
      }
      r := BuildFields(Snapshot());
    }
  }

  lemma AfterSetIs(st: State, n: string, v: Value, fixed: bool, st': State)
    requires n in st.defaults && st'.fields == st.fields[n := v] && st'.defaults == st.defaults
    requires st'.fixed == if fixed then st.fixed + {n} else st.fixed - {n}
    requires st'.cache == None && st'.cacheFields == None
    ensures st' == AfterSet(st, n, v, fixed)
  {}

  lemma AfterDissectIs(desc: seq<Field>, st: State, s: seq<Byte>, r: Result<seq<Byte>>, env: Env, st': State)
    requires env == Reached(desc, map[], s)
    requires if r.Ok? then Dissect(desc, map[], s) == Ok(Dissected(env, r.value)) else Dissect(desc, map[], s).Err?
    requires st'.fixed == FixedAfter(desc, st.fixed, env)
    requires st'.fields == st.fields + env && st'.defaults == st.defaults && st'.cacheFields == Some(Copies(desc, env))
    requires st'.cache == if r.Ok? then Some(Consumed(s, r.value)) else st.cache
    ensures st' == AfterDissect(desc, st, s)
  {}

  /** The dissection of s has passed the first i fields. */
  ghost predicate Upto(desc: seq<Field>, s: seq<Byte>, i: nat, env: Env, rest: seq<Byte>) {
    && i <= |desc| && Before(desc, env, i)
    && Dissect(desc, map[], s) == Dissect(desc[i..], env, rest)
    && Reached(desc, map[], s) == Reached(desc[i..], env, rest)
  }

  lemma UptoNext(desc: seq<Field>, s: seq<Byte>, i: nat, env: Env, rest: seq<Byte>)
    requires WellFormed(desc) && Upto(desc, s, i, env, rest) && i < |desc|
    ensures Before(desc, env, i)
    ensures !desc[i].active(env) ==> Upto(desc, s, i + 1, env, rest)
    ensures desc[i].active(env) ==>
              match desc[i].dec(env, rest)
              case Err => Dissect(desc, map[], s).Err? && Reached(desc, map[], s) == env
              case Ok(d) => Upto(desc, s, i + 1, env[desc[i].name := d.value], d.rest)
  {
    assert desc[i..][1..] == desc[i + 1..];
    if desc[i].active(env) && desc[i].dec(env, rest).Ok? {
      CopiesExtend(desc, env, i, desc[i].dec(env, rest).value.value);
    }
  }

  lemma UptoEnd(desc: seq<Field>, s: seq<Byte>, env: Env, rest: seq<Byte>)
    requires Upto(desc, s, |desc|, env, rest)
    ensures Dissect(desc, map[], s) == Ok(Dissected(env, rest)) && Reached(desc, map[], s) == env
  {
    assert desc[|desc|..] == [];
  }

  function Prepend(p: seq<Byte>, r: Result<seq<Byte>>): Result<seq<Byte>> {
    if r.Ok? then Ok(p + r.value) else Err
  }

  lemma {:induction false} PrependTwice(p: seq<Byte>, q: seq<Byte>, r: Result<seq<Byte>>)
    ensures Prepend([], r) == r
    ensures Prepend(p, Prepend(q, r)) == Prepend(p + q, r)
  {
    if r.Ok? {
      assert [] + r.value == r.value && p + (q + r.value) == (p + q) + r.value;
    }
  }

  /** env has entries for the first i fields only. */
  ghost predicate Before(desc: seq<Field>, env: Env, i: nat) {
    forall n :: n in env ==> exists j :: 0 <= j < i && j < |desc| && desc[j].name == n
  }

  lemma {:induction false} CopiesExtend(desc: seq<Field>, env: Env, i: nat, v: Value)
    requires WellFormed(desc) && i < |desc| && Before(desc, env, i)
    ensures Copies(desc, env[desc[i].name := v])
         == if desc[i].tracked then Copies(desc, env)[desc[i].name := v] else Copies(desc, env)
    ensures Before(desc, env[desc[i].name := v], i + 1)
  {
    var n := desc[i].name;
    assert Tracked(desc, n) <==> desc[i].tracked;
    assert n !in env;
  }

  lemma {:induction false} FixedStep(desc: seq<Field>, env: Env, i: nat, v: Value, fixed: set<string>)
    requires WellFormed(desc) && i < |desc| && Before(desc, env, i)
    ensures FixedAfter(desc, fixed, env[desc[i].name := v])
         == if desc[i].tracked then FixedAfter(desc, fixed, env) - {desc[i].name}
            else FixedAfter(desc, fixed, env) + {desc[i].name}
  {
    var n := desc[i].name;
    assert Tracked(desc, n) <==> desc[i].tracked;
    assert n !in env;
  }
}
