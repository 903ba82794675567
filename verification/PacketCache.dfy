/**
 * A packet's field values and the cache of the bytes it was dissected from.
 * Assignments drop the cache; values edited in place are noticed by comparing
 * them with copies taken at dissection.
 */
module PacketCache {
  import opened Bytes
  import opened FieldsDesc

  /**
   * Field values by name: those set or dissected, and the defaults behind them. `fixed` are the names
   * whose own values can not change in place.
   */
  datatype State = State(fields: Env, fixed: set<string>, defaults: Env,
                         cache: Option<seq<Byte>>, cacheFields: Option<Env>) {
    function Current(): Env {
      defaults + fields
    }
  }

  predicate Tracked(desc: seq<Field>, n: string) {
    exists i :: 0 <= i < |desc| && desc[i].name == n && desc[i].tracked
  }

  datatype Op =
    | DoDissect(s: seq<Byte>)
    | Set(name: string, val: Value, fixed: bool)
    | Del(name: string)
    | Edit(changes: Env, inDefaults: Env) // lists and flags edited in place
    | SelfBuild

  /** `_raw[:-len(s)] if s else _raw`, where s is the end of _raw that is left. */
  function Consumed(s: seq<Byte>, rest: seq<Byte>): seq<Byte> {
    if |rest| <= |s| then s[..|s| - |rest|] else []
  }

  /** The copies kept of a dissection's tracked values. */
  function Copies(desc: seq<Field>, env: Env): Env {
    map n | n in env && Tracked(desc, n) :: env[n]
  }

  predicate CopiesMatch(st: State) {
    && st.cacheFields.Some?
    && forall n :: n in st.cacheFields.value ==> n in st.Current() && st.Current()[n] == st.cacheFields.value[n]
  }

  /** The copies do not match: a build gives the cached bytes up. */
  predicate DropsCache(st: State) {
    st.cache.Some? && st.cacheFields.Some? && !CopiesMatch(st)
  }

  predicate UsesCache(st: State) {
    st.cache.Some? && CopiesMatch(st)
  }

  /** What `self_build` returns. */
  function Built(desc: seq<Field>, st: State): Result<seq<Byte>> {
    if UsesCache(st) then Ok(st.cache.value) else Build(desc, map[], st.Current())
  }

  function Edited(vals: Env, fixed: set<string>, changes: Env): Env {
    map n | n in vals :: if n in changes && n !in fixed then changes[n] else vals[n]
  }

  /** Dissected values that are not tracked can not change in place. */
  function FixedIn(desc: seq<Field>, e: Env): set<string> {
    set n | n in e && !Tracked(desc, n)
  }

  function FixedAfter(desc: seq<Field>, fixed: set<string>, e: Env): set<string> {
    (fixed - e.Keys) + FixedIn(desc, e)
  }

  /** When a field raises, the values read before it are set, and the cached bytes are not. */
  function AfterDissect(desc: seq<Field>, st: State, s: seq<Byte>): State {
    var r, e := Dissect(desc, map[], s), Reached(desc, map[], s);
    var cache := if r.Err? then st.cache else Some(Consumed(s, r.value.rest));
    State(st.fields + e, FixedAfter(desc, st.fixed, e), st.defaults, cache, Some(Copies(desc, e)))
  }

  function AfterSet(st: State, n: string, v: Value, fixed: bool): State {
    if n in st.defaults then
      State(st.fields[n := v], if fixed then st.fixed + {n} else st.fixed - {n}, st.defaults, None, None)
    else st
  }

  function AfterDel(st: State, n: string): State {
    if n in st.fields then State(st.fields - {n}, st.fixed - {n}, st.defaults, None, None) else st
  }

  function AfterBuild(st: State): State {
    if DropsCache(st) then st.(cache := None, cacheFields := None) else st
  }

  function Apply(desc: seq<Field>, st: State, op: Op): State {
    match op
    case DoDissect(s) => AfterDissect(desc, st, s)
    case Set(n, v, fixed) => AfterSet(st, n, v, fixed)
    case Del(n) => AfterDel(st, n)
    case Edit(changes, inDefaults) =>
      st.(fields := Edited(st.fields, st.fixed, changes), defaults := Edited(st.defaults, {}, inDefaults))
    case SelfBuild => AfterBuild(st)
  }

  function Run(desc: seq<Field>, defaults: Env, ops: seq<Op>): State {
    if ops == [] then State(map[], {}, defaults, None, None)
    else Apply(desc, Run(desc, defaults, ops[..|ops| - 1]), ops[|ops| - 1])
  }

  // ----- The invariant -----

  /** The cached bytes dissect to e, which the copies and the other fields still hold. */
  ghost predicate CacheHolds(desc: seq<Field>, st: State, e: Env) {
    && st.cache.Some? && st.cacheFields.Some?
    && Dissect(desc, map[], st.cache.value) == Ok(Dissected(e, []))
    && st.cacheFields.value == Copies(desc, e)
    && forall n :: n in e ==> n in st.fields && (Tracked(desc, n) || (st.fields[n] == e[n] && n in st.fixed))
  }

  ghost predicate Coherent(desc: seq<Field>, st: State) {
    st.cache.Some? ==> exists e :: CacheHolds(desc, st, e)
  }

  /** A dissection raises while there are cached bytes of an earlier one. */
  predicate FailsOnCached(desc: seq<Field>, st: State, op: Op) {
    op.DoDissect? && Dissect(desc, map[], op.s).Err? && st.cache.Some?
  }

  lemma DissectCaches(desc: seq<Field>, st: State, s: seq<Byte>)
    requires WellFormed(desc)
    ensures Dissect(desc, map[], s).Ok? ==> Coherent(desc, Apply(desc, st, DoDissect(s)))
  {
    if Dissect(desc, map[], s).Ok? {
      var d := Dissect(desc, map[], s).value;
      DissectPrefix(desc, map[], s, []);
      assert s[..|s| - |d.rest|] + [] == Consumed(s, d.rest);
      NewCacheHolds(desc, st, s, d);
    }
  }

  lemma NewCacheHolds(desc: seq<Field>, st: State, s: seq<Byte>, d: Dissected)
    requires Dissect(desc, map[], s) == Ok(d) && Dissect(desc, map[], Consumed(s, d.rest)) == Ok(Dissected(d.env, []))
    ensures CacheHolds(desc, Apply(desc, st, DoDissect(s)), d.env)
  {}

  lemma {:induction false} ApplyKeeps(desc: seq<Field>, st: State, op: Op)
    requires WellFormed(desc) && Coherent(desc, st) && !FailsOnCached(desc, st, op)
    ensures Coherent(desc, Apply(desc, st, op))
  {
    match op
    case DoDissect(s) => DissectCaches(desc, st, s);
    case Edit(changes, _) =>
      if st.cache.Some? {
        var e :| CacheHolds(desc, st, e);
        assert CacheHolds(desc, Apply(desc, st, op), e);
      }
    case Set(n, v, fixed) =>
    case Del(n) =>
    case SelfBuild =>
  }

  /**
   * The run ends with the cached bytes of a dissection before one that raised: no assignment,
   * deletion, build or dissection since has put an end to them.
   */
  predicate Tainted(desc: seq<Field>, defaults: Env, ops: seq<Op>) {
    ops != [] &&
      var init, op := ops[..|ops| - 1], ops[|ops| - 1];
      var st := Run(desc, defaults, init);
      match op
      case DoDissect(s) => FailsOnCached(desc, st, op)
      case Set(n, _, _) => n !in st.defaults && Tainted(desc, defaults, init)
      case Del(n) => n !in st.fields && Tainted(desc, defaults, init)
      case Edit(_, _) => Tainted(desc, defaults, init)
      case SelfBuild => !DropsCache(st) && Tainted(desc, defaults, init)
  }

  lemma {:induction false} RunKeeps(desc: seq<Field>, defaults: Env, ops: seq<Op>)
    requires WellFormed(desc) && !Tainted(desc, defaults, ops)
    ensures Coherent(desc, Run(desc, defaults, ops))
  {
    if ops != [] {
      var init, op := ops[..|ops| - 1], ops[|ops| - 1];
      var st := Run(desc, defaults, init);
      if op.DoDissect? {
        if Dissect(desc, map[], op.s).Ok? {
          DissectCaches(desc, st, op.s);
        }
      } else if !Tainted(desc, defaults, init) {
        RunKeeps(desc, defaults, init);
        ApplyKeeps(desc, st, op);
      }
    }
  }

  // ----- The values a packet has -----

  /** What a packet's own slot for a field holds; the value may be one that can not change in place. */
  datatype Held = Nothing | Holding(val: Value, fixed: bool)

  /**
   * What an operation leaves in the field's own slot. It is touched by a dissection that reached the
   * field, an assignment to a field of the packet, a deletion, and an edit, in place, of a value that
   * can change.
   */
  function Touch(desc: seq<Field>, known: bool, before: Held, op: Op, n: string): Held {
    match op
    case DoDissect(s) =>
      var r := Reached(desc, map[], s);
      if n in r then Holding(r[n], !Tracked(desc, n)) else before
    case Set(m, v, fixed) => if m == n && known then Holding(v, fixed) else before
    case Del(m) => if m == n then Nothing else before
    case Edit(changes, _) =>
      if before.Holding? && !before.fixed && n in changes then Holding(changes[n], false) else before
    case SelfBuild => before
  }

  /** What the last operation that touched the slot left there. */
  function Own(desc: seq<Field>, defaults: Env, ops: seq<Op>, n: string): Held {
    if ops == [] then Nothing
    else Touch(desc, n in defaults, Own(desc, defaults, ops[..|ops| - 1], n), ops[|ops| - 1], n)
  }

  /** The default for a field, as it was given or edited since. */
  function DefaultNow(defaults: Env, ops: seq<Op>, n: string): Option<Value> {
    if ops == [] then Find(defaults, n)
    else
      var before, op := DefaultNow(defaults, ops[..|ops| - 1], n), ops[|ops| - 1];
      if op.Edit? && before.Some? && n in op.inDefaults then Some(op.inDefaults[n]) else before
  }

  function Find(vals: Env, n: string): Option<Value> {
    if n in vals then Some(vals[n]) else None
  }

  predicate SlotHolds(st: State, n: string, own: Held) {
    && Find(st.fields, n) == (if own.Holding? then Some(own.val) else None)
    && (own.Holding? ==> (own.fixed <==> n in st.fixed))
  }

  lemma StepHolds(desc: seq<Field>, st: State, op: Op, n: string, own: Held)
    requires SlotHolds(st, n, own)
    ensures SlotHolds(Apply(desc, st, op), n, Touch(desc, n in st.defaults, own, op, n))
  {}

  lemma StepDefault(desc: seq<Field>, st: State, op: Op, n: string)
    ensures Find(Apply(desc, st, op).defaults, n)
         == if op.Edit? && n in st.defaults && n in op.inDefaults then Some(op.inDefaults[n]) else Find(st.defaults, n)
  {}

  /**
   * Over every run a field has the value that the last operation on it left, or if none did since it
   * was last deleted, its default; and it has none exactly when there is no default either.
   */
  lemma {:induction false} EveryRunHolds(desc: seq<Field>, defaults: Env, ops: seq<Op>, n: string)
    ensures var st, own := Run(desc, defaults, ops), Own(desc, defaults, ops, n);
            && Find(st.Current(), n) == (if own.Holding? then Some(own.val) else DefaultNow(defaults, ops, n))
            && SlotHolds(st, n, own) && Find(st.defaults, n) == DefaultNow(defaults, ops, n)
            && (n in defaults <==> n in st.defaults)
  {
    if ops != [] {
      var init, op := ops[..|ops| - 1], ops[|ops| - 1];
      EveryRunHolds(desc, defaults, init, n);
      StepHolds(desc, Run(desc, defaults, init), op, n, Own(desc, defaults, init, n));
      StepDefault(desc, Run(desc, defaults, init), op, n);
    }
  }

  // ----- When the cache is used -----

  /** A copy differs from the value it was taken of. */
  predicate Differs(st: State) {
    st.cacheFields.Some? &&
    exists n :: n in st.cacheFields.value && Find(st.Current(), n) != Some(st.cacheFields.value[n])
  }

  /**
   * The packet has bytes from a dissection that succeeded: no assignment to one of its fields,
   * deletion of a value it had, or build that found a copy to differ has come since.
   */
  predicate HasCache(desc: seq<Field>, defaults: Env, ops: seq<Op>) {
    ops != [] &&
      var init, op := ops[..|ops| - 1], ops[|ops| - 1];
      match op
      case DoDissect(s) => Dissect(desc, map[], s).Ok? || HasCache(desc, defaults, init)
      case Set(n, _, _) => n !in defaults && HasCache(desc, defaults, init)
      case Del(n) => Own(desc, defaults, init, n).Nothing? && HasCache(desc, defaults, init)
      case Edit(_, _) => HasCache(desc, defaults, init)
      case SelfBuild => HasCache(desc, defaults, init) && !Differs(Run(desc, defaults, init))
  }

  /** It builds those bytes exactly while it has them and no copy differs, and builds anew otherwise. */
  lemma {:induction false} EveryRunCaches(desc: seq<Field>, defaults: Env, ops: seq<Op>)
    ensures var st := Run(desc, defaults, ops);
            && (st.cache.Some? <==> HasCache(desc, defaults, ops)) && (st.cache.Some? ==> st.cacheFields.Some?)
            && Built(desc, st) == if HasCache(desc, defaults, ops) && !Differs(st) then Ok(st.cache.value)
                                  else Build(desc, map[], st.Current())
  {
    var st := Run(desc, defaults, ops);
    if ops != [] {
      var init, op := ops[..|ops| - 1], ops[|ops| - 1];
      EveryRunCaches(desc, defaults, init);
      if op.Del? {
        EveryRunHolds(desc, defaults, init, op.name);
      } else if op.Set? {
        EveryRunHolds(desc, defaults, init, op.name);
      }
    }
  }

  // ----- What is built -----

  /** Whether or not it comes from the cache, what is built dissects to the current values. */
  lemma {:induction false} BuiltIsCurrent(desc: seq<Field>, st: State, x: seq<Byte>)
    requires WellFormed(desc) && Coherent(desc, st) && Built(desc, st).Ok?
    ensures Dissect(desc, map[], Built(desc, st).value + x) == Ok(Dissected(View(desc, map[], st.Current()), x))
  {
    if UsesCache(st) {
      var e :| CacheHolds(desc, st, e);
      var c := st.cache.value;
      DissectPrefix(desc, map[], c, x);
      assert c[..|c| - 0] + x == c + x;
      forall n | n in e
        ensures n in st.Current() && st.Current()[n] == e[n]
      {
        if Tracked(desc, n) {
          assert n in st.cacheFields.value;
        }
      }
      ViewOfDissected(desc, map[], c, st.Current());
    } else {
      BuildDissects(desc, map[], st.Current(), x);
    }
  }

  /**
   * After any dissections, assignments, deletions, edits in place and builds, what `self_build`
   * returns dissects to the values the packet now has, and so does what it would return without a
   * cache; unless the run is left with bytes from before a dissection that raised.
   */
  lemma {:induction false} EveryRunBuildsCurrent(desc: seq<Field>, defaults: Env, ops: seq<Op>, x: seq<Byte>)
    requires WellFormed(desc) && !Tainted(desc, defaults, ops)
    ensures var st := Run(desc, defaults, ops);
            var now := Ok(Dissected(View(desc, map[], st.Current()), x));
            && (Built(desc, st).Ok? ==> Dissect(desc, map[], Built(desc, st).value + x) == now)
            && (Build(desc, map[], st.Current()).Ok? ==>
                  Dissect(desc, map[], Build(desc, map[], st.Current()).value + x) == now)
  {
    var st := Run(desc, defaults, ops);
    RunKeeps(desc, defaults, ops);
    if Built(desc, st).Ok? {
      BuiltIsCurrent(desc, st, x);
    }
    if Build(desc, map[], st.Current()).Ok? {
      BuildDissects(desc, map[], st.Current(), x);
    }
  }

  // ----- A dissection that fails over the bytes of an earlier one -----

  /**
   * What is built then are the old bytes. That is right exactly when each value they hold is the one
   * read anew, or if that field was not reached, the one set before.
   */
  lemma {:induction false} FailedDissectionExactly(desc: seq<Field>, st: State, e: Env, s: seq<Byte>, x: seq<Byte>)
    requires WellFormed(desc) && CacheHolds(desc, st, e) && Dissect(desc, map[], s).Err?
    ensures var after, r := Apply(desc, st, DoDissect(s)), Reached(desc, map[], s);
            && Built(desc, after) == Ok(st.cache.value)
            && (Dissect(desc, map[], st.cache.value + x) == Ok(Dissected(View(desc, map[], after.Current()), x))
                <==> forall n :: n in e ==> e[n] == if n in r then r[n] else st.fields[n])
  {
    var after, c, r := Apply(desc, st, DoDissect(s)), st.cache.value, Reached(desc, map[], s);
    DissectPrefix(desc, map[], c, x);
    assert c[..|c| - 0] + x == c + x;
    assert forall n :: n in e ==> after.Current()[n] == if n in r then r[n] else st.fields[n];
    if forall n :: n in e ==> e[n] == if n in r then r[n] else st.fields[n] {
      ViewOfDissected(desc, map[], c, after.Current());
    }
    if View(desc, map[], after.Current()) == e {
      forall n | n in e ensures e[n] == if n in r then r[n] else st.fields[n] {
        ViewShows(desc, map[], after.Current(), n);
      }
    }
  }

  /** A field of one byte. */
  function OneByte(name: string): Field {
    Field(name, false, _ => true,
          (env: Env, v: Value) => if |v| == 1 && 0 <= v[0] < 256 then Ok([v[0]]) else Err,
          (env: Env, s: seq<Byte>) => if s == [] then Err else Ok(Decoded([s[0]], s[1..])))
  }

  /** The two dissections: one of two bytes, and one of a single byte, which fails on the second field. */
  lemma TwoDissections(desc: seq<Field>)
    requires desc == [OneByte("a"), OneByte("b")]
    ensures var e: Env := map["a" := [1]]["b" := [2]];
            Dissect(desc, map[], [1, 2]) == Ok(Dissected(e, [])) && Reached(desc, map[], [1, 2]) == e
    ensures Dissect(desc, map[], [9]).Err? && Reached(desc, map[], [9]) == map["a" := [9]]
  {
    var b := [OneByte("b")];
    var two: seq<Byte>, nine: seq<Byte> := [1, 2], [9];
    assert desc == [OneByte("a")] + b && b == b + [];
    assert two[1..] == [2] && two[1..][1..] == [] && nine[1..] == [];
    OneByteThen("a", b, map[], two);
    OneByteThen("b", [], map["a" := [1]], two[1..]);
    OneByteThen("a", b, map[], nine);
    OneByteThen("b", [], map["a" := [9]], nine[1..]);
  }

  lemma FirstDissection(desc: seq<Field>, e: Env)
    requires forall n :: !Tracked(desc, n)
    requires Dissect(desc, map[], [1, 2]) == Ok(Dissected(e, [])) && Reached(desc, map[], [1, 2]) == e
    ensures Apply(desc, State(map[], {}, map[], None, None), DoDissect([1, 2]))
         == State(e, e.Keys, map[], Some([1, 2]), Some(map[]))
  {
    var input: seq<Byte>, none: Env := [1, 2], map[];
    assert input[..|input| - 0] == input;
    assert none + e == e && Copies(desc, e) == map[] && FixedIn(desc, e) == e.Keys;
  }

  /** After the second the first two bytes are built, though the first field holds the third. */
  lemma FailedDissectionShows()
    ensures var desc := [OneByte("a"), OneByte("b")];
            var st := Run(desc, map[], [DoDissect([1, 2]), DoDissect([9])]);
            WellFormed(desc) && Built(desc, st) == Ok([1, 2]) && "a" in st.Current() && st.Current()["a"] == [9]
  {
    var desc := [OneByte("a"), OneByte("b")];
    assert WellFormed(desc) by {
      OneByteLawful("a");
      OneByteLawful("b");
      assert desc[0].name != desc[1].name;
    }
    var one, two := DoDissect([1, 2]), DoDissect([9]);
    var e: Env := map["a" := [1]]["b" := [2]];
    assert forall n :: !Tracked(desc, n);
    TwoDissections(desc);
    FirstDissection(desc, e);
    assert [one, two][..1] == [one] && [one][..0] == [];
    var cached, part: Env := State(e, e.Keys, map[], Some([1, 2]), Some(map[])), map["a" := [9]];
    assert Run(desc, map[], [one]) == cached;
    assert Run(desc, map[], [one, two]) == Apply(desc, cached, two);
    assert CopiesMatch(Apply(desc, cached, two)) by {
      assert Copies(desc, part) == map[];
    }
  }

  lemma OneByteThen(name: string, more: seq<Field>, env: Env, s: seq<Byte>)
    ensures var desc := [OneByte(name)] + more;
            if s == [] then Dissect(desc, env, s).Err? && Reached(desc, env, s) == env
            else
              var next := env[name := [s[0] as int]];
              && Dissect(desc, env, s) == Dissect(more, next, s[1..])
              && Reached(desc, env, s) == Reached(more, next, s[1..])
  {
    assert ([OneByte(name)] + more)[1..] == more;
  }

  lemma OneByteLawful(name: string)
    ensures Lawful(OneByte(name))
  {
    var f := OneByte(name);
    forall env: Env, v: Value ensures EncodesBack(f, env, v) {
      if f.enc(env, v).Ok? {
        forall x: seq<Byte> ensures f.dec(env, f.enc(env, v).value + x) == Ok(Decoded(v, x)) {
          assert ([v[0] as Byte] + x)[1..] == x;
          assert [v[0]] == v;
        }
      }
    }
    forall env: Env, s: seq<Byte> ensures ReadsPrefix(f, env, s) {
      if s != [] {
        var head := s[..|s| - |s[1..]|];
        assert head == [s[0]];
        forall x: seq<Byte> ensures f.dec(env, head + x) == Ok(Decoded([s[0] as int], x)) {
          assert (head + x)[1..] == x;
        }
      }
    }
  }

  // ----- An unchanged packet -----

  /** No assignment, deletion or new dissection, and values edited in place are back as they were at every build. */
  predicate Untouched(desc: seq<Field>, st: State, ops: seq<Op>)
    decreases |ops|
  {
    if ops == [] then CopiesMatch(st)
    else
      && (match ops[0]
          case Set(n, _, _) => n !in st.defaults
          case Del(n) => n !in st.fields
          case SelfBuild => CopiesMatch(st)
          case Edit(_, _) => true
          case DoDissect(_) => false)
      && Untouched(desc, Apply(desc, st, ops[0]), ops[1..])
  }

  function ApplyAll(desc: seq<Field>, st: State, ops: seq<Op>): State
    decreases |ops|
  {
    if ops == [] then st else ApplyAll(desc, Apply(desc, st, ops[0]), ops[1..])
  }

  lemma {:induction false} UntouchedKeepsCache(desc: seq<Field>, st: State, ops: seq<Op>)
    requires st.cache.Some? && st.cacheFields.Some? && Untouched(desc, st, ops)
    ensures Built(desc, ApplyAll(desc, st, ops)) == Ok(st.cache.value)
    decreases |ops|
  {
    if ops != [] {
      UntouchedKeepsCache(desc, Apply(desc, st, ops[0]), ops[1..]);
    }
  }

  /** A packet that was not changed builds to exactly the bytes it was dissected from. */
  lemma {:induction false} UnchangedBuildsInput(desc: seq<Field>, defaults: Env, s: seq<Byte>, ops: seq<Op>)
    requires WellFormed(desc) && Dissect(desc, map[], s).Ok?
    requires Untouched(desc, Apply(desc, State(map[], {}, defaults, None, None), DoDissect(s)), ops)
    ensures var st := Apply(desc, State(map[], {}, defaults, None, None), DoDissect(s));
            var rest := Dissect(desc, map[], s).value.rest;
            Built(desc, ApplyAll(desc, st, ops)).Ok? && Built(desc, ApplyAll(desc, st, ops)).value + rest == s
  {
    var st := Apply(desc, State(map[], {}, defaults, None, None), DoDissect(s));
    DissectPrefix(desc, map[], s, []);
    UntouchedKeepsCache(desc, st, ops);
  }
}
