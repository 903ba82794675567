/**
 * A layer's list of fields: the builder and the dissector that run through it.
 * How a field is laid out, and whether it is there at all, may depend on the
 * fields before it.
 */
module FieldsDesc {
  import opened Bytes

  type Value = seq<int>

  /** The values of the fields that are there, among those before the current one. */
  type Env = map<string, Value>

  datatype Decoded = Decoded(value: Value, rest: seq<Byte>)

  /**
   * `tracked` is `islist or ismutable`. `active` is the condition of a
   * ConditionalField and true for others. `enc` and `dec` are the bytes that
   * `addfield` adds and what `getfield` returns, Err when they raise.
   */
  datatype Field = Field(name: string, tracked: bool, active: Env -> bool,
                         enc: (Env, Value) -> Result<seq<Byte>>, dec: (Env, seq<Byte>) -> Result<Decoded>)

  /** What is built reads back, whatever follows. */
  ghost predicate EncodesBack(f: Field, env: Env, v: Value) {
    f.enc(env, v).Ok? ==> forall x :: f.dec(env, f.enc(env, v).value + x) == Ok(Decoded(v, x))
  }

  /** What is read is a prefix of the input, and reads the same before any other bytes. */
  ghost predicate ReadsPrefix(f: Field, env: Env, s: seq<Byte>) {
    f.dec(env, s).Ok? ==>
      var d := f.dec(env, s).value;
      && |d.rest| <= |s| && d.rest == s[|s| - |d.rest|..]
      && forall x :: f.dec(env, s[..|s| - |d.rest|] + x) == Ok(Decoded(d.value, x))
  }

  ghost predicate Lawful(f: Field) {
    (forall env, v :: EncodesBack(f, env, v)) && (forall env, s :: ReadsPrefix(f, env, s))
  }

  ghost predicate WellFormed(desc: seq<Field>) {
    && (forall f :: f in desc ==> Lawful(f))
    && (forall i, j :: 0 <= i < j < |desc| ==> desc[i].name != desc[j].name)
  }

  /** The values of the fields that are there. */
  function View(desc: seq<Field>, env: Env, vals: Env): Env {
    if desc == [] then env
    else
      var f := desc[0];
      if f.active(env) && f.name in vals then View(desc[1..], env[f.name := vals[f.name]], vals)
      else View(desc[1..], env, vals)
  }

  /** `self_build` without the cache; Err when a field cannot be built. */
  function Build(desc: seq<Field>, env: Env, vals: Env): Result<seq<Byte>> {
    if desc == [] then Ok([])
    else
      var f := desc[0];
      if !f.active(env) then Build(desc[1..], env, vals)
      else if f.name !in vals then Err
      else
        var head := f.enc(env, vals[f.name]);
        var tail := Build(desc[1..], env[f.name := vals[f.name]], vals);
        if head.Ok? && tail.Ok? then Ok(head.value + tail.value) else Err
  }

  datatype Dissected = Dissected(env: Env, rest: seq<Byte>)

  /** The loop of `do_dissect`. */
  function Dissect(desc: seq<Field>, env: Env, s: seq<Byte>): Result<Dissected> {
    if desc == [] then Ok(Dissected(env, s))
    else
      var f := desc[0];
      if !f.active(env) then Dissect(desc[1..], env, s)
      else
        match f.dec(env, s)
        case Err => Err
        case Ok(d) => Dissect(desc[1..], env[f.name := d.value], d.rest)
  }

  /** The values `do_dissect` has set when it ends, or when a field raises. */
  function Reached(desc: seq<Field>, env: Env, s: seq<Byte>): (e: Env)
    ensures Dissect(desc, env, s).Ok? ==> e == Dissect(desc, env, s).value.env
  {
    if desc == [] then env
    else
      var f := desc[0];
      if !f.active(env) then Reached(desc[1..], env, s)
      else
        match f.dec(env, s)
        case Err => env
        case Ok(d) => Reached(desc[1..], env[f.name := d.value], d.rest)
  }

  /** The view shows the values given. */
  lemma {:induction false} ViewShows(desc: seq<Field>, env: Env, vals: Env, n: string)
    requires n in View(desc, env, vals)
    ensures (n in env && View(desc, env, vals)[n] == env[n]) || (n in vals && View(desc, env, vals)[n] == vals[n])
  {
    if desc != [] {
      var f := desc[0];
      var next := if f.active(env) && f.name in vals then env[f.name := vals[f.name]] else env;
      ViewShows(desc[1..], next, vals, n);
    }
  }

  /** What is built dissects to the values it was built from, and leaves what follows. */
  lemma {:induction false} BuildDissects(desc: seq<Field>, env: Env, vals: Env, x: seq<Byte>)
    requires forall f :: f in desc ==> Lawful(f)
    requires Build(desc, env, vals).Ok?
    ensures Dissect(desc, env, Build(desc, env, vals).value + x) == Ok(Dissected(View(desc, env, vals), x))
  {
    if desc == [] {
      assert [] + x == x;
    } else if desc[0].active(env) {
      var f, v := desc[0], vals[desc[0].name];
      var head, tail := f.enc(env, v).value, Build(desc[1..], env[f.name := v], vals).value;
      BuildDissects(desc[1..], env[f.name := v], vals, x);
      assert f in desc && Lawful(f);
      assert EncodesBack(f, env, v);
      assert (head + tail) + x == head + (tail + x);
    } else {
      BuildDissects(desc[1..], env, vals, x);
    }
  }

  /** Dissection takes a prefix, and takes it the same way before any other bytes. */
  lemma {:induction false} DissectPrefix(desc: seq<Field>, env: Env, s: seq<Byte>, x: seq<Byte>)
    requires forall f :: f in desc ==> Lawful(f)
    requires Dissect(desc, env, s).Ok?
    ensures var d := Dissect(desc, env, s).value;
            |d.rest| <= |s| && d.rest == s[|s| - |d.rest|..]
            && Dissect(desc, env, s[..|s| - |d.rest|] + x) == Ok(Dissected(d.env, x))
  {
    if desc == [] {
      assert s[..|s| - |s|] + x == x;
    } else if desc[0].active(env) {
      var f := desc[0];
      assert f in desc && Lawful(f);
      assert ReadsPrefix(f, env, s);
      var r := f.dec(env, s).value;
      DissectPrefix(desc[1..], env[f.name := r.value], r.rest, x);
      var d := Dissect(desc, env, s).value;
      Middle(s, r.rest, d.rest, x);
      var more := r.rest[..|r.rest| - |d.rest|] + x;
      assert f.dec(env, s[..|s| - |r.rest|] + more) == Ok(Decoded(r.value, more));
    } else {
      DissectPrefix(desc[1..], env, s, x);
    }
  }

  lemma Middle(s: seq<Byte>, mid: seq<Byte>, rest: seq<Byte>, x: seq<Byte>)
    requires |rest| <= |mid| <= |s| && mid == s[|s| - |mid|..] && rest == mid[|mid| - |rest|..]
    ensures rest == s[|s| - |rest|..]
    ensures s[..|s| - |rest|] + x == s[..|s| - |mid|] + (mid[..|mid| - |rest|] + x)
  {}

  /** Dissection only adds entries, for fields of the list. */
  lemma {:induction false} DissectExtends(desc: seq<Field>, env: Env, s: seq<Byte>)
    requires Dissect(desc, env, s).Ok?
    requires forall i, j :: 0 <= i < j < |desc| ==> desc[i].name != desc[j].name
    requires forall f :: f in desc ==> f.name !in env
    ensures var e := Dissect(desc, env, s).value.env;
            (forall n :: n in env ==> n in e && e[n] == env[n])
            && (forall n :: n in e && n !in env ==> exists f :: f in desc && f.name == n)
  {
    if desc != [] {
      var f := desc[0];
      if f.active(env) {
        var d := f.dec(env, s).value;
        DissectExtends(desc[1..], env[f.name := d.value], d.rest);
      } else {
        DissectExtends(desc[1..], env, s);
      }
    }
  }

  /** Values that agree with what was dissected show the same fields. */
  lemma {:induction false} ViewOfDissected(desc: seq<Field>, env: Env, s: seq<Byte>, vals: Env)
    requires Dissect(desc, env, s).Ok?
    requires forall i, j :: 0 <= i < j < |desc| ==> desc[i].name != desc[j].name
    requires forall f :: f in desc ==> f.name !in env
    requires var e := Dissect(desc, env, s).value.env;
             forall n :: n in e && n !in env ==> n in vals && vals[n] == e[n]
    ensures View(desc, env, vals) == Dissect(desc, env, s).value.env
  {
    if desc != [] {
      var f := desc[0];
      if f.active(env) {
        var d := f.dec(env, s).value;
        DissectExtends(desc[1..], env[f.name := d.value], d.rest);
        ViewOfDissected(desc[1..], env[f.name := d.value], d.rest, vals);
      } else {
        ViewOfDissected(desc[1..], env, s, vals);
      }
    }
  }

  // ----- Field by field -----

  function Flat(parts: seq<seq<Byte>>): seq<Byte> {
    if parts == [] then [] else parts[0] + Flat(parts[1..])
  }

  /**
   * The fields in their order: each that is there adds its bytes, given the values before it, and its
   * value; one that is not adds nothing.
   */
  predicate Steps(desc: seq<Field>, env: Env, vals: Env, envs: seq<Env>, parts: seq<seq<Byte>>) {
    && |envs| == |desc| + 1 && |parts| == |desc| && envs[0] == env
    && forall i :: 0 <= i < |desc| ==> Step(desc[i], envs[i], vals, parts[i], envs[i + 1])
  }

  predicate Step(f: Field, env: Env, vals: Env, part: seq<Byte>, next: Env) {
    if f.active(env) then
      f.name in vals && f.enc(env, vals[f.name]) == Ok(part) && next == env[f.name := vals[f.name]]
    else part == [] && next == env
  }

  /** What is built is the bytes of the fields, one after the other. */
  lemma {:induction false} BuildsInOrder(desc: seq<Field>, env: Env, vals: Env, b: seq<Byte>)
    ensures Build(desc, env, vals) == Ok(b) <==>
            exists envs, parts :: Steps(desc, env, vals, envs, parts) && Flat(parts) == b
  {
    if Build(desc, env, vals) == Ok(b) {
      var envs, parts := BuildSteps(desc, env, vals);
    }
    if envs, parts :| Steps(desc, env, vals, envs, parts) && Flat(parts) == b {
      StepsBuild(desc, env, vals, envs, parts);
    }
  }

  lemma {:induction false} BuildSteps(desc: seq<Field>, env: Env, vals: Env)
    returns (envs: seq<Env>, parts: seq<seq<Byte>>)
    requires Build(desc, env, vals).Ok?
    ensures Steps(desc, env, vals, envs, parts) && Flat(parts) == Build(desc, env, vals).value
  {
    if desc == [] {
      envs, parts := [env], [];
    } else {
      var f := desc[0];
      var next := if f.active(env) then env[f.name := vals[f.name]] else env;
      var part := if f.active(env) then f.enc(env, vals[f.name]).value else [];
      var laterEnvs, laterParts := BuildSteps(desc[1..], next, vals);
      envs, parts := [env] + laterEnvs, [part] + laterParts;
      StepsCons(desc, env, vals, envs, parts);
      assert envs[1..] == laterEnvs && parts[1..] == laterParts;
      assert [] + Flat(laterParts) == Flat(laterParts);
    }
  }

  lemma StepsCons(desc: seq<Field>, env: Env, vals: Env, envs: seq<Env>, parts: seq<seq<Byte>>)
    requires desc != [] && |envs| == |desc| + 1 && |parts| == |desc| && envs[0] == env
    ensures Steps(desc, env, vals, envs, parts) <==>
            Step(desc[0], env, vals, parts[0], envs[1]) && Steps(desc[1..], envs[1], vals, envs[1..], parts[1..])
  {
    if Step(desc[0], env, vals, parts[0], envs[1]) && Steps(desc[1..], envs[1], vals, envs[1..], parts[1..]) {
      forall i | 0 <= i < |desc| ensures Step(desc[i], envs[i], vals, parts[i], envs[i + 1]) {
        if i > 0 {
          assert desc[1..][i - 1] == desc[i] && envs[1..][i - 1] == envs[i] && envs[1..][i] == envs[i + 1];
          assert parts[1..][i - 1] == parts[i];
        }
      }
    }
  }

  lemma {:induction false} StepsBuild(desc: seq<Field>, env: Env, vals: Env, envs: seq<Env>, parts: seq<seq<Byte>>)
    requires Steps(desc, env, vals, envs, parts)
    ensures Build(desc, env, vals) == Ok(Flat(parts))
  {
    if desc != [] {
      StepsCons(desc, env, vals, envs, parts);
      assert [] + Flat(parts[1..]) == Flat(parts[1..]);
      StepsBuild(desc[1..], envs[1], vals, envs[1..], parts[1..]);
    }
  }

  /** The fields in their order: each that is there reads its value from what the one before it left. */
  predicate Reads(desc: seq<Field>, env: Env, s: seq<Byte>, envs: seq<Env>, rests: seq<seq<Byte>>) {
    && |envs| == |rests| && 1 <= |envs| <= |desc| + 1 && envs[0] == env && rests[0] == s
    && forall i :: 0 <= i < |envs| - 1 ==> Read(desc[i], envs[i], rests[i], envs[i + 1], rests[i + 1])
  }

  predicate Read(f: Field, env: Env, s: seq<Byte>, next: Env, rest: seq<Byte>) {
    if f.active(env) then
      f.dec(env, s).Ok? && next == env[f.name := f.dec(env, s).value.value] && rest == f.dec(env, s).value.rest
    else next == env && rest == s
  }

  /**
   * Dissection reads the fields one after the other, up to the end or to the first that raises; the
   * values read by then are set.
   */
  lemma {:induction false} DissectsInOrder(desc: seq<Field>, env: Env, s: seq<Byte>)
    returns (envs: seq<Env>, rests: seq<seq<Byte>>)
    ensures Reads(desc, env, s, envs, rests)
    ensures var k := |envs| - 1;
            && Reached(desc, env, s) == envs[k]
            && (if k == |desc| then Dissect(desc, env, s) == Ok(Dissected(envs[k], rests[k]))
                else Dissect(desc, env, s).Err? && desc[k].active(envs[k]) && desc[k].dec(envs[k], rests[k]).Err?)
  {
    envs, rests := [env], [s];
    if desc != [] {
      var f := desc[0];
      if !f.active(env) || f.dec(env, s).Ok? {
        var next := if f.active(env) then env[f.name := f.dec(env, s).value.value] else env;
        var rest := if f.active(env) then f.dec(env, s).value.rest else s;
        var laterEnvs, laterRests := DissectsInOrder(desc[1..], next, rest);
        envs, rests := [env] + laterEnvs, [s] + laterRests;
        forall i | 0 <= i < |envs| - 1 ensures Read(desc[i], envs[i], rests[i], envs[i + 1], rests[i + 1]) {
          assert i > 0 ==> desc[i] == desc[1..][i - 1] && envs[i] == laterEnvs[i - 1] && rests[i] == laterRests[i - 1];
        }
      }
    }
  }
}
