/** The canonical form of what `_inet6_ntop` prints, and `_inet6_pton` reading it back. */
module Inet6Text {
  import opened Bytes
  import opened Inet6Groups
  import opened Inet6

  // ----- The canonical form -----

  ghost predicate ZeroRun(gs: seq<string>, k: nat, n: nat) {
    k + n <= |gs| && forall i :: k <= i < k + n ==> gs[i] == "0"
  }

  /** r is a longest run of zero groups, at least two, and the first of that length. */
  ghost predicate LeftmostLongest(gs: seq<string>, r: Run) {
    && r.n >= 2 && ZeroRun(gs, r.k, r.n)
    && forall k: nat, n: nat :: ZeroRun(gs, k, n) ==> n < r.n || (n == r.n && r.k <= k)
  }

  function LongestRun(rs: seq<Run>): Run
    requires rs != []
  {
    if |rs| == 1 then rs[0]
    else
      var r := LongestRun(rs[1..]);
      if r.n > rs[0].n then r else rs[0]
  }

  predicate Sorted(rs: seq<Run>) {
    rs != [] ==> (forall r :: r in rs[1..] ==> rs[0].k < r.k) && Sorted(rs[1..])
  }

  lemma {:induction false} LongestOfRuns(gs: seq<string>, rs: seq<Run>)
    requires rs != [] && Sorted(rs) && forall r :: r in rs ==> 1 <= r.n && r.k + r.n <= |gs|
    ensures LongestRun(rs) in rs && MatchesOf(gs, rs) != [] && Longest(MatchesOf(gs, rs)) == MatchOf(gs, LongestRun(rs))
    ensures forall r :: r in rs ==> r.n < LongestRun(rs).n || (r.n == LongestRun(rs).n && LongestRun(rs).k <= r.k)
  {
    if |rs| > 1 {
      LongestOfRuns(gs, rs[1..]);
      assert rs == [rs[0]] + rs[1..];
      assert |MatchesOf(gs, rs)| > 1 && MatchesOf(gs, rs)[1..] == MatchesOf(gs, rs[1..]);
    }
  }

  lemma SortedCons(r: Run, rs: seq<Run>)
    requires Sorted(rs) && forall x :: x in rs ==> r.k < x.k
    ensures Sorted([r] + rs)
  {
    assert ([r] + rs)[1..] == rs;
  }

  lemma {:induction false} RunsSorted(gs: seq<string>, k: nat)
    requires k <= |gs|
    ensures Sorted(Runs(gs, k))
    ensures forall r :: r in Runs(gs, k) ==> ZeroRun(gs, r.k, r.n)
    decreases |gs| - k
  {
    if k < |gs| {
      var n := RunLength(gs, k);
      RunIs(gs, k);
      if n < 2 {
        RunsSorted(gs, k + 1);
      } else if k + n < |gs| {
        RunsSorted(gs, k + n + 1);
        assert Runs(gs, k) == [Run(k, n)] + Runs(gs, k + n + 1);
        SortedCons(Run(k, n), Runs(gs, k + n + 1));
      }
    }
  }

  ghost predicate Covered(gs: seq<string>, from: nat, k: nat, n: nat)
    requires from <= |gs|
  {
    exists r :: r in Runs(gs, from) && r.n >= n && r.k <= k
  }

  /** Every run of two or more zero groups lies in one of the runs listed. */
  lemma {:induction false} RunsCover(gs: seq<string>, from: nat, k: nat, n: nat)
    requires from <= k && n >= 2 && ZeroRun(gs, k, n)
    ensures Covered(gs, from, k, n)
    decreases |gs| - from
  {
    var m := RunLength(gs, from);
    assert gs[k] == "0" && gs[k + 1] == "0";
    RunIs(gs, from);
    if m < 2 {
      assert k > from;
      RunsCover(gs, from + 1, k, n);
    } else {
      RunsHead(gs, from, m);
      if k < from + m {
        EndsInside(gs, from, m, k, n);
        assert Run(from, m) in Runs(gs, from);
      } else {
        RunsCover(gs, from + m + 1, k, n);
        CoveredLater(gs, from, from + m + 1, k, n);
      }
    }
  }

  /** A run of zero groups ends where the longest one from before it does, at the latest. */
  lemma {:induction false} EndsInside(gs: seq<string>, from: nat, m: nat, k: nat, n: nat)
    requires from <= k < from + m && from <= |gs| && m == RunLength(gs, from) && ZeroRun(gs, k, n)
    ensures k + n <= from + m
  {
    RunIs(gs, from);
  }

  lemma CoveredLater(gs: seq<string>, from: nat, later: nat, k: nat, n: nat)
    requires from <= |gs| && later <= |gs| && Covered(gs, later, k, n)
    requires forall r :: r in Runs(gs, later) ==> r in Runs(gs, from)
    ensures Covered(gs, from, k, n)
  {}

  lemma {:induction false} RunsHead(gs: seq<string>, from: nat, m: nat)
    requires from < |gs| && m == RunLength(gs, from) >= 2
    ensures Run(from, m) in Runs(gs, from)
    ensures from + m < |gs| ==> forall r :: r in Runs(gs, from + m + 1) ==> r in Runs(gs, from)
  {
    assert Runs(gs, from)[0] == Run(from, m);
  }

  lemma {:induction false} GroupsPrinted(addr: seq<Byte>)
    requires |addr| % 2 == 0 && addr != []
    ensures 2 * |Groups(addr)| == |addr| && Printed(Groups(addr))
  {
    GroupBack(addr[0], addr[1]);
    if |addr| > 2 {
      GroupsPrinted(addr[2..]);
      assert Groups(addr)[1..] == Groups(addr[2..]);
    }
  }

  /** What is left of the text before a run of zero groups, and behind it. */
  lemma {:induction false} CutBefore(gs: seq<string>, k: nat)
    requires Printed(gs) && k < |gs|
    ensures Boundary(gs, k) <= |Join(gs)| && Join(gs)[..Boundary(gs, k)] == Join(gs[..k])
  {
    JoinAt(gs, k);
    if k == 0 {
      assert gs[..0] == [];
    }
  }

  lemma {:induction false} CutBehind(gs: seq<string>, k: nat)
    requires Printed(gs) && k <= |gs|
    ensures var p := if k == |gs| then |Join(gs)| else Pos(gs, k);
            p <= |Join(gs)| && Join(gs)[p..] == Join(gs[k..])
  {
    if k < |gs| {
      JoinAt(gs, k);
    } else {
      assert gs[k..] == [];
    }
  }

  /** The text with run r written as "::". */
  function Compressed(gs: seq<string>, r: Run): string
    requires r.k + r.n <= |gs|
  {
    Join(gs[..r.k]) + "::" + Join(gs[r.k + r.n..])
  }

  /** Only sixteen bytes are an address. */
  lemma PrintsSixteen(addr: seq<Byte>)
    ensures Ntop(addr).Ok? <==> |addr| == 16
  {}

  /**
   * Sections 4.1, 4.2.2 and 4.2.3 of RFC 5952: groups without leading zeros, and
   * the leftmost longest run of zero groups, never a single one, written "::".
   */
  lemma {:induction false} PrintsCanonical(addr: seq<Byte>)
    requires |addr| == 16
    ensures var gs := Groups(addr);
            && |gs| == 8 && Printed(gs)
            && (if exists k: nat, n: nat :: n >= 2 && ZeroRun(gs, k, n) then
                  exists r :: LeftmostLongest(gs, r) && Ntop(addr) == Ok(Compressed(gs, r))
                else Ntop(addr) == Ok(Join(gs)))
  {
    var gs := Groups(addr);
    GroupsPrinted(addr);
    FindsRuns(gs, 0);
    if Runs(gs, 0) == [] {
      forall k: nat, n: nat | n >= 2 && ZeroRun(gs, k, n)
        ensures false
      {
        RunsCover(gs, 0, k, n);
      }
    } else {
      var r := LongestIsLeftmost(gs);
      PrintsRun(addr, gs, r);
    }
  }

  lemma {:induction false} PrintsRun(addr: seq<Byte>, gs: seq<string>, r: Run)
    requires |addr| == 16 && gs == Groups(addr) && Printed(gs) && 1 <= r.n && r.k + r.n <= |gs|
    requires FindAll(Join(gs), 0) != [] && Longest(FindAll(Join(gs), 0)) == MatchOf(gs, r)
    ensures Ntop(addr) == Ok(Compressed(gs, r))
  {
    var m := MatchOf(gs, r);
    assert Join(gs)[..m.start] == Join(gs[..r.k]) by {
      CutBefore(gs, r.k);
    }
    assert Join(gs)[m.end..] == Join(gs[r.k + r.n..]) by {
      CutBehind(gs, r.k + r.n);
    }
  }

  lemma {:induction false} LongestIsLeftmost(gs: seq<string>) returns (r: Run)
    requires Runs(gs, 0) != []
    ensures r in Runs(gs, 0) && LeftmostLongest(gs, r)
    ensures MatchesOf(gs, Runs(gs, 0)) != [] && Longest(MatchesOf(gs, Runs(gs, 0))) == MatchOf(gs, r)
  {
    RunsSorted(gs, 0);
    LongestOfRuns(gs, Runs(gs, 0));
    r := LongestRun(Runs(gs, 0));
    forall k: nat, n: nat | ZeroRun(gs, k, n)
      ensures n < r.n || (n == r.n && r.k <= k)
    {
      if n >= 2 {
        RunsCover(gs, 0, k, n);
      }
    }
  }

  // ----- Parsing -----

  type Aton = string -> Option<seq<Byte>>

  function Dots(s: string): nat {
    if s == [] then 0 else (if s[0] == '.' then 1 else 0) + Dots(s[1..])
  }

  /** The bytes of one part; only the last may be an IPv4 address, read by `inet_aton`. */
  function ReadPart(part: string, last: bool, aton: Aton): Option<seq<Byte>> {
    if last && '.' in part then (if Dots(part) != 3 then None else aton(part))
    else HexBytes(RightJust(part))
  }

  /** The bytes read so far, and where among them an empty part stood. */
  datatype Reading = Reading(result: seq<Byte>, joker: Option<nat>)

  function ReadParts(parts: seq<string>, r: Reading, aton: Aton): Option<Reading> {
    if parts == [] then Some(r)
    else if parts[0] == [] then
      if r.joker.Some? then None else ReadParts(parts[1..], r.(joker := Some(|r.result|)), aton)
    else
      var b := ReadPart(parts[0], |parts| == 1, aton);
      if b.None? then None else ReadParts(parts[1..], r.(result := r.result + b.value), aton)
  }

  /** A leading or trailing "::" keeps one colon. */
  function Trim(addr: string): string {
    var a := if "::" <= addr then addr[1..] else addr;
    if |a| >= 2 && a[|a| - 2..] == "::" then a[..|a| - 1] else a
  }

  function Fill(r: Reading): Result<seq<Byte>> {
    if r.joker.Some? && (|r.result| == 16 || r.joker.value > |r.result|) then Err
    else
      var full := if r.joker.None? then r.result
                  else r.result[..r.joker.value] + Zeros(if |r.result| < 16 then 16 - |r.result| else 0)
                       + r.result[r.joker.value..];
      if |full| == 16 then Ok(full) else Err
  }

  function Pton(addr: string, aton: Aton): Result<seq<Byte>> {
    if addr == "::" then Ok(Zeros(16))
    else
      var r := ReadParts(Split(Trim(addr)), Reading([], None), aton);
      if r.None? then Err else Fill(r.value)
  }

  lemma ReadNext(parts: seq<string>, i: nat, r: Reading, aton: Aton)
    requires i < |parts|
    ensures ReadParts(parts[i..], r, aton)
         == if parts[i] == [] then
              if r.joker.Some? then None else ReadParts(parts[i + 1..], r.(joker := Some(|r.result|)), aton)
            else
              var b := ReadPart(parts[i], i + 1 == |parts|, aton);
              if b.None? then None else ReadParts(parts[i + 1..], r.(result := r.result + b.value), aton)
  {
    assert parts[i..][1..] == parts[i + 1..];
  }

  method Inet6Pton(addr: string, aton: Aton) returns (r: Result<seq<Byte>>)
    ensures r == Pton(addr, aton)
    ensures r.Ok? ==> |r.value| == 16
  {
    if addr == "::" {
      return Ok(Zeros(16));
    }
    var joker: Option<nat>, result: seq<Byte> := None, [];
    var parts := Split(Trim(addr));
    var nparts := |parts|;
    for i := 0 to nparts
      invariant joker.Some? ==> joker.value <= |result|
      invariant ReadParts(parts, Reading([], None), aton) == ReadParts(parts[i..], Reading(result, joker), aton)
    {
      var part := parts[i];
      ReadNext(parts, i, Reading(result, joker), aton);
      if part == [] {
        if joker.Some? {
          return Err; // the wildcard is only allowed once
        }
        joker := Some(|result|);
      } else if i + 1 == nparts && '.' in part {
        if Dots(part) != 3 {
          return Err;
        }
        var b := aton(part);
        if b.None? {
          return Err;
        }
        result := result + b.value;
      } else {
        var b := HexBytes(RightJust(part));
        if b.None? {
          return Err;
        }
        result := result + b.value;
      }
    }
    assert parts[nparts..] == [];
    if joker.Some? {
      if |result| == 16 {
        return Err;
      }
      result := result[..joker.value] + Zeros(if |result| < 16 then 16 - |result| else 0) + result[joker.value..];
    }
    if |result| != 16 {
      return Err;
    }
    r := Ok(result);
  }

  // ----- Reading back what is printed -----

  lemma {:induction false} ReadFirst(g: string, parts: seq<string>, r: Reading, aton: Aton, b: seq<Byte>)
    requires g != [] && '.' !in g && HexBytes(RightJust(g)) == Some(b)
    ensures ReadParts([g] + parts, r, aton) == ReadParts(parts, r.(result := r.result + b), aton)
  {
    assert ([g] + parts)[1..] == parts;
  }

  /** Printed groups read back as their bytes, wherever they stand. */
  lemma {:induction false} ReadsGroups(addr: seq<Byte>, parts: seq<string>, r: Reading, aton: Aton)
    requires |addr| % 2 == 0
    ensures ReadParts(Groups(addr) + parts, r, aton) == ReadParts(parts, r.(result := r.result + addr), aton)
  {
    if addr == [] {
      assert Groups(addr) + parts == parts && r.result + addr == r.result;
    } else {
      var two, rest := [addr[0], addr[1]], addr[2..];
      var t, gs := GroupText(addr[0], addr[1]), Groups(rest);
      ReadsGroup(addr[0], addr[1], t, two, gs + parts, r, aton);
      ReadsGroups(rest, parts, r.(result := r.result + two), aton);
      ReadsFurther(t, two, gs, rest, parts, r, aton);
      GroupsCons(addr, two, rest, t, gs);
    }
  }

  lemma GroupsCons(addr: seq<Byte>, two: seq<Byte>, rest: seq<Byte>, t: string, gs: seq<string>)
    requires |addr| % 2 == 0 && addr != [] && two == [addr[0], addr[1]] && rest == addr[2..]
    requires t == GroupText(addr[0], addr[1]) && gs == Groups(rest)
    ensures two + rest == addr && [t] + gs == Groups(addr)
  {}

  lemma {:induction false} ReadsFurther(t: string, two: seq<Byte>, gs: seq<string>, rest: seq<Byte>,
                                        parts: seq<string>, r: Reading, aton: Aton)
    requires var next := r.(result := r.result + two);
             && ReadParts([t] + (gs + parts), r, aton) == ReadParts(gs + parts, next, aton)
             && ReadParts(gs + parts, next, aton) == ReadParts(parts, r.(result := r.result + two + rest), aton)
    ensures ReadParts([t] + gs + parts, r, aton) == ReadParts(parts, r.(result := r.result + (two + rest)), aton)
  {
    Regroup([t], gs, parts);
    Regroup(r.result, two, rest);
  }

  lemma {:induction false} ReadsGroup(hi: Byte, lo: Byte, t: string, two: seq<Byte>, parts: seq<string>,
                                      r: Reading, aton: Aton)
    requires t == GroupText(hi, lo) && two == [hi, lo]
    ensures ReadParts([t] + parts, r, aton) == ReadParts(parts, r.(result := r.result + two), aton)
  {
    GroupBack(hi, lo);
    PrintedAt([t], 0);
    ReadFirst(t, parts, r, aton, two);
  }

  lemma {:induction false} GroupsAppend(a: seq<Byte>, b: seq<Byte>)
    requires |a| % 2 == 0
    ensures Groups(a + b) == Groups(a) + Groups(b) && 2 * |Groups(a)| == |a|
  {
    if a == [] {
      assert a + b == b;
    } else {
      GroupsAppend(a[2..], b);
      assert (a + b)[2..] == a[2..] + b;
      Regroup([GroupText(a[0], a[1])], Groups(a[2..]), Groups(b));
    }
  }

  lemma {:induction false} GroupsSplit(addr: seq<Byte>, k: nat)
    requires |addr| % 2 == 0 && 2 * k <= |addr|
    ensures k <= |Groups(addr)|
    ensures Groups(addr)[..k] == Groups(addr[..2 * k]) && Groups(addr)[k..] == Groups(addr[2 * k..])
  {
    assert addr == addr[..2 * k] + addr[2 * k..];
    GroupsAppend(addr[..2 * k], addr[2 * k..]);
  }

  lemma {:induction false} NoColons(gs: seq<string>)
    requires Printed(gs)
    ensures gs != [] && Parts(gs)
  {
    forall i | 0 <= i < |gs|
      ensures gs[i] != [] && NoColon(gs[i])
    {
      PrintedAt(gs, i);
    }
  }

  /** Joined parts neither start nor end with a colon. */
  lemma {:induction false} JoinEnds(gs: seq<string>)
    requires gs != [] && Parts(gs)
    ensures var a := Join(gs); a != [] && a[0] != ':' && a[|a| - 1] != ':'
  {
    assert gs[0][0] in gs[0] && gs[0][|gs[0]| - 1] in gs[0];
    if |gs| > 1 {
      JoinEnds(gs[1..]);
    }
  }

  lemma {:induction false} SplitThen(gs: seq<string>, s: string)
    requires gs != [] && Parts(gs)
    ensures Split(Join(gs) + ":" + s) == gs + Split(s)
  {
    if |gs| == 1 {
      SplitFirst(gs[0], s);
      assert gs == [gs[0]];
    } else {
      var g, rest := gs[0], gs[1..];
      SplitThen(rest, s);
      SplitFirst(g, Join(rest) + ":" + s);
      RegroupFour(g + ":", Join(rest), ":", s);
      Prepend(g, rest, Split(s));
      assert gs == [g] + rest;
    }
  }

  lemma RegroupFour<T>(a: seq<T>, b: seq<T>, c: seq<T>, d: seq<T>)
    ensures (a + b) + c + d == a + (b + c + d)
  {}

  lemma Prepend<T>(x: T, a: seq<T>, b: seq<T>)
    ensures [x] + (a + b) == ([x] + a) + b
  {}

  /** Text with "::" in the middle splits into the groups before, an empty part, and those after. */
  lemma {:induction false} SplitMiddle(a: seq<string>, b: seq<string>)
    requires a != [] && b != [] && Parts(a) && Parts(b)
    ensures Split(Join(a) + "::" + Join(b)) == a + [""] + b
  {
    var s, u := Join(b), ":" + Join(b);
    SplitJoin(b);
    SplitFirst("", s);
    assert u == "" + ":" + s;
    SplitThen(a, u);
    assert Join(a) + "::" + s == Join(a) + ":" + u;
    Regroup(a, [""], b);
  }

  lemma {:induction false} TrimMiddle(a: seq<string>, b: seq<string>)
    requires a != [] && b != [] && Parts(a) && Parts(b)
    ensures var t := Join(a) + "::" + Join(b); t[0] != ':' && Trim(t) == t
  {
    var s, t := Join(b), Join(a) + "::" + Join(b);
    JoinEnds(a);
    JoinEnds(b);
    assert t[0] == Join(a)[0] && t[|t| - 1] == s[|s| - 1];
    TrimNothing(t);
  }

  lemma TrimNothing(t: string)
    requires t != [] && t[0] != ':' && t[|t| - 1] != ':'
    ensures Trim(t) == t
  {}

  lemma EndsOtherwise(a: string)
    requires |a| >= 2 && a[|a| - 1] != ':'
    ensures a[|a| - 2..] != "::"
  {
    assert a[|a| - 2..][1] == a[|a| - 1];
  }

  lemma TrimOne(t: string, a: string)
    requires "::" <= t && a == t[1..] && (|a| >= 2 ==> a[|a| - 2..] != "::")
    ensures Trim(t) == a
  {}

  lemma TrimFront(s: string)
    requires s != [] && s[|s| - 1] != ':'
    ensures Trim("::" + s) == ":" + s
  {
    EndsOtherwise(":" + s);
    assert ("::" + s)[1..] == ":" + s;
    TrimOne("::" + s, ":" + s);
  }

  lemma {:induction false} SplitFront(b: seq<string>)
    requires b != [] && Parts(b)
    ensures "::" + Join(b) != "::" && Split(Trim("::" + Join(b))) == [""] + b
  {
    var s := Join(b);
    JoinEnds(b);
    TrimFront(s);
    assert "" + ":" + s == ":" + s;
    SplitJoin(b);
    SplitFirst("", s);
  }

  lemma {:induction false} SplitBack(a: seq<string>)
    requires a != [] && Parts(a)
    ensures Join(a) + "::" != "::" && Split(Trim(Join(a) + "::")) == a + [""]
  {
    var s := Join(a) + "::";
    JoinEnds(a);
    SplitThen(a, "");
    assert s[0] != ':' && s[|s| - 2..] == "::";
    assert s[..|s| - 1] == Join(a) + ":" + "";
    assert Split("") == [""];
  }

  /** An address read from the groups around an empty part that stands for zeros. */
  lemma {:induction false} ReadsAround(a: seq<Byte>, z: seq<Byte>, b: seq<Byte>, aton: Aton)
    requires |a| % 2 == 0 && |b| % 2 == 0 && |a| + |z| + |b| == 16 && z != [] && z == Zeros(|z|)
    ensures var r := ReadParts(Groups(a) + [""] + Groups(b), Reading([], None), aton);
            r.Some? && Fill(r.value) == Ok(a + z + b)
  {
    Regroup(Groups(a), [""], Groups(b));
    ReadsGroups(a, [""] + Groups(b), Reading([], None), aton);
    assert [] + a == a;
    JokerThen(a, b, aton);
    FillsAround(a, z, b);
  }

  lemma {:induction false} JokerThen(a: seq<Byte>, b: seq<Byte>, aton: Aton)
    requires |b| % 2 == 0
    ensures ReadParts([""] + Groups(b), Reading(a, None), aton) == Some(Reading(a + b, Some(|a|)))
  {
    assert ([""] + Groups(b))[1..] == Groups(b) + [];
    ReadsGroups(b, [], Reading(a, Some(|a|)), aton);
  }

  lemma {:induction false} FillsAround(a: seq<Byte>, z: seq<Byte>, b: seq<Byte>)
    requires |a| + |z| + |b| == 16 && z != [] && z == Zeros(|z|)
    ensures Fill(Reading(a + b, Some(|a|))) == Ok(a + z + b)
  {
    assert (a + b)[..|a|] == a && (a + b)[|a|..] == b;
  }

  lemma {:induction false} GroupAt(addr: seq<Byte>, i: nat, j: nat)
    requires |addr| % 2 == 0 && j == 2 * i && j + 1 < |addr|
    ensures i < |Groups(addr)| && Groups(addr)[i] == GroupText(addr[j], addr[j + 1])
  {
    if i > 0 {
      var rest := addr[2..];
      GroupAt(rest, i - 1, j - 2);
      var t, gs := GroupText(addr[0], addr[1]), Groups(rest);
      GroupsCons(addr, [addr[0], addr[1]], rest, t, gs);
      assert Groups(addr)[i] == gs[i - 1] == GroupText(rest[j - 2], rest[j - 1]);
      assert rest[j - 2] == addr[j] && rest[j - 1] == addr[j + 1];
    } else {
      GroupsCons(addr, [addr[0], addr[1]], addr[2..], GroupText(addr[0], addr[1]), Groups(addr[2..]));
    }
  }

  lemma {:induction false} ZeroBytes(addr: seq<Byte>, k: nat, n: nat)
    requires |addr| == 16 && k + n <= 8 && ZeroRun(Groups(addr), k, n)
    ensures addr[2 * k..2 * (k + n)] == Zeros(2 * n)
  {
    var z := addr[2 * k..2 * (k + n)];
    forall j | 0 <= j < |z|
      ensures z[j] == 0
    {
      var i := k + j / 2;
      ZeroGroup(addr, i);
      assert 2 * k + j == 2 * i || 2 * k + j == 2 * i + 1;
    }
  }

  lemma {:induction false} ZeroGroup(addr: seq<Byte>, i: nat)
    requires |addr| % 2 == 0 && i < |Groups(addr)| && Groups(addr)[i] == "0" && 2 * i + 1 < |addr|
    ensures addr[2 * i] == 0 && addr[2 * i + 1] == 0
  {
    GroupAt(addr, i, 2 * i);
    GroupBack(addr[2 * i], addr[2 * i + 1]);
  }

  /** Every address is read back from the text it is printed as. */
  lemma {:induction false} RoundTrip(addr: seq<Byte>, aton: Aton)
    requires |addr| == 16
    ensures Ntop(addr).Ok? && Pton(Ntop(addr).value, aton) == Ok(addr)
  {
    var gs := Groups(addr);
    PrintsCanonical(addr);
    if exists k: nat, n: nat :: n >= 2 && ZeroRun(gs, k, n) {
      var r :| LeftmostLongest(gs, r) && Ntop(addr) == Ok(Compressed(gs, r));
      ReadsCompressed(addr, r, aton);
    } else {
      ReadsPlain(addr, aton);
    }
  }

  lemma {:induction false} ReadsPlain(addr: seq<Byte>, aton: Aton)
    requires |addr| == 16
    ensures Pton(Join(Groups(addr)), aton) == Ok(addr)
  {
    var gs := Groups(addr);
    GroupsPrinted(addr);
    NoColons(gs);
    JoinEnds(gs);
    TrimNothing(Join(gs));
    SplitJoin(gs);
    ReadsGroups(addr, [], Reading([], None), aton);
    assert gs + [] == gs && [] + addr == addr;
  }

  lemma {:induction false} ReadsCompressed(addr: seq<Byte>, r: Run, aton: Aton)
    requires |addr| == 16 && r.n >= 1 && ZeroRun(Groups(addr), r.k, r.n)
    ensures Pton(Compressed(Groups(addr), r), aton) == Ok(addr)
  {
    GroupsPrinted(addr);
    var i, j := 2 * r.k, 2 * (r.k + r.n);
    var a, z, b := addr[..i], addr[i..j], addr[j..];
    ZeroBytes(addr, r.k, r.n);
    ThreeParts(addr, i, j);
    Even(|a|, r.k);
    Even(|b|, 8 - r.k - r.n);
    ReadsThree(addr, a, z, b, aton);
    assert Compressed(Groups(addr), r) == Join(Groups(a)) + "::" + Join(Groups(b)) by {
      GroupsSplit(addr, r.k);
      GroupsSplit(addr, r.k + r.n);
    }
  }

  lemma Even(n: nat, k: nat)
    requires n == 2 * k
    ensures n % 2 == 0
  {}

  lemma {:induction false} ReadsThree(addr: seq<Byte>, a: seq<Byte>, z: seq<Byte>, b: seq<Byte>, aton: Aton)
    requires |addr| == 16 && addr == a + z + b && z != [] && z == Zeros(|z|) && |a| % 2 == 0 && |b| % 2 == 0
    ensures Pton(Join(Groups(a)) + "::" + Join(Groups(b)), aton) == Ok(addr)
  {
    ReadsAround(a, z, b, aton);
    PartsPrinted(a);
    PartsPrinted(b);
    ReadsParts(addr, Groups(a), Groups(b), aton);
  }

  lemma ThreeParts<T>(s: seq<T>, i: nat, j: nat)
    requires i <= j <= |s|
    ensures s[..i] + s[i..j] + s[j..] == s
  {}

  lemma {:induction false} PartsPrinted(a: seq<Byte>)
    requires |a| % 2 == 0
    ensures Parts(Groups(a))
  {
    if a != [] {
      GroupsPrinted(a);
      NoColons(Groups(a));
    }
  }

  /** The four places "::" can stand: in the middle, in front, at the end, or alone. */
  lemma {:induction false} ReadsParts(addr: seq<Byte>, a: seq<string>, b: seq<string>, aton: Aton)
    requires |addr| == 16 && Parts(a) && Parts(b)
    requires var r := ReadParts(a + [""] + b, Reading([], None), aton); r.Some? && Fill(r.value) == Ok(addr)
    ensures Pton(Join(a) + "::" + Join(b), aton) == Ok(addr)
  {
    var t := Join(a) + "::" + Join(b);
    if a != [] && b != [] {
      SplitMiddle(a, b);
      TrimMiddle(a, b);
    } else if a != [] {
      SplitBack(a);
      assert t == Join(a) + "::" && a + [""] + b == a + [""];
    } else if b != [] {
      SplitFront(b);
      assert t == "::" + Join(b) && a + [""] + b == [""] + b;
    } else {
      assert t == "::" && a + [""] + b == [""];
      assert Fill(Reading([], Some(0))) == Ok(addr);
      assert [][..0] + Zeros(16) + [][0..] == Zeros(16);
    }
  }
}
