/** `_inet6_ntop` and `_inet6_pton`: IPv6 addresses as text. */
module Inet6 {
  import opened Bytes
  import opened Inet6Groups

  // ----- Printing -----

  /** The groups of an address, printed. */
  function Groups(addr: seq<Byte>): seq<string> {
    if |addr| < 2 then [] else [GroupText(addr[0], addr[1])] + Groups(addr[2..])
  }

  /** A match of `(?::|^)(0(?::0)+)(?::|$)`: where it starts, its group 1, where it ends. */
  datatype ReMatch = ReMatch(start: nat, start1: nat, end1: nat, end: nat)

  /** How many times ":0" repeats from position k. */
  function Repeats(s: string, k: nat): nat
    decreases |s| - k
  {
    if k + 1 < |s| && s[k] == ':' && s[k + 1] == '0' then 1 + Repeats(s, k + 2) else 0
  }

  /** After at most n repeats from k, the longest the closing colon or end of text allows, but at least one. */
  function Closing(s: string, k: nat, n: nat): (r: nat)
    ensures r <= n && (r != 0 ==> k + 2 * r <= |s|)
  {
    if n == 0 then 0
    else if k + 2 * n == |s| || (k + 2 * n < |s| && s[k + 2 * n] == ':') then n
    else Closing(s, k, n - 1)
  }

  /** The match that starts at p, if there is one. */
  function MatchAt(s: string, p: nat): (m: Option<ReMatch>)
    ensures m.Some? ==> p == m.value.start <= m.value.start1 < m.value.end1 <= m.value.end <= |s|
  {
    if p > |s| then None
    else
      var g := if p < |s| && s[p] == ':' then p + 1 else p;
      if (g == p && p != 0) || g >= |s| || s[g] != '0' then None
      else
        var n := Closing(s, g + 1, Repeats(s, g + 1));
        if n == 0 then None
        else
          var e := g + 1 + 2 * n;
          Some(ReMatch(p, g, e, if e == |s| then e else e + 1))
  }

  /** `finditer` from position p. */
  function FindAll(s: string, p: nat): (ms: seq<ReMatch>)
    ensures forall m :: m in ms ==> m.start <= m.end <= |s|
    decreases |s| + 1 - p
  {
    if p > |s| then []
    else
      var m := MatchAt(s, p);
      if m.Some? then [m.value] + FindAll(s, m.value.end) else FindAll(s, p + 1)
  }

  /** The first of the matches with the longest group 1. */
  function Longest(ms: seq<ReMatch>): (m: ReMatch)
    requires ms != []
    ensures m in ms
  {
    if |ms| == 1 then ms[0]
    else
      var m := Longest(ms[1..]);
      if m.end1 - m.start1 > ms[0].end1 - ms[0].start1 then m else ms[0]
  }

  function Ntop(addr: seq<Byte>): Result<string> {
    if |addr| != 16 then Err
    else
      var address := Join(Groups(addr));
      var ms := FindAll(address, 0);
      if ms == [] then Ok(address)
      else
        var m := Longest(ms);
        Ok(address[..m.start] + "::" + address[m.end..])
  }

  // ----- What the matches are: runs of zero groups -----

  /** n zero groups from group k on. */
  datatype Run = Run(k: nat, n: nat)

  predicate Printed(gs: seq<string>) {
    gs != [] && IsGroup(gs[0]) && (|gs| > 1 ==> Printed(gs[1..]))
  }

  lemma {:induction false} PrintedAt(gs: seq<string>, i: nat)
    requires Printed(gs) && i < |gs|
    ensures 0 < |gs[i]| && (gs[i][0] == '0' <==> gs[i] == "0") && NoColon(gs[i]) && '.' !in gs[i]
  {
    if i > 0 {
      PrintedAt(gs[1..], i - 1);
    } else {
      assert HexValue(':') == None && HexValue('.') == None;
    }
  }

  /** How many groups from k on are zero. */
  function RunLength(gs: seq<string>, k: nat): (n: nat)
    requires k <= |gs|
    ensures k + n <= |gs|
    decreases |gs| - k
  {
    if k < |gs| && gs[k] == "0" then 1 + RunLength(gs, k + 1) else 0
  }

  /** A run is of zero groups, and as long as it can be. */
  lemma {:induction false} RunIs(gs: seq<string>, k: nat)
    requires k <= |gs|
    ensures forall i :: k <= i < k + RunLength(gs, k) ==> gs[i] == "0"
    ensures k + RunLength(gs, k) < |gs| ==> gs[k + RunLength(gs, k)] != "0"
    decreases |gs| - k
  {
    if k < |gs| && gs[k] == "0" {
      RunIs(gs, k + 1);
    }
  }

  /** The runs of at least two, left to right, from group k on. */
  function Runs(gs: seq<string>, k: nat): (rs: seq<Run>)
    requires k <= |gs|
    ensures forall r :: r in rs ==> k <= r.k && 2 <= r.n && r.k + r.n <= |gs|
    decreases |gs| - k
  {
    if k == |gs| then []
    else
      var n := RunLength(gs, k);
      if n < 2 then Runs(gs, k + 1)
      else [Run(k, n)] + (if k + n == |gs| then [] else Runs(gs, k + n + 1))
  }

  /** Where group k starts in the joined text. */
  function Pos(gs: seq<string>, k: nat): nat
    requires k <= |gs|
  {
    if k == 0 then 0 else Pos(gs, k - 1) + |gs[k - 1]| + 1
  }

  lemma {:induction false} PosIs(gs: seq<string>, k: nat)
    requires 1 <= k <= |gs|
    ensures Pos(gs, k) == |Join(gs[..k])| + 1
  {
    if k == 1 {
      assert gs[..1] == [gs[0]];
    } else {
      PosIs(gs, k - 1);
      assert gs[..k] == gs[..k - 1] + [gs[k - 1]];
      JoinAppend(gs[..k - 1], [gs[k - 1]]);
    }
  }

  lemma {:induction false} JoinAt(gs: seq<string>, k: nat)
    requires Printed(gs) && k < |gs|
    ensures var a, p := Join(gs), Pos(gs, k);
            && p + |gs[k]| <= |a| && a[p..] == Join(gs[k..]) && a[p..p + |gs[k]|] == gs[k]
            && (k != 0 ==> p > 0 && a[p - 1] == ':' && a[..p - 1] == Join(gs[..k]))
            && (k + 1 == |gs| ==> |a| == p + |gs[k]|)
            && (k + 1 < |gs| ==> p + |gs[k]| < |a| && a[p + |gs[k]|] == ':')
  {
    var a, p := Join(gs), Pos(gs, k);
    if k == 0 {
      assert gs[0..] == gs;
    } else {
      PosIs(gs, k);
      assert gs == gs[..k] + gs[k..];
      JoinAppend(gs[..k], gs[k..]);
    }
    JoinHead(gs[k..]);
  }

  lemma JoinHead(gs: seq<string>)
    requires gs != []
    ensures var a := Join(gs);
            |gs[0]| <= |a| && a[..|gs[0]|] == gs[0]
            && (|gs| == 1 ==> a == gs[0]) && (|gs| > 1 ==> |gs[0]| < |a| && a[|gs[0]|] == ':')
  {}

  /** The start of the search for group k: the colon before it, or the start of the text. */
  function Boundary(gs: seq<string>, k: nat): nat
    requires k <= |gs|
  {
    if k == 0 then 0 else Pos(gs, k) - 1
  }

  lemma PartAt(s: string, i: nat, part: string, j: nat)
    requires i + |part| <= |s| && s[i..i + |part|] == part && j < |part|
    ensures s[i + j] == part[j]
  {
    assert s[i..i + |part|][j] == s[i + j];
  }

  /** The text around the start of group k. */
  lemma {:induction false} GroupStart(gs: seq<string>, k: nat)
    requires Printed(gs) && k < |gs|
    ensures var a, p := Join(gs), Pos(gs, k);
            && p < |a| && a[p] != ':' && (a[p] == '0' <==> gs[k] == "0")
            && (k > 0 ==> a[p - 1] == ':')
  {
    JoinAt(gs, k);
    PrintedAt(gs, k);
    var a, p := Join(gs), Pos(gs, k);
    PartAt(a, p, gs[k], 0);
    assert gs[k][0] in gs[k];
  }

  /** Past the last group the text has ended. */
  lemma {:induction false} TextEnd(gs: seq<string>)
    requires Printed(gs)
    ensures Pos(gs, |gs|) == |Join(gs)| + 1
  {
    JoinAt(gs, |gs| - 1);
  }

  /** The colon before group k, or the end of the text behind the last group. */
  lemma {:induction false} AtColon(gs: seq<string>, k: nat, q: nat)
    requires Printed(gs) && 1 <= k <= |gs| && q == Pos(gs, k) - 1
    ensures if k == |gs| then q == |Join(gs)| else q + 1 < |Join(gs)| && Join(gs)[q] == ':'
    ensures k < |gs| ==> (Join(gs)[q + 1] == '0' <==> gs[k] == "0")
    ensures k < |gs| && gs[k] == "0" ==> Pos(gs, k + 1) == q + 3
  {
    TextEnd(gs);
    if k < |gs| {
      GroupStart(gs, k);
    }
  }

  /** The repeats from the colon before group k are its run of zero groups. */
  lemma {:induction false} RepeatsAt(gs: seq<string>, k: nat, e: nat, q: nat, s: string)
    requires Printed(gs) && 1 <= k <= |gs| && e == k + RunLength(gs, k) && q == Pos(gs, k) - 1 && s == Join(gs)
    ensures Repeats(s, q) == e - k && Pos(gs, e) == q + 1 + 2 * (e - k)
    decreases |gs| - k
  {
    AtColon(gs, k, q);
    if k < |gs| && gs[k] == "0" {
      RepeatsAt(gs, k + 1, e, q + 2, s);
    }
  }

  function MatchOf(gs: seq<string>, r: Run): ReMatch
    requires 1 <= r.n && r.k + r.n <= |gs|
  {
    var p := Pos(gs, r.k);
    ReMatch(Boundary(gs, r.k), p, p + 2 * r.n - 1, if r.k + r.n == |gs| then |Join(gs)| else Pos(gs, r.k + r.n))
  }

  lemma ClosesAt(s: string, k: nat, n: nat)
    requires k + 2 * n == |s| || (k + 2 * n < |s| && s[k + 2 * n] == ':')
    ensures Closing(s, k, n) == n
  {}

  /** A colon or nothing follows, so they are all taken. */
  lemma {:induction false} TakesRepeats(gs: seq<string>, k: nat, m: nat, q: nat)
    requires Printed(gs) && 1 <= k <= |gs| && m == RunLength(gs, k) && q == Pos(gs, k) - 1
    ensures Repeats(Join(gs), q) == m && Closing(Join(gs), q, m) == m
    ensures Pos(gs, k + m) == q + 1 + 2 * m && (k + m == |gs| <==> q + 2 * m == |Join(gs)|)
  {
    RepeatsAt(gs, k, k + m, q, Join(gs));
    AtColon(gs, k + m, q + 2 * m);
    ClosesAt(Join(gs), q, m);
  }

  /** A run that starts with group k is taken to its end. */
  lemma {:induction false} TakesRun(gs: seq<string>, k: nat, n: nat, q: nat)
    requires Printed(gs) && k < |gs| && gs[k] == "0" && n == RunLength(gs, k) && q == Pos(gs, k) + 1
    ensures n >= 1 && Repeats(Join(gs), q) == n - 1 && Closing(Join(gs), q, n - 1) == n - 1
    ensures Pos(gs, k + n) == q - 1 + 2 * n
    ensures k + n == |gs| <==> q + 2 * (n - 1) == |Join(gs)|
  {
    TakesRepeats(gs, k + 1, n - 1, q);
  }

  /** A search from p, with the first group character at q and n zero groups there. */
  lemma MatchIs(s: string, p: nat, q: nat, n: nat)
    requires p <= q < |s| && s[q] == '0' && (if s[p] == ':' then q == p + 1 else q == p == 0)
    requires n >= 1 && Repeats(s, q + 1) == n - 1 && Closing(s, q + 1, n - 1) == n - 1
    ensures var e := q + 1 + 2 * (n - 1);
            MatchAt(s, p) == if n < 2 then None else Some(ReMatch(p, q, e, if e == |s| then e else e + 1))
  {}

  lemma NoMatchAt(s: string, p: nat, q: nat)
    requires p <= q < |s| && s[q] != '0' && (if s[p] == ':' then q == p + 1 else q == p)
    ensures MatchAt(s, p) == None
  {}

  lemma {:induction false} MatchAtBoundary(gs: seq<string>, k: nat, n: nat, p: nat)
    requires Printed(gs) && k < |gs| && n == RunLength(gs, k) && p == Boundary(gs, k)
    ensures MatchAt(Join(gs), p) == if n < 2 then None else Some(MatchOf(gs, Run(k, n)))
  {
    GroupStart(gs, k);
    var a, q := Join(gs), Pos(gs, k);
    if gs[k] == "0" {
      TakesRun(gs, k, n, q + 1);
      MatchIs(a, p, q, n);
      if n >= 2 {
        MatchOfRun(gs, k, n);
      }
    } else {
      NoMatchAt(a, p, q);
    }
  }

  lemma MatchOfRun(gs: seq<string>, k: nat, n: nat)
    requires 2 <= n && k + n <= |gs| && Pos(gs, k + n) == Pos(gs, k) + 2 * n
    requires k + n == |gs| <==> Pos(gs, k) + 2 * n - 1 == |Join(gs)|
    ensures var p, e := Pos(gs, k), Pos(gs, k) + 2 * n - 1;
            MatchOf(gs, Run(k, n)) == ReMatch(Boundary(gs, k), p, e, if e == |Join(gs)| then e else e + 1)
  {}

  lemma NoMatchInside(s: string, p: nat)
    requires 0 < p <= |s| && (p < |s| ==> s[p] != ':')
    ensures MatchAt(s, p) == None
  {}

  /** The matches found from the boundary before group k on. */
  function FindFrom(gs: seq<string>, k: nat): seq<ReMatch>
    requires k <= |gs|
  {
    if k == |gs| then [] else FindAll(Join(gs), Boundary(gs, k))
  }

  lemma {:induction false} InsideGroup(gs: seq<string>, k: nat, p: nat)
    requires Printed(gs) && k < |gs| && Pos(gs, k) <= p && p + 1 < Pos(gs, k + 1)
    ensures p < |Join(gs)| && Join(gs)[p] != ':'
  {
    var a, q := Join(gs), Pos(gs, k);
    JoinAt(gs, k);
    PrintedAt(gs, k);
    PartAt(a, q, gs[k], p - q);
    assert gs[k][p - q] in gs[k];
  }

  /** From inside a group the search goes on to the next boundary. */
  lemma {:induction false} SkipGroup(gs: seq<string>, k: nat, p: nat)
    requires Printed(gs) && k < |gs| && Pos(gs, k) <= p < Pos(gs, k + 1) && p > 0
    ensures FindAll(Join(gs), p) == FindFrom(gs, k + 1)
    decreases Pos(gs, k + 1) - p
  {
    if p + 1 < Pos(gs, k + 1) {
      InsideGroup(gs, k, p);
      NoMatchInside(Join(gs), p);
      FindsLater(Join(gs), p);
      SkipGroup(gs, k, p + 1);
    } else {
      FromBoundary(gs, k + 1, p);
    }
  }

  lemma FindsLater(s: string, p: nat)
    requires p < |s| && MatchAt(s, p) == None
    ensures FindAll(s, p) == FindAll(s, p + 1)
  {}

  lemma {:induction false} FromBoundary(gs: seq<string>, k: nat, p: nat)
    requires Printed(gs) && 1 <= k <= |gs| && p == Pos(gs, k) - 1
    ensures FindAll(Join(gs), p) == FindFrom(gs, k)
  {
    if k == |gs| {
      NothingAtEnd(gs);
    }
  }

  lemma {:induction false} NothingAtEnd(gs: seq<string>)
    requires Printed(gs)
    ensures |Join(gs)| > 0 && FindAll(Join(gs), |Join(gs)|) == [] && Pos(gs, |gs|) == |Join(gs)| + 1
  {
    TextEnd(gs);
    GroupStart(gs, 0);
    NoMatchInside(Join(gs), |Join(gs)|);
  }

  function MatchesOf(gs: seq<string>, rs: seq<Run>): seq<ReMatch>
    requires forall r :: r in rs ==> 1 <= r.n && r.k + r.n <= |gs|
  {
    if rs == [] then [] else [MatchOf(gs, rs[0])] + MatchesOf(gs, rs[1..])
  }

  lemma {:induction false} MatchesCons(gs: seq<string>, r: Run, rs: seq<Run>)
    requires forall x :: x in [r] + rs ==> 1 <= x.n && x.k + x.n <= |gs|
    requires forall x :: x in rs ==> 1 <= x.n && x.k + x.n <= |gs|
    requires 1 <= r.n && r.k + r.n <= |gs|
    ensures MatchesOf(gs, [r] + rs) == [MatchOf(gs, r)] + MatchesOf(gs, rs)
  {
    assert ([r] + rs)[1..] == rs;
  }

  lemma {:induction false} RunsStep(gs: seq<string>, k: nat, n: nat)
    requires k < |gs| && n == RunLength(gs, k)
    ensures MatchesOf(gs, Runs(gs, k))
         == if n < 2 then MatchesOf(gs, Runs(gs, k + 1)) else [MatchOf(gs, Run(k, n))] + RunsBehind(gs, k + n)
  {
    if n >= 2 {
      var rest := if k + n == |gs| then [] else Runs(gs, k + n + 1);
      assert Runs(gs, k) == [Run(k, n)] + rest;
      MatchesCons(gs, Run(k, n), rest);
    }
  }

  /** The matches expected behind a run that ends with group k - 1. */
  function RunsBehind(gs: seq<string>, k: nat): seq<ReMatch>
    requires k <= |gs|
  {
    if k == |gs| then [] else MatchesOf(gs, Runs(gs, k + 1))
  }

  lemma {:induction false} FindsRunsOver(gs: seq<string>, k: nat, n: nat)
    requires Printed(gs) && k < |gs| && n == RunLength(gs, k) < 2
    requires FindFrom(gs, k + 1) == MatchesOf(gs, Runs(gs, k + 1))
    ensures FindFrom(gs, k) == MatchesOf(gs, Runs(gs, k))
  {
    RunsStep(gs, k, n);
    StepOver(gs, k, n);
  }

  lemma {:induction false} FindsRunsMatch(gs: seq<string>, k: nat, n: nat)
    requires Printed(gs) && k < |gs| && n == RunLength(gs, k) >= 2
    requires FindBehind(gs, k + n) == RunsBehind(gs, k + n)
    ensures FindFrom(gs, k) == MatchesOf(gs, Runs(gs, k))
  {
    RunsStep(gs, k, n);
    StepMatch(gs, k, n);
  }

  /** The matches of the regular expression are the runs of zero groups. */
  lemma {:induction false} FindsRuns(gs: seq<string>, k: nat)
    requires Printed(gs) && k <= |gs|
    ensures FindFrom(gs, k) == MatchesOf(gs, Runs(gs, k))
    decreases |gs| - k
  {
    if k < |gs| {
      var n := RunLength(gs, k);
      if n < 2 {
        FindsRuns(gs, k + 1);
        FindsRunsOver(gs, k, n);
      } else {
        FindsRunsBehind(gs, k + n);
        FindsRunsMatch(gs, k, n);
      }
    }
  }

  lemma {:induction false} FindsRunsBehind(gs: seq<string>, k: nat)
    requires Printed(gs) && k <= |gs|
    ensures FindBehind(gs, k) == RunsBehind(gs, k)
    decreases |gs| - k
  {
    if k < |gs| {
      FindsRuns(gs, k + 1);
    }
  }

  lemma {:induction false} StepOver(gs: seq<string>, k: nat, n: nat)
    requires Printed(gs) && k < |gs| && n == RunLength(gs, k) < 2
    ensures FindFrom(gs, k) == FindFrom(gs, k + 1)
  {
    MatchAtBoundary(gs, k, n, Boundary(gs, k));
    GroupLength(gs, k);
    SkipGroup(gs, k, Boundary(gs, k) + 1);
  }

  lemma FindHit(s: string, p: nat, m: ReMatch, rest: seq<ReMatch>)
    requires p <= |s| && MatchAt(s, p) == Some(m) && FindAll(s, m.end) == rest
    ensures FindAll(s, p) == [m] + rest
  {}

  lemma {:induction false} StepMatch(gs: seq<string>, k: nat, n: nat)
    requires Printed(gs) && k < |gs| && n == RunLength(gs, k) >= 2
    ensures FindFrom(gs, k) == [MatchOf(gs, Run(k, n))] + FindBehind(gs, k + n)
  {
    var p, m := Boundary(gs, k), MatchOf(gs, Run(k, n));
    MatchAtBoundary(gs, k, n, p);
    AfterRun(gs, k + n, m.end);
    FindHit(Join(gs), p, m, FindBehind(gs, k + n));
  }

  /** The matches found behind a run that ends with group k - 1. */
  function FindBehind(gs: seq<string>, k: nat): seq<ReMatch>
    requires k <= |gs|
  {
    if k == |gs| then [] else FindFrom(gs, k + 1)
  }

  /** The search goes on behind the colon that closes a match, past the group there. */
  lemma {:induction false} AfterRun(gs: seq<string>, k: nat, p: nat)
    requires Printed(gs) && 0 < k <= |gs| && p == if k == |gs| then |Join(gs)| else Pos(gs, k)
    ensures FindAll(Join(gs), p) == FindBehind(gs, k)
  {
    if k == |gs| {
      NothingAtEnd(gs);
    } else {
      GroupLength(gs, k);
      SkipGroup(gs, k, p);
    }
  }

  lemma {:induction false} GroupLength(gs: seq<string>, k: nat)
    requires Printed(gs) && k < |gs|
    ensures Pos(gs, k) + 2 <= Pos(gs, k + 1) <= |Join(gs)| + 1
    ensures k > 0 ==> Pos(gs, k) > 0
  {
    JoinAt(gs, k);
    PrintedAt(gs, k);
  }
}
