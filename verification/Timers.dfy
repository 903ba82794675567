/**
 * The timers of an automaton: `Timer` and `_TimerList`.
 *
 * A timer counts down; a periodic one adds its period back when it runs out, keeping the overshoot,
 * but at most once per step.  Times are modelled as real numbers.
 */
module Timers {
  import opened Bytes

  // ---- One timer, as a value ----

  /** The fields of a timer. */
  datatype Timing = Timing(timeout: real, time: real, justExpired: bool, expired: bool, prio: int, autoreload: bool)

  function Restarted(t: Timing): Timing {
    t.(time := t.timeout, expired := false, justExpired := false)
  }

  /** Does the timer run out in a step of length `d`? */
  predicate Fires(t: Timing, d: real) {
    t.time - d <= 0.0 && !t.expired
  }

  function Decremented(t: Timing, d: real): Timing {
    var time := t.time - d;
    if !Fires(t, d) then t.(time := time)
    else if t.autoreload then t.(justExpired := true, time := t.timeout + time)
    else t.(justExpired := true, expired := true, time := 0.0)
  }

  // ---- A run of one timer: time passes, and expiries are collected ----

  datatype Event = Elapse(d: real) | Poll

  function After(t: Timing, es: seq<Event>, n: nat): Timing
    requires n <= |es|
  {
    if n == 0 then t
    else
      var before := After(t, es, n - 1);
      match es[n - 1]
      case Elapse(d) => Decremented(before, d)
      case Poll => before.(justExpired := false)
  }

  predicate FiresAt(t: Timing, es: seq<Event>, n: nat)
    requires n < |es|
  {
    es[n].Elapse? && Fires(After(t, es, n), es[n].d)
  }

  /** How often the timer ran out in the first `n` events. */
  function Fired(t: Timing, es: seq<Event>, n: nat): nat
    requires n <= |es|
  {
    if n == 0 then 0 else Fired(t, es, n - 1) + if FiresAt(t, es, n - 1) then 1 else 0
  }

  /** The time that passed in the first `n` events. */
  function Elapsed(es: seq<Event>, n: nat): real
    requires n <= |es|
  {
    if n == 0 then 0.0 else Elapsed(es, n - 1) + if es[n - 1].Elapse? then es[n - 1].d else 0.0
  }

  /** How many of the first `n` events let time pass. */
  function Steps(es: seq<Event>, n: nat): nat
    requires n <= |es|
  {
    if n == 0 then 0 else Steps(es, n - 1) + if es[n - 1].Elapse? then 1 else 0
  }

  ghost predicate Forward(es: seq<Event>) {
    forall k: nat :: k < |es| && es[k].Elapse? ==> es[k].d >= 0.0
  }

  lemma {:induction false} KeepsSettings(t: Timing, es: seq<Event>, n: nat)
    requires n <= |es|
    ensures After(t, es, n).timeout == t.timeout && After(t, es, n).autoreload == t.autoreload
    ensures After(t, es, n).prio == t.prio
    ensures t.autoreload ==> After(t, es, n).expired == t.expired
  {
    if n > 0 {
      KeepsSettings(t, es, n - 1);
    }
  }

  // ---- Periodic timers do not drift ----

  /** The length of `k` periods. */
  function Multiple(k: nat, timeout: real): real {
    if k == 0 then 0.0 else Multiple(k - 1, timeout) + timeout
  }

  lemma {:induction false} MultipleIs(k: nat, timeout: real)
    ensures Multiple(k, timeout) == k as real * timeout
  {
    if k > 0 {
      MultipleIs(k - 1, timeout);
      OneMore((k - 1) as real, timeout);
    }
  }

  lemma OneMore(a: real, c: real)
    ensures (a + 1.0) * c == a * c + c
  {}

  lemma {:induction false} NoDriftBy(t: Timing, es: seq<Event>, n: nat)
    requires n <= |es| && t.autoreload
    ensures After(Restarted(t), es, n).time
         == Multiple(Fired(Restarted(t), es, n) + 1, t.timeout) - Elapsed(es, n)
  {
    if n == 0 {
      assert Multiple(1, t.timeout) == Multiple(0, t.timeout) + t.timeout;
    } else {
      NoDriftBy(t, es, n - 1);
      KeepsSettings(Restarted(t), es, n - 1);
    }
  }

  /** Whatever the steps, the remaining time is a whole number of periods away from the time that passed. */
  lemma {:induction false} NoDrift(t: Timing, es: seq<Event>, n: nat, k: nat)
    requires n <= |es| && t.autoreload && k == Fired(Restarted(t), es, n)
    ensures After(Restarted(t), es, n).time == (k + 1) as real * t.timeout - Elapsed(es, n)
  {
    NoDriftBy(t, es, n);
    PeriodsAhead(After(Restarted(t), es, n).time, k + 1, t.timeout, Elapsed(es, n));
  }

  lemma PeriodsAhead(time: real, k: nat, timeout: real, elapsed: real)
    requires time == Multiple(k, timeout) - elapsed
    ensures time == k as real * timeout - elapsed
  {
    MultipleIs(k, timeout);
  }

  lemma {:induction false} MultipleGrows(a: nat, b: nat, timeout: real)
    requires a <= b && timeout > 0.0
    ensures Multiple(a, timeout) <= Multiple(b, timeout)
  {
    if a < b {
      MultipleGrows(a, b - 1, timeout);
    }
  }

  /** Some whole number of periods is longer than `elapsed`. */
  lemma Exceeded(elapsed: real, timeout: real)
    requires elapsed >= 0.0 && timeout > 0.0
    ensures exists k: nat :: elapsed < Multiple(k, timeout)
  {
    var x := elapsed / timeout;
    assert x * timeout == elapsed;
    assert x >= 0.0;
    var k := x.Floor + 1;
    MultipleIs(k, timeout);
    Scale(x, k as real, timeout);
  }

  lemma Scale(a: real, b: real, c: real)
    requires a < b && c > 0.0
    ensures a * c < b * c
  {}

  lemma {:induction false} PeriodsBelow(elapsed: real, timeout: real, k: nat)
    requires elapsed >= 0.0 && elapsed < Multiple(k, timeout)
    ensures exists q: nat :: Multiple(q, timeout) <= elapsed < Multiple(q + 1, timeout)
  {
    if Multiple(k - 1, timeout) <= elapsed {
      assert Multiple(k - 1, timeout) <= elapsed < Multiple((k - 1) + 1, timeout);
    } else {
      PeriodsBelow(elapsed, timeout, k - 1);
    }
  }

  lemma PeriodsExist(elapsed: real, timeout: real)
    requires elapsed >= 0.0 && timeout > 0.0
    ensures exists q: nat :: Multiple(q, timeout) <= elapsed < Multiple(q + 1, timeout)
  {
    Exceeded(elapsed, timeout);
    var k: nat :| elapsed < Multiple(k, timeout);
    PeriodsBelow(elapsed, timeout, k);
  }

  /** The number of whole periods in a length of time. */
  ghost function Periods(elapsed: real, timeout: real): (q: nat)
    requires elapsed >= 0.0 && timeout > 0.0
    ensures Multiple(q, timeout) <= elapsed < Multiple(q + 1, timeout)
  {
    PeriodsExist(elapsed, timeout);
    var q: nat :| Multiple(q, timeout) <= elapsed < Multiple(q + 1, timeout);
    q
  }

  /** `k` periods fit into the elapsed time exactly when `k` is at most `Periods`. */
  lemma Fits(k: nat, elapsed: real, timeout: real)
    requires elapsed >= 0.0 && timeout > 0.0
    ensures Multiple(k, timeout) <= elapsed <==> k <= Periods(elapsed, timeout)
  {
    var q := Periods(elapsed, timeout);
    if k <= q {
      MultipleGrows(k, q, timeout);
    } else {
      MultipleGrows(q + 1, k, timeout);
    }
  }

  /** `Periods` is the quotient, rounded down. */
  lemma PeriodsIsFloor(elapsed: real, timeout: real)
    requires elapsed >= 0.0 && timeout > 0.0
    ensures Periods(elapsed, timeout) as real * timeout <= elapsed
    ensures elapsed < (Periods(elapsed, timeout) + 1) as real * timeout
  {
    MultipleIs(Periods(elapsed, timeout), timeout);
    MultipleIs(Periods(elapsed, timeout) + 1, timeout);
  }

  lemma {:induction false} ElapsedForward(es: seq<Event>, n: nat)
    requires n <= |es| && Forward(es)
    ensures Elapsed(es, n) >= 0.0
    ensures n > 0 ==> Elapsed(es, n) >= Elapsed(es, n - 1)
  {
    if n > 0 {
      ElapsedForward(es, n - 1);
    }
  }

  ghost function PeriodsBy(t: Timing, es: seq<Event>, n: nat): nat
    requires n <= |es| && Forward(es) && t.timeout > 0.0
  {
    ElapsedForward(es, n);
    Periods(Elapsed(es, n), t.timeout)
  }

  lemma NoPeriodsAtFirst(t: Timing, es: seq<Event>)
    requires Forward(es) && t.timeout > 0.0
    ensures PeriodsBy(t, es, 0) == 0
  {
    Fits(1, 0.0, t.timeout);
    assert Multiple(1, t.timeout) == Multiple(0, t.timeout) + t.timeout;
  }

  /** One step: a periodic timer catches up with the elapsed periods by at most one reload. */
  lemma {:induction false} ReloadStep(t: Timing, es: seq<Event>, n: nat)
    requires n < |es| && Forward(es) && t.timeout > 0.0 && t.autoreload
    requires Fired(Restarted(t), es, n) <= PeriodsBy(t, es, n)
    ensures PeriodsBy(t, es, n) <= PeriodsBy(t, es, n + 1)
    ensures FiresAt(Restarted(t), es, n) <==>
            es[n].Elapse? && Fired(Restarted(t), es, n) + 1 <= PeriodsBy(t, es, n + 1)
  {
    var r := Restarted(t);
    var k := Fired(r, es, n);
    ElapsedForward(es, n + 1);
    ElapsedForward(es, n);
    NoDriftBy(t, es, n);
    KeepsSettings(r, es, n);
    Fits(k + 1, Elapsed(es, n + 1), t.timeout);
    Fits(PeriodsBy(t, es, n), Elapsed(es, n), t.timeout);
    Fits(PeriodsBy(t, es, n), Elapsed(es, n + 1), t.timeout);
  }

  /** A periodic timer never reloads more often than periods have passed. */
  lemma {:induction false} NeverEarly(t: Timing, es: seq<Event>, n: nat)
    requires n <= |es| && Forward(es) && t.timeout > 0.0 && t.autoreload
    ensures Fired(Restarted(t), es, n) <= PeriodsBy(t, es, n)
  {
    if n > 0 {
      NeverEarly(t, es, n - 1);
      ReloadStep(t, es, n - 1);
    }
  }

  /** The most reloads that the state after `j` events and the steps since then allow. */
  ghost function Allowance(t: Timing, es: seq<Event>, j: nat, n: nat): int
    requires j <= n <= |es| && Forward(es) && t.timeout > 0.0
  {
    PeriodsBy(t, es, j) + Steps(es, n) - Steps(es, j)
  }

  /**
   * How many reloads there are, for every run: the least of all allowances.  No reload is lost for
   * good; a timer that missed several periods in one long step makes them up, one per later step.
   */
  lemma {:induction false} ReloadsAreMadeUp(t: Timing, es: seq<Event>, n: nat) returns (at: nat)
    requires n <= |es| && Forward(es) && t.timeout > 0.0 && t.autoreload
    ensures at <= n && Fired(Restarted(t), es, n) == Allowance(t, es, at, n)
    ensures forall j: nat :: j <= n ==> Fired(Restarted(t), es, n) <= Allowance(t, es, j, n)
  {
    at := 0;
    NeverEarly(t, es, n);
    if n == 0 {
      NoPeriodsAtFirst(t, es);
    } else {
      var p := n - 1;
      at := ReloadsAreMadeUp(t, es, p);
      NeverEarly(t, es, p);
      ReloadStep(t, es, p);
      forall j: nat | j <= n ensures Fired(Restarted(t), es, n) <= Allowance(t, es, j, n) {
        if j <= p {
          assert Fired(Restarted(t), es, p) <= Allowance(t, es, j, p);
        }
      }
      if es[p].Elapse? && !FiresAt(Restarted(t), es, p) {
        at := n;
      }
    }
  }

  /** The reloads count the elapsed periods at every moment of the run. */
  ghost predicate CountsPeriods(t: Timing, es: seq<Event>)
    requires Forward(es) && t.timeout > 0.0
  {
    forall n: nat :: n <= |es| ==> Fired(Restarted(t), es, n) == PeriodsBy(t, es, n)
  }

  /** No event lets two or more periods end at once. */
  ghost predicate OnePeriodAtATime(t: Timing, es: seq<Event>)
    requires Forward(es) && t.timeout > 0.0
  {
    forall n: nat :: n < |es| ==> PeriodsBy(t, es, n + 1) <= PeriodsBy(t, es, n) + 1
  }

  lemma {:induction false} CountsUpTo(t: Timing, es: seq<Event>, n: nat)
    requires n <= |es| && Forward(es) && t.timeout > 0.0 && t.autoreload && OnePeriodAtATime(t, es)
    ensures Fired(Restarted(t), es, n) == PeriodsBy(t, es, n)
  {
    if n == 0 {
      NoPeriodsAtFirst(t, es);
    } else {
      var p := n - 1;
      CountsUpTo(t, es, p);
      ReloadStep(t, es, p);
    }
  }

  /** The reloads count the elapsed periods all along exactly when no step ends two periods. */
  lemma {:induction false} CountsPeriodsExactly(t: Timing, es: seq<Event>)
    requires Forward(es) && t.timeout > 0.0 && t.autoreload
    ensures CountsPeriods(t, es) <==> OnePeriodAtATime(t, es)
  {
    if OnePeriodAtATime(t, es) {
      forall n: nat | n <= |es| ensures Fired(Restarted(t), es, n) == PeriodsBy(t, es, n) {
        CountsUpTo(t, es, n);
      }
    }
    if CountsPeriods(t, es) {
      forall n: nat | n < |es| ensures PeriodsBy(t, es, n + 1) <= PeriodsBy(t, es, n) + 1 {
        assert Fired(Restarted(t), es, n + 1) <= Fired(Restarted(t), es, n) + 1;
      }
    }
  }

  /** In particular, steps no longer than the period are counted exactly. */
  lemma {:induction false} ShortStepsCount(t: Timing, es: seq<Event>)
    requires Forward(es) && t.timeout > 0.0 && t.autoreload
    requires forall k: nat :: k < |es| && es[k].Elapse? ==> es[k].d <= t.timeout
    ensures CountsPeriods(t, es)
  {
    forall n: nat | n < |es| ensures PeriodsBy(t, es, n + 1) <= PeriodsBy(t, es, n) + 1 {
      ElapsedForward(es, n + 1);
      ElapsedForward(es, n);
      var q := PeriodsBy(t, es, n);
      Fits(q + 1, Elapsed(es, n), t.timeout);
      Fits(q + 2, Elapsed(es, n + 1), t.timeout);
      assert Multiple(q + 2, t.timeout) == Multiple(q + 1, t.timeout) + t.timeout;
    }
    CountsPeriodsExactly(t, es);
  }

  // ---- One-shot timers fire once, and expiries are collected once ----

  /** Has the timeout been reached by some step among the first `n` events? */
  ghost predicate Reached(t: Timing, es: seq<Event>, n: nat)
    requires n <= |es|
  {
    exists m: nat :: m < n && es[m].Elapse? && Elapsed(es, m + 1) >= t.timeout
  }

  lemma {:induction false} CountsDown(t: Timing, es: seq<Event>, n: nat)
    requires n <= |es| && !t.autoreload
    ensures After(Restarted(t), es, n).expired == Reached(t, es, n)
    ensures !Reached(t, es, n) ==> After(Restarted(t), es, n).time == t.timeout - Elapsed(es, n)
  {
    if n > 0 {
      CountsDown(t, es, n - 1);
      KeepsSettings(Restarted(t), es, n - 1);
      if Reached(t, es, n - 1) {
        var m: nat :| m < n - 1 && es[m].Elapse? && Elapsed(es, m + 1) >= t.timeout;
        assert Reached(t, es, n);
      } else if es[n - 1].Elapse? && Elapsed(es, n) >= t.timeout {
        assert Elapsed(es, (n - 1) + 1) >= t.timeout;
        assert Reached(t, es, n);
      } else {
        assert !Reached(t, es, n);
      }
    }
  }

  /** A one-shot timer fires at the first step that reaches the timeout, and at no other. */
  lemma {:induction false} OneShotFiresOnce(t: Timing, es: seq<Event>, n: nat)
    requires n < |es| && !t.autoreload
    ensures FiresAt(Restarted(t), es, n) <==>
            es[n].Elapse? && Elapsed(es, n + 1) >= t.timeout &&
            forall m: nat :: m < n && es[m].Elapse? ==> Elapsed(es, m + 1) < t.timeout
  {
    CountsDown(t, es, n);
    if !Reached(t, es, n) {
      assert forall m: nat :: m < n && es[m].Elapse? ==> Elapsed(es, m + 1) < t.timeout;
    }
  }

  /** The timer ran out among the first `n` events and was not collected since. */
  ghost predicate Pending(t: Timing, es: seq<Event>, n: nat)
    requires n <= |es|
  {
    exists m: nat :: m < n && FiresAt(t, es, m) && forall k: nat :: m < k < n ==> es[k].Elapse?
  }

  lemma {:induction false} PendingStep(t: Timing, es: seq<Event>, n: nat)
    requires n < |es|
    ensures Pending(t, es, n + 1) <==> es[n].Elapse? && (FiresAt(t, es, n) || Pending(t, es, n))
  {
    if Pending(t, es, n + 1) {
      var m: nat :| m < n + 1 && FiresAt(t, es, m) && forall k: nat :: m < k < n + 1 ==> es[k].Elapse?;
      if m < n {
        assert es[n].Elapse?;
        assert Pending(t, es, n);
      }
    }
    if FiresAt(t, es, n) {
      assert Pending(t, es, n + 1);
    } else if es[n].Elapse? && Pending(t, es, n) {
      var m: nat :| m < n && FiresAt(t, es, m) && forall k: nat :: m < k < n ==> es[k].Elapse?;
      assert Pending(t, es, n + 1);
    }
  }

  /** What a collection reports: exactly the timers that ran out since the one before. */
  lemma {:induction false} ReportsWhatFired(t: Timing, es: seq<Event>, n: nat)
    requires n <= |es|
    ensures After(Restarted(t), es, n).justExpired <==> Pending(Restarted(t), es, n)
  {
    if n > 0 {
      ReportsWhatFired(t, es, n - 1);
      PendingStep(Restarted(t), es, n - 1);
    }
  }

  /** A one-shot timer is reported by at most one collection after its reset. */
  lemma {:induction false} OneShotReportedOnce(t: Timing, es: seq<Event>, first: nat, second: nat)
    requires first < second < |es| && es[first].Poll? && es[second].Poll? && !t.autoreload
    requires After(Restarted(t), es, first).justExpired
    ensures !After(Restarted(t), es, second).justExpired
  {
    var r := Restarted(t);
    ReportsWhatFired(t, es, first);
    ReportsWhatFired(t, es, second);
    var m: nat :| m < first && FiresAt(r, es, m) && forall k: nat :: m < k < first ==> es[k].Elapse?;
    if Pending(r, es, second) {
      var p: nat :| p < second && FiresAt(r, es, p) && forall k: nat :: p < k < second ==> es[k].Elapse?;
      OneShotFiresOnce(t, es, m);
      OneShotFiresOnce(t, es, p);
      assert false;
    }
  }

  // ---- How long to sleep ----

  /** What every run of the methods below keeps: a timer that is over is not counting down. */
  predicate Settled(t: Timing) {
    t.expired ==> t.time <= 0.0
  }

  /** The shortest remaining time of a running timer, or none. */
  ghost predicate IsUntilNext(ts: seq<Timing>, r: Option<real>) {
    match r
    case None => forall k: nat :: k < |ts| ==> ts[k].time <= 0.0
    case Some(m) =>
      && (exists k: nat :: k < |ts| && ts[k].time > 0.0 && ts[k].time == m)
      && (forall k: nat :: k < |ts| && ts[k].time > 0.0 ==> m <= ts[k].time)
  }

  ghost predicate SomeFires(ts: seq<Timing>, d: real) {
    exists k: nat :: k < |ts| && Fires(ts[k], d)
  }

  /** `r` tells exactly which steps make some timer run out. */
  ghost predicate Foretells(ts: seq<Timing>, r: Option<real>) {
    forall d: real :: d >= 0.0 ==> (SomeFires(ts, d) <==> r.Some? && r.value <= d)
  }

  /** No timer is behind: none that still counts is already at or below zero. */
  predicate NoneBehind(ts: seq<Timing>) {
    forall k: nat :: k < |ts| && ts[k].time <= 0.0 ==> ts[k].expired
  }

  lemma {:induction false} Foretell(ts: seq<Timing>, r: Option<real>, d: real)
    requires IsUntilNext(ts, r) && NoneBehind(ts) && d >= 0.0
    requires forall k: nat :: k < |ts| ==> Settled(ts[k])
    ensures SomeFires(ts, d) <==> r.Some? && r.value <= d
  {
    if SomeFires(ts, d) {
      var k: nat :| k < |ts| && Fires(ts[k], d);
      assert ts[k].time > 0.0;
    }
    if r.Some? && r.value <= d {
      var k: nat :| k < |ts| && ts[k].time > 0.0 && ts[k].time == r.value;
      assert Fires(ts[k], d);
    }
  }

  /**
   * Sleeping until the next running timer is right exactly when no timer is behind: a timer that is
   * behind fires at the next step, however short, and is not looked at.
   */
  lemma {:induction false} UntilNextExactly(ts: seq<Timing>, r: Option<real>)
    requires IsUntilNext(ts, r)
    requires forall k: nat :: k < |ts| ==> Settled(ts[k])
    ensures Foretells(ts, r) <==> NoneBehind(ts)
  {
    if NoneBehind(ts) {
      forall d: real | d >= 0.0 ensures SomeFires(ts, d) <==> r.Some? && r.value <= d {
        Foretell(ts, r, d);
      }
    } else {
      var k: nat :| k < |ts| && ts[k].time <= 0.0 && !ts[k].expired;
      assert Fires(ts[k], 0.0);
      assert SomeFires(ts, 0.0);
    }
  }

  /** A timer is settled all along, from its reset on. */
  lemma {:induction false} StaysSettled(t: Timing, es: seq<Event>, n: nat)
    requires n <= |es| && Forward(es) && Settled(t)
    ensures Settled(After(t, es, n))
  {
    if n > 0 {
      StaysSettled(t, es, n - 1);
    }
  }

  function AllAfter(ts: seq<Timing>, es: seq<Event>, n: nat): seq<Timing>
    requires n <= |es|
  {
    seq(|ts|, k requires 0 <= k < |ts| => After(ts[k], es, n))
  }

  /** As the constructor leaves it, or a reset. */
  predicate AtStart(t: Timing) {
    t == Restarted(t) || (t.expired && t.time == 0.0)
  }

  /** At every moment after timers were created or reset, sleeping is right exactly when none is behind. */
  lemma {:induction false} EveryRunForetells(ts: seq<Timing>, es: seq<Event>, n: nat, r: Option<real>)
    requires n <= |es| && Forward(es) && forall k: nat :: k < |ts| ==> AtStart(ts[k])
    requires IsUntilNext(AllAfter(ts, es, n), r)
    ensures Foretells(AllAfter(ts, es, n), r) <==> NoneBehind(AllAfter(ts, es, n))
  {
    forall k: nat | k < |ts| ensures Settled(AllAfter(ts, es, n)[k]) {
      StaysSettled(ts[k], es, n);
    }
    UntilNextExactly(AllAfter(ts, es, n), r);
  }

  // ---- The order in which expiries are reported ----

  /** Insert index `x` behind the indices of at least its priority. */
  function InsertByPrio(prios: seq<int>, idx: seq<nat>, x: nat): seq<nat>
    requires x < |prios| && forall k :: 0 <= k < |idx| ==> idx[k] < |prios|
  {
    if idx == [] then [x]
    else if prios[idx[0]] >= prios[x] then [idx[0]] + InsertByPrio(prios, idx[1..], x)
    else [x] + idx
  }

  /** The pending ones among the first `n` indices, by falling priority; equal ones keep their order. */
  function ByPrio(prios: seq<int>, pending: seq<bool>, n: nat): (idx: seq<nat>)
    requires n <= |prios| == |pending|
    ensures forall k :: 0 <= k < |idx| ==> idx[k] < n
  {
    if n == 0 then []
    else
      var idx := ByPrio(prios, pending, n - 1);
      if pending[n - 1] then
        InsertKeeps(prios, idx, n - 1);
        InsertByPrio(prios, idx, n - 1)
      else idx
  }

  /** Higher priority first, then earlier index. */
  predicate Precedes(prios: seq<int>, a: nat, b: nat)
    requires a < |prios| && b < |prios|
  {
    prios[a] > prios[b] || (prios[a] == prios[b] && a < b)
  }

  ghost predicate Ordered(prios: seq<int>, idx: seq<nat>)
    requires forall k :: 0 <= k < |idx| ==> idx[k] < |prios|
  {
    forall j, k :: 0 <= j < k < |idx| ==> Precedes(prios, idx[j], idx[k])
  }

  lemma {:induction false} InsertKeeps(prios: seq<int>, idx: seq<nat>, x: nat)
    requires x < |prios| && forall k :: 0 <= k < |idx| ==> idx[k] < |prios|
    ensures forall y: nat :: y in InsertByPrio(prios, idx, x) <==> y == x || y in idx
    ensures forall k :: 0 <= k < |InsertByPrio(prios, idx, x)| ==>
              InsertByPrio(prios, idx, x)[k] == x || InsertByPrio(prios, idx, x)[k] in idx
  {
    if idx != [] && prios[idx[0]] >= prios[x] {
      InsertKeeps(prios, idx[1..], x);
      assert idx == [idx[0]] + idx[1..];
    }
  }

  lemma {:induction false} InsertOrdered(prios: seq<int>, idx: seq<nat>, x: nat)
    requires x < |prios| && forall k :: 0 <= k < |idx| ==> idx[k] < x
    requires Ordered(prios, idx)
    ensures forall k :: 0 <= k < |InsertByPrio(prios, idx, x)| ==> InsertByPrio(prios, idx, x)[k] < |prios|
    ensures Ordered(prios, InsertByPrio(prios, idx, x))
  {
    if idx != [] {
      if prios[idx[0]] >= prios[x] {
        var rest := idx[1..];
        InsertOrdered(prios, rest, x);
        InsertKeeps(prios, rest, x);
        var r := InsertByPrio(prios, rest, x);
        forall k | 0 <= k < |r| ensures Precedes(prios, idx[0], r[k]) {
          assert r[k] in r;
          if r[k] != x {
            var m :| 0 <= m < |rest| && rest[m] == r[k];
            assert Precedes(prios, idx[0], idx[m + 1]);
          }
        }
      } else {
        forall k | 0 <= k < |idx| ensures Precedes(prios, x, idx[k]) {
          assert k > 0 ==> Precedes(prios, idx[0], idx[k]);
        }
      }
    }
  }

  lemma {:induction false} ReportStep(prios: seq<int>, idx: seq<nat>, x: nat, r: seq<nat>)
    requires x < |prios| && (forall k :: 0 <= k < |idx| ==> idx[k] < x) && Ordered(prios, idx)
    requires r == InsertByPrio(prios, idx, x)
    ensures forall k :: 0 <= k < |r| ==> r[k] < |prios|
    ensures Ordered(prios, r)
    ensures forall k: nat :: k in r <==> k == x || k in idx
  {
    InsertKeeps(prios, idx, x);
    InsertOrdered(prios, idx, x);
  }

  /**
   * The report holds exactly the pending timers, in order of priority and then position.  The order
   * is strict, so no position appears twice.
   */
  lemma {:induction false} ReportOrder(prios: seq<int>, pending: seq<bool>, n: nat)
    requires n <= |prios| == |pending|
    ensures forall k: nat :: k in ByPrio(prios, pending, n) <==> k < n && pending[k]
    ensures Ordered(prios, ByPrio(prios, pending, n))
  {
    if n > 0 {
      ReportOrder(prios, pending, n - 1);
      if pending[n - 1] {
        ReportStep(prios, ByPrio(prios, pending, n - 1), n - 1, ByPrio(prios, pending, n));
      }
    }
  }

  // ---- The timers in place ----

  class Timer {
    var timeout: real
    var time: real
    var justExpired: bool
    var expired: bool
    const prio: int
    const autoreload: bool

    /** The fields together, as a value. */
    ghost function State(): Timing
      reads this
    {
      Timing(timeout, time, justExpired, expired, prio, autoreload)
    }

    constructor (time: real, prio: int, autoreload: bool)
      ensures State() == Timing(time, 0.0, true, true, prio, autoreload)
      ensures Settled(State())
    {
      this.timeout := time;
      this.time := 0.0;
      this.justExpired := true;
      this.expired := true;
      this.prio := prio;
      this.autoreload := autoreload;
    }

    method Set(val: real)
      modifies this
      ensures State() == old(State()).(timeout := val)
    {
      timeout := val;
    }

    method Reset()
      modifies this
      ensures State() == Restarted(old(State()))
    {
      time := timeout;
      expired := false;
      justExpired := false;
    }

    method ResetJustExpired()
      modifies this
      ensures State() == old(State()).(justExpired := false)
    {
      justExpired := false;
    }

    method Decrement(d: real)
      modifies this
      ensures State() == Decremented(old(State()), d)
    {
      time := time - d;
      if time <= 0.0 {
        if !expired {
          justExpired := true;
          if autoreload {
            time := timeout + time;
          } else {
            expired := true;
            time := 0.0;
          }
        }
      }
    }
  }

  /** A timer decremented `times` times, as happens to one that was added `times` times. */
  function DecrementedBy(t: Timing, d: real, times: nat): Timing {
    if times == 0 then t else Decremented(DecrementedBy(t, d, times - 1), d)
  }

  /** How often `x` stands among the first `n`. */
  ghost function Occurrences<T>(s: seq<T>, x: T, n: nat): nat
    requires n <= |s|
  {
    if n == 0 then 0 else Occurrences(s, x, n - 1) + if s[n - 1] == x then 1 else 0
  }

  class TimerList {
    var timers: seq<Timer>

    constructor ()
      ensures timers == []
    {
      timers := [];
    }

    method AddTimer(timer: Timer)
      modifies this
      ensures timers == old(timers) + [timer]
    {
      timers := timers + [timer];
    }

    ghost function States(): seq<Timing>
      reads this, timers
    {
      seq(|timers|, k requires 0 <= k < |timers| reads this, timers => timers[k].State())
    }

    method Reset()
      modifies timers
      ensures forall t <- timers :: t.State() == Restarted(old(t.State()))
    {
      for i := 0 to |timers|
        invariant forall k :: 0 <= k < |timers| ==>
                    timers[k].State() == old(timers[k].State())
                    || timers[k].State() == Restarted(old(timers[k].State()))
        invariant forall k :: 0 <= k < i ==> timers[k].State() == Restarted(old(timers[k].State()))
      {
        timers[i].Reset();
      }
    }

    /** Let `d` pass for every timer, once for each time it was added. */
    method Decrement(d: real)
      modifies timers
      ensures forall t <- timers ::
                t.State() == DecrementedBy(old(t.State()), d, Occurrences(timers, t, |timers|))
    {
      for i := 0 to |timers|
        invariant forall t <- timers :: t.State() == DecrementedBy(old(t.State()), d, Occurrences(timers, t, i))
      {
        timers[i].Decrement(d);
      }
    }

    static method ClearMarks(lst: seq<Timer>)
      modifies lst
      ensures forall k :: 0 <= k < |lst| ==> lst[k].State() == old(lst[k].State()).(justExpired := false)
    {
      for i := 0 to |lst|
        invariant forall k :: 0 <= k < |lst| ==>
                    lst[k].State() == old(lst[k].State())
                    || lst[k].State() == old(lst[k].State()).(justExpired := false)
        invariant forall k :: 0 <= k < i ==> lst[k].State() == old(lst[k].State()).(justExpired := false)
      {
        lst[i].ResetJustExpired();
      }
    }

    /** Collect the timers that ran out, highest priority first, and clear their marks. */
    method Expired() returns (lst: seq<Timer>)
      modifies timers
      ensures var idx := ByPrio(old(Prios()), old(Marks()), |timers|);
              |lst| == |idx| && forall k :: 0 <= k < |lst| ==> lst[k] == timers[idx[k]]
      ensures forall t <- timers :: t.State() == old(t.State()).(justExpired := false)
    {
      var prios := seq(|timers|, k requires 0 <= k < |timers| reads this, timers => timers[k].prio);
      var marks := seq(|timers|, k requires 0 <= k < |timers| reads this, timers => timers[k].justExpired);
      assert prios == Prios() && marks == Marks();
      var idx := ByPrio(prios, marks, |timers|);
      lst := seq(|idx|, k requires 0 <= k < |idx| && idx[k] < |timers| reads this => timers[idx[k]]);
      ClearMarks(lst);
      ReportOrder(prios, marks, |timers|);
      forall k | 0 <= k < |timers|
        ensures timers[k].State() == old(timers[k].State()).(justExpired := false)
      {
        if marks[k] {
          assert k in idx;
          var j :| 0 <= j < |idx| && idx[j] == k;
          assert lst[j] == timers[k];
        }
      }
    }

    ghost function Prios(): seq<int>
      reads this
    {
      seq(|timers|, k requires 0 <= k < |timers| reads this => timers[k].prio)
    }

    ghost function Marks(): seq<bool>
      reads this, timers
    {
      seq(|timers|, k requires 0 <= k < |timers| reads this, timers => timers[k].justExpired)
    }

    method UntilNext() returns (r: Option<real>)
      ensures IsUntilNext(States(), r)
    {
      r := None;
      for i := 0 to |timers|
        invariant IsUntilNext(States()[..i], r)
      {
        ghost var before := States()[..i];
        assert States()[..i + 1] == before + [timers[i].State()];
        if timers[i].time > 0.0 && (r.None? || timers[i].time < r.value) {
          r := Some(timers[i].time);
          assert States()[..i + 1][i].time == timers[i].time;
        } else if r.Some? {
          ghost var k: nat :| k < |before| && before[k].time > 0.0 && before[k].time == r.value;
          assert States()[..i + 1][k].time == r.value;
        }
      }
      assert States()[..|timers|] == States();
    }
  }
}
