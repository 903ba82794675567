/** The IPv4 routing table in place: `Route.route` with its memo, and `ifadd`, `ifdel`, `ifchange`. */
module RouteTables {
  import opened Bytes
  import Bits
  import opened Routes
  import opened RouteMemo

  class RouteTable {
    const env: Env
    var routes: seq<Row>
    var cache: map<Key, Answer>

    ghost function Value(): State
      reads this
    {
      State(routes, cache)
    }

    constructor (env: Env, routes: seq<Row>)
      ensures Value() == State(routes, map[]) && this.env == env
    {
      this.env := env;
      this.routes := routes;
      this.cache := map[];
    }

    method InvalidateCache()
      modifies this`cache
      ensures cache == map[]
    {
      cache := map[];
    }

    /** Look a destination up; `internal` marks the lookup of a gateway. */
    method Lookup(dst: Option<string>, dev: Option<string>, internal: bool) returns (out: Outcome)
      modifies this`cache
      ensures !internal ==> Reply(out, cache) == LookupReply(env, routes, old(cache), Norm(dst), dev)
      ensures internal ==> Reply(out, cache) == GatewayReply(env, routes, old(cache), Norm(dst), dev)
      decreases if internal then 0 else 1
    {
      var name := Norm(dst);
      if Key(name, dev) in cache {
        return Found(cache[Key(name, dev)]);
      }
      var n := env.target(name);
      if n.None? {
        return Failed;
      }
      var paths: seq<Path> := [];
      for k := 0 to |routes|
        invariant Paths(env, routes, k, n.value, dev) == Ok(paths)
        invariant cache == old(cache)
      {
        var r := routes[k];
        if r.addr == "" || (dev.Some? && r.iface != dev.value) {
          continue;
        }
        var a := env.number(r.addr);
        if a.None? {
          PathsFail(env, routes, k + 1, |routes|, n.value, dev);
          return Failed;
        }
        ghost var before := paths;
        ghost var own := if a == n && Bits.BitsNum(a.value) != 0 then [LocalPath(env, routes, k)] else [];
        ghost var net := if And(n.value, r.mask) == And(r.net, r.mask) then [NetPath(routes, k)] else [];
        if a == n && Bits.BitsNum(a.value) != 0 {
          paths := paths + [LocalPath(env, routes, k)];
        }
        if And(n.value, r.mask) == And(r.net, r.mask) {
          paths := paths + [NetPath(routes, k)];
        }
        Twice(before, own, net);
        assert paths == before + own + net;
      }
      if paths == [] {
        return NoRoute(Answer(if dev.None? || dev.value == "" then env.loopback else dev.value, ZERO, ZERO));
      }
      var ret := Sorted(paths)[0].ans;
      if ret.src == ZERO && !internal {
        var via := Lookup(Some(ret.gw), None, true);
        if via.Failed? {
          return Failed;
        }
        ret := ret.(src := via.ans.src);
      }
      cache := cache[Key(name, dev) := ret];
      return Found(ret);
    }

    method IfAdd(iff: string, text: string) returns (ok: bool)
      modifies this
      ensures Value() == Apply(env, old(Value()), Op.IfAdd(iff, text)) && ok == ReadNet(env, text).Some?
    {
      InvalidateCache();
      var a := ReadNet(env, text);
      if a.None? {
        return false;
      }
      routes := routes + [Row(And(a.value.number, a.value.mask), a.value.mask, ZERO, iff, a.value.addr, 1)];
      return true;
    }

    method IfDel(iff: string)
      modifies this
      ensures Value() == Apply(env, old(Value()), Op.IfDel(iff))
    {
      InvalidateCache();
      var kept: seq<Row> := [];
      for k := 0 to |routes|
        invariant routes == old(routes) && cache == map[]
        invariant kept + Removed(routes[k..], iff) == Removed(routes, iff)
      {
        assert routes[k..][1..] == routes[k + 1..];
        if routes[k].iface == iff {
          continue;
        }
        assert kept + ([routes[k]] + Removed(routes[k + 1..], iff))
            == kept + [routes[k]] + Removed(routes[k + 1..], iff);
        kept := kept + [routes[k]];
      }
      routes := kept;
    }

    method IfChange(iff: string, text: string) returns (ok: bool)
      modifies this
      ensures Value() == Apply(env, old(Value()), Op.IfChange(iff, text)) && ok == ReadNet(env, text).Some?
    {
      InvalidateCache();
      var a := ReadNet(env, text);
      if a.None? {
        return false;
      }
      for k := 0 to |routes|
        invariant cache == map[] && |routes| == |old(routes)|
        invariant forall j :: 0 <= j < k ==> routes[j] == ChangedRow(old(routes)[j], iff, a.value)
        invariant forall j :: k <= j < |routes| ==> routes[j] == old(routes)[j]
      {
        var r := routes[k];
        if iff != r.iface {
          continue;
        }
        if r.gw == ZERO {
          var net := And(a.value.number, a.value.mask);
          routes := routes[k := Row(net, a.value.mask, r.gw, r.iface, a.value.addr, r.metric)];
        } else {
          routes := routes[k := Row(r.net, r.mask, r.gw, r.iface, a.value.addr, r.metric)];
        }
      }
      return true;
    }
  }

  lemma Twice<T>(s: seq<T>, a: seq<T>, b: seq<T>)
    ensures s + a + b == s + (a + b)
    ensures s + [] == s
  {}

  lemma {:induction false} PathsFail(env: Env, rows: seq<Row>, k: nat, m: nat, n: Word, dev: Option<string>)
    requires k <= m <= |rows| && Paths(env, rows, k, n, dev).Err?
    ensures Paths(env, rows, m, n, dev).Err?
    decreases m - k
  {
    if k < m {
      PathsFail(env, rows, k + 1, m, n, dev);
    }
  }
}
