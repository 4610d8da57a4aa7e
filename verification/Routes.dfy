/** The route registry: looking a route up by name and following fallback names to a chain. */
module Routes {
  import opened Text
  import opened Collections

  /** What a route says about how and where it runs. `dialect` is the dialect its two hints resolve to. */
  datatype Profile = Profile(
    backend: string, executorFamily: string, executionSite: string, remoteCapable: bool, transport: string,
    systemRole: string, memoryAuthority: string, modelHint: string, dialect: string, capabilities: string)

  /** One registered route. */
  datatype Route = Route(name: string, executorName: string, fallbackName: string, profile: Profile)

  /** Routes under their names, and names that stand for other names. */
  datatype Registry = Registry(routes: map<string, Route>, aliases: map<string, string>)

  const DETACHED := "-detached"

  predicate EndsDetached(s: string) {
    |s| >= |DETACHED| && s[|s| - |DETACHED|..] == DETACHED
  }

  function BaseName(s: string): string
    requires EndsDetached(s)
  {
    s[..|s| - |DETACHED|]
  }

  function Aliased(reg: Registry, name: string): string {
    if name in reg.aliases then reg.aliases[name] else name
  }

  function NormalizeRouteName(reg: Registry, raw: string): string {
    var name := Strip(raw);
    if EndsDetached(name) then Aliased(reg, BaseName(name)) + DETACHED else Aliased(reg, name)
  }

  function DetachedRoute(r: Route): Route {
    r.(name := r.name + DETACHED,
       profile := r.profile.(backend := r.profile.backend + "_detached", executionSite := "local",
                             remoteCapable := false, transport := "local_detached_process"))
  }

  function RouteByName(reg: Registry, raw: string): Option<Route> {
    var name := NormalizeRouteName(reg, raw);
    if name in reg.routes then Some(reg.routes[name])
    else if EndsDetached(name) && BaseName(name) in reg.routes then Some(DetachedRoute(reg.routes[BaseName(name)]))
    else None
  }

  function FallbackRouteFor(reg: Registry, name: string): Option<Route> {
    match RouteByName(reg, name)
    case None => None
    case Some(r) => if r.fallbackName == "" then None else RouteByName(reg, r.fallbackName)
  }

  /** The name the chain continues with, or the empty string. */
  function NextName(reg: Registry, name: string): string {
    match FallbackRouteFor(reg, name)
    case None => ""
    case Some(r) => r.name
  }

  /** The chain continues with the name of the route that the fallback name finds, if there is one. */
  lemma NextNameTells(reg: Registry, name: string)
    ensures var r, next := RouteByName(reg, name), NextName(reg, name);
            && (r == None ==> next == "")
            && (r.Some? && r.value.fallbackName == "" ==> next == "")
            && (r.Some? && r.value.fallbackName != "" ==>
                 var f := RouteByName(reg, r.value.fallbackName);
                 (f == None ==> next == "") && (f.Some? ==> next == f.value.name))
  {
    hide RouteByName;
  }

  /** Every name a lookup can return. */
  function Names(reg: Registry): set<string> {
    (set n | n in reg.routes :: reg.routes[n].name) + (set n | n in reg.routes :: reg.routes[n].name + DETACHED)
  }

  lemma NamesOfLookups(reg: Registry, raw: string)
    ensures RouteByName(reg, raw).Some? ==> RouteByName(reg, raw).value.name in Names(reg)
  {
    hide NormalizeRouteName;
  }

  /** Each name leads to the next one. */
  ghost predicate Linked(reg: Registry, chain: seq<string>) {
    forall i :: 0 <= i < |chain| - 1 ==> NextName(reg, chain[i]) == chain[i + 1]
  }

  /** The chain from `first`: it follows the fallback names until there is none or one comes back. */
  ghost predicate ChainFrom(reg: Registry, first: string, chain: seq<string>) {
    && chain != [] && chain[0] == first && "" !in chain && Distinct(chain) && Linked(reg, chain)
    && (NextName(reg, chain[|chain| - 1]) == "" || NextName(reg, chain[|chain| - 1]) in chain)
  }

  method ResolveFallbackChain(reg: Registry, primary: string) returns (chain: seq<string>)
    ensures match RouteByName(reg, primary)
            case None => chain == []
            case Some(r) => if r.name == "" then chain == [] else ChainFrom(reg, r.name, chain)
  {
    hide RouteByName;
    var route := RouteByName(reg, primary);
    chain := [];
    if route.None? {
      return;
    }
    var seen: set<string>, current := {}, route.value.name;
    NamesOfLookups(reg, primary);
    while current != "" && current !in seen
      invariant seen <= Names(reg) && (current != "" ==> current in Names(reg))
      invariant forall x :: x in seen <==> x in chain
      invariant "" !in chain && Distinct(chain) && Linked(reg, chain)
      invariant if chain == [] then current == route.value.name
                else chain[0] == route.value.name && current == NextName(reg, chain[|chain| - 1])
      decreases Names(reg) - seen
    {
      chain, seen := chain + [current], seen + {current};
      current := NextName(reg, current);
      NextNameKnown(reg, chain[|chain| - 1]);
    }
  }

  lemma NextNameKnown(reg: Registry, name: string)
    ensures NextName(reg, name) == "" || NextName(reg, name) in Names(reg)
  {
    hide RouteByName;
    var r := RouteByName(reg, name);
    if r.Some? { NamesOfLookups(reg, r.value.fallbackName); }
  }

  /** There is only one chain from a name. */
  lemma ChainUnique(reg: Registry, first: string, a: seq<string>, b: seq<string>)
    requires ChainFrom(reg, first, a) && ChainFrom(reg, first, b)
    ensures a == b
  {
    hide NextName;
    if |a| <= |b| {
      ChainPrefix(reg, a, b, |a|);
      PrefixContinues(reg, first, a, b);
    } else {
      ChainPrefix(reg, a, b, |b|);
      PrefixContinues(reg, first, b, a);
    }
  }

  /** After a proper prefix the chain still has a new name to go to. */
  lemma PrefixContinues(reg: Registry, first: string, a: seq<string>, b: seq<string>)
    requires ChainFrom(reg, first, b) && a != [] && |a| <= |b| && a == b[..|a|]
    ensures |a| < |b| ==> var next := NextName(reg, a[|a| - 1]); next != "" && next !in a
  {
    hide NextName;
    var n := |a|;
    assert n < |b| ==> b[n - 1] == a[n - 1] && b[n] in b && b[n] !in a;
  }

  lemma {:induction false} ChainPrefix(reg: Registry, a: seq<string>, b: seq<string>, n: nat)
    requires a != [] && b != [] && a[0] == b[0] && Linked(reg, a) && Linked(reg, b) && n <= |a| && n <= |b|
    ensures a[..n] == b[..n]
  {
    if n > 1 {
      ChainPrefix(reg, a, b, n - 1);
      assert a[n - 2] == a[..n - 1][n - 2] == b[..n - 1][n - 2] == b[n - 2];
      assert a[n - 1] == NextName(reg, a[n - 2]) == b[n - 1];
    }
  }

  /** Every route is registered under its own name, and no such name stands for another. */
  ghost predicate NamesKept(reg: Registry) {
    forall n :: n in reg.routes ==>
        reg.routes[n].name == n && Trimmed(n) && n != "" && n !in reg.aliases
            && (EndsDetached(n) ==> BaseName(n) !in reg.aliases)
  }

  lemma DetachedName(base: string)
    ensures var name := base + DETACHED; EndsDetached(name) && BaseName(name) == base
    ensures base != "" && Trimmed(base) ==> Trimmed(base + DETACHED)
  {
    var name := base + DETACHED;
    var n := |base|;
    assert name[n..] == DETACHED && name[..n] == base;
    assert |name| - |DETACHED| == n;
    hide IsSpace;
    if base != "" && Trimmed(base) {
      DetachedEnd();
      assert name[0] == base[0] && name[|name| - 1] == DETACHED[8];
    }
  }

  lemma DetachedEnd()
    ensures |DETACHED| == 9 && !IsSpace(DETACHED[8])
  {
  }

  /** A registered name, or one with the detached suffix, is its own normal form. */
  lemma NameNormal(reg: Registry, n: string)
    requires NamesKept(reg) && n in reg.routes
    ensures NormalizeRouteName(reg, n) == n && NormalizeRouteName(reg, n + DETACHED) == n + DETACHED
  {
    hide Trimmed, EndsDetached, BaseName, Strip;
    DetachedName(n);
    StripTrimmed(n);
    StripTrimmed(n + DETACHED);
    if EndsDetached(n) { BaseDetached(n); }
  }

  lemma BaseDetached(n: string)
    requires EndsDetached(n)
    ensures BaseName(n) + DETACHED == n
  {
  }

  /** With names kept, looking up the name of a route that a lookup returned gives that route again. */
  lemma LookupKeepsName(reg: Registry, raw: string)
    requires NamesKept(reg) && RouteByName(reg, raw).Some?
    ensures var r := RouteByName(reg, raw).value;
            Trimmed(r.name) && r.name != "" && RouteByName(reg, r.name) == Some(r)
  {
    hide Trimmed, EndsDetached, BaseName, NormalizeRouteName;
    var name := NormalizeRouteName(reg, raw);
    if name in reg.routes {
      NameNormal(reg, name);
    } else {
      var base := BaseName(name);
      NameNormal(reg, base);
      DetachedName(base);
      BaseDetached(name);
    }
  }

  /** What a name is looked up as when it has no detached suffix. */
  lemma LookupPlain(reg: Registry, name: string)
    requires Trimmed(name) && !(|name| >= 9 && name[|name| - 9..] == "-detached")
    ensures name !in reg.aliases && name in reg.routes ==> RouteByName(reg, name) == Some(reg.routes[name])
    ensures name in reg.aliases && reg.aliases[name] in reg.routes ==>
        RouteByName(reg, name) == Some(reg.routes[reg.aliases[name]])
    ensures name !in reg.aliases && name !in reg.routes ==> RouteByName(reg, name) == None
  {
    hide Strip, Trimmed;
    StripTrimmed(name);
  }

  /** A name with the detached suffix: the suffix stays while an alias of the rest is resolved; unless there is a
      route of the resulting name, the route of the rest is made a local, detached one and nothing else about it
      changes. */
  lemma LookupDetached(reg: Registry, base: string)
    requires base != "" && Trimmed(base)
    ensures var name := base + "-detached";
            var target := if base in reg.aliases then reg.aliases[base] else base;
            var r := RouteByName(reg, name);
            && (target + "-detached" in reg.routes ==> r == Some(reg.routes[target + "-detached"]))
            && (target + "-detached" !in reg.routes && target !in reg.routes ==> r == None)
            && (target + "-detached" !in reg.routes && target in reg.routes ==>
                 r.Some? && DetachedFrom(reg.routes[target], r.value))
  {
    hide Strip, Trimmed, EndsDetached, BaseName;
    var name := base + "-detached";
    var target := if base in reg.aliases then reg.aliases[base] else base;
    DetachedName(base);
    DetachedName(target);
    StripTrimmed(name);
  }

  ghost predicate DetachedFrom(r: Route, d: Route) {
    && d.name == r.name + "-detached" && d.executorName == r.executorName && d.fallbackName == r.fallbackName
    && d.profile.backend == r.profile.backend + "_detached" && d.profile.executionSite == "local"
    && !d.profile.remoteCapable && d.profile.transport == "local_detached_process"
    && d.profile.executorFamily == r.profile.executorFamily && d.profile.systemRole == r.profile.systemRole
    && d.profile.memoryAuthority == r.profile.memoryAuthority && d.profile.modelHint == r.profile.modelHint
    && d.profile.dialect == r.profile.dialect && d.profile.capabilities == r.profile.capabilities
  }
}
