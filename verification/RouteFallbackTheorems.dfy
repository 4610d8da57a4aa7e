/** What route fallback guarantees over a whole run: no route twice, along the chain, where it stops and
    what the result and the state report. */
module RouteFallbackTheorems {
  import opened Text
  import opened Collections
  import opened Routes
  import opened RouteFallback

  /** Whatever the chain, the registry and the outcomes: the routes that follow are pairwise different,
      new, and no more than the chain has targets. */
  lemma {:induction false} NoRouteTwice(env: Environment, chain: seq<string>, route: string, visited: set<string>,
                                        k: nat)
    ensures var rs := After(env, chain, route, visited, k);
            && (forall i, j :: 0 <= i < j < |rs| ==> rs[i].name != rs[j].name)
            && (forall i :: 0 <= i < |rs| ==> rs[i].name !in visited && rs[i].name != Strip(route))
            && |rs| <= |Targets(env.registry, chain) - visited|
    decreases |Targets(env.registry, chain) - visited|
  {
    hide FallbackEnabled, Strip, FallsBack, ResolveExecutorName, Targets, Candidate;
    var current := Strip(route);
    var seen := visited + {current};
    var c := Candidate(env.registry, chain, current, seen);
    if c.Some? {
      CandidateProgress(env.registry, chain, current, visited);
      CandidateTarget(env.registry, chain, current, seen);
      NoRouteTwice(env, chain, c.value.name, seen + {c.value.name}, k + 1);
    }
  }

  /** The names of the chain stand for routes of the same name. */
  ghost predicate KeepsChain(reg: Registry, names: seq<string>) {
    forall x :: x in names && RouteByName(reg, x).Some? ==> RouteByName(reg, x).value.name == x
  }

  /** The run that ended on this route, as number `k`, moves on if the chain has a registered next route. */
  predicate MovesOn(env: Environment, r: Route, k: nat) {
    FallsBack(ResolveExecutorName(env, r.executorName), env.attempts(k)) && FallbackEnabled(r.name)
  }

  /** No route to take at this place of the chain. */
  predicate Ends(reg: Registry, names: seq<string>, i: nat) {
    i >= |names| || RouteByName(reg, names[i]).None?
  }

  /** The routes are the chain's from place `i` on: all but the last moved on, and the last one did not
      or found the chain at its end. */
  ghost predicate Segment(env: Environment, names: seq<string>, i: nat, rs: seq<Route>, k: nat) {
    && i + |rs| <= |names|
    && (forall j :: 0 <= j < |rs| ==>
         RouteByName(env.registry, names[i + j]) == Some(rs[j]) && rs[j].name == names[i + j])
    && (forall j :: 0 <= j < |rs| - 1 ==> MovesOn(env, rs[j], k + j))
    && (rs != [] ==> !MovesOn(env, rs[|rs| - 1], k + |rs| - 1) || Ends(env.registry, names, i + |rs|))
  }

  lemma CandidateInChain(reg: Registry, chain: seq<string>, current: string, seen: set<string>)
    requires var names := NonBlanks(chain); var i := IndexOf(names, current);
             Distinct(names) && KeepsChain(reg, names) && (i + 1 < |names| ==> names[i + 1] !in seen)
    ensures var names := NonBlanks(chain); var i := IndexOf(names, current);
            Candidate(reg, chain, current, seen) == if Ends(reg, names, i + 1) then None
                else RouteByName(reg, names[i + 1])
  {
    hide RouteByName, NonBlanks, IndexOf;
  }

  lemma IndexAt(names: seq<string>, i: nat)
    requires Distinct(names) && i < |names|
    ensures IndexOf(names, names[i]) == i
  {
    hide IndexOf;
  }

  lemma SegmentCons(env: Environment, names: seq<string>, i: nat, r: Route, rs: seq<Route>, k: nat)
    requires i < |names| && RouteByName(env.registry, names[i]) == Some(r) && r.name == names[i]
    requires Segment(env, names, i + 1, rs, k + 1)
    requires rs != [] ==> MovesOn(env, r, k)
    requires rs == [] ==> !MovesOn(env, r, k) || Ends(env.registry, names, i + 1)
    ensures Segment(env, names, i, [r] + rs, k)
  {
    hide RouteByName, MovesOn, Ends;
    var all := [r] + rs;
    forall j | 0 <= j < |all|
        ensures RouteByName(env.registry, names[i + j]) == Some(all[j]) && all[j].name == names[i + j] {
      assert j > 0 ==> all[j] == rs[j - 1] && names[i + j] == names[i + 1 + (j - 1)];
    }
    forall j | 0 <= j < |all| - 1 ensures MovesOn(env, all[j], k + j) {
      assert j > 0 ==> all[j] == rs[j - 1] && k + j == k + 1 + (j - 1);
    }
    if rs != [] {
      assert all[|all| - 1] == rs[|rs| - 1] && k + |all| - 1 == k + 1 + |rs| - 1 && i + |all| == i + 1 + |rs|;
    }
  }

  /** A chain without repetitions whose lookups keep names: the routes that follow are a contiguous
      segment of it, and the segment ends exactly where it has to. */
  lemma {:induction false} AlongChain(env: Environment, chain: seq<string>, route: string, visited: set<string>, k: nat)
    requires var names := NonBlanks(chain);
             && Distinct(names) && KeepsChain(env.registry, names)
             && forall j :: IndexOf(names, Strip(route)) < j < |names| ==> names[j] !in visited
    ensures var names := NonBlanks(chain);
            var i := IndexOf(names, Strip(route));
            var rs := After(env, chain, route, visited, k);
            && (rs == [] <==> !FallbackEnabled(route) || Ends(env.registry, names, i + 1))
            && (rs != [] ==> Segment(env, names, i + 1, rs, k))
    decreases |Targets(env.registry, chain) - visited|
  {
    hide FallbackEnabled, Strip, FallsBack, ResolveExecutorName, Targets, Candidate, RouteByName, NonBlanks, Segment;
    hide IndexOf, Trimmed;
    var names := NonBlanks(chain);
    var current := Strip(route);
    var seen := visited + {current};
    var i := IndexOf(names, current);
    CandidateInChain(env.registry, chain, current, seen);
    var c := Candidate(env.registry, chain, current, seen);
    if FallbackEnabled(route) && c.Some? {
      var r := c.value;
      assert r.name == names[i + 1] && r.name in names;
      assert Strip(r.name) == r.name;
      IndexAt(names, i + 1);
      CandidateProgress(env.registry, chain, current, visited);
      AlongChain(env, chain, r.name, seen + {r.name}, k + 1);
      var rest := if FallsBack(ResolveExecutorName(env, r.executorName), env.attempts(k)) then
          After(env, chain, r.name, seen + {r.name}, k + 1) else [];
      assert After(env, chain, route, visited, k) == [r] + rest;
      if rest == [] { SegmentOfNone(env, names, i + 2, k + 1); }
      SegmentCons(env, names, i + 1, r, rest, k);
    }
  }

  lemma SegmentOfNone(env: Environment, names: seq<string>, i: nat, k: nat)
    requires i <= |names|
    ensures Segment(env, names, i, [], k)
  {
  }

  /** There is only one such segment from a place of the chain: it is as long as the runs move on. */
  lemma SegmentUnique(env: Environment, names: seq<string>, i: nat, a: seq<Route>, b: seq<Route>, k: nat)
    requires a != [] && b != [] && Segment(env, names, i, a, k) && Segment(env, names, i, b, k)
    ensures a == b
  {
    if |a| <= |b| { SegmentPrefix(env, names, i, a, b, k); } else { SegmentPrefix(env, names, i, b, a, k); }
  }

  lemma SegmentPrefix(env: Environment, names: seq<string>, i: nat, a: seq<Route>, b: seq<Route>, k: nat)
    requires a != [] && |a| <= |b| && Segment(env, names, i, a, k) && Segment(env, names, i, b, k)
    ensures a == b
  {
    hide RouteByName, MovesOn, Ends;
    var n := |a|;
    forall j | 0 <= j < n ensures a[j] == b[j] {
      assert RouteByName(env.registry, names[i + j]) == Some(a[j])
          && RouteByName(env.registry, names[i + j]) == Some(b[j]);
    }
    GoesOn(env, names, i, b, n, k);
  }

  lemma GoesOn(env: Environment, names: seq<string>, i: nat, b: seq<Route>, n: nat, k: nat)
    requires Segment(env, names, i, b, k) && n > 0
    ensures n < |b| ==> MovesOn(env, b[n - 1], k + n - 1) && !Ends(env.registry, names, i + n)
  {
    hide RouteByName, MovesOn;
    assert n < |b| ==> RouteByName(env.registry, names[i + n]) == Some(b[n]);
  }

  /** What a whole run reports: a result is degraded exactly when another route was run, and then it names
      the first route and the last one, which is the one the state ends on. The chain is not changed. */
  lemma RunReport(env: Environment, s: RouteState, k: nat)
    requires ProperNames(env.registry)
    ensures var rs := Plan(env, s, {}, k);
            var o := RunOutcome(env, s, {}, "", k);
            var t := Through(s, rs);
            && t.chain == s.chain
            && (rs == [] ==> t == s)
            && (rs != [] ==> t.isFallback && t.routeName == rs[|rs| - 1].name && t.routeName != Strip(s.routeName))
            && (o.Finished? ==>
                 && (o.result.degraded <==> rs != [])
                 && (rs != [] ==> o.result.originalRoute == Strip(s.routeName) && o.result.fallbackRoute == t.routeName)
                 && (o.result.completed <==> env.attempts(k + |rs|).Completed?)
                 && (o.result.noted ==> !o.result.completed))
  {
    hide FallbackEnabled, Strip, ResolveExecutorName, Targets, RouteByName, NoteResult, LastResult, After, ProperNames;
    var rs := Plan(env, s, {}, k);
    ThroughLast(s, rs);
    NoRouteTwice(env, s.chain, s.routeName, {}, k + 1);
    LastReport(env, s.executorName, k);
    if rs != [] { LastReport(env, rs[|rs| - 1].executorName, k + |rs|); }
    assert Blank("") by { BlankNone(); }
  }

  lemma BlankNone()
    ensures Blank("")
  {
  }

  lemma LastReport(env: Environment, executorName: string, k: nat)
    ensures var o := LastResult(env, executorName, k);
            o.Finished? ==> && !o.result.degraded && (o.result.completed <==> env.attempts(k).Completed?)
                            && (o.result.noted ==> !o.result.completed)
  {
    hide ResolveExecutorName, Lower, Strip;
  }

  /** A chain resolved from a registry that keeps names meets all that the segment theorem asks for. */
  lemma ResolvedChain(reg: Registry, primary: string, chain: seq<string>)
    requires NamesKept(reg) && RouteByName(reg, primary).Some?
    requires ChainFrom(reg, RouteByName(reg, primary).value.name, chain)
    ensures NonBlanks(chain) == chain && KeepsChain(reg, chain) && IndexOf(chain, chain[0]) == 0 && Trimmed(chain[0])
    ensures forall x :: x in chain ==> RouteByName(reg, x).Some?
  {
    hide NormalizeRouteName, Trimmed;
    LookupKeepsName(reg, primary);
    forall i | 0 <= i < |chain|
        ensures Trimmed(chain[i]) && chain[i] != "" && RouteByName(reg, chain[i]).Some?
            && RouteByName(reg, chain[i]).value.name == chain[i] {
      if i > 0 {
        assert NextName(reg, chain[i - 1]) == chain[i];
        assert chain[i] in chain;
        LookupKeepsName(reg, RouteByName(reg, chain[i - 1]).value.fallbackName);
      }
    }
    assert forall x :: x in chain ==> exists i :: 0 <= i < |chain| && chain[i] == x;
  }

  /** A state on a registered route with the chain resolved from it: the routes run are exactly a prefix of
      that chain, which ends at the first run that does not move on, or with the chain. */
  lemma RunAlongResolvedChain(env: Environment, primary: string, s: RouteState, k: nat)
    requires NamesKept(env.registry) && RouteByName(env.registry, primary).Some?
    requires s.routeName == RouteByName(env.registry, primary).value.name
        && s.executorName == RouteByName(env.registry, primary).value.executorName
    requires ChainFrom(env.registry, s.routeName, s.chain)
    ensures Segment(env, s.chain, 0, [RouteByName(env.registry, primary).value] + Plan(env, s, {}, k), k)
    ensures forall i :: 0 <= i < |s.chain| ==> !Ends(env.registry, s.chain, i)
  {
    hide Strip, FallsBack, ResolveExecutorName, RouteByName, FallbackEnabled, Segment, After, NonBlanks, ChainFrom;
    hide NamesKept, KeepsChain;
    ResolvedChain(env.registry, primary, s.chain);
    LookupKeepsName(env.registry, primary);
    FirstOf(env.registry, s.routeName, s.chain);
    var r := RouteByName(env.registry, primary).value;
    AlongChain(env, s.chain, s.routeName, {}, k + 1);
    var rs := Plan(env, s, {}, k);
    if rs == [] { SegmentOfNone(env, s.chain, 1, k + 1); }
    SegmentCons(env, s.chain, 0, r, rs, k);
  }

  lemma FirstOf(reg: Registry, first: string, chain: seq<string>)
    requires ChainFrom(reg, first, chain)
    ensures chain != [] && chain[0] == first && Distinct(chain)
  {
  }
}
