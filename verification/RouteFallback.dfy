/** Running an executor with route fallback: when a route fails, the next route of the state's chain is
    put into the state and run, recursively, while a set of visited routes grows. */
module RouteFallback {
  import opened Text
  import opened Collections
  import opened Routes

  // ---------------------------------------------------------------- names

  const DEFAULT_EXECUTOR := "aider"

  function NormalizeExecutorName(raw: string): string {
    var name := Lower(Strip(raw));
    if name == "" then DEFAULT_EXECUTOR
    else if name == "claude_code" then "claude-code"
    else if name == "mock_remote" then "mock-remote"
    else if name == "note_only" then "note-only"
    else if name == "local-summary" || name == "local_summary" then "local"
    else name
  }

  /** The default executor gives way to the mode set in the environment. */
  function ResolveExecutorName(env: Environment, executorName: string): string {
    var configured := NormalizeExecutorName(executorName);
    if configured != DEFAULT_EXECUTOR then configured else NormalizeExecutorName(env.executorMode)
  }

  /** The names that stand for another executor. */
  const ALIASES: map<string, string> :=
    map["claude_code" := "claude-code", "mock_remote" := "mock-remote", "note_only" := "note-only",
        "local-summary" := "local", "local_summary" := "local"]

  /** A state's executor is the named one, whatever case it is written in; without a name, or with the default one,
      it is the one of the environment, and `aider` when that is not set either. */
  lemma ExecutorNames(env: Environment, executorName: string)
    ensures var name, mode := Lower(Strip(executorName)), Lower(Strip(env.executorMode));
            var chosen := if name in {"", "aider"} then mode else name;
            && (chosen == "" ==> ResolveExecutorName(env, executorName) == "aider")
            && (chosen in ALIASES ==> ResolveExecutorName(env, executorName) == ALIASES[chosen])
            && (chosen != "" && chosen !in ALIASES ==> ResolveExecutorName(env, executorName) == chosen)
  {
    hide Lower, Strip;
  }

  /** Whether a failure of this route may move on to another route. */
  predicate FallbackEnabled(routeName: string) {
    var name := Lower(Strip(routeName));
    "http-" <= name || name == "local-http" || name == "local-aider" || name == "local-claude-code"
  }

  // ---------------------------------------------------------------- results

  /** What running one route comes to. */
  datatype Attempt = Completed | Failed(kind: string) | RateLimited

  /** `noted` tells that a structured fallback note replaced the output. */
  datatype Result = Result(
    executor: string, completed: bool, failureKind: string, noted: bool,
    degraded: bool, originalRoute: string, fallbackRoute: string)

  datatype Outcome = Finished(result: Result) | UnknownExecutor(name: string)

  /** The settings read from the environment, the registry, and what the n-th run will come to. */
  datatype Environment = Environment(registry: Registry, executorMode: string, noteMode: string,
                                     attempts: nat -> Attempt)

  function NoteResult(env: Environment, r: Result): Result {
    var mode := Lower(Strip(env.noteMode));
    if mode == "" || mode == "off" || mode == "disabled" || mode == "none" then r else r.(noted := true)
  }

  function Report(executor: string, a: Attempt): Result {
    match a
    case Completed => Result(executor, true, "", false, false, "", "")
    case Failed(kind) => Result(executor, false, kind, false, false, "", "")
    case RateLimited => Result(executor, false, "http_rate_limited", false, false, "", "")
  }

  predicate CliAgent(executor: string) {
    executor == "aider" || executor == "claude-code" || executor == "codex"
  }

  /** Executors that report their own outcome and never move to another route. */
  predicate Plain(executor: string) {
    executor == "mock" || executor == "mock-remote" || executor == "note-only" || executor == "local"
  }

  predicate Known(executor: string) {
    Plain(executor) || CliAgent(executor) || executor == "http"
  }

  /** The outcome of this run is handed to route fallback. A rate limit of the HTTP executor is not. */
  predicate FallsBack(executor: string, a: Attempt) {
    !a.Completed? && (CliAgent(executor) || (executor == "http" && !a.RateLimited?))
  }

  // ---------------------------------------------------------------- the state

  /** Where the task's topology record says the task runs. */
  datatype Topology = Topology(routeName: string, executorFamily: string, executionSite: string, transport: string,
                               remoteIntent: bool)

  /** The part of a task's state that describes its route. */
  datatype RouteState = RouteState(
    executorName: string, routeName: string, profile: Profile, reason: string, isFallback: bool,
    topology: Topology, chain: seq<string>)

  function Reason(next: string, failed: string): string {
    "Executor-level route fallback selected '" + next + "' after '" + failed + "' failed."
  }

  function TopologyOf(r: Route): Topology {
    Topology(r.name, r.profile.executorFamily, r.profile.executionSite, r.profile.transport, r.profile.remoteCapable)
  }

  function Selected(s: RouteState, r: Route, reason: string): RouteState {
    RouteState(r.executorName, r.name, r.profile, reason, true, TopologyOf(r), s.chain)
  }

  class TaskState {
    var executorName: string
    var routeName: string
    var profile: Profile
    var reason: string
    var isFallback: bool
    var topology: Topology
    var chain: seq<string>

    function View(): RouteState
      reads this
    {
      RouteState(executorName, routeName, profile, reason, isFallback, topology, chain)
    }

    /** Take over a route; the chain is the orchestrator's plan and stays. */
    method ApplyRoute(r: Route, why: string)
      modifies this
      ensures View() == Selected(old(View()), r, why)
    {
      executorName := r.executorName;
      routeName := r.name;
      profile := r.profile;
      reason := why;
      isFallback := true;
      topology := TopologyOf(r);
    }
  }

  // ---------------------------------------------------------------- choosing the next route

  function IndexOf(s: seq<string>, x: string): (i: nat)
    ensures i <= |s| && (i < |s| <==> x in s)
    ensures forall j :: 0 <= j < i ==> s[j] != x
    ensures i < |s| ==> s[i] == x
  {
    if s == [] then 0 else if s[0] == x then 0 else IndexOf(s[1..], x) + 1
  }

  function LoadFallbackRoute(reg: Registry, chain: seq<string>, current: string, visited: set<string>): Option<Route> {
    var names := NonBlanks(chain);
    var i := IndexOf(names, current);
    if i + 1 >= |names| || names[i + 1] in visited then None
    else RouteByName(reg, names[i + 1])
  }

  /** The route to fall back to, unless its own name was seen already. */
  function Candidate(reg: Registry, chain: seq<string>, current: string, seen: set<string>): Option<Route> {
    match LoadFallbackRoute(reg, chain, current, seen)
    case None => None
    case Some(r) => if r.name in seen then None else Some(r)
  }

  /** The names of the routes the chain's entries stand for. */
  function Targets(reg: Registry, chain: seq<string>): set<string> {
    set x | x in NonBlanks(chain) && RouteByName(reg, x).Some? :: RouteByName(reg, x).value.name
  }

  lemma CandidateTarget(reg: Registry, chain: seq<string>, current: string, seen: set<string>)
    ensures var c := Candidate(reg, chain, current, seen);
            c.Some? ==> c.value.name in Targets(reg, chain) - seen
  {
    hide RouteByName, NonBlanks;
  }

  /** Every candidate is new among the finitely many targets: this is why fallback ends. */
  lemma CandidateProgress(reg: Registry, chain: seq<string>, current: string, visited: set<string>)
    ensures var seen := visited + {current};
            var c := Candidate(reg, chain, current, seen);
            c.Some? ==> |Targets(reg, chain) - (seen + {c.value.name})| < |Targets(reg, chain) - visited|
  {
    hide Candidate, Targets;
    var seen := visited + {current};
    var c := Candidate(reg, chain, current, seen);
    if c.Some? {
      CandidateTarget(reg, chain, current, seen);
      SmallerSet(Targets(reg, chain) - (seen + {c.value.name}), Targets(reg, chain) - visited, c.value.name);
    }
  }

  // ---------------------------------------------------------------- the routes a run goes through

  /** The routes that are run after `route` failed; `k` runs came before the next one. */
  ghost function After(env: Environment, chain: seq<string>, route: string, visited: set<string>,
                       k: nat): (rs: seq<Route>)
    decreases |Targets(env.registry, chain) - visited|
  {
    var current := Strip(route);
    var seen := visited + {current};
    if !FallbackEnabled(route) then []
    else
      match Candidate(env.registry, chain, current, seen)
      case None => []
      case Some(r) =>
        CandidateProgress(env.registry, chain, current, visited);
        assert |Targets(env.registry, chain) - (seen + {r.name})| < |Targets(env.registry, chain) - visited|;
        [r] + (if FallsBack(ResolveExecutorName(env, r.executorName), env.attempts(k))
               then After(env, chain, r.name, seen + {r.name}, k + 1) else [])
  }

  /** The routes that are run after the state's own route. */
  ghost function Plan(env: Environment, s: RouteState, visited: set<string>, k: nat): seq<Route> {
    if FallsBack(ResolveExecutorName(env, s.executorName), env.attempts(k)) then
        After(env, s.chain, s.routeName, visited, k + 1) else []
  }

  /** The state once these routes were taken over one after the other. */
  function Through(s: RouteState, rs: seq<Route>): RouteState
    decreases |rs|
  {
    if rs == [] then s else Through(Selected(s, rs[0], Reason(rs[0].name, Strip(s.routeName))), rs[1..])
  }

  /** The run of one route: an unknown executor raises before anything is run. */
  function RunOf(env: Environment, routeName: string, executorName: string): seq<string> {
    if Known(ResolveExecutorName(env, executorName)) then [routeName] else []
  }

  function RunsOf(env: Environment, rs: seq<Route>): seq<string> {
    if rs == [] then [] else RunOf(env, rs[0].name, rs[0].executorName) + RunsOf(env, rs[1..])
  }

  /** The result of the run that no route fallback follows. */
  function LastResult(env: Environment, executorName: string, k: nat): Outcome {
    var executor := ResolveExecutorName(env, executorName);
    if Plain(executor) then Finished(Report(executor, env.attempts(k)))
    else if CliAgent(executor) || executor == "http" then
      Finished(if env.attempts(k).Completed? then Report(executor, env.attempts(k))
          else NoteResult(env, Report(executor, env.attempts(k))))
    else UnknownExecutor(executor)
  }

  function Degraded(o: Outcome, original: string, fallback: string): Outcome {
    if o.Finished? then Finished(o.result.(degraded := true, originalRoute := original, fallbackRoute := fallback))
        else o
  }

  /** The route that is named as the original one. */
  function Primary(original: string, current: string): string {
    if Blank(original) then current else Strip(original)
  }

  /** The outcome of going through `rs`, the last of them being run number `k`. */
  function OutcomeOf(env: Environment, rs: seq<Route>, primary: string, k: nat): Outcome
    requires rs != []
  {
    var last := rs[|rs| - 1];
    Degraded(LastResult(env, last.executorName, k), primary, last.name)
  }

  /** A registry whose lookups return trimmed, non-empty names. */
  ghost predicate ProperNames(reg: Registry) {
    forall raw :: RouteByName(reg, raw).Some? ==> var n := RouteByName(reg, raw).value.name; n != "" && Trimmed(n)
  }

  /** `_attach_route_fallback_metadata`: degraded, and what is already named stays named. */
  function Attach(r: Result, original: string, fallback: string): Result {
    r.(degraded := true,
       originalRoute := if r.originalRoute != "" then r.originalRoute else original,
       fallbackRoute := if r.fallbackRoute != "" then r.fallbackRoute else fallback)
  }

  /** The state ends on the last route taken over, with its chain as it was. */
  lemma {:induction false} ThroughLast(s: RouteState, rs: seq<Route>)
    ensures Through(s, rs).chain == s.chain
    ensures rs != [] ==> var last := rs[|rs| - 1]; var t := Through(s, rs);
                         t.routeName == last.name && t.executorName == last.executorName && t.profile == last.profile
                         && t.topology.routeName == last.name && t.isFallback
                         && t.topology.executorFamily == last.profile.executorFamily
                         && t.topology.executionSite == last.profile.executionSite
                         && t.topology.transport == last.profile.transport
                         && t.topology.remoteIntent == last.profile.remoteCapable
                         && t.reason == "Executor-level route fallback selected '" + last.name + "' after '"
                                + Strip(if |rs| == 1 then s.routeName else rs[|rs| - 2].name) + "' failed."
    decreases |rs|
  {
    hide Strip;
    if rs != [] {
      ThroughLast(Selected(s, rs[0], Reason(rs[0].name, Strip(s.routeName))), rs[1..]);
    }
  }

  /** The outcome of running a state's route and all that follows it. */
  ghost function RunOutcome(env: Environment, s: RouteState, visited: set<string>, original: string, k: nat): Outcome {
    var rs := Plan(env, s, visited, k);
    if rs == [] then LastResult(env, s.executorName, k)
    else OutcomeOf(env, rs, Primary(original, Strip(s.routeName)), k + |rs|)
  }

  /** Taking over the candidate and running it completes the routes that come after `s` failed. */
  lemma AfterStep(env: Environment, s: RouteState, visited: set<string>, k: nat)
    requires FallbackEnabled(s.routeName)
    ensures var current := Strip(s.routeName);
            var seen := visited + {current};
            match Candidate(env.registry, s.chain, current, seen)
            case None => After(env, s.chain, s.routeName, visited, k) == []
            case Some(r) =>
              var next := Selected(s, r, Reason(r.name, current));
              var rs := Plan(env, next, seen + {r.name}, k);
              && After(env, s.chain, s.routeName, visited, k) == [r] + rs
              && Through(s, [r] + rs) == Through(next, rs)
              && RunsOf(env, [r] + rs) == RunOf(env, r.name, r.executorName) + RunsOf(env, rs)
  {
    hide FallbackEnabled, Strip, Candidate, FallsBack, ResolveExecutorName, Reason, Targets, Through, RunsOf;
    var current := Strip(s.routeName);
    var seen := visited + {current};
    var c := Candidate(env.registry, s.chain, current, seen);
    if c.Some? {
      var next := Selected(s, c.value, Reason(c.value.name, current));
      ThroughCons(env, s, c.value, Plan(env, next, seen + {c.value.name}, k));
    }
  }

  lemma ThroughCons(env: Environment, s: RouteState, r: Route, rs: seq<Route>)
    ensures Through(s, [r] + rs) == Through(Selected(s, r, Reason(r.name, Strip(s.routeName))), rs)
    ensures RunsOf(env, [r] + rs) == RunOf(env, r.name, r.executorName) + RunsOf(env, rs)
  {
    hide Strip, Reason, Selected, RunOf;
    assert ([r] + rs)[1..] == rs;
  }

  /** Naming the routes on the way back out gives the first route and the last one. */
  lemma AttachStep(env: Environment, next: RouteState, r: Route, visited: set<string>, primary: string, k: nat)
    requires next.routeName == r.name && next.executorName == r.executorName
    requires primary != "" && Trimmed(primary) && r.name != "" && Trimmed(r.name)
    requires forall x :: x in Plan(env, next, visited, k) ==> x.name != "" && Trimmed(x.name)
    ensures var rs := Plan(env, next, visited, k);
            var o := RunOutcome(env, next, visited, primary, k);
            var last := Through(next, rs).routeName;
            OutcomeOf(env, [r] + rs, primary, k + |rs|)
            == (if o.Finished? then
                  var named := if o.result.fallbackRoute != "" then o.result.fallbackRoute else last;
                  Finished(Attach(o.result, primary, if Blank(named) then r.name else Strip(named)))
                else o)
  {
    hide Plan, FallsBack, ResolveExecutorName, NoteResult, CliAgent, Plain, LastResult, Through, Trimmed, Strip;
    hide Selected;
    StripTrimmed(primary);
    StripTrimmed(r.name);
    var rs := Plan(env, next, visited, k);
    ThroughLast(next, rs);
    ThroughNone(env, next);
    LastPlain(env, next.executorName, k);
    if rs != [] {
      assert rs[|rs| - 1] in rs;
      StripTrimmed(rs[|rs| - 1].name);
      LastPlain(env, rs[|rs| - 1].executorName, k + |rs|);
      assert ([r] + rs)[|rs|] == rs[|rs| - 1];
    }
  }

  lemma NotEnabled(env: Environment, s: RouteState, visited: set<string>, k: nat)
    ensures !FallbackEnabled(s.routeName) ==> After(env, s.chain, s.routeName, visited, k) == []
    ensures Through(s, []) == s && RunsOf(env, []) == []
  {
    hide FallbackEnabled;
  }

  lemma ThroughNone(env: Environment, s: RouteState)
    ensures Through(s, []) == s && RunsOf(env, []) == []
  {
  }

  /** A route with fallback enabled has a name. */
  lemma EnabledNamed(name: string)
    requires FallbackEnabled(name)
    ensures Strip(name) != ""
  {
    hide Strip;
  }

  /** A run without route fallback names no routes. */
  lemma LastPlain(env: Environment, executorName: string, k: nat)
    ensures var o := LastResult(env, executorName, k); o.Finished? ==>
        !o.result.degraded && o.result.originalRoute == "" && o.result.fallbackRoute == ""
  {
    hide ResolveExecutorName, Plain, CliAgent, Lower, Strip;
  }

  lemma {:induction false} AfterProper(env: Environment, chain: seq<string>, route: string, visited: set<string>,
                                       k: nat)
    requires ProperNames(env.registry)
    ensures forall x :: x in After(env, chain, route, visited, k) ==> x.name != "" && Trimmed(x.name)
    decreases |Targets(env.registry, chain) - visited|
  {
    hide FallbackEnabled, Strip, FallsBack, ResolveExecutorName, Targets, RouteByName, NonBlanks, Trimmed;
    var current := Strip(route);
    var seen := visited + {current};
    var c := Candidate(env.registry, chain, current, seen);
    if c.Some? {
      CandidateProgress(env.registry, chain, current, visited);
      AfterProper(env, chain, c.value.name, seen + {c.value.name}, k + 1);
    }
  }

  /** A run that no route fallback follows leaves the state alone. */
  lemma NoFallback(env: Environment, s: RouteState, visited: set<string>, original: string, k: nat)
    ensures var executor := ResolveExecutorName(env, s.executorName);
            var a := env.attempts(k);
            !FallsBack(executor, a) ==>
              && Plan(env, s, visited, k) == [] && Through(s, []) == s && RunsOf(env, []) == []
              && RunOutcome(env, s, visited, original, k) ==
                 (if !Plain(executor) && executor != "http" && !CliAgent(executor) then UnknownExecutor(executor)
                  else if Plain(executor) || a.Completed? then Finished(Report(executor, a))
                  else Finished(NoteResult(env, Report(executor, a))))
    ensures var executor := ResolveExecutorName(env, s.executorName);
            Plain(executor) || (executor != "http" && !CliAgent(executor)) ==> !FallsBack(executor, env.attempts(k))
  {
    hide ResolveExecutorName, NoteResult, Strip;
    var executor := ResolveExecutorName(env, s.executorName);
  }

  /** A run that is handed to route fallback. */
  lemma OnFallback(env: Environment, s: RouteState, visited: set<string>, original: string, k: nat)
    ensures var executor := ResolveExecutorName(env, s.executorName);
            FallsBack(executor, env.attempts(k)) ==>
              var rs := After(env, s.chain, s.routeName, visited, k + 1);
              && Plan(env, s, visited, k) == rs
              && RunOutcome(env, s, visited, original, k) ==
                 (if rs == [] then Finished(NoteResult(env, Report(executor, env.attempts(k))))
                  else OutcomeOf(env, rs, Primary(original, Strip(s.routeName)), k + |rs|))
  {
    hide ResolveExecutorName, NoteResult, Strip, After;
  }

  // ---------------------------------------------------------------- one step of a run, case by case

  /** The routes on which an executor's failure may move on, by name. */
  ghost predicate EnabledRoute(routeName: string) {
    var name := Lower(Strip(routeName));
    name in {"local-http", "local-aider", "local-claude-code"} || (|name| >= 5 && name[..5] == "http-")
  }

  /** `r` is registered under the chain's entry after the first one that names the state's route, and neither its
      name nor the entry was seen before. */
  ghost predicate NextRoute(env: Environment, s: RouteState, visited: set<string>, r: Route) {
    var names, current := NonBlanks(s.chain), Strip(s.routeName);
    exists i: nat :: NextAt(names, current, i) && names[i + 1] !in visited + {current}
        && RouteByName(env.registry, names[i + 1]) == Some(r) && r.name !in visited + {current}
  }

  ghost predicate NextAt(names: seq<string>, current: string, i: nat) {
    i + 1 < |names| && names[i] == current && forall j :: 0 <= j < i ==> names[j] != current
  }

  /** The state's route was run and nothing else: its own outcome is returned, with a note if it failed and notes
      are not switched off. */
  ghost predicate Alone(env: Environment, s: RouteState, k: nat, before: seq<string>, runs: seq<string>, t: RouteState,
                        o: Outcome) {
    var executor, a := ResolveExecutorName(env, s.executorName), env.attempts(k);
    && runs == before + [s.routeName] && t == s && o.Finished?
    && o.result.executor == executor && (o.result.completed <==> a.Completed?)
    && (a.Completed? ==> o.result.failureKind == "") && (a.Failed? ==> o.result.failureKind == a.kind)
    && (a.RateLimited? ==> o.result.failureKind == "http_rate_limited")
    && (o.result.noted <==> (!a.Completed? && executor in {"http", "aider", "claude-code", "codex"}
                             && Lower(Strip(env.noteMode)) !in {"", "off", "disabled", "none"}))
    && !o.result.degraded && o.result.originalRoute == "" && o.result.fallbackRoute == ""
  }

  /** After the state's route, `r` was taken over and run, unless its executor is unknown. */
  ghost predicate GoesTo(env: Environment, s: RouteState, original: string, r: Route, before: seq<string>,
                         runs: seq<string>, t: RouteState, o: Outcome) {
    && before + [s.routeName] <= runs && t.isFallback && t.chain == s.chain
    && (if Runnable(ResolveExecutorName(env, r.executorName)) then before + [s.routeName, r.name] <= runs
        else runs == before + [s.routeName] && t.routeName == r.name
             && o == UnknownExecutor(ResolveExecutorName(env, r.executorName)))
    && (o.Finished? ==>
         && o.result.degraded && o.result.fallbackRoute == t.routeName
         && o.result.originalRoute == if Strip(original) == "" then Strip(s.routeName) else Strip(original))
  }

  ghost predicate Runnable(executor: string) {
    executor in {"mock", "mock-remote", "note-only", "local", "http", "aider", "claude-code", "codex"}
  }

  /** What a run does, told by its first outcome. A rate limit stays on its route only with the HTTP executor. */
  ghost predicate RunTold(env: Environment, s: RouteState, visited: set<string>, original: string, k: nat,
                          before: seq<string>, runs: seq<string>, t: RouteState, o: Outcome) {
    var executor, a := ResolveExecutorName(env, s.executorName), env.attempts(k);
    && (!Runnable(executor) ==> runs == before && t == s && o == UnknownExecutor(executor))
    && (executor in {"mock", "mock-remote", "note-only", "local"} ==> Alone(env, s, k, before, runs, t, o))
    && (Runnable(executor) && a.Completed? ==> Alone(env, s, k, before, runs, t, o))
    && (executor == "http" && a.RateLimited? ==> Alone(env, s, k, before, runs, t, o))
    && ((executor == "http" && a.Failed?) || (executor in {"aider", "claude-code", "codex"} && !a.Completed?) ==>
         && (!EnabledRoute(s.routeName) ==> Alone(env, s, k, before, runs, t, o))
         && ((forall r :: !NextRoute(env, s, visited, r)) ==> Alone(env, s, k, before, runs, t, o))
         && (forall r :: EnabledRoute(s.routeName) && NextRoute(env, s, visited, r) ==>
              GoesTo(env, s, original, r, before, runs, t, o)))
  }

  lemma NextIsCandidate(env: Environment, s: RouteState, visited: set<string>, r: Route)
    ensures var current := Strip(s.routeName);
            var c := Candidate(env.registry, s.chain, current, visited + {current});
            NextRoute(env, s, visited, r) <==> c == Some(r)
  {
    hide RouteByName, NonBlanks, Strip, IndexOf;
    var names, current := NonBlanks(s.chain), Strip(s.routeName);
    var i := IndexOf(names, current);
    forall j: nat | NextAt(names, current, j) ensures j == i {
      assert current in names;
    }
    if i + 1 < |names| { assert NextAt(names, current, i); }
  }

  lemma EnabledExactly(name: string)
    ensures FallbackEnabled(name) <==> EnabledRoute(name)
  {
    hide Lower, Strip;
    var n := Lower(Strip(name));
    assert |"http-"| == 5;
  }

  /** A run nothing follows. */
  lemma RunAlone(env: Environment, s: RouteState, visited: set<string>, original: string, k: nat, before: seq<string>)
    requires Plan(env, s, visited, k) == [] && Runnable(ResolveExecutorName(env, s.executorName))
    ensures RunsOf(env, []) == [] && Through(s, []) == s
    ensures Alone(env, s, k, before, before + RunOf(env, s.routeName, s.executorName) + [], s,
                  RunOutcome(env, s, visited, original, k))
  {
    hide ResolveExecutorName, Strip, Lower, Plan;
  }

  /** What happens to `r` itself: it is run, or nothing follows and its unknown executor is the outcome. */
  lemma MovedTo(env: Environment, next: RouteState, r: Route, visited: set<string>, k: nat, rs: seq<Route>)
    requires next.executorName == r.executorName && next.routeName == r.name && rs == Plan(env, next, visited, k)
    ensures var executor := ResolveExecutorName(env, r.executorName);
            if Runnable(executor) then RunOf(env, r.name, r.executorName) == [r.name]
            else RunOf(env, r.name, r.executorName) == [] && rs == []
                 && forall primary :: OutcomeOf(env, [r] + rs, primary, k) == UnknownExecutor(executor)
  {
    hide ResolveExecutorName, NoteResult, After;
  }

  /** The outcome names the first route and the last one. */
  lemma MovedOutcome(env: Environment, s: RouteState, original: string, rs: seq<Route>, k: nat)
    requires rs != []
    ensures var o := OutcomeOf(env, rs, Primary(original, Strip(s.routeName)), k);
            o.Finished? ==>
              && o.result.degraded && o.result.fallbackRoute == Through(s, rs).routeName
              && o.result.originalRoute == if Strip(original) == "" then Strip(s.routeName) else Strip(original)
    ensures Through(s, rs).isFallback && Through(s, rs).chain == s.chain
    ensures |rs| == 1 ==> Through(s, rs).routeName == rs[0].name
  {
    hide Strip, LastResult, Reason, Through;
    ThroughLast(s, rs);
  }

  lemma RunMovesOn(env: Environment, s: RouteState, visited: set<string>, original: string, k: nat,
                   before: seq<string>, r: Route)
    requires FallsBack(ResolveExecutorName(env, s.executorName), env.attempts(k)) && FallbackEnabled(s.routeName)
    requires Candidate(env.registry, s.chain, Strip(s.routeName), visited + {Strip(s.routeName)}) == Some(r)
    ensures var rs := Plan(env, s, visited, k);
            GoesTo(env, s, original, r, before,
                   before + RunOf(env, s.routeName, s.executorName) + RunsOf(env, rs), Through(s, rs),
                   RunOutcome(env, s, visited, original, k))
  {
    hide ResolveExecutorName, Strip, Candidate, FallbackEnabled, Reason, Through, RunsOf, Plan, Runnable, OutcomeOf;
    hide After, Primary;
    var current := Strip(s.routeName);
    var seen := visited + {current};
    var next := Selected(s, r, Reason(r.name, current));
    OnFallback(env, s, visited, original, k);
    AfterStep(env, s, visited, k + 1);
    var rest := Plan(env, next, seen + {r.name}, k + 1);
    var rs := [r] + rest;
    assert Plan(env, s, visited, k) == rs;
    MovedTo(env, next, r, seen + {r.name}, k + 1, rest);
    MovedOutcome(env, s, original, rs, k + |rs|);
    assert RunOf(env, s.routeName, s.executorName) == [s.routeName];
    hide RunOf;
    assert before + [s.routeName] + ([r.name] + RunsOf(env, rest)) == before + [s.routeName, r.name]
        + RunsOf(env, rest);
    ThroughNone(env, s);
  }

  /** What the run of a state's route and of all routes that follow comes to, by cases. */
  lemma RunTells(env: Environment, s: RouteState, visited: set<string>, original: string, k: nat, before: seq<string>)
    ensures var rs := Plan(env, s, visited, k);
            RunTold(env, s, visited, original, k, before,
                    before + RunOf(env, s.routeName, s.executorName) + RunsOf(env, rs), Through(s, rs),
                    RunOutcome(env, s, visited, original, k))
  {
    hide ResolveExecutorName, Strip, Candidate, FallbackEnabled, Through, RunsOf, Plan, RunOutcome, After, RunOf;
    hide Alone, GoesTo, EnabledRoute, NextRoute, NoteResult;
    var executor := ResolveExecutorName(env, s.executorName);
    EnabledExactly(s.routeName);
    forall r { NextIsCandidate(env, s, visited, r); }
    NoFallback(env, s, visited, original, k);
    OnFallback(env, s, visited, original, k);
    ThroughNone(env, s);
    if !Runnable(executor) {
      NothingRun(env, s);
      assert before + [] + [] == before;
    } else {
      var c := Candidate(env.registry, s.chain, Strip(s.routeName), visited + {Strip(s.routeName)});
      if FallsBack(executor, env.attempts(k)) && FallbackEnabled(s.routeName) {
        AfterStep(env, s, visited, k + 1);
        if c.Some? { RunMovesOn(env, s, visited, original, k, before, c.value); }
      } else {
        NotEnabled(env, s, visited, k + 1);
      }
      if Plan(env, s, visited, k) == [] { RunAlone(env, s, visited, original, k, before); }
    }
  }

  lemma NothingRun(env: Environment, s: RouteState)
    requires !Runnable(ResolveExecutorName(env, s.executorName))
    ensures RunOf(env, s.routeName, s.executorName) == []
  {
    hide ResolveExecutorName;
  }

  // ---------------------------------------------------------------- the program

  class Runner {
    const env: Environment
    /** The routes run by an executor so far. */
    var runs: seq<string>

    constructor (env: Environment)
      ensures this.env == env && runs == []
    {
      this.env, runs := env, [];
    }

    /** Hand the state's route to its executor. */
    method Attempt(state: TaskState) returns (a: Attempt)
      modifies this
      ensures a == env.attempts(old(|runs|)) && runs == old(runs) + [state.routeName]
    {
      a := env.attempts(|runs|);
      runs := runs + [state.routeName];
    }

    method RunPromptExecutor(state: TaskState, visited: set<string>, original: string) returns (o: Outcome)
      requires ProperNames(env.registry)
      modifies this, state
      ensures runs == old(runs) + RunOf(env, old(state.routeName), old(state.executorName))
          + RunsOf(env, Plan(env, old(state.View()), visited, old(|runs|)))
      ensures state.View() == Through(old(state.View()), Plan(env, old(state.View()), visited, old(|runs|)))
      ensures o == RunOutcome(env, old(state.View()), visited, original, old(|runs|))
      ensures RunTold(env, old(state.View()), visited, original, old(|runs|), old(runs), runs, state.View(), o)
      decreases |Targets(env.registry, state.chain) - visited|, 2
    {
      hide FallbackEnabled, ResolveExecutorName, Targets, ProperNames, Strip, Plan, Through, RunOutcome, RunsOf;
      hide LastResult, FallsBack, Plain, RunTold;
      RunTells(env, state.View(), visited, original, |runs|, runs);
      var executor := ResolveExecutorName(env, state.executorName);
      NoFallback(env, state.View(), visited, original, |runs|);
      if Plain(executor) {
        var a := Attempt(state);
        return Finished(Report(executor, a));
      }
      if executor != "http" && !CliAgent(executor) {
        return UnknownExecutor(executor);
      }
      o := RunExecutor(state, visited, original);
    }

    /** The HTTP executor and the command-line agents: they only differ in what a rate limit does. */
    method RunExecutor(state: TaskState, visited: set<string>, original: string) returns (o: Outcome)
      requires ProperNames(env.registry)
      requires var executor := ResolveExecutorName(env, state.executorName); executor == "http" || CliAgent(executor)
      modifies this, state
      ensures runs == old(runs) + RunOf(env, old(state.routeName), old(state.executorName))
          + RunsOf(env, Plan(env, old(state.View()), visited, old(|runs|)))
      ensures state.View() == Through(old(state.View()), Plan(env, old(state.View()), visited, old(|runs|)))
      ensures o == RunOutcome(env, old(state.View()), visited, original, old(|runs|))
      ensures RunTold(env, old(state.View()), visited, original, old(|runs|), old(runs), runs, state.View(), o)
      decreases |Targets(env.registry, state.chain) - visited|, 1
    {
      hide FallbackEnabled, ResolveExecutorName, Targets, ProperNames, Strip, Plan, Through, RunOutcome, RunsOf;
      hide LastResult, After, NoteResult, RunTold;
      ghost var s := state.View();
      ghost var k := |runs|;
      RunTells(env, s, visited, original, k, runs);
      var executor := ResolveExecutorName(env, state.executorName);
      NoFallback(env, s, visited, original, k);
      OnFallback(env, s, visited, original, k);
      var a := Attempt(state);
      var report := Report(executor, a);
      if a.Completed? {
        return Finished(report);
      }
      if executor == "http" && a.RateLimited? {
        return Finished(NoteResult(env, report));
      }
      o := ApplyExecutorRouteFallback(state, report, visited, original);
    }

    method ApplyExecutorRouteFallback(state: TaskState, result: Result, visited: set<string>, original: string)
      returns (o: Outcome)
      requires ProperNames(env.registry)
      requires !result.degraded && result.originalRoute == "" && result.fallbackRoute == ""
      modifies this, state
      ensures runs == old(runs) + RunsOf(env, After(env, old(state.chain), old(state.routeName), visited, old(|runs|)))
      ensures state.View()
          == Through(old(state.View()), After(env, old(state.chain), old(state.routeName), visited, old(|runs|)))
      ensures var rs := After(env, old(state.chain), old(state.routeName), visited, old(|runs|));
              o == if rs == [] then Finished(NoteResult(env, result))
                   else OutcomeOf(env, rs, Primary(original, Strip(old(state.routeName))), old(|runs|) + |rs| - 1)
      decreases |Targets(env.registry, state.chain) - visited|, 0
    {
      hide FallbackEnabled, NoteResult, Candidate, Targets, ProperNames, Through, After, Plan, OutcomeOf, RunOutcome;
      hide Strip;
      hide RunsOf, RunOf, Reason, Attach, RunTold;
      ghost var s := state.View();
      ghost var k := |runs|;
      if !FallbackEnabled(state.routeName) {
        NotEnabled(env, s, visited, k);
        return Finished(NoteResult(env, result));
      }
      EnabledNamed(state.routeName);
      AfterStep(env, s, visited, k);
      var current := Strip(state.routeName);
      var seen := visited + {current};
      var primary := Primary(original, current);
      var candidate := Candidate(env.registry, state.chain, current, seen);
      if candidate.None? {
        ThroughNone(env, s);
        return Finished(if result.degraded then result else NoteResult(env, result));
      }
      var route := candidate.value;
      CandidateProgress(env.registry, state.chain, current, visited);
      AfterProper(env, state.chain, state.routeName, visited, k);
      state.ApplyRoute(route, Reason(route.name, current));
      ghost var next := state.View();
      AttachStep(env, next, route, seen + {route.name}, primary, k);
      o := RunPromptExecutor(state, seen + {route.name}, primary);
      if o.Finished? {
        var named := if o.result.fallbackRoute != "" then o.result.fallbackRoute else state.routeName;
        o := Finished(Attach(o.result, primary, if Blank(named) then route.name else Strip(named)));
      }
    }
  }
}
