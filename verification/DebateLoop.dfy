/** Review feedback and the debate loop: an attempt that completes but fails review is retried under the
    feedback of that review, a bounded number of times. */
module DebateLoop {
  import opened Text
  import opened Collections
  import opened ReviewGate

  const MAX_ROUNDS: nat := 3
  const SNIPPET_LIMIT := 500

  datatype Feedback = Feedback(round: nat, failedChecks: seq<Check>, suggestions: seq<string>, snippet: string)

  // ---------------------------------------------------------------- building feedback

  function RStrip(s: string): (r: string)
    ensures |r| <= |s| && r <= s
  {
    if s != "" && IsSpace(s[|s| - 1]) then RStrip(s[..|s| - 1]) else s
  }

  function Snippet(text: string): (r: string)
    ensures |r| <= SNIPPET_LIMIT
  {
    var t := Strip(text);
    if |t| <= SNIPPET_LIMIT then t else RStrip(t[..SNIPPET_LIMIT - 3]) + "..."
  }

  const REVIEWER := "reviewer_route:"

  const FINISH := "Ensure the executor finishes with status=completed before returning to the review gate."
  const ADDRESS := "Return a non-empty output payload that directly addresses the task goal."
  const STRUCTURE := "Return a structured JSON object that satisfies the required schema fields and constant values."
  const REVISE := "Revise the output until the configured reviewer policy passes, then re-run the review gate."

  function Suggestion(c: Check): string {
    var name := Strip(c.name);
    if name == "executor_status" then FINISH
    else if name == "output_non_empty" then ADDRESS
    else if name == "output_schema" then STRUCTURE
    else if name == "consensus_policy" then REVISE
    else if REVIEWER <= name then
      var route := if name == REVIEWER then "unknown reviewer" else name[|REVIEWER|..];
      "Address the issues raised by reviewer route '" + route + "' before retrying."
    else
      var named := "Address review check '" + (if name == "" then "unknown" else name) + "'";
      if Blank(c.detail) then named + " before retrying." else named + ": " + Strip(c.detail)
  }

  function FailedChecks(checks: seq<Check>): (failed: seq<Check>)
    ensures forall c :: c in failed <==> c in checks && !c.passed
  {
    if checks == [] then []
    else
      assert checks == checks[..|checks| - 1] + [checks[|checks| - 1]];
      FailedChecks(checks[..|checks| - 1]) + (if checks[|checks| - 1].passed then [] else [checks[|checks| - 1]])
  }

  /** A list without repetitions, in order of first occurrence. */
  function FirstOccurrences(xs: seq<string>): (r: seq<string>)
    ensures Distinct(r)
  {
    if xs == [] then []
    else
      var r, x := FirstOccurrences(xs[..|xs| - 1]), xs[|xs| - 1];
      if x in r then r else r + [x]
  }

  lemma {:induction false} OccurrencesKept(xs: seq<string>)
    ensures forall x :: x in FirstOccurrences(xs) <==> x in xs
  {
    if xs != [] {
      OccurrencesKept(xs[..|xs| - 1]);
      assert xs == xs[..|xs| - 1] + [xs[|xs| - 1]];
    }
  }

  function SuggestionsFor(failed: seq<Check>): (r: seq<string>)
    ensures |r| == |failed| && forall i :: 0 <= i < |failed| ==> r[i] == Suggestion(failed[i])
  {
    seq(|failed|, i requires 0 <= i < |failed| => Suggestion(failed[i]))
  }

  /** One suggestion for each failed check, none twice. */
  function Suggestions(failed: seq<Check>): seq<string> {
    FirstOccurrences(SuggestionsFor(failed))
  }

  lemma SuggestionsCover(failed: seq<Check>)
    ensures Distinct(Suggestions(failed))
    ensures forall s :: s in Suggestions(failed) <==> exists i :: 0 <= i < |failed| && Suggestion(failed[i]) == s
  {
    hide Suggestion;
    OccurrencesKept(SuggestionsFor(failed));
    var all := SuggestionsFor(failed);
    forall s ensures s in all <==> exists i :: 0 <= i < |failed| && Suggestion(failed[i]) == s {
      if i :| 0 <= i < |failed| && Suggestion(failed[i]) == s { assert all[i] == s; }
    }
  }

  function FeedbackOf(g: Gate, output: string, round: nat): Option<Feedback> {
    var failed := FailedChecks(g.checks);
    if g.passed || failed == [] then None
    else Some(Feedback(if round < 1 then 1 else round, failed, Suggestions(failed), Snippet(output)))
  }

  method BuildReviewFeedback(g: Gate, output: string, round: nat) returns (f: Option<Feedback>)
    ensures f == FeedbackOf(g, output, round)
    ensures f.Some? ==> exists places :: ListedInOrder(g.checks, f.value.failedChecks, places)
    ensures f.Some? ==> Shown(Strip(output), f.value.snippet)
  {
    hide Suggestion, Snippet, Shown, ListedInOrder;
    var failed: seq<Check> := [];
    assert g.checks[..0] == [];
    for i := 0 to |g.checks|
      invariant failed == FailedChecks(g.checks[..i])
    {
      assert g.checks[..i + 1][..i] == g.checks[..i];
      if !g.checks[i].passed { failed := failed + [g.checks[i]]; }
    }
    assert g.checks[..|g.checks|] == g.checks;
    if g.passed || failed == [] {
      return None;
    }
    var suggestions := CollectSuggestions(failed);
    f := Some(Feedback(if round < 1 then 1 else round, failed, suggestions, Snippet(output)));
    ghost var places := FeedbackTells(g, output, round);
  }

  method CollectSuggestions(failed: seq<Check>) returns (suggestions: seq<string>)
    ensures suggestions == Suggestions(failed)
  {
    hide Suggestion;
    suggestions := [];
    var seen: set<string> := {};
    ghost var all := SuggestionsFor(failed);
    assert all[..0] == [];
    for i := 0 to |failed|
      invariant suggestions == FirstOccurrences(all[..i]) && forall s :: s in seen <==> s in suggestions
    {
      assert all[..i + 1][..i] == all[..i];
      var s := Suggestion(failed[i]);
      if s !in seen {
        suggestions, seen := suggestions + [s], seen + {s};
      }
    }
    assert all[..|failed|] == all;
  }

  /** A gate that failed with a failed check gives feedback that lists every failed check and nothing else. */
  lemma FeedbackExists(g: Gate, output: string, round: nat)
    ensures FeedbackOf(g, output, round).Some? <==> !g.passed && exists i :: 0 <= i < |g.checks| && !g.checks[i].passed
  {
    hide Suggestion, Snippet;
    var failed := FailedChecks(g.checks);
    if failed != [] {
      assert failed[0] in failed;
      var i :| 0 <= i < |g.checks| && g.checks[i] == failed[0];
    }
    if i :| 0 <= i < |g.checks| && !g.checks[i].passed {
      assert g.checks[i] in failed;
    }
  }

  /** `places` are the positions of the failed checks, in increasing order, and the listed checks are theirs. */
  ghost predicate ListedInOrder(checks: seq<Check>, failed: seq<Check>, places: seq<nat>) {
    && |places| == |failed|
    && (forall i :: 0 <= i < |places| ==> places[i] < |checks| && failed[i] == checks[places[i]])
    && (forall i, j :: 0 <= i < j < |places| ==> places[i] < places[j])
    && (forall k: nat :: k < |checks| ==> (k in places <==> !checks[k].passed))
  }

  lemma ListedNext(checks: seq<Check>, failed: seq<Check>, places: seq<nat>, c: Check)
    requires ListedInOrder(checks, failed, places)
    ensures c.passed ==> ListedInOrder(checks + [c], failed, places)
    ensures !c.passed ==> ListedInOrder(checks + [c], failed + [c], places + [|checks|])
  {
    var all := checks + [c];
    assert forall k :: 0 <= k < |checks| ==> all[k] == checks[k];
    assert all[|checks|] == c;
    if !c.passed {
      var more: seq<nat> := places + [|checks|];
      forall k: nat ensures k in more <==> k in places || k == |checks| { InSnoc(places, |checks|, k); }
    }
  }

  lemma InSnoc(xs: seq<nat>, x: nat, k: nat)
    ensures k in xs + [x] <==> k in xs || k == x
  {
  }

  lemma FailedNext(checks: seq<Check>)
    requires checks != []
    ensures var n := |checks| - 1;
            FailedChecks(checks) == if checks[n].passed then FailedChecks(checks[..n])
                else FailedChecks(checks[..n]) + [checks[n]]
  {
  }

  lemma {:induction false} FailedInOrder(checks: seq<Check>) returns (places: seq<nat>)
    ensures ListedInOrder(checks, FailedChecks(checks), places)
  {
    hide ListedInOrder, FailedChecks;
    places := [];
    if checks != [] {
      var n := |checks| - 1;
      places := FailedInOrder(checks[..n]);
      ListedNext(checks[..n], FailedChecks(checks[..n]), places, checks[n]);
      assert checks == checks[..n] + [checks[n]];
      FailedNext(checks);
      if !checks[n].passed { places := places + [n]; }
    } else {
      NoneListed(checks, places);
    }
  }

  lemma NoneListed(checks: seq<Check>, places: seq<nat>)
    requires checks == [] && places == []
    ensures ListedInOrder(checks, FailedChecks(checks), places)
  {
  }

  lemma SuggestionNext(failed: seq<Check>, c: Check)
    ensures var before := Suggestions(failed);
            Suggestions(failed + [c]) == if Suggestion(c) in before then before else before + [Suggestion(c)]
  {
    hide Suggestion;
    var all := SuggestionsFor(failed + [c]);
    assert all[..|failed|] == SuggestionsFor(failed);
  }

  /** What a snippet shows of a trimmed text: all of it up to 500 characters; else its first 497 without the
      whitespace they end on, and three dots. */
  ghost predicate Shown(t: string, snippet: string) {
    if |t| <= 500 then snippet == t
    else
      var n := |snippet| - 3;
      && 0 <= n <= 497 && snippet == t[..n] + "..." && (n > 0 ==> !IsSpace(t[n - 1]))
      && forall k :: n <= k < 497 ==> IsSpace(t[k])
  }

  lemma {:induction false} RStripShows(s: string)
    ensures var n := |RStrip(s)|;
            n <= |s| && RStrip(s) == s[..n] && (n > 0 ==> !IsSpace(s[n - 1])) && forall k :: n <= k < |s| ==>
                IsSpace(s[k])
  {
    hide IsSpace;
    if s != "" && IsSpace(s[|s| - 1]) { RStripShows(s[..|s| - 1]); }
  }

  lemma SnippetShows(text: string)
    ensures Shown(Strip(text), Snippet(text))
  {
    hide IsSpace, Strip;
    var t := Strip(text);
    if |t| > 500 {
      RStripShows(t[..497]);
      var n := |RStrip(t[..497])|;
      assert t[..497][..n] == t[..n];
    }
  }

  /** What the feedback of a failed gate says. */
  lemma FeedbackTells(g: Gate, output: string, round: nat) returns (places: seq<nat>)
    requires FeedbackOf(g, output, round).Some?
    ensures var f := FeedbackOf(g, output, round).value;
            && ListedInOrder(g.checks, f.failedChecks, places) && Shown(Strip(output), f.snippet)
            && (round >= 1 ==> f.round == round) && (round == 0 ==> f.round == 1)
            && Distinct(f.suggestions)
            && forall s :: s in f.suggestions <==>
                 exists i :: 0 <= i < |f.failedChecks| && Suggestion(f.failedChecks[i]) == s
  {
    hide Suggestion, Snippet, Shown;
    places := FailedInOrder(g.checks);
    SnippetShows(output);
    SuggestionsCover(FailedChecks(g.checks));
  }

  /** The suggestion for each kind of failed check. */
  lemma SuggestionWording(name: string, detail: string)
    requires Trimmed(name)
    ensures var told := Suggestion(Check(name, false, detail));
            && (name == "executor_status" ==> told == FINISH) && (name == "output_non_empty" ==> told == ADDRESS)
            && (name == "output_schema" ==> told == STRUCTURE) && (name == "consensus_policy" ==> told == REVISE)
  {
    hide Trimmed, Strip, FINISH, ADDRESS, STRUCTURE, REVISE;
    StripTrimmed(name);
  }

  lemma RouteSuggestion(route: string, detail: string)
    requires Trimmed("reviewer_route:" + route)
    ensures Suggestion(Check("reviewer_route:" + route, false, detail))
        == "Address the issues raised by reviewer route '"
          + (if route == "" then "unknown reviewer" else route) + "' before retrying."
  {
    hide IsSpace, Strip, FINISH, ADDRESS, STRUCTURE, REVISE;
    var name := "reviewer_route:" + route;
    StripTrimmed(name);
    assert name[|REVIEWER|..] == route && |REVIEWER| == 15;
    assert name[0] == 'r';
    assert REVIEWER <= name;
    if route == "" { assert name == REVIEWER; }
  }

  lemma OtherSuggestion(name: string, detail: string)
    requires Trimmed(name) && !(REVIEWER <= name)
    requires name !in {"executor_status", "output_non_empty", "output_schema", "consensus_policy"}
    ensures var named := "Address review check '" + (if name == "" then "unknown" else name) + "'";
            Suggestion(Check(name, false, detail))
            == if Strip(detail) == "" then named + " before retrying." else named + ": " + Strip(detail)
  {
    hide Strip, Trimmed, FINISH, ADDRESS, STRUCTURE, REVISE;
    StripTrimmed(name);
  }

  // ---------------------------------------------------------------- the loop

  datatype Attempt = Attempt(executed: Executed, gate: Gate)

  /** After this attempt there is no retry. */
  predicate Stops(a: Attempt) {
    a.gate.passed || !Completed(a.executed) || FeedbackOf(a.gate, a.executed.output, 1).None?
  }

  /** The last round that is run, from round `k` on. */
  function LastRound(attempts: nat -> Attempt, k: nat): (n: nat)
    decreases MAX_ROUNDS - k
  {
    if k >= MAX_ROUNDS || Stops(attempts(k)) then k else LastRound(attempts, k + 1)
  }

  /** Completed, failed, and no round left. */
  predicate GivesUp(attempts: nat -> Attempt) {
    var n := LastRound(attempts, 0);
    n >= MAX_ROUNDS && !attempts(n).gate.passed && Completed(attempts(n).executed)
  }

  function Ref(task: string, round: nat): string {
    ".swl/tasks/" + task + "/artifacts/review_feedback_round_" + Decimal(round) + ".json"
  }

  function Refs(task: string, n: nat): (rs: seq<string>)
    ensures |rs| == n && forall i :: 0 <= i < n ==> rs[i] == Ref(task, i + 1)
  {
    seq(n, i requires 0 <= i < n => Ref(task, i + 1))
  }

  /** The feedback of round `j`: it is about the attempt of the round before. */
  function RoundFeedback(attempts: nat -> Attempt, j: nat): Option<Feedback>
    requires j >= 1
  {
    FeedbackOf(attempts(j - 1).gate, attempts(j - 1).executed.output, j)
  }

  /** The feedback documents on disk once the first `n` rounds wrote theirs. */
  function Written(before: map<string, Feedback>, attempts: nat -> Attempt, task: string,
                   n: nat): map<string, Feedback> {
    if n == 0 then before
    else
      var docs := Written(before, attempts, task, n - 1);
      if RoundFeedback(attempts, n).Some? then docs[Ref(task, n) := RoundFeedback(attempts, n).value] else docs
  }

  /** What is written when the loop gives up. */
  datatype Exhaustion = Exhaustion(refs: seq<string>, last: Feedback)

  function LastFeedback(a: Attempt, round: nat): Feedback {
    match FeedbackOf(a.gate, a.executed.output, round)
    case Some(f) => f
    case None => Feedback(round, FailedChecks(a.gate.checks), [], Strip(a.executed.output))
  }

  class Debate {
    const task: string
    /** What the attempt of each round comes to. */
    const attempts: nat -> Attempt
    /** The feedback the next attempt runs under: its reference, and the document its text is made from. */
    var feedbackRef: string
    var feedback: Option<Feedback>
    var documents: map<string, Feedback>
    /** The reference in force at each attempt so far. */
    var runs: seq<string>
    /** The rounds and the give-up recorded as events. */
    var rounds: seq<string>
    var exhaustion: Option<Exhaustion>

    constructor (task: string, attempts: nat -> Attempt)
      ensures this.task == task && this.attempts == attempts && runs == [] && rounds == [] && documents == map[]
          && exhaustion == None
    {
      this.task, this.attempts := task, attempts;
      feedbackRef, feedback, documents, runs, rounds, exhaustion := "", None, map[], [], [], None;
    }

    method ClearFeedback()
      modifies this`feedbackRef, this`feedback
      ensures feedbackRef == "" && feedback == None
    {
      feedbackRef, feedback := "", None;
    }

    method RunAttempt(round: nat) returns (a: Attempt)
      modifies this`runs
      ensures a == attempts(round) && runs == old(runs) + [feedbackRef]
    {
      a := attempts(round);
      runs := runs + [feedbackRef];
    }

    method StoreFeedback(f: Feedback) returns (ref: string)
      modifies this`documents
      ensures ref == Ref(task, f.round) && documents == old(documents)[ref := f]
    {
      ref := Ref(task, f.round);
      documents := documents[ref := f];
    }

    /** The loop. With `n` the last round: attempt 0 runs without feedback, attempt j + 1 under the feedback
        on attempt j, `n` feedback documents are written, and only giving up leaves feedback in the state. */
    method DebateLoopCore() returns (a: Attempt, exhausted: bool)
      modifies this
      ensures var n := LastRound(attempts, 0);
              && a == attempts(n) && exhausted == GivesUp(attempts)
              && runs == old(runs) + [""] + Refs(task, n)
              && rounds == old(rounds) + Refs(task, n)
              && documents == Written(old(documents), attempts, task, n)
              && feedbackRef == (if exhausted then Ref(task, n) else "")
              && feedback == (if exhausted then RoundFeedback(attempts, n) else None)
              && exhaustion
                   == (if exhausted then Some(Exhaustion(Refs(task, n), LastFeedback(a, n))) else old(exhaustion))
    {
      hide Ref, FeedbackOf, LastFeedback, Written, Stops, Shown, ListedInOrder, Completed, Strip;
      var refs: seq<string> := [];
      var round: nat := 0;
      ghost var started := runs;
      ClearFeedback();
      WrittenNone(documents, attempts, task);
      while true
        invariant round <= MAX_ROUNDS && LastRound(attempts, 0) == LastRound(attempts, round)
        invariant refs == Refs(task, round) && rounds == old(rounds) + refs
        invariant round == 0 ==> feedbackRef == "" && feedback == None && runs == started
        invariant round > 0 ==>
            feedbackRef == Ref(task, round) && feedback == RoundFeedback(attempts, round)
                && runs == started + [""] + Refs(task, round - 1)
        invariant documents == Written(old(documents), attempts, task, round)
        invariant exhaustion == old(exhaustion)
        decreases MAX_ROUNDS - round
      {
        a := RunAttempt(round);
        assert runs == started + [""] + Refs(task, round);
        StopFacts(attempts, round);
        if a.gate.passed || !Completed(a.executed) {
          ClearFeedback();
          return a, false;
        }
        if round >= MAX_ROUNDS {
          exhaustion := Some(Exhaustion(refs, LastFeedback(a, round)));
          return a, true;
        }
        var next := BuildReviewFeedback(a.gate, a.executed.output, round + 1);
        if next.None? {
          ClearFeedback();
          return a, false;
        }
        var ref := StoreFeedback(next.value);
        WrittenNext(old(documents), attempts, task, round);
        refs := refs + [ref];
        feedbackRef, feedback := ref, next;
        rounds := rounds + [ref];
        round := round + 1;
      }
    }
  }

  lemma WrittenNone(before: map<string, Feedback>, attempts: nat -> Attempt, task: string)
    ensures Written(before, attempts, task, 0) == before
  {
  }

  lemma WrittenNext(before: map<string, Feedback>, attempts: nat -> Attempt, task: string, round: nat)
    ensures var f := RoundFeedback(attempts, round + 1);
            f.Some? ==>
              && f.value.round == round + 1
              && Written(before, attempts, task, round + 1)
                 == Written(before, attempts, task, round)[Ref(task, round + 1) := f.value]
  {
  }

  lemma StopFacts(attempts: nat -> Attempt, round: nat)
    ensures var a := attempts(round);
            Stops(a) <==> a.gate.passed || !Completed(a.executed) || RoundFeedback(attempts, round + 1).None?
  {
    hide Snippet, Suggestion;
  }

  // ---------------------------------------------------------------- runs under the real gate

  /** What an attempt of the orchestrator is made of: a spent budget, or an executor result that the review
      gate looks at with the card and the reviewers of that attempt. */
  datatype Try = BudgetSpent(costs: string) | Ran(executed: Executed, card: Card, reviews: string -> Review)

  ghost function AttemptOf(t: Try): Attempt {
    match t
    case BudgetSpent(costs) => Attempt(Executed("failed", "", NotJson),
        Gate(false, [Check("token_cost_budget", false, costs)]))
    case Ran(executed, card, reviews) => Attempt(executed, Reviewed(executed, card, reviews))
  }

  ghost predicate Real(attempts: nat -> Attempt, tries: nat -> Try) {
    forall k :: FromTry(attempts(k), tries(k))
  }

  ghost predicate FromTry(a: Attempt, t: Try) {
    a == AttemptOf(t)
  }

  /** Passed review, or did not complete. */
  predicate Settled(a: Attempt) {
    a.gate.passed || a.executed.status != "completed"
  }

  /** Under the real gate the loop never ends for want of feedback. */
  lemma StopsOnlySettled(t: Try)
    ensures Stops(AttemptOf(t)) <==> Settled(AttemptOf(t))
    ensures t.BudgetSpent? ==> Settled(AttemptOf(t)) && !AttemptOf(t).gate.passed
  {
    hide Reviewed, FeedbackOf;
    var a := AttemptOf(t);
    FeedbackExists(a.gate, a.executed.output, 1);
    if t.Ran? {
      FailedGateHasFailedCheck(t.executed, t.card, t.reviews);
    } else {
      assert !a.gate.checks[0].passed;
    }
  }

  lemma {:induction false} LastRoundFacts(attempts: nat -> Attempt, k: nat)
    requires k <= MAX_ROUNDS
    ensures var n := LastRound(attempts, k);
            k <= n <= MAX_ROUNDS && (n < MAX_ROUNDS ==> Stops(attempts(n))) && forall j :: k <= j < n ==>
                !Stops(attempts(j))
    decreases MAX_ROUNDS - k
  {
    hide Stops;
    if k < MAX_ROUNDS && !Stops(attempts(k)) { LastRoundFacts(attempts, k + 1); }
  }

  /** How a run ends: with the first attempt that passed review or did not complete, if one of the first
      four is such; otherwise it gives up after exactly four completed attempts that failed review. Every
      attempt before the last one completed, failed, and left feedback for the next. */
  lemma DebateEnds(attempts: nat -> Attempt, tries: nat -> Try)
    requires Real(attempts, tries)
    ensures var n := LastRound(attempts, 0);
            && n <= MAX_ROUNDS
            && (forall j :: 0 <= j < n ==> !Settled(attempts(j)) && RoundFeedback(attempts, j + 1).Some?)
            && (GivesUp(attempts) <==> forall j :: 0 <= j <= MAX_ROUNDS ==> !Settled(attempts(j)))
            && (GivesUp(attempts) ==> n == MAX_ROUNDS)
            && (!GivesUp(attempts) ==> Settled(attempts(n)))
  {
    hide FeedbackOf, Stops, AttemptOf;
    LastRoundFacts(attempts, 0);
    var n := LastRound(attempts, 0);
    forall j | 0 <= j <= n ensures Stops(attempts(j)) <==> Settled(attempts(j)) {
      assert FromTry(attempts(j), tries(j));
      StopsOnlySettled(tries(j));
    }
    forall j | 0 <= j < n ensures !Settled(attempts(j)) && RoundFeedback(attempts, j + 1).Some? {
      StopFacts(attempts, j);
    }
  }

  lemma RefsDiffer(task: string, i: nat, j: nat)
    requires Ref(task, i) == Ref(task, j)
    ensures i == j
  {
    hide Decimal;
    var head, tail := ".swl/tasks/" + task + "/artifacts/review_feedback_round_", ".json";
    var a, b := Decimal(i), Decimal(j);
    assert Ref(task, i) == head + a + tail && Ref(task, j) == head + b + tail;
    assert |a| == |b|;
    assert a == (head + a + tail)[|head|..|head| + |a|] && b == (head + b + tail)[|head|..|head| + |b|];
    DecimalInjective(i, j);
  }

  /** After the run, the document under each reference is the feedback of its own round. */
  lemma {:induction false} DocumentsOfRounds(before: map<string, Feedback>, attempts: nat -> Attempt, task: string,
                                             n: nat, j: nat)
    requires 1 <= j <= n && forall i :: 1 <= i <= n ==> RoundFeedback(attempts, i).Some?
    ensures var docs := Written(before, attempts, task, n);
            Ref(task, j) in docs && docs[Ref(task, j)] == RoundFeedback(attempts, j).value
  {
    hide RoundFeedback, Ref;
    if j < n {
      DocumentsOfRounds(before, attempts, task, n - 1, j);
      if Ref(task, j) == Ref(task, n) { RefsDiffer(task, j, n); }
    }
  }

  // ---------------------------------------------------------------- one task

  /** What is handed back for a task: giving up turns the completed result into a failed one. */
  datatype Final = Final(completed: bool, circuitBreaker: bool, reviewFeedback: string, gate: Gate)

  method RunSingleTaskWithDebate(d: Debate, ghost tries: nat -> Try) returns (f: Final, exhausted: bool)
    requires Real(d.attempts, tries)
    modifies d
    ensures exhausted <==> forall j :: 0 <= j <= MAX_ROUNDS ==> !Settled(d.attempts(j))
    ensures f.completed ==> f.gate.passed
    ensures exhausted ==>
        f.circuitBreaker && !f.completed && f.reviewFeedback == Ref(d.task, MAX_ROUNDS) && |d.runs| == |old(d.runs)| + 4
    ensures exhausted ==> f.gate == d.attempts(3).gate && d.attempts(3).executed.status == "completed"
    ensures !exhausted ==> d.feedbackRef == "" && d.feedback == None
    ensures !exhausted ==>
        var n := LastRound(d.attempts, 0);
        && f.reviewFeedback == (if n == 0 then "" else Ref(d.task, n)) && f.gate == d.attempts(n).gate
        && (f.completed <==> d.attempts(n).executed.status == "completed") && !f.circuitBreaker
  {
    hide Ref, Written, Real, LastRound, RoundFeedback, LastFeedback, GivesUp, FeedbackOf;
    DebateEnds(d.attempts, tries);
    var a: Attempt;
    a, exhausted := d.DebateLoopCore();
    if exhausted {
      f := Final(false, true, d.feedbackRef, a.gate);
    } else {
      f := Final(Completed(a.executed), false, d.runs[|d.runs| - 1], a.gate);
    }
  }
}
