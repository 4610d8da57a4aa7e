/** The review gate: local checks of an executor result, and a panel of reviewers under a consensus policy. */
module ReviewGate {
  import opened Text
  import opened Collections

  /** A named check of a gate with its explanation. */
  datatype Check = Check(name: string, passed: bool, detail: string)

  datatype Gate = Gate(passed: bool, checks: seq<Check>)

  /** A value of a JSON object; none stands for null. */
  type Json = Option<string>

  /** What an executor's output reads as. */
  datatype Payload = NotJson | NotObject | Object(fields: map<string, Json>)

  datatype Executed = Executed(status: string, output: string, payload: Payload)

  predicate Completed(e: Executed) { e.status == "completed" }

  datatype Const = Const(field: string, expected: Json)

  datatype Schema = Schema(required: Option<seq<string>>, consts: Option<seq<Const>>)

  datatype Card = Card(schema: Option<Schema>, reviewers: seq<string>, policy: string)

  // ---------------------------------------------------------------- the local checks

  /** The value under a field; an absent field reads as null. */
  function Get(fields: map<string, Json>, f: string): Json {
    if f in fields then fields[f] else None
  }

  /** The required names, trimmed, that the object does not have. */
  function Missing(fields: map<string, Json>, required: seq<string>): seq<string> {
    if required == [] then []
    else
      var n := |required| - 1;
      var name := Strip(required[n]);
      Missing(fields, required[..n]) + (if name != "" && name !in fields then [name] else [])
  }

  function Mismatched(fields: map<string, Json>, consts: seq<Const>): seq<string> {
    if consts == [] then []
    else
      var n := |consts| - 1;
      Mismatched(fields, consts[..n])
          + (if Get(fields, consts[n].field) != consts[n].expected then [consts[n].field] else [])
  }

  function CommaList(xs: seq<string>): string {
    if xs == [] then "" else if |xs| == 1 then xs[0] else CommaList(xs[..|xs| - 1]) + ", " + xs[|xs| - 1]
  }

  function Size<T>(xs: Option<seq<T>>): nat { if xs.Some? then |xs.value| else 0 }

  function SchemaDetail(schema: Schema): string {
    "validated structured output schema (required=" + Decimal(Size(schema.required)) + ", const="
        + Decimal(Size(schema.consts)) + ")"
  }

  /** The output is an object with every required field and every constant, or nothing is demanded. */
  ghost predicate SchemaMet(payload: Payload, schema: Schema) {
    || (schema.required.None? && schema.consts.None?)
    || (&& payload.Object?
        && (schema.required.Some? ==> forall f :: f in schema.required.value && Strip(f) != "" ==>
             Strip(f) in payload.fields)
        && (schema.consts.Some? ==> forall c :: c in schema.consts.value ==>
             if c.field in payload.fields then payload.fields[c.field] == c.expected else c.expected == None))
  }

  function SchemaCheck(payload: Payload, schema: Schema): Check {
    var name := "output_schema";
    if schema.required.None? && schema.consts.None? then Check(name, true, "schema validation skipped in v0")
    else if payload.NotJson? then Check(name, false, "executor output is not valid JSON")
    else if payload.NotObject? then
        Check(name, false, "executor output schema validation requires a JSON object payload")
    else
      var missing := if schema.required.Some? then Missing(payload.fields, schema.required.value) else [];
      var wrong := if schema.consts.Some? then Mismatched(payload.fields, schema.consts.value) else [];
      if missing != [] then Check(name, false, "missing required fields: " + CommaList(missing))
      else if wrong != [] then Check(name, false, "constant field mismatch: " + CommaList(wrong))
      else Check(name, true, SchemaDetail(schema))
  }

  lemma {:induction false} NoneMissing(fields: map<string, Json>, required: seq<string>)
    ensures Missing(fields, required) == [] <==> forall f :: f in required && !Blank(f) ==> Strip(f) in fields
  {
    hide Strip;
    if required != [] {
      var n := |required| - 1;
      NoneMissing(fields, required[..n]);
      assert required == required[..n] + [required[n]];
      assert required[n] in required && forall f :: f in required[..n] ==> f in required;
    }
  }

  lemma {:induction false} NoneMismatched(fields: map<string, Json>, consts: seq<Const>)
    ensures Mismatched(fields, consts) == [] <==> forall c :: c in consts ==> Get(fields, c.field) == c.expected
  {
    if consts != [] {
      var n := |consts| - 1;
      NoneMismatched(fields, consts[..n]);
      assert consts == consts[..n] + [consts[n]];
    }
  }

  /** The check passes exactly when the schema is met. */
  lemma SchemaCheckExactly(payload: Payload, schema: Schema)
    ensures SchemaCheck(payload, schema).passed <==> SchemaMet(payload, schema)
  {
    hide Strip, CommaList, SchemaDetail, Missing, Mismatched;
    if payload.Object? {
      if schema.required.Some? { NoneMissing(payload.fields, schema.required.value); }
      if schema.consts.Some? { NoneMismatched(payload.fields, schema.consts.value); }
    }
  }

  method MissingFields(fields: map<string, Json>, required: seq<string>) returns (missing: seq<string>)
    ensures missing == Missing(fields, required)
  {
    hide Strip;
    missing := [];
    assert required[..0] == [];
    for i := 0 to |required|
      invariant missing == Missing(fields, required[..i])
    {
      assert required[..i + 1][..i] == required[..i];
      var name := Strip(required[i]);
      if name != "" && name !in fields { missing := missing + [name]; }
    }
    assert required[..|required|] == required;
  }

  method MismatchedFields(fields: map<string, Json>, consts: seq<Const>) returns (wrong: seq<string>)
    ensures wrong == Mismatched(fields, consts)
  {
    wrong := [];
    assert consts[..0] == [];
    for i := 0 to |consts|
      invariant wrong == Mismatched(fields, consts[..i])
    {
      assert consts[..i + 1][..i] == consts[..i];
      if Get(fields, consts[i].field) != consts[i].expected { wrong := wrong + [consts[i].field]; }
    }
    assert consts[..|consts|] == consts;
  }

  method ValidateOutputSchema(executed: Executed, schema: Schema) returns (c: Check)
    ensures c == SchemaCheck(executed.payload, schema)
    ensures c.passed <==> SchemaMet(executed.payload, schema)
  {
    hide Strip, Missing, Mismatched, CommaList, SchemaDetail, SchemaMet;
    SchemaCheckExactly(executed.payload, schema);
    if schema.required.None? && schema.consts.None? {
      return Check("output_schema", true, "schema validation skipped in v0");
    }
    if executed.payload.NotJson? {
      return Check("output_schema", false, "executor output is not valid JSON");
    }
    if executed.payload.NotObject? {
      return Check("output_schema", false, "executor output schema validation requires a JSON object payload");
    }
    if schema.required.Some? {
      var missing := MissingFields(executed.payload.fields, schema.required.value);
      if missing != [] {
        return Check("output_schema", false, "missing required fields: " + CommaList(missing));
      }
    }
    if schema.consts.Some? {
      var wrong := MismatchedFields(executed.payload.fields, schema.consts.value);
      if wrong != [] {
        return Check("output_schema", false, "constant field mismatch: " + CommaList(wrong));
      }
    }
    c := Check("output_schema", true, SchemaDetail(schema));
  }

  function StatusCheck(executed: Executed): Check {
    Check("executor_status", Completed(executed), "executor reported status=" + executed.status)
  }

  function OutputCheck(executed: Executed): Check {
    var text := !Blank(executed.output);
    Check("output_non_empty", text, if text then "executor output is non-empty" else "executor output is empty")
  }

  function LocalChecks(executed: Executed, card: Card): seq<Check> {
    [StatusCheck(executed), OutputCheck(executed)]
    + (if card.schema.Some? then [SchemaCheck(executed.payload, card.schema.value)] else [])
  }

  ghost predicate LocallyFine(executed: Executed, card: Card) {
    executed.status == "completed" && Strip(executed.output) != ""
        && (card.schema.Some? ==> SchemaMet(executed.payload, card.schema.value))
  }

  predicate AllPassed(checks: seq<Check>) {
    forall i :: 0 <= i < |checks| ==> checks[i].passed
  }

  method ReviewExecutorOutput(executed: Executed, card: Card) returns (g: Gate)
    ensures g == Gate(LocallyFine(executed, card), LocalChecks(executed, card))
  {
    hide Strip, SchemaMet, SchemaCheck;
    var checks := [StatusCheck(executed), OutputCheck(executed)];
    assert checks[0].passed == Completed(executed) && checks[1].passed == !Blank(executed.output);
    if card.schema.Some? {
      var c := ValidateOutputSchema(executed, card.schema.value);
      checks := checks + [c];
      assert AllPassed(checks) <==> checks[0].passed && checks[1].passed && checks[2].passed;
    }
    assert checks == LocalChecks(executed, card);
    g := Gate(AllPassed(checks), checks);
  }

  // ---------------------------------------------------------------- the panel

  /** What asking one reviewer comes to; a reply carries its status and message. */
  datatype Review = Raised | UnknownRoute | TimedOut | NotCompleted | Unreadable | Replied(status: string,
      message: string)

  predicate Approves(r: Review) {
    r.Replied? && Lower(Strip(r.status)) == "passed"
  }

  function Message(route: string, r: Review): string {
    var who := "Reviewer route '" + route + "'";
    match r
    case Raised => who + " raised before returning a usable review."
    case UnknownRoute => "Unknown reviewer route: " + route
    case TimedOut => who + " timed out before returning a usable review."
    case NotCompleted => who + " failed before returning a usable review."
    case Unreadable => who + " returned an unreadable review payload."
    case Replied(status, message) =>
      var word := Lower(Strip(status));
      if word != "passed" && word != "failed" then who + " returned an invalid review status."
      else if Blank(message) then who + " returned " + word + "."
      else Strip(message)
  }

  function ReviewerCheck(route: string, r: Review): Check {
    Check("reviewer_route:" + route, Approves(r), Message(route, r))
  }

  predicate IsVeto(policy: string) {
    Lower(Strip(policy)) == "veto"
  }

  /** The reviewer routes, trimmed, each once, in order of first occurrence. */
  function ReviewerRoutes(raw: seq<string>): (routes: seq<string>)
    ensures Distinct(routes)
    ensures forall x :: x in routes <==> x != "" && exists i :: 0 <= i < |raw| && Strip(raw[i]) == x
  {
    if raw == [] then []
    else
      var n := |raw| - 1;
      var routes, x := ReviewerRoutes(raw[..n]), Strip(raw[n]);
      assert forall i :: 0 <= i < n ==> raw[..n][i] == raw[i];
      if x == "" || x in routes then routes else routes + [x]
  }

  method NormalizedReviewerRoutes(raw: seq<string>) returns (routes: seq<string>)
    ensures routes == ReviewerRoutes(raw)
  {
    hide Strip;
    routes := [];
    var seen: set<string> := {};
    assert raw[..0] == [];
    for i := 0 to |raw|
      invariant routes == ReviewerRoutes(raw[..i]) && forall x :: x in seen <==> x in routes
    {
      assert raw[..i + 1][..i] == raw[..i];
      var x := Strip(raw[i]);
      if x == "" || x in seen {
        continue;
      }
      routes, seen := routes + [x], seen + {x};
    }
    assert raw[..|raw|] == raw;
  }

  function ReviewerChecks(routes: seq<string>, reviews: string -> Review): (cs: seq<Check>)
    ensures |cs| == |routes| && forall i :: 0 <= i < |routes| ==> cs[i] == ReviewerCheck(routes[i], reviews(routes[i]))
  {
    seq(|routes|, i requires 0 <= i < |routes| => ReviewerCheck(routes[i], reviews(routes[i])))
  }

  function Approvals(routes: seq<string>, reviews: string -> Review): nat {
    if routes == [] then 0
    else Approvals(routes[..|routes| - 1], reviews) + (if Approves(reviews(routes[|routes| - 1])) then 1 else 0)
  }

  predicate Agreed(routes: seq<string>, reviews: string -> Review, policy: string)
    requires routes != []
  {
    if IsVeto(policy) then Approves(reviews(routes[0])) else Approvals(routes, reviews) >= |routes| / 2 + 1
  }

  const Baseline :=
    Check("baseline_review_gate", true, "Local structural review gate checks passed before consensus review.")

  function ConsensusCheck(routes: seq<string>, passed: nat, policy: string, agreed: bool): Check
    requires routes != []
  {
    var count := Decimal(passed) + "/" + Decimal(|routes|);
    Check("consensus_policy", agreed,
          if IsVeto(policy) then
            "veto route '" + routes[0] + "' " + (if agreed then "approved" else "rejected")
                + " the output; reference reviewers passed=" + count
          else "reviewer passes=" + count + "; required=" + Decimal(|routes| / 2 + 1))
  }

  /** The gate's verdict and checks. */
  ghost function Reviewed(executed: Executed, card: Card, reviews: string -> Review): Gate {
    var routes := ReviewerRoutes(card.reviewers);
    if routes == [] || !LocallyFine(executed, card) then Gate(LocallyFine(executed, card), LocalChecks(executed, card))
    else
      var agreed := Agreed(routes, reviews, card.policy);
      Gate(agreed,
          [Baseline] + ReviewerChecks(routes, reviews)
              + [ConsensusCheck(routes, Approvals(routes, reviews), card.policy, agreed)])
  }

  /** The check of every reviewer, in order, and the number of approvals. */
  method CollectReviews(routes: seq<string>, reviews: string -> Review) returns (checks: seq<Check>, passed: nat)
    ensures checks == ReviewerChecks(routes, reviews) && passed == Approvals(routes, reviews)
  {
    hide Approves, Message;
    checks, passed := [], 0;
    assert routes[..0] == [];
    for i := 0 to |routes|
      invariant |checks| == i && forall j :: 0 <= j < i ==> checks[j] == ReviewerCheck(routes[j], reviews(routes[j]))
      invariant passed == Approvals(routes[..i], reviews)
    {
      assert routes[..i + 1][..i] == routes[..i];
      var check := ReviewerCheck(routes[i], reviews(routes[i]));
      checks := checks + [check];
      if check.passed { passed := passed + 1; }
    }
    assert routes[..|routes|] == routes;
  }

  method RunReviewGate(executed: Executed, card: Card, reviews: string -> Review) returns (g: Gate)
    ensures g == Reviewed(executed, card, reviews)
  {
    hide Strip, SchemaMet, SchemaCheck, ReviewerRoutes, Approves, IsVeto, Message, ConsensusCheck, Baseline;
    hide ReviewerChecks, Approvals, LocallyFine, LocalChecks;
    var routes := NormalizedReviewerRoutes(card.reviewers);
    g := ReviewExecutorOutput(executed, card);
    if routes == [] || !g.passed {
      return;
    }
    var checks, passed := CollectReviews(routes, reviews);
    var agreed := if IsVeto(card.policy) then Approves(reviews(routes[0])) else passed >= |routes| / 2 + 1;
    g := Gate(agreed, [Baseline] + checks + [ConsensusCheck(routes, passed, card.policy, agreed)]);
  }

  // ---------------------------------------------------------------- what the gate guarantees

  /** A failed gate always carries a failed check. */
  lemma FailedGateHasFailedCheck(executed: Executed, card: Card, reviews: string -> Review)
    ensures var g := Reviewed(executed, card, reviews); !g.passed ==>
        exists i :: 0 <= i < |g.checks| && !g.checks[i].passed
  {
    hide Strip, SchemaMet, SchemaCheck, ReviewerRoutes, Approves, IsVeto, Approvals, Message;
    var g := Reviewed(executed, card, reviews);
    if card.schema.Some? { SchemaCheckExactly(executed.payload, card.schema.value); }
    if !LocallyFine(executed, card) {
      assert !g.checks[0].passed || !g.checks[1].passed || !g.checks[2].passed;
    } else {
      assert !g.passed ==> !g.checks[|g.checks| - 1].passed;
    }
  }

  /** The routes that have a vote: blank entries have none and a repeated one has a single vote. */
  ghost function Voters(raw: seq<string>): set<string> {
    set i | 0 <= i < |raw| && !Blank(raw[i]) :: Strip(raw[i])
  }

  /** The routes that approve. */
  ghost function Approving(routes: seq<string>, reviews: string -> Review): set<string> {
    set x | x in routes && Approves(reviews(x))
  }

  lemma ApprovingNext(routes: seq<string>, reviews: string -> Review)
    requires Distinct(routes) && routes != []
    ensures var n := |routes| - 1;
            var before := Approving(routes[..n], reviews);
            && routes[n] !in before
            && Approving(routes, reviews) == if Approves(reviews(routes[n])) then before + {routes[n]} else before
  {
    hide Approves;
    assert routes == routes[..|routes| - 1] + [routes[|routes| - 1]];
  }

  lemma {:induction false} ApprovalsCount(routes: seq<string>, reviews: string -> Review)
    requires Distinct(routes)
    ensures Approvals(routes, reviews) == |Approving(routes, reviews)|
  {
    hide Approves, Approving;
    if routes != [] {
      ApprovalsCount(routes[..|routes| - 1], reviews);
      ApprovingNext(routes, reviews);
    } else {
      NoneApproving(reviews);
    }
  }

  lemma NoneApproving(reviews: string -> Review)
    ensures Approving([], reviews) == {}
  {
  }

  lemma {:induction false} DistinctCount(s: seq<string>)
    requires Distinct(s)
    ensures |set x | x in s| == |s|
  {
    if s != [] {
      var n := |s| - 1;
      DistinctCount(s[..n]);
      assert s == s[..n] + [s[n]];
      assert (set x | x in s) == (set x | x in s[..n]) + {s[n]};
    }
  }

  /** Under the majority policy the gate passes exactly when the result is locally fine and more than half of the
      voters reply with the status `passed`: order and repetition in the reviewer list do not matter. */
  lemma MajorityBySet(executed: Executed, card: Card, reviews: string -> Review)
    requires Lower(Strip(card.policy)) != "veto" && Voters(card.reviewers) != {}
    ensures var voters := Voters(card.reviewers);
            var yes := set x | x in voters && reviews(x).Replied? && Lower(Strip(reviews(x).status)) == "passed";
            Reviewed(executed, card, reviews).passed <==> LocallyFine(executed, card) && 2 * |yes| > |voters|
  {
    hide Strip, SchemaMet, ReviewerRoutes, Approvals, LocallyFine, Lower, Approves, ConsensusCheck, LocalChecks;
    var routes := ReviewerRoutes(card.reviewers);
    var voters := Voters(card.reviewers);
    assert forall x :: x in voters <==> x in routes;
    assert voters == set x | x in routes;
    DistinctCount(routes);
    ApprovalsCount(routes, reviews);
    ApprovingVoters(routes, reviews, voters);
  }

  lemma ApprovingVoters(routes: seq<string>, reviews: string -> Review, voters: set<string>)
    requires forall x :: x in voters <==> x in routes
    ensures Approving(routes, reviews) ==
        set x | x in voters && reviews(x).Replied? && Lower(Strip(reviews(x).status)) == "passed"
  {
    hide Strip, Lower;
  }

  /** The first reviewer entry that is not blank. */
  lemma {:induction false} FirstReviewer(raw: seq<string>, i: nat)
    requires i < |raw| && !Blank(raw[i]) && forall j :: 0 <= j < i ==> Blank(raw[j])
    ensures var routes := ReviewerRoutes(raw); routes != [] && routes[0] == Strip(raw[i])
  {
    hide Strip;
    var n := |raw| - 1;
    if i < n {
      FirstReviewer(raw[..n], i);
    } else {
      NoReviewers(raw[..n]);
    }
  }

  lemma {:induction false} NoReviewers(raw: seq<string>)
    requires forall j :: 0 <= j < |raw| ==> Blank(raw[j])
    ensures ReviewerRoutes(raw) == []
  {
    hide Strip;
    if raw != [] { NoReviewers(raw[..|raw| - 1]); }
  }

  /** Under the veto policy the first non-blank entry alone decides; the others are for reference. */
  lemma VetoByFirst(executed: Executed, card: Card, reviews: string -> Review, i: nat)
    requires Lower(Strip(card.policy)) == "veto"
    requires i < |card.reviewers| && !Blank(card.reviewers[i]) && forall j :: 0 <= j < i ==> Blank(card.reviewers[j])
    ensures var r := reviews(Strip(card.reviewers[i]));
            Reviewed(executed, card, reviews).passed
            <==> LocallyFine(executed, card) && r.Replied? && Lower(Strip(r.status)) == "passed"
  {
    hide Strip, SchemaMet, ReviewerRoutes, LocallyFine, Lower;
    FirstReviewer(card.reviewers, i);
  }

  /** The reviews that are no approval: none of the five without a reply, nor a reply of `failed` or of any other
      word than `passed`. When all voters give such a review the gate fails, whatever the policy. */
  lemma RefusalsFail(executed: Executed, card: Card, reviews: string -> Review)
    requires Voters(card.reviewers) != {}
    requires forall x :: x in Voters(card.reviewers) ==>
        var r := reviews(x);
        || r in {Raised, UnknownRoute, TimedOut, NotCompleted, Unreadable}
        || (r.Replied? && (Lower(Strip(r.status)) == "failed" || Lower(Strip(r.status)) != "passed"))
    ensures !Reviewed(executed, card, reviews).passed
  {
    hide Strip, SchemaMet, ReviewerRoutes, LocallyFine, Lower, Reviewed;
    if Lower(Strip(card.policy)) == "veto" {
      var i := FirstVoter(card.reviewers);
      VetoByFirst(executed, card, reviews, i);
    } else {
      MajorityBySet(executed, card, reviews);
      var voters := Voters(card.reviewers);
      assert (set x | x in voters && reviews(x).Replied? && Lower(Strip(reviews(x).status)) == "passed") == {};
    }
  }

  lemma {:induction false} FirstVoter(raw: seq<string>) returns (i: nat)
    requires Voters(raw) != {}
    ensures i < |raw| && !Blank(raw[i]) && (forall j :: 0 <= j < i ==> Blank(raw[j])) && Strip(raw[i]) in Voters(raw)
  {
    hide Strip;
    i := 0;
    var x :| x in Voters(raw);
    while i < |raw| && Blank(raw[i])
      invariant i <= |raw| && forall j :: 0 <= j < i ==> Blank(raw[j])
    {
      i := i + 1;
    }
  }

  /** Reviewers are listed in the order of their first entry. */
  lemma ReviewersInOrder(raw: seq<string>, x: string)
    ensures var routes := ReviewerRoutes(raw);
            ReviewerRoutes(raw + [x]) == if Strip(x) == "" || Strip(x) in routes then routes else routes + [Strip(x)]
  {
    hide Strip;
    assert (raw + [x])[..|raw|] == raw;
  }

  // ---------------------------------------------------------------- what the checks say

  lemma ListsInOrder(fields: map<string, Json>, names: seq<string>, f: string, consts: seq<Const>, c: Const)
    ensures Missing(fields, names + [f])
         == Missing(fields, names) + if Strip(f) != "" && Strip(f) !in fields then [Strip(f)] else []
    ensures Mismatched(fields, consts + [c]) == Mismatched(fields, consts)
          + if (if c.field in fields then fields[c.field] else None) == c.expected then [] else [c.field]
  {
    hide Strip;
    assert (names + [f])[..|names|] == names && (consts + [c])[..|consts|] == consts;
  }

  lemma CommaListOfTwo(a: string, b: string)
    ensures CommaList([a, b]) == a + ", " + b
  {
    assert [a, b][..1] == [a];
  }

  /** The wording of a failed and of a passed schema check. */
  lemma SchemaWording(fields: map<string, Json>, schema: Schema, a: string, b: string)
    requires schema.required.Some? && schema.consts.Some?
    ensures var names, wrong := Missing(fields, schema.required.value), Mismatched(fields, schema.consts.value);
            var check := SchemaCheck(Object(fields), schema);
            && check.name == "output_schema" && (check.passed <==> names + wrong == [])
            && (names == [a, b] ==> check.detail == "missing required fields: " + (a + ", " + b))
            && (names == [] && wrong == [a, b] ==> check.detail == "constant field mismatch: " + (a + ", " + b))
            && (check.passed && |schema.required.value| == 2 && |schema.consts.value| == 1 ==>
                  check.detail == "validated structured output schema (required=2, const=1)")
  {
    hide Missing, Mismatched, Strip, CommaList;
    CommaListOfTwo(a, b);
    assert Decimal(2) == "2" && Decimal(1) == "1";
    hide Decimal;
    assert "validated structured output schema (required=" + "2" + ", const=" + "1" + ")"
         == "validated structured output schema (required=2, const=1)";
  }

  /** The checks of a reviewer without a reply. */
  lemma NoReplyWording(who: string)
    requires who == "Reviewer route 'r'"
    ensures forall r :: ReviewerCheck("r", r).name == "reviewer_route:r"
    ensures ReviewerCheck("r", Raised).detail == who + " raised before returning a usable review."
    ensures ReviewerCheck("r", UnknownRoute).detail == "Unknown reviewer route: r"
    ensures ReviewerCheck("r", TimedOut).detail == who + " timed out before returning a usable review."
    ensures ReviewerCheck("r", NotCompleted).detail == who + " failed before returning a usable review."
    ensures ReviewerCheck("r", Unreadable).detail == who + " returned an unreadable review payload."
  {
    hide Strip, Lower;
    assert "Reviewer route '" + "r" + "'" == who;
  }

  /** The message of a reply: its own, or one that names the verdict; a word that is no verdict is invalid. */
  lemma ReplyWording(route: string, status: string, message: string)
    ensures var who, word := "Reviewer route '" + route + "'", Lower(Strip(status));
            var detail := ReviewerCheck(route, Replied(status, message)).detail;
            && (word in {"passed", "failed"} && Strip(message) != "" ==> detail == Strip(message))
            && (word in {"passed", "failed"} && Strip(message) == "" ==> detail == who + " returned " + word + ".")
            && (word !in {"passed", "failed"} ==> detail == who + " returned an invalid review status.")
  {
    hide Strip, Lower;
  }

  /** The verdict with the number of approvals and, under the majority policy, the least number that is more than
      half. */
  lemma ConsensusWording(routes: seq<string>, passed: nat, policy: string, agreed: bool, required: nat)
    requires routes != [] && 2 * (required - 1) <= |routes| < 2 * required
    ensures var check := ConsensusCheck(routes, passed, policy, agreed);
            var count := Decimal(passed) + "/" + Decimal(|routes|);
            && check.name == "consensus_policy" && check.passed == agreed
            && (Lower(Strip(policy)) != "veto" ==>
                 check.detail == "reviewer passes=" + count + "; required=" + Decimal(required))
            && (Lower(Strip(policy)) == "veto" ==>
                 check.detail == "veto route '" + routes[0] + "' " + (if agreed then "approved" else "rejected")
                                 + " the output; reference reviewers passed=" + count)
  {
    hide Strip, Lower, Decimal;
    assert required == |routes| / 2 + 1;
  }

  lemma BaselineTells()
    ensures Baseline.name == "baseline_review_gate" && Baseline.passed
    ensures Baseline.detail == "Local structural review gate checks passed before consensus review."
  {
  }

  /** The checks of a panel: the baseline, one per reviewer in order, and the verdict. */
  lemma ConsensusTells(executed: Executed, card: Card, reviews: string -> Review)
    requires LocallyFine(executed, card) && ReviewerRoutes(card.reviewers) != []
    ensures var g, routes := Reviewed(executed, card, reviews), ReviewerRoutes(card.reviewers);
            var n := |routes|;
            && |g.checks| == n + 2 && g.checks[0] == Baseline
            && (forall i :: 0 <= i < n ==> g.checks[i + 1] == ReviewerCheck(routes[i], reviews(routes[i])))
            && g.checks[n + 1] == ConsensusCheck(routes, Approvals(routes, reviews), card.policy, g.passed)
  {
    hide LocallyFine, LocalChecks, ReviewerRoutes, ReviewerCheck, Agreed, Approvals, ConsensusCheck, Baseline;
    var routes := ReviewerRoutes(card.reviewers);
    var agreed := Agreed(routes, reviews, card.policy);
    var cs := ReviewerChecks(routes, reviews);
    Enclosed(Baseline, cs, ConsensusCheck(routes, Approvals(routes, reviews), card.policy, agreed));
    hide ReviewerChecks;
  }

  lemma Enclosed(a: Check, cs: seq<Check>, z: Check)
    ensures var s := [a] + cs + [z];
            |s| == |cs| + 2 && s[0] == a && s[|cs| + 1] == z && forall i :: 0 <= i < |cs| ==> s[i + 1] == cs[i]
  {
  }

  /** What the two local checks are called and say. */
  lemma LocalWording(executed: Executed, card: Card)
    ensures var cs := LocalChecks(executed, card);
            && |cs| >= 2 && cs[0].name == "executor_status" && cs[1].name == "output_non_empty"
            && cs[0].passed == (executed.status == "completed") && cs[1].passed == (Strip(executed.output) != "")
            && cs[0].detail == "executor reported status=" + executed.status
            && cs[1].detail == (if cs[1].passed then "executor output is non-empty" else "executor output is empty")
            && (card.schema.Some? ==> cs[2..] == [SchemaCheck(executed.payload, card.schema.value)])
            && (card.schema.None? ==> |cs| == 2)
  {
    hide Strip, SchemaCheck;
  }
}
