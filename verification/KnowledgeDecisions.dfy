/** Decisions on knowledge objects: promotions and rejections edit one object and are logged. */
module KnowledgeDecisions {
  import opened Text
  import opened Collections

  /** A knowledge object; a missing field is its default. */
  datatype KnowledgeObject = KnowledgeObject(
    id: string, stage: string, evidence: string, eligible: bool, scope: string, intent: string, text: string)

  /** The fields a decision record keeps track of. */
  datatype State = State(stage: string, evidence: string, eligible: bool, scope: string, intent: string)

  function Summary(o: KnowledgeObject): State { State(o.stage, o.evidence, o.eligible, o.scope, o.intent) }

  datatype Decision = Decision(id: string, kind: string, target: string, authority: string)

  datatype Record = Record(id: string, kind: string, target: string, authority: string, previous: State, next: State)

  datatype Outcome = Applied(objects: seq<KnowledgeObject>, record: Record) | Refused | Denied

  predicate MayPromote(authority: string) {
    authority == "canonical-promotion" || authority == "operator-gated"
  }

  function FirstWithId(os: seq<KnowledgeObject>, id: string): (i: nat)
    ensures i <= |os| && (forall j :: 0 <= j < i ==> os[j].id != id) && (i < |os| ==> os[i].id == id)
  {
    if os == [] || os[0].id == id then 0 else FirstWithId(os[1..], id) + 1
  }

  // ---------------------------------------------------------------- one decision

  datatype Edit = Changed(edited: KnowledgeObject) | NotAllowed | NoAuthority

  function Edited(o: KnowledgeObject, d: Decision): Edit {
    if d.kind == "promote" then
      if o.stage != "verified" || o.evidence != "artifact_backed" then NotAllowed
      else if d.target == "reuse" then Changed(o.(eligible := true, scope := "retrieval_candidate"))
      else if d.target == "canonical" then
        if !MayPromote(Strip(d.authority)) then NoAuthority
        else Changed(o.(stage := "canonical", intent := if o.intent == "none" then "promote" else o.intent))
      else NotAllowed
    else if d.kind == "reject" then
      if d.target == "reuse" then Changed(o.(eligible := false, scope := "task_only"))
      else if d.target == "canonical" && o.stage != "canonical" then Changed(o.(intent := "none"))
      else NotAllowed
    else NotAllowed
  }

  function Decided(os: seq<KnowledgeObject>, d: Decision): Outcome {
    var i := FirstWithId(os, d.id);
    if i == |os| then Refused
    else
      match Edited(os[i], d)
      case NotAllowed => Refused
      case NoAuthority => Denied
      case Changed(o) => Applied(os[i := o],
          Record(d.id, d.kind, d.target, Strip(d.authority), Summary(os[i]), Summary(o)))
  }

  method ApplyKnowledgeDecision(os: seq<KnowledgeObject>, d: Decision) returns (o: Outcome)
    ensures o == Decided(os, d)
  {
    hide Strip;
    var updated := os;
    var selected := 0;
    while selected < |updated| && updated[selected].id != d.id
      invariant selected <= |updated| && forall j :: 0 <= j < selected ==> updated[j].id != d.id
    {
      selected := selected + 1;
    }
    if selected == |updated| {
      return Refused;
    }
    var item := updated[selected];
    var previous := Summary(item);
    var authority := Strip(d.authority);
    if d.kind == "promote" {
      if item.stage != "verified" || item.evidence != "artifact_backed" {
        return Refused;
      }
      if d.target == "reuse" {
        item := item.(eligible := true, scope := "retrieval_candidate");
      } else if d.target == "canonical" {
        if !MayPromote(authority) {
          return Denied;
        }
        item := item.(stage := "canonical");
        if item.intent == "none" { item := item.(intent := "promote"); }
      } else {
        return Refused;
      }
    } else if d.kind == "reject" {
      if d.target == "reuse" {
        item := item.(eligible := false, scope := "task_only");
      } else if d.target == "canonical" {
        if item.stage == "canonical" {
          return Refused;
        }
        item := item.(intent := "none");
      } else {
        return Refused;
      }
    } else {
      return Refused;
    }
    updated := updated[selected := item];
    o := Applied(updated, Record(d.id, d.kind, d.target, authority, previous, Summary(item)));
  }

  /** The state holds these five fields of the object. */
  ghost predicate StateOf(s: State, o: KnowledgeObject) {
    s.stage == o.stage && s.evidence == o.evidence && s.eligible == o.eligible && s.scope == o.scope
        && s.intent == o.intent
  }

  /** Object `k` becomes `o`, and the record tells the decision and the state before and after it. */
  ghost predicate Becomes(os: seq<KnowledgeObject>, k: nat, d: Decision, o: KnowledgeObject, out: Outcome)
    requires k < |os|
  {
    && out.Applied? && out.objects == os[k := o]
    && out.record.id == d.id && out.record.kind == d.kind && out.record.target == d.target
    && out.record.authority == Strip(d.authority)
    && StateOf(out.record.previous, os[k]) && StateOf(out.record.next, o)
  }

  /** The table of decisions: what each kind does to the first object with the id, and when it is refused or
      denied. */
  lemma DecisionTells(os: seq<KnowledgeObject>, d: Decision, k: nat)
    requires k < |os| && os[k].id == d.id && forall j :: 0 <= j < k ==> os[j].id != d.id
    ensures var o, out := os[k], Decided(os, d);
            var backed := o.stage == "verified" && o.evidence == "artifact_backed";
            var gated := Strip(d.authority) in {"canonical-promotion", "operator-gated"};
            && (d.kind !in {"promote", "reject"} || d.target !in {"reuse", "canonical"} ==> out == Refused)
            && (d.kind == "promote" && !backed ==> out == Refused)
            && (d.kind == "promote" && d.target == "reuse" && backed ==>
                 Becomes(os, k, d, o.(eligible := true, scope := "retrieval_candidate"), out))
            && (d.kind == "promote" && d.target == "canonical" && backed && !gated ==> out == Denied)
            && (d.kind == "promote" && d.target == "canonical" && backed && gated && o.intent == "none" ==>
                 Becomes(os, k, d, o.(stage := "canonical", intent := "promote"), out))
            && (d.kind == "promote" && d.target == "canonical" && backed && gated && o.intent != "none" ==>
                 Becomes(os, k, d, o.(stage := "canonical"), out))
            && (d.kind == "reject" && d.target == "reuse" ==>
                 Becomes(os, k, d, o.(eligible := false, scope := "task_only"), out))
            && (d.kind == "reject" && d.target == "canonical" && o.stage == "canonical" ==> out == Refused)
            && (d.kind == "reject" && d.target == "canonical" && o.stage != "canonical" ==>
                 Becomes(os, k, d, o.(intent := "none"), out))
  {
    hide Strip, FirstWithId;
    assert FirstWithId(os, d.id) == k;
  }

  /** A decision on an id that no object has is refused. */
  lemma UnknownIdRefused(os: seq<KnowledgeObject>, d: Decision)
    requires forall j :: 0 <= j < |os| ==> os[j].id != d.id
    ensures Decided(os, d) == Refused
  {
    hide FirstWithId;
  }

  // ---------------------------------------------------------------- sequences of decisions

  datatype Store = Store(objects: seq<KnowledgeObject>, log: seq<Record>)

  /** A decision that is refused or denied changes nothing and logs nothing. */
  function After(s: Store, d: Decision): Store {
    match Decided(s.objects, d)
    case Applied(os, r) => Store(os, s.log + [r])
    case _ => s
  }

  function Run(os: seq<KnowledgeObject>, ds: seq<Decision>): Store {
    if ds == [] then Store(os, []) else After(Run(os, ds[..|ds| - 1]), ds[|ds| - 1])
  }

  /** The last state the log gives an object, `initial` if it has no record. */
  function StateAfter(log: seq<Record>, id: string, initial: State): State {
    if log == [] then initial
    else if log[|log| - 1].id == id then log[|log| - 1].next
    else StateAfter(log[..|log| - 1], id, initial)
  }

  /** Each record of the object starts in the state the one before it ended in. */
  ghost predicate Chained(log: seq<Record>, id: string, initial: State) {
    forall i :: 0 <= i < |log| && log[i].id == id ==> log[i].previous == StateAfter(log[..i], id, initial)
  }

  /** A decision keeps every id, edits at most the first object with its id, and leaves evidence and text. */
  lemma OneDecision(s: Store, d: Decision)
    ensures var t := After(s, d);
            && |t.objects| == |s.objects|
            && (forall i :: 0 <= i < |s.objects| ==>
                 t.objects[i].id == s.objects[i].id && t.objects[i].evidence == s.objects[i].evidence
                     && t.objects[i].text == s.objects[i].text)
            && (forall i :: 0 <= i < |s.objects| && i != FirstWithId(s.objects, d.id) ==> t.objects[i] == s.objects[i])
  {
    hide Strip;
  }

  lemma SameFirst(a: seq<KnowledgeObject>, b: seq<KnowledgeObject>, id: string)
    requires |a| == |b| && forall i :: 0 <= i < |a| ==> a[i].id == b[i].id
    ensures FirstWithId(a, id) == FirstWithId(b, id)
  {
    hide FirstWithId;
    var i, j := FirstWithId(a, id), FirstWithId(b, id);
  }

  lemma {:induction false} RunKeeps(os: seq<KnowledgeObject>, ds: seq<Decision>)
    ensures var t := Run(os, ds).objects;
            |t| == |os| && forall i :: 0 <= i < |os| ==>
                t[i].id == os[i].id && t[i].evidence == os[i].evidence && t[i].text == os[i].text
  {
    hide After;
    if ds != [] {
      var n := |ds| - 1;
      RunKeeps(os, ds[..n]);
      OneDecision(Run(os, ds[..n]), ds[n]);
    }
  }

  /** What an object looks like after the records about it. */
  ghost predicate Tracks(s: Store, id: string, k: nat, initial: State) {
    k < |s.objects| && Chained(s.log, id, initial) && Summary(s.objects[k]) == StateAfter(s.log, id, initial)
  }

  lemma StepTracks(s: Store, d: Decision, id: string, k: nat, initial: State)
    requires Tracks(s, id, k, initial) && FirstWithId(s.objects, id) == k
    ensures Tracks(After(s, d), id, k, initial)
  {
    hide Strip, FirstWithId, Edited;
    match Decided(s.objects, d)
    case Refused =>
    case Denied =>
    case Applied(os, r) =>
      var log := s.log + [r];
      assert log[..|s.log|] == s.log;
      forall i | 0 <= i < |log| && log[i].id == id ensures log[i].previous == StateAfter(log[..i], id, initial) {
        if i < |s.log| { assert log[..i] == s.log[..i] && log[i] == s.log[i]; }
      }
  }

  /** Over any sequence of decisions: the records of an object chain, from its first state on, and the last
      one ends in the state that the object, the first one with this id, is in. */
  lemma {:induction false} LogChains(os: seq<KnowledgeObject>, ds: seq<Decision>, id: string)
    requires FirstWithId(os, id) < |os|
    ensures var k := FirstWithId(os, id);
            Tracks(Run(os, ds), id, k, Summary(os[k]))
  {
    hide After, FirstWithId, Tracks;
    var k := FirstWithId(os, id);
    if ds == [] {
      NothingLogged(os, id, k);
    } else {
      var n := |ds| - 1;
      LogChains(os, ds[..n], id);
      RunKeeps(os, ds[..n]);
      SameFirst(os, Run(os, ds[..n]).objects, id);
      StepTracks(Run(os, ds[..n]), ds[n], id, k, Summary(os[k]));
    }
  }

  lemma NothingLogged(os: seq<KnowledgeObject>, id: string, k: nat)
    requires k < |os|
    ensures Tracks(Store(os, []), id, k, Summary(os[k]))
  {
  }

  /** The log holds an authorised canonical promotion of the object. */
  ghost predicate Promoted(log: seq<Record>, id: string) {
    exists i :: 0 <= i < |log| && log[i].id == id && log[i].kind == "promote" && log[i].target == "canonical"
        && MayPromote(log[i].authority)
  }

  lemma PromotedStays(log: seq<Record>, r: Record, id: string)
    ensures Promoted(log, id) ==> Promoted(log + [r], id)
    ensures r.id == id && r.kind == "promote" && r.target == "canonical" && MayPromote(r.authority) ==>
        Promoted(log + [r], id)
  {
    if Promoted(log, id) {
      var i :| 0 <= i < |log| && log[i].id == id && log[i].kind == "promote" && log[i].target == "canonical"
               && MayPromote(log[i].authority);
      assert (log + [r])[i] == log[i];
    }
    assert (log + [r])[|log|] == r;
  }

  /** One decision never takes an object out of the canonical stage, and brings it there only from the
      verified stage, backed by an artifact, and under a logged authority. */
  lemma StepCanonical(s: Store, d: Decision, i: nat)
    requires i < |s.objects|
    ensures var t := After(s, d);
            && |t.objects| == |s.objects|
            && (s.objects[i].stage == "canonical" ==>
                 t.objects[i].stage == "canonical" && t.objects[i].intent == s.objects[i].intent)
            && (t.objects[i].stage != s.objects[i].stage ==>
                  && t.objects[i].stage == "canonical" && s.objects[i].stage == "verified"
                       && s.objects[i].evidence == "artifact_backed"
                  && Promoted(t.log, s.objects[i].id))
            && (Promoted(s.log, s.objects[i].id) ==> Promoted(t.log, s.objects[i].id))
  {
    hide Strip, FirstWithId, Promoted, MayPromote;
    match Decided(s.objects, d)
    case Refused =>
    case Denied =>
    case Applied(os, r) => PromotedStays(s.log, r, s.objects[i].id);
  }

  /** Over any sequence of decisions: canonical is absorbing, and an object that became canonical was
      verified and artifact-backed at the start, and was promoted under an allowed authority. */
  lemma {:induction false} CanonicalOverRun(os: seq<KnowledgeObject>, ds: seq<Decision>, i: nat)
    requires i < |os|
    ensures var t := Run(os, ds);
            && |t.objects| == |os| && t.objects[i].id == os[i].id
            && (os[i].stage == "canonical" ==> t.objects[i].stage == "canonical" && t.objects[i].intent == os[i].intent)
            && (t.objects[i].stage != os[i].stage ==>
                  && t.objects[i].stage == "canonical" && os[i].stage == "verified"
                       && os[i].evidence == "artifact_backed"
                  && Promoted(t.log, os[i].id))
  {
    hide After, Promoted;
    RunKeeps(os, ds);
    if ds != [] {
      var n := |ds| - 1;
      CanonicalOverRun(os, ds[..n], i);
      RunKeeps(os, ds[..n]);
      StepCanonical(Run(os, ds[..n]), ds[n], i);
    }
  }

  // ---------------------------------------------------------------- reading the log back

  function LatestOf(log: seq<Record>): map<string, Record> {
    if log == [] then map[]
    else
      var r := log[|log| - 1];
      var latest := LatestOf(log[..|log| - 1]);
      if Blank(r.id) then latest else latest[Strip(r.id) := r]
  }

  /** Record `i` is the last one whose trimmed id is `id`. */
  predicate LastRecord(log: seq<Record>, i: nat, id: string)
    requires i < |log|
  {
    Strip(log[i].id) == id && forall j :: i < j < |log| ==> Strip(log[j].id) != id
  }

  lemma LatestNext(log: seq<Record>)
    requires log != []
    ensures var r, before := log[|log| - 1], LatestOf(log[..|log| - 1]);
            LatestOf(log) == if Strip(r.id) == "" then before else before[Strip(r.id) := r]
  {
    hide Strip;
  }

  lemma LastRecordBefore(log: seq<Record>, i: nat, id: string)
    requires i < |log| - 1 && LastRecord(log, i, id)
    ensures var n := |log| - 1; LastRecord(log[..n], i, id) && log[..n][i] == log[i] && Strip(log[n].id) != id
  {
    hide Strip;
  }

  lemma {:induction false} LatestOfLast(log: seq<Record>, id: string, i: nat)
    requires id != "" && i < |log| && LastRecord(log, i, id)
    ensures id in LatestOf(log) && LatestOf(log)[id] == log[i]
  {
    hide Strip, LatestOf;
    LatestNext(log);
    if i < |log| - 1 {
      LastRecordBefore(log, i, id);
      LatestOfLast(log[..|log| - 1], id, i);
    }
  }

  lemma {:induction false} LatestKey(log: seq<Record>, id: string) returns (i: nat)
    requires id in LatestOf(log)
    ensures i < |log| && Strip(log[i].id) == id
  {
    hide Strip;
    LatestNext(log);
    i := |log| - 1;
    if Strip(log[i].id) != id { i := LatestKey(log[..i], id); }
  }

  lemma LastRecordExists(log: seq<Record>, i: nat) returns (l: nat)
    requires i < |log|
    ensures l < |log| && LastRecord(log, l, Strip(log[i].id))
  {
    hide Strip;
    l := i;
    for j := i + 1 to |log|
      invariant i <= l < j <= |log| && Strip(log[l].id) == Strip(log[i].id)
      invariant forall m :: l < m < j ==> Strip(log[m].id) != Strip(log[i].id)
    {
      if Strip(log[j].id) == Strip(log[i].id) { l := j; }
    }
  }

  lemma {:induction false} NoBlankKey(log: seq<Record>)
    ensures "" !in LatestOf(log)
  {
    hide Strip;
    if log != [] { NoBlankKey(log[..|log| - 1]); }
  }

  /** Each non-blank trimmed id of the log has its last record, and there is nothing else. */
  lemma LatestIsLast(log: seq<Record>, id: string)
    ensures id in LatestOf(log) <==> id != "" && exists i :: 0 <= i < |log| && Strip(log[i].id) == id
    ensures id in LatestOf(log) ==> exists i :: 0 <= i < |log| && LastRecord(log, i, id) && LatestOf(log)[id] == log[i]
  {
    hide Strip, LatestOf, LastRecord;
    if id == "" {
      NoBlankKey(log);
    } else {
      if id in LatestOf(log) { var i := LatestKey(log, id); }
      if i :| 0 <= i < |log| && Strip(log[i].id) == id {
        var l := LastRecordExists(log, i);
        LatestOfLast(log, id, l);
      }
    }
  }

  method LatestDecisionsByObject(log: seq<Record>) returns (latest: map<string, Record>)
    ensures latest == LatestOf(log)
    ensures forall id :: id in latest ==> exists i :: 0 <= i < |log| && LastRecord(log, i, id) && latest[id] == log[i]
    ensures forall i :: 0 <= i < |log| && !Blank(log[i].id) ==> Strip(log[i].id) in latest
  {
    hide Strip, LastRecord;
    latest := map[];
    assert log[..0] == [];
    for i := 0 to |log|
      invariant latest == LatestOf(log[..i])
    {
      assert log[..i + 1][..i] == log[..i];
      var id := Strip(log[i].id);
      if id != "" { latest := latest[id := log[i]]; }
    }
    assert log[..|log|] == log;
    forall id { LatestIsLast(log, id); }
  }

  // ---------------------------------------------------------------- when the log tells an object

  /** An object as the log tells it: its tracked fields are those its latest record ended in. */
  function Told(o: KnowledgeObject, latest: map<string, Record>): KnowledgeObject {
    if o.id in latest then
      var s := latest[o.id].next;
      o.(stage := s.stage, evidence := s.evidence, eligible := s.eligible, scope := s.scope, intent := s.intent)
    else o
  }

  /** After these decisions object `k` is as the log tells it. */
  ghost predicate Tells(os: seq<KnowledgeObject>, ds: seq<Decision>, k: nat)
    requires k < |os|
  {
    var t := Run(os, ds);
    |t.objects| == |os| && t.objects[k] == Told(os[k], LatestOf(t.log))
  }

  predicate CleanId(id: string) { id != "" && Trimmed(id) }

  /** Decisions reach object `j`: it is the first with its id. */
  predicate Reached(os: seq<KnowledgeObject>, j: nat)
    requires j < |os|
  {
    FirstWithId(os, os[j].id) == j
  }

  /** Every decision that `o` takes leaves it in state `s`. */
  predicate OnlyReaches(o: KnowledgeObject, s: State) {
    && Summary(o.(eligible := false, scope := "task_only")) == s
    && !(o.stage == "verified" && o.evidence == "artifact_backed")
    && (o.stage != "canonical" ==> Summary(o) == s && o.intent == "none")
  }

  /** With a clean id: any other object that decisions reach and whose id trims to this one can only end up
      in this object's state. Otherwise, no record is read for it: no decision may change it. */
  ghost predicate LogTells(os: seq<KnowledgeObject>, k: nat)
    requires k < |os|
  {
    var s := Summary(os[k]);
    if CleanId(os[k].id) then
      forall j :: 0 <= j < |os| && j != k && Reached(os, j) && Strip(os[j].id) == os[k].id ==> OnlyReaches(os[j], s)
    else Reached(os, k) ==> OnlyReaches(os[k], s)
  }

  lemma OnlyReachesStep(o: KnowledgeObject, s: State, d: Decision)
    requires OnlyReaches(o, s) && Edited(o, d).Changed?
    ensures var o' := Edited(o, d).edited; Summary(o') == s && OnlyReaches(o', s)
  {
    hide MayPromote, Strip;
  }

  /** An object that is not confined to a state takes a decision that leads out of it. */
  lemma Escape(o: KnowledgeObject, s: State) returns (d: Decision)
    requires !OnlyReaches(o, s)
    ensures d.id == o.id && Edited(o, d).Changed? && Summary(Edited(o, d).edited) != s
  {
    hide MayPromote, Strip;
    var reject := Decision(o.id, "reject", "reuse", "");
    if Summary(Edited(o, reject).edited) != s {
      d := reject;
    } else if o.stage == "verified" && o.evidence == "artifact_backed" {
      d := Decision(o.id, "promote", "reuse", "");
    } else {
      d := Decision(o.id, "reject", "canonical", "");
    }
  }

  /** The object stays in state `s`, whatever is decided. */
  ghost predicate Quiet(os: seq<KnowledgeObject>, t: seq<KnowledgeObject>, k: nat, s: State)
    requires k < |os|
  {
    |t| == |os| && Summary(t[k]) == s && (Reached(os, k) ==> OnlyReaches(t[k], s))
  }

  lemma {:induction false} StaysQuiet(os: seq<KnowledgeObject>, ds: seq<Decision>, k: nat)
    requires k < |os| && (Reached(os, k) ==> OnlyReaches(os[k], Summary(os[k])))
    ensures Quiet(os, Run(os, ds).objects, k, Summary(os[k]))
  {
    hide FirstWithId, OnlyReaches, Edited, Strip;
    if ds != [] {
      var n := |ds| - 1;
      StaysQuiet(os, ds[..n], k);
      var st, d := Run(os, ds[..n]), ds[n];
      RunKeeps(os, ds[..n]);
      SameFirst(os, st.objects, d.id);
      var i := FirstWithId(os, d.id);
      if i < |os| && Edited(st.objects[i], d).Changed? && i == k {
        OnlyReachesStep(st.objects[k], Summary(os[k]), d);
      }
    }
  }

  /** All that is read under `id` is state `s`. */
  ghost predicate Confined(os: seq<KnowledgeObject>, t: Store, id: string, s: State) {
    && |t.objects| == |os|
    && (forall j :: 0 <= j < |os| && Reached(os, j) && Strip(os[j].id) == id ==> OnlyReaches(t.objects[j], s))
    && (forall i :: 0 <= i < |t.log| && Strip(t.log[i].id) == id ==> t.log[i].next == s)
  }

  lemma {:induction false} StaysConfined(os: seq<KnowledgeObject>, ds: seq<Decision>, id: string, s: State)
    requires forall j :: 0 <= j < |os| && Reached(os, j) && Strip(os[j].id) == id ==> OnlyReaches(os[j], s)
    ensures Confined(os, Run(os, ds), id, s)
  {
    hide FirstWithId, OnlyReaches, Edited, Strip;
    if ds != [] {
      var n := |ds| - 1;
      StaysConfined(os, ds[..n], id, s);
      var t, d := Run(os, ds[..n]), ds[n];
      RunKeeps(os, ds[..n]);
      SameFirst(os, t.objects, d.id);
      var i := FirstWithId(os, d.id);
      if i < |os| && Edited(t.objects[i], d).Changed? {
        assert Reached(os, i);
        if Strip(d.id) == id { OnlyReachesStep(t.objects[i], s, d); }
      }
    }
  }

  ghost predicate KnownIds(log: seq<Record>, os: seq<KnowledgeObject>) {
    forall i :: 0 <= i < |log| ==> FirstWithId(os, log[i].id) < |os|
  }

  lemma {:induction false} LoggedIdsKnown(os: seq<KnowledgeObject>, ds: seq<Decision>)
    ensures KnownIds(Run(os, ds).log, os)
  {
    hide Strip, FirstWithId, Edited, Summary;
    if ds != [] {
      var n := |ds| - 1;
      LoggedIdsKnown(os, ds[..n]);
      RunKeeps(os, ds[..n]);
      SameFirst(os, Run(os, ds[..n]).objects, ds[n].id);
    }
  }

  /** When only records of `id` itself are read under it, the latest one is the one the last state is from. */
  lemma {:induction false} LatestIsState(log: seq<Record>, id: string, initial: State)
    requires CleanId(id) && forall i :: 0 <= i < |log| && Strip(log[i].id) == id ==> log[i].id == id
    ensures var latest := LatestOf(log);
            StateAfter(log, id, initial) == if id in latest then latest[id].next else initial
  {
    hide Strip, Trimmed;
    if log != [] {
      var n := |log| - 1;
      assert forall i :: 0 <= i < n ==> log[..n][i] == log[i];
      LatestIsState(log[..n], id, initial);
      StripTrimmed(id);
    }
  }

  /** An object with a clean id that no other reached object's id trims to: the log alone tells its state,
      whatever the ids of the other objects. */
  lemma LogReproduces(os: seq<KnowledgeObject>, ds: seq<Decision>, k: nat)
    requires k < |os| && CleanId(os[k].id)
    requires forall j :: 0 <= j < |os| && j != k && Reached(os, j) ==> Strip(os[j].id) != os[k].id
    ensures Tells(os, ds, k)
  {
    hide Run, LatestOf, StateAfter, Chained, FirstWithId, Strip, Trimmed;
    var id := os[k].id;
    StripTrimmed(id);
    var first := FirstWithId(os, id);
    assert Reached(os, first);
    LogChains(os, ds, id);
    RunKeeps(os, ds);
    LoggedIdsKnown(os, ds);
    var log := Run(os, ds).log;
    forall i | 0 <= i < |log| && Strip(log[i].id) == id ensures log[i].id == id {
      assert Reached(os, FirstWithId(os, log[i].id));
    }
    LatestIsState(log, id, Summary(os[k]));
  }

  /** Two objects whose records are read under one id: when the other is confined to this one's state, so is
      this one. */
  lemma SameState(o: KnowledgeObject, p: KnowledgeObject)
    requires OnlyReaches(p, Summary(o))
    ensures OnlyReaches(o, Summary(o))
  {
  }

  lemma TellsWhenConfined(os: seq<KnowledgeObject>, ds: seq<Decision>, k: nat, j: nat)
    requires k < |os| && CleanId(os[k].id) && LogTells(os, k)
    requires j < |os| && j != k && Reached(os, j) && Strip(os[j].id) == os[k].id
    ensures Tells(os, ds, k)
  {
    hide Run, LatestOf, FirstWithId, Strip, Trimmed, OnlyReaches;
    var id, s := os[k].id, Summary(os[k]);
    SameState(os[k], os[j]);
    StaysQuiet(os, ds, k);
    StaysConfined(os, ds, id, s);
    RunKeeps(os, ds);
    LatestIsLast(Run(os, ds).log, id);
  }

  lemma TellsUnread(os: seq<KnowledgeObject>, ds: seq<Decision>, k: nat)
    requires k < |os| && !CleanId(os[k].id) && LogTells(os, k)
    ensures Tells(os, ds, k)
  {
    hide Run, LatestOf, FirstWithId, OnlyReaches, Strip;
    StaysQuiet(os, ds, k);
    RunKeeps(os, ds);
    NotRead(Run(os, ds).log, os[k].id);
  }

  lemma NotRead(log: seq<Record>, id: string)
    requires !CleanId(id)
    ensures id !in LatestOf(log)
  {
    hide LatestOf, Strip;
    LatestIsLast(log, id);
  }

  /** A run of one decision on a reached object. */
  lemma OneRun(os: seq<KnowledgeObject>, j: nat, d: Decision)
    requires j < |os| && Reached(os, j) && d.id == os[j].id && Edited(os[j], d).Changed?
    ensures var o := Edited(os[j], d).edited;
            var r := Record(d.id, d.kind, d.target, Strip(d.authority), Summary(os[j]), Summary(o));
            && Run(os, [d]) == Store(os[j := o], [r])
            && LatestOf([r]) == if Blank(d.id) then map[] else map[Strip(d.id) := r]
  {
    hide Edited, FirstWithId, Strip;
    assert [d][..0] == [] && Run(os, []) == Store(os, []);
    var o := Edited(os[j], d).edited;
    var r := Record(d.id, d.kind, d.target, Strip(d.authority), Summary(os[j]), Summary(o));
    assert [] + [r] == [r] && [r][..0] == [];
    assert LatestOf([]) == map[];
  }

  /** One decision that makes the log wrong about the object. */
  lemma Misleads(os: seq<KnowledgeObject>, k: nat) returns (ds: seq<Decision>)
    requires k < |os| && !LogTells(os, k)
    ensures !Tells(os, ds, k)
  {
    hide FirstWithId, OnlyReaches, Edited, Strip, Trimmed, Run, LatestOf;
    var s := Summary(os[k]);
    var j := k;
    if CleanId(os[k].id) {
      j :| 0 <= j < |os| && j != k && Reached(os, j) && Strip(os[j].id) == os[k].id && !OnlyReaches(os[j], s);
    }
    var d := Escape(os[j], s);
    ds := [d];
    OneRun(os, j, d);
    var log := Run(os, ds).log;
    if !CleanId(os[k].id) { NotRead(log, os[k].id); }
  }

  /** Exactly when the log can be trusted about an object: after every sequence of decisions the object is as
      the log tells it if and only if the ids and states at the start meet the condition. */
  lemma LogTellsExactly(os: seq<KnowledgeObject>, k: nat)
    requires k < |os|
    ensures (forall ds :: Tells(os, ds, k)) <==> LogTells(os, k)
  {
    hide Tells, FirstWithId, OnlyReaches, Strip, Trimmed;
    if LogTells(os, k) {
      forall ds ensures Tells(os, ds, k) {
        if !CleanId(os[k].id) {
          TellsUnread(os, ds, k);
        } else if j :| 0 <= j < |os| && j != k && Reached(os, j) && Strip(os[j].id) == os[k].id {
          TellsWhenConfined(os, ds, k, j);
        } else {
          LogReproduces(os, ds, k);
        }
      }
    } else {
      var ds := Misleads(os, k);
    }
  }

  /** All ids differ, and none is blank or has whitespace around it. */
  ghost predicate CleanIds(os: seq<KnowledgeObject>) {
    (forall i, j :: 0 <= i < j < |os| ==> os[i].id != os[j].id) && forall i :: 0 <= i < |os| ==> CleanId(os[i].id)
  }

  /** Unique trimmed ids are enough for every object. */
  lemma CleanIdsTell(os: seq<KnowledgeObject>, k: nat)
    requires CleanIds(os) && k < |os|
    ensures LogTells(os, k)
  {
    hide FirstWithId, Strip, Trimmed, OnlyReaches;
    forall j | 0 <= j < |os| && j != k ensures Strip(os[j].id) != os[k].id { StripTrimmed(os[j].id); }
  }

  // ---------------------------------------------------------------- the index

  predicate Ready(s: State) {
    s.scope == "retrieval_candidate" && s.stage == "verified" && s.evidence == "artifact_backed"
  }

  datatype IndexRecord = IndexRecord(id: string, state: State, active: bool, reason: string)

  function InvalidationReason(s: State): string {
    if s.scope != "retrieval_candidate" then "not_retrieval_candidate"
    else if s.stage != "verified" then "stage_not_verified"
    else if s.evidence != "artifact_backed" then "evidence_not_artifact_backed"
    else "active"
  }

  /** The reason names the first of three conditions that fails; without one the object is ready. */
  lemma ReasonExactly(s: State)
    ensures var candidate := s.scope == "retrieval_candidate";
            var verified := s.stage == "verified";
            var backed := s.evidence == "artifact_backed";
            && (Ready(s) <==> candidate && verified && backed)
            && (InvalidationReason(s) == "not_retrieval_candidate" <==> !candidate)
            && (InvalidationReason(s) == "stage_not_verified" <==> candidate && !verified)
            && (InvalidationReason(s) == "evidence_not_artifact_backed" <==> candidate && verified && !backed)
            && (InvalidationReason(s) == "active" <==> candidate && verified && backed)
  {
  }

  function IndexOf(o: KnowledgeObject): IndexRecord {
    var s := Summary(o);
    IndexRecord(o.id, s, Ready(s), if Ready(s) then "" else InvalidationReason(s))
  }

  /** The records of the candidates that are ready, or of those that are not, in order. */
  function Records(os: seq<KnowledgeObject>, ready: bool): seq<IndexRecord> {
    if os == [] then []
    else
      var n := |os| - 1;
      Records(os[..n], ready)
          + (if os[n].scope == "retrieval_candidate" && Ready(Summary(os[n])) == ready then [IndexOf(os[n])] else [])
  }

  /** `r` is the record of a candidate that is ready, or of one that is not. */
  predicate RecordOf(o: KnowledgeObject, ready: bool, r: IndexRecord) {
    o.scope == "retrieval_candidate" && Ready(Summary(o)) == ready && r == IndexOf(o)
  }

  lemma {:induction false} RecordsExactly(os: seq<KnowledgeObject>, ready: bool)
    ensures forall r :: r in Records(os, ready) <==> exists i :: 0 <= i < |os| && RecordOf(os[i], ready, r)
  {
    hide IndexOf, Ready, Summary;
    if os != [] {
      var n := |os| - 1;
      RecordsExactly(os[..n], ready);
      assert forall i :: 0 <= i < n ==> os[..n][i] == os[i];
    }
  }

  /** The record of an object tells its id and state, and why it is not active. */
  lemma IndexRecordTells(o: KnowledgeObject)
    ensures var r := IndexOf(o);
            && r.id == o.id && StateOf(r.state, o)
            && (r.active <==> o.scope == "retrieval_candidate" && o.stage == "verified"
                              && o.evidence == "artifact_backed")
            && r.reason == if r.active then "" else InvalidationReason(r.state)
  {
  }

  /** The records come in the order of the objects. */
  lemma RecordsInOrder(os: seq<KnowledgeObject>, o: KnowledgeObject)
    ensures var ready := o.stage == "verified" && o.evidence == "artifact_backed";
            && Records(os + [o], true) == Records(os, true)
                 + (if o.scope == "retrieval_candidate" && ready then [IndexOf(o)] else [])
            && Records(os + [o], false) == Records(os, false)
                 + (if o.scope == "retrieval_candidate" && !ready then [IndexOf(o)] else [])
  {
    hide IndexOf;
    assert (os + [o])[..|os|] == os;
  }

  method BuildKnowledgeIndex(os: seq<KnowledgeObject>) returns (active: seq<IndexRecord>, inactive: seq<IndexRecord>)
    ensures active == Records(os, true) && inactive == Records(os, false)
  {
    hide IndexOf, Ready;
    active, inactive := [], [];
    assert os[..0] == [];
    for i := 0 to |os|
      invariant active == Records(os[..i], true) && inactive == Records(os[..i], false)
    {
      assert os[..i + 1][..i] == os[..i];
      var o := os[i];
      if o.scope != "retrieval_candidate" {
        continue;
      }
      if Ready(Summary(o)) { active := active + [IndexOf(o)]; } else { inactive := inactive + [IndexOf(o)]; }
    }
    assert os[..|os|] == os;
  }

  /** Every retrieval candidate is in exactly one of the two parts of the index, and no other object is:
      a record tells by its state which part it is in. */
  lemma IndexSplits(os: seq<KnowledgeObject>, k: nat)
    requires k < |os|
    ensures IndexOf(os[k]) in Records(os, true) <==> Ready(Summary(os[k]))
    ensures IndexOf(os[k]) in Records(os, false) <==> os[k].scope == "retrieval_candidate" && !Ready(Summary(os[k]))
  {
    RecordsExactly(os, true);
    RecordsExactly(os, false);
  }

  /** The objects as the log tells them, from how they were at the start. */
  function Rebuilt(os: seq<KnowledgeObject>, latest: map<string, Record>): (r: seq<KnowledgeObject>)
    ensures |r| == |os| && forall k :: 0 <= k < |os| ==> r[k] == Told(os[k], latest)
  {
    seq(|os|, k requires 0 <= k < |os| => Told(os[k], latest))
  }

  ghost predicate LogTellsAll(os: seq<KnowledgeObject>, ds: seq<Decision>) {
    Run(os, ds).objects == Rebuilt(os, LatestOf(Run(os, ds).log))
  }

  /** The log rebuilds all objects after every run if and only if it can be trusted about each of them. */
  lemma RebuiltExactly(os: seq<KnowledgeObject>)
    ensures (forall ds :: LogTellsAll(os, ds)) <==> forall k :: 0 <= k < |os| ==> LogTells(os, k)
  {
    hide Told, LogTells, Tells, LogTellsAll;
    if forall ds :: LogTellsAll(os, ds) {
      forall k | 0 <= k < |os| ensures LogTells(os, k) {
        forall ds ensures Tells(os, ds, k) {
          assert LogTellsAll(os, ds);
          TellsEach(os, ds);
        }
        LogTellsExactly(os, k);
      }
    }
    if forall k :: 0 <= k < |os| ==> LogTells(os, k) {
      forall ds ensures LogTellsAll(os, ds) {
        forall k | 0 <= k < |os| ensures Tells(os, ds, k) { LogTellsExactly(os, k); }
        TellsEach(os, ds);
      }
    }
  }

  lemma TellsEach(os: seq<KnowledgeObject>, ds: seq<Decision>)
    ensures LogTellsAll(os, ds) <==> forall k :: 0 <= k < |os| ==> Tells(os, ds, k)
  {
    hide Told, Run, LatestOf;
    RunKeeps(os, ds);
    var t := Run(os, ds);
    var r := Rebuilt(os, LatestOf(t.log));
    if forall k :: 0 <= k < |os| ==> Tells(os, ds, k) {
      forall k | 0 <= k < |os| ensures t.objects[k] == r[k] { assert Tells(os, ds, k); }
    }
  }

  /** Whether an object's record is in the active index after a run can be read off the log. */
  lemma ActiveFromLog(os: seq<KnowledgeObject>, ds: seq<Decision>, k: nat)
    requires k < |os| && LogTells(os, k)
    ensures var t := Run(os, ds);
            && |t.objects| == |os|
            && (IndexOf(t.objects[k]) in Records(t.objects, true) <==> Ready(Summary(Told(os[k], LatestOf(t.log)))))
  {
    hide LogTells, Run, LatestOf, Told, Records, IndexOf, Ready;
    LogTellsExactly(os, k);
    assert Tells(os, ds, k);
    IndexSplits(Run(os, ds).objects, k);
  }

  /** The index after a run, active and inactive records in order, is the one built from the start and the
      latest records of the log. */
  lemma IndexFromLog(os: seq<KnowledgeObject>, ds: seq<Decision>, ready: bool)
    requires forall k :: 0 <= k < |os| ==> LogTells(os, k)
    ensures Records(Run(os, ds).objects, ready) == Records(Rebuilt(os, LatestOf(Run(os, ds).log)), ready)
  {
    hide LogTells, Run, LatestOf, Records;
    RebuiltExactly(os);
    assert LogTellsAll(os, ds);
  }

  const Twin := KnowledgeObject("a", "verified", "artifact_backed", false, "task_only", "none", "")
  const Reused := KnowledgeObject("a", "verified", "artifact_backed", true, "retrieval_candidate", "none", "")
  const PromoteTwin := Decision("a", "promote", "reuse", "")

  lemma TwinDecided()
    ensures Decided([Twin, Twin], PromoteTwin)
        == Applied([Reused, Twin], Record("a", "promote", "reuse", "", Summary(Twin), Summary(Reused)))
  {
    var os := [Twin, Twin];
    assert FirstWithId(os, "a") == 0;
    assert os[0 := Reused] == [Reused, Twin];
  }

  /** Two objects with the same id: decisions reach the first only, so the log does not tell the second. */
  lemma SharedIdsMislead()
    ensures var t := Run([Twin, Twin], [PromoteTwin]);
            "a" in LatestOf(t.log) && |t.objects| == 2 && Summary(t.objects[1]) != LatestOf(t.log)["a"].next
  {
    var r := Record("a", "promote", "reuse", "", Summary(Twin), Summary(Reused));
    TwinDecided();
    StripTrimmed("a");
    hide Decided, Strip;
    assert [PromoteTwin][..0] == [] && Run([Twin, Twin], []) == Store([Twin, Twin], []);
    assert [] + [r] == [r] && [r][..0] == [];
    assert Run([Twin, Twin], [PromoteTwin]) == Store([Reused, Twin], [r]);
    assert LatestOf([]) == map[] && LatestOf([r]) == map["a" := r];
  }
}
