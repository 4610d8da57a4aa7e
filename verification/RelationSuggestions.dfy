/** Applying an executor's relation suggestions: ids are resolved through the canonical registry, known
    relations are skipped, and the rest is created. A dry run only reports. */
module RelationSuggestions {
  import opened Text
  import opened Collections

  // ---------------------------------------------------------------- resolving object ids

  /** A line of the canonical registry; `aliases` are the names its references give it. */
  datatype Record = Record(sourceObjectId: string, canonicalId: string, status: string, aliases: set<string>)

  /** The knowledge objects with their store type, and the registry. */
  datatype Knowledge = Knowledge(objects: map<string, string>, records: seq<Record>)

  datatype Resolution = Resolved(id: string) | Unknown | Ambiguous

  /** The record leads to an object that exists. */
  predicate Usable(k: Knowledge, r: Record) {
    Strip(r.sourceObjectId) != "" && Strip(r.sourceObjectId) in k.objects
  }

  predicate NamesCanonically(k: Knowledge, r: Record, id: string) {
    Usable(k, r) && Strip(r.canonicalId) == id
  }

  predicate NamesByAlias(k: Knowledge, r: Record, id: string) {
    Usable(k, r) && Strip(r.status) != "superseded" && id in r.aliases
  }

  /** The object of the first record with this canonical id. */
  function ByCanonicalId(k: Knowledge, rs: seq<Record>, id: string): (o: Option<string>)
    ensures o.Some? <==> exists i :: 0 <= i < |rs| && NamesCanonically(k, rs[i], id)
    ensures o.Some? ==> o.value in k.objects && Trimmed(o.value) && o.value != ""
  {
    if rs == [] then None
    else if NamesCanonically(k, rs[0], id) then Some(Strip(rs[0].sourceObjectId))
    else
      assert forall i :: 0 <= i < |rs[1..]| ==> rs[1..][i] == rs[i + 1];
      ByCanonicalId(k, rs[1..], id)
  }

  /** The objects that live records give this alias to, each once. */
  function ByAlias(k: Knowledge, rs: seq<Record>, id: string): (ids: seq<string>)
    ensures Distinct(ids)
  {
    if rs == [] then []
    else
      var n := |rs| - 1;
      var ids, source := ByAlias(k, rs[..n], id), Strip(rs[n].sourceObjectId);
      if NamesByAlias(k, rs[n], id) && source !in ids then ids + [source] else ids
  }

  lemma {:induction false} ByAliasExactly(k: Knowledge, rs: seq<Record>, id: string)
    ensures forall x ::
              x in ByAlias(k, rs, id)
              <==> exists i :: 0 <= i < |rs| && NamesByAlias(k, rs[i], id) && Strip(rs[i].sourceObjectId) == x
  {
    hide NamesByAlias, Strip;
    if rs != [] {
      var n := |rs| - 1;
      ByAliasExactly(k, rs[..n], id);
      assert forall i :: 0 <= i < n ==> rs[..n][i] == rs[i];
    }
  }

  /** An existing object is itself; a canonical id beats any alias; an alias must be unambiguous. */
  function Resolve(k: Knowledge, raw: string): Resolution {
    var id := Strip(raw);
    if id == "" then Unknown
    else if id in k.objects then Resolved(id)
    else if ByCanonicalId(k, k.records, id).Some? then Resolved(ByCanonicalId(k, k.records, id).value)
    else
      var ids := ByAlias(k, k.records, id);
      if |ids| == 1 then Resolved(ids[0]) else if ids == [] then Unknown else Ambiguous
  }

  method ResolveKnowledgeObjectId(k: Knowledge, raw: string) returns (r: Resolution)
    ensures r == Resolve(k, raw)
  {
    hide Strip, Usable;
    var id := Strip(raw);
    if id == "" {
      return Unknown;
    }
    if id in k.objects {
      return Resolved(id);
    }
    var matches: seq<string> := [];
    assert k.records[..0] == [] && k.records[0..] == k.records;
    for i := 0 to |k.records|
      invariant matches == ByAlias(k, k.records[..i], id)
      invariant ByCanonicalId(k, k.records, id) == ByCanonicalId(k, k.records[i..], id)
    {
      assert k.records[..i + 1][..i] == k.records[..i];
      assert k.records[i..][0] == k.records[i] && k.records[i..][1..] == k.records[i + 1..];
      var record := k.records[i];
      var source := Strip(record.sourceObjectId);
      if !Usable(k, record) {
        continue;
      }
      if Strip(record.canonicalId) == id {
        return Resolved(source);
      }
      if Strip(record.status) == "superseded" {
        continue;
      }
      if id in record.aliases && source !in matches {
        matches := matches + [source];
      }
    }
    assert k.records[..|k.records|] == k.records;
    r := if |matches| == 1 then Resolved(matches[0]) else if matches == [] then Unknown else Ambiguous;
  }

  /** A resolved id is that of an existing object, and resolves to itself. */
  lemma ResolveIdempotent(k: Knowledge, raw: string)
    ensures var r := Resolve(k, raw);
            r.Resolved? ==> r.id in k.objects && r.id != "" && Trimmed(r.id) && Resolve(k, r.id) == r
  {
    hide ByCanonicalId, ByAlias, Strip;
    var ids := ByAlias(k, k.records, Strip(raw));
    ByAliasExactly(k, k.records, Strip(raw));
    assert |ids| == 1 ==> ids[0] in ids;
  }

  /** Record `i` gives an existing object this canonical id. */
  ghost predicate CanonAt(k: Knowledge, id: string, i: nat) {
    && i < |k.records| && Strip(k.records[i].canonicalId) == id
    && Strip(k.records[i].sourceObjectId) != "" && Strip(k.records[i].sourceObjectId) in k.objects
  }

  /** The existing objects that a record which is not superseded gives this alias to. */
  ghost function Aliased(k: Knowledge, id: string): set<string> {
    set i | 0 <= i < |k.records| && Strip(k.records[i].status) != "superseded" && id in k.records[i].aliases
        && Strip(k.records[i].sourceObjectId) != "" && Strip(k.records[i].sourceObjectId) in k.objects ::
      Strip(k.records[i].sourceObjectId)
  }

  lemma {:induction false} FirstCanonical(k: Knowledge, rs: seq<Record>, id: string, i: nat)
    requires i < |rs| && NamesCanonically(k, rs[i], id)
    requires forall j :: 0 <= j < i ==> !NamesCanonically(k, rs[j], id)
    ensures ByCanonicalId(k, rs, id) == Some(Strip(rs[i].sourceObjectId))
  {
    hide NamesCanonically, Strip;
    if i > 0 { FirstCanonical(k, rs[1..], id, i - 1); }
  }

  lemma AliasedExactly(k: Knowledge, id: string)
    ensures forall x :: x in Aliased(k, id) <==> x in ByAlias(k, k.records, id)
  {
    hide Strip, ByAlias;
    ByAliasExactly(k, k.records, id);
  }

  /** How an id resolves: an existing object is itself, whatever the registry says; then the first record with
      this canonical id decides, whatever aliases there are; then an alias does, if it leads to one object only. */
  lemma ResolveTells(k: Knowledge, raw: string)
    ensures var id, r := Strip(raw), Resolve(k, raw);
            && (id == "" ==> r == Unknown)
            && (id != "" && id in k.objects ==> r == Resolved(id))
            && (forall i: nat :: id != "" && id !in k.objects && CanonAt(k, id, i)
                                 && (forall j: nat :: j < i ==> !CanonAt(k, id, j)) ==>
                  r == Resolved(Strip(k.records[i].sourceObjectId)))
            && (id != "" && id !in k.objects && (forall i: nat :: !CanonAt(k, id, i)) ==>
                 && (Aliased(k, id) == {} ==> r == Unknown)
                 && (forall a :: Aliased(k, id) == {a} ==> r == Resolved(a))
                 && (forall a, b :: {a, b} <= Aliased(k, id) && a != b ==> r == Ambiguous))
  {
    hide Strip, ByAlias, ByCanonicalId, Aliased, CanonAt;
    var id := Strip(raw);
    if id != "" && id !in k.objects {
      CanonicalTells(k, id);
      AliasedExactly(k, id);
      OneOrMore(ByAlias(k, k.records, id), Aliased(k, id));
    }
  }

  lemma CanonicalTells(k: Knowledge, id: string)
    ensures var o := ByCanonicalId(k, k.records, id);
            && ((forall i: nat :: !CanonAt(k, id, i)) ==> o == None)
            && forall i: nat :: CanonAt(k, id, i) && (forall j: nat :: j < i ==> !CanonAt(k, id, j)) ==>
                 o == Some(Strip(k.records[i].sourceObjectId))
  {
    hide Strip, ByCanonicalId;
    assert forall i: nat :: i < |k.records| && NamesCanonically(k, k.records[i], id) ==> CanonAt(k, id, i);
    forall i: nat | CanonAt(k, id, i) && forall j: nat :: j < i ==> !CanonAt(k, id, j)
        ensures ByCanonicalId(k, k.records, id) == Some(Strip(k.records[i].sourceObjectId)) {
      forall j | 0 <= j < i ensures !NamesCanonically(k, k.records[j], id) { assert !CanonAt(k, id, j); }
      FirstCanonical(k, k.records, id, i);
    }
  }

  lemma OneOrMore(ids: seq<string>, them: set<string>)
    requires Distinct(ids) && forall x :: x in them <==> x in ids
    ensures them == {} ==> ids == []
    ensures forall a :: them == {a} ==> ids == [a]
    ensures forall a, b :: {a, b} <= them && a != b ==> |ids| > 1
  {
    if ids != [] { assert ids[0] in ids && ids[|ids| - 1] in ids; }
    forall a, b | {a, b} <= them && a != b ensures |ids| > 1 {
      assert a in {a, b} && b in {a, b};
    }
  }

  // ---------------------------------------------------------------- suggestions

  /** An entry of the suggestion list; the confidence may be unreadable. */
  datatype RawSuggestion = NoObject | Raw(source: string, target: string, kind: string, context: string,
                                          confidence: Option<real>)

  datatype Suggestion = Suggestion(source: string, target: string, kind: string, confidence: real, context: string)

  function Normalized(raw: RawSuggestion): Option<Suggestion> {
    if raw.NoObject? || Blank(raw.source) || Blank(raw.target) || Blank(raw.kind) then None
    else
      var c := if raw.confidence.Some? then raw.confidence.value else 0.0;
      Some(Suggestion(Strip(raw.source), Strip(raw.target), Strip(raw.kind),
                      if c < 0.0 then 0.0 else c, Strip(raw.context)))
  }

  /** What normalising promises of a suggestion. */
  predicate Proper(s: Suggestion) {
    s.source != "" && Trimmed(s.source) && s.target != "" && Trimmed(s.target) && s.kind != "" && Trimmed(s.kind)
        && s.confidence >= 0.0 && Trimmed(s.context)
  }

  /** An entry is usable when it has both ends and a kind; its texts are trimmed, and a confidence that cannot be
      read or is negative counts as zero. */
  lemma NormalizedTells(raw: RawSuggestion)
    ensures raw.NoObject? ==> Normalized(raw) == None
    ensures raw.Raw? && (Strip(raw.source) == "" || Strip(raw.target) == "" || Strip(raw.kind) == "") ==>
        Normalized(raw) == None
    ensures raw.Raw? && Strip(raw.source) != "" && Strip(raw.target) != "" && Strip(raw.kind) != "" ==>
        var o := Normalized(raw);
        && o.Some? && o.value.source == Strip(raw.source) && o.value.target == Strip(raw.target)
        && o.value.kind == Strip(raw.kind) && o.value.context == Strip(raw.context)
        && (raw.confidence.Some? && raw.confidence.value >= 0.0 ==> o.value.confidence == raw.confidence.value)
        && (raw.confidence.None? || raw.confidence.value < 0.0 ==> o.value.confidence == 0.0)
  {
    hide Strip;
  }

  lemma NormalizedNext(raws: seq<RawSuggestion>, raw: RawSuggestion)
    ensures NormalizedAll(raws + [raw]) == NormalizedAll(raws)
        + if Normalized(raw).Some? then [Normalized(raw).value] else []
  {
    hide Normalized, Proper;
    assert (raws + [raw])[..|raws|] == raws;
  }

  /** The usable entries, in order. */
  function NormalizedAll(raws: seq<RawSuggestion>): (ss: seq<Suggestion>)
    ensures forall i :: 0 <= i < |ss| ==> Proper(ss[i])
  {
    if raws == [] then []
    else
      var last := raws[|raws| - 1];
      NormalizedProper(last);
      NormalizedAll(raws[..|raws| - 1]) + (if Normalized(last).Some? then [Normalized(last).value] else [])
  }

  method NormalizeRelationSuggestions(raws: seq<RawSuggestion>) returns (ss: seq<Suggestion>)
    ensures ss == NormalizedAll(raws)
  {
    hide Normalized, Proper;
    ss := [];
    assert raws[..0] == [];
    for i := 0 to |raws|
      invariant ss == NormalizedAll(raws[..i])
    {
      assert raws[..i + 1][..i] == raws[..i];
      var s := Normalized(raws[i]);
      if s.Some? { ss := ss + [s.value]; }
    }
    assert raws[..|raws|] == raws;
  }

  lemma NormalizedProper(raw: RawSuggestion)
    ensures Normalized(raw).Some? ==> Proper(Normalized(raw).value)
  {
    hide Strip;
  }

  // ---------------------------------------------------------------- relations

  datatype Relation = Relation(source: string, target: string, kind: string, confidence: real, context: string)

  datatype Key = Key(source: string, target: string, kind: string)

  function KeyOf(r: Relation): Key { Key(r.source, Strip(r.target), Strip(r.kind)) }

  ghost function KeysOf(rs: seq<Relation>): set<Key> {
    set i | 0 <= i < |rs| :: KeyOf(rs[i])
  }

  predicate KnownKind(kind: string) {
    kind == "refines" || kind == "contradicts" || kind == "derived_from" || kind == "cites" || kind == "extends"
        || kind == "related_to"
  }

  /** The relation that creating one from these values would insert, or none when it raises. */
  function Validated(k: Knowledge, source: string, target: string, kind: string, confidence: real,
                     context: string): Option<Relation> {
    if Blank(source) || Blank(target) || Strip(source) == Strip(target) || !KnownKind(Strip(kind))
        || confidence < 0.0 then None
    else
      match (Resolve(k, Strip(source)), Resolve(k, Strip(target)))
      case (Resolved(a), Resolved(b)) =>
        ResolveIdempotent(k, Strip(source));
        ResolveIdempotent(k, Strip(target));
        if a == b || (Strip(kind) == "derived_from" && (k.objects[b] != "evidence" || k.objects[a] != "wiki")) then None
        else Some(Relation(a, b, Strip(kind), confidence, Strip(context)))
      case _ => None
  }

  /** What it takes to create a relation between two existing objects. */
  predicate Creatable(k: Knowledge, r: Relation) {
    && r.source != r.target
    && r.kind in {"refines", "contradicts", "derived_from", "cites", "extends", "related_to"}
    && (r.kind == "derived_from" ==>
         r.target in k.objects && k.objects[r.target] == "evidence" && r.source in k.objects
             && k.objects[r.source] == "wiki")
  }

  /** Creating what a suggestion means inserts just that, if it is creatable, and raises otherwise. */
  lemma CreatesWhatIsMeant(k: Knowledge, s: Suggestion)
    requires Proper(s) && Meant(k, s).Some?
    ensures var r := Meant(k, s).value;
            Validated(k, r.source, r.target, r.kind, r.confidence, r.context) == if Creatable(k, r) then Some(r)
                else None
  {
    hide Resolve, Strip;
    ResolveIdempotent(k, s.source);
    ResolveIdempotent(k, s.target);
  }

  /** The relation a suggestion is about, if both ends resolve. */
  function Meant(k: Knowledge, s: Suggestion): Option<Relation> {
    match (Resolve(k, s.source), Resolve(k, s.target))
    case (Resolved(a), Resolved(b)) => Some(Relation(a, b, s.kind, s.confidence, s.context))
    case _ => None
  }

  datatype Report = Report(
    suggestionCount: nat, appliedCount: nat, duplicateCount: nat, invalidCount: nat,
    applied: seq<Relation>, duplicates: seq<Suggestion>, invalid: seq<Suggestion>)

  const NoReport := Report(0, 0, 0, 0, [], [], [])

  datatype Run = Reported(report: Report) | Raised

  // ---------------------------------------------------------------- the classification

  /** The keys of the suggestions that resolve. */
  ghost function Seen(k: Knowledge, ss: seq<Suggestion>): set<Key> {
    set i | 0 <= i < |ss| && Meant(k, ss[i]).Some? :: KeyOf(Meant(k, ss[i]).value)
  }

  /** A suggestion for a relation that is neither stored nor suggested before. */
  ghost predicate IsNew(k: Knowledge, have: set<Key>, before: seq<Suggestion>, s: Suggestion) {
    Meant(k, s).Some? && KeyOf(Meant(k, s).value) !in have && KeyOf(Meant(k, s).value) !in Seen(k, before)
  }

  /** What is reported for the suggestions when the relations of `have` are stored. */
  ghost function Classified(k: Knowledge, have: set<Key>, ss: seq<Suggestion>): Report {
    if ss == [] then NoReport
    else
      var n := |ss| - 1;
      var r := Classified(k, have, ss[..n]).(suggestionCount := |ss|);
      if Meant(k, ss[n]).None? then r.(invalidCount := r.invalidCount + 1, invalid := r.invalid + [ss[n]])
      else if !IsNew(k, have, ss[..n], ss[n]) then
          r.(duplicateCount := r.duplicateCount + 1, duplicates := r.duplicates + [ss[n]])
      else r.(appliedCount := r.appliedCount + 1, applied := r.applied + [Meant(k, ss[n]).value])
  }

  /** How many suggestions a real run gets through: up to the first new one that cannot be created. */
  ghost function Reached(k: Knowledge, have: set<Key>, ss: seq<Suggestion>): (n: nat)
    ensures n <= |ss|
  {
    if ss == [] then 0
    else
      var n := |ss| - 1;
      if Reached(k, have, ss[..n]) < n then Reached(k, have, ss[..n])
      else if IsNew(k, have, ss[..n], ss[n]) && !Creatable(k, Meant(k, ss[n]).value) then n
      else n + 1
  }

  class RelationStore {
    const knowledge: Knowledge
    var relations: seq<Relation>

    constructor (knowledge: Knowledge)
      ensures this.knowledge == knowledge && relations == []
    {
      this.knowledge, relations := knowledge, [];
    }

    /** Whether listing the relations of `source` shows an outgoing one with this key. */
    method HasOutgoing(key: Key) returns (found: bool)
      ensures found <==> key in KeysOf(relations)
    {
      for i := 0 to |relations|
        invariant forall j :: 0 <= j < i ==> KeyOf(relations[j]) != key
      {
        if KeyOf(relations[i]) == key {
          return true;
        }
      }
      return false;
    }

    /** Validate and insert; a relation that is not valid raises and inserts nothing. */
    method CreateKnowledgeRelation(source: string, target: string, kind: string, confidence: real, context: string)
      returns (created: Option<Relation>)
      modifies this`relations
      ensures created == Validated(knowledge, source, target, kind, confidence, context)
      ensures relations == if created.Some? then old(relations) + [created.value] else old(relations)
    {
      created := Validated(knowledge, source, target, kind, confidence, context);
      if created.Some? { relations := relations + [created.value]; }
    }

    method ApplyRelationSuggestions(raws: seq<RawSuggestion>, dry: bool) returns (run: Run)
      modifies this`relations
      ensures var have := KeysOf(old(relations));
              var ss := NormalizedAll(raws);
              var n := Reached(knowledge, have, ss);
              if dry then run == Reported(Classified(knowledge, have, ss)) && relations == old(relations)
              else
                && run == (if n == |ss| then Reported(Classified(knowledge, have, ss)) else Raised)
                && relations == old(relations) + Classified(knowledge, have, ss[..n]).applied
    {
      var ss := NormalizeRelationSuggestions(raws);
      run := ApplyAll(ss, dry);
    }

    /** A dry run reports the classification. A real run reports the same and has created what it reports as
        applied, or it raises at the first new relation that cannot be created, with those before it made. */
    method ApplyAll(ss: seq<Suggestion>, dry: bool) returns (run: Run)
      requires forall i :: 0 <= i < |ss| ==> Proper(ss[i])
      modifies this`relations
      ensures var have := KeysOf(old(relations));
              var n := Reached(knowledge, have, ss);
              if dry then run == Reported(Classified(knowledge, have, ss)) && relations == old(relations)
              else
                && run == (if n == |ss| then Reported(Classified(knowledge, have, ss)) else Raised)
                && relations == old(relations) + Classified(knowledge, have, ss[..n]).applied
    {
      hide Resolve, Creatable, Seen, KeysOf, IsNew, Classified, Reached, Strip, Validated, Proper;
      var k := knowledge;
      ghost var have := KeysOf(relations);
      ghost var before := relations;
      var report := NoReport.(suggestionCount := |ss|);
      var seen: set<Key> := {};
      assert ss[..0] == [];
      Start(k, have, relations);
      for i := 0 to |ss|
        invariant seen == Seen(k, ss[..i])
        invariant report == Classified(k, have, ss[..i]).(suggestionCount := |ss|)
        invariant if dry then relations == before
            else relations == before + report.applied && Reached(k, have, ss[..i]) == i
        invariant have <= KeysOf(relations) <= have + seen
      {
        assert ss[..i + 1][..i] == ss[..i];
        var s := ss[i];
        var source := ResolveKnowledgeObjectId(k, s.source);
        var target := ResolveKnowledgeObjectId(k, s.target);
        Step(k, have, ss, i);
        if !source.Resolved? || !target.Resolved? {
          report := report.(invalidCount := report.invalidCount + 1, invalid := report.invalid + [s]);
          continue;
        }
        var meant := Relation(source.id, target.id, s.kind, s.confidence, s.context);
        var key := KeyOf(meant);
        if key in seen {
          report := report.(duplicateCount := report.duplicateCount + 1, duplicates := report.duplicates + [s]);
          continue;
        }
        var known := HasOutgoing(key);
        seen := seen + {key};
        if known {
          report := report.(duplicateCount := report.duplicateCount + 1, duplicates := report.duplicates + [s]);
          continue;
        }
        if !dry {
          KeysSnoc(relations, meant);
          CreatesWhatIsMeant(k, s);
          var created :=
              CreateKnowledgeRelation(meant.source, meant.target, meant.kind, meant.confidence, meant.context);
          if created.None? {
            ReachedStays(k, have, ss, i);
            return Raised;
          }
        }
        report := report.(appliedCount := report.appliedCount + 1, applied := report.applied + [meant]);
      }
      assert ss[..|ss|] == ss;
      ReportedCount(k, have, ss);
      run := Reported(report);
    }
  }

  lemma Start(k: Knowledge, have: set<Key>, relations: seq<Relation>)
    ensures Seen(k, []) == {} && Classified(k, have, []) == NoReport && Reached(k, have, []) == 0
        && relations + [] == relations
  {
  }

  lemma KeysSnoc(rs: seq<Relation>, r: Relation)
    ensures KeysOf(rs + [r]) == KeysOf(rs) + {KeyOf(r)}
  {
    forall x ensures x in KeysOf(rs + [r]) <==> x in KeysOf(rs) + {KeyOf(r)} {
      if x in KeysOf(rs) { var i :| 0 <= i < |rs| && KeyOf(rs[i]) == x; assert (rs + [r])[i] == rs[i]; }
      assert (rs + [r])[|rs|] == r;
    }
  }

  lemma SeenSnoc(k: Knowledge, ss: seq<Suggestion>, i: nat)
    requires i < |ss|
    ensures Seen(k, ss[..i + 1]) == Seen(k, ss[..i])
        + (if Meant(k, ss[i]).Some? then {KeyOf(Meant(k, ss[i]).value)} else {})
  {
    hide Resolve, Meant;
    var a, b := ss[..i], ss[..i + 1];
    assert forall j :: 0 <= j < i ==> a[j] == b[j];
    assert b[i] == ss[i];
  }

  /** One more suggestion. */
  lemma Step(k: Knowledge, have: set<Key>, ss: seq<Suggestion>, i: nat)
    requires i < |ss|
    ensures var m := Meant(k, ss[i]);
            var r := Classified(k, have, ss[..i]);
            var next := Classified(k, have, ss[..i + 1]);
            var novel := m.Some? && KeyOf(m.value) !in have && KeyOf(m.value) !in Seen(k, ss[..i]);
            && Seen(k, ss[..i + 1]) == Seen(k, ss[..i]) + (if m.Some? then {KeyOf(m.value)} else {})
            && next.suggestionCount == i + 1
            && next.(suggestionCount := r.suggestionCount) ==
               (if m.None? then r.(invalidCount := r.invalidCount + 1, invalid := r.invalid + [ss[i]])
                else if !novel then r.(duplicateCount := r.duplicateCount + 1, duplicates := r.duplicates + [ss[i]])
                else r.(appliedCount := r.appliedCount + 1, applied := r.applied + [m.value]))
            && (Reached(k, have, ss[..i]) == i ==>
                 Reached(k, have, ss[..i + 1]) == if novel && !Creatable(k, m.value) then i else i + 1)
  {
    hide Resolve, Meant, Creatable, Seen;
    SeenSnoc(k, ss, i);
    assert ss[..i + 1][..i] == ss[..i];
  }

  lemma ReportedCount(k: Knowledge, have: set<Key>, ss: seq<Suggestion>)
    ensures Classified(k, have, ss).suggestionCount == |ss|
  {
  }

  /** Once a run stopped it stays stopped. */
  lemma {:induction false} ReachedStays(k: Knowledge, have: set<Key>, ss: seq<Suggestion>, i: nat)
    requires i < |ss| && Reached(k, have, ss[..i + 1]) == i
    ensures Reached(k, have, ss) == i
  {
    hide IsNew, Creatable, Meant;
    if i + 1 < |ss| {
      var n := |ss| - 1;
      assert ss[..n][..i + 1] == ss[..i + 1];
      ReachedStays(k, have, ss[..n], i);
    } else {
      assert ss[..i + 1] == ss;
    }
  }

  // ---------------------------------------------------------------- the three lists, read off the suggestions

  /** An end of the suggestion does not resolve. */
  ghost predicate Dangling(k: Knowledge, s: Suggestion) {
    !Resolve(k, s.source).Resolved? || !Resolve(k, s.target).Resolved?
  }

  /** Both suggestions lead from the same object to the same object and are of the same kind. */
  ghost predicate SameEdge(k: Knowledge, s: Suggestion, t: Suggestion) {
    Resolve(k, s.source) == Resolve(k, t.source) && Resolve(k, s.target) == Resolve(k, t.target) && s.kind == t.kind
  }

  ghost predicate Stored(rs: seq<Relation>, source: string, target: string, kind: string) {
    exists i :: 0 <= i < |rs| && rs[i].source == source && Strip(rs[i].target) == target && Strip(rs[i].kind) == kind
  }

  /** The first suggestion of a relation that is not stored. */
  ghost predicate First(k: Knowledge, rs: seq<Relation>, ss: seq<Suggestion>, j: nat) {
    && j < |ss| && !Dangling(k, ss[j])
    && !Stored(rs, Resolve(k, ss[j].source).id, Resolve(k, ss[j].target).id, ss[j].kind)
    && forall i :: 0 <= i < j ==> !SameEdge(k, ss[i], ss[j])
  }

  /** The relation is the suggested one between the objects its ends resolve to. */
  ghost predicate Means(k: Knowledge, s: Suggestion, r: Relation) {
    && Resolve(k, s.source) == Resolved(r.source) && Resolve(k, s.target) == Resolved(r.target)
    && r.kind == s.kind && r.confidence == s.confidence && r.context == s.context
  }

  ghost predicate Increasing(ps: seq<nat>) {
    forall i, j :: 0 <= i < j < |ps| ==> ps[i] < ps[j]
  }

  ghost predicate AppliedAt(k: Knowledge, rs: seq<Relation>, ss: seq<Suggestion>, applied: seq<Relation>,
                            ps: seq<nat>) {
    && |ps| == |applied| && Increasing(ps) && (forall j: nat :: j in ps <==> First(k, rs, ss, j))
    && forall i :: 0 <= i < |ps| ==> ps[i] < |ss| && Means(k, ss[ps[i]], applied[i])
  }

  ghost predicate ListedAt(ss: seq<Suggestion>, listed: seq<Suggestion>, ps: seq<nat>) {
    |ps| == |listed| && Increasing(ps) && forall i :: 0 <= i < |ps| ==> ps[i] < |ss| && ss[ps[i]] == listed[i]
  }

  /** The reported lists, each in the order of the suggestions: applied are the first suggestions of relations that
      are not stored, invalid those that do not resolve, duplicates all others. */
  ghost predicate ListsTell(k: Knowledge, rs: seq<Relation>, ss: seq<Suggestion>, r: Report, a: seq<nat>,
                            d: seq<nat>, v: seq<nat>) {
    && AppliedAt(k, rs, ss, r.applied, a) && ListedAt(ss, r.duplicates, d) && ListedAt(ss, r.invalid, v)
    && (forall j: nat :: j in v <==> j < |ss| && Dangling(k, ss[j]))
    && (forall j: nat :: j in d <==> j < |ss| && !Dangling(k, ss[j]) && !First(k, rs, ss, j))
  }

  /** Whether a suggestion is new does not depend on those after it. */
  lemma FirstKept(k: Knowledge, rs: seq<Relation>, ss: seq<Suggestion>, s: Suggestion, j: nat)
    requires j < |ss|
    ensures First(k, rs, ss + [s], j) <==> First(k, rs, ss, j)
  {
    hide Dangling, Stored, SameEdge;
    assert forall i :: 0 <= i < |ss| ==> (ss + [s])[i] == ss[i];
  }

  lemma StoredKey(rs: seq<Relation>, source: string, target: string, kind: string)
    ensures Stored(rs, source, target, kind) <==> Key(source, target, kind) in KeysOf(rs)
  {
    hide Strip;
  }

  lemma KeyOfMeant(k: Knowledge, s: Suggestion)
    requires Proper(s)
    ensures Dangling(k, s) <==> Meant(k, s).None?
    ensures !Dangling(k, s) ==>
        && Means(k, s, Meant(k, s).value)
        && KeyOf(Meant(k, s).value) == Key(Resolve(k, s.source).id, Resolve(k, s.target).id, s.kind)
  {
    hide Resolve, Strip;
    ResolveIdempotent(k, s.target);
    if !Dangling(k, s) { StripTrimmed(Resolve(k, s.target).id); }
    StripTrimmed(s.kind);
  }

  lemma NewIsFirst(k: Knowledge, rs: seq<Relation>, before: seq<Suggestion>, s: Suggestion)
    requires Proper(s) && forall i :: 0 <= i < |before| ==> Proper(before[i])
    ensures IsNew(k, KeysOf(rs), before, s) <==> First(k, rs, before + [s], |before|)
  {
    hide Resolve, Strip, Meant, KeyOf, KeysOf, Dangling, Stored, Proper, Means;
    var all := before + [s];
    assert forall i :: 0 <= i < |before| ==> all[i] == before[i];
    KeyOfMeant(k, s);
    if Meant(k, s).Some? {
      var key := KeyOf(Meant(k, s).value);
      StoredKey(rs, key.source, key.target, key.kind);
      forall i | 0 <= i < |before|
          ensures SameEdge(k, before[i], s) <==> Meant(k, before[i]).Some? && KeyOf(Meant(k, before[i]).value) == key {
        KeyOfMeant(k, before[i]);
        SameKeys(k, before[i], s);
      }
    }
  }

  lemma SameKeys(k: Knowledge, s: Suggestion, t: Suggestion)
    requires !Dangling(k, t)
    ensures SameEdge(k, s, t) ==> !Dangling(k, s)
    ensures !Dangling(k, s) ==>
        (SameEdge(k, s, t) <==> (Key(Resolve(k, s.source).id, Resolve(k, s.target).id, s.kind)
                                 == Key(Resolve(k, t.source).id, Resolve(k, t.target).id, t.kind)))
  {
    hide Resolve;
  }

  lemma ListedMore(ss: seq<Suggestion>, listed: seq<Suggestion>, ps: seq<nat>, s: Suggestion)
    requires ListedAt(ss, listed, ps)
    ensures ListedAt(ss + [s], listed, ps) && ListedAt(ss + [s], listed + [s], ps + [|ss|])
  {
  }

  lemma AppliedMore(k: Knowledge, rs: seq<Relation>, ss: seq<Suggestion>, applied: seq<Relation>, ps: seq<nat>,
                    s: Suggestion, r: Relation)
    requires AppliedAt(k, rs, ss, applied, ps)
    ensures !First(k, rs, ss + [s], |ss|) ==> AppliedAt(k, rs, ss + [s], applied, ps)
    ensures First(k, rs, ss + [s], |ss|) && Means(k, s, r) ==>
        AppliedAt(k, rs, ss + [s], applied + [r], ps + [|ss|])
  {
    hide Means, First;
    var all := ss + [s];
    assert forall i :: 0 <= i < |ss| ==> all[i] == ss[i];
    forall j: nat | j < |ss| { FirstKept(k, rs, ss, s, j); }
    assert forall j: nat :: First(k, rs, ss, j) || First(k, rs, all, j) ==> j <= |ss| by { FirstBelow(k, rs, ss, s); }
    forall j: nat ensures j in ps + [|ss|] <==> j in ps || j == |ss| { }
  }

  lemma FirstBelow(k: Knowledge, rs: seq<Relation>, ss: seq<Suggestion>, s: Suggestion)
    ensures forall j: nat :: First(k, rs, ss, j) ==> j < |ss|
    ensures forall j: nat :: First(k, rs, ss + [s], j) ==> j <= |ss|
  {
  }

  /** One more suggestion goes to the end of one of the lists. */
  lemma ListsNext(k: Knowledge, rs: seq<Relation>, ss: seq<Suggestion>, r: Report, a: seq<nat>, d: seq<nat>,
                  v: seq<nat>, s: Suggestion, m: Relation)
    requires ListsTell(k, rs, ss, r, a, d, v)
    ensures Dangling(k, s) ==> ListsTell(k, rs, ss + [s], r.(invalid := r.invalid + [s]), a, d, v + [|ss|])
    ensures !Dangling(k, s) && !First(k, rs, ss + [s], |ss|) ==>
        ListsTell(k, rs, ss + [s], r.(duplicates := r.duplicates + [s]), a, d + [|ss|], v)
    ensures First(k, rs, ss + [s], |ss|) && Means(k, s, m) ==>
        ListsTell(k, rs, ss + [s], r.(applied := r.applied + [m]), a + [|ss|], d, v)
  {
    hide AppliedAt, ListedAt, Dangling, Means, First;
    var all := ss + [s];
    assert all[|ss|] == s && forall i :: 0 <= i < |ss| ==> all[i] == ss[i];
    ListedMore(ss, r.duplicates, d, s);
    ListedMore(ss, r.invalid, v, s);
    AppliedMore(k, rs, ss, r.applied, a, s, m);
    FirstResolves(k, rs, all, |ss|);
    forall j: nat | j < |ss| { FirstKept(k, rs, ss, s, j); }
    forall j: nat ensures j in v + [|ss|] <==> j in v || j == |ss| { }
    forall j: nat ensures j in d + [|ss|] <==> j in d || j == |ss| { }
  }

  lemma FirstResolves(k: Knowledge, rs: seq<Relation>, ss: seq<Suggestion>, j: nat)
    requires j < |ss|
    ensures First(k, rs, ss, j) ==> !Dangling(k, ss[j])
  {
  }

  /** What is reported as applied, as a duplicate and as invalid, and in which order. */
  lemma {:induction false} ReportTells(k: Knowledge, rs: seq<Relation>, ss: seq<Suggestion>)
    returns (a: seq<nat>, d: seq<nat>, v: seq<nat>)
    requires forall i :: 0 <= i < |ss| ==> Proper(ss[i])
    ensures ListsTell(k, rs, ss, Classified(k, KeysOf(rs), ss), a, d, v)
  {
    hide ListsTell, First, Dangling, Proper, KeysOf, IsNew, Meant, Means;
    a, d, v := [], [], [];
    if ss == [] {
      NoLists(k, rs, ss, a);
    } else {
      var n := |ss| - 1;
      var before, s := ss[..n], ss[n];
      assert ss == before + [s];
      a, d, v := ReportTells(k, rs, before);
      var r := Classified(k, KeysOf(rs), before);
      NewIsFirst(k, rs, before, s);
      KeyOfMeant(k, s);
      var m := if Meant(k, s).Some? then Meant(k, s).value else Relation("", "", "", 0.0, "");
      ListsNext(k, rs, before, r, a, d, v, s, m);
      OnlyLists(k, rs, ss);
      if Meant(k, s).None? { v := v + [n]; }
      else if !IsNew(k, KeysOf(rs), before, s) { d := d + [n]; }
      else { a := a + [n]; }
    }
  }

  /** The counts play no part. */
  lemma OnlyLists(k: Knowledge, rs: seq<Relation>, ss: seq<Suggestion>)
    ensures forall r: Report, t: Report, a, d, v ::
              (r.applied, r.duplicates, r.invalid) == (t.applied, t.duplicates, t.invalid) ==>
              ListsTell(k, rs, ss, r, a, d, v) ==> ListsTell(k, rs, ss, t, a, d, v)
  {
    hide AppliedAt, ListedAt, First, Dangling;
  }

  lemma NoLists(k: Knowledge, rs: seq<Relation>, ss: seq<Suggestion>, none: seq<nat>)
    requires ss == [] && none == []
    ensures ListsTell(k, rs, ss, NoReport, none, none, none)
  {
  }

  // ---------------------------------------------------------------- what applying guarantees

  /** Every suggestion is counted once, in exactly one of the three lists. */
  lemma {:induction false} CountsAdd(k: Knowledge, have: set<Key>, ss: seq<Suggestion>)
    ensures var r := Classified(k, have, ss);
            && r.suggestionCount == |ss| == r.appliedCount + r.duplicateCount + r.invalidCount
            && r.appliedCount == |r.applied| && r.duplicateCount == |r.duplicates| && r.invalidCount == |r.invalid|
  {
    hide Meant, IsNew;
    if ss != [] { CountsAdd(k, have, ss[..|ss| - 1]); }
  }

  /** The applied relations are exactly the resolvable suggested ones that were not stored, each once:
      this does not depend on the order of the suggestions. */
  lemma {:induction false} AppliedExactly(k: Knowledge, have: set<Key>, ss: seq<Suggestion>)
    ensures var rs := Classified(k, have, ss).applied;
            && KeysOf(rs) == Seen(k, ss) - have
            && forall i, j :: 0 <= i < j < |rs| ==> KeyOf(rs[i]) != KeyOf(rs[j])
  {
    hide Meant, KeyOf, KeysOf, Seen;
    if ss == [] {
      NothingYet(k);
    } else {
      var n := |ss| - 1;
      AppliedExactly(k, have, ss[..n]);
      SeenSnoc(k, ss, n);
      assert ss[..n + 1] == ss;
      var rs := Classified(k, have, ss[..n]).applied;
      if IsNew(k, have, ss[..n], ss[n]) {
        KeysSnoc(rs, Meant(k, ss[n]).value);
        NotAmong(rs, KeyOf(Meant(k, ss[n]).value));
      }
    }
  }

  lemma NothingYet(k: Knowledge)
    ensures KeysOf([]) == {} && Seen(k, []) == {}
  {
  }

  lemma NotAmong(rs: seq<Relation>, key: Key)
    ensures key !in KeysOf(rs) ==> forall i :: 0 <= i < |rs| ==> KeyOf(rs[i]) != key
  {
    hide KeyOf;
  }

  /** A real run gets through exactly when everything the dry run reports as applied can be created. */
  lemma {:induction false} RaisesAsReported(k: Knowledge, have: set<Key>, ss: seq<Suggestion>)
    ensures Reached(k, have, ss) == |ss| <==> forall r :: r in Classified(k, have, ss).applied ==> Creatable(k, r)
  {
    hide Meant, Seen, Creatable;
    if ss != [] {
      var n := |ss| - 1;
      RaisesAsReported(k, have, ss[..n]);
      var rs := Classified(k, have, ss[..n]).applied;
      assert forall r :: r in rs ==> r in Classified(k, have, ss).applied;
      if IsNew(k, have, ss[..n], ss[n]) {
        assert Meant(k, ss[n]).value in Classified(k, have, ss).applied;
      }
    }
  }

  /** Every applied relation is what some suggestion means, and was not stored. */
  lemma {:induction false} AppliedMeant(k: Knowledge, have: set<Key>, ss: seq<Suggestion>, r: Relation) returns (i: nat)
    requires r in Classified(k, have, ss).applied
    ensures i < |ss| && Meant(k, ss[i]) == Some(r) && KeyOf(r) !in have
  {
    hide Meant, Seen, KeyOf;
    var n := |ss| - 1;
    if r in Classified(k, have, ss[..n]).applied {
      i := AppliedMeant(k, have, ss[..n], r);
    } else {
      i := n;
    }
  }

  /** Whether a meant relation can be created depends on its key only. */
  lemma SameKeyCreatable(k: Knowledge, s: Suggestion, t: Suggestion)
    requires Proper(s) && Proper(t) && Meant(k, s).Some? && Meant(k, t).Some?
    requires KeyOf(Meant(k, s).value) == KeyOf(Meant(k, t).value)
    ensures Creatable(k, Meant(k, s).value) == Creatable(k, Meant(k, t).value)
  {
    hide Resolve, Strip;
    ResolveIdempotent(k, s.target);
    ResolveIdempotent(k, t.target);
    StripTrimmed(s.kind);
    StripTrimmed(t.kind);
    StripTrimmed(Meant(k, s).value.target);
    StripTrimmed(Meant(k, t).value.target);
  }

  /** The suggestion asks for a relation that is not stored and cannot be created. */
  predicate Blocks(k: Knowledge, have: set<Key>, s: Suggestion) {
    Meant(k, s).Some? && KeyOf(Meant(k, s).value) !in have && !Creatable(k, Meant(k, s).value)
  }

  /** A real run gets through if and only if no suggestion asks for a relation between resolved objects that
      is not stored and cannot be created. */
  lemma RaisesExactly(k: Knowledge, have: set<Key>, ss: seq<Suggestion>)
    requires forall i :: 0 <= i < |ss| ==> Proper(ss[i])
    ensures Reached(k, have, ss) == |ss| <==> forall i :: 0 <= i < |ss| ==> !Blocks(k, have, ss[i])
  {
    hide Meant, Creatable, KeyOf, Proper, Classified, Reached;
    var applied := Classified(k, have, ss).applied;
    RaisesAsReported(k, have, ss);
    AppliedExactly(k, have, ss);
    if forall r :: r in applied ==> Creatable(k, r) {
      forall i | 0 <= i < |ss| ensures !Blocks(k, have, ss[i]) {
        if Meant(k, ss[i]).Some? && KeyOf(Meant(k, ss[i]).value) !in have {
          assert KeyOf(Meant(k, ss[i]).value) in KeysOf(applied);
          var j :| 0 <= j < |applied| && KeyOf(applied[j]) == KeyOf(Meant(k, ss[i]).value);
          assert applied[j] in applied;
          var l := AppliedMeant(k, have, ss, applied[j]);
          SameKeyCreatable(k, ss[i], ss[l]);
        }
      }
    }
    forall r | r in applied && (forall i :: 0 <= i < |ss| ==> !Blocks(k, have, ss[i])) ensures Creatable(k, r) {
      var i := AppliedMeant(k, have, ss, r);
      assert !Blocks(k, have, ss[i]);
    }
  }

  /** When all that resolves is stored, nothing is applied and nothing raises. */
  lemma {:induction false} AllKnown(k: Knowledge, have: set<Key>, ss: seq<Suggestion>)
    requires Seen(k, ss) <= have
    ensures Classified(k, have, ss).applied == [] && Reached(k, have, ss) == |ss|
  {
    hide Meant, KeyOf, Seen;
    if ss != [] {
      var n := |ss| - 1;
      SeenSnoc(k, ss, n);
      assert ss[..n + 1] == ss;
      AllKnown(k, have, ss[..n]);
    }
  }

  lemma {:induction false} SameInvalid(k: Knowledge, have: set<Key>, more: set<Key>, ss: seq<Suggestion>)
    ensures Classified(k, have, ss).invalid == Classified(k, more, ss).invalid
  {
    hide Meant, IsNew;
    if ss != [] { SameInvalid(k, have, more, ss[..|ss| - 1]); }
  }

  /** A second real run, on what the first one left, creates nothing. If the first got through, the second
      reports the same invalid suggestions and all others as duplicates; if the first raised, so does the
      second, at the same suggestion. */
  lemma SecondRun(k: Knowledge, relations: seq<Relation>, ss: seq<Suggestion>)
    ensures var have := KeysOf(relations);
            var n := Reached(k, have, ss);
            var again := KeysOf(relations + Classified(k, have, ss[..n]).applied);
            && Reached(k, again, ss) == n
            && Classified(k, again, ss[..n]).applied == []
            && (n == |ss| ==> Classified(k, again, ss).invalid == Classified(k, have, ss).invalid)
  {
    hide Meant, KeyOf, Seen, Classified, Creatable, KeysOf;
    var have := KeysOf(relations);
    var n := Reached(k, have, ss);
    var first := ss[..n];
    AppliedExactly(k, have, first);
    KeysConcat(relations, Classified(k, have, first).applied);
    var again := KeysOf(relations + Classified(k, have, first).applied);
    assert again == have + Seen(k, first);
    AllKnown(k, again, first);
    SameInvalid(k, have, again, ss);
    if n == |ss| {
      assert first == ss;
    } else {
      StoppedAt(k, have, ss);
      assert ss[..n + 1][..n] == first;
      assert Reached(k, again, ss[..n + 1]) == n;
      ReachedStays(k, again, ss, n);
    }
  }

  /** Where a run stops there is a new suggestion that cannot be created. */
  lemma {:induction false} StoppedAt(k: Knowledge, have: set<Key>, ss: seq<Suggestion>)
    requires Reached(k, have, ss) < |ss|
    ensures var n := Reached(k, have, ss);
            IsNew(k, have, ss[..n], ss[n]) && !Creatable(k, Meant(k, ss[n]).value)
  {
    hide Creatable, IsNew, Meant;
    var n := Reached(k, have, ss);
    if n < |ss| - 1 {
      StoppedAt(k, have, ss[..|ss| - 1]);
      assert ss[..|ss| - 1][..n] == ss[..n];
    }
  }

  lemma {:induction false} KeysConcat(a: seq<Relation>, b: seq<Relation>)
    ensures KeysOf(a + b) == KeysOf(a) + KeysOf(b)
  {
    hide KeyOf, KeysOf;
    if b == [] {
      NoKeys();
      assert a + b == a;
    } else {
      var n := |b| - 1;
      KeysConcat(a, b[..n]);
      KeysSnoc(a + b[..n], b[n]);
      KeysSnoc(b[..n], b[n]);
      assert b == b[..n] + [b[n]] && a + b == (a + b[..n]) + [b[n]];
    }
  }

  lemma NoKeys()
    ensures KeysOf([]) == {}
  {
  }

  /** A suggested relation of an object to itself: the dry run reports it as applied, the real run raises. */
  lemma SelfRelationRaises()
    ensures var k := Knowledge(map["a" := "wiki"], []);
            var ss := [Suggestion("a", "a", "cites", 1.0, "")];
            |Classified(k, {}, ss).applied| == 1 && Reached(k, {}, ss) == 0
  {
    var k := Knowledge(map["a" := "wiki"], []);
    var s := Suggestion("a", "a", "cites", 1.0, "");
    var ss := [s];
    assert Strip("a") == "a" && Resolve(k, "a") == Resolved("a");
    assert ss[..0] == [] && Seen(k, []) == {};
    assert Classified(k, {}, []) == NoReport && Reached(k, {}, []) == 0;
    assert IsNew(k, {}, [], s);
  }
}
