/** Materialising source evidence: the evidence entries of a canonical record's source pack are added
    to the record's task, unless an object with that id already exists in any task. */
module SourceEvidence {
  import opened Text
  import opened Collections
  import opened KnowledgeEntries
  import opened KnowledgeFiles
  import opened KnowledgeStore

  type Tasks = map<string, TaskFiles>

  function FilesIn(tasks: Tasks, task: string): TaskFiles {
    if task in tasks then tasks[task] else NoFiles
  }

  ghost predicate InView(view: seq<Entry>, id: string) {
    exists i :: 0 <= i < |view| && Strip(view[i].objectId) == id
  }

  /** Some task's loaded view has an object with this id. */
  ghost predicate Exists(now: string, tasks: Tasks, id: string) {
    id != "" && exists task :: task in tasks && InView(Load(now, tasks[task]), id)
  }

  /** The ids of the pack, each once, in first-occurrence order. */
  function PackIds(pack: seq<Entry>): (ids: seq<string>)
    ensures Distinct(ids) && "" !in ids
  {
    if pack == [] then []
    else
      var n := |pack| - 1;
      var ids, id := PackIds(pack[..n]), Strip(pack[n].objectId);
      if id == "" || id in ids then ids else ids + [id]
  }

  /** No id of the pack is missing, and there are no others. */
  lemma {:induction false} PackIdsComplete(pack: seq<Entry>)
    ensures forall id ::
              id in PackIds(pack)
              <==> id != "" && exists i :: 0 <= i < |pack| && Strip(pack[i].objectId) == id
  {
    hide Strip;
    if pack != [] {
      var n := |pack| - 1;
      PackIdsComplete(pack[..n]);
      assert forall i :: 0 <= i < n ==> pack[..n][i] == pack[i];
    }
  }

  /** The first entry of each id that does not exist yet. */
  ghost function Missing(now: string, tasks: Tasks, pack: seq<Entry>): seq<Entry> {
    if pack == [] then []
    else
      var n := |pack| - 1;
      var id := Strip(pack[n].objectId);
      Missing(now, tasks, pack[..n])
      + (if id == "" || id in PackIds(pack[..n]) || Exists(now, tasks, id) then [] else [pack[n]])
  }

  /** The first entry of the pack with its id. */
  ghost predicate FirstOfId(pack: seq<Entry>, i: nat) {
    i < |pack| && Strip(pack[i].objectId) != ""
        && forall j :: 0 <= j < i ==> Strip(pack[j].objectId) != Strip(pack[i].objectId)
  }

  ghost predicate Increasing(ps: seq<nat>) {
    forall i, j :: 0 <= i < j < |ps| ==> ps[i] < ps[j]
  }

  /** `ps` are the places of the first entries of each id, in order: the ids listed are theirs. */
  ghost predicate IdsAt(pack: seq<Entry>, ids: seq<string>, ps: seq<nat>) {
    && |ps| == |ids| && Increasing(ps) && (forall i: nat :: i in ps <==> FirstOfId(pack, i))
    && forall i :: 0 <= i < |ps| ==> ps[i] < |pack| && ids[i] == Strip(pack[ps[i]].objectId)
  }

  /** `qs` are the places of those whose id does not exist yet: the missing entries are these. */
  ghost predicate MissingAt(now: string, tasks: Tasks, pack: seq<Entry>, missing: seq<Entry>, qs: seq<nat>) {
    && |qs| == |missing| && Increasing(qs)
    && (forall i: nat :: i in qs <==> FirstOfId(pack, i) && !Exists(now, tasks, Strip(pack[i].objectId)))
    && forall i :: 0 <= i < |qs| ==> qs[i] < |pack| && missing[i] == pack[qs[i]]
  }

  lemma FirstKept(pack: seq<Entry>, n: nat, i: nat)
    requires i < n <= |pack|
    ensures FirstOfId(pack[..n], i) <==> FirstOfId(pack, i)
  {
    hide Strip;
    assert forall j :: 0 <= j < n ==> pack[..n][j] == pack[j];
  }

  lemma LastIsFirst(pack: seq<Entry>)
    requires pack != []
    ensures var n := |pack| - 1;
            FirstOfId(pack, n) <==> Strip(pack[n].objectId) != "" && Strip(pack[n].objectId) !in PackIds(pack[..n])
  {
    hide Strip, PackIds;
    PackIdsComplete(pack[..|pack| - 1]);
  }

  lemma FirstsNext(pack: seq<Entry>, n: nat)
    requires n < |pack|
    ensures forall i: nat :: FirstOfId(pack[..n + 1], i) <==> FirstOfId(pack[..n], i) || (i == n && FirstOfId(pack, n))
    ensures forall i: nat :: FirstOfId(pack[..n], i) ==> i < n
  {
    hide Strip;
    forall i: nat | i < n { FirstKept(pack, n, i); }
    forall i: nat | i < n + 1 { FirstKept(pack, n + 1, i); }
  }

  lemma InSnoc(xs: seq<nat>, x: nat)
    ensures forall i: nat :: i in xs + [x] <==> i in xs || i == x
  {
  }

  /** One more entry that is not the first of its id. */
  lemma SameIds(pack: seq<Entry>, n: nat, ids: seq<string>, ps: seq<nat>)
    requires n < |pack| && IdsAt(pack[..n], ids, ps) && !FirstOfId(pack, n)
    ensures IdsAt(pack[..n + 1], ids, ps)
  {
    hide Strip, FirstOfId;
    FirstsNext(pack, n);
  }

  lemma MoreIds(pack: seq<Entry>, n: nat, ids: seq<string>, ps: seq<nat>)
    requires n < |pack| && IdsAt(pack[..n], ids, ps) && FirstOfId(pack, n)
    ensures IdsAt(pack[..n + 1], ids + [Strip(pack[n].objectId)], ps + [n])
  {
    hide Strip, FirstOfId;
    FirstsNext(pack, n);
    InSnoc(ps, n);
    assert forall i :: 0 <= i < |ps| ==> ps[i] in ps;
  }

  lemma {:induction false} IdsInOrder(pack: seq<Entry>) returns (ps: seq<nat>)
    ensures IdsAt(pack, PackIds(pack), ps)
  {
    hide Strip, FirstOfId, IdsAt;
    ps := [];
    if pack != [] {
      var n := |pack| - 1;
      assert pack[..n + 1] == pack;
      ps := IdsInOrder(pack[..n]);
      LastIsFirst(pack);
      if FirstOfId(pack, n) {
        MoreIds(pack, n, PackIds(pack[..n]), ps);
        ps := ps + [n];
      } else {
        SameIds(pack, n, PackIds(pack[..n]), ps);
      }
    } else {
      NoIdsAt(pack, ps);
    }
  }

  lemma NoIdsAt(pack: seq<Entry>, ps: seq<nat>)
    requires pack == [] && ps == []
    ensures IdsAt(pack, [], ps) && forall now, tasks :: MissingAt(now, tasks, pack, [], ps)
  {
    hide Exists;
  }

  lemma SameMissing(now: string, tasks: Tasks, pack: seq<Entry>, n: nat, missing: seq<Entry>, qs: seq<nat>)
    requires n < |pack| && MissingAt(now, tasks, pack[..n], missing, qs)
    requires !(FirstOfId(pack, n) && !Exists(now, tasks, Strip(pack[n].objectId)))
    ensures MissingAt(now, tasks, pack[..n + 1], missing, qs)
  {
    hide Strip, Exists;
    FirstsNext(pack, n);
    assert forall i :: 0 <= i < n ==> pack[..n][i] == pack[i] && pack[..n + 1][i] == pack[i];
    assert pack[..n + 1][n] == pack[n];
  }

  lemma MoreMissing(now: string, tasks: Tasks, pack: seq<Entry>, n: nat, missing: seq<Entry>, qs: seq<nat>)
    requires n < |pack| && MissingAt(now, tasks, pack[..n], missing, qs)
    requires FirstOfId(pack, n) && !Exists(now, tasks, Strip(pack[n].objectId))
    ensures MissingAt(now, tasks, pack[..n + 1], missing + [pack[n]], qs + [n])
  {
    hide Strip, Exists;
    FirstsNext(pack, n);
    assert forall i :: 0 <= i < n ==> pack[..n][i] == pack[i] && pack[..n + 1][i] == pack[i];
    assert pack[..n + 1][n] == pack[n];
    InSnoc(qs, n);
    assert forall i :: 0 <= i < |qs| ==> qs[i] in qs;
  }

  lemma {:induction false} MissingInOrder(now: string, tasks: Tasks, pack: seq<Entry>) returns (qs: seq<nat>)
    ensures MissingAt(now, tasks, pack, Missing(now, tasks, pack), qs)
  {
    hide Strip, FirstOfId, Exists, PackIds, MissingAt;
    qs := [];
    if pack != [] {
      var n := |pack| - 1;
      assert pack[..n + 1] == pack;
      qs := MissingInOrder(now, tasks, pack[..n]);
      LastIsFirst(pack);
      var before := Missing(now, tasks, pack[..n]);
      if FirstOfId(pack, n) && !Exists(now, tasks, Strip(pack[n].objectId)) {
        MoreMissing(now, tasks, pack, n, before, qs);
        qs := qs + [n];
      } else {
        SameMissing(now, tasks, pack, n, before, qs);
        assert before + [] == before;
      }
    } else {
      NoIdsAt(pack, qs);
    }
  }

  ghost function Materialized(tasks: Tasks, task: string, pack: seq<Entry>, now: string, later: string): Tasks {
    var missing := Missing(now, tasks, pack);
    if task == "" || missing == [] then tasks
    else tasks[task := Mirror(now, later, Merged(Load(now, FilesIn(tasks, task)) + missing))]
  }

  /** The entries the pack's anchors are turned into are evidence. */
  ghost predicate EvidencePack(pack: seq<Entry>) {
    forall i :: 0 <= i < |pack| ==> pack[i].storeType == EVIDENCE
  }

  class SourceEvidenceBase {
    var base: KnowledgeBase

    constructor (base: KnowledgeBase)
      ensures this.base == base
    {
      this.base := base;
    }

    method ViewHasObject(task: string, id: string, now: string) returns (found: bool)
      ensures found == InView(Load(now, base.Files(task)), id)
    {
      hide Load, Strip;
      var view := base.LoadTaskKnowledgeView(task, now);
      for i := 0 to |view|
        invariant forall j :: 0 <= j < i ==> Strip(view[j].objectId) != id
      {
        if Strip(view[i].objectId) == id {
          return true;
        }
      }
      return false;
    }

    method KnowledgeObjectExists(id: string, now: string) returns (found: bool)
      ensures found == Exists(now, base.tasks, Strip(id))
    {
      hide Load, Strip, InView;
      var normalized := Strip(id);
      if normalized == "" {
        return false;
      }
      var rest := base.tasks.Keys;
      while rest != {}
        invariant rest <= base.tasks.Keys
        invariant forall task :: task in base.tasks && task !in rest ==>
            !InView(Load(now, base.tasks[task]), normalized)
      {
        var task :| task in rest;
        var here := ViewHasObject(task, normalized, now);
        if here {
          return true;
        }
        rest := rest - {task};
      }
      return false;
    }

    method Materialize(task: string, pack: seq<Entry>, now: string, later: string) returns (ids: seq<string>)
      modifies base
      ensures ids == if task == "" then [] else PackIds(pack)
      ensures base.tasks == Materialized(old(base.tasks), task, pack, now, later)
    {
      hide Exists, Load, Mirror, Merged;
      if task == "" {
        return [];
      }
      ids := [];
      var entries: seq<Entry> := [];
      assert pack[..0] == [];
      for i := 0 to |pack|
        invariant ids == PackIds(pack[..i]) && entries == Missing(now, base.tasks, pack[..i])
        invariant base.tasks == old(base.tasks)
      {
        assert pack[..i + 1][..i] == pack[..i];
        var id := Strip(pack[i].objectId);
        if id == "" || id in ids {
          continue;
        }
        ids := ids + [id];
        var found := KnowledgeObjectExists(id, now);
        if found {
          continue;
        }
        entries := entries + [pack[i]];
      }
      assert pack[..|pack|] == pack;
      if entries == [] {
        return;
      }
      var view := base.LoadTaskKnowledgeView(task, now);
      var merged := MergeViews(view + entries);
      var normalized := base.PersistTaskKnowledgeView(task, merged, now, later);
    }
  }
}
