/** What materialising source evidence guarantees: which objects exist afterwards, that nothing is lost,
    that a second call changes nothing, and that none of it depends on the clock. */
module SourceEvidenceTheorems {
  import opened Text
  import opened KnowledgeEntries
  import opened KnowledgeFiles
  import opened SourceEvidence

  // ---------------------------------------------------------------- the clock does not matter

  /** Entries that differ at most in what a clock reading filled in. */
  ghost predicate Similar(a: Entry, b: Entry) {
    a.objectId == b.objectId && EntryId(a) == EntryId(b) && a.storeType == b.storeType
  }

  ghost predicate AllSimilar(es: seq<Entry>, fs: seq<Entry>) {
    |es| == |fs| && forall i :: 0 <= i < |es| ==> Similar(es[i], fs[i])
  }

  lemma SimilarInit(es: seq<Entry>, fs: seq<Entry>)
    requires AllSimilar(es, fs) && es != []
    ensures var n := |es| - 1; AllSimilar(es[..n], fs[..n]) && Similar(es[n], fs[n])
  {
  }

  lemma {:induction false} SimilarKeys(es: seq<Entry>, fs: seq<Entry>)
    requires AllSimilar(es, fs)
    ensures Keys(es) == Keys(fs) && AllSimilar(WikiEntries(es), WikiEntries(fs))
  {
    hide EntryId;
    if es != [] {
      SimilarInit(es, fs);
      SimilarKeys(es[..|es| - 1], fs[..|es| - 1]);
    }
  }

  lemma {:induction false} SimilarLast(es: seq<Entry>, fs: seq<Entry>, k: string)
    requires AllSimilar(es, fs)
    ensures HasKey(es, k) <==> HasKey(fs, k)
    ensures HasKey(es, k) ==> Similar(LastWith(es, k), LastWith(fs, k))
  {
    hide EntryId;
    if es != [] {
      SimilarInit(es, fs);
      HasKeySnoc(es, k);
      HasKeySnoc(fs, k);
      SimilarLast(es[..|es| - 1], fs[..|es| - 1], k);
    }
  }

  lemma SimilarMerged(es: seq<Entry>, fs: seq<Entry>)
    requires AllSimilar(es, fs)
    ensures AllSimilar(Merged(es), Merged(fs))
  {
    hide EntryId, Keys, HasKey, LastWith, WikiEntries, Similar;
    SimilarKeys(es, fs);
    var ks := Keys(es);
    forall i | 0 <= i < |ks| ensures Similar(Merged(es)[i], Merged(fs)[i]) {
      KeysHave(es);
      KeysHave(fs);
      SimilarLast(es, fs, ks[i]);
      SimilarLast(WikiEntries(es), WikiEntries(fs), ks[i]);
    }
  }

  lemma SimilarNormal(now: string, later: string, e: Entry)
    ensures Similar(Normalize(now, e), Normalize(later, e)) && Similar(NormalizeWiki(now, e), NormalizeWiki(later, e))
  {
    hide Strip, Blank, NonBlanks;
  }

  lemma SimilarLoad(now: string, later: string, t: TaskFiles)
    ensures AllSimilar(Load(now, t), Load(later, t))
  {
    hide Listing, Merged, Similar, NormalizeWiki, Normalize, NormalizeEvidence;
    forall e { SimilarNormal(now, later, e); }
    forall e ensures Similar(e, e) { SimilarSelf(e); }
    SimilarMerged(Copies(now, t), Copies(later, t));
  }

  lemma SimilarSelf(e: Entry)
    ensures Similar(e, e)
  {
  }

  lemma SimilarInView(es: seq<Entry>, fs: seq<Entry>, id: string)
    requires AllSimilar(es, fs)
    ensures InView(es, id) <==> InView(fs, id)
  {
    hide Strip, EntryId;
  }

  /** Whether an object exists does not depend on when it is asked. */
  lemma ExistsAnyTime(now: string, later: string, tasks: Tasks, id: string)
    ensures Exists(now, tasks, id) == Exists(later, tasks, id)
  {
    hide Load, InView, Similar;
    forall task | task in tasks ensures InView(Load(now, tasks[task]), id) == InView(Load(later, tasks[task]), id) {
      SimilarLoad(now, later, tasks[task]);
      SimilarInView(Load(now, tasks[task]), Load(later, tasks[task]), id);
    }
  }

  // ---------------------------------------------------------------- what is added

  /** The missing entries are exactly a first entry for each id of the pack that does not exist yet. */
  lemma {:induction false} MissingFacts(now: string, tasks: Tasks, pack: seq<Entry>)
    ensures forall x :: x in Missing(now, tasks, pack) ==>
              x in pack && Strip(x.objectId) in PackIds(pack) && !Exists(now, tasks, Strip(x.objectId))
    ensures forall id :: id in PackIds(pack) && !Exists(now, tasks, id) ==>
              exists x :: x in Missing(now, tasks, pack) && Strip(x.objectId) == id
  {
    hide Exists, Strip;
    if pack != [] {
      var n := |pack| - 1;
      MissingFacts(now, tasks, pack[..n]);
      assert pack == pack[..n] + [pack[n]];
      var before, m := Missing(now, tasks, pack[..n]), Missing(now, tasks, pack);
      assert forall x :: x in before ==> x in m;
    }
  }

  lemma {:induction false} NoMissing(now: string, tasks: Tasks, pack: seq<Entry>)
    requires forall id :: id in PackIds(pack) ==> Exists(now, tasks, id)
    ensures Missing(now, tasks, pack) == []
  {
    hide Exists, Strip;
    if pack != [] {
      var n := |pack| - 1;
      assert forall id :: id in PackIds(pack[..n]) ==> id in PackIds(pack);
      NoMissing(now, tasks, pack[..n]);
    }
  }

  lemma ObjectKey(e: Entry)
    ensures Strip(e.objectId) != "" ==> EntryId(e) == Strip(e.objectId)
  {
  }

  /** Entries with distinct keys: merging keeps them all. */
  lemma {:induction false} MergedKeys(es: seq<Entry>, i: nat)
    requires i < |Merged(es)|
    ensures EntryId(Merged(es)[i]) == Keys(es)[i]
  {
  }

  ghost predicate DistinctKeys(es: seq<Entry>) {
    forall i, j :: 0 <= i < j < |es| ==> EntryId(es[i]) != EntryId(es[j])
  }

  lemma MergedDistinct(es: seq<Entry>)
    ensures DistinctKeys(Merged(es))
  {
    hide EntryId, Winner, Keys;
    forall i, j | 0 <= i < j < |Merged(es)| ensures EntryId(Merged(es)[i]) != EntryId(Merged(es)[j]) {
      MergedKeys(es, i);
      MergedKeys(es, j);
    }
  }

  lemma {:induction false} DistinctWinner(es: seq<Entry>, x: Entry)
    requires DistinctKeys(es) && x in es
    ensures HasKey(es, EntryId(x)) && Winner(es, EntryId(x)) == x
  {
    hide EntryId;
    var i :| 0 <= i < |es| && es[i] == x;
    var w := Winner(es, EntryId(x));
    var j :| 0 <= j < |es| && es[j] == w;
  }

  lemma {:induction false} DistinctKeysList(es: seq<Entry>)
    requires DistinctKeys(es)
    ensures |Keys(es)| == |es| && forall i :: 0 <= i < |es| ==> Keys(es)[i] == EntryId(es[i])
  {
    hide EntryId;
    if es != [] {
      var n := |es| - 1;
      assert es == es[..n] + [es[n]];
      DistinctKeysList(es[..n]);
      KeysSnoc(es[..n], es[n]);
    }
  }

  lemma DistinctMerged(es: seq<Entry>)
    requires DistinctKeys(es)
    ensures Merged(es) == es
  {
    hide EntryId, Winner, HasKey, Keys;
    DistinctKeysList(es);
    forall i | 0 <= i < |es| ensures Merged(es)[i] == es[i] {
      assert es[i] in es;
      DistinctWinner(es, es[i]);
    }
  }

  /** A loaded entry of kind wiki has stage canonical, so normalising keeps it a wiki entry. */
  lemma LoadWiki(now: string, t: TaskFiles)
    ensures forall x :: x in Load(now, t) && x.storeType == WIKI ==> IsCanonical(x)
  {
    hide Copies, IsCanonical, Keys, HasKey, Winner;
    CopiesWiki(now, t);
    var es := Copies(now, t);
    forall x | x in Load(now, t) && x.storeType == WIKI ensures IsCanonical(x) { assert x in es; }
  }

  lemma CopiesWiki(now: string, t: TaskFiles)
    ensures forall x :: x in Copies(now, t) && x.storeType == WIKI ==> IsCanonical(x)
  {
    hide Listing, NormalizeWiki, NormalizeEvidence, Normalize, IsCanonical;
    var es, ev, ws := t.listFile, Listing(t.evidence), Listing(t.wiki);
    forall i | 0 <= i < |es| ensures var x := NormalizeView(now, es)[i]; x.storeType == WIKI ==> IsCanonical(x) {
      ForcedKind(now, es[i]);
    }
    forall i | 0 <= i < |ev| ensures AllEvidence(ev)[i].storeType != WIKI { ForcedKind(now, ev[i]); }
    forall i | 0 <= i < |ws| ensures IsCanonical(AllWiki(now, ws)[i]) { ForcedKind(now, ws[i]); }
  }

  lemma ForcedKind(now: string, e: Entry)
    ensures IsCanonical(NormalizeWiki(now, e)) && NormalizeEvidence(e).storeType != WIKI
    ensures Normalize(now, e).storeType == WIKI <==> IsCanonical(e)
    ensures IsCanonical(e) ==> IsCanonical(Normalize(now, e))
  {
    StripTrimmed("canonical");
  }

  lemma NormalizeIds(now: string, es: seq<Entry>)
    ensures Keys(NormalizeView(now, es)) == Keys(es)
    ensures DistinctKeys(es) ==> DistinctKeys(NormalizeView(now, es))
    ensures forall id :: InView(NormalizeView(now, es), id) <==> InView(es, id)
  {
    hide Normalize, EntryId, Strip;
    forall e { NormalizeKeepsIds(now, e); }
    SameIdsKeys(NormalizeView(now, es), es);
  }

  lemma NormalizeKeepsIds(now: string, e: Entry)
    ensures EntryId(Normalize(now, e)) == EntryId(e) && Normalize(now, e).objectId == e.objectId
  {
    hide Blank, Strip, NonBlanks;
  }

  lemma {:induction false} SameIdsKeys(es: seq<Entry>, fs: seq<Entry>)
    requires |es| == |fs| && forall i :: 0 <= i < |es| ==> EntryId(es[i]) == EntryId(fs[i])
    ensures Keys(es) == Keys(fs)
  {
    hide EntryId;
    if es != [] { SameIdsKeys(es[..|es| - 1], fs[..|es| - 1]); }
  }

  // ---------------------------------------------------------------- the view that is written

  /** What reading the task gives after `missing` was merged into its view and written. */
  lemma WrittenView(now: string, later: string, latest: string, view: seq<Entry>)
    requires !Blank(now) && DistinctKeys(view)
    ensures Load(latest, Mirror(now, later, view)) == NormalizeView(now, view)
  {
    hide EntryId, Normalize, Load, Mirror, Merged;
    RoundTrip(now, later, latest, view);
    NormalizeIds(now, view);
    DistinctMerged(NormalizeView(now, view));
  }

  /** Adding entries whose ids are new: the winner of any other key stays, and a new id wins unless a
      wiki entry without an object id already holds its key. */
  lemma {:induction false} AddedWinner(es: seq<Entry>, xs: seq<Entry>, k: string)
    requires HasKey(es + xs, k) && forall x :: x in xs ==> x.storeType != WIKI
    ensures !HasKey(xs, k) ==> HasKey(es, k) && Winner(es + xs, k) == Winner(es, k)
    ensures HasKey(xs, k) && !HasKey(WikiEntries(es), k) ==> Winner(es + xs, k) in xs
    ensures HasKey(WikiEntries(es), k) ==>
        HasKey(es, k) && Winner(es + xs, k) == Winner(es, k) && Winner(es, k).storeType == WIKI
  {
    hide EntryId, Winner, HasKey, WikiEntries;
    WikiKeyHas(es, k);
    if HasKey(es, k) { WinnerKind(es, k); }
    if xs == [] {
      assert es + xs == es;
      NoKey(k);
    } else {
      var n := |xs| - 1;
      var ps, e := xs[..n], xs[n];
      assert xs == ps + [e] && es + xs == (es + ps) + [e];
      HasKeyAppend(es + ps, e, k);
      HasKeyAppend(ps, e, k);
      WinnerSnoc(es + ps, e, k);
      if HasKey(es + ps, k) {
        AddedWinner(es, ps, k);
        WinnerKind(es + ps, k);
      } else {
        HasKeyPrefix(es, ps, k);
      }
      assert e in xs;
    }
  }

  lemma NoKey(k: string)
    ensures !HasKey([], k)
  {
  }

  lemma HasKeyPrefix(es: seq<Entry>, ps: seq<Entry>, k: string)
    ensures HasKey(es + ps, k) <==> HasKey(es, k) || HasKey(ps, k)
  {
    hide EntryId;
    if i :| 0 <= i < |es| && EntryId(es[i]) == k { assert (es + ps)[i] == es[i]; }
    if i :| 0 <= i < |ps| && EntryId(ps[i]) == k { assert (es + ps)[|es| + i] == ps[i]; }
  }

  /** The objects of a view are the keys whose winner has an object id. */
  lemma ObjectsOfMerged(es: seq<Entry>, id: string)
    requires id != ""
    ensures InView(Merged(es), id) <==> HasKey(es, id) && Strip(Winner(es, id).objectId) == id
  {
    hide EntryId, Strip, Winner, Keys, HasKey;
    KeysHave(es);
    var r := Merged(es);
    if InView(r, id) {
      var i :| 0 <= i < |r| && Strip(r[i].objectId) == id;
      ObjectKey(r[i]);
    }
    if HasKey(es, id) {
      assert id in Keys(es);
      var i :| 0 <= i < |Keys(es)| && Keys(es)[i] == id;
      assert r[i] == Winner(es, id);
    }
  }

  /** Merging new entries into a view: an object is there afterwards exactly when it was there before,
      or it was added and its key is not held by a wiki entry. */
  lemma MergedObjects(view: seq<Entry>, missing: seq<Entry>, id: string)
    requires id != "" && DistinctKeys(view)
    requires forall x :: x in missing ==>
        x.storeType != WIKI && Strip(x.objectId) != "" && !InView(view, Strip(x.objectId))
    ensures InView(Merged(view + missing), id)
        <==> InView(view, id) || (InView(missing, id) && !HasKey(WikiEntries(view), id))
  {
    hide EntryId, Strip, Winner, HasKey, WikiEntries, InView;
    DistinctMerged(view);
    ObjectsOfMerged(view, id);
    ObjectsOfMerged(view + missing, id);
    AddedObjects(view, missing, id);
    HasKeyPrefix(view, missing, id);
    if HasKey(view + missing, id) { AddedWinner(view, missing, id); }
    WikiKeyHas(view, id);
  }

  /** The added entries are keyed by their object ids. */
  lemma AddedObjects(view: seq<Entry>, missing: seq<Entry>, id: string)
    requires forall x :: x in missing ==> Strip(x.objectId) != "" && !InView(view, Strip(x.objectId))
    ensures InView(missing, id) <==> HasKey(missing, id)
    ensures InView(missing, id) ==> !InView(view, id)
    ensures forall x :: x in missing ==> EntryId(x) == Strip(x.objectId)
  {
    hide EntryId, Strip;
    forall x | x in missing ensures EntryId(x) == Strip(x.objectId) { ObjectKey(x); }
    assert forall i :: 0 <= i < |missing| ==> missing[i] in missing;
  }

  // ---------------------------------------------------------------- the main results

  lemma NothingLoaded(now: string, id: string)
    ensures !InView(Load(now, NoFiles), id)
  {
    hide EntryId, Strip, Blank;
    assert Listing(map[]) == [];
    assert Copies(now, NoFiles) == [];
    assert Keys([]) == [];
  }

  /** Writing one task's files changes only whether that task's view has an object. */
  lemma ExistsAfterWrite(now: string, tasks: Tasks, task: string, t: TaskFiles, id: string)
    requires id != ""
    ensures Exists(now, tasks, id) ==> InView(Load(now, FilesIn(tasks, task)), id) || Exists(now, tasks[task := t], id)
    ensures InView(Load(now, FilesIn(tasks, task)), id) ==> Exists(now, tasks, id)
    ensures InView(Load(now, t), id) ==> Exists(now, tasks[task := t], id)
    ensures Exists(now, tasks[task := t], id) ==> InView(Load(now, t), id) || Exists(now, tasks, id)
  {
    hide Load, InView;
    var after := tasks[task := t];
    NothingLoaded(now, id);
    assert task in after && after[task] == t;
    if Exists(now, tasks, id) {
      var u :| u in tasks && InView(Load(now, tasks[u]), id);
      if u != task { assert u in after && after[u] == tasks[u]; }
    }
    if Exists(now, after, id) {
      var u :| u in after && InView(Load(now, after[u]), id);
      if u != task { assert u in tasks && after[u] == tasks[u]; }
    }
  }

  lemma MissingNew(now: string, tasks: Tasks, task: string, pack: seq<Entry>)
    requires EvidencePack(pack)
    ensures forall x :: x in Missing(now, tasks, pack) ==>
              x.storeType != WIKI && Strip(x.objectId) != ""
                  && !InView(Load(now, FilesIn(tasks, task)), Strip(x.objectId))
  {
    hide Strip, Load, InView, Exists;
    MissingFacts(now, tasks, pack);
    forall x | x in Missing(now, tasks, pack)
        ensures x.storeType != WIKI && !InView(Load(now, FilesIn(tasks, task)), Strip(x.objectId)) {
      ExistsAfterWrite(now, tasks, task, NoFiles, Strip(x.objectId));
    }
  }

  /** The view that is written: `view` before, the missing entries merged in. */
  ghost function NewView(now: string, tasks: Tasks, task: string, pack: seq<Entry>): seq<Entry> {
    Merged(Load(now, FilesIn(tasks, task)) + Missing(now, tasks, pack))
  }

  lemma NewViewObjects(now: string, tasks: Tasks, task: string, pack: seq<Entry>, id: string)
    requires id != "" && EvidencePack(pack)
    ensures InView(NewView(now, tasks, task, pack), id) <==>
            InView(Load(now, FilesIn(tasks, task)), id) ||
            (id in PackIds(pack) && !Exists(now, tasks, id)
                && !HasKey(WikiEntries(Load(now, FilesIn(tasks, task))), id))
  {
    hide Strip, EntryId, Copies, Exists, Missing;
    MissingNew(now, tasks, task, pack);
    MissingFacts(now, tasks, pack);
    MergedDistinct(Copies(now, FilesIn(tasks, task)));
    var missing := Missing(now, tasks, pack);
    MergedObjects(Load(now, FilesIn(tasks, task)), missing, id);
    assert InView(missing, id) <==> id in PackIds(pack) && !Exists(now, tasks, id) by {
      assert forall i :: 0 <= i < |missing| ==> missing[i] in missing;
    }
  }

  /** Exactly which objects exist afterwards: every one that existed before, and every id of the pack
      except one whose key a wiki entry without an object id already holds in the record's task. */
  lemma MaterializedObjects(tasks: Tasks, task: string, pack: seq<Entry>, now: string, later: string, latest: string,
                            id: string)
    requires !Blank(now) && task != "" && EvidencePack(pack) && id != ""
    ensures Exists(latest, Materialized(tasks, task, pack, now, later), id) <==>
            Exists(latest, tasks, id)
                || (id in PackIds(pack) && !HasKey(WikiEntries(Load(now, FilesIn(tasks, task))), id))
  {
    hide Exists, InView, Load, Merged, Strip, EntryId, Mirror, WikiEntries, HasKey, Missing, Blank;
    ExistsAnyTime(now, latest, tasks, id);
    MissingFacts(now, tasks, pack);
    if Missing(now, tasks, pack) != [] {
      var view := NewView(now, tasks, task, pack);
      var t := Mirror(now, later, view);
      MergedDistinct(Load(now, FilesIn(tasks, task)) + Missing(now, tasks, pack));
      WrittenView(now, later, now, view);
      NormalizeIds(now, view);
      NewViewObjects(now, tasks, task, pack, id);
      ExistsAfterWrite(now, tasks, task, t, id);
      ExistsAnyTime(now, latest, tasks[task := t], id);
    }
  }

  lemma {:induction false} EvidenceAnyTime(later: string, latest: string, es: seq<Entry>)
    requires AllNormal(es)
    ensures EvidenceOf(later, es) == EvidenceOf(latest, es)
  {
    hide Normal, Normalize, IsCanonical;
    if es != [] {
      EvidenceAnyTime(later, latest, es[..|es| - 1]);
      EvidenceSnoc(later, es);
      EvidenceSnoc(latest, es);
    }
  }

  /** Writing back a view that was just written changes no file. */
  lemma MirrorStable(now: string, later: string, now2: string, later2: string, view: seq<Entry>)
    requires !Blank(now)
    ensures Mirror(now2, later2, NormalizeView(now, view)) == Mirror(now, later, view)
  {
    hide Normal, Normalize, IsCanonical, EntryId, FilesOf, EvidenceOf, WikiOf, WikiEntries, Blank;
    var es := NormalizeView(now, view);
    NormalizedNormal(now, view);
    NormalViewFixed(now2, es);
    EvidenceAnyTime(later, later2, es);
    SplitNormal(later, es);
    SplitNormal(later2, es);
  }

  /** A key held by a wiki entry of the task is still held by a wiki entry in the view that is written. */
  lemma ShadowStays(now: string, tasks: Tasks, task: string, pack: seq<Entry>, k: string)
    requires EvidencePack(pack) && HasKey(WikiEntries(Load(now, FilesIn(tasks, task))), k)
    ensures var es := NormalizeView(now, NewView(now, tasks, task, pack));
            HasKey(es, k) && Winner(es, k).storeType == WIKI
  {
    hide Strip, EntryId, Copies, Exists, Missing, Keys, Winner, HasKey, WikiEntries, Normalize, InView, IsCanonical;
    hide Merged;
    var view, missing := Load(now, FilesIn(tasks, task)), Missing(now, tasks, pack);
    MissingNew(now, tasks, task, pack);
    WikiKeyHas(view, k);
    HasKeyPrefix(view, missing, k);
    AddedWinner(view, missing, k);
    LoadWiki(now, FilesIn(tasks, task));
    var w := Winner(view, k);
    ForcedKind(now, w);
    NormalizeKeepsIds(now, w);
    var merged := NewView(now, tasks, task, pack);
    MergedDistinct(view + missing);
    NormalizeIds(now, merged);
    WinnerMerged(view + missing, k);
    var i :| 0 <= i < |merged| && merged[i] == w;
    var es := NormalizeView(now, merged);
    assert es[i] in es;
    DistinctWinner(es, es[i]);
  }

  lemma WinnerMerged(es: seq<Entry>, k: string)
    requires HasKey(es, k)
    ensures Winner(es, k) in Merged(es)
  {
    hide EntryId, Winner, HasKey;
    KeysHave(es);
    var i :| 0 <= i < |Keys(es)| && Keys(es)[i] == k;
    assert Merged(es)[i] == Winner(es, k);
  }

  lemma NothingMissing(tasks: Tasks, pack: seq<Entry>, now: string, now2: string)
    requires Missing(now, tasks, pack) == []
    ensures Missing(now2, tasks, pack) == []
  {
    hide Exists, Missing, Strip;
    MissingFacts(now, tasks, pack);
    forall id | id in PackIds(pack) ensures Exists(now2, tasks, id) { ExistsAnyTime(now, now2, tasks, id); }
    NoMissing(now2, tasks, pack);
  }

  /** What a second call would still add is already held by wiki entries of the written view. */
  lemma StillMissingAbsorbed(tasks: Tasks, task: string, pack: seq<Entry>, now: string, later: string, now2: string)
    requires !Blank(now) && task != "" && EvidencePack(pack)
    ensures var es := NormalizeView(now, NewView(now, tasks, task, pack));
            forall x :: x in Missing(now2, Materialized(tasks, task, pack, now, later), pack) ==> Absorbed(es, x)
  {
    hide Exists, InView, Load, Merged, Strip, EntryId, Mirror, WikiEntries, HasKey, Missing, Blank, Winner, Normalize;
    hide NewView, Materialized;
    var es := NormalizeView(now, NewView(now, tasks, task, pack));
    var after := Materialized(tasks, task, pack, now, later);
    var missing := Missing(now2, after, pack);
    MissingFacts(now2, after, pack);
    MissingNew(now2, after, task, pack);
    forall x | x in missing ensures Absorbed(es, x) {
      var id := Strip(x.objectId);
      MaterializedObjects(tasks, task, pack, now, later, now2, id);
      ShadowStays(now, tasks, task, pack, id);
      ObjectKey(x);
    }
  }

  lemma WriteAgain(now: string, later: string, now2: string, later2: string, view: seq<Entry>, missing: seq<Entry>)
    requires !Blank(now) && DistinctKeys(view)
    requires forall x :: x in missing ==> Absorbed(NormalizeView(now, view), x)
    ensures var t := Mirror(now, later, view);
            Mirror(now2, later2, Merged(Load(now2, t) + missing)) == t
  {
    hide Load, Merged, Mirror, Blank, Normalize, EntryId, Absorbed, SameMerge;
    var es := NormalizeView(now, view);
    AbsorbAll(es, missing);
    SameMergeMerged(es + missing, es);
    NormalizeIds(now, view);
    WrittenView(now, later, now2, view);
    DistinctMerged(es);
    MirrorStable(now, later, now2, later2, view);
  }

  /** A second call, at any later time, finds nothing left to write: no file changes. */
  lemma MaterializedAgain(tasks: Tasks, task: string, pack: seq<Entry>, now: string, later: string, now2: string,
                          later2: string)
    requires !Blank(now) && task != "" && EvidencePack(pack)
    ensures var after := Materialized(tasks, task, pack, now, later);
            Materialized(after, task, pack, now2, later2) == after
  {
    hide Load, Merged, Mirror, Missing, Blank, NewView, Absorbed, EvidencePack, NormalizeView;
    if Missing(now, tasks, pack) == [] {
      NothingMissing(tasks, pack, now, now2);
    } else {
      var view := NewView(now, tasks, task, pack);
      NewViewIs(now, tasks, task, pack);
      var after := tasks[task := Mirror(now, later, view)];
      StillMissingAbsorbed(tasks, task, pack, now, later, now2);
      WriteAgain(now, later, now2, later2, view, Missing(now2, after, pack));
      assert after[task := after[task]] == after;
    }
  }

  lemma NewViewIs(now: string, tasks: Tasks, task: string, pack: seq<Entry>)
    ensures NewView(now, tasks, task, pack) == Merged(Load(now, FilesIn(tasks, task)) + Missing(now, tasks, pack))
    ensures DistinctKeys(NewView(now, tasks, task, pack))
  {
    hide Exists, Missing, Load, EntryId, Merged;
    MergedDistinct(Load(now, FilesIn(tasks, task)) + Missing(now, tasks, pack));
  }

  const NoEntry := Entry("", "", "", "", "", "", "", "", "", [], "")

  /** An id as a source anchor gets it. */
  const AnchorId := "evidence-src-0123456789abcdef"

  /** A stored wiki entry without an object id of its own. */
  function NamedBySource(id: string): Entry { NoEntry.(sourceObjectId := id, stage := "canonical") }

  function AnchorEntry(id: string): Entry { NoEntry.(objectId := id, stage := "raw", storeType := EVIDENCE) }

  /** A returned id that does not exist afterwards: the task has a wiki entry that the id names only as its
      source object, and the pack adds evidence with that id. */
  lemma ShadowedIdNotCreated()
    ensures var tasks: Tasks := map["t" := TaskFiles([NamedBySource(AnchorId)], map[], map[])];
            var pack := [AnchorEntry(AnchorId)];
            PackIds(pack) == [AnchorId] && !Exists("n", Materialized(tasks, "t", pack, "n", "n"), AnchorId)
  {
    assert Trimmed(AnchorId) && AnchorId != "" && !Blank("n");
    hide AnchorId;
    Shadowed(AnchorId);
  }

  /** The same for every id. */
  lemma Shadowed(id: string)
    requires id != "" && Trimmed(id)
    ensures var tasks: Tasks := map["t" := TaskFiles([NamedBySource(id)], map[], map[])];
            var pack := [AnchorEntry(id)];
            PackIds(pack) == [id] && !Exists("n", Materialized(tasks, "t", pack, "n", "n"), id)
  {
    hide Materialized, Load, Merged;
    var t := TaskFiles([NamedBySource(id)], map[], map[]);
    var tasks: Tasks := map["t" := t];
    var x := AnchorEntry(id);
    StripTrimmed(id);
    assert !Blank("n");
    assert [x][..0] == [] && PackIds([]) == [];
    OneWiki(id, t);
    MaterializedObjects(tasks, "t", [x], "n", "n", "n", id);
  }

  lemma SourceNormal(id: string)
    requires id != "" && Trimmed(id)
    ensures var n := Normalize("n", NamedBySource(id)); n.storeType == WIKI && EntryId(n) == id && n.objectId == ""
  {
    StripTrimmed("canonical");
    StripTrimmed(id);
    StripTrimmed("");
    hide Strip, NonBlanks, Trimmed;
  }

  lemma OneWiki(id: string, t: TaskFiles)
    requires id != "" && Trimmed(id) && t == TaskFiles([NamedBySource(id)], map[], map[])
    ensures !InView(Load("n", t), id) && HasKey(WikiEntries(Load("n", t)), id)
  {
    SourceNormal(id);
    StripTrimmed("");
    hide Normalize, EntryId, Strip, Trimmed, NamedBySource, Merged, NormalizeEvidence, NormalizeWiki;
    var n := Normalize("n", NamedBySource(id));
    assert Listing(map[]) == [] && Copies("n", t) == [n];
    DistinctMerged([n]);
    assert n in WikiEntries([n]);
    assert WikiEntries([n])[0] == n;
  }
}
