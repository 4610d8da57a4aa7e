/** The knowledge files of all tasks: persisting, planning a write, loading, and adding source evidence. */
module KnowledgeStore {
  import opened Text
  import opened KnowledgeEntries
  import opened KnowledgeFiles

  /** Write a directory: every entry under its id, then remove the files that were not written. */
  method WriteStoreEntries(before: Dir, entries: seq<Entry>) returns (d: Dir)
    ensures d == FilesOf(entries)
  {
    hide EntryId, FileName, FilesOf;
    d := before;
    NoFilesWritten();
    var existing := before.Keys;
    var written: set<string> := {};
    assert entries[..0] == [];
    for i := 0 to |entries|
      invariant d == before + FilesOf(entries[..i]) && written == FilesOf(entries[..i]).Keys
    {
      assert entries[..i + 1] == entries[..i] + [entries[i]];
      FilesOfSnoc(entries[..i], entries[i]);
      var name := FileName(EntryId(entries[i]));
      d := d[name := entries[i]];
      written := written + {name};
    }
    assert entries[..|entries|] == entries;
    d := RemoveStale(d, existing - written);
    assert d == FilesOf(entries);
  }

  lemma NoFilesWritten()
    ensures FilesOf([]) == map[]
  {
  }

  method RemoveStale(before: Dir, names: set<string>) returns (d: Dir)
    ensures d == before - names
  {
    d := before;
    var stale := names;
    while stale != {}
      invariant stale <= names && d == before - (names - stale)
    {
      var name :| name in stale;
      assert names - (stale - {name}) == (names - stale) + {name};
      d, stale := d - {name}, stale - {name};
    }
    assert names - {} == names;
  }

  method SplitView(later: string, view: seq<Entry>) returns (evidence: seq<Entry>, wiki: seq<Entry>)
    ensures evidence == EvidenceOf(later, view) && wiki == WikiOf(later, view)
  {
    hide Normalize, IsCanonical;
    evidence, wiki := [], [];
    assert view[..0] == [];
    for i := 0 to |view|
      invariant evidence == EvidenceOf(later, view[..i]) && wiki == WikiOf(later, view[..i])
    {
      assert view[..i + 1][..i] == view[..i];
      var item := Normalize(later, view[i]);
      if IsCanonical(item) { wiki := wiki + [item]; } else { evidence := evidence + [item]; }
    }
    assert view[..|view|] == view;
  }

  method LeastName(s: set<string>) returns (m: string)
    requires s != {}
    ensures m == Least(s)
  {
    hide LexLe;
    m :| m in s;
    var rest := s - {m};
    LexTotal(m, m);
    while rest != {}
      invariant rest <= s && m in s && m !in rest && forall x :: x in s - rest ==> LexLe(m, x)
    {
      var x :| x in rest;
      LexTotal(x, x);
      LexTotal(m, x);
      if !LexLe(m, x) {
        forall y | y in s - rest ensures LexLe(x, y) { LexTransitive(x, m, y); }
        m := x;
      }
      rest := rest - {x};
    }
    LeastUnique(s);
    assert IsLeast(m, s);
  }

  lemma SortedNamesStep(s: set<string>)
    requires s != {}
    ensures SortedNames(s) == [Least(s)] + SortedNames(s - {Least(s)})
  {
  }

  /** `names` are the first names of the directory, `es` their entries, and `rest` the names to come. */
  ghost predicate Listed(d: Dir, rest: set<string>, names: seq<string>, es: seq<Entry>) {
    && rest <= d.Keys && names + SortedNames(rest) == SortedNames(d.Keys)
    && |es| == |names| && forall i :: 0 <= i < |names| ==> names[i] in d && es[i] == d[names[i]]
  }

  lemma ListNothing(d: Dir)
    ensures Listed(d, d.Keys, [], [])
  {
    hide SortedNames;
    assert [] + SortedNames(d.Keys) == SortedNames(d.Keys);
  }

  lemma ListNext(d: Dir, rest: set<string>, names: seq<string>, es: seq<Entry>)
    requires Listed(d, rest, names, es) && rest != {}
    ensures Least(rest) in d && Listed(d, rest - {Least(rest)}, names + [Least(rest)], es + [d[Least(rest)]])
  {
    hide SortedNames, IsLeast;
    SortedNamesStep(rest);
    var name := Least(rest);
    assert (names + [name]) + SortedNames(rest - {name}) == names + ([name] + SortedNames(rest - {name}));
  }

  lemma ListingOf(d: Dir, names: seq<string>, es: seq<Entry>)
    requires Listed(d, {}, names, es)
    ensures es == Listing(d)
  {
    hide LexLe;
    assert SortedNames({}) == [];
    assert names == SortedNames(d.Keys);
  }

  /** The entries of a directory in file-name order. */
  method ListDir(d: Dir) returns (es: seq<Entry>)
    ensures es == Listing(d) && exists names :: ReadInOrder(d, names, es)
  {
    hide SortedNames, Least, LexLe, Listing, IsLeast, Listed, ReadInOrder;
    es := [];
    var rest := d.Keys;
    ghost var names: seq<string> := [];
    ListNothing(d);
    while rest != {}
      invariant Listed(d, rest, names, es)
    {
      var name := LeastName(rest);
      ListNext(d, rest, names, es);
      es, names, rest := es + [d[name]], names + [name], rest - {name};
    }
    ListingOf(d, names, es);
    ghost var order := ListingOrder(d);
  }

  class KnowledgeBase {
    var tasks: map<string, TaskFiles>

    /** The files of a task; a task without files has none of the three copies. */
    function Files(task: string): TaskFiles
      reads this
    {
      if task in tasks then tasks[task] else NoFiles
    }

    /** The file backend of persist: the three copies are replaced, whatever was there. */
    method PersistTaskKnowledgeView(task: string, view: seq<Entry>, now: string, later: string)
      returns (normalized: seq<Entry>)
      modifies this
      ensures normalized == NormalizeView(now, view)
      ensures tasks == old(tasks)[task := Mirror(now, later, view)]
    {
      normalized := NormalizeView(now, view);
      var evidence, wiki := SplitView(later, normalized);
      var before := Files(task);
      var evidenceDir := WriteStoreEntries(before.evidence, evidence);
      var wikiDir := WriteStoreEntries(before.wiki, wiki);
      tasks := tasks[task := TaskFiles(normalized, evidenceDir, wikiDir)];
    }

    method LoadTaskKnowledgeView(task: string, now: string) returns (view: seq<Entry>)
      ensures view == Load(now, Files(task))
    {
      var t := Files(task);
      var evidence := ListDir(t.evidence);
      var wiki := ListDir(t.wiki);
      view := MergeViews(NormalizeView(now, t.listFile) + AllEvidence(evidence) + AllWiki(now, wiki));
    }
  }

  // ---------------------------------------------------------------- the write plan

  /** The writes and removals planned for one directory. */
  datatype DirPlan = DirPlan(updates: Dir, deletes: seq<string>)

  datatype Plan = Plan(listFile: seq<Entry>, evidence: DirPlan, wiki: DirPlan)

  /** The id the write plan uses: the first non-empty field, then trimmed. */
  function PlanEntryId(e: Entry): string {
    var raw := if e.objectId != "" then e.objectId else if e.sourceObjectId != "" then e.sourceObjectId
        else e.canonicalId;
    if Blank(raw) then "knowledge-entry" else Strip(raw)
  }

  /** The first field that is not empty is only whitespace, and a later one names the entry. */
  predicate HiddenId(e: Entry) {
    EntryId(e) != "knowledge-entry" &&
    ((e.objectId != "" && Blank(e.objectId)) || (e.objectId == "" && e.sourceObjectId != "" && Blank(e.sourceObjectId)))
  }

  /** The two id functions differ exactly on entries with a hidden id. */
  lemma IdsAgree(e: Entry)
    ensures PlanEntryId(e) == EntryId(e) <==> !HiddenId(e)
    ensures HiddenId(e) ==> PlanEntryId(e) == "knowledge-entry"
  {
  }

  /** A blank object id hides the source object id from the write plan. */
  lemma BlankIdHides(e: Entry)
    requires e.objectId == " " && e.sourceObjectId == "a"
    ensures HiddenId(e) && EntryId(e) == "a" && PlanEntryId(e) == "knowledge-entry"
  {
    assert Strip(" ") == "" by { assert " "[1..] == ""; }
    assert Strip("a") == "a";
  }

  function PlanFiles(es: seq<Entry>): Dir {
    if es == [] then map[] else PlanFiles(es[..|es| - 1])[FileName(PlanEntryId(es[|es| - 1])) := es[|es| - 1]]
  }

  /** Updates are written first; a removal of a path that is also updated is dropped. */
  function ApplyDirPlan(d: Dir, p: DirPlan): Dir {
    (d + p.updates) - ((set n | n in p.deletes) - p.updates.Keys)
  }

  function ApplyPlan(t: TaskFiles, p: Plan): TaskFiles {
    TaskFiles(p.listFile, ApplyDirPlan(t.evidence, p.evidence), ApplyDirPlan(t.wiki, p.wiki))
  }

  method PlanDir(d: Dir, entries: seq<Entry>) returns (p: DirPlan)
    ensures p.updates == PlanFiles(entries)
    ensures forall n :: n in p.deletes <==> n in d && n !in PlanFiles(entries)
  {
    hide PlanEntryId, FileName;
    var updates: Dir, desired: set<string> := map[], {};
    assert entries[..0] == [];
    for i := 0 to |entries|
      invariant updates == PlanFiles(entries[..i]) && desired == updates.Keys
    {
      assert entries[..i + 1][..i] == entries[..i];
      var name := FileName(PlanEntryId(entries[i]));
      desired := desired + {name};
      updates := updates[name := entries[i]];
    }
    assert entries[..|entries|] == entries;
    var deletes: seq<string>, rest := [], d.Keys;
    while rest != {}
      invariant rest <= d.Keys && forall n :: n in deletes <==> n in d.Keys - rest && n !in desired
    {
      var name :| name in rest;
      if name !in desired { deletes := deletes + [name]; }
      rest := rest - {name};
    }
    p := DirPlan(updates, deletes);
  }

  /** Applied to the files it was planned for, a plan leaves exactly the planned files. */
  method BuildKnowledgeStoreWritePlan(t: TaskFiles, view: seq<Entry>, now: string, later: string)
    returns (normalized: seq<Entry>, plan: Plan)
    ensures normalized == NormalizeView(now, view)
    ensures ApplyPlan(t, plan) == Planned(now, later, view)
  {
    hide PlanFiles, ApplyDirPlan, EvidenceOf, WikiOf, Normalize;
    normalized := NormalizeView(now, view);
    var evidence, wiki := SplitView(later, normalized);
    var e := PlanDir(t.evidence, evidence);
    var w := PlanDir(t.wiki, wiki);
    plan := Plan(normalized, e, w);
    DirPlanApplied(t.evidence, evidence, e);
    DirPlanApplied(t.wiki, wiki, w);
  }

  lemma DirPlanApplied(d: Dir, entries: seq<Entry>, p: DirPlan)
    requires p.updates == PlanFiles(entries)
    requires forall n :: n in p.deletes <==> n in d && n !in PlanFiles(entries)
    ensures ApplyDirPlan(d, p) == PlanFiles(entries)
  {
    hide PlanFiles;
  }

  function Planned(now: string, later: string, view: seq<Entry>): TaskFiles {
    var normalized := NormalizeView(now, view);
    TaskFiles(normalized, PlanFiles(EvidenceOf(later, normalized)), PlanFiles(WikiOf(later, normalized)))
  }

  lemma {:induction false} PartsOf(later: string, es: seq<Entry>, e: Entry)
    requires e in EvidenceOf(later, es) || e in WikiOf(later, es)
    ensures exists i :: 0 <= i < |es| && e == Normalize(later, es[i])
  {
    hide Normalize, IsCanonical;
    var n := |es| - 1;
    if e != Normalize(later, es[n]) {
      PartsOf(later, es[..n], e);
      var i :| 0 <= i < n && e == Normalize(later, es[..n][i]);
      assert e == Normalize(later, es[i]);
    }
  }

  lemma HiddenKept(now: string, e: Entry)
    ensures HiddenId(Normalize(now, e)) == HiddenId(e)
  {
    hide Blank, Strip, NonBlanks, IsCanonical;
  }

  /** Some entry after `i`, with an id that is not hidden, has key `k`. */
  ghost predicate PlainAfter(es: seq<Entry>, i: nat, k: string) {
    exists j :: i < j < |es| && !HiddenId(es[j]) && EntryId(es[j]) == k
  }

  /** Every entry with a hidden id is overwritten in both ways of writing: a later entry that is not hidden
      has its key, and a later one has the key that the plan files it under. */
  ghost predicate HiddenCovered(es: seq<Entry>) {
    forall i :: 0 <= i < |es| && HiddenId(es[i]) ==>
        PlainAfter(es, i, EntryId(es[i])) && PlainAfter(es, i, "knowledge-entry")
  }

  lemma PlanIdOf(e: Entry)
    ensures PlanEntryId(e) == if HiddenId(e) then "knowledge-entry" else EntryId(e)
    ensures HiddenId(e) ==> EntryId(e) != "knowledge-entry"
  {
  }

  /** The directory of a plan holds the last entry with each plan id. */
  ghost predicate LastByPlan(es: seq<Entry>, i: nat)
    requires i < |es|
  {
    forall j :: i < j < |es| ==> PlanEntryId(es[j]) != PlanEntryId(es[i])
  }

  ghost predicate LastById(es: seq<Entry>, i: nat)
    requires i < |es|
  {
    forall j :: i < j < |es| ==> EntryId(es[j]) != EntryId(es[i])
  }

  lemma {:induction false} LastPlanFile(es: seq<Entry>, i: nat)
    requires i < |es| && LastByPlan(es, i)
    ensures var n := FileName(PlanEntryId(es[i])); n in PlanFiles(es) && PlanFiles(es)[n] == es[i]
  {
    hide PlanEntryId, FileName;
    var m := |es| - 1;
    if i < m {
      assert es[..m][i] == es[i] && LastByPlan(es[..m], i);
      LastPlanFile(es[..m], i);
      if FileName(PlanEntryId(es[m])) == FileName(PlanEntryId(es[i])) {
        FileNameInjective(PlanEntryId(es[m]), PlanEntryId(es[i]));
      }
    }
  }

  lemma {:induction false} PlanFileLast(es: seq<Entry>, n: string) returns (i: nat)
    requires n in PlanFiles(es)
    ensures i < |es| && LastByPlan(es, i) && n == FileName(PlanEntryId(es[i])) && PlanFiles(es)[n] == es[i]
  {
    hide PlanEntryId, FileName;
    var m := |es| - 1;
    if FileName(PlanEntryId(es[m])) == n {
      i := m;
    } else {
      i := PlanFileLast(es[..m], n);
      assert es[..m][i] == es[i] && forall j :: i < j < m ==> es[..m][j] == es[j];
    }
  }

  lemma {:induction false} LastIdFile(es: seq<Entry>, i: nat)
    requires i < |es| && LastById(es, i)
    ensures var n := FileName(EntryId(es[i])); n in FilesOf(es) && FilesOf(es)[n] == es[i]
  {
    hide EntryId, FileName;
    var m := |es| - 1;
    if i < m {
      assert es[..m][i] == es[i] && LastById(es[..m], i);
      LastIdFile(es[..m], i);
      if FileName(EntryId(es[m])) == FileName(EntryId(es[i])) { FileNameInjective(EntryId(es[m]), EntryId(es[i])); }
    }
  }

  lemma {:induction false} IdFileLast(es: seq<Entry>, n: string) returns (i: nat)
    requires n in FilesOf(es)
    ensures i < |es| && LastById(es, i) && n == FileName(EntryId(es[i])) && FilesOf(es)[n] == es[i]
  {
    hide EntryId, FileName;
    var m := |es| - 1;
    if FileName(EntryId(es[m])) == n {
      i := m;
    } else {
      i := IdFileLast(es[..m], n);
      assert es[..m][i] == es[i] && forall j :: i < j < m ==> es[..m][j] == es[j];
    }
  }

  /** When every hidden entry is overwritten, the last entry with an id is the last one filed under it. */
  lemma CoveredLast(es: seq<Entry>, i: nat)
    requires HiddenCovered(es) && i < |es|
    ensures LastById(es, i) ==> !HiddenId(es[i]) && LastByPlan(es, i)
    ensures LastByPlan(es, i) ==> !HiddenId(es[i]) && LastById(es, i)
  {
    hide EntryId, PlanEntryId, HiddenId;
    forall j | 0 <= j < |es| { PlanIdOf(es[j]); }
    if LastById(es, i) {
      forall j | i < j < |es| ensures PlanEntryId(es[j]) != PlanEntryId(es[i]) {
        if HiddenId(es[j]) {
          assert PlainAfter(es, j, "knowledge-entry");
          var l :| j < l < |es| && !HiddenId(es[l]) && EntryId(es[l]) == "knowledge-entry";
        }
      }
    }
    if LastByPlan(es, i) {
      forall j | i < j < |es| ensures EntryId(es[j]) != EntryId(es[i]) {
        if HiddenId(es[j]) {
          assert PlainAfter(es, j, EntryId(es[j]));
          var l :| j < l < |es| && !HiddenId(es[l]) && EntryId(es[l]) == EntryId(es[j]);
        }
      }
    }
  }

  lemma CoveredFiles(es: seq<Entry>)
    requires HiddenCovered(es)
    ensures PlanFiles(es) == FilesOf(es)
  {
    hide EntryId, PlanEntryId, HiddenId, FileName, PlanFiles, FilesOf, HiddenCovered, LastById, LastByPlan;
    forall n | n in FilesOf(es) ensures n in PlanFiles(es) && PlanFiles(es)[n] == FilesOf(es)[n] {
      var i := IdFileLast(es, n);
      CoveredLast(es, i);
      PlanIdOf(es[i]);
      LastPlanFile(es, i);
    }
    forall n | n in PlanFiles(es) ensures n in FilesOf(es) {
      var i := PlanFileLast(es, n);
      CoveredLast(es, i);
      PlanIdOf(es[i]);
      LastIdFile(es, i);
    }
  }

  lemma LastOfId(es: seq<Entry>, i: nat) returns (j: nat)
    requires i < |es|
    ensures i <= j < |es| && EntryId(es[j]) == EntryId(es[i]) && LastById(es, j)
  {
    hide EntryId;
    j := i;
    for l := i + 1 to |es|
      invariant i <= j < l <= |es| && EntryId(es[j]) == EntryId(es[i])
      invariant forall m :: j < m < l ==> EntryId(es[m]) != EntryId(es[i])
    {
      if EntryId(es[l]) == EntryId(es[i]) { j := l; }
    }
  }

  lemma LastOfPlanId(es: seq<Entry>, i: nat) returns (j: nat)
    requires i < |es|
    ensures i <= j < |es| && PlanEntryId(es[j]) == PlanEntryId(es[i]) && LastByPlan(es, j)
  {
    hide PlanEntryId;
    j := i;
    for l := i + 1 to |es|
      invariant i <= j < l <= |es| && PlanEntryId(es[j]) == PlanEntryId(es[i])
      invariant forall m :: j < m < l ==> PlanEntryId(es[m]) != PlanEntryId(es[i])
    {
      if PlanEntryId(es[l]) == PlanEntryId(es[i]) { j := l; }
    }
  }

  /** Equal directories: the last entry with the key of `i`, and the last one filed with `i`, are plain. */
  lemma EqualFilesCover(es: seq<Entry>, i: nat)
    requires PlanFiles(es) == FilesOf(es) && i < |es| && HiddenId(es[i])
    ensures PlainAfter(es, i, EntryId(es[i])) && PlainAfter(es, i, "knowledge-entry")
  {
    hide EntryId, PlanEntryId, HiddenId, FileName, PlanFiles, FilesOf, LastById, LastByPlan;
    PlanIdOf(es[i]);
    var j := LastOfId(es, i);
    LastIdFile(es, j);
    var p := PlanFileLast(es, FileName(EntryId(es[j])));
    FileNameInjective(EntryId(es[j]), PlanEntryId(es[p]));
    PlanIdOf(es[p]);
    assert es[p] == es[j] && !HiddenId(es[j]);
    var l := LastOfPlanId(es, i);
    LastPlanFile(es, l);
    var q := IdFileLast(es, FileName(PlanEntryId(es[l])));
    FileNameInjective(PlanEntryId(es[l]), EntryId(es[q]));
    PlanIdOf(es[q]);
    assert es[q] == es[l] && !HiddenId(es[l]) && EntryId(es[l]) == "knowledge-entry";
  }

  lemma SameFilesExactly(es: seq<Entry>)
    ensures PlanFiles(es) == FilesOf(es) <==> HiddenCovered(es)
  {
    hide EntryId, HiddenId, PlanFiles, FilesOf, PlainAfter;
    if HiddenCovered(es) { CoveredFiles(es); }
    if PlanFiles(es) == FilesOf(es) {
      forall i | 0 <= i < |es| && HiddenId(es[i])
          ensures PlainAfter(es, i, EntryId(es[i])) && PlainAfter(es, i, "knowledge-entry") {
        EqualFilesCover(es, i);
      }
    }
  }

  /** For every view: applying the write plan gives the files of the direct write if and only if, in either
      directory, each entry with a hidden id is followed by a plain one with its key and by a plain one with
      the key of entries without an id. */
  lemma PlanMatchesMirrorExactly(now: string, later: string, view: seq<Entry>)
    ensures var es := NormalizeView(now, view);
            Planned(now, later, view) == Mirror(now, later, view)
            <==> HiddenCovered(EvidenceOf(later, es)) && HiddenCovered(WikiOf(later, es))
  {
    hide HiddenCovered, PlanFiles, FilesOf, EvidenceOf, WikiOf, Normalize;
    SameFilesExactly(EvidenceOf(later, NormalizeView(now, view)));
    SameFilesExactly(WikiOf(later, NormalizeView(now, view)));
  }

  /** A view without hidden ids: planning the write and applying it to any files gives the same files
      as writing the mirror directly. */
  lemma PlanMatchesMirror(now: string, later: string, view: seq<Entry>)
    requires forall e :: e in view ==> !HiddenId(e)
    ensures Planned(now, later, view) == Mirror(now, later, view)
  {
    hide HiddenId, Normalize, EvidenceOf, WikiOf, PlanFiles, FilesOf;
    var es := NormalizeView(now, view);
    forall e | e in EvidenceOf(later, es) || e in WikiOf(later, es) ensures !HiddenId(e) {
      PartsOf(later, es, e);
      var i :| 0 <= i < |es| && e == Normalize(later, es[i]);
      HiddenKept(now, view[i]);
      HiddenKept(later, es[i]);
      assert view[i] in view;
    }
    PlanMatchesMirrorExactly(now, later, view);
  }

  lemma OneEntry(later: string, m: Entry)
    ensures var n := Normalize(later, m);
            && EvidenceOf(later, [m]) == (if IsCanonical(n) then [] else [n])
            && WikiOf(later, [m]) == (if IsCanonical(n) then [n] else [])
  {
    hide Normalize, IsCanonical;
    assert [m][..0] == [];
    assert EvidenceOf(later, []) == [] && WikiOf(later, []) == [];
  }

  /** A lone entry whose blank object id hides its source object id is written to two different files. */
  lemma HiddenEntryDiffers(now: string, later: string, e: Entry)
    requires e.objectId == " " && e.sourceObjectId == "a"
    ensures Planned(now, later, [e]) != Mirror(now, later, [e])
  {
    hide HiddenId, Normalize, IsCanonical, EntryId, Planned, Mirror, EvidenceOf, WikiOf;
    BlankIdHides(e);
    var m := Normalize(now, e);
    var n := Normalize(later, m);
    assert NormalizeView(now, [e]) == [m];
    HiddenKept(now, e);
    HiddenKept(later, m);
    OneEntry(later, m);
    assert [n][0] == n && !HiddenCovered([n]);
    PlanMatchesMirrorExactly(now, later, [e]);
  }
}
