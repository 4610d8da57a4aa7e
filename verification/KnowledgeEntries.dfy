/** Task knowledge entries: identity, normalisation and the merge of several copies of a view. */
module KnowledgeEntries {
  import opened Text

  /** One knowledge entry. A missing field of the stored object is its default, the empty string. */
  datatype Entry = Entry(
    objectId: string, sourceObjectId: string, canonicalId: string,
    stage: string, storeType: string, capturedAt: string,
    promotedBy: string, promotedAt: string, changeLogRef: string, sourceEvidenceIds: seq<string>,
    text: string)

  const WIKI := "wiki"
  const EVIDENCE := "evidence"

  /** The key an entry is merged and stored under: its first non-blank id. */
  function EntryId(e: Entry): (id: string)
    ensures id != "" && Trimmed(id)
  {
    if !Blank(e.objectId) then Strip(e.objectId)
    else if !Blank(e.sourceObjectId) then Strip(e.sourceObjectId)
    else if !Blank(e.canonicalId) then Strip(e.canonicalId)
    else "knowledge-entry"
  }

  function NormalizeEvidence(e: Entry): Entry {
    e.(stage := if Blank(e.stage) then "raw" else Strip(e.stage), storeType := EVIDENCE,
       promotedBy := "", promotedAt := "", changeLogRef := "", sourceEvidenceIds := [])
  }

  /** `now` is the clock reading used for an entry that was never dated. */
  function NormalizeWiki(now: string, e: Entry): Entry {
    var ids := NonBlanks(e.sourceEvidenceIds);
    var promotedAt := Strip(e.promotedAt);
    e.(stage := "canonical", storeType := WIKI,
       promotedBy := Strip(e.promotedBy), promotedAt := promotedAt, changeLogRef := Strip(e.changeLogRef),
       sourceEvidenceIds := if ids == [] && !Blank(e.objectId) then [Strip(e.objectId)] else ids,
       capturedAt := if !Blank(e.capturedAt) then e.capturedAt else if promotedAt != "" then promotedAt else now)
  }

  predicate IsCanonical(e: Entry) {
    Strip(e.stage) == "canonical"
  }

  function Normalize(now: string, e: Entry): Entry {
    if IsCanonical(e) then NormalizeWiki(now, e) else NormalizeEvidence(e)
  }

  function NormalizeView(now: string, view: seq<Entry>): (r: seq<Entry>)
    ensures |r| == |view| && forall i :: 0 <= i < |view| ==> r[i] == Normalize(now, view[i])
  {
    seq(|view|, i requires 0 <= i < |view| => Normalize(now, view[i]))
  }

  /** The entries of one kind, in order, normalised once more. */
  function WikiOf(now: string, view: seq<Entry>): seq<Entry> {
    if view == [] then []
    else
      WikiOf(now, view[..|view| - 1])
      + (if IsCanonical(Normalize(now, view[|view| - 1])) then [Normalize(now, view[|view| - 1])] else [])
  }

  function EvidenceOf(now: string, view: seq<Entry>): seq<Entry> {
    if view == [] then []
    else
      EvidenceOf(now, view[..|view| - 1])
      + (if IsCanonical(Normalize(now, view[|view| - 1])) then [] else [Normalize(now, view[|view| - 1])])
  }

  /** A form that normalising leaves alone. */
  ghost predicate Normal(e: Entry) {
    if e.storeType == WIKI then
      && e.stage == "canonical" && Trimmed(e.promotedBy) && Trimmed(e.promotedAt) && Trimmed(e.changeLogRef)
           && !Blank(e.capturedAt)
      && (forall x :: x in e.sourceEvidenceIds ==> x != "" && Trimmed(x))
      && (e.sourceEvidenceIds == [] ==> Blank(e.objectId))
    else
      && e.storeType == EVIDENCE && e.stage != "" && Trimmed(e.stage) && e.stage != "canonical"
      && e.promotedBy == "" && e.promotedAt == "" && e.changeLogRef == "" && e.sourceEvidenceIds == []
  }

  /** Normalising reaches a normal form, keeps the ids, and never changes a normal entry. */
  lemma NormalizeFacts(now: string, e: Entry)
    requires !Blank(now)
    ensures var n := Normalize(now, e);
            && Normal(n) && EntryId(n) == EntryId(e) && n.objectId == e.objectId
            && (n.storeType == WIKI <==> IsCanonical(e)) && (IsCanonical(n) <==> IsCanonical(e))
  {
    StripTrimmed(Strip(e.promotedAt));
  }

  lemma NormalFixed(now: string, e: Entry)
    requires Normal(e)
    ensures Normalize(now, e) == e && (IsCanonical(e) <==> e.storeType == WIKI)
    ensures e.storeType == WIKI ==> NormalizeWiki(now, e) == e
    ensures e.storeType != WIKI ==> NormalizeEvidence(e) == e
  {
    StripTrimmed("canonical");
    StripTrimmed(e.stage);
  }

  /** The fields of a normalised entry: ids and text stay; an evidence entry loses its wiki fields, and a wiki
      entry has them trimmed, its own id as evidence if it names none, and a date. */
  lemma NormalizeFields(now: string, e: Entry)
    ensures var n := Normalize(now, e);
            && n.objectId == e.objectId && n.sourceObjectId == e.sourceObjectId && n.canonicalId == e.canonicalId
            && n.text == e.text
    ensures Strip(e.stage) == "canonical" ==> FieldsOfWiki(now, e, Normalize(now, e))
    ensures Strip(e.stage) != "canonical" ==> FieldsOfEvidence(e, Normalize(now, e))
  {
  }

  ghost predicate FieldsOfWiki(now: string, e: Entry, n: Entry) {
    && n.stage == "canonical" && n.storeType == "wiki"
    && n.promotedBy == Strip(e.promotedBy) && n.promotedAt == Strip(e.promotedAt)
    && n.changeLogRef == Strip(e.changeLogRef)
    && (Strip(e.capturedAt) != "" ==> n.capturedAt == e.capturedAt)
    && (Strip(e.capturedAt) == "" && Strip(e.promotedAt) != "" ==> n.capturedAt == Strip(e.promotedAt))
    && (Strip(e.capturedAt) == "" && Strip(e.promotedAt) == "" ==> n.capturedAt == now)
    && (NonBlanks(e.sourceEvidenceIds) != [] ==> n.sourceEvidenceIds == NonBlanks(e.sourceEvidenceIds))
    && (NonBlanks(e.sourceEvidenceIds) == [] ==> n.sourceEvidenceIds == NonBlanks([e.objectId]))
  }

  ghost predicate FieldsOfEvidence(e: Entry, n: Entry) {
    && n.storeType == "evidence" && n.capturedAt == e.capturedAt
    && (Strip(e.stage) == "" ==> n.stage == "raw") && (Strip(e.stage) != "" ==> n.stage == Strip(e.stage))
    && n.promotedBy == "" && n.promotedAt == "" && n.changeLogRef == "" && n.sourceEvidenceIds == []
  }

  /** An entry goes by the first of its three ids that is not blank, trimmed. */
  lemma EntryIdTells(e: Entry, i: nat)
    ensures var ids := [e.objectId, e.sourceObjectId, e.canonicalId];
            && (i < 3 && Strip(ids[i]) != "" && (forall j :: 0 <= j < i ==> Strip(ids[j]) == "") ==>
                EntryId(e) == Strip(ids[i]))
            && ((forall j :: 0 <= j < 3 ==> Strip(ids[j]) == "") ==> EntryId(e) == "knowledge-entry")
  {
    hide Strip;
    var ids := [e.objectId, e.sourceObjectId, e.canonicalId];
    assert ids[0] == e.objectId && ids[1] == e.sourceObjectId && ids[2] == e.canonicalId;
  }

  // ---------------------------------------------------------------- merge

  /** The keys of `es` in first-seen order. */
  function Keys(es: seq<Entry>): (ks: seq<string>)
    ensures forall i, j :: 0 <= i < j < |ks| ==> ks[i] != ks[j]
  {
    if es == [] then []
    else
      var ks := Keys(es[..|es| - 1]);
      var k := EntryId(es[|es| - 1]);
      if k in ks then ks else ks + [k]
  }

  predicate HasKey(es: seq<Entry>, k: string) {
    exists i :: 0 <= i < |es| && EntryId(es[i]) == k
  }

  /** The last entry with key `k`. */
  function LastWith(es: seq<Entry>, k: string): (e: Entry)
    requires HasKey(es, k)
    ensures e in es && EntryId(e) == k
  {
    if EntryId(es[|es| - 1]) == k then es[|es| - 1]
    else
      assert HasKey(es[..|es| - 1], k) by { HasKeySnoc(es, k); }
      LastWith(es[..|es| - 1], k)
  }

  lemma HasKeySnoc(es: seq<Entry>, k: string)
    requires es != []
    ensures HasKey(es, k) <==> HasKey(es[..|es| - 1], k) || EntryId(es[|es| - 1]) == k
  {
    var n := |es| - 1;
    if i :| 0 <= i < |es| && EntryId(es[i]) == k && i < n { assert es[..n][i] == es[i]; }
    if i :| 0 <= i < n && EntryId(es[..n][i]) == k { assert es[i] == es[..n][i]; }
  }

  /** The entries with key `k` that are wiki entries. */
  function WikiEntries(es: seq<Entry>): (ws: seq<Entry>)
    ensures forall e :: e in ws <==> e in es && e.storeType == WIKI
  {
    if es == [] then []
    else
      assert es == es[..|es| - 1] + [es[|es| - 1]];
      WikiEntries(es[..|es| - 1]) + (if es[|es| - 1].storeType == WIKI then [es[|es| - 1]] else [])
  }

  /** The entry that wins key `k`: the last wiki entry if there is one, else the last entry. */
  function Winner(es: seq<Entry>, k: string): (e: Entry)
    requires HasKey(es, k)
    ensures e in es && EntryId(e) == k
  {
    if HasKey(WikiEntries(es), k) then LastWith(WikiEntries(es), k) else LastWith(es, k)
  }

  /** One entry per key, in first-seen order. */
  function Merged(es: seq<Entry>): (r: seq<Entry>)
    ensures |r| == |Keys(es)|
    ensures forall i :: 0 <= i < |r| ==> HasKey(es, Keys(es)[i]) && r[i] == Winner(es, Keys(es)[i])
  {
    KeysHave(es);
    seq(|Keys(es)|, i requires 0 <= i < |Keys(es)| => Winner(es, Keys(es)[i]))
  }

  lemma {:induction false} KeysHave(es: seq<Entry>)
    ensures forall k :: k in Keys(es) <==> HasKey(es, k)
    ensures forall i :: 0 <= i < |Keys(es)| ==> HasKey(es, Keys(es)[i])
  {
    if es != [] {
      KeysHave(es[..|es| - 1]);
      forall k { HasKeySnoc(es, k); }
    }
  }

  lemma LastWithSnoc(es: seq<Entry>, e: Entry, k: string)
    requires HasKey(es + [e], k)
    ensures EntryId(e) == k ==> LastWith(es + [e], k) == e
    ensures EntryId(e) != k ==> HasKey(es, k) && LastWith(es + [e], k) == LastWith(es, k)
  {
    hide EntryId;
    assert (es + [e])[..|es|] == es;
    HasKeySnoc(es + [e], k);
  }

  lemma WikiEntriesSnoc(es: seq<Entry>, e: Entry)
    ensures WikiEntries(es + [e]) == WikiEntries(es) + (if e.storeType == WIKI then [e] else [])
  {
    assert (es + [e])[..|es|] == es;
  }

  lemma KeysSnoc(es: seq<Entry>, e: Entry)
    ensures Keys(es + [e]) == if EntryId(e) in Keys(es) then Keys(es) else Keys(es) + [EntryId(e)]
  {
    hide EntryId;
    assert (es + [e])[..|es|] == es;
  }

  /** What one more entry does to the winner of a key: a wiki winner is only replaced by a wiki entry. */
  lemma WinnerSnoc(es: seq<Entry>, e: Entry, k: string)
    requires HasKey(es + [e], k)
    ensures EntryId(e) != k ==> HasKey(es, k) && Winner(es + [e], k) == Winner(es, k)
    ensures EntryId(e) == k && HasKey(es, k) && Winner(es, k).storeType == WIKI && e.storeType != WIKI ==>
        Winner(es + [e], k) == Winner(es, k)
    ensures EntryId(e) == k && !(HasKey(es, k) && Winner(es, k).storeType == WIKI && e.storeType != WIKI) ==>
        Winner(es + [e], k) == e
  {
    hide EntryId, LastWith, WikiEntries;
    LastWithSnoc(es, e, k);
    WikiEntriesSnoc(es, e);
    var ws := WikiEntries(es);
    if e.storeType == WIKI {
      HasKeySnoc(ws + [e], k);
      assert (ws + [e])[..|ws|] == ws;
      if HasKey(ws + [e], k) { LastWithSnoc(ws, e, k); }
    } else {
      assert ws + [] == ws;
    }
    if HasKey(es, k) { WinnerKind(es, k); }
    WikiKeyHas(es, k);
  }

  /** The winner is a wiki entry exactly when the key has one. */
  lemma WinnerKind(es: seq<Entry>, k: string)
    requires HasKey(es, k)
    ensures Winner(es, k).storeType == WIKI <==> HasKey(WikiEntries(es), k)
  {
    hide EntryId;
    var e := Winner(es, k);
    if e.storeType == WIKI {
      assert e in WikiEntries(es);
      var i :| 0 <= i < |WikiEntries(es)| && WikiEntries(es)[i] == e;
    }
  }

  lemma WikiKeyHas(es: seq<Entry>, k: string)
    ensures HasKey(WikiEntries(es), k) ==> HasKey(es, k)
  {
    hide EntryId;
    if i :| 0 <= i < |WikiEntries(es)| && EntryId(WikiEntries(es)[i]) == k {
      assert WikiEntries(es)[i] in WikiEntries(es);
      var j :| 0 <= j < |es| && es[j] == WikiEntries(es)[i];
    }
  }

  ghost predicate Winners(es: seq<Entry>, merged: map<string, Entry>) {
    && (forall k :: k in merged <==> HasKey(es, k))
    && (forall k :: k in merged ==> merged[k] == Winner(es, k))
  }

  lemma WinnersSnoc(es: seq<Entry>, e: Entry, merged: map<string, Entry>)
    requires Winners(es, merged)
    ensures var k := EntryId(e);
            && (k in merged <==> k in Keys(es))
            && Winners(es + [e], if k in merged && merged[k].storeType == WIKI && e.storeType != WIKI then merged
                 else merged[k := e])
  {
    hide EntryId, Winner, Keys, HasKey;
    KeysHave(es);
    forall k { HasKeyAppend(es, e, k); }
    forall k | HasKey(es + [e], k) { WinnerSnoc(es, e, k); }
  }

  lemma HasKeyAppend(es: seq<Entry>, e: Entry, k: string)
    ensures HasKey(es + [e], k) <==> HasKey(es, k) || EntryId(e) == k
  {
    hide EntryId;
    HasKeySnoc(es + [e], k);
    assert (es + [e])[..|es|] == es;
  }

  /** The merge as the program runs it: a dictionary of winners and a list of keys in first-seen order. */
  method MergeViews(es: seq<Entry>) returns (r: seq<Entry>)
    ensures r == Merged(es)
  {
    hide EntryId, Winner, Keys, HasKey, Winners;
    var merged: map<string, Entry> := map[];
    var order: seq<string> := [];
    assert es[..0] == [];
    KeysOfNone();
    for i := 0 to |es|
      invariant order == Keys(es[..i]) && Winners(es[..i], merged)
    {
      var item := es[i];
      var key := EntryId(item);
      assert es[..i + 1] == es[..i] + [item];
      KeysSnoc(es[..i], item);
      WinnersSnoc(es[..i], item, merged);
      if key !in merged {
        order := order + [key];
      }
      if key in merged && merged[key].storeType == WIKI && item.storeType != WIKI {
        continue;
      }
      merged := merged[key := item];
    }
    assert es[..|es|] == es;
    KeysInWinners(es, merged);
    r := seq(|order|, i requires 0 <= i < |order| && order[i] in merged => merged[order[i]]);
  }

  lemma KeysInWinners(es: seq<Entry>, merged: map<string, Entry>)
    requires Winners(es, merged)
    ensures forall i :: 0 <= i < |Keys(es)| ==>
        Keys(es)[i] in merged && HasKey(es, Keys(es)[i]) && merged[Keys(es)[i]] == Winner(es, Keys(es)[i])
  {
    KeysHave(es);
  }

  lemma KeysOfNone()
    ensures Keys([]) == [] && Winners([], map[])
  {
  }
}
