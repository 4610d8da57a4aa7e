/** The file mirror of task knowledge: one view kept as a list file, an evidence directory and a wiki
    directory, and merged again when it is loaded. Entry ids are plain file names. */
module KnowledgeFiles {
  import opened Text
  import opened KnowledgeEntries

  type Dir = map<string, Entry>

  /** The knowledge files of one task. */
  datatype TaskFiles = TaskFiles(listFile: seq<Entry>, evidence: Dir, wiki: Dir)

  const NoFiles := TaskFiles([], map[], map[])

  function FileName(id: string): (n: string) { id + ".json" }

  lemma FileNameInjective(a: string, b: string)
    requires FileName(a) == FileName(b)
    ensures a == b
  {
    assert FileName(a)[..|FileName(a)| - 5] == a && FileName(b)[..|FileName(b)| - 5] == b;
  }

  // ---------------------------------------------------------------- directory listing in name order

  predicate LexLe(a: string, b: string) {
    a == "" || (b != "" && (a[0] < b[0] || (a[0] == b[0] && LexLe(a[1..], b[1..]))))
  }

  lemma {:induction false} LexTotal(a: string, b: string)
    ensures LexLe(a, b) || LexLe(b, a)
  {
    if a != "" && b != "" { LexTotal(a[1..], b[1..]); }
  }

  lemma {:induction false} LexTransitive(a: string, b: string, c: string)
    requires LexLe(a, b) && LexLe(b, c)
    ensures LexLe(a, c)
  {
    if a != "" && b != "" && c != "" && a[0] == b[0] == c[0] { LexTransitive(a[1..], b[1..], c[1..]); }
  }

  lemma {:induction false} LexAntisymmetric(a: string, b: string)
    requires LexLe(a, b) && LexLe(b, a)
    ensures a == b
  {
    if a != "" && b != "" {
      LexAntisymmetric(a[1..], b[1..]);
      assert a == [a[0]] + a[1..] && b == [b[0]] + b[1..];
    }
  }

  /** The first place where the two names differ. */
  ghost predicate DiffersAt(a: string, b: string, k: nat) {
    k < |a| && k < |b| && a[..k] == b[..k] && a[k] < b[k]
  }

  /** Character by character: a shorter name comes first, and else the smaller character where they differ. */
  ghost predicate NameBefore(a: string, b: string) {
    a < b || exists k: nat :: DiffersAt(a, b, k)
  }

  /** The order of names is the lexicographic one. */
  lemma {:induction false} LexExactly(a: string, b: string)
    ensures LexLe(a, b) <==> a == b || NameBefore(a, b)
  {
    if a == "" {
      assert a == b || a < b;
    } else if b == "" {
      assert !(a < b);
    } else {
      LexExactly(a[1..], b[1..]);
      NameBeforeStep(a, b);
      assert a == [a[0]] + a[1..] && b == [b[0]] + b[1..];
    }
  }

  lemma NameBeforeStep(a: string, b: string)
    requires a != "" && b != ""
    ensures NameBefore(a, b) <==> a[0] < b[0] || (a[0] == b[0] && NameBefore(a[1..], b[1..]))
  {
    if a[0] < b[0] { assert DiffersAt(a, b, 0); }
    if a < b { assert a[1..] == b[1..|a|]; }
    if a[0] == b[0] && a[1..] < b[1..] { assert a == [b[0]] + b[1..|a|]; }
    if k: nat :| DiffersAt(a, b, k) && k > 0 {
      assert a[..k][0] == b[..k][0] && a[1..][..k - 1] == a[..k][1..] && b[1..][..k - 1] == b[..k][1..];
      assert DiffersAt(a[1..], b[1..], k - 1);
    }
    if a[0] == b[0] {
      if k: nat :| DiffersAt(a[1..], b[1..], k) {
        assert a[..k + 1] == [a[0]] + a[1..][..k] && b[..k + 1] == [b[0]] + b[1..][..k];
        assert DiffersAt(a, b, k + 1);
      }
    }
  }

  ghost predicate IsLeast(m: string, s: set<string>) {
    m in s && forall x :: x in s ==> LexLe(m, x)
  }

  lemma LeastExists(s: set<string>) returns (m: string)
    requires s != {}
    ensures IsLeast(m, s)
  {
    hide LexLe;
    var y :| y in s;
    LexTotal(y, y);
    if s == {y} {
      m := y;
    } else {
      m := LeastExists(s - {y});
      LexTotal(m, y);
      if !LexLe(m, y) {
        forall x | x in s ensures LexLe(y, x) {
          if x != y { LexTransitive(y, m, x); }
        }
        m := y;
      }
    }
  }

  lemma LeastUnique(s: set<string>)
    ensures forall m, n :: IsLeast(m, s) && IsLeast(n, s) ==> m == n
  {
    hide LexLe;
    forall m, n | IsLeast(m, s) && IsLeast(n, s) ensures m == n { LexAntisymmetric(m, n); }
  }

  lemma HasLeast(s: set<string>)
    requires s != {}
    ensures exists m :: IsLeast(m, s)
  {
    var m := LeastExists(s);
  }

  ghost function Least(s: set<string>): (m: string)
    requires s != {}
    ensures m in s && IsLeast(m, s)
  {
    HasLeast(s);
    var m :| IsLeast(m, s);
    m
  }

  /** Names in the order `sorted` gives them. */
  ghost function SortedNames(s: set<string>): (names: seq<string>)
    ensures forall x :: x in names <==> x in s
    ensures forall i, j :: 0 <= i < j < |names| ==> names[i] != names[j] && LexLe(names[i], names[j])
  {
    if s == {} then [] else [Least(s)] + SortedNames(s - {Least(s)})
  }

  ghost function Listing(d: Dir): (es: seq<Entry>)
    ensures forall e :: e in es <==> exists n :: n in d && d[n] == e
  {
    var names := SortedNames(d.Keys);
    var es := seq(|names|, i requires 0 <= i < |names| => assert names[i] in names; d[names[i]]);
    assert forall e :: e in es <==> exists n :: n in d && d[n] == e by {
      forall n | n in d ensures d[n] in es {
        assert n in names;
        var i :| 0 <= i < |names| && names[i] == n;
        assert es[i] == d[n];
      }
      forall e | e in es ensures exists n :: n in d && d[n] == e {
        var i :| 0 <= i < |es| && es[i] == e;
        assert names[i] in names;
      }
    }
    es
  }

  ghost predicate InNameOrder(d: Dir, names: seq<string>) {
    && (forall n :: n in names <==> n in d)
    && (forall i, j :: 0 <= i < j < |names| ==> NameBefore(names[i], names[j]))
  }

  /** The files of a directory, read in the order of their names. */
  ghost predicate ReadInOrder(d: Dir, names: seq<string>, es: seq<Entry>) {
    && InNameOrder(d, names) && |es| == |names|
    && forall i :: 0 <= i < |names| ==> names[i] in d && es[i] == d[names[i]]
  }

  /** A listing has the entries of all files, in lexicographic order of the file names. */
  lemma ListingOrder(d: Dir) returns (names: seq<string>)
    ensures ReadInOrder(d, names, Listing(d))
  {
    hide LexLe, NameBefore, IsLeast;
    names := SortedNames(d.Keys);
    forall i, j | 0 <= i < j < |names| ensures NameBefore(names[i], names[j]) { LexExactly(names[i], names[j]); }
    assert forall i :: 0 <= i < |names| ==> names[i] in names;
  }

  // ---------------------------------------------------------------- writing and loading

  /** A directory that holds, for each id, the last entry with that id. */
  function FilesOf(es: seq<Entry>): Dir {
    if es == [] then map[] else FilesOf(es[..|es| - 1])[FileName(EntryId(es[|es| - 1])) := es[|es| - 1]]
  }

  lemma FilesOfSnoc(es: seq<Entry>, e: Entry)
    ensures FilesOf(es + [e]) == FilesOf(es)[FileName(EntryId(e)) := e]
  {
    hide EntryId, FileName;
    assert (es + [e])[..|es|] == es;
  }

  /** The file of a key holds the last entry with that key, and there are no other files. */
  lemma {:induction false} FilesOfFacts(es: seq<Entry>)
    ensures forall n :: n in FilesOf(es) ==>
        n == FileName(EntryId(FilesOf(es)[n])) && HasKey(es, EntryId(FilesOf(es)[n]))
    ensures forall k :: HasKey(es, k) ==> FileName(k) in FilesOf(es) && FilesOf(es)[FileName(k)] == LastWith(es, k)
  {
    hide EntryId, FileName;
    if es != [] {
      var m := |es| - 1;
      FilesOfFacts(es[..m]);
      assert es == es[..m] + [es[m]];
      forall k | HasKey(es, k) ensures FileName(k) in FilesOf(es) && FilesOf(es)[FileName(k)] == LastWith(es, k) {
        LastWithSnoc(es[..m], es[m], k);
        if FileName(k) == FileName(EntryId(es[m])) { FileNameInjective(k, EntryId(es[m])); }
      }
      forall n | n in FilesOf(es)
          ensures n == FileName(EntryId(FilesOf(es)[n])) && HasKey(es, EntryId(FilesOf(es)[n])) {
        HasKeySnoc(es, EntryId(FilesOf(es)[n]));
      }
    }
  }

  /** What persisting a view leaves on disk; `later` is the clock when the view is split. */
  function Mirror(now: string, later: string, view: seq<Entry>): TaskFiles {
    var normalized := NormalizeView(now, view);
    TaskFiles(normalized, FilesOf(EvidenceOf(later, normalized)), FilesOf(WikiOf(later, normalized)))
  }

  function AllEvidence(es: seq<Entry>): (r: seq<Entry>)
    ensures |r| == |es| && forall i :: 0 <= i < |es| ==> r[i] == NormalizeEvidence(es[i])
  {
    seq(|es|, i requires 0 <= i < |es| => NormalizeEvidence(es[i]))
  }

  function AllWiki(now: string, es: seq<Entry>): (r: seq<Entry>)
    ensures |r| == |es| && forall i :: 0 <= i < |es| ==> r[i] == NormalizeWiki(now, es[i])
  {
    seq(|es|, i requires 0 <= i < |es| => NormalizeWiki(now, es[i]))
  }

  /** The three copies, normalised, in the order they are merged. */
  ghost function Copies(now: string, t: TaskFiles): seq<Entry> {
    NormalizeView(now, t.listFile) + AllEvidence(Listing(t.evidence)) + AllWiki(now, Listing(t.wiki))
  }

  ghost function Load(now: string, t: TaskFiles): seq<Entry> {
    Merged(Copies(now, t))
  }

  /** Loading merges the list file, then the evidence files, then the wiki files, each entry normalised as its kind
      and the files of a directory in name order. */
  lemma LoadGathers(now: string, t: TaskFiles)
    returns (ns: seq<string>, evidence: seq<Entry>, ms: seq<string>, wiki: seq<Entry>,
             a: seq<Entry>, b: seq<Entry>, c: seq<Entry>)
    ensures ReadInOrder(t.evidence, ns, evidence) && ReadInOrder(t.wiki, ms, wiki)
    ensures |a| == |t.listFile| && forall i :: 0 <= i < |a| ==> a[i] == Normalize(now, t.listFile[i])
    ensures |b| == |evidence| && forall i :: 0 <= i < |b| ==> b[i] == NormalizeEvidence(evidence[i])
    ensures |c| == |wiki| && forall i :: 0 <= i < |c| ==> c[i] == NormalizeWiki(now, wiki[i])
    ensures Load(now, t) == Merged(a + b + c)
  {
    hide Listing, ReadInOrder, Merged, Normalize, NormalizeWiki, NormalizeEvidence;
    ns := ListingOrder(t.evidence);
    ms := ListingOrder(t.wiki);
    evidence, wiki := Listing(t.evidence), Listing(t.wiki);
    a, b, c := NormalizeView(now, t.listFile), AllEvidence(evidence), AllWiki(now, wiki);
  }

  // ---------------------------------------------------------------- round trip

  ghost predicate AllNormal(es: seq<Entry>) {
    forall i :: 0 <= i < |es| ==> Normal(es[i])
  }

  lemma NormalizedNormal(now: string, view: seq<Entry>)
    requires !Blank(now)
    ensures AllNormal(NormalizeView(now, view))
  {
    forall i | 0 <= i < |view| ensures Normal(NormalizeView(now, view)[i]) { NormalizeFacts(now, view[i]); }
  }

  lemma NormalViewFixed(now: string, es: seq<Entry>)
    requires AllNormal(es)
    ensures NormalizeView(now, es) == es
  {
    forall i | 0 <= i < |es| ensures NormalizeView(now, es)[i] == es[i] { NormalFixed(now, es[i]); }
  }

  /** Splitting a normal view sorts its entries by kind and changes none. */
  lemma {:induction false} SplitNormal(now: string, es: seq<Entry>)
    requires AllNormal(es)
    ensures WikiOf(now, es) == WikiEntries(es)
    ensures forall e :: e in EvidenceOf(now, es) ==> e in es && e.storeType != WIKI
  {
    hide EntryId, Normalize, Normal, IsCanonical;
    if es != [] {
      var m := |es| - 1;
      SplitNormal(now, es[..m]);
      NormalFixed(now, es[m]);
      assert es == es[..m] + [es[m]];
      WikiEntriesSnoc(es[..m], es[m]);
    }
  }

  lemma EvidenceSnoc(now: string, es: seq<Entry>)
    requires es != [] && Normal(es[|es| - 1])
    ensures var n := |es| - 1;
            EvidenceOf(now, es) == if es[n].storeType == WIKI then EvidenceOf(now, es[..n])
                else EvidenceOf(now, es[..n]) + [es[n]]
  {
    hide Normal, Normalize, IsCanonical;
    NormalFixed(now, es[|es| - 1]);
  }

  /** A key without wiki entries keeps its last entry in the evidence part. */
  lemma {:induction false} SplitEvidenceLast(now: string, es: seq<Entry>, k: string)
    requires AllNormal(es) && HasKey(es, k) && !HasKey(WikiEntries(es), k)
    ensures HasKey(EvidenceOf(now, es), k) && LastWith(EvidenceOf(now, es), k) == LastWith(es, k)
  {
    assert es != [];
    hide EntryId, Normal, LastWith, HasKey, WikiEntries, EvidenceOf;
    var m := |es| - 1;
    var ps, last := es[..m], es[m];
    assert es == ps + [last];
    assert AllNormal(ps) && Normal(last);
    hide AllNormal;
    EvidenceSnoc(now, es);
    WikiEntriesSnoc(ps, last);
    HasKeyAppend(ps, last, k);
    LastWithSnoc(ps, last, k);
    if last.storeType == WIKI {
      HasKeyAppend(WikiEntries(ps), last, k);
      SplitEvidenceLast(now, ps, k);
    } else {
      assert WikiEntries(ps) + [] == WikiEntries(ps);
      HasKeyAppend(EvidenceOf(now, ps), last, k);
      if EntryId(last) != k { SplitEvidenceLast(now, ps, k); }
      LastWithSnoc(EvidenceOf(now, ps), last, k);
    }
  }

  /** An entry that merging into `es` would not change anything for. */
  ghost predicate Absorbed(es: seq<Entry>, x: Entry) {
    && HasKey(es, EntryId(x))
    && (Winner(es, EntryId(x)) == x || (Winner(es, EntryId(x)).storeType == WIKI && x.storeType != WIKI))
  }

  ghost predicate SameMerge(es: seq<Entry>, fs: seq<Entry>) {
    Keys(es) == Keys(fs) && (forall k :: HasKey(es, k) <==> HasKey(fs, k)) && forall k :: HasKey(es, k) ==>
        Winner(es, k) == Winner(fs, k)
  }

  lemma SameMergeMerged(es: seq<Entry>, fs: seq<Entry>)
    requires SameMerge(es, fs)
    ensures Merged(es) == Merged(fs)
  {
    hide Keys, Winner, HasKey;
    var r, t := Merged(es), Merged(fs);
    forall i | 0 <= i < |r| ensures r[i] == t[i] {
      assert HasKey(es, Keys(es)[i]);
    }
  }

  lemma AbsorbOne(es: seq<Entry>, x: Entry)
    requires Absorbed(es, x)
    ensures SameMerge(es + [x], es)
  {
    hide EntryId, Winner, Keys;
    KeysSnoc(es, x);
    KeysHave(es);
    KeysHave(es + [x]);
    forall k | HasKey(es + [x], k) { WinnerSnoc(es, x, k); }
  }

  lemma {:induction false} AbsorbAll(es: seq<Entry>, xs: seq<Entry>)
    requires forall x :: x in xs ==> Absorbed(es, x)
    ensures SameMerge(es + xs, es)
  {
    hide EntryId, Winner, Keys, HasKey;
    if xs == [] {
      assert es + xs == es;
    } else {
      var m := |xs| - 1;
      var ps := xs[..m];
      assert xs == ps + [xs[m]] && es + xs == (es + ps) + [xs[m]];
      AbsorbAll(es, ps);
      assert Absorbed(es, xs[m]);
      AbsorbOne(es + ps, xs[m]);
    }
  }

  lemma EvidenceFileAbsorbed(later: string, es: seq<Entry>, n: string)
    requires AllNormal(es) && n in FilesOf(EvidenceOf(later, es))
    ensures var e := FilesOf(EvidenceOf(later, es))[n]; Absorbed(es, e) && e.storeType != WIKI && Normal(e)
  {
    hide EntryId, Normal, FileName, LastWith, WikiEntries, FilesOf;
    var ev := EvidenceOf(later, es);
    FilesOfFacts(ev);
    SplitNormal(later, es);
    var e := FilesOf(ev)[n];
    var k := EntryId(e);
    var i :| 0 <= i < |ev| && EntryId(ev[i]) == k;
    assert LastWith(ev, k) == e && e in ev;
    var j :| 0 <= j < |es| && es[j] == e;
    if HasKey(WikiEntries(es), k) {
      WinnerKind(es, k);
    } else {
      SplitEvidenceLast(later, es, k);
    }
  }

  lemma WikiFileAbsorbed(later: string, es: seq<Entry>, n: string)
    requires AllNormal(es) && n in FilesOf(WikiOf(later, es))
    ensures var e := FilesOf(WikiOf(later, es))[n]; Absorbed(es, e) && e.storeType == WIKI && Normal(e)
  {
    hide EntryId, Normal, FileName, LastWith, WikiEntries, FilesOf;
    var ws := WikiEntries(es);
    FilesOfFacts(ws);
    SplitNormal(later, es);
    var e := FilesOf(ws)[n];
    var k := EntryId(e);
    assert LastWith(ws, k) == e && e in ws;
    WikiKeyHas(es, k);
    var j :| 0 <= j < |es| && es[j] == e;
  }

  /** Loading what a persist left on disk gives the merge of the normalised view: whatever the view,
      duplicate ids included, and whatever the three clock readings. */
  lemma RoundTrip(now: string, later: string, latest: string, view: seq<Entry>)
    requires !Blank(now)
    ensures Load(latest, Mirror(now, later, view)) == Merged(NormalizeView(now, view))
  {
    hide EntryId, Normal, FilesOf, Listing, Absorbed, EvidenceOf, WikiOf, Keys, Winner, HasKey, Blank;
    var es := NormalizeView(now, view);
    var t := Mirror(now, later, view);
    NormalizedNormal(now, view);
    NormalViewFixed(latest, es);
    var ev, ws := Listing(t.evidence), Listing(t.wiki);
    forall i | 0 <= i < |ev| ensures AllEvidence(ev)[i] == ev[i] && Absorbed(es, ev[i]) {
      assert ev[i] in ev;
      var n :| n in t.evidence && t.evidence[n] == ev[i];
      EvidenceFileAbsorbed(later, es, n);
      NormalFixed(latest, ev[i]);
    }
    forall i | 0 <= i < |ws| ensures AllWiki(latest, ws)[i] == ws[i] && Absorbed(es, ws[i]) {
      assert ws[i] in ws;
      var n :| n in t.wiki && t.wiki[n] == ws[i];
      WikiFileAbsorbed(later, es, n);
      NormalFixed(latest, ws[i]);
    }
    assert AllEvidence(ev) == ev && AllWiki(latest, ws) == ws;
    assert Copies(latest, t) == es + (ev + ws);
    AbsorbAll(es, ev + ws);
    SameMergeMerged(es + (ev + ws), es);
  }

  // ---------------------------------------------------------------- the files of a mirror, read off the view

  /** Entry `i` is the last of its kind with its id. */
  ghost predicate LastOfKind(es: seq<Entry>, i: nat) {
    i < |es| && forall j :: i < j < |es| && IsCanonical(es[j]) == IsCanonical(es[i]) ==>
        EntryId(es[j]) != EntryId(es[i])
  }

  /** The directory of a kind. */
  function KindFiles(later: string, es: seq<Entry>, canonical: bool): Dir {
    FilesOf(if canonical then WikiOf(later, es) else EvidenceOf(later, es))
  }

  lemma KindFilesNext(later: string, es: seq<Entry>, canonical: bool)
    requires es != [] && Normal(es[|es| - 1])
    ensures var e, before := es[|es| - 1], KindFiles(later, es[..|es| - 1], canonical);
            KindFiles(later, es, canonical) ==
              if IsCanonical(e) == canonical then before[EntryId(e) + ".json" := e] else before
  {
    hide Normal, Normalize, IsCanonical, EntryId, FilesOf;
    var n := |es| - 1;
    var e := es[n];
    NormalFixed(later, e);
    if canonical {
      FilesOfSnoc(WikiOf(later, es[..n]), e);
      assert WikiOf(later, es[..n]) + [] == WikiOf(later, es[..n]);
    } else {
      FilesOfSnoc(EvidenceOf(later, es[..n]), e);
      assert EvidenceOf(later, es[..n]) + [] == EvidenceOf(later, es[..n]);
    }
  }

  lemma {:induction false} LastIsFiled(later: string, es: seq<Entry>, i: nat)
    requires AllNormal(es) && LastOfKind(es, i)
    ensures var files, name := KindFiles(later, es, IsCanonical(es[i])), EntryId(es[i]) + ".json";
            name in files && files[name] == es[i]
  {
    hide Normal, IsCanonical, EntryId, KindFiles;
    var n := |es| - 1;
    KindFilesNext(later, es, IsCanonical(es[i]));
    if i < n {
      LastIsFiled(later, es[..n], i);
      if EntryId(es[i]) + ".json" == EntryId(es[n]) + ".json" { FileNameInjective(EntryId(es[i]), EntryId(es[n])); }
    }
  }

  lemma {:induction false} FiledFrom(later: string, es: seq<Entry>, canonical: bool, name: string) returns (i: nat)
    requires AllNormal(es) && name in KindFiles(later, es, canonical)
    ensures LastOfKind(es, i) && IsCanonical(es[i]) == canonical && name == EntryId(es[i]) + ".json"
  {
    hide Normal, IsCanonical, EntryId, KindFiles;
    if es == [] {
      NoKindFiles(later, canonical);
      assert false;
    } else {
      var n := |es| - 1;
      KindFilesNext(later, es, canonical);
      i := n;
      if !(IsCanonical(es[n]) == canonical && name == EntryId(es[n]) + ".json") {
        i := FiledFrom(later, es[..n], canonical, name);
        if EntryId(es[n]) == EntryId(es[i]) { assert EntryId(es[i]) + ".json" == name; }
      }
    }
  }

  lemma NoKindFiles(later: string, canonical: bool)
    ensures KindFiles(later, [], canonical) == map[]
  {
  }

  /** The files of a persisted view: the list file has all entries, and each directory exactly one file for each id
      of its kind, named after it and holding the last such entry; all normalised. */
  lemma MirrorTells(now: string, later: string, view: seq<Entry>, i: nat)
    requires !Blank(now)
    ensures var m := Mirror(now, later, view);
            && |m.listFile| == |view| && (forall j :: 0 <= j < |view| ==> m.listFile[j] == Normalize(now, view[j]))
            && (LastOfKind(view, i) ==>
                 var name, dir := EntryId(view[i]) + ".json", if IsCanonical(view[i]) then m.wiki else m.evidence;
                 name in dir && dir[name] == Normalize(now, view[i]))
            && (forall name :: name in m.wiki ==> exists j: nat ::
                  LastOfKind(view, j) && IsCanonical(view[j]) && name == EntryId(view[j]) + ".json")
            && (forall name :: name in m.evidence ==> exists j: nat ::
                  LastOfKind(view, j) && !IsCanonical(view[j]) && name == EntryId(view[j]) + ".json")
  {
    hide Normal, Normalize, IsCanonical, EntryId, WikiOf, EvidenceOf, FilesOf, Blank;
    var es := NormalizeView(now, view);
    NormalizedNormal(now, view);
    forall j: nat | j < |view|
        ensures IsCanonical(es[j]) == IsCanonical(view[j]) && EntryId(es[j]) == EntryId(view[j]) {
      NormalizeFacts(now, view[j]);
    }
    assert forall j: nat :: LastOfKind(es, j) <==> LastOfKind(view, j);
    if LastOfKind(view, i) { LastIsFiled(later, es, i); }
    var m := Mirror(now, later, view);
    forall name | name in m.wiki
        ensures exists j: nat :: LastOfKind(view, j) && IsCanonical(view[j]) && name == EntryId(view[j]) + ".json" {
      var j := FiledFrom(later, es, true, name);
    }
    forall name | name in m.evidence
        ensures exists j: nat :: LastOfKind(view, j) && !IsCanonical(view[j]) && name == EntryId(view[j]) + ".json" {
      var j := FiledFrom(later, es, false, name);
    }
  }
}
