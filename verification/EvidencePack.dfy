/** Building an evidence pack: items are routed to buckets, and within a bucket items with the same source
    anchor are merged. An entry is one record even when two buckets refer to it, so entries are kept as
    numbered cells and the buckets hold their numbers. */
module EvidencePack {
  import opened Text
  import opened Collections

  const SUPPORTING := "supporting_evidence"

  /** A retrieved item with its label and flags. `otherSupport` stands for the signs other than an anchor
      that an item is source-anchor support; `resolved` tells that its pointer resolved. */
  datatype Item = Item(anchor: string, policy: string, flags: seq<string>, sourceType: string, otherSupport: bool,
                       resolved: bool)

  function Key(x: Item): string { Strip(x.anchor) }

  predicate IsPrimary(x: Item) { x.policy == "canonical_truth" || x.policy == "task_knowledge_truth" }

  predicate ToSupport(x: Item) { !IsPrimary(x) && (x.policy == SUPPORTING || x.sourceType == "artifacts") }

  predicate ToFallback(x: Item) { "fallback_text_hit" in x.flags }

  predicate PrefersNew(x: Item) { Key(x) != "" || x.otherSupport }

  /** An entry: the item it describes and how many duplicates were merged into it. */
  datatype Cell = Cell(item: nat, duplicates: nat)

  /** Entries by number, and the place of each anchor. */
  datatype Bucket = Bucket(entries: seq<nat>, at: map<string, nat>)

  const Empty := Bucket([], map[])

  ghost predicate Fits(b: Bucket, cells: seq<Cell>) {
    && (forall p :: 0 <= p < |b.entries| ==> b.entries[p] < |cells|)
    && (forall k :: k in b.at ==> b.at[k] < |b.entries|)
  }

  datatype Appended = Appended(cells: seq<Cell>, bucket: Bucket, added: bool)

  /** Append the entry, or count it as a duplicate of the one with its anchor. A replacement is a copy. */
  function AppendDeduped(items: seq<Item>, cells: seq<Cell>, b: Bucket, key: string, ref: nat,
                         prefersNew: bool): Appended
    requires Fits(b, cells) && ref < |cells| && forall c :: 0 <= c < |cells| ==> cells[c].item < |items|
  {
    if key == "" then Appended(cells, b.(entries := b.entries + [ref]), true)
    else if key !in b.at then Appended(cells, Bucket(b.entries + [ref], b.at[key := |b.entries|]), true)
    else
      var p := b.at[key];
      var e := b.entries[p];
      var marked := cells[e := cells[e].(duplicates := cells[e].duplicates + 1)];
      if prefersNew && items[cells[e].item].policy != SUPPORTING then
        Appended(marked + [Cell(cells[ref].item, marked[e].duplicates)], b.(entries := b.entries[p := |marked|]), false)
      else Appended(marked, b, false)
  }

  // ---------------------------------------------------------------- one anchor

  /** What the items so far make of one anchor: the item and count of its entry in either bucket, and
      whether the two buckets refer to the same entry. */
  datatype Track = Track(inSupport: bool, supportItem: nat, supportCount: nat, inFallback: bool, fallbackItem: nat,
                         fallbackCount: nat, shared: bool)

  const Untracked := Track(false, 0, 0, false, 0, 0, false)

  function SupportStep(items: seq<Item>, t: Track, n: nat): Track
    requires t.inSupport ==> t.supportItem < |items|
  {
    if !t.inSupport then t.(inSupport := true, supportItem := n, supportCount := 0, shared := false)
    else
      var replaced := items[t.supportItem].policy != SUPPORTING;
      t.(supportItem := if replaced then n else t.supportItem, supportCount := t.supportCount + 1,
         fallbackCount := if t.shared then t.fallbackCount + 1 else t.fallbackCount, shared := t.shared && !replaced)
  }

  /** `own` tells that the item has just become the anchor's first support entry. */
  function FallbackStep(t: Track, n: nat, own: bool): Track {
    if !t.inFallback then t.(inFallback := true, fallbackItem := n, fallbackCount := 0, shared := own)
    else t.(fallbackCount := t.fallbackCount + 1,
            supportCount := if t.shared then t.supportCount + 1 else t.supportCount)
  }

  function TrackItem(items: seq<Item>, t: Track, n: nat): Track
    requires n < |items| && (t.inSupport ==> t.supportItem < |items|)
  {
    var u := if ToSupport(items[n]) then SupportStep(items, t, n) else t;
    if ToFallback(items[n]) then FallbackStep(u, n, ToSupport(items[n]) && !t.inSupport) else u
  }

  /** The track of a non-empty anchor after the first `n` items. */
  function TrackOf(items: seq<Item>, n: nat, key: string): (t: Track)
    requires n <= |items|
    ensures t.inSupport ==> t.supportItem < n
    ensures t.inFallback ==> t.fallbackItem < n
  {
    if n == 0 then Untracked
    else if Key(items[n - 1]) != key then TrackOf(items, n - 1, key)
    else TrackItem(items, TrackOf(items, n - 1, key), n - 1)
  }

  // ---------------------------------------------------------------- the buckets agree with the tracks

  ghost predicate CellsOk(items: seq<Item>, cells: seq<Cell>, n: nat) {
    forall c :: 0 <= c < |cells| ==> cells[c].item < n <= |items|
  }

  /** Every place with an anchor is the place of that anchor: no anchor has two entries. */
  ghost predicate OnePlace(items: seq<Item>, cells: seq<Cell>, b: Bucket) {
    && Fits(b, cells)
    && (forall k :: k in b.at ==> k != "")
    && (forall c :: 0 <= c < |cells| ==> cells[c].item < |items|)
    && (forall k :: k in b.at ==> Key(items[cells[b.entries[b.at[k]]].item]) == k)
    && (forall p :: 0 <= p < |b.entries| ==> var k := Key(items[cells[b.entries[p]].item]); k != "" ==>
         k in b.at && b.at[k] == p)
  }

  ghost predicate Agrees(cells: seq<Cell>, s: Bucket, f: Bucket, key: string, t: Track)
    requires Fits(s, cells) && Fits(f, cells)
  {
    && (key in s.at <==> t.inSupport) && (key in f.at <==> t.inFallback)
    && (t.inSupport ==> cells[s.entries[s.at[key]]] == Cell(t.supportItem, t.supportCount))
    && (t.inFallback ==> cells[f.entries[f.at[key]]] == Cell(t.fallbackItem, t.fallbackCount))
    && (t.shared ==> t.inSupport && t.inFallback)
    && (t.inSupport && t.inFallback ==> (t.shared <==> s.entries[s.at[key]] == f.entries[f.at[key]]))
  }

  ghost predicate Built(items: seq<Item>, n: nat, cells: seq<Cell>, s: Bucket, f: Bucket) {
    && n <= |items| && CellsOk(items, cells, n) && OnePlace(items, cells, s) && OnePlace(items, cells, f)
    && forall k :: k != "" ==> Agrees(cells, s, f, k, TrackOf(items, n, k))
  }

  /** What appending does: at most the anchor's own entry is marked, other anchors keep their places, and no
      anchor gets a second entry. */
  ghost predicate Effect(items: seq<Item>, cells: seq<Cell>, b: Bucket, key: string, ref: nat,
                         prefersNew: bool, a: Appended)
    requires Fits(b, cells) && ref < |cells| && forall c :: 0 <= c < |cells| ==> cells[c].item < |items|
  {
    && |cells| <= |a.cells| && Fits(a.bucket, a.cells)
    && (forall c :: 0 <= c < |cells| ==> a.cells[c].item == cells[c].item)
    && (forall c :: 0 <= c < |cells| && !(key in b.at && c == b.entries[b.at[key]]) ==> a.cells[c] == cells[c])
    && (forall k :: k != key && k in b.at ==>
         k in a.bucket.at && a.bucket.entries[a.bucket.at[k]] == b.entries[b.at[k]])
    && (forall k :: k != key && k !in b.at ==> k !in a.bucket.at)
    && (key != "" ==>
          && key in a.bucket.at
          && var now := a.bucket.entries[a.bucket.at[key]];
             if key !in b.at then now == ref
             else
               var e := b.entries[b.at[key]];
               && a.cells[e].duplicates == cells[e].duplicates + 1
               && (if prefersNew && items[cells[e].item].policy != SUPPORTING
                   then now == |cells| && a.cells[now] == Cell(cells[ref].item, cells[e].duplicates + 1) else now == e))
  }

  lemma AppendEffect(items: seq<Item>, cells: seq<Cell>, b: Bucket, key: string, ref: nat, prefersNew: bool)
    requires OnePlace(items, cells, b) && ref < |cells| && Key(items[cells[ref].item]) == key
    ensures Effect(items, cells, b, key, ref, prefersNew, AppendDeduped(items, cells, b, key, ref, prefersNew))
  {
    hide Key;
  }

  /** A new entry at the end, for an anchor without a place or no anchor at all. */
  lemma EndOnePlace(items: seq<Item>, cells: seq<Cell>, b: Bucket, key: string, ref: nat)
    requires OnePlace(items, cells, b) && ref < |cells| && Key(items[cells[ref].item]) == key && key !in b.at
    ensures OnePlace(items, cells, Bucket(b.entries + [ref], if key == "" then b.at else b.at[key := |b.entries|]))
  {
    hide Key;
  }

  /** Another entry of the same anchor in the place of the old one. */
  lemma ReplacedOnePlace(items: seq<Item>, cells: seq<Cell>, b: Bucket, key: string, ref: nat)
    requires OnePlace(items, cells, b) && ref < |cells| && Key(items[cells[ref].item]) == key && key in b.at
    ensures OnePlace(items, cells, b.(entries := b.entries[b.at[key] := ref]))
  {
    hide Key;
  }

  lemma AppendOnePlace(items: seq<Item>, cells: seq<Cell>, b: Bucket, key: string, ref: nat, prefersNew: bool)
    requires OnePlace(items, cells, b) && ref < |cells| && Key(items[cells[ref].item]) == key
    ensures var a := AppendDeduped(items, cells, b, key, ref, prefersNew);
            OnePlace(items, a.cells, a.bucket)
  {
    hide Key, OnePlace;
    NoBlankPlace(items, cells, b);
    var a := AppendDeduped(items, cells, b, key, ref, prefersNew);
    if key !in b.at {
      EndOnePlace(items, cells, b, key, ref);
    } else {
      AppendItems(items, cells, b, key, ref, prefersNew);
      PlacesStay(items, cells, a.cells, b);
      if a.bucket != b { ReplacedOnePlace(items, a.cells, b, key, |cells|); }
    }
  }

  lemma NoBlankPlace(items: seq<Item>, cells: seq<Cell>, b: Bucket)
    requires OnePlace(items, cells, b)
    ensures "" !in b.at && Fits(b, cells) && (forall c :: 0 <= c < |cells| ==> cells[c].item < |items|)
  {
    hide Key;
  }

  /** New cells and marks do not move the entries of a bucket. */
  lemma PlacesStay(items: seq<Item>, cells: seq<Cell>, more: seq<Cell>, b: Bucket)
    requires OnePlace(items, cells, b) && |cells| <= |more|
    requires forall c :: 0 <= c < |cells| ==> more[c].item == cells[c].item
    requires forall c :: 0 <= c < |more| ==> more[c].item < |items|
    ensures OnePlace(items, more, b)
  {
    hide Key;
  }

  lemma AppendItems(items: seq<Item>, cells: seq<Cell>, b: Bucket, key: string, ref: nat, prefersNew: bool)
    requires OnePlace(items, cells, b) && ref < |cells|
    ensures var a := AppendDeduped(items, cells, b, key, ref, prefersNew);
            && |cells| <= |a.cells|
            && (forall c :: 0 <= c < |cells| ==> a.cells[c].item == cells[c].item)
            && (forall c :: |cells| <= c < |a.cells| ==> a.cells[c].item == cells[ref].item)
  {
    hide Key;
  }

  /** Other anchors do not notice. */
  lemma AgreesOther(items: seq<Item>, cells: seq<Cell>, b: Bucket, o: Bucket, key: string, ref: nat,
                    prefersNew: bool, a: Appended, k: string, t: Track, supportFirst: bool)
    requires OnePlace(items, cells, b) && OnePlace(items, cells, o) && ref < |cells|
        && Key(items[cells[ref].item]) == key
    requires Effect(items, cells, b, key, ref, prefersNew, a) && OnePlace(items, a.cells, a.bucket)
        && OnePlace(items, a.cells, o)
    requires k != "" && k != key
    requires if supportFirst then Agrees(cells, b, o, k, t) else Agrees(cells, o, b, k, t)
    ensures if supportFirst then Agrees(a.cells, a.bucket, o, k, t) else Agrees(a.cells, o, a.bucket, k, t)
  {
    hide Key;
    if k in b.at {
      assert Key(items[cells[b.entries[b.at[k]]].item]) == k;
      if key in b.at { assert Key(items[cells[b.entries[b.at[key]]].item]) == key; }
    }
    if k in o.at {
      assert Key(items[cells[o.entries[o.at[k]]].item]) == k;
      if key in b.at { assert Key(items[cells[b.entries[b.at[key]]].item]) == key; }
    }
  }

  /** The anchor's own track follows the support step. `ref` is a new entry, in neither bucket. */
  lemma AgreesSupport(items: seq<Item>, cells: seq<Cell>, s: Bucket, f: Bucket, key: string, ref: nat, n: nat,
                      t: Track, a: Appended)
    requires OnePlace(items, cells, s) && OnePlace(items, cells, f) && Fits(s, cells) && Fits(f, cells)
    requires ref < |cells| && cells[ref] == Cell(n, 0)
    requires key != "" && (key in s.at ==> s.entries[s.at[key]] != ref) && (key in f.at ==> f.entries[f.at[key]] != ref)
    requires Effect(items, cells, s, key, ref, true, a) && OnePlace(items, a.cells, a.bucket)
        && OnePlace(items, a.cells, f)
    requires Agrees(cells, s, f, key, t) && (t.inSupport ==> t.supportItem < |items|)
    ensures Agrees(a.cells, a.bucket, f, key, SupportStep(items, t, n))
    ensures a.bucket.entries[a.bucket.at[key]] == ref <==> !t.inSupport
  {
    hide OnePlace, Key;
  }

  /** The anchor's own track follows the fallback step; `own` tells that `ref` is its support entry. */
  lemma AgreesFallback(items: seq<Item>, cells: seq<Cell>, s: Bucket, f: Bucket, key: string, ref: nat, n: nat,
                       t: Track, own: bool, a: Appended)
    requires OnePlace(items, cells, s) && OnePlace(items, cells, f) && Fits(s, cells) && Fits(f, cells)
    requires ref < |cells| && cells[ref] == Cell(n, 0)
    requires key != "" && (key in s.at ==> (s.entries[s.at[key]] == ref <==> own)) && (own ==> key in s.at)
        && (key in f.at ==> f.entries[f.at[key]] != ref)
    requires Effect(items, cells, f, key, ref, false, a) && OnePlace(items, a.cells, a.bucket)
        && OnePlace(items, a.cells, s)
    requires Agrees(cells, s, f, key, t)
    ensures Agrees(a.cells, s, a.bucket, key, FallbackStep(t, n, own))
  {
    hide OnePlace, Key;
  }

  // ---------------------------------------------------------------- one item

  /** The state between the two buckets of item `n`, whose new entry is `ref`. */
  ghost predicate Between(items: seq<Item>, n: nat, cells: seq<Cell>, ref: nat, s: Bucket, f: Bucket) {
    && n < |items| && CellsOk(items, cells, n + 1) && OnePlace(items, cells, s) && OnePlace(items, cells, f)
    && ref < |cells| && cells[ref] == Cell(n, 0)
    && var key := Key(items[n]);
       var t := TrackOf(items, n, key);
       var own := ToSupport(items[n]) && !t.inSupport;
       && (key != "" ==>
             && (key in s.at ==> (s.entries[s.at[key]] == ref <==> own)) && (own ==> key in s.at)
             && (key in f.at ==> f.entries[f.at[key]] != ref)
             && Agrees(cells, s, f, key, if ToSupport(items[n]) then SupportStep(items, t, n) else t))
       && forall k :: k != "" && k != key ==> Agrees(cells, s, f, k, TrackOf(items, n, k))
  }

  lemma StartItem(items: seq<Item>, n: nat, cells: seq<Cell>, s: Bucket, f: Bucket)
    requires Built(items, n, cells, s, f) && n < |items|
    ensures var more := cells + [Cell(n, 0)];
            var key := Key(items[n]);
            && CellsOk(items, more, n + 1) && OnePlace(items, more, s) && OnePlace(items, more, f)
            && (key in s.at ==> s.entries[s.at[key]] != |cells|) && (key in f.at ==> f.entries[f.at[key]] != |cells|)
            && forall k :: k != "" ==> Agrees(more, s, f, k, TrackOf(items, n, k))
  {
    hide Key, TrackOf;
    var more := cells + [Cell(n, 0)];
    assert forall c :: 0 <= c < |cells| ==> more[c] == cells[c];
    PlacesStay(items, cells, more, s);
    PlacesStay(items, cells, more, f);
  }

  lemma SkipSupport(items: seq<Item>, n: nat, cells: seq<Cell>, s: Bucket, f: Bucket)
    requires Built(items, n, cells, s, f) && n < |items| && !ToSupport(items[n])
    ensures Between(items, n, cells + [Cell(n, 0)], |cells|, s, f)
  {
    hide Key, TrackOf, OnePlace, ToSupport;
    StartItem(items, n, cells, s, f);
  }

  lemma TakeSupport(items: seq<Item>, n: nat, cells: seq<Cell>, s: Bucket, f: Bucket)
    requires Built(items, n, cells, s, f) && n < |items| && ToSupport(items[n])
    ensures var more := cells + [Cell(n, 0)];
            && OnePlace(items, more, s)
            && var a := AppendDeduped(items, more, s, Key(items[n]), |cells|, PrefersNew(items[n]));
               Between(items, n, a.cells, |cells|, a.bucket, f)
  {
    hide TrackOf, OnePlace, ToSupport, AppendDeduped, Effect, Strip, Agrees, Fits;
    var more, key, ref := cells + [Cell(n, 0)], Key(items[n]), |cells|;
    StartItem(items, n, cells, s, f);
    NoBlankPlace(items, more, s);
    NoBlankPlace(items, more, f);
    var prefers := PrefersNew(items[n]);
    var a := AppendDeduped(items, more, s, key, ref, prefers);
    AppendEffect(items, more, s, key, ref, prefers);
    AppendItems(items, more, s, key, ref, prefers);
    AppendOnePlace(items, more, s, key, ref, prefers);
    PlacesStay(items, more, a.cells, f);
    RefKept(items, more, s, key, ref, prefers, a);
    NoBlankPlace(items, a.cells, f);
    NoBlankPlace(items, a.cells, a.bucket);
    if key != "" {
      AgreesSupport(items, more, s, f, key, ref, n, TrackOf(items, n, key), a);
    }
    forall k | k != "" && k != key ensures Agrees(a.cells, a.bucket, f, k, TrackOf(items, n, k)) {
      AgreesOther(items, more, s, f, key, ref, prefers, a, k, TrackOf(items, n, k), true);
    }
    AgreesPlace(a.cells, a.bucket, f, key, SupportStep(items, TrackOf(items, n, key), n));
  }

  lemma AgreesPlace(cells: seq<Cell>, s: Bucket, f: Bucket, key: string, t: Track)
    requires Fits(s, cells) && Fits(f, cells)
    ensures Agrees(cells, s, f, key, t) && t.inSupport ==> key in s.at
  {
  }

  /** An entry that no place refers to is not marked. */
  lemma RefKept(items: seq<Item>, cells: seq<Cell>, b: Bucket, key: string, ref: nat, prefersNew: bool,
                a: Appended)
    requires OnePlace(items, cells, b) && Fits(b, cells) && ref < |cells|
        && Effect(items, cells, b, key, ref, prefersNew, a)
    requires key in b.at ==> b.entries[b.at[key]] != ref
    ensures a.cells[ref] == cells[ref]
  {
    hide OnePlace;
  }

  lemma SkipFallback(items: seq<Item>, n: nat, cells: seq<Cell>, ref: nat, s: Bucket, f: Bucket)
    requires Between(items, n, cells, ref, s, f) && !ToFallback(items[n])
    ensures Built(items, n + 1, cells, s, f)
  {
    hide OnePlace, ToSupport, Agrees, SupportStep, Key, Fits;
    NoBlankPlace(items, cells, s);
    NoBlankPlace(items, cells, f);
    var next, key := n + 1, Key(items[n]);
    var u := if ToSupport(items[n]) then SupportStep(items, TrackOf(items, n, key), n) else TrackOf(items, n, key);
    assert TrackOf(items, next, key) == u;
    forall k | k != "" ensures Agrees(cells, s, f, k, TrackOf(items, next, k)) {
      assert k != key ==> TrackOf(items, next, k) == TrackOf(items, n, k);
    }
  }

  lemma TakeFallback(items: seq<Item>, n: nat, cells: seq<Cell>, ref: nat, s: Bucket, f: Bucket)
    requires Between(items, n, cells, ref, s, f) && ToFallback(items[n])
    ensures OnePlace(items, cells, f)
            && var a := AppendDeduped(items, cells, f, Key(items[n]), ref, false);
               Built(items, n + 1, a.cells, s, a.bucket)
  {
    hide OnePlace, ToSupport, ToFallback, AppendDeduped, Effect, Key, SupportStep, FallbackStep, Agrees, Fits;
    var key := Key(items[n]);
    NoBlankPlace(items, cells, s);
    NoBlankPlace(items, cells, f);
    var a := AppendDeduped(items, cells, f, key, ref, false);
    AppendEffect(items, cells, f, key, ref, false);
    AppendItems(items, cells, f, key, ref, false);
    AppendOnePlace(items, cells, f, key, ref, false);
    PlacesStay(items, cells, a.cells, s);
    NoBlankPlace(items, a.cells, s);
    NoBlankPlace(items, a.cells, a.bucket);
    var t := TrackOf(items, n, key);
    var u := if ToSupport(items[n]) then SupportStep(items, t, n) else t;
    var own := ToSupport(items[n]) && !t.inSupport;
    if key != "" {
      AgreesFallback(items, cells, s, f, key, ref, n, u, own, a);
    }
    var next := n + 1;
    forall k | k != "" ensures Agrees(a.cells, s, a.bucket, k, TrackOf(items, next, k)) {
      if k != key {
        AgreesOther(items, cells, f, s, key, ref, false, a, k, TrackOf(items, n, k), false);
      }
    }
  }

  // ---------------------------------------------------------------- pointers

  /** The pointer kept for a non-empty anchor, by the item it is of. */
  function PointerOf(items: seq<Item>, n: nat, anchor: string): (p: Option<nat>)
    requires n <= |items|
    ensures p.Some? ==> p.value < n && items[p.value].anchor == anchor
  {
    if n == 0 then None
    else
      var p := PointerOf(items, n - 1, anchor);
      if items[n - 1].anchor != anchor then p
      else if p.None? || (!items[p.value].resolved && items[n - 1].resolved) then Some(n - 1)
      else p
  }

  /** The items that opened a place in the pointer list, in order. */
  function PointerSlots(items: seq<Item>, n: nat): seq<nat>
    requires n <= |items|
  {
    if n == 0 then []
    else
      var x := items[n - 1];
      PointerSlots(items, n - 1) + (if x.anchor == "" || PointerOf(items, n - 1, x.anchor).None? then [n - 1] else [])
  }

  ghost predicate PointersBuilt(items: seq<Item>, n: nat, ps: seq<nat>, at: map<string, nat>) {
    && n <= |items|
    && (forall i :: 0 <= i < |ps| ==> ps[i] < n)
    && (forall a :: a in at ==> a != "" && at[a] < |ps|)
    && (forall i :: 0 <= i < |ps| && items[ps[i]].anchor != "" ==>
         items[ps[i]].anchor in at && at[items[ps[i]].anchor] == i)
    && (forall a :: a != "" ==> PointerKept(items, n, ps, at, a))
  }

  /** The place of an anchor holds the pointer kept for it. */
  ghost predicate PointerKept(items: seq<Item>, n: nat, ps: seq<nat>, at: map<string, nat>, a: string)
    requires n <= |items|
  {
    && (a in at <==> PointerOf(items, n, a).Some?)
    && (a in at ==> at[a] < |ps| && PointerOf(items, n, a) == Some(ps[at[a]]))
  }

  /** The places of the list are in the order they were opened. */
  ghost predicate PointersInOrder(items: seq<Item>, ps: seq<nat>, at: map<string, nat>, slots: seq<nat>) {
    && |ps| == |slots|
    && (forall i :: 0 <= i < |ps| ==> slots[i] < |items|)
    && (forall i :: 0 <= i < |ps| && items[slots[i]].anchor == "" ==> ps[i] == slots[i])
    && (forall i :: 0 <= i < |ps| && items[slots[i]].anchor != "" ==>
         items[slots[i]].anchor in at && at[items[slots[i]].anchor] == i)
  }

  datatype Pointers = Pointers(list: seq<nat>, at: map<string, nat>, added: bool)

  function AppendPointer(items: seq<Item>, ps: seq<nat>, at: map<string, nat>, n: nat): Pointers
    requires PointersBuilt(items, n, ps, at) && n < |items|
  {
    var anchor := items[n].anchor;
    if anchor == "" then Pointers(ps + [n], at, true)
    else if anchor !in at then Pointers(ps + [n], at[anchor := |ps|], true)
    else if !items[ps[at[anchor]]].resolved && items[n].resolved then Pointers(ps[at[anchor] := n], at, false)
    else Pointers(ps, at, false)
  }

  lemma PointersNext(items: seq<Item>, n: nat, ps: seq<nat>, at: map<string, nat>)
    requires PointersBuilt(items, n, ps, at) && n < |items| && PointersInOrder(items, ps, at, PointerSlots(items, n))
    ensures var p := AppendPointer(items, ps, at, n); PointersInOrder(items, p.list, p.at, PointerSlots(items, n + 1))
  {
    hide PointerOf, PointerSlots;
    var slots, anchor := PointerSlots(items, n), items[n].anchor;
    SlotsNext(items, n);
    if anchor != "" { assert PointerKept(items, n, ps, at, anchor); }
  }

  lemma SlotsNext(items: seq<Item>, n: nat)
    requires n < |items|
    ensures PointerSlots(items, n + 1)
        == (if items[n].anchor == "" || PointerOf(items, n, items[n].anchor).None? then PointerSlots(items, n) + [n]
            else PointerSlots(items, n))
  {
    hide PointerOf;
  }

  lemma PointerNext(items: seq<Item>, n: nat, anchor: string)
    requires n < |items|
    ensures var p, x := PointerOf(items, n, anchor), items[n];
            PointerOf(items, n + 1, anchor) ==
            (if x.anchor != anchor then p
             else if p.None? || (!items[p.value].resolved && x.resolved) then Some(n)
             else p)
  {
  }

  lemma PointerStep(items: seq<Item>, n: nat, ps: seq<nat>, at: map<string, nat>)
    requires PointersBuilt(items, n, ps, at) && n < |items|
    ensures var p := AppendPointer(items, ps, at, n);
            && PointersBuilt(items, n + 1, p.list, p.at)
            && |p.list| == |ps| + (if p.added then 1 else 0)
  {
    hide PointerOf, PointerKept;
    var p := AppendPointer(items, ps, at, n);
    var next := n + 1;
    forall a | a != "" ensures PointerKept(items, next, p.list, p.at, a) { KeptNext(items, n, ps, at, a); }
  }

  lemma KeptNext(items: seq<Item>, n: nat, ps: seq<nat>, at: map<string, nat>, a: string)
    requires PointersBuilt(items, n, ps, at) && n < |items| && a != ""
    ensures var p := AppendPointer(items, ps, at, n); PointerKept(items, n + 1, p.list, p.at, a)
  {
    hide PointerOf;
    PointerNext(items, n, a);
    assert PointerKept(items, n, ps, at, a);
    if items[n].anchor != "" { assert PointerKept(items, n, ps, at, items[n].anchor); }
  }

  /** The pointer kept for an anchor is the first resolved one, or else the first. */
  lemma {:induction false} PointerIsFirst(items: seq<Item>, n: nat, anchor: string)
    requires n <= |items| && PointerOf(items, n, anchor).Some?
    ensures var p := PointerOf(items, n, anchor).value;
            && (items[p].resolved ==> forall i :: 0 <= i < p && items[i].anchor == anchor ==> !items[i].resolved)
            && (!items[p].resolved ==> (forall i :: 0 <= i < n && items[i].anchor == anchor ==> !items[i].resolved)
                                       && (forall i :: 0 <= i < p ==> items[i].anchor != anchor))
  {
    if PointerOf(items, n - 1, anchor).Some? {
      PointerIsFirst(items, n - 1, anchor);
    } else {
      NoPointer(items, n - 1, anchor);
    }
  }

  lemma {:induction false} NoPointer(items: seq<Item>, n: nat, anchor: string)
    requires n <= |items| && PointerOf(items, n, anchor).None?
    ensures forall i :: 0 <= i < n ==> items[i].anchor != anchor
  {
    if n > 0 { NoPointer(items, n - 1, anchor); }
  }

  // ---------------------------------------------------------------- the pack

  function CountSupport(items: seq<Item>, n: nat): nat
    requires n <= |items|
  {
    if n == 0 then 0 else CountSupport(items, n - 1) + (if ToSupport(items[n - 1]) then 1 else 0)
  }

  function CountFallback(items: seq<Item>, n: nat): nat
    requires n <= |items|
  {
    if n == 0 then 0 else CountFallback(items, n - 1) + (if ToFallback(items[n - 1]) then 1 else 0)
  }

  /** The items that opened a place in the support bucket: those without an anchor, and the first of each. */
  function SupportSlots(items: seq<Item>, n: nat): seq<nat>
    requires n <= |items|
  {
    if n == 0 then []
    else
      var x := items[n - 1];
      SupportSlots(items, n - 1)
          + (if ToSupport(x) && (Key(x) == "" || !TrackOf(items, n - 1, Key(x)).inSupport) then [n - 1] else [])
  }

  function FallbackSlots(items: seq<Item>, n: nat): seq<nat>
    requires n <= |items|
  {
    if n == 0 then []
    else
      var x := items[n - 1];
      FallbackSlots(items, n - 1)
          + (if ToFallback(x) && (Key(x) == "" || !TrackOf(items, n - 1, Key(x)).inFallback) then [n - 1] else [])
  }

  /** The places of a bucket are in the order they were opened; a place without an anchor holds the entry
      of its own item, without duplicates. */
  ghost predicate InOrder(items: seq<Item>, cells: seq<Cell>, b: Bucket, slots: seq<nat>) {
    && Fits(b, cells) && |b.entries| == |slots|
    && forall p :: 0 <= p < |slots| ==>
         && slots[p] < |items|
         && var k := Key(items[slots[p]]);
            if k == "" then cells[b.entries[p]] == Cell(slots[p], 0) else k in b.at && b.at[k] == p
  }

  lemma InOrderOpened(items: seq<Item>, cells: seq<Cell>, b: Bucket, slots: seq<nat>, key: string, ref: nat, n: nat)
    requires OnePlace(items, cells, b) && InOrder(items, cells, b, slots) && ref < |cells|
    requires cells[ref] == Cell(n, 0) && n < |items| && Key(items[n]) == key && key !in b.at
    ensures InOrder(items, cells, Bucket(b.entries + [ref], if key == "" then b.at else b.at[key := |b.entries|]),
                    slots + [n])
  {
    hide Key, OnePlace;
  }

  lemma InOrderAppend(items: seq<Item>, cells: seq<Cell>, b: Bucket, slots: seq<nat>, key: string, ref: nat, n: nat,
                      prefersNew: bool)
    requires OnePlace(items, cells, b) && InOrder(items, cells, b, slots) && ref < |cells|
    requires cells[ref] == Cell(n, 0) && n < |items| && Key(items[n]) == key
    ensures var a := AppendDeduped(items, cells, b, key, ref, prefersNew);
            InOrder(items, a.cells, a.bucket, if key == "" || key !in b.at then slots + [n] else slots)
  {
    hide Key;
    NoBlankPlace(items, cells, b);
    if key !in b.at {
      hide InOrder, OnePlace;
      InOrderOpened(items, cells, b, slots, key, ref, n);
    } else {
      var a := AppendDeduped(items, cells, b, key, ref, prefersNew);
      forall p | 0 <= p < |slots| && Key(items[slots[p]]) == ""
        ensures a.bucket.entries[p] == b.entries[p] && a.cells[b.entries[p]] == cells[b.entries[p]]
      {
        assert Key(items[cells[b.entries[p]].item]) == "";
      }
    }
  }

  /** Appending to another bucket does not disturb the order of this one. */
  lemma InOrderOther(items: seq<Item>, cells: seq<Cell>, b: Bucket, o: Bucket, slots: seq<nat>, key: string,
                     ref: nat, prefersNew: bool)
    requires OnePlace(items, cells, b) && InOrder(items, cells, o, slots) && ref < |cells|
        && Key(items[cells[ref].item]) == key
    ensures InOrder(items, AppendDeduped(items, cells, b, key, ref, prefersNew).cells, o, slots)
  {
    hide Key;
    var a := AppendDeduped(items, cells, b, key, ref, prefersNew);
    forall p | 0 <= p < |slots| && Key(items[slots[p]]) == "" ensures a.cells[o.entries[p]] == cells[o.entries[p]] {
      assert Key(items[cells[o.entries[p]].item]) == "";
    }
  }

  /** One more entry that no bucket refers to. */
  lemma InOrderMore(items: seq<Item>, cells: seq<Cell>, b: Bucket, slots: seq<nat>, c: Cell)
    requires InOrder(items, cells, b, slots)
    ensures InOrder(items, cells + [c], b, slots)
  {
    hide Key;
  }

  ghost predicate Ordered(items: seq<Item>, n: nat, p: Pack)
    requires n <= |items|
  {
    InOrder(items, p.cells, p.support, SupportSlots(items, n))
        && InOrder(items, p.cells, p.fallback, FallbackSlots(items, n))
  }

  lemma OrderedNone(items: seq<Item>)
    ensures Ordered(items, 0, Pack([], Empty, Empty, [], map[], 0, 0, 0))
  {
  }

  datatype Pack = Pack(
    cells: seq<Cell>, support: Bucket, fallback: Bucket, pointers: seq<nat>, pointerAt: map<string, nat>,
    dedupedSupport: nat, dedupedFallback: nat, dedupedPointers: nat)

  /** The size of each bucket and its counter add up to what was routed to it. */
  ghost predicate Sums(items: seq<Item>, n: nat, p: Pack)
    requires n <= |items|
  {
    && |p.support.entries| + p.dedupedSupport == CountSupport(items, n)
    && |p.fallback.entries| + p.dedupedFallback == CountFallback(items, n)
    && |p.pointers| + p.dedupedPointers == n
  }

  lemma SizeOfAppend(items: seq<Item>, cells: seq<Cell>, b: Bucket, key: string, ref: nat, prefersNew: bool)
    requires Fits(b, cells) && ref < |cells| && forall c :: 0 <= c < |cells| ==> cells[c].item < |items|
    ensures var a := AppendDeduped(items, cells, b, key, ref, prefersNew);
            |a.bucket.entries| == |b.entries| + (if a.added then 1 else 0)
  {
    hide Key;
  }

  lemma BuiltNone(items: seq<Item>)
    ensures Built(items, 0, [], Empty, Empty) && PointersBuilt(items, 0, [], map[])
        && PointersInOrder(items, [], map[], PointerSlots(items, 0))
  {
  }

  method BuildEvidencePack(items: seq<Item>) returns (p: Pack)
    ensures Built(items, |items|, p.cells, p.support, p.fallback)
    ensures PointersBuilt(items, |items|, p.pointers, p.pointerAt)
        && PointersInOrder(items, p.pointers, p.pointerAt, PointerSlots(items, |items|))
    ensures Sums(items, |items|, p) && Ordered(items, |items|, p)
  {
    hide Built, PointersBuilt, Between, OnePlace, AppendDeduped, AppendPointer, ToSupport, ToFallback, Key;
    hide PrefersNew, CellsOk, Fits, InOrder, PointersInOrder, SupportSlots, FallbackSlots, PointerSlots;
    p := Pack([], Empty, Empty, [], map[], 0, 0, 0);
    BuiltNone(items);
    OrderedNone(items);
    for n := 0 to |items|
      invariant Built(items, n, p.cells, p.support, p.fallback)
      invariant PointersBuilt(items, n, p.pointers, p.pointerAt)
          && PointersInOrder(items, p.pointers, p.pointerAt, PointerSlots(items, n))
      invariant Sums(items, n, p) && Ordered(items, n, p)
    {
      p := AddItem(items, n, p);
    }
  }

  method AddItem(items: seq<Item>, n: nat, before: Pack) returns (p: Pack)
    requires n < |items| && Built(items, n, before.cells, before.support, before.fallback)
    requires PointersBuilt(items, n, before.pointers, before.pointerAt)
        && PointersInOrder(items, before.pointers, before.pointerAt, PointerSlots(items, n))
    requires Sums(items, n, before) && Ordered(items, n, before)
    ensures Built(items, n + 1, p.cells, p.support, p.fallback)
    ensures PointersBuilt(items, n + 1, p.pointers, p.pointerAt)
        && PointersInOrder(items, p.pointers, p.pointerAt, PointerSlots(items, n + 1))
    ensures Sums(items, n + 1, p) && Ordered(items, n + 1, p)
  {
    hide Built, PointersBuilt, Between, OnePlace, AppendDeduped, AppendPointer, ToSupport, ToFallback, Key;
    hide PrefersNew, CellsOk, Fits, InOrder, PointersInOrder, SupportSlots, FallbackSlots, PointerSlots;
    p := before;
    var item := items[n];
    var key, ref := Key(item), |p.cells|;
    SlotsStep(items, n, before);
    ghost var s, f := SupportSlots(items, n), FallbackSlots(items, n);
    InOrderMore(items, p.cells, p.support, s, Cell(n, 0));
    InOrderMore(items, p.cells, p.fallback, f, Cell(n, 0));
    if ToSupport(item) {
      TakeSupport(items, n, p.cells, p.support, p.fallback);
      p := p.(cells := p.cells + [Cell(n, 0)]);
      NoBlankPlace(items, p.cells, p.support);
      SizeOfAppend(items, p.cells, p.support, key, ref, PrefersNew(item));
      InOrderAppend(items, p.cells, p.support, s, key, ref, n, PrefersNew(item));
      InOrderOther(items, p.cells, p.support, p.fallback, f, key, ref, PrefersNew(item));
      var a := AppendDeduped(items, p.cells, p.support, key, ref, PrefersNew(item));
      p := p.(cells := a.cells, support := a.bucket,
              dedupedSupport := if a.added then p.dedupedSupport else p.dedupedSupport + 1);
    } else {
      SkipSupport(items, n, p.cells, p.support, p.fallback);
      p := p.(cells := p.cells + [Cell(n, 0)]);
    }
    RefThere(items, n, p.cells, ref, p.support, p.fallback);
    if ToFallback(item) {
      TakeFallback(items, n, p.cells, ref, p.support, p.fallback);
      NoBlankPlace(items, p.cells, p.fallback);
      SizeOfAppend(items, p.cells, p.fallback, key, ref, false);
      InOrderAppend(items, p.cells, p.fallback, f, key, ref, n, false);
      InOrderOther(items, p.cells, p.fallback, p.support, SupportSlots(items, n + 1), key, ref, false);
      var a := AppendDeduped(items, p.cells, p.fallback, key, ref, false);
      p := p.(cells := a.cells, fallback := a.bucket,
              dedupedFallback := if a.added then p.dedupedFallback else p.dedupedFallback + 1);
    } else {
      SkipFallback(items, n, p.cells, ref, p.support, p.fallback);
    }
    PointerStep(items, n, p.pointers, p.pointerAt);
    PointersNext(items, n, p.pointers, p.pointerAt);
    var q := AppendPointer(items, p.pointers, p.pointerAt, n);
    p := p.(pointers := q.list, pointerAt := q.at,
            dedupedPointers := if q.added then p.dedupedPointers else p.dedupedPointers + 1);
  }

  /** A place is opened exactly when the anchor has none in the bucket. */
  lemma SlotsStep(items: seq<Item>, n: nat, p: Pack)
    requires n < |items| && Built(items, n, p.cells, p.support, p.fallback)
    ensures var key := Key(items[n]);
            && SupportSlots(items, n + 1)
                 == (if ToSupport(items[n]) && (key == "" || key !in p.support.at) then SupportSlots(items, n) + [n]
                     else SupportSlots(items, n))
            && FallbackSlots(items, n + 1)
                 == (if ToFallback(items[n]) && (key == "" || key !in p.fallback.at)
                     then FallbackSlots(items, n) + [n] else FallbackSlots(items, n))
  {
    hide Key, ToSupport, ToFallback, TrackOf, OnePlace, CellsOk;
    NoBlankPlace(items, p.cells, p.support);
    NoBlankPlace(items, p.cells, p.fallback);
    var key := Key(items[n]);
    if key != "" { assert Agrees(p.cells, p.support, p.fallback, key, TrackOf(items, n, key)); }
  }

  lemma RefThere(items: seq<Item>, n: nat, cells: seq<Cell>, ref: nat, s: Bucket, f: Bucket)
    requires Between(items, n, cells, ref, s, f)
    ensures ref < |cells| && cells[ref] == Cell(n, 0)
  {
    hide OnePlace, Agrees, TrackOf, SupportStep;
  }

  // ---------------------------------------------------------------- what the entries report

  /** The items with this anchor that were routed to a bucket, in order. */
  function SupportsOf(items: seq<Item>, n: nat, key: string): (r: seq<nat>)
    requires n <= |items|
    ensures forall i :: i in r <==> 0 <= i < n && Key(items[i]) == key && ToSupport(items[i])
  {
    if n == 0 then []
    else
      SupportsOf(items, n - 1, key)
      + (if Key(items[n - 1]) == key && ToSupport(items[n - 1]) then [n - 1] else [])
  }

  function FallbacksOf(items: seq<Item>, n: nat, key: string): (r: seq<nat>)
    requires n <= |items|
    ensures forall i :: i in r <==> 0 <= i < n && Key(items[i]) == key && ToFallback(items[i])
  {
    if n == 0 then []
    else
      FallbacksOf(items, n - 1, key)
      + (if Key(items[n - 1]) == key && ToFallback(items[n - 1]) then [n - 1] else [])
  }

  /** The support entry kept: the first item labelled as supporting evidence, or else the last one. */
  ghost predicate KeptSupport(items: seq<Item>, s: seq<nat>, kept: nat) {
    && kept in s && (forall i :: i in s ==> 0 <= i < |items|)
    && (if items[kept].policy == "supporting_evidence"
        then forall i :: i in s && i < kept ==> items[i].policy != "supporting_evidence"
        else kept == s[|s| - 1] && forall i :: i in s ==> items[i].policy != "supporting_evidence")
  }

  /** One record starts out as the entry of both buckets. */
  predicate OneRecord(s: seq<nat>, f: seq<nat>) {
    s != [] && f != [] && s[0] == f[0]
  }

  ghost predicate TrackFacts(items: seq<Item>, t: Track, s: seq<nat>, f: seq<nat>) {
    && (t.inSupport <==> s != []) && (t.inFallback <==> f != [])
    && (s != [] ==> KeptSupport(items, s, t.supportItem))
    && (f != [] ==> t.fallbackItem == f[0])
    && (!OneRecord(s, f) ==>
         !t.shared && (s != [] ==> t.supportCount == |s| - 1) && (f != [] ==> t.fallbackCount == |f| - 1))
    && (OneRecord(s, f) && t.shared ==> t.supportCount == t.fallbackCount == |s| - 1 + |f| - 1)
    && (OneRecord(s, f) && !t.shared ==> |s| >= 2 && t.fallbackCount == |f|)
    && (OneRecord(s, f) && t.shared && |s| >= 2 ==> items[t.supportItem].policy == "supporting_evidence")
  }

  lemma SupportFacts(items: seq<Item>, t: Track, s: seq<nat>, f: seq<nat>, n: nat)
    requires TrackFacts(items, t, s, f) && n < |items|
    requires forall i :: i in s || i in f ==> 0 <= i < n
    ensures TrackFacts(items, SupportStep(items, t, n), s + [n], f)
  {
    assert s != [] ==> s[0] in s;
    assert f != [] ==> f[0] in f;
    assert forall i :: i in s + [n] <==> i in s || i == n;
  }

  /** `s` already holds the item if it was routed to support. */
  lemma FallbackFacts(items: seq<Item>, t: Track, s: seq<nat>, f: seq<nat>, n: nat, own: bool)
    requires TrackFacts(items, t, s, f)
    requires (forall i :: i in f ==> 0 <= i < n) && (own <==> s == [n]) && (s != [] && !own ==> s[0] < n)
    ensures TrackFacts(items, FallbackStep(t, n, own), s, f + [n])
  {
    assert f != [] ==> f[0] in f;
  }

  /** How the routed items grow by one item. */
  lemma RoutedNext(items: seq<Item>, m: nat, key: string)
    requires m < |items|
    ensures var s, f := SupportsOf(items, m, key), FallbacksOf(items, m, key);
            && SupportsOf(items, m + 1, key) == (if Key(items[m]) == key && ToSupport(items[m]) then s + [m] else s)
            && FallbacksOf(items, m + 1, key) == (if Key(items[m]) == key && ToFallback(items[m]) then f + [m] else f)
            && (s != [] ==> 0 <= s[0] < m)
  {
    hide Key, ToSupport, ToFallback;
    var s := SupportsOf(items, m, key);
    assert s != [] ==> s[0] in s;
  }

  lemma {:induction false} TrackMeaning(items: seq<Item>, n: nat, key: string)
    requires n <= |items|
    ensures TrackFacts(items, TrackOf(items, n, key), SupportsOf(items, n, key), FallbacksOf(items, n, key))
  {
    hide Key, ToSupport, ToFallback, TrackFacts, SupportsOf, FallbacksOf;
    if n == 0 {
      NoFacts(items);
      NoneRouted(items, key);
    } else {
      var m := n - 1;
      TrackMeaning(items, m, key);
      RoutedNext(items, m, key);
      var t, s, f := TrackOf(items, m, key), SupportsOf(items, m, key), FallbacksOf(items, m, key);
      if Key(items[m]) == key { ItemFacts(items, t, s, f, m); }
    }
  }

  lemma ItemFacts(items: seq<Item>, t: Track, s: seq<nat>, f: seq<nat>, m: nat)
    requires TrackFacts(items, t, s, f) && m < |items| && (t.inSupport ==> t.supportItem < |items|)
    requires forall i :: i in s || i in f ==> 0 <= i < m
    ensures TrackFacts(items, TrackItem(items, t, m),
                       if ToSupport(items[m]) then s + [m] else s, if ToFallback(items[m]) then f + [m] else f)
  {
    hide ToSupport, ToFallback, TrackFacts, SupportStep, FallbackStep;
    InSupportMeans(items, t, s, f);
    if ToSupport(items[m]) { SupportFacts(items, t, s, f, m); }
    if ToFallback(items[m]) {
      assert s != [] ==> s[0] in s;
      var u := if ToSupport(items[m]) then SupportStep(items, t, m) else t;
      var s2 := if ToSupport(items[m]) then s + [m] else s;
      assert s2 != [] && s != [] ==> s2[0] == s[0];
      assert s != [] ==> s2 != [m];
      FallbackFacts(items, u, s2, f, m, ToSupport(items[m]) && !t.inSupport);
    }
  }

  lemma NoneRouted(items: seq<Item>, key: string)
    ensures SupportsOf(items, 0, key) == [] && FallbacksOf(items, 0, key) == []
  {
  }

  lemma InSupportMeans(items: seq<Item>, t: Track, s: seq<nat>, f: seq<nat>)
    requires TrackFacts(items, t, s, f)
    ensures t.inSupport <==> s != []
  {
  }

  lemma NoFacts(items: seq<Item>)
    ensures TrackFacts(items, Untracked, [], [])
  {
  }

  // ---------------------------------------------------------------- where the items go

  /** Labelled as supporting evidence or an artifact, and not labelled as truth. */
  ghost predicate Supports(x: Item) {
    && x.policy != "canonical_truth" && x.policy != "task_knowledge_truth"
    && (x.policy == "supporting_evidence" || x.sourceType == "artifacts")
  }

  ghost predicate FallsBack(x: Item) {
    "fallback_text_hit" in x.flags
  }

  ghost predicate Ascending(s: seq<nat>) {
    forall i, j :: 0 <= i < j < |s| ==> s[i] < s[j]
  }

  lemma AscendingMore(s: seq<nat>, m: nat)
    requires Ascending(s) && forall i :: i in s ==> i < m
    ensures Ascending(s + [m])
  {
    assert forall i :: 0 <= i < |s| ==> s[i] in s;
  }

  lemma {:induction false} RoutedAscend(items: seq<Item>, n: nat, key: string)
    requires n <= |items|
    ensures Ascending(SupportsOf(items, n, key)) && Ascending(FallbacksOf(items, n, key))
  {
    hide Key, ToSupport, ToFallback, Ascending;
    if n > 0 {
      var s, f := SupportsOf(items, n - 1, key), FallbacksOf(items, n - 1, key);
      RoutedAscend(items, n - 1, key);
      AscendingMore(s, n - 1);
      AscendingMore(f, n - 1);
      assert s + [] == s && f + [] == f;
    } else {
      NoneAscend();
      NoneRouted(items, key);
    }
  }

  lemma NoneAscend()
    ensures Ascending([])
  {
  }

  /** The items of an anchor that went to either bucket are the routed ones with this trimmed anchor, in order. */
  lemma RoutedTells(items: seq<Item>, n: nat, key: string)
    requires n <= |items|
    ensures var s, f := SupportsOf(items, n, key), FallbacksOf(items, n, key);
            && (forall i: nat :: i in s <==> i < n && Strip(items[i].anchor) == key && Supports(items[i]))
            && (forall i: nat :: i in f <==> i < n && Strip(items[i].anchor) == key && FallsBack(items[i]))
            && Ascending(s) && Ascending(f)
  {
    hide Strip, SupportsOf, FallbacksOf, Ascending, ToSupport, ToFallback, Supports, FallsBack;
    RoutedAscend(items, n, key);
    forall i: nat | i < n { RoutedAs(items[i]); }
  }

  /** No earlier item with the same anchor went the same way. */
  ghost predicate OpensSupport(items: seq<Item>, i: nat)
    requires i < |items|
  {
    Supports(items[i]) && forall j :: 0 <= j < i && Supports(items[j]) ==>
      Strip(items[i].anchor) == "" || Strip(items[j].anchor) != Strip(items[i].anchor)
  }

  ghost predicate OpensFallback(items: seq<Item>, i: nat)
    requires i < |items|
  {
    FallsBack(items[i]) && forall j :: 0 <= j < i && FallsBack(items[j]) ==>
      Strip(items[i].anchor) == "" || Strip(items[j].anchor) != Strip(items[i].anchor)
  }

  /** An anchor is new to a bucket when no earlier item of it went there. */
  lemma NewToBucket(items: seq<Item>, m: nat)
    requires m < |items|
    ensures var key := Key(items[m]);
            && (OpensSupport(items, m) <==> ToSupport(items[m]) && (key == "" || !TrackOf(items, m, key).inSupport))
            && (OpensFallback(items, m) <==> ToFallback(items[m]) && (key == "" || !TrackOf(items, m, key).inFallback))
  {
    hide Strip, TrackOf, Supports, FallsBack, ToSupport, ToFallback, SupportsOf, FallbacksOf, Ascending, TrackFacts;
    RoutedAs(items[m]);
    var key := Key(items[m]);
    RoutedTells(items, m, key);
    TrackMeaning(items, m, key);
    var s, f := SupportsOf(items, m, key), FallbacksOf(items, m, key);
    SomeIn(s);
    SomeIn(f);
    InTrack(items, TrackOf(items, m, key), s, f);
  }

  ghost predicate Opened(items: seq<Item>, n: nat, s: seq<nat>, f: seq<nat>)
    requires n <= |items|
  {
    && (forall i: nat :: i in s <==> i < n && OpensSupport(items, i))
    && (forall i: nat :: i in f <==> i < n && OpensFallback(items, i))
    && Ascending(s) && Ascending(f)
  }

  lemma OpenedNext(items: seq<Item>, m: nat, s: seq<nat>, f: seq<nat>)
    requires m < |items| && Opened(items, m, s, f)
    ensures Opened(items, m + 1, if OpensSupport(items, m) then s + [m] else s,
                   if OpensFallback(items, m) then f + [m] else f)
  {
    hide OpensSupport, OpensFallback, Ascending;
    AscendingMore(s, m);
    AscendingMore(f, m);
    forall i: nat ensures i in s + [m] <==> i in s || i == m { }
    forall i: nat ensures i in f + [m] <==> i in f || i == m { }
  }

  /** The entries of a bucket are opened by the items without an anchor and the first ones of each anchor. */
  lemma {:induction false} SlotsTell(items: seq<Item>, n: nat)
    requires n <= |items|
    ensures Opened(items, n, SupportSlots(items, n), FallbackSlots(items, n))
  {
    hide TrackOf, ToSupport, ToFallback, Key, OpensSupport, OpensFallback, Opened;
    if n > 0 {
      var m := n - 1;
      SlotsTell(items, m);
      NewToBucket(items, m);
      OpenedNext(items, m, SupportSlots(items, m), FallbackSlots(items, m));
      assert SupportSlots(items, m) + [] == SupportSlots(items, m);
      assert FallbackSlots(items, m) + [] == FallbackSlots(items, m);
    } else {
      NoneOpened(items, SupportSlots(items, 0));
    }
  }

  lemma NoneOpened(items: seq<Item>, s: seq<nat>)
    requires s == []
    ensures Opened(items, 0, s, s)
  {
  }

  lemma RoutedAs(x: Item)
    ensures (ToSupport(x) <==> Supports(x)) && (ToFallback(x) <==> FallsBack(x))
  {
  }

  lemma SomeIn(s: seq<nat>)
    ensures s != [] <==> exists i: nat :: i in s
  {
    if s != [] { assert s[0] in s; }
  }

  lemma InTrack(items: seq<Item>, t: Track, s: seq<nat>, f: seq<nat>)
    requires TrackFacts(items, t, s, f)
    ensures (t.inSupport <==> s != []) && (t.inFallback <==> f != [])
  {
  }

  ghost function Supporters(items: seq<Item>, n: nat): set<nat>
    requires n <= |items|
  {
    set i: nat | i < n && Supports(items[i])
  }

  ghost function Fallers(items: seq<Item>, n: nat): set<nat>
    requires n <= |items|
  {
    set i: nat | i < n && FallsBack(items[i])
  }

  lemma OneMoreItem(items: seq<Item>, m: nat)
    requires m < |items|
    ensures m !in Supporters(items, m) && m !in Fallers(items, m)
    ensures Supporters(items, m + 1) == if Supports(items[m]) then Supporters(items, m) + {m} else Supporters(items, m)
    ensures Fallers(items, m + 1) == if FallsBack(items[m]) then Fallers(items, m) + {m} else Fallers(items, m)
  {
    hide Supports, FallsBack;
  }

  /** The counters of the pack add up to the numbers of items that went to either bucket. */
  lemma {:induction false} CountsTell(items: seq<Item>, n: nat)
    requires n <= |items|
    ensures CountSupport(items, n) == |Supporters(items, n)| && CountFallback(items, n) == |Fallers(items, n)|
  {
    hide Supports, FallsBack, ToSupport, ToFallback, Supporters, Fallers;
    if n > 0 {
      CountsTell(items, n - 1);
      RoutedAs(items[n - 1]);
      OneMoreItem(items, n - 1);
    } else {
      NoItems(items);
    }
  }

  lemma NoItems(items: seq<Item>)
    ensures Supporters(items, 0) == {} && Fallers(items, 0) == {}
  {
  }

  /** Per anchor, in a finished pack: which entry either bucket keeps, and exactly when both duplicate
      counts are the numbers of items merged away. They are not exactly when the first item with the
      anchor in one bucket is also the first in the other, and either bucket merged a duplicate. */
  lemma EntryCounts(items: seq<Item>, p: Pack, key: string)
    requires Built(items, |items|, p.cells, p.support, p.fallback) && key != ""
    ensures var s, f := SupportsOf(items, |items|, key), FallbacksOf(items, |items|, key);
            && Fits(p.support, p.cells) && Fits(p.fallback, p.cells)
            && (key in p.support.at <==> s != []) && (key in p.fallback.at <==> f != [])
            && (s != [] ==> KeptSupport(items, s, p.cells[p.support.entries[p.support.at[key]]].item))
            && (f != [] ==> p.cells[p.fallback.entries[p.fallback.at[key]]].item == f[0])
            && (s != [] && f == [] ==> p.cells[p.support.entries[p.support.at[key]]].duplicates == |s| - 1)
            && (f != [] && s == [] ==> p.cells[p.fallback.entries[p.fallback.at[key]]].duplicates == |f| - 1)
            && (s != [] && f != [] ==>
                  ((&& p.cells[p.support.entries[p.support.at[key]]].duplicates == |s| - 1
                    && p.cells[p.fallback.entries[p.fallback.at[key]]].duplicates == |f| - 1)
                   <==> !(OneRecord(s, f) && (|s| > 1 || |f| > 1))))
  {
    hide Key, ToSupport, ToFallback, TrackOf, SupportsOf, FallbacksOf, KeptSupport, OnePlace, CellsOk;
    NoBlankPlace(items, p.cells, p.support);
    NoBlankPlace(items, p.cells, p.fallback);
    TrackMeaning(items, |items|, key);
    assert Agrees(p.cells, p.support, p.fallback, key, TrackOf(items, |items|, key));
  }

  /** No two entries of a bucket have the same anchor. */
  lemma AnchorsUnique(items: seq<Item>, p: Pack, i: nat, j: nat)
    requires Built(items, |items|, p.cells, p.support, p.fallback)
    ensures i < j < |p.support.entries| ==>
              var a, b := Key(items[p.cells[p.support.entries[i]].item]),
                  Key(items[p.cells[p.support.entries[j]].item]); a == b ==> a == ""
    ensures i < j < |p.fallback.entries| ==>
              var a, b := Key(items[p.cells[p.fallback.entries[i]].item]),
                  Key(items[p.cells[p.fallback.entries[j]].item]); a == b ==> a == ""
  {
    hide Key, TrackOf, Agrees;
  }

  const Artifact := Item("a", "artifact_source", ["fallback_text_hit"], "artifacts", false, false)

  lemma TwoArtifacts()
    ensures Key(Artifact) == "a" && ToFallback(Artifact) && FallbacksOf([Artifact, Artifact], 2, "a") == [0, 1]
    ensures var t := TrackOf([Artifact, Artifact], 2, "a"); t.inFallback && t.fallbackCount == 2
  {
    var items := [Artifact, Artifact];
    assert Strip("a") == "a" && ToFallback(Artifact) && ToSupport(Artifact);
    assert FallbacksOf(items, 0, "a") == [] && FallbacksOf(items, 1, "a") == [0];
    var t := TrackItem(items, Untracked, 0);
    assert TrackOf(items, 0, "a") == Untracked && TrackOf(items, 1, "a") == t && t.shared;
  }

  /** Two artifact items with one anchor, each routed to both buckets: in the finished pack one duplicate was
      merged in the fallback bucket, but its entry reports two. */
  lemma SharedEntryMiscounts(p: Pack)
    requires Built([Artifact, Artifact], 2, p.cells, p.support, p.fallback)
    ensures FallbacksOf([Artifact, Artifact], 2, "a") == [0, 1]
    ensures Fits(p.fallback, p.cells) && "a" in p.fallback.at
        && p.cells[p.fallback.entries[p.fallback.at["a"]]].duplicates == 2
  {
    hide TrackOf, OnePlace, CellsOk, Key, ToFallback;
    var items := [Artifact, Artifact];
    TwoArtifacts();
    NoBlankPlace(items, p.cells, p.support);
    NoBlankPlace(items, p.cells, p.fallback);
    assert Agrees(p.cells, p.support, p.fallback, "a", TrackOf(items, 2, "a"));
  }
}
