/** The FIFO loop of relation expansion, with its traversed-edge set and its re-queueing of objects
    already seen, computes what the level-by-level reference walk emits. */
module RelationExpansionQueue {
  import opened Text
  import opened Collections
  import opened RelationExpansion
  import opened RelationExpansionFacts

  datatype QueueEntry = QueueEntry(id: string, score: real, depth: nat)

  /** The variables the loop updates. */
  datatype Work = Work(
    seen: set<string>, queue: seq<QueueEntry>, items: seq<Item>, index: map<string, nat>,
        traversed: set<(string, string)>)

  // ---------------------------------------------------------------- which queue entries matter

  ghost predicate HasId(es: seq<QueueEntry>, id: string) {
    exists i :: 0 <= i < |es| && es[i].id == id
  }

  /** The entries that are the first of their object and whose object was not handled yet. */
  ghost function Pending(queue: seq<QueueEntry>, done: set<string>): (es: seq<QueueEntry>)
    ensures forall e :: e in es ==> e in queue && e.id !in done
  {
    if queue == [] then []
    else
      var n := |queue| - 1;
      var es := Pending(queue[..n], done);
      if queue[n].id in done || HasId(es, queue[n].id) then es else es + [queue[n]]
  }

  lemma PendingDepth(queue: seq<QueueEntry>, done: set<string>, d: nat)
    requires forall i :: 0 <= i < |queue| ==> queue[i].depth == d
    ensures forall i :: 0 <= i < |Pending(queue, done)| ==> Pending(queue, done)[i].depth == d
  {
    forall i | 0 <= i < |Pending(queue, done)| ensures Pending(queue, done)[i].depth == d {
      assert Pending(queue, done)[i] in queue;
    }
  }

  lemma PendingAppend(queue: seq<QueueEntry>, done: set<string>, e: QueueEntry)
    ensures Pending(queue + [e], done)
         == Pending(queue, done) + (if e.id in done || HasId(Pending(queue, done), e.id) then [] else [e])
  {
    assert (queue + [e])[..|queue|] == queue;
  }

  lemma HasIdCons(es: seq<QueueEntry>, e: QueueEntry, id: string)
    ensures HasId([e] + es, id) <==> HasId(es, id) || e.id == id
  {
    if HasId(es, id) {
      var i :| 0 <= i < |es| && es[i].id == id;
      assert ([e] + es)[i + 1].id == id;
    }
    if e.id == id { assert ([e] + es)[0].id == id; }
  }

  lemma PendingSnoc(queue: seq<QueueEntry>, done: set<string>)
    requires queue != []
    ensures var n := |queue| - 1; var es := Pending(queue[..n], done);
            Pending(queue, done) == if queue[n].id in done || HasId(es, queue[n].id) then es else es + [queue[n]]
  {
  }

  lemma {:induction false} PendingPop(queue: seq<QueueEntry>, done: set<string>)
    requires queue != []
    ensures var e := queue[0];
            Pending(queue, done) == if e.id in done then Pending(queue[1..], done)
                else [e] + Pending(queue[1..], done + {e.id})
  {
    hide HasId, Pending;
    var e, n := queue[0], |queue| - 1;
    PendingSnoc(queue, done);
    if n > 0 {
      var done' := if e.id in done then done else done + {e.id};
      var tail := queue[1..];
      PendingPop(queue[..n], done);
      assert queue[..n][0] == e && queue[..n][1..] == tail[..n - 1] && tail[n - 1] == queue[n];
      HasIdCons(Pending(tail[..n - 1], done'), e, queue[n].id);
      PendingSnoc(tail, done');
    } else {
      NoEntries(e.id);
      assert queue[..n] == [] && queue[1..] == [];
      PendingNone(done);
      PendingNone(done + {e.id});
    }
  }

  lemma PendingNone(done: set<string>)
    ensures Pending([], done) == []
  {
  }

  lemma NoEntries(id: string)
    ensures !HasId([], id)
  {
  }

  // ---------------------------------------------------------------- loop invariant

  ghost function Entries(ids: seq<string>, visits: map<string, Visit>): (es: seq<QueueEntry>)
    requires forall x :: x in ids ==> x in visits
    ensures |es| == |ids| && forall i :: 0 <= i < |es| ==>
        ids[i] in ids && es[i] == QueueEntry(ids[i], visits[ids[i]].score, visits[ids[i]].depth)
  {
    seq(|ids|, i requires 0 <= i < |ids| => assert ids[i] in ids; QueueEntry(ids[i], visits[ids[i]].score,
        visits[ids[i]].depth))
  }

  /** The queue holds depth `d` up to `k` and depth `d + 1` from there; its pending entries are `cur`
      followed by `st.next`. */
  ghost predicate QueueOk(queue: seq<QueueEntry>, d: nat, k: nat, cur: seq<string>, st: State, done: set<string>) {
    && k <= |queue|
    && (forall i :: 0 <= i < k ==> queue[i].depth == d)
    && (forall i :: k <= i < |queue| ==> queue[i].depth == d + 1)
    && (forall x :: x in cur + st.next ==> x in st.visits)
    && Pending(queue, done) == Entries(cur + st.next, st.visits)
    && (forall x :: x in st.visits ==> x in done || x in cur || x in st.next)
    && (forall x :: x in done ==> x in st.visits)
  }

  ghost predicate Cover(seeds: seq<Seed>, st: State) {
    forall v :: v in st.visits <==> v in SeedState(seeds).visits || Into(st.trace, v) != []
  }

  ghost predicate IndexOf(ids: seq<string>, index: map<string, nat>) {
    && (forall v :: v in index <==> v in ids)
    && (forall v :: v in index ==> index[v] < |ids| && ids[index[v]] == v)
  }

  ghost predicate ItemsOf(lookup: map<string, Document>, trace: seq<Hop>, ids: seq<string>, items: seq<Item>) {
    && |items| == |ids|
    && (forall i :: 0 <= i < |ids| ==>
         ids[i] in lookup && Into(trace, ids[i]) != [] && items[i] == ItemFor(lookup, trace, ids[i]))
  }

  /** `items` and `index` are what the trace so far emits. */
  ghost predicate Listed(lookup: map<string, Document>, seeds: seq<Seed>, trace: seq<Hop>, items: seq<Item>,
                         index: map<string, nat>) {
    && ItemsOf(lookup, trace, EmittedIds(lookup, seeds, trace), items)
    && IndexOf(EmittedIds(lookup, seeds, trace), index)
  }

  lemma IndexAppend(ids: seq<string>, index: map<string, nat>, v: string)
    requires IndexOf(ids, index) && v !in ids
    ensures IndexOf(ids + [v], index[v := |ids|])
  {
  }

  ghost predicate Synced(lookup: map<string, Document>, seeds: seq<Seed>, w: Work, st: State) {
    w.seen == st.visits.Keys && Cover(seeds, st) && Listed(lookup, seeds, st.trace, w.items, w.index)
  }

  // ---------------------------------------------------------------- one hop

  lemma CoverStep(seeds: seq<Seed>, st: State, h: Hop)
    requires Cover(seeds, st)
    ensures Cover(seeds, Take(st, h))
  {
    hide Target, SeedState;
    forall v { IntoSnoc(st.trace, h, v); }
  }

  lemma EmittedIdsSnoc(lookup: map<string, Document>, seeds: seq<Seed>, trace: seq<Hop>, h: Hop)
    ensures var ids, v := EmittedIds(lookup, seeds, trace), Target(h.relation);
            && EmittedIds(lookup, seeds, trace + [h])
               == if v in lookup && v !in ids && v !in SeedState(seeds).visits then ids + [v] else ids
  {
    hide Target, SeedState;
    assert (trace + [h])[..|trace|] == trace;
  }

  /** Another hop changes the item of its target only. */
  lemma ItemForSnoc(lookup: map<string, Document>, trace: seq<Hop>, h: Hop, v: string)
    requires v in lookup
    ensures Into(trace, v) != [] && Target(h.relation) != v ==>
        Into(trace + [h], v) != [] && ItemFor(lookup, trace + [h], v) == ItemFor(lookup, trace, v)
    ensures Into(trace, v) != [] && Target(h.relation) == v
        ==> Into(trace + [h], v) != []
            && ItemFor(lookup, trace + [h], v) == MarkDuplicate(ItemFor(lookup, trace, v), h.source, h.relation)
    ensures Into(trace, v) == [] && Target(h.relation) == v
        ==> Into(trace + [h], v) != []
            && ItemFor(lookup, trace + [h], v) == NewItem(lookup[v], h.source, h.relation, h.score, h.depth)
  {
    hide Target, NewItem, MarkDuplicate, BuildItem;
    IntoSnoc(trace, h, v);
    assert Into(trace, v) + [] == Into(trace, v);
    BuildItemSnoc(lookup[v], Into(trace, v), h);
  }

  lemma BuildItemSnoc(doc: Document, hs: seq<Hop>, h: Hop)
    ensures BuildItem(doc, hs + [h]) == if hs == [] then NewItem(doc, h.source, h.relation, h.score, h.depth)
                                        else MarkDuplicate(BuildItem(doc, hs), h.source, h.relation)
  {
    hide NewItem, MarkDuplicate;
    assert (hs + [h])[..|hs|] == hs;
  }

  lemma ItemsAppend(lookup: map<string, Document>, trace: seq<Hop>, h: Hop, ids: seq<string>, items: seq<Item>,
                    v: string)
    requires ItemsOf(lookup, trace, ids, items) && v == Target(h.relation) && v in lookup && Into(trace, v) == []
    ensures ItemsOf(lookup, trace + [h], ids + [v],
        items + [NewItem(lookup[v], h.source, h.relation, h.score, h.depth)])
  {
    hide Target, NewItem, ItemFor, Into;
    ItemForSnoc(lookup, trace, h, v);
    forall i | 0 <= i < |ids|
        ensures Into(trace + [h], ids[i]) != [] && items[i] == ItemFor(lookup, trace + [h], ids[i]) {
      ItemForSnoc(lookup, trace, h, ids[i]);
    }
  }

  lemma ListedNew(lookup: map<string, Document>, seeds: seq<Seed>, st: State, h: Hop, items: seq<Item>,
                  index: map<string, nat>)
    requires Cover(seeds, st) && Listed(lookup, seeds, st.trace, items, index)
    requires Target(h.relation) !in st.visits && Target(h.relation) in lookup
    ensures var v := Target(h.relation);
            && Listed(lookup, seeds, st.trace + [h],
                 items + [NewItem(lookup[v], h.source, h.relation, h.score, h.depth)], index[v := |items|])
  {
    hide Target, SeedState, NewItem, ItemFor, EmittedIds, Into, IndexOf, ItemsOf;
    var v := Target(h.relation);
    var ids := EmittedIds(lookup, seeds, st.trace);
    EmittedIdsFacts(lookup, seeds, st.trace);
    EmittedIdsSnoc(lookup, seeds, st.trace, h);
    IndexAppend(ids, index, v);
    ItemsAppend(lookup, st.trace, h, ids, items, v);
    assert |items| == |ids| by { SameLength(lookup, st.trace, ids, items); }
  }

  lemma SameLength(lookup: map<string, Document>, trace: seq<Hop>, ids: seq<string>, items: seq<Item>)
    requires ItemsOf(lookup, trace, ids, items)
    ensures |items| == |ids|
  {
  }

  lemma ListedNone(lookup: map<string, Document>, seeds: seq<Seed>, st: State, h: Hop, items: seq<Item>,
                   index: map<string, nat>)
    requires Cover(seeds, st) && Listed(lookup, seeds, st.trace, items, index)
    requires Target(h.relation) !in index && (Target(h.relation) in st.visits || Target(h.relation) !in lookup)
    ensures Listed(lookup, seeds, st.trace + [h], items, index)
  {
    hide Target, SeedState, ItemFor;
    var ids := EmittedIds(lookup, seeds, st.trace);
    EmittedIdsFacts(lookup, seeds, st.trace);
    EmittedIdsSnoc(lookup, seeds, st.trace, h);
    forall i | 0 <= i < |ids|
        ensures Into(st.trace + [h], ids[i]) != [] && ItemFor(lookup, st.trace + [h], ids[i]) == items[i] {
      assert ids[i] in ids;
      ItemForSnoc(lookup, st.trace, h, ids[i]);
    }
  }

  lemma ItemsMerged(lookup: map<string, Document>, trace: seq<Hop>, h: Hop, ids: seq<string>, items: seq<Item>, at: nat)
    requires ItemsOf(lookup, trace, ids, items) && Distinct(ids) && at < |ids| && ids[at] == Target(h.relation)
    ensures at < |items|
        && ItemsOf(lookup, trace + [h], ids, items[at := MarkDuplicate(items[at], h.source, h.relation)])
  {
    hide Target, MarkDuplicate, NewItem, ItemFor, Into;
    forall i | 0 <= i < |ids|
      ensures Into(trace + [h], ids[i]) != []
      ensures ItemFor(lookup, trace + [h], ids[i]) == if i == at then MarkDuplicate(items[i], h.source, h.relation)
          else items[i]
    {
      ItemForSnoc(lookup, trace, h, ids[i]);
    }
  }

  lemma IndexPlace(ids: seq<string>, index: map<string, nat>, v: string)
    requires IndexOf(ids, index) && v in index
    ensures index[v] < |ids| && ids[index[v]] == v
  {
  }

  lemma ListedMerged(lookup: map<string, Document>, seeds: seq<Seed>, st: State, h: Hop, items: seq<Item>,
                     index: map<string, nat>)
    requires Listed(lookup, seeds, st.trace, items, index) && Target(h.relation) in index
    ensures index[Target(h.relation)] < |items|
    ensures var i := index[Target(h.relation)];
            && Listed(lookup, seeds, st.trace + [h], items[i := MarkDuplicate(items[i], h.source, h.relation)], index)
  {
    hide Target, SeedState, MarkDuplicate, ItemFor, EmittedIds, Into, IndexOf, ItemsOf;
    var v := Target(h.relation);
    var ids := EmittedIds(lookup, seeds, st.trace);
    EmittedIdsFacts(lookup, seeds, st.trace);
    EmittedIdsSnoc(lookup, seeds, st.trace, h);
    IndexPlace(ids, index, v);
    assert v in ids;
    ItemsMerged(lookup, st.trace, h, ids, items, index[v]);
  }

  lemma HasEntry(ids: seq<string>, visits: map<string, Visit>, v: string)
    requires forall x :: x in ids ==> x in visits
    ensures HasId(Entries(ids, visits), v) <==> v in ids
  {
    var es := Entries(ids, visits);
    if v in ids {
      var i :| 0 <= i < |ids| && ids[i] == v;
      assert es[i].id == v;
    }
  }

  lemma EntriesKeep(ids: seq<string>, visits: map<string, Visit>, visits': map<string, Visit>)
    requires forall x :: x in ids ==> x in visits
    requires forall x :: x in visits ==> x in visits' && visits'[x] == visits[x]
    ensures Entries(ids, visits) == Entries(ids, visits')
  {
  }

  /** A newly reached object joins the queue, and the next level. */
  lemma QueueNew(queue: seq<QueueEntry>, d: nat, k: nat, cur: seq<string>, st: State, done: set<string>, h: Hop)
    requires QueueOk(queue, d, k, cur, st, done) && h.depth == d + 1 && Target(h.relation) !in st.visits
    ensures QueueOk(queue + [QueueEntry(Target(h.relation), h.score, d + 1)], d, k, cur, Take(st, h), done)
  {
    hide Target, Pending;
    var v, st' := Target(h.relation), Take(st, h);
    var e := QueueEntry(v, h.score, d + 1);
    PendingAppend(queue, done, e);
    HasEntry(cur + st.next, st.visits, v);
    EntriesKeep(cur + st.next, st.visits, st'.visits);
    assert cur + st'.next == (cur + st.next) + [v];
  }

  /** Re-queueing an object that was reached before changes nothing that is pending. */
  lemma QueueOld(queue: seq<QueueEntry>, d: nat, k: nat, cur: seq<string>, st: State, done: set<string>, h: Hop)
    requires QueueOk(queue, d, k, cur, st, done) && Target(h.relation) in st.visits
    ensures QueueOk(queue, d, k, cur, Take(st, h), done)
    ensures QueueOk(queue + [QueueEntry(Target(h.relation), h.score, d + 1)], d, k, cur, Take(st, h), done)
  {
    hide Target, Pending;
    var v := Target(h.relation);
    PendingAppend(queue, done, QueueEntry(v, h.score, d + 1));
    HasEntry(cur + st.next, st.visits, v);
  }

  /** Popping an entry at depth `d`: either its object was handled before, or it is the head of `cur`. */
  lemma QueuePop(queue: seq<QueueEntry>, d: nat, k: nat, cur: seq<string>, st: State, done: set<string>)
    requires k > 0 && QueueOk(queue, d, k, cur, st, done) && Frontier(d, cur, st, done)
    ensures var e := queue[0];
            if e.id in done then QueueOk(queue[1..], d, k - 1, cur, st, done)
            else && cur != [] && e.id == cur[0] && e.score == st.visits[e.id].score && st.visits[e.id].depth == d
                 && QueueOk(queue[1..], d, k - 1, cur[1..], st, done + {e.id})
  {
    hide Pending;
    var e := queue[0];
    PendingPop(queue, done);
    if e.id !in done {
      assert Entries(cur + st.next, st.visits)[0] == e;
      assert cur != [];
      assert (cur + st.next)[1..] == cur[1..] + st.next;
      assert Entries(cur + st.next, st.visits)[1..] == Entries(cur[1..] + st.next, st.visits);
    }
  }

  lemma PendingHead(queue: seq<QueueEntry>, d: nat, k: nat, cur: seq<string>, st: State, done: set<string>)
    requires QueueOk(queue, d, k, cur, st, done) && Frontier(d, cur, st, done)
    ensures cur != [] ==> Pending(queue, done) != [] && Pending(queue, done)[0].depth == d
  {
    hide Pending;
  }

  /** With nothing left at depth `d`, the queue is all at the next depth. */
  lemma QueueAdvance(queue: seq<QueueEntry>, d: nat, cur: seq<string>, st: State, done: set<string>)
    requires QueueOk(queue, d, 0, cur, st, done) && Frontier(d, cur, st, done)
    ensures cur == []
    ensures QueueOk(queue, d + 1, |queue|, st.next, st.(next := []), done)
        && Frontier(d + 1, st.next, st.(next := []), done)
  {
    hide Pending;
    PendingDepth(queue, done, d + 1);
    PendingHead(queue, d, 0, cur, st, done);
    assert [] + st.next == st.next + [];
  }

  // ---------------------------------------------------------------- the loops

  /** The traversed pairs are exactly those of the handled objects. */
  ghost predicate TraversedOk(g: Graph, traversed: set<(string, string)>, done: set<string>) {
    && (forall p :: p in traversed ==> p.0 in done)
    && (forall u :: u in done ==> ListRelations(g, u).Readable? && PairsIn(u, ListRelations(g, u).relations, traversed))
  }

  ghost predicate PairsIn(u: string, rs: seq<Relation>, traversed: set<(string, string)>) {
    forall i :: 0 <= i < |rs| && Target(rs[i]) != "" ==> (u, Target(rs[i])) in traversed
  }

  /** Every pair of the graph: what `traversed` can grow to. */
  ghost function AllPairs(g: Graph): set<(string, string)> {
    set u, i | u in g && g[u].Readable? && 0 <= i < |g[u].relations| :: (u, Target(g[u].relations[i]))
  }

  lemma PrefixSnoc(rs: seq<Relation>, i: nat)
    requires i < |rs|
    ensures FirstPerTarget(rs[..i + 1]) == FirstPerTarget(rs[..i]) + (if FirstAt(rs, i) then [rs[i]] else [])
  {
    assert rs[..i + 1][..i] == rs[..i];
    FirstAtPrefix(rs, i + 1, i);
  }

  lemma EdgesSnoc(c: Config, u: string, fs: seq<Relation>, r: Relation, st: State)
    requires u in st.visits
    ensures Edges(c, u, fs + [r], st) == Edge(c, u, r, Edges(c, u, fs, st))
  {
    hide Edge;
    assert (fs + [r])[..|fs|] == fs;
  }

  /** The work after one unpruned hop, as the loop body computes it. */
  function AfterHop(c: Config, lookup: map<string, Document>, w: Work, h: Hop): Work {
    var v := Target(h.relation);
    var e := QueueEntry(v, h.score, h.depth);
    if v !in w.seen then
      w.(items := if v in lookup
                  then w.items + [NewItem(lookup[v], h.source, h.relation, h.score, h.depth)] else w.items,
         index := if v in lookup then w.index[v := |w.items|] else w.index,
         seen := w.seen + {v}, queue := w.queue + [e])
    else
      w.(items := if v in w.index && w.index[v] < |w.items|
                  then w.items[w.index[v] := MarkDuplicate(w.items[w.index[v]], h.source, h.relation)] else w.items,
         queue := if h.depth < c.depthLimit then w.queue + [e] else w.queue)
  }

  lemma HopSynced(c: Config, lookup: map<string, Document>, seeds: seq<Seed>, w: Work, st: State, h: Hop)
    requires Synced(lookup, seeds, w, st)
    ensures Synced(lookup, seeds, AfterHop(c, lookup, w, h), Take(st, h))
  {
    hide Target, NewItem, MarkDuplicate, Listed, Cover;
    CoverStep(seeds, st, h);
    var v := Target(h.relation);
    if v !in st.visits && v in lookup {
      ListedNew(lookup, seeds, st, h, w.items, w.index);
    } else if v in w.index {
      ListedMerged(lookup, seeds, st, h, w.items, w.index);
      IndexedVisited(lookup, seeds, st, w.items, w.index, v);
    } else {
      ListedNone(lookup, seeds, st, h, w.items, w.index);
    }
  }

  lemma IndexedVisited(lookup: map<string, Document>, seeds: seq<Seed>, st: State, items: seq<Item>,
                       index: map<string, nat>, v: string)
    requires Listed(lookup, seeds, st.trace, items, index) && Cover(seeds, st) && v in index
    ensures v in st.visits && v in lookup
  {
    EmittedIdsFacts(lookup, seeds, st.trace);
  }

  lemma HopQueued(c: Config, lookup: map<string, Document>, w: Work, d: nat, k: nat, cur: seq<string>, st: State,
                  done: set<string>, h: Hop)
    requires QueueOk(w.queue, d, k, cur, st, done) && h.depth == d + 1 && w.seen == st.visits.Keys
    ensures QueueOk(AfterHop(c, lookup, w, h).queue, d, k, cur, Take(st, h), done)
  {
    hide Target, NewItem, MarkDuplicate, QueueOk;
    if Target(h.relation) in st.visits {
      QueueOld(w.queue, d, k, cur, st, done, h);
    } else {
      QueueNew(w.queue, d, k, cur, st, done, h);
    }
  }

  /** The pairs that listing `rs` of `u` marks as traversed. */
  ghost function PairSet(u: string, rs: seq<Relation>): (ps: set<(string, string)>)
    ensures forall p :: p in ps ==> p.0 == u && exists i :: 0 <= i < |rs| && p.1 == Target(rs[i])
    ensures PairsIn(u, rs, ps)
  {
    set i | 0 <= i < |rs| && Target(rs[i]) != "" :: (u, Target(rs[i]))
  }

  lemma PairSetSnoc(u: string, rs: seq<Relation>, i: nat)
    requires i < |rs|
    ensures PairSet(u, rs[..i + 1]) == PairSet(u, rs[..i]) + (if Target(rs[i]) != "" then {(u, Target(rs[i]))} else {})
  {
    hide Target;
    var ps, qs := PairSet(u, rs[..i]), PairSet(u, rs[..i + 1]);
    forall p | p in ps ensures p in qs {
      var j :| 0 <= j < i && Target(rs[..i][j]) != "" && p == (u, Target(rs[..i][j]));
      assert rs[..i + 1][j] == rs[..i][j];
    }
    forall p | p in qs ensures p in ps || (p == (u, Target(rs[i])) && Target(rs[i]) != "") {
      var j :| 0 <= j < i + 1 && Target(rs[..i + 1][j]) != "" && p == (u, Target(rs[..i + 1][j]));
      if j < i { assert rs[..i][j] == rs[..i + 1][j]; }
    }
    assert rs[..i + 1][i] == rs[i];
  }

  /** A pair is new exactly on the first pop of its object, at the first relation to its target. */
  lemma NewPair(u: string, rs: seq<Relation>, i: nat, traversed: set<(string, string)>, first: bool)
    requires i < |rs|
    requires first ==> forall p :: p in traversed ==> p.0 != u
    requires !first ==> PairsIn(u, rs, traversed)
    ensures Target(rs[i]) != "" && (u, Target(rs[i])) !in traversed + PairSet(u, rs[..i]) <==> first && FirstAt(rs, i)
  {
    hide Target;
    assert (u, Target(rs[i])) in PairSet(u, rs[..i]) ==> exists j :: 0 <= j < i && Target(rs[j]) == Target(rs[i]);
    forall j | 0 <= j < i && Target(rs[j]) == Target(rs[i]) && Target(rs[i]) != ""
        ensures (u, Target(rs[i])) in PairSet(u, rs[..i]) {
      assert rs[..i][j] == rs[j];
    }
  }

  ghost function After(c: Config, u: string, rs: seq<Relation>, st: State, first: bool): State
    requires u in st.visits
  {
    if first then Edges(c, u, FirstPerTarget(rs), st) else st
  }

  /** What relation `i` does: nothing when its pair is traversed; otherwise the pair is traversed and
      the hop is taken unless pruned. */
  lemma RelationStep(c: Config, u: string, v: Visit, rs: seq<Relation>, i: nat, st: State,
                     traversed: set<(string, string)>, first: bool)
    requires i < |rs| && u in st.visits
    requires first ==> st.visits[u] == v && forall p :: p in traversed ==> p.0 != u
    requires !first ==> PairsIn(u, rs, traversed)
    ensures var pair, so := (u, Target(rs[i])), traversed + PairSet(u, rs[..i]);
            var h, now := HopFrom(c, u, v, rs[i]), After(c, u, rs[..i], st, first);
            var isNew := Target(rs[i]) != "" && pair !in so;
            && After(c, u, rs[..i + 1], st, first)
                 == (if isNew && h.score >= c.minConfidence then Take(now, h) else now)
            && traversed + PairSet(u, rs[..i + 1]) == (if isNew then so + {pair} else so)
  {
    hide Product, Target, FirstAt, PairSet, FirstPerTarget, Edges, Take, PairsIn;
    PrefixSnoc(rs, i);
    PairSetSnoc(u, rs, i);
    NewPair(u, rs, i, traversed, first);
    var fs := FirstPerTarget(rs[..i]);
    if first {
      EdgesSnoc(c, u, fs, rs[i], st);
      EdgesKeep(c, u, fs, st);
    }
    assert fs + [] == fs;
  }

  /** Recording one unpruned hop: emit and enqueue a new target, or merge the path into the item of
      one that was seen and, below the limit, enqueue it again. */
  method RecordHop(c: Config, lookup: map<string, Document>, before: Work, source: string, relation: Relation,
                   score: real, depth: nat) returns (w: Work)
    requires forall v :: v in before.index ==> before.index[v] < |before.items|
    ensures w == AfterHop(c, lookup, before, Hop(source, relation, depth, score))
  {
    w := before;
    var target := Strip(relation.counterparty);
    if target !in w.seen {
      if target in lookup {
        w := w.(items := w.items + [NewItem(lookup[target], source, relation, score, depth)], index :=
            w.index[target := |w.items|]);
      }
      w := w.(seen := w.seen + {target}, queue := w.queue + [QueueEntry(target, score, depth)]);
    } else {
      if target in w.index {
        var at := w.index[target];
        w := w.(items := w.items[at := MarkDuplicate(w.items[at], source, relation)]);
      }
      if depth < c.depthLimit {
        w := w.(queue := w.queue + [QueueEntry(target, score, depth)]);
      }
    }
  }

  /** The inner loop: follow the relations of one popped entry. `first` says whether its object is
      popped for the first time; otherwise all its pairs are traversed and nothing happens. */
  method FollowRelations(c: Config, lookup: map<string, Document>, ghost seeds: seq<Seed>, entry: QueueEntry,
                         rs: seq<Relation>, before: Work,
                         ghost d: nat, ghost k: nat, ghost cur: seq<string>, ghost st: State,
                             ghost done: set<string>, ghost first: bool)
    returns (w: Work)
    requires Synced(lookup, seeds, before, st) && QueueOk(before.queue, d, k, cur, st, done)
    requires entry.id in st.visits && entry.depth == d
    requires first ==>
        st.visits[entry.id] == Visit(entry.depth, entry.score) && forall p :: p in before.traversed ==> p.0 != entry.id
    requires !first ==> PairsIn(entry.id, rs, before.traversed)
    ensures var st' := After(c, entry.id, rs, st, first);
            Synced(lookup, seeds, w, st') && QueueOk(w.queue, d, k, cur, st', done)
    ensures w.traversed == before.traversed + PairSet(entry.id, rs)
    ensures w.traversed == before.traversed ==> w.queue == before.queue
  {
    hide Product, QueueOk, Synced, FirstAt, PairSet, FirstPerTarget, NewItem, MarkDuplicate, Edges, PairsIn, Take;
    hide AfterHop;
    w := before;
    ghost var now := st;
    assert rs[..0] == [];
    EmptyListing(c, entry.id, st);
    for i := 0 to |rs|
      invariant now == After(c, entry.id, rs[..i], st, first)
      invariant Synced(lookup, seeds, w, now) && QueueOk(w.queue, d, k, cur, now, done)
      invariant w.traversed == before.traversed + PairSet(entry.id, rs[..i])
      invariant w.traversed == before.traversed ==> w.queue == before.queue
    {
      var relation := rs[i];
      var target := Strip(relation.counterparty);
      RelationStep(c, entry.id, Visit(entry.depth, entry.score), rs, i, st, before.traversed, first);
      if target != "" && (entry.id, target) !in w.traversed {
        ghost var h, w0 := HopFrom(c, entry.id, Visit(entry.depth, entry.score), relation), w;
        w := w.(traversed := w.traversed + {(entry.id, target)});
        SyncedSame(lookup, seeds, w0, now, w, now);
        var score := Product(c, entry.score, relation);
        if score >= c.minConfidence {
          HopSynced(c, lookup, seeds, w, now, h);
          SyncedSeen(lookup, seeds, w, now);
          HopQueued(c, lookup, w, d, k, cur, now, done, h);
          AfterHopKeeps(c, lookup, w, h);
          IndexInRange(lookup, seeds, w, now);
          w := RecordHop(c, lookup, w, entry.id, relation, score, entry.depth + 1);
          now := Take(now, h);
        }
      }
    }
    assert rs[..|rs|] == rs;
  }

  lemma SyncedSeen(lookup: map<string, Document>, seeds: seq<Seed>, w: Work, st: State)
    requires Synced(lookup, seeds, w, st)
    ensures w.seen == st.visits.Keys
  {
  }

  lemma AfterHopKeeps(c: Config, lookup: map<string, Document>, w: Work, h: Hop)
    ensures AfterHop(c, lookup, w, h).traversed == w.traversed
  {
  }

  lemma IndexInRange(lookup: map<string, Document>, seeds: seq<Seed>, w: Work, st: State)
    requires Synced(lookup, seeds, w, st)
    ensures forall v :: v in w.index ==> w.index[v] < |w.items|
  {
  }

  lemma EmptyListing(c: Config, u: string, st: State)
    requires u in st.visits
    ensures Edges(c, u, FirstPerTarget([]), st) == st && PairSet(u, []) == {}
  {
  }

  lemma SeedStateSnoc(seeds: seq<Seed>, i: nat)
    requires i < |seeds|
    ensures var id, st := Strip(seeds[i].objectId), SeedState(seeds[..i]);
            SeedState(seeds[..i + 1]) ==
            (if id == "" || id in st.visits then st
             else st.(visits := st.visits[id := Visit(0, seeds[i].score)], next := st.next + [id]))
  {
    hide Strip;
    assert seeds[..i + 1][..i] == seeds[..i];
  }

  /** Queueing one more seed: a repeated id is queued again but is not pending. */
  lemma SeedsSnoc(seeds: seq<Seed>, i: nat, queue: seq<QueueEntry>)
    requires i < |seeds|
        && QueueOk(queue, 0, |queue|, SeedState(seeds[..i]).next, SeedState(seeds[..i]).(next := []), {})
    ensures var id := Strip(seeds[i].objectId);
            var queue' := if id == "" then queue else queue + [QueueEntry(id, seeds[i].score, 0)];
            && QueueOk(queue', 0, |queue'|, SeedState(seeds[..i + 1]).next, SeedState(seeds[..i + 1]).(next := []), {})
            && SeedState(seeds[..i + 1]).visits.Keys == SeedState(seeds[..i]).visits.Keys
                 + (if id == "" then {} else {id})
  {
    hide Strip, Pending, SeedState, HasId;
    SeedStateSnoc(seeds, i);
    var id := Strip(seeds[i].objectId);
    var st, st' := SeedState(seeds[..i]), SeedState(seeds[..i + 1]);
    PendingAppend(queue, {}, QueueEntry(id, seeds[i].score, 0));
    HasEntry(st.next + [], st.visits, id);
    assert st.next + [] == st.next && st'.next + [] == st'.next;
    EntriesKeep(st.next, st.visits, st'.visits);
  }

  lemma PairsBounded(g: Graph, u: string, traversed: set<(string, string)>)
    requires traversed <= AllPairs(g) && ListRelations(g, u).Readable?
    ensures traversed + PairSet(u, ListRelations(g, u).relations) <= AllPairs(g)
  {
    hide Target;
    forall p | p in PairSet(u, ListRelations(g, u).relations) ensures p in AllPairs(g) {
      var i :| 0 <= i < |ListRelations(g, u).relations| && p.1 == Target(ListRelations(g, u).relations[i]);
      assert u in g && p == (u, Target(g[u].relations[i]));
    }
  }

  lemma TraversedStep(g: Graph, traversed: set<(string, string)>, done: set<string>, u: string)
    requires TraversedOk(g, traversed, done) && ListRelations(g, u).Readable?
    ensures TraversedOk(g, traversed + PairSet(u, ListRelations(g, u).relations), done + {u})
  {
    hide Target;
  }

  /** Popping the queue or changing level does not touch what is synchronised. */
  lemma SyncedSame(lookup: map<string, Document>, seeds: seq<Seed>, w: Work, st: State, w': Work, st': State)
    requires Synced(lookup, seeds, w, st)
    requires w'.seen == w.seen && w'.items == w.items && w'.index == w.index && st'.visits == st.visits
        && st'.trace == st.trace
    ensures Synced(lookup, seeds, w', st')
  {
  }

  lemma SyncedItems(lookup: map<string, Document>, seeds: seq<Seed>, w: Work, st: State)
    requires Synced(lookup, seeds, w, st)
    ensures w.items == EmittedItems(lookup, seeds, st.trace)
  {
    hide ItemFor;
  }

  /** Where the outer loop stands against the reference walk: before the depth limit, the walk that is
      left gives the goal; at the limit the walk is over and the queue holds nothing to follow. */
  ghost predicate Phase(c: Config, g: Graph, goal: Outcome, queue: seq<QueueEntry>, traversed: set<(string, string)>,
                        d: nat, k: nat, cur: seq<string>, st: State, done: set<string>) {
    if d < c.depthLimit then
      && QueueOk(queue, d, k, cur, st, done) && Frontier(d, cur, st, done) && TraversedOk(g, traversed, done)
      && (forall x :: x in cur || x in st.next ==> x in st.visits)
      && Run(c, g, d, cur, st) == goal
    else
      goal == Done(st.(next := [])) && forall i :: 0 <= i < |queue| ==> queue[i].depth >= c.depthLimit
  }

  lemma PhaseAdvance(c: Config, g: Graph, goal: Outcome, queue: seq<QueueEntry>, traversed: set<(string, string)>,
                     d: nat, cur: seq<string>, st: State, done: set<string>)
    requires d < c.depthLimit && Phase(c, g, goal, queue, traversed, d, 0, cur, st, done)
    ensures Phase(c, g, goal, queue, traversed, d + 1, |queue|, st.next, st.(next := []), done)
  {
    hide Edges, TraversedOk;
    QueueAdvance(queue, d, cur, st, done);
    assert Run(c, g, d + 1, st.next, st.(next := [])) == goal;
    if d + 1 == c.depthLimit {
      assert goal == Done(st.(next := []));
    }
  }

  lemma PhasePop(c: Config, g: Graph, goal: Outcome, queue: seq<QueueEntry>, traversed: set<(string, string)>,
                 d: nat, k: nat, cur: seq<string>, st: State, done: set<string>)
    requires queue != [] && Phase(c, g, goal, queue, traversed, d, k, cur, st, done) && (d < c.depthLimit ==> k > 0)
    ensures queue[0].depth < c.depthLimit <==> d < c.depthLimit
    ensures d >= c.depthLimit ==> Phase(c, g, goal, queue[1..], traversed, d, k, cur, st, done)
    ensures d < c.depthLimit ==> queue[0].depth == d && queue[0].id in st.visits
    ensures d < c.depthLimit && queue[0].id in done ==>
      && ListRelations(g, queue[0].id).Readable?
           && PairsIn(queue[0].id, ListRelations(g, queue[0].id).relations, traversed)
      && QueueOk(queue[1..], d, k - 1, cur, st, done)
    ensures d < c.depthLimit && queue[0].id !in done ==>
      && cur != [] && cur[0] == queue[0].id && cur[0] in st.visits && st.visits[cur[0]] == Visit(d, queue[0].score)
      && QueueOk(queue[1..], d, k - 1, cur[1..], st, done + {cur[0]})
      && (forall p :: p in traversed ==> p.0 != cur[0])
      && (ListRelations(g, cur[0]).Unreadable? ==> goal == Failed)
  {
    hide Edges, Pending, PairsIn;
    if d < c.depthLimit {
      assert queue[0].depth == d;
      QueuePop(queue, d, k, cur, st, done);
    } else {
      assert forall i :: 0 <= i < |queue[1..]| ==> queue[1..][i] == queue[i + 1];
    }
  }

  /** After the popped entry's relations are followed, the next phase starts one entry further on. */
  lemma PhaseNext(c: Config, g: Graph, goal: Outcome, before: seq<QueueEntry>, queue: seq<QueueEntry>,
                  traversed: set<(string, string)>,
                  d: nat, k: nat, cur: seq<string>, st: State, done: set<string>, u: string, k': nat,
                      cur': seq<string>, done': set<string>)
    requires d < c.depthLimit && k > 0 && ListRelations(g, u).Readable? && u in st.visits
    requires Phase(c, g, goal, before, traversed, d, k, cur, st, done)
    requires k' == k - 1
    requires if u in done then cur' == cur && done' == done
             else cur != [] && cur[0] == u && st.visits[u].depth == d && cur' == cur[1..] && done' == done + {u}
    requires var st' := if u in done then st else Edges(c, u, FirstPerTarget(ListRelations(g, u).relations), st);
             QueueOk(queue, d, k', cur', st', done')
    ensures var st' := if u in done then st else Edges(c, u, FirstPerTarget(ListRelations(g, u).relations), st);
            Phase(c, g, goal, queue, traversed + PairSet(u, ListRelations(g, u).relations), d, k', cur', st', done')
  {
    hide Edges, QueueOk, Target, FirstPerTarget, TraversedOk;
    TraversedStep(g, traversed, done, u);
    if u !in done {
      var fs := FirstPerTarget(ListRelations(g, u).relations);
      EdgesReach(c, u, fs, st);
      EdgesKeep(c, u, fs, st);
      FrontierStep(d, cur, st, Edges(c, u, fs, st), done);
    } else {
      assert done + {u} == done;
    }
  }

  lemma Shrinks(all: set<(string, string)>, before: set<(string, string)>, after: set<(string, string)>)
    requires before <= after <= all
    ensures before == after || |all - after| < |all - before|
  {
    if !(after <= before) {
      var x :| x in after && x !in before;
      SmallerSet(all - after, all - before, x);
    }
  }

  lemma PhaseEnd(c: Config, g: Graph, goal: Outcome, queue: seq<QueueEntry>, traversed: set<(string, string)>,
                 d: nat, k: nat, cur: seq<string>, st: State, done: set<string>)
    requires queue == [] && Phase(c, g, goal, queue, traversed, d, k, cur, st, done)
    ensures goal == Done(st.(next := []))
  {
    hide Edges, Frontier, TraversedOk;
    if d < c.depthLimit {
      assert |Entries(cur + st.next, st.visits)| == 0;
    }
  }

  lemma NoSeedsYet()
    ensures QueueOk([], 0, 0, SeedState([]).next, SeedState([]).(next := []), {}) && SeedState([]).visits.Keys == {}
  {
  }

  lemma SeedsReady(lookup: map<string, Document>, seeds: seq<Seed>, w: Work, c: Config, g: Graph)
    requires c.depthLimit > 0 && w.items == [] && w.index == map[] && w.seen == SeedState(seeds).visits.Keys
        && w.traversed == {}
    requires QueueOk(w.queue, 0, |w.queue|, SeedState(seeds).next, SeedState(seeds).(next := []), {})
    ensures Synced(lookup, seeds, w, SeedState(seeds).(next := []))
    ensures Phase(c, g, Walk(c, g, seeds), w.queue, w.traversed, 0, |w.queue|, SeedState(seeds).next,
        SeedState(seeds).(next := []), {})
  {
    hide QueueOk, Run, SeedState, IsSeed, SeedScore, Strip;
    SeedStateFacts(seeds);
    assert EmittedIds(lookup, seeds, []) == [] && forall v :: Into([], v) == [];
  }

  lemma NoSeedsNoItems(lookup: map<string, Document>, seeds: seq<Seed>, g: Graph, c: Config)
    requires QueueOk([], 0, 0, SeedState(seeds).next, SeedState(seeds).(next := []), {})
    ensures Expansion(lookup, g, seeds, c) == []
  {
    SeedStateFacts(seeds);
    assert |Entries(SeedState(seeds).next + [], SeedState(seeds).visits)| == 0;
  }

  /** The outer loop, from the queue of seeds. */
  method Drain(lookup: map<string, Document>, ghost seeds: seq<Seed>, g: Graph, c: Config, start: Work)
    returns (items: seq<Item>)
    requires c.depthLimit > 0 && start.traversed == {}
    requires Synced(lookup, seeds, start, SeedState(seeds).(next := []))
    requires Phase(c, g, Walk(c, g, seeds), start.queue, start.traversed, 0, |start.queue|, SeedState(seeds).next,
        SeedState(seeds).(next := []), {})
    ensures items
        == match Walk(c, g, seeds) case Failed => [] case Done(final) => EmittedItems(lookup, seeds, final.trace)
  {
    hide Product, QueueOk, Synced, Edges, Frontier, TraversedOk, PairSet, PairsIn, SeedState, Phase, Walk, Run;
    hide FirstPerTarget, AllPairs, EmittedItems, IsSeed;
    var w := start;
    ghost var st, cur := SeedState(seeds).(next := []), SeedState(seeds).next;
    ghost var d: nat, k: nat, done: set<string> := 0, |w.queue|, {};
    ghost var goal := Walk(c, g, seeds);
    while w.queue != []
      invariant d <= c.depthLimit && Synced(lookup, seeds, w, st) && w.traversed <= AllPairs(g)
      invariant Phase(c, g, goal, w.queue, w.traversed, d, k, cur, st, done)
      decreases |AllPairs(g) - w.traversed|, |w.queue|
    {
      ghost var before, current := w, st;
      var entry := w.queue[0];
      if d < c.depthLimit && k == 0 {
        PhaseAdvance(c, g, goal, w.queue, w.traversed, d, cur, st, done);
        d, k, cur, st := d + 1, |w.queue|, st.next, st.(next := []);
      }
      PhasePop(c, g, goal, w.queue, w.traversed, d, k, cur, st, done);
      w := w.(queue := w.queue[1..]);
      SyncedSame(lookup, seeds, before, current, w, st);
      if entry.depth < c.depthLimit {
        match ListRelations(g, entry.id)
        case Unreadable =>
          return [];
        case Readable(rs) =>
          ghost var first := entry.id !in done;
          ghost var k': nat, cur' := k - 1, if first then cur[1..] else cur;
          ghost var done' := if first then done + {entry.id} else done;
          w := FollowRelations(c, lookup, seeds, entry, rs, w, d, k', cur', st, done', first);
          PhaseNext(c, g, goal, before.queue, w.queue, before.traversed, d, k, cur, st, done, entry.id, k', cur',
              done');
          PairsBounded(g, entry.id, before.traversed);
          if first { st := Edges(c, entry.id, FirstPerTarget(rs), st); }
          k, cur, done := k', cur', done';
          Shrinks(AllPairs(g), before.traversed, w.traversed);
      }
    }
    PhaseEnd(c, g, goal, w.queue, w.traversed, d, k, cur, st, done);
    SyncedItems(lookup, seeds, w, st);
    return w.items;
  }

  /** Relation expansion as the program runs it. It terminates on every finite graph, and its queue,
      traversed-edge set and re-queueing compute exactly what the level-by-level walk emits. */
  method ExpandByRelations(lookup: map<string, Document>, seeds: seq<Seed>, g: Graph, c: Config)
    returns (items: seq<Item>)
    ensures items == Expansion(lookup, g, seeds, c)
  {
    hide Product, QueueOk, Synced, Edges, Frontier, TraversedOk, PairSet, PairsIn, SeedState, Strip, Phase, Walk, Run;
    hide FirstPerTarget, AllPairs, EmittedItems;
    if c.depthLimit <= 0 || c.decayFactor <= 0.0 {
      return [];
    }
    if lookup == map[] {
      return [];
    }
    var w := Work({}, [], [], map[], {});
    assert seeds[..0] == [];
    NoSeedsYet();
    for i := 0 to |seeds|
      invariant w.items == [] && w.index == map[] && w.traversed == {}
      invariant w.seen == SeedState(seeds[..i]).visits.Keys
      invariant QueueOk(w.queue, 0, |w.queue|, SeedState(seeds[..i]).next, SeedState(seeds[..i]).(next := []), {})
    {
      var id := Strip(seeds[i].objectId);
      SeedsSnoc(seeds, i, w.queue);
      if id != "" {
        w := w.(seen := w.seen + {id}, queue := w.queue + [QueueEntry(id, seeds[i].score, 0)]);
      }
    }
    assert seeds[..|seeds|] == seeds;
    if w.queue == [] {
      NoSeedsNoItems(lookup, seeds, g, c);
      return [];
    }
    SeedsReady(lookup, seeds, w, c, g);
    items := Drain(lookup, seeds, g, c, w);
  }
}
