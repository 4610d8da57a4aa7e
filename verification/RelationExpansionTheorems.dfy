/** The main results about relation expansion. */
module RelationExpansionTheorems {
  import opened Text
  import opened Collections
  import opened RelationExpansion
  import opened RelationExpansionFacts

  /** `u` was reached above the depth limit, and its first listed relation to `v` survives the cut-off. */
  ghost predicate Admits(c: Config, g: Graph, f: State, u: string, v: string) {
    && u in f.visits && f.visits[u].depth < c.depthLimit
    && exists r :: FirstEdge(g, u, r) && Target(r) == v && HopFrom(c, u, f.visits[u], r).score >= c.minConfidence
  }

  /** What one emitted item promises about the object `v` it stands for. */
  ghost predicate ItemPromise(c: Config, g: Graph, seeds: seq<Seed>, f: State, v: string, item: Item) {
    && v in f.visits && item.depth == f.visits[v].depth && item.score == f.visits[v].score
    && 1 <= item.depth <= c.depthLimit
    && Justified(c, g, seeds, v, item.depth, item.score)
    && Distinct(item.parents) && item.pathCount == |item.parents|
    && item.parents != [] && item.parent == item.parents[0]
    && (forall u :: u in item.parents <==> Admits(c, g, f, u, v))
    && item.parent in f.visits && f.visits[item.parent].depth == item.depth - 1
  }

  lemma SourcesMember(hs: seq<Hop>, u: string)
    ensures u in Sources(hs) <==> exists i :: 0 <= i < |hs| && hs[i].source == u
  {
    var us := Sources(hs);
    if u in us {
      var i :| 0 <= i < |us| && us[i] == u;
      assert hs[i].source == u;
    }
    if i :| 0 <= i < |hs| && hs[i].source == u {
      assert us[i] == u;
    }
  }

  lemma ParentsAdmit(c: Config, g: Graph, seeds: seq<Seed>, f: State, v: string, i: nat)
    requires Inv(c, g, seeds, f) && Finished(c, g, f) && i < |Into(f.trace, v)|
    ensures Admits(c, g, f, Into(f.trace, v)[i].source, v)
  {
    hide Product, Target, FirstEdge, VisitOk, Followed;
    var hs := Into(f.trace, v);
    assert hs[i] in hs;
    var k :| 0 <= k < |f.trace| && f.trace[k] == hs[i];
    assert HopOk(c, g, f, f.trace[k]);
  }

  lemma AdmittedParent(c: Config, g: Graph, f: State, u: string, v: string) returns (i: nat)
    requires Finished(c, g, f) && Admits(c, g, f, u, v)
    ensures i < |Into(f.trace, v)| && Into(f.trace, v)[i].source == u
  {
    hide Product, Target, FirstEdge;
    var r :| FirstEdge(g, u, r) && Target(r) == v && HopFrom(c, u, f.visits[u], r).score >= c.minConfidence;
    assert Followed(c, g, f, u);
    var h := HopFrom(c, u, f.visits[u], r);
    var k :| 0 <= k < |f.trace| && f.trace[k] == h;
    IntoHas(f.trace, k, v);
    i :| 0 <= i < |Into(f.trace, v)| && Into(f.trace, v)[i] == h;
  }

  lemma ParentsExact(c: Config, g: Graph, seeds: seq<Seed>, f: State, v: string, u: string)
    requires Inv(c, g, seeds, f) && Finished(c, g, f)
    ensures u in Sources(Into(f.trace, v)) <==> Admits(c, g, f, u, v)
  {
    hide Into, Inv, Finished, Admits;
    var hs := Into(f.trace, v);
    SourcesMember(hs, u);
    if i :| 0 <= i < |hs| && hs[i].source == u {
      ParentsAdmit(c, g, seeds, f, v, i);
    }
    if Admits(c, g, f, u, v) {
      var i := AdmittedParent(c, g, f, u, v);
    }
  }

  lemma HopIntoOk(c: Config, g: Graph, seeds: seq<Seed>, f: State, v: string, i: nat)
    requires Inv(c, g, seeds, f) && i < |Into(f.trace, v)|
    ensures var h := Into(f.trace, v)[i];
            HopOk(c, g, f, h) && Target(h.relation) == v && h.source != "" && Trimmed(h.source)
  {
    hide Product, FirstEdge, Justified;
    var hs := Into(f.trace, v);
    assert hs[i] in hs;
    var k :| 0 <= k < |f.trace| && f.trace[k] == hs[i];
    assert HopOk(c, g, f, f.trace[k]);
    assert VisitOk(c, g, seeds, f, hs[i].source);
  }

  lemma DistinctSources(hs: seq<Hop>)
    requires Ordered(hs)
    ensures Distinct(Sources(hs))
  {
  }

  lemma ItemHolds(c: Config, g: Graph, seeds: seq<Seed>, f: State, v: string, doc: Document)
    requires Inv(c, g, seeds, f) && Finished(c, g, f) && Into(f.trace, v) != [] && !IsSeed(seeds, v)
    ensures ItemPromise(c, g, seeds, f, v, BuildItem(doc, Into(f.trace, v)))
    ensures BuildItem(doc, Into(f.trace, v)).document == doc
  {
    hide Product, Target, FirstEdge, Justified, Admits, Followed, Trimmed;
    hide Into, BuildItem, Ordered, HopOk, HopFrom;
    var hs := Into(f.trace, v);
    HopsIntoOrdered(c, g, seeds, f, v);
    DistinctSources(hs);
    forall i | 0 <= i < |hs|
        ensures HopOk(c, g, f, hs[i]) && Target(hs[i].relation) == v && hs[i].source != "" && Trimmed(hs[i].source) {
      HopIntoOk(c, g, seeds, f, v, i);
    }
    BuildItemPaths(doc, hs);
    forall u { ParentsExact(c, g, seeds, f, v, u); }
    FirstHopInto(c, g, seeds, f, v);
  }

  lemma FirstHopInto(c: Config, g: Graph, seeds: seq<Seed>, f: State, v: string)
    requires Inv(c, g, seeds, f) && Finished(c, g, f) && Into(f.trace, v) != [] && !IsSeed(seeds, v)
    ensures var h := Into(f.trace, v)[0];
            && v in f.visits && f.visits[v] == Visit(h.depth, h.score) && 1 <= h.depth <= c.depthLimit
            && Justified(c, g, seeds, v, h.depth, h.score)
            && h.source in f.visits && f.visits[h.source].depth == h.depth - 1
  {
    hide Product, Target, FirstEdge, Justified, Followed, Trimmed, Into;
    HopIntoOk(c, g, seeds, f, v, 0);
    assert VisitOk(c, g, seeds, f, v);
  }

  lemma HopsIntoOrdered(c: Config, g: Graph, seeds: seq<Seed>, f: State, v: string)
    requires Inv(c, g, seeds, f) && Finished(c, g, f)
    ensures Ordered(Into(f.trace, v))
    ensures forall i, j :: 0 <= i < j < |Into(f.trace, v)| ==> Into(f.trace, v)[i].source != Into(f.trace, v)[j].source
  {
    assert NoRepeat(f.trace) && ByDepth(f.trace);
    IntoOrdered(f.trace, v);
  }

  lemma FirstHopDepth(c: Config, g: Graph, seeds: seq<Seed>, f: State, v: string, item: Item)
    requires Inv(c, g, seeds, f) && ItemPromise(c, g, seeds, f, v, item) && !IsSeed(seeds, v)
    ensures Into(f.trace, v) != [] && Into(f.trace, v)[0].depth == item.depth
  {
    assert VisitOk(c, g, seeds, f, v);
  }

  /** Every emitted item is a retrieval-ready non-seed object that the walk reached, each once and by
      non-decreasing depth; every such object is emitted. Each item carries a justified score at its
      depth and exactly the objects that admit it as parents. */
  lemma EmissionTheorem(lookup: map<string, Document>, g: Graph, seeds: seq<Seed>, c: Config)
    requires c.depthLimit > 0 && c.decayFactor > 0.0 && lookup != map[] && Walk(c, g, seeds).Done?
    ensures var f := Walk(c, g, seeds).final;
            var items, ids := Expansion(lookup, g, seeds, c), EmittedIds(lookup, seeds, f.trace);
            && |items| == |ids| && Distinct(ids)
            && (forall v :: v in ids <==> v in lookup && v in f.visits && !IsSeed(seeds, v))
            && (forall i :: 0 <= i < |ids| ==>
                 ids[i] in lookup && items[i].document == lookup[ids[i]]
                     && ItemPromise(c, g, seeds, f, ids[i], items[i]))
            && (forall i, j :: 0 <= i < j < |items| ==> items[i].depth <= items[j].depth)
  {
    hide Product, Target, FirstEdge, Justified, Admits, Followed, Trimmed, SeedState, Run, BuildItem, Into, ItemPromise;
    WalkFacts(c, g, seeds);
    SeedStateFacts(seeds);
    var f := Walk(c, g, seeds).final;
    var items, ids := Expansion(lookup, g, seeds, c), EmittedIds(lookup, seeds, f.trace);
    assert ByDepth(f.trace);
    EmittedIdsFacts(lookup, seeds, f.trace);
    forall v | v in lookup && !IsSeed(seeds, v) ensures v in f.visits <==> Into(f.trace, v) != [] {
      if v in f.visits { assert VisitOk(c, g, seeds, f, v); }
      if Into(f.trace, v) != [] { HopIntoOk(c, g, seeds, f, v, 0); }
    }
    forall i | 0 <= i < |ids|
        ensures ids[i] in lookup && items[i].document == lookup[ids[i]]
            && ItemPromise(c, g, seeds, f, ids[i], items[i]) {
      assert ids[i] in ids;
      ItemHolds(c, g, seeds, f, ids[i], lookup[ids[i]]);
    }
    forall i, j | 0 <= i < j < |items| ensures items[i].depth <= items[j].depth {
      EmittedIdsByDepth(lookup, seeds, f.trace, i, j);
      FirstHopDepth(c, g, seeds, f, ids[i], items[i]);
      FirstHopDepth(c, g, seeds, f, ids[j], items[j]);
    }
  }

  // ---------------------------------------------------------------- graph distance

  /** `u` lists a relation to `v`. */
  ghost predicate Linked(g: Graph, u: string, v: string) {
    && v != "" && ListRelations(g, u).Readable?
    && exists i :: 0 <= i < |ListRelations(g, u).relations| && Target(ListRelations(g, u).relations[i]) == v
  }

  /** A path of exactly `n` listed relations leads from a seed to `v`. */
  ghost predicate Reach(g: Graph, seeds: seq<Seed>, v: string, n: nat)
    decreases n
  {
    if n == 0 then IsSeed(seeds, v) else exists u :: Reach(g, seeds, u, n - 1) && Linked(g, u, v)
  }

  /** No edge can be pruned: the cut-off is not positive, and no score or confidence is negative. */
  ghost predicate NothingPruned(c: Config, g: Graph, seeds: seq<Seed>) {
    && c.minConfidence <= 0.0 && c.decayFactor > 0.0
    && (forall i :: 0 <= i < |seeds| ==> seeds[i].score >= 0.0)
    && (forall u :: u in g && g[u].Readable? ==> forall i :: 0 <= i < |g[u].relations| ==>
         g[u].relations[i].confidence >= 0.0)
  }

  lemma LinkedFirst(g: Graph, u: string, v: string) returns (r: Relation)
    requires Linked(g, u, v)
    ensures FirstEdge(g, u, r) && Target(r) == v
  {
    var rs := ListRelations(g, u).relations;
    var i := 0;
    while Target(rs[i]) != v
      invariant 0 <= i < |rs| && forall j :: 0 <= j < i ==> Target(rs[j]) != v
      decreases |rs| - i
    {
      i := i + 1;
    }
    r := rs[i];
    assert FirstAt(rs, i);
  }

  lemma {:induction false} JustifiedReach(c: Config, g: Graph, seeds: seq<Seed>, v: string, n: nat, s: real)
    requires Justified(c, g, seeds, v, n, s)
    ensures Reach(g, seeds, v, n)
    decreases n
  {
    hide Product, Target;
    if n > 0 {
      var u, s', r :| Justified(c, g, seeds, u, n - 1, s') && FirstEdge(g, u, r) && Target(r) == v
          && Product(c, s', r) == s && s >= c.minConfidence;
      JustifiedReach(c, g, seeds, u, n - 1, s');
      EdgeLinks(g, u, r);
    }
  }

  lemma EdgeLinks(g: Graph, u: string, r: Relation)
    requires FirstEdge(g, u, r)
    ensures Linked(g, u, Target(r))
  {
  }

  lemma ProductNonNegative(c: Config, s: real, r: Relation)
    requires s >= 0.0 && c.decayFactor > 0.0 && r.confidence >= 0.0
    ensures Product(c, s, r) >= 0.0
  {
    assert s * c.decayFactor >= 0.0;
  }

  lemma ConfidenceNonNegative(c: Config, g: Graph, seeds: seq<Seed>, u: string, r: Relation)
    requires NothingPruned(c, g, seeds) && FirstEdge(g, u, r)
    ensures r.confidence >= 0.0
  {
    hide Target;
    var rs := ListRelations(g, u).relations;
    var i :| 0 <= i < |rs| && rs[i] == r && FirstAt(rs, i);
    assert u in g && g[u].relations[i] == r;
  }

  lemma {:induction false} JustifiedNonNegative(c: Config, g: Graph, seeds: seq<Seed>, v: string, n: nat, s: real)
    requires NothingPruned(c, g, seeds) && Justified(c, g, seeds, v, n, s)
    ensures s >= 0.0
    decreases n
  {
    hide Product, Target;
    if n > 0 {
      var u, s', r :| Justified(c, g, seeds, u, n - 1, s') && FirstEdge(g, u, r) && Target(r) == v
          && Product(c, s', r) == s && s >= c.minConfidence;
      JustifiedNonNegative(c, g, seeds, u, n - 1, s');
      ConfidenceNonNegative(c, g, seeds, u, r);
      ProductNonNegative(c, s', r);
    }
  }

  lemma {:induction false} ReachVisited(c: Config, g: Graph, seeds: seq<Seed>, f: State, v: string, n: nat)
    requires NothingPruned(c, g, seeds) && Inv(c, g, seeds, f) && Finished(c, g, f)
    requires Reach(g, seeds, v, n) && n <= c.depthLimit
    ensures v in f.visits && f.visits[v].depth <= n
    decreases n
  {
    hide Product, Target, FirstEdge, Justified, Linked;
    if n == 0 {
      assert VisitOk(c, g, seeds, f, v);
    } else {
      var u :| Reach(g, seeds, u, n - 1) && Linked(g, u, v);
      ReachVisited(c, g, seeds, f, u, n - 1);
      var r := LinkedFirst(g, u, v);
      var h := HopFrom(c, u, f.visits[u], r);
      assert VisitOk(c, g, seeds, f, u);
      JustifiedNonNegative(c, g, seeds, u, f.visits[u].depth, f.visits[u].score);
      ConfidenceNonNegative(c, g, seeds, u, r);
      ProductNonNegative(c, f.visits[u].score, r);
      assert Followed(c, g, f, u);
      var k :| 0 <= k < |f.trace| && f.trace[k] == h;
      assert HopOk(c, g, f, f.trace[k]);
    }
  }

  /** Graph distance: `n` is the length of a shortest path from a seed to `v`. */
  ghost predicate Distance(g: Graph, seeds: seq<Seed>, v: string, n: nat) {
    Reach(g, seeds, v, n) && forall m :: 0 <= m < n ==> !Reach(g, seeds, v, m)
  }

  /** When nothing is pruned, expansion is breadth-first search: it emits exactly the retrieval-ready
      objects at graph distance 1 to the depth limit, each once, nearest first, and labels each with
      its distance. Paths may run through objects that are not retrieval-ready. */
  lemma DistanceTheorem(lookup: map<string, Document>, g: Graph, seeds: seq<Seed>, c: Config)
    requires c.depthLimit > 0 && NothingPruned(c, g, seeds) && lookup != map[] && Walk(c, g, seeds).Done?
    ensures var items, ids := Expansion(lookup, g, seeds, c), EmittedIds(lookup, seeds, Walk(c, g, seeds).final.trace);
            && |items| == |ids| && Distinct(ids)
            && (forall v :: v in ids <==> v in lookup && exists n :: 1 <= n <= c.depthLimit && Distance(g, seeds, v, n))
            && (forall i :: 0 <= i < |ids| ==> Distance(g, seeds, ids[i], items[i].depth))
            && (forall i, j :: 0 <= i < j < |items| ==> items[i].depth <= items[j].depth)
  {
    hide Product, Target, FirstEdge, Justified, Followed, Expansion, EmittedIds, Walk, Reach;
    EmissionTheorem(lookup, g, seeds, c);
    WalkFacts(c, g, seeds);
    var f := Walk(c, g, seeds).final;
    forall v | v in f.visits
        ensures Distance(g, seeds, v, f.visits[v].depth) && (IsSeed(seeds, v) <==> f.visits[v].depth == 0) {
      VisitDistance(c, g, seeds, f, v);
    }
    forall v, n | 0 <= n <= c.depthLimit && Distance(g, seeds, v, n) ensures v in f.visits && f.visits[v].depth == n {
      ReachVisited(c, g, seeds, f, v, n);
      VisitDistance(c, g, seeds, f, v);
    }
  }

  lemma VisitDistance(c: Config, g: Graph, seeds: seq<Seed>, f: State, v: string)
    requires NothingPruned(c, g, seeds) && Inv(c, g, seeds, f) && Finished(c, g, f) && v in f.visits
    ensures Distance(g, seeds, v, f.visits[v].depth) && (IsSeed(seeds, v) <==> f.visits[v].depth == 0)
  {
    hide Product, Target, FirstEdge, Justified, Followed, NothingPruned, Reach;
    assert VisitOk(c, g, seeds, f, v);
    JustifiedReach(c, g, seeds, v, f.visits[v].depth, f.visits[v].score);
    forall m | 0 <= m < f.visits[v].depth ensures !Reach(g, seeds, v, m) {
      if Reach(g, seeds, v, m) { ReachVisited(c, g, seeds, f, v, m); }
    }
  }

  // ---------------------------------------------------------------- unreadable listings

  /** With all listings readable the walk does not fail. */
  lemma {:induction false} ReadableRun(c: Config, g: Graph, d: nat, cur: seq<string>, st: State)
    requires forall x :: x in cur || x in st.next ==> x in st.visits
    requires forall u :: u in g ==> g[u].Readable?
    ensures Run(c, g, d, cur, st).Done?
    decreases c.depthLimit - d, |cur|
  {
    hide Edges;
    if d < c.depthLimit && (cur != [] || st.next != []) {
      if cur == [] {
        ReadableRun(c, g, d + 1, st.next, st.(next := []));
      } else {
        var fs := FirstPerTarget(ListRelations(g, cur[0]).relations);
        EdgesKeep(c, cur[0], fs, st);
        ReadableRun(c, g, d, cur[1..], Edges(c, cur[0], fs, st));
      }
    }
  }

  /** The graph with every unreadable listing emptied. */
  function Emptied(g: Graph): Graph {
    map u | u in g :: if g[u].Unreadable? then Readable([]) else g[u]
  }

  /** A walk that does not fail never comes to an unreadable listing. */
  lemma {:induction false} RunEmptied(c: Config, g: Graph, d: nat, cur: seq<string>, st: State)
    requires forall x :: x in cur || x in st.next ==> x in st.visits
    ensures Run(c, g, d, cur, st).Done? ==> Run(c, Emptied(g), d, cur, st) == Run(c, g, d, cur, st)
    decreases c.depthLimit - d, |cur|
  {
    hide Edges, FirstPerTarget;
    if d < c.depthLimit && (cur != [] || st.next != []) {
      if cur == [] {
        RunEmptied(c, g, d + 1, st.next, st.(next := []));
      } else if ListRelations(g, cur[0]).Readable? {
        var fs := FirstPerTarget(ListRelations(g, cur[0]).relations);
        EdgesKeep(c, cur[0], fs, st);
        RunEmptied(c, g, d, cur[1..], Edges(c, cur[0], fs, st));
      }
    }
  }

  /** `cur` is at depth `d` and the next level one below. */
  ghost predicate Levels(d: nat, cur: seq<string>, st: State) {
    && (forall x :: x in cur ==> x in st.visits && st.visits[x].depth == d)
    && (forall x :: x in st.next ==> x in st.visits && st.visits[x].depth == d + 1)
  }

  lemma LevelsStep(c: Config, d: nat, cur: seq<string>, st: State, fs: seq<Relation>)
    requires cur != [] && Levels(d, cur, st)
    ensures Levels(d, cur[1..], Edges(c, cur[0], fs, st))
  {
    hide Edges, Hops;
    EdgesReach(c, cur[0], fs, st);
    var st' := Edges(c, cur[0], fs, st);
    forall x | x in st'.next ensures x in st'.visits && st'.visits[x].depth == d + 1 {
      var i :| 0 <= i < |st'.next| && st'.next[i] == x;
      if i < |st.next| { assert st.next[i] == x; }
    }
  }

  /** Objects reached stay reached, at their depth. */
  lemma {:induction false} RunKeepsVisits(c: Config, g: Graph, d: nat, cur: seq<string>, st: State)
    requires forall x :: x in cur || x in st.next ==> x in st.visits
    ensures Run(c, g, d, cur, st).Done? ==>
              forall x :: x in st.visits ==>
                  x in Run(c, g, d, cur, st).final.visits && Run(c, g, d, cur, st).final.visits[x] == st.visits[x]
    decreases c.depthLimit - d, |cur|
  {
    hide Edges, FirstPerTarget;
    if d < c.depthLimit && (cur != [] || st.next != []) {
      if cur == [] {
        RunKeepsVisits(c, g, d + 1, st.next, st.(next := []));
      } else if ListRelations(g, cur[0]).Readable? {
        var fs := FirstPerTarget(ListRelations(g, cur[0]).relations);
        EdgesKeep(c, cur[0], fs, st);
        RunKeepsVisits(c, g, d, cur[1..], Edges(c, cur[0], fs, st));
      }
    }
  }

  /** An object reached above the depth limit whose listing cannot be read. */
  ghost predicate StuckAt(c: Config, g: Graph, f: State, u: string) {
    u in f.visits && f.visits[u].depth < c.depthLimit && ListRelations(g, u).Unreadable?
  }

  lemma {:induction false} RunStuck(c: Config, g: Graph, d: nat, cur: seq<string>, st: State) returns (u: string)
    requires Levels(d, cur, st) && Run(c, g, d, cur, st).Failed? && Run(c, Emptied(g), d, cur, st).Done?
    ensures StuckAt(c, g, Run(c, Emptied(g), d, cur, st).final, u)
    decreases c.depthLimit - d, |cur|
  {
    hide Edges, FirstPerTarget, Emptied;
    if cur == [] {
      u := RunStuck(c, g, d + 1, st.next, st.(next := []));
    } else {
      EmptiedListing(g, cur[0]);
      if ListRelations(g, cur[0]).Unreadable? {
        u := cur[0];
        RunKeepsVisits(c, Emptied(g), d, cur, st);
      } else {
        var fs := FirstPerTarget(ListRelations(g, cur[0]).relations);
        EdgesKeep(c, cur[0], fs, st);
        LevelsStep(c, d, cur, st, fs);
        u := RunStuck(c, g, d, cur[1..], Edges(c, cur[0], fs, st));
      }
    }
  }

  lemma EmptiedListing(g: Graph, u: string)
    ensures ListRelations(g, u).Readable? ==> ListRelations(Emptied(g), u) == ListRelations(g, u)
    ensures ListRelations(g, u).Unreadable? ==> ListRelations(Emptied(g), u) == Readable([])
  {
  }

  lemma {:induction false} SeedLevels(seeds: seq<Seed>)
    ensures Levels(0, SeedState(seeds).next, SeedState(seeds).(next := []))
  {
    hide Strip;
    if seeds != [] { SeedLevels(seeds[..|seeds| - 1]); }
  }

  /** Exactly when the walk fails: some object that is reached above the depth limit, with the unreadable
      listings taken as empty, has a listing that cannot be read. */
  lemma FailsExactly(c: Config, g: Graph, seeds: seq<Seed>)
    requires c.depthLimit >= 0
    ensures Walk(c, Emptied(g), seeds).Done?
    ensures Walk(c, g, seeds).Failed? <==> exists u :: StuckAt(c, g, Walk(c, Emptied(g), seeds).final, u)
  {
    hide Run, SeedState, Emptied, Inv;
    var st := SeedState(seeds);
    AllReadable(g);
    ReadableRun(c, Emptied(g), 0, st.next, st.(next := []));
    RunEmptied(c, g, 0, st.next, st.(next := []));
    if Walk(c, g, seeds).Done? {
      WalkFacts(c, g, seeds);
    } else {
      SeedLevels(seeds);
      var u := RunStuck(c, g, 0, st.next, st.(next := []));
    }
  }

  lemma AllReadable(g: Graph)
    ensures forall u :: u in Emptied(g) ==> Emptied(g)[u].Readable?
  {
  }

  /** When there is nothing to expand: no depth, no decay, no retrieval-ready object, or an unreadable listing
      of an object that is reached above the depth limit. */
  lemma NothingExpanded(lookup: map<string, Document>, g: Graph, seeds: seq<Seed>, c: Config)
    ensures c.depthLimit <= 0 || c.decayFactor <= 0.0 || lookup == map[] ==> Expansion(lookup, g, seeds, c) == []
    ensures var w := Walk(c, Emptied(g), seeds);
            c.depthLimit >= 0 ==>
              w.Done? && ((exists u :: StuckAt(c, g, w.final, u)) ==> Expansion(lookup, g, seeds, c) == [])
  {
    hide Walk, StuckAt, EmittedItems;
    if c.depthLimit >= 0 { FailsExactly(c, g, seeds); }
  }
}
