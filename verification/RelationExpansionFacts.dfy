/** What the reference walk reaches and emits. */
module RelationExpansionFacts {
  import opened Text
  import opened Collections
  import opened RelationExpansion

  /** `r` is the first relation listed from `u` with its (non-blank) counterparty. */
  ghost predicate FirstEdge(g: Graph, u: string, r: Relation) {
    ListRelations(g, u).Readable? && IsFirst(ListRelations(g, u).relations, r)
  }

  ghost predicate IsFirst(rs: seq<Relation>, r: Relation) {
    exists i :: 0 <= i < |rs| && rs[i] == r && FirstAt(rs, i)
  }

  lemma {:induction false} FirstPerTargetSound(rs: seq<Relation>, k: nat) returns (i: nat)
    requires k < |FirstPerTarget(rs)|
    ensures i < |rs| && FirstAt(rs, i) && FirstPerTarget(rs)[k] == rs[i]
  {
    var n := |rs| - 1;
    var ps := FirstPerTarget(rs[..n]);
    if k < |ps| {
      i := FirstPerTargetSound(rs[..n], k);
      FirstAtPrefix(rs, n, i);
    } else {
      i := n;
    }
  }

  lemma FirstAtPrefix(rs: seq<Relation>, n: nat, i: nat)
    requires i < n <= |rs|
    ensures FirstAt(rs[..n], i) == FirstAt(rs, i) && rs[..n][i] == rs[i]
  {
    assert forall j :: 0 <= j <= i ==> rs[..n][j] == rs[j];
  }

  lemma {:induction false} FirstPerTargetComplete(rs: seq<Relation>, i: nat)
    requires i < |rs| && FirstAt(rs, i)
    ensures rs[i] in FirstPerTarget(rs)
  {
    var n := |rs| - 1;
    if i < n {
      FirstAtPrefix(rs, n, i);
      FirstPerTargetComplete(rs[..n], i);
    }
  }

  lemma {:induction false} FirstPerTargetDistinct(rs: seq<Relation>, k: nat, m: nat)
    requires k < m < |FirstPerTarget(rs)|
    ensures Target(FirstPerTarget(rs)[k]) != Target(FirstPerTarget(rs)[m])
  {
    var n := |rs| - 1;
    var ps := FirstPerTarget(rs[..n]);
    if m < |ps| {
      FirstPerTargetDistinct(rs[..n], k, m);
    } else {
      var i := FirstPerTargetSound(rs[..n], k);
      assert rs[..n][i] == rs[i];
    }
  }

  // ---------------------------------------------------------------- seeds

  ghost predicate IsSeed(seeds: seq<Seed>, v: string) {
    v != "" && exists i :: 0 <= i < |seeds| && Strip(seeds[i].objectId) == v
  }

  /** The score seed `v` starts with: the first seed item naming it wins. */
  ghost predicate SeedScore(seeds: seq<Seed>, v: string, s: real) {
    v != "" && exists i :: 0 <= i < |seeds| && Strip(seeds[i].objectId) == v && seeds[i].score == s
                           && forall j :: 0 <= j < i ==> Strip(seeds[j].objectId) != v
  }

  // ---------------------------------------------------------------- invariant of the walk

  /** A chain of `n` first-listed edges from a seed to `v`; the running product of seed score, decay
      and confidences stays at or above the cut-off on every edge and ends at `s`. */
  ghost predicate Justified(c: Config, g: Graph, seeds: seq<Seed>, v: string, n: nat, s: real)
    decreases n
  {
    if n == 0 then SeedScore(seeds, v, s)
    else exists u, s', r :: Justified(c, g, seeds, u, n - 1, s') && FirstEdge(g, u, r) && Target(r) == v
                            && Product(c, s', r) == s && s >= c.minConfidence
  }

  ghost predicate HopOk(c: Config, g: Graph, st: State, h: Hop) {
    && h.source in st.visits && FirstEdge(g, h.source, h.relation)
    && h == HopFrom(c, h.source, st.visits[h.source], h.relation) && h.score >= c.minConfidence
    && Target(h.relation) in st.visits && st.visits[Target(h.relation)].depth <= h.depth
  }

  ghost predicate SamePair(h: Hop, k: Hop) {
    h.source == k.source && Target(h.relation) == Target(k.relation)
  }

  ghost predicate TraceOk(c: Config, g: Graph, st: State) {
    && (forall i :: 0 <= i < |st.trace| ==> HopOk(c, g, st, st.trace[i]))
    && (forall i, j :: 0 <= i < j < |st.trace| ==> !SamePair(st.trace[i], st.trace[j]))
  }

  /** Every object reached is a seed at depth 0, or was first reached by the first hop into it. */
  ghost predicate VisitOk(c: Config, g: Graph, seeds: seq<Seed>, st: State, v: string)
    requires v in st.visits
  {
    && v != "" && Trimmed(v)
    && Justified(c, g, seeds, v, st.visits[v].depth, st.visits[v].score)
    && (if IsSeed(seeds, v) then st.visits[v].depth == 0
        else Into(st.trace, v) != [] && st.visits[v] == Visit(Into(st.trace, v)[0].depth, Into(st.trace, v)[0].score)
             && st.visits[v].depth > 0)
  }

  ghost predicate Inv(c: Config, g: Graph, seeds: seq<Seed>, st: State) {
    && TraceOk(c, g, st)
    && (forall v :: v in st.visits ==> VisitOk(c, g, seeds, st, v))
    && (forall v :: IsSeed(seeds, v) ==> v in st.visits)
  }

  lemma IntoSnoc(trace: seq<Hop>, h: Hop, v: string)
    ensures Into(trace + [h], v) == Into(trace, v) + (if Target(h.relation) == v then [h] else [])
  {
    assert (trace + [h])[..|trace|] == trace;
  }

  lemma {:induction false} IntoEmpty(trace: seq<Hop>, v: string)
    requires forall i :: 0 <= i < |trace| ==> Target(trace[i].relation) != v
    ensures Into(trace, v) == []
  {
    if trace != [] {
      IntoEmpty(trace[..|trace| - 1], v);
    }
  }

  lemma {:induction false} IntoHas(trace: seq<Hop>, i: nat, v: string)
    requires i < |trace| && Target(trace[i].relation) == v
    ensures trace[i] in Into(trace, v)
  {
    if i < |trace| - 1 {
      IntoHas(trace[..|trace| - 1], i, v);
    }
  }

  lemma TraceStep(c: Config, g: Graph, st: State, u: string, r: Relation)
    requires TraceOk(c, g, st) && u in st.visits && FirstEdge(g, u, r)
    requires forall i :: 0 <= i < |st.trace| && st.trace[i].source == u ==> Target(st.trace[i].relation) != Target(r)
    requires Target(r) in st.visits ==> st.visits[Target(r)].depth <= st.visits[u].depth + 1
    ensures TraceOk(c, g, Edge(c, u, r, st))
  {
    hide Product, Target, FirstEdge;
    var h := HopFrom(c, u, st.visits[u], r);
    var st' := Edge(c, u, r, st);
    if h.score >= c.minConfidence {
      forall i | 0 <= i < |st'.trace| ensures HopOk(c, g, st', st'.trace[i]) {
        if i < |st.trace| {
          assert HopOk(c, g, st, st.trace[i]);
        }
      }
      forall i, j | 0 <= i < j < |st'.trace| ensures !SamePair(st'.trace[i], st'.trace[j]) {
        if j < |st.trace| {
          assert !SamePair(st.trace[i], st.trace[j]);
        }
      }
    }
  }

  lemma VisitKept(c: Config, g: Graph, seeds: seq<Seed>, st: State, h: Hop, v: string)
    requires v in st.visits && VisitOk(c, g, seeds, st, v)
    ensures v in Take(st, h).visits && VisitOk(c, g, seeds, Take(st, h), v)
  {
    hide Product, Target, Justified;
    IntoSnoc(st.trace, h, v);
  }

  lemma VisitAdded(c: Config, g: Graph, seeds: seq<Seed>, st: State, u: string, r: Relation)
    requires Inv(c, g, seeds, st) && u in st.visits && FirstEdge(g, u, r)
    requires Target(r) !in st.visits && HopFrom(c, u, st.visits[u], r).score >= c.minConfidence
    ensures var st' := Take(st, HopFrom(c, u, st.visits[u], r));
            Target(r) in st'.visits && VisitOk(c, g, seeds, st', Target(r))
  {
    hide Product;
    var v, h := Target(r), HopFrom(c, u, st.visits[u], r);
    IntoSnoc(st.trace, h, v);
    forall i | 0 <= i < |st.trace| ensures Target(st.trace[i].relation) != v {
      assert HopOk(c, g, st, st.trace[i]);
    }
    IntoEmpty(st.trace, v);
    assert VisitOk(c, g, seeds, st, u);
    assert Justified(c, g, seeds, u, h.depth - 1, st.visits[u].score);
    assert Justified(c, g, seeds, v, h.depth, h.score);
  }

  /** Following one more edge keeps the invariant. */
  lemma EdgeInv(c: Config, g: Graph, seeds: seq<Seed>, st: State, u: string, r: Relation)
    requires Inv(c, g, seeds, st) && u in st.visits && FirstEdge(g, u, r)
    requires forall i :: 0 <= i < |st.trace| && st.trace[i].source == u ==> Target(st.trace[i].relation) != Target(r)
    requires Target(r) in st.visits ==> st.visits[Target(r)].depth <= st.visits[u].depth + 1
    ensures Inv(c, g, seeds, Edge(c, u, r, st))
  {
    hide Product, Target, FirstEdge, VisitOk, TraceOk;
    TraceStep(c, g, st, u, r);
    var h := HopFrom(c, u, st.visits[u], r);
    var st' := Edge(c, u, r, st);
    if h.score >= c.minConfidence {
      forall v | v in st'.visits ensures VisitOk(c, g, seeds, st', v) {
        if v in st.visits {
          VisitKept(c, g, seeds, st, h, v);
        } else {
          VisitAdded(c, g, seeds, st, u, r);
        }
      }
    }
  }

  // ---------------------------------------------------------------- one object's edges

  ghost predicate DistinctFirst(g: Graph, u: string, fs: seq<Relation>) {
    && (forall k :: 0 <= k < |fs| ==> FirstEdge(g, u, fs[k]))
    && (forall k, m :: 0 <= k < m < |fs| ==> Target(fs[k]) != Target(fs[m]))
  }

  /** Nothing has been reached more than one level below `d`. */
  ghost predicate Shallow(st: State, d: nat) {
    forall x :: x in st.visits ==> st.visits[x].depth <= d + 1
  }

  /** `st'` extends `st` by objects first reached at depth `d`. */
  ghost predicate Reaches(d: nat, st: State, st': State) {
    && (forall x :: x in st.visits ==> x in st'.visits && st'.visits[x] == st.visits[x])
    && st.next <= st'.next
    && (forall x :: x in st'.visits ==> x in st.visits || (x in st'.next && st'.visits[x].depth == d))
    && (forall i :: |st.next| <= i < |st'.next| ==>
         st'.next[i] in st'.visits && st'.next[i] !in st.visits && st'.visits[st'.next[i]].depth == d)
    && (forall i, j :: |st.next| <= i < j < |st'.next| ==> st'.next[i] != st'.next[j])
  }

  /** `after` extends `before` by exactly the unpruned hops out of `u` over the edges in `fs`. */
  ghost predicate Hops(c: Config, u: string, v: Visit, fs: seq<Relation>, before: seq<Hop>, after: seq<Hop>) {
    && before <= after
    && (forall i :: |before| <= i < |after| ==>
         after[i].relation in fs && after[i] == HopFrom(c, u, v, after[i].relation))
    && (forall r :: r in fs && HopFrom(c, u, v, r).score >= c.minConfidence ==> HopFrom(c, u, v, r) in after)
  }

  lemma ReachesStep(d: nat, st: State, mid: State, h: Hop)
    requires Reaches(d, st, mid) && h.depth == d
    ensures Reaches(d, st, Take(mid, h))
  {
    hide Target;
    var st' := Take(mid, h);
    var v := Target(h.relation);
    if v !in mid.visits {
      assert st'.next == mid.next + [v];
      assert forall i :: 0 <= i < |mid.next| ==> st'.next[i] == mid.next[i];
    }
  }

  lemma HopsStep(c: Config, u: string, v: Visit, fs: seq<Relation>, before: seq<Hop>, mid: seq<Hop>, r: Relation)
    requires Hops(c, u, v, fs, before, mid)
    ensures var h := HopFrom(c, u, v, r);
            Hops(c, u, v, fs + [r], before, if h.score < c.minConfidence then mid else mid + [h])
  {
    hide Product;
    var h := HopFrom(c, u, v, r);
    var after := if h.score < c.minConfidence then mid else mid + [h];
    assert forall q :: q in fs + [r] <==> q in fs || q == r;
    forall i | |before| <= i < |after|
        ensures after[i].relation in fs + [r] && after[i] == HopFrom(c, u, v, after[i].relation) {
      if i < |mid| { assert after[i] == mid[i]; }
    }
  }

  lemma {:induction false} EdgesReach(c: Config, u: string, fs: seq<Relation>, st: State)
    requires u in st.visits
    ensures Reaches(st.visits[u].depth + 1, st, Edges(c, u, fs, st))
    ensures Hops(c, u, st.visits[u], fs, st.trace, Edges(c, u, fs, st).trace)
  {
    hide Product, Target, Hops, Reaches;
    if fs != [] {
      var n := |fs| - 1;
      var mid := Edges(c, u, fs[..n], st);
      EdgesReach(c, u, fs[..n], st);
      EdgesKeep(c, u, fs[..n], st);
      ReachesStep(st.visits[u].depth + 1, st, mid, HopFrom(c, u, st.visits[u], fs[n]));
      HopsStep(c, u, st.visits[u], fs[..n], st.trace, mid.trace, fs[n]);
      assert fs == fs[..n] + [fs[n]];
    } else {
      NoEdges(c, u, st.visits[u], st);
    }
  }

  lemma NoEdges(c: Config, u: string, v: Visit, st: State)
    ensures Reaches(v.depth + 1, st, st) && Hops(c, u, v, [], st.trace, st.trace)
  {
  }

  lemma {:induction false} EdgesInv(c: Config, g: Graph, seeds: seq<Seed>, u: string, fs: seq<Relation>, st: State)
    requires Inv(c, g, seeds, st) && u in st.visits && DistinctFirst(g, u, fs) && Shallow(st, st.visits[u].depth)
    requires forall i :: 0 <= i < |st.trace| ==> st.trace[i].source != u
    ensures Inv(c, g, seeds, Edges(c, u, fs, st))
  {
    hide Product, Target, FirstEdge, Inv;
    if fs != [] {
      var n := |fs| - 1;
      var mid := Edges(c, u, fs[..n], st);
      EdgesInv(c, g, seeds, u, fs[..n], st);
      EdgesReach(c, u, fs[..n], st);
      forall i | 0 <= i < |mid.trace| && mid.trace[i].source == u
          ensures Target(mid.trace[i].relation) != Target(fs[n]) {
        assert i >= |st.trace|;
        var k :| 0 <= k < n && fs[..n][k] == mid.trace[i].relation;
        assert fs[k] == mid.trace[i].relation;
      }
      EdgeInv(c, g, seeds, mid, u, fs[n]);
    }
  }

  // ---------------------------------------------------------------- the whole walk

  /** Every unpruned edge out of `u` was followed. */
  ghost predicate Followed(c: Config, g: Graph, st: State, u: string)
    requires u in st.visits
  {
    && ListRelations(g, u).Readable?
    && forall r :: FirstEdge(g, u, r) && HopFrom(c, u, st.visits[u], r).score >= c.minConfidence
         ==> HopFrom(c, u, st.visits[u], r) in st.trace
  }

  ghost predicate TraceSorted(trace: seq<Hop>, most: nat) {
    && (forall i, j :: 0 <= i < j < |trace| ==> trace[i].depth <= trace[j].depth)
    && (forall i :: 0 <= i < |trace| ==> trace[i].depth <= most)
  }

  /** `cur` is left of depth `d`, `st.next` is what depth `d + 1` has so far, the rest is done. */
  ghost predicate Frontier(d: nat, cur: seq<string>, st: State, done: set<string>) {
    && (forall x :: x in cur ==> x in st.visits && st.visits[x].depth == d && x !in done)
    && (forall x :: x in st.next ==> x in st.visits && st.visits[x].depth == d + 1 && x !in done)
    && Distinct(cur) && Distinct(st.next)
    && (forall x :: x in st.visits ==> x in done || x in cur || x in st.next)
    && (forall x :: x in done ==> x in st.visits && st.visits[x].depth <= d)
  }

  /** `done` are the objects whose edges were followed. */
  ghost predicate Explored(c: Config, g: Graph, d: nat, st: State, done: set<string>) {
    && (forall x :: x in done ==> x in st.visits && st.visits[x].depth < c.depthLimit && Followed(c, g, st, x))
    && (forall i :: 0 <= i < |st.trace| ==> st.trace[i].source in done && st.trace[i].depth <= c.depthLimit)
    && TraceSorted(st.trace, d + 1)
  }

  /** What the finished walk satisfies. */
  ghost predicate Finished(c: Config, g: Graph, st: State) {
    && (forall x :: x in st.visits ==> st.visits[x].depth <= c.depthLimit)
    && (forall x :: x in st.visits && st.visits[x].depth < c.depthLimit ==> Followed(c, g, st, x))
    && (forall i :: 0 <= i < |st.trace| ==> st.trace[i].depth <= c.depthLimit)
    && (forall i, j :: 0 <= i < j < |st.trace| ==> st.trace[i].depth <= st.trace[j].depth)
  }

  lemma FollowedKept(c: Config, g: Graph, st: State, st': State, u: string)
    requires u in st.visits && Followed(c, g, st, u)
    requires u in st'.visits && st'.visits[u] == st.visits[u] && st.trace <= st'.trace
    ensures Followed(c, g, st', u)
  {
    hide FirstEdge, Product;
  }

  lemma FirstEdges(g: Graph, u: string)
    requires ListRelations(g, u).Readable?
    ensures DistinctFirst(g, u, FirstPerTarget(ListRelations(g, u).relations))
    ensures forall r :: FirstEdge(g, u, r) ==> r in FirstPerTarget(ListRelations(g, u).relations)
  {
    var rs := ListRelations(g, u).relations;
    var fs := FirstPerTarget(rs);
    forall k | 0 <= k < |fs| ensures FirstEdge(g, u, fs[k]) {
      var i := FirstPerTargetSound(rs, k);
    }
    forall k, m | 0 <= k < m < |fs| ensures Target(fs[k]) != Target(fs[m]) {
      FirstPerTargetDistinct(rs, k, m);
    }
    forall r | FirstEdge(g, u, r) ensures r in fs {
      var i :| 0 <= i < |rs| && rs[i] == r && FirstAt(rs, i);
      FirstPerTargetComplete(rs, i);
    }
  }

  lemma FrontierStep(d: nat, cur: seq<string>, st: State, st': State, done: set<string>)
    requires cur != [] && Frontier(d, cur, st, done) && Reaches(d + 1, st, st')
    ensures Frontier(d, cur[1..], st', done + {cur[0]})
  {
    forall x | x in st'.next ensures x in st'.visits && st'.visits[x].depth == d + 1 && x !in done + {cur[0]} {
      var i :| 0 <= i < |st'.next| && st'.next[i] == x;
      if i < |st.next| { assert st.next[i] == x; }
    }
    NextDistinct(d + 1, st, st');
  }

  /** Taking the first relations of an object follows it. */
  lemma EdgesFollowed(c: Config, g: Graph, u: string, fs: seq<Relation>, st: State)
    requires u in st.visits && ListRelations(g, u).Readable? && (forall r :: FirstEdge(g, u, r) ==> r in fs)
    ensures var st' := Edges(c, u, fs, st); u in st'.visits && Followed(c, g, st', u)
  {
    hide Product, Target, FirstEdge, Edges;
    EdgesReach(c, u, fs, st);
  }

  lemma ExploredStep(c: Config, g: Graph, d: nat, cur: seq<string>, st: State, done: set<string>, fs: seq<Relation>)
    requires cur != [] && d < c.depthLimit && Frontier(d, cur, st, done) && Explored(c, g, d, st, done)
    requires ListRelations(g, cur[0]).Readable? && (forall r :: FirstEdge(g, cur[0], r) ==> r in fs)
    ensures Explored(c, g, d, Edges(c, cur[0], fs, st), done + {cur[0]})
  {
    hide Product, Target, FirstEdge, Followed, Edges;
    var u := cur[0];
    var st' := Edges(c, u, fs, st);
    EdgesReach(c, u, fs, st);
    EdgesFollowed(c, g, u, fs, st);
    forall x | x in done + {u} ensures x in st'.visits && st'.visits[x].depth < c.depthLimit && Followed(c, g, st', x) {
      if x != u { FollowedKept(c, g, st, st', x); }
    }
    forall i | |st.trace| <= i < |st'.trace| ensures st'.trace[i].source == u && st'.trace[i].depth == d + 1 {
      assert st'.trace[i] == HopFrom(c, u, st.visits[u], st'.trace[i].relation);
    }
  }

  lemma NextDistinct(d: nat, st: State, st': State)
    requires Reaches(d, st, st') && Distinct(st.next) && forall x :: x in st.next ==> x in st.visits
    ensures Distinct(st'.next)
  {
    forall i, j | 0 <= i < j < |st'.next| ensures st'.next[i] != st'.next[j] {
      if i < |st.next| { assert st'.next[i] == st.next[i]; }
    }
  }

  lemma InvIgnoresNext(c: Config, g: Graph, seeds: seq<Seed>, st: State)
    requires Inv(c, g, seeds, st)
    ensures Inv(c, g, seeds, st.(next := []))
  {
    hide Product, Target, FirstEdge, Justified;
    forall v | v in st.visits ensures VisitOk(c, g, seeds, st.(next := []), v) {
      assert VisitOk(c, g, seeds, st, v);
    }
    forall i | 0 <= i < |st.trace| ensures HopOk(c, g, st.(next := []), st.trace[i]) {
      assert HopOk(c, g, st, st.trace[i]);
    }
  }

  lemma {:induction false} RunFacts(c: Config, g: Graph, seeds: seq<Seed>, d: nat, cur: seq<string>, st: State,
                                    done: set<string>)
    requires Inv(c, g, seeds, st) && Frontier(d, cur, st, done) && Explored(c, g, d, st, done) && d <= c.depthLimit
    requires d == c.depthLimit ==> st.next == []
    requires Run(c, g, d, cur, st).Done?
    ensures var f := Run(c, g, d, cur, st).final;
            Inv(c, g, seeds, f) && Finished(c, g, f)
    decreases c.depthLimit - d, |cur|
  {
    hide Product, Target, FirstEdge, Inv, FirstPerTarget, Followed, Edges, Reaches, Hops;
    InvIgnoresNext(c, g, seeds, st);
    if d >= c.depthLimit || (cur == [] && st.next == []) {
      assert st == st.(next := []);
    } else if cur == [] {
      assert forall x :: x in done ==> Followed(c, g, st.(next := []), x) by {
        forall x | x in done ensures Followed(c, g, st.(next := []), x) { FollowedKept(c, g, st, st.(next := []), x); }
      }
      RunFacts(c, g, seeds, d + 1, st.next, st.(next := []), done);
    } else {
      var fs := FirstPerTarget(ListRelations(g, cur[0]).relations);
      FirstEdges(g, cur[0]);
      EdgesInv(c, g, seeds, cur[0], fs, st);
      EdgesReach(c, cur[0], fs, st);
      FrontierStep(d, cur, st, Edges(c, cur[0], fs, st), done);
      ExploredStep(c, g, d, cur, st, done, fs);
      RunFacts(c, g, seeds, d, cur[1..], Edges(c, cur[0], fs, st), done + {cur[0]});
    }
  }

  lemma IsSeedSnoc(seeds: seq<Seed>, v: string)
    requires seeds != []
    ensures var n := |seeds| - 1;
            IsSeed(seeds, v) <==> IsSeed(seeds[..n], v) || (v != "" && v == Strip(seeds[n].objectId))
  {
    hide Strip;
    var n := |seeds| - 1;
    forall i | 0 <= i < n && Strip(seeds[i].objectId) == v && v != "" ensures IsSeed(seeds[..n], v) {
      assert seeds[..n][i] == seeds[i];
    }
    if i :| 0 <= i < n && Strip(seeds[..n][i].objectId) == v {
      assert seeds[i] == seeds[..n][i];
    }
  }

  lemma SeedScoreSnoc(seeds: seq<Seed>, v: string, s: real)
    requires seeds != []
    ensures var n := |seeds| - 1;
            && (SeedScore(seeds[..n], v, s) ==> SeedScore(seeds, v, s))
            && (v != "" && !IsSeed(seeds[..n], v) && v == Strip(seeds[n].objectId) && s == seeds[n].score ==>
                 SeedScore(seeds, v, s))
  {
    hide Strip;
    var n := |seeds| - 1;
    assert forall j :: 0 <= j < n ==> seeds[..n][j] == seeds[j];
  }

  lemma {:induction false} SeedStateFacts(seeds: seq<Seed>)
    ensures var st := SeedState(seeds);
            && st.trace == [] && Distinct(st.next)
            && (forall v :: v in st.visits <==> v in st.next)
            && (forall v :: v in st.visits <==> IsSeed(seeds, v))
            && (forall v :: v in st.visits ==>
                 st.visits[v].depth == 0 && SeedScore(seeds, v, st.visits[v].score) && Trimmed(v))
  {
    hide Strip, SeedScore, IsSeed;
    if seeds != [] {
      var n := |seeds| - 1;
      SeedStateFacts(seeds[..n]);
      var st := SeedState(seeds);
      forall v { IsSeedSnoc(seeds, v); }
      forall v | v in st.visits { SeedScoreSnoc(seeds, v, st.visits[v].score); }
    } else {
      forall v ensures !IsSeed(seeds, v) { NoSeeds(v); }
    }
  }

  lemma NoSeeds(v: string)
    ensures !IsSeed([], v)
  {
  }

  /** The invariant holds at the end of every walk that could read the listings it needed. */
  lemma WalkFacts(c: Config, g: Graph, seeds: seq<Seed>)
    requires c.depthLimit >= 0 && Walk(c, g, seeds).Done?
    ensures var f := Walk(c, g, seeds).final;
            Inv(c, g, seeds, f) && Finished(c, g, f)
  {
    hide SeedState, SeedScore, IsSeed, Followed, FirstEdge, Product, Run;
    SeedStateFacts(seeds);
    var st := SeedState(seeds).(next := []);
    forall v | v in st.visits ensures VisitOk(c, g, seeds, st, v) {
      NotBlankSeed(seeds, v);
    }
    RunFacts(c, g, seeds, 0, SeedState(seeds).next, st, {});
  }

  lemma NotBlankSeed(seeds: seq<Seed>, v: string)
    requires IsSeed(seeds, v)
    ensures v != ""
  {
  }

  // ---------------------------------------------------------------- emitted items

  /** Hops out of different objects, by depth. */
  ghost predicate Ordered(hs: seq<Hop>) {
    forall i, j :: 0 <= i < j < |hs| ==> hs[i].source != hs[j].source && hs[i].depth <= hs[j].depth
  }

  lemma OrderedSnoc(hs: seq<Hop>, h: Hop)
    requires Ordered(hs) && forall k :: k in hs ==> k.source != h.source && k.depth <= h.depth
    ensures Ordered(hs + [h])
  {
  }

  ghost predicate ByDepth(trace: seq<Hop>) {
    forall i, j :: 0 <= i < j < |trace| ==> trace[i].depth <= trace[j].depth
  }

  ghost predicate NoRepeat(trace: seq<Hop>) {
    forall i, j :: 0 <= i < j < |trace| ==> !SamePair(trace[i], trace[j])
  }

  lemma {:induction false} IntoOrdered(trace: seq<Hop>, v: string)
    requires NoRepeat(trace) && ByDepth(trace)
    ensures Ordered(Into(trace, v))
  {
    hide Target;
    if trace != [] {
      var n := |trace| - 1;
      IntoOrdered(trace[..n], v);
      var ps := Into(trace[..n], v);
      if Target(trace[n].relation) == v {
        forall k | k in ps ensures k.source != trace[n].source && k.depth <= trace[n].depth {
          var m :| 0 <= m < n && trace[..n][m] == k;
          assert trace[m] == k && !SamePair(trace[m], trace[n]);
        }
        OrderedSnoc(ps, trace[n]);
      }
    }
  }

  lemma {:induction false} NonBlankKeeps(xs: seq<string>)
    requires forall x :: x in xs ==> Trimmed(x)
    ensures forall x :: x in NonBlanks(xs) <==> x in xs && x != ""
    ensures (forall x :: x in xs ==> x != "") ==> NonBlanks(xs) == xs
  {
    if xs != [] {
      assert xs == [xs[0]] + xs[1..];
      NonBlankKeeps(xs[1..]);
    }
  }

  function Sources(hs: seq<Hop>): (us: seq<string>)
    ensures |us| == |hs| && forall i :: 0 <= i < |us| ==> us[i] == hs[i].source
  {
    if hs == [] then [] else Sources(hs[..|hs| - 1]) + [hs[|hs| - 1].source]
  }

  /** An item's parents and path count are those of the hops that built it; the rest is the first hop's. */
  lemma {:induction false} BuildItemPaths(doc: Document, hs: seq<Hop>)
    requires hs != []
    requires forall i, j :: 0 <= i < j < |hs| ==> hs[i].source != hs[j].source
    requires forall i :: 0 <= i < |hs| ==> hs[i].source != "" && Trimmed(hs[i].source)
    ensures var item := BuildItem(doc, hs);
            && item.document == doc && item.depth == hs[0].depth && item.score == hs[0].score
            && item.parent == hs[0].source && item.parents == Sources(hs) && item.pathCount == |hs|
            && item.relationType == Strip(hs[0].relation.relationType) && item.confidence == hs[0].relation.confidence
            && (item.duplicated <==> |hs| > 1)
  {
    hide Strip, NonBlanks, Trimmed;
    var n := |hs| - 1;
    if n > 0 {
      BuildItemPaths(doc, hs[..n]);
      var ps := Sources(hs[..n]);
      forall x | x in ps ensures x != "" && Trimmed(x) && x != hs[n].source {
        var i :| 0 <= i < n && x == ps[i];
        assert x == hs[i].source;
      }
      NonBlankKeeps(ps);
    }
  }

  ghost predicate HasType(hs: seq<Hop>, t: string) {
    exists i :: 0 <= i < |hs| && Strip(hs[i].relation.relationType) == t
  }

  lemma HasTypeSnoc(hs: seq<Hop>, t: string)
    requires hs != []
    ensures HasType(hs, t) <==> HasType(hs[..|hs| - 1], t) || t == Strip(hs[|hs| - 1].relation.relationType)
  {
    hide Strip;
    var n := |hs| - 1;
    assert forall i :: 0 <= i < n ==> hs[..n][i] == hs[i];
  }

  lemma {:induction false} NonBlankDistinct(xs: seq<string>)
    requires Distinct(xs) && forall x :: x in xs ==> Trimmed(x)
    ensures Distinct(NonBlanks(xs))
  {
    hide Strip, Trimmed, NonBlanks;
    if xs == [] {
      NoneNotBlank();
    } else {
      var tail := xs[1..];
      assert forall i, j :: 0 <= i < j < |tail| ==> tail[i] == xs[i + 1] && tail[j] == xs[j + 1];
      NonBlankDistinct(tail);
      NonBlankKeeps(tail);
      assert xs[0] !in tail;
      StripTrimmed(xs[0]);
      NonBlankFirst(xs);
      DistinctCons(xs[0], NonBlanks(tail));
      assert [] + NonBlanks(tail) == NonBlanks(tail);
    }
  }

  lemma DistinctCons(x: string, xs: seq<string>)
    requires Distinct(xs) && x !in xs
    ensures Distinct([x] + xs)
  {
    var r := [x] + xs;
    forall i, j | 0 <= i < j < |r| ensures r[i] != r[j] {
      assert r[j] == xs[j - 1];
    }
  }

  lemma NoneNotBlank()
    ensures NonBlanks([]) == []
  {
  }

  lemma NonBlankFirst(xs: seq<string>)
    requires xs != []
    ensures NonBlanks(xs) == (if Blank(xs[0]) then [] else [Strip(xs[0])]) + NonBlanks(xs[1..])
  {
    hide Strip;
  }

  lemma TypesNext(doc: Document, hs: seq<Hop>)
    requires |hs| > 1
    ensures var n := |hs| - 1;
            var before := NonBlanks(BuildItem(doc, hs[..n]).relationTypes);
            var t := Strip(hs[n].relation.relationType);
            BuildItem(doc, hs).relationTypes == if t != "" && t !in before then before + [t] else before
  {
    hide Strip, NonBlanks;
  }

  /** An item's relation types are those of the hops that built it, up to a blank one. */
  lemma {:induction false} BuildItemTypes(doc: Document, hs: seq<Hop>)
    requires hs != []
    ensures var ts := BuildItem(doc, hs).relationTypes;
            && (forall t :: t in ts ==> Trimmed(t) && HasType(hs, t))
            && (forall t :: HasType(hs, t) && t != "" ==> t in ts)
            && Distinct(ts)
  {
    hide Strip, Trimmed, HasType;
    var n := |hs| - 1;
    forall t { HasTypeSnoc(hs, t); }
    if n > 0 {
      BuildItemTypes(doc, hs[..n]);
      var before := BuildItem(doc, hs[..n]).relationTypes;
      NonBlankKeeps(before);
      NonBlankDistinct(before);
      TypesNext(doc, hs);
      hide BuildItem, NonBlanks;
    } else {
      assert hs[..0] == [];
      assert BuildItem(doc, hs).relationTypes == [Strip(hs[0].relation.relationType)];
      forall t ensures !HasType([], t) { NoTypes(t); }
      hide BuildItem;
    }
  }

  lemma NoTypes(t: string)
    ensures !HasType([], t)
  {
  }

  lemma {:induction false} EmittedIdsFacts(lookup: map<string, Document>, seeds: seq<Seed>, trace: seq<Hop>)
    ensures var ids := EmittedIds(lookup, seeds, trace);
            && Distinct(ids)
            && (forall v :: v in ids <==> v in lookup && v !in SeedState(seeds).visits && Into(trace, v) != [])
  {
    hide Target, SeedState;
    if trace != [] {
      var n := |trace| - 1;
      EmittedIdsFacts(lookup, seeds, trace[..n]);
    }
  }

  lemma {:induction false} EmittedIdsByDepth(lookup: map<string, Document>, seeds: seq<Seed>, trace: seq<Hop>,
                                             i: nat, j: nat)
    requires ByDepth(trace) && i < j < |EmittedIds(lookup, seeds, trace)|
    ensures var ids := EmittedIds(lookup, seeds, trace);
            ids[i] in ids && ids[j] in ids && Into(trace, ids[i])[0].depth <= Into(trace, ids[j])[0].depth
  {
    hide Target, SeedState;
    var n := |trace| - 1;
    var ids, ps := EmittedIds(lookup, seeds, trace), EmittedIds(lookup, seeds, trace[..n]);
    assert ids[i] in ids && ids[j] in ids && ps[i] in ps;
    if j < |ps| {
      EmittedIdsByDepth(lookup, seeds, trace[..n], i, j);
      assert ps[j] in ps;
    } else {
      var h := Into(trace[..n], ps[i])[0];
      assert h in Into(trace[..n], ps[i]);
      var k :| 0 <= k < n && trace[..n][k] == h;
      assert trace[k] == h;
      EmittedIdsFacts(lookup, seeds, trace[..n]);
    }
  }
}
