/** The score of an expanded item, told by a path: the seed's score, decayed once per step and weighted by
    the confidence of every relation on the way. */
module RelationExpansionPaths {
  import opened Text
  import opened Collections
  import opened RelationExpansion
  import opened RelationExpansionFacts
  import opened RelationExpansionTheorems

  /** Where the relations lead from `u`, one after the other. */
  function End(u: string, rs: seq<Relation>): string {
    if rs == [] then u else Strip(rs[|rs| - 1].counterparty)
  }

  /** Each relation is the first one its object lists to its target. */
  ghost predicate Path(g: Graph, u: string, rs: seq<Relation>) {
    forall i :: 0 <= i < |rs| ==> FirstEdge(g, End(u, rs[..i]), rs[i])
  }

  function Power(x: real, n: nat): real {
    if n == 0 then 1.0 else x * Power(x, n - 1)
  }

  function Confidences(rs: seq<Relation>): real {
    if rs == [] then 1.0 else Confidences(rs[..|rs| - 1]) * rs[|rs| - 1].confidence
  }

  function PathScore(c: Config, s: real, rs: seq<Relation>): real {
    s * Power(c.decayFactor, |rs|) * Confidences(rs)
  }

  /** The score is at or above the cut-off after every step. */
  ghost predicate StaysAbove(c: Config, s: real, rs: seq<Relation>) {
    forall n :: 1 <= n <= |rs| ==> PathScore(c, s, rs[..n]) >= c.minConfidence
  }

  /** The path leads from a seed to `v` and gives it this score. */
  ghost predicate Scores(c: Config, g: Graph, seeds: seq<Seed>, v: string, score: real, u: string, s: real,
                         rs: seq<Relation>) {
    && SeedScore(seeds, u, s) && Path(g, u, rs) && End(u, rs) == v
    && PathScore(c, s, rs) == score && StaysAbove(c, s, rs)
  }

  lemma OneMore(s: real, p: real, k: real, d: real, q: real)
    ensures s * p * k * d * q == s * (d * p) * (k * q)
  {
  }

  lemma ScoreStep(c: Config, s: real, rs: seq<Relation>, r: Relation)
    ensures PathScore(c, s, rs + [r]) == Product(c, PathScore(c, s, rs), r)
  {
    assert (rs + [r])[..|rs|] == rs;
    OneMore(s, Power(c.decayFactor, |rs|), Confidences(rs), c.decayFactor, r.confidence);
  }

  lemma PathNext(g: Graph, u: string, rs: seq<Relation>, r: Relation)
    requires Path(g, u, rs) && FirstEdge(g, End(u, rs), r)
    ensures Path(g, u, rs + [r]) && End(u, rs + [r]) == Target(r)
  {
    hide FirstEdge, End, Target;
    var all := rs + [r];
    assert all[..|rs|] == rs;
    assert forall i :: 0 <= i < |rs| ==> all[..i] == rs[..i] && all[i] == rs[i];
    EndLast(u, rs, r);
  }

  lemma EndLast(u: string, rs: seq<Relation>, r: Relation)
    ensures End(u, rs + [r]) == Target(r)
  {
  }

  lemma AboveNext(c: Config, s: real, rs: seq<Relation>, r: Relation)
    requires StaysAbove(c, s, rs) && PathScore(c, s, rs + [r]) >= c.minConfidence
    ensures StaysAbove(c, s, rs + [r])
  {
    hide PathScore;
    var all := rs + [r];
    assert all[..|all|] == all;
    assert forall n :: 1 <= n <= |rs| ==> all[..n] == rs[..n];
  }

  /** One more first edge that survives the cut-off makes a longer path. */
  lemma PathStep(c: Config, g: Graph, seeds: seq<Seed>, v: string, score: real,
                 u: string, s: real, rs: seq<Relation>, r: Relation)
    requires Scores(c, g, seeds, v, score, u, s, rs)
    requires FirstEdge(g, v, r) && Product(c, score, r) >= c.minConfidence
    ensures Scores(c, g, seeds, Target(r), Product(c, score, r), u, s, rs + [r])
  {
    hide FirstEdge, Product, PathScore, Path, End, StaysAbove, SeedScore, Target;
    ScoreStep(c, s, rs, r);
    PathNext(g, u, rs, r);
    AboveNext(c, s, rs, r);
  }

  lemma SeedPath(c: Config, g: Graph, seeds: seq<Seed>, v: string, s: real)
    requires SeedScore(seeds, v, s)
    ensures Scores(c, g, seeds, v, s, v, s, [])
  {
  }

  lemma {:induction false} JustifiedPath(c: Config, g: Graph, seeds: seq<Seed>, v: string, n: nat, score: real)
    returns (u: string, s: real, rs: seq<Relation>)
    requires Justified(c, g, seeds, v, n, score)
    ensures |rs| == n && Scores(c, g, seeds, v, score, u, s, rs)
    decreases n
  {
    hide FirstEdge, Product, Target, Scores;
    if n == 0 {
      u, s, rs := v, score, [];
      SeedPath(c, g, seeds, v, score);
    } else {
      var w, t, r :| Justified(c, g, seeds, w, n - 1, t) && FirstEdge(g, w, r) && Target(r) == v
                     && Product(c, t, r) == score && score >= c.minConfidence;
      u, s, rs := JustifiedPath(c, g, seeds, w, n - 1, t);
      PathStep(c, g, seeds, w, t, u, s, rs, r);
      rs := rs + [r];
    }
  }

  /** What the path of an item tells: its score and depth, the parent it came through, and the relation of the
      last step. */
  ghost predicate Told(c: Config, g: Graph, seeds: seq<Seed>, v: string, item: Item, u: string, s: real,
                       rs: seq<Relation>) {
    && |rs| == item.depth >= 1 && Scores(c, g, seeds, v, item.score, u, s, rs)
    && var n := |rs| - 1;
       && item.parent == End(u, rs[..n])
       && item.relationType == Strip(rs[n].relationType) && item.confidence == rs[n].confidence
  }

  lemma ItemTold(c: Config, g: Graph, seeds: seq<Seed>, f: State, v: string, doc: Document)
    returns (u: string, s: real, rs: seq<Relation>)
    requires Inv(c, g, seeds, f) && Finished(c, g, f) && Into(f.trace, v) != [] && !IsSeed(seeds, v)
    ensures Told(c, g, seeds, v, BuildItem(doc, Into(f.trace, v)), u, s, rs)
  {
    hide FirstEdge, Product, Scores, Justified, Into, BuildItem, Strip, Followed, Trimmed;
    var hs := Into(f.trace, v);
    HopsIntoOrdered(c, g, seeds, f, v);
    forall i | 0 <= i < |hs|
        ensures HopOk(c, g, f, hs[i]) && Target(hs[i].relation) == v && hs[i].source != "" && Trimmed(hs[i].source) {
      HopIntoOk(c, g, seeds, f, v, i);
    }
    BuildItemPaths(doc, hs);
    var h := hs[0];
    FirstHopInto(c, g, seeds, f, v);
    assert HopOk(c, g, f, h) && VisitOk(c, g, seeds, f, h.source);
    u, s, rs := JustifiedPath(c, g, seeds, h.source, f.visits[h.source].depth, f.visits[h.source].score);
    PathStep(c, g, seeds, h.source, f.visits[h.source].score, u, s, rs, h.relation);
    EndOf(c, g, seeds, h.source, f.visits[h.source].score, u, s, rs);
    rs := rs + [h.relation];
    assert rs[..|rs| - 1] == rs[..|rs| - 1] && rs[|rs| - 1] == h.relation;
  }

  lemma EndOf(c: Config, g: Graph, seeds: seq<Seed>, v: string, score: real, u: string, s: real, rs: seq<Relation>)
    requires Scores(c, g, seeds, v, score, u, s, rs)
    ensures End(u, rs) == v && forall r :: (rs + [r])[..|rs|] == rs
  {
  }

  /** Every emitted item has a path of as many first edges as its depth from a seed: its score is the seed's
      first score, times the decay to the power of the depth, times the product of the confidences, and the same
      value never falls below the cut-off on the way. Its parent, relation type and confidence are those of
      the last step. */
  lemma ScoresOnPaths(lookup: map<string, Document>, g: Graph, seeds: seq<Seed>, c: Config, i: nat)
    returns (u: string, s: real, rs: seq<Relation>)
    requires c.depthLimit > 0 && c.decayFactor > 0.0 && lookup != map[] && Walk(c, g, seeds).Done?
    requires i < |Expansion(lookup, g, seeds, c)|
    ensures var ids := EmittedIds(lookup, seeds, Walk(c, g, seeds).final.trace);
            && i < |ids|
            && Told(c, g, seeds, ids[i], Expansion(lookup, g, seeds, c)[i], u, s, rs)
  {
    hide Told, Walk, BuildItem, Into, Inv, Finished, SeedState;
    var f := Walk(c, g, seeds).final;
    var ids := EmittedIds(lookup, seeds, f.trace);
    WalkFacts(c, g, seeds);
    EmissionTheorem(lookup, g, seeds, c);
    assert ids[i] in ids;
    u, s, rs := ItemTold(c, g, seeds, f, ids[i], lookup[ids[i]]);
  }
}
