/** Relation expansion over the knowledge graph: a FIFO walk with a depth limit, a score cut-off,
    a traversed-edge set and in-place merging of duplicate paths. */
module RelationExpansion {
  import opened Text

  datatype Relation = Relation(counterparty: string, relationType: string, confidence: real)

  /** What the store answers for one object: its relations, or an I/O error. */
  datatype Listing = Unreadable | Readable(relations: seq<Relation>)

  type Graph = map<string, Listing>

  datatype Document = Document(path: string, chunkId: string, title: string, citation: string, text: string)

  /** A seed item: its object id (before trimming) and its retrieval score. */
  datatype Seed = Seed(objectId: string, score: real)

  datatype Config = Config(depthLimit: int, minConfidence: real, decayFactor: real)

  datatype Item = Item(
    document: Document, score: real, depth: nat, relationType: string, parent: string,
    parents: seq<string>, relationTypes: seq<string>, pathCount: nat, confidence: real, duplicated: bool)

  function ListRelations(g: Graph, id: string): Listing {
    if id in g then g[id] else Readable([])
  }

  function Target(r: Relation): string { Strip(r.counterparty) }

  function Product(c: Config, score: real, r: Relation): real {
    score * c.decayFactor * r.confidence
  }

  function NewItem(d: Document, u: string, r: Relation, score: real, depth: nat): Item {
    var t := Strip(r.relationType);
    Item(d, score, depth, t, u, [u], [t], 1, r.confidence, false)
  }

  function AppendNew(xs: seq<string>, x: string): seq<string> {
    if x != "" && x !in xs then xs + [x] else xs
  }

  /** Merging one more path into an item that was already emitted. The stored lists are re-read
      through a filter that drops blank entries. */
  function MarkDuplicate(item: Item, u: string, r: Relation): Item {
    item.(duplicated := true,
          pathCount := (if item.pathCount > 0 then item.pathCount else 1) + 1,
          parents := AppendNew(NonBlanks(item.parents), u),
          relationTypes := AppendNew(NonBlanks(item.relationTypes), Strip(r.relationType)))
  }

  // ---------------------------------------------------------------- reference walk

  datatype Visit = Visit(depth: nat, score: real)

  /** One edge that was followed and not pruned, with the depth and score it leads to. */
  datatype Hop = Hop(source: string, relation: Relation, depth: nat, score: real)

  /** `visits`: every object reached, with the depth and score it was first reached with.
      `next`: objects first reached at the next depth, in order. `trace`: the hops made, in order. */
  datatype State = State(visits: map<string, Visit>, next: seq<string>, trace: seq<Hop>)

  /** The relation at `i` is the first one listed with its (non-blank) counterparty. */
  predicate FirstAt(rs: seq<Relation>, i: nat)
    requires i < |rs|
  {
    Target(rs[i]) != "" && forall j :: 0 <= j < i ==> Target(rs[j]) != Target(rs[i])
  }

  /** The first relation listed for each non-blank counterparty, in order. */
  function FirstPerTarget(rs: seq<Relation>): (fs: seq<Relation>) {
    if rs == [] then []
    else
      var n := |rs| - 1;
      FirstPerTarget(rs[..n]) + (if FirstAt(rs, n) then [rs[n]] else [])
  }

  function HopFrom(c: Config, u: string, visit: Visit, r: Relation): Hop {
    Hop(u, r, visit.depth + 1, Product(c, visit.score, r))
  }

  function Take(st: State, h: Hop): State {
    var v := Target(h.relation);
    var reached := st.(trace := st.trace + [h]);
    if v in st.visits then reached
    else reached.(visits := st.visits[v := Visit(h.depth, h.score)], next := st.next + [v])
  }

  function Edge(c: Config, u: string, r: Relation, st: State): State
    requires u in st.visits
  {
    var h := HopFrom(c, u, st.visits[u], r);
    if h.score < c.minConfidence then st else Take(st, h)
  }

  function Edges(c: Config, u: string, fs: seq<Relation>, st: State): (r: State)
    requires u in st.visits
    ensures u in r.visits
  {
    if fs == [] then st
    else Edge(c, u, fs[|fs| - 1], Edges(c, u, fs[..|fs| - 1], st))
  }

  datatype Outcome = Failed | Done(final: State)

  /** Breadth-first search one depth at a time: no queue entries for objects already reached, no
      traversed-edge set. `cur` is what is left of depth `d`. */
  function Run(c: Config, g: Graph, d: nat, cur: seq<string>, st: State): Outcome
    requires forall x :: x in cur || x in st.next ==> x in st.visits
    decreases c.depthLimit - d, |cur|
  {
    if d >= c.depthLimit || (cur == [] && st.next == []) then Done(st.(next := []))
    else if cur == [] then Run(c, g, d + 1, st.next, st.(next := []))
    else
      match ListRelations(g, cur[0])
      case Unreadable => Failed
      case Readable(rs) =>
        EdgesKeep(c, cur[0], FirstPerTarget(rs), st);
        Run(c, g, d, cur[1..], Edges(c, cur[0], FirstPerTarget(rs), st))
  }

  /** Reached objects stay reached, with the depth and score of the first time. */
  lemma EdgesKeep(c: Config, u: string, fs: seq<Relation>, st: State)
    requires u in st.visits
    ensures var r := Edges(c, u, fs, st);
            && (forall x :: x in st.visits ==> x in r.visits && r.visits[x] == st.visits[x])
            && st.trace <= r.trace && st.next <= r.next
            && (forall x :: x in r.next ==> x in st.next || x in r.visits)
  {
  }

  /** The seed ids in first-occurrence order, blank ids dropped; the first score of an id counts. */
  function SeedState(seeds: seq<Seed>): (st: State)
    ensures forall x :: x in st.next ==> x in st.visits
  {
    if seeds == [] then State(map[], [], [])
    else
      var st := SeedState(seeds[..|seeds| - 1]);
      var s := seeds[|seeds| - 1];
      var id := Strip(s.objectId);
      if id == "" || id in st.visits then st
      else st.(visits := st.visits[id := Visit(0, s.score)], next := st.next + [id])
  }

  /** The walk from the seeds, level by level. */
  function Walk(c: Config, g: Graph, seeds: seq<Seed>): Outcome {
    var st := SeedState(seeds);
    Run(c, g, 0, st.next, st.(next := []))
  }

  // ---------------------------------------------------------------- what a trace emits

  /** The hops into `v`, in order. */
  function Into(trace: seq<Hop>, v: string): (hs: seq<Hop>)
    ensures forall h :: h in hs ==> h in trace && Target(h.relation) == v
  {
    if trace == [] then []
    else
      var h := trace[|trace| - 1];
      Into(trace[..|trace| - 1], v) + (if Target(h.relation) == v then [h] else [])
  }

  /** The item the hops `hs` into one object build up: created by the first, merged by the others. */
  function BuildItem(doc: Document, hs: seq<Hop>): Item
    requires hs != []
  {
    var h := hs[|hs| - 1];
    if |hs| == 1 then NewItem(doc, h.source, h.relation, h.score, h.depth)
    else MarkDuplicate(BuildItem(doc, hs[..|hs| - 1]), h.source, h.relation)
  }

  /** The emitted ids: targets with a document that are no seeds, in order of first arrival. */
  function EmittedIds(lookup: map<string, Document>, seeds: seq<Seed>, trace: seq<Hop>): (ids: seq<string>)
    ensures forall v :: v in ids ==> v in lookup && Into(trace, v) != []
  {
    if trace == [] then []
    else
      var prev := EmittedIds(lookup, seeds, trace[..|trace| - 1]);
      var v := Target(trace[|trace| - 1].relation);
      if v in lookup && v !in prev && v !in SeedState(seeds).visits then prev + [v] else prev
  }

  /** The item emitted for `v`. */
  function ItemFor(lookup: map<string, Document>, trace: seq<Hop>, v: string): Item
    requires v in lookup && Into(trace, v) != []
  {
    BuildItem(lookup[v], Into(trace, v))
  }

  function EmittedItems(lookup: map<string, Document>, seeds: seq<Seed>, trace: seq<Hop>): (items: seq<Item>) {
    var ids := EmittedIds(lookup, seeds, trace);
    seq(|ids|, i requires 0 <= i < |ids| => assert ids[i] in ids; ItemFor(lookup, trace, ids[i]))
  }

  /** The result: nothing when a listing the walk needs cannot be read. */
  function Expansion(lookup: map<string, Document>, g: Graph, seeds: seq<Seed>, c: Config): seq<Item> {
    if c.depthLimit <= 0 || c.decayFactor <= 0.0 || lookup == map[] then []
    else match Walk(c, g, seeds)
         case Failed => []
         case Done(final) => EmittedItems(lookup, seeds, final.trace)
  }
}
