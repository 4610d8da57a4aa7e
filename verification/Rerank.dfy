/** Reranking: the order a reranker's payload gives is completed to a permutation of the candidates, and
    the items are put into that order. */
module Rerank {
  import opened Collections

  /** A value read from JSON as a number. A boolean in an index list counts as unreadable. */
  datatype Value<T> = Absent | Given(value: T) | Unreadable

  datatype ResultEntry = NotObject | Entry(index: Value<int>, documentIndex: Value<int>, relevance: Value<real>,
                                           score: Value<real>)

  /** The fields a payload may hold as lists. */
  datatype Payload = NoObject | Payload(ordered: Option<seq<Value<int>>>, results: Option<seq<ResultEntry>>,
                                        data: Option<seq<ResultEntry>>)

  datatype Ranked = Ranked(index: nat, score: real, position: nat)

  datatype Response = Unavailable | Response(order: seq<int>, scores: map<int, real>)

  // ---------------------------------------------------------------- completing an order

  ghost predicate Permutation(s: seq<int>, n: nat) {
    Distinct(s) && forall x :: x in s <==> 0 <= x < n
  }

  /** The usable indexes, each once, in order of first occurrence. */
  function Listed(raw: seq<Value<int>>, n: nat): (r: seq<int>)
    ensures Distinct(r)
    ensures forall x :: x in r <==> 0 <= x < n && exists i :: 0 <= i < |raw| && raw[i] == Given(x)
  {
    if raw == [] then []
    else
      var m := |raw| - 1;
      var r, v := Listed(raw[..m], n), raw[m];
      assert forall i :: 0 <= i < m ==> raw[..m][i] == raw[i];
      if v.Given? && 0 <= v.value < n && v.value !in r then r + [v.value] else r
  }

  /** The indexes below `k` that are not listed, ascending. */
  function Unlisted(listed: seq<int>, k: nat): (r: seq<int>)
    ensures forall x :: x in r <==> 0 <= x < k && x !in listed
    ensures forall i, j :: 0 <= i < j < |r| ==> r[i] < r[j]
  {
    if k == 0 then []
    else
      var u := Unlisted(listed, k - 1);
      assert forall i :: 0 <= i < |u| ==> u[i] in u;
      u + (if k - 1 in listed then [] else [k - 1])
  }

  method NormalizeOrderedIndexes(raw: seq<Value<int>>, n: nat) returns (r: Option<seq<int>>)
    ensures r == if Listed(raw, n) == [] then None else Some(Listed(raw, n) + Unlisted(Listed(raw, n), n))
  {
    var normalized: seq<int>, seen: set<int> := [], {};
    assert raw[..0] == [];
    for i := 0 to |raw|
      invariant normalized == Listed(raw[..i], n) && forall x :: x in seen <==> x in normalized
    {
      assert raw[..i + 1][..i] == raw[..i];
      var v := raw[i];
      if !v.Given? || v.value < 0 || v.value >= n || v.value in seen {
        continue;
      }
      normalized, seen := normalized + [v.value], seen + {v.value};
    }
    assert raw[..|raw|] == raw;
    if normalized == [] {
      return None;
    }
    normalized := AppendUnlisted(normalized, seen, n);
    r := Some(normalized);
  }

  method AppendUnlisted(listed: seq<int>, seen: set<int>, n: nat) returns (r: seq<int>)
    requires forall x :: x in seen <==> x in listed
    ensures r == listed + Unlisted(listed, n)
  {
    r := listed;
    for k := 0 to n
      invariant r == listed + Unlisted(listed, k)
    {
      if k !in seen { r := r + [k]; }
    }
  }

  /** The completed order is a permutation of the candidates: listed ones first, the others ascending. */
  lemma OrderIsPermutation(raw: seq<Value<int>>, n: nat)
    ensures Permutation(Listed(raw, n) + Unlisted(Listed(raw, n), n), n)
  {
    var a := Listed(raw, n);
    var b := Unlisted(a, n);
    var s := a + b;
    forall i, j | 0 <= i < j < |s| ensures s[i] != s[j] {
      if i < |a| <= j { assert s[i] in a && s[j] in b; }
    }
    forall x ensures x in s <==> 0 <= x < n { assert x in s <==> x in a || x in b; }
  }

  /** Without its largest element a permutation is one of the smaller numbers. */
  lemma WithoutLargest(s: seq<int>, n: nat, i: nat)
    requires n > 0 && Permutation(s, n) && i < |s| && s[i] == n - 1
    ensures Permutation(s[..i] + s[i + 1..], n - 1)
  {
    var t := s[..i] + s[i + 1..];
    assert forall j :: 0 <= j < |t| ==> t[j] == s[if j < i then j else j + 1];
    assert s == s[..i] + [s[i]] + s[i + 1..];
    forall x ensures x in t <==> 0 <= x < n - 1 {
      assert x in s <==> x in t || x == n - 1;
    }
  }

  lemma {:induction false} PermutationLength(s: seq<int>, n: nat)
    requires Permutation(s, n)
    ensures |s| == n
  {
    if n > 0 {
      assert n - 1 in s;
      var i :| 0 <= i < |s| && s[i] == n - 1;
      WithoutLargest(s, n, i);
      PermutationLength(s[..i] + s[i + 1..], n - 1);
    } else {
      HasElement(s);
    }
  }

  lemma HasElement(s: seq<int>)
    ensures s != [] ==> exists x :: x in s
  {
    if s != [] {
      var x := s[0];
      assert x in s;
    }
  }

  // ---------------------------------------------------------------- scored results

  /** Higher scores come first, then earlier positions. */
  predicate Before(a: Ranked, b: Ranked) {
    a.score > b.score
        || (a.score == b.score && (a.position < b.position || (a.position == b.position && a.index <= b.index)))
  }

  /** The usable reading of one result at its position; the score defaults to one that keeps the order. */
  function ReadEntry(e: ResultEntry, position: nat, n: nat): Option<Ranked> {
    if e.NotObject? then None
    else
      var index := if e.index.Absent? then e.documentIndex else e.index;
      var score := if e.relevance.Absent? then e.score else e.relevance;
      if !index.Given? || index.value < 0 || index.value >= n then None
      else Some(Ranked(index.value, if score.Given? then score.value else (n as int - position) as real, position))
  }

  function Collected(results: seq<ResultEntry>, n: nat): (rs: seq<Ranked>)
    ensures forall r :: r in rs <==> exists i :: 0 <= i < |results| && ReadEntry(results[i], i, n) == Some(r)
  {
    if results == [] then []
    else
      var m := |results| - 1;
      assert forall i :: 0 <= i < m ==> results[..m][i] == results[i];
      var rs, e := Collected(results[..m], n), ReadEntry(results[m], m, n);
      if e.Some? then rs + [e.value] else rs
  }

  /** The score kept for an index is that of its last usable result. */
  function Scores(results: seq<ResultEntry>, n: nat): map<int, real> {
    if results == [] then map[]
    else
      var m := |results| - 1;
      var scores, e := Scores(results[..m], n), ReadEntry(results[m], m, n);
      if e.Some? then scores[e.value.index := e.value.score] else scores
  }

  function Insert(rs: seq<Ranked>, r: Ranked): seq<Ranked> {
    if rs == [] then [r]
    else if Before(rs[|rs| - 1], r) then rs + [r]
    else Insert(rs[..|rs| - 1], r) + [rs[|rs| - 1]]
  }

  function Sort(rs: seq<Ranked>): seq<Ranked> {
    if rs == [] then [] else Insert(Sort(rs[..|rs| - 1]), rs[|rs| - 1])
  }

  ghost predicate Sorted(rs: seq<Ranked>) {
    forall i, j :: 0 <= i < j < |rs| ==> Before(rs[i], rs[j])
  }

  lemma {:induction false} InsertSorted(rs: seq<Ranked>, r: Ranked)
    requires Sorted(rs)
    ensures Sorted(Insert(rs, r)) && forall x :: x in Insert(rs, r) <==> x in rs || x == r
  {
    if rs != [] {
      var m := |rs| - 1;
      assert rs == rs[..m] + [rs[m]];
      if !Before(rs[m], r) {
        InsertSorted(rs[..m], r);
        var s := Insert(rs[..m], r);
        forall i | 0 <= i < |s| ensures Before(s[i], rs[m]) { assert s[i] in s; }
      }
    }
  }

  lemma {:induction false} SortSorted(rs: seq<Ranked>)
    ensures Sorted(Sort(rs)) && forall x :: x in Sort(rs) <==> x in rs
  {
    hide Before, Insert;
    if rs != [] {
      var m := |rs| - 1;
      SortSorted(rs[..m]);
      InsertSorted(Sort(rs[..m]), rs[m]);
      assert rs == rs[..m] + [rs[m]];
    }
  }

  function Indexes(rs: seq<Ranked>): (vs: seq<Value<int>>)
    ensures |vs| == |rs| && forall i :: 0 <= i < |rs| ==> vs[i] == Given(rs[i].index)
  {
    seq(|rs|, i requires 0 <= i < |rs| => Given(rs[i].index))
  }

  /** What a payload comes to: an explicit order, or the order of the scored results. */
  function ResponseTo(p: Payload, n: nat): Response {
    if p.NoObject? then Unavailable
    else if p.ordered.Some? then
      (if Listed(p.ordered.value, n) == [] then Unavailable
          else Response(Listed(p.ordered.value, n) + Unlisted(Listed(p.ordered.value, n), n), map[]))
    else
      var results := if p.results.Some? then p.results else p.data;
      if results.None? || Collected(results.value, n) == [] then Unavailable
      else
        var listed := Listed(Indexes(Sort(Collected(results.value, n))), n);
        if listed == [] then Unavailable else Response(listed + Unlisted(listed, n), Scores(results.value, n))
  }

  method ParseResponse(p: Payload, n: nat) returns (r: Response)
    ensures r == ResponseTo(p, n)
  {
    hide ReadEntry, Listed, Unlisted, Sort;
    if p.NoObject? {
      return Unavailable;
    }
    if p.ordered.Some? {
      var order := NormalizeOrderedIndexes(p.ordered.value, n);
      return if order.None? then Unavailable else Response(order.value, map[]);
    }
    var results := if p.results.Some? then p.results else p.data;
    if results.None? {
      return Unavailable;
    }
    var es := results.value;
    var ranked: seq<Ranked>, scores: map<int, real> := [], map[];
    assert es[..0] == [];
    for position := 0 to |es|
      invariant ranked == Collected(es[..position], n) && scores == Scores(es[..position], n)
    {
      assert es[..position + 1][..position] == es[..position];
      var e := ReadEntry(es[position], position, n);
      if e.None? {
        continue;
      }
      scores := scores[e.value.index := e.value.score];
      ranked := ranked + [e.value];
    }
    assert es[..|es|] == es;
    if ranked == [] {
      return Unavailable;
    }
    var order := NormalizeOrderedIndexes(Indexes(Sort(ranked)), n);
    r := if order.None? then Unavailable else Response(order.value, scores);
  }

  /** Every payload that does not raise gives a permutation of the candidates. */
  lemma ResponseIsPermutation(p: Payload, n: nat)
    ensures var r := ResponseTo(p, n); r.Response? ==> Permutation(r.order, n) && |r.order| == n
  {
    hide Listed, Unlisted, Sort, Collected, Permutation;
    var r := ResponseTo(p, n);
    if r.Response? {
      if p.ordered.Some? {
        OrderIsPermutation(p.ordered.value, n);
      } else {
        var results := if p.results.Some? then p.results else p.data;
        OrderIsPermutation(Indexes(Sort(Collected(results.value, n))), n);
      }
      PermutationLength(r.order, n);
    }
  }

  /** Of two listed indexes, the one placed earlier has an occurrence before every one of the later. */
  lemma {:induction false} ListedByFirst(raw: seq<Value<int>>, n: nat, a: nat, b: nat) returns (f: nat)
    requires a < b < |Listed(raw, n)|
    ensures f < |raw| && raw[f] == Given(Listed(raw, n)[a])
    ensures forall j :: 0 <= j < |raw| && raw[j] == Given(Listed(raw, n)[b]) ==> f < j
  {
    var m := |raw| - 1;
    var before := Listed(raw[..m], n);
    if b < |before| {
      f := ListedByFirst(raw[..m], n, a, b);
      assert forall j :: 0 <= j < m ==> raw[..m][j] == raw[j];
    } else {
      assert before[a] in before;
      f :| 0 <= f < m && raw[..m][f] == Given(before[a]);
      var last := Listed(raw, n)[b];
      assert last !in before;
      assert forall j :: 0 <= j < m ==> raw[..m][j] == raw[j];
    }
  }

  /** Result `i` is a usable one of candidate `x`. */
  predicate Usable(es: seq<ResultEntry>, n: nat, i: nat, x: int)
    requires i < |es|
  {
    ReadEntry(es[i], i, n).Some? && ReadEntry(es[i], i, n).value.index == x
  }

  predicate LastUsable(es: seq<ResultEntry>, n: nat, i: nat, x: int)
    requires i < |es|
  {
    Usable(es, n, i, x) && forall j :: i < j < |es| ==> !Usable(es, n, j, x)
  }

  function ScoreAt(es: seq<ResultEntry>, n: nat, i: nat): real
    requires i < |es| && ReadEntry(es[i], i, n).Some?
  {
    ReadEntry(es[i], i, n).value.score
  }

  /** The noted score of a candidate is that of its last usable result, and only candidates with one have it. */
  lemma {:induction false} NotedIsLast(es: seq<ResultEntry>, n: nat, x: int)
    ensures x in Scores(es, n) <==> exists i :: 0 <= i < |es| && Usable(es, n, i, x)
    ensures forall i :: 0 <= i < |es| && LastUsable(es, n, i, x) ==>
        x in Scores(es, n) && Scores(es, n)[x] == ScoreAt(es, n, i)
  {
    hide ReadEntry;
    if es != [] {
      var m := |es| - 1;
      NotedIsLast(es[..m], n, x);
      assert forall i :: 0 <= i < m ==> es[..m][i] == es[i];
      assert forall i :: 0 <= i < m ==> Usable(es[..m], n, i, x) == Usable(es, n, i, x);
      if i :| 0 <= i < |es| && Usable(es, n, i, x) && i < m { assert Usable(es[..m], n, i, x); }
      forall i | 0 <= i < |es| && LastUsable(es, n, i, x)
        ensures x in Scores(es, n) && Scores(es, n)[x] == ScoreAt(es, n, i)
      {
        if i < m {
          assert !Usable(es, n, m, x) && LastUsable(es[..m], n, i, x);
          assert ScoreAt(es[..m], n, i) == ScoreAt(es, n, i);
        }
      }
      if Usable(es, n, m, x) { assert LastUsable(es, n, m, x); }
    }
  }

  lemma {:induction false} LastUsableExists(es: seq<ResultEntry>, n: nat, x: int) returns (i: nat)
    requires x in Scores(es, n)
    ensures i < |es| && LastUsable(es, n, i, x)
  {
    hide ReadEntry;
    NotedIsLast(es, n, x);
    i :| 0 <= i < |es| && Usable(es, n, i, x);
    for j := i + 1 to |es|
      invariant i < j <= |es| && Usable(es, n, i, x) && forall l :: i < l < j ==> !Usable(es, n, l, x)
    {
      if Usable(es, n, j, x) { i := j; }
    }
  }

  /** The result that places a candidate: no other result of it comes before this one. */
  ghost predicate Best(es: seq<ResultEntry>, n: nat, x: int, b: Ranked) {
    b in Collected(es, n) && b.index == x && forall r :: r in Collected(es, n) && r.index == x ==> Before(b, r)
  }

  /** The scored candidates are the listed ones, and each has a best result. */
  lemma BestExists(es: seq<ResultEntry>, n: nat, x: int) returns (b: Ranked)
    requires x in Scores(es, n)
    ensures x in Listed(Indexes(Sort(Collected(es, n))), n) && Best(es, n, x, b)
  {
    hide Before, Listed, Sort, Collected, ReadEntry;
    var rs := Collected(es, n);
    var s := Sort(rs);
    SortSorted(rs);
    NotedIsLast(es, n, x);
    var i :| 0 <= i < |es| && Usable(es, n, i, x);
    var r := ReadEntry(es[i], i, n).value;
    assert r in rs && r in s;
    var f := 0;
    while s[f].index != x
      invariant f < |s| && (forall j :: 0 <= j < f ==> s[j].index != x) && exists j :: f <= j < |s| && s[j] == r
      decreases |s| - f
    {
      f := f + 1;
    }
    b := s[f];
    assert b in s && Indexes(s)[f] == Given(x);
    CollectedInRange(es, n, b);
    forall q | q in rs && q.index == x ensures Before(b, q) {
      assert q in s;
      var j :| 0 <= j < |s| && s[j] == q;
      BeforeSelf(b);
    }
  }

  // ---------------------------------------------------------------- the order, read off the results

  /** The result names this candidate: by its index, or by its document index if it has no index. */
  ghost predicate Names(e: ResultEntry, n: nat, x: int) {
    e.Entry? && 0 <= x < n && (e.index == Given(x) || (e.index.Absent? && e.documentIndex == Given(x)))
  }

  /** The relevance score, the plain score if there is none, and what `position` counts for if neither is readable:
      the more the earlier the result is. */
  ghost function ResultScore(e: ResultEntry, n: nat, position: nat): real {
    match e
    case NotObject => 0.0
    case Entry(_, _, Given(s), _) => s
    case Entry(_, _, Absent, Given(s)) => s
    case _ => n as real - position as real
  }

  ghost predicate HasResult(es: seq<ResultEntry>, n: nat, x: int) {
    exists i :: 0 <= i < |es| && Names(es[i], n, x)
  }

  /** The result at `i` is better than every result of candidate `y`: by its score, or by its place if they tie. */
  ghost predicate BeatsAll(es: seq<ResultEntry>, n: nat, i: nat, y: int)
    requires i < |es|
  {
    forall j :: 0 <= j < |es| && Names(es[j], n, y) ==>
        var s, t := ResultScore(es[i], n, i), ResultScore(es[j], n, j); s > t || (s == t && i < j)
  }

  lemma ReadTells(e: ResultEntry, position: nat, n: nat)
    ensures var r := ReadEntry(e, position, n);
            && (forall x :: Names(e, n, x) <==> r.Some? && r.value.index == x)
            && (r.Some? ==> r.value.position == position && r.value.score == ResultScore(e, n, position))
  {
  }

  lemma HasResultNoted(es: seq<ResultEntry>, n: nat, x: int)
    ensures HasResult(es, n, x) <==> x in Scores(es, n)
    ensures x in Scores(es, n) <==> x in Listed(Indexes(Sort(Collected(es, n))), n)
  {
    hide ReadEntry, Names, Scores, Listed, Sort, Collected;
    NotedIsLast(es, n, x);
    forall i: nat | i < |es| ensures Names(es[i], n, x) <==> Usable(es, n, i, x) { ReadTells(es[i], i, n); }
    if x in Scores(es, n) {
      var b := BestExists(es, n, x);
    }
    SortSorted(Collected(es, n));
    var s := Sort(Collected(es, n));
    if x in Listed(Indexes(s), n) {
      var j :| 0 <= j < |s| && Indexes(s)[j] == Given(x);
      assert s[j] in s;
      var i := PositionOf(es, n, s[j]);
    }
  }

  lemma BeatsByRank(es: seq<ResultEntry>, n: nat, p: Ranked, y: int) returns (i: nat)
    requires p in Collected(es, n) && p.index != y
    requires forall q :: q in Collected(es, n) && q.index == y ==> Before(p, q)
    ensures i < |es| && Names(es[i], n, p.index) && BeatsAll(es, n, i, y)
  {
    hide ReadEntry, Collected, Names, ResultScore;
    i :| 0 <= i < |es| && ReadEntry(es[i], i, n) == Some(p);
    ReadTells(es[i], i, n);
    forall j: nat | j < |es| && Names(es[j], n, y)
        ensures var s, t := ResultScore(es[i], n, i), ResultScore(es[j], n, j); s > t || (s == t && i < j) {
      ReadTells(es[j], j, n);
      assert ReadEntry(es[j], j, n).value in Collected(es, n);
    }
  }

  /** Exactly how results order the candidates: of two with results, the one placed earlier has a result that beats
      all results of the other; those without come after them, ascending. The noted score is that of the last
      result. */
  lemma OrderTells(es: seq<ResultEntry>, n: nat, a: nat, b: nat) returns (i: nat)
    requires ResponseTo(Payload(None, Some(es), None), n).Response?
    requires a < b < |ResponseTo(Payload(None, Some(es), None), n).order|
    ensures var r := ResponseTo(Payload(None, Some(es), None), n);
            && (HasResult(es, n, r.order[b]) ==>
                 i < |es| && Names(es[i], n, r.order[a]) && BeatsAll(es, n, i, r.order[b]))
            && (!HasResult(es, n, r.order[a]) ==> !HasResult(es, n, r.order[b]) && r.order[a] < r.order[b])
  {
    hide ReadEntry, Collected, Scores, Sort, Listed, Unlisted, Names, BeatsAll, Before, HasResult;
    var listed := Listed(Indexes(Sort(Collected(es, n))), n);
    var order := listed + Unlisted(listed, n);
    assert ResponseTo(Payload(None, Some(es), None), n).order == order;
    HasResultNoted(es, n, order[a]);
    HasResultNoted(es, n, order[b]);
    assert a >= |listed| ==> order[a] in Unlisted(listed, n);
    assert b >= |listed| ==> order[b] in Unlisted(listed, n);
    i := 0;
    if b < |listed| {
      assert order[a] in listed && order[b] in listed && order[a] != order[b];
      var p := BestExists(es, n, order[a]);
      var q := BestExists(es, n, order[b]);
      PlacedByBest(es, n, a, b, p, q);
      forall c | c in Collected(es, n) && c.index == order[b] ensures Before(p, c) { BeforeTransitive(p, q, c); }
      i := BeatsByRank(es, n, p, order[b]);
    }
  }

  /** Without readable scores the candidates keep the order in which the results first name them. */
  lemma DefaultKeepsOrder(es: seq<ResultEntry>, n: nat, a: nat, b: nat) returns (i: nat)
    requires ResponseTo(Payload(None, Some(es), None), n).Response?
    requires a < b < |ResponseTo(Payload(None, Some(es), None), n).order|
    requires forall j :: 0 <= j < |es| && es[j].Entry? ==>
        !es[j].relevance.Given? && (es[j].relevance.Absent? ==> !es[j].score.Given?)
    ensures var order := ResponseTo(Payload(None, Some(es), None), n).order;
            HasResult(es, n, order[b]) ==>
              i < |es| && Names(es[i], n, order[a]) && forall j :: 0 <= j < |es| && Names(es[j], n, order[b]) ==> i < j
  {
    hide ResponseTo, Listed, Unlisted;
    i := OrderTells(es, n, a, b);
  }

  lemma NotedTells(es: seq<ResultEntry>, n: nat, x: int, i: nat)
    requires i < |es| && Names(es[i], n, x) && forall j :: i < j < |es| ==> !Names(es[j], n, x)
    ensures x in Scores(es, n) && Scores(es, n)[x] == ResultScore(es[i], n, i)
  {
    hide ReadEntry, Scores, Names, ResultScore;
    NotedIsLast(es, n, x);
    forall j: nat | j < |es| ensures Names(es[j], n, x) <==> Usable(es, n, j, x) { ReadTells(es[j], j, n); }
    ReadTells(es[i], i, n);
    assert LastUsable(es, n, i, x);
  }

  /** An explicit order beats results, and `results` beat `data`. */
  lemma PayloadChoice(ordered: seq<Value<int>>, es: seq<ResultEntry>, rs: Option<seq<ResultEntry>>,
                      ds: Option<seq<ResultEntry>>, n: nat)
    ensures ResponseTo(Payload(Some(ordered), rs, ds), n) == ResponseTo(Payload(Some(ordered), None, None), n)
    ensures ResponseTo(Payload(None, Some(es), ds), n) == ResponseTo(Payload(None, Some(es), None), n)
    ensures ResponseTo(Payload(None, None, Some(es)), n) == ResponseTo(Payload(None, Some(es), None), n)
    ensures ResponseTo(Payload(None, None, None), n) == ResponseTo(NoObject, n) == Unavailable
  {
    hide Listed, Unlisted, Sort, Collected, Scores;
  }

  lemma BeforeSelf(b: Ranked)
    ensures Before(b, b)
  {
  }

  lemma CollectedInRange(es: seq<ResultEntry>, n: nat, b: Ranked)
    requires b in Collected(es, n)
    ensures b.index < n
  {
  }

  lemma BeforeTransitive(a: Ranked, b: Ranked, c: Ranked)
    requires Before(a, b) && Before(b, c)
    ensures Before(a, c)
  {
  }

  /** Scored candidates are placed by their best results: the best of one placed earlier comes before the
      best of one placed later. */
  lemma PlacedByBest(es: seq<ResultEntry>, n: nat, a: nat, b: nat, p: Ranked, q: Ranked)
    requires var order := Listed(Indexes(Sort(Collected(es, n))), n);
             a < b < |order| && Best(es, n, order[a], p) && Best(es, n, order[b], q)
    ensures Before(p, q)
  {
    hide Before, Listed, Sort, Collected;
    var s := Sort(Collected(es, n));
    SortSorted(Collected(es, n));
    var order := Listed(Indexes(s), n);
    var f := ListedByFirst(Indexes(s), n, a, b);
    var w := s[f];
    assert w in s && q in s;
    var j :| 0 <= j < |s| && s[j] == q;
    assert Indexes(s)[j] == Given(order[b]);
    BeforeTransitive(p, w, q);
  }

  /** The noted score of a candidate is the one that places it exactly when no earlier usable result of it
      scores above its last one. */
  lemma NotedIsPlacingExactly(es: seq<ResultEntry>, n: nat, x: int)
    requires x in Scores(es, n)
    ensures (forall b :: Best(es, n, x, b) ==> Scores(es, n)[x] == b.score)
       <==> forall i, j :: 0 <= i < j < |es| && Usable(es, n, i, x) && LastUsable(es, n, j, x) ==>
           ScoreAt(es, n, i) <= ScoreAt(es, n, j)
  {
    hide ReadEntry, Collected, Scores, Before;
    NotedIsLast(es, n, x);
    var last := LastUsableExists(es, n, x);
    var best := BestExists(es, n, x);
    var at := PositionOf(es, n, best);
    forall i | 0 <= i < |es| && Usable(es, n, i, x) ensures ScoreAt(es, n, i) <= best.score {
      BeforeScores(best, ReadEntry(es[i], i, n).value);
    }
    forall b | Best(es, n, x, b) ensures b.score == best.score {
      BeforeScores(best, b);
      BeforeScores(b, best);
    }
  }

  lemma BeforeScores(a: Ranked, b: Ranked)
    requires Before(a, b)
    ensures a.score >= b.score
  {
  }

  lemma PositionOf(es: seq<ResultEntry>, n: nat, r: Ranked) returns (i: nat)
    requires r in Collected(es, n)
    ensures i < |es| && Usable(es, n, i, r.index) && ScoreAt(es, n, i) == r.score
  {
    hide ReadEntry;
    i :| 0 <= i < |es| && ReadEntry(es[i], i, n) == Some(r);
  }

  // ---------------------------------------------------------------- putting the items in order

  /** A retrieved item and what the trace notes about it. */
  datatype Item = Item(
    content: string, score: int, rawScore: Option<int>, finalRank: nat,
    rerankPosition: Option<nat>, rerankScore: Option<real>, reranked: bool, attempted: bool, applied: bool)

  datatype Config = Config(enabled: bool, configured: bool, topN: int)

  /** The trace of an item at its final place; a raw score noted before stays. */
  function Traced(item: Item, rank: nat, attempted: bool, applied: bool): Item {
    item.(rawScore := if item.rawScore.Some? then item.rawScore else Some(item.score),
          finalRank := rank, attempted := attempted, applied := applied)
  }

  function TracedAll(items: seq<Item>, attempted: bool, applied: bool): (r: seq<Item>)
    ensures |r| == |items| && forall i :: 0 <= i < |items| ==> r[i] == Traced(items[i], i + 1, attempted, applied)
  {
    seq(|items|, i requires 0 <= i < |items| => Traced(items[i], i + 1, attempted, applied))
  }

  method AnnotateRerankTrace(items: seq<Item>, attempted: bool, applied: bool) returns (r: seq<Item>)
    ensures r == TracedAll(items, attempted, applied) && Marked(r, attempted, applied) && AllInPlace(items, r)
  {
    TracedTells(items, attempted, applied);
    r := [];
    for i := 0 to |items|
      invariant |r| == i && forall j :: 0 <= j < i ==> r[j] == Traced(items[j], j + 1, attempted, applied)
    {
      r := r + [Traced(items[i], i + 1, attempted, applied)];
    }
  }

  /** The item that a response puts at place `position` of the candidates. */
  function Placed(items: seq<Item>, r: Response, position: nat): Item
    requires r.Response? && position < |r.order| && 0 <= r.order[position] < |items|
  {
    var index := r.order[position];
    items[index].(rerankPosition := Some(position + 1),
                  rerankScore := if index in r.scores then Some(r.scores[index]) else items[index].rerankScore,
                  reranked := true)
  }

  /** What the reranker was asked about and answered; none when it was not asked. */
  function Asked(items: seq<Item>, query: bool, c: Config): bool {
    c.enabled && c.configured && |items| >= 2 && query && c.topN >= 2
  }

  function Top(items: seq<Item>, c: Config): nat
    requires c.topN >= 0
  {
    if c.topN <= |items| then c.topN else |items|
  }

  /** The content stays, and so does a raw score noted before; else the score is noted as the raw one. */
  ghost predicate NotesKept(before: Item, after: Item) {
    && after.content == before.content && after.score == before.score
    && (before.rawScore.Some? ==> after.rawScore == before.rawScore)
    && (before.rawScore.None? ==> after.rawScore == Some(before.score))
  }

  ghost predicate InPlace(before: Item, after: Item) {
    && NotesKept(before, after) && after.rerankPosition == before.rerankPosition
    && after.rerankScore == before.rerankScore && after.reranked == before.reranked
  }

  /** The item moved to `place`, counted from one; its score is the one given for its index, if there is one. */
  ghost predicate PlacedAs(before: Item, after: Item, place: nat, scores: map<int, real>, index: int) {
    && NotesKept(before, after) && after.reranked && after.rerankPosition == Some(place)
    && (index in scores ==> after.rerankScore == Some(scores[index]))
    && (index !in scores ==> after.rerankScore == before.rerankScore)
  }

  /** The items are ranked from one on and marked the same way. */
  ghost predicate Marked(r: seq<Item>, attempted: bool, applied: bool) {
    forall i :: 0 <= i < |r| ==> r[i].finalRank == i + 1 && r[i].attempted == attempted && r[i].applied == applied
  }

  ghost predicate AllInPlace(items: seq<Item>, r: seq<Item>) {
    |r| == |items| && forall i :: 0 <= i < |items| ==> InPlace(items[i], r[i])
  }

  /** The first items are put where the response says, the others stay. */
  ghost predicate MovedBy(items: seq<Item>, response: Response, n: nat, r: seq<Item>) {
    && response.Response? && Permutation(response.order, n) && |response.order| == n <= |items| == |r|
    && (forall i :: 0 <= i < n ==>
         && 0 <= response.order[i] < n
         && PlacedAs(items[response.order[i]], r[i], i + 1, response.scores, response.order[i]))
    && forall i :: n <= i < |items| ==> InPlace(items[i], r[i])
  }

  /** What reranking comes to: the reranker is asked when it is switched on and set up, there is a query, and it has
      at least two items to order; what it answers for the first `topN` items is applied if it is usable. */
  ghost predicate RerankTold(items: seq<Item>, query: bool, c: Config, answer: Option<Payload>, r: seq<Item>) {
    var asked := c.enabled && c.configured && query && |items| >= 2 && c.topN >= 2;
    var n: nat := if asked then (if |items| <= c.topN then |items| else c.topN) else 0;
    var usable := asked && answer.Some? && ResponseTo(answer.value, n).Response?;
    && Marked(r, asked, usable)
    && (!usable ==> AllInPlace(items, r))
    && (usable ==> MovedBy(items, ResponseTo(answer.value, n), n, r))
  }

  lemma TracedTells(items: seq<Item>, attempted: bool, applied: bool)
    ensures var r := TracedAll(items, attempted, applied); Marked(r, attempted, applied) && AllInPlace(items, r)
  {
  }

  // ---------------------------------------------------------------- nothing is lost

  function Contents(items: seq<Item>): (cs: seq<string>)
    ensures |cs| == |items| && forall i :: 0 <= i < |items| ==> cs[i] == items[i].content
  {
    seq(|items|, i requires 0 <= i < |items| => items[i].content)
  }

  function Taken(cs: seq<string>, order: seq<int>): (r: seq<string>)
    requires forall i :: 0 <= i < |order| ==> 0 <= order[i] < |cs|
    ensures |r| == |order| && forall i :: 0 <= i < |order| ==> r[i] == cs[order[i]]
  {
    seq(|order|, i requires 0 <= i < |order| => cs[order[i]])
  }

  lemma TakenWithout(cs: seq<string>, order: seq<int>, i: nat)
    requires cs != [] && Permutation(order, |cs|) && i < |order| && order[i] == |cs| - 1
    requires forall j :: 0 <= j < |order| ==> 0 <= order[j] < |cs|
    ensures var rest := order[..i] + order[i + 1..];
            && (forall j :: 0 <= j < |rest| ==> 0 <= rest[j] < |cs| - 1)
            && Taken(cs, order) == Taken(cs[..|cs| - 1], rest)[..i] + [cs[|cs| - 1]] + Taken(cs[..|cs| - 1], rest)[i..]
  {
    var rest := order[..i] + order[i + 1..];
    assert forall j :: 0 <= j < |rest| ==> rest[j] == order[if j < i then j else j + 1];
    assert forall j :: 0 <= j < |order| && order[j] == |cs| - 1 ==> j == i;
  }

  lemma MultisetInsert(u: seq<string>, i: nat, x: string)
    requires i <= |u|
    ensures multiset(u[..i] + [x] + u[i..]) == multiset(u) + multiset{x}
  {
    assert u == u[..i] + u[i..];
  }

  /** Taking a sequence in the order of a permutation keeps its multiset. */
  lemma {:induction false} TakenKeepsAll(cs: seq<string>, order: seq<int>)
    requires Permutation(order, |cs|)
    requires forall i :: 0 <= i < |order| ==> 0 <= order[i] < |cs|
    ensures multiset(Taken(cs, order)) == multiset(cs)
  {
    hide Permutation, Taken;
    PermutationLength(order, |cs|);
    if cs == [] {
      assert Taken(cs, order) == [];
    } else {
      var n := |cs| - 1;
      var i := PlaceOf(order, |cs|, n);
      var rest := order[..i] + order[i + 1..];
      WithoutLargest(order, n + 1, i);
      TakenWithout(cs, order, i);
      TakenKeepsAll(cs[..n], rest);
      MultisetInsert(Taken(cs[..n], rest), i, cs[n]);
      assert cs == cs[..n] + [cs[n]];
    }
  }

  lemma PlaceOf(s: seq<int>, n: nat, x: int) returns (i: nat)
    requires Permutation(s, n) && 0 <= x < n
    ensures i < |s| && s[i] == x
  {
    assert x in s;
    i :| 0 <= i < |s| && s[i] == x;
  }

  lemma InRange(order: seq<int>, n: nat)
    requires Permutation(order, n)
    ensures forall i :: 0 <= i < |order| ==> 0 <= order[i] < n
  {
    assert forall i :: 0 <= i < |order| ==> order[i] in order;
  }

  lemma TracedContents(items: seq<Item>, attempted: bool, applied: bool)
    ensures Contents(TracedAll(items, attempted, applied)) == Contents(items)
  {
  }

  /** Items taken in the order of a permutation, followed by the items beyond, are the same items. */
  lemma RerankedContents(items: seq<Item>, order: seq<int>, n: nat, r: seq<Item>)
    requires n <= |items| == |r| && Permutation(order, n) && |order| == n
    requires forall i :: 0 <= i < n ==> 0 <= order[i] < n && r[i].content == items[order[i]].content
    requires forall i :: n <= i < |items| ==> r[i].content == items[i].content
    ensures multiset(Contents(r)) == multiset(Contents(items))
  {
    hide Permutation;
    var cs := Contents(items);
    var head, tail := cs[..n], cs[n..];
    TakenKeepsAll(head, order);
    assert Contents(r) == Taken(head, order) + tail;
    assert cs == head + tail;
  }

  lemma ScoredEntry(index: nat, score: real, position: nat, n: nat)
    requires index < n
    ensures ReadEntry(Entry(Given(index), Absent, Given(score), Absent), position, n)
        == Some(Ranked(index, score, position))
  {
  }

  const Twice :=
      [Entry(Given(0), Absent, Given(9.0), Absent), Entry(Given(1), Absent, Given(5.0), Absent),
          Entry(Given(0), Absent, Given(1.0), Absent)]
  const TwiceRanked := [Ranked(0, 9.0, 0), Ranked(1, 5.0, 1), Ranked(0, 1.0, 2)]

  lemma CollectedNext(es: seq<ResultEntry>, e: ResultEntry, n: nat)
    ensures var r := ReadEntry(e, |es|, n);
            r.Some? ==> Collected(es + [e], n) == Collected(es, n) + [r.value]
                        && Scores(es + [e], n) == Scores(es, n)[r.value.index := r.value.score]
  {
    hide ReadEntry;
    assert (es + [e])[..|es|] == es;
  }

  lemma ThreeCollected(es: seq<ResultEntry>, rs: seq<Ranked>, n: nat)
    requires |es| == |rs| == 3 && forall i :: 0 <= i < 3 ==> ReadEntry(es[i], i, n) == Some(rs[i])
    ensures Collected(es, n) == rs
    ensures Scores(es, n) == map[][rs[0].index := rs[0].score][rs[1].index := rs[1].score][rs[2].index := rs[2].score]
  {
    assert Collected([], n) == [] && Scores([], n) == map[];
    hide ReadEntry, Collected, Scores;
    assert es[..0] == [] && es[..0] + [es[0]] == es[..1] && es[..1] + [es[1]] == es[..2] && es[..2] + [es[2]] == es;
    CollectedNext(es[..0], es[0], n);
    CollectedNext(es[..1], es[1], n);
    CollectedNext(es[..2], es[2], n);
    assert rs == [rs[0], rs[1], rs[2]];
  }

  lemma TwiceCollected()
    ensures Collected(Twice, 2) == TwiceRanked && Scores(Twice, 2) == map[0 := 1.0, 1 := 5.0]
  {
    ScoredEntry(0, 9.0, 0, 2);
    ScoredEntry(1, 5.0, 1, 2);
    ScoredEntry(0, 1.0, 2, 2);
    hide ReadEntry, Collected, Scores;
    ThreeCollected(Twice, TwiceRanked, 2);
  }

  lemma TwiceSorted()
    ensures Sort(TwiceRanked) == TwiceRanked
  {
    var one, two := [TwiceRanked[0]], [TwiceRanked[0], TwiceRanked[1]];
    assert TwiceRanked[..2] == two && two[..1] == one && one[..0] == [];
    assert Sort(one) == one && Sort(two) == two;
  }

  lemma TwiceListed()
    ensures var listed := Listed(Indexes(TwiceRanked), 2); listed == [0, 1] && Unlisted(listed, 2) == []
  {
    var three := Indexes(TwiceRanked);
    var one, two := three[..1], three[..2];
    assert two[..1] == one && one[..0] == [];
    assert Listed(one, 2) == [0] && Listed(two, 2) == [0, 1] && Listed(three, 2) == [0, 1];
    assert Unlisted([0, 1], 0) == [] && Unlisted([0, 1], 1) == [];
  }

  /** When a payload scores a candidate twice, its best result places it but its last score is noted: here
      candidate 0 is placed first with a noted score below that of candidate 1. */
  lemma NotedScoreIsLast()
    ensures ResponseTo(Payload(None, Some(Twice), None), 2) == Response([0, 1], map[0 := 1.0, 1 := 5.0])
  {
    hide Collected, Sort, Listed, Unlisted, Scores, Twice, TwiceRanked;
    TwiceCollected();
    TwiceSorted();
    TwiceListed();
    assert TwiceRanked != [] by { TwiceSome(); }
    assert [0, 1] + [] == [0, 1];
  }

  lemma TwiceSome()
    ensures TwiceRanked != []
  {
  }

  // ---------------------------------------------------------------- reranking

  method TakeInOrder(items: seq<Item>, response: Response) returns (reranked: seq<Item>)
    requires response.Response? && forall i :: 0 <= i < |response.order| ==> 0 <= response.order[i] < |items|
    ensures |reranked| == |response.order|
    ensures forall i :: 0 <= i < |reranked| ==> reranked[i] == Placed(items, response, i)
  {
    reranked := [];
    for position := 0 to |response.order|
      invariant |reranked| == position
      invariant forall j :: 0 <= j < position ==> reranked[j] == Placed(items, response, j)
    {
      reranked := reranked + [Placed(items, response, position)];
    }
  }

  /** The result of a reranking: the first `n` items in the order of the response, the others in place,
      and every item with its rank. */
  ghost predicate RerankedBy(items: seq<Item>, response: Response, n: nat, r: seq<Item>) {
    && response.Response? && n <= |items| == |r|
    && Permutation(response.order, n) && |response.order| == n
    && (forall i :: 0 <= i < n ==> 0 <= response.order[i] < n)
    && (forall i :: 0 <= i < n ==> r[i] == Traced(Placed(items, response, i), i + 1, true, true))
    && (forall i :: n <= i < |items| ==> r[i] == Traced(items[i], i + 1, true, true))
  }

  lemma RerankedTells(items: seq<Item>, response: Response, n: nat, r: seq<Item>)
    requires RerankedBy(items, response, n, r)
    ensures Marked(r, true, true) && MovedBy(items, response, n, r)
  {
    hide Permutation;
  }

  method ApplyResponse(items: seq<Item>, response: Response, n: nat) returns (r: seq<Item>)
    requires response.Response? && n <= |items| && Permutation(response.order, n) && |response.order| == n
    ensures RerankedBy(items, response, n, r)
  {
    hide Permutation;
    InRange(response.order, n);
    var reranked := TakeInOrder(items, response);
    r := AnnotateRerankTrace(reranked + items[n..], true, true);
  }

  lemma RerankedKeepsAll(items: seq<Item>, response: Response, n: nat, r: seq<Item>)
    requires RerankedBy(items, response, n, r)
    ensures |r| == |items| && multiset(Contents(r)) == multiset(Contents(items))
  {
    hide Permutation;
    RerankedContents(items, response.order, n, r);
  }

  /** `query` tells that the query is not blank; `answer` is the payload, or none when the call failed. No
      item is lost or added: either all stay in place, or they are reranked by the response. */
  method RerankRetrievalItems(items: seq<Item>, query: bool, c: Config, answer: Option<Payload>) returns (r: seq<Item>)
    ensures |r| == |items| && multiset(Contents(r)) == multiset(Contents(items))
    ensures !Asked(items, query, c) ==> r == TracedAll(items, false, false)
    ensures Asked(items, query, c) ==>
              var n := Top(items, c);
              var response := if answer.None? then Unavailable else ResponseTo(answer.value, n);
              if response.Unavailable? then r == TracedAll(items, true, false) else RerankedBy(items, response, n, r)
    ensures RerankTold(items, query, c, answer, r)
  {
    hide ResponseTo, Permutation, RerankedBy, TracedAll, Contents, Marked, AllInPlace, MovedBy;
    TracedContents(items, false, false);
    TracedContents(items, true, false);
    if !c.enabled || !c.configured || |items| < 2 || !query {
      r := AnnotateRerankTrace(items, false, false);
      return;
    }
    var top := if c.topN < |items| then c.topN else |items|;
    if top < 2 {
      r := AnnotateRerankTrace(items, false, false);
      return;
    }
    var response := Unavailable;
    if answer.Some? {
      response := ParseResponse(answer.value, top);
      ResponseIsPermutation(answer.value, top);
    }
    if response.Unavailable? {
      r := AnnotateRerankTrace(items, true, false);
      return;
    }
    r := ApplyResponse(items, response, top);
    RerankedKeepsAll(items, response, top, r);
    RerankedTells(items, response, top, r);
  }
}
