/** Cutting a file into retrieval chunks. */
module MarkdownChunks {
  import opened Text
  import opened LineRanges

  /** What a chunk id names; `IdText` is the string the program stores. */
  datatype ChunkKey =
    | FullFile | FullFilePart(part: nat)
    | Preface | PrefacePart(part: nat)
    | Section(section: nat) | SectionPart(section: nat, part: nat)
    | Lines(first: nat, last: nat)

  datatype Chunk = Chunk(id: string, start: int, end: int, baseStart: int, baseEnd: int)

  function IdText(k: ChunkKey): string {
    match k
    case FullFile => "full-file"
    case FullFilePart(i) => "full-file-" + Decimal(i)
    case Preface => "preface"
    case PrefacePart(i) => "preface-" + Decimal(i)
    case Section(i) => "section-" + Decimal(i)
    case SectionPart(i, j) => "section-" + Decimal(i) + "-" + Decimal(j)
    case Lines(a, b) => "lines-" + Decimal(a) + "-" + Decimal(b)
  }

  lemma SamePrefix(p: string, a: string, b: string)
    requires p + a == p + b
    ensures a == b
  {
    assert (p + a)[|p|..] == a && (p + b)[|p|..] == b;
  }

  /** The first letter and the number of dashes tell the kind of key. */
  function Shape(k: ChunkKey): (char, nat) {
    match k
    case FullFile => ('f', 1)
    case FullFilePart(_) => ('f', 2)
    case Preface => ('p', 0)
    case PrefacePart(_) => ('p', 1)
    case Section(_) => ('s', 1)
    case SectionPart(_, _) => ('s', 2)
    case Lines(_, _) => ('l', 2)
  }

  lemma ShapeOfText(k: ChunkKey)
    ensures IdText(k) != "" && IdText(k)[0] == Shape(k).0 && Dashes(IdText(k)) == Shape(k).1
  {
    hide Decimal, Dashes;
    match k
    case FullFile => Literals();
    case Preface => Literals();
    case FullFilePart(i) => OneNumber("full-file-", i); Literals();
    case PrefacePart(i) => OneNumber("preface-", i); Literals();
    case Section(i) => OneNumber("section-", i); Literals();
    case SectionPart(i, j) => TwoNumbers("section-", i, j); Literals();
    case Lines(i, j) => TwoNumbers("lines-", i, j); Literals();
  }

  /** One dash between two dash-free words. */
  lemma OneDash(a: string, b: string)
    requires '-' !in a && '-' !in b
    ensures Dashes(a + "-" + b) == 1
  {
    DashesJoin(a + "-", b);
    DashesJoin(a, "-");
    NoDashes(a);
    NoDashes(b);
    assert Dashes("-") == 1;
  }

  lemma Literals()
    ensures Dashes("full-file") == 1 && Dashes("full-file-") == 2 && Dashes("preface") == 0 && Dashes("preface-") == 1
    ensures Dashes("section-") == 1 && Dashes("lines-") == 1
  {
    hide Dashes;
    OneDash("full", "file");
    assert "full" + "-" + "file" == "full-file";
    OneDash("preface", "");
    assert "preface" + "-" + "" == "preface-";
    OneDash("section", "");
    assert "section" + "-" + "" == "section-";
    OneDash("lines", "");
    assert "lines" + "-" + "" == "lines-";
    NoDashes("preface");
    OneDash("", "");
    DashesJoin("full-file", "-");
    assert "full-file" + "-" == "full-file-" && "" + "-" + "" == "-";
  }

  lemma OneNumber(p: string, i: nat)
    ensures Dashes(p + Decimal(i)) == Dashes(p)
  {
    DashesJoin(p, Decimal(i));
    NoDashes(Decimal(i));
  }

  lemma TwoNumbers(p: string, i: nat, j: nat)
    ensures Dashes(p + Decimal(i) + "-" + Decimal(j)) == Dashes(p) + 1
  {
    hide Decimal;
    OneNumber(p, i);
    DashesJoin(p + Decimal(i), "-");
    DashesJoin(p + Decimal(i) + "-", Decimal(j));
    NoDashes(Decimal(j));
  }

  /** Different keys never print to the same id. */
  lemma IdTextInjective(k: ChunkKey, m: ChunkKey)
    requires IdText(k) == IdText(m)
    ensures k == m
  {
    hide Decimal, Dashes;
    ShapeOfText(k);
    ShapeOfText(m);
    match k
    case FullFile =>
    case Preface =>
    case FullFilePart(i) => SamePrefix("full-file-", Decimal(i), Decimal(m.part)); DecimalInjective(i, m.part);
    case PrefacePart(i) => SamePrefix("preface-", Decimal(i), Decimal(m.part)); DecimalInjective(i, m.part);
    case Section(i) => SamePrefix("section-", Decimal(i), Decimal(m.section)); DecimalInjective(i, m.section);
    case SectionPart(i, x) => PairInjective("section-", i, x, m.section, m.part);
    case Lines(i, x) => PairInjective("lines-", i, x, m.first, m.last);
  }

  lemma PairInjective(p: string, i: nat, x: nat, j: nat, y: nat)
    requires p + Decimal(i) + "-" + Decimal(x) == p + Decimal(j) + "-" + Decimal(y)
    ensures i == j && x == y
  {
    hide Decimal;
    SameTails(p, Decimal(i), Decimal(x), Decimal(j), Decimal(y));
    SplitAtDash(Decimal(i), Decimal(x), Decimal(j), Decimal(y));
    DecimalInjective(i, j);
    DecimalInjective(x, y);
  }

  lemma SameTails(p: string, a: string, b: string, c: string, d: string)
    requires p + a + "-" + b == p + c + "-" + d
    ensures a + "-" + b == c + "-" + d
  {
    assert p + a + "-" + b == p + (a + "-" + b);
    assert p + c + "-" + d == p + (c + "-" + d);
    SamePrefix(p, a + "-" + b, c + "-" + d);
  }

  // ---------------------------------------------------------------- regions

  /** A part of the file that is cut on its own: all of it, the preface, or a heading's section. */
  datatype Region = WholeFile | PrefaceRegion | SectionRegion(index: nat)

  /** The key of segment `i` (from 1) of `count`. */
  function KeyFor(r: Region, i: nat, count: nat): ChunkKey {
    match r
    case WholeFile => if count == 1 then FullFile else FullFilePart(i)
    case PrefaceRegion => if count == 1 then Preface else PrefacePart(i)
    case SectionRegion(k) => if count == 1 then Section(k) else SectionPart(k, i)
  }

  predicate HasText(lines: seq<Line>, a: int, b: int)
    requires InFile(lines, a, b)
  {
    exists n :: a <= n <= b && !BlankLine(lines, n)
  }

  /** The chunk made from segment `i` of the cut `rs`. */
  ghost predicate ChunkOf(lines: seq<Line>, r: Region, rs: seq<Range>, i: nat, overlap: int, c: Chunk)
    requires i < |rs|
  {
    && c.id == IdText(KeyFor(r, i + 1, |rs|)) && (c.baseStart, c.baseEnd) == rs[i] && c.end == c.baseEnd
    && 1 <= c.baseStart <= c.baseEnd <= |lines| && BackedUp(lines, c.baseStart, c.start, overlap)
    && 1 <= c.start && HasText(lines, c.start, c.end)
  }

  /** Ranges as a cut yields them: one range, or several that start on text. */
  ghost predicate Cuttings(lines: seq<Line>, first: int, last: int, rs: seq<Range>) {
    && (forall i :: 0 <= i < |rs| ==> 1 <= first <= rs[i].0 <= rs[i].1 <= last <= |lines|)
    && (forall i :: 0 <= i < |rs| && (|rs| != 1 || rs[i] != (first, last)) ==> !BlankLine(lines, rs[i].0))
    && (forall i, j :: 0 <= i < j < |rs| ==> rs[i].1 < rs[j].0)
  }

  /** A region of blank lines, left whole. */
  ghost predicate BlankRegion(lines: seq<Line>, first: int, last: int, rs: seq<Range>)
    requires InFile(lines, first, last)
  {
    rs == [(first, last)] && !HasText(lines, first, last)
  }

  /** The chunks of one region: one for each range, unless the region is a blank one. */
  method EmitChunks(lines: seq<Line>, r: Region, rs: seq<Range>, overlap: int, ghost first: int, ghost last: int)
    returns (chunks: seq<Chunk>)
    requires InFile(lines, first, last) && Cuttings(lines, first, last, rs)
    requires if r.SectionRegion? then first <= |lines| && !BlankLine(lines, first) else first == 1
    ensures if BlankRegion(lines, first, last, rs) then chunks == []
            else |chunks| == |rs| && forall i :: 0 <= i < |rs| ==> ChunkOf(lines, r, rs, i, overlap, chunks[i])
  {
    hide BackedUp, IdText, KeyFor;
    chunks := [];
    for i := 0 to |rs|
      invariant BlankRegion(lines, first, last, rs) ==> chunks == []
      invariant !BlankRegion(lines, first, last, rs) ==> |chunks| == i && forall j :: 0 <= j < i ==>
          ChunkOf(lines, r, rs, j, overlap, chunks[j])
    {
      var start, end := ExpandRangeWithOverlap(lines, rs[i].0, rs[i].1, overlap);
      ChunkHasText(lines, r, rs, i, first, last, start);
      if HasText(lines, start, end) {
        chunks := chunks + [Chunk(IdText(KeyFor(r, i + 1, |rs|)), start, end, rs[i].0, rs[i].1)];
      }
    }
  }

  lemma ChunkHasText(lines: seq<Line>, r: Region, rs: seq<Range>, i: nat, first: int, last: int, start: int)
    requires InFile(lines, first, last) && Cuttings(lines, first, last, rs) && i < |rs| && 1 <= start <= rs[i].0
    requires if r.SectionRegion? then first <= |lines| && !BlankLine(lines, first) else first == 1
    ensures HasText(lines, start, rs[i].1) <==> !BlankRegion(lines, first, last, rs)
  {
    if |rs| != 1 || rs[i] != (first, last) {
      assert !BlankLine(lines, rs[i].0);
    } else {
      assert rs == [(first, last)];
    }
  }

  /** What a cut of one region is: ordered, in bounds, within the size limit; and it covers the text of
      the region unless the region is one that loses text. */
  ghost predicate RegionCut(lines: seq<Line>, first: int, last: int, size: int, rs: seq<Range>)
    requires InFile(lines, first, last)
  {
    && Cuttings(lines, first, last, rs)
    && (size > 0 ==> forall i :: 0 <= i < |rs| ==> rs[i].1 - rs[i].0 + 1 <= size)
    && (Covers(lines, first, last, rs) <==> !(TooLong(first, last, size) && LosesText(lines, first, last, size)))
  }

  lemma {:induction false} PiecesOrdered(lines: seq<Line>, first: int, last: int, size: int, rs: seq<Range>, i: nat,
                                         j: nat)
    requires InFile(lines, first, last) && size > 0 && first <= last && Pieces(lines, first, last, size, rs)
        && i < j < |rs|
    ensures rs[i].1 < rs[j].0
    decreases j - i
  {
    hide Cut, FirstCut;
    assert Follows(lines, last, size, rs[j - 1], rs[j]);
    if i < j - 1 {
      PiecesOrdered(lines, first, last, size, rs, i, j - 1);
      assert Piece(lines, first, last, size, rs[j - 1]);
    }
  }

  lemma PiecesCut(lines: seq<Line>, first: int, last: int, size: int, rs: seq<Range>)
    requires InFile(lines, first, last) && first <= last && TooLong(first, last, size)
        && Pieces(lines, first, last, size, rs)
    ensures Cuttings(lines, first, last, rs) && forall i :: 0 <= i < |rs| ==> rs[i].1 - rs[i].0 + 1 <= size
  {
    hide Cut, FirstCut;
    forall i, j | 0 <= i < j < |rs| ensures rs[i].1 < rs[j].0 {
      PiecesOrdered(lines, first, last, size, rs, i, j);
    }
    forall i | 0 <= i < |rs|
        ensures first <= rs[i].0 <= rs[i].1 <= last && !BlankLine(lines, rs[i].0) && rs[i].1 - rs[i].0 + 1 <= size {
      assert Piece(lines, first, last, size, rs[i]);
    }
  }

  method CutRegion(lines: seq<Line>, first: int, last: int, size: int) returns (rs: seq<Range>)
    requires InFile(lines, first, last) && first <= last
    ensures RegionCut(lines, first, last, size, rs) && Split(lines, first, last, size, rs)
  {
    rs := SplitRangeByMaxLines(lines, first, last, size);
    if TooLong(first, last, size) { PiecesCut(lines, first, last, size, rs); }
  }

  // ---------------------------------------------------------------- the chunks of a file

  ghost predicate ChunkOk(lines: seq<Line>, overlap: int, size: int, c: Chunk) {
    && 1 <= c.baseStart <= c.baseEnd <= |lines| && c.end == c.baseEnd
    && BackedUp(lines, c.baseStart, c.start, overlap) && 1 <= c.start && HasText(lines, c.start, c.end)
    && (size > 0 ==> c.baseEnd - c.baseStart + 1 <= size)
    && (forall n :: c.baseStart < n <= c.baseEnd ==> !HeadingLine(lines, n))
  }

  predicate HeadingLine(lines: seq<Line>, n: int)
    requires 1 <= n <= |lines|
  {
    lines[n - 1].Heading?
  }

  /** The chunks made so far, from lines up to `upto`: in line order, with distinct keys. */
  ghost predicate Sound(lines: seq<Line>, overlap: int, size: int, upto: int, chunks: seq<Chunk>, keys: seq<ChunkKey>) {
    && |keys| == |chunks|
    && (forall i :: 0 <= i < |chunks| ==>
         ChunkOk(lines, overlap, size, chunks[i]) && chunks[i].baseEnd <= upto && chunks[i].id == IdText(keys[i]))
    && (forall i, j :: 0 <= i < j < |chunks| ==> chunks[i].baseEnd < chunks[j].baseStart)
    && (forall i, j :: 0 <= i < j < |keys| ==> keys[i] != keys[j])
  }

  ghost predicate HeldBy(chunks: seq<Chunk>, n: int) {
    exists i :: 0 <= i < |chunks| && chunks[i].baseStart <= n <= chunks[i].baseEnd
  }

  ghost predicate CoversTo(lines: seq<Line>, chunks: seq<Chunk>, upto: int)
    requires upto <= |lines|
  {
    forall n :: 1 <= n <= upto && !BlankLine(lines, n) ==> HeldBy(chunks, n)
  }

  function Owner(k: ChunkKey): nat {
    if k.Section? || k.SectionPart? then k.section else 0
  }

  function KeysOf(r: Region, count: nat): (ks: seq<ChunkKey>)
    ensures |ks| == count && forall i :: 0 <= i < count ==> ks[i] == KeyFor(r, i + 1, count)
    ensures forall i, j :: 0 <= i < j < count ==> ks[i] != ks[j]
    ensures forall i :: 0 <= i < count ==> Owner(ks[i]) == if r.SectionRegion? then r.index else 0
  {
    seq(count, i requires 0 <= i < count => KeyFor(r, i + 1, count))
  }

  /** `more` are the chunks `EmitChunks` makes of a region from the cut `rs`. */
  ghost predicate RegionChunks(lines: seq<Line>, r: Region, first: int, last: int, rs: seq<Range>, overlap: int,
                               more: seq<Chunk>)
    requires InFile(lines, first, last)
  {
    if BlankRegion(lines, first, last, rs) then more == []
    else |more| == |rs| && forall i :: 0 <= i < |rs| ==> ChunkOf(lines, r, rs, i, overlap, more[i])
  }

  /** `more` are the chunks of the region, by the only way there is to split it. */
  ghost predicate RegionMade(lines: seq<Line>, r: Region, first: int, last: int, overlap: int, size: int,
                             more: seq<Chunk>)
    requires InFile(lines, first, last)
  {
    exists rs :: Split(lines, first, last, size, rs) && RegionChunks(lines, r, first, last, rs, overlap, more)
  }

  lemma HeldByJoin(a: seq<Chunk>, b: seq<Chunk>, n: int)
    ensures HeldBy(a + b, n) <==> HeldBy(a, n) || HeldBy(b, n)
  {
    if i :| 0 <= i < |a| && a[i].baseStart <= n <= a[i].baseEnd {
      assert (a + b)[i] == a[i];
    }
    if i :| 0 <= i < |b| && b[i].baseStart <= n <= b[i].baseEnd {
      assert (a + b)[|a| + i] == b[i];
    }
  }

  /** Adding the chunks of the next region keeps the chunks sound. */
  lemma SoundJoin(lines: seq<Line>, overlap: int, size: int, chunks: seq<Chunk>, keys: seq<ChunkKey>, r: Region,
                  first: int, last: int, rs: seq<Range>, more: seq<Chunk>)
    requires InFile(lines, first, last) && first <= last
    requires Sound(lines, overlap, size, first - 1, chunks, keys)
    requires RegionCut(lines, first, last, size, rs) && RegionChunks(lines, r, first, last, rs, overlap, more)
        && more != []
    requires forall n :: first < n <= last ==> !HeadingLine(lines, n)
    requires forall k :: k in keys ==> r.SectionRegion? && Owner(k) < r.index
    ensures Sound(lines, overlap, size, last, chunks + more, keys + KeysOf(r, |rs|))
  {
    hide BackedUp, IdText, KeyFor, Covers, LosesText;
    var all, ks := chunks + more, keys + KeysOf(r, |rs|);
    forall i | 0 <= i < |more|
        ensures ChunkOk(lines, overlap, size, more[i]) && first <= more[i].baseStart && more[i].baseEnd <= last {
      assert ChunkOf(lines, r, rs, i, overlap, more[i]);
    }
    forall i, j | 0 <= i < j < |all| ensures all[i].baseEnd < all[j].baseStart {
      if i >= |chunks| {
        assert rs[i - |chunks|].1 < rs[j - |chunks|].0;
      }
    }
    forall i, j | 0 <= i < j < |ks| ensures ks[i] != ks[j] {
      if i < |keys| <= j { assert ks[i] in keys; }
    }
  }

  lemma CoversJoin(lines: seq<Line>, overlap: int, size: int, chunks: seq<Chunk>, keys: seq<ChunkKey>, r: Region,
                   first: int, last: int, rs: seq<Range>, more: seq<Chunk>)
    requires InFile(lines, first, last) && first <= last && Sound(lines, overlap, size, first - 1, chunks, keys)
    requires RegionCut(lines, first, last, size, rs) && RegionChunks(lines, r, first, last, rs, overlap, more)
    ensures CoversTo(lines, chunks + more, last)
        <==> CoversTo(lines, chunks, first - 1) && Covers(lines, first, last, rs)
  {
    hide BackedUp, IdText, KeyFor, LosesText;
    forall n { SameLines(lines, r, rs, overlap, more, n); }
    forall n { HeldByJoin(chunks, more, n); }
  }

  lemma SameLines(lines: seq<Line>, r: Region, rs: seq<Range>, overlap: int, more: seq<Chunk>, n: int)
    requires more == [] || (|more| == |rs| && forall i :: 0 <= i < |rs| ==> ChunkOf(lines, r, rs, i, overlap, more[i]))
    ensures HeldBy(more, n) <==> more != [] && Holds(rs, n)
  {
    hide BackedUp, IdText, KeyFor;
    if more != [] {
      forall i | 0 <= i < |rs| ensures (more[i].baseStart, more[i].baseEnd) == rs[i] {
        assert ChunkOf(lines, r, rs, i, overlap, more[i]);
      }
      if i :| 0 <= i < |rs| && rs[i].0 <= n <= rs[i].1 { assert more[i].baseStart <= n; }
      if i :| 0 <= i < |more| && more[i].baseStart <= n <= more[i].baseEnd { assert rs[i].0 <= n; }
    }
  }

  // ---------------------------------------------------------------- the loop over headings

  function FirstHeading(lines: seq<Line>): (h: int)
    ensures 1 <= h <= |lines| + 1 && (h <= |lines| ==> HeadingLine(lines, h)) && forall n :: 1 <= n < h ==>
        !HeadingLine(lines, n)
  {
    HeadingFrom(lines, 1)
  }

  function HeadingFrom(lines: seq<Line>, a: int): (h: int)
    requires 1 <= a <= |lines| + 1
    ensures a <= h <= |lines| + 1 && (h <= |lines| ==> HeadingLine(lines, h)) && forall n :: a <= n < h ==>
        !HeadingLine(lines, n)
    decreases |lines| - a
  {
    if a > |lines| || HeadingLine(lines, a) then a else HeadingFrom(lines, a + 1)
  }

  /** The heading lines in order. */
  ghost predicate Headings(lines: seq<Line>, upto: int, hs: seq<int>)
    requires upto <= |lines|
  {
    && (forall i :: 0 <= i < |hs| ==> 1 <= hs[i] <= upto && HeadingLine(lines, hs[i]))
    && (forall i, j :: 0 <= i < j < |hs| ==> hs[i] < hs[j])
    && (forall n :: 1 <= n <= upto && HeadingLine(lines, n) ==> n in hs)
  }

  method FindHeadings(lines: seq<Line>) returns (hs: seq<int>)
    ensures Headings(lines, |lines|, hs)
  {
    hs := [];
    for index := 1 to |lines| + 1
      invariant Headings(lines, index - 1, hs)
    {
      if HeadingLine(lines, index) {
        hs := hs + [index];
      }
    }
  }

  lemma HeadingGap(lines: seq<Line>, hs: seq<int>, i: nat, n: int)
    requires Headings(lines, |lines|, hs) && i <= |hs|
    requires (i > 0 ==> hs[i - 1] < n) && (i < |hs| ==> n < hs[i]) && 1 <= n <= |lines|
    ensures !HeadingLine(lines, n)
  {
    forall j | 0 <= j < |hs| ensures hs[j] != n {
      if j < i { assert hs[j] <= hs[i - 1]; } else { assert hs[i] <= hs[j]; }
    }
  }

  function SectionEnd(lines: seq<Line>, hs: seq<int>, i: nat): int {
    if i + 1 < |hs| then hs[i + 1] - 1 else |lines|
  }

  /** The chunks are those of the part before the first heading and of the first `i` sections, in order. */
  ghost predicate MadeTo(lines: seq<Line>, hs: seq<int>, i: nat, overlap: int, size: int, chunks: seq<Chunk>)
    requires Headings(lines, |lines|, hs) && hs != [] && i <= |hs|
    decreases i
  {
    if i == 0 then
        (if hs[0] > 1 then RegionMade(lines, PrefaceRegion, 1, hs[0] - 1, overlap, size, chunks) else chunks == [])
    else exists n :: 0 <= n <= |chunks| && SectionMade(lines, hs, i, overlap, size, chunks, n)
  }

  /** The first `n` chunks are those before section `i`, the others its own. */
  ghost predicate SectionMade(lines: seq<Line>, hs: seq<int>, i: nat, overlap: int, size: int, chunks: seq<Chunk>,
                              n: nat)
    requires Headings(lines, |lines|, hs) && 0 < i <= |hs| && n <= |chunks|
    decreases i, 0
  {
    && MadeTo(lines, hs, i - 1, overlap, size, chunks[..n])
    && SectionEnd(lines, hs, i - 1) <= |lines|
    && RegionMade(lines, SectionRegion(i), hs[i - 1], SectionEnd(lines, hs, i - 1), overlap, size, chunks[n..])
  }

  /** The chunks of a whole file, from its regions. */
  ghost predicate FileMade(lines: seq<Line>, hs: seq<int>, overlap: int, size: int, chunks: seq<Chunk>)
    requires Headings(lines, |lines|, hs)
  {
    if lines == [] then chunks == []
    else if hs == [] then RegionMade(lines, WholeFile, 1, |lines|, overlap, size, chunks)
    else MadeTo(lines, hs, |hs|, overlap, size, chunks)
  }

  ghost predicate IsFileCut(lines: seq<Line>, overlap: int, size: int, chunks: seq<Chunk>) {
    exists hs :: Headings(lines, |lines|, hs) && FileMade(lines, hs, overlap, size, chunks)
  }

  lemma MadeNext(lines: seq<Line>, hs: seq<int>, i: nat, overlap: int, size: int, before: seq<Chunk>,
                 chunks: seq<Chunk>)
    requires Headings(lines, |lines|, hs) && i < |hs| && MadeTo(lines, hs, i, overlap, size, before) && before <= chunks
    requires SectionEnd(lines, hs, i) <= |lines|
        && RegionMade(lines, SectionRegion(i + 1), hs[i], SectionEnd(lines, hs, i), overlap, size, chunks[|before|..])
    ensures MadeTo(lines, hs, i + 1, overlap, size, chunks)
  {
    hide RegionMade, Headings;
    assert chunks[..|before|] == before;
    assert SectionMade(lines, hs, i + 1, overlap, size, chunks, |before|);
  }

  // ---------------------------------------------------------------- the contract determines the chunks

  lemma ChunkUnique(lines: seq<Line>, r: Region, rs: seq<Range>, i: nat, overlap: int, c: Chunk, d: Chunk)
    requires i < |rs| && ChunkOf(lines, r, rs, i, overlap, c) && ChunkOf(lines, r, rs, i, overlap, d)
    ensures c == d
  {
    hide BackedUp, IdText, KeyFor;
    BackedUpUnique(lines, c.baseStart, c.start, d.start, overlap);
  }

  lemma RegionUnique(lines: seq<Line>, r: Region, first: int, last: int, overlap: int, size: int, a: seq<Chunk>,
                     b: seq<Chunk>)
    requires InFile(lines, first, last)
    requires RegionMade(lines, r, first, last, overlap, size, a) && RegionMade(lines, r, first, last, overlap, size, b)
    ensures a == b
  {
    hide Split, ChunkOf;
    var rs :| Split(lines, first, last, size, rs) && RegionChunks(lines, r, first, last, rs, overlap, a);
    var ts :| Split(lines, first, last, size, ts) && RegionChunks(lines, r, first, last, ts, overlap, b);
    SplitUnique(lines, first, last, size, rs, ts);
    if !BlankRegion(lines, first, last, rs) {
      forall i | 0 <= i < |rs| ensures a[i] == b[i] { ChunkUnique(lines, r, rs, i, overlap, a[i], b[i]); }
    }
  }

  lemma {:induction false} MadeUnique(lines: seq<Line>, hs: seq<int>, i: nat, overlap: int, size: int, a: seq<Chunk>,
                                      b: seq<Chunk>)
    requires Headings(lines, |lines|, hs) && hs != [] && i <= |hs|
    requires MadeTo(lines, hs, i, overlap, size, a) && MadeTo(lines, hs, i, overlap, size, b)
    ensures a == b
    decreases i
  {
    hide RegionMade;
    if i == 0 {
      if hs[0] > 1 { RegionUnique(lines, PrefaceRegion, 1, hs[0] - 1, overlap, size, a, b); }
    } else {
      var n :| 0 <= n <= |a| && SectionMade(lines, hs, i, overlap, size, a, n);
      var m :| 0 <= m <= |b| && SectionMade(lines, hs, i, overlap, size, b, m);
      MadeUnique(lines, hs, i - 1, overlap, size, a[..n], b[..m]);
      RegionUnique(lines, SectionRegion(i), hs[i - 1], SectionEnd(lines, hs, i - 1), overlap, size, a[n..], b[m..]);
      assert a == a[..n] + a[n..] && b == b[..m] + b[m..];
    }
  }

  lemma HeadingsAhead(lines: seq<Line>, hs: seq<int>, ks: seq<int>, i: nat)
    requires Headings(lines, |lines|, hs) && Headings(lines, |lines|, ks) && i < |hs|
    requires i <= |ks| && forall j :: 0 <= j < i ==> hs[j] == ks[j]
    ensures i < |ks| && ks[i] <= hs[i]
  {
    assert hs[i] in ks;
    var j :| 0 <= j < |ks| && ks[j] == hs[i];
    assert j >= i;
  }

  lemma HeadingsUnique(lines: seq<Line>, hs: seq<int>, ks: seq<int>)
    requires Headings(lines, |lines|, hs) && Headings(lines, |lines|, ks)
    ensures hs == ks
  {
    hide Headings;
    for i := 0 to |hs|
      invariant i <= |ks| && forall j :: 0 <= j < i ==> hs[j] == ks[j]
    {
      HeadingsAhead(lines, hs, ks, i);
      HeadingsAhead(lines, ks, hs, i);
    }
    if |hs| < |ks| { HeadingsAhead(lines, ks, hs, |hs|); }
  }

  /** What the chunks of a markdown file have to be leaves no choice: ids, starts and ends included. */
  lemma FileCutUnique(lines: seq<Line>, overlap: int, size: int, a: seq<Chunk>, b: seq<Chunk>)
    requires IsFileCut(lines, overlap, size, a) && IsFileCut(lines, overlap, size, b)
    ensures a == b
  {
    hide RegionMade, Headings, MadeTo;
    var hs :| Headings(lines, |lines|, hs) && FileMade(lines, hs, overlap, size, a);
    var ks :| Headings(lines, |lines|, ks) && FileMade(lines, ks, overlap, size, b);
    HeadingsUnique(lines, hs, ks);
    if lines != [] {
      if hs == [] {
        RegionUnique(lines, WholeFile, 1, |lines|, overlap, size, a, b);
      } else {
        MadeUnique(lines, hs, |hs|, overlap, size, a, b);
      }
    }
  }

  // ---------------------------------------------------------------- running through the headings

  /** Cut one region and append its chunks. */
  method AddRegion(lines: seq<Line>, r: Region, first: int, last: int, overlap: int, size: int, before: seq<Chunk>,
                   ghost keys: seq<ChunkKey>)
    returns (chunks: seq<Chunk>, ghost keys': seq<ChunkKey>)
    requires InFile(lines, first, last) && first <= last && Sound(lines, overlap, size, first - 1, before, keys)
    requires forall n :: first < n <= last ==> !HeadingLine(lines, n)
    requires if r.SectionRegion? then HeadingLine(lines, first) else first == 1
    requires forall k :: k in keys ==> r.SectionRegion? && Owner(k) < r.index
    ensures Sound(lines, overlap, size, last, chunks, keys')
    ensures before <= chunks && RegionMade(lines, r, first, last, overlap, size, chunks[|before|..])
    ensures forall k :: k in keys' ==> Owner(k) <= if r.SectionRegion? then r.index else 0
    ensures CoversTo(lines, chunks, last)
        <==> CoversTo(lines, before, first - 1) && !(TooLong(first, last, size) && LosesText(lines, first, last, size))
  {
    hide LosesText, Covers, ChunkOk, CoversTo, KeyFor, IdText;
    var rs := CutRegion(lines, first, last, size);
    var more := EmitChunks(lines, r, rs, overlap, first, last);
    CoversJoin(lines, overlap, size, before, keys, r, first, last, rs, more);
    chunks, keys' := before + more, keys;
    assert chunks[|before|..] == more;
    if more != [] {
      SoundJoin(lines, overlap, size, before, keys, r, first, last, rs, more);
      keys' := keys + KeysOf(r, |rs|);
    } else {
      assert chunks == before;
    }
  }

  lemma DistinctIds(chunks: seq<Chunk>, keys: seq<ChunkKey>, i: nat, j: nat)
    requires |keys| == |chunks| && i < j < |chunks| && keys[i] != keys[j]
    requires chunks[i].id == IdText(keys[i]) && chunks[j].id == IdText(keys[j])
    ensures chunks[i].id != chunks[j].id
  {
    hide IdText;
    if chunks[i].id == chunks[j].id { IdTextInjective(keys[i], keys[j]); }
  }

  lemma HeadingText(lines: seq<Line>, n: int, last: int, size: int)
    requires 1 <= n <= last <= |lines| && HeadingLine(lines, n)
    ensures !(TooLong(n, last, size) && LosesText(lines, n, last, size))
  {
    if TooLong(n, last, size) { TextStartKeepsAll(lines, n, last, size); }
  }

  // ---------------------------------------------------------------- what the chunks show

  /** A chunk shows the lines of its overlap as well. */
  ghost predicate ShownBy(chunks: seq<Chunk>, n: int) {
    exists i :: 0 <= i < |chunks| && chunks[i].start <= n <= chunks[i].end
  }

  ghost predicate ShowsAll(lines: seq<Line>, chunks: seq<Chunk>) {
    forall n :: 1 <= n <= |lines| && !BlankLine(lines, n) ==> ShownBy(chunks, n)
  }

  /** The line the first chunk starts on, before its overlap is added; the line after the last one when there
      is no chunk. It follows from the blank lines, the first heading and the size. */
  function FirstBase(lines: seq<Line>, size: int): (f: int)
    ensures 1 <= f <= |lines| + 1
  {
    var h := FirstHeading(lines);
    if TooLong(1, h - 1, size) then
      FirstWindowPlace(lines, 1, h - 1, size);
      FirstTextFrom(lines, FirstWindow(lines, 1, h - 1, size))
    else if HasText(lines, 1, h - 1) then 1
    else h
  }

  /** How many lines of text a chunk's overlap can bring back. */
  function Reach(lines: seq<Line>, size: int, overlap: int): int {
    if overlap > 0 && FirstBase(lines, size) <= |lines| then overlap else 0
  }

  /** The chunks made from the lines up to `upto`: the first starts on `f`, and they hold all text from there. */
  ghost predicate HoldsFrom(lines: seq<Line>, f: int, upto: int, overlap: int, chunks: seq<Chunk>)
    requires 1 <= f && upto <= |lines|
  {
    && (chunks == [] ==> upto < f) && (chunks != [] ==> chunks[0].baseStart == f)
    && (forall i :: 0 <= i < |chunks| ==> Placed(lines, f, overlap, chunks[i]))
    && (forall n :: f <= n <= upto && !BlankLine(lines, n) ==> HeldBy(chunks, n))
  }

  ghost predicate Placed(lines: seq<Line>, f: int, overlap: int, c: Chunk) {
    f <= c.baseStart <= c.baseEnd <= |lines| && c.end == c.baseEnd && 1 <= c.baseStart
        && BackedUp(lines, c.baseStart, c.start, overlap)
  }

  /** Once a too-long range has its first piece, its text is in the pieces: only blank lines separate them. */
  lemma {:induction false} PiecesHold(lines: seq<Line>, first: int, last: int, size: int, rs: seq<Range>, k: nat,
                                      n: int)
    requires InFile(lines, first, last) && size > 0 && first <= last && Pieces(lines, first, last, size, rs)
    requires k < |rs| && rs[0].0 <= n <= rs[k].1 && 1 <= n <= |lines| && !BlankLine(lines, n)
    ensures Holds(rs, n)
    decreases k
  {
    hide Cut, FirstCut;
    assert Piece(lines, first, last, size, rs[k]);
    if n < rs[k].0 {
      assert k > 0 && Follows(lines, last, size, rs[k - 1], rs[k]);
      PiecesHold(lines, first, last, size, rs, k - 1, n);
    }
  }

  /** Where the pieces of a too-long range begin. */
  lemma PiecesBegin(lines: seq<Line>, first: int, last: int, size: int, rs: seq<Range>)
    requires InFile(lines, first, last) && first <= last && TooLong(first, last, size)
    requires Pieces(lines, first, last, size, rs) && Exhausted(lines, first, last, size, rs)
    ensures var w := FirstWindow(lines, first, last, size);
            && first <= w <= last + 1 && (rs == [] <==> w > last)
            && (rs != [] ==> rs[0].0 == FirstTextFrom(lines, w))
  {
    FirstWindowPlace(lines, first, last, size);
    var w := FirstWindow(lines, first, last, size);
    if rs != [] {
      assert Piece(lines, first, last, size, rs[0]);
      FirstText(lines, w, rs[0].0, FirstTextFrom(lines, w));
    }
  }

  /** The first line a region's chunks start on; a line beyond the region when it has no chunk. */
  function RegionBase(lines: seq<Line>, first: int, last: int, size: int): int
    requires InFile(lines, first, last) && first <= last + 1
  {
    if TooLong(first, last, size) then
      FirstWindowPlace(lines, first, last, size);
      FirstTextFrom(lines, FirstWindow(lines, first, last, size))
    else if HasText(lines, first, last) then first
    else last + 1
  }

  lemma SplitBegins(lines: seq<Line>, first: int, last: int, size: int, rs: seq<Range>)
    requires InFile(lines, first, last) && first <= last && Split(lines, first, last, size, rs)
    ensures Cuttings(lines, first, last, rs)
    ensures TooLong(first, last, size) ==>
        RegionBase(lines, first, last, size) == FirstTextFrom(lines, if rs == [] then last + 1 else rs[0].0)
    ensures rs == [] ==> TooLong(first, last, size)
    ensures rs != [] && TooLong(first, last, size) ==> !BlankLine(lines, rs[0].0)
    ensures forall n :: rs != [] && rs[0].0 <= n <= last && !BlankLine(lines, n) ==> Holds(rs, n)
  {
    hide Pieces, Exhausted, Cut, FirstCut;
    if TooLong(first, last, size) {
      PiecesBegin(lines, first, last, size, rs);
      PiecesCut(lines, first, last, size, rs);
      if rs != [] {
        PiecesReach(lines, first, last, size, rs);
        forall n | rs[0].0 <= n <= last && !BlankLine(lines, n) ensures Holds(rs, n) {
          PiecesHold(lines, first, last, size, rs, |rs| - 1, n);
        }
      }
    }
  }

  lemma PiecesReach(lines: seq<Line>, first: int, last: int, size: int, rs: seq<Range>)
    requires InFile(lines, first, last) && size > 0 && first <= last && rs != []
    requires Exhausted(lines, first, last, size, rs)
    ensures forall n :: 1 <= n <= last && !BlankLine(lines, n) ==> n <= rs[|rs| - 1].1
  {
  }

  /** A region's chunks start on its base and hold all its text from there. */
  lemma RegionHolds(lines: seq<Line>, r: Region, first: int, last: int, overlap: int, size: int, more: seq<Chunk>)
    requires InFile(lines, first, last) && first <= last && RegionMade(lines, r, first, last, overlap, size, more)
    ensures more == [] ==> RegionBase(lines, first, last, size) > last
    ensures more != [] ==> more[0].baseStart == RegionBase(lines, first, last, size) <= last
    ensures HoldsFrom(lines, RegionBase(lines, first, last, size), last, overlap, more)
  {
    hide Split, BackedUp, IdText, KeyFor, RegionBase;
    var rs: seq<Range> :| Split(lines, first, last, size, rs) && RegionChunks(lines, r, first, last, rs, overlap, more);
    SplitBegins(lines, first, last, size, rs);
    forall n { SameLines(lines, r, rs, overlap, more, n); }
    BaseOf(lines, first, last, size, rs);
    if more != [] {
      forall i: nat | i < |more| ensures Placed(lines, rs[0].0, overlap, more[i]) {
        assert ChunkOf(lines, r, rs, i, overlap, more[i]);
      }
    }
  }

  lemma BaseOf(lines: seq<Line>, first: int, last: int, size: int, rs: seq<Range>)
    requires InFile(lines, first, last) && first <= last && Split(lines, first, last, size, rs)
    ensures var b := RegionBase(lines, first, last, size);
            && first <= b && (if rs == [] || BlankRegion(lines, first, last, rs) then b > last else b == rs[0].0)
  {
    hide Pieces, Exhausted;
    SplitBegins(lines, first, last, size, rs);
  }

  /** A region that starts on text has a chunk that starts on its first line. */
  lemma TextBase(lines: seq<Line>, first: int, last: int, size: int)
    requires InFile(lines, first, last) && first <= last && !BlankLine(lines, first)
    ensures RegionBase(lines, first, last, size) == first
  {
  }

  lemma JoinHolds(lines: seq<Line>, f: int, first: int, last: int, overlap: int, before: seq<Chunk>, more: seq<Chunk>)
    requires 1 <= f && 1 <= first <= last <= |lines| && !BlankLine(lines, first) && f <= first
    requires HoldsFrom(lines, f, first - 1, overlap, before) && HoldsFrom(lines, first, last, overlap, more)
    requires before == [] ==> f == first
    ensures before + more != [] && HoldsFrom(lines, f, last, overlap, before + more)
  {
    hide BackedUp;
    forall n { HeldByJoin(before, more, n); }
  }

  lemma PrefaceBase(lines: seq<Line>, hs: seq<int>, size: int)
    requires Headings(lines, |lines|, hs) && lines != []
    ensures var last := if hs == [] then |lines| else hs[0] - 1;
            var b := RegionBase(lines, 1, last, size);
            && FirstBase(lines, size) == (if b <= last then b else last + 1)
                 && (hs != [] ==> FirstBase(lines, size) <= hs[0])
  {
    HeadingsStart(lines, hs);
    var last := if hs == [] then |lines| else hs[0] - 1;
    if hs != [] { assert HeadingLine(lines, hs[0]) && !BlankLine(lines, hs[0]); }
    if TooLong(1, last, size) { FirstWindowPlace(lines, 1, last, size); }
  }

  lemma {:induction false} MadeHolds(lines: seq<Line>, hs: seq<int>, i: nat, overlap: int, size: int,
                                     chunks: seq<Chunk>)
    requires lines != [] && Headings(lines, |lines|, hs) && hs != [] && i <= |hs|
        && MadeTo(lines, hs, i, overlap, size, chunks)
    ensures var f, upto := FirstBase(lines, size), if i < |hs| then hs[i] - 1 else |lines|;
            && upto <= |lines| && HoldsFrom(lines, f, upto, overlap, chunks)
            && f <= hs[0] && (chunks == [] ==> i == 0 && f == hs[0])
    decreases i
  {
    hide RegionMade, FirstBase, RegionBase, HoldsFrom;
    PrefaceBase(lines, hs, size);
    if i == 0 {
      if hs[0] > 1 {
        RegionHolds(lines, PrefaceRegion, 1, hs[0] - 1, overlap, size, chunks);
        BaseBeyond(lines, RegionBase(lines, 1, hs[0] - 1, size), hs[0], overlap, chunks);
      } else {
        NothingHeld(lines, hs[0], overlap);
      }
    } else {
      var n :| 0 <= n <= |chunks| && SectionMade(lines, hs, i, overlap, size, chunks, n);
      MadeHolds(lines, hs, i - 1, overlap, size, chunks[..n]);
      var first, last := hs[i - 1], SectionEnd(lines, hs, i - 1);
      SectionBounds(lines, hs, i - 1);
      RegionHolds(lines, SectionRegion(i), first, last, overlap, size, chunks[n..]);
      TextBase(lines, first, last, size);
      JoinHolds(lines, FirstBase(lines, size), first, last, overlap, chunks[..n], chunks[n..]);
      assert chunks == chunks[..n] + chunks[n..];
    }
  }

  /** Without chunks, the base can be taken at the next line. */
  lemma BaseBeyond(lines: seq<Line>, b: int, next: int, overlap: int, chunks: seq<Chunk>)
    requires 1 <= b && 1 <= next <= |lines| + 1 && HoldsFrom(lines, b, next - 1, overlap, chunks)
    ensures chunks == [] ==> b >= next && HoldsFrom(lines, next, next - 1, overlap, chunks)
  {
  }

  lemma NothingHeld(lines: seq<Line>, next: int, overlap: int)
    requires 1 <= next <= |lines| + 1
    ensures HoldsFrom(lines, next, next - 1, overlap, [])
  {
  }

  /** The chunks of a file start on its base line and hold all text from there. */
  lemma FileHolds(lines: seq<Line>, overlap: int, size: int, chunks: seq<Chunk>)
    requires IsFileCut(lines, overlap, size, chunks)
    ensures HoldsFrom(lines, FirstBase(lines, size), |lines|, overlap, chunks)
    ensures chunks == [] <==> FirstBase(lines, size) == |lines| + 1
  {
    hide RegionMade, FirstBase, RegionBase, MadeTo, Headings, Placed;
    var hs :| Headings(lines, |lines|, hs) && FileMade(lines, hs, overlap, size, chunks);
    if lines == [] {
      NothingHeld(lines, 1, overlap);
      assert FirstBase(lines, size) == 1;
    } else {
      PrefaceBase(lines, hs, size);
      if hs == [] {
        RegionHolds(lines, WholeFile, 1, |lines|, overlap, size, chunks);
        BaseBeyond(lines, RegionBase(lines, 1, |lines|, size), |lines| + 1, overlap, chunks);
      } else {
        MadeHolds(lines, hs, |hs|, overlap, size, chunks);
        SectionBounds(lines, hs, 0);
      }
    }
  }

  /** With few enough lines of text before the base, the first chunk's overlap brings all of them back. */
  lemma OverlapShows(lines: seq<Line>, f: int, overlap: int, chunks: seq<Chunk>, n: int)
    requires 1 <= f <= |lines| + 1 && HoldsFrom(lines, f, |lines|, overlap, chunks)
    requires TextCount(lines, 1, f - 1) <= (if overlap > 0 && chunks != [] then overlap else 0)
    requires 1 <= n <= |lines| && !BlankLine(lines, n)
    ensures ShownBy(chunks, n)
  {
    if n >= f {
      var i :| 0 <= i < |chunks| && chunks[i].baseStart <= n <= chunks[i].baseEnd;
      assert Placed(lines, f, overlap, chunks[i]);
    } else {
      TextCountSplit(lines, 1, n, f - 1);
      TextCountFront(lines, n, f - 1);
      var c := chunks[0];
      assert Placed(lines, f, overlap, c);
      if c.start > n {
        TextCountSplit(lines, 1, c.start, f - 1);
        TextCountSplit(lines, 1, n, c.start - 1);
        TextCountFront(lines, n, c.start - 1);
      }
    }
  }

  /** Too many lines of text before the base: no chunk's overlap reaches the first of them. */
  lemma OverlapMisses(lines: seq<Line>, f: int, overlap: int, chunks: seq<Chunk>) returns (n: int)
    requires 1 <= f <= |lines| + 1 && HoldsFrom(lines, f, |lines|, overlap, chunks)
    requires TextCount(lines, 1, f - 1) > (if overlap > 0 && chunks != [] then overlap else 0)
    ensures 1 <= n <= |lines| && !BlankLine(lines, n) && !ShownBy(chunks, n)
  {
    n := FirstTextFrom(lines, 1);
    NoTextCount(lines, 1, f - 1);
    assert n < f;
    NoTextCount(lines, 1, n - 1);
    TextCountSplit(lines, 1, n, f - 1);
    forall i | 0 <= i < |chunks| ensures !(chunks[i].start <= n <= chunks[i].end) {
      var c := chunks[i];
      assert Placed(lines, f, overlap, c);
      if c.start <= n {
        TextCountSplit(lines, n, f, c.baseStart - 1);
        TextCountSplit(lines, c.start, n, c.baseStart - 1);
      }
    }
  }

  /** Exactly when the chunks show every line of text, for every overlap: when the overlap is at least the
      number of lines of text before the first chunk's base. */
  lemma ShowsExactly(lines: seq<Line>, overlap: int, size: int, chunks: seq<Chunk>)
    requires IsFileCut(lines, overlap, size, chunks)
    ensures ShowsAll(lines, chunks) <==> TextCount(lines, 1, FirstBase(lines, size) - 1) <= Reach(lines, size, overlap)
  {
    hide IsFileCut, FirstBase, HoldsFrom, ShownBy;
    FileHolds(lines, overlap, size, chunks);
    var f := FirstBase(lines, size);
    if TextCount(lines, 1, f - 1) <= Reach(lines, size, overlap) {
      forall n | 1 <= n <= |lines| && !BlankLine(lines, n) ensures ShownBy(chunks, n) {
        OverlapShows(lines, f, overlap, chunks, n);
      }
    } else {
      var n := OverlapMisses(lines, f, overlap, chunks);
    }
  }

  /** Without overlap: the chunks' own lines hold all text exactly when there is none before the base. */
  lemma CoversExactly(lines: seq<Line>, overlap: int, size: int, chunks: seq<Chunk>)
    requires IsFileCut(lines, overlap, size, chunks)
    ensures CoversTo(lines, chunks, |lines|) <==> TextCount(lines, 1, FirstBase(lines, size) - 1) == 0
  {
    hide IsFileCut, FirstBase, BackedUp;
    FileHolds(lines, overlap, size, chunks);
    var f := FirstBase(lines, size);
    NoTextCount(lines, 1, f - 1);
    forall n | 1 <= n < f ensures !HeldBy(chunks, n) {
      forall i | 0 <= i < |chunks| ensures chunks[i].baseStart > n { assert Placed(lines, f, overlap, chunks[i]); }
    }
  }

  /** Two blank lines and four of text, cut with size four: the first chunk starts on line 5, so an overlap of
      two brings the two lost lines back and a smaller one does not. */
  lemma OverlapBringsBack(chunks: seq<Chunk>, overlap: int)
    requires IsFileCut([Blank, Blank, Text, Text, Text, Text], overlap, 4, chunks)
    ensures ShowsAll([Blank, Blank, Text, Text, Text, Text], chunks) <==> overlap >= 2
  {
    hide IsFileCut, ShowsAll;
    var lines := [Blank, Blank, Text, Text, Text, Text];
    assert FirstHeading(lines) == 7;
    assert AllBlank(lines, 1, 2) && NoBlank(lines, 3, 4) && LosingWindow(lines, 1, 4);
    assert !BlankLine(lines, 5) && !AllBlank(lines, 5, 6);
    assert FirstWindow(lines, 5, 6, 4) == 5 && FirstWindow(lines, 1, 6, 4) == 5;
    assert FirstBase(lines, 4) == 5;
    assert TextCount(lines, 1, 2) == 0 && TextCount(lines, 1, 3) == 1 && TextCount(lines, 1, 4) == 2;
    ShowsExactly(lines, overlap, 4, chunks);
  }

  // ---------------------------------------------------------------- the ids, read off the chunks

  /** The number of heading lines among the first `n`. */
  function HeadingCount(lines: seq<Line>, n: nat): nat
    requires n <= |lines|
  {
    if n == 0 then 0 else HeadingCount(lines, n - 1) + if lines[n - 1] == Heading then 1 else 0
  }

  /** The section a chunk belongs to: the number of headings up to the line it starts on; 0 before the first. */
  function SectionOf(lines: seq<Line>, c: Chunk): nat {
    if 1 <= c.baseStart <= |lines| then HeadingCount(lines, c.baseStart) else 0
  }

  /** How many of the chunks belong to section `k`. */
  function PartsOf(lines: seq<Line>, chunks: seq<Chunk>, k: nat): nat {
    if chunks == [] then 0
    else PartsOf(lines, chunks[..|chunks| - 1], k) + if SectionOf(lines, chunks[|chunks| - 1]) == k then 1 else 0
  }

  function SectionName(lines: seq<Line>, k: nat): string {
    if HeadingCount(lines, |lines|) == 0 then "full-file"
    else if k == 0 then "preface"
    else "section-" + Decimal(k)
  }

  /** The id of a chunk: the name of its section, and if the section has several chunks, a dash and one more than
      the number of earlier chunks of the section. */
  function ExpectedId(lines: seq<Line>, chunks: seq<Chunk>, i: nat): string
    requires i < |chunks|
  {
    var k := SectionOf(lines, chunks[i]);
    if PartsOf(lines, chunks, k) == 1 then SectionName(lines, k)
    else SectionName(lines, k) + "-" + Decimal(PartsOf(lines, chunks[..i], k) + 1)
  }

  ghost predicate IdsTell(lines: seq<Line>, chunks: seq<Chunk>) {
    forall i :: 0 <= i < |chunks| ==> chunks[i].id == ExpectedId(lines, chunks, i)
  }

  lemma {:induction false} PartsJoin(lines: seq<Line>, a: seq<Chunk>, b: seq<Chunk>, k: nat)
    ensures PartsOf(lines, a + b, k) == PartsOf(lines, a, k) + PartsOf(lines, b, k)
  {
    hide SectionOf;
    if b == [] {
      assert a + b == a;
    } else {
      var n := |b| - 1;
      assert (a + b)[..|a + b| - 1] == a + b[..n];
      PartsJoin(lines, a, b[..n], k);
    }
  }

  lemma {:induction false} PartsOfOne(lines: seq<Line>, chunks: seq<Chunk>, s: nat, k: nat)
    requires forall i :: 0 <= i < |chunks| ==> SectionOf(lines, chunks[i]) == s
    ensures PartsOf(lines, chunks, k) == if k == s then |chunks| else 0
  {
    hide SectionOf;
    if chunks != [] { PartsOfOne(lines, chunks[..|chunks| - 1], s, k); }
  }

  lemma {:induction false} NoParts(lines: seq<Line>, chunks: seq<Chunk>, k: nat)
    requires forall i :: 0 <= i < |chunks| ==> SectionOf(lines, chunks[i]) != k
    ensures PartsOf(lines, chunks, k) == 0
  {
    hide SectionOf;
    if chunks != [] { NoParts(lines, chunks[..|chunks| - 1], k); }
  }

  /** Up to heading `i` (from 1) and before the next one, `i` heading lines are counted. */
  lemma {:induction false} CountAt(lines: seq<Line>, hs: seq<int>, i: nat, n: nat)
    requires Headings(lines, |lines|, hs) && i <= |hs| && n <= |lines|
    requires (i > 0 ==> hs[i - 1] <= n) && (i < |hs| ==> n < hs[i])
    ensures HeadingCount(lines, n) == i
    decreases n
  {
    if n > 0 {
      if i > 0 && hs[i - 1] == n {
        assert HeadingLine(lines, n);
        if i > 1 { assert hs[i - 2] < hs[i - 1]; }
        CountAt(lines, hs, i - 1, n - 1);
      } else {
        HeadingGap(lines, hs, i, n);
        CountAt(lines, hs, i, n - 1);
      }
    }
  }

  function RegionName(r: Region): string {
    match r
    case WholeFile => "full-file"
    case PrefaceRegion => "preface"
    case SectionRegion(k) => "section-" + Decimal(k)
  }

  lemma KeyText(r: Region, i: nat, count: nat)
    requires i < count
    ensures IdText(KeyFor(r, i + 1, count)) ==
        if count == 1 then RegionName(r) else RegionName(r) + "-" + Decimal(i + 1)
  {
    hide Decimal;
    assert "full-file" + "-" == "full-file-" && "preface" + "-" == "preface-";
  }

  /** The chunks of one region all belong to the section of its first line and are numbered in order. */
  lemma RegionIds(lines: seq<Line>, hs: seq<int>, s: nat, r: Region, first: int, last: int, overlap: int, size: int,
                  more: seq<Chunk>)
    requires Headings(lines, |lines|, hs) && s <= |hs|
    requires 1 <= first <= last <= |lines| && RegionMade(lines, r, first, last, overlap, size, more)
    requires (s > 0 ==> hs[s - 1] == first) && (s < |hs| ==> last < hs[s])
    ensures forall i :: 0 <= i < |more| ==> SectionOf(lines, more[i]) == s
    ensures forall i: nat :: i < |more| ==>
        more[i].id == if |more| == 1 then RegionName(r) else RegionName(r) + "-" + Decimal(i + 1)
  {
    hide Split, BackedUp, IdText, KeyFor, RegionName, Decimal, Headings;
    var rs: seq<Range> :| Split(lines, first, last, size, rs) && RegionChunks(lines, r, first, last, rs, overlap, more);
    SplitBegins(lines, first, last, size, rs);
    forall i: nat | i < |more|
        ensures SectionOf(lines, more[i]) == s
        ensures more[i].id == if |more| == 1 then RegionName(r) else RegionName(r) + "-" + Decimal(i + 1) {
      assert ChunkOf(lines, r, rs, i, overlap, more[i]);
      CountAt(lines, hs, s, rs[i].0);
      KeyText(r, i, |rs|);
    }
  }

  /** The chunks of the next section leave the ids before them and get their own. */
  lemma IdsJoin(lines: seq<Line>, before: seq<Chunk>, more: seq<Chunk>, s: nat)
    requires IdsTell(lines, before) && forall i :: 0 <= i < |before| ==> SectionOf(lines, before[i]) < s
    requires forall i :: 0 <= i < |more| ==> SectionOf(lines, more[i]) == s
    requires forall i: nat :: i < |more| ==>
        more[i].id == if |more| == 1 then SectionName(lines, s) else SectionName(lines, s) + "-" + Decimal(i + 1)
    ensures IdsTell(lines, before + more)
  {
    hide SectionOf, SectionName, Decimal, PartsOf;
    var all := before + more;
    forall k { PartsJoin(lines, before, more, k); }
    forall i | 0 <= i < |all| ensures all[i].id == ExpectedId(lines, all, i) {
      if i < |before| {
        assert all[..i] == before[..i];
        PartsOfOne(lines, more, s, SectionOf(lines, before[i]));
      } else {
        var j := i - |before|;
        assert all[..i] == before + more[..j];
        PartsJoin(lines, before, more[..j], s);
        NoParts(lines, before, s);
        PartsOfOne(lines, more, s, s);
        PartsOfOne(lines, more[..j], s, s);
      }
    }
  }

  lemma NoIds(lines: seq<Line>)
    ensures IdsTell(lines, [])
  {
  }

  lemma PrefaceIds(lines: seq<Line>, hs: seq<int>, overlap: int, size: int, chunks: seq<Chunk>)
    requires lines != [] && Headings(lines, |lines|, hs) && hs != [] && MadeTo(lines, hs, 0, overlap, size, chunks)
    ensures IdsTell(lines, chunks) && forall j :: 0 <= j < |chunks| ==> SectionOf(lines, chunks[j]) == 0
  {
    hide RegionMade, SectionOf, IdsTell, HeadingCount, Decimal;
    NoIds(lines);
    CountAt(lines, hs, |hs|, |lines|);
    if hs[0] > 1 {
      RegionIds(lines, hs, 0, PrefaceRegion, 1, hs[0] - 1, overlap, size, chunks);
      hide Headings;
      IdsJoin(lines, [], chunks, 0);
      assert [] + chunks == chunks;
    }
  }

  lemma SectionIds(lines: seq<Line>, hs: seq<int>, i: nat, overlap: int, size: int, more: seq<Chunk>)
    requires lines != [] && Headings(lines, |lines|, hs) && 0 < i <= |hs| && SectionEnd(lines, hs, i - 1) <= |lines|
    requires RegionMade(lines, SectionRegion(i), hs[i - 1], SectionEnd(lines, hs, i - 1), overlap, size, more)
    ensures forall j :: 0 <= j < |more| ==> SectionOf(lines, more[j]) == i
    ensures forall j: nat :: j < |more| ==>
        more[j].id == if |more| == 1 then SectionName(lines, i) else SectionName(lines, i) + "-" + Decimal(j + 1)
  {
    hide RegionMade, SectionOf, HeadingCount, Decimal;
    SectionBounds(lines, hs, i - 1);
    CountAt(lines, hs, |hs|, |lines|);
    hide Headings;
    RegionIds(lines, hs, i, SectionRegion(i), hs[i - 1], SectionEnd(lines, hs, i - 1), overlap, size, more);
  }

  lemma {:induction false} MadeIds(lines: seq<Line>, hs: seq<int>, i: nat, overlap: int, size: int,
                                   chunks: seq<Chunk>)
    requires lines != [] && Headings(lines, |lines|, hs) && hs != [] && i <= |hs|
        && MadeTo(lines, hs, i, overlap, size, chunks)
    ensures IdsTell(lines, chunks) && forall j :: 0 <= j < |chunks| ==> SectionOf(lines, chunks[j]) <= i
    decreases i
  {
    hide RegionMade, SectionOf, SectionName, IdsTell, Headings, HeadingCount, Decimal;
    if i == 0 {
      PrefaceIds(lines, hs, overlap, size, chunks);
    } else {
      var n :| 0 <= n <= |chunks| && SectionMade(lines, hs, i, overlap, size, chunks, n);
      MadeIds(lines, hs, i - 1, overlap, size, chunks[..n]);
      SectionIds(lines, hs, i, overlap, size, chunks[n..]);
      IdsJoin(lines, chunks[..n], chunks[n..], i);
      assert chunks == chunks[..n] + chunks[n..];
    }
  }

  /** Every chunk's id tells its section by the headings above it and, in a section of several chunks, its place
      among them. */
  lemma FileIds(lines: seq<Line>, overlap: int, size: int, chunks: seq<Chunk>)
    requires IsFileCut(lines, overlap, size, chunks)
    ensures IdsTell(lines, chunks)
  {
    hide RegionMade, MadeTo, Headings, SectionOf, IdsTell, HeadingCount, Decimal;
    var hs :| Headings(lines, |lines|, hs) && FileMade(lines, hs, overlap, size, chunks);
    NoIds(lines);
    if lines != [] {
      if hs == [] {
        CountAt(lines, hs, 0, |lines|);
        RegionIds(lines, hs, 0, WholeFile, 1, |lines|, overlap, size, chunks);
        IdsJoin(lines, [], chunks, 0);
        assert [] + chunks == chunks;
      } else {
        MadeIds(lines, hs, |hs|, overlap, size, chunks);
      }
    }
  }

  /** The chunks of a markdown file. They come in line order with distinct ids, none longer than the limit
      before its overlap is added, and none crossing a heading; each start is backed up by the overlap. Their
      own lines hold all text exactly when the part before the first heading does not lose any; with their
      overlap they show all text exactly when it reaches the text before the first chunk. Each id tells the
      section by the number of headings above, and the part by the chunks of that section before it. */
  method BuildMarkdownChunks(lines: seq<Line>, overlap: int, size: int) returns (chunks: seq<Chunk>)
    ensures IsFileCut(lines, overlap, size, chunks)
    ensures forall i :: 0 <= i < |chunks| ==> ChunkOk(lines, overlap, size, chunks[i])
    ensures forall i, j :: 0 <= i < j < |chunks| ==>
        chunks[i].baseEnd < chunks[j].baseStart && chunks[i].id != chunks[j].id
    ensures var h := FirstHeading(lines);
            CoversTo(lines, chunks, |lines|) <==> !(TooLong(1, h - 1, size) && LosesText(lines, 1, h - 1, size))
    ensures ShowsAll(lines, chunks) <==> TextCount(lines, 1, FirstBase(lines, size) - 1) <= Reach(lines, size, overlap)
    ensures forall i :: 0 <= i < |chunks| ==> chunks[i].id == ExpectedId(lines, chunks, i)
  {
    hide ExpectedId, ChunkOk, LosesText, CoversTo, Sound, IdText, FirstHeading, Headings, RegionMade, MadeTo;
    hide ShowsAll, FirstBase, Reach;
    chunks := [];
    ghost var keys: seq<ChunkKey> := [];
    ghost var h := FirstHeading(lines);
    NoChunks(lines, overlap, size);
    if lines == [] {
      assert FileMade(lines, [], overlap, size, chunks);
      ShowsExactly(lines, overlap, size, chunks);
      FileIds(lines, overlap, size, chunks);
      return;
    }
    var headings := FindHeadings(lines);
    HeadingsStart(lines, headings);
    if headings == [] {
      chunks, keys := AddRegion(lines, WholeFile, 1, |lines|, overlap, size, chunks, keys);
      assert chunks[0..] == chunks && FileMade(lines, headings, overlap, size, chunks);
      SoundChunks(lines, overlap, size, |lines|, chunks, keys);
      ShowsExactly(lines, overlap, size, chunks);
      FileIds(lines, overlap, size, chunks);
      return;
    }
    if headings[0] > 1 {
      chunks, keys := AddRegion(lines, PrefaceRegion, 1, headings[0] - 1, overlap, size, chunks, keys);
      assert chunks[0..] == chunks;
    }
    MadeFirst(lines, headings, overlap, size, chunks);
    for index := 0 to |headings|
      invariant Sound(lines, overlap, size, (if index < |headings| then headings[index] else |lines| + 1) - 1,
          chunks, keys)
      invariant forall k :: k in keys ==> Owner(k) < index + 1
      invariant MadeTo(lines, headings, index, overlap, size, chunks)
      invariant CoversTo(lines, chunks, (if index < |headings| then headings[index] else |lines| + 1) - 1)
           <==> !(TooLong(1, h - 1, size) && LosesText(lines, 1, h - 1, size))
    {
      var start := headings[index];
      var end := if index + 1 < |headings| then headings[index + 1] - 1 else |lines|;
      SectionBounds(lines, headings, index);
      HeadingText(lines, start, end, size);
      ghost var before := chunks;
      chunks, keys := AddRegion(lines, SectionRegion(index + 1), start, end, overlap, size, chunks, keys);
      MadeNext(lines, headings, index, overlap, size, before, chunks);
    }
    assert FileMade(lines, headings, overlap, size, chunks);
    SoundChunks(lines, overlap, size, |lines|, chunks, keys);
    ShowsExactly(lines, overlap, size, chunks);
    FileIds(lines, overlap, size, chunks);
  }

  lemma NoChunks(lines: seq<Line>, overlap: int, size: int)
    ensures Sound(lines, overlap, size, 0, [], []) && CoversTo(lines, [], 0)
    ensures lines == [] ==> FirstHeading(lines) == 1 && Headings(lines, |lines|, [])
  {
  }

  lemma MadeFirst(lines: seq<Line>, hs: seq<int>, overlap: int, size: int, chunks: seq<Chunk>)
    requires Headings(lines, |lines|, hs) && hs != []
    requires if hs[0] > 1 then RegionMade(lines, PrefaceRegion, 1, hs[0] - 1, overlap, size, chunks) else chunks == []
    ensures MadeTo(lines, hs, 0, overlap, size, chunks)
  {
  }

  lemma HeadingsStart(lines: seq<Line>, hs: seq<int>)
    requires lines != [] && Headings(lines, |lines|, hs)
    ensures FirstHeading(lines) == if hs == [] then |lines| + 1 else hs[0]
    ensures hs == [] ==> forall n :: 1 <= n <= |lines| ==> !HeadingLine(lines, n)
    ensures hs != [] ==> 1 <= hs[0] <= |lines| && forall n :: 1 <= n < hs[0] ==> !HeadingLine(lines, n)
    ensures forall i :: 0 <= i < |hs| ==> 1 <= hs[i] <= |lines|
  {
    var h := FirstHeading(lines);
    if hs != [] {
      forall n | 1 <= n < hs[0] ensures !HeadingLine(lines, n) { HeadingGap(lines, hs, 0, n); }
    }
  }

  lemma SectionBounds(lines: seq<Line>, hs: seq<int>, i: nat)
    requires Headings(lines, |lines|, hs) && i < |hs|
    ensures var end := if i + 1 < |hs| then hs[i + 1] - 1 else |lines|;
            && 1 <= hs[i] <= end <= |lines| && HeadingLine(lines, hs[i])
            && forall n :: hs[i] < n <= end ==> !HeadingLine(lines, n)
  {
    var end := if i + 1 < |hs| then hs[i + 1] - 1 else |lines|;
    forall n | hs[i] < n <= end ensures !HeadingLine(lines, n) { HeadingGap(lines, hs, i + 1, n); }
  }

  lemma SoundChunks(lines: seq<Line>, overlap: int, size: int, upto: int, chunks: seq<Chunk>, keys: seq<ChunkKey>)
    requires Sound(lines, overlap, size, upto, chunks, keys)
    ensures forall i :: 0 <= i < |chunks| ==> ChunkOk(lines, overlap, size, chunks[i])
    ensures forall i, j :: 0 <= i < j < |chunks| ==>
        chunks[i].baseEnd < chunks[j].baseStart && chunks[i].id != chunks[j].id
  {
    hide IdText, ChunkOk;
    forall i, j | 0 <= i < j < |chunks| ensures chunks[i].id != chunks[j].id { DistinctIds(chunks, keys, i, j); }
  }

  // ---------------------------------------------------------------- source files

  const BLOCK := 40

  /** Block `k` (from 0) of a source file, with its start backed up. */
  ghost predicate BlockChunk(lines: seq<Line>, overlap: int, k: int, c: Chunk) {
    && 0 <= BLOCK * k < |lines|
    && c.baseStart == BLOCK * k + 1 && c.baseEnd == Min(BLOCK * k + BLOCK, |lines|) && c.end == c.baseEnd
    && BackedUp(lines, c.baseStart, c.start, overlap) && 1 <= c.start && HasText(lines, c.start, c.end)
    && c.id == IdText(Lines(c.baseStart, c.baseEnd))
  }

  ghost predicate IsBlock(lines: seq<Line>, overlap: int, c: Chunk) {
    exists k :: BlockChunk(lines, overlap, k, c)
  }

  /** Blocks begin on lines 1, 41, 81 and so on, and are named by their first and last line. */
  ghost predicate InForties(lines: seq<Line>, c: Chunk) {
    && 0 < c.baseStart <= |lines| && c.baseStart % 40 == 1
    && c.baseEnd == (if c.baseStart + 39 < |lines| then c.baseStart + 39 else |lines|)
    && c.id == "lines-" + Decimal(c.baseStart) + "-" + Decimal(c.baseEnd)
  }

  lemma BlockPlace(lines: seq<Line>, overlap: int, k: int, c: Chunk)
    requires BlockChunk(lines, overlap, k, c)
    ensures IsBlock(lines, overlap, c) && InForties(lines, c)
  {
    hide BackedUp, Decimal;
    assert (40 * k + 1) % 40 == 1;
  }

  ghost predicate RepoSound(lines: seq<Line>, overlap: int, blocks: int, chunks: seq<Chunk>, ks: seq<int>) {
    && |ks| == |chunks|
    && (forall i :: 0 <= i < |chunks| ==> 0 <= ks[i] < blocks && BlockChunk(lines, overlap, ks[i], chunks[i]))
    && (forall i, j :: 0 <= i < j < |chunks| ==> ks[i] < ks[j])
  }

  lemma RepoOrdered(lines: seq<Line>, overlap: int, blocks: int, chunks: seq<Chunk>, ks: seq<int>, i: nat, j: nat)
    requires RepoSound(lines, overlap, blocks, chunks, ks) && i < j < |chunks|
    ensures chunks[i].baseEnd < chunks[j].baseStart && chunks[i].id != chunks[j].id
  {
    hide IdText, BackedUp;
    assert BlockChunk(lines, overlap, ks[i], chunks[i]) && BlockChunk(lines, overlap, ks[j], chunks[j]);
    var a, b := Lines(chunks[i].baseStart, chunks[i].baseEnd), Lines(chunks[j].baseStart, chunks[j].baseEnd);
    if IdText(a) == IdText(b) { IdTextInjective(a, b); }
  }

  lemma NoTextToCover(lines: seq<Line>, chunks: seq<Chunk>, a: int, first: int, last: int)
    requires 1 <= a <= first <= last <= |lines| && !HasText(lines, a, last) && CoversTo(lines, chunks, first - 1)
    ensures CoversTo(lines, chunks, last)
  {
    forall n | 1 <= n <= last && !BlankLine(lines, n) ensures HeldBy(chunks, n) {
      assert n < first;
    }
  }

  /** Every chunk there is of the first `n` blocks. */
  ghost predicate Blocks(lines: seq<Line>, overlap: int, n: int, chunks: seq<Chunk>) {
    forall k, c :: k < n && BlockChunk(lines, overlap, k, c) ==> c in chunks
  }

  lemma BlocksNext(lines: seq<Line>, overlap: int, k: int, chunks: seq<Chunk>, more: seq<Chunk>, start: int)
    requires 0 <= BLOCK * k < |lines| && Blocks(lines, overlap, k, chunks)
    requires 1 <= start && BackedUp(lines, BLOCK * k + 1, start, overlap)
    requires if HasText(lines, start, Min(BLOCK * k + BLOCK, |lines|))
             then |more| == 1 && BlockChunk(lines, overlap, k, more[0]) && more[0].start == start
             else more == []
    ensures Blocks(lines, overlap, k + 1, chunks + more)
  {
    hide BackedUp, HasText, IdText;
    forall j, c | j < k + 1 && BlockChunk(lines, overlap, j, c) ensures c in chunks + more {
      if j == k {
        BackedUpUnique(lines, BLOCK * k + 1, c.start, start, overlap);
        assert c == more[0];
      }
    }
  }

  /** The chunks of a source file: all the blocks of 40 lines that have text with their overlap, in order,
      with distinct ids; they hold every line of text. */
  method BuildRepoChunks(lines: seq<Line>, overlap: int) returns (chunks: seq<Chunk>)
    ensures forall i :: 0 <= i < |chunks| ==> IsBlock(lines, overlap, chunks[i])
    ensures forall i, j :: 0 <= i < j < |chunks| ==>
        chunks[i].baseEnd < chunks[j].baseStart && chunks[i].id != chunks[j].id
    ensures CoversTo(lines, chunks, |lines|)
    ensures forall k, c :: BlockChunk(lines, overlap, k, c) ==> c in chunks
    ensures forall i :: 0 <= i < |chunks| ==> InForties(lines, chunks[i])
  {
    hide IdText, BackedUp, HasText, InForties, IsBlock, Decimal;
    chunks := [];
    ghost var ks: seq<int> := [];
    var start := 0;
    ghost var k := 0;
    while start < |lines|
      invariant start == BLOCK * k && k >= 0 && RepoSound(lines, overlap, k, chunks, ks)
      invariant CoversTo(lines, chunks, Min(start, |lines|))
      invariant Blocks(lines, overlap, k, chunks)
    {
      var baseEnd := Min(start + BLOCK, |lines|);
      var lineStart, lineEnd := ExpandRangeWithOverlap(lines, start + 1, baseEnd, overlap);
      if HasText(lines, lineStart, lineEnd) {
        var c := Chunk(IdText(Lines(start + 1, baseEnd)), lineStart, lineEnd, start + 1, baseEnd);
        assert BlockChunk(lines, overlap, k, c);
        forall n { HeldByJoin(chunks, [c], n); }
        assert forall n :: start + 1 <= n <= baseEnd ==> HeldBy([c], n) by { assert [c][0] == c; }
        BlocksNext(lines, overlap, k, chunks, [c], lineStart);
        chunks, ks := chunks + [c], ks + [k];
      } else {
        BlocksNext(lines, overlap, k, chunks, [], lineStart);
        assert chunks + [] == chunks;
        NoTextToCover(lines, chunks, lineStart, start + 1, baseEnd);
      }
      start, k := start + BLOCK, k + 1;
    }
    forall i | 0 <= i < |chunks|
        ensures IsBlock(lines, overlap, chunks[i]) && InForties(lines, chunks[i]) {
      BlockPlace(lines, overlap, ks[i], chunks[i]);
    }
    assert forall j, c :: BlockChunk(lines, overlap, j, c) ==> j < k;
    forall i, j | 0 <= i < j < |chunks|
        ensures chunks[i].baseEnd < chunks[j].baseStart && chunks[i].id != chunks[j].id {
      RepoOrdered(lines, overlap, k, chunks, ks, i, j);
    }
  }
}
