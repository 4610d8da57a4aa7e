/** Cutting a range of lines at blank lines under a size bound, and moving a start back over the
    lines before it. Line numbers count from 1, as in the program. */
module LineRanges {

  datatype Line = Blank | Text | Heading

  type Range = (int, int)

  predicate InFile(lines: seq<Line>, a: int, b: int) {
    1 <= a && b <= |lines|
  }

  predicate BlankLine(lines: seq<Line>, n: int)
    requires 1 <= n <= |lines|
  {
    lines[n - 1].Blank?
  }

  predicate AllBlank(lines: seq<Line>, a: int, b: int)
    requires InFile(lines, a, b)
  {
    forall n :: a <= n <= b ==> BlankLine(lines, n)
  }

  predicate NoBlank(lines: seq<Line>, a: int, b: int)
    requires InFile(lines, a, b)
  {
    forall n :: a <= n <= b ==> !BlankLine(lines, n)
  }

  predicate TooLong(first: int, last: int, size: int) {
    0 < size < last - first + 1
  }

  /** A window that yields no piece: blank, or one that loses its text. */
  predicate Skipped(lines: seq<Line>, w: int, hard: int, last: int)
    requires InFile(lines, w, hard)
  {
    AllBlank(lines, w, hard) || (hard < last && LosingWindow(lines, w, hard))
  }

  function WindowEnd(w: int, last: int, size: int): int {
    if w + size - 1 < last then w + size - 1 else last
  }

  /** The first window, counted from `c`, that yields a piece; `last + 1` when there is none. */
  function FirstWindow(lines: seq<Line>, c: int, last: int, size: int): int
    requires InFile(lines, c, last) && size > 0 && c <= last + 1
    decreases last - c
  {
    if c > last then c
    else if Skipped(lines, c, WindowEnd(c, last, size), last) then
        FirstWindow(lines, WindowEnd(c, last, size) + 1, last, size)
    else c
  }

  /** The text a too-long range loses. Windows of `size` lines are counted from `c`; windows of blank
      lines only are skipped. The first other window loses its text when it is not the last one, starts
      with two or more blank lines and has no other blank line. */
  predicate LosesText(lines: seq<Line>, c: int, last: int, size: int)
    requires InFile(lines, c, last) && size > 0
    decreases last - c
  {
    var hard := c + size - 1;
    && hard < last
    && if AllBlank(lines, c, hard) then LosesText(lines, c + size, last, size)
       else LosingWindow(lines, c, hard)
  }

  /** The piece `(a, b)` cut from the window that starts at `w`: it drops blank lines at both ends, and
      ends before the last blank line of the window unless the window has none or reaches the range's end. */
  ghost predicate Cut(lines: seq<Line>, w: int, a: int, b: int, last: int, size: int)
    requires InFile(lines, w, last)
  {
    var hard := if w + size - 1 < last then w + size - 1 else last;
    && w <= a <= b <= hard && AllBlank(lines, w, a - 1) && !BlankLine(lines, a) && !BlankLine(lines, b)
    && if hard == last then AllBlank(lines, b + 1, last)
       else var l := LastBlankIn(lines, w, hard);
            if l == 0 then b == hard else b < l && AllBlank(lines, b + 1, l)
  }

  /** The last blank line of `(c, hard]`; 0 when there is none. */
  function LastBlankIn(lines: seq<Line>, c: int, hard: int): (l: int)
    requires InFile(lines, c, hard)
    ensures l == 0 || (c < l <= hard && BlankLine(lines, l))
    ensures NoBlank(lines, (if l == 0 then c else l) + 1, hard)
    decreases hard - c
  {
    if hard <= c then 0 else if BlankLine(lines, hard) then hard else LastBlankIn(lines, c, hard - 1)
  }

  /** The window from `w` is not the range's last, starts with blank lines up to some `b > w`, and has
      text and nothing but text after them. */
  predicate LosingWindow(lines: seq<Line>, w: int, hard: int)
    requires InFile(lines, w, hard)
  {
    exists b :: w < b < hard && AllBlank(lines, w, b) && NoBlank(lines, b + 1, hard)
  }

  /** At most `size` lines, starting and ending on text. */
  ghost predicate Piece(lines: seq<Line>, first: int, last: int, size: int, r: Range)
    requires InFile(lines, first, last)
  {
    && first <= r.0 <= r.1 <= last && r.1 - r.0 + 1 <= size
    && !BlankLine(lines, r.0) && !BlankLine(lines, r.1)
  }

  /** `r` is cut from the window that starts with it, and only blank lines separate it from `p`. */
  ghost predicate Follows(lines: seq<Line>, last: int, size: int, p: Range, r: Range)
    requires 1 <= p.1 && 1 <= r.0 && last <= |lines| && r.0 <= last
  {
    p.1 < r.0 && AllBlank(lines, p.1 + 1, r.0 - 1) && Cut(lines, r.0, r.0, r.1, last, size)
  }

  ghost predicate FirstCut(lines: seq<Line>, first: int, last: int, size: int, r: Range)
    requires InFile(lines, first, last) && size > 0 && first <= last + 1
  {
    FirstWindow(lines, first, last, size) >= 1
        && Cut(lines, FirstWindow(lines, first, last, size), r.0, r.1, last, size)
  }

  /** The pieces of a too-long range, in order. */
  ghost predicate Pieces(lines: seq<Line>, first: int, last: int, size: int, rs: seq<Range>)
    requires InFile(lines, first, last) && size > 0 && first <= last + 1
  {
    && (forall i :: 0 <= i < |rs| ==> Piece(lines, first, last, size, rs[i]))
    && (forall i :: 0 < i < |rs| ==> Follows(lines, last, size, rs[i - 1], rs[i]))
    && (rs != [] ==> FirstCut(lines, first, last, size, rs[0]))
  }

  /** Nothing but blank lines is left after the last piece; without pieces, every window was skipped. */
  ghost predicate Exhausted(lines: seq<Line>, first: int, last: int, size: int, rs: seq<Range>)
    requires InFile(lines, first, last) && size > 0 && first <= last + 1
  {
    if rs == [] then FirstWindow(lines, first, last, size) > last
    else 1 <= rs[|rs| - 1].1 && AllBlank(lines, rs[|rs| - 1].1 + 1, last)
  }

  ghost predicate Holds(rs: seq<Range>, n: int) {
    exists i :: 0 <= i < |rs| && rs[i].0 <= n <= rs[i].1
  }

  /** Every line of text from `first` to `last` lies in a piece. */
  ghost predicate Covers(lines: seq<Line>, first: int, last: int, rs: seq<Range>)
    requires InFile(lines, first, last)
  {
    forall n :: first <= n <= last && !BlankLine(lines, n) ==> Holds(rs, n)
  }

  lemma HoldsSnoc(rs: seq<Range>, r: Range, n: int)
    ensures Holds(rs + [r], n) <==> Holds(rs, n) || r.0 <= n <= r.1
  {
    if i :| 0 <= i < |rs| && rs[i].0 <= n <= rs[i].1 {
      assert (rs + [r])[i].0 <= n;
    }
    if r.0 <= n <= r.1 {
      assert (rs + [r])[|rs|].0 <= n;
    }
  }

  lemma CutOnText(lines: seq<Line>, w: int, a: int, b: int, last: int, size: int)
    requires InFile(lines, w, last) && Cut(lines, w, a, b, last, size) && !BlankLine(lines, w)
    ensures a == w
  {
  }

  lemma PiecesSnoc(lines: seq<Line>, first: int, last: int, size: int, rs: seq<Range>, w: int, a: int, b: int)
    requires InFile(lines, first, last) && first <= w && size > 0 && first <= last + 1
    requires Pieces(lines, first, last, size, rs) && Cut(lines, w, a, b, last, size)
    requires if rs == [] then w == FirstWindow(lines, first, last, size)
             else rs[|rs| - 1].1 < w && AllBlank(lines, rs[|rs| - 1].1 + 1, w - 1) && !BlankLine(lines, w)
    ensures Pieces(lines, first, last, size, rs + [(a, b)])
  {
    assert Piece(lines, first, last, size, (a, b));
    if rs == [] {
      assert FirstCut(lines, first, last, size, (a, b));
    } else {
      CutOnText(lines, w, a, b, last, size);
      assert Follows(lines, last, size, rs[|rs| - 1], (a, b));
    }
    hide Piece, Follows, FirstCut, Cut;
    var rs' := rs + [(a, b)];
    assert forall i :: 0 <= i < |rs| ==> rs'[i] == rs[i];
  }

  method LastBlank(lines: seq<Line>, c: int, hard: int) returns (l: int)
    requires InFile(lines, c, hard) && c <= hard
    ensures l == LastBlankIn(lines, c, hard)
  {
    var candidate := hard;
    while candidate > c
      invariant c <= candidate <= hard && LastBlankIn(lines, c, hard) == LastBlankIn(lines, c, candidate)
    {
      if BlankLine(lines, candidate) {
        return candidate;
      }
      candidate := candidate - 1;
    }
    return 0;
  }

  /** One window: the piece `(a, b)` cut from it, or `a > b` when it yields none. */
  method CutWindow(lines: seq<Line>, cursor: int, last: int, size: int) returns (a: int, b: int, hard: int)
    requires InFile(lines, cursor, last) && cursor <= last && size > 0
    ensures hard == WindowEnd(cursor, last, size)
    ensures cursor <= a
    ensures a <= b ==> b <= hard && AllBlank(lines, cursor, a - 1) && Cut(lines, cursor, a, b, last, size)
    ensures a > b <==> Skipped(lines, cursor, hard, last)
    ensures a > b ==> BlankLine(lines, cursor)
  {
    hard := if cursor + size - 1 < last then cursor + size - 1 else last;
    b := hard;
    ghost var l := 0;
    if hard < last {
      var candidate := LastBlank(lines, cursor, hard);
      l := candidate;
      if candidate != 0 { b := candidate - 1; }
      if b < cursor { b := hard; }
    }
    ghost var end := b;
    a := cursor;
    while a <= b && BlankLine(lines, a)
      invariant cursor <= a <= b + 1 && AllBlank(lines, cursor, a - 1)
    {
      a := a + 1;
    }
    while b >= a && BlankLine(lines, b)
      invariant a - 1 <= b <= end && AllBlank(lines, b + 1, end)
      invariant a <= end ==> a <= b && !BlankLine(lines, a)
    {
      b := b - 1;
    }
    if a <= b {
      if l == 0 && hard < last {
        assert hard == cursor || !BlankLine(lines, hard);
      }
      forall e | cursor < e < hard && AllBlank(lines, cursor, e) && NoBlank(lines, e + 1, hard) ensures hard == last {
        assert BlankLine(lines, e);
        assert a > e;
      }
    } else if 0 < l < hard {
      assert AllBlank(lines, cursor, l);
    }
  }

  /** How far the lines before `cursor` are covered; `lost` is a line of text no piece will hold. */
  ghost predicate CoveredTo(lines: seq<Line>, first: int, last: int, size: int, rs: seq<Range>, cursor: int, lost: int)
    requires InFile(lines, first, last) && size > 0 && first <= cursor <= last + 1
  {
    if lost == -1 then
      && (forall n :: first <= n < cursor && !BlankLine(lines, n) ==> Holds(rs, n))
      && (LosesText(lines, first, last, size) <==> rs == [] && cursor <= last && LosesText(lines, cursor, last, size))
    else
      && first <= lost < cursor && !BlankLine(lines, lost) && !Holds(rs, lost) && LosesText(lines, first, last, size)
  }

  /** Where the cursor can stand: at the next window before the first piece, on text after it. */
  ghost predicate CursorOk(lines: seq<Line>, first: int, last: int, size: int, rs: seq<Range>, cursor: int)
    requires InFile(lines, first, last) && size > 0 && first <= cursor <= last + 1
  {
    if rs == [] then FirstWindow(lines, first, last, size) == FirstWindow(lines, cursor, last, size)
    else
      && first <= rs[|rs| - 1].1 < cursor && AllBlank(lines, rs[|rs| - 1].1 + 1, cursor - 1)
      && (cursor <= last ==> !BlankLine(lines, cursor))
  }

  ghost predicate LoopInv(lines: seq<Line>, first: int, last: int, size: int, rs: seq<Range>, cursor: int, lost: int)
    requires InFile(lines, first, last) && size > 0 && first <= cursor <= last + 1
  {
    && Pieces(lines, first, last, size, rs) && CursorOk(lines, first, last, size, rs, cursor)
    && CoveredTo(lines, first, last, size, rs, cursor, lost)
  }

  lemma LoopStart(lines: seq<Line>, first: int, last: int, size: int)
    requires InFile(lines, first, last) && size > 0 && first <= last
    ensures LoopInv(lines, first, last, size, [], first, -1)
  {
  }

  lemma LoopEnd(lines: seq<Line>, first: int, last: int, size: int, rs: seq<Range>, lost: int)
    requires InFile(lines, first, last) && size > 0 && first <= last
    requires LoopInv(lines, first, last, size, rs, last + 1, lost)
    ensures Pieces(lines, first, last, size, rs) && Exhausted(lines, first, last, size, rs)
    ensures Covers(lines, first, last, rs) <==> !LosesText(lines, first, last, size)
  {
    hide Pieces;
  }

  /** A window without a piece is blank, or it is where text is lost. */
  lemma SkipWindow(lines: seq<Line>, first: int, last: int, size: int, rs: seq<Range>, cursor: int, lost: int,
                   hard: int)
    requires InFile(lines, first, last) && size > 0 && first <= cursor <= last && BlankLine(lines, cursor)
    requires LoopInv(lines, first, last, size, rs, cursor, lost)
    requires hard == WindowEnd(cursor, last, size) && Skipped(lines, cursor, hard, last)
    ensures LoopInv(lines, first, last, size, rs, hard + 1, if lost == -1 && !AllBlank(lines, cursor, hard) then hard
        else lost)
  {
    hide Pieces;
    assert rs == [];
  }

  /** A window with a piece loses nothing. */
  lemma TakeWindow(lines: seq<Line>, first: int, last: int, size: int, rs: seq<Range>, cursor: int, lost: int,
                   a: int, b: int, next: int)
    requires InFile(lines, first, last) && size > 0 && first <= cursor <= last && cursor <= a <= b < next <= last + 1
    requires LoopInv(lines, first, last, size, rs, cursor, lost)
    requires Cut(lines, cursor, a, b, last, size) && AllBlank(lines, cursor, a - 1) && AllBlank(lines, b + 1, next - 1)
    requires !Skipped(lines, cursor, WindowEnd(cursor, last, size), last) && (next <= last ==> !BlankLine(lines, next))
    ensures LoopInv(lines, first, last, size, rs + [(a, b)], next, lost)
  {
    hide Pieces, Cut, Holds, AllBlank, LosesText;
    assert FirstWindow(lines, cursor, last, size) == cursor;
    hide FirstWindow;
    PiecesSnoc(lines, first, last, size, rs, cursor, a, b);
    CoverTaken(lines, first, last, size, rs, cursor, lost, a, b, next);
  }

  lemma CoverTaken(lines: seq<Line>, first: int, last: int, size: int, rs: seq<Range>, cursor: int, lost: int,
                   a: int, b: int, next: int)
    requires InFile(lines, first, last) && size > 0 && first <= cursor <= last && cursor <= a <= b < next <= last + 1
    requires CoveredTo(lines, first, last, size, rs, cursor, lost)
    requires AllBlank(lines, cursor, a - 1) && AllBlank(lines, b + 1, next - 1)
        && !Skipped(lines, cursor, WindowEnd(cursor, last, size), last)
    ensures CoveredTo(lines, first, last, size, rs + [(a, b)], next, lost)
  {
    hide Holds;
    forall n { HoldsSnoc(rs, (a, b), n); }
  }

  method SkipBlankLines(lines: seq<Line>, from: int, last: int) returns (cursor: int)
    requires InFile(lines, from, last) && from <= last + 1
    ensures from <= cursor <= last + 1 && AllBlank(lines, from, cursor - 1)
        && (cursor <= last ==> !BlankLine(lines, cursor))
  {
    cursor := from;
    while cursor <= last && BlankLine(lines, cursor)
      invariant from <= cursor <= last + 1 && AllBlank(lines, from, cursor - 1)
    {
      cursor := cursor + 1;
    }
  }

  /** The loop over windows. */
  method SplitTooLong(lines: seq<Line>, first: int, last: int, size: int) returns (rs: seq<Range>)
    requires InFile(lines, first, last) && TooLong(first, last, size)
    ensures Pieces(lines, first, last, size, rs) && Exhausted(lines, first, last, size, rs)
    ensures Covers(lines, first, last, rs) <==> !LosesText(lines, first, last, size)
  {
    hide LoopInv;
    rs := [];
    var cursor := first;
    ghost var lost := -1;
    LoopStart(lines, first, last, size);
    while cursor <= last
      invariant first <= cursor <= last + 1 && LoopInv(lines, first, last, size, rs, cursor, lost)
    {
      var a, b, hard := CutWindow(lines, cursor, last, size);
      if a > b {
        SkipWindow(lines, first, last, size, rs, cursor, lost, hard);
        lost := if lost == -1 && !AllBlank(lines, cursor, hard) then hard else lost;
        cursor := hard + 1;
      } else {
        var next := SkipBlankLines(lines, b + 1, last);
        TakeWindow(lines, first, last, size, rs, cursor, lost, a, b, next);
        rs, cursor := rs + [(a, b)], next;
      }
    }
    LoopEnd(lines, first, last, size, rs, lost);
  }

  /** What splitting a range gives: nothing for an empty one, itself if it fits, and else its pieces. */
  ghost predicate Split(lines: seq<Line>, first: int, last: int, size: int, rs: seq<Range>)
    requires InFile(lines, first, last)
  {
    if last < first then rs == []
    else if !TooLong(first, last, size) then rs == [(first, last)]
    else Pieces(lines, first, last, size, rs) && Exhausted(lines, first, last, size, rs)
  }

  method SplitRangeByMaxLines(lines: seq<Line>, first: int, last: int, size: int) returns (rs: seq<Range>)
    requires InFile(lines, first, last)
    ensures Split(lines, first, last, size, rs)
    ensures Covers(lines, first, last, rs) <==> !(TooLong(first, last, size) && LosesText(lines, first, last, size))
  {
    if last < first {
      return [];
    }
    if size <= 0 || last - first + 1 <= size {
      rs := [(first, last)];
      assert forall n :: first <= n <= last ==> Holds(rs, n) by { assert rs[0] == (first, last); }
      return;
    }
    rs := SplitTooLong(lines, first, last, size);
  }

  lemma CutUnique(lines: seq<Line>, w: int, r: Range, t: Range, last: int, size: int)
    requires InFile(lines, w, last) && Cut(lines, w, r.0, r.1, last, size) && Cut(lines, w, t.0, t.1, last, size)
    ensures r == t
  {
    FirstText(lines, w, r.0, t.0);
    var hard := if w + size - 1 < last then w + size - 1 else last;
    if hard == last {
      LastText(lines, hard, r.1, t.1);
    } else if LastBlankIn(lines, w, hard) != 0 {
      LastText(lines, LastBlankIn(lines, w, hard), r.1, t.1);
    }
  }

  lemma FirstText(lines: seq<Line>, w: int, a: int, b: int)
    requires 1 <= w <= a <= |lines| && w <= b <= |lines|
    requires AllBlank(lines, w, a - 1) && AllBlank(lines, w, b - 1) && !BlankLine(lines, a) && !BlankLine(lines, b)
    ensures a == b
  {
  }

  lemma LastText(lines: seq<Line>, l: int, a: int, b: int)
    requires 1 <= a <= l <= |lines| && 1 <= b <= l
    requires AllBlank(lines, a + 1, l) && AllBlank(lines, b + 1, l) && !BlankLine(lines, a) && !BlankLine(lines, b)
    ensures a == b
  {
  }

  lemma PieceUnique(lines: seq<Line>, first: int, last: int, size: int, rs: seq<Range>, ts: seq<Range>, i: nat)
    requires InFile(lines, first, last) && size > 0 && first <= last && i < |rs| && i < |ts|
    requires Pieces(lines, first, last, size, rs) && Pieces(lines, first, last, size, ts)
    requires i > 0 ==> rs[i - 1] == ts[i - 1]
    ensures rs[i] == ts[i]
  {
    hide Cut;
    if i == 0 {
      CutUnique(lines, FirstWindow(lines, first, last, size), rs[0], ts[0], last, size);
    } else {
      assert Follows(lines, last, size, rs[i - 1], rs[i]) && Follows(lines, last, size, ts[i - 1], ts[i]);
      assert Piece(lines, first, last, size, rs[i]) && Piece(lines, first, last, size, ts[i]);
      FirstText(lines, rs[i - 1].1 + 1, rs[i].0, ts[i].0);
      CutUnique(lines, rs[i].0, rs[i], ts[i], last, size);
    }
  }

  /** Exhausted pieces reach as far as any piece that could follow. */
  lemma ReachesPiece(lines: seq<Line>, first: int, last: int, size: int, rs: seq<Range>, ts: seq<Range>, i: nat)
    requires InFile(lines, first, last) && size > 0 && first <= last && i <= |rs| && i < |ts|
    requires Exhausted(lines, first, last, size, rs) && Piece(lines, first, last, size, ts[i])
    requires if i == 0 then FirstCut(lines, first, last, size, ts[i])
             else ts[i - 1] == rs[i - 1] && 1 <= ts[i - 1].1 && Follows(lines, last, size, ts[i - 1], ts[i])
    ensures i < |rs|
  {
  }

  lemma PiecesPrefix(lines: seq<Line>, first: int, last: int, size: int, rs: seq<Range>, ts: seq<Range>)
    requires InFile(lines, first, last) && size > 0 && first <= last
    requires Pieces(lines, first, last, size, rs) && Exhausted(lines, first, last, size, rs)
    requires Pieces(lines, first, last, size, ts)
    ensures ts <= rs
  {
    hide FirstCut, Exhausted, Cut;
    for i := 0 to |ts|
      invariant i <= |rs| && forall j :: 0 <= j < i ==> rs[j] == ts[j]
    {
      if i > 0 { assert Piece(lines, first, last, size, ts[i - 1]) && Piece(lines, first, last, size, ts[i]); }
      ReachesPiece(lines, first, last, size, rs, ts, i);
      PieceUnique(lines, first, last, size, rs, ts, i);
    }
  }

  /** The pieces of a too-long range are determined: no other cut meets the contract. */
  lemma PiecesUnique(lines: seq<Line>, first: int, last: int, size: int, rs: seq<Range>, ts: seq<Range>)
    requires InFile(lines, first, last) && size > 0 && first <= last
    requires Pieces(lines, first, last, size, rs) && Exhausted(lines, first, last, size, rs)
    requires Pieces(lines, first, last, size, ts) && Exhausted(lines, first, last, size, ts)
    ensures rs == ts
  {
    PiecesPrefix(lines, first, last, size, rs, ts);
    PiecesPrefix(lines, first, last, size, ts, rs);
  }

  /** Splitting is determined. */
  lemma SplitUnique(lines: seq<Line>, first: int, last: int, size: int, rs: seq<Range>, ts: seq<Range>)
    requires InFile(lines, first, last) && Split(lines, first, last, size, rs) && Split(lines, first, last, size, ts)
    ensures rs == ts
  {
    hide Pieces, Exhausted;
    if first <= last && TooLong(first, last, size) { PiecesUnique(lines, first, last, size, rs, ts); }
  }

  /** A range that starts on text loses nothing: so no section, which starts on its heading, does. */
  lemma TextStartKeepsAll(lines: seq<Line>, first: int, last: int, size: int)
    requires InFile(lines, first, last) && first <= last && size > 0 && !BlankLine(lines, first)
    ensures !LosesText(lines, first, last, size)
  {
  }

  /** Two leading blank lines are enough to lose the text that shares their window. */
  lemma LeadingBlanksLoseText()
    ensures TooLong(1, 6, 4) && LosesText([Blank, Blank, Text, Text, Text, Text], 1, 6, 4)
  {
    var lines := [Blank, Blank, Text, Text, Text, Text];
    assert !BlankLine(lines, 4);
    assert 1 < 2 < 4 && AllBlank(lines, 1, 2) && NoBlank(lines, 3, 4);
    assert LosingWindow(lines, 1, 4);
  }

  // ---------------------------------------------------------------- overlap

  function TextCount(lines: seq<Line>, a: int, b: int): (n: nat)
    requires InFile(lines, a, b)
    decreases b - a
  {
    if b < a then 0 else TextCount(lines, a, b - 1) + (if BlankLine(lines, b) then 0 else 1)
  }

  lemma {:induction false} TextCountFront(lines: seq<Line>, a: int, b: int)
    requires InFile(lines, a, b) && a <= b
    ensures TextCount(lines, a, b) == (if BlankLine(lines, a) then 0 else 1) + TextCount(lines, a + 1, b)
    decreases b - a
  {
    if a < b { TextCountFront(lines, a, b - 1); }
  }

  lemma {:induction false} TextCountDrop(lines: seq<Line>, s: int, t: int, b: int)
    requires InFile(lines, s, b) && s <= t <= b + 1
    ensures TextCount(lines, s, b) >= TextCount(lines, t, b) + (if s < t && !BlankLine(lines, s) then 1 else 0)
    decreases t - s
  {
    if s < t {
      TextCountFront(lines, s, b);
      TextCountDrop(lines, s + 1, t, b);
    }
  }

  /** Counts split at a line. */
  lemma {:induction false} TextCountSplit(lines: seq<Line>, a: int, m: int, b: int)
    requires InFile(lines, a, b) && a <= m <= b + 1
    ensures TextCount(lines, a, b) == TextCount(lines, a, m - 1) + TextCount(lines, m, b)
    decreases m - a
  {
    if a < m {
      TextCountFront(lines, a, b);
      TextCountFront(lines, a, m - 1);
      TextCountSplit(lines, a + 1, m, b);
    }
  }

  /** The first line of text from `a` on; the line after the last when there is none. */
  function FirstTextFrom(lines: seq<Line>, a: int): (n: int)
    requires 1 <= a <= |lines| + 1
    ensures a <= n <= |lines| + 1 && (n <= |lines| ==> !BlankLine(lines, n)) && AllBlank(lines, a, n - 1)
    decreases |lines| - a
  {
    if a > |lines| || !BlankLine(lines, a) then a else FirstTextFrom(lines, a + 1)
  }

  lemma {:induction false} NoTextCount(lines: seq<Line>, a: int, b: int)
    requires InFile(lines, a, b)
    ensures TextCount(lines, a, b) == 0 <==> AllBlank(lines, a, b)
    decreases b - a
  {
    if a <= b { NoTextCount(lines, a, b - 1); }
  }

  lemma FirstWindowPlace(lines: seq<Line>, c: int, last: int, size: int)
    requires InFile(lines, c, last) && size > 0 && c <= last + 1
    ensures c <= FirstWindow(lines, c, last, size) <= last + 1
    decreases last - c
  {
    if c <= last && Skipped(lines, c, WindowEnd(c, last, size), last) {
      FirstWindowPlace(lines, WindowEnd(c, last, size) + 1, last, size);
    }
  }

  function Min(a: int, b: int): int { if a < b then a else b }

  /** `start` is `first` moved back over exactly `min(overlap, lines of text before it)` lines of text; it
      is on the last of them, or on line 1 when there are too few. */
  ghost predicate BackedUp(lines: seq<Line>, first: int, start: int, overlap: int)
    requires 1 <= first <= |lines| + 1
  {
    && 1 <= start <= first
    && if overlap <= 0 then start == first
       else && TextCount(lines, start, first - 1) == Min(overlap, TextCount(lines, 1, first - 1))
            && if TextCount(lines, 1, first - 1) >= overlap then start < first && !BlankLine(lines, start)
                 else start == 1
  }

  /** There is only one such start. */
  lemma BackedUpUnique(lines: seq<Line>, first: int, s: int, t: int, overlap: int)
    requires 1 <= first <= |lines| + 1 && BackedUp(lines, first, s, overlap) && BackedUp(lines, first, t, overlap)
    ensures s == t
  {
    if overlap > 0 {
      if s <= t { TextCountDrop(lines, s, t, first - 1); } else { TextCountDrop(lines, t, s, first - 1); }
    }
  }

  method ExpandRangeWithOverlap(lines: seq<Line>, first: int, last: int, overlap: int) returns (start: int, end: int)
    requires InFile(lines, first, last) && first <= |lines| + 1
    ensures 1 <= start <= first && BackedUp(lines, first, start, overlap) && end == last
  {
    if overlap <= 0 {
      return first, last;
    }
    start := first;
    var remaining := overlap;
    while start > 1 && remaining > 0
      invariant 1 <= start <= first && 0 <= remaining
      invariant TextCount(lines, start, first - 1) == overlap - remaining
      invariant TextCount(lines, 1, first - 1) == TextCount(lines, 1, start - 1) + TextCount(lines, start, first - 1)
      invariant remaining == 0 ==> start < first && !BlankLine(lines, start)
    {
      TextCountFront(lines, start - 1, first - 1);
      start := start - 1;
      if !BlankLine(lines, start) {
        remaining := remaining - 1;
      }
    }
    end := if |lines| < last then |lines| else last;
  }
}
