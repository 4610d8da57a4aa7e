/** References to raw material: artifact URIs are printed from a task id and a path, and parsed back. */
module RawMaterialRefs {
  import opened Text
  import opened Collections
  import opened Percent

  // ---------------------------------------------------------------- POSIX paths

  function IndexOfChar(s: string, c: char): (i: nat)
    ensures i <= |s| && (forall j :: 0 <= j < i ==> s[j] != c) && (i < |s| ==> s[i] == c)
  {
    if s == "" || s[0] == c then 0 else IndexOfChar(s[1..], c) + 1
  }

  /** A path component that counts: empty ones and single dots are dropped. */
  function Component(x: string): seq<string> {
    if x == "" || x == "." then [] else [x]
  }

  /** The components of a path, without its root. */
  function Parts(s: string): seq<string> {
    var i := IndexOfChar(s, '/');
    if i == |s| then Component(s) else Component(s[..i]) + Parts(s[i + 1..])
  }

  predicate Absolute(s: string) {
    s != "" && s[0] == '/'
  }

  /** The root of a path: two slashes are one of their own, three or more are one. */
  function Root(s: string): string {
    if !Absolute(s) then ""
    else if |s| >= 2 && s[1] == '/' && (|s| == 2 || s[2] != '/') then "//"
    else "/"
  }

  function Join(ps: seq<string>): string {
    if ps == [] then "" else if |ps| == 1 then ps[0] else ps[0] + "/" + Join(ps[1..])
  }

  /** A relative path as it prints. */
  function Posix(s: string): string {
    if Parts(s) == [] then "." else Join(Parts(s))
  }

  ghost predicate CleanPart(p: string) {
    p != "" && p != "." && '/' !in p
  }

  lemma {:induction false} PartsClean(s: string)
    ensures forall p :: p in Parts(s) ==> CleanPart(p)
  {
    var i := IndexOfChar(s, '/');
    if i < |s| { PartsClean(s[i + 1..]); }
  }

  lemma {:induction false} JoinShort(s: string)
    ensures |Join(Parts(s))| <= |s|
  {
    var i := IndexOfChar(s, '/');
    if i < |s| {
      JoinShort(s[i + 1..]);
      var rest := Parts(s[i + 1..]);
      var head := Component(s[..i]);
      assert head + rest == if head == [] then rest else [s[..i]] + rest;
      assert ([s[..i]] + rest)[1..] == rest;
    }
  }

  lemma PartsOfHead(a: string, s: string)
    requires '/' !in a
    ensures Parts(a + "/" + s) == Component(a) + Parts(s)
  {
    var t := a + "/" + s;
    assert t == (a + "/") + s;
    assert t[|a|] == '/' && forall j :: 0 <= j < |a| ==> t[j] == a[j] && a[j] in a;
    assert IndexOfChar(t, '/') == |a|;
    assert t[..|a|] == a && t[|a| + 1..] == s;
  }

  lemma {:induction false} PartsJoin(ps: seq<string>)
    requires forall p :: p in ps ==> CleanPart(p)
    ensures Parts(Join(ps)) == ps
    ensures ps != [] ==> Join(ps) != "" && !Absolute(Join(ps)) && Join(ps) != "."
  {
    hide Parts;
    if ps == [] {
      assert Parts("") == [] by { NoParts(); }
    } else {
      var p := ps[0];
      assert p in ps && CleanPart(p) && p[0] in p;
      if |ps| == 1 {
        OnePart(p);
        assert ps == [p];
      } else {
        assert forall q :: q in ps[1..] ==> q in ps;
        PartsJoin(ps[1..]);
        PartsOfHead(p, Join(ps[1..]));
        assert ps == [p] + ps[1..];
      }
    }
  }

  lemma NoParts()
    ensures Parts("") == []
  {
  }

  lemma OnePart(p: string)
    requires CleanPart(p)
    ensures Parts(p) == [p]
  {
    assert IndexOfChar(p, '/') == |p|;
  }

  /** A relative path in its printed form is left alone by printing it again. */
  lemma PosixFixed(s: string)
    requires s != "" && !Absolute(s)
    ensures Posix(s) != "" && !Absolute(Posix(s)) && |Posix(s)| <= |s| && Parts(Posix(s)) == Parts(s)
  {
    hide Parts, Join;
    PartsClean(s);
    PartsJoin(Parts(s));
    JoinShort(s);
    assert Parts(".") == [] by { DotParts(); }
  }

  lemma DotParts()
    ensures Parts(".") == []
  {
    assert IndexOfChar(".", '/') == 1;
  }

  // ---------------------------------------------------------------- splitting a URI

  datatype Url = Url(scheme: string, netloc: string, path: string, fragment: string)

  predicate Letter(c: char) { 'a' <= c <= 'z' || 'A' <= c <= 'Z' }

  predicate SchemeChar(c: char) { Letter(c) || '0' <= c <= '9' || c == '+' || c == '-' || c == '.' }

  predicate HasScheme(s: string) {
    var i := IndexOfChar(s, ':');
    0 < i < |s| && Letter(s[0]) && forall j :: 0 <= j < i ==> SchemeChar(s[j])
  }

  function Min(a: nat, b: nat): nat { if a <= b then a else b }

  /** The scheme, and what follows its colon. */
  function SchemeSplit(s: string): (string, string) {
    var i := IndexOfChar(s, ':');
    if HasScheme(s) then (Lower(s[..i]), s[i + 1..]) else ("", s)
  }

  /** The authority after a double slash, and the rest. */
  function AuthoritySplit(s: string): (string, string) {
    if "//" <= s then
      var after := s[2..];
      var n := Min(IndexOfChar(after, '/'), Min(IndexOfChar(after, '?'), IndexOfChar(after, '#')));
      (after[..n], after[n..])
    else ("", s)
  }

  /** The path without its query, and the fragment. */
  function PathSplit(s: string): (string, string) {
    var h := IndexOfChar(s, '#');
    var q := IndexOfChar(s[..h], '?');
    (s[..q], if h < |s| then s[h + 1..] else "")
  }

  function UrlSplit(s: string): Url {
    var (scheme, rest) := SchemeSplit(s);
    var (netloc, tail) := AuthoritySplit(rest);
    var (path, fragment) := PathSplit(tail);
    Url(scheme, netloc, path, fragment)
  }

  // ---------------------------------------------------------------- references

  datatype Ref = Ref(scheme: string, key: string, fragment: string)

  function DropSlashes(s: string): string {
    if s != "" && s[0] == '/' then DropSlashes(s[1..]) else s
  }

  function CombinedKey(netloc: string, path: string): string {
    var n, p := Unquote(netloc), Unquote(path);
    if n == "" then p else if DropSlashes(p) == "" then n else n + "/" + DropSlashes(p)
  }

  /** A blank reference, one without scheme and one with a blank key are refused. */
  function ParseSourceRef(ref: string): Option<Ref> {
    if Blank(ref) then None
    else
      var u := UrlSplit(Strip(ref));
      var key := Strip(CombinedKey(u.netloc, u.path));
      if u.scheme == "" || key == "" then None else Some(Ref(u.scheme, key, Strip(Unquote(u.fragment))))
  }

  function NormalizeSegment(s: string): Option<string> {
    var n := Strip(s);
    if n == "" || '/' in n || '\\' in n || n == "." || n == ".." then None else Some(n)
  }

  function NormalizeRelative(s: string): Option<string> {
    var n := Strip(s);
    if n == "" || Absolute(n) || ".." in Parts(n) then None else Some(Posix(n))
  }

  function Printed(task: string, path: string): string {
    "artifact://" + Quote(task, false) + "/" + Quote(path, true)
  }

  function SourceRefForArtifact(task: string, name: string): Option<string> {
    match (NormalizeSegment(task), NormalizeRelative(name))
    case (Some(t), Some(p)) => Some(Printed(t, Posix(p)))
    case _ => None
  }

  datatype ArtifactKey = ArtifactKey(task: string, path: string)

  function ParseArtifactKey(key: string): Option<ArtifactKey> {
    var ps := Parts(key);
    if Absolute(key) || |ps| < 2 then None
    else
      match (NormalizeSegment(ps[0]), NormalizeRelative(Join(ps[1..])))
      case (Some(t), Some(p)) => Some(ArtifactKey(t, p))
      case _ => None
  }

  /** What the filesystem store reads an artifact reference as. */
  function ParseArtifactRef(ref: string): Option<ArtifactKey> {
    match ParseSourceRef(ref)
    case Some(r) => if r.scheme == "artifact" then ParseArtifactKey(r.key) else None
    case None => None
  }

  /** A legacy reference `.swl/tasks/<task>/artifacts/<path>` as an artifact URI. */
  function FromLegacy(ref: string): Option<string> {
    var n := Strip(ref);
    if n == "" then None
    else if UrlSplit(n).scheme == "artifact" then (if ParseArtifactRef(n).Some? then Some(n) else None)
    else
      var base := LegacyBase(n);
      if !LegacyShape(base) then None
      else
        match SourceRefForArtifact(Parts(base)[2], Join(Parts(base)[4..]))
        case None => None
        case Some(u) => Some(if LegacyFragment(n) == "" then u else u + "#" + Quote(LegacyFragment(n), true))
  }

  function LegacyBase(n: string): string { n[..IndexOfChar(n, '#')] }

  function LegacyFragment(n: string): string {
    var h := IndexOfChar(n, '#');
    if h < |n| then n[h + 1..] else ""
  }

  predicate LegacyShape(base: string) {
    var ps := Parts(base);
    !Absolute(base) && |ps| >= 5 && ps[0] == ".swl" && ps[1] == "tasks" && ps[3] == "artifacts"
  }

  const WORKSPACE := "workspace"

  function DisplayKey(r: Ref): string {
    var ps := Parts(r.key);
    if r.scheme == "file" then
      if r.key == WORKSPACE then "." else if WORKSPACE + "/" <= r.key then r.key[|WORKSPACE| + 1..] else r.key
    else if r.scheme != "artifact" then r.key
    else if Absolute(r.key) then (if ps == [] then r.key else Root(r.key) + Join(["artifacts"] + ps))
    else if |ps| < 2 then r.key
    else Join([".swl", "tasks", ps[0], "artifacts"] + ps[1..])
  }

  /** The path shown for a reference; nothing for an invalid one. */
  function Display(ref: string): string {
    match ParseSourceRef(ref)
    case None => ""
    case Some(r) => DisplayKey(r)
  }

  // ---------------------------------------------------------------- parsing what was printed

  lemma EncodedPlain(s: string, slash: bool)
    ensures forall c :: c in Quote(s, slash) ==> Encoded(c, slash)
    ensures s != "" ==> Quote(s, slash) != ""
  {
    hide QuoteBytes, Utf8, Encoded;
    QuoteBytesChars(Utf8All(s), slash);
  }

  lemma ArtifactScheme(rest: string)
    ensures SchemeSplit("artifact:" + rest) == ("artifact", rest)
  {
    var s := "artifact:" + rest;
    assert s[8] == ':' && forall j :: 0 <= j < 8 ==> s[j] == "artifact"[j];
    assert IndexOfChar(s, ':') == 8;
    assert s[..8] == "artifact" && s[9..] == rest;
    assert Lower("artifact") == "artifact";
  }

  lemma IndexBeyond(a: string, b: string, c: char)
    requires c !in a
    ensures IndexOfChar(a + b, c) >= |a|
    ensures b != "" && b[0] == c ==> IndexOfChar(a + b, c) == |a|
    ensures b == "" ==> IndexOfChar(a, c) == |a|
  {
    hide IndexOfChar;
    var s := a + b;
    assert forall j :: 0 <= j < |a| ==> a[j] in a && a[j] != c;
    assert forall j :: 0 <= j < |a| ==> s[j] == a[j];
    assert b != "" ==> s[|a|] == b[0];
  }

  lemma NoDelimiters(s: string, slash: bool)
    requires forall c :: c in s ==> Encoded(c, slash)
    ensures '?' !in s && '#' !in s && (!slash ==> '/' !in s)
  {
  }

  lemma AuthorityOf(netloc: string, tail: string)
    requires forall c :: c in netloc ==> Encoded(c, false)
    requires tail != "" && tail[0] == '/'
    ensures AuthoritySplit("//" + netloc + tail) == (netloc, tail)
  {
    hide IndexOfChar, Encoded;
    var s := "//" + netloc + tail;
    var after := netloc + tail;
    assert s == "//" + after && s[2..] == after;
    NoDelimiters(netloc, false);
    IndexBeyond(netloc, tail, '/');
    IndexBeyond(netloc, tail, '?');
    IndexBeyond(netloc, tail, '#');
    assert after[..|netloc|] == netloc && after[|netloc|..] == tail;
  }

  lemma PathOf(path: string, tail: string)
    requires forall c :: c in path ==> Encoded(c, true)
    requires tail != "" ==> tail[0] == '#'
    ensures PathSplit(path + tail) == (path, if tail == "" then "" else tail[1..])
  {
    hide IndexOfChar, Encoded;
    var s := path + tail;
    var n := |path|;
    NoDelimiters(path, true);
    IndexBeyond(path, tail, '#');
    IndexBeyond(path, "", '?');
    assert s[..n] == path;
    if tail == "" {
      assert s == path;
    } else {
      assert s[n..] == tail && s[n..][1..] == s[n + 1..];
    }
  }

  /** A reference is split at the places it was put together at. */
  lemma SplitPrinted(netloc: string, path: string, tail: string)
    requires forall c :: c in netloc ==> Encoded(c, false)
    requires forall c :: c in path ==> Encoded(c, true)
    requires path != "" && path[0] == '/'
    requires tail != "" ==> tail[0] == '#'
    ensures UrlSplit("artifact://" + netloc + path + tail)
            == Url("artifact", netloc, path, if tail == "" then "" else tail[1..])
  {
    hide SchemeSplit, AuthoritySplit, PathSplit, Encoded;
    var end := path + tail;
    var rest := "//" + netloc + end;
    assert "artifact://" + netloc + path + tail == "artifact:" + rest;
    ArtifactScheme(rest);
    AuthorityOf(netloc, end);
    PathOf(path, tail);
  }

  /** Text that neither starts nor ends with whitespace stays as it is. */
  lemma StripLength(s: string)
    ensures |Strip(s)| == |s| ==> Strip(s) == s && Trimmed(s)
  {
  }

  lemma EncodedNotSpace(c: char)
    requires Encoded(c, true)
    ensures !IsSpace(c)
  {
  }

  /** An artifact URI with a fragment or without parses to its task and path, joined and trimmed. */
  lemma ParsePrinted(task: string, path: string, fragment: string)
    requires task != "" && Trimmed(task) && path != "" && !Absolute(path)
    ensures var ref := if fragment == "" then Printed(task, path)
        else Printed(task, path) + "#" + Quote(fragment, true);
            ParseSourceRef(ref) == Some(Ref("artifact", Strip(task + "/" + path), Strip(fragment)))
  {
    hide Quote, Unquote, UrlSplit, IsSpace, Encoded, Strip, Trimmed;
    var netloc, end := Quote(task, false), "/" + Quote(path, true);
    var tail := if fragment == "" then "" else "#" + Quote(fragment, true);
    var ref := "artifact://" + netloc + end + tail;
    EncodedPlain(task, false);
    EncodedPlain(path, true);
    EncodedPlain(fragment, true);
    EncodedWider();
    SlashEncoded();
    SplitPrinted(netloc, end, tail);
    assert (if fragment == "" then Printed(task, path) else Printed(task, path) + "#" + Quote(fragment, true)) == ref;
    var last := ref[|ref| - 1];
    assert last in (if fragment == "" then Quote(path, true) else Quote(fragment, true));
    EncodedNotSpace(last);
    EncodedNotSpace('a');
    assert ref[0] == 'a';
    StripSolid(ref);
    UnquoteQuote(task, false);
    SlashKept(path);
    UnquoteQuote("/" + path, true);
    UnquoteQuote(fragment, true);
    NoEscapes();
    assert ("/" + path)[1..] == path;
    assert DropSlashes("/" + path) == path;
    var key := task + "/" + path;
    TrimmedHead(task);
    assert key[0] == task[0];
    StripKeepsHead(key);
  }

  lemma StripSolid(s: string)
    requires s != "" && !IsSpace(s[0])
    ensures !IsSpace(s[|s| - 1]) ==> Strip(s) == s
  {
    hide IsSpace;
  }

  lemma TrimmedHead(s: string)
    requires s != "" && Trimmed(s)
    ensures !IsSpace(s[0]) && !IsSpace(s[|s| - 1])
  {
  }

  lemma EncodedWider()
    ensures forall c :: Encoded(c, false) ==> Encoded(c, true)
  {
  }

  lemma SlashEncoded()
    ensures Encoded('/', true) && Encoded('a', true)
  {
  }

  lemma NoEscapes()
    ensures Unquote("") == ""
  {
  }

  lemma {:induction false} StripKeepsHead(s: string)
    requires s != "" && !IsSpace(s[0])
    ensures Strip(s) != "" && Strip(s) <= s
  {
    hide IsSpace;
    if IsSpace(s[|s| - 1]) { StripKeepsHead(s[..|s| - 1]); }
  }

  // ---------------------------------------------------------------- round trips

  /** What normalising a path gives: a printed relative path that has no parent component. */
  lemma NormalizedRelative(s: string)
    requires NormalizeRelative(s).Some?
    ensures var p := NormalizeRelative(s).value;
            p != "" && !Absolute(p) && Posix(p) == p && |p| <= |Strip(s)| && ".." !in Parts(p)
                && (Parts(p) == [] <==> p == ".")
  {
    hide Parts, Join, Strip;
    var n := Strip(s);
    PosixFixed(n);
    PartsClean(n);
    PartsJoin(Parts(n));
    DotParts();
  }

  lemma NormalizeFixed(p: string)
    requires p != "" && Trimmed(p) && !Absolute(p) && ".." !in Parts(p)
    ensures NormalizeRelative(p) == Some(Posix(p))
  {
  }

  /** A key of a task and a path has the task as its first component. */
  lemma KeyParts(task: string, path: string)
    requires task != "" && '/' !in task && task != "."
    ensures Parts(task + "/" + path) == [task] + Parts(path) && !Absolute(task + "/" + path)
  {
    hide Parts;
    PartsOfHead(task, path);
    assert task[0] in task;
  }

  /** The two components read from a key are together shorter than the key. */
  lemma ArtifactKeyShort(key: string)
    ensures var k := ParseArtifactKey(key); k.Some? ==> |k.value.task| + 1 + |k.value.path| <= |key|
  {
    hide Parts, Join, Strip, Posix;
    var ps := Parts(key);
    if ParseArtifactKey(key).Some? {
      JoinShort(key);
      JoinCons(ps);
      NormalizedRelative(Join(ps[1..]));
      StripShort(ps[0]);
      StripShort(Join(ps[1..]));
    }
  }

  lemma JoinCons(ps: seq<string>)
    requires |ps| >= 2
    ensures Join(ps) == ps[0] + "/" + Join(ps[1..])
  {
  }

  lemma StripShort(s: string)
    ensures |Strip(s)| <= |s|
  {
  }

  /** Printing an artifact reference and parsing it gives the task and the path back exactly when the
      normalised path has a component and neither starts nor ends with whitespace. */
  lemma RoundTripExactly(task: string, name: string)
    requires SourceRefForArtifact(task, name).Some?
    ensures var t, p := NormalizeSegment(task).value, NormalizeRelative(name).value;
            ParseArtifactRef(SourceRefForArtifact(task, name).value) == Some(ArtifactKey(t, p))
            <==> p != "." && Trimmed(p)
  {
    hide Printed, ParseSourceRef, ParseArtifactKey, Posix, Parts, Join, Strip, Trimmed;
    var t, p := NormalizeSegment(task).value, NormalizeRelative(name).value;
    NormalizedRelative(name);
    SegmentFacts(task);
    ParsePrinted(t, p, "");
    var whole := t + "/" + p;
    var key := Strip(whole);
    KeyParts(t, p);
    if p != "." && Trimmed(p) {
      KeyTrimmed(t, p);
      KeyReads(t, p);
    } else {
      ArtifactKeyShort(key);
      StripShort(whole);
      StripLength(whole);
      KeyLoses(t, p);
    }
  }

  lemma SegmentFacts(s: string)
    requires NormalizeSegment(s).Some?
    ensures var t := NormalizeSegment(s).value;
            t != "" && Trimmed(t) && '/' !in t && t != "." && NormalizeSegment(t) == Some(t)
  {
    hide Trimmed;
  }

  lemma KeyTrimmed(t: string, p: string)
    requires t != "" && Trimmed(t) && p != "" && Trimmed(p)
    ensures Strip(t + "/" + p) == t + "/" + p
  {
    hide IsSpace;
    var s := t + "/" + p;
    assert s[0] == t[0] && s[|s| - 1] == p[|p| - 1];
  }

  lemma KeyReads(t: string, p: string)
    requires NormalizeSegment(t) == Some(t) && t != "."
    requires p != "" && p != "." && Trimmed(p) && !Absolute(p) && Posix(p) == p && ".." !in Parts(p) && Parts(p) != []
    ensures '/' !in t && t != "" ==> ParseArtifactKey(t + "/" + p) == Some(ArtifactKey(t, p))
  {
    hide Parts, Join, Strip, Trimmed;
    if '/' !in t && t != "" {
      KeyParts(t, p);
      var ps := Parts(t + "/" + p);
      assert ps[0] == t && ps[1..] == Parts(p);
      NormalizeFixed(p);
    }
  }

  /** A path that is a lone dot, or not trimmed, is not read back from its key. */
  lemma KeyLoses(t: string, p: string)
    requires t != "" && '/' !in t && t != "." && p != "" && Posix(p) == p && (Parts(p) == [] <==> p == ".")
    requires p == "." || !Trimmed(p)
    ensures ParseArtifactKey(t + "/" + p) != Some(ArtifactKey(t, p))
  {
    hide Parts, Join, Strip, Trimmed;
    KeyParts(t, p);
    var ps := Parts(t + "/" + p);
    if p != "." {
      assert ps[0] == t && ps[1..] == Parts(p);
      assert Join(ps[1..]) == p;
      StripLength(p);
      StripShort(p);
      if NormalizeRelative(p).Some? { NormalizedRelative(p); }
    }
  }

  /** A path printed from whitespace-free ends: a trimmed path of normal components is normal. */
  lemma JoinNormal(ps: seq<string>)
    requires ps != [] && forall p :: p in ps ==> CleanPart(p)
    ensures Posix(Join(ps)) == Join(ps) && Parts(Join(ps)) == ps && Join(ps) != "" && !Absolute(Join(ps))
        && Join(ps) != "."
  {
    hide Parts, Join;
    PartsJoin(ps);
  }

  /** What is shown for a converted reference, from its task and path. */
  lemma DisplayPrinted(t: string, p: string, fragment: string)
    requires NormalizeSegment(t) == Some(t) && Trimmed(t) && p != "" && !Absolute(p) && Posix(p) == p
    ensures var u := if fragment == "" then Printed(t, p) else Printed(t, p) + "#" + Quote(fragment, true);
            && ParseSourceRef(u) == Some(Ref("artifact", Strip(t + "/" + p), Strip(fragment)))
            && Display(u) == DisplayKey(Ref("artifact", Strip(t + "/" + p), Strip(fragment)))
  {
    hide Printed, ParseSourceRef, Posix, Parts, Join, Strip, Trimmed, DisplayKey;
    SegmentFacts(t);
    ParsePrinted(t, p, fragment);
  }

  lemma JoinFour(task: string, rest: seq<string>)
    requires rest != []
    ensures Join([".swl", "tasks", task, "artifacts"] + rest) == ".swl/tasks/" + task + "/artifacts/" + Join(rest)
  {
    var a := ["artifacts"] + rest;
    var b := [task] + a;
    var c := ["tasks"] + b;
    var d := [".swl"] + c;
    assert [".swl", "tasks", task, "artifacts"] + rest == d;
    assert a[1..] == rest && b[1..] == a && c[1..] == b && d[1..] == c;
    hide Join;
    JoinCons(a);
    JoinCons(b);
    JoinCons(c);
    JoinCons(d);
    var r := Join(rest);
    LegacyText(task, r);
  }

  lemma LegacyText(task: string, r: string)
    ensures ".swl" + "/" + ("tasks" + "/" + (task + "/" + ("artifacts" + "/" + r)))
            == ".swl/tasks/" + task + "/artifacts/" + r
  {
    var tail := task + "/" + ("artifacts" + "/" + r);
    assert tail == task + "/artifacts/" + r;
    assert ".swl" + "/" + ("tasks" + "/" + tail) == ".swl/tasks/" + tail;
  }

  /** The shown path of a key is at most twenty-one characters longer than the key. */
  lemma DisplayShort(key: string, fragment: string)
    requires !Absolute(key)
    ensures |DisplayKey(Ref("artifact", key, fragment))| <= |key| + 21
  {
    hide Parts, Join;
    var ps := Parts(key);
    JoinShort(key);
    if |ps| >= 2 {
      JoinFour(ps[0], ps[1..]);
      JoinCons(ps);
    }
  }

  lemma LegacyParts(base: string)
    requires LegacyShape(base)
    ensures var ps := Parts(base);
            && ps == [".swl", "tasks", ps[2], "artifacts"] + ps[4..]
            && Join(ps) == ".swl/tasks/" + ps[2] + "/artifacts/" + Join(ps[4..])
            && CleanPart(ps[2]) && ps[4..] != [] && forall p :: p in ps[4..] ==> CleanPart(p)
  {
    hide Parts, Join, CleanPart;
    var ps := Parts(base);
    PartsClean(base);
    JoinFour(ps[2], ps[4..]);
  }

  /** A legacy reference that converts is shown as its printed form exactly when its task and its path neither
      start nor end with whitespace, and as itself, without its fragment, exactly when it is in that form as
      well. The fragment is kept. */
  lemma LegacyDisplaysExactly(ref: string)
    requires FromLegacy(ref).Some? && UrlSplit(Strip(ref)).scheme != "artifact"
    ensures var u := FromLegacy(ref).value;
            var ps := Parts(LegacyBase(Strip(ref)));
            && LegacyShape(LegacyBase(Strip(ref)))
            && (Display(u) == Join(ps) <==> Trimmed(ps[2]) && Trimmed(Join(ps[4..])))
            && (Display(u) == LegacyBase(Strip(ref))
                <==> LegacyBase(Strip(ref)) == Join(ps) && Trimmed(ps[2]) && Trimmed(Join(ps[4..])))
            && ParseSourceRef(u).Some? && ParseSourceRef(u).value.fragment == Strip(LegacyFragment(Strip(ref)))
  {
    hide Printed, ParseSourceRef, Posix, Parts, Join, Strip, Trimmed, DisplayKey, UrlSplit, LegacyBase;
    hide LegacyFragment, Display, LegacyShape, Quote, Absolute, CleanPart;
    var base := LegacyBase(Strip(ref));
    var ps := Parts(base);
    LegacyParts(base);
    var task, path := ps[2], Join(ps[4..]);
    JoinNormal(ps[4..]);
    var t, p := NormalizeSegment(task).value, NormalizeRelative(path).value;
    SegmentFacts(task);
    NormalizedRelative(path);
    DisplayPrinted(t, p, LegacyFragment(Strip(ref)));
    JoinShort(base);
    if Trimmed(task) && Trimmed(path) {
      ShownAgain(task, ps[4..], Strip(LegacyFragment(Strip(ref))));
    } else {
      ShownShorter(task, path, Strip(LegacyFragment(Strip(ref))));
    }
  }

  lemma ShownAgain(task: string, rest: seq<string>, fragment: string)
    requires NormalizeSegment(task).Some? && NormalizeRelative(Join(rest)).Some? && Trimmed(task) && Trimmed(Join(rest))
    requires rest != [] && (forall p :: p in rest ==> CleanPart(p))
    ensures NormalizeSegment(task) == Some(task) && NormalizeRelative(Join(rest)) == Some(Join(rest))
    ensures DisplayKey(Ref("artifact", Strip(task + "/" + Join(rest)), fragment)) == ".swl/tasks/" + task
        + "/artifacts/" + Join(rest)
  {
    hide Parts, Join, Strip, Posix, CleanPart, Trimmed, Absolute;
    var path := Join(rest);
    JoinNormal(rest);
    SegmentFacts(task);
    StripTrimmed(task);
    StripTrimmed(path);
    KeyTrimmed(task, path);
    KeyParts(task, path);
    var ps := Parts(task + "/" + path);
    assert ps[0] == task && ps[1..] == rest && |ps| >= 2;
    JoinFour(task, rest);
    var key := task + "/" + path;
    assert DisplayKey(Ref("artifact", key, fragment)) == Join([".swl", "tasks", ps[0], "artifacts"] + ps[1..]);
  }

  lemma ShownShorter(task: string, path: string, fragment: string)
    requires NormalizeSegment(task).Some? && NormalizeRelative(path).Some? && !(Trimmed(task) && Trimmed(path))
    ensures var t, p := NormalizeSegment(task).value, NormalizeRelative(path).value;
            |DisplayKey(Ref("artifact", Strip(t + "/" + p), fragment))| < |".swl/tasks/" + task + "/artifacts/" + path|
  {
    hide Parts, Join, Strip, Posix, CleanPart, Trimmed, DisplayKey;
    var t, p := NormalizeSegment(task).value, NormalizeRelative(path).value;
    SegmentFacts(task);
    NormalizedRelative(path);
    StripShort(task);
    StripShort(path);
    StripLength(task);
    StripLength(path);
    StripShort(t + "/" + p);
    KeyRelative(t, p);
    DisplayShort(Strip(t + "/" + p), fragment);
  }

  lemma KeyRelative(t: string, p: string)
    requires t != "" && Trimmed(t) && '/' !in t
    ensures !Absolute(Strip(t + "/" + p))
  {
    hide IsSpace;
    var s := t + "/" + p;
    assert s[0] == t[0] && t[0] in t;
    StripKeepsHead(s);
  }

  /** A path that is a lone dot passes the normaliser, is printed, and is refused when parsed back. */
  lemma DotIsNotReadBack()
    ensures SourceRefForArtifact("t", ".").Some?
        && ParseArtifactRef(SourceRefForArtifact("t", ".").value) != Some(ArtifactKey("t", "."))
  {
    hide Parts;
    assert Strip(".") == "." && Strip("t") == "t";
    DotParts();
    RoundTripExactly("t", ".");
  }

  // ---------------------------------------------------------------- what is accepted, and how it is read

  /** A task is accepted when it is one path component other than a dot or two, and a path when it is relative and
      has no parent component; both are trimmed first, and the path is printed without empty components and dots. */
  lemma AcceptedExactly(task: string, name: string)
    ensures var t, n, o := Strip(task), Strip(name), SourceRefForArtifact(task, name);
            && (o.Some? <==> t != "" && t != "." && t != ".." && '/' !in t && '\\' !in t
                             && n != "" && n[0] != '/' && ".." !in Parts(n))
            && (o.Some? ==> o.value == "artifact://" + Quote(t, false) + "/"
                                       + Quote(if Parts(n) == [] then "." else Join(Parts(n)), true))
  {
    hide Strip, Parts, Join, Quote;
    if NormalizeRelative(name).Some? {
      NormalizedRelative(name);
    }
  }

  /** A legacy reference converts exactly when it has the five components and its task and path are accepted. What
      follows its first hash, if anything, becomes the fragment. */
  lemma LegacyAcceptedExactly(ref: string)
    requires Strip(ref) != "" && UrlSplit(Strip(ref)).scheme != "artifact"
    ensures var n := Strip(ref);
            var h := IndexOfChar(n, '#');
            var base, ps := n[..h], Parts(n[..h]);
            && (FromLegacy(ref).Some? <==>
                  && (base == "" || base[0] != '/') && |ps| >= 5 && ps[0] == ".swl" && ps[1] == "tasks"
                  && ps[3] == "artifacts" && SourceRefForArtifact(ps[2], Join(ps[4..])).Some?)
            && (FromLegacy(ref).Some? ==>
                  var u := SourceRefForArtifact(ps[2], Join(ps[4..])).value;
                  && (h >= |n| - 1 ==> FromLegacy(ref).value == u)
                  && (h < |n| - 1 ==> FromLegacy(ref).value == u + "#" + Quote(n[h + 1..], true)))
  {
    hide Strip, Parts, Join, Quote, UrlSplit, SourceRefForArtifact;
  }

  /** A legacy reference that is an artifact URI already stays, if it can be read. */
  lemma ArtifactStays(ref: string)
    requires Strip(ref) != "" && UrlSplit(Strip(ref)).scheme == "artifact"
    ensures FromLegacy(ref) == if ParseArtifactRef(Strip(ref)).Some? then Some(Strip(ref)) else None
  {
    hide Strip, UrlSplit, ParseArtifactRef;
  }

  /** What follows the path: a query after a question mark and a fragment after a hash, if there are any. */
  function Tail(query: Option<string>, fragment: Option<string>): string {
    (if query.Some? then "?" + query.value else "") + (if fragment.Some? then "#" + fragment.value else "")
  }

  function Given(fragment: Option<string>): string {
    if fragment.Some? then fragment.value else ""
  }

  /** How the parts of a reference are found: the scheme before the colon, in lower case; the authority up to the
      next slash, question mark or hash; the path up to the query; the fragment after the hash. */
  lemma SplitComposed(scheme: string, netloc: string, path: string, query: Option<string>, fragment: Option<string>)
    requires scheme != "" && Letter(scheme[0]) && forall c :: c in scheme ==> SchemeChar(c)
    requires forall c :: c in netloc ==> c != '/' && c != '?' && c != '#'
    requires forall c :: c in path ==> c != '?' && c != '#'
    requires path != "" ==> path[0] == '/'
    requires query.Some? ==> '#' !in query.value
    ensures UrlSplit(scheme + ":" + ("//" + netloc + (path + Tail(query, fragment))))
            == Url(Lower(scheme), netloc, path, Given(fragment))
  {
    hide SchemeSplit, AuthoritySplit, PathSplit, Lower, Tail;
    var tail := path + Tail(query, fragment);
    TailStarts(query, fragment);
    assert tail != "" ==> tail[0] == if path == "" then Tail(query, fragment)[0] else path[0];
    SchemeOf(scheme, "//" + netloc + tail);
    AuthorityBefore(netloc, tail);
    PathBefore(path, query, fragment);
  }

  /** Without a double slash after the colon there is no authority. */
  lemma SplitWithoutAuthority(scheme: string, path: string, query: Option<string>, fragment: Option<string>)
    requires scheme != "" && Letter(scheme[0]) && forall c :: c in scheme ==> SchemeChar(c)
    requires forall c :: c in path ==> c != '?' && c != '#'
    requires !(|path| >= 2 && path[..2] == "//")
    requires query.Some? ==> '#' !in query.value
    ensures UrlSplit(scheme + ":" + (path + Tail(query, fragment))) == Url(Lower(scheme), "", path, Given(fragment))
  {
    hide SchemeSplit, PathSplit, Lower, Tail;
    var rest := path + Tail(query, fragment);
    TailStarts(query, fragment);
    assert |rest| >= 1 ==> rest[0] == if path == "" then Tail(query, fragment)[0] else path[0];
    assert |rest| >= 2 && |path| == 1 ==> rest[1] == Tail(query, fragment)[0];
    assert |path| >= 2 ==> rest[..2] == path[..2];
    SchemeOf(scheme, rest);
    PathBefore(path, query, fragment);
  }

  lemma TailStarts(query: Option<string>, fragment: Option<string>)
    ensures var t := Tail(query, fragment); t != "" ==> t[0] == '?' || t[0] == '#'
  {
  }

  lemma SchemeOf(scheme: string, rest: string)
    requires scheme != "" && Letter(scheme[0]) && forall c :: c in scheme ==> SchemeChar(c)
    ensures SchemeSplit(scheme + ":" + rest) == (Lower(scheme), rest)
  {
    hide Lower;
    var s := scheme + ":" + rest;
    assert s == scheme + (":" + rest) && s[|scheme|] == ':' && s[..|scheme|] == scheme && s[|scheme| + 1..] == rest;
    IndexBeyond(scheme, ":" + rest, ':');
    forall j | 0 <= j < |scheme| ensures SchemeChar(s[j]) { assert s[j] == scheme[j] && scheme[j] in scheme; }
  }

  lemma AuthorityBefore(netloc: string, tail: string)
    requires forall c :: c in netloc ==> c != '/' && c != '?' && c != '#'
    requires tail != "" ==> tail[0] == '/' || tail[0] == '?' || tail[0] == '#'
    ensures AuthoritySplit("//" + netloc + tail) == (netloc, tail)
  {
    hide IndexOfChar;
    var s, after := "//" + netloc + tail, netloc + tail;
    assert s == "//" + after && s[2..] == after;
    IndexBeyond(netloc, tail, '/');
    IndexBeyond(netloc, tail, '?');
    IndexBeyond(netloc, tail, '#');
    assert after[..|netloc|] == netloc && after[|netloc|..] == tail;
  }

  lemma PathBefore(path: string, query: Option<string>, fragment: Option<string>)
    requires (forall c :: c in path ==> c != '?' && c != '#') && (query.Some? ==> '#' !in query.value)
    ensures PathSplit(path + Tail(query, fragment)) == (path, Given(fragment))
  {
    hide PathSplit;
    var q := if query.Some? then "?" + query.value else "";
    var f := if fragment.Some? then "#" + fragment.value else "";
    PathAt(path, q, f);
    assert path + (q + f) == path + q + f;
    assert fragment.Some? ==> f[1..] == fragment.value;
  }

  lemma PathAt(path: string, q: string, f: string)
    requires '?' !in path && '#' !in path && '#' !in q && (q != "" ==> q[0] == '?') && (f != "" ==> f[0] == '#')
    ensures PathSplit(path + q + f) == (path, if f == "" then "" else f[1..])
  {
    hide IndexOfChar;
    var front, s := path + q, path + q + f;
    IndexBeyond(front, f, '#');
    IndexBeyond(path, q, '?');
    assert s[..|front|] == front && s[|front|..] == f && s[..|path|] == path;
    assert f == "" ==> s == front;
    assert f != "" ==> s[|front| + 1..] == f[1..];
    assert q == "" ==> front == path;
  }

  /** The text before the colon at `i` is a scheme. */
  ghost predicate SchemeEnds(n: string, i: nat) {
    0 < i < |n| && n[i] == ':' && Letter(n[0]) && forall j :: 0 <= j < i ==> SchemeChar(n[j])
  }

  const SMALL := "abcdefghijklmnopqrstuvwxyz"
  const CAPITAL := "ABCDEFGHIJKLMNOPQRSTUVWXYZ"
  const DIGITS := "0123456789"

  lemma SmallLetters(c: char)
    ensures c in SMALL <==> 'a' <= c <= 'z'
  {
    if 'a' <= c <= 'z' { assert SMALL[c as int - 'a' as int] == c; }
  }

  lemma CapitalLetters(c: char)
    ensures c in CAPITAL <==> 'A' <= c <= 'Z'
  {
    if 'A' <= c <= 'Z' { assert CAPITAL[c as int - 'A' as int] == c; }
  }

  lemma DigitChars(c: char)
    ensures c in DIGITS <==> '0' <= c <= '9'
  {
    if '0' <= c <= '9' { assert DIGITS[c as int - '0' as int] == c; }
  }

  /** The characters of a scheme. */
  lemma SchemeChars(c: char)
    ensures Letter(c) <==> c in SMALL || c in CAPITAL
    ensures SchemeChar(c) <==> Letter(c) || c in DIGITS || c in "+-."
  {
    hide SMALL, CAPITAL, DIGITS;
    SmallLetters(c);
    CapitalLetters(c);
    DigitChars(c);
  }

  /** Which references are refused, and what the others are read as. */
  lemma ParseTells(ref: string)
    ensures var n, o := Strip(ref), ParseSourceRef(ref);
            && (n == "" || (forall i: nat :: !SchemeEnds(n, i)) ==> o == None)
            && (n != "" && (exists i: nat :: SchemeEnds(n, i)) ==>
                 var u := UrlSplit(n);
                 var key := Strip(CombinedKey(u.netloc, u.path));
                 && u.scheme != "" && (key == "" ==> o == None)
                 && (key != "" ==> o == Some(Ref(u.scheme, key, Strip(Unquote(u.fragment))))))
            && (o == None ==> Display(ref) == "")
  {
    hide Strip, AuthoritySplit, PathSplit, CombinedKey, Unquote, DisplayKey;
    var n := Strip(ref);
    if HasScheme(n) {
      assert SchemeEnds(n, IndexOfChar(n, ':'));
    } else {
      forall i: nat { NoSchemeAt(n, i); }
    }
  }

  lemma NoSchemeAt(n: string, i: nat)
    ensures SchemeEnds(n, i) ==> HasScheme(n)
  {
    var at := IndexOfChar(n, ':');
    assert SchemeEnds(n, i) && at < i ==> SchemeChar(n[at]);
  }

  /** The key of an authority and a path, both decoded: the path alone without authority, the authority alone
      without path, and else the two with one slash between them. */
  lemma CombinedTells(netloc: string, path: string, slashes: string, rest: string)
    requires Unquote(path) == slashes + rest && (forall c :: c in slashes ==> c == '/')
        && (rest != "" ==> rest[0] != '/')
    ensures var n := Unquote(netloc);
            && (n == "" ==> CombinedKey(netloc, path) == Unquote(path))
            && (n != "" && rest == "" ==> CombinedKey(netloc, path) == n)
            && (n != "" && rest != "" ==> CombinedKey(netloc, path) == n + "/" + rest)
  {
    hide Unquote;
    DropsAll(slashes, rest);
  }

  lemma {:induction false} DropsAll(slashes: string, rest: string)
    requires (forall c :: c in slashes ==> c == '/') && (rest != "" ==> rest[0] != '/')
    ensures DropSlashes(slashes + rest) == rest
  {
    if slashes == "" {
      assert slashes + rest == rest;
    } else {
      assert slashes[0] in slashes && forall c :: c in slashes[1..] ==> c in slashes;
      assert (slashes + rest)[1..] == slashes[1..] + rest;
      DropsAll(slashes[1..], rest);
    }
  }

  /** What is shown for a key: a workspace file without the workspace, an artifact in its legacy place, and
      anything else as it is. */
  lemma DisplayTells(key: string, fragment: string, scheme: string, rest: string)
    ensures DisplayKey(Ref("file", "workspace", fragment)) == "."
    ensures DisplayKey(Ref("file", "workspace/" + rest, fragment)) == rest
    ensures key != "workspace" && !("workspace/" <= key) ==> DisplayKey(Ref("file", key, fragment)) == key
    ensures scheme != "file" && scheme != "artifact" ==> DisplayKey(Ref(scheme, key, fragment)) == key
    ensures (key == "" || key[0] != '/') && |Parts(key)| < 2 ==> DisplayKey(Ref("artifact", key, fragment)) == key
    ensures (key == "" || key[0] != '/') && |Parts(key)| >= 2 ==>
        DisplayKey(Ref("artifact", key, fragment))
        == ".swl/tasks/" + Parts(key)[0] + "/artifacts/" + Join(Parts(key)[1..])
    ensures DisplayKey(Ref("artifact", "/" + rest, fragment)) == if Parts("/" + rest) == [] then "/" + rest
        else Root("/" + rest) + ("artifacts" + "/" + Join(Parts("/" + rest)))
  {
    hide Parts, Join, Root;
    var ps := Parts("/" + rest);
    assert (["artifacts"] + ps)[1..] == ps;
    if ps != [] { JoinCons(["artifacts"] + ps); }
    var named := "workspace/" + rest;
    assert named[10..] == rest && "workspace/" <= named && |named| >= 10;
    assert WORKSPACE + "/" == "workspace/";
    if |Parts(key)| >= 2 { JoinFour(Parts(key)[0], Parts(key)[1..]); }
  }

  /** The root of an absolute path: one slash, unless there are exactly two. */
  lemma Roots(rest: string)
    requires rest == "" || rest[0] != '/'
    ensures Root("/" + rest) == "/" && Root("//" + rest) == "//" && Root("///" + rest) == "/" && Root(rest) == ""
  {
  }
}
