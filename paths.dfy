/** The POSIX flavour of Node's `path` module, as far as the handlers use it:
    `join`, `normalize` and `dirname`. A path is read as its segments between
    separators; normalising folds them like a stack in which `.` and empty
    segments vanish and `..` removes the segment before it. */
module Paths {
  import opened Strings

  /** The segments of p between '/' separators, empty ones included:
      Split("/a//b") == ["", "a", "", "b"]. */
  function Split(p: string): (r: seq<string>)
    ensures |r| > 0
  {
    if p == "" then [""]
    else
      var rest := Split(p[1..]);
      if p[0] == '/' then [""] + rest else [[p[0]] + rest[0]] + rest[1..]
  }

  /** One segment of the fold; `allowAboveRoot` is true for relative paths, where a
      `..` that has nothing to remove is kept. */
  function Step(stack: seq<string>, segment: string, allowAboveRoot: bool): seq<string> {
    if segment == "" || segment == "." then stack
    else if segment == ".." then
      if |stack| > 0 && stack[|stack| - 1] != ".." then stack[..|stack| - 1]
      else if allowAboveRoot then stack + [".."]
      else stack
    else stack + [segment]
  }

  /** The fold of Step over segments, left to right. */
  function Steps(stack: seq<string>, segments: seq<string>, allowAboveRoot: bool): seq<string>
    decreases |segments|
  {
    if segments == [] then stack
    else Step(Steps(stack, segments[..|segments| - 1], allowAboveRoot), segments[|segments| - 1], allowAboveRoot)
  }

  /** A stack the fold can produce: no empty, `.` or separator-holding segment, the
      `..` segments all in front, and none at all in an absolute path. */
  predicate NormalStack(s: seq<string>, allowAboveRoot: bool) {
    && (forall k :: 0 <= k < |s| ==> s[k] != "" && s[k] != "." && '/' !in s[k])
    && (forall i, j :: 0 <= i < j < |s| && s[j] == ".." ==> s[i] == "..")
    && (!allowAboveRoot ==> forall k :: 0 <= k < |s| ==> s[k] != "..")
  }

  /** A parsed path: whether it starts with '/', its folded segments, and whether it
      ends with '/'. */
  datatype Path = Path(absolute: bool, segments: seq<string>, trailing: bool)

  function Parse(p: string): Path {
    if p == "" then Path(false, [], false)
    else
      var absolute := p[0] == '/';
      Path(absolute, Steps([], Split(p), !absolute), p[|p| - 1] == '/')
  }

  /** "/" + s for each segment s */
  function Rooted(segments: seq<string>): string {
    if segments == [] then "" else "/" + segments[0] + Rooted(segments[1..])
  }

  function Joined(segments: seq<string>): string
    requires segments != []
  {
    segments[0] + Rooted(segments[1..])
  }

  /** The string `path.normalize` returns for a parsed path. */
  function Format(c: Path): string {
    if c.segments == [] then
      if c.absolute then "/" else if c.trailing then "./" else "."
    else
      (if c.absolute then "/" else "") + Joined(c.segments) + (if c.trailing then "/" else "")
  }

  /** `path.normalize(p)` */
  function Normalize(p: string): (r: string)
    ensures |r| > 0
  {
    ParseIsNormal(p);
    Format(Parse(p))
  }

  /** `path.join(a, b)`: the non-empty arguments joined by '/', then normalised. */
  function Join(a: string, b: string): (r: string)
    ensures |r| > 0
  {
    if a == "" && b == "" then "."
    else if a == "" then Normalize(b)
    else if b == "" then Normalize(a)
    else Normalize(a + "/" + b)
  }

  /** Node's scan for `dirname`: from index i down to 1, skip the trailing separators,
      then return the index of the separator before the last name, or -1. */
  function DirnameEnd(p: string, i: int, matchedSlash: bool): (end: int)
    requires 0 <= i < |p|
    ensures -1 <= end <= i && end != 0
    ensures end > 0 ==> p[end] == '/'
    ensures end == i ==> !matchedSlash
    ensures 0 < end < i ==> exists k :: end < k <= i && p[k] != '/'
    decreases i
  {
    if i == 0 then -1
    else if p[i] == '/' then
      if !matchedSlash then i else DirnameEnd(p, i - 1, true)
    else DirnameEnd(p, i - 1, false)
  }

  /** `path.dirname(p)` */
  function Dirname(p: string): (d: string)
    ensures |d| > 0
    ensures |p| >= 2 ==> |d| < |p|
  {
    if p == "" then "."
    else
      var end := DirnameEnd(p, |p| - 1, true);
      if end < 0 then (if p[0] == '/' then "/" else ".")
      else if p[0] == '/' && end == 1 then "//"
      else p[..end]
  }

  /** The directory d and all its ancestors: what `mkdir -p d` leaves in place. */
  function Lineage(d: string): (s: set<string>)
    ensures d in s
    ensures forall q :: q in s ==> |q| <= |d| || |q| <= 1
    decreases |d|
  {
    var parent := Dirname(d);
    if |parent| < |d| then {d} + Lineage(parent) else {d, parent}
  }

  // ---------------------------------------------------------------------------
  // Splitting

  lemma {:induction false} SplitPlain(s: string)
    requires '/' !in s
    ensures Split(s) == [s]
  {
    if s != "" {
      assert s == [s[0]] + s[1..];
      SplitCons(s[0], s[1..], s);
      SplitPlain(s[1..]);
    }
  }

  /** Split unfolded once, for a string given as its first character and the rest. */
  lemma SplitCons(c: char, p: string, s: string)
    requires s == [c] + p
    ensures Split(s) == if c == '/' then [""] + Split(p) else [[c] + Split(p)[0]] + Split(p)[1..]
  {
    assert s[1..] == p;
  }

  /** No segment holds a separator. */
  lemma {:induction false} SplitPlainSegments(p: string)
    ensures forall k :: 0 <= k < |Split(p)| ==> '/' !in Split(p)[k]
  {
    if p != "" {
      var p' := p[1..];
      assert p == [p[0]] + p';
      SplitCons(p[0], p', p);
      SplitPlainSegments(p');
    }
  }

  /** Splitting distributes over a separator. */
  lemma SplitAppend(a: string, b: string)
    ensures Split(a + "/" + b) == Split(a) + Split(b)
  {
    SplitAround(a, b, a + "/" + b);
  }

  lemma {:induction false} SplitAround(a: string, b: string, s: string)
    requires s == a + "/" + b
    ensures Split(s) == Split(a) + Split(b)
    decreases |a|
  {
    if a == "" {
      SplitCons('/', b, s);
    } else {
      var a' := a[1..];
      var s' := a' + "/" + b;
      assert a == [a[0]] + a';
      assert s == [a[0]] + s';
      SplitAround(a', b, s');
      ConsAppend(a[0], a', s', a, s, Split(b));
    }
  }

  lemma GlueFirst(x: string, front: seq<string>, back: seq<string>)
    requires |front| > 0
    ensures [x + (front + back)[0]] + (front + back)[1..] == ([x + front[0]] + front[1..]) + back
  {
    assert (front + back)[0] == front[0];
    assert (front + back)[1..] == front[1..] + back;
  }

  lemma ConsSegments(c: char, front: seq<string>, back: seq<string>, whole: seq<string>, part: seq<string>)
    requires |front| > 0
    requires whole == if c == '/' then [""] + (front + back) else [[c] + (front + back)[0]] + (front + back)[1..]
    requires part == if c == '/' then [""] + front else [[c] + front[0]] + front[1..]
    ensures whole == part + back
  {
    if c != '/' {
      GlueFirst([c], front, back);
    } else {
      assert [""] + (front + back) == ([""] + front) + back;
    }
  }

  /** Putting the same character in front of a and of s keeps the segments of b
      that follow. */
  lemma ConsAppend(c: char, a': string, s': string, a: string, s: string, back: seq<string>)
    requires a == [c] + a' && s == [c] + s'
    requires Split(s') == Split(a') + back
    ensures Split(s) == Split(a) + back
  {
    SplitCons(c, s', s);
    SplitCons(c, a', a);
    ConsSegments(c, Split(a'), back, Split(s), Split(a));
  }

  /** The first segment is empty exactly when p starts with '/' (or is empty),
      the last one exactly when p ends with '/'; there is one segment exactly when
      p holds no separator. */
  lemma {:induction false} SplitEnds(p: string)
    ensures Split(p)[0] == "" <==> p == "" || p[0] == '/'
    ensures Split(p)[|Split(p)| - 1] == "" <==> p == "" || p[|p| - 1] == '/'
    ensures |Split(p)| == 1 <==> '/' !in p
  {
    if p != "" {
      var p' := p[1..];
      assert p == [p[0]] + p';
      SplitCons(p[0], p', p);
      SplitEnds(p');
      assert '/' in p <==> p[0] == '/' || '/' in p';
      if p' != "" {
        assert p[|p| - 1] == p'[|p'| - 1];
        assert p[|p| - 1] in p';
      }
    }
  }

  lemma {:induction false} SplitJoined(segments: seq<string>)
    requires segments != []
    requires forall k :: 0 <= k < |segments| ==> '/' !in segments[k]
    ensures Split(Joined(segments)) == segments
  {
    if |segments| == 1 {
      SplitPlain(segments[0]);
      assert Joined(segments) == segments[0];
    } else {
      var tail := segments[1..];
      assert Joined(segments) == segments[0] + "/" + Joined(tail);
      SplitAppend(segments[0], Joined(tail));
      SplitPlain(segments[0]);
      SplitJoined(tail);
      assert segments == [segments[0]] + tail;
    }
  }

  function Marker(b: bool): seq<string> {
    if b then [""] else []
  }

  /** What Split reads before the segments of a formatted path: "" for the leading
      '/', "." for an empty relative path. */
  function Head(c: Path): seq<string> {
    if c.absolute then [""] else if c.segments == [] then ["."] else []
  }

  /** Whether a formatted path ends with '/': when trailing, and always for "/". */
  predicate EndsInSlash(c: Path) {
    c.trailing || (c.absolute && c.segments == [])
  }

  /** The segments of a formatted path, as Split sees them. */
  function Pieces(c: Path): seq<string> {
    Head(c) + c.segments + Marker(EndsInSlash(c))
  }

  lemma SplitTrailing(x: string)
    ensures Split(x + "/") == Split(x) + [""]
  {
    SplitAppend(x, "");
    assert x + "/" + "" == x + "/";
  }

  lemma SplitBody(segments: seq<string>, absolute: bool)
    requires segments != []
    requires forall k :: 0 <= k < |segments| ==> '/' !in segments[k]
    ensures Split((if absolute then "/" else "") + Joined(segments)) == (if absolute then [""] else []) + segments
  {
    SplitJoined(segments);
    if absolute {
      SplitAppend("", Joined(segments));
      assert "/" + Joined(segments) == "" + "/" + Joined(segments);
    } else {
      assert "" + Joined(segments) == Joined(segments);
    }
  }

  lemma FormatSplitEmpty(c: Path)
    requires c.segments == []
    ensures Split(Format(c)) == Pieces(c)
  {
    if c.absolute {
      SplitTrailing("");
      assert "" + "/" == "/";
    } else if c.trailing {
      SplitTrailing(".");
      SplitPlain(".");
    } else {
      SplitPlain(".");
    }
  }

  lemma FormatSplit(c: Path)
    requires NormalStack(c.segments, !c.absolute)
    ensures Split(Format(c)) == Pieces(c)
  {
    if c.segments == [] {
      FormatSplitEmpty(c);
    } else {
      var body := (if c.absolute then "/" else "") + Joined(c.segments);
      SplitBody(c.segments, c.absolute);
      if c.trailing {
        SplitTrailing(body);
        assert Format(c) == body + "/";
      } else {
        assert Format(c) == body;
      }
    }
  }

  // ---------------------------------------------------------------------------
  // Folding

  lemma {:induction false} StepsAppend(stack: seq<string>, a: seq<string>, b: seq<string>, allowAboveRoot: bool)
    ensures Steps(stack, a + b, allowAboveRoot) == Steps(Steps(stack, a, allowAboveRoot), b, allowAboveRoot)
    decreases |b|
  {
    if b == [] {
      assert a + b == a;
    } else {
      var n := |b|;
      assert (a + b)[..|a + b| - 1] == a + b[..n - 1];
      assert (a + b)[|a + b| - 1] == b[n - 1];
      StepsAppend(stack, a, b[..n - 1], allowAboveRoot);
    }
  }

  lemma StepNormal(stack: seq<string>, segment: string, allowAboveRoot: bool)
    requires NormalStack(stack, allowAboveRoot)
    requires '/' !in segment
    ensures NormalStack(Step(stack, segment, allowAboveRoot), allowAboveRoot)
  {
    var r := Step(stack, segment, allowAboveRoot);
    if segment == ".." && |stack| > 0 && stack[|stack| - 1] != ".." {
      assert r == stack[..|stack| - 1];
    } else if segment == ".." && allowAboveRoot {
      assert r == stack + [".."];
      forall i, j | 0 <= i < j < |r| && r[j] == ".." ensures r[i] == ".." {
        if j < |stack| {
          assert r[i] == stack[i] && r[j] == stack[j];
        } else {
          assert stack[|stack| - 1] == "..";
          assert r[i] == stack[i];
          if i < |stack| - 1 {
            assert stack[i] == "..";
          }
        }
      }
    }
  }

  lemma {:induction false} StepsNormal(stack: seq<string>, segments: seq<string>, allowAboveRoot: bool)
    requires NormalStack(stack, allowAboveRoot)
    requires forall k :: 0 <= k < |segments| ==> '/' !in segments[k]
    ensures NormalStack(Steps(stack, segments, allowAboveRoot), allowAboveRoot)
    decreases |segments|
  {
    if segments != [] {
      var n := |segments|;
      StepsNormal(stack, segments[..n - 1], allowAboveRoot);
      StepNormal(Steps(stack, segments[..n - 1], allowAboveRoot), segments[n - 1], allowAboveRoot);
    }
  }

  /** Every parsed path is in normal form. */
  lemma ParseIsNormal(p: string)
    ensures NormalStack(Parse(p).segments, !Parse(p).absolute)
  {
    if p != "" {
      SplitPlainSegments(p);
      StepsNormal([], Split(p), p[0] != '/');
    }
  }

  lemma NormalPrefix(s: seq<string>, k: nat, allowAboveRoot: bool)
    requires NormalStack(s, allowAboveRoot) && k <= |s|
    ensures NormalStack(s[..k], allowAboveRoot)
  {
    var t := s[..k];
    assert forall i :: 0 <= i < k ==> t[i] == s[i];
  }

  /** Folding a stack that is already in normal form changes nothing. */
  lemma {:induction false} StepsKeepNormal(stack: seq<string>, segments: seq<string>, allowAboveRoot: bool)
    requires NormalStack(stack + segments, allowAboveRoot)
    ensures Steps(stack, segments, allowAboveRoot) == stack + segments
    decreases |segments|
  {
    if segments != [] {
      var n := |segments|;
      var s := stack + segments;
      assert s[..|stack| + n - 1] == stack + segments[..n - 1];
      NormalPrefix(s, |stack| + n - 1, allowAboveRoot);
      StepsKeepNormal(stack, segments[..n - 1], allowAboveRoot);
      var top := segments[n - 1];
      assert top == s[|s| - 1];
      var before := stack + segments[..n - 1];
      if top == ".." && |before| > 0 {
        assert before[|before| - 1] == s[|s| - 2];
      }
      assert before + [top] == s;
    }
  }

  lemma FoldIgnoresMarkers(stack: seq<string>, b: bool, allowAboveRoot: bool)
    ensures Steps(stack, Marker(b), allowAboveRoot) == stack
  {
    if b {
      assert Marker(b)[..0] == [];
    }
  }

  /** The fold of a formatted path's pieces gives back its segments. */
  lemma StepsPieces(c: Path)
    requires NormalStack(c.segments, !c.absolute)
    ensures Steps([], Pieces(c), !c.absolute) == c.segments
  {
    var head := Head(c);
    var trail := EndsInSlash(c);
    var allow := !c.absolute;
    StepsAppend([], head + c.segments, Marker(trail), allow);
    StepsAppend([], head, c.segments, allow);
    assert Steps([], head, allow) == [] by {
      if head != [] {
        assert head[..0] == [];
      }
    }
    StepsKeepNormal([], c.segments, allow);
    assert [] + c.segments == c.segments;
    FoldIgnoresMarkers(c.segments, trail, allow);
  }

  /** A formatted path starts with '/' exactly when it is absolute, and ends with
      '/' exactly when it is trailing or is the filesystem root. */
  lemma FormatEnds(c: Path)
    requires NormalStack(c.segments, !c.absolute)
    ensures Format(c) != ""
    ensures Format(c)[0] == '/' <==> c.absolute
    ensures Format(c)[|Format(c)| - 1] == '/' <==> c.trailing || (c.absolute && c.segments == [])
  {
    FormatSplit(c);
    SplitEnds(Format(c));
    var trail := EndsInSlash(c);
    assert Pieces(c)[0] == "" <==> c.absolute;
    assert Pieces(c)[|Pieces(c)| - 1] == "" <==> trail;
  }

  /** Parsing a formatted path gives back the path, up to the trailing flag of "/". */
  lemma ParseFormat(c: Path)
    requires NormalStack(c.segments, !c.absolute)
    ensures Parse(Format(c)).absolute == c.absolute
    ensures Parse(Format(c)).segments == c.segments
    ensures Parse(Format(c)).trailing == (c.trailing || (c.absolute && c.segments == []))
  {
    FormatEnds(c);
    FormatSplit(c);
    StepsPieces(c);
  }

  /** `path.normalize` is idempotent. */
  lemma NormalizeIdempotent(p: string)
    ensures Normalize(Normalize(p)) == Normalize(p)
  {
    ParseIsNormal(p);
    ParseFormat(Parse(p));
  }

  /** A path built by `path.join` is already normal. */
  lemma JoinIsNormal(a: string, b: string)
    ensures Normalize(Join(a, b)) == Join(a, b)
  {
    if a == "" && b == "" {
      assert Normalize("") == ".";
      NormalizeIdempotent("");
    } else if a == "" {
      NormalizeIdempotent(b);
    } else if b == "" {
      NormalizeIdempotent(a);
    } else {
      NormalizeIdempotent(a + "/" + b);
    }
  }

  // ---------------------------------------------------------------------------
  // What dirname means for a normal path

  lemma {:induction false} RootedSnoc(front: seq<string>, x: string)
    ensures Rooted(front + [x]) == Rooted(front) + "/" + x
    decreases |front|
  {
    if front == [] {
      assert Rooted([x]) == "/" + x + Rooted([]);
    } else {
      assert (front + [x])[0] == front[0];
      assert (front + [x])[1..] == front[1..] + [x];
      RootedSnoc(front[1..], x);
    }
  }

  lemma JoinedSnoc(front: seq<string>, x: string)
    requires front != []
    ensures Joined(front + [x]) == Joined(front) + "/" + x
  {
    assert (front + [x])[0] == front[0];
    assert (front + [x])[1..] == front[1..] + [x];
    RootedSnoc(front[1..], x);
  }

  /** The scan passes over a run of non-'/' characters down to index lo. */
  lemma {:induction false} SkipName(p: string, lo: int, j: int, matchedSlash: bool)
    requires 0 <= lo < j < |p|
    requires forall k :: lo < k <= j ==> p[k] != '/'
    ensures DirnameEnd(p, j, matchedSlash) == DirnameEnd(p, lo, false)
    decreases j - lo
  {
    if j - 1 > lo {
      SkipName(p, lo, j - 1, false);
    }
  }

  function Tail(trailing: bool): string {
    if trailing then "/" else ""
  }

  /** The scan's starting point: past a trailing '/', at the last character of name. */
  lemma ScanFromEnd(p: string, lo: int, name: string, trailing: bool)
    requires name != "" && '/' !in name
    requires 0 <= lo && |p| == lo + 1 + |name| + |Tail(trailing)|
    requires p[lo + 1..lo + 1 + |name|] == name
    requires trailing ==> p[|p| - 1] == '/'
    ensures DirnameEnd(p, |p| - 1, true) == DirnameEnd(p, lo, false)
  {
    var j := lo + |name|;
    forall k | lo < k <= j ensures p[k] != '/' {
      assert p[k] == p[lo + 1..lo + 1 + |name|][k - lo - 1];
    }
    SkipName(p, lo, j, trailing);
  }

  /** dirname of pre + "/" + name, with or without a trailing '/': pre, or "/"
      when pre is empty. */
  lemma DirnameSplit(pre: string, name: string, trailing: bool)
    requires name != "" && '/' !in name && pre != "/"
    ensures Dirname(pre + "/" + name + Tail(trailing)) == if pre == "" then "/" else pre
  {
    var p := pre + "/" + name + Tail(trailing);
    assert p[|pre| + 1..|pre| + 1 + |name|] == name;
    assert p[|pre|] == '/';
    ScanFromEnd(p, |pre|, name, trailing);
    assert p[..|pre|] == pre;
  }

  /** dirname of a single relative name, with or without a trailing '/', is ".". */
  lemma DirnameName(name: string, trailing: bool)
    requires name != "" && '/' !in name
    ensures Dirname(name + Tail(trailing)) == "."
  {
    var p := name + Tail(trailing);
    assert p[0] == name[0];
    if |name| > 1 {
      forall k | 0 < k <= |name| - 1 ensures p[k] != '/' {
        assert p[k] == name[k];
      }
      SkipName(p, 0, |name| - 1, !trailing);
    }
  }

  lemma NormalFront(segments: seq<string>, allowAboveRoot: bool)
    requires NormalStack(segments, allowAboveRoot) && segments != []
    ensures NormalStack(segments[..|segments| - 1], allowAboveRoot)
  {
  }

  lemma ParseRoot()
    ensures Parse("/") == Path(true, [], true)
    ensures Parse(".") == Path(false, [], false)
  {
    SplitTrailing("");
    assert "" + "/" == "/";
    assert ["", ""][..1] == [""];
    assert [""][..0] == [];
    SplitPlain(".");
    assert ["."][..0] == [];
  }

  lemma DirnameOfSingle(c: Path)
    requires NormalStack(c.segments, !c.absolute) && |c.segments| == 1
    ensures Parse(Dirname(Format(c))) == Path(c.absolute, [], c.absolute)
  {
    var name := c.segments[0];
    assert Joined(c.segments) == name;
    ParseRoot();
    if c.absolute {
      assert Format(c) == "" + "/" + name + Tail(c.trailing);
      DirnameSplit("", name, c.trailing);
    } else {
      assert Format(c) == name + Tail(c.trailing);
      DirnameName(name, c.trailing);
    }
  }

  lemma FormatSnoc(c: Path)
    requires NormalStack(c.segments, !c.absolute) && |c.segments| >= 2
    ensures var d := Path(c.absolute, c.segments[..|c.segments| - 1], false);
      Format(c) == Format(d) + "/" + c.segments[|c.segments| - 1] + Tail(c.trailing)
      && |Format(d)| >= 1 && Format(d) != "/"
  {
    var n := |c.segments|;
    var front, name := c.segments[..n - 1], c.segments[n - 1];
    assert c.segments == front + [name];
    JoinedSnoc(front, name);
    var h := if c.absolute then "/" else "";
    var j := Joined(front);
    assert Format(c) == h + (j + "/" + name) + Tail(c.trailing);
    assert Format(Path(c.absolute, front, false)) == h + j + "";
    JoinedNonEmpty(front);
    AppendAssoc(h, j, name, Tail(c.trailing));
  }

  lemma JoinedNonEmpty(front: seq<string>)
    requires front != [] && front[0] != "" && '/' !in front[0]
    ensures |Joined(front)| >= 1 && Joined(front)[0] != '/'
  {
    assert Joined(front)[0] == front[0][0];
  }

  lemma AppendAssoc(h: string, j: string, name: string, t: string)
    requires |j| >= 1 && j[0] != '/' && (h == "" || h == "/")
    ensures h + (j + "/" + name) + t == (h + j + "") + "/" + name + t
    ensures h + j + "" != "/" && |h + j + ""| >= 1
  {
    assert (h + j + "")[|h|] == j[0];
  }

  lemma DirnameOfLonger(c: Path)
    requires NormalStack(c.segments, !c.absolute) && |c.segments| >= 2
    ensures Parse(Dirname(Format(c))).absolute == c.absolute
    ensures Parse(Dirname(Format(c))).segments == c.segments[..|c.segments| - 1]
  {
    var n := |c.segments|;
    var d := Path(c.absolute, c.segments[..n - 1], false);
    FormatSnoc(c);
    DirnameSplit(Format(d), c.segments[n - 1], c.trailing);
    NormalFront(c.segments, !c.absolute);
    ParseFormat(d);
  }

  /** For a normal path with at least one segment, `path.dirname` keeps the path's
      kind and drops exactly its last segment. */
  lemma DirnameOfNormal(c: Path)
    requires NormalStack(c.segments, !c.absolute) && c.segments != []
    ensures Parse(Dirname(Format(c))).absolute == c.absolute
    ensures Parse(Dirname(Format(c))).segments == c.segments[..|c.segments| - 1]
  {
    if |c.segments| == 1 {
      DirnameOfSingle(c);
    } else {
      DirnameOfLonger(c);
    }
  }

  /** For every path with a segment, dirname of its normal form keeps its kind and
      drops its last segment. */
  lemma DirnameDropsLast(p: string)
    requires Parse(p).segments != []
    ensures Parse(Dirname(Normalize(p))).absolute == Parse(p).absolute
    ensures Parse(Dirname(Normalize(p))).segments == Parse(p).segments[..|Parse(p).segments| - 1]
  {
    ParseIsNormal(p);
    DirnameOfNormal(Parse(p));
  }
}
