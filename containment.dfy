/** The check both edit handlers run before touching the filesystem: the requested
    filename is joined to the editable directory, and the result is accepted only
    when its normal form starts with the normal form of the directory followed by
    '/'. */
module Containment {
  import opened Wrappers
  import opened Strings
  import opened Paths

  /** Ok(filePath) when the joined path passes the check, Err(filePath) otherwise
      (the handlers then throw an error naming that path). The accepted path is the
      very string the handlers read and write: it is already normal, so the second
      `path.normalize` in the check changes nothing. */
  function Resolve(root: string, filename: string): (r: Result<string, string>)
    ensures r.Ok? ==> Normalize(r.value) == r.value && StartsWith(r.value, Normalize(root) + "/")
    ensures r == Ok(Join(root, filename)) || r == Err(Join(root, filename))
  {
    var filePath := Join(root, filename);
    JoinIsNormal(root, filename);
    if StartsWith(Normalize(filePath), Normalize(root) + "/") then Ok(filePath) else Err(filePath)
  }

  /** x lies under y component by component: both absolute or both relative, y's
      segments a prefix of x's, and x strictly longer unless it ends with '/'. */
  predicate Descends(x: Path, y: Path) {
    && x.absolute == y.absolute
    && |y.segments| <= |x.segments|
    && x.segments[..|y.segments|] == y.segments
    && (|y.segments| < |x.segments| || x.trailing)
  }

  lemma MarkedPrefix(xs: seq<string>, tx: bool, ys: seq<string>, ty: bool, rest: seq<string>)
    requires forall k :: 0 <= k < |xs| ==> xs[k] != ""
    requires forall k :: 0 <= k < |ys| ==> ys[k] != ""
    requires xs + Marker(tx) == ys + Marker(ty) + rest && rest != []
    ensures !ty && |ys| <= |xs| && xs[..|ys|] == ys && (|ys| < |xs| || tx)
  {
    var q := xs + Marker(tx);
    var p := ys + Marker(ty);
    assert |q| == |p| + |rest| > |p|;
    assert forall i :: 0 <= i < |q| ==> (q[i] == "" <==> i >= |xs|);
    forall k | 0 <= k < |ys| ensures k < |xs| && xs[k] == ys[k] {
      assert q[k] == p[k] == ys[k];
    }
    assert |ys| <= |xs|;
    assert q[|ys|] == (if ty then "" else rest[0]);
    assert q[|ys|] == "" <==> |ys| >= |xs|;
    assert xs[..|ys|] == ys;
  }

  /** The first piece tells the kind of a formatted path. */
  lemma FirstPiece(c: Path)
    requires NormalStack(c.segments, !c.absolute)
    ensures Pieces(c) != []
    ensures Pieces(c)[0] == "" <==> c.absolute
    ensures Pieces(c)[0] == "." <==> !c.absolute && c.segments == []
  {
  }

  /** Paths whose pieces start alike have the same head. */
  lemma SameHead(x: Path, y: Path, rest: seq<string>)
    requires NormalStack(x.segments, !x.absolute) && NormalStack(y.segments, !y.absolute)
    requires Pieces(x) == Pieces(y) + rest
    ensures Head(x) == Head(y)
  {
    FirstPiece(x);
    FirstPiece(y);
    assert Pieces(x)[0] == Pieces(y)[0];
  }

  lemma CancelFront(h: seq<string>, a: seq<string>, b: seq<string>)
    requires h + a == h + b
    ensures a == b
  {
    assert a == (h + a)[|h|..] == (h + b)[|h|..] == b;
  }

  /** When the pieces of y, then more, are the pieces of x, x lies under y. */
  lemma PiecesPrefix(x: Path, y: Path, rest: seq<string>)
    requires NormalStack(x.segments, !x.absolute) && NormalStack(y.segments, !y.absolute)
    requires Pieces(x) == Pieces(y) + rest && rest != []
    ensures Descends(x, y) && !y.trailing && (y.absolute ==> y.segments != [])
  {
    SameHead(x, y, rest);
    var h := Head(x);
    var tx, ty := EndsInSlash(x), EndsInSlash(y);
    var a := x.segments + Marker(tx);
    var b := y.segments + Marker(ty) + rest;
    assert Pieces(x) == h + a;
    assert Pieces(y) + rest == h + b;
    CancelFront(h, a, b);
    MarkedPrefix(x.segments, tx, y.segments, ty, rest);
  }

  lemma TrailingIsEndsWith(p: string)
    ensures Parse(p).trailing == EndsWith(p, "/")
  {
    if p != "" {
      assert p[|p| - 1..] == [p[|p| - 1]];
    }
  }

  /** Every accepted filename names a path under the root, component by component,
      and only roots that do not end with '/' (and so are not "/") accept anything.
      The inclusion is strict unless the resolved path ends with '/': the check as
      written accepts "/" or "./", which name the root directory itself. */
  lemma AcceptedIsDescendant(root: string, filename: string)
    ensures Resolve(root, filename).Ok? ==> Descends(Parse(Join(root, filename)), Parse(root))
    ensures Resolve(root, filename).Ok? ==> !EndsWith(root, "/") && root != "/"
    ensures Resolve(root, filename).Ok? ==> !(Parse(root).absolute && Parse(root).segments == [])
  {
    var filePath := Join(root, filename);
    var x, y := Parse(filePath), Parse(root);
    var s, t := Normalize(filePath), Normalize(root);
    TrailingIsEndsWith(root);
    if StartsWith(s, t + "/") {
      var tail := s[|t| + 1..];
      assert s == t + "/" + tail;
      SplitAppend(t, tail);
      ParseIsNormal(filePath);
      ParseIsNormal(root);
      FormatSplit(x);
      FormatSplit(y);
      PiecesPrefix(x, y, Split(tail));
    }
  }

  lemma {:induction false} RootedAppend(a: seq<string>, b: seq<string>)
    ensures Rooted(a + b) == Rooted(a) + Rooted(b)
  {
    if a != [] {
      assert (a + b)[0] == a[0];
      assert (a + b)[1..] == a[1..] + b;
      RootedAppend(a[1..], b);
    } else {
      assert a + b == b;
    }
  }

  lemma JoinedAppend(a: seq<string>, b: seq<string>)
    requires a != []
    ensures Joined(a + b) == Joined(a) + Rooted(b)
  {
    assert (a + b)[0] == a[0];
    assert (a + b)[1..] == a[1..] + b;
    RootedAppend(a[1..], b);
  }

  /** The format of a path under y continues the format of y. */
  lemma FormatContinues(x: Path, y: Path)
    requires y.segments != [] && !y.trailing
    requires Descends(x, y)
    ensures Format(x) == Format(y) + (Rooted(x.segments[|y.segments|..]) + (if x.trailing then "/" else ""))
  {
    var more := x.segments[|y.segments|..];
    assert x.segments == y.segments + more;
    JoinedAppend(y.segments, more);
  }

  /** What follows the format of y starts with '/'. */
  lemma ContinuationSlash(more: seq<string>, trailing: bool)
    requires more != [] || trailing
    ensures var t := Rooted(more) + (if trailing then "/" else ""); |t| > 0 && t[0] == '/'
  {
  }

  lemma SlashTail(f: string, t: string)
    requires |t| > 0 && t[0] == '/'
    ensures StartsWith(f + t, f + "/")
  {
    assert (f + t)[..|f| + 1] == f + "/";
  }

  /** A path under y formats as y's format, '/', and more. */
  lemma FormatExtends(x: Path, y: Path)
    requires y.segments != [] && !y.trailing
    requires Descends(x, y)
    ensures StartsWith(Format(x), Format(y) + "/")
  {
    var more := x.segments[|y.segments|..];
    FormatContinues(x, y);
    ContinuationSlash(more, x.trailing);
    SlashTail(Format(y), Rooted(more) + (if x.trailing then "/" else ""));
  }

  /** Conversely, for a root that has at least one segment and does not end with
      '/', every path under it is accepted. */
  lemma DescendantIsAccepted(root: string, filename: string)
    requires Parse(root).segments != [] && !EndsWith(root, "/")
    requires Descends(Parse(Join(root, filename)), Parse(root))
    ensures Resolve(root, filename).Ok?
  {
    TrailingIsEndsWith(root);
    FormatExtends(Parse(Join(root, filename)), Parse(root));
  }

  /** Both directions together, for a root with a segment and no trailing '/'. */
  lemma AcceptedIff(root: string, filename: string)
    requires Parse(root).segments != [] && !EndsWith(root, "/")
    ensures Resolve(root, filename).Ok? <==> Descends(Parse(Join(root, filename)), Parse(root))
  {
    AcceptedIsDescendant(root, filename);
    if Descends(Parse(Join(root, filename)), Parse(root)) {
      DescendantIsAccepted(root, filename);
    }
  }

  /** A root ending with '/' (so also "/") rejects every filename: its normal form
      keeps the '/', and no normal path contains "//". */
  lemma TrailingSlashRootRejectsAll(root: string, filename: string)
    requires EndsWith(root, "/")
    ensures Resolve(root, filename).Err?
  {
    AcceptedIsDescendant(root, filename);
  }

  /** A filename that leaves the root's segments as they are and adds no trailing
      '/' names the root itself, and is rejected. */
  lemma SameSegmentsRejected(root: string, filename: string)
    requires Parse(Join(root, filename)).segments == Parse(root).segments
    requires !Parse(Join(root, filename)).trailing
    ensures Resolve(root, filename).Err?
  {
    AcceptedIsDescendant(root, filename);
  }

  /** The fold of root + "/" + filename continues from the fold of root. */
  lemma ParseJoined(root: string, filename: string)
    requires root != "" && filename != ""
    ensures Parse(root + "/" + filename).absolute == Parse(root).absolute
    ensures Parse(root + "/" + filename).segments
         == Steps(Parse(root).segments, Split(filename), !Parse(root).absolute)
    ensures Parse(root + "/" + filename).trailing == (filename[|filename| - 1] == '/')
  {
    ParsedAt(root, filename, root + "/" + filename);
  }

  lemma ParsedAt(root: string, filename: string, s: string)
    requires root != "" && filename != "" && s == root + "/" + filename
    ensures Parse(s) == Path(root[0] == '/', Steps(Parse(root).segments, Split(filename), root[0] != '/'),
                             filename[|filename| - 1] == '/')
  {
    assert s[0] == root[0];
    assert s[|s| - 1] == filename[|filename| - 1];
    SplitAppend(root, filename);
    StepsAppend([], Split(root), Split(filename), root[0] != '/');
  }

  /** The parse of a joined path, read back from the string `path.join` returns. */
  lemma ParseJoin(root: string, filename: string)
    requires root != "" && filename != ""
    ensures Parse(Join(root, filename)).absolute == Parse(root).absolute
    ensures Parse(Join(root, filename)).segments
         == Steps(Parse(root).segments, Split(filename), !Parse(root).absolute)
  {
    ParseJoined(root, filename);
    ParseIsNormal(root + "/" + filename);
    ParseFormat(Parse(root + "/" + filename));
  }

  /** The root itself, named as "" or ".", is rejected. */
  lemma RootItselfRejected(root: string)
    ensures Resolve(root, "").Err?
    ensures Resolve(root, ".").Err?
  {
    var y := Parse(root);
    ParseIsNormal(root);
    AcceptedIsDescendant(root, "");
    AcceptedIsDescendant(root, ".");
    TrailingIsEndsWith(root);
    ParseRoot();
    if root == "" {
      assert Join(root, "") == ".";
      assert Normalize(".") == ".";
      assert Join(root, ".") == ".";
      SameSegmentsRejected(root, "");
      SameSegmentsRejected(root, ".");
    } else {
      assert Join(root, "") == Format(y);
      ParseFormat(y);
      ParseJoin(root, ".");
      SplitPlain(".");
      assert Steps(y.segments, ["."], !y.absolute) == y.segments by {
        assert ["."][..0] == [];
      }
      ParseJoined(root, ".");
      ParseIsNormal(root + "/.");
      ParseFormat(Parse(root + "/."));
    }
  }

  /** The segments a fold keeps when none of them is "..". */
  function Names(segments: seq<string>): seq<string>
    decreases |segments|
  {
    if segments == [] then []
    else
      var last := segments[|segments| - 1];
      Names(segments[..|segments| - 1]) + (if last == "" || last == "." then [] else [last])
  }

  lemma {:induction false} StepsWithoutParent(stack: seq<string>, segments: seq<string>, allowAboveRoot: bool)
    requires forall k :: 0 <= k < |segments| ==> segments[k] != ".."
    ensures Steps(stack, segments, allowAboveRoot) == stack + Names(segments)
    decreases |segments|
  {
    if segments != [] {
      StepsWithoutParent(stack, segments[..|segments| - 1], allowAboveRoot);
    }
  }

  /** A filename with no ".." segment and at least one name is accepted under any
      root that has a segment and no trailing '/', and resolves to the root's
      segments followed by the filename's names. */
  lemma PlainNameAccepted(root: string, filename: string)
    requires Parse(root).segments != [] && !EndsWith(root, "/")
    requires forall k :: 0 <= k < |Split(filename)| ==> Split(filename)[k] != ".."
    requires Names(Split(filename)) != []
    ensures Resolve(root, filename).Ok?
    ensures Parse(Join(root, filename)).segments == Parse(root).segments + Names(Split(filename))
  {
    var y := Parse(root);
    StepsWithoutParent(y.segments, Split(filename), !y.absolute);
    ParseJoin(root, filename);
    DescendantIsAccepted(root, filename);
  }

  /** The same root followed by "/" is accepted: the check lets through the root
      directory itself when it is named with a trailing '/'. */
  lemma RootWithSlashAccepted(root: string)
    requires Parse(root).segments != [] && !EndsWith(root, "/")
    ensures Resolve(root, "/").Ok?
    ensures Parse(Join(root, "/")).segments == Parse(root).segments
  {
    var y := Parse(root);
    assert Split("/") == ["", ""] by { SplitTrailing(""); assert "" + "/" == "/"; }
    StepsWithoutParent(y.segments, Split("/"), !y.absolute);
    assert Names(["", ""]) == [] by {
      assert ["", ""][..1] == [""];
      assert [""][..0] == [];
    }
    ParseJoined(root, "/");
    ParseIsNormal(root + "/" + "/");
    ParseFormat(Parse(root + "/" + "/"));
    DescendantIsAccepted(root, "/");
  }

  lemma SplitParent(rest: string)
    ensures Split("../" + rest) == [".."] + Split(rest)
  {
    assert "../" + rest == ".." + "/" + rest;
    SplitAppend("..", rest);
    SplitPlain("..");
  }

  /** ".." pops a last segment that is not "..". */
  lemma PopLast(stack: seq<string>, allowAboveRoot: bool)
    requires stack != [] && stack[|stack| - 1] != ".."
    ensures Steps(stack, [".."], allowAboveRoot) == stack[..|stack| - 1]
  {
    assert [".."][..0] == [];
  }

  lemma ParentThenNames(stack: seq<string>, rest: string, allowAboveRoot: bool)
    requires stack != [] && stack[|stack| - 1] != ".."
    requires forall k :: 0 <= k < |Split(rest)| ==> Split(rest)[k] != ".."
    ensures Steps(stack, [".."] + Split(rest), allowAboveRoot) == stack[..|stack| - 1] + Names(Split(rest))
  {
    StepsAppend(stack, [".."], Split(rest), allowAboveRoot);
    PopLast(stack, allowAboveRoot);
    StepsWithoutParent(stack[..|stack| - 1], Split(rest), allowAboveRoot);
  }

  /** The fold of root + "/.." + "/" + rest: the root's last segment is dropped,
      and the names of rest follow. */
  lemma ParentEscapeSegments(root: string, rest: string)
    requires Parse(root).segments != []
    requires Parse(root).segments[|Parse(root).segments| - 1] != ".."
    requires forall k :: 0 <= k < |Split(rest)| ==> Split(rest)[k] != ".."
    ensures Parse(Join(root, "../" + rest)).segments
         == Parse(root).segments[..|Parse(root).segments| - 1] + Names(Split(rest))
  {
    var y := Parse(root);
    SplitParent(rest);
    ParentThenNames(y.segments, rest, !y.absolute);
    ParseJoin(root, "../" + rest);
  }

  /** A filename that first climbs out of the root's last segment with "..", and then
      does not come back into that same segment, is rejected. */
  lemma ParentEscapeRejected(root: string, rest: string)
    requires Parse(root).segments != []
    requires Parse(root).segments[|Parse(root).segments| - 1] != ".."
    requires forall k :: 0 <= k < |Split(rest)| ==> Split(rest)[k] != ".."
    requires Names(Split(rest)) == [] || Names(Split(rest))[0] != Parse(root).segments[|Parse(root).segments| - 1]
    ensures Resolve(root, "../" + rest).Err?
  {
    var y := Parse(root);
    var n := |y.segments|;
    var names := Names(Split(rest));
    ParentEscapeSegments(root, rest);
    AcceptedIsDescendant(root, "../" + rest);
    var xs := Parse(Join(root, "../" + rest)).segments;
    assert xs == y.segments[..n - 1] + names;
    assert |xs| >= n ==> xs[n - 1] == names[0];
  }

  // ---------------------------------------------------------------------------
  // Containment on disk: where the paths land once resolved against the
  // working directory

  /** The segments of `path.resolve(cwd, p)` for a working directory whose
      segments are cwd: a relative path is folded onto cwd, where a ".." at the
      top stays at the top. */
  function Resolved(cwd: seq<string>, p: Path): seq<string> {
    if p.absolute then p.segments else Steps(cwd, p.segments, false)
  }

  /** x lies under y on disk: y's resolved segments are a prefix of x's, and x is
      strictly longer unless it names y itself with a trailing '/'. */
  predicate Inside(cwd: seq<string>, x: Path, y: Path) {
    var q, r := Resolved(cwd, x), Resolved(cwd, y);
    && |r| <= |q|
    && q[..|r|] == r
    && (|r| < |q| || x.trailing)
  }

  lemma {:induction false} NamesOfNames(t: seq<string>)
    requires forall k :: 0 <= k < |t| ==> t[k] != "" && t[k] != "."
    ensures Names(t) == t
    decreases |t|
  {
    if t != [] {
      NamesOfNames(t[..|t| - 1]);
      assert t == t[..|t| - 1] + [t[|t| - 1]];
    }
  }

  lemma {:induction false} NamesWithoutParent(t: seq<string>)
    requires forall k :: 0 <= k < |t| ==> t[k] != ".."
    ensures forall k :: 0 <= k < |Names(t)| ==> Names(t)[k] != ".."
    decreases |t|
  {
    if t != [] {
      NamesWithoutParent(t[..|t| - 1]);
    }
  }

  /** A descendant that only goes down (no ".." past the ancestor's segments)
      stays under the ancestor on disk, whatever the working directory. */
  lemma DownwardIsInside(cwd: seq<string>, x: Path, y: Path)
    requires Descends(x, y)
    requires NormalStack(x.segments, !x.absolute)
    requires forall k :: |y.segments| <= k < |x.segments| ==> x.segments[k] != ".."
    ensures Inside(cwd, x, y)
  {
    var t := x.segments[|y.segments|..];
    assert x.segments == y.segments + t;
    if !x.absolute {
      StepsAppend(cwd, y.segments, t, false);
      StepsWithoutParent(Steps(cwd, y.segments, false), t, false);
      NamesOfNames(t);
    }
  }

  /** In a normal stack, ".." comes only before the names. */
  lemma NoParentAfter(s: seq<string>, allowAboveRoot: bool, i: int)
    requires NormalStack(s, allowAboveRoot)
    requires 0 <= i < |s| && s[i] != ".."
    ensures forall k :: i <= k < |s| ==> s[k] != ".."
  {
    forall k | i < k < |s|
      ensures s[k] != ".."
    {
      assert s[i] != ".." ==> s[k] != "..";
    }
  }

  /** When the root's last segment is not "..", nothing the check accepts climbs
      with "..": every segment past the root's is a name. */
  lemma AcceptedAddsNoParent(root: string, filename: string)
    requires Parse(root).segments != []
    requires Parse(root).segments[|Parse(root).segments| - 1] != ".."
    ensures Resolve(root, filename).Ok? ==>
      var x, n := Parse(Join(root, filename)), |Parse(root).segments|;
      forall k :: n <= k < |x.segments| ==> x.segments[k] != ".."
  {
    if Resolve(root, filename).Ok? {
      var x, y := Parse(Join(root, filename)), Parse(root);
      var n := |y.segments|;
      AcceptedIsDescendant(root, filename);
      ParseIsNormal(Join(root, filename));
      assert x.segments[n - 1] == y.segments[n - 1];
      NoParentAfter(x.segments, !x.absolute, n - 1);
    }
  }

  /** A relative root with no segments ("." or "") accepts only paths naming the
      root itself with a trailing '/', such as "./": the normal form of every
      other path does not start with "./". */
  lemma EmptyRootAcceptsOnlyItself(root: string, filename: string)
    requires !Parse(root).absolute && Parse(root).segments == []
    ensures Resolve(root, filename).Ok? ==>
      Parse(Join(root, filename)).segments == [] && Parse(Join(root, filename)).trailing
  {
    var filePath := Join(root, filename);
    var x, y := Parse(filePath), Parse(root);
    var s, t := Normalize(filePath), Normalize(root);
    AcceptedIsDescendant(root, filename);
    if StartsWith(s, t + "/") {
      var tail := s[|t| + 1..];
      assert s == t + "/" + tail;
      SplitAppend(t, tail);
      ParseIsNormal(filePath);
      ParseIsNormal(root);
      FormatSplit(x);
      FormatSplit(y);
      FirstPiece(x);
      FirstPiece(y);
      assert Pieces(x) == Pieces(y) + Split(tail);
      assert Pieces(x)[0] == Pieces(y)[0];
    }
  }

  /** An absolute root with no segments, such as "/." or "/..", normalizes to "/"
      and rejects every filename. */
  lemma AbsoluteEmptyRootRejectsAll(root: string, filename: string)
    requires Parse(root).absolute && Parse(root).segments == []
    ensures Resolve(root, filename).Err?
  {
    AcceptedIsDescendant(root, filename);
  }

  /** The root "/." rejects the filename "x". */
  lemma SlashDotRootRejectsPlainName()
    ensures Resolve("/.", "x").Err?
  {
    assert "/." == "" + "/" + ".";
    SplitAppend("", ".");
    SplitPlain(".");
    assert Steps([], ["", "."], false) == [] by {
      assert ["", "."][..1] == [""];
      assert [""][..0] == [];
    }
    AbsoluteEmptyRootRejectsAll("/.", "x");
  }

  /** Whenever the root's last segment is not "..", what the check accepts lies
      under the root on disk, for every working directory. */
  lemma AcceptedStaysInside(cwd: seq<string>, root: string, filename: string)
    requires Parse(root).segments == [] || Parse(root).segments[|Parse(root).segments| - 1] != ".."
    ensures Resolve(root, filename).Ok? ==> Inside(cwd, Parse(Join(root, filename)), Parse(root))
  {
    if Resolve(root, filename).Ok? {
      var x, y := Parse(Join(root, filename)), Parse(root);
      AcceptedIsDescendant(root, filename);
      ParseIsNormal(Join(root, filename));
      if y.segments != [] {
        AcceptedAddsNoParent(root, filename);
      } else if !y.absolute {
        EmptyRootAcceptsOnlyItself(root, filename);
      }
      DownwardIsInside(cwd, x, y);
    }
  }

  lemma ParseParentParentX()
    ensures Parse("../../x") == Path(false, ["..", "..", "x"], false)
  {
    var s := "../../x";
    assert s == ".." + "/" + ("..") + "/" + "x";
    SplitAppend("..", "../x");
    assert "../x" == ".." + "/" + "x";
    SplitAppend("..", "x");
    SplitPlain("..");
    SplitPlain("x");
    assert Split(s) == ["..", "..", "x"];
    assert ["..", "..", "x"][..2] == ["..", ".."];
    assert ["..", ".."][..1] == [".."];
    assert [".."][..0] == [];
  }

  /** With the root "..", the check as written accepts "../x", which resolves to
      "../../x": in the working directory /a/b the root is /a and the file /x. */
  lemma ParentRootEscapes()
    ensures Resolve("..", "../x") == Ok("../../x")
    ensures Resolved(["a", "b"], Parse("..")) == ["a"]
    ensures Resolved(["a", "b"], Parse("../../x")) == ["x"]
    ensures !Inside(["a", "b"], Parse(Join("..", "../x")), Parse(".."))
  {
    NormalParents();
    ParseParentParentX();
    assert Join("..", "../x") == Normalize("../../x") by {
      assert ".." + "/" + "../x" == "../../x";
    }
    assert StartsWith("../../x", ".." + "/");
    ParentStepsFromAB();
  }

  lemma NormalParents()
    ensures Parse("..") == Path(false, [".."], false) && Normalize("..") == ".."
    ensures Normalize("../../x") == "../../x"
  {
    SplitPlain("..");
    assert [".."][..0] == [];
    ParseParentParentX();
    FormatParentParentX();
  }

  lemma FormatParentParentX()
    ensures Format(Path(false, ["..", "..", "x"], false)) == "../../x"
  {
    assert ["..", "..", "x"][1..] == ["..", "x"];
    assert ["..", "x"][1..] == ["x"];
    assert ["x"][1..] == [];
  }

  lemma ParentStepsFromAB()
    ensures Steps(["a", "b"], [".."], false) == ["a"]
    ensures Steps(["a", "b"], ["..", "..", "x"], false) == ["x"]
  {
    assert [".."][..0] == [];
    assert ["..", "..", "x"][..2] == ["..", ".."];
    assert ["..", ".."][..1] == [".."];
  }

  /** With the root ".", the check as written rejects the plain name "x". */
  lemma DotRootRejectsPlainName()
    ensures Resolve(".", "x").Err?
  {
    ParseRoot();
    EmptyRootAcceptsOnlyItself(".", "x");
    ParseJoin(".", "x");
    SplitPlain("x");
    assert Steps([], ["x"], true) == ["x"] by { assert ["x"][..0] == []; }
  }

  // ---------------------------------------------------------------------------
  // The check as evidently intended

  /** Ok(filePath) exactly when the joined path continues the root's own segments
      and only goes down from there. */
  function Within(root: string, filename: string): (r: Result<string, string>)
    ensures r == Ok(Join(root, filename)) || r == Err(Join(root, filename))
  {
    var x, y := Parse(Join(root, filename)), Parse(root);
    if Descends(x, y) && forall k :: |y.segments| <= k < |x.segments| ==> x.segments[k] != ".." then
      Ok(Join(root, filename))
    else
      Err(Join(root, filename))
  }

  /** What Within accepts lies under the root on disk, for every root and every
      working directory. */
  lemma WithinStaysInside(cwd: seq<string>, root: string, filename: string)
    ensures Within(root, filename).Ok? ==> Inside(cwd, Parse(Join(root, filename)), Parse(root))
  {
    if Within(root, filename).Ok? {
      ParseIsNormal(Join(root, filename));
      DownwardIsInside(cwd, Parse(Join(root, filename)), Parse(root));
    }
  }

  /** For the roots the check as written handles (a last segment that is not "..",
      no trailing '/'), Within decides exactly as it does. */
  lemma WithinAgrees(root: string, filename: string)
    requires Parse(root).segments != [] && !EndsWith(root, "/")
    requires Parse(root).segments[|Parse(root).segments| - 1] != ".."
    ensures Within(root, filename) == Resolve(root, filename)
  {
    AcceptedIff(root, filename);
    AcceptedAddsNoParent(root, filename);
  }

  /** Under every non-empty root, including ".", ".." and roots ending with '/', a
      filename with a name and no ".." is accepted. */
  lemma WithinAcceptsPlainNames(root: string, filename: string)
    requires root != ""
    requires forall k :: 0 <= k < |Split(filename)| ==> Split(filename)[k] != ".."
    requires Names(Split(filename)) != []
    ensures Within(root, filename).Ok?
  {
    var y := Parse(root);
    StepsWithoutParent(y.segments, Split(filename), !y.absolute);
    NamesWithoutParent(Split(filename));
    ParseJoin(root, filename);
    var x := Parse(Join(root, filename));
    assert x.segments == y.segments + Names(Split(filename));
    assert x.segments[..|y.segments|] == y.segments;
  }

  /** The escape from the root ".." is refused. */
  lemma WithinRefusesParentEscape()
    ensures Within("..", "../x").Err?
  {
    ParentRootEscapes();
    WithinStaysInside(["a", "b"], "..", "../x");
  }

  /** The plain name "x" under the root "." is accepted. */
  lemma WithinAcceptsUnderDot()
    ensures Within(".", "x").Ok?
  {
    SplitPlain("x");
    assert Names(["x"]) == ["x"] by { assert ["x"][..0] == []; }
    WithinAcceptsPlainNames(".", "x");
  }

  /** The plain name "x" under the root "/srv/" is accepted. */
  lemma WithinAcceptsUnderSlashRoot()
    ensures Within("/srv/", "x").Ok?
  {
    SplitPlain("x");
    assert Names(["x"]) == ["x"] by { assert ["x"][..0] == []; }
    WithinAcceptsPlainNames("/srv/", "x");
  }

  /** Under the check as written, the same root "/srv/" rejects "x". */
  lemma SlashRootRejectsPlainName()
    ensures Resolve("/srv/", "x").Err?
  {
    TrailingSlashRootRejectsAll("/srv/", "x");
  }
}
