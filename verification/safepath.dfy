/**
 * `safeJoin` and `parentPath` of videobrowser.go: confining a client path
 * to the base directory, and going one level up.
 *
 * The confinement test is a plain string-prefix test on the two absolute
 * paths (videobrowser.go:46). It is modelled as written; `Descends` below is
 * the segment-aware relation, used to state what does and does not follow.
 */
module SafePath {
  import opened Wrappers
  import opened Segments
  import opened Lexical
  import opened FilePath
  import opened FileSystem

  /** `safeJoin(base, rel)`, with the working directory used by `filepath.Abs`
      as the parameter `cwd`. */
  function SafeJoin(cwd: string, base: string, rel: string): (r: Result<string, PathError>)
    ensures r.Ok? <==> HasPrefix(Abs(cwd, Clean(Join(base, rel))), Abs(cwd, base))
    ensures r.Err? ==> r.error == ErrPermission
    ensures r.Ok? ==> r.value == Clean(Join(base, rel)) && Clean(r.value) == r.value
    ensures r.Ok? ==> HasPrefix(Abs(cwd, r.value), Abs(cwd, base))
    ensures r.Ok? && base != "" && !IsAbs(base) ==> !IsAbs(r.value)
  {
    var cleaned := Clean(Join(base, rel));
    var absBase := Abs(cwd, base);
    var absCleaned := Abs(cwd, cleaned);
    CleanIdempotent(Join(base, rel));
    CleanIdempotent(base + [Sep] + rel);
    if !HasPrefix(absCleaned, absBase) then Err(ErrPermission)
    else Ok(cleaned)
  }

  /** `parentPath(relPath)`: one level up, never above the root marker ".". */
  function ParentPath(relPath: string): string
  {
    var cleaned := Clean(relPath);
    if cleaned == "." || cleaned == "" then "."
    else
      var parent := Dir(cleaned);
      if parent == "." then "." else parent
  }

  /** Segment-aware confinement: `p` is `root` or lies below it, so that
      "/srv/indir2" does not count as lying below "/srv/indir". */
  predicate Descends(p: string, root: string)
  {
    && HasPrefix(p, root)
    && (|p| == |root| || (|root| > 0 && root[|root| - 1] == Sep) || p[|root|] == Sep)
  }

  // ---------------------------------------------------------------------
  // safeJoin

  /** What `SafeJoin` compares, in terms of segments: for a relative base,
      the joined path is the relative cleaning of base and rel segments, and
      both absolute paths are rooted cleanings behind the working directory. */
  lemma SafeJoinSegments(cwd: string, base: string, rel: string)
    requires IsAbs(cwd) && base != "" && !IsAbs(base)
    ensures Clean(Join(base, rel)) == Render(Normalize(Split(base) + Split(rel), false), false)
    ensures Abs(cwd, base) == Render(Normalize(Split(cwd) + Split(base), true), true)
    ensures Abs(cwd, Clean(Join(base, rel))) == Render(Normalize(Split(cwd) + Split(base) + Split(rel), true), true)
  {
    JoinedSegments(base, rel);
    AbsRelative(cwd, base);
    AbsJoinedSegments(cwd, base, rel);
  }

  /** The path `SafeJoin` returns, as segments. */
  lemma JoinedSegments(base: string, rel: string)
    requires base != "" && !IsAbs(base)
    ensures Clean(Join(base, rel)) == Render(Normalize(Split(base) + Split(rel), false), false)
  {
    JoinRelative(base, rel);
    CleanRender(Normalize(Split(base) + Split(rel), false), false);
  }

  /** The absolute form of the path `SafeJoin` returns, as segments. */
  lemma AbsJoinedSegments(cwd: string, base: string, rel: string)
    requires IsAbs(cwd) && base != "" && !IsAbs(base)
    ensures Abs(cwd, Clean(Join(base, rel))) == Render(Normalize(Split(cwd) + Split(base) + Split(rel), true), true)
  {
    var xs := Split(base) + Split(rel);
    JoinedSegments(base, rel);
    AbsJoined(cwd, xs);
    assert Split(cwd) + xs == Split(cwd) + Split(base) + Split(rel);
  }

  /** `Abs` of the relative cleaning of some segments is the rooted cleaning
      of those segments behind the working directory. */
  lemma AbsJoined(cwd: string, xs: seq<string>)
    requires IsAbs(cwd) && SlashFree(xs)
    ensures Abs(cwd, Render(Normalize(xs, false), false)) == Render(Normalize(Split(cwd) + xs, true), true)
  {
    var W := Split(cwd);
    var c := Normalize(xs, false);
    NormalizeClean(xs, false);
    AbsOfClean(cwd, c);
    FoldNormalize(Normalize(W, true), xs, true);
    FoldAppend([], W, xs, true);
  }

  /** Entering a plain-named directory and leaving it again cancels out. */
  lemma FoldIntoAndOut(s: seq<string>, b: string, rooted: bool)
    requires PlainName(b)
    ensures Fold(s, [b, ".."], rooted) == s
  {
    FoldSnoc(s, [], b, rooted);
    assert [] + [b] == [b];
    FoldSnoc(s, [b], "..", rooted);
    assert [b] + [".."] == [b, ".."];
  }

  /** Cleaning `[b, "..", n]` behind a stack leaves just `n` on it. */
  lemma FoldSibling(s: seq<string>, b: string, n: string, rooted: bool)
    requires PlainName(b) && PlainName(n)
    ensures Fold(s, [b, "..", n], rooted) == s + [n]
  {
    assert [b, "..", n] == [b, ".."] + [n];
    FoldAppend(s, [b, ".."], [n], rooted);
    FoldIntoAndOut(s, b, rooted);
    assert AllPlain([n]);
    FoldPlain(s, [n], rooted);
  }

  /** Splitting `"../" + n` for a plain name `n`. */
  lemma SplitUpThen(n: string)
    requires PlainName(n)
    ensures Split("../" + n) == ["..", n]
  {
    assert "../" + n == ".." + [Sep] + n;
    SplitConcat("..", n);
    SplitNoSep("..");
    SplitNoSep(n);
    assert Split("..") + Split(n) == [".."] + [n] == ["..", n];
  }

  /** The cleaned working directory followed by plain names. */
  lemma NormalizeCwdPlain(cwd: string, names: seq<string>)
    requires AllPlain(names)
    ensures Normalize(Split(cwd) + names, true) == Normalize(Split(cwd), true) + names
  {
    FoldAppend([], Split(cwd), names, true);
    FoldPlain(Normalize(Split(cwd), true), names, true);
  }

  /** A rooted rendering descends from the rendering of any prefix of its segments. */
  lemma RenderExtendDescends(s: seq<string>, t: seq<string>)
    ensures Descends(Render(s + t, true), Render(s, true))
  {
    if |s| == 0 {
      assert s + t == t;
    } else if |t| == 0 {
      assert s + t == s;
    } else {
      JoinSegsAppend(s, t);
      var root := Render(s, true);
      assert Render(s + t, true) == root + [Sep] + JoinSegs(t);
    }
  }

  /** The empty path and "." are accepted, and resolve to the cleaned base. */
  lemma SafeJoinAtRoot(cwd: string, base: string, rel: string)
    requires IsAbs(cwd) && base != "" && !IsAbs(base)
    requires rel == "" || rel == "."
    ensures SafeJoin(cwd, base, rel) == Ok(Clean(base))
  {
    var W, B, R := Split(cwd), Split(base), Split(rel);
    SafeJoinSegments(cwd, base, rel);
    SplitNoSep(rel);
    FoldAppend([], B, R, false);
    FoldAppend([], W + B, R, true);
    FoldSnoc(Normalize(B, false), [], rel, false);
    FoldSnoc(Normalize(W + B, true), [], rel, true);
    assert [] + [rel] == [rel];
  }

  /** A path that climbs no "..", cleaned as the tail of the base it is
      joined onto, is accepted, and it then really lies below the base,
      segment by segment. A leading "/" does not count: `Join` puts the path
      after the base all the same, so "/etc/passwd" is "indir/etc/passwd". */
  lemma SafeJoinAcceptsDownward(cwd: string, base: string, rel: string)
    requires IsAbs(cwd) && base != "" && !IsAbs(base)
    requires ".." !in Normalize(Split(rel), false)
    ensures SafeJoin(cwd, base, rel).Ok?
    ensures Descends(Abs(cwd, SafeJoin(cwd, base, rel).value), Abs(cwd, base))
  {
    var W, B, R := Split(cwd), Split(base), Split(rel);
    var c := Normalize(R, false);
    SafeJoinSegments(cwd, base, rel);
    NormalizeClean(R, false);
    assert AllPlain(c);
    FoldAppend([], W + B, R, true);
    FoldNormalize(Normalize(W + B, true), R, true);
    FoldPlain(Normalize(W + B, true), c, true);
    RenderExtendDescends(Normalize(W + B, true), c);
  }

  /** A leading "/" on the requested path changes nothing: after a non-empty
      base it only adds an empty segment, which cleaning drops. */
  lemma SafeJoinIgnoresRoot(cwd: string, base: string, r: string)
    requires base != ""
    ensures Join(base, [Sep] + r) == Join(base, r)
    ensures SafeJoin(cwd, base, [Sep] + r) == SafeJoin(cwd, base, r)
  {
    var B, R := Split(base), Split(r);
    var m := IsAbs(base);
    var p, q := base + [Sep] + ([Sep] + r), base + [Sep] + r;
    assert p[0] == base[0] && q[0] == base[0];
    SplitConcat(base, [Sep] + r);
    SplitConsSep(r);
    SplitConcat(base, r);
    assert B + ([""] + R) == (B + [""]) + R;
    FoldAppend([], B + [""], R, m);
    FoldAppend([], B, R, m);
    FoldSnoc([], B, "", m);
  }

  /** The prefix test is blind to segment boundaries: for a base `b` and any
      longer name `n` that starts with `b` ("indir" and "indir2"), the sibling
      "../n" is accepted although it does not lie below the base. */
  lemma PrefixCheckAdmitsSibling(cwd: string, b: string, n: string)
    requires IsAbs(cwd) && PlainName(b) && PlainName(n) && b < n
    ensures SafeJoin(cwd, b, "../" + n) == Ok(n)
    ensures !Descends(Abs(cwd, n), Abs(cwd, b))
  {
    SiblingResolves(cwd, b, n);
    var root := RootedDirPrefix(Normalize(Split(cwd), true));
    SiblingNotBelow(root, b, n);
  }

  /** Below a common directory prefix, a longer name does not descend from
      the name it extends. */
  lemma SiblingNotBelow(root: string, b: string, n: string)
    requires PlainName(b) && PlainName(n) && b < n
    ensures HasPrefix(root + n, root + b)
    ensures !Descends(root + n, root + b)
  {
    assert n == b + n[|b|..];
    assert (root + b)[|root + b| - 1] == b[|b| - 1];
    assert (root + n)[|root + b|] == n[|b|];
  }

  /** For plain names `b` and `n`, "../n" joined onto base `b` resolves to
      `n`, and both absolute forms end in their own name after the cleaned
      working directory. */
  lemma SiblingResolves(cwd: string, b: string, n: string)
    requires IsAbs(cwd) && PlainName(b) && PlainName(n)
    ensures Clean(Join(b, "../" + n)) == n
    ensures Abs(cwd, b) == RootedDirPrefix(Normalize(Split(cwd), true)) + b
    ensures Abs(cwd, n) == RootedDirPrefix(Normalize(Split(cwd), true)) + n
    ensures Abs(cwd, Clean(Join(b, "../" + n))) == Abs(cwd, n)
  {
    var W := Split(cwd);
    var S := Normalize(W, true);
    SplitUpThen(n);
    SplitNoSep(b);
    SplitNoSep(n);
    JoinedSegments(b, "../" + n);
    assert [b] + ["..", n] == [b, "..", n];
    FoldSibling([], b, n, false);
    assert Render([n], false) == n;
    assert AllPlain([b]) && AllPlain([n]);
    AbsRelative(cwd, b);
    AbsRelative(cwd, n);
    NormalizeCwdPlain(cwd, [b]);
    NormalizeCwdPlain(cwd, [n]);
    RenderRootedSnoc(S, b);
    RenderRootedSnoc(S, n);
  }

  // ---------------------------------------------------------------------
  // parentPath

  /** `ParentPath` renders the cleaned segments without the last one. */
  lemma ParentDropsLast(rel: string)
    ensures ParentPath(rel) == Render(DropLast(CleanSegs(rel)), IsAbs(rel))
  {
    var c := CleanSegs(rel);
    var m := IsAbs(rel);
    CleanIsRender(rel);
    DirOfClean(c, m);
    if Clean(rel) == "." {
      SplitNoSep(".");
      RenderSplit(c, m, m);
      FoldSnoc([], [], ".", m);
      assert [] + ["."] == ["."];
    }
  }

  /** At the root the parent is the root: "" and "." go to ".", and so does
      every single-segment relative path. */
  lemma ParentAtRoot(rel: string)
    requires !IsAbs(rel) && |CleanSegs(rel)| <= 1
    ensures ParentPath(rel) == "."
    ensures ParentPath(ParentPath(rel)) == "."
  {
    ParentDropsLast(rel);
    ParentDropsLast(".");
    SplitNoSep(".");
    FoldSnoc([], [], ".", false);
    assert [] + ["."] == ["."];
  }

  /** The parent's cleaned segments are the cleaned segments of the input
      minus the last one; it keeps the input's rootedness. */
  lemma ParentSegments(rel: string)
    ensures CleanSegs(ParentPath(rel)) == DropLast(CleanSegs(rel))
    ensures IsAbs(ParentPath(rel)) == IsAbs(rel)
  {
    var c := CleanSegs(rel);
    var m := IsAbs(rel);
    ParentDropsLast(rel);
    CleanIsRender(rel);
    assert IsClean(DropLast(c), m);
    RenderIsAbs(DropLast(c), m);
    RenderSplit(DropLast(c), m, m);
  }

  /** Going up from a path that climbs no ".." keeps it rooted or relative,
      climbs no ".." either, and stays accepted by `SafeJoin`. */
  lemma ParentStaysAccepted(cwd: string, base: string, rel: string)
    requires IsAbs(cwd) && base != "" && !IsAbs(base)
    requires ".." !in Normalize(Split(rel), false)
    ensures IsAbs(ParentPath(rel)) == IsAbs(rel)
    ensures ".." !in CleanSegs(ParentPath(rel))
    ensures ".." !in Normalize(Split(ParentPath(rel)), false)
    ensures SafeJoin(cwd, base, ParentPath(rel)).Ok?
  {
    ParentClimbsNoUp(rel);
    SafeJoinAcceptsDownward(cwd, base, ParentPath(rel));
  }

  /** The parent of a path that climbs no ".." climbs none either, read
      rooted or relative. */
  lemma ParentClimbsNoUp(rel: string)
    requires ".." !in Normalize(Split(rel), false)
    ensures IsAbs(ParentPath(rel)) == IsAbs(rel)
    ensures ".." !in CleanSegs(ParentPath(rel))
    ensures ".." !in Normalize(Split(ParentPath(rel)), false)
  {
    var m := IsAbs(rel);
    var c := CleanSegs(rel);
    FoldModesAgree([], Split(rel));
    assert ".." !in c;
    ParentSegments(rel);
    ParentDropsLast(rel);
    CleanIsRender(rel);
    DropLastClean(c, m);
    RenderSplit(DropLast(c), m, false);
  }

  /** Dropping the last segment of a clean list without ".." keeps it clean,
      in both modes, and without "..". */
  lemma DropLastClean(c: seq<string>, rooted: bool)
    requires IsClean(c, rooted) && ".." !in c
    ensures IsClean(DropLast(c), rooted) && IsClean(DropLast(c), false)
    ensures ".." !in DropLast(c)
  {
    var d := DropLast(c);
    assert forall i :: 0 <= i < |d| ==> d[i] == c[i];
  }

  /** The parent of an accepted path need not be accepted: "../b" is accepted
      for base `b` (it names the base itself), but its parent ".." is not. */
  lemma ParentOfAcceptedMayBeRejected(cwd: string, b: string)
    requires IsAbs(cwd) && PlainName(b)
    ensures SafeJoin(cwd, b, "../" + b) == Ok(b)
    ensures ParentPath("../" + b) == ".."
    ensures SafeJoin(cwd, b, "..").Err?
  {
    var rel := "../" + b;
    var W := Split(cwd);
    var S := Normalize(W, true);
    PrefixCheckAdmitsSiblingOrSelf(cwd, b);
    // the parent is ".."
    SplitUpThen(b);
    FoldSnoc([], [], "..", false);
    assert [] + [".."] == [".."];
    FoldSnoc([], [".."], b, false);
    assert [".."] + [b] == ["..", b];
    ParentDropsLast(rel);
    assert DropLast(["..", b]) == [".."];
    // and ".." is rejected: its absolute form is the working directory
    UpIsRejected(cwd, b);
  }

  /** "../b" names the base `b` itself and is accepted. */
  lemma PrefixCheckAdmitsSiblingOrSelf(cwd: string, b: string)
    requires IsAbs(cwd) && PlainName(b)
    ensures SafeJoin(cwd, b, "../" + b) == Ok(b)
  {
    SiblingResolves(cwd, b, b);
  }

  /** ".." climbs out of a plain-named base and is rejected. */
  lemma UpIsRejected(cwd: string, b: string)
    requires IsAbs(cwd) && PlainName(b)
    ensures SafeJoin(cwd, b, "..").Err?
  {
    var W := Split(cwd);
    var S := Normalize(W, true);
    SplitNoSep(b);
    SplitNoSep("..");
    SafeJoinSegments(cwd, b, "..");
    assert W + [b] + [".."] == W + [b, ".."];
    FoldAppend([], W, [b, ".."], true);
    FoldIntoAndOut(S, b, true);
    assert AllPlain([b]);
    NormalizeCwdPlain(cwd, [b]);
    RenderRootedSnoc(S, b);
    assert |Render(S, true)| < |Render(S + [b], true)| by {
      if |S| > 0 {
        JoinSegsAppend(S, [b]);
      }
    }
  }

  // ---------------------------------------------------------------------
  // Children of a listed directory

  /** The cleaned segments of `Join(rel, name)` are those of `rel` and then `name`. */
  lemma JoinChildSegments(rel: string, name: string)
    requires PlainName(name)
    ensures CleanSegs(Join(rel, name)) == CleanSegs(rel) + [name]
    ensures IsAbs(Join(rel, name)) == IsAbs(rel)
    ensures Join(rel, name) == Render(CleanSegs(rel) + [name], IsAbs(rel))
  {
    var m := IsAbs(rel);
    var c := CleanSegs(rel);
    SplitNoSep(name);
    CleanIsRender(rel);
    assert AllPlain([name]);
    if rel == "" {
      FoldSnoc([], [], name, false);
      assert [] + [name] == [name];
      assert c == [];
    } else {
      SplitConcat(rel, name);
      assert (rel + [Sep] + name)[0] == rel[0];
      FoldAppend([], Split(rel), [name], m);
      FoldPlain(c, [name], m);
    }
    PushClean(c, name, m);
    assert c + [name] == Push(c, name, m);
    RenderIsAbs(c + [name], m);
    RenderSplit(c + [name], m, m);
    CleanRender(c + [name], m);
  }

  /** Going into a child and then up returns to the cleaned directory. */
  lemma ChildParent(rel: string, name: string)
    requires PlainName(name)
    ensures ParentPath(Join(rel, name)) == Clean(rel)
  {
    JoinChildSegments(rel, name);
    ParentDropsLast(Join(rel, name));
    assert DropLast(CleanSegs(rel) + [name]) == CleanSegs(rel);
    CleanIsRender(rel);
  }

  /** A child of an accepted relative directory is accepted, and resolves to
      the accepted directory joined with the child's name. For a rooted
      directory this fails: see `RootedChildMisresolves`. */
  lemma ChildAccepted(cwd: string, base: string, rel: string, name: string)
    requires IsAbs(cwd) && base != "" && !IsAbs(base) && !IsAbs(rel)
    requires PlainName(name)
    requires SafeJoin(cwd, base, rel).Ok?
    ensures SafeJoin(cwd, base, Join(rel, name)).Ok?
    ensures SafeJoin(cwd, base, Join(rel, name)).value == Join(SafeJoin(cwd, base, rel).value, name)
  {
    JoinChildSegments(rel, name);
    ChildAbsolute(cwd, base, rel, name);
    ChildResolved(base, rel, name);
  }

  /** The absolute form of a child extends that of its directory by one
      segment, so it keeps the directory's prefix. */
  lemma ChildAbsolute(cwd: string, base: string, rel: string, name: string)
    requires IsAbs(cwd) && base != "" && !IsAbs(base)
    requires PlainName(name)
    requires Normalize(Split(Join(rel, name)), false) == Normalize(Split(rel), false) + [name]
    ensures Descends(Abs(cwd, Clean(Join(base, Join(rel, name)))), Abs(cwd, Clean(Join(base, rel))))
  {
    var W, B, R := Split(cwd), Split(base), Split(rel);
    var R' := Split(Join(rel, name));
    var c := Normalize(R, false);
    AbsJoinedSegments(cwd, base, rel);
    AbsJoinedSegments(cwd, base, Join(rel, name));
    var S := Normalize(W + B, true);
    FoldAppend([], W + B, R, true);
    FoldAppend([], W + B, R', true);
    FoldNormalize(S, R, true);
    FoldNormalize(S, R', true);
    FoldAppend(S, c, [name], true);
    FoldPlain(Fold(S, c, true), [name], true);
    RenderExtendDescends(Fold(S, c, true), [name]);
  }

  /** The child resolves to the resolved directory joined with its name. */
  lemma ChildResolved(base: string, rel: string, name: string)
    requires base != "" && !IsAbs(base)
    requires PlainName(name)
    requires Normalize(Split(Join(rel, name)), false) == Normalize(Split(rel), false) + [name]
    ensures Clean(Join(base, Join(rel, name))) == Join(Clean(Join(base, rel)), name)
  {
    var B, R := Split(base), Split(rel);
    var R' := Split(Join(rel, name));
    var c := Normalize(R, false);
    JoinedSegments(base, rel);
    JoinedSegments(base, Join(rel, name));
    var d := Normalize(B + R, false);
    FoldAppend([], B, R, false);
    FoldAppend([], B, R', false);
    FoldNormalize(Normalize(B, false), R, false);
    FoldNormalize(Normalize(B, false), R', false);
    FoldAppend(Normalize(B, false), c, [name], false);
    FoldPlain(d, [name], false);
    assert Normalize(B + R', false) == d + [name];
    NormalizeClean(B + R, false);
    JoinChildSegments(Render(d, false), name);
    RenderIsAbs(d, false);
    RenderSplit(d, false, false);
  }

  /** A rooted request breaks the links of its listing. "/../b" is accepted
      as the base `b` itself, but the child path `Join("/../b", n)` is
      "/b/n": rooted cleaning drops the "..". Requested again, "/b/n" is
      joined onto the base and resolves to "b/b/n", not to the child "b/n". */
  lemma RootedChildMisresolves(cwd: string, b: string, n: string)
    requires IsAbs(cwd) && PlainName(b) && PlainName(n)
    ensures SafeJoin(cwd, b, "/../" + b) == Ok(b)
    ensures Join("/../" + b, n) == [Sep] + (b + [Sep] + n)
    ensures SafeJoin(cwd, b, Join("/../" + b, n)) == Ok(b + [Sep] + (b + [Sep] + n))
    ensures SafeJoin(cwd, b, Join("/../" + b, n)).value != Join(b, n)
  {
    assert "/../" + b == [Sep] + ("../" + b);
    SafeJoinIgnoresRoot(cwd, b, "../" + b);
    PrefixCheckAdmitsSiblingOrSelf(cwd, b);
    RootedUpChild(b, n);
    var q := b + [Sep] + n;
    SafeJoinIgnoresRoot(cwd, b, q);
    NestedChild(cwd, b, n);
  }

  /** `Join("/../" + b, n)` is "/b/n". */
  lemma RootedUpChild(b: string, n: string)
    requires PlainName(b) && PlainName(n)
    ensures Join("/../" + b, n) == [Sep] + (b + [Sep] + n)
  {
    var rel := "/../" + b;
    RootedUpSegments(b);
    JoinChildSegments(rel, n);
    assert CleanSegs(rel) + [n] == [b, n];
    TwoSegments(b, n);
  }

  /** "/../b" is rooted and cleans to the single segment `b`. */
  lemma RootedUpSegments(b: string)
    requires PlainName(b)
    ensures IsAbs("/../" + b) && CleanSegs("/../" + b) == [b]
  {
    var rel := "/../" + b;
    assert rel == [Sep] + ("../" + b);
    SplitConsSep("../" + b);
    SplitUpThen(b);
    assert Split(rel) == ["", ".."] + [b];
    FoldAppend([], ["", ".."], [b], true);
    UpAtRoot();
    assert AllPlain([b]);
    FoldPlain([], [b], true);
  }

  /** At the root, an empty segment and ".." leave nothing. */
  lemma UpAtRoot()
    ensures Fold([], ["", ".."], true) == []
  {
    FoldSnoc([], [], "", true);
    assert [] + [""] == [""];
    FoldSnoc([], [""], "..", true);
    assert [""] + [".."] == ["", ".."];
  }

  /** The path of two plain segments. */
  lemma TwoSegments(b: string, n: string)
    ensures JoinSegs([b, n]) == b + [Sep] + n
  {
    assert [b, n][1..] == [n];
  }

  /** "b/n" on base `b` is accepted as "b/b/n", which is not "b/n". */
  lemma NestedChild(cwd: string, b: string, n: string)
    requires IsAbs(cwd) && PlainName(b) && PlainName(n)
    ensures SafeJoin(cwd, b, b + [Sep] + n) == Ok(b + [Sep] + (b + [Sep] + n))
    ensures Join(b, n) == b + [Sep] + n
  {
    var q := b + [Sep] + n;
    PlainPair(b, n);
    SafeJoinAcceptsDownward(cwd, b, q);
    JoinedSegments(b, q);
    SplitNoSep(b);
    assert Split(b) + Split(q) == [b] + [b, n] == [b, b, n];
    assert AllPlain([b, b, n]);
    FoldPlain([], [b, b, n], false);
    assert Normalize([b, b, n], false) == [] + [b, b, n] == [b, b, n];
    assert Clean(Join(b, q)) == Render([b, b, n], false);
    ThreeSegments(b, b, n);
  }

  /** The path of three segments. */
  lemma ThreeSegments(a: string, b: string, n: string)
    ensures Render([a, b, n], false) == a + [Sep] + (b + [Sep] + n)
  {
    assert [a, b, n][1..] == [b, n];
    TwoSegments(b, n);
  }

  /** "b/n" for plain names splits into them, and `Join(b, n)` is "b/n". */
  lemma PlainPair(b: string, n: string)
    requires PlainName(b) && PlainName(n)
    ensures Split(b + [Sep] + n) == [b, n]
    ensures Normalize([b, n], false) == [b, n]
    ensures Join(b, n) == b + [Sep] + n
  {
    SplitConcat(b, n);
    SplitNoSep(b);
    SplitNoSep(n);
    assert AllPlain([b, n]);
    FoldPlain([], [b, n], false);
    assert Render([b, n], false) == JoinSegs([b, n]);
    TwoSegments(b, n);
  }
}
