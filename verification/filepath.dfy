/**
 * The lexical functions of Go's `path/filepath` on a Unix system that the
 * browser uses: Clean, Join, Abs (with the working directory as a
 * parameter), Dir and Ext.
 */
module FilePath {
  import opened Segments
  import opened Lexical

  /** `filepath.IsAbs`: the path starts at the root. */
  predicate IsAbs(p: string)
  {
    |p| > 0 && p[0] == Sep
  }

  /** `strings.HasPrefix(s, prefix)`: a plain string test, blind to segment boundaries. */
  predicate HasPrefix(s: string, prefix: string)
  {
    prefix <= s
  }

  /** Turns cleaned segments back into a path: "." for the empty relative
      path, a leading "/" for a rooted one. */
  function Render(c: seq<string>, rooted: bool): string
  {
    if rooted then [Sep] + JoinSegs(c)
    else if |c| == 0 then "."
    else JoinSegs(c)
  }

  /** `filepath.Clean`: the shortest lexically equivalent path. */
  function Clean(p: string): string
  {
    if p == "" then "."
    else Render(Normalize(Split(p), IsAbs(p)), IsAbs(p))
  }

  /** `filepath.Join(a, b)`: leading empty elements are skipped, the rest are
      joined with a separator and cleaned; all-empty gives "". */
  function Join(a: string, b: string): string
  {
    if a != "" then Clean(a + [Sep] + b)
    else if b != "" then Clean(b)
    else ""
  }

  /** `filepath.Abs`, with the process working directory `cwd` as a parameter. */
  function Abs(cwd: string, p: string): string
  {
    if IsAbs(p) then Clean(p) else Join(cwd, p)
  }

  /** Index of the last separator in `p`, or -1 when there is none. */
  function LastSep(p: string): (i: int)
    ensures -1 <= i < |p|
    ensures i >= 0 ==> p[i] == Sep
    ensures forall k :: i < k < |p| ==> p[k] != Sep
  {
    if |p| == 0 then -1
    else if p[|p| - 1] == Sep then |p| - 1
    else LastSep(p[..|p| - 1])
  }

  /** `filepath.Dir`: everything up to and including the last separator, cleaned. */
  function Dir(p: string): string
  {
    Clean(p[..LastSep(p) + 1])
  }

  /** `filepath.Ext`: the suffix starting at the last "." of the final
      element, or "" when the final element has no ".". */
  function Ext(p: string): string
  {
    if |p| == 0 || p[|p| - 1] == Sep then ""
    else if p[|p| - 1] == '.' then "."
    else
      var e := Ext(p[..|p| - 1]);
      if e == "" then "" else e + [p[|p| - 1]]
  }

  /** `Ext` is a suffix of the path that starts at a "." and holds no other
      "." and no separator; it is empty only when the final element of the
      path has no ".". */
  lemma {:induction false} ExtShape(p: string)
    ensures var e := Ext(p);
      && |e| <= |p| && p[|p| - |e|..] == e
      && (e != "" ==> e[0] == '.' && Sep !in e && '.' !in e[1..])
      && (e == "" ==> forall k :: 0 <= k < |p| && Sep !in p[k..] ==> p[k] != '.')
  {
    if |p| > 0 {
      var n := |p|;
      var c := p[n - 1];
      if c == Sep {
        forall k | 0 <= k < n
          ensures Sep in p[k..]
        {
          assert p[k..][n - 1 - k] == Sep;
        }
      } else if c != '.' {
        var f := p[..n - 1];
        ExtShape(f);
        var e := Ext(f);
        if e == "" {
          forall k | 0 <= k < n - 1
            ensures f[k..] <= p[k..]
          {
            assert p[k..] == f[k..] + [c];
          }
        } else {
          assert p[n - |e| - 1..] == f[n - 1 - |e|..] + [c];
          assert (e + [c])[1..] == e[1..] + [c];
        }
      }
    }
  }

  // ---------------------------------------------------------------------
  // Shape of Clean's output

  /** A rendered clean list is rooted exactly when it was rendered rooted. */
  lemma RenderIsAbs(c: seq<string>, rooted: bool)
    requires IsClean(c, rooted)
    ensures IsAbs(Render(c, rooted)) == rooted
  {
    if !rooted && |c| > 0 {
      JoinSegsHead(c);
    }
  }

  /** Splitting and cleaning a rendered clean list, in any mode its shape
      allows, gives back the list. */
  lemma RenderSplit(c: seq<string>, rooted: bool, mode: bool)
    requires IsClean(c, rooted)
    requires IsClean(c, mode)
    ensures Normalize(Split(Render(c, rooted)), mode) == c
  {
    if rooted {
      if |c| == 0 {
        SplitConcat("", "");
        assert Render(c, rooted) == "" + [Sep] + "";
        FoldSnoc([], [], "", mode);
        FoldSnoc([], [""], "", mode);
        assert [] + [""] == [""];
      } else {
        SplitConcat("", JoinSegs(c));
        assert Render(c, rooted) == "" + [Sep] + JoinSegs(c);
        SplitJoin(c);
        FoldAppend([], [""], c, mode);
        NormalizeIdempotent(c, mode);
      }
    } else if |c| == 0 {
      SplitNoSep(".");
      FoldSnoc([], [], ".", mode);
      assert [] + ["."] == ["."];
    } else {
      SplitJoin(c);
      NormalizeIdempotent(c, mode);
    }
  }

  /** Cleaning a rendered clean list changes nothing. */
  lemma CleanRender(c: seq<string>, rooted: bool)
    requires IsClean(c, rooted)
    ensures Clean(Render(c, rooted)) == Render(c, rooted)
  {
    RenderIsAbs(c, rooted);
    RenderSplit(c, rooted, rooted);
  }

  /** `filepath.Clean` is idempotent, keeps rootedness, and its segments
      have the clean shape. */
  lemma CleanIdempotent(p: string)
    ensures Clean(Clean(p)) == Clean(p)
    ensures p != "" ==> IsAbs(Clean(p)) == IsAbs(p)
  {
    if p != "" {
      NormalizeClean(Split(p), IsAbs(p));
      CleanRender(Normalize(Split(p), IsAbs(p)), IsAbs(p));
      RenderIsAbs(Normalize(Split(p), IsAbs(p)), IsAbs(p));
    } else {
      CleanRender([], false);
    }
  }

  /** The cleaned segments of a path: what `Clean` renders. */
  function CleanSegs(p: string): seq<string>
  {
    Normalize(Split(p), IsAbs(p))
  }

  /** `Clean` renders the cleaned segments, also for the empty path. */
  lemma CleanIsRender(p: string)
    ensures Clean(p) == Render(CleanSegs(p), IsAbs(p))
    ensures IsClean(CleanSegs(p), IsAbs(p))
  {
    NormalizeClean(Split(p), IsAbs(p));
    if p == "" {
      FoldSnoc([], [], "", false);
      assert [] + [""] == [""];
    }
  }

  /** `Join(a, b)` of a non-empty relative `a` cleans the relative
      concatenation of both segment lists. */
  lemma JoinRelative(a: string, b: string)
    requires a != "" && !IsAbs(a)
    ensures Join(a, b) == Render(Normalize(Split(a) + Split(b), false), false)
    ensures IsClean(Normalize(Split(a) + Split(b), false), false)
  {
    SplitConcat(a, b);
    assert (a + [Sep] + b)[0] == a[0];
    NormalizeClean(Split(a) + Split(b), false);
  }

  /** `Abs` of a relative path appends its segments to those of the working
      directory and cleans the result as a rooted path. */
  lemma AbsRelative(cwd: string, p: string)
    requires IsAbs(cwd) && !IsAbs(p)
    ensures Abs(cwd, p) == Render(Normalize(Split(cwd) + Split(p), true), true)
  {
    SplitConcat(cwd, p);
    assert (cwd + [Sep] + p)[0] == Sep;
  }

  /** `Abs` of a rendered clean relative path: its segments are scanned onto
      the cleaned working directory. */
  lemma AbsOfClean(cwd: string, c: seq<string>)
    requires IsAbs(cwd) && IsClean(c, false)
    ensures Abs(cwd, Render(c, false)) == Render(Fold(Normalize(Split(cwd), true), c, true), true)
  {
    var W := Split(cwd);
    var X := Split(Render(c, false));
    RenderIsAbs(c, false);
    AbsRelative(cwd, Render(c, false));
    FoldAppend([], W, X, true);
    FoldNormalize(Normalize(W, true), X, true);
    RenderSplit(c, false, false);
  }

  /** The leading part of a rooted rendering that precedes its last segment. */
  function RootedDirPrefix(s: seq<string>): string
  {
    if |s| == 0 then [Sep] else [Sep] + JoinSegs(s) + [Sep]
  }

  /** A rooted rendering ends with its last segment after a separator. */
  lemma RenderRootedSnoc(s: seq<string>, x: string)
    ensures Render(s + [x], true) == RootedDirPrefix(s) + x
  {
    assert JoinSegs([x]) == x;
    if |s| > 0 {
      JoinSegsAppend(s, [x]);
      calc {
        Render(s + [x], true);
        [Sep] + (JoinSegs(s) + [Sep] + x);
        [Sep] + JoinSegs(s) + [Sep] + x;
      }
    } else {
      assert s + [x] == [x];
    }
  }

  /** Drops the last segment, if any. */
  function DropLast(c: seq<string>): seq<string>
  {
    if |c| == 0 then [] else c[..|c| - 1]
  }

  /** The last separator of `p + "/" + x` is the one before `x`. */
  lemma {:induction false} LastSepBefore(p: string, x: string)
    requires Sep !in x
    ensures LastSep(p + [Sep] + x) == |p|
  {
    var q := p + [Sep] + x;
    if |x| > 0 {
      var x' := x[..|x| - 1];
      assert q[..|q| - 1] == p + [Sep] + x';
      assert q[|q| - 1] == x[|x| - 1];
      LastSepBefore(p, x');
    }
  }

  /** `Dir` of a cleaned path renders its segments without the last one. */
  lemma DirOfClean(c: seq<string>, rooted: bool)
    requires IsClean(c, rooted)
    ensures Dir(Render(c, rooted)) == Render(DropLast(c), rooted)
  {
    if |c| == 0 {
      if rooted {
        assert Render(c, rooted) == [Sep];
        assert LastSep([Sep]) == 0;
        assert [Sep][..1] == [Sep];
        CleanRender([], true);
      } else {
        assert LastSep(".") == -1;
      }
    } else {
      var f := c[..|c| - 1];
      var x := c[|c| - 1];
      assert c == f + [x];
      assert IsClean(f, rooted);
      if |f| == 0 {
        DirOfSingle(x, rooted);
      } else if rooted {
        DirOfRootedSnoc(f, x);
      } else {
        DirOfRelativeSnoc(f, x);
      }
    }
  }

  /** `Dir` of a one-segment path is the root marker. */
  lemma DirOfSingle(x: string, rooted: bool)
    requires IsClean([x], rooted)
    ensures Dir(Render([x], rooted)) == Render([], rooted)
  {
    if rooted {
      RenderRootedSnoc([], x);
      LastSepBefore("", x);
      assert Render([x], rooted) == "" + [Sep] + x;
      assert Render([x], rooted)[..1] == [Sep] == Render([], true);
      CleanRender([], true);
    } else {
      assert Render([x], rooted) == x;
      assert Render([x], rooted)[..0] == "";
    }
  }

  /** `Dir` of a rooted path of two or more segments drops the last one. */
  lemma DirOfRootedSnoc(f: seq<string>, x: string)
    requires |f| > 0 && IsClean(f, true) && Sep !in x
    ensures Dir(Render(f + [x], true)) == Render(f, true)
  {
    RenderRootedSnoc(f, x);
    var head := [Sep] + JoinSegs(f);
    assert Render(f + [x], true) == head + [Sep] + x;
    LastSepBefore(head, x);
    assert Render(f + [x], true)[..|head| + 1] == head + [Sep] + "";
    SplitConcat(head, "");
    RenderSplit(f, true, true);
    FoldSnoc([], Split(head), "", true);
    RenderIsAbs(f, true);
  }

  /** `Dir` of a relative path of two or more segments drops the last one. */
  lemma DirOfRelativeSnoc(f: seq<string>, x: string)
    requires |f| > 0 && IsClean(f, false) && Sep !in x
    ensures Dir(Render(f + [x], false)) == Render(f, false)
  {
    JoinSegsAppend(f, [x]);
    var head := JoinSegs(f);
    assert Render(f + [x], false) == head + [Sep] + x;
    LastSepBefore(head, x);
    assert Render(f + [x], false)[..|head| + 1] == head + [Sep] + "";
    SplitConcat(head, "");
    RenderSplit(f, false, false);
    FoldSnoc([], Split(head), "", false);
    JoinSegsHead(f);
  }
}
