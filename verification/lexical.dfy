/**
 * The segment-level core of Go's `filepath.Clean`: a left-to-right scan that
 * keeps a stack of output segments, dropping empty and "." segments and
 * cancelling a ".." against the segment before it.
 */
module Lexical {
  import opened Segments

  /** One scan step. In a rooted path a ".." at the root is dropped;
      in a relative path it is kept. */
  function Push(stack: seq<string>, seg: string, rooted: bool): seq<string>
  {
    if seg == "" || seg == "." then stack
    else if seg == ".." then
      if |stack| > 0 && stack[|stack| - 1] != ".." then stack[..|stack| - 1]
      else if rooted then stack
      else stack + [".."]
    else stack + [seg]
  }

  /** Scans `segs` onto an existing stack. */
  function Fold(stack: seq<string>, segs: seq<string>, rooted: bool): seq<string>
  {
    if |segs| == 0 then stack
    else Push(Fold(stack, segs[..|segs| - 1], rooted), segs[|segs| - 1], rooted)
  }

  /** The cleaned segments of a split path. */
  function Normalize(segs: seq<string>, rooted: bool): seq<string>
  {
    Fold([], segs, rooted)
  }

  /** A segment that names a child: not empty, not "." or "..", no separator. */
  predicate PlainName(s: string)
  {
    s != "" && s != "." && s != ".." && Sep !in s
  }

  /** No empty and no "." segments. */
  predicate NoDots(c: seq<string>)
  {
    forall i :: 0 <= i < |c| ==> c[i] != "" && c[i] != "."
  }

  /** Every segment is a plain name. */
  predicate AllPlain(c: seq<string>)
  {
    forall i :: 0 <= i < |c| ==> PlainName(c[i])
  }

  /** The shape of `filepath.Clean`'s output, as segments: no empty or "."
      segments, ".." only as a leading run, and none at all when rooted. */
  predicate IsClean(c: seq<string>, rooted: bool)
  {
    && NoDots(c)
    && SlashFree(c)
    && (forall i, j :: 0 <= i < j < |c| && c[j] == ".." ==> c[i] == "..")
    && (rooted ==> forall i :: 0 <= i < |c| ==> c[i] != "..")
  }

  /** Scanning a concatenation is scanning the parts one after the other. */
  lemma {:induction false} FoldAppend(s: seq<string>, xs: seq<string>, ys: seq<string>, rooted: bool)
    ensures Fold(s, xs + ys, rooted) == Fold(Fold(s, xs, rooted), ys, rooted)
  {
    if |ys| > 0 {
      var zs := xs + ys;
      assert zs[..|zs| - 1] == xs + ys[..|ys| - 1];
      assert zs[|zs| - 1] == ys[|ys| - 1];
      FoldAppend(s, xs, ys[..|ys| - 1], rooted);
    } else {
      assert xs + ys == xs;
    }
  }

  /** Scanning one more segment is one more step. */
  lemma FoldSnoc(s: seq<string>, xs: seq<string>, y: string, rooted: bool)
    ensures Fold(s, xs + [y], rooted) == Push(Fold(s, xs, rooted), y, rooted)
  {
    assert (xs + [y])[..|xs|] == xs;
  }

  /** A step keeps the clean shape of the stack. */
  lemma PushClean(s: seq<string>, seg: string, rooted: bool)
    requires IsClean(s, rooted)
    requires Sep !in seg
    ensures IsClean(Push(s, seg, rooted), rooted)
  {
    var r := Push(s, seg, rooted);
    if seg == ".." && !(|s| > 0 && s[|s| - 1] != "..") && !rooted {
      assert r == s + [".."];
      forall i, j | 0 <= i < j < |r| && r[j] == ".."
        ensures r[i] == ".."
      {
        if j == |s| && |s| > 0 {
          assert s[|s| - 1] == "..";
          if i < |s| - 1 {
            assert s[i] == "..";
          }
        }
      }
    }
  }

  /** Scanning separator-free segments onto a clean stack leaves it clean. */
  lemma {:induction false} FoldClean(s: seq<string>, segs: seq<string>, rooted: bool)
    requires IsClean(s, rooted)
    requires SlashFree(segs)
    ensures IsClean(Fold(s, segs, rooted), rooted)
  {
    if |segs| > 0 {
      FoldClean(s, segs[..|segs| - 1], rooted);
      PushClean(Fold(s, segs[..|segs| - 1], rooted), segs[|segs| - 1], rooted);
    }
  }

  /** Cleaning yields clean segments. */
  lemma NormalizeClean(segs: seq<string>, rooted: bool)
    requires SlashFree(segs)
    ensures IsClean(Normalize(segs, rooted), rooted)
  {
    FoldClean([], segs, rooted);
  }

  /** Cleaning never leaves an empty or "." segment, even for arbitrary segments. */
  lemma {:induction false} FoldNoDots(s: seq<string>, segs: seq<string>, rooted: bool)
    requires NoDots(s)
    ensures NoDots(Fold(s, segs, rooted))
  {
    if |segs| > 0 {
      FoldNoDots(s, segs[..|segs| - 1], rooted);
    }
  }

  /** Cleaning already clean segments changes nothing. */
  lemma {:induction false} NormalizeIdempotent(c: seq<string>, rooted: bool)
    requires IsClean(c, rooted)
    ensures Normalize(c, rooted) == c
  {
    if |c| > 0 {
      var front := c[..|c| - 1];
      var last := c[|c| - 1];
      assert IsClean(front, rooted);
      NormalizeIdempotent(front, rooted);
      FoldSnoc([], front, last, rooted);
      assert c == front + [last];
      if last == ".." {
        assert !rooted;
        if |front| > 0 {
          assert front[|front| - 1] == "..";
        }
      }
    }
  }

  /** Plain names are only pushed. */
  lemma {:induction false} FoldPlain(s: seq<string>, c: seq<string>, rooted: bool)
    requires AllPlain(c)
    ensures Fold(s, c, rooted) == s + c
  {
    if |c| > 0 {
      var front := c[..|c| - 1];
      FoldPlain(s, front, rooted);
      assert s + c == (s + front) + [c[|c| - 1]];
    }
  }

  /** One step on the right of a cleaned relative list commutes with scanning
      that list onto any stack, in either mode. */
  lemma PushFoldCommute(s: seq<string>, c: seq<string>, y: string, rooted: bool)
    requires NoDots(c)
    ensures Push(Fold(s, c, rooted), y, rooted) == Fold(s, Push(c, y, false), rooted)
  {
    if y == "" || y == "." {
    } else if y == ".." {
      if |c| > 0 && c[|c| - 1] != ".." {
        var front := c[..|c| - 1];
        assert c == front + [c[|c| - 1]];
        FoldSnoc(s, front, c[|c| - 1], rooted);
      } else {
        FoldSnoc(s, c, "..", rooted);
      }
    } else {
      FoldSnoc(s, c, y, rooted);
    }
  }

  /** Scanning segments onto a stack is the same as scanning their relative
      cleaning: `Clean` may be applied to a relative tail first. */
  lemma {:induction false} FoldNormalize(s: seq<string>, ys: seq<string>, rooted: bool)
    ensures Fold(s, ys, rooted) == Fold(s, Normalize(ys, false), rooted)
  {
    if |ys| > 0 {
      var front := ys[..|ys| - 1];
      var y := ys[|ys| - 1];
      FoldNormalize(s, front, rooted);
      FoldNoDots([], front, false);
      PushFoldCommute(s, Normalize(front, false), y, rooted);
    }
  }

  /** A ".." on the stack of a relative scan is never removed again. */
  lemma PushKeepsUp(stack: seq<string>, seg: string)
    requires ".." in stack
    ensures ".." in Push(stack, seg, false)
  {
    if seg == ".." && |stack| > 0 && stack[|stack| - 1] != ".." {
      var k :| 0 <= k < |stack| && stack[k] == "..";
      assert stack[..|stack| - 1][k] == "..";
    }
  }

  /** A relative scan that ends with no ".." never had to keep one at the
      root, so the rooted scan of the same segments agrees with it. */
  lemma {:induction false} FoldModesAgree(s: seq<string>, segs: seq<string>)
    requires ".." !in Fold(s, segs, false)
    ensures Fold(s, segs, true) == Fold(s, segs, false)
  {
    if |segs| > 0 {
      var front := segs[..|segs| - 1];
      var f := Fold(s, front, false);
      if ".." in f {
        PushKeepsUp(f, segs[|segs| - 1]);
      }
      FoldModesAgree(s, front);
    }
  }

  /** The clean shape of a rooted list is also a clean relative shape. */
  lemma RootedCleanIsClean(c: seq<string>)
    requires IsClean(c, true)
    ensures IsClean(c, false)
  {
  }
}
