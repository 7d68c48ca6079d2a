/**
 * Go's `strings.Split(p, "/")` and `strings.Join(segs, "/")`, the two string
 * operations on which the lexical path functions of package `path/filepath`
 * rest, together with the facts that make them inverse to each other.
 */
module Segments {

  const Sep: char := '/'

  /** True when no segment contains the separator. */
  predicate SlashFree(segs: seq<string>)
  {
    forall i :: 0 <= i < |segs| ==> Sep !in segs[i]
  }

  /** `strings.Split(p, "/")`: the maximal separator-free pieces of `p`, in order. */
  function Split(p: string): (segs: seq<string>)
    ensures |segs| >= 1
    ensures SlashFree(segs)
    ensures |segs| == 1 ==> segs[0] == p
  {
    if |p| == 0 then [""]
    else
      var rest := Split(p[1..]);
      if p[0] == Sep then [""] + rest
      else [[p[0]] + rest[0]] + rest[1..]
  }

  /** `strings.Join(segs, "/")`. */
  function JoinSegs(segs: seq<string>): string
  {
    if |segs| == 0 then ""
    else if |segs| == 1 then segs[0]
    else segs[0] + [Sep] + JoinSegs(segs[1..])
  }

  /** Joining the pieces of a split gives back the original string. */
  lemma {:induction false} JoinSplit(p: string)
    ensures JoinSegs(Split(p)) == p
  {
    if |p| > 0 {
      JoinSplit(p[1..]);
      var rest := Split(p[1..]);
      if p[0] != Sep && |rest| > 1 {
        assert JoinSegs(rest) == rest[0] + [Sep] + JoinSegs(rest[1..]);
        assert [p[0]] + rest[0] + [Sep] + JoinSegs(rest[1..]) == [p[0]] + JoinSegs(rest);
      }
      assert [p[0]] + p[1..] == p;
    }
  }

  /** A string without a separator splits into itself alone. */
  lemma {:induction false} SplitNoSep(x: string)
    requires Sep !in x
    ensures Split(x) == [x]
  {
    if |x| > 0 {
      assert Sep !in x[1..];
      SplitNoSep(x[1..]);
      assert [x[0]] + x[1..] == x;
    }
  }

  /** Splitting at an explicit separator concatenates the two splits. */
  lemma {:induction false} SplitConcat(x: string, y: string)
    ensures Split(x + [Sep] + y) == Split(x) + Split(y)
  {
    if |x| == 0 {
      assert x + [Sep] + y == [Sep] + y;
      SplitConsSep(y);
    } else {
      var c, x' := x[0], x[1..];
      assert x == [c] + x';
      assert x + [Sep] + y == [c] + (x' + [Sep] + y);
      SplitConcat(x', y);
      if c == Sep {
        SplitConsSep(x' + [Sep] + y);
        SplitConsSep(x');
      } else {
        SplitConsChar(c, x' + [Sep] + y);
        SplitConsChar(c, x');
        ConsCharAppend([c], Split(x'), Split(y));
      }
    }
  }

  /** Gluing a prefix onto the first segment commutes with appending more segments. */
  lemma ConsCharAppend(c: string, a: seq<string>, b: seq<string>)
    requires |a| >= 1
    ensures [c + (a + b)[0]] + (a + b)[1..] == ([c + a[0]] + a[1..]) + b
  {
    assert (a + b)[0] == a[0];
    assert (a + b)[1..] == a[1..] + b;
  }

  /** Splitting a string that starts with a separator. */
  lemma SplitConsSep(s: string)
    ensures Split([Sep] + s) == [""] + Split(s)
  {
    assert ([Sep] + s)[1..] == s;
  }

  /** Splitting a string that starts with any other character. */
  lemma SplitConsChar(c: char, s: string)
    requires c != Sep
    ensures Split([c] + s) == [[c] + Split(s)[0]] + Split(s)[1..]
  {
    assert ([c] + s)[1..] == s;
  }

  /** Splitting a join of separator-free segments gives back the segments. */
  lemma {:induction false} SplitJoin(segs: seq<string>)
    requires |segs| >= 1
    requires SlashFree(segs)
    ensures Split(JoinSegs(segs)) == segs
  {
    if |segs| == 1 {
      SplitNoSep(segs[0]);
    } else {
      SplitJoin(segs[1..]);
      SplitNoSep(segs[0]);
      SplitConcat(segs[0], JoinSegs(segs[1..]));
      assert [segs[0]] + segs[1..] == segs;
    }
  }

  /** Joining two non-empty segment lists puts one separator between them. */
  lemma {:induction false} JoinSegsAppend(a: seq<string>, b: seq<string>)
    requires |a| >= 1 && |b| >= 1
    ensures JoinSegs(a + b) == JoinSegs(a) + [Sep] + JoinSegs(b)
  {
    if |a| == 1 {
      assert (a + b)[1..] == b;
    } else {
      assert (a + b)[1..] == a[1..] + b;
      JoinSegsAppend(a[1..], b);
    }
  }

  /** The join of segments whose first segment is non-empty starts with its first character. */
  lemma JoinSegsHead(segs: seq<string>)
    requires |segs| >= 1 && |segs[0]| >= 1
    ensures |JoinSegs(segs)| >= 1 && JoinSegs(segs)[0] == segs[0][0]
  {
  }
}
