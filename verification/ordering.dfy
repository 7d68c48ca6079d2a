/**
 * The order the handler puts a listing in (videobrowser.go:126-131):
 * directories before files, and within each type by lower-cased name.
 * `sort.Slice` is unstable, so only the order of the result is specified;
 * `SortEntries` is one sort that produces it.
 */
module Ordering {
  import opened Text
  import opened Listing

  /** The `less` function passed to `sort.Slice`. */
  predicate EntryLess(a: Entry, b: Entry)
  {
    if a.kind == b.kind then LexLess(Lower(a.name), Lower(b.name))
    else a.kind == Dir
  }

  /** No later entry is less than an earlier one. */
  predicate Sorted(es: seq<Entry>)
  {
    forall i, j :: 0 <= i < j < |es| ==> !EntryLess(es[j], es[i])
  }

  lemma EntryLessAsymmetric(a: Entry, b: Entry)
    requires EntryLess(a, b)
    ensures !EntryLess(b, a)
  {
    if a.kind == b.kind {
      LexLessAsymmetric(Lower(a.name), Lower(b.name));
    }
  }

  lemma EntryLessTransitive(a: Entry, b: Entry, c: Entry)
    requires EntryLess(a, b) && EntryLess(b, c)
    ensures EntryLess(a, c)
  {
    if a.kind == b.kind && b.kind == c.kind {
      LexLessTransitive(Lower(a.name), Lower(b.name), Lower(c.name));
    }
  }

  /** Inserts `e` before the first entry it is less than. */
  function Insert(e: Entry, es: seq<Entry>): seq<Entry>
  {
    if |es| == 0 then [e]
    else if EntryLess(e, es[0]) then [e] + es
    else [es[0]] + Insert(e, es[1..])
  }

  /** Inserting into a sorted listing keeps it sorted and adds exactly `e`. */
  lemma {:induction false} InsertSorted(e: Entry, es: seq<Entry>)
    requires Sorted(es)
    ensures Sorted(Insert(e, es))
    ensures multiset(Insert(e, es)) == multiset(es) + multiset{e}
  {
    if |es| > 0 {
      if EntryLess(e, es[0]) {
        InsertFront(e, es);
      } else {
        TailSorted(es);
        InsertSorted(e, es[1..]);
        InsertBehind(e, es, Insert(e, es[1..]));
      }
    }
  }

  lemma InsertFront(e: Entry, es: seq<Entry>)
    requires Sorted(es) && |es| > 0 && EntryLess(e, es[0])
    ensures Sorted([e] + es)
  {
    var r := [e] + es;
    forall i, j | 0 <= i < j < |r|
      ensures !EntryLess(r[j], r[i])
    {
      if i == 0 {
        if j == 1 {
          EntryLessAsymmetric(e, es[0]);
        } else if EntryLess(r[j], e) {
          EntryLessTransitive(r[j], e, es[0]);
        }
      }
    }
  }

  lemma InsertBehind(e: Entry, es: seq<Entry>, rest: seq<Entry>)
    requires Sorted(es) && |es| > 0 && !EntryLess(e, es[0])
    requires Sorted(rest) && multiset(rest) == multiset(es[1..]) + multiset{e}
    ensures Sorted([es[0]] + rest)
    ensures multiset([es[0]] + rest) == multiset(es) + multiset{e}
  {
    var r := [es[0]] + rest;
    forall j | 0 < j < |r|
      ensures !EntryLess(r[j], es[0])
    {
      assert r[j] in multiset(rest);
      if r[j] != e {
        assert r[j] in multiset(es[1..]);
        var k :| 0 <= k < |es[1..]| && es[1..][k] == r[j];
        assert es[k + 1] == r[j];
      }
    }
    assert es == [es[0]] + es[1..];
  }

  /** The listing in the handler's order. */
  function SortEntries(es: seq<Entry>): seq<Entry>
  {
    if |es| == 0 then []
    else Insert(es[0], SortEntries(es[1..]))
  }

  /** `SortEntries` returns a sorted permutation of its input. */
  lemma {:induction false} SortEntriesSorted(es: seq<Entry>)
    ensures Sorted(SortEntries(es))
    ensures multiset(SortEntries(es)) == multiset(es)
  {
    if |es| > 0 {
      SortEntriesSorted(es[1..]);
      InsertSorted(es[0], SortEntries(es[1..]));
      assert es == [es[0]] + es[1..];
    }
  }

  /** What a sorted listing looks like: every directory comes before every
      file, and within one type the lower-cased names never decrease. */
  lemma SortedOrder(es: seq<Entry>)
    requires Sorted(es)
    ensures forall i, j :: 0 <= i < j < |es| && es[j].kind == Dir ==> es[i].kind == Dir
    ensures forall i, j :: 0 <= i < j < |es| && es[i].kind == es[j].kind ==>
      !LexLess(Lower(es[j].name), Lower(es[i].name))
  {
  }

  /** Conversely, a listing with directories first and non-decreasing
      lower-cased names within each type is sorted. */
  lemma OrderSorted(es: seq<Entry>)
    requires forall i, j :: 0 <= i < j < |es| && es[j].kind == Dir ==> es[i].kind == Dir
    requires forall i, j :: 0 <= i < j < |es| && es[i].kind == es[j].kind ==>
      !LexLess(Lower(es[j].name), Lower(es[i].name))
    ensures Sorted(es)
  {
  }

  /** No two different entries tie: of any two, one is less than the other.
      Entries tie when they have the same type and the same lower-cased
      name, such as the files "A" and "a". */
  predicate NoTies(es: seq<Entry>)
  {
    forall i, j :: 0 <= i < |es| && 0 <= j < |es| ==>
      es[i] == es[j] || EntryLess(es[i], es[j]) || EntryLess(es[j], es[i])
  }

  /** Without ties there is only one sorted order: `sort.Slice` is not
      stable, but whatever algorithm it runs, the result is the one
      `SortEntries` gives. */
  lemma {:induction false} SortedUnique(a: seq<Entry>, b: seq<Entry>)
    requires Sorted(a) && Sorted(b) && multiset(a) == multiset(b)
    requires NoTies(a)
    ensures a == b
  {
    assert |a| == |multiset(a)| == |multiset(b)| == |b|;
    if |a| > 0 {
      HeadsAgree(a, b);
      assert a == [a[0]] + a[1..];
      assert b == [b[0]] + b[1..];
      assert multiset(a[1..]) == multiset(a) - multiset{a[0]};
      assert multiset(b[1..]) == multiset(b) - multiset{b[0]};
      TailSorted(a);
      TailSorted(b);
      SortedUnique(a[1..], b[1..]);
    }
  }

  /** Dropping the head keeps a listing sorted and without ties. */
  lemma TailSorted(es: seq<Entry>)
    requires |es| > 0
    ensures Sorted(es) ==> Sorted(es[1..])
    ensures NoTies(es) ==> NoTies(es[1..])
  {
    var t := es[1..];
    assert forall i :: 0 <= i < |t| ==> t[i] == es[i + 1];
  }

  /** Two sorted arrangements of the same entries without ties start alike. */
  lemma HeadsAgree(a: seq<Entry>, b: seq<Entry>)
    requires Sorted(a) && Sorted(b) && multiset(a) == multiset(b)
    requires NoTies(a) && |a| > 0 && |b| > 0
    ensures a[0] == b[0]
  {
    assert b[0] in multiset(a);
    var j :| 0 <= j < |a| && a[j] == b[0];
    assert a[0] in multiset(b);
    var k :| 0 <= k < |b| && b[k] == a[0];
    if 0 < j && 0 < k {
      assert !EntryLess(a[j], a[0]);
      assert !EntryLess(b[k], b[0]);
    }
  }

  /** A directory goes before a file, whatever their names. */
  lemma DirBeforeFile(f: Entry, d: Entry)
    requires f.kind == File && d.kind == Dir
    ensures SortEntries([f, d]) == [d, f]
  {
    assert [f, d][1..] == [d];
    assert [d][1..] == [];
    assert SortEntries([d]) == [d];
    assert SortEntries([f, d]) == Insert(f, [d]);
    assert Insert(f, [d]) == [d] + Insert(f, []);
  }

  /** The listing "b.txt", "A" (directory), "a.txt", "B" (directory) is shown
      as "A", "B", "a.txt", "b.txt". */
  lemma SortExample()
    ensures SortEntries([FileBTxt(), DirA(), FileATxt(), DirB()]) == [DirA(), DirB(), FileATxt(), FileBTxt()]
  {
    ExampleOrder();
    SortFour(FileBTxt(), DirA(), FileATxt(), DirB());
  }

  /** Four entries `f2, d1, f1, d2` whose order is `d1, d2, f1, f2` are
      sorted into that order, one insertion at a time. */
  lemma SortFour(f2: Entry, d1: Entry, f1: Entry, d2: Entry)
    requires EntryLess(d1, d2) && !EntryLess(f1, d2)
    requires !EntryLess(f2, d1) && !EntryLess(f2, d2) && !EntryLess(f2, f1)
    ensures SortEntries([f2, d1, f1, d2]) == [d1, d2, f1, f2]
  {
    assert [f2, d1, f1, d2][1..] == [d1, f1, d2];
    assert [d1, f1, d2][1..] == [f1, d2];
    assert [f1, d2][1..] == [d2];
    assert [d2][1..] == [];
    assert SortEntries([d2]) == [d2];
    assert Insert(f1, [d2]) == [d2] + Insert(f1, []);
    assert SortEntries([f1, d2]) == [d2, f1];
    assert Insert(d1, [d2, f1]) == [d1] + [d2, f1];
    assert SortEntries([d1, f1, d2]) == [d1, d2, f1];
    assert [d1, d2, f1][1..] == [d2, f1];
    assert [d2, f1][1..] == [f1];
    assert [f1][1..] == [];
    assert Insert(f2, [f1]) == [f1] + Insert(f2, []);
    assert Insert(f2, [d2, f1]) == [d2] + Insert(f2, [f1]);
    assert Insert(f2, [d1, d2, f1]) == [d1] + Insert(f2, [d2, f1]);
  }

  function FileBTxt(): Entry { Entry("b.txt", "b.txt", File) }
  function DirA(): Entry { Entry("A", "A", Dir) }
  function FileATxt(): Entry { Entry("a.txt", "a.txt", File) }
  function DirB(): Entry { Entry("B", "B", Dir) }

  /** How the comparator orders the entries of the example. */
  lemma ExampleOrder()
    ensures EntryLess(DirA(), DirB()) && !EntryLess(FileATxt(), DirB())
    ensures !EntryLess(FileBTxt(), DirA()) && !EntryLess(FileBTxt(), DirB()) && !EntryLess(FileBTxt(), FileATxt())
  {
    LowerNames();
    assert LexLess("a", "b");
    assert LexLess("a.txt", "b.txt");
    LexLessAsymmetric("a.txt", "b.txt");
  }

  /** The lower-cased names of the example. */
  lemma LowerNames()
    ensures Lower(DirA().name) == "a" && Lower(DirB().name) == "b"
    ensures Lower(FileATxt().name) == "a.txt" && Lower(FileBTxt().name) == "b.txt"
  {
    assert Lower("A") == "a";
    assert Lower("B") == "b";
    assert Lower("a.txt") == "a.txt";
    assert Lower("b.txt") == "b.txt";
  }
}
