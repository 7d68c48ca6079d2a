/**
 * `listDir` of videobrowser.go: the depth guard, confinement through
 * `SafeJoin`, and one `Entry` per directory item.
 */
module Listing {
  import opened Wrappers
  import opened Lexical
  import opened FilePath
  import opened SafePath
  import opened FileSystem

  /** The directory all browsing is confined to, relative to the working directory. */
  const BaseDir: string := "indir"

  /** The deepest `depth` for which `ListDir` still reads the directory. */
  const MaxDepth: int := 4

  /** The `Type` field of an `Entry`: "dir" or "file". */
  datatype EntryType = Dir | File

  function TypeName(t: EntryType): string
  {
    match t
    case Dir => "dir"
    case File => "file"
  }

  /** One row of a listing: the item's name, its path relative to the base,
      and its type. */
  datatype Entry = Entry(name: string, path: string, kind: EntryType)

  /** The entry made for one directory item of the directory `relPath`. */
  function MakeEntry(relPath: string, it: DirItem): Entry
  {
    Entry(it.name, Join(relPath, it.name), if it.isDir then Dir else File)
  }

  /** The loop of `listDir`: one entry per item, in the same order. */
  function MakeEntries(relPath: string, items: seq<DirItem>): (es: seq<Entry>)
    ensures |es| == |items|
    ensures forall i :: 0 <= i < |items| ==>
      && es[i].name == items[i].name
      && es[i].path == Join(relPath, items[i].name)
      && (es[i].kind == Dir <==> items[i].isDir)
      && TypeName(es[i].kind) == (if items[i].isDir then "dir" else "file")
  {
    if |items| == 0 then []
    else [MakeEntry(relPath, items[0])] + MakeEntries(relPath, items[1..])
  }

  /** `listDir(relPath, depth)` over the filesystem `fs`, with the working
      directory `cwd` that `filepath.Abs` uses. */
  function ListDir(cwd: string, fs: Fs, relPath: string, depth: int): (r: Result<seq<Entry>, PathError>)
    ensures depth > MaxDepth ==> r == Ok([])
    ensures depth <= MaxDepth && SafeJoin(cwd, BaseDir, relPath).Err? ==> r == Err(ErrPermission)
    ensures depth <= MaxDepth && SafeJoin(cwd, BaseDir, relPath).Ok? ==>
      (r.Ok? <==> ReadDir(fs, SafeJoin(cwd, BaseDir, relPath).value).Ok?)
    ensures depth <= MaxDepth && r.Ok? ==>
      r.value == MakeEntries(relPath, ReadDir(fs, SafeJoin(cwd, BaseDir, relPath).value).value)
  {
    if depth > MaxDepth then Ok([])
    else
      match SafeJoin(cwd, BaseDir, relPath)
      case Err(e) => Err(e)
      case Ok(full) =>
        match ReadDir(fs, full)
        case Err(e) => Err(e)
        case Ok(items) => Ok(MakeEntries(relPath, items))
  }

  /** The depth guard and a rejected path decide the result without looking
      at the filesystem. */
  lemma ListDirIgnoresFsWhenGuarded(cwd: string, fs1: Fs, fs2: Fs, relPath: string, depth: int)
    requires depth > MaxDepth || SafeJoin(cwd, BaseDir, relPath).Err?
    ensures ListDir(cwd, fs1, relPath, depth) == ListDir(cwd, fs2, relPath, depth)
  {
  }

  /** The guard is strict: at depth `MaxDepth` the directory is still read,
      as at depth 1; only beyond it is the listing empty. */
  lemma ListDirAtMaxDepth(cwd: string, fs: Fs, relPath: string)
    ensures ListDir(cwd, fs, relPath, MaxDepth) == ListDir(cwd, fs, relPath, 1)
    ensures ListDir(cwd, fs, relPath, MaxDepth + 1) == Ok([])
  {
  }

  /** Every entry of a listing of an accepted relative directory is a child
      path that `SafeJoin` accepts, resolving below the listed directory, and
      whose parent is the listed directory again. A rooted directory such as
      "/../indir" is accepted too, but its entries do not resolve to its
      children: see `RootedChildMisresolves`. */
  lemma ListedEntriesNavigable(cwd: string, fs: Fs, relPath: string, depth: int, i: int)
    requires IsAbs(cwd) && WellFormed(fs) && !IsAbs(relPath)
    requires depth <= MaxDepth
    requires ListDir(cwd, fs, relPath, depth).Ok?
    requires 0 <= i < |ListDir(cwd, fs, relPath, depth).value|
    ensures var e := ListDir(cwd, fs, relPath, depth).value[i];
      && SafeJoin(cwd, BaseDir, e.path).Ok?
      && SafeJoin(cwd, BaseDir, e.path).value == Join(SafeJoin(cwd, BaseDir, relPath).value, e.name)
      && ParentPath(e.path) == Clean(relPath)
  {
    var full := SafeJoin(cwd, BaseDir, relPath).value;
    var items := ReadDir(fs, full).value;
    assert PlainName(items[i].name);
    ChildAccepted(cwd, BaseDir, relPath, items[i].name);
    ChildParent(relPath, items[i].name);
  }
}
