/**
 * The filesystem as the handler sees it through `os.Stat`, `os.ReadDir` and
 * `os.ReadFile`: a map from the cleaned path handed to those calls to what is
 * found there. Nothing is ever written.
 */
module FileSystem {
  import opened Wrappers
  import opened Lexical

  /** The errors of package `os` the browser meets: `ErrPermission` is the
      `os.ErrPermission` a rejected join returns, the others stand for the
      errors of `os.ReadDir`. */
  datatype PathError = ErrPermission | ErrNotExist | ErrNotDir | ErrUnreadable

  /** One `os.DirEntry`: its name and whether `IsDir()` holds. */
  datatype DirItem = DirItem(name: string, isDir: bool)

  /** What `os.Stat` finds: a directory, whose listing may be unreadable, or
      some other file, which is regular or not and whose contents may be
      unreadable. */
  datatype Node =
    | DirNode(items: seq<DirItem>, readable: bool)
    | FileNode(regular: bool, content: Option<string>)

  type Fs = map<string, Node>

  /** Directory entries returned by the operating system never name the
      directory itself, its parent, or a deeper path. */
  predicate WellFormed(fs: Fs)
  {
    forall p :: p in fs && fs[p].DirNode? ==>
      forall i :: 0 <= i < |fs[p].items| ==> PlainName(fs[p].items[i].name)
  }

  /** `os.ReadDir(path)`. */
  function ReadDir(fs: Fs, path: string): (r: Result<seq<DirItem>, PathError>)
    ensures r.Ok? <==> path in fs && fs[path].DirNode? && fs[path].readable
    ensures r.Ok? ==> r.value == fs[path].items
    ensures r.Err? && path !in fs ==> r.error == ErrNotExist
  {
    if path !in fs then Err(ErrNotExist)
    else match fs[path]
      case DirNode(items, readable) => if readable then Ok(items) else Err(ErrUnreadable)
      case FileNode(_, _) => Err(ErrNotDir)
  }

  /** `os.ReadFile(path)` on a path that `os.Stat` found. */
  function ReadFile(fs: Fs, path: string): (r: Option<string>)
    ensures r.Some? <==> path in fs && fs[path].FileNode? && fs[path].content.Some?
  {
    if path in fs && fs[path].FileNode? then fs[path].content else None
  }
}
