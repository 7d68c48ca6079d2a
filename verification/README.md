# videobrowser: the confinement, listing and dispatch logic in Dafny

`videobrowser.go` is a small HTTP server for browsing a directory tree. A
request names a path relative to the base directory `indir`. The server:

- confines that path to the base (`safeJoin`);
- computes the link one level up (`parentPath`);
- lists a directory (`listDir`), then sorts the listing with directories
  first and by lower-cased name;
- for a file, picks a way to show it from its lower-cased extension;
- decides between 403, 404, 500, a direct download of the file, or a page
  rendered from the template.

This project models those pieces as pure Dafny functions over strings and
sequences, and proves what they guarantee. The modules are:

- `Segments`: `strings.Split` and `strings.Join` on "/".
- `Lexical`: the segment scan inside `filepath.Clean`.
- `FilePath`: `Clean`, `Join`, `Abs`, `Dir`, `Ext` and `strings.HasPrefix`.
- `SafePath`: `safeJoin` and `parentPath`.
- `Text`: ASCII `strings.ToLower` and Go's string `<`.
- `FileSystem`: the filesystem, as an immutable map from cleaned paths to
  directories and files.
- `Listing`: `listDir` and `Entry`.
- `Ordering`: the `sort.Slice` comparator and a sort that satisfies it.
- `Media`: the extension switch.
- `Handler`: the request handler, as a function from a query, a filesystem
  and a working directory to an outcome tag.

`filepath.Abs` depends on the process working directory. Here it takes that
directory as the parameter `cwd`, and the lemmas require it to be absolute.

Some behaviour of the code differs from the intent described for the
program. The model follows the code, and the differences are proved:

- **The confinement test is a plain string prefix test** (videobrowser.go:46).
  The intent is that only paths at or below the base are reachable. But
  `"../indir2"` resolves to `/cwd/indir2`, which begins with the string
  `/cwd/indir`, so it is accepted.
  - `SafePath.PrefixCheckAdmitsSibling` shows that any sibling whose name
    extends the base name is accepted without lying below the base.
  - Segment-wise confinement (`Descends`) is proved for paths that climb no
    "..", with or without a leading "/" (`SafePath.SafeJoinAcceptsDownward`).
    A path that climbs out can land back below the base, as "../indir/x"
    does, or, through the prefix test, beside it.
- **A leading "/" is not an escape.** `filepath.Join` puts a rooted request
  path after the base like any other, so "/etc/passwd" is looked up as
  "indir/etc/passwd" (`SafePath.SafeJoinIgnoresRoot`).
- **The links of a rooted listing are wrong.** "/../indir" is accepted as
  the base itself and listed. But each entry's path is built with
  `filepath.Join(relPath, name)` (videobrowser.go:85). Rooted cleaning drops
  the "..", so the entry path is "/indir/name". Requested again, that is
  joined onto the base and resolves to "indir/indir/name", not to the
  listed child (`SafePath.RootedChildMisresolves`). For a relative
  directory, every entry resolves to its child
  (`Listing.ListedEntriesNavigable`).
- **The parent of an accepted path can be rejected.** The parent link is
  meant to stay browsable. `"../indir"` is accepted, since it resolves to
  the base itself, but its parent `".."` is rejected with 403. This is
  `SafePath.ParentOfAcceptedMayBeRejected`. For a path that climbs no "..",
  the parent stays accepted (`SafePath.ParentStaysAccepted`).
- **The depth guard is strict.** `listDir` still reads the directory at
  `depth == maxDepth` (videobrowser.go:67 tests `depth > maxDepth`); only a
  deeper call returns the empty list (`Listing.ListDirAtMaxDepth`).
- **Images and videos are served directly only when they are regular
  files** (videobrowser.go:159). An image or video path that names some
  other kind of file falls through to the template, flagged as an image or
  video and with no contents (`Handler.IrregularMediaRendersPage`). A
  ".zip" is sent as an attachment whether or not it is regular.

## Model

| member | source | states |
|---|---|---|
| `SafePath.SafeJoin` | videobrowser.go:41-50 | Rejects exactly when the absolute cleaned join does not start, as a string, with the absolute base. A rejection is always `ErrPermission`. An accepted result is the cleaned join, is itself clean, has the absolute base as a string prefix once made absolute, and is relative when the base is. |
| `SafePath.SafeJoinSegments` | videobrowser.go:42-44 | For a relative base, the joined path and both absolute paths are cleanings of the concatenated segments of base and rel, the absolute ones behind the working directory. |
| `SafePath.SafeJoinAtRoot` | videobrowser.go:41-50 | `rel` = "" or "." is accepted and yields `Clean(base)`. |
| `SafePath.SafeJoinAcceptsDownward` | videobrowser.go:41-50 | Every `rel`, rooted or relative, whose segments cleaned as a relative path hold no ".." is accepted, and its result lies segment-wise at or below the base. |
| `SafePath.SafeJoinIgnoresRoot` | videobrowser.go:42 | A leading "/" on the request path changes neither the join nor the outcome of `safeJoin`. |
| `SafePath.PrefixCheckAdmitsSibling` | videobrowser.go:46-49 | For base `b` and a plain name `n` with `b` a proper string prefix of `n`, `"../" + n` is accepted as `n`, although `/cwd/n` does not lie below `/cwd/b`. |
| `SafePath.PrefixCheckAdmitsSiblingOrSelf` | videobrowser.go:46-49 | Climbing out of the base and back in, `"../" + b`, is accepted as `b`. |
| `SafePath.UpIsRejected` | videobrowser.go:46-48 | `".."` from a one-segment base is rejected. |
| `SafePath.SiblingNotBelow` | videobrowser.go:46 | When one name extends another, the string prefix test passes but segment-wise descent fails. |
| `SafePath.SiblingResolves` | videobrowser.go:42-44 | `Join(b, "../" + n)` cleans to `n`, and the absolute forms of `b` and `n` share the working-directory prefix. |
| `SafePath.ParentDropsLast` | videobrowser.go:53-63 | `parentPath` is the cleaned path with its last segment removed, rendered with the same rootedness. An empty result is ".". |
| `SafePath.ParentAtRoot` | videobrowser.go:54-62 | For a relative path of at most one cleaned segment, including "" and ".", the parent is ".", and taking the parent again stays at ".". |
| `SafePath.ParentSegments` | videobrowser.go:53-63 | The cleaned segments of the parent are those of the path without the last one, and rootedness is kept. |
| `SafePath.ParentStaysAccepted` | videobrowser.go:53-63 | For a path, rooted or relative, that climbs no "..", the parent keeps its rootedness, also climbs no "..", and `safeJoin` accepts it. |
| `SafePath.ParentOfAcceptedMayBeRejected` | videobrowser.go:53-63 | `"../" + b` is accepted, its parent is "..", and ".." is rejected. |
| `SafePath.JoinChildSegments` | videobrowser.go:85 | Joining a plain name onto a path appends exactly that segment to the cleaned segments and keeps rootedness. |
| `SafePath.ChildParent` | videobrowser.go:85 | The parent of `Join(rel, name)` is `Clean(rel)`. |
| `SafePath.ChildAccepted` | videobrowser.go:85 | If a relative `rel` is accepted, so is `Join(rel, name)`, and it resolves to the resolved `rel` joined with `name`. |
| `SafePath.RootedChildMisresolves` | videobrowser.go:42-49 | The property of `SafePath.ChildAccepted` fails for a rooted `rel`: "/../b" is accepted as the base `b`, its child path `Join("/../b", n)` is "/b/n", and that is accepted as "b/b/n", not as `Join(b, n)`. Line 85 builds the child path. |
| `SafePath.ChildAbsolute` | videobrowser.go:85 | The absolute path of a child lies segment-wise below the absolute path of its directory. |
| `SafePath.ChildResolved` | videobrowser.go:85 | Resolving a child equals joining the name onto the resolved directory. |
| `Listing.ListDir` | videobrowser.go:66-95 | Beyond the maximum depth, the result is an empty list. Otherwise a rejection yields `ErrPermission`. An accepted path succeeds exactly when the directory can be read, and then yields the entries made from its items. |
| `Listing.MakeEntries` | videobrowser.go:81-94 | One entry per item, in item order. Each entry has the item's name, the path `Join(relPath, name)`, and type `Dir` exactly when the item is a directory, so that its type name is "dir" or "file". |
| `Listing.ListDirIgnoresFsWhenGuarded` | videobrowser.go:67-74 | When the depth guard fires or `safeJoin` rejects, the result is the same for every filesystem. |
| `Listing.ListedEntriesNavigable` | videobrowser.go:82-86 | For a relative listed path, every entry's path is accepted, resolves to the listed directory joined with the entry's name, and has the listed directory as its parent. |
| `Listing.ListDirAtMaxDepth` | videobrowser.go:67-69 | At depth `maxDepth` the directory is read as at depth 1; only a greater depth gives the empty list. |
| `FileSystem.ReadDir` | videobrowser.go:76-79 | Succeeds exactly for a readable directory, with its items. A missing path is `ErrNotExist`. |
| `FileSystem.ReadFile` | videobrowser.go:149-153 | Yields contents exactly for a file whose contents can be read. |
| `Ordering.EntryLessAsymmetric` | videobrowser.go:126-131 | The comparator never orders two entries both ways. |
| `Ordering.EntryLessTransitive` | videobrowser.go:126-131 | The comparator is transitive. |
| `Ordering.InsertSorted` | videobrowser.go:126-131 | Inserting into a sorted listing keeps it sorted, and adds exactly the new entry. |
| `Ordering.SortEntriesSorted` | videobrowser.go:126-131 | The sorted listing is ordered under the comparator and is a permutation of the input. |
| `Ordering.SortedOrder` | videobrowser.go:126-131 | In a sorted listing, every directory precedes every file, and lower-cased names never decrease within a type. |
| `Ordering.OrderSorted` | videobrowser.go:126-131 | Conversely, directories first with non-decreasing lower-cased names within each type is sorted. |
| `Ordering.SortedUnique` | videobrowser.go:126-131 | Two sorted permutations of a listing with no ties are equal, so any sort that respects the comparator gives `SortEntries`' result. |
| `Ordering.DirBeforeFile` | videobrowser.go:127-130 | A file and a directory are put as directory first, whatever their names. |
| `Ordering.SortExample` | videobrowser.go:126-131 | The listing `b.txt, A (dir), a.txt, B (dir)` becomes `A, B, a.txt, b.txt`. |
| `Text.Lower` | videobrowser.go:128 | Lower-casing keeps the length and maps each character through ASCII lower-casing. |
| `Text.LowerIdempotent` | videobrowser.go:128 | Lower-casing twice is lower-casing once. |
| `Text.LexLessIrreflexive` | videobrowser.go:128 | No string is less than itself. |
| `Text.LexLessAsymmetric` | videobrowser.go:128 | String `<` never holds both ways. |
| `Text.LexLessTransitive` | videobrowser.go:128 | String `<` is transitive. |
| `Text.LexLessTotal` | videobrowser.go:128 | Of two different strings, one is less than the other. |
| `Media.ExtLower` | videobrowser.go:137 | Taking the extension commutes with lower-casing. |
| `Media.CategoryIgnoresCase` | videobrowser.go:137-142 | The category of a path does not depend on its letter case. |
| `Media.ExtOfSuffix` | videobrowser.go:137 | The extension of `stem + "." + x`, with `x` free of dots and separators, is `"." + x`. |
| `Media.CategoryOfSuffix` | videobrowser.go:137-155 | Such a path is classified by its suffix alone. |
| `Media.CategoryBySuffix` | videobrowser.go:137-155 | A path ending in `"." + x` is classified by the lower-cased `"." + x`. |
| `Media.NoDotIsText` | videobrowser.go:137-155 | A path whose final element has no "." has no extension and is read as text. |
| `Media.ImageExample` | videobrowser.go:137-140 | Any path ending in ".JPG" is an image. |
| `Media.VideoExample` | videobrowser.go:141-142 | Any path ending in ".mp4" is a video. |
| `Media.ArchiveExample` | videobrowser.go:143-147 | Any path ending in ".zip" is an attachment. |
| `Media.TextExample` | videobrowser.go:148-154 | Any path ending in ".md" is read as text. |
| `Handler.EmptyQueryIsRoot` | videobrowser.go:99-102 | An empty `path` query is handled as ".". |
| `Handler.ForbiddenIffRejected` | videobrowser.go:104-108 | 403 exactly when `safeJoin` rejects, and then for every filesystem: nothing is looked up first. |
| `Handler.NotFoundIffMissing` | videobrowser.go:110-114 | 404 exactly when the path is accepted and nothing is found there. |
| `Handler.InternalErrorIffReadFails` | videobrowser.go:118-123 | 500 exactly when the found directory cannot be listed, or the found file is read as text and cannot be read. Lines 149-153 cover the second case. |
| `Handler.ServeMediaIffRegularMedia` | videobrowser.go:158-162 | A file is served directly exactly when it is a regular file with an image or video extension, and the served path is the resolved one. |
| `Handler.ZipIffArchive` | videobrowser.go:143-147 | An attachment is sent exactly for a found file with a ".zip" extension, and the path sent is the resolved one. |
| `Handler.IrregularMediaRendersPage` | videobrowser.go:136-142 | An image or video that is not a regular file is rendered through the template, flagged by its category, without contents. Lines 158-164 cover the fall-through. |
| `Handler.DirectoryPage` | videobrowser.go:116-134 | A readable directory renders a non-file page with the request path and its parent, whose entries are a sorted permutation of the entries made from the items. |
| `Handler.TextPage` | videobrowser.go:148-154 | A readable file classified as text renders a file page holding its contents. |
| `Handler.FilePage` | videobrowser.go:135-156 | A file shown through the template is a file view, flagged as image or video by its extension, with contents exactly when it is read as text. |
| `Handler.DirectoryOutcome` | videobrowser.go:118-134 | For an accepted directory: 500 exactly when it is unreadable, otherwise a sorted page of its entries. |
| `Handler.FileOutcome` | videobrowser.go:135-162 | For a found file: 500 exactly for an unreadable text file, attachment exactly for ".zip", direct serving exactly for a regular image or video, never 403 or 404. |
| `Handler.LookupOutcome` | videobrowser.go:110-164 | After acceptance: never 403, 404 exactly when missing, 500 exactly on a read failure, and the resolved path is what is served. |
| `Handler.StatusCodes` | videobrowser.go:104-164 | Status 403 exactly on rejection, and 200 exactly for pages and served files. |
| `Handler.ServedFileUnderBase` | videobrowser.go:146-160 | Every served file is a found, clean file path whose absolute form starts, as a string, with the absolute base. |
| `Handler.ServedFileBelowBase` | videobrowser.go:104-160 | For a request that climbs no "..", with or without a leading "/", the served file lies segment-wise below the base. |
| `Handler.RootNeverForbidden` | videobrowser.go:99-108 | The empty query resolves to the cleaned base and is never answered with 403. |
| `FilePath.CleanIdempotent` | videobrowser.go:42 | Cleaning is idempotent and keeps whether a non-empty path is rooted. |
| `FilePath.CleanIsRender` | videobrowser.go:42 | `Clean` renders clean segments: no "" or ".", and ".." only leading, never in a rooted path. |
| `FilePath.JoinRelative` | videobrowser.go:42 | `Join` onto a non-empty relative base cleans the concatenated segments. |
| `FilePath.AbsRelative` | videobrowser.go:43-44 | `Abs` of a relative path cleans its segments behind the working directory. |
| `FilePath.DirOfClean` | videobrowser.go:59 | `Dir` of a cleaned path drops its last segment. |
| `FilePath.ExtShape` | videobrowser.go:137 | `Ext` is empty or a suffix that starts at a "." and holds no other "." and no separator. |
| `Lexical.NormalizeIdempotent` | videobrowser.go:42 | Cleaning already clean segments changes nothing. |
| `Lexical.NormalizeClean` | videobrowser.go:42 | Cleaning separator-free segments yields the clean shape. |
| `Lexical.FoldAppend` | videobrowser.go:42-44 | Scanning a concatenation scans the parts in turn. |
| `Lexical.FoldModesAgree` | videobrowser.go:42-44 | When the relative cleaning of some segments keeps no "..", the rooted cleaning gives the same segments. |
| `Segments.JoinSplit` | videobrowser.go:42 | Joining the pieces of a split gives back the string. |
| `Segments.SplitJoin` | videobrowser.go:42 | Splitting a join of separator-free segments gives back the segments. |
| `Segments.SplitConcat` | videobrowser.go:42 | Splitting at a separator concatenates the two splits. |

## Left out

- HTTP plumbing: the response writer, error bodies, the Content-Type and
  Content-Disposition headers (including `filepath.Base` for the attachment
  name), and `http.ServeFile` itself. These are I/O; the outcome tags
  `ZipAttachment`, `ServeMedia` and `RenderTemplate` stand for them.
- Template parsing and execution (videobrowser.go:38, 164): an external
  library. The model stops at the page data handed to it.
- Query parsing beyond the default of "." for an empty `path` value.
- Real filesystem calls. `os.Stat`, `os.ReadDir` and `os.ReadFile` read an
  immutable map keyed by the cleaned path.
  - Every `os.Stat` failure is absence from the map and gives 404.
  - Errors other than absence are not told apart.
  - Symbolic links are not modelled; the code does not resolve them either.
- `filepath.Abs`'s use of the process working directory and its ignored
  error (videobrowser.go:43-44). The working directory is the parameter
  `cwd`. The proofs about absolute paths assume it is absolute, and that
  the base is relative and non-empty, as `indir` is.
- Unicode case folding: `strings.ToLower` is modelled on ASCII letters
  only. Other characters are left unchanged.
- The algorithm and instability of `sort.Slice`. `SortEntries` is one
  insertion sort that satisfies the comparator. Only the order of its
  result is specified: sorted, and a permutation of the input.
  `Ordering.SortedUnique` shows that without ties every sort respecting the
  comparator gives the same result. With ties, such as the files "A" and
  "a", the order of the tied entries is left open, as it is in the code.
- `main`, logging, the listen address and the version constants
  (videobrowser.go:16-19, 168-178): process bootstrap.
- Concurrency of the HTTP server: each request is handled by a pure
  function of its inputs.
- Paths are strings of characters, not bytes. Go's string `<` compares
  bytes, which agrees with comparing characters for ASCII names.
