/**
 * The decision logic of `handler` (videobrowser.go:98-165): which response a
 * request for `?path=query` gets. Writing the response is left to the
 * outcome tags: `ServeMedia` and `ZipAttachment` stand for `http.ServeFile`,
 * `RenderTemplate` for executing the page template with the page data.
 */
module Handler {
  import opened Wrappers
  import opened Segments
  import opened Lexical
  import opened FilePath
  import opened SafePath
  import opened FileSystem
  import opened Listing
  import opened Ordering
  import opened Media

  /** `PageData`: what the template is rendered with. */
  datatype PageData = PageData(
    currentPath: string,
    entries: seq<Entry>,
    fileContent: string,
    isFileView: bool,
    parentPath: string,
    isImage: bool,
    isVideo: bool)

  datatype Response =
    | Forbidden
    | NotFound
    | InternalError
    | ZipAttachment(file: string)
    | ServeMedia(file: string)
    | RenderTemplate(page: PageData)

  /** The HTTP status each response is sent with. */
  function StatusCode(r: Response): int
  {
    match r
    case Forbidden => 403
    case NotFound => 404
    case InternalError => 500
    case _ => 200
  }

  /** `info.Mode().IsRegular()`. */
  predicate IsRegular(n: Node)
  {
    n.FileNode? && n.regular
  }

  /** The `path` query parameter, with the empty value meaning the root. */
  function RequestPath(query: string): string
  {
    if query == "" then "." else query
  }

  /** The end of the handler: image and video files that are regular are
      served directly, everything else goes through the template. */
  function Finish(info: Node, fullPath: string, data: PageData): Response
  {
    if IsRegular(info) && (data.isImage || data.isVideo) then ServeMedia(fullPath)
    else RenderTemplate(data)
  }

  /** The page data every request starts from. */
  function Page(rel: string): PageData
  {
    PageData(rel, [], "", false, ParentPath(rel), false, false)
  }

  /** `handler` for a request whose `path` parameter is `query`. */
  function Request(cwd: string, fs: Fs, query: string): Response
  {
    Handle(cwd, fs, RequestPath(query))
  }

  /** `handler` once the requested path `rel` is known: resolve it under the
      base, then look up what is there. */
  function Handle(cwd: string, fs: Fs, rel: string): Response
  {
    match SafeJoin(cwd, BaseDir, rel)
    case Err(_) => Forbidden
    case Ok(fullPath) => Lookup(cwd, fs, rel, fullPath)
  }

  /** The part of `handler` after `safeJoin` accepted `rel` as `fullPath`:
      `os.Stat`, then the directory or the file branch. */
  function Lookup(cwd: string, fs: Fs, rel: string, fullPath: string): Response
  {
    if fullPath !in fs then NotFound
    else if fs[fullPath].DirNode? then ShowDirectory(cwd, fs, rel, fullPath)
    else ShowFile(fs, rel, fullPath)
  }

  /** The directory branch: list one level and sort the entries. */
  function ShowDirectory(cwd: string, fs: Fs, rel: string, fullPath: string): Response
    requires fullPath in fs
  {
    match ListDir(cwd, fs, rel, 1)
    case Err(_) => InternalError
    case Ok(entries) => Finish(fs[fullPath], fullPath, Page(rel).(entries := SortEntries(entries)))
  }

  /** The file branch, by extension. */
  function ShowFile(fs: Fs, rel: string, fullPath: string): Response
    requires fullPath in fs
  {
    var info := fs[fullPath];
    var data := Page(rel).(isFileView := true);
    match CategoryOf(fullPath)
    case Image => Finish(info, fullPath, data.(isImage := true))
    case Video => Finish(info, fullPath, data.(isVideo := true))
    case Archive => ZipAttachment(fullPath)
    case PlainText =>
      match ReadFile(fs, fullPath)
      case None => InternalError
      case Some(content) => Finish(info, fullPath, data.(fileContent := content))
  }

  // ---------------------------------------------------------------------
  // The two branches

  /** A directory that `SafeJoin` accepted gives a 500 exactly when it cannot
      be read, and otherwise a page of its entries: one per item, directories
      first and by lower-cased name, with the parent path to go up to. */
  lemma DirectoryOutcome(cwd: string, fs: Fs, rel: string, full: string)
    requires SafeJoin(cwd, BaseDir, rel) == Ok(full)
    requires full in fs && fs[full].DirNode?
    ensures var r := ShowDirectory(cwd, fs, rel, full);
      && (r == InternalError <==> !fs[full].readable)
      && (fs[full].readable ==> r.RenderTemplate?)
      && (r.RenderTemplate? ==>
            && !r.page.isFileView && !r.page.isImage && !r.page.isVideo
            && r.page.currentPath == rel && r.page.parentPath == ParentPath(rel)
            && multiset(r.page.entries) == multiset(MakeEntries(rel, fs[full].items))
            && Sorted(r.page.entries))
  {
    assert ListDir(cwd, fs, rel, 1).Err? <==> !fs[full].readable;
    if fs[full].readable {
      SortEntriesSorted(ListDir(cwd, fs, rel, 1).value);
    }
  }

  /** A file gives a 500 exactly when it is read as text and cannot be read,
      is sent as an attachment exactly when it is a ".zip", and is served
      directly exactly when it is a regular image or video. */
  lemma FileOutcome(fs: Fs, rel: string, full: string)
    requires full in fs && fs[full].FileNode?
    ensures var r := ShowFile(fs, rel, full);
      && r != Forbidden && r != NotFound
      && (r == InternalError <==> CategoryOf(full) == PlainText && fs[full].content.None?)
      && (r.ZipAttachment? <==> CategoryOf(full) == Archive)
      && (r.ServeMedia? <==> IsRegular(fs[full]) && CategoryOf(full) in {Image, Video})
      && (r.ServeMedia? || r.ZipAttachment? ==> r.file == full)
  {
  }

  /** The page a file is shown on: a file view, flagged as image or video by
      its extension, with the contents only of a file read as text. */
  lemma FilePage(fs: Fs, rel: string, full: string)
    requires full in fs && fs[full].FileNode?
    requires ShowFile(fs, rel, full).RenderTemplate?
    ensures var page := ShowFile(fs, rel, full).page;
      && page.isFileView
      && page.currentPath == rel && page.parentPath == ParentPath(rel)
      && page.isImage == (CategoryOf(full) == Image)
      && page.isVideo == (CategoryOf(full) == Video)
      && page.fileContent == (if CategoryOf(full) == PlainText then fs[full].content.value else "")
  {
  }

  /** After `SafeJoin` accepted `rel` as `full`: never a 403, a 404 exactly
      when nothing is there, a 500 exactly when a directory or a text file
      cannot be read, and the transport gets `full` itself. */
  lemma LookupOutcome(cwd: string, fs: Fs, rel: string, full: string)
    requires SafeJoin(cwd, BaseDir, rel) == Ok(full)
    ensures var r := Lookup(cwd, fs, rel, full);
      && r != Forbidden
      && (r == NotFound <==> full !in fs)
      && (r == InternalError <==>
            && full in fs
            && (match fs[full]
                case DirNode(_, readable) => !readable
                case FileNode(_, content) => CategoryOf(full) == PlainText && content.None?))
      && (r.ServeMedia? <==> full in fs && IsRegular(fs[full]) && CategoryOf(full) in {Image, Video})
      && (r.ZipAttachment? <==> full in fs && fs[full].FileNode? && CategoryOf(full) == Archive)
      && (r.ServeMedia? || r.ZipAttachment? ==> r.file == full)
  {
    if full in fs {
      if fs[full].DirNode? {
        DirectoryOutcome(cwd, fs, rel, full);
      } else {
        FileOutcome(fs, rel, full);
      }
    }
  }

  // ---------------------------------------------------------------------
  // The outcomes, one by one

  /** An empty `path` is the root ".". */
  lemma EmptyQueryIsRoot(cwd: string, fs: Fs)
    ensures Request(cwd, fs, "") == Handle(cwd, fs, ".")
  {
  }

  /** 403 exactly when `SafeJoin` rejects the path, and then whatever the
      filesystem holds: nothing is looked up first. */
  lemma ForbiddenIffRejected(cwd: string, fs: Fs, fs': Fs, rel: string)
    ensures Handle(cwd, fs, rel) == Forbidden <==> SafeJoin(cwd, BaseDir, rel).Err?
    ensures Handle(cwd, fs, rel) == Forbidden ==> Handle(cwd, fs', rel) == Forbidden
  {
    match SafeJoin(cwd, BaseDir, rel)
    case Err(_) =>
    case Ok(full) => LookupOutcome(cwd, fs, rel, full);
  }

  /** 404 exactly when the path is accepted but nothing is found there. */
  lemma NotFoundIffMissing(cwd: string, fs: Fs, rel: string)
    ensures var sj := SafeJoin(cwd, BaseDir, rel);
      Handle(cwd, fs, rel) == NotFound <==> sj.Ok? && sj.value !in fs
  {
    match SafeJoin(cwd, BaseDir, rel)
    case Err(_) =>
    case Ok(full) => LookupOutcome(cwd, fs, rel, full);
  }

  /** 500 exactly when the found directory cannot be listed, or the found
      file is read as text and cannot be read. */
  lemma InternalErrorIffReadFails(cwd: string, fs: Fs, rel: string)
    ensures var sj := SafeJoin(cwd, BaseDir, rel);
      Handle(cwd, fs, rel) == InternalError <==>
        && sj.Ok? && sj.value in fs
        && (match fs[sj.value]
            case DirNode(_, readable) => !readable
            case FileNode(_, content) => CategoryOf(sj.value) == PlainText && content.None?)
  {
    match SafeJoin(cwd, BaseDir, rel)
    case Err(_) =>
    case Ok(full) => LookupOutcome(cwd, fs, rel, full);
  }

  /** Media is served directly exactly for a regular file with an image or
      video extension, and it is the resolved path that is served. */
  lemma ServeMediaIffRegularMedia(cwd: string, fs: Fs, rel: string)
    ensures var sj := SafeJoin(cwd, BaseDir, rel);
      Handle(cwd, fs, rel).ServeMedia? <==>
        sj.Ok? && sj.value in fs && IsRegular(fs[sj.value]) && CategoryOf(sj.value) in {Image, Video}
    ensures Handle(cwd, fs, rel).ServeMedia? ==>
      Handle(cwd, fs, rel).file == SafeJoin(cwd, BaseDir, rel).value
  {
    match SafeJoin(cwd, BaseDir, rel)
    case Err(_) =>
    case Ok(full) => LookupOutcome(cwd, fs, rel, full);
  }

  /** ".zip" files are sent as an attachment, regular or not. */
  lemma ZipIffArchive(cwd: string, fs: Fs, rel: string)
    ensures var sj := SafeJoin(cwd, BaseDir, rel);
      Handle(cwd, fs, rel).ZipAttachment? <==>
        sj.Ok? && sj.value in fs && fs[sj.value].FileNode? && CategoryOf(sj.value) == Archive
    ensures Handle(cwd, fs, rel).ZipAttachment? ==>
      Handle(cwd, fs, rel).file == SafeJoin(cwd, BaseDir, rel).value
  {
    match SafeJoin(cwd, BaseDir, rel)
    case Err(_) =>
    case Ok(full) => LookupOutcome(cwd, fs, rel, full);
  }

  /** An image or video that is not a regular file is shown through the
      template instead, flagged as image or video and without contents. */
  lemma IrregularMediaRendersPage(cwd: string, fs: Fs, rel: string)
    requires SafeJoin(cwd, BaseDir, rel).Ok?
    requires var full := SafeJoin(cwd, BaseDir, rel).value;
      full in fs && fs[full].FileNode? && !fs[full].regular && CategoryOf(full) in {Image, Video}
    ensures Handle(cwd, fs, rel).RenderTemplate?
    ensures var page := Handle(cwd, fs, rel).page;
      var full := SafeJoin(cwd, BaseDir, rel).value;
      && page.isFileView && page.fileContent == ""
      && page.isImage == (CategoryOf(full) == Image)
      && page.isVideo == (CategoryOf(full) == Video)
  {
    var full := SafeJoin(cwd, BaseDir, rel).value;
    FileOutcome(fs, rel, full);
    FilePage(fs, rel, full);
  }

  /** A readable directory is rendered as a page listing its items, one
      entry each, directories first and by lower-cased name, with the parent
      path to go up to. */
  lemma DirectoryPage(cwd: string, fs: Fs, rel: string)
    requires SafeJoin(cwd, BaseDir, rel).Ok?
    requires var full := SafeJoin(cwd, BaseDir, rel).value;
      full in fs && fs[full].DirNode? && fs[full].readable
    ensures Handle(cwd, fs, rel).RenderTemplate?
    ensures var page := Handle(cwd, fs, rel).page;
      var items := fs[SafeJoin(cwd, BaseDir, rel).value].items;
      && !page.isFileView && !page.isImage && !page.isVideo
      && page.currentPath == rel && page.parentPath == ParentPath(rel)
      && multiset(page.entries) == multiset(MakeEntries(rel, items))
      && Sorted(page.entries)
  {
    DirectoryOutcome(cwd, fs, rel, SafeJoin(cwd, BaseDir, rel).value);
  }

  /** A file read as text is rendered with its contents. */
  lemma TextPage(cwd: string, fs: Fs, rel: string)
    requires SafeJoin(cwd, BaseDir, rel).Ok?
    requires var full := SafeJoin(cwd, BaseDir, rel).value;
      full in fs && fs[full].FileNode? && fs[full].content.Some? && CategoryOf(full) == PlainText
    ensures Handle(cwd, fs, rel).RenderTemplate?
    ensures var page := Handle(cwd, fs, rel).page;
      var full := SafeJoin(cwd, BaseDir, rel).value;
      && page.isFileView && !page.isImage && !page.isVideo
      && page.fileContent == fs[full].content.value
  {
    var full := SafeJoin(cwd, BaseDir, rel).value;
    FileOutcome(fs, rel, full);
    FilePage(fs, rel, full);
  }

  /** The status codes: 403, 404 and 500 for the three failures above, 200
      for every page and every served file. */
  lemma StatusCodes(cwd: string, fs: Fs, rel: string)
    ensures var r := Handle(cwd, fs, rel);
      && (StatusCode(r) == 403 <==> SafeJoin(cwd, BaseDir, rel).Err?)
      && (StatusCode(r) == 200 <==> r.ServeMedia? || r.ZipAttachment? || r.RenderTemplate?)
  {
    ForbiddenIffRejected(cwd, fs, fs, rel);
  }

  // ---------------------------------------------------------------------
  // Confinement of what is served

  /** Every file handed to the transport lies, as a string, under the base:
      the weak confinement the prefix test gives. */
  lemma ServedFileUnderBase(cwd: string, fs: Fs, rel: string)
    requires Handle(cwd, fs, rel).ServeMedia? || Handle(cwd, fs, rel).ZipAttachment?
    ensures var f := Handle(cwd, fs, rel).file;
      && f in fs && fs[f].FileNode?
      && Clean(f) == f
      && HasPrefix(Abs(cwd, f), Abs(cwd, BaseDir))
  {
    match SafeJoin(cwd, BaseDir, rel)
    case Err(_) =>
    case Ok(full) => LookupOutcome(cwd, fs, rel, full);
  }

  /** For a request that climbs no "..", with or without a leading "/", the
      served file lies below the base segment by segment. */
  lemma ServedFileBelowBase(cwd: string, fs: Fs, rel: string)
    requires IsAbs(cwd) && ".." !in Normalize(Split(rel), false)
    requires Handle(cwd, fs, rel).ServeMedia? || Handle(cwd, fs, rel).ZipAttachment?
    ensures Descends(Abs(cwd, Handle(cwd, fs, rel).file), Abs(cwd, BaseDir))
  {
    SafeJoinAcceptsDownward(cwd, BaseDir, rel);
    LookupOutcome(cwd, fs, rel, SafeJoin(cwd, BaseDir, rel).value);
  }

  /** The root is never forbidden: the empty query resolves to the base. */
  lemma RootNeverForbidden(cwd: string, fs: Fs)
    requires IsAbs(cwd)
    ensures Request(cwd, fs, "") != Forbidden
    ensures SafeJoin(cwd, BaseDir, RequestPath("")) == Ok(Clean(BaseDir))
  {
    SafeJoinAtRoot(cwd, BaseDir, ".");
    ForbiddenIffRejected(cwd, fs, fs, ".");
  }
}
