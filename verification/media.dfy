/**
 * The extension `switch` of the handler (videobrowser.go:137-155): the
 * lower-cased `filepath.Ext` of the resolved path picks how a file is shown.
 */
module Media {
  import opened Segments
  import opened FilePath
  import opened Text

  /** Shown inline as an image, as a video, downloaded as an attachment, or
      read and shown as text. */
  datatype Category = Image | Video | Archive | PlainText

  /** The `switch ext` on the lower-cased extension. */
  function Classify(ext: string): Category
  {
    if ext == ".png" || ext == ".jpg" || ext == ".jpeg" || ext == ".gif" || ext == ".bmp" then Image
    else if ext == ".mp4" || ext == ".webm" || ext == ".ogg" then Video
    else if ext == ".zip" then Archive
    else PlainText
  }

  /** The category of a file path: `strings.ToLower(filepath.Ext(path))`, classified. */
  function CategoryOf(path: string): Category
  {
    Classify(Lower(Ext(path)))
  }

  /** Lower-casing commutes with taking the extension: '.' and '/' are not letters. */
  lemma {:induction false} ExtLower(p: string)
    ensures Ext(Lower(p)) == Lower(Ext(p))
  {
    if |p| > 0 {
      var n := |p|;
      var q := Lower(p);
      var c := p[n - 1];
      var lc := LowerChar(c);
      assert q[n - 1] == lc;
      assert lc == Sep <==> c == Sep;
      assert lc == '.' <==> c == '.';
      if c != Sep && c != '.' {
        LowerPrefix(p, n - 1);
        ExtLower(p[..n - 1]);
        var e := Ext(p[..n - 1]);
        assert Ext(q) == if Lower(e) == "" then "" else Lower(e) + [lc];
        if e != "" {
          LowerSnoc(e, c);
        }
      }
    }
  }

  lemma LowerPrefix(p: string, k: nat)
    requires k <= |p|
    ensures Lower(p)[..k] == Lower(p[..k])
  {
  }

  lemma LowerSnoc(e: string, c: char)
    ensures Lower(e + [c]) == Lower(e) + [LowerChar(c)]
  {
  }

  /** The category does not depend on the case of the path. */
  lemma CategoryIgnoresCase(p: string)
    ensures CategoryOf(Lower(p)) == CategoryOf(p)
  {
    ExtLower(p);
    LowerIdempotent(Ext(p));
  }

  /** The extension of a name ending in "." and a dot-free, separator-free
      suffix is that dot and suffix. */
  lemma {:induction false} ExtOfSuffix(stem: string, x: string)
    requires '.' !in x && Sep !in x
    ensures Ext(stem + "." + x) == "." + x
  {
    var p := stem + "." + x;
    if |x| == 0 {
      assert p[|p| - 1] == '.';
    } else {
      var x' := x[..|x| - 1];
      assert p[..|p| - 1] == stem + "." + x';
      ExtOfSuffix(stem, x');
      assert p[|p| - 1] == x[|x| - 1];
      assert "." + x' + [x[|x| - 1]] == "." + x;
    }
  }

  /** So the category of such a name is decided by its suffix alone. */
  lemma CategoryOfSuffix(stem: string, x: string)
    requires '.' !in x && Sep !in x
    ensures CategoryOf(stem + "." + x) == Classify(Lower("." + x))
  {
    ExtOfSuffix(stem, x);
  }

  /** A path whose final element has no "." has no extension and is text. */
  lemma NoDotIsText(p: string)
    requires forall k :: 0 <= k < |p| && Sep !in p[k..] ==> p[k] != '.'
    ensures Ext(p) == "" && CategoryOf(p) == PlainText
  {
    ExtShape(p);
  }

  /** A path ending in "." and a dot-free, separator-free suffix is
      classified by that suffix. */
  lemma CategoryBySuffix(path: string, x: string)
    requires '.' !in x && Sep !in x
    requires |path| > |x| && path[|path| - |x| - 1..] == "." + x
    ensures CategoryOf(path) == Classify(Lower("." + x))
  {
    var stem := path[..|path| - |x| - 1];
    assert path == stem + "." + x;
    CategoryOfSuffix(stem, x);
  }

  /** Any path ending in ".JPG" is an image: the extension is lower-cased first. */
  lemma ImageExample(path: string)
    requires |path| >= 4 && path[|path| - 4..] == ".JPG"
    ensures CategoryOf(path) == Image
  {
    CategoryBySuffix(path, "JPG");
    assert "." + "JPG" == ".JPG";
    assert Lower(".JPG") == ".jpg";
  }

  /** Any path ending in ".mp4" is a video. */
  lemma VideoExample(path: string)
    requires |path| >= 4 && path[|path| - 4..] == ".mp4"
    ensures CategoryOf(path) == Video
  {
    CategoryBySuffix(path, "mp4");
    assert "." + "mp4" == ".mp4";
    assert Lower(".mp4") == ".mp4";
  }

  /** Any path ending in ".zip" is downloaded as an attachment. */
  lemma ArchiveExample(path: string)
    requires |path| >= 4 && path[|path| - 4..] == ".zip"
    ensures CategoryOf(path) == Archive
  {
    CategoryBySuffix(path, "zip");
    assert "." + "zip" == ".zip";
    assert Lower(".zip") == ".zip";
  }

  /** Any path ending in ".md" is read as text. */
  lemma TextExample(path: string)
    requires |path| >= 3 && path[|path| - 3..] == ".md"
    ensures CategoryOf(path) == PlainText
  {
    CategoryBySuffix(path, "md");
    assert "." + "md" == ".md";
    assert Lower(".md") == ".md";
  }
}
