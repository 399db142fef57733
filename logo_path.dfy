/** Where a logo is stored: the extension taken from the logo URL by
    `os.path.splitext` (POSIX flavour) with `.png` as the fallback, the file
    name `slug + extension`, and `os.path.join(output_folder, file_name)`. */
module LogoPath {
  import opened Sanitizer

  /** The last index below `n` holding `x`, or -1 when there is none. */
  function RFindBefore(s: string, x: char, n: nat): (i: int)
    requires n <= |s|
    ensures -1 <= i < n
    ensures i >= 0 ==> s[i] == x
    ensures forall j :: i < j < n ==> s[j] != x
  {
    if n == 0 then -1
    else if s[n - 1] == x then n - 1
    else RFindBefore(s, x, n - 1)
  }

  /** `str.rfind`: the last index holding `x`, or -1 when there is none. */
  function RFind(s: string, x: char): int {
    RFindBefore(s, x, |s|)
  }

  /** Every character of `p` from `lo` up to `hi` is a dot. */
  predicate DotsOnly(p: string, lo: int, hi: int)
    requires 0 <= lo && hi <= |p|
  {
    forall i :: lo <= i < hi ==> p[i] == '.'
  }

  /** Where `splitext` cuts `p`: at the last dot when it lies in the last
      path component and that component has something other than dots
      before it; otherwise at the end (no extension). */
  function ExtStart(p: string): (k: nat)
    ensures k <= |p|
  {
    var sep := RFind(p, '/');
    var dot := RFind(p, '.');
    if dot > sep && !DotsOnly(p, sep + 1, dot) then dot else |p|
  }

  /** `os.path.splitext(p)`: the pair `(root, ext)`. */
  function SplitExt(p: string): (r: (string, string))
    ensures r.0 + r.1 == p
  {
    var k := ExtStart(p);
    assert p[..k] + p[k..] == p;
    (p[..k], p[k..])
  }

  /** Before index `d`, the last path component holds a character other
      than a dot. */
  ghost predicate NonDotBefore(p: string, d: int) {
    exists k :: 0 <= k < d <= |p| && p[k] != '.' && forall j :: k <= j < d ==> p[j] != '/'
  }

  /** What an extension of `p` is, said directly: a suffix of `p` that
      starts with its only dot, holds no slash, and follows a non-dot
      character of the same path component. */
  ghost predicate IsExtOf(p: string, e: string) {
    && 0 < |e| <= |p|
    && p[|p| - |e|..] == e
    && e[0] == '.'
    && (forall i :: 1 <= i < |e| ==> e[i] != '.')
    && (forall i :: 0 <= i < |e| ==> e[i] != '/')
    && NonDotBefore(p, |p| - |e|)
  }

  /** The extension `splitext` returns, when not empty, is an extension of
      `p` in the sense of `IsExtOf`. */
  lemma SplitExtSound(p: string)
    requires SplitExt(p).1 != []
    ensures IsExtOf(p, SplitExt(p).1)
  {
    var sep := RFind(p, '/');
    var dot := RFind(p, '.');
    var e := SplitExt(p).1;
    assert dot > sep && !DotsOnly(p, sep + 1, dot);
    assert e == p[dot..];
    var k :| sep + 1 <= k < dot && p[k] != '.';
    assert forall j :: k <= j < dot ==> p[j] != '/';
    assert NonDotBefore(p, dot);
  }

  /** `rfind` finds `i` when `i` holds `x` and nothing after it does. */
  lemma RFindAt(s: string, x: char, i: int)
    requires 0 <= i < |s| && s[i] == x
    requires forall j :: i < j < |s| ==> s[j] != x
    ensures RFind(s, x) == i
  {
  }

  /** `rfind` stays below `d` when nothing from `d` on holds `x`. */
  lemma RFindBelow(s: string, x: char, d: int)
    requires 0 <= d <= |s|
    requires forall j :: d <= j < |s| ==> s[j] != x
    ensures RFind(s, x) < d
  {
  }

  /** `splitext` cuts at `d` when `d` holds a dot, nothing after it is a
      dot or a slash, and a non-dot of the same component precedes it. */
  lemma ExtStartAt(p: string, d: int)
    requires 0 <= d < |p| && p[d] == '.'
    requires forall j :: d < j < |p| ==> p[j] != '.' && p[j] != '/'
    requires NonDotBefore(p, d)
    ensures ExtStart(p) == d
  {
    RFindAt(p, '.', d);
    RFindBelow(p, '/', d);
    var sep := RFind(p, '/');
    var k :| 0 <= k < d && p[k] != '.' && forall j :: k <= j < d ==> p[j] != '/';
    assert sep < k;
  }

  /** Any extension of `p` in the sense of `IsExtOf` is the one `splitext`
      returns. */
  lemma SplitExtComplete(p: string, e: string)
    requires IsExtOf(p, e)
    ensures SplitExt(p).1 == e
  {
    var d := |p| - |e|;
    forall j | d <= j < |p|
      ensures p[j] == e[j - d]
    {
      assert p[d..][j - d] == p[j];
    }
    ExtStartAt(p, d);
  }

  /** `splitext` and `IsExtOf` agree, in both directions. */
  lemma SplitExtIsExt(p: string)
    ensures forall e :: IsExtOf(p, e) <==> e != [] && e == SplitExt(p).1
  {
    if SplitExt(p).1 != [] {
      SplitExtSound(p);
    }
    forall e | IsExtOf(p, e)
      ensures e == SplitExt(p).1
    {
      SplitExtComplete(p, e);
    }
  }

  /** `os.path.splitext(logo_url)[1] or '.png'`. */
  function Extension(url: string): string {
    var e := SplitExt(url).1;
    if e == [] then ".png" else e
  }

  /** The extension starts with a dot and holds no slash; it is the URL's
      own extension when it has one, and `.png` only when it has none. */
  lemma ExtensionShape(url: string)
    ensures var r := Extension(url);
      && |r| > 0 && r[0] == '.'
      && (forall i :: 0 <= i < |r| ==> r[i] != '/')
      && (IsExtOf(url, r) || (r == ".png" && forall e :: !IsExtOf(url, e)))
  {
    SplitExtIsExt(url);
  }

  /** `posixpath.join(a, b)`: an absolute `b` replaces `a`; otherwise `b`
      is appended, after a slash unless `a` is empty or ends in one. */
  function Join(a: string, b: string): string {
    if |b| > 0 && b[0] == '/' then b
    else if a == [] || a[|a| - 1] == '/' then a + b
    else a + "/" + b
  }

  /** What `join` puts in front of a relative file name. */
  function DirPrefix(folder: string): (r: string)
    ensures r == folder || r == folder + "/"
    ensures r == folder <==> (folder == [] || folder[|folder| - 1] == '/')
    ensures r != [] ==> r[|r| - 1] == '/'
  {
    if folder == [] || folder[|folder| - 1] == '/' then folder else folder + "/"
  }

  /** The file name `f"{team_name}{file_extension}"`. */
  function FileName(t: CharTable, alt: string, url: string): string {
    SanitizeName(t, alt) + Extension(url)
  }

  /** The target path `os.path.join(output_folder, file_name)`. */
  function TargetPath(t: CharTable, folder: string, alt: string, url: string): string {
    Join(folder, FileName(t, alt, url))
  }

  /** The file name is never empty and never holds a slash: it ends in the
      extension, and the slug carries no slash. */
  lemma FileNameShape(t: CharTable, alt: string, url: string)
    requires t.Valid()
    ensures var n := FileName(t, alt, url);
      && |n| > 0
      && (forall i :: 0 <= i < |n| ==> n[i] != '/')
      && n[|SanitizeName(t, alt)|] == '.'
  {
    SlugHasNoSlash(t, alt);
    ExtensionShape(url);
    NameShape(SanitizeName(t, alt), Extension(url));
  }

  /** A slash-free slug followed by an extension is a slash-free name. */
  lemma NameShape(slug: string, ext: string)
    requires forall i :: 0 <= i < |slug| ==> slug[i] != '/'
    requires |ext| > 0 && ext[0] == '.' && forall i :: 0 <= i < |ext| ==> ext[i] != '/'
    ensures var n := slug + ext;
      |n| > 0 && (forall i :: 0 <= i < |n| ==> n[i] != '/') && n[|slug|] == '.'
  {
    var n := slug + ext;
    forall i | 0 <= i < |n|
      ensures n[i] != '/'
    {
      if i >= |slug| {
        assert n[i] == ext[i - |slug|];
      }
    }
  }

  /** Joining a non-empty name without slashes onto a folder: the folder,
      a slash where one is missing, the name; the last slash of the path is
      the one before the name. */
  lemma JoinName(folder: string, n: string)
    requires n != [] && forall i :: 0 <= i < |n| ==> n[i] != '/'
    ensures Join(folder, n) == DirPrefix(folder) + n
    ensures RFind(Join(folder, n), '/') == |DirPrefix(folder)| - 1
  {
    var d := DirPrefix(folder);
    var p := d + n;
    assert n[0] != '/';
    assert Join(folder, n) == p;
    forall j | |d| <= j < |p|
      ensures p[j] != '/'
    {
      assert p[j] == n[j - |d|];
    }
    if d != [] {
      RFindAt(p, '/', |d| - 1);
    } else {
      RFindBelow(p, '/', 0);
    }
  }

  /** Within one folder, two names without slashes give the same path
      exactly when they are the same name. */
  lemma JoinInjective(folder: string, n1: string, n2: string)
    requires n1 != [] && forall i :: 0 <= i < |n1| ==> n1[i] != '/'
    requires n2 != [] && forall i :: 0 <= i < |n2| ==> n2[i] != '/'
    ensures Join(folder, n1) == Join(folder, n2) <==> n1 == n2
  {
    JoinName(folder, n1);
    JoinName(folder, n2);
    var d := DirPrefix(folder);
    if d + n1 == d + n2 {
      assert n1 == (d + n1)[|d|..];
      assert n2 == (d + n2)[|d|..];
    }
  }

  /** The file lands directly in the output folder: the path is the folder,
      a slash where one is missing, then the file name; after the folder
      there is no further slash but the separator. */
  lemma TargetInFolder(t: CharTable, folder: string, alt: string, url: string)
    requires t.Valid()
    ensures TargetPath(t, folder, alt, url) == DirPrefix(folder) + FileName(t, alt, url)
    ensures RFind(TargetPath(t, folder, alt, url), '/') == |DirPrefix(folder)| - 1
  {
    FileNameShape(t, alt, url);
    JoinName(folder, FileName(t, alt, url));
  }

  /** Within one folder, distinct file names give distinct paths, and the
      same name gives the same path. */
  lemma TargetInjective(t: CharTable, folder: string, alt1: string, url1: string, alt2: string, url2: string)
    requires t.Valid()
    ensures TargetPath(t, folder, alt1, url1) == TargetPath(t, folder, alt2, url2)
      <==> FileName(t, alt1, url1) == FileName(t, alt2, url2)
  {
    FileNameShape(t, alt1, url1);
    FileNameShape(t, alt2, url2);
    JoinInjective(folder, FileName(t, alt1, url1), FileName(t, alt2, url2));
  }

  /** The URL keeps everything after its last dot, a query string included:
      "i/crest.png?v=2" -> ".png?v=2". */
  lemma ExtensionKeepsQuery()
    ensures Extension("i/crest.png?v=2") == ".png?v=2"
  {
    var p := "i/crest.png?v=2";
    assert p[|p| - 8..] == ".png?v=2";
    assert p[2] != '.' && forall j :: 2 <= j < 7 ==> p[j] != '/';
    assert NonDotBefore(p, 7);
    SplitExtComplete(p, ".png?v=2");
  }

  /** A URL whose last component has no dot falls back to ".png". */
  lemma ExtensionFallback()
    ensures Extension("i/crest") == ".png"
  {
    var p := "i/crest";
    RFindBelow(p, '.', 0);
  }

  /** A last component of dots and a suffix is a hidden file without an
      extension: "i/.svg" -> ".png". */
  lemma ExtensionHiddenFile()
    ensures Extension("i/.svg") == ".png"
  {
    var p := "i/.svg";
    RFindAt(p, '/', 1);
    RFindAt(p, '.', 2);
    assert DotsOnly(p, 2, 2);
  }

  /** A crest URL ending in ".png": "i/crest.png" -> ".png". */
  lemma ExtensionPng()
    ensures Extension("i/crest.png") == ".png"
  {
    var p := "i/crest.png";
    assert p[|p| - 4..] == ".png";
    assert p[2] != '.' && forall j :: 2 <= j < 7 ==> p[j] != '/';
    assert NonDotBefore(p, 7);
    SplitExtComplete(p, ".png");
  }

  /** An SVG crest keeps its own extension: "i/crest.svg" -> ".svg". */
  lemma ExtensionSvg()
    ensures Extension("i/crest.svg") == ".svg"
  {
    var p := "i/crest.svg";
    assert p[|p| - 4..] == ".svg";
    assert p[2] != '.' && forall j :: 2 <= j < 7 ==> p[j] != '/';
    assert NonDotBefore(p, 7);
    SplitExtComplete(p, ".svg");
  }

  /** The path from a known slug and extension. */
  lemma TargetFromParts(t: CharTable, folder: string, alt: string, url: string, slug: string, ext: string)
    requires SanitizeName(t, alt) == slug && Extension(url) == ext
    ensures TargetPath(t, folder, alt, url) == Join(folder, slug + ext)
  {
  }

  /** Joining a relative name onto a folder that does not end in a slash. */
  lemma JoinWithSlash(folder: string, name: string)
    requires folder != [] && folder[|folder| - 1] != '/'
    requires name != [] && name[0] != '/'
    ensures Join(folder, name) == folder + "/" + name
  {
  }

  /** "Manchester Utd" with a PNG crest lands at "Logos/manchester-utd.png". */
  lemma TargetManchesterUtd()
    ensures TargetPath(Latin1, "Logos", "Manchester Utd", "i/crest.png") == "Logos/manchester-utd.png"
  {
    ExtensionPng();
    SanitizeManchesterUtd();
    var slug, ext := "manchester-utd", ".png";
    TargetFromParts(Latin1, "Logos", "Manchester Utd", "i/crest.png", slug, ext);
    JoinWithSlash("Logos", slug + ext);
    LogosManchesterUtdSpelled();
  }

  lemma LogosManchesterUtdSpelled()
    ensures "Logos" + "/" + ("manchester-utd" + ".png") == "Logos/manchester-utd.png"
  {
  }
}
