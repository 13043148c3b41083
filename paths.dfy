/**
 * Paths relative to the project root, the directory filter `should_skip`, the
 * suffix rules of Python's `pathlib` and the two candidate tests of the walks.
 * A path is the sequence of its components (`Path.parts` of `relative_to(ROOT)`).
 */
module Paths {
  import opened Ascii

  type Path = seq<string>

  const BackupDir: string := "backup_images"
  const ImgExts: set<string> := {".jpg", ".jpeg", ".png"}
  const SkipDirs: set<string> := {BackupDir, ".git", "node_modules", "__pycache__"}
  const WebpExt: string := ".webp"
  const HtmlExt: string := ".html"

  /** Some component is exactly one of the service directories. */
  function ShouldSkip(p: Path): (b: bool)
    ensures b <==> exists k :: 0 <= k < |p| && p[k] in SkipDirs
  {
    if p == [] then false
    else if p[0] in SkipDirs then true
    else
      assert forall k :: 1 <= k < |p| ==> p[k] == p[1..][k - 1];
      ShouldSkip(p[1..])
  }

  /** Components added on either side keep a skipped path skipped. */
  lemma SkipExtends(p: Path, before: Path, after: Path)
    requires ShouldSkip(p)
    ensures ShouldSkip(before + p + after)
  {
    var k :| 0 <= k < |p| && p[k] in SkipDirs;
    assert (before + p + after)[|before| + k] == p[k];
  }

  /** A path with one more component is skipped exactly when the parent is or the component is a service directory. */
  lemma SkipSnoc(parent: Path, name: string)
    ensures ShouldSkip(parent + [name]) <==> ShouldSkip(parent) || name in SkipDirs
  {
    var p := parent + [name];
    if ShouldSkip(parent) {
      var k :| 0 <= k < |parent| && parent[k] in SkipDirs;
      assert p[k] == parent[k];
    }
    if ShouldSkip(p) {
      var k :| 0 <= k < |p| && p[k] in SkipDirs;
      if k < |parent| {
        assert p[k] == parent[k];
      }
    }
    assert p[|parent|] == name;
  }

  /** The last component, `Path.name` (empty for the root itself). */
  function Name(p: Path): string
  {
    if p == [] then "" else p[|p| - 1]
  }

  /** Index of the last `c` in `s`, or -1, as `str.rfind`. */
  function RFind(s: string, c: char): (i: int)
    ensures -1 <= i < |s|
    ensures 0 <= i ==> s[i] == c
    ensures forall k :: i < k < |s| ==> s[k] != c
  {
    if s == [] then -1
    else if s[|s| - 1] == c then |s| - 1
    else RFind(s[..|s| - 1], c)
  }

  /** The last occurrence determines `RFind`. */
  lemma RFindIs(s: string, c: char, i: nat)
    requires i < |s| && s[i] == c
    requires forall k :: i < k < |s| ==> s[k] != c
    ensures RFind(s, c) == i
  {
    var j := RFind(s, c);
    if j < i {
      assert false;
    }
  }

  /** `PurePath.suffix`: from the last dot on, unless that dot leads or ends the name. */
  function Suffix(name: string): string
  {
    var i := RFind(name, '.');
    if 0 < i < |name| - 1 then name[i..] else ""
  }

  /** `PurePath.stem`: the name without its suffix. */
  function Stem(name: string): string
  {
    var i := RFind(name, '.');
    if 0 < i < |name| - 1 then name[..i] else name
  }

  /** A suffix, when there is one, is a dot and at least one more character, and no further dot. */
  lemma SuffixShape(name: string)
    ensures Stem(name) + Suffix(name) == name
    ensures Suffix(name) != "" ==>
      |Suffix(name)| >= 2 && Suffix(name)[0] == '.' && Stem(name) != "" &&
      forall k :: 1 <= k < |Suffix(name)| ==> Suffix(name)[k] != '.'
  {
    var i := RFind(name, '.');
    if 0 < i < |name| - 1 {
      assert name[..i] + name[i..] == name;
      forall k | 1 <= k < |Suffix(name)| ensures Suffix(name)[k] != '.' {
        assert Suffix(name)[k] == name[i + k];
      }
    }
  }

  /** `PurePath.with_suffix`: the same parent, the stem of the name and the new suffix. */
  function WithSuffix(p: Path, suffix: string): (d: Path)
    requires Name(p) != ""
    ensures |d| == |p| && d[..|d| - 1] == p[..|p| - 1]
    ensures Name(d) == Stem(Name(p)) + suffix
  {
    p[..|p| - 1] + [Stem(Name(p)) + suffix]
  }

  /** The suffix in any letter case is one of the three image extensions. */
  predicate HasImgExt(name: string)
  {
    LowerStr(Suffix(name)) in ImgExts
  }

  /** A path the image filter accepts, file-ness aside. */
  predicate IsImagePath(p: Path)
  {
    HasImgExt(Name(p)) && !ShouldSkip(p)
  }

  /** `src.with_suffix(".webp")` in `convert_to_webp`. */
  function Dest(src: Path): (d: Path)
    requires IsImagePath(src)
  {
    SuffixShape(Name(src));
    WithSuffix(src, WebpExt)
  }

  /** Appending a suffix to a non-empty stem makes it the suffix of the new name. */
  lemma SuffixOfStemPlus(stem: string, suffix: string)
    requires stem != "" && |suffix| >= 2 && suffix[0] == '.'
    requires forall k :: 1 <= k < |suffix| ==> suffix[k] != '.'
    ensures Suffix(stem + suffix) == suffix && Stem(stem + suffix) == stem
  {
    var name := stem + suffix;
    var i := RFind(name, '.');
    assert name[|stem|] == '.';
    assert forall k :: |stem| < k < |name| ==> name[k] == suffix[k - |stem|];
    assert name[|stem|..] == suffix;
  }

  /** A name with an image suffix ends in `g` or `G`, and so is not a service directory name. */
  lemma ImageNameEndsInG(name: string)
    requires HasImgExt(name)
    ensures name != "" && Lower(name[|name| - 1]) == 'g'
    ensures name !in SkipDirs
  {
    assert name != "" && Lower(name[|name| - 1]) == 'g' by {
      SuffixShape(name);
      var x := Suffix(name);
      assert LowerStr(x)[|x| - 1] == 'g';
      assert x[|x| - 1] == name[|name| - 1];
    }
    SkipDirsDoNotEndInG();
  }

  lemma SkipDirsDoNotEndInG()
    ensures forall d :: d in SkipDirs ==> d != "" && Lower(d[|d| - 1]) != 'g' && d[|d| - 1] != 'p'
  {
  }

  /**
   * The destination of an image keeps its parent directory and its stem and has
   * the suffix `.webp`.
   */
  lemma DestShape(src: Path)
    requires IsImagePath(src)
    ensures var d := Dest(src);
      |d| == |src| && d[..|d| - 1] == src[..|src| - 1] &&
      Stem(Name(d)) == Stem(Name(src)) && Suffix(Name(d)) == WebpExt
  {
    var name := Name(src);
    SuffixShape(name);
    SuffixOfStemPlus(Stem(name), WebpExt);
  }

  /** The name of a destination ends in `p`. */
  lemma DestEndsInP(src: Path)
    requires IsImagePath(src)
    ensures var n := Name(Dest(src)); n != "" && n[|n| - 1] == 'p'
  {
    var name := Name(src);
    SuffixShape(name);
    var n := Name(Dest(src));
    assert n == Stem(name) + WebpExt;
    assert n[|n| - 1] == WebpExt[|WebpExt| - 1];
  }

  /** The destination's suffix is `.webp`, which is not an image extension. */
  lemma DestNotImageName(src: Path)
    requires IsImagePath(src)
    ensures !HasImgExt(Name(Dest(src)))
  {
    DestEndsInP(src);
    assert Lower('p') == 'p';
    if HasImgExt(Name(Dest(src))) {
      ImageNameEndsInG(Name(Dest(src)));
    }
  }

  /** The destination lies outside the service directories, as its source does. */
  lemma DestNotSkipped(src: Path)
    requires IsImagePath(src)
    ensures !ShouldSkip(Dest(src))
  {
    var d := Dest(src);
    var parent := src[..|src| - 1];
    assert Name(d) !in SkipDirs by {
      DestEndsInP(src);
      SkipDirsDoNotEndInG();
    }
    assert d == parent + [Name(d)] by {
      DestShape(src);
    }
    assert src == parent + [Name(src)];
    SkipSnoc(parent, Name(src));
    SkipSnoc(parent, Name(d));
  }

  /** The destination differs from its source: their names end in different letters. */
  lemma DestDiffers(src: Path)
    requires IsImagePath(src)
    ensures Dest(src) != src
  {
    DestEndsInP(src);
    ImageNameEndsInG(Name(src));
    assert Lower('p') == 'p';
  }

  /**
   * The destination is neither an image nor a skipped path; so a conversion never
   * overwrites an image still to be processed, nor a backup.
   */
  lemma DestNotImage(src: Path)
    requires IsImagePath(src)
    ensures !IsImagePath(Dest(src)) && !ShouldSkip(Dest(src)) && Dest(src) != src
  {
    DestNotImageName(src);
    DestNotSkipped(src);
    DestDiffers(src);
  }

  /** `ROOT / BACKUP_DIR / rel`, the backup of a root-relative path. */
  function BackupPath(src: Path): (b: Path)
    ensures ShouldSkip(b) && !IsImagePath(b)
    ensures b[1..] == src
  {
    [BackupDir] + src
  }

  /** A backup path is never its own source: it is one component longer. */
  lemma BackupDiffers(src: Path)
    ensures BackupPath(src) != src
  {
    assert |BackupPath(src)| == |src| + 1;
  }

  /** Distinct sources have distinct backups. */
  lemma BackupInjective(p: Path, q: Path)
    requires BackupPath(p) == BackupPath(q)
    ensures p == q
  {
    assert p == BackupPath(p)[1..];
  }

  /** One entry of the recursive walk: a root-relative path and whether it is a regular file. */
  datatype Entry = Entry(path: Path, isFile: bool)

  /** The test of `find_images`: a regular file with an image suffix outside the service directories. */
  predicate IsImageCandidate(e: Entry)
  {
    e.isFile && IsImagePath(e.path)
  }

  predicate EndsWithHtml(name: string)
  {
    |name| >= |HtmlExt| && name[|name| - |HtmlExt|..] == HtmlExt
  }

  /** The test of `find_html_files`: a name matching `*.html` outside the service directories. */
  predicate IsHtmlCandidate(e: Entry)
  {
    EndsWithHtml(Name(e.path)) && !ShouldSkip(e.path)
  }

  /** An image name never ends in `.html`. */
  lemma ImageNotHtml(name: string)
    requires HasImgExt(name)
    ensures !EndsWithHtml(name)
  {
    ImageNameEndsInG(name);
  }

  /**
   * Processing an image removes it, and adds its backup and its WebP file; none of
   * these is an HTML candidate, so the second walk finds the same HTML files.
   */
  lemma TouchedPathsAreNotHtml(src: Path, isFile: bool)
    requires IsImagePath(src)
    ensures !IsHtmlCandidate(Entry(src, isFile))
    ensures !IsHtmlCandidate(Entry(BackupPath(src), isFile))
    ensures !IsHtmlCandidate(Entry(Dest(src), isFile))
  {
    ImageNotHtml(Name(src));
    DestShape(src);
    var n := Name(Dest(src));
    assert n[|n| - 1] == 'p';
  }

  /** `"/".join(parts)`. */
  function Join(p: Path, sep: char): (s: string)
  {
    if p == [] then "" else if |p| == 1 then p[0] else p[0] + [sep] + Join(p[1..], sep)
  }

  /** `.replace("\\", "/")`. */
  function ForwardSlashes(s: string): string
  {
    if s == [] then [] else [if s[0] == '\\' then '/' else s[0]] + ForwardSlashes(s[1..])
  }

  lemma {:induction false} ForwardSlashesAppend(a: string, b: string)
    ensures ForwardSlashes(a + b) == ForwardSlashes(a) + ForwardSlashes(b)
  {
    if a != [] {
      assert (a + b)[0] == a[0] && (a + b)[1..] == a[1..] + b;
      ForwardSlashesAppend(a[1..], b);
    } else {
      assert a + b == b;
    }
  }

  /** The key of the rename map: the root-relative path with forward slashes. */
  function RelKey(p: Path): string
  {
    ForwardSlashes(Join(p, '/'))
  }

  /** No key holds a backslash. */
  lemma {:induction false} NoBackslash(s: string)
    ensures '\\' !in ForwardSlashes(s)
  {
    if s != [] {
      NoBackslash(s[1..]);
    }
  }

  /** The key is the same whether the platform joins components with `/` or with `\`. */
  lemma {:induction false} RelKeyPlatformIndependent(p: Path)
    ensures ForwardSlashes(Join(p, '\\')) == RelKey(p)
  {
    if |p| > 1 {
      RelKeyPlatformIndependent(p[1..]);
      var rest := Join(p[1..], '\\');
      ForwardSlashesAppend(p[0] + ['\\'], rest);
      ForwardSlashesAppend(p[0], ['\\']);
      ForwardSlashesAppend(p[0] + ['/'], Join(p[1..], '/'));
      ForwardSlashesAppend(p[0], ['/']);
    }
  }
}

/** Worked examples of the path rules. */
module PathsExamples {
  import opened Ascii
  import opened Paths

  /** Exact component equality: `.gitignore` is not a service directory, `.git` is. */
  lemma GitignoreNotSkipped(file: string, dir: string)
    requires file == ".gitignore" && dir == ".git"
    ensures !ShouldSkip([file]) && ShouldSkip([dir, "config"])
  {
    assert [dir, "config"][0] in SkipDirs;
  }

  /** `a.JPG` is an image and becomes `a.webp` in the same directory. */
  lemma UpperJpgBecomesWebp(dir: string, name: string)
    requires dir == "photos" && name == "a.JPG"
    ensures IsImagePath([dir, name]) && Dest([dir, name]) == [dir, "a.webp"]
  {
    RFindIs(name, '.', 1);
    assert name[1..] == ".JPG" && name[..1] == "a";
    assert LowerStr(".JPG") == ".jpg";
    assert dir !in SkipDirs && name !in SkipDirs;
    assert [dir, name][1..] == [name];
    assert !ShouldSkip([name]);
    assert Stem(name) + WebpExt == "a.webp";
  }

  /** `a.jpg` and `a.png` in one directory share the destination `a.webp`. */
  lemma SharedDest(jpg: string, png: string)
    requires jpg == "a.jpg" && png == "a.png"
    ensures IsImagePath([jpg]) && IsImagePath([png]) && Dest([jpg]) == Dest([png])
  {
    RFindIs(jpg, '.', 1);
    RFindIs(png, '.', 1);
    assert jpg[1..] == ".jpg" && png[1..] == ".png";
    assert jpg[..1] == png[..1];
    assert LowerStr(".jpg") == ".jpg" && LowerStr(".png") == ".png";
    assert jpg !in SkipDirs && png !in SkipDirs;
  }
}
