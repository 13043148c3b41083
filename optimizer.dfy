/**
 * The script's procedures over a `Disk`: the two walks' filters, `backup`,
 * `convert_to_webp` with the encoder passed in, the loop of `main`,
 * `patch_html_files`, and `main` itself. Each is proved against the functions
 * of `Batch`, `Paths` and `Rewriter`.
 */
module Optimizer {
  import opened Wrappers
  import opened Paths
  import opened FileSystem
  import opened Batch
  import opened Rewriter

  /** The paths of the entries that pass `keep`, in walk order. */
  function PathsWhere(es: seq<Entry>, keep: Entry -> bool): seq<Path>
  {
    if es == [] then []
    else
      var n := |es| - 1;
      PathsWhere(es[..n], keep) + if keep(es[n]) then [es[n].path] else []
  }

  /** A path is listed exactly when some entry with that path passes the test. */
  lemma {:induction false} PathsWhereMembers(es: seq<Entry>, keep: Entry -> bool, p: Path)
    ensures p in PathsWhere(es, keep) <==> exists k :: 0 <= k < |es| && es[k].path == p && keep(es[k])
  {
    if es != [] {
      var n := |es| - 1;
      PathsWhereMembers(es[..n], keep, p);
      if exists k :: 0 <= k < n && es[..n][k].path == p && keep(es[..n][k]) {
        var k :| 0 <= k < n && es[..n][k].path == p && keep(es[..n][k]);
        assert es[k] == es[..n][k];
      }
      if exists k :: 0 <= k < |es| && es[k].path == p && keep(es[k]) {
        var k :| 0 <= k < |es| && es[k].path == p && keep(es[k]);
        if k < n {
          assert es[..n][k] == es[k];
        }
      }
    }
  }

  /** The walk yields every path once. */
  predicate DistinctPaths(es: seq<Entry>)
  {
    forall i, j :: 0 <= i < j < |es| ==> es[i].path != es[j].path
  }

  /** A walk that yields every path once gives a list without repetitions. */
  lemma {:induction false} PathsWhereDistinct(es: seq<Entry>, keep: Entry -> bool)
    requires DistinctPaths(es)
    ensures Distinct(PathsWhere(es, keep))
  {
    if es != [] {
      var n := |es| - 1;
      assert DistinctPaths(es[..n]);
      PathsWhereDistinct(es[..n], keep);
      if keep(es[n]) {
        PathsWhereMembers(es[..n], keep, es[n].path);
        assert forall k :: 0 <= k < n ==> es[..n][k] == es[k];
      }
    }
  }

  /** The image list is what the loop needs: distinct image paths, all present on the disk. */
  lemma ImagesMakeBatch(files: map<Path, Bytes>, entries: seq<Entry>)
    requires DistinctPaths(entries)
    requires forall k :: 0 <= k < |entries| && IsImageCandidate(entries[k]) ==> entries[k].path in files
    ensures ValidBatch(files, PathsWhere(entries, IsImageCandidate))
  {
    var images := PathsWhere(entries, IsImageCandidate);
    PathsWhereDistinct(entries, IsImageCandidate);
    forall i | 0 <= i < |images| ensures images[i] in files && IsImagePath(images[i]) {
      PathsWhereMembers(entries, IsImageCandidate, images[i]);
    }
  }

  /** `find_images`: the walk's regular files with an image suffix outside the service directories. */
  method FindImages(entries: seq<Entry>) returns (images: seq<Path>)
    ensures images == PathsWhere(entries, IsImageCandidate)
  {
    images := [];
    var i := 0;
    while i < |entries|
      invariant 0 <= i <= |entries|
      invariant images == PathsWhere(entries[..i], IsImageCandidate)
    {
      PrefixOfPrefix(entries, i);
      if IsImageCandidate(entries[i]) {
        images := images + [entries[i].path];
      }
      i := i + 1;
    }
    assert entries[..|entries|] == entries;
  }

  /** `find_html_files`: the walk's `*.html` names outside the service directories. */
  method FindHtmlFiles(entries: seq<Entry>) returns (htmls: seq<Path>)
    ensures htmls == PathsWhere(entries, IsHtmlCandidate)
  {
    htmls := [];
    var i := 0;
    while i < |entries|
      invariant 0 <= i <= |entries|
      invariant htmls == PathsWhere(entries[..i], IsHtmlCandidate)
    {
      PrefixOfPrefix(entries, i);
      if IsHtmlCandidate(entries[i]) {
        htmls := htmls + [entries[i].path];
      }
      i := i + 1;
    }
    assert entries[..|entries|] == entries;
  }

  /** `backup(src)`: copy the image to its backup path unless that path is taken. */
  method Backup(fs: Disk, src: Path)
    requires src in fs.files
    modifies fs
    ensures fs.files == BackedUp(old(fs.files), src)
    ensures fs.pages == old(fs.pages) && fs.deletions == old(fs.deletions) && fs.pageWrites == old(fs.pageWrites)
  {
    var dst := BackupPath(src);
    var taken := fs.Exists(dst);
    if !taken {
      fs.Copy(src, dst);
    }
  }

  /** `convert_to_webp(src)`: encode the image into `Dest(src)`; `None` stands for the exception. */
  method ConvertToWebp(fs: Disk, src: Path, codec: Codec) returns (dst: Option<Path>)
    requires src in fs.files && IsImagePath(src)
    modifies fs
    ensures codec(old(fs.files)[src]).None? ==> dst == None && fs.files == old(fs.files)
    ensures codec(old(fs.files)[src]).Some? ==>
      dst == Some(Dest(src)) && fs.files == old(fs.files)[Dest(src) := codec(old(fs.files)[src]).value]
    ensures fs.pages == old(fs.pages) && fs.deletions == old(fs.deletions) && fs.pageWrites == old(fs.pageWrites)
  {
    var target := Dest(src);
    var data := fs.Read(src);
    match codec(data)
    case None =>
      dst := None;
    case Some(webp) =>
      fs.Save(target, webp);
      dst := Some(target);
  }

  /** One iteration of the loop of `main`, proved to perform `Step`. */
  method ProcessImage(fs: Disk, src: Path, codec: Codec, renamed: map<string, string>, totalBefore: nat, totalAfter: nat,
                      ghost r: Run, ghost log0: seq<Deletion>)
    returns (renamed': map<string, string>, totalBefore': nat, totalAfter': nat)
    requires src in fs.files && IsImagePath(src)
    requires fs.files == r.files && renamed == r.renamed && totalBefore == r.totalBefore && totalAfter == r.totalAfter
    requires fs.deletions == log0 + r.deletions
    modifies fs
    ensures var r' := Step(r, src, codec);
      fs.files == r'.files && renamed' == r'.renamed && totalBefore' == r'.totalBefore &&
      totalAfter' == r'.totalAfter && fs.deletions == log0 + r'.deletions
    ensures fs.pages == old(fs.pages) && fs.pageWrites == old(fs.pageWrites)
  {
    renamed', totalBefore', totalAfter' := renamed, totalBefore, totalAfter;
    assert BackupPath(src) != src;
    var sizeBefore := fs.Size(src);
    Backup(fs, src);
    var dst := ConvertToWebp(fs, src, codec);
    if dst.Some? {
      var sizeAfter := fs.Size(dst.value);
      totalBefore' := totalBefore + sizeBefore;
      totalAfter' := totalAfter + sizeAfter;
      ghost var saved := fs.files;
      fs.Unlink(src);
      renamed' := renamed[RelKey(src) := RelKey(dst.value)];
      assert fs.deletions == log0 + (r.deletions + [Deletion(src, saved)]);
    }
  }

  /** The loop of `main` over the images, proved to compute `AfterAll`. */
  method ProcessImages(fs: Disk, images: seq<Path>, codec: Codec)
    returns (renamed: map<string, string>, totalBefore: nat, totalAfter: nat)
    requires ValidBatch(fs.files, images)
    modifies fs
    ensures var r := AfterAll(old(fs.files), images, codec);
      fs.files == r.files && renamed == r.renamed && totalBefore == r.totalBefore &&
      totalAfter == r.totalAfter && fs.deletions == old(fs.deletions) + r.deletions
    ensures fs.pages == old(fs.pages) && fs.pageWrites == old(fs.pageWrites)
  {
    ghost var files0 := fs.files;
    ghost var log0 := fs.deletions;
    renamed, totalBefore, totalAfter := map[], 0, 0;
    var i := 0;
    while i < |images|
      invariant 0 <= i <= |images|
      invariant ValidBatch(files0, images[..i])
      invariant var r := AfterAll(files0, images[..i], codec);
        fs.files == r.files && renamed == r.renamed && totalBefore == r.totalBefore &&
        totalAfter == r.totalAfter && fs.deletions == log0 + r.deletions
      invariant fs.pages == old(fs.pages) && fs.pageWrites == old(fs.pageWrites)
    {
      ghost var prev := AfterAll(files0, images[..i], codec);
      AfterAllExtend(files0, images, i, codec);
      renamed, totalBefore, totalAfter := ProcessImage(fs, images[i], codec, renamed, totalBefore, totalAfter, prev, log0);
      i := i + 1;
    }
    assert images[..|images|] == images;
  }

  /** The pages after `hs` are rewritten in order; a page twice in `hs` is rewritten twice. */
  function PatchedPages(pages: map<Path, string>, hs: seq<Path>): (r: map<Path, string>)
    requires forall k :: 0 <= k < |hs| ==> hs[k] in pages
    ensures r.Keys == pages.Keys
  {
    if hs == [] then pages
    else
      var n := |hs| - 1;
      var prev := PatchedPages(pages, hs[..n]);
      prev[hs[n] := Rewrite(prev[hs[n]])]
  }

  /** The pages written back, in order: those whose rewrite differs from their text. */
  function Written(pages: map<Path, string>, hs: seq<Path>): seq<Path>
    requires forall k :: 0 <= k < |hs| ==> hs[k] in pages
  {
    if hs == [] then []
    else
      var n := |hs| - 1;
      var prev := PatchedPages(pages, hs[..n]);
      Written(pages, hs[..n]) + if Rewrite(prev[hs[n]]) != prev[hs[n]] then [hs[n]] else []
  }

  /**
   * For distinct HTML files, each is rewritten once and the others are left
   * alone; a file is written back exactly when its text holds a match.
   */
  lemma {:induction false} PatchedPagesOnce(pages: map<Path, string>, hs: seq<Path>, h: Path)
    requires Distinct(hs) && forall k :: 0 <= k < |hs| ==> hs[k] in pages
    requires h in pages
    ensures PatchedPages(pages, hs)[h] == if h in hs then Rewrite(pages[h]) else pages[h]
    ensures h in Written(pages, hs) <==> h in hs && HasMatch(pages[h])
  {
    if hs != [] {
      var n := |hs| - 1;
      assert Distinct(hs[..n]);
      PatchedPagesOnce(pages, hs[..n], h);
      SnocMembers(hs);
      if h == hs[n] {
        assert h !in hs[..n];
        RewriteUnchangedIff(pages[h]);
      }
    }
  }

  predicate AllIn(hs: seq<Path>, pages: map<Path, string>)
  {
    forall k :: 0 <= k < |hs| ==> hs[k] in pages
  }

  /** Extending the patched prefix of `hs` by one file rewrites that file once more. */
  lemma PatchStep(pages: map<Path, string>, hs: seq<Path>, i: nat)
    requires forall k :: 0 <= k < |hs| ==> hs[k] in pages
    requires i < |hs|
    ensures AllIn(hs[..i], pages) && AllIn(hs[..i + 1], pages)
    ensures var prev := PatchedPages(pages, hs[..i]);
      PatchedPages(pages, hs[..i + 1]) == prev[hs[i] := Rewrite(prev[hs[i]])] &&
      Written(pages, hs[..i + 1]) == Written(pages, hs[..i]) + if Rewrite(prev[hs[i]]) != prev[hs[i]] then [hs[i]] else []
  {
    PrefixOfPrefix(hs, i);
  }

  /** `patch_html_files`: rewrite every HTML file and write back those that changed; `renamed` is not consulted. */
  method PatchHtmlFiles(fs: Disk, htmls: seq<Path>, renamed: map<string, string>) returns (written: seq<Path>)
    requires forall k :: 0 <= k < |htmls| ==> htmls[k] in fs.pages
    modifies fs
    ensures fs.pages == PatchedPages(old(fs.pages), htmls) && written == Written(old(fs.pages), htmls)
    ensures fs.pageWrites == old(fs.pageWrites) + written
    ensures fs.files == old(fs.files) && fs.deletions == old(fs.deletions)
  {
    ghost var pages0 := fs.pages;
    ghost var writes0 := fs.pageWrites;
    written := [];
    var i := 0;
    while i < |htmls|
      invariant 0 <= i <= |htmls|
      invariant AllIn(htmls[..i], pages0)
      invariant fs.pages == PatchedPages(pages0, htmls[..i]) && written == Written(pages0, htmls[..i])
      invariant fs.pageWrites == writes0 + written
      invariant fs.files == old(fs.files) && fs.deletions == old(fs.deletions)
    {
      written := PatchOne(fs, htmls, i, written, pages0, writes0);
      i := i + 1;
    }
    assert htmls[..|htmls|] == htmls;
  }

  /** One iteration of `patch_html_files`: the next file is rewritten, and written back if it changed. */
  method PatchOne(fs: Disk, htmls: seq<Path>, i: nat, written: seq<Path>,
                  ghost pages0: map<Path, string>, ghost writes0: seq<Path>)
    returns (written': seq<Path>)
    requires forall k :: 0 <= k < |htmls| ==> htmls[k] in pages0
    requires i < |htmls| && AllIn(htmls[..i], pages0)
    requires fs.pages == PatchedPages(pages0, htmls[..i]) && written == Written(pages0, htmls[..i])
    requires fs.pageWrites == writes0 + written
    modifies fs
    ensures AllIn(htmls[..i + 1], pages0)
    ensures fs.pages == PatchedPages(pages0, htmls[..i + 1]) && written' == Written(pages0, htmls[..i + 1])
    ensures fs.pageWrites == writes0 + written'
    ensures fs.files == old(fs.files) && fs.deletions == old(fs.deletions)
  {
    PatchStep(pages0, htmls, i);
    written' := written;
    var text := fs.ReadText(htmls[i]);
    var newText := Rewrite(text);
    if newText != text {
      fs.WriteText(htmls[i], newText);
      written' := written + [htmls[i]];
    } else {
      UpdateSame(fs.pages, htmls[i]);
    }
  }

  lemma UpdateSame(m: map<Path, string>, k: Path)
    requires k in m
    ensures m[k := m[k]] == m
  {
  }

  /** What `main` reports: nothing to do, or the totals, the renames and the HTML files updated. */
  datatype Report =
    | NothingToDo
    | Done(totalBefore: nat, totalAfter: nat, renamed: map<string, string>, patched: seq<Path>)

  /**
   * `main`: find the images and stop if there are none; process them; then patch
   * the HTML files when there are some and at least one image was converted.
   */
  method Optimize(fs: Disk, entries: seq<Entry>, codec: Codec) returns (report: Report)
    requires DistinctPaths(entries)
    requires forall k :: 0 <= k < |entries| && IsImageCandidate(entries[k]) ==> entries[k].path in fs.files
    requires forall k :: 0 <= k < |entries| && IsHtmlCandidate(entries[k]) ==> entries[k].path in fs.pages
    modifies fs
    ensures PathsWhere(entries, IsImageCandidate) == [] ==>
      report == NothingToDo && fs.files == old(fs.files) && fs.pages == old(fs.pages) &&
      fs.deletions == old(fs.deletions) && fs.pageWrites == old(fs.pageWrites)
    ensures var images := PathsWhere(entries, IsImageCandidate);
      images != [] ==>
        ValidBatch(old(fs.files), images) &&
        var r := AfterAll(old(fs.files), images, codec);
        report.Done? && fs.files == r.files && fs.deletions == old(fs.deletions) + r.deletions &&
        report.totalBefore == r.totalBefore && report.totalAfter == r.totalAfter && report.renamed == r.renamed
    ensures var htmls := PathsWhere(entries, IsHtmlCandidate);
      report.Done? ==>
        (forall k :: 0 <= k < |htmls| ==> htmls[k] in old(fs.pages)) &&
        var patch := htmls != [] && report.renamed != map[];
        fs.pages == (if patch then PatchedPages(old(fs.pages), htmls) else old(fs.pages)) &&
        report.patched == (if patch then Written(old(fs.pages), htmls) else []) &&
        fs.pageWrites == old(fs.pageWrites) + report.patched
  {
    var images := FindImages(entries);
    if images == [] {
      return NothingToDo;
    }
    ImagesMakeBatch(fs.files, entries);
    var renamed, totalBefore, totalAfter := ProcessImages(fs, images, codec);
    var htmls := FindHtmlFiles(entries);
    forall k | 0 <= k < |htmls| ensures htmls[k] in fs.pages {
      PathsWhereMembers(entries, IsHtmlCandidate, htmls[k]);
    }
    var patched: seq<Path> := [];
    if htmls != [] && renamed != map[] {
      patched := PatchHtmlFiles(fs, htmls, renamed);
    }
    report := Done(totalBefore, totalAfter, renamed, patched);
  }
}
