/**
 * The per-image loop of `main` as a function of the tree it starts from: for
 * each image in turn, take its size, back it up, convert it, and on success
 * delete the original and record the rename and the two sizes.
 */
module Batch {
  import opened Wrappers
  import opened Paths
  import opened FileSystem

  /** The encoder: the WebP bytes for an image's bytes, or a failure. */
  type Codec = Bytes -> Option<Bytes>

  /** The loop's state: the tree, `renamed`, `total_before`, `total_after` and the deletions so far. */
  datatype Run = Run(files: map<Path, Bytes>, renamed: map<string, string>, totalBefore: nat, totalAfter: nat, deletions: seq<Deletion>)

  /** `backup(src)`: the backup path gets the bytes of `src` unless something is already there. */
  function BackedUp(files: map<Path, Bytes>, src: Path): (r: map<Path, Bytes>)
    requires src in files
    ensures BackupPath(src) in r && r.Keys == files.Keys + {BackupPath(src)}
    ensures BackupPath(src) in files ==> r[BackupPath(src)] == files[BackupPath(src)]
    ensures BackupPath(src) !in files ==> r[BackupPath(src)] == files[src]
    ensures forall p :: p in files && p != BackupPath(src) ==> r[p] == files[p]
  {
    if BackupPath(src) in files then files else files[BackupPath(src) := files[src]]
  }

  /** A second backup changes nothing. */
  lemma BackupIdempotent(files: map<Path, Bytes>, src: Path)
    requires src in files
    ensures BackedUp(BackedUp(files, src), src) == BackedUp(files, src)
  {
  }

  /** Once a backup exists it is kept, whatever the source holds by then. */
  lemma BackupKeepsFirst(files: map<Path, Bytes>, src: Path, data: Bytes)
    requires src in files
    ensures var once := BackedUp(files, src);
      BackedUp(once[src := data], src)[BackupPath(src)] == once[BackupPath(src)]
  {
    assert BackupPath(src) != src by {
      assert |BackupPath(src)| == |src| + 1;
    }
  }

  /** One iteration of the loop for `src`. */
  function Step(r: Run, src: Path, codec: Codec): Run
    requires src in r.files && IsImagePath(src)
  {
    var size := |r.files[src]|;
    var backed := BackedUp(r.files, src);
    match codec(backed[src])
    case None => r.(files := backed)
    case Some(webp) =>
      var saved := backed[Dest(src) := webp];
      Run(saved - {src}, r.renamed[RelKey(src) := RelKey(Dest(src))],
          r.totalBefore + size, r.totalAfter + |webp|, r.deletions + [Deletion(src, saved)])
  }

  /** A failed conversion leaves only the backup behind: no rename, no deletion, no size counted. */
  lemma FailureLeavesNoTrace(r: Run, src: Path, codec: Codec)
    requires src in r.files && IsImagePath(src) && codec(r.files[src]).None?
    ensures var r' := Step(r, src, codec);
      r'.renamed == r.renamed && r'.totalBefore == r.totalBefore && r'.totalAfter == r.totalAfter &&
      r'.deletions == r.deletions && r'.files == BackedUp(r.files, src) && src in r'.files
  {
    assert BackupPath(src) != src;
  }

  /** A successful conversion records exactly one rename, one deletion and the two sizes of this file. */
  lemma SuccessRecordsOnce(r: Run, src: Path, codec: Codec)
    requires src in r.files && IsImagePath(src) && codec(r.files[src]).Some?
    ensures var r' := Step(r, src, codec);
      r'.renamed == r.renamed[RelKey(src) := RelKey(Dest(src))] &&
      r'.totalBefore == r.totalBefore + |r.files[src]| &&
      r'.totalAfter == r.totalAfter + |codec(r.files[src]).value| &&
      r'.deletions == r.deletions + [Deletion(src, BackedUp(r.files, src)[Dest(src) := codec(r.files[src]).value])]
  {
    assert BackedUp(r.files, src)[src] == r.files[src] by {
      assert BackupPath(src) != src;
    }
  }

  /** On success the original is gone, its WebP file is in place and so is its backup. */
  lemma SuccessReplacesFile(r: Run, src: Path, codec: Codec)
    requires src in r.files && IsImagePath(src) && codec(r.files[src]).Some?
    ensures var f := Step(r, src, codec).files;
      src !in f && Dest(src) in f && f[Dest(src)] == codec(r.files[src]).value && BackupPath(src) in f
  {
    BackupDiffers(src);
    DestDiffers(src);
    assert BackedUp(r.files, src)[src] == r.files[src];
  }

  /** Nothing but the source, its backup and its destination is affected by a step. */
  lemma StepFrame(r: Run, src: Path, codec: Codec)
    requires src in r.files && IsImagePath(src)
    ensures var f := Step(r, src, codec).files;
      forall p :: p != src && p != BackupPath(src) && p != Dest(src) ==>
        (p in f <==> p in r.files) && (p in r.files ==> f[p] == r.files[p])
  {
  }

  predicate Distinct<T(==)>(s: seq<T>)
  {
    forall i, j :: 0 <= i < j < |s| ==> s[i] != s[j]
  }

  /** What `find_images` hands the loop: distinct image paths, all present. */
  predicate ValidBatch(files: map<Path, Bytes>, images: seq<Path>)
  {
    Distinct(images) && forall k :: 0 <= k < |images| ==> images[k] in files && IsImagePath(images[k])
  }

  lemma ValidBatchPrefix(files: map<Path, Bytes>, images: seq<Path>, n: nat)
    requires ValidBatch(files, images) && n <= |images|
    ensures ValidBatch(files, images[..n])
  {
    assert forall k :: 0 <= k < n ==> images[..n][k] == images[k];
  }

  /** `p` is one of the paths the processing of some image in `images` writes or deletes. */
  predicate Touched(images: seq<Path>, p: Path)
    requires forall k :: 0 <= k < |images| ==> IsImagePath(images[k])
  {
    exists k :: 0 <= k < |images| && (p == images[k] || p == BackupPath(images[k]) || p == Dest(images[k]))
  }

  /** An image path that is not in the list is touched by none of its images. */
  lemma ImageUntouched(images: seq<Path>, p: Path)
    requires forall k :: 0 <= k < |images| ==> IsImagePath(images[k])
    requires IsImagePath(p) && p !in images
    ensures !Touched(images, p)
  {
    forall k | 0 <= k < |images| ensures p != Dest(images[k]) {
      DestNotImage(images[k]);
    }
  }

  lemma TouchedPrefix(images: seq<Path>, n: nat, p: Path)
    requires forall k :: 0 <= k < |images| ==> IsImagePath(images[k])
    requires n <= |images| && Touched(images[..n], p)
    ensures Touched(images, p)
  {
    var k :| 0 <= k < n && (p == images[..n][k] || p == BackupPath(images[..n][k]) || p == Dest(images[..n][k]));
    assert images[..n][k] == images[k];
  }

  /** The state after the loop has processed `images` in order, starting from `files`. */
  function AfterAll(files: map<Path, Bytes>, images: seq<Path>, codec: Codec): (r: Run)
    requires ValidBatch(files, images)
    ensures forall p :: p in files && IsImagePath(p) && p !in images ==> p in r.files && r.files[p] == files[p]
    decreases |images|
  {
    if images == [] then Run(files, map[], 0, 0, [])
    else
      var n := |images| - 1;
      ValidBatchPrefix(files, images, n);
      var prev := AfterAll(files, images[..n], codec);
      var src := images[n];
      assert src !in images[..n];
      SplitLast(images);
      FrameStep(files, images[..n], prev, src, codec);
      Step(prev, src, codec)
  }

  /** One step keeps every image that is neither done nor its source, with its bytes. */
  lemma FrameStep(files: map<Path, Bytes>, done: seq<Path>, prev: Run, src: Path, codec: Codec)
    requires forall p :: p in files && IsImagePath(p) && p !in done ==> p in prev.files && prev.files[p] == files[p]
    requires src in prev.files && IsImagePath(src)
    ensures var f := Step(prev, src, codec).files;
      forall p :: p in files && IsImagePath(p) && p !in done + [src] ==> p in f && f[p] == files[p]
  {
    DestNotImage(src);
    StepFrame(prev, src, codec);
  }

  /** Only the images of the list, their backups and their destinations are affected by the loop. */
  lemma {:induction false} AfterAllFrame(files: map<Path, Bytes>, images: seq<Path>, codec: Codec)
    requires ValidBatch(files, images)
    ensures var r := AfterAll(files, images, codec);
      forall p :: !Touched(images, p) ==> (p in r.files <==> p in files) && (p in files ==> r.files[p] == files[p])
  {
    if images != [] {
      var n := |images| - 1;
      AfterAllUnfold(files, images, codec);
      AfterAllFrame(files, images[..n], codec);
      StepFrame(AfterAll(files, images[..n], codec), images[n], codec);
      AfterAllFrameStep(images, n);
    }
  }

  lemma AfterAllFrameStep(images: seq<Path>, n: nat)
    requires forall k :: 0 <= k < |images| ==> IsImagePath(images[k])
    requires n == |images| - 1
    ensures forall p :: !Touched(images, p) ==>
      !Touched(images[..n], p) && p != images[n] && p != BackupPath(images[n]) && p != Dest(images[n])
  {
    forall p | Touched(images[..n], p) ensures Touched(images, p) {
      TouchedPrefix(images, n, p);
    }
  }

  /** The loop's state after `images` is the last step applied to the state after all but the last. */
  lemma AfterAllUnfold(files: map<Path, Bytes>, images: seq<Path>, codec: Codec)
    requires ValidBatch(files, images) && images != []
    ensures var n := |images| - 1;
      ValidBatch(files, images[..n]) &&
      var prev := AfterAll(files, images[..n], codec);
      images[n] in prev.files && prev.files[images[n]] == files[images[n]] &&
      AfterAll(files, images, codec) == Step(prev, images[n], codec)
  {
    var n := |images| - 1;
    ValidBatchPrefix(files, images, n);
    assert images[n] !in images[..n];
  }

  /** Extending the processed prefix of `images` by one image is one more step. */
  lemma AfterAllExtend(files: map<Path, Bytes>, images: seq<Path>, i: nat, codec: Codec)
    requires ValidBatch(files, images) && i < |images|
    ensures ValidBatch(files, images[..i]) && ValidBatch(files, images[..i + 1])
    ensures var prev := AfterAll(files, images[..i], codec);
      images[i] in prev.files && prev.files[images[i]] == files[images[i]] &&
      AfterAll(files, images[..i + 1], codec) == Step(prev, images[i], codec)
  {
    PrefixOfPrefix(images, i);
    ValidBatchPrefix(files, images, i + 1);
    ValidBatchPrefix(files, images, i);
    AfterAllUnfold(files, images[..i + 1], codec);
  }

  /** The images whose conversion succeeds, in their order. */
  function Successes(files: map<Path, Bytes>, images: seq<Path>, codec: Codec): (s: seq<Path>)
    requires forall k :: 0 <= k < |images| ==> images[k] in files
    ensures |s| <= |images|
    ensures forall k :: 0 <= k < |s| ==> s[k] in images && codec(files[s[k]]).Some?
  {
    if images == [] then []
    else
      var n := |images| - 1;
      assert forall k :: 0 <= k < n ==> images[..n][k] == images[k];
      var prev := Successes(files, images[..n], codec);
      if codec(files[images[n]]).Some? then prev + [images[n]] else prev
  }

  /** An image is among the successes exactly when it is listed and its conversion succeeds. */
  lemma {:induction false} SuccessesMembers(files: map<Path, Bytes>, images: seq<Path>, codec: Codec, p: Path)
    requires forall k :: 0 <= k < |images| ==> images[k] in files
    ensures p in Successes(files, images, codec) <==> p in images && codec(files[p]).Some?
  {
    if images != [] {
      var n := |images| - 1;
      assert forall k :: 0 <= k < n ==> images[..n][k] == images[k];
      SuccessesMembers(files, images[..n], codec, p);
      SnocMembers(images);
    }
  }

  /** Each image of a valid batch is among the successes at most once. */
  lemma {:induction false} SuccessesDistinct(files: map<Path, Bytes>, images: seq<Path>, codec: Codec)
    requires ValidBatch(files, images)
    ensures Distinct(Successes(files, images, codec))
  {
    if images != [] {
      var n := |images| - 1;
      ValidBatchPrefix(files, images, n);
      SuccessesDistinct(files, images[..n], codec);
      var prev := Successes(files, images[..n], codec);
      var src := images[n];
      assert src !in images[..n] by {
        forall k | 0 <= k < n
          ensures images[..n][k] != src
        {
          assert images[..n][k] == images[k];
        }
      }
      SuccessesMembers(files, images[..n], codec, src);
      SuccessesUnfold(files, images, codec);
      if codec(files[src]).Some? {
        SnocDistinct(prev, src);
      }
    }
  }

  /** The successes of a list are those of all but its last image, then the last one if it converts. */
  lemma SuccessesUnfold(files: map<Path, Bytes>, images: seq<Path>, codec: Codec)
    requires images != [] && forall k :: 0 <= k < |images| ==> images[k] in files
    ensures var n := |images| - 1;
      forall k :: 0 <= k < n ==> images[..n][k] in files
    ensures var n := |images| - 1;
      var prev := Successes(files, images[..n], codec);
      Successes(files, images, codec) == if codec(files[images[n]]).Some? then prev + [images[n]] else prev
  {
    var n := |images| - 1;
    assert forall k :: 0 <= k < n ==> images[..n][k] == images[k];
  }

  /** Appending an element not yet present keeps a sequence free of repeats. */
  lemma SnocDistinct<T>(s: seq<T>, x: T)
    requires Distinct(s) && x !in s
    ensures Distinct(s + [x])
  {
    forall i, j | 0 <= i < j < |s| + 1
      ensures (s + [x])[i] != (s + [x])[j]
    {
      if j == |s| {
        assert (s + [x])[i] == s[i];
      }
    }
  }

  /** Sum of the sizes of the files `ps`. */
  function SumSizes(files: map<Path, Bytes>, ps: seq<Path>): nat
    requires forall k :: 0 <= k < |ps| ==> ps[k] in files
  {
    if ps == [] then 0
    else
      var n := |ps| - 1;
      assert forall k :: 0 <= k < n ==> ps[..n][k] == ps[k];
      SumSizes(files, ps[..n]) + |files[ps[n]]|
  }

  /** Sum of the sizes of the WebP encodings of the files `ps`. */
  function SumConverted(files: map<Path, Bytes>, ps: seq<Path>, codec: Codec): nat
    requires forall k :: 0 <= k < |ps| ==> ps[k] in files && codec(files[ps[k]]).Some?
  {
    if ps == [] then 0
    else
      var n := |ps| - 1;
      assert forall k :: 0 <= k < n ==> ps[..n][k] == ps[k];
      SumConverted(files, ps[..n], codec) + |codec(files[ps[n]]).value|
  }

  /** The rename map built from `ps` in order: a later entry under the same key wins. */
  function Renames(ps: seq<Path>): map<string, string>
    requires forall k :: 0 <= k < |ps| ==> IsImagePath(ps[k])
  {
    if ps == [] then map[]
    else
      var n := |ps| - 1;
      assert forall k :: 0 <= k < n ==> ps[..n][k] == ps[k];
      Renames(ps[..n])[RelKey(ps[n]) := RelKey(Dest(ps[n]))]
  }

  /** Every image of `ps` has its key in the rename map. */
  lemma {:induction false} RenamesKeys(ps: seq<Path>)
    requires forall k :: 0 <= k < |ps| ==> IsImagePath(ps[k])
    ensures forall p :: p in ps ==> RelKey(p) in Renames(ps)
  {
    if ps != [] {
      var n := |ps| - 1;
      var prev := ps[..n];
      assert forall k :: 0 <= k < n ==> prev[k] == ps[k];
      RenamesKeys(prev);
      SplitLast(ps);
      KeysStep(prev, ps[n], Renames(prev), RelKey(Dest(ps[n])));
    }
  }

  /** Adding the last image's key keeps the earlier keys. */
  lemma KeysStep(prev: seq<Path>, last: Path, m: map<string, string>, v: string)
    requires forall p :: p in prev ==> RelKey(p) in m
    ensures forall p :: p in prev + [last] ==> RelKey(p) in m[RelKey(last) := v]
  {
    forall p | p in prev + [last] ensures RelKey(p) in m[RelKey(last) := v] {
      if p != last {
        assert p in prev;
      }
    }
  }

  lemma PrefixOfPrefix<T>(s: seq<T>, i: nat)
    requires i < |s|
    ensures s[..i + 1][..i] == s[..i] && s[..i + 1][i] == s[i]
  {
  }

  lemma SplitLast<T>(s: seq<T>)
    requires s != []
    ensures s[..|s| - 1] + [s[|s| - 1]] == s
  {
  }

  lemma SnocMembers<T>(s: seq<T>)
    requires s != []
    ensures forall x :: x in s ==> x in s[..|s| - 1] || x == s[|s| - 1]
  {
    assert s == s[..|s| - 1] + [s[|s| - 1]];
  }

  /** Every key of the rename map is the key of an image of `ps` and maps to that image's WebP key. */
  lemma {:induction false} RenamesValues(ps: seq<Path>, key: string)
    requires forall k :: 0 <= k < |ps| ==> IsImagePath(ps[k])
    requires key in Renames(ps)
    ensures exists k :: 0 <= k < |ps| && RelKey(ps[k]) == key && Renames(ps)[key] == RelKey(Dest(ps[k]))
  {
    var n := |ps| - 1;
    if key != RelKey(ps[n]) {
      assert forall k :: 0 <= k < n ==> ps[..n][k] == ps[k];
      RenamesValues(ps[..n], key);
      var k :| 0 <= k < n && RelKey(ps[..n][k]) == key && Renames(ps[..n])[key] == RelKey(Dest(ps[..n][k]));
      assert ps[..n][k] == ps[k];
    } else {
      assert Renames(ps)[key] == RelKey(Dest(ps[n]));
    }
  }

  lemma SumSizesSnoc(files: map<Path, Bytes>, ps: seq<Path>, p: Path)
    requires forall k :: 0 <= k < |ps| ==> ps[k] in files
    requires p in files
    ensures SumSizes(files, ps + [p]) == SumSizes(files, ps) + |files[p]|
  {
    assert (ps + [p])[..|ps|] == ps;
  }

  lemma SumConvertedSnoc(files: map<Path, Bytes>, ps: seq<Path>, p: Path, codec: Codec)
    requires forall k :: 0 <= k < |ps| ==> ps[k] in files && codec(files[ps[k]]).Some?
    requires p in files && codec(files[p]).Some?
    ensures SumConverted(files, ps + [p], codec) == SumConverted(files, ps, codec) + |codec(files[p]).value|
  {
    assert (ps + [p])[..|ps|] == ps;
  }

  function DeletedPaths(ds: seq<Deletion>): (ps: seq<Path>)
    ensures |ps| == |ds| && forall k :: 0 <= k < |ds| ==> ps[k] == ds[k].path
  {
    seq(|ds|, k requires 0 <= k < |ds| => ds[k].path)
  }

  lemma DeletedPathsSnoc(ds: seq<Deletion>, d: Deletion)
    ensures DeletedPaths(ds + [d]) == DeletedPaths(ds) + [d.path]
  {
  }

  /** `renamed` holds one entry per successful image, from its key to its WebP key. */
  lemma {:induction false} RenamedOfSuccesses(files: map<Path, Bytes>, images: seq<Path>, codec: Codec)
    requires ValidBatch(files, images)
    ensures AfterAll(files, images, codec).renamed == Renames(Successes(files, images, codec))
  {
    if images != [] {
      var n := |images| - 1;
      AfterAllUnfold(files, images, codec);
      RenamedOfSuccesses(files, images[..n], codec);
      var prev := AfterAll(files, images[..n], codec);
      var s := Successes(files, images[..n], codec);
      var src := images[n];
      if codec(files[src]).Some? {
        SuccessRecordsOnce(prev, src, codec);
        assert (s + [src])[..|s|] == s;
      } else {
        FailureLeavesNoTrace(prev, src, codec);
      }
    }
  }

  /** `total_before` adds up the sizes of exactly the successful images. */
  lemma {:induction false} TotalBeforeOfSuccesses(files: map<Path, Bytes>, images: seq<Path>, codec: Codec)
    requires ValidBatch(files, images)
    ensures AfterAll(files, images, codec).totalBefore == SumSizes(files, Successes(files, images, codec))
  {
    if images != [] {
      var n := |images| - 1;
      AfterAllUnfold(files, images, codec);
      TotalBeforeOfSuccesses(files, images[..n], codec);
      var prev := AfterAll(files, images[..n], codec);
      var s := Successes(files, images[..n], codec);
      var src := images[n];
      if codec(files[src]).Some? {
        SuccessRecordsOnce(prev, src, codec);
        SumSizesSnoc(files, s, src);
      } else {
        FailureLeavesNoTrace(prev, src, codec);
      }
    }
  }

  /** `total_after` adds up the sizes of the WebP files of exactly the successful images. */
  lemma {:induction false} TotalAfterOfSuccesses(files: map<Path, Bytes>, images: seq<Path>, codec: Codec)
    requires ValidBatch(files, images)
    ensures AfterAll(files, images, codec).totalAfter == SumConverted(files, Successes(files, images, codec), codec)
  {
    if images != [] {
      var n := |images| - 1;
      AfterAllUnfold(files, images, codec);
      TotalAfterOfSuccesses(files, images[..n], codec);
      var prev := AfterAll(files, images[..n], codec);
      var s := Successes(files, images[..n], codec);
      var src := images[n];
      if codec(files[src]).Some? {
        SuccessRecordsOnce(prev, src, codec);
        SumConvertedSnoc(files, s, src, codec);
      } else {
        FailureLeavesNoTrace(prev, src, codec);
      }
    }
  }

  /** The originals deleted are exactly the successful images, in order, each once. */
  lemma {:induction false} DeletionsOfSuccesses(files: map<Path, Bytes>, images: seq<Path>, codec: Codec)
    requires ValidBatch(files, images)
    ensures DeletedPaths(AfterAll(files, images, codec).deletions) == Successes(files, images, codec)
    ensures Distinct(DeletedPaths(AfterAll(files, images, codec).deletions))
  {
    SuccessesDistinct(files, images, codec);
    if images != [] {
      var n := |images| - 1;
      AfterAllUnfold(files, images, codec);
      DeletionsOfSuccesses(files, images[..n], codec);
      var prev := AfterAll(files, images[..n], codec);
      var src := images[n];
      if codec(files[src]).Some? {
        SuccessRecordsOnce(prev, src, codec);
        var last := Deletion(src, BackedUp(prev.files, src)[Dest(src) := codec(files[src]).value]);
        DeletedPathsSnoc(prev.deletions, last);
      } else {
        FailureLeavesNoTrace(prev, src, codec);
      }
    }
  }

  /** The backup path of an image outside the list is touched by none of its images. */
  lemma BackupUntouched(images: seq<Path>, src: Path)
    requires forall k :: 0 <= k < |images| ==> IsImagePath(images[k])
    requires IsImagePath(src) && src !in images
    ensures !Touched(images, BackupPath(src))
  {
    forall k | 0 <= k < |images|
      ensures BackupPath(src) != images[k] && BackupPath(src) != BackupPath(images[k]) && BackupPath(src) != Dest(images[k])
    {
      BackupNotTouchedBy(src, images[k]);
    }
  }

  /** The backup of `src` is neither another image, nor its backup, nor its destination. */
  lemma BackupNotTouchedBy(src: Path, q: Path)
    requires IsImagePath(q) && src != q
    ensures BackupPath(src) != q && BackupPath(src) != BackupPath(q) && BackupPath(src) != Dest(q)
  {
    DestNotImage(q);
    if BackupPath(src) == BackupPath(q) {
      BackupInjective(src, q);
    }
  }

  /** A step removes no file but its source. */
  lemma StepOnlyRemovesSource(r: Run, src: Path, codec: Codec)
    requires src in r.files && IsImagePath(src)
    ensures forall p :: p in r.files && p != src ==> p in Step(r, src, codec).files
  {
  }

  /**
   * What must hold when an original is deleted: its backup path and its WebP file
   * exist, and the backup holds the original's bytes unless that backup path was
   * already taken when the run started.
   */
  predicate SafeDeletion(files: map<Path, Bytes>, d: Deletion)
  {
    IsImagePath(d.path) && BackupPath(d.path) in d.before && Dest(d.path) in d.before &&
    (d.path in files && BackupPath(d.path) !in files ==> d.before[BackupPath(d.path)] == files[d.path])
  }

  /** The deletion made by a successful step is safe, given what the earlier steps left. */
  lemma LastDeletionSafe(files: map<Path, Bytes>, r: Run, src: Path, codec: Codec)
    requires src in files && IsImagePath(src) && src in r.files && r.files[src] == files[src]
    requires BackupPath(src) in r.files <==> BackupPath(src) in files
    requires codec(files[src]).Some?
    ensures SafeDeletion(files, Deletion(src, BackedUp(r.files, src)[Dest(src) := codec(files[src]).value]))
  {
    DestNotImage(src);
  }

  /**
   * Backup before delete: every deletion of the run happens when the image's
   * backup and its WebP file exist, the backup holding the original's bytes
   * unless a backup from an earlier run was already in place.
   */
  lemma {:induction false} BackupBeforeDelete(files: map<Path, Bytes>, images: seq<Path>, codec: Codec)
    requires ValidBatch(files, images)
    ensures var ds := AfterAll(files, images, codec).deletions;
      forall k :: 0 <= k < |ds| ==> SafeDeletion(files, ds[k])
  {
    if images != [] {
      var n := |images| - 1;
      AfterAllUnfold(files, images, codec);
      BackupBeforeDelete(files, images[..n], codec);
      var prev := AfterAll(files, images[..n], codec);
      var src := images[n];
      if codec(files[src]).Some? {
        SuccessRecordsOnce(prev, src, codec);
        AfterAllFrame(files, images[..n], codec);
        BackupUntouched(images[..n], src);
        LastDeletionSafe(files, prev, src, codec);
      } else {
        FailureLeavesNoTrace(prev, src, codec);
      }
    }
  }

  /** Each image of `ps` is still in `f` exactly when its conversion fails. */
  predicate KeptIffFailed(files: map<Path, Bytes>, f: map<Path, Bytes>, ps: seq<Path>, codec: Codec)
  {
    forall k :: 0 <= k < |ps| ==> ps[k] in files && (ps[k] in f <==> codec(files[ps[k]]).None?)
  }

  /** One more step keeps the earlier images as they were and decides the new one by its conversion. */
  lemma KeptStep(files: map<Path, Bytes>, done: seq<Path>, prev: Run, src: Path, codec: Codec)
    requires KeptIffFailed(files, prev.files, done, codec) && src !in done
    requires forall k :: 0 <= k < |done| ==> IsImagePath(done[k])
    requires src in files && IsImagePath(src) && src in prev.files && prev.files[src] == files[src]
    ensures KeptIffFailed(files, Step(prev, src, codec).files, done + [src], codec)
  {
    var all := done + [src];
    forall k | 0 <= k < |all|
      ensures all[k] in files && (all[k] in Step(prev, src, codec).files <==> codec(files[all[k]]).None?)
    {
      if k < |done| {
        assert all[k] == done[k];
        OtherImageUnaffected(prev, src, codec, done[k]);
      } else if codec(files[src]).Some? {
        SuccessReplacesFile(prev, src, codec);
      } else {
        FailureLeavesNoTrace(prev, src, codec);
      }
    }
  }

  /** After the run an image is still in place exactly when its conversion failed. */
  lemma {:induction false} OriginalKeptIffFailed(files: map<Path, Bytes>, images: seq<Path>, codec: Codec)
    requires ValidBatch(files, images)
    ensures KeptIffFailed(files, AfterAll(files, images, codec).files, images, codec)
  {
    if images != [] {
      var n := |images| - 1;
      var src := images[n];
      SplitLast(images);
      AfterAllUnfold(files, images, codec);
      OriginalKeptIffFailed(files, images[..n], codec);
      KeptStep(files, images[..n], AfterAll(files, images[..n], codec), src, codec);
    }
  }

  /** A step does not add or remove any other image. */
  lemma OtherImageUnaffected(r: Run, src: Path, codec: Codec, p: Path)
    requires src in r.files && IsImagePath(src) && IsImagePath(p) && p != src
    ensures p in Step(r, src, codec).files <==> p in r.files
  {
    StepFrame(r, src, codec);
    DestNotImage(src);
  }

  /** `p`'s backup is in place in `f` and holds what the run promises. */
  predicate BackupHeld(files: map<Path, Bytes>, f: map<Path, Bytes>, p: Path)
    requires p in files
  {
    BackupPath(p) in f &&
    f[BackupPath(p)] == (if BackupPath(p) in files then files[BackupPath(p)] else files[p])
  }

  /** A later step does not disturb an earlier image's backup. */
  lemma BackupHeldPreserved(files: map<Path, Bytes>, r: Run, src: Path, codec: Codec, p: Path)
    requires src in r.files && IsImagePath(src) && p in files && p != src
    requires BackupHeld(files, r.files, p)
    ensures BackupHeld(files, Step(r, src, codec).files, p)
  {
    StepFrame(r, src, codec);
    DestNotImage(src);
    assert BackupPath(p)[1..] != BackupPath(src)[1..];
  }

  /** A step leaves its own image's backup in place. */
  lemma BackupHeldNew(files: map<Path, Bytes>, r: Run, src: Path, codec: Codec)
    requires src in files && IsImagePath(src) && src in r.files && r.files[src] == files[src]
    requires BackupPath(src) in r.files <==> BackupPath(src) in files
    requires BackupPath(src) in files ==> r.files[BackupPath(src)] == files[BackupPath(src)]
    ensures BackupHeld(files, Step(r, src, codec).files, src)
  {
    DestNotSkipped(src);
    BackupDiffers(src);
  }

  /** The backup path of an image still to come is as it was when the run started. */
  lemma NextBackupUnchanged(files: map<Path, Bytes>, images: seq<Path>, codec: Codec, src: Path)
    requires ValidBatch(files, images) && IsImagePath(src) && src !in images
    ensures var f := AfterAll(files, images, codec).files;
      (BackupPath(src) in f <==> BackupPath(src) in files) &&
      (BackupPath(src) in files ==> f[BackupPath(src)] == files[BackupPath(src)])
  {
    AfterAllFrame(files, images, codec);
    BackupUntouched(images, src);
  }

  /** Every image of `ps` has its backup in `f`, as `BackupHeld` describes. */
  predicate AllBackupsHeld(files: map<Path, Bytes>, f: map<Path, Bytes>, ps: seq<Path>)
  {
    forall k :: 0 <= k < |ps| ==> ps[k] in files && BackupHeld(files, f, ps[k])
  }

  /** One more step keeps the earlier backups and adds the new one. */
  lemma BackupsStep(files: map<Path, Bytes>, done: seq<Path>, prev: Run, src: Path, codec: Codec)
    requires AllBackupsHeld(files, prev.files, done) && src !in done
    requires src in files && IsImagePath(src) && src in prev.files && prev.files[src] == files[src]
    requires BackupPath(src) in prev.files <==> BackupPath(src) in files
    requires BackupPath(src) in files ==> prev.files[BackupPath(src)] == files[BackupPath(src)]
    ensures AllBackupsHeld(files, Step(prev, src, codec).files, done + [src])
  {
    var all := done + [src];
    forall k | 0 <= k < |all| ensures all[k] in files && BackupHeld(files, Step(prev, src, codec).files, all[k]) {
      if k < |done| {
        assert all[k] == done[k];
        BackupHeldPreserved(files, prev, src, codec, done[k]);
      } else {
        BackupHeldNew(files, prev, src, codec);
      }
    }
  }

  /**
   * After the run every image has its backup, holding the image's original bytes
   * unless that backup path was taken before the run.
   */
  lemma {:induction false} BackupsAfterRun(files: map<Path, Bytes>, images: seq<Path>, codec: Codec)
    requires ValidBatch(files, images)
    ensures AllBackupsHeld(files, AfterAll(files, images, codec).files, images)
  {
    if images != [] {
      var n := |images| - 1;
      var src := images[n];
      SplitLast(images);
      AfterAllUnfold(files, images, codec);
      BackupsAfterRun(files, images[..n], codec);
      NextBackupUnchanged(files, images[..n], codec, src);
      BackupsStep(files, images[..n], AfterAll(files, images[..n], codec), src, codec);
    }
  }

  /** A later step does not remove an earlier image's WebP file (it may replace it). */
  lemma WebpKept(r: Run, src: Path, codec: Codec, p: Path)
    requires src in r.files && IsImagePath(src) && IsImagePath(p) && Dest(p) in r.files
    ensures Dest(p) in Step(r, src, codec).files
  {
    DestNotImage(p);
    StepOnlyRemovesSource(r, src, codec);
  }

  /** Every image of `ps` whose conversion succeeds has its WebP file in `f`. */
  predicate AllWebpsMade(files: map<Path, Bytes>, f: map<Path, Bytes>, ps: seq<Path>, codec: Codec)
  {
    forall k :: 0 <= k < |ps| ==>
      ps[k] in files && IsImagePath(ps[k]) && (codec(files[ps[k]]).Some? ==> Dest(ps[k]) in f)
  }

  /** One more step keeps the earlier WebP files and adds the new one on success. */
  lemma WebpStep(files: map<Path, Bytes>, done: seq<Path>, prev: Run, src: Path, codec: Codec)
    requires AllWebpsMade(files, prev.files, done, codec)
    requires src in files && IsImagePath(src) && src in prev.files && prev.files[src] == files[src]
    ensures AllWebpsMade(files, Step(prev, src, codec).files, done + [src], codec)
  {
    var all := done + [src];
    forall k | 0 <= k < |all|
      ensures all[k] in files && IsImagePath(all[k]) &&
        (codec(files[all[k]]).Some? ==> Dest(all[k]) in Step(prev, src, codec).files)
    {
      if k < |done| {
        assert all[k] == done[k];
        if codec(files[done[k]]).Some? {
          WebpKept(prev, src, codec, done[k]);
        }
      } else if codec(files[src]).Some? {
        SuccessReplacesFile(prev, src, codec);
      }
    }
  }

  /** After the run every successful image has its WebP file. */
  lemma {:induction false} WebpAfterRun(files: map<Path, Bytes>, images: seq<Path>, codec: Codec)
    requires ValidBatch(files, images)
    ensures AllWebpsMade(files, AfterAll(files, images, codec).files, images, codec)
  {
    if images != [] {
      var n := |images| - 1;
      var src := images[n];
      SplitLast(images);
      AfterAllUnfold(files, images, codec);
      WebpAfterRun(files, images[..n], codec);
      WebpStep(files, images[..n], AfterAll(files, images[..n], codec), src, codec);
    }
  }

  /** `renamed` is empty exactly when no conversion succeeded. */
  lemma RenamedEmptyIffNoSuccess(files: map<Path, Bytes>, images: seq<Path>, codec: Codec)
    requires ValidBatch(files, images)
    ensures AfterAll(files, images, codec).renamed == map[] <==> Successes(files, images, codec) == []
  {
    RenamedOfSuccesses(files, images, codec);
    var s := Successes(files, images, codec);
    if s != [] {
      RenamesKeys(s);
      assert RelKey(s[0]) in Renames(s);
    }
  }

  /**
   * A backup left by an earlier run is kept even when it no longer matches the
   * image: the image is then deleted while no backup of its current bytes remains.
   */
  lemma StaleBackupLosesOriginal(files: map<Path, Bytes>, src: Path, codec: Codec)
    requires src in files && IsImagePath(src) && codec(files[src]).Some?
    requires BackupPath(src) in files && files[BackupPath(src)] != files[src]
    ensures var f := AfterAll(files, [src], codec).files;
      src !in f && BackupPath(src) in f && f[BackupPath(src)] != files[src]
  {
    assert ValidBatch(files, [src]);
    OriginalKeptIffFailed(files, [src], codec);
    BackupsAfterRun(files, [src], codec);
    assert [src][0] == src;
  }
}
