# optimize_images, modelled in Dafny

`optimize_images.py` is a one-shot script. It runs from a web project's root
folder and works in four steps:

1. It walks the tree for `.jpg`, `.jpeg` and `.png` files outside the service
   directories (`backup_images`, `.git`, `node_modules`, `__pycache__`).
2. For each image, in walk order, it:
   - copies the image to `backup_images/<relative path>` unless a file is already there;
   - encodes it to WebP next to itself;
   - on success, deletes the original and records the rename `a/b.jpg -> a/b.webp`
     and the two sizes.
3. If at least one image was converted, it rewrites every `*.html` file
   outside the service directories. Each quoted reference `"…​.jpg"`, `'….PNG'`, … gets the extension `.webp`.
4. Only the files whose text changed are written back.

The project models that behaviour and proves what the script promises:
- what the backups, the deletions and the rename map hold;
- what the HTML substitution does and does not change.

Modules, one file each:

| file | module | models |
|---|---|---|
| `ascii.dfy` | `Ascii` | ASCII letter-case folding, used by `.lower()` and `re.IGNORECASE` |
| `wrappers.dfy` | `Wrappers` | `Option` |
| `paths.dfy` | `Paths`, `PathsExamples` | the settings; `should_skip`; `Path.suffix`, `Path.stem` and `with_suffix`; the backup path; the two walk filters; the rename-map keys |
| `filesystem.dfy` | `FileSystem` | the project tree as a `Disk` class: `stat`, `exists`, `copy2`, the encoder's read and save, `unlink`, `read_text`, `write_text` |
| `batch.dfy` | `Batch` | the loop of `main` as a function of the starting tree (`Step`, `AfterAll`) and everything proved about it |
| `rewriter.dfy` | `Rewriter`, `RewriterExamples` | the regular expression of `patch_html_files` as an explicit scanner, and its properties |
| `optimizer.dfy` | `Optimizer` | `find_images`, `find_html_files`, `backup`, `convert_to_webp`, the loop of `main`, `patch_html_files` and `main`: imperative methods over a `Disk`, each proved against the functions above |

The lemmas below are about a few defining functions, which carry no row of
their own:
- `Paths.Suffix`, `Paths.Stem` and `Paths.Dest` model `Path.suffix`, `Path.stem`
  and `with_suffix(".webp")` (lines 50, 73).
- `Paths.IsImageCandidate` and `Paths.IsHtmlCandidate` are the two walk filters
  (lines 50, 57-58).
- `Paths.BackupPath` is `ROOT / BACKUP_DIR / rel` (line 65).
- `Paths.RelKey` is the rename key (lines 140-141).
- `Batch.Step` is one iteration of the loop of `main` (lines 117-142).
  `Batch.AfterAll` is the whole loop.
- `Rewriter.Tokenize`, `Rewriter.Replacement` and `Rewriter.Rewrite` are the scan,
  the replacement of one match and `pattern.sub` (lines 88-97).

How the model represents the environment:
- A path is the sequence of its components, relative to the project root.
- The recursive walk is a parameter: a sequence of entries, each a path and
  whether it is a regular file, in the order the walk yields them.
- The Pillow encoder is a parameter `Codec = Bytes -> Option<Bytes>`.
  `None` stands for any exception raised by `convert_to_webp`.
- The bytes of the files are one map. The decoded text of the HTML files is a
  second map.
- Ghost logs keep each deletion, with the tree as it stood just before it, and
  each page written back. This lets the order of effects be stated.

Decisions and behaviour worth knowing:
- **Stale backups.** The module docstring promises that the original is in
  `backup_images/` when it is deleted. The code keeps any backup that is
  already there. The model follows the code. A backup left by an earlier run
  with other bytes survives, and the image is deleted while no backup of its
  current bytes remains (`Batch.StaleBackupLosesOriginal`). What is proved in
  general (`Batch.BackupBeforeDelete`) is this: at every deletion, the backup
  and the WebP file exist, and the backup holds the original's bytes unless
  its path was taken before the run.
- **Shared destinations.** `a.jpg` and `a.png` in one folder share `a.webp`
  (`PathsExamples.SharedDest`). The later conversion replaces the earlier one's
  output. So the model promises that every successful image has a WebP file,
  not that the file holds its own encoding.
- **Consumed quotes.** `re.sub` resumes after the closing quote of a match.
  In `"x.jpg"y.png"`, the quote between the two references closes the first
  one, so the second is not rewritten. A second run would rewrite it, so the
  rewrite is not idempotent (`Rewriter.ConsumedClose`,
  `RewriterExamples.NotIdempotent`).
- **Unused argument.** `patch_html_files` receives `renamed` but never reads
  it. The model passes it along and ignores it. Every quoted image reference
  is retargeted, even one whose image was not converted.
- **Suffix rule.** `Path.suffix` follows `pathlib`'s rule. The last dot starts
  the suffix unless it is the first or the last character of the name.

## Model

| member | source | states |
|---|---|---|
| Paths.ShouldSkip | optimize_images.py:42-44 | a path is skipped exactly when one of its components equals one of the four service directory names |
| Paths.SkipExtends | optimize_images.py:42-44 | adding components before or after a skipped path keeps it skipped |
| Paths.SkipSnoc | optimize_images.py:42-44 | a path with one more component is skipped exactly when its parent is skipped or the new component is a service directory |
| PathsExamples.GitignoreNotSkipped | optimize_images.py:29 | components are compared whole: `.gitignore` is not skipped, `.git/config` is |
| Paths.RFind | optimize_images.py:50 | the index used to find the suffix is the last occurrence of the character, or -1 when there is none |
| Paths.RFindIs | optimize_images.py:50 | any position holding the character with none after it is the one found |
| Paths.SuffixShape | optimize_images.py:50 | stem followed by suffix is the name; a non-empty suffix starts with a dot, has at least one more character and no other dot, and follows a non-empty stem |
| Paths.WithSuffix | optimize_images.py:73 | `with_suffix` keeps the parent and the number of components, and the new name is the old stem followed by the new suffix |
| Paths.SuffixOfStemPlus | optimize_images.py:73 | a non-empty stem followed by a dotted suffix with no other dot has exactly that suffix and that stem |
| Paths.ImageNameEndsInG | optimize_images.py:28 | every name with an image suffix ends in `g` or `G` and is not a service directory name |
| Paths.SkipDirsDoNotEndInG | optimize_images.py:29 | no service directory name ends in `g`, `G` or `p` |
| Paths.DestShape | optimize_images.py:73 | the WebP destination keeps the parent and the stem of the image, and its suffix is `.webp` |
| Paths.DestEndsInP | optimize_images.py:73 | the destination's name ends in `p` |
| Paths.DestNotImageName | optimize_images.py:73 | the destination's name has no image suffix |
| Paths.DestNotSkipped | optimize_images.py:73 | the destination of an image found by the walk lies outside the service directories |
| Paths.DestDiffers | optimize_images.py:73 | the destination is never the image itself |
| Paths.DestNotImage | optimize_images.py:73 | the destination is neither an image the loop could reach, nor skipped, nor the source, so a conversion overwrites no pending image and no backup |
| PathsExamples.UpperJpgBecomesWebp | optimize_images.py:73 | `photos/a.JPG` is an image and its destination is `photos/a.webp` |
| PathsExamples.SharedDest | optimize_images.py:73 | `a.jpg` and `a.png` are both images and have the same destination |
| Paths.BackupPath | optimize_images.py:63-65 | the backup path is skipped by the walk, is not an image, and below `backup_images` is the image's own relative path |
| Paths.BackupDiffers | optimize_images.py:65 | a backup path is never its own source |
| Paths.BackupInjective | optimize_images.py:65 | distinct images have distinct backup paths |
| Paths.ImageNotHtml | optimize_images.py:50-57 | no image name matches `*.html` |
| Paths.TouchedPathsAreNotHtml | optimize_images.py:137-150 | an image, its backup and its destination are none of them HTML candidates, so the second walk finds the same HTML files as a walk before the loop |
| Paths.ForwardSlashesAppend | optimize_images.py:140-141 | replacing backslashes distributes over concatenation |
| Paths.NoBackslash | optimize_images.py:140-141 | a rename key holds no backslash |
| Paths.RelKeyPlatformIndependent | optimize_images.py:140-141 | the key is the same when the platform joins components with `\` as when it joins them with `/` |
| FileSystem.Disk.Size | optimize_images.py:118 | `stat().st_size` is the length of the file's bytes |
| FileSystem.Disk.Exists | optimize_images.py:67 | `exists()` is true exactly when the path holds a file |
| FileSystem.Disk.Copy | optimize_images.py:68 | `copy2` gives the destination the source's bytes and changes nothing else |
| FileSystem.Disk.Read | optimize_images.py:74 | the encoder reads the source's bytes |
| FileSystem.Disk.Save | optimize_images.py:78 | the encoder's save creates or replaces the destination and changes nothing else |
| FileSystem.Disk.Unlink | optimize_images.py:137 | `unlink` removes exactly that file and logs the deletion with the tree before it |
| FileSystem.Disk.ReadText | optimize_images.py:94 | `read_text` returns the page's text |
| FileSystem.Disk.WriteText | optimize_images.py:100 | `write_text` replaces that page's text only and logs the write |
| Batch.BackedUp | optimize_images.py:63-68 | after `backup`, the backup path exists; it keeps its earlier bytes if it existed and gets the image's bytes otherwise; no other file changes |
| Batch.BackupIdempotent | optimize_images.py:67-68 | backing up twice is the same as backing up once |
| Batch.BackupKeepsFirst | optimize_images.py:67-68 | once a backup exists, a later backup of the same path keeps it, whatever the image holds by then |
| Batch.FailureLeavesNoTrace | optimize_images.py:124-128 | a failed conversion leaves the image in place and adds no rename, no deletion and no size |
| Batch.SuccessRecordsOnce | optimize_images.py:130-142 | a successful conversion adds exactly its two sizes to the totals, one deletion of the image and one rename from its key to its WebP key |
| Batch.SuccessReplacesFile | optimize_images.py:121-137 | on success, the image is gone, its WebP file holds the encoding and its backup is in place |
| Batch.StepFrame | optimize_images.py:117-142 | one iteration affects no file but the image, its backup and its destination |
| Batch.OtherImageUnaffected | optimize_images.py:117-142 | one iteration neither adds nor removes any other image |
| Batch.ImageUntouched | optimize_images.py:117-142 | an image that is not in the list is touched by none of the list's iterations |
| Batch.ValidBatchPrefix | optimize_images.py:117 | every prefix of a valid image list is a valid image list |
| Batch.AfterAll | optimize_images.py:117-142 | the whole loop leaves every image not in the list in place, with its bytes |
| Batch.AfterAllFrame | optimize_images.py:117-142 | the loop changes nothing but the listed images, their backups and their destinations |
| Batch.AfterAllUnfold | optimize_images.py:117 | the loop over a list is its last iteration applied after the loop over all the earlier images |
| Batch.AfterAllExtend | optimize_images.py:117 | extending the images done by one is one more iteration |
| Batch.Successes | optimize_images.py:124-128 | the successful images are taken from the list and all convert |
| Batch.SuccessesMembers | optimize_images.py:124-128 | an image is among the successes exactly when it is listed and its conversion succeeds |
| Batch.SuccessesDistinct | optimize_images.py:117-128 | for a list without repeats, no image is among the successes twice |
| Batch.RenamedOfSuccesses | optimize_images.py:139-142 | `renamed` is built from the successes, in order, which are exactly the converted images by `Batch.SuccessesMembers` |
| Batch.RenamesKeys | optimize_images.py:142 | every converted image has its key in `renamed` |
| Batch.RenamesValues | optimize_images.py:140-142 | every key of `renamed` is the key of a converted image and maps to that image's WebP key |
| Batch.RenamedEmptyIffNoSuccess | optimize_images.py:151 | `renamed` is empty exactly when no conversion succeeded, which decides whether the HTML is patched |
| Batch.TotalBeforeOfSuccesses | optimize_images.py:118-133 | `total_before` is the sum of the sizes of the successes, each counted once by `Batch.SuccessesDistinct` |
| Batch.TotalAfterOfSuccesses | optimize_images.py:130-134 | `total_after` is the sum of the sizes of the successes' WebP encodings |
| Batch.DeletionsOfSuccesses | optimize_images.py:137 | the originals deleted are the successes, in order (so exactly the converted images, by `Batch.SuccessesMembers`), and none is deleted twice |
| Batch.StepOnlyRemovesSource | optimize_images.py:137 | an iteration removes no file but its own image |
| Batch.BackupUntouched | optimize_images.py:63-79 | no iteration for another image writes or deletes an image's backup path |
| Batch.LastDeletionSafe | optimize_images.py:121-137 | when a successful iteration deletes its image, the backup and the WebP file exist and the backup holds the original bytes unless it existed before the run |
| Batch.BackupBeforeDelete | optimize_images.py:117-142 | every deletion of the run happens with the backup and the WebP file in place, the backup holding the original bytes unless its path was taken before the run |
| Batch.OriginalKeptIffFailed | optimize_images.py:124-137 | after the run, an image is still in place exactly when its conversion failed |
| Batch.BackupsAfterRun | optimize_images.py:63-68 | after the run, every image has its backup, holding its original bytes unless the path was taken before the run |
| Batch.NextBackupUnchanged | optimize_images.py:63-68 | the backup path of an image still to come is as it was when the run started |
| Batch.BackupHeldPreserved | optimize_images.py:63-68 | a later iteration does not disturb an earlier image's backup |
| Batch.BackupHeldNew | optimize_images.py:63-68 | an iteration leaves its own image's backup in place |
| Batch.WebpKept | optimize_images.py:73-78 | a later iteration does not remove an earlier image's WebP file |
| Batch.WebpAfterRun | optimize_images.py:71-79 | after the run, every converted image has its WebP file |
| Batch.StaleBackupLosesOriginal | optimize_images.py:67-68 | with a differing backup already in place, a successful run deletes the image and no file holds its bytes at the backup path |
| Rewriter.PatternUsesImgExts | optimize_images.py:88-90 | the pattern's alternatives are exactly the image extensions of the walk filter, and the replacement extension is the WebP suffix |
| Rewriter.NextQuote | optimize_images.py:89 | the body of a match can only end at the first quote after the opening one |
| Rewriter.OldExtIndex | optimize_images.py:89 | the extension alternative found ends the segment after a non-empty body, and none is found exactly when no extension ends it |
| Rewriter.OldExtIndexOf | optimize_images.py:89 | at most one alternative ends a segment, so the order of the alternation does not matter |
| Rewriter.MatchEnd | optimize_images.py:89 | a match opening at the head closes at the next quote |
| Rewriter.HeadRef | optimize_images.py:89-96 | the four groups of a match at the head are well formed and make up the matched text |
| Rewriter.SegmentSplit | optimize_images.py:89 | a segment ending in an extension splits into a non-empty quote-free body and that extension |
| Rewriter.HeadToken | optimize_images.py:95-97 | each step of the scan is a well-formed match or one copied character |
| Rewriter.HeadLength | optimize_images.py:95-97 | each step of the scan consumes at least one character and no more than remain |
| Rewriter.Tokenize | optimize_images.py:95-97 | every token of the scan is well formed |
| Rewriter.TokenizeLossless | optimize_images.py:95-97 | the tokens read back in order are exactly the input text |
| Rewriter.RewriteStep | optimize_images.py:95-97 | the rewrite is the replacement of the head token followed by the rewrite of the rest |
| Rewriter.MatchHereIff | optimize_images.py:88-91 | the scanner takes a match at the head exactly when the pattern matches there |
| Rewriter.MatchHereMatches | optimize_images.py:88-91 | a match taken by the scanner is a match of the pattern |
| Rewriter.MatchesMatchHere | optimize_images.py:88-91 | a match of the pattern at the head is taken by the scanner, with the same end |
| Rewriter.TokenizeHead | optimize_images.py:88-97 | the first token is a match exactly when the pattern matches at the first character |
| Rewriter.MatchesAtTail | optimize_images.py:88-91 | a match that does not start at the first character is a match of the text without it |
| Rewriter.NoMatchUnchanged | optimize_images.py:95-99 | a text the pattern does not match is rewritten to itself |
| Rewriter.MatchChanges | optimize_images.py:95-99 | a text the pattern matches is changed by the rewrite |
| Rewriter.RewritePlainHead | optimize_images.py:95-97 | a first character that opens no match is copied |
| Rewriter.HeadMatchChanges | optimize_images.py:95-99 | a text with a match at its head is changed |
| Rewriter.TokenChanges | optimize_images.py:96 | a replaced match never reads back as its source, whatever follows |
| Rewriter.RewriteUnchangedIff | optimize_images.py:95-100 | the rewrite leaves a text unchanged exactly when the pattern matches nowhere in it, so a file is written back exactly when it holds a match |
| Rewriter.NoQuoteUnchanged | optimize_images.py:89 | text without quotes is never changed |
| Rewriter.PlainPrefix | optimize_images.py:95-97 | characters before the first quote are copied unchanged |
| Rewriter.RefSegment | optimize_images.py:89 | a non-empty quote-free body and an extension in any case form a segment the pattern accepts |
| Rewriter.MatchStep | optimize_images.py:95-97 | one match keeps both quotes and the body and replaces the extension with `.webp`; the rest is rewritten on its own |
| Rewriter.SingleReference | optimize_images.py:95-97 | in a text with one quoted reference, only its extension changes |
| Rewriter.NextQuoteIs | optimize_images.py:89 | a quote-free stretch ended by a quote or by the end of the text is what the scanner reads as a body |
| Rewriter.NextQuoteAfter | optimize_images.py:89 | after a quote-free segment, the next quote is the one that ends it |
| Rewriter.NoMatchAtUnmatchedQuote | optimize_images.py:89 | no match opens at a quote whose segment ends in no extension |
| Rewriter.UnmatchedQuote | optimize_images.py:95-97 | such a quote is copied together with its segment |
| Rewriter.LoneQuoteUnchanged | optimize_images.py:95-97 | a lone quote is copied |
| Rewriter.FirstPassOfTwo | optimize_images.py:95-97 | for two references sharing a quote, one pass retargets only the first one |
| Rewriter.SecondPassChanges | optimize_images.py:95-97 | after that pass, the shared quote opens a match, so a second pass changes the text again |
| Rewriter.QuotedSegmentChanges | optimize_images.py:95-99 | a quoted segment ending in an extension after any text is a match, so the text changes |
| Rewriter.ConsumedClose | optimize_images.py:95-97 | the closing quote of a match is consumed; the rewrite of two references sharing a quote retargets one of them and is not idempotent |
| RewriterExamples.UpperJpgIsOld | optimize_images.py:90 | `.JPG` matches the extension alternatives, ignoring case |
| RewriterExamples.LowerExtsAreOld | optimize_images.py:89 | `.jpg` and `.png` match the extension alternatives |
| RewriterExamples.ImgTagRetargeted | optimize_images.py:95-97 | `<img src="pics/a.JPG">` becomes `<img src="pics/a.webp">` |
| RewriterExamples.MixedQuotesRetargeted | optimize_images.py:89 | the two quote groups are independent: `"a.png'` becomes `"a.webp'` |
| RewriterExamples.EmptyBodyUntouched | optimize_images.py:89 | `".jpg"` has an empty body and is not rewritten |
| RewriterExamples.NotIdempotent | optimize_images.py:95-97 | `"x.jpg"y.png"` becomes `"x.webp"y.png"`, which a second pass changes again |
| Optimizer.PathsWhereMembers | optimize_images.py:47-60 | a path is listed by a walk filter exactly when the walk yields it and it passes the filter |
| Optimizer.PathsWhereDistinct | optimize_images.py:47-60 | a walk that yields each path once gives a list without repetitions |
| Optimizer.ImagesMakeBatch | optimize_images.py:47-52 | the image list meets what the loop needs: distinct image paths, each present |
| Optimizer.FindImages | optimize_images.py:47-52 | `find_images` lists the regular files with an image suffix outside the service directories, in walk order |
| Optimizer.FindHtmlFiles | optimize_images.py:55-60 | `find_html_files` lists the `*.html` names outside the service directories, in walk order |
| Optimizer.Backup | optimize_images.py:63-68 | `backup` leaves the tree as `Batch.BackedUp` describes and logs nothing |
| Optimizer.ConvertToWebp | optimize_images.py:71-79 | `convert_to_webp` fails and leaves the tree as it was, or returns the destination, which holds the encoding |
| Optimizer.ProcessImage | optimize_images.py:117-142 | one iteration performs `Batch.Step`: tree, `renamed`, totals and deletion log |
| Optimizer.ProcessImages | optimize_images.py:117-142 | the loop performs `Batch.AfterAll` and leaves the pages alone |
| Optimizer.PatchedPages | optimize_images.py:93-100 | patching keeps the set of HTML files |
| Optimizer.PatchedPagesOnce | optimize_images.py:93-100 | for distinct HTML files, each listed file is rewritten once and the others keep their text; a file is written back exactly when it is listed and its text holds a match |
| Optimizer.PatchStep | optimize_images.py:93-100 | patching one more file rewrites it once more and writes it back exactly when its rewrite changed it |
| Optimizer.PatchOne | optimize_images.py:93-100 | one iteration of the HTML loop extends the patched prefix and the write log by exactly that file |
| Optimizer.PatchHtmlFiles | optimize_images.py:82-101 | the pages end up as `PatchedPages`, the files written back are those whose text changed, in order, and the image files are untouched |
| Optimizer.Optimize | optimize_images.py:105-153 | with no image, nothing changes; otherwise the tree and the totals are those of the loop, and the HTML is patched exactly when there are HTML files and a rename |

## Left out

- Pillow. This covers opening and decoding the image, the mode conversion
  (lines 74-77), `QUALITY` and `method=6` (lines 26, 78). The encoder is a
  parameter of the model.
- The `ImportError` check (lines 32-37) and every `print`. Output is not modelled.
- The float arithmetic behind the percentages (lines 131, 144-147, 156-162).
  The model keeps the two totals, which are exact integers.
- The `ZeroDivisionError` line 131 raises for an empty image that encodes
  successfully. It is left out because Pillow cannot open an empty file, so
  `convert_to_webp` has already raised at line 125.
- The order in which `rglob` yields entries. The walk is a parameter, and the
  model proves properties for any order.
- The second walk at line 150. Both walks read one snapshot of entries.
  `Paths.TouchedPathsAreNotHtml` shows the loop does not change the set of HTML
  files. The order a second walk would list them in, which decides the order of
  the writes, is not modelled.
- Directories, `mkdir` (line 66), and `exists()` on a directory. A backup path
  occupied by a directory is not modelled.
- A directory whose name ends in `.html`.
- UTF-8 decoding and `errors="replace"` (line 94). The pages map holds already
  decoded text, separate from the bytes of the files.
- Files that vanish while the script runs, and other concurrent writers. The
  model requires every listed image and HTML file to be present.
- Every other I/O error. The script catches only the exceptions of
  `convert_to_webp` (lines 124-128). A failure of `stat` (118), `mkdir` or
  `copy2` (66-68), `unlink` (137), `read_text` (94) or `write_text` (100) ends
  the run. The model makes all of these succeed.
- Case-insensitive matching of `rglob("*.html")` (line 57) on Windows. The model
  matches `*.html` case-sensitively (`Paths.EndsWithHtml`), so `A.HTML` is not
  an HTML candidate.
- Letter case beyond ASCII. `.lower()` and `re.IGNORECASE` are modelled on
  ASCII letters, which is all that the extensions and the `.html` pattern involve.
- A file that the encoder writes partly before it raises. A failed conversion
  is modelled as writing nothing.
- Case-insensitive file systems, symbolic links and hard links. Two paths are
  the same file only when they are equal. The walk at line 50 would list a
  symbolic link to an image as well as its target. When the target is deleted
  first, `stat()` at line 118 raises for the link and the run ends. The model
  does not capture this.
- `pathlib` versions that treat a trailing dot as a suffix. The model uses
  the rule described above: a name ending in a dot has no suffix.
- Batch.WebpAfterRun: states that each converted image's WebP file exists, not
  that it holds that image's encoding, because a later image with the same stem
  replaces it (`PathsExamples.SharedDest`).
- Optimizer.Optimize: the second walk is not re-run. The HTML list comes from
  the same entries as the image list.
