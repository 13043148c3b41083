/**
 * The project tree as the script sees it: the bytes of every regular file and
 * the decoded text of every HTML file, each keyed by its root-relative path.
 * The ghost logs record each deletion with the tree as it stood just before it,
 * and each HTML file written back, so that the order of effects can be stated.
 */
module FileSystem {
  import opened Paths

  newtype byte = x: int | 0 <= x < 256
  type Bytes = seq<byte>

  /** An `unlink` of `path`, with the files as they were when it happened. */
  datatype Deletion = Deletion(path: Path, before: map<Path, Bytes>)

  class Disk {
    var files: map<Path, Bytes>
    var pages: map<Path, string>
    ghost var deletions: seq<Deletion>
    ghost var pageWrites: seq<Path>

    constructor (files0: map<Path, Bytes>, pages0: map<Path, string>)
      ensures files == files0 && pages == pages0 && deletions == [] && pageWrites == []
    {
      files, pages := files0, pages0;
      deletions, pageWrites := [], [];
    }

    /** `stat().st_size` of a file that exists. */
    method Size(p: Path) returns (n: nat)
      requires p in files
      ensures n == |files[p]|
    {
      n := |files[p]|;
    }

    /** `Path.exists()`. */
    method Exists(p: Path) returns (b: bool)
      ensures b <==> p in files
    {
      b := p in files;
    }

    /** `shutil.copy2(src, dst)`: `dst` gets the bytes of `src`. */
    method Copy(src: Path, dst: Path)
      requires src in files
      modifies this
      ensures files == old(files)[dst := old(files)[src]]
      ensures pages == old(pages) && deletions == old(deletions) && pageWrites == old(pageWrites)
    {
      files := files[dst := files[src]];
    }

    /** Reads the bytes of a file, as the codec does when it opens the source. */
    method Read(p: Path) returns (data: Bytes)
      requires p in files
      ensures data == files[p]
    {
      data := files[p];
    }

    /** Creates or replaces a file, as the encoder does with its output. */
    method Save(p: Path, data: Bytes)
      modifies this
      ensures files == old(files)[p := data]
      ensures pages == old(pages) && deletions == old(deletions) && pageWrites == old(pageWrites)
    {
      files := files[p := data];
    }

    /** `Path.unlink()` of a file that exists. */
    method Unlink(p: Path)
      requires p in files
      modifies this
      ensures files == old(files) - {p}
      ensures deletions == old(deletions) + [Deletion(p, old(files))]
      ensures pages == old(pages) && pageWrites == old(pageWrites)
    {
      deletions := deletions + [Deletion(p, files)];
      files := files - {p};
    }

    /** `read_text()` of an HTML file, already decoded. */
    method ReadText(p: Path) returns (text: string)
      requires p in pages
      ensures text == pages[p]
    {
      text := pages[p];
    }

    /** `write_text()` of an HTML file. */
    method WriteText(p: Path, text: string)
      modifies this
      ensures pages == old(pages)[p := text] && pageWrites == old(pageWrites) + [p]
      ensures files == old(files) && deletions == old(deletions)
    {
      pages := pages[p := text];
      pageWrites := pageWrites + [p];
    }
  }
}
