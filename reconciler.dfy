/**
 * The file reconciler both editors share: writeToFile stores the whole
 * buffer in the selected file and caches its new time stamp; loadFromFile
 * reads the file back line by line and caches its time stamp. Both do
 * nothing when no file is selected, and both leave the cached stamp alone
 * when the I/O fails.
 */
module Reconciler {
  import opened Wrappers
  import opened FileSystem
  import opened LineReader

  /**
   * writeToFile: the disk and the cached stamp after writing `text` to `file`.
   * Without a file, or when the write throws, both stay as they were; after a
   * successful write the file reads back as `text` and the cached stamp is the
   * file's own.
   */
  function WriteBack(file: Option<Path>, text: string, disk: Disk, stamp: int, w: WriteOutcome): (res: (Disk, int))
    ensures file.None? || w.WriteFailed? ==> res == (disk, stamp)
    ensures file.Some? && w.Written? ==>
      Read(res.0, file.value, ReadOk) == Success(text) && res.1 == LastModified(res.0, file.value) == w.mtime
  {
    match file
    case None => (disk, stamp)
    case Some(p) =>
      match Write(disk, p, text, w)
      case Failure(_) => (disk, stamp)
      case Success(d) => (d, LastModified(d, p))
  }

  /**
   * loadFromFile: the text to put in the editor and the stamp to cache, or
   * None when nothing changes (no file selected, file missing, read failed).
   */
  function Reload(file: Option<Path>, disk: Disk, r: ReadOutcome): (res: Option<(string, int)>)
    ensures res.Some? <==> file.Some? && file.value in disk && r == ReadOk
    ensures res.Some? ==>
      res.value == (Normalized(disk[file.value].content), LastModified(disk, file.value))
      && IsNormal(res.value.0)
  {
    match file
    case None => None
    case Some(p) =>
      match Read(disk, p, r)
      case Failure(_) => None
      case Success(content) =>
        NormalizedIsNormal(content);
        Some((Normalized(content), LastModified(disk, p)))
  }

  /** Without a selected file, neither operation does anything. */
  lemma NoFileNoEffect(text: string, disk: Disk, stamp: int, w: WriteOutcome, r: ReadOutcome)
    ensures WriteBack(None, text, disk, stamp, w) == (disk, stamp)
    ensures Reload(None, disk, r) == None
  {
  }

  /**
   * A successful write stores exactly the buffer, touches no other file, and
   * the cached stamp equals the file's time stamp afterwards.
   */
  lemma WriteBackSucceeds(p: Path, text: string, disk: Disk, stamp: int, m: int)
    ensures var (d, s) := WriteBack(Some(p), text, disk, stamp, Written(m));
      p in d && d[p].content == text && s == LastModified(d, p) == m
      && forall q :: q != p ==> (q in d <==> q in disk) && (q in disk ==> d[q] == disk[q])
  {
  }

  /** A failed write leaves the cached stamp (and, in this model, the disk) as they were. */
  lemma WriteBackFails(file: Option<Path>, text: string, disk: Disk, stamp: int, e: IoError)
    ensures WriteBack(file, text, disk, stamp, WriteFailed(e)) == (disk, stamp)
  {
  }

  /**
   * A load succeeds exactly when the file exists and can be read; it then
   * yields the normalised content and the file's own time stamp.
   */
  lemma ReloadResult(p: Path, disk: Disk, r: ReadOutcome)
    ensures Reload(Some(p), disk, r).Some? <==> p in disk && r == ReadOk
    ensures Reload(Some(p), disk, r).Some? ==>
      Reload(Some(p), disk, r).value == (Normalized(disk[p].content), disk[p].mtime)
      && IsNormal(Reload(Some(p), disk, r).value.0)
  {
  }

  /**
   * Writing a buffer and reading it back yields the buffer with its line
   * endings normalised, which is the buffer itself exactly when it is normal.
   */
  lemma WriteThenReload(p: Path, text: string, disk: Disk, stamp: int, m: int)
    ensures Reload(Some(p), WriteBack(Some(p), text, disk, stamp, Written(m)).0, ReadOk)
         == Some((Normalized(text), m))
    ensures Normalized(text) == text <==> IsNormal(text)
  {
    NormalizedFixpoint(text);
  }
}
