/**
 * An abstract disk: a map from path to the file's whole content and its
 * last-modified time. The outcome of every read and write (success, failure,
 * and the modification time a successful write produces) is supplied by the
 * caller, so the model is deterministic.
 */
module FileSystem {
  import opened Wrappers

  type Path = string

  datatype FileEntry = FileEntry(content: string, mtime: int)

  type Disk = map<Path, FileEntry>

  /** FileNotFoundException and any other IOException. */
  datatype IoError = NotFound | IoFailure

  /** What the environment does with one write: it succeeds and stamps the file, or it throws. */
  datatype WriteOutcome = Written(mtime: int) | WriteFailed(error: IoError)

  /** What the environment does with one read of an existing file. */
  datatype ReadOutcome = ReadOk | ReadFailed

  /** File.lastModified(): the file's time stamp, or 0 when there is no such file. */
  function LastModified(disk: Disk, p: Path): (m: int)
    ensures p !in disk ==> m == 0
    ensures p in disk ==> m == disk[p].mtime
  {
    if p in disk then disk[p].mtime else 0
  }

  /**
   * A FileWriter on `p` writing `content` and closing: on success the file
   * holds exactly `content` with the stamp the environment gave it, and no
   * other file changes; on failure the environment's error is reported.
   */
  function Write(disk: Disk, p: Path, content: string, w: WriteOutcome): (res: Result<Disk, IoError>)
    ensures res.Success? <==> w.Written?
    ensures w.WriteFailed? ==> res.error == w.error
    ensures res.Success? ==>
      p in res.value && res.value[p] == FileEntry(content, w.mtime)
      && forall q :: q != p ==> (q in res.value <==> q in disk) && (q in disk ==> res.value[q] == disk[q])
  {
    match w
    case Written(m) => Success(disk[p := FileEntry(content, m)])
    case WriteFailed(e) => Failure(e)
  }

  /** A FileReader on `p`: a missing file is NotFound, otherwise the environment decides. */
  function Read(disk: Disk, p: Path, r: ReadOutcome): (res: Result<string, IoError>)
    ensures res.Success? <==> p in disk && r == ReadOk
    ensures res.Success? ==> res.value == disk[p].content
    ensures p !in disk ==> res == Failure(NotFound)
    ensures p in disk && r.ReadFailed? ==> res == Failure(IoFailure)
  {
    if p !in disk then Failure(NotFound)
    else if r.ReadFailed? then Failure(IoFailure)
    else Success(disk[p].content)
  }

  /** A successful write is seen by the next read and by lastModified, and touches no other file. */
  lemma WriteThenRead(disk: Disk, p: Path, content: string, m: int, q: Path)
    ensures Write(disk, p, content, Written(m)).Success?
    ensures Read(Write(disk, p, content, Written(m)).value, p, ReadOk) == Success(content)
    ensures LastModified(Write(disk, p, content, Written(m)).value, p) == m
    ensures q != p ==> Read(Write(disk, p, content, Written(m)).value, q, ReadOk) == Read(disk, q, ReadOk)
  {
  }

  /** Reading a file that does not exist fails with NotFound whatever the environment would do. */
  lemma MissingFileNotFound(disk: Disk, p: Path, r: ReadOutcome)
    requires p !in disk
    ensures Read(disk, p, r) == Failure(NotFound) && LastModified(disk, p) == 0
  {
  }
}
