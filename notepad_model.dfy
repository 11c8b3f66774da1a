/**
 * The state of the JavaFX notepad (SimpleNotepad) as a value, and what each
 * of its operations does to it. The class in SimpleNotepad mutates the same
 * fields and is proved to follow these functions; the lemmas here state what
 * the polling loop, the text listener, the dialogs and the startup promise.
 */
module NotepadModel {
  import opened Wrappers
  import opened FileSystem
  import opened LineReader
  import Prefs
  import opened Reconciler
  import opened Menu

  const PreferenceFileName: string := ".simple-notepad.rc"

  /** The prefs file in the user's home directory. */
  function PrefsPath(home: string): Path
  {
    home + "/" + PreferenceFileName
  }

  /** The notepad's fields, the editor text, the polling thread's stop flag and the disk. */
  datatype Session = Session(
    file: Option<Path>,
    filename: string,
    dirty: bool,
    lastReadOrWrite: int,
    text: string,
    disk: Disk,
    prefsPath: Path,
    stop: bool)

  /** The environment's outcomes for the file I/O of one polling iteration. */
  datatype TickIo = TickIo(write: WriteOutcome, read: ReadOutcome)

  /** The editor text replaced by `t`; the text listener marks the content dirty when it changed. */
  function SetText(s: Session, t: string): (u: Session)
    ensures u.text == t
    ensures u.dirty <==> s.dirty || t != s.text
    ensures u == s.(text := u.text, dirty := u.dirty)
  {
    if t != s.text then s.(text := t, dirty := true) else s.(text := t)
  }

  /**
   * writeToFile: only the disk and the cached stamp can change. Without a file,
   * or when the write throws, nothing changes; after a successful write the
   * file holds the text and its stamp is no newer than the cache.
   */
  function WriteToFile(s: Session, w: WriteOutcome): (u: Session)
    ensures u == s.(disk := u.disk, lastReadOrWrite := u.lastReadOrWrite)
    ensures s.file.None? || w.WriteFailed? ==> u == s
    ensures s.file.Some? && w.Written? ==>
      Read(u.disk, s.file.value, ReadOk) == Success(s.text)
      && u.lastReadOrWrite == LastModified(u.disk, s.file.value) == w.mtime
  {
    var (d, stamp) := WriteBack(s.file, s.text, s.disk, s.lastReadOrWrite, w);
    s.(disk := d, lastReadOrWrite := stamp)
  }

  /** loadFromFile: the stamp is cached first, then the text is set (through the listener). */
  function LoadFromFile(s: Session, r: ReadOutcome): (u: Session)
    ensures u == s.(text := u.text, dirty := u.dirty, lastReadOrWrite := u.lastReadOrWrite)
    ensures s.file.None? || s.file.value !in s.disk || r.ReadFailed? ==> u == s
    ensures s.file.Some? && s.file.value in s.disk && r == ReadOk ==>
      u.text == Normalized(s.disk[s.file.value].content)
      && u.lastReadOrWrite == LastModified(s.disk, s.file.value)
      && (u.dirty <==> s.dirty || u.text != s.text)
  {
    match Reload(s.file, s.disk, r)
    case None => s
    case Some((t, stamp)) => SetText(s.(lastReadOrWrite := stamp), t)
  }

  /** The reload condition: a file is selected and its time stamp is strictly newer than the cache. */
  predicate DiskIsNewer(s: Session)
  {
    s.file.Some? && LastModified(s.disk, s.file.value) > s.lastReadOrWrite
  }

  /** One iteration of the polling loop's body: write if dirty, else reload if newer, else nothing. */
  function Tick(s: Session, w: WriteOutcome, r: ReadOutcome): (u: Session)
    ensures u.file == s.file && u.filename == s.filename && u.prefsPath == s.prefsPath && u.stop == s.stop
    ensures Quiescent(s) ==> u == s
    ensures s.dirty && s.file.Some? && w.Written? ==> Quiescent(u)
  {
    if s.dirty then WriteToFile(s.(dirty := false), w)
    else if DiskIsNewer(s) then LoadFromFile(s, r)
    else s
  }

  /** PollingThread.finish. */
  function Finish(s: Session): (u: Session)
    ensures u.stop && u == s.(stop := u.stop)
  {
    s.(stop := true)
  }

  /** The polling loop: iterate while not stopped, one iteration per entry of `io`. */
  function Run(s: Session, io: seq<TickIo>): (u: Session)
    ensures u.file == s.file && u.filename == s.filename && u.prefsPath == s.prefsPath && u.stop == s.stop
    ensures s.stop || Quiescent(s) ==> u == s
    decreases |io|
  {
    if s.stop || io == [] then s else Run(Tick(s, io[0].write, io[0].read), io[1..])
  }

  /** loadPrefs: only the filename can change, and not when the prefs file is missing or unreadable. */
  function LoadPrefs(s: Session, r: ReadOutcome): (u: Session)
    ensures u == s.(filename := u.filename)
    ensures s.prefsPath !in s.disk || r.ReadFailed? ==> u == s
  {
    s.(filename := Prefs.Load(s.disk, s.prefsPath, r, s.filename))
  }

  /** savePrefs: only the disk can change; on success the prefs file holds the filename line. */
  function SavePrefs(s: Session, w: WriteOutcome): (u: Session)
    ensures u == s.(disk := u.disk)
    ensures w.WriteFailed? ==> u == s
    ensures w.Written? ==> Read(u.disk, s.prefsPath, ReadOk) == Success(Prefs.Serialize(s.filename))
  {
    s.(disk := Prefs.Save(s.disk, s.prefsPath, s.filename, w))
  }

  /** showOpenSaveDialog, given the file the user chose (None when cancelled). */
  function ShowOpenSaveDialog(s: Session, chosen: Option<Path>, prefsWrite: WriteOutcome): (u: Session)
    ensures chosen.None? ==> u == s
    ensures chosen.Some? ==>
      u.file == chosen && u.filename == chosen.value && u == s.(file := u.file, filename := u.filename, disk := u.disk)
    ensures prefsWrite.WriteFailed? ==> u.disk == s.disk
    ensures forall q :: q != s.prefsPath ==> (q in u.disk <==> q in s.disk) && (q in s.disk ==> u.disk[q] == s.disk[q])
  {
    match chosen
    case None => s
    case Some(p) => SavePrefs(s.(file := Some(p), filename := p), prefsWrite)
  }

  /** MenuClickListener.handle: the dialog, then a write (Save as) or a load (Open file). */
  function HandleMenu(s: Session, item: MenuItem, chosen: Option<Path>, prefsWrite: WriteOutcome,
                      w: WriteOutcome, r: ReadOutcome): (u: Session)
    ensures u.file == (if chosen.Some? then chosen else s.file)
    ensures u.filename == (if chosen.Some? then chosen.value else s.filename)
    ensures u.stop == s.stop && u.prefsPath == s.prefsPath
    ensures item == SaveAs ==> u.text == s.text && u.dirty == s.dirty
    ensures item == SaveAs && u.file.Some? && w.Written? ==>
      Read(u.disk, u.file.value, ReadOk) == Success(s.text)
      && u.lastReadOrWrite == LastModified(u.disk, u.file.value)
    ensures var t := ShowOpenSaveDialog(s, chosen, prefsWrite);
      item == OpenFile && t.file.Some? && t.file.value in t.disk && r == ReadOk ==>
        u.text == Normalized(t.disk[t.file.value].content)
        && u.lastReadOrWrite == LastModified(t.disk, t.file.value)
  {
    var t := ShowOpenSaveDialog(s, chosen, prefsWrite);
    match item
    case SaveAs => WriteToFile(t, w)
    case OpenFile => LoadFromFile(t, r)
  }

  /** start: read the prefs, then load the stored file when the prefs named one. */
  function Start(disk: Disk, home: string, prefsRead: ReadOutcome, r: ReadOutcome): (u: Session)
    ensures var f := Prefs.Load(disk, PrefsPath(home), prefsRead, ""); u.filename == f && (u.file.Some? <==> f != "")
    ensures Consistent(u) && !u.stop && u.disk == disk && u.prefsPath == PrefsPath(home)
  {
    var s := LoadPrefs(Session(None, "", false, 0, "", disk, PrefsPath(home), false), prefsRead);
    if s.filename != "" then LoadFromFile(s.(file := Some(s.filename)), r) else s
  }

  /** Nothing left to do: no pending edit and no newer file on disk. */
  predicate Quiescent(s: Session)
  {
    !s.dirty && !DiskIsNewer(s)
  }

  /** The selected file is the one `filename` names. */
  predicate Consistent(s: Session)
  {
    s.file.Some? ==> s.filename == s.file.value
  }

  // ---------------------------------------------------------------------------
  // The text listener

  /** Setting the text replaces it, and marks the content dirty if and only if it changed (or already was). */
  lemma SetTextMarksDirty(s: Session, t: string)
    ensures SetText(s, t).text == t
    ensures SetText(s, t).dirty <==> s.dirty || t != s.text
    ensures SetText(s, t) == s.(text := t, dirty := SetText(s, t).dirty)
  {
  }

  // ---------------------------------------------------------------------------
  // The polling loop

  /**
   * Priority: with the flag set, the iteration clears it and writes the
   * buffer; it never reloads, even when the file on disk is newer.
   */
  lemma TickWritesFirst(s: Session, w: WriteOutcome, r: ReadOutcome)
    requires s.dirty
    ensures var t := Tick(s, w, r);
      && !t.dirty
      && t.text == s.text && t.file == s.file && t.filename == s.filename && t.stop == s.stop
      && (s.file.Some? && w.Written? ==>
            t.disk == s.disk[s.file.value := FileEntry(s.text, w.mtime)] && t.lastReadOrWrite == w.mtime)
      && (s.file.None? || w.WriteFailed? ==> t.disk == s.disk && t.lastReadOrWrite == s.lastReadOrWrite)
  {
  }

  /**
   * With the flag clear, a newer file is reloaded: the text becomes the
   * normalised content, the cache its stamp, and the flag is raised exactly
   * when the text changed.
   */
  lemma TickReloadsNewer(s: Session, w: WriteOutcome)
    requires !s.dirty && DiskIsNewer(s) && s.file.value in s.disk
    ensures var t := Tick(s, w, ReadOk); var e := s.disk[s.file.value];
      && t.text == Normalized(e.content)
      && t.lastReadOrWrite == e.mtime
      && t.dirty == (Normalized(e.content) != s.text)
      && t.disk == s.disk && t.file == s.file && t.filename == s.filename
  {
  }

  /**
   * An iteration changes nothing exactly when the flag is clear and there is
   * no newer file it can read (none, missing, or the read fails).
   */
  lemma TickNoOp(s: Session, w: WriteOutcome, r: ReadOutcome)
    ensures Tick(s, w, r) == s <==>
      !s.dirty && (!DiskIsNewer(s) || s.file.value !in s.disk || r.ReadFailed?)
  {
  }

  /** A failed read changes nothing, so the still-newer file is tried again on the next iteration. */
  lemma TickReadFailureRetries(s: Session, w: WriteOutcome)
    requires !s.dirty && DiskIsNewer(s)
    ensures Tick(s, w, ReadFailed) == s && DiskIsNewer(Tick(s, w, ReadFailed))
  {
  }

  /**
   * The flag is cleared before the write: a failed write is not retried, and
   * a newer file then reloads over the unsaved edit on the next iteration.
   */
  lemma FailedWriteIsNotRetried(s: Session, e: IoError, w: WriteOutcome, r: ReadOutcome)
    requires s.dirty && DiskIsNewer(s) && s.file.value in s.disk
    ensures var t := Tick(s, WriteFailed(e), r);
      !t.dirty && t.text == s.text
      && Tick(t, w, ReadOk).text == Normalized(s.disk[s.file.value].content)
  {
  }

  /**
   * A reload that changes the text raises the flag, so the next iteration
   * writes the normalised content back; after that nothing is left to do.
   */
  lemma ReloadCausesWriteBack(s: Session, w: WriteOutcome, m: int, r: ReadOutcome)
    requires !s.dirty && DiskIsNewer(s) && s.file.value in s.disk
    requires Normalized(s.disk[s.file.value].content) != s.text
    ensures var t := Tick(s, w, ReadOk);
      t.dirty
      && var u := Tick(t, Written(m), r);
      && u.disk == s.disk[s.file.value := FileEntry(Normalized(s.disk[s.file.value].content), m)]
      && u.text == t.text
      && Quiescent(u)
  {
  }

  /** A successful write leaves nothing to do. */
  lemma WriteLeavesQuiescent(s: Session, m: int, r: ReadOutcome)
    requires s.dirty && s.file.Some?
    ensures Quiescent(Tick(s, Written(m), r))
    ensures LastModified(Tick(s, Written(m), r).disk, s.file.value) == Tick(s, Written(m), r).lastReadOrWrite
  {
  }

  /**
   * With every I/O succeeding and the selected file present, two iterations
   * reach a state with nothing left to do.
   */
  lemma ConvergesWithinTwoTicks(s: Session, m1: int, m2: int)
    requires s.file.Some? ==> s.file.value in s.disk
    ensures Quiescent(Tick(Tick(s, Written(m1), ReadOk), Written(m2), ReadOk))
  {
    if !s.dirty && DiskIsNewer(s) {
      var t := Tick(s, Written(m1), ReadOk);
      if !t.dirty {
        assert t.lastReadOrWrite == LastModified(t.disk, s.file.value);
      }
    }
  }

  /** Once nothing is left to do, the loop stays idle whatever the I/O would do. */
  lemma {:induction false} QuiescentRunIsIdle(s: Session, io: seq<TickIo>)
    requires Quiescent(s)
    ensures Run(s, io) == s
    decreases |io|
  {
    if !s.stop && io != [] {
      assert Tick(s, io[0].write, io[0].read) == s;
      QuiescentRunIsIdle(s, io[1..]);
    }
  }

  /** After finish the loop body never runs again. */
  lemma FinishStopsLoop(s: Session, io: seq<TickIo>)
    ensures Run(Finish(s), io) == Finish(s)
  {
  }

  /** A loop iteration never changes the selection or the stop flag. */
  lemma {:induction false} RunKeepsSelection(s: Session, io: seq<TickIo>)
    ensures Run(s, io).file == s.file && Run(s, io).filename == s.filename
    ensures Run(s, io).stop == s.stop && Run(s, io).prefsPath == s.prefsPath
    decreases |io|
  {
    if !s.stop && io != [] {
      RunKeepsSelection(Tick(s, io[0].write, io[0].read), io[1..]);
    }
  }

  /**
   * An external program replaces the file with a normal text (such as
   * "hello world\n") and a newer stamp: the next iteration shows that text.
   */
  lemma ExternalEditIsLoaded(s: Session, p: Path, content: string, mtime: int, w: WriteOutcome)
    requires s.file == Some(p) && !s.dirty && s.lastReadOrWrite < mtime && IsNormal(content)
    ensures Tick(s.(disk := s.disk[p := FileEntry(content, mtime)]), w, ReadOk).text == content
  {
    NormalizedFixpoint(content);
  }

  // ---------------------------------------------------------------------------
  // File selection

  /** A cancelled dialog changes nothing, and the menu still writes or loads the current file. */
  lemma CancelledDialog(s: Session, pw: WriteOutcome, w: WriteOutcome, r: ReadOutcome)
    ensures ShowOpenSaveDialog(s, None, pw) == s
    ensures HandleMenu(s, SaveAs, None, pw, w, r) == WriteToFile(s, w)
    ensures HandleMenu(s, OpenFile, None, pw, w, r) == LoadFromFile(s, r)
  {
  }

  /**
   * A chosen file becomes the selected file and the filename whatever happens
   * to the prefs write, which is caught. A failed prefs write leaves the disk
   * as it was; a successful one records a terminator-free path, and loading
   * the prefs back yields it trimmed. The text, flag and cached stamp are
   * untouched (the stamp is not reset).
   */
  lemma ChosenFileIsRecorded(s: Session, p: Path, pw: WriteOutcome, current: string)
    ensures var t := ShowOpenSaveDialog(s, Some(p), pw);
      && t.file == Some(p) && t.filename == p
      && t.text == s.text && t.dirty == s.dirty && t.lastReadOrWrite == s.lastReadOrWrite
      && t.stop == s.stop && t.prefsPath == s.prefsPath
      && (pw.WriteFailed? ==> t.disk == s.disk)
      && (NoBreaks(p) && pw.Written? ==> Prefs.Load(t.disk, t.prefsPath, ReadOk, current) == Prefs.Trim(p))
  {
    if NoBreaks(p) && pw.Written? {
      Prefs.SaveThenLoad(s.disk, s.prefsPath, p, pw.mtime, current);
    }
  }

  // ---------------------------------------------------------------------------
  // Startup

  /**
   * At startup the stored file is selected and loaded exactly when the prefs
   * yield a non-empty filename; otherwise the editor is empty and clean.
   */
  lemma StartSelectsStoredFile(disk: Disk, home: string, pr: ReadOutcome, r: ReadOutcome)
    ensures var s := Start(disk, home, pr, r); var f := Prefs.Load(disk, PrefsPath(home), pr, "");
      && s.filename == f && (s.file.Some? <==> f != "") && (f != "" ==> s.file == Some(f))
      && s.disk == disk && !s.stop && Consistent(s)
      && (f == "" ==> s.text == "" && !s.dirty && s.lastReadOrWrite == 0)
  {
  }

  /**
   * Loading the stored file at startup goes through the listener: the content
   * is marked dirty when it is not empty, and the first iteration writes it back.
   */
  lemma StartLoadsStoredFile(disk: Disk, home: string, pr: ReadOutcome)
    requires Prefs.Load(disk, PrefsPath(home), pr, "") in disk
    requires Prefs.Load(disk, PrefsPath(home), pr, "") != ""
    ensures var s := Start(disk, home, pr, ReadOk); var e := disk[s.filename];
      && s.text == Normalized(e.content) && s.lastReadOrWrite == e.mtime
      && s.dirty == (s.text != "")
  {
  }

  /** A stored filename whose file is missing: the load fails silently, the editor stays empty and clean. */
  lemma StartWithMissingFile(disk: Disk, home: string, pr: ReadOutcome, r: ReadOutcome)
    requires Prefs.Load(disk, PrefsPath(home), pr, "") !in disk
    ensures var s := Start(disk, home, pr, r);
      s.text == "" && !s.dirty && s.lastReadOrWrite == 0 && Quiescent(s)
  {
  }

  // ---------------------------------------------------------------------------
  // The selected file and the filename agree

  /** Editing and the polling loop keep the selection consistent. */
  lemma ConsistentPreservedByLoop(s: Session, t: string, w: WriteOutcome, r: ReadOutcome, io: seq<TickIo>)
    requires Consistent(s)
    ensures Consistent(SetText(s, t)) && Consistent(Tick(s, w, r)) && Consistent(Run(s, io))
  {
    RunKeepsSelection(s, io);
  }

  /** The menu keeps the selection consistent. */
  lemma ConsistentPreservedByMenu(s: Session, item: MenuItem, chosen: Option<Path>,
                                  pw: WriteOutcome, w: WriteOutcome, r: ReadOutcome)
    requires Consistent(s)
    ensures Consistent(ShowOpenSaveDialog(s, chosen, pw))
    ensures Consistent(HandleMenu(s, item, chosen, pw, w, r))
  {
    var t := ShowOpenSaveDialog(s, chosen, pw);
    assert t.file == (if chosen.Some? then chosen else s.file);
    assert t.filename == (if chosen.Some? then chosen.value else s.filename);
  }
}
