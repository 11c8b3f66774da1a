/**
 * The state of the Swing editor (Editor) as a value, and what each of its
 * operations does to it. Unlike the notepad it has no dirty flag and no
 * polling thread: its pane is written and loaded only from the menu and at
 * construction, and its sync hooks are stubs.
 */
module EditorModel {
  import opened Wrappers
  import opened FileSystem
  import opened LineReader
  import Prefs
  import opened Reconciler
  import opened Menu

  const PreferenceFileName: string := ".simple-editor"

  /** The prefs file in the user's home directory. */
  function PrefsPath(home: string): Path
  {
    home + "/" + PreferenceFileName
  }

  /** The editor's fields, the pane's text and the disk. */
  datatype EditorState = EditorState(
    file: Option<Path>,
    filename: string,
    lastWrite: int,
    text: string,
    disk: Disk,
    prefsPath: Path)

  /**
   * writeToFile: only the disk and the cached stamp can change. Without a file,
   * or when the write throws, nothing changes; after a successful write the
   * file holds the pane's text and the cache equals its stamp.
   */
  function WriteToFile(s: EditorState, w: WriteOutcome): (u: EditorState)
    ensures u == s.(disk := u.disk, lastWrite := u.lastWrite)
    ensures s.file.None? || w.WriteFailed? ==> u == s
    ensures s.file.Some? && w.Written? ==>
      Read(u.disk, s.file.value, ReadOk) == Success(s.text) && u.lastWrite == LastModified(u.disk, s.file.value)
  {
    var (d, stamp) := WriteBack(s.file, s.text, s.disk, s.lastWrite, w);
    s.(disk := d, lastWrite := stamp)
  }

  /** loadFromFile: the stamp is cached, then the pane's text is set (no listener). */
  function LoadFromFile(s: EditorState, r: ReadOutcome): (u: EditorState)
    ensures u == s.(text := u.text, lastWrite := u.lastWrite)
    ensures s.file.None? || s.file.value !in s.disk || r.ReadFailed? ==> u == s
    ensures s.file.Some? && s.file.value in s.disk && r == ReadOk ==>
      u.text == Normalized(s.disk[s.file.value].content) && u.lastWrite == LastModified(s.disk, s.file.value)
  {
    match Reload(s.file, s.disk, r)
    case None => s
    case Some((t, stamp)) => s.(lastWrite := stamp).(text := t)
  }

  /** loadPrefs: only the filename can change, and not when the prefs file is missing or unreadable. */
  function LoadPrefs(s: EditorState, r: ReadOutcome): (u: EditorState)
    ensures u == s.(filename := u.filename)
    ensures s.prefsPath !in s.disk || r.ReadFailed? ==> u == s
  {
    s.(filename := Prefs.Load(s.disk, s.prefsPath, r, s.filename))
  }

  /** savePrefs: only the disk can change; on success the prefs file holds the filename line. */
  function SavePrefs(s: EditorState, w: WriteOutcome): (u: EditorState)
    ensures u == s.(disk := u.disk)
    ensures w.WriteFailed? ==> u == s
    ensures w.Written? ==> Read(u.disk, s.prefsPath, ReadOk) == Success(Prefs.Serialize(s.filename))
  {
    s.(disk := Prefs.Save(s.disk, s.prefsPath, s.filename, w))
  }

  /** showOpenSaveDialog, given the selected file when the chooser was approved (None otherwise). */
  function ShowOpenSaveDialog(s: EditorState, approved: Option<Path>, prefsWrite: WriteOutcome): (u: EditorState)
    ensures approved.None? ==> u == s
    ensures approved.Some? ==>
      u.file == approved && u.filename == approved.value && u == s.(file := u.file, filename := u.filename, disk := u.disk)
    ensures prefsWrite.WriteFailed? ==> u.disk == s.disk
    ensures forall q :: q != s.prefsPath ==> (q in u.disk <==> q in s.disk) && (q in s.disk ==> u.disk[q] == s.disk[q])
  {
    match approved
    case None => s
    case Some(p) => SavePrefs(s.(file := Some(p), filename := p), prefsWrite)
  }

  /** actionPerformed: the dialog, then a write (Save as) or a load (Open file). */
  function ActionPerformed(s: EditorState, item: MenuItem, approved: Option<Path>, prefsWrite: WriteOutcome,
                           w: WriteOutcome, r: ReadOutcome): (u: EditorState)
    ensures u.file == (if approved.Some? then approved else s.file)
    ensures u.filename == (if approved.Some? then approved.value else s.filename)
    ensures u.prefsPath == s.prefsPath
    ensures item == SaveAs ==> u.text == s.text
    ensures item == SaveAs && u.file.Some? && w.Written? ==>
      Read(u.disk, u.file.value, ReadOk) == Success(s.text)
      && u.lastWrite == LastModified(u.disk, u.file.value)
    ensures var t := ShowOpenSaveDialog(s, approved, prefsWrite);
      item == OpenFile && t.file.Some? && t.file.value in t.disk && r == ReadOk ==>
        u.text == Normalized(t.disk[t.file.value].content)
        && u.lastWrite == LastModified(t.disk, t.file.value)
  {
    var t := ShowOpenSaveDialog(s, approved, prefsWrite);
    match item
    case SaveAs => WriteToFile(t, w)
    case OpenFile => LoadFromFile(t, r)
  }

  /** The constructor: read the prefs, then load the stored file when the prefs named one. */
  function Construct(disk: Disk, home: string, prefsRead: ReadOutcome, r: ReadOutcome): (u: EditorState)
    ensures var f := Prefs.Load(disk, PrefsPath(home), prefsRead, ""); u.filename == f && (u.file.Some? <==> f != "")
    ensures (u.file.Some? ==> u.file.value == u.filename) && u.disk == disk && u.prefsPath == PrefsPath(home)
  {
    var s := LoadPrefs(EditorState(None, "", 0, "", disk, PrefsPath(home)), prefsRead);
    if s.filename != "" then LoadFromFile(s.(file := Some(s.filename)), r) else s
  }

  /**
   * writeToFile does nothing without a file; on success the file holds the
   * pane's text and the cache equals the file's stamp; on failure nothing changes.
   */
  lemma WriteToFileEffect(s: EditorState, w: WriteOutcome)
    ensures s.file.None? || w.WriteFailed? ==> WriteToFile(s, w) == s
    ensures s.file.Some? && w.Written? ==>
      var t := WriteToFile(s, w); var p := s.file.value;
      && p in t.disk && t.disk[p].content == s.text
      && t.lastWrite == LastModified(t.disk, p) == w.mtime
      && t.text == s.text && t.file == s.file
  {
  }

  /**
   * loadFromFile sets the pane to the "\n"-joined lines and caches the stamp
   * when the file exists and is read; otherwise it changes nothing.
   */
  lemma LoadFromFileEffect(s: EditorState, r: ReadOutcome)
    ensures s.file.None? || s.file.value !in s.disk || r.ReadFailed? ==> LoadFromFile(s, r) == s
    ensures s.file.Some? && s.file.value in s.disk && r == ReadOk ==>
      var t := LoadFromFile(s, r); var e := s.disk[s.file.value];
      && t.text == Normalized(e.content) && t.lastWrite == e.mtime
      && t.disk == s.disk && t.file == s.file && t.filename == s.filename
  {
  }

  /** A dialog that is not approved changes nothing, and the menu still writes or loads the current file. */
  lemma UnapprovedDialog(s: EditorState, pw: WriteOutcome, w: WriteOutcome, r: ReadOutcome)
    ensures ShowOpenSaveDialog(s, None, pw) == s
    ensures ActionPerformed(s, SaveAs, None, pw, w, r) == WriteToFile(s, w)
    ensures ActionPerformed(s, OpenFile, None, pw, w, r) == LoadFromFile(s, r)
  {
  }

  /**
   * An approved dialog selects the file whatever happens to the prefs write; a
   * failed prefs write leaves the disk as it was, and a successful one records
   * a terminator-free path, to be read back trimmed.
   */
  lemma ApprovedFileIsRecorded(s: EditorState, p: Path, pw: WriteOutcome, current: string)
    ensures var t := ShowOpenSaveDialog(s, Some(p), pw);
      && t.file == Some(p) && t.filename == p
      && t.text == s.text && t.lastWrite == s.lastWrite && t.prefsPath == s.prefsPath
      && (pw.WriteFailed? ==> t.disk == s.disk)
      && (NoBreaks(p) && pw.Written? ==> Prefs.Load(t.disk, t.prefsPath, ReadOk, current) == Prefs.Trim(p))
  {
    if NoBreaks(p) && pw.Written? {
      Prefs.SaveThenLoad(s.disk, s.prefsPath, p, pw.mtime, current);
    }
  }

  /**
   * At construction the stored file is selected and loaded exactly when the
   * prefs yield a non-empty filename.
   */
  lemma ConstructLoadsStoredFile(disk: Disk, home: string, pr: ReadOutcome, r: ReadOutcome)
    ensures var s := Construct(disk, home, pr, r); var f := Prefs.Load(disk, PrefsPath(home), pr, "");
      && s.filename == f && (s.file.Some? <==> f != "") && (f != "" ==> s.file == Some(f))
      && s.disk == disk
      && (f == "" || f !in disk || r.ReadFailed? ==> s.text == "" && s.lastWrite == 0)
      && (f != "" && f in disk && r == ReadOk ==>
            s.text == Normalized(disk[f].content) && s.lastWrite == disk[f].mtime)
  {
  }
}
