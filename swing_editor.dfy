/**
 * The Swing editor as a class whose methods update its fields in place,
 * each proved to do what EditorModel says. The editor pane's text is the
 * field `text`.
 */
module SwingEditor {
  import opened Wrappers
  import opened FileSystem
  import opened LineReader
  import Prefs
  import opened Reconciler
  import opened Menu
  import M = EditorModel

  class Editor {
    var file: Option<Path>
    var filename: string
    var lastWrite: int
    var text: string
    var disk: Disk
    const prefsPath: Path

    /** The editor's fields as a value. */
    function State(): M.EditorState
      reads this
    {
      M.EditorState(file, filename, lastWrite, text, disk, prefsPath)
    }

    /** The constructor: no file, empty filename, prefs loaded, then the stored file loaded if there is one. */
    constructor (disk0: Disk, home: string, prefsRead: ReadOutcome, r: ReadOutcome)
      ensures State() == M.Construct(disk0, home, prefsRead, r)
    {
      file := None;
      filename := "";
      lastWrite := 0;
      text := "";
      disk := disk0;
      prefsPath := M.PrefsPath(home);
      new;
      LoadPrefs(prefsRead);
      if filename != "" {
        file := Some(filename);
        LoadFromFile(r);
      }
    }

    /** loadPrefs. */
    method LoadPrefs(pr: ReadOutcome)
      modifies this
      ensures State() == M.LoadPrefs(old(State()), pr)
    {
      if prefsPath !in disk {
        return;
      }
      match Read(disk, prefsPath, pr)
      case Success(content) =>
        filename := Prefs.ScanPrefs(content, filename);
      case Failure(_) =>
    }

    /** savePrefs. */
    method SavePrefs(w: WriteOutcome)
      modifies this
      ensures State() == M.SavePrefs(old(State()), w)
    {
      match Write(disk, prefsPath, Prefs.Serialize(filename), w)
      case Success(d) =>
        disk := d;
      case Failure(_) =>
    }

    /** showOpenSaveDialog, given the selected file when the chooser was approved. */
    method ShowOpenSaveDialog(approved: Option<Path>, prefsWrite: WriteOutcome)
      modifies this
      ensures State() == M.ShowOpenSaveDialog(old(State()), approved, prefsWrite)
    {
      if approved.Some? {
        file := approved;
        filename := approved.value;
        SavePrefs(prefsWrite);
      }
    }

    /** writeToFile. */
    method WriteToFile(w: WriteOutcome)
      modifies this
      ensures State() == M.WriteToFile(old(State()), w)
    {
      if file.None? {
        return;
      }
      var p := file.value;
      match Write(disk, p, text, w)
      case Success(d) =>
        disk := d;
        lastWrite := LastModified(disk, p);
      case Failure(_) =>
    }

    /** loadFromFile. */
    method LoadFromFile(r: ReadOutcome)
      modifies this
      ensures State() == M.LoadFromFile(old(State()), r)
    {
      if file.None? {
        return;
      }
      var p := file.value;
      match Read(disk, p, r)
      case Success(content) =>
        var buffer := ReadJoined(content);
        lastWrite := LastModified(disk, p);
        text := buffer;
      case Failure(_) =>
    }

    /** fileIsNewer: a stub that always answers no. */
    function FileIsNewer(): (newer: bool)
      ensures !newer
    {
      false
    }

    /** bufferNeedsWriting: a stub that always answers no. */
    function BufferNeedsWriting(): (needed: bool)
      ensures !needed
    {
      false
    }

    /** sync: a stub with no effect. */
    method Sync()
      ensures State() == old(State())
    {
    }

    /** actionPerformed. */
    method ActionPerformed(item: MenuItem, approved: Option<Path>, prefsWrite: WriteOutcome,
                           w: WriteOutcome, r: ReadOutcome)
      modifies this
      ensures State() == M.ActionPerformed(old(State()), item, approved, prefsWrite, w, r)
    {
      match item
      case SaveAs =>
        ShowOpenSaveDialog(approved, prefsWrite);
        WriteToFile(w);
      case OpenFile =>
        ShowOpenSaveDialog(approved, prefsWrite);
        LoadFromFile(r);
    }
  }
}
