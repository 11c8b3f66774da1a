/**
 * The JavaFX notepad's bookkeeping as a class whose methods update its
 * fields in place, each proved to do what NotepadModel says. The editor
 * text area is the field `text`, the AtomicBoolean contentIsDirty is the
 * field `dirty`, and the polling thread's stop flag is the field `stop`.
 */
module SimpleNotepad {
  import opened Wrappers
  import opened FileSystem
  import opened LineReader
  import Prefs
  import opened Reconciler
  import opened Menu
  import M = NotepadModel

  class Notepad {
    var file: Option<Path>
    var filename: string
    var dirty: bool
    var lastReadOrWrite: int
    var text: string
    var disk: Disk
    const prefsPath: Path
    var stop: bool

    /** The notepad's fields as a value. */
    function State(): M.Session
      reads this
    {
      M.Session(file, filename, dirty, lastReadOrWrite, text, disk, prefsPath, stop)
    }

    /** start: no file, empty filename, prefs loaded, then the stored file loaded if there is one. */
    constructor (disk0: Disk, home: string, prefsRead: ReadOutcome, r: ReadOutcome)
      ensures State() == M.Start(disk0, home, prefsRead, r)
    {
      file := None;
      filename := "";
      dirty := false;
      lastReadOrWrite := 0;
      text := "";
      disk := disk0;
      prefsPath := M.PrefsPath(home);
      stop := false;
      new;
      LoadPrefs(prefsRead);
      if filename != "" {
        file := Some(filename);
        LoadFromFile(r);
      }
    }

    /** The text area's text replaced, with the change listener run on the old and new value. */
    method SetText(t: string)
      modifies this
      ensures State() == M.SetText(old(State()), t)
    {
      var oldValue := text;
      text := t;
      if t != oldValue {
        dirty := true;
      }
    }

    /** writeToFile. */
    method WriteToFile(w: WriteOutcome)
      modifies this
      ensures State() == M.WriteToFile(old(State()), w)
    {
      if file.None? {
        return;
      }
      var p := file.value;
      match Write(disk, p, text, w)
      case Success(d) =>
        disk := d;
        lastReadOrWrite := LastModified(disk, p);
      case Failure(_) =>
    }

    /** loadFromFile. */
    method LoadFromFile(r: ReadOutcome)
      modifies this
      ensures State() == M.LoadFromFile(old(State()), r)
    {
      if file.None? {
        return;
      }
      var p := file.value;
      match Read(disk, p, r)
      case Success(content) =>
        var buffer := ReadJoined(content);
        lastReadOrWrite := LastModified(disk, p);
        SetText(buffer);
      case Failure(_) =>
    }

    /** One iteration of PollingThread.run's loop body. */
    method Tick(w: WriteOutcome, r: ReadOutcome)
      modifies this
      ensures State() == M.Tick(old(State()), w, r)
    {
      if dirty {
        dirty := false;
        WriteToFile(w);
      } else if file.Some? && LastModified(disk, file.value) > lastReadOrWrite {
        LoadFromFile(r);
      }
    }

    /** PollingThread.run: iterate while not stopped, for as many iterations as `io` supplies outcomes. */
    method Run(io: seq<M.TickIo>)
      modifies this
      ensures State() == M.Run(old(State()), io)
    {
      var i := 0;
      while !stop && i < |io|
        invariant 0 <= i <= |io|
        invariant M.Run(State(), io[i..]) == M.Run(old(State()), io)
      {
        assert io[i..][1..] == io[i + 1..];
        Tick(io[i].write, io[i].read);
        i := i + 1;
      }
    }

    /** PollingThread.finish. */
    method Finish()
      modifies this
      ensures State() == M.Finish(old(State()))
    {
      stop := true;
    }

    /** loadPrefs. */
    method LoadPrefs(pr: ReadOutcome)
      modifies this
      ensures State() == M.LoadPrefs(old(State()), pr)
    {
      if prefsPath !in disk {
        return;
      }
      match Read(disk, prefsPath, pr)
      case Success(content) =>
        filename := Prefs.ScanPrefs(content, filename);
      case Failure(_) =>
    }

    /** savePrefs. */
    method SavePrefs(w: WriteOutcome)
      modifies this
      ensures State() == M.SavePrefs(old(State()), w)
    {
      match Write(disk, prefsPath, Prefs.Serialize(filename), w)
      case Success(d) =>
        disk := d;
      case Failure(_) =>
    }

    /** showOpenSaveDialog, given what the chooser returned. */
    method ShowOpenSaveDialog(chosen: Option<Path>, prefsWrite: WriteOutcome)
      modifies this
      ensures State() == M.ShowOpenSaveDialog(old(State()), chosen, prefsWrite)
    {
      if chosen.Some? {
        file := chosen;
        filename := chosen.value;
        SavePrefs(prefsWrite);
      }
    }

    /** MenuClickListener.handle. */
    method HandleMenu(item: MenuItem, chosen: Option<Path>, prefsWrite: WriteOutcome,
                      w: WriteOutcome, r: ReadOutcome)
      modifies this
      ensures State() == M.HandleMenu(old(State()), item, chosen, prefsWrite, w, r)
    {
      match item
      case SaveAs =>
        ShowOpenSaveDialog(chosen, prefsWrite);
        WriteToFile(w);
      case OpenFile =>
        ShowOpenSaveDialog(chosen, prefsWrite);
        LoadFromFile(r);
    }
  }
}
