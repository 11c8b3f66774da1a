# simple-notepad: the file/buffer bookkeeping, modelled and verified in Dafny

simple-notepad is a one-file-at-a-time desktop notepad. It comes in two
versions: a JavaFX one (`SimpleNotepad`) and an earlier Swing one (`Editor`).
The JavaFX notepad keeps one backing file in step with its text area. A
polling thread writes the text when the content is dirty. Otherwise it
reloads the file when the disk's time stamp is strictly newer than the one
it cached at its last read or write. A listener on the text marks the content
dirty whenever the text changes. A preference file remembers the last file
in one line, `filename: <path>`. The Swing editor shares the reconciler and
the preference code, but it has no dirty flag and no polling thread.

This project models that bookkeeping over an abstract disk. The disk is a map
from path to content and modification time. The environment decides each I/O
outcome, and these outcomes are explicit parameters: a write succeeds with a
given new time stamp or fails, and a read of an existing file succeeds or
fails. A missing file always reads as not found, and its `lastModified` is 0.

Modules:
- `Wrappers`: Option and Result.
- `FileSystem`: the disk, `lastModified`, whole-file writes and reads.
- `LineReader`: `BufferedReader.readLine` (`\n`, `\r` and `\r\n` end a line, and a
  last unterminated segment is still a line), and the text that `loadFromFile` builds
  from those lines by appending `"\n"` to each.
- `Prefs`: `String.trim`, the `filename: ` parser (the last matching line
  wins) and the one-line serialiser.
- `Menu`: the two context-menu commands.
- `Reconciler`: what `writeToFile` and `loadFromFile` do to the disk, the text and
  the cached stamp. Both editors share it.
- `NotepadModel`: the JavaFX notepad's state as a value, one function per
  operation, and the properties of the polling loop, the listener, the dialog
  and startup.
- `SimpleNotepad`: the class `Notepad`, whose fields are updated in place and
  whose methods are each proved equal to the `NotepadModel` function.
- `EditorModel`, `SwingEditor`: the same structure for the Swing editor.

Two consequences of the code are worth stating:
- A failed write is not retried: `compareAndSet` clears the dirty flag before
  `writeToFile` runs, so a newer file then reloads over the unsaved text
  (`NotepadModel.FailedWriteIsNotRetried`).
- Selecting a file does not reset the cached time stamp
  (`NotepadModel.ChosenFileIsRecorded`).

## Model

| member | source | states |
|---|---|---|
| LineReader.SplitLine | src/SimpleNotepad.java:303 | one `readLine` call: the line is the longest prefix with no `\n`/`\r`; the whole terminator is consumed, `\r\n` included; the rest of the input gets shorter |
| LineReader.ReadLine | src/SimpleNotepad.java:303 | `readLine` returns null exactly at the end of input |
| LineReader.Lines | src/SimpleNotepad.java:303 | no line that `readLine` returns contains a terminator |
| LineReader.Join | src/SimpleNotepad.java:300-304 | appending each line and `"\n"` gives a text that ends in `"\n"` when there was a line, and holds no `\r` when the lines held none |
| LineReader.ReadJoined | src/SimpleNotepad.java:300-305 | the `readLine` loop builds exactly the normalised content (`Normalized`) |
| LineReader.LinesStep | src/SimpleNotepad.java:303-304 | one loop iteration consumes the first remaining line |
| LineReader.NormalizedStep | src/SimpleNotepad.java:303-304 | one loop iteration appends that line and `"\n"` |
| LineReader.NoBreaksConcat | src/SimpleNotepad.java:220 | joining two texts without terminators gives a text without terminators |
| LineReader.SplitTerminated | src/SimpleNotepad.java:303 | a terminator-free line followed by `"\n"` is read back as that line, with the rest left over |
| LineReader.LinesOfUnterminated | src/SimpleNotepad.java:303 | a non-empty text without terminators is read as one line |
| LineReader.LinesOfJoin | src/SimpleNotepad.java:300-304 | reading a joined text gives back the lines it was joined from |
| LineReader.NormalizedIsNormal | src/SimpleNotepad.java:300-304 | loaded text is empty or ends in `"\n"`, and contains no `"\r"` |
| LineReader.NormalizedIdempotent | src/SimpleNotepad.java:300-304 | normalising a loaded text returns it unchanged |
| LineReader.NormalizedFixpoint | src/SimpleNotepad.java:300-304 | a text survives normalisation unchanged if and only if it has that normal shape |
| Prefs.SkipSpaces | src/SimpleNotepad.java:200 | the first non-space index at or after `lo`, where "space" means every char `<= ' '` as `trim` defines it |
| Prefs.DropTrailingSpaces | src/SimpleNotepad.java:200 | the end of the range without its trailing chars `<= ' '` |
| Prefs.Trim | src/SimpleNotepad.java:200 | `String.trim`: no leading or trailing char `<= ' '`; all-space text trims to empty; already-trimmed text is unchanged |
| Prefs.TrimIsSubstring | src/SimpleNotepad.java:200 | `trim` returns a substring of its input with only chars `<= ' '` outside it |
| Prefs.TrimCharacterized | src/SimpleNotepad.java:200 | any range with only chars `<= ' '` outside it and none at its ends is exactly the substring `trim` returns |
| Prefs.TrimIdempotent | src/SimpleNotepad.java:200 | trimming twice is trimming once |
| Prefs.IsFilenameLine | src/SimpleNotepad.java:199 | a line passing `startsWith("filename: ")` is the key followed by the rest of the line |
| Prefs.FilenameOf | src/SimpleNotepad.java:200 | the name taken from a filename line is no longer than the text after the key and has no leading or trailing char `<= ' '` |
| Prefs.LastFilename | src/SimpleNotepad.java:198-202 | the filename after the read loop is the one it started with, or a trimmed name |
| Prefs.LastFilenameFromSomeLine | src/SimpleNotepad.java:198-202 | the filename after the read loop is the one it started with, or the name on one of the filename lines |
| Prefs.NoFilenameLineKeepsCurrent | src/SimpleNotepad.java:198-202 | lines without the `filename: ` prefix leave the filename unchanged |
| Prefs.LastFilenameLineWins | src/SimpleNotepad.java:198-202 | the last line starting with `filename: ` decides; its remainder is trimmed |
| Prefs.ScanPrefs | src/SimpleNotepad.java:195-203 | the `loadPrefs` read loop yields the last-line-wins filename |
| Prefs.LoadWithoutPrefs | src/SimpleNotepad.java:190-208 | a missing or unreadable prefs file leaves `filename` unchanged |
| Prefs.Load | src/SimpleNotepad.java:190-208 | `loadPrefs`: a missing or unreadable prefs file leaves the filename as it was; a readable one yields the last-line-wins filename of its lines |
| Prefs.Serialize | src/SimpleNotepad.java:220 | what `savePrefs` writes is a filename line whose text after the key is the filename |
| Prefs.Save | src/SimpleNotepad.java:214-226 | `savePrefs`: a failed write leaves the disk as it was; a successful one leaves the prefs file reading as the serialised line, stamped with the write's time, and no other file changed |
| Prefs.KeyLine | src/SimpleNotepad.java:199-200 | the line `filename: f` names `trim(f)` |
| Prefs.SerializedRoundTrip | src/SimpleNotepad.java:220 | what `savePrefs` writes is one line, parsed back as `trim(filename)` |
| Prefs.SaveThenLoad | src/SimpleNotepad.java:190-226 | after a successful `savePrefs`, `loadPrefs` yields `trim(filename)` |
| Prefs.SaveThenLoadSplitsLines | src/SimpleNotepad.java:198-220 | a saved filename with `"\n"` followed by a filename line loads as the second name, so the round trip needs a terminator-free path |
| Prefs.SerializedTwoLines | src/SimpleNotepad.java:198-220 | such a saved record reads as two filename lines |
| Prefs.LastOfTwoLines | src/SimpleNotepad.java:198-202 | of two filename lines, the second wins |
| FileSystem.LastModified | src/SimpleNotepad.java:280 | `File.lastModified`: the file's stamp, and 0 for a file that does not exist |
| FileSystem.Write | src/SimpleNotepad.java:277-279 | a `FileWriter` writing and closing: it succeeds exactly when the environment lets it; then the file holds exactly the content with the given stamp and no other file changes; otherwise the environment's error is reported |
| FileSystem.Read | src/SimpleNotepad.java:300-305 | a `FileReader`: it succeeds exactly when the file exists and the environment lets it, with the file's content; a missing file is `FileNotFoundException`, anything else an `IOException` |
| FileSystem.WriteThenRead | src/SimpleNotepad.java:277-280 | a successful write is all that the next read sees, `lastModified` is its stamp, and no other file changes |
| FileSystem.MissingFileNotFound | src/SimpleNotepad.java:300 | a missing file reads as not found, and its `lastModified` is 0 |
| Reconciler.WriteBack | src/SimpleNotepad.java:271-288 | `writeToFile`: with no file or a failed write, disk and cached stamp stay as they were; after a successful write the file reads back as the buffer and the cached stamp is the file's |
| Reconciler.Reload | src/SimpleNotepad.java:294-315 | `loadFromFile`: a result exists exactly when a file is selected, exists and can be read; it is the normalised content, with no `\r` and ending in `\n` unless empty, and the file's stamp |
| Reconciler.NoFileNoEffect | src/SimpleNotepad.java:272-295 | with no file selected, neither the write nor the load does anything |
| Reconciler.WriteBackSucceeds | src/SimpleNotepad.java:276-280 | a successful write stores exactly the buffer, changes no other file, and caches the file's new stamp |
| Reconciler.WriteBackFails | src/SimpleNotepad.java:281-287 | a failed write leaves the cached stamp unchanged |
| Reconciler.ReloadResult | src/SimpleNotepad.java:299-314 | a load succeeds if and only if the file exists and can be read; it then gives the normalised content and the file's stamp |
| Reconciler.WriteThenReload | src/SimpleNotepad.java:271-315 | writing then loading gives the buffer normalised, which equals the buffer exactly when the buffer is normal |
| NotepadModel.SetText | src/SimpleNotepad.java:140-146 | the text is replaced; the dirty flag is set when the text changed and kept otherwise; nothing else changes |
| NotepadModel.WriteToFile | src/SimpleNotepad.java:271-288 | only the disk and the cached stamp can change; with no file or a failed write nothing changes; after a successful write the file holds the text and the cached stamp is the file's new stamp |
| NotepadModel.LoadFromFile | src/SimpleNotepad.java:294-315 | only the text, the dirty flag and the stamp can change; with no file, a missing file or a failed read nothing changes; after a successful read the text is the normalised content, the cached stamp is the file's stamp, and the flag is set when the text changed |
| NotepadModel.Tick | src/SimpleNotepad.java:76-85 | one iteration never changes the selection or the stop flag, changes nothing from a quiescent state, and a successful write of a dirty buffer leaves a quiescent state |
| NotepadModel.Finish | src/SimpleNotepad.java:95-97 | `finish` sets the stop flag and changes nothing else |
| NotepadModel.Run | src/SimpleNotepad.java:73-93 | the `while(!stop)` loop never changes the selection or the stop flag, and changes nothing once stopped or quiescent |
| NotepadModel.LoadPrefs | src/SimpleNotepad.java:190-208 | only the filename can change, and not when the prefs file is missing or unreadable |
| NotepadModel.SavePrefs | src/SimpleNotepad.java:214-226 | only the disk can change; a failed write changes nothing; a successful one leaves the prefs file holding the filename line |
| NotepadModel.ShowOpenSaveDialog | src/SimpleNotepad.java:249-266 | a cancelled dialog changes nothing; a chosen file becomes `file` and `filename`, and only the prefs file can change too; a failed prefs write leaves the disk as it was |
| NotepadModel.HandleMenu | src/SimpleNotepad.java:50-58 | a chosen file becomes the selection and a cancelled dialog keeps it; the stop flag is untouched; Save as leaves the text and flag as they were, and after a successful write the selected (possibly just chosen) file holds the text and its stamp is cached; Open file on a present, readable selected file shows its normalised content and caches its stamp |
| NotepadModel.Start | src/SimpleNotepad.java:107-127 | the prefs decide the filename; a file is selected exactly when it is non-empty, and it is the one `filename` names; the disk is untouched and the loop is not stopped |
| NotepadModel.SetTextMarksDirty | src/SimpleNotepad.java:140-146 | setting the text marks it dirty if and only if it changed, unless it was dirty already; nothing else changes |
| NotepadModel.TickWritesFirst | src/SimpleNotepad.java:76-85 | with the flag set, a tick clears it and writes; it does not reload even when the disk is newer, and the stamp follows the write |
| NotepadModel.TickReloadsNewer | src/SimpleNotepad.java:81-84 | with the flag clear and a strictly newer file, a tick loads the normalised content and caches its stamp; the flag is set exactly when the text changed |
| NotepadModel.TickNoOp | src/SimpleNotepad.java:76-85 | a tick changes nothing if and only if the flag is clear and no newer, readable file exists |
| NotepadModel.TickReadFailureRetries | src/SimpleNotepad.java:308-314 | a failed read leaves the buffer and stamp unchanged, so the reload condition still holds |
| NotepadModel.FailedWriteIsNotRetried | src/SimpleNotepad.java:76-78 | the flag is false after a failed write, and the next tick reloads a newer file over the unsaved text |
| NotepadModel.ReloadCausesWriteBack | src/SimpleNotepad.java:76-84 | a reload that changes the text sets the flag; the next tick writes the normalised content back, after which nothing is left to do |
| NotepadModel.WriteLeavesQuiescent | src/SimpleNotepad.java:276-280 | after a successful write the cached stamp equals the file's, and the next tick has nothing to do |
| NotepadModel.ConvergesWithinTwoTicks | src/SimpleNotepad.java:74-92 | with every I/O succeeding, two ticks reach a state with nothing left to do |
| NotepadModel.QuiescentRunIsIdle | src/SimpleNotepad.java:74-92 | from such a state, any number of ticks changes nothing |
| NotepadModel.FinishStopsLoop | src/SimpleNotepad.java:95-97 | after `finish` the loop body never runs again |
| NotepadModel.RunKeepsSelection | src/SimpleNotepad.java:74-92 | the loop never changes the selected file, the filename or the stop flag |
| NotepadModel.ExternalEditIsLoaded | src/SimpleNotepad.java:81-84 | an external change to a normal text with a newer stamp appears in the editor after one tick |
| NotepadModel.CancelledDialog | src/SimpleNotepad.java:50-57 | a cancelled dialog changes nothing; Save as still writes, and Open file still loads, the current file |
| NotepadModel.ChosenFileIsRecorded | src/SimpleNotepad.java:214-265 | a chosen file sets `file` and `filename` whatever the prefs write does; a failed prefs write leaves the disk as it was; a successful one of a terminator-free path reads back trimmed; the buffer, flag and stamp are untouched |
| NotepadModel.StartSelectsStoredFile | src/SimpleNotepad.java:107-127 | at startup a file is selected if and only if the prefs yield a non-empty filename; otherwise the editor is empty and clean |
| NotepadModel.StartLoadsStoredFile | src/SimpleNotepad.java:117-124 | the startup load goes through the listener: a non-empty loaded text is dirty, so the first tick writes it back |
| NotepadModel.StartWithMissingFile | src/SimpleNotepad.java:120-124 | a stored filename whose file is missing leaves the buffer empty, the stamp 0 and nothing to do |
| NotepadModel.ConsistentPreservedByLoop | src/SimpleNotepad.java:74-92 | editing and ticking keep `filename` naming the selected file |
| NotepadModel.ConsistentPreservedByMenu | src/SimpleNotepad.java:50-57 | the menu keeps `filename` naming the selected file |
| SimpleNotepad.Notepad.constructor | src/SimpleNotepad.java:107-127 | `start`, as `NotepadModel.Start` |
| SimpleNotepad.Notepad.SetText | src/SimpleNotepad.java:140-146 | the text listener, as `NotepadModel.SetText` |
| SimpleNotepad.Notepad.WriteToFile | src/SimpleNotepad.java:271-288 | `writeToFile`, as `NotepadModel.WriteToFile` |
| SimpleNotepad.Notepad.LoadFromFile | src/SimpleNotepad.java:294-315 | `loadFromFile`, including its read loop, as `NotepadModel.LoadFromFile` |
| SimpleNotepad.Notepad.Tick | src/SimpleNotepad.java:76-85 | one loop body, as `NotepadModel.Tick` |
| SimpleNotepad.Notepad.Run | src/SimpleNotepad.java:73-93 | the `while(!stop)` loop, as `NotepadModel.Run` |
| SimpleNotepad.Notepad.Finish | src/SimpleNotepad.java:95-97 | `finish` sets `stop` |
| SimpleNotepad.Notepad.LoadPrefs | src/SimpleNotepad.java:190-208 | `loadPrefs`, as `NotepadModel.LoadPrefs` |
| SimpleNotepad.Notepad.SavePrefs | src/SimpleNotepad.java:214-226 | `savePrefs`, as `NotepadModel.SavePrefs` |
| SimpleNotepad.Notepad.ShowOpenSaveDialog | src/SimpleNotepad.java:249-266 | `showOpenSaveDialog`, as `NotepadModel.ShowOpenSaveDialog` |
| SimpleNotepad.Notepad.HandleMenu | src/SimpleNotepad.java:50-58 | `MenuClickListener.handle`, as `NotepadModel.HandleMenu` |
| EditorModel.WriteToFile | src/Editor.java:150-165 | only the disk and `lastWrite` can change; with no file or a failed write nothing changes; after a successful write the file holds the pane text and `lastWrite` is its stamp |
| EditorModel.LoadFromFile | src/Editor.java:167-186 | only the pane text and `lastWrite` can change; with no file, a missing file or a failed read nothing changes; otherwise the text is the normalised content and `lastWrite` the file's stamp |
| EditorModel.LoadPrefs | src/Editor.java:94-111 | only the filename can change, and not when the prefs file is missing or unreadable |
| EditorModel.SavePrefs | src/Editor.java:113-124 | only the disk can change; a failed write changes nothing; a successful one leaves the prefs file holding the filename line |
| EditorModel.ShowOpenSaveDialog | src/Editor.java:134-148 | a dialog not approved changes nothing; an approved file becomes `file` and `filename`, and only the prefs file can change too; a failed prefs write leaves the disk as it was |
| EditorModel.ActionPerformed | src/Editor.java:200-209 | an approved file becomes the selection and otherwise it is kept; Save as leaves the pane text as it was, and after a successful write the selected (possibly just approved) file holds the text and `lastWrite` is its stamp; Open file on a present, readable selected file shows its normalised content and caches its stamp |
| EditorModel.Construct | src/Editor.java:43-57 | the prefs decide the filename; a file is selected exactly when it is non-empty, and it is the one `filename` names; the disk is untouched |
| EditorModel.WriteToFileEffect | src/Editor.java:150-165 | no-op without a file; on success the file holds the pane text and `lastWrite` equals its stamp; on failure nothing changes |
| EditorModel.LoadFromFileEffect | src/Editor.java:167-186 | on success the pane gets the `"\n"`-joined lines and `lastWrite` the stamp; a missing file or failed read changes nothing |
| EditorModel.UnapprovedDialog | src/Editor.java:143-209 | a dialog that is not approved changes nothing, and `actionPerformed` still writes or loads the current file |
| EditorModel.ApprovedFileIsRecorded | src/Editor.java:113-147 | an approved dialog sets `file` and `filename` whatever the prefs write does; a failed prefs write leaves the disk as it was; a successful one of a terminator-free path reads back trimmed |
| EditorModel.ConstructLoadsStoredFile | src/Editor.java:43-57 | the stored file is selected and loaded if and only if the prefs yield a non-empty filename |
| SwingEditor.Editor.constructor | src/Editor.java:43-57 | the constructor, as `EditorModel.Construct` |
| SwingEditor.Editor.LoadPrefs | src/Editor.java:94-111 | `loadPrefs`, as `EditorModel.LoadPrefs` |
| SwingEditor.Editor.SavePrefs | src/Editor.java:113-124 | `savePrefs`, as `EditorModel.SavePrefs` |
| SwingEditor.Editor.ShowOpenSaveDialog | src/Editor.java:134-148 | `showOpenSaveDialog`, as `EditorModel.ShowOpenSaveDialog` |
| SwingEditor.Editor.WriteToFile | src/Editor.java:150-165 | `writeToFile`, as `EditorModel.WriteToFile` |
| SwingEditor.Editor.LoadFromFile | src/Editor.java:167-186 | `loadFromFile`, including its read loop, as `EditorModel.LoadFromFile` |
| SwingEditor.Editor.FileIsNewer | src/Editor.java:188-190 | always false |
| SwingEditor.Editor.BufferNeedsWriting | src/Editor.java:192-194 | always false |
| SwingEditor.Editor.Sync | src/Editor.java:196-198 | has no effect |
| SwingEditor.Editor.ActionPerformed | src/Editor.java:200-209 | `actionPerformed`, as `EditorModel.ActionPerformed` |

## Left out

- The JavaFX and Swing user interface is not modelled: stages, panes, popup menus, mouse listeners and the file choosers. A dialog's result is an `Option<Path>` input. The open and save dialogs differ in which chooser is shown (`showOpenDialog` or `showSaveDialog`) and, in SimpleNotepad, in the chooser's title. The model takes the chooser's result as input, so one function covers both.
- The chosen file's `getAbsolutePath()` is taken to be the chosen path itself. The model treats a chooser's result as already absolute.
- Threads are not modelled: `AtomicBoolean` atomicity, the non-volatile `stop` field, `Thread.sleep` and the 500 ms interval, `Platform.setImplicitExit` and `System.exit`. The loop is modelled as sequential ticks, and edits or external changes happen between ticks. A change made between a load's read and its `lastModified` call is not modelled.
- Real file I/O is not modelled: charset decoding in `FileReader`, `BufferedWriter` buffering, and `System.getProperty("user.home")`. The home directory is a parameter, and `File.separator` is taken to be `/`.
- A failed write leaves the disk unchanged in this model. A real `FileWriter` may already have truncated the file.
- Prefs.Load: an `IOException` part-way through the prefs file would keep a filename assigned from the earlier lines. The model treats a prefs read failure as happening before any line is read.
- Logging to `System.err` is not modelled.
- NotepadModel.SetText: the text is stored exactly as given. JavaFX's `TextArea` filters what is inserted: it drops U+007F and every control character below U+0020 except `\n` and `\t`. For a file holding such a character, the text shown differs from the file, the listener marks it dirty, and the next write removes the character from the file. The model does not capture this. So `NotepadModel.ExternalEditIsLoaded`, `NotepadModel.TickReloadsNewer` and `NotepadModel.LoadFromFile` describe the text the editor shows only for content without those characters.
- `filename != ""` compares references in Java. It is modelled as a test for the empty string.
- File time stamps are unbounded integers. In Java they are `long` values, and they never wrap in practice.
