/**
 * The preference record: a file whose one recognised line is
 * "filename: <path>". Loading reads it line by line; the last line that
 * starts with the key wins and its remainder is trimmed as String.trim does.
 * Saving writes the single line, without a terminator.
 */
module Prefs {
  import opened Wrappers
  import opened FileSystem
  import opened LineReader

  const Key: string := "filename: "

  /** The characters String.trim strips: every code point up to and including ' '. */
  predicate IsSpace(c: char)
  {
    c <= ' '
  }

  /** The index of the first non-space character of `s` at or after `lo`, or |s|. */
  function SkipSpaces(s: string, lo: nat): (r: nat)
    requires lo <= |s|
    ensures lo <= r <= |s|
    ensures forall i :: lo <= i < r ==> IsSpace(s[i])
    ensures r < |s| ==> !IsSpace(s[r])
    decreases |s| - lo
  {
    if lo < |s| && IsSpace(s[lo]) then SkipSpaces(s, lo + 1) else lo
  }

  /** The end of `s[lo..hi]` once its trailing spaces are dropped. */
  function DropTrailingSpaces(s: string, lo: nat, hi: nat): (r: nat)
    requires lo <= hi <= |s|
    ensures lo <= r <= hi
    ensures forall i :: r <= i < hi ==> IsSpace(s[i])
    ensures r > lo ==> !IsSpace(s[r - 1])
    decreases hi
  {
    if hi > lo && IsSpace(s[hi - 1]) then DropTrailingSpaces(s, lo, hi - 1) else hi
  }

  /** String.trim: `s` without its leading and trailing spaces. */
  function Trim(s: string): (r: string)
    ensures |r| <= |s|
    ensures r == [] || (!IsSpace(r[0]) && !IsSpace(r[|r| - 1]))
    ensures (forall i :: 0 <= i < |s| ==> IsSpace(s[i])) ==> r == []
    ensures (s == [] || (!IsSpace(s[0]) && !IsSpace(s[|s| - 1]))) ==> r == s
  {
    var lo := SkipSpaces(s, 0);
    var hi := DropTrailingSpaces(s, lo, |s|);
    s[lo..hi]
  }

  /** The trimmed text is a substring of `s` with only spaces outside it. */
  lemma TrimIsSubstring(s: string)
    ensures exists lo, hi ::
              && 0 <= lo <= hi <= |s| && Trim(s) == s[lo..hi]
              && (forall i :: 0 <= i < lo ==> IsSpace(s[i]))
              && (forall i :: hi <= i < |s| ==> IsSpace(s[i]))
  {
    var lo := SkipSpaces(s, 0);
    var hi := DropTrailingSpaces(s, lo, |s|);
    assert Trim(s) == s[lo..hi];
  }

  /**
   * The substring Trim keeps is determined: any range with only spaces outside
   * it, and no space at either of its ends, is the one Trim returns.
   */
  lemma TrimCharacterized(s: string, lo: nat, hi: nat)
    requires lo <= hi <= |s|
    requires forall i :: 0 <= i < lo ==> IsSpace(s[i])
    requires forall i :: hi <= i < |s| ==> IsSpace(s[i])
    requires lo == hi || (!IsSpace(s[lo]) && !IsSpace(s[hi - 1]))
    ensures Trim(s) == s[lo..hi]
  {
    var a := SkipSpaces(s, 0);
    if lo < hi {
      assert a == lo;
      assert DropTrailingSpaces(s, a, |s|) == hi;
    } else {
      assert forall i :: 0 <= i < |s| ==> IsSpace(s[i]);
    }
  }

  /** Trimming twice is trimming once. */
  lemma TrimIdempotent(s: string)
    ensures Trim(Trim(s)) == Trim(s)
  {
  }

  /** A line that sets the filename: it starts with the key. */
  predicate IsFilenameLine(line: string): (b: bool)
    ensures b ==> |Key| <= |line| && line == Key + line[|Key|..]
  {
    |line| >= |Key| && line[..|Key|] == Key
  }

  /** The filename a filename line names. */
  function FilenameOf(line: string): (f: string)
    requires IsFilenameLine(line)
    ensures |f| <= |line| - |Key|
    ensures f == [] || (!IsSpace(f[0]) && !IsSpace(f[|f| - 1]))
  {
    Trim(line[|Key|..])
  }

  /**
   * The filename after reading `lines` in order, starting from `current`:
   * unless it is still `current`, it is a trimmed name.
   */
  function LastFilename(lines: seq<string>, current: string): (f: string)
    ensures f == current || f == [] || (!IsSpace(f[0]) && !IsSpace(f[|f| - 1]))
    decreases |lines|
  {
    if lines == [] then current
    else LastFilename(lines[1..], if IsFilenameLine(lines[0]) then FilenameOf(lines[0]) else current)
  }

  /** The filename read is `current` or the name on one of the filename lines. */
  lemma {:induction false} LastFilenameFromSomeLine(lines: seq<string>, current: string)
    ensures var f := LastFilename(lines, current);
      f == current || exists i :: 0 <= i < |lines| && IsFilenameLine(lines[i]) && f == FilenameOf(lines[i])
    decreases |lines|
  {
    if lines != [] {
      var next := if IsFilenameLine(lines[0]) then FilenameOf(lines[0]) else current;
      LastFilenameFromSomeLine(lines[1..], next);
      var f := LastFilename(lines, current);
      if f != current {
        if f == next {
          assert IsFilenameLine(lines[0]) && f == FilenameOf(lines[0]);
        } else {
          var i :| 0 <= i < |lines[1..]| && IsFilenameLine(lines[1..][i]) && f == FilenameOf(lines[1..][i]);
          assert lines[1..][i] == lines[i + 1];
        }
      }
    }
  }

  /** Without a filename line the filename is left as it was. */
  lemma {:induction false} NoFilenameLineKeepsCurrent(lines: seq<string>, current: string)
    requires forall i :: 0 <= i < |lines| ==> !IsFilenameLine(lines[i])
    ensures LastFilename(lines, current) == current
    decreases |lines|
  {
    if lines != [] {
      assert !IsFilenameLine(lines[0]);
      NoFilenameLineKeepsCurrent(lines[1..], current);
    }
  }

  /** The last filename line decides; the lines before it, and those without the key, are ignored. */
  lemma {:induction false} LastFilenameLineWins(lines: seq<string>, current: string, k: nat)
    requires k < |lines| && IsFilenameLine(lines[k])
    requires forall j :: k < j < |lines| ==> !IsFilenameLine(lines[j])
    ensures LastFilename(lines, current) == FilenameOf(lines[k])
    decreases |lines|
  {
    if k == 0 {
      NoFilenameLineKeepsCurrent(lines[1..], FilenameOf(lines[0]));
    } else {
      var next := if IsFilenameLine(lines[0]) then FilenameOf(lines[0]) else current;
      LastFilenameLineWins(lines[1..], next, k - 1);
    }
  }

  /** The read loop of loadPrefs over the content of an existing, readable prefs file. */
  method ScanPrefs(content: string, current: string) returns (filename: string)
    ensures filename == LastFilename(Lines(content), current)
  {
    filename := current;
    var rest := content;
    var next := ReadLine(rest);
    while next.Some?
      invariant next == ReadLine(rest)
      invariant LastFilename(Lines(rest), filename) == LastFilename(Lines(content), current)
      decreases |rest|
    {
      var (line, after) := next.value;
      LinesStep(rest);
      if IsFilenameLine(line) {
        filename := FilenameOf(line);
      }
      rest := after;
      next := ReadLine(rest);
    }
  }

  /**
   * loadPrefs on the prefs file at `path`: a missing or unreadable file leaves
   * `current`; otherwise the last filename line decides.
   */
  function Load(disk: Disk, path: Path, r: ReadOutcome, current: string): (f: string)
    ensures path !in disk || r.ReadFailed? ==> f == current
    ensures path in disk && r == ReadOk ==> f == LastFilename(Lines(disk[path].content), current)
  {
    if path !in disk then current
    else
      match Read(disk, path, r)
      case Failure(_) => current
      case Success(content) => LastFilename(Lines(content), current)
  }

  /** The text savePrefs writes: a filename line carrying `filename` after the key. */
  function Serialize(filename: string): (t: string)
    ensures IsFilenameLine(t) && t[|Key|..] == filename
  {
    Key + filename
  }

  /** savePrefs: the prefs file replaced by the single filename line, unless the write fails. */
  function Save(disk: Disk, path: Path, filename: string, w: WriteOutcome): (d: Disk)
    ensures w.WriteFailed? ==> d == disk
    ensures w.Written? ==>
      Read(d, path, ReadOk) == Success(Serialize(filename)) && LastModified(d, path) == w.mtime
      && forall q :: q != path ==> (q in d <==> q in disk) && (q in disk ==> d[q] == disk[q])
  {
    match Write(disk, path, Serialize(filename), w)
    case Success(d) => d
    case Failure(_) => disk
  }

  /** A missing prefs file, or one that cannot be read, leaves the filename unchanged. */
  lemma LoadWithoutPrefs(disk: Disk, path: Path, r: ReadOutcome, current: string)
    requires path !in disk || r.ReadFailed?
    ensures Load(disk, path, r, current) == current
  {
  }

  /** A line made of the key and a filename names that filename, trimmed. */
  lemma KeyLine(filename: string)
    ensures IsFilenameLine(Key + filename) && FilenameOf(Key + filename) == Trim(filename)
  {
    assert (Key + filename)[..|Key|] == Key;
    assert (Key + filename)[|Key|..] == filename;
  }

  /** The serialised record is one line, read back as the trimmed filename. */
  lemma SerializedRoundTrip(filename: string, current: string)
    requires NoBreaks(filename)
    ensures Lines(Serialize(filename)) == [Serialize(filename)]
    ensures LastFilename(Lines(Serialize(filename)), current) == Trim(filename)
  {
    var s := Serialize(filename);
    NoBreaksConcat(Key, filename);
    LinesOfUnterminated(s);
    KeyLine(filename);
  }

  /** Loading after a successful save yields the trimmed filename. */
  lemma SaveThenLoad(disk: Disk, path: Path, filename: string, m: int, current: string)
    requires NoBreaks(filename)
    ensures Load(Save(disk, path, filename, Written(m)), path, ReadOk, current) == Trim(filename)
  {
    SerializedRoundTrip(filename, current);
  }

  /**
   * Why the round trip needs NoBreaks: a filename holding "\n" and then a
   * filename line is read back as the name on that second line.
   */
  lemma SaveThenLoadSplitsLines(disk: Disk, path: Path, first: string, second: string, m: int, current: string)
    requires NoBreaks(first) && NoBreaks(second)
    ensures Load(Save(disk, path, first + "\n" + Key + second, Written(m)), path, ReadOk, current) == Trim(second)
  {
    var s := Serialize(first + "\n" + Key + second);
    SerializedTwoLines(first, second);
    LastOfTwoLines(first, second, current);
    var d := Save(disk, path, first + "\n" + Key + second, Written(m));
    assert d == disk[path := FileEntry(s, m)];
    assert Read(d, path, ReadOk) == Success(s);
  }

  /** The record written for such a filename is read as two filename lines. */
  lemma SerializedTwoLines(first: string, second: string)
    requires NoBreaks(first) && NoBreaks(second)
    ensures Lines(Serialize(first + "\n" + Key + second)) == [Key + first, Key + second]
  {
    var s := Serialize(first + "\n" + Key + second);
    assert s == (Key + first) + "\n" + (Key + second);
    NoBreaksConcat(Key, first);
    NoBreaksConcat(Key, second);
    SplitTerminated(Key + first, Key + second);
    LinesOfUnterminated(Key + second);
  }

  /** Of two filename lines the second wins. */
  lemma LastOfTwoLines(first: string, second: string, current: string)
    ensures LastFilename([Key + first, Key + second], current) == Trim(second)
  {
    KeyLine(first);
    KeyLine(second);
    var lines := [Key + first, Key + second];
    assert lines[1..] == [Key + second] && lines[1..][1..] == [];
    assert LastFilename(lines, current) == LastFilename([Key + second], Trim(first));
    assert LastFilename([Key + second], Trim(first)) == LastFilename([], Trim(second));
  }
}
