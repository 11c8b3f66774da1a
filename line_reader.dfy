/**
 * Line-oriented reading as BufferedReader.readLine does it, and the text that
 * loadFromFile rebuilds from it: every line read, each followed by "\n".
 * A line ends at "\n", at "\r", or at "\r\n"; a last segment with no
 * terminator is still a line; an empty rest of input yields no line (null).
 */
module LineReader {
  import opened Wrappers

  /** The two characters that end a line. */
  predicate IsBreak(c: char)
  {
    c == '\n' || c == '\r'
  }

  /** A line as readLine returns it: no terminator inside. */
  predicate NoBreaks(s: string)
  {
    '\n' !in s && '\r' !in s
  }

  /** Length of the terminator that starts at s[i]: two for "\r\n", one otherwise. */
  function BreakLength(s: string, i: nat): nat
    requires i < |s| && IsBreak(s[i])
  {
    if s[i] == '\r' && i + 1 < |s| && s[i + 1] == '\n' then 2 else 1
  }

  /**
   * The first line of `s` and the input after its terminator. The line is the
   * longest prefix of `s` without a terminator; the terminator (if any) is
   * consumed whole, "\r\n" included.
   */
  function SplitLine(s: string): (r: (string, string))
    ensures r.0 <= s
    ensures NoBreaks(r.0)
    ensures |r.0| == |s| ==> r.1 == []
    ensures |r.0| < |s| ==> IsBreak(s[|r.0|]) && r.1 == s[|r.0| + BreakLength(s, |r.0|)..]
    ensures s != [] ==> |r.1| < |s|
    decreases |s|
  {
    if s == [] then ([], [])
    else if s[0] == '\n' then ([], s[1..])
    else if s[0] == '\r' then ([], if |s| > 1 && s[1] == '\n' then s[2..] else s[1..])
    else
      var (line, rest) := SplitLine(s[1..]);
      assert |line| < |s[1..]| ==> BreakLength(s, |line| + 1) == BreakLength(s[1..], |line|);
      ([s[0]] + line, rest)
  }

  /** BufferedReader.readLine on the remaining input `s`: None stands for null, at the end of input. */
  function ReadLine(s: string): (r: Option<(string, string)>)
    ensures r.None? <==> s == []
  {
    if s == [] then None else Some(SplitLine(s))
  }

  /** Every line that successive readLine calls return, in order. */
  function Lines(s: string): (ls: seq<string>)
    ensures forall i :: 0 <= i < |ls| ==> NoBreaks(ls[i])
    ensures |ls| <= |s|
    decreases |s|
  {
    if s == [] then []
    else
      var (line, rest) := SplitLine(s);
      [line] + Lines(rest)
  }

  /** The lines, each followed by "\n", one after another. */
  function Join(ls: seq<string>): (r: string)
    ensures ls != [] ==> |r| > 0 && r[|r| - 1] == '\n'
    ensures (forall i :: 0 <= i < |ls| ==> '\r' !in ls[i]) ==> '\r' !in r
  {
    if ls == [] then [] else ls[0] + "\n" + Join(ls[1..])
  }

  /** The text loadFromFile puts in the editor for file content `s`. */
  function Normalized(s: string): string
  {
    Join(Lines(s))
  }

  /** The shape of every loaded text: no "\r", and empty or ending in "\n". */
  predicate IsNormal(t: string)
  {
    '\r' !in t && (t == [] || t[|t| - 1] == '\n')
  }

  /**
   * The read loop of loadFromFile: readLine until null, appending each line
   * and "\n" to a buffer.
   */
  method ReadJoined(content: string) returns (text: string)
    ensures text == Normalized(content)
  {
    var buffer := "";
    var rest := content;
    var next := ReadLine(rest);
    while next.Some?
      invariant next == ReadLine(rest)
      invariant buffer + Normalized(rest) == Normalized(content)
      decreases |rest|
    {
      var (line, after) := next.value;
      NormalizedStep(rest);
      buffer := buffer + line + "\n";
      rest := after;
      next := ReadLine(rest);
    }
    assert buffer + Normalized(rest) == buffer;
    text := buffer;
  }

  /** One readLine call takes the first of the remaining lines. */
  lemma LinesStep(rest: string)
    requires rest != []
    ensures Lines(rest) == [ReadLine(rest).value.0] + Lines(ReadLine(rest).value.1)
  {
  }

  /** One readLine call contributes its line and "\n" to the loaded text. */
  lemma NormalizedStep(rest: string)
    requires rest != []
    ensures Normalized(rest) == ReadLine(rest).value.0 + "\n" + Normalized(ReadLine(rest).value.1)
  {
    LinesStep(rest);
  }

  /** A line without a terminator, followed by "\n", is read back as exactly that line. */
  lemma SplitTerminated(line: string, rest: string)
    requires NoBreaks(line)
    ensures SplitLine(line + "\n" + rest) == (line, rest)
  {
    var s := line + "\n" + rest;
    var r := SplitLine(s);
    assert s[|line|] == '\n';
    assert |r.0| == |line|;
    assert r.0 == s[..|line|] == line;
    assert r.1 == s[|line| + 1..] == rest;
  }

  /** Two texts without terminators make one without. */
  lemma NoBreaksConcat(a: string, b: string)
    requires NoBreaks(a) && NoBreaks(b)
    ensures NoBreaks(a + b)
  {
    assert forall i :: 0 <= i < |a + b| ==> (a + b)[i] == if i < |a| then a[i] else b[i - |a|];
  }

  /** A non-empty text without a terminator is read as one line. */
  lemma LinesOfUnterminated(s: string)
    requires s != [] && NoBreaks(s)
    ensures Lines(s) == [s]
  {
    assert forall i :: 0 <= i < |s| ==> !IsBreak(s[i]);
    var r := SplitLine(s);
    assert |r.0| == |s|;
    assert r.0 == s[..|r.0|] == s;
  }

  /** Reading back a joined text gives the lines it was joined from. */
  lemma {:induction false} LinesOfJoin(ls: seq<string>)
    requires forall i :: 0 <= i < |ls| ==> NoBreaks(ls[i])
    ensures Lines(Join(ls)) == ls
  {
    if ls != [] {
      SplitTerminated(ls[0], Join(ls[1..]));
      LinesOfJoin(ls[1..]);
    }
  }

  /** Every loaded text has the normal shape. */
  lemma NormalizedIsNormal(s: string)
    ensures IsNormal(Normalized(s))
  {
  }

  /** Loading a text that was itself produced by loading gives it back unchanged. */
  lemma NormalizedIdempotent(s: string)
    ensures Normalized(Normalized(s)) == Normalized(s)
  {
    LinesOfJoin(Lines(s));
  }

  /** A text survives loading unchanged exactly when it has the normal shape. */
  lemma {:induction false} NormalizedFixpoint(t: string)
    ensures Normalized(t) == t <==> IsNormal(t)
    decreases |t|
  {
    if IsNormal(t) && t != [] {
      var (line, rest) := SplitLine(t);
      assert |line| < |t| by {
        assert t[|t| - 1] == '\n';
      }
      assert t[|line|] == '\n';
      assert t == line + "\n" + rest;
      assert IsNormal(rest);
      NormalizedFixpoint(rest);
    }
  }
}
