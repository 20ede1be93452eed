/** How TinyPad turns the lines of a file into the text of its buffer, and
    how that text can be read back as the same lines. */
module TextLines {

  /** The buffer `open` builds: every line read, each followed by "\n". */
  function Joined(lines: seq<string>): (r: string)
    ensures |r| >= |lines|
    ensures r == [] <==> lines == []
    ensures lines != [] ==> r[|r| - 1] == '\n'
  {
    if lines == [] then "" else lines[0] + "\n" + Joined(lines[1..])
  }

  /** Appending one line and its terminator to the buffer of the first lines
      gives the buffer of all of them, as the reading loop does. */
  lemma {:induction false} JoinedSnoc(lines: seq<string>, line: string)
    ensures Joined(lines + [line]) == Joined(lines) + line + "\n"
  {
    if lines == [] {
      assert [line][1..] == [];
    } else {
      assert (lines + [line])[1..] == lines[1..] + [line];
      JoinedSnoc(lines[1..], line);
    }
  }

  /** The length of the first line of `s`: the position of its first "\n",
      or |s| when there is none. */
  function LineEnd(s: string): (k: nat)
    ensures k <= |s|
    ensures forall i :: 0 <= i < k ==> s[i] != '\n'
    ensures k < |s| ==> s[k] == '\n'
  {
    if s == [] || s[0] == '\n' then 0 else 1 + LineEnd(s[1..])
  }

  /** Reads text back as lines, each ended by "\n" or by the end of the text. */
  function SplitLines(s: string): seq<string>
    decreases |s|
  {
    if s == [] then []
    else
      var k := LineEnd(s);
      if k == |s| then [s] else [s[..k]] + SplitLines(s[k + 1..])
  }

  predicate NoNewline(line: string) {
    forall i :: 0 <= i < |line| ==> line[i] != '\n'
  }

  /** A line without "\n" followed by its terminator ends exactly there. */
  lemma LineEndOfTerminated(line: string, rest: string)
    requires NoNewline(line)
    ensures LineEnd(line + "\n" + rest) == |line|
  {
    var s := line + "\n" + rest;
    var k := LineEnd(s);
    assert s[|line|] == '\n';
  }

  /** The lines a reader hands back contain no line terminator; for those,
      reading the built buffer back gives the lines that were read. */
  lemma {:induction false} SplitJoined(lines: seq<string>)
    requires forall j :: 0 <= j < |lines| ==> NoNewline(lines[j])
    ensures SplitLines(Joined(lines)) == lines
  {
    if lines != [] {
      var s := Joined(lines);
      var rest := Joined(lines[1..]);
      assert s == lines[0] + "\n" + rest;
      LineEndOfTerminated(lines[0], rest);
      assert s[..|lines[0]|] == lines[0];
      assert s[|lines[0]| + 1..] == rest;
      SplitJoined(lines[1..]);
      assert lines == [lines[0]] + lines[1..];
    }
  }
}
