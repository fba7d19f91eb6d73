/** The text format of one line of the xplor window body.

    A line is a two-character kind flag ("+ " for a directory, two blanks
    otherwise), one tab per level of depth, the entry's name and a newline.
    Lines are kept whole, trailing newline included. */
module LineCodec {

  /** The indentation unit (a single tab). */
  const Indent: char := '\t'
  /** The flag of a directory line. */
  const DirFlag: string := "+ "
  /** The flag of any other line. */
  const NoDirFlag: string := "  "

  /** `n` indentation units. */
  function Tabs(n: nat): (s: string)
    ensures |s| == n
    ensures forall k :: 0 <= k < n ==> s[k] == Indent
  {
    if n == 0 then [] else Tabs(n - 1) + [Indent]
  }

  /** The line written for an entry at `depth`: the flag says "directory"
      exactly for a directory, every line carries the two-character flag
      and ends in a newline, and its length is flag + depth + name +
      newline. */
  function EncodeLine(isDir: bool, depth: nat, name: string): (line: string)
    ensures |line| == 2 + depth + |name| + 1
    ensures line[..2] == DirFlag <==> isDir
    ensures line[..2] == NoDirFlag <==> !isDir
    ensures line[|line| - 1] == '\n'
    ensures Readable(line)
  {
    var flag := if isDir then DirFlag else NoDirFlag;
    assert (flag + Tabs(depth) + name + "\n")[..2] == flag by {
      assert flag + Tabs(depth) + name + "\n" == flag + (Tabs(depth) + name + "\n");
    }
    (if isDir then DirFlag else NoDirFlag) + Tabs(depth) + name + "\n"
  }

  /** A line the window can hand back to readLine: a lone newline, or at
      least the flag and one more character. Shorter reads crash the source. */
  predicate Readable(line: string)
  {
    |line| == 1 || |line| >= 3
  }

  /** readLine: drop the two-character flag and the final character. */
  function ReadLine(line: string): (text: string)
    requires Readable(line)
    ensures |text| == if |line| == 1 then 0 else |line| - 3
  {
    if |line| < 2 then line[0..0] else line[2..|line| - 1]
  }

  /** getDepth: count the leading tabs and return the rest. The text is
      split into its leading tabs and a rest that does not start with a
      tab, so that depth + length of the rest is the length of the text. */
  function GetDepth(text: string): (r: (nat, string))
    ensures r.0 + |r.1| == |text|
    ensures text == Tabs(r.0) + r.1
    ensures Untabbed(r.1)
  {
    if text != [] && text[0] == Indent then
      var rest := GetDepth(text[1..]);
      assert Tabs(rest.0 + 1) == [Indent] + Tabs(rest.0);
      (rest.0 + 1, rest.1)
    else
      (0, text)
  }

  /** The tabs of `line` from position `k` on, stopping before its final
      character. */
  function TabsFrom(line: string, k: nat): (n: nat)
    decreases |line| - k
    ensures n == 0 || k + n < |line|
  {
    if k + 1 < |line| && line[k] == Indent then 1 + TabsFrom(line, k + 1) else 0
  }

  /** The depth a line is read back with: the tabs that follow its flag. */
  function LineDepth(line: string): nat
    requires Readable(line)
  {
    TabsFrom(line, 2)
  }

  /** The name a line is read back with: what follows its flag and tabs,
      without the final character. */
  function LineName(line: string): string
    requires Readable(line)
  {
    if |line| < 3 then [] else line[2 + LineDepth(line)..|line| - 1]
  }

  /** getDepth on the tail of a line that starts at `k` counts the same
      tabs as TabsFrom. */
  lemma {:induction false} TabsFromIsGetDepth(line: string, k: nat)
    requires 2 <= k <= |line| - 1
    ensures GetDepth(line[k..|line| - 1]) == (TabsFrom(line, k), line[k + TabsFrom(line, k)..|line| - 1])
    decreases |line| - k
  {
    var text := line[k..|line| - 1];
    if k + 1 < |line| && line[k] == Indent {
      TabsFromIsGetDepth(line, k + 1);
      assert text[1..] == line[k + 1..|line| - 1];
    }
  }

  /** LineDepth and LineName are exactly what getDepth returns on the text
      readLine hands back. */
  lemma ReadBack(line: string)
    requires Readable(line)
    ensures GetDepth(ReadLine(line)) == (LineDepth(line), LineName(line))
  {
    if |line| >= 3 {
      TabsFromIsGetDepth(line, 2);
    }
  }

  /** A name that does not start with the indentation unit. */
  predicate Untabbed(name: string)
  {
    name == [] || name[0] != Indent
  }

  /** getDepth recovers exactly the depth and name that were written. */
  lemma {:induction false} GetDepthOfTabs(depth: nat, name: string)
    requires Untabbed(name)
    ensures GetDepth(Tabs(depth) + name) == (depth, name)
  {
    if depth > 0 {
      var s := Tabs(depth) + name;
      assert s[0] == Indent;
      assert s[1..] == Tabs(depth - 1) + name;
      GetDepthOfTabs(depth - 1, name);
    } else {
      assert Tabs(depth) + name == name;
    }
  }

  /** readLine on a written line hands back the tabs and the name. */
  lemma ReadLineEncoded(isDir: bool, depth: nat, name: string)
    ensures Readable(EncodeLine(isDir, depth, name))
    ensures ReadLine(EncodeLine(isDir, depth, name)) == Tabs(depth) + name
  {
    var line := EncodeLine(isDir, depth, name);
    var flag := if isDir then DirFlag else NoDirFlag;
    var body := Tabs(depth) + name;
    assert line == flag + body + "\n";
    assert line[2..|line| - 1] == body;
  }

  /** Round trip: reading back a written line (flag and newline stripped,
      then getDepth) yields the depth and the name that were written. */
  lemma RoundTrip(isDir: bool, depth: nat, name: string)
    requires Untabbed(name)
    ensures Readable(EncodeLine(isDir, depth, name))
    ensures GetDepth(ReadLine(EncodeLine(isDir, depth, name))) == (depth, name)
    ensures LineDepth(EncodeLine(isDir, depth, name)) == depth
    ensures LineName(EncodeLine(isDir, depth, name)) == name
  {
    ReadLineEncoded(isDir, depth, name);
    GetDepthOfTabs(depth, name);
    ReadBack(EncodeLine(isDir, depth, name));
  }

  /** getDepth counts at least the tabs put in front of a name. */
  lemma {:induction false} GetDepthAtLeast(depth: nat, name: string)
    ensures GetDepth(Tabs(depth) + name).0 >= depth
  {
    if depth > 0 {
      var s := Tabs(depth) + name;
      assert s[0] == Indent;
      assert s[1..] == Tabs(depth - 1) + name;
      GetDepthAtLeast(depth - 1, name);
    }
  }

  /** Whatever the name, an encoded line is at least `depth` deep. */
  lemma EncodedDepthAtLeast(isDir: bool, depth: nat, name: string)
    ensures Readable(EncodeLine(isDir, depth, name))
    ensures LineDepth(EncodeLine(isDir, depth, name)) >= depth
  {
    ReadLineEncoded(isDir, depth, name);
    GetDepthAtLeast(depth, name);
    ReadBack(EncodeLine(isDir, depth, name));
  }

  /** A lone newline (the blank lines after the top-level listing) reads
      as depth 0 with an empty name. */
  lemma BlankLine()
    ensures Readable("\n") && LineDepth("\n") == 0 && LineName("\n") == ""
  {
  }
}
