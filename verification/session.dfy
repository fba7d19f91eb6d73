/** The running browser: the directory at the root of the tree, whether
    hidden names are listed, and the window body. Each event handler reads
    and edits the body the way the program does through its acme window;
    the filesystem and the resolution of character addresses to lines are
    given to the handlers as inputs. */
module Xplor {
  import opened Wrappers
  import opened LineCodec
  import opened Paths
  import opened TreeInference
  import opened Listing
  import opened Dispatch

  /** The program a Win or Xplor command starts. */
  datatype Tool = WinTool | XplorTool

  /** What handling an event does besides editing the body: nothing more,
      an error message on standard error, the end of the process, a panic,
      a file sent to the plumber, a path printed, a program started in a
      directory. */
  datatype Effect =
    | Done
    | Logged
    | Exit
    | Crash
    | Plumb(file: Path)
    | Announce(path: Path)
    | Launch(tool: Tool, dir: Path)

  /** What a handler leaves behind: its effect and the new body. */
  datatype Outcome = Outcome(effect: Effect, lines: seq<string>)

  /** The three blank lines written after a top-level listing. */
  const Blanks: seq<string> := ["\n", "\n", "\n"]

  // ------------------------------------------------------ specifications

  /** A fresh top-level listing of `dir` in an empty body: the entries at
      depth 0 and the three blank lines; a failed listing ends the process
      and keeps what was written. */
  function Fresh(fs: FileSystem, dir: Path, showHidden: bool): (r: Outcome)
    ensures r.effect == Done || r.effect == Exit
    ensures AllReadable(r.lines)
    ensures r.effect == Done ==> |r.lines| >= 3 && r.lines[|r.lines| - 3..] == Blanks
  {
    var listing := DirListing(fs, dir, 0, showHidden);
    ListingDepth(fs, dir, 0, showHidden);
    if listing.failed then Outcome(Exit, listing.lines)
    else
      assert (listing.lines + Blanks)[|listing.lines|..] == Blanks;
      Outcome(Done, listing.lines + Blanks)
  }

  /** A fresh listing written into an empty body. */
  lemma FreshIs(fs: FileSystem, dir: Path, showHidden: bool)
    ensures var r := DirListing(fs, dir, 0, showHidden);
      Fresh(fs, dir, showHidden)
      == Outcome(if r.failed then Exit else Done, InsertAt([], 0, r.lines) + (if !r.failed then Blanks else []))
  {
    var r := DirListing(fs, dir, 0, showHidden);
    assert InsertAt([], 0, r.lines) == r.lines;
  }

  /** onLook: a click on line `i`. A file goes to the plumber; a folded
      directory has its listing inserted one level deeper right below it;
      an unfolded one has the run of deeper lines below it removed. */
  function LookAt(fs: FileSystem, root: Path, showHidden: bool, buf: Buffer, i: nat): (r: Outcome)
    requires AllReadable(buf)
    ensures r.effect.Plumb? ==> fs.stat(r.effect.file) == IsFile && root <= r.effect.file
    ensures r.effect == Done || r.effect == Logged || r.lines == buf
  {
    LookOn(fs, showHidden, buf, i, GetFullPath(root, buf, i))
  }

  /** onLook once the path of line `i` has been looked up. */
  function LookOn(fs: FileSystem, showHidden: bool, buf: Buffer, i: nat, look: Lookup): (r: Outcome)
    requires AllReadable(buf) && (look.Found? ==> i < |buf|)
    ensures r.effect.Plumb? ==> look == Found(r.effect.file) && fs.stat(r.effect.file) == IsFile
    ensures r.effect == Done || r.effect == Logged || r.lines == buf
  {
    match look
    case ReadFailed => Outcome(Logged, buf)
    case Corrupt => Outcome(Exit, buf)
    case Found(p) =>
      match fs.stat(p)
      case NotFound => Outcome(Logged, buf)
      case StatFailed => Outcome(Logged, buf)
      case IsFile => Outcome(Plumb(p), buf)
      case IsDir => Toggle(DirListing(fs, p, LineDepth(buf[i]) + 1, showHidden), buf, i)
  }

  /** A click on a directory shown on line `i`, given `listing`, what
      printDirContents writes for that directory one level deeper than the
      line: expand the directory when it is folded, fold it otherwise. */
  function Toggle(listing: Printed, buf: Buffer, i: nat): (r: Outcome)
    requires AllReadable(buf) && i < |buf|
    ensures r.effect == Done || r.effect == Logged
  {
    var d := LineDepth(buf[i]);
    var fold := IsFolded(buf, i);
    if fold.failed then Outcome(Logged, buf)
    else if fold.folded then
      Outcome(if listing.failed then Logged else Done, InsertAt(buf, i + 1, listing.lines))
    else
      match DeeperRun(buf, i + 1, d)
      case None => Outcome(Logged, buf)
      case Some(m) => Outcome(Done, DeleteAfter(buf, i, m))
  }

  /** The expanding branch of Toggle. */
  lemma ToggleExpands(listing: Printed, buf: Buffer, i: nat)
    requires AllReadable(buf) && i < |buf| && IsFolded(buf, i) == FoldCheck(true, false)
    ensures Toggle(listing, buf, i)
      == Outcome(if listing.failed then Logged else Done, InsertAt(buf, i + 1, listing.lines))
  {
  }

  /** The folding branch of Toggle: the node has a deeper line right below
      it, and the run of deeper lines is deleted when a line closes it. */
  lemma ToggleFolds(listing: Printed, buf: Buffer, i: nat)
    requires AllReadable(buf) && i < |buf| && IsFolded(buf, i) == FoldCheck(false, false)
    ensures i + 1 < |buf| && LineDepth(buf[i + 1]) > LineDepth(buf[i])
    ensures var run := DeeperRun(buf, i + 1, LineDepth(buf[i]));
      && (run.Some? ==> Toggle(listing, buf, i) == Outcome(Done, DeleteAfter(buf, i, run.value)))
      && (run.None? ==> Toggle(listing, buf, i) == Outcome(Logged, buf))
  {
  }

  /** The selection location has the separator ",#" at position `k`. */
  predicate SepAt(loc: string, k: nat)
  {
    k + 2 <= |loc| && loc[k] == ',' && loc[k + 1] == '#'
  }

  /** The first separator at or after position `from`. */
  function FindSep(loc: string, from: nat): (r: Option<nat>)
    decreases |loc| - from
    ensures r.Some? ==> from <= r.value && SepAt(loc, r.value)
    ensures r.Some? ==> forall j :: from <= j < r.value ==> !SepAt(loc, j)
    ensures r.None? ==> forall j :: from <= j ==> !SepAt(loc, j)
  {
    if from + 2 > |loc| then None
    else if SepAt(loc, from) then Some(from)
    else FindSep(loc, from + 1)
  }

  /** strings.SplitAfterN(loc, ",#", 2)[1]: the text after the first
      separator of a selection location such as "file:#12,#20", the address
      of the selection's end; None where the source indexes past the end
      of the split. */
  function SelectionEnd(loc: string): (r: Option<string>)
    ensures r.Some? <==> exists k :: SepAt(loc, k)
    ensures r.Some? ==> exists k :: SepAt(loc, k) && r.value == loc[k + 2..] && forall j :: 0 <= j < k ==> !SepAt(loc, j)
  {
    match FindSep(loc, 0)
    case None => None
    case Some(k) => Some(loc[k + 2..])
  }

  /** doExec: where a Win or Xplor command starts its program. With no
      selection, the root; otherwise the selected line's path if it is a
      directory, the directory holding it if it is a file. */
  function ExecIn(fs: FileSystem, root: Path, buf: Buffer, tool: Tool, loc: string, lineOf: string -> nat): (e: Effect)
    requires AllReadable(buf)
    ensures loc == [] ==> e == Launch(tool, root)
    ensures e.Launch? ==> e.tool == tool
    ensures e.Launch? && fs.stat(root) == IsDir ==> root <= e.dir
    ensures loc != [] && SelectionEnd(loc).None? ==> e == Crash
    ensures loc != [] && SelectionEnd(loc).Some? ==>
      var look := GetFullPath(root, buf, lineOf(SelectionEnd(loc).value));
      && (look.ReadFailed? ==> e == Logged)
      && (look.Corrupt? ==> e == Exit)
      && (look.Found? && fs.stat(look.path) == IsDir ==> e == Launch(tool, look.path))
      && (look.Found? && fs.stat(look.path) == IsFile ==> e == Launch(tool, Parent(look.path)))
      && (look.Found? && fs.stat(look.path) in {NotFound, StatFailed} ==> e == Logged)
  {
    if loc == [] then Launch(tool, root)
    else
      match SelectionEnd(loc)
      case None => Crash
      case Some(a) =>
        match GetFullPath(root, buf, lineOf(a))
        case ReadFailed => Logged
        case Corrupt => Exit
        case Found(p) =>
          match fs.stat(p)
          case IsDir => Launch(tool, p)
          case IsFile =>
            ParentBelow(root, p, fs.stat(root) == IsDir);
            Launch(tool, Parent(p))
          case NotFound => Logged
          case StatFailed => Logged
  }

  /** On a well-formed body, a Win or Xplor command with a selection
      starts its program in the selected directory, named by the root and
      the line's ancestors, or in the directory holding the selected
      file. */
  lemma ExecInFollowsStack(fs: FileSystem, root: Path, buf: Buffer, tool: Tool, loc: string, lineOf: string -> nat, a: string)
    requires WellFormed(buf) && loc != [] && SelectionEnd(loc) == Some(a) && lineOf(a) < |buf|
    ensures var p := JoinAll(root, Stack(Depths(buf), Names(buf), lineOf(a)));
      && (fs.stat(p) == IsDir ==> ExecIn(fs, root, buf, tool, loc, lineOf) == Launch(tool, p))
      && (fs.stat(p) == IsFile ==> ExecIn(fs, root, buf, tool, loc, lineOf) == Launch(tool, Parent(p)))
  {
    FullPathFollowsStack(root, buf, lineOf(a));
  }

  /** The directory holding a path strictly below `root` is still at or
      below `root`. */
  lemma ParentBelow(root: Path, p: Path, strict: bool)
    requires root <= p && (strict ==> p != root)
    ensures strict ==> root <= Parent(p)
  {
    if strict {
      assert p[..|root|] == root;
    }
  }

  /** onExec: print the full path of line `i`. */
  function Report(root: Path, buf: Buffer, i: nat): (e: Effect)
    requires AllReadable(buf)
    ensures e == Logged <==> i >= |buf|
    ensures e.Announce? ==> root <= e.path
  {
    match GetFullPath(root, buf, i)
    case Found(p) => Announce(p)
    case ReadFailed => Logged
    case Corrupt => Exit
  }

  /** On a well-formed body, the path printed for a line is the root
      followed by the names of the line's ancestors and its own name. */
  lemma ReportFollowsStack(root: Path, buf: Buffer, i: nat)
    requires WellFormed(buf) && i < |buf|
    ensures Report(root, buf, i) == Announce(JoinAll(root, Stack(Depths(buf), Names(buf), i)))
  {
    FullPathFollowsStack(root, buf, i);
  }

  // ----------------------------------------------------------- the window

  class Session {
    /** The directory at the top of the tree. */
    var root: Path
    /** Whether listings include names starting with a dot. */
    var showHidden: bool
    /** The window body, one line per element. */
    var lines: seq<string>

    /** A new window on `root`: empty body, hidden names not shown. */
    constructor (root: Path)
      ensures this.root == root && !showHidden && lines == []
    {
      this.root := root;
      showHidden := false;
      lines := [];
    }

    /** printDirContents: insert the listing of `dir` at line `at`, one line
        at a time, and after a complete top-level listing append three
        blank lines. Reports whether the listing failed. */
    method PrintDirContents(fs: FileSystem, dir: Path, depth: nat, at: nat) returns (err: bool)
      requires at <= |lines|
      modifies this
      ensures root == old(root) && showHidden == old(showHidden)
      ensures var r := DirListing(fs, dir, depth, showHidden);
        && err == r.failed
        && (depth > 0 ==> lines == InsertAt(old(lines), at, r.lines))
        && (depth == 0 ==> lines == InsertAt(old(lines), at, r.lines) + (if !r.failed then Blanks else []))
    {
      var entries := fs.list(dir);
      if entries.Unlistable? {
        return true;
      }
      var names := SortStrings(entries.names);
      var indents: string := [];
      var t := 0;
      while t < depth
        invariant t <= depth && indents == Tabs(t)
        invariant lines == old(lines) && root == old(root) && showHidden == old(showHidden)
      {
        indents := indents + [Indent];
        t := t + 1;
      }
      err := WriteEntries(fs, dir, depth, names, indents, at);
      if !err && depth == 0 {
        lines := lines + ["\n"];
        lines := lines + ["\n"];
        lines := lines + ["\n"];
      }
    }

    /** The loop of printDirContents over the sorted names: each shown name
        is stat'ed; a vanished entry is skipped, any other stat error stops
        the loop, and a directory or file has its line written at the
        insertion point, which then moves past it. */
    method WriteEntries(fs: FileSystem, dir: Path, depth: nat, names: seq<string>, indents: string, at: nat)
      returns (err: bool)
      requires at <= |lines| && indents == Tabs(depth)
      modifies this
      ensures root == old(root) && showHidden == old(showHidden)
      ensures var r := PrintNames(fs, dir, depth, showHidden, names);
        err == r.failed && lines == InsertAt(old(lines), at, r.lines)
    {
      var k := 0;
      var pos := at;
      ghost var printed := PrintNames(fs, dir, depth, showHidden, []);
      while k < |names|
        invariant k <= |names|
        invariant root == old(root) && showHidden == old(showHidden)
        invariant printed == PrintNames(fs, dir, depth, showHidden, names[..k])
        invariant !printed.failed && pos == at + |printed.lines|
        invariant lines == InsertAt(old(lines), at, printed.lines)
      {
        var v := names[k];
        var k1 := k + 1;
        ghost var next := PrintNames(fs, dir, depth, showHidden, names[..k1]);
        PrintStep(fs, dir, depth, showHidden, names, k);
        var line := NoDirFlag + indents + v + "\n";
        if !IsHidden(v) || showHidden {
          var st := fs.stat(Join(dir, v));
          if st == StatFailed {
            FailureSticks(fs, dir, depth, showHidden, names, k1);
            return true;
          }
          if st != NotFound {
            if st == IsDir {
              line := DirFlag + indents + v + "\n";
            }
            assert next == Printed(printed.lines + [line], false, false);
            InsertAtGrow(old(lines), at, printed.lines, line);
            lines := lines[..pos] + [line] + lines[pos..];
            pos := pos + 1;
          } else {
            assert next == Printed(printed.lines, false, true);
          }
        } else {
          assert next == printed;
        }
        k := k1;
        printed := next;
      }
      assert names[..k] == names;
      return false;
    }

    /** initWindow: list the root at the top of the new window. */
    method InitWindow(fs: FileSystem) returns (e: Effect)
      requires lines == []
      modifies this
      ensures root == old(root) && showHidden == old(showHidden)
      ensures Outcome(e, lines) == Fresh(fs, root, showHidden)
    {
      var err := PrintDirContents(fs, root, 0, 0);
      e := if err then Exit else Done;
      FreshIs(fs, root, showHidden);
    }

    /** The folding branch of onLook on node `i` at `depth`: delete the
        run of deeper lines the collapse scan finds below it. */
    method Collapse(i: nat, depth: nat) returns (ok: bool)
      requires AllReadable(lines) && i + 1 < |lines|
      requires depth == LineDepth(lines[i]) && LineDepth(lines[i + 1]) > depth
      modifies this
      ensures root == old(root) && showHidden == old(showHidden)
      ensures var run := DeeperRun(old(lines), i + 1, depth);
        && (run.Some? ==> ok && lines == DeleteAfter(old(lines), i, run.value))
        && (run.None? ==> !ok && lines == old(lines))
    {
      var run := ScanDown(lines, i, depth);
      if run.None? {
        return false;
      }
      lines := lines[..i + 1] + lines[i + 1 + run.value..];
      return true;
    }

    /** onLook on line `i`. */
    method OnLook(fs: FileSystem, i: nat) returns (e: Effect)
      requires AllReadable(lines)
      modifies this
      ensures root == old(root) && showHidden == old(showHidden)
      ensures Outcome(e, lines) == LookAt(fs, root, showHidden, old(lines), i)
    {
      if i >= |lines| {
        return Logged;
      }
      var depth, name := ReadEntry(lines, i);
      var parents := Parents(lines, i, depth, 1);
      if parents.None? {
        assert GetFullPath(root, lines, i) == Corrupt;
        return Exit;
      }
      var full := Join(root + parents.value, name);
      assert GetFullPath(root, lines, i) == Found(full);
      e := LookFound(fs, full, i, depth);
    }

    /** The rest of onLook once the path `p` of line `i` is known: stat
        it, send a file to the plumber, toggle a directory. */
    method LookFound(fs: FileSystem, p: Path, i: nat, depth: nat) returns (e: Effect)
      requires AllReadable(lines) && i < |lines| && depth == LineDepth(lines[i])
      modifies this
      ensures root == old(root) && showHidden == old(showHidden)
      ensures Outcome(e, lines) == LookOn(fs, showHidden, old(lines), i, Found(p))
    {
      var st := fs.stat(p);
      if st == NotFound || st == StatFailed {
        return Logged;
      }
      if st == IsFile {
        return Plumb(p);
      }
      e := ToggleAt(fs, p, i, depth);
    }

    /** The directory branch of onLook: expand or fold the directory `p`
        shown on line `i` at `depth`. */
    method ToggleAt(fs: FileSystem, p: Path, i: nat, depth: nat) returns (e: Effect)
      requires AllReadable(lines) && i < |lines| && depth == LineDepth(lines[i]) && fs.stat(p) == IsDir
      modifies this
      ensures root == old(root) && showHidden == old(showHidden)
      ensures Outcome(e, lines) == LookOn(fs, showHidden, old(lines), i, Found(p))
    {
      assert LookOn(fs, showHidden, lines, i, Found(p)) == Toggle(DirListing(fs, p, depth + 1, showHidden), lines, i);
      var fold := IsFolded(lines, i);
      if fold.failed {
        return Logged;
      }
      if fold.folded {
        e := ExpandAt(fs, p, i, depth);
      } else {
        e := FoldAt(fs, p, i, depth);
      }
    }

    /** The expanding branch of onLook: list `p` one level deeper right
        below its line. */
    method ExpandAt(fs: FileSystem, p: Path, i: nat, depth: nat) returns (e: Effect)
      requires AllReadable(lines) && i < |lines| && depth == LineDepth(lines[i])
      requires IsFolded(lines, i) == FoldCheck(true, false)
      modifies this
      ensures root == old(root) && showHidden == old(showHidden)
      ensures Outcome(e, lines) == Toggle(DirListing(fs, p, depth + 1, showHidden), old(lines), i)
    {
      ghost var buf := lines;
      ToggleExpands(DirListing(fs, p, depth + 1, showHidden), buf, i);
      var err := PrintDirContents(fs, p, depth + 1, i + 1);
      e := if err then Logged else Done;
      assert lines == InsertAt(buf, i + 1, DirListing(fs, p, depth + 1, showHidden).lines);
    }

    /** The folding branch of onLook: delete the run of deeper lines below
        line `i`. */
    method FoldAt(fs: FileSystem, p: Path, i: nat, depth: nat) returns (e: Effect)
      requires AllReadable(lines) && i < |lines| && depth == LineDepth(lines[i])
      requires IsFolded(lines, i) == FoldCheck(false, false)
      modifies this
      ensures root == old(root) && showHidden == old(showHidden)
      ensures Outcome(e, lines) == Toggle(DirListing(fs, p, depth + 1, showHidden), old(lines), i)
    {
      ToggleFolds(DirListing(fs, p, depth + 1, showHidden), lines, i);
      var ok := Collapse(i, depth);
      e := if ok then Done else Logged;
    }

    /** doDotDot: blank the window, move the root up one directory and list
        it afresh. */
    method DoDotDot(fs: FileSystem) returns (e: Effect)
      modifies this
      ensures root == Parent(old(root)) && showHidden == old(showHidden)
      ensures Outcome(e, lines) == Fresh(fs, root, showHidden)
    {
      lines := [];
      root := Parent(root);
      var err := PrintDirContents(fs, root, 0, 0);
      e := if err then Exit else Done;
      FreshIs(fs, root, showHidden);
    }

    /** toggleHidden. */
    method ToggleHidden()
      modifies this
      ensures showHidden == !old(showHidden)
      ensures root == old(root) && lines == old(lines)
    {
      showHidden := !showHidden;
    }

    /** One turn of the main loop: dispatch the word to its handler.
        `lineOf` resolves a character address to the line holding it;
        `plan9Set` says whether $PLAN9 is set and `xplorFound` whether
        xplor is on the PATH. */
    method Handle(fs: FileSystem, word: string, lineOf: string -> nat, plan9Set: bool, xplorFound: bool)
      returns (e: Effect)
      requires word != [] && AllReadable(lines)
      modifies this
      ensures AllReadable(lines)
      ensures ProperNames(fs) && old(WellFormed(lines)) ==> WellFormed(lines)
      ensures var c := Classify(word);
        && (c.DotDot? ==> root == Parent(old(root)) && showHidden == old(showHidden)
                          && Outcome(e, lines) == Fresh(fs, root, showHidden))
        && (c.Hidden? ==> showHidden == !old(showHidden) && root == old(root) && lines == old(lines) && e == Done)
        && (c.Win? ==> unchanged(this)
                       && e == if plan9Set then ExecIn(fs, root, lines, WinTool, c.loc, lineOf) else Done)
        && (c.Xplor? ==> unchanged(this)
                         && e == if xplorFound then ExecIn(fs, root, lines, XplorTool, c.loc, lineOf) else Logged)
        && (c.Exec? ==> unchanged(this) && e == Report(root, lines, lineOf(c.charaddr)))
        && (c.Look? ==> root == old(root) && showHidden == old(showHidden)
                        && Outcome(e, lines) == LookAt(fs, root, showHidden, old(lines), lineOf(c.charaddr)))
    {
      var c := Classify(word);
      match c {
        case DotDot =>
          e := DoDotDot(fs);
          if ProperNames(fs) {
            FreshWellFormed(fs, root, showHidden);
          }
        case Hidden =>
          ToggleHidden();
          e := Done;
        case Win(loc) =>
          e := if plan9Set then ExecIn(fs, root, lines, WinTool, loc, lineOf) else Done;
        case Xplor(loc) =>
          e := if xplorFound then ExecIn(fs, root, lines, XplorTool, loc, lineOf) else Logged;
        case Exec(a) =>
          e := Report(root, lines, lineOf(a));
        case Look(a) =>
          e := OnLook(fs, lineOf(a));
          LookKeepsReadable(fs, root, showHidden, old(lines), lineOf(a));
          if ProperNames(fs) && WellFormed(old(lines)) {
            LookKeepsWellFormed(fs, root, showHidden, old(lines), lineOf(a));
          }
      }
    }
  }

  /** getDepth(readLine(...)) on line `j` of the body: the depth and the
      name the line is read back with. */
  method ReadEntry(buf: Buffer, j: nat) returns (depth: nat, name: string)
    requires AllReadable(buf) && j < |buf|
    ensures depth == Depths(buf)[j] && name == Names(buf)[j]
  {
    ReadBack(buf[j]);
    var text := ReadLine(buf[j]);
    depth, name := GetDepth(text).0, GetDepth(text).1;
  }

  /** The depth getDepth(readLine(...)) reads on line `j` of the body. */
  method ReadDepth(buf: Buffer, j: nat) returns (depth: nat)
    requires AllReadable(buf) && j < |buf|
    ensures depth == Depths(buf)[j]
  {
    ReadBack(buf[j]);
    var text := ReadLine(buf[j]);
    depth := GetDepth(text).0;
  }

  /** The collapse loop of onLook: read the lines below node `i` (of
      depth `depth`) until one is no deeper, and return how many deeper
      lines came before it; None when a read runs past the end of the
      body. The first address names the line after the node, and so does
      the second; from then on the offset follows the line counter. */
  method ScanDown(buf: Buffer, i: nat, depth: nat) returns (r: Option<nat>)
    requires AllReadable(buf) && i + 1 < |buf| && LineDepth(buf[i + 1]) > depth
    ensures r == DeeperRun(buf, i + 1, depth)
  {
    var nextdepth := depth + 1;
    var nextline := 1;
    var o := 1;
    ghost var last := 1;
    while nextdepth > depth
      invariant 1 <= nextline <= |buf| - i + 1
      invariant o == if nextline == 1 then 1 else nextline - 1
      invariant last == if nextline <= 2 then 1 else nextline - 2
      invariant nextline == 1 ==> nextdepth == depth + 1
      invariant nextline >= 2 ==> i + last < |buf| && nextdepth == LineDepth(buf[i + last])
      invariant forall j :: i + 1 <= j < i + last ==> LineDepth(buf[j]) > depth
      decreases |buf| - i + 1 - nextline
    {
      if i + o >= |buf| {
        return None;
      }
      nextdepth := ReadDepth(buf, i + o);
      last := o;
      nextline := nextline + 1;
      o := nextline - 1;
    }
    nextline := nextline - 1;
    DeeperRunIs(buf, i + 1, depth, nextline - 2);
    return Some(nextline - 2);
  }

  /** The scan loop of getParents: walk up from line `i - k` to the
      nearest line shallower than `d` and return how far up it is; None
      when the scan runs off the top of the body. */
  method ScanUp(buf: Buffer, i: nat, d: nat, k: nat) returns (r: Option<nat>)
    requires AllReadable(buf) && i < |buf| && 1 <= k <= i + 1
    ensures r == ScanBack(Depths(buf), i, d, k)
  {
    ghost var ds := Depths(buf);
    var prevline := k;
    while true
      invariant k <= prevline <= i + 1
      invariant ScanBack(ds, i, d, prevline) == ScanBack(ds, i, d, k)
      decreases i + 1 - prevline
    {
      if prevline > i {
        return None;
      }
      var newdepth := ReadDepth(buf, i - prevline);
      if newdepth < d {
        return Some(prevline);
      }
      prevline := prevline + 1;
    }
  }

  /** getParents: the parents of line `i` at depth `d`, found by scanning
      up for the nearest shallower line and joining its own parents with
      its name. None stands for the process exit when a scan runs off the
      top of the body. */
  method Parents(buf: Buffer, i: nat, d: nat, k: nat) returns (r: Option<Path>)
    requires AllReadable(buf) && i < |buf| && 1 <= k <= i + 1
    decreases d
    ensures r == GetParents(Depths(buf), Names(buf), i, d, k)
  {
    if d == 0 {
      return Some([]);
    }
    var o := ScanUp(buf, i, d, k);
    if o.None? {
      return None;
    }
    var newdepth, line := ReadEntry(buf, i - o.value);
    var p := Parents(buf, i, newdepth, o.value);
    if p.None? {
      return None;
    }
    return Some(Join(p.value, line));
  }

  // --------------------------------------------------------- properties

  /** A fresh top-level listing is a well-formed body. */
  lemma FreshWellFormed(fs: FileSystem, dir: Path, showHidden: bool)
    requires ProperNames(fs)
    ensures WellFormed(Fresh(fs, dir, showHidden).lines)
  {
    var r := Fresh(fs, dir, showHidden);
    var ls := DirListing(fs, dir, 0, showHidden).lines;
    ListingDepth(fs, dir, 0, showHidden);
    BlankLine();
    forall j | 0 <= j < |r.lines|
      ensures Readable(r.lines[j]) && LineDepth(r.lines[j]) == 0
    {
      if j >= |ls| {
        assert r.lines[j] == "\n";
      } else {
        assert r.lines[j] == ls[j];
      }
    }
    TopLevelWellFormed(r.lines);
  }

  /** Expanding or folding a directory keeps the body a well-formed
      pre-order listing: an expansion inserts lines exactly one level
      deeper than the node, a collapse removes a whole subtree. */
  lemma ToggleKeepsWellFormed(listing: Printed, buf: Buffer, i: nat)
    requires WellFormed(buf) && i < |buf|
    requires ReadsAt(listing.lines, LineDepth(buf[i]) + 1)
    ensures WellFormed(Toggle(listing, buf, i).lines)
  {
    var d := LineDepth(buf[i]);
    var fold := IsFolded(buf, i);
    if fold.failed {
    } else if fold.folded {
      InsertKeepsWellFormed(buf, i, listing.lines);
    } else if DeeperRun(buf, i + 1, d).Some? {
      DeleteKeepsWellFormed(buf, i, DeeperRun(buf, i + 1, d).value);
    }
  }

  /** Expanding or folding a directory leaves every line readable. */
  lemma ToggleKeepsReadable(listing: Printed, buf: Buffer, i: nat)
    requires AllReadable(buf) && i < |buf|
    requires ReadsFrom(listing.lines, LineDepth(buf[i]) + 1)
    ensures AllReadable(Toggle(listing, buf, i).lines)
  {
    var d := LineDepth(buf[i]);
    var fold := IsFolded(buf, i);
    if fold.failed {
    } else if fold.folded {
      InsertReadable(buf, i + 1, listing.lines);
    } else if DeeperRun(buf, i + 1, d).Some? {
      DepthsDelete(buf, i, DeeperRun(buf, i + 1, d).value);
    }
  }

  /** A click on a directory keeps the body well formed, its listing
      being one level deeper than the clicked line. */
  lemma ExpandListingWellFormed(fs: FileSystem, p: Path, showHidden: bool, buf: Buffer, i: nat)
    requires WellFormed(buf) && ProperNames(fs) && i < |buf|
    ensures WellFormed(Toggle(DirListing(fs, p, LineDepth(buf[i]) + 1, showHidden), buf, i).lines)
  {
    ListingDepth(fs, p, LineDepth(buf[i]) + 1, showHidden);
    ToggleKeepsWellFormed(DirListing(fs, p, LineDepth(buf[i]) + 1, showHidden), buf, i);
  }

  /** A click on a directory leaves every line readable. */
  lemma ExpandListingReadable(fs: FileSystem, p: Path, showHidden: bool, buf: Buffer, i: nat)
    requires AllReadable(buf) && i < |buf|
    ensures AllReadable(Toggle(DirListing(fs, p, LineDepth(buf[i]) + 1, showHidden), buf, i).lines)
  {
    ListingDepth(fs, p, LineDepth(buf[i]) + 1, showHidden);
    ToggleKeepsReadable(DirListing(fs, p, LineDepth(buf[i]) + 1, showHidden), buf, i);
  }

  /** A click keeps the body a well-formed pre-order listing. */
  lemma LookKeepsWellFormed(fs: FileSystem, root: Path, showHidden: bool, buf: Buffer, i: nat)
    requires WellFormed(buf) && ProperNames(fs)
    ensures WellFormed(LookAt(fs, root, showHidden, buf, i).lines)
  {
    var g := GetFullPath(root, buf, i);
    if g.Found? && fs.stat(g.path) == IsDir {
      ExpandListingWellFormed(fs, g.path, showHidden, buf, i);
    }
  }

  /** A click leaves every line of the body readable. */
  lemma LookKeepsReadable(fs: FileSystem, root: Path, showHidden: bool, buf: Buffer, i: nat)
    requires AllReadable(buf)
    ensures AllReadable(LookAt(fs, root, showHidden, buf, i).lines)
  {
    var g := GetFullPath(root, buf, i);
    if g.Found? && fs.stat(g.path) == IsDir {
      ExpandListingReadable(fs, g.path, showHidden, buf, i);
    }
  }

  /** Expanding or folding a directory never edits its own line or any
      line above it. */
  lemma ToggleEditsBelow(listing: Printed, buf: Buffer, i: nat)
    requires AllReadable(buf) && i < |buf|
    ensures var r := Toggle(listing, buf, i).lines;
      i < |r| && r[..i + 1] == buf[..i + 1]
  {
    var fold := IsFolded(buf, i);
    if fold.failed {
    } else if fold.folded {
      ToggleExpands(listing, buf, i);
      assert InsertAt(buf, i + 1, listing.lines)[..i + 1] == buf[..i + 1];
    } else {
      ToggleFolds(listing, buf, i);
      var run := DeeperRun(buf, i + 1, LineDepth(buf[i]));
      if run.Some? {
        assert DeleteAfter(buf, i, run.value)[..i + 1] == buf[..i + 1];
      }
    }
  }

  /** A click never edits the clicked line or any line above it; a click
      past the last line edits nothing. */
  lemma LookEditsBelow(fs: FileSystem, root: Path, showHidden: bool, buf: Buffer, i: nat)
    requires AllReadable(buf)
    ensures var r := LookAt(fs, root, showHidden, buf, i).lines;
      && (i < |buf| ==> i < |r| && r[..i + 1] == buf[..i + 1])
      && (i >= |buf| ==> r == buf)
  {
    var g := GetFullPath(root, buf, i);
    if g.Found? && fs.stat(g.path) == IsDir {
      ToggleEditsBelow(DirListing(fs, g.path, LineDepth(buf[i]) + 1, showHidden), buf, i);
    }
  }

  /** Expanding a folded directory and then folding it again gives back
      the body it started from: the expansion inserts the listing right
      below the node, and the fold finds exactly those lines deeper than
      the node and removes them. */
  lemma ToggleTwiceRestores(listing: Printed, buf: Buffer, i: nat)
    requires AllReadable(buf) && i < |buf|
    requires IsFolded(buf, i) == FoldCheck(true, false)
    requires ReadsFrom(listing.lines, LineDepth(buf[i]) + 1)
    ensures var once := Toggle(listing, buf, i);
      && once.lines == InsertAt(buf, i + 1, listing.lines)
      && i < |once.lines| && AllReadable(once.lines)
      && Toggle(listing, once.lines, i).lines == buf
  {
    var block := listing.lines;
    var nb := InsertAt(buf, i + 1, block);
    ToggleExpands(listing, buf, i);
    ExpandThenCollapse(buf, i, block);
    assert nb[i] == buf[i];
    if block == [] {
      assert nb == buf;
      ToggleExpands(listing, nb, i);
    } else {
      ToggleFolds(listing, nb, i);
    }
  }

  /** Clicking a folded directory twice gives back the body it started
      from: the second click finds the same path for the clicked line,
      since the lines above it are untouched, and folds what the first
      click inserted. */
  lemma LookTwiceRestores(fs: FileSystem, root: Path, showHidden: bool, buf: Buffer, i: nat, p: Path)
    requires AllReadable(buf)
    requires GetFullPath(root, buf, i) == Found(p) && fs.stat(p) == IsDir
    requires IsFolded(buf, i) == FoldCheck(true, false)
    ensures var once := LookAt(fs, root, showHidden, buf, i);
      && AllReadable(once.lines)
      && once.lines == InsertAt(buf, i + 1, DirListing(fs, p, LineDepth(buf[i]) + 1, showHidden).lines)
      && LookAt(fs, root, showHidden, once.lines, i).lines == buf
  {
    var listing := DirListing(fs, p, LineDepth(buf[i]) + 1, showHidden);
    ListingDepth(fs, p, LineDepth(buf[i]) + 1, showHidden);
    assert LookAt(fs, root, showHidden, buf, i) == Toggle(listing, buf, i);
    ToggleTwiceRestores(listing, buf, i);
    ToggleEditsBelow(listing, buf, i);
    var nb := Toggle(listing, buf, i).lines;
    GetFullPathPrefix(root, buf, nb, i);
    assert nb[i] == nb[..i + 1][i] == buf[i];
    assert LookAt(fs, root, showHidden, nb, i) == Toggle(listing, nb, i);
  }
}
