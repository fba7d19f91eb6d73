/** What one directory listing writes into the window: the entries of a
    directory, sorted by name, with hidden names left out unless asked for,
    entries that vanished before they could be stat'ed skipped, and any
    other stat error stopping the listing where it is. */
module Listing {
  import opened LineCodec
  import opened Paths

  /** What stat reports for a path. */
  datatype Stat = IsDir | IsFile | NotFound | StatFailed

  /** What opening a directory and reading its names yields. */
  datatype DirList = Unlistable | Entries(names: seq<string>)

  /** The filesystem at the moment of an operation: the listing and the stat
      result of every path. */
  datatype FileSystem = FileSystem(list: Path -> DirList, stat: Path -> Stat)

  // ------------------------------------------------------------ sort.Strings

  /** Go's string order: lexicographic on bytes. Comparing characters by code
      point orders their UTF-8 encodings the same way. */
  predicate Below(a: string, b: string)
  {
    a == [] || (b != [] && (a[0] < b[0] || (a[0] == b[0] && Below(a[1..], b[1..]))))
  }

  /** Any two strings are comparable. */
  lemma {:induction false} BelowTotal(a: string, b: string)
    ensures Below(a, b) || Below(b, a)
  {
    if a != [] && b != [] && a[0] == b[0] {
      BelowTotal(a[1..], b[1..]);
    }
  }

  /** The order is transitive. */
  lemma {:induction false} BelowTrans(a: string, b: string, c: string)
    requires Below(a, b) && Below(b, c)
    ensures Below(a, c)
  {
    if a != [] && a[0] == c[0] {
      BelowTrans(a[1..], b[1..], c[1..]);
    }
  }

  /** The order is antisymmetric: two strings below each other are equal. */
  lemma {:induction false} BelowAntisym(a: string, b: string)
    requires Below(a, b) && Below(b, a)
    ensures a == b
  {
    if a != [] {
      BelowAntisym(a[1..], b[1..]);
      assert a == [a[0]] + a[1..] && b == [b[0]] + b[1..];
    }
  }

  /** Every string is ordered before every later one. */
  ghost predicate Sorted(s: seq<string>)
  {
    forall i, j :: 0 <= i < j < |s| ==> Below(s[i], s[j])
  }

  /** A string below the head of a sorted sequence is below all of it. */
  lemma BelowAll(x: string, s: seq<string>)
    requires Sorted(s) && s != [] && Below(x, s[0])
    ensures forall j :: 0 <= j < |s| ==> Below(x, s[j])
  {
    forall j | 0 < j < |s|
      ensures Below(x, s[j])
    {
      BelowTrans(x, s[0], s[j]);
    }
  }

  /** The head of a sorted sequence is below every element of a sequence
      holding its tail and one more string above the head. */
  lemma HeadBelow(x: string, s: seq<string>, t: seq<string>)
    requires Sorted(s) && s != [] && Below(s[0], x)
    requires multiset(t) == multiset(s[1..]) + multiset{x}
    ensures forall j :: 0 <= j < |t| ==> Below(s[0], t[j])
  {
    forall j | 0 <= j < |t|
      ensures Below(s[0], t[j])
    {
      assert t[j] in multiset(t);
      if t[j] != x {
        assert t[j] in multiset(s[1..]);
        var m :| 0 <= m < |s[1..]| && s[1..][m] == t[j];
        assert s[1 + m] == t[j];
      }
    }
  }

  /** One step of insertion sort: `x` put in its place in a sorted sequence. */
  function InsertSorted(x: string, s: seq<string>): (r: seq<string>)
    requires Sorted(s)
    ensures Sorted(r)
    ensures multiset(r) == multiset(s) + multiset{x}
  {
    if s == [] then [x]
    else if Below(x, s[0]) then
      BelowAll(x, s);
      [x] + s
    else
      var t := InsertSorted(x, s[1..]);
      BelowTotal(x, s[0]);
      HeadBelow(x, s, t);
      assert s == [s[0]] + s[1..];
      [s[0]] + t
  }

  /** sort.Strings: the names in Go's string order, and no name gained or
      lost. */
  function SortStrings(names: seq<string>): (r: seq<string>)
    ensures Sorted(r)
    ensures multiset(r) == multiset(names)
  {
    if names == [] then []
    else
      assert names == [names[0]] + names[1..];
      InsertSorted(names[0], SortStrings(names[1..]))
  }

  /** The heads of two sorted permutations of the same names are equal. */
  lemma SortedHeads(a: seq<string>, b: seq<string>)
    requires Sorted(a) && Sorted(b) && multiset(a) == multiset(b) && a != [] && b != []
    ensures a[0] == b[0]
  {
    assert a[0] in multiset(b) && b[0] in multiset(a);
    var i :| 0 <= i < |b| && b[i] == a[0];
    var j :| 0 <= j < |a| && a[j] == b[0];
    BelowRefl(a[0]);
    BelowRefl(b[0]);
    assert Below(b[0], b[i]) && Below(a[0], a[j]);
    BelowAntisym(a[0], b[0]);
  }

  /** The tail of a sorted sequence is sorted. */
  lemma SortedTail(a: seq<string>)
    requires Sorted(a) && a != []
    ensures Sorted(a[1..])
  {
    forall i, j | 0 <= i < j < |a[1..]|
      ensures Below(a[1..][i], a[1..][j])
    {
      assert a[1..][i] == a[i + 1] && a[1..][j] == a[j + 1];
    }
  }

  /** A sorted order of a set of names is unique: any two sorted
      permutations of the same names are equal. */
  lemma {:induction false} SortedUnique(a: seq<string>, b: seq<string>)
    requires Sorted(a) && Sorted(b) && multiset(a) == multiset(b)
    ensures a == b
    decreases |a|
  {
    assert |a| == |multiset(a)| == |b|;
    if a != [] {
      SortedHeads(a, b);
      assert a == [a[0]] + a[1..] && b == [b[0]] + b[1..];
      assert multiset(a[1..]) == multiset(a) - multiset{a[0]};
      assert multiset(b[1..]) == multiset(b) - multiset{b[0]};
      SortedTail(a);
      SortedTail(b);
      SortedUnique(a[1..], b[1..]);
    }
  }

  /** Every string is below itself. */
  lemma {:induction false} BelowRefl(a: string)
    ensures Below(a, a)
  {
    if a != [] {
      BelowRefl(a[1..]);
    }
  }

  // --------------------------------------------------------- one listing

  /** A name that starts with a dot is hidden. */
  predicate IsHidden(name: string)
  {
    |name| > 0 && name[0] == '.'
  }

  /** The listing looks at `name`: it is not hidden, or hidden names are shown. */
  predicate Shown(showHidden: bool, name: string)
  {
    showHidden || !IsHidden(name)
  }

  /** The line written for an entry of `dir` that stat found. */
  function EntryLine(fs: FileSystem, dir: Path, depth: nat, name: string): string
  {
    EncodeLine(fs.stat(Join(dir, name)) == IsDir, depth, name)
  }

  /** What a listing leaves behind: the lines it wrote, whether it failed
      (the directory could not be read, or a stat failed other than with
      "not found"), and whether the last stat it made found nothing. */
  datatype Printed = Printed(lines: seq<string>, failed: bool, lastMissing: bool)

  /** The loop of printDirContents over names already sorted, read from the
      last name back: each shown name is stat'ed; "not found" skips it, any
      other error stops the loop, a directory or a file writes its line. */
  function PrintNames(fs: FileSystem, dir: Path, depth: nat, showHidden: bool, names: seq<string>): (r: Printed)
    ensures |r.lines| <= |names|
    ensures r.failed ==> !r.lastMissing
  {
    if names == [] then Printed([], false, false)
    else
      var prev := PrintNames(fs, dir, depth, showHidden, names[..|names| - 1]);
      var v := names[|names| - 1];
      if prev.failed || !Shown(showHidden, v) then prev
      else
        match fs.stat(Join(dir, v))
        case NotFound => Printed(prev.lines, false, true)
        case StatFailed => Printed(prev.lines, true, false)
        case IsDir => Printed(prev.lines + [EntryLine(fs, dir, depth, v)], false, false)
        case IsFile => Printed(prev.lines + [EntryLine(fs, dir, depth, v)], false, false)
  }

  /** printDirContents as a value: read the directory (failing with nothing
      written when it cannot be read), sort its names, and print them. */
  function DirListing(fs: FileSystem, dir: Path, depth: nat, showHidden: bool): (r: Printed)
    ensures fs.list(dir).Unlistable? ==> r == Printed([], true, false)
    ensures fs.list(dir).Entries? ==> |r.lines| <= |fs.list(dir).names|
  {
    match fs.list(dir)
    case Unlistable => Printed([], true, false)
    case Entries(names) =>
      var sorted := SortStrings(names);
      assert |sorted| == |multiset(sorted)| == |names|;
      PrintNames(fs, dir, depth, showHidden, sorted)
  }

  // ------------------------------------------------- reference definitions

  /** A name the listing writes a line for. */
  predicate Kept(fs: FileSystem, dir: Path, showHidden: bool, name: string)
  {
    Shown(showHidden, name) && (fs.stat(Join(dir, name)) == IsDir || fs.stat(Join(dir, name)) == IsFile)
  }

  /** A name whose stat stops the listing. */
  predicate Fatal(fs: FileSystem, dir: Path, showHidden: bool, name: string)
  {
    Shown(showHidden, name) && fs.stat(Join(dir, name)) == StatFailed
  }

  /** The kept names, in order, read from the front. */
  function Visible(fs: FileSystem, dir: Path, showHidden: bool, names: seq<string>): (r: seq<string>)
    ensures |r| <= |names|
  {
    if names == [] then []
    else
      var head := if Kept(fs, dir, showHidden, names[0]) then [names[0]] else [];
      head + Visible(fs, dir, showHidden, names[1..])
  }

  /** The position of the first name whose stat stops the listing, or the
      number of names when there is none. */
  function FirstFatal(fs: FileSystem, dir: Path, showHidden: bool, names: seq<string>): (f: nat)
    ensures f <= |names|
    ensures forall j :: 0 <= j < f ==> !Fatal(fs, dir, showHidden, names[j])
    ensures f < |names| ==> Fatal(fs, dir, showHidden, names[f])
  {
    if names == [] then 0
    else if Fatal(fs, dir, showHidden, names[0]) then 0
    else 1 + FirstFatal(fs, dir, showHidden, names[1..])
  }

  /** The lines written for a sequence of kept names. */
  function EntryLines(fs: FileSystem, dir: Path, depth: nat, names: seq<string>): (r: seq<string>)
    ensures |r| == |names|
  {
    if names == [] then [] else [EntryLine(fs, dir, depth, names[0])] + EntryLines(fs, dir, depth, names[1..])
  }

  lemma {:induction false} VisibleSnoc(fs: FileSystem, dir: Path, showHidden: bool, s: seq<string>, x: string)
    ensures Visible(fs, dir, showHidden, s + [x])
         == Visible(fs, dir, showHidden, s) + (if Kept(fs, dir, showHidden, x) then [x] else [])
  {
    if s != [] {
      assert (s + [x])[1..] == s[1..] + [x];
      VisibleSnoc(fs, dir, showHidden, s[1..], x);
    }
  }

  lemma {:induction false} FirstFatalSnoc(fs: FileSystem, dir: Path, showHidden: bool, s: seq<string>, x: string)
    ensures FirstFatal(fs, dir, showHidden, s + [x])
         == if FirstFatal(fs, dir, showHidden, s) < |s| then FirstFatal(fs, dir, showHidden, s)
            else if Fatal(fs, dir, showHidden, x) then |s| else |s| + 1
  {
    if s != [] {
      assert (s + [x])[1..] == s[1..] + [x];
      FirstFatalSnoc(fs, dir, showHidden, s[1..], x);
    }
  }

  lemma {:induction false} EntryLinesAppend(fs: FileSystem, dir: Path, depth: nat, a: seq<string>, b: seq<string>)
    ensures EntryLines(fs, dir, depth, a + b) == EntryLines(fs, dir, depth, a) + EntryLines(fs, dir, depth, b)
  {
    if a != [] {
      assert (a + b)[0] == a[0] && (a + b)[1..] == a[1..] + b;
      EntryLinesAppend(fs, dir, depth, a[1..], b);
    } else {
      assert a + b == b;
    }
  }

  /** One more name, read at the end of the listing. */
  lemma PrintNamesSnoc(fs: FileSystem, dir: Path, depth: nat, showHidden: bool, s: seq<string>, x: string)
    ensures var prev := PrintNames(fs, dir, depth, showHidden, s);
      PrintNames(fs, dir, depth, showHidden, s + [x])
      == if prev.failed then prev
         else if Kept(fs, dir, showHidden, x) then Printed(prev.lines + [EntryLine(fs, dir, depth, x)], false, false)
         else if Fatal(fs, dir, showHidden, x) then Printed(prev.lines, true, false)
         else if Shown(showHidden, x) then Printed(prev.lines, false, true)
         else prev
  {
    assert (s + [x])[..|s|] == s;
  }

  /** The listing loop against its reference: it fails exactly when some
      shown name has a stat error other than "not found", and it writes the
      lines of the kept names that come before the first such name. */
  predicate Filters(fs: FileSystem, dir: Path, depth: nat, showHidden: bool, names: seq<string>)
  {
    var f := FirstFatal(fs, dir, showHidden, names);
    && PrintNames(fs, dir, depth, showHidden, names).failed == (f < |names|)
    && PrintNames(fs, dir, depth, showHidden, names).lines
       == EntryLines(fs, dir, depth, Visible(fs, dir, showHidden, names[..f]))
  }

  lemma {:induction false} PrintNamesFilters(fs: FileSystem, dir: Path, depth: nat, showHidden: bool, names: seq<string>)
    ensures var f := FirstFatal(fs, dir, showHidden, names);
      && PrintNames(fs, dir, depth, showHidden, names).failed == (f < |names|)
      && PrintNames(fs, dir, depth, showHidden, names).lines
         == EntryLines(fs, dir, depth, Visible(fs, dir, showHidden, names[..f]))
    decreases |names|
  {
    if names != [] {
      var s, x := names[..|names| - 1], names[|names| - 1];
      assert names == s + [x];
      PrintNamesFilters(fs, dir, depth, showHidden, s);
      FiltersSnoc(fs, dir, depth, showHidden, s, x);
    } else {
      assert names[..0] == [];
    }
  }

  /** The inductive step of PrintNamesFilters: one more name at the end. */
  lemma FiltersSnoc(fs: FileSystem, dir: Path, depth: nat, showHidden: bool, s: seq<string>, x: string)
    requires Filters(fs, dir, depth, showHidden, s)
    ensures Filters(fs, dir, depth, showHidden, s + [x])
  {
    PrintNamesSnoc(fs, dir, depth, showHidden, s, x);
    FirstFatalSnoc(fs, dir, showHidden, s, x);
    if FirstFatal(fs, dir, showHidden, s) < |s| {
      FiltersAfterFatal(fs, dir, depth, showHidden, s, x);
    } else {
      FiltersBeforeFatal(fs, dir, depth, showHidden, s, x);
    }
  }

  /** Once a stat error has stopped the listing, further names change
      nothing. */
  lemma FiltersAfterFatal(fs: FileSystem, dir: Path, depth: nat, showHidden: bool, s: seq<string>, x: string)
    requires Filters(fs, dir, depth, showHidden, s)
    requires FirstFatal(fs, dir, showHidden, s) < |s|
    ensures Filters(fs, dir, depth, showHidden, s + [x])
  {
    var names := s + [x];
    var f := FirstFatal(fs, dir, showHidden, s);
    PrintNamesSnoc(fs, dir, depth, showHidden, s, x);
    FirstFatalSnoc(fs, dir, showHidden, s, x);
    assert names[..f] == s[..f];
  }

  /** Before any stat error, the next name adds its line when it is kept,
      stops the listing when its stat fails, and is skipped otherwise. */
  lemma FiltersBeforeFatal(fs: FileSystem, dir: Path, depth: nat, showHidden: bool, s: seq<string>, x: string)
    requires Filters(fs, dir, depth, showHidden, s)
    requires FirstFatal(fs, dir, showHidden, s) == |s|
    ensures Filters(fs, dir, depth, showHidden, s + [x])
  {
    assert s[..|s|] == s;
    if Kept(fs, dir, showHidden, x) {
      FiltersKept(fs, dir, depth, showHidden, s, x);
    } else if Fatal(fs, dir, showHidden, x) {
      PrintNamesSnoc(fs, dir, depth, showHidden, s, x);
      FirstFatalSnoc(fs, dir, showHidden, s, x);
      assert (s + [x])[..|s|] == s;
    } else {
      PrintNamesSnoc(fs, dir, depth, showHidden, s, x);
      FirstFatalSnoc(fs, dir, showHidden, s, x);
      VisibleSnoc(fs, dir, showHidden, s, x);
      assert (s + [x])[..|s| + 1] == s + [x];
      assert Visible(fs, dir, showHidden, s) + [] == Visible(fs, dir, showHidden, s);
    }
  }

  /** Before any stat error, a kept name adds its own line. */
  lemma FiltersKept(fs: FileSystem, dir: Path, depth: nat, showHidden: bool, s: seq<string>, x: string)
    requires FirstFatal(fs, dir, showHidden, s) == |s| && Kept(fs, dir, showHidden, x)
    requires PrintNames(fs, dir, depth, showHidden, s)
      == Printed(EntryLines(fs, dir, depth, Visible(fs, dir, showHidden, s)), false, PrintNames(fs, dir, depth, showHidden, s).lastMissing)
    ensures Filters(fs, dir, depth, showHidden, s + [x])
  {
    var vis := Visible(fs, dir, showHidden, s);
    PrintNamesSnoc(fs, dir, depth, showHidden, s, x);
    FirstFatalSnoc(fs, dir, showHidden, s, x);
    VisibleSnoc(fs, dir, showHidden, s, x);
    EntryLinesAppend(fs, dir, depth, vis, [x]);
    assert (s + [x])[..|s| + 1] == s + [x];
  }

  /** Every kept name is one of the given names, shown, and stat'ed as a
      directory or a file. */
  lemma {:induction false} VisibleKept(fs: FileSystem, dir: Path, showHidden: bool, names: seq<string>)
    ensures forall y :: y in Visible(fs, dir, showHidden, names) ==> y in names && Kept(fs, dir, showHidden, y)
  {
    if names != [] {
      VisibleKept(fs, dir, showHidden, names[1..]);
    }
  }

  /** Leaving names out keeps them sorted. */
  lemma {:induction false} VisibleSorted(fs: FileSystem, dir: Path, showHidden: bool, names: seq<string>)
    requires Sorted(names)
    ensures Sorted(Visible(fs, dir, showHidden, names))
  {
    if names != [] {
      var rest := Visible(fs, dir, showHidden, names[1..]);
      VisibleSorted(fs, dir, showHidden, names[1..]);
      VisibleKept(fs, dir, showHidden, names[1..]);
      if Kept(fs, dir, showHidden, names[0]) {
        var r := [names[0]] + rest;
        forall i, j | 0 <= i < j < |r|
          ensures Below(r[i], r[j])
        {
          if i == 0 {
            assert r[j] in rest;
            var m :| 0 <= m < |names[1..]| && names[1..][m] == r[j];
            assert names[1 + m] == r[j];
          } else {
            assert r[i] == rest[i - 1] && r[j] == rest[j - 1];
          }
        }
      }
    }
  }

  /** `line` reads back at `depth` with the name `x`, and is flagged as a
      directory exactly when stat says `x` is one. */
  predicate DecodesAs(fs: FileSystem, dir: Path, depth: nat, line: string, x: string)
  {
    && Readable(line)
    && LineDepth(line) == depth
    && LineName(line) == x
    && |line| >= 3
    && (line[..2] == DirFlag <==> fs.stat(Join(dir, x)) == IsDir)
  }

  /** The line written for one entry reads back as that entry. */
  lemma EntryLineDecodes(fs: FileSystem, dir: Path, depth: nat, x: string)
    requires Untabbed(x)
    ensures DecodesAs(fs, dir, depth, EntryLine(fs, dir, depth, x), x)
  {
    RoundTrip(fs.stat(Join(dir, x)) == IsDir, depth, x);
  }

  /** The `k`-th written line is the line of the `k`-th name. */
  lemma {:induction false} EntryLinesAt(fs: FileSystem, dir: Path, depth: nat, names: seq<string>, k: nat)
    requires k < |names|
    ensures EntryLines(fs, dir, depth, names)[k] == EntryLine(fs, dir, depth, names[k])
  {
    if k > 0 {
      EntryLinesAt(fs, dir, depth, names[1..], k - 1);
    }
  }

  /** Each written line reads back at the listing's depth, with the entry's
      name, flagged as a directory exactly when stat said so. */
  lemma EntryLinesDecode(fs: FileSystem, dir: Path, depth: nat, names: seq<string>)
    requires Tabless(names)
    ensures forall k :: 0 <= k < |names| ==> DecodesAs(fs, dir, depth, EntryLines(fs, dir, depth, names)[k], names[k])
  {
    forall k | 0 <= k < |names|
      ensures DecodesAs(fs, dir, depth, EntryLines(fs, dir, depth, names)[k], names[k])
    {
      EntryLinesAt(fs, dir, depth, names, k);
      EntryLineDecodes(fs, dir, depth, names[k]);
    }
  }

  /** With no stat error among its names, a listing writes the lines of the
      kept names in sorted order, and does not fail. */
  lemma ListingIsVisible(fs: FileSystem, dir: Path, depth: nat, showHidden: bool)
    requires fs.list(dir).Entries?
    requires forall y :: y in fs.list(dir).names ==> !Fatal(fs, dir, showHidden, y)
    ensures var r := DirListing(fs, dir, depth, showHidden);
      && !r.failed
      && r.lines == EntryLines(fs, dir, depth, Visible(fs, dir, showHidden, SortStrings(fs.list(dir).names)))
  {
    var sorted := SortStrings(fs.list(dir).names);
    NoFatalSorted(fs, dir, showHidden, fs.list(dir).names);
    assert DirListing(fs, dir, depth, showHidden) == PrintNames(fs, dir, depth, showHidden, sorted);
    assert sorted[..|sorted|] == sorted;
    PrintNamesFilters(fs, dir, depth, showHidden, sorted);
  }

  /** Sorting brings no stat error in. */
  lemma NoFatalSorted(fs: FileSystem, dir: Path, showHidden: bool, names: seq<string>)
    requires forall y :: y in names ==> !Fatal(fs, dir, showHidden, y)
    ensures FirstFatal(fs, dir, showHidden, SortStrings(names)) == |SortStrings(names)|
  {
    var sorted := SortStrings(names);
    forall j | 0 <= j < |sorted|
      ensures !Fatal(fs, dir, showHidden, sorted[j])
    {
      assert sorted[j] in multiset(names);
    }
  }

  /** Expanding a directory: with no stat error, the listing writes one
      line per entry that is shown and still exists, in sorted order, each
      reading back at the listing's depth with its entry's name; names of
      entries that vanished, and hidden names when they are not shown, are
      absent. */
  lemma ListingComplete(fs: FileSystem, dir: Path, depth: nat, showHidden: bool)
    requires fs.list(dir).Entries?
    requires forall y :: y in fs.list(dir).names ==> Untabbed(y) && !Fatal(fs, dir, showHidden, y)
    ensures var r := DirListing(fs, dir, depth, showHidden);
      && !r.failed
      && (forall k :: 0 <= k < |r.lines| ==> Readable(r.lines[k]) && LineDepth(r.lines[k]) == depth)
      && (forall k, l :: 0 <= k < l < |r.lines| ==> Below(LineName(r.lines[k]), LineName(r.lines[l])))
      && (forall k :: 0 <= k < |r.lines| ==>
            LineName(r.lines[k]) in fs.list(dir).names && Kept(fs, dir, showHidden, LineName(r.lines[k])))
      && (forall y :: y in fs.list(dir).names && Kept(fs, dir, showHidden, y) ==>
            exists k :: 0 <= k < |r.lines| && LineName(r.lines[k]) == y)
  {
    ListingLinesKept(fs, dir, depth, showHidden);
    ListingOrdered(fs, dir, depth, showHidden);
    ListingHasKept(fs, dir, depth, showHidden);
  }

  /** Every line of a listing without stat errors reads back at the
      listing's depth as a kept entry of the directory. */
  lemma ListingLinesKept(fs: FileSystem, dir: Path, depth: nat, showHidden: bool)
    requires fs.list(dir).Entries?
    requires forall y :: y in fs.list(dir).names ==> Untabbed(y) && !Fatal(fs, dir, showHidden, y)
    ensures var r := DirListing(fs, dir, depth, showHidden);
      && !r.failed
      && (forall k :: 0 <= k < |r.lines| ==> Readable(r.lines[k]) && LineDepth(r.lines[k]) == depth)
      && (forall k :: 0 <= k < |r.lines| ==>
            LineName(r.lines[k]) in fs.list(dir).names && Kept(fs, dir, showHidden, LineName(r.lines[k])))
  {
    var names := fs.list(dir).names;
    var sorted := SortStrings(names);
    var vis := Visible(fs, dir, showHidden, sorted);
    var r := DirListing(fs, dir, depth, showHidden);
    ListingDecodes(fs, dir, depth, showHidden);
    VisibleKept(fs, dir, showHidden, sorted);
    forall k | 0 <= k < |r.lines|
      ensures Readable(r.lines[k]) && LineDepth(r.lines[k]) == depth
      ensures LineName(r.lines[k]) in names && Kept(fs, dir, showHidden, LineName(r.lines[k]))
    {
      assert DecodesAs(fs, dir, depth, r.lines[k], vis[k]);
      assert vis[k] in vis;
      assert vis[k] in multiset(sorted);
    }
  }

  /** The lines of a listing without stat errors are in sorted order of
      their names. */
  lemma ListingOrdered(fs: FileSystem, dir: Path, depth: nat, showHidden: bool)
    requires fs.list(dir).Entries?
    requires forall y :: y in fs.list(dir).names ==> Untabbed(y) && !Fatal(fs, dir, showHidden, y)
    ensures var r := DirListing(fs, dir, depth, showHidden);
      && (forall k :: 0 <= k < |r.lines| ==> Readable(r.lines[k]))
      && (forall k, l :: 0 <= k < l < |r.lines| ==> Below(LineName(r.lines[k]), LineName(r.lines[l])))
  {
    var sorted := SortStrings(fs.list(dir).names);
    var vis := Visible(fs, dir, showHidden, sorted);
    var r := DirListing(fs, dir, depth, showHidden);
    ListingDecodes(fs, dir, depth, showHidden);
    VisibleSorted(fs, dir, showHidden, sorted);
    forall k | 0 <= k < |r.lines|
      ensures Readable(r.lines[k])
    {
      assert DecodesAs(fs, dir, depth, r.lines[k], vis[k]);
    }
    forall k, l | 0 <= k < l < |r.lines|
      ensures Below(LineName(r.lines[k]), LineName(r.lines[l]))
    {
      assert DecodesAs(fs, dir, depth, r.lines[k], vis[k]);
      assert DecodesAs(fs, dir, depth, r.lines[l], vis[l]);
    }
  }

  /** Every kept entry of the directory has a line in a listing without
      stat errors. */
  lemma ListingHasKept(fs: FileSystem, dir: Path, depth: nat, showHidden: bool)
    requires fs.list(dir).Entries?
    requires forall y :: y in fs.list(dir).names ==> Untabbed(y) && !Fatal(fs, dir, showHidden, y)
    ensures var r := DirListing(fs, dir, depth, showHidden);
      forall y :: y in fs.list(dir).names && Kept(fs, dir, showHidden, y) ==>
        exists k :: 0 <= k < |r.lines| && Readable(r.lines[k]) && LineName(r.lines[k]) == y
  {
    var names := fs.list(dir).names;
    var sorted := SortStrings(names);
    var vis := Visible(fs, dir, showHidden, sorted);
    var r := DirListing(fs, dir, depth, showHidden);
    ListingDecodes(fs, dir, depth, showHidden);
    forall y | y in names && Kept(fs, dir, showHidden, y)
      ensures exists k :: 0 <= k < |r.lines| && Readable(r.lines[k]) && LineName(r.lines[k]) == y
    {
      assert y in multiset(sorted);
      VisibleHas(fs, dir, showHidden, sorted, y);
      var k :| 0 <= k < |vis| && vis[k] == y;
      assert DecodesAs(fs, dir, depth, r.lines[k], vis[k]);
    }
  }

  /** Without stat errors, the listing's lines decode, one by one, as the
      kept names in sorted order. */
  lemma ListingDecodes(fs: FileSystem, dir: Path, depth: nat, showHidden: bool)
    requires fs.list(dir).Entries?
    requires forall y :: y in fs.list(dir).names ==> Untabbed(y) && !Fatal(fs, dir, showHidden, y)
    ensures var r := DirListing(fs, dir, depth, showHidden);
      var vis := Visible(fs, dir, showHidden, SortStrings(fs.list(dir).names));
      && !r.failed
      && |r.lines| == |vis|
      && forall k :: 0 <= k < |vis| ==> DecodesAs(fs, dir, depth, r.lines[k], vis[k])
  {
    var names := fs.list(dir).names;
    var sorted := SortStrings(names);
    ListingIsVisible(fs, dir, depth, showHidden);
    var vis := Visible(fs, dir, showHidden, sorted);
    VisibleKept(fs, dir, showHidden, sorted);
    forall y | y in vis
      ensures Untabbed(y)
    {
      assert y in multiset(sorted);
    }
    EntryLinesDecode(fs, dir, depth, vis);
  }

  /** A kept name among the given ones is among the visible ones. */
  lemma {:induction false} VisibleHas(fs: FileSystem, dir: Path, showHidden: bool, names: seq<string>, y: string)
    requires y in names && Kept(fs, dir, showHidden, y)
    ensures y in Visible(fs, dir, showHidden, names)
  {
    if names[0] != y {
      VisibleHas(fs, dir, showHidden, names[1..], y);
    }
  }

  /** A stat error other than "not found" on a shown name fails the
      listing, keeping the lines written before it. */
  lemma ListingStops(fs: FileSystem, dir: Path, depth: nat, showHidden: bool)
    requires fs.list(dir).Entries?
    requires exists y :: y in fs.list(dir).names && Fatal(fs, dir, showHidden, y)
    ensures DirListing(fs, dir, depth, showHidden).failed
  {
    var names := fs.list(dir).names;
    var sorted := SortStrings(names);
    var y :| y in names && Fatal(fs, dir, showHidden, y);
    assert y in multiset(sorted);
    var j :| 0 <= j < |sorted| && sorted[j] == y;
    PrintNamesFilters(fs, dir, depth, showHidden, sorted);
  }

  // ------------------------------------------------------------- finding

  /** The error value printDirContents returns as written: its named result
      still holds the last stat error, so a listing whose last stat'ed name
      had vanished reports failure though it completed. */
  function PrintErrorAsWritten(fs: FileSystem, dir: Path, depth: nat, showHidden: bool): (err: bool)
    ensures DirListing(fs, dir, depth, showHidden).failed ==> err
  {
    var r := DirListing(fs, dir, depth, showHidden);
    r.failed || r.lastMissing
  }

  /** A directory holding one entry that vanished before its stat: the
      listing completes and writes nothing, yet the error is reported. */
  lemma StaleLastEntryReportsFailure()
    ensures var fs := FileSystem(_ => Entries(["gone"]), _ => NotFound);
      && DirListing(fs, [], 0, false) == Printed([], false, true)
      && PrintErrorAsWritten(fs, [], 0, false)
  {
    var fs := FileSystem(_ => Entries(["gone"]), _ => NotFound);
    assert SortStrings(["gone"]) == ["gone"];
    assert ["gone"][..0] == [];
  }

  /** The error as intended: the directory could not be read, or a shown
      name failed to stat other than with "not found". */
  function PrintError(fs: FileSystem, dir: Path, depth: nat, showHidden: bool): (err: bool)
    ensures err <==> (fs.list(dir).Unlistable?
                      || exists y :: y in fs.list(dir).names && Fatal(fs, dir, showHidden, y))
  {
    ListingFailsIff(fs, dir, depth, showHidden);
    DirListing(fs, dir, depth, showHidden).failed
  }

  /** A listing fails exactly when the directory cannot be read or one of
      its shown names has a stat error other than "not found"; a vanished
      entry alone never fails it. */
  lemma ListingFailsIff(fs: FileSystem, dir: Path, depth: nat, showHidden: bool)
    ensures DirListing(fs, dir, depth, showHidden).failed
        <==> (fs.list(dir).Unlistable?
              || exists y :: y in fs.list(dir).names && Fatal(fs, dir, showHidden, y))
  {
    if fs.list(dir).Entries? {
      var names := fs.list(dir).names;
      var sorted := SortStrings(names);
      PrintNamesFilters(fs, dir, depth, showHidden, sorted);
      var f := FirstFatal(fs, dir, showHidden, sorted);
      if f < |sorted| {
        assert sorted[f] in multiset(names);
      } else {
        forall y | y in names
          ensures !Fatal(fs, dir, showHidden, y)
        {
          assert y in multiset(sorted);
        }
      }
    }
  }

  // ------------------------------------------------------ written lines

  /** Every line a listing writes can be read back, and reads back at
      least as deep as the listing, exactly as deep when no name starts
      with a tab. */
  lemma {:induction false} PrintNamesDepth(fs: FileSystem, dir: Path, depth: nat, showHidden: bool, names: seq<string>)
    ensures ReadsFrom(PrintNames(fs, dir, depth, showHidden, names).lines, depth)
    ensures Tabless(names) ==> ReadsAt(PrintNames(fs, dir, depth, showHidden, names).lines, depth)
  {
    if names != [] {
      var s, v := names[..|names| - 1], names[|names| - 1];
      assert names == s + [v];
      PrintNamesDepth(fs, dir, depth, showHidden, s);
      PrintNamesSnoc(fs, dir, depth, showHidden, s, v);
      var prev := PrintNames(fs, dir, depth, showHidden, s).lines;
      var ls := PrintNames(fs, dir, depth, showHidden, names).lines;
      var line := EntryLine(fs, dir, depth, v);
      assert ls == prev || ls == prev + [line];
      var isDir := fs.stat(Join(dir, v)) == IsDir;
      EncodedDepthAtLeast(isDir, depth, v);
      var tabless := Tabless(names);
      if tabless {
        assert v in names;
        RoundTrip(isDir, depth, v);
        assert forall y :: y in s ==> y in names;
      }
      forall k | 0 <= k < |ls|
        ensures Readable(ls[k]) && LineDepth(ls[k]) >= depth
        ensures tabless ==> LineDepth(ls[k]) == depth
      {
        if k < |prev| {
          assert ls[k] == prev[k];
        } else {
          assert ls[k] == line;
        }
      }
      assert ReadsFrom(ls, depth);
      assert tabless ==> ReadsAt(ls, depth);
    }
  }

  /** Every line reads back, at least `depth` deep. */
  predicate ReadsFrom(ls: seq<string>, depth: nat)
  {
    forall k :: 0 <= k < |ls| ==> Readable(ls[k]) && LineDepth(ls[k]) >= depth
  }

  /** Every line reads back exactly `depth` deep. */
  predicate ReadsAt(ls: seq<string>, depth: nat)
  {
    forall k :: 0 <= k < |ls| ==> Readable(ls[k]) && LineDepth(ls[k]) == depth
  }

  /** No name starts with the indentation unit. */
  predicate Tabless(names: seq<string>)
  {
    forall y :: y in names ==> Untabbed(y)
  }

  /** Every name of every directory listing is free of leading tabs. */
  ghost predicate ProperNames(fs: FileSystem)
  {
    forall p :: fs.list(p).Entries? ==> Tabless(fs.list(p).names)
  }

  /** The lines of a listing all read back at least as deep as the listing,
      and exactly as deep when the filesystem's names are proper. */
  lemma ListingDepth(fs: FileSystem, dir: Path, depth: nat, showHidden: bool)
    ensures ReadsFrom(DirListing(fs, dir, depth, showHidden).lines, depth)
    ensures ProperNames(fs) ==> ReadsAt(DirListing(fs, dir, depth, showHidden).lines, depth)
  {
    if fs.list(dir).Entries? {
      var names := fs.list(dir).names;
      var sorted := SortStrings(names);
      assert DirListing(fs, dir, depth, showHidden) == PrintNames(fs, dir, depth, showHidden, sorted);
      PrintNamesDepth(fs, dir, depth, showHidden, sorted);
      if ProperNames(fs) {
        assert Tabless(names);
        forall y | y in sorted
          ensures Untabbed(y)
        {
          assert y in multiset(sorted);
          assert y in multiset(names);
          assert y in names;
        }
        assert Tabless(sorted);
      }
    }
  }

  /** Once a stat error stops the listing, later names change nothing. */
  lemma {:induction false} FailureSticks(fs: FileSystem, dir: Path, depth: nat, showHidden: bool, names: seq<string>, k: nat)
    requires k <= |names| && PrintNames(fs, dir, depth, showHidden, names[..k]).failed
    ensures PrintNames(fs, dir, depth, showHidden, names) == PrintNames(fs, dir, depth, showHidden, names[..k])
    decreases |names| - k
  {
    if k < |names| {
      var s := names[..|names| - 1];
      assert s[..k] == names[..k];
      FailureSticks(fs, dir, depth, showHidden, s, k);
    } else {
      assert names[..k] == names;
    }
  }

  /** One more name of a sequence, as the loop meets it. */
  lemma PrintStep(fs: FileSystem, dir: Path, depth: nat, showHidden: bool, names: seq<string>, k: nat)
    requires k < |names|
    ensures var prev := PrintNames(fs, dir, depth, showHidden, names[..k]);
      var x := names[k];
      PrintNames(fs, dir, depth, showHidden, names[..k + 1])
      == if prev.failed then prev
         else if Kept(fs, dir, showHidden, x) then Printed(prev.lines + [EntryLine(fs, dir, depth, x)], false, false)
         else if Fatal(fs, dir, showHidden, x) then Printed(prev.lines, true, false)
         else if Shown(showHidden, x) then Printed(prev.lines, false, true)
         else prev
  {
    assert names[..k + 1] == names[..k] + [names[k]];
    PrintNamesSnoc(fs, dir, depth, showHidden, names[..k], names[k]);
  }
}
