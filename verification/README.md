# xplor, modelled in Dafny

xplor is a directory browser for the acme editor. It shows a directory
tree as indented text in an acme window and keeps no tree in memory.
Each line of the window body is a two-character flag (`"+ "` for a
directory, two blanks otherwise), one tab per level of depth, the entry's
name and a newline. When a click arrives, xplor works out the clicked
entry's depth, whether it is unfolded, and its full path again from the
text alone:

- a right click on a file sends its path to the plumber;
- a right click on a folded directory inserts its sorted listing one
  level deeper right below it;
- a right click on an unfolded directory deletes the run of deeper lines
  below it.

Tag commands move the root up a directory (`DotDot`), toggle hidden names
(`Hidden`), or start `win` or another xplor in a chosen directory (`Win`,
`Xplor`). A middle click in the body prints the full path of a line.

The model keeps the window body as a sequence of lines, each with its
trailing newline. A clicked entry is the index of its line. The
filesystem is a value giving, for every path, the directory listing and
the stat result at the moment of the operation. The files are:

- `line_codec.dfy` (module `LineCodec`): the line format, `readLine` and
  `getDepth`.
- `listing.dfy` (module `Listing`): `printDirContents` as a value (sort,
  hidden names, stat outcomes), with reference definitions of what it
  writes.
- `tree_inference.dfy` (module `TreeInference`): what is read back from
  the body. This covers depths, `isFolded`, the collapse scan, `getParents`
  and `getFullPath`. It also gives a top-down reference definition (the
  stack of ancestors of each line) and the facts that expanding and
  collapsing keep a body a well-formed pre-order listing.
- `dispatch.dfy` (module `Dispatch`): the prefix tests of the main loop.
- `session.dfy` (module `Xplor`):
  - specification functions for each event handler;
  - the class `Session`, holding `root`, `showHidden` and the body, whose
    methods are the handlers written imperatively and proved equal to
    those functions;
  - the loops of `getParents` and of the collapse as methods on the body;
  - invariants and round trips across clicks.
- `paths.dfy` (module `Paths`): absolute paths as sequences of segments.
- `wrappers.dfy` (module `Wrappers`): `Option`.

The Go code `getParents` is one function with a scan loop and a recursive
call. Here the scan loop is `Xplor.ScanUp` and the recursion is
`Xplor.Parents`. Both are proved against the function
`TreeInference.GetParents`. In the same way, the collapse loop is
`Xplor.ScanDown`, proved against `TreeInference.DeeperRun`.

## Model

| member | source | states |
|---|---|---|
| LineCodec.Tabs | xplor.go:133-136 | the indentation for `depth` is exactly `depth` copies of the one-tab INDENT |
| LineCodec.ReadLine | xplor.go:184-187 | readLine drops the two-byte flag and the final byte: the text is three bytes shorter than the line, or empty for a lone newline |
| LineCodec.GetDepth | xplor.go:190-194 | getDepth splits a text into its leading tabs and a rest: depth + length of the rest is the length of the text, the text is `depth` tabs followed by the rest, and the rest does not start with a tab |
| LineCodec.TabsFromIsGetDepth | xplor.go:190-194 | counting the tabs after position k of a line agrees with getDepth on that tail |
| LineCodec.ReadBack | xplor.go:184-194 | the depth and name read back from a line (getDepth of readLine) are LineDepth and LineName |
| LineCodec.GetDepthOfTabs | xplor.go:190-194 | getDepth of `depth` tabs followed by a name not starting with a tab returns exactly that depth and that name |
| LineCodec.EncodeLine | xplor.go:140-158 | the line written for an entry has length 2 + depth + name + 1, starts with "+ " exactly for a directory and "  " exactly otherwise, ends with a newline, and can be read back |
| LineCodec.ReadLineEncoded | xplor.go:140-187 | readLine on a written line hands back the tabs followed by the name |
| LineCodec.RoundTrip | xplor.go:140-194 | for a name not starting with a tab, reading back a written line yields the depth and name that were written |
| LineCodec.GetDepthAtLeast | xplor.go:190-194 | getDepth counts at least the tabs put in front of any name |
| LineCodec.EncodedDepthAtLeast | xplor.go:133-160 | whatever the name, a written line reads back at least as deep as it was written |
| LineCodec.BlankLine | xplor.go:164-169 | the blank lines after a top-level listing read back at depth 0 with an empty name |
| Paths.JoinExtends | xplor.go:143 | path.Join of a directory and one name extends the path by at most one segment, by exactly the name when it is not empty |
| Paths.JoinAll | xplor.go:232 | joining names onto a path adds at most one segment per name, and exactly the names when none is empty |
| Paths.Parent | xplor.go:347 | the parent of "/" is "/"; otherwise the parent followed by the last segment is the path |
| Dispatch.Classify | xplor.go:71-102 | the word is DotDot iff it starts with "DotDot"; Hidden iff it starts with "Hidden" and not "DotDot"; Win, Xplor and Exec carry the rest of the word after their prefix, an Xplor word never starts with "Win" and an Exec word never starts with "Xplor"; anything else is a look whose first character is not 'X' |
| Dispatch.Word | xplor.go:408-454 | every word the event loop sends is non-empty |
| Dispatch.ClassifyWord | xplor.go:71-102 | every word the event loop sends is dispatched back to the command it was sent for |
| Dispatch.XplorBeforeExec | xplor.go:88-100 | a word starting with "X" is an Xplor command or an Exec, and an Exec exactly when it does not start with "Xplor" |
| Listing.BelowTotal | xplor.go:132 | any two names are ordered one way or the other |
| Listing.BelowTrans | xplor.go:132 | the name order is transitive |
| Listing.BelowAntisym | xplor.go:132 | two names ordered both ways are equal |
| Listing.InsertSorted | xplor.go:132 | inserting a name into a sorted sequence keeps it sorted and adds exactly that name |
| Listing.SortStrings | xplor.go:132 | sort.Strings returns the names sorted, and as a permutation of its input |
| Listing.SortedUnique | xplor.go:132 | any two sorted permutations of the same names are equal, so the sorted order is determined by the names alone |
| Listing.PrintNames | xplor.go:139-162 | the loop writes at most one line per name, and a stopped loop does not also report a vanished last entry |
| Listing.DirListing | xplor.go:120-172 | an unreadable directory writes nothing and fails; otherwise at most one line is written per name |
| Listing.Visible | xplor.go:139-162 | the reference list of kept names, read from the front, is no longer than the names; Listing.PrintNamesFilters ties the loop to it |
| Listing.FirstFatal | xplor.go:144-152 | the reference position of the first shown name whose stat fails other than with "not found": no earlier name is such a name, and the name at that position is one |
| Listing.FailureSticks | xplor.go:150-152 | once a stat error stops the listing, later names change nothing |
| Listing.PrintNamesFilters | xplor.go:139-162 | the loop fails exactly when some shown name has a stat error other than "not found", and writes the lines of the kept names before the first such name, in order |
| Listing.EntryLinesDecode | xplor.go:139-160 | each written line reads back at the listing's depth with its entry's name, flagged as a directory exactly when stat said so |
| Listing.ListingIsVisible | xplor.go:120-162 | with no stat error, the listing does not fail and writes the lines of the kept names in sorted order |
| Listing.ListingDecodes | xplor.go:120-162 | with no stat error, the listing's lines decode one by one as the kept names in sorted order |
| Listing.ListingComplete | xplor.go:120-162 | with no stat error, every line reads back at the listing's depth, the names are in sorted order, every line names a shown entry that stat found as a file or directory, and every such entry has a line |
| Listing.ListingLinesKept | xplor.go:139-162 | every line of a listing without stat errors names a shown entry of the directory that stat found |
| Listing.ListingOrdered | xplor.go:132-162 | the lines of a listing without stat errors are in sorted order of their names |
| Listing.ListingHasKept | xplor.go:139-162 | every shown entry that stat found has a line in a listing without stat errors |
| Listing.ListingStops | xplor.go:144-152 | a stat error other than "not found" on a shown name fails the listing |
| Listing.PrintErrorAsWritten | xplor.go:120-172 | the error printDirContents returns as written: it is set whenever the listing failed (see Findings) |
| Listing.StaleLastEntryReportsFailure | xplor.go:144-171 | a directory whose only entry vanished before its stat lists completely, writes nothing, and still reports an error as written |
| Listing.PrintError | xplor.go:120-172 | the corrected error holds exactly when the directory cannot be read or a shown name has a stat error other than "not found" |
| Listing.ListingFailsIff | xplor.go:120-162 | a listing fails exactly when the directory cannot be read or a shown name has a stat error other than "not found"; a vanished entry alone never fails it |
| Listing.PrintNamesDepth | xplor.go:133-160 | every line the loop writes can be read back at least as deep as the listing, and exactly as deep when no name starts with a tab |
| Listing.ListingDepth | xplor.go:120-172 | every line a listing writes reads back at least as deep as the listing, and exactly as deep when the filesystem's names do not start with a tab |
| TreeInference.InsertAt | xplor.go:282-293 | inserting a block adds exactly its length to the body; TreeInference.DepthsInsert gives the depths after it and TreeInference.DeleteUndoesInsert its inverse |
| TreeInference.DeleteAfter | xplor.go:315-321 | deleting `m` lines after a line removes exactly `m` lines; TreeInference.DepthsDelete gives the depths after it and TreeInference.DeleteUndoesInsert shows it undoes an insertion |
| TreeInference.DeeperRun | xplor.go:294-314 | the collapse scan finds the maximal run of lines deeper than the node, closed by a line no deeper; None exactly when every line to the end of the body is deeper |
| TreeInference.DeeperRunIs | xplor.go:294-314 | a run of `m` deeper lines closed by a line no deeper is exactly what the collapse scan finds |
| TreeInference.IsFolded | xplor.go:196-212 | isFolded fails exactly when the node or the next line cannot be read, and then reports folded |
| TreeInference.FoldedIffNoChildren | xplor.go:196-212 | when the next line exists, the node is folded iff the next line is no deeper than the node, that is, iff the deeper run below it is empty |
| TreeInference.ScanBack | xplor.go:224-237 | the backward scan of getParents never goes back down: the offset it stops at is at least the offset it started from, and the line there is shallower than `d` |
| TreeInference.ScanBackSpec | xplor.go:224-237 | every line the backward scan passes is at depth `d` or deeper; when it finds nothing, so is every line up to the top |
| TreeInference.GetParents | xplor.go:214-239 | at depth 0 the parents are the empty path; otherwise the result has at most `d` components |
| TreeInference.GetFullPath | xplor.go:325-335 | the lookup fails exactly when the line is not in the body; a found path lies under the root, with at most depth + 1 more components |
| TreeInference.StackPrefixStable | xplor.go:214-239 | lines that stay at depth `e` or deeper leave the first `e` ancestors unchanged |
| TreeInference.ScanBackFindsParent | xplor.go:224-237 | in a pre-order listing the backward scan stops on a line exactly one level up, having passed only deeper lines |
| TreeInference.StackParentStep | xplor.go:230-233 | joining the parent's ancestors with the parent's name gives the ancestors of the line |
| TreeInference.ParentsFollowStack | xplor.go:214-239 | in a pre-order listing getParents yields exactly the path of the first `d` names of the line's stack of ancestors |
| TreeInference.FullPathFollowsStack | xplor.go:325-335 | in a well-formed body the full path of a line is the root followed by its ancestors' names and its own |
| TreeInference.ParentsCount | xplor.go:214-239 | in a well-formed body whose names down to the line are not empty, getParents returns exactly `depth` components, the names of the line's ancestors |
| TreeInference.ExpandThenCollapse | xplor.go:282-322 | after inserting deeper lines below a folded node, the collapse scan finds exactly that block, deleting it restores the body, and the node is unfolded iff the block is not empty |
| TreeInference.DeleteUndoesInsert | xplor.go:282-321 | deleting the lines just inserted after a line gives back the body |
| TreeInference.InsertReadable | xplor.go:282-293 | inserting readable lines keeps every line readable |
| TreeInference.DepthsInsert | xplor.go:282-293 | the depths after an insertion are the old depths with the new lines' depths inserted |
| TreeInference.DepthsDelete | xplor.go:315-321 | the depths after a deletion are the old depths with the same entries deleted |
| TreeInference.InsertKeepsPreOrder | xplor.go:282-293 | inserting entries one level deeper than a node right after it keeps a pre-order listing |
| TreeInference.DeleteKeepsPreOrder | xplor.go:294-321 | deleting a deeper run closed by a line no deeper than the node keeps a pre-order listing |
| TreeInference.InsertKeepsWellFormed | xplor.go:282-293 | expanding a node with lines one level deeper keeps the body well formed |
| TreeInference.DeleteKeepsWellFormed | xplor.go:294-321 | collapsing a node keeps the body well formed |
| TreeInference.GetParentsPrefix | xplor.go:214-239 | getParents reads only the node's line and the lines above it |
| TreeInference.GetFullPathPrefix | xplor.go:325-335 | the full path of a line depends only on that line and the lines above it |
| TreeInference.TopLevelWellFormed | xplor.go:116 | a body of depth-0 lines only is well formed |
| Xplor.Fresh | xplor.go:337-355 | a fresh top-level listing either completes, ending with the three blank lines, or ends the process; every line of it is readable |
| Xplor.LookAt | xplor.go:241-323 | a click plumbs only a file under the root, and edits the body only when it ends normally or with a logged error, never when it plumbs or exits |
| Xplor.LookOn | xplor.go:251-323 | once a path is found, a click plumbs only that path and only when stat says it is a file |
| Xplor.Toggle | xplor.go:276-323 | a click on a directory ends normally or with an error message, never with an exit |
| Xplor.FindSep | xplor.go:363 | the first ",#" at or after a position: none is skipped before it, and none exists when nothing is found |
| Xplor.SelectionEnd | xplor.go:363-364 | there is a text after the separator iff the location holds ",#", and it is the text after the first one |
| Xplor.ExecIn | xplor.go:357-387 | with no selection the program starts in the root. A location without ",#" crashes. For the selected line, the program starts in the line's path when stat says it is a directory and in the directory holding it when stat says it is a file. A stat error or a line past the body is logged, and a failed getParents read exits. Any start lies at or below the root when the root is a directory |
| Xplor.ExecInFollowsStack | xplor.go:357-376 | in a well-formed body a selected directory line starts the program in the root followed by the line's ancestors and its name, and a selected file line in the directory holding that path |
| Xplor.ParentBelow | xplor.go:374-376 | the directory holding a path strictly below the root is still at or below the root |
| Xplor.Report | xplor.go:395-402 | onExec logs an error exactly when the line is not in the body, and prints only paths under the root |
| Xplor.ReportFollowsStack | xplor.go:395-402 | in a well-formed body the printed path is the root followed by the line's ancestors and its name |
| Xplor.Session.constructor | xplor.go:105-113 | a new window has the given root, an empty body and hidden names off |
| Xplor.Session.PrintDirContents | xplor.go:120-172 | the listing is inserted at the insertion point, followed at depth 0 by three blank lines when it succeeded; the error is the corrected one |
| Xplor.Session.WriteEntries | xplor.go:133-162 | the loop over the sorted names inserts exactly the lines of the reference loop, in order, and fails with it |
| Xplor.Session.InitWindow | xplor.go:105-118 | the new window shows a fresh listing of the root |
| Xplor.Session.Collapse | xplor.go:294-322 | the deeper run below the node is deleted when a line closes it; otherwise nothing changes and false is returned |
| Xplor.Session.OnLook | xplor.go:242-323 | the handler's effect and new body are those of the specification LookAt on the old body |
| Xplor.Session.LookFound | xplor.go:251-323 | once the path is known, the effect and new body are those of LookOn |
| Xplor.Session.ToggleAt | xplor.go:276-323 | a click on a directory expands or folds it as LookOn says |
| Xplor.Session.ExpandAt | xplor.go:282-293 | on a folded directory the listing is inserted right below the node, as Toggle says |
| Xplor.Session.FoldAt | xplor.go:294-322 | on an unfolded directory the collapse deletes the deeper run, as Toggle says |
| Xplor.Session.DoDotDot | xplor.go:337-355 | the root moves to its parent, and the body is a fresh listing of it written into an emptied window |
| Xplor.Session.ToggleHidden | xplor.go:404-406 | showHidden is negated and nothing else changes, so two toggles restore the state |
| Xplor.Session.Handle | xplor.go:71-102 | each word runs the handler its prefix selects, with that handler's specified effect and state; the body stays readable, and stays well formed when it was and no name in the filesystem starts with a tab |
| Xplor.ReadEntry | xplor.go:225-230 | readLine then getDepth on a line returns the depth and name read back on that line |
| Xplor.ReadDepth | xplor.go:305-310 | readLine then getDepth on a line returns the depth read back on that line |
| Xplor.ScanDown | xplor.go:296-314 | the collapse loop returns the length of the maximal run of deeper lines, or None when no line closes it |
| Xplor.ScanUp | xplor.go:219-237 | the scan loop of getParents stops at the first shallower line above, or finds none |
| Xplor.Parents | xplor.go:214-239 | the recursive getParents returns what GetParents specifies on the depths and names read back from the body |
| Xplor.FreshWellFormed | xplor.go:116 | a fresh top-level listing is a well-formed body when no name starts with a tab |
| Xplor.ToggleKeepsWellFormed | xplor.go:276-322 | expanding or folding keeps the body well formed when the listing is one level deeper than the node |
| Xplor.ToggleKeepsReadable | xplor.go:276-322 | expanding or folding leaves every line readable |
| Xplor.ExpandListingWellFormed | xplor.go:282-293 | a click on a directory keeps the body well formed when no name in the filesystem starts with a tab |
| Xplor.ExpandListingReadable | xplor.go:282-293 | a click on a directory leaves every line readable |
| Xplor.LookKeepsWellFormed | xplor.go:241-323 | every click keeps a well-formed body well formed when no name in the filesystem starts with a tab |
| Xplor.LookKeepsReadable | xplor.go:241-323 | every click leaves every line readable |
| Xplor.ToggleEditsBelow | xplor.go:282-322 | expanding or folding never edits the node's line or any line above it |
| Xplor.LookEditsBelow | xplor.go:241-323 | a click never edits the clicked line or any line above it, and a click past the end edits nothing |
| Xplor.ToggleTwiceRestores | xplor.go:282-322 | expanding a folded directory inserts its listing below it, and folding it again restores the body |
| Xplor.LookTwiceRestores | xplor.go:241-323 | clicking a folded directory twice restores the body; the second click finds the same path, since the lines above are untouched |

## Left out

- Window I/O through acme is replaced by the body as a value. This covers
  `w.Addr`, `w.Read`, `w.Write`, the window name and the tag. Address
  strings become line indices.
  - `Xplor.Session.Handle` takes the line index from a `lineOf`
    parameter that resolves character addresses.
  - An address error is modelled only when a read lands past the body.
  - The 512-byte read buffer (NBUF) is not modelled; lines are assumed to
    fit.
- The events goroutine and its channel are not modelled. The words it
  sends are inputs to `Xplor.Session.Handle`. `Dispatch.Word` states how
  they are formed.
- The filesystem is an input value.
  - Opening and reading a directory become `list`; `os.Stat` becomes
    `stat`. Both are taken at the moment of the operation.
  - The panic on an error that is not an `*os.PathError` is not modelled.
- The plumber and process start are effects only (`Plumb`, `Launch`). A
  failed `plumb.Open` or `os.StartProcess` is not modelled.
  - `$PLAN9` becomes the `plan9Set` parameter.
  - `exec.LookPath("xplor")` becomes the `xplorFound` parameter.
- Messages on standard error that end a handler are the `Logged`
  effect, and the path printed by onExec is the `Announce` effect. The
  message printed for a vanished entry while the listing goes on
  (xplor.go:154) is not modelled: such a listing still ends with `Done`.
- Flag parsing, `usage`, and main's computation of the starting root are
  not modelled; the root is a constructor argument.
- Go's `path.Join`, `path.Clean` and `path.Split` are modelled on
  sequences of segments.
  - Joining an empty name adds nothing.
  - `Paths.Parent` drops the last segment.
  - Names holding a "/" or a newline are not modelled.
- readLine's short reads (0 or 2 bytes) panic in Go. The model requires
  every line of the body to be readable (`AllReadable`) instead.
- `os.Exit(1)` when a getParents read fails is modelled as the `Corrupt`
  lookup and the `Exit` effect. So is `os.Exit(1)` when doDotDot's
  listing fails.
- Indexing past the result of `strings.SplitAfterN` when the location has
  no ",#" panics in Go. It is the `Crash` effect.
- Go sorts names by their UTF-8 bytes; the model compares characters by
  code point. The two orders agree on valid UTF-8, and names that are not
  valid UTF-8 are not modelled.
- Edits the user makes to the body between events are not modelled.
- Listing.PrintErrorAsWritten: `Xplor.Session.PrintDirContents` returns
  the corrected error (`Listing.PrintError`), not the stale one the
  source returns (see Findings). The stale value is modelled by
  `Listing.PrintErrorAsWritten` alone. So for a listing whose last shown
  name stats "not found", the model does not capture what the stale
  error causes in the source:
  - `Xplor.Fresh` and `Xplor.Session.DoDotDot` give `Done` where doDotDot
    ends the process (xplor.go:350-353);
  - `Xplor.Session.InitWindow` gives `Done` where main prints the error
    and returns (xplor.go:64-68);
  - `Xplor.Toggle`, `Xplor.LookAt` and `Xplor.Session.OnLook` give `Done`
    where onLook prints the error (xplor.go:290-293).

## Findings

| source | as written | input that shows it | evidently intended | confidence | as-written member | corrected member |
|---|---|---|---|---|---|---|
| xplor.go:144-171 | printDirContents returns its named result `err`, which still holds the error of the last `os.Stat`; when the last shown name vanished ("not found", skipped at lines 153-155) the completed listing returns that error. doDotDot then ends the process (xplor.go:350-353), main returns after initWindow (xplor.go:64-68), and onLook prints it (xplor.go:290-293) | a directory whose only entry "gone" stats as not found: nothing is written, yet an error is returned | an error only when the directory cannot be read or a stat fails other than with "not found" | not executed | Listing.PrintErrorAsWritten, Listing.StaleLastEntryReportsFailure | Listing.PrintError, Listing.ListingFailsIff |
