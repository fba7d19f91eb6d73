/** Everything xplor knows about the tree is re-derived from the lines of
    the window body: the depth of a line, whether a directory is unfolded,
    and the ancestors of a line. The clicked node is identified by its line
    index `i` in the body. */
module TreeInference {
  import opened Wrappers
  import opened LineCodec
  import opened Paths

  /** The window body, one line per element (trailing newline included). */
  type Buffer = seq<string>

  /** Every line can be read back without crashing readLine. */
  predicate AllReadable(buf: Buffer)
  {
    forall j :: 0 <= j < |buf| ==> Readable(buf[j])
  }

  /** `block` written into the body just before line `at`. */
  function InsertAt<T>(s: seq<T>, at: nat, block: seq<T>): (r: seq<T>)
    requires at <= |s|
    ensures |r| == |s| + |block|
  {
    s[..at] + block + s[at..]
  }

  /** The body with the `m` lines after line `i` deleted. */
  function DeleteAfter<T>(s: seq<T>, i: nat, m: nat): (r: seq<T>)
    requires i + 1 + m <= |s|
    ensures |r| == |s| - m
  {
    s[..i + 1] + s[i + 1 + m..]
  }

  /** The depth getDepth reads on each line. */
  function Depths(buf: Buffer): (ds: seq<nat>)
    requires AllReadable(buf)
    ensures |ds| == |buf|
    ensures forall j :: 0 <= j < |buf| ==> ds[j] == LineDepth(buf[j])
  {
    seq(|buf|, j requires 0 <= j < |buf| => LineDepth(buf[j]))
  }

  /** The name getDepth reads on each line. */
  function Names(buf: Buffer): (ns: seq<string>)
    requires AllReadable(buf)
    ensures |ns| == |buf|
    ensures forall j :: 0 <= j < |buf| ==> ns[j] == LineName(buf[j])
  {
    seq(|buf|, j requires 0 <= j < |buf| => LineName(buf[j]))
  }

  // ---------------------------------------------------------------- folding

  /** The forward scan of a collapse: how many lines from `start` on are
      deeper than `d`. None when that run reaches the end of the body, so
      that no line closes it. */
  function DeeperRun(buf: Buffer, start: nat, d: nat): (r: Option<nat>)
    requires AllReadable(buf) && start <= |buf|
    decreases |buf| - start
    ensures r.Some? ==> start + r.value < |buf| && LineDepth(buf[start + r.value]) <= d
    ensures r.Some? ==> forall j :: start <= j < start + r.value ==> LineDepth(buf[j]) > d
    ensures r.None? ==> forall j :: start <= j < |buf| ==> LineDepth(buf[j]) > d
  {
    if start == |buf| then None
    else if LineDepth(buf[start]) <= d then Some(0)
    else
      match DeeperRun(buf, start + 1, d)
      case None => None
      case Some(m) => Some(m + 1)
  }

  /** A run of `m` deeper lines closed by a line no deeper than `d` is
      exactly what DeeperRun finds. */
  lemma DeeperRunIs(buf: Buffer, start: nat, d: nat, m: nat)
    requires AllReadable(buf) && start + m < |buf|
    requires forall j :: start <= j < start + m ==> LineDepth(buf[j]) > d
    requires LineDepth(buf[start + m]) <= d
    ensures DeeperRun(buf, start, d) == Some(m)
  {
  }

  /** Outcome of isFolded: the answer, and whether a read failed. */
  datatype FoldCheck = FoldCheck(folded: bool, failed: bool)

  /** isFolded: compare the depth of the node's line with that of the next
      line. A failed read reports "folded" together with the failure. */
  function IsFolded(buf: Buffer, i: nat): (r: FoldCheck)
    requires AllReadable(buf)
    ensures r.failed <==> i + 1 >= |buf|
    ensures r.failed ==> r.folded
  {
    if i >= |buf| || i + 1 >= |buf| then FoldCheck(true, true)
    else FoldCheck(LineDepth(buf[i + 1]) <= LineDepth(buf[i]), false)
  }

  // --------------------------------------------------------------- ancestry

  /** The inner loop of getParents, on the depths getDepth reads on each
      line: the first backward offset `o >= k` at which line `i - o` is
      shallower than `d`; None when the scan runs off the top of the body. */
  function ScanBack(ds: seq<nat>, i: nat, d: nat, k: nat): (r: Option<nat>)
    requires i < |ds| && 1 <= k <= i + 1
    decreases i + 1 - k
    ensures r.Some? ==> k <= r.value <= i && ds[i - r.value] < d
  {
    if k > i then None
    else if ds[i - k] < d then Some(k)
    else ScanBack(ds, i, d, k + 1)
  }

  /** The backward scan stops at the first shallower line: every line it
      passes is at depth `d` or deeper, and when it finds none, so is every
      line from `i - k` up to the top. */
  lemma {:induction false} ScanBackSpec(ds: seq<nat>, i: nat, d: nat, k: nat)
    requires i < |ds| && 1 <= k <= i + 1
    decreases i + 1 - k
    ensures var r := ScanBack(ds, i, d, k);
      && (r.Some? ==> forall j :: i - r.value < j <= i - k ==> ds[j] >= d)
      && (r.None? ==> forall j :: 0 <= j <= i - k ==> ds[j] >= d)
  {
    if k <= i && ds[i - k] >= d {
      ScanBackSpec(ds, i, d, k + 1);
    }
  }

  /** getParents, on the depths and names getDepth reads on each line: the
      path, relative to the root, of the directory holding a line of depth
      `d`, found by scanning back from offset `k` for the nearest shallower
      line and recursing from there. None stands for the process exit when
      the scan runs off the top of the body. */
  function GetParents(ds: seq<nat>, ns: seq<string>, i: nat, d: nat, k: nat): (r: Option<Path>)
    requires |ns| == |ds| && i < |ds| && 1 <= k <= i + 1
    decreases d
    ensures d == 0 ==> r == Some([])
    ensures r.Some? ==> |r.value| <= d
  {
    if d == 0 then Some([])
    else
      match ScanBack(ds, i, d, k)
      case None => None
      case Some(o) =>
        match GetParents(ds, ns, i, ds[i - o], o)
        case None => None
        case Some(p) => Some(Join(p, ns[i - o]))
  }

  /** Outcome of resolving a line to a filesystem path. */
  datatype Lookup = Found(path: Path) | ReadFailed | Corrupt

  /** getFullPath: root, then the ancestors, then the line's own name.
      Reading a line that is not there fails; a parent scan that runs off
      the top is the corrupt case. */
  function GetFullPath(root: Path, buf: Buffer, i: nat): (r: Lookup)
    requires AllReadable(buf)
    ensures r.ReadFailed? <==> i >= |buf|
    ensures r.Found? ==> root <= r.path && |r.path| <= |root| + LineDepth(buf[i]) + 1
  {
    if i >= |buf| then ReadFailed
    else
      match GetParents(Depths(buf), Names(buf), i, LineDepth(buf[i]), 1)
      case None => Corrupt
      case Some(p) => Found(Join(root + p, LineName(buf[i])))
  }

  // -------------------------------------------------- well-formed listings

  /** Line `j` is at most one level deeper than the line above it. */
  predicate StepOk(ds: seq<nat>, j: nat)
    requires 0 < j < |ds|
  {
    ds[j] <= ds[j - 1] + 1
  }

  /** The depths of a pre-order listing: the first line is at depth 0 and
      each line is at most one level deeper than the line above it. */
  ghost predicate PreOrder(ds: seq<nat>)
  {
    && (|ds| > 0 ==> ds[0] == 0)
    && forall j :: 0 < j < |ds| ==> StepOk(ds, j)
  }

  /** A body whose lines form a pre-order listing of a tree. */
  ghost predicate WellFormed(buf: Buffer)
  {
    AllReadable(buf) && PreOrder(Depths(buf))
  }

  /** Reference definition, read top-down: the names of the ancestors of
      line `j` followed by its own name, kept as a stack indexed by depth. */
  ghost function Stack(ds: seq<nat>, ns: seq<string>, j: nat): (s: seq<string>)
    requires PreOrder(ds) && |ns| == |ds| && j < |ds|
    ensures |s| == ds[j] + 1 && s[ds[j]] == ns[j]
  {
    if j == 0 then [ns[0]]
    else
      assert StepOk(ds, j);
      Stack(ds, ns, j - 1)[..ds[j]] + [ns[j]]
  }

  /** Lines that stay at depth `e` or deeper do not change the first `e`
      entries of the stack. */
  lemma {:induction false} StackPrefixStable(ds: seq<nat>, ns: seq<string>, a: nat, b: nat, e: nat)
    requires PreOrder(ds) && |ns| == |ds| && a <= b < |ds|
    requires e <= ds[a] + 1
    requires forall j :: a < j <= b ==> ds[j] >= e
    ensures Stack(ds, ns, b)[..e] == Stack(ds, ns, a)[..e]
    decreases b - a
  {
    if a < b {
      StackPrefixStable(ds, ns, a, b - 1, e);
      assert Stack(ds, ns, b)[..e] == Stack(ds, ns, b - 1)[..e];
    }
  }

  /** Every entry of a line's stack is the name of that line or of a line
      above it. */
  lemma {:induction false} StackNames(ds: seq<nat>, ns: seq<string>, j: nat, x: nat)
    requires PreOrder(ds) && |ns| == |ds| && j < |ds| && x <= ds[j]
    ensures exists a :: 0 <= a <= j && Stack(ds, ns, j)[x] == ns[a]
  {
    if x == ds[j] {
      assert Stack(ds, ns, j)[x] == ns[j];
    } else {
      assert StepOk(ds, j);
      StackNames(ds, ns, j - 1, x);
      var a :| 0 <= a <= j - 1 && Stack(ds, ns, j - 1)[x] == ns[a];
      assert Stack(ds, ns, j)[x] == Stack(ds, ns, j - 1)[x];
    }
  }

  /** path.Join of a list of names onto a root is the root followed by the
      join of the names. */
  lemma {:induction false} JoinAllFrom(root: Path, names: seq<string>)
    ensures JoinAll(root, names) == root + JoinAll([], names)
  {
    if names != [] {
      JoinAllFrom(root, names[..|names| - 1]);
    }
  }

  /** In a pre-order listing, the backward scan from line `i - k` (below a
      line at depth `d` or deeper) stops at a line exactly one level up,
      having passed only lines at depth `d` or deeper. */
  lemma ScanBackFindsParent(ds: seq<nat>, i: nat, d: nat, k: nat)
    requires PreOrder(ds) && i < |ds| && 1 <= k <= i + 1 && d > 0
    requires ds[i - k + 1] >= d
    ensures ScanBack(ds, i, d, k).Some?
    ensures var o := ScanBack(ds, i, d, k).value;
      && ds[i - o] == d - 1
      && forall j :: i - o < j <= i - k + 1 ==> ds[j] >= d
  {
    assert i - k + 1 != 0;
    var r := ScanBack(ds, i, d, k);
    ScanBackSpec(ds, i, d, k);
    assert r.Some?;
    assert StepOk(ds, i - r.value + 1);
  }

  /** The stack of line `i - k + 1`, cut at depth `d`, is the stack of
      line `i - o + 1` cut one level higher, followed by the name of line
      `i - o`, when `i - o` is the nearest line above at depth `d - 1`. */
  lemma StackParentStep(ds: seq<nat>, ns: seq<string>, i: nat, d: nat, k: nat, o: nat)
    requires PreOrder(ds) && |ns| == |ds| && i < |ds| && 1 <= k <= o <= i && d > 0
    requires ds[i - o] == d - 1
    requires forall j :: i - o < j <= i - k + 1 ==> ds[j] >= d
    ensures JoinAll([], Stack(ds, ns, i - k + 1)[..d]) == Join(JoinAll([], Stack(ds, ns, i - o + 1)[..d - 1]), ns[i - o])
  {
    var st := Stack(ds, ns, i - o);
    StackAtParent(ds, ns, i, d, k, o);
    StackPrefixStable(ds, ns, i - o, i - o + 1, d - 1);
    assert st != [] && st[..|st| - 1] == st[..d - 1];
  }

  /** The stack of line `i - k + 1`, cut at depth `d`, is the whole stack
      of the nearest line above it at depth `d - 1`. */
  lemma StackAtParent(ds: seq<nat>, ns: seq<string>, i: nat, d: nat, k: nat, o: nat)
    requires PreOrder(ds) && |ns| == |ds| && i < |ds| && 1 <= k <= o <= i && d > 0
    requires ds[i - o] == d - 1
    requires forall j :: i - o < j <= i - k + 1 ==> ds[j] >= d
    ensures Stack(ds, ns, i - k + 1)[..d] == Stack(ds, ns, i - o)
  {
    var st := Stack(ds, ns, i - o);
    StackPrefixStable(ds, ns, i - o, i - k + 1, d);
    assert st[..d] == st;
  }

  /** One step of getParents, once the backward scan has stopped at offset
      `o` on a line at depth `e`. */
  lemma GetParentsStep(ds: seq<nat>, ns: seq<string>, i: nat, d: nat, k: nat, o: nat, e: nat, q: Path)
    requires |ns| == |ds| && i < |ds| && 1 <= k <= i + 1 && d > 0
    requires ScanBack(ds, i, d, k) == Some(o)
    requires ds[i - o] == e
    requires GetParents(ds, ns, i, e, o) == Some(q)
    ensures GetParents(ds, ns, i, d, k) == Some(Join(q, ns[i - o]))
  {
  }

  /** The backward search of getParents agrees with the top-down stack: in
      a pre-order listing, scanning back from line `i - k` (with line
      `i - k + 1` at depth `d` or deeper) yields the path of the first `d`
      names of that line's stack. */
  lemma {:induction false} ParentsFollowStack(ds: seq<nat>, ns: seq<string>, i: nat, d: nat, k: nat)
    requires PreOrder(ds) && |ns| == |ds| && i < |ds| && 1 <= k <= i + 1
    requires ds[i - k + 1] >= d
    ensures GetParents(ds, ns, i, d, k) == Some(JoinAll([], Stack(ds, ns, i - k + 1)[..d]))
    decreases d
  {
    if d == 0 {
      assert Stack(ds, ns, i - k + 1)[..0] == [];
    } else {
      ScanBackFindsParent(ds, i, d, k);
      var o := ScanBack(ds, i, d, k).value;
      ParentsFollowStack(ds, ns, i, d - 1, o);
      GetParentsStep(ds, ns, i, d, k, o, d - 1, JoinAll([], Stack(ds, ns, i - o + 1)[..d - 1]));
      StackParentStep(ds, ns, i, d, k, o);
    }
  }

  /** In a well-formed body the full path of line `i` is the root followed
      by the line's stack. */
  lemma FullPathFollowsStack(root: Path, buf: Buffer, i: nat)
    requires WellFormed(buf) && i < |buf|
    ensures GetFullPath(root, buf, i) == Found(JoinAll(root, Stack(Depths(buf), Names(buf), i)))
  {
    var ds, ns := Depths(buf), Names(buf);
    var d := ds[i];
    assert d == LineDepth(buf[i]) && ns[i] == LineName(buf[i]);
    var st := Stack(ds, ns, i);
    ParentsFollowStack(ds, ns, i, d, 1);
    JoinAllFrom(root, st[..d]);
    JoinAllFrom(root, st);
    assert st[..|st| - 1] == st[..d];
    assert GetFullPath(root, buf, i) == Found(Join(root + JoinAll([], st[..d]), ns[i]));
  }

  /** When no line down to `i` has an empty name (the blank lines at the
      end have one), getParents returns exactly `ds[i]` components: the
      names of the line's ancestors. */
  lemma ParentsCount(ds: seq<nat>, ns: seq<string>, i: nat)
    requires PreOrder(ds) && |ns| == |ds| && i < |ds|
    requires forall a :: 0 <= a <= i ==> ns[a] != ""
    ensures GetParents(ds, ns, i, ds[i], 1) == Some(Stack(ds, ns, i)[..ds[i]])
    ensures |GetParents(ds, ns, i, ds[i], 1).value| == ds[i]
  {
    var d := ds[i];
    var st := Stack(ds, ns, i);
    ParentsFollowStack(ds, ns, i, d, 1);
    StackNonEmpty(ds, ns, i);
    var names := st[..d];
    assert forall x :: 0 <= x < |names| ==> names[x] != "";
    assert JoinAll([], names) == [] + names;
    assert [] + names == names;
  }

  /** When the names of lines 0 to `j` are all nonempty, so is every entry
      of line `j`'s stack. */
  lemma StackNonEmpty(ds: seq<nat>, ns: seq<string>, j: nat)
    requires PreOrder(ds) && |ns| == |ds| && j < |ds|
    requires forall a :: 0 <= a <= j ==> ns[a] != ""
    ensures forall x :: 0 <= x < |Stack(ds, ns, j)| ==> Stack(ds, ns, j)[x] != ""
  {
    forall x | 0 <= x < |Stack(ds, ns, j)|
      ensures Stack(ds, ns, j)[x] != ""
    {
      StackNames(ds, ns, j, x);
    }
  }

  // --------------------------------------------------- expand and collapse

  /** A node is folded exactly when no line deeper than it follows it. */
  lemma FoldedIffNoChildren(buf: Buffer, i: nat)
    requires AllReadable(buf) && i + 1 < |buf|
    ensures !IsFolded(buf, i).failed
    ensures IsFolded(buf, i).folded <==> DeeperRun(buf, i + 1, LineDepth(buf[i])) == Some(0)
  {
  }

  /** Collapsing right after expanding a folded node restores the body: the
      inserted block is exactly the run the collapse scan finds, and the
      node is unfolded while the block is there. */
  lemma ExpandThenCollapse(buf: Buffer, i: nat, block: seq<string>)
    requires AllReadable(buf) && IsFolded(buf, i) == FoldCheck(true, false)
    requires AllReadable(block)
    requires forall k :: 0 <= k < |block| ==> LineDepth(block[k]) > LineDepth(buf[i])
    ensures var nb := InsertAt(buf, i + 1, block);
      && AllReadable(nb)
      && DeeperRun(nb, i + 1, LineDepth(buf[i])) == Some(|block|)
      && DeleteAfter(nb, i, |block|) == buf
      && (block != [] <==> !IsFolded(nb, i).folded)
  {
    var nb := InsertAt(buf, i + 1, block);
    var d := LineDepth(buf[i]);
    InsertReadable(buf, i + 1, block);
    assert nb[i] == buf[i];
    assert nb[i + 1 + |block|] == buf[i + 1];
    forall j | i + 1 <= j < i + 1 + |block|
      ensures LineDepth(nb[j]) > d
    {
      assert nb[j] == block[j - i - 1];
    }
    DeeperRunIs(nb, i + 1, d, |block|);
    DeleteUndoesInsert(buf, i, block);
    if block != [] {
      assert nb[i + 1] == block[0];
    }
  }

  /** Deleting the lines just inserted after entry `i` gives back the
      original sequence. */
  lemma DeleteUndoesInsert<T>(s: seq<T>, i: nat, block: seq<T>)
    requires i < |s|
    ensures DeleteAfter(InsertAt(s, i + 1, block), i, |block|) == s
  {
    var t := InsertAt(s, i + 1, block);
    assert t[..i + 1] == s[..i + 1];
    assert t[i + 1 + |block|..] == s[i + 1..];
  }

  /** Inserting readable lines keeps every line readable. */
  lemma InsertReadable(buf: Buffer, at: nat, block: seq<string>)
    requires AllReadable(buf) && AllReadable(block) && at <= |buf|
    ensures AllReadable(InsertAt(buf, at, block))
  {
    var nb := InsertAt(buf, at, block);
    forall j | 0 <= j < |nb|
      ensures Readable(nb[j])
    {
      if j < at {
        assert nb[j] == buf[j];
      } else if j < at + |block| {
        assert nb[j] == block[j - at];
      } else {
        assert nb[j] == buf[j - |block|];
      }
    }
  }

  /** The depths of a body with lines inserted are the old depths with the
      new lines' depths inserted. */
  lemma DepthsInsert(buf: Buffer, at: nat, block: seq<string>)
    requires AllReadable(buf) && AllReadable(block) && at <= |buf|
    ensures AllReadable(InsertAt(buf, at, block))
    ensures Depths(InsertAt(buf, at, block)) == InsertAt(Depths(buf), at, Depths(block))
  {
    InsertReadable(buf, at, block);
    var nb := InsertAt(buf, at, block);
    var lhs, rhs := Depths(nb), InsertAt(Depths(buf), at, Depths(block));
    forall j | 0 <= j < |nb|
      ensures lhs[j] == rhs[j]
    {
      if j < at {
        assert nb[j] == buf[j];
      } else if j < at + |block| {
        assert nb[j] == block[j - at];
      } else {
        assert nb[j] == buf[j - |block|];
      }
    }
  }

  /** The depths of a body with lines deleted are the old depths with the
      same entries deleted. */
  lemma DepthsDelete(buf: Buffer, i: nat, m: nat)
    requires AllReadable(buf) && i + 1 + m <= |buf|
    ensures AllReadable(DeleteAfter(buf, i, m))
    ensures Depths(DeleteAfter(buf, i, m)) == DeleteAfter(Depths(buf), i, m)
  {
    var nb := DeleteAfter(buf, i, m);
    forall j | 0 <= j < |nb|
      ensures Readable(nb[j])
    {
      if j > i {
        assert nb[j] == buf[j + m];
      }
    }
    var ds := Depths(buf);
    var lhs, rhs := Depths(nb), DeleteAfter(ds, i, m);
    forall j | 0 <= j < |nb|
      ensures lhs[j] == rhs[j]
    {
      if j <= i {
        assert nb[j] == buf[j] && rhs[j] == ds[j];
      } else {
        assert nb[j] == buf[j + m] && rhs[j] == ds[j + m];
      }
    }
  }

  /** Inserting depths one more than that of entry `i` right after it keeps
      a pre-order listing. */
  lemma InsertKeepsPreOrder(ds: seq<nat>, i: nat, bs: seq<nat>)
    requires PreOrder(ds) && i < |ds|
    requires forall k :: 0 <= k < |bs| ==> bs[k] == ds[i] + 1
    ensures PreOrder(InsertAt(ds, i + 1, bs))
  {
    var nd := InsertAt(ds, i + 1, bs);
    var n := |bs|;
    forall j | 0 < j < |nd|
      ensures StepOk(nd, j)
    {
      if j <= i {
        assert StepOk(ds, j);
      } else if j <= i + n {
        assert nd[j] == ds[i] + 1;
      } else if j == i + 1 + n {
        assert StepOk(ds, i + 1);
        assert nd[j] == ds[i + 1];
      } else {
        assert StepOk(ds, j - n);
      }
    }
  }

  /** Deleting the run of deeper entries after entry `i`, when an entry no
      deeper than `i` closes it, keeps a pre-order listing. */
  lemma DeleteKeepsPreOrder(ds: seq<nat>, i: nat, m: nat)
    requires PreOrder(ds) && i + 1 + m < |ds| && ds[i + 1 + m] <= ds[i]
    ensures PreOrder(DeleteAfter(ds, i, m))
  {
    var nd := DeleteAfter(ds, i, m);
    forall j | 0 < j < |nd|
      ensures StepOk(nd, j)
    {
      if j <= i {
        assert StepOk(ds, j);
      } else if j > i + 1 {
        assert StepOk(ds, j + m);
      }
    }
  }

  /** Expanding a node with child lines one level deeper keeps the body a
      well-formed pre-order listing. */
  lemma InsertKeepsWellFormed(buf: Buffer, i: nat, block: seq<string>)
    requires WellFormed(buf) && i < |buf| && AllReadable(block)
    requires forall k :: 0 <= k < |block| ==> LineDepth(block[k]) == LineDepth(buf[i]) + 1
    ensures WellFormed(InsertAt(buf, i + 1, block))
  {
    DepthsInsert(buf, i + 1, block);
    assert Depths(buf)[i] == LineDepth(buf[i]);
    InsertKeepsPreOrder(Depths(buf), i, Depths(block));
  }

  /** Collapsing a node keeps the body a well-formed pre-order listing. */
  lemma DeleteKeepsWellFormed(buf: Buffer, i: nat, m: nat)
    requires WellFormed(buf) && i < |buf|
    requires DeeperRun(buf, i + 1, LineDepth(buf[i])) == Some(m)
    ensures WellFormed(DeleteAfter(buf, i, m))
  {
    DepthsDelete(buf, i, m);
    var ds := Depths(buf);
    assert ds[i] == LineDepth(buf[i]) && ds[i + 1 + m] == LineDepth(buf[i + 1 + m]);
    DeleteKeepsPreOrder(ds, i, m);
  }

  /** Lines written one at a time at an advancing insertion point build up
      the block in order. */
  lemma InsertAtGrow<T>(s: seq<T>, at: nat, block: seq<T>, x: T)
    requires at <= |s|
    ensures var t := InsertAt(s, at, block);
      InsertAt(s, at, block + [x]) == t[..at + |block|] + [x] + t[at + |block|..]
  {
    var t := InsertAt(s, at, block);
    assert t[..at + |block|] == s[..at] + block;
    assert t[at + |block|..] == s[at..];
  }

  /** The backward scan reads only lines above the node. */
  lemma {:induction false} ScanBackPrefix(a: seq<nat>, b: seq<nat>, i: nat, d: nat, k: nat)
    requires i < |a| && i < |b| && 1 <= k <= i + 1
    requires a[..i + 1] == b[..i + 1]
    ensures ScanBack(a, i, d, k) == ScanBack(b, i, d, k)
    decreases i + 1 - k
  {
    if k <= i {
      assert a[i - k] == a[..i + 1][i - k] == b[i - k];
      ScanBackPrefix(a, b, i, d, k + 1);
    }
  }

  /** getParents reads only lines above the node. */
  lemma {:induction false} GetParentsPrefix(da: seq<nat>, na: seq<string>, db: seq<nat>, nb: seq<string>, i: nat, d: nat, k: nat)
    requires |na| == |da| && |nb| == |db| && i < |da| && i < |db| && 1 <= k <= i + 1
    requires da[..i + 1] == db[..i + 1] && na[..i + 1] == nb[..i + 1]
    ensures GetParents(da, na, i, d, k) == GetParents(db, nb, i, d, k)
    decreases d
  {
    if d > 0 {
      ScanBackPrefix(da, db, i, d, k);
      match ScanBack(da, i, d, k)
      case None =>
      case Some(o) =>
        var e := da[i - o];
        assert e == da[..i + 1][i - o] == db[i - o];
        assert na[i - o] == na[..i + 1][i - o] == nb[i - o];
        GetParentsPrefix(da, na, db, nb, i, e, o);
        match GetParents(da, na, i, e, o)
        case None =>
        case Some(q) =>
          GetParentsStep(da, na, i, d, k, o, e, q);
          GetParentsStep(db, nb, i, d, k, o, e, q);
    }
  }

  /** Bodies that agree up to line `i` read the same depths and names up
      to line `i`. */
  lemma ReadingsPrefix(a: Buffer, b: Buffer, i: nat)
    requires AllReadable(a) && AllReadable(b) && i < |a| && i < |b|
    requires a[..i + 1] == b[..i + 1]
    ensures Depths(a)[..i + 1] == Depths(b)[..i + 1]
    ensures Names(a)[..i + 1] == Names(b)[..i + 1]
  {
    forall j | 0 <= j <= i
      ensures Depths(a)[j] == Depths(b)[j] && Names(a)[j] == Names(b)[j]
    {
      assert a[j] == a[..i + 1][j] == b[j];
    }
  }

  /** The full path of a line depends only on that line and the lines
      above it: editing below a node leaves its path alone. */
  lemma GetFullPathPrefix(root: Path, a: Buffer, b: Buffer, i: nat)
    requires AllReadable(a) && AllReadable(b) && i < |a| && i < |b|
    requires a[..i + 1] == b[..i + 1]
    ensures GetFullPath(root, a, i) == GetFullPath(root, b, i)
  {
    assert a[i] == a[..i + 1][i] == b[i];
    ReadingsPrefix(a, b, i);
    GetParentsPrefix(Depths(a), Names(a), Depths(b), Names(b), i, LineDepth(a[i]), 1);
  }

  /** A body of top-level lines only (a fresh listing of the root and the
      blank lines after it) is well formed. */
  lemma TopLevelWellFormed(buf: Buffer)
    requires forall j :: 0 <= j < |buf| ==> Readable(buf[j]) && LineDepth(buf[j]) == 0
    ensures WellFormed(buf)
  {
    var ds := Depths(buf);
    assert forall j :: 0 <= j < |ds| ==> ds[j] == 0;
  }
}
