/** The history of a repository: reading it commit by commit, and looking up
    old versions of files in what was read. */
module Repositories {
  import opened Commits
  import opened CommitTimes
  import opened GitTree
  import opened Options
  import opened Sequences
  import opened StringOrder
  import opened TreeDiff
  import opened TreeNames

  datatype GitCommit = GitCommit(time: int, tree: Tree, parents: seq<GitCommit>)

  // Merge commits are not supported.
  predicate Linear(c: GitCommit) {
    |c.parents| <= 1 && (|c.parents| == 1 ==> Linear(c.parents[0]))
  }

  function Parent(c: GitCommit): Option<GitCommit> {
    if c.parents == [] then None else Some(c.parents[0])
  }

  // The last of the first n commits.
  ghost function Newest(h: seq<GitCommit>, n: nat): Option<GitCommit>
    requires n <= |h|
  {
    if n == 0 then None else Some(h[n - 1])
  }

  // All ancestors of a commit and itself, the root commit first.
  ghost function History(c: GitCommit): (h: seq<GitCommit>)
    requires Linear(c)
    ensures h != [] && h[|h| - 1] == c
  {
    if c.parents == [] then [c] else History(c.parents[0]) + [c]
  }

  lemma {:induction false} HistoryLink(c: GitCommit, i: nat)
    requires Linear(c) && i < |History(c)|
    ensures var h := History(c); h[i].parents == (if i == 0 then [] else [h[i - 1]])
  {
    if i < |History(c)| - 1 {
      HistoryLink(c.parents[0], i);
    }
  }

  function TreeOf(c: Option<GitCommit>): Option<Tree> {
    if c.None? then None else Some(c.value.tree)
  }

  ghost function TreeBefore(h: seq<GitCommit>, i: nat): Option<Tree>
    requires i < |h|
  {
    if i == 0 then None else Some(h[i - 1].tree)
  }

  ghost function Times(h: seq<GitCommit>): seq<int> {
    seq(|h|, i requires 0 <= i < |h| => h[i].time)
  }

  ghost predicate GoodHistory(db: map<Oid, Tree>, h: seq<GitCommit>) {
    forall i :: 0 <= i < |h| ==> GoodTree(db, h[i].tree)
  }

  ghost predicate ModesOkAt(h: seq<GitCommit>, i: nat)
    requires i < |h|
  {
    ModesOk(Entries(TreeBefore(h, i)), h[i].tree.entries)
  }

  ghost predicate HistoryModesOk(h: seq<GitCommit>) {
    ModesOkFrom(h, 0)
  }

  ghost predicate ModesOkFrom(h: seq<GitCommit>, i: nat)
    requires i <= |h|
    decreases |h| - i
  {
    i == |h| || (ModesOkAt(h, i) && ModesOkFrom(h, i + 1))
  }

  lemma {:induction false} ModesOkEach(h: seq<GitCommit>, i: nat, k: nat)
    requires i <= k < |h| && ModesOkFrom(h, i)
    ensures ModesOkAt(h, k)
    decreases k - i
  {
    if i < k {
      ModesOkEach(h, i + 1, k);
    }
  }

  lemma ModesVerdict(h: seq<GitCommit>, left: nat, ok: bool)
    requires 0 < left <= |h| && ok == ModesOkAt(h, left - 1)
    ensures ok && ModesOkFrom(h, left) ==> ModesOkFrom(h, left - 1)
    ensures !ok ==> !HistoryModesOk(h)
  {
    if !ok {
      ModesBadAt(h, 0, left - 1);
    }
  }

  // One bad commit spoils everything before it.
  lemma {:induction false} ModesBadAt(h: seq<GitCommit>, i: nat, k: nat)
    requires i <= k < |h| && !ModesOkAt(h, k)
    ensures !ModesOkFrom(h, i)
    decreases k - i
  {
    if i < k {
      ModesBadAt(h, i + 1, k);
    }
  }

  lemma LinkAt(head: GitCommit, i: nat)
    requires Linear(head) && i < |History(head)|
    ensures var h := History(head);
            Parent(h[i]) == Newest(h, i)
  {
    HistoryLink(head, i);
  }

  // ----- the life of one file -----

  // The content of file `p` in every commit; None where it does not exist.
  ghost function Life(h: seq<GitCommit>, p: string): (life: seq<Option<Oid>>)
    ensures |life| == |h|
    ensures forall i {:trigger life[i]} :: 0 <= i < |h| ==> life[i] == Lookup(Snapshot(h[i].tree), p)
  {
    seq(|h|, i requires 0 <= i < |h| => Lookup(Snapshot(h[i].tree), p))
  }

  function Before(life: seq<Option<Oid>>, i: nat): Option<Oid>
    requires i < |life|
  {
    if i == 0 then None else life[i - 1]
  }

  predicate Updated(life: seq<Option<Oid>>, i: nat)
    requires i < |life|
  {
    life[i].Some? && life[i] != Before(life, i)
  }

  predicate Removed(life: seq<Option<Oid>>, i: nat)
    requires i < |life|
  {
    life[i].None? && Before(life, i).Some?
  }

  // The content in the last commit up to `i` that has the file.
  function LastVersion(life: seq<Option<Oid>>, i: int): Option<Oid>
    requires i < |life|
    decreases i
  {
    if i < 0 then None
    else if life[i].Some? then life[i]
    else LastVersion(life, i - 1)
  }

  // The first content that is new, in a commit from `i` on.
  function NextUpdate(life: seq<Option<Oid>>, i: nat): Option<Oid>
    requires i <= |life|
    decreases |life| - i
  {
    if i == |life| then None
    else if Updated(life, i) then life[i]
    else NextUpdate(life, i + 1)
  }

  // The content that was lost in the last commit from `floor` to `i` that removed the file.
  function LastRemoval(life: seq<Option<Oid>>, i: int, floor: int): Option<Oid>
    requires i < |life|
    decreases i
  {
    if i < 0 || i < floor then None
    else if Removed(life, i) then Before(life, i)
    else LastRemoval(life, i - 1, floor)
  }

  // What LastVersion says of the trees: the very content where there is one,
  // else the last one there was; nothing only where there never was any.
  lemma LastVersionMeaning(h: seq<GitCommit>, i: int, p: string)
    requires i < |h|
    ensures i >= 0 && p in Snapshot(h[i].tree) ==> LastVersion(Life(h, p), i) == Some(Snapshot(h[i].tree)[p])
    ensures LastVersion(Life(h, p), i) == None <==> forall k :: 0 <= k <= i ==> p !in Snapshot(h[k].tree)
    ensures forall k ::
        0 <= k <= i && p in Snapshot(h[k].tree) && (forall m :: k < m <= i ==> p !in Snapshot(h[m].tree)) ==>
          LastVersion(Life(h, p), i) == Some(Snapshot(h[k].tree)[p])
  {
    var life := Life(h, p);
    LastVersionOfLife(life, i);
    assert forall k :: 0 <= k < |h| ==> (life[k].Some? <==> p in Snapshot(h[k].tree));
  }

  // The same by names: what walking down the trees leads to.
  lemma LastVersionByNames(db: map<Oid, Tree>, h: seq<GitCommit>, i: nat, names: seq<string>)
    requires GoodHistory(db, h) && i < |h| && GoodNames(names)
    ensures var r := LastVersion(Life(h, Join(names)), i);
            && (forall oid: Oid :: Resolves(h[i].tree.entries, names, oid) ==> r == Some(oid))
            && (r == None <==> forall k, oid: Oid :: 0 <= k <= i ==> !Resolves(h[k].tree.entries, names, oid))
  {
    var p := Join(names);
    LastVersionMeaning(h, i, p);
    forall k, oid: Oid | 0 <= k <= i
      ensures Lookup(Snapshot(h[k].tree), p) == Some(oid) <==> Resolves(h[k].tree.entries, names, oid)
    {
      SnapshotResolves(h[k].tree, names, oid);
    }
    if k :| 0 <= k <= i && p in Snapshot(h[k].tree) {
      assert Resolves(h[k].tree.entries, names, Snapshot(h[k].tree)[p]);
    }
  }

  // In the tree of commit `c` the names of a path's directories and of a file
  // lead to this content.
  ghost predicate LeadsTo(c: GitCommit, name: string, path: string, oid: Oid) {
    && GoodName(name)
    && exists dirs :: GoodNames(dirs) && path == PathOf(dirs) && Resolves(c.tree.entries, dirs + [name], oid)
  }

  lemma LeadsToLast(db: map<Oid, Tree>, h: seq<GitCommit>, i: nat, name: string, path: string, oid: Oid)
    requires GoodHistory(db, h) && i < |h| && LeadsTo(h[i], name, path, oid)
    ensures LastVersion(Life(h, CallerLocation(name, path)), i) == Some(oid)
  {
    var dirs :| GoodNames(dirs) && path == PathOf(dirs) && Resolves(h[i].tree.entries, dirs + [name], oid);
    CallerNames(name, dirs);
    LastVersionByNames(db, h, i, dirs + [name]);
  }

  // The file is new in commit `k`, or has new content there.
  predicate NewAt(h: seq<GitCommit>, k: nat, p: string)
    requires k < |h|
  {
    && p in Snapshot(h[k].tree)
    && (k == 0 || Lookup(Snapshot(h[k - 1].tree), p) != Lookup(Snapshot(h[k].tree), p))
  }

  predicate LostAt(h: seq<GitCommit>, k: nat, p: string)
    requires k < |h|
  {
    k > 0 && p in Snapshot(h[k - 1].tree) && p !in Snapshot(h[k].tree)
  }

  // What NextUpdate says of the trees: the first new content from commit `i` on,
  // the newest commit included.
  lemma {:induction false} NextVersionMeaning(h: seq<GitCommit>, i: nat, p: string)
    requires i <= |h|
    ensures var r := NextUpdate(Life(h, p), i);
            && (r == None <==> forall k :: i <= k < |h| ==> !NewAt(h, k, p))
            && forall k ::
                 i <= k < |h| && NewAt(h, k, p) && (forall m :: i <= m < k ==> !NewAt(h, m, p)) ==>
                   r == Some(Snapshot(h[k].tree)[p])
    decreases |h| - i
  {
    if i < |h| {
      NextVersionMeaning(h, i + 1, p);
      assert Updated(Life(h, p), i) <==> NewAt(h, i, p);
    }
  }

  // What LastRemoval says of the trees: the content before the last loss among
  // the commits from `floor` to `i`.
  lemma {:induction false} LostVersionMeaning(h: seq<GitCommit>, i: int, floor: int, p: string)
    requires i < |h|
    ensures var r := LastRemoval(Life(h, p), i, floor);
            && (r == None <==> forall k :: 0 <= k <= i && floor <= k ==> !LostAt(h, k, p))
            && forall k ::
                 0 <= k <= i && floor <= k && LostAt(h, k, p) && (forall m :: k < m <= i ==> !LostAt(h, m, p)) ==>
                   r == Some(Snapshot(h[k - 1].tree)[p])
    decreases i
  {
    if i >= 0 && i >= floor {
      LostVersionMeaning(h, i - 1, floor, p);
      assert Removed(Life(h, p), i) <==> LostAt(h, i, p);
    }
  }

  lemma {:induction false} LastVersionOfLife(life: seq<Option<Oid>>, i: int)
    requires i < |life|
    ensures LastVersion(life, i) == None <==> forall k :: 0 <= k <= i ==> life[k] == None
    ensures forall k :: 0 <= k <= i && life[k].Some? && (forall m :: k < m <= i ==> life[m] == None) ==>
              LastVersion(life, i) == life[k]
    decreases i
  {
    if i >= 0 {
      LastVersionOfLife(life, i - 1);
    }
  }

  // ----- searching the change lists of a history -----

  ghost predicate AreDiffs(diffs: seq<seq<Change>>, h: seq<GitCommit>) {
    |diffs| == |h| &&
    forall i {:trigger diffs[i]} :: 0 <= i < |h| ==> diffs[i] == DiffTrees(TreeBefore(h, i), Some(h[i].tree), "")
  }

  ghost function DiffsOf(h: seq<GitCommit>): (diffs: seq<seq<Change>>)
    ensures AreDiffs(diffs, h)
  {
    seq(|h|, i requires 0 <= i < |h| => DiffTrees(TreeBefore(h, i), Some(h[i].tree), ""))
  }

  function LastUpdateIn(diffs: seq<seq<Change>>, i: int, name: string, path: string): Option<Oid>
    requires i < |diffs|
    decreases i
  {
    if i < 0 then None
    else
      var oid := UpdateOidIn(diffs[i], name, path);
      if oid.Some? then oid else LastUpdateIn(diffs, i - 1, name, path)
  }

  function NextUpdateIn(diffs: seq<seq<Change>>, i: nat, name: string, path: string): Option<Oid>
    requires i <= |diffs|
    decreases |diffs| - i
  {
    if i == |diffs| then None
    else
      var oid := UpdateOidIn(diffs[i], name, path);
      if oid.Some? then oid else NextUpdateIn(diffs, i + 1, name, path)
  }

  function LastRemovalIn(diffs: seq<seq<Change>>, i: int, floor: int, name: string, path: string): Option<Oid>
    requires i < |diffs|
    decreases i
  {
    if i < 0 || i < floor then None
    else
      var oid := RemovalOidIn(diffs[i], name, path);
      if oid.Some? then oid else LastRemovalIn(diffs, i - 1, floor, name, path)
  }

  // The change lists tell the life of a file: every new content, every loss.
  ghost predicate Tells(diffs: seq<seq<Change>>, life: seq<Option<Oid>>, name: string, path: string) {
    |diffs| == |life| && forall i :: 0 <= i < |life| ==> TellsAt(diffs, life, i, name, path)
  }

  predicate TellsAt(diffs: seq<seq<Change>>, life: seq<Option<Oid>>, i: nat, name: string, path: string)
    requires i < |life| == |diffs|
  {
    && UpdateOidIn(diffs[i], name, path) == (if Updated(life, i) then life[i] else None)
    && RemovalOidIn(diffs[i], name, path) == (if Removed(life, i) then Before(life, i) else None)
  }

  // The changed root files of commit `i` fit into the order of its changes.
  ghost predicate CommitFits(h: seq<GitCommit>, i: nat)
    requires i < |h|
  {
    RootFits(SnapshotOf(TreeBefore(h, i)), Snapshot(h[i].tree))
  }

  ghost predicate HistoryFits(h: seq<GitCommit>) {
    forall i :: 0 <= i < |h| ==> CommitFits(h, i)
  }

  // No tree of the history has a file at the root.
  ghost predicate RootFreeHistory(h: seq<GitCommit>) {
    forall i :: 0 <= i < |h| ==> NoRootBlobs(h[i].tree)
  }

  lemma RootFreeFits(db: map<Oid, Tree>, h: seq<GitCommit>)
    requires GoodHistory(db, h) && HistoryModesOk(h) && RootFreeHistory(h)
    ensures HistoryFits(h)
  {
    forall i | 0 <= i < |h|
      ensures CommitFits(h, i)
    {
      ModesOkEach(h, 0, i);
      GoodAt(db, h, i);
      assert RootFree(TreeBefore(h, i)) && RootFree(Some(h[i].tree));
      DiffSortedByKey(db, TreeBefore(h, i), Some(h[i].tree));
    }
  }

  // The change lists tell the lives of all files exactly when, in every commit,
  // the changed root files fit into the order of its changes.
  lemma HistoryTells(db: map<Oid, Tree>, h: seq<GitCommit>, diffs: seq<seq<Change>>)
    requires GoodHistory(db, h) && HistoryModesOk(h) && AreDiffs(diffs, h)
    ensures (forall name, path :: Tells(diffs, Life(h, CallerLocation(name, path)), name, path)) <==> HistoryFits(h)
  {
    if HistoryFits(h) {
      forall name, path
        ensures Tells(diffs, Life(h, CallerLocation(name, path)), name, path)
      {
        FittingHistoryTells(db, h, diffs, name, path);
      }
    }
    if forall name, path :: Tells(diffs, Life(h, CallerLocation(name, path)), name, path) {
      forall i | 0 <= i < |h|
        ensures CommitFits(h, i)
      {
        forall name, path
          ensures AnswersAt(h, diffs, i, name, path)
        {
          assert Tells(diffs, Life(h, CallerLocation(name, path)), name, path);
          AnswersAreTelling(h, diffs, i, name, path);
        }
        OneDiff(db, h, diffs, i);
      }
    }
  }

  lemma FittingHistoryTells(db: map<Oid, Tree>, h: seq<GitCommit>, diffs: seq<seq<Change>>,
                            name: string, path: string)
    requires GoodHistory(db, h) && HistoryModesOk(h) && AreDiffs(diffs, h) && HistoryFits(h)
    ensures Tells(diffs, Life(h, CallerLocation(name, path)), name, path)
  {
    forall i | 0 <= i < |h|
      ensures TellsAt(diffs, Life(h, CallerLocation(name, path)), i, name, path)
    {
      assert CommitFits(h, i);
      OneDiff(db, h, diffs, i);
      AnswersAreTelling(h, diffs, i, name, path);
    }
  }

  ghost predicate AnswersAt(h: seq<GitCommit>, diffs: seq<seq<Change>>, i: nat, name: string, path: string)
    requires i < |h| == |diffs|
  {
    Answers(diffs[i], SnapshotOf(TreeBefore(h, i)), Snapshot(h[i].tree), name, path)
  }

  lemma AnswersAreTelling(h: seq<GitCommit>, diffs: seq<seq<Change>>, i: nat, name: string, path: string)
    requires i < |h| == |diffs|
    ensures AnswersAt(h, diffs, i, name, path) <==>
            TellsAt(diffs, Life(h, CallerLocation(name, path)), i, name, path)
  {
    var life := Life(h, CallerLocation(name, path));
    assert Before(life, i) == Lookup(SnapshotOf(TreeBefore(h, i)), CallerLocation(name, path));
  }

  lemma OneDiff(db: map<Oid, Tree>, h: seq<GitCommit>, diffs: seq<seq<Change>>, i: nat)
    requires GoodHistory(db, h) && HistoryModesOk(h) && AreDiffs(diffs, h) && i < |h|
    ensures (forall name, path :: AnswersAt(h, diffs, i, name, path)) <==> CommitFits(h, i)
  {
    ModesOkEach(h, 0, i);
    GoodAt(db, h, i);
    OneCommit(db, TreeBefore(h, i), Some(h[i].tree));
    assert forall name, path ::
        AnswersAt(h, diffs, i, name, path) <==>
        Answers(DiffTrees(TreeBefore(h, i), Some(h[i].tree), ""), SnapshotOf(TreeBefore(h, i)),
                SnapshotOf(Some(h[i].tree)), name, path);
  }

  lemma GoodAt(db: map<Oid, Tree>, h: seq<GitCommit>, i: nat)
    requires GoodHistory(db, h) && i < |h|
    ensures GoodOption(db, TreeBefore(h, i)) && GoodOption(db, Some(h[i].tree))
  {
  }

  // Searching the changes backwards gives the content of the last commit that
  // has the file.
  lemma {:induction false} LastUpdateMeaning(diffs: seq<seq<Change>>, life: seq<Option<Oid>>, i: int,
                                             name: string, path: string)
    requires Tells(diffs, life, name, path) && i < |life|
    ensures LastUpdateIn(diffs, i, name, path) == LastVersion(life, i)
    decreases i
  {
    if i >= 0 {
      assert TellsAt(diffs, life, i, name, path);
      LastUpdateMeaning(diffs, life, i - 1, name, path);
    }
  }

  lemma {:induction false} NextUpdateMeaning(diffs: seq<seq<Change>>, life: seq<Option<Oid>>, i: nat,
                                             name: string, path: string)
    requires Tells(diffs, life, name, path) && i <= |life|
    ensures NextUpdateIn(diffs, i, name, path) == NextUpdate(life, i)
    decreases |life| - i
  {
    if i < |life| {
      assert TellsAt(diffs, life, i, name, path);
      NextUpdateMeaning(diffs, life, i + 1, name, path);
    }
  }

  lemma {:induction false} LastRemovalMeaning(diffs: seq<seq<Change>>, life: seq<Option<Oid>>, i: int, floor: int,
                                              name: string, path: string)
    requires Tells(diffs, life, name, path) && i < |life|
    ensures LastRemovalIn(diffs, i, floor, name, path) == LastRemoval(life, i, floor)
    decreases i
  {
    if i >= 0 && i >= floor {
      assert TellsAt(diffs, life, i, name, path);
      LastRemovalMeaning(diffs, life, i - 1, floor, name, path);
    }
  }

  // ----- the walk, position by position -----

  lemma {:induction false} ModesSame(es: seq<Entry>)
    ensures ModesOk(es, es)
  {
    if es != [] {
      StrcmpSelf(es[0].SortName());
      ModesSame(es[1..]);
    }
  }

  lemma {:induction false} SizeBelow(es: seq<Entry>, k: nat)
    requires k < |es|
    ensures es[k].Dir? ==> Size(es[k].tree.entries) < Size(es)
  {
    if k > 0 {
      assert es[1..][k - 1] == es[k];
      SizeBelow(es[1..], k - 1);
    }
  }

  lemma {:induction false} Suffixes(db: map<Oid, Tree>, es: seq<Entry>, k: nat)
    requires ValidEntries(es) && StoredEntries(db, es) && k <= |es|
    ensures ValidEntries(es[k..]) && StoredEntries(db, es[k..]) && Size(es[k..]) <= Size(es)
    ensures k < |es| ==> es[k..][1..] == es[k + 1..]
  {
    if k > 0 {
      ValidTail(es);
      Suffixes(db, es[1..], k - 1);
      assert es[1..][k - 1..] == es[k..];
    } else {
      assert es[k..] == es;
    }
  }

  function RemovedHead(e: Entry, path: string): seq<Change> {
    match e
    case Dir(name, tree) => DiffEntries(tree.entries, [], path + "/" + name)
    case Blob(name, oid, _) => [Del(StripSlash(path), name, oid)]
  }

  function AddedHead(e: Entry, path: string): seq<Change> {
    match e
    case Dir(name, tree) => DiffEntries([], tree.entries, path + "/" + name)
    case Blob(name, oid, _) => [Add(StripSlash(path), name, oid)]
  }

  function SameNameHead(e1: Entry, e2: Entry, path: string): seq<Change> {
    if e1.Id() == e2.Id() then []
    else if e1.Dir? && e2.Dir? then DiffEntries(e1.tree.entries, e2.tree.entries, path + "/" + e1.name)
    else [Mod(StripSlash(path), e1.name, e1.Id(), e2.Id())]
  }

  predicate EntryModesOk(e1: Entry, e2: Entry) {
    match (e1, e2)
    case (Blob(_, _, mode1), Blob(_, _, mode2)) => ModePairOk(mode1, mode2)
    case (Dir(_, tree1), Dir(_, tree2)) => ModesOk(tree1.entries, tree2.entries)
    case _ => false
  }

  // From positions i, j the walk gets to k, m and emits `head` on the way.
  ghost predicate Step(es1: seq<Entry>, i: nat, es2: seq<Entry>, j: nat, k: nat, m: nat, path: string,
        head: seq<Change>)
    requires i <= k <= |es1| && j <= m <= |es2|
  {
    && DiffEntries(es1[i..], es2[j..], path) == head + DiffEntries(es1[k..], es2[m..], path)
    && (ModesOk(es1[i..], es2[j..]) <==> ModesOk(es1[k..], es2[m..]))
  }

  lemma StepLeft(db: map<Oid, Tree>, es1: seq<Entry>, i: nat, es2: seq<Entry>, j: nat, path: string)
    requires ValidEntries(es1) && StoredEntries(db, es1) && ValidEntries(es2) && StoredEntries(db, es2)
    requires i < |es1| && j <= |es2| && (j == |es2| || NameCmp(es1[i], es2[j]) < 0)
    ensures Step(es1, i, es2, j, i + 1, j, path, RemovedHead(es1[i], path))
  {
    Suffixes(db, es1, i);
    Suffixes(db, es2, j);
  }

  lemma StepRight(db: map<Oid, Tree>, es1: seq<Entry>, i: nat, es2: seq<Entry>, j: nat, path: string)
    requires ValidEntries(es1) && StoredEntries(db, es1) && ValidEntries(es2) && StoredEntries(db, es2)
    requires i <= |es1| && j < |es2| && (i == |es1| || NameCmp(es1[i], es2[j]) > 0)
    ensures Step(es1, i, es2, j, i, j + 1, path, AddedHead(es2[j], path))
  {
    Suffixes(db, es1, i);
    Suffixes(db, es2, j);
  }

  lemma StepBoth(db: map<Oid, Tree>, es1: seq<Entry>, i: nat, es2: seq<Entry>, j: nat, path: string)
    requires ValidEntries(es1) && StoredEntries(db, es1) && ValidEntries(es2) && StoredEntries(db, es2)
    requires i < |es1| && j < |es2| && NameCmp(es1[i], es2[j]) == 0
    ensures if es1[i].Id() == es2[j].Id() || EntryModesOk(es1[i], es2[j])
            then Step(es1, i, es2, j, i + 1, j + 1, path, SameNameHead(es1[i], es2[j], path))
            else !ModesOk(es1[i..], es2[j..])
  {
    Suffixes(db, es1, i);
    Suffixes(db, es2, j);
  }

  function Reverse<T>(s: seq<T>): (r: seq<T>)
    ensures |r| == |s| && forall i :: 0 <= i < |s| ==> r[i] == s[|s| - 1 - i]
  {
    if s == [] then [] else Reverse(s[1..]) + [s[0]]
  }

  class Repository {
    var commitsInit: bool
    var commits: seq<Commit>
    ghost var db: map<Oid, Tree>
    ghost var history: seq<GitCommit>
    ghost var diffs: seq<seq<Change>>

    // commits[i] holds exactly the changes that history[i] made to its parent.
    ghost predicate Valid()
      reads this, commits
    {
      && commitsInit
      && GoodHistory(db, history) && HistoryModesOk(history) && NearlySorted(Times(history))
      && AreDiffs(diffs, history)
      && HasDiffs()
      && forall i :: 0 <= i < |commits| ==> commits[i].time == history[i].time
    }

    ghost predicate HasDiffs()
      reads this, commits
    {
      |commits| == |diffs| == |history| && forall i :: 0 <= i < |commits| ==> commits[i].changes == diffs[i]
    }

    // Commit `c` is number `i` of the history, with these changes.
    static ghost predicate Describes(c: Commit, h: seq<GitCommit>, diffs: seq<seq<Change>>, i: nat)
      requires i < |h| == |diffs|
      reads c
    {
      c.time == h[i].time && c.changes == diffs[i]
    }

    static ghost predicate DescribesAll(commits: seq<Commit>, h: seq<GitCommit>, diffs: seq<seq<Change>>)
      reads commits
    {
      |commits| == |h| == |diffs| && forall i :: 0 <= i < |commits| ==> Describes(commits[i], h, diffs, i)
    }

    // The same, from the newest commit backwards and as far as read.
    static ghost predicate DescribesBack(read: seq<Commit>, h: seq<GitCommit>, diffs: seq<seq<Change>>)
      reads read
    {
      |read| <= |h| == |diffs| && forall i :: 0 <= i < |read| ==> Describes(read[i], h, diffs, |h| - 1 - i)
    }

    static lemma PushBack(read: seq<Commit>, c: Commit, h: seq<GitCommit>, diffs: seq<seq<Change>>)
      requires DescribesBack(read, h, diffs) && |read| < |h| && Describes(c, h, diffs, |h| - 1 - |read|)
      ensures DescribesBack(read + [c], h, diffs)
    {
    }

    static lemma NothingRead(h: seq<GitCommit>, diffs: seq<seq<Change>>)
      requires AreDiffs(diffs, h)
      ensures DescribesBack([], h, diffs) && ModesOkFrom(h, |h|)
    {
    }

    constructor ()
      ensures !commitsInit && commits == []
    {
      commitsInit := false;
      commits := [];
    }

    // Appends the changes from t1 to t2 to `c`. Not ok means that the walk was
    // aborted at a file whose mode changes in an unsupported way.
    static method DiffTree(ghost db: map<Oid, Tree>, t1: Option<Tree>, t2: Option<Tree>, path: string, c: Commit)
      returns (ok: bool)
      requires GoodOption(db, t1) && GoodOption(db, t2)
      modifies c`changes
      ensures ok <==> ModesOk(Entries(t1), Entries(t2))
      ensures ok ==> c.changes == old(c.changes) + DiffTrees(t1, t2, path)
      decreases Size(Entries(t1)) + Size(Entries(t2)), 2
    {
      var es1, es2 := Entries(t1), Entries(t2);
      if t1.Some? && t2.Some? && t1.value.oid == t2.value.oid {
        ModesSame(es1);
        return true;
      }
      var idx1, idx2 := 0, 0;
      ghost var done := [];
      while idx1 < |es1| || idx2 < |es2|
        invariant idx1 <= |es1| && idx2 <= |es2|
        invariant c.changes == old(c.changes) + done
        invariant done + DiffEntries(es1[idx1..], es2[idx2..], path) == DiffEntries(es1, es2, path)
        invariant ModesOk(es1[idx1..], es2[idx2..]) <==> ModesOk(es1, es2)
        decreases |es1| - idx1 + |es2| - idx2
      {
        ghost var head;
        ok, idx1, idx2, head := DiffHeads(db, es1, idx1, es2, idx2, path, c);
        if !ok {
          return false;
        }
        Assoc(done, head, DiffEntries(es1[idx1..], es2[idx2..], path));
        Assoc(old(c.changes), done, head);
        done := done + head;
      }
      return true;
    }

    // One round of the walk: the entries that both directories have come to.
    // Returns how far it gets in each of them.
    static method DiffHeads(ghost db: map<Oid, Tree>, es1: seq<Entry>, idx1: nat, es2: seq<Entry>, idx2: nat,
                            path: string, c: Commit)
      returns (ok: bool, next1: nat, next2: nat, ghost head: seq<Change>)
      requires ValidEntries(es1) && StoredEntries(db, es1) && ValidEntries(es2) && StoredEntries(db, es2)
      requires idx1 <= |es1| && idx2 <= |es2| && (idx1 < |es1| || idx2 < |es2|)
      modifies c`changes
      ensures idx1 <= next1 <= |es1| && idx2 <= next2 <= |es2|
      ensures !ok ==> !ModesOk(es1[idx1..], es2[idx2..])
      ensures ok ==> idx1 + idx2 < next1 + next2 && c.changes == old(c.changes) + head
      ensures ok ==> Step(es1, idx1, es2, idx2, next1, next2, path, head)
      decreases Size(es1) + Size(es2), 1
    {
      var cmp := 0;
      if idx1 < |es1| && idx2 < |es2| {
        cmp := NameCmp(es1[idx1], es2[idx2]);
      }
      if idx2 >= |es2| || cmp < 0 {
        head := DiffRemoved(db, es1, idx1, es2, idx2, path, c);
        return true, idx1 + 1, idx2, head;
      } else if idx1 >= |es1| || cmp > 0 {
        head := DiffAdded(db, es1, idx1, es2, idx2, path, c);
        return true, idx1, idx2 + 1, head;
      } else {
        ok, head := DiffSameName(db, es1, idx1, es2, idx2, path, c);
        return ok, idx1 + 1, idx2 + 1, head;
      }
    }

    static method DiffRemoved(ghost db: map<Oid, Tree>, es1: seq<Entry>, idx1: nat, ghost es2: seq<Entry>,
                              ghost idx2: nat, path: string, c: Commit)
      returns (ghost head: seq<Change>)
      requires ValidEntries(es1) && StoredEntries(db, es1) && ValidEntries(es2) && StoredEntries(db, es2)
      requires idx1 < |es1| && idx2 <= |es2| && (idx2 == |es2| || NameCmp(es1[idx1], es2[idx2]) < 0)
      modifies c`changes
      ensures c.changes == old(c.changes) + head
      ensures Step(es1, idx1, es2, idx2, idx1 + 1, idx2, path, head)
      decreases Size(es1) + Size(es2), 0
    {
      var entry1 := es1[idx1];
      head := RemovedHead(entry1, path);
      StepLeft(db, es1, idx1, es2, idx2, path);
      if entry1.Dir? {
        SizeBelow(es1, idx1);
        var done := DiffTree(db, Some(entry1.tree), None, path + "/" + entry1.name, c);
      } else {
        c.AddChange(Del(StripSlash(path), entry1.name, entry1.oid));
      }
    }

    static method DiffAdded(ghost db: map<Oid, Tree>, ghost es1: seq<Entry>, ghost idx1: nat, es2: seq<Entry>,
                            idx2: nat, path: string, c: Commit)
      returns (ghost head: seq<Change>)
      requires ValidEntries(es1) && StoredEntries(db, es1) && ValidEntries(es2) && StoredEntries(db, es2)
      requires idx1 <= |es1| && idx2 < |es2| && (idx1 == |es1| || NameCmp(es1[idx1], es2[idx2]) > 0)
      modifies c`changes
      ensures c.changes == old(c.changes) + head
      ensures Step(es1, idx1, es2, idx2, idx1, idx2 + 1, path, head)
      decreases Size(es1) + Size(es2), 0
    {
      var entry2 := es2[idx2];
      head := AddedHead(entry2, path);
      StepRight(db, es1, idx1, es2, idx2, path);
      if entry2.Dir? {
        SizeBelow(es2, idx2);
        var done := DiffTree(db, None, Some(entry2.tree), path + "/" + entry2.name, c);
      } else {
        c.AddChange(Add(StripSlash(path), entry2.name, entry2.oid));
      }
    }

    static method DiffSameName(ghost db: map<Oid, Tree>, es1: seq<Entry>, idx1: nat, es2: seq<Entry>, idx2: nat,
                               path: string, c: Commit)
      returns (ok: bool, ghost head: seq<Change>)
      requires ValidEntries(es1) && StoredEntries(db, es1) && ValidEntries(es2) && StoredEntries(db, es2)
      requires idx1 < |es1| && idx2 < |es2| && NameCmp(es1[idx1], es2[idx2]) == 0
      modifies c`changes
      ensures !ok ==> !ModesOk(es1[idx1..], es2[idx2..])
      ensures ok ==> c.changes == old(c.changes) + head
      ensures ok ==> Step(es1, idx1, es2, idx2, idx1 + 1, idx2 + 1, path, head)
      decreases Size(es1) + Size(es2), 0
    {
      var entry1, entry2 := es1[idx1], es2[idx2];
      SameSortName(entry1, entry2);
      head := SameNameHead(entry1, entry2, path);
      StepBoth(db, es1, idx1, es2, idx2, path);
      ok := true;
      if entry1.Id() != entry2.Id() {
        if entry1.Dir? {
          SizeBelow(es1, idx1);
          SizeBelow(es2, idx2);
          ok := DiffTree(db, Some(entry1.tree), Some(entry2.tree), path + "/" + entry1.name, c);
        } else if entry1.mode != entry2.mode && !(entry1.mode == MODE_EXECUTABLE && entry2.mode == MODE_FILE) {
          ok := false;
        } else {
          c.AddChange(Mod(StripSlash(path), entry1.name, entry1.oid, entry2.oid));
        }
      }
    }

    // Reads the history up to `head`. Not ok means that a check failed: a file
    // mode changes in an unsupported way, or commit times are out of order.
    // (With a single commit the second time check would run out of bounds.)
    method ReadRepositoryCommits(ghost db: map<Oid, Tree>, head: GitCommit) returns (ok: bool)
      requires commitsInit ==> Valid()
      requires !commitsInit ==> commits == []
      requires Linear(head) && head.parents != [] && GoodHistory(db, History(head))
      modifies this
      ensures old(commitsInit) ==> ok && Valid() && commits == old(commits) && history == old(history)
      ensures !old(commitsInit) ==>
        (ok <==> HistoryModesOk(History(head)) && NearlySorted(Times(History(head))))
      ensures !old(commitsInit) && ok ==>
        Valid() && history == History(head) && this.db == db && forall i :: 0 <= i < |commits| ==> fresh(commits[i])
    {
      if commitsInit {
        return true;
      }
      ghost var h := History(head);
      ghost var diffs := DiffsOf(h);
      assert |h| == |History(head.parents[0])| + 1 >= 2;
      var all, done := ReadAll(db, head, h, diffs);
      if !done {
        return false;
      }
      ok := CheckTimes(all, h, diffs);
      if ok {
        commits, commitsInit := all, true;
        this.db, history, this.diffs := db, h, diffs;
      }
    }

    // A new commit holding the changes from commit1 to commit2, its child;
    // that is the newest one among the first `left`.
    static method DiffCommit(ghost db: map<Oid, Tree>, commit1: Option<GitCommit>, commit2: GitCommit,
                             ghost h: seq<GitCommit>, ghost diffs: seq<seq<Change>>, ghost left: nat)
      returns (c: Commit, ok: bool)
      requires GoodHistory(db, h) && AreDiffs(diffs, h)
      requires 0 < left <= |h| && commit2 == h[left - 1] && commit1 == Newest(h, left - 1)
      ensures fresh(c)
      ensures ok ==> Describes(c, h, diffs, left - 1)
      ensures ok && ModesOkFrom(h, left) ==> ModesOkFrom(h, left - 1)
      ensures !ok ==> !HistoryModesOk(h)
    {
      c := new Commit(commit2.time);
      GoodAt(db, h, left - 1);
      ok := DiffTree(db, TreeOf(commit1), Some(commit2.tree), "", c);
      ModesVerdict(h, left, ok);
    }

    // The commits from `head` down to the root.
    static method ReadBackwards(ghost db: map<Oid, Tree>, head: GitCommit, ghost h: seq<GitCommit>,
                                ghost diffs: seq<seq<Change>>)
      returns (read: seq<Commit>, ok: bool)
      requires Linear(head) && h == History(head) && GoodHistory(db, h) && AreDiffs(diffs, h)
      ensures ok <==> HistoryModesOk(h)
      ensures ok ==> |read| == |h|
      ensures ok ==> DescribesBack(read, h, diffs) && forall i :: 0 <= i < |read| ==> fresh(read[i])
    {
      hide GoodHistory;
      hide AreDiffs;
      hide DescribesBack;
      hide ModesOkFrom;
      NothingRead(h, diffs);
      read := [];
      var commit := Some(head);
      ghost var left := |h|;
      ok := true;
      while commit.Some?
        invariant ok && 0 <= left <= |h| && |read| == |h| - left
        invariant commit == Newest(h, left)
        invariant forall i :: 0 <= i < |read| ==> fresh(read[i])
        invariant DescribesBack(read, h, diffs)
        invariant ModesOkFrom(h, left)
        decreases left
      {
        LinkAt(head, left - 1);
        var c;
        c, ok := DiffCommit(db, Parent(commit.value), commit.value, h, diffs, left);
        if !ok {
          return [], false;
        }
        PushBack(read, c, h, diffs);
        read := read + [c];
        left := left - 1;
        commit := Parent(commit.value);
      }
    }

    // The commits from the root to `head`.
    static method ReadAll(ghost db: map<Oid, Tree>, head: GitCommit, ghost h: seq<GitCommit>,
                          ghost diffs: seq<seq<Change>>)
      returns (all: seq<Commit>, ok: bool)
      requires Linear(head) && h == History(head) && GoodHistory(db, h) && AreDiffs(diffs, h)
      ensures ok <==> HistoryModesOk(h)
      ensures ok ==> DescribesAll(all, h, diffs) && forall i :: 0 <= i < |all| ==> fresh(all[i])
    {
      hide GoodHistory;
      hide AreDiffs;
      hide HistoryModesOk;
      var read;
      read, ok := ReadBackwards(db, head, h, diffs);
      all := Reverse(read);
      assert forall i :: 0 <= i < |all| ==> all[i] == read[|read| - 1 - i];
    }

    static method CheckTimes(commits: seq<Commit>, ghost h: seq<GitCommit>, ghost diffs: seq<seq<Change>>)
      returns (ok: bool)
      requires |h| >= 2 && DescribesAll(commits, h, diffs)
      ensures ok <==> NearlySorted(Times(h))
    {
      ghost var t := Times(h);
      assert forall i :: 0 <= i < |commits| ==> Describes(commits[i], h, diffs, i) && commits[i].time == t[i];
      for i := 0 to |commits| - 1
        invariant forall k :: 0 <= k < i ==> t[k] <= t[k + 1] + SLACK
      {
        if commits[i].time > commits[i + 1].time + 394 {
          assert t[i] > t[i + 1] + SLACK;
          return false;
        }
      }
      for i := 0 to |commits| - 2
        invariant forall k :: 0 <= k < i ==> t[k] < t[k + 2]
      {
        if commits[i].time >= commits[i + 2].time {
          assert t[i] >= t[i + 2];
          return false;
        }
      }
      return true;
    }

    // ----- lookups -----

    // The life of the file that a caller names by path and name.
    ghost function LifeOf(name: string, path: string): seq<Option<Oid>>
      reads this
    {
      Life(history, CallerLocation(name, path))
    }

    // The newest content of a file up to a commit.
    method FindLastUpdateOid(fromCommit: int, name: string, path: string) returns (r: Option<Oid>)
      requires Valid() && 0 <= fromCommit < |commits|
      ensures r == LastUpdateIn(diffs, fromCommit, name, path)
      ensures HistoryFits(history) ==> r == LastVersion(LifeOf(name, path), fromCommit)
      ensures HistoryFits(history) ==>
        forall oid: Oid :: LeadsTo(history[fromCommit], name, path, oid) ==> r == Some(oid)
    {
      r := SearchBack(fromCommit, name, path);
      if HistoryFits(history) {
        FittingHistoryTells(db, history, diffs, name, path);
        LastUpdateMeaning(diffs, LifeOf(name, path), fromCommit, name, path);
        forall oid: Oid | LeadsTo(history[fromCommit], name, path, oid)
          ensures r == Some(oid)
        {
          LeadsToLast(db, history, fromCommit, name, path, oid);
        }
      }
    }

    method SearchBack(fromCommit: int, name: string, path: string) returns (r: Option<Oid>)
      requires HasDiffs() && fromCommit < |commits|
      ensures r == LastUpdateIn(diffs, fromCommit, name, path)
    {
      var i := fromCommit;
      while i >= 0
        invariant i <= fromCommit
        invariant LastUpdateIn(diffs, i, name, path) == LastUpdateIn(diffs, fromCommit, name, path)
      {
        var oid := commits[i].FindUpdateOid(name, path);
        if oid.Some? {
          return oid;
        }
        i := i - 1;
      }
      return None;
    }

    // The first new content of a file from a commit on.
    method FindNextUpdateOid(fromCommit: int, name: string, path: string) returns (r: Option<Oid>)
      requires Valid() && 0 <= fromCommit < |commits|
      ensures r == NextUpdateIn(diffs, fromCommit, name, path)
      ensures HistoryFits(history) ==> r == NextUpdate(LifeOf(name, path), fromCommit)
    {
      r := SearchForward(fromCommit, name, path);
      if HistoryFits(history) {
        FittingHistoryTells(db, history, diffs, name, path);
        NextUpdateMeaning(diffs, LifeOf(name, path), fromCommit, name, path);
      }
    }

    method SearchForward(fromCommit: nat, name: string, path: string) returns (r: Option<Oid>)
      requires HasDiffs() && fromCommit < |commits|
      ensures r == NextUpdateIn(diffs, fromCommit, name, path)
    {
      for i := fromCommit to |commits|
        invariant NextUpdateIn(diffs, i, name, path) == NextUpdateIn(diffs, fromCommit, name, path)
      {
        var oid := commits[i].FindUpdateOid(name, path);
        if oid.Some? {
          return oid;
        }
      }
      return None;
    }

    // The content that a file had when it was last removed, if that was in one
    // of the eleven commits up to `fromCommit`.
    method FindLastRemovalOid(fromCommit: int, name: string, path: string) returns (r: Option<Oid>)
      requires Valid() && fromCommit < |commits|
      ensures r == LastRemovalIn(diffs, fromCommit, fromCommit - 10, name, path)
      ensures HistoryFits(history) ==> r == LastRemoval(LifeOf(name, path), fromCommit, fromCommit - 10)
    {
      r := SearchRemoval(fromCommit, name, path);
      if HistoryFits(history) {
        FittingHistoryTells(db, history, diffs, name, path);
        LastRemovalMeaning(diffs, LifeOf(name, path), fromCommit, fromCommit - 10, name, path);
      }
    }

    method SearchRemoval(fromCommit: int, name: string, path: string) returns (r: Option<Oid>)
      requires HasDiffs() && fromCommit < |commits|
      ensures r == LastRemovalIn(diffs, fromCommit, fromCommit - 10, name, path)
    {
      var i := fromCommit;
      while i >= 0 && i >= fromCommit - 10
        invariant i <= fromCommit
        invariant LastRemovalIn(diffs, i, fromCommit - 10, name, path) ==
                  LastRemovalIn(diffs, fromCommit, fromCommit - 10, name, path)
        decreases i
      {
        var oid := commits[i].FindRemovalOid(name, path);
        if oid.Some? {
          return oid;
        }
        i := i - 1;
      }
      return None;
    }

    method LastCommitByTime(time: int) returns (j: int)
      requires Valid()
      ensures LastBefore(Times(history), time, j)
      ensures NonDecreasing(Times(history)) ==> LastExactly(Times(history), time, j)
    {
      j := LooseSearch(commits, Times(history), time);
    }

    static method LooseSearch(commits: seq<Commit>, ghost t: seq<int>, time: int) returns (j: int)
      requires |commits| == |t| && NearlySorted(t)
      requires forall k :: 0 <= k < |commits| ==> commits[k].time == t[k]
      ensures LastBefore(t, time, j)
      ensures NonDecreasing(t) ==> LastExactly(t, time, j)
    {
      if |commits| == 0 || time < commits[0].time {
        NoneBefore(t, time);
        return -1;
      }
      var l, r := 0, |commits| - 1;
      while r - l > 2
        invariant 0 <= l <= r < |commits|
        invariant t[l] <= time && (r == |commits| - 1 || time < t[r])
      {
        var m := (l + r) / 2;
        if time < commits[m].time {
          r := m;
        } else {
          l := m;
        }
      }
      ghost var top := r;
      while r >= l
        invariant l - 1 <= r <= top
        invariant forall k :: r < k <= top ==> time < t[k]
      {
        if time >= commits[r].time {
          LooseBounds(t, time, l, r, top);
          return r;
        }
        r := r - 1;
      }
      assert false;
    }

    // The newest content of a file up to the last commit that is not after `time`.
    method FindFileOidByTime(time: int, name: string, path: string) returns (r: Option<Oid>)
      requires Valid()
      ensures exists j :: IsFoundBy(time, name, path, j, r)
      ensures NonDecreasing(Times(history)) ==>
        exists j :: LastExactly(Times(history), time, j) && IsFoundBy(time, name, path, j, r)
      ensures history == [] || time < history[0].time ==> r == None
    {
      hide GoodHistory;
      hide HistoryModesOk;
      hide AreDiffs;
      hide HistoryFits;
      hide CallerLocation;
      hide UpdateOidIn;
      var j := LastCommitByTime(time);
      if j == -1 {
        r := None;
      } else {
        r := SearchBack(j, name, path);
      }
      if HistoryFits(history) {
        FittingHistoryTells(db, history, diffs, name, path);
        LastUpdateMeaning(diffs, LifeOf(name, path), j, name, path);
      }
      assert IsFoundBy(time, name, path, j, r);
    }

    // The answer of a search that begins at commit `j`, which belongs to `time`.
    ghost predicate IsFoundBy(time: int, name: string, path: string, j: int, r: Option<Oid>)
      requires Valid()
      reads this, commits
    {
      && LastBefore(Times(history), time, j) && j < |diffs|
      && r == LastUpdateIn(diffs, j, name, path)
      && (HistoryFits(history) ==> j < |LifeOf(name, path)| && r == LastVersion(LifeOf(name, path), j))
    }
  }
}
