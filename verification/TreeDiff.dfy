/** The changes between two trees: the recursive walk over both directory
    structures, the plain merge of the two file lists, and what either means. */
module TreeDiff {
  import opened GitTree
  import opened Options
  import opened Sequences
  import opened StringOrder

  const MODE_FILE := 0x81A4        // 0100644
  const MODE_EXECUTABLE := 0x81ED  // 0100755

  // A change to one file. `path` has lost its leading slash.
  datatype Change =
    | Add(path: string, name: string, oid2: Oid)
    | Del(path: string, name: string, oid1: Oid)
    | Mod(path: string, name: string, oid1: Oid, oid2: Oid)
  {
    function TryOid1(): Option<Oid> {
      if Add? then None else Some(oid1)
    }

    function TryOid2(): Option<Oid> {
      if Del? then None else Some(oid2)
    }

    // The absolute location of the changed file.
    function At(): string {
      Location(if path == "" then "" else "/" + path, name)
    }
  }

  function StripSlash(path: string): string {
    if path != "" && path[0] == '/' then path[1..] else path
  }

  predicate DirPath(path: string) {
    path == "" || (|path| > 1 && path[0] == '/')
  }

  function AddOf(x: Item): Change { Add(StripSlash(x.path), x.name, x.oid) }
  function DelOf(x: Item): Change { Del(StripSlash(x.path), x.name, x.oid) }
  function ModOf(x: Item, y: Item): Change { Mod(StripSlash(x.path), x.name, x.oid, y.oid) }

  // ----- the recursive walk -----

  // Both directories are walked in parallel; equal ids are not looked into.
  function DiffEntries(es1: seq<Entry>, es2: seq<Entry>, path: string): seq<Change>
    decreases Size(es1) + Size(es2)
  {
    if es1 == [] && es2 == [] then []
    else if es2 == [] || (es1 != [] && NameCmp(es1[0], es2[0]) < 0) then
      (match es1[0]
       case Dir(name, tree) => DiffEntries(tree.entries, [], path + "/" + name)
       case Blob(name, oid, _) => [Del(StripSlash(path), name, oid)])
      + DiffEntries(es1[1..], es2, path)
    else if es1 == [] || NameCmp(es1[0], es2[0]) > 0 then
      (match es2[0]
       case Dir(name, tree) => DiffEntries([], tree.entries, path + "/" + name)
       case Blob(name, oid, _) => [Add(StripSlash(path), name, oid)])
      + DiffEntries(es1, es2[1..], path)
    else
      (if es1[0].Id() == es2[0].Id() then []
       else if es1[0].Dir? && es2[0].Dir? then
         DiffEntries(es1[0].tree.entries, es2[0].tree.entries, path + "/" + es1[0].name)
       else [Mod(StripSlash(path), es1[0].name, es1[0].Id(), es2[0].Id())])
      + DiffEntries(es1[1..], es2[1..], path)
  }

  function Entries(t: Option<Tree>): seq<Entry> {
    if t.None? then [] else t.value.entries
  }

  // The changes from tree `t1` to tree `t2`; either may be missing.
  function DiffTrees(t1: Option<Tree>, t2: Option<Tree>, path: string): seq<Change> {
    if t1.Some? && t2.Some? && t1.value.oid == t2.value.oid then []
    else DiffEntries(Entries(t1), Entries(t2), path)
  }

  // A changed file keeps its mode, or loses its executable bit.
  predicate ModePairOk(mode1: nat, mode2: nat) {
    mode1 == mode2 || (mode1 == MODE_EXECUTABLE && mode2 == MODE_FILE)
  }

  // No abort: the modes of all entries that the walk compares are fine.
  predicate ModesOk(es1: seq<Entry>, es2: seq<Entry>)
    decreases Size(es1) + Size(es2)
  {
    if es1 == [] || es2 == [] then true
    else if NameCmp(es1[0], es2[0]) < 0 then ModesOk(es1[1..], es2)
    else if NameCmp(es1[0], es2[0]) > 0 then ModesOk(es1, es2[1..])
    else
      && (es1[0].Id() != es2[0].Id() ==>
            match (es1[0], es2[0])
            case (Blob(_, _, mode1), Blob(_, _, mode2)) => ModePairOk(mode1, mode2)
            case (Dir(_, tree1), Dir(_, tree2)) => ModesOk(tree1.entries, tree2.entries)
            case _ => false)
      && ModesOk(es1[1..], es2[1..])
  }

  // ----- the plain merge of two file lists -----

  function MergeDiff(a: seq<Item>, b: seq<Item>): seq<Change>
    decreases |a| + |b|
  {
    if a == [] && b == [] then []
    else if b == [] || (a != [] && Less(Where(a[0]), Where(b[0]))) then
      [DelOf(a[0])] + MergeDiff(a[1..], b)
    else if a == [] || Less(Where(b[0]), Where(a[0])) then
      [AddOf(b[0])] + MergeDiff(a, b[1..])
    else
      (if a[0].oid == b[0].oid then [] else [ModOf(a[0], b[0])]) + MergeDiff(a[1..], b[1..])
  }

  lemma BelowTail(a: seq<Item>, b: seq<Item>)
    requires Below(a, b) && a != []
    ensures Below(a[1..], b)
    ensures b != [] ==> Less(Where(a[0]), Where(b[0]))
  {
  }

  // Which branch the merge takes on a1 + a2 and b1 + b2 is decided by a1 and b1.
  lemma SplitBranch(a1: seq<Item>, a2: seq<Item>, b1: seq<Item>, b2: seq<Item>)
    requires Below(a1, a2) && Below(a1, b2) && Below(b1, a2) && Below(b1, b2)
    requires a1 != [] || b1 != []
    ensures var a, b := a1 + a2, b1 + b2;
            && ((b1 == [] || (a1 != [] && Less(Where(a1[0]), Where(b1[0])))) <==>
                (b == [] || (a != [] && Less(Where(a[0]), Where(b[0])))))
            && (a != [] && b != [] && (a1 == [] || b1 == []) ==>
                (Less(Where(b[0]), Where(a[0])) <==> a1 == []))
  {
    var a, b := a1 + a2, b1 + b2;
    if a != [] && b != [] {
      LessTrichotomy(Where(a[0]), Where(b[0]));
      if a1 == [] && a2 != [] {
        BelowTail(b1, a2);
      } else if b1 == [] && b2 != [] {
        BelowTail(a1, b2);
      }
    }
  }

  ghost predicate BothBelow(a1: seq<Item>, a2: seq<Item>, b1: seq<Item>, b2: seq<Item>) {
    Below(a1, a2) && Below(a1, b2) && Below(b1, a2) && Below(b1, b2)
  }

  // The merge of a1 + a2 and b1 + b2 starts with the change that the merge of
  // a1 and b1 starts with.
  lemma SplitHead(a1: seq<Item>, a2: seq<Item>, b1: seq<Item>, b2: seq<Item>)
    returns (h: seq<Change>, a1': seq<Item>, b1': seq<Item>)
    requires BothBelow(a1, a2, b1, b2) && (a1 != [] || b1 != [])
    ensures |a1'| + |b1'| < |a1| + |b1| && BothBelow(a1', a2, b1', b2)
    ensures MergeDiff(a1, b1) == h + MergeDiff(a1', b1')
    ensures MergeDiff(a1 + a2, b1 + b2) == h + MergeDiff(a1' + a2, b1' + b2)
  {
    var a, b := a1 + a2, b1 + b2;
    SplitBranch(a1, a2, b1, b2);
    if b1 == [] || (a1 != [] && Less(Where(a1[0]), Where(b1[0]))) {
      h, a1', b1' := [DelOf(a1[0])], a1[1..], b1;
      assert a[1..] == a1' + a2;
      BelowTail(a1, a2);
      BelowTail(a1, b2);
    } else if a1 == [] || Less(Where(b1[0]), Where(a1[0])) {
      h, a1', b1' := [AddOf(b1[0])], a1, b1[1..];
      assert b[1..] == b1' + b2;
      BelowTail(b1, a2);
      BelowTail(b1, b2);
    } else {
      h := if a1[0].oid == b1[0].oid then [] else [ModOf(a1[0], b1[0])];
      a1', b1' := a1[1..], b1[1..];
      assert a[1..] == a1' + a2 && b[1..] == b1' + b2;
      BelowTail(a1, a2);
      BelowTail(a1, b2);
      BelowTail(b1, a2);
      BelowTail(b1, b2);
    }
  }

  lemma {:induction false} MergeDiffSplit(a1: seq<Item>, a2: seq<Item>, b1: seq<Item>, b2: seq<Item>)
    requires BothBelow(a1, a2, b1, b2)
    ensures MergeDiff(a1 + a2, b1 + b2) == MergeDiff(a1, b1) + MergeDiff(a2, b2)
    decreases |a1| + |b1|
  {
    if a1 == [] && b1 == [] {
      assert a1 + a2 == a2 && b1 + b2 == b2;
    } else {
      var h, a1', b1' := SplitHead(a1, a2, b1, b2);
      MergeDiffSplit(a1', a2, b1', b2);
      Assoc(h, MergeDiff(a1', b1'), MergeDiff(a2, b2));
    }
  }

  lemma {:induction false} MergeDiffSame(a: seq<Item>)
    ensures MergeDiff(a, a) == []
  {
    if a != [] {
      StrcmpSelf(Where(a[0]));
      MergeDiffSame(a[1..]);
    }
  }

  // ----- the walk refines the merge -----

  lemma FlatCons(es: seq<Entry>, path: string)
    requires es != []
    ensures Flat(es, path) == FlatEntry(es[0], path) + Flat(es[1..], path)
  {
  }

  lemma HeadBelow(a: Entry, es: seq<Entry>, path: string)
    requires WellNamed(a) && ValidEntries(es)
    requires es != [] ==> NameCmp(a, es[0]) < 0
    ensures Below(FlatEntry(a, path), Flat(es, path))
    ensures forall e :: e in es ==> NameCmp(a, e) < 0
  {
    forall e | e in es
      ensures WellNamed(e) && NameCmp(a, e) < 0
    {
      var i :| 0 <= i < |es| && es[i] == e;
      if i > 0 {
        LessTransitive(a.SortName(), es[0].SortName(), e.SortName());
      }
    }
    EntryBelowAll(a, es, path);
  }

  lemma ValidHead(es: seq<Entry>)
    requires ValidEntries(es) && es != []
    ensures ValidEntries([es[0]])
  {
  }

  // Entries of equal sort name are of the same kind and have the same name.
  lemma SameSortName(a: Entry, b: Entry)
    requires WellNamed(a) && WellNamed(b) && NameCmp(a, b) == 0
    ensures a.SortName() == b.SortName() && a.name == b.name && a.Dir? == b.Dir?
  {
    StrcmpZero(a.SortName(), b.SortName());
    var s, t := a.SortName(), b.SortName();
    assert s[|s| - 1] == t[|t| - 1];
    assert a.Dir? ==> a.name == s[..|s| - 1];
    assert b.Dir? ==> b.name == t[..|t| - 1];
  }

  // Two stored directories with the same id have the same files; two plain
  // files with the same id and location differ in their modes at most.
  lemma SameId(db: map<Oid, Tree>, a: Entry, b: Entry, path: string)
    requires WellNamed(a) && WellNamed(b) && NameCmp(a, b) == 0 && a.Id() == b.Id()
    requires ValidEntries([a])
    requires a.Dir? ==> Stored(db, a.tree)
    requires b.Dir? ==> Stored(db, b.tree)
    ensures MergeDiff(FlatEntry(a, path), FlatEntry(b, path)) == []
    ensures PairsOk(FlatEntry(a, path), FlatEntry(b, path))
  {
    SameSortName(a, b);
    var f, g := FlatEntry(a, path), FlatEntry(b, path);
    if a.Dir? {
      assert a in [a];
      FlatSorted(a.tree.entries, path + "/" + a.name);
      MergeDiffSame(f);
      PairsSame(f);
    } else {
      assert f == [Item(path, a.name, a.oid, a.mode)] && g == [Item(path, a.name, a.oid, b.mode)];
      StrcmpSelf(Where(f[0]));
      assert MergeDiff(f, g) == [] + MergeDiff(f[1..], g[1..]);
    }
  }

  // Walking the two directory structures yields exactly the merge of their file lists.
  lemma {:induction false} WalkIsMerge(db: map<Oid, Tree>, es1: seq<Entry>, es2: seq<Entry>, path: string)
    requires ValidEntries(es1) && ValidEntries(es2)
    requires StoredEntries(db, es1) && StoredEntries(db, es2)
    requires ModesOk(es1, es2)
    ensures DiffEntries(es1, es2, path) == MergeDiff(Flat(es1, path), Flat(es2, path))
    decreases Size(es1) + Size(es2)
  {
    if es1 != [] {
      ValidTail(es1);
      FlatCons(es1, path);
    }
    if es2 != [] {
      ValidTail(es2);
      FlatCons(es2, path);
    }
    var f1, f2 := Flat(es1, path), Flat(es2, path);
    if es1 == [] && es2 == [] {
    } else if es2 == [] || (es1 != [] && NameCmp(es1[0], es2[0]) < 0) {
      WalkLeft(db, es1, es2, path);
    } else if es1 == [] || NameCmp(es1[0], es2[0]) > 0 {
      WalkRight(db, es1, es2, path);
    } else {
      WalkBoth(db, es1, es2, path);
    }
  }

  lemma OneDeleted(f: seq<Item>)
    requires |f| == 1
    ensures MergeDiff(f, []) == [DelOf(f[0])]
  {
    assert MergeDiff(f, []) == [DelOf(f[0])] + MergeDiff(f[1..], []);
  }

  lemma OneAdded(f: seq<Item>)
    requires |f| == 1
    ensures MergeDiff([], f) == [AddOf(f[0])]
  {
    assert MergeDiff([], f) == [AddOf(f[0])] + MergeDiff([], f[1..]);
  }

  lemma WalkLeftHead(es1: seq<Entry>, es2: seq<Entry>, path: string)
    requires es1 != [] && (es2 == [] || NameCmp(es1[0], es2[0]) < 0)
    ensures DiffEntries(es1, es2, path) ==
            (match es1[0]
             case Dir(name, tree) => DiffEntries(tree.entries, [], path + "/" + name)
             case Blob(name, oid, _) => [Del(StripSlash(path), name, oid)])
            + DiffEntries(es1[1..], es2, path)
  {
  }

  lemma {:induction false} WalkLeft(db: map<Oid, Tree>, es1: seq<Entry>, es2: seq<Entry>, path: string)
    requires ValidEntries(es1) && ValidEntries(es2)
    requires StoredEntries(db, es1) && StoredEntries(db, es2)
    requires ModesOk(es1, es2)
    requires es1 != [] && (es2 == [] || NameCmp(es1[0], es2[0]) < 0)
    ensures DiffEntries(es1, es2, path) == MergeDiff(Flat(es1, path), Flat(es2, path))
    decreases Size(es1) + Size(es2), 0
  {
    hide DiffEntries;
    hide GoodName;
    WalkLeftHead(es1, es2, path);
    hide MergeDiff;
    hide StripSlash;
    var e, f := es1[0], FlatEntry(es1[0], path);
    ValidTail(es1);
    if e.Dir? {
      WalkIsMerge(db, e.tree.entries, [], path + "/" + e.name);
    } else {
      OneDeleted(f);
    }
    WalkIsMerge(db, es1[1..], es2, path);
    HeadBelow(e, es1[1..], path);
    HeadBelow(e, es2, path);
    MergeDiffSplit(f, Flat(es1[1..], path), [], Flat(es2, path));
    assert [] + Flat(es2, path) == Flat(es2, path);
  }

  lemma {:induction false} WalkRight(db: map<Oid, Tree>, es1: seq<Entry>, es2: seq<Entry>, path: string)
    requires ValidEntries(es1) && ValidEntries(es2)
    requires StoredEntries(db, es1) && StoredEntries(db, es2)
    requires ModesOk(es1, es2)
    requires es2 != [] && (es1 == [] || NameCmp(es1[0], es2[0]) > 0)
    ensures DiffEntries(es1, es2, path) == MergeDiff(Flat(es1, path), Flat(es2, path))
    decreases Size(es1) + Size(es2), 0
  {
    hide MergeDiff;
    hide StripSlash;
    var e, f := es2[0], FlatEntry(es2[0], path);
    ValidTail(es2);
    if es1 != [] {
      StrcmpFlip(es1[0].SortName(), e.SortName());
    }
    if e.Dir? {
      WalkIsMerge(db, [], e.tree.entries, path + "/" + e.name);
    } else {
      OneAdded(f);
    }
    WalkIsMerge(db, es1, es2[1..], path);
    HeadBelow(e, es2[1..], path);
    HeadBelow(e, es1, path);
    MergeDiffSplit([], Flat(es1, path), f, Flat(es2[1..], path));
    assert [] + Flat(es1, path) == Flat(es1, path);
  }

  lemma {:induction false} WalkBoth(db: map<Oid, Tree>, es1: seq<Entry>, es2: seq<Entry>, path: string)
    requires ValidEntries(es1) && ValidEntries(es2)
    requires StoredEntries(db, es1) && StoredEntries(db, es2)
    requires ModesOk(es1, es2)
    requires es1 != [] && es2 != [] && NameCmp(es1[0], es2[0]) == 0
    ensures DiffEntries(es1, es2, path) == MergeDiff(Flat(es1, path), Flat(es2, path))
    decreases Size(es1) + Size(es2), 0
  {
    var e1, e2 := es1[0], es2[0];
    var g1, g2 := FlatEntry(e1, path), FlatEntry(e2, path);
    ValidTail(es1);
    ValidTail(es2);
    SameSortName(e1, e2);
    WalkIsMerge(db, es1[1..], es2[1..], path);
    HeadsBelow(e1, e2, es1[1..], path);
    HeadsBelow(e2, e1, es2[1..], path);
    MergeDiffSplit(g1, Flat(es1[1..], path), g2, Flat(es2[1..], path));
    if e1.Id() == e2.Id() {
      ValidHead(es1);
      SameId(db, e1, e2, path);
    } else if e1.Dir? {
      WalkIsMerge(db, e1.tree.entries, e2.tree.entries, path + "/" + e1.name);
    } else {
      StrcmpSelf(Where(g1[0]));
      assert MergeDiff(g1, g2) == [ModOf(g1[0], g2[0])] + MergeDiff(g1[1..], g2[1..]);
      assert MergeDiff(g1, g2) == [ModOf(g1[0], g2[0])];
    }
  }

  lemma HeadsBelow(e1: Entry, e2: Entry, rest: seq<Entry>, path: string)
    requires WellNamed(e1) && WellNamed(e2) && ValidEntries(rest)
    requires e1.SortName() == e2.SortName()
    requires forall e :: e in rest ==> NameCmp(e1, e) < 0 && WellNamed(e)
    ensures Below(FlatEntry(e1, path), Flat(rest, path)) && Below(FlatEntry(e2, path), Flat(rest, path))
  {
    EntryBelowAll(e1, rest, path);
    EntryBelowAll(e2, rest, path);
  }

  // ----- when the walk is aborted -----

  // Files at the same location with different contents have compatible modes.
  ghost predicate PairsOk(a: seq<Item>, b: seq<Item>) {
    forall i, j :: 0 <= i < |a| && 0 <= j < |b| && Where(a[i]) == Where(b[j]) && a[i].oid != b[j].oid ==>
      ModePairOk(a[i].mode, b[j].mode)
  }

  lemma PairsApart(a: seq<Item>, b: seq<Item>)
    requires Below(a, b)
    ensures PairsOk(a, b) && PairsOk(b, a)
  {
    forall i, j | 0 <= i < |a| && 0 <= j < |b|
      ensures Where(a[i]) != Where(b[j])
    {
      LessTrichotomy(Where(a[i]), Where(b[j]));
    }
  }

  lemma PairsConcatLeft(a1: seq<Item>, a2: seq<Item>, b: seq<Item>)
    ensures PairsOk(a1 + a2, b) <==> PairsOk(a1, b) && PairsOk(a2, b)
  {
    var a := a1 + a2;
    assert forall i :: 0 <= i < |a1| ==> a[i] == a1[i];
    assert forall i :: 0 <= i < |a2| ==> a[|a1| + i] == a2[i];
  }

  lemma PairsConcatRight(a: seq<Item>, b1: seq<Item>, b2: seq<Item>)
    ensures PairsOk(a, b1 + b2) <==> PairsOk(a, b1) && PairsOk(a, b2)
  {
    var b := b1 + b2;
    assert forall i :: 0 <= i < |b1| ==> b[i] == b1[i];
    assert forall i :: 0 <= i < |b2| ==> b[|b1| + i] == b2[i];
  }

  lemma PairsSplit(a1: seq<Item>, a2: seq<Item>, b1: seq<Item>, b2: seq<Item>)
    requires BothBelow(a1, a2, b1, b2)
    ensures PairsOk(a1 + a2, b1 + b2) <==> PairsOk(a1, b1) && PairsOk(a2, b2)
  {
    PairsConcatLeft(a1, a2, b1 + b2);
    PairsConcatRight(a1, b1, b2);
    PairsConcatRight(a2, b1, b2);
    PairsApart(a1, b2);
    PairsApart(b1, a2);
  }

  lemma PairsSame(a: seq<Item>)
    requires SortedItems(a)
    ensures PairsOk(a, a)
  {
    forall i, j | 0 <= i < |a| && 0 <= j < |a| && Where(a[i]) == Where(a[j])
      ensures i == j
    {
      LessTrichotomy(Where(a[i]), Where(a[j]));
    }
  }

  lemma PairsOfOne(x: Item, y: Item)
    requires Where(x) == Where(y)
    ensures PairsOk([x], [y]) <==> x.oid == y.oid || ModePairOk(x.mode, y.mode)
  {
    assert [x][0] == x && [y][0] == y;
  }

  // The walk is not aborted exactly when no file changes both its content and,
  // other than by losing the executable bit, its mode.
  lemma {:induction false} ModesOkMeaning(db: map<Oid, Tree>, es1: seq<Entry>, es2: seq<Entry>, path: string)
    requires ValidEntries(es1) && ValidEntries(es2)
    requires StoredEntries(db, es1) && StoredEntries(db, es2)
    ensures ModesOk(es1, es2) <==> PairsOk(Flat(es1, path), Flat(es2, path))
    decreases Size(es1) + Size(es2)
  {
    if es1 != [] && es2 != [] {
      ValidTail(es1);
      ValidTail(es2);
      var f1, f2 := FlatEntry(es1[0], path), FlatEntry(es2[0], path);
      if NameCmp(es1[0], es2[0]) < 0 {
        ModesOkMeaning(db, es1[1..], es2, path);
        HeadBelow(es1[0], es2, path);
        PairsApart(f1, Flat(es2, path));
        PairsConcatLeft(f1, Flat(es1[1..], path), Flat(es2, path));
      } else if NameCmp(es1[0], es2[0]) > 0 {
        StrcmpFlip(es1[0].SortName(), es2[0].SortName());
        ModesOkMeaning(db, es1, es2[1..], path);
        HeadBelow(es2[0], es1, path);
        PairsApart(f2, Flat(es1, path));
        PairsConcatRight(Flat(es1, path), f2, Flat(es2[1..], path));
      } else {
        SameSortName(es1[0], es2[0]);
        ModesOkMeaning(db, es1[1..], es2[1..], path);
        HeadsBelow(es1[0], es2[0], es1[1..], path);
        HeadsBelow(es2[0], es1[0], es2[1..], path);
        PairsSplit(f1, Flat(es1[1..], path), f2, Flat(es2[1..], path));
        ModesOkHeads(db, es1, es2, path);
      }
    }
  }

  // One changed file: the walk goes on if the mode stays, or if an executable
  // file (0100755) becomes a plain one (0100644); no other change of mode.
  lemma OneModeChange(name: string, oid1: Oid, oid2: Oid, mode1: nat, mode2: nat)
    requires oid1 != oid2
    ensures ModesOk([Blob(name, oid1, mode1)], [Blob(name, oid2, mode2)]) <==>
            mode1 == mode2 || (mode1 == 33261 && mode2 == 33188)
  {
    StrcmpSelf(name);
    var es1, es2 := [Blob(name, oid1, mode1)], [Blob(name, oid2, mode2)];
    assert es1[1..] == [] && es2[1..] == [];
  }

  lemma ModesOkHeads(db: map<Oid, Tree>, es1: seq<Entry>, es2: seq<Entry>, path: string)
    requires ValidEntries(es1) && ValidEntries(es2)
    requires StoredEntries(db, es1) && StoredEntries(db, es2)
    requires es1 != [] && es2 != [] && NameCmp(es1[0], es2[0]) == 0
    ensures ModesOk(es1, es2) <==>
            PairsOk(FlatEntry(es1[0], path), FlatEntry(es2[0], path)) && ModesOk(es1[1..], es2[1..])
    decreases Size(es1) + Size(es2), 0
  {
    var e1, e2 := es1[0], es2[0];
    ValidTail(es1);
    ValidTail(es2);
    SameSortName(e1, e2);
    if e1.Id() == e2.Id() {
      ValidHead(es1);
      SameId(db, e1, e2, path);
    } else if e1.Dir? {
      ModesOkMeaning(db, e1.tree.entries, e2.tree.entries, path + "/" + e1.name);
    } else {
      PairsOfOne(Item(path, e1.name, e1.oid, e1.mode), Item(path, e2.name, e2.oid, e2.mode));
    }
  }

  // ----- what the merge means -----

  ghost predicate ItemPathsOk(a: seq<Item>) {
    forall i :: 0 <= i < |a| ==> DirPath(a[i].path)
  }

  lemma {:induction false} FlatPathsOk(es: seq<Entry>, path: string)
    requires ValidEntries(es) && DirPath(path)
    ensures ItemPathsOk(Flat(es, path))
    decreases es
  {
    if es != [] {
      ValidTail(es);
      FlatPathsOk(es[1..], path);
      if es[0].Dir? {
        FlatPathsOk(es[0].tree.entries, path + "/" + es[0].name);
      }
    }
  }

  // Each change tells the truth about both snapshots, and is a real change.
  ghost predicate Truthful(cs: seq<Change>, m1: map<string, Oid>, m2: map<string, Oid>) {
    forall i :: 0 <= i < |cs| ==>
      && cs[i].TryOid1() == Lookup(m1, cs[i].At())
      && cs[i].TryOid2() == Lookup(m2, cs[i].At())
      && cs[i].TryOid1() != cs[i].TryOid2()
  }

  // Every location where the two snapshots differ has a change.
  ghost predicate Complete(cs: seq<Change>, m1: map<string, Oid>, m2: map<string, Oid>) {
    forall p :: Lookup(m1, p) != Lookup(m2, p) ==> exists i :: 0 <= i < |cs| && cs[i].At() == p
  }

  ghost predicate SortedChanges(cs: seq<Change>) {
    forall i, j :: 0 <= i < j < |cs| ==> Less(cs[i].At(), cs[j].At())
  }

  ghost predicate AllAfter(p: string, a: seq<Item>) {
    forall i :: 0 <= i < |a| ==> Less(p, Where(a[i]))
  }

  ghost predicate ChangesAfter(p: string, cs: seq<Change>) {
    forall i :: 0 <= i < |cs| ==> Less(p, cs[i].At())
  }

  lemma AfterNotIn(p: string, a: seq<Item>)
    requires AllAfter(p, a)
    ensures p !in AsMap(a)
  {
    AsMapDomain(a, p);
    LessTrichotomy(p, p);
  }

  lemma AtOfItem(x: Item, y: Item)
    requires DirPath(x.path)
    ensures AddOf(x).At() == DelOf(x).At() == ModOf(x, y).At() == Where(x)
  {
    if x.path != "" {
      assert "/" + x.path[1..] == x.path;
    }
  }

  lemma SortedTailAfter(a: seq<Item>, b: seq<Item>)
    requires SortedItems(a) && SortedItems(b) && a != [] && b != []
    requires Less(Where(a[0]), Where(b[0])) || Where(a[0]) == Where(b[0])
    ensures AllAfter(Where(a[0]), a[1..]) && AllAfter(Where(a[0]), b[1..])
    ensures Less(Where(a[0]), Where(b[0])) ==> AllAfter(Where(a[0]), b)
  {
    forall i | 0 < i < |b|
      ensures Less(Where(a[0]), Where(b[i]))
    {
      if Less(Where(a[0]), Where(b[0])) {
        LessTransitive(Where(a[0]), Where(b[0]), Where(b[i]));
      }
    }
  }

  lemma {:induction false} MergeAfter(p: string, a: seq<Item>, b: seq<Item>)
    requires AllAfter(p, a) && AllAfter(p, b) && ItemPathsOk(a) && ItemPathsOk(b)
    ensures ChangesAfter(p, MergeDiff(a, b))
    decreases |a| + |b|
  {
    if a == [] && b == [] {
    } else if b == [] || (a != [] && Less(Where(a[0]), Where(b[0]))) {
      AtOfItem(a[0], a[0]);
      MergeAfter(p, a[1..], b);
    } else if a == [] || Less(Where(b[0]), Where(a[0])) {
      AtOfItem(b[0], b[0]);
      MergeAfter(p, a, b[1..]);
    } else {
      AtOfItem(a[0], b[0]);
      MergeAfter(p, a[1..], b[1..]);
    }
  }

  // The snapshots m1, m2 are n1, n2 except at `p`, where `head` describes them.
  ghost predicate OneMore(p: string, head: seq<Change>,
                          m1: map<string, Oid>, m2: map<string, Oid>, n1: map<string, Oid>, n2: map<string, Oid>)
  {
    && (forall q :: q != p ==> Lookup(m1, q) == Lookup(n1, q) && Lookup(m2, q) == Lookup(n2, q))
    && |head| <= 1
    && (head == [] <==> Lookup(m1, p) == Lookup(m2, p))
    && (head != [] ==> head[0].At() == p && head[0].TryOid1() == Lookup(m1, p) && head[0].TryOid2() == Lookup(m2, p))
  }

  lemma TruthfulStep(p: string, head: seq<Change>, cs: seq<Change>,
                     m1: map<string, Oid>, m2: map<string, Oid>, n1: map<string, Oid>, n2: map<string, Oid>)
    requires OneMore(p, head, m1, m2, n1, n2) && Truthful(cs, n1, n2) && ChangesAfter(p, cs)
    ensures Truthful(head + cs, m1, m2)
  {
    forall i | 0 <= i < |cs|
      ensures cs[i].At() != p
    {
      LessTrichotomy(p, cs[i].At());
    }
  }

  lemma CompleteStep(p: string, head: seq<Change>, cs: seq<Change>,
                     m1: map<string, Oid>, m2: map<string, Oid>, n1: map<string, Oid>, n2: map<string, Oid>)
    requires OneMore(p, head, m1, m2, n1, n2) && Complete(cs, n1, n2)
    ensures Complete(head + cs, m1, m2)
  {
    var all := head + cs;
    forall q | Lookup(m1, q) != Lookup(m2, q)
      ensures exists i :: 0 <= i < |all| && all[i].At() == q
    {
      if q == p {
        assert all[0].At() == q;
      } else {
        assert Lookup(n1, q) != Lookup(n2, q);
        var i :| 0 <= i < |cs| && cs[i].At() == q;
        assert all[|head| + i].At() == q;
      }
    }
  }

  // One step of the merge: a first location `p` is handled by `head`,
  // everything else by the rest.
  lemma ExactStep(p: string, head: seq<Change>, cs: seq<Change>,
                  m1: map<string, Oid>, m2: map<string, Oid>, n1: map<string, Oid>, n2: map<string, Oid>)
    requires OneMore(p, head, m1, m2, n1, n2)
    requires Truthful(cs, n1, n2) && Complete(cs, n1, n2) && SortedChanges(cs) && ChangesAfter(p, cs)
    ensures Truthful(head + cs, m1, m2) && Complete(head + cs, m1, m2) && SortedChanges(head + cs)
  {
    TruthfulStep(p, head, cs, m1, m2, n1, n2);
    CompleteStep(p, head, cs, m1, m2, n1, n2);
  }

  ghost predicate SortedLists(a: seq<Item>, b: seq<Item>) {
    SortedItems(a) && SortedItems(b) && ItemPathsOk(a) && ItemPathsOk(b)
  }

  ghost predicate Exact(cs: seq<Change>, a: seq<Item>, b: seq<Item>) {
    Truthful(cs, AsMap(a), AsMap(b)) && Complete(cs, AsMap(a), AsMap(b)) && SortedChanges(cs)
  }

  lemma {:induction false} MergeDiffExact(a: seq<Item>, b: seq<Item>)
    requires SortedLists(a, b)
    ensures Exact(MergeDiff(a, b), a, b)
    decreases |a| + |b|
  {
    if a == [] && b == [] {
    } else if b == [] || (a != [] && Less(Where(a[0]), Where(b[0]))) {
      MergeDiffExact(a[1..], b);
      ExactDel(a, b);
    } else if a == [] || Less(Where(b[0]), Where(a[0])) {
      MergeDiffExact(a, b[1..]);
      ExactAdd(a, b);
    } else {
      LessTrichotomy(Where(a[0]), Where(b[0]));
      MergeDiffExact(a[1..], b[1..]);
      ExactBoth(a, b);
    }
  }

  lemma ExactDel(a: seq<Item>, b: seq<Item>)
    requires SortedLists(a, b) && a != [] && (b == [] || Less(Where(a[0]), Where(b[0])))
    requires Exact(MergeDiff(a[1..], b), a[1..], b)
    ensures Exact([DelOf(a[0])] + MergeDiff(a[1..], b), a, b)
  {
    var p := Where(a[0]);
    if b != [] {
      SortedTailAfter(a, b);
    }
    MergeAfter(p, a[1..], b);
    AfterNotIn(p, b);
    AtOfItem(a[0], a[0]);
    ExactStep(p, [DelOf(a[0])], MergeDiff(a[1..], b), AsMap(a), AsMap(b), AsMap(a[1..]), AsMap(b));
  }

  lemma ExactAdd(a: seq<Item>, b: seq<Item>)
    requires SortedLists(a, b) && b != [] && (a == [] || Less(Where(b[0]), Where(a[0])))
    requires Exact(MergeDiff(a, b[1..]), a, b[1..])
    ensures Exact([AddOf(b[0])] + MergeDiff(a, b[1..]), a, b)
  {
    var p := Where(b[0]);
    if a != [] {
      SortedTailAfter(b, a);
    }
    MergeAfter(p, a, b[1..]);
    AfterNotIn(p, a);
    AtOfItem(b[0], b[0]);
    ExactStep(p, [AddOf(b[0])], MergeDiff(a, b[1..]), AsMap(a), AsMap(b), AsMap(a), AsMap(b[1..]));
  }

  lemma ExactBoth(a: seq<Item>, b: seq<Item>)
    requires SortedLists(a, b) && a != [] && b != [] && Where(a[0]) == Where(b[0])
    requires Exact(MergeDiff(a[1..], b[1..]), a[1..], b[1..])
    ensures Exact((if a[0].oid == b[0].oid then [] else [ModOf(a[0], b[0])]) + MergeDiff(a[1..], b[1..]), a, b)
  {
    var p, head := Where(a[0]), if a[0].oid == b[0].oid then [] else [ModOf(a[0], b[0])];
    SortedTailAfter(a, b);
    MergeAfter(p, a[1..], b[1..]);
    AtOfItem(a[0], b[0]);
    ExactStep(p, head, MergeDiff(a[1..], b[1..]), AsMap(a), AsMap(b), AsMap(a[1..]), AsMap(b[1..]));
  }

  // ----- main results about trees -----

  ghost predicate GoodTree(db: map<Oid, Tree>, t: Tree) {
    ValidEntries(t.entries) && Stored(db, t)
  }

  ghost predicate GoodOption(db: map<Oid, Tree>, t: Option<Tree>) {
    t.Some? ==> GoodTree(db, t.value)
  }

  function SnapshotOf(t: Option<Tree>): map<string, Oid> {
    if t.None? then map[] else Snapshot(t.value)
  }

  // The emitted changes are exact: one per differing location, in location
  // order, with the ids that the old and the new tree hold there.
  lemma DiffTreesExact(db: map<Oid, Tree>, t1: Option<Tree>, t2: Option<Tree>)
    requires GoodOption(db, t1) && GoodOption(db, t2)
    requires ModesOk(Entries(t1), Entries(t2))
    ensures Truthful(DiffTrees(t1, t2, ""), SnapshotOf(t1), SnapshotOf(t2))
    ensures Complete(DiffTrees(t1, t2, ""), SnapshotOf(t1), SnapshotOf(t2))
    ensures SortedChanges(DiffTrees(t1, t2, ""))
  {
    var es1, es2 := Entries(t1), Entries(t2);
    if t1.Some? && t2.Some? && t1.value.oid == t2.value.oid {
      assert t1.value == t2.value;
    } else {
      WalkIsMerge(db, es1, es2, "");
      FlatSorted(es1, "");
      FlatSorted(es2, "");
      FlatPathsOk(es1, "");
      FlatPathsOk(es2, "");
      MergeDiffExact(Flat(es1, ""), Flat(es2, ""));
    }
  }

  function Replay(m: map<string, Oid>, cs: seq<Change>): map<string, Oid>
    decreases |cs|
  {
    if cs == [] then m
    else Replay(match cs[0].TryOid2()
                case Some(oid) => m[cs[0].At() := oid]
                case None => m - {cs[0].At()},
                cs[1..])
  }

  lemma {:induction false} ReplayLookup(m: map<string, Oid>, cs: seq<Change>, p: string)
    requires SortedChanges(cs)
    ensures (forall i :: 0 <= i < |cs| ==> cs[i].At() != p) ==> Lookup(Replay(m, cs), p) == Lookup(m, p)
    ensures forall i :: 0 <= i < |cs| && cs[i].At() == p ==> Lookup(Replay(m, cs), p) == cs[i].TryOid2()
    decreases |cs|
  {
    if cs != [] {
      var m' := match cs[0].TryOid2()
        case Some(oid) => m[cs[0].At() := oid]
        case None => m - {cs[0].At()};
      ReplayLookup(m', cs[1..], p);
      forall i | 0 < i < |cs|
        ensures cs[i] == cs[1..][i - 1] && cs[i].At() != cs[0].At()
      {
        LessTrichotomy(cs[0].At(), cs[i].At());
      }
    }
  }

  // Replaying the changes of a commit on its parent's files gives its own files.
  lemma ReplayDiff(db: map<Oid, Tree>, t1: Option<Tree>, t2: Option<Tree>)
    requires GoodOption(db, t1) && GoodOption(db, t2)
    requires ModesOk(Entries(t1), Entries(t2))
    ensures Replay(SnapshotOf(t1), DiffTrees(t1, t2, "")) == SnapshotOf(t2)
  {
    DiffTreesExact(db, t1, t2);
    var cs, m1, m2 := DiffTrees(t1, t2, ""), SnapshotOf(t1), SnapshotOf(t2);
    forall p
      ensures Lookup(Replay(m1, cs), p) == Lookup(m2, p)
    {
      ReplayLookup(m1, cs, p);
      if Lookup(m1, p) != Lookup(m2, p) {
        var i :| 0 <= i < |cs| && cs[i].At() == p;
      }
    }
    var r := Replay(m1, cs);
    forall p | p in r || p in m2
      ensures p in r && p in m2 && r[p] == m2[p]
    {
      assert Lookup(r, p) == Lookup(m2, p);
    }
  }
}
