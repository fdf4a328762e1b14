/** One commit and the binary search for the change of one file in it. */
module Commits {
  import opened StringOrder
  import opened GitTree
  import opened Options
  import opened TreeDiff

  // The string a change is searched by.
  function Key(c: Change): string {
    Location(c.path, c.name)
  }

  // The binary search of Commit::findChange between positions left and right.
  function Search(cs: seq<Change>, pattern: string, left: int, right: int): (r: Option<Change>)
    requires 0 <= left && right < |cs|
    ensures r.Some? ==> r.value in cs && Key(r.value) == pattern
    decreases right - left + 1
  {
    if left > right then None
    else
      var mid := (left + right) / 2;
      var cmp := Strcmp(pattern, Key(cs[mid]));
      if cmp > 0 then Search(cs, pattern, mid + 1, right)
      else if cmp < 0 then Search(cs, pattern, left, mid - 1)
      else StrcmpZero(pattern, Key(cs[mid])); Some(cs[mid])
  }

  function FindIn(cs: seq<Change>, name: string, path: string): Option<Change> {
    Search(cs, Location(path, name), 0, |cs| - 1)
  }

  function UpdateOidIn(cs: seq<Change>, name: string, path: string): Option<Oid> {
    var c := FindIn(cs, name, path);
    if c.Some? then c.value.TryOid2() else None
  }

  function RemovalOidIn(cs: seq<Change>, name: string, path: string): Option<Oid> {
    var c := FindIn(cs, name, path);
    if c.Some? && c.value.Del? then Some(c.value.oid1) else None
  }

  class Commit {
    var time: int
    var changes: seq<Change>

    constructor (time: int)
      ensures this.time == time && changes == []
    {
      this.time := time;
      changes := [];
    }

    method AddChange(c: Change)
      modifies this`changes
      ensures changes == old(changes) + [c]
    {
      changes := changes + [c];
    }

    method FindChange(name: string, path: string) returns (r: Option<Change>)
      ensures r == FindIn(changes, name, path)
    {
      var left, right := 0, |changes| - 1;
      var pattern := Location(path, name);
      while left <= right
        invariant 0 <= left && right < |changes|
        invariant Search(changes, pattern, left, right) == FindIn(changes, name, path)
      {
        var mid := (left + right) / 2;
        var change := changes[mid];
        var cmp := Strcmp(pattern, Key(change));
        if cmp > 0 {
          left := mid + 1;
        } else if cmp < 0 {
          right := mid - 1;
        } else {
          return Some(change);
        }
      }
      return None;
    }

    method FindRemovalOid(name: string, path: string) returns (r: Option<Oid>)
      ensures r == RemovalOidIn(changes, name, path)
    {
      var change := FindChange(name, path);
      if change.Some? && change.value.Del? {
        r := Some(change.value.oid1);
      } else {
        r := None;
      }
    }

    method FindUpdateOid(name: string, path: string) returns (r: Option<Oid>)
      ensures r == UpdateOidIn(changes, name, path)
    {
      var change := FindChange(name, path);
      if change.Some? && (change.value.Add? || change.value.Mod?) {
        r := Some(change.value.oid2);
      } else {
        r := None;
      }
    }
  }

  // ----- the search finds what is there, on sorted changes -----

  ghost predicate SortedByKey(cs: seq<Change>) {
    forall i, j :: 0 <= i < j < |cs| ==> Less(Key(cs[i]), Key(cs[j]))
  }

  lemma {:induction false} SearchFinds(cs: seq<Change>, pattern: string, left: int, right: int, k: int)
    requires SortedByKey(cs) && 0 <= left <= k <= right < |cs|
    requires Key(cs[k]) == pattern
    ensures Search(cs, pattern, left, right) == Some(cs[k])
    decreases right - left
  {
    var mid := (left + right) / 2;
    StrcmpSelf(pattern);
    StrcmpFlip(Key(cs[mid]), pattern);
    if mid < k {
      SearchFinds(cs, pattern, mid + 1, right, k);
    } else if k < mid {
      SearchFinds(cs, pattern, left, mid - 1, k);
    }
  }

  lemma {:induction false} SearchInside(cs: seq<Change>, pattern: string, left: int, right: int)
    requires 0 <= left && right < |cs|
    ensures var r := Search(cs, pattern, left, right);
            r.Some? ==> exists k :: left <= k <= right && cs[k] == r.value && Key(cs[k]) == pattern
    decreases right - left + 1
  {
    if left <= right {
      var mid := (left + right) / 2;
      StrcmpZero(pattern, Key(cs[mid]));
      if Strcmp(pattern, Key(cs[mid])) > 0 {
        SearchInside(cs, pattern, mid + 1, right);
      } else if Strcmp(pattern, Key(cs[mid])) < 0 {
        SearchInside(cs, pattern, left, mid - 1);
      }
    }
  }

  ghost predicate DistinctKeys(cs: seq<Change>) {
    forall i, j :: 0 <= i < |cs| && 0 <= j < |cs| && Key(cs[i]) == Key(cs[j]) ==> i == j
  }

  // Searching between two positions finds each of the changes there.
  ghost predicate FindsAll(cs: seq<Change>, left: int, right: int)
    requires 0 <= left && right < |cs|
  {
    forall k :: left <= k <= right ==> Search(cs, Key(cs[k]), left, right) == Some(cs[k])
  }

  // A key that is searched on the wrong side of the middle is not found there.
  lemma FoundOnItsSide(cs: seq<Change>, left: int, right: int, k: int)
    requires DistinctKeys(cs) && 0 <= left <= k <= right < |cs| && FindsAll(cs, left, right)
    ensures var mid := (left + right) / 2;
            && (k < mid ==> Less(Key(cs[k]), Key(cs[mid])) && Search(cs, Key(cs[k]), left, mid - 1) == Some(cs[k]))
            && (mid < k ==> Less(Key(cs[mid]), Key(cs[k])) && Search(cs, Key(cs[k]), mid + 1, right) == Some(cs[k]))
  {
    hide Key;
    hide Strcmp;
    var mid, key := (left + right) / 2, Key(cs[k]);
    StrcmpZero(key, Key(cs[mid]));
    StrcmpFlip(key, Key(cs[mid]));
    SearchInside(cs, key, mid + 1, right);
    SearchInside(cs, key, left, mid - 1);
  }

  ghost predicate SortedBetween(cs: seq<Change>, left: int, right: int)
    requires 0 <= left && right < |cs|
  {
    forall i, j :: left <= i < j <= right ==> Less(Key(cs[i]), Key(cs[j]))
  }

  lemma {:induction false} FoundMeansSorted(cs: seq<Change>, left: int, right: int)
    requires DistinctKeys(cs) && 0 <= left && right < |cs| && FindsAll(cs, left, right)
    ensures SortedBetween(cs, left, right)
    decreases right - left + 1
  {
    hide Key;
    hide Strcmp;
    hide Search;
    if left <= right {
      var mid := (left + right) / 2;
      forall k | left <= k <= right
        ensures k < mid ==> Less(Key(cs[k]), Key(cs[mid])) && Search(cs, Key(cs[k]), left, mid - 1) == Some(cs[k])
        ensures mid < k ==> Less(Key(cs[mid]), Key(cs[k])) && Search(cs, Key(cs[k]), mid + 1, right) == Some(cs[k])
      {
        FoundOnItsSide(cs, left, right, k);
      }
      FoundMeansSorted(cs, left, mid - 1);
      FoundMeansSorted(cs, mid + 1, right);
      SortedAround(cs, left, mid, right);
    }
  }

  lemma SortedAround(cs: seq<Change>, left: int, mid: int, right: int)
    requires 0 <= left <= mid <= right < |cs|
    requires SortedBetween(cs, left, mid - 1) && SortedBetween(cs, mid + 1, right)
    requires forall k :: left <= k < mid ==> Less(Key(cs[k]), Key(cs[mid]))
    requires forall k :: mid < k <= right ==> Less(Key(cs[mid]), Key(cs[k]))
    ensures SortedBetween(cs, left, right)
  {
    forall i, j | left <= i < mid < j <= right
      ensures Less(Key(cs[i]), Key(cs[j]))
    {
      LessTransitive(Key(cs[i]), Key(cs[mid]), Key(cs[j]));
    }
  }

  // The search finds every change exactly when they are sorted by key.
  lemma SearchIff(cs: seq<Change>)
    requires DistinctKeys(cs)
    ensures SortedByKey(cs) <==> FindsAll(cs, 0, |cs| - 1)
  {
    hide Search;
    hide Key;
    hide Less;
    if SortedByKey(cs) {
      forall k | 0 <= k < |cs|
        ensures Search(cs, Key(cs[k]), 0, |cs| - 1) == Some(cs[k])
      {
        SearchFinds(cs, Key(cs[k]), 0, |cs| - 1, k);
      }
    }
    if FindsAll(cs, 0, |cs| - 1) {
      FoundMeansSorted(cs, 0, |cs| - 1);
    }
  }

  // ----- keys and locations -----

  // The paths and names that git trees give rise to.
  predicate ChangeOk(c: Change) {
    GoodName(c.name) && (c.path == "" || c.path[0] != '/')
  }

  ghost predicate ChangesOk(cs: seq<Change>) {
    forall i :: 0 <= i < |cs| ==> ChangeOk(cs[i])
  }

  predicate FirstDirOk(path: string) {
    path == "" || (|path| > 1 && path[0] == '/' && path[1] != '/')
  }

  ghost predicate ItemsOk(a: seq<Item>) {
    forall i :: 0 <= i < |a| ==> FirstDirOk(a[i].path) && GoodName(a[i].name)
  }

  lemma {:induction false} FlatItemsOk(es: seq<Entry>, path: string)
    requires ValidEntries(es) && FirstDirOk(path)
    ensures ItemsOk(Flat(es, path))
    decreases es
  {
    if es != [] {
      ValidTail(es);
      FlatItemsOk(es[1..], path);
      if es[0].Dir? {
        FlatItemsOk(es[0].tree.entries, path + "/" + es[0].name);
      }
    }
  }

  lemma {:induction false} MergeChangesOk(a: seq<Item>, b: seq<Item>)
    requires ItemsOk(a) && ItemsOk(b)
    ensures ChangesOk(MergeDiff(a, b))
    decreases |a| + |b|
  {
    if a == [] && b == [] {
    } else if b == [] || (a != [] && Less(Where(a[0]), Where(b[0]))) {
      MergeChangesOk(a[1..], b);
    } else if a == [] || Less(Where(b[0]), Where(a[0])) {
      MergeChangesOk(a, b[1..]);
    } else {
      MergeChangesOk(a[1..], b[1..]);
    }
  }

  lemma DiffChangesOk(db: map<Oid, Tree>, t1: Option<Tree>, t2: Option<Tree>)
    requires GoodOption(db, t1) && GoodOption(db, t2)
    requires ModesOk(Entries(t1), Entries(t2))
    ensures ChangesOk(DiffTrees(t1, t2, ""))
  {
    var es1, es2 := Entries(t1), Entries(t2);
    FlatItemsOk(es1, "");
    FlatItemsOk(es2, "");
    MergeChangesOk(Flat(es1, ""), Flat(es2, ""));
    WalkIsMerge(db, es1, es2, "");
  }

  // At the root the key of a file is its location; below it, the location
  // without its leading slash.
  lemma KeyAndLocation(c: Change)
    ensures c.path == "" ==> c.At() == Key(c)
    ensures c.path != "" ==> c.At() == "/" + Key(c)
  {
  }

  // "/" and a name.
  predicate IsRootFile(p: string) {
    p != "" && p[0] == '/' && '/' !in p[1..]
  }

  // The location that a caller's name and path stand for. A pattern that is a
  // root file's key names that file; no other file's key begins with a slash.
  function CallerLocation(name: string, path: string): string {
    var pattern := Location(path, name);
    if IsRootFile(pattern) then pattern else "/" + pattern
  }

  lemma RootFileAt(c: Change)
    requires ChangeOk(c)
    ensures IsRootFile(c.At()) <==> c.path == ""
    ensures c.path != "" ==> |c.At()| > 1 && c.At()[1] == c.path[0]
  {
    KeyAndLocation(c);
    if c.path == "" {
      assert c.At()[1..] == c.name;
    } else {
      assert c.At()[1..] == Key(c) && Key(c)[|c.path|] == '/';
    }
  }

  lemma KeyNamesLocation(c: Change, name: string, path: string)
    requires ChangeOk(c)
    ensures Key(c) == Location(path, name) <==> c.At() == CallerLocation(name, path)
  {
    var pattern := Location(path, name);
    assert pattern[|path|] == '/';
    KeyAndLocation(c);
    if c.path == "" {
      assert Key(c)[1..] == c.name;
      assert ("/" + pattern)[1..] == pattern;
    } else {
      assert c.At()[1..] == Key(c) && Key(c)[|c.path|] == '/' && Key(c)[0] == c.path[0];
      assert ("/" + pattern)[1..] == pattern;
    }
  }

  lemma KeysDistinct(cs: seq<Change>)
    requires SortedChanges(cs) && ChangesOk(cs)
    ensures DistinctKeys(cs)
  {
    forall i, j | 0 <= i < j < |cs|
      ensures Key(cs[i]) != Key(cs[j])
    {
      LessTrichotomy(cs[i].At(), cs[j].At());
      KeyNamesLocation(cs[i], cs[j].name, cs[j].path);
      KeyNamesLocation(cs[j], cs[j].name, cs[j].path);
    }
  }

  // ----- when the changes of a commit are sorted by key -----

  // The search sees a root file with a slash in front and all others without:
  // every root file comes before just those whose first byte is above '/'.
  lemma SortedByKeyIff(cs: seq<Change>)
    requires SortedChanges(cs) && ChangesOk(cs)
    ensures SortedByKey(cs) <==>
            forall r, c :: r in cs && c in cs && r.path == "" && c.path != "" ==>
              (Less(r.At(), c.At()) <==> '/' < c.path[0])
  {
    forall r, c | r in cs && c in cs && r.path == "" && c.path != ""
      ensures Less(Key(r), Key(c)) <==> '/' < c.path[0]
      ensures Less(Key(c), Key(r)) <==> c.path[0] < '/'
    {
      assert Key(r)[0] == '/' && Key(c)[0] == c.path[0];
    }
    forall i, j | 0 <= i < j < |cs|
      ensures (cs[i].path == "") == (cs[j].path == "") ==> Less(Key(cs[i]), Key(cs[j]))
    {
      KeyAndLocation(cs[i]);
      KeyAndLocation(cs[j]);
      StrcmpCommonPrefix("/", Key(cs[i]), Key(cs[j]));
    }
    if SortedByKey(cs) {
      forall r, c | r in cs && c in cs && r.path == "" && c.path != ""
        ensures Less(r.At(), c.At()) <==> '/' < c.path[0]
      {
        var i :| 0 <= i < |cs| && cs[i] == r;
        var j :| 0 <= j < |cs| && cs[j] == c;
        LessTrichotomy(r.At(), c.At());
        LessTrichotomy(Key(r), Key(c));
      }
    }
    if forall r, c :: r in cs && c in cs && r.path == "" && c.path != "" ==>
         (Less(r.At(), c.At()) <==> '/' < c.path[0]) {
      forall i, j | 0 <= i < j < |cs|
        ensures Less(Key(cs[i]), Key(cs[j]))
      {
        LessTrichotomy(cs[i].At(), cs[j].At());
      }
    }
  }

  predicate Changed(m1: map<string, Oid>, m2: map<string, Oid>, p: string) {
    Lookup(m1, p) != Lookup(m2, p)
  }

  // Every changed root file comes before just those other changed files whose
  // first directory begins with a byte above '/'.
  ghost predicate RootFits(m1: map<string, Oid>, m2: map<string, Oid>) {
    forall p, q :: Changed(m1, m2, p) && Changed(m1, m2, q) && IsRootFile(p) && !IsRootFile(q) ==>
      |q| > 1 && (Less(p, q) <==> '/' < q[1])
  }

  ghost predicate IsChangeList(cs: seq<Change>, m1: map<string, Oid>, m2: map<string, Oid>) {
    Truthful(cs, m1, m2) && Complete(cs, m1, m2) && SortedChanges(cs) && ChangesOk(cs)
  }

  lemma SortedIffFits(cs: seq<Change>, m1: map<string, Oid>, m2: map<string, Oid>)
    requires IsChangeList(cs, m1, m2)
    ensures SortedByKey(cs) <==> RootFits(m1, m2)
  {
    SortedByKeyIff(cs);
    forall c | c in cs
      ensures ChangeOk(c) && Changed(m1, m2, c.At()) && (IsRootFile(c.At()) <==> c.path == "")
      ensures c.path != "" ==> |c.At()| > 1 && c.At()[1] == c.path[0]
    {
      RootFileAt(c);
    }
    forall p | Changed(m1, m2, p)
      ensures exists c :: c in cs && c.At() == p
    {
      var i :| 0 <= i < |cs| && cs[i].At() == p;
      assert cs[i] in cs;
    }
    if RootFits(m1, m2) {
      forall r, c | r in cs && c in cs && r.path == "" && c.path != ""
        ensures Less(r.At(), c.At()) <==> '/' < c.path[0]
      {
        assert Changed(m1, m2, r.At()) && Changed(m1, m2, c.At());
      }
    }
  }

  lemma DiffIsChangeList(db: map<Oid, Tree>, t1: Option<Tree>, t2: Option<Tree>)
    requires GoodOption(db, t1) && GoodOption(db, t2)
    requires ModesOk(Entries(t1), Entries(t2))
    ensures IsChangeList(DiffTrees(t1, t2, ""), SnapshotOf(t1), SnapshotOf(t2))
  {
    DiffTreesExact(db, t1, t2);
    DiffChangesOk(db, t1, t2);
  }

  lemma ListSearchIff(cs: seq<Change>, m1: map<string, Oid>, m2: map<string, Oid>)
    requires IsChangeList(cs, m1, m2)
    ensures FindsAll(cs, 0, |cs| - 1) <==> RootFits(m1, m2)
  {
    hide RootFits;
    hide FindsAll;
    KeysDistinct(cs);
    SearchIff(cs);
    SortedIffFits(cs, m1, m2);
  }

  // The search finds every change between two trees exactly when the changed
  // root files fit into the order of the others.
  lemma DiffSearchIff(db: map<Oid, Tree>, t1: Option<Tree>, t2: Option<Tree>)
    requires GoodOption(db, t1) && GoodOption(db, t2)
    requires ModesOk(Entries(t1), Entries(t2))
    ensures var cs := DiffTrees(t1, t2, "");
            FindsAll(cs, 0, |cs| - 1) <==> RootFits(SnapshotOf(t1), SnapshotOf(t2))
  {
    hide RootFits;
    hide FindsAll;
    hide DiffTrees;
    hide IsChangeList;
    DiffIsChangeList(db, t1, t2);
    ListSearchIff(DiffTrees(t1, t2, ""), SnapshotOf(t1), SnapshotOf(t2));
  }

  ghost predicate NoRootBlobs(t: Tree) {
    forall e :: e in t.entries ==> e.Dir?
  }

  ghost predicate RootFree(t: Option<Tree>) {
    t.Some? ==> NoRootBlobs(t.value)
  }

  // Without files at the root, location order is key order.
  lemma DiffSortedByKey(db: map<Oid, Tree>, t1: Option<Tree>, t2: Option<Tree>)
    requires GoodOption(db, t1) && GoodOption(db, t2) && RootFree(t1) && RootFree(t2)
    requires ModesOk(Entries(t1), Entries(t2))
    ensures SortedByKey(DiffTrees(t1, t2, "")) && RootFits(SnapshotOf(t1), SnapshotOf(t2))
  {
    DiffIsChangeList(db, t1, t2);
    SortedIffFits(DiffTrees(t1, t2, ""), SnapshotOf(t1), SnapshotOf(t2));
    forall p | IsRootFile(p)
      ensures !Changed(SnapshotOf(t1), SnapshotOf(t2), p)
    {
      NotAtRoot(t1, p);
      NotAtRoot(t2, p);
    }
  }

  lemma NotAtRoot(t: Option<Tree>, p: string)
    requires RootFree(t) && IsRootFile(p) && (t.Some? ==> ValidEntries(t.value.entries))
    ensures Lookup(SnapshotOf(t), p) == None
  {
    if t.Some? {
      var items := Flat(t.value.entries, "");
      FlatOffRoot(t.value.entries, "");
      AsMapDomain(items, p);
      forall i | 0 <= i < |items|
        ensures Where(items[i]) != p
      {
        assert Where(items[i])[1..][|items[i].path| - 1] == '/';
      }
    }
  }

  ghost predicate ItemsOffRoot(a: seq<Item>) {
    forall i :: 0 <= i < |a| ==> |a[i].path| > 1
  }

  lemma {:induction false} FlatOffRoot(es: seq<Entry>, path: string)
    requires ValidEntries(es) && DirPath(path)
    requires path != "" || forall e :: e in es ==> e.Dir?
    ensures ItemsOffRoot(Flat(es, path))
    decreases es
  {
    if es != [] {
      ValidTail(es);
      FlatOffRoot(es[1..], path);
      if es[0].Dir? {
        FlatOffRoot(es[0].tree.entries, path + "/" + es[0].name);
      }
    }
  }

  // A file "z" at the root, added together with "b/x", is not found.
  lemma RootFileIsMissed()
    ensures var sub := Tree(1, [Blob("x", 2, MODE_FILE)]);
            var t := Tree(3, [Dir("b", sub), Blob("z", 4, MODE_FILE)]);
            && GoodTree(map[1 := sub, 3 := t], t) && ModesOk([], t.entries)
            && DiffTrees(None, Some(t), "") == [Add("b", "x", 2), Add("", "z", 4)]
            && UpdateOidIn(DiffTrees(None, Some(t), ""), "z", "") == None
            && UpdateOidIn(DiffTrees(None, Some(t), ""), "x", "b") == Some(2)
  {
    var sub := Tree(1, [Blob("x", 2, MODE_FILE)]);
    var t := Tree(3, [Dir("b", sub), Blob("z", 4, MODE_FILE)]);
    assert DiffEntries([], sub.entries, "" + "/" + "b") == [Add("b", "x", 2)] by {
      assert StripSlash("/b") == "b";
      assert sub.entries[1..] == [];
    }
    assert t.entries[1..] == [Blob("z", 4, MODE_FILE)];
    assert t.entries[1..][1..] == [];
    assert DiffEntries([], t.entries[1..], "") == [Add("", "z", 4)];
    var cs := [Add("b", "x", 2), Add("", "z", 4)];
    assert DiffEntries([], t.entries, "") == cs;
    var k0 := Location("b", "x");
    var k1 := Location("", "z");
    assert k0 == "b/x" && k1 == "/z";
    assert Strcmp(k1, k0) < 0;
    assert Search(cs, k1, 0, 1) == None;
    StrcmpSelf(k0);
    assert Search(cs, k0, 0, 1) == Some(cs[0]);
    MissedTreeIsGood();
  }

  lemma MissedTreeIsGood()
    ensures var sub := Tree(1, [Blob("x", 2, MODE_FILE)]);
            var t := Tree(3, [Dir("b", sub), Blob("z", 4, MODE_FILE)]);
            GoodTree(map[1 := sub, 3 := t], t) && ModesOk([], t.entries)
  {
    var sub := Tree(1, [Blob("x", 2, MODE_FILE)]);
    var t := Tree(3, [Dir("b", sub), Blob("z", 4, MODE_FILE)]);
    var db := map[1 := sub, 3 := t];
    assert db[1] == sub && db[3] == t;
    assert forall e :: e in sub.entries ==> e.Blob?;
    assert Stored(db, sub);
    assert forall e :: e in t.entries && e.Dir? ==> e.tree == sub;
    assert Stored(db, t);
  }

  // ----- what one commit says about one file -----

  // On changes sorted by key, one is found by name and path exactly when it
  // sits at that location.
  lemma FoundByLocation(cs: seq<Change>, name: string, path: string)
    requires ChangesOk(cs) && SortedByKey(cs)
    ensures forall k :: 0 <= k < |cs| && cs[k].At() == CallerLocation(name, path) ==>
              FindIn(cs, name, path) == Some(cs[k])
    ensures FindIn(cs, name, path).Some? ==>
              exists k :: 0 <= k < |cs| && cs[k].At() == CallerLocation(name, path)
  {
    var pattern := Location(path, name);
    forall k | 0 <= k < |cs|
      ensures cs[k].At() == CallerLocation(name, path) <==> Key(cs[k]) == pattern
    {
      KeyNamesLocation(cs[k], name, path);
    }
    forall k | 0 <= k < |cs| && cs[k].At() == CallerLocation(name, path)
      ensures FindIn(cs, name, path) == Some(cs[k])
    {
      SearchFinds(cs, pattern, 0, |cs| - 1, k);
    }
  }

  // The searches answer from the snapshots: the update is the new content where
  // it is new, the removal the old content where there is none any more.
  ghost predicate Answers(cs: seq<Change>, m1: map<string, Oid>, m2: map<string, Oid>, name: string, path: string) {
    var was, now := Lookup(m1, CallerLocation(name, path)), Lookup(m2, CallerLocation(name, path));
    && UpdateOidIn(cs, name, path) == (if now != was then now else None)
    && RemovalOidIn(cs, name, path) == (if now == None then was else None)
  }

  lemma AnswersFromSnapshots(cs: seq<Change>, m1: map<string, Oid>, m2: map<string, Oid>, name: string, path: string)
    requires IsChangeList(cs, m1, m2) && SortedByKey(cs)
    ensures Answers(cs, m1, m2, name, path)
  {
    var p := CallerLocation(name, path);
    FoundByLocation(cs, name, path);
    if k :| 0 <= k < |cs| && cs[k].At() == p {
      assert cs[k].TryOid1() == Lookup(m1, p) && cs[k].TryOid2() == Lookup(m2, p);
    } else {
      assert Lookup(m1, p) == Lookup(m2, p);
    }
  }

  // A right answer about a changed file takes finding its change.
  lemma AnswerFinds(cs: seq<Change>, m1: map<string, Oid>, m2: map<string, Oid>, k: nat)
    requires IsChangeList(cs, m1, m2) && DistinctKeys(cs) && k < |cs|
    requires Answers(cs, m1, m2, cs[k].name, cs[k].path)
    ensures Search(cs, Key(cs[k]), 0, |cs| - 1) == Some(cs[k])
  {
    KeyNamesLocation(cs[k], cs[k].name, cs[k].path);
    SearchInside(cs, Key(cs[k]), 0, |cs| - 1);
    assert cs[k].TryOid1() != cs[k].TryOid2();
  }

  // All answers of a commit are right exactly when its changed root files fit
  // into the order of its other changes.
  lemma OneCommit(db: map<Oid, Tree>, t1: Option<Tree>, t2: Option<Tree>)
    requires GoodOption(db, t1) && GoodOption(db, t2)
    requires ModesOk(Entries(t1), Entries(t2))
    ensures (forall name, path :: Answers(DiffTrees(t1, t2, ""), SnapshotOf(t1), SnapshotOf(t2), name, path)) <==>
            RootFits(SnapshotOf(t1), SnapshotOf(t2))
  {
    var cs, m1, m2 := DiffTrees(t1, t2, ""), SnapshotOf(t1), SnapshotOf(t2);
    DiffIsChangeList(db, t1, t2);
    KeysDistinct(cs);
    SortedIffFits(cs, m1, m2);
    if RootFits(m1, m2) {
      forall name, path
        ensures Answers(cs, m1, m2, name, path)
      {
        AnswersFromSnapshots(cs, m1, m2, name, path);
      }
    }
    if forall name, path :: Answers(cs, m1, m2, name, path) {
      forall k | 0 <= k < |cs|
        ensures Search(cs, Key(cs[k]), 0, |cs| - 1) == Some(cs[k])
      {
        AnswerFinds(cs, m1, m2, k);
      }
      SearchIff(cs);
    }
  }
}
