/** Where a file is found in a tree: walking down by the names of its
    directories, and what that says of snapshots, changes and histories. */
module TreeNames {
  import opened Commits
  import opened GitTree
  import opened Options
  import opened StringOrder
  import opened TreeDiff

  // Going from directory to directory by name leads to a file with this id.
  ghost predicate Resolves(es: seq<Entry>, names: seq<string>, oid: Oid)
    decreases |names|
  {
    if |names| == 0 then false
    else if |names| == 1 then exists e :: e in es && e.Blob? && e.name == names[0] && e.oid == oid
    else exists e :: e in es && e.Dir? && e.name == names[0] && Resolves(e.tree.entries, names[1..], oid)
  }

  // "/a/b/c"
  function Join(names: seq<string>): string {
    if names == [] then "" else "/" + names[0] + Join(names[1..])
  }

  ghost predicate GoodNames(names: seq<string>) {
    forall i :: 0 <= i < |names| ==> GoodName(names[i])
  }

  // ----- the flat list of a tree -----

  // Item `x` lies below `path`, under these names.
  ghost predicate IsNamed(es: seq<Entry>, path: string, x: Item, names: seq<string>) {
    GoodNames(names) && Where(x) == path + Join(names) && Resolves(es, names, x.oid)
  }

  lemma ResolvesMore(es: seq<Entry>, more: seq<Entry>, names: seq<string>, oid: Oid)
    requires Resolves(es, names, oid) && forall e :: e in es ==> e in more
    ensures Resolves(more, names, oid)
  {
  }

  lemma NamedBelow(es: seq<Entry>, path: string, x: Item, below: seq<string>)
    requires es != [] && es[0].Dir? && WellNamed(es[0])
    requires IsNamed(es[0].tree.entries, path + "/" + es[0].name, x, below)
    ensures IsNamed(es, path, x, [es[0].name] + below)
  {
    var names := [es[0].name] + below;
    assert names[1..] == below && es[0] in es;
    assert path + "/" + es[0].name + Join(below) == path + ("/" + es[0].name + Join(below));
  }

  lemma {:induction false} FlatIsNamed(es: seq<Entry>, path: string, i: nat) returns (names: seq<string>)
    requires ValidEntries(es) && i < |Flat(es, path)|
    ensures IsNamed(es, path, Flat(es, path)[i], names)
    decreases es
  {
    ValidTail(es);
    var e, x := es[0], Flat(es, path)[i];
    if i >= |FlatEntry(e, path)| {
      names := FlatIsNamed(es[1..], path, i - |FlatEntry(e, path)|);
      ResolvesMore(es[1..], es, names, x.oid);
    } else if e.Blob? {
      names := [e.name];
      assert e in es;
      assert Join(names) == "/" + e.name + Join([]);
    } else {
      var below := FlatIsNamed(e.tree.entries, path + "/" + e.name, i);
      names := [e.name] + below;
      NamedBelow(es, path, x, below);
    }
  }

  lemma {:induction false} NamedIsFlat(es: seq<Entry>, path: string, names: seq<string>, oid: Oid) returns (i: nat)
    requires Resolves(es, names, oid)
    ensures i < |Flat(es, path)| && Where(Flat(es, path)[i]) == path + Join(names) && Flat(es, path)[i].oid == oid
    decreases es
  {
    var e := es[0];
    if |names| == 1 && e.Blob? && e.name == names[0] && e.oid == oid {
      i := 0;
      assert Join(names) == "/" + e.name + Join([]);
    } else if |names| > 1 && e.Dir? && e.name == names[0] && Resolves(e.tree.entries, names[1..], oid) {
      i := NamedIsFlat(e.tree.entries, path + "/" + e.name, names[1..], oid);
      assert path + "/" + e.name + Join(names[1..]) == path + ("/" + e.name + Join(names[1..]));
    } else {
      ResolvesLater(es, names, oid);
      i := NamedIsFlat(es[1..], path, names, oid);
      i := i + |FlatEntry(e, path)|;
    }
  }

  lemma ResolvesLater(es: seq<Entry>, names: seq<string>, oid: Oid)
    requires Resolves(es, names, oid) && es != []
    requires !(|names| == 1 && es[0].Blob? && es[0].name == names[0] && es[0].oid == oid)
    requires !(|names| > 1 && es[0].Dir? && es[0].name == names[0] && Resolves(es[0].tree.entries, names[1..], oid))
    ensures Resolves(es[1..], names, oid)
  {
    if |names| == 1 {
      var e :| e in es && e.Blob? && e.name == names[0] && e.oid == oid;
      assert e in es[1..];
    } else {
      var e :| e in es && e.Dir? && e.name == names[0] && Resolves(e.tree.entries, names[1..], oid);
      assert e in es[1..];
    }
  }

  // ----- joined names -----

  lemma LongerHead(a: string, b: string, x: string, y: string)
    requires '/' !in b && |a| < |b| && (x == "" || x[0] == '/')
    ensures a + x != b + y
  {
    assert b[|a|] in b && (b + y)[|a|] == b[|a|];
    if x != "" {
      assert (a + x)[|a|] == x[0];
    }
  }

  // What ends at the first slash.
  lemma HeadUnique(a: string, b: string, x: string, y: string)
    requires '/' !in a && '/' !in b && a + x == b + y
    requires (x == "" || x[0] == '/') && (y == "" || y[0] == '/')
    ensures a == b && x == y
  {
    if |a| < |b| {
      LongerHead(a, b, x, y);
    } else if |b| < |a| {
      LongerHead(b, a, y, x);
    } else {
      assert a == (a + x)[..|a|] && b == (b + y)[..|a|];
      assert x == (a + x)[|a|..] && y == (b + y)[|a|..];
    }
  }

  lemma LongerPath(p: string, q: string, x: string, y: string)
    requires '/' !in x && |p| < |q|
    ensures p + "/" + x != q + "/" + y
  {
    var k := |q| - |p| - 1;
    assert (q + "/" + y)[|q|] == '/';
    if k < |x| {
      assert x[k] in x && (p + "/" + x)[|q|] == x[k];
    }
  }

  // What begins behind the last slash.
  lemma LastNameUnique(p: string, q: string, x: string, y: string)
    requires '/' !in x && '/' !in y && p + "/" + x == q + "/" + y
    ensures p == q && x == y
  {
    if |p| < |q| {
      LongerPath(p, q, x, y);
    } else if |q| < |p| {
      LongerPath(q, p, y, x);
    } else {
      assert p == (p + "/" + x)[..|p|] && q == (q + "/" + y)[..|p|];
      assert x == (p + "/" + x)[|p| + 1..] && y == (q + "/" + y)[|p| + 1..];
    }
  }

  lemma JoinStarts(names: seq<string>)
    ensures Join(names) == "" <==> names == []
    ensures names != [] ==> Join(names)[0] == '/'
  {
  }

  lemma {:induction false} JoinUnique(a: seq<string>, b: seq<string>)
    requires GoodNames(a) && GoodNames(b) && Join(a) == Join(b)
    ensures a == b
    decreases |a|
  {
    JoinStarts(a);
    JoinStarts(b);
    if a != [] {
      JoinStarts(a[1..]);
      JoinStarts(b[1..]);
      assert Join(a)[1..] == a[0] + Join(a[1..]) && Join(b)[1..] == b[0] + Join(b[1..]);
      HeadUnique(a[0], b[0], Join(a[1..]), Join(b[1..]));
      JoinUnique(a[1..], b[1..]);
      assert a == [a[0]] + a[1..] && b == [b[0]] + b[1..];
    }
  }

  // ----- snapshots -----

  // A snapshot holds a file at a location exactly when the names lead to it.
  lemma SnapshotResolves(t: Tree, names: seq<string>, oid: Oid)
    requires ValidEntries(t.entries) && GoodNames(names)
    ensures Lookup(Snapshot(t), Join(names)) == Some(oid) <==> Resolves(t.entries, names, oid)
  {
    var items, p := Flat(t.entries, ""), Join(names);
    FlatSorted(t.entries, "");
    if Lookup(Snapshot(t), p) == Some(oid) {
      AsMapDomain(items, p);
      var i :| 0 <= i < |items| && Where(items[i]) == p;
      AsMapValue(items, i);
      var found := FlatIsNamed(t.entries, "", i);
      assert "" + Join(found) == Join(found);
      JoinUnique(found, names);
    }
    if Resolves(t.entries, names, oid) {
      var i := NamedIsFlat(t.entries, "", names, oid);
      assert "" + p == p;
      AsMapValue(items, i);
    }
  }

  // It holds nothing else.
  lemma SnapshotIsNamed(t: Tree, p: string) returns (names: seq<string>)
    requires ValidEntries(t.entries) && p in Snapshot(t)
    ensures GoodNames(names) && names != [] && p == Join(names) && Resolves(t.entries, names, Snapshot(t)[p])
  {
    var items := Flat(t.entries, "");
    AsMapDomain(items, p);
    var i :| 0 <= i < |items| && Where(items[i]) == p;
    FlatSorted(t.entries, "");
    AsMapValue(items, i);
    names := FlatIsNamed(t.entries, "", i);
    assert "" + Join(names) == Join(names);
  }

  // ----- paths as callers give them, and as changes hold them -----

  // "a/b", "" for the root
  function PathOf(dirs: seq<string>): string {
    if dirs == [] then "" else Join(dirs)[1..]
  }

  lemma {:induction false} JoinMore(names: seq<string>, last: string)
    ensures Join(names + [last]) == Join(names) + "/" + last
  {
    if names == [] {
      assert Join([last]) == "/" + last + Join([]);
    } else {
      JoinMore(names[1..], last);
      assert (names + [last])[1..] == names[1..] + [last];
    }
  }

  lemma CallerNames(name: string, dirs: seq<string>)
    requires GoodName(name) && GoodNames(dirs)
    ensures CallerLocation(name, PathOf(dirs)) == Join(dirs + [name])
  {
    var path, pattern := PathOf(dirs), Location(PathOf(dirs), name);
    JoinMore(dirs, name);
    if dirs == [] {
      assert pattern == "/" + name && pattern[1..] == name;
    } else {
      assert path[0] == dirs[0][0] && dirs[0][0] in dirs[0];
      assert pattern[0] == path[0];
      assert Join(dirs) == "/" + path;
    }
  }

  ghost predicate Found(t: Option<Tree>, names: seq<string>, oid: Oid) {
    t.Some? && Resolves(t.value.entries, names, oid)
  }

  lemma SnapshotFinds(t: Option<Tree>, names: seq<string>)
    requires (t.Some? ==> ValidEntries(t.value.entries)) && GoodNames(names)
    ensures forall oid: Oid :: Lookup(SnapshotOf(t), Join(names)) == Some(oid) <==> Found(t, names, oid)
  {
    if t.Some? {
      forall oid: Oid
        ensures Lookup(SnapshotOf(t), Join(names)) == Some(oid) <==> Found(t, names, oid)
      {
        SnapshotResolves(t.value, names, oid);
      }
    }
  }

  // The change of the file `name` in these directories.
  predicate IsChangeOf(c: Change, dirs: seq<string>, name: string) {
    c.path == PathOf(dirs) && c.name == name
  }

  lemma ChangeAtNames(c: Change, dirs: seq<string>, name: string)
    requires ChangeOk(c) && GoodNames(dirs) && GoodName(name)
    ensures IsChangeOf(c, dirs, name) <==> c.At() == Join(dirs + [name])
  {
    CallerNames(name, dirs);
    KeyNamesLocation(c, name, PathOf(dirs));
    if Key(c) == Location(PathOf(dirs), name) {
      LastNameUnique(c.path, PathOf(dirs), c.name, name);
    }
  }

  // There is a change for a file, by the names of its directories and its own,
  // exactly when walking down the two trees by these names does not lead to the
  // same content; the change holds what the names lead to in either tree.
  lemma DiffByNames(db: map<Oid, Tree>, t1: Option<Tree>, t2: Option<Tree>, dirs: seq<string>, name: string)
    requires GoodOption(db, t1) && GoodOption(db, t2) && ModesOk(Entries(t1), Entries(t2))
    requires GoodNames(dirs) && GoodName(name)
    ensures var cs, names := DiffTrees(t1, t2, ""), dirs + [name];
            && ((exists c :: c in cs && IsChangeOf(c, dirs, name)) <==>
                exists oid: Oid :: Found(t1, names, oid) != Found(t2, names, oid))
            && forall c, oid: Oid :: c in cs && IsChangeOf(c, dirs, name) ==>
                 && (c.TryOid1() == Some(oid) <==> Found(t1, names, oid))
                 && (c.TryOid2() == Some(oid) <==> Found(t2, names, oid))
  {
    var cs, names := DiffTrees(t1, t2, ""), dirs + [name];
    var p, m1, m2 := Join(names), SnapshotOf(t1), SnapshotOf(t2);
    DiffIsChangeList(db, t1, t2);
    SnapshotFinds(t1, names);
    SnapshotFinds(t2, names);
    forall c | c in cs
      ensures IsChangeOf(c, dirs, name) <==> c.At() == p
      ensures c.At() == p ==> c.TryOid1() == Lookup(m1, p) && c.TryOid2() == Lookup(m2, p) && Changed(m1, m2, p)
    {
      ChangeAtNames(c, dirs, name);
    }
    if Changed(m1, m2, p) {
      var k :| 0 <= k < |cs| && cs[k].At() == p;
      assert cs[k] in cs && IsChangeOf(cs[k], dirs, name);
      var oid := if Lookup(m1, p).Some? then Lookup(m1, p).value else Lookup(m2, p).value;
      assert Found(t1, names, oid) != Found(t2, names, oid);
    }
  }

  // Every change is one of these.
  lemma ChangeHasNames(db: map<Oid, Tree>, t1: Option<Tree>, t2: Option<Tree>, c: Change)
      returns (dirs: seq<string>)
    requires GoodOption(db, t1) && GoodOption(db, t2) && ModesOk(Entries(t1), Entries(t2))
    requires c in DiffTrees(t1, t2, "")
    ensures GoodNames(dirs) && GoodName(c.name) && IsChangeOf(c, dirs, c.name)
  {
    hide DiffTrees;
    hide Join;
    hide Resolves;
    hide IsChangeList;
    hide ModesOk;
    hide PathOf;
    hide Snapshot;
    DiffIsChangeList(db, t1, t2);
    ChangeIsSomewhere(DiffTrees(t1, t2, ""), t1, t2, c);
    var t := if c.TryOid1().Some? then t1 else t2;
    var names := SnapshotIsNamed(t.value, c.At());
    dirs := names[..|names| - 1];
    var last := names[|names| - 1];
    assert names == dirs + [last];
    ChangeAtNames(c, dirs, last);
  }

  lemma ChangeIsSomewhere(cs: seq<Change>, t1: Option<Tree>, t2: Option<Tree>, c: Change)
    requires IsChangeList(cs, SnapshotOf(t1), SnapshotOf(t2)) && c in cs
    ensures ChangeOk(c)
    ensures var t := if c.TryOid1().Some? then t1 else t2;
            t.Some? && c.At() in Snapshot(t.value)
  {
  }
}
