/** Git trees as libgit2 hands them out, and the flat list of files below one. */
module GitTree {
  import opened Options
  import opened StringOrder

  type Oid = nat

  // A directory entry. A subtree's own id is the id of its entry.
  datatype Entry =
    | Blob(name: string, oid: Oid, mode: nat)
    | Dir(name: string, tree: Tree)
  {
    function Id(): Oid {
      match this
      case Blob(_, oid, _) => oid
      case Dir(_, tree) => tree.oid
    }

    // The name that entries are sorted by: directories count as "name/".
    function SortName(): string {
      match this
      case Blob(name, _, _) => name
      case Dir(name, _) => name + "/"
    }
  }

  datatype Tree = Tree(oid: Oid, entries: seq<Entry>)

  // git_tree_entry_namecmp
  function NameCmp(a: Entry, b: Entry): int {
    Strcmp(a.SortName(), b.SortName())
  }

  predicate GoodName(name: string) {
    name != "" && '/' !in name
  }

  predicate WellNamed(e: Entry) {
    GoodName(e.name)
  }

  ghost predicate SortedEntries(es: seq<Entry>) {
    forall i, j :: 0 <= i < j < |es| ==> NameCmp(es[i], es[j]) < 0
  }

  // What Git guarantees of every tree object: names without slashes, entries
  // sorted by name and distinct. The code asserts the sorting as it goes.
  ghost predicate ValidEntries(es: seq<Entry>)
    decreases es
  {
    && SortedEntries(es)
    && forall e :: e in es ==> WellNamed(e) && (e.Dir? ==> ValidEntries(e.tree.entries))
  }

  // The object database: a tree id names one tree. Equal ids mean equal content.
  ghost predicate Stored(db: map<Oid, Tree>, t: Tree)
    decreases t, 1
  {
    && t.oid in db && db[t.oid] == t
    && StoredEntries(db, t.entries)
  }

  ghost predicate StoredEntries(db: map<Oid, Tree>, es: seq<Entry>)
    decreases es, 0
  {
    forall e :: e in es && e.Dir? ==> Stored(db, e.tree)
  }

  function Size(es: seq<Entry>): nat
    decreases es
  {
    if es == [] then 0 else
    1 + (if es[0].Dir? then Size(es[0].tree.entries) else 0) + Size(es[1..])
  }

  // ----- the files below a tree -----

  // A file: the directory part is "" at the root and "/a/b" below it.
  datatype Item = Item(path: string, name: string, oid: Oid, mode: nat)

  function Location(path: string, name: string): string {
    path + "/" + name
  }

  function Where(x: Item): string {
    Location(x.path, x.name)
  }

  function FlatEntry(e: Entry, path: string): seq<Item>
    decreases e
  {
    match e
    case Blob(name, oid, mode) => [Item(path, name, oid, mode)]
    case Dir(name, tree) => Flat(tree.entries, path + "/" + name)
  }

  // Every file below the entries `es` of directory `path`, depth first.
  function Flat(es: seq<Entry>, path: string): seq<Item>
    decreases es
  {
    if es == [] then [] else FlatEntry(es[0], path) + Flat(es[1..], path)
  }

  // The content of a tree, as a map from absolute file location to blob id.
  function Snapshot(t: Tree): map<string, Oid> {
    AsMap(Flat(t.entries, ""))
  }

  function AsMap(items: seq<Item>): map<string, Oid> {
    if items == [] then map[] else AsMap(items[1..])[Where(items[0]) := items[0].oid]
  }

  function Lookup(m: map<string, Oid>, p: string): Option<Oid> {
    if p in m then Some(m[p]) else None
  }

  ghost predicate Below(a: seq<Item>, b: seq<Item>) {
    forall i, j :: 0 <= i < |a| && 0 <= j < |b| ==> Less(Where(a[i]), Where(b[j]))
  }

  ghost predicate SortedItems(a: seq<Item>) {
    forall i, j :: 0 <= i < j < |a| ==> Less(Where(a[i]), Where(a[j]))
  }

  // ----- directory order is file order -----

  lemma ValidTail(es: seq<Entry>)
    requires ValidEntries(es) && es != []
    ensures ValidEntries(es[1..])
    ensures WellNamed(es[0]) && (es[0].Dir? ==> ValidEntries(es[0].tree.entries))
    ensures forall e :: e in es[1..] ==> NameCmp(es[0], e) < 0 && WellNamed(e)
  {
    forall e | e in es[1..]
      ensures e in es && NameCmp(es[0], e) < 0
    {
      var i :| 0 <= i < |es[1..]| && es[1..][i] == e;
      assert es[i + 1] == e;
    }
  }

  // A file's location is its directory, the sort name of the entry it lies
  // under, and something that is empty when that entry is the file itself.
  lemma {:induction false} LocationShape(e: Entry, path: string, k: nat) returns (rest: string)
    requires k < |FlatEntry(e, path)|
    ensures Where(FlatEntry(e, path)[k]) == path + "/" + e.SortName() + rest
    ensures e.Blob? ==> rest == ""
    decreases e
  {
    match e
    case Blob(name, oid, _) =>
      rest := "";
    case Dir(name, tree) =>
      rest := LocationShapes(tree.entries, path + "/" + name, k);
      assert path + "/" + name + "/" + rest == path + "/" + (name + "/") + rest;
  }

  lemma {:induction false} LocationShapes(es: seq<Entry>, path: string, k: nat) returns (rest: string)
    requires k < |Flat(es, path)|
    ensures Where(Flat(es, path)[k]) == path + "/" + rest
    decreases es
  {
    var n := |FlatEntry(es[0], path)|;
    if k < n {
      var r := LocationShape(es[0], path, k);
      rest := es[0].SortName() + r;
      assert path + "/" + rest == path + "/" + es[0].SortName() + r;
    } else {
      rest := LocationShapes(es[1..], path, k - n);
    }
  }

  // The heart of the matter: of two well-named entries in sort order, the first
  // is a prefix of the second only if it is a plain file.
  lemma PrefixIsBlob(a: Entry, b: Entry)
    requires WellNamed(a) && WellNamed(b)
    requires NameCmp(a, b) < 0 && a.SortName() <= b.SortName()
    ensures a.Blob?
  {
    if a.Dir? {
      var k := |a.name|;
      assert b.SortName()[k] == '/';
      assert |a.SortName()| == |b.SortName()|;
      assert a.SortName() == b.SortName();
      StrcmpZero(a.SortName(), b.SortName());
    }
  }

  lemma EntriesBelow(a: Entry, b: Entry, path: string)
    requires WellNamed(a) && WellNamed(b) && NameCmp(a, b) < 0
    ensures Below(FlatEntry(a, path), FlatEntry(b, path))
  {
    hide FlatEntry;
    forall i, j | 0 <= i < |FlatEntry(a, path)| && 0 <= j < |FlatEntry(b, path)|
      ensures Less(Where(FlatEntry(a, path)[i]), Where(FlatEntry(b, path)[j]))
    {
      var x := LocationShape(a, path, i);
      var y := LocationShape(b, path, j);
      SortNamesDecide(a, b, path, x, y);
    }
  }

  // Whatever follows the sort names does not change the order.
  lemma SortNamesDecide(a: Entry, b: Entry, path: string, x: string, y: string)
    requires WellNamed(a) && WellNamed(b) && NameCmp(a, b) < 0
    requires a.Blob? ==> x == ""
    ensures Less(path + "/" + a.SortName() + x, path + "/" + b.SortName() + y)
  {
    var sa, sb := a.SortName(), b.SortName();
    if sa <= sb {
      PrefixIsBlob(a, b);
    }
    LessExtends(sa, sb, x, y);
    StrcmpCommonPrefix(path + "/", sa + x, sb + y);
    assert path + "/" + sa + x == (path + "/") + (sa + x);
    assert path + "/" + sb + y == (path + "/") + (sb + y);
  }

  lemma {:induction false} EntryBelowAll(a: Entry, es: seq<Entry>, path: string)
    requires WellNamed(a)
    requires forall e :: e in es ==> WellNamed(e) && NameCmp(a, e) < 0
    ensures Below(FlatEntry(a, path), Flat(es, path))
  {
    if es != [] {
      EntriesBelow(a, es[0], path);
      EntryBelowAll(a, es[1..], path);
    }
  }

  // Flattening a valid tree lists its files in strictly increasing location order.
  lemma {:induction false} FlatSorted(es: seq<Entry>, path: string)
    requires ValidEntries(es)
    ensures SortedItems(Flat(es, path))
    decreases es
  {
    if es != [] {
      ValidTail(es);
      FlatSorted(es[1..], path);
      EntryBelowAll(es[0], es[1..], path);
      if es[0].Dir? {
        FlatSorted(es[0].tree.entries, path + "/" + es[0].name);
      }
    }
  }

  // ----- sorted lists as maps -----

  lemma {:induction false} AsMapDomain(items: seq<Item>, p: string)
    ensures p in AsMap(items) <==> exists i :: 0 <= i < |items| && Where(items[i]) == p
  {
    if items != [] {
      AsMapDomain(items[1..], p);
      if exists i :: 0 <= i < |items| && Where(items[i]) == p {
        var i :| 0 <= i < |items| && Where(items[i]) == p;
        if i > 0 {
          assert items[1..][i - 1] == items[i];
        }
      }
      if exists i :: 0 <= i < |items[1..]| && Where(items[1..][i]) == p {
        var i :| 0 <= i < |items[1..]| && Where(items[1..][i]) == p;
        assert items[i + 1] == items[1..][i];
      }
    }
  }

  lemma {:induction false} AsMapValue(items: seq<Item>, i: nat)
    requires SortedItems(items) && i < |items|
    ensures Where(items[i]) in AsMap(items) && AsMap(items)[Where(items[i])] == items[i].oid
  {
    if i > 0 {
      assert items[1..][i - 1] == items[i];
      AsMapValue(items[1..], i - 1);
      LessTrichotomy(Where(items[0]), Where(items[i]));
    }
  }
}
