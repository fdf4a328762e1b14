/** The iterator over all files below a tree, kept on a stack of directories. */
module BlobIterators {
  import opened GitTree
  import opened Options
  import opened Sequences

  // A directory being walked and the position reached in it.
  datatype Frame = Frame(tree: Tree, idx: nat)

  // The files below the entries `es`, depth first.
  function Blobs(es: seq<Entry>): seq<Entry>
    decreases es
  {
    if es == [] then []
    else (match es[0]
          case Blob(_, _, _) => [es[0]]
          case Dir(_, tree) => Blobs(tree.entries)) + Blobs(es[1..])
  }

  // It is the flat list of files, in the same order.
  lemma {:induction false} BlobsAreFlat(es: seq<Entry>, path: string)
    ensures |Blobs(es)| == |Flat(es, path)|
    ensures forall i :: 0 <= i < |Blobs(es)| ==>
              && Blobs(es)[i].Blob?
              && Blobs(es)[i].name == Flat(es, path)[i].name
              && Blobs(es)[i].oid == Flat(es, path)[i].oid
    decreases es
  {
    if es != [] {
      BlobsAreFlat(es[1..], path);
      if es[0].Dir? {
        BlobsAreFlat(es[0].tree.entries, path + "/" + es[0].name);
      }
    }
  }

  // No directory below is empty, as is the case in every Git tree.
  ghost predicate NoEmptyDirs(es: seq<Entry>)
    decreases es
  {
    forall e :: e in es && e.Dir? ==> e.tree.entries != [] && NoEmptyDirs(e.tree.entries)
  }

  ghost predicate Walkable(es: seq<Entry>) {
    ValidEntries(es) && NoEmptyDirs(es)
  }

  lemma WalkableChild(es: seq<Entry>, k: nat)
    requires Walkable(es) && k < |es| && es[k].Dir?
    ensures es[k].tree.entries != [] && Walkable(es[k].tree.entries)
  {
  }

  // ----- stacks: the last frame is the innermost directory -----

  function Init<T>(s: seq<T>): seq<T>
    requires s != []
  {
    s[..|s| - 1]
  }

  function Top<T>(s: seq<T>): T
    requires s != []
  {
    s[|s| - 1]
  }

  ghost predicate FrameOk(f: Frame) {
    Walkable(f.tree.entries) && f.tree.entries != [] && f.idx <= |f.tree.entries|
  }

  // Every directory below the innermost one stands at the entry it was left through.
  ghost predicate StackOk(s: seq<Frame>) {
    && (forall i :: 0 <= i < |s| ==> FrameOk(s[i]))
    && (forall i :: 0 <= i < |s| - 1 ==> s[i].idx < |s[i].tree.entries|)
  }

  // What is left once the innermost directories are done.
  function RestOfParents(s: seq<Frame>): seq<Entry>
    requires forall i :: 0 <= i < |s| ==> s[i].idx < |s[i].tree.entries|
  {
    if s == [] then [] else Blobs(Top(s).tree.entries[Top(s).idx + 1..]) + RestOfParents(Init(s))
  }

  // The files still to be visited.
  ghost function Rest(s: seq<Frame>): seq<Entry>
    requires StackOk(s)
  {
    if s == [] then [] else Blobs(Top(s).tree.entries[Top(s).idx..]) + RestOfParents(Init(s))
  }

  // How much walking is left; entering and leaving directories makes it smaller.
  function WorkOfParents(s: seq<Frame>): nat
    requires forall i :: 0 <= i < |s| ==> s[i].idx < |s[i].tree.entries|
  {
    if s == [] then 0 else 2 * Size(Top(s).tree.entries[Top(s).idx + 1..]) + 1 + WorkOfParents(Init(s))
  }

  ghost function Work(s: seq<Frame>): nat
    requires StackOk(s)
  {
    if s == [] then 0 else 2 * Size(Top(s).tree.entries[Top(s).idx..]) + 1 + WorkOfParents(Init(s))
  }

  predicate AtBlob(s: seq<Frame>) {
    s != [] && Top(s).idx < |Top(s).tree.entries| && Top(s).tree.entries[Top(s).idx].Blob?
  }

  function EnterDir(s: seq<Frame>, tree: Tree): seq<Frame> {
    if |tree.entries| > 0 then s + [Frame(tree, 0)] else s
  }

  function NextEntry(s: seq<Frame>): seq<Frame> {
    if s == [] then [] else Init(s) + [Top(s).(idx := Top(s).idx + 1)]
  }

  // One round of the loop that looks for the next file: leave a finished
  // directory or enter the one at hand.
  function WalkStep(s: seq<Frame>): seq<Frame>
    requires s != [] && Top(s).idx <= |Top(s).tree.entries| && !AtBlob(s)
  {
    if Top(s).idx == |Top(s).tree.entries| then NextEntry(Init(s))
    else EnterDir(s, Top(s).tree.entries[Top(s).idx].tree)
  }

  lemma StepLeaves(s: seq<Frame>)
    requires StackOk(s) && s != [] && Top(s).idx == |Top(s).tree.entries|
    ensures StackOk(WalkStep(s)) && Rest(WalkStep(s)) == Rest(s) && Work(WalkStep(s)) < Work(s)
  {
    var p := Init(s);
    assert Top(s).tree.entries[Top(s).idx..] == [];
    if p != [] {
      var n := WalkStep(s);
      assert Init(n) == Init(p) && Top(n) == Top(p).(idx := Top(p).idx + 1);
      assert forall i :: 0 <= i < |Init(p)| ==> n[i] == s[i];
      assert p[|p| - 1] == s[|s| - 2];
    }
  }

  function BlobsOf(e: Entry): seq<Entry> {
    match e case Blob(_, _, _) => [e] case Dir(_, tree) => Blobs(tree.entries)
  }

  function SizeOf(e: Entry): nat {
    match e case Blob(_, _, _) => 0 case Dir(_, tree) => Size(tree.entries)
  }

  lemma SuffixAt(es: seq<Entry>, k: nat)
    requires k < |es|
    ensures Blobs(es[k..]) == BlobsOf(es[k]) + Blobs(es[k + 1..])
    ensures Size(es[k..]) == 1 + SizeOf(es[k]) + Size(es[k + 1..])
  {
    assert es[k..][0] == es[k] && es[k..][1..] == es[k + 1..];
  }

  // The entry at hand comes first.
  lemma RestTop(s: seq<Frame>)
    requires StackOk(s) && s != [] && Top(s).idx < |Top(s).tree.entries|
    ensures var e := Top(s).tree.entries[Top(s).idx];
            Rest(s) == BlobsOf(e) + RestOfParents(s) && Work(s) == 2 + 2 * SizeOf(e) + WorkOfParents(s)
  {
    var es, k := Top(s).tree.entries, Top(s).idx;
    SuffixAt(es, k);
    Assoc(BlobsOf(es[k]), Blobs(es[k + 1..]), RestOfParents(Init(s)));
  }

  lemma EnterOk(s: seq<Frame>, sub: Tree)
    requires StackOk(s) && s != [] && Top(s).idx < |Top(s).tree.entries|
    requires Walkable(sub.entries) && sub.entries != []
    ensures var n := s + [Frame(sub, 0)];
            && StackOk(n)
            && Rest(n) == Blobs(sub.entries) + RestOfParents(s)
            && Work(n) == 2 * Size(sub.entries) + 1 + WorkOfParents(s)
  {
    var n := s + [Frame(sub, 0)];
    assert Init(n) == s && Top(n) == Frame(sub, 0);
    assert sub.entries[0..] == sub.entries;
  }

  lemma StepEnters(s: seq<Frame>)
    requires StackOk(s) && s != [] && Top(s).idx < |Top(s).tree.entries| && !AtBlob(s)
    ensures StackOk(WalkStep(s)) && Rest(WalkStep(s)) == Rest(s) && Work(WalkStep(s)) < Work(s)
  {
    var es, k := Top(s).tree.entries, Top(s).idx;
    WalkableChild(es, k);
    EnterOk(s, es[k].tree);
    RestTop(s);
  }

  // An empty directory is entered again and again: the round changes nothing
  // and no file is found, so the loop never ends.
  lemma EmptyDirIsATrap(s: seq<Frame>)
    requires s != [] && Top(s).idx < |Top(s).tree.entries|
    requires Top(s).tree.entries[Top(s).idx].Dir? && Top(s).tree.entries[Top(s).idx].tree.entries == []
    ensures !AtBlob(s) && WalkStep(s) == s
  {
  }

  lemma NextOk(s: seq<Frame>)
    requires StackOk(s) && s != [] && Top(s).idx < |Top(s).tree.entries|
    ensures StackOk(NextEntry(s))
    ensures Rest(NextEntry(s)) == RestOfParents(s)
  {
    var n := NextEntry(s);
    assert Init(n) == Init(s) && Top(n) == Top(s).(idx := Top(s).idx + 1);
    assert forall i :: 0 <= i < |s| - 1 ==> n[i] == s[i];
  }

  lemma RestStarts(s: seq<Frame>)
    requires StackOk(s)
    requires s == [] || AtBlob(s)
    ensures s == [] <==> Rest(s) == []
    ensures s != [] ==> Rest(s)[0] == Top(s).tree.entries[Top(s).idx]
    ensures s != [] ==> StackOk(NextEntry(s)) && Rest(NextEntry(s)) == Rest(s)[1..]
  {
    if s != [] {
      RestTop(s);
      NextOk(s);
    }
  }

  lemma EnterRoot(tree: Tree)
    requires Walkable(tree.entries)
    ensures StackOk(EnterDir([], tree)) && Rest(EnterDir([], tree)) == Blobs(tree.entries)
  {
    assert tree.entries[0..] == tree.entries;
  }

  // ----- the iterator ends exactly when no directory is empty -----

  // One round of the loop, or the step to the entry behind a file.
  function IterStep(s: seq<Frame>): seq<Frame>
    requires Bounded(s)
  {
    if s == [] then [] else if AtBlob(s) then NextEntry(s) else WalkStep(s)
  }

  predicate Bounded(s: seq<Frame>) {
    && (forall i :: 0 <= i < |s| - 1 ==> s[i].idx < |s[i].tree.entries|)
    && (s != [] ==> Top(s).idx <= |Top(s).tree.entries|)
  }

  lemma StepBounded(s: seq<Frame>)
    requires Bounded(s)
    ensures Bounded(IterStep(s))
  {
    if s != [] {
      var p := Init(s);
      if !AtBlob(s) && Top(s).idx == |Top(s).tree.entries| && p != [] {
        assert p[|p| - 1] == s[|s| - 2];
        assert Init(p) == s[..|s| - 2];
      }
    }
  }

  // The stack after n steps.
  ghost function After(s: seq<Frame>, n: nat): seq<Frame>
    requires Bounded(s)
    decreases n
  {
    StepBounded(s);
    if n == 0 then s else After(IterStep(s), n - 1)
  }

  // Some empty directory has still to be entered.
  ghost predicate TrapAhead(s: seq<Frame>)
    requires Bounded(s)
  {
    && s != []
    && (!NoEmptyDirs(Top(s).tree.entries[Top(s).idx..]) ||
        exists i :: 0 <= i < |s| - 1 && TrapBehind(s, i))
  }

  ghost predicate TrapBehind(s: seq<Frame>, i: nat)
    requires i < |s| && s[i].idx < |s[i].tree.entries|
  {
    !NoEmptyDirs(s[i].tree.entries[s[i].idx + 1..])
  }

  lemma NoEmptyDirsHead(es: seq<Entry>, k: nat)
    requires k < |es|
    ensures NoEmptyDirs(es[k..]) <==>
            (es[k].Dir? ==> es[k].tree.entries != [] && NoEmptyDirs(es[k].tree.entries)) && NoEmptyDirs(es[k + 1..])
  {
    assert es[k..] == [es[k]] + es[k + 1..];
  }

  lemma TrapStays(s: seq<Frame>)
    requires Bounded(s) && TrapAhead(s)
    ensures Bounded(IterStep(s)) && TrapAhead(IterStep(s))
  {
    StepBounded(s);
    var es, k, n := Top(s).tree.entries, Top(s).idx, IterStep(s);
    if k == |es| {
      TrapOutside(s);
    } else {
      NoEmptyDirsHead(es, k);
      if AtBlob(s) {
        assert Top(n) == Top(s).(idx := k + 1);
        assert s[..|s| - 1] == n[..|s| - 1];
        TrapsKept(s, n, |s| - 1);
      } else if es[k].tree.entries == [] {
        assert n == s;
      } else {
        assert es[k].tree.entries[0..] == es[k].tree.entries;
        assert Top(n) == Frame(es[k].tree, 0) && n[|s| - 1] == Top(s);
        if !NoEmptyDirs(es[k + 1..]) {
          assert TrapBehind(n, |s| - 1);
        }
        assert s[..|s| - 1] == n[..|s| - 1];
        TrapsKept(s, n, |s| - 1);
      }
    }
  }

  lemma TrapsKept(s: seq<Frame>, n: seq<Frame>, m: nat)
    requires Bounded(s) && Bounded(n) && m < |s| && m < |n| && s[..m] == n[..m]
    requires forall i :: 0 <= i < m ==> s[i].idx < |s[i].tree.entries|
    ensures (exists i :: 0 <= i < m && TrapBehind(s, i)) ==> exists i :: 0 <= i < m && TrapBehind(n, i)
  {
    if i :| 0 <= i < m && TrapBehind(s, i) {
      assert s[i] == s[..m][i] == n[i];
      assert TrapBehind(n, i);
    }
  }

  // Leaving a finished directory.
  lemma TrapOutside(s: seq<Frame>)
    requires Bounded(s) && TrapAhead(s) && Top(s).idx == |Top(s).tree.entries|
    ensures Bounded(IterStep(s)) && TrapAhead(IterStep(s))
  {
    StepBounded(s);
    assert Top(s).tree.entries[Top(s).idx..] == [];
    var i :| 0 <= i < |s| - 1 && TrapBehind(s, i);
    var p, n := Init(s), IterStep(s);
    assert Top(n) == Top(p).(idx := Top(p).idx + 1) && p[|p| - 1] == s[|s| - 2];
    if i < |s| - 2 {
      assert s[..|s| - 2] == n[..|s| - 2];
      TrapsKept(s, n, |s| - 2);
    }
  }

  lemma {:induction false} NeverEnds(s: seq<Frame>, n: nat)
    requires Bounded(s) && TrapAhead(s)
    ensures After(s, n) != []
    decreases n
  {
    if n > 0 {
      TrapStays(s);
      NeverEnds(IterStep(s), n - 1);
    }
  }

  // Without empty directories each step lowers the remaining work.
  lemma StepWorks(s: seq<Frame>)
    requires StackOk(s) && s != []
    ensures Bounded(s) && StackOk(IterStep(s)) && Work(IterStep(s)) < Work(s)
  {
    assert FrameOk(s[|s| - 1]);
    if AtBlob(s) {
      RestTop(s);
      NextOk(s);
      assert Init(NextEntry(s)) == Init(s) && Top(NextEntry(s)) == Top(s).(idx := Top(s).idx + 1);
    } else if Top(s).idx == |Top(s).tree.entries| {
      StepLeaves(s);
    } else {
      StepEnters(s);
    }
  }

  lemma {:induction false} Ends(s: seq<Frame>) returns (n: nat)
    requires StackOk(s)
    ensures Bounded(s) && After(s, n) == []
    decreases Work(s)
  {
    hide StackOk;
    hide Work;
    hide IterStep;
    if s == [] {
      n := 0;
    } else {
      StepWorks(s);
      var m := Ends(IterStep(s));
      n := m + 1;
    }
  }

  // Incrementing from begin reaches the end iff no directory of the tree is empty.
  lemma EndsIff(tree: Tree)
    requires ValidEntries(tree.entries)
    ensures NoEmptyDirs(tree.entries) <==> exists n: nat :: After(EnterDir([], tree), n) == []
  {
    var s := EnterDir([], tree);
    if NoEmptyDirs(tree.entries) {
      EnterRoot(tree);
      var n := Ends(s);
    } else {
      assert tree.entries[0..] == tree.entries;
      forall n: nat
        ensures After(s, n) != []
      {
        NeverEnds(s, n);
      }
    }
  }

  class BlobIterator {
    var stack: seq<Frame>

    // At a file, or at the end.
    ghost predicate Valid()
      reads this
    {
      StackOk(stack) && (stack == [] || AtBlob(stack))
    }

    ghost function Remaining(): seq<Entry>
      requires Valid()
      reads this
    {
      Rest(stack)
    }

    constructor (tree: Tree)
      requires Walkable(tree.entries)
      ensures Valid() && Remaining() == Blobs(tree.entries)
    {
      stack := EnterDir([], tree);
      EnterRoot(tree);
      new;
      WalkBlob();
    }

    predicate IsEnd()
      reads this
    {
      |stack| == 0
    }

    method WalkBlob()
      requires StackOk(stack)
      modifies this
      ensures Valid() && Remaining() == old(Rest(stack))
    {
      while !IsEnd()
        invariant StackOk(stack) && Rest(stack) == old(Rest(stack))
        decreases Work(stack)
      {
        var ti := Top(stack);
        assert ti.idx + 1 < |ti.tree.entries| ==>
            NameCmp(ti.tree.entries[ti.idx], ti.tree.entries[ti.idx + 1]) < 0;
        if ti.idx == |ti.tree.entries| {
          StepLeaves(stack);
          stack := NextEntry(Init(stack));
        } else if ti.tree.entries[ti.idx].Dir? {
          StepEnters(stack);
          stack := EnterDir(stack, ti.tree.entries[ti.idx].tree);
        } else {
          break;
        }
      }
    }

    method Increment()
      requires Valid() && !IsEnd()
      modifies this
      ensures Valid() && old(Remaining()) != [] && old(Remaining()) == [old(Remaining())[0]] + Remaining()
    {
      hide StackOk;
      hide Rest;
      hide NextEntry;
      RestStarts(stack);
      stack := NextEntry(stack);
      WalkBlob();
    }

    method Current() returns (e: Entry)
      requires Valid() && !IsEnd()
      ensures Remaining() != [] && e == Remaining()[0]
    {
      RestStarts(stack);
      e := Top(stack).tree.entries[Top(stack).idx];
    }
  }

  // Driving the iterator from begin to end visits every file once, in order.
  method AllBlobs(tree: Tree) returns (visited: seq<Entry>)
    requires Walkable(tree.entries)
    ensures visited == Blobs(tree.entries)
  {
    visited := [];
    var iter := new BlobIterator(tree);
    ghost var left := iter.Remaining();
    while !iter.IsEnd()
      invariant fresh(iter) && iter.Valid() && left == iter.Remaining()
      invariant visited + left == Blobs(tree.entries)
      decreases |left|
    {
      var e := iter.Current();
      iter.Increment();
      Assoc(visited, [e], iter.Remaining());
      visited, left := visited + [e], iter.Remaining();
    }
    RestStarts(iter.stack);
  }
}
