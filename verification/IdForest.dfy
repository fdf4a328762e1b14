/** The table of collapsed ids as a forest: row[id] is a smaller id that names
    the same message, or 0. What merging and normalising do to its roots. */
module IdForest {
  import opened Connectivity

  // Rows beyond the end of the table read 0.
  function At(rows: seq<nat>, id: nat): nat {
    if id < |rows| then rows[id] else 0
  }

  // Links go down, so that following them ends.
  ghost predicate Forest(rows: seq<nat>) {
    forall id {:trigger rows[id]} :: 0 <= id < |rows| ==> rows[id] == 0 || rows[id] < id
  }

  // The smallest id of a chain: the end of it.
  function Root(rows: seq<nat>, id: nat): (r: nat)
    requires Forest(rows)
    ensures r <= id && At(rows, r) == 0
  {
    if At(rows, id) == 0 then id else Root(rows, At(rows, id))
  }

  // `a` is `id` or is met by following the links from `id`.
  predicate OnChain(rows: seq<nat>, id: nat, a: nat)
    requires Forest(rows)
    decreases id
  {
    id == a || (At(rows, id) != 0 && OnChain(rows, At(rows, id), a))
  }

  lemma {:induction false} ChainRoot(rows: seq<nat>, id: nat, a: nat)
    requires Forest(rows) && OnChain(rows, id, a)
    ensures Root(rows, id) == Root(rows, a)
    decreases id
  {
    if id != a {
      ChainRoot(rows, At(rows, id), a);
    }
  }

  // The rows after writing row `id`: the table may have grown, by zeros.
  ghost predicate Written(rows: seq<nat>, id: nat, v: nat, rows': seq<nat>) {
    && |rows| <= |rows'| && id < |rows'|
    && forall x :: At(rows', x) == if x == id then v else At(rows, x)
  }

  lemma {:induction false} WriteEffect(rows: seq<nat>, a: nat, g: nat, rows': seq<nat>, x: nat)
    requires Forest(rows) && g < a && At(rows, g) == 0 && g != 0
    requires Written(rows, a, g, rows') && Forest(rows')
    ensures Root(rows', x) == if OnChain(rows, x, a) then g else Root(rows, x)
    ensures !OnChain(rows, x, a) ==> forall b :: OnChain(rows', x, b) == OnChain(rows, x, b)
    decreases x
  {
    if x == a {
      assert At(rows', g) == 0;
    } else if At(rows, x) != 0 {
      WriteEffect(rows, a, g, rows', At(rows, x));
    }
  }

  lemma WrittenForest(rows: seq<nat>, a: nat, g: nat, rows': seq<nat>)
    requires Forest(rows) && g < a && Written(rows, a, g, rows')
    ensures Forest(rows')
  {
    forall id | 0 <= id < |rows'|
      ensures rows'[id] == 0 || rows'[id] < id
    {
      assert At(rows', id) == if id == a then g else At(rows, id);
    }
  }

  function Min(x: nat, y: nat): nat { if x <= y then x else y }

  // The common root that a and b are given.
  function NewRoot(rows: seq<nat>, a: nat, b: nat): nat
    requires Forest(rows)
  {
    Min(Root(rows, a), Root(rows, b))
  }

  // addRow(a, b): only the rows of a and b themselves are written.
  ghost predicate Merged(rows: seq<nat>, a: nat, b: nat, rows': seq<nat>)
    requires Forest(rows)
  {
    var g := NewRoot(rows, a, b);
    && |rows| <= |rows'|
    && forall x :: At(rows', x) == if x == a != g || x == b != g then g else At(rows, x)
  }

  // The links of the new table go down as well.
  lemma MergedForest(rows: seq<nat>, a: nat, b: nat, rows': seq<nat>)
    requires Forest(rows) && Merged(rows, a, b, rows')
    ensures Forest(rows')
  {
    var g := NewRoot(rows, a, b);
    forall id | 0 <= id < |rows'|
      ensures rows'[id] == 0 || rows'[id] < id
    {
      assert At(rows', id) == if id == a != g || id == b != g then g else At(rows, id);
    }
  }

  // Exactly the ids whose chain meets a or b get the new root.
  lemma {:induction false} MergeEffect(rows: seq<nat>, a: nat, b: nat, rows': seq<nat>, x: nat)
    requires Forest(rows) && a != 0 && b != 0 && Merged(rows, a, b, rows')
    ensures Forest(rows')
    ensures Root(rows', x) ==
            if OnChain(rows, x, a) || OnChain(rows, x, b) then NewRoot(rows, a, b) else Root(rows, x)
    decreases x
  {
    var g := NewRoot(rows, a, b);
    MergedForest(rows, a, b, rows');
    assert At(rows, g) == 0;
    assert At(rows', g) == 0;
    if x == a || x == b {
      if x != g {
        assert At(rows', x) == g;
        if g == 0 {
          ZeroRoot(rows, a);
          ZeroRoot(rows, b);
        }
      }
    } else {
      assert At(rows', x) == At(rows, x);
      if At(rows, x) != 0 {
        MergeEffect(rows, a, b, rows', At(rows, x));
      }
    }
  }

  lemma {:induction false} ZeroRoot(rows: seq<nat>, a: nat)
    requires Forest(rows) && a != 0
    ensures Root(rows, a) != 0
    decreases a
  {
    if At(rows, a) != 0 {
      ZeroRoot(rows, At(rows, a));
    }
  }

  // With the id 0, which is no id, the other id is cut off from its chain: it
  // becomes the root of the ids that lead to it.
  lemma {:induction false} MergeWithZero(rows: seq<nat>, a: nat, rows': seq<nat>, x: nat)
    requires Forest(rows) && a != 0 && (Merged(rows, a, 0, rows') || Merged(rows, 0, a, rows'))
    ensures Forest(rows')
    ensures Root(rows', x) == if OnChain(rows, x, a) then a else Root(rows, x)
    decreases x
  {
    assert Root(rows, 0) == 0;
    if Merged(rows, a, 0, rows') {
      MergedForest(rows, a, 0, rows');
    } else {
      MergedForest(rows, 0, a, rows');
    }
    assert At(rows', x) == if x == a then 0 else At(rows, x);
    if x != a && At(rows, x) != 0 {
      MergeWithZero(rows, a, rows', At(rows, x));
    }
  }

  // Roots never increase.
  lemma RootsNeverIncrease(rows: seq<nat>, a: nat, b: nat, rows': seq<nat>, x: nat)
    requires Forest(rows) && a != 0 && b != 0 && Merged(rows, a, b, rows')
    ensures Forest(rows') && Root(rows', x) <= Root(rows, x)
    ensures Root(rows', a) == Root(rows', b) == NewRoot(rows, a, b)
  {
    MergeEffect(rows, a, b, rows', x);
    MergeEffect(rows, a, b, rows', a);
    MergeEffect(rows, a, b, rows', b);
    if OnChain(rows, x, a) {
      ChainRoot(rows, x, a);
    }
    if OnChain(rows, x, b) {
      ChainRoot(rows, x, b);
    }
  }

  // ----- when a merge joins the two classes completely -----

  // The ids of both classes, and no others, have the new root.
  ghost predicate JoinsClasses(rows: seq<nat>, a: nat, b: nat, rows': seq<nat>)
    requires Forest(rows) && Forest(rows')
  {
    forall x :: Root(rows', x) ==
      if Root(rows, x) == Root(rows, a) || Root(rows, x) == Root(rows, b) then NewRoot(rows, a, b) else Root(rows, x)
  }

  // What a caller can check: each id is a root or already has the new root.
  predicate MergeIsSafe(rows: seq<nat>, a: nat, b: nat)
    requires Forest(rows)
  {
    && (At(rows, a) == 0 || Root(rows, a) == NewRoot(rows, a, b))
    && (At(rows, b) == 0 || Root(rows, b) == NewRoot(rows, a, b))
  }

  lemma MergeIsCompleteIff(rows: seq<nat>, a: nat, b: nat, rows': seq<nat>)
    requires Forest(rows) && a != 0 && b != 0 && Merged(rows, a, b, rows')
    ensures Forest(rows')
    ensures JoinsClasses(rows, a, b, rows') <==> MergeIsSafe(rows, a, b)
  {
    var g := NewRoot(rows, a, b);
    MergedForest(rows, a, b, rows');
    if MergeIsSafe(rows, a, b) {
      forall x
        ensures Root(rows', x) ==
          if Root(rows, x) == Root(rows, a) || Root(rows, x) == Root(rows, b) then g else Root(rows, x)
      {
        MergeEffect(rows, a, b, rows', x);
        if OnChain(rows, x, a) {
          ChainRoot(rows, x, a);
        } else if OnChain(rows, x, b) {
          ChainRoot(rows, x, b);
        } else {
          RootOnChain(rows, x);
        }
      }
    } else {
      // The old root of the class that is not joined is left behind.
      var c := if At(rows, a) == 0 || Root(rows, a) == g then b else a;
      var r := Root(rows, c);
      MergeEffect(rows, a, b, rows', r);
      RootIsAlone(rows, r, a);
      RootIsAlone(rows, r, b);
      assert Root(rows', r) == r != g;
      assert Root(rows, r) == Root(rows, c);
    }
  }

  lemma {:induction false} RootOnChain(rows: seq<nat>, x: nat)
    requires Forest(rows)
    ensures OnChain(rows, x, Root(rows, x))
    decreases x
  {
    if At(rows, x) != 0 {
      RootOnChain(rows, At(rows, x));
    }
  }

  lemma RootIsAlone(rows: seq<nat>, r: nat, a: nat)
    requires Forest(rows) && At(rows, r) == 0
    ensures OnChain(rows, r, a) <==> r == a
  {
  }

  // 500 has been collapsed with 400; collapsing it with 300 leaves 400 behind.
  lemma MergeCanSplit(rows: seq<nat>, rows1: seq<nat>, rows2: seq<nat>)
    requires Forest(rows) && forall id :: At(rows, id) == 0
    requires Merged(rows, 500, 400, rows1) && Forest(rows1) && Merged(rows1, 500, 300, rows2)
    ensures Forest(rows2)
    ensures Root(rows1, 500) == Root(rows1, 400) == 400
    ensures Root(rows2, 500) == Root(rows2, 300) == 300 && Root(rows2, 400) == 400
  {
    assert At(rows1, 500) == 400 && At(rows1, 400) == 0 && At(rows1, 300) == 0;
    assert Root(rows1, 500) == 400 && NewRoot(rows1, 500, 300) == 300;
    MergedForest(rows1, 500, 300, rows2);
    assert At(rows2, 500) == 300 && At(rows2, 400) == 0 && At(rows2, 300) == 0;
  }

  // ----- runs of merges -----

  // States after each of a run of merges, the first one given.
  ghost predicate IsRun(states: seq<seq<nat>>, pairs: seq<(nat, nat)>) {
    && |states| == |pairs| + 1
    && (forall i :: 0 <= i < |states| ==> Forest(states[i]))
    && (forall i :: 0 <= i < |pairs| ==> MergeStep(states, pairs, i))
  }

  ghost predicate MergeStep(states: seq<seq<nat>>, pairs: seq<(nat, nat)>, i: nat)
    requires i < |pairs| < |states| && Forest(states[i])
  {
    pairs[i].0 != 0 && pairs[i].1 != 0 && Merged(states[i], pairs[i].0, pairs[i].1, states[i + 1])
  }

  function PairSet(pairs: seq<(nat, nat)>): Edges {
    set p | p in pairs
  }

  // Ids with the same root are connected by the pairs merged so far.
  ghost predicate SoundClasses(rows: seq<nat>, e: Edges)
    requires Forest(rows)
  {
    forall x :: Connected(e, x, Root(rows, x))
  }

  lemma {:induction false} ChainConnected(rows: seq<nat>, e: Edges, x: nat, a: nat)
    requires Forest(rows) && SoundClasses(rows, e) && OnChain(rows, x, a)
    ensures Connected(e, x, a)
  {
    ChainRoot(rows, x, a);
    ConnectedSymmetric(e, a, Root(rows, a));
    ConnectedTransitive(e, x, Root(rows, x), a);
  }

  lemma MergeKeepsSound(rows: seq<nat>, e: Edges, a: nat, b: nat, rows': seq<nat>)
    requires Forest(rows) && a != 0 && b != 0 && Merged(rows, a, b, rows')
    requires SoundClasses(rows, e)
    ensures Forest(rows') && SoundClasses(rows', e + {(a, b)})
  {
    var e' := e + {(a, b)};
    MergedForest(rows, a, b, rows');
    forall x
      ensures Connected(e', x, Root(rows', x))
    {
      MergeEffect(rows, a, b, rows', x);
      ConnectedMore(e, e', x, Root(rows, x));
      if OnChain(rows, x, a) || OnChain(rows, x, b) {
        var c := if OnChain(rows, x, a) then a else b;
        ChainConnected(rows, e, x, c);
        ConnectedMore(e, e', x, c);
        NewRootConnected(rows, e, a, b, c);
        ConnectedTransitive(e', x, c, NewRoot(rows, a, b));
      }
    }
  }

  lemma NewRootConnected(rows: seq<nat>, e: Edges, a: nat, b: nat, c: nat)
    requires Forest(rows) && SoundClasses(rows, e) && (c == a || c == b)
    ensures Connected(e + {(a, b)}, c, NewRoot(rows, a, b))
  {
    var e' := e + {(a, b)};
    var d := if Root(rows, a) <= Root(rows, b) then a else b;
    ConnectedMore(e, e', d, Root(rows, d));
    ConnectedSelf(e', a);
    ConnectedSelf(e', b);
    ConnectedEdge(e', a, b);
    ConnectedSymmetric(e', a, b);
    ConnectedTransitive(e', c, d, Root(rows, d));
  }

  // Soundness of every run on a fresh table: a common root is never an accident.
  lemma {:induction false} RunIsSound(states: seq<seq<nat>>, pairs: seq<(nat, nat)>)
    requires IsRun(states, pairs) && forall id :: At(states[0], id) == 0
    ensures SoundClasses(states[|pairs|], PairSet(pairs))
    decreases |pairs|
  {
    if pairs == [] {
      forall x
        ensures Connected({}, x, Root(states[0], x))
      {
        assert At(states[0], x) == 0;
        ConnectedSelf({}, x);
      }
      assert PairSet(pairs) == {};
    } else {
      var n := |pairs| - 1;
      RunPrefix(states, pairs);
      RunIsSound(states[..n + 1], pairs[..n]);
      assert MergeStep(states, pairs, n);
      MergeKeepsSound(states[n], PairSet(pairs[..n]), pairs[n].0, pairs[n].1, states[n + 1]);
      PairSetLast(pairs);
    }
  }

  lemma RunPrefix(states: seq<seq<nat>>, pairs: seq<(nat, nat)>)
    requires IsRun(states, pairs) && pairs != []
    ensures IsRun(states[..|pairs|], pairs[..|pairs| - 1])
  {
    var n := |pairs| - 1;
    var before, first := states[..n + 1], pairs[..n];
    forall i {:trigger MergeStep(before, first, i)} | 0 <= i < n
      ensures MergeStep(before, first, i)
    {
      assert MergeStep(states, pairs, i);
    }
  }

  lemma PairSetLast(pairs: seq<(nat, nat)>)
    requires pairs != []
    ensures PairSet(pairs) == PairSet(pairs[..|pairs| - 1]) + {pairs[|pairs| - 1]}
  {
    assert pairs == pairs[..|pairs| - 1] + [pairs[|pairs| - 1]];
  }

  ghost predicate CompleteClasses(rows: seq<nat>, e: Edges)
    requires Forest(rows)
  {
    forall u, v :: (u, v) in e ==> Root(rows, u) == Root(rows, v)
  }

  lemma SafeMergeKeepsComplete(rows: seq<nat>, e: Edges, a: nat, b: nat, rows': seq<nat>)
    requires Forest(rows) && a != 0 && b != 0 && Merged(rows, a, b, rows')
    requires CompleteClasses(rows, e) && MergeIsSafe(rows, a, b)
    ensures Forest(rows') && CompleteClasses(rows', e + {(a, b)})
  {
    MergeIsCompleteIff(rows, a, b, rows');
    forall u, v | (u, v) in e + {(a, b)}
      ensures Root(rows', u) == Root(rows', v)
    {
      if (u, v) in e {
        assert Root(rows, u) == Root(rows, v);
      } else {
        assert u == a && v == b;
      }
    }
  }

  lemma {:induction false} SafeRunKeepsComplete(states: seq<seq<nat>>, pairs: seq<(nat, nat)>)
    requires IsRun(states, pairs)
    requires forall i :: 0 <= i < |pairs| ==> MergeIsSafe(states[i], pairs[i].0, pairs[i].1)
    ensures CompleteClasses(states[|pairs|], PairSet(pairs))
    decreases |pairs|
  {
    if pairs != [] {
      var n := |pairs| - 1;
      RunPrefix(states, pairs);
      SafeRunKeepsComplete(states[..n + 1], pairs[..n]);
      assert MergeStep(states, pairs, n);
      SafeMergeKeepsComplete(states[n], PairSet(pairs[..n]), pairs[n].0, pairs[n].1, states[n + 1]);
      PairSetLast(pairs);
    }
  }

  // When every merge of a run is safe, the classes are exactly the equivalence
  // closure of the merged pairs and each root is the smallest id of its class.
  lemma SafeRunIsClosure(states: seq<seq<nat>>, pairs: seq<(nat, nat)>, x: nat, y: nat)
    requires IsRun(states, pairs) && forall id :: At(states[0], id) == 0
    requires forall i :: 0 <= i < |pairs| ==> MergeIsSafe(states[i], pairs[i].0, pairs[i].1)
    ensures Root(states[|pairs|], x) == Root(states[|pairs|], y) <==> Connected(PairSet(pairs), x, y)
    ensures Connected(PairSet(pairs), x, y) ==> Root(states[|pairs|], x) <= y
    ensures Connected(PairSet(pairs), x, Root(states[|pairs|], x))
  {
    var rows, e := states[|pairs|], PairSet(pairs);
    RunIsSound(states, pairs);
    SafeRunKeepsComplete(states, pairs);
    if Connected(e, x, y) {
      ConnectedKeepsLabel(e, (z: nat) => Root(rows, z), x, y);
    }
    if Root(rows, x) == Root(rows, y) {
      ConnectedSymmetric(e, y, Root(rows, y));
      ConnectedTransitive(e, x, Root(rows, x), y);
    }
  }

  // ----- normalising -----

  // Rows below `n` point to their roots, the others are as they were.
  function NormalizedTo(rows: seq<nat>, n: nat): (r: seq<nat>)
    requires Forest(rows)
    ensures |r| == |rows|
  {
    seq(|rows|, i requires 0 <= i < |rows| => if i < n && rows[i] != 0 then Root(rows, i) else rows[i])
  }

  lemma {:induction false} NormalizedRoot(rows: seq<nat>, n: nat, x: nat)
    requires Forest(rows)
    ensures Forest(NormalizedTo(rows, n))
    ensures Root(NormalizedTo(rows, n), x) == Root(rows, x)
    decreases x
  {
    var r := NormalizedTo(rows, n);
    forall id | 0 <= id < |r|
      ensures r[id] == 0 || r[id] < id
    {
    }
    if At(rows, x) != 0 {
      var p := At(r, x);
      if p == 0 {
        // a link to 0 does not count as one
        assert p == Root(rows, x);
        ZeroRoot(rows, x);
      } else {
        NormalizedRoot(rows, n, p);
        if p == Root(rows, x) {
          assert At(rows, p) == 0;
        }
      }
    }
  }

  // After the pass one step leads to the root.
  lemma NormalizedIsFlat(rows: seq<nat>, x: nat)
    requires Forest(rows)
    ensures var r := NormalizedTo(rows, |rows|);
            && Forest(r)
            && Root(r, x) == Root(rows, x)
            && (if At(r, x) != 0 then At(r, x) else x) == Root(r, x)
            && NormalizedTo(r, |r|) == r
  {
    var r := NormalizedTo(rows, |rows|);
    NormalizedRoot(rows, |rows|, x);
    forall i | 0 <= i < |r|
      ensures r[i] != 0 ==> r[i] == Root(r, i)
    {
      NormalizedRoot(rows, |rows|, i);
      if rows[i] != 0 {
        ZeroRoot(rows, i);
      }
    }
    assert NormalizedTo(r, |r|) == r;
    if At(rows, x) != 0 {
      ZeroRoot(rows, x);
    }
  }
}
