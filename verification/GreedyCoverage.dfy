/** Greedy choice of files that together contain all ids of a diff. */
module GreedyCoverage {
  import opened Options

  datatype Content = Content(filename: string, minIds: seq<int>)

  function Ids(content: Content): set<int> {
    set id | id in content.minIds
  }

  function AllIds(contents: seq<Content>): set<int> {
    if contents == [] then {} else Ids(contents[0]) + AllIds(contents[1..])
  }

  lemma {:induction false} InAllIds(contents: seq<Content>, id: int)
    ensures id in AllIds(contents) <==> exists c :: c in contents && id in Ids(c)
  {
    if contents != [] {
      InAllIds(contents[1..], id);
      assert contents == [contents[0]] + contents[1..];
    }
  }

  lemma MemberIds(contents: seq<Content>, c: Content)
    requires c in contents
    ensures Ids(c) <= AllIds(contents)
  {
    forall id | id in Ids(c)
      ensures id in AllIds(contents)
    {
      InAllIds(contents, id);
    }
  }

  lemma {:induction false} AllIdsMore(contents: seq<Content>, c: Content)
    ensures AllIds(contents + [c]) == AllIds(contents) + Ids(c)
  {
    if contents == [] {
      assert AllIds([c]) == Ids(c) + AllIds([]);
    } else {
      AllIdsMore(contents[1..], c);
      assert (contents + [c])[1..] == contents[1..] + [c];
    }
  }

  // The number of places of the list that hold an uncovered id.
  function Count(list: seq<int>, ids: set<int>): nat {
    if list == [] then 0
    else Count(list[..|list| - 1], ids) + if list[|list| - 1] in ids then 1 else 0
  }

  // No uncovered id stands in the list more than m times.
  ghost predicate AtMost(list: seq<int>, ids: set<int>, m: nat) {
    forall id :: id in ids ==> multiset(list)[id] <= m
  }

  ghost predicate ListedAtMost(contents: seq<Content>, ids: set<int>, m: nat) {
    forall c :: c in contents ==> AtMost(c.minIds, ids, m)
  }

  // The place of the first content that holds the most uncovered ids, -1 if
  // there are no uncovered ids in the contents.
  function BestIndex(contents: seq<Content>, ids: set<int>): (best: int)
    ensures -1 <= best < |contents|
  {
    if contents == [] then -1
    else
      var init, last := contents[..|contents| - 1], |contents| - 1;
      var best := BestIndex(init, ids);
      if Count(contents[last].minIds, ids) > BestCount(init, ids, best) then last else best
  }

  function BestCount(contents: seq<Content>, ids: set<int>, best: int): nat
    requires -1 <= best < |contents|
  {
    if best == -1 then 0 else Count(contents[best].minIds, ids)
  }

  lemma {:induction false} BestIsBest(contents: seq<Content>, ids: set<int>)
    ensures var best := BestIndex(contents, ids);
            && (best >= 0 <==> BestCount(contents, ids, best) > 0)
            && (forall i :: 0 <= i < |contents| ==> Count(contents[i].minIds, ids) <= BestCount(contents, ids, best))
            && (forall i :: 0 <= i < best ==> Count(contents[i].minIds, ids) < BestCount(contents, ids, best))
  {
    if contents != [] {
      BestIsBest(contents[..|contents| - 1], ids);
    }
  }

  function Without(contents: seq<Content>, i: nat): (rest: seq<Content>)
    requires i < |contents|
    ensures multiset(contents) == multiset(rest) + multiset{contents[i]}
    ensures |rest| == |contents| - 1
    ensures forall j :: 0 <= j < |rest| ==> rest[j] == contents[if j < i then j else j + 1]
  {
    assert contents == contents[..i] + [contents[i]] + contents[i + 1..];
    contents[..i] + contents[i + 1..]
  }

  // The contents chosen until there is nothing to choose.
  function Chosen(contents: seq<Content>, ids: set<int>): (chosen: seq<Content>)
    decreases |contents|
  {
    var best := BestIndex(contents, ids);
    if best == -1 then []
    else [contents[best]] + Chosen(Without(contents, best), ids - Ids(contents[best]))
  }

  class GreedyIddiffCoverage {
    var invContents: seq<Content>
    var ids: set<int>

    constructor (contents: seq<Content>, ids: set<int>)
      ensures invContents == contents && this.ids == ids
    {
      invContents := contents;
      this.ids := ids;
    }

    method CountCovered(list: seq<int>) returns (covered: nat)
      ensures covered == Count(list, ids)
    {
      covered := 0;
      for j := 0 to |list|
        invariant covered == Count(list[..j], ids)
      {
        assert list[..j + 1][..j] == list[..j];
        if list[j] in ids {
          covered := covered + 1;
        }
      }
      assert list[..|list|] == list;
    }

    method NextContent() returns (content: Option<Content>)
      modifies this
      ensures var best := BestIndex(old(invContents), old(ids));
              if best == -1 then content == None && invContents == old(invContents) && ids == old(ids)
              else
                && content == Some(old(invContents)[best])
                && invContents == Without(old(invContents), best)
                && ids == old(ids) - Ids(old(invContents)[best])
    {
      var bestIndex := -1;
      var bestCovered := 0;
      for i := 0 to |invContents|
        invariant invContents == old(invContents) && ids == old(ids)
        invariant bestIndex == BestIndex(invContents[..i], ids)
        invariant bestCovered == BestCount(invContents[..i], ids, bestIndex)
      {
        assert invContents[..i + 1][..i] == invContents[..i];
        var covered := CountCovered(invContents[i].minIds);
        if covered > bestCovered {
          bestIndex := i;
          bestCovered := covered;
        }
      }
      assert invContents[..|invContents|] == invContents;
      if bestIndex == -1 {
        return None;
      }
      var c := invContents[bestIndex];
      for i := 0 to |c.minIds|
        invariant invContents == old(invContents)
        invariant ids == old(ids) - set id | id in c.minIds[..i]
      {
        ids := ids - {c.minIds[i]};
      }
      assert c.minIds[..|c.minIds|] == c.minIds;
      invContents := invContents[..bestIndex] + invContents[bestIndex + 1..];
      content := Some(c);
    }

    // Takes contents until there are no more; the ids that stay are in no
    // content that stays.
    method TakeAll() returns (chosen: seq<Content>)
      modifies this
      ensures chosen == Chosen(old(invContents), old(ids))
      ensures multiset(chosen) + multiset(invContents) == multiset(old(invContents))
      ensures ids == old(ids) - AllIds(chosen)
      ensures forall c :: c in invContents ==> Ids(c) !! ids
    {
      chosen := [];
      while true
        invariant Chosen(old(invContents), old(ids)) == chosen + Chosen(invContents, ids)
        invariant multiset(chosen) + multiset(invContents) == multiset(old(invContents))
        invariant ids == old(ids) - AllIds(chosen)
        decreases |invContents|
      {
        ghost var contents, open := invContents, ids;
        var content := NextContent();
        match content {
          case None =>
            assert chosen + [] == chosen;
            NothingLeft(invContents, ids);
            break;
          case Some(c) =>
            TakenMore(old(ids), open, chosen, contents);
            chosen := chosen + [c];
        }
      }
    }
  }

  // A step moves one content from those left to those chosen.
  lemma TakenMore(all: set<int>, ids: set<int>, chosen: seq<Content>, contents: seq<Content>)
    requires BestIndex(contents, ids) >= 0 && ids == all - AllIds(chosen)
    ensures var best := BestIndex(contents, ids);
            var rest, ids' := Without(contents, best), ids - Ids(contents[best]);
            && chosen + Chosen(contents, ids) == (chosen + [contents[best]]) + Chosen(rest, ids')
            && multiset(chosen) + multiset(contents) == multiset(chosen + [contents[best]]) + multiset(rest)
            && ids' == all - AllIds(chosen + [contents[best]])
  {
    hide Without;
    hide BestIndex;
    hide Ids;
    var best := BestIndex(contents, ids);
    var c := contents[best];
    AllIdsMore(chosen, c);
    var later := Chosen(Without(contents, best), ids - Ids(c));
    assert chosen + ([c] + later) == (chosen + [c]) + later;
  }

  // ----- counting -----

  lemma {:induction false} CountZero(list: seq<int>, ids: set<int>)
    requires Count(list, ids) == 0
    ensures forall id :: id in list ==> id !in ids
  {
    if list != [] {
      var init := list[..|list| - 1];
      CountZero(init, ids);
      assert list == init + [list[|list| - 1]];
    }
  }

  // The uncovered ids of a list.
  function Held(list: seq<int>, ids: set<int>): set<int> {
    if list == [] then {}
    else Held(list[..|list| - 1], ids) + if list[|list| - 1] in ids then {list[|list| - 1]} else {}
  }

  lemma {:induction false} HeldMeaning(list: seq<int>, ids: set<int>)
    ensures Held(list, ids) == ids * (set id | id in list)
  {
    if list != [] {
      var init, last := list[..|list| - 1], list[|list| - 1];
      HeldMeaning(init, ids);
      assert list == init + [last];
    }
  }

  lemma {:induction false} HeldSize(list: seq<int>, ids: set<int>)
    ensures |Held(list, ids)| <= Count(list, ids)
  {
    if list != [] {
      HeldSize(list[..|list| - 1], ids);
    }
  }

  // The places that hold one id, and those that hold others.
  lemma {:induction false} CountOne(list: seq<int>, ids: set<int>, x: int)
    requires x in ids
    ensures Count(list, ids) == Count(list, ids - {x}) + multiset(list)[x]
  {
    if list != [] {
      var init, last := list[..|list| - 1], list[|list| - 1];
      CountOne(init, ids, x);
      assert list == init + [last];
      assert multiset(list)[x] == multiset(init)[x] + if last == x then 1 else 0;
    }
  }

  lemma {:induction false} CountBound(list: seq<int>, ids: set<int>, m: nat)
    requires AtMost(list, ids, m)
    ensures Count(list, ids) <= m * |ids * (set id | id in list)|
  {
    var held := ids * (set id | id in list);
    if x :| x in held {
      CountOne(list, ids, x);
      CountBound(list, ids - {x}, m);
      assert (ids - {x}) * (set id | id in list) == held - {x};
      assert m * |held| == m * (|held| - 1) + m;
    } else {
      forall id | id in list
        ensures id !in ids
      {
        assert id !in held;
      }
      NothingToCount(list, ids);
    }
  }

  // Counting places counts every uncovered id at least once, and as often as it
  // is listed at most.
  lemma CountIsSize(list: seq<int>, ids: set<int>, m: nat)
    ensures |ids * (set id | id in list)| <= Count(list, ids)
    ensures AtMost(list, ids, m) ==> Count(list, ids) <= m * |ids * (set id | id in list)|
  {
    HeldMeaning(list, ids);
    HeldSize(list, ids);
    if AtMost(list, ids, m) {
      CountBound(list, ids, m);
    }
  }

  // The ids still to be covered that some content holds.
  function Coverable(contents: seq<Content>, ids: set<int>): set<int> {
    ids * AllIds(contents)
  }

  // `cover` covers whatever the contents can cover, and is no better than they
  // are at any one step.
  ghost predicate IsCover(contents: seq<Content>, ids: set<int>, cover: seq<Content>) {
    && Coverable(contents, ids) <= AllIds(cover)
    && forall c :: c in cover ==> c in contents || Ids(c) !! ids
  }

  lemma {:induction false} ShareOfCover(open: set<int>, ids: set<int>, cover: seq<Content>, most: nat)
    requires open <= ids && open <= AllIds(cover)
    requires forall c :: c in cover ==> Count(c.minIds, ids) <= most
    ensures |open| <= |cover| * most
  {
    if cover == [] {
      assert open == {};
    } else {
      var part := Ids(cover[0]);
      ShareOfCover(open - part, ids, cover[1..], most);
      CountIsSize(cover[0].minIds, ids, 1);
      ShareStep(open, ids, part, |cover| - 1, most);
    }
  }

  lemma ShareStep(open: set<int>, ids: set<int>, part: set<int>, k: nat, most: nat)
    requires open <= ids && |open - part| <= k * most && |ids * part| <= most
    ensures |open| <= (k + 1) * most
  {
    Subset(open, (open - part) + (ids * part));
  }

  lemma Subset(a: set<int>, b: set<int>)
    requires a <= b
    ensures |a| <= |b|
  {
    assert b == a + (b - a);
  }

  // One step covers at least the k-th part of what is left, for every cover
  // with k contents.
  lemma StepCoversItsShare(contents: seq<Content>, ids: set<int>, cover: seq<Content>)
    requires IsCover(contents, ids, cover)
    ensures |Coverable(contents, ids)| <= |cover| * BestCount(contents, ids, BestIndex(contents, ids))
  {
    var best := BestIndex(contents, ids);
    BestIsBest(contents, ids);
    forall c | c in cover
      ensures Count(c.minIds, ids) <= BestCount(contents, ids, best)
    {
      if c !in contents {
        NothingToCount(c.minIds, ids);
      }
    }
    ShareOfCover(Coverable(contents, ids), ids, cover, BestCount(contents, ids, best));
  }

  lemma {:induction false} NothingToCount(list: seq<int>, ids: set<int>)
    requires forall id :: id in list ==> id !in ids
    ensures Count(list, ids) == 0
  {
    if list != [] {
      var init, last := list[..|list| - 1], list[|list| - 1];
      assert last in list && last !in ids;
      NothingToCount(init, ids);
    }
  }

  lemma WithoutMembers(contents: seq<Content>, i: nat, c: Content)
    requires i < |contents|
    ensures c in contents <==> c in Without(contents, i) || c == contents[i]
  {
    assert c in contents <==> c in multiset(contents);
    assert c in Without(contents, i) <==> c in multiset(Without(contents, i));
  }

  // What one step leaves to be covered.
  lemma StepRemoves(contents: seq<Content>, ids: set<int>, i: nat)
    requires i < |contents|
    ensures Coverable(Without(contents, i), ids - Ids(contents[i])) == Coverable(contents, ids) - Ids(contents[i])
  {
    var rest := Without(contents, i);
    forall id | id !in Ids(contents[i])
      ensures id in AllIds(rest) <==> id in AllIds(contents)
    {
      InAllIds(rest, id);
      InAllIds(contents, id);
      if c :| c in contents && id in Ids(c) {
        WithoutMembers(contents, i, c);
      }
      if c :| c in rest && id in Ids(c) {
        WithoutMembers(contents, i, c);
      }
    }
  }

  // A step covers at least the m-th part of what it counts, if no uncovered id
  // is listed more than m times; with m == 1 just what it counts.
  lemma StepRemovesItsCount(contents: seq<Content>, ids: set<int>, i: nat, m: nat)
    requires i < |contents| && AtMost(contents[i].minIds, ids, m)
    ensures var before := |Coverable(contents, ids)|;
            var after := |Coverable(Without(contents, i), ids - Ids(contents[i]))|;
            && before - after <= Count(contents[i].minIds, ids) <= m * (before - after)
  {
    StepRemoves(contents, ids, i);
    CountIsSize(contents[i].minIds, ids, m);
    var covered := ids * Ids(contents[i]);
    MemberIds(contents, contents[i]);
    assert Coverable(contents, ids) - Ids(contents[i]) == Coverable(contents, ids) - covered;
  }

  lemma CoverStays(contents: seq<Content>, ids: set<int>, i: nat, cover: seq<Content>)
    requires i < |contents| && IsCover(contents, ids, cover)
    ensures IsCover(Without(contents, i), ids - Ids(contents[i]), cover)
  {
    StepRemoves(contents, ids, i);
    forall c | c in cover && c in contents && c != contents[i]
      ensures c in Without(contents, i)
    {
      WithoutMembers(contents, i, c);
    }
  }

  // ----- the harmonic bound -----

  // 1 + 1/2 + ... + 1/n
  function Harmonic(n: nat): real {
    if n == 0 then 0.0 else Harmonic(n - 1) + 1.0 / n as real
  }

  lemma {:induction false} HarmonicStep(n: nat, b: nat)
    requires 0 < b <= n
    ensures Harmonic(n) - Harmonic(n - b) >= b as real / n as real
  {
    if b > 1 {
      HarmonicStep(n - 1, b - 1);
      Fractions((b - 1) as real, n as real);
    }
  }

  lemma Fractions(c: real, n: real)
    requires 0.0 < c && 1.0 < n
    ensures c / (n - 1.0) + 1.0 / n >= (c + 1.0) / n
  {
    var x := c / (n - 1.0);
    assert c == x * (n - 1.0);
    var y := c / n;
    assert y * n == c <= x * n;
    if y > x {
      LargerTimes(x, y, n);
    }
  }

  lemma LargerTimes(x: real, y: real, n: real)
    requires y > x && n > 0.0
    ensures y * n > x * n
  {
  }

  lemma OneStepPays(k: nat, n: nat, b: nat)
    requires 0 < b <= n <= k * b
    ensures 1.0 + k as real * Harmonic(n - b) <= k as real * Harmonic(n)
  {
    HarmonicStep(n, b);
    var share := b as real / n as real;
    assert k as real * share >= 1.0 by {
      assert k as real * share == (k * b) as real / n as real;
    }
    assert k as real * (Harmonic(n) - Harmonic(n - b)) >= k as real * share;
  }

  lemma ListedAtMostStays(contents: seq<Content>, ids: set<int>, m: nat, i: nat)
    requires i < |contents| && ListedAtMost(contents, ids, m)
    ensures ListedAtMost(Without(contents, i), ids - Ids(contents[i]), m) && AtMost(contents[i].minIds, ids, m)
  {
    assert contents[i] in contents;
    forall c | c in Without(contents, i)
      ensures AtMost(c.minIds, ids - Ids(contents[i]), m)
    {
      WithoutMembers(contents, i, c);
    }
  }

  // The step that covers d ids and counts b places.
  lemma CountedStepPays(k: nat, m: nat, n: nat, d: nat, b: nat)
    requires 0 < b && d <= b <= m * d && d <= n <= k * b
    ensures 1.0 + (m * k) as real * Harmonic(n - d) <= (m * k) as real * Harmonic(n)
  {
    Product(k, b, m, d);
    OneStepPays(m * k, n, d);
  }

  lemma Product(k: nat, b: nat, m: nat, d: nat)
    requires 0 < b <= m * d
    ensures d > 0 && k * b <= m * k * d
  {
    assert k * b <= k * (m * d);
    assert k * (m * d) == m * k * d;
  }

  // At most m * k * H(n) contents are chosen for n ids, if k contents cover
  // them and no content lists an uncovered id more than m times.
  lemma {:induction false} GreedyBound(contents: seq<Content>, ids: set<int>, cover: seq<Content>, m: nat)
    requires ListedAtMost(contents, ids, m) && IsCover(contents, ids, cover)
    ensures |Chosen(contents, ids)| as real <= (m * |cover|) as real * Harmonic(|Coverable(contents, ids)|)
    decreases |contents|
  {
    hide Coverable;
    hide Count;
    hide Without;
    hide BestIndex;
    hide Harmonic;
    hide AtMost;
    hide ListedAtMost;
    hide Ids;
    hide IsCover;
    var n, best := |Coverable(contents, ids)|, BestIndex(contents, ids);
    if best == -1 {
      HarmonicPositive(n);
    } else {
      var c := contents[best];
      var rest, ids' := Without(contents, best), ids - Ids(c);
      ListedAtMostStays(contents, ids, m, best);
      CoverStays(contents, ids, best, cover);
      GreedyBound(rest, ids', cover, m);
      StepRemovesItsCount(contents, ids, best, m);
      StepCoversItsShare(contents, ids, cover);
      BestIsBest(contents, ids);
      var d := n - |Coverable(rest, ids')|;
      DifferenceOf(contents, ids, best);
      CountedStepPays(|cover|, m, n, d, Count(c.minIds, ids));
    }
  }

  lemma DifferenceOf(contents: seq<Content>, ids: set<int>, i: nat)
    requires i < |contents|
    ensures |Coverable(Without(contents, i), ids - Ids(contents[i]))| <= |Coverable(contents, ids)|
  {
    StepRemoves(contents, ids, i);
  }

  lemma {:induction false} HarmonicPositive(n: nat)
    ensures Harmonic(n) >= 0.0
  {
    if n > 0 {
      HarmonicPositive(n - 1);
    }
  }

  lemma NothingLeft(contents: seq<Content>, ids: set<int>)
    requires BestIndex(contents, ids) == -1
    ensures Coverable(contents, ids) == {}
    ensures forall c :: c in contents ==> Ids(c) !! ids
  {
    BestIsBest(contents, ids);
    forall c | c in contents
      ensures Ids(c) !! ids
    {
      assert Count(c.minIds, ids) == 0;
      CountZero(c.minIds, ids);
      forall id | id in Ids(c)
        ensures id !in ids
      {
        assert id in c.minIds;
      }
    }
    forall id | id in AllIds(contents)
      ensures id !in ids
    {
      InAllIds(contents, id);
    }
  }

  // The chosen contents are among the given ones and hold every id that any of
  // them holds.
  lemma {:induction false} ChosenIsCover(contents: seq<Content>, ids: set<int>)
    ensures Coverable(contents, ids) <= AllIds(Chosen(contents, ids))
    ensures multiset(Chosen(contents, ids)) <= multiset(contents)
    decreases |contents|
  {
    var best := BestIndex(contents, ids);
    if best == -1 {
      NothingLeft(contents, ids);
    } else {
      ChosenIsCover(Without(contents, best), ids - Ids(contents[best]));
      StepRemoves(contents, ids, best);
      var chosen := Chosen(Without(contents, best), ids - Ids(contents[best]));
      assert Chosen(contents, ids)[1..] == chosen;
    }
  }

  // ----- contents without common ids -----

  // No uncovered id is in two of the contents.
  ghost predicate PairwiseDisjoint(contents: seq<Content>, ids: set<int>) {
    forall i, j, id :: 0 <= i < |contents| && 0 <= j < |contents| && i != j && id in ids ==>
      !(id in Ids(contents[i]) && id in Ids(contents[j]))
  }

  lemma DisjointStays(contents: seq<Content>, ids: set<int>, i: nat)
    requires i < |contents| && PairwiseDisjoint(contents, ids)
    ensures PairwiseDisjoint(Without(contents, i), ids - Ids(contents[i]))
  {
    var rest := Without(contents, i);
    forall j, k, id | 0 <= j < |rest| && 0 <= k < |rest| && j != k && id in ids
      ensures !(id in Ids(rest[j]) && id in Ids(rest[k]))
    {
      assert rest[j] == contents[if j < i then j else j + 1] && rest[k] == contents[if k < i then k else k + 1];
    }
  }

  // The content with an uncovered id of its own is in every cover.
  lemma OwnerIsInCover(contents: seq<Content>, ids: set<int>, i: nat, cover: seq<Content>)
    requires i < |contents| && PairwiseDisjoint(contents, ids) && IsCover(contents, ids, cover)
    requires exists id :: id in Ids(contents[i]) && id in ids
    ensures contents[i] in cover
  {
    var id :| id in Ids(contents[i]) && id in ids;
    MemberIds(contents, contents[i]);
    assert id in Coverable(contents, ids);
    InAllIds(cover, id);
    var c :| c in cover && id in Ids(c);
    assert !(Ids(c) !! ids);
    var j :| 0 <= j < |contents| && contents[j] == c;
    assert j == i;
  }

  lemma CoverWithout(contents: seq<Content>, ids: set<int>, i: nat, cover: seq<Content>, k: nat)
    requires i < |contents| && IsCover(contents, ids, cover) && k < |cover| && cover[k] == contents[i]
    ensures IsCover(Without(contents, i), ids - Ids(contents[i]), Without(cover, k))
  {
    CoverStays(contents, ids, i, cover);
    forall id | id in AllIds(cover) && id !in Ids(contents[i])
      ensures id in AllIds(Without(cover, k))
    {
      InAllIds(cover, id);
      var c :| c in cover && id in Ids(c);
      WithoutMembers(cover, k, c);
      InAllIds(Without(cover, k), id);
    }
    forall c | c in Without(cover, k)
      ensures c in cover
    {
      WithoutMembers(cover, k, c);
    }
  }

  // When no uncovered id is in two contents, no cover is smaller than the choice.
  lemma {:induction false} DisjointIsSmallest(contents: seq<Content>, ids: set<int>, cover: seq<Content>)
    requires PairwiseDisjoint(contents, ids) && IsCover(contents, ids, cover)
    ensures |Chosen(contents, ids)| <= |cover|
    decreases |contents|
  {
    hide IsCover;
    hide PairwiseDisjoint;
    hide BestIndex;
    hide Without;
    var best := BestIndex(contents, ids);
    if best >= 0 {
      var c := contents[best];
      BestIsBest(contents, ids);
      if forall id :: id in c.minIds ==> id !in ids {
        NothingToCount(c.minIds, ids);
      }
      OwnerIsInCover(contents, ids, best, cover);
      var k :| 0 <= k < |cover| && cover[k] == c;
      DisjointStays(contents, ids, best);
      CoverWithout(contents, ids, best, cover, k);
      DisjointIsSmallest(Without(contents, best), ids - Ids(c), Without(cover, k));
    }
  }

  // ----- what is not promised -----

  lemma CountOfTwo(a: int, b: int, ids: set<int>)
    ensures Count([a, b], ids) == (if a in ids then 1 else 0) + if b in ids then 1 else 0
  {
    assert [a, b][..1] == [a] && [a][..0] == [];
    assert Count([a], ids) == if a in ids then 1 else 0;
  }

  lemma ChosenFirst(contents: seq<Content>, ids: set<int>)
    requires contents != [] && Count(contents[0].minIds, ids) > 0
    requires forall c :: c in contents ==> Count(c.minIds, ids) <= Count(contents[0].minIds, ids)
    ensures Chosen(contents, ids) == [contents[0]] + Chosen(contents[1..], ids - Ids(contents[0]))
  {
    var best := BestIndex(contents, ids);
    assert contents[0] in contents && contents[best] in contents;
    BestIsBest(contents, ids);
    assert Without(contents, 0) == contents[1..];
  }

  lemma AllIdsOfTwo(a: Content, b: Content)
    ensures AllIds([a, b]) == Ids(a) + Ids(b)
  {
    assert [a, b][1..] == [b] && [b][1..] == [];
    assert AllIds([b]) == Ids(b) + AllIds([]);
  }

  lemma TwoIsACover(a: Content, b: Content, contents: seq<Content>, ids: set<int>)
    requires ids <= Ids(a) + Ids(b) && a in contents && b in contents
    ensures IsCover(contents, ids, [a, b])
  {
    AllIdsOfTwo(a, b);
  }

  lemma IdsOfTwo(name: string, x: int, y: int)
    ensures Ids(Content(name, [x, y])) == {x, y}
  {
    assert [x, y][0] in [x, y] && [x, y][1] in [x, y];
  }

  // Three contents are chosen where two would do.
  lemma NotMinimal()
    ensures var a, b, c := Content("a", [2, 3]), Content("b", [1, 2]), Content("c", [3, 4]);
            && ListedAtMost([a, b, c], {1, 2, 3, 4}, 1) && IsCover([a, b, c], {1, 2, 3, 4}, [b, c])
            && Chosen([a, b, c], {1, 2, 3, 4}) == [a, b, c]
  {
    hide Chosen;
    hide Count;
    hide IsCover;
    hide Ids;
    var a, b, c := Content("a", [2, 3]), Content("b", [1, 2]), Content("c", [3, 4]);
    IdsOfTwo("a", 2, 3);
    IdsOfTwo("b", 1, 2);
    IdsOfTwo("c", 3, 4);
    TwoIsACover(b, c, [a, b, c], {1, 2, 3, 4});
    CountOfTwo(2, 3, {1, 2, 3, 4});
    CountOfTwo(1, 2, {1, 2, 3, 4});
    CountOfTwo(3, 4, {1, 2, 3, 4});
    ChosenFirst([a, b, c], {1, 2, 3, 4});
    assert {1, 2, 3, 4} - Ids(a) == {1, 4} && [a, b, c][1..] == [b, c];
    CountOfTwo(1, 2, {1, 4});
    CountOfTwo(3, 4, {1, 4});
    ChosenFirst([b, c], {1, 4});
    assert {1, 4} - Ids(b) == {4} && [b, c][1..] == [c];
    CountOfTwo(3, 4, {4});
    ChosenFirst([c], {4});
    assert [c][1..] == [];
    ChosenNone({4} - Ids(c));
    assert [a] + ([b] + ([c] + [])) == [a, b, c];
  }

  lemma ChosenNone(ids: set<int>)
    ensures Chosen([], ids) == []
  {
  }

  // The bound fails for a content that lists an id again and again.
  lemma RepeatsBreakTheBound()
    ensures var a, b := Content("a", [1, 1, 1]), Content("b", [1, 2]);
            && IsCover([a, b], {1, 2}, [b])
            && Chosen([a, b], {1, 2}) == [a, b]
            && 2.0 > |[b]| as real * Harmonic(|Coverable([a, b], {1, 2})|)
  {
    hide Chosen;
    hide BestIndex;
    var a, b := Content("a", [1, 1, 1]), Content("b", [1, 2]);
    IdsOfTwo("b", 1, 2);
    assert Ids(a) == {1} by {
      assert [1, 1, 1][0] in [1, 1, 1];
    }
    CountOfThree({1, 2});
    CountOfTwo(1, 2, {1, 2});
    CountOfTwo(1, 2, {2});
    ChosenFirst([a, b], {1, 2});
    assert {1, 2} - Ids(a) == {2} && [a, b][1..] == [b];
    ChosenFirst([b], {2});
    assert [b][1..] == [];
    ChosenNone({2} - Ids(b));
    AllIdsOfTwo(a, b);
    assert AllIds([b]) == Ids(b) + AllIds([]);
    assert Coverable([a, b], {1, 2}) == {1, 2};
    assert Harmonic(1) == 1.0 && Harmonic(2) == 1.5;
  }

  lemma CountOfThree(ids: set<int>)
    requires 1 in ids
    ensures Count([1, 1, 1], ids) == 3
  {
    CountOfTwo(1, 1, ids);
    assert [1, 1, 1][..2] == [1, 1];
  }
}
