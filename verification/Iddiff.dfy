/** A translation patch: inserting into it, merging, filtering, accepting and
    rejecting translations. */
module Iddiffs {
  import opened IddiffPatching
  import opened IddiffSections
  import opened MessageTexts
  import opened Options
  import opened SortedIds
  import opened Translations

  // ----- the entry of one id after an insertion -----

  function WithRemoved(items: Items, id: int, item: Translation): Items {
    var c := ChangeAt(items, id);
    if item.msgstr in Texts(c.removed) then items else items[id := c.(removed := c.removed + [item])]
  }

  function WithAdded(items: Items, id: int, item: Translation): Items {
    var c := ChangeAt(items, id);
    if c.added != [] then items else items[id := c.(added := [item])]
  }

  function WithReview(items: Items, id: int, item: Translation): Items {
    items[id := ChangeAt(items, id).(review := Some(item))]
  }

  // Only the section of one id is different.
  ghost predicate Becomes(items: Items, id: int, s: Section, items': Items) {
    WellFormed(items') && forall x :: SectionAt(items', x) == if x == id then s else SectionAt(items, x)
  }

  lemma RemovedInserted(items: Items, id: int, item: Translation)
    requires WellFormed(items) && item.msgstr !in SectionAt(items, id).added
    ensures var s := SectionAt(items, id);
            Becomes(items, id, s.(removed := s.removed + {item.msgstr}), WithRemoved(items, id, item))
  {
    var c := ChangeAt(items, id);
    if item.msgstr in Texts(c.removed) {
      assert SectionAt(items, id).removed + {item.msgstr} == SectionAt(items, id).removed;
    } else {
      TextsPush(c.removed, item);
      assert forall i :: 0 <= i < |c.removed| ==> c.removed[i].msgstr in Texts(c.removed);
    }
  }

  lemma AddedInserted(items: Items, id: int, item: Translation)
    requires WellFormed(items) && item.msgstr !in SectionAt(items, id).removed
    requires SectionAt(items, id).added <= {item.msgstr}
    ensures var s := SectionAt(items, id);
            Becomes(items, id, s.(added := {item.msgstr}), WithAdded(items, id, item))
  {
    var c := ChangeAt(items, id);
    if c.added != [] {
      assert c.added[0].msgstr in Texts(c.added);
      assert SectionAt(items, id).added == {item.msgstr};
    } else {
      TextsPush([], item);
      assert [] + [item] == [item];
    }
  }

  lemma ReviewInserted(items: Items, id: int, item: Translation)
    requires WellFormed(items) && item.IsTranslated()
    ensures Becomes(items, id, SectionAt(items, id).(review := Some(item)), WithReview(items, id, item))
  {
  }

  // ----- the vectors of (id, translation) pairs of a patch -----

  type Entries = seq<(int, Translation)>

  function Pairs(id: int, list: seq<Translation>): Entries {
    seq(|list|, i requires 0 <= i < |list| => (id, list[i]))
  }

  function RemovedVector(items: Items, ids: seq<int>): Entries {
    if ids == [] then []
    else
      var n := |ids| - 1;
      RemovedVector(items, ids[..n]) + Pairs(ids[n], ChangeAt(items, ids[n]).removed)
  }

  function AddedVector(items: Items, ids: seq<int>): Entries {
    if ids == [] then []
    else
      var n := |ids| - 1;
      AddedVector(items, ids[..n]) + Pairs(ids[n], ChangeAt(items, ids[n]).added)
  }

  function ReviewVector(items: Items, ids: seq<int>): Entries {
    if ids == [] then []
    else
      var n := |ids| - 1;
      ReviewVector(items, ids[..n]) + ReviewPair(ids[n], ChangeAt(items, ids[n]).review)
  }

  function ReviewPair(id: int, review: Option<Translation>): Entries {
    if review.Some? then [(id, review.value)] else []
  }

  lemma {:induction false} RemovedVectorHas(items: Items, ids: seq<int>, p: (int, Translation))
    ensures p in RemovedVector(items, ids) <==> p.0 in ids && p.1 in ChangeAt(items, p.0).removed
  {
    if ids != [] {
      var n := |ids| - 1;
      assert ids == ids[..n] + [ids[n]];
      RemovedVectorHas(items, ids[..n], p);
      PairsHas(ids[n], ChangeAt(items, ids[n]).removed, p);
    }
  }

  lemma {:induction false} AddedVectorHas(items: Items, ids: seq<int>, p: (int, Translation))
    ensures p in AddedVector(items, ids) <==> p.0 in ids && p.1 in ChangeAt(items, p.0).added
  {
    if ids != [] {
      var n := |ids| - 1;
      assert ids == ids[..n] + [ids[n]];
      AddedVectorHas(items, ids[..n], p);
      PairsHas(ids[n], ChangeAt(items, ids[n]).added, p);
    }
  }

  lemma {:induction false} ReviewVectorHas(items: Items, ids: seq<int>, p: (int, Translation))
    ensures p in ReviewVector(items, ids) <==> p.0 in ids && ChangeAt(items, p.0).review == Some(p.1)
  {
    if ids != [] {
      var n := |ids| - 1;
      assert ids == ids[..n] + [ids[n]];
      ReviewVectorHas(items, ids[..n], p);
    }
  }

  lemma {:induction false} ReviewVectorDistinct(items: Items, ids: seq<int>)
    requires Increasing(ids)
    ensures var v := ReviewVector(items, ids); forall i, j :: 0 <= i < j < |v| ==> v[i].0 != v[j].0
  {
    if ids != [] {
      var n := |ids| - 1;
      ReviewVectorDistinct(items, ids[..n]);
      var v := ReviewVector(items, ids[..n]);
      forall i | 0 <= i < |v|
        ensures v[i].0 != ids[n]
      {
        ReviewVectorHas(items, ids[..n], v[i]);
      }
    }
  }

  // The vectors of a patch have the texts of its sections.
  lemma VectorTexts(items: Items, id: int)
    ensures TextsAt(RemovedVector(items, Ascending(items.Keys)), id) == SectionAt(items, id).removed
    ensures TextsAt(AddedVector(items, Ascending(items.Keys)), id) == SectionAt(items, id).added
  {
    var ids := Ascending(items.Keys);
    forall t
      ensures t in TextsAt(RemovedVector(items, ids), id) <==> t in SectionAt(items, id).removed
      ensures t in TextsAt(AddedVector(items, ids), id) <==> t in SectionAt(items, id).added
    {
      TextOfVectors(items, id, t);
    }
  }

  lemma TextOfVectors(items: Items, id: int, t: Text)
    ensures var ids := Ascending(items.Keys);
            && (t in TextsAt(RemovedVector(items, ids), id) <==> t in SectionAt(items, id).removed)
            && (t in TextsAt(AddedVector(items, ids), id) <==> t in SectionAt(items, id).added)
  {
    var ids, c := Ascending(items.Keys), ChangeAt(items, id);
    var r, a := RemovedVector(items, ids), AddedVector(items, ids);
    if t in TextsAt(r, id) {
      var p :| p in r && p.0 == id && p.1.msgstr == t;
      RemovedVectorHas(items, ids, p);
    }
    if t in Texts(c.removed) {
      var x :| x in c.removed && x.msgstr == t;
      RemovedVectorHas(items, ids, (id, x));
      assert (id, x) in r;
    }
    if t in TextsAt(a, id) {
      var p :| p in a && p.0 == id && p.1.msgstr == t;
      AddedVectorHas(items, ids, p);
    }
    if t in Texts(c.added) {
      var x :| x in c.added && x.msgstr == t;
      AddedVectorHas(items, ids, (id, x));
      assert (id, x) in a;
    }
  }

  lemma PairsHas(id: int, list: seq<Translation>, p: (int, Translation))
    ensures p in Pairs(id, list) <==> p.0 == id && p.1 in list
  {
    if p.0 == id && p.1 in list {
      var i :| 0 <= i < |list| && list[i] == p.1;
      assert Pairs(id, list)[i] == p;
    }
  }

  // The texts that a vector has for an id.
  ghost function TextsAt(v: Entries, id: int): set<Text> {
    set p | p in v && p.0 == id :: p.1.msgstr
  }

  lemma TextsAtPush(v: Entries, i: nat, id: int)
    requires i < |v|
    ensures TextsAt(v[..i + 1], id) == TextsAt(v[..i], id) + if v[i].0 == id then {v[i].1.msgstr} else {}
  {
    assert v[..i + 1] == v[..i] + [v[i]];
    assert forall p :: p in v[..i + 1] <==> p in v[..i] || p == v[i];
  }

  // After inserting a vector, each id has the texts of the vector as well.
  ghost predicate GainsRemoved(items: Items, v: Entries, items': Items) {
    forall id :: SectionAt(items', id) ==
      SectionAt(items, id).(removed := SectionAt(items, id).removed + TextsAt(v, id))
  }

  ghost predicate GainsAdded(items: Items, v: Entries, items': Items) {
    forall id :: SectionAt(items', id) ==
      SectionAt(items, id).(added := SectionAt(items, id).added + TextsAt(v, id))
  }

  lemma NothingAdded(items: Items)
    requires WellFormed(items)
    ensures GainsAdded(items, [], items)
    ensures forall id :: AddedOk(SectionAt(items, id), TextsAt([], id))
  {
    forall id
      ensures AddedOk(SectionAt(items, id), TextsAt([], id))
      ensures SectionAt(items, id).added + TextsAt([], id) == SectionAt(items, id).added
    {
      WellFormedSection(items, id);
    }
  }

  // The next entry of the vector is accepted, or in conflict with the outset.
  lemma AddedStep(before: Items, v: Entries, i: nat, here: Items)
    requires i < |v| && WellFormed(here) && GainsAdded(before, v[..i], here)
    requires forall id :: AddedOk(SectionAt(before, id), TextsAt(v[..i], id))
    ensures var (id, item) := v[i];
            if item.msgstr !in SectionAt(here, id).removed && SectionAt(here, id).added <= {item.msgstr} then
              var after := WithAdded(here, id, item);
              WellFormed(after) && GainsAdded(before, v[..i + 1], after)
              && forall x :: AddedOk(SectionAt(before, x), TextsAt(v[..i + 1], x))
            else !AddedOk(SectionAt(before, id), TextsAt(v, id))
  {
    var (id, item) := v[i];
    if item.msgstr !in SectionAt(here, id).removed && SectionAt(here, id).added <= {item.msgstr} {
      AddedInserted(here, id, item);
      forall x
        ensures AddedOk(SectionAt(before, x), TextsAt(v[..i + 1], x))
        ensures SectionAt(WithAdded(here, id, item), x) ==
                  SectionAt(before, x).(added := SectionAt(before, x).added + TextsAt(v[..i + 1], x))
      {
        TextsAtPush(v, i, x);
      }
    } else {
      AddedConflict(SectionAt(before, id), v, i);
    }
  }

  class Iddiff {
    var items: Items
    var minimizedIds: bool

    constructor ()
      ensures items == map[] && !minimizedIds
    {
      items, minimizedIds := map[], false;
    }

    // The ids that the patch says something about, in ascending order.
    function InvolvedIds(): seq<int>
      reads this
    {
      Ascending(items.Keys)
    }

    // The first translation of a list with the same strings.
    static method FindInList(list: seq<Translation>, item: Translation) returns (r: Option<nat>)
      ensures r.Some? <==> item.msgstr in Texts(list)
      ensures r.Some? ==> r.value < |list| && list[r.value].msgstr == item.msgstr
      ensures r.Some? ==> forall k :: 0 <= k < r.value ==> list[k].msgstr != item.msgstr
    {
      for i := 0 to |list|
        invariant forall k :: 0 <= k < i ==> list[k].msgstr != item.msgstr
      {
        EqualMsgstrIsEquality(list[i], item);
        if list[i].EqualMsgstr(item) {
          return Some(i);
        }
      }
      return None;
    }

    // Not ok: the text is accepted already.
    method InsertRemoved(id: int, item: Translation) returns (ok: bool)
      requires WellFormed(items)
      modifies this`items
      ensures ok <==> item.msgstr !in SectionAt(old(items), id).added
      ensures items == if ok then WithRemoved(old(items), id, item) else old(items)
      ensures WellFormed(items)
    {
      var c := ChangeAt(items, id);
      var removed := FindInList(c.removed, item);
      if removed.Some? {
        WellFormedSection(items, id);
        return true;
      }
      var added := FindInList(c.added, item);
      if added.Some? {
        return false;
      }
      RemovedInserted(items, id, item);
      items := items[id := c.(removed := c.removed + [item])];
      return true;
    }

    // Not ok: the text is rejected already, or another one is accepted.
    method InsertAdded(id: int, item: Translation) returns (ok: bool)
      requires WellFormed(items)
      modifies this`items
      ensures ok <==>
          item.msgstr !in SectionAt(old(items), id).removed && SectionAt(old(items), id).added <= {item.msgstr}
      ensures items == if ok then WithAdded(old(items), id, item) else old(items)
      ensures WellFormed(items)
    {
      var c := ChangeAt(items, id);
      var removed := FindInList(c.removed, item);
      if removed.Some? {
        return false;
      }
      for i := 0 to |c.added|
        invariant i == 0
      {
        EqualMsgstrIsEquality(c.added[i], item);
        assert c.added == [c.added[i]] && c.added[i].msgstr in Texts(c.added);
        assert WithAdded(items, id, item) == items;
        return c.added[i].EqualMsgstr(item);
      }
      assert c.added == [] && Texts(c.added) == {};
      AddedInserted(items, id, item);
      assert c.added + [item] == [item];
      items := items[id := c.(added := c.added + [item])];
      return true;
    }

    // Not ok: there is a review comment already, or the new one has no text.
    method InsertReview(id: int, item: Translation) returns (ok: bool)
      requires WellFormed(items)
      modifies this`items
      ensures ok <==> SectionAt(old(items), id).review.None? && item.IsTranslated()
      ensures ok ==> items == WithReview(old(items), id, item) && WellFormed(items)
    {
      if id !in items {
        items := items[id := NO_CHANGE];
      }
      if items[id].review.Some? || !item.IsTranslated() {
        return false;
      }
      ReviewInserted(old(items), id, item);
      items := items[id := items[id].(review := Some(item))];
      return true;
    }

    // ----- merging -----

    method InsertAllRemoved(v: Entries) returns (ok: bool)
      requires WellFormed(items)
      modifies this`items
      ensures ok <==> forall id :: TextsAt(v, id) !! SectionAt(old(items), id).added
      ensures ok ==> WellFormed(items)
      ensures ok ==> GainsRemoved(old(items), v, items)
    {
      ghost var before := items;
      for i := 0 to |v|
        invariant WellFormed(items)
        invariant forall id :: TextsAt(v[..i], id) !! SectionAt(before, id).added
        invariant GainsRemoved(before, v[..i], items)
      {
        ghost var here := items;
        var done := InsertRemoved(v[i].0, v[i].1);
        if !done {
          assert v[i] in v && v[i].1.msgstr in TextsAt(v, v[i].0);
          return false;
        }
        RemovedInserted(here, v[i].0, v[i].1);
        forall id
          ensures TextsAt(v[..i + 1], id) !! SectionAt(before, id).added
          ensures SectionAt(items, id) ==
                    SectionAt(before, id).(removed := SectionAt(before, id).removed + TextsAt(v[..i + 1], id))
        {
          TextsAtPush(v, i, id);
        }
      }
      assert v[..|v|] == v;
      return true;
    }

    method InsertAllAdded(v: Entries) returns (ok: bool)
      requires WellFormed(items)
      modifies this`items
      ensures ok <==> forall id :: AddedOk(SectionAt(old(items), id), TextsAt(v, id))
      ensures ok ==> WellFormed(items)
      ensures ok ==> GainsAdded(old(items), v, items)
    {
      hide WithAdded, AddedOk;
      ghost var before := items;
      NothingAdded(before);
      assert v[..0] == [];
      for i := 0 to |v|
        invariant WellFormed(items)
        invariant forall id :: AddedOk(SectionAt(before, id), TextsAt(v[..i], id))
        invariant GainsAdded(before, v[..i], items)
      {
        AddedStep(before, v, i, items);
        var done := InsertAdded(v[i].0, v[i].1);
        if !done {
          return false;
        }
      }
      assert v[..|v|] == v;
      return true;
    }

    method InsertAllReview(v: Entries) returns (ok: bool)
      requires WellFormed(items)
      requires forall i, j :: 0 <= i < j < |v| ==> v[i].0 != v[j].0
      requires forall i :: 0 <= i < |v| ==> v[i].1.IsTranslated()
      modifies this`items
      ensures ok <==> NoReviewYet(old(items), v)
      ensures ok ==> WellFormed(items) && GainsReviews(old(items), v, items)
    {
      ghost var before := items;
      for i := 0 to |v|
        invariant WellFormed(items)
        invariant forall k :: 0 <= k < i ==> SectionAt(before, v[k].0).review.None?
        invariant forall id :: SectionAt(items, id) == SectionAt(before, id).(review := ReviewIn(v[..i], before, id))
      {
        ghost var here := items;
        assert SectionAt(here, v[i].0).review == SectionAt(before, v[i].0).review;
        var done := InsertReview(v[i].0, v[i].1);
        if !done {
          return false;
        }
        ReviewInserted(here, v[i].0, v[i].1);
        forall id
          ensures SectionAt(items, id) == SectionAt(before, id).(review := ReviewIn(v[..i + 1], before, id))
        {
          ReviewInPush(v, i, before, id);
        }
      }
      assert v[..|v|] == v;
      return true;
    }

    static method AppendPairs(before: Entries, id: int, list: seq<Translation>) returns (res: Entries)
      ensures res == before + Pairs(id, list)
    {
      res := before;
      for k := 0 to |list|
        invariant res == before + Pairs(id, list)[..k]
      {
        res := res + [(id, list[k])];
      }
    }

    static method AppendReview(before: Entries, id: int, review: Option<Translation>) returns (res: Entries)
      ensures res == before + ReviewPair(id, review)
    {
      res := before;
      if review.Some? {
        res := res + [(id, review.value)];
      }
    }

    method GetRemovedVector() returns (res: Entries)
      ensures res == RemovedVector(items, InvolvedIds())
    {
      hide Pairs, ChangeAt, ReviewPair;
      res := [];
      var ids := InvolvedIds();
      for i := 0 to |ids|
        invariant res == RemovedVector(items, ids[..i])
      {
        res := AppendPairs(res, ids[i], ChangeAt(items, ids[i]).removed);
        assert ids[..i + 1][..i] == ids[..i] && ids[..i + 1][i] == ids[i];
      }
      assert ids[..|ids|] == ids;
    }

    method GetAddedVector() returns (res: Entries)
      ensures res == AddedVector(items, InvolvedIds())
    {
      hide Pairs, ChangeAt, ReviewPair;
      res := [];
      var ids := InvolvedIds();
      for i := 0 to |ids|
        invariant res == AddedVector(items, ids[..i])
      {
        res := AppendPairs(res, ids[i], ChangeAt(items, ids[i]).added);
        assert ids[..i + 1][..i] == ids[..i] && ids[..i + 1][i] == ids[i];
      }
      assert ids[..|ids|] == ids;
    }

    method GetReviewVector() returns (res: Entries)
      ensures res == ReviewVector(items, InvolvedIds())
    {
      hide Pairs, ChangeAt, ReviewPair;
      res := [];
      var ids := InvolvedIds();
      for i := 0 to |ids|
        invariant res == ReviewVector(items, ids[..i])
      {
        res := AppendReview(res, ids[i], ChangeAt(items, ids[i]).review);
        assert ids[..i + 1][..i] == ids[..i] && ids[..i + 1][i] == ids[i];
      }
      assert ids[..|ids|] == ids;
    }

    // Adds everything that another patch says. Not ok: the two are in conflict.
    method Merge(diff: Iddiff) returns (ok: bool)
      requires WellFormed(items) && WellFormed(diff.items)
      modifies this`items
      ensures MergesTo(old(items), old(diff.items), if ok then Some(items) else None)
    {
      ghost var a, b := items, diff.items;
      var otherRemoved := diff.GetRemovedVector();
      var otherAdded := diff.GetAddedVector();
      var otherReview := diff.GetReviewVector();
      ReviewsOf(b);
      ok := InsertAllRemoved(otherRemoved);
      if !ok {
        MergeRejects(a, b);
        return;
      }
      ghost var withRemoved := items;
      MergeRemoved(a, b, withRemoved);
      ok := InsertAllAdded(otherAdded);
      if !ok {
        MergeAdded(a, b, withRemoved);
        return;
      }
      ghost var withAdded := items;
      MergeAdded(a, b, withRemoved);
      MergeBoth(a, b, withRemoved, withAdded);
      ok := InsertAllReview(otherReview);
      if ok {
        MergeReviews(a, b, withAdded, items);
      } else {
        MergeReviewsClash(a, b, withAdded);
      }
    }

    // ----- filtering, accepting, rejecting -----

    // The entries of a vector whose text another patch does not reject / accept.
    method NotRemovedIn(v: Entries) returns (res: Entries)
      ensures forall id :: TextsAt(res, id) == TextsAt(v, id) - SectionAt(items, id).removed
    {
      res := [];
      for i := 0 to |v|
        invariant forall id :: TextsAt(res, id) == TextsAt(v[..i], id) - SectionAt(items, id).removed
      {
        var found := FindInList(ChangeAt(items, v[i].0).removed, v[i].1);
        ghost var before := res;
        if found.None? {
          res := res + [v[i]];
        }
        forall id
          ensures TextsAt(res, id) == TextsAt(v[..i + 1], id) - SectionAt(items, id).removed
        {
          TextsAtPush(v, i, id);
          TextsAtAppend(before, v[i], id);
        }
      }
      assert v[..|v|] == v;
    }

    method NotAddedIn(v: Entries) returns (res: Entries)
      ensures forall id :: TextsAt(res, id) == TextsAt(v, id) - SectionAt(items, id).added
    {
      res := [];
      for i := 0 to |v|
        invariant forall id :: TextsAt(res, id) == TextsAt(v[..i], id) - SectionAt(items, id).added
      {
        var found := FindInList(ChangeAt(items, v[i].0).added, v[i].1);
        ghost var before := res;
        if found.None? {
          res := res + [v[i]];
        }
        forall id
          ensures TextsAt(res, id) == TextsAt(v[..i + 1], id) - SectionAt(items, id).added
        {
          TextsAtPush(v, i, id);
          TextsAtAppend(before, v[i], id);
        }
      }
      assert v[..|v|] == v;
    }

    // Adds what `input` says and `filter` does not. Not ok: that is in conflict
    // with this patch, or the input has review comments.
    method FilterTrustedIddiff(filter: Iddiff, input: Iddiff) returns (ok: bool)
      requires WellFormed(items) && WellFormed(filter.items) && WellFormed(input.items)
      modifies this`items
      ensures ok <==> ReviewFree(old(input.items)) && AgreesWithRest(old(items), old(input.items), old(filter.items))
      ensures ok ==> WellFormed(items) && GainsRest(old(items), old(input.items), old(filter.items), items)
    {
      ghost var b, f := input.items, filter.items;
      var review := input.GetReviewVector();
      NoReviews(b);
      if review != [] {
        return false;
      }
      var otherRemoved := input.GetRemovedVector();
      var otherAdded := input.GetAddedVector();
      otherRemoved := filter.NotRemovedIn(otherRemoved);
      otherAdded := filter.NotAddedIn(otherAdded);
      RestVectors(b, f, otherRemoved, otherAdded);
      ok := InsertRest(otherRemoved, otherAdded, b, f);
    }

    method InsertRest(removed: Entries, added: Entries, ghost b: Items, ghost f: Items) returns (ok: bool)
      requires WellFormed(items) && WellFormed(b)
      requires forall id :: TextsAt(removed, id) == Rest(b, f, id).removed && TextsAt(added, id) == Rest(b, f, id).added
      modifies this`items
      ensures ok <==> AgreesWithRest(old(items), b, f)
      ensures ok ==> WellFormed(items) && GainsRest(old(items), b, f, items)
    {
      ghost var a := items;
      ok := InsertAllRemoved(removed);
      if !ok {
        ghost var id :| !(TextsAt(removed, id) !! SectionAt(a, id).added);
        AgreeWithRest(a, b, f, id);
        return;
      }
      ghost var c := items;
      ok := InsertAllAdded(added);
      if !ok {
        ghost var id :| !AddedOk(SectionAt(c, id), TextsAt(added, id));
        AgreeWithRest(a, b, f, id);
        return;
      }
      forall id
        ensures Agree(SectionAt(a, id), Rest(b, f, id))
        ensures SectionAt(items, id) == UnionOf(SectionAt(a, id), Rest(b, f, id))
      {
        AgreeWithRest(a, b, f, id);
      }
    }

    method ClearEmptyMessageData(id: int)
      modifies this`items
      ensures items == if id in old(items) && old(items)[id].Empty() then old(items) - {id} else old(items)
    {
      if id in items && items[id].Empty() {
        items := items - {id};
      }
    }

    // Erases one translation of a section; an entry that is left empty goes, too.
    method EraseRemoved(id: int, index: nat)
      requires WellFormed(items) && id in items && index < |items[id].removed|
      modifies this`items
      ensures var s, t := SectionAt(old(items), id), old(items)[id].removed[index].msgstr;
              Becomes(old(items), id, s.(removed := s.removed - {t}), items)
    {
      var c := items[id];
      var list := c.removed[..index] + c.removed[index + 1..];
      TextsWithout(c.removed, index);
      items := items[id := c.(removed := list)];
      ClearEmptyMessageData(id);
    }

    method EraseAdded(id: int, index: nat)
      requires WellFormed(items) && id in items && index < |items[id].added|
      modifies this`items
      ensures var s := SectionAt(old(items), id);
              Becomes(old(items), id, s.(added := {}), items)
    {
      var c := items[id];
      var list := c.added[..index] + c.added[index + 1..];
      items := items[id := c.(added := list)];
      ClearEmptyMessageData(id);
    }

    // Accepts a translation and no longer rejects it. Not ok: another one is
    // accepted. (The code means to replace that one, but inserts the new text
    // before it takes away the old one, which the insertion does not permit.)
    method AcceptTranslation(id: int, item: Translation) returns (ok: bool)
      requires WellFormed(items) && id != 0
      modifies this`items
      ensures ok <==> SectionAt(old(items), id).added <= {item.msgstr}
      ensures ok ==> var s := SectionAt(old(items), id);
                Becomes(old(items), id, s.(removed := s.removed - {item.msgstr}, added := {item.msgstr}), items)
    {
      var removed := FindInList(ChangeAt(items, id).removed, item);
      if removed.Some? {
        EraseRemoved(id, removed.value);
      }
      ghost var erased := items;
      AddedIsSingle(items, id);
      if ChangeAt(items, id).added == [] {
        ok := InsertAdded(id, item);
        AddedInserted(erased, id, item);
      } else {
        EqualMsgstrIsEquality(items[id].added[0], item);
        ok := items[id].added[0].EqualMsgstr(item);
        if !ok {
          ok := InsertAdded(id, item);
          assert !ok;
        }
      }
    }

    // Rejects a translation and no longer accepts it.
    method RejectTranslation(id: int, item: Translation)
      requires WellFormed(items) && id != 0
      modifies this`items
      ensures var s := SectionAt(old(items), id);
              Becomes(old(items), id, s.(removed := s.removed + {item.msgstr}, added := s.added - {item.msgstr}), items)
    {
      AddedIsSingle(items, id);
      if ChangeAt(items, id).added != [] {
        EqualMsgstrIsEquality(items[id].added[0], item);
        if items[id].added[0].EqualMsgstr(item) {
          EraseAdded(id, 0);
        }
      }
      ghost var erased := items;
      var ok := InsertRemoved(id, item);
      RemovedInserted(erased, id, item);
    }

    // ----- renaming ids -----

    // Not ok: there is an entry under the new id already.
    method SubstituteMsgId(oldId: int, newId: int) returns (ok: bool)
      requires WellFormed(items)
      modifies this`items
      ensures ok <==> oldId == newId || newId !in old(items)
      ensures items == if ok && oldId != newId && oldId in old(items)
                       then (old(items) - {oldId})[newId := old(items)[oldId]]
                       else old(items)
      ensures WellFormed(items)
    {
      if oldId == newId {
        return true;
      }
      ClearEmptyMessageData(oldId);
      ClearEmptyMessageData(newId);
      if newId in items {
        return false;
      }
      if oldId in items {
        items := items[newId := items[oldId]];
        items := items - {oldId};
      }
      return true;
    }

    // Gives every entry the minimized id of its message. Not ok: two of them
    // have the same.
    method MinimizeIds(minimize: int -> int) returns (ok: bool)
      requires WellFormed(items)
      requires forall x :: x in items ==> minimize(x) <= x
      modifies this
      ensures ok <==> InjectiveOn(minimize, old(items).Keys)
      ensures ok ==> minimizedIds && WellFormed(items) && IsRenaming(old(items), minimize, items)
    {
      hide RenamedTo, HeldUnder;
      ghost var before := items;
      var ids := InvolvedIds();
      RenameStart(before, minimize, ids);
      for i := 0 to |ids|
        invariant RenamedTo(before, minimize, ids, i, items) && WellFormed(items)
      {
        ghost var now := items;
        StillThere(before, minimize, ids, i, now);
        ok := SubstituteMsgId(ids[i], minimize(ids[i]));
        if !ok {
          RenameClash(before, minimize, ids, i, now);
          return false;
        }
        RenameNext(before, minimize, ids, i, now);
      }
      RenamedAll(before, minimize, ids, items);
      minimizedIds := true;
      return true;
    }

    // ----- the difference of two files -----

    // Makes this the patch from file A to file B, whose messages have the ids
    // from firstId on. Not ok: a message is empty and yet marked fuzzy.
    method DiffFiles(firstId: int, a: seq<State>, b: seq<State>) returns (ok: bool)
      requires firstId > 0 && |a| <= |b|
      requires forall i :: 0 <= i < |a| ==> Fresh(a[i]) && Fresh(b[i])
      modifies this`items
      ensures ok <==> forall i :: 0 <= i < |a| ==> Legal(a[i]) && Legal(b[i])
      ensures ok ==> WellFormed(items) && IsDiff(firstId, a, b, |a|, items)
    {
      items := map[];
      for index := 0 to |a|
        invariant forall i :: 0 <= i < index ==> Legal(a[i]) && Legal(b[i])
        invariant WellFormed(items) && IsDiff(firstId, a, b, index, items)
      {
        ok := DiffMessage(firstId + index, a[index], b[index]);
        if !ok {
          return false;
        }
      }
      return true;
    }

    method DiffMessage(id: int, a: State, b: State) returns (ok: bool)
      requires WellFormed(items) && Fresh(a) && Fresh(b) && ChangeAt(items, id) == NO_CHANGE
      modifies this`items
      ensures ok <==> Legal(a) && Legal(b)
      ensures WellFormed(items)
      ensures ok ==> forall x :: ChangeAt(items, x) == if x == id then DiffChange(a, b) else ChangeAt(old(items), x)
    {
      var indexCode := IndexCode(a, b);
      TableMeaning(a, b);
      if NEED_REMOVED[indexCode] == -1 || NEED_ADDED[indexCode] == -1 {
        return false;
      }
      if NEED_REMOVED[indexCode] != 0 {
        var done := InsertRemoved(id, a.AsTranslation());
        assert done;
      }
      assert ChangeAt(items, id).removed == DiffChange(a, b).removed;
      assert SectionAt(items, id).removed <= {a.msgstr} && SectionAt(items, id).added == {};
      if NEED_ADDED[indexCode] != 0 {
        assert a.msgstr == b.msgstr ==> !DropsText(a, b);
        var done := InsertAdded(id, b.AsTranslation());
        assert done;
      }
      return true;
    }

    // ----- applying the patch -----

    method CanDropMessage(message: Message, minId: int) returns (can: bool)
      ensures can <==> CanDrop(ChangeAt(items, minId), message.Get())
    {
      if message.fuzzy || message.untranslated {
        return true;
      }
      var found := FindInList(ChangeAt(items, minId).removed, Translation(message.fuzzy, message.msgstr));
      return found.Some?;
    }

    // Not ok: another translation has been put in meanwhile, or the accepted one
    // has a different number of plural forms.
    method ApplyToMessage(message: Message, minId: int) returns (ok: bool)
      requires WellFormed(items) && NoNulls(message.msgstr)
      modifies message
      ensures var r := Applied(ChangeAt(old(items), minId), old(message.Get()));
              ok == r.Some? && message.Get() == if ok then r.value else old(message.Get())
    {
      AddedIsSingle(items, minId);
      var added := ChangeAt(items, minId).added;
      var can := CanDropMessage(message, minId);
      if can {
        if added != [] {
          if |added[0].msgstr| != |message.msgstr| {
            return false;
          }
          CopyTranslationsToMessage(added[0], message);
          message.EditFuzzy(false);
        } else {
          message.EditFuzzy(true);
        }
      } else if added != [] && !added[0].EqualTranslations(message.Get().AsTranslation()) {
        return false;
      }
      return true;
    }

    // Applies the patch to the messages that it is about.
    method ApplyToContent(messages: seq<Message>, minIds: seq<int>) returns (ok: bool)
      requires WellFormed(items) && |messages| == |minIds|
      requires forall i, j :: 0 <= i < j < |messages| ==> messages[i] != messages[j]
      requires forall i :: 0 <= i < |messages| ==> NoNulls(messages[i].msgstr)
      modifies messages
      ensures ok <==> forall i :: 0 <= i < |messages| ==> AppliedAt(items, minIds[i], old(messages[i].Get())).Some?
      ensures ok ==> forall i :: 0 <= i < |messages| ==>
                Some(messages[i].Get()) == AppliedAt(items, minIds[i], old(messages[i].Get()))
      ensures forall i :: 0 <= i < |messages| && minIds[i] !in items ==> messages[i].Get() == old(messages[i].Get())
    {
      for i := 0 to |messages|
        invariant forall k :: 0 <= k < i ==>
                    Some(messages[k].Get()) == AppliedAt(items, minIds[k], old(messages[k].Get()))
        invariant forall k :: i <= k < |messages| ==> messages[k].Get() == old(messages[k].Get())
        invariant forall k :: 0 <= k < |messages| && minIds[k] !in items ==> messages[k].Get() == old(messages[k].Get())
      {
        assert messages[i].Get() == old(messages[i].Get());
        if minIds[i] in items {
          ok := ApplyToMessage(messages[i], minIds[i]);
          if !ok {
            assert AppliedAt(items, minIds[i], old(messages[i].Get())).None?;
            return false;
          }
        }
      }
      return true;
    }
  }

  // Accepting these texts too leaves one accepted text, and none that is rejected.
  ghost predicate AddedOk(s: Section, more: set<Text>) {
    SectionOk(s.(added := s.added + more))
  }

  lemma AddedConflict(s: Section, v: Entries, i: nat)
    requires i < |v|
    requires v[i].1.msgstr in s.removed || !(s.added + TextsAt(v[..i], v[i].0) <= {v[i].1.msgstr})
    ensures !AddedOk(s, TextsAt(v, v[i].0))
  {
    var t := v[i].1.msgstr;
    assert v[i] in v && t in TextsAt(v, v[i].0);
    assert forall p :: p in v[..i] ==> p in v;
    if t !in s.removed {
      var u :| u in s.added + TextsAt(v[..i], v[i].0) && u != t;
      assert u in s.added + TextsAt(v, v[i].0);
    }
  }

  // The review comment of an id, once the vector is inserted.
  ghost function ReviewIn(v: Entries, items: Items, id: int): Option<Translation> {
    if exists i :: 0 <= i < |v| && v[i].0 == id
    then var i :| 0 <= i < |v| && v[i].0 == id; Some(v[i].1)
    else SectionAt(items, id).review
  }

  lemma ReviewInPush(v: Entries, i: nat, items: Items, id: int)
    requires i < |v| && forall i, j :: 0 <= i < j < |v| ==> v[i].0 != v[j].0
    ensures ReviewIn(v[..i + 1], items, id) == if v[i].0 == id then Some(v[i].1) else ReviewIn(v[..i], items, id)
  {
    var w := v[..i + 1];
    assert w[i] == v[i];
    if v[i].0 != id {
      if k :| 0 <= k < |v[..i]| && v[..i][k].0 == id {
        assert w[k] == v[..i][k];
      }
    }
  }

  // ----- the steps of a merge, section by section -----

  // What the review vector of a well-formed patch is like.
  lemma ReviewsOf(b: Items)
    requires WellFormed(b)
    ensures var v := ReviewVector(b, Ascending(b.Keys));
            && (forall i, j :: 0 <= i < j < |v| ==> v[i].0 != v[j].0)
            && (forall i :: 0 <= i < |v| ==> v[i].1.IsTranslated() && SectionAt(b, v[i].0).review == Some(v[i].1))
            && (forall id :: SectionAt(b, id).review.Some? ==>
                  exists i :: 0 <= i < |v| && v[i] == (id, SectionAt(b, id).review.value))
  {
    var ids := Ascending(b.Keys);
    var v := ReviewVector(b, ids);
    ReviewVectorDistinct(b, ids);
    forall i | 0 <= i < |v|
      ensures v[i].1.IsTranslated() && SectionAt(b, v[i].0).review == Some(v[i].1)
    {
      ReviewVectorHas(b, ids, v[i]);
    }
    forall id | SectionAt(b, id).review.Some?
      ensures exists i :: 0 <= i < |v| && v[i] == (id, SectionAt(b, id).review.value)
    {
      ReviewVectorHas(b, ids, (id, SectionAt(b, id).review.value));
    }
  }

  // Agreement, in the order in which a merge tests it.
  lemma AgreeStepwise(s: Section, t: Section)
    requires SectionOk(s) && SectionOk(t)
    ensures Agree(s, t) <==>
            && t.removed !! s.added
            && AddedOk(s.(removed := s.removed + t.removed), t.added)
            && !(s.review.Some? && t.review.Some?)
  {
  }

  lemma MergeRejects(a: Items, b: Items)
    requires WellFormed(a) && WellFormed(b)
    requires !(forall id :: TextsAt(RemovedVector(b, Ascending(b.Keys)), id) !! SectionAt(a, id).added)
    ensures !Compatible(a, b)
  {
    var id :| !(TextsAt(RemovedVector(b, Ascending(b.Keys)), id) !! SectionAt(a, id).added);
    VectorTexts(b, id);
    WellFormedSection(a, id);
    WellFormedSection(b, id);
    AgreeStepwise(SectionAt(a, id), SectionAt(b, id));
  }

  ghost predicate HasBothRemoved(a: Items, b: Items, c: Items) {
    forall id :: SectionAt(c, id) ==
      SectionAt(a, id).(removed := SectionAt(a, id).removed + SectionAt(b, id).removed)
  }

  lemma MergeRemoved(a: Items, b: Items, c: Items)
    requires GainsRemoved(a, RemovedVector(b, Ascending(b.Keys)), c)
    ensures HasBothRemoved(a, b, c)
  {
    forall id
      ensures SectionAt(c, id) == SectionAt(a, id).(removed := SectionAt(a, id).removed + SectionAt(b, id).removed)
    {
      VectorTexts(b, id);
    }
  }

  ghost predicate AddedVectorOk(c: Items, v: Entries) {
    forall id :: AddedOk(SectionAt(c, id), TextsAt(v, id))
  }

  lemma MergeAdded(a: Items, b: Items, c: Items)
    requires WellFormed(a) && WellFormed(b) && WellFormed(c) && HasBothRemoved(a, b, c)
    ensures !AddedVectorOk(c, AddedVector(b, Ascending(b.Keys))) ==> !Compatible(a, b)
  {
    if !AddedVectorOk(c, AddedVector(b, Ascending(b.Keys))) {
      var id :| !AddedOk(SectionAt(c, id), TextsAt(AddedVector(b, Ascending(b.Keys)), id));
      VectorTexts(b, id);
      WellFormedSection(a, id);
      WellFormedSection(b, id);
      AgreeStepwise(SectionAt(a, id), SectionAt(b, id));
    }
  }

  ghost predicate HasBoth(a: Items, b: Items, c: Items) {
    forall id :: SectionAt(c, id) == UnionOf(SectionAt(a, id), SectionAt(b, id)).(review := SectionAt(a, id).review)
  }

  lemma MergeBoth(a: Items, b: Items, c: Items, d: Items)
    requires HasBothRemoved(a, b, c) && GainsAdded(c, AddedVector(b, Ascending(b.Keys)), d)
    ensures HasBoth(a, b, d)
  {
    forall id
      ensures SectionAt(d, id) == UnionOf(SectionAt(a, id), SectionAt(b, id)).(review := SectionAt(a, id).review)
    {
      VectorTexts(b, id);
    }
  }

  // All review comments of the vector find their place free.
  ghost predicate NoReviewYet(c: Items, v: Entries) {
    forall i :: 0 <= i < |v| ==> SectionAt(c, v[i].0).review.None?
  }

  ghost predicate GainsReviews(c: Items, v: Entries, d: Items) {
    forall id :: SectionAt(d, id) == SectionAt(c, id).(review := ReviewIn(v, c, id))
  }

  lemma MergeReviews(a: Items, b: Items, c: Items, d: Items)
    requires WellFormed(a) && WellFormed(b) && WellFormed(d) && HasBoth(a, b, c)
    requires NoReviewYet(c, ReviewVector(b, Ascending(b.Keys)))
    requires GainsReviews(c, ReviewVector(b, Ascending(b.Keys)), d)
    ensures MergesTo(a, b, Some(d))
  {
    hide ReviewIn, Agree, UnionOf, HasBoth, Texts, SectionOf;
    forall id
      ensures Agree(SectionAt(a, id), SectionAt(b, id))
      ensures SectionAt(d, id) == UnionOf(SectionAt(a, id), SectionAt(b, id))
    {
      WellFormedSection(d, id);
      ReviewOfBoth(a, b, c, d, id);
    }
  }

  lemma MergeReviewsClash(a: Items, b: Items, c: Items)
    requires WellFormed(a) && WellFormed(b) && HasBoth(a, b, c)
    requires !NoReviewYet(c, ReviewVector(b, Ascending(b.Keys)))
    ensures !Compatible(a, b)
  {
    var v := ReviewVector(b, Ascending(b.Keys));
    ReviewsOf(b);
    var i :| 0 <= i < |v| && SectionAt(c, v[i].0).review.Some?;
    BothReviewed(a, b, c, v[i].0);
  }

  lemma BothReviewed(a: Items, b: Items, c: Items, id: int)
    requires HasBoth(a, b, c) && SectionAt(c, id).review.Some? && SectionAt(b, id).review.Some?
    ensures !Agree(SectionAt(a, id), SectionAt(b, id))
  {
  }

  lemma ReviewOfBoth(a: Items, b: Items, c: Items, d: Items, id: int)
    requires WellFormed(b) && HasBoth(a, b, c) && SectionOk(SectionAt(d, id))
    requires var v := ReviewVector(b, Ascending(b.Keys));
             && (forall i :: 0 <= i < |v| ==> SectionAt(c, v[i].0).review.None?)
             && SectionAt(d, id) == SectionAt(c, id).(review := ReviewIn(v, c, id))
    ensures Agree(SectionAt(a, id), SectionAt(b, id))
    ensures SectionAt(d, id) == UnionOf(SectionAt(a, id), SectionAt(b, id))
  {
    var v := ReviewVector(b, Ascending(b.Keys));
    ReviewsOf(b);
    if SectionAt(b, id).review.Some? {
      var i :| 0 <= i < |v| && v[i] == (id, SectionAt(b, id).review.value);
      assert SectionAt(c, id).review.None? && ReviewIn(v, c, id) == SectionAt(b, id).review;
    } else {
      assert forall i :: 0 <= i < |v| ==> v[i].0 != id;
    }
  }

  // ----- the steps of filtering -----

  // What one patch says about an id and another does not.
  function Rest(b: Items, f: Items, id: int): Section {
    Section(SectionAt(b, id).removed - SectionAt(f, id).removed, SectionAt(b, id).added - SectionAt(f, id).added, None)
  }

  ghost predicate AgreesWithRest(a: Items, b: Items, f: Items) {
    forall id :: Agree(SectionAt(a, id), Rest(b, f, id))
  }

  ghost predicate GainsRest(a: Items, b: Items, f: Items, c: Items) {
    forall id :: SectionAt(c, id) == UnionOf(SectionAt(a, id), Rest(b, f, id))
  }

  // What the result of filtering says: what was said, and what the input says
  // and the filter does not.
  lemma FilterSays(a: Items, b: Items, f: Items, c: Items, id: int, t: Text)
    requires GainsRest(a, b, f, c)
    ensures t in Texts(ChangeAt(c, id).removed) <==>
            t in Texts(ChangeAt(a, id).removed) ||
            (t in Texts(ChangeAt(b, id).removed) && t !in Texts(ChangeAt(f, id).removed))
    ensures t in Texts(ChangeAt(c, id).added) <==>
            t in Texts(ChangeAt(a, id).added) ||
            (t in Texts(ChangeAt(b, id).added) && t !in Texts(ChangeAt(f, id).added))
    ensures ChangeAt(c, id).review == ChangeAt(a, id).review
  {
    assert SectionAt(c, id) == UnionOf(SectionAt(a, id), Rest(b, f, id));
  }

  lemma NoReviews(b: Items)
    requires WellFormed(b)
    ensures ReviewVector(b, Ascending(b.Keys)) == [] <==> ReviewFree(b)
  {
    ReviewsOf(b);
    var v := ReviewVector(b, Ascending(b.Keys));
    if v != [] {
      ReviewVectorHas(b, Ascending(b.Keys), v[0]);
      assert SectionAt(b, v[0].0).review == Some(v[0].1);
    }
  }

  lemma TextsAtAppend(v: Entries, p: (int, Translation), id: int)
    ensures TextsAt(v + [p], id) == TextsAt(v, id) + if p.0 == id then {p.1.msgstr} else {}
  {
    assert forall q :: q in v + [p] <==> q in v || q == p;
  }

  lemma RestVectors(b: Items, f: Items, removed: Entries, added: Entries)
    requires forall id :: TextsAt(removed, id) ==
               TextsAt(RemovedVector(b, Ascending(b.Keys)), id) - SectionAt(f, id).removed
    requires forall id :: TextsAt(added, id) ==
               TextsAt(AddedVector(b, Ascending(b.Keys)), id) - SectionAt(f, id).added
    ensures forall id :: TextsAt(removed, id) == Rest(b, f, id).removed
    ensures forall id :: TextsAt(added, id) == Rest(b, f, id).added
  {
    forall id
      ensures TextsAt(removed, id) == Rest(b, f, id).removed && TextsAt(added, id) == Rest(b, f, id).added
    {
      VectorTexts(b, id);
    }
  }

  lemma AgreeWithRest(a: Items, b: Items, f: Items, id: int)
    requires WellFormed(a) && WellFormed(b)
    ensures var s, t := SectionAt(a, id), Rest(b, f, id);
            Agree(s, t) <==> t.removed !! s.added && AddedOk(s.(removed := s.removed + t.removed), t.added)
  {
    WellFormedSection(a, id);
    WellFormedSection(b, id);
    AgreeStepwise(SectionAt(a, id), Rest(b, f, id));
  }

  // ----- lists after erasing -----

  lemma TextsWithout(list: seq<Translation>, index: nat)
    requires Distinct(list) && index < |list|
    ensures var rest := list[..index] + list[index + 1..];
            Distinct(rest) && Texts(rest) == Texts(list) - {list[index].msgstr}
  {
    var rest := list[..index] + list[index + 1..];
    forall t
      ensures t in Texts(rest) <==> t in Texts(list) && t != list[index].msgstr
    {
      if t in Texts(rest) {
        var i :| 0 <= i < |rest| && rest[i].msgstr == t;
        assert rest[i] == if i < index then list[i] else list[i + 1];
        assert rest[i] in list;
      }
      if t in Texts(list) && t != list[index].msgstr {
        var i :| 0 <= i < |list| && list[i].msgstr == t;
        assert list[i] == if i < index then rest[i] else rest[i - 1];
        assert list[i] in rest;
      }
    }
    assert forall i :: 0 <= i < |rest| ==> rest[i] == if i < index then list[i] else list[i + 1];
  }

  lemma AddedIsSingle(items: Items, id: int)
    requires WellFormed(items)
    ensures var c := ChangeAt(items, id);
            if c.added == [] then SectionAt(items, id).added == {}
            else |c.added| == 1 && SectionAt(items, id).added == {c.added[0].msgstr}
  {
  }

  // ----- the steps of renaming -----

  ghost predicate RenamesDown(items: Items, m: int -> int, ids: seq<int>) {
    Increasing(ids) && (forall x :: x in ids <==> x in items) && forall x :: x in items ==> m(x) <= x
  }

  // What comes before in the order has a smaller id, new or old.
  lemma IdsBelow(items: Items, m: int -> int, ids: seq<int>, i: nat, k: nat)
    requires RenamesDown(items, m, ids) && k < i < |ids|
    ensures IdAfter(m, ids, i, k) <= ids[k] < ids[i] && ids[k] in items && ids[i] in items
  {
    assert ids[k] in ids && ids[i] in ids;
  }

  lemma RenameClash(items: Items, m: int -> int, ids: seq<int>, i: nat, now: Items)
    requires RenamesDown(items, m, ids) && i < |ids| && RenamedTo(items, m, ids, i, now)
    requires m(ids[i]) != ids[i] && m(ids[i]) in now
    ensures !InjectiveOn(m, items.Keys)
  {
    var y := m(ids[i]);
    assert IsIdAfter(m, ids, i, y);
    var k :| 0 <= k < |ids| && IdAfter(m, ids, i, k) == y;
    assert ids[i] in ids && y < ids[i];
    assert forall j :: i <= j < |ids| ==> ids[i] <= ids[j];
    IdsBelow(items, m, ids, i, k);
    assert ids[k] in items.Keys && ids[i] in items.Keys && m(ids[k]) == m(ids[i]);
  }

  lemma RenameStart(items: Items, m: int -> int, ids: seq<int>)
    requires forall x :: x in ids <==> x in items
    ensures RenamedTo(items, m, ids, 0, items)
  {
    forall k | 0 <= k < |ids|
      ensures ids[k] in items
    {
      var x := ids[k];
      assert x in ids;
    }
    forall y | y in items
      ensures IsIdAfter(m, ids, 0, y)
    {
      var k :| 0 <= k < |ids| && ids[k] == y;
      assert IdAfter(m, ids, 0, k) == y;
    }
  }

  lemma StillThere(items: Items, m: int -> int, ids: seq<int>, i: nat, now: Items)
    requires i < |ids| && RenamedTo(items, m, ids, i, now)
    ensures ids[i] in items && ids[i] in now && now[ids[i]] == items[ids[i]]
  {
    assert HeldUnder(items, ids[i], IdAfter(m, ids, i, i), now);
  }

  // The ids other than the one at hand stay, and are neither its old nor its new one.
  lemma OthersStay(items: Items, m: int -> int, ids: seq<int>, i: nat, k: nat, now: Items)
    requires RenamesDown(items, m, ids) && i < |ids| && k < |ids| && k != i
    requires RenamedTo(items, m, ids, i, now)
    requires m(ids[i]) == ids[i] || m(ids[i]) !in now
    ensures ids[k] in items
    ensures var z := IdAfter(m, ids, i, k);
            z == IdAfter(m, ids, i + 1, k) && z != ids[i] && z != m(ids[i]) && HeldUnder(items, ids[k], z, now)
  {
    assert ids[k] in items && HeldUnder(items, ids[k], IdAfter(m, ids, i, k), now);
    if k < i {
      IdsBelow(items, m, ids, i, k);
    } else {
      assert ids[i] < ids[k] && ids[i] in ids;
    }
  }

  // The patch once entry i of the ids is under its new id.
  function Moved(now: Items, x: int, y: int): Items
    requires x in now
  {
    if x == y then now else (now - {x})[y := now[x]]
  }

  lemma MovedHolds(items: Items, m: int -> int, ids: seq<int>, i: nat, k: nat, now: Items)
    requires RenamesDown(items, m, ids) && i < |ids| && k < |ids| && RenamedTo(items, m, ids, i, now)
    requires (m(ids[i]) == ids[i] || m(ids[i]) !in now) && ids[i] in now
    ensures ids[k] in items && HeldUnder(items, ids[k], IdAfter(m, ids, i + 1, k), Moved(now, ids[i], m(ids[i])))
  {
    StillThere(items, m, ids, i, now);
    if k != i {
      OthersStay(items, m, ids, i, k, now);
    }
  }

  lemma MovedOnly(items: Items, m: int -> int, ids: seq<int>, i: nat, z: int, now: Items)
    requires RenamesDown(items, m, ids) && i < |ids| && RenamedTo(items, m, ids, i, now)
    requires (m(ids[i]) == ids[i] || m(ids[i]) !in now) && ids[i] in now
    requires z in Moved(now, ids[i], m(ids[i]))
    ensures IsIdAfter(m, ids, i + 1, z)
  {
    if z == m(ids[i]) {
      assert IdAfter(m, ids, i + 1, i) == z;
    } else {
      assert IsIdAfter(m, ids, i, z);
      var k :| 0 <= k < |ids| && IdAfter(m, ids, i, k) == z;
      OthersStay(items, m, ids, i, k, now);
      assert IdAfter(m, ids, i + 1, k) == z;
    }
  }

  lemma RenameNext(items: Items, m: int -> int, ids: seq<int>, i: nat, now: Items)
    requires RenamesDown(items, m, ids) && i < |ids| && RenamedTo(items, m, ids, i, now)
    requires (m(ids[i]) == ids[i] || m(ids[i]) !in now) && ids[i] in now
    ensures RenamedTo(items, m, ids, i + 1, Moved(now, ids[i], m(ids[i])))
  {
    hide HeldUnder, IsIdAfter, Moved;
    var next := Moved(now, ids[i], m(ids[i]));
    forall k | 0 <= k < |ids|
      ensures ids[k] in items && HeldUnder(items, ids[k], IdAfter(m, ids, i + 1, k), next)
    {
      MovedHolds(items, m, ids, i, k, now);
    }
    forall z | z in next
      ensures IsIdAfter(m, ids, i + 1, z)
    {
      MovedOnly(items, m, ids, i, z, now);
    }
    forall j | 0 <= j < i
      ensures m(ids[j]) != m(ids[i])
    {
      OthersStay(items, m, ids, i, j, now);
    }
  }

  lemma RenamedAll(items: Items, m: int -> int, ids: seq<int>, now: Items)
    requires forall x :: x in ids <==> x in items
    requires RenamedTo(items, m, ids, |ids|, now)
    ensures IsRenaming(items, m, now) && InjectiveOn(m, items.Keys)
  {
    forall x | x in items
      ensures m(x) in now && now[m(x)] == items[x]
    {
      var k :| 0 <= k < |ids| && ids[k] == x;
      assert HeldUnder(items, ids[k], IdAfter(m, ids, |ids|, k), now);
    }
    forall y | y in now
      ensures exists x :: x in items && m(x) == y
    {
      assert IsIdAfter(m, ids, |ids|, y);
      var k :| 0 <= k < |ids| && IdAfter(m, ids, |ids|, k) == y;
      assert ids[k] in items;
    }
    forall x, y | x in items.Keys && y in items.Keys && m(x) == m(y)
      ensures x == y
    {
      var i :| 0 <= i < |ids| && ids[i] == x;
      var j :| 0 <= j < |ids| && ids[j] == y;
    }
  }

  // The patch holds the change of each of the first n messages, and nothing else.
  ghost predicate IsDiff(firstId: int, a: seq<State>, b: seq<State>, n: nat, items: Items)
    requires n <= |a| <= |b|
  {
    forall id :: ChangeAt(items, id) ==
      if firstId <= id < firstId + n then DiffChange(a[id - firstId], b[id - firstId]) else NO_CHANGE
  }

  // Of two different texts, neither of them fuzzy, the patch of two files rejects
  // the first and accepts the second.
  lemma DiffListsTexts(firstId: int, a: seq<State>, b: seq<State>, items: Items, i: nat)
    requires i < |a| <= |b| && IsDiff(firstId, a, b, |a|, items)
    requires Fresh(a[i]) && Fresh(b[i]) && !a[i].fuzzy && !b[i].fuzzy
    requires HasText(a[i].msgstr) && HasText(b[i].msgstr) && a[i].msgstr != b[i].msgstr
    ensures firstId + i in items
    ensures items[firstId + i] == Change([Translation(false, a[i].msgstr)], [Translation(false, b[i].msgstr)], None)
  {
    assert ChangeAt(items, firstId + i) == DiffChange(a[i], b[i]);
    DiffChangeMeaning(a[i], b[i]);
  }
}
