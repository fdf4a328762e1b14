/** From the difference of two files back to the second one: diff, minimize, apply. */
module IddiffRoundTrip {
  import opened IddiffPatching
  import opened IddiffSections
  import opened Iddiffs
  import opened Options
  import opened Translations

  // Two versions of a file, message by message.
  ghost predicate TwoVersions(a: seq<State>, b: seq<State>) {
    && |a| == |b|
    && forall i :: 0 <= i < |a| ==>
         Fresh(a[i]) && Fresh(b[i]) && Legal(a[i]) && Legal(b[i]) && |a[i].msgstr| == |b[i].msgstr|
  }

  // No two messages of the file have the same minimized id.
  ghost predicate DistinctMinIds(firstId: int, n: nat, minimize: int -> int) {
    forall x, y :: firstId <= x < firstId + n && firstId <= y < firstId + n && minimize(x) == minimize(y) ==> x == y
  }

  lemma EntryInRange(firstId: int, a: seq<State>, b: seq<State>, items: Items, x: int)
    requires |a| <= |b| && IsDiff(firstId, a, b, |a|, items) && WellFormed(items) && x in items
    ensures firstId <= x < firstId + |a|
  {
    assert ChangeAt(items, x) == items[x];
  }

  // After minimizing, each message still finds its own change, or none.
  lemma FoundAfterRenaming(firstId: int, a: seq<State>, b: seq<State>, items: Items, m: int -> int,
        items': Items, i: nat)
    requires i < |a| <= |b| && IsDiff(firstId, a, b, |a|, items) && WellFormed(items)
    requires IsRenaming(items, m, items') && DistinctMinIds(firstId, |a|, m)
    ensures ChangeAt(items', m(firstId + i)) == DiffChange(a[i], b[i])
    ensures m(firstId + i) in items' ==> firstId + i in items
  {
    var id := firstId + i;
    assert ChangeAt(items, id) == DiffChange(a[i], b[i]);
    var y := m(id);
    if y in items' {
      var x :| x in items && m(x) == y;
      EntryInRange(firstId, a, b, items, x);
      assert x == id;
    }
  }

  lemma DiffIdsInjective(firstId: int, a: seq<State>, b: seq<State>, items: Items, m: int -> int)
    requires |a| <= |b| && IsDiff(firstId, a, b, |a|, items) && WellFormed(items) && DistinctMinIds(firstId, |a|, m)
    ensures InjectiveOn(m, items.Keys)
  {
    forall x, y | x in items.Keys && y in items.Keys && m(x) == m(y)
      ensures x == y
    {
      EntryInRange(firstId, a, b, items, x);
      EntryInRange(firstId, a, b, items, y);
    }
  }

  lemma OneMessage(firstId: int, a: seq<State>, b: seq<State>, items: Items, m: int -> int,
        items': Items, i: nat)
    requires TwoVersions(a, b) && i < |a| && IsDiff(firstId, a, b, |a|, items) && WellFormed(items)
    requires WellFormed(items') && IsRenaming(items, m, items') && DistinctMinIds(firstId, |a|, m)
    ensures var r := AppliedAt(items', m(firstId + i), a[i]); r.Some? && r.value.Effective() == b[i].Effective()
  {
    FoundAfterRenaming(firstId, a, b, items, m, items', i);
    DiffThenApply(a[i], b[i]);
  }

  // Applied to message `i` of A, the patch gives the translation of B.
  ghost predicate Patches(items: Items, id: int, from: State, to: State)
    requires WellFormed(items)
  {
    var r := AppliedAt(items, id, from);
    r.Some? && r.value.Effective() == to.Effective()
  }

  // The patch from A to B under minimized ids.
  method MakePatch(a: seq<State>, b: seq<State>, firstId: int, minimize: int -> int) returns (diff: Iddiff)
    requires TwoVersions(a, b)
    requires firstId > 0 && (forall x :: minimize(x) <= x) && DistinctMinIds(firstId, |b|, minimize)
    ensures fresh(diff) && WellFormed(diff.items)
    ensures forall i :: 0 <= i < |a| ==> Patches(diff.items, minimize(firstId + i), a[i], b[i])
  {
    diff := new Iddiff();
    var ok := diff.DiffFiles(firstId, a, b);
    ghost var items := diff.items;
    DiffIdsInjective(firstId, a, b, items, minimize);
    ok := diff.MinimizeIds(minimize);
    forall i | 0 <= i < |a|
      ensures Patches(diff.items, minimize(firstId + i), a[i], b[i])
    {
      OneMessage(firstId, a, b, items, minimize, diff.items, i);
    }
  }

  // The patch from A to B, applied to A under minimized ids, succeeds and leaves
  // every message with the effective translation that it has in B.
  method PatchFile(messages: seq<Message>, ghost given: seq<State>, b: seq<State>, firstId: int,
        minimize: int -> int)
      returns (ok: bool)
    requires forall i, j :: 0 <= i < j < |messages| ==> messages[i] != messages[j]
    requires |given| == |messages| && forall i :: 0 <= i < |messages| ==> given[i] == messages[i].Get()
    requires TwoVersions(given, b)
    requires firstId > 0 && (forall x :: minimize(x) <= x) && DistinctMinIds(firstId, |b|, minimize)
    modifies messages
    ensures ok && forall i :: 0 <= i < |b| ==> messages[i].Get().Effective() == b[i].Effective()
  {
    hide AppliedAt;
    hide WellFormed;
    hide DistinctMinIds;
    var a := [];
    for i := 0 to |messages|
      invariant |a| == i && forall k :: 0 <= k < i ==> a[k] == messages[k].Get()
    {
      a := a + [messages[i].Get()];
    }
    assert a == given;
    var diff := MakePatch(a, b, firstId, minimize);
    var minIds := seq(|messages|, i requires 0 <= i < |messages| => minimize(firstId + i));
    forall i | 0 <= i < |messages|
      ensures NoNulls(messages[i].msgstr) && Patches(diff.items, minIds[i], messages[i].Get(), b[i])
    {
      assert Fresh(a[i]) && Patches(diff.items, minimize(firstId + i), a[i], b[i]);
    }
    ok := diff.ApplyToContent(messages, minIds);
    forall i | 0 <= i < |b|
      ensures messages[i].Get().Effective() == b[i].Effective()
    {
      assert Patches(diff.items, minIds[i], given[i], b[i]);
    }
  }
}
