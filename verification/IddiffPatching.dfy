/** The difference of two versions of a message, applying a change to a
    message, and renaming the ids of a patch. */
module IddiffPatching {
  import opened IddiffSections
  import opened MessageTexts
  import opened Options
  import opened Translations

  // ----- the difference of two versions of a message -----

  // The table of all combinations; -1 stands for an impossible one. Bits of the
  // index: A is empty, B is empty, A and B have equal strings, A is fuzzy, B is fuzzy.
  function BitArray(p1: int, p2: int, p3: int, p4: int, p5: int, p6: int, p7: int,
                    p8: int, p9: int, p10: int, p11: int, p12: int, p13: int, p14: int): (table: seq<int>)
    ensures |table| == 32
  {
    [p1, p2, p3, p4, p5, -1, -1, p6,
     p7, -1, p8, -1, p9, -1, -1, -1,
     p10, p11, -1, -1, p12, -1, -1, -1,
     p13, -1, -1, -1, p14, -1, -1, -1]
  }

  const NEED_ADDED := BitArray(1, 1, 0, 0, 0, 0, 1, 0, 1, 0, 0, 0, 0, 0)
  const NEED_REMOVED := BitArray(1, 0, 1, 0, 0, 0, 1, 1, 0, 1, 0, 1, 0, 0)

  function IndexCode(a: State, b: State): (code: nat)
    ensures code < 32
  {
    (if a.untranslated then 1 else 0)
    + (if b.untranslated then 2 else 0)
    + (if a.AsTranslation().EqualMsgstr(b.AsTranslation()) then 4 else 0)
    + (if a.fuzzy then 8 else 0)
    + (if b.fuzzy then 16 else 0)
  }

  // As read from a file.
  ghost predicate Fresh(s: State) {
    NoNulls(s.msgstr) && s.untranslated == AllEmpty(s.msgstr)
  }

  // An empty translation is not marked fuzzy.
  predicate Legal(s: State) {
    !(s.fuzzy && s.untranslated)
  }

  // B has an effective translation that A does not have.
  predicate BringsText(a: State, b: State) {
    b.Effective().Some? && b.Effective() != a.Effective()
  }

  // A has a text, fuzzy or not, that B replaces, clears or no longer stands for.
  predicate DropsText(a: State, b: State) {
    !a.untranslated &&
    match b.Effective()
    case Some(t) => t != a.msgstr
    case None => b.untranslated || !a.fuzzy
  }

  // The tables say just that, and have -1 exactly for empty fuzzy messages.
  lemma TableMeaning(a: State, b: State)
    requires Fresh(a) && Fresh(b)
    ensures var code := IndexCode(a, b);
            && (NEED_REMOVED[code] != -1 <==> Legal(a) && Legal(b))
            && (NEED_ADDED[code] != -1 <==> Legal(a) && Legal(b))
            && (Legal(a) && Legal(b) ==> (NEED_ADDED[code] != 0 <==> BringsText(a, b)))
            && (Legal(a) && Legal(b) ==> (NEED_REMOVED[code] != 0 <==> DropsText(a, b)))
  {
    EqualMsgstrIsEquality(a.AsTranslation(), b.AsTranslation());
    if a.msgstr == b.msgstr {
      assert a.untranslated == b.untranslated;
    }
  }

  // The change that turns the effective translation of A into that of B.
  function DiffChange(a: State, b: State): Change {
    Change(if DropsText(a, b) then [a.AsTranslation()] else [],
           if BringsText(a, b) then [b.AsTranslation()] else [],
           None)
  }

  lemma LegalMeaning(s: State)
    requires Fresh(s)
    ensures Legal(s) <==> (s.fuzzy ==> HasText(s.msgstr))
  {
    AllEmptyMeaning(s.msgstr);
  }

  // The same in terms of strings and flags alone: B's text is to be added if it
  // is there and not fuzzy, and was not there in A or was fuzzy; A's text is to
  // be removed if B has another one, unless both are fuzzy, or makes it fuzzy.
  lemma DiffChangeMeaning(a: State, b: State)
    requires Fresh(a) && Fresh(b) && Legal(a) && Legal(b)
    ensures var c, same := DiffChange(a, b), a.msgstr == b.msgstr;
            && c.added == (if HasText(b.msgstr) && !b.fuzzy && (a.fuzzy || !same) then [b.AsTranslation()] else [])
            && c.removed == (if HasText(a.msgstr) && (if same then b.fuzzy && !a.fuzzy else !(a.fuzzy && b.fuzzy))
                             then [a.AsTranslation()] else [])
            && c.review == None
  {
    AllEmptyMeaning(a.msgstr);
    AllEmptyMeaning(b.msgstr);
  }

  lemma DiffChangeWellFormed(a: State, b: State)
    requires Fresh(a) && Fresh(b) && Legal(a) && Legal(b) && !DiffChange(a, b).Empty()
    ensures WellFormedChange(DiffChange(a, b))
  {
    var c := DiffChange(a, b);
    assert forall t :: t in Texts(c.removed) ==> t == a.msgstr && DropsText(a, b);
    assert forall t :: t in Texts(c.added) ==> t == b.msgstr && BringsText(a, b);
  }

  // ----- applying a change to a message -----

  // The old text of the message may be given up.
  predicate CanDrop(c: Change, s: State) {
    s.fuzzy || s.untranslated || s.msgstr in Texts(c.removed)
  }

  // The message after applying the change; None for a conflict or a different
  // number of plural forms.
  function Applied(c: Change, s: State): Option<State>
    requires |c.added| <= 1
  {
    if CanDrop(c, s) then
      if c.added == [] then Some(s.(fuzzy := true))
      else if |c.added[0].msgstr| != |s.msgstr| then None
      else Some(s.(msgstr := c.added[0].msgstr, fuzzy := false))
    else if c.added != [] && !c.added[0].EqualTranslations(s.AsTranslation()) then None
    else Some(s)
  }

  function AppliedAt(items: Items, id: int, s: State): Option<State>
    requires id in items ==> |items[id].added| <= 1
  {
    if id in items then Applied(items[id], s) else Some(s)
  }

  // Diff, then apply: there is no conflict, and A comes to have the effective
  // translation of B. Applying the same change once more changes nothing.
  lemma DiffThenApply(a: State, b: State)
    requires Fresh(a) && Fresh(b) && Legal(a) && Legal(b) && |a.msgstr| == |b.msgstr|
    ensures DiffChange(a, b).Empty() ==> a.Effective() == b.Effective()
    ensures !DiffChange(a, b).Empty() ==>
              var r := Applied(DiffChange(a, b), a);
              && r.Some? && r.value.Effective() == b.Effective()
              && Applied(DiffChange(a, b), r.value.Reread()) == Some(r.value.Reread())
  {
    var c := DiffChange(a, b);
    if c.Empty() {
    } else {
      if DropsText(a, b) {
        assert a.AsTranslation() in c.removed;
        assert a.msgstr in Texts(c.removed);
      }
      var r := Applied(c, a).value;
      if BringsText(a, b) {
        assert c.added[0] == b.AsTranslation();
        assert r.msgstr == b.msgstr;
        EqualMsgstrIsEquality(c.added[0], r.AsTranslation());
        assert forall t :: t in Texts(c.removed) ==> t == a.msgstr != b.msgstr;
      }
    }
  }

  // Applying fails exactly for an accepted text with another number of plural
  // forms where the old one may be given up, and for an accepted translation
  // that is not the one that is there where it may not: a conflict.
  lemma ApplyFailsIff(c: Change, s: State)
    requires Fresh(s) && |c.added| <= 1
    ensures var givenUp := s.fuzzy || !HasText(s.msgstr) || exists t :: t in c.removed && t.msgstr == s.msgstr;
            Applied(c, s) == None <==>
            c.added != [] && if givenUp then |c.added[0].msgstr| != |s.msgstr|
                             else c.added[0].msgstr != s.msgstr || c.added[0].fuzzy
  {
    AllEmptyMeaning(s.msgstr);
    if c.added != [] {
      EqualMsgstrIsEquality(c.added[0], s.AsTranslation());
    }
    assert s.msgstr in Texts(c.removed) <==> exists t :: t in c.removed && t.msgstr == s.msgstr;
  }

  // After applying, the message has the accepted text; without one it is fuzzy
  // if its text is rejected or it had none, and else as it was.
  lemma AppliedMeaning(c: Change, s: State)
    requires Fresh(s) && |c.added| <= 1 && Applied(c, s).Some?
    ensures var r := Applied(c, s).value;
            var givenUp := s.fuzzy || !HasText(s.msgstr) || exists t :: t in c.removed && t.msgstr == s.msgstr;
            && (c.added != [] ==> r.msgstr == c.added[0].msgstr && !r.fuzzy)
            && (c.added != [] && HasText(c.added[0].msgstr) ==> r.Effective() == Some(c.added[0].msgstr))
            && (c.added == [] ==> r == if givenUp then s.(fuzzy := true) else s)
  {
    AllEmptyMeaning(s.msgstr);
    if c.added != [] {
      EqualMsgstrIsEquality(c.added[0], s.AsTranslation());
      AllEmptyMeaning(c.added[0].msgstr);
    }
    assert s.msgstr in Texts(c.removed) <==> exists t :: t in c.removed && t.msgstr == s.msgstr;
  }

  // A translation that is not fuzzy is only ever given up if it is rejected, and
  // only ever replaced by the text that is accepted.
  lemma ApplyIsCautious(c: Change, s: State)
    requires Fresh(s) && |c.added| <= 1 && Applied(c, s).Some?
    ensures var r := Applied(c, s).value;
            r.Effective() != s.Effective() ==>
              && (s.Effective().Some? ==> s.msgstr in Texts(c.removed))
              && (r.Effective().Some? ==> c.added != [] && r.Effective() == Some(c.added[0].msgstr))
  {
  }

  // ----- renaming ids -----

  // Every entry of `items` is found under its new id, and there are no others.
  ghost predicate IsRenaming(items: Items, m: int -> int, items': Items) {
    && (forall x :: x in items ==> m(x) in items' && items'[m(x)] == items[x])
    && (forall y :: y in items' ==> exists x :: x in items && m(x) == y)
  }

  ghost predicate InjectiveOn(m: int -> int, s: set<int>) {
    forall x, y :: x in s && y in s && m(x) == m(y) ==> x == y
  }

  // The state of renaming in ascending order after the first n ids: they are
  // found under their new ids, the others where they were, and nothing else is.
  ghost predicate RenamedTo(items: Items, m: int -> int, ids: seq<int>, n: nat, now: Items)
    requires n <= |ids|
  {
    && (forall k :: 0 <= k < |ids| ==> ids[k] in items && HeldUnder(items, ids[k], IdAfter(m, ids, n, k), now))
    && (forall y :: y in now ==> IsIdAfter(m, ids, n, y))
    && (forall i, j :: 0 <= i < j < n ==> m(ids[i]) != m(ids[j]))
  }

  function IdAfter(m: int -> int, ids: seq<int>, n: nat, k: nat): int
    requires k < |ids|
  {
    if k < n then m(ids[k]) else ids[k]
  }

  ghost predicate IsIdAfter(m: int -> int, ids: seq<int>, n: nat, y: int) {
    exists k :: 0 <= k < |ids| && IdAfter(m, ids, n, k) == y
  }

  ghost predicate HeldUnder(items: Items, id: int, newId: int, now: Items)
    requires id in items
  {
    newId in now && now[newId] == items[id]
  }

  // A renaming of a well-formed patch is well-formed and keeps every section.
  lemma RenamingKeeps(items: Items, m: int -> int, items': Items)
    requires WellFormed(items) && IsRenaming(items, m, items')
    ensures WellFormed(items')
    ensures forall x :: x in items ==> SectionAt(items', m(x)) == SectionAt(items, x)
  {
    forall y | y in items'
      ensures WellFormedChange(items'[y])
    {
      var x :| x in items && m(x) == y;
    }
  }
}
