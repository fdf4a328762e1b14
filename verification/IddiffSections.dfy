/** What a translation patch says about each message id, and the algebra of
    combining two patches. */
module IddiffSections {
  import opened Options
  import opened Translations

  // The entry of one id: texts to reject, the text to accept, a review comment.
  datatype Change = Change(removed: seq<Translation>, added: seq<Translation>, review: Option<Translation>)
  {
    predicate Empty() { review.None? && added == [] && removed == [] }
  }

  const NO_CHANGE := Change([], [], None)

  type Items = map<int, Change>

  function ChangeAt(items: Items, id: int): Change {
    if id in items then items[id] else NO_CHANGE
  }

  // The meaning of an entry: texts are compared by their strings, not by order.
  datatype Section = Section(removed: set<Text>, added: set<Text>, review: Option<Translation>)

  function Texts(list: seq<Translation>): set<Text> {
    set t | t in list :: t.msgstr
  }

  function SectionOf(c: Change): Section {
    Section(Texts(c.removed), Texts(c.added), c.review)
  }

  function SectionAt(items: Items, id: int): Section {
    SectionOf(ChangeAt(items, id))
  }

  const NO_SECTION := Section({}, {}, None)

  lemma TextsPush(list: seq<Translation>, t: Translation)
    ensures Texts(list + [t]) == Texts(list) + {t.msgstr}
  {
    assert forall x :: x in list + [t] <==> x in list || x == t;
  }

  // ----- well-formed patches -----

  ghost predicate Distinct(list: seq<Translation>) {
    forall i, j :: 0 <= i < j < |list| ==> list[i].msgstr != list[j].msgstr
  }

  // No text is both accepted and rejected, at most one is accepted, none is
  // rejected twice, a review comment has a text, and no entry is empty.
  ghost predicate WellFormedChange(c: Change) {
    && !c.Empty()
    && |c.added| <= 1
    && Distinct(c.removed)
    && Texts(c.removed) !! Texts(c.added)
    && (c.review.Some? ==> c.review.value.IsTranslated())
  }

  ghost predicate WellFormed(items: Items) {
    forall id :: id in items ==> WellFormedChange(items[id])
  }

  ghost predicate SectionOk(s: Section) {
    && s.removed !! s.added
    && (forall t, u :: t in s.added && u in s.added ==> t == u)
    && (s.review.Some? ==> s.review.value.IsTranslated())
  }

  lemma WellFormedSection(items: Items, id: int)
    requires WellFormed(items)
    ensures SectionOk(SectionAt(items, id))
  {
  }

  // ----- combining patches: the union of what they say -----

  function UnionOf(s: Section, t: Section): Section {
    Section(s.removed + t.removed, s.added + t.added, if s.review.Some? then s.review else t.review)
  }

  // Both may be said together: no text is accepted and rejected, only one is
  // accepted, and only one side has a review comment.
  ghost predicate Agree(s: Section, t: Section) {
    SectionOk(UnionOf(s, t)) && !(s.review.Some? && t.review.Some?)
  }

  ghost predicate Compatible(a: Items, b: Items) {
    forall id :: Agree(SectionAt(a, id), SectionAt(b, id))
  }

  ghost predicate IsUnion(a: Items, b: Items, c: Items) {
    forall id :: SectionAt(c, id) == UnionOf(SectionAt(a, id), SectionAt(b, id))
  }

  // Says the same about every id.
  ghost predicate SameMeaning(a: Items, b: Items) {
    forall id :: SectionAt(a, id) == SectionAt(b, id)
  }

  // The outcome of merging b into a: nothing, when they are in conflict.
  ghost predicate MergesTo(a: Items, b: Items, outcome: Option<Items>) {
    match outcome
    case None => !Compatible(a, b)
    case Some(c) => Compatible(a, b) && WellFormed(c) && IsUnion(a, b, c)
  }

  ghost predicate SameOutcome(x: Option<Items>, y: Option<Items>) {
    x.Some? == y.Some? && (x.Some? ==> SameMeaning(x.value, y.value))
  }

  lemma AgreeSymmetric(s: Section, t: Section)
    ensures Agree(s, t) <==> Agree(t, s)
    ensures Agree(s, t) ==> UnionOf(s, t) == UnionOf(t, s)
  {
    assert s.added + t.added == t.added + s.added;
    assert s.removed + t.removed == t.removed + s.removed;
  }

  // What a successful merge says: a text is rejected, or accepted, if either
  // patch said so; a review is that of the patch that had one.
  lemma MergeSays(a: Items, b: Items, c: Items, id: int, t: Text)
    requires WellFormed(a) && WellFormed(b) && MergesTo(a, b, Some(c))
    ensures t in Texts(ChangeAt(c, id).removed) <==>
            t in Texts(ChangeAt(a, id).removed) || t in Texts(ChangeAt(b, id).removed)
    ensures t in Texts(ChangeAt(c, id).added) <==>
            t in Texts(ChangeAt(a, id).added) || t in Texts(ChangeAt(b, id).added)
    ensures forall r :: ChangeAt(c, id).review == Some(r) <==>
            ChangeAt(a, id).review == Some(r) || ChangeAt(b, id).review == Some(r)
    ensures !(t in Texts(ChangeAt(a, id).removed) && t in Texts(ChangeAt(b, id).added))
  {
    assert Agree(SectionAt(a, id), SectionAt(b, id));
    assert SectionAt(c, id) == UnionOf(SectionAt(a, id), SectionAt(b, id));
  }

  // When two patches can be merged, in terms of their entries: no text is
  // accepted by one and rejected by the other, they accept no different texts,
  // and no id has two reviews.
  lemma CompatibleMeaning(a: Items, b: Items)
    requires WellFormed(a) && WellFormed(b)
    ensures Compatible(a, b) <==> forall id :: EntriesAgree(ChangeAt(a, id), ChangeAt(b, id))
  {
    forall id
      ensures Agree(SectionAt(a, id), SectionAt(b, id)) <==> EntriesAgree(ChangeAt(a, id), ChangeAt(b, id))
    {
      EntryAgrees(ChangeAt(a, id), ChangeAt(b, id));
    }
  }

  ghost predicate EntriesAgree(c: Change, d: Change) {
    && (forall t, u :: t in c.removed && u in d.added ==> t.msgstr != u.msgstr)
    && (forall t, u :: t in c.added && u in d.removed ==> t.msgstr != u.msgstr)
    && (forall t, u :: t in c.added && u in d.added ==> t.msgstr == u.msgstr)
    && (c.review == None || d.review == None)
  }

  lemma EntryAgrees(c: Change, d: Change)
    requires c.Empty() || WellFormedChange(c)
    requires d.Empty() || WellFormedChange(d)
    ensures Agree(SectionOf(c), SectionOf(d)) <==> EntriesAgree(c, d)
  {
    forall t | t in c.added || t in d.added
      ensures t.msgstr in Texts(c.added) + Texts(d.added)
    {
    }
    forall t | t in c.removed || t in d.removed
      ensures t.msgstr in Texts(c.removed) + Texts(d.removed)
    {
    }
  }

  // Merging is commutative, conflicts included.
  lemma MergeCommutes(a: Items, b: Items, ab: Option<Items>, ba: Option<Items>)
    requires MergesTo(a, b, ab) && MergesTo(b, a, ba)
    ensures SameOutcome(ab, ba)
  {
    forall id
      ensures Agree(SectionAt(a, id), SectionAt(b, id)) <==> Agree(SectionAt(b, id), SectionAt(a, id))
      ensures Agree(SectionAt(a, id), SectionAt(b, id)) ==>
                UnionOf(SectionAt(a, id), SectionAt(b, id)) == UnionOf(SectionAt(b, id), SectionAt(a, id))
    {
      AgreeSymmetric(SectionAt(a, id), SectionAt(b, id));
    }
  }

  lemma AgreeAssociates(r: Section, s: Section, t: Section)
    ensures Agree(r, s) && Agree(UnionOf(r, s), t) <==> Agree(s, t) && Agree(r, UnionOf(s, t))
    ensures UnionOf(UnionOf(r, s), t) == UnionOf(r, UnionOf(s, t))
  {
    assert r.removed + s.removed + t.removed == r.removed + (s.removed + t.removed);
    assert r.added + s.added + t.added == r.added + (s.added + t.added);
  }

  // The outcome of merging on into what may already be a conflict.
  ghost predicate MergesOnTo(x: Option<Items>, b: Items, outcome: Option<Items>) {
    if x.None? then outcome.None? else MergesTo(x.value, b, outcome)
  }

  ghost predicate MergesOntoFrom(a: Items, y: Option<Items>, outcome: Option<Items>) {
    if y.None? then outcome.None? else MergesTo(a, y.value, outcome)
  }

  // Merging is associative, conflicts included.
  lemma MergeAssociates(a: Items, b: Items, c: Items, ab: Option<Items>, bc: Option<Items>,
                        left: Option<Items>, right: Option<Items>)
    requires MergesTo(a, b, ab) && MergesOnTo(ab, c, left)
    requires MergesTo(b, c, bc) && MergesOntoFrom(a, bc, right)
    ensures SameOutcome(left, right)
  {
    forall id
      ensures var r, s, t := SectionAt(a, id), SectionAt(b, id), SectionAt(c, id);
              && (Agree(r, s) && Agree(UnionOf(r, s), t) <==> Agree(s, t) && Agree(r, UnionOf(s, t)))
              && UnionOf(UnionOf(r, s), t) == UnionOf(r, UnionOf(s, t))
    {
      AgreeAssociates(SectionAt(a, id), SectionAt(b, id), SectionAt(c, id));
    }
    AssociatesBothWays(a, b, c, ab, bc);
    if left.Some? && right.Some? {
      forall id
        ensures SectionAt(left.value, id) == SectionAt(right.value, id)
      {
        var r, s, t := SectionAt(a, id), SectionAt(b, id), SectionAt(c, id);
        AgreeAssociates(r, s, t);
        assert SectionAt(left.value, id) == UnionOf(SectionAt(ab.value, id), t) == UnionOf(UnionOf(r, s), t);
        assert SectionAt(right.value, id) == UnionOf(r, SectionAt(bc.value, id)) == UnionOf(r, UnionOf(s, t));
      }
    }
  }

  lemma AssociatesBothWays(a: Items, b: Items, c: Items, ab: Option<Items>, bc: Option<Items>)
    requires MergesTo(a, b, ab) && MergesTo(b, c, bc)
    ensures ab.Some? && Compatible(ab.value, c) <==> bc.Some? && Compatible(a, bc.value)
  {
    hide Agree, UnionOf, WellFormed;
    if ab.Some? && Compatible(ab.value, c) {
      forall id
        ensures Agree(SectionAt(b, id), SectionAt(c, id))
        ensures Agree(SectionAt(a, id), UnionOf(SectionAt(b, id), SectionAt(c, id)))
      {
        assert Agree(SectionAt(ab.value, id), SectionAt(c, id));
        AgreeAssociates(SectionAt(a, id), SectionAt(b, id), SectionAt(c, id));
      }
      assert Compatible(b, c);
    }
    if bc.Some? && Compatible(a, bc.value) {
      forall id
        ensures Agree(SectionAt(a, id), SectionAt(b, id))
        ensures Agree(UnionOf(SectionAt(a, id), SectionAt(b, id)), SectionAt(c, id))
      {
        assert Agree(SectionAt(a, id), SectionAt(bc.value, id));
        AgreeAssociates(SectionAt(a, id), SectionAt(b, id), SectionAt(c, id));
      }
      assert Compatible(a, b);
    }
  }

  // ----- merging as a least upper bound -----

  ghost predicate ReviewFree(items: Items) {
    forall id :: SectionAt(items, id).review == None
  }

  // b says everything that a says.
  ghost predicate SaysAll(a: Items, b: Items) {
    forall id ::
      && SectionAt(a, id).removed <= SectionAt(b, id).removed
      && SectionAt(a, id).added <= SectionAt(b, id).added
  }

  // Review-free patches are compatible exactly when some well-formed patch says
  // all that both say, and then the merge is the least such patch.
  lemma MergeIsLeast(a: Items, b: Items, upper: Items)
    requires ReviewFree(a) && ReviewFree(b)
    requires WellFormed(upper) && SaysAll(a, upper) && SaysAll(b, upper)
    ensures Compatible(a, b)
    ensures forall c :: IsUnion(a, b, c) ==> SaysAll(a, c) && SaysAll(b, c) && SaysAll(c, upper)
  {
    forall id
      ensures Agree(SectionAt(a, id), SectionAt(b, id))
    {
      WellFormedSection(upper, id);
      var s, t, u := SectionAt(a, id), SectionAt(b, id), SectionAt(upper, id);
      assert s.removed <= u.removed && t.removed <= u.removed && s.added <= u.added && t.added <= u.added;
      assert s.review == None && t.review == None;
    }
    forall c | IsUnion(a, b, c)
      ensures SaysAll(a, c) && SaysAll(b, c) && SaysAll(c, upper)
    {
      forall id
        ensures SectionAt(a, id).removed + SectionAt(b, id).removed <= SectionAt(upper, id).removed
        ensures SectionAt(a, id).added + SectionAt(b, id).added <= SectionAt(upper, id).added
      {
      }
    }
  }

  // Merging a review-free patch into itself says nothing new; with a review
  // comment it is a conflict.
  lemma MergeWithItself(a: Items)
    requires WellFormed(a)
    ensures Compatible(a, a) <==> ReviewFree(a)
    ensures IsUnion(a, a, a)
  {
    forall id
      ensures Agree(SectionAt(a, id), SectionAt(a, id)) <==> SectionAt(a, id).review == None
      ensures SectionAt(a, id) == UnionOf(SectionAt(a, id), SectionAt(a, id))
    {
      WellFormedSection(a, id);
      var s := SectionAt(a, id);
      assert s.removed + s.removed == s.removed && s.added + s.added == s.added;
    }
  }
}
