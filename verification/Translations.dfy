/** Translations of messages: in a patch, and in a translation file. */
module Translations {
  import opened MessageTexts
  import opened Options

  // One string, or one per plural form.
  type Text = seq<OptString>

  predicate AllEmpty(t: Text) {
    forall i :: 0 <= i < |t| ==> t[i].Empty()
  }

  // A translation as a patch holds it.
  datatype Translation = Translation(fuzzy: bool, msgstr: Text)
  {
    predicate IsUntranslated() { AllEmpty(msgstr) }

    predicate IsTranslated() { !fuzzy && !IsUntranslated() }

    // Strings are compared one by one; the fuzzy flag does not matter.
    predicate EqualMsgstr(o: Translation) {
      |msgstr| == |o.msgstr| && forall i :: 0 <= i < |msgstr| ==> msgstr[i].Equals(o.msgstr[i])
    }

    predicate EqualTranslations(o: Translation) {
      EqualMsgstr(o) && fuzzy == o.fuzzy
    }
  }

  lemma EqualMsgstrIsEquality(a: Translation, b: Translation)
    ensures a.EqualMsgstr(b) <==> a.msgstr == b.msgstr
  {
    forall i | 0 <= i < |a.msgstr| && 0 <= i < |b.msgstr|
      ensures a.msgstr[i].Equals(b.msgstr[i]) <==> a.msgstr[i] == b.msgstr[i]
    {
      OptStringOrder(a.msgstr[i], b.msgstr[i]);
    }
  }

  // The state of a message of a file. `untranslated` is what was found when the
  // file was read; editing does not bring it up to date.
  datatype State = State(fuzzy: bool, msgstr: Text, untranslated: bool)
  {
    function AsTranslation(): Translation { Translation(fuzzy, msgstr) }

    // What a reader of the file sees: the text of a translation that is not fuzzy.
    function Effective(): Option<Text> {
      if fuzzy || AllEmpty(msgstr) then None else Some(msgstr)
    }

    // The state after writing the file and reading it again.
    function Reread(): State { State(fuzzy, msgstr, AllEmpty(msgstr)) }
  }

  // Some plural form is not the empty string.
  ghost predicate HasText(t: Text) {
    exists i :: 0 <= i < |t| && t[i] != Str("")
  }

  lemma AllEmptyMeaning(t: Text)
    ensures AllEmpty(t) <==> !HasText(t)
  {
  }

  // A reader sees exactly the text that is there and not fuzzy.
  lemma EffectiveMeaning(s: State, t: Text)
    ensures s.Effective() == Some(t) <==> !s.fuzzy && s.msgstr == t && HasText(t)
    ensures s.Effective() == None <==> s.fuzzy || !HasText(s.msgstr)
  {
    AllEmptyMeaning(s.msgstr);
  }

  class Message {
    var fuzzy: bool
    var msgstr: Text
    var untranslated: bool
    var edited: bool

    function Get(): State
      reads this
    {
      State(fuzzy, msgstr, untranslated)
    }

    // Reads a message from a file.
    constructor (fuzzy: bool, msgstr: Text)
      ensures Get() == State(fuzzy, msgstr, AllEmpty(msgstr)) && !edited
    {
      this.fuzzy, this.msgstr, this.untranslated := fuzzy, msgstr, AllEmpty(msgstr);
      edited := false;
    }

    method EditFuzzy(fuzzy: bool)
      modifies this
      ensures Get() == old(Get()).(fuzzy := fuzzy)
      ensures edited <==> old(edited) || fuzzy != old(this.fuzzy)
    {
      if fuzzy == this.fuzzy {
        return;
      }
      this.fuzzy := fuzzy;
      edited := true;
    }

    // A string that is null cannot be edited.
    method EditMsgstr(index: nat, str: OptString)
      requires index < |msgstr| && !msgstr[index].IsNull()
      modifies this
      ensures Get() == old(Get()).(msgstr := old(msgstr)[index := str])
      ensures edited <==> old(edited) || str != old(msgstr)[index]
    {
      OptStringOrder(msgstr[index], str);
      if msgstr[index].Equals(str) {
        assert msgstr[index := str] == msgstr;
        return;
      }
      msgstr := msgstr[index := str];
      edited := true;
    }
  }

  ghost predicate NoNulls(t: Text) {
    forall i :: 0 <= i < |t| ==> !t[i].IsNull()
  }

  // Copies the strings; the fuzzy flag is not copied.
  method CopyTranslationsToMessage(from: Translation, message: Message)
    requires |from.msgstr| == |message.msgstr| && NoNulls(message.msgstr)
    modifies message
    ensures message.Get() == old(message.Get()).(msgstr := from.msgstr)
    ensures message.edited <==> old(message.edited) || from.msgstr != old(message.msgstr)
  {
    ghost var before := message.Get();
    for i := 0 to |from.msgstr|
      invariant message.fuzzy == before.fuzzy && message.untranslated == before.untranslated
      invariant |message.msgstr| == |from.msgstr|
      invariant forall k :: 0 <= k < i ==> message.msgstr[k] == from.msgstr[k]
      invariant forall k :: i <= k < |from.msgstr| ==> message.msgstr[k] == before.msgstr[k]
      invariant message.edited <==> old(message.edited) || from.msgstr[..i] != before.msgstr[..i]
    {
      PrefixDiffers(from.msgstr, before.msgstr, i);
      message.EditMsgstr(i, from.msgstr[i]);
    }
    assert from.msgstr[..|from.msgstr|] == from.msgstr && before.msgstr[..|from.msgstr|] == before.msgstr;
    assert message.msgstr == from.msgstr;
  }

  lemma PrefixDiffers(a: Text, b: Text, i: nat)
    requires i < |a| == |b|
    ensures a[..i + 1] != b[..i + 1] <==> a[..i] != b[..i] || a[i] != b[i]
  {
    assert a[..i + 1] == a[..i] + [a[i]] && b[..i + 1] == b[..i] + [b[i]];
  }
}
