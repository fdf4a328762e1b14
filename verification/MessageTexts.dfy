/** Original message texts and the order that keys of messages are sorted by. */
module MessageTexts {
  import opened StringOrder

  // A string that may be missing.
  datatype OptString = Null | Str(s: string)
  {
    predicate IsNull() { Null? }

    predicate Empty() { !IsNull() && s == "" }

    // operator==
    predicate Equals(o: OptString) {
      (IsNull() && o.IsNull()) || (!IsNull() && !o.IsNull() && s == o.s)
    }

    // operator<: nothing is smaller than null, null is smaller than anything else.
    predicate LessThan(o: OptString) {
      if o.IsNull() then false
      else if IsNull() then true
      else Less(s, o.s)
    }
  }

  datatype OriginalText = OriginalText(msgctxt: OptString, msgid: OptString, msgidPlural: OptString)
  {
    predicate Equals(o: OriginalText) {
      msgid.Equals(o.msgid) && msgidPlural.Equals(o.msgidPlural) && msgctxt.Equals(o.msgctxt)
    }

    // The order of (msgctxt, msgid, msgid_plural) as std::tuple compares it,
    // that is by `<` on the components alone.
    predicate LessThan(o: OriginalText) {
      || msgctxt.LessThan(o.msgctxt)
      || (!o.msgctxt.LessThan(msgctxt) &&
          (|| msgid.LessThan(o.msgid)
           || (!o.msgid.LessThan(msgid) && msgidPlural.LessThan(o.msgidPlural))))
    }
  }

  // ----- a strict total order that agrees with equality -----

  lemma OptStringOrder(a: OptString, b: OptString)
    ensures a.Equals(b) <==> a == b
    ensures !a.LessThan(b) && !b.LessThan(a) <==> a == b
    ensures !(a.LessThan(b) && b.LessThan(a))
  {
    if a.Str? && b.Str? {
      LessTrichotomy(a.s, b.s);
    }
  }

  // Null comes first, then the strings in their order.
  lemma OptStringMeaning(a: OptString, b: OptString)
    ensures a.LessThan(b) <==> b.Str? && (a == Null || (a.Str? && Less(a.s, b.s)))
  {
  }

  // The first component that differs decides: msgctxt, then msgid, then msgid_plural.
  lemma TextOrderMeaning(a: OriginalText, b: OriginalText)
    ensures a.msgctxt != b.msgctxt ==> (a.LessThan(b) <==> a.msgctxt.LessThan(b.msgctxt))
    ensures a.msgctxt == b.msgctxt && a.msgid != b.msgid ==> (a.LessThan(b) <==> a.msgid.LessThan(b.msgid))
    ensures a.msgctxt == b.msgctxt && a.msgid == b.msgid ==>
              (a.LessThan(b) <==> a.msgidPlural.LessThan(b.msgidPlural))
  {
    OptStringOrder(a.msgctxt, b.msgctxt);
    OptStringOrder(a.msgid, b.msgid);
  }

  lemma OptStringTransitive(a: OptString, b: OptString, c: OptString)
    requires a.LessThan(b) && b.LessThan(c)
    ensures a.LessThan(c)
  {
    if a.Str? && b.Str? && c.Str? {
      LessTransitive(a.s, b.s, c.s);
    }
  }

  // Two texts are equivalent in the order exactly when they are equal, which is
  // what a map that is sorted by the order takes for the same key.
  lemma TextOrder(a: OriginalText, b: OriginalText)
    ensures a.Equals(b) <==> a == b
    ensures !a.LessThan(b) && !b.LessThan(a) <==> a == b
    ensures !(a.LessThan(b) && b.LessThan(a))
  {
    OptStringOrder(a.msgctxt, b.msgctxt);
    OptStringOrder(a.msgid, b.msgid);
    OptStringOrder(a.msgidPlural, b.msgidPlural);
  }

  lemma TextTransitive(a: OriginalText, b: OriginalText, c: OriginalText)
    requires a.LessThan(b) && b.LessThan(c)
    ensures a.LessThan(c)
  {
    ComponentTransitive(a.msgctxt, b.msgctxt, c.msgctxt);
    ComponentTransitive(a.msgid, b.msgid, c.msgid);
    ComponentTransitive(a.msgidPlural, b.msgidPlural, c.msgidPlural);
  }

  lemma ComponentTransitive(a: OptString, b: OptString, c: OptString)
    ensures a.LessThan(b) && b.LessThan(c) ==> a.LessThan(c)
    ensures !b.LessThan(a) && !c.LessThan(b) ==> !c.LessThan(a)
    ensures a.LessThan(b) && !c.LessThan(b) ==> a.LessThan(c)
    ensures !b.LessThan(a) && b.LessThan(c) ==> a.LessThan(c)
  {
    OptStringOrder(a, b);
    OptStringOrder(b, c);
    OptStringOrder(a, c);
    if a.LessThan(b) && b.LessThan(c) {
      OptStringTransitive(a, b, c);
    }
  }
}
