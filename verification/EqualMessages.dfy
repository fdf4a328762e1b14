/** Collapsing the ids of equal messages of two files in the id database. */
module EqualMessages {
  import opened MessageTexts
  import opened IdForest
  import opened IdMapDbs
  import opened MappedFiles
  import opened Options

  // The messages of a translation file; message i has the id firstId + i.
  datatype File = File(messages: seq<OriginalText>, firstId: nat)

  // ----- the map from texts to ids: slots sorted by text -----

  datatype Slot = Slot(key: OriginalText, ids: seq<nat>)

  // map[key].push_back(id) on a map that is sorted by LessThan.
  function PushBack(slots: seq<Slot>, key: OriginalText, id: nat): seq<Slot> {
    if slots == [] then [Slot(key, [id])]
    else if slots[0].key.LessThan(key) then [slots[0]] + PushBack(slots[1..], key, id)
    else if key.LessThan(slots[0].key) then [Slot(key, [id])] + slots
    else [Slot(slots[0].key, slots[0].ids + [id])] + slots[1..]
  }

  ghost predicate SortedSlots(slots: seq<Slot>) {
    forall i, j :: 0 <= i < j < |slots| ==> slots[i].key.LessThan(slots[j].key)
  }

  // The ids collected under a text.
  function IdsIn(slots: seq<Slot>, key: OriginalText): seq<nat> {
    if slots == [] then []
    else if slots[0].key == key then slots[0].ids
    else IdsIn(slots[1..], key)
  }

  lemma {:induction false} PushBackSorted(slots: seq<Slot>, key: OriginalText, id: nat)
    requires SortedSlots(slots)
    ensures SortedSlots(PushBack(slots, key, id))
    ensures forall k {:trigger PushBack(slots, key, id)[k]} :: 0 <= k < |PushBack(slots, key, id)| ==>
              PushBack(slots, key, id)[k].key == key ||
              exists j :: 0 <= j < |slots| && PushBack(slots, key, id)[k].key == slots[j].key
  {
    if slots != [] {
      TextOrder(slots[0].key, key);
      var rest := slots[1..];
      if slots[0].key.LessThan(key) {
        PushBackSorted(rest, key, id);
        var r := PushBack(rest, key, id);
        forall k | 0 <= k < |r|
          ensures slots[0].key.LessThan(r[k].key)
          ensures r[k].key == key || exists j :: 0 <= j < |slots| && r[k].key == slots[j].key
        {
          if r[k].key != key {
            var j :| 0 <= j < |rest| && r[k].key == rest[j].key;
            assert slots[j + 1] == rest[j];
          }
        }
        assert PushBack(slots, key, id) == [slots[0]] + r;
      } else if key.LessThan(slots[0].key) {
        forall j | 0 <= j < |slots|
          ensures key.LessThan(slots[j].key)
        {
          if j > 0 {
            TextTransitive(key, slots[0].key, slots[j].key);
          }
        }
      }
    }
  }

  lemma {:induction false} PushBackIds(slots: seq<Slot>, key: OriginalText, id: nat, k: OriginalText)
    requires SortedSlots(slots)
    ensures IdsIn(PushBack(slots, key, id), k) == IdsIn(slots, k) + if k == key then [id] else []
  {
    if slots != [] {
      TextOrder(slots[0].key, key);
      var rest := slots[1..];
      if slots[0].key.LessThan(key) {
        PushBackIds(rest, key, id, k);
        assert ([slots[0]] + PushBack(rest, key, id))[1..] == PushBack(rest, key, id);
      } else if key.LessThan(slots[0].key) {
        assert ([Slot(key, [id])] + slots)[1..] == slots;
        if k == key {
          NoSlotBelow(slots, key);
        }
      } else {
        assert ([Slot(slots[0].key, slots[0].ids + [id])] + rest)[1..] == rest;
      }
    }
  }

  lemma {:induction false} NoSlotBelow(slots: seq<Slot>, key: OriginalText)
    requires SortedSlots(slots) && (slots == [] || key.LessThan(slots[0].key))
    ensures IdsIn(slots, key) == []
  {
    if slots != [] {
      TextOrder(key, slots[0].key);
      if |slots| > 1 {
        TextTransitive(key, slots[0].key, slots[1].key);
      }
      NoSlotBelow(slots[1..], key);
    }
  }

  lemma {:induction false} IdsOfSlot(slots: seq<Slot>, i: nat)
    requires SortedSlots(slots) && i < |slots|
    ensures IdsIn(slots, slots[i].key) == slots[i].ids
  {
    if i > 0 {
      TextOrder(slots[0].key, slots[i].key);
      IdsOfSlot(slots[1..], i - 1);
    }
  }

  lemma {:induction false} SlotOfIds(slots: seq<Slot>, key: OriginalText)
    requires IdsIn(slots, key) != []
    ensures exists i :: 0 <= i < |slots| && slots[i].key == key && slots[i].ids == IdsIn(slots, key)
  {
    if slots[0].key != key {
      SlotOfIds(slots[1..], key);
      var i :| 0 <= i < |slots[1..]| && slots[1..][i].key == key && slots[1..][i].ids == IdsIn(slots, key);
      assert slots[i + 1] == slots[1..][i];
    }
  }

  // ----- what is to be found: the ids of a text in all files, in order -----

  function IdsOfFile(f: File, n: nat, key: OriginalText): seq<nat>
    requires n <= |f.messages|
  {
    if n == 0 then []
    else IdsOfFile(f, n - 1, key) + if f.messages[n - 1] == key then [f.firstId + (n - 1)] else []
  }

  function IdsOf(files: seq<File>, key: OriginalText): seq<nat> {
    if files == [] then []
    else IdsOf(files[..|files| - 1], key) + IdsOfFile(files[|files| - 1], |files[|files| - 1].messages|, key)
  }

  // The list names the ids of these texts, each of them once, in their order.
  ghost predicate ListedInOrder(files: seq<File>, keys: seq<OriginalText>, list: seq<seq<nat>>) {
    && |keys| == |list|
    && (forall i, j :: 0 <= i < j < |keys| ==> keys[i].LessThan(keys[j]))
    && (forall i :: 0 <= i < |keys| ==> |list[i]| == 2 && list[i] == IdsOf(files, keys[i]))
  }

  ghost predicate HasRepeated(files: seq<File>, keys: seq<OriginalText>) {
    forall key :: |IdsOf(files, key)| == 2 ==> key in keys
  }

  // The lists of ids of the texts that occur more than once. None when a text
  // occurs more than twice, which is not supported.
  method ListEqualMessagesIds(files: seq<File>) returns (r: Option<seq<seq<nat>>>)
    ensures r.None? <==> exists key :: |IdsOf(files, key)| > 2
    ensures r.Some? ==> exists keys :: ListedInOrder(files, keys, r.value) && HasRepeated(files, keys)
  {
    hide IdsOf;
    var slots := CollectIds(files);
    var list := [];
    ghost var keys := [];
    for i := 0 to |slots|
      invariant forall k :: 0 <= k < i ==> |slots[k].ids| <= 2 && (|slots[k].ids| == 2 ==> slots[k].key in keys)
      invariant ListedInOrder(files, keys, list)
      invariant forall j :: 0 <= j < |keys| ==> exists k :: 0 <= k < i && keys[j] == slots[k].key
    {
      IdsOfSlot(slots, i);
      assert slots[i].ids == IdsOf(files, slots[i].key);
      var nIds := |slots[i].ids|;
      if nIds >= 2 {
        if nIds != 2 {
          assert |IdsOf(files, slots[i].key)| > 2;
          return None;
        }
        list, keys := list + [slots[i].ids], keys + [slots[i].key];
      }
    }
    r := Some(list);
    forall key
      ensures |IdsOf(files, key)| <= 2
      ensures |IdsOf(files, key)| == 2 ==> key in keys
    {
      if IdsIn(slots, key) != [] {
        SlotOfIds(slots, key);
      }
    }
  }

  method CollectIds(files: seq<File>) returns (slots: seq<Slot>)
    ensures SortedSlots(slots)
    ensures forall key :: IdsIn(slots, key) == IdsOf(files, key)
  {
    slots := [];
    for d := 0 to |files|
      invariant SortedSlots(slots)
      invariant forall key :: IdsIn(slots, key) == IdsOf(files[..d], key)
    {
      slots := CollectFile(files[d], slots);
      assert files[..d + 1][..d] == files[..d];
    }
    assert files[..|files|] == files;
  }

  // `slots` is `before` with the first n messages of the file added.
  ghost predicate Collected(before: seq<Slot>, f: File, n: nat, slots: seq<Slot>)
    requires n <= |f.messages|
  {
    SortedSlots(slots) && forall key :: IdsIn(slots, key) == IdsIn(before, key) + IdsOfFile(f, n, key)
  }

  lemma CollectOne(before: seq<Slot>, f: File, n: nat, slots: seq<Slot>)
    requires n < |f.messages| && Collected(before, f, n, slots)
    ensures Collected(before, f, n + 1, PushBack(slots, f.messages[n], f.firstId + n))
  {
    hide IdsIn, PushBack;
    var slots' := PushBack(slots, f.messages[n], f.firstId + n);
    PushBackSorted(slots, f.messages[n], f.firstId + n);
    forall key
      ensures IdsIn(slots', key) == IdsIn(before, key) + IdsOfFile(f, n + 1, key)
    {
      var more := if f.messages[n] == key then [f.firstId + n] else [];
      PushBackIds(slots, f.messages[n], f.firstId + n, key);
      assert IdsIn(slots', key) == IdsIn(before, key) + IdsOfFile(f, n, key) + more;
      assert IdsOfFile(f, n + 1, key) == IdsOfFile(f, n, key) + more;
    }
  }

  method CollectFile(f: File, before: seq<Slot>) returns (slots: seq<Slot>)
    requires SortedSlots(before)
    ensures Collected(before, f, |f.messages|, slots)
  {
    hide IdsIn, PushBack;
    slots := before;
    for i := 0 to |f.messages|
      invariant Collected(before, f, i, slots)
    {
      CollectOne(before, f, i, slots);
      slots := PushBack(slots, f.messages[i], f.firstId + i);
    }
  }

  // ----- two files -----

  // The ids of a file are numbered on from its first id and name its messages.
  ghost predicate Names(text: nat -> OriginalText, f: File) {
    forall i :: 0 <= i < |f.messages| ==> text(f.firstId + i) == f.messages[i]
  }

  predicate InRange(f: File) {
    FIRST_ID <= f.firstId && f.firstId + |f.messages| <= MAX_ID
  }

  predicate Apart(a: File, b: File) {
    a.firstId + |a.messages| <= b.firstId || b.firstId + |b.messages| <= a.firstId
  }

  lemma {:induction false} IdsOfFileBounds(f: File, n: nat, key: OriginalText, k: nat)
    requires n <= |f.messages| && k < |IdsOfFile(f, n, key)|
    ensures f.firstId <= IdsOfFile(f, n, key)[k] < f.firstId + n
    ensures f.messages[IdsOfFile(f, n, key)[k] - f.firstId] == key
    ensures forall j :: 0 <= j < k ==> IdsOfFile(f, n, key)[j] < IdsOfFile(f, n, key)[k]
  {
    var before := IdsOfFile(f, n - 1, key);
    if k < |before| {
      IdsOfFileBounds(f, n - 1, key, k);
    } else {
      forall j | 0 <= j < k
        ensures before[j] < f.firstId + (n - 1)
      {
        IdsOfFileBounds(f, n - 1, key, j);
      }
    }
  }

  // Two ids listed for the same text differ, lie in range and name that text.
  lemma TwoIds(a: File, b: File, key: OriginalText, text: nat -> OriginalText)
    requires InRange(a) && InRange(b) && Apart(a, b) && Names(text, a) && Names(text, b)
    requires |IdsOf([a, b], key)| == 2
    ensures var ids := IdsOf([a, b], key);
            && ids[0] != ids[1]
            && FIRST_ID <= ids[0] < MAX_ID && FIRST_ID <= ids[1] < MAX_ID
            && text(ids[0]) == text(ids[1]) == key
  {
    hide IdsOfFile, IdsOf;
    var x, y := IdsOfFile(a, |a.messages|, key), IdsOfFile(b, |b.messages|, key);
    TwoFiles(a, b, key);
    if |x| == 2 {
      OneId(a, key, text, 0);
      OneId(a, key, text, 1);
    } else if |x| == 1 {
      OneId(a, key, text, 0);
      OneId(b, key, text, 0);
    } else {
      assert |y| == 2;
      OneId(b, key, text, 0);
      OneId(b, key, text, 1);
    }
  }

  lemma OneId(f: File, key: OriginalText, text: nat -> OriginalText, k: nat)
    requires InRange(f) && Names(text, f) && k < |IdsOfFile(f, |f.messages|, key)|
    ensures var ids := IdsOfFile(f, |f.messages|, key);
            && f.firstId <= ids[k] < f.firstId + |f.messages|
            && text(ids[k]) == key
            && (k > 0 ==> ids[k - 1] < ids[k])
  {
    IdsOfFileBounds(f, |f.messages|, key, k);
    var id := IdsOfFile(f, |f.messages|, key)[k];
    assert text(f.firstId + (id - f.firstId)) == f.messages[id - f.firstId];
  }

  lemma TwoFiles(a: File, b: File, key: OriginalText)
    ensures IdsOf([a, b], key) == IdsOfFile(a, |a.messages|, key) + IdsOfFile(b, |b.messages|, key)
  {
    assert [a, b][..1] == [a];
    assert [a][..0] == [];
    assert IdsOf([a], key) == IdsOf([], key) + IdsOfFile(a, |a.messages|, key);
  }

  // The two ids of every text that occurs twice, in the order of the texts.
  ghost predicate AllPairs(a: File, b: File, keys: seq<OriginalText>, pairs: seq<(nat, nat)>) {
    && |keys| == |pairs|
    && (forall i, j :: 0 <= i < j < |keys| ==> keys[i].LessThan(keys[j]))
    && (forall i :: 0 <= i < |keys| ==> [pairs[i].0, pairs[i].1] == IdsOf([a, b], keys[i]))
    && HasRepeated([a, b], keys)
  }

  method ListEqualMessagesIds2(a: File, b: File) returns (r: Option<seq<(nat, nat)>>)
    ensures r.None? <==> exists key :: |IdsOf([a, b], key)| > 2
    ensures r.Some? ==> exists keys :: AllPairs(a, b, keys, r.value)
  {
    hide IdsOf;
    hide HasRepeated;
    var list := ListEqualMessagesIds([a, b]);
    if list.None? {
      return None;
    }
    ghost var keys :| ListedInOrder([a, b], keys, list.value) && HasRepeated([a, b], keys);
    var res: seq<(nat, nat)> := [];
    for i := 0 to |list.value|
      invariant |res| == i && forall k :: 0 <= k < i ==> [res[k].0, res[k].1] == IdsOf([a, b], keys[k])
    {
      var ids := list.value[i];
      assert [ids[0], ids[1]] == ids == IdsOf([a, b], keys[i]);
      res := res + [(ids[0], ids[1])];
    }
    assert AllPairs(a, b, keys, res);
    return Some(res);
  }

  // ----- soundness of the database -----

  // Every link of the table joins ids of the same text.
  ghost predicate LinksSound(rows: seq<nat>, text: nat -> OriginalText) {
    forall x :: At(rows, x) != 0 ==> text(At(rows, x)) == text(x)
  }

  lemma {:induction false} RootNamesSame(rows: seq<nat>, text: nat -> OriginalText, x: nat)
    requires Forest(rows) && LinksSound(rows, text)
    ensures text(Root(rows, x)) == text(x)
    decreases x
  {
    if At(rows, x) != 0 {
      RootNamesSame(rows, text, At(rows, x));
    }
  }

  // Ids with the same recursive minimum name equal messages.
  ghost predicate ClassesSound(rows: seq<nat>, text: nat -> OriginalText)
    requires Forest(rows)
  {
    forall x, y :: Root(rows, x) == Root(rows, y) ==> text(x) == text(y)
  }

  lemma LinksGiveClasses(rows: seq<nat>, text: nat -> OriginalText)
    requires Forest(rows) && LinksSound(rows, text)
    ensures ClassesSound(rows, text)
  {
    forall x, y | Root(rows, x) == Root(rows, y)
      ensures text(x) == text(y)
    {
      RootNamesSame(rows, text, x);
      RootNamesSame(rows, text, y);
    }
  }

  lemma MergeKeepsLinks(rows: seq<nat>, text: nat -> OriginalText, a: nat, b: nat, rows': seq<nat>)
    requires Forest(rows) && LinksSound(rows, text) && text(a) == text(b)
    requires Merged(rows, a, b, rows')
    ensures LinksSound(rows', text)
  {
    RootNamesSame(rows, text, a);
    RootNamesSame(rows, text, b);
  }

  lemma NormalizeKeepsLinks(rows: seq<nat>, text: nat -> OriginalText)
    requires Forest(rows) && LinksSound(rows, text)
    ensures LinksSound(NormalizedTo(rows, |rows|), text)
  {
    forall x | At(NormalizedTo(rows, |rows|), x) != 0
      ensures text(At(NormalizedTo(rows, |rows|), x)) == text(x)
    {
      RootNamesSame(rows, text, x);
    }
  }

  // ----- one dump -----

  predicate HasId(f: File, id: nat) {
    f.firstId <= id < f.firstId + |f.messages|
  }

  // No id of the two files has been linked yet.
  ghost predicate NewIds(rows: seq<nat>, a: File, b: File) {
    forall id :: HasId(a, id) || HasId(b, id) ==> At(rows, id) == 0
  }

  // The rows after the pairs have been merged one after another.
  ghost predicate LinksAll(rows: seq<nat>, pairs: seq<(nat, nat)>, rows': seq<nat>) {
    exists states :: IsRun(states, pairs) && states[0] == rows && states[|pairs|] == rows'
  }

  lemma LinksNone(rows: seq<nat>)
    requires Forest(rows)
    ensures LinksAll(rows, [], rows)
  {
    assert IsRun([rows], []);
  }

  lemma LinksOneMore(rows: seq<nat>, pairs: seq<(nat, nat)>, rows': seq<nat>, p: (nat, nat), rows'': seq<nat>)
    requires LinksAll(rows, pairs, rows') && Forest(rows') && Forest(rows'')
    requires p.0 != 0 && p.1 != 0 && Merged(rows', p.0, p.1, rows'')
    ensures LinksAll(rows, pairs + [p], rows'')
  {
    var states :| IsRun(states, pairs) && states[0] == rows && states[|pairs|] == rows';
    var more, all := states + [rows''], pairs + [p];
    forall i | 0 <= i < |all|
      ensures MergeStep(more, all, i)
    {
      if i < |pairs| {
        assert MergeStep(states, pairs, i);
      }
    }
    assert IsRun(more, all);
  }

  // Collapses all pairs of equal messages of two files. Returns their number.
  method DumpEqualMessages(a: File, b: File, db: IdMapDb, ghost text: nat -> OriginalText)
    returns (count: Option<nat>)
    requires db.Valid() && LinksSound(db.Rows(), text)
    requires InRange(a) && InRange(b) && Apart(a, b) && Names(text, a) && Names(text, b)
    modifies db.file
    ensures db.Valid() && LinksSound(db.Rows(), text)
    ensures count.None? <==> exists key :: |IdsOf([a, b], key)| > 2
    ensures count.None? ==> db.Rows() == old(db.Rows())
    ensures count.Some? ==> exists keys, pairs ::
        AllPairs(a, b, keys, pairs) && |pairs| == count.value && LinksAll(old(db.Rows()), pairs, db.Rows())
  {
    hide IdsOf;
    hide LinksAll;
    hide HasRepeated;
    hide Forest;
    hide LinksSound;
    var list := ListEqualMessagesIds2(a, b);
    if list.None? {
      return None;
    }
    ghost var keys :| AllPairs(a, b, keys, list.value);
    LinksNone(db.Rows());
    for i := 0 to |list.value|
      invariant db.Valid() && LinksSound(db.Rows(), text)
      invariant LinksAll(old(db.Rows()), list.value[..i], db.Rows())
    {
      var p := list.value[i];
      TwoIds(a, b, keys[i], text);
      assert [p.0, p.1][0] == p.0 && [p.0, p.1][1] == p.1;
      ghost var rows := db.Rows();
      db.AddRow(p.0, p.1);
      MergeKeepsLinks(rows, text, p.0, p.1, db.Rows());
      LinksOneMore(old(db.Rows()), list.value[..i], rows, p, db.Rows());
      assert list.value[..i + 1] == list.value[..i] + [p];
    }
    assert list.value[..|list.value|] == list.value;
    return Some(|list.value|);
  }

  // ----- a dump of new ids is exact -----

  predicate Joins(p: (nat, nat), x: nat) {
    p.0 == x || p.1 == x
  }

  lemma {:induction false} RowStaysEmpty(states: seq<seq<nat>>, pairs: seq<(nat, nat)>, i: nat, x: nat)
    requires IsRun(states, pairs) && i <= |pairs| && At(states[0], x) == 0
    requires forall k :: 0 <= k < i ==> !Joins(pairs[k], x)
    ensures At(states[i], x) == 0
  {
    if i > 0 {
      RowStaysEmpty(states, pairs, i - 1, x);
      assert MergeStep(states, pairs, i - 1);
    }
  }

  // Pairs of different texts have no id in common.
  lemma PairsDisjoint(a: File, b: File, keys: seq<OriginalText>, pairs: seq<(nat, nat)>,
        text: nat -> OriginalText, i: nat, k: nat)
    requires InRange(a) && InRange(b) && Apart(a, b) && Names(text, a) && Names(text, b)
    requires AllPairs(a, b, keys, pairs) && k < i < |pairs|
    ensures !Joins(pairs[k], pairs[i].0) && !Joins(pairs[k], pairs[i].1)
  {
    PairNames(a, b, keys, pairs, text, i);
    PairNames(a, b, keys, pairs, text, k);
    TextOrder(keys[k], keys[i]);
  }

  lemma PairNames(a: File, b: File, keys: seq<OriginalText>, pairs: seq<(nat, nat)>,
        text: nat -> OriginalText, i: nat)
    requires InRange(a) && InRange(b) && Apart(a, b) && Names(text, a) && Names(text, b)
    requires AllPairs(a, b, keys, pairs) && i < |pairs|
    ensures text(pairs[i].0) == text(pairs[i].1) == keys[i]
    ensures HasId(a, pairs[i].0) || HasId(b, pairs[i].0)
    ensures HasId(a, pairs[i].1) || HasId(b, pairs[i].1)
  {
    hide IdsOf;
    var p := pairs[i];
    assert [p.0, p.1][0] == p.0 && [p.0, p.1][1] == p.1;
    TwoIds(a, b, keys[i], text);
    IdInFile(a, b, keys[i], 0);
    IdInFile(a, b, keys[i], 1);
  }

  lemma IdInFile(a: File, b: File, key: OriginalText, k: nat)
    requires k < |IdsOf([a, b], key)|
    ensures HasId(a, IdsOf([a, b], key)[k]) || HasId(b, IdsOf([a, b], key)[k])
  {
    hide IdsOfFile, IdsOf;
    TwoFiles(a, b, key);
    var inA := IdsOfFile(a, |a.messages|, key);
    if k < |inA| {
      IdsOfFileBounds(a, |a.messages|, key, k);
    } else {
      IdsOfFileBounds(b, |b.messages|, key, k - |inA|);
    }
  }

  lemma {:induction false} IdIsListed(f: File, n: nat, id: nat)
    requires n <= |f.messages| && f.firstId <= id < f.firstId + n
    ensures id in IdsOfFile(f, n, f.messages[id - f.firstId])
  {
    if id < f.firstId + (n - 1) {
      IdIsListed(f, n - 1, id);
    }
  }

  lemma NewPairsAreSafe(a: File, b: File, keys: seq<OriginalText>, pairs: seq<(nat, nat)>,
        text: nat -> OriginalText, states: seq<seq<nat>>)
    requires InRange(a) && InRange(b) && Apart(a, b) && Names(text, a) && Names(text, b)
    requires AllPairs(a, b, keys, pairs) && IsRun(states, pairs) && NewIds(states[0], a, b)
    ensures forall i :: 0 <= i < |pairs| ==> MergeIsSafe(states[i], pairs[i].0, pairs[i].1)
  {
    forall i | 0 <= i < |pairs|
      ensures MergeIsSafe(states[i], pairs[i].0, pairs[i].1)
    {
      forall k | 0 <= k < i
        ensures !Joins(pairs[k], pairs[i].0) && !Joins(pairs[k], pairs[i].1)
      {
        PairsDisjoint(a, b, keys, pairs, text, i, k);
      }
      PairNames(a, b, keys, pairs, text, i);
      RowStaysEmpty(states, pairs, i, pairs[i].0);
      RowStaysEmpty(states, pairs, i, pairs[i].1);
    }
  }

  // After a dump of two files with new ids, two of these ids have the same
  // recursive minimum exactly when their messages are equal.
  lemma NewDumpIsExact(a: File, b: File, keys: seq<OriginalText>, pairs: seq<(nat, nat)>,
        text: nat -> OriginalText, rows: seq<nat>, rows': seq<nat>, x: nat, y: nat)
    requires InRange(a) && InRange(b) && Apart(a, b) && Names(text, a) && Names(text, b)
    requires AllPairs(a, b, keys, pairs) && LinksAll(rows, pairs, rows') && NewIds(rows, a, b)
    requires forall key :: |IdsOf([a, b], key)| <= 2
    requires Forest(rows') && LinksSound(rows', text)
    requires (HasId(a, x) || HasId(b, x)) && (HasId(a, y) || HasId(b, y))
    ensures Root(rows', x) == Root(rows', y) <==> text(x) == text(y)
  {
    hide IdsOf;
    LinksGiveClasses(rows', text);
    if text(x) == text(y) && x != y {
      var key := text(x);
      IdOfText(a, b, text, x);
      IdOfText(a, b, text, y);
      var ids := IdsOf([a, b], key);
      assert |ids| == 2;
      var i :| 0 <= i < |keys| && keys[i] == key;
      var p := pairs[i];
      assert ids == [p.0, p.1];
      var states :| IsRun(states, pairs) && states[0] == rows && states[|pairs|] == rows';
      NewPairsAreSafe(a, b, keys, pairs, text, states);
      SafeRunKeepsComplete(states, pairs);
      assert p in pairs && p in PairSet(pairs);
    }
  }

  lemma IdOfText(a: File, b: File, text: nat -> OriginalText, x: nat)
    requires Names(text, a) && Names(text, b) && (HasId(a, x) || HasId(b, x))
    ensures x in IdsOf([a, b], text(x))
  {
    hide IdsOfFile, IdsOf;
    TwoFiles(a, b, text(x));
    if HasId(a, x) {
      IdIsListed(a, |a.messages|, x);
      assert text(a.firstId + (x - a.firstId)) == a.messages[x - a.firstId];
    } else {
      IdIsListed(b, |b.messages|, x);
      assert text(b.firstId + (x - b.firstId)) == b.messages[x - b.firstId];
    }
  }

  // What is done to a database over its life.
  datatype Operation = Dump(a: File, b: File) | Normalize

  ghost predicate OperationOk(op: Operation, text: nat -> OriginalText) {
    op.Dump? ==> InRange(op.a) && InRange(op.b) && Apart(op.a, op.b) && Names(text, op.a) && Names(text, op.b)
  }

  // Whatever is done to a new database: two ids with the same recursive minimum
  // name messages with equal msgctxt, msgid and msgid_plural.
  method RunDatabase(ops: seq<Operation>, ghost text: nat -> OriginalText) returns (db: IdMapDb)
    requires forall i :: 0 <= i < |ops| ==> OperationOk(ops[i], text)
    ensures fresh(db) && db.Valid() && ClassesSound(db.Rows(), text)
  {
    db := new IdMapDb();
    for i := 0 to |ops|
      invariant fresh(db) && fresh(db.file) && db.Valid() && LinksSound(db.Rows(), text)
    {
      assert OperationOk(ops[i], text);
      match ops[i] {
        case Dump(a, b) =>
          var count := DumpEqualMessages(a, b, db, text);
        case Normalize =>
          NormalizeKeepsLinks(db.Rows(), text);
          var changed := db.NormalizeDatabase();
      }
    }
    LinksGiveClasses(db.Rows(), text);
  }
}
