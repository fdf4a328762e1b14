/** The translation database: an index of list heads and a log of records. */
module TrDbs {
  import opened MappedFiles
  import opened Powers
  import opened TrDbLogs

  // The strings file begins with the number of bytes in use.
  ghost predicate GoodFile(s: seq<byte>) {
    8 <= |s| && Fits(WordAt(s, 0)) && HEADER <= WordAt(s, 0) <= |s|
  }

  function LogOf(s: seq<byte>): (log: seq<byte>)
    requires GoodFile(s)
    ensures HEADER + |log| == WordAt(s, 0)
  {
    s[HEADER..WordAt(s, 0)]
  }

  ghost predicate Consistent(offsets: seq<byte>, s: seq<byte>, chains: Chains, recs: Records) {
    && |offsets| % MEGABYTE == 0 && Indexed(offsets, chains)
    && GoodFile(s) && Holds(LogOf(s), recs)
    && Apart(recs) && Linked(chains, recs)
  }

  lemma LengthStored(s: seq<byte>, n: nat)
    requires HEADER <= n <= |s| && Fits(n)
    ensures GoodFile(Overwrite(s, 0, Word(n))) && LogOf(Overwrite(s, 0, Word(n))) == s[HEADER..n]
  {
    hide Word;
    hide Decode;
    WordRead(n);
    var s' := Overwrite(s, 0, Word(n));
    assert s'[0..0 + 8] == Word(n);
    assert s'[HEADER..n] == s[HEADER..n];
  }

  // The bytes behind the log overwritten, in a file that has grown.
  lemma LogLonger(s: seq<byte>, data: seq<byte>)
    requires GoodFile(s) && Fits(WordAt(s, 0) + |data|)
    ensures var length := WordAt(s, 0);
            var s1 := Overwrite(Grown(s, length + |data|), length, data);
            && GoodFile(s1) && WordAt(s1, 0) == length
            && var s2 := Overwrite(s1, 0, Word(length + |data|));
            GoodFile(s2) && LogOf(s2) == LogOf(s) + data
  {
    hide Word;
    hide Decode;
    var length := WordAt(s, 0);
    var g := Grown(s, length + |data|);
    var s1 := Overwrite(g, length, data);
    assert s1[0..0 + 8] == s[0..0 + 8];
    LengthStored(s1, length + |data|);
    assert s1[HEADER..length + |data|] == s1[HEADER..length] + s1[length..length + |data|];
    assert s1[HEADER..length] == s[HEADER..length];
  }

  // A word of the log overwritten.
  lemma LogPatched(s: seq<byte>, offset: nat, word: seq<byte>)
    requires GoodFile(s) && HEADER <= offset && offset + |word| <= WordAt(s, 0)
    ensures var s' := Overwrite(s, offset, word);
            GoodFile(s') && WordAt(s', 0) == WordAt(s, 0) && LogOf(s') == Overwrite(LogOf(s), offset - HEADER, word)
  {
    hide Decode;
    var s' := Overwrite(s, offset, word);
    assert s'[0..0 + 8] == s[0..0 + 8];
  }

  lemma JoinFive(log: seq<byte>, a: seq<byte>, b: seq<byte>, c: seq<byte>, d: seq<byte>, e: seq<byte>)
    ensures log + a + b + c + d + e == log + (a + (b + c + d + e))
  {
  }

  lemma SliceOfSlice(s: seq<byte>, a: nat, b: nat, from: nat, to: nat)
    requires a <= b <= |s| && from <= to <= b - a
    ensures s[a..b][from..to] == s[a + from..a + to]
  {
    assert forall i :: from <= i < to ==> s[a..b][from..to][i - from] == s[a..b][i] == s[a + i];
  }

  lemma LogShows(s: seq<byte>, offset: nat, bytes: seq<byte>)
    requires GoodFile(s) && HoldsAt(LogOf(s), offset, bytes)
    ensures HEADER <= offset && offset + |bytes| <= |s| && s[offset..offset + |bytes|] == bytes
  {
    var from := offset - HEADER;
    SliceOfSlice(s, HEADER, WordAt(s, 0), from, from + |bytes|);
  }

  // A list head entered for an id.
  lemma IndexedMore(offsets: seq<byte>, chains: Chains, id: nat, chain: seq<nat>)
    requires |offsets| % MEGABYTE == 0 && Indexed(offsets, chains)
    requires chain != [] && Fits(chain[0])
    ensures var offsets' := Overwrite(Grown(offsets, id * 8 + 8), id * 8, Word(chain[0]));
            |offsets'| % MEGABYTE == 0 && Indexed(offsets', chains[id := chain])
  {
    hide Decode;
    var grown := Grown(offsets, id * 8 + 8);
    var offsets' := Overwrite(grown, id * 8, Word(chain[0]));
    forall k: nat
      ensures NumberAt(offsets', k * 8, 8) == FirstOf(chains[id := chain], k)
    {
      Pow256Values();
      StoredNumber(grown, id, 8, chain[0], k);
      GrownNumber(offsets, id * 8 + 8, k, 8);
    }
  }

  lemma IndexedLonger(offsets: seq<byte>, chains: Chains, id: nat, offset: nat)
    requires Indexed(offsets, chains) && id in chains && chains[id] != []
    ensures Indexed(offsets, chains[id := chains[id] + [offset]])
  {
    forall k: nat
      ensures NumberAt(offsets, k * 8, 8) == FirstOf(chains[id := chains[id] + [offset]], k)
    {
      assert NumberAt(offsets, k * 8, 8) == FirstOf(chains, k);
    }
  }

  // The fields of a record as they stand in the file.
  lemma RecordShows(s: seq<byte>, offset: nat, r: Record)
    requires GoodFile(s) && HoldsAt(LogOf(s), offset, RecordBytes(r))
    ensures HEADER <= offset && offset + RecordSize(r.message) <= WordAt(s, 0)
    ensures Fits(r.next) ==> WordAt(s, offset) == r.next
    ensures s[offset + 16] == if r.message.fuzzy then 1 else 0
    ensures s[offset + 17] == PluralByte(r.message)
    ensures StringBytes(r.message.comment) <= s[offset + 18..]
  {
    hide Word;
    hide Decode;
    var bytes := RecordBytes(r);
    LogShows(s, offset, bytes);
    if Fits(r.next) {
      WordRead(r.next);
    }
    var shown := s[offset..offset + |bytes|];
    assert s[offset..offset + 8] == shown[..8] == Word(r.next);
    assert s[offset + 16] == shown[16] && s[offset + 17] == shown[17];
    assert s[offset + 18..][..|bytes| - 18] == shown[18..] == StringBytes(r.message.comment);
  }

  // ----- runs -----

  datatype Step =
    | AddMessage(id: nat, commit: nat, message: Message)
    | WriteCommit(date: int, commitId: seq<byte>, author: seq<byte>)

  function StepSize(step: Step): nat {
    match step
    case AddMessage(_, _, message) => WrittenSize(message)
    case WriteCommit(_, commitId, author) => 8 + |StringBytes(commitId)| + |StringBytes(author)|
  }

  function RunSize(steps: seq<Step>): nat {
    if steps == [] then 0 else RunSize(steps[..|steps| - 1]) + StepSize(steps[|steps| - 1])
  }

  lemma {:induction false} PrefixRunSize(steps: seq<Step>, i: nat)
    requires i <= |steps|
    ensures RunSize(steps[..i]) <= RunSize(steps)
  {
    if i < |steps| {
      var init := steps[..|steps| - 1];
      PrefixRunSize(init, i);
      assert init[..i] == steps[..i];
    } else {
      assert steps[..i] == steps;
    }
  }

  // The messages that a run adds to one id, in their order.
  function Added(steps: seq<Step>, id: nat): seq<Message> {
    if steps == [] then [] else Added(steps[..|steps| - 1], id) + AddedBy(steps[|steps| - 1], id)
  }

  function AddedBy(step: Step, id: nat): seq<Message> {
    if step.AddMessage? && step.id == id then [ReadBack(step.message)] else []
  }

  // The same messages as they were added.
  function AddedMessages(steps: seq<Step>, id: nat): seq<Message> {
    if steps == [] then []
    else
      var last := steps[|steps| - 1];
      AddedMessages(steps[..|steps| - 1], id) + if last.AddMessage? && last.id == id then [last.message] else []
  }

  // Listed are, in the same order, messages with the same fuzzy flags; with the
  // same comments if these hold no zero, with the same plural flags if the
  // number of forms fits.
  ghost predicate Show(listed: seq<Message>, added: seq<Message>) {
    && |listed| == |added|
    && forall k :: 0 <= k < |listed| ==>
         && listed[k].fuzzy == added[k].fuzzy
         && (0 !in added[k].comment ==> listed[k].comment == added[k].comment)
         && (1 <= |added[k].msgstr| < 128 ==> listed[k].plural == added[k].plural)
  }

  lemma {:induction false} AddedShow(steps: seq<Step>, id: nat)
    ensures Show(Added(steps, id), AddedMessages(steps, id))
  {
    hide Show;
    if steps == [] {
      ShowNothing();
    } else {
      AddedShow(steps[..|steps| - 1], id);
      var last := steps[|steps| - 1];
      var listed, added := Added(steps[..|steps| - 1], id), AddedMessages(steps[..|steps| - 1], id);
      if last.AddMessage? && last.id == id {
        ShowOneMore(listed, added, last.message);
      } else {
        assert listed + [] == listed && added + [] == added;
      }
    }
  }

  lemma ShowNothing()
    ensures Show([], [])
  {
  }

  lemma ShowOneMore(listed: seq<Message>, added: seq<Message>, message: Message)
    requires Show(listed, added)
    ensures Show(listed + [ReadBack(message)], added + [message])
  {
    hide ReadBack;
    ReadBackExact(message);
  }

  lemma {:induction false} PrefixSize(strings: seq<seq<byte>>, i: nat)
    requires i <= |strings|
    ensures |StringsBytes(strings[..i])| <= |StringsBytes(strings)|
  {
    if i < |strings| {
      var init := strings[..|strings| - 1];
      PrefixSize(init, i);
      assert init[..i] == strings[..i];
    } else {
      assert strings[..i] == strings;
    }
  }

  // Makes sure that a strings file holds at least its length.
  method OpenStrings(strings: MappedFile)
    requires strings.content == [] || GoodFile(strings.content)
    modifies strings
    ensures GoodFile(strings.content)
    ensures old(strings.content) == [] ==> LogOf(strings.content) == []
    ensures old(strings.content) != [] ==> strings.content == old(strings.content)
  {
    strings.Ptr(0, 8);
    ghost var blank := strings.content;
    if old(strings.content) == [] {
      DecodeZeros(blank[0..0 + 8]);
    }
    if WordAt(strings.content, 0) == 0 {
      LengthStored(blank, 8);
      strings.Store(0, Word(8));
    }
  }

  lemma NothingStored()
    ensures Indexed([], map[]) && Holds([], map[]) && Apart(map[]) && Linked(map[], map[])
  {
  }

  class TrDb {
    const offsets: MappedFile
    const strings: MappedFile
    ghost var chains: Chains
    ghost var recs: Records

    ghost predicate Valid()
      reads this, offsets, strings
    {
      offsets != strings && Consistent(offsets.content, strings.content, chains, recs)
    }

    ghost function Log(): seq<byte>
      requires Valid()
      reads this, offsets, strings
    {
      LogOf(strings.content)
    }

    // What the database holds for an id.
    ghost function Messages(id: nat): seq<Message>
      requires Valid()
      reads this, offsets, strings
    {
      Listed(chains, recs, id)
    }

    // Opens a database that is empty or was written before.
    constructor (offsets: MappedFile, strings: MappedFile, ghost chains: Chains, ghost recs: Records)
      requires offsets != strings
      requires (offsets.content == [] && strings.content == [] && chains == map[] && recs == map[]) ||
               Consistent(offsets.content, strings.content, chains, recs)
      modifies strings
      ensures Valid() && this.offsets == offsets && this.strings == strings
      ensures this.chains == chains && this.recs == recs
      ensures offsets.content == old(offsets.content)
      ensures old(strings.content) == [] ==> Log() == []
      ensures old(strings.content) != [] ==> strings.content == old(strings.content)
    {
      this.offsets := offsets;
      this.strings := strings;
      this.chains := chains;
      this.recs := recs;
      new;
      OpenStrings(strings);
      if old(strings.content) == [] {
        NothingStored();
      }
    }

    function CurrentOffset(): nat
      requires |strings.content| >= 8
      reads this, strings
    {
      WordAt(strings.content, 0)
    }

    method AppendData(data: seq<byte>)
      requires Valid() && data != [] && Fits(CurrentOffset() + |data|)
      modifies strings
      ensures Valid() && Log() == old(Log()) + data
    {
      ghost var s := strings.content;
      LogLonger(s, data);
      HoldsLonger(LogOf(s), data, recs);
      strings.Store(CurrentOffset(), data);
      strings.Store(0, Word(CurrentOffset() + |data|));
    }

    method AppendString(str: seq<byte>)
      requires Valid() && Fits(CurrentOffset() + |StringBytes(str)|)
      modifies strings
      ensures Valid() && Log() == old(Log()) + StringBytes(str)
    {
      AppendData(StringBytes(str));
    }

    // Writes a record up to the end of the comment.
    method WriteRecord(commit: nat, message: Message)
      requires Valid() && Fits(CurrentOffset() + RecordSize(message))
      modifies strings
      ensures Valid() && Log() == old(Log()) + (Word(0) + Tail(commit, message))
    {
      hide Word;
      hide LogOf;
      hide Cut;
      ghost var before := Log();
      AppendData(Word(0));
      AppendData(Word(commit));
      AppendData([if message.fuzzy then 1 else 0]);
      AppendData([PluralByte(message)]);
      AppendString(message.comment);
      JoinFive(before, Word(0), Word(commit), [if message.fuzzy then 1 else 0], [PluralByte(message)],
        StringBytes(message.comment));
    }

    // Writes the translations, which nothing reads.
    method WriteStrings(list: seq<seq<byte>>)
      requires Valid() && Fits(CurrentOffset() + |StringsBytes(list)|)
      modifies strings
      ensures Valid() && Log() == old(Log()) + StringsBytes(list)
    {
      hide Consistent;
      hide Cut;
      for i := 0 to |list|
        invariant Valid() && Log() == old(Log()) + StringsBytes(list[..i])
      {
        PrefixSize(list, i + 1);
        assert list[..i + 1][..i] == list[..i];
        AppendString(list[i]);
      }
      assert list[..|list|] == list;
    }

    // Writes a message that is not yet in any list.
    method WriteMessage(commit: nat, message: Message, ghost id: nat) returns (offset: nat)
      requires Valid() && Fits(CurrentOffset() + WrittenSize(message))
      modifies strings
      ensures Valid() && offset == old(CurrentOffset())
      ensures Log() == old(Log()) + RecordBytes(Record(id, 0, commit, message)) + StringsBytes(message.msgstr)
    {
      offset := CurrentOffset();
      WriteRecord(commit, message);
      WriteStrings(message.msgstr);
    }

    // Stores `next` in the record at `offset`.
    method SetNext(offset: nat, next: nat, ghost recs: Records)
      requires GoodFile(strings.content) && Holds(LogOf(strings.content), recs) && Apart(recs)
      requires offset in recs && Fits(next)
      modifies strings
      ensures GoodFile(strings.content) && CurrentOffset() == old(CurrentOffset())
      ensures var recs' := recs[offset := recs[offset].(next := next)];
              Holds(LogOf(strings.content), recs') && Apart(recs')
    {
      HoldsLink(LogOf(strings.content), recs, offset, next);
      LogPatched(strings.content, offset, Word(next));
      strings.Store(offset, Word(next));
    }

    lemma LogIsGood()
      requires Valid()
      ensures GoodFile(strings.content)
    {
    }

    method ReadOffset(id: nat) returns (offset: nat)
      requires Valid()
      ensures offset == FirstOf(chains, id)
    {
      if 8 * (id + 1) > offsets.FileLength() {
        offset := 0;
      } else {
        offset := Decode(offsets.PtrConst(id * 8, 8));
      }
      assert offset == NumberAt(offsets.content, id * 8, 8);
    }

    lemma RecordAt(offset: nat)
      requires Valid() && offset in recs && Fits(recs[offset].next)
      ensures HEADER <= offset && offset + RecordSize(recs[offset].message) <= CurrentOffset()
      ensures WordAt(strings.content, offset) == recs[offset].next
    {
      assert HoldsAt(LogOf(strings.content), offset, RecordBytes(recs[offset]));
      RecordShows(strings.content, offset, recs[offset]);
    }

    // Records of a list lie in the file.
    lemma LinkFits(id: nat, i: nat)
      requires Valid() && id in chains && i < |chains[id]|
      ensures Fits(chains[id][i]) && chains[id][i] > 0
    {
      hide RecordBytes;
      hide Apart;
      hide Indexed;
      var offset := chains[id][i];
      assert IsChain(id, chains[id], recs) && offset in recs;
      assert HoldsAt(LogOf(strings.content), offset, RecordBytes(recs[offset]));
    }

    // The i-th record of a list as it stands in the file.
    lemma LinkShows(id: nat, i: nat)
      requires Valid() && id in chains && i < |chains[id]|
      ensures var offset := chains[id][i];
              && offset in recs
              && HEADER <= offset && offset + RecordSize(recs[offset].message) <= CurrentOffset()
              && WordAt(strings.content, offset) == if i + 1 < |chains[id]| then chains[id][i + 1] else 0
    {
      hide RecordBytes;
      hide Apart;
      hide Indexed;
      hide LogOf;
      hide Holds;
      hide RecordSize;
      var chain := chains[id];
      assert IsChain(id, chain, recs);
      if i + 1 < |chain| {
        LinkFits(id, i + 1);
      }
      RecordAt(chain[i]);
    }

    // Where the record at `offset`, the i-th of its list, points to.
    method ListNext(offset: nat, ghost id: nat, ghost i: nat) returns (next: nat)
      requires Valid() && id in chains && i < |chains[id]| && offset == chains[id][i]
      ensures next == if i + 1 < |chains[id]| then chains[id][i + 1] else 0
      ensures next != 0 <==> i + 1 < |chains[id]|
    {
      hide Decode;
      hide Consistent;
      LinkShows(id, i);
      if i + 1 < |chains[id]| {
        LinkFits(id, i + 1);
      }
      assert GoodFile(strings.content) by {
        LogIsGood();
      }
      next := Decode(strings.PtrConst(offset, 8));
    }

    // The last record of the list that `start`, its record number `from`, is in.
    method ListLast(start: nat, ghost id: nat, ghost from: nat) returns (offset: nat)
      requires Valid() && id in chains && from < |chains[id]| && start == chains[id][from]
      ensures offset == chains[id][|chains[id]| - 1]
    {
      offset := start;
      ghost var i := from;
      var next := ListNext(offset, id, i);
      while next != 0
        invariant i < |chains[id]| && offset == chains[id][i]
        invariant next == if i + 1 < |chains[id]| then chains[id][i + 1] else 0
        invariant next != 0 <==> i + 1 < |chains[id]|
        decreases |chains[id]| - i
      {
        offset := next;
        i := i + 1;
        next := ListNext(offset, id, i);
      }
    }

    // Appends a message to the list of an id.
    method AddIdMessage(id: nat, commit: nat, message: Message)
      requires Valid() && Fits(CurrentOffset() + WrittenSize(message))
      modifies this, offsets, strings
      ensures Valid() && CurrentOffset() == old(CurrentOffset()) + WrittenSize(message)
      ensures Messages(id) == old(Messages(id)) + [ReadBack(message)]
      ensures forall k: nat :: k != id ==> Messages(k) == old(Messages(k))
    {
      var first := ReadOffset(id);
      if first == 0 {
        NewList(id, commit, message);
      } else {
        ListAppendMessage(first, commit, message, id, 0);
      }
    }

    method NewList(id: nat, commit: nat, message: Message)
      requires Valid() && FirstOf(chains, id) == 0
      requires Fits(CurrentOffset() + WrittenSize(message))
      modifies this, offsets, strings
      ensures Valid() && CurrentOffset() == old(CurrentOffset()) + WrittenSize(message)
      ensures Messages(id) == old(Messages(id)) + [ReadBack(message)]
      ensures forall k: nat :: k != id ==> Messages(k) == old(Messages(k))
    {
      hide RecordBytes;
      hide StringsBytes;
      hide Overwrite;
      hide Holds;
      hide Apart;
      hide Indexed;
      hide Listed;
      hide LogOf;
      if id in chains {
        LinkFits(id, 0);
      }
      ghost var r := Record(id, 0, commit, message);
      HoldsMore(Log(), r, StringsBytes(message.msgstr), recs);
      var offset := WriteMessage(commit, message, id);
      ChainsMore(chains, recs, id, offset, r);
      IndexedMore(offsets.content, chains, id, [offset]);
      offsets.Store(id * 8, Word(offset));
      chains, recs := chains[id := [offset]], recs[offset := r];
    }

    // Appends a message to the list that the record at `start` is in, as its
    // record number `from`.
    method ListAppendMessage(start: nat, commit: nat, message: Message, ghost id: nat, ghost from: nat)
      requires Valid() && id in chains && from < |chains[id]| && start == chains[id][from]
      requires Fits(CurrentOffset() + WrittenSize(message))
      modifies this, strings
      ensures Valid() && CurrentOffset() == old(CurrentOffset()) + WrittenSize(message)
      ensures Messages(id) == old(Messages(id)) + [ReadBack(message)]
      ensures forall k: nat :: k != id ==> Messages(k) == old(Messages(k))
    {
      hide RecordBytes;
      hide StringsBytes;
      hide Indexed;
      hide Holds;
      hide Apart;
      hide Linked;
      hide Listed;
      hide LogOf;
      ghost var r := Record(id, 0, commit, message);
      HoldsMore(Log(), r, StringsBytes(message.msgstr), recs);
      var offsetNew := WriteMessage(commit, message, id);
      var offsetLast := ListLast(start, id, from);
      Link(offsetLast, offsetNew, id, r);
    }

    // Puts a record that has been written behind the last record of a list.
    method Link(offsetLast: nat, offsetNew: nat, ghost id: nat, ghost r: Record)
      requires Valid() && id in chains && offsetLast == chains[id][|chains[id]| - 1] && Fits(offsetNew)
      requires Holds(Log(), recs[offsetNew := r]) && Apart(recs[offsetNew := r])
      requires offsetNew > 0 && forall q :: q in recs ==> q < offsetNew
      requires r.id == id && r.next == 0
      modifies this, strings
      ensures Valid() && CurrentOffset() == old(CurrentOffset())
      ensures Messages(id) == old(Messages(id)) + [ReadBack(r.message)]
      ensures forall k: nat :: k != id ==> Messages(k) == old(Messages(k))
    {
      hide RecordBytes;
      hide Overwrite;
      hide Indexed;
      ChainLonger(chains, recs, id, offsetNew, r);
      IndexedLonger(offsets.content, chains, id, offsetNew);
      ghost var recs' := recs[offsetNew := r];
      SetNext(offsetLast, offsetNew, recs');
      recs := recs'[offsetLast := recs'[offsetLast].(next := offsetNew)];
      chains := chains[id := chains[id] + [offsetNew]];
    }

    // The string that begins at `offset`, up to its zero.
    method ReadString(offset: nat, ghost expected: seq<byte>) returns (str: seq<byte>)
      requires offset <= |strings.content|
      requires 0 !in expected && expected + [0] <= strings.content[offset..]
      ensures str == expected
    {
      ghost var memory := strings.content[offset..];
      var end := offset;
      while strings.content[end] != 0
        invariant offset <= end <= offset + |expected|
        invariant forall i :: offset <= i < end ==> strings.content[i] != 0
        decreases offset + |expected| - end
      {
        assert strings.content[end] == memory[end - offset];
        assert memory[|expected|] == 0;
        end := end + 1;
      }
      str := strings.content[offset..end];
      assert str + [0] <= memory;
      StringRead(expected, str, memory);
    }

    method ReadMessage(offset: nat, ghost id: nat, ghost i: nat) returns (message: Message)
      requires Valid() && id in chains && i < |chains[id]| && offset == chains[id][i]
      modifies strings
      ensures strings.content == old(strings.content)
      ensures offset in recs && message == ReadBack(recs[offset].message)
    {
      hide Consistent;
      hide Cut;
      LinkShows(id, i);
      LogIsGood();
      FieldsShow(offset);
      var fuzzy := strings.PtrConst(offset + 16, 1)[0] == 1;
      var nPlurals := strings.PtrConst(offset + 17, 1)[0];
      strings.Ptr(offset + 18, 1);
      var comment := ReadString(offset + 18, Cut(recs[offset].message.comment));
      // The byte is a signed char.
      var signed := nPlurals as int - if nPlurals < 128 then 0 else 256;
      message := Message(fuzzy, signed > 0, [], comment);
    }

    lemma FieldsShow(offset: nat)
      requires Valid() && offset in recs && GoodFile(strings.content)
      ensures HEADER <= offset && offset + RecordSize(recs[offset].message) <= |strings.content|
      ensures var s, message := strings.content, recs[offset].message;
              && s[offset + 16] == (if message.fuzzy then 1 else 0)
              && s[offset + 17] == PluralByte(message)
              && StringBytes(message.comment) <= s[offset + 18..]
    {
      assert HoldsAt(LogOf(strings.content), offset, RecordBytes(recs[offset]));
      RecordShows(strings.content, offset, recs[offset]);
    }

    // All messages of an id, in the order in which they were added.
    method GetMessages(id: nat) returns (res: seq<Message>)
      requires Valid()
      modifies strings
      ensures strings.content == old(strings.content)
      ensures res == Messages(id)
    {
      hide Holds;
      hide Apart;
      hide Indexed;
      hide ReadBack;
      res := [];
      var offset := ReadOffset(id);
      ghost var i := 0;
      if offset != 0 {
        assert id in chains;
      } else if id in chains {
        LinkFits(id, 0);
      }
      while offset != 0
        invariant Valid() && strings.content == old(strings.content)
        invariant id in chains ==> 0 <= i <= |chains[id]| && res == MessagesOf(chains[id][..i], recs)
        invariant id !in chains ==> offset == 0 && res == []
        invariant id in chains ==> (offset != 0 <==> i < |chains[id]|)
        invariant offset != 0 ==> id in chains && offset == chains[id][i]
        decreases if id in chains then |chains[id]| - i else 0
      {
        ghost var chain := chains[id];
        var message := ReadMessage(offset, id, i);
        assert chain[..i + 1][..i] == chain[..i];
        res := res + [message];
        offset := ListNext(offset, id, i);
        i := i + 1;
      }
      if id in chains {
        assert chains[id][..|chains[id]|] == chains[id];
      }
    }

    method Do(step: Step)
      requires Valid() && Fits(CurrentOffset() + StepSize(step))
      modifies this, offsets, strings
      ensures Valid() && CurrentOffset() == old(CurrentOffset()) + StepSize(step)
      ensures forall id: nat :: Messages(id) == old(Messages(id)) + AddedBy(step, id)
    {
      hide Consistent;
      hide WrittenSize;
      hide Listed;
      LogIsGood();
      match step {
        case AddMessage(id, commit, message) =>
          AddIdMessage(id, commit, message);
        case WriteCommit(date, commitId, author) =>
          var commitInfo := new CommitInfo(date, commitId, author);
          commitInfo.Write(this);
      }
    }

    method Run(steps: seq<Step>)
      requires Valid() && Fits(CurrentOffset() + RunSize(steps))
      modifies this, offsets, strings
      ensures Valid()
      ensures forall id: nat :: Messages(id) == old(Messages(id)) + Added(steps, id)
      ensures forall id: nat :: Show(Added(steps, id), AddedMessages(steps, id))
    {
      hide Consistent;
      hide WrittenSize;
      hide Listed;
      hide WordAt;
      hide StringBytes;
      hide ReadBack;
      hide Show;
      forall id: nat
        ensures Show(Added(steps, id), AddedMessages(steps, id))
      {
        AddedShow(steps, id);
      }
      LogIsGood();
      for i := 0 to |steps|
        invariant GoodFile(strings.content)
        invariant Valid() && CurrentOffset() == old(CurrentOffset()) + RunSize(steps[..i])
        invariant forall id: nat :: Messages(id) == old(Messages(id)) + Added(steps[..i], id)
      {
        PrefixRunSize(steps, i + 1);
        assert steps[..i + 1][..i] == steps[..i];
        Do(steps[i]);
        LogIsGood();
      }
      assert steps[..|steps|] == steps;
    }
  }

  // What is known about a commit, and where it has been written.
  class CommitInfo {
    const date: int
    const commitId: seq<byte>
    const author: seq<byte>
    var dbOffset: nat

    constructor (date: int, commitId: seq<byte>, author: seq<byte>)
      ensures this.date == date && this.commitId == commitId && this.author == author
    {
      this.date := date;
      this.commitId := commitId;
      this.author := author;
    }

    // Raw data between the records; no list of messages changes.
    method Write(db: TrDb)
      requires db.Valid()
      requires Fits(db.CurrentOffset() + 8 + |StringBytes(commitId)| + |StringBytes(author)|)
      modifies this, db.strings
      ensures db.Valid() && dbOffset == old(db.CurrentOffset())
      ensures db.Log() == old(db.Log()) + DateBytes(date) + StringBytes(commitId) + StringBytes(author)
      ensures db.CurrentOffset() == old(db.CurrentOffset()) + 8 + |StringBytes(commitId)| + |StringBytes(author)|
      ensures forall id: nat :: db.Messages(id) == old(db.Messages(id))
    {
      hide StringBytes;
      dbOffset := db.CurrentOffset();
      db.AppendData(DateBytes(date));
      db.AppendString(commitId);
      db.AppendString(author);
    }
  }

  // A time as eight bytes, two's complement.
  function DateBytes(date: int): (b: seq<byte>)
    ensures |b| == 8
  {
    Word(date % 0x1_0000_0000_0000_0000)
  }
}
