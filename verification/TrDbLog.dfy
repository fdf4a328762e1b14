/** What the append-only string log of the translation database holds: records
    of messages, linked into one list for every message id. */
module TrDbLogs {
  import opened MappedFiles
  import opened Powers
  import opened Sequences

  // A message with its translations and the translators' comment.
  datatype Message = Message(fuzzy: bool, plural: bool, msgstr: seq<seq<byte>>, comment: seq<byte>)

  // ----- bytes -----

  const HEADER := 8

  function Word(n: nat): (b: seq<byte>)
    ensures |b| == 8
  {
    Encode(n, 8)
  }

  function WordAt(s: seq<byte>, offset: nat): nat
    requires offset + 8 <= |s|
  {
    Decode(s[offset..offset + 8])
  }

  predicate Fits(n: nat) {
    n < 0x8000_0000_0000_0000
  }

  lemma WordRead(n: nat)
    requires Fits(n)
    ensures Decode(Word(n)) == n
  {
    hide Encode;
    hide Decode;
    Pow256Values();
    DecodeEncode(n, 8);
  }

  // What strlen and c_str see of a string: all up to the first zero.
  function Cut(s: seq<byte>): (c: seq<byte>)
    ensures c <= s && 0 !in c && (|c| < |s| ==> s[|c|] == 0)
    ensures 0 !in s ==> c == s
  {
    if s == [] || s[0] == 0 then [] else [s[0]] + Cut(s[1..])
  }

  function StringBytes(s: seq<byte>): seq<byte> {
    Cut(s) + [0]
  }

  function StringsBytes(strings: seq<seq<byte>>): seq<byte> {
    if strings == [] then []
    else StringsBytes(strings[..|strings| - 1]) + StringBytes(strings[|strings| - 1])
  }

  // The strings stand one behind the other, each with its zero.
  lemma {:induction false} StringsInOrder(first: seq<byte>, others: seq<seq<byte>>)
    ensures StringsBytes([first] + others) == StringBytes(first) + StringsBytes(others)
    decreases |others|
  {
    hide StringBytes;
    var all := [first] + others;
    if others == [] {
      assert all[..0] == [] && all[0] == first;
    } else {
      var init, last := others[..|others| - 1], others[|others| - 1];
      StringsInOrder(first, init);
      assert all[..|all| - 1] == [first] + init;
      Assoc(StringBytes(first), StringsBytes(init), StringBytes(last));
    }
  }

  // Memory determines the string that begins at a place.
  lemma StringRead(c: seq<byte>, s: seq<byte>, memory: seq<byte>)
    requires 0 !in c && 0 !in s && c + [0] <= memory && s + [0] <= memory
    ensures c == s
  {
    if |c| < |s| {
      LongerDiffers(c, s);
    } else if |s| < |c| {
      LongerDiffers(s, c);
    } else {
      assert c == memory[..|c|] && s == memory[..|c|];
    }
  }

  lemma LongerDiffers(c: seq<byte>, s: seq<byte>)
    requires 0 !in s && |c| < |s|
    ensures (c + [0])[|c|] != (s + [0])[|c|]
  {
    assert s[|c|] in s;
  }

  // ----- records -----

  // One record: the list it belongs to, where the next record of the list and
  // the information about the commit are, and the message.
  datatype Record = Record(id: nat, next: nat, commit: nat, message: Message)

  function PluralByte(message: Message): byte {
    if message.plural then |message.msgstr| % 256 else 0
  }

  // A record up to the end of the comment; the translations come after it.
  function Tail(commit: nat, message: Message): seq<byte> {
    Word(commit) + [if message.fuzzy then 1 else 0] + [PluralByte(message)] + StringBytes(message.comment)
  }

  function RecordBytes(r: Record): (b: seq<byte>)
    ensures |b| == RecordSize(r.message)
  {
    Word(r.next) + Tail(r.commit, r.message)
  }

  function RecordSize(message: Message): nat {
    8 + 8 + 1 + 1 + |Cut(message.comment)| + 1
  }

  function WrittenSize(message: Message): nat {
    RecordSize(message) + |StringsBytes(message.msgstr)|
  }

  // The message that is read back: no translations, and the plural flag is the
  // sign of a signed byte.
  function ReadBack(message: Message): Message {
    Message(message.fuzzy, 0 < PluralByte(message) < 128, [], Cut(message.comment))
  }

  // What is where in a record: the next record, the commit, the fuzzy flag, the
  // number of plural forms, the comment and its zero.
  lemma RecordLayout(r: Record)
    ensures var b, m := RecordBytes(r), r.message;
            && b[0..8] == Encode(r.next, 8) && b[8..16] == Encode(r.commit, 8)
            && (b[16] == 1 <==> m.fuzzy) && (b[16] == 0 <==> !m.fuzzy)
            && b[17] == (if m.plural then |m.msgstr| % 256 else 0)
            && b[18..] == Cut(m.comment) + [0]
  {
    hide Encode;
    hide Cut;
  }

  // The fuzzy flag always survives, the plural flag and the comment for all
  // sensible messages.
  lemma ReadBackExact(message: Message)
    ensures ReadBack(message).fuzzy == message.fuzzy
    ensures ReadBack(message).plural == message.plural <==> (message.plural ==> 0 < |message.msgstr| % 256 < 128)
    ensures ReadBack(message).comment == message.comment <==> 0 !in message.comment
    ensures ReadBack(message).msgstr == message.msgstr <==> message.msgstr == []
  {
  }

  // ----- the log -----

  type Records = map<nat, Record>
  type Chains = map<nat, seq<nat>>

  // Every record stands in the log where the file offset says; the log begins
  // behind the stored length.
  ghost predicate Holds(log: seq<byte>, recs: Records) {
    forall r :: r in recs ==> HoldsAt(log, r, RecordBytes(recs[r]))
  }

  predicate HoldsAt(log: seq<byte>, offset: nat, bytes: seq<byte>) {
    && HEADER <= offset && offset - HEADER + |bytes| <= |log|
    && log[offset - HEADER..offset - HEADER + |bytes|] == bytes
  }

  ghost predicate Apart(recs: Records) {
    forall r, q :: r in recs && q in recs && r < q ==> r + RecordSize(recs[r].message) <= q
  }

  // The records of an id, from the first to the last; later ones come later in
  // the log.
  ghost predicate IsChain(id: nat, chain: seq<nat>, recs: Records) {
    && chain != []
    && (forall i :: 0 <= i < |chain| ==> chain[i] in recs && recs[chain[i]].id == id)
    && (forall i :: 0 <= i < |chain| - 1 ==> recs[chain[i]].next == chain[i + 1] > chain[i])
    && recs[chain[|chain| - 1]].next == 0
  }

  ghost predicate Linked(chains: Chains, recs: Records) {
    forall id :: id in chains ==> IsChain(id, chains[id], recs)
  }

  function FirstOf(chains: Chains, id: nat): nat {
    if id in chains && chains[id] != [] then chains[id][0] else 0
  }

  ghost predicate Indexed(offsets: seq<byte>, chains: Chains) {
    forall id: nat :: NumberAt(offsets, id * 8, 8) == FirstOf(chains, id)
  }

  function MessagesOf(chain: seq<nat>, recs: Records): (messages: seq<Message>)
    requires forall i :: 0 <= i < |chain| ==> chain[i] in recs
    ensures |messages| == |chain|
  {
    if chain == [] then []
    else MessagesOf(chain[..|chain| - 1], recs) + [ReadBack(recs[chain[|chain| - 1]].message)]
  }

  // What the database holds for an id.
  ghost function Listed(chains: Chains, recs: Records, id: nat): seq<Message>
    requires Linked(chains, recs)
  {
    if id in chains then MessagesOf(chains[id], recs) else []
  }

  // ----- steps -----

  lemma HoldsLonger(log: seq<byte>, data: seq<byte>, recs: Records)
    requires Holds(log, recs)
    ensures Holds(log + data, recs)
  {
    forall r | r in recs
      ensures HoldsAt(log + data, r, RecordBytes(recs[r]))
    {
      var from, to := r - HEADER, r - HEADER + |RecordBytes(recs[r])|;
      assert (log + data)[from..to] == log[from..to];
    }
  }

  // A record written at the end of the log.
  lemma HoldsMore(log: seq<byte>, r: Record, rest: seq<byte>, recs: Records)
    requires Holds(log, recs) && Apart(recs)
    ensures var offset := HEADER + |log|;
            var recs' := recs[offset := r];
            && offset !in recs
            && Holds(log + RecordBytes(r) + rest, recs') && Apart(recs')
            && forall q :: q in recs ==> q < offset
  {
    var offset := HEADER + |log|;
    HoldsLonger(log, RecordBytes(r) + rest, recs);
    assert log + (RecordBytes(r) + rest) == log + RecordBytes(r) + rest;
    forall q | q in recs
      ensures q + RecordSize(recs[q].message) <= offset && q < offset
    {
      assert HoldsAt(log, q, RecordBytes(recs[q]));
    }
    assert (log + RecordBytes(r) + rest)[|log|..|log| + |RecordBytes(r)|] == RecordBytes(r);
  }

  // The link of one record overwritten.
  lemma HoldsLink(log: seq<byte>, recs: Records, r: nat, next: nat)
    requires Holds(log, recs) && Apart(recs) && r in recs
    ensures HEADER <= r && r - HEADER + 8 <= |log|
    ensures var recs' := recs[r := recs[r].(next := next)];
            Holds(Overwrite(log, r - HEADER, Word(next)), recs') && Apart(recs')
  {
    hide RecordBytes;
    hide Word;
    var recs' := recs[r := recs[r].(next := next)];
    assert HoldsAt(log, r, RecordBytes(recs[r]));
    LinkedRecord(log, r, recs[r], next);
    forall q | q in recs && q != r
      ensures HoldsAt(Overwrite(log, r - HEADER, Word(next)), q, RecordBytes(recs[q]))
    {
      assert HoldsAt(log, q, RecordBytes(recs[q]));
      OverwriteElsewhere(log, r - HEADER, Word(next), q - HEADER, |RecordBytes(recs[q])|);
    }
  }

  lemma LinkedRecord(log: seq<byte>, offset: nat, r: Record, next: nat)
    requires HoldsAt(log, offset, RecordBytes(r))
    ensures HoldsAt(Overwrite(log, offset - HEADER, Word(next)), offset, RecordBytes(r.(next := next)))
  {
    LinkInside(log, offset - HEADER, Word(next), Word(r.next), Tail(r.commit, r.message));
  }

  lemma LinkInside(log: seq<byte>, from: nat, word: seq<byte>, before: seq<byte>, tail: seq<byte>)
    requires |word| == |before| && from + |before| + |tail| <= |log|
    requires log[from..from + |before| + |tail|] == before + tail
    ensures Overwrite(log, from, word)[from..from + |before| + |tail|] == word + tail
  {
    var log' := Overwrite(log, from, word);
    var to := from + |before| + |tail|;
    assert log'[from..to] == log'[from..from + |word|] + log'[from + |word|..to];
    assert log'[from + |word|..to] == log[from + |word|..to];
    assert log[from + |word|..to] == log[from..to][|word|..] == tail;
  }

  // A new list of one record.
  lemma ChainsMore(chains: Chains, recs: Records, id: nat, offset: nat, r: Record)
    requires Linked(chains, recs) && id !in chains && offset !in recs
    requires r.id == id && r.next == 0
    ensures var chains', recs' := chains[id := [offset]], recs[offset := r];
            && Linked(chains', recs')
            && Listed(chains', recs', id) == Listed(chains, recs, id) + [ReadBack(r.message)]
            && forall k :: k != id ==> Listed(chains', recs', k) == Listed(chains, recs, k)
  {
    var chains', recs' := chains[id := [offset]], recs[offset := r];
    forall k | k in chains
      ensures IsChain(k, chains[k], recs') && MessagesOf(chains[k], recs') == MessagesOf(chains[k], recs)
    {
      ChainKept(k, chains[k], recs, recs');
    }
    assert [offset][..0] == [];
  }

  lemma ChainKept(id: nat, chain: seq<nat>, recs: Records, recs': Records)
    requires IsChain(id, chain, recs)
    requires forall r :: r in chain ==> r in recs' && recs'[r] == recs[r]
    ensures IsChain(id, chain, recs') && MessagesOf(chain, recs') == MessagesOf(chain, recs)
  {
    assert forall i :: 0 <= i < |chain| ==> chain[i] in chain;
    SameMessages(chain, recs, recs');
  }

  lemma {:induction false} SameMessages(chain: seq<nat>, recs: Records, recs': Records)
    requires forall i :: 0 <= i < |chain| ==> chain[i] in recs && chain[i] in recs'
    requires forall i :: 0 <= i < |chain| ==> recs'[chain[i]].message == recs[chain[i]].message
    ensures MessagesOf(chain, recs') == MessagesOf(chain, recs)
  {
    if chain != [] {
      SameMessages(chain[..|chain| - 1], recs, recs');
    }
  }

  // A record linked behind the last one of a list.
  lemma ChainLonger(chains: Chains, recs: Records, id: nat, offset: nat, r: Record)
    requires Linked(chains, recs) && id in chains && offset > 0
    requires r.id == id && r.next == 0 && forall q :: q in recs ==> q < offset
    ensures var last := chains[id][|chains[id]| - 1];
            var chains', recs' := chains[id := chains[id] + [offset]], recs[offset := r];
            var recs'' := recs'[last := recs'[last].(next := offset)];
            && Linked(chains', recs'')
            && Listed(chains', recs'', id) == Listed(chains, recs, id) + [ReadBack(r.message)]
            && forall k :: k != id ==> Listed(chains', recs'', k) == Listed(chains, recs, k)
  {
    var chain := chains[id];
    var last := chain[|chain| - 1];
    var chains', recs' := chains[id := chain + [offset]], recs[offset := r];
    var recs'' := recs'[last := recs'[last].(next := offset)];
    forall k | k in chains && k != id
      ensures IsChain(k, chains[k], recs'') && MessagesOf(chains[k], recs'') == MessagesOf(chains[k], recs)
    {
      ChainKept(k, chains[k], recs, recs'');
    }
    ChainExtended(id, chain, recs, offset, r);
    assert (chain + [offset])[..|chain|] == chain;
    SameMessages(chain, recs, recs'');
  }

  lemma ChainExtended(id: nat, chain: seq<nat>, recs: Records, offset: nat, r: Record)
    requires IsChain(id, chain, recs) && offset > 0
    requires r.id == id && r.next == 0 && forall q :: q in recs ==> q < offset
    ensures var last := chain[|chain| - 1];
            var recs' := recs[offset := r];
            IsChain(id, chain + [offset], recs'[last := recs'[last].(next := offset)])
  {
    ChainIncreases(id, chain, recs);
  }

  lemma ChainIncreases(id: nat, chain: seq<nat>, recs: Records)
    requires IsChain(id, chain, recs)
    ensures forall i, j :: 0 <= i < j < |chain| ==> chain[i] < chain[j]
  {
    forall i, j | 0 <= i < j < |chain|
      ensures chain[i] < chain[j]
    {
      var k := i + 1;
      while k < j
        invariant i < k <= j && chain[i] < chain[k]
      {
        assert recs[chain[k]].next == chain[k + 1];
        k := k + 1;
      }
    }
  }
}
