/** The database of collapsed message ids: rows of four bytes in a mapped file. */
module IdMapDbs {
  import opened IdForest
  import opened MappedFiles
  import opened Powers

  const ROW_SIZE := 4
  const FIRST_ID := 100
  const MAX_ID := 100_000_000

  // The table of rows that a file holds.
  function RowsOf(content: seq<byte>): (rows: seq<nat>)
    ensures |rows| == |content| / ROW_SIZE
    ensures forall id :: 0 <= id < |rows| ==> rows[id] == NumberAt(content, id * ROW_SIZE, ROW_SIZE)
  {
    seq(|content| / ROW_SIZE, id requires 0 <= id < |content| / ROW_SIZE => NumberAt(content, id * ROW_SIZE, ROW_SIZE))
  }

  // Only ids from 100 on have been collapsed.
  ghost predicate LowRowsEmpty(rows: seq<nat>) {
    forall id :: 0 <= id < FIRST_ID ==> At(rows, id) == 0
  }

  function CountNonNormal(rows: seq<nat>, n: nat): nat
    requires Forest(rows) && n <= |rows|
  {
    if n == 0 then 0
    else CountNonNormal(rows, n - 1) +
         if n - 1 >= FIRST_ID && rows[n - 1] != 0 && rows[n - 1] != Root(rows, n - 1) then 1 else 0
  }

  lemma RowsAt(content: seq<byte>, id: nat)
    requires |content| % MEGABYTE == 0
    ensures At(RowsOf(content), id) == NumberAt(content, id * ROW_SIZE, ROW_SIZE)
  {
  }

  // A row is four bytes of the file, the lowest first.
  lemma RowBytes(content: seq<byte>, id: nat)
    requires 4 * id + 4 <= |content|
    ensures var b := content[4 * id..4 * id + 4];
            At(RowsOf(content), id) ==
            b[0] as int + 256 * (b[1] as int + 256 * (b[2] as int + 256 * b[3] as int))
  {
    var b := content[id * ROW_SIZE..id * ROW_SIZE + ROW_SIZE];
    FourByteNumber(b);
    assert id < |content| / ROW_SIZE;
  }

  // The rows that hold an id other than their root.
  ghost function NonNormalRows(rows: seq<nat>, n: nat): set<nat>
    requires Forest(rows) && n <= |rows|
  {
    set id: nat | id < n && id >= FIRST_ID && rows[id] != 0 && rows[id] != Root(rows, id)
  }

  lemma {:induction false} CountIsNumberOfRows(rows: seq<nat>, n: nat)
    requires Forest(rows) && n <= |rows|
    ensures CountNonNormal(rows, n) == |NonNormalRows(rows, n)|
  {
    if n == 0 {
      assert NonNormalRows(rows, n) == {};
    } else {
      CountIsNumberOfRows(rows, n - 1);
      if n - 1 >= FIRST_ID && rows[n - 1] != 0 && rows[n - 1] != Root(rows, n - 1) {
        assert NonNormalRows(rows, n) == NonNormalRows(rows, n - 1) + {n - 1};
      } else {
        assert NonNormalRows(rows, n) == NonNormalRows(rows, n - 1);
      }
    }
  }

  lemma StoredRow(content: seq<byte>, id: nat, v: nat)
    requires |content| % MEGABYTE == 0 && v < 0x1_0000_0000
    ensures var g := Overwrite(Grown(content, id * ROW_SIZE + ROW_SIZE), id * ROW_SIZE, Encode(v, ROW_SIZE));
            |g| % MEGABYTE == 0 && Written(RowsOf(content), id, v, RowsOf(g))
  {
    var full := Grown(content, id * ROW_SIZE + ROW_SIZE);
    var g := Overwrite(full, id * ROW_SIZE, Encode(v, ROW_SIZE));
    Pow256Values();
    forall x
      ensures At(RowsOf(g), x) == if x == id then v else At(RowsOf(content), x)
    {
      RowsAt(content, x);
      RowsAt(g, x);
      GrownNumber(content, id * ROW_SIZE + ROW_SIZE, x, ROW_SIZE);
      StoredNumber(full, id, ROW_SIZE, v, x);
    }
  }

  class IdMapDb {
    const file: MappedFile

    ghost function Rows(): seq<nat>
      reads this, file
    {
      RowsOf(file.content)
    }

    ghost predicate Valid()
      reads this, file
    {
      |file.content| % MEGABYTE == 0 && Forest(Rows()) && LowRowsEmpty(Rows())
    }

    // Opens a missing database file.
    constructor ()
      ensures Valid() && fresh(file) && forall id :: At(Rows(), id) == 0
    {
      file := new MappedFile([]);
    }

    // Opens a database file that was written before.
    constructor Open(file: MappedFile)
      requires |file.content| % MEGABYTE == 0
      requires Forest(RowsOf(file.content)) && LowRowsEmpty(RowsOf(file.content))
      ensures Valid() && this.file == file && Rows() == RowsOf(file.content)
    {
      this.file := file;
    }

    // getRow(id)->min_id, growing the file to hold the row.
    method GetRow(id: nat) returns (minId: nat)
      requires Valid()
      modifies file
      ensures Valid() && (forall x :: At(Rows(), x) == At(old(Rows()), x)) && |Rows()| >= |old(Rows())|
      ensures id < |old(Rows())| ==> file.content == old(file.content)
      ensures minId == At(Rows(), id)
    {
      ghost var before := file.content;
      file.Ptr(id * ROW_SIZE, ROW_SIZE);
      forall x
        ensures At(Rows(), x) == At(RowsOf(before), x)
      {
        RowsAt(before, x);
        RowsAt(file.content, x);
        GrownNumber(before, id * ROW_SIZE + ROW_SIZE, x, ROW_SIZE);
      }
      assert Forest(Rows()) by {
        assert forall x :: 0 <= x < |Rows()| ==> Rows()[x] == At(RowsOf(before), x);
      }
      minId := Decode(file.PtrConst(id * ROW_SIZE, ROW_SIZE));
    }

    function GetRowConst(id: nat): (minId: nat)
      requires Valid()
      reads this, file
      ensures minId == At(Rows(), id)
    {
      RowsAt(file.content, id);
      if id * ROW_SIZE >= file.FileLength() then 0
      else Decode(file.PtrConst(id * ROW_SIZE, ROW_SIZE))
    }

    method GetRecursiveMinId(msgId: nat) returns (prevId: nat)
      requires Valid()
      ensures prevId == Root(Rows(), msgId)
    {
      prevId := msgId;
      var next := GetRowConst(prevId);
      while next != 0
        invariant next == At(Rows(), prevId) && Root(Rows(), prevId) == Root(Rows(), msgId)
        decreases prevId
      {
        assert next < prevId;
        prevId := next;
        next := GetRowConst(prevId);
      }
    }

    method GetPlainMinId(msgId: nat) returns (minId: nat)
      requires Valid()
      ensures minId == if At(Rows(), msgId) != 0 then At(Rows(), msgId) else msgId
      ensures Root(Rows(), msgId) <= minId <= msgId && Root(Rows(), minId) == Root(Rows(), msgId)
    {
      minId := GetRowConst(msgId);
      if minId == 0 {
        minId := msgId;
      }
    }

    method WriteRow(msgId: nat, minId: nat)
      requires Valid() && FIRST_ID <= msgId < MAX_ID && minId < msgId
      modifies file
      ensures Valid() && Written(old(Rows()), msgId, minId, Rows())
    {
      StoredRow(file.content, msgId, minId);
      ghost var before := Rows();
      file.Store(msgId * ROW_SIZE, Encode(minId, ROW_SIZE));
      WrittenForest(before, msgId, minId, Rows());
    }

    // Collapses two ids, in either order. Only an id that has to be written must
    // lie in the permitted range.
    method AddRow(msgId: nat, minId: nat)
      requires Valid() && msgId != minId
      requires msgId != NewRoot(Rows(), msgId, minId) ==> FIRST_ID <= msgId < MAX_ID
      requires minId != NewRoot(Rows(), msgId, minId) ==> FIRST_ID <= minId < MAX_ID
      modifies file
      ensures Valid() && Merged(old(Rows()), msgId, minId, Rows())
    {
      var r1 := GetRecursiveMinId(msgId);
      var r2 := GetRecursiveMinId(minId);
      var globalMin := Min(r1, r2);
      if msgId != globalMin {
        WriteRow(msgId, globalMin);
      }
      if minId != globalMin {
        WriteRow(minId, globalMin);
      }
    }

    // Makes every row point to its root. Returns the number of changed rows.
    method NormalizeDatabase() returns (changedCount: nat)
      requires Valid()
      modifies file
      ensures Valid() && Rows() == NormalizedTo(old(Rows()), |old(Rows())|)
      ensures changedCount == CountNonNormal(old(Rows()), |old(Rows())|)
    {
      hide NormalizedTo, CountNonNormal, RowsOf;
      var rowCount := file.FileLength() / ROW_SIZE;
      changedCount := 0;
      ghost var rows := Rows();
      var msgId := FIRST_ID;
      EmptyStart(rows, Min(FIRST_ID, rowCount));
      while msgId < rowCount
        invariant FIRST_ID <= msgId && (rowCount >= FIRST_ID ==> msgId <= rowCount)
        invariant Valid() && |rows| == rowCount
        invariant Rows() == NormalizedTo(rows, Min(msgId, rowCount))
        invariant changedCount == CountNonNormal(rows, Min(msgId, rowCount))
      {
        var changed := NormalizeRow(msgId, rows);
        if changed {
          changedCount := changedCount + 1;
        }
        msgId := msgId + 1;
      }
    }

    method NormalizeRow(msgId: nat, ghost rows: seq<nat>) returns (changed: bool)
      requires Valid() && Forest(rows) && FIRST_ID <= msgId < |rows|
      requires Rows() == NormalizedTo(rows, msgId)
      modifies file
      ensures Valid() && Rows() == NormalizedTo(rows, msgId + 1)
      ensures CountNonNormal(rows, msgId + 1) == CountNonNormal(rows, msgId) + if changed then 1 else 0
    {
      hide NormalizedTo, CountNonNormal;
      RowToNormalize(rows, msgId);
      var minId := GetRow(msgId);
      var recursMinId := GetRecursiveMinId(msgId);
      changed := minId != 0 && minId != recursMinId;
      if changed {
        ghost var before := file.content;
        RootFits(before, msgId);
        StoredRow(before, msgId, recursMinId);
        file.Store(msgId * ROW_SIZE, Encode(recursMinId, ROW_SIZE));
        NormalizedNext(rows, msgId, Rows());
        NormalizedRoot(rows, msgId + 1, 0);
        WrittenHigh(RowsOf(before), msgId, recursMinId, Rows());
      }
    }

    // The smallest ids of `num` consecutive messages.
    method GetMinIdArray(firstMsgId: nat, num: nat) returns (res: seq<nat>)
      requires Valid() && num > 0 && firstMsgId >= FIRST_ID
      ensures |res| == num && forall i :: 0 <= i < num ==> res[i] == Root(Rows(), firstMsgId + i)
    {
      res := [];
      for i := 0 to num
        invariant |res| == i && forall k :: 0 <= k < i ==> res[k] == Root(Rows(), firstMsgId + k)
      {
        var r := GetRecursiveMinId(firstMsgId + i);
        res := res + [r];
      }
    }
  }

  // What is stored in four bytes is a 32-bit number, and so are all roots of others.
  lemma {:induction false} RootFits(content: seq<byte>, id: nat)
    requires Forest(RowsOf(content)) && At(RowsOf(content), id) != 0
    ensures Root(RowsOf(content), id) < 0x1_0000_0000
    decreases id
  {
    Pow256Values();
    var next := At(RowsOf(content), id);
    if At(RowsOf(content), next) != 0 {
      RootFits(content, next);
    }
  }

  lemma WrittenHigh(rows: seq<nat>, id: nat, v: nat, rows': seq<nat>)
    requires LowRowsEmpty(rows) && id >= FIRST_ID && Written(rows, id, v, rows')
    ensures LowRowsEmpty(rows')
  {
  }

  // What the pass finds in row n, and when it has nothing to do there.
  lemma RowToNormalize(rows: seq<nat>, n: nat)
    requires Forest(rows) && n < |rows| && FIRST_ID <= n
    ensures var r := NormalizedTo(rows, n);
            && Forest(r) && At(r, n) == rows[n] && Root(r, n) == Root(rows, n)
            && (rows[n] == 0 || rows[n] == Root(rows, n) ==> NormalizedTo(rows, n + 1) == r)
    ensures CountNonNormal(rows, n + 1) ==
            CountNonNormal(rows, n) + if rows[n] != 0 && rows[n] != Root(rows, n) then 1 else 0
  {
    NormalizedRoot(rows, n, n);
    if rows[n] == 0 || rows[n] == Root(rows, n) {
      assert NormalizedTo(rows, n + 1) == NormalizedTo(rows, n);
    }
  }

  lemma NormalizedNext(rows: seq<nat>, n: nat, rows': seq<nat>)
    requires Forest(rows) && n < |rows| == |rows'| && rows[n] != 0
    requires Written(NormalizedTo(rows, n), n, Root(rows, n), rows')
    ensures rows' == NormalizedTo(rows, n + 1)
  {
    forall i | 0 <= i < |rows|
      ensures rows'[i] == NormalizedTo(rows, n + 1)[i]
    {
      assert At(rows', i) == if i == n then Root(rows, n) else At(NormalizedTo(rows, n), i);
    }
  }

  lemma {:induction false} EmptyStart(rows: seq<nat>, n: nat)
    requires Forest(rows) && LowRowsEmpty(rows) && n <= |rows| && n <= FIRST_ID
    ensures NormalizedTo(rows, n) == rows && CountNonNormal(rows, n) == 0
  {
    if n > 0 {
      EmptyStart(rows, n - 1);
      assert At(rows, n - 1) == 0;
    }
  }

  // A second pass changes nothing.
  lemma {:induction false} NormalizedHasNoCount(rows: seq<nat>, n: nat)
    requires Forest(rows) && Forest(NormalizedTo(rows, |rows|)) && n <= |rows|
    ensures CountNonNormal(NormalizedTo(rows, |rows|), n) == 0
  {
    if n > 0 {
      NormalizedHasNoCount(rows, n - 1);
      NormalizedIsFlat(rows, n - 1);
    }
  }
}
