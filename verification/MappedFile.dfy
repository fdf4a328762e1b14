/** A file mapped into memory that grows by whole megabytes when written beyond
    its end, and little-endian numbers in it. */
module MappedFiles {
  import opened Powers
  import opened Sequences

  type byte = n: int | 0 <= n < 256

  const MEGABYTE := 0x100000

  // The next megabyte boundary: (n + 0xfffff) & ~0xfffff.
  function RoundUp(n: nat): (r: nat)
    ensures r % MEGABYTE == 0 && n <= r < n + MEGABYTE
  {
    (n + 0xfffff) / MEGABYTE * MEGABYTE
  }

  // The content once `need` bytes are accessible.
  function Grown(content: seq<byte>, need: nat): (g: seq<byte>)
    ensures need <= |g| && content <= g
    ensures forall i :: |content| <= i < |g| ==> g[i] == 0
    ensures |content| % MEGABYTE == 0 ==> |g| % MEGABYTE == 0
  {
    if need > |content| then content + Repeat(0, RoundUp(need) - |content|) else content
  }

  function Overwrite(content: seq<byte>, offset: nat, data: seq<byte>): (r: seq<byte>)
    requires offset + |data| <= |content|
    ensures |r| == |content|
    ensures r[offset..offset + |data|] == data
    ensures forall i :: 0 <= i < |r| && !(offset <= i < offset + |data|) ==> r[i] == content[i]
  {
    content[..offset] + data + content[offset + |data|..]
  }

  class MappedFile {
    var content: seq<byte>

    // Opens a file with the given content; a missing file counts as empty.
    constructor (content: seq<byte>)
      ensures this.content == content
    {
      this.content := content;
    }

    function FileLength(): nat
      reads this
    {
      |content|
    }

    // Makes sure that `len` bytes from `offset` on are accessible.
    method Ptr(offset: nat, len: nat)
      requires len >= 1
      modifies this
      ensures content == Grown(old(content), offset + len)
    {
      if offset + len > FileLength() {
        var newSize := RoundUp(offset + len);
        var sizeDiff := newSize - FileLength();
        content := content + Repeat(0, sizeDiff);
      }
      assert offset + len - 1 < FileLength();
    }

    // Stores data through the pointer that Ptr(offset, |data|) yields.
    method Store(offset: nat, data: seq<byte>)
      requires |data| >= 1
      modifies this
      ensures content == Overwrite(Grown(old(content), offset + |data|), offset, data)
    {
      Ptr(offset, |data|);
      content := Overwrite(content, offset, data);
    }

    // What the pointer of ptrConst(offset, len) shows.
    function PtrConst(offset: nat, len: nat): (data: seq<byte>)
      requires len >= 1 && offset + len <= FileLength()
      reads this
      ensures |data| == len
    {
      content[offset..offset + len]
    }
  }

  // ----- numbers -----

  // n as k bytes, the lowest first.
  function Encode(n: nat, k: nat): (b: seq<byte>)
    ensures |b| == k
  {
    if k == 0 then [] else [n % 256] + Encode(n / 256, k - 1)
  }

  function Decode(b: seq<byte>): (n: nat)
    ensures n < Pow256(|b|)
  {
    if b == [] then 0 else b[0] + 256 * Decode(b[1..])
  }

  lemma {:induction false} DecodeEncode(n: nat, k: nat)
    requires n < Pow256(k)
    ensures Decode(Encode(n, k)) == n
  {
    if k > 0 {
      DecodeEncode(n / 256, k - 1);
      assert Encode(n, k)[1..] == Encode(n / 256, k - 1);
    }
  }

  // The lowest byte comes first.
  lemma FourByteNumber(b: seq<byte>)
    requires |b| == 4
    ensures Decode(b) == b[0] as int + 256 * (b[1] as int + 256 * (b[2] as int + 256 * b[3] as int))
  {
    assert b[1..][1..] == b[2..] && b[2..][1..] == b[3..] && b[3..][1..] == [];
    assert Decode(b[3..]) == b[3];
    assert Decode(b[2..]) == b[2] as int + 256 * b[3] as int;
  }

  lemma {:induction false} DecodeZeros(b: seq<byte>)
    requires forall i :: 0 <= i < |b| ==> b[i] == 0
    ensures Decode(b) == 0
  {
    if b != [] {
      DecodeZeros(b[1..]);
    }
  }

  // The number stored in k bytes at `offset`; bytes beyond the end read 0.
  function NumberAt(content: seq<byte>, offset: nat, k: nat): nat {
    if offset + k <= |content| then Decode(content[offset..offset + k]) else 0
  }

  // Growing the file is not observable through numbers at aligned offsets.
  lemma GrownNumber(content: seq<byte>, need: nat, i: nat, k: nat)
    requires k > 0 && |content| % MEGABYTE == 0 && MEGABYTE % k == 0
    ensures NumberAt(Grown(content, need), i * k, k) == NumberAt(content, i * k, k)
  {
    var g := Grown(content, need);
    if i * k < |content| {
      CellInside(|content|, i, k);
      assert g[i * k..i * k + k] == content[i * k..i * k + k];
    } else if i * k + k <= |g| {
      DecodeZeros(g[i * k..i * k + k]);
    }
  }

  // A cell of k bytes that begins inside a file of whole cells ends inside it.
  lemma CellInside(length: nat, i: nat, k: nat)
    requires k > 0 && length % MEGABYTE == 0 && MEGABYTE % k == 0 && i * k < length
    ensures i * k + k <= length
  {
    var m, c := length / MEGABYTE, MEGABYTE / k;
    assert length == m * MEGABYTE && MEGABYTE == c * k;
    assert length == (m * c) * k by {
      assert m * (c * k) == (m * c) * k;
    }
    assert i < m * c by {
      if i >= m * c {
        Monotone(m * c, i, k);
      }
    }
    Monotone(i + 1, m * c, k);
  }

  lemma Monotone(x: nat, y: nat, k: nat)
    requires x <= y
    ensures x * k <= y * k
  {
  }

  // Storing a number changes that one cell.
  lemma StoredNumber(content: seq<byte>, i: nat, k: nat, n: nat, j: nat)
    requires k > 0 && i * k + k <= |content| && n < Pow256(k)
    ensures NumberAt(Overwrite(content, i * k, Encode(n, k)), j * k, k) ==
            if j == i then n else NumberAt(content, j * k, k)
  {
    if j == i {
      DecodeEncode(n, k);
    } else if j * k + k <= |content| {
      CellsApart(i, j, k);
      OverwriteElsewhere(content, i * k, Encode(n, k), j * k, k);
    }
  }

  lemma OverwriteElsewhere(content: seq<byte>, offset: nat, data: seq<byte>, from: nat, len: nat)
    requires offset + |data| <= |content| && from + len <= |content|
    requires from + len <= offset || offset + |data| <= from
    ensures Overwrite(content, offset, data)[from..from + len] == content[from..from + len]
  {
  }

  lemma CellsApart(i: nat, j: nat, k: nat)
    requires i != j && k > 0
    ensures j * k + k <= i * k || i * k + k <= j * k
  {
    if j < i {
      assert (j + 1) * k <= i * k;
    } else {
      assert (i + 1) * k <= j * k;
    }
  }
}
