/** `CFileSystemHandler::getUnpackedFile`: read a gzip stream in blocks of
    `bufsize` bytes until `gzread` reports end of stream or an error, then
    copy the blocks, in order, into one buffer of the total size. The gzip
    decoder itself is not modelled: a stream is the sequence of values its
    successive `gzread` calls return. */
module GzipUnpack {
  import opened Bytes

  const BUFSIZE: nat := 65536

  /** One `gzread(map, buf, bufsize)`: `Data` with the bytes it stored (its
      return value is their count), `Eof` (returns 0) or `Error` (returns -1). */
  datatype GzRead = Data(bytes: seq<byte>) | Eof | Error

  /** A read that ends the loop: 0 or -1. A stream that runs out ends it too. */
  predicate Stops(rd: GzRead) {
    !rd.Data? || rd.bytes == []
  }

  /** The blocks the read loop keeps: the data of every read before the first
      one that stops it. */
  function DataPrefix(results: seq<GzRead>): (blocks: seq<seq<byte>>)
    ensures |blocks| <= |results|
    ensures forall i :: 0 <= i < |blocks| ==> results[i] == Data(blocks[i]) && blocks[i] != []
    ensures |blocks| < |results| ==> Stops(results[|blocks|])
    decreases |results|
  {
    if results == [] || Stops(results[0]) then [] else [results[0].bytes] + DataPrefix(results[1..])
  }

  /** What `gzread` guarantees on a readable stream: every block holds at most
      `bufsize` bytes, and only the last one kept is short. */
  predicate FullBlocks(blocks: seq<seq<byte>>, bufsize: nat) {
    (forall i :: 0 <= i < |blocks| ==> |blocks[i]| <= bufsize)
    && (forall i :: 0 <= i < |blocks| - 1 ==> |blocks[i]| == bufsize)
  }

  /** The read loop: the kept blocks, in order, and `mapsize`, their total. */
  method ReadBlocks(results: seq<GzRead>) returns (mapstr: seq<seq<byte>>, mapsize: nat)
    ensures mapstr == DataPrefix(results)
    ensures mapsize == |Flatten(mapstr)|
  {
    mapstr := [];
    mapsize := 0;
    var n := 0;
    while n < |results| && !Stops(results[n])
      invariant 0 <= n <= |results|
      invariant DataPrefix(results) == mapstr + DataPrefix(results[n..])
      invariant mapsize == |Flatten(mapstr)|
      decreases |results| - n
    {
      var buf := results[n].bytes;
      KeepBlock(results, n, mapstr);
      FlattenAppend(mapstr, buf);
      mapstr := mapstr + [buf];
      mapsize := mapsize + |buf|;
      n := n + 1;
    }
    StopKeepsNothing(results, n);
  }

  /** One loop turn: a read that does not stop the loop appends its block to
      the kept ones. */
  lemma KeepBlock(results: seq<GzRead>, n: nat, kept: seq<seq<byte>>)
    requires n < |results| && !Stops(results[n])
    requires DataPrefix(results) == kept + DataPrefix(results[n..])
    ensures DataPrefix(results) == (kept + [results[n].bytes]) + DataPrefix(results[n + 1..])
  {
    DataPrefixStep(results, n);
    assert kept + ([results[n].bytes] + DataPrefix(results[n + 1..]))
        == (kept + [results[n].bytes]) + DataPrefix(results[n + 1..]);
  }

  /** Once the loop stops, no further block is kept. */
  lemma StopKeepsNothing(results: seq<GzRead>, n: nat)
    requires n <= |results| && (n == |results| || Stops(results[n]))
    ensures DataPrefix(results[n..]) == []
  {
    if n < |results| {
      assert results[n..][0] == results[n];
    }
  }

  /** A read that does not stop the loop contributes its block. */
  lemma DataPrefixStep(results: seq<GzRead>, n: nat)
    requires n < |results| && !Stops(results[n])
    ensures DataPrefix(results[n..]) == [results[n].bytes] + DataPrefix(results[n + 1..])
  {
    assert results[n..][1..] == results[n + 1..];
  }

  /** Appending a block appends its bytes. */
  lemma FlattenAppend(blocks: seq<seq<byte>>, b: seq<byte>)
    ensures Flatten(blocks + [b]) == Flatten(blocks) + b
  {
    assert (blocks + [b])[..|blocks|] == blocks;
  }

  /** One more block extends the flattened prefix by that block. */
  lemma FlattenStep(blocks: seq<seq<byte>>, n: nat)
    requires n < |blocks|
    ensures Flatten(blocks[..n + 1]) == Flatten(blocks[..n]) + blocks[n]
  {
    assert blocks[..n + 1][..n] == blocks[..n];
  }

  /** The reassembly loop: block `n` goes to `offset = n * bufsize`, and
      `min(tocopy, bufsize)` of its bytes are copied, `tocopy` being what is
      left of `mapsize`. On full blocks this lays them out end to end. */
  method Reassemble(mapstr: seq<seq<byte>>, mapsize: nat, bufsize: nat) returns (data: seq<byte>)
    requires bufsize > 0 && FullBlocks(mapstr, bufsize)
    requires mapsize == |Flatten(mapstr)|
    ensures data == Flatten(mapstr)
  {
    var initTable := new byte[mapsize];
    var n := 0;
    var offset := 0;
    var tocopy: int := mapsize;
    ghost var done := 0;
    while n < |mapstr|
      invariant 0 <= n <= |mapstr|
      invariant done == |Flatten(mapstr[..n])| <= mapsize
      invariant n < |mapstr| ==> offset == done
      invariant tocopy == mapsize - offset
      invariant initTable[..done] == Flatten(mapstr[..n])
    {
      FlattenStep(mapstr, n);
      CopyTakesWholeBlock(mapstr, n, bufsize);
      var block := mapstr[n];
      var count := if tocopy > bufsize then bufsize else tocopy;
      CopyBlock(initTable, offset, block, count);
      assert initTable[..offset + count] == initTable[..offset] + initTable[offset..offset + count];
      assert block[..count] == block;
      done := done + |block|;
      n := n + 1;
      offset := offset + bufsize;
      tocopy := tocopy - bufsize;
    }
    assert mapstr[..n] == mapstr;
    data := initTable[..];
  }

  /** With full blocks, block `n` starts at the total of the blocks before
      it, and `min(tocopy, bufsize)` is exactly its length: a full block
      leaves at least `bufsize` bytes to copy, the last one exactly its own. */
  lemma CopyTakesWholeBlock(blocks: seq<seq<byte>>, n: nat, bufsize: nat)
    requires n < |blocks| && FullBlocks(blocks, bufsize)
    ensures var tocopy := |Flatten(blocks)| - |Flatten(blocks[..n])|;
            |Flatten(blocks[..n])| + |blocks[n]| <= |Flatten(blocks)|
            && (if tocopy > bufsize then bufsize else tocopy) == |blocks[n]|
  {
    FlattenStep(blocks, n);
    FlattenPrefixLength(blocks, n + 1);
    if n == |blocks| - 1 {
      assert blocks[..n + 1] == blocks;
    }
  }

  /** The `memcpy` of one block: `count` bytes of `block` to `table[offset..]`,
      leaving everything before `offset` and from `offset + count` on as it was. */
  method CopyBlock(table: array<byte>, offset: nat, block: seq<byte>, count: nat)
    requires count <= |block| && offset + count <= table.Length
    modifies table
    ensures table[..offset] == old(table[..offset])
    ensures table[offset..offset + count] == block[..count]
    ensures table[offset + count..] == old(table[offset + count..])
  {
    var j := 0;
    while j < count
      invariant 0 <= j <= count
      invariant table[..offset] == old(table[..offset])
      invariant table[offset + j..] == old(table[offset + j..])
      invariant table[offset..offset + j] == block[..j]
    {
      table[offset + j] := block[j];
      assert table[offset..offset + j + 1] == table[offset..offset + j] + [block[j]];
      assert block[..j + 1] == block[..j] + [block[j]];
      j := j + 1;
    }
  }

  /** A prefix of the blocks is no longer than all of them. */
  lemma {:induction false} FlattenPrefixLength(blocks: seq<seq<byte>>, n: nat)
    requires n <= |blocks|
    ensures |Flatten(blocks[..n])| <= |Flatten(blocks)|
    decreases |blocks| - n
  {
    if n < |blocks| {
      FlattenStep(blocks, n);
      FlattenPrefixLength(blocks, n + 1);
      if n + 1 == |blocks| {
        assert blocks[..n + 1] == blocks;
      }
    } else {
      assert blocks[..n] == blocks;
    }
  }

  /** `getUnpackedFile` on the stream `results`: the buffer holds exactly the
      bytes of the kept blocks, in order. */
  method GetUnpackedFile(results: seq<GzRead>) returns (data: seq<byte>)
    requires FullBlocks(DataPrefix(results), BUFSIZE)
    ensures data == Flatten(DataPrefix(results))
  {
    var mapstr, mapsize := ReadBlocks(results);
    data := Reassemble(mapstr, mapsize, BUFSIZE);
  }
}
