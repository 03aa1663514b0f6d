/** `CMemoryStream`: an owned byte buffer with a read cursor `seekPos`. */
module MemoryStreams {
  import opened Bytes

  class MemoryStream {
    var data: seq<byte>
    var length: nat
    var seekPos: nat

    /** The buffer holds exactly `length` bytes and the cursor never passes its end. */
    ghost predicate Valid()
      reads this
    {
      |data| == length && seekPos <= length
    }

    /** A stream over `bytes` (the `(data, length)` constructor declared with the class). */
    constructor FromBytes(bytes: seq<byte>)
      ensures Valid()
      ensures data == bytes && length == |bytes| && seekPos == 0
    {
      data := bytes;
      length := |bytes|;
      seekPos := 0;
    }

    /** Reads the whole file `path` of the file table `disk`. A file that
        cannot be opened leaves the stream empty: length 0 is the caller's
        "does not exist" signal. */
    constructor FromFile(disk: map<string, seq<byte>>, path: string)
      ensures Valid() && seekPos == 0
      ensures data == FileContents(disk, path) && length == |data|
    {
      var contents := FileContents(disk, path);
      data := contents;
      length := |contents|;
      seekPos := 0;
    }

    /** The path constructor as written: `length` is taken from `tellg()`
        on a stream just opened at position 0, so it is 0 even for an
        existing file, and nothing is read. */
    constructor FromFileAsWritten(disk: map<string, seq<byte>>, path: string)
      ensures Valid() && seekPos == 0
      ensures data == FileContentsAsWritten(disk, path) && length == 0
    {
      data := FileContentsAsWritten(disk, path);
      length := 0;
      seekPos := 0;
    }

    /** The copy constructor: a deep, byte-for-byte copy of `cpy`, cursor included. */
    constructor Copy(cpy: MemoryStream)
      requires cpy.Valid()
      ensures Valid()
      ensures data == cpy.data && length == cpy.length && seekPos == cpy.seekPos
    {
      data := cpy.data;
      length := cpy.length;
      seekPos := cpy.seekPos;
    }

    /** Returns the byte under the cursor and advances it by one. */
    method ReadInt8() returns (b: byte)
      requires Valid() && seekPos < length
      modifies this`seekPos
      ensures Valid()
      ensures b == data[old(seekPos)] && seekPos == old(seekPos) + 1
    {
      b := data[seekPos];
      seekPos := seekPos + 1;
    }

    /** `readInt16` as written: it advances the cursor by two but decodes the
        word at the START of the buffer, wherever the cursor is. */
    method ReadInt16() returns (w: nat)
      requires Valid() && seekPos + 2 <= length
      modifies this`seekPos
      ensures Valid()
      ensures w == LeU16(data, 0) && seekPos == old(seekPos) + 2
    {
      seekPos := seekPos + 2;
      w := LeU16(data, 0);
    }

    /** `readInt32` as written: it advances the cursor by four but decodes the
        word at the START of the buffer. */
    method ReadInt32() returns (w: nat)
      requires Valid() && seekPos + 4 <= length
      modifies this`seekPos
      ensures Valid()
      ensures w == LeU32(data, 0) && seekPos == old(seekPos) + 4
    {
      seekPos := seekPos + 4;
      w := LeU32(data, 0);
    }

    /** The intended `readInt16`: the little-endian word under the cursor. */
    method ReadInt16AtCursor() returns (w: nat)
      requires Valid() && seekPos + 2 <= length
      modifies this`seekPos
      ensures Valid()
      ensures w == LeU16(data, old(seekPos)) && seekPos == old(seekPos) + 2
      ensures w < TWO_TO_THE_16
    {
      w := LeU16(data, seekPos);
      seekPos := seekPos + 2;
    }

    /** The intended `readInt32`: the little-endian word under the cursor. */
    method ReadInt32AtCursor() returns (w: nat)
      requires Valid() && seekPos + 4 <= length
      modifies this`seekPos
      ensures Valid()
      ensures w == LeU32(data, old(seekPos)) && seekPos == old(seekPos) + 4
      ensures Le32Bytes(w) == data[old(seekPos)..old(seekPos) + 4]
    {
      w := LeU32(data, seekPos);
      Le32BytesOfLeU32(data, seekPos);
      seekPos := seekPos + 4;
    }

    method SetSeekPos(pos: nat)
      requires Valid() && pos < length
      modifies this`seekPos
      ensures Valid() && seekPos == pos
    {
      seekPos := pos;
    }

    method Reset()
      requires Valid()
      modifies this`seekPos
      ensures Valid() && seekPos == 0
    {
      seekPos := 0;
    }

    method GetSeekPos() returns (p: nat)
      requires Valid()
      ensures p == seekPos && p <= length
    {
      p := seekPos;
    }

    method GetLength() returns (n: nat)
      requires Valid()
      ensures n == length == |data|
    {
      n := length;
    }

    /** True exactly when at least one more byte can be read. */
    method MoreBytesToRead() returns (more: bool)
      requires Valid()
      ensures more <==> seekPos < length
      ensures more ==> seekPos + 1 <= |data|
    {
      more := seekPos < length;
    }

    /** A read-only view of the whole buffer. */
    method GetRawData() returns (raw: seq<byte>)
      requires Valid()
      ensures raw == data && |raw| == length
    {
      raw := data;
    }
  }

  /** The bytes a stream built from the file `path` holds: the whole file,
      or nothing when it cannot be opened. */
  function FileContents(disk: map<string, seq<byte>>, path: string): (r: seq<byte>)
    ensures path in disk ==> r == disk[path]
    ensures path !in disk ==> r == []
  {
    if path in disk then disk[path] else []
  }

  /** The same as the path constructor computes it: the length read back
      right after opening is 0, so no byte is ever read. */
  function FileContentsAsWritten(disk: map<string, seq<byte>>, path: string): (r: seq<byte>)
    ensures |r| == 0
  {
    []
  }

  /** The as-written 16-bit read ignores the cursor: on a buffer holding two
      different words, a read with the cursor on the second word returns the
      first. */
  lemma ReadInt16IgnoresCursor()
    ensures LeU16([1, 0, 2, 0], 0) != LeU16([1, 0, 2, 0], 2)
  {
  }

  /** The same for the as-written 32-bit read. */
  lemma ReadInt32IgnoresCursor()
    ensures LeU32([1, 0, 0, 0, 2, 0, 0, 0], 0) != LeU32([1, 0, 0, 0, 2, 0, 0, 0], 4)
  {
  }
}
