/** The binary catalogs of the three archive formats, and the insertion loop
    every `insertEntriesIntoResourcesMap` runs over its decoded records. */
module Catalogs {
  import opened Bytes
  import opened ResourceNames
  import opened ResourcesMap

  /** One file inside an archive. `size == 0` in a LOD means "stored uncompressed". */
  datatype ArchiveEntry = ArchiveEntry(name: string, resType: ResType, offset: nat, size: int, realSize: nat)

  /** A decoded catalog record: the raw name (the key of `entries` and of the
      locator) and the entry built from it. */
  datatype Record = Record(raw: string, entry: ArchiveEntry)

  // ---------------------------------------------------------------- LOD

  const LOD_COUNT_AT: nat := 8
  const LOD_CATALOG_AT: nat := 0x5C
  const LOD_RECORD_SIZE: nat := 32

  /** Number of LOD records decoded: the 32-bit count at offset 8, cut down to
      the records that lie completely inside the image. An image too short
      to hold the count fails the stream and registers nothing. */
  function LodRecordCount(img: seq<byte>): (n: nat)
    ensures n > 0 ==> |img| >= LOD_COUNT_AT + 4 && n <= LeU32(img, LOD_COUNT_AT)
    ensures LOD_CATALOG_AT + LOD_RECORD_SIZE * n <= |img| || n == 0
    ensures |img| >= LOD_COUNT_AT + 4 && LOD_CATALOG_AT + LOD_RECORD_SIZE * LeU32(img, LOD_COUNT_AT) <= |img|
            ==> n == LeU32(img, LOD_COUNT_AT)
    ensures |img| >= LOD_COUNT_AT + 4 && n < LeU32(img, LOD_COUNT_AT)
            ==> LOD_CATALOG_AT + LOD_RECORD_SIZE * (n + 1) > |img|
  {
    if |img| < LOD_COUNT_AT + 4 || |img| < LOD_CATALOG_AT then 0
    else Min(LeU32(img, LOD_COUNT_AT), (|img| - LOD_CATALOG_AT) / LOD_RECORD_SIZE)
  }

  /** Record `i` of a LOD catalog: 16-byte name, then the little-endian words
      offset (+16), uncompressed size (+20), unused (+24) and stored size (+28).
      Its entry carries the normalised name and the classified type. */
  function LodRecord(img: seq<byte>, i: nat): Record
    requires LOD_CATALOG_AT + LOD_RECORD_SIZE * (i + 1) <= |img|
  {
    var base := LOD_CATALOG_AT + LOD_RECORD_SIZE * i;
    var raw := CString(img[base..base + 16]);
    Record(raw, LodEntry(raw, LeU32(img, base + 16), LeU32(img, base + 28), LeU32(img, base + 20)))
  }

  /** The entry of a LOD record: the normalised name and the type of its
      extension, with the three words of the record. */
  function LodEntry(raw: string, offset: nat, size: nat, realSize: nat): (e: ArchiveEntry)
    ensures e.offset == offset && e.size == size && e.realSize == realSize
  {
    var (name, ext) := AdaptResourceName(raw);
    ArchiveEntry(name, ConvertFileExtToResType(ext), offset, size, realSize)
  }

  function LodCatalog(img: seq<byte>): (r: seq<Record>)
    ensures |r| == LodRecordCount(img)
    ensures forall i :: 0 <= i < |r| ==> r[i].entry.size >= 0
    ensures forall i :: 0 <= i < |r| ==>
              LOD_CATALOG_AT + LOD_RECORD_SIZE * (i + 1) <= |img| && r[i] == LodRecord(img, i)
  {
    var n := LodRecordCount(img);
    seq(n, i requires 0 <= i < n => LodRecord(img, i))
  }

  /** The 32 bytes of one LOD catalog record as the format lays them out. */
  function LodRecordBytes(name: seq<byte>, offset: nat, realSize: nat, unused: nat, size: nat): (r: seq<byte>)
    requires |name| == 16
    requires offset < TWO_TO_THE_32 && realSize < TWO_TO_THE_32 && unused < TWO_TO_THE_32 && size < TWO_TO_THE_32
    ensures |r| == LOD_RECORD_SIZE
  {
    name + (Le32Bytes(offset) + (Le32Bytes(realSize) + (Le32Bytes(unused) + Le32Bytes(size))))
  }

  /** The word read at `img[at..]` is the word of the 4-byte window there. */
  lemma LeU32Window(img: seq<byte>, at: nat, w: seq<byte>)
    requires at + 4 <= |img| && img[at..at + 4] == w
    ensures LeU32(img, at) == LeU32(w, 0)
  {
    assert img[at] == w[0] && img[at + 1] == w[1] && img[at + 2] == w[2] && img[at + 3] == w[3];
  }

  /** Where each field sits inside the 32 bytes of a record. */
  lemma LodRecordFields(name: seq<byte>, offset: nat, realSize: nat, unused: nat, size: nat)
    requires |name| == 16
    requires offset < TWO_TO_THE_32 && realSize < TWO_TO_THE_32 && unused < TWO_TO_THE_32 && size < TWO_TO_THE_32
    ensures var rec := LodRecordBytes(name, offset, realSize, unused, size);
            rec[..16] == name && rec[16..20] == Le32Bytes(offset)
            && rec[20..24] == Le32Bytes(realSize) && rec[28..32] == Le32Bytes(size)
  {
    var t3 := Le32Bytes(unused) + Le32Bytes(size);
    var t2 := Le32Bytes(realSize) + t3;
    var t1 := Le32Bytes(offset) + t2;
    var rec := name + t1;
    assert rec[16..] == t1;
    assert t1[4..] == t2 && t2[4..] == t3;
    assert rec[16..20] == t1[..4];
    assert rec[20..24] == t2[..4];
    assert rec[28..32] == t3[4..];
  }

  /** A word field of the record at `base`: the word of its 4-byte window. */
  lemma LodFieldWord(img: seq<byte>, base: nat, rec: seq<byte>, at: nat, v: nat)
    requires base + 32 <= |img| && img[base..base + 32] == rec
    requires at + 4 <= 32 && v < TWO_TO_THE_32 && rec[at..at + 4] == Le32Bytes(v)
    ensures LeU32(img, base + at) == v
  {
    assert img[base + at] == rec[at] && img[base + at + 1] == rec[at + 1];
    assert img[base + at + 2] == rec[at + 2] && img[base + at + 3] == rec[at + 3];
    assert LeU32(img, base + at) == LeU32(rec, at);
    LeU32Window(rec, at, Le32Bytes(v));
    LeU32OfLe32Bytes(v);
  }

  /** Decoding agrees with the layout: a record written at slot `i` decodes to
      its name (up to the first NUL), its offset, its uncompressed size and its
      stored size. */
  lemma LodRecordDecodesLayout(img: seq<byte>, i: nat, name: seq<byte>, offset: nat, realSize: nat, unused: nat, size: nat)
    requires |name| == 16
    requires offset < TWO_TO_THE_32 && realSize < TWO_TO_THE_32 && unused < TWO_TO_THE_32 && size < TWO_TO_THE_32
    requires LOD_CATALOG_AT + LOD_RECORD_SIZE * (i + 1) <= |img|
    requires img[LOD_CATALOG_AT + LOD_RECORD_SIZE * i..LOD_CATALOG_AT + LOD_RECORD_SIZE * (i + 1)]
             == LodRecordBytes(name, offset, realSize, unused, size)
    ensures LodRecord(img, i).raw == CString(name)
    ensures LodRecord(img, i).entry.offset == offset
    ensures LodRecord(img, i).entry.realSize == realSize
    ensures LodRecord(img, i).entry.size == size
  {
    var base := LOD_CATALOG_AT + LOD_RECORD_SIZE * i;
    assert base + 32 == LOD_CATALOG_AT + LOD_RECORD_SIZE * (i + 1);
    LodWordsAt(img, base, LodRecordBytes(name, offset, realSize, unused, size), name, offset, realSize, unused, size);
  }

  /** The same for a record laid out at byte `base` of the image. */
  lemma LodWordsAt(img: seq<byte>, base: nat, rec: seq<byte>,
                   name: seq<byte>, offset: nat, realSize: nat, unused: nat, size: nat)
    requires |name| == 16
    requires offset < TWO_TO_THE_32 && realSize < TWO_TO_THE_32 && unused < TWO_TO_THE_32 && size < TWO_TO_THE_32
    requires rec == LodRecordBytes(name, offset, realSize, unused, size)
    requires base + 32 <= |img| && img[base..base + 32] == rec
    ensures img[base..base + 16] == name
    ensures LeU32(img, base + 16) == offset && LeU32(img, base + 20) == realSize
    ensures LeU32(img, base + 28) == size
  {
    LodRecordFields(name, offset, realSize, unused, size);
    assert img[base..base + 16] == rec[..16];
    LodFieldWord(img, base, rec, 16, offset);
    LodFieldWord(img, base, rec, 20, realSize);
    LodFieldWord(img, base, rec, 28, size);
  }


  // -------------------------------------------------------------- sound

  const SND_CATALOG_AT: nat := 4
  const SND_RECORD_SIZE: nat := 48

  /** The 32-bit count at offset 0, cut down to the complete 48-byte records. */
  function SoundRecordCount(img: seq<byte>): (n: nat)
    ensures n > 0 ==> |img| >= 4 && n <= LeU32(img, 0)
    ensures SND_CATALOG_AT + SND_RECORD_SIZE * n <= |img| || n == 0
    ensures |img| >= 4 && SND_CATALOG_AT + SND_RECORD_SIZE * LeU32(img, 0) <= |img| ==> n == LeU32(img, 0)
    ensures |img| >= 4 && n < LeU32(img, 0) ==> SND_CATALOG_AT + SND_RECORD_SIZE * (n + 1) > |img|
  {
    if |img| < SND_CATALOG_AT then 0
    else Min(LeU32(img, 0), (|img| - SND_CATALOG_AT) / SND_RECORD_SIZE)
  }

  /** Record `i` of a sound catalog: 40-byte name, offset (+40), size (+44).
      The entry keeps the raw name; type and uncompressed size stay at their
      defaults. */
  function SoundRecord(img: seq<byte>, i: nat): Record
    requires SND_CATALOG_AT + SND_RECORD_SIZE * (i + 1) <= |img|
  {
    var base := SND_CATALOG_AT + SND_RECORD_SIZE * i;
    var raw := CString(img[base..base + 40]);
    Record(raw, ArchiveEntry(raw, OTHER, LeU32(img, base + 40), LeU32(img, base + 44), 0))
  }

  function SoundCatalog(img: seq<byte>): (r: seq<Record>)
    ensures |r| == SoundRecordCount(img)
    ensures forall i :: 0 <= i < |r| ==> r[i].entry.name == r[i].raw && r[i].entry.size >= 0
    ensures forall i :: 0 <= i < |r| ==>
              SND_CATALOG_AT + SND_RECORD_SIZE * (i + 1) <= |img|
              && r[i].raw == CString(img[SND_CATALOG_AT + SND_RECORD_SIZE * i..SND_CATALOG_AT + SND_RECORD_SIZE * i + 40])
              && r[i].entry.offset == LeU32(img, SND_CATALOG_AT + SND_RECORD_SIZE * i + 40)
              && r[i].entry.size == LeU32(img, SND_CATALOG_AT + SND_RECORD_SIZE * i + 44)
  {
    var n := SoundRecordCount(img);
    seq(n, i requires 0 <= i < n => SoundRecord(img, i))
  }

  // -------------------------------------------------------------- video

  const VID_CATALOG_AT: nat := 4
  const VID_RECORD_SIZE: nat := 44
  /** Smallest video archive that is scanned: the count and one record. */
  const VID_MIN_FILE_SIZE: nat := 48

  function VideoRecordCount(img: seq<byte>): (n: nat)
    ensures |img| < VID_MIN_FILE_SIZE ==> n == 0
    ensures n > 0 ==> n <= LeU32(img, 0) && VID_CATALOG_AT + VID_RECORD_SIZE * n <= |img|
    ensures |img| >= VID_MIN_FILE_SIZE && VID_CATALOG_AT + VID_RECORD_SIZE * LeU32(img, 0) <= |img|
            ==> n == LeU32(img, 0)
    ensures |img| >= VID_MIN_FILE_SIZE && n < LeU32(img, 0) ==> VID_CATALOG_AT + VID_RECORD_SIZE * (n + 1) > |img|
  {
    if |img| < VID_MIN_FILE_SIZE then 0
    else Min(LeU32(img, 0), (|img| - VID_CATALOG_AT) / VID_RECORD_SIZE)
  }

  /** The offset word (+40) of video record `i`. */
  function VideoOffset(img: seq<byte>, i: nat): nat
    requires VID_CATALOG_AT + VID_RECORD_SIZE * (i + 1) <= |img|
  {
    LeU32(img, VID_CATALOG_AT + VID_RECORD_SIZE * i + 40)
  }

  /** Record `i` of `n` video records. Its size is not stored: it runs to the
      next record's offset, and for the last record to the end of the file. */
  function VideoRecord(img: seq<byte>, n: nat, i: nat): Record
    requires i < n && VID_CATALOG_AT + VID_RECORD_SIZE * n <= |img|
  {
    var base := VID_CATALOG_AT + VID_RECORD_SIZE * i;
    var raw := CString(img[base..base + 40]);
    var offset := VideoOffset(img, i);
    var size := if i == n - 1 then |img| - offset else VideoOffset(img, i + 1) - offset;
    Record(raw, ArchiveEntry(raw, OTHER, offset, size, 0))
  }

  function VideoCatalog(img: seq<byte>): (r: seq<Record>)
    ensures |r| == VideoRecordCount(img)
    ensures |img| < VID_MIN_FILE_SIZE ==> r == []
    ensures forall i :: 0 <= i < |r| ==>
              VID_CATALOG_AT + VID_RECORD_SIZE * (i + 1) <= |img|
              && r[i].raw == CString(img[VID_CATALOG_AT + VID_RECORD_SIZE * i..VID_CATALOG_AT + VID_RECORD_SIZE * i + 40])
              && r[i].entry.name == r[i].raw
              && r[i].entry.offset == LeU32(img, VID_CATALOG_AT + VID_RECORD_SIZE * i + 40)
  {
    var n := VideoRecordCount(img);
    seq(n, i requires 0 <= i < n => VideoRecord(img, n, i))
  }

  /** Consecutive video entries are contiguous: each entry ends where the
      next begins, and the last ends at the end of the file. */
  lemma VideoEntriesContiguous(img: seq<byte>)
    ensures var r := VideoCatalog(img);
      (forall i :: 0 <= i < |r| - 1 ==> r[i].entry.offset + r[i].entry.size == r[i + 1].entry.offset) &&
      (|r| > 0 ==> r[|r| - 1].entry.offset + r[|r| - 1].entry.size == |img|)
  {
  }

  function SumSizes(r: seq<Record>): int
    decreases |r|
  {
    if r == [] then 0 else SumSizes(r[..|r| - 1]) + r[|r| - 1].entry.size
  }

  /** The first `k` entries of a contiguous catalog span from the first
      offset to the `k`-th offset. */
  lemma {:induction false} SumSizesPrefix(r: seq<Record>, k: nat)
    requires 0 < k <= |r|
    requires forall i :: 0 <= i < |r| - 1 ==> r[i].entry.offset + r[i].entry.size == r[i + 1].entry.offset
    ensures SumSizes(r[..k]) == r[k - 1].entry.offset + r[k - 1].entry.size - r[0].entry.offset
    decreases k
  {
    if k > 1 {
      SumSizesPrefix(r, k - 1);
      assert r[..k][..k - 1] == r[..k - 1];
    } else {
      assert r[..1][..0] == [];
    }
  }

  /** The inferred video sizes partition the file from the first entry's
      offset to its end: they add up to `fileSize - offset[0]`. */
  lemma VideoSizesCoverArchive(img: seq<byte>)
    requires |VideoCatalog(img)| > 0
    ensures SumSizes(VideoCatalog(img)) == |img| - VideoCatalog(img)[0].entry.offset
  {
    var r := VideoCatalog(img);
    VideoEntriesContiguous(img);
    SumSizesPrefix(r, |r|);
    assert r[..|r|] == r;
  }

  // ----------------------------------------------------- insertion loop

  /** `entries.insert`: an existing key keeps its entry. */
  function Insert(entries: map<string, ArchiveEntry>, rec: Record): map<string, ArchiveEntry> {
    if rec.raw in entries then entries else entries[rec.raw := rec.entry]
  }

  function InsertAll(entries: map<string, ArchiveEntry>, recs: seq<Record>): map<string, ArchiveEntry>
    decreases |recs|
  {
    if recs == [] then entries else Insert(InsertAll(entries, recs[..|recs| - 1]), recs[|recs| - 1])
  }

  function Raws(recs: seq<Record>): (r: seq<string>)
    ensures |r| == |recs| && forall i :: 0 <= i < |recs| ==> r[i] == recs[i].raw
  {
    seq(|recs|, i requires 0 <= i < |recs| => recs[i].raw)
  }

  /** After the inserts the keys are the old keys plus every record's name;
      old keys keep their entries, and a new name gets the entry of the FIRST
      record that carries it. */
  lemma {:induction false} InsertAllSpec(entries: map<string, ArchiveEntry>, recs: seq<Record>)
    ensures forall k :: k in InsertAll(entries, recs) <==> k in entries || k in Raws(recs)
    ensures forall k :: k in entries ==> InsertAll(entries, recs)[k] == entries[k]
    ensures forall i :: 0 <= i < |recs| && recs[i].raw !in entries && recs[i].raw !in Raws(recs[..i])
              ==> recs[i].raw in InsertAll(entries, recs) && InsertAll(entries, recs)[recs[i].raw] == recs[i].entry
    decreases |recs|
  {
    if recs != [] {
      var init := recs[..|recs| - 1];
      var last := recs[|recs| - 1];
      InsertAllSpec(entries, init);
      assert Raws(recs) == Raws(init) + [last.raw];
      forall i | 0 <= i < |recs| && recs[i].raw !in entries && recs[i].raw !in Raws(recs[..i])
        ensures recs[i].raw in InsertAll(entries, recs) && InsertAll(entries, recs)[recs[i].raw] == recs[i].entry
      {
        if i < |init| {
          assert init[..i] == recs[..i];
          assert init[i] == recs[i];
        } else {
          assert recs[..i] == init;
        }
      }
    }
  }

  /** Inserting records whose stored sizes are non-negative keeps every
      entry's stored size non-negative. */
  lemma {:induction false} InsertAllKeepsSizes(entries: map<string, ArchiveEntry>, recs: seq<Record>)
    requires forall k :: k in entries ==> entries[k].size >= 0
    requires forall i :: 0 <= i < |recs| ==> recs[i].entry.size >= 0
    ensures forall k :: k in InsertAll(entries, recs) ==> InsertAll(entries, recs)[k].size >= 0
    decreases |recs|
  {
    if recs != [] {
      InsertAllKeepsSizes(entries, recs[..|recs| - 1]);
    }
  }

  /** One more record extends the list of raw names by its name. */
  lemma RawsStep(records: seq<Record>, i: nat)
    requires i < |records|
    ensures Raws(records[..i + 1]) == Raws(records[..i]) + [records[i].raw]
  {
    assert Raws(records[..i + 1])[..i] == Raws(records[..i]);
  }

  /** One turn of the insertion loop extends both folds by one record. */
  lemma InsertStep(records: seq<Record>, i: nat, prefix: string, owner: nat,
                   entries0: map<string, ArchiveEntry>, map0: ResMap)
    requires i < |records|
    ensures InsertAll(entries0, records[..i + 1]) == Insert(InsertAll(entries0, records[..i]), records[i])
    ensures RegisterAll(map0, prefix, owner, Raws(records[..i + 1]))
            == AddEntryToMap(RegisterAll(map0, prefix, owner, Raws(records[..i])), prefix, owner, records[i].raw)
  {
    assert records[..i + 1][..i] == records[..i];
    var raws := Raws(records[..i + 1]);
    RawsStep(records, i);
    assert raws[..|raws| - 1] == Raws(records[..i]);
  }

  /** The body shared by the LOD, sound and video scans: for every record in
      catalog order, `entries.insert(raw, entry)` and then one locator
      `(owner, raw)` at the end of its identifier's list. */
  method InsertEntries(records: seq<Record>, prefix: string, owner: nat,
                       entries0: map<string, ArchiveEntry>, map0: ResMap)
    returns (entries: map<string, ArchiveEntry>, resMap: ResMap)
    ensures entries == InsertAll(entries0, records)
    ensures resMap == RegisterAll(map0, prefix, owner, Raws(records))
  {
    entries, resMap := entries0, map0;
    var i := 0;
    while i < |records|
      invariant 0 <= i <= |records|
      invariant entries == InsertAll(entries0, records[..i])
      invariant resMap == RegisterAll(map0, prefix, owner, Raws(records[..i]))
    {
      var rec := records[i];
      InsertStep(records, i, prefix, owner, entries0, map0);
      if rec.raw !in entries {
        entries := entries[rec.raw := rec.entry];
      }
      resMap := AddEntryToMap(resMap, prefix, owner, rec.raw);
      i := i + 1;
    }
    assert records[..i] == records;
  }
}
