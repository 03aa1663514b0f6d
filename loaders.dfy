/** The loader variants (`IResourceLoader` and its subclasses) and their
    `loadResource`. A loader's backing store is a value: the archive file's
    bytes, or the directory walk and the files it can open. */
module Loaders {
  import opened Wrappers
  import opened Bytes
  import opened Catalogs
  import opened FileWalk
  import opened MemoryStreams

  datatype Loader =
    | LodLoader(prefix: string, archive: Option<seq<byte>>, entries: map<string, ArchiveEntry>)
    | FileLoader(prefix: string, tree: Option<seq<WalkEvent>>, disk: map<string, seq<byte>>)
    | SoundLoader(prefix: string, archive: Option<seq<byte>>, entries: map<string, ArchiveEntry>)
    | VideoLoader(prefix: string, archive: Option<seq<byte>>, entries: map<string, ArchiveEntry>)

  /** The records a catalog loader's scan decodes from its archive (none when
      the archive cannot be opened). */
  function CatalogOf(l: Loader): (r: seq<Record>)
    requires !l.FileLoader?
    ensures l.archive.None? ==> r == []
    ensures l.LodLoader? ==> forall i :: 0 <= i < |r| ==> r[i].entry.size >= 0
  {
    if l.archive.None? then []
    else match l
      case LodLoader(_, archive, _) => LodCatalog(archive.value)
      case SoundLoader(_, archive, _) => SoundCatalog(archive.value)
      case VideoLoader(_, archive, _) => VideoCatalog(archive.value)
  }

  /** The raw names a loader's scan registers, in order. */
  function ScannedNames(l: Loader): seq<string> {
    if l.FileLoader? then (if l.tree.None? then [] else WalkNames(l.tree.value))
    else Raws(CatalogOf(l))
  }

  /** What each loader needs of its entries: a LOD entry's stored size is
      never negative (it is a 32-bit unsigned word). */
  ghost predicate EntriesOk(l: Loader) {
    l.LodLoader? ==> forall k :: k in l.entries ==> l.entries[k].size >= 0
  }

  /** `load(raw)` is within the loader's contract: the catalog loaders only
      serve names their scan put into `entries`. */
  predicate CanLoad(l: Loader, raw: string) {
    l.FileLoader? || raw in l.entries
  }

  /** `CLodResourceLoader::loadResource` as its asserts are written: it
      asserts that the name is NOT among the entries. */
  predicate LoadAssertAsWritten(entries: map<string, ArchiveEntry>, raw: string) {
    raw !in entries
  }

  /** Every name the scan registered fails the as-written assert, so with
      assertions enabled no scanned resource can ever be loaded. */
  lemma InvertedAssertRejectsScannedNames(entries0: map<string, ArchiveEntry>, recs: seq<Record>, i: nat)
    requires i < |recs|
    ensures !LoadAssertAsWritten(InsertAll(entries0, recs), recs[i].raw)
    ensures CanLoad(LodLoader("", None, InsertAll(entries0, recs)), recs[i].raw)
  {
    InsertAllSpec(entries0, recs);
    assert recs[i].raw == Raws(recs)[i];
  }

  /** `fit` the output of the inflate codec into the `realSize`-byte buffer
      allocated for it: bytes beyond `realSize` are never written, bytes the
      codec does not produce are left as allocated (0 in this model). */
  function Fit(out: seq<byte>, realSize: nat): (r: seq<byte>)
    ensures |r| == realSize
    ensures forall k :: 0 <= k < realSize && k < |out| ==> r[k] == out[k]
  {
    seq(realSize, k requires 0 <= k < realSize => if k < |out| then out[k] else 0)
  }

  /** `CLodResourceLoader::loadResource` for an entry of the archive image `img`.
      `inflate` stands for zlib's raw-deflate decoder. */
  function LoadLod(img: seq<byte>, e: ArchiveEntry, inflate: seq<byte> -> seq<byte>): (r: seq<byte>)
    requires e.size >= 0
    ensures |r| == e.realSize
    ensures e.size == 0 && e.offset + e.realSize <= |img| ==> r == img[e.offset..e.offset + e.realSize]
    ensures e.size > 0 ==>
              var out := inflate(ReadAt(img, e.offset, e.size));
              forall k :: 0 <= k < e.realSize && k < |out| ==> r[k] == out[k]
  {
    if e.size == 0 then ReadAt(img, e.offset, e.realSize)
    else Fit(inflate(ReadAt(img, e.offset, e.size)), e.realSize)
  }

  /** `CMediaResourceHandler::loadResource`: `size` bytes from `offset`, no
      decompression; null when the archive cannot be opened or the inferred
      size is negative. */
  function LoadMedia(archive: Option<seq<byte>>, e: ArchiveEntry): (r: Option<seq<byte>>)
    ensures r.Some? <==> archive.Some? && e.size >= 0
    ensures r.Some? ==> |r.value| == e.size
    ensures r.Some? && e.offset + e.size <= |archive.value| ==>
              r.value == archive.value[e.offset..e.offset + e.size]
  {
    if archive.None? || e.size < 0 then None else Some(ReadAt(archive.value, e.offset, e.size))
  }

  /** When entry `i` and every later video entry have non-negative inferred
      sizes, entry `i` ends inside the archive. */
  lemma {:induction false} VideoSpanInsideArchive(img: seq<byte>, i: nat)
    requires i < |VideoCatalog(img)|
    requires forall j :: i <= j < |VideoCatalog(img)| ==> VideoCatalog(img)[j].entry.size >= 0
    ensures VideoCatalog(img)[i].entry.offset + VideoCatalog(img)[i].entry.size <= |img|
    decreases |VideoCatalog(img)| - i
  {
    VideoEntriesContiguous(img);
    if i + 1 < |VideoCatalog(img)| {
      VideoSpanInsideArchive(img, i + 1);
    }
  }

  /** Loading a scanned video returns exactly the bytes from its offset up to
      the next video's offset (the end of the file for the last one). */
  lemma VideoLoadReturnsItsSpan(img: seq<byte>, i: nat)
    requires i < |VideoCatalog(img)|
    requires forall j :: i <= j < |VideoCatalog(img)| ==> VideoCatalog(img)[j].entry.size >= 0
    ensures var r := VideoCatalog(img);
            var e := r[i].entry;
            var stop := if i + 1 < |r| then r[i + 1].entry.offset else |img|;
            e.offset <= stop <= |img| && LoadMedia(Some(img), e) == Some(img[e.offset..stop])
  {
    VideoEntriesContiguous(img);
    VideoSpanInsideArchive(img, i);
    if i + 1 < |VideoCatalog(img)| {
      VideoSpanInsideArchive(img, i + 1);
    }
  }

  /** `CFileResourceLoader::loadResource`: a stream over the file opened
      under the registered name itself; an empty stream (a missing or empty
      file) becomes "no resource". */
  function LoadFile(disk: map<string, seq<byte>>, raw: string): (r: Option<seq<byte>>)
    ensures r.Some? <==> raw in disk && |disk[raw]| > 0
    ensures r.Some? ==> r.value == disk[raw]
  {
    var contents := FileContents(disk, raw);
    if |contents| == 0 then None else Some(contents)
  }

  /** The same over the path constructor as written: every stream is empty,
      so the loose-file loader never returns a resource. */
  function LoadFileAsWritten(disk: map<string, seq<byte>>, raw: string): (r: Option<seq<byte>>)
    ensures r.None?
  {
    var contents := FileContentsAsWritten(disk, raw);
    if |contents| == 0 then None else Some(contents)
  }

  /** A one-byte file that the intended loader returns is lost as written. */
  lemma LoadFileAsWrittenLosesFiles()
    ensures LoadFile(map["icon.png" := [7]], "icon.png") == Some([7])
    ensures LoadFileAsWritten(map["icon.png" := [7]], "icon.png") == None
  {
  }

  /** The virtual `loadResource`, dispatched on the loader's variant. */
  function LoadResource(l: Loader, raw: string, inflate: seq<byte> -> seq<byte>): (r: Option<seq<byte>>)
    requires CanLoad(l, raw) && EntriesOk(l)
    ensures l.LodLoader? ==> r.Some? && |r.value| == l.entries[raw].realSize
    ensures l.LodLoader? && l.archive.Some? ==> r == Some(LoadLod(l.archive.value, l.entries[raw], inflate))
    ensures l.LodLoader? && l.archive.None? ==> r == Some(LoadLod([], l.entries[raw], inflate))
    ensures l.FileLoader? ==> r == LoadFile(l.disk, raw)
    ensures (l.SoundLoader? || l.VideoLoader?) ==> r == LoadMedia(l.archive, l.entries[raw])
  {
    match l
      case LodLoader(_, archive, entries) =>
        Some(LoadLod(if archive.Some? then archive.value else [], entries[raw], inflate))
      case FileLoader(_, _, disk) => LoadFile(disk, raw)
      case SoundLoader(_, archive, entries) => LoadMedia(archive, entries[raw])
      case VideoLoader(_, archive, entries) => LoadMedia(archive, entries[raw])
  }

  // ------------------------------------------ decompressFile: chunks and status

  /** The input slicing of `decompressFile`'s outer loop: chunk `n` is the
      `min(FCHUNK, size - n * FCHUNK)` bytes at `n * FCHUNK`, until the input
      is used up. The chunks are non-empty, at most `fchunk` long, all full
      except possibly the last, and together they are exactly the input. */
  method InflateChunks(input: seq<byte>, fchunk: nat) returns (chunks: seq<seq<byte>>)
    requires fchunk > 0
    ensures Flatten(chunks) == input
    ensures forall i :: 0 <= i < |chunks| ==> 0 < |chunks[i]| <= fchunk
    ensures forall i :: 0 <= i < |chunks| - 1 ==> |chunks[i]| == fchunk
  {
    var size := |input|;
    chunks := [];
    var start := 0;  // chunkNumber * FCHUNK
    while start < size
      invariant start <= size || (chunks != [] && |chunks[|chunks| - 1]| < fchunk)
      invariant Flatten(chunks) == input[..if start <= size then start else size]
      invariant forall i :: 0 <= i < |chunks| ==> 0 < |chunks[i]| <= fchunk
      invariant forall i :: 0 <= i < |chunks| - 1 ==> |chunks[i]| == fchunk
      invariant start <= size ==> forall i :: 0 <= i < |chunks| ==> |chunks[i]| == fchunk
      decreases size - start
    {
      var availIn := if fchunk <= size - start then fchunk else size - start;
      var chunk := input[start..start + availIn];
      assert input[..start + availIn] == input[..start] + chunk;
      ghost var prev := chunks;
      chunks := chunks + [chunk];
      assert chunks[..|chunks| - 1] == prev;
      start := start + fchunk;
    }
    assert input[..size] == input;
  }

  const Z_OK: int := 0
  const Z_STREAM_END: int := 1
  const Z_DATA_ERROR: int := -3
  const Z_MEM_ERROR: int := -4

  /** A zlib error code: every one of them is negative. */
  type ZError = c: int | c < 0 witness Z_DATA_ERROR

  /** How `decompressFile`'s run of zlib ends: `inflate` reaches the end of
      the stream; it reports a data error, a missing dictionary or a memory
      error; the input chunks run out before the stream ends; or
      `inflateInit2` fails with an error code. */
  datatype InflateOutcome =
    | StreamEnd
    | DataError
    | NeedDict
    | MemError
    | InputExhausted
    | InitFailed(code: ZError)

  /** The `int` status `decompressFile` computes: the init error as it is,
      `Z_DATA_ERROR` for a data error or a missing dictionary, `Z_MEM_ERROR`
      for a memory error, and at the end `Z_OK` exactly when the stream end
      was reached. */
  function DecompressFileStatus(o: InflateOutcome): (status: int)
    ensures status == Z_OK <==> o == StreamEnd
    ensures status != Z_OK ==> status < 0
    ensures o == DataError || o == NeedDict || o == InputExhausted ==> status == Z_DATA_ERROR
    ensures o == MemError ==> status == Z_MEM_ERROR
  {
    match o
    case StreamEnd => Z_OK
    case DataError => Z_DATA_ERROR
    case NeedDict => Z_DATA_ERROR
    case MemError => Z_MEM_ERROR
    case InputExhausted => Z_DATA_ERROR
    case InitFailed(code) => code
  }

  /** `decompressFile` is declared `bool` but returns that `int` status: it
      converts to `true` exactly when the run did NOT reach the stream end. */
  function DecompressFileResultAsWritten(o: InflateOutcome): (ok: bool)
    ensures ok <==> o != StreamEnd
  {
    DecompressFileStatus(o) != 0
  }

  /** The intended `bool` result: success exactly when the status is `Z_OK`,
      which is exactly when the stream end was reached. */
  function DecompressFileResult(o: InflateOutcome): (ok: bool)
    ensures ok <==> o == StreamEnd
    ensures !ok ==> DecompressFileStatus(o) < 0
  {
    DecompressFileStatus(o) == Z_OK
  }

  /** Whether `loadResource` logs "decompression wasn't successful" for the
      entry `e` of the archive image `img`, as written. Only a packed entry
      goes through `decompressFile`; `outcome` stands for how zlib's run
      ends on the entry's stored bytes. */
  predicate LodLogsFailureAsWritten(img: seq<byte>, e: ArchiveEntry, outcome: seq<byte> -> InflateOutcome) {
    e.size > 0 && !DecompressFileResultAsWritten(outcome(ReadAt(img, e.offset, e.size)))
  }

  /** The same decision over the intended `bool` result. */
  predicate LodLogsFailure(img: seq<byte>, e: ArchiveEntry, outcome: seq<byte> -> InflateOutcome) {
    e.size > 0 && !DecompressFileResult(outcome(ReadAt(img, e.offset, e.size)))
  }

  /** As written, a packed entry's failure is logged exactly when the
      intended reading would not log it, that is exactly on success. */
  lemma LodFailureLogInverted(img: seq<byte>, e: ArchiveEntry, outcome: seq<byte> -> InflateOutcome)
    requires e.size > 0
    ensures LodLogsFailureAsWritten(img, e, outcome) <==> !LodLogsFailure(img, e, outcome)
    ensures LodLogsFailureAsWritten(img, e, outcome) <==> outcome(ReadAt(img, e.offset, e.size)) == StreamEnd
  {
  }

  /** Intended: a failure is logged exactly for a packed entry whose stream
      does not reach its end (a data error, a missing dictionary, a memory
      error, input that runs out, or a failed init), and an unpacked entry
      is never logged. */
  lemma LodLogsExactlyOnFailure(img: seq<byte>, e: ArchiveEntry, outcome: seq<byte> -> InflateOutcome)
    ensures LodLogsFailure(img, e, outcome)
            <==> e.size > 0 && outcome(ReadAt(img, e.offset, e.size)) != StreamEnd
    ensures e.size <= 0 ==> !LodLogsFailure(img, e, outcome) && !LodLogsFailureAsWritten(img, e, outcome)
  {
  }
}
