# VCMI virtual file system (`CFileSystemHandler`) in Dafny

This project is a Dafny model of VCMI's resource layer, `lib/CFileSystemHandler.cpp`. The layer has four parts:

- **Loaders.** A LOD archive, a loose-file directory, a sound archive and a video archive each scan their backing store.
- **Names.** Each file name found in a scan is normalised into a `ResourceIdentifier`: the name upper-cased with its extension split off, plus a resource type read from the extension.
- **The resource map.** The registry merges every scan into one map from identifier to an ordered list of locators. A locator is a loader plus the name that loader knows the file by.
- **The cache.** Requests are served through a cache of weak references to loaded `CMemoryStream` buffers. A request can also gunzip the loaded bytes.

What the model passes around in place of I/O:

- A backing store is a value. An archive is its file image (`seq<byte>`). A directory is the sequence of entries its recursive walk visits, plus a table from path to file contents.
- zlib's inflate is a function parameter. So is the gzip decoder, which is given as the sequence of values successive `gzread` calls return.
- A stream handed out by the registry is a buffer id. Strong references are counted, and a weak reference whose buffer has no strong reference left has expired.

Modules:

- `Bytes`: the byte type, little-endian words, C strings and raw reads.
- `MemoryStreams`: the class `MemoryStream`.
- `ResourceNames`: name normalisation and the extension table.
- `ResourcesMap`: the identifier-to-locators map.
- `Catalogs`: the three binary catalog formats and the shared insertion loop.
- `FileWalk`: the loose-file scan.
- `Loaders`: the loader variants and their `loadResource`, including `decompressFile`'s input chunking.
- `GzipUnpack`: `getUnpackedFile`.
- `Registry`: the class `FileSystemHandler`.

`lib/CFileSystemHandler.h` is not part of this model. Three things come from it and are not visible here:

- the `ArchiveEntry` field widths and defaults;
- the `(data, length)` constructor of `CMemoryStream`;
- the value of `LodDecompressHelper::FCHUNK`.

The model takes `ArchiveEntry.size` as a signed integer and the other entry fields as naturals. It gives FCHUNK as a parameter.

Where the code and its evident intent (its comments and names) differ, the model follows the code:

- The extension table's text key is `"TXT"` without a dot. So a file `A.TXT` is classified `OTHER`, not `TEXT`.
- The cache uses `std::map::insert`, which keeps an existing entry. So the first insertion for a locator stays, not the last one, and an expired entry is never refreshed.
- The loose-file loader opens the registered relative path as it is, without the directory root in front.
- A LOD entry whose decompression fails still gives a stream of `realSize` bytes (lines 205-212). The failure is only logged; it does not become an empty result.

The model exposes seven defects in the code; see "## Findings". For each one, the model holds both the code as written and the intended behaviour. The registry is built from the intended members: names are split by `AdaptResourceName` (through `Ident`), loose files are read by `LoadFile`, and catalog loaders serve their names under `CanLoad`, the intended assert. So `ServableAfterScan`, `AddLoaderKeepsServable` and the cache contracts describe the corrected program, not the as-written name splitting, file loading or asserts. Only `Registry.FileSystemHandler.GetResource` stays as written; it agrees with the intended `GetResourceSeparated` on every packed request.

## Model

| member | source | states |
|---|---|---|
| MemoryStreams.MemoryStream.FromBytes | lib/CFileSystemHandler.cpp:635 | a stream over a buffer holds exactly its bytes, with the cursor at 0 |
| MemoryStreams.FileContents | lib/CFileSystemHandler.cpp:30-45 | a stream built from a path holds the whole file when it exists and nothing otherwise (intended behaviour) |
| MemoryStreams.FileContentsAsWritten | lib/CFileSystemHandler.cpp:30-45 | as written, the bytes read are always empty, because the length comes from `tellg()` at position 0 |
| MemoryStreams.MemoryStream.FromFile | lib/CFileSystemHandler.cpp:30-45 | the path constructor (intended): data is the whole file or empty, length is its size, cursor 0 |
| MemoryStreams.MemoryStream.FromFileAsWritten | lib/CFileSystemHandler.cpp:30-45 | the path constructor as written: length 0 and no data for every path |
| MemoryStreams.MemoryStream.Copy | lib/CFileSystemHandler.cpp:47-59 | the copy holds the same bytes, length and cursor |
| MemoryStreams.MemoryStream.ReadInt8 | lib/CFileSystemHandler.cpp:8-12 | requires a byte under the cursor; returns `data[seekPos]` and advances by exactly 1; data and length are untouched |
| MemoryStreams.MemoryStream.ReadInt16 | lib/CFileSystemHandler.cpp:14-20 | as written: requires two bytes left, advances by exactly 2, and returns the word at buffer offset 0 |
| MemoryStreams.MemoryStream.ReadInt32 | lib/CFileSystemHandler.cpp:22-28 | as written: requires four bytes left, advances by exactly 4, and returns the word at buffer offset 0 |
| MemoryStreams.MemoryStream.ReadInt16AtCursor | lib/CFileSystemHandler.cpp:14-20 | intended: returns the little-endian word under the cursor (below 2^16) and advances by 2 |
| MemoryStreams.MemoryStream.ReadInt32AtCursor | lib/CFileSystemHandler.cpp:22-28 | intended: returns the word under the cursor and advances by 4; re-encoding the word gives back the four bytes read |
| MemoryStreams.MemoryStream.SetSeekPos | lib/CFileSystemHandler.cpp:73-77 | requires `pos < length`; afterwards `seekPos == pos` |
| MemoryStreams.MemoryStream.Reset | lib/CFileSystemHandler.cpp:79-82 | afterwards `seekPos == 0` |
| MemoryStreams.MemoryStream.GetSeekPos | lib/CFileSystemHandler.cpp:84-87 | returns the cursor, which never exceeds the length |
| MemoryStreams.MemoryStream.GetLength | lib/CFileSystemHandler.cpp:89-92 | returns the length, which equals the buffer size |
| MemoryStreams.MemoryStream.MoreBytesToRead | lib/CFileSystemHandler.cpp:94-97 | true exactly when `seekPos < length`, i.e. when a one-byte read is allowed |
| MemoryStreams.MemoryStream.GetRawData | lib/CFileSystemHandler.cpp:61-64 | returns the whole buffer, of size `length` |
| MemoryStreams.ReadInt16IgnoresCursor | lib/CFileSystemHandler.cpp:19 | on `[1,0,2,0]` the word at offset 0 differs from the word at offset 2, so the as-written read returns the wrong word when the cursor is at 2 |
| MemoryStreams.ReadInt32IgnoresCursor | lib/CFileSystemHandler.cpp:27 | the same for 32-bit words at offsets 0 and 4 |
| Bytes.LeU16 | lib/CFileSystemHandler.cpp:19 | the decoded word is below 2^16; its low byte is the first byte and its high byte the second |
| Bytes.LeU32 | lib/CFileSystemHandler.cpp:124 | the decoded 32-bit word is below 2^32 |
| Bytes.LeU32OfLe32Bytes | lib/CFileSystemHandler.cpp:157-159 | encoding a 32-bit word and decoding it gives the word back |
| Bytes.Le32BytesOfLeU32 | lib/CFileSystemHandler.cpp:157-159 | decoding four bytes and re-encoding gives the same bytes, so decoding is a bijection |
| Bytes.CString | lib/CFileSystemHandler.cpp:152 | a NUL-padded name field read as a C string: its bytes before the first 0 byte, all of them nonzero |
| Bytes.ReadAt | lib/CFileSystemHandler.cpp:190-193 | a read of `count` bytes at `offset` fills a `count`-byte buffer; it is the file slice when in bounds, and agrees with the file wherever the file has bytes |
| ResourceNames.ToUpperChar | lib/CFileSystemHandler.cpp:490-492 | `toupper` produces no lower-case letter and keeps `/` and `.` exactly where they were |
| ResourceNames.ToUpper | lib/CFileSystemHandler.cpp:490-492 | upper-casing keeps the length and maps each character |
| ResourceNames.FindLastOfSep | lib/CFileSystemHandler.cpp:495 | `find_last_of("/.")`: none exactly when there is no `/` or `.`; otherwise a `/` or `.` with none after it |
| ResourceNames.AdaptResourceName | lib/CFileSystemHandler.cpp:487-505 | intended: `name + ext == toUpper(s)`; `ext` is empty, or starts with `.` and has no other `.` or `/` |
| ResourceNames.AdaptResourceNameSplitsIffExtension | lib/CFileSystemHandler.cpp:494-501 | `ext` is non-empty exactly when the last `/` or `.` of the name is a `.` |
| ResourceNames.FirstCharOfAdapted | lib/CFileSystemHandler.cpp:487-505 | the adapted pair starts with the upper-cased first character of the name |
| ResourceNames.AdaptResourceNameAsWritten | lib/CFileSystemHandler.cpp:487-492 | as written, `std::transform` into an empty string gives an empty name and an empty extension |
| ResourceNames.AdaptAsWrittenMergesNames | lib/CFileSystemHandler.cpp:492 | as written, `a.def` and `b.bmp` adapt to the same pair; the intended function keeps them apart |
| ResourceNames.ConvertFileExtToResTypeSpec | lib/CFileSystemHandler.cpp:467-485 | each listed key gives its listed type, and the result is `OTHER` exactly for unlisted strings |
| ResourceNames.ConvertFileExtToResType | lib/CFileSystemHandler.cpp:467-485 | `convertFileExtToResType`: the lookup in the extension table, with `OTHER` for a missing key; `ConvertFileExtToResTypeSpec` pins it key by key, and `DotTxtIsOther` and `AdaptedTextIsJson` state what it means for adapted names |
| ResourceNames.DotTxtIsOther | lib/CFileSystemHandler.cpp:473 | the extension `.TXT`, and so the name `a.txt`, classify as `OTHER` |
| ResourceNames.AdaptedTextIsJson | lib/CFileSystemHandler.cpp:473-474 | the only extension of a real name that classifies as `TEXT` is `.JSON` |
| ResourceNames.Ident | lib/CFileSystemHandler.cpp:99-104 | the identifier's name is the prefix plus the upper-cased name minus its extension; its type is the extension's type |
| ResourcesMap.AddEntryToMap | lib/CFileSystemHandler.cpp:99-106 | one locator `(owner, raw)` appended at the end of its identifier's list; keys grow by that identifier; every other list is unchanged |
| ResourcesMap.AddEntryGet | lib/CFileSystemHandler.cpp:99-106 | one registration adds a locator to exactly the identifier the name normalises to |
| ResourcesMap.RegisterAll | lib/CFileSystemHandler.cpp:165-168 | the `push_back` of a whole scan, one locator per name in scan order; `RegisterAllAppends` and `LocatorsForSpec` fix each identifier's list |
| ResourcesMap.RegisterAllAppends | lib/CFileSystemHandler.cpp:165-168 | after a scan, each list is its old list followed by the locators of exactly the names that normalise to it, in scan order; an identifier is present exactly when it was before or a name normalises to it |
| ResourcesMap.LocatorsForSound | lib/CFileSystemHandler.cpp:99-106 | every added locator belongs to the scanning loader, names a scanned name, and that name normalises to the identifier |
| ResourcesMap.LocatorsForComplete | lib/CFileSystemHandler.cpp:99-106 | an identifier gains locators exactly when some scanned name normalises to it |
| ResourcesMap.LocatorsForSpec | lib/CFileSystemHandler.cpp:99-106 | both of the above together |
| ResourcesMap.AddEntryKeepsWellFormed | lib/CFileSystemHandler.cpp:99-106 | appending keeps every list non-empty, in loader order, and naming registered loaders |
| ResourcesMap.RegisterAllKeepsWellFormed | lib/CFileSystemHandler.cpp:461-465 | a whole scan by the newest loader keeps the map well formed |
| ResourcesMap.FrontAndBackArePriorityExtremes | lib/CFileSystemHandler.cpp:520-529 | in a list in registration order, the front holds the lowest loader position and the back the highest |
| Catalogs.LodRecordCount | lib/CFileSystemHandler.cpp:120-131 | the number of LOD records: exactly the u32 at offset 8 when that many 32-byte records from 0x5C fit in the image; otherwise fewer, every one inside the image, and stopping only where the next record would not fit; none when the image is too short for the count |
| Catalogs.LodCatalog | lib/CFileSystemHandler.cpp:144-169 | one decoded record per counted slot, each with a non-negative stored size; record `i` lies inside the image and is the decode of slot `i` (`LodRecord`), whose fields `LodRecordDecodesLayout` fixes |
| Catalogs.LodRecord | lib/CFileSystemHandler.cpp:148-159 | record `i` of the LOD catalog, its name adapted and classified; its fields are fixed by `LodRecordDecodesLayout` (name at +0, offset at +16, uncompressed size at +20, stored size at +28) |
| Catalogs.LodRecordBytes | lib/CFileSystemHandler.cpp:134-141 | the 32-byte layout of a LOD record |
| Catalogs.LeU32Window | lib/CFileSystemHandler.cpp:157-159 | a word read from an image is the word of its 4-byte window |
| Catalogs.LodRecordFields | lib/CFileSystemHandler.cpp:134-141 | the name is at +0, offset at +16, uncompressed size at +20 and stored size at +28 of a record |
| Catalogs.LodFieldWord | lib/CFileSystemHandler.cpp:157-159 | a field written into a record at some slot reads back as the same word |
| Catalogs.LodRecordDecodesLayout | lib/CFileSystemHandler.cpp:150-159 | a record laid out at slot `i` decodes to its name up to the first NUL, its offset, its uncompressed size and its stored size |
| Catalogs.LodWordsAt | lib/CFileSystemHandler.cpp:150-159 | a record laid out at byte `base` has its name in the first 16 bytes and its offset, uncompressed size and stored size as the words at +16, +20 and +28 |
| Catalogs.SoundRecordCount | lib/CFileSystemHandler.cpp:333-346 | the sound count is exactly the u32 at offset 0 when that many 48-byte records from offset 4 fit; otherwise fewer, every one inside the image, stopping only where the next would not fit |
| Catalogs.SoundCatalog | lib/CFileSystemHandler.cpp:348-360 | one record per slot; record `i`'s name is the C string of its 40-byte field, and its offset and size are the little-endian words at +40 and +44, the size taken directly from the record |
| Catalogs.SoundRecord | lib/CFileSystemHandler.cpp:348-355 | record `i` of the sound catalog; its raw name, offset and size are fixed by the contract of `SoundCatalog` |
| Catalogs.VideoRecordCount | lib/CFileSystemHandler.cpp:377-398 | no records below the 48-byte floor; otherwise exactly the u32 count at offset 0 when that many 44-byte records from offset 4 fit, else fewer, every one inside the image, stopping only where the next would not fit |
| Catalogs.VideoCatalog | lib/CFileSystemHandler.cpp:400-420 | one record per slot, and none below 48 bytes; record `i` lies inside the image, its name is the C string of its 40-byte field, kept raw in the entry, and its offset is the little-endian word at +40 |
| Catalogs.VideoRecord | lib/CFileSystemHandler.cpp:400-415 | record `i` of the video catalog; its name and offset are fixed by the contract of `VideoCatalog`, its size by `VideoEntriesContiguous` |
| Catalogs.VideoEntriesContiguous | lib/CFileSystemHandler.cpp:408-415 | entry `i` ends where entry `i+1` begins, and the last entry ends at the file size |
| Catalogs.SumSizesPrefix | lib/CFileSystemHandler.cpp:408-415 | the first `k` contiguous entries span from the first offset to the end of entry `k-1` |
| Catalogs.VideoSizesCoverArchive | lib/CFileSystemHandler.cpp:408-415 | the inferred video sizes add up to the file size minus the first offset |
| Catalogs.Raws | lib/CFileSystemHandler.cpp:162-166 | the raw names of the records, in catalog order |
| Catalogs.Insert | lib/CFileSystemHandler.cpp:162 | `entries.insert` of one record, which keeps an existing entry (also lines 357 and 417); its meaning over a whole scan is `InsertAllSpec` |
| Catalogs.InsertAll | lib/CFileSystemHandler.cpp:148-169 | the inserts of a whole scan, in record order; `InsertAllSpec` fixes its keys and values and `InsertEntries` proves the scan loop equal to it |
| Catalogs.InsertAllSpec | lib/CFileSystemHandler.cpp:162 | after the `entries.insert` loop: the keys are the old keys plus all record names; old keys keep their entries; a new name gets the entry of its first record |
| Catalogs.InsertAllKeepsSizes | lib/CFileSystemHandler.cpp:157-162 | inserting records with non-negative stored sizes keeps every stored size non-negative |
| Catalogs.RawsStep | lib/CFileSystemHandler.cpp:148-169 | one more record adds its name to the list of names |
| Catalogs.InsertStep | lib/CFileSystemHandler.cpp:148-169 | one loop turn extends both the insertion and the registration by one record |
| Catalogs.InsertEntries | lib/CFileSystemHandler.cpp:148-169 | the scan loop leaves `entries` as all records inserted in order, and the map as all names registered in order |
| FileWalk.Resize | lib/CFileSystemHandler.cpp:293 | `resize` truncates or pads with empty names, keeping the common prefix |
| FileWalk.StepPath | lib/CFileSystemHandler.cpp:291-295 | a directory at depth `l` leaves `l+1` names on the stack, the last being its own, and changes none above it; other entries leave the stack alone |
| FileWalk.RelativePath | lib/CFileSystemHandler.cpp:299-303 | the path built for a file: the first `level` directory names, each followed by `/`, then the leaf; `BuildRelativePath` proves the loop equal to it and `RegisteredPathIsEnclosingPath` ties it to the enclosing directories |
| FileWalk.Walk | lib/CFileSystemHandler.cpp:288-305 | the directory stack and the registered paths after a walk; `WalkNamesMatchFiles`, `StackHoldsEnclosing` and `RegisteredPathIsEnclosingPath` state what it computes |
| FileWalk.WalkNamesMatchFiles | lib/CFileSystemHandler.cpp:296-305 | every regular file is registered exactly once, and nothing else is; the `j`-th registered path ends with the own name of the `j`-th regular file |
| FileWalk.StackHoldsEnclosing | lib/CFileSystemHandler.cpp:291-295 | after a nested walk, the first `level` names on the directory stack are exactly the enclosing directories of an entry at that depth |
| FileWalk.RegisteredPathIsEnclosingPath | lib/CFileSystemHandler.cpp:288-305 | for every walk: visiting a regular file whose parents are nested as visited registers exactly its enclosing directories, each followed by `/`, then its own name |
| FileWalk.IconWalkFirstDir | lib/CFileSystemHandler.cpp:291-295 | entering `sub` at depth 0 leaves the stack `["sub"]` |
| FileWalk.IconWalkSecondDir | lib/CFileSystemHandler.cpp:291-295 | then entering `dir` at depth 1 leaves `["sub", "dir"]` |
| FileWalk.IconRelativePath | lib/CFileSystemHandler.cpp:299-303 | a file `icon.PNG` at depth 2 under that stack gets the path `sub/dir/icon.PNG` |
| FileWalk.IconWalkExample | lib/CFileSystemHandler.cpp:288-305 | the layout `sub/dir/icon.PNG` registers exactly the path `sub/dir/icon.PNG` |
| FileWalk.IconUpper | lib/CFileSystemHandler.cpp:490-492 | that path upper-cases to `SUB/DIR/ICON.PNG` |
| FileWalk.IconLastDot | lib/CFileSystemHandler.cpp:495 | its last `/` or `.` is the dot at position 12 |
| FileWalk.IconIdentExample | lib/CFileSystemHandler.cpp:99-104 | its identifier is `("SUB/DIR/ICON", GRAPHICS)` |
| FileWalk.WalkStep | lib/CFileSystemHandler.cpp:288-305 | one more visited entry extends the walk by one step |
| FileWalk.RegisterStep | lib/CFileSystemHandler.cpp:296-305 | one more visited entry registers its path if it is a regular file, and nothing otherwise |
| FileWalk.BuildRelativePath | lib/CFileSystemHandler.cpp:299-303 | the inner loop builds the first `level` stack names (as many as there are), each with a slash, then the leaf |
| FileWalk.ScanFiles | lib/CFileSystemHandler.cpp:282-313 | a missing root registers nothing; otherwise the map is the old map with every walked file's relative path registered in walk order |
| Loaders.CatalogOf | lib/CFileSystemHandler.cpp:112-118 | a catalog loader whose archive cannot be opened decodes no records; a LOD catalog has non-negative stored sizes |
| Loaders.InvertedAssertRejectsScannedNames | lib/CFileSystemHandler.cpp:177 | every name the scan put into `entries` fails the as-written assert, and can be loaded under the intended one |
| Loaders.LoadAssertAsWritten | lib/CFileSystemHandler.cpp:177 | the assert as written, `name` not among the entries (also line 425); `InvertedAssertRejectsScannedNames` shows every scanned name fails it |
| Loaders.CanLoad | lib/CFileSystemHandler.cpp:177 | the intended assert: a catalog loader serves only names among its entries; `InvertedAssertRejectsScannedNames` and `ScannedLoaderServesItsNames` show every scanned name meets it |
| Loaders.Fit | lib/CFileSystemHandler.cpp:205-211 | the decompressed output lands in a `realSize`-byte buffer, agreeing with the codec on the bytes it produced |
| Loaders.LoadLod | lib/CFileSystemHandler.cpp:175-216 | the result has exactly `realSize` bytes; `size == 0` gives the raw bytes at `[offset, offset+realSize)`; otherwise it gives the inflated bytes of `[offset, offset+size)` |
| Loaders.LoadMedia | lib/CFileSystemHandler.cpp:423-446 | no result exactly when the archive cannot be opened (or the size is negative); otherwise `size` bytes, equal to `[offset, offset+size)` when in bounds |
| Loaders.VideoSpanInsideArchive | lib/CFileSystemHandler.cpp:408-415 | with non-negative sizes from entry `i` on, entry `i` ends inside the file |
| Loaders.VideoLoadReturnsItsSpan | lib/CFileSystemHandler.cpp:439-445 | loading scanned video `i` returns exactly the bytes from its offset to the next video's offset (or to the end of the file) |
| Loaders.LoadFile | lib/CFileSystemHandler.cpp:315-322 | intended: a result exactly when the file exists and is non-empty, and then it is the file's bytes |
| Loaders.LoadFileAsWritten | lib/CFileSystemHandler.cpp:315-322 | as written, over the path constructor's zero length: never a result |
| Loaders.LoadFileAsWrittenLosesFiles | lib/CFileSystemHandler.cpp:317-319 | a one-byte file is returned by the intended loader and lost by the as-written one |
| Loaders.LoadResource | lib/CFileSystemHandler.cpp:553 | the virtual `loadResource`, for a name the loader scanned: LOD always gives `realSize` bytes, namely what `LoadLod` reads for the entry from the archive (an unopenable archive reads as empty); files and media give what their loaders give |
| Loaders.InflateChunks | lib/CFileSystemHandler.cpp:235-243 | the input chunks are non-empty and at most FCHUNK long, all full except possibly the last, and concatenate to exactly the input |
| Loaders.DecompressFileStatus | lib/CFileSystemHandler.cpp:218-279 | the `int` status of `decompressFile`: `Z_OK` exactly when the stream end is reached, otherwise negative; `Z_DATA_ERROR` for a data error, a missing dictionary or input that runs out; `Z_MEM_ERROR` for a memory error |
| Loaders.DecompressFileResultAsWritten | lib/CFileSystemHandler.cpp:279 | as written, the `bool` result is true exactly when the run did not reach the stream end |
| Loaders.DecompressFileResult | lib/CFileSystemHandler.cpp:279 | intended: true exactly when the stream end is reached; a false result always carries a negative status |
| Loaders.LodLogsFailureAsWritten | lib/CFileSystemHandler.cpp:205-208 | the log decision as written: a packed entry whose `decompressFile` result is false; `LodFailureLogInverted` states when it fires |
| Loaders.LodLogsFailure | lib/CFileSystemHandler.cpp:205-208 | the intended log decision; `LodLogsExactlyOnFailure` states when it fires |
| Loaders.LodFailureLogInverted | lib/CFileSystemHandler.cpp:205-208 | as written, a packed entry's failure is logged exactly when the intended reading does not log it, that is exactly when its stream decompressed successfully |
| Loaders.LodLogsExactlyOnFailure | lib/CFileSystemHandler.cpp:196-208 | intended: the failure is logged exactly for a packed entry whose stream does not reach its end; an unpacked entry is never logged, under either reading |
| GzipUnpack.DataPrefix | lib/CFileSystemHandler.cpp:606-617 | the kept blocks are the data of every read before the first read returning 0 or -1, each block non-empty |
| GzipUnpack.ReadBlocks | lib/CFileSystemHandler.cpp:597-617 | the read loop keeps exactly those blocks, and `mapsize` is their total length |
| GzipUnpack.DataPrefixStep | lib/CFileSystemHandler.cpp:609-616 | a read that does not stop the loop contributes its block |
| GzipUnpack.KeepBlock | lib/CFileSystemHandler.cpp:609-616 | one turn of the read loop: the blocks kept so far plus the new block, followed by what later reads keep, are all the blocks the stream yields |
| GzipUnpack.StopKeepsNothing | lib/CFileSystemHandler.cpp:612-613 | once a read returns 0 or -1 (or the reads run out), no further block is kept |
| GzipUnpack.FlattenAppend | lib/CFileSystemHandler.cpp:615-616 | appending a block extends the total by its bytes |
| GzipUnpack.FlattenStep | lib/CFileSystemHandler.cpp:627-631 | the bytes of one more block follow those before it |
| GzipUnpack.CopyTakesWholeBlock | lib/CFileSystemHandler.cpp:626-631 | with full blocks, `min(tocopy, bufsize)` is exactly the current block's length |
| GzipUnpack.CopyBlock | lib/CFileSystemHandler.cpp:630 | the `memcpy` places a block at its offset and leaves the bytes before and after it unchanged |
| GzipUnpack.Reassemble | lib/CFileSystemHandler.cpp:622-636 | the reassembled buffer is exactly the concatenation of the blocks |
| GzipUnpack.FlattenPrefixLength | lib/CFileSystemHandler.cpp:622-631 | the bytes before a block never exceed `mapsize` |
| GzipUnpack.GetUnpackedFile | lib/CFileSystemHandler.cpp:594-637 | the unpacked buffer is exactly the bytes the reads delivered, in order |
| Registry.Resolve | lib/CFileSystemHandler.cpp:513-529 | no locator exactly when the identifier is unregistered; otherwise one of its locators |
| Registry.ResolvePicksPriority | lib/CFileSystemHandler.cpp:520-529 | by default the locator of the latest loader registering the identifier; with `fromBegin`, that of the earliest |
| Registry.Scanned | lib/CFileSystemHandler.cpp:461-465 | after its scan, a catalog loader's `entries` hold its records, with existing entries kept |
| Registry.ScannedLoaderServesItsNames | lib/CFileSystemHandler.cpp:162-168 | every name a loader's scan registers can afterwards be loaded by it |
| Registry.ShortVideoArchiveRegistersNothing | lib/CFileSystemHandler.cpp:377-381 | a video archive below 48 bytes leaves `entries` and the map unchanged |
| Registry.OldLocatorServable | lib/CFileSystemHandler.cpp:463 | appending a loader keeps every existing locator servable |
| Registry.NewLocatorServable | lib/CFileSystemHandler.cpp:464 | a locator added by the new scan names the new loader, and that loader can serve its name |
| Registry.ServableAfterScan | lib/CFileSystemHandler.cpp:461-465 | after `addHandler`, every locator of an identifier is servable |
| Registry.LocatorServable | lib/CFileSystemHandler.cpp:461-465 | a locator of the old list is served by its old loader, and one added by the scan by the new loader |
| Registry.ScanKeepsServable | lib/CFileSystemHandler.cpp:461-465 | appending a loader and registering its scan keeps the registry's map invariant |
| Registry.AddLoaderKeepsServable | lib/CFileSystemHandler.cpp:461-465 | `addHandler` keeps the registry's map invariant |
| Registry.FileSystemHandler.constructor | lib/CFileSystemHandler.cpp:448-451 | an empty registry is valid |
| Registry.FileSystemHandler.AddHandler | lib/CFileSystemHandler.cpp:461-465 | the loader is appended at the tail, then its scan is registered under its position; the invariant is kept |
| Registry.FileSystemHandler.GetResource | lib/CFileSystemHandler.cpp:508-548 | unregistered: null and nothing changes; a live cache entry: that same buffer, which gains an owner, with no load; otherwise exactly what `AddResource` does |
| Registry.FileSystemHandler.Expired | lib/CFileSystemHandler.cpp:539 | `weak_ptr::expired`: the cached reference is null or its buffer has no owner left; `GetResource` and `GetTwice` use it to decide between sharing and loading |
| Registry.FileSystemHandler.AddResource | lib/CFileSystemHandler.cpp:550-567 | the loaded bytes become a new buffer with one owner, or null; unpacked, they are gunzipped and the cache is untouched; packed, they are cached only when the locator has no entry yet |
| Registry.FileSystemHandler.Loaded | lib/CFileSystemHandler.cpp:550-567 | the state `addResource` leaves: a new buffer with one owner or null, unpacked content when asked, and a cache entry only for a packed request on a locator without one; it is the postcondition of `AddResource` |
| Registry.FileSystemHandler.Allocate | lib/CFileSystemHandler.cpp:553 | a new stream gets the next id and one owner |
| Registry.FileSystemHandler.GetTwice | lib/CFileSystemHandler.cpp:532-563 | two packed requests share one buffer, except when the locator's entry had already expired; then each request loads a different buffer |
| Registry.FileSystemHandler.PackedThenUnpacked | lib/CFileSystemHandler.cpp:532-547 | as written, an unpack request that follows a packed request for a resource not cached before gets the packed stream itself back |
| Registry.FileSystemHandler.GetResourceSeparated | lib/CFileSystemHandler.cpp:555-557 | intended: an unpack request leaves the cache alone and yields exactly what `addResource` with unpacking yields; a packed request behaves as `getResource` does |
| Registry.FileSystemHandler.PackedThenUnpackedSeparated | lib/CFileSystemHandler.cpp:555-557 | intended: after a packed request, an unpack request for the same resource gets a new buffer, never the packed stream |
| Registry.FileSystemHandler.Release | lib/CFileSystemHandler.cpp:539 | dropping a strong reference takes one owner from its buffer |

## Left out

- File, directory and temp-file I/O are left out: `ifstream`, `gzopen`, `fopen`, `remove` and `boost::filesystem`. Backing stores are values, and `getUnpackedData`'s detour through a temporary file becomes a direct call of the gzip decoder on the loaded bytes.
- zlib is left out. `inflate` and the gzip decoder are function parameters. The chunking of `decompressFile`'s input is modelled (`Loaders.InflateChunks`). Its inner output loop (lines 246-271) and its early stop at `Z_STREAM_END` are not. So the model loses a possible endless loop: once `realSize` bytes are out and the stream end has not been reached (longer inflated data, or an end marker in a later FCHUNK chunk), `avail_out` stays 0, `inflate` makes no progress, and the loop repeats; `Loaders.LoadLod` returns the cut-down `Fit` output instead. `Loaders.LoadLod` takes the codec's output for the whole stored block. How zlib's run ends, as `decompressFile` sees it, is the parameter `outcome` (`Loaders.InflateOutcome`); the model derives the status and the log decision from it.
- Logging (`tlog`) and the `boost::mutex` are left out. `addResource` is one atomic step, and the concurrent double-load race is not modelled.
- `getResourceAsString`, `getUnpackedResource`, `writeToFile` and `writeMemoryStreamToFile` are left out. They are I/O or rely on `getDataAsString`, which is not shown. `getUnpackedResource` is `GetResource` with `unpack` set.
- Manual memory management and destructors are left out. Memory never written by a short read is modelled as zero bytes, where the source leaves it uninitialised.
- Catalogs.LodCatalog: when the count promises more records than the file holds, only the complete records are decoded. The source reads the missing records from uninitialised memory. The same holds for `Catalogs.SoundCatalog` and `Catalogs.VideoCatalog`. For video, the last decoded record then takes its size from the file size.
- Catalogs.SoundCatalog: a file shorter than the 4-byte count registers nothing. The source reads an uninitialised count.
- Catalogs.VideoRecord: sizes are exact differences, where the source computes them in unsigned 32-bit and `size_t` arithmetic. `Loaders.LoadMedia` returns no resource for a negative size, where the source allocates from a wrapped size.
- MemoryStreams.MemoryStream.Copy: modelled as the deep copy `operator=` evidently intends. `operator=` (lines 55-56) copies `length` bytes while `length` is still the new object's uninitialised value.
- MemoryStreams.MemoryStream.ReadInt16: requires `seekPos + 2 <= length`. The source's assert, `seekPos < length - 1`, agrees with that for `length >= 1`. When `length == 0`, the unsigned `length - 1` wraps around and the assert accepts any cursor.
- MemoryStreams.MemoryStream.ReadInt32: requires `seekPos + 4 <= length`. The source's assert, `seekPos < length - 3`, agrees with that for `length >= 3`. For lengths 0 to 2, the unsigned `length - 3` wraps around and the assert accepts any cursor.
- Bytes.CString: a name field with no NUL byte gives its whole width. The source reads on past the field.
- Registry.FileSystemHandler.AddResource: an unpack request whose load gives null returns null. The source dereferences the null stream.
- GzipUnpack.GetUnpackedFile: requires that every block holds at most `bufsize` bytes and that only the last kept block is short, which is what `gzread` on a file delivers. The `int` total `mapsize` is not limited to 32 bits.
- Registry.FileSystemHandler.Release: dropping a `shared_ptr` is a separate step here. In the source it happens when the holder goes out of scope.

## Findings

| source | as written | input that shows it | evidently intended | confidence | as-written member | corrected member |
|---|---|---|---|---|---|---|
| lib/CFileSystemHandler.cpp:19 | `readInt16` decodes the word at the start of the buffer | buffer `[1,0,2,0]` with the cursor at 2 returns 1, not 2 | decode at `data + seekPos` | not executed | MemoryStreams.ReadInt16IgnoresCursor | MemoryStreams.MemoryStream.ReadInt16AtCursor |
| lib/CFileSystemHandler.cpp:27 | `readInt32` decodes the word at the start of the buffer | buffer `[1,0,0,0,2,0,0,0]` with the cursor at 4 returns 1, not 2 | decode at `data + seekPos` | not executed | MemoryStreams.ReadInt32IgnoresCursor | MemoryStreams.MemoryStream.ReadInt32AtCursor |
| lib/CFileSystemHandler.cpp:177 | `loadResource` asserts that the name is NOT in `entries` (the same at line 425) | any scanned name, e.g. the first record of any non-empty LOD | assert that the name is present | not executed | Loaders.InvertedAssertRejectsScannedNames | Loaders.LoadResource |
| lib/CFileSystemHandler.cpp:492 | `std::transform` writes through the begin iterator of an empty string, whose size stays 0 | `a.def` and `b.bmp` both adapt to `("", "")` | upper-case into a string of the input's size | not executed | ResourceNames.AdaptAsWrittenMergesNames | ResourceNames.AdaptResourceName |
| lib/CFileSystemHandler.cpp:279 | the `bool` function returns the `int` status, so `Z_OK` (0) comes back as `false` and line 205 logs a failure on every success | status `Z_OK` is logged as a failure; `Z_DATA_ERROR` is not | return `true` exactly on `Z_OK` | not executed | Loaders.LodFailureLogInverted | Loaders.LodLogsExactlyOnFailure |
| lib/CFileSystemHandler.cpp:36 | the length is taken from `tellg()` on a stream just opened at position 0, so it is 0 and the loose-file loader never returns a file | the one-byte file `icon.png` gives no resource | open at the end (`std::ios::ate`) or seek there before `tellg()`, then rewind | not executed | Loaders.LoadFileAsWrittenLosesFiles | Loaders.LoadFile |
| lib/CFileSystemHandler.cpp:546 | `getResource` returns the live cached stream whatever `unpackResource` says, although the comment at lines 555-557 keeps packed and unpacked data apart | request a resource packed, keep the stream, then request it unpacked: the second request returns the packed stream | an unpack request bypasses the cache | not executed | Registry.FileSystemHandler.PackedThenUnpacked | Registry.FileSystemHandler.GetResourceSeparated |
