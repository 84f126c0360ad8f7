# Mosaic Archive: a verified model

Mosaic Archive is a deduplicating, encrypting archiver with a fail-closed measurement harness beside it. This
project models the logic of both in Dafny 4.11 and proves what they are for. `dafny verify dfyconfig.toml` checks
everything.

## What is modelled

**Chunking** (`Cdc`, and `Words` for 64-bit words). A reference splitter that looks at one byte at a time, the
streaming loop that must agree with it, the fingerprint's value in closed form, and what makes chunk boundaries recover
after an edit.

**Block codecs** (`Rle`, `Delta8`, `Modes`, `Padding`). Run lengths, wrapping deltas, the choice among the modes, and
length-bucket padding.

**The deduplicating archive** (`DedupManifest`, `DedupScan`, `Sealing`, `Frames`, `DedupArchive`, `DedupRoundTrip`,
`DedupAcceptance`, and for version 2 data frames `StreamArchive`). The manifest with its printer and parser, the scan
that builds it, authenticated frames, the encoder's second pass, the decoder with its cache, the end-to-end theorem, and
which sources the encoder accepts.

**The solid archive** (`CompactUint`, `PackedLanes`, `CompactMetadata`, `CompactCodec`, `SolidFrames`, `SolidLanes`,
`SolidResearch`, `SampleWindows`, `SolidArchive`, `LaneStorage`, `SolidRoundTrip`, `SolidAcceptance`). Canonical
metadata, lane spooling and merging, the two frame writers, size planning and the form in which each lane is stored, the
canonical file, the end-to-end theorem, and which sources the writer accepts.

**Both archives** (`Integrity`, `NonceUse`, `BoundaryCases`, `WireFormats`). What a reader lets through whatever the
archive's bytes are, which frames are sealed under which nonces, concrete sources that a writer accepts and its own reader
refuses, and the formats byte by byte.

**Protocols with failure at every step** (`Supervisor`, `Descriptors`, `Publication`, `BindingIo`, `SourceIdentity`,
`CgroupLease`). The delegated-root handoff under forks and exits; a kernel that may fail at any call and a log of what
was done to which descriptor; on it, no-replace publication and the opening and creation of cgroup leaves; source
re-verification; and the lease on one cgroup leaf.

**Algorithms with exact specifications** (`ProcessObserver`, `IdSet`, `CaseIdentity`).

`Bytes` holds byte strings, big-endian fields and the parsers that return the unread rest.

Loops and objects that the source updates in place are methods and classes here, each proved against a function or a
predicate; the theorems are about those. Foreign code enters as function-valued parameters with stated hypotheses:

* digests are an arbitrary function; where a theorem needs it, no two chunks *read in that run* share a digest and a size;
* compressors and block codecs that are not modelled are pairs whose second part inverts the first;
* authenticated encryption is a pair that opens what it sealed and adds 16 bytes;
* path rules (canonical form, folding, parent) and the routing of chunks to lanes are arbitrary functions;
* random bytes, clocks, and the answers of the kernel or of a backend are arbitrary inputs.

## What the proofs turned up

The theorems are stated as they hold of the code, with the exact condition where a bound is missing:

* The deduplicating encoder counts only unique chunks, its parser all chunks (`dedup_archive.py:479`, `:217`). This is
  harmless: its bound on the manifest bounds all chunks far below the parser's table (`DedupArchive.EncodableFitsTable`).
* That manifest check omits the 8-byte length prefix (`dedup_archive.py:501`). `Frames.GuardSuffices` says for which
  padding sizes this matters; `BoundaryCases.DedupReaderRefusesItsWriter` gives a file for padding size 349.
* The solid writer allows 256 MiB of compressed metadata, its reader 64 MiB of ciphertext, 256 MiB of uncompressed
  text, 1,000,000 frames in a lane and 16,777,215 chunks (`solid_archive_v2.py:443`, `:547`, `:275`, `:645`).
  `SolidRoundTrip.DecodeRestores` has exactly these conditions; `BoundaryCases.SolidReaderRefusesItsWriter` gives a file
  that is written and not read back.
* The solid writer prints differences of modification times as signed 64-bit numbers, so it refuses a source in which two
  neighbouring times lie further apart (`solid_archive_v2.py:236`, `:184`); of the sources of bounded size it refuses no
  other (`SolidAcceptance.SmallSourceIsWritten`).
* The frame reader admits an empty last frame that no writer emits (`SolidFrames.EmptyLastFrameIsAdmitted`).
* The Rust range parser accepts touching ranges that the Python parser refuses (`IdSet.PythonAcceptsSeparated`).
* A child forked before the coordinator has claimed descriptor 4 keeps that descriptor (`Supervisor.ChildHoldsNeither`).
* Verified end of file does not cover a process that is killed: if the kernel closes its control socket before its root,
  cleanup may run while the root is still open (`Supervisor.DisorderlyExitLeavesARoot`).

## Model

| member | source | states |
|---|---|---|
| Cdc.IterContentDefinedChunks | src/mosaic_archive/cdc.py:60-127 | for every split of the input into nonempty read blocks, the streaming loop with its skip, capped scan, masked fingerprint and buffer compaction yields the chunk list of the byte-at-a-time splitter on the whole input, whose boundaries are those of the closed form below |
| Cdc.SplitBlock | src/mosaic_archive/cdc.py:83-124 | one read block moves the streaming state from a correct position to a correct position, emitting exactly the reference chunks that end inside it |
| Cdc.FindBoundary | src/mosaic_archive/cdc.py:99-115 | the innermost loop stops at the reference cut, or carries the masked value of the reference fingerprint on |
| Cdc.CutIsFirstBoundary | src/mosaic_archive/cdc.py:88-119 | a chunk ends at the first boundary not before the minimum, at the maximum, or with the data, and only the last chunk may be below the minimum |
| Cdc.ChunksConcatenateToInput | src/mosaic_archive/cdc.py:60-127 | the chunks concatenate to the input |
| Cdc.ChunkSizes | src/mosaic_archive/cdc.py:60-127 | every chunk is nonempty and within the maximum; all but the last reach the minimum |
| Cdc.NextFingerprintIsMasked | src/mosaic_archive/cdc.py:103-108 | the fingerprint kept modulo the average size always equals the unmasked 64-bit value masked, so masking changes no cut |
| Cdc.GearIsExclusiveOr | src/mosaic_archive/cdc.py:103-108 | the fingerprint of a byte string is the exclusive or, over its last 64 bytes, of each byte's table word shifted left by the number of bytes after it |
| Cdc.HitIsBoundaryValue | src/mosaic_archive/cdc.py:103-108 | a position is a boundary exactly if that exclusive or of the bytes scanned in the chunk is a multiple of the average size |
| Cdc.BoundaryIsMultiple | src/mosaic_archive/cdc.py:41-108 | masking with the average size less one is divisibility by the average size, for every average size that is allowed |
| Cdc.BoundaryIsLocal | src/mosaic_archive/cdc.py:103-108 | once log2(average) bytes have been scanned, a boundary decision depends only on the last log2(average) bytes |
| Cdc.GearForgets | src/mosaic_archive/cdc.py:103-108 | after n steps the low n bits no longer depend on the starting fingerprint |
| Cdc.CutsForgetThePast | src/mosaic_archive/cdc.py:60-68 | the chunks after a cut are the chunks of the rest alone |
| Cdc.ChunksResynchronize | src/mosaic_archive/cdc.py:60-68 | two inputs that both cut just before a common suffix have identical chunks from there on |
| Rle.Encode | src/mosaic_archive/modes/rle.py:11-25 | the run loop emits the greedy encoding |
| Rle.Decode | src/mosaic_archive/modes/rle.py:27-40 | the bounded decoder accepts exactly the well-formed payloads of the expected size and returns what they stand for |
| Rle.ExpandGreedy | src/mosaic_archive/modes/rle.py:11-40 | decoding inverts encoding for every block |
| Rle.GreedyIsShortest | src/mosaic_archive/modes/rle.py:11-40 | no payload the decoder accepts for a block is shorter than the encoder's |
| Rle.ExpandIsRuns | src/mosaic_archive/modes/rle.py:27-40 | a payload is accepted exactly if it consists of pairs without an empty run, and stands for its runs one after another |
| Delta8.Encode | src/mosaic_archive/modes/delta.py:23-29 | first byte, then the run-length coding of the wrapping differences |
| Delta8.Decode | src/mosaic_archive/modes/delta.py:31-44 | the loop rebuilds the block from its wrapping differences and rejects every other size |
| Delta8.DecodeEncoded | src/mosaic_archive/modes/delta.py:23-44 | decoding inverts encoding for every block |
| Delta8.EncodedIsShortest | src/mosaic_archive/modes/delta.py:23-44 | no payload the decoder accepts for a block is shorter than the encoder's |
| Delta8.EncodedHoldsDifferences | src/mosaic_archive/modes/delta.py:23-29 | what the encoder writes is the first byte and runs of the differences that lead from each byte to the next modulo 256 |
| Delta8.DecodedFollowsDifferences | src/mosaic_archive/modes/delta.py:31-44 | what the decoder returns starts with the payload's first byte and follows the differences modulo 256 |
| Modes.GetMode | src/mosaic_archive/modes/__init__.py:34-39 | exactly the seven mode numbers are known, each to its own mode |
| Modes.SmallestIndex | src/mosaic_archive/modes/__init__.py:42-68 | the chosen candidate is the earliest of the shortest |
| Modes.ChoicesAreGood | src/mosaic_archive/modes/__init__.py:42-68 | either chooser returns an encoding that decodes to the block and is never longer than the block |
| Modes.RoutedIsShortestTried | src/mosaic_archive/modes/__init__.py:48-68 | the routed choice is the earliest of the shortest encodings among exactly the modes its profile and the block's statistics name, told mode by mode |
| Modes.RoutingNeverBeatsTryingAll | src/mosaic_archive/modes/__init__.py:42-68 | routing never finds a shorter encoding than trying every mode |
| Padding.PadPayload | src/mosaic_archive/padding.py:13-18 | padding fails exactly outside the block-size range; otherwise the result has the padded size |
| Padding.PaddedSize | src/mosaic_archive/padding.py:13-18 | the padded size holds the length prefix and the payload and adds less than one block |
| Padding.PaddedSizeIsQuotient | src/mosaic_archive/padding.py:16-17 | the padded size is the writer's quotient formula, and a multiple of the block |
| Padding.UnpadPad | src/mosaic_archive/padding.py:13-28 | whatever the random padding bytes are, unpadding returns the payload |
| Sealing.NoncesAreDistinct | src/mosaic_archive/stream_format.py:130-133 | distinct frame indices never share a nonce |
| Frames.FrameRoundTrip | src/mosaic_archive/dedup_archive.py:368-419 | reading a written frame returns its payload and leaves exactly what follows, precisely when the ciphertext is within the reader's limit; order, type and padding checks always pass |
| Frames.FrameIsBound | src/mosaic_archive/dedup_archive.py:368-419 | a written frame is read nowhere else: only under the same public header, at the same index and as the same type, if the cipher tells the two places apart |
| Frames.DataFramesAreReadable | src/mosaic_archive/dedup_archive.py:404-410 | a data frame of at most one chunk and its prefix is always within the reader's limit |
| Frames.GuardSuffices | src/mosaic_archive/dedup_archive.py:501-502 | the writer's manifest bound, which omits the length prefix, keeps every manifest readable if and only if the padding size has no multiple in the last bytes below the limit |
| Frames.GuardFailsAt349 | src/mosaic_archive/dedup_archive.py:501-502 | a concrete manifest size that passes the writer's bound and that its own reader refuses |
| StreamArchive.DataFrameRoundTrip | src/mosaic_archive/stream_archive.py:414-435 | every data frame a version 2 encoder writes passes its reader's padding and size limits and yields the block |
| DedupManifest.ParseDedupManifest | src/mosaic_archive/dedup_archive.py:210-304 | the parser loops compute the functional parser: syntax, then every check |
| DedupManifest.ParseIffPrinted | src/mosaic_archive/dedup_archive.py:181-304 | the parser accepts exactly the printed forms of well-formed manifests and returns the printed manifest |
| DedupManifest.ReadEntries | src/mosaic_archive/dedup_archive.py:228-255 | the entry loop accepts exactly if every entry is in order, and its running chunk count is the sum of the files' counts |
| DedupManifest.ReadChunks | src/mosaic_archive/dedup_archive.py:256-279 | the chunk loop accepts exactly if every record is canonical or points straight back at an identical canonical one, and counts the canonical ones |
| DedupManifest.AcceptedManifest | src/mosaic_archive/dedup_archive.py:210-304 | in an accepted manifest every chunk has exactly one owner, no reference is a chain, the unique chunks are the data frames, and chunk sizes add up to the restored size |
| DedupManifest.AcceptedIsATree | src/mosaic_archive/dedup_archive.py:210-304 | an accepted manifest names one file, or objects with pairwise different folded paths whose parents are directories of the same manifest, with canonical paths and bounded modes |
| DedupManifest.FileSizesAddUp | src/mosaic_archive/dedup_archive.py:246-287 | the file ranges tile the chunk table: file sizes up to any entry are the sizes of the chunks up to its end |
| DedupScan.ScanManifest | src/mosaic_archive/dedup_archive.py:306-365 | the scan returns the manifest in which every chunk refers to the first chunk with its digest and size, and the unique chunks in order of discovery; that it describes the source is `ScannedTreeIsSource` |
| DedupScan.ScanFile | src/mosaic_archive/dedup_archive.py:339-349 | the dictionary loop over one file keeps the index of first occurrences exact |
| DedupScan.ScannedIsWellFormed | src/mosaic_archive/dedup_archive.py:217-365 | the parser's checks hold of a scanned manifest if and only if its chunks fit the parser's table |
| DedupScan.ScannedFits | src/mosaic_archive/dedup_archive.py:181-207 | every field of a scanned manifest within that bound fits the width it is packed into |
| DedupScan.FileSlice | src/mosaic_archive/dedup_archive.py:332-364 | the chunk range of a file entry names exactly that file's chunks |
| DedupArchive.DecodeDedupArchive | src/mosaic_archive/dedup_archive.py:642-787 | the decoder with its chunk cache computes the functional decoding of any archive; it visits occurrences 0 to n-1 once in order and has then read exactly the announced frames |
| DedupArchive.DecodeFile | src/mosaic_archive/dedup_archive.py:725-758 | one file's loop: frames are taken in order, and no cache slot is read before it was written |
| DedupArchive.DecodeEntries | src/mosaic_archive/dedup_archive.py:713-787 | on every manifest the parser accepts, success means that exactly the announced frames were consumed, so the final frame-count check cannot fail |
| DedupArchive.CacheIsReady | src/mosaic_archive/dedup_archive.py:701-755 | a duplicate's source is always in the cache when it is needed |
| DedupArchive.RestoreGrows | src/mosaic_archive/dedup_archive.py:725-758 | restoring more occurrences never changes the ones restored before, and a failure is final |
| DedupArchive.EncodableFitsTable | src/mosaic_archive/dedup_archive.py:479-502 | the encoder counts unique chunks only, but every chunk takes 44 bytes of the manifest it bounds: whatever it accepts fits the parser's chunk table |
| DedupRoundTrip.EncodeDedupArchive | src/mosaic_archive/dedup_archive.py:444-577 | the encoder succeeds exactly within its bounds and when the second reading agrees with the scan, and then writes the archive of what it read |
| DedupRoundTrip.EncodeFile | src/mosaic_archive/dedup_archive.py:536-567 | the second pass over one file continues exactly while the chunks agree with the records, writing one frame for each unique one |
| DedupRoundTrip.ScannedTreeIsSource | src/mosaic_archive/dedup_archive.py:306-365 | the tree restored from a scan has the source's kind and name, and object by object its path, kind of object, mode, time and content, with each file's size and digest |
| DedupRoundTrip.DecodeRestores | src/mosaic_archive/dedup_archive.py:306-787 | whatever archive the encoder produces, decoding it restores the source, every object with its path, kind, mode, time and bytes, if and only if the manifest frame is within the reader's limit and the caller's limits admit it |
| DedupRoundTrip.DecodeRestoresForPadding | src/mosaic_archive/dedup_archive.py:306-787 | for every padding size that the manifest bound suits, the caller's limits are the only condition for restoring the source |
| DedupRoundTrip.WrittenManifestParses | src/mosaic_archive/dedup_archive.py:210-365 | every manifest the encoder writes is well formed and its printed form parses back to it |
| DedupRoundTrip.SameChunks | src/mosaic_archive/dedup_archive.py:540-544 | a second reading that agrees in digests and sizes is the first, if digests distinguish the chunks read |
| DedupRoundTrip.ChunksComeBack | src/mosaic_archive/dedup_archive.py:701-787 | from the written frames the decoder gets back every occurrence, and no byte is left over |
| DedupAcceptance.ManifestTextIsExact | src/mosaic_archive/dedup_archive.py:181-207 | the length of a scanned manifest's text, from the names in the source and its number of chunks |
| DedupAcceptance.SteadySourceIsWritten | src/mosaic_archive/dedup_archive.py:444-577 | a discovered source that reads the same twice is written if and only if the padding size is in range and that length is within the encoder's bound |
| DedupAcceptance.SmallSourceIsWritten | src/mosaic_archive/dedup_archive.py:444-577 | every discovered source whose names and file sizes keep the manifest within the bound, whatever its contents, is written |
| Integrity.DedupDecodedIsIntact | src/mosaic_archive/dedup_archive.py:642-787 | whatever the archive's bytes are, a tree comes back only if every file has the size and digest in the manifest, every check of the manifest holds, and the caller's limits are kept |
| NonceUse.DedupNoncesNeverRepeat | src/mosaic_archive/dedup_archive.py:368-388 | an archive is its manifest frame and one frame for each payload, as many as its header announces, and the nonces they are sealed under are all different |
| NonceUse.SolidNoncesNeverRepeat | src/mosaic_archive/solid_archive_v2.py:455-501 | a solid archive is its metadata, sealed under index 0, and the frames of all three lanes, numbered on from 1, and the nonces they are sealed under are all different |
| BoundaryCases.DedupReaderRefusesItsWriter | src/mosaic_archive/dedup_archive.py:501-502 | a concrete file (an 11-byte name, 6,100,795 chunks, padding 349) that the encoder accepts and whose archive its own decoder refuses |
| BoundaryCases.SolidReaderRefusesItsWriter | src/mosaic_archive/solid_archive_v2.py:436-451 | a concrete file of 16,777,216 equal chunks that the solid writer accepts, with any modest compressor, and whose archive its own reader refuses |
| CompactUint.EncodeCompactUint | src/mosaic_archive/solid_archive_v2.py:148-156 | the loop prints the minimal form of every 64-bit number and refuses all others |
| CompactUint.DecodeCompactUint | src/mosaic_archive/solid_archive_v2.py:159-180 | the loop accepts exactly the minimal forms of numbers up to the maximum |
| CompactUint.TakeExact | src/mosaic_archive/solid_archive_v2.py:148-180 | parsing and printing of unsigned numbers are exact inverses |
| CompactUint.PrintedByte | src/mosaic_archive/solid_archive_v2.py:148-156 | byte i of a printed number is its digit of weight 128 to the i, with the high bit on all bytes but the last |
| CompactUint.PrintedLength | src/mosaic_archive/solid_archive_v2.py:148-156 | a number is printed in exactly as many bytes as it has base-128 digits |
| CompactUint.ZigzagIsBijective | src/mosaic_archive/solid_archive_v2.py:183-200 | zigzag maps the signed 64-bit range one to one onto the unsigned one |
| CompactUint.ZigzagOrders | src/mosaic_archive/solid_archive_v2.py:183-200 | zigzag orders numbers by magnitude, the negative of a pair first; with the bijection this fixes it |
| PackedLanes.PackAssignments | src/mosaic_archive/solid_archive_v2.py:249-254 | the buffer updated in place holds two bits for each assignment |
| PackedLanes.UnpackAssignments | src/mosaic_archive/solid_archive_v2.py:732-744 | the loop accepts exactly valid lanes with zero padding bits |
| PackedLanes.UnpackPack | src/mosaic_archive/solid_archive_v2.py:249-254 | unpacking the packed assignments returns them |
| PackedLanes.PackUnpack | src/mosaic_archive/solid_archive_v2.py:732-744 | repacking accepted assignments returns the same bytes |
| CompactMetadata.ParseIffPrinted | src/mosaic_archive/solid_archive_v2.py:203-810 | compact metadata is a bijection on its valid domain: a payload is accepted exactly if it is the printed form of acceptable metadata, and that metadata is returned |
| CompactMetadata.RebuiltEntries | src/mosaic_archive/solid_archive_v2.py:746-782 | sizes, chunk ranges and modification times left out of the compact form are recovered exactly |
| CompactMetadata.RebuiltChunks | src/mosaic_archive/solid_archive_v2.py:703-728 | digests and sizes of duplicates left out of the compact form are recovered exactly |
| CompactCodec.PrintMetadata | src/mosaic_archive/solid_archive_v2.py:203-255 | the printing loops produce the format and fail exactly if a number is out of range or a codec is not allowed in its lane |
| CompactCodec.ParseMetadata | src/mosaic_archive/solid_archive_v2.py:612-810 | the parsing loops compute the functional parser with all its bounds |
| CompactCodec.BuildFileEntries | src/mosaic_archive/solid_archive_v2.py:746-782 | the loop that rebuilds file ranges and sizes fails exactly if the chunks are not all used |
| CompactCodec.LaneSizes | src/mosaic_archive/solid_archive_v2.py:795-800 | the lane sizes are the sums of the unique chunks assigned to each lane |
| SolidFrames.WriteSolidLaneFrames | src/mosaic_archive/solid_frames.py:273-336 | the incremental writer emits the frames of the whole compressed stream, however it arrives, and fails exactly on bad options or index overflow |
| SolidFrames.WritePrecompressedSolidLaneFrames | src/mosaic_archive/solid_frames.py:208-270 | the precompressed writer emits the very same frames, and refuses a short or long source |
| SolidFrames.DrainFullFrames | src/mosaic_archive/solid_frames.py:320-328 | draining pending bytes leaves what the lane will look like unchanged |
| SolidFrames.ReadSolidLaneFrames | src/mosaic_archive/solid_frames.py:346-440 | the passthrough reader accepts exactly consistent frames that hold exactly the expected bytes |
| SolidFrames.LaneRoundTrip | src/mosaic_archive/solid_frames.py:208-440 | reading a written lane returns its bytes and leaves exactly what follows |
| SolidFrames.FrameIsBound | src/mosaic_archive/solid_frames.py:346-440 | a written lane frame is read nowhere else: only in the same lane of the same archive, at the same index and equally expected to be the last, if the cipher tells the two places apart |
| SolidFrames.AcceptedIsWellCut | src/mosaic_archive/solid_frames.py:378-408 | what the reader accepts is cut as the writers cut it, except for an admitted empty last frame |
| SolidFrames.EmptyLastFrameIsAdmitted | src/mosaic_archive/solid_frames.py:346-440 | an instance: the reader takes a full frame and an empty last one for one full payload, which no writer emits |
| SolidFrames.FramedExactly | src/mosaic_archive/solid_frames.py:57-81 | for a nonempty payload the bytes written equal the planned size, and the frame count is the planner's ceiling |
| SolidFrames.EmptyLaneIsFramed | src/mosaic_archive/solid_frames.py:57-81 | the planner, which speaks of nonempty lanes, plans nothing for an empty one, of which the frame writers make one frame; the archive writer never frames an empty lane |
| SolidFrames.FramedSizeIsMonotone | src/mosaic_archive/solid_frames.py:57-81 | the planned size is monotone in the payload size |
| SolidLanes.SpoolUniqueChunks | src/mosaic_archive/solid_archive_v2.py:347-355 | for any routing, each lane receives its chunks in order and the recorded sizes are the lane lengths |
| SolidLanes.MergeLanes | src/mosaic_archive/solid_research.py:265-277 | the loop with one position per lane computes the merge, and fails on short lanes and unread bytes |
| SolidLanes.MergeIffPartitioned | src/mosaic_archive/solid_research.py:162-277 | merging succeeds exactly on partitioned lanes and returns what was partitioned |
| SolidResearch.EncodeSolidChunks | src/mosaic_archive/solid_research.py:162-196 | the routing, descriptor, lane-header and payload loops print the three lanes with their descriptors, and fail exactly outside the limits; the distribution counts the chunks of each lane |
| SolidResearch.PrintLaneHeaders | src/mosaic_archive/solid_research.py:186-187 | the lane-header loop prints each lane's two lengths, and fails exactly if one does not fit its field |
| SolidResearch.DecodeSolidChunks | src/mosaic_archive/solid_research.py:220-277 | the decoder computes the functional parser with all its size checks |
| SolidResearch.DecodeEncoded | src/mosaic_archive/solid_research.py:162-277 | for any routing, decoding returns the chunks exactly when the expected sizes are theirs |
| SampleWindows.DeltaSampleWindowStarts | src/mosaic_archive/solid_research.py:77-86 | in each of fifteen regions the window starts where the seed's sequence says; the windows of a chunk large enough to be sampled lie within it and never overlap |
| SolidArchive.EncodeSolidArchive | src/mosaic_archive/solid_archive_v2.py:298-507 | the writer computes the functional encoding: one pass, three lanes, raw fallback, metadata, frames; which form each lane takes is `LaneStorage.CheaperFormIsStored`, and which sources it accepts `SolidAcceptance` |
| LaneStorage.CheaperFormIsStored | src/mosaic_archive/solid_archive_v2.py:385-420 | for every archive the writer produces: each nonempty lane's frames take exactly the smaller of the sizes planned for its contents and for their compressed form, hold that form, and the sealed metadata records RAW exactly if the compressed form is not smaller |
| SolidArchive.WriteStoredLanes | src/mosaic_archive/solid_archive_v2.py:480-501 | the nonempty lanes are framed one after another with consecutive indices |
| SolidArchive.DecodeSolidArchive | src/mosaic_archive/solid_archive_v2.py:955-1066 | the reader computes the functional decoding of any archive in the current metadata form |
| SolidArchive.ReadStoredLanes | src/mosaic_archive/solid_archive_v2.py:1011-1034 | the lane loop reads each nonempty lane from its own consecutive frames |
| SolidArchive.WriteCanonical | src/mosaic_archive/solid_archive_v2.py:1038-1058 | every unique chunk ends up at its recorded location in the canonical file; it fails exactly on short lanes, unread bytes or a wrong digest |
| SolidArchive.CopyFile | src/mosaic_archive/solid_archive_v2.py:917-927 | the file restored from the canonical file is the concatenation of its chunks |
| SolidArchive.RestoreFiles | src/mosaic_archive/solid_archive_v2.py:886-952 | all files are restored exactly if every chunk and file digest agrees |
| SolidRoundTrip.WrittenLanesRead | src/mosaic_archive/solid_archive_v2.py:472-1036 | reading the written lanes returns the lane contents, compressed or raw, and leaves exactly what follows |
| SolidRoundTrip.SourceIsDescribed | src/mosaic_archive/solid_archive_v2.py:350-434 | the lane sizes the reader derives from the metadata are the sizes of the lanes written |
| SolidRoundTrip.WrittenMetadataOpens | src/mosaic_archive/solid_archive_v2.py:258-463 | the metadata frame opens to the printed metadata exactly if the uncompressed text is within the reader's bound |
| SolidRoundTrip.WrittenMetadataParses | src/mosaic_archive/solid_archive_v2.py:203-810 | written metadata is accepted exactly if the chunk table and every lane's frame count are within the reader's bounds |
| SolidRoundTrip.DecodeRestores | src/mosaic_archive/solid_archive_v2.py:298-1066 | whatever archive the writer produces, decoding it restores the source, every object with its path, kind, mode, time and bytes, for any routing, if and only if the reader's own bounds and the caller's limits admit it |
| SolidRoundTrip.MetadataIsBound | src/mosaic_archive/solid_archive_v2.py:455-463 | written metadata opens only under the public header it was written for, if the cipher tells the headers apart |
| SolidAcceptance.WrittenIffTimesFit | src/mosaic_archive/solid_archive_v2.py:203-507 | with any compressor that is not absurd, a discovered source whose unique content and metadata text are small enough is written if and only if neighbouring times differ by signed 64-bit numbers |
| SolidAcceptance.SmallSourceIsWritten | src/mosaic_archive/solid_archive_v2.py:203-507 | the same with bounds told from the names and file sizes alone, whatever the contents and the routing |
| Integrity.SolidDecodedIsIntact | src/mosaic_archive/solid_archive_v2.py:886-1066 | whatever the archive's bytes are, a tree comes back only if every file has the size and digest in the metadata, every check of the manifest holds, and the caller's size limit is kept |
| WireFormats.BigEndianByte | src/mosaic_archive/dedup_archive.py:61-64 | byte i of a fixed-width field is the digit of its weight in base 256, the most significant first |
| WireFormats.Headers | src/mosaic_archive/stream_format.py:26-133 | instances of both frame headers and of a nonce, byte by byte |
| WireFormats.PaddedPayload | src/mosaic_archive/padding.py:13-18 | an instance of a padded payload: its length in eight bytes, the payload, the noise |
| WireFormats.FileText | src/mosaic_archive/dedup_archive.py:181-200 | an instance of a manifest's file entry, field by field |
| WireFormats.DirectoryText | src/mosaic_archive/dedup_archive.py:181-200 | an instance of a manifest's directory entry, field by field |
| WireFormats.ManifestHead | src/mosaic_archive/dedup_archive.py:181-207 | the bytes in front of a manifest's tables, and the order of the tables |
| WireFormats.BlockText | src/mosaic_archive/dedup_archive.py:61-64 | the bytes in front of a block in a data frame, for both frame formats |
| WireFormats.CompactText | src/mosaic_archive/solid_archive_v2.py:203-255 | instances of compact numbers, entries, chunks and packed assignments, byte by byte |
| WireFormats.CompactHead | src/mosaic_archive/solid_archive_v2.py:203-219 | the bytes in front of the compact tables in both forms |
| WireFormats.CompactTables | src/mosaic_archive/solid_archive_v2.py:219-255 | the order of the compact tables: frame counts, codecs, entries, chunks, packed assignments |
| WireFormats.EnvelopeText | src/mosaic_archive/solid_archive_v2.py:258-263 | the bytes in front of the compressed metadata |
| WireFormats.SolidPayloadHead | src/mosaic_archive/solid_research.py:162-196 | the bytes in front of a solid payload's descriptors, and the order of its parts |
| Supervisor.CleanupIsSafe | native/binding-supervisor/src/linux.rs:154-192 | over every interleaving of supervisor, coordinator, forks and exits, cleanup happens only when no packet carrying the root is under way and no process holds it, except exiting processes whose control socket was closed first; if exits release the root first, none holds it then or ever again |
| Supervisor.DisorderlyExitLeavesARoot | native/binding-supervisor/src/linux.rs:160-192 | a run in which a killed coordinator's control socket is closed before its root, and the supervisor cleans up while the root is still open |
| Supervisor.ForkedRunCleansUp | native/binding-supervisor/src/linux.rs:154-192 | the ordinary course with a fork is a run: a child that holds the root and its parent both release it, and the supervisor verifies end of file and cleans up |
| Supervisor.CleanupStaysInReach | native/binding-supervisor/src/linux.rs:154-192 | from every reachable state in which the supervisor waits for end of file there is a continuation to a cleanup with no root left anywhere |
| Supervisor.OrderlyRunLeavesNothing | src/mosaic_archive/competitive_binding_supervisor.py:256-304 | if exiting processes release their roots first, in every state a root is held only together with the control socket |
| Supervisor.StepKeepsInv | src/mosaic_archive/competitive_binding_supervisor.py:256-702 | every step of every process keeps: a root is held only together with the control socket, by the code that owns it, or by a process that is exiting |
| Supervisor.LocalStepKeepsOrder | src/mosaic_archive/competitive_binding_supervisor.py:256-274 | every step but one keeps roots from outliving the control socket; the one is an exit that closes the socket while a root is open, so `close` and both hooks release the root first |
| Supervisor.EofMeansNoRoots | native/binding-supervisor/src/linux.rs:178-183 | verified end of file implies that no copy of the root is left, but for exiting processes that lost the control socket first |
| Supervisor.ChildHoldsNeither | src/mosaic_archive/competitive_binding_supervisor.py:277-304 | after its hooks a forked child holds neither descriptor; it holds the control descriptor exactly if the parent had not claimed it |
| Supervisor.LeadOneMore | native/binding-supervisor/src/linux.rs:154-192 | the decisions of any run are the beginning of one lifecycle, the whole of it once the phase is final |
| Supervisor.RunLifecycle | native/binding-supervisor/src/linux.rs:154-192 | the session is cleaned up exactly once if the last decision allows it, and never otherwise, its drop included |
| Supervisor.Coordinator.Inherit | src/mosaic_archive/competitive_binding_supervisor.py:585-702 | whichever stage of the one-shot receive fails, the process ends up holding nothing; every move is a legal step of the system |
| Supervisor.Coordinator.Close | src/mosaic_archive/competitive_binding_supervisor.py:256-274 | closing releases the root first and then the control socket |
| Publication.PrepareLocalSource | src/mosaic_archive/competitive_corpus_prep.py:1826-2159 | under a failure at any call the reported state is sound: it claims only calls that were made after the commit point on the very descriptors verified before it, which were reached by the requested paths; each descriptor has exactly one close attempt, and a record is returned only if durable. If nothing stands in the way the record is returned; a not-committed candidate means that the primitive was reported unavailable or the link refused |
| Publication.IdealRunsExist | src/mosaic_archive/competitive_corpus_prep.py:1826-2159 | for every request there is a kernel under which nothing stands in the way, so the progress statements speak of something |
| Publication.Commit | src/mosaic_archive/competitive_corpus_prep.py:1923-2015 | from the commit point on: not committed means no link was made, committed means this output was linked under this name, name-unavailable means it was then inspected, re-hashed and inspected and its directory synced, durable means its name was then inspected too; nothing was synced if the state claims less |
| Publication.VerifyTemporary | src/mosaic_archive/competitive_corpus_prep.py:1866-1918 | what passes was copied from the source, which was unchanged, synced, inspected, hashed and inspected, all on the output's descriptor: an unlinked regular file of the expected size with the expected digest |
| Publication.InspectAfterFailure | src/mosaic_archive/competitive_corpus_prep.py:2016-2054 | after an unclear failure the state is committed exactly if the kernel then reports the verified output linked, and unknown otherwise |
| Publication.PublishAnonymousNoReplace | src/mosaic_archive/competitive_corpus_prep.py:1768-1823 | a not-committed error implies that no link was made and that one was refused or the primitive reported missing; no error implies exactly one link, of this output under this name in this directory; if the primitive is there and the link succeeds, there is no error |
| Publication.OpenDirectoryPartsSecure | src/mosaic_archive/competitive_corpus_prep.py:1132-1211 | for a path of any length exactly one new descriptor survives, reached component by component and found to be a directory, or none |
| Publication.OpenRegularPathSecure | src/mosaic_archive/competitive_corpus_prep.py:1214-1259 | both descriptors, of the requested file and its directory, or neither; the file is regular with one link |
| Publication.SoundLater | src/mosaic_archive/competitive_corpus_prep.py:2127-2159 | a sound report stays sound under everything but another link, the closing of all descriptors included |
| Publication.CloseIndependently | src/mosaic_archive/competitive_corpus_prep.py:417-428 | every close is attempted, whatever the earlier ones do |
| Descriptors.Kernel.Close | src/mosaic_archive/competitive_corpus_prep.py:417-428 | one attempt, which may fail and is never repeated |
| BindingIo.SecureOpenAbsoluteDirectory | src/mosaic_archive/competitive_binding_io.py:135-169 | for a path of any length one new descriptor survives, reached component by component through safe names only, or none; a descriptor whose close failed is never closed again; if no call fails, the directory is opened exactly if the names are safe |
| BindingIo.OpenRoot | src/mosaic_archive/competitive_binding_io.py:284-300 | the surviving descriptor was walked to by the recorded path, is on cgroup-v2 and has the recorded identity; on failure nothing that was opened is that root; if no call fails and the root is there, it is opened |
| BindingIo.OpenLeaf | src/mosaic_archive/competitive_binding_io.py:366-404 | one new descriptor, opened below the verified root under the recorded name and with the recorded nonzero identity, or none; if no call fails and the root is there, it is opened exactly if the leaf has its recorded nonzero inode |
| BindingIo.CreateLeaf | src/mosaic_archive/competitive_binding_io.py:314-364 | no descriptor survives; success means the directory was made below the verified root and its identity taken; if a call fails after making it, its removal below that root is in the log, or else the root's close failed and a new search for the root found none; if no call fails and the root is there, it succeeds exactly if the new directory's inode is not zero |
| BindingIo.QuietRunsExist | src/mosaic_archive/competitive_binding_io.py:135-404 | for every recorded root there is a kernel under which nothing fails and the root is found |
| BindingIo.RunAndClose | src/mosaic_archive/competitive_binding_io.py:247-259 | the descriptor is closed once whether or not the operation fails |
| SourceIdentity.VerifyBindings | src/mosaic_archive/source_identity.py:278-317 | on a fixed later tree the check ends and succeeds exactly when the paths are the captured ones and the later metadata equals the captured metadata, with only an uncaptured birth time and the size of what is no regular file left free, and nothing is a link |
| SourceIdentity.UnchangedByField | src/mosaic_archive/source_identity.py:51-74 | what a passing check demands, field by field and without the model's own predicates: the same paths, and for every object the same device, inode, kind, mode and times, the same birth time if one was captured, and for a regular file the same size |
| SourceIdentity.VerifyChildren | src/mosaic_archive/source_identity.py:290-314 | one directory passes exactly if each child is known and bound |
| SourceIdentity.Discover | src/mosaic_archive/source_identity.py:171-219 | discovery of a fixed tree ends, succeeds exactly if the root and everything below is a file or directory that may be captured, and captures every object with its metadata |
| SourceIdentity.WalkReachesAll | src/mosaic_archive/source_identity.py:171-219 | a finished walk has seen every object |
| SourceIdentity.WalkGetsCloser | src/mosaic_archive/source_identity.py:286-315 | each step of the worklist leaves fewer objects unseen or fewer directories pending |
| SourceIdentity.DirectoriesComeFirst | src/mosaic_archive/source_identity.py:122-132 | the sorted entries list every directory before everything it contains |
| ProcessObserver.ObserveProcesses | src/mosaic_archive/competitive_runner.py:806-854 | the loop ends and returns the least set containing the prior identities, the live root and the group, closed under known parents |
| ProcessObserver.MembersDescend | src/mosaic_archive/competitive_runner.py:806-854 | who belongs, told by descent: exactly what was known before, and the live processes to which a line of parent PIDs leads from the root, its group, or a live process known before |
| ProcessObserver.AddChildren | src/mosaic_archive/competitive_runner.py:824-833 | one pass adds only what every closed set must contain, and changes nothing exactly when the set is closed |
| ProcessObserver.LeastIsUnique | src/mosaic_archive/competitive_runner.py:815-854 | the result does not depend on the order of the snapshots |
| IdSet.FormatIdSet | src/mosaic_archive/competitive_binding_common.py:98-112 | the loop prints the maximal runs of the values |
| IdSet.ParseIdSet | src/mosaic_archive/competitive_binding_common.py:75-95 | the loop computes the functional parser with its bounds |
| IdSet.ParseIffPrinted | src/mosaic_archive/competitive_binding_common.py:63-112 | the parser accepts exactly the printed forms of nonempty increasing sets within its bounds, with or without a final line feed, and returns the set |
| IdSet.RunsExpand | src/mosaic_archive/competitive_binding_common.py:98-112 | expanding the printed runs gives the values back |
| WireFormats.IdListText | src/mosaic_archive/competitive_binding_common.py:98-112 | an instance: {0, 1, 2, 10} is printed as 0-2,10 |
| IdSet.ParseIdSetRust | native/binding-supervisor/src/lib.rs:232-274 | the Rust loop computes the functional range parser |
| IdSet.RustParseIffPrinted | native/binding-supervisor/src/lib.rs:115-285 | the Rust parser accepts exactly the printed forms of ordered disjoint 32-bit ranges, with their line feed |
| IdSet.RustAcceptsCanonical | native/binding-supervisor/src/lib.rs:232-274 | what Python accepts with a line feed and 32-bit IDs, Rust accepts with the same set |
| IdSet.PythonAcceptsSeparated | native/binding-supervisor/src/lib.rs:232-274 | Python accepts what Rust accepts exactly if no two ranges touch and the set is small enough |
| IdSet.RustAcceptsTouchingRanges | native/binding-supervisor/src/lib.rs:232-274 | the text 0-1,2 is accepted by Rust and refused by Python |
| CgroupLease.Lease.Drive | src/mosaic_archive/competitive_binding_cgroup.py:33-287 | over any sequence of calls with any backend call failing, the log stays safe: at most one placement, right after authority and a verified cpuset; at most one peak, after a full measurement; every kill right after authority, every removal right after an unpopulated reading. Nothing happens after the lease is closed, and from a spent state no peak is ever returned |
| CgroupLease.Lease.Authorised | src/mosaic_archive/competitive_binding_cgroup.py:107-130 | every answer of the authority check is logged as given, and is the backend's |
| CgroupLease.Lease.VerifyEffectiveCpuset | src/mosaic_archive/competitive_binding_cgroup.py:191-209 | succeeds exactly if the lease is open, authority is granted and both sets agree; the logged answer is that one, right after the authority it ran under |
| CgroupLease.Lease.AttachProcess | src/mosaic_archive/competitive_binding_cgroup.py:161-189 | succeeds exactly if an open test lease is ready and every call it makes succeeds and confirms the membership, and then has done exactly a placement; in every other case it is not attached |
| CgroupLease.Lease.ReadMemoryPeakBytes | src/mosaic_archive/competitive_binding_cgroup.py:211-236 | a peak is returned only from the attached state; a call that is not authorised changes nothing, and any later failure leaves a state from which no peak is ever returned; in an agreeing environment the peak is returned |
| CgroupLease.Measurement | src/mosaic_archive/competitive_binding_cgroup.py:211-236 | a peak may be returned after exactly this sequence: cpuset verified under authority, unpopulated, the reading, unpopulated, cpuset verified under authority, with a confirmed process and no kill before |
| CgroupLease.Lease.Kill | src/mosaic_archive/competitive_binding_cgroup.py:266-272 | the state changes before the write, right after authority was granted, so nothing is measured after it; success is exactly authority and a successful write |
| CgroupLease.Lease.Cleanup | src/mosaic_archive/competitive_binding_cgroup.py:274-287 | closed is final; the lease closes only after the leaf was read, killed if it was populated, read as unpopulated, and removed right after that; in an agreeing environment it closes |
| CgroupLease.Lease.AwaitUnpopulated | src/mosaic_archive/competitive_binding_cgroup.py:238-264 | polling only reads, and success means that the last thing read was unpopulated |
| CgroupLease.SafeSnoc | src/mosaic_archive/competitive_binding_cgroup.py:161-287 | an event keeps the log safe if it is justified by what comes right before it and is no second placement or peak |
| CaseIdentity.LengthPrefixedIdentity | src/mosaic_archive/competitive_contract.py:750-758 | the loop prints length-prefixed fields and fails exactly if a length does not fit |
| CaseIdentity.IdentityIsInjective | src/mosaic_archive/competitive_contract.py:750-758 | equal identity bytes mean equal domain and equal fields |
| WireFormats.IdentityText | src/mosaic_archive/competitive_contract.py:750-758 | an instance of an identity, byte by byte |
| CaseIdentity.BootstrapIndices | src/mosaic_archive/competitive_contract.py:800-836 | the sampler returns the accepted words of the stream in order, reduced modulo the bound, and fails exactly on bad arguments or an exhausted stream |
| CaseIdentity.WordsAreBlocks | src/mosaic_archive/competitive_contract.py:810-836 | the four words of a block, big-endian, are the block |
| CaseIdentity.AcceptedInOrder | src/mosaic_archive/competitive_contract.py:828-836 | every accepted word gives one index, its remainder, at the place of its rank among the accepted words, and there are no others |
| CaseIdentity.ShorterIsPrefix | src/mosaic_archive/competitive_contract.py:810-836 | a shorter request is a prefix of a longer one |
| CaseIdentity.AcceptedAreBelow | src/mosaic_archive/competitive_contract.py:830-834 | every index is below the bound |
| CaseIdentity.ResiduesAreEven | src/mosaic_archive/competitive_contract.py:828-832 | every residue has equally many accepted words |
| CaseIdentity.FewAreRejected | src/mosaic_archive/competitive_contract.py:828-832 | the acceptance limit is the largest multiple of the bound, so fewer words than the bound are rejected |

## Left out

- Supervisor.LocalStep: processes started without the interpreter's fork hooks hold copies until they execute another
  program; they are not modelled. A close attempt is taken to release its descriptor even if it reports an error.
- Supervisor.CleanupIsSafe: safety only. The fork hook and nested lease calls take their locks in different orders, so
  freedom from deadlock is not claimed.
- Supervisor.RunLifecycle: what happens inside configuration, handoff, the wait for end of file and cleanup is one
  answer each; the packet's bytes and credentials are not modelled.
- SolidArchive.DecodeSolidArchive: metadata without the compressing envelope, or older than the compact forms, is
  refused here; the reader still accepts it.
- SolidArchive.ReadOneLane: a compressed lane is expanded from its frames' concatenation in one step; the incremental
  decompressor loop depends on library progress. The reader of lanes stored raw is modelled as it runs.
- SourceIdentity.Discover: the tree does not change during one walk, and path texts are sequences of components.
- SourceIdentity.VerifyBindings: captured entries are passed as a map; the session object around it is not a class.
- CgroupLease.Lease.AwaitUnpopulated: the clock passes the deadline after finitely many readings.
- Publication.PrepareLocalSource: reports carry the state and the candidate; the classes and notes of the exceptions
  raised are not modelled. After an unclear failure the kernel's own report that the verified output is linked counts.
- Publication.VerifyTemporary: copying and hashing are one call each; device and inode numbers are one number.
- BindingIo.CreateLeaf: a directory counts as made once `mkdir` has returned, as in the source; the classes of the
  exceptions are not modelled.
- CaseIdentity.IdentityIsInjective: fields are byte strings; the hash taken over the identity is not modelled.
- DedupArchive.DecodeDedupArchive: restored contents are values; creating directories, temporary files, modes and
  times in the output, and statistics of owners and saved bytes, are not modelled.
- Frames.ReadFrame: the public header is a record of the fields the frames depend on; its byte layout is not modelled.
- The version 2 manifest, which is the deduplicating manifest's construction without back-references, and its loops.
- Cryptography, scrypt, SHA-256, zlib, LZMA and zstd, and the rANS and LZ modes.
- Unicode normalisation and case folding; source names are taken to be normalised already.
- Modes.CandidateModes: a block's smoothness and entropy are given numbers, compared as reals; how they are computed in
  floating point is not modelled.
- Floating-point medians, percentiles and confidence intervals.
- The remaining supervisor internals (`control.rs`, `cgroup.rs`, `launcher.rs`), the command line, benchmarks, reports,
  release checks and progress callbacks.
