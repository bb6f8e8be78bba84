# Verified model of an EWF evidence reader

ewfgo opens Expert Witness (E01) images read-only and promises "real bytes or an explicit error". This
project models the parts of it where that promise is hard to keep, and proves the promise for them:

- **The container.** The writer of the repository's fixtures (one file, or two segment files), the walk over
  the section chain, the chunk tables of three layouts, and `ReadSectorData`: its planner, its worker pool
  over a shared byte-bounded LRU cache, and its assembly. On top of it stand hash verification and the
  network block device (NBD) server. zlib, raw DEFLATE and Adler-32 are abstract functions of a `Codec`
  that satisfies `Lawful` (inflating what was deflated, with or without a zlib header, gives it back, whatever
  follows; a truncated stream is an error); `Codec.LawsSatisfiable` shows that the laws can be met.
- **Files in file systems.** Every handler reads a file in two ways, at once and lazily at an offset. For
  FAT, exFAT, NTFS, ext4, XFS, Btrfs and APFS there is one content function, and both ways are proved
  against it.
- **Searches and formats below them.** The APFS object map and the ext4 extent tree against a flat scan of
  their leaves, the XFS extent tree against the concatenation of its leaves, FAT tables of 12, 16 and 32
  bits, FAT long names, NTFS run lists, and the LZVN decoder, each against an encoder or a simple meaning.
- **The exFAT injector**, a small allocator that must leave every other file as it was.

Code that changes things step by step is modelled by classes and methods (`Image.EWFImage`,
`ChunkLru.ChunkCache`, `FixtureBuilder.Builder`, `Nbd.Server`, `Omap.ObjectMap`, `ClusterChain.FileReader`,
`Streaming.StreamReader`, and methods over arrays). Each is proved against a function, and the lemmas are
about that function. The goroutines of the worker pool are interleaved steps of a state machine
(`Schedule`); `EWFImage.Move` performs such a step on the real cache, and `RunPool` runs any schedule.
`dafny verify dfyconfig.toml` checks everything.

## How the main results hang together

- *Container.* `FixtureBuilder.Builder` writes exactly `Fixture.WrapBytes`. `ReadBack.SectorRoundTrip` says
  what a reader makes of those bytes: the disk, or the first sector of a chunk that is not `Readable`.
  `EWFImage.Load` and `EWFImage.ReadSectorData` compute just what that lemma speaks of, whatever the cache
  holds and however the workers are scheduled. `Evidence` carries the result on to hash verification and
  to the answers of the NBD server.
- *Exact conditions.* Where the code departs from what one would expect, the lemma says exactly when:
  `ReadBack.RawReadable` (an unpadded checksum is expected behind the valid bytes of the last chunk),
  `ReadBack.HashesReadBack` (a digest with only a SHA-1), `FatNames.ListedUnlessCut` (a directory is parsed
  cluster by cluster), `ClusterChain.RetryServes` (a read that failed succeeds when tried again),
  `NtfsRuns.RunsAreContiguous` (a guard whose subtraction wraps), `NtfsRuns.HolesAreWritten` (a cluster in
  front of the volume reads as zeros), `XfsFile.EagerIsContent` (byte offsets and places that wrap, and the
  limits of one read),
  `NtfsRuns.ReadersAgree` (byte counts of holes and ends of runs wrap), `BtrfsFile.EagerIsContent` and
  `ApfsFile.EagerIsContent` (overlapping extents: the last one is copied, the first one is looked up),
  `BtrfsFile.AllServedInReach` and `XfsFile.AllServedInRange` (limits that a lazy read meets block by block),
  `Omap.LookupIsScan` (the leaf does not compare the object number again), `ExfatKeeps.ListingGrows` (an 0x01
  end marker). `OneSectorFails`, `CutFile`, `RetryWitness`, `HugeRunAccepted`, `NegativePlaceReadsZero`,
  `LongHoleDiffers`, `WrappedOffset`, `LongRecordRefused`, `NeighbourAnswers` and `OverlapsDiffer` name inputs
  on which it happens.
- *Files.* `Streaming.Serves` says what a read at an offset must do: the slice of the content, cut off at its
  end with an end-of-file report, and nothing else touched. `Streaming.StreamReader.ReadAt` proves it for
  any source of pieces that are pieces of the content; each file system shows that its pieces are, and
  exactly where one fails: at a bad block of the map (NTFS and ext4, `Streaming.RealOrFailed`, where a file
  with a bad block has no one content and pieces agree with all its readable blocks), at a block or range
  whose own read fails (`BlockFails` for XFS and APFS, `RestFails` for Btrfs), or for FAT at a cluster that
  is off the chain, unreadable or has a broken entry (`ClusterChain.Sure`).
- *From the bytes on disk.* What a reader finds in a node, record, table or frame is stated against structures
  laid out field by field, at byte positions that do not mention the reader: `OmapWritten` and `XfsWritten`
  (B-tree nodes), `Ext4Written` (extent trees), `BtrfsWritten` (items), `NtfsWritten` (run lists and the clusters
  they name), `FatVolume.PackedFileContent`, `FatVolume.LinkOnDisk` and `FatWritten` (FAT, data area, short
  records), `ExfatWritten` (FAT, heap, entry sets), `ExfatPlan` (what the injector writes), `NbdWire` (frames),
  and `StoredImages` (chunks as zlib streams, raw DEFLATE streams or plain bytes, mixed in one image).
- *Files on evidence.* `FileEvidence` puts the two halves together: the sector reads of an image that holds a
  wrapped disk give that disk or an error, and in part what they give as a whole, so files of a partition on
  it are read as bytes of the original disk.

## Where code and comments differ

The model follows the code.

- `internal/sections.go:354-357` says that a digest with only a SHA-1 contributes only the stored SHA-1;
  the code stores its first 16 bytes as the MD5 (`ReadBack.HashesReadBack`).
- `internal/filesystem/apfs/lzvn.go:77` gives medium-distance matches lengths 3 to 18; the code reads five
  bits, 3 to 34 (`Lzvn.TokenRoundTrip`).
- `internal/filesystem/fat/fat32.go:701-718` means to detect short names in UTF-16; no NUL is left in the
  name by then, so the branch cannot be taken.
- `internal/filesystem/ntfs/ntfs.go:448-451` means to bound the clusters of all runs, but the difference
  is unsigned (`NtfsRuns.RunsAreContiguous`, `NtfsRuns.HugeRunAccepted`).
- `internal/filesystem/btrfs/open.go:182-184` says that the first extent found for an offset is
  the one `GetFile` copies last; `GetFile` copies in item order, so among overlapping extents its last one
  wins (`BtrfsFile.OverlapsDiffer`).

## Model

| member | source | states |
|---|---|---|
| Segments.AssignStarts | internal/open.go:50-54 | opening gives every segment the total length of the files before it as its start, and changes no file |
| Segments.ReadAt | internal/read.go:25-83 | a read over segments, done piece by piece, is the slice of all files joined, cut off at their end; negative ranges are refused |
| FixtureBuilder.Builder.WriteSection | internal/ewffixture/fixture.go:108-120 | writing blank and patching afterwards leaves a finished descriptor (name, next, size, checksum of its first 72 bytes) followed by the payload, behind everything written before |
| FixtureBuilder.Builder.PatchNextOffset | internal/ewffixture/fixture.go:122-126 | only the next offset of the descriptor changes, and its checksum is the new one |
| FixtureBuilder.WriteTablePayload | internal/ewffixture/fixture.go:161-203 | header, entries and footer of a table in either form, with both checksums |
| FixtureBuilder.SectionCounts | internal/ewffixture/fixture.go:305-322 | the chunks are split over the sections as evenly as the specification's counts, which add up to all chunks |
| FixtureBuilder.LayOut | internal/ewffixture/fixture.go:328-335 | chunks lie one after the other behind the slack, and each recorded offset is where its chunk starts |
| FixtureBuilder.WriteTableWithChunks | internal/ewffixture/fixture.go:260-298 | the EnCase 1 table: entries running over the chunks behind the footer, which the declared size leaves out |
| FixtureBuilder.WrapDisk | internal/ewffixture/fixture.go:220-394 | the imperative writer emits exactly the file the round trip is stated for |
| FixtureBuilder.WrapDiskSegments | internal/ewffixture/fixture.go:415-547 | the same for two segment files, in both styles |
| Fixture.GroupCounts | internal/ewffixture/fixture.go:305-322 | there is always a section, and no chunk is dropped or stored twice by the split |
| Sections.NameRoundTrip | internal/sections.go:17-25 | every section name the writer uses is told apart from all others by the reader |
| Reparse.DecodeDescriptor | internal/sections.go:17-25 | a written descriptor decodes to the name, next offset and size put into it |
| Reparse.WalkWritten | internal/sections.go:30-60 | the walk over a written chain visits exactly the sections written, in order and at their addresses, and stops at "done" |
| Reparse.VolumeWritten | internal/sections.go:245-271 | the geometry read from a volume section is the geometry written |
| Reparse.HeaderWritten | internal/sections.go:135-242 | the header the writer compresses passes the header parser's checks |
| Reparse.TableWritten | internal/sections.go:287-330 | a table reads back as the entries and base written, whatever follows it; an empty table is an error |
| RoundTrip.PairsParsed | internal/sections.go:110-131 | the k-th sectors section gets the k-th table, and through these tables every stored chunk lies where its entry says, for every slack, base and split |
| RoundTrip.EntriesServe | internal/read.go:353-388 | the offset formula of the reader undoes the entries of the writer, relative to the table's base and its own segment |
| Image.EWFImage.ReadSections | internal/sections.go:30-60 | the loop over segments and sections appends the sections of the chain, up to the first unreadable descriptor |
| Image.EWFImage.ParseSections | internal/sections.go:62-132 | the collected geometry, tables and hashes, and the pairing of sections with tables or the EnCase 1 fallback; a failing header or table stops it with what was gathered |
| Image.EWFImage.Load | internal/sections.go:30-132 | walking and parsing a freshly opened image succeeds exactly when the specification does, with its result, and leaves an empty correct cache |
| ReadBack.ParseWrapped | internal/ewffixture/fixture.go:220-394 | walking and parsing a wrapped file gives its geometry, tables and hashes, and fails exactly when it lists no chunks |
| ReadBack.ZlibChunkRead | internal/read.go:401-439 | a deflated chunk reads back exactly when its stream fits in one chunk's length of stored bytes, whatever follows it |
| ReadBack.RawChunkRead | internal/read.go:441-453 | a raw chunk stored at its valid length, with its checksum behind it, reads back |
| ReadBack.RawPaddedRead | internal/read.go:441-453 | a padded raw chunk is refused unless the padding happens to spell its checksum |
| ReadBack.SectorRoundTrip | internal/read.go:124-323 | for every sector-aligned disk, layout, chunk size, slack and split: any range read from the wrapped file is exactly the disk's sectors, or the error names the first sector of an unreadable chunk |
| ReadBack.WholeDiskReadsBack | internal/read.go:124-323 | reading everything gives the disk back if and only if every chunk is readable |
| ReadBack.RawReadable | internal/read.go:442-449 | without compression that is the case if and only if the last chunk is full, or kept short, or its covered bytes have checksum zero |
| ReadBack.RawPaddedFails | internal/read.go:442-449 | for every codec, a padded last chunk whose checksum is not zero makes reading any range of sectors that touches it fail |
| ReadBack.OneSectorFails | internal/read.go:442-449 | one sector of zeros, wrapped without compression in a two-sector chunk and padded, cannot be read whenever its checksum is not zero |
| ReadBack.HashesReadBack | internal/sections.go:336-377 | the stored hashes read back if and only if they have their standard lengths and a SHA-1 comes with an MD5 |
| TwoSegments.SegmentsParsed | internal/ewffixture/fixture.go:415-547 | two wrapped segment files parse to tables that carry their own segment |
| TwoSegments.SegmentsRoundTrip | internal/read.go:353-388 | every range read over two segment files is exactly the disk's sectors, or names an unreadable chunk, as each table's offsets are rebased by its own segment |
| StoredImages.RawDeflateChunkRead | internal/read.go:431-439 | a raw DEFLATE chunk without a zlib header reads back exactly when its stream fits in one chunk's length of stored bytes and holds what is demanded; a stream that is cut off is an error |
| StoredImages.MixedImageRead | internal/read.go:124-439 | over an image whose chunks are zlib streams, raw DEFLATE streams or plain bytes, mixed as they come, every range reads byte for byte as what was stored, or names the first sector whose chunk cannot be taken |
| ChunkLru.EvictIsLongestPrefix | internal/chunkcache.go:71-80 | evicting from the back keeps the longest prefix of the recency order that fits the capacity |
| ChunkLru.PutKeeps | internal/chunkcache.go:57-81 | a put keeps keys distinct and the bytes within capacity, and brings in nothing but the entry put |
| ChunkLru.PutThenGet | internal/chunkcache.go:44-81 | a value is found right after it was put if and only if it fits; one that does not empties the cache |
| ChunkLru.RunInvariant | internal/chunkcache.go:44-81 | over every history of gets and puts a hit is the last value put under that key, and the bound holds |
| ChunkLru.ChunkCache.Get | internal/chunkcache.go:44-55 | map and list stay in step, the hit is the entry's value, and the entry moves to the front |
| ChunkLru.ChunkCache.Put | internal/chunkcache.go:57-81 | map, list and size counter implement the specified put, in-place update and eviction loop included |
| Planner.SectionOffsets | internal/read.go:150-156 | the first sector of every section, and the end of the coverage |
| Planner.LocateInverse | internal/read.go:208-230 | section and index found for a flat chunk number are the only ones with that number, empty sections included |
| Planner.Plan | internal/read.go:203-250 | the loop with its forward-moving section index ends, and plans the same jobs as the flat description of the image |
| Planner.JobsTile | internal/read.go:203-250 | the planned spans tile the request from its first sector to its end or the end of the coverage, in order, without gap or overlap |
| SectorRead.JobsNameTheirChunks | internal/read.go:221-249 | each job names the chunk that covers its sector, and the length it expects depends on that chunk alone |
| SectorRead.AssembleIsReadRange | internal/read.go:252-323 | copying the spans home gives, byte for byte, the decoded byte of the covering chunk or zero past what is stored, or else the first failing sector |
| SectorRead.AdjacentReads | internal/read.go:124-323 | a read of two adjacent ranges is both reads concatenated, or the error of the first that fails |
| Schedule.StepKeeps | internal/read.go:272-301 | every step of every worker, and of anyone else using the cache, keeps the invariant: correct cache, every handed-out job held by exactly one worker or written with its true outcome |
| Schedule.ScheduleIndependence | internal/read.go:259-321 | for every interleaving and every correct starting cache, a finished pool has written exactly what a sequential run without a cache computes |
| Schedule.SomeWorkerCanMove | internal/read.go:272-290 | no reachable unfinished state is stuck |
| Schedule.MovesBounded | internal/read.go:272-290 | no run makes more than five moves per job and one per worker |
| Image.EWFImage.ReadCached | internal/read.go:337-351 | a chunk through the cache is the chunk without it, and the cache stays correct |
| Image.EWFImage.Move | internal/read.go:272-290 | one worker's move on the shared cache object is one step of the state machine |
| Image.EWFImage.RunPool | internal/read.go:266-290 | whichever worker moves next, the batch's outcomes are those of decoding each job by itself |
| Image.EWFImage.ReadSectorData | internal/read.go:124-323 | the whole method returns the specified bytes or error for every request, whatever the cache, the batch split and the number of processors, and keeps the cache correct; what those are for chunks stored as zlib, raw DEFLATE or plain bytes is `StoredImages.MixedImageRead` |
| Media.StreamStep | read.go:66-81 | each block read extends the hashed stream by exactly the next media bytes, or is the stream's own first failure |
| Media.VerifyImageHash | read.go:53-93 | what is hashed is every media byte once and in order, and the matches compare with the stored hashes at their standard lengths |
| Media.ExportReadAt | nbd/export.go:39-87 | for any offset and length the buffer receives the media bytes of that range, cut off at the end of the export, and nothing else of it changes |
| Evidence.WrappedDiskIsHashed | read.go:53-93 | verifying a wrapped disk hashes exactly that disk, or reports an unreadable chunk |
| Evidence.SegmentsAreHashed | read.go:53-93 | the same over two segment files |
| Evidence.IntegrityVerified | read.go:53-93 | with readable chunks the hashes computed are the disk's own MD5 and SHA-1, and each stored hash matches if and only if it is the disk's |
| Evidence.WrappedDiskIsServed | nbd/export.go:39-87 | a request over a wrapped disk is answered with exactly the disk's bytes, or with an error when it is out of range or touches an unreadable chunk, or with its status when it is not a read |
| Evidence.WrappedDiskSession | nbd/nbd.go:308-396 | whatever bytes a client sends over a wrapped disk, it recovers from the answers to the requests of its session, in order, the disk's own bytes or an error for each read, and the status of each other request |
| FileEvidence.WrappedDiskGives | filesystem.go:80-93 | the sectors a file system handler reads from an image that holds a wrapped disk are that disk's or an error, and what it could read as a whole it can read in part up to the end of the disk |
| FileEvidence.WrappedReader | internal/filesystem/xfs/xfs.go:297-319 | byte ranges of a partition, read through the sectors that cover them, are the disk's bytes or an error, and can be read in part |
| FileEvidence.BtrfsOnWrappedDisk | internal/filesystem/btrfs/open.go:185-271 | a Btrfs file on a wrapped disk is streamed as bytes of that disk or an error, and in full, as GetFile returns it, when GetFile succeeds and all of it is in reach and on the disk |
| FileEvidence.ApfsOnWrappedDisk | internal/filesystem/apfs/open.go:120-200 | the same for an APFS stream |
| FileEvidence.XfsOnWrappedDisk | internal/filesystem/xfs/open.go:134-216 | an XFS file on a wrapped disk is streamed as bytes of that disk or an error, and read at once as those bytes whenever that succeeds and nothing wraps |
| Nbd.RequestRoundTrip | nbd/nbd.go:310-323 | a request decodes from its 28-byte frame |
| Nbd.SessionUnique | nbd/nbd.go:308-396 | no input stream has two sessions |
| Nbd.SessionIs | nbd/nbd.go:308-396 | every input stream has exactly one session: its whole valid frames before the first disconnect, bad magic or end of input |
| Nbd.SentIsReceived | nbd/nbd.go:308-396 | requests sent one after the other and closed by a disconnect are the session the server sees |
| Nbd.ClientRecoversAnswers | nbd/nbd.go:400-414 | a client recovers every answer, in order and with its handle, from the bytes written; a payload is there only for a successful read and has the length asked for |
| Nbd.Server.ServeRead | nbd/nbd.go:326-368 | a read is answered with everything asked for, or with an error and no data |
| Nbd.Server.Transmission | nbd/nbd.go:308-396 | for every input stream the loop writes one answer per frame of its session, in order, and nothing else |
| NbdWire.FrameAnswered | nbd/nbd.go:39-109 | byte for byte: a frame with magic 25 60 95 13 and command 0, 1, 3, 4, 6 or any other is answered with magic 67 44 66 98, its handle, and error 0, 1, 5 or 22 as the command and the export decide; command 2 ends the session unanswered |
| NbdWire.OtherMagic | nbd/nbd.go:317-323 | a frame with any other magic ends the session without an answer |
| Lzvn.CopyMatch | internal/filesystem/apfs/lzvn.go:247-252 | copying forward in place, over bytes just written, repeats the last D bytes: byte i is that at distance D plus i mod D |
| Lzvn.Decompress | internal/filesystem/apfs/lzvn.go:21-242 | the in-place opcode machine stays inside both buffers, ends, and gives exactly the length asked for or an error |
| Lzvn.DecompressionIsExpansion | internal/filesystem/apfs/lzvn.go:21-242 | it gives o if and only if o has that length and is the expansion of tokens the stream begins with |
| Lzvn.TokenRoundTrip | internal/filesystem/apfs/lzvn.go:38-240 | every token in every opcode class parses back, whatever follows |
| Lzvn.LzvnRoundTrip | internal/filesystem/apfs/lzvn.go:21-242 | streams of literals and copies of any length decompress to their meaning, overlapping copies split over several opcodes included |
| Omap.ObjectMap.ResolveOid | internal/filesystem/apfs/apfs.go:346-408 | the descent with the node cache gives the answer of the descent without one (over written blocks that of `OmapWritten.WrittenLookup`), and the cache stays true to the disk |
| Omap.DescentIsPredecessor | internal/filesystem/apfs/apfs.go:346-408 | in every well-ordered tree within the depth bound the descent finds the last entry at most (oid, maxXid) of the flattened leaves, or fails if there is none |
| Omap.LatestIs | internal/filesystem/apfs/apfs.go:346-408 | the scan it is compared with gives the entry of the object with the largest version up to maxXid |
| Omap.LookupIsScan | internal/filesystem/apfs/apfs.go:399-405 | the lookup is that entry's address if and only if the object has such a version; otherwise it is the neighbour's |
| Omap.NeighbourAnswers | internal/filesystem/apfs/apfs.go:399-405 | a concrete map that answers for an object it does not hold |
| OmapWritten.NodeReads | internal/filesystem/apfs/apfs.go:358-394 | a node's block written field by field (table at 0x38, keys behind it, values counted back from the end, in front of the footer in a root) is read as its level, its keys and the values at their places |
| OmapWritten.WrittenIsStored | internal/filesystem/apfs/apfs.go:346-408 | blocks written for a whole tree, a root on top, are a tree the descent can be used on |
| OmapWritten.WrittenLookup | internal/filesystem/apfs/apfs.go:346-408 | over such blocks the lookup gives the address that a scan of the entries written gives, for every object with a version up to the bound |
| Streaming.StreamReader.ReadAt | internal/filesystem/btrfs/open.go:199-271 | reading piece by piece ends, writes only content even when a later piece fails, and otherwise gives the slice, with end of file exactly when it is cut off |
| Streaming.StreamReader.Read | internal/filesystem/btrfs/open.go:274-285 | the cursor moves by what was read, and the end is reported only by the read that starts there |
| Streaming.StreamReader.Seek | internal/filesystem/btrfs/open.go:297-314 | the three origins; a negative target is refused and leaves the cursor |
| ClusterChain.FollowIsChain | internal/filesystem/fat/fat32.go:373-405 | following the FAT succeeds if and only if there is a repetition-free chain to an end marker within the bound, and gives that chain |
| ClusterChain.FollowChain | internal/filesystem/fat/fat32.go:373-405 | the loop with its visited set ends and gives that chain, for FAT and exFAT |
| ClusterChain.ReadFileClusters | internal/filesystem/fat/fat32.go:409-450 | the eager content of a file |
| ClusterChain.FileReader.ExtendTo | internal/filesystem/fat/open.go:105-133 | the chain becomes exactly the FAT walk up to the place asked for, or up to where the walk ends, repeats or breaks, each cluster appended before its entry is checked; it fails at k exactly when that entry is broken |
| ClusterChain.FileReader.Lookup | internal/filesystem/fat/open.go:105-133 | on every FAT the answer is the cluster the chain, extended that far, has at k, and an error exactly when there is none or that cluster was reached only now and its own entry is broken |
| ClusterChain.FileReader.WithoutRepeats | internal/filesystem/fat/open.go:117-131 | the lazy chain never holds a cluster twice |
| ClusterChain.FoundIsWalk | internal/filesystem/fat/open.go:105-133 | a cluster found for k is the k-th cluster of the FAT walk, whatever was read before |
| ClusterChain.FoundWhen | internal/filesystem/fat/open.go:105-133 | a lookup succeeds if and only if the cluster is on the walk, within the bound, and was reached before or has a sound entry |
| ClusterChain.RetryServes | internal/filesystem/fat/open.go:105-133 | a lookup that fails and is tried again finds its cluster if and only if the FAT entry of that very cluster is the broken one |
| ClusterChain.RetryWitness | internal/filesystem/fat/open.go:105-133 | a volume on which that happens |
| ClusterChain.EagerAgrees | internal/filesystem/fat/fat32.go:409-450 | the eager content, when there is one, is made of the clusters of the walk |
| ClusterChain.FileReader.ReadAt | internal/filesystem/fat/open.go:140-208 | on every FAT a lazy read leaves only bytes of the walk's clusters, fails only at a cluster that is off the walk, unreadable or has a broken entry, and serves its slice when the eager reader succeeds; whatever other reads extend the chain between any two of its steps |
| ClusterChain.FileReader.Read | internal/filesystem/exfat/open.go:212-223 | reading at the cursor, with the same promises on every FAT |
| ClusterChain.FileReader.Seek | internal/filesystem/exfat/open.go:238-255 | as above |
| FatTable.EntryInsideTable | internal/filesystem/fat/fat32.go:266-282 | all bytes of an in-range entry lie inside the first FAT, at every width |
| FatTable.EntryCounted | internal/filesystem/fat/fat32.go:266-282 | a cluster has an entry if and only if the bits of all entries up to its own fit in the FAT |
| FatTable.EntryIsUnpacked | internal/filesystem/fat/fat32.go:313-368 | on every volume the mount accepts, an entry read through whole sectors is the entry of the table, straddling ones included |
| FatTable.PackedEntryReads | internal/filesystem/fat/fat32.go:313-368 | a table packed at 12, 16 or 32 bits reads back on all of them, masked to 28 bits for FAT32 |
| FatVolume.ChainIsTableChain | internal/filesystem/fat/fat32.go:284-405 | the chain followed through the packed FAT is exactly the chain of the table that was packed |
| FatVolume.LinkOnDisk | internal/filesystem/fat/fat32.go:284-403 | at every width the bytes of an entry on disk lead where they should: from F8 below all ones the chain ends, F7 and zero break it, anything else is the next cluster |
| FatVolume.PackedFileContent | internal/filesystem/fat/fat32.go:246-450 | with the FAT packed at its first byte, and clusters laid out one after the other from the data area's first byte, the first one numbered 2, a file is the bytes of its chain's clusters joined and cut to its size, or an error when it is longer |
| FatNames.ParseDirectory | internal/filesystem/fat/fat32.go:605-786 | the loop with its pending long name lists what the specification lists |
| FatNames.DirectoryRoundTrip | internal/filesystem/fat/fat32.go:605-786 | a directory of files with names of up to 255 units, deleted entries and labels is listed exactly, in order, and nothing leaks into what follows |
| FatNames.OwnEntry | internal/filesystem/fat/fat32.go:605-786 | the i-th entry of a parsed directory has the i-th file's own long name, or its own short one, and its size, first cluster and kind |
| FatNames.DirectoryEnds | internal/filesystem/fat/fat32.go:617-622 | an end marker ends the listing, and nothing behind it is read |
| FatNames.WholeItemsPerCluster | internal/filesystem/fat/fat32.go:542-599 | parsing cluster by cluster lists the same, when every cluster holds whole items, with or without an end marker and padding behind the last |
| FatNames.ClustersShow | internal/filesystem/fat/fat32.go:542-599 | for every way the records, and an end marker with anything behind it, are split over clusters, parsing cluster by cluster lists each file under the part of its name whose records no boundary cuts off |
| FatNames.ListedUnlessCut | internal/filesystem/fat/fat32.go:542-599 | that is the directory's own listing if and only if no cluster boundary falls inside an item |
| FatNames.CutFile | internal/filesystem/fat/fat32.go:542-599 | a long name with k of its records behind the boundary lists as its first 13 k units, its short name for k = 0, and right only when k is all of them |
| FatWritten.NameRead | internal/filesystem/fat/fat32.go:684-724 | a base and an extension padded with spaces come back as base, dot and extension, and as the base alone without an extension |
| FatWritten.RecordListed | internal/filesystem/fat/fat32.go:605-786 | a file whose short record is written field by field is listed with that directory bit, size and 32-bit cluster, under its long name or else its dotted one |
| NtfsRuns.ParseRuns | internal/filesystem/ntfs/ntfs.go:410-467 | the loop gives the runs of the specification, for every byte string |
| NtfsRuns.RunListRoundTrip | internal/filesystem/ntfs/ntfs.go:410-467 | parsing undoes a run-list encoder for all field widths, signed deltas of one to eight bytes, and holes; places are the running sums |
| NtfsRuns.RunsAreContiguous | internal/filesystem/ntfs/ntfs.go:448-451 | parsed runs cover the file from cluster 0 without gap, and are within the limit if and only if every length written in the list is |
| NtfsRuns.HugeRunAccepted | internal/filesystem/ntfs/ntfs.go:448-451 | a run list that is accepted although it is not within it |
| NtfsRuns.HolesAreWritten | internal/filesystem/ntfs/ntfs.go:453-459 | only runs written sparse read as zeros without the disk, if and only if the running sum of no written place is negative |
| NtfsRuns.NegativePlaceReadsZero | internal/filesystem/ntfs/ntfs.go:590-599 | a run list with a negative place, read as zeros from a volume that holds nothing |
| NtfsRuns.ReadNonResident | internal/filesystem/ntfs/ntfs.go:565-613 | the eager content: runs one after the other, holes as zeros, cut to the size, every sum and product in 64 bits; over written run lists its bytes are those of `NtfsWritten.WrittenContent` |
| NtfsRuns.LookupFindsBlock | internal/filesystem/ntfs/open.go:125-132 | for contiguous runs that end below 2^64 the run lookup finds the place each cluster has when the runs are taken in order |
| NtfsRuns.StreamingServesContent | internal/filesystem/ntfs/open.go:140-193 | when the eager reader succeeds and takes every cluster from where the lookup finds it, every lazy piece is given and is a piece of its content |
| NtfsRuns.StreamingHonest | internal/filesystem/ntfs/open.go:140-193 | for every run list and disk, a piece has exactly the bytes of the run clusters it lies in, and fails only at one that cannot be read |
| NtfsRuns.OpenStream | internal/filesystem/ntfs/open.go:53-102 | the opened reader gives the clusters' real bytes or fails at a bad one at every offset, and all of the eager content when there is one from the same places; over written run lists its pieces are those of `NtfsWritten.WrittenPiece` |
| NtfsRuns.ReadersAgree | internal/filesystem/ntfs/ntfs.go:565-613 | on every volume the lazy reader serves whatever the eager one gives, if and only if the eager one cannot succeed or both take each cluster of the file from the same place |
| NtfsRuns.SmallRunsAgree | internal/filesystem/ntfs/open.go:125-132 | they do so for every parsed list without a run over the limit |
| NtfsRuns.LongHoleParsed | internal/filesystem/ntfs/ntfs.go:410-467 | a list with a hole of 2^52 + 1 clusters is accepted by the parser |
| NtfsRuns.LongHoleDiffers | internal/filesystem/ntfs/ntfs.go:590-599 | for it they do not: its byte count wraps, and the eager reader has data where the lazy one has zeros |
| NtfsWritten.SourceOfWritten | internal/filesystem/ntfs/ntfs.go:590-599 | cluster j of a written run lies at the running sum of the deltas plus j, or is a hole |
| NtfsWritten.WrittenContent | internal/filesystem/ntfs/ntfs.go:565-613 | over an encoded run list the eager reader succeeds if and only if all clusters of the file can be read, and each byte is then that of the disk cluster the list names, or zero in a hole |
| NtfsWritten.WrittenPiece | internal/filesystem/ntfs/open.go:140-193 | every lazy piece is the rest of the disk cluster the list names there, or zeros in a hole, and fails only where that cluster cannot be read |
| Ext4Extents.ResolveIsFind | internal/filesystem/ext4/ext4.go:310-376 | in every well-formed tree the descent for a block is the lookup in the flattened extents; for trees as they lie on disk this is `Ext4Written.WrittenResolve` |
| Ext4Extents.FindIsHole | internal/filesystem/ext4/ext4.go:332-350 | a block is a hole if and only if no extent covers it |
| Ext4Extents.CoverageIsSum | internal/filesystem/ext4/ext4.go:257-305 | the coverage of a tree is the sum of its extents' lengths, refused past the limit |
| Ext4Extents.ReadExtentData | internal/filesystem/ext4/ext4.go:388-455 | the eager content, an error at a hole |
| Ext4Extents.EagerIsSparse | internal/filesystem/ext4/ext4.go:388-455 | whenever it succeeds it is the zero-filled content |
| Ext4Extents.SparseBlockIs | internal/filesystem/ext4/open.go:116-174 | every block of the zero-filled content is the block the covering extent names, or zeros exactly where no extent covers it |
| Ext4Extents.StreamingServesSparse | internal/filesystem/ext4/open.go:116-174 | when no mapped block is bad, every piece of the lazy reader is a piece of the zero-filled content and none fails |
| Ext4Extents.StreamingHonest | internal/filesystem/ext4/open.go:116-174 | for every file and disk, a piece has exactly the bytes of the mapped blocks and holes it lies in, and fails only at a block that cannot be read |
| Ext4Extents.OpenStream | internal/filesystem/ext4/open.go:55-99 | the opened reader gives the blocks' real bytes or fails at a bad one at every offset, and all of the zero-filled content when no mapped block is bad |
| Ext4Written.ExtentRead | internal/filesystem/ext4/ext4.go:335-346 | an extent entry written field by field decodes to its block, length and start, for every 48-bit start |
| Ext4Written.IndexRead | internal/filesystem/ext4/ext4.go:354-371 | an index entry decodes to its block and its child, for every 48-bit place |
| Ext4Written.WrittenIsStored | internal/filesystem/ext4/ext4.go:257-376 | nodes written with magic, entry count and depth in front of such entries hold the tree they were written for |
| Ext4Written.WrittenResolve | internal/filesystem/ext4/ext4.go:257-376 | over them the descent finds the block of the extents written, and the coverage is their total length |
| Ext4Written.WrittenBlock | internal/filesystem/ext4/open.go:116-174 | every block of a file over them is the disk block as far behind the covering extent's start, or zeros where no extent was written |
| SparseFile.OverlayIsContent | internal/filesystem/apfs/apfs.go:955-994 | copying extents over zeros, where the last one wins, gives on every disk the content in which the first one wins, if and only if the first and the last extent over each byte take it from the same place |
| SparseFile.DisjointHasOneOrigin | internal/filesystem/apfs/apfs.go:955-994 | disjoint extents do |
| SparseFile.DisjointIsSteady | internal/filesystem/apfs/open.go:109-117 | among disjoint extents the one found at an offset is found up to its end |
| SparseFile.AscendingIsSteady | internal/filesystem/btrfs/open.go:182-193 | so it is, overlapping or not, among extents in the order of their offsets |
| SparseFile.PieceIsContent | internal/filesystem/apfs/open.go:133-200 | a piece cut at extents, holes and buffer limits is never empty and is a piece of that content, whenever the extent found at an offset is found up to its end |
| ApfsFile.ReadStream | internal/filesystem/apfs/apfs.go:955-994 | the eager content, batch by batch |
| ApfsFile.EagerIsContent | internal/filesystem/apfs/apfs.go:955-994 | the eager reader gives the streamed content on every disk if and only if the file is within the limit and each byte has one origin |
| ApfsFile.ByteOfFile | internal/filesystem/apfs/apfs.go:955-994 | byte o of the content is the disk's byte o - laddr from the first byte of block paddr on |
| ApfsFile.StreamingHonest | internal/filesystem/apfs/open.go:120-200 | every lazy piece is a piece of the content, and a piece fails if and only if its own block cannot be read |
| ApfsFile.StreamingMatchesEager | internal/filesystem/apfs/open.go:120-200 | what a successful eager read gives is the content when each byte has one origin, and all of the content can then be streamed as far as ranges can be read in part |
| ApfsFile.OpenStream | internal/filesystem/apfs/open.go:66-106 | the opened reader gives content or fails exactly at a bad block at every offset, and all of the eager content under the same conditions |
| BtrfsFile.LogicalStored | internal/filesystem/btrfs/btrfs.go:534-541 | inside one chunk of a consistent map, translating an inner address is moving inside the translated extent |
| BtrfsWritten.ItemRead | internal/filesystem/btrfs/btrfs.go:857-905 | an EXTENT_DATA item written field by field is read as what it means (own bytes, zeros for extent 0, or the range at disk_bytenr + offset), and refused exactly when it is compressed, encrypted or out of bounds |
| BtrfsWritten.ItemListed | internal/filesystem/btrfs/open.go:128-169 | the list a file is opened with skips empty and over-long items, refuses the same ones, and keeps the rest as what they mean |
| BtrfsWritten.WrittenByte | internal/filesystem/btrfs/btrfs.go:534-541 | a byte of the content is its item's own, zero, or the disk's byte at disk_bytenr + offset + (o - file offset), moved by the chunk that covers it |
| BtrfsFile.GetFile | internal/filesystem/btrfs/btrfs.go:1070-1141 | the eager content: items copied over zeros up to the farthest end |
| BtrfsFile.OpenInode | internal/filesystem/btrfs/open.go:107-171 | the extent list of the lazy reader, empty ones skipped; unsupported items refuse the file |
| BtrfsFile.StreamingMatchesEager | internal/filesystem/btrfs/open.go:185-271 | when GetFile succeeds the file opens; its result is the streamed content when each byte has one origin on disk; and all of that can be streamed as far as it is in reach and ranges can be read in part |
| BtrfsFile.StreamingHonest | internal/filesystem/btrfs/open.go:185-271 | whether or not GetFile succeeds, every lazy piece is a piece of the content on the logical medium, and a piece fails if and only if its own range cannot be read |
| BtrfsFile.EagerIsContent | internal/filesystem/btrfs/btrfs.go:1070-1141 | GetFile gives the streamed content on every disk if and only if it can take every item, the file is within the limit, and the first and the last extent over each byte take it from the same place on disk |
| BtrfsFile.AllServedInReach | internal/filesystem/btrfs/open.go:185-271 | all of the content can be streamed from every disk if and only if each byte's own place is within the limit of a read |
| BtrfsFile.KeyOrderIsSteady | internal/filesystem/btrfs/open.go:182-193 | items in key order open as a list in which the extent found at an offset is found up to its end |
| BtrfsFile.OpenStream | internal/filesystem/btrfs/open.go:66-171 | the opened reader gives real bytes or fails exactly where a range cannot be read, and all of GetFile's result under the conditions above |
| BtrfsFile.OverlapsDiffer | internal/filesystem/btrfs/open.go:182-193 | two overlapping extents for which the two readers differ |
| XfsFile.ParseExtents | internal/filesystem/xfs/xfs.go:552-573 | the records of an extent list, an empty one refused |
| XfsFile.RecordRoundTrip | internal/filesystem/xfs/xfs.go:552-573 | decoding a 128-bit record undoes its packing, whatever its flag bit and its neighbours |
| XfsFile.LinearOfPacked | internal/filesystem/xfs/xfs.go:338-342 | an allocation group and a block in it, packed into one number, come apart again, up to the 64 bits the sum is computed in; for full groups the number is already linear |
| XfsFile.WalkBmbt | internal/filesystem/xfs/xfs.go:726-769 | the recursion that appends as it goes collects what the specification collects |
| XfsFile.TreeWalked | internal/filesystem/xfs/xfs.go:726-769 | for every tree within the depth bound that is exactly the in-order records of its leaves |
| XfsFile.ReadBtreeExtents | internal/filesystem/xfs/xfs.go:789-832 | the same from the root in the inode |
| XfsFile.RootWalked | internal/filesystem/xfs/xfs.go:789-832 | a B-tree fork gives exactly the in-order records of its tree |
| XfsWritten.PointerRead | internal/filesystem/xfs/xfs.go:745-765 | behind room for as many keys as fit, pointer i is the packed number of block i and leads to that block's group and place |
| XfsWritten.WrittenIsHeld | internal/filesystem/xfs/xfs.go:726-769 | leaves and nodes written field by field hold the tree they were written for |
| XfsWritten.WrittenFork | internal/filesystem/xfs/xfs.go:789-832 | a written B-tree fork gives exactly the records written into its leaves, in order |
| XfsWritten.ByteOfFile | internal/filesystem/xfs/xfs.go:338-342 | byte w of file block n is byte w of the disk block as far behind the record's first one, counted by whole groups |
| XfsFile.ReadExtents | internal/filesystem/xfs/xfs.go:638-689 | the eager reader's zero-filling loop |
| XfsFile.ReadFileData | internal/filesystem/xfs/xfs.go:594-636 | the same behind the limit on the declared size |
| XfsFile.ReadersAgree | internal/filesystem/xfs/open.go:134-216 | for sorted records the eager reader gives the zero-filled content whenever it succeeds and nothing wraps, and the lazy one all of it whenever each covered block is in range and can be read as a whole |
| XfsFile.EagerIsContent | internal/filesystem/xfs/xfs.go:638-689 | the eager reader gives the zero-filled content on every disk if and only if the file is within the limit and each record it comes to has an offset and a place that do not wrap, and a block number, a place and a length within the limits of a read |
| XfsFile.StreamingHonest | internal/filesystem/xfs/open.go:134-216 | for any list of records whose block numbers do not wrap onto other blocks every lazy piece is a piece of the zero-filled content, and a piece fails if and only if its own block cannot be read |
| XfsFile.AllServedInRange | internal/filesystem/xfs/open.go:190-210 | for any list of records all of that content can be streamed from every disk if and only if each covered block of the file has a number and a place within the limits |
| XfsFile.OpenStream | internal/filesystem/xfs/open.go:61-118 | the opened reader gives real bytes or fails exactly at a bad block at every offset |
| XfsFile.WrappedOffset | internal/filesystem/xfs/xfs.go:653-656 | a concrete record whose byte offset wraps around, and lands at the start of the file |
| XfsFile.LongRecordRefused | internal/filesystem/xfs/xfs.go:301-306 | a record longer than one read may be, which the eager reader refuses and the lazy one streams |
| Exfat.ParseDirectory | internal/filesystem/exfat/exfat.go:444-499 | the loop lists the entry sets the specification lists, or fails on the first malformed one |
| Exfat.ParseExtends | internal/filesystem/exfat/exfat.go:444-599 | entries written over the end marker are listed behind everything listed before |
| ExfatWritten.LinkIsWord | internal/filesystem/exfat/exfat.go:222-281 | on a volume laid out byte by byte a FAT word leads where it should: FFFFFFFF ends a chain, FFFFFFF7 and zero break it |
| ExfatWritten.WrittenFile | internal/filesystem/exfat/exfat.go:218-320 | a file is the bytes of its chain's clusters, the first one of the heap numbered 2, joined and cut to its size, or an error when it is longer |
| ExfatWritten.SetRead | internal/filesystem/exfat/exfat.go:501-599 | the entry set of a file or directory with a name of 1 to 255 units over up to 17 name entries is listed with that name, kind, size and cluster; a declared length over the name is an error |
| ExfatWritten.DirectoryRead | internal/filesystem/exfat/exfat.go:444-599 | a directory of such sets is listed set by set, in order, up to an end marker |
| ExfatInject.Run | cmd/exfat-inject/main.go:74-174 | the injector either refuses and leaves the image alone, or writes data, FAT entry, bitmap bit and directory entries of one plan and nothing else |
| ExfatInject.FirstFreeIsFirst | cmd/exfat-inject/main.go:104-118 | every cluster in front of the allocated one is in use |
| ExfatPlan.PlanIsDecided | cmd/exfat-inject/main.go:74-130 | the checks pass for a place, a bitmap and a cluster exactly when they are the first end marker with room behind it, what the last bitmap entry in front of it names, and the lowest free cluster from 2 on, all inside the image |
| ExfatPlan.BitmapNamed | cmd/exfat-inject/main.go:84-102 | the bitmap is the cluster at byte 20 of its 0x81 entry, and the byte that is marked is that of the allocated cluster's bit in it |
| ExfatPlan.SetIsWritten | cmd/exfat-inject/main.go:131-156 | the set written is that of fixture.txt field by field: archive attribute, 11 units, name hash 0x7C7F, valid and data length 8, the allocated cluster, and the checksum of the set as it lies on disk |
| ExfatPlan.RotatesBits | cmd/exfat-inject/main.go:193-224 | each step of both sums moves every bit down by one and the lowest to the top |
| ExfatPlan.ChecksumNotices | cmd/exfat-inject/main.go:193-213 | changing one byte of a set changes its checksum if and only if it is not one of the checksum's own two bytes |
| ExfatPlan.HashNotices | cmd/exfat-inject/main.go:214-224 | changing one byte of a unit changes the hash of the name |
| ExfatInject.SetBitSets | cmd/exfat-inject/main.go:164-166 | the bitmap update sets its bit and no other |
| ExfatKeeps.InjectionKeepsFiles | cmd/exfat-inject/main.go:74-174 | on a consistent image every file that could be read reads the same bytes afterwards, and the new file reads its content |
| ExfatKeeps.ListingGrows | cmd/exfat-inject/main.go:74-174 | the old listing is a prefix of the new one, and the new file follows it exactly when no 0x01 marker stands in front of the chosen place |
| ExfatKeeps.SetIsListed | cmd/exfat-inject/main.go:131-156 | a reader that comes to the new entry set lists fixture.txt, with its size and its cluster |
| ExfatKeeps.EntriesKept | cmd/exfat-inject/main.go:127-129 | every FAT entry but the allocated one is kept |
| ExfatKeeps.BitmapMarked | cmd/exfat-inject/main.go:158-167 | afterwards the bitmap byte has the allocated cluster's bit, and its other bits as before |

## Left out

- DEFLATE, Adler-32, MD5 and SHA-1 themselves: abstract functions, constrained by `Lawful` only where a proof needs it.
- Opening files, finding sibling segments, sockets, listeners and goroutine creation: files are byte strings, workers are interleaved steps, and failing reads of a segment file are not modelled.
- The header's field contents, the case metadata accessors and the partition tables: field reads.
- The fallback of `ReadAt` for an image without segments, which no opened image has.
- Descriptor and table checksums: the reader does not check them, so neither does the model; the writer's are modelled.
- EWF header read: the reader skips the 13 bytes without looking, and so does the model.
- Unsigned 64-bit overflow of sector totals and of APFS block ranges: sizes are mathematical integers there. Where a wrap decides a result (NTFS run guard, run ends and byte counts, signed run deltas, XFS byte offsets and block numbers, Btrfs extent ends) it is modelled.
- EnCase 1 with slack or without a table: the writer ignores both options in that layout, and so does the model.
- NBD option negotiation, partition exports and failing writes to the connection: the model starts at the transmission loop with the image exporter. Payloads of write requests are not consumed by the server, so frames are consecutive.
- The fallback computation of a FAT volume's layout from implausible boot sectors, and the fixed root directory of FAT12 and FAT16.
- Time stamps, decoding of UTF-16 names (names are sequences of units), paths, search limits and error texts.
- exFAT boot-sector parsing: the injector and the reader share one geometry, a partition at sector 0 with clusters of at most 512 KiB and a root cluster of at least 2; the volume label a directory scan records is left out.
- The FAT-chain walk of exFAT directories longer than one cluster: the injector handles a one-cluster root only.
- ext4 inode parsing and flag checks, XFS inode lookup, local forks and unwritten extents, Btrfs tree walking, inode items and the guess of the item layout, APFS catalogue search and compression headers: heuristics or field reads above the parts modelled.
- Agreement of errors between eager and lazy readers: they use different caps and checks, so each one's failures are characterised by themselves.
- ApfsFile.StreamingMatchesEager: the step from the eager reader's success to the lazy one's takes that ranges can be read in part (`Monotone`), as the two cut their reads differently; FileEvidence.WrappedReader shows this of an image's reader. The same holds for BtrfsFile.StreamingMatchesEager.
- XfsFile.ReadersAgree: does not conclude from the eager reader's success that the lazy one succeeds, because that one reads the last block of a file as a whole and the eager one only up to the size.
