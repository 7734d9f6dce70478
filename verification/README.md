# AbixIO: verified models of its storage algorithms

AbixIO is an erasure-coded object store. An object is cut into blocks, each block is split
into data shards with Reed-Solomon parity, and the shards go to different disks and nodes.
Small shards first enter a write-ahead log of packed records ("needles") in fixed-size
segment files; background workers move them to one file per shard later. A raft log holds
cluster metadata, a planner picks disks, a heal worker repairs lost shards, a lifecycle pass
expires old versions, and two caches sit in front.

This project models those algorithms in Dafny and proves what they are for. Code that updates
state in place is modelled by classes, arrays and loops, proved equal to functions on values;
the theorems over whole runs are lemmas about those functions.

| files | what they model |
|---|---|
| `Bytes`, `Metadata`, `Needle`, `Segment` | byte codec, object metadata, needle record, segment file |
| `WalState`, `WalRefinement`, `WalRecovery`, `WalDrain`, `WalCorruption`, `Wal` | log index, refinement of a map, reopening, when segment files go, corrupt segment files, the `Wal` object |
| `FileTier`, `WalDurability`, `WalOverwrite`, `WalCatchUp`, `ShardWriter` | materialized files, crashes and durability, when keys may be rewritten, catching up after a reopen, the writer that chooses a tier |
| `ReedSolomon`, `SumCode`, `Striping`, `Decoder`, `BufferedDecoder` | coding laws and an instance of them, block striping, the two decoders |
| `Placement`, `PlacementPlan`, `FaultTolerance` | disk planner, write quorum and loss of disks or nodes |
| `ShardVolume` | one object on one volume: log entries, metadata file with versions, shard files |
| `Heal`, `HealOutcome`, `HealConvergence`, `HealScanner`, `HealRoundTrip` | consensus metadata, what a heal answers, repair, scanner, healing as the inverse of damage |
| `Shuffle`, `Multipart`, `MultipartRead` | shard shuffle, upload of parts, completion and reading |
| `Lifecycle`, `LifecycleActions` | rules and passes, what they do in terms of the rules' fields |
| `ReadCache`, `ReadCacheOrder`, `WriteCache` | the caches, and the order of use |
| `RaftLog`, `Glob` | the remaining components |

## What stands for the outside world

- Library functions are parameters: the xxh64, SHA-256, BLAKE3 and MD5 hashes, UTF-8 validity,
  and the msgpack codec, of which only "decoding inverts encoding" is used, and only where it is
  named. Nothing is assumed of a hash unless a lemma says so (`CollisionFree`, `Honest`,
  `Discerning`).
- Reed-Solomon is a pair of functions with three laws (`ReedSolomon.Lawful`): encoding keeps the
  data shards, any `d` shards determine all of them, and coding works column by column. They say
  nothing of shards without bytes, which the `reed-solomon-erasure` library refuses
  (`RefusesEmpty`, named where it is used). The block size is any positive number.
- Clocks, and the success of disk writes, deletes and peer requests, are inputs; the theorems
  hold for every choice of them unless a precondition names one. Three successes are assumed: a
  shard written straight to its file and a write-back of the heal worker happen whole or not at
  all, and the file of a drained segment can be removed.

## Conditions the results rest on

- Log records: lengths fit the header fields and names are valid UTF-8 (`Good`); for
  `deserialize` this is proved to be exactly the condition. Segment files are smaller than 2^32
  bytes, so recorded offsets are not truncated, and segment ids stay below 10^6, so file names
  sort like ids. Between reopens the capacity may change, but an existing first segment must
  have the current one, because opening sets the length of its file.
- Corrupt segment files are allowed beside good ones if none is the first segment or has the id
  that opening uses next; `CorruptIsReused` shows what happens then.
- Durability: no object is written both with and without a version id, and there are no deletes.
  A key is appended again only while it has no file and no live request in flight, and written
  directly again only while it is neither pending nor requested; a worker stops after the shard
  file alone only if that file is whole and its version is listed. `OverwriteSurvivesIff`,
  `DirectSurvivesIff` and `HalfDoneSurvivesIff` prove that these conditions are exact: a step
  outside them has a continuation after which the write is not served. `MaterializeKeepsIff` does
  the same for mixing versions.
- Decoding: all shards that pass their checksum come from one write of the key, because the
  decoder does not compare metadata.
- Healing: the shards have at least one byte, the consensus metadata is no delete marker, and it
  names one existing disk per shard. Nothing is required of the writes: what a heal repairs is
  stated in terms of which disks can be read back after a write (`Takes`), and `ReadBackIff`
  proves that this is the exact condition on the disk before the write.
- The buffered decoder: `EmptyObjectReadsIff` covers objects without bytes.
- Multipart: the object's directories hold no files of the requested parts before completion, and
  a part uploaded again is written on every disk.
- Raft log: the file has no torn tail.

The conditions can be met: a new volume satisfies the volume invariant (`ReachedInv`), an empty
directory opens to an empty log (`OpenedEmpty`), a created segment holds nothing
(`CreatedHoldsNothing`), an empty file is an empty raft log (`RunRefines`), a damaged object is
ready to heal (`DamagedIsReady`), and the coding laws have an instance for any number of data
shards (`SumIsLawful`).

## Where the code does less than its description

- The glob matcher compares literally before it looks at a star, so a star in the *text* can
  match a star in the pattern and end the backtracking; `GlobExactIff` gives the exact condition.
- The buffered decoder joins whole shards, which differs from the streaming decoder for objects
  of several blocks; `DecodersAgreeIff` gives the exact condition.
- A second append of a key does not replace the first for good if the first has reached its file,
  or if a request for the first is still in flight: a crash, or the worker that takes the request,
  brings the first write back (`PutOverFile`, `StaleRequestClobbers`). `OverwriteSurvivesIff`
  gives the exact condition for all continuations, `DirectSurvivesIff` that of a direct write.
- A segment file goes when its last entry is marked, but not if the segment was drained before it
  was sealed, and not if one of its keys was appended again while pending, because the counter of
  the older entry is not taken back: such files stay until a reopen. `IdleIff` and
  `AppendExactIff` are exact, and `ReopenKeepsIff` says which files a reopen deletes.
- Recovery takes a shard file for a finished object, so a worker that stops between the shard file
  and the metadata file loses the object in the next crash; `HalfDoneSurvivesIff` is exact.
- A shard of a version that is rewritten outside the log goes to the object's own shard file and
  a metadata file with that one version, while reads look for it in the version's directory. So
  healing such a version does not repair it: `ReadBackIff` says which writes can be read back,
  `HealRepairsIff` and `SecondHealHealthyIff` which heals repair, `VersionNeverHeals` that no
  number of heals helps, and `VersionHealRepeats` is an example.
- A comment says that reads of the log without a version id fall back to a pending version; the
  code does not do this, and `ShardVolume` follows the code.
- Checksums of multipart shards are recorded but not compared on reading, so a changed shard is
  returned as part of the body; `ChangedPartIff` says exactly when the part is still right.
- A part shard counts as written even if its metadata was not, without which it cannot be read;
  `UploadedPartReadsIff` is exact and `AcknowledgedUnreadable` the extreme case.
- With parity, the buffered decoder cannot read an object without bytes once a shard is lost;
  `EmptyObjectReadsIff`.
- The raft log should take only strictly increasing indexes, but an index 0 counts as no entry
  before the next one, so index 0 is accepted again; `AcceptedIncreasesIff` is exact and
  `ZeroIsTakenTwice` an example. What an append leaves is a log exactly when the batch continues
  it or is refused at once (`AppendRepIff`); a batch refused later leaves records that the store
  does not know of (`RefusedMidway`, `FallingBackBreaks`).
- Truncating a raft log at an index that is missing inside the log empties the file but keeps
  older index entries; `TruncateIff` gives the exact condition.
- A lifecycle pass with versions not listed newest first need not be done after one pass;
  `SettlesIff` gives the exact condition and `UnorderedTimesDoNotConverge` an example.
- The scanner judges by the first metadata it finds, not by the consensus, so it can complain
  for ever about an object that a heal finds healthy; `ScannerAfterHealIff` is exact and
  `StaleMetadataAlarms` an example.
- A part named twice in a completion request fails the completion, unless a move left its
  metadata behind; `CompleteSucceedsIff`.
- The write cache drops entries on flush before their disk writes are known to succeed;
  `FlushStoresIff` says which shards are then stored and `FlushLoses` that the others are lost.
- A refused write whose rollback cannot delete a shard leaves that shard; `RefusedWriteLeaves`.

## Model

| member | source | states |
|---|---|---|
| `ByteCodec.LeRoundTrip` | src/storage/needle.rs:28-38 | a little-endian field gives a value back exactly when the value fits the field |
| `NeedleCodec.SerializeInto` | src/storage/needle.rs:116-159 | writes exactly the serialized needle at the offset and leaves every other byte of the buffer as it was |
| `NeedleCodec.RoundTripIff` | src/storage/needle.rs:172-242 | deserializing a serialized needle, whatever bytes follow, gives it back exactly when lengths fit and names are UTF-8 |
| `NeedleCodec.HeaderRoundTrip` | src/storage/needle.rs:247-322 | the header reader reports identity, offsets and total of a serialized needle |
| `NeedleCodec.InfoSelects` | src/storage/needle.rs:247-322 | the reported offsets select exactly the metadata and the data |
| `NeedleCodec.ReadersAgree` | src/storage/needle.rs:172-322 | on every byte string both readers accept the same inputs and the offsets of one select the fields of the other |
| `NeedleCodec.AcceptsIff` | src/storage/needle.rs:172-242 | on every byte string the reader returns a needle exactly when the bytes in front are its serialized form, checksum included, but for the padding byte |
| `NeedleCodec.ZeroHeaderRejected` | src/storage/needle.rs:247-322 | a zeroed header is never read as a needle |
| `Segments.ActiveSegment.Create` | src/storage/segment.rs:55-98 | mapping a segment file writes the superblock and keeps the bytes behind it |
| `Segments.ActiveSegment.AppendNeedle` | src/storage/segment.rs:105-139 | an append either changes nothing or advances the segment as the append function says, and returns the location |
| `Segments.ActiveSegment.Read` | src/storage/segment.rs:143-148 | a read returns the bytes inside the file or fails |
| `Segments.OpenSealed` | src/storage/segment.rs:205-240 | opening checks the superblock and finds the end of the needles |
| `Segments.OpensIff` | src/storage/segment.rs:205-240 | a file opens as a segment exactly when it has room for a superblock and starts with the magic letters |
| `Segments.Scan` | src/storage/segment.rs:259-285 | the scan loop visits exactly the needles of the recursive walk |
| `Segments.AppendHolds` | src/storage/segment.rs:105-139 | one append adds one needle behind those held and reports its true location |
| `Segments.OpenRecovers` | src/storage/segment.rs:205-285 | opening a segment recovers its write offset and scanning visits exactly the needles held |
| `Segments.HoldsReads` | src/storage/segment.rs:143-157 | the offsets of a visit read back the needle's metadata and data |
| `Segments.ScanInvertsAppend` | src/storage/segment.rs:105-285 | after any append sequence, open and scan give exactly the accepted needles in order at the locations append returned, and the write offset |
| `Segments.DamageKeepsPrefix` | src/storage/segment.rs:205-285 | arbitrary bytes behind the k-th needle leave the first k visited unchanged |
| `Segments.RecreateKeeps` | src/storage/segment.rs:55-98 | rewriting the superblock of a segment file keeps the needles it holds |
| `WalState.AppendRefines` | src/storage/wal.rs:190-212 | an append succeeds exactly when the needle fits an empty segment, and then updates the abstract map at its key and nowhere else |
| `WalState.RotateKeepsInv` | src/storage/wal.rs:215-227 | rotation keeps the abstract map and adds an empty segment |
| `WalState.MarkRefines` | src/storage/wal.rs:302-313 | marking removes exactly the key from the abstract map, whatever segment files it deletes |
| `WalState.DeleteKeepsInv` | src/storage/wal.rs:316-329 | deleting a segment without pending entries keeps every entry readable |
| `WalDrain.MarkRemovesIff` | src/storage/wal.rs:302-329 | a mark removes a sealed segment and its file exactly when the entry is in it and its counter is 1; all other sealed segments keep their files |
| `WalDrain.AppendExactIff` | src/storage/wal.rs:190-212 | an accepted append keeps the counters exact exactly when its key is not pending |
| `WalDrain.RunKeepsExact` | src/storage/wal.rs:190-329 | counters stay exact over every run that appends no pending key again |
| `WalDrain.IdleIff` | src/storage/wal.rs:190-329 | over such a run a sealed segment has no pending entry exactly when it was left so or was drained before it was sealed |
| `WalDrain.ReopenKeepsIff` | src/storage/wal.rs:101-127 | reopening keeps exactly the segment files with a needle that is no tombstone and whose object has no file |
| `WalState.InvReads` | src/storage/wal.rs:262-292 | in every state that represents a map, its keys are the pending ones and reading returns each needle's own bytes |
| `WalRefinement.WalRefinesMap` | src/storage/wal.rs:190-329 | over every run of appends, rotations and marks for which the segment ids last, the log serves exactly the contents of a plain map |
| `WalRefinement.PendingIffUnmarked` | src/storage/wal.rs:190-329 | a key is pending exactly when an accepted append of it has no later mark, and holds its last accepted append |
| `WalRefinement.OpenedLogIsHistory` | src/storage/wal.rs:78-329 | in a log opened on an empty directory, after any such run, a key is pending exactly when its last accepted append has no later mark, and reads return the bytes of that append |
| `WalRecovery.RecoverReplays` | src/storage/wal.rs:141-186 | scanning a segment replays its needles, skipping those whose file exists, tombstones removing |
| `WalRecovery.OpenOneStep` | src/storage/wal.rs:101-127 | one readable segment file is replayed and kept exactly when its counter is positive |
| `WalRecovery.RecoveryPins` | src/storage/wal.rs:101-186 | each recovered entry is in the last segment that holds its key |
| `WalRecovery.RecoveryReplays` | src/storage/wal.rs:78-186 | reopening a directory of readable segments, of any sizes, represents exactly the last-writer-wins replay of all needles whose destination file is absent |
| `WalCorruption.CorruptIsIgnored` | src/storage/wal.rs:104-127 | segment files that do not open change nothing about the reopened log and stay where they are, unless they have the id of the first or of the new segment |
| `WalCorruption.RecoverySkipsCorrupt` | src/storage/wal.rs:78-186 | a directory with corrupt segments among good ones reopens to exactly the replay of the good ones |
| `WalCorruption.CorruptIsReused` | src/storage/wal.rs:129-135 | a corrupt file with the id that opening uses next becomes the new active segment, bytes behind the superblock included |
| `WriteAheadLog.Wal.Open` | src/storage/wal.rs:78-135 | the constructor builds the state of the opening function from the directory |
| `WriteAheadLog.Wal.RecoverSegment` | src/storage/wal.rs:141-186 | the scan loop performs the replay of one segment |
| `WriteAheadLog.Wal.AppendNeedle` | src/storage/wal.rs:190-212 | append, retry after rotation, or refuse, as the append transition says |
| `WriteAheadLog.Wal.RotateActive` | src/storage/wal.rs:215-227 | seals the active segment and creates the next, as the rotation transition says |
| `WriteAheadLog.Wal.ReadEntryData` | src/storage/wal.rs:262-273 | reads the data of an entry from the active or a sealed segment |
| `WriteAheadLog.Wal.ReadEntryMeta` | src/storage/wal.rs:276-292 | reads and decodes the metadata of an entry |
| `WriteAheadLog.Wal.MarkMaterialized` | src/storage/wal.rs:302-313 | drops the entry, decrements its counter and deletes the segment at zero, as the mark transition says |
| `WriteAheadLog.Wal.TryDeleteSegment` | src/storage/wal.rs:316-329 | deletes a sealed segment and its file, and never the active one |
| `FileTier.MaterializeServes` | src/storage/wal.rs:436-503 | what a worker writes is read back from the file tier |
| `FileTier.WrittenIsLatest` | src/storage/wal.rs:436-505 | the version written is listed first and is the only latest one and the only one of its id; a version keeps all others listed |
| `FileTier.MaterializeKeepsIff` | src/storage/wal.rs:436-503 | another object served stays served exactly when the write is of another key or both are versions |
| `FileTier.ServesReads` | src/storage/local_volume.rs:733-774 | a read of the file tier returns the bytes and the version's metadata of what is served |
| `WalDurability.PutKeepsInv` | src/storage/wal.rs:190-212 | an acknowledged append keeps the volume invariant, also of a key written before, if the key has no file and no live request |
| `WalDurability.DirectKeepsInv` | src/storage/local_volume.rs:365-520 | a write straight to the file tier keeps the volume invariant, also of a key written before, if the key is neither pending nor requested |
| `WalDurability.WorkKeepsInv` | src/storage/wal.rs:436-552 | a worker step keeps the volume invariant, also when its segment is gone, a file write fails, or only one of the two files is written |
| `WalDurability.CrashKeepsInv` | src/storage/wal.rs:78-186 | a crash with a torn append, followed by reopening, restores the volume invariant whatever requests were in flight |
| `WalDurability.AcknowledgedIsDurable` | src/storage/wal.rs:436-583 | from a new volume, over every interleaving of appends, rewrites, direct writes, whole and half worker steps and crashes before or after a needle is stored, the last write of each key is read with its bytes and metadata |
| `WalCatchUp.ReopenCatchesUp` | src/storage/wal.rs:507-583 | after a crash, once the workers have served the requests of the reopened log in any order, every acknowledged object is served by its files and nothing is pending |
| `WalDurability.LostKeepsInv` | src/storage/segment.rs:105-139 | a crash after a needle is stored and before it is acknowledged keeps the volume invariant: the write has happened, or its key has a file and keeps it |
| `WalDurability.StillNewest` | src/storage/wal.rs:141-186 | recovery finds the newest needle of a key again, and its entry in the same segment |
| `WalDurability.ReplayIsLast` | src/storage/wal.rs:141-186 | replaying a log leaves exactly the last needle of each key without a file, unless that is a tombstone |
| `WalOverwrite.OverwriteSurvivesIff` | src/storage/wal.rs:154-212 | a second append of a key with other bytes is served after every continuation exactly when the key has no file and no live request for it is in flight |
| `WalOverwrite.StaleRequestClobbers` | src/storage/wal.rs:436-552 | a request for an older needle of a key puts that needle into the files and the newer one out of the pending map |
| `WalOverwrite.PutOverFile` | src/storage/wal.rs:154-167 | a second append of a key with a file is not served after every continuation: a crash brings the first back |
| `WalOverwrite.DirectSurvivesIff` | src/storage/local_volume.rs:365-520 | a second, direct write of a key with other bytes is served after every continuation exactly when the key is neither pending nor requested |
| `WalOverwrite.HalfDoneSurvivesIff` | src/storage/wal.rs:436-505 | a worker that writes only the shard file leaves its key served after every continuation exactly when the file is whole and the metadata file lists the version already |
| `WalOverwrite.CrashReads` | src/storage/wal.rs:78-186 | after a crash a reader gets the replay of the log if the key is in it, and the file tier if not |
| `ShardWriting.WalShardWriter.WriteChunk` | src/storage/local_volume.rs:328-363 | a chunk is buffered, promotes the buffer to a file, or is appended to the file |
| `ShardWriting.WalShardWriter.Finalize` | src/storage/local_volume.rs:365-520 | whatever chunks were written, finalizing is one step of the volume on their concatenation, of the tier that its length decides |
| `ShardWriting.ChunksJoin` | src/storage/local_volume.rs:328-363 | for every chunking the writer holds the concatenation, promoted exactly when it exceeds the promotion size |
| `ShardWriting.WriterIsOneStep` | src/storage/local_volume.rs:280-520 | a whole write is one volume step that depends only on the body, its tier only on the body's length |
| `ShardWriting.TierIff` | src/storage/local_volume.rs:365-520 | a body within the threshold and one mebibyte is only appended to the log; any other leaves the log alone and is in the files |
| `ShardWriting.TiersAgree` | src/storage/local_volume.rs:365-520 | an append later materialized leaves the same file tier as a direct write of the same object |
| `ShardWriting.WrittenIsRead` | src/storage/local_volume.rs:280-520 | on every reachable volume an acknowledged write in any chunks, of a new key or of one that may be rewritten, is read back whole |
| `Striping.SplitData` | src/storage/erasure_encode.rs:31-48 | the split loop gives the padded pieces of the data |
| `Striping.JoinSplit` | src/storage/erasure_encode.rs:31-48 | joining the pieces and cutting to length gives the data back |
| `Striping.ShardSizeIsLeast` | src/storage/erasure_encode.rs:31-33 | shards are as short as they can be, and at least one byte |
| `Striping.WriteBlock` | src/storage/erasure_encode.rs:534-565 | one block extends every shard by its piece or parity |
| `Striping.EncodeStream` | src/storage/erasure_encode.rs:371-410 | whatever the chunking, the shards written are those of the whole body |
| `Striping.StripeSnoc` | src/storage/erasure_encode.rs:371-410 | appending a block to whole blocks extends every shard by that block's piece |
| `Decoder.FastBlock` | src/storage/erasure_decode.rs:239-258 | the zero-copy path emits what reassembling and truncating the block would, for shards of any content and length |
| `Decoder.SlowBlock` | src/storage/erasure_decode.rs:259-299 | the slow path collects, reconstructs and reassembles one block, or fails |
| `Decoder.DecodeStream` | src/storage/erasure_decode.rs:197-304 | the block loop emits what block-by-block decoding of the shards gives |
| `Decoder.BlockRoundTrip` | src/storage/erasure_decode.rs:239-299 | a block is recovered from any d of its pieces on either path |
| `Decoder.StreamRoundTrip` | src/storage/erasure_decode.rs:197-304 | the streaming decoder emits exactly the body from any d shards |
| `Decoder.ReadAndDecodeStream` | src/storage/erasure_decode.rs:143-307 | placing, quorum check and decoding compose to the whole read |
| `Decoder.ReadBack` | src/storage/erasure_decode.rs:143-307 | over all replies of one write: not found, too few distinct usable shards, or exactly the body with the metadata of the first usable reply |
| `Decoder.ReadOutcome` | src/storage/erasure_decode.rs:144-200 | over any replies at all: not found exactly when nothing is read, a result exactly when d distinct indexes are usable, with the metadata of the first usable reply |
| `BufferedDecoder.ReadAndDecode` | src/storage/erasure_decode.rs:68-137 | the buffered read reconstructs whole shards, joins and truncates |
| `BufferedDecoder.BufferedOutcome` | src/storage/erasure_decode.rs:68-137 | over any replies: not found exactly when nothing is read, an error below d usable indexes, and otherwise at best a body with the metadata of the first usable reply |
| `BufferedDecoder.StripeIsCodeword` | src/storage/erasure_encode.rs:534-565 | the shards of a body over all its blocks are one code word of its data shards |
| `BufferedDecoder.BufferedJoins` | src/storage/erasure_decode.rs:127-136 | from any d shards, of an empty body from all of them, the buffered decoder returns the joined data shards cut to size |
| `BufferedDecoder.JoinedFails` | src/storage/erasure_decode.rs:127-136 | for every size above one block, with two or more data shards and blocks of two or more bytes, some body is scrambled |
| `BufferedDecoder.DecodersAgreeIff` | src/storage/erasure_decode.rs:117-136 | the buffered decoder returns the body for all bodies of a size and all losses exactly when the size is within one block, or d is 1, or blocks are one byte; for size 0, with a library that refuses empty shards, exactly when there is no parity |
| `BufferedDecoder.EmptyObjectReadsIff` | src/storage/erasure_decode.rs:117-136 | with a library that refuses empty shards, an object without bytes is read back if no shard is lost, and refused otherwise |
| `BufferedDecoder.EmptyObjectIff` | src/storage/erasure_decode.rs:117-136 | for any library, an object without bytes is read back after all losses exactly when there is no parity or the library can fill empty shards |
| `Placement.Plan` | src/cluster/placement.rs:50-140 | the nested round-robin loops choose the planned prefix of the preference order, with the error cases |
| `Placement.OrderIsSorted` | src/cluster/placement.rs:143-150 | the order is a stable sort by hash: a sorted permutation in which equal hashes keep their order |
| `Placement.OrderForgets` | src/cluster/placement.rs:143-150 | with distinct hashes the order does not depend on the input order |
| `Placement.PreferenceIsPermutation` | src/cluster/placement.rs:66-114 | the round-robin order uses every disk exactly once |
| `Placement.PlanSucceedsIff` | src/cluster/placement.rs:50-140 | planning succeeds exactly when data is at least 1 and total is at most the disk count, the error naming which fails; the record repeats what was asked for and uses disks as often as listed |
| `PlacementPlan.PlanIsDistinct` | src/cluster/placement.rs:94-140 | every shard of a plan is on a listed disk, and with distinct disks no two are on one |
| `PlacementPlan.PlanIsBalanced` | src/cluster/placement.rs:94-140 | two nodes' numbers of shards differ by more than one only if the lighter node has no disk left |
| `PlacementPlan.PlanSpreads` | src/cluster/placement.rs:94-140 | with as many nodes as shards every shard is on a node of its own |
| `PlacementPlan.PlanOrdersNodes` | src/cluster/placement.rs:71-114 | each shard is placed in a later round than those before it, or in the same round on another node, nodes in the order of their hashes; a node without a shard is behind all with one |
| `PlacementPlan.PlanOrdersDisks` | src/cluster/placement.rs:81-114 | the shards of a node are on its disks in the order of their hashes, and an unused disk of the node is behind the used ones |
| `Placement.PlanExtends` | src/cluster/placement.rs:94-140 | a larger plan extends the shard list of a smaller one |
| `Placement.PlanIgnoresListing` | src/cluster/placement.rs:50-150 | with collision-free hashes the plan does not depend on the listing order of the disks |
| `FaultTolerance.CommitWrite` | src/storage/erasure_encode.rs:427-487 | finalizes each shard, counts, and on a missed quorum deletes what it wrote where the delete succeeds |
| `FaultTolerance.RefusedWriteLeaves` | src/storage/erasure_encode.rs:427-487 | a write is refused exactly when fewer than d shards are finalized, or d + 1 with parity, and otherwise reports their number; a refused write leaves a shard exactly where the rollback delete fails |
| `FaultTolerance.AcknowledgedReadsIff` | src/storage/erasure_decode.rs:143-307 | after any damage the body is read back, with the metadata of the write up to index and checksum, exactly when d finalized shards are usable |
| `FaultTolerance.AcknowledgedSurvives` | src/storage/erasure_encode.rs:464-487 | a write with s finalized shards is read back, with its metadata, after losing any s - d of them |
| `FaultTolerance.NodeLossSurvives` | src/cluster/placement.rs:50-140 | an object whose shards are all finalized where the plan returned puts them, on at least d + p nodes, is read back with its metadata after losing any p nodes |
| `Heal.FindConsensusMeta` | src/heal/worker.rs:150-178 | the grouping loop returns the metadata of the chosen group, or no consensus |
| `Heal.ConsensusIsPlurality` | src/heal/worker.rs:150-178 | the result is the first metadata whose class is largest, and only if the class has data_n members |
| `Heal.PluralityUnique` | src/heal/worker.rs:150-178 | that metadata is unique |
| `Heal.HealObjectOn` | src/heal/worker.rs:38-147 | reading, classifying, reconstructing and writing back through the volumes compose to the heal function on the disks |
| `Heal.TargetIs` | src/heal/worker.rs:118-126 | a repaired shard goes to the last disk with the volume id named for it, or to the disk at its position |
| `HealOutcome.NotFoundIff` | src/heal/worker.rs:38-70 | a heal finds nothing exactly when no disk shows a shard, and an error changes nothing |
| `HealOutcome.NoClass` | src/heal/worker.rs:150-178 | without d reads of one write, d taken from the first read, there is no quorum |
| `HealOutcome.HealAnswers` | src/heal/worker.rs:72-147 | otherwise the heal is healthy exactly when every index has a good shard of the consensus write, unrecoverable exactly when fewer than d have, and changes nothing in both cases |
| `HealConvergence.HealOnce` | src/heal/worker.rs:38-147 | however its writes end, a heal writes exactly the missing shards, each to its disk, and reports healthy or the number of writes that were not refused |
| `ShardVolume.ReadBackIff` | src/storage/local_volume.rs:641-774 | reading a shard gives back what a write stored exactly when the disk takes it: a condition on the disk before the write, its log, its version files and the size |
| `ShardVolume.PlainIsTaken` | src/storage/local_volume.rs:641-774 | a write without a version id is read back, unless it goes to the files past an older entry in the log |
| `ShardVolume.VersionIsNotTaken` | src/storage/local_volume.rs:694-774 | a version written outside the log whose own shard file is missing or different is not read back, and is the only version the metadata file then lists |
| `ShardVolume.NotTakenReads` | src/storage/local_volume.rs:641-774 | a disk that does not take a write shows what it showed before, or the new metadata without the new bytes |
| `HealConvergence.HealRepairsIff` | src/heal/worker.rs:118-147 | after a heal, however its writes end, a disk holds its shard exactly when it did before or takes the shard written to it |
| `HealConvergence.HealRepairs` | src/heal/worker.rs:38-147 | afterwards every position holds its original shard exactly when the disks that are rewritten can be read back; in any case no good shard was touched and no other disk changed |
| `HealConvergence.StripesAreCodewords` | src/storage/erasure_encode.rs:534-565 | the shards of every nonempty body have the code word form that healing restores |
| `HealConvergence.ConsensusStays` | src/heal/worker.rs:150-178 | repairing disks toward the consensus keeps the consensus, ties included |
| `HealConvergence.SecondHealIsHealthy` | src/heal/worker.rs:38-147 | if the rewritten disks can be read back, a second heal reports healthy and changes nothing |
| `HealRoundTrip.ConsensusIsTheWrite` | src/heal/worker.rs:150-178 | with d shards unharmed the consensus is the metadata of the write, whatever was lost elsewhere |
| `HealRoundTrip.DamagedIsReady` | src/heal/worker.rs:38-147 | a stored object with d shards unharmed meets the conditions of the heal theorems |
| `HealRoundTrip.HealUndoesDamage` | src/heal/worker.rs:38-147 | whatever was lost or corrupted on the disks of all but d shards, after a heal every disk answers exactly as before the damage, if and only if the damaged disks take what is written to them |
| `HealRoundTrip.HealReports` | src/heal/worker.rs:38-147 | a heal finds a damaged object healthy exactly when no shard is damaged, and otherwise, if no write is refused, reports as many repairs as there are damaged shards |
| `HealRoundTrip.QuietIff` | src/heal/worker.rs:294-327 | the scanner is quiet about a damaged object exactly when no shard is damaged |
| `HealRoundTrip.SecondHealHealthyIff` | src/heal/worker.rs:38-147 | a second heal is healthy, and the scanner quiet, exactly when the damaged disks took what the first heal wrote |
| `HealRoundTrip.VersionNeverHeals` | src/heal/worker.rs:118-147 | a version with a damaged shard on a disk that keeps it out of the log is damaged after every number of heals, and the scanner still complains |
| `HealRoundTrip.VersionHealRepeats` | src/storage/local_volume.rs:694-774 | such disks: a heal reports one repair, and so does the next |
| `HealScanner.ObjectNeedsHealing` | src/heal/worker.rs:294-327 | the scanner loop computes the scanner predicate |
| `HealScanner.ScannerIff` | src/heal/worker.rs:294-327 | the scanner complains about a restored object exactly when the first metadata is of another write and fewer disks outside the object are good for that write than the object has shards |
| `HealScanner.ScannerAfterHealIff` | src/heal/worker.rs:294-327 | after a heal whose disks can be read back the scanner complains exactly when, before it, the first disk with metadata or a shard's home is no home and holds such foreign metadata |
| `HealScanner.StaleMetadataAlarms` | src/heal/worker.rs:294-327 | disks on which a heal reports healthy and the scanner complains |
| `Shuffle.HashOrder` | src/storage/erasure_encode.rs:16-28 | the in-place Fisher-Yates loop computes the order of the recursive definition |
| `Shuffle.OrderIsPermutation` | src/storage/erasure_encode.rs:16-28 | for every digest the order is a permutation |
| `Shuffle.SameOrderIff` | src/storage/erasure_encode.rs:16-28 | two digests give the same order exactly when their bytes draw the same place at every position |
| `Multipart.PutPart` | src/multipart/mod.rs:94-148 | shards and their metadata go to the dealt disks as far as each write gets, and the quorum decides the result |
| `Multipart.PutAt` | src/multipart/mod.rs:112-142 | each disk receives only the shard dealt to it |
| `Multipart.PutIsConsistent` | src/multipart/mod.rs:112-142 | after a part is written every disk holds only files of its body, with its number and hashes, and shard i with its metadata where both writes succeeded |
| `Multipart.PutSparesOthers` | src/multipart/mod.rs:112-142 | writing a part leaves the files of other parts alone |
| `Multipart.CompleteUpload` | src/multipart/mod.rs:208-345 | validation, the move loop with moves that may fail, and the metadata quorum compose to the completion function |
| `Multipart.MovedFiles` | src/multipart/mod.rs:234-290 | where completion leaves each file of each part, whichever moves fail: staged until a turn takes it, in the object once a turn brought it there, otherwise as it was |
| `Multipart.CompleteSucceedsIff` | src/multipart/mod.rs:208-345 | completion succeeds exactly when the first disk with the upload has metadata of each requested part, that metadata is still staged somewhere at its turn, and some disk takes the object's metadata |
| `Multipart.MovedOnce` | src/multipart/mod.rs:208-345 | when moved metadata leaves the staging area, that means every requested part is listed and none is requested twice |
| `MultipartRead.ReadAndDecodeMultipart` | src/storage/erasure_decode.rs:311-379 | the loops over parts and disks compute the joined parts, or fail |
| `MultipartRead.DecodePart` | src/storage/erasure_decode.rs:319-374 | gathering, quorum, reconstruction and joining of one part compose to the part read |
| `MultipartRead.ChangedPartIff` | src/storage/erasure_decode.rs:341-376 | with a shard of the right length at every index a part is always returned, and is its body exactly when no byte of a data shard changed but padding |
| `MultipartRead.UploadedPartReadsIff` | src/multipart/mod.rs:112-148 | an uploaded part is readable exactly when d of its shards were written with their metadata |
| `MultipartRead.AcknowledgedUnreadable` | src/multipart/mod.rs:137-148 | a part none of whose metadata was written is acknowledged and cannot be read |
| `MultipartRead.PartReads` | src/storage/erasure_decode.rs:319-376 | a part is read exactly when d of its shards are found with metadata, and is then its body |
| `MultipartRead.MultipartRoundTrip` | src/storage/erasure_decode.rs:311-379 | after completion with any moves and any loss of files, reading gives the requested bodies joined in order exactly when d pairs of each part are left |
| `MultipartRead.UploadsAreConsistent` | src/multipart/mod.rs:76-154 | any uploads of parts into fresh directories, repeated ones succeeding everywhere, leave each disk with files of the last bodies only |
| `MultipartRead.UploadRoundTrip` | src/multipart/mod.rs:76-345 | the round trip from the first uploaded part to the read, into object directories without those parts; the entries recorded have the number, size and hash of the bodies |
| `MultipartRead.SizeIsLength` | src/multipart/mod.rs:278-280 | an object that can be read has as many bytes as its parts say |
| `RaftLog.LogStore.Open` | src/raft/storage/log.rs:64-80 | the constructor opens the file as the opening function says |
| `RaftLog.LogStore.RebuildIndex` | src/raft/storage/log.rs:82-103 | the scan loop rebuilds the index from the records |
| `RaftLog.LogStore.AppendBatch` | src/raft/storage/log.rs:109-134 | the append loop writes and indexes records until one is refused |
| `RaftLog.LogStore.ReadIndex` | src/raft/storage/log.rs:136-156 | on a store that holds a list of entries, reading returns the entry of that index, or not found if there is none |
| `RaftLog.LogStore.ReadRange` | src/raft/storage/log.rs:159-170 | reads the records of a range in order |
| `RaftLog.LogStore.TruncateTail` | src/raft/storage/log.rs:176-202 | truncates file and index |
| `RaftLog.LogStore.PurgeHead` | src/raft/storage/log.rs:207-257 | rewrites the file with the kept records and their new offsets |
| `RaftLog.ReadReturns` | src/raft/storage/log.rs:136-156 | reading returns the entry that was appended and reports every other index missing |
| `RaftLog.AppendRefines` | src/raft/storage/log.rs:109-134 | a batch that strictly continues the log, from index 0 or any other, is appended to the list |
| `RaftLog.AcceptedIff` | src/raft/storage/log.rs:113-117 | a batch is accepted exactly when each entry is small enough and above the one before it, an index 0 counting as none |
| `RaftLog.AcceptedIncreasesIff` | src/raft/storage/log.rs:105-117 | an accepted batch leaves the indexes strictly increasing exactly when it does not repeat index 0 |
| `RaftLog.ZeroIsTakenTwice` | src/raft/storage/log.rs:113-117 | an empty store accepts a batch of two entries with index 0, and what it then holds is no log |
| `RaftLog.AppendRepIff` | src/raft/storage/log.rs:109-134 | what an append leaves represents some log exactly when the batch strictly continues the log or is refused at its first entry |
| `RaftLog.RefusedAtOnce` | src/raft/storage/log.rs:109-134 | a batch whose first entry is refused changes nothing |
| `RaftLog.RefusedMidway` | src/raft/storage/log.rs:109-134 | a batch with a later entry refused leaves records the length does not cover, and the next entry appended reads as corrupt |
| `RaftLog.FallingBackBreaks` | src/raft/storage/log.rs:109-134 | a batch of indexes 2 and 1 is refused and leaves no log |
| `RaftLog.ReopenRestores` | src/raft/storage/log.rs:82-103 | reopening rebuilds the identical store from the file |
| `RaftLog.TruncateIff` | src/raft/storage/log.rs:176-202 | truncation keeps exactly the entries up to the cut, and a store that represents any log, exactly when the cut is clean |
| `RaftLog.ContiguousCuts` | src/raft/storage/log.rs:176-202 | on a contiguous log every cut is clean |
| `RaftLog.PurgeRefines` | src/raft/storage/log.rs:207-257 | purging keeps exactly the entries from the index on |
| `RaftLog.RangeReturns` | src/raft/storage/log.rs:159-170 | a range read returns exactly the entries in the range, in order |
| `RaftLog.StepRefines` | src/raft/storage/log.rs:82-257 | a step takes the store to that of the list step exactly when it is such a step, and otherwise to that of no list |
| `RaftLog.AlwaysALogIff` | src/raft/storage/log.rs:82-257 | a run leaves the store that of a list at every point exactly when all its steps are such steps |
| `RaftLog.StoreRefinesList` | src/raft/storage/log.rs:82-257 | after every run of appends that continue the log or are refused at once, clean truncations, purges and reopens the file is the records of a plain list, reads find exactly its entries, and reopening changes nothing |
| `Glob.MatchInner` | src/policy/glob.rs:12-41 | the backtracking loop terminates and computes the matcher's walk |
| `Glob.GlobSound` | src/policy/glob.rs:12-41 | a match implies the recursive meaning of the pattern |
| `Glob.GlobComplete` | src/policy/glob.rs:12-41 | on a text without a star every match is found, although only the last star is retried |
| `Glob.GlobExactIff` | src/policy/glob.rs:12-41 | the matcher is exact on a text for all patterns exactly when the text has no star |
| `Lifecycle.EvalRules` | src/lifecycle/evaluator.rs:25-126 | the rule loop computes the evaluation function |
| `Lifecycle.ChoosesEarliest` | src/lifecycle/evaluator.rs:135-141 | the event chosen is that of the first rule with the earliest due time, and there is none exactly when no rule wants anything |
| `LifecycleActions.EvalIs` | src/lifecycle/evaluator.rs:25-141 | on the rules' fields: the event is what the first rule in force that has asked longest asks for, and nothing exactly when none asks or the version has no creation time |
| `LifecycleActions.CurrentDeletedIff` | src/lifecycle/evaluator.rs:105-121 | a current version is deleted exactly when its days since creation have passed for some rule in force |
| `LifecycleActions.MarkerReapedIff` | src/lifecycle/evaluator.rs:45-75 | a marker that is the latest and only version is reaped exactly when some rule in force reaps markers or has its days passed |
| `LifecycleActions.NoncurrentDeletedIff` | src/lifecycle/evaluator.rs:77-103 | a noncurrent version of two or more is deleted exactly when some rule in force keeps enough newer ones and has its days passed |
| `LifecycleActions.MarkerInFrontStays` | src/lifecycle/evaluator.rs:45-121 | the latest marker in front of other versions stays |
| `Lifecycle.NoncurrentAction` | src/lifecycle/evaluator.rs:77-103 | on a noncurrent version of two or more, the action is a version delete exactly when some applicable noncurrent rule says so, and otherwise nothing |
| `Lifecycle.ApplyVersions` | src/lifecycle/mod.rs:157-183 | the version loop with its retained counter computes the pass |
| `LifecycleActions.PassIs` | src/lifecycle/mod.rs:157-245 | in a pass each version meets what the rules say of it, given how many noncurrent versions before it were left alone, unless the store refuses or a version to be deleted by id has none |
| `Lifecycle.RetentionHolds` | src/lifecycle/mod.rs:157-183 | if every applicable noncurrent rule keeps n newer versions, the first n noncurrent versions are never deleted, whatever deletes fail |
| `Lifecycle.PassConverges` | src/lifecycle/mod.rs:157-183 | with only noncurrent rules, a latest head, all versions but the last newest first and all deletes carried out, a second pass at the same time does nothing |
| `Lifecycle.SettlesIff` | src/lifecycle/mod.rs:157-183 | a list with a latest head, times and ids settles in one pass, under all noncurrent rules at all times, exactly when all its versions but the last are newest first |
| `Lifecycle.RiseDoesNotSettle` | src/lifecycle/mod.rs:162-166 | at the first rise of times before the last version, a plain rule deletes again in the second pass |
| `Lifecycle.UnorderedTimesDoNotConverge` | src/lifecycle/mod.rs:162-166 | versions of times 50, 200 and 10 do not settle at time 50 |
| `ReadCaching.ReadCache.Get` | src/storage/read_cache.rs:96-103 | a hit returns the entry, moves it to the front and is counted |
| `ReadCaching.ReadCache.PutEntry` | src/storage/read_cache.rs:107-127 | replaces the entry, counts its bytes and evicts from the back in a loop |
| `ReadCaching.ReadCache.Invalidate` | src/storage/read_cache.rs:131-136 | removes the entry and its bytes |
| `ReadCaching.ReadCache.InvalidateBucket` | src/storage/read_cache.rs:139-152 | removes the bucket's entries one by one |
| `ReadCaching.PutKeepsLongestFit` | src/storage/read_cache.rs:107-127 | after an accepted put the survivors are the longest most-recently-used run that fits the budget |
| `ReadCacheOrder.PutIs` | src/storage/read_cache.rs:107-127 | a put of a small enough object leaves the longest run that fits of it and the others in order; any other put changes nothing |
| `ReadCacheOrder.RunIsOrdered` | src/storage/read_cache.rs:96-152 | after any operations the slots are in the order of the last operation that stored or found them |
| `ReadCaching.DropBucketDrops` | src/storage/read_cache.rs:139-152 | dropping a bucket removes its keys and no others |
| `ReadCaching.RunIsExact` | src/storage/read_cache.rs:96-152 | over every operation sequence the counter is the exact sum of entry sizes and within budget, and a hit returns the last accepted put not invalidated since |
| `WriteCaching.WriteCache.InsertEntry` | src/storage/write_cache.rs:110-132 | accepts exactly what fits on top of the bytes in use, replaces, and keeps the counter exact |
| `WriteCaching.InsertIff` | src/storage/write_cache.rs:110-132 | an insert is accepted exactly when it fits on top of everything held, and replaces its key only |
| `WriteCaching.WriteCache.RemoveEntry` | src/storage/write_cache.rs:145-151 | returns and removes the entry, and keeps the counter exact |
| `WriteCaching.WriteCache.DrainPrimaryOlderThan` | src/storage/write_cache.rs:180-203 | splits the entries into the old ones this node owns, each listed once, and the rest; never drains another primary's replica |
| `WriteCaching.WriteCache.DrainByPrimary` | src/storage/write_cache.rs:208-222 | splits the entries into those of the primary, each listed once, and the rest |
| `WriteCaching.SplitsConserve` | src/storage/write_cache.rs:180-222 | drained and kept entries are disjoint, together the old entries, and their bytes add up |
| `WriteCaching.WriteCache.RecoverFromPeers` | src/storage/volume_pool.rs:221-247 | inserts, restamped, everything the answering peers handed back, in order |
| `WriteCaching.ReceivedIff` | src/storage/volume_pool.rs:221-247 | what is inserted is exactly what the peers that answered sent |
| `WriteCaching.RecoveryCompleteIff` | src/storage/volume_pool.rs:221-247 | recovery into an empty cache restores every entry exactly when together they fit |
| `WriteCaching.PeerRestores` | src/storage/volume_pool.rs:221-247 | what a peer drains for a node, inserted into an empty cache no smaller than the peer's bytes in use, is every entry the peer held for it |
| `WriteCaching.FlushOlderThan` | src/storage/volume_pool.rs:260-274 | drains and then writes each shard to the disk its distribution names |
| `WriteCaching.FlushMoves` | src/storage/volume_pool.rs:260-274 | an entry goes exactly when it is old enough and owned by this node or none, and then every disk holds the last shard whose write to it succeeded, or what it held before; an entry that stays is unchanged, replicas of other nodes included |
| `WriteCaching.FlushStoresIff` | src/storage/volume_pool.rs:260-274 | a shard of a flushed entry is stored afterwards exactly when its write succeeded or it was stored before |
| `WriteCaching.FlushLoses` | src/storage/volume_pool.rs:262-268 | a flushed entry none of whose writes succeed is neither cached nor on any disk |

## Left out

- HTTP dispatch, S3 handlers, admin interface, metrics, configuration: plumbing over libraries.
- Remote volumes, peer HTTP client, storage routes, authentication: network and foreign calls.
- The openraft adapters, raft state machine, vote and snapshot stores, and the repair queue: short members or unseen library code.
- Cluster fencing and identity exchange: depends on live probes.
- Hashing, msgpack and JSON encodings, Galois-field arithmetic, memory mapping and fsync: parameters, laws or left out.
- Crash points inside a direct write of the file tier, and torn tails of the raft log file.
- Concurrent access to the caches and the log: operations are sequential, as their locks make them; races on the write cache's counter are not modelled.
- Deletes and tombstones in the durability theorem; recovery itself replays tombstones.
- Writes of a key that mix shard generations of several bodies.
- The pipeline for one data and no parity shard, which writes the body as it arrives, and objects stored inside their metadata except where healing writes and reads them.
- The unversioned lifecycle walk and the abort of stale uploads, which add only straight-line cases.
- Part metadata files that do not parse count as absent.
- Path validation and directory walking.
- Heal.HealObjectOn: metadata whose parity exceeds its volume list makes the source panic; the model requires that this does not happen.
- MultipartRead.ReadAndDecodeMultipart: requires the same of the parts recorded in the object.
- WriteCaching.FlushOlderThan: requires distributions that name existing disks, since the source indexes without a check.
- HealConvergence.HealRepairsIff: a refused write-back leaves the disk as it was, and log entries can be read; a write that fails between the shard file and the metadata file is left out.
- MultipartRead.ChangedPartIff: changed shards beside missing ones are left out, since the coding laws say nothing of reconstruction from wrong shards.
- WriteAheadLog.Wal.TryDeleteSegment: the removal of the segment file succeeds; a file that cannot be removed is scanned again at the next opening.
- WalRecovery.OpenOneStep: the removal of a drained segment file succeeds.
- WalRecovery.RecoveryReplays: directories of readable segments; `WalCorruption` adds corrupt ones, except at the id of the first or of the next segment.
- MultipartRead.UploadsAreConsistent: a part uploaded again must succeed on every disk, since a partial overwrite mixes shards of two bodies.
- MultipartRead.UploadRoundTrip: a part uploaded again must succeed on every disk, since a partial overwrite mixes shards of two bodies.
- ShardWriting.WalShardWriter.Finalize: file errors while a shard is written are left out, as is the partial file a reader could see meanwhile.
- WalState.AppendRefines: segment ids below 10^6 and capacities below 2^32, beyond which file names and offsets are no longer exact.
