# A verified model of the distributed commit log

The project models the segmented commit log (`internal/log`), the replicated state machine on top of
it with its snapshots (`internal/log/distributed`), the two Raft log stores (on segments and on
Pebble) and the streaming handlers (`internal/server`), and proves what they promise together.
`dafny verify dfyconfig.toml` checks everything.

## How it is built

| file | holds |
|---|---|
| `bytes.dfy`, `record.dfy`, `frames.dfy` | big-endian integers and key order; the protobuf form of `Record`; length-prefixed frames and 12-byte index entries |
| `store.dfy`, `index.dfy`, `segment.dfy`, `directory.dfy`, `log.dfy` | the classes of `internal/log`, field by field; `names.dfy`, `logfiles.dfy` and `stack.dfy` hold what their proofs need about file names, directory contents and open segments |
| `model.dfy`, `truncation.dfy`, `partition.dfy`, `replay.dfy`, `whole.dfy`, `capacity.dfy` | a log as a value, a sequence of segments; its invariant; truncation; the greedy partition; replaying appends; a truncated log against the untruncated one; when an append is refused |
| `runs.dfy` | whole runs of append, read, truncate and close-then-reopen against the simple log: a lowest offset and a sequence of records |
| `reader.dfy`, `snapshot.dfy`, `fsm.dfy`, `replicas.dfy`, `recovery.dfy`, `appending.dfy` | the lock-free reader among appends; the snapshot stream and its parser; `Apply` and `Restore`; replicas; replicas that catch up or restart |
| `entry.dfy`, `pebble.dfy`, `logstore.dfy`, `raftstores.dfy` | the two Raft log stores and their agreement |
| `server.dfy` | `ConsumeStream` and `ProduceStream`, alone and among other clients |

A segment as a value is `Seg(base, recs, junk)`: `recs` are stored and indexed, `junk` are frames that
an append stored before it found the index full (`internal/log/segment.go:64-70`). Each class carries
such a value as ghost state, `Valid()` says that its bytes are exactly the bytes of the value, and each
method gives the new value as a function of the old one. The theorems are about those functions.

Standing assumptions: I/O succeeds; a file is the bytes written to it, and a buffered write may pass any
part of what is pending to the file; `MaxStoreBytes` is at most 2^62 and `MaxIndexBytes` at most 12 times
2^32 (`LogModel.Supported`; `IndexFile.LookupNeeds32Bits` shows what breaks beyond); the 64-bit offsets do
not run out; a log is opened on a directory that is empty or was left by `Close` under the same limits.
For replicas, Raft's State Machine Safety (section 5.4.3 of the extended Raft paper) is the environment:
each applies a prefix of one command sequence, each command once.

## What turned out not to hold

- A `MaxIndexBytes` that is no multiple of 12 can wedge a log for good: the index is full, neither limit
  is reached, so no rotation happens and every later append fails. `Capacity.RefusalIff` gives the exact
  condition, `Capacity.StuckForever` the consequence; the defaults of 1024 are such limits
  (`Capacity.DefaultsStick`).
- `Reset` removes the log's directory and then lists it, which is an error; so `Restore` succeeds exactly
  on the empty stream, and any record in the stream costs the replica its files
  (`Logs.Log.ResetAsWritten`, `Fsm.RestoreAsWritten`). What follows about `Restore` is with `Reset` as it
  is meant.
- The snapshot of a log that refused an append cannot be restored: the frame left behind is in the
  stream (`Fsm.SnapshotTransfers`, `Fsm.SnapshotOfRun`, among appends `Fsm.SnapshotUnderAppends`;
  `Fsm.SnapshotCanFail` gives the run for all limits that can stick). Under other limits it can be, and
  the refused records come back (`Fsm.SnapshotAcrossLimits`).
- The snapshot of an empty log is an empty stream, and restoring it leaves the replica's own records in
  place (`Fsm.SnapshotTransfers`).
- `Snapshot` hands out a lazy reader, so records appended later can be in the stream. A replica restored
  from it and then given the commands after the snapshot's index holds those records at two offsets
  (`Recovery.CatchUpTwice`, for every append command `Recovery.CatchUpDuplicates`). It equals the source
  exactly when no append came before a read (`Recovery.CatchUpIff`). The same happens when a node without
  a snapshot comes back to the log it had (`Recovery.RestartIff`).
- A `ConsumeStream` whose next offset is truncated away never sends anything again
  (`Server.OvertakenForever`).
- `Restore` takes a length field of 2^63 or more as an empty body, so it accepts more than complete frames
  (`Snapshots.ParseIff`, `Snapshots.ParseFramesIff`, `Snapshots.HugeLengthAccepted`).
- `segment.Read` finds a record for some offsets outside the segment: for the one just below the base in
  64 bits, which is the "last entry" sentinel of the index, and for those that agree with an offset of
  the segment in the low 32 bits of the distance to the base. `Segments.ReadSegmentIff` gives the exact
  condition, `Segments.MisledOffsets` two such offsets of every non-empty segment; `Log.Read` asks for
  none of them.
- Pebble's `DeleteRange` with the largest index as its upper end deletes nothing
  (`Pebble.DeleteRangeMeetsItsName`).
- The two stores' first indexes differ at the start, 1 against 0 (`RaftStores.FirstIndexesAtStart`), and
  after deletions that end inside a segment; `RaftStores.FirstIndexesIff` says, from what was stored and
  deleted, exactly when they are equal.
- The comment on `Truncate` speaks of segments whose highest offset is lower than `lowest`; the code also
  removes one that ends at `lowest` (`Truncation.TruncateMeetsItsComment` has the exact condition,
  `Truncation.TruncateRemovesItsEnd` the inputs), and the active segment too when `lowest` is the highest
  offset or above (`Truncation.TruncateEmpties`). At 2^64-1 the bound wraps around and nothing is removed
  (`Truncation.TruncateMeetsItsName`).

## Model

| member | source | states |
|---|---|---|
| Runs.ReadsBackAppends | internal/log/log.go:77-106 | in every run, reading an offset that an append returned gives that append's value, term and type under that offset, or out of range, and then a truncation in between reached it |
| Runs.StepRefines | internal/log/log.go:77-165 | every operation on the segments is a step of the simple log: append adds a record of the same value, term and type under the next offset or is refused without effect, read looks up, truncate drops a prefix not above `lowest` |
| Runs.Execute | internal/log/log.go:39-165 | a whole run on the log objects and files gives the states and replies of the model |
| Runs.Perform | internal/log/log.go:39-165 | one operation on the log objects and files, close-then-reopen included |
| Runs.AppendsNumbered | internal/log/log.go:77-90 | an append gets the run's first offset plus the number of appends accepted before it |
| Runs.RunCounts | internal/log/log.go:77-165 | over a run the lowest offset only rises and the next offset counts the accepted appends |
| Runs.RunsExist | internal/log/log.go:77-165 | every sequence of operations is a run as long as offsets are left and no truncation reaches the next offset |
| Runs.RunIsGreedy | internal/log/log.go:39-165 | after any run the segments are, frames of refused appends aside, those of the greedy partition of the start's and all accepted records that end above the highest truncation |
| Runs.UntruncatedRecords | internal/log/log.go:77-165 | the run without its truncations leaves the start's records and every accepted one |
| Runs.FramesIff | internal/log/segment.go:64-70 | a run leaves an unindexed frame exactly when it refused an append |
| Runs.RunNeverRefuses | internal/log/index.go:85-88 | unless a segment at the first base can stick, no append of any run is refused |
| Logs.Reopen | internal/log/log.go:39-117 | closing any log and opening its directory again restores every segment, the active one and the next offset |
| Logs.Log.constructor | internal/log/log.go:25-37 | zero limits take the defaults; the log is the one its directory holds, or fresh at the initial offset |
| Logs.Log.Setup | internal/log/log.go:39-65 | parsing, sorting and skipping every second base rebuilds exactly the segments the directory holds |
| Logs.Log.NewSegment | internal/log/log.go:67-75 | the segment is added last, is the active one, and its two files exist |
| Logs.Log.Append | internal/log/log.go:77-90 | stamps the caller's record and changes nothing else in it; the log grows by it, rotating at a limit; fails exactly when the index is full, leaving every record and the next offset |
| Logs.Log.Read | internal/log/log.go:92-106 | the record at a live offset, the out-of-range error exactly outside the live interval, never a decoding failure |
| Logs.Log.Close | internal/log/log.go:108-117 | the directory then holds every segment's bytes and nothing else |
| Logs.Log.ResetAsWritten | internal/log/log.go:119-131 | as written it always returns an error, with the files gone |
| Logs.Log.Reset | internal/log/log.go:126-131 | as it is meant the log starts afresh at the initial offset |
| Logs.Log.LowestOffset | internal/log/log.go:133-137 | the lowest live offset |
| Logs.Log.HighestOffset | internal/log/log.go:139-147 | the highest offset in use, or 0 |
| Logs.Log.Truncate | internal/log/log.go:150-165 | keeps exactly the segments whose next offset is above `lowest+1` in 64 bits, deletes the files of the others; the log stays usable exactly unless all go |
| Truncation.KeepIsSuffix | internal/log/log.go:154-162 | what truncation removes is a prefix: exactly the segments whose next offset is at most `lowest+1` in 64 bits |
| Truncation.TruncateMeetsItsName | internal/log/log.go:149-165 | exactly the segments whose highest offset is at or below `lowest` go if and only if `lowest` is not 2^64-1 or the log is empty at offset 0; otherwise nothing goes |
| Truncation.TruncateMeetsItsComment | internal/log/log.go:149-165 | exactly the segments whose highest offset is lower than `lowest` go if and only if no segment ends at `lowest`, or, at 2^64-1, the log is empty at offset 0 |
| Truncation.TruncateRemovesItsEnd | internal/log/log.go:149-165 | truncating at a segment's highest offset removes it |
| Truncation.TruncateInv | internal/log/log.go:150-165 | the invariant and the active segment survive, the records lost are a prefix, the new lowest offset is bounded |
| Truncation.TruncateReads | internal/log/log.go:150-165 | every offset above `lowest` reads as before, nothing below the new lowest offset reads |
| Truncation.TruncateEmpties | internal/log/log.go:150-165 | all segments go exactly when `lowest+1`, in 64 bits, reaches the next offset |
| LogModel.AppendInv | internal/log/log.go:77-90 | appending keeps the invariant and the lowest offset and adds exactly the stamped record, or nothing when refused |
| LogModel.LookupLive | internal/log/log.go:92-106 | exactly the offsets from the lowest to the next hold a record |
| LogModel.HighestIsLive | internal/log/log.go:139-147 | the highest offset holds a record once there is one, and no offset above it does |
| LogModel.RecordsStamped | internal/log/segment.go:58-59 | every stored record carries its own offset |
| LogModel.RecordsSpan | internal/log/log.go:133-147 | the records fill the interval from the lowest to the next offset |
| Names.ParseDecimal | internal/log/log.go:47 | parsing the decimal file name gives the number back, up to 2^64-1 |
| Names.NamesParse | internal/log/log.go:46-48 | the base offset read off either file name of a segment is its base |
| Names.NamesExample | internal/log/segment.go:24-40 | the file names of a base offset |
| Names.ListingSorts | internal/log/log.go:44-58 | in whatever order the files are listed, the sorted bases are each base twice in increasing order |
| LogFiles.CloseOne | internal/log/log.go:111-115 | closing one more segment disturbs none of the files already written |
| Partition.PrefixAligned | internal/log/log.go:84-88 | a log of a beginning of the records has the same sealed segments, and its active one is a beginning of the next |
| Partition.GreedyUnique | internal/log/segment.go:91-94 | records and limits determine the partition: two logs with the same lowest offset and records have the same segments |
| Partition.PrefixBegins | internal/log/log.go:84-88 | such a log's segments are the beginning of the other's |
| Partition.RotationRule | internal/log/segment.go:91-94 | in bytes: a sealed segment reached the store or the index limit, and without its last record was below both; the active one is below both |
| Partition.AppendRule | internal/log/log.go:84-88 | in bytes: an append is accepted exactly when the index has room for 12 more, and starts a new segment exactly when store or index reach their limit with it |
| Partition.SealedIsShortest | internal/log/segment.go:91-94 | a sealed segment crosses a limit on its last record and on none before |
| Partition.StoreOvershoot | internal/log/segment.go:91-94 | a sealed store exceeds its limit by less than its last frame, an open one is below it |
| Partition.PrefixAccepts | internal/log/index.go:85-88 | a log that holds only a beginning of another's records has index room for the next |
| Replays.ReplayRebuilds | internal/log/distributed/fsm.go:68-76 | replaying a log's records into a fresh log at its lowest offset rebuilds every segment and is never refused |
| Replays.ReplayAdds | internal/log/log.go:77-90 | accepted appends add exactly their records, numbered on, and leave no unindexed frame |
| Replays.TriedAdds | internal/log/log.go:77-90 | a loop that stops at the first refusal adds exactly the records accepted before it |
| Replays.AcceptedCountIs | internal/log/log.go:77-90 | their number is where acceptance ends, and all are accepted exactly when it is the whole |
| Replays.ReplayConcat | internal/log/log.go:77-90 | appending in two goes is appending in one |
| Whole.AppendCommutes | internal/log/log.go:77-90 | dropping a prefix of the segments commutes with an append |
| Whole.EndingTwice | internal/log/log.go:150-165 | truncating twice is truncating at the higher bound |
| Capacity.RefusalIff | internal/log/index.go:85-88 | some sequence of appends leads to a refusal exactly when the index limit is no multiple of 12 and that many shortest records stay below the store limit |
| Capacity.NeverSticks | internal/log/index.go:85-88 | outside that condition no log from that offset on ever refuses, also after truncations |
| Capacity.WholeEntriesAccept | internal/log/index.go:85-88 | with a multiple of 12 the active segment always has room |
| Capacity.StuckForever | internal/log/segment.go:64-70 | after a refusal nothing is ever added again, and every record stays |
| Capacity.OneTooMany | internal/log/segment.go:64-70 | where the index can fill, one more empty record leaves its frame behind unindexed |
| Capacity.DefaultsStick | internal/log/log.go:26-31 | the default limits meet the condition, after 85 empty records |
| Segments.IndexPointsAtFrames | internal/log/segment.go:57-73 | index entry i holds relative offset i and the position where a frame-by-frame scan finds frame i; the frames tile the store |
| Segments.ReadSegmentExact | internal/log/segment.go:75-89 | for every 64-bit offset, which record is read, or that none is: the last for the sentinel, else the one at the low 32 bits of the distance to the base |
| Segments.ReadSegmentIff | internal/log/segment.go:75-89 | the answer is the record of that offset, or nothing outside the segment, if and only if the offset is not a misled one |
| Segments.MisledOffsets | internal/log/index.go:70-76 | 2^32 above the base the first record is read, and just below the base the last one |
| Segments.Segment.constructor | internal/log/segment.go:19-55 | the segment is what its two files hold, the next offset recovered from the last index entry |
| Segments.Segment.Append | internal/log/segment.go:57-73 | indexes the stamped record, or leaves its frame unindexed and fails when the index is full |
| Segments.Segment.Read | internal/log/segment.go:75-89 | every offset but the misled ones reads exactly its record, or nothing outside the segment |
| Segments.Segment.IsMaxed | internal/log/segment.go:91-94 | true exactly when the store's or the index's bytes reach their limit |
| Segments.Segment.Remove | internal/log/segment.go:96-104 | deletes the segment's two files and no other |
| Segments.Segment.Close | internal/log/segment.go:106-111 | leaves both files' bytes in the directory, the index at its true size |
| IndexFile.Index.constructor | internal/log/index.go:23-47 | the entries of the file are kept and the mapping has the configured size |
| IndexFile.Index.Write | internal/log/index.go:85-94 | adds one entry in place, or refuses exactly when the mapping has no room |
| IndexFile.Index.Read | internal/log/index.go:66-83 | the entry asked for, the last one for -1, with the cast to 32 bits |
| IndexFile.Index.Close | internal/log/index.go:49-64 | the file holds exactly the entries |
| IndexFile.LookupExact | internal/log/index.go:66-83 | up to 2^32 entries, for every 64-bit argument: the last entry for -1, else the entry at its low 32 bits if there is one, else none |
| IndexFile.LookupNeeds32Bits | internal/log/index.go:70-75 | an entry is found at its own position exactly when its number fits in 32 bits |
| StoreFile.Store.Append | internal/log/store.go:43-60 | adds one frame to file plus buffer and returns its length and position |
| StoreFile.Store.Read | internal/log/store.go:67-83 | the frame at the position, buffered bytes included |
| StoreFile.Store.ReadAt | internal/log/store.go:88-96 | the bytes from the offset, end of file exactly when fewer than asked |
| StoreFile.Store.Close | internal/log/store.go:99-107 | every buffered byte reaches the file |
| Frames.FrameAtPosition | internal/log/store.go:67-83 | frame i is read back from its position, whatever follows |
| Frames.FrameAtIff | internal/log/store.go:67-83 | a read at a position gives a body exactly when its whole frame stands there |
| Frames.Layout | internal/log/store.go:12-18 | the bytes of a frame's length and of an index entry |
| Frames.ScanFinds | internal/log/store.go:43-60 | scanning frame by frame finds each frame at its position and ends at the last byte |
| RecordCodec.MarshalLayout | protos/log/v1/log.proto:30-35 | the fields' tags are field number times 8 plus wire type, in number order |
| RecordCodec.KindIsCut | protos/log/v1/log.proto:34 | a type beyond 32 bits is cut to them |
| RecordCodec.LastFieldWins | protos/log/v1/log.proto:30-35 | of two messages in a row the second's fields replace the first's |
| RecordCodec.UnmarshalMarshal | protos/log/v1/log.proto:30-35 | decoding a marshalled record gives it back |
| Bytes.BigEndianOrder | internal/raftpebble/util.go:28-37 | big-endian encoding is an order isomorphism onto byte-wise order |
| Bytes.BigEndianEncodes | internal/raftpebble/util.go:28-37 | every byte string is the encoding of the number it decodes to |
| Readers.ReaderDelivers | internal/log/log.go:168-187 | for every interleaving with appends and all buffer sizes the delivered bytes are whole frames of a gap-free run from the lowest offset, with everything held at opening |
| Readers.QuietReader | internal/log/log.go:168-187 | read alone to the end in chunks of any sizes, the stream is exactly what the stores hold |
| Readers.QuietRun | internal/log/log.go:168-187 | every log has such a run |
| Readers.LateReader | internal/log/log.go:168-187 | an append between opening and reading is in the stream |
| Readers.EndGrows | internal/log/log.go:168-187 | of a log that takes records, the last source ends longer than it was at opening exactly when an append came before a read |
| Readers.ReaderReplays | internal/log/log.go:168-187 | reading leaves the log as the appends alone do |
| Readers.OriginReader.Read | internal/log/log.go:183-187 | reads on from where the last read stopped, end of file exactly when the store gives fewer bytes |
| Readers.Reader | internal/log/log.go:168-176 | one reader at the start of every segment's store, in order |
| Snapshots.ParseIff | internal/log/distributed/fsm.go:53-79 | parsing succeeds exactly on a concatenation of complete decodable frames and lone length fields of 2^63 or more |
| Snapshots.ParseFramesIff | internal/log/distributed/fsm.go:53-79 | the stream is complete decodable frames only exactly when it parses and no length field met is 2^63 or more |
| Snapshots.CutIff | internal/log/distributed/fsm.go:54-63 | a stream that parses, cut anywhere, still parses exactly if the cut is between its frames or lone lengths |
| Snapshots.HugeLengthAccepted | internal/log/distributed/fsm.go:60-63 | a length of 2^63 is taken as an empty record |
| Snapshots.StreamRestores | internal/log/distributed/fsm.go:50-80 | a stream of a log's first records and perhaps frames of refused appends parses to them; replaying is accepted exactly without such frames, and rebuilds the first segments, all if all records are there |
| Fsm.RestoreAsWritten | internal/log/distributed/fsm.go:50-80 | with `Reset` as written, the outcome for every stream: success exactly on the empty one, failure at the first record with the files gone, otherwise the log untouched |
| Fsm.Restore | internal/log/distributed/fsm.go:50-80 | with `Reset` as it is meant, the outcome for every stream: refused, torn or undecodable, or restored; in each case the log is the one built from the records parsed up to the first refused one, untouched if there were none |
| Fsm.SnapshotTransfers | internal/log/distributed/fsm.go:50-86 | what a reader delivers of any log, restored over any state, makes the log equal to the source, segment by segment, exactly when the source holds no frame of a refused append; an empty log's snapshot changes nothing |
| Fsm.SnapshotOfRun | internal/log/distributed/fsm.go:50-86 | after any run from a fresh log the snapshot restores exactly when the run refused no append |
| Fsm.SnapshotCanFail | internal/log/distributed/fsm.go:50-86 | for all limits that can stick there is a run whose snapshot cannot be restored |
| Fsm.SnapshotUnderAppends | internal/log/distributed/fsm.go:50-86 | a snapshot taken among appends restores exactly when no frame of a refused append is in it, to the first records and segments of the source, at least those held when it was asked for |
| Fsm.SnapshotAcrossLimits | internal/log/distributed/fsm.go:50-80 | under limits that cannot stick any snapshot restores, with the refused records renumbered behind the others |
| Fsm.Apply | internal/log/distributed/fsm.go:26-47 | appends the decoded record and answers its offset; other commands change nothing |
| Fsm.ApplyAnswers | internal/log/distributed/fsm.go:26-47 | the answer to every command from its bytes; an append is answered with its error exactly when the log gains no record, otherwise the answered offset reads the record |
| Fsm.CommandRoundTrip | internal/log/distributed/distributed.go:150-178 | the state machine decodes exactly the record that `Append` submitted |
| Fsm.RequestsMerge | internal/log/distributed/fsm.go:36-42 | a request that carries two records appends their merge |
| Replicas.ReplicaIsIdeal | internal/log/distributed/fsm.go:26-47 | at every readable offset a replica holds the record the command sequence puts there, whatever its limits |
| Replicas.ReplicasAgree | internal/log/distributed/fsm.go:26-47 | two replicas with different limits and different prefixes never disagree on an offset readable on both |
| Replicas.ResponseNumbered | internal/log/distributed/distributed.go:150-187 | an append command's offset is the initial offset plus the number of append commands before it |
| Recovery.CatchUpIff | internal/log/distributed/fsm.go:26-86 | a replica restored from a snapshot asked for after i commands and given the others equals the source exactly when no append came before a read; otherwise it is further by the records taken in passing |
| Recovery.CatchUpTwice | internal/log/distributed/fsm.go:26-86 | the later commands' records all stand that many offsets further than on the source, and those taken in passing at their own offset as well |
| Recovery.TakenIs | internal/log/distributed/fsm.go:83-86 | the stream holds the source's records and the first of the later commands', at least one exactly when an append came before a read |
| Recovery.CatchUpDuplicates | internal/log/distributed/fsm.go:83-86 | every append command applied between asking for the snapshot and reading it has its record at two offsets |
| Recovery.RestartIff | internal/log/distributed/distributed.go:42-58 | a log kept over a restart and given all commands again equals the others' exactly when it held no append |
| Replicas.ReplayIsPrefix | internal/log/log.go:77-90 | whatever is refused, the records are the first of those asked for, in order |
| LogStores.LogStore.FirstIndex | internal/log/distributed/store.go:30-32 | the lowest offset |
| LogStores.LogStore.LastIndex | internal/log/distributed/store.go:48-50 | the highest offset in use |
| LogStores.LogStore.GetLog | internal/log/distributed/store.go:35-45 | data, offset, type and term of the record at the index; an entry exactly at the live indexes |
| LogStores.EntryAtIff | internal/log/distributed/store.go:35-45 | which indexes have an entry, and its fields |
| LogStores.LogStore.StoreLogs | internal/log/distributed/store.go:58-69 | appends the entries in order up to the first refused one, and fails exactly when there is one |
| LogStores.LogStore.DeleteRange | internal/log/distributed/store.go:25-27 | truncates up to the upper bound, ignoring the lower |
| RaftEntries.EntryRoundTrip | internal/raftpebble/util.go:11-25 | decoding an encoded entry gives it back |
| RaftStores.StoresAgree | internal/log/distributed/store.go:25-69 | over every run as Raft uses them, the Pebble store holds exactly the indexes not deleted, the segment store returns the same entry for each, the last indexes are equal, its first index is never larger |
| RaftStores.FirstIndexesAtStart | internal/log/distributed/store.go:30-32 | before anything is stored the first indexes are 1 and 0 |
| RaftStores.FirstIndexesIff | internal/log/distributed/store.go:25-32 | over every such run the first indexes are equal exactly when something was stored and, in the partition of everything ever stored, a segment begins right after the highest index deleted, or at 1; otherwise they differ by less than a segment |
| RaftStores.StoresLeft | internal/log/distributed/store.go:25-69 | over every such run the segments are those, of everything ever stored, that end above the highest deletion |
| Pebble.Store.FirstIndex | internal/raftpebble/store.go:173-192 | the smallest stored index, or 0 |
| Pebble.Store.LastIndex | internal/raftpebble/store.go:199-218 | the largest stored index, or 0 |
| Pebble.Store.GetLog | internal/raftpebble/store.go:222-239 | the entry stored under the index, or not found |
| Pebble.Store.StoreLog | internal/raftpebble/store.go:248-257 | one entry is stored, settings untouched |
| Pebble.Store.StoreLogs | internal/raftpebble/store.go:260-282 | the entries are stored, later ones replacing earlier of the same index, settings untouched |
| Pebble.OverlayIs | internal/raftpebble/store.go:260-282 | of several entries of one index the last one stays, all other indexes keep theirs |
| Pebble.Store.DeleteRange | internal/raftpebble/store.go:285-293 | exactly the inclusive range goes, nothing at the largest index, settings untouched |
| Pebble.Store.Set | internal/raftpebble/store.go:296-301 | one setting changes, entries untouched |
| Pebble.Store.Get | internal/raftpebble/store.go:305-325 | the value set under the key, or not found |
| Pebble.Store.SetUint64 | internal/raftpebble/store.go:328-330 | one setting holds the number's eight bytes |
| Pebble.Store.GetUint64 | internal/raftpebble/store.go:333-347 | the number that was set; a shorter value panics |
| Pebble.PrefixesApart | internal/raftpebble/store.go:13-14 | the iterator bounds hold every log key and no setting key, not even the empty one |
| Pebble.LogKeyOrder | internal/raftpebble/util.go:33-37 | log keys sort as their indexes |
| Pebble.DeletedExactly | internal/raftpebble/store.go:285-293 | which log keys the deleted key range covers, and that it covers no setting |
| Pebble.DeleteRangeMeetsItsName | internal/raftpebble/store.go:284-293 | the inclusive range is deleted exactly when its upper end is not the largest index |
| Server.ConsumeStream | internal/server/log.go:57-87 | on a quiet log exactly the records of consecutive offsets from the requested one, each carrying its offset, as many as the rounds and the log allow |
| Server.ConsumeOnce | internal/server/log.go:67-84 | one round of the handler is the round of the stream among other clients |
| Server.ConsumerGetsRun | internal/server/log.go:57-87 | for every interleaving with other clients the records sent are those of consecutive offsets from the requested one, no gap, no duplicate |
| Server.OvertakenForever | internal/server/log.go:62-86 | a stream whose next offset was truncated away sends nothing more, whatever happens later |
| Server.PollSendsIff | internal/server/log.go:67-84 | a round sends a record exactly when the log holds the offset asked for |
| Server.ProduceStream | internal/server/log.go:104-130 | one response per accepted append with consecutive offsets up to the first refused one, which is the last tried; what the log then holds |
| Server.ProducedIsHeld | internal/server/log.go:89-130 | an answered record is in the log at the answered offset until that is truncated away |
| Server.RefusedCloses | internal/server/log.go:116-123 | a stream whose record is refused gets no answer and is over |
| Server.ProducersShareInterval | internal/server/log.go:89-130 | for any interleaving of streams each one's responses increase and every offset of the interval is the response of exactly one stream |

## Left out

- Logs.Log.Reset: states what `Reset` is for; `Logs.Log.ResetAsWritten` is the code.
- Fsm.Restore: rests on that `Reset`; `Fsm.RestoreAsWritten` is the code.
- Readers.ReaderDelivers: the stream is read through `originReader.Read`; `io.Copy` in `snapshot.Persist` may bypass it through the embedded file's own copy method. Truncation during a read is not modelled either.
- RecordCodec.UnmarshalMarshal: a message with fields other than the declared ones does not decode in the model, where protobuf skips them; values are below 2 GiB as protobuf requires.
- RaftEntries.EntryRoundTrip: stands for the MessagePack codec with a fixed-width encoding; extensions and append time of an entry are not modelled.
- RaftStores.StoresAgree: is about successful stores and deletions of a prefix below the last index, the only ones the segment store supports, since it ignores the lower bound.
- Pebble.Store.Get: a stored empty value counts as present.
- Logs.Log.Setup: foreign files in the directory, and an index file left at its padded size by a crash, are not modelled.
- Recovery.CatchUpIff: that Raft fixes a snapshot's index when `Snapshot` returns and hands on the commands after it is taken from Raft. It is about limits under which nothing is refused (`Fsm.SnapshotUnderAppends` says when restoring fails under others) and streams that hold a record (others reset nothing).
- Recovery.RestartIff: that Raft hands a node without a snapshot all commands again is taken from Raft; limits as before.
- Appends after the active segment was truncated away.
- `StoreLog` of the segment store, `newLogStore`, `Snapshot` and `Release`: one-line wrappers.
- Raft elections, transport, `Join`, `Leave`, `WaitForLeader`; Serf membership; agent, TLS, authorization, telemetry, logging, CLI; the deprecated replicator; Pebble tuning; `nearestMultiple`, which nothing calls.
