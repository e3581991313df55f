# Verified model of the raft core of etcd-cr

A Dafny 4.11 model of the parts of etcd-cr that decide whether a cluster stays correct: the two-tier
raft log and its storage, quorums and membership changes, the election clock, bootstrap and Ready, the
protobuf codec of the raft messages, request ids and wait lists. `dafny verify dfyconfig.toml` checks
the whole project.

Code that computes is a function. Code that changes things step by step is a method or a class whose
contract ties the new state to a function of the old one; the laws are then proved about those
functions, for every input or every run. Randomness and time are parameters. A panic is a precondition,
and where a law depends on not panicking, the exact condition is proved.

| file | contents |
|---|---|
| `Prelude.dfy`, `Bits.dfy` | optional values, results, machine words; bit operations |
| `Wire.dfy`, `WireMerge.dfy`, `RaftPb.dfy` | wire format, its merge law, raft messages |
| `RaftPbBytes.dfy`, `RaftPbRoundTrip.dfy` | the bytes of every message, size and round-trip laws |
| `RaftPbAccepted.dfy`, `RaftPbMerge.dfy` | what comes off the wire; embedded messages in parts |
| `WireBuffer.dfy` | the same codec as loops over byte buffers |
| `Storage.dfy` | `MemoryStorage` on values, and as a growable array shared with its readers |
| `RaftLog.dfy`, `RaftLogObject.dfy`, `LogRuns.dfy` | storage overlaid by the unstable tail: operations, objects, whole runs |
| `Quorum.dfy`, `Tracker.dfy` | vote tallying |
| `ConfChange.dfy`, `ConfChangeObject.dfy` | the one-voter membership change on values and on shared maps |
| `Election.dfy` | terms, votes, campaigns, ticks |
| `Bootstrap.dfy`, `RawReady.dfy`, `RaftObject.dfy` | first start, Ready, and `raft`/`RawNode` as objects |
| `IdGen.dfy`, `Wait.dfy` | request ids and wait lists |

Where the code and what it promises differ, the model follows the code, shows the failing case and
proves when the promise holds:

- `append` computes `ents[0].Index - 1` in uint64, so an entry with index 0 passes the check that protects
  committed entries and tears the log. It is safe exactly when the first index is not 0
  (`AppendSafeExactly`).
- `stableTo` compares index and term only. It leaves one log, and the same log, exactly when the
  acknowledgement is stale, or storage reaches the acknowledged index, goes no further if the tail is then
  empty, and holds the entries of the tail up to it (`AckKeepsLogExactly`). Otherwise a stored entry comes
  back or an entry is lost (`AckBringsBackAnOldEntry`, `AckBeforeWriteLosesTheEntry`). Over runs Log Matching
  guarantees the condition, and without it the log changes (`AckNeedsLogMatching`).
- `hasNextEnts` adds 1 to the commit index in uint64: a committed entry that is not applied is next exactly
  as long as the commit index is not 2^64 - 1 (`NextIsIntendedExactly`, `LastEntryIsNeverNext`).
- A campaign in the last uint64 term wraps the term to 0 and the node forgets a vote; terms and votes
  are safe exactly as long as that does not happen (`RunTermVote`, `WrapForgetsVote`).
- `Bootstrap` panics exactly when its first peer has id 0; later zero ids are passed over
  (`BootstrapMembers`).
- `Config.Clone` drops AutoLeave, so `Simple` does not notice a stray one on the way in
  (`SimpleExactly`, `StrayAutoLeaveIsAccepted`).
- `StartNode` ignores the error of `Bootstrap`: over a storage that is not empty it starts a node without
  members that has nothing ready and never campaigns (`StartNode`).
- Nothing records that a Ready's entries and hard state were handled, so they are offered again
  (`AcceptedOnce`); an application that saves them all the same has the current hard state after every Ready
  it handles (`DiskFollows`).
- The ids of one generator are distinct for exactly 2^48 calls; the bound on restarts is exact as well
  (`DistinctExactly`, `RestartDisjointExactly`).

## Model

| member | source | states |
|---|---|---|
| `Wire.VarintLength` | raft/raftpb/raft.pb.go:988-997 | sovRaft is exactly the number of bytes encodeVarintRaft writes |
| `Wire.VarintRoundTrip` | raft/raftpb/raft.pb.go:816-824 | every uint64 is read back from its varint, in front of any bytes |
| `Wire.ReadShape` | raft/raftpb/raft.pb.go:1007-1020 | the read loop accepts every base-128 varint of at most ten bytes, minimal or not, with the value modulo 2^64 |
| `Wire.ReadAccepts` | raft/raftpb/raft.pb.go:1007-1020 | and it accepts nothing else |
| `Wire.ReadFails` | raft/raftpb/raft.pb.go:1007-1020 | which error: overflow for ten bytes that all go on, otherwise the end of the input |
| `Wire.SkipRejects` | raft/raftpb/raft.pb.go:2473-2571 | which error skipRaft gives for a bad wire type, number or length |
| `Wire.SkipGroupRejects` | raft/raftpb/raft.pb.go:2532-2560 | and for a group that ends too early |
| `Wire.SkipStepsOverField` | raft/raftpb/raft.pb.go:2473-2571 | skipRaft steps over exactly one well-formed field, nested groups included, whatever follows |
| `Wire.SkipAcceptsOnlyFields` | raft/raftpb/raft.pb.go:2473-2571 | whatever skipRaft accepts within the buffer, other than a bare end-group tag, is a well-formed field |
| `Wire.SkipIsExactlyTheFieldGrammar` | raft/raftpb/raft.pb.go:2473-2571 | both directions at once against a grammar defined without the parser |
| `Wire.DecodeRejects` | raft/raftpb/raft.pb.go:1021-1133 | which error Unmarshal gives for an end-group tag, a bad number, a wrong wire type or an unknown field past the end |
| `Wire.DelimitedRejects` | raft/raftpb/raft.pb.go:1823-1884 | and for a length of 2^63 or more or past the end |
| `Wire.DecodeEmitted` | raft/raftpb/raft.pb.go:1001-1139 | decoding printed fields loads exactly those fields and goes on with the rest, for every message type |
| `Wire.DecodeUnknown` | raft/raftpb/raft.pb.go:1118-1132 | a run of unknown fields is kept verbatim |
| `Wire.DecodeEmittedThenUnknown` | raft/raftpb/raft.pb.go:1001-1139 | the generic round trip: known fields loaded, unknown bytes kept |
| `WireMerge.DecodeMerges` | raft/raftpb/raft.pb.go:1001-1139 | whatever a buffer is accepted as, the bytes behind it are read into that: two buffers one after the other are their concatenation, for every message type |
| `RaftPbBytes.EntryBytes` | raft/raftpb/raft.pb.go:449-473 | the bytes of an Entry, tag after tag |
| `RaftPbBytes.HardStateBytes` | raft/raftpb/raft.pb.go:634-652 | the bytes of a HardState |
| `RaftPbBytes.ConfChangeBytes` | raft/raftpb/raft.pb.go:721-745 | the bytes of a ConfChange |
| `RaftPbBytes.ConfStateBytes` | raft/raftpb/raft.pb.go:664-709 | the bytes of a ConfState |
| `RaftPbBytes.MetadataBytes` | raft/raftpb/raft.pb.go:485-508 | the bytes of snapshot metadata |
| `RaftPbBytes.SnapshotBytes` | raft/raftpb/raft.pb.go:520-543 | the bytes of a Snapshot |
| `RaftPbBytes.MessageBytes` | raft/raftpb/raft.pb.go:555-622 | the bytes of a Message |
| `RaftPbRoundTrip.KnownNumbers` | raft/raftpb/raft.pb.go:1001-2251 | which field numbers each message type knows and how it reads them |
| `RaftPbRoundTrip.AnyNumberIsTrue` | raft/raftpb/raft.pb.go:1371-1685 | a boolean field is true for every number but 0 |
| `RaftPbMerge.SnapshotMerges` | raft/raftpb/raft.pb.go:1371-1685 | a message's snapshot sent in two parts is read as if sent in one |
| `RaftPbMerge.MetadataMerges` | raft/raftpb/raft.pb.go:1259-1370 | the same for a snapshot's metadata |
| `RaftPbMerge.ConfStateMerges` | raft/raftpb/raft.pb.go:1140-1258 | the same for the ConfState of metadata |
| `RaftPbRoundTrip.EntrySizeExact` | raft/raftpb/raft.pb.go:825-840 | Entry.Size is the length of the encoding |
| `RaftPbRoundTrip.HardStateSizeExact` | raft/raftpb/raft.pb.go:899-910 | HardState.Size is the length of the encoding |
| `RaftPbRoundTrip.ConfChangeSizeExact` | raft/raftpb/raft.pb.go:941-956 | ConfChange.Size is the length of the encoding |
| `RaftPbRoundTrip.ConfStateSizeExact` | raft/raftpb/raft.pb.go:911-940 | ConfState.Size is the length of the encoding |
| `RaftPbRoundTrip.MetadataSizeExact` | raft/raftpb/raft.pb.go:841-853 | SnapshotMetadata.Size is the length of the encoding |
| `RaftPbRoundTrip.SnapshotSizeExact` | raft/raftpb/raft.pb.go:854-868 | Snapshot.Size is the length of the encoding |
| `RaftPbRoundTrip.MessageSizeExact` | raft/raftpb/raft.pb.go:869-898 | Message.Size is the length of the encoding, nested parts included |
| `RaftPbRoundTrip.EntryRoundTrip` | raft/raftpb/raft.pb.go:449-473 | an Entry survives the wire, its unknown bytes and nil or empty data included |
| `RaftPbRoundTrip.EntryKeepsUnknownFields` | raft/raftpb/raft.pb.go:1001-1139 | an unknown run behind a marshalled Entry is kept, and marshalling again repeats the bytes |
| `RaftPbRoundTrip.HardStateRoundTrip` | raft/raftpb/raft.pb.go:1686-1793 | a HardState survives the wire |
| `RaftPbRoundTrip.ConfChangeRoundTrip` | raft/raftpb/raft.pb.go:2113-2251 | a ConfChange survives the wire |
| `RaftPbRoundTrip.ConfStateRoundTrip` | raft/raftpb/raft.pb.go:1794-2112 | a ConfState with its four repeated fields survives the wire |
| `RaftPbRoundTrip.PackedIsUnpacked` | raft/raftpb/raft.pb.go:1823-1884 | a packed list and the same list sent field by field are read the same, for each list of a ConfState |
| `RaftPbRoundTrip.MetadataRoundTrip` | raft/raftpb/raft.pb.go:1140-1258 | snapshot metadata survive the wire |
| `RaftPbRoundTrip.SnapshotRoundTrip` | raft/raftpb/raft.pb.go:1259-1370 | a Snapshot survives the wire |
| `RaftPbRoundTrip.MessageRoundTrip` | raft/raftpb/raft.pb.go:1371-1685 | a Message survives the wire with every nested entry, snapshot, metadata and ConfState |
| `RaftPbAccepted.AcceptedEntry` | raft/raftpb/raft.pb.go:1001-1139 | whatever bytes are accepted as an Entry, marshalling the result and reading it again changes nothing |
| `RaftPbAccepted.AcceptedHardState` | raft/raftpb/raft.pb.go:1686-1793 | the same for HardState |
| `RaftPbAccepted.AcceptedConfChange` | raft/raftpb/raft.pb.go:2113-2251 | the same for ConfChange |
| `RaftPbAccepted.AcceptedConfState` | raft/raftpb/raft.pb.go:1794-2112 | the same for ConfState |
| `RaftPbAccepted.AcceptedMetadata` | raft/raftpb/raft.pb.go:1140-1258 | the same for SnapshotMetadata |
| `RaftPbAccepted.AcceptedSnapshot` | raft/raftpb/raft.pb.go:1259-1370 | the same for Snapshot |
| `RaftPbAccepted.AcceptedMessage` | raft/raftpb/raft.pb.go:1371-1685 | the same for Message: all its nested parts are well-formed |
| `WireBuffer.EncodeVarint` | raft/raftpb/raft.pb.go:816-824 | the loop writes exactly the varint at the offset and touches nothing else |
| `WireBuffer.SovRaft` | raft/raftpb/raft.pb.go:988-997 | the counting loop computes the varint length |
| `WireBuffer.MarshalTo` | raft/raftpb/raft.pb.go:555-622 | field after field, the buffer's front becomes the encoding and the rest stays |
| `WireBuffer.MarshalEntry` | raft/raftpb/raft.pb.go:439-473 | a buffer of exactly Size bytes holding the encoding of the entry |
| `WireBuffer.MarshalMessage` | raft/raftpb/raft.pb.go:545-622 | a buffer of exactly Size bytes holding the encoding of the message |
| `WireBuffer.MarshalConfChange` | raft/raftpb/raft.pb.go:711-745 | a buffer of exactly Size bytes holding the encoding of the change |
| `WireBuffer.ReadVarintAt` | raft/raftpb/raft.pb.go:1007-1020 | the loop that shifts and ors into a uint64 reads what the varint reader specifies, errors included |
| `WireBuffer.SkipRaft` | raft/raftpb/raft.pb.go:2473-2571 | the skipping code agrees with the specification on every input but the empty one, on which it panics |
| `WireBuffer.SkipRaftGroup` | raft/raftpb/raft.pb.go:2532-2560 | its loop over a group does too |
| `WireBuffer.Unmarshal` | raft/raftpb/raft.pb.go:1001-1139 | the indexed field loop decodes as the specification does, errors included |
| `WireBuffer.UnmarshalField` | raft/raftpb/raft.pb.go:1004-1133 | one turn of that loop: tag checks, known field or skipped bytes |
| `WireBuffer.UnmarshalPacked` | raft/raftpb/raft.pb.go:1841-1881 | the loop over a packed repeated field |
| `Storage.LimitSizeExact` | raft/util.go:40-53 | limitSize is the longest prefix within the limit, never empty for a non-empty input: an if-and-only-if |
| `Storage.LimitOfPrefix` | raft/util.go:40-53 | a limit that cuts a prefix short cuts the whole at the same place |
| `Storage.LimitSizeLoop` | raft/util.go:40-53 | the accumulating loop computes it |
| `Storage.AppendExactly` | raft/storage.go:223-255 | Append index by index: the batch decides everything from its first index on, the log below it and what is compacted stay |
| `Storage.TermExactly` | raft/storage.go:112-123 | both errors, and otherwise the term of the entry with that index |
| `Storage.EntriesExactly` | raft/storage.go:92-109 | both errors, and otherwise the entries from lo on, as many as the limit allows and at least one |
| `Storage.CompactExactly` | raft/storage.go:200-218 | refuses exactly what is compacted; otherwise index by index, and the dummy entry keeps index and term only |
| `Storage.CreateSnapshotExactly` | raft/storage.go:178-197 | out of date exactly when not newer; otherwise index, term, data and ConfState of the snapshot |
| `Storage.ApplySnapshotExactly` | raft/storage.go:160-175 | out of date exactly when not newer; otherwise only index and term remain |
| `Storage.CompactKeepsAnswers` | raft/storage.go:200-218 | Compact(i) changes no answer above i: Term, LastIndex, every range, every limit |
| `Storage.SnapshotPlusTailCopies` | raft/storage.go:160-255 | a storage that applies a snapshot made at i and appends the entries after i answers like the source |
| `Storage.MemoryStorage.constructor` | raft/storage.go:70-76 | a new storage holds only the dummy entry |
| `Storage.MemoryStorage.Entries` | raft/storage.go:92-109 | the specified range as a slice of the backing array, or the specified error, in the order the code checks |
| `Storage.MemoryStorage.Term` | raft/storage.go:112-123 | the term of a stored index, compacted and unavailable cases told apart; 2^63 or more past the first index it panics |
| `Storage.MemoryStorage.Append` | raft/storage.go:223-255 | truncates and extends in place or in a new array; every slice handed out still shows what its reader saw |
| `Storage.MemoryStorage.Compact` | raft/storage.go:200-218 | the compacted log in a new array; readers unaffected |
| `Storage.MemoryStorage.CreateSnapshot` | raft/storage.go:178-197 | out of date, whatever the log holds, or the snapshot of index i with its term |
| `Storage.MemoryStorage.ApplySnapshot` | raft/storage.go:160-175 | replaces the log by the snapshot's dummy entry, or out of date; readers unaffected |
| `Storage.MemoryStorage.Run` | raft/storage.go:92-255 | over any run of operations, errors included, up to one that panics or gets a batch that is not contiguous, the state is the specified one and no element an earlier reader can see changes |
| `RaftLog.NewLog` | raft/log.go:36-63 | a new log shows exactly its storage, and committed and applied are its first index less one |
| `RaftLog.NewLogIsUncommitted` | raft/log.go:56-60 | nothing of a new log is next, and everything behind the dummy entry may be overwritten |
| `RaftLog.AppendView` | raft/log.go:88-97 | append cuts the one log before the first new index and continues with the new entries, in all three branches |
| `RaftLog.AppendKeepsCommitted` | raft/log.go:88-97 | an append that passes its guard keeps every entry at or below committed |
| `RaftLog.AppendAtIndexZero` | raft/log.go:92-94 | a first index of 0 passes the guard and tears the log |
| `RaftLog.AppendSafeExactly` | raft/log.go:88-97 | append keeps the log whole if and only if the first index is not 0 |
| `RaftLog.AppendTearsAFreshLog` | raft/log.go:88-97 | a concrete log and entry for which it does not |
| `RaftLog.StaleAckIsIgnored` | raft/log_unstable.go:60-73 | an acknowledgement of an overwritten, truncated or already stable entry does nothing; any other moves the offset |
| `RaftLog.AckJoinedExactly` | raft/log_unstable.go:60-73 | the tiers stay joined if and only if the acknowledgement is stale, or there is no pending snapshot and storage reaches it, and no further if the tail is then empty |
| `RaftLog.AckKeepsLogExactly` | raft/log_unstable.go:60-73 | on every joined log: one log, and the same, if and only if stale, or joined as above with storage holding the entries of the tail up to it |
| `RaftLog.AckOfLastStored` | raft/log_unstable.go:60-73 | as in the runs, when the acknowledged entry is the last stored one |
| `RaftLog.AckBringsBackAnOldEntry` | raft/log_unstable.go:68-72 | storage agrees up to the acknowledged entry but goes on: what lies behind is back in the log |
| `RaftLog.AckBeforeWriteLosesTheEntry` | raft/log_unstable.go:68-72 | an entry acknowledged before it is written is in neither tier |
| `RaftLog.TermAgrees` | raft/log.go:162-182 | term agrees with the one log, dummy index included, and is 0 outside it |
| `RaftLog.SliceAgrees` | raft/log.go:185-223 | slice is limitSize of the range of the one log, however the tiers divide it and storage cuts it short |
| `RaftLog.HasNextEntsExactly` | raft/log.go:109-126 | hasNextEnts holds if and only if nextEnts is non-empty, for every limit; it is then contiguous and within committed |
| `RaftLog.NextIsIntendedExactly` | raft/log.go:109-126 | entries from max(applied+1, firstIndex) to committed are next if and only if there are any and committed is not 2^64 - 1 |
| `RaftLog.LastEntryIsNeverNext` | raft/log.go:123-126 | a log whose committed and unapplied last entry is not next |
| `RaftLogObject.Unstable.MaybeTerm` | raft/log_unstable.go:38-57 | the term of an unstable index, snapshot included |
| `RaftLogObject.Unstable.StableTo` | raft/log_unstable.go:60-73 | drops the acknowledged entries as specified, shrinking the array or not; batches handed out keep showing what they showed |
| `RaftLogObject.Unstable.TruncateAndAppend` | raft/log_unstable.go:94-114 | the three branches as specified, on a slice of an array; batches handed out keep showing what they showed |
| `RaftLogObject.Unstable.Slice` | raft/log_unstable.go:116-119 | a part of the entries that shares their array |
| `RaftLogObject.Unstable.Shrink` | raft/log_unstable.go:79-92 | the same entries, in the same array or a fresh one |
| `RaftLogObject.Unstable.Run` | raft/log_unstable.go:60-119 | over any run of operations on the tail the state is the specified one and no batch that was ever handed out changes |
| `RaftLogObject.RaftLog.constructor` | raft/log.go:36-63 | a log over a storage, as specified |
| `RaftLogObject.RaftLog.Append` | raft/log.go:88-97 | keeps the log valid and gives the cut and continued log; returns its last index |
| `RaftLogObject.RaftLog.StableTo` | raft/log.go:150 | the log is valid and the same if and only if the condition above holds; readers are unaffected in any case |
| `RaftLogObject.RaftLog.Term` | raft/log.go:162-182 | never an error: the entry's term inside the log, 0 outside |
| `RaftLogObject.RaftLog.Slice` | raft/log.go:185-223 | ErrCompacted below firstIndex, otherwise limitSize of the range |
| `RaftLogObject.RaftLog.NextEnts` | raft/log.go:109-120 | the specified committed entries; the log stays as it is |
| `RaftLogObject.RaftLog.HasNextEnts` | raft/log.go:123-126 | as specified |
| `LogRuns.NewState` | raft/log.go:36-63 | a new log over any storage starts the runs and shows that storage |
| `LogRuns.BatchCanBeWritten` | raft/storage.go:243-253 | a pending batch can always be written: MemoryStorage.Append finds no gap before it |
| `LogRuns.StepKeepsInv` | raft/log_unstable.go:60-114 | append, taking, writing and acknowledging a batch, commit and compaction keep the tiers one contiguous log |
| `LogRuns.StepKeepsLog` | raft/log_unstable.go:60-73 | under Log Matching only append changes the log |
| `LogRuns.StepKeepsCommitted` | raft/log.go:88-97 | no step changes a committed entry; compaction only forgets |
| `LogRuns.RunKeepsInv` | raft/log_unstable.go:60-114 | over every run, Log Matching or not: contiguous, firstIndex-1 <= committed <= lastIndex |
| `LogRuns.RunShowsIdeal` | raft/log_unstable.go:60-114 | after every run under Log Matching the tiers show exactly the log that its appends alone give, apart from what compaction forgot |
| `LogRuns.NewLogShowsIdeal` | raft/log.go:36-63 | in particular from a new log over any storage |
| `LogRuns.TrimJoinedExactly` | raft/storage.go:200-218 | compacting keeps the tiers joined if and only if it stays below the tail's offset |
| `LogRuns.RunKeepsCommitted` | raft/log.go:88-97 | over every run under Log Matching nothing committed is lost |
| `LogRuns.PersistenceIsInvisible` | raft/storage.go:200-255 | every run of persistence, acknowledgement, commits and compaction shows one and the same log |
| `LogRuns.RewrittenIsReached` | raft/log_unstable.go:94-114 | a run of four steps reaches a written batch whose entry the tail has replaced |
| `LogRuns.AckNeedsLogMatching` | raft/log_unstable.go:60-73 | there, without Log Matching, acknowledging changes the log |
| `Quorum.MajorityVoteResult` | raft/quorum/majority.go:44-76 | the counting loop computes the majority verdict |
| `Quorum.Slice` | raft/quorum/majority.go:31-38 | the ids in ascending order, each once |
| `Quorum.ListIsUnique` | raft/quorum/majority.go:31-38 | there is only one such list, whatever order the map is visited in |
| `Quorum.HalfEmptyJointIsSimple` | raft/quorum/joint.go:27-41 | with an empty second half the joint verdict is the majority's |
| `Quorum.JointVerdictExact` | raft/quorum/joint.go:27-41 | Won and Lost mean every completion of the votes ends so; Pending means some win and some lose |
| `Quorum.DecidedStaysDecided` | raft/quorum/joint.go:27-41 | more votes never change a decided result |
| `Quorum.WinnersOverlap` | raft/quorum/majority.go:44-76 | wins under configurations at most one voter apart share a yes-voter of both |
| `Quorum.WinnersMeetExactly` | raft/quorum/majority.go:44-76 | winners under two configurations always share a yes-voter if and only if their two majorities together exceed all voters |
| `Quorum.DisjointWinners` | raft/quorum/majority.go:44-76 | otherwise, for any such configurations, two vote maps win with no yes-voter in common |
| `Quorum.JointWinnersOverlap` | raft/quorum/joint.go:27-41 | two wins under one joint configuration share a yes-voter in each non-empty half |
| `Tracker.ProgressTracker.constructor` | raft/tracker/tracker.go:79-95 | an empty simple configuration |
| `Tracker.ProgressTracker.VisitOrder` | raft/tracker/tracker.go:128-149 | the buffer filled from the back lists every tracked id and no other |
| `Tracker.ProgressTracker.ResetAll` | raft/raft.go:364-374 | visiting every progress resets each of them, the node's own to the last index, and keeps learner marks |
| `Tracker.ProgressTracker.RecordVote` | raft/tracker/tracker.go:182-187 | the first vote of a peer counts |
| `Tracker.ProgressTracker.TallyVotes` | raft/tracker/tracker.go:191-213 | exact counts among tracked non-learners, and the joint verdict |
| `Tracker.ProgressTracker.ConfState` | raft/tracker/tracker.go:98-106 | the four sorted lists and the flag of the configuration |
| `Tracker.ConfStateIsUnique` | raft/tracker/tracker.go:98-106 | a configuration has one ConfState |
| `Tracker.FirstBallotCounts` | raft/tracker/tracker.go:182-187 | whatever ballots come in, a peer's vote is its first, yes or no |
| `Tracker.OutcomeIsFinal` | raft/tracker/tracker.go:177-213 | between resets no run of ballots, repeated or contradictory, changes a decided outcome |
| `Tracker.CountsDecide` | raft/tracker/tracker.go:191-213 | when exactly the voters are tracked, the counts decide: Won iff granted >= n/2+1, Lost iff n - rejected < n/2+1 |
| `ConfChange.ApplyAllEnlarges` | raft/confchange/confchange.go:47-118 | any supported list of changes amounts to adding a set of voters at once |
| `ConfChange.SimpleExactly` | raft/confchange/confchange.go:24-42 | when Simple fails and what it yields, for every tracker and every list; the result is consistent again |
| `ConfChange.InconsistentExactly` | raft/confchange/confchange.go:123-179 | what checkInvariants complains about, one complaint after the other |
| `ConfChange.SupportedTypes` | raft/confchange/confchange.go:47-72 | which change types are supported, and which add a voter |
| `ConfChange.SimpleFailsWith` | raft/confchange/confchange.go:24-42 | which error Simple gives, in the order of its checks |
| `ConfChange.NewVotersStartFresh` | raft/confchange/confchange.go:75-118 | the progress of a new voter, field by field; nobody else's moves |
| `ConfChange.PromotionClearsLearners` | raft/confchange/confchange.go:219-228 | promoting the last learner leaves a nil map |
| `ConfChange.StrayAutoLeaveIsAccepted` | raft/tracker/tracker.go:48-64 | an inconsistent configuration that Simple takes nevertheless |
| `ConfChange.SimpleKeepsQuorumsOverlapping` | raft/confchange/confchange.go:24-42 | winners before and after a change share a yes-voter who belongs to both configurations |
| `ConfChange.RunKeepsVotersOnly` | raft/raft.go:539-571 | after any run of changes and resets the tracked ids are exactly the voters and none is a learner |
| `ConfChange.ReachableCountsDecide` | raft/tracker/tracker.go:191-213 | so the counts decide every election in every reachable configuration |
| `ConfChangeObject.CloneConfig` | raft/tracker/tracker.go:48-64 | fresh, separate maps with the same contents, AutoLeave dropped |
| `ConfChangeObject.CopyProgress` | raft/confchange/confchange.go:184-194 | fresh records, no two shared, with the same contents |
| `ConfChangeObject.AddVoter` | raft/confchange/confchange.go:75-118 | makeVoter in place: new record or promoted learner, as specified |
| `ConfChangeObject.ApplyChanges` | raft/confchange/confchange.go:47-72 | the loop in place agrees with the specification, errors included |
| `ConfChangeObject.CheckInvariants` | raft/confchange/confchange.go:123-179 | the loops decide exactly the consistency of a configuration, nil maps told from empty ones |
| `ConfChangeObject.CountSymDiff` | raft/confchange/confchange.go:231-245 | the two counting loops give the size of the symmetric difference |
| `ConfChangeObject.CheckAndCopy` | raft/confchange/confchange.go:184-203 | copies everything and checks the copy |
| `ConfChangeObject.SimpleChange` | raft/confchange/confchange.go:24-42 | agrees with the specification on shared maps and changes nothing of the tracker it was given |
| `Election.CampaignLeaves` | raft/raft.go:348-415 | every field of a node after it starts a campaign, the progress of each peer included |
| `Election.FollowerLeaves` | raft/raft.go:348-401 | every field of a node after becomeFollower, the progress of each peer included |
| `Election.OnlyHupMatters` | raft/raft.go:467-508 | which messages change a node |
| `Election.LeaderTicks` | raft/raft.go:382-391 | a leader's clock goes round without a campaign |
| `Election.SwitchLeaves` | raft/raft.go:565-588 | a node is a learner exactly when it is tracked as one |
| `Election.LoggedLeaves` | raft/raft.go:364-374 | growth of the log changes only what the next reset starts from |
| `Election.StepTermVote` | raft/raft.go:348-353 | the term falls if and only if a campaign wraps it; the vote changes only with the term |
| `Election.RunTermVote` | raft/raft.go:394-508 | over every run the term never falls, if and only if no campaign wraps it; then the vote is fixed within a term |
| `Election.WrapForgetsVote` | raft/raft.go:404-415 | past the last term a two-step run forgets a vote within its term |
| `Election.OwnVoteWinsExactly` | raft/raft.go:418-454 | a voter's campaign is won by its own vote if and only if it is the only voter, joint or not |
| `Election.RunKeepsSelfVoting` | raft/raft.go:394-508 | in every run a node votes only for itself, a candidate stays a voter, and nobody leads |
| `Election.CandidateHasWonExactly` | raft/raft.go:440-465 | in every run of a new node a candidate has won if and only if it is the only voter |
| `Election.TickBounds` | raft/raft.go:382-391 | the same pace from any moment within a timeout |
| `Election.TicksAddTerms` | raft/raft.go:382-415 | ticks raise the term by their campaigns, and change nothing but the clock without one |
| `Election.ElectionPace` | raft/raft.go:382-391 | after a reset k ticks make c campaigns with c*T <= k < (c+1)*(2T-1), whatever is drawn, and raise the term by c |
| `Election.ElectionPaceIsExact` | raft/raft.go:516-520 | every k and c within these bounds occur for some draws |
| `Election.FastForwardIsQuiet` | etcdserver/server.go:432-444 | at most T-1 ticks after a reset move only the clock |
| `Election.LoneVoterWinsInTime` | raft/raft.go:382-454 | within 2T-1 ticks a voter is a candidate, and has won if and only if it is the only voter |
| `Bootstrap.AsV2Exactly` | raft/raftpb/confchange.go:34-42 | one change with the type and the node id |
| `Bootstrap.JoinBytes` | raft/bootstrap.go:33-34 | the six bytes that announce a peer with a small id and no context |
| `Bootstrap.ReplayIsApply` | raft/bootstrap.go:30-61 | from any configuration, decoding and replaying the entries does what applying the peers does, panics included |
| `Bootstrap.ApplyPeersExactly` | raft/bootstrap.go:49-61 | applying peers adds exactly their non-zero ids, and fails exactly on a leading zero id |
| `Bootstrap.BootstrapMembers` | raft/bootstrap.go:11-64 | panics if and only if the first id is 0; otherwise voters are the ids, and the log replays to the same voters and progress |
| `Bootstrap.BootstrapLog` | raft/bootstrap.go:43-45 | on an empty storage append accepts the entries, and committed = lastIndex = number of peers |
| `Bootstrap.BootsWhole` | raft/bootstrap.go:11-64 | log, members and replay together: entry i has term 1 and index i+1 and decodes to the addition of peer i with its context; the voters are the ids given, each with a new progress |
| `RawReady.HasReadyExactly` | raft/rawnode.go:63-81 | HasReady if and only if the Ready has a non-empty part, MustSync aside |
| `RawReady.HasReadyWhen` | raft/rawnode.go:63-81 | when HasReady holds, field by field |
| `RawReady.ReadyCarries` | raft/node.go:362-382 | every part of a Ready is the node's own, field by field |
| `RawReady.AcceptedOnce` | raft/rawnode.go:52-60 | accepting takes soft state, messages and read states off the next Ready and nothing else |
| `RawReady.SyncedExactly` | raft/node.go:386-393 | MustSync if and only if there are entries, a new term or a new vote; these two come with the node's term, vote and commit index; without MustSync only the commit index has moved |
| `RawReady.HandledReadyIsSaved` | raft/node.go:368-373 | if the disk lies between what the node started from and what it is, a handled Ready leaves it with the node's term, vote and commit index |
| `RawReady.DiskFollows` | raft/node.go:362-382 | over every run of node operations, log changes and handled Readies the disk does lie there, and holds the node's term, vote and commit index after every handled Ready |
| `RawReady.NewNodeIsBehind` | raft/rawnode.go:14-26 | a new node begins such runs |
| `RawReady.HardStatesFollow` | raft/raft.go:330-337 | what precedes a node goes on preceding it, over every run in which no term wraps |
| `RawReady.BootstrapIsOffered` | raft/node.go:362-382 | a bootstrapped node offers all its entries, the hard state and a non-empty first part for applying |
| `RaftObject.Raft.constructor` | raft/raft.go:252-319 | a follower at term 0 over an empty configuration |
| `RaftObject.Raft.Reset` | raft/raft.go:348-379 | as specified |
| `RaftObject.Raft.BecomeFollower` | raft/raft.go:394-401 | as specified |
| `RaftObject.Raft.BecomeCandidate` | raft/raft.go:404-415 | as specified, the next term wrapping around |
| `RaftObject.Raft.Poll` | raft/raft.go:457-465 | records the vote and tallies |
| `RaftObject.Raft.Campaign` | raft/raft.go:418-454 | as specified, and for a voter: won if and only if it is the only one |
| `RaftObject.Raft.Promotable` | raft/raft.go:532-536 | tracked and not a learner |
| `RaftObject.Raft.Step` | raft/raft.go:467-508 | only MsgHup to a promotable non-leader campaigns |
| `RaftObject.Raft.TickElection` | raft/raft.go:382-391 | as specified |
| `RaftObject.Raft.AdvanceTicks` | etcdserver/raft.go:174-178 | that many ticks; fewer than T after a reset move only the clock |
| `RaftObject.Raft.SwitchToConfig` | raft/raft.go:565-588 | takes over configuration and progress, and returns the ConfState |
| `RaftObject.Raft.ApplyConfChange` | raft/raft.go:539-588 | switches to what Simple yields and returns its ConfState |
| `RaftObject.RawNode.constructor` | raft/rawnode.go:14-26 | remembers the current soft and hard state |
| `RaftObject.RawNode.HasReady` | raft/rawnode.go:63-81 | the cascade of checks is true if and only if the Ready is non-empty |
| `RaftObject.RawNode.ReadyWithoutAccept` | raft/node.go:362-382 | builds the specified Ready and changes nothing |
| `RaftObject.RawNode.AcceptReady` | raft/rawnode.go:52-60 | as specified |
| `RaftObject.RawNode.TakeReady` | raft/rawnode.go:37-41 | returns the Ready and accepts it |
| `RaftObject.RawNode.Bootstrap` | raft/bootstrap.go:11-64 | both errors leave the node as it is; otherwise log and members are as above, at term 1 |
| `RaftObject.StartNode` | raft/node.go:156-168 | on an empty storage a node whose first Ready carries every entry of its peers; otherwise one without members and with nothing ready |
| `Bits.AndMask` | pkg/idutil/id.go:49-51 | masking bit by bit is the remainder modulo a power of two |
| `Bits.OrDisjoint` | pkg/idutil/id.go:43-47 | or-ing a shifted prefix with a shorter suffix is addition |
| `Bits.GroupIsAdded` | raft/raftpb/raft.pb.go:1016 | or-ing the next shifted group of seven bits into a uint64 adds it modulo 2^64, the tenth group included |
| `Bits.MoreFollows` | raft/raftpb/raft.pb.go:816-824 | the continuation byte and the right shift of encodeVarintRaft as arithmetic |
| `IdGen.LowbitIsMod` | pkg/idutil/id.go:49-51 | lowbit keeps the n low bits, for every n up to 64 |
| `IdGen.Generator.constructor` | pkg/idutil/id.go:31-40 | prefix and suffix in closed form |
| `IdGen.Generator.Next` | pkg/idutil/id.go:43-47 | the id in closed form |
| `IdGen.IdLayout` | pkg/idutil/id.go:15-40 | an id is two bytes of member, five of time and one of counter |
| `IdGen.DrawnAt` | pkg/idutil/id.go:43-47 | the i-th id of a run, although the counter wraps at 64 bits and the id at 48 |
| `IdGen.MembersNeverCollide` | pkg/idutil/id.go:31-47 | ids of different members differ |
| `IdGen.DistinctExactly` | pkg/idutil/id.go:43-47 | n ids are distinct if and only if n <= 2^48 |
| `IdGen.RestartDisjointExactly` | pkg/idutil/id.go:31-47 | a restart d ms later repeats no id if and only if the old run ends before the new start and the new one before coming round |
| `IdGen.RestartDisjoint` | pkg/idutil/id.go:31-47 | in particular when n <= 256d and 256d + m <= 2^48 |
| `Wait.List.Register` | pkg/wait/wait.go:28-39 | opens a channel for an id that is not waiting |
| `Wait.List.Trigger` | pkg/wait/wait.go:41-50 | delivers and closes at most once, and never blocks |
| `Wait.PanicsExactly` | pkg/wait/wait.go:28-39 | a run panics if and only if it registers an id that is still waiting |
| `Wait.DrawnIdsNeverPanic` | etcdserver/v3_server.go:75-104 | registering any of the first 2^48 ids of a generator, in any order and leaving out any, never panics, whatever is triggered in between |
| `Wait.RestartedIdsNeverPanic` | pkg/wait/wait.go:28-39 | nor does registering ids from before and after a restart within its bounds |
| `Wait.DeliveredExactly` | pkg/wait/wait.go:28-50 | a waiter's channel holds exactly the first later trigger's value, and is open and empty before |
| `Wait.TimeList.Wait` | pkg/wait/wait_time.go:31-43 | the channel for a deadline, closed already when the last trigger reached it |
| `Wait.TimeList.Trigger` | pkg/wait/wait_time.go:45-55 | closes every due channel, each of them open until then |
| `Wait.ClosedExactly` | pkg/wait/wait_time.go:31-55 | in every run a channel for x is closed if and only if the last trigger before or some trigger after its Wait reached x, and once |

## Left out

- RaftLogObject.Unstable.TruncateAndAppend: takes the new entries as a value; a caller that goes on using the slice it passed, or passes one that shares an array with a batch, is not modelled.
- RaftLog.NewLog: a last index of 2^64 - 1, for which lastIndex + 1 would wrap around; the same holds for the other sums of log indices and lengths, but not for the guard of append, hasNextEnts and nextEnts, which wrap as in the code.
- WireBuffer.MarshalMessage: nested messages are encoded first and then copied, while the original writes them in place; the bytes are the same.
- WireBuffer.Unmarshal: lengths are natural numbers, so machine overflow of buffer positions is not modelled; encodings are shorter than 2^63 bytes.
- WireBuffer.UnmarshalField: the same, for the end of a length-delimited field.
- RaftObject.Raft.ApplyConfChange: calls the membership change on values (its form on shared maps is proved equal); the branches of a leader are not modelled.
- RaftObject.Raft.constructor: reading a persisted hard state, as loadState only prints it; a restarted node forgets term and vote.
- Election.RunTermVote: pre-vote, whose campaign panics in voteRespMsgType, and overflow of the tick counter.
- Progress fields that no running code assigns, Inflights, and the read-only queue.
- Leader behaviour, replication, joint enter and leave, Restore, Advance and appliedTo: commented out.
- node.run and all goroutines, channels and locks, except the two wait lists.
- ConfChangeV2 and ConfChangeSingle on the wire, and the other generated protobuf files: the same patterns again.
- wal, mvcc, lease, snap, rafthttp, embed, v3rpc, flags, logging and metrics: stubs, wrappers and wiring.
