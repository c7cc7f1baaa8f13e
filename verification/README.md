# lopen: a verified model of the daemon's data path

lopen lets a shell on a remote host open a file on the machine the user sits
at. A client (`internal/client`) sends a request and the file over a forwarded
connection; the daemon (`internal/daemon`) stages what arrives, installs it in a
local mirror (`internal/mirror`) and hands it to an opener. This project models
how bytes arrive, where they land and what the mirror keeps, and proves what
those components promise, for every input, every failure and every interleaving.

`dafny verify dfyconfig.toml` checks everything.

## Files

| file | what it models |
|---|---|
| `Basics.dfy` | bytes and optional values |
| `Paths.dfy` | names, their lexical normal form, `SafeJoin`, mirror keys |
| `FileSystem.dfy` | the disk: a map from component paths to files, directories and other nodes, with mkdir, rename, recursive removal and mtimes |
| `SyncIndex.dfy` | the index class and the modified-since-sync test |
| `Promotion.dfy` | `Promote` as the disks it passes through, and the overwrite guard |
| `Retention.dfy` | the eviction loop of `GC` |
| `Prune.dfy` | pruning empty directories to a fixpoint |
| `Mirror.dfy` | the mirror class: disk and index changed in place |
| `MirrorRuns.dfy` | whole runs of the mirror |
| `Framing.dfy` | the chunk framing, writer and reader |
| `Lines.dfy` | header and event lines |
| `TarStream.dfy` | `Pack` and `Unpack` |
| `ShellQuote.dfy` | `shQuote` and a POSIX shell lexer |
| `Pulling.dfy` | the cap of a pulled file |
| `SlotLocks.dfy` | the per-slot mutexes and the request semaphore |
| `Conversation.dfy` | one inline file transfer, both sides, the connection and other requests between any two steps |
| `Outcomes.dfy` | what whole runs of a conversation come to |
| `Progress.dfy` | what can always happen next in a conversation, and several requests on one slot |

Code that works step by step is modelled by classes and loops proved against
specification functions; the properties are then proved of those functions.
Concurrent code is a state machine whose steps are single accesses to shared
state. Failures (of renames, removals, reads, the disk, the connection), the
clock, the files in use and the opener are parameters, so each theorem ranges
over all of them.

## Where the code does less than it seems to

The model follows the code. Each difference is stated exactly.

- A request header of exactly 64 KiB is sent and always refused:
  `Lines.HeaderIsReadBackIff`.
- `Promote` calls its replacement atomic, but between its two renames the slot is
  absent, with the old copy whole in the aside directory:
  `Promotion.SlotIsAbsentIff`, `Outcomes.TransferIsAtomic`.
- When both the second rename of a promote and its rollback fail, the slot stays
  empty and the old copy is under `.staging`, where the sweep of a later
  collection may remove it: `Promotion.SlotIsEmptiedIff`,
  `MirrorCache.Mirror.SweepStaging`.
- The overwrite guard looks at and below the slot only. An edit that is recorded
  only by a directory entry above the slot is not seen:
  `Promotion.GuardCoversOverlapsIff`.
- Pruning an empty directory inside a synced directory can make it look edited,
  so that the next unforced open is refused: `Prune.PruneFlagsIff` says when,
  `Prune.PruneFlagsAnUneditedSlot` is a witness.
- A pinned label keeps its entries and files, but a collection prunes its empty
  directories: `MirrorCache.PinnedCollection` says which,
  `MirrorCache.PinnedEmptyDirGoes` is a witness.
- GC drops an entry that is already gone from disk without lowering its running
  total, which is from then on too high by that entry's size
  (`Retention.GapIsGone`). It can therefore evict an entry within its TTL although
  the index already fits the cap: `Retention.EvictsUnderCapIff` says when,
  `Retention.GoneEntryEvictsAnother` and `Retention.SuchAPair` are a witness.
- The index goes on counting the bytes of a slot that a promote has emptied, or
  that a failed eviction has half removed: `MirrorRuns.StepKeepsAccount` says
  exactly when its total stops being the bytes on disk,
  `MirrorRuns.HalfEvictionBreaksTheAccount` is a witness.
- Index entries are not an antichain: a directory entry may lie inside another
  entry. `SyncIndex.DirSyncKeepsAntichainIff` and
  `SyncIndex.FileSyncKeepsAntichainIff` say when a sync makes it so,
  `SyncIndex.NestedDirsCoexist` is a witness. What always holds is
  `SyncIndex.ReachableIndexIsShaped`.
- `ChunkReader` passes on an EOF that arrives together with data. On such a
  transport a stream cut right after a chunk is taken for a complete one:
  `Framing.TruncationUnnoticedIff`.
- A directory with a backslash in any packed name cannot be transferred:
  `TarStream.PackThenUnpack`.

## Model

| member | source | states |
|---|---|---|
| `Paths.SafeJoinIsWalk` | internal/tarstream/tarstream.go:163-181 | a name is accepted exactly when it is non-empty, relative, free of NUL and backslash, and no prefix of its components climbs above the start; the result is then where a component-by-component walk from the root ends, below the root, with no "." or ".." |
| `Paths.RefusalIs` | internal/tarstream/tarstream.go:163-181 | which error a refused name gets: for what is wrong with its characters, with its first character, or with where its walk goes |
| `Paths.AcceptedWalkStaysBelow` | internal/tarstream/tarstream.go:152-155 | every directory passed on the way of an accepted name is at or below the root |
| `Paths.SafeJoinDependsOnNormalForm` | internal/tarstream/tarstream.go:176-180 | two accepted names are joined alike exactly when they normalise alike |
| `Paths.PrefixIsStrictlyBelow` | internal/index/index.go:100 | for every two strings, the index's prefix-plus-slash test is the relation "strictly below" on component paths |
| `Paths.RelIsLabelledWalk` | internal/mirror/mirror.go:35-44 | a key exists exactly for the acceptable paths that do not normalise to the root, after at most one leading slash is dropped, and the refusal of the root is an error of its own; the key is the label followed by the walk, with at least two components |
| `SyncIndex.Index.Touch` | internal/index/index.go:72-80 | an existing entry is used now, with its key, kind, size, fingerprint and last sync unchanged; every other entry is unchanged and none appears |
| `SyncIndex.TouchMovesLastUse` | internal/index/index.go:72-80 | the same of the function by which runs are described |
| `SyncIndex.SyncReplaces` | internal/mirror/mirror.go:142-152 | after a sync the new entry is there with what was recorded, synced and used now; of the others exactly those strictly below a directory, or the directories strictly above a file, are gone, and the rest is unchanged |
| `SyncIndex.TouchedIsListedLast` | internal/index/index.go:214-223 | an entry touched after all others were used is the last candidate for eviction |
| `SyncIndex.Index.Descendants` | internal/index/index.go:95-105 | lists every entry at or below the prefix, each once, and nothing else |
| `SyncIndex.DescendantsAreSubtree` | internal/index/index.go:92-105 | the entries listed for a prefix are exactly those whose path lies in the subtree a promote replaces |
| `SyncIndex.Index.DeleteDescendantsOf` | internal/index/index.go:117-131 | exactly the entries strictly below the prefix are gone |
| `SyncIndex.Index.DeleteAncestorDirsOf` | internal/index/index.go:138-152 | exactly the directory entries strictly above are gone |
| `SyncIndex.DirFingerprint` | internal/index/index.go:193-211 | fails exactly when the root is missing or something at or below it cannot be read; otherwise the sum of all regular-file sizes and the newest mtime there, in any visiting order |
| `SyncIndex.LocallyModified` | internal/index/index.go:170-189 | true exactly when the slot exists and can be read, and its size total differs or something in it is more than two seconds newer than recorded |
| `SyncIndex.Index.Candidates` | internal/index/index.go:214-223 | every entry once, least recently used first |
| `SyncIndex.Index.TotalBytes` | internal/index/index.go:226-234 | the sum of all recorded sizes, in any order |
| `SyncIndex.SyncedKeepsShape` | internal/mirror/mirror.go:142-152 | recording a sync leaves no file entry strictly below a directory entry and only labelled keys |
| `SyncIndex.ReachableIndexIsShaped` | internal/mirror/mirror.go:142-152 | from an empty index, after any run of syncs, touches and evictions, no directory entry has a file entry below it and every key is a valid label followed by at least one component |
| `SyncIndex.DirSyncKeepsAntichainIff` | internal/index/index.go:117-131 | recording a directory in an index where no entry contains another leaves it so exactly when no entry lies above the directory |
| `SyncIndex.FileSyncKeepsAntichainIff` | internal/index/index.go:138-152 | the same for a file, exactly when no file entry lies above it and no entry below |
| `SyncIndex.NestedDirsCoexist` | internal/mirror/mirror.go:142-151 | two syncs after which a directory entry lies inside another |
| `Promotion.PromoteIsCrashSafe` | internal/mirror/mirror.go:100-130 | in every disk state of a promote, including those of making the directories above and of a half-done removal of the aside directory, whichever steps fail, the slot is the whole new copy, or the whole old copy is at the slot or in its aside directory, or there was none and is none; outside the slot and .staging only directories above the slot appear or change mtime; and the result tells which case holds at the end |
| `Promotion.ReplaceIsCrashSafe` | internal/mirror/mirror.go:110-130 | the same for a slot that is taken, with and without a rollback that succeeds |
| `Promotion.SlotIsAbsentIff` | internal/mirror/mirror.go:111-122 | a slot that was taken is absent in some disk state of a promote exactly when the promote gets as far as its first rename |
| `Promotion.SlotIsEmptiedIff` | internal/mirror/mirror.go:117-127 | a promote takes the old copy out of its slot for good exactly when it was moved aside and neither the install nor the rollback succeeds |
| `Promotion.PromoteCleansUp` | internal/mirror/mirror.go:112-130 | a promote that succeeds, or whose first rename fails, leaves nothing of its aside directory but what nodes that cannot be unlinked hold there |
| `Promotion.FingerprintDetects` | internal/mirror/mirror.go:132-141 | from its promote on, a slot is reported modified exactly when its byte total changed or some node in it is more than the slop newer than at the sync; an untouched slot never is |
| `Promotion.GuardIs` | internal/mirror/mirror.go:54-64 | the guard passes exactly when forced or when no entry in the subtree that the request replaces is modified |
| `Promotion.GuardProtects` | internal/mirror/mirror.go:54-64 | after an unforced check passes, no modified entry lies at or below the slot, and no disk state of the promote changes a modified entry that does not contain the slot |
| `Promotion.GuardCoversOverlapsIff` | internal/mirror/mirror.go:48-58 | the guard covers every overlapping entry on every disk exactly when no entry lies strictly above the slot |
| `MirrorCache.Mirror.CheckOverwrite` | internal/mirror/mirror.go:54-64 | with force it always passes; without, it passes exactly when no entry whose path is at or below the slot is modified |
| `MirrorCache.Mirror.Promote` | internal/mirror/mirror.go:100-153 | the disk and index after a promote for every combination of failing steps; on failure the index is unchanged, on success the fingerprint recorded is that of the installed tree |
| `MirrorCache.Mirror.Touch` | internal/daemon/server.go:314 | the class invariant, with the shape of the index, survives a re-open, which moves only the last use |
| `MirrorCache.Mirror.MoveIntoPlace` | internal/mirror/mirror.go:101-130 | the renames in place leave exactly the last disk of the step-by-step account |
| `MirrorCache.Mirror.SweepStaging` | internal/mirror/mirror.go:81-96 | what lies away from stale children of .staging is unchanged; of each stale child exactly that is left which a node that cannot be unlinked holds in place |
| `MirrorCache.StaleIs` | internal/mirror/mirror.go:81-96 | what is swept lies directly in .staging and is more than an hour old |
| `MirrorCache.Mirror.PruneEmptyDirs` | internal/mirror/mirror.go:209-234 | terminates, and in every visiting order ends with exactly the nodes that are not empty-directory trees outside .staging |
| `MirrorCache.Mirror.GC` | internal/mirror/mirror.go:165-207 | one collection is the sweep, the pass over all candidates in order of use, and the prune; nothing outside .staging changes before the pass, and of every stale child of .staging exactly what cannot be unlinked is left |
| `MirrorCache.Mirror.Consider` | internal/mirror/mirror.go:174-204 | the loop body does to disk, index and result what `Retention.CandidateOutcome` spells out |
| `Retention.CandidateOutcome` | internal/mirror/mirror.go:174-204 | what becomes of one candidate in each case: not due, pinned, gone, edited, in use, removed in full or in part; on disk, in the index, in both lists and in both totals |
| `Retention.EditedSurvives` | internal/mirror/mirror.go:190-193 | a candidate that is edited when its turn comes stays in the index and out of the removed list, with its subtree unchanged by the visit; and it is reported as retained when it was due and not pinned |
| `Retention.InUseSurvives` | internal/mirror/mirror.go:194-196 | the same survival for a candidate whose file is open |
| `Retention.RetainedWasEdited` | internal/mirror/mirror.go:190-193 | every name in the retained list is a candidate that was edited when its turn came |
| `Retention.EvictedIff` | internal/mirror/mirror.go:174-204 | a candidate is evicted exactly when it is due, not pinned, on disk, unedited, not in use and nothing at or below it is undeletable |
| `Retention.TouchedIsNotExpired` | internal/mirror/mirror.go:176-180 | an entry touched within the TTL of a collection is not expired in it |
| `Retention.ReachesTarget` | internal/mirror/mirror.go:174-204 | afterwards the index fits the cap or every survivor was pinned, edited, in use or undeletable; and every survivor past its TTL was |
| `Retention.EvictsOldestFirst` | internal/mirror/mirror.go:174-204 | when an entry is evicted, every entry used strictly earlier is gone or was spared |
| `Retention.GapIsGone` | internal/mirror/mirror.go:185-189 | at every point of the pass the running total is the index total plus the recorded sizes of the entries that were found gone from disk |
| `Retention.NoGreedierThanNeeded` | internal/mirror/mirror.go:176-180 | an entry within its TTL is evicted only while the running total, which is the index total plus what was found gone, is above the cap |
| `Retention.EvictsUnderCapIff` | internal/mirror/mirror.go:176-189 | of the entries within their TTL that nothing else protects, one is evicted although the index already fits the cap exactly when the cap lies below the index total plus what was found gone |
| `Retention.GoneEntryEvictsAnother` | internal/mirror/mirror.go:185-189 | whenever the older of two entries is gone from disk and the two together exceed a cap that the younger alone fits, the younger is evicted |
| `Retention.SuchAPair` | internal/mirror/mirror.go:185-189 | a mirror in which that is so |
| `Retention.ReportsWhatItRemoved` | internal/mirror/mirror.go:200-203 | the removed list names exactly the evicted entries, each once, none of which is left; the bytes reported are the sum of their sizes, and the running total fell by just that |
| `Retention.RetainedUpTo` | internal/mirror/mirror.go:190-193 | the retained list names exactly the entries found locally modified |
| `Retention.DiskAt` | internal/mirror/mirror.go:197-200 | nothing is left at or below an evicted slot, and every file no removal reached is unchanged |
| `Retention.PinnedIsUntouched` | internal/mirror/mirror.go:181-184 | the eviction pass leaves a pinned label all its entries and every node of its subtree |
| `MirrorCache.PinnedCollection` | internal/mirror/mirror.go:165-207 | a whole collection leaves a pinned label its entries and every non-directory; it removes exactly those of its directories that pruning does not keep, and moves the mtime of exactly those it keeps that lose an entry |
| `MirrorCache.PinnedEmptyDirGoes` | internal/mirror/mirror.go:214-228 | an empty directory of a pinned label is one of them |
| `Prune.FixpointIsExact` | internal/mirror/mirror.go:209-234 | whenever no empty directory is left to remove, what is left is exactly the set of nodes that hold, at or below them, something other than prunable directories |
| `Prune.PruneKeepsBytes` | internal/mirror/mirror.go:216-228 | pruning keeps every non-directory and everything in .staging unchanged, and the byte total of every subtree |
| `Prune.PrunedIff` | internal/mirror/mirror.go:209-234 | a node goes exactly when it is a directory other than the root, outside every .staging, with nothing at or below it but directories that are not .staging and can be unlinked |
| `Prune.StagingSurvives` | internal/mirror/mirror.go:218-220 | nothing at or below the mirror's own .staging changes, empty or not |
| `Prune.PruneFlagsIff` | internal/mirror/mirror.go:221-225 | pruning makes an unedited directory entry look modified exactly when the slot survives, something strictly below it is pruned, and the prune is more than the slop later than the sync |
| `Prune.PruneFlagsAnUneditedSlot` | internal/mirror/mirror.go:221-225 | a concrete mirror in which it does |
| `FileSystem.RemovalLosesBytesIff` | internal/mirror/mirror.go:197-199 | a recursive removal takes bytes from a subtree exactly when there is a non-empty file in it that can be unlinked |
| `MirrorRuns.StepKeepsAccount` | internal/mirror/mirror.go:100-207 | after each promote, touch and collection, whatever fails, every file outside .staging is under an entry whose slot holds at most the recorded size; from a mirror whose slots are all whole the step leaves them whole exactly when it is neither a promote that strands a slot with bytes in it nor a collection that cannot remove some slot holding, before the collection, a non-empty file that can be unlinked |
| `MirrorRuns.Promoting` | internal/mirror/mirror.go:100-153 | a promote of the mirror class is a step of the runs these results are about |
| `MirrorRuns.Touching` | internal/index/index.go:72-80 | so is a re-open |
| `MirrorRuns.Collecting` | internal/mirror/mirror.go:165-207 | and so is a collection |
| `MirrorRuns.PassIsWholeIff` | internal/mirror/mirror.go:174-204 | one pass over a whole mirror leaves every remaining slot with its recorded size exactly when no candidate it fails to remove held a non-empty file that can be unlinked |
| `MirrorRuns.HalfEvictionBreaksTheAccount` | internal/mirror/mirror.go:197-199 | a collection after which the index counts more bytes than there are |
| `MirrorRuns.AccountIsExactIff` | internal/index/index.go:226-234 | TotalBytes is at least the bytes of the files outside .staging, and equal exactly when every slot is whole |
| `MirrorRuns.BytesAreConserved` | internal/mirror/mirror.go:100-207 | over every run from an empty mirror on slots that do not contain each other, every file outside .staging lies under exactly one entry, TotalBytes is at least the bytes on disk, equal exactly when every slot is whole, and so equal as long as no step has lost bytes of a slot |
| `Framing.ChunkWriter.Write` | internal/protocol/protocol.go:249-268 | the framing of the argument in chunks of at most 1 MiB goes out, or, on a connection that breaks, exactly the prefix that fits; the count returned is short exactly on failure |
| `Framing.Chunks` | internal/protocol/protocol.go:249-268 | every chunk of a write has between 1 byte and 1 MiB, and together they are the bytes written |
| `Framing.ChunksAreFull` | internal/protocol/protocol.go:249-268 | every chunk of a write but the last has exactly 1 MiB, so their number is the least possible |
| `Framing.ChunkReader.Read` | internal/protocol/protocol.go:296-328 | one call with any buffer and any short read does what the reader's state machine says, field by field |
| `Framing.HeaderDecides` | internal/protocol/protocol.go:301-317 | what a chunk header announces decides the read: zero ends the stream, up to one MiB opens a chunk if the cap allows it, more is refused; and how far the counters move |
| `Framing.OneMiBIsTheLimit` | internal/protocol/protocol.go:310-312 | the header bytes of the largest chunk and of the first that is too large |
| `Framing.DoneStaysDone` | internal/protocol/protocol.go:297-299 | after the end every read ends and takes nothing more from the transport |
| `Framing.Send` | internal/client/client.go:164-186 | any sequence of writes followed by Close puts out the framing of all of them, or, on a connection that breaks, exactly the prefix that fits |
| `Framing.CopyAll` | internal/daemon/server.go:335 | the copying loop over a chunk reader, for every script of buffers and short reads |
| `Framing.RoundTrip` | internal/protocol/protocol.go:249-328 | from the framing of any sequence of writes, through every choice of buffers and short reads, the reader delivers exactly what was written, ends cleanly, has counted it, and stands just after the terminator |
| `Framing.Transfer` | internal/protocol/protocol.go:241-328 | writer and reader together: every sequence of writes, closed, comes out of the reader whole |
| `Framing.StreamIsDelivered` | internal/protocol/protocol.go:296-328 | from any point inside a stream, what has been delivered is a prefix of the whole chunks that fit the cap, and the call that ends it ends it correctly |
| `Framing.CapIsExact` | internal/protocol/protocol.go:315-317 | a stream within the cap never meets it; a longer one delivers the longest prefix of whole chunks that fits, and then the cap error on that and every later read |
| `Framing.CleanEndIsComplete` | internal/protocol/protocol.go:301-327 | a clean end proves that the input held whole chunks and the terminator, and that exactly their bytes were delivered |
| `Framing.CleanCopyIsExact` | internal/protocol/protocol.go:296-328 | on any input at all, a copy that ends cleanly consumed one complete framed stream and delivered its bytes |
| `Framing.FramedIsPrefixFree` | internal/protocol/protocol.go:241-274 | no framed stream is a proper prefix of another, so a stream decodes in one way only |
| `Framing.TruncationIsDetected` | internal/protocol/protocol.go:301-327 | a stream cut anywhere before its end never ends cleanly |
| `Framing.TruncationUnnoticedIff` | internal/protocol/protocol.go:321-327 | over all transports, a cut goes unnoticed exactly when the transport reports EOF together with data and the cut falls right after a chunk |
| `Framing.EagerCutLooksClean` | internal/protocol/protocol.go:321-327 | on such a transport the cut stream is delivered as if it were whole |
| `Lines.HeaderIsReadBackIff` | internal/protocol/protocol.go:156-190 | a header the client agrees to send is read back intact, leaving the payload, exactly when its JSON is shorter than the limit |
| `Lines.HeaderIsSentIff` | internal/protocol/protocol.go:156-173 | the client refuses to send a header exactly when its JSON is longer than 64 KiB |
| `Lines.ReadLine` | internal/protocol/protocol.go:211-227 | whatever the size of the buffer, the first line if it fits the limit, an error otherwise, and which error |
| `TarStream.Disk.Unpack` | internal/tarstream/tarstream.go:87-150 | the disk, the count of skipped members and the error after any archive |
| `TarStream.SuccessIsComplete` | internal/tarstream/tarstream.go:87-150 | no error is returned only for an archive that ends cleanly within the entry cap, every name acceptable, every directory and file made where its name leads with the bytes delivered and the owner-execute bit, the bytes within the budget, and the rest counted as skipped |
| `TarStream.BrokenArchiveIff` | internal/tarstream/tarstream.go:94-101 | a broken end is reported exactly when every member before it has been extracted, and changes nothing else |
| `TarStream.FailureHasCause` | internal/tarstream/tarstream.go:94-149 | every other error has its cause in one member, all before it have been extracted, and it leaves on disk nothing new, the directories above a taken target, or the part of the file that was delivered |
| `TarStream.UnpackIsBounded` | internal/tarstream/tarstream.go:78-150 | on every archive and disk, whatever is returned: nothing that was there is lost or rewritten, only files and directories at or below the destination appear, on the way to at most maxEntries targets, and they take at most maxBytes |
| `TarStream.ExtractionIsBounded` | internal/tarstream/tarstream.go:94-149 | the same from any point of the loop with what is left of the two caps; so no file is written twice |
| `TarStream.TargetIsBelow` | internal/tarstream/tarstream.go:105-108 | a member is extracted where a walk from the destination ends, never above it |
| `TarStream.Pack` | internal/tarstream/tarstream.go:22-72 | a walk in any order gives one member per directory and regular file below the root, and the number of nodes that are neither; it fails exactly when some node cannot be read or shrinks, and then has packed what came before the first such node |
| `TarStream.PackedNameSays` | internal/tarstream/tarstream.go:39-45 | the name of a packed member splits into the path below the directory, with a slash at its end exactly for a directory |
| `TarStream.PackThenUnpack` | internal/tarstream/tarstream.go:19-150 | packing and unpacking into an empty or absent directory succeeds exactly when no packed name has a backslash and both caps allow it, and then restores every directory, empty ones too, and every file's bytes and owner-execute bit, and nothing else |
| `TarStream.BackslashFails` | internal/tarstream/tarstream.go:170-172 | a packed name with a backslash always makes the unpacking fail |
| `ShellQuote.ShQuote` | internal/daemon/tunnel.go:189-200 | the loop returns the quoted form, quote by quote |
| `ShellQuote.QuoteRoundTrip` | internal/daemon/tunnel.go:188-200 | by the POSIX token rules a quoted string reads back as one word, itself, exactly when it has no NUL |
| `ShellQuote.QuotedLexes` | internal/daemon/tunnel.go:189-200 | the same in the middle of a word, before any rest of the command line |
| `ShellQuote.RemoteCommand` | internal/daemon/server.go:354-360 | the two pull commands are read by the shell as exactly `tar -C path -cf - .` and `cat -- path`, word by word, for every path |
| `Pulling.Pull` | internal/daemon/server.go:370-397 | a pulled file is accepted exactly when the command succeeds and its output is within the cap, and is then that output; never more than one byte over the cap is staged, whatever the pieces |
| `SlotLocks.NextKeepsInv` | internal/daemon/server.go:61-83 | every step of every goroutine keeps the table of slot mutexes consistent |
| `SlotLocks.SlotsAreExclusive` | internal/daemon/server.go:61-83 | over all interleavings, at most one goroutine is inside a slot, every goroutine that waits on or holds a mutex has the one now in the table, and each reference count is the number of such goroutines |
| `SlotLocks.TableIsBounded` | internal/daemon/server.go:46-50 | the table never has more entries than requests in flight, at most eight, and is empty when no request is at a slot |
| `SlotLocks.SomeoneCanMove` | internal/daemon/server.go:61-83 | while a request is in flight some goroutine can take a step |
| `SlotLocks.EveryRequestCanEnter` | internal/daemon/server.go:61-83 | from every reachable state, every request on its way to its slot can still get inside that slot |
| `SlotLocks.WaitsForSameSlotIff` | internal/daemon/server.go:46-50 | a request is stuck at its mutex exactly while another is inside the same slot; different slots do not block each other |
| `SlotLocks.AcceptedIff` | internal/daemon/server.go:40-42 | a new request can be accepted exactly while fewer than eight are in flight |
| `SlotLocks.KeyStays` | internal/daemon/server.go:61-83 | a request keeps the slot it asked for from start to finish, and only the mover moves |
| `SlotLocks.DroppedIsLast` | internal/daemon/server.go:78-80 | when the count reaches zero no other goroutine points at the mutex that is dropped |
| `SlotLocks.KeyedMutex.Register` | internal/daemon/server.go:62-72 | the caller's mutex is the one in the table, counted once more, and is new exactly when the slot had none |
| `SlotLocks.KeyedMutex.Drop` | internal/daemon/server.go:77-81 | counted once less, and out of the table exactly when nobody is left |
| `Outcomes.TransferIsAtomic` | internal/daemon/server.go:231-340 | at every moment of every interleaving, fragmentation and disconnect, from taking the slot lock on, the slot holds what it held then, or exactly the bytes the client read, within the cap; or it is absent and its old copy is whole in the aside directory, which is so exactly between the two renames of the promote, and at the end only after an error was reported |
| `Outcomes.EmptyOnlyAfterFailedRollback` | internal/mirror/mirror.go:122-127 | over every run, a conversation that ends with the slot empty has tried to rename the old copy back from the aside directory, and failed |
| `Outcomes.VacantInstallsOrReverts` | internal/mirror/mirror.go:122-127 | with the old copy aside, the only ways on are the new copy installed or the rollback; no failure ends the request there |
| `Outcomes.EventsHaveCauses` | internal/daemon/server.go:275-316 | "received" is sent only after the checks passed, the opener has only run after it was called, and the slot is only touched after the checks passed and only replaced by an install |
| `Outcomes.ClientAnswers` | internal/client/client.go:149-203 | a client that reads "done" returns at once, nil exactly when it says "ok"; and it returns an error only after it has read that the request failed or could not go on itself |
| `Outcomes.ShipsOnlyWhenAccepted` | internal/client/client.go:153-164 | when the client sends its file it has read "received", and the daemon's checks have passed |
| `Outcomes.RefusedShipsNothing` | internal/client/client.go:154-162 | until the checks have passed, all a client puts on the wire is its header |
| `Outcomes.NilIsTrue` | internal/client/client.go:149-203 | a waiting client returns nil only when its bytes were in the slot, and the opener had succeeded, as the request ended; one that does not wait only when the daemon has accepted the request and all it had to send has left it |
| `Outcomes.OneDoneAndLast` | internal/daemon/server.go:237-317 | after a readable header the daemon sends exactly one "done", last, and says "ok" exactly when the opener succeeded; without one it sends nothing |
| `Outcomes.NoSpuriousReadError` | internal/daemon/server.go:319-340 | while nothing is lost on the way, no read refuses a file within the cap |
| `Conversation.RunKeepsInv` | internal/daemon/server.go:231-340 | what is in flight and unsent always begins where the daemon has read to, and what is staged with what is still to come is the client's file |
| `Conversation.ReadAdvances` | internal/protocol/protocol.go:296-328 | one read on the live connection continues the file, and ends cleanly only where the file ends |
| `Conversation.HeaderArrives` | internal/protocol/protocol.go:175-190 | the first line the daemon finds is the client's header, whole, and the payload follows it |
| `Progress.SomeoneCanGoOn` | internal/daemon/server.go:231-317 | until the daemon is done, at every reachable state, whatever the connection has lost, the client or the daemon can take a step that is not a failure |
| `Progress.TransferCanSucceed` | internal/client/client.go:149-203 | from every start with the header and file within their limits and room for the slot's directories there is a run in which the client returns nil, the opener has succeeded and the slot holds the file |
| `Progress.ReplaceFollowsPromote` | internal/mirror/mirror.go:100-130 | with no other request in between, the daemon's steps of a replacement pass through the disks of the promote that `Promotion` accounts for, and end at its last |
| `Progress.PromoteIsFollowed` | internal/mirror/mirror.go:100-130 | for every choice of failing steps, the rollback and the failed rollback included, the daemon has a path through its steps that ends at the last disk of that promote, with the error sent exactly when it failed |
| `Progress.SlotHistory` | internal/daemon/server.go:277-317 | after any number of requests that held the lock of one slot in turn, it holds what it held before the first, the whole file of one of them, or nothing |

## Left out

- Integers are unbounded: sizes, totals and times do not wrap at 64 bits.
- Persistence of the index, errors from saving it, and the mutex inside it; each index method is one step.
- The JSON encoding is taken as bytes without a raw newline that decode to the request sent, and the tar encoding as a list of members; the bytes of both are library code.
- The validation of a request and its token enter the conversation as one step that passes or fails; `ValidLabel` is modelled, the other patterns are not.
- `path.Clean` and `filepath.Join` are modelled by their documented rules in slash space; Windows paths are not modelled.
- The clock, `lsof`, the opener, and the failure of any system call are free choices, not modelled further. `MkdirAll` may stop at any level; recursive removal stops at nodes that cannot be unlinked.
- Stat of something other than a regular file reports a constant size; symbolic links in the mirror count as such nodes and are not followed.
- Times of different systems: every step takes the time it is given; nothing assumes that times grow.
- GC takes no slot lock; it is one step, and its interleaving with requests is not modelled.
- TransferIsAtomic: assumes that while the slot lock is held others leave the slot's subtree, the staged file and the aside directory alone. Requests on the same slot are serialised, as `SlotLocks.SlotsAreExclusive` proves, but the locks do not exclude a request on a slot above or below it, or a collection, at the same time.
- CheckOverwrite: like Promote and GC takes every node to be readable; what an unreadable one does to a single test is stated by `SyncIndex.LocallyModified`.
- PackThenUnpack: takes the packed tree as it is at one moment, and every node of it as readable; `TarStream.Pack` states where packing stops otherwise.
- BytesAreConserved: covers runs on slots that do not contain each other and without edits from outside; on nested slots the source counts bytes twice, and an outside edit is what the modified test is for.
- The conversation carries one inline file. Directories are covered by `TarStream`, whose archive may end or break anywhere, and pulled files by `Pulling`; they are not composed with the connection.
- The removal of the request's own staging directory at the end of a request: it lies in .staging, which `TransferIsAtomic` leaves to others once the lock is released.
- A pulled directory: `Unpack` on the output of the remote `tar`, which is the same loop.
- The lexer covers blanks, single quotes and escapes, and rejects every line that would need another rule of the shell.
- Modification times of unpacked files: the archive carries them and `Unpack` ignores them.
- ssh, tunnels, provisioning, tokens, configuration, sockets and setup: foreign processes and system calls with little to prove.
