# ramp-with-rdma: verified model

A Dafny model of a distributed key-value store with atomic multi-key reads and writes. The store
runs RAMP-Fast (prepare everywhere, then commit; read in two rounds), its RDMA variant AC-RAMP-Fast
(the first round reads a cache of committed items in the server's memory, without asking the
server), or two-phase locking. The model also covers four self-contained algorithms the program
rests on: the logger's lock-free queue, the pool of verbs send buffers, the acknowledged counter of
the bundled YCSB client, and the decimal conversion of the bundled formatting library.

`dafny verify dfyconfig.toml` checks everything.

## How the model is laid out

| file | what it holds |
|---|---|
| `Data.dfy`, `Store.dfy` | timestamps, keys, items; one server's table and cache as a value, operation by operation |
| `Slot.dfy`, `Tearing.dfy`, `Entry.dfy` | the bytes of one cache slot and the reader's decoding; snapshots of overwriting a valid slot; the class that overwrites slots |
| `CommittedItems.dfy`, `Table.dfy` | the slot allocator and the multi-version table as classes, proved against `Store` |
| `CacheLife.dfy` | two facts about the cache over its whole history |
| `Ramp.dfy` | the protocols as a state machine: any number of servers, writers, readers and keys |
| `RampSafety.dfy`, `RampReads.dfy` | what every run keeps; Read Atomic isolation of a read that is told nothing torn |
| `RampCoherence.dfy`, `RampExclusive.dfy`, `RampVisibility.dfy` | slots and tables, and reads in real time, while commits of a key do not overtake each other; that exclusive commits never do |
| `RampTears.dfy`, `RampUnfractured.dfy`, `RampHarmless.dfy` | which items can meet in a slot; layouts of items whose torn slots keep isolation, and visibility |
| `RampScripts.dfy`, `RampReturns.dfy`, `RampTornRuns.dfy` | pieces of runs, for any servers and keys: commits, returns, torn reads |
| `RampFractures.dfy`, `RampLostRuns.dfy`, `RampRaces.dfy` | the runs that break isolation, visibility and coherence wherever those layouts or exclusive commits are missing |
| `RampBytes.dfy` | the bytes behind slot reads, and a torn read of items as msgpack packs them |
| `Handler.dfy` | the reading client's loops, the sibling check and the repair round |
| `Locking*.dfy`, `LockBased.dfy` | the locking mode: exclusion, serializability, order, progress, a lost write; lock table and executor classes |
| `Sets.dfy`, `Bits.dfy`, `Mpmc*.dfy` | sizes of sets; masks and powers of two; the bounded queue, its invariant, its FIFO meaning, and a stalled writer |
| `SendPool.dfy`, `AckCounter.dfy` | the send buffers; the counter's ring |
| `Decimal.dfy`, `DecimalText.dfy`, `DecimalParse.dfy` | counting digits; writing them backwards with separators; parsing them in 32-bit arithmetic |

## What is proved

* **RAMP reads are atomic where slots do not tear.** In every interleaving of single accesses to the
  shared containers, with first-round items from servers or from valid slots, however stale, a
  finished read that sees one write of a transaction sees its other writes, or newer ones, and
  returns only what transactions wrote (`RampReads.NoFracturedReads`, `ReadsAreGenuine`), as long as
  none of its own slot reads returned a third item. One repair round is enough, and it never comes
  back empty. This needs no atomic commit. It covers every read of RAMP-Fast, which never looks at
  slots (`RampTears.ServerReadsAreAtomic`), and every read of AC-RAMP-Fast in a run in which
  transactions have each key to themselves from marking its slot to rewriting it
  (`RampTears.OneAtATimeIsAtomic`).
* **Slots do tear otherwise**, and what that costs is known exactly, for every configuration and every
  layout of items. No finished read sees half of a transaction if and only if every mixture that a
  slot can show names its siblings together: not negative in time, and naming none but its own key, or
  all those of the transaction whose timestamp it shows (`RampFractures.UnfracturedIffTogether`).
  Reads return only what was written, besides, if and only if no mixture passes for a third item
  (`RampFractures.AtomicIffNeverTears`).
* **Coherence and visibility.** Slots agree with the table in every run whose commits still find at
  their set what their check found, and at both ends of the rewrite their own version; a read in such
  a run sees every write that had returned before it began, if none of its slot reads returned a
  third item. The program makes none of this atomic. For every configuration: all runs are coherent if
  and only if servers commit the versions of a key one at a time (`RampRaces.CoherentIffExclusive`),
  and finished writes are visible to every later read if and only if they do so and every mixture is
  harmless: as new as what it replaces, and announcing nothing that hides an older write
  (`RampRaces.VisibleIff`).
* **The program's items do tear.** The machine's slot reads are exactly what the bytes allow
  (`RampBytes.SlotReadsAreByteReads`). Two items with two siblings each, as msgpack packs them, are
  enough: a newer transaction rewrites the slot of a finished commit, and a read returns an item that
  nobody wrote, half of a transaction, and not what another had written before
  (`RampBytes.TornReadOfBytes`, `LostWriteOfBytes`).
* **Which snapshots tear.** From a slot that is fresh or marked invalid, no snapshot of an update shows
  anything but "not yet" or the new item. Over a valid slot every snapshot is given in closed form, and
  the snapshots show only "not yet", the old or the new item exactly if the codec takes every body with
  a new beginning and an old rest for one of these (`Tearing.RewriteIsUntornIff`, and by lengths of
  the bodies below it).
* **The locking mode is serializable** in the order in which phases had all their locks, never
  deadlocks and always ends. Its writes behave like overwriting exactly if timestamps increase
  along each key's lock order; timestamps are taken before locks, and `LockingRaces` runs into the gap.
* **The queue is a bounded FIFO**; a refusal to enqueue or dequeue is characterised exactly, and a
  dequeue may report an empty queue although an enqueue has returned.
* **The rest**: no send buffer is ever handed out while it is posted, and packets leave in order with
  the bytes they were given; the counter's ring stands for the set of acknowledged ids exactly as
  long as ids stay in the window; digit counts are exact, the text fills exactly the room reserved
  for it, numbers parse back, and which overflows the parser misses is decided from the number alone.

## Assumptions

* Write timestamps are positive and no two writing transactions share one. `Timestamp::now()` carries
  no client id, so the program does not ensure this.
* A transaction only writes or only reads, so the sibling keys of an item are the keys written
  (`src/client/service/TrxQueue.cpp:22-42`). `Handler.RepairEmptiesIff` says what goes
  wrong otherwise.
* All clients use one fixed list of servers and one hash; the hash is arbitrary.
* At most 1000 keys live on a server and every packed item fits its 2560-byte slot
  (`include/server/data/Entry.h:8-9`). `Table.Table.HasRoom` is that condition: the program
  dereferences a null entry beyond it.
* The serialisation library is a pair of functions whose round trip holds for the items stored.
* A one-sided read returns one snapshot of a slot, and `memcpy` writes bytes in ascending order.
* First uses of one key in `CommittedItems` do not overlap. In the protocol machine a slot update
  begins and ends, holding the slot's mutex in between; what one-sided reads can decode to meanwhile
  is a parameter of the machine, tied to the bytes by `RampBytes`. A slot is read only after some reply
  has carried its address.
* A read lock is granted unless a writer holds the lock, the default of the C library.

Where two copies of a file differ, the model says which one it follows. `Table` follows the
assigning copy, `YCSB-0.5.0/src/data/Table.cpp:14-16`; the copy in `src/server/data/Table.cpp:19-20`
inserts through `operator[]` and then calls `insert`, and never advances a key
(`CacheLife.InsertNeverAdvances`). Timestamps follow `src/common/data/Timestamp.cpp`; the copy in
`YCSB-0.5.0/src/data/Timestamp.cpp:5` compares microseconds with seconds. The counter's comment says
that a sweep goes round the window at most once because of its loop guard; the guard never fires for
a non-negative limit, and the sweep ends because it clears what it passes.

## Model

| member | source | states |
|---|---|---|
| `Data.KeyLessTotal` | src/client/service/handler/LockBasedHandler.cpp:13 | the order in which maps enumerate keys is total, which the ordered lock acquisition relies on |
| `Data.KeyLessTransitive` | src/client/service/handler/LockBasedHandler.cpp:13 | that order is transitive |
| `Data.KeyLessIffFirstDiffer` | src/client/service/handler/LockBasedHandler.cpp:13 | it is the order of dictionaries: the first character that differs decides, and a beginning comes before the whole |
| `Data.OrderedInTime` | src/common/data/Timestamp.cpp:8-26 | for all readings of a clock, both comparisons are those of the moments in microseconds, and the empty timestamp is moment zero |
| `Data.TimestampsCompare` | src/common/data/Timestamp.cpp:8-22 | for all fields, `>` is `<` the other way round, and the order is strict and total |
| `Data.ServersTakeTurns` | src/client/net/ConnectionPool.cpp:29-30 | the server of a key is what its hash leaves over when divided by the number of servers |
| `Slot.HeaderAnnounces` | src/common/net/RDMAWriteSocket.cpp:112-122 | once the size field has been copied, a reader that looks at it learns exactly the new body's size |
| `Slot.HeaderNamesResult` | src/server/data/Entry.cpp:14 | the header of a slot carries the type code of a reply |
| `Slot.DecodeComplete` | src/common/net/RDMAWriteSocket.cpp:106-150 | a slot with a zero validity word and a complete image decodes to the item that was packed |
| `Slot.CompleteUpdateDecodes` | src/server/data/Entry.cpp:9-25 | after the last write of an update the slot round-trips, whatever it held before |
| `Slot.QuietUpdateIsNeverTorn` | src/server/data/Entry.cpp:9-25 | from a zeroed or marked slot, every prefix of the byte writes of an update decodes to waiting, rejected, or exactly the new item |
| `Slot.FreshPrefix` | src/server/data/Entry.cpp:16-22 | on a zeroed slot the reader waits up to the first byte of the arrival word and gets the item from there on |
| `Slot.DecodeInvalidated` | src/server/data/Entry.cpp:4-7 | a marked slot is rejected, except one never written, which keeps its readers waiting |
| `Tearing.SnapshotDuring` | src/server/data/Entry.cpp:9-25 | what every byte prefix of overwriting a valid slot decodes to, from the old bytes, the new body and the codec |
| `Tearing.RewriteIsUntornIff` | src/server/data/Entry.cpp:9-25 | the snapshots show nothing but not-yet, rejected, the old and the new item, if and only if this holds of the old bytes under the half-copied size and of every body with a new beginning and an old rest |
| `Tearing.EqualLengthsUntornIff` | src/server/data/Entry.cpp:16-22 | for bodies of one length: if and only if the codec rejects every mixture or takes it for one of the two items |
| `Tearing.ShorterBodyUntornIff` | src/server/data/Entry.cpp:16-22 | for a shorter body: if and only if the old body has a zero word where the new one ends, or the cut-off mixtures are harmless |
| `Tearing.LongerBodyIsUntorn` | src/server/data/Entry.cpp:16-22 | a body longer by a word, over bytes never used, never tears |
| `Tearing.EqualLengthsMixtureIff` | include/common/data/Item.h:18 | which third items a reader can get, for bodies of one length: exactly the decodable mixtures of a new prefix and an old rest |
| `Entry.Entry.Write` | src/common/util/Buffer.cpp:4-14 | copies bytes at an offset; the recorded history gains every intermediate state of the slot and nothing outside the slot changes |
| `Entry.Entry.Invalidate` | src/server/data/Entry.cpp:4-7 | sets the validity word and leaves the rest of the memory alone |
| `Entry.Entry.Update` | src/server/data/Entry.cpp:9-25 | the four copies end in the complete image, and the states in between are exactly the byte prefixes that the torn-read results speak about |
| `Entry.UpdateInFourWrites` | src/server/data/Entry.cpp:16-22 | copying header, body, arrival word and validity word one after the other passes through the same states as one copy of the whole image followed by the validity word |
| `Entry.QuietUpdateIsSafe` | src/server/data/Entry.cpp:9-25 | no state in the history of an update of a quiet slot can fool a reader |
| `Store.FindAppend` | YCSB-0.5.0/src/data/Table.cpp:46-50 | a version search over a list that grows at the end still finds the first entry of the key |
| `Store.FindsFirst` | YCSB-0.5.0/src/data/Table.cpp:43-54 | the search returns the first version of the key, or an item without data |
| `Store.PrepareLeaves` | YCSB-0.5.0/src/data/Table.cpp:4-8 | for all stores and keys: the version is added at the end, no answer moves, the key's slot is there and not valid, other slots stay |
| `Store.CommitLeaves` | YCSB-0.5.0/src/data/Table.cpp:10-20 | for all stores and keys: a commit moves exactly the keys that the timestamp has a version of and that are behind it, their slots show the first such version, and all else stays |
| `Store.PutLeaves` | src/server/data/Table.cpp:29-40 | the same of one item without a slot update, as the locking mode puts it |
| `Store.HandOutLeaves` | src/server/data/CommittedItems.cpp:38-49 | a new slot shows the key and no data; one that is there stays as it is |
| `CommittedItems.CommittedItems.constructor` | src/server/data/CommittedItems.cpp:4-19 | carves 1000 zeroed slots; no key owns one yet |
| `CommittedItems.CommittedItems.Invalidate` | src/server/data/CommittedItems.cpp:21-28 | marks the slot of a known key, gives a new key the next unused slot, or records it without one when none is left; no other key's slot changes |
| `CommittedItems.CommittedItems.Update` | src/server/data/CommittedItems.cpp:30-36 | rewrites the slot of the item's key so that it decodes to the item; other slots stay; an unknown key is only logged |
| `CommittedItems.CommittedItems.Rewrite` | src/server/data/CommittedItems.cpp:32 | in addition, no state of the slot since then is torn unless the slot was valid before |
| `CommittedItems.CommittedItems.GetItemAddr` | src/server/data/CommittedItems.cpp:38-49 | returns the key's address, filling a fresh slot first with an item that has no fields, no siblings and the zero timestamp; fails exactly when no slot is left for a new key |
| `CommittedItems.CommittedItems.AddressesAreDisjoint` | src/server/data/CommittedItems.cpp:16-18 | two keys' slots do not overlap and lie inside the cache |
| `CommittedItems.CommittedItems.SlotsAreConserved` | src/server/data/CommittedItems.cpp:16-28 | used and unused slots are always 1000, and only the 1001st key goes without |
| `CommittedItems.OtherSlots` | src/server/data/Entry.cpp:9-25 | rewriting one slot leaves the bytes of every other slot alone |
| `CommittedItems.RewriteKeepsLaid` | src/server/data/CommittedItems.cpp:30-36 | after rewriting an owned slot, owned slots are settled, unused ones still zero, and one view has changed |
| `Table.Table.Prepare` | YCSB-0.5.0/src/data/Table.cpp:4-8 | the table and all slots afterwards are those of `Store.Prepare`: the version appended, the key's slot marked |
| `Table.Table.Commit` | YCSB-0.5.0/src/data/Table.cpp:10-20 | the loop over the versions of a timestamp computes `Store.Commit`: later versions move the key and rewrite its slot, older ones change nothing |
| `Table.Table.CommitKey` | YCSB-0.5.0/src/data/Table.cpp:22-27 | moves one key forward and never back; slots are not touched |
| `Table.Table.Put` | src/server/data/Table.cpp:36-40 | prepare and commit of one item, as the locking mode uses it |
| `Table.Table.GetItemByVer` | YCSB-0.5.0/src/data/Table.cpp:43-54 | the search loop finds the first version of the key under the timestamp, or the empty item |
| `Table.Table.GetLatestItem` | include/server/data/Table.h:27-29 | answers with the version last committed, and inserts the zero timestamp for a key never seen |
| `Table.Table.GetItemAndAddr` | src/server/service/executor/ACRAMPFastExecutor.cpp:49-53 | item and slot address; the address half may allocate a slot, which then shows no data, and changes nothing else |
| `CacheLife.WaitingIffNeverWritten` | src/server/data/CommittedItems.cpp:21-28 | over every sequence of cache operations, a slot keeps its readers waiting if and only if an invalidation took it and no version was written since |
| `CacheLife.InsertNeverAdvances` | src/server/data/Table.cpp:14-27 | the inserting copy of commit never changes which version any key answers with |
| `CacheLife.InsertShowsLast` | src/server/data/Table.cpp:14-27 | while the slots of keys that are behind show the last of the versions, where the assigning copy shows the first |
| `RampSafety.InvStep` | src/client/service/handler/RAMPFastHandler.cpp:8-64 | every step of every writer, server and reader keeps the invariant on versions, tables, slots and their mutexes, torn reads or not |
| `RampSafety.InvAlong` | src/client/service/handler/RAMPFastHandler.cpp:8-64 | the invariant holds in every state of every run |
| `RampSafety.PreparedBeforeCommitted` | src/client/service/handler/RAMPFastHandler.cpp:12-24 | if any server has committed a timestamp, every key of that transaction is prepared on its server with exactly that transaction's item |
| `RampSafety.CopyIsAlone` | src/server/data/Entry.cpp:4-11 | while an item is being copied into a slot, no step of anybody marks or overwrites that slot |
| `RampReads.NoFracturedReads` | src/client/service/handler/ACRAMPFastHandler.cpp:4-51 | Read Atomic isolation of every read, in every run, none of whose slot reads returned a third item; with check, set and both ends of the rewrite as separate steps, and first-round items from servers or from valid slots, however stale |
| `RampReads.OneRoundSuffices` | src/client/service/handler/RAMPFastHandler.cpp:43-63 | the final result dominates the first round and every sibling timestamp that any final item announces |
| `RampReads.ReadsAreGenuine` | src/client/service/handler/ACRAMPFastHandler.cpp:4-51 | such a read returns for each key an item without fields and siblings at time zero, or key, values and siblings of what one transaction past its prepare phase wrote to that key |
| `RampReads.HandedAlong` | src/server/service/executor/ACRAMPFastExecutor.cpp:49-53 | in every run, an address that a reply has carried is that of a slot |
| `RampReads.AskingLeavesEntry` | include/server/data/Table.h:27-29 | asking for the latest version leaves the key an entry in the table and moves no answer |
| `RampReads.NewSlotIsRead` | src/server/data/CommittedItems.cpp:38-49 | the slot of a key that nobody wrote reads as an item without data, and as nothing else |
| `RampReads.RepairNeverComesBackEmpty` | src/client/service/handler/RAMPFastHandler.cpp:53-63 | a second-round GET of such a read finds the version it asks for |
| `RampTears.ServerReadsAreAtomic` | src/client/service/handler/RAMPFastHandler.cpp:27-64 | a read that only asks servers is genuine and unfractured in every run, whatever slots show and other readers do |
| `RampTears.OneAtATimeIsUntorn` | src/server/data/CommittedItems.cpp:21-36 | if at most one transaction per key is between marking the slot and rewriting it, no update ever overwrites a valid slot |
| `RampTears.OneAtATimeIsAtomic` | src/client/service/handler/ACRAMPFastHandler.cpp:4-51 | then all reads are genuine and unfractured, whatever the layout of items |
| `RampTears.GenuineOrTorn` | src/common/net/RDMAWriteSocket.cpp:106-150 | in every reachable state a slot shows what was written, or a mixture of two items that two transactions wrote, the newer over the older if commits are exclusive |
| `RampTornRuns.OverwritingIsReachable` | YCSB-0.5.0/src/data/Table.cpp:10-20 | any two such items do meet: a reachable state in which one is being copied over the other |
| `RampUnfractured.TogetherIsUnfractured` | src/client/service/handler/ACRAMPFastHandler.cpp:4-51 | if all mixtures name their siblings together, no finished read of any run is fractured |
| `RampFractures.UnfracturedIffTogether` | src/client/service/handler/ACRAMPFastHandler.cpp:4-51 | for every configuration: no finished read of any run is fractured if and only if every mixture is not negative in time, and names no other key, or all those that the transaction of its timestamp wrote, or has the zero timestamp |
| `RampFractures.TornReadIsFractured` | src/client/service/handler/ACRAMPFastHandler.cpp:28-50 | for each mixture that does not, a reachable finished read with half of a transaction |
| `RampFractures.AtomicIffNeverTears` | src/server/data/Entry.cpp:9-25 | for every configuration: finished reads of all runs are genuine and unfractured if and only if no mixture of two items that can meet in a slot passes for a third |
| `RampBytes.SlotReadsAreByteReads` | src/common/net/RDMAWriteSocket.cpp:106-150 | for every serialisation that round-trips, the items that a slot read of the machine may return are exactly those that some snapshot of the slot's bytes decodes to |
| `RampBytes.RestingReadsAreByteReads` | src/common/net/RDMAWriteSocket.cpp:106-150 | the same while nobody is writing the slot |
| `RampBytes.SmallPacks` | include/common/data/Item.h:18 | the msgpack bytes of every item with one field and two siblings, of one character each, are read back as that item |
| `RampBytes.BodyIsMsgpack` | include/common/data/Item.h:18 | those bytes are put together field by field from the array, map, string, binary and integer formats of msgpack |
| `RampBytes.CutBeforeSiblings` | include/common/data/Item.h:18 | for every two of them, a snapshot reads as the new item with the old one's siblings |
| `RampBytes.TornReadOfBytes` | include/common/data/Item.h:18 | a reachable state in which a finished read returned such a mixture, which nobody wrote, and is fractured, with or without exclusive commits |
| `RampBytes.LostWriteOfBytes` | include/common/data/Item.h:18 | with exclusive commits, one in which it also misses a write that had returned before it began |
| `RampCoherence.SlotsStep` | YCSB-0.5.0/src/data/Table.cpp:10-20 | every step in which a commit is not overtaken keeps slots and tables of all keys together |
| `RampCoherence.SlotsAreCoherent` | src/server/data/CommittedItems.cpp:21-36 | in every run whose sets still find an older latest version and whose rewrites still find their own, a valid slot holds what the table answers, unless it is just being rewritten |
| `RampVisibility.ReturnedIsRemembered` | include/client/service/handler/TrxHandler.h:21-27 | a put_all that has returned stays returned along the run, and readers that begin later know it |
| `RampVisibility.FinishedWritesAreVisible` | src/client/service/handler/RAMPFastHandler.cpp:12-24 | in such a run, a read that begins after put_all has returned gets that timestamp or a newer one for each of its keys, if none of its own slot reads returned a third item |
| `RampVisibility.ServerReadsSeeFinishedWrites` | src/client/service/handler/RAMPFastHandler.cpp:27-64 | in such a run, a read that only asks servers sees every write that had returned before it began, whatever slots show |
| `RampExclusive.ExclusiveRunsAreOrderly` | YCSB-0.5.0/src/data/Table.cpp:13-18 | every run of servers that commit the versions of a key one at a time is such a run |
| `RampRaces.CoherentIffExclusive` | YCSB-0.5.0/src/data/Table.cpp:13-18 | for any servers and any hash: slots are coherent in all runs if and only if the versions of a key are committed one at a time |
| `RampHarmless.HarmlessMeansVisible` | src/client/service/handler/ACRAMPFastHandler.cpp:4-51 | with exclusive commits and harmless mixtures, every finished read of every run sees what had returned before it began |
| `RampLostRuns.HarmfulMixtureLoses` | src/client/service/handler/ACRAMPFastHandler.cpp:4-51 | with exclusive commits, for each harmful mixture a reachable finished read that misses a write that had returned before it began |
| `RampReturns.JobIsCommit` | YCSB-0.5.0/src/data/Table.cpp:10-20 | the single steps of a server's job that nobody disturbs leave together what `Store.Commit` leaves |
| `RampReturns.Returns` | src/client/service/handler/RAMPFastHandler.cpp:12-24 | a commit that nobody disturbs runs through all its servers and returns, and changes only keys it writes |
| `RampRaces.VisibleIff` | src/client/service/handler/ACRAMPFastHandler.cpp:4-51 | for every configuration: finished writes are visible to all later reads in all runs if and only if the versions of a key are committed one at a time and every mixture that a slot can show is harmless |
| `RampRaces.IncoherentSlotIsReachable` | YCSB-0.5.0/src/data/Table.cpp:13-18 | for every configuration without exclusive commits, a reachable state with no commit of the key under way whose slot shows one version while the table answers with another |
| `RampRaces.LostWriteIsReachable` | YCSB-0.5.0/src/data/Table.cpp:13-18 | for every configuration without exclusive commits, a reachable state in which a finished read missed a write that had returned before the read began |
| `Handler.CheckMissingVersions` | src/client/service/handler/RAMPFastHandler.cpp:42-50 | the nested loops compute, in any order of iteration, the newest sibling timestamp of every key |
| `Handler.VLatestIsUnique` | src/client/service/handler/RAMPFastHandler.cpp:43-50 | there is only one such result, so the order of iteration cannot matter |
| `Handler.RepairAll` | src/client/service/handler/RAMPFastHandler.cpp:52-63 | the second round replaces exactly the items that are older than announced |
| `Handler.OneRepairRoundSuffices` | src/client/service/handler/RAMPFastHandler.cpp:42-63 | if announced siblings are prepared, the result is unfractured and each timestamp is the larger of first round and announcement |
| `Handler.NothingLeftToRepair` | src/client/service/handler/RAMPFastHandler.cpp:42-50 | a result is unfractured if and only if another sibling check finds nothing to fetch |
| `Handler.FirstRoundSiblingsArePrepared` | src/client/service/handler/RAMPFastHandler.cpp:12-24 | in every run, the siblings announced by a completed first round without torn slot reads are prepared on their servers |
| `Handler.GetAll` | src/client/service/handler/RAMPFastHandler.cpp:27-64 | both rounds together: unfractured, and never older than the first round |
| `Handler.OneSidedReader.ReadAll` | src/client/service/handler/ACRAMPFastHandler.cpp:8-24 | valid slots are used as they are, rejected ones and unknown addresses are asked for and remembered; the round fails to end properly exactly if some slot's message never arrived, and then polls for ever, or if some announced size leads out of the packet |
| `Handler.RepairEmptiesIff` | src/client/service/handler/RAMPFastHandler.cpp:42-63 | for all stores: a read loses an item that its first round had found if and only if the newest item that names the key as a sibling is newer and its transaction did not write the key |
| `LockingSafety.LocksStep` | src/server/service/LockManager.cpp:4-20 | every step keeps the lock table, the held keys and the phases in agreement |
| `LockingSafety.Exclusion` | src/server/service/LockManager.cpp:4-10 | a key held by a writing phase is held by nobody else |
| `LockingSafety.UnlockGivesBack` | src/server/service/LockManager.cpp:16-20 | unlocking gives up the caller's hold and nobody else's |
| `LockingSafety.LockRules` | src/server/service/LockManager.cpp:4-14 | readers share a lock, a writer has it alone, and nobody else holds it |
| `LockingSafety.OperateLeavesEntry` | src/server/service/executor/LockBasedExecutor.cpp:41-53 | working on a key leaves it an entry in the table, and a read moves no answer |
| `LockingSerial.EveryRunIsSerial` | src/client/service/handler/LockBasedHandler.cpp:8-38 | in every reachable state the finished phases, in the order in which they had all their locks, each read what the phases before them leave when run one after the other; tables agree once nobody writes |
| `LockingSerial.SerialOrderIsRealTime` | src/client/service/handler/LockBasedHandler.cpp:8-38 | a phase that is done before another begins precedes it in the serial order |
| `LockingOrder.SerialIsNewest` | src/server/data/Table.cpp:29-40 | the serial result of a key is one of its writes and no write in the log is newer |
| `LockingOrder.SerialHoldsWrite` | src/server/data/Table.cpp:29-40 | field by field: no data if nobody wrote the key, otherwise key, values and timestamp of a write that no other is newer than |
| `LockingOrder.SerializableIffTimestampsIncrease` | src/client/service/handler/LockBasedHandler.cpp:10-18 | at every point of the serial run a key holds what was written last, if and only if timestamps increase along its lock order |
| `LockingOrder.NoFracturedReads` | src/client/service/handler/LockBasedHandler.cpp:8-38 | whatever the timestamps, a get_all that sees one write of a put_all sees that timestamp or a newer one on every other common key |
| `LockingRaces.FinishedWriteIsNotRead` | src/client/service/handler/LockBasedHandler.cpp:10-18 | from the start to a state with two writes finished in lock order and the read not begun, and on from there to one in which the read has returned the first |
| `LockingProgress.LockTableIsRight` | src/server/service/executor/LockBasedExecutor.cpp:41-59 | in every reachable state a key has one writer or only readers, and between operations an executor holds exactly the keys it has noted and not yet unlocked |
| `LockingProgress.ClearedHoldsNothing` | src/server/service/executor/LockBasedExecutor.cpp:55-59 | after release_locks the client holds no key of that server |
| `LockingProgress.NoDeadlock` | src/client/service/handler/LockBasedHandler.cpp:13-21 | in every reachable state with unfinished work some phase can take a step |
| `LockingProgress.RunsAreBounded` | src/client/service/handler/LockBasedHandler.cpp:13-37 | every step lowers a measure of remaining work, so a run is no longer than the work it starts with |
| `LockingProgress.MaximalRunsFinish` | src/client/service/handler/LockBasedHandler.cpp:8-38 | a run that cannot be extended has finished every phase, and its tables hold the serial result |
| `LockBased.LockManager.UnlockAll` | src/server/service/LockManager.cpp:16-20 | the loop gives back exactly the locks of the given keys |
| `LockBased.LockBasedExecutor.Put` | src/server/service/executor/LockBasedExecutor.cpp:41-46 | lock, put, note: the executor still holds what it has noted, and the table is that of `Store.Put` |
| `LockBased.LockBasedExecutor.Get` | src/server/service/executor/LockBasedExecutor.cpp:48-53 | lock, read, note: returns the latest item as it was |
| `LockBased.LockBasedExecutor.ReleaseLocks` | src/server/service/executor/LockBasedExecutor.cpp:55-59 | afterwards this executor holds none of its keys and nobody else has lost one |
| `Bits.SingleBitIffPowerOfTwo` | include/common/util/spdlog/details/mpmc_bounded_q.h:68 | `n & (n - 1) == 0` holds exactly for powers of two |
| `Bits.MaskIsRemainder` | include/common/util/spdlog/details/mpmc_bounded_q.h:89 | masking with 2^k - 1 is the remainder modulo 2^k |
| `MpmcQueue.AcceptedSizes` | include/common/util/spdlog/details/mpmc_bounded_q.h:62-75 | the constructor accepts exactly the powers of two from two on |
| `MpmcQueue.SameCell` | include/common/util/spdlog/details/mpmc_bounded_q.h:89 | two positions that share a cell are at least one lap apart |
| `MpmcSafety.InvStep` | include/common/util/spdlog/details/mpmc_bounded_q.h:83-134 | every load, compare-and-swap, write and store of every thread keeps the invariant on cells, positions and owners |
| `MpmcFifo.InvAlong` | include/common/util/spdlog/details/mpmc_bounded_q.h:62-134 | the invariant holds along every run of any number of threads |
| `MpmcFifo.NoOverwrite` | include/common/util/spdlog/details/mpmc_bounded_q.h:106-107 | a published value stays in its cell until its position is released, whatever other threads do |
| `MpmcFifo.RunRemembers` | include/common/util/spdlog/details/mpmc_bounded_q.h:94-132 | claims, publications and deliveries are never revoked or changed along a run |
| `MpmcFifo.HandedOutOnce` | include/common/util/spdlog/details/mpmc_bounded_q.h:107-132 | no two releases of a run are of one position, and no two publications |
| `MpmcFifo.LaterClaimsComeLater` | include/common/util/spdlog/details/mpmc_bounded_q.h:94-124 | a position claimed after another call has its own is a later one, for writing and for reading: the order respects real time |
| `MpmcFifo.RefinesBoundedFifo` | include/common/util/spdlog/details/mpmc_bounded_q.h:83-134 | each step appends to a FIFO that has room, takes the head of one that is not empty, or changes nothing |
| `MpmcFifo.DeliversItsClaimOnce` | include/common/util/spdlog/details/mpmc_bounded_q.h:131-133 | a dequeue returns the value of the position it claimed, which no other call returns |
| `MpmcFifo.FullIffPreviousLapUnreleased` | include/common/util/spdlog/details/mpmc_bounded_q.h:89-100 | enqueue gives up if and only if its cell's previous occupant is not released at the sequence load; then its position is current, and the queue is full or a reader is still busy there |
| `MpmcFifo.EmptyIffUnpublished` | include/common/util/spdlog/details/mpmc_bounded_q.h:117-127 | dequeue gives up if and only if its position is not published at the sequence load; then its position is current, and the queue is empty or a writer is still busy there |
| `MpmcFifo.RetriesMeanProgress` | include/common/util/spdlog/details/mpmc_bounded_q.h:87-105 | a call goes round its loop, other than by a weak failure, only because another call has claimed its position |
| `MpmcFifo.WhereEnqueuesGo` | include/common/util/spdlog/details/mpmc_bounded_q.h:83-109 | where every step of an enqueue leads, in terms of what has been claimed, published and released: overtaken, it goes on with the current position |
| `MpmcFifo.WhereDequeuesGo` | include/common/util/spdlog/details/mpmc_bounded_q.h:111-134 | the same of a dequeue, which reads the value of its own position |
| `MpmcFifo.SuccessIsEarned` | include/common/util/spdlog/details/mpmc_bounded_q.h:106-133 | an enqueue returns true only by publishing its value at its own position, and a dequeue only by releasing the position whose value it returns |
| `MpmcFifo.PublishedByReturn` | include/common/util/spdlog/details/mpmc_bounded_q.h:106-108 | along every run, each published position is that of an enqueue that returned true by publishing it |
| `MpmcFifo.ReleasedByReturn` | include/common/util/spdlog/details/mpmc_bounded_q.h:131-133 | along every run, each released position is that of a dequeue that returned what is recorded there |
| `MpmcFifo.EnqueueAlone` | include/common/util/spdlog/details/mpmc_bounded_q.h:83-109 | called while no other call is in progress, enqueue appends, or refuses exactly when the queue holds `max_size_` values |
| `MpmcFifo.DequeueAlone` | include/common/util/spdlog/details/mpmc_bounded_q.h:111-134 | called while no other call is in progress, dequeue takes the oldest value, or refuses exactly when there is none |
| `MpmcStall.EmptyDespiteFinishedEnqueue` | include/common/util/spdlog/details/mpmc_bounded_q.h:111-127 | a reachable state in which an enqueue has returned and a dequeue is told that the queue is empty |
| `SendPool.SendPool.constructor` | src/common/net/SendRecvSocket.cpp:63-82 | all ten buffers are free and nothing is under way |
| `SendPool.SendPool.GetSendBuf` | src/common/net/SendRecvSocket.cpp:96-115 | for every batch a poll may yield: a cleared buffer that is not posted nor held, every other polled buffer kept, nothing in flight touched |
| `SendPool.SendPool.PostSend` | src/common/net/SendRecvSocket.cpp:117-125 | the buffer moves from its holder to the adapter with the bytes it has |
| `SendPool.SendPool.SendMsg` | src/common/net/SendRecvSocket.cpp:156-160 | appends header and body to a cleared buffer, so that zeros follow them, and posts it behind what is posted; refuses exactly what does not fit a packet |
| `SendPool.SendPool.Complete` | src/common/net/SendRecvSocket.cpp:84-94 | the adapter puts on the wire the oldest packet that was posted and is not there yet, unchanged |
| `SendPool.TenBuffers` | src/common/net/SendRecvSocket.cpp:63-82 | free, held, completed and posted buffers are always ten, so the circular buffer never overwrites one |
| `SendPool.Apart` | src/common/net/SendRecvSocket.cpp:96-115 | a buffer in one place is in no other, and all ten are somewhere |
| `SendPool.NoRepeats` | src/common/net/SendRecvSocket.cpp:117-125 | no buffer is posted twice |
| `SendPool.PushBackKeepsTheLast` | src/common/net/SendRecvSocket.cpp:96-115 | the circular buffer keeps the last ten of all that was pushed |
| `SendPool.SendPool.SendClose` | src/common/net/SendRecvSocket.cpp:175-196 | the completion that closing waits for is the close packet's own if and only if its polls took everything outstanding; what they take never returns to the pool |
| `AckCounter.MaskedSlot` | YCSB-0.5.0/core/src/main/java/com/yahoo/ycsb/generator/AcknowledgedCounterGenerator.java:30-31 | the mask picks the slot that is the id modulo the window |
| `AckCounter.SweepAdvances` | YCSB-0.5.0/core/src/main/java/com/yahoo/ycsb/generator/AcknowledgedCounterGenerator.java:71-86 | a sweep moves acknowledged ids out of the ring and leaves the limit at the end of the unbroken row |
| `AckCounter.MarkInWindow` | YCSB-0.5.0/core/src/main/java/com/yahoo/ycsb/generator/AcknowledgedCounterGenerator.java:63-68 | an id within the window that is not acknowledged finds its slot free and is then the one id added |
| `AckCounter.MarkOutsideWindow` | YCSB-0.5.0/core/src/main/java/com/yahoo/ycsb/generator/AcknowledgedCounterGenerator.java:63-68 | an id outside the window, too new or already passed, is refused exactly if the id that shares its slot is acknowledged, and otherwise makes the ring claim that one |
| `AckCounter.OrderDoesNotMatter` | YCSB-0.5.0/core/src/main/java/com/yahoo/ycsb/generator/AcknowledgedCounterGenerator.java:61-91 | limit and ring depend on the set of acknowledged ids alone |
| `AckCounter.AcknowledgedCounter.Acknowledge` | YCSB-0.5.0/core/src/main/java/com/yahoo/ycsb/generator/AcknowledgedCounterGenerator.java:61-91 | for every id: throws exactly if the slot is taken, which in the window means acknowledged before; afterwards the ring stands for the acknowledged set if and only if the id was in the window; with the lock, the limit ends the row |
| `AckCounter.AcknowledgedCounter.Sweep` | YCSB-0.5.0/core/src/main/java/com/yahoo/ycsb/generator/AcknowledgedCounterGenerator.java:75-86 | the loop ends because it clears what it passes, after one window at the latest, in the state a sweep promises |
| `Decimal.NumeralDenotes` | include/common/util/spdlog/fmt/bundled/format.h:1060-1085 | the numeral of a number denotes it |
| `Decimal.DigitsAscend` | include/common/util/spdlog/fmt/bundled/format.h:1079-1085 | the ten digits are the characters from 0 to 9 in the order of their values |
| `Decimal.NumeralsAscend` | include/common/util/spdlog/fmt/bundled/format.h:1060-1085 | of two numerals of one length, the smaller number's comes first, character by character |
| `Decimal.EstimateFits` | include/common/util/spdlog/fmt/bundled/format.h:995 | the estimate 1233/4096 of the logarithm is off by at most one for every width up to 64 bits |
| `Decimal.PowersTable` | include/common/util/spdlog/fmt/bundled/format.cc:283-295 | the tables hold zero and then the powers of ten |
| `Decimal.CountDigitsIsExact` | include/common/util/spdlog/fmt/bundled/format.h:990-996 | exact for every 64-bit number, zero included |
| `Decimal.CountDigits32IsExact` | include/common/util/spdlog/fmt/bundled/format.h:1019-1023 | exact for every 32-bit number with the short table |
| `Decimal.CountDigitsFallback` | include/common/util/spdlog/fmt/bundled/format.h:999-1014 | the loop over groups of four digits returns the length of the numeral |
| `DecimalText.FormatDecimal` | include/common/util/spdlog/fmt/bundled/format.h:1060-1085 | writing backwards by pairs leaves exactly the grouped numeral before the end position and every other character as it was |
| `DecimalText.ThousandsSep.Apply` | include/common/util/spdlog/fmt/bundled/format.h:1034-1056 | puts the separator before every third digit and nothing otherwise |
| `DecimalText.PendingIsGrouped` | include/common/util/spdlog/fmt/bundled/format.h:1034-1056 | digit by digit with a separator after every third is the numeral in groups of three |
| `DecimalText.GroupedFromRight` | include/common/util/spdlog/fmt/bundled/format.h:1034-1056 | counted from the right, every fourth character of the text is the separator, and the others are the digits of the numeral in order |
| `DecimalText.ReservedRoomIsExact` | include/common/util/spdlog/fmt/bundled/format.h:3300-3306 | the room reserved for digits and separators is exactly the length of the grouped numeral |
| `DecimalText.GroupedWithoutSeparator` | include/common/util/spdlog/fmt/bundled/format.h:1088-1092 | without a separator the text is the plain numeral |
| `DecimalParse.ParseNonnegativeInt` | include/common/util/spdlog/fmt/bundled/format.h:4041-4063 | reads the maximal run of digits; accepts it exactly if no digit makes the 32-bit residue fall and the last residue fits an `int`, and then returns that residue |
| `DecimalParse.SmallNumbersAreRead` | include/common/util/spdlog/fmt/bundled/format.h:4041-4063 | every number up to the largest `int` is read correctly |
| `DecimalParse.WordSizes` | include/common/util/spdlog/fmt/bundled/format.h:4049-4059 | the limits of the parser are those of 32-bit words |
| `DecimalParse.SeenIff` | include/common/util/spdlog/fmt/bundled/format.h:4041-4063 | whether the wrap test trips depends on the number alone: on its value and those left by dropping digits from its end |
| `DecimalParse.CorrectIff` | include/common/util/spdlog/fmt/bundled/format.h:4041-4063 | for runs of any length, the parser is right if and only if the number fits, or the test sees it wrap, or its last residue is too large |
| `DecimalParse.ElevenDigitsCorrectIff` | include/common/util/spdlog/fmt/bundled/format.h:4041-4063 | up to nine digits it is always right; one comparison of wrapped values decides about ten digits, two about eleven |
| `DecimalParse.MissedOverflow` | include/common/util/spdlog/fmt/bundled/format.h:4049-4054 | 10000000000 is taken for 1410065408 |
| `DecimalParse.RoundTrip` | include/common/util/spdlog/fmt/bundled/format.h:4041-4063 | a formatted number up to the largest `int` is parsed back, whatever stands around it |

## Left out

- Sockets, connection set-up, `accept` loops and process exits on error: calls into the operating system. A connection is lock-step request and reply. Of a send that does not fit, only the refusal is modelled.
- Message dispatch in the executors' `run` loops and `ClientThread::run`: the state machines start from the requests they dispatch.
- The NoCC handler and the RC and RU lock durations: they give up the guarantees on purpose.
- The locking mode with a transaction that both writes and reads: its two phases are two `Work` entries.
- msgpack: an arbitrary pair of functions with a round trip on the items stored; the bytes themselves only for the small items of `RampBytes`, with string formats for keys and fields and the binary format for values.
- Tearing inside one RDMA read and hardware write order: a one-sided read is one snapshot.
- Overlapping first uses of one key in `CommittedItems`: its operations on a key are taken one at a time.
- C++ memory orders, wrap-around of positions, and `approx_size` of the queue: steps are sequentially consistent and positions unbounded.
- Overlapping calls of `acknowledge`: the model runs them one after the other; a caller that fails to get the lock leaves its id unswept, which is modelled. Ids do not wrap around at 2^31.
- The table of two-digit strings in the formatter: taken to hold the two digits of every number below a hundred.
- Widths, fill characters and prefixes of formatted integers; floating point, `printf`, sinks and the rest of the logger.
- YCSB workloads, generators with randomness, measurements, `Config`, command-line parsing.
- Handler.OneSidedReader.ReadAll: of a read past the packet only that it happens is modelled, not what the bytes behind it make of it.
- SendPool.SendPool.SendClose: the wait for the adapter is one completion when none is pending; later completions change nothing it returns.
