# BGPView in Dafny

BGPView keeps, for every BGP prefix and every peer, the path that the peer announces for the
prefix. This project models the three cores of that system and four of the consumers that sit
on top of it, and proves what they promise.

Lists without duplicates (`Lists`), addresses (`Net`) and prefixes as ranges of addresses
(`Prefixes`) are shared by the parts.

**The view** (`Khash`, `ViewState`, `RowSwap`, `Cascade`, `CellOps`, `Inserts`, `Walk`, `Sweep`,
`Collect`, `Census`, `Copying`, `View`). A view is a table of prefixes by peers. Every peer, prefix
and cell is invalid, inactive or active, and six families of counters are updated as the table
changes. Hash tables are sequences of slots, because iterators are slot indices and a removal only
flips a state. `View.Valid()` says that every cached counter equals a recount of the slots, that a
prefix is as lively as its best cell, that no cell is livelier than its peer, and that a lowered
collection flag means that nothing is left to collect. Every operation but one keeps it, also the
two mutually recursive cascades and the walks that change the table under themselves. `CellAt` and
`PeerSt` are what a reader sees; the contracts of the operations are stated in those terms.

**Replication** (`RowCodec`, `RowBuffer`, `Tables`, `Sent`, `Producer`, `ViewSender`, `Shown`,
`Naming`, `Receiver`, `Replication`, `Direct`, `Torn`, `Global`, `Rounds`, `Progress`, `Refinement`).
A producer publishes whole tables (sync frames) and differences to the last table (diff frames); a
consumer applies them to its own view under its own names for the peers. The methods of `Producer`,
`ViewSender` and `Receiver` work on views; `Direct` and `Global` are the protocols around them as
state machines, `Rounds` tells what a round of the global protocol comes to from the steps taken in
it, `Progress` that a round can always be brought to its end, and `Refinement` proves that the
methods take steps of these machines.

**The archive** (`Archive`, `ArchiveFile`). A file of tables that are closed by magic marks.

**Consumers** (`Pfx2as`, `GeoRuns`, `Moas`, `Subpfx`). Interval accounting with recycled slots,
run-length encoding of addresses and its expansion into /24 networks, a windowed event machine,
and a flip-flop difference.

Six promises fail in the code for some inputs. The model keeps the code as it is, and states
exactly when the promise holds:

- Adding a cell by its path creates the prefix before it looks for the peer, and takes a removed peer
  whose slot has not been collected yet; adding it by path identifier does neither.
  `ViewClass.View.AddPfxPeer` says exactly when the view is still settled afterwards.
- A frame whose row count does not match leaves the view with the frame's time and only some of its
  rows (`lib/io/kafka/bgpview_io_kafka_consumer.c:629-646`). If the next metadata fetch then fails and
  the caller calls again with the same view, the next diff can be applied to that torn table. The
  failed call looks like any other, so what a caller can do is to clear the view after every failed
  call: `Direct.EveryReturnExact` holds for such callers, `Torn.TornRunFails` is a run of another one,
  `Torn.TornCallFails` shows that calling over any wrong table can fail, and `Torn.ReturnExactIff`
  says when the view that is then returned is right all the same.
- A row is written behind the rows already in the producer's buffer without a look at the room that is
  left (`lib/io/kafka/bgpview_io_kafka_producer.c:577`). `ProducerClass.Producer.Emit` has the exact
  condition, which rows of at most half the buffer meet; `ProducerClass.LongRowOverruns` is an instance.
- The MOAS window start is a 32-bit subtraction that wraps when the view's time is smaller than the
  window. `Moas.RememberedIff` gives the exact condition, `Moas.EarlyViewsFail` an instance. The end
  of a case goes unlogged exactly when the gap between views is longer than the window
  (`Moas.FinishedIff`).
- The 16-bit view counters of pfx2as are guarded by a check that lets one configuration through in
  which an interval holds 65536 views: `Pfx2as.WhenCountersFit` gives the exact condition and
  `Pfx2as.CounterExceeds16Bits` feeds the views.
- The archive's end marks are eight bytes that a record can begin with: a peer with identifier 0x4247
  and a certain collector name, or a cell of that peer with a certain path index before a cell of
  peer 0x4E44. `Archive.FileRound` says exactly which archives read back; `Archive.MarkedPeerLost` and
  `Archive.MarkedCellsLost` are two that do not.

`dafny verify dfyconfig.toml` checks the whole project.

## Model

| member | source | states |
|---|---|---|
| ViewState.TallyUpdate | lib/bgpview.c:1579-1723 | changing the state of one slot moves one unit between the counters of a recount, and nothing else |
| RowSwap.SwapKeepsInv | lib/bgpview.c:1391-1723 | replacing one settled row by another, with every counter shifted by the difference, keeps every cached counter equal to its recount and every state invariant |
| RowSwap.SwapView | lib/bgpview.c:1391-1723 | such a replacement changes what a reader sees of that prefix only |
| ViewClass.View.constructor | lib/bgpview.c:1795-1803 | a new view is settled and shows nothing |
| ViewClass.View.AddPeer | lib/bgpview.c:1249-1296 | an unknown or invalid peer becomes inactive, a valid one is left alone, no cell changes, all counters stay exact |
| ViewClass.View.ActivatePeer | lib/bgpview.c:1525-1537 | exactly that peer becomes active, no cell changes |
| ViewClass.View.AddPfx | lib/bgpview.c:442-520 | the prefix gets a slot, a fresh or a leftover invalid one, and is at least inactive; no reader sees a difference |
| ViewClass.View.PfxAddPeerById | lib/bgpview.c:321-387 | the row gains the cell or the cell gains the path, and the row's and the peer's counters follow |
| ViewClass.View.AddPfxPeerById | lib/bgpview.c:1370-1389 | it fails without effect exactly when the peer is not valid; otherwise exactly that cell is shown, inactive or still active, with the new path, also when it lands in slots left over from a removal |
| ViewClass.View.AddPfxPeer | lib/bgpview.c:1335-1368 | for a valid peer the same; it fails if and only if the peer has no slot; the view stays settled if and only if the peer is valid, or has no slot while the prefix was valid before |
| Inserts.OpenEffect | lib/bgpview.c:1343-1357 | a prefix that is opened and then gets no cell breaks the invariant, unless it was valid already, and no reader sees it |
| Inserts.UnbackedCell | lib/bgpview.c:1351-1367 | a cell that is added for an invalid peer breaks the invariant |
| ViewClass.View.PfxInsert | lib/bgpview.c:1457-1465 | adding a further cell of a valid peer to the valid prefix that the iterator stands on shows exactly that cell, and everything stays settled |
| ViewClass.View.PfxActivatePeer | lib/bgpview.c:1643-1684 | exactly the current cell becomes active, and its prefix with its first active cell |
| ViewClass.View.ScanCells | lib/bgpview.c:1060-1100 | it stops at the first cell from the given slot on that the mask hits, and on that cell's peer |
| ViewClass.View.FirstPfx | lib/bgpview.c:890-955 | it stops at the first matching prefix, v4 before v6, or at the end |
| ViewClass.View.NextPfx | lib/bgpview.c:957-1005 | it moves to the next matching prefix and from the v4 into the v6 table when no version was asked for |
| ViewClass.View.SeekPfx | lib/bgpview.c:1012-1053 | it finds the prefix exactly when it is there and the mask hits it |
| ViewClass.View.PfxSeekPeer | lib/bgpview.c:1111-1166 | it finds the cell exactly when it is there and the mask hits it |
| ViewClass.View.FirstPfxPeer | lib/bgpview.c:1170-1198 | it stands on the first matching cell of a matching prefix, or there is none |
| ViewClass.View.NextPfxPeer | lib/bgpview.c:1200-1221 | it moves to the next matching cell of the prefix, else to the next matching prefix, where it stops short if that has no matching cell |
| Walk.StepComplete | lib/bgpview.c:1200-1221 | in a settled view, with equal masks, a step skips no match, even if the prefix it leaves has stopped matching |
| ViewClass.View.WalkAll | lib/bgpview.c:1170-1221 | a first/next walk with equal masks visits exactly the matching pairs of prefix and peer, each once, v4 before v6 |
| ViewClass.View.PfxDeactivatePeer | lib/bgpview.c:1686-1723 | the cell is lowered, the prefix follows with its last active cell, all counters follow; the recursion ends by prefix state, then live cells |
| ViewClass.View.DeactivatePfx | lib/bgpview.c:1606-1641 | prefix and all its active cells become inactive and every peer's counter follows |
| ViewClass.View.PfxRemovePeer | lib/bgpview.c:1467-1509 | the cell becomes invalid, the prefix follows with its last valid cell and is then flagged for collection |
| ViewClass.View.RemovePfx | lib/bgpview.c:1391-1437 | prefix and all its cells become invalid, every counter follows, the table is flagged for collection |
| ViewClass.View.DeactivateCell | lib/bgpview.c:1686-1723 | from a settled view: exactly that cell is quieted, everything stays settled |
| ViewClass.View.RemoveCell | lib/bgpview.c:1467-1509 | from a settled view: exactly that cell is gone, everything stays settled |
| ViewClass.View.RemoveRow | lib/bgpview.c:1391-1437 | from a settled view: exactly the cells of that prefix are gone, everything stays settled |
| CellOps.DeactivatePfxEffect | lib/bgpview.c:1606-1641 | from a settled view: exactly the active cells of that prefix are quieted, everything stays settled |
| Sweep.SweepCell | lib/bgpview.c:1312-1325 | lowering the peer's cell under the walk leaves nothing of the peer behind the walk and keeps the view settled |
| Sweep.SweepNext | lib/bgpview.c:1553-1568 | the step after such a change skips nothing either, so the walk stays complete and comes to an end |
| ViewClass.View.DeactivatePeerCells | lib/bgpview.c:1553-1568 | walking while deactivating reaches every active cell of the peer |
| ViewClass.View.RemovePeerCells | lib/bgpview.c:1312-1325 | walking while removing reaches every valid cell of the peer, although prefixes go invalid on the way |
| ViewClass.View.DeactivatePeer | lib/bgpview.c:1539-1577 | exactly the peer's active cells are quieted and the peer is inactive |
| ViewClass.View.RemovePeer | lib/bgpview.c:1298-1333 | exactly the peer's cells are gone and the peer is invalid |
| Copying.StatesFollow | lib/bgpview.c:1391-1723 | in every settled view a prefix is active if and only if it has an active cell, valid if and only if it has a valid one, and no cell is livelier than its peer |
| Census.TallyIsCard | lib/bgpview.c:321-387 | a recount over slots with distinct keys is the size of the set of keys in that state |
| Census.PeerCntIsCard | lib/bgpview.c:640-660 | a peer's cached counters are the numbers of prefixes that a reader sees for it, by state and version |
| Census.PfxCntIsCard | lib/bgpview.c:321-387 | a prefix's cached counters are the numbers of peers that a reader sees for it, by state |
| Census.PfxCntFits | lib/bgpview.c:321-387 | the 16-bit counters of a prefix cannot overflow, not even in sum |
| ViewClass.View.GcPfxs | lib/bgpview.c:1913-1933 | no invalid slot is left in the table and no reader sees a difference |
| ViewClass.View.GcPeers | lib/bgpview.c:1935-1947 | no invalid peer is left and no reader sees a difference |
| ViewClass.View.Gc | lib/bgpview.c:1905-1948 | no invalid slot is left anywhere, also in tables whose flag was down, and no reader sees a difference |
| ViewClass.View.Clear | lib/bgpview.c:1859-1903 | the view is settled, at time zero, and cannot be told from a fresh one |
| ViewClass.View.CopyPeers | lib/bgpview.c:1971-1984 | the copy has exactly the active peers of the source, all active |
| ViewClass.View.CopyRow | lib/bgpview.c:1986-2028 | the copy has gained exactly the active cells of the row |
| ViewClass.View.CopyFrom | lib/bgpview.c:1950-2039 | the copy shows exactly the active part of the source, at the same time, and caches the same active counts for the view and for every peer |
| ViewClass.View.DropIdlePeers | lib/io/kafka/bgpview_io_kafka_consumer.c:1251-1263 | afterwards a peer is active if and only if it has an active cell, and no cell has changed |
| Sent.CopyAnnounces | lib/consumers/bvc_viewsender.c:410-421 | the full-feed filter announces the same table from the parent copy as from the view it was copied from |
| Sent.AnnouncedMeans | lib/consumers/bvc_viewsender.c:410-421 | announced are exactly the active cells of the peers that show at least so many active v4 prefixes, or at least so many active v6 prefixes, where the prefixes are counted in what a reader sees; and each with its path |
| RowCodec.PathRound | lib/io/bgpview_io.c:222-279 | a path parses back to itself and to no more than its bytes |
| RowCodec.RowRound | lib/io/bgpview_io.c:361-569 | whatever follows, a row parses back to the same prefix, cells and paths and consumes exactly its own bytes |
| RowCodec.DistinctRowFits | lib/io/bgpview_io.c:472-480 | every row of distinct peers 1..65534 fits: the reader's bound on reads suffices |
| RowCodec.OneReadShort | lib/io/bgpview_io.c:472-480 | one read fewer than cells plus end mark misses the mark, so the bound cannot be smaller |
| RowCodec.RowsRound | lib/io/kafka/bgpview_io_kafka_consumer.c:661-710 | a message of rows parses back to the same rows |
| RowCodec.SplitRound | lib/io/kafka/bgpview_io_kafka_consumer.c:661-710 | any split of rows into non-empty messages parses to the same sequence of rows |
| RowCodec.SizeIs | lib/io/kafka/bgpview_io_kafka_producer.c:102-142 | the size by which the producer fills its buffer is the number of bytes of the row |
| RowCodec.RowLayout | lib/io/bgpview_io.c:361-416 | the bytes of a row one by one: the letter S, U or R, the version 4 or 6, the address, the prefix length, the cells with peers in network order and path lengths low byte first, two bytes 0xff, and the number of cells |
| RowBuffer.SerializePfx | lib/io/bgpview_io.c:107-127 | the buffer holds the prefix's bytes at the offset and is otherwise unchanged |
| RowBuffer.SerializePath | lib/io/bgpview_io.c:222-247 | the same for a path |
| RowBuffer.SerializeCell | lib/io/bgpview_io.c:281-330 | the same for a cell, without path in a removal |
| RowBuffer.SerializeRow | lib/io/bgpview_io.c:332-416 | the same for a whole row with its operation, end mark and count |
| RowBuffer.DeserializeRow | lib/io/bgpview_io.c:418-569 | the loop computes the parse of the row; a row that is cut short or miscounted is refused |
| RowBuffer.DeserializeMsg | lib/io/kafka/bgpview_io_kafka_consumer.c:661-710 | the loop computes the parse of the message |
| Tables.TruthfulExact | lib/io/bgpview_io.c:520-558 | applying a frame that says nothing false gives the new table if and only if the old one agrees with it wherever the frame is silent |
| Tables.DiffApplies | lib/io/kafka/bgpview_io_kafka_producer.c:395-537 | applying all cells of a diff to the parent's table gives the new table |
| Tables.DiffAnyOrder | lib/io/kafka/bgpview_io_kafka_producer.c:571-679 | in any order of the cells, hence of the rows and messages |
| ProducerClass.Producer.Emit | lib/io/kafka/bgpview_io_kafka_producer.c:79-85 | a buffered row is neither lost nor doubled, whether or not the buffer goes out, and is counted once; it fits if and only if the rows before it leave enough room, which rows of at most half the buffer always find |
| ProducerClass.LongRowOverruns | lib/io/kafka/bgpview_io_kafka_producer.c:571-590 | two rows that the format can carry and that each fit the buffer alone, of which the second does not fit behind the first |
| ProducerClass.Producer.SendNow | lib/io/kafka/bgpview_io_kafka_producer.c:515-537 | a row sent past the buffer is counted once as well |
| ProducerClass.Producer.PickCells | lib/io/bgpview_io.c:332-359 | a row carries exactly the announced cells of its prefix, each peer once |
| ProducerClass.Producer.DiffCell | lib/io/kafka/bgpview_io_kafka_producer.c:395-473 | what is said of one cell is the change of that cell, and nothing is said where old and new agree, as long as the store has one identifier for each path |
| ProducerClass.Producer.DiffNew | lib/io/kafka/bgpview_io_kafka_producer.c:395-473 | for every cell of the new view the difference to the parent is said truthfully, or there is none |
| ProducerClass.Producer.DiffOld | lib/io/kafka/bgpview_io_kafka_producer.c:475-513 | for every cell of the parent that is gone the removal is said, and no peer is said twice |
| ProducerClass.Producer.DiffCells | lib/io/kafka/bgpview_io_kafka_producer.c:376-513 | update and removal row together say exactly what changed for the prefix under the filter |
| ProducerClass.Producer.SendCells | lib/io/kafka/bgpview_io_kafka_producer.c:376-547 | the rows sent are true, cover every change of the prefix, and are counted |
| ProducerClass.Producer.SendNewRow | lib/io/kafka/bgpview_io_kafka_producer.c:571-645 | for one prefix of the new view the rows sent are true, cover every change and say no cell twice, whether or not the parent has the prefix |
| ProducerClass.Producer.SendOldRow | lib/io/kafka/bgpview_io_kafka_producer.c:647-679 | nothing is sent if the new view has the prefix; otherwise all its announced cells are taken back |
| ProducerClass.Producer.SendPeers | lib/io/kafka/bgpview_io_kafka_producer.c:301-374 | exactly the active peers that show enough prefixes of one family are listed, each once, and so every peer with an announced cell |
| ProducerClass.Producer.SendSyncPfxs | lib/io/kafka/bgpview_io_kafka_producer.c:571-590 | the frame is a diff of the empty table and the announced table, says no cell twice, and the end record counts its rows over all messages |
| ProducerClass.Producer.SendNewPfxs | lib/io/kafka/bgpview_io_kafka_producer.c:571-645 | every prefix of the new view is covered by true rows, and no cell is said twice |
| ProducerClass.Producer.SendOldPfxs | lib/io/kafka/bgpview_io_kafka_producer.c:647-679 | after the second pass every prefix at all is covered, and still no cell is said twice |
| ProducerClass.Producer.SendDiffPfxs | lib/io/kafka/bgpview_io_kafka_producer.c:549-704 | the frame is a diff of the two announced tables, says no cell twice and, as long as the store has one identifier for each path, none that is in both; the end record counts its rows over buffered and direct messages |
| ProducerClass.Producer.SendSyncView | lib/io/kafka/bgpview_io_kafka_producer.c:706-745 | a sync frame lists exactly the active full-feed peers and is a diff of the empty table and the announced table that says no cell twice |
| ProducerClass.Producer.SendDiffView | lib/io/kafka/bgpview_io_kafka_producer.c:747-795 | a diff frame lists exactly the active full-feed peers and is a diff of the two announced tables that says no cell twice, and none that has not changed |
| Sent.FrameFitsFormat | lib/io/bgpview_io.c:281-330 | every row of such a frame fits the row format |
| ViewSenderClass.ViewSender.ProcessView | lib/consumers/bvc_viewsender.c:516-576 | sync exactly on the beat, nothing before the first sync, otherwise a diff against the table announced last, with exactly the active full-feed peers listed; no frame says a cell twice; the parent copy announces the table just sent |
| ViewSenderClass.ViewSender.KeepCopy | lib/consumers/bvc_viewsender.c:562-576 | the parent becomes a copy with the view's time that announces what the view announces |
| Naming.PullAll | lib/io/bgpview_io.c:520-558 | applying renamed cells and then reading under the producer's names is applying the cells themselves |
| Naming.OtherAll | lib/io/bgpview_io.c:520-558 | applying the cells of one producer to a shared table leaves the part of every producer with other peers alone |
| Naming.OwnDrop | lib/io/kafka/bgpview_io_kafka_consumer.c:837-867 | dropping a peer takes exactly its cells out of its own producer's part |
| Naming.OtherDrop | lib/io/kafka/bgpview_io_kafka_consumer.c:837-867 | and nothing out of the part of any producer with other peers |
| ReceiverClass.Receiver.AddMapping | lib/io/kafka/bgpview_io_kafka_consumer.c:44-97 | the remote peer has its local name, all other names stay, the peer is active, no cell changes |
| ReceiverClass.Receiver.RecvPeers | lib/io/kafka/bgpview_io_kafka_consumer.c:465-569 | a listed peer has the name that its last entry gives it, any other the name it had; listed peers are active, and no other peer is activated |
| ReceiverClass.Receiver.ApplyRow | lib/io/bgpview_io.c:418-569 | the shown table changes exactly by the row's cells under their local names |
| ReceiverClass.Receiver.ApplyCell | lib/io/bgpview_io.c:520-558 | the shown table changes exactly by the one cell, and the iterator is left on the prefix for the next cell |
| ReceiverClass.Receiver.Withdraw | lib/io/bgpview_io.c:541-555 | the cell is found, by prefix or in the current row, exactly when it is valid; exactly it is deactivated, and a missing one changes nothing |
| ReceiverClass.Receiver.RecvPfxs | lib/io/kafka/bgpview_io_kafka_consumer.c:571-731 | the table changes by exactly the rows before the end, or before the break, a broken row up to the cell where it breaks; the frame is accepted if and only if the end record counts the rows; the time is set by the end record even when the count is wrong |
| ReceiverClass.Receiver.RecvView | lib/io/kafka/bgpview_io_kafka_consumer.c:733-784 | into a view that other producers share, whatever arrives of a frame changes the shown table exactly by its cells under the producer's names; named are afterwards the peers named before and those listed; no prefix message is read when the peer list breaks |
| ReceiverClass.Receiver.RecvFrame | lib/io/kafka/bgpview_io_kafka_consumer.c:1206-1263 | a receiver that holds the parent's table, or gets a sync frame, holds the table that the received rows make of it, under the producer's names, and nothing else; after a complete frame the active peers are those with an active cell |
| ReceiverClass.Receiver.DeactivateWorker | lib/io/kafka/bgpview_io_kafka_consumer.c:837-867 | exactly the active cells of the named peers are quieted |
| ReceiverClass.Receiver.DisableMember | lib/io/kafka/bgpview_io_kafka_consumer.c:837-867 | exactly the cells of the member's named peers leave the shared view, and nothing of the member's part is left |
| ReceiverClass.OwnPartEmptied | lib/io/kafka/bgpview_io_kafka_consumer.c:837-867 | disabling a member leaves it no active cell |
| ReceiverClass.OtherPartKept | lib/io/kafka/bgpview_io_kafka_consumer.c:837-867 | disabling a member changes nothing for a member with other peers |
| Replication.CrossCheck | lib/io/kafka/bgpview_io_kafka_consumer.c:629-651 | a frame is accepted if and only if as many rows arrive as the end record counts |
| Replication.LossIsNoticed | lib/io/kafka/bgpview_io_kafka_consumer.c:642-646 | a frame with any one of its messages missing is refused |
| Replication.ThroughBytes | lib/io/kafka/bgpview_io_kafka_producer.c:571-704 | all messages of a frame survive serialization and parsing |
| Replication.ReplicateDiff | lib/io/kafka/bgpview_io_kafka_producer.c:747-795 | from two views at the producer to one at the receiver: a receiver that holds the announced table of the parent, and knows the peers that the frame lists, ends with the announced table of the new view, at its time |
| Replication.ReplicateSync | lib/io/kafka/bgpview_io_kafka_producer.c:706-745 | the same for a sync frame, whatever the receiver held before |
| Direct.ProducerKeeps | lib/io/kafka/bgpview_io_kafka_producer.c:706-795 | the topic stays in order: growing times, each diff against the frame before it, each pointing back to its sync frame, also with foreign messages in between |
| Direct.RewindFindsSync | lib/io/kafka/bgpview_io_kafka_consumer.c:330-343 | in every run each own diff points back to an offset from which the next own frame is a sync frame that comes before the diff |
| Direct.TopicInOrder | lib/io/kafka/bgpview_io_kafka_producer.c:706-795 | in every run, whatever consumer and caller do, the topic is in order and only grows |
| Direct.RewindThenSync | lib/io/kafka/bgpview_io_kafka_consumer.c:284-362 | in every run the first own frame that the consumer meets after a rewind is a usable sync frame, so it neither skips it nor rewinds again |
| Direct.FindFrame | lib/io/kafka/bgpview_io_kafka_consumer.c:284-362 | the metadata loop ends at exactly one frame: after a failed receive the next sync frame, otherwise the next own frame if it is a sync frame or a diff to the held table, else the first own frame from the sync offset that it points to; it gets there by skips and at most one rewind, and runs dry only where there is no such frame |
| Direct.CallReturns | lib/io/kafka/bgpview_io_kafka_consumer.c:1206-1249 | a call over a table that is not torn, if nothing goes wrong while receiving, returns exactly that frame's table and time, by steps of the protocol |
| Direct.AcceptedParent | lib/io/kafka/bgpview_io_kafka_consumer.c:330-330 | a diff is accepted only over the very table it is a difference to |
| Direct.FinishExact | lib/io/kafka/bgpview_io_kafka_consumer.c:629-651 | a frame received completely leaves exactly its announced table |
| Direct.ConsumerKeeps | lib/io/kafka/bgpview_io_kafka_consumer.c:1206-1249 | every step, failed receives and rewinds included, keeps the view exact or too old for any diff it can meet |
| Direct.TornOnlyAfterFailure | lib/io/kafka/bgpview_io_kafka_consumer.c:1216-1235 | for such a caller a table is torn only until the call ends or, once the call has failed, until the view is cleared |
| Direct.EveryReturnExact | lib/io/kafka/bgpview_io_kafka_consumer.c:1206-1266 | over every run of one producer and one consumer whose caller clears the view after a failed call before calling again, each returned view is exactly the announced table of the frame whose time it bears |
| Torn.ReturnExactIff | lib/io/kafka/bgpview_io_kafka_consumer.c:629-646 | whatever table is held, the view returned is right if and only if the table already agreed wherever the frame is silent |
| Torn.TornRunFails | lib/io/kafka/bgpview_io_kafka_consumer.c:1216-1235 | a run in which a caller calls again after a failed call without clearing the view, and is handed a view that is no frame's table |
| Torn.TornCallFails | lib/io/kafka/bgpview_io_kafka_consumer.c:1216-1235 | calling over any wrong table that bears the latest frame's time can be answered with a wrong view |
| Refinement.SendStep | lib/consumers/bvc_viewsender.c:516-576 | publishing a view is a step of the direct protocol: a sync frame at the offset taken before, a diff, or nothing |
| Refinement.RecvStep | lib/io/kafka/bgpview_io_kafka_consumer.c:733-784 | receiving whatever arrives of a usable frame is a step of the direct protocol: it finishes, counts wrong or breaks, with the same table, time and names |
| Refinement.WorkerStep | lib/io/kafka/bgpview_io_kafka_consumer.c:787-834 | a worker that takes its job, names the listed peers and files the rows that arrive into the shared view takes steps of the global protocol, and reports an error if and only if the frame was not complete |
| Refinement.DisableStep | lib/io/kafka/bgpview_io_kafka_consumer.c:837-867 | so does the main thread when it disables a member |
| Global.StepKeeps | lib/io/kafka/bgpview_io_kafka_consumer.c:787-1120 | every critical section of the main thread and of every worker keeps handshake, contents and names, over one table that all members share |
| Global.WorkerParts | lib/io/kafka/bgpview_io_kafka_consumer.c:787-834 | a worker's step changes its own part of the shared table as its frame says, no other part, and leaves no cell without an owner |
| Global.AssignedUnderway | lib/io/kafka/bgpview_io_kafka_consumer.c:984-1020 | a job is handed out only over the part of the shared table that its frame is a diff of |
| Global.EveryAssertHolds | lib/io/kafka/bgpview_io_kafka_consumer.c:787-1120 | in every interleaving only the four handshake states are seen, every assertion of both threads holds, those on a new worker included, and a member is disabled only while its worker is not busy |
| Global.EveryRoundAllOrNothing | lib/io/kafka/bgpview_io_kafka_consumer.c:947-1122 | after every call each member's part of the shared table is its whole table at the view's time or nothing, and that of a member marked empty is nothing, although disabling drops only the peers that the member has named |
| Rounds.EveryRoundOutcome | lib/io/kafka/bgpview_io_kafka_consumer.c:947-1122 | whether a member contributes is told by the steps of the round alone: it was due, was handed its job, its worker filed a complete frame and it was not disabled; exactly then its part of the returned table is its whole table at the round's time, else its part is empty |
| Rounds.DueAgain | lib/io/kafka/bgpview_io_kafka_consumer.c:984-1020 | in a round of diffs a member is due if and only if its metadata is there and it contributed to the round before |
| Rounds.EveryViewAssembled | lib/io/kafka/bgpview_io_kafka_consumer.c:947-1122 | the shared table that a call returns holds a cell with a path if and only if some member that contributed in this round announces it at the view's time |
| Progress.EveryRoundCanEnd | lib/io/kafka/bgpview_io_kafka_consumer.c:947-1122 | no round gets stuck: from every reachable state within a round there are steps that end the call |
| Progress.EveryRoundCanSucceed | lib/io/kafka/bgpview_io_kafka_consumer.c:947-1122 | from every state between calls, for any usable metadata, there is a round after which every member that was due has its whole table in the view |
| Archive.PeerLooksLikeMark | lib/io/file/bgpview_io_file.c:73-102 | exactly which peer record is taken for the end of the peers |
| Archive.CellLooksLikeMark | lib/io/file/bgpview_io_file.c:73-102 | exactly which cell, before which two bytes, is taken for the end of a row |
| Archive.PathRecRound | lib/io/file/bgpview_io_file.c:519-607 | a path record parses back and is never taken for an end mark |
| Archive.ListExact | lib/io/file/bgpview_io_file.c:434-501 | a list of records reads back as itself if and only if it is within the bound on reads, its records are good and no tail of it reads like the mark |
| Archive.TableExact | lib/io/file/bgpview_io_file.c:415-517 | the same with the count after the mark; a table of the largest countable size is refused, because its mark is then read as the count |
| Archive.RowRecExact | lib/io/file/bgpview_io_file.c:342-413 | a prefix record is never taken for a mark, and reads back if and only if no two of its neighbouring cells read like its end and they are few enough |
| Archive.FileRound | lib/io/file/bgpview_io_file.c:753-872 | an archive reads back as exactly what was written, no byte more consumed, if and only if none of its records reads like a mark and its tables are within bounds |
| Archive.MarkedPeerLost | lib/io/file/bgpview_io_file.c:73-102 | an archive with one such peer does not read back |
| Archive.MarkedCellsLost | lib/io/file/bgpview_io_file.c:73-102 | nor does one with two such cells |
| Archive.FileLayout | lib/io/file/bgpview_io_file.c:753-800 | the bytes of an archive: marks spelt out in letters, the time, and the three tables with their counts at their offsets |
| Archive.RowRecLayout | lib/io/file/bgpview_io_file.c:300-413 | the bytes of a prefix record: length and bytes of the address, prefix length, and the table of cells with its mark and count |
| Archive.PeerLayout | lib/io/file/bgpview_io_file.c:163-235 | the bytes of a peer record one by one, numbers in network order |
| Archive.PathLayout | lib/io/file/bgpview_io_file.c:237-298 | the bytes of a path record one by one, numbers low byte first |
| ArchiveFile.ReadList | lib/io/file/bgpview_io_file.c:434-501 | the peek-then-read loop computes the parse of the list |
| ArchiveFile.BuildPathMap | lib/io/file/bgpview_io_file.c:576-590 | the doubling map leads every index used to its path and no other index anywhere; its length is twice some index used, or one |
| ArchiveFile.Save | lib/io/file/bgpview_io_file.c:163-413 | the archive holds exactly the active peers and the active cells, each once, with the time |
| ArchiveFile.Load | lib/io/file/bgpview_io_file.c:415-749 | a view that shows nothing ends up showing exactly the archive's cells under local names, with its time and its peers active |
| ArchiveFile.ArchiveRoundTrip | lib/io/file/bgpview_io_file.c:753-872 | written to bytes and read into an empty view, the active part of a view is back |
| Pfx2as.CountCell | lib/consumers/bvc_pfx2as.c:754-839 | only what is recorded for the cell's origin changes; slots in use keep distinct origins; a new or recycled slot brings nothing along |
| Pfx2as.CountRow | lib/consumers/bvc_pfx2as.c:749-840 | each origin's full and partial count grows by one if and only if some such peer showed it in the row |
| Pfx2as.Pfx2asConsumer.ClearPfxMap | lib/consumers/bvc_pfx2as.c:579-597 | after an interval nothing counts any more, although exactly the prefixes with one slot keep it for reuse |
| Pfx2as.Pfx2asConsumer.CountView | lib/consumers/bvc_pfx2as.c:720-841 | the slots count one view more, exactly |
| Pfx2as.Pfx2asConsumer.ProcessView | lib/consumers/bvc_pfx2as.c:669-856 | start plus count times interval is the arriving view's time, so intervals tile time; the counts are those of the views of the current interval only |
| Pfx2as.CountersFit | lib/consumers/bvc_pfx2as.c:680-704 | no interval holds more views than its capacity, and no counter of an origin, nor of a peer for an origin, exceeds the number of views |
| Pfx2as.WhenCountersFit | lib/consumers/bvc_pfx2as.c:680-684 | given the check on entry, 16 bits suffice if and only if the quotient is below 65535 or the division is even |
| Pfx2as.FillInterval | lib/consumers/bvc_pfx2as.c:669-856 | views at a fixed distance fill the first interval to its capacity, and the counter of an origin that all of them show counts every one |
| Pfx2as.CounterExceeds16Bits | lib/consumers/bvc_pfx2as.c:680-684 | in the configuration that the check on entry lets through a counter reaches 65536 |
| GeoRuns.UpdateRuns | lib/consumers/bvc_pergeovisibility.c:460-509 | exactly the block's addresses are added, runs stay in order and never touch, and the assertion on the start address holds |
| GeoRuns.BuildCache | lib/consumers/bvc_pergeovisibility.c:1007-1119 | one entry for each location that occurs and none for any other, whose runs hold exactly the addresses of that location's blocks |
| GeoRuns.Reaches | lib/consumers/bvc_pergeovisibility.c:608-617 | rounding up reaches exactly the /24 networks that the run meets |
| GeoRuns.Explode | lib/consumers/bvc_pergeovisibility.c:605-617 | the set of networks is exactly the set of /24s that the runs meet |
| GeoRuns.NoOverflow | lib/consumers/bvc_pergeovisibility.c:608-617 | for every prefix but the default route, whatever blocks cover it, the arithmetic on each run of its cache stays within 32 bits and the shifted counter within 31 |
| GeoRuns.DefaultRouteOverflows | lib/consumers/bvc_pergeovisibility.c:460-509 | the default route in one block does not fit |
| Moas.BuildSignature | lib/consumers/bvc_moas.c:813-852 | the signature holds exactly the origins of the full-feed peers, without duplicates |
| Moas.SigEqualIsSet | lib/consumers/bvc_moas.c:128-143 | comparing sorted signatures is comparing sets of origins |
| Moas.MoasConsumer.AddMoas | lib/consumers/bvc_moas.c:466-529 | only that case changes, and at most one line is logged, for that case and with the view's time |
| Moas.MoasConsumer.CleanMoas | lib/consumers/bvc_moas.c:418-464 | every case is dropped, finished or kept by its own dates, whatever the order of the scan |
| Moas.MoasConsumer.ProcessView | lib/consumers/bvc_moas.c:761-870 | each case's state and its lines in the log, with their times, are functions of its own history of sightings |
| Moas.CategoryFromHistory | lib/consumers/bvc_moas.c:494-528 | for any growing times from the window on: ongoing if and only if the view before showed the case, recurring if and only if it was last seen earlier within the window, new otherwise |
| Moas.FinishedFromHistory | lib/consumers/bvc_moas.c:444-457 | for any growing times from the window on: an end is logged if and only if the view before showed the case and is no older than the window |
| Moas.LogAlternates | lib/consumers/bvc_moas.c:419-528 | while no gap is longer than the window, the log of a case strictly alternates beginnings and ends, and it has a line with the time of each view in which the case turns up or goes missing, in order, and no other lines |
| Moas.RememberedIff | lib/consumers/bvc_moas.c:774-774 | a case that is seen is remembered if and only if the view's time is at least the window |
| Moas.EarlyViewsFail | lib/consumers/bvc_moas.c:774-774 | two early views in a row are logged as new twice |
| Moas.FinishedIff | lib/consumers/bvc_moas.c:438-457 | the end of an ongoing case is logged if and only if the gap is no longer than the window |
| Subpfx.AddAsn | lib/consumers/bvc_subpfx.c:239-264 | origins are added once, and origin lists hold no duplicates |
| Subpfx.CollectOrigins | lib/consumers/bvc_subpfx.c:665-690 | the list holds exactly the plain origins seen by full-feed peers |
| Subpfx.IsWanted | lib/consumers/bvc_subpfx.c:299-338 | some origin is new, respectively the origin sets are equal, although only sizes and inclusion are compared |
| Subpfx.SmallestAround | lib/consumers/bvc_subpfx.c:272-286 | a smallest covering prefix is found exactly when any prefix of the tree covers |
| Subpfx.CoversNest | lib/consumers/bvc_subpfx.c:272-286 | every other covering prefix contains the smallest one |
| Prefixes.ContainsIsRange | lib/consumers/bvc_subpfx.c:272-286 | comparing bits is comparing ranges: a prefix contains another if and only if they are of one family and every address of the second is one of the first, but not the other way round |
| Subpfx.OneCover | lib/consumers/bvc_subpfx.c:272-286 | if no network occurs twice, the smallest covering prefix is unique |
| Subpfx.Diff | lib/consumers/bvc_subpfx.c:455-481 | one event for each pair that the other relation lacks, and no other |
| Subpfx.SubpfxConsumer.BuildTree | lib/consumers/bvc_subpfx.c:645-708 | exactly the non-default prefixes with a plain origin are in the tree, with their origins |
| Subpfx.SubpfxConsumer.FindSubpfxs | lib/consumers/bvc_subpfx.c:266-350 | the relation holds exactly the wanted pairs of a prefix and the smallest prefix of the tree that contains it |
| Subpfx.SubpfxConsumer.ProcessView | lib/consumers/bvc_subpfx.c:710-731 | replaying all events gives exactly the pairs of rows of this view that take part, the second being the longest such prefix around the first and their origins related as the mode asks; where a network occurs under two addresses the one looked up; new pairs were not in the last relation, finished pairs were, each event once |

## Left out

- ViewClass.View.CopyFrom: models views that share path store and peer signatures, so that identifiers carry over; the branch that copies paths between stores is not modelled.
- ReceiverClass.Receiver.ApplyRow: requires that announced peers are named and active, and that a withdrawal of several cells finds the first of them; after missing that one the source goes on with an iterator that points past the table. Receiver-side filters are not modelled.
- RowBuffer.DeserializeRow: parsing and applying are separate here; the source applies a cell as soon as it is parsed, so that a row that breaks is applied up to the break (`ReceiverClass.Receiver.RecvPfxs` covers that). The identifier zero, which is never written, is refused here; the source refuses it in an announcement and passes over it in a removal.
- ProducerClass.Producer.SendDiffPfxs: the filter is the full-feed filter, which accepts every prefix, so the branches for a rejected prefix are not modelled; peer messages are records, not bytes.
- Direct.EveryReturnExact: metadata messages are records, failed and lost messages are steps of the machine, and time moves only as the protocol moves it; a frame whose messages stop arriving, for which the source waits, is no step.
- Global.EveryRoundAllOrNothing: shutdown and thread join are not modelled; that a round can end is proved in `Progress`, that it will, which depends on the scheduler and on frames arriving, is not claimed; each critical section is one step, and the search for global metadata is taken as the step that begins a round.
- ArchiveFile.BuildPathMap: does not model the 32-bit overflow of the map's size for path indices from 2^30 on.
- ArchiveFile.ArchiveRoundTrip: asks that no active peer reads like a mark, that no prefix shows two cells that would read like one as neighbours, in whatever order they are stored, and that identifier 65535 is not in use; `Archive.FileRound` has the exact condition on the records.
- Archive.FileRound: an input that ends before an archive begins is refused here, while the source reports the end of the file; a count that does not match, at which the source aborts, is a refusal.
- ArchiveFile.Save: without filter, because the source writes a prefix header before it knows whether any cell passes.
- Pfx2as.Pfx2asConsumer.ProcessView: the limit of 512 origins per prefix, the per-peer prefix totals of the output and the text output are not modelled.
- Moas.BuildSignature: the limit of the origins array is not modelled; neither are the counters and files of the output.
- Subpfx.SubpfxConsumer.FindSubpfxs: the Patricia tree is a lookup of which only the result is known, the smallest covering prefix.
- Subpfx.SubpfxConsumer.BuildTree: two prefixes whose addresses differ only after the prefix are kept apart; whether the Patricia tree, which is not part of this model, takes them for one is not said. `Subpfx.OncePerNetwork` is the condition under which it does not matter.
- GeoRuns.BuildCache: one location table stands for continents, countries and polygons, which repeat the same steps; the cache across database reloads is not modelled.
- The path store and the peer signature map are parameters: functions from identifiers to paths and from signatures to identifiers.
- User pointers and destructors, allocation failures and the layout variants of the view's tables.
- The ZMQ transport, the other consumers, the consumer manager, the command-line tools and all metric and file naming.
