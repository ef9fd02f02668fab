# B4Mesh blockgraph replication, modelled in Dafny

B4Mesh is a blockchain protocol for mobile mesh networks. The ledger is a
blockgraph: a DAG of blocks whose tips ("childless blocks") are joined again
by a merge block after a group of nodes splits and later merges. Every node
runs the same consensus application. It keeps:

- a mempool of pending transactions;
- a blockgraph;
- a waiting list of blocks whose parents have not arrived yet;
- a missing list that maps each absent block hash to the addresses to ask for it;
- the reconciliation registry `recover_branch`, which maps a childless hash to the ids of the nodes that hold it;
- the list of missing childless hashes of the other branch.

A companion mobility application computes the node's group from the routing
table, classifies each change (split, merge, arbitrary) and names the group
by a hash of its members. The simpler `Central` application is a
leader/follower dissemination protocol with terms and bounded retransmission.

The model is functional. A node's state is the immutable record
`Node.NodeState`. Each handler of the source is a pure transition. What the
handler would send, schedule or hand to consensus is appended to the
state's `outbox` as an `Effect`, so every timer callback is a separate step.

- The std::map and std::multimap fields are association lists kept in key order (module `Assoc`), so every loop visits entries in the source's order.
- Hashes and payloads are byte strings (`seq<Byte>`).
- Signed `int` overflow, which C++ leaves undefined, is modelled as the two's-complement wrap the compiled code performs (`Bytes.Wrap32`). This covers the mempool byte sum (`Mempool.SizeMempoolBytes`), the character sum of `Mobility.SumChars`, `currentTerm + 1` in `Central` and `index + 1` of a new block. Conversions of sizes to `int` wrap the same way.
- Undefined behaviour and uncaught exceptions of the source are a `Failure(Fault)` result: `peers[id]` out of range, a failing `stoi`, `string(n, c)` or `string(p, n)` with a negative length, `GetBlock` of an absent hash, `substr` past the end, a packet buffer read past its end.

Modules, following the source files:

- `Blocks` and `BlockCodec`: the block record, its setters and its wire format (block.cc).
- `Packets`: the framing of application packets (application_packet.cc).
- `Central`: the leader/follower dissemination application (Central.cc).
- `Mempool`, `Reception`, `Sync`, `Topology`, `Factory` and `Leader`: the consensus application (b4mesh.cc). They cover transactions, block reception, reconciliation, topology bookkeeping, block assembly and the leader's merge round.
- `Mobility`: group discovery and the group id (b4mesh-mobility.cc).
- `Node`, `Net`, `Blockgraphs` and `Transactions`: shared state and lookups.
- `Assoc`, `Bytes` and `Decimal`: the library behaviour the source relies on (maps, byte strings, `to_string`, `stoi`).

The filter applied to a block's unknown parents changed between
revisions of b4mesh.cc: it was the waiting list (the commented-out code at
b4mesh.cc:828-843) and is now the missing list (b4mesh.cc:659-662). The
model keeps both as `Node.ParentFilter` strategies, `AgainstMissingList`
and `AgainstWaitingList`. Its findings about them are below.

Details of the code that the model keeps:

- `BlockTreatment` records the block's leader as the last leader before looking at the block (b4mesh.cc:630, as the comment at b4mesh.cc:608-609 says). So a dumped block changes `lastLeader` as well as the dump counter.
- A block already on the waiting list first has its missing-list entries erased (b4mesh.cc:637-641) and only then is dumped.
- The doc comment at b4mesh-mobility.h:126-130 describes `CalculDiffBtwGroups` the other way round. `Mobility.CalculDiffBtwGroups` follows the code at b4mesh-mobility.cc:817-842.
- `CalculateSize` (block.cc:302-328) counts a header of 88 + 32·|parents| bytes. The record that `Serialize` copies is 8 bytes longer, because it also holds parents_count and tx_count. `BlockCodec.SerializedLength` states both facts. Only the size field is affected, and the model keeps the source's value.

## Model

| member | source | states |
|---|---|---|
| Assoc.Put | b4mesh.cc:537-537 | `m[k] = v` binds k to v and leaves every other key as it was |
| Assoc.Remove | b4mesh.cc:1080-1080 | `m.erase(k)` removes k and leaves every other key as it was |
| Assoc.Insert | b4mesh.cc:954-963 | `multimap::insert` adds k to the keys and leaves every other key's values as they were |
| Assoc.InsertAtUpperBound | b4mesh.cc:954-963 | the inserted value ends k's equal range |
| Assoc.EraseRange | b4mesh.cc:1048-1050 | `multimap::erase(k)` removes k's whole equal range and nothing else, keeping pairs unique |
| Assoc.InsertNew | b4mesh.cc:1494-1529 | the registration insert adds the pair (k, v) at the end of k's range unless it is already there, and touches no other key |
| Net.IdFromIp | Central.cc:264-271 | the id of an address is its first position in the peer table, and -1 exactly when the table does not hold it |
| Net.IpFromId | Central.cc:259-262 | the address of an id in range is an address of the peer table |
| Net.IdFromIpOfIpFromId | Central.cc:259-271 | on a table without repeated addresses, looking up the address of id gives id back |
| Net.SortMembers | b4mesh-mobility.cc:754 | `std::sort` of a group returns a sorted permutation of it |
| Net.SortedUnique | b4mesh-mobility.cc:852 | two sorted groups with the same members are equal, so the sorted order forgets how a group was assembled |
| Net.SortPermutationInvariant | b4mesh-mobility.cc:852 | groups with the same members sort to the same sequence |
| Node.Init | b4mesh.cc:17-124 | a node set up by the constructor, `SetUp` and `StartApplication` runs, knows its id, address and peers, and has empty lists, an empty blockgraph, a zero group id, block creation on and no merge |
| Node.GetIdFromIpAsWritten | b4mesh.cc:205-212 | the lookup as written succeeds exactly for a peer address, with its first position; any other address reads `peers[peers.size()]` |
| Node.GetIdFromIpCorrected | b4mesh.cc:205-212 | where the as-written lookup succeeds it agrees with `Net.IdFromIp`; it overruns exactly where `Net.IdFromIp` answers -1 |
| Node.GetIdFromIpOverrun | b4mesh.cc:205-212 | for the peer table [7] and the address 8 the as-written lookup faults at index 1 and the corrected one answers -1 |
| Node.GetIpAddressFromId | b4mesh.cc:217-220 | the address of an id is `peers[id]`, and an id outside the table is an out-of-range read |
| Node.SendPacket | b4mesh.cc:382-421 | a running node emits exactly one send of the message to the address; a stopped node emits nothing; nothing else changes |
| Node.BroadcastSends | b4mesh.cc:428-433 | a broadcast sends the message to every listed address other than the node's own, and to no other address |
| Node.BroadcastPacket | b4mesh.cc:428-433 | a running node appends the broadcast's sends and a stopped node nothing; nothing else changes |
| Node.Addresses | b4mesh.cc:496-518 | the addresses of a group are its members' addresses, position by position |
| Node.BroadcastTransaction | b4mesh.cc:496-518 | a running node sends the transaction to every member of its group other than itself, and every send it appends is of that transaction to such a member; a stopped node sends nothing |
| Blocks.Zeros | block.cc:4-16 | the zero string of a given width has that width |
| Blocks.SerializeHeader | block.cc:273-296 | the header record has a fixed wire width |
| Blocks.Serialize | block.cc:273-296 | the serialised block starts with the header record and continues with the parents back to back, the transactions after them |
| Blocks.CalculateHash | block.cc:223-229 | the hash is the digest of the block serialised with its hash field zeroed (see `Blocks.SealIgnoresOldHash`) |
| Blocks.CalculateHeaderSize | block.cc:302-328 | the header counts 88 + 32·|parents| bytes (see `BlockCodec.SerializedLength`) |
| Blocks.CalculateSize | block.cc:302-328 | the size is the header size plus the transactions' sizes; the serialised block is 8 bytes longer (see `BlockCodec.SerializedLength`) |
| Blocks.Seal | block.cc:223-229 | sealing a block sets its hash field and changes no other field |
| Blocks.SealIgnoresOldHash | block.cc:223-229 | the hash a block is sealed with does not depend on the hash it had before, since `CalculateHash` zeroes that field first |
| Blocks.DefaultBlock | block.cc:4-16 | the default block has index, leader and type 0, a zero group id, no parents or transactions, timestamp 0, the header size and its own hash |
| Blocks.NewBlock | block.cc:18-33 | the explicit constructor succeeds exactly when hash and group id fit in 32 bytes; it keeps them as prefixes of the padded fields, keeps every other argument and computes the size |
| Blocks.SetHash | block.cc:87-89 | only the hash changes, and it is not recomputed |
| Blocks.SetIndex | block.cc:95-98 | only the index changes, and the hash is recomputed over the new block |
| Blocks.SetLeader | block.cc:104-107 | only the leader changes, and the hash is recomputed |
| Blocks.SetBlockType | block.cc:115-118 | only the type changes, and the hash is recomputed |
| Blocks.SetTimestamp | block.cc:147-150 | only the timestamp changes, and the hash is recomputed |
| Blocks.SetSize | block.cc:166-169 | only the size changes, and the hash is recomputed |
| Blocks.SetGroupId | block.cc:124-127 | the group id is NUL-padded to 32 bytes, and a longer id throws; only the group id and the recomputed hash change |
| Blocks.PadHashes | block.cc:133-141 | padding succeeds exactly when every hash fits in 32 bytes, and NUL-pads each one in place |
| Blocks.PadHashesOfDigests | block.cc:133-141 | padding leaves 32-byte hashes unchanged |
| Blocks.SetParents | block.cc:133-141 | the parents are NUL-padded, or the call throws for one that is too long; the size and hash are recomputed and no other field changes |
| Blocks.SetTransactions | block.cc:156-160 | only the transactions change, with the size and hash recomputed |
| Blocks.IsParentIffListed | block.cc:171-177 | a is a parent of b exactly when b lists a's hash among its parents |
| Blocks.IsParent | block.cc:171-177 | the scan of b's parents for a's hash (see `Blocks.IsParentIffListed`) |
| Blocks.IsChild | block.cc:179-181 | a is a child of b exactly when a lists b's hash among its parents |
| Blocks.IsPartOfGroupAsWritten | block.cc:183-188 | as written every block is part of every group |
| Blocks.IsPartOfGroupSeparates | block.cc:183-188 | the intended test accepts a block into its own group and into no other |
| Blocks.IsPartOfGroupAsWrittenAcceptsAny | block.cc:183-188 | a block of the all-zero group passes the as-written test for group "1" and fails the intended one |
| Blocks.IsPartOfGroup | block.cc:183-188 | the corrected test compares the block's group id with the one asked about (see `Blocks.IsPartOfGroupSeparates`) |
| Blocks.IsMergeBlock | block.cc:199-207 | a block is a merge block exactly when its type is 1; type 0 and every other value are regular |
| Blocks.SealedAlike | block.cc:245-247 | blocks that agree on every field but the hash are the same block under `operator==` once sealed |
| BlockCodec.ParseTxs | block.cc:48-77 | a successful read of the transactions yields as many as the count asks for, none for a count below one; a transaction read with a negative remaining length throws length_error, and one from an offset before the transactions is a fault |
| BlockCodec.Parse | block.cc:48-77 | a buffer shorter than the header is rejected; a parsed block takes hash and group id from their header slots, has 32-byte parents, none for a parent count of zero or below, and a recomputed size |
| BlockCodec.ParseNegativeParents | block.cc:58-66 | a parent count from -3 to -1 runs no parent loop and starts the transactions inside the header, so with no transactions the buffer parses to a block with neither parents nor transactions |
| BlockCodec.SerializedLength | block.cc:302-328 | the header size is 88 + 32·|parents|, and the serialised block is 8 bytes longer than `CalculateSize` |
| BlockCodec.HeaderFields | block.cc:273-296 | each field of the serialised header reads back as written, the counts as 32-bit ints |
| BlockCodec.ParseOfFields | block.cc:48-77 | a buffer whose header, parent hashes and transactions read as a block's fields parses as that block |
| BlockCodec.ParseSerialize | block.cc:48-77 | a block with 32-byte parents, wire-sized transactions and a current size field is rebuilt exactly from its serialisation |
| Packets.CalculateSize | application_packet.cc:86-97 | the size is the 5-byte header plus the payload |
| Packets.EmptyPacket | application_packet.cc:7-12 | the default packet has an empty payload and the header size |
| Packets.DataPacket | application_packet.cc:19-33 | a DATA packet carries the term in its first four bytes, then max(n, 0) data bytes, and its size is the serialised size |
| Packets.ReplyPacket | application_packet.cc:39-44 | a REPLY packet carries only the term, nine bytes on the wire |
| Packets.GetTerm | application_packet.cc:70-81 | a payload shorter than four bytes has term -1 |
| Packets.Serialize | application_packet.cc:124-133 | the wire form is the header followed by the payload |
| Packets.Parse | application_packet.cc:58-65 | a buffer shorter than the header, or than the size it declares, is read past its end; a declared size below the header gives a negative payload length, which throws; a parsed packet's payload is the declared size minus the header, read from the buffer |
| Packets.ParseSerialize | application_packet.cc:58-65 | a packet whose size field is its serialised size is parsed back unchanged, whatever follows it on the wire |
| Packets.ConstructorsSized | application_packet.cc:7-44 | every constructor sets the size field to the serialised size |
| Packets.DataPacketTerm | application_packet.cc:19-33 | `GetTerm` of a DATA packet is its term |
| Packets.TermRecovered | application_packet.cc:39-81 | the term of a REPLY or DATA packet is read back by `GetTerm`, also after the packet is serialised and parsed |
| Central.Init | Central.cc:19-29 | a new node is stopped, not the leader, at term 0 with the initial data size |
| Central.SetUp | Central.cc:37-56 | every peer gets a not-in-group, term-0 entry, and node 1 becomes the leader |
| Central.StartApplication | Central.cc:58-64 | the node runs and a dissemination is scheduled at once |
| Central.StopApplication | Central.cc:66-68 | the node stops and nothing else changes |
| Central.SendPacket | Central.cc:125-148 | a packet goes out exactly when the node runs and the address is not its own |
| Central.BroadcastFromSends | Central.cc:152-172 | the sends from a position on are the packet to each peer address, from there on, whose node is in the group, except the node's own |
| Central.BroadcastPacket | Central.cc:152-172 | a packet goes to exactly the addresses of the peer table whose node is in the group, except the node's own |
| Central.DisseminateData | Central.cc:181-209 | a running leader moves to the next term, grows the data by the step, broadcasts the DATA packet and arms the first retransmission and the next dissemination; any other node does nothing |
| Central.SendData | Central.cc:276-287 | a running leader sends one DATA packet of the current term to another node's address, and no other packet |
| Central.RetransmitFromSound | Central.cc:216-257 | every retransmission goes to a lagging follower and carries the current term |
| Central.RetransmitFromComplete | Central.cc:216-257 | every lagging follower that is not the node itself gets a retransmission |
| Central.RetransmitData | Central.cc:216-257 | from the 20th attempt on nothing happens; below it the current term goes to exactly the lagging followers, and the next attempt is armed exactly when one lags; the state is unchanged |
| Central.RetransmissionChainBounded | Central.cc:216-257 | every armed retransmission has a higher attempt number, at most the cap, so a chain of retransmissions ends |
| Central.ProcessFollowerResponse | Central.cc:290-299 | the leader records the reply's term for the sender only; an unknown sender makes the id -1 and the group-table read a fault |
| Central.ReceiveNewTopology | Central.cc:303-325 | exactly the in-range ids of the new group are marked present and every reply term is kept; a stopped node changes nothing |
| Central.ReceivePacket | Central.cc:71-123 | a follower answers DATA with a REPLY of the same term to the sender; a buffer whose size field is below the header throws and is dropped; a buffer shorter than the header or than its size field is a fault; no timer is armed |
| Central.FollowerReplies | Central.cc:71-123 | a running follower that receives a DATA packet from another node sends back exactly one REPLY with the same term |
| Central.LeaderTakesReply | Central.cc:290-299 | once the leader processes a follower's REPLY with the current term, that follower no longer lags |
| Central.ReplyEndsLag | Central.cc:71-123 | one DATA/REPLY exchange between the leader and a follower ends the retransmissions to that follower |
| Blockgraphs.Empty | b4mesh.cc:17-79 | the blockgraph starts with no blocks and no tips |
| Blockgraphs.HasBlock | b4mesh.cc:632 | a hash is stored exactly when the store maps it |
| Blockgraphs.GetBlock | b4mesh.cc:1734-1736 | the block fetched for a stored hash is the one stored under it, and carries that hash |
| Blockgraphs.GetChildlessBlockList | b4mesh.cc:1359-1385 | the tips are distinct stored hashes |
| Blockgraphs.Without | b4mesh.cc:1026-1064 | the tips that remain are those the new block does not name as a parent |
| Blockgraphs.AddBlock | b4mesh.cc:1026-1064 | a new block is stored under its hash and becomes a tip, its parents stop being tips, and no stored block changes |
| Transactions.Seconds | b4mesh.cc:1631-1644 | the cast of a time to `int` rounds it toward zero |
| Mempool.SumSizes | b4mesh.cc:2025-2031 | the pending sizes add up to a non-negative total when every size is non-negative |
| Mempool.SizeMempoolBytes | b4mesh.cc:2025-2031 | the `int` sum agrees with the true sum modulo 2^32, and equals it while it fits |
| Mempool.IsSpaceInMempool | b4mesh.cc:595-603 | there is space exactly when fewer than SIZE_MEMPOOL whole kilobytes are pending; a wrapped negative sum reads as space |
| Mempool.TransactionsTreatment | b4mesh.cc:526-554 | a transaction is stored exactly when it is new to the mempool and the blockgraph and there is space; otherwise the mempool is unchanged and exactly one of the loss and duplicate counters grows |
| Mempool.BlockRoom | b4mesh.cc:1650-1677 | n transactions of mean size fit in a block exactly when n < 120 |
| Mempool.PickOldest | b4mesh.cc:1650-1677 | one scan finds an unselected transaction no younger than any other unselected one, if any is left |
| Mempool.SelectStep | b4mesh.cc:1650-1677 | taking the oldest unselected transaction keeps the selection distinct, oldest first and no younger than what is left |
| Mempool.SelectFrom | b4mesh.cc:1650-1677 | the selection loop extends what it has taken, to at most 120 transactions, keeping the selection invariant |
| Mempool.SelectFromRest | b4mesh.cc:1650-1677 | the rest of the selection loop keeps the selection invariant and the bound |
| Mempool.SelectTransactions | b4mesh.cc:1650-1677 | at most 120 distinct pending transactions, in non-decreasing timestamp order, none younger than a transaction left behind; fewer than 120 only when every transaction left behind is stamped 9999999 or later, or one older than that is filed under the key "0" |
| Mempool.TxHashes | b4mesh.cc:1069-1095 | the hashes of a list are exactly the hashes of its transactions |
| Mempool.UpdatingMempool | b4mesh.cc:1069-1095 | the entries of the given transactions leave the mempool and every other entry stays as it was |
| Mempool.TestPendingTxs | b4mesh.cc:1631-1644 | a block is due exactly when TIME_BTW_BLOCK seconds have passed since the last one and more than MIN_SIZE_BLOCK kilobytes are pending |
| Mempool.StalePrefix | b4mesh.cc:560-578 | the run of transactions older than the retransmission timer at the front of the mempool, up to the first young one |
| Mempool.ResendsTrans | b4mesh.cc:560-578 | retransmitting only stale transactions is preserved over consecutive runs |
| Mempool.RetransmitLoop | b4mesh.cc:560-578 | the loop only sends packets of stale transactions and counts them |
| Mempool.RetransmitNext | b4mesh.cc:560-578 | one step of the loop only sends a stale transaction |
| Mempool.RetransmitLoopStep | b4mesh.cc:560-578 | one step of the loop broadcasts the transaction, counts it and leaves the mempool alone |
| Mempool.StalePrefixStep | b4mesh.cc:560-578 | the stale run from an entry is one longer than the next entry's when that entry is stale, and empty otherwise |
| Mempool.RetransmitCountFixed | b4mesh.cc:560-578 | with a counter that never moves the loop retransmits the whole stale run |
| Mempool.RetransmitCountCounted | b4mesh.cc:560-578 | with a counter that grows by one the loop stops after 11 - i retransmissions |
| Mempool.RetransmitTransactionsAsWritten | b4mesh.cc:560-578 | the as-written round only sends packets of stale transactions and changes nothing but the counter and the outbox |
| Mempool.RetransmitAsWrittenUncapped | b4mesh.cc:560-578 | as written, every stale transaction at the front of the mempool is retransmitted, however many there are |
| Mempool.RetransmitTransactions | b4mesh.cc:560-578 | the corrected round only sends packets of stale transactions |
| Mempool.RetransmitCapped | b4mesh.cc:560-578 | with the counter incremented, at most eleven transactions are retransmitted per round |
| Topology.GetNewNodes | b4mesh.cc:1236-1247 | the new nodes are exactly the members of the current group, other than the node, absent from the previous group |
| Topology.NewIn | b4mesh.cc:1236-1247 | the members of g, other than the node, that prev lacks |
| Topology.GetNodesFromOldGroup | b4mesh.cc:1253-1262 | the old nodes are exactly the members of the current group that were in the previous group |
| Topology.OldIn | b4mesh.cc:1253-1262 | the members of g that prev holds too |
| Topology.NewOrOld | b4mesh.cc:1236-1262 | every member of the group other than the node is new or old, never both |
| Topology.ReceiveNewTopologyInfo | b4mesh.cc:1174-1184 | the change counter advances, the nature of the change is recorded and the adoption is scheduled under the new counter; nothing else changes |
| Topology.Register | b4mesh.cc:1195-1230 | the register holds what it held plus the group id, without creating duplicates |
| Topology.UpdateTopologyInfo | b4mesh.cc:1195-1230 | a superseded update or one with an unchanged id does nothing; otherwise the id and group are adopted, the old group kept as previous, the id registered, and after a MERGE the branch registry is cleared and the merge armed |
| Topology.SupersededUpdateIgnored | b4mesh.cc:1174-1230 | of two announcements in a row, the update scheduled by the first is ignored |
| Reception.FilterNodesNotInBG | b4mesh.cc:797-817 | exactly the hashes the blockgraph does not store remain |
| Reception.FilterNodesNotInML | b4mesh.cc:826-862 | exactly the hashes the missing list does not hold remain |
| Reception.FilterNodesNotInWL | b4mesh.cc:828-843 | exactly the hashes that are not waiting remain |
| Reception.FilterUnknownParents | b4mesh.cc:659-662 | each strategy keeps exactly the hashes absent from its list |
| Reception.UpdateMissingList | b4mesh.cc:925-970 | each hash gets the address appended unless that pair is recorded already; other hashes keep their entries; no pair is ever duplicated |
| Reception.EraseMissingBlock | b4mesh.cc:891-913 | every entry of the hash leaves the missing list and no other entry changes |
| Reception.EraseFirst | b4mesh.cc:1026-1064 | the first occurrence of the hash goes, if any; on a duplicate-free list the hash is gone afterwards |
| Reception.AddBlockToBlockgraph | b4mesh.cc:1026-1064 | the block is added to the blockgraph; only the childless hashes, the creation flag, the branch registry, the mempool and the blockgraph change |
| Reception.AddBlockToBlockgraphStores | b4mesh.cc:1026-1064 | the block is stored afterwards, and nothing stored before changes |
| Reception.AddBlockToBlockgraphMempool | b4mesh.cc:1069-1095 | the block's transactions leave the mempool and the others stay |
| Reception.AddBlockToBlockgraphTips | b4mesh.cc:1026-1064 | the block's hash leaves the branch registry and the missing childless hashes, nothing else does, and block creation resumes exactly when this emptied the childless hashes |
| Reception.FirstReady | b4mesh.cc:978-1017 | the first waiting block, in key order, whose parents are all stored, or none |
| Reception.Promote | b4mesh.cc:978-1017 | the waiting block is stored and leaves the list, which shrinks; nothing stored before changes |
| Reception.UpdateWaitingList | b4mesh.cc:978-1017 | the cascade terminates with no waiting block whose parents are all stored, the waiting list only shrinks, and nothing stored changes |
| Reception.UpdateWaitingListKeeps | b4mesh.cc:978-1017 | the blocks still waiting are the ones that waited before, unchanged |
| Reception.UpdateWaitingListAdmits | b4mesh.cc:978-1017 | every block that left the waiting list is now stored |
| Reception.UpdateWaitingListKeyed | b4mesh.cc:978-1017 | blocks stay filed under their own hashes, and only waiting blocks join the blockgraph |
| Reception.TreatMergeBlock | b4mesh.cc:644-650 | a fresh merge block is accepted exactly when every record is readable; it is stored, the waiting list and peers stay, and a branch request is scheduled |
| Reception.WaitForParents | b4mesh.cc:655-677 | the block waits under its hash, and the unknown parents that pass the filter are recorded as missing, to be asked of the leader's address |
| Reception.StoreBlock | b4mesh.cc:678-683 | the block is stored, nothing stored is lost and the waiting list only shrinks |
| Reception.StoreBlockKeyed | b4mesh.cc:678-683 | only the block and waiting blocks join the blockgraph, and waiting blocks stay filed under their hashes |
| Reception.TreatRegularBlock | b4mesh.cc:654-683 | an unknown leader id is an out-of-range read; otherwise the block waits when a parent is not stored and is stored when all are |
| Reception.TreatFreshBlock | b4mesh.cc:643-684 | a fresh block ends up stored or waiting; the merge path fails exactly on an unreadable record, the regular one exactly on an unknown leader |
| Reception.BlockTreatment | b4mesh.cc:621-701 | a stopped node ignores the block; a stored block only updates the last leader and the dump count; a fresh block is stored or waits; nothing stored is lost |
| Reception.BlockTreatmentDumpsWaiting | b4mesh.cc:621-692 | a block not stored but waiting is dumped: only the last leader, the dump count and the missing list change, and its hash leaves the missing list |
| Reception.Received | b4mesh.cc:630-641 | what every running reception of a block not yet stored does first: the last leader becomes the block's leader and the block's hash leaves the missing list, other missing entries and every other field unchanged |
| Reception.TreatUnstored | b4mesh.cc:632-692 | a block not stored that is already waiting is dumped; otherwise a merge block fails exactly on an unreadable record and a regular one exactly on an unknown leader, and on success the block is stored or waiting with nothing stored lost |
| Reception.BlockTreatmentFresh | b4mesh.cc:630-684 | a fresh block is treated on the state `Reception.Received` leaves, and is still fresh there |
| Reception.BlockTreatmentWaits | b4mesh.cc:651-677 | a regular block of a known leader with a parent not stored waits under its hash; the blockgraph is untouched and the missing list gains the filtered unknown parents under the leader's address |
| Reception.BlockTreatmentStores | b4mesh.cc:678-683 | a regular block of a known leader whose parents are all stored is stored, on the state `Reception.Received` leaves |
| Reception.TidyAfterMerge | b4mesh.cc:644-650 | treating a fresh merge block keeps the missing list clean and the waiting list keyed |
| Reception.TidyAfterWait | b4mesh.cc:655-677 | with the waiting-list filter, a waiting block keeps the missing list clean |
| Reception.TidyAfterStore | b4mesh.cc:678-683 | storing a block and cascading keeps the missing list clean |
| Reception.BlockTreatmentKeepsTidy | b4mesh.cc:621-701 | with the waiting-list filter, no missing-list hash is ever stored or waiting, and waiting blocks stay filed under their own hashes |
| Reception.TidyOfSameLists | b4mesh.cc:621-701 | tidiness depends only on the missing list, the waiting list and the blockgraph |
| Reception.TidyAfterErase | b4mesh.cc:637-641 | erasing a hash's entries keeps the missing list clean and leaves that hash off it |
| Reception.TidyAfterFresh | b4mesh.cc:643-684 | treating a fresh block that does not name itself keeps the state tidy |
| Reception.MissingFilterListsWaitingParent | b4mesh.cc:659-667 | with the missing-list filter, a parent that is already waiting is entered on the missing list too |
| Reception.StaleMissingPersists | b4mesh.cc:632-641 | a missing-list entry whose block is stored survives every later block treatment |
| Reception.StaleAfterFresh | b4mesh.cc:643-684 | treating a fresh block keeps a missing-list entry whose block is stored |
| Sync.EncodeRecord | b4mesh.cc:1766-1792 | a record is the holder's id in decimal, one space, then the hash |
| Sync.ParseRecordReads | b4mesh.cc:715-721 | a record without a space is read as an id and a hash that are both the whole payload; otherwise as the word before the first space and the rest; an unreadable id is a fault |
| Sync.RecordRoundTrip | b4mesh.cc:715-721 | a record built by the merge generator is read back as the id and hash it was built from |
| Sync.ParseRecord | b4mesh.cc:715-721 | reading a record is `stoi` of the text before the first space and the text after it; a failing `stoi` throws (see `Sync.ParseRecordReads`) |
| Decimal.Stoi | b4mesh.cc:718 | `stoi` skips white space and reads an optional sign and the digits after it; a text without any digit throws |
| Decimal.ToString | b4mesh.cc:1769 | `to_string` of an id is a non-empty word without white space, starting with a digit exactly when the id is not negative |
| Decimal.StoiToString | b4mesh.cc:1769 | every 32-bit id printed by `to_string` is read back by `stoi` |
| Sync.RegisterNode | b4mesh.cc:1494-1529 | the sender's id is registered for the hash, appended once; other hashes keep their entries and no pair is duplicated |
| Sync.RegisterNodeAsWritten | b4mesh.cc:1494-1529 | with the lookup as written, a sender outside the peer table reads past its end; any other sender is registered exactly as by `Sync.RegisterNode` |
| Sync.AddMissing | b4mesh.cc:1428-1487 | a new hash becomes missing, to be asked of the sender alone |
| Sync.AppendNew | b4mesh.cc:1428-1487 | the list gains the hash at its end exactly when it lacked it, staying free of duplicates |
| Sync.ChildlessHashTreatment | b4mesh.cc:1428-1487 | only the missing list, the missing childless hashes and the branch registry change, and a hash the node does not register changes nothing |
| Sync.ChildlessHashRegisters | b4mesh.cc:1428-1529 | the sender is registered for every hash the node registers, and no other hash's registrations change |
| Sync.ChildlessHashMissing | b4mesh.cc:1428-1487 | only a hash the node knows nothing about becomes missing, to be asked of the sender |
| Sync.ChildlessHashMissingTip | b4mesh.cc:1428-1487 | only an unknown hash joins the missing childless hashes, and at most once |
| Sync.RecordHashes | b4mesh.cc:709-736 | every readable record's hash is among the record hashes |
| Sync.ReadRecords | b4mesh.cc:709-736 | a successful reading gives one (hash, address) pair per record |
| Sync.ParseAll | b4mesh.cc:715-719 | each record is parsed, in order |
| Sync.ReadParsed | b4mesh.cc:715-721 | a successful check gives one pair per parsed record |
| Sync.ReadParsedOk | b4mesh.cc:715-721 | the record validation succeeds exactly when every record parsed and names an id in the peer table |
| Sync.ReadParsedValues | b4mesh.cc:715-721 | a checked record gives its hash and the address of the id it names |
| Sync.ReadRecordsOk | b4mesh.cc:709-736 | the reading succeeds exactly when every record is well formed |
| Sync.ReadRecordsValues | b4mesh.cc:709-736 | a successful reading gives each record's hash and the address of the holder it names |
| Sync.TreatRecords | b4mesh.cc:709-736 | treating the pairs changes only the missing list, the missing childless hashes and the branch registry |
| Sync.PairHashes | b4mesh.cc:709-736 | the hashes of a list of pairs are exactly the pairs' first components |
| Sync.SyncRecords | b4mesh.cc:709-736 | the records are accepted exactly when each is well formed, and only the three reconciliation structures change |
| Sync.TreatRecordsKeeps | b4mesh.cc:1428-1529 | treatments only add registrations and keep every list free of duplicates |
| Sync.TreatRecordsKeepsMissing | b4mesh.cc:1428-1487 | treatments keep every missing entry |
| Sync.TreatRecordsMissing | b4mesh.cc:1428-1487 | treatments add to the missing list only named hashes that are neither stored nor waiting |
| Sync.TreatRecordsRegisters | b4mesh.cc:1428-1529 | each pair's holder ends up registered for the pair's hash whenever the node registers that hash |
| Sync.SyncRecordsMissing | b4mesh.cc:709-736 | the records keep every missing entry and add only hashes they name that are neither stored nor waiting |
| Sync.SyncRecordsRegisters | b4mesh.cc:709-736 | with distinct peer addresses, each record's holder ends up registered for the record's hash |
| Sync.StartSyncProcedure | b4mesh.cc:709-736 | the procedure succeeds exactly when every record is well formed; the blockgraph, waiting list, mempool and peers stay; one branch request is scheduled, at once on the leader and with a delay elsewhere |
| Sync.StartSyncKeeps | b4mesh.cc:709-736 | every missing entry is kept, new entries name only hashes neither stored nor waiting, and the lists stay free of duplicates |
| Sync.StartSyncRegisters | b4mesh.cc:709-736 | with distinct peer addresses every record's holder is registered for its hash |
| Sync.BranchRequestPayload | b4mesh.cc:745-764 | a branch request is the four-byte GROUPBRANCH_REQ type followed by the hash |
| Sync.Emit | b4mesh.cc:759-786 | the inner loop asks a prefix of the holders, as long as the counter allows |
| Sync.HoldersOf | b4mesh.cc:755-759 | the holders of each hash are its registered ids, in order |
| Sync.PlanAsWritten | b4mesh.cc:749-787 | the as-written plan has one entry per hash |
| Sync.PlanAsWrittenPrefixes | b4mesh.cc:749-787 | as written, each hash is asked of a prefix of its holders |
| Sync.Plan | b4mesh.cc:749-787 | with the counter reset per hash, each hash is asked of its first holders up to the cap |
| Sync.PlanPastCap | b4mesh.cc:749-787 | once the shared counter has reached the cap nothing is capped any more |
| Sync.PlanAsWrittenTruncatesOnce | b4mesh.cc:749-787 | as written the cap shortens the requests of at most one hash; every later hash asks all its holders |
| Sync.BranchRequestCapShared | b4mesh.cc:749-787 | with two peers, a first hash held by node 0 and a second by nodes 0 and 1, as written the second hash is asked of node 0 only and the corrected loop asks both |
| Sync.FirstBad | b4mesh.cc:771 | the first out-of-range id of a list is in the list and outside the table |
| Sync.BadHolder | b4mesh.cc:771 | the holder whose address read faults is outside the peer table |
| Sync.HolderSends | b4mesh.cc:759-771 | one request to each holder's address, in order |
| Sync.BranchRequests | b4mesh.cc:762-770 | one GROUPBRANCH_REQ message per childless hash, in order |
| Sync.PlanSends | b4mesh.cc:759-786 | every planned holder of every hash gets that hash's request, there is one send per planned holder, and every send is a planned one |
| Sync.SendPlan | b4mesh.cc:759-786 | the sends succeed exactly when every planned holder indexes the peer table; only the outbox changes, its earlier effects are kept, and a running node asks every planned holder |
| Sync.SendPlanAdds | b4mesh.cc:759-786 | a plan adds exactly one effect per planned holder when running and none when stopped, and each is the request for a hash sent to a holder planned for it |
| Sync.AskedAsWritten | b4mesh.cc:749-787 | as written, a prefix of each hash's holders is asked |
| Sync.SendBranchRequestAsWritten | b4mesh.cc:744-792 | as written, every holder in the shared-counter plan gets the request for its hash, and an out-of-range holder is a fault |
| Sync.BranchPlanAsWritten | b4mesh.cc:749-787 | the plan of the loop as written has one entry per missing childless hash, entry i being `Sync.AskedAsWritten` of i |
| Sync.SendBranchRequestAsWrittenAdds | b4mesh.cc:744-792 | as written, the earlier effects are kept and every new one is a request for a hash to a holder the shared-counter plan names for it |
| Sync.Asked | b4mesh.cc:749-787 | the corrected loop asks at most one holder per peer for each hash |
| Sync.SendBranchRequest | b4mesh.cc:744-792 | with the counter reset per hash, every missing childless hash is asked of its first holders; only the outbox changes |
| Sync.BranchPlan | b4mesh.cc:749-787 | the corrected plan has one entry per missing childless hash, entry i being `Sync.Asked` of i |
| Sync.SendBranchRequestAdds | b4mesh.cc:744-792 | with the counter reset per hash, the earlier effects are kept and every new one is a request for a hash to one of its first holders, at most one per peer |
| Sync.ChildlessReply | b4mesh.cc:1359-1385 | the reply is the four-byte CHILDLESSBLOCK_REP type followed by the tips back to back |
| Sync.SendChildlessHashes | b4mesh.cc:1359-1385 | a running node with tips sends them back to the asking leader; a node without tips sends nothing; only the outbox changes |
| Sync.ParseChildlessReply | b4mesh.cc:1393-1419 | the split succeeds exactly when the payload is four bytes plus whole 32-byte hashes, and gives hashes that concatenate back to the payload |
| Sync.ChunksOfMultiple | b4mesh.cc:1393-1419 | a length that is a multiple of 32 splits into 32-byte pieces |
| Sync.ChildlessReplyRoundTrip | b4mesh.cc:1359-1419 | a reply built from 32-byte tips splits back into exactly those tips |
| Factory.TipRow | b4mesh.cc:1766-1779 | one record per member of the old group, naming it as holder of the tip |
| Factory.TipRecords | b4mesh.cc:1766-1779 | the first loop writes one row of |old group| records per tip, `Factory.Area` records in all |
| Factory.AreaIsProduct | b4mesh.cc:1766-1779 | the record count of the first loop is |tips| · |old group| |
| Factory.TipRecordsAppend | b4mesh.cc:1766-1779 | the records of two runs of tips are those of the first run followed by those of the second |
| Factory.TipRecordAt | b4mesh.cc:1766-1779 | record i·|old group| + j of the first loop is record j of tip i's row |
| Factory.BranchRecords | b4mesh.cc:1781-1792 | one record per registered (hash, holder) pair, in key order |
| Factory.MergeRecords | b4mesh.cc:1766-1792 | a merge block has |tips| · |old group| records plus one per registered pair |
| Factory.MergeRecordTipAt | b4mesh.cc:1766-1779 | record i·|old group| + j of a merge block names old-group member j as a holder of childless block i |
| Factory.MergeRecordBranchAt | b4mesh.cc:1781-1792 | after the tip records, record k of a merge block is the k-th registered (hash, holder) pair |
| Factory.MakeTransactions | b4mesh.cc:1766-1794 | one transaction per record, carrying the record and stamped with the current time |
| Factory.MergeParents | b4mesh.cc:1797-1815 | the merge parents are the tips, then each missing childless hash not already listed, without duplicates |
| Factory.Build | b4mesh.cc:1797-1815 | a block built from transactions, parents and type keeps the other fields, pads the parents and carries its own hash; it fails exactly on an overlong parent |
| Factory.GenerateMergeBlock | b4mesh.cc:1759-1815 | a merge block of type 1 carrying the records as transactions and the merge parents, padded; the merge flag is reset and nothing else changes |
| Factory.EncodedRecordOk | b4mesh.cc:715-721 | a record built from an id in the peer table passes the reading and names its hash |
| Factory.EncodesIntro | b4mesh.cc:1766-1792 | a record of an indexable id and a known hash is an accepted encoding |
| Factory.EncodesAccepted | b4mesh.cc:715-721 | an accepted encoding is readable and names a known hash |
| Factory.TipRecordsEncode | b4mesh.cc:1766-1779 | every tip record of an old group in the table is an accepted encoding |
| Factory.BranchRecordsEncode | b4mesh.cc:1781-1792 | every branch record of holders in the table is an accepted encoding |
| Factory.ConcatAccepted | b4mesh.cc:1766-1792 | the records of both loops together are all readable |
| Factory.MergeRecordsAccepted | b4mesh.cc:709-736 | the records of a merge block are read back by `StartSyncProcedure` on a node with the same peer table, each naming a tip or a registered branch |
| Factory.UnknownHolderRecordRejected | b4mesh.cc:715-721 | a record naming any holder outside the peer table, -1 included, is one no node accepts |
| Factory.TipsOfRegisteredGroups | b4mesh.cc:1826-1841 | exactly the tips whose block belongs to a group the node has been part of |
| Factory.RegularParents | b4mesh.cc:1820-1853 | a regular block takes the tips when there is at most one, the tips of registered groups during a merge, and otherwise keeps its parents |
| Factory.RegularBlock | b4mesh.cc:1820-1853 | a regular block of type 0 with the given transactions and the parents `RegularParents` chooses, padded |
| Factory.GenerateRegularBlock | b4mesh.cc:1820-1853 | the selected transactions fill the block and leave the mempool, every other entry stays, and nothing else changes |
| Factory.MaxParentIndexAsWritten | b4mesh.cc:1733-1738 | as written the index scan succeeds exactly when every parent is stored, and a missing parent is a `GetBlock` fault |
| Factory.MaxStoredIndex | b4mesh.cc:1733-1738 | the largest index of the stored parents, -1 when none is stored |
| Factory.Blank | b4mesh.cc:1708-1711 | the blank block names the node as leader, has no parents and the padded group id, and fails on an overlong id |
| Factory.FillBlock | b4mesh.cc:1713-1731 | a merge block is filled when `BuildsMerge` holds, a regular block otherwise; the blockgraph is untouched |
| Factory.NextIndex | b4mesh.cc:1733-1738 | the index is one above every stored parent's, 0 when none is stored |
| Factory.Finish | b4mesh.cc:1738-1752 | the block gets its index and time, is hashed and handed to consensus, and the creation time is recorded |
| Factory.Assemble | b4mesh.cc:1705-1731 | an overlong group id fails; otherwise a padded block is filled and the blockgraph is untouched |
| Factory.GenerateBlocksAsWritten | b4mesh.cc:1705-1752 | as written, generation succeeds exactly when every parent of the filled block is stored |
| Factory.GenerateBlocks | b4mesh.cc:1705-1752 | the block gets an index above every stored parent's, the time and its own hash, goes to consensus, and the creation time is recorded |
| Factory.GenerateBlocksBuilds | b4mesh.cc:1705-1853 | the block names the node as leader and carries its group id; a merge block has type 1, the records and the merge parents; a regular block has type 0, the selected transactions, and those leave the mempool |
| Factory.MergeBuilt | b4mesh.cc:1705-1853 | a merge block names the node as leader, has type 1, the records and the merge parents, clears the merge flag and leaves the mempool alone |
| Factory.RegularBuilt | b4mesh.cc:1705-1853 | a regular block names the node as leader, has type 0, the selected transactions and the parents the tips give, and those transactions leave the mempool |
| Factory.MergeGenerates | b4mesh.cc:1705-1853 | a merge block is generated exactly when the group id and the merge parents fit the hash width |
| Factory.AssembleMerge | b4mesh.cc:1705-1853 | with parents that fit, the merge block is assembled over the padded tips and missing childless hashes, and the blockgraph is untouched |
| Factory.MergeWithMissingTipFaults | b4mesh.cc:1733-1738 | a merge built while a childless hash is still missing faults as written and succeeds when corrected |
| Leader.ChildlessRequest | b4mesh.cc:1314-1338 | the request is the four-byte CHILDLESSBLOCK_REQ type alone |
| Leader.Ask4ChildlessHashes | b4mesh.cc:1314-1338 | a running node asks each new node other than itself, and nobody else, and arms the reply timer; a stopped node only arms the timer |
| Leader.AsksEveryNewNode | b4mesh.cc:1314-1338 | the broadcast of the request followed by the reply timer reaches each new node other than the node itself and nobody else |
| Leader.StartMerge | b4mesh.cc:1281-1306 | a running leader with the merge armed stops block creation, disarms the merge and asks the new nodes; without it, it retries a second later; any other node does nothing |
| Leader.EntryRegistered | b4mesh.cc:1494-1529 | the holder of a registry entry is registered for the entry's hash |
| Leader.RegisteredAnswered | b4mesh.cc:1535-1564 | a holder registered for some hash has answered |
| Leader.AwaitedIn | b4mesh.cc:1535-1564 | the members whose id has not answered yet; none is awaited exactly when all answered |
| Leader.Awaited | b4mesh.cc:1535-1564 | the new nodes the leader still waits for; the count is zero exactly when every new node answered |
| Leader.NoneAnswered | b4mesh.cc:1535-1564 | with nothing registered, every new node is awaited |
| Leader.MergeNow | b4mesh.cc:1346-1353 | building the merge block succeeds exactly when the group id and the parents fit, and then submits one merge block and turns creation back on |
| Leader.RaisedMergeMerged | b4mesh.cc:1346-1353 | with the merge and creation flags raised, the generated merge block leaves the state with creation on, the merge flag down and one merge block submitted |
| Leader.TimerChildless | b4mesh.cc:1346-1353 | with creation back on the timer does nothing; otherwise it builds the merge block |
| Leader.CheckMergeBlockCreation | b4mesh.cc:1535-1564 | the merge block is built early exactly when no new node is awaited and creation is still off |
| Leader.MergeBuiltOnce | b4mesh.cc:1346-1564 | once the merge block has gone out, neither the timer nor a late answer builds another |
| Leader.Pairs | b4mesh.cc:1393-1419 | each hash is paired with the address that announced it |
| Leader.TreatReply | b4mesh.cc:1393-1419 | treating a reply changes only the three reconciliation structures |
| Leader.ProcessChildlessResponse | b4mesh.cc:1393-1419 | a reply that does not split into 32-byte hashes throws; otherwise each hash is treated and the merge check runs |
| Leader.ReceiveChildlessReply | b4mesh.cc:345-372 | a reply from a sender outside the peer table is a fault at the trace line's lookup; a reply from a peer that throws is counted as a lost packet and changes nothing else; any other reply is processed |
| Leader.ReplyRegistersAsWritten | b4mesh.cc:345-349 | a reply that gets past the trace line comes from a peer, so each registration it makes is the one `RegisterNode` makes with the lookup as written |
| Leader.ReplyAnswers | b4mesh.cc:1393-1529 | a hash the sender announced and the leader registers makes the sender answered |
| Leader.ReplyKeepsAnswers | b4mesh.cc:1393-1529 | treating a reply never makes an answered node awaited again |
| Leader.AnsweredKept | b4mesh.cc:1494-1529 | a registry that keeps every registration keeps every answer |
| Leader.ReplyMergesOnlyWhenAllAnswered | b4mesh.cc:1393-1564 | a reply either only treats its hashes or, when nobody is awaited and creation was off, also submits the merge block |
| Leader.LastReplyMerges | b4mesh.cc:1393-1564 | the reply of the last awaited node, naming a hash the leader registers, submits the merge block |
| Leader.MergeRoundAsksAwaited | b4mesh.cc:1195-1338 | after a MERGE is adopted and the merge starts, creation is off, every new node is awaited and each one other than the node has been asked |
| Mobility.CountIn | b4mesh-mobility.cc:868-881 | the count of common members is at most the size, and equals it exactly when every member is common |
| Mobility.CountOut | b4mesh-mobility.cc:817-842 | the count of absent members is zero exactly when every member is present |
| Mobility.CountInOut | b4mesh-mobility.cc:817-842 | every member is counted once, as present or as absent |
| Mobility.CountInCommon | b4mesh-mobility.cc:868-881 | without repetitions, the count is the size of the common set |
| Mobility.DistinctCard | b4mesh-mobility.cc:868-881 | without repetitions a group has as many members as its set |
| Mobility.CountInCovers | b4mesh-mobility.cc:868-881 | without repetitions, every member of ys is counted exactly when all of ys is in xs |
| Mobility.DetecteNatureChange | b4mesh-mobility.cc:868-881 | NONE exactly for an unchanged group, SPLIT exactly when every new member was already there, MERGE only when the whole old group is counted, and nothing but the four values |
| Mobility.NatureOfDistinctGroups | b4mesh-mobility.cc:868-881 | for groups without repetitions, MERGE exactly when the old group grew by new members, ARBITRARY exactly when members both came and went |
| Mobility.NatureExamples | b4mesh-mobility.cc:868-881 | from {1, 2, 3}: {1, 2} is a split, {1, 2, 3, 4} a merge and {1, 2, 4} an arbitrary change |
| Mobility.CalculDiffBtwGroups | b4mesh-mobility.cc:817-842 | a size difference of two or more is a change; otherwise the candidate must bring one member the group lacks when smaller, and two when not |
| Mobility.SmallChangesIgnored | b4mesh-mobility.cc:817-842 | flap suppression ignores one member leaving, one joining, and one replaced by another |
| Mobility.LargeChangesApplied | b4mesh-mobility.cc:817-842 | two members more, two fewer, or two replaced is always a change |
| Mobility.CheckGroupChangement | b4mesh-mobility.cc:764-782 | outside the tolerance window the candidate is adopted; inside it, only a considerable change is |
| Mobility.ChangeGroup | b4mesh-mobility.cc:784-815 | the candidate becomes the group under its computed 32-byte id, the node's `Central` application is handed the new group (`Central::ReceiveNewTopology`, Central.cc:303), and the time is recorded |
| Mobility.PeerMatches | b4mesh-mobility.cc:746-750 | exactly the peer-table positions holding the destination |
| Mobility.RouteMembers | b4mesh-mobility.cc:744-752 | exactly the peers, other than the node, that the routing table reaches |
| Mobility.Candidate | b4mesh-mobility.cc:729-755 | the candidate is sorted, holds the node itself, and otherwise exactly the peers the routing table reaches |
| Mobility.TableChange | b4mesh-mobility.cc:729-762 | a stopped node or an unchanged candidate changes nothing; otherwise the debounce decides, and an adopted group is sorted and holds the node |
| Mobility.SignedChar | b4mesh-mobility.cc:859-861 | `int(c)` of a signed char agrees with the byte modulo 256 |
| Mobility.SumChars | b4mesh-mobility.cc:859-861 | the `int` accumulation agrees with the true character sum modulo 2^32 |
| Mobility.GroupHash | b4mesh-mobility.cc:844-866 | the hash lies strictly between -INT_MAX and INT_MAX |
| Mobility.HashDigits | b4mesh-mobility.cc:863-864 | such a hash prints in at most eleven characters |
| Mobility.CalculeGroupId | b4mesh-mobility.cc:844-866 | the id is 32 bytes: the decimal hash of the sorted group, then NULs |
| Mobility.GroupIdPermutationInvariant | b4mesh-mobility.cc:844-866 | the id depends on the members only, not on the order they are listed in |
| Mobility.SumWithoutOverflow | b4mesh-mobility.cc:859-861 | while the sum stays in range the hash loop computes the plain character sum |

## Left out

- Sockets, the ns-3 scheduler and timers: every callback is a separate step, and a scheduled call is an `Effect` in the outbox. This covers `RecurrentTasks`, `TestBlockCreation` and the retries of `StartMerge`.
- The `ReceivePacket` of b4mesh.cc is modelled only in its CHILDLESSBLOCK_REP branch (`Leader.ReceiveChildlessReply`). The other branches hand a parsed transaction or block to the handlers above. The packet services they use are not part of the framing in application_packet.h.
- Leader status and the oracle of another node (`GetB4MeshOracle`, `GetB4MeshOf`) are the `isLeader` input.
- Random and floating-point delays: the execution-time draws, the exponential transaction generator and the jitter before `SendBranchRequest`. A delayed call is a schedule without its delay.
- Traces, performance counters used only for reporting, the `*_time` maps, `CreateGraph`, `GenerateResults` and b4m_traces.cc.
- Physical mobility (`UpdatePos`, `UpdateLeaderPos`, `UpdateDirection`, `UpdateFollowersScn*`), setup code, the helpers, experiment.cc and main.cc.
- central.cc and central.h are a stale duplicate of `Central` that does not compile; only Central.cc is modelled.
- `Ask4MissingBlocks`, `SendBlockTo`, `SendBranch4Sync` and `GenerateTransactions` serve blocks and transactions to peers. They are outside the replication logic modelled here.
- The blockgraph, transactions, the digest and `Ipv4Address::Serialize` are abstract, because their code is not part of this model:
  - the blockgraph is a map from hash to block plus a tip list updated on each insertion;
  - a transaction's codec and digest come from an `Env` record;
  - `CalculateHash` applies an abstract digest;
  - `Mobility.GroupString` takes the address serialiser as the parameter `ser`.
- Timestamps are `real` values, and their 8-byte encoding is an abstract pair of functions.
- Mobility.ChangeGroup: the nature of the change that `ChangeGroup` computes is not modelled, because the function never uses it; `Mobility.DetecteNatureChange` models it on its own.
- Mobility.CalculDiffBtwGroups: the size difference is taken as a signed number. The source subtracts two `size_t` values, which wraps when the candidate is larger than the group; converting the wrapped value to `int` gives back the negative difference for any group size that fits in an `int`, so only groups of 2^31 members or more would differ.
- Leader.ProcessChildlessResponse: a fault raised while building the merge block is reported as a fault. The surrounding catch would count it as a lost packet; that catch is modelled only for a reply that does not split.
- Sync.RegisterNode: looks the sender up with the bounded `Net.IdFromIp`, while the source's `GetIdFromIp` (b4mesh.cc:1497) reads past the peer table for an unknown sender. Every path that reaches it passes a peer: `Leader.ReceiveChildlessReply` faults at its trace line first, and merge-block records name `peers[id]`. `Sync.RegisterNodeAsWritten` is the as-written lookup, and it agrees with `Sync.RegisterNode` for a peer; `Leader.ProcessChildlessResponse` called on its own with an unknown sender would register -1, which the source never does.
- Sync.Asked: states only the bound on the number of holders asked per hash. `Sync.Plan` states the exact prefix.
- Mempool.RetransmitTransactions: states what the round sends. The count of retransmissions is stated by `Mempool.RetransmitCapped`.
- Packets.DataPacket: the data size is an `int`, not the `float` of application_packet.cc:19-33. Central passes 50000 plus multiples of 100 (Central.cc:22, 187), which are whole numbers below 2^24, and for those the `float` loop adds exactly that many bytes. For a fractional size the source adds the size rounded up, and from 2^24 on `++i` no longer changes `i`, so the loop never ends; neither case is modelled.
- Factory.Finish: the `stoi` of the block hash and group id in the traces of `SendBlockToConsensus` (b4mesh.cc:1868) and `BlockCreationRate` (b4mesh.cc:1972) is not modelled. It throws for a hash or group id that does not start with a decimal number that fits in an `int`; nothing catches it there, so the run would abort, while the model hands the block to consensus and goes on. `Factory.GenerateBlocks` and `Factory.GenerateBlocksAsWritten` inherit this.
- Reception.AddBlockToBlockgraph: the same trace-only `stoi` of the hash, group id and parents in `CreateGraph` (b4mesh.cc:2048-2052) is not modelled; a throw there would abort the run, while the model stores the block. The `stoi` in the trace of a received block (b4mesh.cc:316) is inside the catch of `ReceivePacket`, whose block branch is not modelled.
- Node.BroadcastTransaction: the `stoi` of the transaction hash at b4mesh.cc:505, which only decides whether the sends are traced, is not modelled. It throws for a hash that does not start with a decimal number that fits in an `int`, and the model sends the transaction anyway. The hashes come from transaction.cc, which is not part of this model.

## Findings

| source | as written | input that shows it | evidently intended | confidence | as-written member | corrected member |
|---|---|---|---|---|---|---|
| b4mesh.cc:205-212 | the lookup loops while `i <= peers.size()` and reads `peers[peers.size()]` for an address that is not a peer | peer table [7], address 8 | answer -1, as Central.cc:264-271 does | high; not executed | Node.GetIdFromIpAsWritten, Node.GetIdFromIpOverrun | Net.IdFromIp, Node.GetIdFromIpCorrected |
| b4mesh.cc:560-578 | the counter `i` guarding `i <= 10` is never incremented, so the cap never stops the loop | a mempool whose first twelve transactions are all stale: all twelve are retransmitted | at most eleven retransmissions per round | high; not executed | Mempool.RetransmitTransactionsAsWritten, Mempool.RetransmitAsWrittenUncapped | Mempool.RetransmitTransactions, Mempool.RetransmitCapped |
| b4mesh.cc:749-787 | `request_count` is declared before the loop over the childless hashes and never reset, so the cap cuts at most one hash short, and then never applies again | two peers; hash 1 held by node 0, hash 2 by nodes 0 and 1: hash 2 is asked of node 0 only | a cap per hash, as the comment at b4mesh.cc:751-753 says | medium; not executed | Sync.SendBranchRequestAsWritten, Sync.BranchRequestCapShared, Sync.PlanAsWrittenTruncatesOnce | Sync.SendBranchRequest, Sync.Plan |
| block.cc:183-188 | `IsPartOfGroup` compares the block's group id with itself, so every block belongs to every group | a block of the all-zero group and the group "1" | compare with the argument | high; not executed | Blocks.IsPartOfGroupAsWritten, Blocks.IsPartOfGroupAsWrittenAcceptsAny | Blocks.IsPartOfGroup, Blocks.IsPartOfGroupSeparates |
| b4mesh.cc:659-667 | with the missing-list filter, a parent that is already waiting is also entered on the missing list, and an entry whose block is stored is never erased | a tidy node receiving a regular block whose parent is waiting | filter against the waiting list, as the earlier revision at b4mesh.cc:828-843 did, which keeps the missing list clean | medium; not executed | Reception.MissingFilterListsWaitingParent, Reception.StaleMissingPersists | Reception.FilterNodesNotInWL, Reception.BlockTreatmentKeepsTidy |
| b4mesh.cc:1733-1738 | the index loop calls `GetBlock` on every parent, and a merge block names each missing childless hash as a parent although the node does not store it | a merge built while a childless hash of the other branch is still missing | take the index over the stored parents only | low; not executed | Factory.GenerateBlocksAsWritten, Factory.MaxParentIndexAsWritten | Factory.GenerateBlocks, Factory.MergeWithMissingTipFaults |
