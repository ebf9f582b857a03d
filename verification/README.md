# Models of cdk-erigon's stateful cores

This project models nine parts of cdk-erigon in Dafny and proves what they are for. Code that
works by changing things is modelled as classes and methods with the same branches, loops and
fields; code that only computes is modelled as functions. Every method is proved against a
specification function or an invariant, and the properties that span operations (whole runs,
round trips, agreement of two ends, conservation) are lemmas about those.

| part | files | main results |
|---|---|---|
| RLP codec (Appendix B of the Ethereum Yellow Paper) | `Rlp`, `RlpRaw`, `RlpCodec`, `RlpIterator`, `RlpStream` | decoding and encoding are inverse, so no item has two accepted encodings; the streaming decoder and the slice parser agree on every input; no read crosses an open list |
| Event feed | `FeedCases`, `Feed`, `FeedProtocol`, `FeedSteps` | in every interleaving each subscriber gets a value exactly once, no removal is lost, a `Send` makes progress |
| Dialing and peers | `ExpHeap`, `InboundThrottle`, `DialScheduler`, `PeerSet`, `PeerMirror` | what every event changes and what holds at every select point, 35 s and 30 s spacing over whole runs, exact counters across two concurrent loops, admission limits |
| Sub-protocol negotiation (RLPx specification, section "Capability Messaging") | `Protocols` | both ends choose the same versions and offsets; messages arrive with their codes, exactly if the lengths fit 64 bits |
| Fees and gas (section 6 of the Yellow Paper, EIP-1559, EIP-3529, EIP-4844) | `GasPool`, `World`, `Fees`, `ZkBlock` | what a message does to every account; a block is its transactions one after the other; conservation of the sum of balances with no 256-bit step wrapping; gas adds up to the block limit |
| Block-hash cache | `BlockHashes` | the cached function equals the plain walk, under 64-bit wrap-around |
| Transaction-id migration | `TxMigration` | an uninterrupted run is right; a resumed one never is |
| Prefix walk | `PrefixWalk` | the masked range scan delivers exactly the matching keys |
| Snapshot and log | `DownloadStates` | a bounded window folded into a snapshot equals full replay |

## What turned out not to hold

- **Resuming the migration.** The recorded block has already been moved when it is recorded, and a
  resumed run starts with it (migrations/txs_begin_end.go:39-41, 58, 162-167). So a run is right exactly
  if it was never resumed (`TxMigration.RightIffNeverResumed`), and resuming after the last commit
  deletes the first transaction of block 1 (`TxMigration.ResumedLoses`). Resuming one block lower
  would have finished the same run (`TxMigration.ResumeBelow`).
- **Effective gas prices under London rules.** `GetTxContext` scales price and fee cap by the effective
  percentage but not the tip (core/state_processor_zkevm.go:46-49). An accepted dynamic-fee message then pays
  a fair price exactly under the condition of `Fees.ScaledDynamicIsFairIff`; `Fees.ScaledMints` is an
  accepted message that creates money. A legacy message that scaling changes is refused because its
  unscaled tip exceeds its scaled cap (`Fees.ScaledLegacy`).
- **The balance check.** It multiplies the scaled cap, but the sender is billed the scaled price, and the
  scaling multiplication wraps (core/state_transition.go:184). A dynamic-fee message is billed above its cap
  exactly under the condition of `Fees.ScaledDynamicIsCoveredIff`; `Fees.ScaledUnderflows` is an accepted
  message that bills a sender more than there is, whereupon the balance wraps (`Fees.ApplyMessage`). Caps
  below 2^248 are safe (`Fees.ScaledIsCovered`). With base fees disabled the blob price is not compared with
  its cap either, so the blob fee can exceed what the check multiplied (`Fees.BlobFeeCoveredIff`).
- **Message offsets.** The 64-bit offsets wrap silently; messages are delivered exactly if the lengths of
  the running protocols plus 16 stay below 2^64 (`Protocols.DeliveredIffFits`, with
  `Protocols.NegotiatesTooLong` for a table that does not fit).
- **Dials in flight.** Only dynamic dials stay within `maxActiveDials`: static dials are started without
  asking for a slot (p2p/dial.go:427-434). All dials together are within it exactly if those running and
  those pooled were (`DialScheduler.Scheduler.Prepare`); `DialScheduler.ExceedsLimit` runs over it.
- **A failing `willRead`** is not harmless by itself: the position is advanced before the input limit is
  looked at (rlp/decode.go:1109-1127), so it moves exactly if a list is open, the stream is limited and
  the list has the bytes but the limit has not (`RlpStream.Stream.Charge`, and `RlpStream.ChargeMoves` for
  a call that does). The nesting invariant rules that out (`RlpStream.Stream.WillRead`).

## Model

| member | source | states |
|---|---|---|
| Rlp.BeValueOfBytes | rlp/encode.go:693-747 | the shortest big-endian bytes of a number have that value |
| Rlp.BeBytesOfValue | rlp/encode.go:693-747 | bytes without a leading zero are the shortest form of their value |
| Rlp.BeBytesLength | rlp/encode.go:693-753 | a number has at most k bytes exactly if it is below 256^k |
| RlpRaw.HeadIsRead | rlp/raw.go:120-159 | reading a canonical header followed by content and anything else recovers kind, header length and content length |
| RlpRaw.ReadIsHead | rlp/raw.go:120-159 | an accepted header is the one canonical header of its content length, and no single byte below 0x80 has one |
| RlpRaw.SizeIsCanonical | rlp/raw.go:161-191 | an accepted length of length is shortest, at least 56 and below 2^64 |
| RlpRaw.AppendsEncoding | rlp/raw.go:193-261 | appending an integer appends the encoding of its shortest big-endian form |
| RlpRaw.IntSize | rlp/raw.go:193-261 | the case thresholds are the byte lengths of the integers |
| RlpCodec.DecodedIsEncoding | rlp/decode.go:554-576 | accepted bytes are the encoding of the decoded item followed by the rest |
| RlpCodec.DecodedAreEncodings | rlp/decode.go:351-378 | an accepted list body is the encodings of its items, end to end |
| RlpCodec.EncodingDecodes | rlp/decode.go:554-576 | decoding the encoding of any item, whatever follows, gives back the item and what follows |
| RlpCodec.EncodingsDecode | rlp/decode.go:351-378 | a list body made of encodings decodes to the items |
| RlpCodec.EncodingIsUnique | rlp/decode.go:120-137 | bytes decode to an item with nothing left if and only if they are its encoding |
| RlpCodec.EncodingIsPrefixFree | rlp/decode.go:554-576 | no encoding is a proper prefix of another one's |
| RlpCodec.SplitUintIsDecode | rlp/raw.go:70-92 | SplitUint64 accepts only encodings of shortest integers below 2^64 |
| RlpCodec.AppendThenSplit | rlp/raw.go:70-92 | splitting an appended integer returns it and the suffix, for every integer and suffix |
| RlpCodec.SplitThenAppend | rlp/raw.go:193-261 | any accepted prefix is the appended encoding of the integer returned |
| RlpIterator.PiecesPartition | rlp/raw.go:108-118 | the pieces of a body concatenate to it, none is empty, each is one value by itself |
| RlpIterator.PiecesOfItems | rlp/iterator.go:42-52 | a body that decodes has one piece per item, the item's encoding |
| RlpIterator.CountValues | rlp/raw.go:108-118 | counts the pieces, and fails exactly where the body does not split, with the same error |
| RlpIterator.ListIterator.Next | rlp/iterator.go:42-52 | takes the first piece off the data; on a bad header records the error and makes no progress |
| RlpIterator.NewListIterator | rlp/iterator.go:26-40 | an iterator over the list's content exactly if the bytes start with a list |
| RlpIterator.Drain | rlp/iterator.go:42-56 | calling Next until it answers false or reports an error yields exactly the pieces of the body, or the error that keeps it from splitting |
| RlpStream.InnermostFits | rlp/decode.go:1109-1127 | what is left of the innermost list is no more than what is left of the outermost one |
| RlpStream.ReadingIsSound | rlp/decode.go:1109-1127 | reading within the innermost list keeps every level's bounds and the input limit |
| RlpStream.OpeningIsSound | rlp/decode.go:840-857 | opening a list that fits keeps the nesting and the input limit |
| RlpStream.ClosingIsSound | rlp/decode.go:861-876 | closing a finished list and charging its parent keeps them too |
| RlpStream.HeadersAgree | rlp/decode.go:989-1049 | the stream's header grammar and the slice parser's accept the same headers, except for a byte below 0x80 with a header, which the stream reports later |
| RlpStream.StringsAgree | rlp/raw.go:57-66 | SplitString accepts exactly the non-overlong strings the stream reads |
| RlpStream.UintsAgree | rlp/decode.go:733-764 | SplitUint64 accepts exactly the headers and contents the integer reader accepts |
| RlpStream.ItemsAgree | rlp/decode.go:554-576 | decoding an item follows its header: content for strings, all items of the body for lists |
| RlpStream.HeadersAreCanonical | rlp/decode.go:989-1049 | an accepted header is the canonical one of its size |
| RlpStream.Stream.constructor | rlp/decode.go:912-943 | a fresh stream satisfies the invariant and is limited as the input says |
| RlpStream.Stream.Charge | rlp/decode.go:1109-1127 | on any counters: when it succeeds, and that a failing call moves the position exactly if a list is open, the stream is limited and the list has the bytes but the limit has not |
| RlpStream.ChargeMoves | rlp/decode.go:1109-1127 | a failing call that moves the position |
| RlpStream.Stream.WillRead | rlp/decode.go:1109-1127 | succeeds exactly if the bytes fit list and limit, charges both; under the nesting invariant a failure changes no counter |
| RlpStream.Stream.ReadFull | rlp/decode.go:1077-1096 | returns the next n bytes exactly if they are within list, limit and input |
| RlpStream.Stream.ReadByte | rlp/decode.go:1098-1107 | returns the next byte exactly if it is within list, limit and input |
| RlpStream.Stream.ReadUint | rlp/decode.go:1051-1075 | the big-endian value of the next n bytes; refuses exactly a leading zero in two or more |
| RlpStream.Stream.ReadHeader | rlp/decode.go:989-1049 | reads exactly the header the grammar finds in the bytes within reach; EOF exactly if nothing is within reach outside of all lists |
| RlpStream.Stream.Kind | rlp/decode.go:956-987 | peeks kind and size without changing what is left to read; end of list exactly at the end of a list, EOF exactly at the end of a stream with no open list, and asking again gives the same answer |
| RlpStream.Stream.Bytes | rlp/decode.go:678-699 | agrees with SplitString on acceptance, content and bytes left |
| RlpStream.Stream.Uint | rlp/decode.go:733-764 | agrees with SplitUint64 restricted to the width, on acceptance, value and bytes left |
| RlpStream.Stream.Bool | rlp/decode.go:822-835 | accepts exactly the encodings of 0 and 1 |
| RlpStream.Stream.BigIntBytes | rlp/decode.go:777-817 | accepts exactly strings without a leading zero |
| RlpStream.Stream.Raw | rlp/decode.go:702-724 | returns the bytes of one value with its header, canonical as they stand |
| RlpStream.Stream.OpenList | rlp/decode.go:840-857 | accepts exactly a list header; what can be read then is the list's body |
| RlpStream.Stream.NewList | rlp/decode.go:853-857 | pushes a list of any size; if it fits, the invariant holds and what can be read is that list |
| RlpStream.Stream.ListEnd | rlp/decode.go:861-876 | succeeds exactly at the end of an open list; a failure changes nothing |
| RlpStream.Stream.DecodeInterface | rlp/decode.go:554-576 | computes DecodeItem on what is left to read, and consumes exactly the item |
| RlpStream.Stream.DecodeListSlice | rlp/decode.go:336-349 | computes DecodeItems on the body of the list and leaves it |
| RlpStream.Stream.DecodeSliceElems | rlp/decode.go:351-378 | decodes the items of the open list up to its end |
| RlpStream.DecodeBytes | rlp/decode.go:120-137 | accepts a byte string if and only if it is the encoding of the item returned |
| FeedCases.Find | event/feed.go:213-220 | the index of the first case on the channel, or -1 if there is none |
| FeedCases.CountDelete | event/feed.go:223-225 | deleting a case takes away exactly that one |
| FeedCases.CountDeactivate | event/feed.go:228-232 | deactivating permutes the cases |
| FeedCases.RoundDelivers | event/feed.go:159-165 | delivering to an active case keeps the round's bookkeeping |
| FeedCases.RoundRemoves | event/feed.go:170-177 | so does removing an active or an already served case |
| FeedCases.RoundEnds | event/feed.go:166-168 | with no active case left, every case not removed was served exactly once and none twice |
| FeedCases.RequestIsFound | event/feed.go:116-124 | the case of the next request is found, and without it there is one for each of the others |
| FeedCases.RoundCounts | event/feed.go:153-190 | only removed cases can be missing in the number of deliveries |
| Feed.FindIn | event/feed.go:213-220 | the linear search computes Find |
| Feed.Feed.constructor | event/feed.go:60-65 | a new feed has only the removal case |
| Feed.Feed.Subscribe | event/feed.go:72-92 | the new case waits in the inbox |
| Feed.Feed.RemoveFromInbox | event/feed.go:103-114 | removes the first case on the channel from the inbox, if there is one |
| Feed.Feed.RemoveDirectly | event/feed.go:116-124 | deletes the case found among the select cases |
| Feed.Feed.DeleteAt | event/feed.go:223-225 | closes the gap in the array: the cases are Delete of the old ones |
| Feed.Feed.DeactivateAt | event/feed.go:228-232 | exchanges two cases in the array: the cases are Deactivate of the old ones |
| Feed.Feed.TakeInbox | event/feed.go:132-137 | the inbox is appended to the cases and emptied |
| Feed.Feed.TrySends | event/feed.go:159-165 | the non-blocking pass keeps the round's bookkeeping and counts every delivery |
| Feed.Feed.RemoveRequested | event/feed.go:170-177 | a removal during the round finds its case and keeps the bookkeeping |
| Feed.Feed.Send | event/feed.go:128-190 | for any requests to remove subscribers: those handled are the first of them; each case present at the start and not removed got the value exactly once, none twice; the result counts the deliveries, all starting cases if nothing was requested; the cases are the starting ones without the removed |
| FeedProtocol.InitInv | event/feed.go:60-65 | the invariant holds at first |
| FeedProtocol.SubscribeInv | event/feed.go:72-92 | subscribing keeps one case per subscription |
| FeedProtocol.CheckInboxInv | event/feed.go:103-114 | the first phase of a removal keeps it |
| FeedProtocol.RemoveInv | event/feed.go:116-124 | the second phase, by lock or through a running Send, keeps it |
| FeedProtocol.SendStartInv | event/feed.go:132-137 | a Send that starts between the two phases keeps it |
| FeedProtocol.DeliverInv | event/feed.go:159-181 | a delivery keeps it |
| FeedProtocol.NeverCrashes | event/feed.go:103-124 | whenever a removal reaches the cases its case is there, so find never returns -1 before delete |
| FeedProtocol.SendProgresses | event/feed.go:155-182 | every delivery and every removal handled makes the rest of a Send smaller |
| FeedProtocol.ReachableInv | event/feed.go:72-190 | the invariant holds in every state of every run, and no enabled step crashes |
| FeedProtocol.SendReturns | event/feed.go:128-190 | whenever a Send of a run returns, its cases were served exactly once or removed |
| FeedSteps.Perform | event/feed.go:72-190 | every step of the protocol is taken by the feed's own methods; a removal finds its case because the invariant holds |
| FeedSteps.Replay | event/feed.go:72-190 | every run of the protocol, taken by the feed's methods from a new feed, ends in the state the protocol says |
| ExpHeap.RootIsLeast | p2p/util.go:35-38 | the first item expires first |
| ExpHeap.Heap.Up | p2p/util.go:40-43 | sifting up restores the heap order and keeps the items |
| ExpHeap.Heap.Down | p2p/util.go:55-63 | sifting down restores the order of the first n and keeps the items |
| ExpHeap.Heap.Add | p2p/util.go:40-43 | adds the item and keeps the heap order |
| ExpHeap.Heap.Pop | p2p/util.go:69-76 | takes out an item that expires first |
| ExpHeap.Heap.Contains | p2p/util.go:45-52 | true exactly if an entry with that item is there |
| ExpHeap.Heap.Expire | p2p/util.go:55-63 | removes exactly the entries that expire strictly before now, in order of expiry |
| InboundThrottle.Listener.CheckInboundConn | p2p/server.go:981-997 | which attempts are accepted, and that two accepted ones from one non-LAN address are more than 30 s apart in every run |
| InboundThrottle.AcceptsAnother | p2p/server.go:992-996 | an attempt that is accepted keeps the spacing of all accepted ones and is remembered |
| DialScheduler.Scheduler.constructor | p2p/dial.go:165-188 | a new scheduler satisfies the invariant |
| DialScheduler.Scheduler.CheckDial | p2p/dial.go:401-424 | the first reason not to dial, in the order of the source |
| DialScheduler.Scheduler.CanDialIff | p2p/dial.go:401-424 | a node may be dialed exactly if it is not self, has a port and an allowed address, and is not dialing, connected or in the history |
| DialScheduler.Scheduler.StartDial | p2p/dial.go:465-475 | only ever called for a node that is not self, has a port and an allowed address, and is not dialing, connected or in the history; it stays there for 35 s, and two dials of one node are more than 35 s apart |
| DialScheduler.AnotherDial | p2p/dial.go:465-475 | a dial of a node that is not in the history keeps all dials of one node more than 35 s apart |
| DialScheduler.Scheduler.AddToStaticPool | p2p/dial.go:444-450 | the task knows its position; the pool stays dialable |
| DialScheduler.Scheduler.RemoveFromStaticPool | p2p/dial.go:454-462 | the last task takes the place of the removed one, positions stay right, also if they coincide |
| DialScheduler.Scheduler.UpdateStaticPool | p2p/dial.go:437-442 | no static node that may be dialed is left outside the pool |
| DialScheduler.Scheduler.StartStaticDials | p2p/dial.go:427-434 | to the dials in flight exactly those of the pool are added, in any order |
| DialScheduler.Scheduler.Prepare | p2p/dial.go:240-249 | at the select the pool is empty and no dialable static node waits; exactly when slots are free; the pooled nodes are dialed and nobody else; all dials together are within the limit exactly if those running and those pooled were |
| DialScheduler.Scheduler.OnNode | p2p/dial.go:259-264 | a candidate is dialed exactly if it may be; only with fewer than maxActiveDials dynamic dials and fewer than maxDialPeers dialed peers |
| DialScheduler.Scheduler.OnDone | p2p/dial.go:266-270 | a finished dial is over and keeps the invariant; a static task takes the endpoint that was found |
| DialScheduler.Scheduler.OnAddPeer | p2p/dial.go:272-283 | a connected node leaves the pool; the counter follows the flags |
| DialScheduler.Scheduler.OnRemovePeer | p2p/dial.go:285-290 | a node that left may be dialed again |
| DialScheduler.Scheduler.OnAddStatic | p2p/dial.go:292-303 | a new static node is pooled if it may be dialed; a known one changes nothing |
| DialScheduler.Scheduler.FileStatic | p2p/dial.go:299-303 | a new static task is filed under its node and pooled exactly if the node may be dialed |
| DialScheduler.Scheduler.OnRemoveStatic | p2p/dial.go:305-314 | a static node and its pool entry go together |
| DialScheduler.Scheduler.OnHistoryExpired | p2p/dial.go:378-387 | exactly the expired entries leave the history, and their nodes get another chance |
| DialScheduler.Scheduler.Handle | p2p/dial.go:251-319 | every select case keeps the invariant and changes peers, counter, dials, static nodes and history exactly as its event says |
| DialScheduler.Scheduler.Receive | p2p/dial.go:251-319 | an event is handled unless it cannot occur (a candidate without slots, the result of no running dial), which changes nothing |
| DialScheduler.Scheduler.Turn | p2p/dial.go:240-319 | an event and the start of the next round lead from one select point to the next: no dial ends but the one reported, and only a candidate with slots and static nodes are dialed, a new static node at once if it may be |
| DialScheduler.Scheduler.Loop | p2p/dial.go:229-320 | for every sequence of events, every select point is reached with an empty pool and no dialable static node waiting; the static nodes are those there at first or added, and not removed afterwards |
| DialScheduler.StaticNextOne | p2p/dial.go:292-314 | one more event changes who is static by its own node only |
| DialScheduler.ExceedsLimit | p2p/dial.go:427-434 | two static nodes are dialed at once under a limit of one |
| PeerSet.ConnLimits | p2p/server.go:708-725 | the dialed share is the limit divided by the ratio, rounded down but at least one; both shares are within the limit |
| PeerSet.StartInv | p2p/server.go:781-791 | the invariant of the two loops holds at first |
| PeerSet.TrustInv | p2p/server.go:800-816 | trust changes change no set that is counted |
| PeerSet.AdmitInv | p2p/server.go:832-846 | an admission keeps counters, mirror and limits |
| PeerSet.DropInv | p2p/server.go:848-856 | so does a disconnection |
| PeerSet.NextInv | p2p/server.go:794-863 | every step of the run loop and of the scheduler keeps the invariant |
| PeerSet.ReachableInv | p2p/server.go:794-863 | it holds at the end of every run |
| PeerSet.CountersExact | p2p/server.go:794-863 | inboundCount is the number of inbound peers whenever the loop waits, dialPeers and the scheduler's peers are exact once messages are through, peers admitted untrusted stay within MaxPeers and inbound ones within maxInboundConns, and every peer is useful and not the node itself |
| PeerSet.Server.constructor | p2p/server.go:781-791 | no peers, and exactly the configured trusted nodes |
| PeerSet.Server.AddTrusted | p2p/server.go:800-807 | the node is trusted, and so is its connection; no other peer's flags change |
| PeerSet.Server.RemoveTrusted | p2p/server.go:809-816 | the node and its connection lose trust; no other peer's flags change |
| PeerSet.Server.PostHandshake | p2p/server.go:823-830 | the trusted flag is set before the limits are checked |
| PeerSet.Server.PostHandshakeChecks | p2p/server.go:888-903 | the first reason to refuse, in the order of the source; a useful, unconnected node other than self is admitted exactly if it is trusted or both limits leave room |
| PeerSet.Server.AddPeer | p2p/server.go:832-846 | is the protocol's admission step with its handover: verdict, table, counter and the message to the scheduler |
| PeerSet.Server.DelPeer | p2p/server.go:848-856 | is the protocol's disconnection step with its handover |
| PeerMirror.Process | p2p/dial.go:272-290 | a turn of the scheduler's loop on a message is the protocol's step: counter and connected nodes change as it says, and the scheduler waits as it should |
| PeerMirror.RunBoth | p2p/dial.go:229-320 | in every run of both loops, with any other events of the scheduler in between, its peers are the connected ones and its counter is the number of dialed ones whenever no message is under way |
| Protocols.BelowIsTotal | p2p/protocol.go:84-86 | names are totally ordered |
| Protocols.BelowIsPrecedes | p2p/protocol.go:84-86 | names are ordered by their first difference, a prefix before the longer name |
| Protocols.NotLessTransitive | p2p/protocol.go:84-86 | so are capabilities |
| Protocols.SortCaps | p2p/peer.go:404 | a sorted permutation of the capabilities |
| Protocols.MatchProtocols | p2p/peer.go:403-425 | a protocol runs exactly if a version is common, in the highest one, at 16 plus the lengths of all protocols whose names come before |
| Protocols.Assigned | p2p/peer.go:413-419 | replacing an older version keeps all offsets right |
| Protocols.CountMatchingProtocols | p2p/peer.go:390-400 | the number of matching pairs of a capability and a protocol; zero exactly if no capability is offered here |
| Protocols.UselessMeansNothingRuns | p2p/peer.go:390-425 | nothing would run exactly if the count is zero |
| Protocols.HighestCommon | p2p/peer.go:403-425 | the version chosen is the highest that both ends offer |
| Protocols.BothEndsAgree | p2p/peer.go:403-425 | two ends that match each other's capabilities agree on names, versions, lengths and offsets |
| Protocols.Partition | p2p/peer.go:403-461 | the ranges partition an interval from 16: every code in it belongs to exactly one protocol, none outside does |
| Protocols.GetProto | p2p/peer.go:454-461 | finds a protocol whose range has the code, in whatever order the map is searched, or there is none |
| Protocols.DeliveredIfFits | p2p/peer.go:476-520 | a code written at one end is routed to the same protocol at the other and read back unchanged |
| Protocols.DeliveredIffFits | p2p/peer.go:454-520 | all messages are delivered if and only if 16 plus the lengths stay below 2^64 |
| Protocols.TooLongIsLost | p2p/peer.go:454-486 | a protocol of 2^64 - 16 codes or more is negotiated, does not fit, and loses its first message |
| Protocols.NegotiatesTooLong | p2p/peer.go:403-461 | a table as the code negotiates it that does not fit |
| Protocols.Exchange | p2p/peer.go:348-520 | a whole exchange through both ends' code returns the protocol and the code, or nothing for a code the protocol lacks |
| GasPool.Pool.AddGas | core/gaspool.go:35-41 | adds, where the source does not panic |
| GasPool.Pool.SubGas | core/gaspool.go:45-51 | takes the amount exactly if it is there |
| GasPool.Pool.SubBlobGas | core/gaspool.go:69-75 | the same for blob gas |
| World.TotalUpdate | core/state/state_object.go:283-304 | setting a balance changes the sum by the difference |
| World.State.AddBalance | core/state/state_object.go:283-295 | adds modulo 2^256, touches one account, and says exactly when it wraps |
| World.State.SubBalance | core/state/state_object.go:299-304 | subtracts modulo 2^256, touches one account, and says exactly when it wraps |
| Fees.FeeIs | core/state_transition.go:212-215 | a fee, added up unit by unit, is the product that is billed |
| Fees.StateTransition.BuyGas | core/state_transition.go:212-282 | succeeds exactly if sender and pools can afford it, and an error says why not; takes the bill from the sender alone, and the balance wraps exactly if the bill is more than there is |
| Fees.StateTransition.PreCheck | core/state_transition.go:297-349 | succeeds exactly for an acceptable and affordable message, and an error says why not; with the effect of the purchase |
| Fees.StateTransition.Credit | core/state_transition.go:513-514 | one account gets the price of some gas, modulo 2^256, and nobody else anything |
| Fees.StateTransition.RefundGas | core/state_transition.go:504-519 | the refund is the smaller of the counter and the quotient share; unused gas goes back to sender and pool |
| Fees.StateTransition.PayFees | core/state_transition.go:459-477 | coinbase and burnt contract get their amounts, also if they are one account |
| Fees.StateTransition.Settle | core/state_transition.go:449-477 | the gas used is what was not handed back less the refund, capped at a fifth of it since London and at half before; refund and payment together, account by account and in total |
| Fees.StateTransition.Execute | core/state_transition.go:437-448 | the message is counted and run; gas does not grow and the sum of balances stays |
| Fees.StateTransition.Run | core/state_transition.go:437-502 | from the state the EVM starts in to the one left: gas, nonces, code and every balance modulo 2^256 |
| Fees.StateTransition.TransitionDb | core/state_transition.go:364-502 | exactly when it succeeds, what an error says, the gas charged in terms of what the EVM handed back, what every account has in the end, the pools, by how much the sum of balances changes, and that a balance wraps if the bill is more than the sender has |
| Fees.FeeBounds | core/state_transition.go:449-477 | gas used and gas left are paid for separately; what is handed out stays below price plus surplus |
| Fees.LondonPriceIsFair | core/state_transition.go:459-467 | the EIP-1559 price is the one that splits into tip and base fee |
| Fees.IncomeSplits | core/state_transition.go:459-477 | since London the block producer gets the tip as far as the cap leaves room above the base fee, and the contract set for it the base fee |
| Fees.ApplyMessage | core/state_transition.go:200-202 | leads exactly to what the message does (bill, EVM, refund and fees); a balance wraps exactly if the sender is billed more than there is; otherwise, with a fair price the sum falls by exactly the burnt base fee and the blob fee, and since London a fair price is necessary too |
| Fees.CoveredIsPaid | core/state_transition.go:236-267 | the balance check is enough if price and blob price are within the caps it multiplies |
| Fees.BlobFeeCoveredIff | core/state_transition.go:222-267 | exactly when the blob fee is more than the balance check assumed |
| Fees.AcceptedBlobFee | core/state_transition.go:330-345 | the blob price is, for every message accepted with base fees enabled |
| Fees.ScaledIs | core/state_transition.go:180-188 | the effective price is at most the price, equal to it exactly at full percentage below 2^248, and a rounded-down share of it unless the product wraps |
| Fees.UnscaledIsFairIff | core/types/dynamic_fee_tx.go:349-379 | without scaling an accepted message stays within its cap and has a fair price exactly if tip and base fee together stay below 2^256 |
| Fees.PayableIsFair | core/types/dynamic_fee_tx.go:349-379 | which they do if two units of gas at the cap do |
| Fees.ScaledIsCovered | core/state_processor_zkevm.go:46-49 | a price below 2^248 stays within its cap under any percentage |
| Fees.ScaledDynamicIsCoveredIff | core/state_processor_zkevm.go:46-49 | exactly when an accepted dynamic-fee message is charged more than its scaled cap, for all prices |
| Fees.ScaledFreeIsCoveredIff | core/state_processor_zkevm.go:46-57 | the same for messages whose scaled cap and tip are zero: free ones, and those that skip the fee check |
| Fees.ScaledDynamicIsFairIff | core/state_processor_zkevm.go:46-49 | exactly when an accepted, scaled dynamic-fee message still has a fair price, for all prices |
| Fees.ScaledLegacy | core/types/legacy_tx.go:344-361 | since London a legacy message is refused for its tip exactly if scaling changed it, and fair if accepted, for all prices |
| Fees.ScaledMints | core/state_processor_zkevm.go:46-49 | an accepted message for which the producer gets twice what the sender pays |
| Fees.ScaledUnderflows | core/state_transition.go:180-188 | a message that passes every check and is then billed more than the sender has |
| ZkBlock.ApplyTransaction | core/state_processor_zkevm.go:68-127 | succeeds exactly if there is a message and it is acceptable, runnable and affordable in the state at hand; then the message is applied: its gas is in the receipt, the pool is short of exactly that, and the running total is in the receipt |
| ZkBlock.NoBlobFee | core/blockchain_zkevm.go:75 | a block's pool has no blob gas, so no blob fee is ever taken |
| ZkBlock.PlayedOn | core/blockchain_zkevm.go:92-158 | one more accepted transaction continues the chain of states |
| ZkBlock.FieldsStayRight | core/blockchain_zkevm.go:313-342 | from fork 8 on cumulative gas is the prefix sum, before that the transaction's own |
| ZkBlock.ExecuteBlock | core/blockchain_zkevm.go:69-158 | the transactions are applied one after the other, each in the state its predecessors left, and the block is executed exactly if each is accepted there; pool plus gas used is the block limit after every transaction, AddGas never panics, receipts' gas fields, and conservation over the whole block |
| ZkBlock.BeforeLondonAllFair | core/blockchain_zkevm.go:92-158 | before London every block conserves the sum of balances |
| ZkBlock.ScaledFairIff | core/blockchain_zkevm.go:92-158 | since fork 5 a payable dynamic-fee transaction pays a fair price within its cap exactly on the stated terms |
| ZkBlock.UnscaledKeepsPrice | core/state_processor_zkevm.go:46-49 | the full percentage meets them for every cap below 2^248 |
| ZkBlock.LondonAllFair | core/blockchain_zkevm.go:92-158 | a London block of transactions on such terms, scaled or not, destroys exactly the base fee of the gas used |
| BlockHashes.WalkSkips | core/evm.go:95-126 | a walk to a block outside the cache may start at the cache's end |
| BlockHashes.HashFn.Query | core/evm.go:95-126 | the answer is that of the uncached walk, whatever was asked before; the cache only grows, and then holds the block asked for or ends where the chain breaks off |
| BlockHashes.QueryAll | core/evm.go:95-126 | the same for any sequence of queries |
| BlockHashes.FutureIsZero | core/evm.go:95-126 | blocks at or above the reference have the zero hash in spite of the wrap-around |
| TxMigration.FirstFromRange | migrations/txs_begin_end.go:339-360 | where no id is missing the range read is the range asked for |
| TxMigration.Tables.CanonicalTransactions | migrations/txs_begin_end.go:339-360 | the first entries at or after the base, in order, fewer if the table ends |
| TxMigration.Tables.WriteTransactions | migrations/txs_begin_end.go:228-246 | writes the transactions at consecutive ids |
| TxMigration.Tables.MoveBlock | migrations/txs_begin_end.go:84-112 | moving a block is the step of the specification; a block without a body is skipped |
| TxMigration.Tables.Up | migrations/txs_begin_end.go:33-58 | the loop from the start block down to 0 |
| TxMigration.StepEffect | migrations/txs_begin_end.go:91-112 | exactly which ids a move writes and deletes |
| TxMigration.StepPlaces | migrations/txs_begin_end.go:91-112 | the block moved is in its new place and the others are where they were |
| TxMigration.StepSpares | migrations/txs_begin_end.go:91-112 | what lies below the block moved or past all new ranges is not touched |
| TxMigration.StepInv | migrations/txs_begin_end.go:58-112 | a move touches no block that has not been moved and none that has |
| TxMigration.UninterruptedIsRight | migrations/txs_begin_end.go:58-112 | after a whole run every block's transactions are in order between two empty slots at base + 2 * number, and nothing outside has changed |
| TxMigration.NewRangesAbut | migrations/txs_begin_end.go:96-97 | the new ranges abut |
| TxMigration.BodiesAfter | migrations/txs_begin_end.go:96-100 | a run moves each body in its range exactly once |
| TxMigration.RightIffNeverResumed | migrations/txs_begin_end.go:39-41 | with any number of resumptions at recorded blocks, the result is right if and only if there were none |
| TxMigration.ResumeBelow | migrations/txs_begin_end.go:58-175 | going on one block below the recorded one gives the uninterrupted result |
| TxMigration.ResumedLoses | migrations/txs_begin_end.go:162-175 | resuming at block 0 deletes the first transaction of block 1 |
| PrefixWalk.MatchKeyIsMatches | ethdb/walk.go:53-67 | the masked comparison is the byte-by-byte one |
| PrefixWalk.MatchesIsSharesBits | ethdb/kv_util.go:32-40 | it holds exactly if the first bits are shared |
| PrefixWalk.AtMostIsLexicographic | ethdb/kv_util.go:10-30 | keys are ordered by their first difference, a prefix before the longer key |
| PrefixWalk.MatchesConvex | ethdb/kv_util.go:10-30 | whatever lies between the start key and a match is a match, so stopping at the first mismatch loses nothing |
| PrefixWalk.ScanIsComplete | ethdb/kv_util.go:10-30 | the stretch scanned is exactly the selection |
| PrefixWalk.Walk | ethdb/kv_util.go:10-30 | visits the matching keys from the start key on, in order, until the walker stops or fails; all of them with a walker that always goes on |
| PrefixWalk.SplitCursor.Seek | ethdb/walk.go:69-78 | moves to the first key not below the start key and delivers its parts if it matches |
| PrefixWalk.SplitCursor.Next | ethdb/walk.go:80-89 | moves on and delivers the parts of a match |
| PrefixWalk.ReadAll | ethdb/walk.go:69-89 | read until it delivers nothing, the split cursor yields the same keys as Walk |
| PrefixWalk.PartsMakeKey | ethdb/walk.go:69-89 | the three parts, with what is skipped after the first, make up the key, in the lengths asked for |
| DownloadStates.LatestBackwards | dataflow/states.go:77-95 | going backwards and letting the first win gives the last state of each id |
| DownloadStates.FoldIsOverlay | dataflow/states.go:77-95 | folding last states into a base equals replaying the log on it |
| DownloadStates.Tracker.AddChange | dataflow/states.go:65-75 | what the tracker stands for changes by exactly the change, which is the last of the window; only a full window is folded away; ticks count changes |
| DownloadStates.Tracker.MakeSnapshot | dataflow/states.go:77-95 | the snapshot becomes what the tracker stands for |
| DownloadStates.Record | dataflow/states.go:52-95 | for every window and sequence of changes the tracker stands for the full replay: the snapshot is the replay of whole windows, and the window holds all changes after it |

## Left out

- RlpStream.DecodeBytes: decodes into the generic value (strings and lists); dispatch over Go types by reflection, struct tags and the typed decoders are not modelled.
- DialScheduler.Scheduler.Loop: the clock is any monotone clock, resolving a node keeps its id, and shutdown, statistics and the dialing itself are not modelled.
- DialScheduler.Scheduler.StartStaticDials: the random choice of the next task is any choice.
- Feed.Feed.Send: a Send by itself, with the requests it may be sent as a parameter; what arrives in between is interleaved in `FeedProtocol`. Channels have no contents: a delivery is a record of the case, and the value is not modelled.
- PeerSet.Server.AddPeer: the number of matching protocols is a parameter (it is what `Protocols.CountMatchingProtocols` computes), and handshakes and shutdown are not modelled.
- Protocols.SortCaps: Go's sort is modelled on values by an insertion sort; equal capabilities are identical, so any correct sort gives the same sequence. The in-place exchange is not captured.
- Fees.StateTransition.TransitionDb: the EVM is any function that returns no more gas than it got and keeps the sum of balances; intrinsic gas, the init-code check and whether a message is free are parameters; bailout mode, tracing and the Bor fee log are not modelled, and nothing is said about the state after an error.
- Fees.ScaledDynamicIsFairIff: for messages that are not free; free ones owe no base fee.
- ZkBlock.ExecuteBlock: only the gas fields of receipts; logs, post-state, block-info tree and trie are not modelled.
- TxMigration.Tables.Up: ids and amounts are unbounded; the deletion of non-canonical bodies and the sequence counters, in other tables, are not modelled.
- BlockHashes.HashFn.Query: for a store that returns headers under their own number and has none with the number 2^64-1.
- DownloadStates.Tracker.AddChange: the printing of changes is not modelled, nor is a window of 0, for which the source has no slot to write to.
- ExecuteBlockEphemerally, which resets the gas pool before every transaction, so that it maintains no block-level sum.
- RLPx transport, discovery, NAT, metrics, RPC, node wiring, genesis and parameter data, and cryptography.
