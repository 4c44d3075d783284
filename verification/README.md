# Verified model of a BitTorrent library

A Dafny model of the protocol core of a BitTorrent library written in Rust: bencode, the distributed hash
table, the uTP transport, the disk manager's admission counter and the UDP tracker's announce options. Code
that computes is modelled by functions. Code that updates things in place is modelled by methods and classes
whose contracts tie them to those functions, and the theorems are about the functions, over all inputs and
all runs. `dafny verify dfyconfig.toml` checks everything.

| file | component |
|---|---|
| Common, Bits | shared types, byte-string order, bit operations |
| BencodeTokens, BencodeDecode, BencodeEncode, BencodeRoundTrip, BencodeLocality, BencodePanic, BencodeUnsorted | the recursive decoder, both encoders, what they promise each other, when the decoder panics |
| BencodeStack, BencodeWriters | the explicit-stack decoder; both encoders as the source runs them |
| ShaHash | 160-bit ids, leading bits, XOR distance |
| RoutingBucket, RoutingTable, RoutingSplit, RoutingClosest | the Kademlia routing table and its closest-nodes iterator |
| LookupNodes, Lookup, LookupRuns, LookupEndgame, LookupAskedTwice, LookupAnnounce, LookupOutcomes, LookupObject | the iterative table lookup |
| AnnounceStore, TokenStore, TransactionIds | announced contacts, announce tokens, transaction ids |
| UtpPacket, UtpSack, UtpWindow, UtpAcks | uTP packets, selective acknowledgements, the send window, acknowledgements that interrupt each other |
| DiskAdmission, TrackerOptions | the shared capacity counter; chunked options |

Conventions. The clock, random draws, the network, timers and thread interleavings are parameters or steps.
Requests a lookup sends are recorded in the order they go out. Theorems about acknowledgements hold for any
nesting of them, which includes all the code allows (`CanArrive`). SHA-1 digests of an address and a secret are taken as determining both. Unsigned arithmetic that can wrap
(16-bit sequence numbers, the 32-bit in-flight counter, the 64-bit capacity counter, the length byte of an
extension) is written out modulo its width, as a release build computes it. In bencode a dictionary is a
`BTreeMap`, modelled as its entries in key order.

Where code and documentation differ, the model follows the code:

- The recursive bencode decoder unwraps the value of a dictionary entry, so a malformed value panics instead
  of being reported (`PanicsExactly`, `CutOffDictPanics`). Such an outcome counts as not accepted when decoders
  are compared.
- The bit iterator over a hash shifts but does not mask, so it reports only the top set bit of each byte
  (`ReportedBitsExact`, `FullByteMisreported`). Counting leading bits is unaffected (`LeadingBitCountIsPrefix`).
- Tokens are documented as valid for 10 to 20 minutes; the code accepts some until just under 30, and longer
  by the time a call lets pass between its two clock readings (`AcceptedAlmostThirtyMinutes`).
- `find_node` documents that it finds the node if it exists; it misses nodes in the assorted bucket
  (`FindsSortedOnly`, `FirstNodeMissed`).
- `set_sack` writes its length as one byte and is exact only below 256 bytes (`SackExact`).
- The selective-acknowledgement mask compares raw 16-bit numbers and leaves out wrapped ones (`SackComplete`,
  `WrappedIsLost`).
- Error replies of the disk manager never give their capacity back (`IdleCapacity`, `Exhausted`).
- Bytes reported to congestion control as newly acknowledged may stay in the send window when another
  acknowledgement arrives during a resend (`ReportedLeavesExactly`, `LateCopyKeepsPackets`).
- The endgame of a lookup may ask a node that was asked before, since listing a node again does not mark it
  (`EndgameAsksOnceExactly`, `AskedTwice`).
- Writing announce options drops options without content (`RestoredExactly`).

## Model

| member | source | states |
|---|---|---|
| BencodeTokens.DecodeIntFrame | src/bencode/reference/decode.rs:61-108 | a number token is read the same, with the same length, wherever the same bytes stand in any other input |
| BencodeTokens.DecodeBytesFrame | src/bencode/reference/decode.rs:110-132 | the same for a length-prefixed byte string |
| BencodeTokens.IntTextParses | src/bencode/mutable/encode.rs:20-26 | the printed numeral of every 64-bit integer passes the decoder's text checks and denotes that integer |
| BencodeTokens.TokenCanonical | src/bencode/reference/decode.rs:74-107 | any accepted number text that does not start with a plus sign is exactly the numeral of its value |
| BencodeTokens.TokenExactly | src/bencode/reference/decode.rs:74-107 | a number text is accepted if and only if it is the numeral of a 64-bit integer, or a plus sign and digits, padded or not, that denote one |
| BencodeTokens.EncodedBytesDecode | src/bencode/mutable/encode.rs:28-34 | wherever an encoded byte string stands, reading gives back the string and the position right after it |
| BencodeTokens.BytesCanonical | src/bencode/reference/decode.rs:110-132 | a byte string whose length has no plus sign is spelled exactly as the encoder spells it |
| BencodeDecode.RunDecode | src/bencode/reference/decode.rs:9-59 | the recursive decoder computes `Decode` on every input, errors and panics included |
| BencodeDecode.RunDecodeList | src/bencode/reference/decode.rs:134-156 | the list loop computes the list part of `Decode` |
| BencodeDecode.RunDecodeDict | src/bencode/reference/decode.rs:158-205 | the dictionary loop with key order, duplicates and the unwrapped value computes the dictionary part of `Decode` |
| BencodeDecode.InsertAscends | src/bencode/reference/decode.rs:187-197 | inserting a new key keeps a dictionary in strictly increasing key order |
| BencodeDecode.DecodeFrame | src/bencode/reference/decode.rs:9-205 | a decoding that succeeds also succeeds, with the same value and length, wherever its bytes stand and under any options at least as lenient |
| BencodeEncode.EncodingDecodes | src/bencode/mutable/encode.rs:7-67 | wherever the encoding of a value stands, decoding reads that value and stops right after it, if nesting leaves room |
| BencodeEncode.KnownEncoding | src/bencode/mutable/encode.rs:7-67 | one value with every kind in it, byte by byte |
| BencodeRoundTrip.DecodedFits | src/bencode/reference/decode.rs:9-59 | every decoded value is well formed (64-bit integers, strictly ordered keys) and nested no deeper than the limit |
| BencodeRoundTrip.RoundTrip | src/bencode/reference/bencode_ref.rs:38-50 | decoding the encoding of any value succeeds if and only if its nesting is within the limit, and then gives the value back and consumes everything |
| BencodeRoundTrip.TrailingBytes | src/bencode/reference/bencode_ref.rs:38-50 | with anything behind a complete value, decoding the whole input fails if and only if a full decode is enforced; otherwise it gives the value and leaves the rest |
| BencodeRoundTrip.FullDecodeExactly | src/bencode/reference/bencode_ref.rs:43-47 | enforcing a full decode accepts exactly the inputs accepted without it that are read to the end, as the same values |
| BencodeRoundTrip.Reencoding | src/bencode/mutable/encode.rs:7-67 | re-encoding what was accepted under key-order checking gives back the same bytes if and only if no integer and no key length is written with a plus sign |
| BencodePanic.PanicsExactly | src/bencode/reference/decode.rs:158-205 | decoding panics if and only if it comes to a dictionary value, after accepted keys and readable values, whose own decoding is an error; every other failure is reported |
| BencodePanic.CutOffDictPanics | src/bencode/reference/decode.rs:184-186 | the input `d1:a` panics under every nesting limit above zero |
| BencodeUnsorted.AnyOrder | src/bencode/reference/decode.rs:158-205 | without key-order checking, entries in any order decode to the sorted dictionary; with it they are rejected unless the keys ascend |
| BencodeLocality.Locality | src/bencode/reference/bencode_ref.rs:53-60 | every value nested anywhere in a decoded tree lies inside the input, and decoding its buffer alone consumes all of it and yields the same value, as the info hash relies on |
| BencodeLocality.NestedReadInPlace | src/bencode/reference/decode.rs:25-54 | every nested value is the result of the decoding call made at its recorded start and ends at its recorded end |
| BencodeStack.RecursiveReadsGrammar | src/bencode/reference/decode.rs:9-205 | with key-order checking and a nesting limit above the input length the recursive decoder accepts exactly the plain grammar, with the same value and end |
| BencodeStack.CollapseNeverCrashes | src/dht/bencode/decode.rs:154-260 | on a stack of containers each holding the kind of entry that stands on it, none of the panics of collapsing can be reached, and the stack stays of that shape |
| BencodeStack.ShallowThenResume | src/dht/bencode/decode.rs:266-286 | reading a value completely and finishing equals reading it shallowly and resuming the stack |
| BencodeStack.StepIntoList | src/dht/bencode/decode.rs:52-60 | pushing the next list entry does not change what the whole stack will read |
| BencodeStack.StepIntoDict | src/dht/bencode/decode.rs:73-84 | pushing the next key and value does not change what the whole stack will read |
| BencodeStack.RunStack | src/dht/bencode/decode.rs:17-149 | the stack decoder never panics and, for every input and start, accepts exactly what the recursive decoder accepts with key-order checking and room to nest, with the same value and end |
| BencodeStack.GrammarRoundTrip | src/dht/bencode/decode.rs:17-149 | reading the encoding of any well-formed value gives that value back and consumes everything, at any nesting |
| BencodeWriters.EncodeVec | src/dht/bencode/encode.rs:6-13 | the encoder that returns vectors produces the encoding |
| BencodeWriters.EncodeListVec | src/dht/bencode/encode.rs:35-45 | its list loop does |
| BencodeWriters.EncodeDictVec | src/dht/bencode/encode.rs:47-63 | its dictionary loop, after sorting the keys, does |
| BencodeWriters.EncodeInto | src/bencode/mutable/encode.rs:7-18 | the encoder that appends leaves the earlier bytes alone and appends the same encoding |
| BencodeWriters.EncodeListInto | src/bencode/mutable/encode.rs:36-48 | its list loop does |
| BencodeWriters.EncodeDictInto | src/bencode/mutable/encode.rs:50-67 | its dictionary loop, after sorting the keys, does |
| ShaHash.LeadingBitCountIsPrefix | src/dht/routing/table.rs:156-160 | the counted leading bits are the length of the longest common prefix of the two ids, although the bit iterator does not mask |
| ShaHash.ReportedBitsExact | src/util/sha/mod.rs:158-177 | the bit iterator reports the true bits of a hash if and only if every byte has at most one bit set |
| ShaHash.FullByteMisreported | src/util/sha/mod.rs:158-177 | of the eight set bits of a leading byte 0xff only the first is reported |
| ShaHash.PrefixTriangle | src/dht/routing/table.rs:156-160 | two ids that leave a third at different bits part at the earlier one; two that leave it at the same bit share more |
| ShaHash.LongerPrefixIsCloser | src/util/sha/mod.rs:81-93 | sharing more leading bits with a target means strictly smaller XOR distance |
| ShaHash.LessIsNumeric | src/util/sha/mod.rs:11-15 | the derived order on hashes is the order of the numbers they denote |
| RoutingBucket.AddKeepsPacked | src/dht/routing/bucket.rs:69-101 | adding keeps a bucket packed: live nodes in front without duplicates, placeholders behind |
| RoutingBucket.AddKeepsGood | src/dht/routing/bucket.rs:75-100 | no addition displaces a different Good node |
| RoutingBucket.AddedIsHeld | src/dht/routing/bucket.rs:69-101 | a node reported as dealt with is in the bucket, and as Good if it was Good |
| RoutingBucket.AddedRecord | src/dht/routing/bucket.rs:69-101 | the bucket holds the very record offered, with its times, if and only if the node was dealt with and not held with a better status; otherwise nothing changes |
| RoutingBucket.RefusesWhenFull | src/dht/routing/bucket.rs:87-100 | a node is refused if and only if it is live, new, and every slot holds one at least as well regarded |
| RoutingBucket.Bucket.AddNode | src/dht/routing/bucket.rs:69-101 | the in-place search and overwrite of the slot array has exactly the effect of `BucketAdd` |
| RoutingTable.StatusOnlyDecays | src/dht/routing/node.rs:147-157 | with nothing sent or received, a node's status never improves as time passes |
| RoutingTable.RequestKeepsGood | src/dht/routing/node.rs:97-157 | a node that once responded is Good for 15 minutes after each request of its own; one that never did stays Bad |
| RoutingTable.SilentNodeTurnsBad | src/dht/routing/node.rs:88-157 | after its last response a node is Good while heard from within 15 minutes, however often we ask; then Questionable until two requests went unanswered, then Bad |
| RoutingTable.AddNodePlaced | src/dht/routing/table.rs:81-139 | adding a node, with all splits it causes, keeps every node in the bucket its id asks for |
| RoutingTable.SplitKeepsGood | src/dht/routing/table.rs:111-133 | a split adds exactly one bucket (none inside it), leaves the other buckets alone and keeps every Good node |
| RoutingSplit.SplitExact | src/dht/routing/table.rs:111-139 | after a split the two new buckets hold exactly the live nodes of the old one that belong there, joining in their order, each Good one in the place of the first Questionable one still standing |
| RoutingSplit.SplitKeepsLive | src/dht/routing/table.rs:111-139 | a live node is still there, unchanged, if it is Good or no Good node behind it goes to the same half |
| RoutingSplit.SplitWithoutGood | src/dht/routing/table.rs:111-139 | a split of a bucket without Good nodes holds exactly its live nodes |
| RoutingTable.AddNodeKeepsGood | src/dht/routing/table.rs:81-106 | at a fixed clock no addition loses a Good node, through any chain of splits |
| RoutingTable.BucketNodeOutcome | src/dht/routing/table.rs:95-106 | a live node ends up in its bucket unless that bucket refuses it and is not the last or one of 160 |
| RoutingTable.BucketNodeRecords | src/dht/routing/table.rs:95-106 | in a placed table it ends up there as the very record offered, unless held with a better status or refused so |
| RoutingTable.GoodNodeRecorded | src/dht/routing/table.rs:81-106 | after adding a Good node its stored times are those offered, unless its bucket is full of other Good nodes and final |
| RoutingTable.GrowsOnlyWhenFull | src/dht/routing/table.rs:95-123 | the table grows only for a live node of the last of fewer than 160 buckets, when every slot there holds another node at least as well regarded |
| RoutingTable.RunPlaced | src/dht/routing/table.rs:81-174 | after every sequence of additions and status updates there are 1 to 160 buckets, and each live entry of bucket i shares exactly i leading bits with our id, in the last bucket at least that many |
| RoutingTable.PlacedIsUnique | src/dht/routing/table.rs:86-91 | in such a table our own id never appears and no two entries share id and address |
| RoutingTable.FindsSortedOnly | src/dht/routing/table.rs:56-78 | a lookup finds a node if and only if it is live in a sorted bucket; nodes of the assorted bucket are never found |
| RoutingTable.FirstNodeMissed | src/dht/routing/table.rs:56-78 | the first node added to a new table, whatever its id, is held as Good and not found |
| RoutingTable.TableObject.Add | src/dht/routing/table.rs:81-92 | the object's mutually recursive methods change the table exactly as `AddNode` says and terminate |
| RoutingTable.TableObject.Place | src/dht/routing/table.rs:95-106 | placing a node, splitting as needed |
| RoutingTable.TableObject.Split | src/dht/routing/table.rs:111-139 | splits only the last of fewer than 160 buckets, redistributing its nodes |
| RoutingClosest.NextIsNextRank | src/dht/routing/table.rs:398-440 | each step of the walk goes to the next existing index in the order start, +1, -1, +2, -2, ... |
| RoutingClosest.WalkVisitsEachOnce | src/dht/routing/table.rs:398-448 | from every start 0 to 160 the walk visits each index 0 to 159 exactly once and stops |
| RoutingClosest.ClosestYieldsEachOnce | src/dht/routing/table.rs:301-341 | the iterator yields every Good or Questionable node exactly once and nothing else |
| RoutingClosest.RunClosest | src/dht/routing/table.rs:46-48 | so it does after any sequence of additions and status updates |
| RoutingClosest.ClosestComeFirst | src/dht/routing/table.rs:284-341 | nodes of the target's own bucket come first and, unless the target is our id, are strictly closer to it than all others; among buckets at or left of it a higher one is strictly closer |
| RoutingClosest.ClosestNodes.constructor | src/dht/routing/table.rs:284-369 | a new iterator still has everything to hand out, the assorted bucket's nodes filed under the index they belong to |
| RoutingClosest.ClosestNodes.Next | src/dht/routing/table.rs:304-340 | each call hands out the first remaining node; None comes only when none remains |
| LookupNodes.InsertKeepsSorted | src/dht/worker/lookup.rs:553-576 | whatever match or place the binary search yields, inserting keeps the candidate list sorted by true XOR distance, keeps every entry and lists the node |
| LookupNodes.InsertKeepsDistinct | src/dht/worker/lookup.rs:564-574 | for every result the search may yield, a list without duplicates stays so if and only if the node is new or the search lands on it rather than on another node with its id |
| LookupNodes.SharedIdDuplicates | src/dht/worker/lookup.rs:564-572 | with two nodes of one id listed, whichever the search lands on, inserting the other again duplicates it |
| LookupNodes.UniqueIdsNoDuplicates | src/dht/worker/lookup.rs:553-576 | while no two listed nodes share an id, duplicates cannot arise from any result of the search |
| LookupNodes.PickNodesOk | src/dht/worker/lookup.rs:506-548 | used picks are a prefix in non-decreasing distance drawn from the candidates, and slot 0 is the closest candidate of all |
| LookupRuns.BeatingRound | src/dht/worker/lookup.rs:173-247 | a response that beats its distance starts a round of one to three requests, all carrying exactly the distance of the closest unrequested candidate, so outstanding requests are never cleared |
| LookupRuns.ResponseProgress | src/dht/worker/lookup.rs:129-261 | before the endgame a recognised response that fails nowhere enters the endgame or strictly lowers the sum of 4^(distance to beat) |
| LookupRuns.TimeoutProgress | src/dht/worker/lookup.rs:263-291 | so does a recognised timeout |
| LookupRuns.SearchTerminates | src/dht/worker/lookup.rs:129-291 | every failure-free run that stays out of the endgame handles at most as many recognised events as the starting sum |
| LookupRuns.NotCompletedEarly | src/dht/worker/lookup.rs:350-356 | a lookup with something outstanding never reports Completed during any failure-free run |
| LookupRuns.StartsAlive | src/dht/worker/lookup.rs:67-123 | a lookup that had a node to ask and failed nowhere starts searching, with something outstanding and a sorted list |
| LookupRuns.RunKeepsSorted | src/dht/worker/lookup.rs:129-291 | in every run the candidate list stays sorted by the true distance from the target |
| LookupEndgame.EndgameAsksEveryone | src/dht/worker/lookup.rs:129-477 | from the start of a lookup, through any run that fails nowhere, when an event starts the endgame and no values came, the nodes asked are exactly the nodes listed, the placeholder of unused pick slots apart |
| LookupEndgame.StepAsks | src/dht/worker/lookup.rs:129-291 | before the endgame every event that fails nowhere keeps the books: marked nodes were asked, asked nodes are listed |
| LookupEndgame.PickedIsMarked | src/dht/worker/lookup.rs:205-214 | a node the next round will ask is marked if the response lists it for the first time |
| LookupEndgame.EndgameAsks | src/dht/worker/lookup.rs:416-477 | without values the endgame asks exactly the unmarked nodes, closest first, and marks every entry |
| LookupEndgame.EndgameAsksOnceExactly | src/dht/worker/lookup.rs:437-473 | it asks nobody twice if and only if no unmarked node was asked before |
| LookupAskedTwice.AskedTwice | src/dht/worker/lookup.rs:564-572 | whenever x is between a and b in distance, a run in which both name x asks x twice |
| LookupEndgame.PlaceholderMarkedUnasked | src/dht/worker/lookup.rs:198-213 | the placeholder, named by a response, can be marked and not asked |
| LookupAnnounce.TokensAreLast | src/dht/worker/lookup.rs:157-160 | after any run the token held for a node is the one carried by its last response to a request then outstanding |
| LookupAnnounce.FinishAnnounces | src/dht/worker/lookup.rs:293-348 | finishing announces to at most eight listed nodes, each with the token held for it, leaves a listed token holder out only if eight others, none farther, are announced to, and reports completion if and only if every send succeeds |
| LookupAnnounce.LookupAnnounces | src/dht/worker/lookup.rs:129-348 | from the start of a lookup through any run, announces go to listed nodes that answered with a token and carry the last one, and a listed node that did is announced to unless eight others, none farther, are |
| LookupOutcomes.ValuesReported | src/dht/worker/lookup.rs:256-260 | values are reported if and only if a response to an outstanding request carried them and nothing failed |
| LookupOutcomes.ValuesExactly | src/dht/worker/lookup.rs:163-170 | a lookup counts as having received values if and only if a response with values and no nodes came |
| LookupOutcomes.EndgameAsksUnlessValues | src/dht/worker/lookup.rs:129-477 | so the endgame asks everyone listed unless such a response came |
| LookupOutcomes.ContinueFailsExactly | src/dht/worker/lookup.rs:358-477 | handling an event fails if and only if a timer or a send of its round fails, or of the endgame when nothing is outstanding and no round starts |
| LookupObject.InsertClosestNode | src/dht/worker/lookup.rs:529-548 | the in-place pick update has the effect of `InsertPick` |
| LookupObject.PickIterateNodes | src/dht/worker/lookup.rs:506-525 | the loop over candidates computes `PickNodes` |
| LookupObject.TableLookup.constructor | src/dht/worker/lookup.rs:79-113 | the new lookup holds the offered nodes sorted, the first four marked as requested |
| LookupObject.TableLookup.InsertSortedNode | src/dht/worker/lookup.rs:553-576 | binary search and insertion have the effect of `InsertNode` |
| LookupObject.TableLookup.SendRequests | src/dht/worker/lookup.rs:358-414 | one request round, with every timer and send failure |
| LookupObject.TableLookup.StartEndgameRound | src/dht/worker/lookup.rs:416-477 | the endgame round asks every node not asked yet unless values were received |
| LookupObject.TableLookup.Respond | src/dht/worker/lookup.rs:129-261 | handling a response in place has the effect of `RecvResponse` and returns its status |
| LookupObject.TableLookup.TimeOut | src/dht/worker/lookup.rs:263-291 | handling a timeout has the effect of `RecvTimeout` |
| LookupObject.TableLookup.Finish | src/dht/worker/lookup.rs:293-348 | finishing attempts the announces in order, going on after a failed send, reports completion or failure and leaves nothing outstanding, as `RecvFinished` says |
| AnnounceStore.RemoveExpiredRefines | src/dht/storage.rs:108-134 | pruning the expired front of the queue prunes exactly the contacts announced 24 hours ago or earlier, and keeps queue and lists in step |
| AnnounceStore.AddRefines | src/dht/storage.rs:30-51 | adding refines setting an announce time: same success, same contacts and times; it fails only for a contact that is not live while 500 others are |
| AnnounceStore.FindRefines | src/dht/storage.rs:61-73 | finding lists every live contact of the hash once and nothing else |
| AnnounceStore.RunRefines | src/dht/storage.rs:30-134 | under a clock that never goes back, after every run queue and lists hold the same contacts once each, no list is empty, at most 500 are stored, and the live ones are those of the announce history |
| AnnounceStore.FindIsExact | src/dht/storage.rs:61-73 | after any run, finding returns exactly the addresses last announced for the hash less than 24 hours ago |
| AnnounceStore.AnnounceStorage.RemoveExpiredItems | src/dht/storage.rs:108-134 | the two loops have the effect of `RemoveExpired` |
| AnnounceStore.AnnounceStorage.AddItem | src/dht/storage.rs:30-51 | the method has the effect of `Add` |
| AnnounceStore.AnnounceStorage.FindItems | src/dht/storage.rs:61-73 | the method has the effect of `Find` |
| TokenStore.CheckinExact | src/dht/token.rs:104-124 | a token is accepted if and only if its address matches and its secret is current and less than 20 minutes old, or last and followed by less than 10 |
| TokenStore.AcceptedForTenMinutes | src/dht/token.rs:98-139 | a token is accepted at every check-in up to ten minutes after its checkout, whatever happens in between and however far apart the two clock readings of each call are |
| TokenStore.AcceptedTwentyMinutesFromRefresh | src/dht/token.rs:98-139 | a token whose checkout refreshed the store, after any idle time, is accepted for twenty minutes from the stamp of that refresh |
| TokenStore.IdleStoreForgets | src/dht/token.rs:118-122 | after two idle intervals no token issued before is accepted and both secrets are new |
| TokenStore.RejectedAfterThirtyMinutes | src/dht/token.rs:98-139 | no token is accepted thirty minutes less a nanosecond after its checkout, plus the largest time a call in between lets pass from its first clock reading to its second |
| TokenStore.AcceptedAlmostThirtyMinutes | src/dht/token.rs:20-24 | for every such gap and every shorter delay a run of a new store accepts a token that late, so the bound is exact and the documented twenty minutes are exceeded |
| TokenStore.RefusedAfterTenMinutes | src/dht/token.rs:110-124 | for every delay above ten minutes a run of a new store refuses the token |
| TokenStore.TokenStoreObject.RefreshCheck | src/dht/token.rs:110-139 | the lazy rotation of both secrets, counting intervals with one clock reading and stamping with a later one, has the effect of `Refresh` |
| TransactionIds.FisherShuffle | src/util/mod.rs:36-48 | the in-place shuffle, which takes values out through defaults, computes `Shuffled` and is a permutation for every random source |
| TransactionIds.EveryOrderArises | src/util/mod.rs:36-48 | every order of the list arises from some random numbers |
| TransactionIds.IssuedDistinct | src/dht/transaction.rs:81-120 | the first ids of a generator, as many as its range holds, are pairwise distinct and in range, whatever the shuffles |
| TransactionIds.IdGenerator.Eager | src/dht/transaction.rs:68-79 | an action id generator starts with its first block shuffled |
| TransactionIds.IdGenerator.Lazy | src/dht/transaction.rs:135-143 | a message id generator starts without a block |
| TransactionIds.IdGenerator.NextBlock | src/dht/transaction.rs:106-120 | the next block follows the last or wraps to the start of the range |
| TransactionIds.IdGenerator.Generate | src/dht/transaction.rs:149-169 | each draw hands out the next id of the history |
| TransactionIds.TransactionGenerator.Generate | src/dht/transaction.rs:149-169 | the n-th transaction id packs the action id with the n-th message id |
| TransactionIds.Unpack | src/dht/transaction.rs:245-275 | action and message id are recovered from every packed id |
| TransactionIds.TransactionIdsDiffer | src/dht/transaction.rs:81-169 | all ids of the first 2^40 actions and the first 2^24 messages of each differ, as numbers and as bytes, and give back their action and message |
| TransactionIds.IdRoundTrip | src/dht/transaction.rs:198-220 | reading the eight bytes of any id gives the id back |
| TransactionIds.BytesRoundTrip | src/dht/transaction.rs:208-220 | any eight bytes are read as an id that writes those bytes |
| TransactionIds.ReadTransactionId | src/dht/transaction.rs:208-220 | the shift-and-or loop computes `FromBytes` |
| UtpPacket.PacketParts | src/utp/packet.rs:375-388 | every accepted packet is its header, its chain of extensions and its payload, and nothing else |
| UtpPacket.AssembledParts | src/utp/packet.rs:456-494 | any header, extensions and payload put together are accepted and come apart again as the same parts |
| UtpPacket.RunCheckExtensions | src/utp/packet.rs:456-494 | the checking loop decides as `CheckExtensions`, with the same error |
| UtpPacket.ErrorsExactly | src/utp/packet.rs:375-388 | which error refused bytes get: too short or an announced extension missing, wrong version, unknown type, wrong extension length |
| UtpPacket.RunPayload | src/utp/packet.rs:269-286 | on an accepted packet the unchecked reads stay in bounds and give the payload |
| UtpPacket.ExtensionIterator.Next | src/utp/packet.rs:431-452 | the iterator hands out the extensions one by one and then nothing, all reads in bounds |
| UtpPacket.SackAppended | src/utp/packet.rs:321-368 | a mask of 4 to 252 bytes becomes one more extension; earlier extensions and payload are unchanged and the packet stays valid |
| UtpPacket.SackExact | src/utp/packet.rs:321-368 | for every mask the assertions let through this holds if and only if it has fewer than 256 bytes |
| UtpPacket.Packet.SetSack | src/utp/packet.rs:321-368 | finding the last marker and inserting byte by byte has the effect of `WithSack` |
| UtpPacket.FieldSet | src/utp/packet.rs:307-315 | setting a 16-bit header field reads back, changes its two bytes and no other, and keeps the packet valid with the same extensions and payload |
| UtpPacket.WideFieldSet | src/utp/packet.rs:287-315 | the same for the 32-bit fields: both timestamps and the window size |
| UtpPacket.TypeSet | src/utp/packet.rs:244-248 | setting the type reads back, keeps the version and every byte after the first |
| UtpPacket.FreshPacket | src/utp/packet.rs:224-242 | a new packet is valid, without extensions, with the given payload |
| UtpSack.InsertKeepsSorted | src/utp/socket.rs:1073-1087 | the incoming buffer stays strictly ascending; a duplicate is dropped, any other packet is added and nothing else changes |
| UtpSack.RunKeepsSorted | src/utp/socket.rs:490-500 | every run of arrivals and removals keeps it so |
| UtpSack.SackBits | src/utp/socket.rs:726-745 | the mask is as long as the highest reported packet demands, in groups of four bytes, and its bits are exactly the reported packets |
| UtpSack.SackTruth | src/utp/socket.rs:726-745 | bit i is set if and only if packet ack+2+i is buffered and compares above ack+1 |
| UtpSack.SackComplete | src/utp/socket.rs:726-745 | the mask reports every buffered packet if and only if none has a number that wrapped to ack+1 or below |
| UtpSack.WrappedIsLost | src/utp/socket.rs:727-729 | a concrete buffer whose wrapped packet is left out |
| UtpSack.SackOnWire | src/utp/socket.rs:904-926 | a reply carries the mask as its last extension, other parts unchanged, if and only if every reported packet is less than 2016 past the first missing one |
| UtpSack.OnesAreSetBits | src/utp/bit_iterator.rs:25-27 | the count of ones is the number of set bits |
| UtpSack.BitIterator.Next | src/utp/bit_iterator.rs:33-42 | each call gives the next bit, least significant first, and None after the last |
| UtpSack.Receiver.InsertIntoBuffer | src/utp/socket.rs:1073-1087 | the method has the effect of `Insert` |
| UtpSack.Receiver.AdvanceIncomingBuffer | src/utp/socket.rs:490-500 | removes the first packet and acknowledges its number |
| UtpSack.Receiver.BuildSelectiveAck | src/utp/socket.rs:726-745 | the nested loops compute `BuildSack` |
| UtpWindow.RunCounts | src/utp/socket.rs:603-610 | in every run, failed sends included, the in-flight counter equals the bytes of the send window if and only if these fit 32 bits, as they do for three million packets; no packet is longer than the largest size |
| UtpWindow.RemovalFits | src/utp/socket.rs:795-798 | while the bytes of the window fit 32 bits the counter does not underflow: every single removal finds at least the length of the packet it takes off |
| UtpWindow.AdditionFits | src/utp/socket.rs:606 | nor does it overflow when a sent packet is added, while the sum fits 32 bits |
| UtpWindow.RunInSequence | src/utp/socket.rs:563-610 | in every run without a failed send, window, packet in hand and queue are numbered one after the other modulo 2^16, ending just before the next number |
| UtpWindow.FailureLeavesHole | src/utp/socket.rs:604-607 | after a failed send this still holds if and only if nothing was in flight |
| UtpWindow.AckRemovesThrough | src/utp/socket.rs:783-801 | with at most 65536 outstanding packets an acknowledgement removes exactly the packet and those before it, and the counter drops by exactly their bytes |
| UtpWindow.StrayAck | src/utp/socket.rs:793-800 | an acknowledgement for anything else changes neither window nor counter |
| UtpWindow.DuplicatesCount | src/utp/socket.rs:978-984 | the duplicate count is the number of equal acknowledgements that came last |
| UtpWindow.ChunksJoin | src/utp/socket.rs:570 | splitting a buffer into packets loses nothing |
| UtpWindow.ChunksFull | src/utp/socket.rs:570 | every packet but the last is full: packet i carries the bytes from 1380 * i on |
| UtpWindow.Conservation | src/utp/socket.rs:563-610 | in every run without a failed send, acknowledged packets followed by outstanding ones carry exactly the bytes written, in order |
| UtpWindow.ConnectionRun | src/utp/socket.rs:563-610 | so in every run of a new connection: the counter is exact while it fits 32 bits, and without a failed send numbers follow each other and acknowledged and outstanding packets carry what was written |
| UtpWindow.SendIsRun | src/utp/socket.rs:603-610 | `send` is a run of these steps, without a failed send exactly when it reports success |
| UtpWindow.AckIsRun | src/utp/socket.rs:975-1063 | handling an acknowledgement, with all that arrive during its resends, nested to any depth, is a run of these steps, so every theorem about runs covers it |
| UtpAcks.AckRemoves | src/utp/socket.rs:975-1063 | however acknowledgements interrupt each other, what leaves the window is exactly what the uninterrupted ones cover |
| UtpAcks.ReportedIsRemoved | src/utp/socket.rs:993-1009 | without resends the bytes reported as newly acknowledged are exactly those that leave the window |
| UtpAcks.ReportedLeavesExactly | src/utp/socket.rs:975-1063 | with resends the reported packets have all left at the end if and only if an uninterrupted acknowledgement covers them |
| UtpAcks.UninterruptedRemoves | src/utp/socket.rs:616-630 | an acknowledgement for the last of fewer than 63520 packets in flight, or one that comes while less than 2800 bytes are in flight, cannot be interrupted, and exactly the packets it reports leave |
| UtpAcks.ReportedButKept | src/utp/socket.rs:1020-1062 | in every window any other acknowledgement for a packet in flight can be interrupted; when an older number arrives during the resend, its packets are reported and the whole window stays |
| UtpAcks.LateCopyKeepsPackets | src/utp/socket.rs:1020-1062 | a run of a new connection where a late copy of the previous acknowledgement does this, with five full packets in flight |
| UtpWindow.SendToAccounts | src/utp/socket.rs:563-587 | on a closed socket `send_to` fails and changes nothing; a success reports the whole length, leaves nothing unsent, and the packets in flight are numbered, counted and carry the buffer; after a failure the counter is still right |
| UtpWindow.UtpSender.AdvanceSendWindow | src/utp/socket.rs:783-801 | the search and the removal loop have the effect of `Advance` |
| UtpWindow.UtpSender.HandleStatePacket | src/utp/socket.rs:975-1063 | notes the acknowledgement, counts the bytes it covers, handles what arrives during resends and then advances, as `HandleAck` says; reports exactly the bytes covered when it came |
| UtpWindow.UtpSender.Send | src/utp/socket.rs:603-610 | the sending loop, with acknowledgements arriving in between, has the effect of `SendAll` |
| UtpWindow.UtpSender.WriteBuffer | src/utp/socket.rs:563-587 | the test for a closed socket, the chunking loop and the send have the effect of `SendTo`, result included |
| DiskAdmission.CounterInRange | src/disk/manager.rs:89-173 | in every reachable state the counter neither overflows nor underflows |
| DiskAdmission.RunInv | src/disk/manager.rs:89-173 | in every interleaving of any number of sinks with the stream, the counter is unread admitted work plus refused probes not undone plus the reply received and not released plus error replies read, and no work is lost |
| DiskAdmission.ChannelInOrder | src/disk/manager.rs:155-173 | in every run what was received followed by what waits is what was there followed by what tasks sent: no message is lost, doubled or overtaken |
| DiskAdmission.CapacityRespected | src/disk/manager.rs:89-173 | from the start, unread admitted work never exceeds the capacity, less the reply being released and less one per error reply read |
| DiskAdmission.ProbeExact | src/disk/manager.rs:89-99 | a probe is admitted if and only if unread work, pending undos, the reply being released and error replies leave room |
| DiskAdmission.RefusedWhileReleasing | src/disk/manager.rs:151-173 | between receiving the only reply and releasing its unit a probe is refused although no work is left |
| DiskAdmission.IdleCapacity | src/disk/manager.rs:151-173 | when everything has come to rest the counter is zero if and only if no reply was an error |
| DiskAdmission.Exhausted | src/disk/manager.rs:160-173 | after as many error replies as the capacity nothing is ever admitted again, in any continuation |
| DiskAdmission.FailuresExhaust | src/disk/tasks/mod.rs:23-54 | for every capacity a single sink reaches that state with failing messages |
| DiskAdmission.DiskManagerSink.TrySubmitWork | src/disk/manager.rs:89-99 | uninterrupted, it admits exactly below the capacity and a refusal leaves no trace |
| TrackerOptions.RunParse | src/utracker/option.rs:127-157 | the parsing loop computes `Parse` |
| TrackerOptions.ParsedExactly | src/utracker/option.rs:127-189 | reading succeeds if and only if the bytes are no-operation bytes and complete chunks, then the end byte and the rest or nothing, and the options map each byte to its chunks joined in order |
| TrackerOptions.IncompleteExactly | src/utracker/option.rs:171-189 | reading is incomplete if and only if such a sequence is cut off inside a chunk |
| TrackerOptions.RunWriteOption | src/utracker/option.rs:64-70 | the chunk loop writes one option, or as much of it as the writer takes, and fails if and only if that is not all |
| TrackerOptions.RunWrite | src/utracker/option.rs:59-79 | in any iteration order, for a writer that fails after any number of bytes: exactly the first bytes of all options and the terminating byte are written, and it reports success if and only if all options fit, with or without the terminating byte |
| TrackerOptions.ParseOption | src/utracker/option.rs:171-189 | the chunks of an option come together again; an empty content leaves no trace |
| TrackerOptions.NoReservedKeys | src/utracker/option.rs:159-168 | the bytes 0 and 1 are never read as options |
| TrackerOptions.RestoredExactly | src/utracker/option.rs:59-189 | for every iteration order, reading what was written restores the map and stops right after it if and only if no option byte is reserved and every content is non-empty |
| TrackerOptions.RestoredWithoutEnd | src/utracker/option.rs:73-76 | the same holds when the terminating byte is left out at the end of a packet |
| TrackerOptions.WrittenRestored | src/utracker/option.rs:59-79 | whenever writing reports success, reading what was written restores the map under exactly that condition |

## Left out

- Error kinds and positions of the bencode decoders: only acceptance, rejection and panic are told apart.
- `Bucket::needs_refresh`, random node ids and the compact node encoding: one-line members.
- The mio event loop, bootstrap, refresh and messenger of the DHT worker: dispatch around the modelled pieces.
- Choosing the nodes a lookup starts from: the first eight Good ones of the closest-nodes iterator are a parameter here, since the claims hold for any.
- Marking nodes as requested in the routing table during a lookup: the table is the subject of its own model.
- Message parsing of the DHT, metainfo, magnet links and the rest of the UDP tracker: field-by-field conversion.
- uTP connection set-up and tear-down, timeouts, retransmission and blocking receive: acknowledgements and failed sends are steps that may happen at any time; what closes a socket is not modelled, only what `send_to` does on a closed one.
- uTP in-order delivery to the reader: the code does not give it, since the acknowledgement number advances on any packet type and pending data is continued without checking the sequence number.
- LEDBAT delay filtering and the congestion window: floating-point formulas whose clamps alone would be easy members.
- A disk task that panics before it replies, and the receiving end of the channel being dropped.
- File systems, handshakes, peer messages and piece selection: input/output plumbing.
- Lookup runs insert with one order of bisection; that insertion keeps the list sorted and distinct is proved for any result the binary search may yield.
- RejectedAfterThirtyMinutes: takes secrets as fresh tags, so it does not cover two random 32-bit secrets that happen to coincide.
