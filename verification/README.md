# A verified model of the GHOSTDAG network simulator

The simulator runs proof-of-work nodes over ns-3. Each node keeps a block DAG coloured by
the GHOSTDAG rule, relays blocks compactly with Graphene (a Bloom filter and an invertible
Bloom lookup table), exchanges messages as frames on byte streams, asks peers for announced
transactions under one shared timer, and keeps a mempool indexed twice. This project models
that logic in Dafny and proves what it promises over all inputs and all runs.

`dafny verify dfyconfig.toml` checks everything.

## How the model is laid out

- **The chain.** `Dags` states the rules: the ancestors of a block, the selected parent, the
  Kahn sort of the merge set, the greedy pass, the score. `TopologicalSorts`, `BlueSets`,
  `Width`, `Orderings` and `Convergence` prove what follows from them. `Growth` shows that a
  new block keeps them. `Blockchains.Blockchain` is the class of `dag.cc` with its own fields
  (indices, bit sets of 64-bit words, tips, children, orphans, flags); a ghost DAG says what
  the fields stand for, and `Indexing` and `ChainTables` carry set facts to index facts.
  `BitSets` refines word vectors to sets. `Runs` feeds whole block sequences to a chain.
- **Graphene.** `Sums` gives the exclusive-or of a set of keys, `Iblts` the table and its
  peeling, `PingPongs` the exchange between two tables, `Blooms` the filter, `Hexes` the text
  in messages, `Graphenes` both protocols from sender to receiver.
- **The stream.** `Frames` describes a frame and a receiver that takes one byte at a time;
  `FrameStreams` has the real receiver, over chunks, and the splitting sender.
- **Transactions.** `TxRequests` is the request and timeout machine, `Mempools` the pool,
  `Miners` and `Mining` the miner's use of pool and tips, `TxIdSets` the set of known ids,
  `Nodes` the coupling of pool, known ids and chain.

A blue score in the code is one more than the number of blue ancestors (`dag.cc:288-289`);
the comment at `tests/ghostdagtest.cc:3` leaves the one out. The model follows the code.

The comment at `tests/ghostdagtest.cc:5` calls every blue set a k-cluster. The loop at
`dag.cc:218-232` bounds only the candidate's own blue anticone, so that is false in general:
`Width.BlueSetsNeedNotBeClusters` gives a DAG, and `Width.ClusterIffGuarded` says for which
blocks it holds, by a check the loop could make before each admission. What the loop does
guarantee for all blocks is in `Width.BlueListing` and the two bounds drawn from it.

When a Graphene recovery response carries transactions, the two tables that ping-pong decodes
(`graphene.cc:715-747`) encode different differences. The model keeps both differences and
says exactly when the fallback gets through (`Graphenes.ProcessRecoveryResponse`): no carried
id was new to the receiver, no key of the difference is stuck in both tables, and the depth
bound is not met, which it cannot be for a difference no larger than either table. The sender
carries only ids that fail a filter of the candidates, so in a whole exchange
(`Graphenes.Recover`) the first condition is that it carries nothing.

Hypotheses are stated where they are used. Block ids handed to a chain are new and a block
names no parent twice, as callers ensure (`node.cc:928-931`, `miner.cc:187-194`). Every
decoding result assumes that no group of two or more keys of the difference that share a cell
looks like one key or like none; the exchanges ask it only of the tables built and of the ids
that pass the filter built. Hashes, checksums, random numbers, free socket space and failed
sends are arbitrary functions. A new chain and the
DAG of `Width.Witness` satisfy the chain invariants, so statements about them are not empty.

## Model

| member | source | states |
|---|---|---|
| BitSets.BitSet.Set | dag.h:211-216 | the set the words stand for gains exactly i, growing the vector when it is short |
| BitSets.BitSet.Reset | dag.h:217-221 | the set loses exactly i, also when i is past the last word |
| BitSets.BitSet.UnionWith | dag.h:222-228 | set union for vectors of any two lengths; the other vector is untouched |
| BitSets.BitSet.Count | dag.h:229-234 | word-wise population counts add up to the cardinality of the set |
| BitSets.BitSet.CountAnd | dag.h:235-241 | the cardinality of the intersection, for vectors of any two lengths |
| BitSets.BitSet.AndNot | dag.h:243-249 | set difference; words missing from the other side count as zero |
| BitSets.BitSet.ForEach | dag.h:251-260 | the clear-lowest-bit loop visits exactly the members, in ascending order |
| BitSets.BitSet.IsEmpty | dag.h:274-279 | true exactly when the set has no member |
| BitSets.PopCountIsCardinality | dag.h:232 | the number of times the lowest bit can be cleared is the number of set bits of the word |
| BitSets.LowestBitFacts | dag.h:254-257 | the position found by counting trailing zeros is set, nothing below is, and w & (w - 1) removes exactly it |
| Dags.PastIsTransitiveClosure | dag.cc:256-262 | x is in the past of b exactly when a walk along parents leads from b to x |
| Dags.PastClosed | dag.cc:256-262 | an ancestor's ancestors are ancestors |
| TopologicalSorts.KahnSorts | dag.cc:162-198 | the sort of any set of accepted blocks emits each exactly once, after all its parents in the set |
| TopologicalSorts.KahnOrder | dag.cc:162-198 | blocks come in the order of their last parent in the set, those without one first, and in ascending id order where that is the same; a last parent comes earlier than its child |
| TopologicalSorts.SortOrderIsUnique | dag.cc:162-198 | that leaves no choice: two listings of a set with parents first and in that order are equal |
| TopologicalSorts.SortStep | dag.cc:184-196 | each turn keeps: emitted or queued are exactly the blocks whose parents in the set have been emitted |
| TopologicalSorts.AncestorsFirst | dag.cc:162-198 | in a convex set, all ancestors of a block inside the set, not just parents, come before it |
| BlueSets.MergeSetConvex | dag.cc:203-216 | the merge set contains every block between two of its members |
| BlueSets.MergeSetIncomparable | dag.cc:203-216 | every member of the merge set is incomparable to the selected parent |
| BlueSets.CandidatesAhead | dag.cc:213-232 | no candidate is an ancestor of a blue admitted before it, nor blue already |
| BlueSets.AnticoneIsUncappedCount | dag.cc:220-229 | the test "C in past(b)" never excludes a blue: the count is that of the blues outside past(C) |
| BlueSets.GreedyDecides | dag.cc:218-232 | a candidate ends blue exactly when at most k of the blues before it are outside its past |
| BlueSets.GreedyPass | dag.cc:211-236 | the same for every position of a block's merge set order |
| BlueSets.BlueSetDirect | dag.cc:211-236 | selected parent and blue set by positions and counts alone: the parent of highest score, lower id on ties; the other ancestors, in the order of their last parent among them and then of their ids, are blue exactly when at most k blues before them are outside their past; nothing else is added but the block |
| BlueSets.MergeOfThree | dag.cc:211-236 | for k = 1, a block over three children of genesis has the blue set {0, 1, 2, 4} |
| BlueSets.BlueWithinPast | dag.cc:211-236 | a block is blue for itself, and otherwise only ancestors are |
| BlueSets.ScoreIsBlueCount | dag.cc:288-289 | the score of a block is the size of its blue set |
| BlueSets.InheritsBlue | dag.cc:211-236 | the selected parent's blue set is contained and the block itself is new in it |
| BlueSets.AncestorScoresLess | dag.cc:270-290 | scores rise strictly along every ancestor relation |
| BlueSets.SelectedParentScoresHighest | dag.cc:270-290 | the selected parent has the highest score of all ancestors, not only of the parents |
| Width.BlueListing | dag.cc:211-236 | every blue set can be listed, each member once, so that each is incomparable to at most k earlier ones |
| Width.BlueAntichainBound | dag.cc:211-236 | pairwise incomparable blues number at most k + 1 |
| Width.BluePairBound | dag.cc:211-236 | a blue set has at most k times its size incomparable pairs |
| Width.SelectedChainIsBlue | dag.cc:270-290 | the chain of selected parents, each step named, stays inside the blue set |
| Width.ZeroKIsSelectedChain | dag.cc:211-236 | with k = 0 the blue set is exactly that chain |
| Width.ClusterPastIsAllBlue | dag.cc:211-236 | if no ancestor is incomparable to more than k others, every ancestor is blue; a linear history is such a case |
| Width.ClusterIffGuarded | dag.cc:218-232 | a blue set and those it inherits are k-clusters exactly when no admission met a blue that already had k incomparable blues |
| Width.BlueSetsNeedNotBeClusters | dag.cc:218-232 | for k = 2, a seven-block DAG in which a blue has three incomparable blues |
| Convergence.ConeDetermines | dag.cc:162-290 | past, blue set, score and selected parent of a block depend on its past cone and k alone, so not on insertion order or later blocks |
| Convergence.AcceptedIsLeastClosed | dag.cc:238-333 | the accepted set is the least one closed under "delivered with all parents accepted" |
| Convergence.SameDeliveredSameState | dag.cc:238-333 | two settled chains that were handed the same blocks agree on accepted blocks, annotations, orphans, children, tips and flags |
| Growth.GrowValid | dag.cc:249-290 | adding a block that obeys the rules keeps them for every block there was |
| Growth.GrowTips | dag.cc:264-268 | dropping the parents from the tips and adding the block leaves exactly the childless blocks |
| Growth.GrowChildren | dag.cc:264-267 | the children table stays the inverse of the parent lists |
| Growth.TipAbove | dag.cc:335-350 | every block has a tip at or above it that scores at least as much |
| Growth.SelectedTipScoresHighest | dag.cc:335-350 | the best tip has the highest score of all accepted blocks |
| Growth.OrphanStep | dag.cc:242-247 | keeping a block aside changes nothing but the orphans |
| Growth.ReadyStays | dag.cc:310-331 | an orphan of the stale ready list is still complete when its turn comes, or is gone already |
| Orderings.GlobalOrderIsUnique | dag.cc:356-392 | "each position holds the best ready block" fixes the whole sequence |
| Orderings.GlobalOrderShows | dag.cc:356-392 | the rule by scores, times and ids: no block whose parents are all placed ranks before the one that is placed next |
| Orderings.AncestorsStandBefore | dag.cc:356-392 | in such a sequence every ancestor comes before its descendants |
| Orderings.ClosedHoldsFuture | dag.cc:110-133 | a set closed under children holds everything whose past has the start |
| ChainTables.NewBluesIsDifference | dag.cc:424-441 | against an earlier snapshot the result is exactly blue now minus blue then |
| ChainTables.CountAnticone | dag.cc:224-229 | the early-stopping count is exact up to k and exceeds k exactly when the anticone does |
| Blockchains.Blockchain.constructor | dag.cc:74-93 | a new chain is consistent and has been delivered genesis only |
| Blockchains.Blockchain.SelectParent | dag.cc:271-279 | the parent with the highest score, lower id on ties |
| Blockchains.Blockchain.SelectTip | dag.cc:335-350 | the tip with the highest score, lower id on ties, in any walk order |
| Blockchains.Blockchain.PastUnion | dag.cc:256-261 | the bit set stands for all ancestors of the new block |
| Blockchains.Blockchain.TopologicalSort | dag.cc:162-198 | the counter and queue code computes the specified sort of the set the bits stand for: each block once, in the order of its last parent, then of its id |
| Blockchains.Blockchain.GreedyBlueSet | dag.cc:211-236 | the bit set code computes the specified blue set |
| Blockchains.Blockchain.Recolour | dag.cc:292-301 | the flags become exactly the blue set of the selected tip |
| Blockchains.Blockchain.AddBlock | dag.cc:238-304 | keeps every invariant, changes no accepted block's annotations, records the delivery, and leaves no completed orphan waiting |
| Blockchains.Blockchain.ProcessOrphans | dag.cc:306-333 | the mutual recursion with AddBlock terminates, loses no block, and ends with every orphan missing a parent |
| Blockchains.Blockchain.GetPast | dag.cc:101-108 | exactly the ancestors, none for an unknown id |
| Blockchains.Blockchain.BlueSet | dag.cc:135-142 | exactly the blue set, none for an unknown id |
| Blockchains.Blockchain.InPast | dag.cc:152-158 | true exactly for accepted pairs in the ancestor relation |
| Blockchains.Blockchain.GetFuture | dag.cc:110-133 | the breadth-first search returns exactly the blocks whose past has the start |
| Blockchains.Blockchain.IsKCluster | dag.cc:394-414 | true exactly when all ids are accepted and each has at most k incomparable ones among them |
| Blockchains.Blockchain.ComputeGHOSTDAGOrdering | dag.cc:356-392 | a permutation of the accepted blocks with, at each position, the best block whose parents are all placed |
| Blockchains.Blockchain.SnapshotBlueFlags | dag.cc:424-429 | the flags in insertion order |
| Blockchains.Blockchain.NewlyBlue | dag.cc:431-441 | the ids, ascending, that are blue and were not flagged in the snapshot |
| Blockchains.Blockchain.BlocksShow | dag.cc:249-290 | the table of blocks, field by field: parents accepted, the score is the size of the blue set, the selected parent is that of the rules |
| Blockchains.Blockchain.LinksShow | dag.cc:264-268 | a tip is exactly an accepted block that no accepted block names as a parent; a child is exactly an accepted block that names it |
| Blockchains.Blockchain.FlagsShow | dag.cc:292-301 | the flags are exactly the blue set of the tip with the highest score, lower id on ties |
| Runs.ArrivalOrderIrrelevant | dag.cc:238-333 | two nodes given the same blocks in any two orders end in the same state |
| Runs.TwoNodesAgree | dag.cc:238-392 | run as code, the two chains have equal state and equal final ordering |
| Runs.RunMergeOfThree | dag.cc:162-333 | run as code, the merge of three children of genesis has that blue set in every order of delivery |
| Sums.SumDifference | thirdparty/iblt.h:460-483 | mixing the sums of two sets gives the sum of their symmetric difference |
| Sums.SumMinus | thirdparty/iblt.h:301-326 | the sum of a set does not depend on the order its keys were mixed in |
| Iblts.RoundUp | thirdparty/iblt.h:271-283 | the loop ends at the least multiple of the hash count that is no smaller |
| Iblts.ToggleCell | thirdparty/iblt.h:314-319 | in every cell, inserting or erasing a key updates the cell to that of the changed difference |
| Iblts.SubtractCell | thirdparty/iblt.h:466-474 | common keys cancel in every cell |
| Iblts.PureCell | thirdparty/iblt.h:245-258 | without collisions a cell is pure exactly when it holds one key, shows that key and its sign, and is empty exactly when it holds none |
| Iblts.PeelStep | thirdparty/iblt.h:407-415 | taking out a key that is alone in a cell loses no key of any stuck subset and leaves one key fewer |
| Iblts.CoreIsLargest | thirdparty/iblt.h:393-427 | the stuck subsets of a difference have a largest one, so what stays unpeeled does not depend on the order of peeling |
| Iblts.FirstSubTableSuffices | thirdparty/iblt.h:421-424 | empty cells in the first sub-table mean that no key at all is left |
| Iblts.AtByHash | thirdparty/iblt.h:306-313 | cell v of sub-table i holds exactly the keys whose hash i is v modulo the sub-table's size |
| Iblts.StuckByHash | thirdparty/iblt.h:393-427 | a set is stuck exactly when no hash value, under any hash, is that of exactly one of its keys |
| Iblts.ApartIsPeeled | thirdparty/iblt.h:393-427 | keys that differ in the first hash value all come out |
| Iblts.TogetherIsStuck | thirdparty/iblt.h:393-427 | two or more keys that agree in every hash value all stay |
| Iblts.CollisionFreeMeans | thirdparty/iblt.h:245-258 | that hypothesis by hash values: no two or more keys with a common value under some hash look like one key or like none |
| Iblts.ApartIsCollisionFree | thirdparty/iblt.h:245-258 | keys that differ in every hash value meet the hypothesis of every decoding result |
| Iblts.Iblt.Toggle | thirdparty/iblt.h:301-326 | on any table, exactly the cells i * (size / numHashes) + hash(i, key) % (size / numHashes) change, the count by the sign and both sums by exclusive or |
| Iblts.ToggledAll | thirdparty/iblt.h:301-326 | a table so changed encodes the difference with the key moved by the sign |
| Iblts.Iblt.Insert | thirdparty/iblt.h:330-332 | on any table the key's cells change by plus one; in a difference where it is not positive, it cancels against a negative one or becomes positive |
| Iblts.Iblt.Erase | thirdparty/iblt.h:334-336 | on any table the key's cells change by minus one; in a difference where it is not negative, it cancels against a positive one or becomes negative |
| Iblts.Iblt.Minus | thirdparty/iblt.h:460-483 | cell by cell on any two tables of one length; for tables of two sets, their signed difference |
| Iblts.Iblt.ListEntries | thirdparty/iblt.h:393-427 | terminates, lists the signed difference except its largest stuck subset, and answers true exactly when that is empty; keys that differ in the first hash value are all listed |
| PingPongs.Exchange | graphene.cc:476-487 | moving what one table listed in both tables keeps their offset |
| PingPongs.ExtraShows | graphene.cc:466-473 | tables that encode different differences are never both empty |
| PingPongs.TryPingPong | graphene.cc:451-493 | for equal differences: in_block and not_in_block gain exactly what came out, success means all of it, a recoverable failure leaves the largest set stuck in both tables, a fatal one comes exactly when the depth bound is met; for different differences: never success |
| PingPongs.SmallIsNotTooDeep | graphene.cc:455-457 | the depth bound is not met by a difference no larger than either table |
| Hexes.PrintedParsesBack | graphene.cc:495-531 | printing bytes and parsing the text gives the bytes |
| Hexes.ParsedPrintsBack | graphene.cc:495-531 | parsing a text and printing gives the text exactly when it has even length and lower-case digits only |
| Hexes.HexDecodeU64 | graphene.cc:73-86 | byte k of the word is the k-th pair of digits, the rest is zero |
| Hexes.WordRoundTrip | graphene.cc:546-576 | a 64-bit word survives printing and parsing |
| Blooms.SaltsUnique | thirdparty/bloom_filter.h:417-483 | count and seed determine all salts, mixed or drawn |
| Blooms.DrawnInWords | thirdparty/bloom_filter.h:464-482 | after n draws the salts are the predefined ones and then every other non-zero number drawn, once each, in the order of the first draws |
| Blooms.BloomFilter.GenerateUniqueSalt | thirdparty/bloom_filter.h:417-483 | up to 128, the loop in place leaves each salt mixed with the one three on, rewritten already where the index wrapped; beyond, the drawn ones follow the predefined |
| Blooms.BloomFilter.DrawSalts | thirdparty/bloom_filter.h:464-482 | the rejection loop ends with the predefined salts followed by every other non-zero number it drew, once each, in the order of the first draws, if the generator has enough |
| Blooms.BloomFilter.Insert | thirdparty/bloom_filter.h:241-253 | exactly the bits at hash % tableSize, one for each salt, are added; every other bit of the table is as it was |
| Blooms.BloomFilter.Test | thirdparty/bloom_filter.h:277-292 | true exactly when for every salt the bit at hash % tableSize is set in the table's bytes |
| Blooms.PassesInBits | thirdparty/bloom_filter.h:277-292 | the same of any table, salts and key |
| Blooms.SetBit | thirdparty/bloom_filter.h:248-250 | setting the bit of a position adds exactly that position to the table |
| Blooms.BloomRoundTrip | graphene.cc:495-531 | the filter rebuilt from its message has the same salts and table and passes the same keys |
| Graphenes.SerializeIblt | graphene.cc:535-561 | the message carries every cell of the table and can be read |
| Graphenes.DeserializeIblt | graphene.cc:563-589 | every cell is the one its entry spells |
| Graphenes.IbltRoundTrip | graphene.cc:535-589 | the table read from a message is the table sent |
| Graphenes.BuildSenderComponents | graphene.cc:213-271 | refuses exactly when more than 16 transactions are surely missing; else exactly the block's positions are set in a filter of the sizes chosen, and a table of the rounded size encodes exactly the block |
| Graphenes.PassingKeeps | graphene.cc:45-55 | the ids that pass a filter include all that went in, and are fixed by sizes, seed and ids |
| Graphenes.FilterInBits | graphene.cc:213-271 | in the filter of a set of ids exactly the bits are set where some id lands under some salt |
| Graphenes.FilterRefuses | thirdparty/bloom_filter.h:277-292 | an id with a salt under which it lands where no id of the filter does under any salt fails the test |
| Graphenes.PassingMeans | graphene.cc:45-55 | the ids that pass are exactly those that land, under every salt, where some id of the filter does |
| Graphenes.BuildCandidateSet | graphene.cc:45-55 | exactly the pool's ids that pass the filter |
| Graphenes.Decode | graphene.cc:281-312 | subtracting, listing and correcting turns any candidate set into the block exactly when nothing stays stuck |
| Graphenes.ReconstructBlock | graphene.cc:275-325 | for every mempool and filter: success exactly when nothing stays stuck and the count fits, and then exactly the sender's ids |
| Graphenes.ProcessIncomingBlock | graphene.cc:595-685 | success is exact and the checksum assertion never fires; a failure keeps the candidates and a table of the difference |
| Graphenes.SecondIblt | graphene.cc:396-414 | the second table encodes the block, and missing has each id the receiver's filter lacks, once |
| Graphenes.ReconstructRecoveryBlock | graphene.cc:416-449 | for every missing list: success exactly when nothing stays stuck, and then exactly the sender's ids |
| Graphenes.ProcessRecoveryResponse | graphene.cc:687-752 | success gives exactly the sender's ids, no checksum check fails, and it comes exactly when the second table decodes alone, or no missing id was new, nothing is stuck in both tables and the depth bound is not met |
| Graphenes.FilterCarried | graphene.cc:595-604 | through the message the candidates are exactly the pool's ids that pass the sender's filter |
| Graphenes.Relay | graphene.cc:213-325 | sender to receiver, for any count the request carried and any mempool at arrival: what arrives is the block, exactly when nothing of its difference to the ids that pass the filter stays stuck in the table built |
| Graphenes.FilterSurvives | graphene.cc:495-531 | the filter that arrives is the filter that was sent |
| Graphenes.Recover | graphene.cc:662-752 | the second exchange from receiver to sender and back: what arrives is the block, exactly when the second table decodes, or nothing was missing and ping-pong decodes |
| Graphenes.Deliver | graphene.cc:595-752 | both exchanges: what arrives is the block, exactly when one of the three ways of decoding gets through |
| Frames.U32RoundTrip | node.cc:127-132 | a prefix field is read as it was written |
| Frames.FrameLayout | node.cc:557-598 | every byte and tag of a frame: magic, length, inline payload length and number least significant byte first, payload, zeros, and a tag on the last byte exactly when the payload does not fit |
| Frames.HeaderDecides | node.cc:440-461 | for any sixteen bytes between frames: the stream is given up exactly when a field is wrong, and otherwise the fields are taken |
| Frames.BodyDelivers | node.cc:463-498 | for any bytes of the rest of a frame: an inline payload is delivered, otherwise the tag of the last byte, otherwise nothing |
| Frames.FeedConcat | node.cc:403-498 | feeding two pieces is feeding their concatenation: chunking does not change the state reached |
| Frames.FeedFinish | node.cc:477-500 | completing a waiting frame early or with the next byte leads to the same state |
| Frames.OneFrame | node.cc:557-598 | a frame is received as its message and leaves the receiver between frames, or waiting for one more byte exactly when it has no padding |
| Frames.StreamRoundTrip | node.cc:403-598 | for every list of messages the receiver gets exactly the non-empty payloads with their sizes, in order; only an unpadded last one may be waiting |
| Frames.ReceivedInWords | node.cc:477-498 | messages with payloads are received one for one, each with its payload and the larger of its size and 17 |
| Frames.AnyPrefixIsFine | node.cc:442-461 | on any prefix of a sent stream the corrupt-stream abort is not reached and a prefix of the messages has been delivered |
| FrameStreams.RxFrameState.TakePrefix | node.cc:431-461 | taking prefix bytes in bulk, with the four checks, equals taking them one at a time |
| FrameStreams.RxFrameState.TakeBody | node.cc:477-515 | padding, tagged last byte and completion equal the byte-wise steps; a delivery stops the application exactly when it is one that stops it |
| FrameStreams.RxFrameState.HandleChunk | node.cc:411-518 | one chunk leads to the state its bytes lead to one at a time, or those taken before the first delivery that stops the application |
| FrameStreams.RxFrameState.HandleRead | node.cc:403-520 | the chunks up to the first empty read lead to the state of their concatenation, or to where the first delivery that stops the application left it; nothing is taken once stopped |
| FrameStreams.FrameSender.EnqueueFrame | node.cc:557-598 | the frame joins the queue as one packet or two; the attempts follow as below; bytes taken followed by bytes queued are the encoding of all frames so far, with tags in place |
| FrameStreams.FrameSender.HandleSendReady | node.cc:602-629 | each attempt but the last finds space and an accepting socket and hands over min(space, packet in front); the last finds an empty queue, no space or a refusal; with space and an accepting socket throughout, everything has been sent; bytes handed and queued stay the encoding of what was enqueued |
| FrameStreams.EndToEnd | node.cc:403-629 | any cutting of any part of what was sent is received as a prefix of the messages, of all of it as all; each with its payload and size |
| FrameStreams.Connection.SendSerialized | node.cc:533-555 | frames enqueued followed by messages waiting are the messages submitted, in order; on a standing connection the message is enqueued at once, and sent if there is space |
| FrameStreams.Connection.HandleConnectionSucceeded | node.cc:1586-1600 | what waited for the connection goes out in the order it was submitted, all of it if there is space |
| TxRequests.TxRequestBook.HandleInvTransactions | node.cc:1272-1307 | asks the announcer for exactly the ids that are unknown and not asked for, once each and in order, queues their deadlines, and adds the announcer once for each announcement of an unknown id |
| TxRequests.TxRequestBook.ArmTxTimeoutTimer | node.cc:1403-1413 | the timer runs exactly when a deadline is queued, and then for the front one, which is the earliest |
| TxRequests.TxRequestBook.Answer | node.cc:1352-1360 | the request goes, the id becomes known, and the answer says whether it was new; all invariants hold |
| TxRequests.TxRequestBook.TimeOutFront | node.cc:1425-1456 | what one due deadline does to the request, the queue and the asks: nothing if stale, an end if nobody is left, otherwise one swap, one ask and one new deadline |
| TxRequests.TxRequestBook.ProcessTxTimeouts | node.cc:1419-1460 | terminates, leaves no overdue deadline; requests not due are untouched; with a timeout above zero, each due request with one announcer goes, and each other restarts, with its front announcer dropped, one of the rest swapped to the front and asked once, and nobody else asked; one that goes while unknown has used every announcement |
| TxRequests.TotalDrops | node.cc:1434-1456 | retrying or giving up lowers the number of announcers left, the measure of the loop |
| TxRequests.StaleEntry | node.cc:1428-1431 | a queued deadline is that of its request or of a transaction received since: a newer request never supersedes one |
| TxRequests.Retry | node.cc:1433-1450 | moving to another announcer keeps the queue sorted, matched and the announcements balanced |
| TxRequests.OneDeadlineEach | node.cc:1289-1292 | each outstanding request has exactly one queued deadline, and it is not overdue |
| TxRequests.RetryBalanced | node.cc:1433-1450 | moving on uses one waiting announcement of the transaction, and no other |
| TxRequests.LaterBalanced | node.cc:1284-1286 | a further announcement waits to be used |
| TxRequests.GiveUpBalanced | node.cc:1452-1456 | giving up keeps announcements and requests balanced |
| TxRequests.GivenUpAfterAll | node.cc:1452-1456 | a transaction neither known nor asked for has been asked of every announcer as often as it was announced |
| Mempools.Mempool.Insert | mempool.cc:277-291 | one new item with the given fields, in its bucket and in the fee index behind the entries of the same fee, linked both ways |
| Mempools.Mempool.Find | mempool.cc:232-252 | valid exactly when an item with that id is in the key's bucket, and then points to one |
| Mempools.Mempool.EraseTransaction | mempool.cc:142-150 | exactly that item leaves both indexes, the others keep their order; an invalid iterator changes nothing |
| Mempools.Mempool.EraseTransactionsAscending | mempool.cc:152-166 | min(size, count) items go, the first entries of the fee index, none dearer than any that stays |
| Mempools.Mempool.GetSortedTransactionDescending | mempool.cc:137-140 | points to the item of the last entry of the fee index, which has the highest fee |
| Mempools.ProbesCover | mempool.cc:88-131 | half the table downwards and upwards from any bucket is all of it |
| Mempools.Mempool.GetRandomTransaction | mempool.cc:85-135 | finds an item exactly when the pool is not empty |
| Mempools.Mempool.EraseRandomTransactions | mempool.cc:168-230 | min(size, count) items go, none when size is negative as an int; the others are untouched |
| Mempools.Mempool.GetAllEntries | mempool.cc:266-275 | every item exactly once, with the node that its id names |
| Mempools.InsertStored | mempool.cc:277-291 | placing the item and its entry keeps buckets, fee order and links |
| Mempools.EraseStored | mempool.cc:142-150 | removing an item and its entry keeps buckets, fee order and links |
| Mempools.SameSize | mempool.h:100-110 | the fee index has as many entries as the table has items |
| Miners.SelectTransactions | miner.cc:236-274 | takes min(limit, size) items; under the rational strategy none cheaper than any left |
| Miners.SelectionPartitions | miner.cc:236-274 | for a pool with distinct ids, block and rest are disjoint, together the pool, and the block has one transaction per item taken |
| Mining.MineBlock | miner.cc:180-206 | the mined block names every tip once, ascending, holds exactly the transactions that left the pool, is accepted at once, has every accepted block as ancestor and outscores them all; on a single tip no other flag changes; a clean pool stays clean exactly when no earlier block that turned blue with it holds a transaction still there |
| Mining.MinedSeesAll | miner.cc:187-194 | a block over all tips has everything in its past |
| Mining.MinedClean | miner.cc:194-206 | mining evicts nothing, so the pool stays clean exactly when there was nothing to evict |
| Mining.OnlyMinedTurnsBlue | miner.cc:187-206 | on a single tip the mined block turns blue and no other does |
| TxIdSets.TxIdSet.Contains | node.h:276-284 | true exactly for ids in the set |
| TxIdSets.TxIdSet.Insert | node.h:285-297 | the set gains exactly that id, through both kinds of growth |
| Nodes.Node.HandleBlock | node.cc:919-1020 | the ids of a new block become known; an item stays, unchanged, exactly if no block that turned blue holds its transaction; a block seen before changes nothing |
| Nodes.Node.HandleTransactions | node.cc:1346-1380 | requests are answered, all ids become known, and exactly the first new ids that there is room for enter, each as one new item with the node its id names and the fee at its first position in the batch, drawn if that is zero; old items are unchanged and the pool stays clean |
| Nodes.NewIdsAreNew | node.cc:1352-1360 | those are the unknown ids of the batch, each once, in the order in which they come first |
| Nodes.Node.HandleInvTransactions | node.cc:1272-1307 | requests are made as above while pool, chain and known ids stay clean |
| Nodes.Node.ProcessTxTimeouts | node.cc:1419-1460 | requests move on as above while pool, chain and known ids stay clean |
| Nodes.Node.GenerateTransaction | node.cc:1484-1500 | an own transaction enters pool and known ids, with its node, id and fee, exactly while there is room, and old items are unchanged; the node stays clean exactly when its id is not in the pool or a blue block already, so always when it is new |
| Nodes.Node.PoolShows | node.cc:919-1020 | between events the pool has distinct known ids, each under the node it names, none in a block that is flagged blue, and every transaction of a delivered block is known |
| Nodes.EvictionKeepsClean | node.cc:1005-1017 | evicting what turned blue leaves distinct, known ids, none in a currently blue block |
| Nodes.NewItemKeepsClean | node.cc:1352-1374 | a new item keeps the pool clean exactly when its id is not in the pool or a blue block; an unknown one is in neither |

## Left out

- ns-3 sockets, scheduler, MPI, JSON and CBOR, logging, metrics: library plumbing. Time is a number, a socket an oracle of free space, a stream a sequence of bytes with optional tags.
- Floating-point sizing (Bloom parameters, symmetric difference and wire-size formulas): results are parameters. The table size passes through a float (`thirdparty/iblt.h:276-277`), exact below 2^24 cells; the model takes the product as given.
- The value part of IBLT cells, `IBLT::get`, table dumps and the compressible Bloom filter: recovery uses keys alone.
- Probabilities of decoding failure and of collisions: the absence of collisions is a hypothesis on the difference at hand.
- Iblts.Iblt.Toggle: the 32-bit wrap-around of a cell's count is not modelled, because a count is bounded by the number of keys in a set.
- Iblts.Iblt.Minus: what the result encodes is stated for tables of two sets, because only those are subtracted; the cells are stated in all cases.
- Graphenes.BuildSenderComponents: sizes are parameters, because floating-point formulas choose them.
- Graphenes.DeserializeIblt: key sums of more than 16 digits are excluded, because the shift is then undefined.
- Blooms.BloomFilter.DrawSalts: that the C library's generator yields enough distinct values for the loop to end is a hypothesis.
- Hexes.HexDecodeU64: texts of more than 16 digits are excluded, because the shift is then undefined.
- Frames.Encode: payloads of 4 GiB and frames of 4 GiB are excluded, because lengths are cast to 32 bits; frame counters do wrap around in the model.
- FrameStreams.RxFrameState.HandleChunk: what a delivered payload makes the node do is not modelled, but for stopping it; a payload that does not parse counts as delivered.
- FrameStreams.RxFrameState.HandleRead: the same.
- Blockchains.Blockchain.AddBlock: reception time, sender, sizes and the shared store of block bodies carry no logic and are not fields of the model; indices are unbounded where the code uses 32 bits. A block already delivered is excluded, because the code would give it a second index; so is one that names a parent twice, because the sort would drop blocks. Callers hand in neither.
- Walks over std::set and std::map whose result does not depend on the order take members in arbitrary order; visits through callbacks are returned as sequences.
- Mempools.Mempool.Insert: list and multimap iterators are handles that are never reused, so dangling iterators are not modelled; a pool with no bucket is excluded, because its random index range would be empty.
- Nodes.Node.HandleTransactions: fees drawn at random are parameters; the batch in which new ids are announced is not modelled.
- Nodes.Node.GenerateTransaction: the same.
- Nodes.Node.HandleBlock: metrics, timers of block announcements and the relay that follows are not modelled. Mining evicts nothing; what that leaves is stated apart.
- The announcement, header and timeout handling of whole blocks, topology and address helpers, and random distributions: a random choice is an arbitrary value in range.
