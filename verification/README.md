# uwebfilter, verified

uwebfilter filters web traffic by domain. The daemon `uwebfilter.d` takes packets from a netfilter queue,
finds the domain a connection is for (in the TLS ClientHello, in the DNS query), asks a server how the
domain is classified, and lets the packet pass, drops it, or answers in place of the site. This project
models the daemon, and the parts of the server and of the domain database that it must agree with, in
Dafny, and proves what they keep. `dafny verify dfyconfig.toml` checks all of it.

The code that changes things in place is modelled in place: classes with fields, arrays and linked nodes,
loops with invariants. Each such class is proved to do, call by call, what a function on plain values
says, and what has to hold over whole runs is proved about that function.

| files | what they model | main results |
|---|---|---|
| `Bits`, `HashNode`, `HashChain`, `HashExpand`, `MergeSort`, `HashSort`, `HashTable` | `uthash.h`: the table with its element list and bucket chains, its doubling, its list merge sort | every operation keeps what HASH_FSCK checks; doubling loses nothing; sorting is a stable sort; lookup agrees with a map |
| `Bytes`, `ClientHello`, `Truncated` | `extract_sni` | the parser inverts every ClientHello encoder and reads nothing outside the record; when a cut record is misread |
| `FlowSpec`, `FlowRuns`, `FlowShape`, `Segments`, `FlowVerdicts`, `TcpFlow` | `tcp443.c`, `tcpflow.c`, the dispatch of `nfqueue.c` | verdict conservation, which verdict every packet is given, the invariant of cached flows, when segmentation does not matter, refinement by the real structures |
| `Kept`, `DomainSpec`, `DomainLaws`, `DomainArena`, `DomainCache` | `domain_lookup.c` | the arena and the table always agree; where a hit comes from; how long an answer is kept |
| `Suffix`, `Policy` | the suffix walks of `config.c` and `domain_lookup.c`, `check.c`, `GetAllSubdomains` | daemon and server enumerate the same candidates; what the lists guarantee |
| `DomainStore`, `Ttl`, `StoreLaws`, `Server`, `Agreement`, `Coherence` | `manage.py`, the server's query, both against the daemon's cache | Redis covers Postgres; times to live converge, in the stores as in the formula; exactly when hits agree with the server, as a test over the stored rows |
| `Checksum`, `Datagram`, `DnsName`, `DnsAnswer`, `DnsReply`, `Udp53` | `block.c`, `udp53.c` | the checksum and its exact bound; names and forged answers round trip; from query to forged answer, as a host receives it |
| `Daemon` | flows and domain cache in one state | conservation over runs of the whole; the verdict is that of the rules on the cache as it was; what a domain not heard of before is judged by |

What the environment contributes is a parameter: the clock, what `rand` returns, whether `calloc` fails,
the bytes behind a packet in memory, the server's reply, the order in which the database returns rows. The
hash function is any function. Sent verdicts are appended to a log.

## What the code does where one might expect otherwise

The model follows the code. In these places that is not what its comments or names suggest, and the
project says exactly when:

- A packet that does not fit its cached flow gets no verdict at all; the flow is settled without it
  (`UnansweredIffRefused`, `NinthIsLost`).
- The flow timestamp is never assigned, so a collection drops every pending connection
  (`FreshUntimed`, `CollectionDropsAll`, `FirstSegmentCollected`).
- A ClientHello that must be dropped, cut into two or more packets, gets through when one of them has less
  than 10 bytes, when there are more than 8, or when it has more than 12000 bytes (`SegmentationExact`,
  `FiveBytesFirst`, `NineSlicesGetThrough`).
- A payload that lacks the last bytes of the record counts as complete, and is judged by another name when
  the cut goes through the name (`NameSurvivesIff`, `OneByteShort`).
- The forged answer overruns its buffer for well-formed names of 228 to 255 bytes (`AnswerFitsIff`,
  `LongNameOverruns`).
- Expanding a hash table does not always bring every chain below the length at which it expands
  (`MultBoundsIff`).
- Two folds are too few for checksums over more than 65538 words (`BoundIsExact`).
- For the root name the DNS decoder decides by the class, not the type (`RootReadsTheClass`).
- When the arena is exhausted the collector, which runs inside insert, is reached only by a call whose
  lookup finds an expired match, and then only if a collection is due at its first insert; without an
  expired match the cache stays as it is (`FullCacheStep`, `FullCacheIsStuck`,
  `FullIsReached`).
- A cache miss leaves the response all zero: the server's answer is cached but not used for the call that
  asked for it (`UnseenIsUnanswered`, `UnseenIsUnknown`). The application is read only if the reply
  has a category (`ApplicationNeedsCategory`).
- An answer is used only under the domains its row lists. A row without cache domains, the default of
  `domain-add`, is never used (`ServedIffListed`, `ClassifiedIffListed`).
- Hits can differ from what the server would say (`AgreementIsTestable`, `OneRowDisagrees`).
- Deleting a domain leaves it in Redis, from which the server answers (`DeletedStays`, `StoresEqual`,
  `DeletedDiffers`).

In `uthash.h` the table record hangs off every element and is found through the head; in the model one
object holds the head pointer and the record. Fields are unbounded integers except where the code relies
on their width: 16-bit offsets in `extract_sni` and 16-bit words in the checksum.

## Model

| member | source | states |
|---|---|---|
| `Bits.MaskIsMod` | uwebfilter.d/source/src/uthash.h:438-441 | masking with `num_bkts - 1`, computed bit by bit, is the remainder modulo the power of two |
| `Bits.CeilByShift` | uwebfilter.d/source/src/uthash.h:936-938 | the shift-and-mask expression for the ideal chain length is the quotient rounded up, for every item count and every power of two |
| `Bits.CeilDivLeast` | uwebfilter.d/source/src/uthash.h:908-921 | the rounded-up quotient is the least chain length that many buckets can hold all items with |
| `HashChain.ToBktDoubled` | uwebfilter.d/source/src/uthash.h:438-441 | with twice as many buckets an item of bucket i goes to bucket i or i + the old number |
| `HashChain.Push` | uwebfilter.d/source/src/uthash.h:861-868 | pushing on a chain keeps all its forward and backward pointers consistent |
| `HashChain.UnchainFrom` | uwebfilter.d/source/src/uthash.h:879-892 | unlinking a node leaves its chain properly linked without it, every other chain as it was, and every other node filed in its bucket |
| `HashChain.Unlist` | uwebfilter.d/source/src/uthash.h:469-479 | unlinking from the application-order list leaves the list without the element, properly linked both ways, with the right head and tail |
| `HashChain.AppendList` | uwebfilter.d/source/src/uthash.h:286-292 | appending links the new element last, both ways |
| `HashChain.PickedPartition` | uwebfilter.d/source/src/uthash.h:923-973 | the two new chains fed by an old one share all its items between them |
| `HashChain.PickedReverses` | uwebfilter.d/source/src/uthash.h:940-960 | and each gets its items in the reverse of their old order |
| `HashExpand.DoubledCount` | uwebfilter.d/source/src/uthash.h:940-960 | doubling the buckets loses and invents no item: the chain lengths still add up to the number of items |
| `HashExpand.DoubledComplete` | uwebfilter.d/source/src/uthash.h:940-960 | every item of an old chain is in the new chain its hash selects |
| `HashExpand.BuildDoubled` | uwebfilter.d/source/src/uthash.h:923-973 | the in-place rehash loop produces exactly the doubled chains over the same nodes, correctly linked, with every bucket's count and expand_mult, and counts the items above the ideal length |
| `HashExpand.MultMeans` | uwebfilter.d/source/src/uthash.h:946-951 | expand_mult of a chain above the ideal length is the number of ideal lengths that cover it, rounded up, or its excess if that is less |
| `HashExpand.MultBoundsIff` | uwebfilter.d/source/src/uthash.h:943-951 | redistributing leaves every possible chain below the length at which adding to it expands the table if and only if the ideal length is less than 10 |
| `HashTable.Table.constructor` | uwebfilter.d/source/src/uthash.h:220-250 | a new table is valid and empty |
| `HashTable.Table.Placed` | uwebfilter.d/source/src/uthash.h:438-441 | every element is in the chain of the bucket that is its hash modulo the number of buckets |
| `HashTable.Table.Find` | uwebfilter.d/source/src/uthash.h:164-181 | returns an element with the key if there is one in the list, null exactly if there is none |
| `HashTable.Table.FindIsLookup` | uwebfilter.d/source/src/uthash.h:835-854 | with distinct keys what Find promises is exactly the lookup in the abstract map |
| `HashTable.ModelAdd` | uwebfilter.d/source/src/uthash.h:404-423 | adding an element with a new key adds exactly its entry to the abstract map |
| `HashTable.ModelDelete` | uwebfilter.d/source/src/uthash.h:458-485 | deleting an element removes exactly its entry from the abstract map |
| `HashTable.ModelSort` | uwebfilter.d/source/src/uthash.h:980-1062 | a permutation of the list, such as sorting makes, leaves the abstract map as it was |
| `HashTable.Table.MakeTable` | uwebfilter.d/source/src/uthash.h:220-250 | 32 empty buckets, all counts zero, expansion not given up |
| `HashTable.Table.AddToBkt` | uwebfilter.d/source/src/uthash.h:857-875 | the item becomes the first of its bucket's chain; all other chains stay; the count goes up by one |
| `HashTable.Table.ExpandIfFull` | uwebfilter.d/source/src/uthash.h:867-869 | the buckets are doubled exactly if this one holds 10 times its multiplier plus one, or more, and expansion is not given up; it is given up when two expansions in a row leave more than half of the items above the ideal length |
| `HashTable.Table.AddToTable` | uwebfilter.d/source/src/uthash.h:857-875 | the item goes in front of the chain of its hash modulo the number of buckets, and the buckets are doubled exactly if that makes this chain too long |
| `HashTable.Table.ExpandBuckets` | uwebfilter.d/source/src/uthash.h:923-973 | doubles num_buckets and raises log2 by one, keeps the node set and the filing of every node, sets ideal_chain_maxlen to the quotient rounded up, nonideal_items to the sum of the excesses over it, every expand_mult, and decides ineff_expands and noexpand |
| `HashTable.Table.Add` | uwebfilter.d/source/src/uthash.h:404-423 | keeps the invariant (what HASH_FSCK checks, and that list and chains hold the same nodes) and appends the element to the list; makes 32 buckets for the first element and doubles them exactly if the element makes its chain too long; keeps the bound on chain lengths unless the call expands a table whose even spread makes chains of 10 or more |
| `HashTable.Table.DelInBkt` | uwebfilter.d/source/src/uthash.h:879-892 | takes the node out of its bucket; counts and filing of the rest stay right |
| `HashTable.Table.Delete` | uwebfilter.d/source/src/uthash.h:458-485 | keeps the invariant and the bound on chain lengths, and removes exactly that element, the last one included |
| `HashTable.Table.ListWalk` | uwebfilter.d/source/src/uthash.h:1150-1152 | what iteration relies on: head and next run through the elements in order, none twice |
| `HashTable.Table.Fsck` | uwebfilter.d/source/src/uthash.h:521-570 | the table's own debug check, run on any valid table, finds nothing wrong |
| `HashTable.Table.FsckChain` | uwebfilter.d/source/src/uthash.h:528-548 | walking a chain finds all back pointers right and as many items as the bucket counts |
| `HashTable.Table.FsckList` | uwebfilter.d/source/src/uthash.h:553-566 | walking the list finds all back pointers right and num_items elements |
| `MergeSort.SortIsStableSort` | uwebfilter.d/source/src/uthash.h:980-1062 | the bottom-up merge sort, passes of doubling width until one merge is left, sorts and keeps equal elements in order, for every total preorder |
| `MergeSort.SortElements` | uwebfilter.d/source/src/uthash.h:980-1062 | it returns a permutation whatever the comparison is |
| `MergeSort.MergeSorted` | uwebfilter.d/source/src/uthash.h:1007-1047 | merging two sorted runs gives a sorted run |
| `MergeSort.MergeTies` | uwebfilter.d/source/src/uthash.h:1007-1047 | and keeps equal elements in order, those of the first run first |
| `HashSort.MergeRuns` | uwebfilter.d/source/src/uthash.h:1007-1047 | the pointer loop that relinks two runs in place emits their merge |
| `HashSort.SortPass` | uwebfilter.d/source/src/uthash.h:990-1052 | one pass of the pointer program is one pass of the merge sort, leaves a properly linked list and counts its merges |
| `HashSort.SortList` | uwebfilter.d/source/src/uthash.h:985-1060 | the loop over passes terminates with the sorted list, its head and its tail |
| `HashTable.Table.Sort` | uwebfilter.d/source/src/uthash.h:980-1062 | sorting any table leaves the invariant and a permutation of the list, in the order of the comparison and stable if that is a total preorder; no chain pointer, bucket or key is touched |
| `ClientHello.FindExtensions` | uwebfilter.d/source/src/tcp443.c:138-191 | finds the bounds of the extensions or rejects, with every 16-bit addition truncated as in the code |
| `ClientHello.ScanExtensions` | uwebfilter.d/source/src/tcp443.c:194-221 | the loop over extensions copies the name of the first server_name extension among the first 50, or leaves the buffer alone |
| `ClientHello.ExtractSni` | uwebfilter.d/source/src/tcp443.c:131-222 | returns true exactly when the parser function finds a name, and writes it over the front of the buffer and nothing else |
| `ClientHello.ScannedIff` | uwebfilter.d/source/src/tcp443.c:138-191 | exactly which payloads have their extensions scanned, with the 16-bit sums written out |
| `ClientHello.ReachesExtensions` | uwebfilter.d/source/src/tcp443.c:157-191 | on every encoded ClientHello the offsets step exactly over session id, ciphers and compression; no 16-bit offset wraps |
| `ClientHello.NameInExtensions` | uwebfilter.d/source/src/tcp443.c:194-221 | on encoded extensions the loop finds the first server name the encoder put among the first n |
| `ClientHello.SniRoundTrip` | uwebfilter.d/source/src/tcp443.c:131-222 | for every ClientHello in one record the name found is the first min(length, 256) bytes of the first host name among the first 50 extensions, whatever bytes lie outside the record |
| `ClientHello.ReadsInBounds` | uwebfilter.d/source/src/tcp443.c:131-222 | and every byte that is read or copied on the way lies inside the record; how far the code reads is computed beside every load |
| `Truncated.NameSurvives` | uwebfilter.d/source/src/tcp443.c:89-93 | of a payload that lacks up to 5 bytes of the record, which the code takes for complete, the same name is found whatever follows it in memory if nothing past its end is read |
| `Truncated.NameSurvivesIff` | uwebfilter.d/source/src/tcp443.c:150-155 | for a ClientHello with a name: if and only if that name, as far as it is copied, ends before the cut |
| `Truncated.OneByteShort` | uwebfilter.d/source/src/tcp443.c:150-155 | an input on the other side: the record of a 90-byte ClientHello without its last byte |
| `ClientHello.FirstNameExists` | uwebfilter.d/source/src/tcp443.c:193-221 | there is a name to find exactly if one of the first 50 extensions is a server_name |
| `ClientHello.NameFoundIff` | uwebfilter.d/source/src/tcp443.c:193-221 | of an encoded ClientHello a name is found if and only if one of the first 50 extensions is a server name; it is the first of them, of which at most 256 bytes are taken |
| `ClientHello.NameInBytes` | uwebfilter.d/source/src/tcp443.c:131-222 | an input in plain bytes: the 63 bytes of a record and the two of its name |
| `TcpFlow.Record.constructor` | uwebfilter.d/source/src/tcpflow.c:59-75 | a new record is all zero but for the expected length |
| `TcpFlow.Record.AppendPacket` | uwebfilter.d/source/src/tcpflow.c:84-108 | refuses exactly when 8 packets are held or the buffer would overflow; otherwise appends bytes and id |
| `TcpFlow.Cache.SetVerdict` | uwebfilter.d/source/src/tcpflow.c:116-123 | sends the verdict for every held packet, in order |
| `TcpFlow.Cache.SetVerdictAndFree` | uwebfilter.d/source/src/tcpflow.c:125-131 | removes exactly that flow and answers its packets |
| `TcpFlow.Cache.Sweep` | uwebfilter.d/source/src/tcpflow.c:37-43 | deleting while iterating: every flow is visited once, the stale ones are dropped and answered, the others stay in order and findable |
| `TcpFlow.Cache.RunGc` | uwebfilter.d/source/src/tcpflow.c:32-45 | does to the cache, the clock and the log what the abstract collection does |
| `FlowShape.FreshExact` | uwebfilter.d/source/src/tcpflow.c:37-43 | what a collection leaves is the flows at exactly the positions whose timestamp is at least now - 5, in order |
| `TcpFlow.Cache.Lookup` | uwebfilter.d/source/src/tcpflow.c:18-24 | finds the flow of the key, or nothing if there is none |
| `TcpFlow.Cache.InsertFlow` | uwebfilter.d/source/src/tcpflow.c:47-57 | adds the flow, then collects if the last collection is over a minute ago |
| `TcpFlow.Cache.JudgePayload` | uwebfilter.d/source/src/tcp443.c:62-70 | Accept unless a server name is found and check_access drops it |
| `TcpFlow.Cache.ContinueFlow` | uwebfilter.d/source/src/tcp443.c:50-81 | a packet of a cached flow: append, settle when refused or complete |
| `TcpFlow.Cache.StartFlow` | uwebfilter.d/source/src/tcp443.c:111-123 | the first packet of a flow |
| `TcpFlow.Cache.Handle` | uwebfilter.d/source/src/tcp443.c:27-124 | the handler on the real buffers, table and log does exactly one step of the verdict machine and keeps the invariant of the structures |
| `TcpFlow.Cache.Dispatch` | uwebfilter.d/source/src/nfqueue.c:45-96 | so does the dispatch of any packet |
| `FlowRuns.StepAccounted` | uwebfilter.d/source/src/tcp443.c:27-124 | one packet adds exactly one to how often its id is answered, held or lost, and nothing to any other id |
| `FlowRuns.Conservation` | uwebfilter.d/source/src/tcp443.c:27-124 | over every run an id is answered, held and lost together exactly as often as it was received |
| `FlowRuns.ExactlyOnePlace` | uwebfilter.d/source/src/nfqueue.c:45-96 | with distinct ids every received packet is in exactly one place, answered once, held in one flow, or lost; none is answered twice |
| `FlowRuns.LostIffRefused` | uwebfilter.d/source/src/tcp443.c:51-58 | a packet is lost exactly if its cached flow had no room for it when it came |
| `FlowRuns.UnansweredIffRefused` | uwebfilter.d/source/src/tcp443.c:51-58 | every packet is answered once or held, except exactly the refused ones, which are neither, ever |
| `FlowRuns.NinthIsLost` | uwebfilter.d/source/src/tcp443.c:51-58 | an input that shows it: the ninth small packet of one connection gets no verdict |
| `FlowShape.StepKeepsInv` | uwebfilter.d/source/src/tcp443.c:27-124 | every packet keeps: unique keys, 1 to 8 ids, fewer bytes than expected, at most 12000 expected, and a buffer that still starts with the ClientHello's bytes and length |
| `FlowShape.ReachableFlowsOk` | uwebfilter.d/source/src/tcpflow.c:59-114 | this holds in every reachable state |
| `FlowShape.BufferIsHeldSegments` | uwebfilter.d/source/src/tcpflow.c:84-108 | in every run with distinct ids a flow's buffer is the concatenation of its held packets' payloads in order of arrival |
| `FlowShape.FirstAppendNeverRefused` | uwebfilter.d/source/src/tcp443.c:106-121 | the append to a flow just created is never refused |
| `FlowShape.CompletionPassesChecks` | uwebfilter.d/source/src/tcp443.c:138-155 | when a flow is complete the checks extract_sni starts with all pass |
| `FlowShape.FlowLeavesInTime` | uwebfilter.d/source/src/tcpflow.c:92-99 | a flow that holds n packets in a reachable state is gone by the time 9 - n more data packets of its connection have come, whatever else happens: each of its packets has been answered exactly once and is held nowhere |
| `FlowShape.FreshUntimed` | uwebfilter.d/source/src/tcpflow.c:39 | `timestamp` is never assigned: once the clock is past 5 a collection leaves nothing |
| `FlowShape.CollectionDropsAll` | uwebfilter.d/source/src/tcpflow.c:32-57 | a collection in any reachable state drops every pending packet of every connection, those of the flow just inserted included |
| `FlowShape.FirstSegmentCollected` | uwebfilter.d/source/src/tcpflow.c:47-57 | an input that shows it: the first segment of a ClientHello, at time 61, is dropped as it arrives |
| `Segments.WholeRecord` | uwebfilter.d/source/src/tcp443.c:83-104 | a record in one packet is answered at once, with the verdict on its first server name |
| `Segments.SegmentationIndependent` | uwebfilter.d/source/src/tcp443.c:43-124 | in every run with distinct ids and no collection meanwhile, mixed with any other traffic, each of two or more packets that carry a record gets exactly one verdict, that of the whole record, be it Accept or Drop, if each has at least 10 bytes, there are at most 8 and the record has at most 12000 bytes |
| `Segments.SegmentationExact` | uwebfilter.d/source/src/tcp443.c:38-124 | for a ClientHello that must be dropped, cut into any two or more packets, every one gets the one verdict Drop if and only if each has at least 10 bytes, there are at most 8, and the record has at most 12000 bytes |
| `Segments.NineSlicesGetThrough` | uwebfilter.d/source/src/tcp443.c:51-58 | an input on the other side: a 90-byte ClientHello that is dropped in one packet has its first packet accepted when cut into nine |
| `Segments.FiveBytesFirst` | uwebfilter.d/source/src/tcp443.c:38-41 | another: five bytes of it, then the rest, and both packets are accepted at once |
| `FlowVerdicts.PlainVerdict` | uwebfilter.d/source/src/nfqueue.c:66-95 | in every run with distinct ids a packet of the other handlers has exactly one verdict, the one its handler sends |
| `FlowVerdicts.ShortVerdict` | uwebfilter.d/source/src/tcp443.c:38-41 | a packet of less than 10 bytes has exactly the verdict Accept |
| `FlowVerdicts.NoHelloVerdict` | uwebfilter.d/source/src/tcp443.c:83-87 | so has a data packet of no cached flow whose byte 0 is not 0x16 or whose byte 5 is not 0x01 |
| `FlowVerdicts.CompleteVerdict` | uwebfilter.d/source/src/tcp443.c:89-104 | one that covers the length in its bytes 3 and 4 has exactly the verdict on the name in it, Accept if there is none |
| `FlowVerdicts.UnheldVerdict` | uwebfilter.d/source/src/tcp443.c:106-115 | one that does not is accepted if the record is longer than 12000 bytes or memory is short |
| `FlowVerdicts.HeldFirst` | uwebfilter.d/source/src/tcp443.c:111-124 | and held otherwise, in a flow that expects that length; a collection is made at once if the last is more than 60 seconds ago, and not otherwise |
| `FlowVerdicts.RefusedVerdict` | uwebfilter.d/source/src/tcp443.c:51-58 | when a packet finds 8 packets in its flow, or more than 12000 bytes with its own, each packet held has exactly the verdict Accept |
| `FlowVerdicts.CompletedVerdict` | uwebfilter.d/source/src/tcp443.c:61-78 | when it completes the record, each packet held, and it, has exactly the verdict on the name in the joined payloads |
| `FlowVerdicts.HeldOn` | uwebfilter.d/source/src/tcpflow.c:84-108 | otherwise its bytes and id are added to the flow and nothing is sent |
| `FlowVerdicts.CollectionInterval` | uwebfilter.d/source/src/tcpflow.c:47-57 | no packet has a collection made within 60 seconds of the last one |
| `FlowVerdicts.CollectedVerdict` | uwebfilter.d/source/src/tcpflow.c:32-57 | when one is made, at a time after 5, every packet held has exactly the verdict Drop, the one just come included |
| `DomainArena.Arena.constructor` | uwebfilter.d/source/src/domain_lookup.c:137-149 | all slots are free, each on the stack once |
| `DomainArena.Arena.Allocate` | uwebfilter.d/source/src/domain_lookup.c:151-166 | hands out a slot that is not live, unless all are; its assertion holds |
| `DomainArena.Arena.Deallocate` | uwebfilter.d/source/src/domain_lookup.c:168-176 | gives back a slot that was live; both assertions hold; free and live slots stay a partition of the arena and index counts the live ones |
| `DomainCache.Cache.Unfile` | uwebfilter.d/source/src/domain_lookup.c:220-227 | takes the entry out of the table; its slot stays live |
| `DomainCache.Cache.Evict` | uwebfilter.d/source/src/domain_lookup.c:280-281 | removes exactly that entry and frees its slot |
| `DomainCache.Cache.Sweep` | uwebfilter.d/source/src/domain_lookup.c:242-248 | the collector inside insert, deleting while iterating with a new entry allocated but not yet in the table: exactly the doomed entries go, arena and table agree throughout |
| `DomainSpec.SurvivorsExact` | uwebfilter.d/source/src/domain_lookup.c:242-248 | what it leaves is the entries at exactly the positions with an expire of now or later and a roll that is not 0, in order |
| `DomainCache.Cache.Insert` | uwebfilter.d/source/src/domain_lookup.c:229-256 | collects if due, then appends the entry |
| `DomainCache.Cache.StoreEntry` | uwebfilter.d/source/src/domain_lookup.c:107-127 | creates and inserts an entry; when the arena is exhausted nothing changes |
| `DomainCache.Cache.Lookup` | uwebfilter.d/source/src/domain_lookup.c:195-218 | finds an entry for the longest cached candidate, or none exactly if no candidate is cached |
| `DomainCache.Cache.StoreNamed` | uwebfilter.d/source/src/domain_lookup.c:345-373 | caches the answer under each domain the server named, skipping the missing ones |
| `DomainCache.Cache.DomainLookup` | uwebfilter.d/source/src/domain_lookup.c:259-387 | the whole call on arena, table and clock does one step of the abstract cache and returns its response; arena and table agree before and after every call |
| `DomainSpec.CachedWereStored` | uwebfilter.d/source/src/domain_lookup.c:299-386 | in every run every cached entry was stored by an earlier call, from its reply or the failure default |
| `DomainSpec.HitProvenance` | uwebfilter.d/source/src/domain_lookup.c:259-283 | a hit returns what an earlier call stored less than its ttl ago, under the longest dot-suffix of the query that is cached at all |
| `DomainLaws.CollectionInterval` | uwebfilter.d/source/src/domain_lookup.c:232-251 | no collection is made within 300 seconds of the last one |
| `DomainLaws.MatchRemoved` | uwebfilter.d/source/src/domain_lookup.c:273-283 | an expired match, and it alone, is removed before the reply is stored |
| `DomainLaws.SparedByRun` | uwebfilter.d/source/src/domain_lookup.c:242-283 | over every run: an entry that has not expired and is never rolled 0 stays, whatever is asked, stored or collected meanwhile |
| `DomainLaws.StillServed` | uwebfilter.d/source/src/domain_lookup.c:273-283 | and a query whose longest cached suffix is that entry alone is still answered from it |
| `DomainLaws.ReplyIsKept` | uwebfilter.d/source/src/domain_lookup.c:309-386 | once a call on a cache with room and no entry for its domain has stored a reply with a ttl other than 0 and no list of domains, that domain is answered from it at every time before now + ttl, and as unknown later |
| `DomainLaws.MissingIsZero` | uwebfilter.d/source/src/domain_lookup.c:323-335 | a category or application the reply lacks is kept as 0; without a category so is the application |
| `DomainLaws.ZeroTtlIsKept` | uwebfilter.d/source/src/domain_lookup.c:309-343 | with a ttl of 0 that is 60 seconds |
| `DomainLaws.NoTtlIsNotKept` | uwebfilter.d/source/src/domain_lookup.c:309-343 | without a ttl it is never answered from |
| `DomainLaws.FailureIsKept` | uwebfilter.d/source/src/domain_lookup.c:299-306 | a failed request is kept as unknown for 60 seconds |
| `DomainLaws.ListedAreStored` | uwebfilter.d/source/src/domain_lookup.c:345-373 | a reply that lists domains is stored under each of them, with its category, application and ttl |
| `DomainSpec.RunBounded` | uwebfilter.d/source/src/domain_lookup.c:151-166 | the cache never outgrows the arena |
| `DomainSpec.FullCacheStep` | uwebfilter.d/source/src/domain_lookup.c:229-283 | a call on a full cache without an expired match changes nothing; the collector runs in a call on a full cache if and only if the lookup found an expired match, the reply is stored at all, and a collection is due at its first insert |
| `DomainSpec.FullCacheIsStuck` | uwebfilter.d/source/src/domain_lookup.c:151-158 | over runs: a cache that has become full stays as it is for ever if no lookup finds an expired match |
| `Coherence.FullIsReached` | uwebfilter.d/source/src/domain_lookup.c:151-158 | a full cache is reached, by one reply that names 65536 domains, and then a collection that is due, with every entry expired, is not run |
| `DomainSpec.UnseenIsUnanswered` | uwebfilter.d/source/src/domain_lookup.c:285-387 | a call gets the all-zero response unless an earlier call stored an answer under a dot-suffix of its domain |
| `DomainSpec.ApplicationNeedsCategory` | uwebfilter.d/source/src/domain_lookup.c:327-335 | without a category in the reply, the application in it changes neither the response nor anything the call stores |
| `Suffix.CandidatesAreDotSuffixes` | uwebfilter.d/source/src/domain_lookup.c:203-215 | the candidates of a walk are exactly the domain and what follows each of its dots, an empty tail included |
| `Suffix.TailsShrink` | uwebfilter.d/source/src/domain_lookup.c:203-215 | they come longest first |
| `Suffix.SplitTails` | uwebfilter.server/pkg/utils/domain.go:7-16 | joining the tails of the split domain gives the same candidates, as many and in the same order |
| `Suffix.JoinSplit` | uwebfilter.server/pkg/utils/domain.go:8-12 | joining what Split cut gives the domain back |
| `Suffix.GetAllSubdomains` | uwebfilter.server/pkg/utils/domain.go:7-16 | the server enumerates exactly the candidates of the daemon's walks |
| `Policy.ListCovers` | uwebfilter.d/source/src/config.c:442-463 | true exactly if the domain or one of its dot-suffixes is listed |
| `Policy.Config.IsApplicationBlocked` | uwebfilter.d/source/src/config.c:425-439 | true exactly if the application is in the configured array, false if there is none |
| `Policy.Config.IsCategoryBlocked` | uwebfilter.d/source/src/config.c:406-420 | true exactly if the category is in the configured array, false if there is none |
| `Policy.Config.IsDomainBlacklisted` | uwebfilter.d/source/src/config.c:467-471 | true exactly if the blacklist covers the domain |
| `Policy.Config.IsDomainWhitelisted` | uwebfilter.d/source/src/config.c:475-479 | true exactly if the whitelist covers the domain |
| `Policy.Log.Grounds` | uwebfilter.d/source/src/check.c:36-58 | accept if and only if nothing blocks the domain or the whitelist covers it, with the reason that applies |
| `Policy.Log.Decide` | uwebfilter.d/source/src/check.c:33-66 | the log record gets category, application, reason and action of that verdict |
| `Policy.Log.CheckAccess` | uwebfilter.d/source/src/check.c:11-67 | looks the domain up in the cache and decides on the response; the cache makes one step |
| `Policy.ReasonIsUnique` | uwebfilter.d/source/src/check.c:36-58 | exactly one of the five reasons applies, and it tells the verdict |
| `Policy.DropIff` | uwebfilter.d/source/src/check.c:36-66 | the verdict is Drop exactly if the application or category is blocked or a dot-suffix of the domain is in the blacklist, and no dot-suffix of it is in the whitelist |
| `Policy.ReasonOrder` | uwebfilter.d/source/src/check.c:36-58 | the reason written out: none if nothing blocks, else whitelist if a suffix is whitelisted, else application, category, blacklist, the first that applies |
| `Policy.WhitelistAccepts` | uwebfilter.d/source/src/check.c:53-58 | whitelisting d accepts d and every x.d, whatever else is blocked |
| `Policy.BlacklistDrops` | uwebfilter.d/source/src/check.c:44-58 | blacklisting d drops every x.d that has no whitelisted suffix |
| `Policy.StricterRules` | uwebfilter.d/source/src/check.c:36-66 | blocking more and whitelisting less never lets more through |
| `Server.GetDomainInfo` | uwebfilter.server/pkg/model/domain.go:17-35 | returns the first answer that is not nil, none if Redis cannot be reached |
| `Server.FirstIsLongest` | uwebfilter.server/pkg/model/domain.go:17-35 | that is the value of the longest stored suffix; nothing exactly if no suffix is stored |
| `Server.Query` | uwebfilter.server/pkg/controller/query.go:28-44 | the reply as the daemon reads it; nil becomes all zero, an empty domain an error |
| `Server.ReplyIsRow` | uwebfilter.server/pkg/controller/query.go:28-44 | the reply has category, application, ttl and domains of the row of the longest stored suffix; a row with a negative ttl is answered as if there were none |
| `Server.ReplyWithoutRow` | uwebfilter.server/pkg/controller/query.go:28-44 | without a stored suffix the reply is all zero and names no domains |
| `Agreement.AgreementIsCoherence` | uwebfilter.d/source/src/domain_lookup.c:273-283 | for any content of Redis: the daemon's hits agree with what the server would answer, in every run, if and only if everything below a domain an answer is cached under has that answer |
| `Agreement.UncoveredParentBreaks` | uwebfilter.d/source/src/domain_lookup.c:374-386 | a stored domain with a parent that has no stored suffix breaks this |
| `Coherence.CoherentIffRows` | uwebfilter.server/pkg/model/domain.go:17-35 | that condition holds if and only if the stored rows pass a test: what a row lists, and every stored domain below that, has the row's answer; every parent of a domain with an answer has one; no domain with an answer ends in a dot |
| `Coherence.AgreementIsTestable` | uwebfilter.d/source/src/domain_lookup.c:273-283 | so hits agree with the server in every run if and only if the rows pass the test |
| `Coherence.OneRowDisagrees` | uwebfilter.d/source/src/domain_lookup.c:374-386 | an input that fails it: one row for a.b, asked for b and then for a.b, answers the second call unknown |
| `Coherence.OneLabelAgrees` | uwebfilter.d/source/src/domain_lookup.c:345-373 | and one that passes: a single label cached under itself |
| `Coherence.ServedIffListed` | uwebfilter.d/source/src/domain_lookup.c:345-373 | a domain is answered from the cache of some run with a given answer, other than unknown, if and only if some row has that answer and lists a suffix of the domain |
| `Coherence.ClassifiedIffListed` | uwebfilter.d/source/src/domain_lookup.c:345-373 | the cache ever answers anything other than unknown if and only if some row has such an answer and a list of cache domains that is not empty |
| `DomainStore.Database.DomainAdd` | uwebfilter.database/manage.py:94-123 | adds the row to both stores, or to neither if a constraint of the table refuses it |
| `DomainStore.Database.DomainDel` | uwebfilter.database/manage.py:126-138 | deletes from Postgres and leaves Redis alone |
| `DomainStore.Database.SetRows` | uwebfilter.database/manage.py:77-86 | the loop sets every fetched row in Redis and nothing else |
| `DomainStore.Database.DumpToRedis` | uwebfilter.database/manage.py:162-181 | Redis then holds every row of Postgres, in whatever order the rows came |
| `DomainStore.Database.RaiseTtls` | uwebfilter.database/manage.py:46-70 | every queried row grows by its increase, and exactly those that grew are listed as updated |
| `DomainStore.Database.TtlsUpdate` | uwebfilter.database/manage.py:29-89 | one step of the stores: raises the ttls in Postgres and copies exactly the changed rows to Redis |
| `DomainStore.RunCovers` | uwebfilter.database/manage.py:29-181 | in every run from empty stores every row of Postgres is in Redis with the same value, and every ttl is positive |
| `DomainStore.RedisRemembers` | uwebfilter.database/manage.py:94-138 | read off the commands: Postgres holds exactly the domains added and not deleted since, Redis exactly those ever added |
| `DomainStore.StoresEqual` | uwebfilter.database/manage.py:126-138 | the stores are equal if and only if every deletion of a domain added before is followed by a command that adds it again |
| `DomainStore.EqualWithoutDelete` | uwebfilter.database/manage.py:29-123 | in particular in every run without a deletion |
| `DomainStore.DeletedDiffers` | uwebfilter.database/manage.py:126-138 | an input on which they differ: add a domain, delete it |
| `DomainStore.NoEmptyKey` | uwebfilter.database/postgres/init.sql:21-28 | no run puts the empty domain into Redis |
| `DomainStore.DeletedStays` | uwebfilter.database/manage.py:126-138 | a deleted domain stays in Redis unchanged through every run that does not add it again |
| `DomainStore.TtlsStayBounded` | uwebfilter.database/manage.py:48-70 | if rows are added with 60 to 2940 seconds and clients ask at most once per ttl, no ttl ever exceeds 2940 |
| `StoreLaws.AddWrites` | uwebfilter.database/manage.py:94-123 | a new domain with a ttl above 0 and known references goes into both stores with its row and nothing else changes; any other row changes nothing |
| `StoreLaws.DeleteForgets` | uwebfilter.database/manage.py:126-138 | Postgres loses the domain alone, Redis nothing |
| `StoreLaws.UpdateRaises` | uwebfilter.database/manage.py:61-89 | with clients every row gains 60 * (count / (30 * clients)) seconds and keeps its other fields; Redis gets the rows that changed |
| `StoreLaws.DumpCopies` | uwebfilter.database/manage.py:162-181 | for any two stores: afterwards Redis has every row of Postgres with its value, and what else it had |
| `StoreLaws.RowAfter` | uwebfilter.database/manage.py:48-70 | over every run that does not delete it a row keeps its answer, and its ttl is what the daily growth of `Ttl` makes of it |
| `StoreLaws.StoreConverges` | uwebfilter.database/manage.py:48-70 | so in the store too a domain added with 300 seconds grows on at most 44 days and never exceeds 2940, if no client asks again before its answer expires |
| `StoreLaws.SlowestInStore` | uwebfilter.database/manage.py:48-70 | and it does grow on 44, in both stores |
| `StoreLaws.CommentedDays` | uwebfilter.database/manage.py:53-60 | the days worked out in the comment: 300, 840, 1020, 1140 seconds |
| `Ttl.IncreaseBound` | uwebfilter.database/manage.py:61-62 | if each of any number of clients asks at most once per ttl, the increase is at most 60 times floor(2880 / ttl) |
| `Ttl.StaysUnderCap` | uwebfilter.database/manage.py:61-67 | a ttl of 60 to 2940 stays within 2940, and one above 2880 does not grow |
| `Ttl.Converges` | uwebfilter.database/manage.py:48-70 | started at 300 the ttl grows on at most 44 days, however many days pass |
| `Ttl.SlowestGrowth` | uwebfilter.database/manage.py:48-70 | and 44 days of growth do occur: the bound is exact |
| `Checksum.Checksum` | uwebfilter.d/source/src/block.c:16-31 | the loop computes the two folds of the word sum, a last odd byte included; for up to 65538 words that is the complement of the one's-complement sum |
| `Checksum.FoldsOutExact` | uwebfilter.d/source/src/block.c:28-30 | two folds are enough exactly when the second one does not carry again |
| `Checksum.ChecksumIsInternet` | uwebfilter.d/source/src/block.c:16-31 | for every buffer of up to 65538 words the result is the complement of the sum with end-around carry (section 1 of RFC 1071) |
| `Checksum.BoundIsExact` | uwebfilter.d/source/src/block.c:28-30 | it is so for all buffers of n words if and only if n is at most 65538 |
| `Checksum.StoredChecksumValidates` | uwebfilter.d/source/src/block.c:107 | stored in a word that was zero, the checksum makes the recomputed checksum zero |
| `Checksum.ByteOrderIndependent` | uwebfilter.d/source/src/block.c:16-31 | summing words in the wrong byte order gives the right sum in the wrong byte order (section 2(B) of RFC 1071) |
| `Checksum.ValidOnTheWire` | uwebfilter.d/source/src/block.c:107 | a header whose checksum was computed and stored in host order passes the receiver's check in network order |
| `Checksum.SegmentValidOnTheWire` | uwebfilter.d/source/src/block.c:221-235 | so does a TCP segment checked together with its pseudo-header |
| `DnsName.ExtractDomain` | uwebfilter.d/source/src/udp53.c:59-105 | writes the decoded name into the zeroed buffer and accepts by the type byte it looks at; rejects short messages and those without a question untouched |
| `DnsName.WriteName` | uwebfilter.d/source/src/udp53.c:79-92 | the label loop writes exactly the decoded text, followed by zeros |
| `DnsName.NameRoundTrip` | uwebfilter.d/source/src/udp53.c:76-102 | every question for a non-empty name of NUL-free labels is decoded to the labels joined by dots, fits the buffer, and is accepted exactly if the low byte of its type is at most 17, 28 or 65 |
| `DnsName.RootReadsTheClass` | uwebfilter.d/source/src/udp53.c:94-102 | for the root name the byte that decides is the high byte of the class instead |
| `DnsName.AcceptedIff` | uwebfilter.d/source/src/udp53.c:62-104 | for any message: accepted exactly with at least 12 bytes, a question count other than 0, and a byte of at most 17, 28 or 65 where the code looks for the type |
| `DnsName.NameInBytes` | uwebfilter.d/source/src/udp53.c:59-105 | an input in plain bytes: a query for a.bc |
| `DnsName.DottedInjective` | uwebfilter.d/source/src/udp53.c:79-92 | names without dots inside labels are told apart by their text |
| `DnsAnswer.PutPayload` | uwebfilter.d/source/src/block.c:73-93 | question, owner name and record are written end to end behind the room for the headers |
| `DnsAnswer.PutIpHeader` | uwebfilter.d/source/src/block.c:95-107 | the IP header, addresses swapped, with its checksum over itself |
| `DnsAnswer.BuildAnswer` | uwebfilter.d/source/src/block.c:60-129 | the parts tile exactly the 58 + 2q bytes that are sent, and a host that checks IPv4 and UDP headers accepts them as a datagram for the one that asked |
| `DnsAnswer.AnswerReturns` | uwebfilter.d/source/src/block.c:95-119 | such a host finds version 4, header length, both lengths, no fragment, a time to live, protocol 17, a right IP checksum and no UDP checksum, the addresses and ports exchanged, and the DNS message as data |
| `DnsReply.ParseQname` | uwebfilter.d/source/src/block.c:79-85 | a resolver reads an encoded name back label by label |
| `DnsReply.AnswerParses` | uwebfilter.d/source/src/block.c:60-129 | for every request with a name of up to 227 bytes a resolver reads the request's id and question and one A record for 127.0.0.1 under the same name, nothing else; the daemon's own decoder reads the same domain |
| `DnsReply.AnswerFitsIff` | uwebfilter.d/source/src/block.c:63-93 | the answer to a well-formed query fits the 512-byte buffer if and only if its name has at most 227 bytes |
| `DnsReply.LongNameOverruns` | uwebfilter.d/source/src/block.c:63-93 | an input on the other side: a well-formed name of 228 bytes, whose answer would take 514 |
| `Udp53.NameOf` | uwebfilter.d/source/src/udp53.c:35-36 | the domain check_access is asked about is the decoded text up to its first NUL |
| `Udp53.Handle` | uwebfilter.d/source/src/udp53.c:22-48 | a query that is not accepted passes and touches nothing; one that is gets the verdict of the policy on the cached answer, one step of the domain cache, and if dropped the forged answer |
| `Udp53.BlacklistedIsForged` | uwebfilter.d/source/src/udp53.c:35-45 | from query to answer: a query of an accepted type, by number, for a name the blacklist covers and the whitelist does not is dropped whatever the server says, and the host that asked accepts the datagram that goes back and reads that this name is at 127.0.0.1 |
| `Udp53.ForgedInReturn` | uwebfilter.d/source/src/block.c:67-129 | between two hosts: whenever the packet is a valid UDP datagram, with IP options or without, that carries such a query, its sender receives a valid one from where it sent it to, ports exchanged, with that answer |
| `Daemon.JudgedOnce` | uwebfilter.d/source/src/tcp443.c:61-70 | for one packet check_access is called at most once, and only what it says of that one name makes a difference |
| `Daemon.RunParts` | uwebfilter.d/source/src/nfqueue.c:45-96 | a run of the daemon, flows and domain cache in one state, is a run of the verdict machine and a run of the cache by the calls it makes |
| `Daemon.EachInOnePlace` | uwebfilter.d/source/src/nfqueue.c:45-96 | in every run of the daemon with distinct ids each packet is answered once, held once, or lost |
| `Daemon.PlainJudged` | uwebfilter.d/source/src/udp53.c:33-47 | a packet of the other handlers has exactly the verdict of the rules on the domain its handler found and on what the cache, as it was before, answers; exactly Accept if it found none |
| `Daemon.TlsJudged` | uwebfilter.d/source/src/tcp443.c:61-104 | so has a TLS packet at which check_access is called, and every packet its flow holds |
| `Daemon.UnseenIsUnknown` | uwebfilter.d/source/src/check.c:27-36 | in every run of the daemon a domain for which no answer was stored is judged as unknown, whatever the server replies |
| `Daemon.UnseenHelloIsUnknown` | uwebfilter.d/source/src/tcp443.c:43-124 | so is every packet of a ClientHello for such a name that comes in two or more well-cut packets |

## Left out

- HashTable.Table.Add: does not model wrap-around of the 32-bit counters, which would take 2^32 elements; a failed allocation ends the program, as uthash does by default.
- HashTable.Table.Find: the hash function is arbitrary, the Bloom filter, which the daemon does not enable, is not modelled.
- HASH_SELECT, in-order insertion, replacement and the other macros of uthash.h that the daemon does not use.
- ClientHello.ExtractSni: a byte past the end of memory reads as zero; what reading there does on a real machine is not modelled. It does not happen for encoded records (`ClientHello.ReadsInBounds`).
- TcpFlow.Cache.Handle: the key is the triple of addresses and port; the padding of the key structure and the parsing of IP and TCP headers are not modelled.
- TcpFlow.Cache.Dispatch: the handlers of tcp80.c and udp53.c appear as senders of one verdict; which one is `Daemon.PlainJudged`, for a domain that is given with the packet. `Udp53.Handle` says which domain that is for DNS; the string search of extract_http_payload is not modelled.
- TcpFlow.Cache.JudgePayload: what check_access will say of a name is a function given with the packet. That the call changes the domain cache is stated for the machine of values in `Daemon` and for the real cache by `Policy.Log.CheckAccess`, not for both real structures in one method.
- Coherence.AgreementIsTestable: for Redis contents without the empty domain, which the table refuses, and lists that fit the arena.
- DnsAnswer.BuildAnswer: for queries that leave room in the buffer; what overrunning it does to the stack is not modelled. `DnsReply.AnswerFitsIff` says which do. The identification field stays 0 and the raw socket is not modelled.
- Udp53.Handle: for packets that hold their headers; the 16-bit subtraction of the lengths does not wrap.
- DomainCache.Cache.DomainLookup: domains are strings of any length; a server reply that names a domain of 256 bytes or more would overrun the entry. `now + ttl` does not wrap.
- DnsName.ExtractDomain: for messages whose name fits the buffer with its terminator; others overrun it.
- Truncated.NameSurvives: for a ClientHello without a name, that nothing past the cut is read is sufficient, not shown necessary.
- Checksum.Words: on a little-endian machine with 64-bit long.
- tcp_rst_send: only its checksums; the other header fields and the raw sockets are not modelled.
- Policy.Log.CheckAccess: address formatting, the clock and the output of the log record.
- DomainStore.Database.TtlsUpdate: a ttl that outgrows the column type, the hit count table itself and crash points between Redis and the commit.
- Server.Query: the update of the hit count, HTTP, authentication, metrics, and replication between Redis master and replica.
- Loading of the configuration from JSON, json-c, curl, netlink, SQLite: foreign code; the model starts from a loaded configuration and a parsed reply.
- utils.c, logger.c, the log writers and the cloud log buffer, the scraper, categorify and logcollect: output and plumbing around libraries that are not part of this model.
