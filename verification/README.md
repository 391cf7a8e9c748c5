# LRUIndex and its companions, verified

The repository is about one cache design, the small LRU buckets that fit a programmable switch, and
three uses of it: a data-centre cache (LRUTable), a database index whose node pointers are cached by the
switch (LRUIndex), and a traffic monitor (LRUMon). This project models the parts that carry state and
proves what they keep:

- the B+ tree of the index server, changed in place, and lookups that start at a remembered node, which
  later inserts may have split (`BPlusTree*.dfy`);
- the monitor of `test_app3`: filter, cache, upload and the error of its answers (`TowerSketch.dfy`,
  `LruCache.dfy`, `Monitor*.dfy`);
- the simulators with delayed updates, against exact LRUs (`Stamps.dfy`, `App1*.dfy`, `App2*.dfy`), and the
  counter cache (`App6*.dfy`); what all the caches hold is told from the packets alone in terms of `Recency.dfy`;
- the reply reader, the command printers, quoting, the asynchronous context and the hash table of the Redis
  client that the server brings along (`Resp*.dfy`, `CommandFormat.dfy`, `Sds*.dfy`, `Async*.dfy`,
  `Dict*.dfy`);
- the messages between client, switch and server (`Wire*.dfy`).

Code that changes objects, arrays or linked lists is modelled by classes and methods whose contracts tie the
new state to a function of the old one; the theorems are about these functions and hold for every input and
every run. Hash functions are uninterpreted: every theorem holds for all of them.

## Model

| member | source | states |
|---|---|---|
| `BPlusTrees.BPlusTree.Insert` | testbed/LRUIndex/Server/lib/b_plus_tree.h:28-43 | Inserting a key not yet stored keeps the tree in order: sorted keys, ranges that fit their parents, node sizes, equal leaf depth. The contents gain exactly that binding, and every existing node keeps its identity, its level and the start of its range, which shrinks from the top only. |
| `BPlusTrees.BPlusTree.Overflow` | testbed/LRUIndex/Server/lib/b_plus_tree.h:127-175 | Splitting an overfull node, and then its parents up to a new root, restores the invariant without changing what is stored. |
| `BPlusTrees.BPlusTree.Detach` | testbed/LRUIndex/Server/lib/b_plus_tree.h:137-164 | The upper half of a node and its children move to a new right sibling; the fields of every node are stated, those of untouched nodes included. |
| `BPlusTrees.BPlusTree.Lookup` | testbed/LRUIndex/Server/lib/b_plus_tree.h:45-60 | From the root, or from a remembered node, the loop computes the descent that the theorems below speak of, and hands back the leaf it ended in. |
| `BPlusTreeState.RootLookup` | testbed/LRUIndex/Server/lib/b_plus_tree.h:50-59 | A lookup from the root returns the value of the least stored key at or above the one asked for, and nothing if there is none. |
| `BPlusTreeState.StoredKeyIsFound` | testbed/LRUIndex/Server/lib/b_plus_tree.h:50-59 | A lookup from the root of a stored key returns its value. |
| `BPlusTreeTheorems.StaleNodeIsHarmless` | testbed/LRUIndex/Server/backend/backend.cc:84-91 | The reason the switch may cache node pointers. Over any run of inserts and lookups, where each lookup starts at the root or where the one before it had ended, at any later moment a lookup from the remembered node answers as one from the root would, or nothing; nothing exactly when the range of the node has shrunk below the key. |
| `BPlusTreeTheorems.StaleNodeNeverLies` | testbed/LRUIndex/Server/backend/backend.cc:84-106 | For a stored key a remembered node yields the value of that key or nothing, never the value of another: the comparison under CORRECTNESS fails in no other way. |
| `BPlusTreeTheorems.StaleNodeByItsKeys` | testbed/LRUIndex/Server/backend/backend.cc:84-91 | The same in terms of the tree itself: a remembered node answers as the root would if and only if it is on the right edge of the tree or some key below it is not below the one sought. |
| `BPlusTreeTheorems.StaleLeafByItsLastKey` | testbed/LRUIndex/Server/backend/backend.cc:84-91 | For a leaf, which is what a lookup leaves behind: if it is the rightmost leaf or its last key is not below the one sought. |
| `BPlusTreeTheorems.FreshNodeIsExact` | testbed/LRUIndex/Server/backend/backend.cc:84-91 | With no insert in between, a lookup from any node that an earlier lookup of the key went through is exact. |
| `BPlusTreeTheorems.StaleNodeCanMiss` | testbed/LRUIndex/Server/backend/backend.cc:92-106 | The empty answer happens: of two inserted keys the second is missed from the leaf remembered before. |
| `BPlusTrees.RememberedLeafMisses` | testbed/LRUIndex/Server/lib/b_plus_tree.h:28-60 | A program that builds that tree, remembers the leaf, inserts twice and looks up twice: nothing from the leaf, the value from the root. |
| `BPlusTreeTheorems.RunKeeps` | testbed/LRUIndex/Server/lib/b_plus_tree.h:28-43 | Over any run of inserts the invariant holds and the contents are what was there and every pair inserted. |
| `BPlusTreeTheorems.SeparatorIsLargestOnLeft` | testbed/LRUIndex/Server/lib/b_plus_tree.h:149-153 | Every separator is the largest key of the subtree on its left, and every key on its right is larger. |
| `BPlusTreeTheorems.LeavesAtDepth` | testbed/LRUIndex/Server/lib/b_plus_tree.h:123-135 | All leaves are depth - 1 parent pointers below the root. |
| `BPlusTreeFlatten.FlattenTop` | testbed/LRUIndex/Server/lib/b_plus_tree.h:65-82 | The fat node of the switch: at each depth up to compress_depth the collected keys are sorted, and one search of them selects the very node that as many rounds of the descent lead to. |
| `BPlusTreeFlatten.LayerRoutes` | testbed/LRUIndex/Server/lib/b_plus_tree.h:72-82 | The same for any collected layer. |
| `OrderedKeys.EmbeddingKeepsOrder` | testbed/LRUIndex/Server/lib/b_plus_tree.h:20-22 | Strings in the order of std::string map to the numbers that stand for keys here, order and identity kept. |
| `TowerSketches.NeverUnderestimates` | CPU_simulate/src/include/sketch.h:98-124 | While less than 2^32 bytes were added since the last clear, the sketch answers at least what was added under the key, whatever the hashes. |
| `TowerSketches.WrappedSketchUnderestimates` | CPU_simulate/src/include/sketch.h:104-107 | From 2^32 bytes on it may answer zero: three packets of one flow show it. |
| `TowerSketches.TowerSketch.InsertThenQuery` | CPU_simulate/src/include/sketch.h:98-110 | While less than 2^32 was added since the last clear, the answer is the least of what was added to the cells of the key, over the rows whose cell got less than the limit of its counter, and the largest number if there is no such row. |
| `TowerSketches.EstimateIsLeastTotal` | CPU_simulate/src/include/sketch.h:88-136 | The same for the estimate of any trace under any hashes: bounded above by each unsaturated row, and attained. |
| `TowerSketches.ExactWhenAlone` | CPU_simulate/src/include/sketch.h:98-124 | It is exact for a key that shares its cell of some row with no other key and has not saturated it. |
| `TowerSketches.TowerSketch.Clear` | CPU_simulate/src/include/sketch.h:80-86 | All counters are zero again and the trace is empty. |
| `LruCaches.Lru.Insert` | CPU_simulate/src/lru.cpp:38-64 | A packet moves the slot of its flow to the front of its bucket, counts added up, or enters there; the one slot too many is the victim. A bucket of the fingerprints sent most recently is one again, the packet counted as sent. |
| `LruCaches.PutKeepsRecent` | CPU_simulate/src/lru.cpp:43-63 | The victim of a full bucket is the fingerprint sent least recently of those held; otherwise there is none. |
| `MonitorBounds.CacheIsRecent` | CPU_simulate/src/experiment.cpp:108-112 | At any point of any stream each bucket holds the three fingerprints let through to it most recently, in that order. |
| `MonitorBounds.CachedIff` | CPU_simulate/src/experiment.cpp:108-112 | A fingerprint is cached if and only if it was let through and fewer than three others of its bucket since. |
| `Recency.HeldIff` | CPU_simulate/src/lru.cpp:38-64 | What it means to be among the k sent most recently: sent, and fewer than k others since. |
| `LruCaches.Lru.Query` | CPU_simulate/src/lru.cpp:66-85 | The answer is the count cached for the fingerprint and the count uploaded. |
| `MonitorBounds.PutKeepsCount` | CPU_simulate/src/lru.cpp:38-64 | For every fingerprint, the bucket and the victim together count what the bucket counted and the packet. |
| `MonitorBounds.NothingAdmittedIsLost` | CPU_simulate/src/experiment.cpp:99-123 | At any point of any stream what the cache and the CPU know of a flow is what the filter let through: no victim is lost on its way, since the second sketch never answers zero for it. |
| `Monitors.HeldBackPerWindow` | CPU_simulate/src/experiment.cpp:99-111 | The filter holds back at most 1000 bytes of a flow in each window in which it sends. |
| `Monitors.FrontIsWindow` | CPU_simulate/src/experiment.cpp:101-108 | In a capture the filter has counted the packets of the current window, all of them and no others. |
| `Monitors.PassesIff` | CPU_simulate/src/experiment.cpp:101-108 | When a packet passes, told from the stream alone: every row whose cell of its flow was given less than its limit in this window was given more than 1000. |
| `Monitors.WindowsOfPackets` | CPU_simulate/src/experiment.cpp:101-106 | When timestamps do not fall, the windows counted are those that the packets of the flow lie in. |
| `MonitorBounds.ErrorBound` | CPU_simulate/src/experiment.cpp:99-133 | Streams in which fingerprints tell the flows apart and neither sketch is given 2^32 or more between two clears: the reported size of a flow never exceeds what it sent, and falls short by at most 1000 bytes for each window in which it sends. |
| `MonitorBounds.SmallStreamsHold` | CPU_simulate/src/experiment.cpp:99-123 | A stream below 2^32 bytes never gives a sketch as much. |
| `MonitorRuns.TestApp3` | CPU_simulate/src/experiment.cpp:84-133 | The experiment with both its loops: the same bound for the sum over all flows. |
| `MonitorRuns.Pipeline.Process` | CPU_simulate/src/experiment.cpp:99-123 | One packet through window change, filter, cache, second sketch and upload is one step of the model. |
| `App1Simulation.OneBucketIsExactLru` | CPU_simulate/src/app1.cpp:120-200 | With one bucket of k slots the approximate cache of app1.cpp and the exact LRU of app1-ideal.cpp agree on contents, placeholder flags and all four counters, for every delay and every trace that arrives in the order of the ordered containers (time, then fingerprint). |
| `App1Buckets.BucketIsOwnCache` | CPU_simulate/src/app1.cpp:120-200 | With any number of buckets and one shared queue of placeholders: at any moment each bucket, with what is due applied, is the cache of one bucket that is given its own packets only, though that one is drained at other times. |
| `App1Buckets.EachBucketIsExactLru` | CPU_simulate/src/app1.cpp:120-200 | So each bucket holds what the exact LRU of K slots on its own packets holds, flags included, whenever a packet arrives. |
| `App1Buckets.CountsAreThoseOfExactLrus` | CPU_simulate/src/app1.cpp:143-182 | The hits, placeholder hits and misses of the whole cache are the sums of those of the exact LRUs, one per bucket. |
| `App1Simulation.EqualTimesPartThem` | CPU_simulate/src/app1-ideal.cpp:148-153 | That order is needed: two packets of one time, the larger fingerprint first, leave different caches. |
| `App1Books.OrderFits` | CPU_simulate/src/app1.cpp:147 | The assertion on the size of ts_order holds for any number of buckets. |
| `App1Caches.App1.Insert` | CPU_simulate/src/app1.cpp:120-200 | The simulator in place, with ts_order and dup_cntr: every assertion in it holds, the books always match the slots, and its state is the one whose runs the theorems on placeholders, recency and counts below and above are about. |
| `App1Caches.App1.DrainPending` | CPU_simulate/src/app1.cpp:122-140 | From the front of the queue exactly those are taken that have waited for more than the delay. |
| `App1Placeholders.QueueIsRecentMisses` | CPU_simulate/src/app1.cpp:122-140 | Over runs: those wait that entered the cache at most the delay ago. |
| `App1Placeholders.ValidIffAnswered` | CPU_simulate/src/app1.cpp:122-161 | For any number of buckets: a cached fingerprint is valid if and only if more than the delay has passed since it entered, for the last time or so shortly before it that its answer was still under way. |
| `App1Placeholders.CountedByHistory` | CPU_simulate/src/app1.cpp:143-182 | What each packet counts as, all four counters, told from the packets before it: a miss without a slot, a hit with the answer, a placeholder without it. |
| `App1Placeholders.MissedOnce` | CPU_simulate/src/app1.cpp:151-162 | A cached fingerprint that missed once is a hit if and only if it comes more than the delay after that miss. |
| `App1Placeholders.BucketIsRecent` | CPU_simulate/src/app1.cpp:148-199 | Whatever the delay, each bucket holds the K fingerprints sent to it most recently, in that order. |
| `App1Caches.App1Ideal.Insert` | CPU_simulate/src/app1-ideal.cpp:100-155 | The exact LRU in place; its assertions hold, and its state is the one that IdealCountedByHistory and the simulation theorems are about. |
| `App1Caches.App1Ideal.DrainPending` | CPU_simulate/src/app1-ideal.cpp:102-118 | Exactly those are taken off the queue that have waited for more than the delay. |
| `App1Placeholders.IdealCountedByHistory` | CPU_simulate/src/app1-ideal.cpp:121-144 | What each packet counts as in the exact LRU, told from the packets before it by the same rule. |
| `App2Simulation.SingleBucketIsExactLru` | CPU_simulate/src/app2.cpp:129-284 | With one stage of one bucket the cascaded cache and the exact LRU of app2-ideal.cpp hold the same stamps and miss equally often, for every delay. |
| `App2Books.UpdateBag` | CPU_simulate/src/app2.cpp:132-265 | For any number of stages an update adds its own slot and removes exactly the slot it replaces and the one pushed out: the cascade loses and doubles none. |
| `App2Books.UpdateTidy` | CPU_simulate/src/app2.cpp:132-265 | It keeps every bucket within K slots, every slot at its hash place, and the first stage without duplicates. |
| `App2Books.UpdateBooks` | CPU_simulate/src/app2.cpp:139-162 | Each entry an update looks up in dup_cntr and ts_order is there, unchecked finds included, and afterwards both match the slots again. |
| `App2Books.OrderFits` | CPU_simulate/src/app2.cpp:131 | The assertion on the size of ts_order holds. |
| `App2Caches.App2.Insert` | CPU_simulate/src/app2.cpp:129-284 | The simulator in place, with its books and all its assertions; n_miss grows if and only if no stage holds the fingerprint, and what is queued is the first stage that does. |
| `App2Moves.LookupFinds` | CPU_simulate/src/app2.cpp:270-282 | A lookup answers -1 if and only if no stage holds the fingerprint in the bucket it hashes to, and otherwise the first stage that does. |
| `App2Moves.CascadeMoves` | CPU_simulate/src/app2.cpp:169-208 | The cascade slot by slot: a full bucket gives up its last slot for the one that comes, a bucket with room takes it at the end, nothing else moves, and what leaves the last stage is out. |
| `App2Moves.UpdateMoves` | CPU_simulate/src/app2.cpp:137-259 | A whole update slot by slot: to the front of its bucket in the stage found, the older slot gone, and what becomes of the one too many. |
| `App2Moves.EffectiveAfterDelta` | CPU_simulate/src/app2.cpp:132-136 | Over runs with any number of stages: the accesses that lie more than the delay back have been applied, each once and in order, and no others. |
| `App2Moves.MissIffNotCached` | CPU_simulate/src/app2.cpp:268-283 | A packet is a miss if and only if its fingerprint is in no stage once those accesses have been applied. |
| `App2Moves.FirstStageIsRecent` | CPU_simulate/src/app2.cpp:146-173 | Each bucket of the first stage holds the K fingerprints that updates brought to it most recently, in that order; with one stage these are all. |
| `App2IdealCaches.App2Ideal.Insert` | CPU_simulate/src/app2-ideal.cpp:95-134 | The exact LRU in place; its assertions hold. |
| `App6Counts.CascadeConserves` | CPU_simulate/src/app6.cpp:109-137 | For every fingerprint, what the stages count and what falls out of the last one is what they counted before and what came in, however far the cascade goes. |
| `App6Counts.CountsAreConserved` | CPU_simulate/src/app6.cpp:82-138 | On every trace, counters over all stages and what was dropped are the packets the filter admitted; buckets stay within K slots, without duplicates, each slot at its place. |
| `App6Caches.App6.Insert` | CPU_simulate/src/app6.cpp:82-138 | The cache in place: both loops compute the step of the model. |
| `App6Moves.CascadeMoves` | CPU_simulate/src/app6.cpp:109-137 | The stages slot by slot: found and moved to the front with the counts added, taken in front of a bucket with room, or in front of a full one whose last slot goes on to the next stage. |
| `App6Moves.AdmittedIff` | CPU_simulate/src/app6.cpp:85-103 | Which packets the filter lets through, told from the packets alone: those of a burst, once it is big enough. |
| `App6Moves.InsertByHistory` | CPU_simulate/src/app6.cpp:82-138 | All counters and the stages after a packet: discarded, opening a burst, or sent through. |
| `App6Moves.FirstStageIsRecent` | CPU_simulate/src/app6.cpp:109-131 | Each bucket of the first stage holds the K fingerprints let through to it most recently, in that order. |
| `RespChunks.ChunksDoNotMatter` | testbed/LRUIndex/Server/redis/hiredis/read.c:445-525 | The replies, the error and the byte it is met at depend on the bytes fed, not on where they were cut. |
| `RespChunks.SameBytesSameEvents` | testbed/LRUIndex/Server/redis/hiredis/read.c:445-525 | Two ways of cutting the same bytes lead to the same events and the same reader. |
| `RespCodec.RoundTrip` | testbed/LRUIndex/Server/redis/hiredis/read.c:190-414 | The encoded replies of any list come back, exactly these, in order, with nothing left over, however the bytes are cut. |
| `RespCodec.EncodingIsInjective` | testbed/LRUIndex/Server/redis/hiredis/read.c:190-414 | Different lists of replies have different encodings. |
| `RespCodec.Decode` | testbed/LRUIndex/Server/redis/hiredis/read.c:367-414 | From any task in the stack the reader takes one encoded reply off the bytes, whatever follows. |
| `RespLimits.StepKeepsStack` | testbed/LRUIndex/Server/redis/hiredis/read.c:190-213 | What a step does to the task stack: well formed before and after; it stores an element outside its array exactly when a count cut to an int was not positive. |
| `RespLimits.OnlyOversizedCountsFault` | testbed/LRUIndex/Server/redis/hiredis/read.c:190-365 | Whatever bytes arrive, if the counts announced fit, no element is ever stored outside its array. |
| `RespLimits.CountLimit` | testbed/LRUIndex/Server/redis/hiredis/read.c:302-365 | What the reader makes of a header for any count and one element: the exact condition for the fault, and the array an int keeps of the count otherwise. |
| `RespLimits.OversizedCountExists` | testbed/LRUIndex/Server/redis/hiredis/read.c:302-365 | An input on which it faults. |
| `RespLimits.DepthLimit` | testbed/LRUIndex/Server/redis/hiredis/read.c:302-312 | A reply comes back if and only if its arrays nest at most eight deep; otherwise the error is met behind the type byte of the first one deeper. |
| `RespLimits.EightLevelsNotSeven` | testbed/LRUIndex/Server/redis/hiredis/read.c:306-312 | The error text promises no more than seven; eight are taken. |
| `RespEdges.NullArray` | testbed/LRUIndex/Server/redis/hiredis/read.c:316-331 | An array of count -1 is read as a null reply wherever a reply may stand. |
| `RespEdges.NegativeBulk` | testbed/LRUIndex/Server/redis/hiredis/read.c:249-280 | So is a bulk string of any negative length. |
| `RespEdges.NoElements` | testbed/LRUIndex/Server/redis/hiredis/read.c:332-362 | An array of no elements, or of a negative number other than -1, is finished at once. |
| `RespEdges.UnknownType` | testbed/LRUIndex/Server/redis/hiredis/read.c:371-393 | A byte that is no type is an error behind it. |
| `RespEdges.OddNumerals` | testbed/LRUIndex/Server/redis/hiredis/read.c:148-173 | A plus sign is read over, and a numeral with a byte that is no digit counts as -1. |
| `RespReaders.RedisReader.MoveToNextTask` | testbed/LRUIndex/Server/redis/hiredis/read.c:190-213 | The loop over the task stack computes the finishing of an item. |
| `RespReaders.ReadLongLong` | testbed/LRUIndex/Server/redis/hiredis/read.c:148-173 | The loop computes the number on the line, wrapped to 64 bits. |
| `RespReaders.FindNewline` | testbed/LRUIndex/Server/redis/hiredis/read.c:120-143 | The loop finds the first line end. |
| `RespReaders.RedisReader.Feed` | testbed/LRUIndex/Server/redis/hiredis/read.c:445-475 | Bytes are appended unless the reader has failed. |
| `RespReaders.RedisReader.GetReply` | testbed/LRUIndex/Server/redis/hiredis/read.c:477-525 | The reader in place, item by item, is the reader of the theorems. |
| `RespReaders.FeedAndDrain` | testbed/LRUIndex/Server/redis/hiredis/read.c:445-525 | Feeding a chunk and taking replies until none is left reports the events of the model. |
| `CommandFormats.CommandRoundTrip` | testbed/LRUIndex/Server/redis/hiredis/hiredis.c:530-566 | A printed command is read back as itself, for any argument bytes and any cuts. |
| `CommandFormats.FormatCommandArgv` | testbed/LRUIndex/Server/redis/hiredis/hiredis.c:530-566 | With totlen an int, the buffer gets the command and the right length if and only if that length and the final zero byte fit an int; it is stated when malloc is asked for a negative size, and that otherwise the buffer is too short. |
| `CommandFormats.LongArguments` | testbed/LRUIndex/Server/redis/hiredis/hiredis.c:540-548 | Two arguments for which it does not fit, and what is measured for them. |
| `CommandFormats.FormatSdsCommandArgv` | testbed/LRUIndex/Server/redis/hiredis/hiredis.c:477-519 | With the length and the free bytes of the string held as ints: the string becomes the command, and the assertion on its length holds, if and only if the length of the command fits an int. |
| `CommandFormats.AppendLongArgument` | testbed/LRUIndex/Server/redis/hiredis/hiredis.c:504-515 | A command with an argument of 2^31 or of 2^32 bytes is not appended. |
| `CommandFormats.CountDigits` | testbed/LRUIndex/Server/redis/hiredis/hiredis.c:193-203 | The unrolled loop counts the decimal digits. |
| `SdsStrings.Sds.MakeRoomFor` | testbed/LRUIndex/Server/redis/hiredis/sds.c:129-149 | Where length and free bytes are right the room asked for is there afterwards, and an empty string gets it; the size arithmetic is that of size_t, the fields are ints. |
| `SdsStrings.Sds.CatLen` | testbed/LRUIndex/Server/redis/hiredis/sds.c:237-249 | Bytes are appended behind the length the header states, which then is cut to an int; with room for them the string gains exactly these bytes. |
| `SdsStrings.Sds.CatFmt` | testbed/LRUIndex/Server/redis/hiredis/sds.c:425-526 | A format is rendered specifier by specifier: C strings up to their zero byte, i and u in 32 bits, the others in 64; with room the string gains exactly what is rendered. |
| `SdsStrings.Ll2Str` | testbed/LRUIndex/Server/redis/hiredis/sds.c:299-328 | Digits from the last to the first, the sign, and the reversal in place give the decimal numeral of a signed number, the least one included. |
| `SdsStrings.Ull2Str` | testbed/LRUIndex/Server/redis/hiredis/sds.c:331-355 | The same for an unsigned one. |
| `SdsQuotes.QuotingRoundTrip` | testbed/LRUIndex/Server/redis/hiredis/sds.c:740-763 | Quoting any arguments, joining them with spaces and splitting the line gives them back. |
| `SdsQuotes.SplitOne` | testbed/LRUIndex/Server/redis/hiredis/sds.c:815-923 | A quoted argument is read back if and only if the line ends or a space follows. |
| `SdsQuotes.ReprIsPrintable` | testbed/LRUIndex/Server/redis/hiredis/sds.c:740-763 | The quoted form of any bytes is printable. |
| `SdsQuotes.CatRepr` | testbed/LRUIndex/Server/redis/hiredis/sds.c:740-763 | The loop appends the quoted form. |
| `SdsQuotes.SplitArgs` | testbed/LRUIndex/Server/redis/hiredis/sds.c:815-923 | The three-mode lexer of the loop computes the splitting of the theorems, failures included. |
| `AsyncTheorems.ExactlyOnce` | testbed/LRUIndex/Server/redis/hiredis/async.c:411-489 | In every run, whatever the callbacks issue: the callbacks of the commands issued, by the user and by callbacks until the first disconnect or free, run once each and in that order, the i-th with the i-th reply that arrived, the rest with none and only at teardown; while open the others are pending, at the end all have been run; a clean disconnect finds none pending; with at most one reply per command no assertion fails. |
| `AsyncTheorems.RunTakes` | testbed/LRUIndex/Server/redis/hiredis/async.c:583-648 | The commands accepted are exactly those issued until the context is told to disconnect or to free itself. |
| `AsyncTheorems.CommandThenReply` | testbed/LRUIndex/Server/redis/hiredis/async.c:583-648 | A command on an idle open context is taken, and the reply that comes next is given to its callback. |
| `AsyncTheorems.DisconnectWaitsForBytes` | testbed/LRUIndex/Server/redis/hiredis/async.c:411-427 | A disconnect waits for what is not yet written, and no longer. |
| `AsyncTheorems.IdleDisconnect` | testbed/LRUIndex/Server/redis/hiredis/async.c:357-362 | A disconnect on an idle context closes it at once, without an error. |
| `AsyncTheorems.RunReceives` | testbed/LRUIndex/Server/redis/hiredis/async.c:411-489 | What is given out is the first of what arrived, in its order, and all of it while the context is open. |
| `AsyncTheorems.UnsolicitedReply` | testbed/LRUIndex/Server/redis/hiredis/async.c:455-471 | An idle context sent a reply closes if it is an error and runs into an assertion otherwise. |
| `AsyncTheorems.AbortsExactlyWhenStranded` | testbed/LRUIndex/Server/redis/hiredis/async.c:411-489 | Over whole runs an assertion fails if and only if at some time a reply that is no error arrives when the replies of its batch before it have used up every pending callback and those that the callbacks issued meanwhile. |
| `AsyncTheorems.ClosingAcceptsNone` | testbed/LRUIndex/Server/redis/hiredis/async.c:583-592 | Once disconnecting or being freed, a context accepts no further command in any run. |
| `AsyncTheorems.CleanDisconnect` | testbed/LRUIndex/Server/redis/hiredis/async.c:331-362 | When everything is written and every pending callback gets its reply, none of them freeing the context, each is run with its own reply and the disconnect is reported as clean. |
| `AsyncContexts.AsyncContext.ProcessCallbacks` | testbed/LRUIndex/Server/redis/hiredis/async.c:411-489 | The context in place, with its linked callback list, is the machine of the theorems. |
| `AsyncContexts.AsyncContext.AsyncFree` | testbed/LRUIndex/Server/redis/hiredis/async.c:275-318 | Teardown in place. |
| `AsyncContexts.AsyncContext.Command` | testbed/LRUIndex/Server/redis/hiredis/async.c:583-648 | Says yes if and only if the callback has been appended to the pending ones, which it is unless the context is closing. |
| `CallbackLists.CallbackList.Push` | testbed/LRUIndex/Server/redis/hiredis/async.c:227-247 | Appends to the linked list. |
| `CallbackLists.CallbackList.Shift` | testbed/LRUIndex/Server/redis/hiredis/async.c:249-263 | Takes the first off the linked list, or says that there is none. |
| `Dicts.Dict.Expand` | testbed/LRUIndex/Server/redis/hiredis/dict.c:88-128 | Moving all chains, entry by entry, to a table of another size keeps every binding and every entry. |
| `Dicts.Dict.Add` | testbed/LRUIndex/Server/redis/hiredis/dict.c:135-156 | Adds the binding if and only if the key has none, growing the table first if it is full. |
| `Dicts.Dict.Replace` | testbed/LRUIndex/Server/redis/hiredis/dict.c:160-180 | Sets the value, and says whether the key is new. |
| `Dicts.Dict.Delete` | testbed/LRUIndex/Server/redis/hiredis/dict.c:182-210 | Removes exactly the binding of the key; the entries behind it keep their links. |
| `Dicts.Dict.Find` | testbed/LRUIndex/Server/redis/hiredis/dict.c:243-256 | Finds the entry of a key if and only if it is bound. |
| `Dicts.NextPower` | testbed/LRUIndex/Server/redis/hiredis/dict.c:306-317 | The least power of two from the initial size on that is not below size. |
| `Dicts.EachKeyOnce` | testbed/LRUIndex/Server/redis/hiredis/dict.c:258-286 | The chains in slot order list every key of the table exactly once, with its value. |
| `DictIterators.DictIterator.Next` | testbed/LRUIndex/Server/redis/hiredis/dict.c:268-286 | Each remaining entry in turn, and then none for ever. |
| `DictIterators.DictIterator.DeleteReturned` | testbed/LRUIndex/Server/redis/hiredis/dict.c:258-286 | Deleting the entry just returned leaves the iteration as it was: this is why nextEntry is saved. |
| `DictIterators.Sweep` | testbed/LRUIndex/Server/redis/hiredis/dict.c:258-286 | A whole iteration that deletes any of the entries it returns: every key comes out exactly once, and exactly the chosen keys are gone. |
| `WireCodec.HeaderRoundTrip` | testbed/LRUIndex/Server/driver/driver.cc:275-317 | The header comes back with the index modulo 2^48: the index itself if and only if it is not negative and fits in 48 bits. |
| `WireCodec.HeaderLayout` | testbed/LRUIndex/Server/driver/driver.cc:275-317 | Where the bytes of the header are: eight of key and six of index, the highest first, and the flag. |
| `WireCodec.TypeLayout` | testbed/LRUIndex/Server/driver/driver.cc:260-273 | The type has its highest byte first. |
| `WireCodec.LengthLayout` | testbed/LRUIndex/Server/driver/driver.cc:325-329 | A length has its lowest byte first. |
| `WireCodec.QueryRoundTrip` | testbed/LRUIndex/Server/driver/driver.cc:275-335 | A query is read as it was written, and what follows is left. |
| `WireCodec.AnswerRoundTrip` | testbed/LRUIndex/Server/driver/driver.cc:338-379 | The same for an answer with its list of pairs. |
| `WireMessages.InjectFbtHdr` | testbed/LRUIndex/Server/driver/driver.cc:275-317 | The byte by byte copy writes the header. |
| `WireMessages.ExtractFbtHdr` | testbed/LRUIndex/Server/driver/driver.cc:389-430 | The byte by byte copy reads it. |
| `WireMessages.InjectValues` | testbed/LRUIndex/Server/driver/driver.cc:338-379 | The loop writes the pairs. |
| `WireMessages.ExtractValues` | testbed/LRUIndex/Server/driver/driver.cc:459-493 | The loop reads them. |
| `WireMessages.QueryThroughBuffer` | testbed/LRUIndex/Server/db/b_plus_tree_db.cc:50-53 | One buffer: the server reads the fields the client wrote, in the same number of bytes, whatever lies behind them. |
| `WireMessages.AnswerThroughBuffer` | testbed/LRUIndex/Server/backend/backend.cc:113-123 | The same for the answer. |
## Findings

Properties the code promises in a comment, a message or an assertion and does not have on every input. Each is
stated with an input, and with the condition under which it holds.

- A remembered node can miss a stored key (`BPlusTreeTheorems.StaleNodeCanMiss`,
  `BPlusTrees.RememberedLeafMisses`). `StaleNodeIsHarmless` gives the condition: exactly when the range of
  the node no longer reaches the key. It never yields the value of another key.
- A sketch that takes 2^32 bytes in a window may answer zero (`TowerSketches.WrappedSketchUnderestimates`),
  so `ErrorBound` is about streams that give it less between two clears.
- At equal times the approximate cache of APP1 and the exact LRU part (`App1Simulation.EqualTimesPartThem`):
  the one keeps the later packet, the other the larger fingerprint. In the order of time and fingerprint
  they agree.
- The reader keeps the number of elements of an array in an int. A count that an int cuts to zero or less
  makes it store the first element outside the array (`RespLimits.OversizedCountExists`), and nothing else
  does (`RespLimits.StepKeepsStack`, `RespLimits.OnlyOversizedCountsFault`).
- The reader accepts arrays nested eight deep, although its message says that seven is the most
  (`RespLimits.EightLevelsNotSeven`).
- A reply that no command waits for and that is no error fails an assertion of the asynchronous context
  (`AsyncTheorems.UnsolicitedReply`), and nothing else does (`AsyncTheorems.AbortsExactlyWhenStranded`); with at
  most one reply per command none fails (`ExactlyOnce`).
- The buffer printer measures a command in an int. The command and its final zero byte have to fit
  one, otherwise the allocation is refused or the buffer is too short (`CommandFormats.FormatCommandArgv`,
  `LongArguments`).
- The string printer keeps the length of its string in an int as well. From 2^31 bytes on a piece lands in the
  wrong place or the assertion on the length fails (`CommandFormats.FormatSdsCommandArgv`, `AppendLongArgument`);
  below, the string is the command.
- A node pointer comes back from the wire if and only if it is not negative and below 2^48
  (`WireCodec.HeaderRoundTrip`).

## Left out

- BPlusTrees.BPlusTree.Insert: keys already stored are excluded; b_plus_tree.h then keeps both in one
  vector, and which of them a lookup finds depends on later splits.
- BPlusTrees.BPlusTree.Lookup: access_count, the mutex and concurrent use of the tree are not modelled.
- BPlusTreeFlatten.FlattenTop: the choice of the most accessed nodes below compress_depth and the printing
  of the file; and trees with compress_depth at or above depth - 1, for which the code indexes past its vectors.
- Keys are numbers that stand for strings, by `OrderedKeys.EmbeddingKeepsOrder`; times are reals, not doubles.
- LruCaches.Lru.Insert: counts are unbounded, where the code has 64 bits.
- MonitorRuns.TestApp3: the average relative error and the upload statistics; packet sizes are not negative.
- App1Caches.App1.Insert: the rank statistics (perc, n_vic).
- App2Caches.App2.Insert: the same, and n_items. With several stages a fingerprint may be in more than one, so
  there is no simulation theorem for that case, nor is one stated for one stage of several buckets; the books
  and the conservation of slots are proved for any number of both.
- App6Caches.App6.Insert: counters are unbounded, where the code has an int.
- RespReaders.RedisReader.GetReply: replies are values and not objects built through a table of functions, so
  allocation failure and pointers into half-built replies are not modelled; lines and buffers longer than an
  int are not either.
- RespReaders.ReadLongLong: overflow of the signed number, undefined in C, is taken as two's complement.
- CommandFormats.FormatCommandArgv: redisvFormatCommand and its printf formats, and an allocation that fails
  though the size is positive; a negative size is taken never to be granted.
- CommandFormats.FormatSdsCommandArgv: an allocation that fails below 2^63 bytes; from there on it is taken to fail.
  The model stops at the first byte that would be written outside the string.
- CommandFormats.CommandRoundTrip: it is about the bytes of a command; that a printer produces them needs a length
  that fits an int, as the contracts of the two printers say.
- SdsStrings.Sds.CatFmt: a format that ends in a lone percent sign or lacks an argument is excluded, as the code
  reads past its end then; overflow of an int is taken as two's complement.
- SdsQuotes.QuotingRoundTrip: strings are sequences of bytes here, without the int length of their header, so it
  is about quoted forms below 2^31 bytes.
- SdsQuotes.CatRepr: the same.
- SdsQuotes.SplitArgs: allocation; isspace and isprint are those of the C locale; an argument of 2^31 bytes or more.
- AsyncTheorems.ExactlyOnce: publish/subscribe and monitor mode, and the connect and disconnect
  callbacks' own calls on the context.
- Dicts.NextPower: the cap at LONG_MAX, a size for which there is no memory.
- Dicts.Dict.Expand: allocation failure, the copying and freeing hooks of a dictionary type, and the size as an
  unsigned long; the mask of a power of two is the remainder.
- DictIterators.DictIterator.Next: changes of the table during an iteration other than deleting the
  entry just returned.
- WireCodec.QueryRoundTrip: lengths are added up in 32 bits by driver.cc, so messages of 2^32 bytes or more are not
  what the code writes or reads; its buffers have 1472 bytes.
- WireCodec.AnswerRoundTrip: the same.
- WireMessages.InjectValues: the same.
- WireMessages.ExtractValues: messages cut short, on which the code reads past the buffer.
- The packet driver, the switch programs, the client of the database benchmark, the data-set readers, the hash
  function and the simulators APP3 to APP5 are not part of this model.
