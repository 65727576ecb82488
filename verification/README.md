# RediGo, modelled and proved in Dafny

RediGo is a small Redis clone in Go. This project models its hardest parts and proves what they are for:

- **Sorted sets.** A pointer-based B+ tree (parent and next links, splits, borrowing, merging, root collapse) and a skip list with spans
  are modelled as mutable objects, node by node. Both are proved to keep one sorted sequence of (score, member) pairs; `SortedSet` pairs
  either of them with a score map, and both then answer whole runs alike.
- **Shared-nothing execution.** I/O handlers, per-worker queues, workers with private dictionaries and one-slot reply channels form a state
  machine. Every interleaving is linearizable to one sequential store, answers each command once, and cannot get stuck.
- **Dictionary and expiry.** Lazy expiry, active sampling, eviction and the SET, GET and TTL commands are proved against a plain map whose
  keys vanish at their deadline.
- **RESP.** Printer and parser are inverse to each other, byte for byte, in wrapping 64-bit arithmetic.
- **LRU pool, Count-Min sketch, Bloom filter.** Each is proved against the history of what was put in.

How the modules are laid out:

| files | contents |
|---|---|
| `Basics`, `Permutations`, `Items`, `SortedSeqs` | int64 wrap-around, reordering, the order of pairs, sorted sequences as the common specification |
| `BTreeShape`, `BTreeSteps`, `BTreeLeaves`, `BTreeIndex` | the tree as levels of cells and the lemmas about one rewriting step; what the leaves hold; the mutable tree |
| `SkipShape`, `SkipList` | the rows of a skip list; the mutable skip list |
| `SortedSet` | map and index together, whole runs, both indexes side by side |
| `Deadlines`, `Dict`, `Expiry`, `Executor`, `Runs` | the ideal store; the dictionary; active expiry; commands; whole runs |
| `Protocol`, `Delivery`, `Linear` | the state machine; delivery, order and progress; sharding and linearizability |
| `Resp` | encoding, decoding, command parsing |
| `LruPool`, `CountMin`, `Bloom` | eviction candidates and the two sketches |

The mutable indexes carry ghost state: for the tree the list of its levels, for the skip list the nodes in order, and in both a snapshot of
all node fields. Methods write fields and update the snapshot; all reasoning about shape is in lemmas over these values.

Inputs from outside are parameters: clock readings (any that do not run backwards), the random level of a skip-list node (any in 1..32),
the order in which Go walks a map (any), hash functions (any), `strconv.ParseInt`, `strings.ToUpper`, `strings.Fields` and `fmt.Sprint` (any
function). Scores are real numbers.

Four things the code does not do, each with an input and the exact condition under which it does:

- The tree descends by score alone. So `RemoveByScore` misses a stored pair exactly when the leaf holding it ends at a separator that is not
  above its score (`BTreeIndex.RemoveByScore`, `FindableIff`), and `Add` breaks the order of pairs exactly when a larger pair is stored left
  of the leaf its score leads to (`AddSortedIff`). Three tied scores at degree 3 are enough for both (`TiesMislead`, `TiedPairMissed`,
  `TiesInTree`). If scores never tie neither happens (`StrictFindable`, `OvertakenByTies`).
- The head of a skip list looks like the pair (0, ""), so that pair is overlooked exactly when no node of the highest row has a pair not
  larger (`GetRankByScoreAndMember`, `EmptyMemberOverlooked`). `SortedSet` never stores it.
- Active expiry compares through int64, so a deadline of 2^63 or more counts as past at any time (`ActiveTestExact`,
  `LiveKeyPassesActiveTest`).
- A TTL in seconds is multiplied by 1000 in int64, so one far below zero can come back positive and one far above zero negative
  (`NegativeTtlWraps`, `PositiveTtlWraps`); `DeadlineKept` says exactly when the promised deadline is kept.

## Model

| member | source | states |
|---|---|---|
| `Items.CompareToTotalOrder` | internal/data_structure/sorted_set/item.go:8-24 | the comparison is a total order: antisymmetric, transitive, and 0 only for equal pairs |
| `Items.CompareToOrder` | internal/data_structure/sorted_set/item.go:8-24 | -1 exactly if the score is smaller, or the scores are equal and the member comes first in dictionary order: it is a proper prefix, or has the smaller character where the two first differ; 1 the other way round, 0 for equal pairs |
| `BTreeIndexes.BTreeIndex.Add` | internal/data_structure/sorted_set/btree_index.go:26-63 | for any degree from 3 up, adding a pair whose member is not in the leaf its score leads to keeps uniform depth, node sizes, parent pointers and the leaf chain, inserts the pair and nothing else, and returns 1 (0 for the empty member); the contents are the sorted insertion exactly if no larger pair is left of that leaf, and so in particular without ties |
| `BTreeLeaves.AddSortedIff` | internal/data_structure/sorted_set/btree_index.go:33-62 | a new pair gets its place in the order of pairs, and the order is kept, if and only if no larger pair is stored in a leaf left of the one its score leads to |
| `BTreeLeaves.OvertakenByTies` | internal/data_structure/sorted_set/btree_index.go:33-62 | a larger pair can be left of that leaf only if some stored pair has the same score |
| `BTreeIndexes.BTreeIndex.RemoveByScore` | internal/data_structure/sorted_set/btree_index.go:65-94 | returns 1 exactly if the score leads to the leaf of the pair; then just that pair is gone and the tree is rebalanced, otherwise nothing changed; without ties it is 1 exactly if the pair is stored, and there are still no ties |
| `BTreeIndexes.BTreeIndex.HandleUnderflow` | internal/data_structure/sorted_set/btree_index.go:96-138 | from a tree with one node an item short, ends with every node in bounds and the same contents in the same order, by recursion towards the root that terminates |
| `BTreeIndexes.BTreeIndex.MergeWithSibling` | internal/data_structure/sorted_set/btree_index.go:217-295 | a merge keeps contents and order, hands at most one short node to the parent, and ends with a whole tree, root collapse included |
| `BTreeSteps.ShareLeavesDone` | internal/data_structure/sorted_set/btree_index.go:149-215 | borrowing between leaves moves an item and the separator so that the tree stays linked, chained and ordered with the same contents |
| `BTreeSteps.ShareInnerDone` | internal/data_structure/sorted_set/btree_index.go:149-215 | borrowing between internal nodes rotates through the separator and re-parents the moved child; leaves are untouched |
| `BTreeSteps.JoinLeavesDone` | internal/data_structure/sorted_set/btree_index.go:217-295 | joining two leaves drops one separator, bridges the chain and keeps all items in order |
| `BTreeSteps.JoinInnerDone` | internal/data_structure/sorted_set/btree_index.go:217-295 | joining two internal nodes pulls the separator down and re-parents all children; leaves are untouched |
| `BTreeIndexes.BTreeIndex.SplitNode` | internal/data_structure/sorted_set/btree_index.go:426-521 | a node with Degree items is cut, level after level up to a new root, into a tree with all sizes in bounds and the same contents; terminates on the distance to the root |
| `BTreeLeaves.ContentsInOrder` | internal/data_structure/sorted_set/btree_index.go:33-62 | separators and items in order along the leaves mean contents in order of score, and strictly in order of pairs without ties |
| `BTreeLeaves.FindableIff` | internal/data_structure/sorted_set/btree_index.go:69-86 | the descent by score reaches a stored pair exactly if the separator after its leaf is above its score |
| `BTreeLeaves.StrictFindable` | internal/data_structure/sorted_set/btree_index.go:65-94 | without ties, exactly the stored pairs can be found |
| `BTreeLeaves.TiesMislead` | internal/data_structure/sorted_set/btree_index.go:33-62 | three additions with one score at degree 3 split the tie over two leaves, and a fourth, smaller pair then lands behind a larger one |
| `BTreeLeaves.TiedPairMissed` | internal/data_structure/sorted_set/btree_index.go:69-86 | in that tree a stored pair cannot be removed |
| `BTreeIndexes.TiesInTree` | internal/data_structure/sorted_set/btree_index.go:26-94 | the same on tree objects: after three tied additions RemoveByScore of a stored pair returns 0, and a fourth addition leaves the pairs out of order |
| `BTreeIndexes.BTreeIndex.GetRank` | internal/data_structure/sorted_set/btree_index.go:297-318 | the position of the first pair of the member in the contents, or -1 if there is none |
| `BTreeIndexes.BTreeIndex.GetByRank` | internal/data_structure/sorted_set/btree_index.go:320-345 | the pair at that position of the contents, none outside |
| `BTreeIndexes.BTreeIndex.RankThereAndBack` | internal/data_structure/sorted_set/btree_index.go:297-345 | GetRank undoes GetByRank when members are unique |
| `BTreeIndexes.BTreeIndex.GetRange` | internal/data_structure/sorted_set/btree_index.go:347-370 | all pairs with a score in the range and no other, ties or not: the early exit loses none |
| `BTreeIndexes.BTreeIndex.GetRangeByRank` | internal/data_structure/sorted_set/btree_index.go:372-401 | the slice of the contents between two ranks |
| `BTreeIndexes.BTreeIndex.Count` | internal/data_structure/sorted_set/btree_index.go:403-419 | the number of stored pairs |
| `BTreeIndexes.TreeNode` | internal/data_structure/sorted_set/btree_index.go:26-521 | what the invariant means at a node of the heap: leaves at the bottom only, between (degree-1)/2 and degree-1 items except in the root, one more child than items, and each child points back to it |
| `BTreeIndexes.TreeLevel` | internal/data_structure/sorted_set/btree_index.go:426-521 | the children of the nodes of a level, from left to right, are the nodes of the level below, none left out at either end |
| `BTreeIndexes.TreeChain` | internal/data_structure/sorted_set/btree_index.go:347-419 | the chain leads from each leaf to its right neighbour and ends with the last, and the contents are the items along it |
| `SkipLists.SkipListIndex.constructor` | internal/data_structure/sorted_set/skiplist_index.go:54-65 | an empty, well-formed skip list |
| `SkipLists.SkipListIndex.Insert` | internal/data_structure/sorted_set/skiplist_index.go:101-162 | for any level, row i stays the subsequence of nodes taller than i with spans that are level-0 distances, backward links, tail, length and level fit, and the contents are the sorted insertion |
| `SkipLists.SkipListIndex.RemoveByScore` | internal/data_structure/sorted_set/skiplist_index.go:222-242 | returns 1 exactly if the pair is stored and takes out just that pair, with the same invariant, ties or not |
| `SkipLists.ListLink` | internal/data_structure/sorted_set/skiplist_index.go:101-219 | what the invariant means at a link of the heap: it leads to the next node that is tall enough and its span is the distance, or to none and its span is the number of nodes left |
| `SkipLists.ListEnds` | internal/data_structure/sorted_set/skiplist_index.go:101-219 | backward links lead to the node before, the tail is the last node, the length is the number of pairs and the level the greatest height |
| `SkipLists.WrapBack` | internal/data_structure/sorted_set/skiplist_index.go:199-219 | the 32-bit sum of spans less one is right although it may wrap on the way |
| `SkipLists.SkipListIndex.GetRankByScoreAndMember` | internal/data_structure/sorted_set/skiplist_index.go:164-180 | adding up spans gives one more than the position of a stored pair, and 0 for others; the pair (0, ""), which the head looks like, is found exactly if a node of the highest row has a pair not larger |
| `SkipLists.SkipListIndex.FindMember` | internal/data_structure/sorted_set/skiplist_index.go:90-99 | the first node with the member on level 0, none if there is none |
| `SkipLists.SkipListIndex.GetRank` | internal/data_structure/sorted_set/skiplist_index.go:75-86 | the position of the member's first pair whatever the levels, -1 exactly if there is none or it is the pair (0, "") and hidden behind the head |
| `SkipLists.EmptyMemberOverlooked` | internal/data_structure/sorted_set/skiplist_index.go:164-180 | a skip list in which the empty member is stored and its rank is -1 |
| `SortedSets.PositionIsRank` | internal/data_structure/sorted_set/sorted_set.go:58-60 | the position of a pair is the number of members with a smaller pair |
| `SortedSets.SortedSet.Add` | internal/data_structure/sorted_set/sorted_set.go:29-51 | the map gets the score and the result is 1 exactly for a new member; map and index go on holding the same pairs if and only if a member that is moved can be found; order without ties is kept by scores that do not tie |
| `SortedSets.SortedSet.Remove` | internal/data_structure/sorted_set/sorted_set.go:62-78 | returns 1 exactly if the pair of the member can be found, and map and index hold the same pairs either way |
| `SortedSets.AllFound` | internal/data_structure/sorted_set/sorted_set.go:62-78 | over a skip list, and over a tree without ties, every member of the map can be found |
| `SortedSets.SortedSet.GetRank` | internal/data_structure/sorted_set/sorted_set.go:58-60 | the place of the member's pair, -1 exactly if it has none; over a skip list, and over a tree without ties, the number of smaller pairs counted on the map alone |
| `SortedSets.Run` | internal/data_structure/sorted_set/sorted_set.go:29-78 | over either index every run gives the replies of the score map alone; over the tree if it is free of ties |
| `SortedSets.SameAnswers` | internal/data_structure/sorted_set/sorted_set_interfaces.go:4-16 | a tree of any degree and a skip list with any levels answer a run without ties alike |
| `Protocol.ExecuteAndResponse` | internal/core/worker.go:54-124 | a worker's command on its dictionary object gives exactly the new state and the reply that the state machine's steps give, eviction, error replies and the second look at the clock included |
| `Delivery.PlacedStep` | internal/server/io_handler.go:88-120 | every step keeps each task in exactly one place (handler, queue, worker, reply channel) with its own handler waiting for it |
| `Delivery.Reachable` | internal/core/worker.go:126-143 | in every reachable state tasks are in place and the history has their events in order |
| `Delivery.AtMostOnce` | internal/core/worker.go:109-124 | a task is executed at most once and answered at most once |
| `Delivery.OwnReply` | internal/server/io_handler.go:111-119 | a handler gets the reply of its own task, executed for the command it read |
| `Delivery.RealTimeOrder` | internal/server/io_handler.go:111-119 | a command answered before another was read was executed before it |
| `Delivery.FirstComeFirstServed` | internal/core/worker.go:126-143 | in every interleaving a worker executes tasks in the order in which they came into its queue |
| `Delivery.SendNeverBlocks` | internal/core/worker.go:109-124 | a worker never blocks at the send of a reply |
| `Delivery.OutstandingBound` | internal/server/io_handler.go:88-120 | never more tasks out than I/O handlers |
| `Delivery.DispatchNeverBlocks` | internal/server/server.go:42-54 | with no more handlers than slots in a task channel, a dispatch never blocks |
| `Delivery.NoDeadlock` | internal/server/io_handler.go:111-119 | whenever a handler waits, some working step can be taken |
| `Delivery.WorkIsBounded` | internal/core/worker.go:126-143 | in every interleaving a command costs at most six working steps |
| `Delivery.QuietMeansAnswered` | internal/server/io_handler.go:111-119 | when no working step is left, every command read has been answered |
| `Linear.OneHome` | internal/server/server.go:36-54 | a key is only ever in the dictionary of the worker with the number hash(key) modulo the number of workers, under any eviction |
| `Linear.Linearizable` | internal/core/worker.go:70-143 | in every interleaving and under any eviction, all replies are those of one sequential store that runs the commands in execution order, at times that do not run backwards |
| `Linear.NothingEvicted` | internal/data_structure/hash_table/dict.go:88-93 | as long as no SET finds its dictionary full, that store loses a key only at its deadline |
| `Linear.RepliesByArgs` | internal/core/worker.go:54-124 | SET is answered OK exactly if it has a key and a value, alone or with a third argument and a number; PING, wrong numbers of arguments and unknown commands get their fixed replies |
| `Linear.ReadYourWrites` | internal/core/worker.go:70-107 | in every interleaving a GET executed after a SET of its key gets the second argument of that SET, until 1000 times the number of seconds has passed, unless the key was set or evicted in between; the deadline is there unless the eviction that the SET itself set off hit its key |
| `Linear.NeverWritten` | internal/core/worker.go:88-107 | a GET of a key that no execution before it has set gets nothing |
| `Dicts.RefinesGet` | internal/data_structure/hash_table/dict.go:68-86 | a read with lazy deletion finds exactly the live keys, with their values and deadlines, and cannot be seen from outside |
| `Dicts.RefinesSet` | internal/data_structure/hash_table/dict.go:45-57 | an overwrite replaces value and deadline, also when the old TTL was longer or there is no new one |
| `Dicts.Dict.EvictRandom` | internal/data_structure/hash_table/dict.go:95-105 | exactly the configured number of keys goes, or all of them if there are not so many or that number is not positive, from both maps alike, in any map order |
| `Dicts.Dict.Set` | internal/data_structure/hash_table/dict.go:88-93 | nothing is evicted below capacity and the configured number of keys at capacity, the key then has the value, all other keys that stay are as before, and the store stays within capacity |
| `Dicts.Dict.SetWithTtl` | internal/data_structure/hash_table/dict.go:45-57 | although the TTL is set before the eviction, no TTL is left without its key, and below capacity the new state is the intended one |
| `Dicts.TruncateIs` | internal/data_structure/hash_table/dict.go:95-105 | the number to evict is the whole part of the product, cut towards zero whatever the sign |
| `Expiry.ActiveDeleteExpiredKeys` | internal/core/expire.go:9-29 | for any sampling order and clock it terminates and leaves no TTL without its key; its last round had a sample of 20 keys with a TTL, or all of them, deleted all in it that had expired, and found at most two; only expired keys go (below 2^63), and with at most 20 TTLs all that had expired at the start are gone |
| `Expiry.Round` | internal/core/expire.go:13-24 | a round takes a sample of min(20, number of TTLs) keys with a TTL, deletes each in it that has expired by the start of the round and nothing outside it, and counts the deletions |
| `Expiry.NothingLeft` | internal/core/expire.go:9-29 | with at most 20 TTLs no key that passes the test at the start is left in the TTL map |
| `Expiry.ActiveTestExact` | internal/core/expire.go:20-23 | the test is passed exactly by deadlines in the past and by those of 2^63 and more |
| `Expiry.LiveKeyPassesActiveTest` | internal/core/expire.go:20-23 | a key set to live for 9223372036854775 seconds is live and passes the test at once |
| `Expiry.RefinesPass` | internal/core/expire.go:9-29 | with deadlines below 2^63 a pass cannot be seen from outside |
| `Executor.DeadlineKept` | internal/core/executor.go:29-51 | the stored deadline is the promised one if and only if a positive TTL in milliseconds is below 2^63, or one that is not positive does not wrap to a positive one |
| `Executor.NegativeTtlWraps` | internal/core/executor.go:29-51 | a TTL of -9223372036854776 seconds gives the key a deadline |
| `Executor.PositiveTtlWraps` | internal/core/executor.go:29-51 | a TTL of 9223372036854776 seconds gives the key none, so it lives for ever |
| `Executor.CmdSet` | internal/core/executor.go:29-51 | with two arguments, or four of which the third is EX and the fourth a number: the first argument then has the second as its value and the current access time, and, below capacity, the deadline now + 1000 times the fourth if that is positive and fits an int64, none otherwise, with all other keys as they were; at capacity the configured number of keys goes; any other arguments get the error for them and change nothing; capacity is kept and no TTL left alone |
| `Executor.ReadSetIs` | internal/core/executor.go:29-51 | which arguments SET accepts, which error the others get, and which of them are the key, the value and the seconds |
| `Executor.CmdGet` | internal/core/executor.go:53-69 | the stored value exactly if the key is stored and its deadline, if any, is after the second reading of the clock; the key gets the current access time, or goes if it had expired; no other key changes |
| `Executor.CmdTtl` | internal/core/executor.go:71-92 | -2 if the key is not stored or its deadline has passed at the third reading of the clock, -1 if it has no deadline, and else the whole seconds from the second reading to the deadline; the state changes as for GET |
| `Runs.StepMirrors` | internal/core/executor.go:29-92 | one command or pass keeps the dictionary standing for the ideal store, given room for a SET, a TTL that survives int64, and for a pass no deadline beyond int64 |
| `Runs.Run` | internal/core/executor.go:29-92 | for every run of commands and active-expiry passes: TTLs belong to stored keys and capacity is kept; as long as no SET finds the store full or has a TTL that int64 spoils, and no pass meets a deadline beyond int64, all replies are those of a map whose keys vanish at their deadline; expired keys that were deleted have made room |
| `Runs.SetThenRead` | internal/core/executor.go:29-92 | in the ideal store, after SET k v or SET k v EX n at time t and no further SET of k: GET k gives v, with EX only before t + 1000 n; TTL k gives -1 without EX, and else the seconds left, or -2 from then on |
| `Runs.NeverSet` | internal/core/executor.go:53-92 | GET and TTL of a key that was never set give nil and -2 |
| `Runs.GetAfterSet` | internal/core/executor.go:29-69 | the same on the dictionary: a run of the code that sets a key, does anything else and gets the key ends with the value of the SET or nil from its deadline on, as long as no SET finds the store full and int64 is not exceeded |
| `Runs.RoomyRun` | internal/core/executor.go:29-92 | if there is room for all keys ever set, and TTLs and deadlines fit an int64, no SET finds the store full, whatever was sampled and deleted |
| `Runs.PassesDoNotShow` | internal/core/expire.go:9-29 | two dictionaries for the same store, one swept by passes anywhere in the run and one never, give the same replies as long as no SET finds either full, and so always if there is room for all keys ever set |
| `Resp.HeaderRead` | internal/core/resp.go:24-56 | every int64 is read back with its exact length, the least one because its overflow wraps back |
| `Resp.RoundTrip` | internal/core/resp.go:59-153 | decoding an encoding, whatever follows it, gives the value back and consumes exactly its bytes, for any nesting of arrays, byte strings and int64s |
| `Resp.WireForm` | internal/core/resp.go:110-153 | the bytes of each kind of value: 36 for bulk strings, 58 for integers, 42 for arrays, then the length or number in decimal, then 13 and 10 |
| `Resp.DecimalIs` | internal/core/resp.go:110-153 | the decimal form is digits whose place values add up to the number, without leading zeros, after a 45 if it is negative |
| `Resp.WireDispatch` | internal/core/resp.go:86-103 | 43 and 45 are read as lines, 36 as a bulk string, 58 as an integer, 42 as an array with as many items as its header says, and any other byte as the text for unknown types |
| `Resp.WireRead` | internal/core/resp.go:24-66 | these bytes, whatever follows them, are read as that string and that integer with their exact lengths |
| `Resp.PlusSign` | internal/core/resp.go:24-46 | a plus sign before the digits changes nothing, and after a minus sign it takes that back |
| `Resp.NullBulk` | internal/core/resp.go:59-66 | a null bulk string is read as the text of that name, two bytes past its end |
| `Resp.PrefixFree` | internal/core/resp.go:110-153 | no encoding begins another, and different values are encoded differently |
| `Resp.LineRoundTrip` | internal/core/resp.go:15-21 | a simple string or error comes back exactly if it has no carriage return in it |
| `Resp.ReadInt64` | internal/core/resp.go:24-46 | the loop computes the int64 that the round-trip lemmas are about, out-of-range reads included |
| `Resp.ReadItems` | internal/core/resp.go:68-84 | the loop of readArray reads one value after the other, as the round-trip lemmas have it |
| `Resp.DecodeOne` | internal/core/resp.go:86-103 | the dispatch on the first byte computes the function that the round trip and the wire format lemmas are about, with its error cases |
| `Resp.Encode` | internal/core/resp.go:123-153 | the printing loop computes the encoding that the round trip and the wire format lemmas are about |
| `Resp.ParseCmd` | internal/core/resp.go:155-194 | the tokens of what was decoded, the first in upper case; failure for no data or no tokens; `ParseItems` and `ParseSingle` say which tokens these are |
| `Resp.ParseEncoded` | internal/core/resp.go:155-194 | a command sent as an array of strings arrives unchanged but for the upper case, whatever bytes follow, so the zero padding of the read buffer does no harm |
| `Resp.ParseItems` | internal/core/resp.go:155-194 | any array that was encoded arrives as as many tokens as it has items: a string as it is, an integer as the decimal text that reads back as that integer |
| `Resp.ParseSingle` | internal/core/resp.go:155-194 | a single integer is a command of its own, with a text that reads back as it; a single string is split at white space; nothing, or only white space, is a failure |
| `LruPools.LruEvictionPool.Push` | internal/data_structure/hash_table/eviction_lru.go:35-61 | the pool stays sorted, with unique keys and within its size, for any sorting; a known key then has the new access time and the size is the same, and candidates of other keys are as they were; of too many the newest is dropped |
| `LruPools.EnteredContents` | internal/data_structure/hash_table/eviction_lru.go:35-61 | the candidate is in, any other with its key is out, all others stay |
| `LruPools.LruEvictionPool.Pop` | internal/data_structure/hash_table/eviction_lru.go:64-71 | takes out a candidate with the least access time, none if the pool is empty |
| `LruPools.LruEvictionPool.PushAll` | internal/data_structure/hash_table/eviction_lru.go:79-92 | after pushes of different keys the pool has exactly the oldest times of all pushed |
| `LruPools.OldestInsert` | internal/data_structure/hash_table/eviction_lru.go:55-60 | cutting the pool before a push loses nothing of the oldest times after it |
| `CountMin.IndexInjective` | internal/data_structure/probabilistic/cms.go:34-36 | different cells are at different places of the flat array |
| `CountMin.CMS.IncrBy` | internal/data_structure/probabilistic/cms.go:46-65 | every cell goes on being the saturated sum of the increments hashed to it, and the result is what Count would now say |
| `CountMin.CMS.Count` | internal/data_structure/probabilistic/cms.go:68-80 | the least of the item's cells, as sums over the history |
| `CountMin.NeverUnder` | internal/data_structure/probabilistic/cms.go:46-80 | the estimate never falls below the saturated true count |
| `CountMin.ExactIfAlone` | internal/data_structure/probabilistic/cms.go:46-80 | the estimate is exact if some row has no collision |
| `CountMin.ExactWithoutCollision` | internal/data_structure/probabilistic/cms.go:46-80 | the estimate is the true count if in some row no other item that was counted has the same hash modulo the width |
| `CountMin.SameColumn` | internal/data_structure/probabilistic/cms.go:46-80 | two items share a column of a row exactly if their hashes with that row as the seed agree modulo the width |
| `CountMin.TrueCountGrows` | internal/data_structure/probabilistic/cms.go:46-65 | the true count is 0 at first, grows by the value of each increment of the item, and not by those of others |
| `CountMin.SameCounters` | internal/data_structure/probabilistic/cms.go:46-65 | the counters do not depend on the order of increments |
| `Blooms.NoFalseNegatives` | internal/data_structure/probabilistic/bloom.go:64-86 | the probes of what was added are all marked, whatever was added besides |
| `Blooms.MarkedIs` | internal/data_structure/probabilistic/bloom.go:64-107 | a position is marked exactly if it is one of the probes of something that was added |
| `Blooms.ProbeSteps` | internal/data_structure/probabilistic/bloom.go:64-107 | the first probe is at the first half of the hash, and each further one as far on as the second half says, around the filter, as long as the sum stays in 64 bits |
| `Blooms.WordSet` | internal/data_structure/probabilistic/bloom.go:64-73 | setting a bit in a 64-bit word marks its position and no other |
| `Blooms.Bloom.constructor` | internal/data_structure/probabilistic/bloom.go:35-55 | the size is rounded up to whole words, by less than 64 bits, and no position is marked |
| `Blooms.Bloom.AddHash` | internal/data_structure/probabilistic/bloom.go:88-95 | the words stand for the union of the probe positions of all that was added, with every access in bounds |
| `Blooms.Bloom.ExistHash` | internal/data_structure/probabilistic/bloom.go:97-107 | true exactly if all probe positions are marked |
| `Blooms.Bloom.Add` | internal/data_structure/probabilistic/bloom.go:64-73 | the same as adding the hash of the entry |
| `Blooms.Bloom.Exist` | internal/data_structure/probabilistic/bloom.go:75-86 | the same as testing the hash of the entry; never false for an entry that was added |

## Left out

- BTreeIndexes.BTreeIndex.Add: does not model finding the member in the leaf its score leads to; the code then changes the score in place, in an item that may also be a separator, and does not move it. `SortedSet` comes there only with a member it could not find.
- BTreeIndexes.BTreeIndex.constructor: degrees 1 and 2 are excluded; degree 1 splits for ever, degree 2 never rebalances.
- SkipLists.SkipListIndex.Insert: fewer than 2^32 nodes, as the spans are 32 bits wide; the random choice of the level is a parameter, so that the choice ends with probability 1 is not stated.
- SortedSets.SortedSet.Add: the same case is excluded: a member that is moved, cannot be found, and has its old pair in the leaf the new score leads to.
- SortedSets.Run: over the tree, runs with ties are not compared with the score map, as a member may then be missed; `SortedSet.Add` and `SortedSet.Remove` say what one step does there.
- Runs.Run: replies after a SET that found the store full are not compared with the ideal store, as the eviction may hit any key; that no TTL is left without its key and that the capacity is kept is proved there, too.
- Resp.RoundTrip: null bulk strings and malformed input are outside the round trip; the functions model them as they are read, except that a slice beyond the data counts as out of range even where Go would let it reach into spare capacity.
- Resp.Encode: the separate loops for `[]string` and `[][]string` print what the general one prints and have no members of their own.
- LruPools.LruEvictionPool.PushAll: the sampling of keys and the eviction from the pool, and with them the capacity under LRU, are not modelled; the pool may hold keys that are gone.
- Expiry.ActiveDeleteExpiredKeys: the workers' dictionaries are never swept by the code, so passes are modelled for the single dictionary only.
- CountMin.CMS.constructor: a width of 0 is excluded, on which the code divides by zero, and so are dimensions whose product exceeds 64 bits.
- Blooms.Bloom.constructor: a size of 0 bits is excluded, on which the code divides by zero.
- NaN and infinite scores; floating-point rounding.
- Shutdown, sockets, polling, listeners, the HTTP gateway, the terminal UI and statistics.
- LFU eviction, which is unfinished in the code.
- The floating-point sizing of both sketches, their error rates, and the insides of the hash functions.
- Simple sets, HELP, INFO and the wording of error messages, which would only add easy members.
- `deleteByNode` and `Clear`, which nothing calls or which only assign a new root.
