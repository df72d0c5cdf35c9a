# A verified model of miniredis

miniredis is a small Redis server in C: a hash table of keys, five value types, an append-only log (AOF) with background rewriting, binary snapshots (RDB), lazy and active expiry, and an incremental parser for the Redis serialization protocol (RESP). This project models its hard parts in Dafny and proves what they promise.

`dafny verify dfyconfig.toml` checks everything.

## How the model is laid out

| files | part of the server |
|---|---|
| `Collections` | facts about sequences and sets that several parts share |
| `Orders`, `SkipList`, `ZSet`, `Indexing`, `ZRange` | the span-indexed skip list as linked nodes in the heap, the sorted set on top of it, and its range reads |
| `Bits`, `Dict`, `DictIter`, `SetCommands`, `ExpireCycle` | the chained hash table in the heap, its iterator, SINTER and SDIFF over it, and the expire cycle that deletes while it walks |
| `List` | the doubly linked list and the walks of LTRIM, LREM and LINSERT |
| `Glob`, `GlobLaws`, `Ints` | the glob matcher, what patterns mean byte by byte, and the bounded integer parser |
| `Resp`, `Client` | the incremental command parser and the drain loop of a connection |
| `Keyspace`, `Requests` | what a command means: a store is a map from key to value and expiry, and `Exec` gives the store and the reply after a request; `Decode` is the dispatch table with its argument checks |
| `Db` | the same commands as the server performs them, loop by loop, proved against `Exec` |
| `CommandLaws`, `ContainerLaws` | what each command answers and leaves behind, stated on argument vectors and the store before and after |
| `Expiry`, `Containers`, `Clocks`, `NulFreedom` | properties of all commands: expiry cannot be seen, no empty container is stored, what depends on the clock, what a C string can carry |
| `Aof`, `Rewrite`, `Repeats`, `Protocol`, `Unguarded` | the log: writing, replaying, rewriting a store into batches of commands, which commands may run twice, the parent/child rewrite as a state machine with the byte buffers that implement it, and what that machine does when a reap or a REWRITEAOF comes at the wrong time |
| `RdbCodec`, `Rdb` | the snapshot format, its writer and its reader |

The heap structures are classes with a `Valid()` invariant; each of their operations is proved against a function of the old contents. The picture of a skip list is a ghost sequence of nodes: the link of node p on level i must be the least q > p whose node is taller than i, its span q - p, or NULL with span length - p. The clock, hashing, random heights, and the conversions of doubles to text and to bit patterns are parameters. What is asked of a conversion is asked only for the scores that the value or store at hand holds; `Rewrite.IntegersOk`, `Rdb.IntegersOk` and `Protocol.SortedSetReached` show conversions, stores and states that meet it.

## Results that are false as one might state them

Each is proved as an equivalence with the exact condition, beside an example that breaks it.

- A rewritten log rebuilds the store exactly when no key or value holds a NUL byte, no container is empty, no expiry is negative other than -1, and no string has expired (or expires at time 0) when it is replayed: `NulFreedom.RewriteExact`, `Rewrite.RebuiltExact`, `Rewrite.PastExpiryForgotten`.
- The rewritten log agrees with the live store over every run in which a reap during a rewrite comes only after the rewrite child's swap and REWRITEAOF only outside a rewrite: `Protocol.RewriteLosesNothing`. `reap_children` does not check which child exited, and REWRITEAOF does not look for a rewrite in progress.
  - At the moment after a reap the file is right exactly when the rewrite child has swapped its file in, or repeating the mirrored commands changes nothing; after REWRITEAOF exactly when repeating them changes nothing. For mirrors of pushes, SADD, HSET, plain SET, DEL and FLUSHALL there is a test on the commands: every list that the mirror pushes to is also overwritten by it. `Unguarded.ReapExact`, `Unguarded.RewriteNowExact`, `Unguarded.EarlyReapTest`, `Unguarded.RewriteNowTest`, `Unguarded.EarlyReapDuplicates`.
  - For good: if the child has ended, the same condition decides about every later guarded run (`Unguarded.ReapSettles`, `Unguarded.DeadReapTest`). If it is still at work, its rename takes the file back to the snapshot after an early reap, and to the snapshot and what followed the REWRITEAOF after a REWRITEAOF, whatever comes later: `Unguarded.EarlyReapForgets`, `Unguarded.RewriteNowForgets`, `Unguarded.RewriteNowRepeats`, `Unguarded.EarlyReapLoses`, `Unguarded.RewriteNowLoses`.
- The length announced by ZRANGEBYSCORE LIMIT is right exactly when the offset is at most the number of matches, or there are none: `ZRanges.ZRangeByScore`, `ZRanges.AnnouncementFails`.
- The count announced by KEYS is the number of keys emitted exactly when no key that the first pass counted has expired by the time the second comes to it: `Databases.Db.Keys`, `Databases.KeysFails`.
- A command stores an empty container exactly when it is ZADD with a bad first score, or HINCRBYFLOAT by infinity, on a missing key: `Containers.StepNoEmpty`, `Containers.BadScoreLeavesEmpty`, `Containers.InfiniteSumLeavesEmpty`.
- The matcher accepts exactly the language of a pattern unless the pattern has a literal byte of 128 or more and its language is not empty: `Globs.GlobExact`, `Globs.HighLiteralFails`.
- DEL's count does not depend on lazy expiry exactly when none of its keys lies expired in the table: `Expiry.DelCountExact`, `Expiry.DelFails`.
- The integer parser inverts printing exactly on magnitudes up to 2^63 - 1, so not at -2^63: `Ints.ParsePrint`.

## Model

| member | source | states |
|---|---|---|
| `Orders.MemberCmpIsLex` | src/zskiplist.c:10-15 | the sign of the member comparison decides the lexicographic order of byte strings, and zero means equal bytes |
| `Orders.KeyLtTrichotomy` | src/zskiplist.c:118-129 | of two (score, member) keys exactly one is smaller unless they are equal |
| `Orders.LexFirstDifference` | src/zskiplist.c:10-15 | the order of byte strings is decided by the first byte in which they differ, or by the end of the shorter one |
| `Orders.ScoreOrder` | src/zskiplist.c:118-129 | scores are in the order of their numbers, between the two infinities |
| `Orders.KeyLtPrecedes` | src/zskiplist.c:118-129 | the code's test holds if and only if the score is smaller, or equal and the member's bytes come first |
| `SkipLists.NextInserted` | src/zskiplist.c:142-150 | where the next node taller than a level lies after an insertion, for every position and level |
| `SkipLists.LevelInserted` | src/zskiplist.c:142-150 | a level shows the right links and spans after an insertion if its two touched links do and the others held before |
| `SkipLists.LevelRemoved` | src/zskiplist.c:55-63 | the same for the removal of a node |
| `SkipLists.HeaderLink` | src/zskiplist.c:69-72 | the header's link on a level is NULL exactly when no node reaches that level |
| `SkipLists.HaltIsCut` | src/zskiplist.c:118-129 | where the descent halts on level 0, everything before passes the test and nothing behind does |
| `SkipLists.HaltIsPred` | src/zskiplist.c:118-129 | where the descent halts on a higher level is the predecessor of that place on the level |
| `SkipLists.RankElementInverse` | src/zskiplist.c:187-224 | rank and element-by-rank undo each other on every position, and absent keys have rank 0 |
| `SkipLists.LinkAll` | src/zskiplist.c:142-150 | both linking loops together move every level to the picture with the new node, whatever its height |
| `SkipLists.UnlinkAll` | src/zskiplist.c:55-63 | the unlinking loop moves every level to the picture without the node |
| `SkipLists.SkipList.constructor` | src/zskiplist.c:77-94 | an empty list satisfies the whole invariant |
| `SkipLists.SkipList.Search` | src/zskiplist.c:118-129 | update[] and rank[] hold, for every level, the last node before the key and its position |
| `SkipLists.SkipList.Insert` | src/zskiplist.c:112-160 | for every height in 1..32 and every key not yet present, the list becomes the old one with the new node at its sorted place, ascending by score and by the member's bytes among equal scores, and the whole invariant is kept: order, links, spans, backward pointers, tail, level count |
| `SkipLists.ListOrder` | src/zskiplist.c:118-129 | every sound list is ascending by score, and by the bytes of the member among equal scores |
| `SkipLists.SkipList.DeleteNode` | src/zskiplist.c:55-73 | unlinking the node at a position keeps the whole invariant and lowers the level count until the top level is in use |
| `SkipLists.SkipList.Delete` | src/zskiplist.c:162-185 | reports whether the key was present, removes exactly that node, and keeps the whole invariant |
| `SkipLists.SkipList.GetRank` | src/zskiplist.c:187-209 | the 1-based position of the key in the sorted sequence, 0 if it is absent |
| `SkipLists.SkipList.GetElementByRank` | src/zskiplist.c:211-224 | the node at that position, NULL outside 1..length |
| `SkipLists.SkipList.FirstInScoreRange` | src/zskiplist.c:226-236 | the first node that meets the lower bound, inclusive or not, or NULL |
| `SkipLists.SkipList.LastInScoreRange` | src/zskiplist.c:238-249 | the last node that meets the upper bound, inclusive or not, or NULL |
| `ZSets.OneNodePerMember` | src/zskiplist.c:268-292 | each member occurs at one position and the length is the number of members |
| `ZSets.ZSet.Add` | src/zskiplist.c:272-292 | the member has the new score, nothing else changes, hash table and list still agree, and 1, 2 or 0 says new, moved or same |
| `ZSets.ZSet.Remove` | src/zskiplist.c:294-300 | the member is gone from hash table and list, nothing else changes, and the result says whether it was there |
| `ZSets.ZSet.GetScore` | src/zskiplist.c:302-307 | the score of the member, if it is there |
| `ZSets.ZSet.Run` | src/zskiplist.c:272-307 | any run of additions and removals with any heights ends with the map the run describes, hash table and list in agreement |
| `Indexing.Normalize` | src/db.c:151-161 | the block of indices it returns is exactly the set of positions the range covers, and it reports void exactly when there are none |
| `Indexing.SliceOfNormal` | src/db.c:151-161 | cutting at the normalised ends gives the slice that the range denotes |
| `Indexing.Ends` | src/db.c:151-161 | 0 is the first index, -1 the last, and 0 to -1 everything |
| `ZRanges.SelectIsBlock` | src/db.c:1965-1982 | the nodes of a sorted list that meet both bounds are the contiguous block between the two cuts |
| `ZRanges.RangeOfNumbers` | src/db.c:1931-1949 | bounds mean the four kinds of interval, and infinite bounds let every score through |
| `ZRanges.Ends` | src/db.c:1965-1978 | the two end nodes and their ranks delimit exactly the selected nodes; NULL when there are none, also for min > max |
| `ZRanges.ZCount` | src/db.c:2084-2119 | the number of nodes whose score meets both bounds, for every min, max and exclusivity |
| `ZRanges.CountIsMembers` | src/db.c:2106-2118 | that number is the number of members of the set whose score meets both bounds |
| `ZRanges.EmitCountIsPage` | src/db.c:1990-1992 | the clamp is the length of the page while the offset is within the selection, and negative beyond it |
| `ZRanges.ItemsList` | src/db.c:1903-1911 | with scores, element 2i is the i-th member and element 2i + 1 its score; without, element i is the i-th member |
| `ZRanges.ZRangeByScore` | src/db.c:1965-2000 | emits exactly the page of the selection in order, each member followed by its score if scores are wanted; the announced length equals it if and only if the selection is empty or the offset is within it, and beyond it is 2^64 less the overshoot |
| `ZRanges.AnnouncementFails` | src/db.c:1990-2000 | on every list with one match, LIMIT 2 with any count announces 2^64 - 1 elements and emits none |
| `ZRanges.ZRange` | src/db.c:1889-1912 | announces and emits the slice of the list, or of the reversed list, that the two indices denote, each member followed by its score if scores are wanted |
| `Bits.MaskIsMod` | src/dict.c:39 | masking with size - 1 is the remainder when the size is a power of two |
| `Dicts.BucketIndex` | src/dict.c:58-62 | the bucket of a key is its hash modulo the table size |
| `Dicts.Dict.constructor` | src/dict.c:24-31 | an empty table stands for the empty map |
| `Dicts.Dict.Find` | src/dict.c:58-66 | the chain walk finds the entry of the key and its predecessor, or NULL exactly when the key is absent |
| `Dicts.Dict.Get` | src/dict.c:58-66 | the value the map holds for the key |
| `Dicts.MoveChain` | src/dict.c:36-43 | moving one old chain puts each of its entries into its new bucket and loses none |
| `Dicts.Dict.Resize` | src/dict.c:33-48 | every entry is relinked into the fresh table and the map is the same |
| `Dicts.Dict.Grow` | src/dict.c:50-56 | the map is the same and there is room for one more entry within three quarters of the size |
| `Dicts.Dict.Set` | src/dict.c:68-90 | the map gains or replaces the key, the old value is returned, and the table invariant holds through any resize |
| `Dicts.Dict.Delete` | src/dict.c:92-111 | the map loses the key, the old value is returned, and only that entry leaves its chain |
| `Dicts.Dict.Run` | src/dict.c:33-111 | any run of insertions and deletions through any resizes stands for the map the run describes |
| `Dicts.TableShape` | src/dict.c:33-111 | `used` is the map's size, size is 0 or 16 times a power of two, 4 * used <= 3 * size, every key has one entry and it lies in bucket hash mod size |
| `DictIters.OrderExact` | src/dict.c:133-156 | the iteration order holds every key exactly once |
| `DictIters.DictIter.constructor` | src/dict.c:133-137 | a new iterator stands before the first entry |
| `DictIters.DictIter.Next` | src/dict.c:139-156 | the n-th call returns the n-th entry of the order, and every call after the last returns NULL |
| `SetCommands.Qualifies` | src/db.c:1609-1639 | the inner loop decides membership in every other set, or in none of the later ones |
| `SetCommands.Sinter` | src/db.c:1588-1641 | announces as many members as it emits, emits each once, and they are the true intersection although only a smallest set is iterated |
| `SetCommands.Sdiff` | src/db.c:1673-1719 | announces as many members as it emits, emits each once, and they are the true difference |
| `ExpireCycles.Sweeper.SweepBucket` | src/db.c:72-81 | walking a chain while deleting from it removes only expired entries and leaves none that had expired before the walk |
| `ExpireCycles.Sweeper.Cycle` | src/db.c:61-84 | under a clock that never goes back a call removes only expired keys, passes at least one bucket, begins none after 200 entries, stops earlier only at the end of the table, and clears the buckets it passes of what had expired when it started |
| `ExpireCycles.Sweeper.CycleAll` | src/db.c:61-84 | after as many calls as there are buckets every key that had expired before the first is gone, and no live key is |
| `ExpireCycles.CycleIsSweep` | src/db.c:61-84 | what a cycle does to the store is exactly a sweep, the event that `Expiry` proves invisible |
| `Lists.LinkedList.constructor` | src/list.c:7-13 | a new list holds the empty sequence |
| `Lists.LinkedList.PushHead` | src/list.c:39-46 | prepends, with both directions of links and both ends right |
| `Lists.LinkedList.PushTail` | src/list.c:48-55 | appends, with both directions of links and both ends right |
| `Lists.LinkedList.PopHead` | src/list.c:57-67 | returns and removes the first element, or nothing from an empty list |
| `Lists.LinkedList.PopTail` | src/list.c:69-79 | returns and removes the last element, or nothing from an empty list |
| `Lists.LinkedList.InsertAfter` | src/list.c:89-104 | splices the value in behind the node, or at the head for NULL |
| `Lists.LinkedList.Detach` | src/list.c:106-116 | removes exactly the node, wherever it stands |
| `Lists.LinkedList.NodeAt` | src/list.c:134-148 | the indexed node from whichever end is nearer, negative indices from the tail, NULL out of range |
| `Lists.LinkedList.Trim` | src/db.c:1028-1053 | the list becomes the slice the range denotes, and it reports empty exactly when that slice is |
| `Lists.LinkedList.RemoveForward` | src/db.c:1080-1091 | drops the first matches up to the limit, all for no limit, while detaching under its own walk |
| `Lists.LinkedList.RemoveBackward` | src/db.c:1092-1102 | drops the last matches up to the limit |
| `Lists.LinkedList.Remove` | src/db.c:1080-1103 | the list becomes what LREM means and the count is the number of elements gone |
| `Lists.RemovedExact` | src/db.c:1080-1103 | LREM removes exactly the min(\|count\|, occurrences) matches nearest to its end, all when count is 0, and keeps the order of the rest |
| `Lists.LinkedList.Insert` | src/db.c:1131-1143 | splices beside the first pivot and returns the new length, or changes nothing and returns -1 exactly when there is no pivot |
| `Lists.LinkedList.Range` | src/db.c:935-949 | announces and emits the slice that the range denotes |
| `Globs.GlobClass` | src/util.c:149-181 | decides membership in the class (ranges, negation, leading bracket) and finds the pattern behind it; an unterminated class matches nothing; `GlobLaws` says what a class means |
| `Globs.GlobRec` | src/util.c:183-206 | terminates and accepts exactly the strings that some way of splitting the subject at the stars matches |
| `GlobLaws.StarPattern` | src/util.c:186-193 | a star before a pattern takes exactly the subjects of which some suffix is taken by the pattern |
| `GlobLaws.AnyBytePattern` | src/util.c:195-197 | a question mark takes one byte, whatever it is |
| `GlobLaws.BytePattern` | src/util.c:204-205 | any other byte below 128 takes itself |
| `GlobLaws.ClassThen` | src/util.c:199-202 | a class takes one byte and the pattern behind it takes the rest |
| `GlobLaws.NegatedClass` | src/util.c:151-155 | a class behind `^` or `!` takes exactly the bytes that the same class without the mark refuses |
| `GlobLaws.RangeClass` | src/util.c:164-168 | a range takes exactly the bytes from its first to its last |
| `GlobLaws.ByteClass` | src/util.c:169-171 | a single byte in a class takes itself, also a closing bracket |
| `GlobLaws.ClassUnion` | src/util.c:159-172 | a class takes what its first member takes or what the others take |
| `GlobLaws.BracketMember` | src/util.c:159 | a closing bracket that comes first is a member |
| `GlobLaws.UnclosedClass` | src/util.c:174-177 | a class without its closing bracket takes nothing |
| `Globs.GlobExact` | src/util.c:183-210 | agrees with the declared language on every subject if and only if the pattern has no literal byte above 127 or its language is empty |
| `Globs.HighLiteralFails` | src/util.c:204 | the pattern of the single byte 233 does not match that byte |
| `Ints.StringToLL` | src/util.c:115-139 | accepts exactly an optional sign and digits of magnitude at most 2^63 - 1, with their value |
| `Ints.ParsePrint` | src/util.c:115-139 | reading back a printed number gives that number if and only if its magnitude is at most 2^63 - 1 |
| `Ints.Decimal` | src/util.c:115-139 | -105 is printed and read in decimal with its sign in front |
| `Ints.NoNumber` | src/util.c:115-139 | nothing, a sign alone, or anything but digits behind the first byte is no number |
| `Resp.GetLine` | src/resp.c:41-54 | the first line if its CRLF has arrived, and nothing otherwise |
| `Resp.ParseBuffer` | src/resp.c:56-101 | bytes consumed and arguments of a complete frame, 0 for an incomplete one, -1 for a protocol error |
| `Resp.CommandStable` | src/resp.c:56-101 | a complete frame or an error stays what it is whatever bytes follow |
| `Resp.StrictPrefixIsMore` | src/resp.c:56-101 | every strict prefix of a complete frame asks for more |
| `Resp.CommandRoundTrip` | src/resp.c:56-101 | parsing inverts printing for every command within the caps, whatever follows it |
| `Resp.FrameBytes` | src/resp.c:56-101 | the frame of INCR k, byte by byte |
| `Clients.DrainAppend` | src/server.c:249-272 | draining a stream in two parts dispatches what draining it at once does |
| `Clients.ChunkingIndependence` | src/server.c:238-272 | two ways of cutting the same stream into reads dispatch the same commands and end the same way |
| `Clients.DrainIsFrames` | src/server.c:249-272 | for every stream, the commands dispatched are the frames that lie end to end from its start, each once, up to the first that quits, is not whole or is malformed |
| `Clients.DrainCommands` | src/server.c:249-272 | commands that do not quit, followed by anything, are dispatched in order, each once, before what follows |
| `Clients.DrainUntilQuit` | src/server.c:249-272 | the first command that quits is the last one dispatched, whatever follows |
| `Clients.ChunksOfCommands` | src/server.c:232-272 | however they are cut into reads, the commands a client sends are executed in order, each once |
| `Clients.Client.DrainLoop` | src/server.c:249-272 | dispatches every complete command of the buffer in order, keeps the unread rest, and stops at an error or a closing command |
| `Clients.Client.Read` | src/server.c:238-272 | one read does to the connection what the stream semantics says, including the cap on the buffer |
| `Databases.Db.Lookup` | src/db.c:48-57 | the live object, with an expired entry deleted on the way |
| `Databases.Db.MaybeDelete` | src/db.c:95-108 | the key goes away exactly when its container is empty |
| `Databases.Db.SetArguments` | src/db.c:189-235 | the option loop accepts and computes what the options denote, with the last expiry winning and NX with XX refused |
| `Databases.Db.SetKey` | src/db.c:237-254 | store and reply are those of SET with these options, a time in the past becoming no expiry |
| `Databases.Db.SetCommand` | src/db.c:184-255 | for every argument vector, errors included, store and reply are those of SET |
| `Databases.Db.IncrDecr` | src/db.c:513-542 | store and reply are those of INCR and DECR, errors and overflow included, the expiry kept |
| `Databases.Db.ListPush` | src/db.c:812-837 | store and reply are those of LPUSH, RPUSH and their X forms; pushing one by one at the head reverses |
| `Databases.Db.ListPop` | src/db.c:844-896 | store and reply are those of LPOP and RPOP with any count |
| `Databases.Db.LRem` | src/db.c:1056-1105 | store and reply are those of LREM, by the walk of the linked list |
| `Databases.Db.LTrim` | src/db.c:1009-1054 | store and reply are those of LTRIM, by the walk of the linked list, an emptied key deleted |
| `Databases.Db.LRange` | src/db.c:914-949 | store and reply are those of LRANGE, by the walk of the linked list |
| `Databases.Db.HSet` | src/db.c:1146-1172 | store and reply are those of HSET; later pairs win and the reply counts new fields |
| `Databases.Db.HDel` | src/db.c:1301-1326 | store and reply are those of HDEL, an emptied key deleted |
| `Databases.Db.HIncrBy` | src/db.c:1353-1388 | store and reply are those of HINCRBY, errors and overflow included |
| `Databases.Db.HIncrByFloat` | src/db.c:1390-1427 | store and reply are those of HINCRBYFLOAT, with the created key left behind on an infinite sum |
| `Databases.Db.SAdd` | src/db.c:1433-1456 | store and reply are those of SADD; the reply counts new members |
| `Databases.Db.SRem` | src/db.c:1458-1479 | store and reply are those of SREM, an emptied key deleted |
| `Databases.Db.ZAddArguments` | src/db.c:1728-1737 | the option loop finds the flags and the start of the pairs |
| `Databases.Db.ZAdd` | src/db.c:1752-1802 | store and reply are those of ZADD under NX, XX, CH and INCR, a bad score ending it with the earlier pairs applied |
| `Databases.Db.ZAddCommand` | src/db.c:1723-1802 | for every argument vector, errors included, store and reply are those of ZADD |
| `Databases.Db.ZRem` | src/db.c:1839-1860 | store and reply are those of ZREM, an emptied key deleted |
| `Databases.Db.Del` | src/db.c:485-499 | store and reply are those of DEL, which counts raw entries and each key once |
| `Databases.Db.Exists` | src/db.c:501-511 | store and reply are those of EXISTS, which counts a live key as often as it is named |
| `Databases.Db.Expire` | src/db.c:547-599 | store and reply are those of the EXPIRE family |
| `Databases.Db.Keys` | src/db.c:637-659 | under a clock that never goes back, the announced count is the number of keys that match and are live when the first pass tests them, the keys emitted are those live when the second does, and the two agree if and only if no counted key has expired by its second test; while the clock stands still the reply is that of KEYS on the store |
| `Databases.KeysFails` | src/db.c:637-659 | a key that expires between the two passes: one key announced, none emitted |
| `Databases.Db.Dispatch` | src/db.c:2220-2239 | the store and the reply are what the command means; SET and ZADD go through their own argument loops, the others through the argument checks of `Decode` |
| `CommandLaws.GetLaw` | src/db.c:257-272 | GET answers the bytes of a present string, nil for a missing or expired key, an error for another type |
| `CommandLaws.IncrLaw` | src/db.c:513-545 | INCR adds one and DECR takes one away, from 0 for a missing key, with the expiry kept and refusals without effect |
| `CommandLaws.SetLaw` | src/db.c:184-254 | SET with any options in any order and case: the last time given decides when the key expires, NX and XX whether it is stored, bad times and NX with XX are refused |
| `CommandLaws.SetSyntax` | src/db.c:184-254 | SET with anything else behind the value is refused |
| `CommandLaws.ExpireLaw` | src/db.c:547-602 | EXPIRE, PEXPIRE, EXPIREAT and PEXPIREAT: seconds or milliseconds, from now or since the epoch, on a present key; the refusals |
| `CommandLaws.DelLaw` | src/db.c:485-499 | exactly the named keys go and the reply is how many of them were in the table |
| `CommandLaws.ExistsLaw` | src/db.c:501-511 | the reply counts the arguments that name a present key, and expired ones among them are dropped |
| `CommandLaws.WholeStoreLaw` | src/db.c:637-678 | KEYS answers the present keys that the pattern takes, FLUSHALL empties the store, DBSIZE counts it |
| `CommandLaws.PushLaw` | src/db.c:812-842 | pushed values stand in order behind the list, or in reverse order in front of it; the X forms do nothing on a missing key |
| `CommandLaws.PopLaw` | src/db.c:844-899 | LPOP takes from the head and RPOP from the tail, one by one, up to the count, and an emptied list goes away |
| `CommandLaws.LPopOne` | src/db.c:844-899 | LPOP answers the first element and leaves the others with the key's expiry |
| `CommandLaws.LRemLaw` | src/db.c:1056-1105 | what LREM leaves and how many it removed, with the key gone when nothing is left |
| `CommandLaws.RangeLaw` | src/db.c:914-1054 | LTRIM keeps and LRANGE answers the part of the list that the two indices denote |
| `CommandLaws.SliceCovers` | src/db.c:151-161 | that part is the contiguous block of exactly the indices that the two bounds cover |
| `ContainerLaws.HSetLaw` | src/db.c:1146-1174 | each named field has the last value given for it, other fields stay, and the reply counts the new ones |
| `ContainerLaws.HDelLaw` | src/db.c:1301-1326 | exactly the named fields go, the reply counts those that were there, and an emptied hash goes away |
| `ContainerLaws.HGetLaw` | src/db.c:1177-1197 | HGET answers the value of the field or nil |
| `ContainerLaws.HIncrLaw` | src/db.c:1353-1388 | HINCRBY adds to the field, from 0 for a missing one, and refuses what is no number or does not fit |
| `ContainerLaws.HIncrFloatLaw` | src/db.c:1390-1427 | HINCRBYFLOAT adds numbers and refuses sums that are not |
| `ContainerLaws.SetMembersLaw` | src/db.c:1433-1479 | SADD adds the named members and counts the new ones; SREM removes them and counts those that were there |
| `ContainerLaws.IsMemberLaw` | src/db.c:1481-1493 | SISMEMBER answers 1 for a member of a present set and 0 otherwise |
| `ContainerLaws.ZAddOneLaw` | src/db.c:1723-1802 | ZADD of one pair under all flags: what is stored, what is refused, what is counted or answered |
| `ContainerLaws.ZAddMoreLaw` | src/db.c:1723-1802 | ZADD of several pairs is ZADD of the first and then of the others, unless its score is bad; the counts add up |
| `ContainerLaws.ZRemLaw` | src/db.c:1839-1860 | exactly the named members go, the reply counts those that were there, and an emptied set goes away |
| `ContainerLaws.ZScoreLaw` | src/db.c:1817-1837 | ZSCORE answers the score of the member or nil |
| `ContainerLaws.ArityLaw` | src/db.c:2220-2239 | a modelled command with a wrong number of arguments is refused without effect |
| `Databases.Db.Replay` | src/aof.c:310-370 | replaying a file into any store executes its parsed commands in order and reports -1 exactly on a malformed one |
| `Expiry.StepUnobservable` | src/db.c:44-57 | one request on two stores with the same live view gives the same reply (but for DBSIZE and DEL) and the same live view |
| `Expiry.RunsLookAlike` | src/db.c:44-84 | so do runs under a non-decreasing clock with sweeps interleaved anywhere in either |
| `Expiry.ExpiryUnobservable` | src/db.c:44-84 | and every reply of such runs but those of DBSIZE and DEL is the same |
| `Expiry.DelCountExact` | src/db.c:485-499 | DEL's count on a store and on its live view agree if and only if no named key lies expired |
| `Expiry.DelFails` | src/db.c:485-499 | DEL of a key that has expired and still lies in the table counts 1, and 0 on the live view |
| `Containers.OpNotEmpty` | src/db.c:95-108 | an operation on a key stores an empty container if and only if it is one of the two early exits |
| `Containers.DecodedWellFormed` | src/db.c:1146-1150 | every argument vector that reaches an operation has passed the checks the operation relies on |
| `Containers.StepNoEmpty` | src/db.c:95-108 | a request keeps a store free of empty containers if and only if it avoids the early exits |
| `Containers.RunNoEmpty` | src/db.c:95-108 | no store reachable by a run of modelled commands that avoids the early exits holds an empty container |
| `Containers.BadScoreLeavesEmpty` | src/db.c:1757-1773 | the command ZADD k x m, x being no number, leaves an empty sorted set on a missing key |
| `Containers.InfiniteSumLeavesEmpty` | src/db.c:1405-1420 | the command HINCRBYFLOAT k f x, x being infinite, leaves an empty hash on a missing key |
| `Aof.CommandToResp` | src/aof.c:63-71 | what is logged is the encoding of the arguments up to their NUL |
| `Aof.LoggedMeansSame` | src/aof.c:63-71 | the logged command is decoded to the same request as the given one |
| `Aof.ReplayFile` | src/aof.c:345-365 | the loop hands the file's complete commands to dispatch in order, stopping quietly at a partial one and with -1 at a malformed one |
| `Aof.CrashRecovery` | src/aof.c:345-365 | of any byte prefix of a log of commands within the caps, replay executes exactly the commands wholly inside, in order, and reports success |
| `Aof.FrameAt` | src/aof.c:345-365 | every cut falls into one such place, so crash recovery covers all of them |
| `Aof.ReplayWhole` | src/aof.c:345-365 | an uncut log replays to exactly its commands |
| `Rewrite.EmitBatches` | src/aof.c:163-266 | filling and flushing the 64-element argument array, all indices in bounds, emits batches of exactly 64 items and a last one of 1 to 64, which together are all items in order |
| `Rewrite.BatchMeans` | src/db.c:1146-1172 | executing a batch command on a key adds exactly its items to the container |
| `Rewrite.BatchesMean` | src/aof.c:163-266 | executing all batches builds the container however the items were split |
| `Rewrite.BatchesSafe` | src/aof.c:163-266 | no batch command depends on the clock |
| `Rewrite.RewriteString` | src/aof.c:143-161 | replaying the SET of a string key onto any store without it leaves the key's fate |
| `Rewrite.ContainerFate` | src/aof.c:269-272 | PEXPIREAT behind the last batch gives the whole container its expiry |
| `Rewrite.RewriteKey` | src/aof.c:125-273 | replaying a key's commands onto any store without it leaves exactly the key's fate: for all five types, any size, any expiry |
| `Rewrite.RewriteStore` | src/aof.c:275-308 | replaying the whole rewritten log into an empty store leaves the fate of every key |
| `Rewrite.RebuiltExact` | src/db.c:221-250 | the fates are the original store if and only if every key survives: not empty, and no string expired by replay time |
| `Rewrite.IntegersOk` | src/aof.c:256-258 | every store whose sorted sets hold integer scores up to 2^63 - 1 meets what the rewrite asks of printing and parsing |
| `Rewrite.PastExpiryForgotten` | src/db.c:221-250 | the command SET k v PXAT e, replayed at any later time, brings the string back without an expiry |
| `Keyspace.CStrStops` | src/aof.c:63-71 | what a C string carries of a buffer is everything up to the first NUL |
| `NulFreedom.ReplayIsNulFree` | src/aof.c:63-71 | whatever a log holds, the store it replays to holds no NUL byte |
| `NulFreedom.RewriteExact` | src/aof.c:275-308 | the rewritten log rebuilds the store if and only if it holds no NUL and every key survives, and its bytes replay to exactly those commands |
| `Clocks.ClockIrrelevant` | src/db.c:184-254 | a request without relative expiries and without expiries before a horizon has the same effect at every time up to it |
| `Clocks.UnloggedKeeps` | src/db.c:2229-2233 | a command that is not logged leaves a store in which nothing has expired as it was |
| `Protocol.AnyClock` | src/aof.c:345-365 | a log of such commands replays to the same store under every clock up to the horizon |
| `Protocol.StepKeeps` | src/aof.c:73-107 | every guarded step (a command, a crash with restart and replay, fork, child's rename, child's death, reap, rewrite in place) keeps the invariant of log, mirror, snapshot and live store |
| `Protocol.RestartKeeps` | src/server.c:495-515 | a crash at any point of a guarded run and a replay of the file at any times up to the horizon start over in a state that meets the invariant |
| `Protocol.RewriteLosesNothing` | src/aof.c:73-107 | over every guarded run, restarts included: snapshot plus mirror is the live store while a rewrite is in flight, and the file replays to the live store except between the swap and the reap, when it replays to the snapshot |
| `Protocol.FileReplays` | src/aof.c:345-365 | the same for the bytes of the file as replay parses them |
| `Protocol.WriteImage` | src/aof.c:275-308 | what the child writes for any store of a guarded run is an image of it if and only if the store holds no empty container |
| `Protocol.SortedSetReached` | src/aof.c:275-308 | a state with a sorted set is reached by a guarded run and meets all that the image asks of it |
| `Unguarded.ReapExact` | src/server.c:55-65 | at the moment after a reap during a rewrite the file replays to the live store if and only if the child has swapped the file or repeating the mirror changes nothing |
| `Unguarded.RewriteNowExact` | src/db.c:763-781 | at the moment after REWRITEAOF during a rewrite it does so if and only if repeating the mirror changes nothing |
| `Repeats.KeyRepeats` | src/aof.c:98-105 | running plain commands again changes a key if and only if it is a list that they push to and never overwrite |
| `Repeats.RepeatExact` | src/aof.c:98-105 | running plain commands again changes nothing if and only if every list they push to is also overwritten by one of them |
| `Unguarded.EarlyReapTest` | src/server.c:55-65 | at the moment after a reap that precedes the child's swap the file replays to the live store if and only if no list is pushed to by the mirror without being overwritten by it |
| `Unguarded.RewriteNowTest` | src/db.c:763-781 | the same test for the moment after REWRITEAOF during a rewrite |
| `Unguarded.ReapSettles` | src/server.c:55-65 | a reap leaves a state from which every guarded run is right if and only if the child has swapped the file, or is dead and repeating the mirror changes nothing |
| `Unguarded.DeadReapTest` | src/server.c:55-65 | for a dead child that is the test on the mirrored commands |
| `Unguarded.EarlyReapForgets` | src/aof.c:275-308 | after a reap that came before the child's rename, with any commands and reaps before and after that rename, the file replays to the snapshot; it is right if and only if all that was executed since the fork leaves the snapshot as it was |
| `Unguarded.RewriteNowForgets` | src/db.c:763-781 | after REWRITEAOF with a child at work, its rename and the reap, with any commands in between and after, the file replays to the snapshot and what was executed since REWRITEAOF; it is right if and only if what came between fork and REWRITEAOF makes no difference |
| `Unguarded.RewriteNowRepeats` | src/db.c:763-781 | after REWRITEAOF during a rewrite and a reap without a rename, the file replays to the live store with the mirror, and then twice what was executed in between; the condition under which it is right |
| `Unguarded.EarlyReapDuplicates` | src/server.c:55-65 | fork, push, and another child's exit, each step possible: one element is live and two are in the file |
| `Unguarded.EarlyReapLoses` | src/server.c:55-65 | fork, another child's exit, push, rename, reap, each step possible: one element is live and the file is empty for good |
| `Unguarded.RewriteNowLoses` | src/db.c:763-781 | fork, SET, REWRITEAOF, rename, reap, each step possible: the key is live and the file is empty |
| `Protocol.Log.Append` | src/aof.c:73-85 | the bytes appended to the file and to the mirror are those of the machine's command step, and none for a command that is not a write |
| `Protocol.Log.Reopen` | src/aof.c:90-107 | the bytes after reopening are those of the machine with its mirror flushed |
| `Protocol.Log.BgRewrite` | src/db.c:783-808 | refused while a rewrite is in progress, the machine's fork step otherwise |
| `Protocol.Log.Swap` | src/aof.c:275-308 | the file at the path is replaced while the parent's descriptor keeps the old one, as in the machine's rename step |
| `Protocol.Log.ReapChildren` | src/server.c:55-65 | the machine's reap step |
| `Protocol.Log.StartOver` | src/server.c:495-515 | the variables at startup over an existing file are those of the machine's restart step |
| `Protocol.Log.Recover` | src/aof.c:310-370 | replaying the file's bytes at startup rebuilds the live store unless a swapped file waits to be reaped |
| `Rdb.Writer.U32` | src/rdb.c:32-36 | appends the big-endian form of the number cast to 32 bits |
| `Rdb.Writer.U64` | src/rdb.c:38-43 | appends the big-endian form of the 64-bit number |
| `Rdb.Writer.PutObj` | src/rdb.c:60-110 | appends an encoding of the value: an order of its elements that builds exactly that value, ascending by score and member for a sorted set |
| `Rdb.Writer.PutZSet` | src/rdb.c:98-107 | writes every member of a sorted set once, with its score, in list order |
| `Rdb.SaveSnapshot` | src/rdb.c:125-146 | the file is the snapshot of the store's entries, each once, in the table's order |
| `Rdb.Reader.Need` | src/rdb.c:179-183 | moves on exactly when that many bytes are left, and never beyond the buffer |
| `Rdb.Reader.U32` | src/rdb.c:191-197 | the number of the next four bytes, or failure when they are not there |
| `Rdb.Reader.U64` | src/rdb.c:199-207 | the number of the next eight bytes, or failure when they are not there |
| `Rdb.Reader.Text` | src/rdb.c:209-216 | the next length-prefixed bytes, or failure when they are not all there |
| `Rdb.Reader.ReadObj` | src/rdb.c:226-325 | the value that the payload builds, or failure for a short payload or an unknown type |
| `Rdb.LoadSnapshot` | src/rdb.c:347-392 | refuses a bad header, otherwise inserts the records up to the first that is not whole |
| `RdbCodec.NumberRoundTrip` | src/rdb.c:32-43 | reading inverts writing for big-endian numbers of every width |
| `RdbCodec.HeaderBytes` | src/rdb.c:125-131 | the header of a snapshot of one key, byte by byte, and the type codes |
| `RdbCodec.RecordBytes` | src/rdb.c:137-142 | a record of a string key, byte by byte: key, expiry, type, value |
| `RdbCodec.RecordThere` | src/rdb.c:366-385 | where the encoding of a record lies in a buffer, the reader finds that record and stops behind it |
| `RdbCodec.RecordCut` | src/rdb.c:366-385 | reading a record from a buffer cut at any byte gives the same record if all of it is there and fails otherwise |
| `RdbCodec.SnapshotCut` | src/rdb.c:347-392 | a snapshot cut anywhere behind its header loads exactly the records wholly before the cut; cut within the header it is refused |
| `RdbCodec.SnapshotWhole` | src/rdb.c:347-392 | the whole file loads every record |
| `RdbCodec.RecordAt` | src/rdb.c:347-392 | every cut behind the header falls into one such place |
| `Rdb.SnapshotRestores` | src/rdb.c:125-146 | a saved store loaded from a cut file comes back as exactly its leading keys with equal values and expiries, and as the whole store from the whole file |
| `Rdb.SaveCutLoad` | src/rdb.c:347-392 | saving a store, cutting the file at any byte and loading the rest gives exactly the leading whole keys unchanged, the whole store from the whole file, and a refusal within the header |
| `Rdb.IntegersOk` | src/rdb.c:54-58 | every store whose sorted sets hold 64-bit integer scores meets what saving asks of bit patterns |
| `Rdb.SortedSetCovered` | src/rdb.c:54-58 | a store with a sorted set meets all that saving, cutting and loading ask |

## Left out

- SkipLists.SkipList.Insert: a key already present is excluded, as the declaration demands of callers (src/zskiplist.h:45); its only caller never passes one, as `ZSets.ZSet.Add` shows. `update[]` and `rank[]` are sequences held in local variables, not arrays.
- Databases.Db.Dispatch: a command outside the model is taken to do nothing; arity checks and number arguments of commands other than SET and ZADD are the functions of `Requests`, about which the laws on argument vectors speak; a command reads the clock once, but for KEYS, which `Databases.Db.Keys` treats reading by reading.
- ContainerLaws.ZAddMoreLaw: the first word of the pairs that follow must not read as a flag of ZADD, since it would be taken for one when it stands first.
- Databases.Db.LRem: the linked list is built from the stored sequence for the walk and read back; the data set is a map field and values are reassigned whole, so sharing between the hash table, the linked list, the skip list and the store is not modelled.
- Protocol.StepKeeps: a second rewrite child, possible after an early reap, is not modelled; writes are whole commands; a child that fails leaves the file alone.
- Protocol.RestartKeeps: a rewrite child is taken to end with the server; one that outlives it and renames its file later is not modelled. A crash between swap and reap starts over from the snapshot, as the file then says.
- Unguarded.RewriteNowExact: takes the child not to have opened its temporary file yet. Parent and child open the same `<path>.rewrite.tmp` with O_TRUNC (src/aof.c:276-280, 300): a child that has opened it before REWRITEAOF goes on writing into what is then the live log, and its rename fails. The same holds of `Unguarded.RewriteNowTest`, `Unguarded.RewriteNowForgets` and `Unguarded.RewriteNowRepeats`.
- Unguarded.EarlyReapForgets: between the steps named there are only commands and reaps; a second fork, a restart and a further REWRITEAOF are steps of the machine that these runs do not take.
- Clients.ChunkingIndependence: holds for streams that do not reach the input cap; `Clients.Client.Read` states what the cap does.
- Rewrite.RewriteStore: assumes, of the scores in the store, that parsing a printed score gives it back, and that its text is shorter than 32 bytes, holds no NUL and is not one of ZADD's flags; the elements of a container are written in any order, those of a sorted set not necessarily in list order.
- Rdb.SaveSnapshot: assumes, of the scores in the store, that a bit pattern gives its score back.
- Unguarded.EarlyReapTest: speaks of mirrors of pushes, SADD, HSET, plain SET, DEL and FLUSHALL; for other commands `Unguarded.ReapExact` gives the condition on the store.
- Doubles are real numbers with two infinities: no rounding, no negative zero, no overflow of a sum.
- SipHash, random heights, random eviction, malloc and free, ownership and leaks.
- Sockets, epoll, accept and write loops, signals, fsync, and failures of open, write and rename.
- The overflow of now plus a time to live, and clocks that go back.
- SPOP, and relative expiries (EX, PX, EXPIRE, PEXPIRE) in what is claimed of replay.
- Loading a snapshot and then replaying a log over it, and appending behind a truncated frame.
- Commands that would only add easy members: APPEND, STRLEN, GETRANGE, SETRANGE, MGET, MSET, RENAME, SETNX, SETEX, GETSET, TTL, PTTL, TYPE, LLEN, LINDEX, LSET, HMSET, HMGET, HGETALL, HKEYS, HVALS, HLEN, HEXISTS, HSETNX, SCARD, SMEMBERS, SUNION, ZCARD, ZRANK, ZREVRANK, ZINCRBY, INFO, COMMAND, SELECT, ECHO, PING, QUIT, SAVE, BGSAVE; `Decode` sends them to a request that does nothing. LINSERT and the sorted-set range reads are proved on their structures and are not part of `Exec`.
- Error texts: a reply is an error, a wrong-type error or a value.
- Pub/sub, which no command reaches.
- Plain `char` is taken as signed, as on x86.
