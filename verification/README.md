# Verified models of MFServer

MFServer is an actor server whose services are written in Lua. This project models the data structures, codecs and
small state machines at its core in Dafny and proves what they promise. `dafny verify dfyconfig.toml` checks all of it.

Code that changes state in place is modelled by classes and methods with the same fields, branches and loops; each
method is proved against a specification, and the promises are proved about those specifications, for every input or
every run. The parts are independent of each other:

* **Hash map** (`RobinHood`, `DenseVector`, `Duplicates`, `FastMap`). The dense value vector and the Robin-Hood ring of
  `ankerl::unordered_dense`, for any hash function, refine a finite map through insertion, erasure, growth, range
  erasure, `erase_if` and `replace`.
* **Expiring cache** (`TimingWheel`, `CacheSpec`, `CacheMap`). The hierarchy of wheels is proved to hold, at every
  moment, exactly the set of (task, tick) pairs still to fire; the cache refines a state machine without wheels, and
  the expiry rules are proved over whole runs of that machine.
* **Protobuf engine** (`Pb*`). Unrolled varint readers and writers, group skipping, the growing buffer with in-place
  length insertion, the scatter hash table, and the schema-driven encoder and decoder with their round trip.
* **Actor scheduler** (`Scheduler`, `SchedulerRuns`). A state machine whose steps are the atomic operations of producers
  and workers; the invariant holds in every interleaving, and the promises it breaks are bounded exactly, with runs.
* **Redis client and pool** (`Resp`, `RespRoundTrip`, `RespParser`, `RedisClient`, `RedisTraffic`, `RedisPool`,
  `RedisSystem`). The incremental RESP
  parser, the connection machine with one command in flight, and the pool with its clients as one system.
* **Serializers** (`LuaData`, `MsgPack`, `MsgPackBuffer`, `Seri`, `SeriStream`, `Formats`, `Json*`, `StrBuf`). Three
  printers and parsers over byte buffers with their round trips; `Formats` and `JsonForms` say the formats in literal bytes.
* **Snowflake ids** (`Snowflake`).

`Hiding`, `Wrappers`, `Sequences`, `Powers`, `Bytes`, `Counting` and `Decimal` hold shared definitions. A Lua table is modelled as the list of
its entries in an arbitrary order of `lua_next` with an arbitrary border for `lua_rawlen`. Hash functions, `strtod`,
the clock, the expiry test of the pool and what the network delivers are parameters.

Where the code does not do what its surroundings suggest, the code is followed and the difference is stated:

* `PbTable.Table.NewKey`, `ZeroAfterFull`, `ZeroAfterHollow`: a resize of `pb_Table` re-adds slot 0 and every empty slot
  under key 0. Only empty and full tables are resized, so no payload is lost there; but every growth of a table that has
  slots leaves an entry for key 0 that nobody set.
* `RobinHood.ShiftsRunOut`: `calc_shifts_for_size` finds a shift just for sizes up to the load of the maximal ring,
  3,435,973,888. Beyond it, up to the permitted 2^32, `replace`, `reserve` and `rehash` go on with a shift of 0, for which
  the number of buckets is 1 shifted by the width of its word (`FirstSizeWithoutShift` is the first size).
* `Duplicates.FirstKeptExactly`: `replace` puts the last entry in the place of a surplus one, so a key need not keep its
  first entry; the condition is exact, and `LastKept` is an input.
* `CacheSpec.InsertKeepsPromise`: an item is to die within its timeout of its last access. After any run, an insert for a
  present key keeps this just when it asks for no more than the key's own timeout; `LongerInsertProlongs` is an input.
* `SchedulerRuns.StrandedExactly`: a lowered ready flag does not mean an empty mailbox. A step leaves a message without
  any token just when it lowers the flag over a mailbox whose last sender has already seen the flag up;
  `LateStoreStrands` is a run.
* `SchedulerRuns.FreedRightExactly`: `sendMulti` counts with the length of the Lua table but delivers to all of its
  entries. The body is freed once and after the last delivery, in every run, just when the two agree and are positive: a
  count of 0 or too large a count never frees it, too small a count frees it early (`FreedAtCount`;
  `ShortCountQueuesFreed` is a run that queues a freed body).
* `JsonSpace.StringsInsideExactly`: the JSON encoder reserves `len * 6 + 2` as an int. Every string of n bytes is printed
  inside the buffer just when length + 6n + 3 <= 1023 * 2^21; a plain string of 357,913,941 bytes is not.
* `JsonScratch.ScratchHoldsExactly`: the JSON parser's scratch buffer holds the strings of every text of n bytes just when
  n < 2^31 - 1.
* `StrBuf.LinearFallsShort`, `LinearGrowsOnce`: with a linear increment `calculate_new_size` rounds up the old size
  instead of the requested one, and from the next multiple on does not grow at all.
* `Json.UncountedExactly`: the JSON encoder looks for arrays with an int. The largest index leaves it for an index of 2^31 or
  more that is visited before any other key, and so does the number of items from 2^30 on; `{[3000000000] = x}`
  (`LargeIndexUncounted`) is neither refused as sparse nor known to be printed.
* `PbBuffer.CutExactly`, `AddedExactly`: a `pb_Buffer` grows up to 2,988,261,580 bytes, but its size is a field of 31 bits.
  An addition leaves what it should just when there is room and the total is below 2^31; 2^31 bytes leave an empty buffer
  empty (`SizeWraps`).
* `Seri.SizeTruncated`: a table's item count is cut to an int, so a count of 2^32 is an empty array part.
* `JsonRoundTrip.SameIffPlain`: number keys of a table that is no dense array come back as strings.

## Model

| member | source | states |
|---|---|---|
| RobinHood.ProbeMiss | MFServer/3rd/container/unordered_dense.h:1183-1193 | A probe that meets a smaller value proves the key absent: an indexed entry with that key would have been found earlier, wrap-around and any hash included. |
| RobinHood.ProbeChain | MFServer/3rd/container/unordered_dense.h:929-949 | Every bucket between an entry's home and its place holds at least the probe's value there. |
| RobinHood.DistanceBound | MFServer/3rd/container/unordered_dense.h:942-949 | While a bucket is free no stored or carried distance exceeds the number of buckets, so the shift loop ends. |
| RobinHood.SomeFree | MFServer/3rd/container/unordered_dense.h:1116-1131 | Fewer indexed values than buckets leave a free bucket. |
| RobinHood.Doubling | MFServer/3rd/container/unordered_dense.h:951-953 | Lowering the shift doubles the ring and raises the capacity by at least one. |
| RobinHood.Roomy | MFServer/3rd/container/unordered_dense.h:955-961 | A shift chosen for a size, or a smaller one above 0, leaves room for that many entries. |
| RobinHood.ShiftsRunOut | MFServer/3rd/container/unordered_dense.h:951-961 | The search for a shift ends at 0 if and only if the size is above the load of the maximal ring. |
| RobinHood.FirstSizeWithoutShift | MFServer/3rd/container/unordered_dense.h:951-961 | 3,435,973,889 entries have no shift; one less gets 32, the maximal ring. |
| DenseVector.SwapRemoveMap | MFServer/3rd/container/unordered_dense.h:1064-1083 | Overwriting an entry with the last one and popping removes exactly its key from the map. |
| DenseVector.CutRangeExact | MFServer/3rd/container/unordered_dense.h:1692-1714 | The result of a range erase holds precisely the elements outside the range. |
| DenseVector.SweepEnd | MFServer/3rd/container/unordered_dense.h:2084-2095 | A back-to-front sweep leaves precisely the elements the predicate rejects. |
| DenseVector.DropDuplicate | MFServer/3rd/container/unordered_dense.h:1495-1500 | Dropping a later duplicate of a key loses no key and invents no element. |
| Duplicates.KeptBegins | MFServer/3rd/container/unordered_dense.h:1469-1505 | What `replace` has kept stays where it is, all of distinct keys; a vector of distinct keys is kept as it is, in order. |
| Duplicates.FirstKeptExactly | MFServer/3rd/container/unordered_dense.h:1469-1505 | Every key keeps its first entry of the vector if and only if no surplus entry is replaced by one from the end that overtakes another entry of its own key. |
| Duplicates.LastKept | MFServer/3rd/container/unordered_dense.h:1469-1505 | The failing input: of [(1, a), (1, b), (2, c), (2, d)] the entries (1, a) and (2, d) are kept. |
| FastMap.DistancesFit | MFServer/3rd/container/unordered_dense.h:427-433 | With fewer than 2^24 - 1 buckets every stored and probed value fits its 32-bit field. |
| FastMap.Table.constructor | MFServer/3rd/container/unordered_dense.h:1216-1230 | A new table is valid and empty. |
| FastMap.Table.Clear | MFServer/3rd/container/unordered_dense.h:1404-1407 | Clearing leaves a valid table with the empty map. |
| FastMap.Table.NextWhileLess | MFServer/3rd/container/unordered_dense.h:930-940 | The probe stops at the first bucket whose value is not larger, having passed only larger ones. |
| FastMap.Table.PlaceAndShiftUp | MFServer/3rd/container/unordered_dense.h:942-949 | Shifting up keeps the ring invariant and the bijection between buckets and values, one value more indexed. |
| FastMap.Table.ClearAndFillBucketsFromValues | MFServer/3rd/container/unordered_dense.h:1026-1036 | A rehash indexes every value. |
| FastMap.Table.IncreaseSize | MFServer/3rd/container/unordered_dense.h:1038-1050 | Growth keeps and indexes all values; at the limit of the index type it drops exactly the value just appended. |
| FastMap.Table.PlaceElement | MFServer/3rd/container/unordered_dense.h:1115-1131 | The appended value ends up indexed, or is removed again on overflow. |
| FastMap.Table.Locate | MFServer/3rd/container/unordered_dense.h:1134-1155 | The insertion probe finds the key exactly when some indexed value has it, and otherwise ends where the key belongs. |
| FastMap.Table.TryEmplace | MFServer/3rd/container/unordered_dense.h:1133-1155 | The map gains the key with its value unless it was present or the table is full, and nothing else changes. |
| FastMap.Table.Emplace | MFServer/3rd/container/unordered_dense.h:1573-1606 | Appending first and popping on a duplicate comes to the same as inserting when absent. |
| FastMap.Table.InsertOrAssign | MFServer/3rd/container/unordered_dense.h:1106-1113 | The map is updated at the key whether or not it was present. |
| FastMap.Table.Find | MFServer/3rd/container/unordered_dense.h:1157-1195 | The unrolled lookup finds a key exactly when the map has it, with the map's value. |
| FastMap.Table.DoErase | MFServer/3rd/container/unordered_dense.h:1052-1083 | Backward shift and moving the last value into the hole keep the invariant and remove exactly one key. |
| FastMap.Table.EraseKey | MFServer/3rd/container/unordered_dense.h:1085-1104 | Erasing by key removes exactly that key and answers 1 just when it was present. |
| FastMap.Table.EraseAt | MFServer/3rd/container/unordered_dense.h:1652-1664 | Erasing through an iterator removes exactly the entry it points at. |
| FastMap.Table.EraseRange | MFServer/3rd/container/unordered_dense.h:1692-1714 | Precisely the elements of the range go, although each removal moves the last value. |
| FastMap.Table.EraseIf | MFServer/3rd/container/unordered_dense.h:2077-2096 | Precisely the elements matching the predicate go, and their number is answered. |
| FastMap.Table.CalcShiftsForSize | MFServer/3rd/container/unordered_dense.h:955-961 | The loop answers the largest shift with room for the size, or 0 when there is none. |
| FastMap.Table.Replace | MFServer/3rd/container/unordered_dense.h:1455-1505 | Too long a vector is refused and changes nothing; the table is left valid with one element per key of the vector, exactly the entries `Duplicates` says, if and only if the vector is within the load of the maximal ring; in between nothing is known. |
| FastMap.Table.Reserve | MFServer/3rd/container/unordered_dense.h:1896-1909 | The values are kept and the ring has room for the wanted number, and is never made smaller; undefined exactly when that number or the size is above the load of the maximal ring. |
| FastMap.Table.Rehash | MFServer/3rd/container/unordered_dense.h:1884-1894 | The values are kept and indexed in a ring of exactly the shift for the wanted number and the size; undefined exactly when there is none. |
| FastMap.Table.AdoptValues | MFServer/3rd/container/unordered_dense.h:1471-1503 | Adopting fewer than 2^32 values leaves every key once, with the entry of it that is read first where a surplus entry is followed by the last one, all of them indexed. |
| TimingWheel.TargetExact | MFServer/3rd/drogon/CacheMap.h:467-503 | The tick an entry is released at is later than now, never later than due, and exactly due if and only if some wheel has a bucket for its delay. |
| TimingWheel.AddToAgenda | MFServer/3rd/drogon/CacheMap.h:478-491 | Putting an entry into a bucket adds exactly one (task, tick) pair. |
| TimingWheel.RotateAgenda | MFServer/3rd/drogon/CacheMap.h:124-133 | Dropping a front bucket takes exactly its pairs out. |
| TimingWheel.FireTickLater | MFServer/3rd/drogon/CacheMap.h:113-136 | What stays in the wheels fires after the present tick. |
| TimingWheel.TurnFirst | MFServer/3rd/drogon/CacheMap.h:118-133 | The first wheel's front bucket holds precisely the tasks due at the new tick. |
| CacheSpec.LeftAlone | MFServer/3rd/drogon/CacheMap.h:525-548 | Over any run that leaves a key alone, it is present and unchanged exactly until its deadline. |
| CacheSpec.StaysAbsent | MFServer/3rd/drogon/CacheMap.h:530-541 | Over any run that does not touch an absent key it stays absent. |
| CacheSpec.EraseRemoves | MFServer/3rd/drogon/CacheMap.h:385-394 | An erased key is gone, and stays so over every run that leaves it alone; erasing touches no other key, deadline, delayed task or the time. |
| CacheSpec.ValueKept | MFServer/3rd/drogon/CacheMap.h:525-548 | A key left alone keeps its value and timeout while it is there, and is there while no time passes or if its timeout is 0. |
| CacheSpec.InsertReadsBack | MFServer/3rd/drogon/CacheMap.h:217-269 | After an insert and any run that leaves the key alone, the key has its former value and timeout if it was present, and the new ones if not; no other key changes. |
| CacheSpec.ModifyReadsBack | MFServer/3rd/drogon/CacheMap.h:310-334 | After a modify and any run that leaves the key alone, the key has what the handler makes of its value, or of a blank if it was absent; no other key changes. |
| CacheSpec.VisitReadsBack | MFServer/3rd/drogon/CacheMap.h:279-378 | A lookup changes no value, creates nothing and touches no other key. |
| CacheSpec.TimeTouchesNoValue | MFServer/3rd/drogon/CacheMap.h:113-136 | A delayed task touches no key and no other task; a tick moves time by one, creates no key and changes no value. |
| CacheSpec.NeverExpires | MFServer/3rd/drogon/CacheMap.h:230-234 | A key with timeout 0 survives every run without an explicit erase of it. |
| CacheSpec.RunBounded | MFServer/3rd/drogon/CacheMap.h:217-236 | In every disciplined run each expiring key has a deadline later than now and at most timeout + 1 ticks away. |
| CacheSpec.ExpiresAfterLastAccess | MFServer/3rd/drogon/CacheMap.h:279-292 | From the empty cache: a key with timeout T is present through T ticks after its last access and gone from tick T + 1 on. |
| CacheSpec.RunsOnTime | MFServer/3rd/drogon/CacheMap.h:414-424 | A delayed task whose delay fits the wheels is pending through delay further ticks and runs at the next one. |
| CacheSpec.WaitsUntilDue | MFServer/3rd/drogon/CacheMap.h:414-424 | A pending task stays pending, with its tick unchanged, until that tick. |
| CacheSpec.LongerInsertProlongs | MFServer/3rd/drogon/CacheMap.h:224-236 | The failing input: after inserting a key with timeout 1 and again with timeout 2 it is still present at tick 2, with the first value. |
| CacheSpec.RunNotOverdue | MFServer/3rd/drogon/CacheMap.h:217-236 | In every run, whatever is inserted, no key that can expire is overdue. |
| CacheSpec.DiesByDeadline | MFServer/3rd/drogon/CacheMap.h:224-228 | A key left alone dies within a number of ticks, over all continuations, exactly when its deadline is that near. |
| CacheSpec.InsertKeepsPromise | MFServer/3rd/drogon/CacheMap.h:224-236 | After any run, an insert for a present key keeps the promise that the key dies within its timeout of its last access if and only if the promise held before and the insert asks for no more than that timeout; exact also where the wheels cut the delay. |
| CacheSpec.LongerInsertLasts | MFServer/3rd/drogon/CacheMap.h:217-236 | A longer insert instead makes the key, with its old value, last exactly through the longer timeout. |
| CacheSpec.ExpiresBelowRange | MFServer/3rd/drogon/CacheMap.h:88-89 | With n wheels of b buckets every timeout below b^n expires as promised, at any time and after any disciplined run. |
| CacheSpec.RunsBelowRange | MFServer/3rd/drogon/CacheMap.h:88-89 | Every delayed task with a delay below b^n runs at exactly the tick delay + 1. |
| CacheMap.StrongIffScheduled | MFServer/3rd/drogon/CacheMap.h:511-516 | A weak reference locks exactly when its task still has a pair in the wheels. |
| CacheMap.DoomedIffDue | MFServer/3rd/drogon/CacheMap.h:528-541 | The callback erases an item exactly when its deadline has come; one for an erased and re-inserted key does not. |
| CacheMap.TickTracks | MFServer/3rd/drogon/CacheMap.h:113-136 | After a tick the map holds precisely the items the specification keeps. |
| CacheMap.Cache.constructor | MFServer/3rd/drogon/CacheMap.h:91-145 | A new cache refines the empty specification state. |
| CacheMap.Cache.InsertEntry | MFServer/3rd/drogon/CacheMap.h:467-503 | The cascade of wrappers, every bucket index in range, adds exactly one pair at the due tick, and nothing for delay 0. |
| CacheMap.Cache.EraseAfter | MFServer/3rd/drogon/CacheMap.h:505-556 | Reusing a living task or making a new one postpones exactly this key's deadline. |
| CacheMap.Cache.Insert | MFServer/3rd/drogon/CacheMap.h:217-269 | insert takes the specified step: a present key keeps its value, timeout and callback, an absent one gets those given, and no other entry changes. |
| CacheMap.Cache.Find | MFServer/3rd/drogon/CacheMap.h:279-378 | find, findAndFetch and operator[] answer the item's value and count as an access. |
| CacheMap.Cache.Modify | MFServer/3rd/drogon/CacheMap.h:310-334 | modify takes the specified step: the entry holds what the handler makes of the value, or of a blank, and no other entry changes. |
| CacheMap.Cache.Erase | MFServer/3rd/drogon/CacheMap.h:385-394 | erase takes exactly this entry out of the map at once and leaves the wheels and its callbacks alone. |
| CacheMap.Cache.RunAfter | MFServer/3rd/drogon/CacheMap.h:414-424 | runAfter schedules exactly one new task, or runs it at once without a delay. |
| CacheMap.Cache.Cascade | MFServer/3rd/drogon/CacheMap.h:483-492 | Dropping the wrappers of a bucket, in any order, puts each inner entry where its fire tick is unchanged. |
| CacheMap.Cache.Tick | MFServer/3rd/drogon/CacheMap.h:113-136 | A tick takes the specified step, fires precisely the pairs due, runs precisely the delayed tasks due and the callbacks of precisely the entries that go. |
| PbNumbers.Zigzag32 | MFServer/core/MFpb.h:371-375 | Zigzag codes are 2v or -2v - 1, in range, and decode back, for all 32-bit integers. |
| PbNumbers.Zagzig32 | MFServer/core/MFpb.h:371-375 | Every 32-bit code decodes to a 32-bit integer that encodes back to it. |
| PbNumbers.Zigzag64 | MFServer/core/MFpb.h:377-381 | The same for 64 bits. |
| PbNumbers.Zagzig64 | MFServer/core/MFpb.h:377-381 | The same for 64 bits. |
| PbNumbers.ExpandSigExtends | MFServer/core/MFpb.h:383-384 | Sign extension keeps the signed reading of the low 32 bits. |
| PbVarint.ReadWritten | MFServer/core/MFpb.h:407-421 | Reading a written varint gives the number back whatever follows, in at most 10 bytes. |
| PbVarint.VarintLength | MFServer/core/MFpb.h:686-713 | A number below 128^k takes at most k bytes. |
| PbVarint.Write64 | MFServer/core/MFpb.h:698-713 | The 64-bit writer emits the varint of the number. |
| PbVarint.Write32 | MFServer/core/MFpb.h:686-696 | The unrolled 32-bit writer emits the same varint. |
| PbSlice.Slice.ReadVarintSlow | MFServer/core/MFpb.h:407-421 | The byte-at-a-time reader never reads past the end, restores the cursor on failure and meets the varint specification. |
| PbSlice.Slice.ReadVarint32Fallback | MFServer/core/MFpb.h:423-442 | The unrolled 32-bit reader agrees with the byte-at-a-time one modulo 2^32 in value, and in bytes consumed and failure. |
| PbSlice.Slice.ReadVarint64Fallback | MFServer/core/MFpb.h:444-462 | The unrolled 64-bit reader agrees with the byte-at-a-time one in value, bytes consumed and failure. |
| PbSlice.Slice.ReadVarint32 | MFServer/core/MFpb.h:471-481 | On every slice, with either path taken, the result is the specified one. |
| PbSlice.Slice.ReadVarint64 | MFServer/core/MFpb.h:483-489 | On every slice, with either path taken, the result is the specified one. |
| PbSlice.Slice.ReadFixed | MFServer/core/MFpb.h:491-517 | A fixed-width read gives the little-endian value or fails without consuming. |
| PbSlice.Slice.ReadBytes | MFServer/core/MFpb.h:529-541 | A length-prefixed read gives exactly the announced bytes or consumes nothing. |
| PbSkip.SkipVarint | MFServer/core/MFpb.h:579-585 | Skipping a varint consumes exactly its bytes. |
| PbSkip.SkipBytes | MFServer/core/MFpb.h:587-597 | Skipping length-prefixed bytes consumes exactly them or nothing. |
| PbSkip.SkipSlice | MFServer/core/MFpb.h:599-603 | A plain skip consumes the length or nothing. |
| PbSkip.SkipValue | MFServer/core/MFpb.h:563-577 | Skipping terminates on every input, stays inside it and consumes the specified span. |
| PbSkip.ReadGroup | MFServer/core/MFpb.h:543-561 | Reading a group, mutually recursive with skipping, answers its content and total length or consumes nothing. |
| PbGroups.LengthPrefixed | MFServer/core/MFpb.h:529-541 | Reading length-prefixed bytes undoes writing them. |
| PbGroups.SkipExact | MFServer/core/MFpb.h:563-577 | Skipping takes exactly one well-formed value, arbitrarily nested groups included, whatever follows. |
| PbGroups.GroupExact | MFServer/core/MFpb.h:543-561 | A group ends at its own end tag over any nesting inside. |
| PbBuffer.GrowSize | MFServer/core/MFpb.h:715-731 | Growth by half reaches the expected size exactly when it is at most the largest reachable one. |
| PbBuffer.CutExactly | MFServer/core/MFpb.h:170-182 | What is written is held whole if and only if its length is below 2^31, the range of the size field. |
| PbBuffer.AddedExactly | MFServer/core/MFpb.h:733-740 | An addition extends the contents by its bytes if and only if there is room and the total stays below 2^31. |
| PbBuffer.SizeWraps | MFServer/core/MFpb.h:182-182 | Any 2^31 bytes find room in an empty buffer and leave it empty. |
| PbBuffer.LargestIs | MFServer/core/MFpb.h:715-731 | The largest reachable capacity is 2,988,261,580. |
| PbBuffer.Buffer.PrepBuffSize | MFServer/core/MFpb.h:715-731 | Making room keeps the contents, on the stack or the heap, and succeeds exactly when there can be room. |
| PbBuffer.Buffer.AddSlice | MFServer/core/MFpb.h:733-740 | With room the contents gain exactly the slice, cut to the size field; without room nothing changes. |
| PbBuffer.Buffer.AddLength | MFServer/core/MFpb.h:742-754 | With room the length of everything from an offset on is inserted in front of it, the bytes on both sides unchanged, cut to the size field. |
| PbBuffer.Buffer.AddBytes | MFServer/core/MFpb.h:756-761 | With room for both the contents gain the length prefix and then the bytes, each cut to the size field; otherwise nothing changes. |
| PbBuffer.Buffer.AddVarint32 | MFServer/core/MFpb.h:763-769 | With room for 5 bytes the contents gain exactly the varint, cut to the size field; otherwise nothing changes. |
| PbBuffer.Buffer.AddVarint64 | MFServer/core/MFpb.h:771-777 | With room for 10 bytes the contents gain exactly the varint, cut to the size field; otherwise nothing changes. |
| PbBuffer.Buffer.AddFixed | MFServer/core/MFpb.h:779-803 | With room the contents gain the little-endian bytes, cut to the size field; otherwise nothing changes. |
| PbChains.PutFreeChained | MFServer/core/MFpb.h:864-893 | A key put into its free main slot starts a chain; all other chains are kept. |
| PbChains.PutBehindChained | MFServer/core/MFpb.h:882-887 | A key whose main slot holds a chain head goes to a free slot linked behind it; every chain stays complete. |
| PbChains.PutInsteadChained | MFServer/core/MFpb.h:877-881 | A stranger in the main slot is moved to the free slot with its own chain relinked; every chain stays complete. |
| PbChains.GainRepresents | MFServer/core/MFpb.h:864-893 | Gaining one absent key changes the represented map at that key only. |
| PbChains.NoneFree | MFServer/core/MFpb.h:871-876 | All slots at or above the free-slot cursor are full, so a cursor at slot 1 means a full table, and a free slot below means it is not. |
| PbChains.ZeroAfterFull | MFServer/core/MFpb.h:895-916 | Resizing a full table keeps the payload of key 0. |
| PbChains.ZeroAfterHollow | MFServer/core/MFpb.h:895-916 | Resizing a table with an empty slot zeroes the payload of key 0. |
| PbTable.NewSizeFits | MFServer/core/MFpb.h:898-902 | The new size is the least power of two of at least 8 and the wanted size, unless the limit is reached. |
| PbTable.Table.constructor | MFServer/core/MFpb.h:852-853 | A new table represents the empty map. |
| PbTable.Table.Get | MFServer/core/MFpb.h:918-929 | Following the chain from the main position finds a key exactly when the map has it, with its payload. |
| PbTable.Table.FindFree | MFServer/core/MFpb.h:871-876 | The downward scan finds a free slot, or the table is full. |
| PbTable.Table.NewKey | MFServer/core/MFpb.h:864-893 | Adding an absent key, with collision relocation and possibly a resize, adds it with a zeroed payload and loses or duplicates none; an entry for key 0 appears just when key 0 is added or a table with slots grows. |
| PbTable.Table.ReAdd | MFServer/core/MFpb.h:907-912 | Re-insertion during a resize never resizes again. |
| PbTable.Table.Resize | MFServer/core/MFpb.h:895-916 | A resize keeps every key with its payload and fails exactly at the size limit, changing nothing. |
| PbTable.Table.Set | MFServer/core/MFpb.h:931-936 | pb_settable finds a key or adds it; only a saturated table refuses, and key 0 appears only as said for NewKey. |
| PbSchema.ScalarRoundTrip | MFServer/core/MFpb.c:370-448 | Every scalar in its type's range reads back from its bytes, whatever follows. |
| PbMessage.FilledAt | MFServer/core/MFpb.c:1583-1602 | Field by field, a completed message has the given value if that creates the field, and the default otherwise. |
| PbMessage.OrderIrrelevant | MFServer/core/MFpb.c:1583-1602 | The completed message does not depend on the order in which fields are enumerated. |
| PbRoundTrip.RawRoundTrip | MFServer/core/MFpb.c:1675-1704 | A value of any kind, nested messages included, reads back exactly. |
| PbRoundTrip.PackedRoundTrip | MFServer/core/MFpb.c:1749-1766 | A packed run reads back item by item. |
| PbRoundTrip.EntriesRoundTrip | MFServer/core/MFpb.c:1722-1747 | All entries of a map field read back, in any order. |
| PbRoundTrip.FieldsRoundTrip | MFServer/core/MFpb.c:1768-1788 | All fields of a message, in any order, read back over any table that is clean for them. |
| PbRoundTrip.DecodeEncode | MFServer/core/MFpb.c:1583-1602 | For every schema and every value a message type allows, decoding the encoded bytes gives the message completed with its defaults. |
| PbRoundTrip.DefaultsExactly | MFServer/core/MFpb.c:1642-1652 | A new table has exactly the fields of a proto3 type that are repeated, maps, or scalars or enums outside a oneof: an empty list, an empty table, false, 0, the empty string, or the name of the enumerator 0; decoding nothing leaves it so. |
| PbRoundTrip.NotGiven | MFServer/core/MFpb.c:1642-1657 | After the round trip every field that was not given is there exactly if a new table has it, with that default. |
| PbRoundTrip.EnumShown | MFServer/core/MFpb.c:1681-1689 | An enum value given by name or number reads back as the name of its number, or as the number if it has none. |
| PbLaws.GivenField | MFServer/core/MFpb.c:1583-1602 | After the round trip a given field holds the value, its items in order, exactly its entries, or the completed nested message. |
| PbLaws.SingleForm | MFServer/core/MFpb.c:1531-1538 | A single scalar is written as its tag and its value, and as nothing if it is the zero of a proto3 type outside a oneof. |
| PbLaws.NestedForm | MFServer/core/MFpb.c:1515-1520 | A nested message is written as its tag, the length of its bytes, and its bytes. |
| PbLaws.RepeatedForm | MFServer/core/MFpb.c:1560-1581 | A packed field is written as one tag, one length and its items in order, another repeated one as a tag and an item at a time. |
| PbLaws.EntryForm | MFServer/core/MFpb.c:1540-1558 | A map entry is written as the field's tag, a length, and key and value as fields 1 and 2 where they are not zero. |
| PbLaws.UnknownSkipped | MFServer/core/MFpb.c:1772-1775 | A field the type does not know is skipped whole, whatever its wire type, groups with all they hold included. |
| PbLaws.OtherWireRefused | MFServer/core/MFpb.c:1706-1720 | A field sent with another wire type than its own is an error, unless it is repeated and comes as a run of bytes. |
| PbLaws.LastWins | MFServer/core/MFpb.c:1780-1784 | Of a single field sent twice the last value counts. |
| PbLaws.ItemAppended | MFServer/core/MFpb.c:1749-1755 | One item of a repeated field is appended, whether or not the schema calls the field packed. |
| PbLaws.RunAppended | MFServer/core/MFpb.c:1756-1764 | A run of items is appended in order, whether or not the schema calls the field packed. |
| PbLaws.ShortRefused | MFServer/core/MFpb.c:1675-1704 | Fewer bytes than a length announces are an error, for strings, messages, runs and map entries. |
| PbLaws.EmptyEntry | MFServer/core/MFpb.c:1722-1747 | An entry without key and value stands for the zero of each, an enum value for the enumerator 0; without a default the entry is dropped. |
| PbEncoder.Encoder.AddType | MFServer/core/MFpb.c:370-448 | The scalar's bytes are appended, and a zero value is reported as ignorable with its length. |
| PbEncoder.Encoder.AddInteger | MFServer/core/MFpb.c:390-434 | The writer chosen for each integer type, on the 32- or 64-bit word it is given, emits the bytes of the scalar. |
| PbEncoder.Encoder.EncodeField | MFServer/core/MFpb.c:1504-1529 | A field value is appended, nested messages with their length inserted in place. |
| PbEncoder.Encoder.EncodeEnum | MFServer/core/MFpb.c:1486-1502 | An enum value, given as a number or by name, is appended as the varint of its number. |
| PbEncoder.Encoder.EncodeTagged | MFServer/core/MFpb.c:1531-1538 | A zero field that may be omitted leaves no byte behind, its tag included. |
| PbEncoder.Encoder.EncodeMap | MFServer/core/MFpb.c:1540-1558 | Every entry becomes one length-prefixed pair. |
| PbEncoder.Encoder.EncodePacked | MFServer/core/MFpb.c:1560-1581 | A packed field is one tag and one length around all items. |
| PbEncoder.Encoder.EncodeMessage | MFServer/core/MFpb.c:1583-1602 | The encoder with its in-place lengths and truncations emits the specified bytes. |
| PbDecoder.Decoder.TakeScalar | MFServer/core/MFpb.c:450-501 | Reading a scalar consumes exactly what the specification says, on every input. |
| PbDecoder.Decoder.TakeValue | MFServer/core/MFpb.c:1675-1704 | Reading a value of any kind meets the specification on every input. |
| PbDecoder.Decoder.TakeEntry | MFServer/core/MFpb.c:1722-1747 | A map entry with its parts in any order and unknown parts skipped meets the specification. |
| PbDecoder.Decoder.TakePacked | MFServer/core/MFpb.c:1749-1766 | A packed run meets the specification. |
| PbDecoder.Decoder.TakeField | MFServer/core/MFpb.c:1768-1788 | A known field of any shape updates exactly its own entry of the table. |
| PbDecoder.Decoder.DecodeMessage | MFServer/core/MFpb.c:1768-1788 | The decoder's loop, unknown fields skipped, meets the specification on every input and terminates. |
| Scheduler.OneWorker | MFServer/core/MFLuaServiceManager.cpp:216-246 | Two workers are never in charge of one service. |
| Scheduler.StepTokens | MFServer/core/MFLuaServiceManager.cpp:216-246 | Every atomic step keeps exactly one token for a service whose flag is up and none otherwise. |
| Scheduler.StepOrder | MFServer/core/MFLuaService.cpp:66-96 | Every atomic step keeps: pushed messages are those taken, in order, followed by the mailbox. |
| Scheduler.StepRefs | MFServer/core/MFLuaMessage.hpp:95-112 | Every atomic step keeps the reference count of every message equal to its count less its resets, modulo 2^32. |
| Scheduler.RunInv | MFServer/core/MFLuaServiceManager.cpp:147-246 | The invariant holds after every run, whatever the interleaving. |
| Scheduler.OneConsumerInOrder | MFServer/core/MFLuaServiceManager.cpp:216-246 | In every run a mailbox has at most one consumer and is consumed in the order it was filled, one message at a time. |
| Scheduler.FreedOnceAfterLast | MFServer/core/MFLuaServiceManager.cpp:147-167 | A fan-out to n >= 1 services gets n resets; the body is freed once, after the last delivery and never while queued. |
| SchedulerRuns.FreedAtCount | MFServer/core/MFLuaMessage.hpp:95-112 | In every state of every run destinations are either reset or owed, and the body has been freed, or is being freed, once if the resets have come to a positive count, and not otherwise. |
| SchedulerRuns.FreedRightExactly | MFServer/core/MFLuaServiceManager.cpp:147-167 | For every count and destination list: in every run the body is freed once and after the last delivery if and only if the count is positive and the number of destinations. |
| SchedulerRuns.ShortCountQueuesFreed | MFServer/core/MFLuaServiceManager.cpp:147-167 | A run from an initial state in which a count of 1 for two destinations frees the body and then queues it. |
| SchedulerRuns.StrandedExactly | MFServer/core/MFLuaServiceManager.cpp:216-246 | For every reachable state and every step: a message is stranded afterwards if and only if it was before and the step is no send to its service, or the step lowers the flag over a nonempty mailbox whose senders have all seen it up. |
| SchedulerRuns.LateStoreStrands | MFServer/core/MFLuaServiceManager.cpp:216-246 | A run from an initial state that ends with the flag down, a message in the mailbox and no token. |
| Resp.ParseExtends | MFServer/core/MFRedisClient.cpp:509-565 | A complete reply is not changed by what follows it. |
| Resp.ParseExact | MFServer/core/MFRedisClient.cpp:509-565 | The bytes a reply takes are enough to parse it. |
| Resp.ChunkIndependent | MFServer/core/MFRedisClient.cpp:509-565 | A reply of c bytes: c is between 1 and the input's length, cuts below c are incomplete, all longer inputs give the same reply. |
| Resp.ParseCommand | MFServer/core/MFRedisClient.cpp:567-584 | Parsing a printed command gives the array of exactly its arguments and takes all its bytes. |
| RespRoundTrip.ReplyRoundTrip | MFServer/core/MFRedisClient.cpp:253-565 | Parsing a printed reply gives it back, whatever follows, and takes exactly its bytes: strings, errors, 64-bit integers, nulls in all their forms, booleans, doubles, big numbers, verbatim strings, and arrays, sets, pushes, maps and attributes nested to any depth, with their literal type bytes. |
| RespRoundTrip.RepliesRoundTrip | MFServer/core/MFRedisClient.cpp:331-382 | Replies in a row are read back in order. |
| RespRoundTrip.UnknownType | MFServer/core/MFRedisClient.cpp:509-565 | A byte that begins no reply is reported at once and taken alone. |
| RespRoundTrip.BadNumber | MFServer/core/MFRedisClient.cpp:281-327 | A number, length or count with a letter in it, empty, or of 2^63 is reported as the problem of its type. |
| RespRoundTrip.BadCount | MFServer/core/MFRedisClient.cpp:297-382 | A length below -1, a count of more than 2^32 - 1 items or below -1, and a verbatim length below 4 are reported as such. |
| RespRoundTrip.BadLine | MFServer/core/MFRedisClient.cpp:253-507 | Lines that are no string, null, boolean, double or big number are reported as the problem of their type. |
| RespParser.FindLineEnd | MFServer/core/MFRedisClient.cpp:220-228 | The first line end is found, if there is one. |
| RespParser.Parser.ParseSimpleString | MFServer/core/MFRedisClient.cpp:253-265 | The simple-string parser meets the specification on every input. |
| RespParser.Parser.ParseError | MFServer/core/MFRedisClient.cpp:267-279 | The error parser meets the specification on every input. |
| RespParser.Parser.ParseInteger | MFServer/core/MFRedisClient.cpp:281-295 | The integer parser meets the specification on every input. |
| RespParser.Parser.ParseBulkString | MFServer/core/MFRedisClient.cpp:297-327 | The bulk-string parser meets the specification on every input. |
| RespParser.Parser.ParseArrayLike | MFServer/core/MFRedisClient.cpp:331-382 | Arrays, sets, pushes, maps and attributes meet the specification, with nested incomplete elements reported as incomplete. |
| RespParser.Parser.ParseNil | MFServer/core/MFRedisClient.cpp:388-400 | The null parser meets the specification on every input. |
| RespParser.Parser.ParseBool | MFServer/core/MFRedisClient.cpp:402-414 | The boolean parser meets the specification on every input. |
| RespParser.Parser.ParseDouble | MFServer/core/MFRedisClient.cpp:416-460 | The double parser meets the specification, strtod being a parameter. |
| RespParser.Parser.ParseVerbatim | MFServer/core/MFRedisClient.cpp:462-488 | The verbatim-string parser meets the specification on every input. |
| RespParser.Parser.ParseBignum | MFServer/core/MFRedisClient.cpp:490-507 | The big-number parser meets the specification on every input. |
| RespParser.Parser.ParseReply | MFServer/core/MFRedisClient.cpp:509-565 | The recursive-descent parser as a whole meets the specification and terminates. |
| RedisClient.RunsKeep | MFServer/core/MFRedisClient.cpp:106-218 | The session invariant holds after every run of connects, disconnects, commands and data. |
| RedisClient.CalledBackOnce | MFServer/core/MFRedisClient.cpp:106-218 | A command is in flight only while Connected; each callback runs at most once, and exactly once unless still in flight; onReady fires at most once. |
| RedisClient.Answered | MFServer/core/MFRedisClient.cpp:124-218 | A complete reply, or the end of the connection, answers the command in flight first. |
| RedisClient.ReceiveSplit | MFServer/core/MFRedisClient.cpp:163-218 | However the bytes are cut into pieces, handling them comes to the same. |
| RedisClient.FirstReply | MFServer/core/MFRedisClient.cpp:163-218 | What the first complete reply does in every state: +OK connects a client that authenticates and any other reply disconnects it; a reply answers the command in flight; bytes behind it, or without one, end the connection. |
| RedisClient.Client.OnConnect | MFServer/core/MFRedisClient.cpp:106-117 | Connecting takes the specified transition: with a password AUTH and the password are sent, byte for byte, and the client authenticates; without one it is connected. |
| RedisClient.Client.OnDisconnect | MFServer/core/MFRedisClient.cpp:119-122 | Disconnecting takes the specified transition, and the client is disconnected. |
| RedisClient.Client.ChangeState | MFServer/core/MFRedisClient.cpp:124-141 | A state change fires exactly the callbacks of the specification, in order: ready with success when connected; the command in flight as closed, then ready with failure, when disconnected. |
| RedisClient.Client.OnMessage | MFServer/core/MFRedisClient.cpp:163-218 | Consuming replies from the buffer in a loop equals the specified function of old buffer and new data; the bytes of +OK connect a client that authenticates, any other reply disconnects it. |
| RedisClient.Client.SendCommand | MFServer/core/MFRedisClient.cpp:567-584 | With a connection the bytes sent grow by exactly the printed command, without one by nothing. |
| RedisClient.Client.ExecuteCommand | MFServer/core/MFRedisClient.cpp:586-605 | execute answers not-ready and busy at once, sending nothing, and otherwise puts the command in flight and sends exactly its bytes. |
| RedisTraffic.CommandBytes | MFServer/core/MFRedisClient.cpp:567-584 | A command is *, the number of its arguments and a line end, and each argument in order as $, its length, a line end, its bytes and a line end. |
| RedisTraffic.SentExactly | MFServer/core/MFRedisClient.cpp:106-117 | In every run from init the bytes sent are AUTH with the password for each connection that came up and each command put in flight, in this order and nothing else; a server that parses them reads exactly these argument lists. |
| RedisTraffic.ReplyDelivered | MFServer/core/MFRedisClient.cpp:163-218 | A command executed on an idle client and the printed bytes of any reply: the callback is given exactly that reply, and the client is idle again. |
| RedisPool.Pool.CreateConnect | MFServer/core/MFRedisConnectPool.cpp:33-50 | A client is created exactly below the maximum size. |
| RedisPool.Pool.OnInit | MFServer/core/MFRedisConnectPool.cpp:40-49 | The ready callback queues the client on success and drops it, with one less in the pool, on failure. |
| RedisPool.Pool.GetConnect | MFServer/core/MFRedisConnectPool.cpp:79-89 | An idle client is lent from the front of the queue, or one is created. |
| RedisPool.Pool.ReleaseConnect | MFServer/core/MFRedisConnectPool.cpp:91-99 | A returned client is queued, or dropped and replaced when its connection is gone. |
| RedisPool.Pool.ClearExpiredConnect | MFServer/core/MFRedisConnectPool.cpp:101-129 | The expiry loop equals its specification, which RedisSystem.ExpireExact and ExpireGone pin down. |
| RedisSystem.StepInv | MFServer/core/MFRedisConnectPool.cpp:33-129 | Every step of pool and clients keeps the system invariant. |
| RedisSystem.SizeConserved | MFServer/core/MFRedisConnectPool.cpp:33-129 | In every run the pool size is connecting plus idle plus lent out and never above the maximum. |
| RedisSystem.NeverBusy | MFServer/core/MFRedisClient.cpp:586-605 | In no run does a borrowed client's command meet another one in flight: it is sent and in flight, or answered as not ready. |
| RedisSystem.ExpireExact | MFServer/core/MFRedisConnectPool.cpp:101-129 | Expiry takes only expired clients off the front and never goes below the minimum size. |
| RedisSystem.ExpireGone | MFServer/core/MFRedisConnectPool.cpp:101-129 | Exactly the clients that expiry takes off the queue are gone; every other client is as it was. |
| LuaData.WholeMeaning | MFServer/core/MFMsgPack.c:507-531 | A value not deeper than the level limit loses nothing to it. |
| LuaData.MeansItself | MFServer/core/MFMsgPack.c:507-531 | A proper value within the levels means the same value: the same scalar, or a table of as many keys, each of the value's with the same value under it. |
| MsgPack.ArrayExactly | MFServer/core/MFMsgPack.c:436-488 | Whatever border lua_rawlen answers, a table counts as an array exactly when its keys are 1 to n for some n >= 1. |
| MsgPack.IntHead | MFServer/core/MFMsgPack.c:218-294 | Every 64-bit integer, in the shortest of nine forms, reads back. |
| MsgPack.RoundTrip | MFServer/core/MFMsgPack.c:507-531 | Unpacking a packed value gives its meaning down to the nesting limit and takes exactly its bytes. |
| MsgPack.GivesBack | MFServer/core/MFMsgPack.c:507-531 | unpack(pack(v)) is the same value for every value of at most 16 levels of tables, by a definition that mentions neither. |
| Formats.MsgPackTables | MFServer/core/MFMsgPack.c:436-531 | A table is written as an array of its n items exactly when its keys are 1 to n, else as a map of its entries, and as nil at the sixteenth level. |
| Formats.MsgPackItems | MFServer/core/MFMsgPack.c:360-373 | The items of an array stand in the order of their indices. |
| Formats.MsgPackRefused | MFServer/core/MFMsgPack.c:604-816 | First bytes that begin no value, and values of which bytes are missing, are refused as such. |
| Formats.MsgPackRead | MFServer/core/MFMsgPack.c:617-722 | Floating-point numbers are read as their bytes, and integers need not have their shortest form. |
| Formats.ByteOrder | MFServer/core/MFMsgPack.c:218-294 | Multi-byte numbers stand most significant byte first in one format, least significant first in the other. |
| Formats.DecimalForm | MFServer/core/MFRedisClient.cpp:573-580 | The decimal form of a number is its digits from the left, without a leading zero but in 0 itself. |
| MsgPack.UnpackPack | MFServer/core/MFMsgPack.c:537-570 | unpack(pack(vs)) gives all values back, down to 16 levels of tables. |
| MsgPackBuffer.Packer.Append | MFServer/core/MFMsgPack.c:96-122 | Appending, across growth from the stack to the heap, never exceeds the capacity and adds exactly the bytes. |
| MsgPackBuffer.Packer.EncodeInt | MFServer/core/MFMsgPack.c:218-294 | The bytes shifted and masked out of the word, sign included, are the specified shortest form. |
| MsgPackBuffer.Packer.TableIsAnArray | MFServer/core/MFMsgPack.c:436-488 | The loop over the keys decides the array test. |
| MsgPackBuffer.Packer.EncodeArray | MFServer/core/MFMsgPack.c:360-373 | An array is its header and its items in order. |
| MsgPackBuffer.Packer.EncodeMap | MFServer/core/MFMsgPack.c:378-430 | One pass with the header filled in afterwards gives the bytes of a two-pass encoder, under nesting and growth. |
| MsgPackBuffer.Packer.Backfill | MFServer/core/MFMsgPack.c:419-430 | The header replaces the five reserved bytes and the data behind moves up to it unchanged. |
| MsgPackBuffer.Packer.EncodeType | MFServer/core/MFMsgPack.c:507-531 | The recursive encoder emits the specified bytes. |
| MsgPackBuffer.Packer.Pack | MFServer/core/MFMsgPack.c:537-570 | All arguments are packed one after the other. |
| MsgPackBuffer.Cursor.DecodeType | MFServer/core/MFMsgPack.c:604-816 | The switch over the first byte, with a length check before each read, never reads past the input and meets the specification on every input. |
| MsgPackBuffer.Cursor.DecodeInt | MFServer/core/MFMsgPack.c:617-688 | The byte shifts and sign conversions of the eight integer forms give the specified number, or missing bytes. |
| MsgPackBuffer.Cursor.DecodeRaw | MFServer/core/MFMsgPack.c:723-753 | The string forms, by one, two or four length bytes or the first byte, give exactly the announced bytes or missing bytes. |
| MsgPackBuffer.Cursor.DecodeTable | MFServer/core/MFMsgPack.c:754-791 | The head of an array or a map and its loop meet the specification. |
| MsgPackBuffer.Cursor.DecodeArray | MFServer/core/MFMsgPack.c:576-588 | The array loop meets the specification on every input. |
| MsgPackBuffer.Cursor.DecodeHash | MFServer/core/MFMsgPack.c:590-600 | The map loop meets the specification on every input. |
| MsgPackBuffer.Cursor.UnpackFull | MFServer/core/MFMsgPack.c:818-872 | Values are read until the input is used up or the first error. |
| Seri.IntRoundTrip | MFServer/core/MFLuaSeri.c:137-169 | Every 64-bit integer reads back from its shortest form. |
| Seri.SizeTruncated | MFServer/core/MFLuaSeri.c:452-452 | A written item count is the size read if and only if it is an int; otherwise the size is its low 32 bits, signed. |
| Seri.RoundTrip | MFServer/core/MFLuaSeri.c:298-345 | Reading a value's bytes gives its meaning, for tables with holes, any border, any hash order, array sizes across the cookie limit. |
| Seri.GivesBack | MFServer/core/MFLuaSeri.c:298-345 | unpack(pack(v)) is the same value for every value, by a definition that mentions neither. |
| Formats.SeriItems | MFServer/core/MFLuaSeri.c:212-240 | The items of the array part stand in the order of their indices, holes among them as nil. |
| Formats.SeriDeepExactly | MFServer/core/MFLuaSeri.c:280-345 | Packing refuses exactly the values with more than 32 levels of tables that have entries. |
| Formats.SeriRefused | MFServer/core/MFLuaSeri.c:364-526 | Types and cookies that begin no value, and values of which bytes are missing, are refused. |
| Formats.SeriRead | MFServer/core/MFLuaSeri.c:472-526 | Doubles and pointers are read as their eight bytes; a boolean is true for every cookie but 0. |
| Seri.UnpackPack | MFServer/core/MFLuaSeri.c:560-614 | unpack(pack(vs)) gives every value back whole. |
| SeriStream.DeepSplits | MFServer/core/MFLuaSeri.c:280-345 | Array part and hash part together refuse exactly the tables that are too deep. |
| SeriStream.FlatAppend | MFServer/core/MFLuaSeri.c:539-558 | The chain of 128-byte blocks flattens in order. |
| SeriStream.Writer.Push | MFServer/core/MFLuaSeri.c:60-80 | A push across any number of blocks adds exactly the bytes. |
| SeriStream.Writer.PushInteger | MFServer/core/MFLuaSeri.c:137-169 | The tag and the word of each size class are the specified form of the integer. |
| SeriStream.Writer.PushString | MFServer/core/MFLuaSeri.c:185-208 | A string of any length class is written in the specified form. |
| SeriStream.Writer.PackTable | MFServer/core/MFLuaSeri.c:212-296 | A table is its array part up to the border, its hash part and a nil. |
| SeriStream.Writer.PackOne | MFServer/core/MFLuaSeri.c:298-345 | The recursive packer writes the specified bytes and refuses exactly values deeper than the limit. |
| SeriStream.Writer.Flatten | MFServer/core/MFLuaSeri.c:539-558 | The block-wise copy gives exactly the bytes pushed. |
| SeriStream.Pack | MFServer/core/MFLuaSeri.c:601-614 | Packing succeeds exactly when no value is too deep and then gives the bytes of all values. |
| SeriStream.Reader.UnpackOne | MFServer/core/MFLuaSeri.c:528-537 | The reader, one checked read at a time, never reads past the input before it fails and meets the specification on every input. |
| SeriStream.Reader.PushValue | MFServer/core/MFLuaSeri.c:472-526 | The switch over the type reads every plain value as specified; a string length that is negative as an int takes the reader outside its input. |
| SeriStream.Reader.ReadInteger | MFServer/core/MFLuaSeri.c:364-406 | One, two, four or eight bytes are read as specified, or the stream is refused. |
| SeriStream.Reader.ReadSize | MFServer/core/MFLuaSeri.c:440-453 | The item count is the cookie or a tagged integer cut to an int, as specified. |
| SeriStream.Reader.UnpackTable | MFServer/core/MFLuaSeri.c:439-470 | Array part of the size read, none for a negative one, then pairs up to a nil key, as specified, on every input. |
| SeriStream.Reader.UnpackAll | MFServer/core/MFLuaSeri.c:560-599 | Values are read until the input is used up or the first error. |
| Json.DenseIsArray | MFServer/3rd/cjson/lua_cjson.c:506-547 | A table with exactly the keys 1 to n, in any order, is an array of n items if n is below 2^30, and not counted otherwise. |
| Json.UncountedExactly | MFServer/3rd/cjson/lua_cjson.c:506-547 | An int is left in the search for an array if and only if an index of 2^31 or more comes before any other key, or there are too many indices: 2^31, or 2^30 where there is no other key. |
| Json.LargeIndexUncounted | MFServer/3rd/cjson/lua_cjson.c:519-523 | The table with the one index 3,000,000,000 leaves the int. |
| Json.NamesAreObject | MFServer/3rd/cjson/lua_cjson.c:506-547 | A table with only string keys is an object, and the empty table an array of length 0. |
| Json.IntToken | MFServer/3rd/cjson/lua_cjson.c:1017-1044 | A printed integer of at most 14 digits is read exactly, whatever may follow a value. |
| JsonText.StringRoundTrip | MFServer/3rd/cjson/lua_cjson.c:906-964 | A printed string reads back, any bytes included, and nothing of what follows is taken. |
| JsonText.CodePointRead | MFServer/3rd/cjson/lua_cjson.c:840-896 | Every code point escaped as one unit or a surrogate pair becomes its UTF-8 form. |
| JsonText.Pairing | MFServer/3rd/cjson/lua_cjson.c:879-883 | Joining the surrogate pair of a code point gives it back. |
| JsonText.LoneSurrogate | MFServer/3rd/cjson/lua_cjson.c:853-877 | A surrogate without its partner is refused. |
| JsonText.Utf8RoundTrip | MFServer/3rd/cjson/lua_cjson.c:796-830 | The UTF-8 form determines its code point, with continuation bytes in range. |
| JsonRoundTrip.PrintsUnlessDeep | MFServer/3rd/cjson/lua_cjson.c:549-570 | A value with counted tables and without sparse arrays prints exactly when it is not nested too deep. |
| JsonRoundTrip.ValueRead | MFServer/3rd/cjson/lua_cjson.c:1260-1292 | A printed value reads back inside any context, taking exactly its own text. |
| JsonRoundTrip.TextNoNul | MFServer/3rd/cjson/lua_cjson.c:1307-1313 | No printed text holds a NUL, so the encoding check never stops one. |
| JsonRoundTrip.DecodeText | MFServer/3rd/cjson/lua_cjson.c:1294-1332 | Decoding the text of any value that prints succeeds, and with which value. |
| JsonRoundTrip.KeysKept | MFServer/3rd/cjson/lua_cjson.c:506-547 | The keys of a table survive exactly when it is a dense array or has only string keys. |
| JsonRoundTrip.SameIffPlain | MFServer/3rd/cjson/lua_cjson.c:639-678 | The value read is the value printed exactly when every table is a dense array or has only string keys. |
| JsonRoundTrip.RoundTrip | MFServer/3rd/cjson/lua_cjson.c:1294-1332 | decode(encode(v)) is v for every tree of byte strings, booleans, null, exact integers, dense arrays and string-keyed objects, and for no other value with counted tables that prints. |
| JsonLayout.LayoutIrrelevant | MFServer/3rd/cjson/lua_cjson.c:1055-1062 | Blanks, tabs, line feeds and carriage returns before, between and behind the tokens of any printed value never change what is decoded. |
| JsonLayout.NothingRead | MFServer/3rd/cjson/lua_cjson.c:1171-1257 | White space between empty brackets or braces leaves an empty table. |
| JsonLayout.ControlStops | MFServer/3rd/cjson/lua_cjson.c:427-430 | Any other control character where a token is expected fails the parser, at every place of a text. |
| JsonLayout.ControlRefused | MFServer/3rd/cjson/lua_cjson.c:1055-1062 | Before a value or behind it such a character makes the text invalid. |
| JsonForms.GivesBack | MFServer/3rd/cjson/lua_cjson.c:1294-1332 | Decoding the text of any value of dense arrays and string-keyed tables, at most 1000 deep, gives the same value, by a definition that mentions neither printing nor parsing. |
| JsonForms.ItemOrder | MFServer/3rd/cjson/lua_cjson.c:579-599 | Items are printed in the order of their indices with a comma between any two. |
| JsonForms.TableForms | MFServer/3rd/cjson/lua_cjson.c:681-722 | A table with the keys 1 to n is printed between brackets, one with string keys or none between braces. |
| JsonForms.EscapeForms | MFServer/3rd/cjson/lua_cjson.c:166-200 | Which bytes are escaped in a string, and with which characters. |
| JsonForms.StringPieces | MFServer/3rd/cjson/lua_cjson.c:906-964 | Inside a string every byte but NUL, the quotation mark and the backslash is read as itself. |
| JsonForms.EscapePieces | MFServer/3rd/cjson/lua_cjson.c:447-458 | Behind a backslash eight characters stand for themselves or a control character; any other one but u, or the end of the text, is refused. |
| JsonForms.SparseExactly | MFServer/3rd/cjson/lua_cjson.c:506-547 | A table of positive integer keys up to n is an array unless n is above 10 and above twice the number of keys. |
| JsonForms.TrailingRefused | MFServer/3rd/cjson/lua_cjson.c:1323-1327 | Anything but white space behind a value makes the text invalid. |
| JsonForms.ItemSeparated | MFServer/3rd/cjson/lua_cjson.c:1222-1257 | An item that is followed by neither a comma nor a bracket, the end of the text included, makes it invalid. |
| JsonForms.PairSeparated | MFServer/3rd/cjson/lua_cjson.c:1171-1219 | A pair that is followed by neither a comma nor a brace makes the text invalid. |
| JsonForms.KeyRefused | MFServer/3rd/cjson/lua_cjson.c:1190-1191 | A key that is no string makes the text invalid. |
| JsonForms.ColonRefused | MFServer/3rd/cjson/lua_cjson.c:1196-1198 | A key without a colon behind it makes the text invalid. |
| JsonForms.DeepRefused | MFServer/3rd/cjson/lua_cjson.c:1157-1168 | More than 1000 open brackets make the text invalid, whatever follows. |
| StrBuf.LinearFallsShort | MFServer/3rd/cjson/strbuf.c:153-156 | For every buffer with a linear increment that is asked to grow: the new size is the old one rounded up, and the bytes fit if and only if that happens to be enough. |
| StrBuf.LinearGrowsOnce | MFServer/3rd/cjson/strbuf.c:153-156 | From a multiple of the increment such a buffer does not grow at all. |
| StrBuf.OwnEnsured | MFServer/3rd/cjson/strbuf.c:134-159 | A buffer grown by doubling from its default size can be given room for n characters if and only if they and a NUL fit 1023 * 2^21. |
| StrBuf.DoublingNeverEnds | MFServer/3rd/cjson/strbuf.c:148-152 | Beyond that size the doubling int wraps around and never reaches what is asked for. |
| StrBuf.Buffer.constructor | MFServer/3rd/cjson/strbuf.c:44-66 | A new buffer is empty with room for its length and a NUL; a length of 0 or less, as an int, gives the default size. |
| StrBuf.Buffer.SetIncrement | MFServer/3rd/cjson/strbuf.c:84-92 | Exactly the increments 0 and -1 are refused. |
| StrBuf.Buffer.CalculateNewSize | MFServer/3rd/cjson/strbuf.c:134-159 | The multiplying loop, the rounding and the exact shrinking give the specified size, or the specified failure of the int arithmetic. |
| StrBuf.Buffer.Resize | MFServer/3rd/cjson/strbuf.c:164-180 | Resizing keeps the contents and takes the specified step or fails exactly where it does. |
| StrBuf.Buffer.EnsureEmptyLength | MFServer/3rd/cjson/strbuf.h:95-99 | For every int, negative ones included: the contents are kept and the space is the specified one, or the specified failure occurs. |
| StrBuf.Buffer.AppendCharUnsafe | MFServer/3rd/cjson/strbuf.h:122-125 | The character is appended if and only if there is room for it; without room the write is outside the buffer. |
| StrBuf.Buffer.AppendMemUnsafe | MFServer/3rd/cjson/strbuf.h:134-138 | The bytes are appended if and only if there is room for them. |
| StrBuf.Buffer.AppendString | MFServer/3rd/cjson/strbuf.c:182-198 | The bytes up to the NUL are appended, each behind a check of its own, failing exactly where the specified space does. |
| JsonEncoder.Encoder.AppendAllEscaped | MFServer/3rd/cjson/lua_cjson.c:492-498 | The loop appends the escaped text and stays inside the buffer exactly when the specified space does. |
| JsonEncoder.Encoder.AppendString | MFServer/3rd/cjson/lua_cjson.c:476-500 | The quoted, escaped string is appended behind one reservation of (int)(len * 6 + 2), inside the buffer exactly when the specified space is. |
| JsonSpace.StringsInsideExactly | MFServer/3rd/cjson/lua_cjson.c:481-488 | In a buffer of the encoder's own: every string of n bytes is printed inside the buffer and the ints if and only if length + 6n + 3 <= 1023 * 2^21. |
| JsonSpace.PlainStringLeaves | MFServer/3rd/cjson/lua_cjson.c:488-488 | For every n with 2^31 <= 6n + 2 < 2^32 nothing is reserved and n plain characters leave a new buffer. |
| JsonSpace.FirstLengthThatLeaves | MFServer/3rd/cjson/lua_cjson.c:488-488 | 357,913,941 plain characters leave a new buffer. |
| JsonSpace.ValueInside | MFServer/3rd/cjson/lua_cjson.c:681-722 | A value whose worst case, summed over its parts, fits the largest size is printed without leaving the buffer. |
| JsonEncoder.Encoder.AppendNumber | MFServer/3rd/cjson/lua_cjson.c:601-637 | An exact integer is appended behind a reservation of 32 characters, which it fits. |
| JsonEncoder.Encoder.ArrayLength | MFServer/3rd/cjson/lua_cjson.c:506-547 | The loop over the keys, in ints, decides array, object or too sparse, or leaves its int. |
| JsonEncoder.Encoder.AppendArray | MFServer/3rd/cjson/lua_cjson.c:579-599 | Items 1 to n with commas between, appended exactly when every item prints and the specified space is not left; refused only over an item that does not print. |
| JsonEncoder.Encoder.AppendObject | MFServer/3rd/cjson/lua_cjson.c:639-678 | All pairs with commas between, appended exactly when every value prints and the specified space is not left; refused only over a value that does not print. |
| JsonEncoder.Encoder.AppendData | MFServer/3rd/cjson/lua_cjson.c:681-722 | The recursive encoder appends the specified text exactly when the value prints, every table met is counted and the specified space is not left; it refuses only values that do not print, and is lost only where an int or that space is left. |
| JsonEncoder.Encoder.Encode | MFServer/3rd/cjson/lua_cjson.c:724-753 | The text of the value exactly when it prints and neither an int nor the specified space is left; an error only for one that does not print. |
| JsonEncoder.EncodeFresh | MFServer/3rd/cjson/lua_cjson.c:724-753 | With a new encoder, every value with counted tables whose worst case is at most 1023 * 2^21 - 1 is encoded, or refused exactly when it does not print. |
| JsonParser.Parser.DecodeHex4 | MFServer/3rd/cjson/lua_cjson.c:773-792 | Four hex digits are read without passing the terminator. |
| JsonParser.Parser.AppendUnicodeEscape | MFServer/3rd/cjson/lua_cjson.c:840-896 | An escape, or a pair of them, appends its UTF-8 bytes to the scratch buffer, which is never checked, or spills exactly when they do not fit it. |
| JsonParser.Parser.NextStringToken | MFServer/3rd/cjson/lua_cjson.c:906-964 | A string token is decoded as specified, and the scratch buffer is spilled exactly when the decoded bytes and a NUL do not fit it. |
| JsonScratch.ScratchHoldsExactly | MFServer/3rd/cjson/lua_cjson.c:1315-1318 | The scratch buffer made from (int)json_len holds every string of every text of n bytes if and only if n < 2^31 - 1. |
| JsonScratch.LongTextLeaves | MFServer/3rd/cjson/lua_cjson.c:1315-1318 | For every n from 2^31 - 1 on, a text of n bytes that is one string does not fit its scratch buffer. |
| JsonParser.Parser.NextToken | MFServer/3rd/cjson/lua_cjson.c:1050-1127 | The tokenizer meets the specification on every input and never reads behind the terminator. |
| JsonParser.Parser.NextNumberToken | MFServer/3rd/cjson/lua_cjson.c:1017-1044 | A number is taken as strtod says, and a plain integer is never classed as a floating-point number. |
| JsonParser.Parser.ProcessValue | MFServer/3rd/cjson/lua_cjson.c:1260-1292 | A value in any context is parsed as specified and the nesting depth restored. |
| JsonParser.Parser.ParseObjectContext | MFServer/3rd/cjson/lua_cjson.c:1171-1219 | The object loop meets the specification on every input, the depth limit included. |
| JsonParser.Parser.ParseArrayContext | MFServer/3rd/cjson/lua_cjson.c:1222-1257 | The array loop meets the specification on every input, the depth limit included. |
| JsonParser.DecodeText | MFServer/3rd/cjson/lua_cjson.c:1294-1332 | The parser as a whole decodes every input as specified and terminates, unless it leaves its scratch buffer; it never does on a text of fewer than 2^31 - 1 bytes and always does on one that begins with too long a string. |
| JsonParser.LongTextTooLong | MFServer/3rd/cjson/lua_cjson.c:1315-1318 | For every n from 2^31 - 1 on there is a text of n bytes on which the parser is lost. |
| Snowflake.IdFields | MFServer/core/MFSnowflake.hpp:96-101 | Ids are non-negative 64-bit numbers from which every field can be read back. |
| Snowflake.IdsDiffer | MFServer/core/MFSnowflake.hpp:96-101 | Two generators never give one id, nor does one generator for two (time, sequence) pairs in one window of 2^41 ms. |
| Snowflake.GeneratedIdsDiffer | MFServer/core/MFSnowflake.hpp:77-102 | The ids of one generator on a nondecreasing clock are pairwise distinct within such a window. |
| Snowflake.Generator.WaitNextMillis | MFServer/core/MFSnowflake.hpp:112-120 | Waiting ends at the first later clock reading. |
| Snowflake.Generator.NextId | MFServer/core/MFSnowflake.hpp:77-102 | Every id carries a (time, sequence) pair later than all before it: the clock's reading with the next sequence number or 0, or, when 4096 are used up, a later reading with 0. |

## Left out

General: allocation failure, memory freed on errors, logging, sockets, event loops and the Lua VM itself. Where an int, a
shift or a cast is known to decide a promise stated here it is modelled, unless a line below says otherwise.

- Hash map: the max_load_factor setter, copying, moving and swapping tables, transparent lookups and exceptions thrown by constructors; key equality is Dafny's. Stored distances are unbounded, which FastMap.DistancesFit justifies below 2^24 buckets. The load factor is 0.8.
- Cache: a whole tick and a whole cache operation are one atomic step each; tickInterval is 1; the insert and erase hooks, the mode without wheels, the destructor and callbacks that call back into the cache are not modelled. Equal wrapper entries of one bucket share one set element.
- PbTable.Table.Get: key 0 is found exactly when the table has a zero entry; its payload is read at value level, since a resize may re-add it.
- Protobuf table: `pb_delfield` and `pb_deltype`, and the overflow of 32-bit byte offsets in huge tables.
- Protobuf codec: floats and doubles, integers passed as strings, the int64 and enum output modes, hooks, metatables and explicit defaults, descriptor loading, error messages. The encoder's buffer is a growing byte sequence there, which `PbBuffer` is while it holds less than 2^31 bytes.
- Scheduler: lists of 2^32 and more destinations, closing services and `delete this`, shutdown, hot-reload messages, liveness. Queues are linearizable and memory is sequentially consistent.
- Redis: the socket, the password exchange's content, `reserve` and exceptions from it, recursion depth, texts of error messages, timers; each pool operation is atomic and the blocking wait is a retry.
- MessagePack: floating-point numbers are opaque bytes; tables and floats as keys, `unpack_one` and `unpack_limit`, counts of 2^31 and more.
- Seri: floating-point numbers and pointers are opaque bytes when read; when packed, every float takes the integer path (MFServer/core/MFLuaSeri.c:309-313), so 1.5 is written as 0, which the model, having no floats to pack, does not show; the `__pairs` metamethod and userdata; the lengths and borders written are below 2^31, as is the whole stream, the host is little-endian, and the links of the block chain are the order of a sequence.
- JsonSpace.ValueInside: the bound for whole values is sufficient only, since one worst-case length is taken for each number and string; for strings it is exact.
- JSON: what the program does after it has left a buffer or an int; texts of which only a later string is too long for the scratch buffer are covered token by token. The item numbers of decoded arrays are unbounded (2^31 items take a text of 2^32 bytes). Floating-point numbers (what `strtod` takes is a parameter), numbers of 15 digits and more when printing, table keys other than strings and integers, the configuration options, the position in error messages.
- Snowflake: the spin lock, and a clock that goes back.
- Sockets, HTTP, WebSocket, SQL, file watching, the profiler, `MFStripedMap`, `MFShareTable`, object pools and annotation scanning: input and output, or easy members.
