# Verification of the game data middleware's stateful cores

This project models the parts of the middleware that carry state and states what
they keep over whole runs. `dafny verify dfyconfig.toml` checks all of it.

| module(s) | what it models |
|---|---|
| `RecencyList`, `LruCaches` | the LRU cache: pointer surgery on a doubly linked list and a map, against a list of entries, most recently used first |
| `HeapOrder`, `IndexedHeap` | the priority queue with handles, driven by `container/heap`, whose sifts are written out |
| `Wire`, `Frames`, `Codec` | the binary frame format, CRC-32 included, its encoder and its decoder |
| `CrcReference`, `CrcCheck` | what that checksum is, apart from any register: a remainder of long division, and the check value of the standard |
| `Connections` | the stream reader that cuts frames out of what the network delivers |
| `ItemStore`, `Transfer`, `GameStock`, `Holdings` | the item table, transfers whose DAO calls interleave and may fail, and what they conserve, kind by kind, game by game and user by user |
| `CacheLevels`, `CacheManager`, `CacheRaces`, `Protection` | the two cache levels, the manager over them, its operations interleaved, the negative-lookup filter and the breaker |
| `RingBuffers`, `Buffers` | the byte ring buffer with its one- and two-piece copies |
| `TimeWheels`, `Modular` | the time wheel and the remainders it rests on |
| `BulkAllocators` | the doubling buffer allocator |
| `TaskQueues` | the stable priority queue, its workers and `Close`, interleaved |
| `ResponseTimes`, `Float64` | running statistics, exchange sort, percentiles, and the rounding in their indices |
| `PlayerStats`, `Int64` | the level loop and runs of stat updates |
| `Wrappers`, `Sequences`, `Reals` | shared vocabulary |

Every class is a Go struct that its methods update in place, with the same
fields, branches and constants. A ghost history or a ghost abstract value ties it
to a function on plain values, and the theorems about runs are lemmas on that
function. A call that the outside may fail (a SQL statement, a Redis or bigcache
call) takes a flag that says whether it does. Times are parameters.

## Where the code does not do what one would expect

Each of these behaviours has a lemma with its exact condition, for all inputs.

- `ReadMessage` is described as handling glued and split packets
  (`internal/protocol/connection.go:174`). Split packets are handled
  (`Reassembly`). Glued ones are not: `Decode` takes the checksum over the whole
  buffer (`internal/protocol/codec.go:269-274`), so a frame with other bytes behind
  it in the buffer is accepted exactly when those bytes leave the checksum as it
  was (`TrailingBytes`, `GluedFrames`). Since the buffer is kept after a failure,
  the connection then never delivers a message again. For any messages and any
  cutting of their frames into chunks, they arrive up to the first one that is
  read with such bytes behind it, and none after it (`SessionExactly`). Of all
  texts of one length of up to four bytes that may be read directly behind a
  frame, all but at most one do this (`GluedBytesStick`).
- `Encode` cuts an identifier or body that does not fit its length field, without
  an error; nothing is lost exactly when everything fits (`LosslessExactly`).
- A cache capacity of zero or less means ten, so a cache "of capacity 0" may hold
  what one of capacity 5 has evicted (`InclusionExactly`).
- The time wheel rounds a delay down to whole ticks, counts from the last tick and
  wraps round. A task is never launched before its delay is over exactly when the
  delay is less than a tick on a wheel of several slots, or a whole number of
  ticks and less than a turn of the wheel (`NeverEarlyExactly`). With a tick of
  1000 ms, 1999 ms can be over after 1001 (`AlmostTwoSeconds`). A delay of at least
  a tick and less than a turn is kept to within a tick (`LaunchWindow`).
- The result of the refund of a failed transfer is ignored. Stored quantity is
  what it was exactly when no refund failed (`Quiescence`).
- A transfer of an item without a game may add to the receiver's row of any game.
  The quantity of a game is conserved by all transfers, however they interleave
  and fail, exactly when nothing of the kind without a game can be moved, or no row
  of that game receives it or can be made to (`GameConservedExactly`; two rows that
  leak are in `TwoSwordsLeak`).
- `Manager.Set` reports success when a level fails. The levels are then the one map
  one expects exactly when L2 took the value or had it and L1 took it, had it or
  is without the key (`SetExactly`); `DeleteExactly` and `ClearExactly` likewise.
- The manager has no lock. Operations on a key that run at the same time leave the
  levels coherent, whatever the order of their level calls, exactly when none
  writes, or all that write do the same and no `Get` beside them can have read
  something else (`RacesExactly`). So a `Get` beside a `Delete` can bring a deleted
  value back into L1.
- A backend error on a read is recorded as a miss, which makes later reads say that
  the key is not there for five minutes (`ReadFaultExactly`), and a write that
  bypasses the protection is not read for as long as its key is blocked
  (`DirectSetExactly`).
- From a minute after the last failure on, the breaker blocks exactly when the
  failure rate is over the threshold (`TripsExactly`); over it, no run of calls
  and failures ever returns a value again (`BreakerStaysOpenExactly`). Ten failures
  of a new breaker suffice (`FailsExactly`). `RecordFailure` has no caller in the
  repository, so today the breaker never opens (`Transparent`).
- The running minimum forgets a zero sample at the next one (`RunningMinExactly`).
- `calculateLevel` does not end on the four largest experiences (`LoopEndsExactly`).
- Coins or diamonds whose sum with a change is over an int64 wrap round to a negative
  amount and are then set to zero; up to there the sum is right (`SpentExactly`).

Two comments differ from the code, and the model follows the code: reading is said
to go on after a checksum error (`internal/protocol/connection.go:199`), but the
error is returned; and the frame format is given with each length field in front of
its identifier (`internal/protocol/codec.go:125`), but both lengths come first.

## Model

| member | source | states |
|---|---|---|
| LruCaches.LruCache.constructor | internal/common/datastruct.go:97-105 | an empty cache of the capacity given, or of capacity 10 when that is zero or less |
| LruCaches.LruCache.AddToHead | internal/common/datastruct.go:179-189 | the prev/next chain from head to tail becomes the item followed by the old chain, still without repetition |
| LruCaches.LruCache.RemoveItem | internal/common/datastruct.go:200-215 | the chain loses exactly this item, whose own pointers become nil |
| LruCaches.LruCache.MoveToHead | internal/common/datastruct.go:191-198 | the chain is the item followed by the rest in its old order |
| LruCaches.LruCache.RemoveTail | internal/common/datastruct.go:217-224 | chain, map and entries lose the last element together; nothing happens when empty |
| LruCaches.LruCache.SetExisting | internal/common/datastruct.go:112-117 | overwriting keeps chain and map in agreement and is the abstract Set step |
| LruCaches.LruCache.SetNew | internal/common/datastruct.go:119-130 | inserting in front, evicting the last entry beyond the capacity, is the abstract Set step |
| LruCaches.LruCache.Set | internal/common/datastruct.go:108-131 | the contents stay those of the whole history of operations replayed on a recency list, Set included |
| LruCaches.LruCache.Get | internal/common/datastruct.go:134-147 | returns the entry's value or nothing, and a hit is the value an unbounded map would hold after the same history; the entry moves to the front |
| LruCaches.LruCache.Delete | internal/common/datastruct.go:150-161 | the entry leaves map and chain; the order of the rest is kept |
| LruCaches.LruCache.Len | internal/common/datastruct.go:164-168 | the length of the recency list, never over the capacity |
| LruCaches.LruCache.Clear | internal/common/datastruct.go:171-177 | nothing is left |
| LruCaches.IndexedCut | internal/common/datastruct.go:150-161 | deleting an item's key from the map leaves the map holding exactly the rest of the chain |
| RecencyList.StepShape | internal/common/datastruct.go:107-177 | every operation keeps keys distinct and the length within the capacity |
| RecencyList.RunShape | internal/common/datastruct.go:107-177 | so does every run |
| RecencyList.StepInclusion | internal/common/datastruct.go:107-177 | one operation keeps the smaller cache's list a subsequence of the larger one's, together with the bound on the difference of their lengths |
| RecencyList.Inclusion | internal/common/datastruct.go:107-177 | for the same run a larger cache hits, with the same value, wherever a smaller one does |
| RecencyList.InclusionExactly | internal/common/datastruct.go:97-105 | inclusion over all runs holds if and only if the effective capacities are ordered, which the given ones need not be |
| RecencyList.FillSize | internal/common/datastruct.go:119-130 | filling with fresh keys keeps the latest capacity-many |
| RecencyList.HoldsAsGiven | internal/common/datastruct.go:97-131 | after setting n fresh keys a cache holds the smaller of n and the capacity given, 10 standing for one of zero or less |
| RecencyList.RoomyIsPlain | internal/common/datastruct.go:107-177 | a cache with room for the whole run holds exactly what an unbounded map holds |
| RecencyList.NeverStale | internal/common/datastruct.go:134-147 | at any capacity, what is cached is the value last set and not deleted or cleared since |
| RecencyList.StepRecent | internal/common/datastruct.go:107-224 | an operation on another key moves at most that key ahead |
| RecencyList.Retention | internal/common/datastruct.go:107-224 | a key just used survives every run that does not remove it and touches fewer distinct other keys than the capacity |
| HeapOrder.UpStep | internal/common/datastruct.go:256-267 | one swap of the upward sift moves the one broken place of the heap to the parent |
| HeapOrder.DownStep | internal/common/datastruct.go:256-278 | one swap of the downward sift moves it to the smaller child |
| HeapOrder.SmallestChild | internal/common/datastruct.go:251-253 | the child that the comparison picks is preceded by no other |
| HeapOrder.RootIsFirst | internal/common/datastruct.go:301-307 | for any strict weak order no element of a heap precedes its root |
| IndexedHeap.PriorityQueue.constructor | internal/common/datastruct.go:240-245 | an empty queue over the given order |
| IndexedHeap.PriorityQueue.Swap | internal/common/datastruct.go:256-260 | two items trade places and their indices follow |
| IndexedHeap.PriorityQueue.Push | internal/common/datastruct.go:263-267 | the item is appended and knows its place |
| IndexedHeap.PriorityQueue.Pop | internal/common/datastruct.go:270-278 | the last item leaves with index -1; no other handle's membership changes |
| IndexedHeap.PriorityQueue.HeapUp | internal/common/datastruct.go:281-288 | sifting up restores the heap, keeps the elements and every back-pointer |
| IndexedHeap.PriorityQueue.SinkFrom | internal/common/datastruct.go:291-298 | the loop of the downward sift restores the heap once a child must rise |
| IndexedHeap.PriorityQueue.HeapDown | internal/common/datastruct.go:291-298 | sifting down restores the heap or reports that nothing moved |
| IndexedHeap.PriorityQueue.HeapFix | internal/common/datastruct.go:310-314 | one changed position is repaired whichever way it must move; index -1 does nothing |
| IndexedHeap.PriorityQueue.HeapRemove | internal/common/datastruct.go:317-319 | the item at any position leaves and the rest is a heap again |
| IndexedHeap.PriorityQueue.PushItem | internal/common/datastruct.go:281-288 | adds exactly this element under a new live handle |
| IndexedHeap.PriorityQueue.PopItem | internal/common/datastruct.go:291-298 | takes out one element that no element precedes, and only its handle becomes -1 |
| IndexedHeap.PriorityQueue.Peek | internal/common/datastruct.go:301-307 | shows the value of an element that none precedes |
| IndexedHeap.PriorityQueue.Update | internal/common/datastruct.go:310-314 | exchanges one element for another under the same handle; a handle that has left leaves the queue as it was |
| IndexedHeap.PriorityQueue.Remove | internal/common/datastruct.go:317-319 | takes out exactly the element of a live handle, wherever it is |
| IndexedHeap.NextInOrder | internal/common/datastruct.go:291-298 | popping extends an ordered list of everything that came out |
| IndexedHeap.PopAll | internal/common/datastruct.go:291-298 | popping until empty yields every element once, none preceding an earlier one |
| Wire.Read16 | internal/protocol/codec.go:148-149 | two bytes are the big-endian form of x if and only if they read as x |
| Wire.Read32 | internal/protocol/codec.go:156-157 | the same for four bytes |
| Wire.Read64 | internal/protocol/codec.go:161-162 | the same for eight bytes |
| Wire.Order16 | internal/protocol/codec.go:148-149 | numbers are ordered as their two bytes are, the first different byte deciding |
| Wire.Order32 | internal/protocol/codec.go:156-157 | so for four bytes |
| Wire.Order64 | internal/protocol/codec.go:161-162 | so for eight bytes |
| Wire.ToSigned | internal/protocol/codec.go:230-230 | the signed timestamp is the one whose unsigned form was read |
| Wire.CrcBitInjective | internal/protocol/codec.go:195-195 | a step of the CRC-32 register loses nothing |
| Wire.CrcBitsLinear | internal/protocol/codec.go:195-195 | the register after any number of steps is linear in its contents |
| Wire.CrcAllIsWord | internal/protocol/codec.go:195-195 | taking in up to four bytes is mixing them into the register at once and then stepping |
| Wire.BurstInjective | internal/protocol/codec.go:195-195 | from the same register, different texts of the same length of up to four bytes lead to different registers |
| Wire.BurstMatters | internal/protocol/codec.go:192-195 | changing up to four consecutive bytes always changes the CRC-32 checksum |
| CrcReference.SamePolynomial | internal/protocol/codec.go:195-195 | the polynomial of the register is the generator of IEEE 802.3, named by its powers of x |
| CrcReference.DivideStep | internal/protocol/codec.go:195-195 | one step of the long division is one step of the register |
| CrcReference.RegisterDivides | internal/protocol/codec.go:195-195 | over any bits, the register ends with the remainder of the division |
| CrcReference.BitsAtOnce | internal/protocol/codec.go:195-195 | up to 32 bits can be taken in one at a time or mixed in at once |
| CrcReference.ChecksumIsRemainder | internal/protocol/codec.go:192-195 | for every text the checksum is the complemented remainder, by the generator, of the text times x^32 with its first 32 bits complemented |
| CrcReference.ChecksumOfNothing | internal/protocol/codec.go:195-195 | the checksum of no bytes is 0 |
| CrcCheck.HoldsBit | internal/protocol/codec.go:195-195 | a step of the register, on its eight hexadecimal digits |
| CrcCheck.HoldsByte | internal/protocol/codec.go:195-195 | a byte taken in, on the digits |
| CrcCheck.CheckValue | internal/protocol/codec.go:195-195 | the checksum of the nine digits from 1 to 9 is 0xCBF43926 |
| Frames.Parse | internal/protocol/codec.go:205-284 | whatever the bytes, consumed stays within them, for results and for insufficient data |
| Frames.FailsExactly | internal/protocol/codec.go:205-277 | each decoding error, with the bytes consumed that it reports, comes exactly for its lengths, and the checksum error exactly when all but bytes 20 to 23 do not sum up to the number in these |
| Frames.TrailingBytes | internal/protocol/codec.go:205-284 | a frame followed by any bytes decodes, to the right message, exactly when they leave the checksum alone, and is a checksum error otherwise |
| Frames.RoundTrip | internal/protocol/codec.go:126-284 | decoding an encoded message gives it back with lengths and checksum filled in and consumes the whole frame |
| Frames.LosslessExactly | internal/protocol/codec.go:132-134 | identifiers and body arrive whole if and only if they fit their length fields |
| Frames.FrameFields | internal/protocol/codec.go:136-178 | every fixed field of a frame stands at its place, the checksum of all other bytes at byte 20 |
| Frames.TextFields | internal/protocol/codec.go:180-189 | the identifiers and the body stand behind the fixed fields, in this order |
| Frames.Canonical | internal/protocol/codec.go:126-284 | bytes accepted as a whole are exactly the encoding of the result |
| Frames.StrictPrefix | internal/protocol/codec.go:205-266 | every strict prefix of a frame is an insufficient-data error, never a message or a checksum error |
| Frames.BurstCorrupted | internal/protocol/codec.go:205-284 | a frame with up to four consecutive bytes changed, outside the checksum field or inside it, is never accepted |
| Frames.OneByteCorrupted | internal/protocol/codec.go:205-284 | a frame with any one byte changed is never accepted |
| Frames.BurstTrailing | internal/protocol/codec.go:269-277 | of all texts of one length of up to four bytes that can follow a frame at most one lets it decode |
| Codec.PutFront | internal/protocol/codec.go:140-170 | the fields before the checksum stand in the buffer in order, the rest is untouched |
| Codec.PutBack | internal/protocol/codec.go:172-189 | so do the lengths, identifiers and body after it |
| Codec.Encode | internal/protocol/codec.go:126-202 | the fresh buffer is the frame of the message as it was; of the message only the checksum changes, not the body length |
| Codec.DecodeFixed | internal/protocol/codec.go:210-245 | the moving offset reads every fixed field at its place |
| Codec.Decode | internal/protocol/codec.go:205-284 | the offset walk stays in bounds on every input and computes Parse |
| Connections.Connection.constructor | internal/protocol/connection.go:47-80 | a connecting connection with nothing read |
| Connections.Connection.Start | internal/protocol/connection.go:83-96 | the connection counts as connected |
| Connections.Connection.TryDecodeMessage | internal/protocol/connection.go:221-240 | success takes exactly the bytes of the message off the front of the buffer, failure leaves it |
| Connections.Connection.ReadChunk | internal/protocol/connection.go:207-217 | one read is appended and counted |
| Connections.Connection.TrySettle | internal/protocol/connection.go:183-200 | the buffer settles a call exactly when it holds 28 bytes that decode or fail for good; only a message takes bytes |
| Connections.Connection.ReadMessage | internal/protocol/connection.go:175-218 | the result, the buffer left and what is still to come are those of Read; a message takes exactly its own bytes out of the stream and an error none; bytes received are always those taken out followed by the buffer, none lost, doubled or reordered |
| Connections.ReadOne | internal/protocol/connection.go:175-240 | whatever the chunks of one frame are, one call returns its message and leaves nothing of it |
| Connections.Reassembly | internal/protocol/connection.go:175-240 | for any messages and any cutting of their frames in which no chunk crosses a frame end, successive calls return exactly those messages in order |
| Connections.GluedFrames | internal/protocol/connection.go:174-218 | wherever the bytes to come start with a frame, however they are cut and whatever is in the buffer already, one call returns its message, keeping what was read beyond it, exactly when the surplus leaves the checksum alone, and a checksum error with everything kept otherwise |
| Connections.StuckForever | internal/protocol/connection.go:194-198 | after a decoding failure every later call fails in the same way without reading |
| Connections.GluedFramesStick | internal/protocol/connection.go:174-218 | otherwise every one of any number of further calls fails in the same way, whatever follows |
| Connections.GluedBytesStick | internal/protocol/connection.go:174-218 | of any two different texts, of the same length of up to four bytes, that the last chunk of a frame, cut in any way, may bring beyond its end, at least one silences the connection |
| Connections.SessionArrivals | internal/protocol/connection.go:175-240 | for any messages and any cutting of their frames, the results of as many calls, computed from the chunks and checksums alone |
| Connections.SessionExactly | internal/protocol/connection.go:174-240 | the messages arrive in order up to the first one read with bytes behind it that change its checksum, and none after it; all arrive if and only if there is no such one |
| ItemStore.UserItemsExactly | internal/data/dao/dao.go:257-270 | the rows of this user, and of this game when one is named, all of them and no others |
| ItemStore.FindByIdExactly | internal/data/dao/dao.go:243-254 | a lookup finds a row if and only if the table has it under that id |
| ItemStore.Dao.GetItemByID | internal/data/dao/dao.go:243-254 | a row that comes back is in the table and has the id; if none does without an error, no row has it |
| ItemStore.Dao.GetUserItems | internal/data/dao/dao.go:257-270 | without an error, exactly the rows of this user, and of this game when one is named |
| ItemStore.Dao.ConsumeItem | internal/data/dao/dao.go:295-306 | takes the quantity off exactly when the row is there with enough of it, and otherwise changes nothing |
| ItemStore.Dao.AddItemQuantity | internal/data/dao/dao.go:309-317 | adds to the row; no row is not an error |
| ItemStore.Dao.CreateItem | internal/data/dao/dao.go:232-240 | appends a row unless its id is taken |
| ItemStore.StockAdjust | internal/data/dao/dao.go:295-317 | an update changes the stored sum of a selection by its delta when the row is selected, and by nothing otherwise |
| ItemStore.StockCreate | internal/data/dao/dao.go:232-240 | an insert adds the new row's weight |
| ItemStore.AdjustKeeps | internal/data/dao/dao.go:295-317 | an update that leaves no row negative keeps ids unique and every row's owner and attributes |
| ItemStore.PositionStable | internal/data/dao/dao.go:243-254 | an id found once is found at the same row ever after |
| Transfer.StepKeeps | internal/business/common/item_service.go:148-234 | every DAO call of a transfer keeps the table non-negative with unique ids and the transfer's own knowledge true |
| Transfer.StepBalance | internal/business/common/item_service.go:189-231 | what a call takes from or puts into the table is exactly what the transfer gains or gives of quantity in flight |
| Transfer.NextKeeps | internal/business/common/item_service.go:148-234 | with any number of transfers in any phase, one step of one of them keeps the invariant and the total |
| Transfer.Conservation | internal/business/common/item_service.go:148-234 | over every interleaving, with any failures, no quantity goes negative and stored, moving and missing quantity add up to the same |
| Transfer.Quiescence | internal/business/common/item_service.go:148-234 | when all transfers have come to rest, the stored quantity is what it was if and only if no refund failed, and less otherwise |
| Transfer.KindClosed | internal/business/common/item_service.go:180-186 | quantity per name and type is conserved on every table |
| Transfer.NextInv | internal/business/common/item_service.go:148-234 | one step of any transfer keeps the invariant and every row's id, owner and attributes |
| Transfer.NextTotal | internal/business/common/item_service.go:189-231 | and the total, when the credit it may make stays within the selection or outside it |
| Transfer.AloneIsRun | internal/business/common/item_service.go:148-234 | one call on its own is a run of any system it is part of |
| Transfer.FindSame | internal/business/common/item_service.go:180-186 | the loop finds the first of the receiver's rows with this name and type |
| Transfer.TransferItem | internal/business/common/item_service.go:148-234 | the method leaves the table and the answer that the process run alone does, for every pattern of failures; success and each error come exactly in their own case |
| Transfer.MoveQuantity | internal/business/common/item_service.go:189-233 | so does its writing part, from any state of the table; it succeeds exactly when debit and credit went through |
| Transfer.WithoutDebit | internal/business/common/item_service.go:149-193 | a call that does not get through the debit is rejected and changes nothing |
| Transfer.AfterDebit | internal/business/common/item_service.go:196-231 | after the debit the call succeeds, is refunded or loses the quantity, according to credit and refund |
| Transfer.FailureUndone | internal/business/common/item_service.go:200-226 | a failed transfer whose refund went through leaves the table exactly as it was |
| Transfer.SucceedsExactly | internal/business/common/item_service.go:148-234 | a transfer succeeds if and only if no call fails, the quantity is positive, the row is there, the sender's, large enough and tradable, and the receiver has a row of the kind or the new id is free |
| Transfer.AnswersExactly | internal/business/common/item_service.go:148-234 | on a table with unique ids, success and each error are answered if and only if their own condition, on rows, request and failing calls in the order of the checks, holds |
| Transfer.CreditsExactly | internal/business/common/item_service.go:172-230 | the credit goes through if and only if it does not fail and there is a row to add to or the new id is free |
| Transfer.SuccessMoves | internal/business/common/item_service.go:148-234 | a successful transfer, to oneself included, moves exactly the quantity asked for from what the sender holds of the kind to what the receiver holds, and nothing else of anyone |
| Holdings.StepFlow | internal/business/common/item_service.go:189-231 | each DAO call changes what a user holds by exactly what it changes in the transfer's account with that user |
| Holdings.HoldingsAccounted | internal/business/common/item_service.go:148-234 | over every interleaving with any failures, each user holds of each kind what the transfers account for and nothing else |
| Holdings.HoldingsFromStart | internal/business/common/item_service.go:148-234 | from requests on, a user holds what was held at the start, plus successful transfers to the user, less those from the user that succeeded, are on their way or were lost |
| GameStock.SuccessKeepsGameExactly | internal/business/common/item_service.go:172-230 | a successful transfer keeps the quantity of a game if and only if it does not add what it took from a row without a game to a row of that game |
| GameStock.FirstHeldReceives | internal/business/common/item_service.go:172-186 | what is taken from a row without a game goes to the first row of the kind its receiver holds in any game |
| GameStock.TightConserves | internal/business/common/item_service.go:148-234 | over every run with any failures, a game's quantity is conserved from a state in which nothing can leak into it |
| GameStock.LeakRun | internal/business/common/item_service.go:148-234 | from a leaky table there is a run of one or two transfers that changes it |
| GameStock.GameConservedExactly | internal/business/common/item_service.go:148-234 | for all lists of transfers and all their runs a game's quantity is conserved, if and only if the table to start from is not leaky |
| GameStock.TwoSwordsLeak | internal/business/common/item_service.go:172-203 | two rows on which one transfer moves two swords of no game into a game |
| CacheLevels.ApplyRefines | internal/infrastructure/cache/manager.go:52-171 | with healthy backends every operation, and L1 eviction at any moment, answers and acts as on one map, and keeps L1 a part of L2 |
| CacheLevels.RunRefines | internal/infrastructure/cache/manager.go:52-171 | so does every run, whichever levels are enabled |
| CacheLevels.SetExactly | internal/infrastructure/cache/manager.go:83-99 | a write with failures leaves the one map with the value in it if and only if L2 took or had the value and L1 took or had it or, before an L2, is without the key; otherwise the next read returns something else or what L2 does not hold |
| CacheLevels.DeleteExactly | internal/infrastructure/cache/manager.go:121-137 | a delete leaves the one map without the key if and only if no level that held it failed; otherwise the next read returns it all the same |
| CacheLevels.ClearExactly | internal/infrastructure/cache/manager.go:155-171 | a clear leaves the empty map if and only if no level with something in it failed; otherwise some key is read as before |
| CacheLevels.ExistsExactly | internal/infrastructure/cache/manager.go:140-152 | a presence check is right unless L1 fails on a key that is not there, or answers no and L2 fails on a key it holds |
| CacheLevels.GetExactly | internal/infrastructure/cache/manager.go:52-80 | a read never returns a wrong value, and misses a key that is there exactly when every level that holds it fails |
| CacheRaces.ReadRun | internal/infrastructure/cache/manager.go:52-80 | reads at the same time, with evictions, keep the levels coherent throughout |
| CacheRaces.WriteRun | internal/infrastructure/cache/manager.go:52-137 | so do writes that do the same, up to the one that is under way, and reads that can find nothing else |
| CacheRaces.SafeEndsWell | internal/infrastructure/cache/manager.go:52-137 | every interleaving of a safe batch of operations on a key, run to its end, leaves the levels coherent |
| CacheRaces.UnsafeRaces | internal/infrastructure/cache/manager.go:52-137 | every other batch has an interleaving that does not |
| CacheRaces.RacesExactly | internal/infrastructure/cache/manager.go:52-171 | all interleavings of a batch, with evictions, end coherent if and only if it has no write, or its writes all do the same and no Get of it can have read anything else |
| CacheRaces.WholeIsOperation | internal/infrastructure/cache/manager.go:52-171 | without anything in between, the level calls are the manager's operations, on this key alone |
| CacheRaces.CoherentIsEverywhere | internal/infrastructure/cache/manager.go:52-80 | levels are coherent if and only if they are at every key |
| CacheManager.Level.Get | internal/infrastructure/cache/local_cache.go:46-60 | the stored value, or which of the three errors |
| CacheManager.Level.Set | internal/infrastructure/cache/local_cache.go:63-69 | stores the value unless disabled or failing, and says which |
| CacheManager.Level.Delete | internal/infrastructure/cache/local_cache.go:81-87 | removes the key unless disabled or failing, L1 reporting a key that is not there |
| CacheManager.Level.Exists | internal/infrastructure/cache/redis_cache.go:101-109 | a lookup that works says whether the key is stored; one that fails counts as present in L1 and as absent in L2 |
| CacheManager.Level.Clear | internal/infrastructure/cache/local_cache.go:100-106 | empties the level unless disabled or failing |
| CacheManager.Manager.constructor | internal/infrastructure/cache/manager.go:22-49 | two empty levels, each enabled or not |
| CacheManager.Manager.Get | internal/infrastructure/cache/manager.go:52-80 | L1, else L2 with a copy into L1, else a miss, under every pattern of failures |
| CacheManager.Manager.Set | internal/infrastructure/cache/manager.go:83-99 | writes both levels as far as they work |
| CacheManager.Manager.Delete | internal/infrastructure/cache/manager.go:121-137 | deletes from both levels as far as they work |
| CacheManager.Manager.Exists | internal/infrastructure/cache/manager.go:140-152 | either level says so |
| CacheManager.Manager.Clear | internal/infrastructure/cache/manager.go:155-171 | clears both levels as far as they work |
| Protection.PenetrationProtection.IsBlockedKey | internal/infrastructure/cache/protection.go:128-145 | blocked for five minutes after the miss, forgotten at the first lookup after that |
| Protection.PenetrationProtection.RecordMiss | internal/infrastructure/cache/protection.go:148-160 | the miss is recorded, beside those of other keys, unless the filter is full |
| Protection.PenetrationProtection.ClearBlockedKey | internal/infrastructure/cache/protection.go:163-168 | the key, and no other, is unblocked |
| Protection.AvalancheProtection.ShouldBlock | internal/infrastructure/cache/protection.go:223-239 | open within a minute of a failure, or at ten requests and more than half of them failed |
| Protection.AvalancheProtection.RecordSuccess | internal/infrastructure/cache/protection.go:242-253 | counts the request and forgets earlier failures |
| Protection.AvalancheProtection.RecordFailure | internal/infrastructure/cache/protection.go:256-263 | counts request and failure and notes the time |
| Protection.ProtectedCache.GetWithProtection | internal/infrastructure/cache/protection.go:39-73 | reply and new state of filter, breaker and levels, under every pattern of failures |
| Protection.ProtectedCache.SetWithProtection | internal/infrastructure/cache/protection.go:76-89 | unblocks the key and writes through |
| Protection.OthersUntouched | internal/infrastructure/cache/protection.go:39-89 | a protected read or write of one key leaves every other key blocked at exactly the times it was |
| Protection.BlockedRead | internal/infrastructure/cache/protection.go:42-45 | a read of a blocked key returns no value and changes nothing |
| Protection.BlocksExactly | internal/infrastructure/cache/protection.go:39-73 | after a read of a key that is not blocked, it is blocked at exactly the times up to five minutes later, if the breaker let the read through, it missed and the filter had room; otherwise at none |
| Protection.HitStays | internal/infrastructure/cache/protection.go:39-73 | a value that was read is read again while L2 fails, if and only if L1 took the copy of it or held it before |
| Protection.FilterBounded | internal/infrastructure/cache/protection.go:148-168 | the filter never holds more than 10000 keys, and not the one just written |
| Protection.GetTransparent | internal/infrastructure/cache/protection.go:39-73 | while no blocked key is cached, a protected read answers what the manager would and keeps it so |
| Protection.ServeTransparent | internal/infrastructure/cache/protection.go:39-89 | every call keeps blocked keys out of the levels, the breaker closed and the filter within its bound |
| Protection.Transparent | internal/infrastructure/cache/protection.go:39-89 | when all writes go through the protection, every run of calls at any times answers as one plain map |
| Protection.DirectSetExactly | internal/infrastructure/cache/protection.go:39-73 | a read after a write that bypasses the protection returns the value if and only if the key is not blocked at that moment, the breaker is closed and some level is enabled |
| Protection.ReadFaultExactly | internal/infrastructure/cache/protection.go:56-66 | a later healthy read denies a key that is there if and only if the earlier one was let through, every level that holds the key failed then, the filter had room, and the five minutes are not over; otherwise it returns the value unless the breaker has tripped |
| Protection.RateExactly | internal/infrastructure/cache/protection.go:232-238 | the failure rate is over the threshold if and only if there are ten requests and more than half of them failed |
| Protection.BreakerTallies | internal/infrastructure/cache/protection.go:242-263 | over every run of calls and failures the breaker counts the hits and failures as total and the failures since the last hit as failed, with the time of the latest of them |
| Protection.TripsAfter | internal/infrastructure/cache/protection.go:223-239 | after any such run it blocks if and only if the latest failure since the last hit is less than a minute old, or there were ten and more than half of them failures since the last hit |
| Protection.TripsExactly | internal/infrastructure/cache/protection.go:223-239 | from a minute after the last failure on, the breaker blocks if and only if the rate is over the threshold |
| Protection.TripsForeverExactly | internal/infrastructure/cache/protection.go:223-239 | a breaker blocks at every time from now on if and only if its failure rate is over the threshold |
| Protection.StaysSilent | internal/infrastructure/cache/protection.go:39-73 | over the threshold, no run of calls and recorded failures returns a value to any read |
| Protection.GetsThrough | internal/infrastructure/cache/protection.go:223-253 | not over it, a write and a read get through at some later time |
| Protection.BreakerStaysOpenExactly | internal/infrastructure/cache/protection.go:223-263 | no run in time order returns a value to a read, if and only if the rate is over the threshold or no level is enabled |
| Protection.FailsExactly | internal/infrastructure/cache/protection.go:256-263 | a new breaker is over the threshold after n failures if and only if n is at least ten |
| RingBuffers.RingBuffer.constructor | internal/common/memory.go:97-102 | an empty queue, without any room when the size is 0 |
| RingBuffers.RingBuffer.AvailableData | internal/common/memory.go:167-172 | the number of queued bytes, at most size - 1 |
| RingBuffers.RingBuffer.AvailableSpace | internal/common/memory.go:175-177 | what is left of size - 1 |
| RingBuffers.RingBuffer.Store | internal/common/memory.go:116-131 | the copies, in one piece or two, append the data to the queue |
| RingBuffers.RingBuffer.Write | internal/common/memory.go:105-133 | accepts exactly as many bytes as there is room for; all bytes ever accepted are those delivered followed by those queued |
| RingBuffers.RingBuffer.Fetch | internal/common/memory.go:147-161 | the copies hand out the front of the queue |
| RingBuffers.RingBuffer.Read | internal/common/memory.go:136-164 | hands out exactly as many bytes as are wanted and there, oldest first, and leaves the rest of the caller's buffer alone; of a buffer of size 0, none |
| RingBuffers.FilledOnce | internal/common/memory.go:119-121 | a copy that fits before the end fills the free part |
| RingBuffers.FilledTwice | internal/common/memory.go:122-127 | so does a copy in two pieces |
| RingBuffers.FilledAppends | internal/common/memory.go:116-131 | filling the free part appends to the queue, wherever the cursors are |
| RingBuffers.Removed | internal/common/memory.go:147-161 | the bytes copied out are the front of the queue, wherever the cursors are |
| TimeWheels.TimeWheel.constructor | internal/common/datastruct.go:332-348 | an empty wheel with a tick of 1000 ms and 60 slots for non-positive settings |
| TimeWheels.TimeWheel.AddTask | internal/common/datastruct.go:365-382 | a task without delay is launched at once; the wheel stays that of the whole history |
| TimeWheels.TimeWheel.DoTick | internal/common/datastruct.go:397-409 | a tick launches exactly what the timetable of everything added has for it, in order of adding |
| TimeWheels.StepOnTime | internal/common/datastruct.go:365-409 | an operation keeps every slot equal to what is due when it comes round |
| TimeWheels.RunOnTime | internal/common/datastruct.go:365-409 | over every run each tick launches exactly the tasks due at it, a task added with t ticks being due at the (t mod size + 1)-th tick after |
| TimeWheels.Waits | internal/common/datastruct.go:365-409 | a task that goes at the d+1-th tick after its adding waits more than d ticks and at most d+1, so it is never early if and only if d ticks cover its delay |
| TimeWheels.Counted | internal/common/datastruct.go:372-381 | the wheel counts the delay modulo its turn, rounded down to whole ticks, and one tick, modulo the turn, for a delay below one |
| TimeWheels.Launched | internal/common/datastruct.go:365-409 | after any run and between any two ticks, an added task is due after more than what the wheel counts and at most a tick more |
| TimeWheels.LaunchWindow | internal/common/datastruct.go:365-409 | so a delay of at least a tick and less than a turn is kept to within a tick either way |
| TimeWheels.NeverEarlyExactly | internal/common/datastruct.go:365-382 | after any run, an added task is in the timetable and never goes before its delay is over, if and only if the delay is below a tick on a wheel of several slots, or whole ticks below a turn |
| TimeWheels.AlmostTwoSeconds | internal/common/datastruct.go:372-381 | 1999 ms on a wheel of 60 seconds can be over after 1001 |
| TimeWheels.Conservation | internal/common/datastruct.go:365-409 | every task is launched or waiting exactly as often as it was added |
| BulkAllocators.BulkAllocator.constructor | internal/common/memory.go:315-327 | as many distinct buffers of the size as asked for, none handed out |
| BulkAllocators.BulkAllocator.Allocate | internal/common/memory.go:330-349 | a buffer not handed out since the last reset; the count is the initial one times a power of two and at most max(initial, 2 * (peak - 1)) |
| BulkAllocators.BulkAllocator.Reset | internal/common/memory.go:352-357 | all buffers are available again |
| BulkAllocators.MakeBuffers | internal/common/memory.go:316-319 | pairwise distinct new buffers |
| TaskQueues.InsertStable | internal/infrastructure/async/queue.go:91-102 | inserting before the first lower priority keeps the queue sorted and first-come order within every priority |
| TaskQueues.StableSortUnique | internal/infrastructure/async/queue.go:83-123 | a list has only one stable sort by priority |
| TaskQueues.ServeInOrder | internal/infrastructure/async/queue.go:83-147 | a submit, a worker's take or a close keeps the queue sorted, bounded and in first-come order |
| TaskQueues.SubmitExactly | internal/infrastructure/async/queue.go:83-107 | a submit is accepted, and added, exactly when there is room |
| TaskQueues.TakeExactly | internal/infrastructure/async/queue.go:110-123 | a worker takes a task exactly when one waits, and then the front, which none outranks |
| TaskQueues.CloseExactly | internal/infrastructure/async/queue.go:140-147 | a close drops all that waits, in order and to no worker |
| TaskQueues.EveryRun | internal/infrastructure/async/queue.go:192-225 | over every interleaving of submits, workers and Close, accepted tasks are those waiting, taken and dropped, each once, and leave in order within each priority |
| TaskQueues.PriorityQueue.constructor | internal/infrastructure/async/queue.go:74-80 | an empty queue |
| TaskQueues.PriorityQueue.Enqueue | internal/infrastructure/async/queue.go:83-107 | accepts exactly when there is room and inserts at the one right place |
| TaskQueues.PriorityQueue.Dequeue | internal/infrastructure/async/queue.go:110-123 | takes the front, which no waiting task outranks |
| TaskQueues.PriorityQueue.Close | internal/infrastructure/async/queue.go:140-147 | drops everything that waits |
| TaskQueues.Drain | internal/infrastructure/async/queue.go:83-123 | emptying a queue that was only filled gives the stable sort of what went in |
| ResponseTimes.ResponseTimeStats.Add | test/benchmarks/http_qps_benchmark.go:58-72 | count, total, minimum and maximum stay those of the whole list |
| ResponseTimes.RunningMaxExact | test/benchmarks/http_qps_benchmark.go:69-71 | over durations the running maximum is the maximum |
| ResponseTimes.RunningMinExactly | test/benchmarks/http_qps_benchmark.go:66-68 | the running minimum is the minimum if and only if no duration was zero or the last one was |
| ResponseTimes.ExchangeSort | test/benchmarks/http_qps_benchmark.go:86-93 | the nested loops leave a sorted permutation |
| ResponseTimes.ResponseTimeStats.CalculatePercentiles | test/benchmarks/http_qps_benchmark.go:74-100 | each percentile is the value of its rank in the unsorted sample: enough samples at or below it, few enough below |
| ResponseTimes.RankMonotone | test/benchmarks/http_qps_benchmark.go:95-97 | a rank has one value, and higher ranks have no lower values |
| ResponseTimes.CountPermutation | test/benchmarks/http_qps_benchmark.go:82-93 | sorting changes no rank |
| ResponseTimes.PercentilesOrdered | test/benchmarks/http_qps_benchmark.go:95-97 | minimum, P50, P95, P99 and maximum are in order |
| Float64.CutOff | internal/benchmark/benchmark.go:387-389 | a product that is close enough to a number of hundredths before it is rounded to float64 has the right whole part after |
| Float64.IndexIsRank | internal/benchmark/benchmark.go:387-389 | the constant and the product each rounded to a nearest float64 and cut off, the indices are the whole-number ranks, for every slice that fits into memory |
| Float64.SomeProduct | internal/benchmark/benchmark.go:387-389 | a count and a share of at least a half always have a float64 product |
| Float64.TwentySamples | internal/benchmark/benchmark.go:388-388 | for 20 samples the product with the constant that 0.95 rounds to is below 19, and its rounding makes the index 19 |
| ResponseTimes.SomeComputed | internal/benchmark/benchmark.go:387-389 | the three products exist for every count |
| ResponseTimes.Summarize | internal/benchmark/benchmark.go:357-373 | minimum, maximum and the mean between them |
| ResponseTimes.Percentiles | internal/benchmark/benchmark.go:375-400 | the picks never miss their range and have the ranks asked for |
| ResponseTimes.CalculateStats | internal/benchmark/benchmark.go:345-400 | an empty sample changes nothing; otherwise Min <= P50 <= P95 <= P99 <= Max and Min <= Avg <= Max, each being what its name says |
| PlayerStats.LevelOf | internal/business/common/player_service.go:367-378 | the first level whose threshold is above the experience |
| PlayerStats.CalculateLevel | internal/business/common/player_service.go:367-378 | on every experience on which it can, the loop ends, at the first level whose threshold, wrapped round, is above the experience |
| PlayerStats.FirstStop | internal/business/common/player_service.go:371-374 | that level is the formula's below MaxInt64/100*100, and the one level with threshold MaxInt64-3 above |
| PlayerStats.LoopEndsExactly | internal/business/common/player_service.go:367-378 | some wrapped threshold is above the experience if and only if the experience is not one of the four largest int64 |
| PlayerStats.PlayerService.UpdatePlayerStats | internal/business/common/player_service.go:235-272 | the row changes, as specified, with int64 sums that wrap round, only when both read and write succeed |
| PlayerStats.LevelIsHighest | internal/business/common/player_service.go:250-255 | over any run of updates from registration that all return, the stored level is the maximum, over the experience history, of the levels the loop stops at |
| PlayerStats.SpentExactly | internal/business/common/player_service.go:246-263 | an amount after a change is the sum cut off at zero if and only if the sum is no more than an int64, and zero otherwise |
| PlayerStats.FlooredIsBestSuffix | internal/business/common/player_service.go:258-263 | an amount cut off at zero after every change, no sum being over an int64, is the largest of the changes since any moment |
| PlayerStats.PursesAreBestSuffixes | internal/business/common/player_service.go:235-272 | over any run of updates that all return, coins and diamonds are never negative, and such amounts as long as no sum is over an int64 |

## Left out

- PlayerStats.CalculateLevel: asks for an experience below the four largest int64, on which the loop does not end.
- PlayerStats.PlayerService.UpdatePlayerStats: asks that the new experience be below the four largest int64, on which the method does not return.
- TimeWheels.TimeWheel.AddTask: does not model the overflow of `current + int(ticks)`, nor ticks during Stop; launching is a returned list, because a task is an opaque closure run in its own goroutine.
- ResponseTimes.CalculateStats: takes response times as non-negative int64 and does not model overflow of their sum; the three float64 products are inputs, nearest values by definition, without bounds on the exponent; the rate is a real quotient; memory figures after the percentiles are left out.
- ResponseTimes.ResponseTimeStats.Add: the atomic counters and the locked part are one step.
- Connections.Connection.ReadMessage: a read that returns bytes together with an error, read deadlines, the activity time and the size limit of one read are left out; errors are kinds rather than texts, which the code tells apart by substring.
- Codec.Decode: identifiers and bodies are byte sequences, so a body sharing memory with the read buffer is not modelled.
- RingBuffers.RingBuffer.Write: asks for a size of at least 1, because it panics on a buffer of size 0; a second buffer aliasing the ring is excluded, also for Read.
- BulkAllocators.BulkAllocator.Allocate: asks for a count of at least 1, because an allocator made with none panics; the zero-length view `buf[:0]` is the buffer itself here.
- IndexedHeap.PriorityQueue.Remove: asks for a live handle, because a handle that has left makes heap.Remove index out of range; handles of another queue are not modelled.
- Transfer.TransferItem: a statement that is applied but reported as failed, read replicas, deletion and row overwrites by other operations, column defaults on zero values, and int64 overflow of quantities are not modelled; the id generator may return any id.
- CacheManager.Manager.Set: SetWithTTL and expiry are left out, because L1 ignores the ttl; a failing write is taken to leave its level as it was.
- CacheManager.Manager.constructor: an L2 that fails at start-up is left out (a nil pointer stored in an interface); a level works or is disabled.
- Protection.AvalancheProtection.ShouldBlock: counters are unbounded, and the failure rate is a real quotient, which float64 follows as long as there are fewer than 2^53 requests.
- CacheRaces.RacesExactly: each level call is one atomic step and works; failing calls are modelled in sequential runs only.
- Locks and data races: each locked method, each SQL statement and each level call is one atomic step.
- JSONCodec: its checksum is taken before the header is final, so no round trip holds, and it depends on JSON text.
- Connection lifecycle, heartbeat and idle checks: single branches over wall-clock time.
- ObjectPool, GoroutinePool and its tuning: their effect is decided by a library, and ObjectPool's growth path locks a mutex twice.
- CacheMonitor, MemoryManager, BufferPool, MessagePool, SafeMap: counters and thin wrappers.
- TaskScheduler start and stop, task execution, back-off and monitoring: only the calls under the queue's lock are modelled.
- HTTP, gin, TCP accept, logging, configuration, JWT, bcrypt, and the inside of Redis, bigcache, gorm and ants.
- Order, session, game and router services, error codes and small helpers: single branches.
