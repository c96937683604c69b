# A verified model of wipos

wipos measures WiFi signal strength on a router. A capture thread keeps, per sender address, the
samples of the last seconds in linked lists, and a socket thread answers with averages. The
repository also carries C library headers, a few of which hold algorithms rather than
declarations. This project models the device table and the capture loop that drives it, and the
algorithms in four of those headers, and proves what they keep over every run.

| file | what it holds |
|---|---|
| `Basics.dfy` | optional values and the ends of a sequence |
| `Bits.dfy` | C's bitwise operators on numbers of any width |
| `RssiModel.dfy` | the device table as a value, one turn of the capture loop, and theorems about every run |
| `RssiList.dfy` | the linked lists on the heap, with live and freed nodes, proved against `RssiModel` |
| `Atomic.dfy` | the retry loops of `atomic.h` as a machine of threads with separate load and swap steps; linearizability |
| `AtomicUses.dfy` | lock freedom, lost updates, semaphores, elections, reference counts and the `*_and_test` macros |
| `AtomicProgress.dfy` | that calls do take effect: a thread alone, every state, every sequential order |
| `SharedWord.dfy` | the same loops as written, for one thread among others, with termination |
| `Obstack.dfy` | the object stack over a flat memory: what every run keeps, alignment, unwinding |
| `ObstackMacros.dfy` | both macro families of `obstack.h` as assignments, proved against `Obstack` |
| `PatternReader.dfy` | the input loop of `compile` with its `alloca`-grown buffer |
| `Nameser.dfy` | the byte cursor (section 2.3.2 of RFC 1035) and the NXT bitmap (section 5.2 of RFC 2535) |

How to read the models:

- A frame carries the two clock readings the loop would take for it; `ClockOk` says that the
  readings never go back. `rl_date` is described in the header as an expiration date; the code
  stores the time of arrival there, and so does the model.
- `add_device` on a table that is not empty returns the node before the new one, and the capture
  loop stores the sample in what it returns. The model does the same. `FaithfulExactly` says
  precisely when each device nevertheless holds its own samples, `SecondAddressLosesItsSample`
  gives the smallest run where it does not, and `NewcomerHasNoAverage` shows what a reader of the
  averages sees: 0.0 / 0.0. `AppendedIsFaithful` shows that the node returned is all there is to
  it: with the appended node instead, every device would always hold its own samples.
- `malloc` is `new`; `free` moves a node out of a ghost set of live nodes, and reading,
  writing or freeing a node requires it to be live. `add_rssi_sample` asks for the size of a device
  when it allocates the first sample of a list; sizes are not part of the model.
- A word of `atomic.h` is a bit pattern of 8, 16, 32 or 64 bits, signed or unsigned, and arithmetic
  on it wraps. A schedule is any list of steps of any number of threads; a step a thread cannot
  take leaves the state as it is. `Linearizable` says what schedules cannot do; `AloneCompletes`,
  `AllCanFinish` and `EveryOrderRuns` say that calls get done, and in every order. The comment on
  `atomic_increment_and_test` promises "true iff it's now zero"; `IncrementTestExactly` shows for
  which types the macro keeps that promise, and `ZeroTestExactly` and `SignTestExactly` do the same
  for the tests on a sum.
- `_obstack_newchunk` and `_obstack_free` are declared in `obstack.h` and defined elsewhere. The
  model follows the header's comments: the growing object moves to the start of a new chunk, a chunk
  that held nothing else is given up unless it may contain an empty object, and freeing drops chunks
  until one holds the object. Chunk headers take eight bytes, as with 32-bit pointers. Alignment
  masks are runs of low bits.
- `alloca` may put a block anywhere that is not in use.

## Model

| member | source | states |
|---|---|---|
| RssiModel.AcceptedExactly | router/src/rssi/rssi.c:36-42 | a frame counts if and only if its code is 65 and its control field has bit 7 set and bit 6 clear |
| RssiModel.Lookup | router/src/rssi/RSSI_list.c:10-26 | the first device with the address, or none exactly if no device has it |
| RssiModel.HeadExpiryIsFilter | router/src/rssi/RSSI_list.c:157-162 | on samples in clock order, expiring from the head only removes exactly the outdated samples |
| RssiModel.RunDescribed | router/src/rssi/rssi.c:42-50 | after every run whose clock never goes back the table lists the addresses in order of first appearance, each window being the filter of all samples ever appended to that device |
| RssiModel.WindowInMicroseconds | router/src/rssi/RSSI_list.c:157-162 | a kept sample is less than 2 s old at the last purge and a lost one more than 1 s |
| RssiModel.RunListed | router/src/rssi/rssi.c:44-49 | after every run, whatever the clock did, the table lists the addresses in order of first appearance |
| RssiModel.AddressesDistinct | router/src/rssi/rssi.c:44-48 | no address stands on the table twice |
| RssiModel.ListedAtFirstFrame | router/src/rssi/rssi.c:44-48 | the i-th device was listed by the first accepted frame from its address, when i devices were listed |
| RssiModel.DevicesStay | router/src/rssi/RSSI_list.c:75-83 | further frames never remove or reorder devices of the table |
| RssiModel.Delivered | router/src/rssi/rssi.c:44-50 | whatever the clock did, an accepted frame appends its own level and time to exactly one window of the table, every window expires from its head, and nothing else changes |
| RssiModel.TableHoldsReadings | router/src/rssi/rssi.c:42-50 | over all devices a sample stands on the table as often as it arrived while it is valid, and not at all once it is outdated |
| RssiModel.FaithfulExactly | router/src/rssi/RSSI_list.c:65-86 | every window holds its own address's valid samples if and only if at most one address was seen or the frame that introduced the newest one has expired |
| RssiModel.NewestLacksItsFirst | router/src/rssi/rssi.c:47-49 | the newest device lacks exactly its first sample |
| RssiModel.SentVersusOwned | router/src/rssi/rssi.c:44-49 | once that frame has expired, what was appended to a device and what its address sent have the same valid samples |
| RssiModel.SecondAddressLosesItsSample | router/src/rssi/RSSI_list.c:75-86 | two frames from different addresses within a second leave both samples on the first device |
| RssiModel.AppendedIsFaithful | router/src/rssi/RSSI_list.c:55-87 | were `add_device` to return the node it appends, every window would hold exactly the valid samples of its own address after every run |
| RssiModel.SameTableExactly | router/src/rssi/RSSI_list.c:75-86 | the node it does return makes no difference to the table if and only if at most one address was seen or the frame that introduced the newest one has expired |
| RssiModel.MeanOfOne | router/src/rssi/RSSI_list.c:41-50 | the average of one sample is its level |
| RssiModel.MeanGrows | router/src/rssi/RSSI_list.c:41-50 | average times count grows by exactly the level of each sample added |
| RssiModel.MeanUnordered | router/src/rssi/RSSI_list.c:41-50 | the order of arrival makes no difference to the average |
| RssiModel.MeanWithin | router/src/rssi/RSSI_list.c:41-50 | an average lies between any bounds of its samples |
| RssiModel.AverageOfDevice | router/src/rssi/RSSI_list.c:35-51 | whatever the clock did, a listed address reads as the mean of its window |
| RssiModel.AverageOfListed | router/src/rssi/RSSI_list.c:35-51 | between frames a listed address averages the valid samples among all sent to its device |
| RssiModel.AverageOfUnlisted | router/src/rssi/RSSI_list.c:31-39 | an address that is not listed, or any on a NULL table, reads as -95, whatever the clock did |
| RssiModel.NewcomerHasNoAverage | router/src/rssi/RSSI_list.c:41-50 | right after an address joins a table that is not empty its average is 0.0 / 0.0, whatever the clock did |
| RssiList.DeviceNode.LastSample | router/src/rssi/RSSI_list.c:113-116 | the walk ends at the last sample |
| RssiList.DeviceNode.AddRssiSample | router/src/rssi/RSSI_list.c:102-122 | one fresh node is linked after the last sample, into an empty list or not |
| RssiList.DeviceNode.FreeHead | router/src/rssi/RSSI_list.c:159-161 | the first sample is unlinked and freed and the rest stays a list |
| RssiList.DeviceNode.DeleteOutdated | router/src/rssi/RSSI_list.c:152-164 | the list holds what head expiry leaves, and only samples taken off it are freed |
| RssiList.DeviceNode.ClearRssiList | router/src/rssi/RSSI_list.c:124-136 | exactly the listed samples are freed, each once, none read afterwards |
| RssiList.DeviceNode.Total | router/src/rssi/RSSI_list.c:41-49 | sum and number of the listed samples |
| RssiList.DeviceTable.IsKnown | router/src/rssi/RSSI_list.c:5-27 | the node of the first device with the address, or null |
| RssiList.DeviceTable.LastDevice | router/src/rssi/RSSI_list.c:75-79 | the walk ends at the last device |
| RssiList.DeviceTable.AddDevice | router/src/rssi/RSSI_list.c:55-87 | a fresh empty device is linked at the end; the result is that node only if the list was empty, else the previous last |
| RssiList.DeviceTable.Admit | router/src/rssi/rssi.c:44-48 | lookup or listing, as in the value model |
| RssiList.DeviceTable.AddRssiSample | router/src/rssi/RSSI_list.c:102-122 | the table stays well shaped and gains the sample at that device only |
| RssiList.DeviceTable.DeleteOutdated | router/src/rssi/RSSI_list.c:152-164 | the table stays well shaped, only that window shrinks, and samples leave the live set only to be freed |
| RssiList.DeviceTable.DeleteOutdate | router/src/rssi/RSSI_list.c:138-150 | every window is purged against one clock reading |
| RssiList.DeviceTable.Store | router/src/rssi/rssi.c:44-49 | the sample goes to the device handed back, with one allocation |
| RssiList.DeviceTable.Ingest | router/src/rssi/rssi.c:36-50 | one turn of the loop keeps both kinds of list acyclic and apart, keeps all devices, and agrees with the value model |
| RssiList.DeviceTable.Capture | router/src/rssi/rssi.c:29-55 | after any run of frames the heap lists the addresses in order of first appearance, holds what the run theorem describes if the clock never goes back, and freed samples are the accepted ones less the listed ones |
| RssiList.DeviceTable.NothingLeaks | router/src/rssi/RSSI_list.c:152-164 | allocated samples are the listed ones and the freed ones |
| RssiList.DeviceTable.Average | router/src/rssi/RSSI_list.c:29-53 | -95 for a NULL table or an unlisted address, else the mean, with 0.0 / 0.0 for an empty window |
| RssiList.DeviceTable.ClearDeviceList | router/src/rssi/RSSI_list.c:89-100 | every remaining sample and device is freed exactly once and none is read afterwards |
| Atomic.Linearizable | router/platform/include/atomic.h:104-141 | for any number of threads and any interleaving, the calls take effect at moments inside their intervals, in an order that is a sequential run giving each returned value and the final word |
| Atomic.NextKeepsInv | router/platform/include/atomic.h:184-239 | every step keeps the invariant behind it, under ABA as well |
| Atomic.RealTimeOrder | router/platform/include/atomic.h:104-141 | a call that returned before another began took effect before it |
| AtomicProgress.AloneCompletes | router/platform/include/atomic.h:104-141 | wherever others have left it, a thread that runs alone finishes its call in four steps, with the word and the result of the operation |
| AtomicProgress.AllCanFinish | router/platform/include/atomic.h:104-141 | from every reachable state one turn for each thread completes all calls and disturbs none that returned |
| AtomicProgress.AdditionsLand | router/platform/include/atomic.h:125-146 | whatever additions are under way, finishing them leaves what the word was plus all of them, wrapped |
| AtomicProgress.EveryOrderRuns | router/platform/include/atomic.h:103-141 | each sequential order of any calls is a run of the machine, with its results and final word, so linearizability is exact |
| AtomicProgress.SwapSucceedsExactly | router/platform/include/atomic.h:110-115 | whatever others did since the load, the swap succeeds if and only if the word is again what was read, and is counted as the success or failure it was |
| AtomicUses.FailuresBounded | router/platform/include/atomic.h:110-115 | a thread's swaps fail at most as often as those of other threads succeed |
| AtomicUses.SomeThreadProgresses | router/platform/include/atomic.h:132-138 | all failures together are bounded by threads and successes |
| AtomicUses.NoUpdateLost | router/platform/include/atomic.h:125-201 | when any number of concurrent additions and conditional decrements have all returned, the word is what it was plus the additions less the decrements that returned a positive value, wrapped |
| AtomicUses.AdditionsKept | router/platform/include/atomic.h:125-201 | a sequential run of additions and conditional decrements leaves start plus what each gained, wrapped |
| AtomicUses.AddedIsRequested | router/platform/include/atomic.h:125-201 | when each call has its one point, what took effect sums up to what the callers were told |
| AtomicUses.ExchangesHandOver | router/platform/include/atomic.h:103-117 | among exchanges every value is handed over once: values returned and left are values brought and the first one |
| AtomicUses.SemaphoreConservation | router/platform/include/atomic.h:184-201 | as long as no increment overflows where it takes effect, the word is never negative and equals start plus increments minus the decrements that returned a positive value, however many there were |
| AtomicUses.SemaphoreByCallers | router/platform/include/atomic.h:184-201 | once all users have returned, the same from what each of them was told |
| AtomicUses.FewIncrementsFit | router/platform/include/atomic.h:184-201 | no increment overflows while the type has room for all that were made, so the same equation holds |
| AtomicUses.RefusalChangesNothing | router/platform/include/atomic.h:191-193 | a decrement that returns a value that is not positive leaves the word to the next call as it found it |
| AtomicUses.FirstSetterWins | router/platform/include/atomic.h:226-238 | if a bit starts clear and only calls for it change it, a call for it returns zero if and only if none for it took effect before |
| AtomicUses.LaterSetterLoses | router/platform/include/atomic.h:226-238 | if nothing clears the bit, whatever else is done to the word, no call for it that takes effect after another returns zero |
| AtomicUses.AtMostOneSetter | router/platform/include/atomic.h:226-238 | among any number of concurrent callers for a bit that nothing clears at most one sees zero |
| AtomicUses.SomeSetterWins | router/platform/include/atomic.h:226-238 | if the bit started clear and nothing else changed it, once all have returned, one has |
| AtomicUses.SettersLeave | router/platform/include/atomic.h:226-238 | calls that set other bits neither set nor clear this one |
| AtomicUses.OnlyLastReleases | router/platform/include/atomic.h:178-179 | of n concurrent decrements on a counter of n only the last to take effect can test true |
| AtomicUses.LastReleases | router/platform/include/atomic.h:178-179 | once all n have returned, it has |
| AtomicUses.ExchangeMeans | router/platform/include/atomic.h:103-117 | the new value is left, exactly if the type can hold it, and the old one returned |
| AtomicUses.AddMeans | router/platform/include/atomic.h:125-140 | the sum is left, exactly if the type can hold it, and the old value returned |
| AtomicUses.DecrementMeans | router/platform/include/atomic.h:183-200 | a positive value goes down by one, any other stays, and the old value is returned |
| AtomicUses.BitTestSetMeans | router/platform/include/atomic.h:225-238 | that bit becomes set and no other changes, and the result is the bit as it was, in place |
| AtomicUses.CompareExchangeMeans | router/platform/include/atomic.h:63-70 | the new value is left if and only if the old one was there, and what was there is returned |
| AtomicUses.IncrementTestExactly | router/platform/include/atomic.h:159-162 | true iff the word became zero, except for unsigned types narrower than int at their largest value |
| AtomicUses.DecrementTestCorrect | router/platform/include/atomic.h:176-179 | true iff the word became zero, for every type |
| AtomicUses.SignTestExactly | router/platform/include/atomic.h:203-208 | for every type the exact condition under which the sign test tells the sign of the word stored |
| AtomicUses.ZeroTestExactly | router/platform/include/atomic.h:211-216 | the zero test is true iff the word became zero, except for types narrower than int when the sum wraps to zero |
| SharedWord.Word.CompareAndExchangeVal | router/platform/include/atomic.h:63-70 | stores if equal, returns what was there, and agrees with the compare-and-exchange of the machine |
| SharedWord.Word.CompareAndExchangeBool | router/platform/include/atomic.h:79-92 | false exactly if the word was equal and has been replaced |
| SharedWord.Word.ExchangeAcq | router/platform/include/atomic.h:103-117 | terminates against any interference with one exchange committed, leaving the new value, returning what it replaced, after at most as many failed swaps as there were commits of others |
| SharedWord.Word.ExchangeAndAdd | router/platform/include/atomic.h:125-140 | the same, leaving the sum with what it returns |
| SharedWord.Word.DecrementIfPositive | router/platform/include/atomic.h:183-200 | the same, leaving a positive word less one and any other untouched |
| SharedWord.Word.BitTestSet | router/platform/include/atomic.h:225-238 | the same, leaving the word with the bit set and returning the bit as it was |
| Obstack.AlignUpIsLeast | router/platform/include/obstack.h:479-481 | rounding by the mask gives the least multiple of the alignment |
| Obstack.FinishPlaces | router/platform/include/obstack.h:479-485 | the next object starts on the least multiple not below the finished one, or on the chunk limit |
| Obstack.RunRefines | router/platform/include/obstack.h:375-486 | over every run the memory shows a stack of byte strings: the growing object is all that was grown since the last finish, across chunk moves, and the pointers stay within the chunk |
| Obstack.RunFromBegin | router/platform/include/obstack.h:375-486 | the same from the first call on a new obstack, starting from no objects |
| Obstack.FinishedStay | router/platform/include/obstack.h:89-100 | after any run that frees none of the first n objects, memory still shows the bytes of each of them at its address |
| Obstack.ObjectsDisjoint | router/platform/include/obstack.h:64-82 | no two live objects share a byte, nor one with the growing object |
| Obstack.ObjectsAligned | router/platform/include/obstack.h:472-486 | every object with any bytes starts aligned, also after a clamped finish |
| Obstack.AloneMeansNoObjects | router/platform/include/obstack.h:182-185 | a chunk is given up only if no finished object lives in it, not even an empty one |
| Obstack.GivenUpExactly | router/platform/include/obstack.h:182-185 | over every run without frees the growing object's chunk would be given up at a move if and only if no finished object lies in it |
| Obstack.EveryChunkInUse | router/platform/include/obstack.h:182-185 | over every run without frees each chunk but the current one holds a finished object |
| Obstack.OwnsExactly | router/platform/include/obstack.h:80-100 | over every run the obstack has exactly the bytes of the chunks on its list, so what a chunk given up or dropped held is gone |
| Obstack.HeadersSpared | router/platform/include/obstack.h:153-158 | no object reaches into the two pointers of a chunk header or past its limit |
| Obstack.WritesOnly | router/platform/include/obstack.h:388-450 | a call that finds room writes its own bytes after the growing object and leaves every other byte alone |
| Obstack.NewChunkInv | router/platform/include/obstack.h:80-83 | moving to a new chunk keeps finished objects and the bytes of the growing one |
| Obstack.AppendInv | router/platform/include/obstack.h:394-395 | bytes added within the chunk extend the growing object and disturb no other |
| Obstack.FinishInv | router/platform/include/obstack.h:472-486 | the growing object becomes the newest finished one, where it grew |
| Obstack.FreeInv | router/platform/include/obstack.h:488-494 | freeing a live object leaves exactly the earlier ones, unmoved and unchanged, in whatever chunk it lies |
| Obstack.FreeSlowlyExactly | router/platform/include/obstack.h:488-494 | freeing an address cuts back to the newest chunk it lies in |
| Obstack.FreeSlowlyAborts | router/platform/include/obstack.h:488-494 | it aborts if the address lies in no chunk |
| Obstack.ReplaySameAddresses | router/platform/include/obstack.h:452-456 | after freeing one of a run of allocations that fitted in the chunk, the same sizes get the same addresses |
| Obstack.Store | router/platform/include/obstack.h:146-150 | memcpy writes the data at the address and nothing else |
| ObstackMacros.ControlBlock.GnuMakeRoom | router/platform/include/obstack.h:375-381 | a new chunk is taken if and only if the free space is less than asked for |
| ObstackMacros.ControlBlock.GnuGrow | router/platform/include/obstack.h:388-396 | the data follows the growing object, in a new chunk if and only if it does not fit |
| ObstackMacros.ControlBlock.GnuGrow0 | router/platform/include/obstack.h:398-407 | the same with a NUL after the data, which counts for the space needed |
| ObstackMacros.ControlBlock.GnuOneGrow | router/platform/include/obstack.h:409-415 | the same for one byte |
| ObstackMacros.ControlBlock.GnuBlank | router/platform/include/obstack.h:443-450 | space is added without touching memory, in a new chunk if and only if it does not fit |
| ObstackMacros.ControlBlock.GnuFinish | router/platform/include/obstack.h:472-486 | returns the old base; next free byte and base are rounded up or clamped, and an empty object sets the flag |
| ObstackMacros.ControlBlock.GnuFree | router/platform/include/obstack.h:488-494 | within the current chunk only the two pointers move back, otherwise chunks are dropped |
| ObstackMacros.ControlBlock.Gnu | router/platform/include/obstack.h:452-468 | every request, with alloc, copy and copy0 composed of the others |
| ObstackMacros.ControlBlock.PortableMakeRoom | router/platform/include/obstack.h:513-516 | the same state as GnuMakeRoom from its own comparison |
| ObstackMacros.ControlBlock.PortableGrow | router/platform/include/obstack.h:518-523 | the same state as GnuGrow, through `temp` |
| ObstackMacros.ControlBlock.PortableGrow0 | router/platform/include/obstack.h:525-531 | the same state as GnuGrow0, through `temp` |
| ObstackMacros.ControlBlock.PortableOneGrow | router/platform/include/obstack.h:533-536 | the same state as GnuOneGrow |
| ObstackMacros.ControlBlock.PortableBlank | router/platform/include/obstack.h:554-558 | the same state as GnuBlank, through `temp` |
| ObstackMacros.ControlBlock.PortableFinish | router/platform/include/obstack.h:569-581 | the same state and result as GnuFinish, with the result kept in `temp` |
| ObstackMacros.ControlBlock.PortableFree | router/platform/include/obstack.h:584-589 | the same state as GnuFree, from offsets instead of pointers |
| ObstackMacros.ControlBlock.Portable | router/platform/include/obstack.h:560-567 | every request, with alloc, copy and copy0 composed of the others |
| ObstackMacros.ControlBlock.FreeSlowly | router/platform/include/obstack.h:98-100 | chunks are dropped until one holds the object |
| ObstackMacros.ControlBlock.NewChunk | router/platform/include/obstack.h:80-83 | the growing object moves to the new chunk |
| ObstackMacros.ServeIsSteps | router/platform/include/obstack.h:452-468 | each request, alloc, copy and copy0 included, moves the control block as its one or two steps move the object stack, and returns where the object it finished starts |
| ObstackMacros.RequestMeans | router/platform/include/obstack.h:385-468 | a request that finishes adds one object of the growing bytes and its own, with a NUL for grow0 and copy0; one that does not extends the growing object alone |
| ObstackMacros.ServeAllIsRun | router/platform/include/obstack.h:365-589 | a series of requests that frees only live objects never aborts and is a run of the object stack |
| ObstackMacros.ControlBlock.Perform | router/platform/include/obstack.h:365-589 | either family serves a series of requests up to the first that aborts |
| ObstackMacros.ControlBlock.PerformLawfully | router/platform/include/obstack.h:365-589 | after any lawful series, served by either family as assignments, memory shows exactly the stack of byte strings the requests describe, and each request returned the address of its object |
| ObstackMacros.SideBySide | router/platform/include/obstack.h:365-589 | from equal control blocks the two families return the same objects, leave equal control blocks and memory, and abort together |
| PatternReader.PatternLength | router/platform/include/regexp.h:135-141 | the position of the first eof, NUL or newline |
| PatternReader.Enlarge | router/platform/include/regexp.h:143-162 | wherever the block lands the buffer stays allocated, keeps its bytes and at least doubles, no copy overlaps, and all bytes are copied unless the buffer stays where it is |
| PatternReader.Read | router/platform/include/regexp.h:135-165 | the buffer ends up with the very characters before the first eof, NUL or newline and a NUL, growths copy at most twice its length, and the terminator goes through NULL if and only if the pattern is empty |
| Nameser.Put16 | router/platform/include/arpa/nameser.h:447-453 | two octets, the high one first, make up the low 16 bits of the value; nothing else changes |
| Nameser.Put32 | router/platform/include/arpa/nameser.h:455-463 | four octets, the highest first, make up the low 32 bits of the value; nothing else changes |
| Nameser.Get16 | router/platform/include/arpa/nameser.h:429-435 | the number two octets spell |
| Nameser.Get32 | router/platform/include/arpa/nameser.h:437-445 | the number four octets spell |
| Nameser.PutAll | router/platform/include/arpa/nameser.h:447-463 | any list of fields is spelled one after the other, nothing else changes |
| Nameser.GetAll | router/platform/include/arpa/nameser.h:429-445 | reading what is spelled gives the numbers |
| Nameser.RoundTrip | router/platform/include/arpa/nameser.h:429-463 | reading back gives each value written if its width can hold it, and always one congruent to it of that width, with both cursors moved alike |
| Nameser.SpellingUnique | router/platform/include/arpa/nameser.h:429-445 | the same octets never spell different values of the same widths |
| Nameser.ListedExactly | router/platform/include/arpa/nameser.h:419-423 | a type is listed if and only if its bit is one, the highest bit of an octet standing for the lowest type |
| Nameser.SetOne | router/platform/include/arpa/nameser.h:421-423 | setting a type adds it to the listed types and no other |
| Nameser.ClearOne | router/platform/include/arpa/nameser.h:422-423 | clearing a type removes it and no other |
| Nameser.BitSet | router/platform/include/arpa/nameser.h:421 | in place, the listed types gain this one |
| Nameser.BitClear | router/platform/include/arpa/nameser.h:422 | in place, the listed types lose this one |

## Left out

- The socket thread and its text format (`router/src/socket/socket.c`): sockets and libc formatting.
- The unsynchronised reader of the table: averages are taken between turns of the capture loop.
- Packet capture and header layout: frames arrive decoded, with the two fields the loop tests.
- `add_device` with a NULL table pointer, which loses its new head: the capture loop always passes one.
- Allocation failure, sizes passed to `malloc`, printed messages, floating-point rounding.
- Overflow of the time types, and of `int` lengths in `obstack.h`; negative lengths.
- Barriers, delays and weak memory order in `atomic.h`: memory is sequentially consistent.
- Signed overflow in C is undefined; the model wraps, as the machines the header is for do.
- Clients that write into obstack memory themselves, grow from bytes inside the obstack, or free everything with NULL.
- `obstack_ptr_grow`, `obstack_int_grow` and the `_fast` forms: the same pattern with fixed sizes.
- The body of `regcomp`, the alignment of its output buffer, and the table of error codes in `regexp.h`.
- All other headers: declarations and constants.
- RunDescribed: the clock is taken not to go back; the code does not check it. RunListed, Delivered and what follows from them hold under any clock.
- ExchangeAcq: as for the other loops of SharedWord, other threads act finitely often during the call; without that a retry loop need not end.
- SignTestExactly: the addend has the word's own type, so that the macro negates it in that type; ZeroTestExactly likewise.
- PerformLawfully: an address that is freed stands for the first live object there; objects without bytes may share theirs with the next one.
- GivenUpExactly: not for runs with frees, after which the flag may be set for an object that is gone; EveryChunkInUse likewise.
