# Verified models of a level hash table and of parts of Bochs 2.6.8

This project models and proves properties of six components of the repository.

* **Level hash table** (`level_hashing.c`): two levels of four-slot buckets, two candidate buckets per key and level,
  in-place displacement, bottom-to-top moves, and expand and shrink that rehash one level only.
  `LevelSpec` gives each operation as a function on table values; `LevelTable.LevelHash` is the program, two bucket
  arrays updated in place, and every method is proved to compute the function. `LevelInsert`, `LevelOps`,
  `LevelResize`, `LevelExits` and `LevelRuns` prove what the functions mean: one placement invariant over every run,
  and contents that agree with a plain multiset and, while keys are inserted once, with a map. `LevelIndex` and
  `LevelChoice` say which slot every operation picks, in terms of hash values and slot numbers alone; `LevelLoad` is
  about the choice between two buckets.
* **Timer framework** (`pc_system.cc`, `pc_system.h`): a discrete-event scheduler with a 32-bit countdown in front of
  64-bit fire times. Device code is an arbitrary function `React` from its own state, the scheduler and the timer
  number to a new device state and a list of calls back into the scheduler. The log of callbacks and calls is part of
  the state, so that runs can be compared. `TimerSpec` has the functions and the invariant, `PcSystem` the program,
  `TimerRuns` the theorems over runs, `UsecClock` the monotone clock.
* **CRC-32** (`crc.cc`): the lazily built table against the bit-serial register (`CrcRegister`), error detection
  (`Crc`, `CrcBursts`), and the register as the remainder of a polynomial division over GF(2) (`CrcDivision`). The
  generator is the one of clause 3.2.9 of IEEE 802.3.
* **BIOS resource allocation** (`rombios32.c`): sizing and placing base address registers (`PciBars`, sizing as in
  section 6.2.5.1 of the PCI Local Bus Specification 3.0), the option-ROM shadow copy (`PciRom`), and the memory
  devices of the SMBIOS tables (`SmbiosMemory`, ranges as in section 7.20 of DSP0134).
* **Debugger page walks** (`dbg_main.cc`): the compressed dump of a page mapping (`DebuggerDump`) and the
  page-by-page read of linear memory (`DebuggerRead`).

`dafny verify dfyconfig.toml` checks the whole project.

## How the source is read

* The hash is an arbitrary function of key and seed. Keys are opaque; key equality stands for `strcmp`, which agrees
  with the 16-byte copy for NUL-terminated keys shorter than that.
* New buckets have all tokens 0. The code relies on this.
* `exit(1)` is the outcome `Exit` (`Exited` in methods); nothing is said of the state after it.
* `level_size` is at least 2, and at least 3 before a shrink: below that a bottom index is taken modulo 0. A run that
  shrinks below 3 is treated as ended.
* Timer calls with an index that is not in `1 .. numTimers - 1` have no effect in the model; the code guards them only
  in builds with `BX_TIMER_DEBUG`, which is off. As in the code, a timer that an earlier callback of the same event
  deactivates or arms anew still has its callback called, because the set of due timers is a snapshot
  (`TimerRuns.ArmedInCallbackFires` says exactly when).
* The load test of a shrink compares with 0.4 in floating point; it is modelled on reals. No table has a load exactly
  at that bound, because 4.8 times a power of two is no integer.
* Linear addresses are 32 bits wide and physical addresses 40, as configured (`BX_SUPPORT_X86_64` 0,
  `BX_PHY_ADDRESS_LONG` 1).

## Where the code and its promises part

* A comment in `level_insert` says that the less-loaded of two buckets is chosen. The code takes the bucket whose
  first hole comes first. `LevelLoad.LessLoadedFails` is a run after which the fuller bucket is chosen.
  `LevelLoad.FirstKeepsExactly` and `LevelLoad.SecondKeepsExactly` say which buckets keep the promise whatever the
  other one holds, and `LevelLoad.NoDeleteRunBalances` that all do before the first delete.
* A debugger read of no bytes still translates its first address, and fails if that page is unmapped
  (`DebuggerRead.EmptyReadRefused`; `DebuggerRead.ReadExactly` has the exact condition).
* An option ROM of size 0 is copied nowhere, yet the control field of one page is set (`PciRom.TouchedExactly`).
* A base address register that reads back only flag bits is sized 0, and the cursor falls to 0
  (`PciBars.ZeroSizeResets`); later regions can then overlap (`PciBars.RegionsOverlap`). Without such a register they
  never do, and only then do they all increase (`PciBars.RegionsIncreaseExactly`). An I/O region of 4 or 8 bytes is
  taken for 16 (`PciBars.ProbeDecodes`).
* While the timer table is full, unregistering a timer makes room for another one only if it held the last slot
  (`TimerRuns.FreedSlotIsReused`).
* The monotone clock returns one more than the maximum of the current time and its last result exactly when time has
  not gone back (`UsecClock.SequentialExact`).
* The SMBIOS ranges tile the memory exactly when its KB addresses fit in 32 bits (`SmbiosMemory.TilesExactly`).

## Model

| member | source | states |
|---|---|---|
| LevelRuns.RunIsBagRun | semester3-2/oslab/level_hashing/level_hashing.c:102-515 | over every run of inserts, deletes, updates, queries, expands and shrinks that does not exit, placement, array sizes and both counters stay right, and replies and contents are those of a plain multiset of pairs, where delete, update and the queries take the first match of the key in scan order |
| LevelRuns.RunIsMapRun | semester3-2/oslab/level_hashing/level_hashing.c:237-393 | while only absent keys are inserted, every reply in the run is the one a map gives, for static and dynamic query alike and through every resize, and the contents are the pairs of that map |
| LevelRuns.StepIsBagStep | semester3-2/oslab/level_hashing/level_hashing.c:102-515 | one operation that returns keeps the invariant and does to the contents what it does to a multiset, given the first match of its key in scan order |
| LevelRuns.RunCounts | semester3-2/oslab/level_hashing/level_hashing.c:102-230 | after every run from a new table level_expand_time is the number of expands since the last shrink modulo 256, level_size went up with each expand and down with each shrink, and no resize is pending |
| LevelIndex.HomeExactly | semester3-2/oslab/level_hashing/level_hashing.c:23-33 | a slot is in one of the key's two buckets if and only if its bucket is the first hash modulo half the capacity, or half the capacity plus the second hash modulo it |
| LevelIndex.SharedBuckets | semester3-2/oslab/level_hashing/level_hashing.c:23-33 | two keys share their first bucket if and only if their first hash values are congruent modulo half the capacity; the same for the second |
| LevelIndex.EveryPair | semester3-2/oslab/level_hashing/level_hashing.c:23-33 | every pair of buckets, one of each half, is some key's pair under some hash |
| LevelIndex.ResizedBuckets | semester3-2/oslab/level_hashing/level_hashing.c:23-33 | at twice the capacity the first bucket is the old one or that plus half the old capacity; the second moves up by half or all of it |
| LevelChoice.StoredAtHome | semester3-2/oslab/level_hashing/level_hashing.c:399-472 | every stored key sits in a bucket that its hash values name |
| LevelChoice.InsertExactly | semester3-2/oslab/level_hashing/level_hashing.c:399-561 | slot by slot what insert does: the first free home slot on top, else at the bottom, else one displacement on top, else at the bottom, else, once expanded, one move up, each with the slots it takes, else nothing and 1 |
| LevelInsert.InsertAdds | semester3-2/oslab/level_hashing/level_hashing.c:399-472 | insert returns 0 and adds exactly the given pair, or returns 1 and changes nothing; it returns 1 if and only if all four buckets are full, every resident's same-level alternative is full, and (once expanded) every resident of the two bottom buckets has both top buckets full |
| LevelInsert.TryMovementAdds | semester3-2/oslab/level_hashing/level_hashing.c:478-515 | a displacement moves a resident to its own other bucket, loses nobody and adds exactly the new pair |
| LevelInsert.InsertByB2tAdds | semester3-2/oslab/level_hashing/level_hashing.c:451-469 | an insertion by a bottom-to-top move adds exactly the new pair |
| LevelInsert.MoveUpKeeps | semester3-2/oslab/level_hashing/level_hashing.c:521-561 | the bottom-to-top move itself keeps the invariant, both counters and the contents |
| LevelInsert.InsertByB2tStuck | semester3-2/oslab/level_hashing/level_hashing.c:521-561 | a bottom bucket refuses exactly when every resident has both its top buckets full |
| LevelOps.QueriesExact | semester3-2/oslab/level_hashing/level_hashing.c:237-320 | in every sound table both queries miss exactly when the key is stored nowhere, and a hit is a stored value of the key |
| LevelOps.FindInComplete | semester3-2/oslab/level_hashing/level_hashing.c:294-320 | looking into a key's two buckets finds it exactly when some slot of the level holds it |
| LevelOps.DeleteRemoves | semester3-2/oslab/level_hashing/level_hashing.c:328-358 | delete removes exactly the first match in scan order, and returns 1 exactly when the key is not stored |
| LevelOps.UpdateReplaces | semester3-2/oslab/level_hashing/level_hashing.c:365-393 | update exchanges the value of exactly the first match, and returns 1 exactly when the key is not stored |
| LevelChoice.StaticOrder | semester3-2/oslab/level_hashing/level_hashing.c:294-320 | the static scan finds the first slot of the top level that holds the key, else the first of the bottom level |
| LevelChoice.DynamicOrder | semester3-2/oslab/level_hashing/level_hashing.c:244-287 | the dynamic query answers from the level with more items, from the bottom level on a tie, if the key is there |
| LevelChoice.DeleteExactly | semester3-2/oslab/level_hashing/level_hashing.c:328-358 | delete clears the token of that first slot, and changes no other |
| LevelChoice.UpdateExactly | semester3-2/oslab/level_hashing/level_hashing.c:365-393 | update overwrites the value of that first slot, and changes no other |
| LevelOps.InitSound | semester3-2/oslab/level_hashing/level_hashing.c:62-94 | a new table is sound and empty, of the size asked for, with expansion count 0 |
| LevelResize.ExpandKeeps | semester3-2/oslab/level_hashing/level_hashing.c:102-176 | an expand that returns keeps the contents, doubles addr_capacity, counts itself modulo 256, and makes the old top array the bottom level without rehashing, with placement and counters right |
| LevelResize.RehashKeeps | semester3-2/oslab/level_hashing/level_hashing.c:118-162 | from any point of the rehash loop, the pairs in the new level and those left behind are conserved, and the new level is placed and counted |
| LevelResize.ExpandFits | semester3-2/oslab/level_hashing/level_hashing.c:102-176 | whatever the hash, an expand cannot exit while the bottom level holds at most eight items |
| LevelExits.ExpandExits | semester3-2/oslab/level_hashing/level_hashing.c:118-162 | an expand exits if and only if some bottom item, once those before it are rehashed, finds both its new buckets full |
| LevelExits.ShrinkExits | semester3-2/oslab/level_hashing/level_hashing.c:193-225 | a shrink exits if and only if ten times the items exceed four times the slots, or some item of the old top level, once those before it are re-inserted, has no room in the sense of InsertAdds; the table refilled has the old bottom level on top, nothing below, and its old expansion count |
| LevelExits.RehashNext | semester3-2/oslab/level_hashing/level_hashing.c:118-162 | the rehash goes through the old bottom slots in order, and puts each item into the first free of its new home slots |
| LevelExits.RefillNext | semester3-2/oslab/level_hashing/level_hashing.c:212-225 | the refill goes through the old top slots in order, and inserts each item as level_insert does |
| LevelResize.ShrinkKeeps | semester3-2/oslab/level_hashing/level_hashing.c:184-230 | a shrink that returns keeps the contents exactly and halves the table |
| LevelResize.RefillKeeps | semester3-2/oslab/level_hashing/level_hashing.c:212-225 | at every step of the shrink loop the pairs in the halved table plus those still to come are the original ones, although each re-insertion may displace others |
| LevelLoad.LessLoadedFails | semester3-2/oslab/level_hashing/level_hashing.c:409-434 | a run of three inserts and two deletes from a new table, with a constant hash, after which insert puts its pair into the fuller of the two buckets, against the comment |
| LevelLoad.FirstKeepsExactly | semester3-2/oslab/level_hashing/level_hashing.c:409-434 | the first bucket is never chosen while it is the fuller one, whatever the second holds, if and only if it has no hole below an item |
| LevelLoad.SecondKeepsExactly | semester3-2/oslab/level_hashing/level_hashing.c:409-434 | the second bucket is never chosen while it is the fuller one, whatever the first holds, if and only if it has at most one item above its first hole |
| LevelLoad.FreeSlotByHoles | semester3-2/oslab/level_hashing/level_hashing.c:409-434 | the lockstep scan takes the bucket whose first hole comes first, the first bucket on a tie |
| LevelLoad.InsertCompact | semester3-2/oslab/level_hashing/level_hashing.c:399-472 | however insert makes room, it leaves no hole below an item of a bucket |
| LevelLoad.NoDeleteRunBalances | semester3-2/oslab/level_hashing/level_hashing.c:409-434 | after every run without deletes the less-loaded bucket is chosen, for every key and both levels |
| LevelTable.LevelHash.constructor | semester3-2/oslab/level_hashing/level_hashing.c:62-94 | level_init on two new arrays gives the specified empty table |
| LevelTable.LevelHash.Insert | semester3-2/oslab/level_hashing/level_hashing.c:399-472 | in place, the new table and the return code are those of the specification that InsertAdds is about |
| LevelTable.LevelHash.TryMovement | semester3-2/oslab/level_hashing/level_hashing.c:478-515 | in place, the specified displacement, touching only that level |
| LevelTable.LevelHash.B2tMovement | semester3-2/oslab/level_hashing/level_hashing.c:521-561 | in place, the specified bottom-to-top move, and the slot it frees |
| LevelTable.LevelHash.StaticQuery | semester3-2/oslab/level_hashing/level_hashing.c:294-320 | the value at the first match, top level first; changes nothing |
| LevelTable.LevelHash.DynamicQuery | semester3-2/oslab/level_hashing/level_hashing.c:237-287 | the value at the first match, the level with more items first; changes nothing |
| LevelTable.LevelHash.Delete | semester3-2/oslab/level_hashing/level_hashing.c:328-358 | in place, the specified delete and its return code |
| LevelTable.LevelHash.Update | semester3-2/oslab/level_hashing/level_hashing.c:365-393 | in place, the specified update and its return code |
| LevelTable.LevelHash.RehashBottom | semester3-2/oslab/level_hashing/level_hashing.c:118-162 | the in-place loop fills the new array and counts as specified, and exits exactly when the specification does |
| LevelTable.LevelHash.Expand | semester3-2/oslab/level_hashing/level_hashing.c:102-176 | exits exactly when the specification does; otherwise its table, with the old top array reused as bottom array |
| LevelTable.LevelHash.Reinsert | semester3-2/oslab/level_hashing/level_hashing.c:212-225 | the loop that refills the halved table, with its conservation invariant over the two arrays and the old one |
| LevelTable.LevelHash.ReinsertSlot | semester3-2/oslab/level_hashing/level_hashing.c:214-224 | one step of that loop: the pairs in the halved table plus those still tokened in the old top array are conserved, and no other old slot changes |
| LevelTable.LevelHash.Shrink | semester3-2/oslab/level_hashing/level_hashing.c:184-230 | exits exactly when the specification does; otherwise its table, with the old bottom array reused as top array |
| TimerSpec.ApplyKeeps | semester3-2/oslab/bochs-2.6.8/pc_system.cc:261-319 | registering, activating, deactivating or unregistering a timer never makes an active timer overdue, stops the countdown or moves the clock |
| TimerSpec.ElapseKeeps | semester3-2/oslab/bochs-2.6.8/pc_system.cc:321-374 | at the end of a countdown the next one is at least 1, fits 32 bits, and ends exactly at the earliest fire time |
| TimerSpec.CountdownEvent | semester3-2/oslab/bochs-2.6.8/pc_system.cc:321-385 | one event, with callbacks that re-enter the scheduler, restores the invariant and does not move the clock |
| TimerSpec.Tick1 | semester3-2/oslab/bochs-2.6.8/pc_system.h:105-109 | keeps the invariant and advances time_ticks by exactly 1 |
| TimerSpec.TickN | semester3-2/oslab/bochs-2.6.8/pc_system.h:110-120 | terminates, keeps the invariant and advances time_ticks by exactly n |
| TimerRuns.TickNIsTicks | semester3-2/oslab/bochs-2.6.8/pc_system.h:105-120 | tickn(n) and n calls of tick1 give the same state and the same callbacks at the same ticks |
| TimerRuns.Run | semester3-2/oslab/bochs-2.6.8/pc_system.cc:261-385 | over every run of ticks and calls no active timer is overdue, the countdown is between 1 and its period, and time never goes back |
| TimerRuns.LeftAloneFiresOnSchedule | semester3-2/oslab/bochs-2.6.8/pc_system.cc:321-385 | in every run, a slot that no call touches fires exactly when its timer would on its own, whatever happens to the others |
| TimerRuns.ArmedFires | semester3-2/oslab/bochs-2.6.8/pc_system.cc:261-319 | a continuous timer registered or activated at t with period p >= 1 (1 if p is 0) and then left alone has fired exactly floor(N/p) times by t+N, at t+p, t+2p and so on; a one-shot timer once, at t+p |
| TimerRuns.ArmedInCallbackFires | semester3-2/oslab/bochs-2.6.8/pc_system.cc:376-384 | the same for a timer registered or activated by a callback, at any of its calls; one more call at t itself comes first if and only if that slot was due in the same event and had not had its turn |
| TimerRuns.CallbackMoment | semester3-2/oslab/bochs-2.6.8/pc_system.cc:376-384 | every call a callback makes is followed by the rest of its calls and of its event, which is where ArmedInCallbackFires applies |
| TimerRuns.DeactivatedStops | semester3-2/oslab/bochs-2.6.8/pc_system.cc:535-545 | deactivated and then left alone, a timer is not called any more |
| TimerRuns.DeactivatedInCallbackStops | semester3-2/oslab/bochs-2.6.8/pc_system.cc:376-384 | deactivated inside a callback and then left alone, it is called once more if and only if it was due in that event, has a callback and had not had its turn; then never again |
| TimerRuns.RegisterExactly | semester3-2/oslab/bochs-2.6.8/pc_system.cc:277-318 | a table of 64 refuses; else the timer goes as asked into the lowest slot not in use, which is returned, and an active one shortens the countdown to its period |
| TimerRuns.ActivateExactly | semester3-2/oslab/bochs-2.6.8/pc_system.cc:468-500 | activating sets period, fire time and repetition, keeps the callback and all other timers, and shortens the countdown to the period |
| TimerRuns.RegisteredInactiveIsSilent | semester3-2/oslab/bochs-2.6.8/pc_system.cc:291-297 | a timer registered inactive and then left alone is not called |
| TimerRuns.FreedSlotIsReused | semester3-2/oslab/bochs-2.6.8/pc_system.cc:547-575 | only an inactive timer is unregistered; its slot is the next to be given out, once all lower ones are in use, if and only if the table was not full or it was the last slot |
| TimerRuns.EventInOrder | semester3-2/oslab/bochs-2.6.8/pc_system.cc:376-384 | one event calls every slot at most once, in increasing order |
| TimerRuns.InvokeCalls | semester3-2/oslab/bochs-2.6.8/pc_system.cc:379-382 | a callback sees its own slot in triggeredTimer, which is 0 again after it |
| TimerRuns.ContinuousSchedule | semester3-2/oslab/bochs-2.6.8/pc_system.cc:350-358 | repeated rearming by one period gives the closed form of the schedule |
| TimerRuns.InitInv | semester3-2/oslab/bochs-2.6.8/pc_system.cc:41-76 | the initial scheduler satisfies the invariant at time 0: 64 slots, all free but the null timer's, whose period, fire time and countdown are 0xffffffff |
| PcSystem.PcSystem.constructor | semester3-2/oslab/bochs-2.6.8/pc_system.cc:41-76 | the initial state, with the null timer in slot 0 |
| PcSystem.PcSystem.RegisterTimerTicks | semester3-2/oslab/bochs-2.6.8/pc_system.cc:261-319 | in place, the specified slot, id and countdown; -1 when the table is full |
| PcSystem.PcSystem.ActivateTimerTicks | semester3-2/oslab/bochs-2.6.8/pc_system.cc:468-500 | in place, the specified rearming; the countdown is shortened when the timer fires sooner |
| PcSystem.PcSystem.DeactivateTimer | semester3-2/oslab/bochs-2.6.8/pc_system.cc:535-545 | in place, the timer is inactive and nothing else changes |
| PcSystem.PcSystem.UnregisterTimer | semester3-2/oslab/bochs-2.6.8/pc_system.cc:547-575 | an active timer is refused; otherwise its slot is freed, and the bound shrinks if it was the last |
| PcSystem.PcSystem.ServiceTimers | semester3-2/oslab/bochs-2.6.8/pc_system.cc:336-371 | one scan finds the due timers with their first and last index, rearms or retires them, and computes the earliest fire time |
| PcSystem.PcSystem.CallTimers | semester3-2/oslab/bochs-2.6.8/pc_system.cc:376-384 | calling back from the first to the last due index is calling back every due timer in order |
| PcSystem.PcSystem.CountdownEvent | semester3-2/oslab/bochs-2.6.8/pc_system.cc:321-385 | the two loops in place compute the specified event |
| PcSystem.PcSystem.TickN | semester3-2/oslab/bochs-2.6.8/pc_system.h:110-120 | the loop computes the specified batch, which TickNIsTicks compares with single ticks |
| PcSystem.PcSystem.TimeUsecSequential | semester3-2/oslab/bochs-2.6.8/pc_system.cc:445-459 | the two fields after the call and the result, with the difference modulo 2^64 |
| UsecClock.SequentialExact | semester3-2/oslab/bochs-2.6.8/pc_system.cc:445-459 | the result is max(current time, previous result) + 1 if and only if the clock has not gone back |
| UsecClock.ReadingsExact | semester3-2/oslab/bochs-2.6.8/pc_system.cc:445-459 | over every sequence of calls with nondecreasing time each result is max(current time, previous result) + 1 |
| UsecClock.ReadingsIncrease | semester3-2/oslab/bochs-2.6.8/pc_system.cc:445-459 | so the results strictly increase |
| CrcRegister.StepsLinear | semester3-2/oslab/bochs-2.6.8/crc.cc:41-51 | any number of shifts is linear over exclusive or |
| CrcRegister.StepsInjective | semester3-2/oslab/bochs-2.6.8/crc.cc:41-51 | no two registers meet after any number of shifts |
| CrcRegister.TableStep | semester3-2/oslab/bochs-2.6.8/crc.cc:63 | one table lookup is eight shifts of the register with the byte added at the top |
| CrcRegister.ByteStepIsBitSerial | semester3-2/oslab/bochs-2.6.8/crc.cc:53-65 | shifting a byte through is shifting in its bits one by one, most significant first |
| Crc.BurstDetected | semester3-2/oslab/bochs-2.6.8/crc.cc:53-65 | messages that differ only within four consecutive bytes have equal CRCs if and only if they are equal |
| CrcBursts.BitBurstDetected | semester3-2/oslab/bochs-2.6.8/crc.cc:53-65 | the same for messages that differ only within 32 consecutive bits at any bit position |
| CrcBursts.BitsInjective | semester3-2/oslab/bochs-2.6.8/crc.cc:53-65 | up to 32 message bits take a register to different places |
| Crc.UndetectedExactly | semester3-2/oslab/bochs-2.6.8/crc.cc:53-65 | which changes of any kind go unnoticed: those whose difference takes the zero register to zero |
| Crc.ReceiverAccepts | semester3-2/oslab/bochs-2.6.8/crc.cc:53-65 | a message with four more bytes leaves one fixed residue if and only if those bytes are its CRC |
| Crc.FoldLinear | semester3-2/oslab/bochs-2.6.8/crc.cc:53-65 | the register after a message is linear in preload and message together |
| Crc.Table.InitCrc32 | semester3-2/oslab/bochs-2.6.8/crc.cc:41-51 | every entry is its index shifted through the register |
| Crc.Table.Crc32 | semester3-2/oslab/bochs-2.6.8/crc.cc:53-65 | from an unbuilt or a built table, the result is the specified CRC, and the table stays unbuilt-or-right across calls |
| Crc.BuiltEntry | semester3-2/oslab/bochs-2.6.8/crc.cc:58-59 | entry 1 of a built table is nonzero, so the lazy test is sound |
| CrcDivision.CrcIsRemainder | semester3-2/oslab/bochs-2.6.8/crc.cc:41-65 | crc32 is the complement of the one remainder of the message times x^32, its first 32 coefficients inverted, by the generator |
| CrcDivision.RegisterIsRemainder | semester3-2/oslab/bochs-2.6.8/crc.cc:41-65 | after any preload and message the register is a remainder of the dividend |
| CrcDivision.DivisionUnique | semester3-2/oslab/bochs-2.6.8/crc.cc:34-39 | division by the generator has one quotient and one remainder |
| CrcDivision.GeneratorTerms | semester3-2/oslab/bochs-2.6.8/crc.cc:39 | the generator has exactly the terms of the Ethernet polynomial |
| CrcDivision.FoldIsBitSerial | semester3-2/oslab/bochs-2.6.8/crc.cc:53-65 | the byte-at-a-time register is the bit-serial one on every message |
| DebuggerDump.DumpTable | semester3-2/oslab/bochs-2.6.8/bx_debug/dbg_main.cc:3665-3707 | the printed lines describe the mapping: maximal runs, in order, with nothing mapped in between |
| DebuggerDump.DecodesBack | semester3-2/oslab/bochs-2.6.8/bx_debug/dbg_main.cc:3665-3707 | a description expands back to exactly the mapping, unmapped pages included |
| DebuggerDump.Increasing | semester3-2/oslab/bochs-2.6.8/bx_debug/dbg_main.cc:3665-3707 | the lines are disjoint and increasing |
| DebuggerDump.NotMergeable | semester3-2/oslab/bochs-2.6.8/bx_debug/dbg_main.cc:3665-3707 | no two neighbouring lines could be one |
| DebuggerDump.Canonical | semester3-2/oslab/bochs-2.6.8/bx_debug/dbg_main.cc:3665-3707 | a mapping has only one description |
| DebuggerDump.DifferenceTest | semester3-2/oslab/bochs-2.6.8/bx_debug/dbg_main.cc:3686 | comparing a 32-bit with a 64-bit difference is exact, for every page from the start of the run on |
| DebuggerDump.SentinelDiffers | semester3-2/oslab/bochs-2.6.8/bx_debug/dbg_main.cc:3681-3686 | the start values 1 and 2 are never taken for an open run |
| DebuggerRead.ReadLinear | semester3-2/oslab/bochs-2.6.8/bx_debug/dbg_main.cc:1339-1372 | succeeds if and only if every byte can be translated and read on its own and the first page is mapped; then the buffer holds those bytes; every physical read, on failure too, stays in one 4 KB frame, and on success the reads add up to the length |
| DebuggerRead.FetchMem | semester3-2/oslab/bochs-2.6.8/memory/misc_mem.cc:551-614 | stores every byte, bad ones as 0xff, and says whether all were good |
| DebuggerRead.ChunkBytes | semester3-2/oslab/bochs-2.6.8/bx_debug/dbg_main.cc:1346-1369 | up to the end of a page, the byte-by-byte translations are one contiguous physical read, address wrap included |
| DebuggerRead.ReadExactly | semester3-2/oslab/bochs-2.6.8/bx_debug/dbg_main.cc:1339-1372 | the page-by-page read succeeds just when the byte-by-byte one does, if and only if the length is positive or the first page is mapped |
| DebuggerRead.EmptyReadRefused | semester3-2/oslab/bochs-2.6.8/bx_debug/dbg_main.cc:1346-1361 | a read of no bytes from an unmapped page, which the byte-by-byte form allows, is refused |
| PciBars.RegionsDisjoint | semester3-2/oslab/bochs-2.6.8/bios/rombios32.c:918-946 | over every sequence of power-of-two sizes that does not wrap, every address is a multiple of its size and regions from one cursor are disjoint and increasing |
| PciBars.AlignIsLeast | semester3-2/oslab/bochs-2.6.8/bios/rombios32.c:939 | the bit trick gives the least multiple of a power of two at or above the cursor |
| PciBars.NextRegion | semester3-2/oslab/bochs-2.6.8/bios/rombios32.c:934-944 | a probed region of at least 16 bytes takes the I/O cursor if its lowest flag is set and else the memory cursor, is placed at the least multiple of its size from there on, and moves that cursor right behind it and not the other |
| PciBars.ProbeDecodes | semester3-2/oslab/bochs-2.6.8/bios/rombios32.c:934 | a probed register gives back the size of its region if and only if that is at least 16; smaller ones read as 16 |
| PciBars.ZeroSizeResets | semester3-2/oslab/bochs-2.6.8/bios/rombios32.c:934-944 | a register with only flag bits set is sized 0 and moves the cursor to 0 |
| PciBars.CursorGoesUp | semester3-2/oslab/bochs-2.6.8/bios/rombios32.c:934-944 | a register moves its cursor strictly up if and only if it reads back at least 16, that is, more than flag bits |
| PciBars.RegionsIncreaseExactly | semester3-2/oslab/bochs-2.6.8/bios/rombios32.c:918-946 | over every sequence of registers, regions start above their first cursor, increase and are disjoint if and only if no register reads back flag bits alone |
| PciBars.RegionsOverlap | semester3-2/oslab/bochs-2.6.8/bios/rombios32.c:918-946 | four registers that, from the start values, put two regions of 1 GB at the same address |
| PciBars.PciBios.MapRegions | semester3-2/oslab/bochs-2.6.8/bios/rombios32.c:918-946 | the loop over the probed values hands out what RegionsDisjoint is about |
| PciBars.PciBios.constructor | semester3-2/oslab/bochs-2.6.8/bios/rombios32.c:1001-1005 | the start values of the two cursors |
| PciRom.Bios.InitPcirom | semester3-2/oslab/bochs-2.6.8/bios/rombios32.c:824-868 | copied if and only if the ROM is there and the cursor plus the third byte of the image times 512, rounded up to 2 KB, is at most 0xe0000; then the cursor moves by that, every byte is at the old cursor, all other memory is untouched, the chunks tile the copy without crossing a page, and the control registers are as before but for the fields of the touched pages, which are 1 |
| PciRom.Bios.InitRoms | semester3-2/oslab/bochs-2.6.8/bios/rombios32.c:824-868 | over any sequence of ROMs, each is copied if and only if it is there and fits behind the cursor reached so far; the copies are in order, disjoint, inside the window and all still intact at the end, and the control registers change in the fields of their pages only |
| PciRom.LayoutExactly | semester3-2/oslab/bochs-2.6.8/bios/rombios32.c:834-841 | one more ROM of the sequence: copied if and only if it is there and its third byte times 512, rounded up to 2 KB, fits behind the last copy up to 0xe0000 |
| PciRom.FieldBits | semester3-2/oslab/bochs-2.6.8/bios/rombios32.c:849-860 | the 16 KB pages from 0xc0000 on have bits 0-1 and bits 4-5 of the registers from 0x5a on, in turn |
| PciRom.ShadowsExactly | semester3-2/oslab/bochs-2.6.8/bios/rombios32.c:858 | memory after a copy, byte by byte |
| PciRom.MarkedFields | semester3-2/oslab/bochs-2.6.8/bios/rombios32.c:849-860 | what that change is: the fields of these pages read 1, every other field of the window, every register of no such page, and all bits outside the fields are as before |
| PciRom.OpenedMarks | semester3-2/oslab/bochs-2.6.8/bios/rombios32.c:849-860 | the two writes for one chunk set exactly the field of its page |
| PciRom.TiledOnce | semester3-2/oslab/bochs-2.6.8/bios/rombios32.c:844-863 | every byte of the copy lies in exactly one chunk |
| PciRom.TouchedExactly | semester3-2/oslab/bochs-2.6.8/bios/rombios32.c:844-863 | the pages opened are those that hold copied bytes if and only if the ROM is not empty |
| PciRom.FieldsApart | semester3-2/oslab/bochs-2.6.8/bios/rombios32.c:849-854 | inside the shadow window, pages have the same control field if and only if they are the same page |
| SmbiosMemory.DescribeMemory | semester3-2/oslab/bochs-2.6.8/bios/rombios32.c:2242-2252 | the devices listed, whose sizes sum to the memory size |
| SmbiosMemory.DeviceAt | semester3-2/oslab/bochs-2.6.8/bios/rombios32.c:2246-2248 | every device has between 1 and 0x4000 MB |
| SmbiosMemory.TilesExactly | semester3-2/oslab/bochs-2.6.8/bios/rombios32.c:2137-2155 | every KB of memory is mapped to exactly one device and no other KB to any, if and only if the KB addresses fit in 32 bits |
| SmbiosMemory.RangeIsSize | semester3-2/oslab/bochs-2.6.8/bios/rombios32.c:2242-2252 | a device covers as many KB as it has; all but the last have 16 GB |

## Left out

- LevelResize.ExpandFits: one direction; with more bottom items it depends on the hash values (ExpandExits). No claim is made that an expand, or a retry after a refused insert, succeeds.
- LevelTable.LevelHash.Expand: nothing is said of the state after an exit, because the program is over.
- `hash.c`, the generation of the two seeds, `printf`, `posix_memalign` and `free`; the capacities and counters are unbounded integers, while the expansion count wraps at 256 as in the code.
- TimerSpec.TickN: 64-bit tick counts do not overflow, and the initial value of the minimum search, the largest 64-bit number, is a distinct value above all others.
- TimerRuns.ArmedInCallbackFires: callbacks act through a list of calls made when they return; callbacks that call `tickn` themselves are not modelled.
- Timer names, the `this_ptr` and `param` fields, the floating-point conversions between microseconds and ticks, A20, interrupts, reset and exit of `pc_system.cc`.
- UsecClock.SequentialExact: the time and the result fit in 64 bits, as the code assumes when it adds the two fields.
- DebuggerDump.DumpTable: the printed text is a list of ranges; the translation is a function that does not change during the walk.
- DebuggerRead.ReadLinear: the message printed on a failure, and the 4-level page walk behind the translation.
- Breakpoints, the time-breakpoint queue and command printing of `dbg_main.cc`.
- PciBars.PciBios.MapRegions: the probe of the configuration space is its list of results; programming the registers and the devices with fixed mappings are left out. The option-ROM call inside the loop changes neither cursor.
- PciRom.Bios.InitPcirom: the ROM image is assumed to lie outside the shadow window, as a mapped ROM does, and memory is one function from addresses to bytes, so that a write to a page that is not open is not caught.
- SmbiosMemory.DescribeMemory: the sums in the source are `int` and do not overflow for memory sizes below 2^31 - 0x4000 MB, and its shift by 24 into the sign bit is taken modulo 2^32; the other table contents, and the MP and ACPI tables, are left out.
- The loader, configuration and logging code of Bochs, and the other programs of the repository.
