# Demand-paging simulator (`mmu.c`) in Dafny

The simulator keeps a page table (one entry per virtual page: resident
flag, frame number, last-access step, next-use step) and a frame table
(one entry per physical frame: the page held, occupied flag). It walks a
reference string. For each reference it stamps the page's last access and
next use, then counts a hit when the page is resident. Otherwise it counts
a fault and installs the page with one of three replacement policies:

- FIFO uses a process-wide round-robin cursor.
- LRU evicts the page with the smallest last-access step.
- OPT evicts the page whose next reference is farthest ahead.

Every policy first tries the lowest free frame.

The project has four modules:

- `Paging` (paging.dfy) is the data model. It defines `Frame`,
  `PageTableEntry`, `Policy`, and `Memory`, a snapshot of both tables and
  the cursor. It also defines the structural invariant `Consistent`: the
  frame table and page table describe the same one-to-one mapping, and the
  cursor is a frame index. The first-fit search, the LRU and OPT victim
  scans, the lookahead and each policy are written as pure specification
  functions, with lemmas stating what they promise.
- `Simulation` (simulation.dfy) states the reference loop of `main` as a
  specification. `Run` gives the state and both counters after the first
  `n` references. The lemmas are about whole runs: counting, residency,
  cold misses, fill order, and FIFO's round robin.
- `Mmu` (mmu.dfy) is the imperative model. The class `MMU` holds the two
  tables as arrays and the cursor as a field. Its methods mirror
  `initializeMMU`, `findFreeFrame`, the three policies, `addPage` and the
  reference loop, loop for loop. Each method is proved to leave exactly the
  state that the matching specification function computes, and to keep
  `Consistent`.
- `Scenarios` (scenarios.dfy) works a small run by hand: pages 0, 1, 0, 2
  on two frames. FIFO and LRU evict different pages on it, and OPT shows
  its tie-break by the lowest frame.

The constants of the C file are parameters of the model:

- `NUM_FRAMES` is any positive frame count.
- `PROC_PAGES` is the page-table size, the length of the reference string,
  and OPT's "never used again" distance. The model keeps these three tied
  (`WellFormed`: `|refs| == |pages|`, every reference a page of the table).
- The global policy selector `pra` is a `Policy` parameter.
- The resident flags (-1/1 in C) are `bool`.

## Model

| member | source | states |
|---|---|---|
| Paging.FirstFreeFrom | mmu.c:81-88 | the scan from frame `i` returns the first unoccupied frame at or after `i`; every frame it passes is occupied; -1 exactly when all remaining frames are occupied |
| Paging.FirstFree | mmu.c:78-89 | first fit: the lowest unoccupied frame, every lower frame occupied; -1 exactly when the frame table is full |
| Paging.FirstMin | mmu.c:130-139 | a scan that replaces its candidate only on a strictly smaller key returns the index of a minimum key, the lowest such index on ties |
| Paging.FirstMax | mmu.c:166-192 | a scan that replaces its candidate only on a strictly larger key returns the index of a maximum key, the lowest such index on ties |
| Paging.FirstMinExtend | mmu.c:132-138 | one iteration of the LRU scan turns the first minimum of a prefix into the first minimum of the prefix one longer |
| Paging.FirstMaxExtend | mmu.c:169-191 | one iteration of the OPT scan turns the first maximum of a prefix into the first maximum of the prefix one longer |
| Paging.NextUseFrom | mmu.c:173-180 | the forward scan from `from` finds the first position holding `page`, or -1 when no later position holds it |
| Paging.NextUse | mmu.c:248-255 | the next reference to a page strictly after step `i`, with no reference to it in between; -1 exactly when the page is never referenced again |
| Paging.OptDistance | mmu.c:171-185 | OPT's key for a page after step `i`: when below the string length, it is the first later position holding the page, with no reference to the page in between; otherwise the page is never referenced again and the key is the string length (`PROC_PAGES`) |
| Paging.Place | mmu.c:98-101 | installing a page in a free frame (the same block is at mmu.c:122-125 and 158-161): the frame holds the page, the page's entry is resident and points at the frame, sizes and cursor are unchanged; `FreeFrameInstall` adds that nothing else changes |
| Paging.Evict | mmu.c:105-110 | replacing the page of a victim frame (the same block is at mmu.c:141-147 and 194-200): the victim frame holds the new page, which is resident and points at it, and the old page is no longer resident; sizes and cursor are unchanged; `EvictionSwapsOneMapping` adds that nothing else changes |
| Paging.LruKeys | mmu.c:134-135 | the key LRU compares for each frame: the last-access step of the page it holds; `LruEviction` states the victim's key is the first minimum |
| Paging.OptKeys | mmu.c:171-185 | the key OPT compares for each frame: the `OptDistance` of the page it holds after the current step; `OptEviction` states the victim's key is the first maximum |
| Paging.Victim | mmu.c:105 | the frame a policy evicts from a full table: the cursor for FIFO (mmu.c:105), the first minimum of the LRU keys (mmu.c:130-139), the first maximum of the OPT keys (mmu.c:166-192) |
| Paging.FifoReplace | mmu.c:91-113 | FIFO's installation: first fit, or else evict the frame under the cursor and advance it; the page ends resident and mapped both ways; `FreeFrameInstall`, `EvictionSwapsOneMapping` and `FifoEviction` state the rest |
| Paging.LruReplace | mmu.c:115-149 | LRU's installation: first fit, or else evict the first least-recently-used frame; the page ends resident and mapped both ways and the cursor is untouched; `LruEviction` states the victim rule |
| Paging.OptReplace | mmu.c:151-202 | OPT's installation: first fit, or else evict the first frame whose page is next used farthest ahead; the page ends resident and mapped both ways and the cursor is untouched; `OptEviction` states the victim rule |
| Paging.Replace | mmu.c:205-219 | `addPage`'s dispatch on the policy: the page ends resident and mapped both ways, and only FIFO may move the cursor; `ReplacePreservesConsistency` states the agreement is kept |
| Paging.Stamp | mmu.c:245-255 | the bookkeeping before classification: the referenced page's entry gets last access `i` and its next use, frames and cursor unchanged; `StampPreservesConsistency` adds that no other entry changes |
| Paging.FreeFrameInstall | mmu.c:94-102 | with a free frame, every policy puts the page in the lowest free frame and marks its entry resident with that frame number; no other frame or entry changes, and the cursor stays |
| Paging.EvictionSwapsOneMapping | mmu.c:105-111 | with a full frame table, the victim's page is a different resident page and becomes non-resident; the faulting page becomes resident in the victim frame; nothing else changes, all frames stay occupied, and LRU and OPT leave the cursor where it was (the same holds at mmu.c:141-147 and 194-200) |
| Paging.FifoEviction | mmu.c:103-112 | FIFO evicts the frame under the cursor and advances the cursor by one, wrapping to 0 after the last frame, so it stays a frame index |
| Paging.LruEviction | mmu.c:127-148 | LRU's victim holds a page whose last access is no later than that of any resident page, and strictly earlier than those in all lower frames |
| Paging.OptEviction | mmu.c:163-201 | OPT's victim holds a page whose next use is at least as far ahead as any resident page's (never again counting as the page count), and strictly farther than those in all lower frames |
| Paging.ReplacePreservesConsistency | mmu.c:205-219 | installing a faulting page with any policy keeps the frame table and page table in agreement and makes the page resident; no page besides it becomes resident |
| Paging.ReplaceFillsInOrder | mmu.c:78-89 | because of first fit, the occupied frames stay a prefix of the frame table after every installation |
| Paging.StampPreservesConsistency | mmu.c:246-255 | stamping sets the page's last access to `i` and its next use to the following reference of it (or -1); its frame number, every other entry, residency, the frame table and the cursor are untouched, and the agreement is kept |
| Paging.ResidentMatchesOccupied | mmu.c:52-58 | in a consistent state there are exactly as many resident pages as occupied frames, and never more than the number of frames |
| Paging.EmptyIsConsistent | mmu.c:61-76 | the state `initializeMMU` leaves (no page resident, every frame empty) satisfies the agreement, is filled in order, and has no resident page |
| Simulation.Run | mmu.c:243-268 | after the first `n` references the state is still consistent, has as many frames and pages, and fault count plus hit count equals `n` |
| Simulation.Step | mmu.c:257-267 | one more reference keeps the state consistent and brings fault count plus hit count to `i + 1` |
| Simulation.Install | mmu.c:257-261 | the state after a faulting reference is consistent and has as many frames and pages |
| Simulation.Stamped | mmu.c:245-255 | the stamped state is consistent and has as many frames and pages |
| Simulation.StepUnfolds | mmu.c:243-268 | one reference: stamp the page, then on a non-resident page add one fault and install it with the policy, else add one hit and change nothing more |
| Simulation.StepCounts | mmu.c:257-267 | a reference counts one fault exactly when its page was not resident, and one hit otherwise; the other counter stays |
| Simulation.StepResidency | mmu.c:257-262 | after a reference its page is resident, and no other page has become resident |
| Simulation.CountersGrow | mmu.c:260-266 | neither counter ever decreases along a run |
| Simulation.RepeatIsHit | mmu.c:243-268 | referencing the page just referenced is a hit: the hit counter goes up by one and the fault counter stays |
| Simulation.ResidentWereReferenced | mmu.c:243-268 | after `n` references every resident page was resident at the start or is among the first `n` references |
| Simulation.ColdMiss | mmu.c:257-262 | from an empty memory, the first reference to a page is a fault |
| Simulation.DistinctReferencesAllFault | mmu.c:243-268 | from an empty memory, a string of distinct pages faults on every reference and never hits |
| Simulation.RunFillsInOrder | mmu.c:243-268 | the occupied frames stay a prefix of the frame table during a whole run |
| Simulation.FifoFaultAt | mmu.c:91-113 | after `i` FIFO faults from an empty memory, the next fault fills frame `i mod N`; the first `i + 1` frames (at most all) are occupied and the cursor is `(i + 1) mod N` once the table has filled |
| Simulation.FifoRoundRobin | mmu.c:103-112 | from an empty memory with the cursor at frame 0, FIFO on distinct pages puts reference `k` in frame `k mod N`, and the cursor sits at `n mod N` once the frames are full |
| Mmu.NextOccurrence | mmu.c:248-255 | the loop finds the next reference to the page after `idx`, or -1 |
| Mmu.MMU.constructor | mmu.c:24 | both tables are allocated with the given sizes and the FIFO cursor starts at frame 0 |
| Mmu.MMU.InitializeMMU | mmu.c:61-76 | every entry becomes non-resident with last access 0 and next use -1, and every frame becomes empty; frame numbers are left as they were; the result satisfies the agreement |
| Mmu.MMU.FindFreeFrame | mmu.c:78-89 | the loop returns the first-fit frame, an unoccupied one, and -1 exactly when every frame is occupied |
| Mmu.MMU.LruVictim | mmu.c:130-139 | the loop returns the first frame whose page has the minimum last access |
| Mmu.MMU.OptVictim | mmu.c:166-192 | the nested loops return the first frame whose page's next use after `currentIdx` is farthest away, never again counting as the page count |
| Mmu.MMU.FifoPageReplacement | mmu.c:91-113 | the new state is the FIFO specification's: first fit, or else evict under the cursor and advance it; the agreement is kept |
| Mmu.MMU.LruPageReplacement | mmu.c:115-149 | the new state is the LRU specification's: first fit, or else evict the first least-recently-used frame; the agreement is kept |
| Mmu.MMU.OptPageReplacement | mmu.c:151-202 | the new state is the OPT specification's: first fit, or else evict the first farthest-next-use frame; the agreement is kept |
| Mmu.MMU.AddPage | mmu.c:205-219 | dispatches on the policy; the new state is that policy's replacement, the agreement is kept, and the page is resident |
| Mmu.MMU.StampReference | mmu.c:245-255 | the referenced page's entry gets last access `i` and its next use; nothing else changes |
| Mmu.MMU.ProcessReferences | mmu.c:243-268 | the loop leaves exactly the state and counters of `Run` over the whole string, and the counters sum to its length |
| Mmu.Simulate | mmu.c:221-268 | a full run starts from the empty, consistent MMU that `initializeMMU` leaves, with the cursor at frame 0, and returns exactly the fault and hit counts of `Run` over the whole string under the policy; faults plus hits equal the string length, a non-empty string has at least one fault, and a string of distinct pages faults every time |
| Scenarios.Step0 | mmu.c:243-268 | on 0 1 0 2 with two frames, the first reference faults into frame 0 under every policy |
| Scenarios.Step1 | mmu.c:243-268 | the second reference faults into frame 1 under every policy |
| Scenarios.Step2 | mmu.c:243-268 | the third reference is a hit that only restamps page 0 |
| Scenarios.Prefix | mmu.c:243-268 | the first three references give the same state under every policy: two faults and one hit |
| Scenarios.FifoEvictsOldest | mmu.c:103-112 | on the fourth reference FIFO evicts page 0, the page loaded first, and ends with 3 faults and 1 hit |
| Scenarios.OptBreaksTiesByLowestFrame | mmu.c:163-201 | on the fourth reference neither resident page is used again, both OPT keys are the string length, and the strict comparison evicts frame 0 (page 0); 3 faults and 1 hit |
| Scenarios.LruEvictsLeastRecentlyUsed | mmu.c:127-148 | on the fourth reference LRU evicts page 1 and keeps page 0, which was used more recently, and ends with 3 faults and 1 hit |

## Left out

- Console output is not modelled: `LOG`, `printf`, the `DEBUG` macro and the final dump of the frames (mmu.c:9-15, 234-241, 270-280).
- The `data[PAGE_SIZE]` array of a frame is not modelled (mmu.c:47). It is never read or written.
- `PAGE_SIZE` and `PHYSICAL_MEMORY_SIZE` are not modelled (mmu.c:5, 7). They are unused, and no address translation takes place.
- The commented-out random reference string is not modelled (mmu.c:229-232). It is dead code.
- The unused global `page_faults` is not modelled (mmu.c:28).
- The literal 20-reference string with 3 frames (mmu.c:227) is not evaluated. The model states its results for every string instead, and `Scenarios` works one short string by hand.
- Only FIFO, LRU and OPT are modelled: the enum (mmu.c:17-22) and the code contain exactly these three policies.
- C `int` overflow of the step counter and the counters is not modelled. Integers are unbounded; the counts never exceed the length of the reference string.
- The stamping step stores the result of the forward scan directly. The C code first writes -1 and then overwrites it (mmu.c:247-253). The final entry is the same, and nothing reads it in between.
- `frame_number` of a non-resident entry is left arbitrary, as `initializeMMU` leaves it uninitialised. The counts of a run do not depend on it.
- Mmu.MMU.InitializeMMU: does not reset the FIFO cursor, as in C, where `firstIdx` is a global set once at mmu.c:24. It requires the cursor to already be a frame index.
- Mmu.MMU.OptVictim: OPT's "never used again" distance and the lookahead bound are `PROC_PAGES` in C. The model uses the length of the reference string, which it requires to equal the page-table size.
