/**
 * A worked scenario: pages A, B, C (numbers 0 to 2), two frames, and the
 * reference string A B A C. The first three references run the same under
 * every policy: A and B fault into the two free frames, the second A is a
 * hit. When C faults both frames are occupied, and the policies part ways:
 * FIFO evicts A, the page loaded first, while LRU evicts B, because A was
 * referenced more recently. OPT sees neither A nor B referenced again and
 * breaks the tie by the lowest frame, evicting A.
 */
module Scenarios {
  import opened Paging
  import opened Simulation

  const Refs: seq<int> := [0, 1, 0, 2]

  /** An entry as the initialisation leaves it (frame number 0 standing for
    * whatever the table held). */
  const E := PageTableEntry(false, 0, 0, -1)

  /** The state and counters after each of the first three references, the
    * same under every policy. */
  const Trace: seq<Tally> := [
    Tally(Memory([EmptyFrame, EmptyFrame], [E, E, E, E], 0), 0, 0),
    Tally(Memory([Frame(0, true), EmptyFrame], [PageTableEntry(true, 0, 0, 2), E, E, E], 0), 1, 0),
    Tally(Memory([Frame(0, true), Frame(1, true)],
      [PageTableEntry(true, 0, 0, 2), PageTableEntry(true, 1, 1, -1), E, E], 0), 2, 0),
    Tally(Memory([Frame(0, true), Frame(1, true)],
      [PageTableEntry(true, 0, 2, -1), PageTableEntry(true, 1, 1, -1), E, E], 0), 2, 1)
  ]

  /** After C under FIFO: A is evicted from frame 0 and the cursor moves to frame 1. */
  const FifoFinal := Tally(Memory([Frame(2, true), Frame(1, true)],
    [PageTableEntry(false, 0, 2, -1), PageTableEntry(true, 1, 1, -1), PageTableEntry(true, 0, 3, -1), E], 1), 3, 1)

  /** After C under LRU: B is evicted from frame 1. */
  const LruFinal := Tally(Memory([Frame(0, true), Frame(2, true)],
    [PageTableEntry(true, 0, 2, -1), PageTableEntry(false, 1, 1, -1), PageTableEntry(true, 1, 3, -1), E], 0), 3, 1)

  /** After C under OPT: neither A nor B is referenced again, so both count
    * as the string's length, and the tie goes to frame 0: A is evicted. */
  const OptFinal := Tally(Memory([Frame(2, true), Frame(1, true)],
    [PageTableEntry(false, 0, 2, -1), PageTableEntry(true, 1, 1, -1), PageTableEntry(true, 0, 3, -1), E], 0), 3, 1)

  /** The memory as `initializeMMU` leaves it is consistent and fits `Refs`. */
  lemma StartIsConsistent()
    ensures Consistent(Trace[0].mem) && WellFormed(Trace[0].mem, Refs)
  {
    EmptyIsConsistent(Trace[0].mem);
  }

  /** A faults and goes into frame 0, the first free frame. */
  lemma Step0(policy: Policy)
    requires Consistent(Trace[0].mem) && WellFormed(Trace[0].mem, Refs)
    ensures Run(policy, Trace[0].mem, Refs, 1) == Trace[1]
  {
    assert NextUse(Refs, 0, 0) == 2;
    StepUnfolds(policy, Trace[0].mem, Refs, 0);
  }

  /** B faults and goes into frame 1, the first free frame. */
  lemma Step1(policy: Policy)
    requires Consistent(Trace[0].mem) && WellFormed(Trace[0].mem, Refs)
    requires Run(policy, Trace[0].mem, Refs, 1) == Trace[1]
    ensures Run(policy, Trace[0].mem, Refs, 2) == Trace[2]
  {
    assert NextUse(Refs, 1, 1) == -1;
    var s := Stamp(Trace[1].mem, Refs, 1);
    assert FirstFreeFrom(s.frames, 1) == 1;
    StepUnfolds(policy, Trace[0].mem, Refs, 1);
  }

  /** A is resident: a hit that only moves its timestamps. */
  lemma Step2(policy: Policy)
    requires Consistent(Trace[0].mem) && WellFormed(Trace[0].mem, Refs)
    requires Run(policy, Trace[0].mem, Refs, 2) == Trace[2]
    ensures Run(policy, Trace[0].mem, Refs, 3) == Trace[3]
  {
    assert NextUse(Refs, 0, 2) == -1;
    StepUnfolds(policy, Trace[0].mem, Refs, 2);
  }

  /** The first three references, under any policy. */
  lemma Prefix(policy: Policy)
    ensures Consistent(Trace[0].mem) && WellFormed(Trace[0].mem, Refs)
    ensures Run(policy, Trace[0].mem, Refs, 3) == Trace[3]
  {
    StartIsConsistent();
    Step0(policy);
    Step1(policy);
    Step2(policy);
  }

  /** Under FIFO, C replaces A, the page under the cursor. */
  lemma FifoEvictsOldest()
    ensures Consistent(Trace[0].mem) && WellFormed(Trace[0].mem, Refs)
    ensures Run(FIFO, Trace[0].mem, Refs, 4) == FifoFinal
    ensures FifoFinal.faults == 3 && FifoFinal.hits == 1
    ensures !FifoFinal.mem.pages[0].valid && FifoFinal.mem.pages[1].valid
  {
    Prefix(FIFO);
    assert NextUse(Refs, 2, 3) == -1;
    StepUnfolds(FIFO, Trace[0].mem, Refs, 3);
  }

  /** Under LRU, C replaces B, last used at step 1, while A, loaded first
    * but used at step 2, stays resident. */
  lemma LruEvictsLeastRecentlyUsed()
    ensures Consistent(Trace[0].mem) && WellFormed(Trace[0].mem, Refs)
    ensures Run(LRU, Trace[0].mem, Refs, 4) == LruFinal
    ensures LruFinal.faults == 3 && LruFinal.hits == 1
    ensures LruFinal.mem.pages[0].valid && !LruFinal.mem.pages[1].valid
  {
    Prefix(LRU);
    assert NextUse(Refs, 2, 3) == -1;
    var s := Stamp(Trace[3].mem, Refs, 3);
    assert LruKeys(s) == [2, 1];
    assert FirstMin([2, 1]) == 1;
    StepUnfolds(LRU, Trace[0].mem, Refs, 3);
  }

  /** Under OPT, C finds two pages never referenced again; the strict
    * comparison keeps the first frame, so A is evicted and the cursor
    * stays put. */
  lemma OptBreaksTiesByLowestFrame()
    ensures Consistent(Trace[0].mem) && WellFormed(Trace[0].mem, Refs)
    ensures Run(OPT, Trace[0].mem, Refs, 4) == OptFinal
    ensures OptFinal.faults == 3 && OptFinal.hits == 1
    ensures !OptFinal.mem.pages[0].valid && OptFinal.mem.pages[1].valid
  {
    Prefix(OPT);
    assert NextUse(Refs, 2, 3) == -1;
    var s := Stamp(Trace[3].mem, Refs, 3);
    assert NextUse(Refs, 0, 3) == -1 && NextUse(Refs, 1, 3) == -1;
    assert OptKeys(s, Refs, 3) == [4, 4];
    assert FirstMax([4, 4]) == 0;
    StepUnfolds(OPT, Trace[0].mem, Refs, 3);
  }
}
