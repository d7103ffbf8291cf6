/**
 * The memory-management unit of the simulator: a frame table and a page
 * table held in arrays and updated in place, and the process-wide FIFO
 * cursor. Every operation is proved to compute the corresponding
 * specification function of module Paging or Simulation.
 */
module Mmu {
  import opened Paging
  import opened Simulation

  /** The forward scan shared by the reference loop and OPT: the first step
    * after `idx` that references `page`, or -1 when there is none. */
  method NextOccurrence(refString: seq<int>, page: int, idx: nat) returns (j: int)
    ensures j == NextUse(refString, page, idx)
  {
    j := -1;
    var k := idx + 1;
    while k < |refString|
      invariant j == -1
      invariant NextUse(refString, page, idx) == NextUseFrom(refString, page, k)
      decreases |refString| - k
    {
      if refString[k] == page {
        j := k;
        break;
      }
      k := k + 1;
    }
  }

  class MMU {
    /** The physical memory: `NUM_FRAMES` frames. */
    const frames: array<Frame>
    /** The page table: one entry per virtual page. */
    const pageTable: array<PageTableEntry>
    /** The FIFO cursor: the next frame FIFO evicts. */
    var firstIdx: int

    /** The abstract value of the MMU. */
    ghost function State(): Memory
      reads this, frames, pageTable
    {
      Memory(frames[..], pageTable[..], firstIdx)
    }

    /** The object invariant: the two tables agree and the cursor is a frame index. */
    ghost predicate Valid()
      reads this, frames, pageTable
    {
      Consistent(State())
    }

    /** Allocates both tables; their contents are unspecified until
      * `InitializeMMU`. The cursor starts at frame 0. */
    constructor (numFrames: nat, procPages: nat)
      requires numFrames > 0
      ensures frames.Length == numFrames && pageTable.Length == procPages && firstIdx == 0
      ensures fresh(frames) && fresh(pageTable)
    {
      frames := new Frame[numFrames];
      pageTable := new PageTableEntry[procPages];
      firstIdx := 0;
    }

    /** Empties both tables. Frame numbers of the (now invalid) entries are
      * left as they were, and the cursor is not reset. */
    method InitializeMMU()
      requires 0 <= firstIdx < frames.Length
      modifies frames, pageTable
      ensures Empty(State()) && Valid() && FilledInOrder(frames[..])
      ensures forall p :: 0 <= p < pageTable.Length ==> pageTable[p].frameNumber == old(pageTable[p].frameNumber)
    {
      for i := 0 to pageTable.Length
        invariant forall p :: 0 <= p < i ==>
          !pageTable[p].valid && pageTable[p].lastAccessed == 0 && pageTable[p].futureAccess == -1
        invariant forall p :: 0 <= p < pageTable.Length ==> pageTable[p].frameNumber == old(pageTable[p].frameNumber)
      {
        pageTable[i] := pageTable[i].(valid := false, lastAccessed := 0, futureAccess := -1);
      }
      for i := 0 to frames.Length
        modifies frames
        invariant forall f :: 0 <= f < i ==> frames[f] == EmptyFrame
      {
        frames[i] := frames[i].(pageNumber := -1, valid := false);
      }
      EmptyIsConsistent(State());
    }

    /** First fit: the lowest unoccupied frame, or -1 when all are occupied. */
    method FindFreeFrame() returns (r: int)
      ensures r == FirstFree(frames[..])
      ensures r == -1 <==> forall f :: 0 <= f < frames.Length ==> frames[f].valid
      ensures r != -1 ==> 0 <= r < frames.Length && !frames[r].valid
    {
      for i := 0 to frames.Length
        invariant forall f :: 0 <= f < i ==> frames[f].valid
      {
        if !frames[i].valid {
          return i;
        }
      }
      return -1;
    }

    /** LRU's scan: the first frame whose page has the smallest last-access step. */
    method LruVictim() returns (lruFrame: int)
      requires Valid() && Full(frames[..])
      ensures lruFrame == FirstMin(LruKeys(State()))
    {
      ghost var keys := LruKeys(State());
      lruFrame := 0;
      for i := 1 to frames.Length
        invariant IsFirstMin(keys[..i], lruFrame)
      {
        assert MapsTo(State(), frames[i].pageNumber, i) && MapsTo(State(), frames[lruFrame].pageNumber, lruFrame);
        FirstMinExtend(keys, i, lruFrame);
        if pageTable[frames[i].pageNumber].lastAccessed < pageTable[frames[lruFrame].pageNumber].lastAccessed {
          lruFrame := i;
        }
      }
      assert keys[..frames.Length] == keys;
      FirstMinUnique(keys, lruFrame, FirstMin(keys));
    }

    /** OPT's scan: the first frame whose page is next referenced farthest
      * after `currentIdx`; a page never referenced again counts as the
      * page count. */
    method OptVictim(refString: seq<int>, currentIdx: nat) returns (pageToReplace: int)
      requires Valid() && |refString| == pageTable.Length
      ensures pageToReplace == FirstMax(OptKeys(State(), refString, currentIdx))
    {
      ghost var keys := OptKeys(State(), refString, currentIdx);
      var maxFutureAccess := -1;
      pageToReplace := -1;
      for i := 0 to frames.Length
        invariant i == 0 ==> pageToReplace == -1 && maxFutureAccess == -1
        invariant i > 0 ==> IsFirstMax(keys[..i], pageToReplace) && maxFutureAccess == keys[pageToReplace]
      {
        var futureAccess := NextOccurrence(refString, frames[i].pageNumber, currentIdx);
        if futureAccess == -1 {
          futureAccess := pageTable.Length;
        }
        assert futureAccess == keys[i];
        if i > 0 {
          FirstMaxExtend(keys, i, pageToReplace);
        }
        if futureAccess > maxFutureAccess {
          maxFutureAccess := futureAccess;
          pageToReplace := i;
        }
      }
      assert keys[..frames.Length] == keys;
      FirstMaxUnique(keys, pageToReplace, FirstMax(keys));
    }

    /** FIFO replacement: fill the first free frame, or else evict the frame
      * under the cursor and advance the cursor. */
    method FifoPageReplacement(pageNum: int)
      requires Valid() && 0 <= pageNum < pageTable.Length && !pageTable[pageNum].valid
      modifies this, frames, pageTable
      ensures State() == FifoReplace(old(State()), pageNum)
      ensures Valid()
    {
      ghost var m := State();
      var freeFrame := FindFreeFrame();
      if freeFrame != -1 {
        pageTable[pageNum] := pageTable[pageNum].(valid := true);
        pageTable[pageNum] := pageTable[pageNum].(frameNumber := freeFrame);
        frames[freeFrame] := frames[freeFrame].(pageNumber := pageNum);
        frames[freeFrame] := frames[freeFrame].(valid := true);
      } else {
        assert MapsTo(m, frames[firstIdx].pageNumber, firstIdx);
        var pageNumDel := frames[firstIdx].pageNumber;
        pageTable[pageNumDel] := pageTable[pageNumDel].(valid := false);
        pageTable[pageNum] := pageTable[pageNum].(frameNumber := firstIdx);
        pageTable[pageNum] := pageTable[pageNum].(valid := true);
        frames[firstIdx] := frames[firstIdx].(pageNumber := pageNum);
        firstIdx := (firstIdx + 1) % frames.Length;
      }
      ReplacePreservesConsistency(FIFO, m, pageNum, [], 0);
    }

    /** LRU replacement: fill the first free frame, or else evict the least
      * recently used page. */
    method LruPageReplacement(pageNum: int)
      requires Valid() && 0 <= pageNum < pageTable.Length && !pageTable[pageNum].valid
      modifies frames, pageTable
      ensures State() == LruReplace(old(State()), pageNum)
      ensures Valid()
    {
      ghost var m := State();
      var freeFrame := FindFreeFrame();
      if freeFrame != -1 {
        pageTable[pageNum] := pageTable[pageNum].(valid := true);
        pageTable[pageNum] := pageTable[pageNum].(frameNumber := freeFrame);
        frames[freeFrame] := frames[freeFrame].(pageNumber := pageNum);
        frames[freeFrame] := frames[freeFrame].(valid := true);
      } else {
        var lruFrame := LruVictim();
        assert MapsTo(m, frames[lruFrame].pageNumber, lruFrame);
        var pageNumDel := frames[lruFrame].pageNumber;
        pageTable[pageNumDel] := pageTable[pageNumDel].(valid := false);
        pageTable[pageNum] := pageTable[pageNum].(frameNumber := lruFrame);
        pageTable[pageNum] := pageTable[pageNum].(valid := true);
        frames[lruFrame] := frames[lruFrame].(pageNumber := pageNum);
        frames[lruFrame] := frames[lruFrame].(valid := true);
      }
      ReplacePreservesConsistency(LRU, m, pageNum, [], 0);
    }

    /** OPT replacement: fill the first free frame, or else evict the page
      * whose next reference after `currentIdx` is farthest away. */
    method OptPageReplacement(pageNum: int, refString: seq<int>, currentIdx: nat)
      requires Valid() && 0 <= pageNum < pageTable.Length && !pageTable[pageNum].valid
      requires |refString| == pageTable.Length
      modifies frames, pageTable
      ensures State() == OptReplace(old(State()), pageNum, refString, currentIdx)
      ensures Valid()
    {
      ghost var m := State();
      var freeFrame := FindFreeFrame();
      if freeFrame != -1 {
        pageTable[pageNum] := pageTable[pageNum].(valid := true);
        pageTable[pageNum] := pageTable[pageNum].(frameNumber := freeFrame);
        frames[freeFrame] := frames[freeFrame].(pageNumber := pageNum);
        frames[freeFrame] := frames[freeFrame].(valid := true);
      } else {
        var pageToReplace := OptVictim(refString, currentIdx);
        assert MapsTo(m, frames[pageToReplace].pageNumber, pageToReplace);
        var pageNumDel := frames[pageToReplace].pageNumber;
        pageTable[pageNumDel] := pageTable[pageNumDel].(valid := false);
        pageTable[pageNum] := pageTable[pageNum].(frameNumber := pageToReplace);
        pageTable[pageNum] := pageTable[pageNum].(valid := true);
        frames[pageToReplace] := frames[pageToReplace].(pageNumber := pageNum);
        frames[pageToReplace] := frames[pageToReplace].(valid := true);
      }
      ReplacePreservesConsistency(OPT, m, pageNum, refString, currentIdx);
    }

    /** Install a faulting page with the given policy. */
    method AddPage(policy: Policy, pageNum: int, refString: seq<int>, currentIdx: nat)
      requires Valid() && 0 <= pageNum < pageTable.Length && !pageTable[pageNum].valid
      requires |refString| == pageTable.Length
      modifies this, frames, pageTable
      ensures State() == Replace(policy, old(State()), pageNum, refString, currentIdx)
      ensures Valid() && pageTable[pageNum].valid
    {
      ghost var m := State();
      match policy
      case FIFO => FifoPageReplacement(pageNum);
      case LRU => LruPageReplacement(pageNum);
      case OPT => OptPageReplacement(pageNum, refString, currentIdx);
      ReplacePreservesConsistency(policy, m, pageNum, refString, currentIdx);
    }

    /** The bookkeeping at the top of the reference loop: the referenced
      * page records step `i` as its last access, and the scan ahead records
      * its next use. */
    method StampReference(refString: seq<int>, i: nat) returns (pageNum: int)
      requires Valid() && WellFormed(State(), refString) && i < |refString|
      modifies pageTable
      ensures pageNum == refString[i]
      ensures State() == Stamp(old(State()), refString, i)
      ensures Valid() && WellFormed(State(), refString)
    {
      pageNum := refString[i];
      var next := NextOccurrence(refString, pageNum, i);
      pageTable[pageNum] := pageTable[pageNum].(lastAccessed := i);
      pageTable[pageNum] := pageTable[pageNum].(futureAccess := next);
      assert pageTable[..] == Stamp(old(State()), refString, i).pages;
      StampPreservesConsistency(old(State()), refString, i);
    }

    /** The reference loop: stamp each referenced page, then count a hit or
      * count a fault and install the page with `policy`. */
    method ProcessReferences(policy: Policy, refString: seq<int>) returns (numPageFaults: nat, numPageHits: nat)
      requires Valid() && WellFormed(State(), refString)
      modifies this, frames, pageTable
      ensures var t := Run(policy, old(State()), refString, |refString|);
        State() == t.mem && numPageFaults == t.faults && numPageHits == t.hits
      ensures Valid() && numPageFaults + numPageHits == |refString|
    {
      ghost var m0 := State();
      numPageFaults, numPageHits := 0, 0;
      for i := 0 to |refString|
        invariant var t := Run(policy, m0, refString, i);
          State() == t.mem && numPageFaults == t.faults && numPageHits == t.hits
      {
        StepUnfolds(policy, m0, refString, i);
        var pageNum := StampReference(refString, i);
        if !pageTable[pageNum].valid {
          numPageFaults := numPageFaults + 1;
          AddPage(policy, pageNum, refString, i);
        } else {
          numPageHits := numPageHits + 1;
        }
      }
    }
  }

  /** A whole run: allocate and empty the MMU, then process the reference
    * string. The page table has one entry per reference, and every
    * reference must name one of those pages. `m0` is the emptied MMU the
    * run starts from; its frame numbers are whatever the fresh table held. */
  method Simulate(numFrames: nat, policy: Policy, refString: seq<int>)
    returns (numPageFaults: nat, numPageHits: nat, ghost m0: Memory)
    requires numFrames > 0
    requires forall k :: 0 <= k < |refString| ==> 0 <= refString[k] < |refString|
    ensures Empty(m0) && m0.firstIdx == 0 && |m0.frames| == numFrames && |m0.pages| == |refString|
    ensures Consistent(m0) && WellFormed(m0, refString)
    ensures numPageFaults == Run(policy, m0, refString, |refString|).faults
    ensures numPageHits == Run(policy, m0, refString, |refString|).hits
    ensures numPageFaults + numPageHits == |refString|
    ensures |refString| > 0 ==> numPageFaults > 0
    ensures (forall j, k :: 0 <= j < k < |refString| ==> refString[j] != refString[k]) ==>
      numPageFaults == |refString| && numPageHits == 0
  {
    var mmu := new MMU(numFrames, |refString|);
    mmu.InitializeMMU();
    m0 := mmu.State();
    EmptyIsConsistent(m0);
    numPageFaults, numPageHits := mmu.ProcessReferences(policy, refString);
    if |refString| > 0 {
      ColdMiss(policy, m0, refString, 0);
      CountersGrow(policy, m0, refString, 1, |refString|);
    }
    if forall j, k :: 0 <= j < k < |refString| ==> refString[j] != refString[k] {
      DistinctReferencesAllFault(policy, m0, refString, |refString|);
    }
  }
}
