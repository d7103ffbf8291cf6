/**
 * The data model of the demand-paging simulator and the specification of
 * its three replacement policies, as pure functions over a snapshot of the
 * memory-management unit (frame table, page table and the FIFO cursor).
 *
 * The imperative MMU class (module Mmu) is proved to compute exactly these
 * functions; the lemmas here state what the functions promise.
 */
module Paging {

  /** A physical frame: the page it holds and whether it is occupied.
    * An empty frame holds page -1. */
  datatype Frame = Frame(pageNumber: int, valid: bool)

  const EmptyFrame := Frame(-1, false)

  /** Per-virtual-page metadata. `frameNumber` means something only while
    * `valid` is set; `lastAccessed` feeds LRU; `futureAccess` is the next
    * step at which the page is referenced again, or -1. */
  datatype PageTableEntry = PageTableEntry(valid: bool, frameNumber: int, lastAccessed: int, futureAccess: int)

  /** The replacement policies of the simulator. */
  datatype Policy = FIFO | LRU | OPT

  /** A snapshot of the MMU: both tables and the FIFO cursor. */
  datatype Memory = Memory(frames: seq<Frame>, pages: seq<PageTableEntry>, firstIdx: int)

  // ---------------------------------------------------------------------
  // The structural invariant: frame table and page table agree
  // ---------------------------------------------------------------------

  /** Page `p` is a page of the table, is resident, and its entry points at frame `f`. */
  predicate MapsTo(m: Memory, p: int, f: int)
  {
    0 <= p < |m.pages| && m.pages[p].valid && m.pages[p].frameNumber == f
  }

  /** The cursor is a frame index and the two tables describe the same
    * one-to-one mapping between occupied frames and resident pages. */
  predicate Consistent(m: Memory)
  {
    && |m.frames| > 0
    && 0 <= m.firstIdx < |m.frames|
    && (forall f :: 0 <= f < |m.frames| && m.frames[f].valid ==> MapsTo(m, m.frames[f].pageNumber, f))
    && (forall f :: 0 <= f < |m.frames| && !m.frames[f].valid ==> m.frames[f] == EmptyFrame)
    && (forall p :: 0 <= p < |m.pages| && m.pages[p].valid ==>
          0 <= m.pages[p].frameNumber < |m.frames| && m.frames[m.pages[p].frameNumber] == Frame(p, true))
  }

  /** The state `initializeMMU` leaves behind: no page resident, zero
    * timestamps, no known next use, every frame empty. */
  predicate Empty(m: Memory)
  {
    && (forall p :: 0 <= p < |m.pages| ==>
          !m.pages[p].valid && m.pages[p].lastAccessed == 0 && m.pages[p].futureAccess == -1)
    && (forall f :: 0 <= f < |m.frames| ==> m.frames[f] == EmptyFrame)
  }

  /** Occupied frames form a prefix of the frame table (first-fit filling). */
  predicate FilledInOrder(frames: seq<Frame>)
  {
    forall f, g :: 0 <= f < g < |frames| && frames[g].valid ==> frames[f].valid
  }

  /** Every frame is occupied. */
  predicate Full(frames: seq<Frame>)
  {
    forall f :: 0 <= f < |frames| ==> frames[f].valid
  }

  /** The pages currently resident. */
  function Resident(m: Memory): set<int>
  {
    set p | 0 <= p < |m.pages| && m.pages[p].valid
  }

  /** The frames currently occupied. */
  function Occupied(m: Memory): set<int>
  {
    set f | 0 <= f < |m.frames| && m.frames[f].valid
  }

  // ---------------------------------------------------------------------
  // Free-frame search
  // ---------------------------------------------------------------------

  /** The lowest free frame at or after `i`, or -1. */
  function FirstFreeFrom(frames: seq<Frame>, i: nat): (r: int)
    requires i <= |frames|
    ensures r == -1 || i <= r < |frames|
    ensures r == -1 <==> forall k :: i <= k < |frames| ==> frames[k].valid
    ensures r != -1 ==> !frames[r].valid && forall k :: i <= k < r ==> frames[k].valid
    decreases |frames| - i
  {
    if i == |frames| then -1
    else if !frames[i].valid then i
    else FirstFreeFrom(frames, i + 1)
  }

  /** First fit: the lowest unoccupied frame index, or -1 when every frame
    * is occupied. */
  function FirstFree(frames: seq<Frame>): (r: int)
    ensures -1 <= r < |frames|
    ensures r == -1 <==> Full(frames)
    ensures r != -1 ==> !frames[r].valid && forall k :: 0 <= k < r ==> frames[k].valid
  {
    FirstFreeFrom(frames, 0)
  }

  // ---------------------------------------------------------------------
  // Victim selection: first minimum, first maximum
  // ---------------------------------------------------------------------

  /** `r` is the index of the minimum of `keys`, the lowest one on ties. */
  predicate IsFirstMin(keys: seq<int>, r: int)
  {
    && 0 <= r < |keys|
    && (forall k :: 0 <= k < |keys| ==> keys[r] <= keys[k])
    && (forall k :: 0 <= k < r ==> keys[r] < keys[k])
  }

  /** `r` is the index of the maximum of `keys`, the lowest one on ties. */
  predicate IsFirstMax(keys: seq<int>, r: int)
  {
    && 0 <= r < |keys|
    && (forall k :: 0 <= k < |keys| ==> keys[k] <= keys[r])
    && (forall k :: 0 <= k < r ==> keys[k] < keys[r])
  }

  /** A left-to-right scan that replaces its candidate only on a strictly smaller key. */
  function FirstMin(keys: seq<int>): (r: nat)
    requires |keys| > 0
    ensures IsFirstMin(keys, r)
  {
    if |keys| == 1 then 0
    else
      var m := FirstMin(keys[..|keys| - 1]);
      if keys[|keys| - 1] < keys[m] then |keys| - 1 else m
  }

  /** A left-to-right scan that replaces its candidate only on a strictly larger key. */
  function FirstMax(keys: seq<int>): (r: nat)
    requires |keys| > 0
    ensures IsFirstMax(keys, r)
  {
    if |keys| == 1 then 0
    else
      var m := FirstMax(keys[..|keys| - 1]);
      if keys[|keys| - 1] > keys[m] then |keys| - 1 else m
  }

  lemma FirstMinUnique(keys: seq<int>, r1: int, r2: int)
    requires IsFirstMin(keys, r1) && IsFirstMin(keys, r2)
    ensures r1 == r2
  {
    assert keys[r1] == keys[r2];
  }

  lemma FirstMaxUnique(keys: seq<int>, r1: int, r2: int)
    requires IsFirstMax(keys, r1) && IsFirstMax(keys, r2)
    ensures r1 == r2
  {
    assert keys[r1] == keys[r2];
  }

  /** One step of the minimum scan: a strictly smaller key takes over. */
  lemma FirstMinExtend(keys: seq<int>, i: nat, r: int)
    requires 0 < i < |keys| && IsFirstMin(keys[..i], r)
    ensures IsFirstMin(keys[..i + 1], if keys[i] < keys[r] then i else r)
  {
  }

  /** One step of the maximum scan: a strictly larger key takes over. */
  lemma FirstMaxExtend(keys: seq<int>, i: nat, r: int)
    requires 0 < i < |keys| && IsFirstMax(keys[..i], r)
    ensures IsFirstMax(keys[..i + 1], if keys[i] > keys[r] then i else r)
  {
  }

  // ---------------------------------------------------------------------
  // Lookahead in the reference string
  // ---------------------------------------------------------------------

  /** The first index `j >= from` with `refs[j] == page`, or -1. */
  function NextUseFrom(refs: seq<int>, page: int, from: nat): (r: int)
    ensures r == -1 || (from <= r < |refs| && refs[r] == page)
    ensures r == -1 ==> forall k :: from <= k < |refs| ==> refs[k] != page
    ensures r != -1 ==> forall k :: from <= k < r ==> refs[k] != page
    decreases |refs| - from
  {
    if from >= |refs| then -1
    else if refs[from] == page then from
    else NextUseFrom(refs, page, from + 1)
  }

  /** The next reference to `page` strictly after step `i`, or -1 if there is none. */
  function NextUse(refs: seq<int>, page: int, i: nat): (r: int)
    ensures r == -1 || (i < r < |refs| && refs[r] == page)
    ensures r == -1 <==> forall k :: i < k < |refs| ==> refs[k] != page
    ensures r != -1 ==> forall k :: i < k < r ==> refs[k] != page
  {
    NextUseFrom(refs, page, i + 1)
  }

  /** OPT's distance: the next use after step `i`, where "never again"
    * counts as the length of the reference string. */
  function OptDistance(refs: seq<int>, page: int, i: nat): (d: int)
    ensures i < d <= |refs| || (d == |refs| && |refs| <= i)
    ensures d < |refs| <==> NextUse(refs, page, i) != -1
    ensures d < |refs| ==> refs[d] == page && forall k :: i < k < d ==> refs[k] != page
    ensures d == |refs| ==> forall k :: i < k < |refs| ==> refs[k] != page
  {
    var n := NextUse(refs, page, i);
    if n == -1 then |refs| else n
  }

  // ---------------------------------------------------------------------
  // Installing a page
  // ---------------------------------------------------------------------

  /** Install `pageNum` into the free frame `f`. */
  function Place(m: Memory, f: nat, pageNum: nat): (r: Memory)
    requires f < |m.frames| && pageNum < |m.pages|
    ensures |r.frames| == |m.frames| && |r.pages| == |m.pages| && r.firstIdx == m.firstIdx
    ensures r.frames[f] == Frame(pageNum, true) && MapsTo(r, pageNum, f)
  {
    m.(frames := m.frames[f := Frame(pageNum, true)],
       pages := m.pages[pageNum := m.pages[pageNum].(valid := true, frameNumber := f)])
  }

  /** Evict the page held by frame `victim` and install `pageNum` in its place. */
  function Evict(m: Memory, victim: nat, pageNum: nat): (r: Memory)
    requires victim < |m.frames| && pageNum < |m.pages|
    requires 0 <= m.frames[victim].pageNumber < |m.pages|
    ensures |r.frames| == |m.frames| && |r.pages| == |m.pages| && r.firstIdx == m.firstIdx
    ensures r.frames[victim] == Frame(pageNum, true) && MapsTo(r, pageNum, victim)
    ensures m.frames[victim].pageNumber != pageNum ==> !r.pages[m.frames[victim].pageNumber].valid
  {
    var evicted := m.frames[victim].pageNumber;
    var pages' := m.pages[evicted := m.pages[evicted].(valid := false)];
    m.(frames := m.frames[victim := Frame(pageNum, true)],
       pages := pages'[pageNum := pages'[pageNum].(valid := true, frameNumber := victim)])
  }

  /** The keys LRU compares: the last access step of each frame's page. */
  function LruKeys(m: Memory): (keys: seq<int>)
    requires forall f :: 0 <= f < |m.frames| ==> 0 <= m.frames[f].pageNumber < |m.pages|
    ensures |keys| == |m.frames|
    ensures forall f :: 0 <= f < |m.frames| ==> keys[f] == m.pages[m.frames[f].pageNumber].lastAccessed
  {
    seq(|m.frames|, f requires 0 <= f < |m.frames| => m.pages[m.frames[f].pageNumber].lastAccessed)
  }

  /** The keys OPT compares: each frame's page's distance after step `i`. */
  function OptKeys(m: Memory, refs: seq<int>, i: nat): (keys: seq<int>)
    ensures |keys| == |m.frames|
    ensures forall f :: 0 <= f < |m.frames| ==> keys[f] == OptDistance(refs, m.frames[f].pageNumber, i)
  {
    seq(|m.frames|, f requires 0 <= f < |m.frames| => OptDistance(refs, m.frames[f].pageNumber, i))
  }

  /** FIFO: the frame under the cursor is the victim; the cursor then advances. */
  function FifoReplace(m: Memory, pageNum: nat): (r: Memory)
    requires Consistent(m) && pageNum < |m.pages|
    ensures |r.frames| == |m.frames| && |r.pages| == |m.pages|
    ensures MapsTo(r, pageNum, r.pages[pageNum].frameNumber)
    ensures 0 <= r.pages[pageNum].frameNumber < |r.frames| && r.frames[r.pages[pageNum].frameNumber] == Frame(pageNum, true)
  {
    var free := FirstFree(m.frames);
    if free != -1 then Place(m, free, pageNum)
    else Evict(m, m.firstIdx, pageNum).(firstIdx := (m.firstIdx + 1) % |m.frames|)
  }

  /** LRU: the victim is the first frame whose page was accessed least recently. */
  function LruReplace(m: Memory, pageNum: nat): (r: Memory)
    requires Consistent(m) && pageNum < |m.pages|
    ensures |r.frames| == |m.frames| && |r.pages| == |m.pages|
    ensures MapsTo(r, pageNum, r.pages[pageNum].frameNumber)
    ensures 0 <= r.pages[pageNum].frameNumber < |r.frames| && r.frames[r.pages[pageNum].frameNumber] == Frame(pageNum, true)
    ensures r.firstIdx == m.firstIdx
  {
    var free := FirstFree(m.frames);
    if free != -1 then Place(m, free, pageNum)
    else Evict(m, FirstMin(LruKeys(m)), pageNum)
  }

  /** OPT: the victim is the first frame whose page is next used farthest after step `i`. */
  function OptReplace(m: Memory, pageNum: nat, refs: seq<int>, i: nat): (r: Memory)
    requires Consistent(m) && pageNum < |m.pages|
    ensures |r.frames| == |m.frames| && |r.pages| == |m.pages|
    ensures MapsTo(r, pageNum, r.pages[pageNum].frameNumber)
    ensures 0 <= r.pages[pageNum].frameNumber < |r.frames| && r.frames[r.pages[pageNum].frameNumber] == Frame(pageNum, true)
    ensures r.firstIdx == m.firstIdx
  {
    var free := FirstFree(m.frames);
    if free != -1 then Place(m, free, pageNum)
    else Evict(m, FirstMax(OptKeys(m, refs, i)), pageNum)
  }

  /** `addPage`: dispatch on the policy. */
  function Replace(policy: Policy, m: Memory, pageNum: nat, refs: seq<int>, i: nat): (r: Memory)
    requires Consistent(m) && pageNum < |m.pages|
    ensures |r.frames| == |m.frames| && |r.pages| == |m.pages|
    ensures MapsTo(r, pageNum, r.pages[pageNum].frameNumber)
    ensures 0 <= r.pages[pageNum].frameNumber < |r.frames| && r.frames[r.pages[pageNum].frameNumber] == Frame(pageNum, true)
    ensures policy != FIFO ==> r.firstIdx == m.firstIdx
  {
    match policy
    case FIFO => FifoReplace(m, pageNum)
    case LRU => LruReplace(m, pageNum)
    case OPT => OptReplace(m, pageNum, refs, i)
  }

  /** The victim frame a policy evicts from a full frame table. */
  function Victim(policy: Policy, m: Memory, refs: seq<int>, i: nat): (v: nat)
    requires Consistent(m) && Full(m.frames)
    ensures v < |m.frames|
    ensures policy == FIFO ==> v == m.firstIdx
    ensures policy == LRU ==> IsFirstMin(LruKeys(m), v)
    ensures policy == OPT ==> IsFirstMax(OptKeys(m, refs, i), v)
  {
    match policy
    case FIFO => m.firstIdx
    case LRU => FirstMin(LruKeys(m))
    case OPT => FirstMax(OptKeys(m, refs, i))
  }

  /** The bookkeeping before a reference at step `i` is classified: stamp the
    * referenced page's last access and next use. */
  function Stamp(m: Memory, refs: seq<int>, i: nat): (s: Memory)
    requires i < |refs| && 0 <= refs[i] < |m.pages|
    ensures s.frames == m.frames && |s.pages| == |m.pages| && s.firstIdx == m.firstIdx
    ensures s.pages[refs[i]] == m.pages[refs[i]].(lastAccessed := i, futureAccess := NextUse(refs, refs[i], i))
  {
    var p := refs[i];
    m.(pages := m.pages[p := m.pages[p].(lastAccessed := i, futureAccess := NextUse(refs, p, i))])
  }

  // ---------------------------------------------------------------------
  // Properties of the policies
  // ---------------------------------------------------------------------

  /** With a free frame, every policy installs the page in the lowest free
    * frame, maps it there, and changes nothing else. */
  lemma FreeFrameInstall(policy: Policy, m: Memory, pageNum: nat, refs: seq<int>, i: nat)
    requires Consistent(m) && pageNum < |m.pages|
    requires FirstFree(m.frames) != -1
    ensures var f := FirstFree(m.frames); var r := Replace(policy, m, pageNum, refs, i);
      && |r.frames| == |m.frames| && |r.pages| == |m.pages|
      && r.frames[f] == Frame(pageNum, true)
      && r.pages[pageNum] == m.pages[pageNum].(valid := true, frameNumber := f)
      && (forall g :: 0 <= g < |m.frames| && g != f ==> r.frames[g] == m.frames[g])
      && (forall p :: 0 <= p < |m.pages| && p != pageNum ==> r.pages[p] == m.pages[p])
      && r.firstIdx == m.firstIdx
  {
  }

  /** With every frame occupied, a policy evicts its victim's page and maps the
    * faulting page to the victim frame; no other frame or entry changes. */
  lemma EvictionSwapsOneMapping(policy: Policy, m: Memory, pageNum: nat, refs: seq<int>, i: nat)
    requires Consistent(m) && pageNum < |m.pages| && !m.pages[pageNum].valid
    requires FirstFree(m.frames) == -1
    ensures var v := Victim(policy, m, refs, i); var q := m.frames[v].pageNumber;
      var r := Replace(policy, m, pageNum, refs, i);
      && |r.frames| == |m.frames| && |r.pages| == |m.pages|
      && 0 <= q < |m.pages| && q != pageNum && m.pages[q].valid
      && r.pages[q] == m.pages[q].(valid := false)
      && r.pages[pageNum] == m.pages[pageNum].(valid := true, frameNumber := v)
      && r.frames[v] == Frame(pageNum, true)
      && (forall g :: 0 <= g < |m.frames| && g != v ==> r.frames[g] == m.frames[g])
      && (forall p :: 0 <= p < |m.pages| && p != pageNum && p != q ==> r.pages[p] == m.pages[p])
      && Full(r.frames)
      && (policy != FIFO ==> r.firstIdx == m.firstIdx)
  {
    var v := Victim(policy, m, refs, i);
    assert m.frames[v].valid;
  }

  /** FIFO evicts the frame under the cursor and advances the cursor by one,
    * wrapping at the number of frames. */
  lemma FifoEviction(m: Memory, pageNum: nat)
    requires Consistent(m) && pageNum < |m.pages|
    requires FirstFree(m.frames) == -1
    ensures var r := FifoReplace(m, pageNum);
      && r.frames[m.firstIdx] == Frame(pageNum, true)
      && r.firstIdx == (if m.firstIdx + 1 == |m.frames| then 0 else m.firstIdx + 1)
      && 0 <= r.firstIdx < |r.frames|
  {
    assert m.frames[m.firstIdx].valid;
  }

  /** LRU's victim holds the page with the smallest last-access step; ties go
    * to the lowest frame. */
  lemma LruEviction(m: Memory, pageNum: nat)
    requires Consistent(m) && pageNum < |m.pages|
    requires FirstFree(m.frames) == -1
    ensures var v := Victim(LRU, m, [], 0);
      && LruReplace(m, pageNum).frames[v] == Frame(pageNum, true)
      && (forall g :: 0 <= g < |m.frames| ==>
            m.pages[m.frames[v].pageNumber].lastAccessed <= m.pages[m.frames[g].pageNumber].lastAccessed)
      && (forall g :: 0 <= g < v ==>
            m.pages[m.frames[v].pageNumber].lastAccessed < m.pages[m.frames[g].pageNumber].lastAccessed)
  {
    var keys := LruKeys(m);
    var v := FirstMin(keys);
    forall g | 0 <= g < |m.frames|
      ensures m.pages[m.frames[v].pageNumber].lastAccessed <= m.pages[m.frames[g].pageNumber].lastAccessed
      ensures g < v ==> m.pages[m.frames[v].pageNumber].lastAccessed < m.pages[m.frames[g].pageNumber].lastAccessed
    {
      assert keys[g] == m.pages[m.frames[g].pageNumber].lastAccessed;
    }
  }

  /** OPT's victim holds the page whose next use after step `i` is farthest
    * away (never again counting as the string's length); ties go to the
    * lowest frame. */
  lemma OptEviction(m: Memory, pageNum: nat, refs: seq<int>, i: nat)
    requires Consistent(m) && pageNum < |m.pages|
    requires FirstFree(m.frames) == -1
    ensures var v := Victim(OPT, m, refs, i);
      && OptReplace(m, pageNum, refs, i).frames[v] == Frame(pageNum, true)
      && (forall g :: 0 <= g < |m.frames| ==>
            OptDistance(refs, m.frames[g].pageNumber, i) <= OptDistance(refs, m.frames[v].pageNumber, i))
      && (forall g :: 0 <= g < v ==>
            OptDistance(refs, m.frames[g].pageNumber, i) < OptDistance(refs, m.frames[v].pageNumber, i))
  {
    var keys := OptKeys(m, refs, i);
    var v := FirstMax(keys);
    forall g | 0 <= g < |m.frames|
      ensures OptDistance(refs, m.frames[g].pageNumber, i) <= OptDistance(refs, m.frames[v].pageNumber, i)
      ensures g < v ==> OptDistance(refs, m.frames[g].pageNumber, i) < OptDistance(refs, m.frames[v].pageNumber, i)
    {
      assert keys[g] == OptDistance(refs, m.frames[g].pageNumber, i);
    }
  }

  /** Installing a faulting page keeps the two tables in agreement, makes the
    * page resident, and adds it to the resident set while removing at most
    * the one evicted page. */
  lemma ReplacePreservesConsistency(policy: Policy, m: Memory, pageNum: nat, refs: seq<int>, i: nat)
    requires Consistent(m) && pageNum < |m.pages| && !m.pages[pageNum].valid
    ensures var r := Replace(policy, m, pageNum, refs, i);
      && Consistent(r)
      && |r.frames| == |m.frames| && |r.pages| == |m.pages|
      && r.pages[pageNum].valid
      && Resident(r) <= Resident(m) + {pageNum}
  {
    var r := Replace(policy, m, pageNum, refs, i);
    var free := FirstFree(m.frames);
    if free != -1 {
      FreeFrameInstall(policy, m, pageNum, refs, i);
      forall f | 0 <= f < |r.frames| && r.frames[f].valid
        ensures MapsTo(r, r.frames[f].pageNumber, f)
      {
        if f != free {
          assert MapsTo(m, m.frames[f].pageNumber, f);
        }
      }
      forall p | 0 <= p < |r.pages| && r.pages[p].valid
        ensures 0 <= r.pages[p].frameNumber < |r.frames| && r.frames[r.pages[p].frameNumber] == Frame(p, true)
      {
        if p != pageNum {
          assert m.pages[p].valid;
        }
      }
    } else {
      EvictionSwapsOneMapping(policy, m, pageNum, refs, i);
      var v := Victim(policy, m, refs, i);
      var q := m.frames[v].pageNumber;
      forall f | 0 <= f < |r.frames| && r.frames[f].valid
        ensures MapsTo(r, r.frames[f].pageNumber, f)
      {
        if f != v {
          assert MapsTo(m, m.frames[f].pageNumber, f);
          assert m.frames[f].pageNumber != q;
        }
      }
      forall p | 0 <= p < |r.pages| && r.pages[p].valid
        ensures 0 <= r.pages[p].frameNumber < |r.frames| && r.frames[r.pages[p].frameNumber] == Frame(p, true)
      {
        if p != pageNum {
          assert p != q && m.pages[p].valid;
        }
      }
    }
  }

  /** Frames fill strictly in index order: the occupied frames always form a
    * prefix of the frame table. */
  lemma ReplaceFillsInOrder(policy: Policy, m: Memory, pageNum: nat, refs: seq<int>, i: nat)
    requires Consistent(m) && pageNum < |m.pages| && !m.pages[pageNum].valid
    requires FilledInOrder(m.frames)
    ensures FilledInOrder(Replace(policy, m, pageNum, refs, i).frames)
  {
    if FirstFree(m.frames) != -1 {
      FreeFrameInstall(policy, m, pageNum, refs, i);
    } else {
      EvictionSwapsOneMapping(policy, m, pageNum, refs, i);
    }
  }

  /** Stamping changes only the referenced page's two timestamps. */
  lemma StampPreservesConsistency(m: Memory, refs: seq<int>, i: nat)
    requires Consistent(m) && i < |refs| && 0 <= refs[i] < |m.pages|
    ensures var s := Stamp(m, refs, i);
      && Consistent(s) && Resident(s) == Resident(m)
      && s.frames == m.frames && |s.pages| == |m.pages| && s.firstIdx == m.firstIdx
      && s.pages[refs[i]].lastAccessed == i
      && s.pages[refs[i]].futureAccess == NextUse(refs, refs[i], i)
      && s.pages[refs[i]].frameNumber == m.pages[refs[i]].frameNumber
      && (forall p :: 0 <= p < |m.pages| && p != refs[i] ==> s.pages[p] == m.pages[p])
  {
    var s := Stamp(m, refs, i);
    assert forall p :: 0 <= p < |m.pages| ==>
      (s.pages[p].valid == m.pages[p].valid && s.pages[p].frameNumber == m.pages[p].frameNumber);
    assert forall f :: 0 <= f < |m.frames| && m.frames[f].valid ==> MapsTo(m, m.frames[f].pageNumber, f);
  }

  /** The pages held by the frames in `S`. */
  function PagesIn(m: Memory, S: set<int>): set<int>
    requires forall f :: f in S ==> 0 <= f < |m.frames|
  {
    set f | f in S :: m.frames[f].pageNumber
  }

  /** Distinct occupied frames hold distinct pages. */
  lemma {:induction false} PagesInSize(m: Memory, S: set<int>)
    requires Consistent(m) && S <= Occupied(m)
    ensures |PagesIn(m, S)| == |S|
  {
    if S != {} {
      var x :| x in S;
      PagesInSize(m, S - {x});
      assert PagesIn(m, S) == PagesIn(m, S - {x}) + {m.frames[x].pageNumber};
      assert MapsTo(m, m.frames[x].pageNumber, x);
    }
  }

  /** At most `n` of the first `n` frames are occupied. */
  lemma {:induction false} OccupiedBelow(m: Memory, n: nat)
    requires n <= |m.frames|
    ensures |set f | 0 <= f < n && m.frames[f].valid| <= n
  {
    if n > 0 {
      OccupiedBelow(m, n - 1);
      var below := set f | 0 <= f < n - 1 && m.frames[f].valid;
      if m.frames[n - 1].valid {
        assert (set f | 0 <= f < n && m.frames[f].valid) == below + {n - 1};
      } else {
        assert (set f | 0 <= f < n && m.frames[f].valid) == below;
      }
    }
  }

  /** There are exactly as many resident pages as occupied frames, and
    * never more than there are frames. */
  lemma ResidentMatchesOccupied(m: Memory)
    requires Consistent(m)
    ensures |Resident(m)| == |Occupied(m)| <= |m.frames|
  {
    PagesInSize(m, Occupied(m));
    assert Resident(m) == PagesIn(m, Occupied(m)) by {
      forall p | p in Resident(m) ensures p in PagesIn(m, Occupied(m)) {
        assert m.frames[m.pages[p].frameNumber].pageNumber == p;
      }
      forall p | p in PagesIn(m, Occupied(m)) ensures p in Resident(m) {
        var f :| f in Occupied(m) && m.frames[f].pageNumber == p;
        assert MapsTo(m, p, f);
      }
    }
    OccupiedBelow(m, |m.frames|);
  }

  /** The empty state satisfies the invariant as soon as the cursor is a frame index. */
  lemma EmptyIsConsistent(m: Memory)
    requires Empty(m) && 0 <= m.firstIdx < |m.frames|
    ensures Consistent(m) && FilledInOrder(m.frames) && Resident(m) == {}
  {
  }
}
