/**
 * The reference loop of the simulator as a specification: each reference is
 * stamped, classified as a hit or a fault, and a fault installs the page
 * with the active policy. `Run` gives the state and the two counters after
 * the first `n` references.
 */
module Simulation {
  import opened Paging

  /** The reference string is as long as the page table (both are the
    * simulator's page count) and every reference names a page of the table. */
  predicate WellFormed(m: Memory, refs: seq<int>)
  {
    |refs| == |m.pages| && forall k :: 0 <= k < |refs| ==> 0 <= refs[k] < |m.pages|
  }

  /** The state of a run together with its fault and hit counters. */
  datatype Tally = Tally(mem: Memory, faults: nat, hits: nat)

  /** Whether reference step `i` is a fault: the page is not resident when it
    * is referenced (stamping does not change residency). */
  predicate IsFault(m: Memory, refs: seq<int>, i: nat)
    requires i < |refs| && 0 <= refs[i] < |m.pages|
  {
    !m.pages[refs[i]].valid
  }

  // Run, Step, Install and Stamped form one recursion, so the verifier
  // unfolds a run one reference at a time and only where a proof asks.

  /** The first `n` references of `refs`, starting from `m0`. */
  function Run(policy: Policy, m0: Memory, refs: seq<int>, n: nat): (t: Tally)
    requires Consistent(m0) && WellFormed(m0, refs) && n <= |refs|
    ensures Consistent(t.mem) && WellFormed(t.mem, refs) && |t.mem.frames| == |m0.frames|
    ensures t.faults + t.hits == n
    decreases n, 0
  {
    if n == 0 then Tally(m0, 0, 0)
    else Step(policy, m0, refs, n - 1)
  }

  /** Reference step `i`, after the first `i` references: count a fault if
    * the page is not resident and install it, or count a hit and only stamp
    * its timestamps. */
  function Step(policy: Policy, m0: Memory, refs: seq<int>, i: nat): (t: Tally)
    requires Consistent(m0) && WellFormed(m0, refs) && i < |refs|
    ensures Consistent(t.mem) && WellFormed(t.mem, refs) && |t.mem.frames| == |m0.frames|
    ensures t.faults + t.hits == i + 1
    decreases i, 3
  {
    var prev := Run(policy, m0, refs, i);
    if IsFault(prev.mem, refs, i) then
      Tally(Install(policy, m0, refs, i), prev.faults + 1, prev.hits)
    else
      Tally(Stamped(policy, m0, refs, i), prev.faults, prev.hits + 1)
  }

  /** The memory after the fault at step `i`: `policy` installs the page
    * into the stamped state. */
  function Install(policy: Policy, m0: Memory, refs: seq<int>, i: nat): (m: Memory)
    requires Consistent(m0) && WellFormed(m0, refs) && i < |refs|
    requires IsFault(Run(policy, m0, refs, i).mem, refs, i)
    ensures Consistent(m) && WellFormed(m, refs) && |m.frames| == |m0.frames|
    decreases i, 2
  {
    var prev := Run(policy, m0, refs, i);
    var s := Stamped(policy, m0, refs, i);
    StampPreservesConsistency(prev.mem, refs, i);
    ReplacePreservesConsistency(policy, s, refs[i], refs, i);
    Replace(policy, s, refs[i], refs, i)
  }

  /** The memory once reference `i` has stamped its page's timestamps. */
  function Stamped(policy: Policy, m0: Memory, refs: seq<int>, i: nat): (m: Memory)
    requires Consistent(m0) && WellFormed(m0, refs) && i < |refs|
    ensures Consistent(m) && WellFormed(m, refs) && |m.frames| == |m0.frames|
    decreases i, 1
  {
    var prev := Run(policy, m0, refs, i);
    StampPreservesConsistency(prev.mem, refs, i);
    Stamp(prev.mem, refs, i)
  }

  /** The state reached by reference step `i`, spelled out: the stamped state,
    * with the page installed by `policy` when it was not resident. */
  lemma StepUnfolds(policy: Policy, m0: Memory, refs: seq<int>, i: nat)
    requires Consistent(m0) && WellFormed(m0, refs) && i < |refs|
    ensures var prev := Run(policy, m0, refs, i); var s := Stamp(prev.mem, refs, i);
      Run(policy, m0, refs, i + 1) ==
        if !s.pages[refs[i]].valid then Tally(Replace(policy, s, refs[i], refs, i), prev.faults + 1, prev.hits)
        else Tally(s, prev.faults, prev.hits + 1)
  {
    var prev := Run(policy, m0, refs, i);
    var s := Stamp(prev.mem, refs, i);
    StampPreservesConsistency(prev.mem, refs, i);
    assert Stamped(policy, m0, refs, i) == s;
    if IsFault(prev.mem, refs, i) {
      assert Install(policy, m0, refs, i) == Replace(policy, s, refs[i], refs, i);
    }
    assert Run(policy, m0, refs, i + 1) == Step(policy, m0, refs, i);
  }

  /** One reference step counts a fault exactly when the page was not
    * resident, and a hit otherwise; the other counter stays. */
  lemma StepCounts(policy: Policy, m0: Memory, refs: seq<int>, n: nat)
    requires Consistent(m0) && WellFormed(m0, refs) && n < |refs|
    ensures var before := Run(policy, m0, refs, n); var after := Run(policy, m0, refs, n + 1);
      if IsFault(before.mem, refs, n)
      then after.faults == before.faults + 1 && after.hits == before.hits
      else after.faults == before.faults && after.hits == before.hits + 1
  {
    assert Run(policy, m0, refs, n + 1) == Step(policy, m0, refs, n);
  }

  /** After one reference step the page is resident, and no page other than
    * it has become resident. */
  lemma StepResidency(policy: Policy, m0: Memory, refs: seq<int>, n: nat)
    requires Consistent(m0) && WellFormed(m0, refs) && n < |refs|
    ensures Run(policy, m0, refs, n + 1).mem.pages[refs[n]].valid
    ensures Resident(Run(policy, m0, refs, n + 1).mem) <= Resident(Run(policy, m0, refs, n).mem) + {refs[n]}
  {
    var prev := Run(policy, m0, refs, n);
    var s := Stamp(prev.mem, refs, n);
    StepUnfolds(policy, m0, refs, n);
    StampPreservesConsistency(prev.mem, refs, n);
    if !s.pages[refs[n]].valid {
      ReplacePreservesConsistency(policy, s, refs[n], refs, n);
    }
  }

  /** The counters never decrease as references are processed. */
  lemma {:induction false} CountersGrow(policy: Policy, m0: Memory, refs: seq<int>, n: nat, n': nat)
    requires Consistent(m0) && WellFormed(m0, refs) && n <= n' <= |refs|
    ensures Run(policy, m0, refs, n).faults <= Run(policy, m0, refs, n').faults
    ensures Run(policy, m0, refs, n).hits <= Run(policy, m0, refs, n').hits
    decreases n' - n
  {
    if n < n' {
      CountersGrow(policy, m0, refs, n, n' - 1);
      StepCounts(policy, m0, refs, n' - 1);
    }
  }

  /** Referencing the page just referenced is always a hit. */
  lemma {:induction false} RepeatIsHit(policy: Policy, m0: Memory, refs: seq<int>, n: nat)
    requires Consistent(m0) && WellFormed(m0, refs) && 0 < n < |refs|
    requires refs[n] == refs[n - 1]
    ensures !IsFault(Run(policy, m0, refs, n).mem, refs, n)
    ensures Run(policy, m0, refs, n + 1).hits == Run(policy, m0, refs, n).hits + 1
    ensures Run(policy, m0, refs, n + 1).faults == Run(policy, m0, refs, n).faults
  {
    StepResidency(policy, m0, refs, n - 1);
    StepCounts(policy, m0, refs, n);
  }

  /** Only pages that were resident at the start or have been referenced can be resident. */
  lemma {:induction false} ResidentWereReferenced(policy: Policy, m0: Memory, refs: seq<int>, n: nat)
    requires Consistent(m0) && WellFormed(m0, refs) && n <= |refs|
    ensures Resident(Run(policy, m0, refs, n).mem) <= Resident(m0) + set k | 0 <= k < n :: refs[k]
  {
    if n > 0 {
      ResidentWereReferenced(policy, m0, refs, n - 1);
      StepResidency(policy, m0, refs, n - 1);
      var before := set k | 0 <= k < n - 1 :: refs[k];
      var after := set k | 0 <= k < n :: refs[k];
      assert after == before + {refs[n - 1]};
    }
  }

  /** Starting from no resident page, the first reference to a page is always a fault. */
  lemma ColdMiss(policy: Policy, m0: Memory, refs: seq<int>, n: nat)
    requires Consistent(m0) && WellFormed(m0, refs) && n < |refs|
    requires Resident(m0) == {}
    requires forall k :: 0 <= k < n ==> refs[k] != refs[n]
    ensures IsFault(Run(policy, m0, refs, n).mem, refs, n)
    ensures Run(policy, m0, refs, n + 1).faults == Run(policy, m0, refs, n).faults + 1
  {
    ResidentWereReferenced(policy, m0, refs, n);
    StepCounts(policy, m0, refs, n);
    assert refs[n] !in Resident(m0) + set k | 0 <= k < n :: refs[k];
  }

  /** Starting from no resident page, a string of distinct pages faults on every reference. */
  lemma {:induction false} DistinctReferencesAllFault(policy: Policy, m0: Memory, refs: seq<int>, n: nat)
    requires Consistent(m0) && WellFormed(m0, refs) && n <= |refs|
    requires Resident(m0) == {}
    requires forall j, k :: 0 <= j < k < |refs| ==> refs[j] != refs[k]
    ensures Run(policy, m0, refs, n).faults == n && Run(policy, m0, refs, n).hits == 0
  {
    if n > 0 {
      DistinctReferencesAllFault(policy, m0, refs, n - 1);
      assert forall k :: 0 <= k < n - 1 ==> refs[k] != refs[n - 1];
      ColdMiss(policy, m0, refs, n - 1);
    }
  }

  /** The occupied frames stay a prefix of the frame table for the whole run. */
  lemma {:induction false} RunFillsInOrder(policy: Policy, m0: Memory, refs: seq<int>, n: nat)
    requires Consistent(m0) && WellFormed(m0, refs) && n <= |refs|
    requires FilledInOrder(m0.frames)
    ensures FilledInOrder(Run(policy, m0, refs, n).mem.frames)
  {
    if n > 0 {
      var i := n - 1;
      RunFillsInOrder(policy, m0, refs, i);
      var prev := Run(policy, m0, refs, i);
      var s := Stamped(policy, m0, refs, i);
      StampPreservesConsistency(prev.mem, refs, i);
      assert s == Stamp(prev.mem, refs, i);
      if IsFault(prev.mem, refs, i) {
        ReplaceFillsInOrder(policy, s, refs[i], refs, i);
        assert Install(policy, m0, refs, i) == Replace(policy, s, refs[i], refs, i);
      }
      assert Run(policy, m0, refs, n) == Step(policy, m0, refs, i);
    }
  }

  /** Arithmetic helpers for the FIFO cursor. */
  lemma {:induction false} MulAtLeast(k: nat, N: nat)
    requires k >= 1
    ensures k * N >= N
  {
    if k > 1 {
      MulAtLeast(k - 1, N);
      assert k * N == (k - 1) * N + N;
    }
  }

  lemma ModUnique(x: int, N: int, q: int, r: int)
    requires N > 0 && 0 <= r < N && x == q * N + r
    ensures x % N == r
  {
    var q', r' := x / N, x % N;
    assert x == q' * N + r';
    if q < q' {
      assert (q' - q) * N == r - r';
      MulAtLeast(q' - q, N);
    } else if q' < q {
      assert (q - q') * N == r' - r;
      MulAtLeast(q - q', N);
    }
  }

  lemma ModSucc(a: nat, N: nat)
    requires N > 0
    ensures (a + 1) % N == if a % N + 1 == N then 0 else a % N + 1
  {
    var q := a / N;
    assert a == q * N + a % N;
    if a % N + 1 == N {
      ModUnique(a + 1, N, q + 1, 0);
    } else {
      ModUnique(a + 1, N, q, a % N + 1);
    }
  }

  /** One FIFO fault after `i` faults from an empty memory: the page goes
    * into frame `i mod N` and the cursor follows. */
  lemma FifoFaultAt(s: Memory, page: nat, i: nat)
    requires Consistent(s) && page < |s.pages| && !s.pages[page].valid
    requires forall f :: 0 <= f < |s.frames| ==> (s.frames[f].valid <==> f < i)
    requires s.firstIdx == (if i < |s.frames| then 0 else i % |s.frames|)
    ensures var r := FifoReplace(s, page); var N := |s.frames|;
      && |r.frames| == N
      && (forall f :: 0 <= f < N ==> (r.frames[f].valid <==> f < i + 1))
      && r.firstIdx == (if i + 1 < N then 0 else (i + 1) % N)
      && r.frames[i % N] == Frame(page, true)
  {
    var N := |s.frames|;
    if i < N {
      assert !s.frames[i].valid;
      assert FirstFree(s.frames) == i;
      FreeFrameInstall(FIFO, s, page, [], 0);
      ModUnique(i, N, 0, i);
      if i + 1 == N {
        ModUnique(i + 1, N, 1, 0);
      }
    } else {
      assert FirstFree(s.frames) == -1;
      EvictionSwapsOneMapping(FIFO, s, page, [], 0);
      FifoEviction(s, page);
      ModSucc(i, N);
    }
  }

  /** From an empty memory with the cursor at frame 0, FIFO on a string of
    * distinct pages installs reference `k` in frame `k mod N`: the frames
    * fill in index order, and once they are full they are evicted in that
    * same order. */
  lemma {:induction false} FifoRoundRobin(m0: Memory, refs: seq<int>, n: nat)
    requires Consistent(m0) && WellFormed(m0, refs) && n <= |refs|
    requires Resident(m0) == {} && m0.firstIdx == 0
    requires forall j, k :: 0 <= j < k < |refs| ==> refs[j] != refs[k]
    ensures var m := Run(FIFO, m0, refs, n).mem; var N := |m0.frames|;
      && (forall f :: 0 <= f < N ==> (m.frames[f].valid <==> f < n))
      && m.firstIdx == (if n < N then 0 else n % N)
      && (0 < n ==> m.frames[(n - 1) % N] == Frame(refs[n - 1], true))
  {
    if n == 0 {
      assert forall f :: 0 <= f < |m0.frames| && m0.frames[f].valid ==> m0.frames[f].pageNumber in Resident(m0);
    } else {
      var i := n - 1;
      FifoRoundRobin(m0, refs, i);
      var prev := Run(FIFO, m0, refs, i);
      assert forall k :: 0 <= k < i ==> refs[k] != refs[i];
      ColdMiss(FIFO, m0, refs, i);
      var s := Stamped(FIFO, m0, refs, i);
      StampPreservesConsistency(prev.mem, refs, i);
      assert s == Stamp(prev.mem, refs, i);
      assert Run(FIFO, m0, refs, n) == Step(FIFO, m0, refs, i);
      assert Install(FIFO, m0, refs, i) == FifoReplace(s, refs[i]);
      FifoFaultAt(s, refs[i], i);
    }
  }
}
