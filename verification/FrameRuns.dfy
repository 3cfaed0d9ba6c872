/** The physical allocator seen as a set of free frames: the meaning of each
    call, and conservation over every sequence of calls. */
module FrameRuns {
  import opened Machine

  predicate AllFree(free: set<int>, start: int, count: int) {
    forall p :: start <= p < start + count ==> p in free
  }

  /** The lowest start at or above `from` of a free run, or 0. */
  function FindFrom(free: set<int>, total: nat, count: int, from: nat): (r: nat)
    ensures r == 0 || (r + count <= total && r <= total)
    decreases total + 1 - from
  {
    if from + count > total || from > total then 0
    else if AllFree(free, from, count) then from
    else FindFrom(free, total, count, from + 1)
  }

  /** What an allocation of `count` frames returns: a frame number, 0 on failure. */
  function FindRun(free: set<int>, total: nat, count: nat): (r: nat) {
    if count == 0 then 0 else FindFrom(free, total, count, 0)
  }

  predicate IsLowestRun(free: set<int>, total: nat, count: nat, start: nat) {
    && start + count <= total
    && AllFree(free, start, count)
    && (forall s :: 0 <= s < start ==> !AllFree(free, s, count))
  }

  predicate NoRun(free: set<int>, total: nat, count: nat) {
    forall s :: 0 <= s && s + count <= total ==> !AllFree(free, s, count)
  }

  lemma {:induction false} FindFromMeaning(free: set<int>, total: nat, count: nat, from: nat)
    requires count > 0 && 0 !in free
    requires forall s :: 0 <= s < from ==> !AllFree(free, s, count)
    ensures var r := FindFrom(free, total, count, from);
            if r == 0 then NoRun(free, total, count) else IsLowestRun(free, total, count, r)
    decreases total + 1 - from
  {
    if from + count <= total {
      if AllFree(free, from, count) {
        assert from in free;
      } else {
        FindFromMeaning(free, total, count, from + 1);
      }
    }
  }

  /** With frame 0 in use, the result is the lowest run, and 0 means exactly
      that no run exists. */
  lemma FindRunMeaning(free: set<int>, total: nat, count: nat)
    requires count > 0 && 0 !in free
    ensures FindRun(free, total, count) != 0 ==> IsLowestRun(free, total, count, FindRun(free, total, count))
    ensures FindRun(free, total, count) == 0 <==> NoRun(free, total, count)
  {
    FindFromMeaning(free, total, count, 0);
    var r := FindRun(free, total, count);
    assert r != 0 ==> AllFree(free, r, count);
  }

  /** Any run found by other means that is lowest is the one FindRun names. */
  lemma FindRunUnique(free: set<int>, total: nat, count: nat, start: nat)
    requires count > 0 && 0 !in free
    requires IsLowestRun(free, total, count, start)
    ensures FindRun(free, total, count) == start != 0
  {
    FindRunMeaning(free, total, count);
    assert AllFree(free, start, count);
    assert start in free;
    var r := FindRun(free, total, count);
    assert r != 0 && AllFree(free, r, count);
  }

  /** What an allocation of one frame returns. */
  function Lowest(free: set<int>, total: nat): (f: nat)
    ensures f == 0 || f < total
  {
    FindRun(free, total, 1)
  }

  lemma LowestMeaning(free: set<int>, total: nat)
    requires 0 !in free && forall p :: p in free ==> 0 <= p < total
    ensures var r := Lowest(free, total);
            if r == 0 then free == {} else r in free && forall p :: p in free ==> r <= p
  {
    FindRunMeaning(free, total, 1);
    var r := FindRun(free, total, 1);
    assert r != 0 ==> AllFree(free, r, 1);
    forall p | p in free
      ensures r != 0 && r <= p
    {
      assert AllFree(free, p, 1);
    }
  }

  /** The lowest free frame below a limit, or 0. */
  function FindBelow(free: set<int>, bound: nat): (r: nat)
    ensures r != 0 ==> r in free && r < bound && forall p :: 0 <= p < r ==> p !in free
    ensures r == 0 && 0 !in free ==> forall p :: 0 <= p < bound ==> p !in free
  {
    if bound == 0 then 0
    else
      var r := FindBelow(free, bound - 1);
      if r != 0 || 0 in free then r
      else if bound - 1 in free then bound - 1 else 0
  }

  function FreeResult(free: set<int>, total: nat, start: int, count: int): (r: set<int>) {
    free + (Pages(start, Min(start + count, total)))
  }

  /** Freeing adds the frames of the run that are tracked, and no other. */
  lemma FreeResultMeaning(free: set<int>, total: nat, start: int, count: int, p: int)
    ensures p in FreeResult(free, total, start, count) <==> p in free || (start <= p < start + count && p < total)
  {
  }

  /** Allocating and then freeing the same run is the identity. */
  lemma AllocFreeRestores(free: set<int>, total: nat, count: nat)
    requires count > 0 && 0 !in free && FindRun(free, total, count) != 0
    ensures var r := FindRun(free, total, count);
            FreeResult(free - Pages(r, r + count), total, r, count) == free
  {
    FindRunMeaning(free, total, count);
    var r := FindRun(free, total, count);
    forall p | p in Pages(r, r + count)
      ensures p in free
    {
    }
  }

  // ---- Whole runs ----

  datatype Run = Run(start: int, count: int)

  datatype Call = Alloc(count: nat) | AllocBelow(limit: Word) | Free(which: nat)

  /** The free set together with the runs that callers still hold. */
  datatype State = State(free: set<int>, held: seq<Run>)

  function RunFrames(r: Run): (s: set<int>) {
    Pages(r.start, r.start + r.count)
  }

  function HeldFrames(held: seq<Run>): (s: set<int>) {
    if |held| == 0 then {} else HeldFrames(held[1..]) + RunFrames(held[0])
  }

  function HeldCount(held: seq<Run>): (n: int) {
    if |held| == 0 then 0 else HeldCount(held[1..]) + held[0].count
  }

  function Take(s: State, start: nat, count: nat): (r: State) {
    if start == 0 then s
    else State(s.free - Pages(start, start + count), [Run(start, count)] + s.held)
  }

  function Step(s: State, total: nat, call: Call): (r: State) {
    match call
    case Alloc(count) => Take(s, FindRun(s.free, total, count), count)
    case AllocBelow(limit) => Take(s, FindBelow(s.free, Min(limit / PAGE_SIZE, total)), 1)
    case Free(k) =>
      if k < |s.held|
      then State(FreeResult(s.free, total, s.held[k].start, s.held[k].count), s.held[..k] + s.held[k + 1..])
      else s
  }

  function Steps(s: State, total: nat, calls: seq<Call>): (r: State)
    decreases |calls|
  {
    if |calls| == 0 then s else Steps(Step(s, total, calls[0]), total, calls[1..])
  }

  predicate PairwiseDisjoint(held: seq<Run>) {
    forall i, j :: 0 <= i < j < |held| ==> RunFrames(held[i]) !! RunFrames(held[j])
  }

  predicate RunsInRange(held: seq<Run>, total: nat) {
    forall r :: r in held ==> 0 < r.start && 0 < r.count && r.start + r.count <= total
  }

  /** Frames are either free or held by exactly one caller, and none is lost. */
  predicate Conserved(s: State, total: nat, initial: set<int>) {
    && 0 !in s.free
    && (forall p :: p in s.free ==> 0 <= p < total)
    && RunsInRange(s.held, total)
    && PairwiseDisjoint(s.held)
    && s.free !! HeldFrames(s.held)
    && s.free + HeldFrames(s.held) == initial
  }

  lemma {:induction false} HeldFramesContains(held: seq<Run>, k: nat)
    requires k < |held|
    ensures RunFrames(held[k]) <= HeldFrames(held)
  {
    if k > 0 {
      HeldFramesContains(held[1..], k - 1);
    }
  }

  lemma {:induction false} HeldFramesDisjoint(held: seq<Run>, r: Run)
    requires forall i :: 0 <= i < |held| ==> RunFrames(r) !! RunFrames(held[i])
    ensures RunFrames(r) !! HeldFrames(held)
  {
    if |held| > 0 {
      HeldFramesDisjoint(held[1..], r);
    }
  }

  lemma TailDisjoint(held: seq<Run>)
    requires |held| > 0 && PairwiseDisjoint(held)
    ensures PairwiseDisjoint(held[1..]) && RunFrames(held[0]) !! HeldFrames(held[1..])
  {
    var tail := held[1..];
    forall i | 0 <= i < |tail|
      ensures RunFrames(held[0]) !! RunFrames(tail[i])
    {
      assert tail[i] == held[i + 1];
    }
    HeldFramesDisjoint(tail, held[0]);
  }

  lemma {:induction false} HeldFramesRemove(held: seq<Run>, k: nat)
    requires k < |held| && PairwiseDisjoint(held)
    ensures HeldFrames(held[..k] + held[k + 1..]) == HeldFrames(held) - RunFrames(held[k])
  {
    var rest := held[..k] + held[k + 1..];
    if k == 0 {
      assert rest == held[1..];
      TailDisjoint(held);
    } else {
      TailDisjoint(held);
      HeldFramesRemove(held[1..], k - 1);
      assert rest[1..] == held[1..][..k - 1] + held[1..][k..];
      assert RunFrames(held[0]) !! RunFrames(held[k]);
    }
  }

  lemma HeldFramesCons(held: seq<Run>, run: Run)
    ensures HeldFrames([run] + held) == HeldFrames(held) + RunFrames(run)
  {
    assert ([run] + held)[1..] == held;
  }

  lemma PrependDisjoint(held: seq<Run>, run: Run)
    requires PairwiseDisjoint(held) && RunFrames(run) !! HeldFrames(held)
    ensures PairwiseDisjoint([run] + held)
  {
    var all := [run] + held;
    forall i, j | 0 <= i < j < |all|
      ensures RunFrames(all[i]) !! RunFrames(all[j])
    {
      HeldFramesContains(held, j - 1);
      if i > 0 {
        assert RunFrames(held[i - 1]) !! RunFrames(held[j - 1]);
      }
    }
  }

  lemma RemoveDisjoint(held: seq<Run>, k: nat)
    requires PairwiseDisjoint(held) && k < |held|
    ensures PairwiseDisjoint(held[..k] + held[k + 1..])
  {
    var rest := held[..k] + held[k + 1..];
    forall i, j | 0 <= i < j < |rest|
      ensures RunFrames(rest[i]) !! RunFrames(rest[j])
    {
      var a, b := if i < k then i else i + 1, if j < k then j else j + 1;
      assert RunFrames(held[a]) !! RunFrames(held[b]);
    }
  }

  lemma TakeConserves(s: State, total: nat, initial: set<int>, start: nat, count: nat)
    requires Conserved(s, total, initial)
    requires start != 0 ==> 0 < count && start + count <= total && AllFree(s.free, start, count)
    ensures Conserved(Take(s, start, count), total, initial)
  {
    if start != 0 {
      var run := Run(start, count);
      assert RunFrames(run) <= s.free;
      HeldFramesCons(s.held, run);
      PrependDisjoint(s.held, run);
      assert Take(s, start, count) == State(s.free - RunFrames(run), [run] + s.held);
    }
  }

  lemma ReleaseConserves(s: State, total: nat, initial: set<int>, k: nat)
    requires Conserved(s, total, initial) && k < |s.held|
    ensures Conserved(Step(s, total, Free(k)), total, initial)
  {
    var run := s.held[k];
    assert run in s.held;
    HeldFramesContains(s.held, k);
    HeldFramesRemove(s.held, k);
    RemoveDisjoint(s.held, k);
    assert Step(s, total, Free(k)) == State(s.free + RunFrames(run), s.held[..k] + s.held[k + 1..]);
  }

  /** The held frames number as many as the runs say. */
  lemma {:induction false} HeldFramesSize(held: seq<Run>)
    requires PairwiseDisjoint(held) && forall r :: r in held ==> 0 <= r.count
    ensures |HeldFrames(held)| == HeldCount(held)
  {
    if |held| > 0 {
      TailDisjoint(held);
      HeldFramesSize(held[1..]);
      PagesSize(held[0].start, held[0].start + held[0].count);
      DisjointSize(HeldFrames(held[1..]), RunFrames(held[0]));
    }
  }

  lemma DisjointSize(a: set<int>, b: set<int>)
    requires a !! b
    ensures |a + b| == |a| + |b|
  {
  }

  lemma StepConserves(s: State, total: nat, initial: set<int>, call: Call)
    requires Conserved(s, total, initial)
    ensures Conserved(Step(s, total, call), total, initial)
  {
    match call
    case Alloc(count) =>
      if count > 0 {
        FindRunMeaning(s.free, total, count);
        TakeConserves(s, total, initial, FindRun(s.free, total, count), count);
      }
    case AllocBelow(limit) =>
      TakeConserves(s, total, initial, FindBelow(s.free, Min(limit / PAGE_SIZE, total)), 1);
    case Free(k) =>
      if k < |s.held| {
        ReleaseConserves(s, total, initial, k);
      }
  }

  /** Over any sequence of calls in which callers free only runs they hold. */
  lemma {:induction false} RunsConserve(s: State, total: nat, initial: set<int>, calls: seq<Call>)
    requires Conserved(s, total, initial)
    ensures Conserved(Steps(s, total, calls), total, initial)
    decreases |calls|
  {
    if |calls| > 0 {
      StepConserves(s, total, initial, calls[0]);
      RunsConserve(Step(s, total, calls[0]), total, initial, calls[1..]);
    }
  }

  lemma NothingHeld(free: set<int>, total: nat)
    requires 0 !in free && forall p :: p in free ==> 0 <= p < total
    ensures Conserved(State(free, []), total, free)
  {
  }

  /** What is free and what is held add up to what there was. */
  lemma Accounted(s: State, total: nat, initial: set<int>)
    requires Conserved(s, total, initial)
    ensures |s.free| + HeldCount(s.held) == |initial|
  {
    HeldFramesSize(s.held);
    DisjointSize(s.free, HeldFrames(s.held));
  }

  /** From a fresh allocator nothing is ever lost or handed out twice, the free
      count never exceeds the usable count, and used plus free stays usable. */
  lemma AccountingOverRuns(initial: set<int>, total: nat, usable: nat, calls: seq<Call>)
    requires 0 !in initial && (forall p :: p in initial ==> 0 <= p < total)
    requires |initial| <= usable
    ensures var s := Steps(State(initial, []), total, calls);
            && Conserved(s, total, initial)
            && |s.free| <= usable
            && UsedCount(usable, |s.free|) + |s.free| == usable
            && UsedCount(usable, |s.free|) == usable - |initial| + HeldCount(s.held)
  {
    RunsConserve(State(initial, []), total, initial, calls);
    var s := Steps(State(initial, []), total, calls);
    SubsetSize(s.free, initial);
    HeldFramesSize(s.held);
    DisjointSize(s.free, HeldFrames(s.held));
  }

  /** pmm_get_used_pages: the difference, floored at 0. */
  function UsedCount(usable: nat, free: nat): (r: nat) {
    if usable >= free then usable - free else 0
  }
}
