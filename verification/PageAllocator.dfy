/**
 Guest physical page allocator (core/hle/kernel/page_allocator.c): a bump cursor plus a small
 unordered list of free runs. All quantities are in pages: the C fields are byte counts that are
 page multiples throughout.
 */
module PageAllocators {
  import opened Results
  import opened Geometry
  import opened FlatMaps

  const MAX_FREE_RUNS: nat := 16

  datatype Run = Run(page: nat, count: nat) {
    function End(): nat {
      page + count
    }

    predicate Has(p: nat) {
      page <= p < page + count
    }
  }

  /** The allocator's fields; the free list is the used prefix of its array. */
  datatype State = State(base: nat, size: nat, used: nat, runs: seq<Run>) {
    function Cursor(): nat {
      base + used
    }
  }

  datatype Taken = Taken(error: Error, state: State, page: nat)

  datatype Returned = Returned(error: Error, state: State)

  // ----- What the two operations compute -----

  /** The first run of at least `count` pages; the number of runs when there is none. */
  function FirstFit(runs: seq<Run>, count: nat): (i: nat)
    ensures i <= |runs|
    ensures i < |runs| ==> runs[i].count >= count
    ensures forall k :: 0 <= k < i ==> runs[k].count < count
  {
    if runs == [] then 0
    else if runs[0].count >= count then 0
    else
      var i := FirstFit(runs[1..], count);
      assert forall k :: 1 <= k <= i ==> runs[k] == runs[1..][k - 1];
      i + 1
  }

  /** The first run satisfying one of the two adjacency tests of page_allocator_free. */
  function FirstAdjacent(runs: seq<Run>, page: nat, end: nat): (i: nat)
    ensures i <= |runs|
    ensures i < |runs| ==> runs[i].page == end || runs[i].End() == page
    ensures forall k :: 0 <= k < i ==> runs[k].page != end && runs[k].End() != page
  {
    if runs == [] then 0
    else if runs[0].page == end || runs[0].End() == page then 0
    else
      var i := FirstAdjacent(runs[1..], page, end);
      assert forall k :: 1 <= k <= i ==> runs[k] == runs[1..][k - 1];
      i + 1
  }

  function FirstEndingAt(runs: seq<Run>, cursor: nat): (i: nat)
    ensures i <= |runs|
    ensures i < |runs| ==> runs[i].End() == cursor
    ensures forall k :: 0 <= k < i ==> runs[k].End() != cursor
  {
    if runs == [] then 0
    else if runs[0].End() == cursor then 0
    else
      var i := FirstEndingAt(runs[1..], cursor);
      assert forall k :: 1 <= k <= i ==> runs[k] == runs[1..][k - 1];
      i + 1
  }

  function SwapRemove(runs: seq<Run>, i: nat): (r: seq<Run>)
    requires i < |runs|
    ensures |r| == |runs| - 1
  {
    runs[i := runs[|runs| - 1]][..|runs| - 1]
  }

  /** page_allocator_allocate; `commits` is whether backing the pages succeeds. */
  function Take(s: State, count: nat, commits: bool): Taken {
    if count == 0 then Taken(InvalidArgument, s, 0)
    else
      var i := FirstFit(s.runs, count);
      if i < |s.runs| then
        var run := s.runs[i];
        if !commits then Taken(OutOfMemory, s, 0)
        else if run.count == count then Taken(Ok, s.(runs := SwapRemove(s.runs, i)), run.page)
        else Taken(Ok, s.(runs := s.runs[i := Run(run.page + count, run.count - count)]), run.page)
      else if s.used + count > s.size || !commits then Taken(OutOfMemory, s, 0)
      else Taken(Ok, s.(used := s.used + count), s.Cursor())
  }

  /** The range checks of page_allocator_free. */
  predicate InUse(s: State, page: nat, count: nat) {
    count > 0 && s.base <= page && page + count <= s.Cursor()
  }

  /** The one absorption pass: a free run that ends at the cursor joins the space above it. */
  function Absorbed(t: State): State {
    var i := FirstEndingAt(t.runs, t.Cursor());
    if i < |t.runs| && t.runs[i].count <= t.used
    then t.(used := t.used - t.runs[i].count, runs := SwapRemove(t.runs, i))
    else t
  }

  lemma FirstFitIs(runs: seq<Run>, count: nat, i: nat)
    requires i <= |runs| && (i < |runs| ==> runs[i].count >= count)
    requires forall k :: 0 <= k < i ==> runs[k].count < count
    ensures FirstFit(runs, count) == i
  {
  }

  lemma FirstAdjacentIs(runs: seq<Run>, page: nat, end: nat, i: nat)
    requires i <= |runs| && (i < |runs| ==> runs[i].page == end || runs[i].End() == page)
    requires forall k :: 0 <= k < i ==> runs[k].page != end && runs[k].End() != page
    ensures FirstAdjacent(runs, page, end) == i
  {
  }

  lemma FirstEndingAtIs(runs: seq<Run>, cursor: nat, i: nat)
    requires i <= |runs| && (i < |runs| ==> runs[i].End() == cursor)
    requires forall k :: 0 <= k < i ==> runs[k].End() != cursor
    ensures FirstEndingAt(runs, cursor) == i
  {
  }

  /** page_allocator_free. */
  function Return(s: State, page: nat, count: nat): Returned {
    if !InUse(s, page, count) then Returned(InvalidArgument, s)
    else if page + count == s.Cursor() then Returned(Ok, Absorbed(s.(used := s.used - count)))
    else
      var i := FirstAdjacent(s.runs, page, page + count);
      if i < |s.runs| then
        var run := s.runs[i];
        Returned(Ok, s.(runs := s.runs[i := Run(if run.page == page + count then page else run.page,
            run.count + count)]))
      else if |s.runs| >= MAX_FREE_RUNS then Returned(OutOfMemory, s)
      else Returned(Ok, s.(runs := s.runs + [Run(page, count)]))
  }

  function RunTotal(runs: seq<Run>, n: nat): nat
    requires n <= |runs|
  {
    if n == 0 then 0 else RunTotal(runs, n - 1) + runs[n - 1].count
  }

  /** page_allocator_free_bytes, in pages. */
  function FreePages(s: State): int {
    s.size - s.used + RunTotal(s.runs, |s.runs|)
  }

  // ----- Conservation -----

  ghost predicate InRuns(runs: seq<Run>, page: nat) {
    exists i :: 0 <= i < |runs| && runs[i].Has(page)
  }

  ghost predicate RunsOk(s: State) {
    && s.used <= s.size
    && |s.runs| <= MAX_FREE_RUNS
    && (forall i :: 0 <= i < |s.runs| ==>
          s.runs[i].count > 0 && s.base <= s.runs[i].page && s.runs[i].End() <= s.Cursor())
    && (forall i, j :: 0 <= i < j < |s.runs| ==>
          s.runs[i].End() <= s.runs[j].page || s.runs[j].End() <= s.runs[i].page)
  }

  /** Pages from `first` to `limit` are exactly the disjoint union of `out` and the free runs. */
  ghost predicate Partition(first: nat, limit: nat, runs: seq<Run>, out: set<nat>) {
    && (forall p: nat :: p in out ==> first <= p < limit && !InRuns(runs, p))
    && (forall p: nat :: first <= p < limit ==> p in out || InRuns(runs, p))
  }

  /** Nothing below the cursor is lost, and nothing is both handed out and free. */
  ghost predicate Conserved(s: State, out: set<nat>) {
    RunsOk(s) && Partition(s.base, s.Cursor(), s.runs, out)
  }

  lemma SwapRemoveRuns(runs: seq<Run>, i: nat)
    requires i < |runs|
    ensures forall k :: 0 <= k < |runs| - 1 ==>
              SwapRemove(runs, i)[k] == if k == i then runs[|runs| - 1] else runs[k]
    ensures forall p: nat :: InRuns(runs, p) <==> InRuns(SwapRemove(runs, i), p) || runs[i].Has(p)
  {
    var r := SwapRemove(runs, i);
    forall p: nat | InRuns(runs, p) && !runs[i].Has(p)
      ensures InRuns(r, p)
    {
      var k :| 0 <= k < |runs| && runs[k].Has(p);
      var k' := if k == |runs| - 1 then i else k;
      assert r[k'].Has(p);
    }
  }

  /** Removing a run from the free list keeps the rest apart from it. */
  lemma SwapRemoveOk(s: State, i: nat)
    requires RunsOk(s) && i < |s.runs|
    ensures RunsOk(s.(runs := SwapRemove(s.runs, i)))
    ensures forall p: nat :: s.runs[i].Has(p) ==> InRuns(s.runs, p) && !InRuns(SwapRemove(s.runs, i), p)
  {
    SwapRemoveRuns(s.runs, i);
  }

  /** Replacing a run by one that lies in the gap it and its surroundings leave. */
  lemma ReplaceRuns(runs: seq<Run>, i: nat, run: Run)
    requires i < |runs|
    ensures forall p: nat :: run.Has(p) ==> InRuns(runs[i := run], p)
    ensures forall p: nat :: InRuns(runs[i := run], p) ==> run.Has(p) || InRuns(runs, p)
    ensures forall p: nat :: InRuns(runs, p) ==> runs[i].Has(p) || InRuns(runs[i := run], p)
  {
    var r := runs[i := run];
    forall p: nat | run.Has(p) ensures InRuns(r, p) {
      assert r[i].Has(p);
    }
    forall p: nat | InRuns(r, p) && !run.Has(p) ensures InRuns(runs, p) {
      var k :| 0 <= k < |r| && r[k].Has(p);
      assert runs[k].Has(p);
    }
    forall p: nat | InRuns(runs, p) && !runs[i].Has(p) ensures InRuns(r, p) {
      var k :| 0 <= k < |runs| && runs[k].Has(p);
      assert r[k].Has(p);
    }
  }

  lemma TakeConserves(s: State, out: set<nat>, count: nat, commits: bool)
    requires Conserved(s, out)
    ensures var t := Take(s, count, commits);
            var pages := RangePages(t.page, count);
            && (t.error == Ok ==> t.page >= s.base && t.page + count <= t.state.Cursor() && count > 0)
            && (t.error == Ok ==> pages !! out && Conserved(t.state, out + pages))
            && (t.error != Ok ==> t.state == s) && t.state.base == s.base && t.state.size == s.size
  {
    hide Partition;
    var t := Take(s, count, commits);
    if t.error == Ok {
      var i := FirstFit(s.runs, count);
      if i == |s.runs| {
        TakeBumps(s, out, count);
      } else if s.runs[i].count == count {
        TakeWhole(s, out, i);
      } else {
        TakeSplits(s, out, i, count);
        assert RunsOk(s);
        SplitOk(s, i, s.runs[i]);
      }
    }
  }

  lemma TakeRefused(s: State, count: nat, commits: bool)
    ensures var t := Take(s, count, commits); t.error != Ok ==> t.state == s && t.page == 0
  {
  }

  lemma TakeBumps(s: State, out: set<nat>, count: nat)
    requires Conserved(s, out) && s.used + count <= s.size
    ensures RangePages(s.Cursor(), count) !! out
    ensures Conserved(s.(used := s.used + count), out + RangePages(s.Cursor(), count))
  {
  }

  lemma TakeWhole(s: State, out: set<nat>, i: nat)
    requires Conserved(s, out) && i < |s.runs|
    ensures var run := s.runs[i];
            && RangePages(run.page, run.count) !! out
            && Conserved(s.(runs := SwapRemove(s.runs, i)), out + RangePages(run.page, run.count))
            && run.page >= s.base && run.End() <= s.Cursor()
  {
    SwapRemoveRuns(s.runs, i);
    SwapRemoveOk(s, i);
    var run, rest := s.runs[i], SwapRemove(s.runs, i);
    forall p: nat | p in RangePages(run.page, run.count)
      ensures p !in out && !InRuns(rest, p)
    {
      assert run.Has(p);
    }
  }

  lemma SplitOk(s: State, i: nat, part: Run)
    requires RunsOk(s) && i < |s.runs|
    requires s.runs[i].page <= part.page && 0 < part.count && part.End() == s.runs[i].End()
    ensures RunsOk(s.(runs := s.runs[i := part]))
    ensures s.base <= s.runs[i].page && s.runs[i].End() <= s.Cursor()
  {
  }

  lemma TakeSplits(s: State, out: set<nat>, i: nat, count: nat)
    requires Conserved(s, out) && i < |s.runs| && 0 < count < s.runs[i].count
    ensures var run := s.runs[i];
            && RangePages(run.page, count) !! out
            && Conserved(s.(runs := s.runs[i := Run(run.page + count, run.count - count)]),
                         out + RangePages(run.page, count))
  {
    var run, part := s.runs[i], Run(s.runs[i].page + count, s.runs[i].count - count);
    var rest := s.runs[i := part];
    SplitOk(s, i, part);
    hide RunsOk;
    ReplaceRuns(s.runs, i, part);
    forall p: nat
      ensures InRuns(s.runs, p) <==> InRuns(rest, p) || p in RangePages(run.page, count)
      ensures p in RangePages(run.page, count) ==> !InRuns(rest, p)
    {
      if run.Has(p) {
        assert InRuns(s.runs, p);
        assert p in RangePages(run.page, count) || part.Has(p);
      }
    }
  }

  lemma ReturnConserves(s: State, out: set<nat>, page: nat, count: nat)
    requires Conserved(s, out) && RangePages(page, count) <= out
    ensures var r := Return(s, page, count);
            && (r.error == Ok ==> Conserved(r.state, out - RangePages(page, count)))
            && (r.error != Ok ==> r.state == s) && r.state.base == s.base && r.state.size == s.size
            && (count > 0 ==> r.error in {Ok, OutOfMemory})
            && (r.error == OutOfMemory ==> |s.runs| == MAX_FREE_RUNS)
  {
    hide Conserved;
    if count > 0 {
      HandedOutInUse(s, out, page, count);
      if page + count == s.Cursor() {
        ReturnRetracts(s, out, count);
      } else {
        var i := FirstAdjacent(s.runs, page, page + count);
        if i < |s.runs| {
          ReturnMerges(s, out, page, count, i);
        } else if |s.runs| < MAX_FREE_RUNS {
          ReturnAppends(s, out, page, count);
        } else {
          HandedOutRuns(s, out);
        }
      }
    }
  }

  lemma HandedOutRuns(s: State, out: set<nat>)
    requires Conserved(s, out)
    ensures |s.runs| <= MAX_FREE_RUNS && s.used <= s.size
  {
  }

  lemma HandedOutInUse(s: State, out: set<nat>, page: nat, count: nat)
    requires Conserved(s, out) && RangePages(page, count) <= out && count > 0
    ensures InUse(s, page, count)
  {
    assert page in RangePages(page, count) && page + count - 1 in RangePages(page, count);
  }

  /** Runs on the free list do not touch a handed-out range. */
  lemma RunsApart(s: State, out: set<nat>, page: nat, count: nat)
    requires Conserved(s, out) && RangePages(page, count) <= out && count > 0
    ensures forall i :: 0 <= i < |s.runs| ==> s.runs[i].End() <= page || page + count <= s.runs[i].page
  {
    forall i | 0 <= i < |s.runs|
      ensures s.runs[i].End() <= page || page + count <= s.runs[i].page
    {
      var run := s.runs[i];
      var p := if run.page <= page then page else run.page;
      assert run.Has(p) ==> InRuns(s.runs, p);
      assert p in RangePages(page, count) ==> p in out;
    }
  }

  lemma ReturnRetracts(s: State, out: set<nat>, count: nat)
    requires 0 < count <= s.used && Conserved(s, out) && RangePages(s.Cursor() - count, count) <= out
    ensures var r := Return(s, s.Cursor() - count, count);
            r.error == Ok && Conserved(r.state, out - RangePages(s.Cursor() - count, count))
  {
    hide Conserved, RangePages, FirstEndingAt, FirstAdjacent, SwapRemove;
    var page := s.Cursor() - count;
    var t := s.(used := s.used - count);
    var out' := out - RangePages(page, count);
    RetractOk(s, out, count);
    var i := FirstEndingAt(t.runs, t.Cursor());
    if i < |t.runs| {
      AbsorbTop(t, out', i);
    }
  }

  lemma RetractOk(s: State, out: set<nat>, count: nat)
    requires 0 < count <= s.used && Conserved(s, out) && RangePages(s.Cursor() - count, count) <= out
    ensures Conserved(s.(used := s.used - count), out - RangePages(s.Cursor() - count, count))
  {
    var page := s.Cursor() - count;
    RunsApart(s, out, page, count);
    assert RunsOk(s.(used := s.used - count));
    hide RunsOk;
    forall p: nat | page <= p < s.Cursor()
      ensures p in RangePages(page, count)
    {
    }
  }

  /** The absorption pass: a run that ends at the cursor joins the space above it. */
  lemma AbsorbTop(t: State, out: set<nat>, i: nat)
    requires Conserved(t, out) && i < |t.runs| && t.runs[i].End() == t.Cursor()
    ensures t.runs[i].count <= t.used
    ensures Conserved(t.(used := t.used - t.runs[i].count, runs := SwapRemove(t.runs, i)), out)
  {
    SwapRemoveRuns(t.runs, i);
    SwapRemoveOk(t, i);
    hide SwapRemove;
    var u := t.(used := t.used - t.runs[i].count, runs := SwapRemove(t.runs, i));
    forall k | 0 <= k < |u.runs|
      ensures u.runs[k].End() <= u.Cursor()
    {
      assert u.runs[k] == t.runs[if k == i then |t.runs| - 1 else k];
    }
    assert RunsOk(u);
    forall p: nat | t.runs[i].Has(p)
      ensures p !in out && p >= u.Cursor()
    {
      assert InRuns(t.runs, p);
    }
  }

  lemma ReturnMerges(s: State, out: set<nat>, page: nat, count: nat, i: nat)
    requires Conserved(s, out) && RangePages(page, count) <= out && count > 0 && InUse(s, page, count)
    requires page + count != s.Cursor()
    requires i < |s.runs| && (s.runs[i].page == page + count || s.runs[i].End() == page)
    ensures var run := s.runs[i];
            var merged := Run(if run.page == page + count then page else run.page, run.count + count);
            Conserved(s.(runs := s.runs[i := merged]), out - RangePages(page, count))
  {
    RunsApart(s, out, page, count);
    var run := s.runs[i];
    var merged := Run(if run.page == page + count then page else run.page, run.count + count);
    var rest := s.runs[i := merged];
    MergedOk(s, page, count, i, merged);
    hide RunsOk;
    ReplaceRuns(s.runs, i, merged);
    forall p: nat
      ensures InRuns(rest, p) <==> InRuns(s.runs, p) || p in RangePages(page, count)
    {
      assert merged.Has(p) <==> run.Has(p) || p in RangePages(page, count);
      if run.Has(p) {
        assert InRuns(s.runs, p);
      }
    }
  }

  lemma MergedOk(s: State, page: nat, count: nat, i: nat, merged: Run)
    requires RunsOk(s) && count > 0 && InUse(s, page, count) && i < |s.runs|
    requires forall k :: 0 <= k < |s.runs| ==> s.runs[k].End() <= page || page + count <= s.runs[k].page
    requires
      || (merged == Run(page, s.runs[i].count + count) && s.runs[i].page == page + count)
      || (merged == Run(s.runs[i].page, s.runs[i].count + count) && s.runs[i].End() == page)
    ensures RunsOk(s.(runs := s.runs[i := merged]))
  {
  }

  lemma ReturnAppends(s: State, out: set<nat>, page: nat, count: nat)
    requires Conserved(s, out) && RangePages(page, count) <= out && count > 0 && InUse(s, page, count)
    requires |s.runs| < MAX_FREE_RUNS
    ensures Conserved(s.(runs := s.runs + [Run(page, count)]), out - RangePages(page, count))
  {
    hide RunsOk;
    RunsApart(s, out, page, count);
    AppendOk(s, Run(page, count));
    InRunsAppend(s.runs, Run(page, count));
    assert forall p: nat :: p in RangePages(page, count) <==> Run(page, count).Has(p);
  }

  lemma AppendOk(s: State, run: Run)
    requires RunsOk(s) && |s.runs| < MAX_FREE_RUNS && run.count > 0 && s.base <= run.page && run.End() <= s.Cursor()
    requires forall i :: 0 <= i < |s.runs| ==> s.runs[i].End() <= run.page || run.End() <= s.runs[i].page
    ensures RunsOk(s.(runs := s.runs + [run]))
  {
  }

  lemma InRunsAppend(runs: seq<Run>, run: Run)
    ensures forall p: nat :: InRuns(runs + [run], p) <==> InRuns(runs, p) || run.Has(p)
  {
    var more := runs + [run];
    forall p: nat
      ensures InRuns(more, p) <==> InRuns(runs, p) || run.Has(p)
    {
      if InRuns(runs, p) {
        var k :| 0 <= k < |runs| && runs[k].Has(p);
        assert more[k].Has(p);
      }
      if run.Has(p) {
        assert more[|runs|].Has(p);
      }
      if InRuns(more, p) {
        var k :| 0 <= k < |more| && more[k].Has(p);
        if k < |runs| { assert runs[k].Has(p); }
      }
    }
  }

  /** The state says which pages are out. */
  lemma OutDetermined(s: State, a: set<nat>, b: set<nat>)
    requires Conserved(s, a) && Conserved(s, b)
    ensures a == b
  {
    hide RunsOk, InRuns;
    forall p: nat
      ensures p in a <==> p in b
    {
      var free := InRuns(s.runs, p);
    }
  }

  /** What taking pages does to the set of pages out. */
  lemma TakenPages(s: State, out: set<nat>, out': set<nat>, count: nat, commits: bool)
    requires Conserved(s, out) && Take(s, count, commits).error == Ok
    requires Conserved(Take(s, count, commits).state, out')
    ensures var pages := RangePages(Take(s, count, commits).page, count); out' == out + pages && pages !! out
  {
    hide Conserved, Take, RangePages;
    TakeConserves(s, out, count, commits);
    OutDetermined(Take(s, count, commits).state, out', out + RangePages(Take(s, count, commits).page, count));
  }

  // ----- What taking and returning do, case by case -----

  /** Some free run has at least `count` pages. */
  ghost predicate SomeRunFits(runs: seq<Run>, count: nat) {
    exists i :: 0 <= i < |runs| && runs[i].count >= count
  }

  /** Allocation succeeds exactly when pages are asked for and backed, and a free run or the space above has room. */
  lemma TakeSucceeds(s: State, count: nat, commits: bool)
    ensures Take(s, count, commits).error == Ok <==>
              count > 0 && commits && (SomeRunFits(s.runs, count) || s.used + count <= s.size)
    ensures Take(s, count, commits).error == InvalidArgument <==> count == 0
    ensures Take(s, count, commits).error in {Ok, InvalidArgument, OutOfMemory}
  {
    var i := FirstFit(s.runs, count);
    if i < |s.runs| {
      assert s.runs[i].count >= count;
    }
  }

  /** A free run that is big enough is reused before the cursor moves: the first such run, from its front. */
  lemma TakeReuses(s: State, count: nat, i: nat)
    requires count > 0 && i < |s.runs| && s.runs[i].count >= count
    requires forall k :: 0 <= k < i ==> s.runs[k].count < count
    ensures var t := Take(s, count, true);
            && t.error == Ok && t.page == s.runs[i].page && t.state.used == s.used
            && (s.runs[i].count > count ==>
                  t.state.runs == s.runs[i := Run(s.runs[i].page + count, s.runs[i].count - count)])
            && (s.runs[i].count == count ==> multiset(t.state.runs) == multiset(s.runs) - multiset{s.runs[i]})
  {
    FirstFitIs(s.runs, count, i);
    SwapRemoveBag(s.runs, i);
  }

  /** Otherwise the pages at the cursor are taken and the free list stays. */
  lemma TakeExtends(s: State, count: nat)
    requires 0 < count && s.used + count <= s.size && !SomeRunFits(s.runs, count)
    ensures Take(s, count, true) == Taken(Ok, State(s.base, s.size, s.used + count, s.runs), s.base + s.used)
  {
    var i := FirstFit(s.runs, count);
    assert i == |s.runs|;
  }

  lemma SwapRemoveBag(runs: seq<Run>, i: nat)
    requires i < |runs|
    ensures multiset(SwapRemove(runs, i)) == multiset(runs) - multiset{runs[i]}
  {
    var n := |runs| - 1;
    assert runs == runs[..n] + [runs[n]];
    if i < n {
      assert SwapRemove(runs, i) == runs[..n][i := runs[n]];
    } else {
      assert SwapRemove(runs, i) == runs[..n];
    }
  }

  /** Pages that touch a free run and not the cursor join the first run they touch; the list grows no longer. */
  lemma ReturnCoalesces(s: State, page: nat, count: nat, i: nat)
    requires count > 0 && s.base <= page && page + count < s.base + s.used
    requires i < |s.runs| && (s.runs[i].page == page + count || s.runs[i].page + s.runs[i].count == page)
    requires forall k :: 0 <= k < i ==> s.runs[k].page != page + count && s.runs[k].page + s.runs[k].count != page
    ensures var r := Return(s, page, count);
            && r.error == Ok && r.state.used == s.used && |r.state.runs| == |s.runs|
            && (forall k :: 0 <= k < |s.runs| && k != i ==> r.state.runs[k] == s.runs[k])
            && (forall p: nat :: r.state.runs[i].Has(p) <==> s.runs[i].Has(p) || page <= p < page + count)
  {
    FirstAdjacentIs(s.runs, page, page + count, i);
  }

  /** Pages that touch neither go on the free list while it has fewer than sixteen runs. */
  lemma ReturnLists(s: State, page: nat, count: nat)
    requires count > 0 && s.base <= page && page + count < s.base + s.used
    requires forall k :: 0 <= k < |s.runs| ==>
               s.runs[k].page != page + count && s.runs[k].page + s.runs[k].count != page
    ensures Return(s, page, count) ==
            if |s.runs| < 16 then Returned(Ok, State(s.base, s.size, s.used, s.runs + [Run(page, count)]))
            else Returned(OutOfMemory, s)
  {
    FirstAdjacentIs(s.runs, page, page + count, |s.runs|);
  }

  /** Pages at the cursor move it back to where they began, when no free run ends there. */
  lemma ReturnMovesCursor(s: State, page: nat, count: nat)
    requires count > 0 && s.base <= page && page + count == s.base + s.used
    requires forall k :: 0 <= k < |s.runs| ==> s.runs[k].page + s.runs[k].count != page
    ensures Return(s, page, count) == Returned(Ok, State(s.base, s.size, page - s.base, s.runs))
  {
    FirstEndingAtIs(s.runs, page, |s.runs|);
  }

  /** When a free run does end there, the cursor moves back over the first such run, which leaves the list. */
  lemma ReturnAbsorbs(s: State, page: nat, count: nat, i: nat)
    requires count > 0 && s.base <= page && page + count == s.base + s.used
    requires i < |s.runs| && s.runs[i].page + s.runs[i].count == page && s.base <= s.runs[i].page
    requires forall k :: 0 <= k < i ==> s.runs[k].page + s.runs[k].count != page
    ensures var r := Return(s, page, count);
            && r.error == Ok && s.base + r.state.used == s.runs[i].page
            && multiset(r.state.runs) == multiset(s.runs) - multiset{s.runs[i]}
  {
    FirstEndingAtIs(s.runs, page, i);
    SwapRemoveBag(s.runs, i);
  }

  /** Only pages between the base and the cursor can come back. */
  lemma ReturnRefuses(s: State, page: nat, count: nat)
    ensures Return(s, page, count).error == InvalidArgument <==>
              count == 0 || page < s.base || page + count > s.base + s.used
    ensures Return(s, page, count).error == InvalidArgument ==> Return(s, page, count).state == s
  {
  }

  // ----- Counting -----

  ghost function PagesOfRuns(runs: seq<Run>, n: nat): set<nat>
    requires n <= |runs|
  {
    if n == 0 then {} else PagesOfRuns(runs, n - 1) + RangePages(runs[n - 1].page, runs[n - 1].count)
  }

  lemma {:induction false} RangeSize(first: nat, count: nat)
    ensures |RangePages(first, count)| == count
    decreases count
  {
    if count > 0 {
      RangeSize(first, count - 1);
    }
  }

  lemma {:induction false} PagesOfRunsHas(runs: seq<Run>, n: nat, p: nat)
    requires n <= |runs|
    ensures p in PagesOfRuns(runs, n) <==> exists k :: 0 <= k < n && runs[k].Has(p)
    decreases n
  {
    if n > 0 {
      PagesOfRunsHas(runs, n - 1, p);
      assert p in RangePages(runs[n - 1].page, runs[n - 1].count) <==> runs[n - 1].Has(p);
    }
  }

  lemma LastRunApart(runs: seq<Run>, n: nat)
    requires n < |runs|
    requires forall i :: 0 <= i < n ==> runs[i].End() <= runs[n].page || runs[n].End() <= runs[i].page
    ensures forall p :: p in PagesOfRuns(runs, n) ==> p !in RangePages(runs[n].page, runs[n].count)
  {
    forall p: nat | p in PagesOfRuns(runs, n)
      ensures p !in RangePages(runs[n].page, runs[n].count)
    {
      PagesOfRunsHas(runs, n, p);
      var k :| 0 <= k < n && runs[k].Has(p);
    }
  }

  lemma {:induction false} PagesOfRunsSize(runs: seq<Run>, n: nat)
    requires n <= |runs|
    requires forall i, j :: 0 <= i < j < |runs| ==> runs[i].End() <= runs[j].page || runs[j].End() <= runs[i].page
    ensures |PagesOfRuns(runs, n)| == RunTotal(runs, n)
    decreases n
  {
    hide RangePages, Run.End;
    if n > 0 {
      PagesOfRunsSize(runs, n - 1);
      LastRunApart(runs, n - 1);
      RangeSize(runs[n - 1].page, runs[n - 1].count);
      DisjointUnionSize(PagesOfRuns(runs, n - 1), RangePages(runs[n - 1].page, runs[n - 1].count));
    }
  }

  lemma DisjointUnionSize(a: set<nat>, b: set<nat>)
    requires forall p :: p in a ==> p !in b
    ensures |a + b| == |a| + |b|
  {
    assert a !! b;
  }

  /** Free pages are the extent less the pages handed out. */
  lemma FreePagesExact(s: State, out: set<nat>)
    requires Conserved(s, out)
    ensures FreePages(s) == s.size - |out|
  {
    hide RangePages, PagesOfRuns, RunTotal;
    PagesOfRunsSize(s.runs, |s.runs|);
    RangeSize(s.base, s.used);
    BelowCursor(s, out);
    DisjointUnionSize(out, PagesOfRuns(s.runs, |s.runs|));
  }

  lemma BelowCursor(s: State, out: set<nat>)
    requires Conserved(s, out)
    ensures RangePages(s.base, s.used) == out + PagesOfRuns(s.runs, |s.runs|)
    ensures forall p :: p in out ==> p !in PagesOfRuns(s.runs, |s.runs|)
  {
    RunsInside(s);
    hide RunsOk, PagesOfRuns;
    var all, both := RangePages(s.base, s.used), out + PagesOfRuns(s.runs, |s.runs|);
    forall p: nat
      ensures p in all <==> p in both
      ensures p in out ==> p !in PagesOfRuns(s.runs, |s.runs|)
    {
      PagesOfRunsHas(s.runs, |s.runs|, p);
      assert p in PagesOfRuns(s.runs, |s.runs|) <==> InRuns(s.runs, p);
    }
  }

  lemma RunsInside(s: State)
    requires RunsOk(s)
    ensures forall p: nat :: InRuns(s.runs, p) ==> s.base <= p < s.Cursor()
  {
  }

  /** A run can always be given straight back. */
  lemma TakeThenReturn(s: State, out: set<nat>, count: nat, commits: bool)
    requires Conserved(s, out) && Take(s, count, commits).error == Ok
    ensures var t := Take(s, count, commits);
            var r := Return(t.state, t.page, count);
            r.error == Ok && Conserved(r.state, out) && FreePages(r.state) == FreePages(s)
  {
    hide Conserved, FreePages, RangePages, Return, Take;
    var t := Take(s, count, commits);
    var pages := RangePages(t.page, count);
    TakeConserves(s, out, count, commits);
    ReturnConserves(t.state, out + pages, t.page, count);
    assert out + pages - pages == out;
    NoRoomImpossible(s, out, count, commits);
    FreePagesExact(s, out);
    FreePagesExact(Return(t.state, t.page, count).state, out);
  }

  /** The free list is never full just after a run came off it, unless the run was split and merges back. */
  lemma NoRoomImpossible(s: State, out: set<nat>, count: nat, commits: bool)
    requires Conserved(s, out) && Take(s, count, commits).error == Ok
    ensures var t := Take(s, count, commits);
            Return(t.state, t.page, count).error != OutOfMemory
  {
    var t := Take(s, count, commits);
    var i := FirstFit(s.runs, count);
    if i < |s.runs| && s.runs[i].count != count {
      assert t.state.runs[i].page == t.page + count;
      assert FirstAdjacent(t.state.runs, t.page, t.page + count) <= i;
    }
  }

  // ----- Whole runs of the allocator -----

  datatype Event = DoTake(count: nat, commits: bool) | DoReturn(page: nat, count: nat)

  datatype World = World(state: State, out: set<nat>)

  /** Callers only give back pages they hold; a refused call changes nothing. */
  ghost predicate Honest(w: World, e: Event) {
    e.DoReturn? ==> RangePages(e.page, e.count) <= w.out
  }

  ghost function Step(w: World, e: Event): World {
    match e
    case DoTake(count, commits) =>
      var t := Take(w.state, count, commits);
      if t.error == Ok then World(t.state, w.out + RangePages(t.page, count)) else w
    case DoReturn(page, count) =>
      var r := Return(w.state, page, count);
      if r.error == Ok then World(r.state, w.out - RangePages(page, count)) else w
  }

  ghost predicate HonestRun(w: World, es: seq<Event>)
    decreases |es|
  {
    es == [] || (Honest(w, es[0]) && HonestRun(Step(w, es[0]), es[1..]))
  }

  ghost function After(w: World, es: seq<Event>): World
    decreases |es|
  {
    if es == [] then w else After(Step(w, es[0]), es[1..])
  }

  /** Conservation over every run: no page is ever lost, invented or handed out twice. */
  lemma {:induction false} RunConserves(w: World, es: seq<Event>)
    requires Conserved(w.state, w.out) && HonestRun(w, es)
    ensures var v := After(w, es);
            Conserved(v.state, v.out) && FreePages(v.state) == v.state.size - |v.out|
    ensures After(w, es).state.base == w.state.base && After(w, es).state.size == w.state.size
    decreases |es|
  {
    hide Conserved, FreePages, RangePages, Return, Take;
    if es == [] {
      FreePagesExact(w.state, w.out);
    } else {
      match es[0] {
        case DoTake(count, commits) => TakeConserves(w.state, w.out, count, commits);
        case DoReturn(page, count) => ReturnConserves(w.state, w.out, page, count);
      }
      RunConserves(Step(w, es[0]), es[1..]);
    }
  }

  // ----- The allocator in place -----

  class PageAllocator {
    const freeRuns: array<Run>
    const base: nat
    const size: nat
    var used: nat
    var freeRunCount: nat

    // Pages handed out and not yet returned.
    ghost var out: set<nat>

    ghost function Repr(): set<object> {
      {this, freeRuns}
    }

    ghost predicate Shape()
      reads this
    {
      freeRuns.Length == MAX_FREE_RUNS && freeRunCount <= MAX_FREE_RUNS
    }

    ghost function Now(): State
      requires Shape()
      reads this, freeRuns
    {
      State(base, size, used, freeRuns[..freeRunCount])
    }

    ghost predicate Valid()
      reads this, freeRuns
    {
      Shape() && Conserved(Now(), out) && (base + size) * PAGE_SIZE <= TWO_TO_THE_64
    }

    lemma HasShape()
      requires Valid()
      ensures Shape()
    {
    }

    lemma IsConserved()
      requires Valid()
      ensures Shape() && Conserved(Now(), out)
    {
    }

    constructor (base: nat, size: nat)
      requires (base + size) * PAGE_SIZE <= TWO_TO_THE_64
      ensures Valid() && Now() == State(base, size, 0, []) && out == {} && fresh(freeRuns)
      ensures this.base == base && this.size == size
    {
      freeRuns := new Run[MAX_FREE_RUNS](_ => Run(0, 0));
      this.base, this.size, used, freeRunCount, out := base, size, 0, 0, {};
    }

    /** free_runs[i] = free_runs[--free_run_count] */
    method RemoveRun(i: nat)
      requires Shape() && i < freeRunCount
      modifies freeRuns, `freeRunCount
      ensures Shape() && Now() == old(Now()).(runs := SwapRemove(old(Now()).runs, i))
    {
      freeRunCount := freeRunCount - 1;
      freeRuns[i] := freeRuns[freeRunCount];
    }

    method SetRun(i: nat, run: Run)
      requires Shape() && i < freeRunCount
      modifies freeRuns
      ensures Shape() && Now() == old(Now()).(runs := old(Now()).runs[i := run])
    {
      freeRuns[i] := run;
    }

    /** First fit over the free list, then the bump cursor. */
    method Allocate(count: U64, commits: bool) returns (e: Error, pa: nat)
      requires Valid()
      modifies this, freeRuns
      ensures Valid()
      ensures var t := Take(old(Now()), count, commits);
              e == t.error && Now() == t.state && pa == t.page * PAGE_SIZE
      ensures e == Ok ==> out == old(out) + RangePages(Vpn(pa), count) && RangePages(Vpn(pa), count) !! old(out)
      ensures e != Ok ==> out == old(out)
      ensures pa < TWO_TO_THE_64
    {
      hide Conserved, RangePages, FirstFit, SwapRemove;
      TakeConserves(Now(), out, count, commits);
      SpaceLeft();
      PagesFit(Take(Now(), count, commits), out, count);
      pa := 0;
      if count == 0 {
        return InvalidArgument, 0;
      }
      for i := 0 to freeRunCount
        invariant forall k :: 0 <= k < i ==> freeRuns[k].count < count
        invariant Now() == old(Now()) && out == old(out) && Shape()
      {
        var run := freeRuns[i];
        assert Now().runs[i] == run;
        if run.count >= count {
          FirstFitIs(Now().runs, count, i);
          if !commits {
            return OutOfMemory, 0;
          }
          pa := run.page * PAGE_SIZE;
          if run.count == count {
            RemoveRun(i);
          } else {
            SetRun(i, Run(run.page + count, run.count - count));
          }
          out := out + RangePages(run.page, count);
          return Ok, pa;
        }
      }
      FirstFitIs(Now().runs, count, freeRunCount);
      if count > size - used {
        return OutOfMemory, 0;
      }
      if !commits {
        return OutOfMemory, 0;
      }
      pa := (base + used) * PAGE_SIZE;
      out := out + RangePages(base + used, count);
      used := used + count;
      e := Ok;
    }

    lemma PagesFit(t: Taken, out': set<nat>, count: nat)
      requires t.error == Ok ==> count > 0 && t.page + count <= t.state.Cursor()
      requires t.error == Ok ==> Conserved(t.state, out' + RangePages(t.page, count))
      requires t.error != Ok ==> t.page == 0
      requires (t.state.base + t.state.size) * PAGE_SIZE <= TWO_TO_THE_64
      ensures t.page * PAGE_SIZE < TWO_TO_THE_64
    {
    }

    lemma RunsAboveBase()
      requires Valid()
      ensures forall i :: 0 <= i < freeRunCount ==> freeRuns[i].page >= base
    {
      assert forall i :: 0 <= i < freeRunCount ==> freeRuns[i] == Now().runs[i];
    }

    lemma SpaceLeft()
      requires Valid()
      ensures used <= size
    {
    }

    /** Retracts the cursor, merges with one neighbour, or appends to the free list. */
    method Free(pa: U64, count: U64) returns (e: Error)
      requires Valid()
      // The caller is trusted to hold what it returns.
      requires PageAligned(pa) && InUse(Now(), Vpn(pa), count) ==> RangePages(Vpn(pa), count) <= out
      modifies this, freeRuns
      ensures Valid()
      ensures if !PageAligned(pa) then e == InvalidArgument && Now() == old(Now()) && out == old(out)
              else var r := Return(old(Now()), Vpn(pa), count);
                e == r.error && Now() == r.state &&
                out == if e == Ok then old(out) - RangePages(Vpn(pa), count) else old(out)
    {
      hide Conserved, RangePages, FirstAdjacent, FirstEndingAt, SwapRemove, Absorbed;
      if count == 0 || !PageAligned(pa) {
        return InvalidArgument;
      }
      var page := Vpn(pa);
      if page < base || page + count > base + used {
        return InvalidArgument;
      }
      ReturnConserves(Now(), out, page, count);
      ghost var was := Now();
      var end := page + count;
      if end == base + used {
        RunsAboveBase();
        used := used - count;
        Absorb();
        out := out - RangePages(page, count);
        return Ok;
      }
      for i := 0 to freeRunCount
        invariant forall k :: 0 <= k < i ==> freeRuns[k].page != end && freeRuns[k].End() != page
        invariant Now() == was && out == old(out) && Shape()
      {
        var run := freeRuns[i];
        assert was.runs[i] == run;
        if run.page == end || run.End() == page {
          FirstAdjacentIs(was.runs, page, end, i);
          SetRun(i, Run(if run.page == end then page else run.page, run.count + count));
          out := out - RangePages(page, count);
          return Ok;
        }
      }
      FirstAdjacentIs(was.runs, page, end, freeRunCount);
      if freeRunCount >= MAX_FREE_RUNS {
        return OutOfMemory;
      }
      AppendRun(Run(page, count));
      out := out - RangePages(page, count);
      e := Ok;
    }

    method AppendRun(run: Run)
      requires Shape() && freeRunCount < MAX_FREE_RUNS
      modifies freeRuns, `freeRunCount
      ensures Shape() && Now() == old(Now()).(runs := old(Now()).runs + [run])
    {
      freeRuns[freeRunCount] := run;
      freeRunCount := freeRunCount + 1;
    }

    /** The absorption pass after the cursor has moved back. */
    method Absorb()
      requires Shape() && forall i :: 0 <= i < freeRunCount ==> freeRuns[i].page >= base
      modifies `used, `freeRunCount, freeRuns
      ensures Shape() && Now() == Absorbed(old(Now()))
    {
      hide FirstEndingAt, SwapRemove;
      for i := 0 to freeRunCount
        invariant forall k :: 0 <= k < i ==> freeRuns[k].End() != base + used
        invariant Shape() && Now() == old(Now())
      {
        var run := freeRuns[i];
        assert Now().runs[i] == run;
        if run.End() == base + used {
          FirstEndingAtIs(Now().runs, Now().Cursor(), i);
          used := used - run.count;
          RemoveRun(i);
          return;
        }
      }
      FirstEndingAtIs(Now().runs, Now().Cursor(), freeRunCount);
    }

    /** page_allocator_free_bytes: what is left is the extent less what is handed out. */
    method FreeByteCount() returns (bytes: int)
      requires Valid()
      ensures bytes == (size - |out|) * PAGE_SIZE
    {
      FreePagesExact(Now(), out);
      bytes := (size - used) * PAGE_SIZE;
      for i := 0 to freeRunCount
        invariant bytes == (size - used + RunTotal(Now().runs, i)) * PAGE_SIZE
      {
        bytes := bytes + freeRuns[i].count * PAGE_SIZE;
      }
    }

    method Reset()
      requires Valid()
      modifies this
      ensures Valid() && Now() == State(base, size, 0, []) && out == {}
    {
      used, freeRunCount, out := 0, 0, {};
    }
  }
}
