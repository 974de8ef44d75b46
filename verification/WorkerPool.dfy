/**
 mapWithConcurrency of frontend/scripts/precompress-build.ts: workers that share one counter and
 fill one result array. Between two awaits a worker runs alone, so a step is either one pass
 through the claim at the head of the loop or the settling of one awaited call.
 */
module WorkerPool {
  import opened Common

  datatype Outcome<R> = Pending | Value(value: R) | Rejected

  /** One call of the worker function. */
  datatype Call<T, R> = Call(worker: nat, index: nat, item: T, outcome: Outcome<R>)

  datatype Worker = AtLoopHead | Awaiting(index: nat) | Returned | Failed(at: nat)

  /** `calls` is the history of worker calls, oldest first. */
  datatype State<T, R> = State(next: nat, results: seq<Option<R>>, workers: seq<Worker>, calls: seq<Call<T, R>>)

  datatype Step<R> = Claim(w: nat) | Settle(w: nat, outcome: Outcome<R>)

  /** What the caller of mapWithConcurrency sees. */
  datatype Answer<R> = Unsettled | Resolved(results: seq<Option<R>>) | RejectedCall

  const DEFAULT_MAX_CONCURRENCY := 4

  /** normalizedConcurrency; None stands for undefined and for a number that is not an integer. */
  function NormalizedConcurrency(max: Option<int>): (r: int)
    ensures r >= 1
    ensures max.Some? && max.value >= 1 ==> r == max.value
    ensures max.None? || max.value < 1 ==> r == 4
  {
    if max.None? || max.value == 0 || max.value < 1 then DEFAULT_MAX_CONCURRENCY else max.value
  }

  /** The length of Array.from({ length: Math.min(maxConcurrency, items.length) }). */
  function WorkerCount(max: int, n: nat): nat {
    if max <= 0 then 0 else if max < n then max else n
  }

  function Start<T, R>(items: seq<T>, max: int): State<T, R> {
    State(0, seq(|items|, _ => None), seq(WorkerCount(max, |items|), _ => AtLoopHead), [])
  }

  predicate Enabled<T, R>(s: State<T, R>, step: Step<R>) {
    && step.w < |s.workers|
    && match step
       case Claim(w) => s.workers[w].AtLoopHead?
       case Settle(w, outcome) => s.workers[w].Awaiting? && s.workers[w].index < |s.results|
                                  && s.workers[w].index < |s.calls| && !outcome.Pending?
  }

  function Apply<T, R>(items: seq<T>, s: State<T, R>, step: Step<R>): State<T, R>
    requires Enabled(s, step)
  {
    match step
    case Claim(w) =>
      if s.next >= |items| then s.(next := s.next + 1, workers := s.workers[w := Returned])
      else State(s.next + 1, s.results, s.workers[w := Awaiting(s.next)],
                 s.calls + [Call(w, s.next, items[s.next], Pending)])
    case Settle(w, outcome) =>
      var i := s.workers[w].index;
      var calls := s.calls[i := s.calls[i].(outcome := outcome)];
      if outcome.Value? then
        s.(results := s.results[i := Some(outcome.value)],
           workers := s.workers[w := AtLoopHead], calls := calls)
      else s.(workers := s.workers[w := Failed(i)], calls := calls)
  }

  /** The state after a run, or None where a step was not possible. */
  function Execute<T, R>(items: seq<T>, max: int, steps: seq<Step<R>>): Option<State<T, R>> {
    if steps == [] then Some(Start(items, max))
    else
      var before := Execute(items, max, steps[..|steps| - 1]);
      var step := steps[|steps| - 1];
      if before.None? || !Enabled(before.value, step) then None
      else Some(Apply(items, before.value, step))
  }

  /** An empty list answers at once; otherwise Promise.all over the workers decides. */
  function AnswerOf<T, R>(s: State<T, R>): Answer<R> {
    if s.results == [] then Resolved([])
    else if exists w :: 0 <= w < |s.workers| && s.workers[w].Failed? then RejectedCall
    else if forall w :: 0 <= w < |s.workers| ==> s.workers[w].Returned? then Resolved(s.results)
    else Unsettled
  }

  // ----- The invariant ----------------------------------------------------------------------

  /** Every call made so far is for the next item in turn, and the slots hold what the calls gave. */
  ghost predicate CallsFit<T, R>(items: seq<T>, s: State<T, R>) {
    && |s.results| == |items|
    && |s.calls| == (if s.next < |items| then s.next else |items|)
    && (forall i :: 0 <= i < |s.calls| ==> s.calls[i].index == i && s.calls[i].item == items[i])
    && (forall i :: 0 <= i < |items| ==>
          s.results[i] == if i < |s.calls| && s.calls[i].outcome.Value? then Some(s.calls[i].outcome.value) else None)
  }

  /** Workers and unsettled calls belong to each other. */
  ghost predicate WorkersFit<T, R>(items: seq<T>, s: State<T, R>) {
    && (forall i :: 0 <= i < |s.calls| ==> s.calls[i].worker < |s.workers|)
    && (forall i :: 0 <= i < |s.calls| && s.calls[i].outcome.Pending? ==> s.workers[s.calls[i].worker] == Awaiting(i))
    && (forall i :: 0 <= i < |s.calls| && s.calls[i].outcome.Rejected? ==> s.workers[s.calls[i].worker] == Failed(i))
    && (forall w :: 0 <= w < |s.workers| && s.workers[w].Awaiting? ==>
          && s.workers[w].index < |s.calls| && s.calls[s.workers[w].index].worker == w
          && s.calls[s.workers[w].index].outcome.Pending?)
    && (forall w :: 0 <= w < |s.workers| && s.workers[w].Failed? ==>
          && s.workers[w].at < |s.calls| && s.calls[s.workers[w].at].worker == w
          && s.calls[s.workers[w].at].outcome.Rejected?)
    && (forall w :: 0 <= w < |s.workers| && s.workers[w].Returned? ==> s.next >= |items|)
  }

  lemma StepKeepsCalls<T, R>(items: seq<T>, s: State<T, R>, step: Step<R>)
    requires CallsFit(items, s) && WorkersFit(items, s) && Enabled(s, step)
    ensures CallsFit(items, Apply(items, s, step))
  {
  }

  lemma ClaimKeepsWorkers<T, R>(items: seq<T>, s: State<T, R>, w: nat)
    requires CallsFit(items, s) && WorkersFit(items, s) && Enabled(s, Claim(w))
    ensures WorkersFit(items, Apply(items, s, Claim(w)))
  {
  }

  lemma SettleKeepsWorkers<T, R>(items: seq<T>, s: State<T, R>, w: nat, outcome: Outcome<R>)
    requires CallsFit(items, s) && WorkersFit(items, s) && Enabled(s, Settle(w, outcome))
    ensures WorkersFit(items, Apply(items, s, Settle(w, outcome)))
  {
  }

  lemma {:induction false} RunKeepsFit<T, R>(items: seq<T>, max: int, steps: seq<Step<R>>)
    requires Execute<T, R>(items, max, steps).Some?
    ensures var s := Execute<T, R>(items, max, steps).value;
            CallsFit(items, s) && WorkersFit(items, s) && |s.workers| == WorkerCount(max, |items|)
  {
    if steps != [] {
      RunKeepsFit(items, max, steps[..|steps| - 1]);
      var before := Execute(items, max, steps[..|steps| - 1]).value;
      StepKeepsCalls(items, before, steps[|steps| - 1]);
      match steps[|steps| - 1]
      case Claim(w) => ClaimKeepsWorkers(items, before, w);
      case Settle(w, outcome) => SettleKeepsWorkers(items, before, w, outcome);
    }
  }

  // ----- At every moment --------------------------------------------------------------------

  ghost function InFlight<T, R>(s: State<T, R>): set<nat> {
    set i: nat | i < |s.calls| && s.calls[i].outcome.Pending? :: i
  }

  /** As many indices as workers can be mapped into distinct workers. */
  lemma {:induction false} DistinctWorkersBound(pending: set<nat>, owner: nat -> nat, k: nat)
    requires forall i :: i in pending ==> owner(i) < k
    requires forall i, j :: i in pending && j in pending && owner(i) == owner(j) ==> i == j
    ensures |pending| <= k
    decreases k
  {
    if pending != {} {
      if j :| j in pending && owner(j) == k - 1 {
        DistinctWorkersBound(pending - {j}, owner, k - 1);
      } else {
        var i :| i in pending;
        assert owner(i) < k && owner(i) != k - 1;
        DistinctWorkersBound(pending, owner, k - 1);
      }
    }
  }

  /**
   In every reachable state: no index is handed to two calls, each call gets the item at its
   index, and no more calls are unsettled than min(maxConcurrency, items.length).
   */
  lemma PoolIsSafe<T, R>(items: seq<T>, max: int, steps: seq<Step<R>>)
    requires Execute<T, R>(items, max, steps).Some?
    ensures var s := Execute<T, R>(items, max, steps).value;
            && (forall a, b :: 0 <= a < b < |s.calls| ==> s.calls[a].index != s.calls[b].index)
            && (forall a :: 0 <= a < |s.calls| ==>
                  s.calls[a].index < |items| && s.calls[a].item == items[s.calls[a].index])
            && |InFlight(s)| <= |items| && (|InFlight(s)| > 0 ==> |InFlight(s)| <= max)
  {
    RunKeepsFit(items, max, steps);
    var s := Execute(items, max, steps).value;
    DistinctWorkersBound(InFlight(s), i => if 0 <= i < |s.calls| then s.calls[i].worker else 0, |s.workers|);
  }

  /** The claims of the first k workers, one each. */
  function FirstClaims<R>(k: nat): seq<Step<R>> {
    if k == 0 then [] else FirstClaims(k - 1) + [Claim(k - 1)]
  }

  ghost predicate Claimed<T, R>(items: seq<T>, max: int, s: State<T, R>, k: nat) {
    && |s.workers| == WorkerCount(max, |items|) && s.next == k == |s.calls|
    && (forall w :: 0 <= w < |s.workers| ==> (w >= k ==> s.workers[w].AtLoopHead?))
    && (forall i :: 0 <= i < k ==> s.calls[i].outcome.Pending?)
  }

  lemma {:induction false} FirstClaimsReach<T, R>(items: seq<T>, max: int, k: nat)
    requires k <= WorkerCount(max, |items|)
    ensures Execute<T, R>(items, max, FirstClaims(k)).Some?
    ensures Claimed(items, max, Execute<T, R>(items, max, FirstClaims(k)).value, k)
  {
    if k > 0 {
      FirstClaimsReach<T, R>(items, max, k - 1);
      assert FirstClaims<R>(k)[..|FirstClaims<R>(k)| - 1] == FirstClaims<R>(k - 1);
    }
  }

  /** The bound is reached: the pool can have as many calls unsettled as concurrency and items allow. */
  lemma PoolReachesItsLimit<T, R>(items: seq<T>, max: int)
    requires max >= 1
    ensures Execute<T, R>(items, max, FirstClaims(WorkerCount(max, |items|))).Some?
    ensures |InFlight(Execute<T, R>(items, max, FirstClaims(WorkerCount(max, |items|))).value)|
         == if max < |items| then max else |items|
  {
    var k := WorkerCount(max, |items|);
    FirstClaimsReach<T, R>(items, max, k);
    var s := Execute<T, R>(items, max, FirstClaims(k)).value;
    IndicesBelow(k);
    forall i: nat ensures i in InFlight(s) <==> i in Indices(k) {
      if i < k { assert s.calls[i].outcome.Pending?; }
    }
    assert InFlight(s) == Indices(k);
  }

  ghost function Indices(k: nat): set<nat> {
    if k == 0 then {} else Indices(k - 1) + {k - 1}
  }

  lemma {:induction false} IndicesBelow(k: nat)
    ensures |Indices(k)| == k && forall i: nat :: i in Indices(k) <==> i < k
  {
    if k > 0 { IndicesBelow(k - 1); }
  }

  // ----- Ending -----------------------------------------------------------------------------

  function Weight(w: Worker): nat {
    match w
    case AtLoopHead => 1
    case Awaiting(_) => 2
    case _ => 0
  }

  function WeightOf(ws: seq<Worker>): nat {
    if ws == [] then 0 else Weight(ws[0]) + WeightOf(ws[1..])
  }

  lemma {:induction false} WeightUpdate(ws: seq<Worker>, w: nat, v: Worker)
    requires w < |ws|
    ensures WeightOf(ws[w := v]) == WeightOf(ws) - Weight(ws[w]) + Weight(v)
  {
    if w > 0 {
      assert ws[w := v][1..] == ws[1..][w - 1 := v];
      WeightUpdate(ws[1..], w - 1, v);
    } else {
      assert ws[w := v][1..] == ws[1..];
    }
  }

  lemma {:induction false} WeightAtStart(k: nat)
    ensures WeightOf(seq(k, _ => AtLoopHead)) == k
  {
    if k > 0 {
      assert seq(k, _ => AtLoopHead)[1..] == seq(k - 1, _ => AtLoopHead);
      WeightAtStart(k - 1);
    }
  }

  /** What is left to do: three units per unclaimed item, one or two per busy worker. */
  function Left<T, R>(items: seq<T>, s: State<T, R>): int {
    3 * (|items| - |s.calls|) + WeightOf(s.workers)
  }

  lemma {:induction false} RunUsesUp<T, R>(items: seq<T>, max: int, steps: seq<Step<R>>)
    requires Execute<T, R>(items, max, steps).Some?
    ensures Left(items, Execute<T, R>(items, max, steps).value) + |steps| <= 3 * |items| + WorkerCount(max, |items|)
  {
    if steps == [] {
      WeightAtStart(WorkerCount(max, |items|));
    } else {
      var before := Execute(items, max, steps[..|steps| - 1]).value;
      var step := steps[|steps| - 1];
      RunUsesUp(items, max, steps[..|steps| - 1]);
      RunKeepsFit(items, max, steps[..|steps| - 1]);
      WeightUpdate(before.workers, step.w, Apply(items, before, step).workers[step.w]);
    }
  }

  /** No run is longer than this, so every pool ends once its calls settle. */
  lemma PoolEnds<T, R>(items: seq<T>, max: int, steps: seq<Step<R>>)
    requires Execute<T, R>(items, max, steps).Some?
    ensures |steps| <= 3 * |items| + WorkerCount(max, |items|)
  {
    RunKeepsFit(items, max, steps);
    RunUsesUp(items, max, steps);
  }

  ghost predicate Stuck<T, R(!new)>(s: State<T, R>) {
    forall step: Step<R> :: !Enabled(s, step)
  }

  lemma StuckWorkersAreDone<T, R(!new)>(items: seq<T>, s: State<T, R>)
    requires CallsFit(items, s) && WorkersFit(items, s) && Stuck(s)
    ensures forall w :: 0 <= w < |s.workers| ==> s.workers[w].Returned? || s.workers[w].Failed?
    ensures !AnswerOf(s).Unsettled?
  {
    forall w | 0 <= w < |s.workers| ensures s.workers[w].Returned? || s.workers[w].Failed? {
      assert !Enabled(s, Claim(w)) && !Enabled(s, Settle(w, Rejected));
    }
  }

  /** Every slot holds the value of the one call made for its item. */
  ghost predicate AllDelivered<T, R>(items: seq<T>, s: State<T, R>) {
    && |s.calls| == |s.results| == |items|
    && forall i :: 0 <= i < |items| ==>
         && s.calls[i].index == i && s.calls[i].item == items[i] && s.calls[i].outcome.Value?
         && s.results[i] == Some(s.calls[i].outcome.value)
  }

  /** Where the pool gives an answer, it rejects exactly when some call was rejected. */
  lemma RejectsExactlyForRejectedCalls<T, R>(items: seq<T>, max: int, steps: seq<Step<R>>)
    requires items != [] && Execute<T, R>(items, max, steps).Some?
    ensures var s := Execute<T, R>(items, max, steps).value;
            AnswerOf(s).RejectedCall? <==> exists i :: 0 <= i < |s.calls| && s.calls[i].outcome.Rejected?
  {
    RunKeepsFit(items, max, steps);
  }

  /**
   Whenever the pool resolves, it resolves with every item's own value, in every slot, if and only
   if there was anything to run it: with no items, or with a concurrency of at least one.
   */
  lemma ResolvesWithEveryValue<T, R>(items: seq<T>, max: int, steps: seq<Step<R>>)
    requires Execute<T, R>(items, max, steps).Some?
    requires AnswerOf(Execute<T, R>(items, max, steps).value).Resolved?
    ensures var s := Execute<T, R>(items, max, steps).value;
            && AnswerOf(s).results == s.results
            && (AllDelivered(items, s) <==> (items == [] || max >= 1))
  {
    RunKeepsFit(items, max, steps);
    var s := Execute(items, max, steps).value;
    if items != [] && max >= 1 {
      assert s.workers[0].Returned?;
      forall i | 0 <= i < |items| ensures s.calls[i].outcome.Value? {
        assert s.workers[s.calls[i].worker].Returned?;
      }
    } else if items != [] {
      assert |s.workers| == 0 && s.calls == [];
    }
  }

  /** What runPrecompressBuild gets: its pool always ends, with all values or with a rejected call. */
  lemma PrecompressPoolDelivers<T, R(!new)>(items: seq<T>, max: Option<int>, steps: seq<Step<R>>)
    requires var s := Execute<T, R>(items, NormalizedConcurrency(max), steps); s.Some? && Stuck(s.value)
    ensures var s := Execute<T, R>(items, NormalizedConcurrency(max), steps).value;
            if exists i :: 0 <= i < |s.calls| && s.calls[i].outcome.Rejected? then AnswerOf(s).RejectedCall?
            else AnswerOf(s) == Resolved(s.results) && AllDelivered(items, s)
  {
    var k := NormalizedConcurrency(max);
    RunKeepsFit(items, k, steps);
    var s := Execute(items, k, steps).value;
    StuckWorkersAreDone(items, s);
    if items != [] { RejectsExactlyForRejectedCalls(items, k, steps); }
    if !AnswerOf(s).RejectedCall? { ResolvesWithEveryValue(items, k, steps); }
  }

  /** One item and a concurrency of zero: the pool resolves at once, with an empty slot. */
  lemma ZeroConcurrencyDeliversNothing<T, R>(item: T)
    ensures var s := Execute<T, R>([item], 0, []);
            s.Some? && AnswerOf(s.value) == Resolved([None]) && !AllDelivered([item], s.value)
  {
    assert Start<T, R>([item], 0).results == [None];
  }
}
