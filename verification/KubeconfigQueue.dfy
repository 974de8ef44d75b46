/**
 withKubeconfigWriteLock of app/electron/cluster-registration.ts: a promise chain per destination,
 and the registrations that run under it.

 A call enqueues itself synchronously, waits for the promise of the call before it, runs its
 operation (which may suspend between reading and writing), and releases. The promise a call
 leaves in the queue map settles some time after the call has released and its predecessor's
 promise has settled. Steps of different calls interleave freely. Calls on different destinations
 share the files: one may read a file that another replaces. Temporary files have names of their
 own, which no search path holds, and are left aside here.
 */
module KubeconfigQueue {
  import opened Common
  import opened KubeconfigMerge
  import opened KubeconfigTransaction

  /** What a call does: whether it accepts the files it reads, and what it makes of its destination. */
  datatype Operation = Operation(accepts: Files -> bool, merge: Document -> Document)

  datatype Phase =
    | Waiting
    | Running(read: Files)
    | Written(read: Files, faults: Faults)
    | Done(read: Files, faults: Faults)

  /** `previous` is the call whose queued promise this one awaits; `settled` is its own promise. */
  datatype Call = Call(dest: string, operation: Operation, previous: Option<nat>, phase: Phase, settled: bool)

  /** Calls in the order in which they were made, the queue map, and the files. */
  datatype State = State(calls: seq<Call>, queue: map<string, nat>, files: Files)

  datatype Step =
    | Enqueue(dest: string, operation: Operation)
    | Begin(i: nat)
    | Write(i: nat, f: Faults)
    | Release(i: nat)
    | Settle(i: nat)

  predicate PreviousSettled(s: State, c: Call) {
    c.previous.None? || (c.previous.value < |s.calls| && s.calls[c.previous.value].settled)
  }

  predicate Enabled(s: State, step: Step) {
    match step
    case Enqueue(_, _) => true
    case Begin(i) => i < |s.calls| && s.calls[i].phase.Waiting? && PreviousSettled(s, s.calls[i])
    case Write(i, _) => i < |s.calls| && s.calls[i].phase.Running?
    case Release(i) => i < |s.calls| && s.calls[i].phase.Written?
    case Settle(i) =>
      i < |s.calls| && s.calls[i].phase.Done? && !s.calls[i].settled && PreviousSettled(s, s.calls[i])
  }

  /** The destination has been replaced: the operation accepted what it read and the write got that far. */
  predicate Committed(c: Call) {
    (c.phase.Written? || c.phase.Done?) && c.operation.accepts(c.phase.read) && Replaces(c.phase.faults)
  }

  /** The call ends with an exception. */
  predicate Threw(c: Call) {
    (c.phase.Written? || c.phase.Done?) && (!c.operation.accepts(c.phase.read) || Throws(c.phase.faults))
  }

  function Apply(s: State, step: Step): State
    requires Enabled(s, step)
  {
    match step
    case Enqueue(d, op) =>
      var previous := if d in s.queue then Some(s.queue[d]) else None;
      s.(calls := s.calls + [Call(d, op, previous, Waiting, false)], queue := s.queue[d := |s.calls|])
    case Begin(i) =>
      s.(calls := s.calls[i := s.calls[i].(phase := Running(s.files))])
    case Write(i, f) =>
      var c := s.calls[i].(phase := Written(s.calls[i].phase.read, f));
      s.(calls := s.calls[i := c],
         files := if Committed(c) then s.files[c.dest := c.operation.merge(Contents(c.phase.read, c.dest))]
                  else s.files)
    case Release(i) =>
      var c := s.calls[i];
      s.(calls := s.calls[i := c.(phase := Done(c.phase.read, c.phase.faults))],
         queue := if c.dest in s.queue && s.queue[c.dest] == i then s.queue - {c.dest} else s.queue)
    case Settle(i) =>
      s.(calls := s.calls[i := s.calls[i].(settled := true)])
  }

  function Start(files: Files): State {
    State([], map[], files)
  }

  /** The state that a sequence of steps leads to, if each is possible when it is taken. */
  function Execute(files: Files, steps: seq<Step>): Option<State> {
    if steps == [] then Some(Start(files))
    else
      var before, last := Execute(files, steps[..|steps| - 1]), steps[|steps| - 1];
      if before.Some? && Enabled(before.value, last) then Some(Apply(before.value, last)) else None
  }

  /** States reached from the given files by any interleaving of steps. */
  ghost predicate Reaches(files: Files, steps: seq<Step>, s: State) {
    Execute(files, steps) == Some(s)
  }

  // ----- The sequential account -------------------------------------------------------------

  /** The destination after the first n calls, run one after another. */
  function Fold(calls: seq<Call>, dest: string, initial: Document, n: nat): Document
    requires n <= |calls|
  {
    if n == 0 then initial
    else
      var sofar := Fold(calls, dest, initial, n - 1);
      if calls[n - 1].dest == dest && Committed(calls[n - 1]) then calls[n - 1].operation.merge(sofar) else sofar
  }

  lemma {:induction false} FoldAgrees(a: seq<Call>, b: seq<Call>, dest: string, initial: Document, n: nat)
    requires n <= |a| && n <= |b|
    requires forall i :: 0 <= i < n && (a[i].dest == dest || b[i].dest == dest) ==>
               a[i].dest == b[i].dest && a[i].operation == b[i].operation && Committed(a[i]) == Committed(b[i])
    ensures Fold(a, dest, initial, n) == Fold(b, dest, initial, n)
  {
    if n > 0 { FoldAgrees(a, b, dest, initial, n - 1); }
  }

  lemma {:induction false} FoldIdle(calls: seq<Call>, dest: string, initial: Document, m: nat, n: nat)
    requires m <= n <= |calls|
    requires forall i :: m <= i < n && calls[i].dest == dest ==> !Committed(calls[i])
    ensures Fold(calls, dest, initial, n) == Fold(calls, dest, initial, m)
  {
    if m < n { FoldIdle(calls, dest, initial, m, n - 1); }
  }

  // ----- The invariant ----------------------------------------------------------------------

  ghost predicate Finished(s: State, dest: string, n: nat)
    requires n <= |s.calls|
  {
    forall l :: 0 <= l < n && s.calls[l].dest == dest ==> s.calls[l].phase.Done?
  }

  /** Each call waits for the call made just before it on the same destination. */
  ghost predicate Chained(s: State) {
    forall j :: 0 <= j < |s.calls| ==>
      var c := s.calls[j];
      && (c.previous.None? ==> Finished(s, c.dest, j))
      && (c.previous.Some? ==>
            && c.previous.value < j && s.calls[c.previous.value].dest == c.dest
            && forall l :: c.previous.value < l < j ==> s.calls[l].dest != c.dest)
  }

  /** A settled promise, and a call that got past waiting, mean everything earlier has finished. */
  ghost predicate Ordered(s: State) {
    forall j :: 0 <= j < |s.calls| ==>
      && (s.calls[j].settled ==> Finished(s, s.calls[j].dest, j + 1))
      && (!s.calls[j].phase.Waiting? ==> Finished(s, s.calls[j].dest, j))
  }

  /** The map holds the last call on a destination until that call has finished. */
  ghost predicate QueueTracksLast(s: State) {
    && (forall d :: d in s.queue ==>
          && s.queue[d] < |s.calls| && s.calls[s.queue[d]].dest == d && !s.calls[s.queue[d]].phase.Done?
          && forall l :: s.queue[d] < l < |s.calls| ==> s.calls[l].dest != d)
    && (forall d :: d !in s.queue ==> Finished(s, d, |s.calls|))
  }

  ghost predicate FilesFolded(files: Files, s: State) {
    forall d :: Contents(s.files, d) == Fold(s.calls, d, Contents(files, d), |s.calls|)
  }

  ghost predicate ReadRight(files: Files, s: State, j: nat)
    requires j < |s.calls| && !s.calls[j].phase.Waiting?
  {
    var d := s.calls[j].dest;
    Contents(s.calls[j].phase.read, d) == Fold(s.calls, d, Contents(files, d), j)
  }

  /** Every call that got to read found its destination as its predecessors left it. */
  ghost predicate ReadsRight(files: Files, s: State) {
    forall j :: 0 <= j < |s.calls| && !s.calls[j].phase.Waiting? ==> ReadRight(files, s, j)
  }

  ghost predicate Inv(files: Files, s: State) {
    Chained(s) && Ordered(s) && QueueTracksLast(s) && FilesFolded(files, s) && ReadsRight(files, s)
  }

  /** A step other than Enqueue changes one call, never its destination, and never undoes Done. */
  ghost predicate OnlyAdvances(s: State, s': State, i: nat) {
    && i < |s.calls| == |s'.calls|
    && s'.calls[i].dest == s.calls[i].dest && s'.calls[i].previous == s.calls[i].previous
    && (s.calls[i].phase.Done? ==> s'.calls[i].phase.Done?)
    && forall l :: 0 <= l < |s.calls| && l != i ==> s'.calls[l] == s.calls[l]
  }

  lemma FinishedKept(s: State, s': State, i: nat, dest: string, n: nat)
    requires OnlyAdvances(s, s', i) && n <= |s.calls| && Finished(s, dest, n)
    ensures Finished(s', dest, n)
  {
  }

  /** A new call at the end leaves what the earlier ones have finished. */
  lemma FinishedExtends(s: State, s': State, dest: string, n: nat)
    requires n <= |s.calls| <= |s'.calls| && s'.calls[..|s.calls|] == s.calls
    ensures Finished(s', dest, n) <==> Finished(s, dest, n)
  {
    assert forall l :: 0 <= l < n ==> s'.calls[..|s.calls|][l] == s'.calls[l];
  }

  lemma EnqueueChained(s: State, s': State, d: string, op: Operation)
    requires Chained(s) && QueueTracksLast(s) && s' == Apply(s, Enqueue(d, op))
    ensures Chained(s')
  {
    assert s'.calls[..|s.calls|] == s.calls;
    forall j | 0 <= j < |s'.calls| ensures s'.calls[j].previous.None? ==> Finished(s', s'.calls[j].dest, j) {
      FinishedExtends(s, s', s'.calls[j].dest, j);
    }
  }

  lemma EnqueueOrdered(s: State, s': State, d: string, op: Operation)
    requires Ordered(s) && s' == Apply(s, Enqueue(d, op))
    ensures Ordered(s')
  {
    assert s'.calls[..|s.calls|] == s.calls;
    forall j | 0 <= j < |s.calls|
      ensures s.calls[j].settled ==> Finished(s', s.calls[j].dest, j + 1)
      ensures !s.calls[j].phase.Waiting? ==> Finished(s', s.calls[j].dest, j)
    {
      FinishedExtends(s, s', s.calls[j].dest, j + 1);
      FinishedExtends(s, s', s.calls[j].dest, j);
    }
  }

  lemma EnqueueTracked(s: State, s': State, d: string, op: Operation)
    requires QueueTracksLast(s) && s' == Apply(s, Enqueue(d, op))
    ensures QueueTracksLast(s')
  {
    assert s'.calls[..|s.calls|] == s.calls;
    forall dest | dest !in s'.queue ensures Finished(s', dest, |s'.calls|) {
      FinishedExtends(s, s', dest, |s.calls|);
    }
  }

  lemma EnqueueKept(s: State, s': State, d: string, op: Operation)
    requires Chained(s) && Ordered(s) && QueueTracksLast(s) && s' == Apply(s, Enqueue(d, op))
    ensures Chained(s') && Ordered(s') && QueueTracksLast(s')
  {
    EnqueueChained(s, s', d, op);
    EnqueueOrdered(s, s', d, op);
    EnqueueTracked(s, s', d, op);
  }

  lemma ChainedKept(s: State, s': State, i: nat)
    requires Chained(s) && OnlyAdvances(s, s', i)
    ensures Chained(s')
  {
    forall j | 0 <= j < |s.calls| && s.calls[j].previous.None? ensures Finished(s', s'.calls[j].dest, j) {
      FinishedKept(s, s', i, s.calls[j].dest, j);
    }
  }

  lemma OrderedKept(s: State, s': State, i: nat)
    requires Ordered(s) && OnlyAdvances(s, s', i)
    requires s'.calls[i].settled ==> s.calls[i].settled || Finished(s', s.calls[i].dest, i + 1)
    requires !s'.calls[i].phase.Waiting? ==> !s.calls[i].phase.Waiting? || Finished(s', s.calls[i].dest, i)
    ensures Ordered(s')
  {
    forall j | 0 <= j < |s.calls|
      ensures s'.calls[j].settled ==> Finished(s', s'.calls[j].dest, j + 1)
      ensures !s'.calls[j].phase.Waiting? ==> Finished(s', s'.calls[j].dest, j)
    {
      if s.calls[j].settled { FinishedKept(s, s', i, s.calls[j].dest, j + 1); }
      if !s.calls[j].phase.Waiting? { FinishedKept(s, s', i, s.calls[j].dest, j); }
    }
  }

  lemma QueueKept(s: State, s': State, i: nat)
    requires QueueTracksLast(s) && OnlyAdvances(s, s', i)
    requires s'.queue == s.queue && (s'.calls[i].phase.Done? ==> s.calls[i].phase.Done?)
    ensures QueueTracksLast(s')
  {
    forall d | d !in s.queue ensures Finished(s', d, |s.calls|) {
      FinishedKept(s, s', i, d, |s.calls|);
    }
  }

  /** What a call waits for is everything before it on the same destination. */
  lemma PredecessorsFinished(s: State, i: nat)
    requires Chained(s) && Ordered(s) && i < |s.calls| && PreviousSettled(s, s.calls[i])
    ensures Finished(s, s.calls[i].dest, i)
  {
    var c := s.calls[i];
    if c.previous.Some? {
      assert Finished(s, c.dest, c.previous.value + 1);
    }
  }

  lemma ReleaseKept(s: State, s': State, i: nat)
    requires Chained(s) && Ordered(s) && QueueTracksLast(s)
    requires Enabled(s, Release(i)) && s' == Apply(s, Release(i))
    ensures QueueTracksLast(s')
  {
    var d := s.calls[i].dest;
    forall dest | dest !in s'.queue ensures Finished(s', dest, |s.calls|) {
      if dest == d && d in s.queue {
        assert Finished(s, d, i);
      } else {
        FinishedKept(s, s', i, dest, |s.calls|);
      }
    }
  }

  lemma ControlKept(s: State, step: Step)
    requires Chained(s) && Ordered(s) && QueueTracksLast(s) && Enabled(s, step)
    ensures Chained(Apply(s, step)) && Ordered(Apply(s, step)) && QueueTracksLast(Apply(s, step))
  {
    var s' := Apply(s, step);
    if step.Enqueue? {
      EnqueueKept(s, s', step.dest, step.operation);
    } else {
      ChainedKept(s, s', step.i);
      if step.Begin? || step.Settle? {
        PredecessorsFinished(s, step.i);
        FinishedKept(s, s', step.i, s.calls[step.i].dest, step.i);
      }
      OrderedKept(s, s', step.i);
      if step.Release? { ReleaseKept(s, s', step.i); } else { QueueKept(s, s', step.i); }
    }
  }

  /** Only one call on a destination can be between reading and having finished. */
  lemma AloneInside(s: State, i: nat, j: nat)
    requires Ordered(s) && i < |s.calls| && j < |s.calls| && i != j && s.calls[i].dest == s.calls[j].dest
    requires s.calls[i].phase.Running? || s.calls[i].phase.Written?
    ensures j > i ==> s.calls[j].phase.Waiting?
    ensures j < i ==> s.calls[j].phase.Done?
  {
  }

  /** The calls before j on its destination are as they were, and so is what they fold to. */
  lemma ReadStaysRight(files: Files, s: State, s': State, j: nat)
    requires j < |s.calls| <= |s'.calls| && !s.calls[j].phase.Waiting? && ReadRight(files, s, j)
    requires !s'.calls[j].phase.Waiting? && s'.calls[j].dest == s.calls[j].dest
    requires s'.calls[j].phase.read == s.calls[j].phase.read
    requires forall l :: 0 <= l < j && (s.calls[l].dest == s.calls[j].dest || s'.calls[l].dest == s.calls[j].dest) ==>
               && s'.calls[l].dest == s.calls[l].dest && s'.calls[l].operation == s.calls[l].operation
               && Committed(s'.calls[l]) == Committed(s.calls[l])
    ensures ReadRight(files, s', j)
  {
    FoldAgrees(s.calls, s'.calls, s.calls[j].dest, Contents(files, s.calls[j].dest), j);
  }

  /** A call that begins reads what all calls have left, which is what the earlier ones left. */
  lemma BeginReadsRight(files: Files, s: State, i: nat)
    requires Ordered(s) && FilesFolded(files, s) && Enabled(s, Begin(i))
    ensures ReadRight(files, Apply(s, Begin(i)), i)
  {
    var s', d := Apply(s, Begin(i)), s.calls[i].dest;
    forall j | i <= j < |s.calls| && s.calls[j].dest == d ensures !Committed(s.calls[j]) {
      if !s.calls[j].phase.Waiting? { assert Finished(s, d, j); }
    }
    FoldIdle(s.calls, d, Contents(files, d), i, |s.calls|);
    FoldAgrees(s.calls, s'.calls, d, Contents(files, d), i);
  }

  /** A call that writes has no call after it on its destination that got to read. */
  lemma NoneCommitsBefore(s: State, i: nat, j: nat)
    requires Ordered(s) && i < |s.calls| && s.calls[i].phase.Running? && j < |s.calls| && !s.calls[j].phase.Waiting?
    ensures j <= i || s.calls[i].dest != s.calls[j].dest
  {
    if s.calls[i].dest == s.calls[j].dest && i != j { AloneInside(s, i, j); }
  }

  lemma ReadsKept(files: Files, s: State, step: Step)
    requires Ordered(s) && FilesFolded(files, s) && ReadsRight(files, s) && Enabled(s, step)
    ensures ReadsRight(files, Apply(s, step))
  {
    var s' := Apply(s, step);
    forall j | 0 <= j < |s'.calls| && !s'.calls[j].phase.Waiting? ensures ReadRight(files, s', j) {
      if step == Begin(j) {
        BeginReadsRight(files, s, j);
      } else {
        assert ReadRight(files, s, j);
        if step.Write? { NoneCommitsBefore(s, step.i, j); }
        ReadStaysRight(files, s, s', j);
      }
    }
  }

  /** Steps that commit nothing leave the sequential account alone. */
  lemma FoldUntouched(s: State, s': State, files: Files)
    requires |s.calls| <= |s'.calls|
    requires forall j :: 0 <= j < |s.calls| ==>
               && s'.calls[j].dest == s.calls[j].dest && s'.calls[j].operation == s.calls[j].operation
               && Committed(s'.calls[j]) == Committed(s.calls[j])
    requires forall j :: |s.calls| <= j < |s'.calls| ==> !Committed(s'.calls[j])
    requires s'.files == s.files && FilesFolded(files, s)
    ensures FilesFolded(files, s')
  {
    forall d ensures Contents(s'.files, d) == Fold(s'.calls, d, Contents(files, d), |s'.calls|) {
      FoldAgrees(s.calls, s'.calls, d, Contents(files, d), |s.calls|);
      FoldIdle(s'.calls, d, Contents(files, d), |s.calls|, |s'.calls|);
    }
  }

  /** The committing call is the last one to count, and it builds on what its predecessors left. */
  lemma CommitOnDestination(files: Files, s: State, i: nat, f: Faults)
    requires Ordered(s) && ReadsRight(files, s) && Enabled(s, Write(i, f)) && Committed(Apply(s, Write(i, f)).calls[i])
    ensures var s', d := Apply(s, Write(i, f)), s.calls[i].dest;
            Contents(s'.files, d) == Fold(s'.calls, d, Contents(files, d), |s.calls|)
  {
    var s', d, n := Apply(s, Write(i, f)), s.calls[i].dest, |s.calls|;
    assert ReadRight(files, s, i);
    forall j | i < j < n && s'.calls[j].dest == d ensures !Committed(s'.calls[j]) { AloneInside(s, i, j); }
    FoldOne(s.calls, s'.calls, d, Contents(files, d), i);
  }

  lemma FoldOne(a: seq<Call>, b: seq<Call>, dest: string, initial: Document, i: nat)
    requires i < |a| == |b| && b == a[i := b[i]] && b[i].dest == dest && Committed(b[i])
    requires forall j :: i < j < |b| && b[j].dest == dest ==> !Committed(b[j])
    ensures Fold(b, dest, initial, |b|) == b[i].operation.merge(Fold(a, dest, initial, i))
  {
    FoldIdle(b, dest, initial, i + 1, |b|);
    FoldAgrees(a, b, dest, initial, i);
  }

  lemma CommitFolded(files: Files, s: State, i: nat, f: Faults)
    requires Ordered(s) && ReadsRight(files, s) && FilesFolded(files, s)
    requires Enabled(s, Write(i, f)) && Committed(Apply(s, Write(i, f)).calls[i])
    ensures FilesFolded(files, Apply(s, Write(i, f)))
  {
    var s', d := Apply(s, Write(i, f)), s.calls[i].dest;
    CommitOnDestination(files, s, i, f);
    forall e | e != d ensures Contents(s'.files, e) == Fold(s'.calls, e, Contents(files, e), |s.calls|) {
      FoldAgrees(s.calls, s'.calls, e, Contents(files, e), |s.calls|);
    }
  }

  lemma InvKept(files: Files, s: State, step: Step)
    requires Inv(files, s) && Enabled(s, step)
    ensures Inv(files, Apply(s, step))
  {
    ControlKept(s, step);
    ReadsKept(files, s, step);
    if step.Write? && Committed(Apply(s, step).calls[step.i]) {
      CommitFolded(files, s, step.i, step.f);
    } else {
      FoldUntouched(s, Apply(s, step), files);
    }
  }

  lemma {:induction false} InvReached(files: Files, steps: seq<Step>, s: State)
    requires Reaches(files, steps, s)
    ensures Inv(files, s)
  {
    if steps != [] {
      var before := Execute(files, steps[..|steps| - 1]).value;
      InvReached(files, steps[..|steps| - 1], before);
      InvKept(files, before, steps[|steps| - 1]);
    }
  }

  // ----- What every interleaving guarantees -------------------------------------------------

  /** Two calls on one destination never overlap, and they run in the order they were made. */
  lemma MutualExclusionInCallOrder(files: Files, steps: seq<Step>, s: State, i: nat, j: nat)
    requires Reaches(files, steps, s) && i < j < |s.calls| && s.calls[i].dest == s.calls[j].dest
    ensures s.calls[j].phase.Waiting? || s.calls[i].phase.Done?
  {
    InvReached(files, steps, s);
  }

  /**
   The destination holds exactly what the committed calls would have produced one after another
   in call order, and every call that got to read, whether it then succeeded or not, found there
   what the calls before it had left.
   */
  lemma ConcurrentEqualsSequential(files: Files, steps: seq<Step>, s: State, dest: string)
    requires Reaches(files, steps, s)
    ensures Contents(s.files, dest) == Fold(s.calls, dest, Contents(files, dest), |s.calls|)
    ensures forall j :: 0 <= j < |s.calls| && s.calls[j].dest == dest && !s.calls[j].phase.Waiting? ==>
              Contents(s.calls[j].phase.read, dest) == Fold(s.calls, dest, Contents(files, dest), j)
  {
    InvReached(files, steps, s);
    forall j | 0 <= j < |s.calls| && s.calls[j].dest == dest && !s.calls[j].phase.Waiting?
      ensures Contents(s.calls[j].phase.read, dest) == Fold(s.calls, dest, Contents(files, dest), j)
    {
      assert ReadRight(files, s, j);
    }
  }

  /** What a call read were the shared files at some moment of the run. */
  lemma {:induction false} ReadsAreMoments(files: Files, steps: seq<Step>, s: State, j: nat) returns (k: nat)
    requires Reaches(files, steps, s) && j < |s.calls| && !s.calls[j].phase.Waiting?
    ensures k <= |steps| && Execute(files, steps[..k]).Some?
    ensures Execute(files, steps[..k]).value.files == s.calls[j].phase.read
  {
    var n := |steps| - 1;
    var before := Execute(files, steps[..n]).value;
    k := n;
    if steps[n] != Begin(j) {
      k := ReadsAreMoments(files, steps[..n], before, j);
      assert steps[..n][..k] == steps[..k];
    }
  }

  /** The queue map has no entry for a destination exactly when all its calls have finished. */
  lemma QueueEmptiesWhenIdle(files: Files, steps: seq<Step>, s: State, dest: string)
    requires Reaches(files, steps, s)
    ensures dest !in s.queue <==> forall j :: 0 <= j < |s.calls| && s.calls[j].dest == dest ==> s.calls[j].phase.Done?
  {
    InvReached(files, steps, s);
  }

  lemma {:induction false} FirstUnsettled(calls: seq<Call>, i: nat) returns (k: nat)
    requires i < |calls| && !calls[i].settled
    ensures k <= i && !calls[k].settled && forall l :: 0 <= l < k ==> calls[l].settled
  {
    k := 0;
    while calls[k].settled
      invariant k <= i && forall l :: 0 <= l < k ==> calls[l].settled
      decreases i - k
    {
      k := k + 1;
    }
  }

  function NextStep(c: Call, k: nat): Step {
    match c.phase
    case Waiting => Begin(k)
    case Running(_) => Write(k, NO_FAULTS)
    case Written(_, _) => Release(k)
    case Done(_, _) => Settle(k)
  }

  lemma FirstCanStep(s: State, k: nat)
    requires Chained(s) && k < |s.calls| && !s.calls[k].settled
    requires forall l :: 0 <= l < k ==> s.calls[l].settled
    ensures Enabled(s, NextStep(s.calls[k], k))
  {
    assert PreviousSettled(s, s.calls[k]);
  }

  /** No call is ever stuck: while one has not settled, some step of a call can be taken. */
  lemma AlwaysSomeStep(files: Files, steps: seq<Step>, s: State, i: nat)
    requires Reaches(files, steps, s) && i < |s.calls| && !s.calls[i].settled
    ensures exists step: Step :: !step.Enqueue? && Enabled(s, step)
  {
    InvReached(files, steps, s);
    var k := FirstUnsettled(s.calls, i);
    FirstCanStep(s, k);
  }

  /** How many steps a call has left. */
  function Remaining(c: Call): nat {
    match c.phase
    case Waiting => 4
    case Running(_) => 3
    case Written(_, _) => 2
    case Done(_, _) => if c.settled then 0 else 1
  }

  function Work(calls: seq<Call>): nat {
    if calls == [] then 0 else Work(calls[..|calls| - 1]) + Remaining(calls[|calls| - 1])
  }

  lemma {:induction false} WorkUpdate(calls: seq<Call>, i: nat, c: Call)
    requires i < |calls|
    ensures Work(calls[i := c]) == Work(calls) - Remaining(calls[i]) + Remaining(c)
  {
    var last := |calls| - 1;
    if i < last {
      WorkUpdate(calls[..last], i, c);
      assert calls[i := c][..last] == calls[..last][i := c];
    } else {
      assert calls[i := c][..last] == calls[..last];
    }
  }

  lemma StepShrinks(s: State, step: Step)
    requires !step.Enqueue? && Enabled(s, step)
    requires s.calls[step.i].settled ==> s.calls[step.i].phase.Done?
    ensures Work(Apply(s, step).calls) == Work(s.calls) - 1
  {
    WorkUpdate(s.calls, step.i, Apply(s, step).calls[step.i]);
  }

  lemma SettledIsDone(files: Files, steps: seq<Step>, s: State, i: nat)
    requires Reaches(files, steps, s) && i < |s.calls| && s.calls[i].settled
    ensures s.calls[i].phase.Done?
  {
    InvReached(files, steps, s);
    assert Finished(s, s.calls[i].dest, i + 1);
  }

  /** With AlwaysSomeStep: once calls stop arriving, every one of them finishes. */
  lemma StepsRunOut(files: Files, steps: seq<Step>, s: State, step: Step)
    requires Reaches(files, steps, s) && !step.Enqueue? && Enabled(s, step)
    ensures Work(Apply(s, step).calls) == Work(s.calls) - 1
  {
    if s.calls[step.i].settled { SettledIsDone(files, steps, s, step.i); }
    StepShrinks(s, step);
  }

  // ----- Registrations ----------------------------------------------------------------------

  /** The arguments of mergeKubeconfigTransaction; the first path is the destination. */
  datatype Job = Job(paths: seq<string>, generated: Document)

  /** The transaction as an operation under the lock. */
  ghost function Registration(job: Job): Operation
    requires job.paths != []
  {
    Operation((fs: Files) => TransactionOutcome(fs, job.paths, job.generated).Success?,
              (d: Document) =>
                if MergeOutcome(d, job.generated).Success? then Parsed(MergeOutcome(d, job.generated).value) else d)
  }

  ghost predicate Runs(c: Call, job: Job) {
    job.paths != [] && c.dest == job.paths[0] && c.operation == Registration(job)
  }

  /** mergeKubeconfig of one call's generated config into a document. */
  ghost function MergeJob(jobs: seq<Job>): (nat, Document) -> Result<Document, Error> {
    (j: nat, d: Document) =>
      if j >= |jobs| then Success(d)
      else if MergeOutcome(d, jobs[j].generated).Success? then Success(Parsed(MergeOutcome(d, jobs[j].generated).value))
      else Failure(MergeOutcome(d, jobs[j].generated).error)
  }

  /** Merges, one after another, of the calls that committed on a destination, up to the first that fails. */
  ghost function InOrder(calls: seq<Call>, merge: (nat, Document) -> Result<Document, Error>, dest: string,
                         initial: Document, n: nat)
    : Result<Document, Error>
    requires n <= |calls|
  {
    if n == 0 then Success(initial)
    else
      var sofar := InOrder(calls, merge, dest, initial, n - 1);
      if sofar.Failure? || calls[n - 1].dest != dest || !Committed(calls[n - 1])
      then sofar else merge(n - 1, sofar.value)
  }

  lemma {:induction false} InOrderIsFold(calls: seq<Call>, merge: (nat, Document) -> Result<Document, Error>,
                                         dest: string, initial: Document, n: nat)
    requires n <= |calls|
    requires forall j :: 0 <= j < n && calls[j].dest == dest && Committed(calls[j]) ==>
               merge(j, Fold(calls, dest, initial, j))
               == Success(calls[j].operation.merge(Fold(calls, dest, initial, j)))
    ensures InOrder(calls, merge, dest, initial, n) == Success(Fold(calls, dest, initial, n))
  {
    if n > 0 { InOrderIsFold(calls, merge, dest, initial, n - 1); }
  }

  /** A committed call's merge is mergeKubeconfig, and it succeeds. */
  lemma CommittedMerges(c: Call, jobs: seq<Job>, j: nat, sofar: Document)
    requires j < |jobs| && Runs(c, jobs[j]) && Committed(c) && Contents(c.phase.read, c.dest) == sofar
    ensures MergeJob(jobs)(j, sofar) == Success(c.operation.merge(sofar))
  {
    assert TransactionOutcome(c.phase.read, jobs[j].paths, jobs[j].generated).Success?;
    assert MergeOutcome(sofar, jobs[j].generated).Success?;
  }

  lemma MergesAreFold(files: Files, s: State, jobs: seq<Job>, dest: string, n: nat)
    requires n <= |s.calls| == |jobs| && ReadsRight(files, s) && forall j :: 0 <= j < |jobs| ==>
              Runs(s.calls[j], jobs[j])
    ensures InOrder(s.calls, MergeJob(jobs), dest, Contents(files, dest), n)
         == Success(Fold(s.calls, dest, Contents(files, dest), n))
  {
    forall j | 0 <= j < n && s.calls[j].dest == dest && Committed(s.calls[j])
      ensures MergeJob(jobs)(j, Fold(s.calls, dest, Contents(files, dest), j))
           == Success(s.calls[j].operation.merge(Fold(s.calls, dest, Contents(files, dest), j)))
    {
      assert ReadRight(files, s, j);
      CommittedMerges(s.calls[j], jobs, j, Fold(s.calls, dest, Contents(files, dest), j));
    }
    InOrderIsFold(s.calls, MergeJob(jobs), dest, Contents(files, dest), n);
  }

  /**
   Concurrent registrations, each with its own search path over the shared files: the destination
   ends up as mergeKubeconfig of the committed configs one after another in call order, none of
   which fails; a call commits exactly when its transaction succeeds on the shared files of some
   moment, in which its destination is what the calls before it left, and the write gets through.
   */
  lemma RegistrationsEqualSequentialMerges(files: Files, steps: seq<Step>, s: State, jobs: seq<Job>, dest: string)
    requires Reaches(files, steps, s) && |jobs| == |s.calls| && forall j :: 0 <= j < |jobs| ==>
              Runs(s.calls[j], jobs[j])
    ensures InOrder(s.calls, MergeJob(jobs), dest, Contents(files, dest), |s.calls|) == Success(Contents(s.files, dest))
    ensures forall j :: 0 <= j < |s.calls| && s.calls[j].dest == dest && s.calls[j].phase.Done? ==>
              var read := s.calls[j].phase.read;
              && (exists k :: 0 <= k <= |steps| && FilesAt(files, steps, k, read))
              && InOrder(s.calls, MergeJob(jobs), dest, Contents(files, dest), j) == Success(Contents(read, dest))
              && jobs[j].paths != []
              && (Committed(s.calls[j]) <==>
                    && TransactionOutcome(read, jobs[j].paths, jobs[j].generated).Success?
                    && Replaces(s.calls[j].phase.faults))
  {
    InvReached(files, steps, s);
    MergesAreFold(files, s, jobs, dest, |s.calls|);
    forall j | 0 <= j < |s.calls| && s.calls[j].dest == dest && s.calls[j].phase.Done?
      ensures exists k :: 0 <= k <= |steps| && FilesAt(files, steps, k, s.calls[j].phase.read)
      ensures InOrder(s.calls, MergeJob(jobs), dest, Contents(files, dest), j)
           == Success(Contents(s.calls[j].phase.read, dest))
    {
      var k := ReadsAreMoments(files, steps, s, j);
      assert FilesAt(files, steps, k, s.calls[j].phase.read);
      assert ReadRight(files, s, j);
      MergesAreFold(files, s, jobs, dest, j);
    }
    assert forall j :: 0 <= j < |jobs| ==> Runs(s.calls[j], jobs[j]);
  }

  ghost predicate FilesAt(files: Files, steps: seq<Step>, k: int, fs: Files) {
    0 <= k <= |steps| && Execute(files, steps[..k]).Some? && Execute(files, steps[..k]).value.files == fs
  }

  // ----- Calls that throw -------------------------------------------------------------------

  predicate Succeeded(c: Call) {
    (c.phase.Written? || c.phase.Done?) && !Threw(c)
  }

  /** The destination after the calls that did not throw, run one after another. */
  function SuccessesInOrder(calls: seq<Call>, dest: string, initial: Document, n: nat): Document
    requires n <= |calls|
  {
    if n == 0 then initial
    else
      var sofar := SuccessesInOrder(calls, dest, initial, n - 1);
      if calls[n - 1].dest == dest && Succeeded(calls[n - 1]) then calls[n - 1].operation.merge(sofar) else sofar
  }

  lemma {:induction false} SuccessesAreFold(calls: seq<Call>, dest: string, initial: Document, n: nat)
    requires n <= |calls| && forall j :: 0 <= j < n && calls[j].dest == dest ==>
              (Committed(calls[j]) <==> Succeeded(calls[j]))
    ensures SuccessesInOrder(calls, dest, initial, n) == Fold(calls, dest, initial, n)
  {
    if n > 0 { SuccessesAreFold(calls, dest, initial, n - 1); }
  }

  /** No removal of a temporary file threw after its file was replaced. */
  ghost predicate RemovalsHarmless(calls: seq<Call>, dest: string) {
    forall j :: 0 <= j < |calls| && calls[j].dest == dest && Committed(calls[j]) ==> !calls[j].phase.faults.remove
  }

  /**
   Calls that threw have changed nothing, and the destination is the fold of the calls that did
   not throw, if and only if no removal of a temporary file threw after its file was replaced.
   */
  lemma FailedCallsChangeNothingExactlyWhen(files: Files, steps: seq<Step>, s: State, dest: string)
    requires Reaches(files, steps, s)
    ensures RemovalsHarmless(s.calls, dest) <==>
            forall j :: 0 <= j < |s.calls| && s.calls[j].dest == dest && Threw(s.calls[j]) ==> !Committed(s.calls[j])
    ensures RemovalsHarmless(s.calls, dest) ==>
              Contents(s.files, dest) == SuccessesInOrder(s.calls, dest, Contents(files, dest), |s.calls|)
  {
    ConcurrentEqualsSequential(files, steps, s, dest);
    if RemovalsHarmless(s.calls, dest) {
      SuccessesAreFold(s.calls, dest, Contents(files, dest), |s.calls|);
    }
  }

  /** Such a run: the call throws, and the file is the merged one. */
  lemma ThrowingCallThatCommitted(dest: string, operation: Operation)
    requires operation.accepts(map[])
    ensures var steps := [Enqueue(dest, operation)] + [Begin(0)] + [Write(0, Faults(None, false, true))];
            var s := Execute(map[], steps);
            s.Some? && Threw(s.value.calls[0]) && s.value.files == map[dest := operation.merge(Blank)]
  {
    var e := [Enqueue(dest, operation)];
    var b := e + [Begin(0)];
    var w := b + [Write(0, Faults(None, false, true))];
    assert e[..0] == [] && b[..1] == e && w[..2] == b;
    assert Execute(map[], e).Some? && Execute(map[], b).Some?;
  }
}
