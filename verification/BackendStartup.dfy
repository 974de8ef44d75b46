/**
 Start-up of the bundled backend in app/electron/main.ts: readiness generations, retries on later
 ports, child exits, and the two requests that hand the token and the port to the renderer.

 The event loop runs one handler at a time and drains its continuations before the next event,
 so a step is one event together with the code it releases.
 */
module BackendStartup {
  import opened Common

  /** How a readiness promise ended. */
  datatype Settlement = Pending | Resolved(child: nat) | Rejected

  datatype ReadyState = PendingState | ReadyState | FailedState

  /** A spawned server; `start` is the call of startServerIfNeeded that spawned it. */
  datatype Child = Child(start: nat, port: int, reported: bool, exited: bool, killed: bool)

  /** Where a call of startServerIfNeeded is; `spawned` are the ports of its children since the last full restart. */
  datatype Point =
    | Probing(from: int)
    | Spawning(port: int)
    | Awaiting(child: nat)
    | Failed(allocation: bool)
    | Finished

  datatype Start = Start(at: Point, spawned: seq<int>, retried: bool)

  datatype Request = Request(generation: nat, answered: bool)

  /** A message to the renderer: the generation it was awaited for, who resolved it, the port sent. */
  datatype Sent = Sent(generation: nat, child: nat, port: int)

  datatype State = State(
    generations: seq<Settlement>,
    readyState: ReadyState,
    credentials: bool,
    actualPort: int,
    children: seq<Child>,
    serverProcess: Option<nat>,
    ready: set<nat>,
    starts: seq<Start>,
    requests: seq<Request>,
    sent: seq<Sent>)

  /** The first port and MAX_PORT_ATTEMPTS. */
  datatype Range = Range(first: int, attempts: nat) {
    function Last(): int { first + attempts - 1 }
  }

  datatype Step =
    | StartServerIfNeeded
    | ChoosePort(t: nat, port: int)
    | NoPort(t: nat)
    | SpawnChild(t: nat)
    | SpawnFails(t: nat)
    | ReportReady(t: nat)
    | GiveUp(t: nat, timedOut: bool)
    | ChildExit(c: nat, addressInUse: bool)
    | RejectStartup(t: nat)
    | TerminateAndRetry(t: nat)
    | Ask
    | Answer(r: nat, fromMainFrame: bool)

  // ----- Steps ------------------------------------------------------------------------------

  function Current(s: State): int {
    |s.generations| - 1
  }

  /** resetBackendReady. */
  function Reset(s: State): State {
    s.(generations := s.generations + [Pending], readyState := PendingState)
  }

  /** Settling a promise a second time does nothing. */
  function Settle(s: State, how: Settlement): seq<Settlement> {
    if s.generations != [] && s.generations[Current(s)].Pending?
    then s.generations[Current(s) := how] else s.generations
  }

  /** The early return of startServerIfNeeded: a live child has already been announced. */
  predicate AlreadyRunning(s: State) {
    && s.credentials && s.serverProcess.Some? && s.serverProcess.value < |s.children|
    && !s.children[s.serverProcess.value].exited && !s.children[s.serverProcess.value].killed
  }

  predicate AtPoint(s: State, t: nat) {
    t < |s.starts| && !s.starts[t].at.Finished?
  }

  function Move(s: State, t: nat, at: Point): seq<Start>
    requires t < |s.starts|
  {
    s.starts[t := s.starts[t].(at := at)]
  }

  predicate Enabled(rg: Range, s: State, step: Step) {
    match step
    case StartServerIfNeeded => true
    case ChoosePort(t, port) => AtPoint(s, t) && s.starts[t].at.Probing? && s.starts[t].at.from <= port <= rg.Last()
    case NoPort(t) => AtPoint(s, t) && s.starts[t].at.Probing?
    case SpawnChild(t) => AtPoint(s, t) && s.starts[t].at.Spawning?
    case SpawnFails(t) => AtPoint(s, t) && s.starts[t].at.Spawning?
    case ReportReady(t) => AtPoint(s, t) && s.starts[t].at.Awaiting? && s.starts[t].at.child < |s.children|
                           && !s.children[s.starts[t].at.child].exited
    case GiveUp(t, _) => AtPoint(s, t) && s.starts[t].at.Awaiting? && s.starts[t].at.child < |s.children|
    case ChildExit(c, _) => c < |s.children| && !s.children[c].exited
    case RejectStartup(t) => AtPoint(s, t) && s.starts[t].at.Failed?
    case TerminateAndRetry(t) =>
      AtPoint(s, t) && s.starts[t].at.Failed? && s.starts[t].at.allocation && !s.starts[t].retried
    case Ask => s.generations != []
    case Answer(r, _) =>
      r < |s.requests| && !s.requests[r].answered && s.requests[r].generation < |s.generations|
      && !s.generations[s.requests[r].generation].Pending?
  }

  /** The start waiting for child c, if any, sees the exit: retry on the next port or give up. */
  function StartsAfterExit(s: State, c: nat, addressInUse: bool): seq<Start> {
    seq(|s.starts|, t requires 0 <= t < |s.starts| =>
      if s.starts[t].at == Awaiting(c)
      then s.starts[t].(at := if addressInUse then Probing(s.actualPort + 1) else Failed(false))
      else s.starts[t])
  }

  function Apply(rg: Range, s: State, step: Step): State
    requires Enabled(rg, s, step)
  {
    match step
    case StartServerIfNeeded =>
      if AlreadyRunning(s) then s
      else
        var s1 := if s.readyState.PendingState? then s else Reset(s);
        s1.(starts := s1.starts + [Start(Probing(rg.first), [], false)])
    case ChoosePort(t, port) => s.(actualPort := port, starts := Move(s, t, Spawning(port)))
    case NoPort(t) => s.(starts := Move(s, t, Failed(true)))
    case SpawnChild(t) =>
      var port := s.starts[t].at.port;
      s.(children := s.children + [Child(t, port, false, false, false)],
         serverProcess := Some(|s.children|),
         starts := s.starts[t := s.starts[t].(at := Awaiting(|s.children|), spawned := s.starts[t].spawned + [port])])
    case SpawnFails(t) => s.(starts := Move(s, t, Failed(false)))
    case ReportReady(t) =>
      var c := s.starts[t].at.child;
      s.(children := s.children[c := s.children[c].(reported := true)],
         ready := s.ready + {c}, credentials := true,
         generations := Settle(s, Resolved(c)), readyState := ReadyState,
         starts := Move(s, t, Finished))
    case GiveUp(t, timedOut) =>
      var c := s.starts[t].at.child;
      s.(children := s.children[c := s.children[c].(killed := timedOut || s.children[c].killed)],
         starts := Move(s, t, Failed(false)))
    case ChildExit(c, addressInUse) =>
      var s1 := s.(children := s.children[c := s.children[c].(exited := true)],
                   starts := StartsAfterExit(s, c, addressInUse));
      if s.serverProcess == Some(c) && c in s.ready then Reset(s1.(credentials := false)) else s1
    case RejectStartup(t) =>
      s.(credentials := false, generations := Settle(s, Rejected),
         readyState := FailedState, starts := Move(s, t, Finished))
    case TerminateAndRetry(t) =>
      s.(starts := s.starts[t := Start(Probing(rg.first), [], true)])
    case Ask => s.(requests := s.requests + [Request(Current(s), false)])
    case Answer(r, fromMainFrame) =>
      var g := s.requests[r].generation;
      var s1 := s.(requests := s.requests[r := s.requests[r].(answered := true)]);
      if s.generations[g].Resolved? && g == Current(s) && s.credentials && fromMainFrame
      then s1.(sent := s.sent + [Sent(g, s.generations[g].child, s.actualPort)])
      else s1
  }

  function Initial(rg: Range): State {
    State([Pending], PendingState, false, rg.first, [], None, {}, [], [], [])
  }

  function Execute(rg: Range, steps: seq<Step>): Option<State> {
    if steps == [] then Some(Initial(rg))
    else
      var before, last := Execute(rg, steps[..|steps| - 1]), steps[|steps| - 1];
      if before.Some? && Enabled(rg, before.value, last) then Some(Apply(rg, before.value, last)) else None
  }

  /** No start-up is in flight. */
  predicate Idle(s: State) {
    forall t :: 0 <= t < |s.starts| ==> s.starts[t].at.Finished?
  }

  predicate Serialized(rg: Range, steps: seq<Step>) {
    if steps == [] then true
    else
      var before := Execute(rg, steps[..|steps| - 1]);
      && Serialized(rg, steps[..|steps| - 1])
      && (steps[|steps| - 1].StartServerIfNeeded? && before.Some? ==> Idle(before.value))
  }

  // ----- Generations: every run -------------------------------------------------------------

  ghost predicate Inv(s: State) {
    && s.generations != []
    && (forall c :: c in s.ready ==> c < |s.children| && s.children[c].reported)
    && (forall g :: 0 <= g < |s.generations| && s.generations[g].Resolved? ==> s.generations[g].child in s.ready)
    && (forall t :: 0 <= t < |s.starts| && s.starts[t].at.Awaiting? ==> s.starts[t].at.child < |s.children|)
    && (forall r :: 0 <= r < |s.requests| ==> s.requests[r].generation < |s.generations|)
  }

  lemma InvStep(rg: Range, s: State, step: Step)
    requires Inv(s) && Enabled(rg, s, step)
    ensures Inv(Apply(rg, s, step))
  {
  }

  lemma {:induction false} InvReached(rg: Range, steps: seq<Step>)
    requires Execute(rg, steps).Some?
    ensures Inv(Execute(rg, steps).value)
  {
    if steps != [] {
      InvReached(rg, steps[..|steps| - 1]);
      InvStep(rg, Execute(rg, steps[..|steps| - 1]).value, steps[|steps| - 1]);
    }
  }

  /**
   In every run, overlapping starts included, a message is sent only to the main frame, while
   credentials are out, for a generation that is still current and that a child resolved after
   reporting readiness.
   */
  lemma SentOnlyForReadyCurrentGeneration(rg: Range, steps: seq<Step>, step: Step)
    requires Execute(rg, steps).Some? && Enabled(rg, Execute(rg, steps).value, step)
    requires Apply(rg, Execute(rg, steps).value, step).sent != Execute(rg, steps).value.sent
    ensures var s := Execute(rg, steps).value;
            && step.Answer? && Apply(rg, s, step).sent[..|s.sent|] == s.sent
            && |Apply(rg, s, step).sent| == |s.sent| + 1
            && var m := Apply(rg, s, step).sent[|s.sent|];
               && m.generation == s.requests[step.r].generation == Current(s)
               && s.generations[m.generation] == Resolved(m.child)
               && m.child < |s.children| && s.children[m.child].reported
               && step.fromMainFrame && s.credentials
  {
    InvReached(rg, steps);
  }

  /**
   And it is sent to every request that meets those conditions: the r-th request is answered with a
   message exactly when it comes from the main frame and the generation that was current when it was
   made is still current, resolved by a child, with credentials out.
   */
  lemma SentExactlyWhen(rg: Range, steps: seq<Step>, r: nat, fromMainFrame: bool) returns (k: nat)
    requires Execute(rg, steps).Some? && Enabled(rg, Execute(rg, steps).value, Answer(r, fromMainFrame))
    ensures k < |steps| && steps[k].Ask? && Execute(rg, steps[..k]).Some?
    ensures |Execute(rg, steps[..k]).value.requests| == r
    ensures var s, g := Execute(rg, steps).value, Current(Execute(rg, steps[..k]).value);
            && 0 <= g < |s.generations|
            && (Apply(rg, s, Answer(r, fromMainFrame)).sent != s.sent <==>
                  fromMainFrame && s.credentials && g == Current(s) && s.generations[g].Resolved?)
  {
    k := RequestMade(rg, steps, r);
  }

  /** A request awaits the generation that was current when it was made. */
  lemma {:induction false} RequestMade(rg: Range, steps: seq<Step>, r: nat) returns (k: nat)
    requires Execute(rg, steps).Some? && r < |Execute(rg, steps).value.requests|
    ensures k < |steps| && steps[k].Ask? && Execute(rg, steps[..k]).Some?
    ensures |Execute(rg, steps[..k]).value.requests| == r
    ensures Execute(rg, steps).value.requests[r].generation == Current(Execute(rg, steps[..k]).value)
  {
    var n := |steps| - 1;
    var before := Execute(rg, steps[..n]).value;
    RequestsAfter(rg, before, steps[n], r);
    if r < |before.requests| {
      k := RequestMade(rg, steps[..n], r);
      assert steps[..n][..k] == steps[..k];
    } else {
      InvReached(rg, steps[..n]);
      k := n;
    }
  }

  lemma RequestsAfter(rg: Range, s: State, step: Step, r: nat)
    requires Enabled(rg, s, step) && r < |Apply(rg, s, step).requests|
    ensures r < |s.requests| ==> Apply(rg, s, step).requests[r].generation == s.requests[r].generation
    ensures r >= |s.requests| ==>
              step.Ask? && r == |s.requests| && Apply(rg, s, step).requests[r].generation == Current(s)
  {
  }

  // ----- Credentials and starts: every run --------------------------------------------------

  /**
   Credentials are put out when a child reports, and withdrawn when a start-up is rejected or the
   child spawned last exits after it had reported.
   */
  predicate CredentialsOut(rg: Range, steps: seq<Step>)
    requires Execute(rg, steps).Some?
  {
    steps != [] &&
    var front, last := steps[..|steps| - 1], steps[|steps| - 1];
    var children := Execute(rg, front).value.children;
    match last
    case ReportReady(_) => true
    case RejectStartup(_) => false
    case ChildExit(c, _) => CredentialsOut(rg, front) && !(c == |children| - 1 && c >= 0 && children[c].reported)
    case _ => CredentialsOut(rg, front)
  }

  ghost predicate ReadyIsReported(s: State) {
    forall c :: 0 <= c < |s.children| ==> (c in s.ready <==> s.children[c].reported)
  }

  predicate StateFits(s: State) {
    s.generations != [] && (s.readyState.PendingState? <==> s.generations[Current(s)].Pending?)
  }

  lemma ReadyAfter(rg: Range, s: State, step: Step)
    requires Inv(s) && Enabled(rg, s, step) && ReadyIsReported(s)
    ensures ReadyIsReported(Apply(rg, s, step))
  {
  }

  lemma StateFitsAfter(rg: Range, s: State, step: Step)
    requires Enabled(rg, s, step) && StateFits(s)
    ensures StateFits(Apply(rg, s, step))
  {
  }

  lemma CredentialsAfter(rg: Range, s: State, step: Step)
    requires Inv(s) && ReadyIsReported(s) && LastSpawnedIsCurrent(s) && Enabled(rg, s, step)
    ensures Apply(rg, s, step).credentials ==
            match step
            case ReportReady(_) => true
            case RejectStartup(_) => false
            case ChildExit(c, _) => s.credentials && !(c == |s.children| - 1 && s.children[c].reported)
            case _ => s.credentials
  {
  }

  /** In every run credentials are out exactly then, and the state variable follows the generation. */
  lemma {:induction false} CredentialsExactly(rg: Range, steps: seq<Step>)
    requires Execute(rg, steps).Some?
    ensures Execute(rg, steps).value.credentials <==> CredentialsOut(rg, steps)
    ensures ReadyIsReported(Execute(rg, steps).value) && StateFits(Execute(rg, steps).value)
  {
    if steps != [] {
      var front, last := steps[..|steps| - 1], steps[|steps| - 1];
      var s := Execute(rg, front).value;
      CredentialsExactly(rg, front);
      InvReached(rg, front);
      CurrentChildReached(rg, front);
      ReadyAfter(rg, s, last);
      StateFitsAfter(rg, s, last);
      CredentialsAfter(rg, s, last);
    }
  }

  /** The child spawned last is there, neither exited nor killed. */
  predicate LastChildAlive(s: State) {
    s.children != [] && !s.children[|s.children| - 1].exited && !s.children[|s.children| - 1].killed
  }

  ghost predicate BeginsStart(rg: Range, s: State, s': State) {
    && s.generations != [] && |s'.starts| == |s.starts| + 1 && s'.starts[..|s.starts|] == s.starts
    && s'.generations == s.generations + (if s.generations[Current(s)].Pending? then [] else [Pending])
    && forall port :: Enabled(rg, s', ChoosePort(|s.starts|, port)) <==> rg.first <= port <= rg.Last()
  }

  lemma StartEffect(rg: Range, s: State)
    requires StateFits(s) && LastSpawnedIsCurrent(s)
    ensures var s' := Apply(rg, s, StartServerIfNeeded);
            if s.credentials && LastChildAlive(s) then s' == s else BeginsStart(rg, s, s')
  {
  }

  /**
   In every run, startServerIfNeeded begins a start exactly when credentials are not out or the child
   spawned last has exited or been killed; it then opens a new generation exactly when the current one
   is settled; and the start may choose any port of the range.
   */
  lemma StartsExactlyWhen(rg: Range, steps: seq<Step>)
    requires Execute(rg, steps).Some?
    ensures var s := Execute(rg, steps).value; var s' := Apply(rg, s, StartServerIfNeeded);
            if CredentialsOut(rg, steps) && LastChildAlive(s) then s' == s else BeginsStart(rg, s, s')
  {
    CredentialsExactly(rg, steps);
    CurrentChildReached(rg, steps);
    StartEffect(rg, Execute(rg, steps).value);
  }

  /** A retry goes on to the ports after the shared one, and to all of them. */
  lemma RetryGoesOn(rg: Range, s: State, step: Step, t: nat, port: int)
    requires Enabled(rg, s, step) && Retries(s, step, t)
    ensures Enabled(rg, Apply(rg, s, step), ChoosePort(t, port)) <==> s.actualPort < port <= rg.Last()
  {
  }

  /** The start that a step belongs to. */
  predicate Own(step: Step, t: nat) {
    && (step.ChoosePort? || step.NoPort? || step.SpawnChild? || step.SpawnFails? || step.ReportReady? || step.GiveUp?
        || step.RejectStartup? || step.TerminateAndRetry?)
    && step.t == t
  }

  function LastOwn(steps: seq<Step>, t: nat): Option<Step> {
    if steps == [] then None
    else if Own(steps[|steps| - 1], t) then Some(steps[|steps| - 1])
    else LastOwn(steps[..|steps| - 1], t)
  }

  ghost predicate FailureFits(steps: seq<Step>, s: State, t: nat) {
    t < |s.starts| ==>
      match s.starts[t].at
      case Failed(allocation) => allocation <==> LastOwn(steps, t) == Some(NoPort(t))
      case Awaiting(_) => LastOwn(steps, t) == Some(SpawnChild(t))
      case _ => true
  }

  lemma FailureAfter(rg: Range, steps: seq<Step>, s: State, t: nat)
    requires steps != [] && Enabled(rg, s, steps[|steps| - 1]) && FailureFits(steps[..|steps| - 1], s, t)
    ensures FailureFits(steps, Apply(rg, s, steps[|steps| - 1]), t)
  {
  }

  /** In every run, a start has failed with the allocation error exactly when it last found no port. */
  lemma {:induction false} AllocationErrorExactly(rg: Range, steps: seq<Step>, t: nat)
    requires Execute(rg, steps).Some?
    ensures FailureFits(steps, Execute(rg, steps).value, t)
  {
    if steps != [] {
      AllocationErrorExactly(rg, steps[..|steps| - 1], t);
      FailureAfter(rg, steps, Execute(rg, steps[..|steps| - 1]).value, t);
    }
  }

  function CountRetries(steps: seq<Step>, t: nat): nat {
    if steps == [] then 0
    else CountRetries(steps[..|steps| - 1], t) + if steps[|steps| - 1] == TerminateAndRetry(t) then 1 else 0
  }

  lemma RetriedAfter(rg: Range, s: State, step: Step, t: nat)
    requires Enabled(rg, s, step)
    ensures t < |s.starts| ==>
              (Apply(rg, s, step).starts[t].retried <==> s.starts[t].retried || step == TerminateAndRetry(t))
    ensures step == TerminateAndRetry(t) ==> t < |s.starts| && !s.starts[t].retried
    ensures |s.starts| <= t < |Apply(rg, s, step).starts| ==> !Apply(rg, s, step).starts[t].retried
  {
  }

  /** In every run the user's "Terminate and Retry" restarts a start at most once. */
  lemma {:induction false} RestartedAtMostOnce(rg: Range, steps: seq<Step>, t: nat)
    requires Execute(rg, steps).Some?
    ensures CountRetries(steps, t) <= 1
    ensures var starts := Execute(rg, steps).value.starts;
            CountRetries(steps, t) == 1 <==> t < |starts| && starts[t].retried
  {
    if steps != [] {
      RestartedAtMostOnce(rg, steps[..|steps| - 1], t);
      RetriedAfter(rg, Execute(rg, steps[..|steps| - 1]).value, steps[|steps| - 1], t);
      StartsGrow(rg, Execute(rg, steps[..|steps| - 1]).value, steps[|steps| - 1]);
    }
  }

  lemma StartsGrow(rg: Range, s: State, step: Step)
    requires Enabled(rg, s, step)
    ensures |s.starts| <= |Apply(rg, s, step).starts|
  {
  }

  /** It is offered exactly to a start that last found no port and has not been restarted before. */
  lemma RestartsExactlyWhen(rg: Range, steps: seq<Step>, t: nat)
    requires Execute(rg, steps).Some?
    ensures var s := Execute(rg, steps).value;
            Enabled(rg, s, TerminateAndRetry(t)) <==>
            && t < |s.starts| && s.starts[t].at.Failed?
            && LastOwn(steps, t) == Some(NoPort(t)) && CountRetries(steps, t) == 0
  {
    AllocationErrorExactly(rg, steps, t);
    RestartedAtMostOnce(rg, steps, t);
  }

  /** A child that did not report in time is killed, and stays so. */
  lemma {:induction false} TimedOutChildIsKilled(rg: Range, steps: seq<Step>, k: nat, t: nat)
    requires Execute(rg, steps).Some? && k < |steps| && steps[k] == GiveUp(t, true) && Execute(rg, steps[..k]).Some?
    requires t < |Execute(rg, steps[..k]).value.starts| && Execute(rg, steps[..k]).value.starts[t].at.Awaiting?
    ensures var c := Execute(rg, steps[..k]).value.starts[t].at.child;
            c < |Execute(rg, steps).value.children| && Execute(rg, steps).value.children[c].killed
  {
    var front, last := steps[..|steps| - 1], steps[|steps| - 1];
    var c := Execute(rg, steps[..k]).value.starts[t].at.child;
    if k < |front| {
      assert front[..k] == steps[..k];
      TimedOutChildIsKilled(rg, front, k, t);
    } else {
      assert front == steps[..k];
    }
    KilledAfter(rg, Execute(rg, front).value, last, c);
  }

  lemma KilledAfter(rg: Range, s: State, step: Step, c: nat)
    requires Enabled(rg, s, step)
    requires (c < |s.children| && s.children[c].killed)
             || (step.GiveUp? && step.timedOut && s.starts[step.t].at == Awaiting(c))
    ensures c < |Apply(rg, s, step).children| && Apply(rg, s, step).children[c].killed
  {
  }

  // ----- Which port is sent: every run ------------------------------------------------------

  predicate Chooses(step: Step, t: nat) {
    step.ChoosePort? && step.t == t
  }

  /** The last step that chose a port, or -1. */
  function LastChoice(steps: seq<Step>): (j: int)
    ensures -1 <= j < |steps|
    ensures j >= 0 ==> steps[j].ChoosePort?
  {
    if steps == [] then -1
    else if steps[|steps| - 1].ChoosePort? then |steps| - 1
    else LastChoice(steps[..|steps| - 1])
  }

  /** The last step in which a given start chose a port, or -1. */
  function LastChoiceBy(steps: seq<Step>, t: nat): (j: int)
    ensures -1 <= j < |steps|
    ensures j >= 0 ==> Chooses(steps[j], t)
  {
    if steps == [] then -1
    else if Chooses(steps[|steps| - 1], t) then |steps| - 1
    else LastChoiceBy(steps[..|steps| - 1], t)
  }

  lemma {:induction false} NoLaterChoice(steps: seq<Step>, t: nat, k: nat)
    requires k < |steps|
    ensures k > LastChoice(steps) ==> !steps[k].ChoosePort?
    ensures k > LastChoiceBy(steps, t) ==> !Chooses(steps[k], t)
  {
    if k < |steps| - 1 { NoLaterChoice(steps[..|steps| - 1], t, k); }
  }

  /** The port that a start chose last. */
  predicate Chose(steps: seq<Step>, t: nat, port: int) {
    var j := LastChoiceBy(steps, t);
    j >= 0 && steps[j].port == port
  }

  lemma ChoseKept(steps: seq<Step>, t: nat, port: int)
    requires steps != [] && !Chooses(steps[|steps| - 1], t)
    ensures Chose(steps, t, port) <==> Chose(steps[..|steps| - 1], t, port)
  {
  }

  lemma PortAfter(rg: Range, s: State, step: Step)
    requires Enabled(rg, s, step)
    ensures Apply(rg, s, step).actualPort == if step.ChoosePort? then step.port else s.actualPort
  {
  }

  lemma {:induction false} ActualPortIsLastChoice(rg: Range, steps: seq<Step>)
    requires Execute(rg, steps).Some?
    ensures var l := LastChoice(steps);
            Execute(rg, steps).value.actualPort == if l < 0 then rg.first else steps[l].port
  {
    if steps != [] {
      ActualPortIsLastChoice(rg, steps[..|steps| - 1]);
      PortAfter(rg, Execute(rg, steps[..|steps| - 1]).value, steps[|steps| - 1]);
    }
  }

  /** After a start's last choice come only other starts' choices, and the shared port is the last of all. */
  lemma LaterChoices(rg: Range, steps: seq<Step>, t: nat, port: int)
    requires Execute(rg, steps).Some? && Chose(steps, t, port)
    ensures var j, l := LastChoiceBy(steps, t), LastChoice(steps);
            && 0 <= j <= l && steps[j] == ChoosePort(t, port)
            && (forall k :: j < k < |steps| && steps[k].ChoosePort? ==> steps[k].t != t)
            && (Execute(rg, steps).value.actualPort == port <==> l == j || steps[l].port == port)
  {
    var j := LastChoiceBy(steps, t);
    ActualPortIsLastChoice(rg, steps);
    NoLaterChoice(steps, t, j);
    forall k | j < k < |steps| && steps[k].ChoosePort? ensures steps[k].t != t { NoLaterChoice(steps, t, k); }
  }

  /** A start that has a child waiting, and one whose child became ready, chose that child's port last. */
  ghost predicate StartOrigin(steps: seq<Step>, s: State, t: nat)
    requires t < |s.starts|
  {
    match s.starts[t].at
    case Spawning(port) => Chose(steps, t, port)
    case Awaiting(c) => c < |s.children| && s.children[c].start == t && Chose(steps, t, s.children[c].port)
    case _ => true
  }

  ghost predicate ReadyOrigin(steps: seq<Step>, s: State, c: nat) {
    && c < |s.children| && s.children[c].start < |s.starts| && s.starts[s.children[c].start].at.Finished?
    && Chose(steps, s.children[c].start, s.children[c].port)
  }

  ghost predicate Origins(steps: seq<Step>, s: State) {
    && (forall t :: 0 <= t < |s.starts| ==> StartOrigin(steps, s, t))
    && (forall c :: c in s.ready ==> ReadyOrigin(steps, s, c))
  }

  /** The child spawned last is the current one. */
  predicate LastSpawnedIsCurrent(s: State) {
    s.serverProcess == if s.children == [] then None else Some(|s.children| - 1)
  }

  /** The child exited at a moment when another had been spawned after it. */
  predicate ExitedReplaced(rg: Range, steps: seq<Step>, c: nat)
    requires Execute(rg, steps).Some?
  {
    steps != [] &&
    var front, last := steps[..|steps| - 1], steps[|steps| - 1];
    ExitedReplaced(rg, front, c) || (last.ChildExit? && last.c == c && c + 1 < |Execute(rg, front).value.children|)
  }

  /** A generation outlives the child that resolved it only if that child exited after being replaced. */
  ghost predicate Outlived(rg: Range, steps: seq<Step>, s: State)
    requires Execute(rg, steps).Some?
  {
    forall c :: 0 <= c < |s.children| && s.children[c].exited ==>
      ExitedReplaced(rg, steps, c) || s.generations == [] || s.generations[Current(s)] != Resolved(c)
  }

  /** The exit of the current child ends the generation it resolved; other exits change nothing about it. */
  lemma GenerationAfterExit(rg: Range, s: State, e: nat, addressInUse: bool, c: nat)
    requires Inv(s) && Enabled(rg, s, ChildExit(e, addressInUse))
    ensures var s' := Apply(rg, s, ChildExit(e, addressInUse));
            && s'.generations != [] && |s'.children| == |s.children|
            && (c < |s.children| && s'.children[c].exited ==> s.children[c].exited || c == e)
            && (s'.generations[Current(s')] == Resolved(c) ==>
                  s.generations[Current(s)] == Resolved(c) && !(c == e && s.serverProcess == Some(c)))
  {
  }

  /** Only a child that has not exited resolves a generation. */
  lemma GenerationAfterOther(rg: Range, s: State, step: Step, c: nat)
    requires Inv(s) && Enabled(rg, s, step) && !step.ChildExit?
    ensures var s' := Apply(rg, s, step);
            && s'.generations != []
            && (c < |s'.children| && s'.children[c].exited ==> c < |s.children| && s.children[c].exited)
            && (s'.generations[Current(s')] == Resolved(c) ==>
                  s.generations[Current(s)] == Resolved(c) || (c < |s.children| && !s.children[c].exited))
  {
  }

  lemma LastSpawnedKept(rg: Range, s: State, step: Step)
    requires LastSpawnedIsCurrent(s) && Enabled(rg, s, step)
    ensures LastSpawnedIsCurrent(Apply(rg, s, step))
  {
  }

  /** A child that exited stays so. */
  lemma {:induction false} ReplacedHasExited(rg: Range, steps: seq<Step>, c: nat)
    requires Execute(rg, steps).Some? && ExitedReplaced(rg, steps, c)
    ensures c < |Execute(rg, steps).value.children| && Execute(rg, steps).value.children[c].exited
  {
    var front, last := steps[..|steps| - 1], steps[|steps| - 1];
    if ExitedReplaced(rg, front, c) { ReplacedHasExited(rg, front, c); }
    ExitedKept(rg, Execute(rg, front).value, last, c);
  }

  lemma ExitedKept(rg: Range, s: State, step: Step, c: nat)
    requires Enabled(rg, s, step) && c < |s.children| && (s.children[c].exited || (step.ChildExit? && step.c == c))
    ensures c < |Apply(rg, s, step).children| && Apply(rg, s, step).children[c].exited
  {
  }

  /** Children keep the start and the port they were spawned with. */
  lemma ChildrenKept(rg: Range, s: State, step: Step)
    requires Enabled(rg, s, step)
    ensures var cs := Apply(rg, s, step).children;
            && |s.children| <= |cs|
            && forall c :: 0 <= c < |s.children| ==>
                 cs[c].start == s.children[c].start && cs[c].port == s.children[c].port
  {
  }

  /** How a start gets to Spawning and to Awaiting. */
  lemma PointAfter(rg: Range, s: State, step: Step, t: nat)
    requires Enabled(rg, s, step) && t < |Apply(rg, s, step).starts|
    ensures var s' := Apply(rg, s, step); var at := s'.starts[t].at;
            && (at.Spawning? ==>
                   t < |s.starts| && if Chooses(step, t) then at.port == step.port else s.starts[t].at == at)
            && (at.Awaiting? ==> t < |s.starts| && !Chooses(step, t)
                                 && if s.starts[t].at == at then true
                                    else step == SpawnChild(t) && at.child == |s.children| < |s'.children|
                                         && s.starts[t].at.Spawning? && s'.children[at.child].start == t
                                         && s'.children[at.child].port == s.starts[t].at.port)
  {
  }

  lemma StartOriginKept(rg: Range, steps: seq<Step>, s: State, t: nat)
    requires steps != [] && Enabled(rg, s, steps[|steps| - 1]) && Origins(steps[..|steps| - 1], s)
    requires t < |Apply(rg, s, steps[|steps| - 1]).starts|
    ensures StartOrigin(steps, Apply(rg, s, steps[|steps| - 1]), t)
  {
    var last, front := steps[|steps| - 1], steps[..|steps| - 1];
    ChildrenKept(rg, s, last);
    PointAfter(rg, s, last, t);
    if t < |s.starts| && !Chooses(last, t) {
      assert StartOrigin(front, s, t);
      match s.starts[t].at
      case Spawning(port) => ChoseKept(steps, t, port);
      case Awaiting(c) => ChoseKept(steps, t, s.children[c].port);
      case _ =>
    }
  }

  lemma ReadyOriginKept(rg: Range, steps: seq<Step>, s: State, c: nat)
    requires steps != [] && Enabled(rg, s, steps[|steps| - 1]) && Origins(steps[..|steps| - 1], s)
    requires c in Apply(rg, s, steps[|steps| - 1]).ready
    ensures ReadyOrigin(steps, Apply(rg, s, steps[|steps| - 1]), c)
  {
    var last, front := steps[|steps| - 1], steps[..|steps| - 1];
    ChildrenKept(rg, s, last);
    if c in s.ready {
      assert ReadyOrigin(front, s, c);
    } else {
      assert StartOrigin(front, s, last.t);
    }
    ChoseKept(steps, s.children[c].start, s.children[c].port);
  }

  lemma {:induction false} OriginsReached(rg: Range, steps: seq<Step>)
    requires Execute(rg, steps).Some?
    ensures Origins(steps, Execute(rg, steps).value)
  {
    if steps != [] {
      var s := Execute(rg, steps[..|steps| - 1]).value;
      OriginsReached(rg, steps[..|steps| - 1]);
      var s' := Apply(rg, s, steps[|steps| - 1]);
      forall t | 0 <= t < |s'.starts| ensures StartOrigin(steps, s', t) { StartOriginKept(rg, steps, s, t); }
      forall c | c in s'.ready ensures ReadyOrigin(steps, s', c) { ReadyOriginKept(rg, steps, s, c); }
    }
  }

  lemma {:induction false} CurrentChildReached(rg: Range, steps: seq<Step>)
    requires Execute(rg, steps).Some?
    ensures LastSpawnedIsCurrent(Execute(rg, steps).value) && Outlived(rg, steps, Execute(rg, steps).value)
  {
    if steps != [] {
      var front, last := steps[..|steps| - 1], steps[|steps| - 1];
      var s := Execute(rg, front).value;
      CurrentChildReached(rg, front);
      InvReached(rg, front);
      LastSpawnedKept(rg, s, last);
      var s' := Apply(rg, s, last);
      forall c | 0 <= c < |s'.children| && s'.children[c].exited
        ensures ExitedReplaced(rg, steps, c) || s'.generations[Current(s')] != Resolved(c)
      {
        if last.ChildExit? {
          GenerationAfterExit(rg, s, last.c, last.addressInUse, c);
        } else {
          GenerationAfterOther(rg, s, last, c);
        }
      }
    }
  }

  /**
   In every run, overlapping starts included: the announced child got its port from a ChoosePort of
   its own start, any ChoosePort after that one is another start's, and the port sent is the
   child's own if and only if there is no such later step or the last one picks the same port. The
   child has exited if and only if it did so after another child was spawned. When starts do not
   overlap, the port is right and the child is alive and current.
   */
  lemma SentPortIsRightExactlyWhen(rg: Range, steps: seq<Step>, step: Step)
    requires Execute(rg, steps).Some? && Enabled(rg, Execute(rg, steps).value, step)
    requires Apply(rg, Execute(rg, steps).value, step).sent != Execute(rg, steps).value.sent
    ensures var s := Execute(rg, steps).value; var sent := Apply(rg, s, step).sent;
            && |sent| == |s.sent| + 1 && sent[|s.sent|].child < |s.children|
            && var m := sent[|s.sent|]; var c := s.children[m.child];
               var j, l := LastChoiceBy(steps, c.start), LastChoice(steps);
               && 0 <= j <= l && steps[j] == ChoosePort(c.start, c.port)
               && (forall k :: j < k < |steps| && steps[k].ChoosePort? ==> steps[k].t != c.start)
               && (m.port == c.port <==> l == j || steps[l].port == c.port)
               && (c.exited <==> ExitedReplaced(rg, steps, m.child))
               && (Serialized(rg, steps) ==> m.port == c.port && !c.exited && s.serverProcess == Some(m.child))
  {
    if Serialized(rg, steps) { SentPortBelongsToLiveChild(rg, steps, step); }
    var m := WhatIsSent(rg, steps, step);
    var c := Execute(rg, steps).value.children[m.child];
    LaterChoices(rg, steps, c.start, c.port);
  }

  /** The message: its child became ready, its start chose its port last, and when it has exited. */
  lemma WhatIsSent(rg: Range, steps: seq<Step>, step: Step) returns (m: Sent)
    requires Execute(rg, steps).Some? && Enabled(rg, Execute(rg, steps).value, step)
    requires Apply(rg, Execute(rg, steps).value, step).sent != Execute(rg, steps).value.sent
    ensures var s := Execute(rg, steps).value;
            && Apply(rg, s, step).sent == s.sent + [m] && m.port == s.actualPort && m.child < |s.children|
            && Chose(steps, s.children[m.child].start, s.children[m.child].port)
            && (s.children[m.child].exited <==> ExitedReplaced(rg, steps, m.child))
  {
    InvReached(rg, steps);
    OriginsReached(rg, steps);
    CurrentChildReached(rg, steps);
    var s := Execute(rg, steps).value;
    var g := s.requests[step.r].generation;
    m := Sent(g, s.generations[g].child, s.actualPort);
    if ExitedReplaced(rg, steps, m.child) { ReplacedHasExited(rg, steps, m.child); }
    assert ReadyOrigin(steps, s, m.child);
  }

  // ----- Which ports a start tries: every run -----------------------------------------------

  ghost predicate AllBelow(ports: seq<int>, bound: int) {
    forall i :: 0 <= i < |ports| ==> ports[i] < bound
  }

  /** Strictly increasing within the range. */
  ghost predicate Climbing(rg: Range, ports: seq<int>) {
    && (forall i :: 0 <= i < |ports| ==> rg.first <= ports[i] <= rg.Last())
    && (forall i, j :: 0 <= i < j < |ports| ==> ports[i] < ports[j])
  }

  /** Whatever the other starts do. */
  ghost predicate Sane(rg: Range, s: State, st: Start) {
    && rg.first <= s.actualPort
    && match st.at
       case Probing(from) => rg.first <= from
       case Spawning(port) => rg.first <= port <= rg.Last()
       case Awaiting(c) => c < |s.children| && st.spawned != [] && st.spawned[|st.spawned| - 1] == s.children[c].port
       case _ => true
  }

  lemma {:induction false} SaneReached(rg: Range, steps: seq<Step>)
    requires Execute(rg, steps).Some?
    ensures rg.first <= Execute(rg, steps).value.actualPort
    ensures forall t :: 0 <= t < |Execute(rg, steps).value.starts| ==>
              Sane(rg, Execute(rg, steps).value, Execute(rg, steps).value.starts[t])
  {
    if steps != [] {
      var s := Execute(rg, steps[..|steps| - 1]).value;
      SaneReached(rg, steps[..|steps| - 1]);
      var s' := Apply(rg, s, steps[|steps| - 1]);
      assert rg.first <= s'.actualPort by {
        if steps[|steps| - 1].ChoosePort? { assert Sane(rg, s, s.starts[steps[|steps| - 1].t]); }
      }
      forall t | 0 <= t < |s'.starts| ensures Sane(rg, s', s'.starts[t]) {
        if t < |s.starts| { SaneKept(rg, s, steps[|steps| - 1], t); }
      }
    }
  }

  lemma SaneKept(rg: Range, s: State, step: Step, t: nat)
    requires Enabled(rg, s, step) && t < |s.starts| && Sane(rg, s, s.starts[t])
    requires rg.first <= Apply(rg, s, step).actualPort
    ensures Sane(rg, Apply(rg, s, step), Apply(rg, s, step).starts[t])
  {
    if step.ChildExit? {
      SaneAfterExit(rg, s, step.c, step.addressInUse, t);
    } else if step == SpawnChild(t) {
      assert s.starts[t].at.Spawning?;
    } else {
      ChildrenKept(rg, s, step);
      SpawnedKept(rg, s, step, t);
    }
  }

  lemma SaneAfterExit(rg: Range, s: State, c: nat, addressInUse: bool, t: nat)
    requires Enabled(rg, s, ChildExit(c, addressInUse)) && t < |s.starts| && Sane(rg, s, s.starts[t])
    ensures Sane(rg, Apply(rg, s, ChildExit(c, addressInUse)), Apply(rg, s, ChildExit(c, addressInUse)).starts[t])
  {
  }

  lemma SpawnedKept(rg: Range, s: State, step: Step, t: nat)
    requires Enabled(rg, s, step) && !step.ChildExit? && step != SpawnChild(t) && t < |s.starts|
    ensures var st, st' := s.starts[t], Apply(rg, s, step).starts[t];
            || st' == st || st'.at == Probing(rg.first) || st'.at.Failed? || st'.at.Finished?
            || (Chooses(step, t) && st'.at == Spawning(step.port) && st.at.Probing?
                && st.at.from <= step.port <= rg.Last())
  {
  }

  /** A start that probes will only find ports above all those it has tried. */
  ghost predicate Rising(s: State, t: nat) {
    t < |s.starts| && s.starts[t].at.Probing? ==> AllBelow(s.starts[t].spawned, s.starts[t].at.from)
  }

  ghost predicate AlwaysRising(rg: Range, steps: seq<Step>, t: nat)
    requires Execute(rg, steps).Some?
  {
    Rising(Execute(rg, steps).value, t) && (steps != [] ==> AlwaysRising(rg, steps[..|steps| - 1], t))
  }

  /** The step makes a start go on to another port after its child lost the race for one. */
  predicate Retries(s: State, step: Step, t: nat) {
    && step.ChildExit? && step.addressInUse && step.c < |s.children|
    && t < |s.starts| && s.starts[t].at == Awaiting(step.c)
  }

  /** At each retry of the start, the shared port is not below the port its child was spawned with. */
  ghost predicate RetriesFromAbove(rg: Range, steps: seq<Step>, t: nat)
    requires Execute(rg, steps).Some?
  {
    steps != [] ==>
      var s, last := Execute(rg, steps[..|steps| - 1]).value, steps[|steps| - 1];
      && RetriesFromAbove(rg, steps[..|steps| - 1], t)
      && (Retries(s, last, t) ==> s.children[last.c].port <= s.actualPort)
  }

  ghost predicate StartClimbs(rg: Range, s: State, st: Start) {
    && Climbing(rg, st.spawned)
    && match st.at
       case Probing(from) => AllBelow(st.spawned, from)
       case Spawning(port) => AllBelow(st.spawned, port)
       case _ => true
  }

  lemma {:induction false} ClimbsReached(rg: Range, steps: seq<Step>, t: nat)
    requires Execute(rg, steps).Some? && RetriesFromAbove(rg, steps, t)
    ensures t < |Execute(rg, steps).value.starts| ==>
              StartClimbs(rg, Execute(rg, steps).value, Execute(rg, steps).value.starts[t])
    ensures AlwaysRising(rg, steps, t)
  {
    if steps != [] {
      var s, last := Execute(rg, steps[..|steps| - 1]).value, steps[|steps| - 1];
      ClimbsReached(rg, steps[..|steps| - 1], t);
      SaneReached(rg, steps[..|steps| - 1]);
      if t < |s.starts| {
        assert Sane(rg, s, s.starts[t]);
        ClimbsKept(rg, s, last, t);
      }
    }
  }

  lemma ClimbsKept(rg: Range, s: State, step: Step, t: nat)
    requires Enabled(rg, s, step) && t < |s.starts| && Sane(rg, s, s.starts[t]) && StartClimbs(rg, s, s.starts[t])
    requires Retries(s, step, t) ==> s.children[step.c].port <= s.actualPort
    ensures StartClimbs(rg, Apply(rg, s, step), Apply(rg, s, step).starts[t])
  {
    var st, st' := s.starts[t], Apply(rg, s, step).starts[t];
    if step == SpawnChild(t) {
      ClimbOn(rg, st.spawned, st.at.port);
    } else if Retries(s, step, t) {
      LastIsHighest(rg, st.spawned, s.actualPort + 1);
    } else {
      assert st'.spawned == st.spawned || st'.spawned == [];
    }
  }

  lemma ClimbOn(rg: Range, ports: seq<int>, port: int)
    requires Climbing(rg, ports) && AllBelow(ports, port) && rg.first <= port <= rg.Last()
    ensures Climbing(rg, ports + [port])
  {
  }

  lemma LastIsHighest(rg: Range, ports: seq<int>, bound: int)
    requires Climbing(rg, ports) && ports != [] && ports[|ports| - 1] < bound
    ensures AllBelow(ports, bound)
  {
    assert forall i :: 0 <= i < |ports| - 1 ==> ports[i] < ports[|ports| - 1];
  }

  /**
   In every run, a start only ever goes on to ports above those it has tried if and only if, at
   each of its retries, no other start has moved the shared port below its child's.
   */
  lemma {:induction false} PortsRiseExactlyWhen(rg: Range, steps: seq<Step>, t: nat)
    requires Execute(rg, steps).Some?
    ensures AlwaysRising(rg, steps, t) <==> RetriesFromAbove(rg, steps, t)
  {
    if RetriesFromAbove(rg, steps, t) {
      ClimbsReached(rg, steps, t);
    } else {
      var front, last := steps[..|steps| - 1], steps[|steps| - 1];
      var s := Execute(rg, front).value;
      PortsRiseExactlyWhen(rg, front, t);
      if RetriesFromAbove(rg, front, t) {
        SaneReached(rg, front);
        assert Sane(rg, s, s.starts[t]);
        var st := Apply(rg, s, last).starts[t];
        assert st.spawned[|st.spawned| - 1] >= st.at.from;
      }
    }
  }

  lemma {:induction false} ClimbingIsShort(rg: Range, ports: seq<int>)
    requires Climbing(rg, ports)
    ensures |ports| <= rg.attempts
    ensures ports != [] ==> ports[|ports| - 1] >= rg.first + |ports| - 1
  {
    if ports != [] {
      var last := |ports| - 1;
      assert rg.first <= ports[last] <= rg.Last();
      if last > 0 {
        ClimbingIsShort(rg, ports[..last]);
        assert ports[..last][last - 1] < ports[last];
      }
    }
  }

  /**
   Under that condition start-up retry terminates: the ports tried strictly increase within the
   range, so there are at most MAX_PORT_ATTEMPTS children, and past the range only the allocation
   error is left.
   */
  lemma RetriesAreBounded(rg: Range, steps: seq<Step>, t: nat)
    requires Execute(rg, steps).Some? && t < |Execute(rg, steps).value.starts| && RetriesFromAbove(rg, steps, t)
    ensures var s := Execute(rg, steps).value; var st := s.starts[t];
            && Climbing(rg, st.spawned) && |st.spawned| <= rg.attempts
            && (st.at.Probing? && |st.spawned| == rg.attempts ==> forall port :: !Enabled(rg, s, ChoosePort(t, port)))
  {
    ClimbsReached(rg, steps, t);
    SaneReached(rg, steps);
    var st := Execute(rg, steps).value.starts[t];
    assert Sane(rg, Execute(rg, steps).value, st);
    ClimbingIsShort(rg, st.spawned);
  }

  // ----- Ports: runs whose starts do not overlap --------------------------------------------

  ghost predicate PointOk(rg: Range, s: State, st: Start) {
    match st.at
    case Spawning(port) => s.actualPort == port
    case Awaiting(c) =>
      && c < |s.children| && s.serverProcess == Some(c) && c !in s.ready
      && !s.children[c].exited && !s.children[c].killed && s.children[c].port == s.actualPort
    case _ => true
  }

  /** Credentials are out only while the child that resolved the current generation is alive and serving. */
  ghost predicate Announced(s: State) {
    && s.generations != [] && Idle(s) && s.serverProcess.Some? && s.serverProcess.value < |s.children|
    && s.generations[Current(s)] == Resolved(s.serverProcess.value)
    && !s.children[s.serverProcess.value].exited && !s.children[s.serverProcess.value].killed
    && s.children[s.serverProcess.value].port == s.actualPort
  }

  ghost predicate SerialInv(rg: Range, s: State) {
    && Inv(s)
    && (forall t :: 0 <= t < |s.starts| - 1 ==> s.starts[t].at.Finished?)
    && (forall t :: 0 <= t < |s.starts| ==> PointOk(rg, s, s.starts[t]))
    && (s.readyState.PendingState? <==> s.generations[Current(s)].Pending?)
    && (s.generations[Current(s)].Resolved? ==> s.credentials)
    && (s.credentials ==> Announced(s))
    && (!Idle(s) ==> s.generations[Current(s)].Pending?)
    && (s.serverProcess.Some? && s.serverProcess.value in s.ready && !s.children[s.serverProcess.value].exited
        ==> s.credentials)
  }

  /** Only the last start can be unfinished, and then it alone is. */
  lemma ActiveIsLast(rg: Range, s: State, t: nat)
    requires SerialInv(rg, s) && AtPoint(s, t)
    ensures t == |s.starts| - 1 && !Idle(s) && !s.credentials && PointOk(rg, s, s.starts[t])
    ensures s.generations[Current(s)].Pending?
  {
  }

  lemma ExitPointOk(rg: Range, s: State, c: nat, addressInUse: bool, t: nat)
    requires SerialInv(rg, s) && Enabled(rg, s, ChildExit(c, addressInUse)) && t < |s.starts|
    ensures var s' := Apply(rg, s, ChildExit(c, addressInUse));
            PointOk(rg, s', s'.starts[t]) && (s'.starts[t].at.Finished? <==> s.starts[t].at.Finished?)
  {
    assert PointOk(rg, s, s.starts[t]);
  }

  lemma ExitStep(rg: Range, s: State, c: nat, addressInUse: bool)
    requires SerialInv(rg, s) && Enabled(rg, s, ChildExit(c, addressInUse))
    ensures SerialInv(rg, Apply(rg, s, ChildExit(c, addressInUse)))
  {
    var s' := Apply(rg, s, ChildExit(c, addressInUse));
    InvStep(rg, s, ChildExit(c, addressInUse));
    forall t | 0 <= t < |s.starts|
      ensures PointOk(rg, s', s'.starts[t]) && (s'.starts[t].at.Finished? <==> s.starts[t].at.Finished?)
    {
      ExitPointOk(rg, s, c, addressInUse, t);
    }
    assert Idle(s') <==> Idle(s);
  }

  lemma SpawnStep(rg: Range, s: State, t: nat)
    requires SerialInv(rg, s) && Enabled(rg, s, SpawnChild(t))
    ensures SerialInv(rg, Apply(rg, s, SpawnChild(t)))
  {
    var s' := Apply(rg, s, SpawnChild(t));
    InvStep(rg, s, SpawnChild(t));
    ActiveIsLast(rg, s, t);
    assert !Idle(s') by { assert !s'.starts[t].at.Finished?; }
    assert PointOk(rg, s', s'.starts[t]);
  }

  lemma ReadyStep(rg: Range, s: State, t: nat)
    requires SerialInv(rg, s) && Enabled(rg, s, ReportReady(t))
    ensures SerialInv(rg, Apply(rg, s, ReportReady(t)))
  {
    var s' := Apply(rg, s, ReportReady(t));
    InvStep(rg, s, ReportReady(t));
    ActiveIsLast(rg, s, t);
    assert PointOk(rg, s', s'.starts[t]);
    assert Idle(s');
  }

  lemma MoveStep(rg: Range, s: State, step: Step)
    requires SerialInv(rg, s) && Enabled(rg, s, step)
    requires step.ChoosePort? || step.NoPort? || step.SpawnFails? || step.GiveUp? || step.RejectStartup?
             || step.TerminateAndRetry?
    ensures SerialInv(rg, Apply(rg, s, step))
  {
    var s' := Apply(rg, s, step);
    InvStep(rg, s, step);
    ActiveIsLast(rg, s, step.t);
    assert PointOk(rg, s', s'.starts[step.t]);
    assert Idle(s') <==> s'.starts[step.t].at.Finished?;
  }

  lemma OtherStep(rg: Range, s: State, step: Step)
    requires SerialInv(rg, s) && Enabled(rg, s, step)
    requires step.Ask? || step.Answer? || (step.StartServerIfNeeded? && Idle(s))
    ensures SerialInv(rg, Apply(rg, s, step))
  {
    var s' := Apply(rg, s, step);
    InvStep(rg, s, step);
    if !step.StartServerIfNeeded? {
      assert Idle(s') <==> Idle(s);
    } else if !AlreadyRunning(s) {
      assert !s.credentials;
      assert PointOk(rg, s', s'.starts[|s.starts|]);
    }
  }

  lemma SerialStep(rg: Range, s: State, step: Step)
    requires SerialInv(rg, s) && Enabled(rg, s, step) && (step.StartServerIfNeeded? ==> Idle(s))
    ensures SerialInv(rg, Apply(rg, s, step))
  {
    match step
    case ChildExit(c, addressInUse) => ExitStep(rg, s, c, addressInUse);
    case SpawnChild(t) => SpawnStep(rg, s, t);
    case ReportReady(t) => ReadyStep(rg, s, t);
    case StartServerIfNeeded => OtherStep(rg, s, step);
    case Ask => OtherStep(rg, s, step);
    case Answer(_, _) => OtherStep(rg, s, step);
    case _ => MoveStep(rg, s, step);
  }

  lemma {:induction false} SerialReached(rg: Range, steps: seq<Step>)
    requires Serialized(rg, steps) && Execute(rg, steps).Some?
    ensures SerialInv(rg, Execute(rg, steps).value)
  {
    if steps != [] {
      SerialReached(rg, steps[..|steps| - 1]);
      SerialStep(rg, Execute(rg, steps[..|steps| - 1]).value, steps[|steps| - 1]);
    }
  }

  /**
   When starts do not overlap, the port sent is the one the announced child was spawned with, and
   that child has not exited.
   */
  lemma SentPortBelongsToLiveChild(rg: Range, steps: seq<Step>, step: Step)
    requires Serialized(rg, steps) && Execute(rg, steps).Some? && Enabled(rg, Execute(rg, steps).value, step)
    requires Apply(rg, Execute(rg, steps).value, step).sent != Execute(rg, steps).value.sent
    ensures var s := Execute(rg, steps).value; var sent := Apply(rg, s, step).sent;
            && |sent| == |s.sent| + 1
            && var m := sent[|s.sent|];
               m.child < |s.children| && m.port == s.children[m.child].port && !s.children[m.child].exited
               && s.children[m.child].reported && s.serverProcess == Some(m.child)
  {
    SerialReached(rg, steps);
  }

  /** When starts do not overlap, every start retries from above, so its retries are bounded. */
  lemma {:induction false} SerializedRetriesFromAbove(rg: Range, steps: seq<Step>, t: nat)
    requires Serialized(rg, steps) && Execute(rg, steps).Some?
    ensures RetriesFromAbove(rg, steps, t)
  {
    if steps != [] {
      var front := steps[..|steps| - 1];
      SerializedRetriesFromAbove(rg, front, t);
      SerialReached(rg, front);
      if t < |Execute(rg, front).value.starts| {
        assert PointOk(rg, Execute(rg, front).value, Execute(rg, front).value.starts[t]);
      }
    }
  }

  // ----- Overlapping starts -----------------------------------------------------------------

  lemma ExecuteAppend(rg: Range, steps: seq<Step>, last: Step)
    requires Execute(rg, steps).Some? && Enabled(rg, Execute(rg, steps).value, last)
    ensures Execute(rg, steps + [last]) == Some(Apply(rg, Execute(rg, steps).value, last))
    ensures Serialized(rg, steps + [last]) <==>
            Serialized(rg, steps) && (last.StartServerIfNeeded? ==> Idle(Execute(rg, steps).value))
  {
    assert (steps + [last])[..|steps|] == steps;
  }

  /** Two starts, the first child not yet ready when the second start picks its port. */
  function OverlappingSteps(): seq<Step> {
    [StartServerIfNeeded] + [ChoosePort(0, 4466)] + [SpawnChild(0)] + [StartServerIfNeeded] + [ChoosePort(1, 4467)]
    + [Ask] + [ReportReady(0)] + [Answer(0, true)]
  }

  lemma FirstStartSpawns(rg: Range, steps: seq<Step>)
    requires rg == Range(4466, 100) && steps == [StartServerIfNeeded] + [ChoosePort(0, 4466)] + [SpawnChild(0)]
    ensures Execute(rg, steps)
         == Some(State([Pending], PendingState, false, 4466, [Child(0, 4466, false, false, false)], Some(0), {},
                                             [Start(Awaiting(0), [4466], false)], [], []))
  {
    assert [] + [StartServerIfNeeded] == [StartServerIfNeeded];
    ExecuteAppend(rg, [], StartServerIfNeeded);
    ExecuteAppend(rg, [StartServerIfNeeded], ChoosePort(0, 4466));
    ExecuteAppend(rg, [StartServerIfNeeded] + [ChoosePort(0, 4466)], SpawnChild(0));
    var s := Execute(rg, steps).value;
    assert s.starts[0].spawned == [4466];
    assert s.starts == [Start(Awaiting(0), [4466], false)];
    assert s.children == [Child(0, 4466, false, false, false)];
  }

  /**
   A second start that begins while the first child is still reporting moves `actualPort`, and the
   first child's generation is then announced with the second start's port.
   */
  lemma OverlappingStartsSendTheWrongPort()
    ensures var s := Execute(Range(4466, 100), OverlappingSteps());
            && !Serialized(Range(4466, 100), OverlappingSteps())
            && s.Some? && s.value.sent == [Sent(0, 0, 4467)] && s.value.children[0].port == 4466
  {
    var rg := Range(4466, 100);
    var p3 := [StartServerIfNeeded] + [ChoosePort(0, 4466)] + [SpawnChild(0)];
    FirstStartSpawns(rg, p3);
    assert !Idle(Execute(rg, p3).value) by { assert !Execute(rg, p3).value.starts[0].at.Finished?; }
    ExecuteAppend(rg, p3, StartServerIfNeeded);
    var p4 := p3 + [StartServerIfNeeded];
    ExecuteAppend(rg, p4, ChoosePort(1, 4467));
    var p5 := p4 + [ChoosePort(1, 4467)];
    ExecuteAppend(rg, p5, Ask);
    var p6 := p5 + [Ask];
    ExecuteAppend(rg, p6, ReportReady(0));
    var p7 := p6 + [ReportReady(0)];
    ExecuteAppend(rg, p7, Answer(0, true));
  }

  /** Two starts, the first child ready and gone once the second start has spawned another. */
  function ReplacedSteps(): seq<Step> {
    [StartServerIfNeeded] + [ChoosePort(0, 4466)] + [SpawnChild(0)] + [StartServerIfNeeded] + [ReportReady(0)]
    + [ChoosePort(1, 4467)] + [SpawnChild(1)] + [ChildExit(0, false)] + [Ask] + [Answer(0, true)]
  }

  lemma SecondStartReplaces(rg: Range, steps: seq<Step>)
    requires rg == Range(4466, 100)
    requires steps == [StartServerIfNeeded] + [ChoosePort(0, 4466)] + [SpawnChild(0)] + [StartServerIfNeeded]
                      + [ReportReady(0)] + [ChoosePort(1, 4467)] + [SpawnChild(1)]
    ensures Execute(rg, steps).Some?
    ensures var s := Execute(rg, steps).value;
            && s.generations == [Resolved(0)] && s.credentials && s.actualPort == 4467 && s.serverProcess == Some(1)
            && |s.children| == 2 && !s.children[0].exited && s.requests == [] && s.sent == []
  {
    var p := [StartServerIfNeeded] + [ChoosePort(0, 4466)] + [SpawnChild(0)];
    FirstStartSpawns(rg, p);
    ExecuteAppend(rg, p, StartServerIfNeeded);
    p := p + [StartServerIfNeeded];
    ExecuteAppend(rg, p, ReportReady(0));
    p := p + [ReportReady(0)];
    ExecuteAppend(rg, p, ChoosePort(1, 4467));
    p := p + [ChoosePort(1, 4467)];
    ExecuteAppend(rg, p, SpawnChild(1));
  }

  /** The exit of a child that is no longer the current one goes unnoticed, and it is announced afterwards. */
  lemma OverlappingStartsAnnounceAnExitedChild()
    ensures var s := Execute(Range(4466, 100), ReplacedSteps());
            s.Some? && s.value.sent == [Sent(0, 0, 4467)] && s.value.children != [] && s.value.children[0].exited
  {
    var rg := Range(4466, 100);
    var p := [StartServerIfNeeded] + [ChoosePort(0, 4466)] + [SpawnChild(0)] + [StartServerIfNeeded] + [ReportReady(0)]
             + [ChoosePort(1, 4467)] + [SpawnChild(1)];
    SecondStartReplaces(rg, p);
    ExecuteAppend(rg, p, ChildExit(0, false));
    p := p + [ChildExit(0, false)];
    ExecuteAppend(rg, p, Ask);
    p := p + [Ask];
    ExecuteAppend(rg, p, Answer(0, true));
  }

  /** Start 0 waits for its n-th child, all of them spawned on the second of two ports. */
  ghost predicate Racing(s: State, n: nat) {
    && s.readyState.PendingState? && !s.credentials && s.ready == {}
    && 0 < n == |s.children| && !s.children[n - 1].exited
    && s.starts != [] && s.starts[0].at == Awaiting(n - 1)
    && s.starts[0].spawned == seq(n, _ => 4467)
  }

  /** Another start picks the first port, the child loses the second one, and start 0 takes it again. */
  lemma RaceOnce(rg: Range, steps: seq<Step>, n: nat) returns (more: seq<Step>)
    requires rg == Range(4466, 2) && Execute(rg, steps).Some? && Racing(Execute(rg, steps).value, n)
    ensures Execute(rg, more).Some? && Racing(Execute(rg, more).value, n + 1)
  {
    var other := |Execute(rg, steps).value.starts|;
    ExecuteAppend(rg, steps, StartServerIfNeeded);
    more := steps + [StartServerIfNeeded];
    ExecuteAppend(rg, more, ChoosePort(other, 4466));
    more := more + [ChoosePort(other, 4466)];
    ExecuteAppend(rg, more, ChildExit(n - 1, true));
    more := more + [ChildExit(n - 1, true)];
    ExecuteAppend(rg, more, ChoosePort(0, 4467));
    more := more + [ChoosePort(0, 4467)];
    ExecuteAppend(rg, more, SpawnChild(0));
    more := more + [SpawnChild(0)];
    assert seq(n, _ => 4467) + [4467] == seq(n + 1, _ => 4467);
  }

  /**
   With overlapping starts and a range of two ports, one start can spawn any number of children,
   all on the same port: each time another start has moved the shared port back before it retries.
   */
  lemma {:induction false} OverlappingRetriesAreUnbounded(n: nat) returns (steps: seq<Step>)
    requires n > 0
    ensures var s := Execute(Range(4466, 2), steps);
            s.Some? && s.value.starts != [] && s.value.starts[0].spawned == seq(n, _ => 4467)
    ensures Racing(Execute(Range(4466, 2), steps).value, n)
  {
    var rg := Range(4466, 2);
    if n == 1 {
      steps := [] + [StartServerIfNeeded];
      ExecuteAppend(rg, [], StartServerIfNeeded);
      ExecuteAppend(rg, steps, ChoosePort(0, 4467));
      steps := steps + [ChoosePort(0, 4467)];
      ExecuteAppend(rg, steps, SpawnChild(0));
      steps := steps + [SpawnChild(0)];
      assert Execute(rg, steps).value.starts[0].spawned == [4467] == seq(1, _ => 4467);
    } else {
      var before := OverlappingRetriesAreUnbounded(n - 1);
      steps := RaceOnce(rg, before, n - 1);
    }
  }

  // ----- findAvailablePort ------------------------------------------------------------------

  /** findAvailablePort: the first free port of the range at or after `startPort`, or none. */
  method FindAvailablePort(rg: Range, startPort: int, available: int -> bool) returns (r: Option<int>)
    ensures match r
            case Some(port) => startPort <= port <= rg.Last() && available(port)
                               && forall q :: startPort <= q < port ==> !available(q)
            case None => forall q :: startPort <= q <= rg.Last() ==> !available(q)
  {
    var port := startPort;
    while port <= rg.Last()
      invariant forall q :: startPort <= q < port ==> !available(q)
      invariant startPort <= port
    {
      if available(port) {
        return Some(port);
      }
      port := port + 1;
    }
    return None;
  }
}
