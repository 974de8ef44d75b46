/**
 The connection lifecycle of backend/cmd/multiplexer.go: status updates, the once-only close and
 the sweep that closes a departing client's connections.

 A step is one critical section of a connection's mutex, one transition of its sync.Once, one
 look at a connection while the table is locked, or the closing of the Done channel. Threads
 interleave at that granularity; a thread that finds the Once running waits.
 */
module ConnectionLifecycle {
  import opened Common

  datatype Status = Connecting | Connected | Errored | Closed

  datatype Once = Unused | Running(runner: nat) | Finished

  /** `writes` are the STATUS messages sent to the client, `doneCloses` the executions of close(Done). */
  datatype Conn = Conn(status: Status, client: Option<nat>, closed: bool, once: Once,
                       doneClosed: bool, doneCloses: nat, writes: seq<Status>)

  datatype Point =
    | Update(state: Status)
    | Scan(pending: set<string>)
    | Detach
    | EnterOnce
    | Seal
    | SignalDone
    | LeaveOnce
    | Returned

  /**
   A call in progress: where it is, on which connection, for a sweep the client and the
   connections still to close, and the connections on which its safeClose has returned.
   */
  datatype Thread = Thread(at: Point, conn: nat, client: Option<nat>, rest: seq<nat>, passed: seq<nat>)

  datatype State = State(conns: seq<Conn>, table: map<string, nat>, tableLock: Option<nat>, threads: seq<Thread>)

  datatype Step =
    | NewConnection(owner: Option<nat>)
    | Insert(key: string, c: nat)
    | Remove(key: string)
    | CallUpdate(c: nat, state: Status)
    | CallClose(c: nat)
    | CallCloseClient(leaving: nat)
    | Look(t: nat, key: string)
    | EndScan(t: nat)
    | Act(t: nat)

  // ----- Steps ------------------------------------------------------------------------------

  predicate Enabled(s: State, step: Step) {
    match step
    case NewConnection(_) => true
    case Insert(_, c) => s.tableLock.None? && c < |s.conns|
    case Remove(_) => s.tableLock.None?
    case CallUpdate(c, _) => c < |s.conns|
    case CallClose(c) => c < |s.conns|
    case CallCloseClient(_) => s.tableLock.None?
    case Look(t, key) => t < |s.threads| && s.threads[t].at.Scan? && key in s.threads[t].at.pending
                         && key in s.table && s.table[key] < |s.conns|
    case EndScan(t) => t < |s.threads| && s.threads[t].at == Scan({})
    case Act(t) =>
      t < |s.threads| && s.threads[t].conn < |s.conns| && !s.threads[t].at.Scan? && !s.threads[t].at.Returned?
      && (s.threads[t].at.EnterOnce? ==> !s.conns[s.threads[t].conn].once.Running?)
  }

  /** updateStatus up to the unlock. */
  function Updated(c: Conn, state: Status): Conn {
    if c.closed then c
    else if c.client.None? then c.(status := state)
    else c.(status := state, writes := c.writes + [state])
  }

  /** The critical section of closeClientConnections' second loop. */
  function Detached(c: Conn, client: Option<nat>): Conn {
    if client.Some? && c.client == client then c.(client := None, status := Closed) else c
  }

  /** The critical section of safeClose. */
  function Sealed(c: Conn): Conn {
    if c.closed then c
    else
      var write := c.status != Closed && c.client.Some?;
      c.(status := Closed, closed := true, writes := if write then c.writes + [Closed] else c.writes)
  }

  function Signalled(c: Conn): Conn {
    if c.doneClosed then c else c.(doneClosed := true, doneCloses := c.doneCloses + 1)
  }

  /** After safeClose returns: the next connection of the sweep, or done. */
  function Continue(t: Thread): Thread {
    var passed := t.passed + [t.conn];
    if t.rest == [] then t.(at := Returned, passed := passed)
    else t.(at := Detach, conn := t.rest[0], rest := t.rest[1..], passed := passed)
  }

  function ActConn(s: State, t: nat): Conn
    requires Enabled(s, Act(t))
  {
    var th := s.threads[t];
    var c := s.conns[th.conn];
    match th.at
    case Update(state) => Updated(c, state)
    case Detach => Detached(c, th.client)
    case EnterOnce => if c.once.Unused? then c.(once := Running(t)) else c
    case Seal => Sealed(c)
    case SignalDone => Signalled(c)
    case LeaveOnce => c.(once := Finished)
    case _ => c
  }

  function ActThread(s: State, t: nat): Thread
    requires Enabled(s, Act(t))
  {
    var th := s.threads[t];
    var c := s.conns[th.conn];
    match th.at
    case Update(state) => th.(at := if !c.closed && state == Closed then EnterOnce else Returned)
    case Detach => th.(at := EnterOnce)
    case EnterOnce => if c.once.Unused? then th.(at := Seal) else Continue(th)
    case Seal => th.(at := SignalDone)
    case SignalDone => th.(at := LeaveOnce)
    case LeaveOnce => Continue(th)
    case _ => th
  }

  function Apply(s: State, step: Step): State
    requires Enabled(s, step)
  {
    match step
    case NewConnection(client) =>
      s.(conns := s.conns + [Conn(Connecting, client, false, Unused, false, 0, [])])
    case Insert(key, c) => s.(table := s.table[key := c])
    case Remove(key) => s.(table := s.table - {key})
    case CallUpdate(c, state) => s.(threads := s.threads + [Thread(Update(state), c, None, [], [])])
    case CallClose(c) => s.(threads := s.threads + [Thread(EnterOnce, c, None, [], [])])
    case CallCloseClient(client) =>
      s.(threads := s.threads + [Thread(Scan(s.table.Keys), 0, Some(client), [], [])], tableLock := Some(|s.threads|))
    case Look(t, key) =>
      var th, c := s.threads[t], s.table[key];
      var pending := Scan(th.at.pending - {key});
      if s.conns[c].client == th.client
      then s.(threads := s.threads[t := th.(at := pending, rest := th.rest + [c])], table := s.table - {key})
      else s.(threads := s.threads[t := th.(at := pending)])
    case EndScan(t) =>
      var th := s.threads[t];
      var next := if th.rest == [] then th.(at := Returned)
                  else th.(at := Detach, conn := th.rest[0], rest := th.rest[1..]);
      s.(threads := s.threads[t := next], tableLock := None)
    case Act(t) =>
      s.(conns := s.conns[s.threads[t].conn := ActConn(s, t)], threads := s.threads[t := ActThread(s, t)])
  }

  const START := State([], map[], None, [])

  function Execute(steps: seq<Step>): Option<State> {
    if steps == [] then Some(START)
    else
      var before, last := Execute(steps[..|steps| - 1]), steps[|steps| - 1];
      if before.Some? && Enabled(before.value, last) then Some(Apply(before.value, last)) else None
  }

  // ----- The invariant ----------------------------------------------------------------------

  function LastWrite(c: Conn): Status {
    if c.writes == [] then Connecting else c.writes[|c.writes| - 1]
  }

  ghost predicate ConnOk(c: Conn) {
    && (c.once.Unused? ==> !c.closed && !c.doneClosed)
    && (c.once.Finished? ==> c.closed && c.doneClosed)
    && (c.doneClosed ==> c.closed)
    && c.doneCloses == (if c.doneClosed then 1 else 0)
    && (c.client.Some? ==> LastWrite(c) == if c.closed then Closed else c.status)
  }

  ghost predicate ClosedFor(c: Conn, client: Option<nat>) {
    c.closed && c.doneClosed && (client.Some? ==> c.client != client)
  }

  ghost predicate AtOk(c: Conn, t: nat, at: Point) {
    && (at.Seal? ==> c.once == Running(t) && !c.closed && !c.doneClosed)
    && (at.SignalDone? ==> c.once == Running(t) && c.closed && !c.doneClosed)
    && (at.LeaveOnce? ==> c.once == Running(t) && c.closed && c.doneClosed)
  }

  ghost predicate ThreadOk(s: State, t: nat)
    requires t < |s.threads|
  {
    var th := s.threads[t];
    && (forall i :: 0 <= i < |th.passed| ==> th.passed[i] < |s.conns| && ClosedFor(s.conns[th.passed[i]], th.client))
    && (forall i :: 0 <= i < |th.rest| ==> th.rest[i] < |s.conns|)
    && (th.at.Update? ==> th.client.None?) && (th.at.Returned? || th.client.None? ==> th.rest == [])
    && (!th.at.Scan? && !th.at.Returned? ==>
          && th.conn < |s.conns|
          && AtOk(s.conns[th.conn], t, th.at)
          && (th.client.Some? && !th.at.Detach? && !th.at.Update? ==> s.conns[th.conn].client != th.client))
  }

  /** A scanner holds the table lock, and what it has looked at is not the client's. */
  ghost predicate TableOk(s: State) {
    && (forall k :: k in s.table ==> s.table[k] < |s.conns|)
    && (forall t :: 0 <= t < |s.threads| && s.threads[t].at.Scan? ==>
          && s.tableLock == Some(t) && s.threads[t].client.Some? && s.threads[t].at.pending <= s.table.Keys
          && forall k :: k in s.table && k !in s.threads[t].at.pending ==>
               s.conns[s.table[k]].client != s.threads[t].client)
  }

  ghost predicate Inv(s: State) {
    && (forall c :: 0 <= c < |s.conns| ==> ConnOk(s.conns[c]))
    && (forall t :: 0 <= t < |s.threads| ==> ThreadOk(s, t))
    && TableOk(s)
  }

  /** What no step ever undoes on a connection. */
  ghost predicate Later(a: Conn, b: Conn) {
    && (a.closed ==> b.closed && b.writes == a.writes)
    && (a.doneClosed ==> b.doneClosed)
    && (b.client == a.client || b.client.None?)
    && a.doneCloses <= b.doneCloses
  }

  lemma ActConnOk(s: State, t: nat)
    requires Inv(s) && Enabled(s, Act(t))
    ensures ConnOk(ActConn(s, t)) && Later(s.conns[s.threads[t].conn], ActConn(s, t))
  {
    assert ThreadOk(s, t);
    assert ConnOk(s.conns[s.threads[t].conn]);
  }

  /** Another thread's view of a connection survives this thread's action on it. */
  lemma OtherAtOk(s: State, t: nat, u: nat)
    requires Inv(s) && Enabled(s, Act(t)) && u < |s.threads| && u != t && s.threads[u].conn == s.threads[t].conn
    requires AtOk(s.conns[s.threads[u].conn], u, s.threads[u].at)
    ensures AtOk(ActConn(s, t), u, s.threads[u].at)
  {
    assert ThreadOk(s, t);
  }

  lemma OwnAtOk(s: State, t: nat)
    requires Inv(s) && Enabled(s, Act(t)) && ActThread(s, t).conn == s.threads[t].conn
    ensures AtOk(ActConn(s, t), t, ActThread(s, t).at)
  {
    assert ThreadOk(s, t);
    assert ConnOk(s.conns[s.threads[t].conn]);
  }

  /** A thread that does not act keeps its part of the invariant when connections only advance. */
  lemma BystanderOk(s: State, s': State, u: nat)
    requires u < |s.threads| && ThreadOk(s, u) && u < |s'.threads| && s'.threads[u] == s.threads[u]
    requires |s.conns| <= |s'.conns| && forall c :: 0 <= c < |s.conns| ==> Later(s.conns[c], s'.conns[c])
    requires !s.threads[u].at.Scan? && !s.threads[u].at.Returned? ==>
               s.threads[u].conn < |s.conns| && AtOk(s'.conns[s.threads[u].conn], u, s.threads[u].at)
    ensures ThreadOk(s', u)
  {
  }

  lemma ActorOk(s: State, s': State, t: nat)
    requires Inv(s) && Enabled(s, Act(t)) && s' == Apply(s, Act(t))
    requires forall c :: 0 <= c < |s.conns| ==> Later(s.conns[c], s'.conns[c])
    ensures ThreadOk(s', t)
  {
    assert ThreadOk(s, t);
    var th, th' := s.threads[t], s'.threads[t];
    assert ConnOk(s.conns[th.conn]);
    if th'.conn == th.conn && !th'.at.Detach? && !th'.at.Returned? {
      OwnAtOk(s, t);
    }
    forall i | 0 <= i < |th'.passed|
      ensures th'.passed[i] < |s'.conns| && ClosedFor(s'.conns[th'.passed[i]], th'.client)
    {
      if i == |th.passed| {
        assert th'.passed[i] == th.conn;
      } else {
        assert th'.passed[i] == th.passed[i];
      }
    }
  }

  lemma ActKeepsInv(s: State, t: nat)
    requires Inv(s) && Enabled(s, Act(t))
    ensures Inv(Apply(s, Act(t)))
  {
    var s' := Apply(s, Act(t));
    ActConnOk(s, t);
    ActorOk(s, s', t);
    forall u | 0 <= u < |s.threads| && u != t ensures ThreadOk(s', u) {
      assert ThreadOk(s, u);
      if s.threads[u].conn == s.threads[t].conn && !s.threads[u].at.Scan? && !s.threads[u].at.Returned? {
        OtherAtOk(s, t, u);
      }
      BystanderOk(s, s', u);
    }
    assert !ActThread(s, t).at.Scan?;
    assert TableOk(s');
  }

  lemma LookKeepsInv(s: State, t: nat, key: string)
    requires Inv(s) && Enabled(s, Look(t, key))
    ensures Inv(Apply(s, Look(t, key)))
  {
    var s' := Apply(s, Look(t, key));
    assert ThreadOk(s, t);
    forall u | 0 <= u < |s.threads| ensures ThreadOk(s', u) {
      if u != t { BystanderOk(s, s', u); }
    }
    assert forall u :: 0 <= u < |s.threads| && u != t ==> !s.threads[u].at.Scan?;
  }

  lemma EndScanKeepsInv(s: State, t: nat)
    requires Inv(s) && Enabled(s, EndScan(t))
    ensures Inv(Apply(s, EndScan(t)))
  {
    var s' := Apply(s, EndScan(t));
    assert ThreadOk(s, t);
    forall u | 0 <= u < |s.threads| ensures ThreadOk(s', u) {
      if u != t { BystanderOk(s, s', u); }
    }
    assert forall u :: 0 <= u < |s.threads| && u != t ==> !s.threads[u].at.Scan?;
  }

  lemma CallKeepsInv(s: State, step: Step)
    requires Inv(s) && Enabled(s, step) && !step.Act? && !step.Look? && !step.EndScan?
    ensures Inv(Apply(s, step))
  {
    var s' := Apply(s, step);
    forall u | 0 <= u < |s.threads| ensures ThreadOk(s', u) {
      assert ThreadOk(s, u);
      BystanderOk(s, s', u);
    }
    assert forall u :: 0 <= u < |s.threads| && s.tableLock.None? ==> !s.threads[u].at.Scan?;
    if |s'.threads| > |s.threads| { assert ThreadOk(s', |s.threads|); }
  }

  lemma InvStep(s: State, step: Step)
    requires Inv(s) && Enabled(s, step)
    ensures Inv(Apply(s, step))
    ensures |s.conns| <= |Apply(s, step).conns|
    ensures forall c :: 0 <= c < |s.conns| ==> Later(s.conns[c], Apply(s, step).conns[c])
  {
    match step
    case Act(t) =>
      ActKeepsInv(s, t);
      ActConnOk(s, t);
    case Look(t, key) => LookKeepsInv(s, t, key);
    case EndScan(t) => EndScanKeepsInv(s, t);
    case _ => CallKeepsInv(s, step);
  }

  lemma {:induction false} InvReached(steps: seq<Step>)
    requires Execute(steps).Some?
    ensures Inv(Execute(steps).value)
  {
    if steps != [] {
      var front := steps[..|steps| - 1];
      InvReached(front);
      InvStep(Execute(front).value, steps[|steps| - 1]);
    }
  }

  // ----- What every interleaving guarantees -------------------------------------------------

  /** Over a run, a connection only moves forward. */
  lemma {:induction false} RunOnlyAdvances(steps: seq<Step>, i: nat, c: nat)
    requires i <= |steps| && Execute(steps).Some?
    ensures Execute(steps[..i]).Some?
    ensures c < |Execute(steps[..i]).value.conns| ==>
              && c < |Execute(steps).value.conns|
              && Later(Execute(steps[..i]).value.conns[c], Execute(steps).value.conns[c])
  {
    if i == |steps| {
      assert steps[..i] == steps;
    } else {
      var front := steps[..|steps| - 1];
      assert front[..i] == steps[..i];
      RunOnlyAdvances(front, i, c);
      InvReached(front);
      InvStep(Execute(front).value, steps[|steps| - 1]);
    }
  }

  /**
   Under every interleaving: `closed` never reverts, no STATUS is written once it is set, Done is
   closed at most once and only after `closed`.
   */
  lemma ClosedIsFinal(steps: seq<Step>, i: nat, c: nat)
    requires i <= |steps| && Execute(steps).Some? && Execute(steps[..i]).Some?
    requires c < |Execute(steps[..i]).value.conns|
    ensures c < |Execute(steps).value.conns|
    ensures var before, now := Execute(steps[..i]).value.conns[c], Execute(steps).value.conns[c];
            && (before.closed ==> now.closed && now.writes == before.writes)
            && now.doneCloses <= 1
            && (now.doneClosed ==> now.closed)
  {
    RunOnlyAdvances(steps, i, c);
    InvReached(steps);
    assert ConnOk(Execute(steps).value.conns[c]);
  }

  /**
   If the client is attached when a step sets `closed`, the last STATUS it ever gets says "closed",
   however the run goes on.
   */
  lemma LastStatusSaysClosed(steps: seq<Step>, i: nat, c: nat)
    requires i < |steps| && Execute(steps).Some? && Execute(steps[..i]).Some? && Execute(steps[..i + 1]).Some?
    requires c < |Execute(steps[..i]).value.conns| && c < |Execute(steps[..i + 1]).value.conns|
    requires !Execute(steps[..i]).value.conns[c].closed && Execute(steps[..i + 1]).value.conns[c].closed
    requires Execute(steps[..i]).value.conns[c].client.Some?
    ensures c < |Execute(steps).value.conns|
    ensures Execute(steps).value.conns[c].writes != [] && LastWrite(Execute(steps).value.conns[c]) == Closed
  {
    RunOnlyAdvances(steps, i + 1, c);
    InvReached(steps[..i + 1]);
    assert steps[..i + 1][..i] == steps[..i];
    ClosingKeepsClient(Execute(steps[..i]).value, steps[i], c);
    assert ConnOk(Execute(steps[..i + 1]).value.conns[c]);
  }

  lemma ClosingKeepsClient(s: State, step: Step, c: nat)
    requires Enabled(s, step) && c < |s.conns| && c < |Apply(s, step).conns|
    requires !s.conns[c].closed && Apply(s, step).conns[c].closed
    ensures Apply(s, step).conns[c].client == s.conns[c].client
  {
  }

  /** safeClose returns, on any thread, only once the connection is closed and Done is closed. */
  lemma ReturnedMeansClosed(steps: seq<Step>, t: nat, i: nat)
    requires Execute(steps).Some? && t < |Execute(steps).value.threads|
    requires i < |Execute(steps).value.threads[t].passed|
    ensures var s := Execute(steps).value; var c := s.threads[t].passed[i];
            c < |s.conns| && s.conns[c].closed && s.conns[c].doneClosed && s.conns[c].doneCloses == 1
  {
    InvReached(steps);
    var s := Execute(steps).value;
    assert ThreadOk(s, t);
    assert ConnOk(s.conns[s.threads[t].passed[i]]);
  }

  /** The connections a sweep has found: closed so far, being closed, still to close. */
  function Found(th: Thread): seq<nat> {
    th.passed + (if th.at.Returned? || th.at.Scan? then [] else [th.conn]) + th.rest
  }

  /**
   closeClientConnections: when the table is unlocked no connection left in it belongs to the
   client, and every connection found stays on the sweep's list until it is closed and detached.
   */
  lemma SweepEmptiesTable(steps: seq<Step>, t: nat)
    requires Execute(steps).Some? && Enabled(Execute(steps).value, EndScan(t))
    ensures var s := Execute(steps).value; var s' := Apply(s, EndScan(t));
            && (forall k :: k in s'.table ==>
                  s'.table[k] < |s'.conns| && s'.conns[s'.table[k]].client != s.threads[t].client)
            && Found(s'.threads[t]) == Found(s.threads[t])
  {
    InvReached(steps);
  }

  /** Closing goes through the list in order and drops nothing from it. */
  lemma SweepLosesNothing(s: State, t: nat)
    requires Enabled(s, Act(t)) && s.threads[t].client.Some? && !s.threads[t].at.Update?
    ensures Found(Apply(s, Act(t)).threads[t]) == Found(s.threads[t])
    ensures Apply(s, Act(t)).threads[t].client == s.threads[t].client
  {
  }

  lemma {:induction false} FoundKept(steps: seq<Step>, i: nat, t: nat)
    requires i <= |steps| && Execute(steps).Some? && Execute(steps[..i]).Some?
    requires t < |Execute(steps[..i]).value.threads|
    requires var th := Execute(steps[..i]).value.threads[t]; th.client.Some? && !th.at.Scan?
    ensures t < |Execute(steps).value.threads|
    ensures var th, th' := Execute(steps[..i]).value.threads[t], Execute(steps).value.threads[t];
            th'.client == th.client && !th'.at.Scan? && Found(th') == Found(th)
  {
    if i == |steps| {
      assert steps[..i] == steps;
    } else {
      var front, last := steps[..|steps| - 1], steps[|steps| - 1];
      assert front[..i] == steps[..i];
      FoundKept(front, i, t);
      InvReached(front);
      assert ThreadOk(Execute(front).value, t);
      if last == Act(t) { SweepLosesNothing(Execute(front).value, t); }
    }
  }

  /**
   A sweep that has unlocked the table at moment i and has returned by the end of the run has
   closed and detached every connection it found.
   */
  lemma SweepClosesAll(steps: seq<Step>, i: nat, t: nat, k: nat)
    requires i <= |steps| && Execute(steps).Some? && Execute(steps[..i]).Some?
    requires t < |Execute(steps[..i]).value.threads| && t < |Execute(steps).value.threads|
    requires var th := Execute(steps[..i]).value.threads[t]; th.client.Some? && !th.at.Scan? && k < |Found(th)|
    requires Execute(steps).value.threads[t].at.Returned?
    ensures var th, s := Execute(steps[..i]).value.threads[t], Execute(steps).value;
            var c := Found(th)[k];
            c < |s.conns| && s.conns[c].closed && s.conns[c].doneClosed && s.conns[c].client != th.client
  {
    FoundKept(steps, i, t);
    InvReached(steps);
    assert ThreadOk(Execute(steps).value, t);
  }

  // ----- Only its own client's connections --------------------------------------------------

  /** The clients that connections were made for, in the order they were made. */
  function Owners(steps: seq<Step>): seq<Option<nat>> {
    if steps == [] then []
    else
      var last := steps[|steps| - 1];
      Owners(steps[..|steps| - 1]) + if last.NewConnection? then [last.owner] else []
  }

  /** The calls made, in order; the t-th of them is thread t. */
  function Calls(steps: seq<Step>): seq<Step> {
    if steps == [] then []
    else
      var last := steps[|steps| - 1];
      Calls(steps[..|steps| - 1]) + if last.CallUpdate? || last.CallClose? || last.CallCloseClient? then [last] else []
  }

  /** A connection has the client it was made for, or none any more. */
  ghost predicate ClientsOk(steps: seq<Step>, s: State) {
    && |Owners(steps)| == |s.conns|
    && forall c :: 0 <= c < |s.conns| ==> s.conns[c].client == Owners(steps)[c] || s.conns[c].client.None?
  }

  lemma {:induction false} ClientsReached(steps: seq<Step>)
    requires Execute(steps).Some?
    ensures ClientsOk(steps, Execute(steps).value)
  {
    if steps != [] {
      var front := steps[..|steps| - 1];
      ClientsReached(front);
      InvReached(front);
      InvStep(Execute(front).value, steps[|steps| - 1]);
      ConnsAfter(Execute(front).value, steps[|steps| - 1]);
    }
  }

  lemma ConnsAfter(s: State, step: Step)
    requires Enabled(s, step)
    ensures var conns := Apply(s, step).conns;
            if step.NewConnection? then
              |conns| == |s.conns| + 1 && conns[|s.conns|].client == step.owner && conns[..|s.conns|] == s.conns
            else
              |conns| == |s.conns|
  {
  }

  /** What thread t is doing on its own account. */
  ghost predicate ThreadFits(th: Thread, call: Step) {
    match call
    case CallUpdate(c, _) => th.client.None? && th.conn == c
    case CallClose(c) => th.client.None? && th.conn == c && !th.at.Update?
    case CallCloseClient(x) => th.client == Some(x) && !th.at.Update?
    case _ => false
  }

  ghost predicate OwnedBy(owners: seq<Option<nat>>, cs: seq<nat>, client: Option<nat>) {
    forall i :: 0 <= i < |cs| ==> cs[i] < |owners| && owners[cs[i]] == client
  }

  ghost predicate ThreadsFit(steps: seq<Step>, s: State) {
    && |Calls(steps)| == |s.threads|
    && forall t :: 0 <= t < |s.threads| ==>
         && ThreadFits(s.threads[t], Calls(steps)[t])
         && (s.threads[t].client.Some? ==> OwnedBy(Owners(steps), Found(s.threads[t]), s.threads[t].client))
  }

  lemma OwnedByMore(owners: seq<Option<nat>>, more: seq<Option<nat>>, cs: seq<nat>, client: Option<nat>)
    requires OwnedBy(owners, cs, client)
    ensures OwnedBy(owners + more, cs, client)
  {
  }

  /** How one step changes a thread: it joins, looks, or goes through its list. */
  lemma ThreadAfter(s: State, step: Step, t: nat)
    requires Inv(s) && Enabled(s, step) && t < |s.threads|
    ensures |s.threads| <= |Apply(s, step).threads|
    ensures var th, th' := s.threads[t], Apply(s, step).threads[t];
            && th'.client == th.client && (th.client.None? ==> th'.conn == th.conn)
            && (th'.at.Update? ==> th.at.Update?)
            && (th.client.Some? ==>
                  || Found(th') == Found(th)
                  || (step.Look? && step.t == t && s.conns[s.table[step.key]].client == th.client
                      && Found(th') == Found(th) + [s.table[step.key]]))
  {
    assert ThreadOk(s, t);
    if step == Act(t) && s.threads[t].client.Some? { SweepLosesNothing(s, t); }
  }

  lemma {:induction false} ThreadsFitReached(steps: seq<Step>)
    requires Execute(steps).Some?
    ensures ThreadsFit(steps, Execute(steps).value)
  {
    if steps != [] {
      var front, last := steps[..|steps| - 1], steps[|steps| - 1];
      var s := Execute(front).value;
      ThreadsFitReached(front);
      ClientsReached(front);
      InvReached(front);
      var s' := Apply(s, last);
      ThreadsAfter(s, last);
      forall t | 0 <= t < |s.threads|
        ensures ThreadFits(s'.threads[t], Calls(steps)[t])
        ensures s'.threads[t].client.Some? ==> OwnedBy(Owners(steps), Found(s'.threads[t]), s'.threads[t].client)
      {
        ThreadAfter(s, last, t);
        if s.threads[t].client.Some? {
          OwnedByMore(Owners(front), Owners(steps)[|Owners(front)|..], Found(s.threads[t]), s.threads[t].client);
        }
      }
    }
  }

  /** A call adds its thread at the end; no other step adds one. */
  lemma ThreadsAfter(s: State, step: Step)
    requires Enabled(s, step)
    ensures var threads := Apply(s, step).threads;
            if step.CallUpdate? || step.CallClose? || step.CallCloseClient? then
              && |threads| == |s.threads| + 1 && ThreadFits(threads[|s.threads|], step)
              && (threads[|s.threads|].client.Some? ==> Found(threads[|s.threads|]) == [])
            else
              |threads| == |s.threads|
  {
  }

  /**
   In every run, the connections on a sweep's list were made for the client that is leaving, and for
   nobody else.
   */
  lemma SweepFindsOnlyItsClient(steps: seq<Step>, t: nat, x: nat, i: nat)
    requires Execute(steps).Some? && t < |Calls(steps)| && Calls(steps)[t] == CallCloseClient(x)
    requires t < |Execute(steps).value.threads| && i < |Found(Execute(steps).value.threads[t])|
    ensures var c := Found(Execute(steps).value.threads[t])[i];
            c < |Owners(steps)| && Owners(steps)[c] == Some(x)
  {
    ThreadsFitReached(steps);
  }

  /** While a sweep scans, table entries of connections that are not its client's stay. */
  lemma {:induction false} SweepKeepsOthersInTable(steps: seq<Step>, i: nat, t: nat, k: string)
    requires i <= |steps| && Execute(steps).Some? && Execute(steps[..i]).Some?
    requires t < |Execute(steps[..i]).value.threads| && t < |Execute(steps).value.threads|
    requires Execute(steps[..i]).value.threads[t].at.Scan? && Execute(steps).value.threads[t].at.Scan?
    requires var s := Execute(steps[..i]).value;
             k in s.table && s.table[k] < |s.conns| && s.conns[s.table[k]].client != s.threads[t].client
    ensures k in Execute(steps).value.table && Execute(steps).value.table[k] == Execute(steps[..i]).value.table[k]
    ensures var s, c := Execute(steps).value, Execute(steps[..i]).value.table[k];
            && c < |s.conns| && s.threads[t].client == Execute(steps[..i]).value.threads[t].client
            && s.conns[c].client != s.threads[t].client
  {
    if i < |steps| {
      var front, last := steps[..|steps| - 1], steps[|steps| - 1];
      assert front[..i] == steps[..i];
      StillScanning(steps, i, t);
      SweepKeepsOthersInTable(front, i, t, k);
      InvReached(front);
      OthersStay(Execute(front).value, last, t, k);
    } else {
      assert steps[..i] == steps;
    }
  }

  lemma OthersStay(s: State, step: Step, t: nat, k: string)
    requires Inv(s) && Enabled(s, step) && t < |s.threads| && s.threads[t].at.Scan?
    requires k in s.table && s.table[k] < |s.conns| && s.conns[s.table[k]].client != s.threads[t].client
    ensures var s' := Apply(s, step);
            && k in s'.table && s'.table[k] == s.table[k] && s'.threads[t].client == s.threads[t].client
            && s.table[k] < |s'.conns| && s'.conns[s.table[k]].client != s'.threads[t].client
  {
    InvStep(s, step);
    ThreadAfter(s, step, t);
    assert s.tableLock == Some(t) && s.threads[t].client.Some?;
    assert Later(s.conns[s.table[k]], Apply(s, step).conns[s.table[k]]);
  }

  /** A thread that scans at the end has scanned since it began. */
  lemma StillScanning(steps: seq<Step>, i: nat, t: nat)
    requires i < |steps| && Execute(steps).Some? && Execute(steps[..i]).Some?
    requires t < |Execute(steps[..i]).value.threads| && t < |Execute(steps).value.threads|
    requires Execute(steps).value.threads[t].at.Scan?
    ensures Execute(steps[..|steps| - 1]).Some?
    ensures t < |Execute(steps[..|steps| - 1]).value.threads| && Execute(steps[..|steps| - 1]).value.threads[t].at.Scan?
  {
    ThreadCountGrows(steps[..|steps| - 1], i);
    assert steps[..|steps| - 1][..i] == steps[..i];
  }

  lemma {:induction false} ThreadCountGrows(steps: seq<Step>, i: nat)
    requires i <= |steps| && Execute(steps).Some?
    ensures Execute(steps[..i]).Some? && |Execute(steps[..i]).value.threads| <= |Execute(steps).value.threads|
  {
    if i < |steps| {
      var front := steps[..|steps| - 1];
      ThreadCountGrows(front, i);
      assert front[..i] == steps[..i];
      ThreadsAfter(Execute(front).value, steps[|steps| - 1]);
    } else {
      assert steps[..i] == steps;
    }
  }

  // ----- What closes a connection -----------------------------------------------------------

  /** The call asks for connection c to be closed, directly or because its client is leaving. */
  predicate AsksToClose(owners: seq<Option<nat>>, call: Step, c: nat) {
    match call
    case CallUpdate(d, state) => d == c && state == Closed
    case CallClose(d) => d == c
    case CallCloseClient(x) => c < |owners| && owners[c] == Some(x)
    case _ => false
  }

  ghost predicate Asked(steps: seq<Step>, c: nat) {
    exists t :: 0 <= t < |Calls(steps)| && AsksToClose(Owners(steps), Calls(steps)[t], c)
  }

  /** The thread is past the point where it decides to close its connection. */
  predicate Closing(th: Thread) {
    th.at.Detach? || th.at.EnterOnce? || InsideOnce(th.at) || th.at == Update(Closed)
  }

  ghost predicate ClosingIsAsked(steps: seq<Step>, s: State) {
    && (forall c :: 0 <= c < |s.conns| && s.conns[c].closed ==> Asked(steps, c))
    && (forall t :: 0 <= t < |s.threads| && t < |Calls(steps)| && s.threads[t].client.None? && Closing(s.threads[t]) ==>
          AsksToClose(Owners(steps), Calls(steps)[t], s.threads[t].conn))
  }

  lemma AskedKept(steps: seq<Step>, c: nat)
    requires steps != [] && Asked(steps[..|steps| - 1], c)
    ensures Asked(steps, c)
  {
    var front := steps[..|steps| - 1];
    var t :| 0 <= t < |Calls(front)| && AsksToClose(Owners(front), Calls(front)[t], c);
    assert Calls(steps)[t] == Calls(front)[t];
    AsksKept(Owners(front), Owners(steps)[|Owners(front)|..], Calls(front)[t], c);
  }

  lemma AsksKept(owners: seq<Option<nat>>, more: seq<Option<nat>>, call: Step, c: nat)
    requires AsksToClose(owners, call, c)
    ensures AsksToClose(owners + more, call, c)
  {
  }

  /** A thread comes to be closing only by its own Update(Closed), its call, or its list. */
  lemma ClosingAfter(s: State, step: Step, t: nat)
    requires Inv(s) && Enabled(s, step) && t < |s.threads| && s.threads[t].client.None?
    requires Closing(Apply(s, step).threads[t])
    ensures Closing(s.threads[t])
  {
    assert ThreadOk(s, t);
  }

  /** Only a thread at Seal sets closed, and it does so for its own connection. */
  lemma ClosedAfter(s: State, step: Step, c: nat)
    requires Enabled(s, step) && c < |Apply(s, step).conns| && Apply(s, step).conns[c].closed
    requires c < |s.conns| ==> !s.conns[c].closed
    ensures c < |s.conns| && step.Act? && s.threads[step.t].conn == c && s.threads[step.t].at.Seal?
  {
  }

  lemma {:induction false} ClosingIsAskedReached(steps: seq<Step>)
    requires Execute(steps).Some?
    ensures ClosingIsAsked(steps, Execute(steps).value)
  {
    if steps != [] {
      var front, last := steps[..|steps| - 1], steps[|steps| - 1];
      var s, s' := Execute(front).value, Execute(steps).value;
      ClosingIsAskedReached(front);
      ThreadsFitReached(front);
      InvReached(front);
      ThreadsAfter(s, last);
      forall c | 0 <= c < |s'.conns| && s'.conns[c].closed ensures Asked(steps, c) {
        if c >= |s.conns| || !s.conns[c].closed {
          ClosedAfter(s, last, c);
          SealingIsAsked(front, s, last.t);
        }
        AskedKept(steps, c);
      }
      forall t | 0 <= t < |s'.threads| && s'.threads[t].client.None? && Closing(s'.threads[t])
        ensures AsksToClose(Owners(steps), Calls(steps)[t], s'.threads[t].conn)
      {
        if t < |s.threads| {
          ThreadAfter(s, last, t);
          ClosingAfter(s, last, t);
          AsksKept(Owners(front), Owners(steps)[|Owners(front)|..], Calls(front)[t], s.threads[t].conn);
        }
      }
    }
  }

  lemma SealingIsAsked(steps: seq<Step>, s: State, t: nat)
    requires ThreadsFit(steps, s) && ClosingIsAsked(steps, s) && t < |s.threads| && s.threads[t].at.Seal?
    ensures Asked(steps, s.threads[t].conn)
  {
    var th := s.threads[t];
    if th.client.Some? {
      assert Found(th)[|th.passed|] == th.conn;
      assert OwnedBy(Owners(steps), Found(th), th.client);
    }
    assert AsksToClose(Owners(steps), Calls(steps)[t], th.conn);
  }

  /**
   In every run, a connection is closed only if some call asked for it: safeClose on it, an update to
   "closed", or the departure of the client it was made for.
   */
  lemma ClosedOnlyIfAsked(steps: seq<Step>, c: nat)
    requires Execute(steps).Some? && c < |Execute(steps).value.conns| && Execute(steps).value.conns[c].closed
    ensures exists t :: 0 <= t < |Calls(steps)| && AsksToClose(Owners(steps), Calls(steps)[t], c)
  {
    ClosingIsAskedReached(steps);
  }

  /** Conversely, once safeClose or an update to "closed" has returned, the connection is closed. */
  ghost predicate DirectCallsClose(steps: seq<Step>, s: State) {
    forall t :: 0 <= t < |s.threads| && t < |Calls(steps)| ==>
      match Calls(steps)[t]
      case CallClose(c) =>
        s.threads[t].at.EnterOnce? || InsideOnce(s.threads[t].at) || (c < |s.conns| && s.conns[c].closed)
      case CallUpdate(c, Closed) =>
        s.threads[t].at == Update(Closed) || s.threads[t].at.EnterOnce? || InsideOnce(s.threads[t].at)
        || (c < |s.conns| && s.conns[c].closed)
      case _ => true
  }

  lemma DirectAfter(s: State, step: Step, t: nat)
    requires Inv(s) && Enabled(s, step) && t < |s.threads| && s.threads[t].client.None?
    requires s.threads[t].at == Update(Closed) || s.threads[t].at.EnterOnce? || InsideOnce(s.threads[t].at)
    ensures var s' := Apply(s, step); var th' := s'.threads[t]; var c := s.threads[t].conn;
            || th'.at == s.threads[t].at || th'.at.EnterOnce? || InsideOnce(th'.at)
            || (c < |s'.conns| && s'.conns[c].closed)
  {
    assert ThreadOk(s, t);
    assert ConnOk(s.conns[s.threads[t].conn]);
  }

  lemma {:induction false} DirectCallsReached(steps: seq<Step>)
    requires Execute(steps).Some?
    ensures DirectCallsClose(steps, Execute(steps).value)
  {
    if steps != [] {
      var front, last := steps[..|steps| - 1], steps[|steps| - 1];
      var s, s' := Execute(front).value, Execute(steps).value;
      DirectCallsReached(front);
      ThreadsFitReached(front);
      InvReached(front);
      InvStep(s, last);
      ThreadsAfter(s, last);
      forall t | 0 <= t < |s.threads| && s.threads[t].client.None? && Closing(s.threads[t]) && !s.threads[t].at.Detach?
        ensures var th', c := s'.threads[t], s.threads[t].conn;
                || th'.at == s.threads[t].at || th'.at.EnterOnce? || InsideOnce(th'.at)
                || (c < |s'.conns| && s'.conns[c].closed)
      {
        DirectAfter(s, last, t);
      }
    }
  }

  lemma DirectCallHasClosed(steps: seq<Step>, t: nat, c: nat)
    requires Execute(steps).Some? && t < |Calls(steps)| && Calls(steps)[t] in {CallClose(c), CallUpdate(c, Closed)}
    requires t < |Execute(steps).value.threads| && Execute(steps).value.threads[t].at.Returned?
    ensures c < |Execute(steps).value.conns| && Execute(steps).value.conns[c].closed
  {
    DirectCallsReached(steps);
  }

  // ----- A sweep finds all of them ----------------------------------------------------------

  /** Connection c of the sweep's client is on its list, or no longer the client's, or still to be looked at. */
  ghost predicate NotMissed(s: State, t: nat, k: string, c: nat)
    requires t < |s.threads|
  {
    || c in Found(s.threads[t])
    || (c < |s.conns| && s.conns[c].client != s.threads[t].client)
    || (s.threads[t].at.Scan? && k in s.table && s.table[k] == c)
  }

  lemma NotMissedAfter(s: State, step: Step, t: nat, k: string, c: nat)
    requires Inv(s) && Enabled(s, step) && t < |s.threads| && s.threads[t].client.Some? && NotMissed(s, t, k, c)
    ensures t < |Apply(s, step).threads| && NotMissed(Apply(s, step), t, k, c)
  {
    InvStep(s, step);
    ThreadAfter(s, step, t);
    var s' := Apply(s, step);
    if c < |s.conns| { assert Later(s.conns[c], s'.conns[c]); }
    if s.threads[t].at.Scan? && k in s.table && s.table[k] == c && c !in Found(s.threads[t]) {
      assert s.tableLock == Some(t);
      if step == Look(t, k) && s.conns[c].client == s.threads[t].client {
        assert Found(s'.threads[t])[|Found(s.threads[t])|] == c;
      }
    }
  }

  /**
   In every run, a connection of the client that is in the table while the sweep scans ends up on the
   sweep's list, unless it stops being the client's: once the table is unlocked, one or the other holds.
   */
  lemma {:induction false} SweepFindsAll(steps: seq<Step>, i: nat, t: nat, k: string)
    requires i <= |steps| && Execute(steps).Some? && Execute(steps[..i]).Some?
    requires t < |Execute(steps[..i]).value.threads| && Execute(steps[..i]).value.threads[t].at.Scan?
    requires k in Execute(steps[..i]).value.table
    ensures t < |Execute(steps).value.threads|
    ensures var s, c := Execute(steps).value, Execute(steps[..i]).value.table[k];
            && s.threads[t].client == Execute(steps[..i]).value.threads[t].client && s.threads[t].client.Some?
            && NotMissed(s, t, k, c)
            && (!s.threads[t].at.Scan? ==> c in Found(s.threads[t]) || s.conns[c].client != s.threads[t].client)
  {
    InvReached(steps[..i]);
    if i < |steps| {
      var front := steps[..|steps| - 1];
      assert front[..i] == steps[..i];
      ThreadCountGrows(front, i);
      SweepFindsAll(front, i, t, k);
      InvReached(front);
      NotMissedAfter(Execute(front).value, steps[|steps| - 1], t, k, Execute(steps[..i]).value.table[k]);
      ThreadAfter(Execute(front).value, steps[|steps| - 1], t);
    } else {
      assert steps[..i] == steps;
    }
  }

  // ----- What clients are told --------------------------------------------------------------

  /**
   In every reachable state: an update on an open connection sets its status and sends exactly that
   state to an attached client; closing an open connection sends "closed" exactly when the client is
   attached and the status is another; nothing else writes.
   */
  lemma WritesExactly(steps: seq<Step>, step: Step, c: nat)
    requires Execute(steps).Some? && Enabled(Execute(steps).value, step) && c < |Execute(steps).value.conns|
    ensures c < |Apply(Execute(steps).value, step).conns|
    ensures var s := Execute(steps).value; var before, now := s.conns[c], Apply(s, step).conns[c];
            var acts := step.Act? && s.threads[step.t].conn == c;
            if acts && s.threads[step.t].at.Update? && !before.closed then
              && now.status == s.threads[step.t].at.state
              && now.writes == before.writes + if before.client.Some? then [s.threads[step.t].at.state] else []
            else if acts && s.threads[step.t].at.Seal? && before.client.Some? && before.status != Closed then
              now.status == Closed && now.writes == before.writes + [Closed]
            else
              now.writes == before.writes
  {
    InvReached(steps);
    InvStep(Execute(steps).value, step);
    if step.Act? { assert ThreadOk(Execute(steps).value, step.t); }
  }

  // ----- Every call returns -----------------------------------------------------------------

  predicate InsideOnce(p: Point) {
    p.Seal? || p.SignalDone? || p.LeaveOnce?
  }

  /** Whoever a Once is running for is inside it, on that connection. */
  ghost predicate RunnersInside(s: State) {
    forall c :: 0 <= c < |s.conns| && s.conns[c].once.Running? ==>
      var t := s.conns[c].once.runner;
      t < |s.threads| && s.threads[t].conn == c && InsideOnce(s.threads[t].at)
  }

  /** Whoever holds the table lock is scanning. */
  predicate HolderScans(s: State) {
    s.tableLock.Some? ==> s.tableLock.value < |s.threads| && s.threads[s.tableLock.value].at.Scan?
  }

  /** In every run the table is locked only by a sweep that scans, so it is unlocked when the scan ends. */
  lemma {:induction false} LockIsReleased(steps: seq<Step>)
    requires Execute(steps).Some?
    ensures HolderScans(Execute(steps).value)
  {
    if steps != [] {
      LockIsReleased(steps[..|steps| - 1]);
      InvReached(steps[..|steps| - 1]);
      HolderAfter(Execute(steps[..|steps| - 1]).value, steps[|steps| - 1]);
    }
  }

  lemma HolderAfter(s: State, step: Step)
    requires Inv(s) && HolderScans(s) && Enabled(s, step)
    ensures HolderScans(Apply(s, step))
  {
  }

  lemma ActKeepsRunners(s: State, t: nat)
    requires Inv(s) && RunnersInside(s) && Enabled(s, Act(t))
    ensures RunnersInside(Apply(s, Act(t)))
  {
    assert ThreadOk(s, t);
    assert forall c :: 0 <= c < |s.conns| && c != s.threads[t].conn ==> Apply(s, Act(t)).conns[c] == s.conns[c];
  }

  lemma OthersKeepRunners(s: State, step: Step)
    requires Inv(s) && RunnersInside(s) && Enabled(s, step) && !step.Act?
    ensures RunnersInside(Apply(s, step))
  {
  }

  lemma {:induction false} RunnersReached(steps: seq<Step>)
    requires Execute(steps).Some?
    ensures RunnersInside(Execute(steps).value)
  {
    if steps != [] {
      var front, last := steps[..|steps| - 1], steps[|steps| - 1];
      RunnersReached(front);
      InvReached(front);
      if last.Act? {
        ActKeepsRunners(Execute(front).value, last.t);
      } else {
        OthersKeepRunners(Execute(front).value, last);
      }
    }
  }

  predicate OfAThread(step: Step) {
    step.Act? || step.Look? || step.EndScan?
  }

  /** While a call has not returned, some call can take a step: nobody waits for ever on a lock or a Once. */
  lemma AlwaysSomeStep(steps: seq<Step>, t: nat)
    requires Execute(steps).Some? && t < |Execute(steps).value.threads| && !Execute(steps).value.threads[t].at.Returned?
    ensures exists step :: OfAThread(step) && Enabled(Execute(steps).value, step)
  {
    InvReached(steps);
    RunnersReached(steps);
    var s := Execute(steps).value;
    var th := s.threads[t];
    assert ThreadOk(s, t);
    if th.at.Scan? {
      if key :| key in th.at.pending {
        assert Enabled(s, Look(t, key)) && OfAThread(Look(t, key));
      } else {
        assert Enabled(s, EndScan(t)) && OfAThread(EndScan(t));
      }
    } else if th.at.EnterOnce? && s.conns[th.conn].once.Running? {
      var u := s.conns[th.conn].once.runner;
      assert Enabled(s, Act(u)) && OfAThread(Act(u));
    } else {
      assert Enabled(s, Act(t)) && OfAThread(Act(t));
    }
  }

  /** How many steps a call may still take; a connection to look at may become one to close. */
  function Remaining(th: Thread): nat {
    5 * |th.rest| +
    match th.at
    case Update(_) => 6
    case Scan(pending) => 6 * |pending| + 1
    case Detach => 5
    case EnterOnce => 4
    case Seal => 3
    case SignalDone => 2
    case LeaveOnce => 1
    case Returned => 0
  }

  function Work(threads: seq<Thread>): nat {
    if threads == [] then 0 else Work(threads[..|threads| - 1]) + Remaining(threads[|threads| - 1])
  }

  lemma {:induction false} WorkUpdate(threads: seq<Thread>, t: nat, th: Thread)
    requires t < |threads|
    ensures Work(threads[t := th]) == Work(threads) - Remaining(threads[t]) + Remaining(th)
  {
    var last := |threads| - 1;
    if t < last {
      WorkUpdate(threads[..last], t, th);
      assert threads[t := th][..last] == threads[..last][t := th];
    } else {
      assert threads[t := th][..last] == threads[..last];
    }
  }

  lemma ThreadMovesOn(s: State, step: Step)
    requires OfAThread(step) && Enabled(s, step)
    ensures step.t < |s.threads|
    ensures var th' := Apply(s, step).threads[step.t];
            Apply(s, step).threads == s.threads[step.t := th'] && Remaining(th') < Remaining(s.threads[step.t])
  {
  }

  /** With AlwaysSomeStep: once no new calls are made, every call returns. */
  lemma StepsRunOut(s: State, step: Step)
    requires OfAThread(step) && Enabled(s, step)
    ensures Work(Apply(s, step).threads) < Work(s.threads)
  {
    ThreadMovesOn(s, step);
    WorkUpdate(s.threads, step.t, Apply(s, step).threads[step.t]);
  }
}
