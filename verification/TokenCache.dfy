/**
 readServiceAccountToken of backend/cmd/multiplexer.go: a token cache keyed by path and refreshed
 when the file's mtime changes, shared by many goroutines while the file is rotated.

 Each call takes the source's atomic actions one at a time: stat, look up under the read lock,
 read the file, store under the write lock. Actions of different calls and rotations of files
 interleave freely; a run records every state it passes through.
 */
module TokenCache {
  import opened Common

  datatype File = File(mtime: int, content: string)
  type Files = map<string, File>
  datatype Entry = Entry(token: string, mtime: int)
  datatype Error = StatFailed | ReadFailed | EmptyToken

  datatype Phase =
    | Statted(path: string, mtime: int)
    | Missed(path: string, mtime: int)
    | HasToken(path: string, mtime: int, token: string)
    | Returned(path: string, result: Result<string, Error>)

  /** Files present, the cache, and the calls made so far; each call has its own number. */
  datatype State = State(files: Files, cache: map<string, Entry>, calls: map<nat, Phase>)

  datatype Step =
    | Stat(c: nat, path: string, fails: bool)
    | Lookup(c: nat)
    | Read(c: nat, fails: bool)
    | Store(c: nat)
    | Rotate(path: string, file: Option<File>)

  /** The files after one of them was replaced or removed. */
  function Rotated(files: Files, path: string, file: Option<File>): Files {
    if file.Some? then files[path := file.value] else files - {path}
  }

  predicate Enabled(s: State, step: Step) {
    match step
    case Stat(c, p, fails) => c !in s.calls && (p !in s.files ==> fails)
    case Lookup(c) => c in s.calls && s.calls[c].Statted?
    case Read(c, fails) => c in s.calls && s.calls[c].Missed? && (s.calls[c].path !in s.files ==> fails)
    case Store(c) => c in s.calls && s.calls[c].HasToken?
    case Rotate(_, _) => true
  }

  function Apply(s: State, step: Step): State
    requires Enabled(s, step)
  {
    match step
    case Stat(c, p, fails) =>
      s.(calls := s.calls[c := if fails then Returned(p, Failure(StatFailed)) else Statted(p, s.files[p].mtime)])
    case Lookup(c) =>
      var p, m := s.calls[c].path, s.calls[c].mtime;
      if p in s.cache && s.cache[p].mtime == m
      then s.(calls := s.calls[c := Returned(p, Success(s.cache[p].token))])
      else s.(calls := s.calls[c := Missed(p, m)])
    case Read(c, fails) =>
      var p, m := s.calls[c].path, s.calls[c].mtime;
      if fails then s.(calls := s.calls[c := Returned(p, Failure(ReadFailed))])
      else
        var token := TrimSpace(s.files[p].content);
        s.(calls := s.calls[c := if token == "" then Returned(p, Failure(EmptyToken)) else HasToken(p, m, token)])
    case Store(c) =>
      var p, m, token := s.calls[c].path, s.calls[c].mtime, s.calls[c].token;
      s.(cache := s.cache[p := Entry(token, m)], calls := s.calls[c := Returned(p, Success(token))])
    case Rotate(p, f) =>
      s.(files := Rotated(s.files, p, f))
  }

  /** A run starts with an empty cache and no calls, over any files. */
  predicate IsRun(run: seq<State>, steps: seq<Step>) {
    && |run| == |steps| + 1
    && run[0].cache == map[] && run[0].calls == map[]
    && forall i :: 0 <= i < |steps| ==> Enabled(run[i], steps[i]) && run[i + 1] == Apply(run[i], steps[i])
  }

  predicate MtimeAt(run: seq<State>, k: nat, p: string, m: int)
    requires k < |run|
  {
    p in run[k].files && run[k].files[p].mtime == m
  }

  /** The file holds that token, apart from white space around it. */
  ghost predicate HoldsIn(files: Files, p: string, token: string) {
    p in files && TrimsTo(files[p].content, token)
  }

  /** At moment k it did. */
  ghost predicate HeldAt(run: seq<State>, k: nat, p: string, token: string)
    requires k < |run|
  {
    HoldsIn(run[k].files, p, token)
  }

  /**
   Whenever the file shows one mtime twice, a token it held in between, or at either end, is the one
   it holds the second time.
   */
  ghost predicate Consistent(run: seq<State>) {
    forall p, m, token, a: nat, r: nat, b: nat ::
      a <= r <= b < |run| && MtimeAt(run, a, p, m) && HeldAt(run, r, p, token) && MtimeAt(run, b, p, m) && token != ""
      ==> HeldAt(run, b, p, token)
  }

  // ----- The invariant ----------------------------------------------------------------------

  ghost predicate HeldSince(run: seq<State>, i: nat, n: nat, p: string, token: string)
    requires n < |run|
  {
    exists k: nat :: i <= k <= n && HeldAt(run, k, p, token)
  }

  ghost predicate Seen(run: seq<State>, n: nat, p: string, m: int)
    requires n < |run|
  {
    exists i: nat :: i <= n && MtimeAt(run, i, p, m)
  }

  /** Some call saw the mtime at moment a and read the token at moment r. */
  ghost predicate ReadAfter(run: seq<State>, a: nat, r: nat, p: string, m: int, token: string)
    requires a <= r < |run|
  {
    token != "" && MtimeAt(run, a, p, m) && HeldAt(run, r, p, token)
  }

  ghost predicate Sourced(run: seq<State>, n: nat, p: string, m: int, token: string)
    requires n < |run|
  {
    exists a: nat, r: nat :: a <= r <= n && ReadAfter(run, a, r, p, m, token)
  }

  ghost predicate PhaseSound(run: seq<State>, n: nat, phase: Phase)
    requires n < |run|
  {
    match phase
    case Statted(p, m) => Seen(run, n, p, m)
    case Missed(p, m) => Seen(run, n, p, m)
    case HasToken(p, m, token) => Sourced(run, n, p, m, token)
    case Returned(_, _) => true
  }

  ghost predicate Inv(run: seq<State>, n: nat)
    requires n < |run|
  {
    && (forall p :: p in run[n].cache ==> Sourced(run, n, p, run[n].cache[p].mtime, run[n].cache[p].token))
    && (forall c :: c in run[n].calls ==> PhaseSound(run, n, run[n].calls[c]))
  }

  lemma SeenExtends(run: seq<State>, n: nat, p: string, m: int)
    requires n + 1 < |run| && Seen(run, n, p, m)
    ensures Seen(run, n + 1, p, m)
  {
    var i: nat :| i <= n && MtimeAt(run, i, p, m);
  }

  lemma SourcedExtends(run: seq<State>, n: nat, p: string, m: int, token: string)
    requires n + 1 < |run| && Sourced(run, n, p, m, token)
    ensures Sourced(run, n + 1, p, m, token)
  {
    var a: nat, r: nat :| a <= r <= n && ReadAfter(run, a, r, p, m, token);
  }

  lemma JustRead(run: seq<State>, n: nat, p: string, m: int, token: string)
    requires n + 1 < |run| && token != "" && Seen(run, n, p, m) && HeldAt(run, n, p, token)
    ensures Sourced(run, n + 1, p, m, token)
  {
    var a: nat :| a <= n && MtimeAt(run, a, p, m);
    assert ReadAfter(run, a, n, p, m, token);
  }

  lemma PhaseExtends(run: seq<State>, n: nat, phase: Phase)
    requires n + 1 < |run| && PhaseSound(run, n, phase)
    ensures PhaseSound(run, n + 1, phase)
  {
    match phase
    case Statted(p, m) => SeenExtends(run, n, p, m);
    case Missed(p, m) => SeenExtends(run, n, p, m);
    case HasToken(p, m, token) => SourcedExtends(run, n, p, m, token);
    case Returned(_, _) =>
  }

  /** The acting call's new phase is sound. */
  lemma ActingPhaseSound(run: seq<State>, n: nat, step: Step)
    requires n + 1 < |run| && Enabled(run[n], step) && run[n + 1] == Apply(run[n], step) && !step.Rotate?
    requires !step.Stat? ==> PhaseSound(run, n, run[n].calls[step.c])
    ensures PhaseSound(run, n + 1, run[n + 1].calls[step.c])
  {
    match run[n + 1].calls[step.c]
    case Statted(p, m) =>
      assert MtimeAt(run, n, p, m);
      SeenExtends(run, n, p, m);
    case Missed(p, m) => SeenExtends(run, n, p, m);
    case HasToken(p, m, token) =>
      TrimSpaceTrims(run[n].files[p].content);
      JustRead(run, n, p, m, token);
    case Returned(_, _) =>
  }

  lemma CacheStep(run: seq<State>, steps: seq<Step>, n: nat, p: string)
    requires IsRun(run, steps) && n < |steps| && Inv(run, n) && p in run[n + 1].cache
    ensures Sourced(run, n + 1, p, run[n + 1].cache[p].mtime, run[n + 1].cache[p].token)
  {
    var s, step := run[n], steps[n];
    if step.Store? && s.calls[step.c].path == p {
      assert PhaseSound(run, n, s.calls[step.c]);
      SourcedExtends(run, n, p, s.calls[step.c].mtime, s.calls[step.c].token);
    } else {
      SourcedExtends(run, n, p, s.cache[p].mtime, s.cache[p].token);
    }
  }

  lemma InvStep(run: seq<State>, steps: seq<Step>, n: nat)
    requires IsRun(run, steps) && n < |steps| && Inv(run, n)
    ensures Inv(run, n + 1)
  {
    var s' := run[n + 1];
    forall p | p in s'.cache ensures Sourced(run, n + 1, p, s'.cache[p].mtime, s'.cache[p].token) {
      CacheStep(run, steps, n, p);
    }
    forall c | c in s'.calls ensures PhaseSound(run, n + 1, s'.calls[c]) {
      if !steps[n].Rotate? && steps[n].c == c {
        ActingPhaseSound(run, n, steps[n]);
      } else {
        PhaseExtends(run, n, run[n].calls[c]);
      }
    }
  }

  lemma {:induction false} InvHolds(run: seq<State>, steps: seq<Step>, n: nat)
    requires IsRun(run, steps) && n < |run|
    ensures Inv(run, n)
  {
    if n > 0 {
      InvHolds(run, steps, n - 1);
      InvStep(run, steps, n - 1);
    }
  }

  /** A call that saw the mtime at moment i may be served from the cache at moment n. */
  lemma CachedIsHeld(run: seq<State>, i: nat, n: nat, p: string, m: int, token: string)
    requires Consistent(run) && i <= n < |run| && MtimeAt(run, i, p, m) && Sourced(run, n, p, m, token)
    ensures token != "" && HeldSince(run, i, n, p, token)
  {
    var a: nat, r: nat :| a <= r <= n && ReadAfter(run, a, r, p, m, token);
    if r < i { assert HeldAt(run, i, p, token); }
  }

  // ----- Linearizability --------------------------------------------------------------------

  /** Where a call to read p that was started by step i stands at moment n. */
  ghost predicate Tracks(run: seq<State>, i: nat, n: nat, p: string, phase: Phase)
    requires i < |run| && n < |run|
  {
    phase.path == p &&
    match phase
    case Statted(_, m) => MtimeAt(run, i, p, m)
    case Missed(_, m) => MtimeAt(run, i, p, m)
    case HasToken(_, m, token) => token != "" && HeldSince(run, i, n, p, token)
    case Returned(_, Success(token)) => token != "" && HeldSince(run, i, n, p, token)
    case Returned(_, Failure(e)) => e == EmptyToken ==> HeldSince(run, i, n, p, "")
  }

  lemma HeldSinceExtends(run: seq<State>, i: nat, n: nat, p: string, token: string)
    requires n + 1 < |run| && HeldSince(run, i, n, p, token)
    ensures HeldSince(run, i, n + 1, p, token)
  {
    var k: nat :| i <= k <= n && HeldAt(run, k, p, token);
  }

  lemma TracksExtends(run: seq<State>, i: nat, n: nat, p: string, phase: Phase)
    requires i <= n && n + 1 < |run| && Tracks(run, i, n, p, phase)
    ensures Tracks(run, i, n + 1, p, phase)
  {
    match phase
    case Statted(_, _) =>
    case Missed(_, _) =>
    case HasToken(_, m, token) => HeldSinceExtends(run, i, n, p, token);
    case Returned(_, Success(token)) => HeldSinceExtends(run, i, n, p, token);
    case Returned(_, Failure(e)) => if e == EmptyToken { HeldSinceExtends(run, i, n, p, ""); }
  }

  /** The call's own next action keeps it tracked. */
  lemma TracksOwnStep(run: seq<State>, i: nat, n: nat, p: string, step: Step)
    requires i <= n && n + 1 < |run| && Enabled(run[n], step) && run[n + 1] == Apply(run[n], step)
    requires !step.Rotate? && !step.Stat? && Consistent(run) && Inv(run, n)
    requires Tracks(run, i, n, p, run[n].calls[step.c])
    ensures Tracks(run, i, n + 1, p, run[n + 1].calls[step.c])
  {
    var c := step.c;
    match step
    case Lookup(_) =>
      var m := run[n].calls[c].mtime;
      if p in run[n].cache && run[n].cache[p].mtime == m {
        CachedIsHeld(run, i, n, p, m, run[n].cache[p].token);
        HeldSinceExtends(run, i, n, p, run[n].cache[p].token);
      }
    case Read(_, fails) =>
      if !fails {
        TrimSpaceTrims(run[n].files[p].content);
        assert HeldAt(run, n, p, TrimSpace(run[n].files[p].content));
        HeldSinceExtends(run, i, n, p, TrimSpace(run[n].files[p].content));
      }
    case Store(_) => HeldSinceExtends(run, i, n, p, run[n].calls[c].token);
  }

  lemma TracksStep(run: seq<State>, i: nat, n: nat, p: string, c: nat, step: Step)
    requires i <= n && n + 1 < |run| && Enabled(run[n], step) && run[n + 1] == Apply(run[n], step)
    requires Consistent(run) && Inv(run, n) && c in run[n].calls && Tracks(run, i, n, p, run[n].calls[c])
    ensures c in run[n + 1].calls && Tracks(run, i, n + 1, p, run[n + 1].calls[c])
  {
    if !step.Rotate? && step.c == c {
      TracksOwnStep(run, i, n, p, step);
    } else {
      TracksExtends(run, i, n, p, run[n].calls[c]);
    }
  }

  lemma {:induction false} CallTracked(run: seq<State>, steps: seq<Step>, i: nat, n: nat)
    requires IsRun(run, steps) && Consistent(run)
    requires i < n < |run| && steps[i].Stat?
    ensures steps[i].c in run[n].calls && Tracks(run, i, n, steps[i].path, run[n].calls[steps[i].c])
  {
    if n > i + 1 {
      CallTracked(run, steps, i, n - 1);
      InvHolds(run, steps, n - 1);
      TracksStep(run, i, n - 1, steps[i].path, steps[i].c, steps[n - 1]);
    }
  }

  /** What a caller sees is the file at some moment between the call's stat and its return. */
  ghost predicate Explained(run: seq<State>, i: nat, j: nat, p: string, result: Result<string, Error>)
    requires j < |run|
  {
    match result
    case Success(token) => token != "" && HeldSince(run, i, j, p, token)
    case Failure(e) => e == EmptyToken ==> HeldSince(run, i, j, p, "")
  }

  ghost predicate Linearizable(run: seq<State>, steps: seq<Step>)
    requires IsRun(run, steps)
  {
    forall i: nat, j: nat ::
      i < j < |run| && steps[i].Stat? && steps[i].c in run[j].calls && run[j].calls[steps[i].c].Returned?
      ==> Explained(run, i, j, steps[i].path, run[j].calls[steps[i].c].result)
  }

  /**
   In every run over consistent files, every token returned is non-empty and is what the file held
   at some moment between the call's stat and its return; a call reports an empty token only if the
   file was blank at such a moment.
   */
  lemma TokenCacheLinearizable(run: seq<State>, steps: seq<Step>)
    requires IsRun(run, steps) && Consistent(run)
    ensures Linearizable(run, steps)
  {
    forall i: nat, j: nat |
      i < j < |run| && steps[i].Stat? && steps[i].c in run[j].calls && run[j].calls[steps[i].c].Returned?
      ensures Explained(run, i, j, steps[i].path, run[j].calls[steps[i].c].result)
    {
      CallTracked(run, steps, i, j);
    }
  }

  // ----- Which answer a call gives ----------------------------------------------------------

  /** The call has read its file, with or without an error. */
  ghost predicate HasRead(steps: seq<Step>, i: nat, n: nat, c: nat, fails: bool) {
    exists k: nat :: i < k < n && k < |steps| && steps[k] == Read(c, fails)
  }

  /** Whenever the call has read its file, it found that token. */
  ghost predicate ReadOnly(run: seq<State>, steps: seq<Step>, i: nat, n: nat, c: nat, p: string, token: string)
    requires |run| == |steps| + 1
  {
    forall k: nat :: i < k < n && k < |steps| && steps[k] == Read(c, false) ==> HeldAt(run, k, p, token)
  }

  ghost predicate Story(run: seq<State>, steps: seq<Step>, i: nat, n: nat, phase: Phase)
    requires |run| == |steps| + 1 && i < |steps| && steps[i].Stat?
  {
    var c, p := steps[i].c, steps[i].path;
    match phase
    case Statted(q, _) => q == p && !steps[i].fails && !HasRead(steps, i, n, c, true) && !HasRead(steps, i, n, c, false)
    case Missed(q, _) => q == p && !steps[i].fails && !HasRead(steps, i, n, c, true) && !HasRead(steps, i, n, c, false)
    case HasToken(q, _, token) =>
      && q == p && !steps[i].fails && !HasRead(steps, i, n, c, true)
      && token != "" && ReadOnly(run, steps, i, n, c, p, token)
    case Returned(q, Success(token)) =>
      && q == p && !steps[i].fails && !HasRead(steps, i, n, c, true)
      && token != "" && ReadOnly(run, steps, i, n, c, p, token)
    case Returned(q, Failure(StatFailed)) =>
      q == p && steps[i].fails && !HasRead(steps, i, n, c, true) && !HasRead(steps, i, n, c, false)
    case Returned(q, Failure(ReadFailed)) =>
      q == p && !steps[i].fails && HasRead(steps, i, n, c, true) && !HasRead(steps, i, n, c, false)
    case Returned(q, Failure(EmptyToken)) =>
      && q == p && !steps[i].fails && !HasRead(steps, i, n, c, true)
      && HasRead(steps, i, n, c, false) && ReadOnly(run, steps, i, n, c, p, "")
  }

  /** Steps other than a read of this call leave the record of its reads alone. */
  lemma StoryExtends(run: seq<State>, steps: seq<Step>, i: nat, n: nat, phase: Phase)
    requires |run| == |steps| + 1 && i < n < |steps| && steps[i].Stat? && !(steps[n].Read? && steps[n].c == steps[i].c)
    requires Story(run, steps, i, n, phase)
    ensures Story(run, steps, i, n + 1, phase)
  {
    var c := steps[i].c;
    assert HasRead(steps, i, n + 1, c, true) <==> HasRead(steps, i, n, c, true);
    assert HasRead(steps, i, n + 1, c, false) <==> HasRead(steps, i, n, c, false);
  }

  lemma ReadsNow(run: seq<State>, steps: seq<Step>, i: nat, n: nat, c: nat, p: string, token: string)
    requires |run| == |steps| + 1 && i < n < |steps| && steps[n].Read? && steps[n].c == c
    requires !HasRead(steps, i, n, c, true) && !HasRead(steps, i, n, c, false)
    ensures HasRead(steps, i, n + 1, c, steps[n].fails) && !HasRead(steps, i, n + 1, c, !steps[n].fails)
    ensures HeldAt(run, n, p, token) ==> ReadOnly(run, steps, i, n + 1, c, p, token)
  {
    assert steps[n] == Read(c, steps[n].fails);
  }

  lemma StoryRead(run: seq<State>, steps: seq<Step>, i: nat, n: nat)
    requires |run| == |steps| + 1 && i < n < |steps| && steps[i].Stat? && steps[i].c in run[n].calls
    requires Enabled(run[n], steps[n]) && run[n + 1] == Apply(run[n], steps[n])
    requires Story(run, steps, i, n, run[n].calls[steps[i].c]) && steps[n].Read? && steps[n].c == steps[i].c
    ensures steps[i].c in run[n + 1].calls && Story(run, steps, i, n + 1, run[n + 1].calls[steps[i].c])
  {
    var c, p := steps[i].c, steps[i].path;
    if steps[n].fails {
      ReadsNow(run, steps, i, n, c, p, "");
    } else {
      TrimSpaceTrims(run[n].files[p].content);
      ReadsNow(run, steps, i, n, c, p, TrimSpace(run[n].files[p].content));
    }
  }

  lemma StoryOther(run: seq<State>, steps: seq<Step>, i: nat, n: nat)
    requires |run| == |steps| + 1 && i < n < |steps| && Inv(run, n) && steps[i].Stat? && steps[i].c in run[n].calls
    requires Enabled(run[n], steps[n]) && run[n + 1] == Apply(run[n], steps[n])
    requires Story(run, steps, i, n, run[n].calls[steps[i].c]) && !(steps[n].Read? && steps[n].c == steps[i].c)
    ensures steps[i].c in run[n + 1].calls && Story(run, steps, i, n + 1, run[n + 1].calls[steps[i].c])
  {
    StoryExtends(run, steps, i, n, run[n].calls[steps[i].c]);
    CachedTokens(run, n, steps[i].path);
  }

  lemma CachedTokens(run: seq<State>, n: nat, p: string)
    requires n < |run| && Inv(run, n)
    ensures p in run[n].cache ==> run[n].cache[p].token != ""
  {
  }

  ghost predicate Told(run: seq<State>, steps: seq<Step>, i: nat, n: nat) {
    && |run| == |steps| + 1 && i < n < |run| && steps[i].Stat? && steps[i].c in run[n].calls
    && Story(run, steps, i, n, run[n].calls[steps[i].c])
  }

  lemma StoryStarts(run: seq<State>, steps: seq<Step>, i: nat)
    requires |run| == |steps| + 1 && i < |steps| && steps[i].Stat?
    requires Enabled(run[i], steps[i]) && run[i + 1] == Apply(run[i], steps[i])
    ensures Told(run, steps, i, i + 1)
  {
  }

  lemma StoryStep(run: seq<State>, steps: seq<Step>, i: nat, n: nat)
    requires |run| == |steps| + 1 && n < |steps| && Inv(run, n) && Told(run, steps, i, n)
    requires Enabled(run[n], steps[n]) && run[n + 1] == Apply(run[n], steps[n])
    ensures Told(run, steps, i, n + 1)
  {
    if steps[n].Read? && steps[n].c == steps[i].c {
      StoryRead(run, steps, i, n);
    } else {
      StoryOther(run, steps, i, n);
    }
  }

  lemma OneStep(run: seq<State>, steps: seq<Step>, n: nat)
    requires IsRun(run, steps) && n < |steps|
    ensures Enabled(run[n], steps[n]) && run[n + 1] == Apply(run[n], steps[n])
  {
  }

  lemma {:induction false} StoryHolds(run: seq<State>, steps: seq<Step>, i: nat, n: nat)
    requires IsRun(run, steps) && i < n < |run| && steps[i].Stat?
    ensures Told(run, steps, i, n)
  {
    if n > i + 1 {
      StoryHolds(run, steps, i, n - 1);
      StoryNext(run, steps, i, n - 1);
    } else {
      OneStep(run, steps, i);
      StoryStarts(run, steps, i);
    }
  }

  lemma StoryNext(run: seq<State>, steps: seq<Step>, i: nat, n: nat)
    requires IsRun(run, steps) && n < |steps| && Told(run, steps, i, n)
    ensures Told(run, steps, i, n + 1)
  {
    OneStep(run, steps, n);
    InvHolds(run, steps, n);
    StoryStep(run, steps, i, n);
  }

  /**
   In every run: a call reports a failed stat exactly when its stat failed, a failed read exactly when
   its read failed, an empty token exactly when it read a blank file; and a token it has read itself is
   the one that it returns.
   */
  lemma AnswersSayWhatHappened(run: seq<State>, steps: seq<Step>, i: nat, j: nat)
    requires IsRun(run, steps) && i < j < |run| && steps[i].Stat?
    ensures steps[i].c in run[j].calls
    ensures var c, p := steps[i].c, steps[i].path;
            run[j].calls[c].Returned? ==>
              var result := run[j].calls[c].result;
              && (result == Failure(StatFailed) <==> steps[i].fails)
              && (result == Failure(ReadFailed) <==> HasRead(steps, i, j, c, true))
              && (result == Failure(EmptyToken) <==>
                    HasRead(steps, i, j, c, false) && ReadOnly(run, steps, i, j, c, p, ""))
              && (result.Success? ==> ReadOnly(run, steps, i, j, c, p, result.value))
  {
    StoryHolds(run, steps, i, j);
    var c, p := steps[i].c, steps[i].path;
    if run[j].calls[c].Returned? && run[j].calls[c].result.Success? && HasRead(steps, i, j, c, false) {
      var k: nat :| i < k < j && k < |steps| && steps[k] == Read(c, false);
      if HeldAt(run, k, p, "") { TrimmedIsUnique(run[k].files[p].content, "", run[j].calls[c].result.value); }
    }
  }

  // ----- Exactly which file histories -------------------------------------------------------

  /** The states that the files go through, one replacement or removal at a time. */
  ghost predicate IsHistory(h: seq<Files>) {
    h != [] && forall k :: 0 <= k < |h| - 1 ==> exists p, f :: h[k + 1] == Rotated(h[k], p, f)
  }

  predicate Shows(h: seq<Files>, k: nat, p: string, m: int) {
    k < |h| && p in h[k] && h[k][p].mtime == m
  }

  ghost predicate Holds(h: seq<Files>, k: nat, p: string, token: string) {
    k < |h| && HoldsIn(h[k], p, token)
  }

  /** Consistency said about the files alone. */
  ghost predicate ConsistentHistory(h: seq<Files>) {
    forall p, m, token, a: nat, r: nat, b: nat ::
      a <= r <= b && Shows(h, a, p, m) && Holds(h, r, p, token) && Shows(h, b, p, m) && token != ""
      ==> Holds(h, b, p, token)
  }

  function Rotations(steps: seq<Step>): nat {
    if steps == [] then 0 else Rotations(steps[..|steps| - 1]) + if steps[|steps| - 1].Rotate? then 1 else 0
  }

  /** The run's files go through the history, or through a beginning of it. */
  ghost predicate Over(run: seq<State>, steps: seq<Step>, h: seq<Files>)
    requires IsRun(run, steps)
  {
    forall n :: 0 <= n <= |steps| ==> Rotations(steps[..n]) < |h| && run[n].files == h[Rotations(steps[..n])]
  }

  lemma {:induction false} RotationsGrow(steps: seq<Step>, a: nat, b: nat)
    requires a <= b <= |steps|
    ensures Rotations(steps[..a]) <= Rotations(steps[..b])
  {
    if a < b {
      RotationsGrow(steps, a, b - 1);
      assert steps[..b][..b - 1] == steps[..b - 1];
    }
  }

  lemma ConsistentRuns(run: seq<State>, steps: seq<Step>, h: seq<Files>)
    requires IsRun(run, steps) && Over(run, steps, h) && ConsistentHistory(h)
    ensures Consistent(run)
  {
    forall p, m, token, a: nat, r: nat, b: nat |
      a <= r <= b < |run| && MtimeAt(run, a, p, m) && HeldAt(run, r, p, token) && MtimeAt(run, b, p, m) && token != ""
      ensures HeldAt(run, b, p, token)
    {
      var x, y, z := Rotations(steps[..a]), Rotations(steps[..r]), Rotations(steps[..b]);
      RotationsGrow(steps, a, r);
      RotationsGrow(steps, r, b);
      assert Shows(h, x, p, m) && Holds(h, y, p, token) && Shows(h, z, p, m);
      assert Holds(h, z, p, token);
    }
  }

  /** Where steps lead from the start of a history; a step that is not possible is skipped. */
  function End(h: seq<Files>, steps: seq<Step>): State
    requires h != []
  {
    if steps == [] then State(h[0], map[], map[])
    else
      var before, last := End(h, steps[..|steps| - 1]), steps[|steps| - 1];
      if Enabled(before, last) then Apply(before, last) else before
  }

  /** Each step is possible when it is taken, and the rotations follow the history. */
  predicate Possible(h: seq<Files>, steps: seq<Step>)
    requires h != []
  {
    steps != [] ==>
      && Possible(h, steps[..|steps| - 1]) && Enabled(End(h, steps[..|steps| - 1]), steps[|steps| - 1])
      && Rotations(steps) < |h| && End(h, steps).files == h[Rotations(steps)]
  }

  function StatesOf(h: seq<Files>, steps: seq<Step>): seq<State>
    requires h != []
  {
    seq(|steps| + 1, n requires 0 <= n <= |steps| => End(h, steps[..n]))
  }

  lemma {:induction false} PossiblePrefix(h: seq<Files>, steps: seq<Step>, n: nat)
    requires h != [] && Possible(h, steps) && n <= |steps|
    ensures Possible(h, steps[..n]) && Rotations(steps[..n]) < |h|
    ensures End(h, steps[..n]).files == h[Rotations(steps[..n])]
  {
    if n < |steps| {
      PossiblePrefix(h, steps[..|steps| - 1], n);
      assert steps[..|steps| - 1][..n] == steps[..n];
    } else {
      assert steps[..n] == steps;
    }
  }

  lemma PossibleStep(h: seq<Files>, steps: seq<Step>, i: nat)
    requires h != [] && Possible(h, steps) && i < |steps|
    ensures Enabled(End(h, steps[..i]), steps[i]) && End(h, steps[..i + 1]) == Apply(End(h, steps[..i]), steps[i])
  {
    PossiblePrefix(h, steps, i + 1);
    assert steps[..i + 1][..i] == steps[..i];
  }

  lemma PossibleIsRun(h: seq<Files>, steps: seq<Step>)
    requires h != [] && Possible(h, steps)
    ensures IsRun(StatesOf(h, steps), steps) && Over(StatesOf(h, steps), steps, h)
  {
    var run := StatesOf(h, steps);
    assert steps[..0] == [];
    forall i | 0 <= i < |steps| ensures Enabled(run[i], steps[i]) && run[i + 1] == Apply(run[i], steps[i]) {
      PossibleStep(h, steps, i);
    }
    forall n | 0 <= n <= |steps| ensures Rotations(steps[..n]) < |h| && run[n].files == h[Rotations(steps[..n])] {
      PossiblePrefix(h, steps, n);
    }
  }

  /** Steps that have come to position k of the history. */
  predicate Arrived(h: seq<Files>, steps: seq<Step>, k: nat, s: State)
    requires h != []
  {
    Possible(h, steps) && Rotations(steps) == k < |h| && End(h, steps) == s && s.files == h[k]
  }

  lemma Extend(h: seq<Files>, steps: seq<Step>, k: nat, s: State, step: Step)
    requires h != [] && Arrived(h, steps, k, s) && Enabled(s, step)
    requires step.Rotate? ==> k + 1 < |h| && Apply(s, step).files == h[k + 1]
    ensures Arrived(h, steps + [step], if step.Rotate? then k + 1 else k, Apply(s, step))
  {
    assert (steps + [step])[..|steps|] == steps;
  }

  /** Rotations alone lead to any later position. */
  lemma {:induction false} RotateTo(h: seq<Files>, steps: seq<Step>, k: nat, to: nat, s: State)
    returns (steps': seq<Step>)
    requires IsHistory(h) && Arrived(h, steps, k, s) && k <= to < |h|
    ensures Arrived(h, steps', to, s.(files := h[to]))
    decreases |h| - k
  {
    if k == to {
      return steps;
    }
    var p, f :| h[k + 1] == Rotated(h[k], p, f);
    Extend(h, steps, k, s, Rotate(p, f));
    steps' := RotateTo(h, steps + [Rotate(p, f)], k + 1, to, s.(files := h[k + 1]));
  }

  /** A call that has seen the mtime misses the cache, reads the token and stores it. */
  lemma FirstCall(h: seq<Files>, steps: seq<Step>, r: nat, p: string, m: int, token: string) returns (steps': seq<Step>)
    requires h != [] && Holds(h, r, p, token) && token != ""
    requires Arrived(h, steps, r, State(h[r], map[], map[0 := Statted(p, m)]))
    ensures Arrived(h, steps', r, State(h[r], map[p := Entry(token, m)], map[0 := Returned(p, Success(token))]))
  {
    var s0 := State(h[r], map[], map[0 := Statted(p, m)]);
    var s1 := State(h[r], map[], map[0 := Missed(p, m)]);
    var s2 := State(h[r], map[], map[0 := HasToken(p, m, token)]);
    var s3 := State(h[r], map[p := Entry(token, m)], map[0 := Returned(p, Success(token))]);
    TrimSpaceTrims(h[r][p].content);
    TrimmedIsUnique(h[r][p].content, token, TrimSpace(h[r][p].content));
    assert Apply(s0, Lookup(0)) == s1 && Apply(s1, Read(0, false)) == s2 && Apply(s2, Store(0)) == s3;
    Extend(h, steps, r, s0, Lookup(0));
    Extend(h, steps + [Lookup(0)], r, s1, Read(0, false));
    Extend(h, steps + [Lookup(0)] + [Read(0, false)], r, s2, Store(0));
    steps' := steps + [Lookup(0)] + [Read(0, false)] + [Store(0)];
  }

  /** A call that sees the cached mtime is served the cached token. */
  lemma SecondCall(h: seq<Files>, steps: seq<Step>, b: nat, p: string, m: int, token: string, calls: map<nat, Phase>)
    returns (steps': seq<Step>)
    requires h != [] && Shows(h, b, p, m) && !Holds(h, b, p, token) && 1 !in calls
    requires Arrived(h, steps, b, State(h[b], map[p := Entry(token, m)], calls))
    ensures IsRun(StatesOf(h, steps'), steps') && Over(StatesOf(h, steps'), steps', h)
    ensures !Linearizable(StatesOf(h, steps'), steps')
  {
    var i, s := |steps|, State(h[b], map[p := Entry(token, m)], calls);
    var s1 := Apply(s, Stat(1, p, false));
    var s2 := Apply(s1, Lookup(1));
    Extend(h, steps, b, s, Stat(1, p, false));
    Extend(h, steps + [Stat(1, p, false)], b, s1, Lookup(1));
    steps' := steps + [Stat(1, p, false)] + [Lookup(1)];
    assert steps'[..i] == steps && steps'[..i + 1] == steps + [Stat(1, p, false)] && steps'[..i + 2] == steps';
    assert End(h, steps'[..i]) == s && End(h, steps'[..i + 1]) == s1 && End(h, steps'[..i + 2]) == s2;
    ServedStale(h, steps', i, p, token);
  }

  lemma ServedStale(h: seq<Files>, steps: seq<Step>, i: nat, p: string, token: string)
    requires h != [] && Possible(h, steps) && |steps| == i + 2 && steps[i] == Stat(1, p, false)
    requires !HoldsIn(End(h, steps[..i]).files, p, token) && !HoldsIn(End(h, steps[..i + 1]).files, p, token)
    requires !HoldsIn(End(h, steps[..i + 2]).files, p, token)
    requires 1 in End(h, steps[..i + 2]).calls && End(h, steps[..i + 2]).calls[1] == Returned(p, Success(token))
    ensures IsRun(StatesOf(h, steps), steps) && Over(StatesOf(h, steps), steps, h)
    ensures !Linearizable(StatesOf(h, steps), steps)
  {
    PossibleIsRun(h, steps);
    NotExplained(StatesOf(h, steps), steps, i, p, token);
  }

  lemma NotExplained(run: seq<State>, steps: seq<Step>, i: nat, p: string, token: string)
    requires IsRun(run, steps) && |steps| == i + 2 && steps[i] == Stat(1, p, false)
    requires 1 in run[i + 2].calls && run[i + 2].calls[1] == Returned(p, Success(token))
    requires !HeldAt(run, i, p, token) && !HeldAt(run, i + 1, p, token) && !HeldAt(run, i + 2, p, token)
    ensures !Linearizable(run, steps)
  {
    assert !Explained(run, i, i + 2, p, Success(token));
  }

  /**
   Over an inconsistent history: one call sees the mtime at a and reads at r, and a second call, which
   sees the same mtime at b, is served the token read at r although the file does not hold it.
   */
  lemma StaleOver(h: seq<Files>, p: string, m: int, token: string, a: nat, r: nat, b: nat) returns (steps: seq<Step>)
    requires IsHistory(h) && a <= r <= b && Shows(h, a, p, m) && Holds(h, r, p, token) && Shows(h, b, p, m)
    requires token != "" && !Holds(h, b, p, token)
    ensures IsRun(StatesOf(h, steps), steps) && Over(StatesOf(h, steps), steps, h)
    ensures !Linearizable(StatesOf(h, steps), steps)
  {
    steps := RotateTo(h, [], 0, a, State(h[0], map[], map[]));
    Extend(h, steps, a, State(h[a], map[], map[]), Stat(0, p, false));
    steps := steps + [Stat(0, p, false)];
    var statted := State(h[a], map[], map[0 := Statted(p, m)]);
    assert Apply(State(h[a], map[], map[]), Stat(0, p, false)) == statted;
    steps := RotateTo(h, steps, a, r, statted);
    steps := FirstCall(h, steps, r, p, m, token);
    var calls := map[0 := Returned(p, Success(token))];
    steps := RotateTo(h, steps, r, b, State(h[r], map[p := Entry(token, m)], calls));
    steps := SecondCall(h, steps, b, p, m, token, calls);
  }

  /**
   The exact condition: every interleaving of readers over a history of the files is linearizable if
   and only if the history is consistent.
   */
  lemma LinearizableExactlyOverConsistentHistories(h: seq<Files>)
    requires IsHistory(h)
    ensures (forall run, steps :: IsRun(run, steps) && Over(run, steps, h) ==> Linearizable(run, steps))
            <==> ConsistentHistory(h)
  {
    if ConsistentHistory(h) {
      forall run, steps | IsRun(run, steps) && Over(run, steps, h) ensures Linearizable(run, steps) {
        ConsistentRuns(run, steps, h);
        TokenCacheLinearizable(run, steps);
      }
    } else {
      var p, m, token, a: nat, r: nat, b: nat :|
        a <= r <= b && Shows(h, a, p, m) && Holds(h, r, p, token) && Shows(h, b, p, m) && token != ""
        && !Holds(h, b, p, token);
      var steps := StaleOver(h, p, m, token, a, r, b);
      assert !Linearizable(StatesOf(h, steps), steps);
    }
  }

  // ----- Fresh mtimes -----------------------------------------------------------------------

  /** Every rotation gives the file an mtime it has not had before. */
  predicate FreshRotations(run: seq<State>, steps: seq<Step>)
    requires IsRun(run, steps)
  {
    forall j, i :: 0 <= i <= j < |steps| && steps[j].Rotate? && steps[j].file.Some? ==>
      !MtimeAt(run, i, steps[j].path, steps[j].file.value.mtime)
  }

  /** With fresh mtimes a file that shows an mtime twice has not changed in between. */
  lemma {:induction false} FreshUnchanged(run: seq<State>, steps: seq<Step>, p: string, m: int, a: nat, r: nat, b: nat)
    requires IsRun(run, steps) && FreshRotations(run, steps) && a <= r <= b < |run|
    requires MtimeAt(run, a, p, m) && MtimeAt(run, b, p, m)
    ensures p in run[r].files && run[r].files[p] == run[b].files[p]
  {
    if r < b {
      var last := steps[b - 1];
      assert run[b] == Apply(run[b - 1], last);
      assert run[b].files[p] == run[b - 1].files[p];
      FreshUnchanged(run, steps, p, m, a, r, b - 1);
    }
  }

  /** Fresh mtimes, as a rotating kubelet gives them, are enough. */
  lemma FreshRotationsAreLinearizable(run: seq<State>, steps: seq<Step>)
    requires IsRun(run, steps) && FreshRotations(run, steps)
    ensures Consistent(run) && Linearizable(run, steps)
  {
    forall p, m, token, a: nat, r: nat, b: nat |
      a <= r <= b < |run| && MtimeAt(run, a, p, m) && HeldAt(run, r, p, token) && MtimeAt(run, b, p, m) && token != ""
      ensures HeldAt(run, b, p, token)
    {
      FreshUnchanged(run, steps, p, m, a, r, b);
    }
    TokenCacheLinearizable(run, steps);
  }

  /** A file that does not change during the call is served as it is, whatever was cached. */
  lemma QuietFileIsServedExactly(run: seq<State>, steps: seq<Step>, i: nat, j: nat, f: File)
    requires IsRun(run, steps) && Consistent(run)
    requires i < j < |run| && steps[i].Stat? && steps[i].c in run[j].calls
    requires run[j].calls[steps[i].c].Returned? && run[j].calls[steps[i].c].result.Success?
    requires forall k :: i <= k <= j ==> steps[i].path in run[k].files && run[k].files[steps[i].path] == f
    ensures TrimsTo(f.content, run[j].calls[steps[i].c].result.value)
  {
    TokenCacheLinearizable(run, steps);
    assert Explained(run, i, j, steps[i].path, run[j].calls[steps[i].c].result);
  }

  function StaleSteps(): seq<Step> {
    [Stat(0, "t", false), Lookup(0), Read(0, false), Store(0), Rotate("t", Some(File(1, "b"))),
     Stat(1, "t", false), Lookup(1)]
  }

  function StaleRun(): seq<State> {
    var before, after, cached := map["t" := File(1, "a")], map["t" := File(1, "b")], map["t" := Entry("a", 1)];
    var done := Returned("t", Success("a"));
    [State(before, map[], map[]),
     State(before, map[], map[0 := Statted("t", 1)]),
     State(before, map[], map[0 := Missed("t", 1)]),
     State(before, map[], map[0 := HasToken("t", 1, "a")]),
     State(before, cached, map[0 := done]),
     State(after, cached, map[0 := done]),
     State(after, cached, map[0 := done, 1 := Statted("t", 1)]),
     State(after, cached, map[0 := done, 1 := done])]
  }

  lemma StaleStep(i: nat)
    requires i < 7
    ensures Enabled(StaleRun()[i], StaleSteps()[i]) && StaleRun()[i + 1] == Apply(StaleRun()[i], StaleSteps()[i])
  {
    assert TrimSpace("a") == "a";
    if i == 6 {
      assert StaleRun()[6].calls[1 := Returned("t", Success("a"))] == StaleRun()[7].calls;
    }
  }

  /** A rotation that reuses an mtime leaves later calls with a token the file no longer holds. */
  lemma ReusedMtimeServesStaleToken()
    ensures IsRun(StaleRun(), StaleSteps()) && !FreshRotations(StaleRun(), StaleSteps())
    ensures StaleSteps()[5] == Stat(1, "t", false) && StaleRun()[7].calls[1] == Returned("t", Success("a"))
    ensures forall k :: 5 <= k <= 7 ==> !HeldAt(StaleRun(), k, "t", "a")
  {
    forall i | 0 <= i < 7
      ensures Enabled(StaleRun()[i], StaleSteps()[i]) && StaleRun()[i + 1] == Apply(StaleRun()[i], StaleSteps()[i])
    {
      StaleStep(i);
    }
    assert MtimeAt(StaleRun(), 0, "t", 1);
    assert StaleSteps()[4].Rotate? && StaleSteps()[4].file.Some?;
    assert TrimSpace("b") == "b";
  }
}
