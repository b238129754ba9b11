/** What Ensure of blob/manager.go answers, over every run of the step system. */
module EnsureTheorems {
  import opened Base
  import opened BlobStore
  import opened BlobTheorems

  // ---------------------------------------------------------------- the call

  /** Flight f is a running, uncancelled fetch of h. */
  predicate LiveFor(s: State, f: nat, h: bytes) {
    Live(s, f) && s.flights[f].hash == h
  }

  /** The call returned at once and changed nothing else. */
  predicate AnsweredAtOnce(s: State, t: State, h: bytes, ok: bool) {
    t == s.(callers := s.callers + [Returned(h, ok)])
  }

  /** The call waits on a fetch that was under way: one more waiter, no other change. */
  predicate JoinedFetch(s: State, t: State, f: nat) {
    && f < |s.flights| == |t.flights| && t.flights[f] == s.flights[f].(waiters := s.flights[f].waiters + 1)
    && (forall g :: 0 <= g < |s.flights| && g != f ==> t.flights[g] == s.flights[g])
    && t.callers == s.callers + [Waiting(f)] && t.inFlight == s.inFlight && SameStore(s, t)
  }

  /** The call waits on a fetch of its own, the only live one of its hash. */
  predicate StartedFetch(s: State, t: State, h: bytes) {
    && |t.flights| == |s.flights| + 1 && t.flights[..|s.flights|] == s.flights
    && LiveFor(t, |s.flights|, h) && t.flights[|s.flights|].phase.Fetching? && t.flights[|s.flights|].waiters == 1
    && t.callers == s.callers + [Waiting(|s.flights|)]
    && t.inFlight == s.inFlight[h := |s.flights|] && SameStore(s, t)
  }

  /** By the invariant the live fetch of a hash is the one Ensure finds with waiters. */
  lemma LiveIsJoinable(s: State, f: nat, h: bytes)
    requires FlightInv(s)
    ensures LiveFor(s, f, h) <==> f < |s.flights| && h in s.inFlight && s.inFlight[h] == f && s.flights[f].waiters > 0
  {
    if f < |s.flights| {
      assert FlightOk(s, f);
    }
  }

  lemma NoneLive(s: State, h: bytes)
    requires FlightInv(s) && forall f: nat :: !LiveFor(s, f, h)
    ensures h in s.inFlight ==> s.flights[s.inFlight[h]].waiters <= 0
  {
    if h in s.inFlight {
      LiveIsJoinable(s, s.inFlight[h], h);
    }
  }

  /**
   Ensure in every reachable state: an invalid hash is refused and a cached one granted, both
   at once; otherwise the caller waits on the live fetch of that hash, or on a new one if
   none is live; and only without a fetcher is it refused then.
   */
  lemma EnsureAnswers(env: Env, states: seq<State>, steps: seq<Step>, k: nat, h: bytes)
    requires ValidEnv(env) && IsRun(env, states, steps) && k < |steps| && steps[k] == Ensure(h)
    ensures !env.validHash(h) ==> AnsweredAtOnce(states[k], states[k + 1], h, false)
    ensures env.validHash(h) && h in states[k].blobs ==> AnsweredAtOnce(states[k], states[k + 1], h, true)
    ensures env.validHash(h) && h !in states[k].blobs ==>
              forall f: nat | LiveFor(states[k], f, h) :: JoinedFetch(states[k], states[k + 1], f)
    ensures env.validHash(h) && h !in states[k].blobs && (forall f: nat :: !LiveFor(states[k], f, h)) ==>
              if states[k].hasFetcher then StartedFetch(states[k], states[k + 1], h)
              else AnsweredAtOnce(states[k].(inFlight := states[k].inFlight - {h}), states[k + 1], h, false)
  {
    ReachableInv(env, states, steps, k);
    assert StepAt(env, states, steps, k);
    var s, t := states[k], states[k + 1];
    if env.validHash(h) && h !in s.blobs {
      forall f: nat | LiveFor(s, f, h)
        ensures JoinedFetch(s, t, f)
      {
        LiveIsJoinable(s, f, h);
      }
      if forall f: nat :: !LiveFor(s, f, h) {
        NoneLive(s, h);
      }
    }
  }

  /** Whether a fetcher is present is what the last SetFetcher said. */
  lemma {:induction false} FetcherIsLastSet(env: Env, states: seq<State>, steps: seq<Step>, j: nat, k: nat)
    requires IsRun(env, states, steps) && j < k < |states| && steps[j].SetFetcher?
    requires forall i :: j < i < k ==> !steps[i].SetFetcher?
    ensures states[k].hasFetcher == steps[j].present
  {
    assert StepAt(env, states, steps, k - 1);
    if j < k - 1 {
      FetcherIsLastSet(env, states, steps, j, k - 1);
      KeepsFetcher(env, states[k - 1], steps[k - 1]);
    }
  }

  lemma KeepsFetcher(env: Env, s: State, step: Step)
    requires Enabled(env, s, step) && !step.SetFetcher?
    ensures Apply(env, s, step).hasFetcher == s.hasFetcher
  {
    match step {
      case Fetch(f, reply) => assert FetchStep(env, s, f, reply).hasFetcher == s.hasFetcher;
      case BeginStore(f, written) => assert BeginStoreStep(env, s, f, written).hasFetcher == s.hasFetcher;
      case BeginRollback(f, removed) => assert BeginRollbackStep(env, s, f, removed).hasFetcher == s.hasFetcher;
      case Finish(f) => assert FinishStep(s, f).hasFetcher == s.hasFetcher;
      case Leave(c) => assert LeaveStep(s, c).hasFetcher == s.hasFetcher;
      case _ =>
    }
  }

  // ---------------------------------------------------------------- the fetch

  /** What the outside answered to the calls of one fetch. */
  datatype Answers = Answers(reply: Option<bytes>, written: bool, recorded: bool, removed: bool)

  function Noted(answers: Answers, step: Step, f: nat): Answers {
    match step
    case Fetch(g, reply) => if g == f then answers.(reply := reply) else answers
    case BeginStore(g, written) => if g == f then answers.(written := written) else answers
    case Record(g, recorded) => if g == f then answers.(recorded := recorded) else answers
    case BeginRollback(g, removed) => if g == f then answers.(removed := removed) else answers
    case _ => answers
  }

  function Heard(steps: seq<Step>, f: nat): Answers {
    if steps == [] then Answers(None, false, false, false)
    else Noted(Heard(steps[..|steps| - 1], f), steps[|steps| - 1], f)
  }

  /** fetchAndStore as straight-line code over those answers. */
  function Sequential(env: Env, hash: bytes, a: Answers): Outcome {
    if a.reply.None? then FetchFailed
    else if env.hashOf(a.reply.value) != hash then HashMismatch
    else if !StoreSucceeds(env, a) then StoreFailed
    else if a.recorded then Stored
    else RecordFailed(a.removed || !env.hasDir)
  }

  predicate StoreSucceeds(env: Env, a: Answers) {
    a.reply.Some? && 0 < |a.reply.value| <= MAX_BLOB_SIZE && (env.persist ==> a.written)
  }

  /** Good octets arrived and were stored. */
  predicate HasStored(env: Env, hash: bytes, a: Answers) {
    StoreSucceeds(env, a) && env.hashOf(a.reply.value) == hash
  }

  /** Where a fetch is, in terms of the answers it got. */
  predicate Explained(env: Env, flight: Flight, a: Answers) {
    match flight.phase
    case Fetching => true
    case Storing(data) => a.reply == Some(data) && env.hashOf(data) == flight.hash
    case Committing => HasStored(env, flight.hash, a)
    case Recording => HasStored(env, flight.hash, a)
    case RollingBack => HasStored(env, flight.hash, a) && !a.recorded
    case Erasing => HasStored(env, flight.hash, a) && !a.recorded && a.removed
    case Finishing(outcome) => outcome == Sequential(env, flight.hash, a)
    case Finished(outcome) => outcome == Sequential(env, flight.hash, a)
  }

  lemma FetchExplained(env: Env, s: State, f: nat, reply: Option<bytes>, a: Answers)
    requires f < |s.flights| && s.flights[f].phase.Fetching?
    ensures Explained(env, FetchStep(env, s, f, reply).flights[f], a.(reply := reply))
  {
  }

  lemma BeginStoreExplained(env: Env, s: State, f: nat, written: bool, a: Answers)
    requires ValidEnv(env) && f < |s.flights| && s.flights[f].phase.Storing? && Explained(env, s.flights[f], a)
    ensures Explained(env, BeginStoreStep(env, s, f, written).flights[f], a.(written := written))
  {
    assert env.canonical(env.hashOf(s.flights[f].phase.data));
  }

  lemma BeginRollbackExplained(env: Env, s: State, f: nat, removed: bool, a: Answers)
    requires ValidEnv(env) && f < |s.flights| && s.flights[f].phase.RollingBack? && Explained(env, s.flights[f], a)
    ensures Explained(env, BeginRollbackStep(env, s, f, removed).flights[f], a.(removed := removed))
  {
    assert env.canonical(env.hashOf(a.reply.value));
  }

  lemma StepExplained(env: Env, s: State, step: Step, f: nat, a: Answers)
    requires ValidEnv(env) && Enabled(env, s, step) && f < |s.flights| && Explained(env, s.flights[f], a)
    ensures f < |Apply(env, s, step).flights| && Explained(env, Apply(env, s, step).flights[f], Noted(a, step, f))
  {
    FlightStep(env, s, step, f);
    if OwnStep(step, f) {
      match step {
        case Fetch(_, reply) => FetchExplained(env, s, f, reply, a);
        case BeginStore(_, written) => BeginStoreExplained(env, s, f, written, a);
        case BeginRollback(_, removed) => BeginRollbackExplained(env, s, f, removed, a);
        case _ =>
      }
    }
  }

  /**
   Whatever else goes on, a fetch ends as the straight-line code would on the answers its own
   calls got: from the fetcher, the file write, the completion record and the file removal.
   */
  lemma {:induction false} FetchIsSequential(env: Env, states: seq<State>, steps: seq<Step>, k: nat, f: nat)
    requires ValidEnv(env) && IsRun(env, states, steps) && k < |states| && f < |states[k].flights|
    ensures Explained(env, states[k].flights[f], Heard(steps[..k], f))
  {
    if k > 0 {
      assert StepAt(env, states, steps, k - 1);
      assert steps[..k][..k - 1] == steps[..k - 1];
      if f < |states[k - 1].flights| {
        FetchIsSequential(env, states, steps, k - 1, f);
        StepExplained(env, states[k - 1], steps[k - 1], f, Heard(steps[..k - 1], f));
      } else {
        FlightBefore(env, states[k - 1], steps[k - 1], f, states[k]);
      }
    }
  }

  predicate Released(flight: Flight) {
    flight.phase.Finished? ==> flight.cancelled
  }

  lemma StepReleases(env: Env, s: State, step: Step, f: nat)
    requires Enabled(env, s, step) && f < |s.flights| && Released(s.flights[f])
    ensures f < |Apply(env, s, step).flights| && Released(Apply(env, s, step).flights[f])
  {
    FlightStep(env, s, step, f);
  }

  /** No finished fetch keeps its context: every one has been cancelled by then. */
  lemma {:induction false} FinishedReleased(env: Env, states: seq<State>, steps: seq<Step>, k: nat, f: nat)
    requires IsRun(env, states, steps) && k < |states| && f < |states[k].flights|
    ensures Released(states[k].flights[f])
  {
    if k > 0 {
      assert StepAt(env, states, steps, k - 1);
      if f < |states[k - 1].flights| {
        FinishedReleased(env, states, steps, k - 1, f);
        StepReleases(env, states[k - 1], steps[k - 1], f);
      } else {
        FlightBefore(env, states[k - 1], steps[k - 1], f, states[k]);
      }
    }
  }

  // ---------------------------------------------------------------- nil, exactly

  /** The completion record of flight f was written before step k. */
  ghost predicate RecordedBefore(steps: seq<Step>, k: nat, f: nat) {
    exists j :: 0 <= j < k && j < |steps| && steps[j] == Record(f, true)
  }

  lemma SuccessStays(s: State, step: Step, f: nat, s': State)
    requires FlightChange(s, step, f, s')
    ensures Succeeded(s'.flights[f].phase) <==> Succeeded(s.flights[f].phase) || (step == Record(f, true) && s'.flights[f].phase != s.flights[f].phase)
  {
  }

  lemma {:induction false} SucceededIffRecorded(env: Env, states: seq<State>, steps: seq<Step>, k: nat, f: nat)
    requires IsRun(env, states, steps) && k < |states|
    ensures RecordedBefore(steps, k, f) <==> f < |states[k].flights| && Succeeded(states[k].flights[f].phase)
  {
    if k > 0 {
      assert StepAt(env, states, steps, k - 1);
      SucceededIffRecorded(env, states, steps, k - 1, f);
      assert RecordedBefore(steps, k, f) <==> RecordedBefore(steps, k - 1, f) || steps[k - 1] == Record(f, true);
      if f < |states[k - 1].flights| {
        FlightStep(env, states[k - 1], steps[k - 1], f);
        SuccessStays(states[k - 1], steps[k - 1], f, states[k]);
      } else if f < |states[k].flights| {
        FlightBefore(env, states[k - 1], steps[k - 1], f, states[k]);
      }
    }
  }

  /** Caller c is the Ensure(h) of step i. */
  ghost predicate Entered(states: seq<State>, steps: seq<Step>, i: nat, c: nat, h: bytes) {
    i < |steps| && i < |states| && steps[i] == Ensure(h) && |states[i].callers| == c
  }

  /** At step m caller c takes the result of its flight, whose completion record had been written. */
  ghost predicate TakesSuccess(states: seq<State>, steps: seq<Step>, m: nat, c: nat) {
    && m < |steps| && m < |states| && steps[m] == Return(c)
    && c < |states[m].callers| && states[m].callers[c].Waiting? && RecordedBefore(steps, m, states[m].callers[c].flight)
  }

  /** What entitles the caller of step i to nil by state k: the hash was cached then, or its fetch was recorded. */
  ghost predicate Entitled(env: Env, states: seq<State>, steps: seq<Step>, i: nat, k: nat, c: nat, h: bytes)
    requires i < |states|
  {
    || (env.validHash(h) && h in states[i].blobs)
    || exists m: nat :: i < m < k && TakesSuccess(states, steps, m, c)
  }

  ghost predicate Told(env: Env, states: seq<State>, steps: seq<Step>, i: nat, k: nat, c: nat, h: bytes)
    requires i < |states| && k < |states|
  {
    && c < |states[k].callers|
    && match states[k].callers[c]
       case Returned(hash, ok) => hash == h && (ok <==> Entitled(env, states, steps, i, k, c, h))
       case Waiting(f) => f < |states[k].flights| && states[k].flights[f].hash == h && !Entitled(env, states, steps, i, k, c, h)
       case Leaving(f) => f < |states[k].flights| && states[k].flights[f].hash == h && !Entitled(env, states, steps, i, k, c, h)
  }

  lemma ToldAtFirst(env: Env, states: seq<State>, steps: seq<Step>, i: nat, c: nat, h: bytes)
    requires ValidEnv(env) && IsRun(env, states, steps) && Entered(states, steps, i, c, h)
    ensures Told(env, states, steps, i, i + 1, c, h)
  {
    EnsureAnswers(env, states, steps, i, h);
    if f: nat :| LiveFor(states[i], f, h) {
      assert env.validHash(h) && h !in states[i].blobs ==> JoinedFetch(states[i], states[i + 1], f);
    }
  }

  /** What one step does to a caller. */
  lemma CallerChange(env: Env, s: State, step: Step, c: nat, t: State)
    requires Enabled(env, s, step) && t == Apply(env, s, step) && c < |s.callers|
    ensures c < |t.callers|
    ensures step == Return(c) ==>
              t.callers[c] == Returned(s.flights[s.callers[c].flight].hash, Succeeded(s.flights[s.callers[c].flight].phase))
    ensures step == GiveUp(c) ==> t.callers[c] == Leaving(s.callers[c].flight)
    ensures step == Leave(c) ==> t.callers[c] == Returned(s.flights[s.callers[c].flight].hash, false)
    ensures step != Return(c) && step != GiveUp(c) && step != Leave(c) ==> t.callers[c] == s.callers[c]
  {
    if step.Ensure? {
      var caller := EnsureAddsCaller(env, s, step.hash);
    } else if !(step.Return? || step.GiveUp? || step.Leave?) {
      SameCallers(env, s, step);
    }
  }

  lemma HashStays(env: Env, s: State, step: Step, f: nat)
    requires Enabled(env, s, step) && f < |s.flights|
    ensures f < |Apply(env, s, step).flights| && Apply(env, s, step).flights[f].hash == s.flights[f].hash
  {
    FlightStep(env, s, step, f);
  }

  lemma EntitledNext(env: Env, states: seq<State>, steps: seq<Step>, i: nat, k: nat, c: nat, h: bytes)
    requires i < k < |states|
    ensures Entitled(env, states, steps, i, k + 1, c, h)
            <==> Entitled(env, states, steps, i, k, c, h) || TakesSuccess(states, steps, k, c)
  {
  }

  lemma ToldNext(env: Env, states: seq<State>, steps: seq<Step>, i: nat, k: nat, c: nat, h: bytes)
    requires IsRun(env, states, steps) && i < k < |steps| && Told(env, states, steps, i, k, c, h)
    ensures Told(env, states, steps, i, k + 1, c, h)
  {
    var s, step := states[k], steps[k];
    assert StepAt(env, states, steps, k);
    CallerChange(env, s, step, c, states[k + 1]);
    EntitledNext(env, states, steps, i, k, c, h);
    if !s.callers[c].Returned? {
      HashStays(env, s, step, s.callers[c].flight);
      SucceededIffRecorded(env, states, steps, k, s.callers[c].flight);
    }
  }

  lemma {:induction false} CallerTold(env: Env, states: seq<State>, steps: seq<Step>, i: nat, k: nat, c: nat, h: bytes)
    requires ValidEnv(env) && IsRun(env, states, steps) && Entered(states, steps, i, c, h) && i < k < |states|
    ensures Told(env, states, steps, i, k, c, h)
  {
    if k == i + 1 {
      ToldAtFirst(env, states, steps, i, c, h);
    } else {
      CallerTold(env, states, steps, i, k - 1, c, h);
      ToldNext(env, states, steps, i, k - 1, c, h);
    }
  }

  lemma {:induction false} CallerEntered(env: Env, states: seq<State>, steps: seq<Step>, k: nat, c: nat)
    returns (i: nat, h: bytes)
    requires IsRun(env, states, steps) && k < |states| && c < |states[k].callers|
    ensures i < k && Entered(states, steps, i, c, h)
  {
    assert StepAt(env, states, steps, k - 1);
    if c < |states[k - 1].callers| {
      i, h := CallerEntered(env, states, steps, k - 1, c);
    } else {
      i := k - 1;
      if !steps[i].Ensure? {
        SameCallerCount(env, states[i], steps[i]);
      }
      h := steps[i].hash;
      var caller := EnsureAddsCaller(env, states[i], h);
    }
  }

  lemma SameCallerCount(env: Env, s: State, step: Step)
    requires Enabled(env, s, step) && !step.Ensure?
    ensures |Apply(env, s, step).callers| == |s.callers|
  {
    if !(step.Return? || step.GiveUp? || step.Leave?) {
      SameCallers(env, s, step);
    }
  }

  /**
   Every Ensure that has returned: it returned nil exactly when its hash was in the cache at the
   call, or when it took the result of a fetch whose completion record had been written.
   */
  lemma NilExactly(env: Env, states: seq<State>, steps: seq<Step>, k: nat, c: nat) returns (i: nat)
    requires ValidEnv(env) && IsRun(env, states, steps) && k < |states|
    requires c < |states[k].callers| && states[k].callers[c].Returned?
    ensures i < k && Entered(states, steps, i, c, states[k].callers[c].hash)
    ensures states[k].callers[c].ok <==> Entitled(env, states, steps, i, k, c, states[k].callers[c].hash)
  {
    var h;
    i, h := CallerEntered(env, states, steps, k, c);
    CallerTold(env, states, steps, i, k, c, h);
  }

  /** A waiting caller may give up at any time, a leaving one may leave, and a finished flight lets its callers return. */
  lemma CallerProceeds(env: Env, s: State, c: nat)
    requires Inv(env, s) && c < |s.callers| && !s.callers[c].Returned?
    ensures s.callers[c].Leaving? ==> Enabled(env, s, Leave(c))
    ensures s.callers[c].Waiting? ==> Enabled(env, s, GiveUp(c))
    ensures s.callers[c].Waiting? && s.flights[s.callers[c].flight].phase.Finished? ==> Enabled(env, s, Return(c))
  {
  }
}
