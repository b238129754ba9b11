/**
 blob/manager.go as a step system. Every critical section under `mu`, every disk
 operation under `diskMu` and every outcome of an outside call is one atomic step, so
 a run of steps is an arbitrary interleaving of Ensure callers, fetch goroutines,
 Set and Delete clients and Stop.
 */
module BlobStore {
  import opened Base
  import Hex

  /**
   What is fixed for a manager's lifetime: the hash text of a blob, the two tests on hash
   text, and whether the manager has a directory and saves to it.
   */
  datatype Env = Env(
    hashOf: bytes -> bytes,
    validHash: bytes -> bool,
    canonical: bytes -> bool,
    hasDir: bool,
    persist: bool)

  ghost predicate ValidEnv(env: Env) {
    && (env.persist ==> env.hasDir)
    && forall data: bytes :: env.canonical(env.hashOf(data))
  }

  /** The environment of the daemon: hashBytes, ValidHash and canonicalBlobHash over SHA-384. */
  function Daemon(sha: bytes -> bytes, hasDir: bool, persist: bool): Env {
    Env((data: bytes) => Hex.Encode(sha(data)), Hex.ValidHash, Hex.Canonical, hasDir, persist)
  }

  lemma DaemonEnvValid(sha: bytes -> bytes, hasDir: bool, persist: bool)
    requires persist ==> hasDir
    requires forall data: bytes :: |sha(data)| == Hex.DIGEST_SIZE
    ensures ValidEnv(Daemon(sha, hasDir, persist))
  {
    var env := Daemon(sha, hasDir, persist);
    forall data: bytes
      ensures env.canonical(env.hashOf(data))
    {
      Hex.CanonicalIffDigest(Hex.Encode(sha(data)));
    }
  }

  /** A nil map value means the blob is read from its file on demand. */
  datatype Entry = OnDisk | InMemory(data: bytes)

  /** How fetchAndStore ended; only `Stored` is a nil error. */
  datatype Outcome = Stored | FetchFailed | HashMismatch | StoreFailed | RecordFailed(removed: bool)

  /** Where the fetch goroutine is. Committing and Erasing hold `diskMu`. */
  datatype Phase =
    | Fetching
    | Storing(data: bytes)
    | Committing
    | Recording
    | RollingBack
    | Erasing
    | Finishing(outcome: Outcome)
    | Finished(outcome: Outcome)

  /** `swept` records that Stop dropped this flight; it is history, not program state. */
  datatype Flight = Flight(hash: bytes, waiters: int, cancelled: bool, phase: Phase, swept: bool)

  /** An Ensure call: in its select, past a `ctx.Done` but not yet at the lock, or returned. */
  datatype Caller =
    | Waiting(flight: nat)
    | Leaving(flight: nat)
    | Returned(hash: bytes, ok: bool)

  datatype Owner = OfFlight(id: nat) | OfClient

  datatype DiskLock =
    | Free
    | ForSet(owner: Owner, hash: bytes, data: bytes)
    | ForDelete(owner: Owner, hash: bytes)

  /** `ledger` is history: the bytes last stored (or found at Start) under each hash. */
  datatype State = State(
    blobs: map<bytes, Entry>,
    inFlight: map<bytes, nat>,
    flights: seq<Flight>,
    callers: seq<Caller>,
    disk: map<bytes, bytes>,
    lock: DiskLock,
    hasFetcher: bool,
    ledger: map<bytes, bytes>)

  /** The arguments of a step are the choices of the scheduler and of the outside world. */
  datatype Step =
    | SetFetcher(present: bool)
    | Ensure(hash: bytes)
    | Fetch(flight: nat, reply: Option<bytes>)
    | BeginStore(flight: nat, written: bool)
    | CommitStore(flight: nat)
    | Record(flight: nat, recorded: bool)
    | BeginRollback(flight: nat, removed: bool)
    | CommitRollback(flight: nat)
    | Finish(flight: nat)
    | Return(caller: nat)
    | GiveUp(caller: nat)
    | Leave(caller: nat)
    | Stop
    | ClientSet(hash: bytes, data: bytes, written: bool)
    | ClientCommit
    | ClientDelete(hash: bytes, removed: bool)
    | ClientErase

  // ---------------------------------------------------------------- operations

  /** The checks at the head of Set. */
  predicate Accepts(env: Env, hash: bytes, data: bytes) {
    0 < |data| <= MAX_BLOB_SIZE && env.canonical(hash) && env.hashOf(data) == hash
  }

  function BeginSet(env: Env, s: State, owner: Owner, hash: bytes, data: bytes, written: bool): State {
    if !Accepts(env, hash, data) then s
    else if !env.persist then
      s.(blobs := s.blobs[hash := InMemory(data)], ledger := s.ledger[hash := data])
    else if written then
      s.(disk := s.disk[hash := data], lock := ForSet(owner, hash, data))
    else s
  }

  function CommitSet(s: State): State
    requires s.lock.ForSet?
  {
    s.(blobs := s.blobs[s.lock.hash := OnDisk],
       ledger := s.ledger[s.lock.hash := s.lock.data],
       lock := Free)
  }

  /** Delete keeps the entry when a file exists but cannot be removed. */
  function BeginDelete(env: Env, s: State, owner: Owner, hash: bytes, removed: bool): State {
    if !env.hasDir || !env.canonical(hash) then s.(blobs := s.blobs - {hash})
    else if removed then s.(disk := s.disk - {hash}, lock := ForDelete(owner, hash))
    else s
  }

  function CommitDelete(s: State): State
    requires s.lock.ForDelete?
  {
    s.(blobs := s.blobs - {s.lock.hash}, lock := Free)
  }

  function SetPhase(s: State, f: nat, phase: Phase): State
    requires f < |s.flights|
  {
    s.(flights := s.flights[f := s.flights[f].(phase := phase)])
  }

  /** The critical section of Ensure: answer at once, join a live flight, or replace a dead one. */
  function EnsureStep(env: Env, s: State, hash: bytes): State
    requires InRange(s)
  {
    if !env.validHash(hash) then Answer(s, hash, false)
    else if hash in s.blobs then Answer(s, hash, true)
    else if hash in s.inFlight && s.flights[s.inFlight[hash]].waiters > 0 then Join(s, s.inFlight[hash])
    else
      var evicted := s.(inFlight := s.inFlight - {hash});
      if s.hasFetcher then Launch(evicted, hash) else Answer(evicted, hash, false)
  }

  function Answer(s: State, hash: bytes, ok: bool): State {
    s.(callers := s.callers + [Returned(hash, ok)])
  }

  function Join(s: State, f: nat): State
    requires f < |s.flights|
  {
    s.(flights := s.flights[f := s.flights[f].(waiters := s.flights[f].waiters + 1)],
       callers := s.callers + [Waiting(f)])
  }

  function Launch(s: State, hash: bytes): State {
    s.(inFlight := s.inFlight[hash := |s.flights|],
       flights := s.flights + [Flight(hash, 1, false, Fetching, false)],
       callers := s.callers + [Waiting(|s.flights|)])
  }

  /** The epilogue of the fetch goroutine. */
  function FinishStep(s: State, f: nat): State
    requires f < |s.flights| && s.flights[f].phase.Finishing?
  {
    var flight := s.flights[f];
    s.(inFlight := if IsRegistered(s, f) then s.inFlight - {flight.hash} else s.inFlight,
       flights := s.flights[f := flight.(cancelled := true, phase := Finished(flight.phase.outcome))])
  }

  /** The cancelled branch of waitForFlight. */
  function LeaveStep(s: State, c: nat): State
    requires c < |s.callers| && s.callers[c].Leaving? && s.callers[c].flight < |s.flights|
  {
    var f := s.callers[c].flight;
    var flight := s.flights[f];
    var left := flight.(waiters := flight.waiters - 1,
                        cancelled := flight.cancelled || flight.waiters == 1);
    s.(flights := if IsRegistered(s, f) then s.flights[f := left] else s.flights,
       callers := s.callers[c := Returned(flight.hash, false)])
  }

  function Swept(s: State, f: nat): Flight
    requires f < |s.flights|
  {
    if IsRegistered(s, f) then s.flights[f].(cancelled := true, swept := true) else s.flights[f]
  }

  function StopStep(s: State): State {
    s.(blobs := map[], inFlight := map[],
       flights := seq(|s.flights|, f requires 0 <= f < |s.flights| => Swept(s, f)))
  }

  predicate IsRegistered(s: State, f: nat)
    requires f < |s.flights|
  {
    s.flights[f].hash in s.inFlight && s.inFlight[s.flights[f].hash] == f
  }

  predicate InRange(s: State) {
    && (forall h :: h in s.inFlight ==> s.inFlight[h] < |s.flights| && s.flights[s.inFlight[h]].hash == h)
    && (forall c :: 0 <= c < |s.callers| && !s.callers[c].Returned? ==> s.callers[c].flight < |s.flights|)
  }

  predicate Enabled(env: Env, s: State, step: Step) {
    match step
    case SetFetcher(_) => true
    case Ensure(_) => InRange(s)
    case Fetch(f, _) => f < |s.flights| && s.flights[f].phase.Fetching?
    case BeginStore(f, _) => f < |s.flights| && s.flights[f].phase.Storing? && (env.persist ==> s.lock.Free?)
    case CommitStore(f) => f < |s.flights| && s.flights[f].phase.Committing? && s.lock.ForSet? && s.lock.owner == OfFlight(f)
    case Record(f, _) => f < |s.flights| && s.flights[f].phase.Recording?
    case BeginRollback(f, _) => f < |s.flights| && s.flights[f].phase.RollingBack? && (env.hasDir ==> s.lock.Free?)
    case CommitRollback(f) => f < |s.flights| && s.flights[f].phase.Erasing? && s.lock.ForDelete? && s.lock.owner == OfFlight(f)
    case Finish(f) => f < |s.flights| && s.flights[f].phase.Finishing?
    case Return(c) =>
      && c < |s.callers| && s.callers[c].Waiting?
      && s.callers[c].flight < |s.flights| && s.flights[s.callers[c].flight].phase.Finished?
    case GiveUp(c) => c < |s.callers| && s.callers[c].Waiting?
    case Leave(c) => c < |s.callers| && s.callers[c].Leaving? && s.callers[c].flight < |s.flights|
    case Stop => true
    case ClientSet(_, _, _) => env.persist ==> s.lock.Free?
    case ClientCommit => s.lock.ForSet? && s.lock.owner == OfClient
    case ClientDelete(h, _) => env.hasDir && env.canonical(h) ==> s.lock.Free?
    case ClientErase => s.lock.ForDelete? && s.lock.owner == OfClient
  }

  function FetchStep(env: Env, s: State, f: nat, reply: Option<bytes>): State
    requires f < |s.flights|
  {
    SetPhase(s, f,
      if reply.None? then Finishing(FetchFailed)
      else if env.hashOf(reply.value) != s.flights[f].hash then Finishing(HashMismatch)
      else Storing(reply.value))
  }

  /** fetchAndStore calling Set. */
  function BeginStoreStep(env: Env, s: State, f: nat, written: bool): State
    requires f < |s.flights| && s.flights[f].phase.Storing?
  {
    var hash, data := s.flights[f].hash, s.flights[f].phase.data;
    SetPhase(BeginSet(env, s, OfFlight(f), hash, data, written), f,
      if !Accepts(env, hash, data) || (env.persist && !written) then Finishing(StoreFailed)
      else if env.persist then Committing
      else Recording)
  }

  /** fetchAndStore calling Delete after the completion record failed. */
  function BeginRollbackStep(env: Env, s: State, f: nat, removed: bool): State
    requires f < |s.flights|
  {
    var hash := s.flights[f].hash;
    SetPhase(BeginDelete(env, s, OfFlight(f), hash, removed), f,
      if !env.hasDir || !env.canonical(hash) then Finishing(RecordFailed(true))
      else if removed then Erasing
      else Finishing(RecordFailed(false)))
  }

  function ReturnStep(s: State, c: nat): State
    requires c < |s.callers| && s.callers[c].Waiting?
    requires s.callers[c].flight < |s.flights| && s.flights[s.callers[c].flight].phase.Finished?
  {
    var flight := s.flights[s.callers[c].flight];
    s.(callers := s.callers[c := Returned(flight.hash, flight.phase.outcome == Stored)])
  }

  function Apply(env: Env, s: State, step: Step): State
    requires Enabled(env, s, step)
  {
    match step
    case SetFetcher(present) => s.(hasFetcher := present)
    case Ensure(hash) => EnsureStep(env, s, hash)
    case Fetch(f, reply) => FetchStep(env, s, f, reply)
    case BeginStore(f, written) => BeginStoreStep(env, s, f, written)
    case CommitStore(f) => SetPhase(CommitSet(s), f, Recording)
    case Record(f, recorded) => SetPhase(s, f, if recorded then Finishing(Stored) else RollingBack)
    case BeginRollback(f, removed) => BeginRollbackStep(env, s, f, removed)
    case CommitRollback(f) => SetPhase(CommitDelete(s), f, Finishing(RecordFailed(true)))
    case Finish(f) => FinishStep(s, f)
    case Return(c) => ReturnStep(s, c)
    case GiveUp(c) => s.(callers := s.callers[c := Leaving(s.callers[c].flight)])
    case Leave(c) => LeaveStep(s, c)
    case Stop => StopStep(s)
    case ClientSet(hash, data, written) => BeginSet(env, s, OfClient, hash, data, written)
    case ClientCommit => CommitSet(s)
    case ClientDelete(hash, removed) => BeginDelete(env, s, OfClient, hash, removed)
    case ClientErase => CommitDelete(s)
  }

  // ---------------------------------------------------------------- attached callers

  predicate AttachedTo(caller: Caller, f: nat) {
    !caller.Returned? && caller.flight == f
  }

  /** The number of Ensure calls that have joined flight f and not yet left it. */
  function Attached(callers: seq<Caller>, f: nat): nat {
    if callers == [] then 0
    else Attached(callers[..|callers| - 1], f) + if AttachedTo(callers[|callers| - 1], f) then 1 else 0
  }

  lemma AttachedAppend(callers: seq<Caller>, caller: Caller, f: nat)
    ensures Attached(callers + [caller], f) == Attached(callers, f) + if AttachedTo(caller, f) then 1 else 0
  {
    assert (callers + [caller])[..|callers|] == callers;
  }

  lemma {:induction false} AttachedUpdate(callers: seq<Caller>, c: nat, caller: Caller, f: nat)
    requires c < |callers|
    ensures Attached(callers[c := caller], f) == Attached(callers, f)
              - (if AttachedTo(callers[c], f) then 1 else 0) + (if AttachedTo(caller, f) then 1 else 0)
  {
    var last := |callers| - 1;
    var updated := callers[c := caller];
    if c == last {
      assert updated[..last] == callers[..last];
    } else {
      assert updated[..last] == callers[..last][c := caller];
      AttachedUpdate(callers[..last], c, caller, f);
    }
  }

  lemma {:induction false} AttachedPositive(callers: seq<Caller>, c: nat, f: nat)
    requires c < |callers| && AttachedTo(callers[c], f)
    ensures Attached(callers, f) > 0
  {
    if c < |callers| - 1 {
      AttachedPositive(callers[..|callers| - 1], c, f);
    }
  }

  lemma {:induction false} AttachedNone(callers: seq<Caller>, f: nat)
    requires forall c :: 0 <= c < |callers| ==> !AttachedTo(callers[c], f)
    ensures Attached(callers, f) == 0
  {
    if callers != [] {
      AttachedNone(callers[..|callers| - 1], f);
    }
  }

  // ---------------------------------------------------------------- single-flight invariant

  ghost predicate FlightOk(s: State, f: nat)
    requires f < |s.flights|
  {
    var flight := s.flights[f];
    && (IsRegistered(s, f) ==>
          && !flight.phase.Finished? && !flight.swept
          && flight.waiters == Attached(s.callers, f)
          && (flight.cancelled <==> flight.waiters == 0))
    && (!flight.phase.Finished? && !flight.cancelled ==> IsRegistered(s, f))
    && (!flight.phase.Finished? && flight.cancelled && !flight.swept ==> Attached(s.callers, f) == 0)
  }

  ghost predicate FlightInv(s: State) {
    && InRange(s)
    && forall f :: 0 <= f < |s.flights| ==> FlightOk(s, f)
  }

  lemma AnswerKeepsFlights(s: State, hash: bytes, ok: bool)
    requires FlightInv(s)
    ensures FlightInv(Answer(s, hash, ok))
  {
    var s' := Answer(s, hash, ok);
    forall f | 0 <= f < |s'.flights|
      ensures FlightOk(s', f)
    {
      assert FlightOk(s, f);
      AttachedAppend(s.callers, Returned(hash, ok), f);
    }
  }

  lemma JoinKeepsFlights(s: State, f: nat)
    requires FlightInv(s) && f < |s.flights| && IsRegistered(s, f) && s.flights[f].waiters > 0
    ensures FlightInv(Join(s, f))
  {
    var s' := Join(s, f);
    forall g | 0 <= g < |s'.flights|
      ensures FlightOk(s', g)
    {
      assert FlightOk(s, g);
      AttachedAppend(s.callers, Waiting(f), g);
    }
  }

  /** A flight without waiters may be unregistered by anyone: it is already cancelled. */
  lemma EvictKeepsFlights(s: State, hash: bytes)
    requires FlightInv(s)
    requires hash in s.inFlight ==> s.flights[s.inFlight[hash]].waiters <= 0
    ensures FlightInv(s.(inFlight := s.inFlight - {hash}))
  {
    var s' := s.(inFlight := s.inFlight - {hash});
    forall f | 0 <= f < |s'.flights|
      ensures FlightOk(s', f)
    {
      assert FlightOk(s, f);
    }
  }

  lemma LaunchKeepsFlights(s: State, hash: bytes)
    requires FlightInv(s) && hash !in s.inFlight
    ensures FlightInv(Launch(s, hash))
  {
    var s' := Launch(s, hash);
    AttachedNone(s.callers, |s.flights|);
    forall f | 0 <= f < |s'.flights|
      ensures FlightOk(s', f)
    {
      AttachedAppend(s.callers, Waiting(|s.flights|), f);
      assert f < |s.flights| ==> FlightOk(s, f);
    }
  }

  lemma EnsureKeepsFlights(env: Env, s: State, hash: bytes)
    requires FlightInv(s)
    ensures FlightInv(EnsureStep(env, s, hash))
  {
    if !env.validHash(hash) {
      AnswerKeepsFlights(s, hash, false);
    } else if hash in s.blobs {
      AnswerKeepsFlights(s, hash, true);
    } else if hash in s.inFlight && s.flights[s.inFlight[hash]].waiters > 0 {
      JoinKeepsFlights(s, s.inFlight[hash]);
    } else {
      EvictKeepsFlights(s, hash);
      var evicted := s.(inFlight := s.inFlight - {hash});
      if s.hasFetcher {
        LaunchKeepsFlights(evicted, hash);
      } else {
        AnswerKeepsFlights(evicted, hash, false);
      }
    }
  }

  lemma FinishKeepsFlights(s: State, f: nat)
    requires FlightInv(s) && f < |s.flights| && s.flights[f].phase.Finishing?
    ensures FlightInv(FinishStep(s, f))
  {
    var s' := FinishStep(s, f);
    forall g | 0 <= g < |s'.flights|
      ensures FlightOk(s', g)
    {
      assert FlightOk(s, g);
    }
  }

  lemma LeaveKeepsFlights(s: State, c: nat)
    requires FlightInv(s) && c < |s.callers| && s.callers[c].Leaving?
    ensures FlightInv(LeaveStep(s, c))
  {
    var s' := LeaveStep(s, c);
    AttachedPositive(s.callers, c, s.callers[c].flight);
    forall g | 0 <= g < |s'.flights|
      ensures FlightOk(s', g)
    {
      assert FlightOk(s, g);
      AttachedUpdate(s.callers, c, s'.callers[c], g);
    }
  }

  lemma StopKeepsFlights(s: State)
    requires FlightInv(s)
    ensures FlightInv(StopStep(s))
  {
    var s' := StopStep(s);
    forall g | 0 <= g < |s'.flights|
      ensures FlightOk(s', g)
    {
      assert FlightOk(s, g);
    }
  }

  /** A goroutine may advance, and the map, the disk and the lock may change, under unchanged bookkeeping. */
  lemma PhaseKeepsFlights(s: State, t: State, f: nat, phase: Phase)
    requires FlightInv(s) && t.inFlight == s.inFlight && t.callers == s.callers && t.flights == s.flights
    requires f < |s.flights| && !s.flights[f].phase.Finished? && !phase.Finished?
    ensures FlightInv(SetPhase(t, f, phase))
  {
    var s' := SetPhase(t, f, phase);
    forall g | 0 <= g < |s'.flights|
      ensures FlightOk(s', g)
    {
      assert FlightOk(s, g);
    }
  }

  lemma FetchKeepsFlights(env: Env, s: State, f: nat, reply: Option<bytes>)
    requires FlightInv(s) && f < |s.flights| && s.flights[f].phase.Fetching?
    ensures FlightInv(FetchStep(env, s, f, reply))
  {
    PhaseKeepsFlights(s, s, f, FetchStep(env, s, f, reply).flights[f].phase);
  }

  lemma BeginStoreKeepsFlights(env: Env, s: State, f: nat, written: bool)
    requires FlightInv(s) && f < |s.flights| && s.flights[f].phase.Storing?
    ensures FlightInv(BeginStoreStep(env, s, f, written))
  {
    var t := BeginSet(env, s, OfFlight(f), s.flights[f].hash, s.flights[f].phase.data, written);
    PhaseKeepsFlights(s, t, f, BeginStoreStep(env, s, f, written).flights[f].phase);
  }

  lemma BeginRollbackKeepsFlights(env: Env, s: State, f: nat, removed: bool)
    requires FlightInv(s) && f < |s.flights| && s.flights[f].phase.RollingBack?
    ensures FlightInv(BeginRollbackStep(env, s, f, removed))
  {
    var t := BeginDelete(env, s, OfFlight(f), s.flights[f].hash, removed);
    PhaseKeepsFlights(s, t, f, BeginRollbackStep(env, s, f, removed).flights[f].phase);
  }

  lemma FrameKeepsFlights(s: State, t: State)
    requires FlightInv(s) && t.inFlight == s.inFlight && t.callers == s.callers && t.flights == s.flights
    ensures FlightInv(t)
  {
    forall g | 0 <= g < |t.flights|
      ensures FlightOk(t, g)
    {
      assert FlightOk(s, g);
    }
  }

  lemma StepKeepsFlights(env: Env, s: State, step: Step)
    requires FlightInv(s) && Enabled(env, s, step)
    ensures FlightInv(Apply(env, s, step))
  {
    match step {
      case Ensure(hash) => EnsureKeepsFlights(env, s, hash);
      case Finish(f) => FinishKeepsFlights(s, f);
      case Leave(c) => LeaveKeepsFlights(s, c);
      case Stop => StopKeepsFlights(s);
      case Return(c) => CallerKeepsFlights(s, c, ReturnStep(s, c).callers[c]);
      case GiveUp(c) => CallerKeepsFlights(s, c, Leaving(s.callers[c].flight));
      case SetFetcher(present) => FrameKeepsFlights(s, s.(hasFetcher := present));
      case ClientSet(hash, data, written) => FrameKeepsFlights(s, BeginSet(env, s, OfClient, hash, data, written));
      case ClientCommit => FrameKeepsFlights(s, CommitSet(s));
      case ClientDelete(hash, removed) => FrameKeepsFlights(s, BeginDelete(env, s, OfClient, hash, removed));
      case ClientErase => FrameKeepsFlights(s, CommitDelete(s));
      case Fetch(f, reply) => FetchKeepsFlights(env, s, f, reply);
      case BeginStore(f, written) => BeginStoreKeepsFlights(env, s, f, written);
      case CommitStore(f) => PhaseKeepsFlights(s, CommitSet(s), f, Recording);
      case Record(f, recorded) => PhaseKeepsFlights(s, s, f, if recorded then Finishing(Stored) else RollingBack);
      case BeginRollback(f, removed) => BeginRollbackKeepsFlights(env, s, f, removed);
      case CommitRollback(f) => PhaseKeepsFlights(s, CommitDelete(s), f, Finishing(RecordFailed(true)));
    }
  }

  /** A caller may move on freely inside its flight, and may drop a finished one. */
  lemma CallerKeepsFlights(s: State, c: nat, caller: Caller)
    requires FlightInv(s) && c < |s.callers| && s.callers[c].Waiting?
    requires caller == Leaving(s.callers[c].flight)
             || (caller.Returned? && s.flights[s.callers[c].flight].phase.Finished?)
    ensures FlightInv(s.(callers := s.callers[c := caller]))
  {
    var s' := s.(callers := s.callers[c := caller]);
    forall g | 0 <= g < |s'.flights|
      ensures FlightOk(s', g)
    {
      assert FlightOk(s, g);
      AttachedUpdate(s.callers, c, caller, g);
    }
  }

  // ---------------------------------------------------------------- storage invariant

  predicate Matches(env: Env, hash: bytes, data: bytes) {
    0 < |data| <= MAX_BLOB_SIZE && env.hashOf(data) == hash
  }

  predicate EntryOk(env: Env, s: State, hash: bytes)
    requires hash in s.blobs
  {
    && env.canonical(hash) && hash in s.ledger && Matches(env, hash, s.ledger[hash])
    && match s.blobs[hash]
       case InMemory(data) => data == s.ledger[hash]
       case OnDisk =>
         && env.hasDir
         && ((s.lock.ForDelete? && s.lock.hash == hash) || (hash in s.disk && FileOk(s, hash)))
  }

  /** The file holds what was last published under its hash, or what a Set is about to publish. */
  predicate FileOk(s: State, hash: bytes)
    requires hash in s.disk && hash in s.ledger
  {
    s.disk[hash] == s.ledger[hash] || (s.lock.ForSet? && s.lock.hash == hash && s.disk[hash] == s.lock.data)
  }

  predicate LockOk(env: Env, s: State) {
    match s.lock
    case Free => true
    case ForSet(_, hash, data) =>
      env.persist && env.canonical(hash) && Matches(env, hash, data) && hash in s.disk && s.disk[hash] == data
    case ForDelete(_, hash) => env.hasDir && hash !in s.disk
  }

  /**
   Keys are canonical and values match them; an entry in memory is what was last published, and
   a nil entry has a file with that, unless the file is being replaced or deleted.
   */
  ghost predicate StoreInv(env: Env, s: State) {
    LockOk(env, s) && forall h :: h in s.blobs ==> EntryOk(env, s, h)
  }

  lemma BeginSetKeepsStore(env: Env, s: State, owner: Owner, hash: bytes, data: bytes, written: bool)
    requires ValidEnv(env) && StoreInv(env, s) && (env.persist ==> s.lock.Free?)
    ensures StoreInv(env, BeginSet(env, s, owner, hash, data, written))
  {
    var s' := BeginSet(env, s, owner, hash, data, written);
    forall h | h in s'.blobs
      ensures EntryOk(env, s', h)
    {
      assert h in s.blobs ==> EntryOk(env, s, h);
    }
  }

  lemma CommitSetKeepsStore(env: Env, s: State)
    requires ValidEnv(env) && StoreInv(env, s) && s.lock.ForSet?
    ensures StoreInv(env, CommitSet(s))
  {
    var s' := CommitSet(s);
    forall h | h in s'.blobs
      ensures EntryOk(env, s', h)
    {
      assert h in s.blobs ==> EntryOk(env, s, h);
    }
  }

  lemma BeginDeleteKeepsStore(env: Env, s: State, owner: Owner, hash: bytes, removed: bool)
    requires StoreInv(env, s) && (env.hasDir && env.canonical(hash) ==> s.lock.Free?)
    ensures StoreInv(env, BeginDelete(env, s, owner, hash, removed))
  {
    var s' := BeginDelete(env, s, owner, hash, removed);
    forall h | h in s'.blobs
      ensures EntryOk(env, s', h)
    {
      assert EntryOk(env, s, h);
    }
  }

  lemma CommitDeleteKeepsStore(env: Env, s: State)
    requires StoreInv(env, s) && s.lock.ForDelete?
    ensures StoreInv(env, CommitDelete(s))
  {
    var s' := CommitDelete(s);
    forall h | h in s'.blobs
      ensures EntryOk(env, s', h)
    {
      assert EntryOk(env, s, h);
    }
  }

  lemma FrameKeepsStore(env: Env, s: State, t: State)
    requires StoreInv(env, s) && t.disk == s.disk && t.lock == s.lock && t.ledger == s.ledger
    requires t.blobs == s.blobs || t.blobs == map[]
    ensures StoreInv(env, t)
  {
    forall h | h in t.blobs
      ensures EntryOk(env, t, h)
    {
      assert EntryOk(env, s, h);
    }
  }

  lemma GoroutineKeepsStore(env: Env, t: State, f: nat, phase: Phase)
    requires StoreInv(env, t) && f < |t.flights|
    ensures StoreInv(env, SetPhase(t, f, phase))
  {
    FrameKeepsStore(env, t, SetPhase(t, f, phase));
  }

  lemma BeginStoreKeepsStore(env: Env, s: State, f: nat, written: bool)
    requires ValidEnv(env) && StoreInv(env, s) && (env.persist ==> s.lock.Free?)
    requires f < |s.flights| && s.flights[f].phase.Storing?
    ensures StoreInv(env, BeginStoreStep(env, s, f, written))
  {
    var t := BeginSet(env, s, OfFlight(f), s.flights[f].hash, s.flights[f].phase.data, written);
    BeginSetKeepsStore(env, s, OfFlight(f), s.flights[f].hash, s.flights[f].phase.data, written);
    FrameKeepsStore(env, t, BeginStoreStep(env, s, f, written));
  }

  lemma BeginRollbackKeepsStore(env: Env, s: State, f: nat, removed: bool)
    requires StoreInv(env, s) && (env.hasDir ==> s.lock.Free?)
    requires f < |s.flights|
    ensures StoreInv(env, BeginRollbackStep(env, s, f, removed))
  {
    var t := BeginDelete(env, s, OfFlight(f), s.flights[f].hash, removed);
    BeginDeleteKeepsStore(env, s, OfFlight(f), s.flights[f].hash, removed);
    FrameKeepsStore(env, t, BeginRollbackStep(env, s, f, removed));
  }

  lemma StepKeepsStore(env: Env, s: State, step: Step)
    requires ValidEnv(env) && StoreInv(env, s) && Enabled(env, s, step)
    ensures StoreInv(env, Apply(env, s, step))
  {
    match step {
      case BeginStore(f, written) => BeginStoreKeepsStore(env, s, f, written);
      case CommitStore(f) =>
        CommitSetKeepsStore(env, s);
        GoroutineKeepsStore(env, CommitSet(s), f, Recording);
      case BeginRollback(f, removed) => BeginRollbackKeepsStore(env, s, f, removed);
      case CommitRollback(f) =>
        CommitDeleteKeepsStore(env, s);
        GoroutineKeepsStore(env, CommitDelete(s), f, Finishing(RecordFailed(true)));
      case ClientSet(hash, data, written) => BeginSetKeepsStore(env, s, OfClient, hash, data, written);
      case ClientCommit => CommitSetKeepsStore(env, s);
      case ClientDelete(hash, removed) => BeginDeleteKeepsStore(env, s, OfClient, hash, removed);
      case ClientErase => CommitDeleteKeepsStore(env, s);
      case Stop => FrameKeepsStore(env, s, StopStep(s));
      case _ =>
        TouchesNoStore(env, s, step);
        FrameKeepsStore(env, s, Apply(env, s, step));
    }
  }

  predicate SameStore(s: State, t: State) {
    t.blobs == s.blobs && t.disk == s.disk && t.lock == s.lock && t.ledger == s.ledger
  }

  lemma EnsureTouchesNoStore(env: Env, s: State, hash: bytes)
    requires InRange(s)
    ensures SameStore(s, EnsureStep(env, s, hash))
  {
    var evicted := s.(inFlight := s.inFlight - {hash});
    assert SameStore(s, Answer(s, hash, true)) && SameStore(s, Answer(s, hash, false));
    assert SameStore(s, Answer(evicted, hash, false)) && SameStore(s, Launch(evicted, hash));
    if hash in s.inFlight {
      assert SameStore(s, Join(s, s.inFlight[hash]));
    }
  }

  lemma TouchesNoStore(env: Env, s: State, step: Step)
    requires Enabled(env, s, step) && !step.Stop?
    requires !(step.BeginStore? || step.CommitStore? || step.BeginRollback? || step.CommitRollback?)
    requires !(step.ClientSet? || step.ClientCommit? || step.ClientDelete? || step.ClientErase?)
    ensures SameStore(s, Apply(env, s, step))
  {
    match step {
      case Ensure(hash) => EnsureTouchesNoStore(env, s, hash);
      case Fetch(f, reply) => assert SameStore(s, FetchStep(env, s, f, reply));
      case Finish(f) => assert SameStore(s, FinishStep(s, f));
      case Leave(c) => assert SameStore(s, LeaveStep(s, c));
      case Return(c) => assert SameStore(s, ReturnStep(s, c));
      case _ =>
    }
  }

  // ---------------------------------------------------------------- history invariant

  predicate Succeeded(phase: Phase) {
    (phase.Finishing? || phase.Finished?) && phase.outcome == Stored
  }

  predicate PhaseOk(env: Env, s: State, f: nat)
    requires f < |s.flights|
  {
    var hash, phase := s.flights[f].hash, s.flights[f].phase;
    && (phase.Storing? ==> env.hashOf(phase.data) == hash)
    && (phase.Recording? || phase.RollingBack? || phase.Erasing? || Succeeded(phase) ==> hash in s.ledger)
    && (phase.Committing? <==> s.lock.ForSet? && s.lock.owner == OfFlight(f))
    && (phase.Erasing? <==> s.lock.ForDelete? && s.lock.owner == OfFlight(f))
    && (phase.Committing? || phase.Erasing? ==> s.lock.hash == hash)
  }

  /** Everything the manager ever vouched for is in the ledger, and the ledger matches its hashes. */
  ghost predicate LedgerInv(env: Env, s: State) {
    && (forall h :: h in s.ledger ==> Matches(env, h, s.ledger[h]))
    && s.blobs.Keys <= s.ledger.Keys
    && (forall f :: 0 <= f < |s.flights| ==> PhaseOk(env, s, f))
    && CallersBacked(s)
    && (!s.lock.Free? && s.lock.owner.OfFlight? ==> s.lock.owner.id < |s.flights|)
  }

  /** Flights keep their hashes and phases, and new ones start out fetching. */
  predicate SamePhases(s: State, t: State) {
    && |s.flights| <= |t.flights|
    && (forall g :: 0 <= g < |s.flights| ==>
          t.flights[g].hash == s.flights[g].hash && t.flights[g].phase == s.flights[g].phase)
    && (forall g :: |s.flights| <= g < |t.flights| ==> t.flights[g].phase.Fetching?)
  }

  predicate CallersBacked(t: State) {
    forall c :: 0 <= c < |t.callers| && t.callers[c].Returned? && t.callers[c].ok ==> t.callers[c].hash in t.ledger
  }

  lemma FrameKeepsLedger(env: Env, s: State, t: State)
    requires LedgerInv(env, s) && SamePhases(s, t) && CallersBacked(t)
    requires t.ledger == s.ledger && t.lock == s.lock && t.blobs.Keys <= s.blobs.Keys
    ensures LedgerInv(env, t)
  {
    forall g | 0 <= g < |t.flights|
      ensures PhaseOk(env, t, g)
    {
      assert g < |s.flights| ==> PhaseOk(env, s, g);
    }
  }

  /** A goroutine that holds no lock moves on to a phase it has earned. */
  lemma PhaseKeepsLedger(env: Env, s: State, t: State, f: nat)
    requires LedgerInv(env, s) && f < |s.flights| == |t.flights| && t.flights[f].hash == s.flights[f].hash
    requires forall g :: 0 <= g < |s.flights| && g != f ==> t.flights[g] == s.flights[g]
    requires t.callers == s.callers && t.ledger == s.ledger && t.lock == s.lock && t.blobs == s.blobs
    requires !s.flights[f].phase.Committing? && !s.flights[f].phase.Erasing?
    requires !t.flights[f].phase.Committing? && !t.flights[f].phase.Erasing? && PhaseOk(env, t, f)
    ensures LedgerInv(env, t)
  {
    forall g | 0 <= g < |t.flights|
      ensures PhaseOk(env, t, g)
    {
      assert PhaseOk(env, s, g);
    }
  }

  lemma BeginStoreKeepsLedger(env: Env, s: State, f: nat, written: bool)
    requires LedgerInv(env, s) && (env.persist ==> s.lock.Free?)
    requires f < |s.flights| && s.flights[f].phase.Storing?
    ensures LedgerInv(env, BeginStoreStep(env, s, f, written))
  {
    var t := BeginStoreStep(env, s, f, written);
    assert PhaseOk(env, s, f);
    if !Accepts(env, s.flights[f].hash, s.flights[f].phase.data) || (env.persist && !written) {
      PhaseKeepsLedger(env, s, t, f);
    } else if env.persist {
      LockedKeepsLedger(env, s, f, s.flights[f].phase.data);
    } else {
      PublishedKeepsLedger(env, s, f, s.flights[f].phase.data);
    }
  }

  lemma LockedKeepsLedger(env: Env, s: State, f: nat, data: bytes)
    requires LedgerInv(env, s) && s.lock.Free? && f < |s.flights|
    ensures LedgerInv(env, SetPhase(s.(disk := s.disk[s.flights[f].hash := data],
                                       lock := ForSet(OfFlight(f), s.flights[f].hash, data)), f, Committing))
  {
    var t := SetPhase(s.(disk := s.disk[s.flights[f].hash := data],
                         lock := ForSet(OfFlight(f), s.flights[f].hash, data)), f, Committing);
    forall g | 0 <= g < |t.flights|
      ensures PhaseOk(env, t, g)
    {
      assert PhaseOk(env, s, g);
    }
  }

  lemma PublishedKeepsLedger(env: Env, s: State, f: nat, data: bytes)
    requires LedgerInv(env, s) && f < |s.flights| && s.flights[f].phase.Storing? && Matches(env, s.flights[f].hash, data)
    ensures LedgerInv(env, SetPhase(s.(blobs := s.blobs[s.flights[f].hash := InMemory(data)],
                                       ledger := s.ledger[s.flights[f].hash := data]), f, Recording))
  {
    var t := SetPhase(s.(blobs := s.blobs[s.flights[f].hash := InMemory(data)],
                         ledger := s.ledger[s.flights[f].hash := data]), f, Recording);
    forall g | 0 <= g < |t.flights|
      ensures PhaseOk(env, t, g)
    {
      assert PhaseOk(env, s, g);
    }
  }

  lemma CommitStoreKeepsLedger(env: Env, s: State, f: nat)
    requires StoreInv(env, s) && LedgerInv(env, s)
    requires f < |s.flights| && s.lock.ForSet? && s.lock.owner == OfFlight(f)
    ensures LedgerInv(env, SetPhase(CommitSet(s), f, Recording))
  {
    var s' := SetPhase(CommitSet(s), f, Recording);
    forall g | 0 <= g < |s'.flights|
      ensures PhaseOk(env, s', g)
    {
      assert g < |s.flights| ==> PhaseOk(env, s, g);
    }
  }

  lemma BeginRollbackKeepsLedger(env: Env, s: State, f: nat, removed: bool)
    requires LedgerInv(env, s) && (env.hasDir ==> s.lock.Free?)
    requires f < |s.flights| && s.flights[f].phase.RollingBack?
    ensures LedgerInv(env, BeginRollbackStep(env, s, f, removed))
  {
    var s' := BeginRollbackStep(env, s, f, removed);
    forall g | 0 <= g < |s'.flights|
      ensures PhaseOk(env, s', g)
    {
      assert g < |s.flights| ==> PhaseOk(env, s, g);
    }
  }

  lemma CommitRollbackKeepsLedger(env: Env, s: State, f: nat)
    requires LedgerInv(env, s)
    requires f < |s.flights| && s.lock.ForDelete? && s.lock.owner == OfFlight(f)
    ensures LedgerInv(env, SetPhase(CommitDelete(s), f, Finishing(RecordFailed(true))))
  {
    var s' := SetPhase(CommitDelete(s), f, Finishing(RecordFailed(true)));
    forall g | 0 <= g < |s'.flights|
      ensures PhaseOk(env, s', g)
    {
      assert g < |s.flights| ==> PhaseOk(env, s, g);
    }
  }

  lemma BeginSetKeepsLedger(env: Env, s: State, hash: bytes, data: bytes, written: bool)
    requires LedgerInv(env, s) && (env.persist ==> s.lock.Free?)
    ensures LedgerInv(env, BeginSet(env, s, OfClient, hash, data, written))
  {
    var s' := BeginSet(env, s, OfClient, hash, data, written);
    forall g | 0 <= g < |s'.flights|
      ensures PhaseOk(env, s', g)
    {
      assert g < |s.flights| ==> PhaseOk(env, s, g);
    }
  }

  lemma CommitSetKeepsLedger(env: Env, s: State)
    requires StoreInv(env, s) && LedgerInv(env, s) && s.lock.ForSet? && s.lock.owner == OfClient
    ensures LedgerInv(env, CommitSet(s))
  {
    var s' := CommitSet(s);
    forall g | 0 <= g < |s'.flights|
      ensures PhaseOk(env, s', g)
    {
      assert g < |s.flights| ==> PhaseOk(env, s, g);
    }
  }

  lemma BeginDeleteKeepsLedger(env: Env, s: State, hash: bytes, removed: bool)
    requires LedgerInv(env, s) && (env.hasDir && env.canonical(hash) ==> s.lock.Free?)
    ensures LedgerInv(env, BeginDelete(env, s, OfClient, hash, removed))
  {
    var s' := BeginDelete(env, s, OfClient, hash, removed);
    forall g | 0 <= g < |s'.flights|
      ensures PhaseOk(env, s', g)
    {
      assert g < |s.flights| ==> PhaseOk(env, s, g);
    }
  }

  lemma CommitDeleteKeepsLedger(env: Env, s: State)
    requires LedgerInv(env, s) && s.lock.ForDelete? && s.lock.owner == OfClient
    ensures LedgerInv(env, CommitDelete(s))
  {
    var s' := CommitDelete(s);
    forall g | 0 <= g < |s'.flights|
      ensures PhaseOk(env, s', g)
    {
      assert g < |s.flights| ==> PhaseOk(env, s, g);
    }
  }

  lemma EnsureKeepsLedger(env: Env, s: State, hash: bytes)
    requires InRange(s) && LedgerInv(env, s)
    ensures LedgerInv(env, EnsureStep(env, s, hash))
  {
    var t := EnsureStep(env, s, hash);
    EnsureTouchesNoStore(env, s, hash);
    assert SamePhases(s, t);
    assert CallersBacked(t);
    FrameKeepsLedger(env, s, t);
  }

  lemma GoroutineKeepsLedger(env: Env, s: State, step: Step)
    requires LedgerInv(env, s) && Enabled(env, s, step) && (step.Fetch? || step.Record? || step.Finish?)
    ensures LedgerInv(env, Apply(env, s, step))
  {
    var f, t := step.flight, Apply(env, s, step);
    assert PhaseOk(env, s, f);
    PhaseKeepsLedger(env, s, t, f);
  }

  lemma CallerKeepsLedger(env: Env, s: State, step: Step)
    requires InRange(s) && LedgerInv(env, s) && Enabled(env, s, step) && (step.Return? || step.GiveUp? || step.Leave?)
    ensures LedgerInv(env, Apply(env, s, step))
  {
    var t := Apply(env, s, step);
    assert PhaseOk(env, s, s.callers[step.caller].flight);
    FrameKeepsLedger(env, s, t);
  }

  lemma StepKeepsLedger(env: Env, s: State, step: Step)
    requires FlightInv(s) && StoreInv(env, s) && LedgerInv(env, s) && Enabled(env, s, step)
    ensures LedgerInv(env, Apply(env, s, step))
  {
    match step {
      case SetFetcher(present) => FrameKeepsLedger(env, s, s.(hasFetcher := present));
      case Ensure(hash) => EnsureKeepsLedger(env, s, hash);
      case BeginStore(f, written) => BeginStoreKeepsLedger(env, s, f, written);
      case CommitStore(f) => CommitStoreKeepsLedger(env, s, f);
      case BeginRollback(f, removed) => BeginRollbackKeepsLedger(env, s, f, removed);
      case CommitRollback(f) => CommitRollbackKeepsLedger(env, s, f);
      case Stop => FrameKeepsLedger(env, s, StopStep(s));
      case ClientSet(hash, data, written) => BeginSetKeepsLedger(env, s, hash, data, written);
      case ClientCommit => CommitSetKeepsLedger(env, s);
      case ClientDelete(hash, removed) => BeginDeleteKeepsLedger(env, s, hash, removed);
      case ClientErase => CommitDeleteKeepsLedger(env, s);
      case Return(_) => CallerKeepsLedger(env, s, step);
      case GiveUp(_) => CallerKeepsLedger(env, s, step);
      case Leave(_) => CallerKeepsLedger(env, s, step);
      case Fetch(_, _) => GoroutineKeepsLedger(env, s, step);
      case Record(_, _) => GoroutineKeepsLedger(env, s, step);
      case Finish(_) => GoroutineKeepsLedger(env, s, step);
    }
  }

  // ---------------------------------------------------------------- reachable states

  ghost predicate Inv(env: Env, s: State) {
    FlightInv(s) && StoreInv(env, s) && LedgerInv(env, s)
  }

  /** The state Start leaves behind: verified files of the directory, loaded lazily. */
  ghost predicate Initial(env: Env, s: State) {
    && s.inFlight == map[] && s.flights == [] && s.callers == [] && s.lock == Free
    && s.ledger.Keys == s.blobs.Keys
    && forall h :: h in s.blobs ==>
         && env.hasDir && s.blobs[h] == OnDisk
         && env.canonical(h) && h in s.disk && Matches(env, h, s.disk[h]) && s.ledger[h] == s.disk[h]
  }

  ghost predicate StepAt(env: Env, states: seq<State>, steps: seq<Step>, i: nat)
    requires i < |steps| && i + 1 < |states|
  {
    Enabled(env, states[i], steps[i]) && states[i + 1] == Apply(env, states[i], steps[i])
  }

  ghost predicate IsRun(env: Env, states: seq<State>, steps: seq<Step>) {
    && |states| == |steps| + 1
    && Initial(env, states[0])
    && forall i :: 0 <= i < |steps| ==> StepAt(env, states, steps, i)
  }

  lemma InitialInv(env: Env, s: State)
    requires Initial(env, s)
    ensures Inv(env, s)
  {
    forall h | h in s.blobs
      ensures EntryOk(env, s, h)
    {
    }
  }

  lemma StepKeepsInv(env: Env, s: State, step: Step)
    requires ValidEnv(env) && Inv(env, s) && Enabled(env, s, step)
    ensures Inv(env, Apply(env, s, step))
  {
    StepKeepsFlights(env, s, step);
    StepKeepsStore(env, s, step);
    StepKeepsLedger(env, s, step);
  }

  lemma {:induction false} ReachableInv(env: Env, states: seq<State>, steps: seq<Step>, k: nat)
    requires ValidEnv(env) && IsRun(env, states, steps) && k < |states|
    ensures Inv(env, states[k])
  {
    if k == 0 {
      InitialInv(env, states[0]);
    } else {
      ReachableInv(env, states, steps, k - 1);
      assert StepAt(env, states, steps, k - 1);
      StepKeepsInv(env, states[k - 1], steps[k - 1]);
    }
  }
}
