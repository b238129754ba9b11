/** What every interleaving of blob/manager.go guarantees, stated over runs of the step system. */
module BlobTheorems {
  import opened Base
  import opened BlobStore

  // ---------------------------------------------------------------- single flight

  predicate Live(s: State, f: nat) {
    f < |s.flights| && !s.flights[f].phase.Finished? && !s.flights[f].cancelled
  }

  /** Cancelled while still running. */
  predicate Abandoned(s: State, f: nat) {
    f < |s.flights| && !s.flights[f].phase.Finished? && s.flights[f].cancelled
  }

  /** Step j is a Stop that meets flight f while it is registered. */
  ghost predicate SweptAt(states: seq<State>, steps: seq<Step>, j: int, f: nat)
    requires |states| == |steps| + 1
  {
    0 <= j < |steps| && steps[j].Stop? && f < |states[j].flights| && IsRegistered(states[j], f)
  }

  lemma {:induction false} SweptByStop(env: Env, states: seq<State>, steps: seq<Step>, k: nat, f: nat)
    requires ValidEnv(env) && IsRun(env, states, steps) && k < |states|
    requires f < |states[k].flights| && states[k].flights[f].swept
    ensures exists j :: j < k && SweptAt(states, steps, j, f)
  {
    if k > 0 {
      assert StepAt(env, states, steps, k - 1);
      if f >= |states[k - 1].flights| {
        FlightBefore(env, states[k - 1], steps[k - 1], f, states[k]);
      }
      if states[k - 1].flights[f].swept {
        SweptByStop(env, states, steps, k - 1, f);
      } else {
        FlightStep(env, states[k - 1], steps[k - 1], f);
        assert SweptAt(states, steps, k - 1, f);
      }
    }
  }

  /** How one step may change one flight. */
  predicate FlightChange(s: State, step: Step, f: nat, s': State) {
    && f < |s.flights| <= |s'.flights|
    && var a, b := s.flights[f], s'.flights[f];
       && b.hash == a.hash
       && (b.swept ==> a.swept || step.Stop?)
       && (b.cancelled ==> a.cancelled || step.Stop? || step == Finish(f)
                           || (step.Leave? && step.caller < |s.callers| && s.callers[step.caller] == Leaving(f)))
       && (a.cancelled || step == Finish(f) ==> b.cancelled)
       && (b.phase == a.phase || PhaseEdge(step, f, a.phase, b.phase))
  }

  predicate PhaseEdge(step: Step, f: nat, a: Phase, b: Phase) {
    match step
    case Fetch(g, _) => g == f && a.Fetching? && (b.Storing? || (b.Finishing? && b.outcome.FetchFailed?) || (b.Finishing? && b.outcome.HashMismatch?))
    case BeginStore(g, _) => g == f && a.Storing? && (b.Committing? || b.Recording? || b == Finishing(StoreFailed))
    case CommitStore(g) => g == f && a.Committing? && b.Recording?
    case Record(g, recorded) => g == f && a.Recording? && b == if recorded then Finishing(Stored) else RollingBack
    case BeginRollback(g, removed) =>
      g == f && a.RollingBack? && (b.Erasing? || (b.Finishing? && b.outcome.RecordFailed?))
    case CommitRollback(g) => g == f && a.Erasing? && b == Finishing(RecordFailed(true))
    case Finish(g) => g == f && a.Finishing? && b == Finished(a.outcome)
    case _ => false
  }

  lemma EnsureChanges(env: Env, s: State, hash: bytes, f: nat)
    requires InRange(s) && f < |s.flights|
    ensures FlightChange(s, Ensure(hash), f, EnsureStep(env, s, hash))
  {
  }

  lemma BeginStoreChanges(env: Env, s: State, g: nat, written: bool, f: nat)
    requires g < |s.flights| && s.flights[g].phase.Storing? && f < |s.flights|
    ensures FlightChange(s, BeginStore(g, written), f, BeginStoreStep(env, s, g, written))
  {
  }

  lemma BeginRollbackChanges(env: Env, s: State, g: nat, removed: bool, f: nat)
    requires g < |s.flights| && s.flights[g].phase.RollingBack? && f < |s.flights|
    ensures FlightChange(s, BeginRollback(g, removed), f, BeginRollbackStep(env, s, g, removed))
  {
  }

  lemma ClientChanges(env: Env, s: State, step: Step, f: nat)
    requires Enabled(env, s, step) && f < |s.flights|
    requires step.ClientSet? || step.ClientCommit? || step.ClientDelete? || step.ClientErase? || step.SetFetcher?
    ensures FlightChange(s, step, f, Apply(env, s, step))
  {
  }

  lemma FlightStep(env: Env, s: State, step: Step, f: nat)
    requires Enabled(env, s, step) && f < |s.flights|
    ensures FlightChange(s, step, f, Apply(env, s, step))
  {
    match step {
      case Ensure(hash) => EnsureChanges(env, s, hash, f);
      case Fetch(g, reply) => assert FlightChange(s, step, f, FetchStep(env, s, g, reply));
      case BeginStore(g, written) => BeginStoreChanges(env, s, g, written, f);
      case CommitStore(g) => assert FlightChange(s, step, f, SetPhase(CommitSet(s), g, Recording));
      case Record(g, recorded) =>
      case BeginRollback(g, removed) => BeginRollbackChanges(env, s, g, removed, f);
      case CommitRollback(g) =>
        assert FlightChange(s, step, f, SetPhase(CommitDelete(s), g, Finishing(RecordFailed(true))));
      case Finish(g) => assert FlightChange(s, step, f, FinishStep(s, g));
      case Return(c) => assert FlightChange(s, step, f, ReturnStep(s, c));
      case GiveUp(c) =>
      case Leave(c) => assert FlightChange(s, step, f, LeaveStep(s, c));
      case Stop => assert FlightChange(s, step, f, StopStep(s));
      case _ => ClientChanges(env, s, step, f);
    }
  }

  /** Only Ensure adds a flight, and it starts out fetching. */
  lemma FlightBefore(env: Env, s: State, step: Step, f: nat, s': State)
    requires Enabled(env, s, step) && s' == Apply(env, s, step) && |s.flights| <= f < |s'.flights|
    ensures step.Ensure? && s'.flights[f] == Flight(step.hash, 1, false, Fetching, false)
  {
    if !step.Ensure? {
      SameFlightCount(env, s, step);
    }
  }

  lemma SameFlightCount(env: Env, s: State, step: Step)
    requires Enabled(env, s, step) && !step.Ensure?
    ensures |Apply(env, s, step).flights| == |s.flights|
  {
    match step {
      case Fetch(f, reply) => assert |FetchStep(env, s, f, reply).flights| == |s.flights|;
      case BeginStore(f, written) => assert |BeginStoreStep(env, s, f, written).flights| == |s.flights|;
      case BeginRollback(f, removed) => assert |BeginRollbackStep(env, s, f, removed).flights| == |s.flights|;
      case Finish(f) => assert |FinishStep(s, f).flights| == |s.flights|;
      case Leave(c) => assert |LeaveStep(s, c).flights| == |s.flights|;
      case _ =>
    }
  }

  /**
   In every reachable state: a registered flight counts exactly its attached callers;
   at most one running fetch per hash has an uncancelled context; and a running fetch
   is cancelled only after its last caller left or after a Stop that met it registered.
   */
  lemma SingleFlight(env: Env, states: seq<State>, steps: seq<Step>, k: nat)
    requires ValidEnv(env) && IsRun(env, states, steps) && k < |states|
    ensures forall h :: h in states[k].inFlight ==>
              && states[k].inFlight[h] < |states[k].flights|
              && states[k].flights[states[k].inFlight[h]].hash == h
              && states[k].flights[states[k].inFlight[h]].waiters
                 == Attached(states[k].callers, states[k].inFlight[h])
    ensures forall f: nat, g: nat | Live(states[k], f) && Live(states[k], g) ::
              states[k].flights[f].hash == states[k].flights[g].hash ==> f == g
    ensures forall f: nat | f < |states[k].flights| && Abandoned(states[k], f) && Attached(states[k].callers, f) > 0 ::
              exists j :: j < k && SweptAt(states, steps, j, f)
  {
    ReachableInv(env, states, steps, k);
    var s := states[k];
    forall h | h in s.inFlight
      ensures s.flights[s.inFlight[h]].waiters == Attached(s.callers, s.inFlight[h])
    {
      assert FlightOk(s, s.inFlight[h]);
    }
    forall f: nat, g: nat | Live(s, f) && Live(s, g) && s.flights[f].hash == s.flights[g].hash
      ensures f == g
    {
      assert FlightOk(s, f) && FlightOk(s, g);
    }
    forall f: nat | f < |s.flights| && Abandoned(s, f) && Attached(s.callers, f) > 0
      ensures exists j :: j < k && SweptAt(states, steps, j, f)
    {
      assert FlightOk(s, f);
      SweptByStop(env, states, steps, k, f);
    }
  }

  /**
   A registration disappears or changes only by Stop, by the registered flight's own
   completion, or by a new Ensure that finds it abandoned and cancelled. In particular a
   stale flight's completion never unregisters its successor.
   */
  lemma RegistrationChanges(env: Env, s: State, step: Step, s': State, h: bytes)
    requires Inv(env, s) && Enabled(env, s, step) && s' == Apply(env, s, step)
    requires h in s.inFlight && !(h in s'.inFlight && s'.inFlight[h] == s.inFlight[h])
    ensures step.Stop?
            || step == Finish(s.inFlight[h])
            || (step == Ensure(h) && s.flights[s.inFlight[h]].waiters == 0 && s.flights[s.inFlight[h]].cancelled)
  {
    assert FlightOk(s, s.inFlight[h]);
    if !(step.Ensure? || step.Finish? || step.Stop?) {
      SameRegistry(env, s, step);
    }
  }

  lemma SameRegistry(env: Env, s: State, step: Step)
    requires Enabled(env, s, step) && !(step.Ensure? || step.Finish? || step.Stop?)
    ensures Apply(env, s, step).inFlight == s.inFlight
  {
    match step {
      case Fetch(f, reply) => assert FetchStep(env, s, f, reply).inFlight == s.inFlight;
      case BeginStore(f, written) => assert BeginStoreStep(env, s, f, written).inFlight == s.inFlight;
      case BeginRollback(f, removed) => assert BeginRollbackStep(env, s, f, removed).inFlight == s.inFlight;
      case Leave(c) => assert LeaveStep(s, c).inFlight == s.inFlight;
      case _ =>
    }
  }

  /** A running fetch loses its context only at Stop or when its last attached caller leaves. */
  lemma CancelEvents(env: Env, s: State, step: Step, s': State, f: nat)
    requires ValidEnv(env) && Inv(env, s) && Enabled(env, s, step) && s' == Apply(env, s, step)
    requires Live(s, f) && f < |s'.flights| && s'.flights[f].cancelled && !s'.flights[f].phase.Finished?
    ensures step.Stop? || (step.Leave? && s.callers[step.caller] == Leaving(f) && Attached(s'.callers, f) == 0)
  {
    FlightStep(env, s, step, f);
    assert FlightOk(s, f);
    if step.Leave? {
      LeaveKeepsFlights(s, step.caller);
      assert FlightOk(LeaveStep(s, step.caller), f);
    }
  }

  // ---------------------------------------------------------------- progress

  /** How far a fetch goroutine is from its end. */
  function Distance(phase: Phase): nat {
    match phase
    case Fetching => 7
    case Storing(_) => 6
    case Committing => 5
    case Recording => 4
    case RollingBack => 3
    case Erasing => 2
    case Finishing(_) => 1
    case Finished(_) => 0
  }

  /** The steps the goroutine of flight f takes. */
  predicate OwnStep(step: Step, f: nat) {
    (step.Fetch? || step.BeginStore? || step.CommitStore? || step.Record? || step.BeginRollback? || step.CommitRollback? || step.Finish?)
    && step.flight == f
  }

  /** One such step for each phase. */
  function NextOwn(phase: Phase, f: nat): Step {
    match phase
    case Fetching => Fetch(f, None)
    case Storing(_) => BeginStore(f, true)
    case Committing => CommitStore(f)
    case Recording => Record(f, true)
    case RollingBack => BeginRollback(f, true)
    case Erasing => CommitRollback(f)
    case Finishing(_) => Finish(f)
    case Finished(_) => Finish(f)
  }

  /** The step that frees diskMu. */
  function HolderStep(lock: DiskLock): Step {
    match lock
    case Free => Stop
    case ForSet(OfFlight(g), _, _) => CommitStore(g)
    case ForSet(OfClient, _, _) => ClientCommit
    case ForDelete(OfFlight(g), _) => CommitRollback(g)
    case ForDelete(OfClient, _) => ClientErase
  }

  /** Whoever holds diskMu can always take its next step, which frees it. */
  lemma HolderFrees(env: Env, s: State)
    requires Inv(env, s) && !s.lock.Free?
    ensures Enabled(env, s, HolderStep(s.lock)) && Apply(env, s, HolderStep(s.lock)).lock.Free?
  {
    if s.lock.owner.OfFlight? {
      assert PhaseOk(env, s, s.lock.owner.id);
    }
  }

  /** Every unfinished fetch can take a step of its own, or waits for a diskMu whose holder can free it. */
  lemma FlightProceeds(env: Env, s: State, f: nat)
    requires Inv(env, s) && f < |s.flights| && !s.flights[f].phase.Finished?
    ensures OwnStep(NextOwn(s.flights[f].phase, f), f)
    ensures Enabled(env, s, NextOwn(s.flights[f].phase, f))
            || (&& (s.flights[f].phase.Storing? || s.flights[f].phase.RollingBack?) && !s.lock.Free?
                && Enabled(env, s, HolderStep(s.lock)) && Apply(env, s, HolderStep(s.lock)).lock.Free?)
  {
    assert PhaseOk(env, s, f);
    if !s.lock.Free? {
      HolderFrees(env, s);
    }
  }

  /** No step moves a fetch away from its end, and every step of its own brings it closer. */
  lemma FlightDescends(env: Env, s: State, step: Step, f: nat)
    requires Enabled(env, s, step) && f < |s.flights|
    ensures f < |Apply(env, s, step).flights|
    ensures Distance(Apply(env, s, step).flights[f].phase) <= Distance(s.flights[f].phase)
    ensures OwnStep(step, f) ==> Distance(Apply(env, s, step).flights[f].phase) < Distance(s.flights[f].phase)
  {
    var t := Apply(env, s, step);
    FlightStep(env, s, step, f);
    EdgeDescends(step, f, s.flights[f].phase, t.flights[f].phase);
    if OwnStep(step, f) {
      OwnStepMoves(env, s, step, f);
    }
  }

  lemma EdgeDescends(step: Step, f: nat, a: Phase, b: Phase)
    ensures PhaseEdge(step, f, a, b) ==> Distance(b) < Distance(a)
  {
  }

  lemma OwnStepMoves(env: Env, s: State, step: Step, f: nat)
    requires Enabled(env, s, step) && OwnStep(step, f)
    ensures f < |Apply(env, s, step).flights| && Apply(env, s, step).flights[f].phase != s.flights[f].phase
  {
  }

  // ---------------------------------------------------------------- the store as a plain map

  /** get: the map under `mu`, then the file without any lock. */
  function Get(env: Env, s: State, h: bytes): Option<bytes> {
    if h !in s.blobs then None
    else if env.hasDir && s.blobs[h].OnDisk? then
      if h in s.disk && env.hashOf(s.disk[h]) == h then Some(s.disk[h]) else None
    else if s.blobs[h].OnDisk? then Some([])
    else Some(s.blobs[h].data)
  }

  /** The plain hash-to-bytes map that callers of get observe. */
  function Contents(env: Env, s: State): map<bytes, bytes> {
    map h | h in s.blobs && Get(env, s, h).Some? :: Get(env, s, h).value
  }

  /** `data` is what the last step that published under h published, or what Start found there. */
  ghost predicate LastPublished(env: Env, states: seq<State>, steps: seq<Step>, k: nat, h: bytes, data: bytes)
    requires |states| == |steps| + 1 && k < |states|
  {
    || (&& h in states[0].blobs && h in states[0].disk && data == states[0].disk[h]
        && forall i :: 0 <= i < k ==> !Stores(env, states[i], steps[i], h))
    || exists j :: PublishedAt(env, states, steps, j, k, h, data)
  }

  ghost predicate PublishedAt(env: Env, states: seq<State>, steps: seq<Step>, j: int, k: nat, h: bytes, data: bytes)
    requires |states| == |steps| + 1 && k < |states|
  {
    && 0 <= j < k && Stores(env, states[j], steps[j], h) && data == StoredBytes(states[j], steps[j])
    && forall i :: j < i < k ==> !Stores(env, states[i], steps[i], h)
  }

  /** The ledger changes exactly where a step publishes. */
  lemma LedgerStep(env: Env, s: State, step: Step, h: bytes)
    requires Enabled(env, s, step)
    ensures var t := Apply(env, s, step);
            if Stores(env, s, step, h) then h in t.ledger && t.ledger[h] == StoredBytes(s, step)
            else (h in t.ledger <==> h in s.ledger) && (h in s.ledger ==> t.ledger[h] == s.ledger[h])
  {
    match step {
      case BeginStore(f, written) =>
        BeginSetLedger(env, s, OfFlight(f), s.flights[f].hash, s.flights[f].phase.data, written);
      case ClientSet(hash, data, written) => BeginSetLedger(env, s, OfClient, hash, data, written);
      case CommitStore(_) =>
      case ClientCommit =>
      case BeginRollback(_, _) =>
      case CommitRollback(_) =>
      case ClientDelete(_, _) =>
      case ClientErase =>
      case Stop =>
      case _ => TouchesNoStore(env, s, step);
    }
  }

  lemma BeginSetLedger(env: Env, s: State, owner: Owner, hash: bytes, data: bytes, written: bool)
    ensures BeginSet(env, s, owner, hash, data, written).ledger
            == if Accepts(env, hash, data) && !env.persist then s.ledger[hash := data] else s.ledger
  {
  }

  lemma {:induction false} LedgerIsHistory(env: Env, states: seq<State>, steps: seq<Step>, k: nat, h: bytes)
    requires IsRun(env, states, steps) && k < |states| && h in states[k].ledger
    ensures LastPublished(env, states, steps, k, h, states[k].ledger[h])
  {
    if k > 0 {
      assert StepAt(env, states, steps, k - 1);
      LedgerStep(env, states[k - 1], steps[k - 1], h);
      if Stores(env, states[k - 1], steps[k - 1], h) {
        assert PublishedAt(env, states, steps, k - 1, k, h, states[k].ledger[h]);
      } else {
        LedgerIsHistory(env, states, steps, k - 1, h);
        StillLast(env, states, steps, k - 1, h, states[k].ledger[h]);
      }
    }
  }

  lemma StillLast(env: Env, states: seq<State>, steps: seq<Step>, k: nat, h: bytes, data: bytes)
    requires |states| == |steps| + 1 && k + 1 < |states|
    requires LastPublished(env, states, steps, k, h, data) && !Stores(env, states[k], steps[k], h)
    ensures LastPublished(env, states, steps, k + 1, h, data)
  {
    if j :| PublishedAt(env, states, steps, j, k, h, data) {
      assert PublishedAt(env, states, steps, j, k + 1, h, data);
    }
  }

  /**
   In every reachable state with diskMu free, get returns exactly the bytes last published under
   a key that is in the cache, 1 to 2 MiB of them hashing to the canonical key, and nothing
   for any other key.
   */
  lemma GetReturnsLastStored(env: Env, states: seq<State>, steps: seq<Step>, k: nat, h: bytes)
    requires ValidEnv(env) && IsRun(env, states, steps) && k < |states| && states[k].lock.Free?
    ensures h !in states[k].blobs ==> Get(env, states[k], h) == None
    ensures h in states[k].blobs ==>
              && h in states[k].ledger && Get(env, states[k], h) == Some(states[k].ledger[h])
              && LastPublished(env, states, steps, k, h, states[k].ledger[h])
              && env.canonical(h) && Matches(env, h, states[k].ledger[h])
  {
    ReachableInv(env, states, steps, k);
    if h in states[k].blobs {
      assert EntryOk(env, states[k], h);
      LedgerIsHistory(env, states, steps, k, h);
    }
  }

  /** Finishing Set inserts one binding and disturbs no other. */
  lemma CommitSetInserts(env: Env, s: State)
    requires ValidEnv(env) && StoreInv(env, s) && s.lock.ForSet?
    ensures Contents(env, CommitSet(s)) == Contents(env, s)[s.lock.hash := s.lock.data]
  {
    CommitSetKeepsStore(env, s);
    assert EntryOk(env, CommitSet(s), s.lock.hash);
  }

  /** What get sees once Set has come to its file write. */
  lemma BeginSetGet(env: Env, s: State, owner: Owner, h: bytes, data: bytes, written: bool, k: bytes)
    requires ValidEnv(env) && StoreInv(env, s) && (env.persist ==> s.lock.Free?)
    ensures Get(env, BeginSet(env, s, owner, h, data, written), k)
            == if k == h && Accepts(env, h, data) && (!env.persist || (written && h in s.blobs && s.blobs[h].OnDisk?))
               then Some(data) else Get(env, s, k)
  {
  }

  /** Contents is the map that get reads off. */
  lemma ContentsFromGet(env: Env, t: State, m: map<bytes, bytes>)
    requires forall k :: Get(env, t, k) == if k in m then Some(m[k]) else None
    ensures Contents(env, t) == m
  {
    assert forall k :: k in m ==> Get(env, t, k).Some?;
  }

  lemma GetFromContents(env: Env, s: State, k: bytes)
    ensures Get(env, s, k) == if k in Contents(env, s) then Some(Contents(env, s)[k]) else None
  {
  }

  /** Writing the file first is invisible unless the hash is already served from disk. */
  lemma BeginSetEffect(env: Env, s: State, owner: Owner, h: bytes, data: bytes, written: bool)
    requires ValidEnv(env) && StoreInv(env, s) && (env.persist ==> s.lock.Free?)
    ensures Contents(env, BeginSet(env, s, owner, h, data, written)) ==
            if !Accepts(env, h, data) || (env.persist && !written) then Contents(env, s)
            else if env.persist && (h !in s.blobs || s.blobs[h].InMemory?) then Contents(env, s)
            else Contents(env, s)[h := data]
  {
    var t, before := BeginSet(env, s, owner, h, data, written), Contents(env, s);
    var seen := Accepts(env, h, data) && (!env.persist || (written && h in s.blobs && s.blobs[h].OnDisk?));
    var m := if seen then before[h := data] else before;
    forall k
      ensures Get(env, t, k) == if k in m then Some(m[k]) else None
    {
      BeginSetGet(env, s, owner, h, data, written, k);
      GetFromContents(env, s, k);
    }
    ContentsFromGet(env, t, m);
  }

  lemma CommitDeleteRemoves(env: Env, s: State)
    requires StoreInv(env, s) && s.lock.ForDelete?
    ensures Contents(env, CommitDelete(s)) == Contents(env, s) - {s.lock.hash}
  {
  }

  lemma BeginDeleteGet(env: Env, s: State, owner: Owner, h: bytes, removed: bool, k: bytes)
    requires StoreInv(env, s) && (env.hasDir && env.canonical(h) ==> s.lock.Free?)
    ensures Get(env, BeginDelete(env, s, owner, h, removed), k)
            == if k == h && !(env.hasDir && env.canonical(h) && (!removed || (h in s.blobs && s.blobs[h].InMemory?)))
               then None else Get(env, s, k)
  {
  }

  lemma BeginDeleteEffect(env: Env, s: State, owner: Owner, h: bytes, removed: bool)
    requires StoreInv(env, s) && (env.hasDir && env.canonical(h) ==> s.lock.Free?)
    ensures Contents(env, BeginDelete(env, s, owner, h, removed)) ==
            if env.hasDir && env.canonical(h) && (!removed || (h in s.blobs && s.blobs[h].InMemory?))
            then Contents(env, s)
            else Contents(env, s) - {h}
  {
    var t, before := BeginDelete(env, s, owner, h, removed), Contents(env, s);
    var kept := env.hasDir && env.canonical(h) && (!removed || (h in s.blobs && s.blobs[h].InMemory?));
    var m := if kept then before else before - {h};
    forall k
      ensures Get(env, t, k) == if k in m then Some(m[k]) else None
    {
      BeginDeleteGet(env, s, owner, h, removed, k);
      GetFromContents(env, s, k);
    }
    ContentsFromGet(env, t, m);
  }

  /** No other step touches a stored blob, except that Stop forgets them all. */
  lemma OtherStepsKeepContents(env: Env, s: State, step: Step)
    requires Enabled(env, s, step)
    requires !(step.BeginStore? || step.CommitStore? || step.BeginRollback? || step.CommitRollback?)
    requires !(step.ClientSet? || step.ClientCommit? || step.ClientDelete? || step.ClientErase?)
    ensures Contents(env, Apply(env, s, step)) == if step.Stop? then map[] else Contents(env, s)
  {
    if !step.Stop? {
      TouchesNoStore(env, s, step);
    }
  }

  // ---------------------------------------------------------------- nil returns

  /** The step publishes bytes under h in the map. */
  predicate Stores(env: Env, s: State, step: Step, h: bytes) {
    match step
    case CommitStore(_) => s.lock.ForSet? && s.lock.hash == h
    case ClientCommit => s.lock.ForSet? && s.lock.hash == h
    case BeginStore(f, _) =>
      && !env.persist && f < |s.flights| && s.flights[f].phase.Storing?
      && s.flights[f].hash == h && Accepts(env, h, s.flights[f].phase.data)
    case ClientSet(hash, data, _) => !env.persist && hash == h && Accepts(env, h, data)
    case _ => false
  }

  function StoredBytes(s: State, step: Step): bytes {
    match step
    case CommitStore(_) => if s.lock.ForSet? then s.lock.data else []
    case ClientCommit => if s.lock.ForSet? then s.lock.data else []
    case BeginStore(f, _) => if f < |s.flights| && s.flights[f].phase.Storing? then s.flights[f].phase.data else []
    case ClientSet(_, data, _) => data
    case _ => []
  }

  /** What is published is readable at once. */
  lemma StoresMakesAvailable(env: Env, s: State, step: Step, h: bytes)
    requires ValidEnv(env) && Inv(env, s) && Enabled(env, s, step) && Stores(env, s, step, h)
    ensures Get(env, Apply(env, s, step), h) == Some(StoredBytes(s, step)) && Matches(env, h, StoredBytes(s, step))
  {
    StepKeepsInv(env, s, step);
    LedgerStep(env, s, step, h);
    assert EntryOk(env, Apply(env, s, step), h);
  }

  /**
   A nil return from Ensure is backed by an earlier store: the hash was verified at Start,
   or an earlier step published matching bytes that were readable right then.
   */
  lemma NilReturnBacked(env: Env, states: seq<State>, steps: seq<Step>, k: nat, c: nat)
    requires ValidEnv(env) && IsRun(env, states, steps) && k < |states|
    requires c < |states[k].callers| && states[k].callers[c].Returned? && states[k].callers[c].ok
    ensures var h := states[k].callers[c].hash;
            || h in Contents(env, states[0])
            || exists j :: BackedAt(env, states, steps, j, k, h)
  {
    var h := states[k].callers[c].hash;
    ReachableInv(env, states, steps, k);
    LedgerIsHistory(env, states, steps, k, h);
    if j :| PublishedAt(env, states, steps, j, k, h, states[k].ledger[h]) {
      ReachableInv(env, states, steps, j);
      assert StepAt(env, states, steps, j);
      StoresMakesAvailable(env, states[j], steps[j], h);
      assert BackedAt(env, states, steps, j, k, h);
    } else {
      InitialInv(env, states[0]);
      assert EntryOk(env, states[0], h);
    }
  }

  /** Step j published bytes that hash to h, and they could be read right after it. */
  ghost predicate BackedAt(env: Env, states: seq<State>, steps: seq<Step>, j: int, k: nat, h: bytes)
    requires |states| == |steps| + 1 && k < |states|
  {
    && 0 <= j < k && Stores(env, states[j], steps[j], h)
    && Get(env, states[j + 1], h) == Some(StoredBytes(states[j], steps[j]))
    && Matches(env, h, StoredBytes(states[j], steps[j]))
  }

  // ---------------------------------------------------------------- rollback

  predicate FailedRecord(phase: Phase) {
    phase.RollingBack? || phase.Erasing?
    || ((phase.Finishing? || phase.Finished?) && phase.outcome.RecordFailed?)
  }

  lemma FailedRecordStays(s: State, step: Step, f: nat, s': State)
    requires FlightChange(s, step, f, s')
    requires FailedRecord(s.flights[f].phase) || (step == Record(f, false) && s'.flights[f].phase != s.flights[f].phase)
    ensures FailedRecord(s'.flights[f].phase)
  {
  }

  /** Once its completion record failed, a fetch can only end in an error. */
  lemma {:induction false} RecordFailureIsError(
    env: Env, states: seq<State>, steps: seq<Step>, j: nat, k: nat, f: nat)
    requires IsRun(env, states, steps) && j < k < |states| && steps[j] == Record(f, false)
    ensures f < |states[k].flights| && FailedRecord(states[k].flights[f].phase)
  {
    assert StepAt(env, states, steps, k - 1);
    if k > j + 1 {
      RecordFailureIsError(env, states, steps, j, k - 1, f);
      FlightStep(env, states[k - 1], steps[k - 1], f);
      FailedRecordStays(states[k - 1], steps[k - 1], f, states[k]);
    }
  }

  lemma FinishedStays(env: Env, s: State, step: Step, f: nat)
    requires Enabled(env, s, step) && f < |s.flights| && s.flights[f].phase.Finished?
    ensures f < |Apply(env, s, step).flights| && Apply(env, s, step).flights[f].phase == s.flights[f].phase
  {
    FlightStep(env, s, step, f);
  }

  lemma {:induction false} FinishedForGood(env: Env, states: seq<State>, steps: seq<Step>, m: nat, j: nat, f: nat)
    requires IsRun(env, states, steps) && m <= j < |states|
    requires f < |states[m].flights| && states[m].flights[f].phase.Finished?
    ensures f < |states[j].flights| && states[j].flights[f].phase.Finished?
    decreases j - m
  {
    if m < j {
      assert StepAt(env, states, steps, m);
      FinishedStays(env, states[m], steps[m], f);
      FinishedForGood(env, states, steps, m + 1, j, f);
    }
  }

  /** A flight whose record fails at some point is never seen finished with success, before or after. */
  lemma NeverStored(env: Env, states: seq<State>, steps: seq<Step>, j: nat, m: nat, f: nat)
    requires IsRun(env, states, steps) && j < |steps| && m < |states| && steps[j] == Record(f, false)
    ensures f < |states[m].flights| ==> states[m].flights[f].phase != Finished(Stored)
  {
    assert StepAt(env, states, steps, j);
    if m > j {
      RecordFailureIsError(env, states, steps, j, m, f);
    } else if f < |states[m].flights| && states[m].flights[f].phase.Finished? {
      FinishedForGood(env, states, steps, m, j, f);
    }
  }

  /** Still with flight f, or returned with an error. */
  predicate Unserved(caller: Caller, f: nat) {
    AttachedTo(caller, f) || (caller.Returned? && !caller.ok)
  }

  lemma CallerStep(env: Env, s: State, step: Step, c: nat, f: nat, t: State)
    requires Enabled(env, s, step) && t == Apply(env, s, step) && c < |s.callers| && Unserved(s.callers[c], f)
    requires f < |s.flights| ==> s.flights[f].phase != Finished(Stored)
    ensures c < |t.callers| && Unserved(t.callers[c], f)
  {
    if step.Ensure? {
      var caller := EnsureAddsCaller(env, s, step.hash);
    } else if step.Return? || step.GiveUp? || step.Leave? {
      CallerMoves(env, s, step, c, f);
    } else {
      SameCallers(env, s, step);
    }
  }

  lemma EnsureAddsCaller(env: Env, s: State, hash: bytes) returns (caller: Caller)
    requires InRange(s)
    ensures EnsureStep(env, s, hash).callers == s.callers + [caller]
  {
    var evicted := s.(inFlight := s.inFlight - {hash});
    if !env.validHash(hash) {
      caller := Returned(hash, false);
    } else if hash in s.blobs {
      caller := Returned(hash, true);
    } else if hash in s.inFlight && s.flights[s.inFlight[hash]].waiters > 0 {
      caller := Waiting(s.inFlight[hash]);
    } else if s.hasFetcher {
      caller := Waiting(|s.flights|);
      assert Launch(evicted, hash).callers == s.callers + [caller];
    } else {
      caller := Returned(hash, false);
    }
  }

  lemma CallerMoves(env: Env, s: State, step: Step, c: nat, f: nat)
    requires Enabled(env, s, step) && (step.Return? || step.GiveUp? || step.Leave?)
    requires c < |s.callers| && Unserved(s.callers[c], f)
    requires f < |s.flights| ==> s.flights[f].phase != Finished(Stored)
    ensures |Apply(env, s, step).callers| == |s.callers| && Unserved(Apply(env, s, step).callers[c], f)
  {
  }

  lemma SameCallers(env: Env, s: State, step: Step)
    requires Enabled(env, s, step) && !(step.Ensure? || step.Return? || step.GiveUp? || step.Leave?)
    ensures Apply(env, s, step).callers == s.callers
  {
    match step {
      case BeginStore(f, written) => assert BeginStoreStep(env, s, f, written).callers == s.callers;
      case BeginRollback(f, removed) => assert BeginRollbackStep(env, s, f, removed).callers == s.callers;
      case _ =>
    }
  }

  lemma CallerNext(env: Env, states: seq<State>, steps: seq<Step>, m: nat, c: nat, f: nat)
    requires m < |steps| && m + 1 < |states| && StepAt(env, states, steps, m)
    requires c < |states[m].callers| && Unserved(states[m].callers[c], f)
    requires f < |states[m].flights| ==> states[m].flights[f].phase != Finished(Stored)
    ensures c < |states[m + 1].callers| && Unserved(states[m + 1].callers[c], f)
  {
    CallerStep(env, states[m], steps[m], c, f, states[m + 1]);
  }

  /** Every caller that ever joined a flight whose completion record failed gets an error, whenever it returns. */
  lemma {:induction false} RecordFailureReachesCallers(
    env: Env, states: seq<State>, steps: seq<Step>, j: nat, i: nat, k: nat, c: nat, f: nat)
    requires IsRun(env, states, steps) && j < |steps| && steps[j] == Record(f, false) && i <= k < |states|
    requires c < |states[i].callers| && AttachedTo(states[i].callers[c], f)
    ensures c < |states[k].callers| && Unserved(states[k].callers[c], f)
    decreases k - i
  {
    if i < k {
      RecordFailureReachesCallers(env, states, steps, j, i, k - 1, c, f);
      NeverStored(env, states, steps, j, k - 1, f);
      assert StepAt(env, states, steps, k - 1);
      CallerNext(env, states, steps, k - 1, c, f);
    }
  }

  /** The step that ends a rollback leaves neither entry nor file, unless removing the file failed. */
  lemma RollbackLeavesNothing(env: Env, s: State, step: Step, s': State, f: nat)
    requires ValidEnv(env) && Inv(env, s) && Enabled(env, s, step) && s' == Apply(env, s, step)
    requires f < |s.flights| && (s.flights[f].phase.RollingBack? || s.flights[f].phase.Erasing?)
    requires f < |s'.flights| && s'.flights[f].phase.Finishing?
    ensures s'.flights[f].phase.outcome.RecordFailed?
    ensures s'.flights[f].phase.outcome.removed ==>
              s.flights[f].hash !in s'.blobs && (env.hasDir ==> s.flights[f].hash !in s'.disk)
    ensures !s'.flights[f].phase.outcome.removed ==>
              step == BeginRollback(f, false) && s'.blobs == s.blobs && s'.disk == s.disk
  {
    assert PhaseOk(env, s, f);
    FlightStep(env, s, step, f);
    LedgerHashCanonical(env, s, s.flights[f].hash);
    if step.BeginRollback? {
      assert s' == BeginRollbackStep(env, s, f, step.removed);
    } else {
      assert s' == SetPhase(CommitDelete(s), f, Finishing(RecordFailed(true)));
    }
  }

  lemma LedgerHashCanonical(env: Env, s: State, h: bytes)
    requires ValidEnv(env) && LedgerInv(env, s) && h in s.ledger
    ensures env.canonical(h)
  {
    assert env.hashOf(s.ledger[h]) == h;
  }

  // ---------------------------------------------------------------- lazy reads

  predicate FileGood(env: Env, s: State, h: bytes) {
    h in s.disk && Matches(env, h, s.disk[h])
  }

  predicate RemovesFile(env: Env, s: State, step: Step, h: bytes) {
    && env.hasDir && env.canonical(h)
    && match step
       case ClientDelete(hash, removed) => hash == h && removed
       case BeginRollback(f, removed) => f < |s.flights| && s.flights[f].hash == h && removed
       case _ => false
  }

  lemma FileSurvives(env: Env, s: State, step: Step, h: bytes)
    requires Enabled(env, s, step) && FileGood(env, s, h) && !RemovesFile(env, s, step, h)
    ensures FileGood(env, Apply(env, s, step), h)
  {
    if step.BeginStore? {
      var flight := s.flights[step.flight];
      SetKeepsFile(env, s, OfFlight(step.flight), flight.hash, flight.phase.data, step.written, h);
    } else if step.ClientSet? {
      SetKeepsFile(env, s, OfClient, step.hash, step.data, step.written, h);
    } else if step.BeginRollback? {
      DeleteKeepsFile(env, s, OfFlight(step.flight), s.flights[step.flight].hash, step.removed, h);
    } else if step.ClientDelete? {
      DeleteKeepsFile(env, s, OfClient, step.hash, step.removed, h);
    } else {
      SameDisk(env, s, step);
    }
  }

  lemma SameDisk(env: Env, s: State, step: Step)
    requires Enabled(env, s, step) && !(step.BeginStore? || step.ClientSet? || step.BeginRollback? || step.ClientDelete?)
    ensures Apply(env, s, step).disk == s.disk
  {
    if !(step.CommitStore? || step.CommitRollback? || step.ClientCommit? || step.ClientErase? || step.Stop?) {
      TouchesNoStore(env, s, step);
    }
  }

  lemma SetKeepsFile(env: Env, s: State, owner: Owner, hash: bytes, data: bytes, written: bool, h: bytes)
    requires FileGood(env, s, h)
    ensures FileGood(env, BeginSet(env, s, owner, hash, data, written), h)
  {
  }

  lemma DeleteKeepsFile(env: Env, s: State, owner: Owner, hash: bytes, removed: bool, h: bytes)
    requires FileGood(env, s, h) && !(env.hasDir && env.canonical(h) && hash == h && removed)
    ensures FileGood(env, BeginDelete(env, s, owner, hash, removed), h)
  {
  }

  /**
   get reads the map in one state and the file in a later one. The late read still finds
   verified bytes, unless a Delete or a rollback of that very hash was under way or came between.
   */
  lemma {:induction false} LazyRead(
    env: Env, states: seq<State>, steps: seq<Step>, i: nat, j: nat, h: bytes)
    requires ValidEnv(env) && IsRun(env, states, steps) && i <= j < |states|
    requires h in states[i].blobs && states[i].blobs[h].OnDisk?
    ensures FileGood(env, states[j], h)
            || (states[i].lock.ForDelete? && states[i].lock.hash == h)
            || exists k :: i <= k < j && RemovesFile(env, states[k], steps[k], h)
    decreases j - i
  {
    if i == j {
      ReachableInv(env, states, steps, i);
      assert EntryOk(env, states[i], h);
    } else {
      LazyRead(env, states, steps, i, j - 1, h);
      assert StepAt(env, states, steps, j - 1);
      if FileGood(env, states[j - 1], h) && !RemovesFile(env, states[j - 1], steps[j - 1], h) {
        FileSurvives(env, states[j - 1], steps[j - 1], h);
      }
    }
  }
}
