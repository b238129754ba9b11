/**
 The BlobManager object itself: each method is one critical section of blob/manager.go (or,
 for Start, Set and Delete, a whole call that meets no interference), updates the fields in
 place and is proved to be the corresponding step of BlobStore.
 */
module BlobManager {
  import opened Base
  import opened BlobStore
  import opened BlobTheorems

  /** The directory entries Start accepts: regular, canonical name, right size, readable, right hash. */
  predicate Loadable(env: Env, disk: map<bytes, bytes>, unreadable: set<bytes>, name: bytes) {
    && name in disk && env.canonical(name)
    && 0 < |disk[name]| <= MAX_BLOB_SIZE
    && name !in unreadable && env.hashOf(disk[name]) == name
  }

  /** Names entered as being on disk. */
  function LazyEntries(blobs: map<bytes, Entry>, names: set<bytes>): map<bytes, Entry> {
    map h | h in blobs.Keys + names :: if h in names then OnDisk else blobs[h]
  }

  /** Files laid over a map. */
  function FilesOver(m: map<bytes, bytes>, disk: map<bytes, bytes>, names: set<bytes>): map<bytes, bytes>
    requires names <= disk.Keys
  {
    map h | h in m.Keys + names :: if h in names then disk[h] else m[h]
  }

  /** The effect of Start once the directory has been scanned. */
  function Load(s: State, names: set<bytes>): State
    requires names <= s.disk.Keys
  {
    s.(blobs := LazyEntries(s.blobs, names), ledger := FilesOver(s.ledger, s.disk, names))
  }

  /** Files that hash to their names, in a directory the manager has. */
  ghost predicate Verified(env: Env, s: State, names: set<bytes>) {
    && names <= s.disk.Keys && (names != {} ==> env.hasDir)
    && forall h :: h in names ==> env.canonical(h) && Matches(env, h, s.disk[h])
  }

  lemma LoadKeepsStore(env: Env, s: State, names: set<bytes>)
    requires StoreInv(env, s) && s.lock == Free && Verified(env, s, names)
    ensures StoreInv(env, Load(s, names))
  {
    var t := Load(s, names);
    forall h | h in t.blobs
      ensures EntryOk(env, t, h)
    {
      assert h in s.blobs ==> EntryOk(env, s, h);
    }
  }

  lemma LoadKeepsLedger(env: Env, s: State, names: set<bytes>)
    requires LedgerInv(env, s) && Verified(env, s, names)
    ensures LedgerInv(env, Load(s, names))
  {
    var t := Load(s, names);
    forall g | 0 <= g < |t.flights|
      ensures PhaseOk(env, t, g)
    {
      assert PhaseOk(env, s, g);
    }
  }

  /** Loading verified files keeps the invariants, and leaves a fresh manager as fresh as before. */
  lemma LoadKeepsInv(env: Env, s: State, names: set<bytes>)
    requires Inv(env, s) && s.lock == Free && Verified(env, s, names)
    ensures Inv(env, Load(s, names)) && (Initial(env, s) ==> Initial(env, Load(s, names)))
  {
    FrameKeepsFlights(s, Load(s, names));
    LoadKeepsStore(env, s, names);
    LoadKeepsLedger(env, s, names);
  }

  lemma LoadShowsAt(env: Env, s: State, names: set<bytes>, h: bytes)
    requires Verified(env, s, names)
    ensures Get(env, Load(s, names), h) == if h in names then Some(s.disk[h]) else Get(env, s, h)
  {
  }

  /** Loading shows exactly the loaded files on top of what could be read before. */
  lemma LoadShows(env: Env, s: State, names: set<bytes>)
    requires Verified(env, s, names)
    ensures Contents(env, Load(s, names)) == FilesOver(Contents(env, s), s.disk, names)
  {
    forall h
      ensures Get(env, Load(s, names), h) == if h in names then Some(s.disk[h]) else Get(env, s, h)
    {
      LoadShowsAt(env, s, names, h);
    }
  }

  // ---------------------------------------------------------------- restarting

  predicate NothingInMemory(s: State) {
    forall h :: h in s.blobs ==> s.blobs[h].OnDisk?
  }

  lemma StepStaysOnDisk(env: Env, s: State, step: Step)
    requires env.persist && Enabled(env, s, step) && NothingInMemory(s)
    ensures NothingInMemory(Apply(env, s, step))
  {
    if step.BeginStore? {
      assert BeginStoreStep(env, s, step.flight, step.written).blobs == s.blobs;
    } else if step.BeginRollback? {
      var t := BeginDelete(env, s, OfFlight(step.flight), s.flights[step.flight].hash, step.removed);
      assert BeginRollbackStep(env, s, step.flight, step.removed).blobs == t.blobs;
    } else if !(step.CommitStore? || step.CommitRollback? || step.ClientSet? || step.ClientCommit?
                || step.ClientDelete? || step.ClientErase? || step.Stop?) {
      TouchesNoStore(env, s, step);
    } else {
      DirectStaysOnDisk(env, s, step);
    }
  }

  lemma DirectStaysOnDisk(env: Env, s: State, step: Step)
    requires env.persist && Enabled(env, s, step) && NothingInMemory(s)
    requires step.CommitStore? || step.CommitRollback? || step.ClientSet? || step.ClientCommit? || step.ClientDelete? || step.ClientErase? || step.Stop?
    ensures NothingInMemory(Apply(env, s, step))
  {
  }

  lemma {:induction false} RunStaysOnDisk(env: Env, states: seq<State>, steps: seq<Step>, k: nat)
    requires env.persist && IsRun(env, states, steps) && k < |states|
    ensures NothingInMemory(states[k])
  {
    if k > 0 {
      RunStaysOnDisk(env, states, steps, k - 1);
      assert StepAt(env, states, steps, k - 1);
      StepStaysOnDisk(env, states[k - 1], steps[k - 1]);
    }
  }

  /**
   A manager that saves to its directory can be restarted at any point of any run with diskMu free: a scan of
   that directory would load everything get returns now, with the same bytes.
   */
  lemma RestartKeeps(env: Env, states: seq<State>, steps: seq<Step>, k: nat, h: bytes)
    requires ValidEnv(env) && env.persist && IsRun(env, states, steps) && k < |states| && states[k].lock.Free?
    requires Get(env, states[k], h).Some?
    ensures Loadable(env, states[k].disk, {}, h) && states[k].disk[h] == Get(env, states[k], h).value
  {
    ReachableInv(env, states, steps, k);
    RunStaysOnDisk(env, states, steps, k);
    assert EntryOk(env, states[k], h);
  }

  /** Set as a whole, when nothing comes between its halves. */
  function WholeSet(env: Env, s: State, hash: bytes, data: bytes, written: bool): State {
    var t := BeginSet(env, s, OfClient, hash, data, written);
    if env.persist && Accepts(env, hash, data) && written then CommitSet(t) else t
  }

  lemma SetShows(env: Env, s: State, hash: bytes, data: bytes, written: bool)
    requires ValidEnv(env) && Inv(env, s) && s.lock == Free
    ensures var t := WholeSet(env, s, hash, data, written);
            && t.lock == Free && t.inFlight == s.inFlight && t.flights == s.flights && t.callers == s.callers
            && Contents(env, t) == if Accepts(env, hash, data) && (env.persist ==> written)
                                   then Contents(env, s)[hash := data] else Contents(env, s)
  {
    var t := BeginSet(env, s, OfClient, hash, data, written);
    BeginSetEffect(env, s, OfClient, hash, data, written);
    if env.persist && Accepts(env, hash, data) && written {
      BeginSetKeepsStore(env, s, OfClient, hash, data, written);
      CommitSetInserts(env, t);
    }
  }

  class BlobManager {
    const env: Env
    var blobs: map<bytes, Entry>
    var inFlight: map<bytes, nat>
    var flights: seq<Flight>
    var callers: seq<Caller>
    var disk: map<bytes, bytes>
    var lock: DiskLock
    var hasFetcher: bool
    ghost var ledger: map<bytes, bytes>

    ghost function Snapshot(): State
      reads this
    {
      State(blobs, inFlight, flights, callers, disk, lock, hasFetcher, ledger)
    }

    ghost predicate Valid()
      reads this
    {
      ValidEnv(env) && Inv(env, Snapshot())
    }

    ghost function View(): map<bytes, bytes>
      reads this
    {
      Contents(env, Snapshot())
    }

    constructor (env: Env, disk: map<bytes, bytes>)
      requires ValidEnv(env)
      ensures Valid() && this.env == env && this.disk == disk && this.lock == Free
      ensures Initial(env, Snapshot())
    {
      this.env := env;
      this.disk := disk;
      blobs, inFlight, flights, callers := map[], map[], [], [];
      lock, hasFetcher, ledger := Free, false, map[];
      new;
      InitialInv(env, Snapshot());
    }

    /** The directory scan of Start. */
    method Scan(listing: seq<bytes>, unreadable: set<bytes>) returns (loaded: map<bytes, int>)
      requires forall name :: name in listing <==> name in disk
      ensures forall name :: name in loaded <==> Loadable(env, disk, unreadable, name)
      ensures forall name :: name in loaded ==> name in disk && loaded[name] == |disk[name]|
    {
      loaded := map[];
      for i := 0 to |listing|
        invariant forall name :: name in loaded <==> name in listing[..i] && Loadable(env, disk, unreadable, name)
        invariant forall name :: name in loaded ==> name in disk && loaded[name] == |disk[name]|
      {
        var name := listing[i];
        assert name in disk;
        var data := disk[name];
        if env.canonical(name) && 0 < |data| <= MAX_BLOB_SIZE && name !in unreadable && env.hashOf(data) == name {
          loaded := loaded[name := |data|];
        }
        assert listing[..i + 1] == listing[..i] + [name];
      }
      assert listing[..|listing|] == listing;
    }

    /** Start adds every verified file lazily, whatever the manager already holds, and reports its size. */
    method Start(listing: seq<bytes>, unreadable: set<bytes>) returns (loaded: map<bytes, int>)
      requires Valid() && lock == Free
      requires forall name :: name in listing <==> name in disk
      modifies this`blobs, this`ledger
      ensures Valid() && (old(Initial(env, Snapshot())) ==> Initial(env, Snapshot()))
      ensures forall name :: name in loaded <==> env.hasDir && Loadable(env, disk, unreadable, name)
      ensures forall name :: name in loaded ==> name in disk && loaded[name] == |disk[name]|
      ensures blobs == LazyEntries(old(blobs), loaded.Keys)
      ensures View() == FilesOver(old(View()), disk, loaded.Keys)
    {
      loaded := map[];
      if env.hasDir {
        loaded := Scan(listing, unreadable);
      }
      ghost var before := Snapshot();
      blobs := LazyEntries(blobs, loaded.Keys);
      ledger := FilesOver(ledger, disk, loaded.Keys);
      LoadKeepsInv(env, before, loaded.Keys);
      LoadShows(env, before, loaded.Keys);
    }

    /** The critical section of Ensure. */
    method EnsureLocked(hash: bytes) returns (caller: nat)
      requires Valid()
      modifies this
      ensures Valid() && Snapshot() == EnsureStep(env, old(Snapshot()), hash)
      ensures caller == |old(callers)| < |callers|
    {
      ghost var before := Snapshot();
      StepKeepsInv(env, before, Ensure(hash));
      caller := |callers|;
      if !env.validHash(hash) {
        callers := callers + [Returned(hash, false)];
      } else if hash in blobs {
        callers := callers + [Returned(hash, true)];
      } else if hash in inFlight && flights[inFlight[hash]].waiters > 0 {
        JoinFlight(inFlight[hash]);
      } else {
        inFlight := inFlight - {hash};
        if !hasFetcher {
          callers := callers + [Returned(hash, false)];
        } else {
          LaunchFlight(hash);
        }
      }
      assert Snapshot() == EnsureStep(env, before, hash);
    }

    method JoinFlight(f: nat)
      requires f < |flights|
      modifies this`flights, this`callers
      ensures Snapshot() == Join(old(Snapshot()), f)
    {
      flights := flights[f := flights[f].(waiters := flights[f].waiters + 1)];
      callers := callers + [Waiting(f)];
    }

    method LaunchFlight(hash: bytes)
      modifies this`inFlight, this`flights, this`callers
      ensures Snapshot() == Launch(old(Snapshot()), hash)
    {
      inFlight := inFlight[hash := |flights|];
      callers := callers + [Waiting(|flights|)];
      flights := flights + [Flight(hash, 1, false, Fetching, false)];
    }

    /** The epilogue of the fetch goroutine. */
    method FinishFlight(f: nat)
      requires Valid() && f < |flights| && flights[f].phase.Finishing?
      modifies this
      ensures Valid() && Snapshot() == FinishStep(old(Snapshot()), f)
    {
      StepKeepsInv(env, Snapshot(), Finish(f));
      var flight := flights[f];
      if flight.hash in inFlight && inFlight[flight.hash] == f {
        inFlight := inFlight - {flight.hash};
      }
      flights := flights[f := flight.(cancelled := true, phase := Finished(flight.phase.outcome))];
    }

    /** waitForFlight after the caller's context ended. */
    method LeaveFlight(c: nat)
      requires Valid() && c < |callers| && callers[c].Leaving?
      modifies this
      ensures Valid() && Snapshot() == LeaveStep(old(Snapshot()), c)
    {
      ghost var before := Snapshot();
      StepKeepsInv(env, before, Leave(c));
      var f := callers[c].flight;
      var hash := flights[f].hash;
      if hash in inFlight && inFlight[hash] == f {
        flights := flights[f := flights[f].(waiters := flights[f].waiters - 1)];
        if flights[f].waiters == 0 {
          flights := flights[f := flights[f].(cancelled := true)];
        }
      }
      callers := callers[c := Returned(hash, false)];
      assert Snapshot() == LeaveStep(before, c);
    }

    method CancelRegistered()
      requires InRange(Snapshot())
      modifies this`flights
      ensures flights == StopStep(old(Snapshot())).flights
    {
      ghost var before := Snapshot();
      var pending := inFlight.Keys;
      while pending != {}
        invariant pending <= inFlight.Keys
        invariant |flights| == |before.flights|
        invariant forall f :: 0 <= f < |flights| ==>
                    flights[f] == if before.flights[f].hash in pending then before.flights[f] else Swept(before, f)
        decreases pending
      {
        var hash :| hash in pending;
        var f := inFlight[hash];
        flights := flights[f := flights[f].(cancelled := true, swept := true)];
        pending := pending - {hash};
      }
    }

    /** Stop cancels every registered flight and forgets the cache. */
    method Shutdown()
      requires Valid()
      modifies this
      ensures Valid() && Snapshot() == StopStep(old(Snapshot())) && View() == map[]
    {
      StepKeepsInv(env, Snapshot(), Stop);
      CancelRegistered();
      blobs := map[];
      inFlight := map[];
    }

    /** Set up to and including the file write; without persistence this is all of Set. */
    method BeginSetLocked(hash: bytes, data: bytes, written: bool) returns (ok: bool)
      requires Valid() && lock == Free
      modifies this
      ensures Valid() && Snapshot() == BeginSet(env, old(Snapshot()), OfClient, hash, data, written)
      ensures ok <==> Accepts(env, hash, data) && (env.persist ==> written)
    {
      StepKeepsInv(env, Snapshot(), ClientSet(hash, data, written));
      if |data| == 0 || |data| > MAX_BLOB_SIZE || !env.canonical(hash) || env.hashOf(data) != hash {
        return false;
      }
      if env.persist {
        if !written {
          return false;
        }
        disk, lock := disk[hash := data], ForSet(OfClient, hash, data);
      } else {
        blobs, ledger := blobs[hash := InMemory(data)], ledger[hash := data];
      }
      return true;
    }

    method CommitSetLocked()
      requires Valid() && lock.ForSet? && lock.owner == OfClient
      modifies this
      ensures Valid() && Snapshot() == CommitSet(old(Snapshot()))
    {
      StepKeepsInv(env, Snapshot(), ClientCommit);
      var hash := lock.hash;
      blobs, ledger, lock := blobs[hash := OnDisk], ledger[hash := lock.data], Free;
    }

    /** Set, with the file write succeeding or failing as `written` says. */
    method Set(hash: bytes, data: bytes, written: bool) returns (ok: bool)
      requires Valid() && lock == Free
      modifies this
      ensures Valid() && lock == Free
      ensures ok <==> Accepts(env, hash, data) && (env.persist ==> written)
      ensures View() == if ok then old(View())[hash := data] else old(View())
      ensures inFlight == old(inFlight) && flights == old(flights) && callers == old(callers)
    {
      ghost var before := Snapshot();
      SetShows(env, before, hash, data, written);
      ok := BeginSetLocked(hash, data, written);
      if ok && env.persist {
        CommitSetLocked();
      }
    }

    method BeginDeleteLocked(hash: bytes, removed: bool)
      requires Valid() && lock == Free
      modifies this
      ensures Valid() && Snapshot() == BeginDelete(env, old(Snapshot()), OfClient, hash, removed)
    {
      StepKeepsInv(env, Snapshot(), ClientDelete(hash, removed));
      if env.hasDir && env.canonical(hash) {
        if removed {
          disk, lock := disk - {hash}, ForDelete(OfClient, hash);
        }
      } else {
        blobs := blobs - {hash};
      }
    }

    method CommitDeleteLocked()
      requires Valid() && lock.ForDelete? && lock.owner == OfClient
      modifies this
      ensures Valid() && Snapshot() == CommitDelete(old(Snapshot()))
    {
      StepKeepsInv(env, Snapshot(), ClientErase);
      blobs, lock := blobs - {lock.hash}, Free;
    }

    method DeleteOne(hash: bytes, stuck: set<bytes>) returns (ok: bool)
      requires Valid() && lock == Free
      modifies this
      ensures Valid() && lock == Free
      ensures ok <==> Deletable(hash, stuck)
      ensures View() == if ok then old(View()) - {hash} else old(View())
    {
      ok := !(env.hasDir && env.canonical(hash) && hash in stuck);
      BeginDeleteEffect(env, Snapshot(), OfClient, hash, ok);
      BeginDeleteLocked(hash, ok);
      if lock.ForDelete? {
        CommitDeleteRemoves(env, Snapshot());
        CommitDeleteLocked();
      }
    }

    /** Delete; `stuck` holds the hashes whose files exist but cannot be removed. */
    method Delete(hashes: seq<bytes>, stuck: set<bytes>) returns (ok: bool)
      requires Valid() && lock == Free
      modifies this
      ensures Valid() && lock == Free
      ensures View() == old(View()) - Doomed(hashes, stuck)
      ensures ok <==> AllDeletable(hashes, stuck)
    {
      ok := true;
      ghost var start, gone := View(), {};
      assert start - gone == start;
      for i := 0 to |hashes|
        invariant Valid() && lock == Free
        invariant gone == Doomed(hashes[..i], stuck) && View() == start - gone
        invariant ok <==> AllDeletable(hashes[..i], stuck)
      {
        DoomedNext(hashes, i, stuck);
        var removed := DeleteOne(hashes[i], stuck);
        ok := ok && removed;
        MinusTwice(start, gone, hashes[i]);
        gone := if removed then gone + {hashes[i]} else gone;
      }
      assert hashes[..|hashes|] == hashes;
    }

    ghost function Doomed(hashes: seq<bytes>, stuck: set<bytes>): set<bytes> {
      set h | h in hashes && Deletable(h, stuck)
    }

    ghost predicate AllDeletable(hashes: seq<bytes>, stuck: set<bytes>) {
      forall h :: h in hashes ==> Deletable(h, stuck)
    }

    lemma DoomedNext(hashes: seq<bytes>, i: nat, stuck: set<bytes>)
      requires i < |hashes|
      ensures Doomed(hashes[..i + 1], stuck)
              == Doomed(hashes[..i], stuck) + if Deletable(hashes[i], stuck) then {hashes[i]} else {}
      ensures AllDeletable(hashes[..i + 1], stuck) <==> AllDeletable(hashes[..i], stuck) && Deletable(hashes[i], stuck)
    {
      assert hashes[..i + 1] == hashes[..i] + [hashes[i]];
    }

    lemma MinusTwice(start: map<bytes, bytes>, gone: set<bytes>, hash: bytes)
      ensures start - gone - {hash} == start - (gone + {hash})
    {
    }

    predicate Deletable(hash: bytes, stuck: set<bytes>) {
      env.hasDir && env.canonical(hash) ==> hash !in stuck
    }

    /** get on a quiescent disk is a lookup in the plain map. */
    method Lookup(hash: bytes) returns (r: Option<bytes>)
      requires Valid() && lock == Free
      ensures r == if hash in View() then Some(View()[hash]) else None
    {
      if hash !in blobs {
        return None;
      }
      assert EntryOk(env, Snapshot(), hash);
      if env.hasDir && blobs[hash].OnDisk? {
        if hash !in disk || env.hashOf(disk[hash]) != hash {
          return None;
        }
        return Some(disk[hash]);
      }
      return Some(blobs[hash].data);
    }
  }
}
