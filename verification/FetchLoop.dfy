/**
 The racing fetch loop of blob/network_fetcher.go as a step system: discovery sources that
 each report one batch, downloads that race to deliver, and the select loop between them.
 */
module FetchLoop {
  import opened Base

  datatype Source = Dht | Trackers | FixedPeers

  /** A peer with its address text; it is unusable without an IP or a positive port. */
  datatype Peer = Peer(usable: bool, address: bytes)

  datatype Batch = Batch(peers: seq<Peer>, failed: bool)

  /** A download goroutine: running, holding a result, received by the loop, or told to give up. */
  datatype Download = Running | Offering(ok: bool) | Delivered(ok: bool) | Abandoned

  datatype Outcome = Looping | Fetched | Cancelled | AllFailed

  const CHANNEL_CAPACITY := 3

  /** The loop's view of its downloads; `started` is history, the addresses in launch order. */
  datatype Pool = Pool(active: int, seen: set<bytes>, downloads: map<bytes, Download>, started: seq<bytes>)

  /**
   `pending` sources have not sent yet and `channel` is the buffered batch channel. `received`
   is history: the batches taken from the channel. `closes` counts closings of the fixed-peer
   release channel.
   */
  datatype State = State(
    sources: set<Source>,
    pending: set<Source>,
    channel: seq<Batch>,
    finished: nat,
    lastErr: bool,
    pool: Pool,
    received: seq<Batch>,
    ctxDone: bool,
    onceDone: bool,
    closes: nat,
    outcome: Outcome)

  datatype Step =
    | Send(source: Source, batch: Batch)
    | NoPeers
    | Finish(address: bytes, ok: bool)
    | GiveUp(address: bytes)
    | CancelContext
    | TakeBatch
    | TakeResult(address: bytes)
    | TakeCancel
    | LeaveLoop

  /** The state in which the loop is entered; the release starts out closed when there is no DHT node. */
  function Initial(dht: bool, trackers: bool, fixed: bool): State {
    var sources := (if dht then {Dht} else {}) + (if trackers then {Trackers} else {}) + (if fixed then {FixedPeers} else {});
    State(sources, sources, [], 0, false, Pool(0, {}, map[], []), [], false, false,
          if fixed && !dht then 1 else 0, Looping)
  }

  predicate LoopGuard(s: State) {
    s.finished < |s.sources| || s.pool.active > 0
  }

  predicate Enabled(s: State, step: Step) {
    match step
    case Send(source, _) => source in s.pending && |s.channel| < CHANNEL_CAPACITY
    case NoPeers => Dht in s.pending
    case Finish(a, _) => a in s.pool.downloads && s.pool.downloads[a].Running?
    case GiveUp(a) => a in s.pool.downloads && s.pool.downloads[a].Offering? && s.ctxDone
    case CancelContext => true
    case TakeBatch => s.outcome.Looping? && LoopGuard(s) && s.channel != []
    case TakeResult(a) => s.outcome.Looping? && LoopGuard(s) && a in s.pool.downloads && s.pool.downloads[a].Offering?
    case TakeCancel => s.outcome.Looping? && LoopGuard(s) && s.ctxDone
    case LeaveLoop => s.outcome.Looping? && !LoopGuard(s)
  }

  function LaunchOne(p: Pool, a: bytes): Pool {
    Pool(p.active + 1, p.seen + {a}, p.downloads[a := Running], p.started + [a])
  }

  /** The loop over one batch: skip unusable and known peers, launch the rest. */
  function Launch(p: Pool, peers: seq<Peer>): Pool
    decreases |peers|
  {
    if peers == [] then p
    else if !peers[0].usable || peers[0].address in p.seen then Launch(p, peers[1..])
    else Launch(LaunchOne(p, peers[0].address), peers[1..])
  }

  function BatchStep(s: State): State
    requires s.channel != []
  {
    var batch := s.channel[0];
    s.(channel := s.channel[1..], finished := s.finished + 1,
       lastErr := s.lastErr || batch.failed, received := s.received + [batch],
       pool := Launch(s.pool, batch.peers))
  }

  function SetDownload(p: Pool, a: bytes, d: Download): Pool {
    p.(downloads := p.downloads[a := d])
  }

  function ResultStep(s: State, a: bytes): State
    requires a in s.pool.downloads && s.pool.downloads[a].Offering?
  {
    var ok := s.pool.downloads[a].ok;
    s.(pool := SetDownload(s.pool, a, Delivered(ok)).(active := s.pool.active - 1),
       outcome := if ok then Fetched else s.outcome,
       ctxDone := s.ctxDone || ok,
       lastErr := s.lastErr || !ok)
  }

  function Apply(s: State, step: Step): State
    requires Enabled(s, step)
  {
    match step
    case Send(source, batch) => s.(pending := s.pending - {source}, channel := s.channel + [batch])
    case NoPeers =>
      if FixedPeers in s.sources && !s.onceDone then s.(onceDone := true, closes := s.closes + 1) else s
    case Finish(a, ok) => s.(pool := SetDownload(s.pool, a, Offering(ok)))
    case GiveUp(a) => s.(pool := SetDownload(s.pool, a, Abandoned))
    case CancelContext => s.(ctxDone := true)
    case TakeBatch => BatchStep(s)
    case TakeResult(a) => ResultStep(s, a)
    case TakeCancel => s.(outcome := Cancelled)
    case LeaveLoop => s.(outcome := AllFailed, ctxDone := true)
  }

  // ---------------------------------------------------------------- invariant

  /** Downloads the loop has launched and not yet received. */
  function Open(downloads: map<bytes, Download>): set<bytes> {
    set a | a in downloads && !downloads[a].Delivered?
  }

  predicate Distinct(items: seq<bytes>) {
    forall i, j :: 0 <= i < j < |items| ==> items[i] != items[j]
  }

  /** The usable addresses of a batch list. */
  function Usable(batches: seq<Batch>): set<bytes> {
    set b, p | b in batches && p in b.peers && p.usable :: p.address
  }

  /** `active` counts the open downloads, and every address seen was launched exactly once. */
  ghost predicate PoolInv(p: Pool) {
    && p.seen == p.downloads.Keys
    && p.active == |Open(p.downloads)|
    && Distinct(p.started)
    && forall a :: a in p.started <==> a in p.seen
  }

  predicate NoSuccess(p: Pool) {
    forall a :: a in p.downloads && p.downloads[a].Delivered? ==> !p.downloads[a].ok
  }

  ghost predicate Inv(s: State) {
    && s.pending <= s.sources
    && s.finished + |s.channel| + |s.pending| == |s.sources| <= CHANNEL_CAPACITY
    && s.finished == |s.received|
    && PoolInv(s.pool)
    && s.pool.seen == Usable(s.received)
    && (s.outcome.Fetched? <==> !NoSuccess(s.pool))
    && (!s.ctxDone ==> forall a :: a in s.pool.downloads ==> !s.pool.downloads[a].Abandoned?)
    && (!s.outcome.Looping? ==> s.ctxDone)
    && (s.outcome.AllFailed? ==> s.finished == |s.sources| && Open(s.pool.downloads) == {})
    && (Dht !in s.sources ==> !s.onceDone)
    && s.closes == (if FixedPeers in s.sources && Dht !in s.sources then 1 else 0)
                   + (if s.onceDone then 1 else 0)
  }

  lemma InitialInv(dht: bool, trackers: bool, fixed: bool)
    ensures Inv(Initial(dht, trackers, fixed))
  {
    var s := Initial(dht, trackers, fixed);
    assert s.sources <= {Dht, Trackers, FixedPeers};
    SubsetSize(s.sources, {Dht, Trackers, FixedPeers});
    assert |{Dht, Trackers, FixedPeers}| == 3;
  }

  lemma {:induction false} SubsetSize(a: set<Source>, b: set<Source>)
    requires a <= b
    ensures |a| <= |b|
    decreases a
  {
    if a != {} {
      var x :| x in a;
      SubsetSize(a - {x}, b - {x});
    }
  }

  lemma LaunchOneKeeps(p: Pool, a: bytes)
    requires PoolInv(p) && a !in p.seen
    ensures PoolInv(LaunchOne(p, a))
  {
    var q := LaunchOne(p, a);
    assert Open(q.downloads) == Open(p.downloads) + {a};
    assert a !in p.started;
  }

  lemma {:induction false} LaunchKeeps(p: Pool, peers: seq<Peer>)
    requires PoolInv(p)
    ensures PoolInv(Launch(p, peers))
    decreases |peers|
  {
    if peers != [] {
      if !peers[0].usable || peers[0].address in p.seen {
        LaunchKeeps(p, peers[1..]);
      } else {
        LaunchOneKeeps(p, peers[0].address);
        LaunchKeeps(LaunchOne(p, peers[0].address), peers[1..]);
      }
    }
  }

  function UsableOf(peers: seq<Peer>): set<bytes> {
    set p | p in peers && p.usable :: p.address
  }

  /** A batch adds exactly its usable addresses and leaves earlier downloads alone. */
  lemma {:induction false} LaunchAdds(p: Pool, peers: seq<Peer>)
    requires p.seen == p.downloads.Keys
    ensures var q := Launch(p, peers);
            && q.seen == p.seen + UsableOf(peers)
            && (forall a :: a in p.downloads ==> a in q.downloads && q.downloads[a] == p.downloads[a])
            && (forall a :: a in q.downloads && a !in p.downloads ==> q.downloads[a] == Running)
    decreases |peers|
  {
    if peers != [] {
      var rest := peers[1..];
      assert peers == [peers[0]] + rest;
      assert UsableOf(peers) == UsableOf(rest) + if peers[0].usable then {peers[0].address} else {};
      if !peers[0].usable || peers[0].address in p.seen {
        LaunchAdds(p, rest);
      } else {
        LaunchAdds(LaunchOne(p, peers[0].address), rest);
      }
    }
  }

  lemma UsableSnoc(batches: seq<Batch>, batch: Batch)
    ensures Usable(batches + [batch]) == Usable(batches) + UsableOf(batch.peers)
  {
    var all := batches + [batch];
    forall a | a in Usable(all)
      ensures a in Usable(batches) + UsableOf(batch.peers)
    {
      var b, p :| b in all && p in b.peers && p.usable && p.address == a;
      assert b in batches || b == batch;
    }
    assert forall b :: b in batches ==> b in all;
    assert batch in all;
  }

  lemma SetDownloadKeeps(p: Pool, a: bytes, d: Download)
    requires PoolInv(p) && a in p.downloads && !p.downloads[a].Delivered? && !d.Delivered?
    ensures PoolInv(SetDownload(p, a, d)) && Open(SetDownload(p, a, d).downloads) == Open(p.downloads)
  {
    assert Open(SetDownload(p, a, d).downloads) == Open(p.downloads);
  }

  lemma BatchKeeps(s: State)
    requires Inv(s) && s.channel != [] && s.outcome.Looping?
    ensures Inv(BatchStep(s))
  {
    var peers := s.channel[0].peers;
    LaunchKeeps(s.pool, peers);
    LaunchAdds(s.pool, peers);
    UsableSnoc(s.received, s.channel[0]);
  }

  lemma ResultKeeps(s: State, a: bytes)
    requires Inv(s) && s.outcome.Looping? && a in s.pool.downloads && s.pool.downloads[a].Offering?
    ensures Inv(ResultStep(s, a))
  {
    var t := ResultStep(s, a);
    assert Open(t.pool.downloads) == Open(s.pool.downloads) - {a};
  }

  lemma SendKeeps(s: State, source: Source, batch: Batch)
    requires Inv(s) && source in s.pending && |s.channel| < CHANNEL_CAPACITY
    ensures Inv(s.(pending := s.pending - {source}, channel := s.channel + [batch]))
  {
    assert |s.pending - {source}| == |s.pending| - 1;
  }

  lemma NoPeersKeeps(s: State)
    requires Inv(s) && Enabled(s, NoPeers)
    ensures Inv(Apply(s, NoPeers))
  {
  }

  lemma DownloadKeeps(s: State, a: bytes, d: Download)
    requires Inv(s) && a in s.pool.downloads && !s.pool.downloads[a].Delivered?
    requires d.Offering? || (d.Abandoned? && s.ctxDone)
    ensures Inv(s.(pool := SetDownload(s.pool, a, d)))
  {
    SetDownloadKeeps(s.pool, a, d);
    assert NoSuccess(SetDownload(s.pool, a, d)) == NoSuccess(s.pool) by {
      SameSuccess(s.pool, a, d);
    }
  }

  lemma SameSuccess(p: Pool, a: bytes, d: Download)
    requires a in p.downloads && !p.downloads[a].Delivered? && !d.Delivered?
    ensures NoSuccess(SetDownload(p, a, d)) <==> NoSuccess(p)
  {
    var q := SetDownload(p, a, d);
    assert forall x :: x in p.downloads && p.downloads[x].Delivered? ==> q.downloads[x] == p.downloads[x];
    assert forall x :: x in q.downloads && q.downloads[x].Delivered? ==> p.downloads[x] == q.downloads[x];
  }

  lemma EndKeeps(s: State, step: Step)
    requires Inv(s) && Enabled(s, step) && (step.CancelContext? || step.TakeCancel? || step.LeaveLoop?)
    ensures Inv(Apply(s, step))
  {
  }

  lemma StepKeepsInv(s: State, step: Step)
    requires Inv(s) && Enabled(s, step)
    ensures Inv(Apply(s, step))
  {
    match step {
      case Send(source, batch) => SendKeeps(s, source, batch);
      case NoPeers => NoPeersKeeps(s);
      case Finish(a, ok) => DownloadKeeps(s, a, Offering(ok));
      case GiveUp(a) => DownloadKeeps(s, a, Abandoned);
      case TakeBatch => BatchKeeps(s);
      case TakeResult(a) => ResultKeeps(s, a);
      case CancelContext => EndKeeps(s, step);
      case TakeCancel => EndKeeps(s, step);
      case LeaveLoop => EndKeeps(s, step);
    }
  }

  // ---------------------------------------------------------------- runs

  ghost predicate StepAt(states: seq<State>, steps: seq<Step>, i: nat)
    requires i < |steps| && i + 1 < |states|
  {
    Enabled(states[i], steps[i]) && states[i + 1] == Apply(states[i], steps[i])
  }

  ghost predicate IsRun(states: seq<State>, steps: seq<Step>) {
    && |states| == |steps| + 1
    && (exists dht, trackers, fixed :: states[0] == Initial(dht, trackers, fixed))
    && forall i :: 0 <= i < |steps| ==> StepAt(states, steps, i)
  }

  lemma {:induction false} ReachableInv(states: seq<State>, steps: seq<Step>, k: nat)
    requires IsRun(states, steps) && k < |states|
    ensures Inv(states[k])
  {
    if k == 0 {
      var dht, trackers, fixed :| states[0] == Initial(dht, trackers, fixed);
      InitialInv(dht, trackers, fixed);
    } else {
      ReachableInv(states, steps, k - 1);
      assert StepAt(states, steps, k - 1);
      StepKeepsInv(states[k - 1], steps[k - 1]);
    }
  }

  /** The results the loop has received. */
  function Received(p: Pool): set<bytes> {
    set a | a in p.downloads && p.downloads[a].Delivered?
  }

  /**
   In every run: each usable address of the received batches is launched exactly once and
   nothing else is; `active` is launches minus results received; the batch channel always
   has room for every source that has yet to report; the release closes at most once.
   */
  lemma Accounting(states: seq<State>, steps: seq<Step>, k: nat)
    requires IsRun(states, steps) && k < |states|
    ensures Distinct(states[k].pool.started)
    ensures forall a :: a in states[k].pool.started <==> a in Usable(states[k].received)
    ensures states[k].pool.active == |states[k].pool.started| - |Received(states[k].pool)|
    ensures |states[k].channel| + |states[k].pending| <= CHANNEL_CAPACITY
    ensures forall source, batch :: source in states[k].pending ==> Enabled(states[k], Send(source, batch))
    ensures states[k].closes <= 1
  {
    ReachableInv(states, steps, k);
    var p := states[k].pool;
    DistinctSize(p.started, p.seen);
    assert p.seen == Open(p.downloads) + Received(p);
    forall source, batch | source in states[k].pending
      ensures Enabled(states[k], Send(source, batch))
    {
      assert {source} <= states[k].pending;
      SubsetSize({source}, states[k].pending);
    }
  }

  lemma {:induction false} DistinctSize(items: seq<bytes>, all: set<bytes>)
    requires Distinct(items) && forall a :: a in items <==> a in all
    ensures |items| == |all|
    decreases |items|
  {
    if items == [] {
      assert all == {};
    } else {
      var last, init := items[|items| - 1], items[..|items| - 1];
      assert items == init + [last];
      assert forall a :: a in init <==> a in all - {last};
      DistinctSize(init, all - {last});
    }
  }

  /** Each turn of the loop lowers (sources yet to be received, open downloads) lexicographically. */
  lemma LoopMeasure(s: State, step: Step)
    requires Inv(s) && Enabled(s, step) && (step.TakeBatch? || step.TakeResult?)
    ensures var t := Apply(s, step);
            && 0 <= |s.sources| - t.finished && 0 <= t.pool.active
            && (|s.sources| - t.finished < |s.sources| - s.finished
                || (t.finished == s.finished && t.pool.active < s.pool.active))
  {
    StepKeepsInv(s, step);
  }

  /** A failure that is not a cancellation means every source reported and every launched download failed. */
  lemma FailureIsExhaustive(states: seq<State>, steps: seq<Step>, k: nat)
    requires IsRun(states, steps) && k < |states| && states[k].outcome.AllFailed?
    ensures states[k].pending == {} && states[k].channel == [] && |states[k].received| == |states[k].sources|
    ensures forall a :: a in Usable(states[k].received) ==>
              a in states[k].pool.downloads && states[k].pool.downloads[a] == Delivered(false)
  {
    ReachableInv(states, steps, k);
    var p := states[k].pool;
    forall a | a in Usable(states[k].received)
      ensures a in p.downloads && p.downloads[a] == Delivered(false)
    {
      assert a in p.seen && a in p.downloads;
      assert a !in Open(p.downloads);
    }
  }

  /** The loop returns data exactly when a download that succeeded was received. */
  lemma FetchedIffDelivered(states: seq<State>, steps: seq<Step>, k: nat)
    requires IsRun(states, steps) && k < |states|
    ensures states[k].outcome.Fetched? <==>
              exists a :: a in states[k].pool.downloads && states[k].pool.downloads[a] == Delivered(true)
  {
    ReachableInv(states, steps, k);
    var p := states[k].pool;
    if !NoSuccess(p) {
      var a :| a in p.downloads && p.downloads[a].Delivered? && p.downloads[a].ok;
      assert p.downloads[a] == Delivered(true);
    }
  }

  // ---------------------------------------------------------------- history

  /** The batches sent, in order. */
  function Sent(steps: seq<Step>): seq<Batch> {
    if steps == [] then []
    else Sent(steps[..|steps| - 1]) + if steps[|steps| - 1].Send? then [steps[|steps| - 1].batch] else []
  }

  /** The loop receives what the sources sent, all of it and in order. */
  lemma {:induction false} ReceivedAsSent(states: seq<State>, steps: seq<Step>, k: nat)
    requires IsRun(states, steps) && k < |states|
    ensures states[k].received + states[k].channel == Sent(steps[..k])
  {
    if k > 0 {
      ReceivedAsSent(states, steps, k - 1);
      assert StepAt(states, steps, k - 1);
      assert steps[..k][..k - 1] == steps[..k - 1];
      var s, step := states[k - 1], steps[k - 1];
      if step.Send? {
        Rejoin(s.received, s.channel, [step.batch]);
      } else if step.TakeBatch? {
        Rejoin(s.received, [s.channel[0]], s.channel[1..]);
      }
    }
  }

  predicate CameTo(p: Pool, a: bytes, ok: bool) {
    a in p.downloads && (p.downloads[a] == Offering(ok) || p.downloads[a] == Delivered(ok) || p.downloads[a] == Abandoned)
  }

  /** Once a download has its result, that result stands. */
  lemma ResultStands(s: State, step: Step, a: bytes, ok: bool)
    requires Inv(s) && Enabled(s, step) && CameTo(s.pool, a, ok)
    ensures CameTo(Apply(s, step).pool, a, ok)
    ensures s.pool.downloads[a] == Delivered(ok) ==> Apply(s, step).pool.downloads[a] == Delivered(ok)
  {
    if step.TakeBatch? {
      LaunchAdds(s.pool, s.channel[0].peers);
    }
  }

  lemma {:induction false} FinishStands(states: seq<State>, steps: seq<Step>, j: nat, k: nat, a: bytes, ok: bool)
    requires IsRun(states, steps) && j < k < |states| && steps[j] == Finish(a, ok)
    ensures CameTo(states[k].pool, a, ok)
  {
    assert StepAt(states, steps, k - 1);
    if j < k - 1 {
      FinishStands(states, steps, j, k - 1, a, ok);
      ReachableInv(states, steps, k - 1);
      ResultStands(states[k - 1], steps[k - 1], a, ok);
    }
  }

  /** The loop took the result of a download that had ended this way. */
  ghost predicate TookResult(steps: seq<Step>, k: nat, a: bytes, ok: bool) {
    exists j: nat, m: nat :: j < m < k && m < |steps| && steps[j] == Finish(a, ok) && steps[m] == TakeResult(a)
  }

  ghost predicate Ended(steps: seq<Step>, k: nat, a: bytes, ok: bool) {
    exists j: nat :: j < k && j < |steps| && steps[j] == Finish(a, ok)
  }

  lemma Traced(s: State, step: Step, a: bytes, ok: bool)
    requires Inv(s) && Enabled(s, step) && a in Apply(s, step).pool.downloads
    ensures Apply(s, step).pool.downloads[a] == Offering(ok) ==>
              step == Finish(a, ok) || (a in s.pool.downloads && s.pool.downloads[a] == Offering(ok))
    ensures Apply(s, step).pool.downloads[a] == Delivered(ok) ==>
              || (step == TakeResult(a) && a in s.pool.downloads && s.pool.downloads[a] == Offering(ok))
              || (a in s.pool.downloads && s.pool.downloads[a] == Delivered(ok))
  {
    if step.TakeBatch? {
      LaunchAdds(s.pool, s.channel[0].peers);
    }
  }

  lemma {:induction false} OfferedOnEnd(states: seq<State>, steps: seq<Step>, k: nat, a: bytes, ok: bool)
    requires IsRun(states, steps) && k < |states| && a in states[k].pool.downloads && states[k].pool.downloads[a] == Offering(ok)
    ensures Ended(steps, k, a, ok)
  {
    if k > 0 {
      assert StepAt(states, steps, k - 1);
      ReachableInv(states, steps, k - 1);
      Traced(states[k - 1], steps[k - 1], a, ok);
      if steps[k - 1] != Finish(a, ok) {
        OfferedOnEnd(states, steps, k - 1, a, ok);
      }
    }
  }

  lemma {:induction false} DeliveredIsTaken(states: seq<State>, steps: seq<Step>, k: nat, a: bytes, ok: bool)
    requires IsRun(states, steps) && k < |states| && a in states[k].pool.downloads && states[k].pool.downloads[a] == Delivered(ok)
    ensures TookResult(steps, k, a, ok)
  {
    if k > 0 {
      assert StepAt(states, steps, k - 1);
      ReachableInv(states, steps, k - 1);
      Traced(states[k - 1], steps[k - 1], a, ok);
      if a in states[k - 1].pool.downloads && states[k - 1].pool.downloads[a] == Delivered(ok) {
        DeliveredIsTaken(states, steps, k - 1, a, ok);
      } else {
        OfferedOnEnd(states, steps, k - 1, a, ok);
      }
    }
  }

  lemma {:induction false} TakenIsDelivered(states: seq<State>, steps: seq<Step>, j: nat, m: nat, k: nat, a: bytes, ok: bool)
    requires IsRun(states, steps) && j < m < k < |states| && steps[j] == Finish(a, ok) && steps[m] == TakeResult(a)
    ensures a in states[k].pool.downloads && states[k].pool.downloads[a] == Delivered(ok)
  {
    assert StepAt(states, steps, k - 1);
    FinishStands(states, steps, j, k - 1, a, ok);
    if m < k - 1 {
      TakenIsDelivered(states, steps, j, m, k - 1, a, ok);
      ReachableInv(states, steps, k - 1);
      ResultStands(states[k - 1], steps[k - 1], a, ok);
    }
  }

  lemma DeliveredIff(states: seq<State>, steps: seq<Step>, k: nat, a: bytes, ok: bool)
    requires IsRun(states, steps) && k < |states|
    ensures TookResult(steps, k, a, ok) <==> a in states[k].pool.downloads && states[k].pool.downloads[a] == Delivered(ok)
  {
    if TookResult(steps, k, a, ok) {
      var j: nat, m: nat :| j < m < k && m < |steps| && steps[j] == Finish(a, ok) && steps[m] == TakeResult(a);
      TakenIsDelivered(states, steps, j, m, k, a, ok);
    }
    if a in states[k].pool.downloads && states[k].pool.downloads[a] == Delivered(ok) {
      DeliveredIsTaken(states, steps, k, a, ok);
    }
  }

  /**
   The fetch returns data exactly when the loop took the result of a download that had succeeded.
   It fails as a whole only when it took a failure from every usable address the sources sent,
   and it is cancelled only after its context was.
   */
  lemma OutcomeExactly(states: seq<State>, steps: seq<Step>, k: nat)
    requires IsRun(states, steps) && k < |states|
    ensures states[k].outcome.Fetched? <==> exists a :: TookResult(steps, k, a, true)
    ensures states[k].outcome.AllFailed? ==> forall a :: a in Usable(Sent(steps[..k])) ==> TookResult(steps, k, a, false)
    ensures states[k].outcome.Cancelled? ==> exists j :: 0 <= j < k && steps[j].CancelContext?
  {
    FetchedIffDelivered(states, steps, k);
    forall a: bytes, ok: bool
      ensures TookResult(steps, k, a, ok) <==> a in states[k].pool.downloads && states[k].pool.downloads[a] == Delivered(ok)
    {
      DeliveredIff(states, steps, k, a, ok);
    }
    ReceivedAsSent(states, steps, k);
    if states[k].outcome.AllFailed? {
      FailureIsExhaustive(states, steps, k);
      assert states[k].received + states[k].channel == states[k].received;
    }
    if states[k].outcome.Cancelled? {
      CancelledByContext(states, steps, k);
    }
  }

  lemma {:induction false} CancelledByContext(states: seq<State>, steps: seq<Step>, k: nat)
    requires IsRun(states, steps) && k < |states|
    requires states[k].outcome.Cancelled? || (states[k].outcome.Looping? && states[k].ctxDone)
    ensures exists j :: 0 <= j < k && steps[j].CancelContext?
  {
    if k > 0 {
      assert StepAt(states, steps, k - 1);
      if !steps[k - 1].CancelContext? {
        CancelledByContext(states, steps, k - 1);
      }
    }
  }

  /** The fixed peers are released exactly when there is no DHT to wait for, or once it reported that it has no peers. */
  lemma {:induction false} ReleasedExactly(states: seq<State>, steps: seq<Step>, k: nat)
    requires IsRun(states, steps) && k < |states|
    ensures states[k].closes == 1 <==>
              FixedPeers in states[k].sources && (Dht !in states[k].sources || exists j :: 0 <= j < k && steps[j].NoPeers?)
  {
    ReachableInv(states, steps, k);
    if k > 0 {
      ReleasedExactly(states, steps, k - 1);
      ReachableInv(states, steps, k - 1);
      assert StepAt(states, steps, k - 1);
    }
  }

  /** The loop has an error to report exactly when a source or a download it heard from failed. */
  lemma {:induction false} ErrorExactly(states: seq<State>, steps: seq<Step>, k: nat)
    requires IsRun(states, steps) && k < |states|
    ensures states[k].lastErr <==>
              (exists b :: b in states[k].received && b.failed)
              || exists a :: a in states[k].pool.downloads && states[k].pool.downloads[a] == Delivered(false)
  {
    if k > 0 {
      ErrorExactly(states, steps, k - 1);
      ReachableInv(states, steps, k - 1);
      assert StepAt(states, steps, k - 1);
      ErrorStep(states[k - 1], steps[k - 1]);
    }
  }

  ghost predicate ErrorHeard(s: State) {
    (exists b :: b in s.received && b.failed)
    || exists a :: a in s.pool.downloads && s.pool.downloads[a] == Delivered(false)
  }

  lemma ErrorStep(s: State, step: Step)
    requires Inv(s) && Enabled(s, step) && (s.lastErr <==> ErrorHeard(s))
    ensures Apply(s, step).lastErr <==> ErrorHeard(Apply(s, step))
  {
    var t := Apply(s, step);
    match step {
      case TakeBatch => BatchErrors(s);
      case TakeResult(a) => ResultErrors(s, a);
      case Finish(a, ok) => SameErrors(s, a, Offering(ok));
      case GiveUp(a) => SameErrors(s, a, Abandoned);
      case _ =>
    }
  }

  lemma SameErrors(s: State, a: bytes, d: Download)
    requires a in s.pool.downloads && !s.pool.downloads[a].Delivered? && !d.Delivered?
    ensures ErrorHeard(s.(pool := SetDownload(s.pool, a, d))) <==> ErrorHeard(s)
  {
    var t := s.(pool := SetDownload(s.pool, a, d));
    if x :| x in s.pool.downloads && s.pool.downloads[x] == Delivered(false) {
      assert t.pool.downloads[x] == Delivered(false);
    }
  }

  lemma BatchErrors(s: State)
    requires PoolInv(s.pool) && s.channel != []
    ensures ErrorHeard(BatchStep(s)) <==> ErrorHeard(s) || s.channel[0].failed
  {
    var t := BatchStep(s);
    LaunchAdds(s.pool, s.channel[0].peers);
    assert forall b :: b in t.received <==> b in s.received || b == s.channel[0];
    if a :| a in s.pool.downloads && s.pool.downloads[a] == Delivered(false) {
      assert t.pool.downloads[a] == Delivered(false);
    }
  }

  lemma ResultErrors(s: State, a: bytes)
    requires a in s.pool.downloads && s.pool.downloads[a].Offering?
    ensures ErrorHeard(ResultStep(s, a)) <==> ErrorHeard(s) || !s.pool.downloads[a].ok
  {
    var t := ResultStep(s, a);
    assert t.pool.downloads[a] == Delivered(s.pool.downloads[a].ok);
    if x :| x in s.pool.downloads && s.pool.downloads[x] == Delivered(false) {
      assert t.pool.downloads[x] == Delivered(false);
    }
  }

  /** While the loop waits, something can still reach it: it never blocks with nothing outstanding. */
  lemma LoopNeverStarves(s: State)
    requires Inv(s) && s.outcome.Looping? && LoopGuard(s) && !s.ctxDone
    ensures s.channel != [] || s.pending != {}
            || exists a :: a in s.pool.downloads && (s.pool.downloads[a].Running? || s.pool.downloads[a].Offering?)
  {
    if s.channel == [] && s.pending == {} {
      assert s.pool.active > 0;
      var a :| a in Open(s.pool.downloads);
    }
  }

  // ---------------------------------------------------------------- after the return

  /** How far a download goroutine is from its end. */
  function Left(d: Download): nat {
    if d.Running? then 2 else if d.Offering? then 1 else 0
  }

  /**
   Once NetworkFetcher has returned, the context is done; every download that still runs can
   finish, every one that offers a result can give up, and every source can still send, so
   no goroutine is left blocked.
   */
  lemma NoLeak(states: seq<State>, steps: seq<Step>, k: nat)
    requires IsRun(states, steps) && k < |states| && !states[k].outcome.Looping?
    ensures states[k].ctxDone
    ensures forall a, ok :: a in states[k].pool.downloads && states[k].pool.downloads[a].Running? ==>
              Enabled(states[k], Finish(a, ok))
    ensures forall a :: a in states[k].pool.downloads && states[k].pool.downloads[a].Offering? ==>
              Enabled(states[k], GiveUp(a))
    ensures forall source, batch :: source in states[k].pending ==> Enabled(states[k], Send(source, batch))
  {
    ReachableInv(states, steps, k);
    Accounting(states, steps, k);
  }

  /** From then on nothing is launched, the outcome stands, and every such step brings its download closer to its end. */
  lemma AfterReturn(s: State, step: Step, a: bytes)
    requires Inv(s) && !s.outcome.Looping? && Enabled(s, step) && a in s.pool.downloads
    ensures var t := Apply(s, step);
            && t.outcome == s.outcome && t.pool.downloads.Keys == s.pool.downloads.Keys
            && Left(t.pool.downloads[a]) <= Left(s.pool.downloads[a])
            && ((step.Finish? || step.GiveUp?) && step.address == a ==> Left(t.pool.downloads[a]) < Left(s.pool.downloads[a]))
  {
  }

  // ---------------------------------------------------------------- the loop's own variables

  /** The variables NetworkFetcher's loop updates, with its two receiving cases as methods. */
  class Loop {
    var active: int
    var seen: set<bytes>
    var downloads: map<bytes, Download>
    var finishedSources: nat
    var lastErr: bool
    ghost var started: seq<bytes>

    ghost function View(): Pool
      reads this
    {
      Pool(active, seen, downloads, started)
    }

    constructor ()
      ensures View() == Pool(0, {}, map[], []) && finishedSources == 0 && !lastErr
    {
      active, seen, downloads, finishedSources, lastErr, started := 0, {}, map[], 0, false, [];
    }

    /** The batch case: count the source, then launch every new usable peer. */
    method OnBatch(batch: Batch)
      requires PoolInv(View())
      modifies this
      ensures PoolInv(View()) && View() == Launch(old(View()), batch.peers)
      ensures finishedSources == old(finishedSources) + 1 && lastErr == (old(lastErr) || batch.failed)
    {
      LaunchKeeps(View(), batch.peers);
      finishedSources := finishedSources + 1;
      if batch.failed {
        lastErr := true;
      }
      var index := 0;
      assert batch.peers[0..] == batch.peers;
      while index < |batch.peers|
        invariant 0 <= index <= |batch.peers|
        invariant Launch(View(), batch.peers[index..]) == Launch(old(View()), batch.peers)
        invariant finishedSources == old(finishedSources) + 1 && lastErr == (old(lastErr) || batch.failed)
      {
        var peer := batch.peers[index];
        assert batch.peers[index..][0] == peer && batch.peers[index..][1..] == batch.peers[index + 1..];
        if peer.usable && peer.address !in seen {
          seen, active := seen + {peer.address}, active + 1;
          downloads, started := downloads[peer.address := Running], started + [peer.address];
        }
        index := index + 1;
      }
      assert batch.peers[index..] == [];
    }

    /** The result case; true means the loop returns this download's data. */
    method OnResult(address: bytes, ok: bool) returns (fetched: bool)
      requires PoolInv(View()) && address in downloads && downloads[address] == Offering(ok)
      modifies this
      ensures PoolInv(View()) && fetched == ok
      ensures View() == SetDownload(old(View()), address, Delivered(ok)).(active := old(active) - 1)
      ensures finishedSources == old(finishedSources) && lastErr == (old(lastErr) || !ok)
    {
      assert Open(downloads[address := Delivered(ok)]) == Open(downloads) - {address};
      active, downloads := active - 1, downloads[address := Delivered(ok)];
      if ok {
        return true;
      }
      lastErr := true;
      return false;
    }
  }
}
