/** BlobAnnouncer.round of dht/announcer.go: one feeder, a pool of workers, a buffered success channel. */
module Announcer {
  import opened Base

  const MIN_PEERS := 4

  /** What `announce` returned: whether it failed, and to how many peers it went. */
  datatype Answer = Answer(failed: bool, peers: int)

  predicate Succeeded(answer: Answer) {
    !answer.failed && answer.peers > MIN_PEERS
  }

  /** A worker waits on `jobs`, announces a list position, sends on `successes`, or has returned. */
  datatype Worker = Idle | Busy(pos: nat) | Pushing(pos: nat) | Exited

  datatype Phase = Feeding | Draining | Aborted | Marked | Returned

  /**
   `successes` is the channel of capacity |hashes|, here holding positions. `calls` is history:
   the positions announced, in order. `marked` is what MarkBlobsAnnounced was given.
   */
  datatype State = State(
    hashes: seq<bytes>,
    next: nat,
    workers: seq<Worker>,
    answers: map<nat, Answer>,
    calls: seq<nat>,
    successes: seq<nat>,
    ctxDone: bool,
    phase: Phase,
    marked: seq<nat>)

  datatype Step =
    | Feed(worker: nat)
    | Announce(worker: nat, answer: Answer)
    | Push(worker: nat)
    | Exit(worker: nat)
    | CancelContext
    | AbortFeed
    | EndFeed
    | Collect
    | Leave

  function Initial(hashes: seq<bytes>, concurrency: nat): State {
    State(hashes, 0, seq(Min(Max(concurrency, 1), |hashes|), _ => Idle), map[], [], [], false, Feeding, [])
  }

  predicate AllExited(s: State) {
    forall w :: 0 <= w < |s.workers| ==> s.workers[w].Exited?
  }

  predicate Enabled(s: State, step: Step) {
    match step
    case Feed(w) => s.phase.Feeding? && s.next < |s.hashes| && w < |s.workers| && s.workers[w].Idle?
    case Announce(w, _) => w < |s.workers| && s.workers[w].Busy?
    case Push(w) => w < |s.workers| && s.workers[w].Pushing? && |s.successes| < |s.hashes|
    case Exit(w) => !s.phase.Feeding? && w < |s.workers| && s.workers[w].Idle?
    case CancelContext => true
    case AbortFeed => s.phase.Feeding? && s.next < |s.hashes| && s.ctxDone
    case EndFeed => s.phase.Feeding? && s.next == |s.hashes|
    case Collect => s.phase.Draining? && AllExited(s)
    case Leave => s.phase.Aborted? && AllExited(s)
  }

  function Apply(s: State, step: Step): State
    requires Enabled(s, step)
  {
    match step
    case Feed(w) => s.(workers := s.workers[w := Busy(s.next)], next := s.next + 1)
    case Announce(w, answer) =>
      var pos := s.workers[w].pos;
      s.(answers := s.answers[pos := answer], calls := s.calls + [pos],
         workers := s.workers[w := if Succeeded(answer) then Pushing(pos) else Idle])
    case Push(w) => s.(successes := s.successes + [s.workers[w].pos], workers := s.workers[w := Idle])
    case Exit(w) => s.(workers := s.workers[w := Exited])
    case CancelContext => s.(ctxDone := true)
    case AbortFeed => s.(phase := Aborted)
    case EndFeed => s.(phase := Draining)
    case Collect => s.(phase := Marked, marked := s.successes)
    case Leave => s.(phase := Returned)
  }

  // ---------------------------------------------------------------- invariant

  predicate Distinct(items: seq<nat>) {
    forall i, j :: 0 <= i < j < |items| ==> items[i] != items[j]
  }

  predicate Holds(worker: Worker, pos: nat) {
    (worker.Busy? || worker.Pushing?) && worker.pos == pos
  }

  ghost predicate HeldBy(s: State, pos: nat) {
    exists w :: 0 <= w < |s.workers| && Holds(s.workers[w], pos)
  }

  /** A fed position is with exactly one worker or already answered; the answer decides what follows. */
  ghost predicate WorkersOk(s: State) {
    && (forall v, w :: 0 <= v < w < |s.workers| && !(s.workers[w].Idle? || s.workers[w].Exited?) ==>
          !Holds(s.workers[v], s.workers[w].pos))
    && (forall w :: 0 <= w < |s.workers| && s.workers[w].Busy? ==>
          s.workers[w].pos < s.next && s.workers[w].pos !in s.answers)
    && (forall w :: 0 <= w < |s.workers| && s.workers[w].Pushing? ==>
          && s.workers[w].pos in s.answers && Succeeded(s.answers[s.workers[w].pos])
          && s.workers[w].pos !in s.successes)
  }

  ghost predicate AnswersOk(s: State) {
    && (forall pos :: pos in s.answers ==> pos < s.next)
    && (forall pos: nat :: pos < s.next ==> pos in s.answers || HeldBy(s, pos))
    && (forall pos :: pos in s.answers && Succeeded(s.answers[pos]) ==> pos in s.successes || HeldBy(s, pos))
    && (forall pos :: pos in s.successes ==> pos in s.answers && Succeeded(s.answers[pos]))
    && Distinct(s.successes) && Distinct(s.calls)
    && (forall pos :: pos in s.calls <==> pos in s.answers)
  }

  ghost predicate Inv(s: State) {
    && s.next <= |s.hashes|
    && WorkersOk(s) && AnswersOk(s)
    && (s.phase.Draining? || s.phase.Marked? ==> s.next == |s.hashes|)
    && (s.phase.Marked? || s.phase.Returned? ==> AllExited(s))
    && s.marked == if s.phase.Marked? then s.successes else []
  }

  ghost function Below(n: nat): set<nat> {
    if n == 0 then {} else Below(n - 1) + {n - 1}
  }

  lemma {:induction false} BelowIs(n: nat)
    ensures |Below(n)| == n && forall x: nat :: x in Below(n) <==> x < n
  {
    if n > 0 {
      BelowIs(n - 1);
    }
  }

  lemma {:induction false} DistinctFit(items: seq<nat>, all: set<nat>)
    requires Distinct(items) && forall i :: 0 <= i < |items| ==> items[i] in all
    ensures |items| <= |all|
    decreases |items|
  {
    if items != [] {
      DistinctFit(items[..|items| - 1], all - {items[|items| - 1]});
    }
  }

  /** Distinct positions below n that miss one of them are fewer than n. */
  lemma MissingOne(items: seq<nat>, n: nat, hole: nat)
    requires Distinct(items) && hole < n && hole !in items
    requires forall i :: 0 <= i < |items| ==> items[i] < n
    ensures |items| < n
  {
    BelowIs(n);
    DistinctFit(items, Below(n) - {hole});
  }

  lemma InitialInv(hashes: seq<bytes>, concurrency: nat)
    ensures Inv(Initial(hashes, concurrency))
  {
  }

  lemma FeedKeeps(s: State, w: nat)
    requires Inv(s) && Enabled(s, Feed(w))
    ensures Inv(Apply(s, Feed(w)))
  {
    var t := Apply(s, Feed(w));
    HeldKept(s, t, w);
    assert Holds(t.workers[w], s.next);
  }

  /** A worker that held nothing can change without releasing anyone's position. */
  lemma HeldKept(s: State, t: State, w: nat)
    requires |t.workers| == |s.workers| && w < |s.workers|
    requires forall v :: 0 <= v < |s.workers| && v != w ==> t.workers[v] == s.workers[v]
    ensures forall pos :: HeldBy(s, pos) && !Holds(s.workers[w], pos) ==> HeldBy(t, pos)
  {
    forall pos | HeldBy(s, pos) && !Holds(s.workers[w], pos)
      ensures HeldBy(t, pos)
    {
      var v :| 0 <= v < |s.workers| && Holds(s.workers[v], pos);
      assert Holds(t.workers[v], pos);
    }
  }

  lemma AnnounceKeeps(s: State, w: nat, answer: Answer)
    requires Inv(s) && Enabled(s, Announce(w, answer))
    ensures Inv(Apply(s, Announce(w, answer)))
  {
    var t := Apply(s, Announce(w, answer));
    var pos := s.workers[w].pos;
    HeldKept(s, t, w);
    assert Succeeded(answer) ==> Holds(t.workers[w], pos);
    assert pos !in s.calls;
  }

  lemma PushKeeps(s: State, w: nat)
    requires Inv(s) && Enabled(s, Push(w))
    ensures Inv(Apply(s, Push(w)))
  {
    var t := Apply(s, Push(w));
    HeldKept(s, t, w);
    assert s.workers[w].pos in t.successes;
    assert forall pos :: pos in s.successes ==> pos in t.successes;
  }

  lemma ExitKeeps(s: State, w: nat)
    requires Inv(s) && Enabled(s, Exit(w))
    ensures Inv(Apply(s, Exit(w)))
  {
    HeldKept(s, Apply(s, Exit(w)), w);
  }

  lemma PhaseKeeps(s: State, step: Step)
    requires Inv(s) && Enabled(s, step)
    requires step.CancelContext? || step.AbortFeed? || step.EndFeed? || step.Collect? || step.Leave?
    ensures Inv(Apply(s, step))
  {
    var t := Apply(s, step);
    assert forall pos :: HeldBy(s, pos) <==> HeldBy(t, pos);
  }

  lemma StepKeepsInv(s: State, step: Step)
    requires Inv(s) && Enabled(s, step)
    ensures Inv(Apply(s, step))
  {
    match step {
      case Feed(w) => FeedKeeps(s, w);
      case Announce(w, answer) => AnnounceKeeps(s, w, answer);
      case Push(w) => PushKeeps(s, w);
      case Exit(w) => ExitKeeps(s, w);
      case _ => PhaseKeeps(s, step);
    }
  }

  // ---------------------------------------------------------------- runs

  ghost predicate StepAt(states: seq<State>, steps: seq<Step>, i: nat)
    requires i < |steps| && i + 1 < |states|
  {
    Enabled(states[i], steps[i]) && states[i + 1] == Apply(states[i], steps[i])
  }

  ghost predicate IsRun(hashes: seq<bytes>, concurrency: nat, states: seq<State>, steps: seq<Step>) {
    && |states| == |steps| + 1 && states[0] == Initial(hashes, concurrency)
    && forall i :: 0 <= i < |steps| ==> StepAt(states, steps, i)
  }

  lemma {:induction false} ReachableInv(
    hashes: seq<bytes>, concurrency: nat, states: seq<State>, steps: seq<Step>, k: nat)
    requires IsRun(hashes, concurrency, states, steps) && k < |states|
    ensures Inv(states[k]) && states[k].hashes == hashes
  {
    if k == 0 {
      InitialInv(hashes, concurrency);
    } else {
      ReachableInv(hashes, concurrency, states, steps, k - 1);
      assert StepAt(states, steps, k - 1);
      StepKeepsInv(states[k - 1], steps[k - 1]);
    }
  }

  /** In every interleaving each list position is announced at most once, and a send on `successes` never blocks. */
  lemma AnnouncedOnce(hashes: seq<bytes>, concurrency: nat, states: seq<State>, steps: seq<Step>, k: nat)
    requires IsRun(hashes, concurrency, states, steps) && k < |states|
    ensures Distinct(states[k].calls)
    ensures forall i :: 0 <= i < |states[k].calls| ==> states[k].calls[i] < |hashes|
    ensures forall w: nat | w < |states[k].workers| && states[k].workers[w].Pushing? :: Enabled(states[k], Push(w))
  {
    ReachableInv(hashes, concurrency, states, steps, k);
    var s := states[k];
    forall i | 0 <= i < |s.calls|
      ensures s.calls[i] < |hashes|
    {
      assert s.calls[i] in s.calls;
    }
    forall w: nat | w < |s.workers| && s.workers[w].Pushing?
      ensures Enabled(s, Push(w))
    {
      var pos := s.workers[w].pos;
      assert forall i :: 0 <= i < |s.successes| ==> s.successes[i] in s.successes;
      MissingOne(s.successes, |s.hashes|, pos);
    }
  }

  /** Step j is the announcement of a position. */
  ghost predicate AnsweredAt(states: seq<State>, steps: seq<Step>, j: nat, pos: nat) {
    && j < |steps| && j < |states| && steps[j].Announce?
    && steps[j].worker < |states[j].workers| && states[j].workers[steps[j].worker] == Busy(pos)
  }

  /** An announcement that reached more than four peers without an error. */
  ghost predicate ReachedAt(states: seq<State>, steps: seq<Step>, j: nat, pos: nat) {
    AnsweredAt(states, steps, j, pos) && !steps[j].answer.failed && steps[j].answer.peers > 4
  }

  ghost predicate AnsweredBy(states: seq<State>, steps: seq<Step>, k: nat, pos: nat) {
    exists j: nat :: j < k && AnsweredAt(states, steps, j, pos)
  }

  ghost predicate ReachedBy(states: seq<State>, steps: seq<Step>, k: nat, pos: nat) {
    exists j: nat :: j < k && ReachedAt(states, steps, j, pos)
  }

  /** The recorded answers are those the announcements got. */
  lemma {:induction false} AnswersHeard(
    hashes: seq<bytes>, concurrency: nat, states: seq<State>, steps: seq<Step>, k: nat, pos: nat)
    requires IsRun(hashes, concurrency, states, steps) && k < |states|
    ensures pos in states[k].answers <==> AnsweredBy(states, steps, k, pos)
    ensures forall j: nat | j < k && AnsweredAt(states, steps, j, pos) ::
              pos in states[k].answers && states[k].answers[pos] == steps[j].answer
  {
    if k > 0 {
      AnswersHeard(hashes, concurrency, states, steps, k - 1, pos);
      ReachableInv(hashes, concurrency, states, steps, k - 1);
      assert StepAt(states, steps, k - 1);
      var s, step := states[k - 1], steps[k - 1];
      if step.Announce? && s.workers[step.worker] == Busy(pos) {
        assert AnsweredAt(states, steps, k - 1, pos);
      } else {
        assert !AnsweredAt(states, steps, k - 1, pos);
        AnswersKept(s, step, pos);
      }
    }
  }

  lemma AnswersKept(s: State, step: Step, pos: nat)
    requires Enabled(s, step) && !(step.Announce? && s.workers[step.worker] == Busy(pos))
    ensures pos in Apply(s, step).answers <==> pos in s.answers
    ensures pos in s.answers ==> Apply(s, step).answers[pos] == s.answers[pos]
  {
  }

  /**
   When feeding completed, every position was announced and exactly those announced to more than
   four peers without an error are marked, each once; when it was cancelled, none is.
   */
  lemma MarkedExactly(hashes: seq<bytes>, concurrency: nat, states: seq<State>, steps: seq<Step>, k: nat)
    requires IsRun(hashes, concurrency, states, steps) && k < |states|
    ensures states[k].phase.Marked? ==>
              && (forall pos: nat :: pos < |hashes| ==> AnsweredBy(states, steps, k, pos))
              && Distinct(states[k].marked)
              && (forall pos: nat :: pos in states[k].marked <==>
                    pos < |hashes| && ReachedBy(states, steps, k, pos))
    ensures !states[k].phase.Marked? ==> states[k].marked == []
  {
    ReachableInv(hashes, concurrency, states, steps, k);
    var s := states[k];
    if s.phase.Marked? {
      assert forall pos :: !HeldBy(s, pos);
      forall pos: nat
        ensures pos < |hashes| ==> AnsweredBy(states, steps, k, pos)
        ensures pos in s.marked <==> pos < |hashes| && ReachedBy(states, steps, k, pos)
      {
        MarkedAt(hashes, concurrency, states, steps, k, pos);
      }
    }
  }

  lemma MarkedAt(hashes: seq<bytes>, concurrency: nat, states: seq<State>, steps: seq<Step>, k: nat, pos: nat)
    requires IsRun(hashes, concurrency, states, steps) && k < |states| && Inv(states[k]) && states[k].phase.Marked?
    requires states[k].hashes == hashes && forall p :: !HeldBy(states[k], p)
    ensures pos < |hashes| ==> AnsweredBy(states, steps, k, pos)
    ensures pos in states[k].marked <==> pos < |hashes| && ReachedBy(states, steps, k, pos)
  {
    AnswersHeard(hashes, concurrency, states, steps, k, pos);
    var s := states[k];
    if pos in s.answers {
      var j: nat :| j < k && AnsweredAt(states, steps, j, pos);
      assert Succeeded(s.answers[pos]) <==> ReachedAt(states, steps, j, pos);
    }
    if j: nat :| j < k && ReachedAt(states, steps, j, pos) {
      assert AnsweredAt(states, steps, j, pos);
    }
  }

  /** A round is given up only after its context ended. */
  lemma {:induction false} AbortedOnCancel(
    hashes: seq<bytes>, concurrency: nat, states: seq<State>, steps: seq<Step>, k: nat)
    requires IsRun(hashes, concurrency, states, steps) && k < |states|
    requires states[k].ctxDone || states[k].phase.Aborted? || states[k].phase.Returned?
    ensures exists j :: 0 <= j < k && steps[j].CancelContext?
  {
    if k > 0 {
      assert StepAt(states, steps, k - 1);
      if !steps[k - 1].CancelContext? {
        AbortedOnCancel(hashes, concurrency, states, steps, k - 1);
      }
    }
  }

  // ---------------------------------------------------------------- termination

  function WorkerLeft(worker: Worker): nat {
    match worker
    case Busy(_) => 3
    case Pushing(_) => 2
    case Idle => 1
    case Exited => 0
  }

  function WorkersLeft(workers: seq<Worker>): nat {
    if workers == [] then 0 else WorkersLeft(workers[..|workers| - 1]) + WorkerLeft(workers[|workers| - 1])
  }

  function PhaseLeft(phase: Phase): nat {
    match phase
    case Feeding => 2
    case Draining => 1
    case Aborted => 1
    case Marked => 0
    case Returned => 0
  }

  /** How many steps a round can still take, at most. */
  function Left(s: State): int {
    3 * (|s.hashes| - s.next) + WorkersLeft(s.workers) + PhaseLeft(s.phase)
  }

  lemma {:induction false} WorkersLeftUpdate(workers: seq<Worker>, w: nat, worker: Worker)
    requires w < |workers|
    ensures WorkersLeft(workers[w := worker]) == WorkersLeft(workers) - WorkerLeft(workers[w]) + WorkerLeft(worker)
  {
    var last := |workers| - 1;
    var updated := workers[w := worker];
    if w == last {
      assert updated[..last] == workers[..last];
    } else {
      assert updated[..last] == workers[..last][w := worker];
      WorkersLeftUpdate(workers[..last], w, worker);
    }
  }

  /** Every step but a cancellation brings the round closer to its end, so with NoDeadlock every round ends. */
  lemma RoundDescends(s: State, step: Step)
    requires Inv(s) && Enabled(s, step) && !step.CancelContext?
    ensures 0 <= Left(Apply(s, step)) < Left(s)
  {
    var t := Apply(s, step);
    StepKeepsInv(s, step);
    if step.Feed? || step.Announce? || step.Push? || step.Exit? {
      WorkersLeftUpdate(s.workers, step.worker, t.workers[step.worker]);
    }
  }

  /** While anyone still has work, some step other than a cancellation is possible: the round cannot deadlock. */
  lemma NoDeadlock(hashes: seq<bytes>, concurrency: nat, states: seq<State>, steps: seq<Step>, k: nat)
    requires IsRun(hashes, concurrency, states, steps) && k < |states|
    requires !states[k].phase.Marked? && !states[k].phase.Returned?
    ensures exists step: Step :: !step.CancelContext? && Enabled(states[k], step)
  {
    ReachableInv(hashes, concurrency, states, steps, k);
    var s := states[k];
    WorkerCount(hashes, concurrency, states, steps, k);
    if w: nat :| w < |s.workers| && s.workers[w].Busy? {
      assert Enabled(s, Announce(w, Answer(true, 0)));
    } else if w: nat :| w < |s.workers| && s.workers[w].Pushing? {
      AnnouncedOnce(hashes, concurrency, states, steps, k);
      assert Enabled(s, Push(w));
    } else if s.phase.Feeding? {
      if s.next == |s.hashes| {
        assert Enabled(s, EndFeed);
      } else {
        assert s.workers[0].Idle?;
        assert Enabled(s, Feed(0));
      }
    } else if w: nat :| w < |s.workers| && s.workers[w].Idle? {
      assert Enabled(s, Exit(w));
    } else {
      assert AllExited(s);
      assert Enabled(s, if s.phase.Draining? then Collect else Leave);
    }
  }

  /** The pool never exceeds the concurrency or the list and keeps its size, and no worker returns while jobs are fed. */
  lemma {:induction false} WorkerCount(
    hashes: seq<bytes>, concurrency: nat, states: seq<State>, steps: seq<Step>, k: nat)
    requires IsRun(hashes, concurrency, states, steps) && k < |states|
    ensures |states[k].workers| == Min(Max(concurrency, 1), |hashes|)
    ensures states[k].phase.Feeding? ==> forall w :: 0 <= w < |states[k].workers| ==> !states[k].workers[w].Exited?
  {
    if k > 0 {
      WorkerCount(hashes, concurrency, states, steps, k - 1);
      assert StepAt(states, steps, k - 1);
    }
  }
}
