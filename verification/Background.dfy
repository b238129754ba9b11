/** The run loop and the worker of backgrounddownloader/manager.go, and its prefix arithmetic. */
module Background {
  import opened Base
  import opened Bits

  const MIN_FREE_MB := 10
  const MIN_PREFIX_BITS := 8

  // ---------------------------------------------------------------- matching prefixes

  /** bits.LeadingZeros8, for any width. */
  function LeadingZeros(d: nat, n: nat): nat
    requires d < Pow2(n)
  {
    if n == 0 || TopBit(d, n) then 0 else 1 + LeadingZeros(Rest(d, n), n - 1)
  }

  /** How many leading bits two n-bit numbers share. */
  function CommonBits(a: nat, b: nat, n: nat): (r: nat)
    requires a < Pow2(n) && b < Pow2(n)
    ensures r <= n
    ensures r == n <==> a == b
  {
    if n == 0 || TopBit(a, n) != TopBit(b, n) then 0 else 1 + CommonBits(Rest(a, n), Rest(b, n), n - 1)
  }

  /** Leading zeros of the exclusive or are the shared leading bits. */
  lemma {:induction false} LeadingZerosOfXor(a: nat, b: nat, n: nat)
    requires a < Pow2(n) && b < Pow2(n)
    ensures LeadingZeros(Xor(a, b, n), n) == CommonBits(a, b, n)
  {
    if n > 0 && TopBit(a, n) == TopBit(b, n) {
      var r := XorTop(a, b, n);
      LeadingZerosOfXor(Rest(a, n), Rest(b, n), n - 1);
    }
  }

  function CommonByteBits(a: byte, b: byte): (r: nat)
    ensures r <= 8 && (r == 8 <==> a == b)
  {
    Pow2Eight();
    CommonBits(a, b, 8)
  }

  /** The number of leading bits two equally long IDs share. */
  function Prefix(a: bytes, b: bytes): (r: nat)
    requires |a| == |b|
    ensures r <= 8 * |a|
    ensures r == 8 * |a| <==> a == b
  {
    if a == [] then 0
    else if a[0] == b[0] then
      assert a == [a[0]] + a[1..] && b == [b[0]] + b[1..];
      8 + Prefix(a[1..], b[1..])
    else CommonByteBits(a[0], b[0])
  }

  /** CollidingPrefixBits: whole equal octets, then the leading zeros of the first difference. */
  method CollidingPrefixBits(first: bytes, second: bytes) returns (r: nat)
    requires |first| == |second|
    ensures r == Prefix(first, second)
  {
    var matching, index := 0, 0;
    assert first[0..] == first && second[0..] == second;
    while index < |first|
      invariant 0 <= index <= |first| && matching == 8 * index
      invariant Prefix(first, second) == matching + Prefix(first[index..], second[index..])
    {
      assert first[index..][1..] == first[index + 1..] && second[index..][1..] == second[index + 1..];
      Pow2Eight();
      var difference := XorByte(first[index], second[index]);
      XorZero(first[index], second[index], 8);
      if difference != 0 {
        LeadingZerosOfXor(first[index], second[index], 8);
        return matching + LeadingZeros(difference, 8);
      }
      matching, index := matching + 8, index + 1;
    }
    assert first[index..] == [];
    return |first| * 8;
  }

  lemma {:induction false} CommonBitsUltrametric(a: nat, b: nat, c: nat, n: nat)
    requires a < Pow2(n) && b < Pow2(n) && c < Pow2(n)
    ensures CommonBits(a, c, n) >= Min(CommonBits(a, b, n), CommonBits(b, c, n))
  {
    if n > 0 && TopBit(a, n) == TopBit(b, n) && TopBit(b, n) == TopBit(c, n) {
      CommonBitsUltrametric(Rest(a, n), Rest(b, n), Rest(c, n), n - 1);
    }
  }

  /** Closeness by prefix is an ultrametric, and symmetric. */
  lemma {:induction false} PrefixUltrametric(a: bytes, b: bytes, c: bytes)
    requires |a| == |b| == |c|
    ensures Prefix(a, c) >= Min(Prefix(a, b), Prefix(b, c))
  {
    if a != [] {
      Pow2Eight();
      CommonBitsUltrametric(a[0], b[0], c[0], 8);
      PrefixUltrametric(a[1..], b[1..], c[1..]);
    }
  }

  /** The i-th bit of an ID, most significant first. */
  function BitOf(a: nat, n: nat, i: nat): bool
    requires i < n && a < Pow2(n)
  {
    if i == 0 then TopBit(a, n) else BitOf(Rest(a, n), n - 1, i - 1)
  }

  function IdBit(a: bytes, i: nat): bool
    requires i < 8 * |a|
  {
    Pow2Eight();
    BitOf(a[i / 8], 8, i % 8)
  }

  lemma {:induction false} CommonBitsMeaning(a: nat, b: nat, n: nat)
    requires a < Pow2(n) && b < Pow2(n)
    ensures forall i :: 0 <= i < CommonBits(a, b, n) ==> BitOf(a, n, i) == BitOf(b, n, i)
    ensures CommonBits(a, b, n) < n ==> BitOf(a, n, CommonBits(a, b, n)) != BitOf(b, n, CommonBits(a, b, n))
  {
    if n > 0 && TopBit(a, n) == TopBit(b, n) {
      CommonBitsMeaning(Rest(a, n), Rest(b, n), n - 1);
    }
  }

  /** Prefix is the index of the first differing bit. */
  lemma {:induction false} PrefixMeaning(a: bytes, b: bytes)
    requires |a| == |b|
    ensures forall i :: 0 <= i < Prefix(a, b) ==> IdBit(a, i) == IdBit(b, i)
    ensures Prefix(a, b) < 8 * |a| ==> IdBit(a, Prefix(a, b)) != IdBit(b, Prefix(a, b))
  {
    if a != [] {
      if a[0] == b[0] {
        PrefixMeaning(a[1..], b[1..]);
        forall i | 8 <= i < 8 * |a|
          ensures IdBit(a, i) == IdBit(a[1..], i - 8) && IdBit(b, i) == IdBit(b[1..], i - 8)
        {
        }
      } else {
        Pow2Eight();
        CommonBitsMeaning(a[0], b[0], 8);
      }
    }
  }

  // ---------------------------------------------------------------- choosing a stream

  predicate Eligible(nodeId: bytes, hash: bytes, held: set<bytes>)
    requires |hash| == |nodeId|
  {
    hash !in held && Prefix(nodeId, hash) >= MIN_PREFIX_BITS
  }

  /** The scan in poll: the first stored hash that is not held and shares eight leading bits. */
  method FindCandidate(nodeId: bytes, stored: seq<bytes>, held: set<bytes>) returns (r: Option<nat>)
    requires forall i :: 0 <= i < |stored| ==> |stored[i]| == |nodeId|
    ensures r.None? ==> forall i :: 0 <= i < |stored| ==> !Eligible(nodeId, stored[i], held)
    ensures r.Some? ==> r.value < |stored| && Eligible(nodeId, stored[r.value], held)
                        && forall i :: 0 <= i < r.value ==> !Eligible(nodeId, stored[i], held)
  {
    for index := 0 to |stored|
      invariant forall i :: 0 <= i < index ==> !Eligible(nodeId, stored[i], held)
    {
      if stored[index] !in held {
        var prefixBits := CollidingPrefixBits(nodeId, stored[index]);
        if prefixBits >= MIN_PREFIX_BITS {
          return Some(index);
        }
      }
    }
    return None;
  }

  // ---------------------------------------------------------------- the run loop

  /** Where the run goroutine is; `first` tells the poll before the loop from the ticks in it. */
  datatype Loop = Off | Polling(first: bool) | Scanning | Selecting | Draining | Exiting

  /** `results` is the channel of capacity one; the worker's context derives from the loop's. */
  datatype State = State(
    running: bool,
    ongoing: bool,
    hasCancel: bool,
    lowSpace: bool,
    loop: Loop,
    workers: nat,
    results: nat,
    ctxDone: bool,
    workerDone: bool)

  datatype Step =
    | Start
    | Stop
    | PollFails
    | PollSpace(available: int)
    | ScanMisses
    | ScanHits
    | WorkerSends
    | TakeResult
    | Tick
    | TakeDone
    | Drain
    | Exit

  const INITIAL := State(false, false, false, false, Off, 0, 0, false, false)

  predicate Enabled(s: State, step: Step) {
    match step
    case Start => !s.running && s.loop.Off?
    case Stop => s.running
    case PollFails => s.loop.Polling?
    case PollSpace(_) => s.loop.Polling?
    case ScanMisses => s.loop.Scanning?
    case ScanHits => s.loop.Scanning?
    case WorkerSends => s.workers > 0 && s.results < 1
    case TakeResult => s.loop.Selecting? && s.results > 0
    case Tick => s.loop.Selecting?
    case TakeDone => s.loop.Selecting? && s.ctxDone
    case Drain => s.loop.Draining? && s.results > 0
    case Exit => s.loop.Exiting?
  }

  /** cancelWorker, then wait for the worker if one is outstanding. */
  function CancelAndLeave(s: State): State {
    s.(workerDone := s.workerDone || s.hasCancel, loop := if s.ongoing then Draining else Exiting)
  }

  function Apply(s: State, step: Step): State
    requires Enabled(s, step)
  {
    match step
    case Start => s.(running := true, ctxDone := false, workerDone := false, results := 0, loop := Polling(true))
    case Stop => s.(ctxDone := true, workerDone := true)
    case PollFails => if s.loop.first then s.(loop := Exiting) else CancelAndLeave(s)
    case PollSpace(available) =>
      s.(lowSpace := available <= MIN_FREE_MB,
         loop := if available <= MIN_FREE_MB || s.ongoing then Selecting else Scanning)
    case ScanMisses => s.(loop := Selecting)
    case ScanHits =>
      if s.ongoing then s.(loop := Selecting)
      else s.(ongoing := true, hasCancel := true, workerDone := s.ctxDone, workers := s.workers + 1, loop := Selecting)
    case WorkerSends => s.(workers := s.workers - 1, results := s.results + 1)
    case TakeResult => s.(results := s.results - 1, ongoing := false, hasCancel := false)
    case Tick => s.(loop := Polling(false))
    case TakeDone => CancelAndLeave(s)
    case Drain => s.(results := s.results - 1, loop := Exiting)
    case Exit => s.(running := false, ongoing := false, hasCancel := false, loop := Off)
  }

  /** One outstanding download exactly while `ongoing`; nothing is left once the loop is past draining. */
  predicate Inv(s: State) {
    && (s.running <==> !s.loop.Off?)
    && (s.loop.Polling? || s.loop.Scanning? || s.loop.Selecting? || s.loop.Draining? ==>
          s.workers + s.results == (if s.ongoing then 1 else 0) && (s.hasCancel <==> s.ongoing))
    && (s.loop.Exiting? || s.loop.Off? ==> s.workers == 0 && s.results == 0)
    && (s.loop.Off? ==> !s.ongoing && !s.hasCancel)
    && (s.loop == Polling(true) || s.loop.Scanning? ==> !s.ongoing)
    && (s.loop.Draining? ==> s.ongoing && s.workerDone)
  }

  lemma StartKeeps(s: State)
    requires Inv(s) && Enabled(s, Start)
    ensures Inv(Apply(s, Start))
  {
  }

  lemma StopKeeps(s: State)
    requires Inv(s) && Enabled(s, Stop)
    ensures Inv(Apply(s, Stop))
  {
  }

  lemma PollFailsKeeps(s: State)
    requires Inv(s) && Enabled(s, PollFails)
    ensures Inv(Apply(s, PollFails))
  {
  }

  lemma ScanMissesKeeps(s: State)
    requires Inv(s) && Enabled(s, ScanMisses)
    ensures Inv(Apply(s, ScanMisses))
  {
  }

  lemma ScanHitsKeeps(s: State)
    requires Inv(s) && Enabled(s, ScanHits)
    ensures Inv(Apply(s, ScanHits))
  {
  }

  lemma WorkerSendsKeeps(s: State)
    requires Inv(s) && Enabled(s, WorkerSends)
    ensures Inv(Apply(s, WorkerSends))
  {
  }

  lemma TakeResultKeeps(s: State)
    requires Inv(s) && Enabled(s, TakeResult)
    ensures Inv(Apply(s, TakeResult))
  {
  }

  lemma TickKeeps(s: State)
    requires Inv(s) && Enabled(s, Tick)
    ensures Inv(Apply(s, Tick))
  {
  }

  lemma TakeDoneKeeps(s: State)
    requires Inv(s) && Enabled(s, TakeDone)
    ensures Inv(Apply(s, TakeDone))
  {
  }

  lemma DrainKeeps(s: State)
    requires Inv(s) && Enabled(s, Drain)
    ensures Inv(Apply(s, Drain))
  {
  }

  lemma ExitKeeps(s: State)
    requires Inv(s) && Enabled(s, Exit)
    ensures Inv(Apply(s, Exit))
  {
  }

  lemma PollSpaceKeeps(s: State, available: int)
    requires Inv(s) && Enabled(s, PollSpace(available))
    ensures Inv(Apply(s, PollSpace(available)))
  {
  }

  lemma StepKeepsInv(s: State, step: Step)
    requires Inv(s) && Enabled(s, step)
    ensures Inv(Apply(s, step))
  {
    match step {
      case Start => StartKeeps(s);
      case Stop => StopKeeps(s);
      case PollFails => PollFailsKeeps(s);
      case PollSpace(available) => PollSpaceKeeps(s, available);
      case ScanMisses => ScanMissesKeeps(s);
      case ScanHits => ScanHitsKeeps(s);
      case WorkerSends => WorkerSendsKeeps(s);
      case TakeResult => TakeResultKeeps(s);
      case Tick => TickKeeps(s);
      case TakeDone => TakeDoneKeeps(s);
      case Drain => DrainKeeps(s);
      case Exit => ExitKeeps(s);
    }
  }

  ghost predicate StepAt(states: seq<State>, steps: seq<Step>, i: nat)
    requires i < |steps| && i + 1 < |states|
  {
    Enabled(states[i], steps[i]) && states[i + 1] == Apply(states[i], steps[i])
  }

  ghost predicate IsRun(states: seq<State>, steps: seq<Step>) {
    && |states| == |steps| + 1 && states[0] == INITIAL
    && forall i :: 0 <= i < |steps| ==> StepAt(states, steps, i)
  }

  lemma NextInv(s: State, step: Step, t: State)
    requires Inv(s) && Enabled(s, step) && t == Apply(s, step)
    ensures Inv(t)
  {
    StepKeepsInv(s, step);
  }

  lemma InitialInv()
    ensures Inv(INITIAL)
  {
  }

  lemma RunStepInv(states: seq<State>, steps: seq<Step>, i: nat, s: State, t: State)
    requires IsRun(states, steps) && i < |steps| && s == states[i] && t == states[i + 1] && Inv(s)
    ensures Inv(t)
  {
    assert StepAt(states, steps, i);
    NextInv(s, steps[i], t);
  }

  lemma {:induction false} ReachableInv(states: seq<State>, steps: seq<Step>, k: nat)
    requires IsRun(states, steps) && k < |states|
    ensures Inv(states[k])
  {
    if k == 0 {
      InitialInv();
    } else {
      ReachableInv(states, steps, k - 1);
      RunStepInv(states, steps, k - 1, states[k - 1], states[k]);
    }
  }

  /**
   In every run: between loop steps `ongoing` holds exactly when a worker is alive or its
   result is unread; at most one worker exists; its send never blocks; and once `running` is
   false no worker and no unread result are left.
   */
  lemma OneWorker(states: seq<State>, steps: seq<Step>, k: nat)
    requires IsRun(states, steps) && k < |states|
    ensures states[k].loop.Selecting? ==> (states[k].ongoing <==> states[k].workers > 0 || states[k].results > 0)
    ensures states[k].workers + states[k].results <= 1
    ensures states[k].workers > 0 ==> Enabled(states[k], WorkerSends)
    ensures !states[k].running ==> states[k].workers == 0 && states[k].results == 0 && !states[k].ongoing
    ensures states[k].loop.Draining? ==> states[k].workerDone && (states[k].workers == 1 || Enabled(states[k], Drain))
  {
    ReachableInv(states, steps, k);
  }

  /** What one poll decides: to look for a stream exactly with more than 10 MB free and no download under way. */
  lemma PollDecides(states: seq<State>, steps: seq<Step>, k: nat)
    requires IsRun(states, steps) && k < |steps| && steps[k].PollSpace?
    ensures states[k + 1].loop.Scanning? <==> steps[k].available > 10 && states[k].workers + states[k].results == 0
    ensures states[k + 1].loop.Scanning? || states[k + 1].loop.Selecting?
    ensures states[k + 1].lowSpace <==> steps[k].available <= 10
  {
    assert StepAt(states, steps, k);
    ReachableInv(states, steps, k);
  }

  /** The scan under way at state k follows the poll of step j, which saw more than 10 MB. */
  ghost predicate PolledAt(states: seq<State>, steps: seq<Step>, j: nat, k: nat)
    requires |states| == |steps| + 1 && k < |states|
  {
    && j < k && steps[j].PollSpace? && steps[j].available > 10
    && forall i :: j < i <= k ==> states[i].loop.Scanning?
  }

  lemma {:induction false} ScanFollowsPoll(states: seq<State>, steps: seq<Step>, k: nat) returns (j: nat)
    requires IsRun(states, steps) && k < |states| && states[k].loop.Scanning?
    ensures PolledAt(states, steps, j, k)
  {
    assert StepAt(states, steps, k - 1);
    if steps[k - 1].PollSpace? {
      j := k - 1;
      PollDecides(states, steps, k - 1);
    } else {
      StaysScanning(states[k - 1], steps[k - 1]);
      j := ScanFollowsPoll(states, steps, k - 1);
    }
  }

  lemma StaysScanning(s: State, step: Step)
    requires Enabled(s, step) && Apply(s, step).loop.Scanning? && !step.PollSpace?
    ensures s.loop.Scanning?
  {
  }

  /**
   A worker is started only by a scan that found a stream, one at a time, and only when the poll
   that led to the scan had seen more than 10 MB free.
   */
  lemma WorkerNeedsSpace(states: seq<State>, steps: seq<Step>, k: nat)
    requires IsRun(states, steps) && k < |steps| && states[k + 1].workers > states[k].workers
    ensures steps[k].ScanHits? && states[k].workers == 0 && states[k + 1].workers == 1
    ensures exists j: nat :: PolledAt(states, steps, j, k)
  {
    assert StepAt(states, steps, k);
    ReachableInv(states, steps, k);
    GrowsByScan(states[k], steps[k]);
    var j := ScanFollowsPoll(states, steps, k);
  }

  lemma GrowsByScan(s: State, step: Step)
    requires Inv(s) && Enabled(s, step) && Apply(s, step).workers > s.workers
    ensures step.ScanHits? && s.workers == 0 && Apply(s, step).workers == 1
  {
  }

  /** And a scan that finds a stream always starts one. */
  lemma ScanStartsWorker(states: seq<State>, steps: seq<Step>, k: nat)
    requires IsRun(states, steps) && k < |steps| && steps[k].ScanHits?
    ensures states[k + 1].workers == 1 && states[k + 1].ongoing && (states[k + 1].workerDone <==> states[k].ctxDone)
  {
    assert StepAt(states, steps, k);
    ReachableInv(states, steps, k);
  }

  /** How far a manager is from rest: the loop's position and the outstanding work. */
  function Weight(loop: Loop): nat {
    if loop.Off? then 0 else if loop.Exiting? then 1 else if loop.Draining? then 2
    else if loop.Selecting? then 3 else if loop.Scanning? then 6 else 7
  }

  function Left(s: State): nat {
    Weight(s.loop) + 2 * s.workers + s.results
  }

  /** A step that brings a stopped manager closer to rest. */
  function Closing(s: State): Step {
    match s.loop
    case Off => Start
    case Exiting => Exit
    case Draining => if s.results > 0 then Drain else WorkerSends
    case Selecting => TakeDone
    case Scanning => ScanMisses
    case Polling(_) => PollFails
  }

  /** What a step may do to the loop's position and to the outstanding work. */
  lemma StepMoves(s: State, step: Step, t: State)
    requires Inv(s) && Enabled(s, step) && !step.Start? && !step.Stop? && !step.Tick? && t == Apply(s, step)
    ensures step.WorkerSends? ==> t.loop == s.loop && t.workers == s.workers - 1 && t.results == s.results + 1
    ensures step.TakeResult? ==> t.loop == s.loop && t.workers == s.workers && t.results == s.results - 1
    ensures step.ScanHits? ==> s.loop.Scanning? && t.loop.Selecting? && t.workers == s.workers + 1 && t.results == s.results
    ensures !step.WorkerSends? && !step.TakeResult? && !step.ScanHits? ==>
              Weight(t.loop) < Weight(s.loop) && t.workers == s.workers && t.results <= s.results
  {
  }

  lemma StepCloses(s: State, step: Step)
    requires Inv(s) && Enabled(s, step) && !step.Start? && !step.Stop? && !step.Tick?
    ensures Left(Apply(s, step)) < Left(s)
  {
    StepMoves(s, step, Apply(s, step));
  }

  /**
   Apart from a new start and the ticker, every step of the loop or its worker brings the
   manager closer to rest; after Stop such a step is always possible until it is at rest,
   which is exactly when `running` is false.
   */
  lemma {:induction false} StopDrains(s: State)
    requires Inv(s)
    ensures forall step :: Enabled(s, step) && !step.Start? && !step.Stop? && !step.Tick? ==> Left(Apply(s, step)) < Left(s)
    ensures Left(s) == 0 <==> !s.running
    ensures s.ctxDone && s.running ==> Enabled(s, Closing(s)) && !Closing(s).Start? && !Closing(s).Tick?
  {
    forall step | Enabled(s, step) && !step.Start? && !step.Stop? && !step.Tick?
      ensures Left(Apply(s, step)) < Left(s)
    {
      StepCloses(s, step);
    }
  }
}
