/** ReadStream while other callers, fetches, deletions and Stop interleave with its every step. */
module InterleavedReads {
  import opened Base
  import Hex
  import opened Cipher
  import opened Descriptor
  import opened Validation
  import opened Creator
  import opened StreamReader
  import opened StreamTheorems
  import BlobStore
  import BlobTheorems

  /** get when the map was read in state s and the file, if the entry says so, in a later state t. */
  function LateGet(env: BlobStore.Env, s: BlobStore.State, t: BlobStore.State, h: bytes): Option<bytes> {
    if h !in s.blobs then None
    else if env.hasDir && s.blobs[h].OnDisk? then
      if h in t.disk && env.hashOf(t.disk[h]) == h then Some(t.disk[h]) else None
    else if s.blobs[h].OnDisk? then Some([])
    else Some(s.blobs[h].data)
  }

  /** Whatever it finds hashes to the key, however far apart the two looks are. */
  lemma LateGetMatches(env: BlobStore.Env, states: seq<BlobStore.State>, steps: seq<BlobStore.Step>, i: nat, j: nat, h: bytes)
    requires BlobStore.ValidEnv(env) && BlobStore.IsRun(env, states, steps) && i <= j < |states|
    ensures var r := LateGet(env, states[i], states[j], h); r.Some? ==> env.hashOf(r.value) == h
  {
    BlobStore.ReachableInv(env, states, steps, i);
    if h in states[i].blobs {
      assert BlobStore.EntryOk(env, states[i], h);
    }
  }

  // ---------------------------------------------------------------- when a get answers

  /** Cached, and no deletion of it is under way. */
  predicate Present(s: BlobStore.State, h: bytes) {
    h in s.blobs && !(s.lock.ForDelete? && s.lock.hash == h)
  }

  /** Stop, or the beginning of a deletion of h. */
  predicate Removes(s: BlobStore.State, step: BlobStore.Step, h: bytes) {
    match step
    case Stop => true
    case ClientDelete(hash, _) => hash == h
    case BeginRollback(f, _) => f < |s.flights| && s.flights[f].hash == h
    case _ => false
  }

  lemma SetKeepsPresent(env: BlobStore.Env, s: BlobStore.State, owner: BlobStore.Owner, hash: bytes, data: bytes, written: bool, h: bytes)
    requires Present(s, h)
    ensures Present(BlobStore.BeginSet(env, s, owner, hash, data, written), h)
  {
  }

  lemma DeleteKeepsPresent(env: BlobStore.Env, s: BlobStore.State, owner: BlobStore.Owner, hash: bytes, removed: bool, h: bytes)
    requires Present(s, h) && hash != h
    ensures Present(BlobStore.BeginDelete(env, s, owner, hash, removed), h)
  {
  }

  lemma StepKeepsPresent(env: BlobStore.Env, s: BlobStore.State, step: BlobStore.Step, h: bytes)
    requires BlobStore.Enabled(env, s, step) && Present(s, h) && !Removes(s, step, h)
    ensures Present(BlobStore.Apply(env, s, step), h)
  {
    if step.BeginStore? {
      var flight := s.flights[step.flight];
      SetKeepsPresent(env, s, BlobStore.OfFlight(step.flight), flight.hash, flight.phase.data, step.written, h);
    } else if step.ClientSet? {
      SetKeepsPresent(env, s, BlobStore.OfClient, step.hash, step.data, step.written, h);
    } else if step.BeginRollback? {
      DeleteKeepsPresent(env, s, BlobStore.OfFlight(step.flight), s.flights[step.flight].hash, step.removed, h);
    } else if step.ClientDelete? {
      DeleteKeepsPresent(env, s, BlobStore.OfClient, step.hash, step.removed, h);
    } else if !(step.CommitStore? || step.CommitRollback? || step.ClientCommit? || step.ClientErase?) {
      BlobStore.TouchesNoStore(env, s, step);
    }
  }

  /** No step from state i up to state n removes h. */
  ghost predicate Kept(states: seq<BlobStore.State>, steps: seq<BlobStore.Step>, i: nat, n: nat, h: bytes)
    requires n <= |steps| < |states|
  {
    forall k: nat :: i <= k < n ==> !Removes(states[k], steps[k], h)
  }

  lemma {:induction false} StaysPresent(env: BlobStore.Env, states: seq<BlobStore.State>, steps: seq<BlobStore.Step>, i: nat, m: nat, h: bytes)
    requires BlobStore.IsRun(env, states, steps) && i <= m < |states| && Present(states[i], h) && Kept(states, steps, i, m, h)
    ensures Present(states[m], h)
    decreases m - i
  {
    if i < m {
      StaysPresent(env, states, steps, i, m - 1, h);
      assert BlobStore.StepAt(env, states, steps, m - 1);
      StepKeepsPresent(env, states[m - 1], steps[m - 1], h);
    }
  }

  /** Once h is cached, every get whose looks come before anything removes it again finds something. */
  lemma LateGetAnswers(env: BlobStore.Env, states: seq<BlobStore.State>, steps: seq<BlobStore.Step>, i: nat, m: nat, n: nat, h: bytes)
    requires BlobStore.ValidEnv(env) && BlobStore.IsRun(env, states, steps) && i <= m <= n < |states|
    requires Present(states[i], h) && Kept(states, steps, i, n, h)
    ensures LateGet(env, states[m], states[n], h).Some?
  {
    StaysPresent(env, states, steps, i, m, h);
    BlobStore.ReachableInv(env, states, steps, m);
    assert BlobStore.EntryOk(env, states[m], h);
    if states[m].blobs[h].OnDisk? {
      BlobTheorems.LazyRead(env, states, steps, m, n, h);
    }
  }

  // ---------------------------------------------------------------- reading from answers

  /** The first n results in order, or None as soon as one is missing. */
  function Collect(open: nat -> Option<bytes>, n: nat): Option<seq<bytes>> {
    if n == 0 then Some([])
    else
      var before := Collect(open, n - 1);
      if before.None? || open(n - 1).None? then None else Some(before.value + [open(n - 1).value])
  }

  /** The k-th blob decrypted, when the k-th get answered answers(k). */
  function Opened(c: BlockCipher, key: bytes, infos: seq<BlobInfo>, answers: nat -> Option<bytes>, k: nat): Option<bytes>
    requires Lawful(c)
  {
    if k >= |infos| || answers(k).None? then None else DecryptBlob(c, answers(k).value, key, infos[k].iv)
  }

  function DecryptEach(c: BlockCipher, key: bytes, infos: seq<BlobInfo>, answers: nat -> Option<bytes>): Option<seq<bytes>>
    requires Lawful(c)
  {
    Collect((k: nat) => Opened(c, key, infos, answers, k), |infos|)
  }

  /** ReadStream on the answers its gets received: one for the descriptor, then one per blob. */
  function ReadStreamFrom(c: BlockCipher, sha: bytes -> bytes, unmarshal: bytes -> Option<StreamDescriptor>,
                          sdHash: bytes, first: Option<bytes>, answers: nat -> Option<bytes>): Option<(StreamDescriptor, bytes)>
    requires Lawful(c)
  {
    if first.None? then None
    else match DecodeDescriptor(sha, unmarshal, sdHash, first.value)
      case None => None
      case Some(d) =>
        match DecryptEach(c, d.key, Content(d.blobs), answers)
        case None => None
        case Some(parts) => Some((d, Concat(parts)))
  }

  function Firsts(plain: nat -> bytes, n: nat): seq<bytes> {
    if n == 0 then [] else Firsts(plain, n - 1) + [plain(n - 1)]
  }

  predicate AllAnswered(answers: nat -> Option<bytes>, n: nat) {
    n == 0 || (AllAnswered(answers, n - 1) && answers(n - 1).Some?)
  }

  /** If every answer opens to what is expected, the collection is what is expected, or lacks an answer. */
  lemma {:induction false} CollectGives(open: nat -> Option<bytes>, answers: nat -> Option<bytes>, plain: nat -> bytes, n: nat)
    requires forall k: nat :: k < n ==> open(k) == if answers(k).Some? then Some(plain(k)) else None
    ensures Collect(open, n) == if AllAnswered(answers, n) then Some(Firsts(plain, n)) else None
  {
    if n > 0 {
      CollectGives(open, answers, plain, n - 1);
      assert open(n - 1) == if answers(n - 1).Some? then Some(plain(n - 1)) else None;
    }
  }

  lemma {:induction false} CollectIsAll(c: BlockCipher, store: map<bytes, bytes>, key: bytes, infos: seq<BlobInfo>,
                                        open: nat -> Option<bytes>, n: nat)
    requires Lawful(c) && n <= |infos| && forall k: nat :: k < n ==> open(k) == DecryptFrom(c, store, key, infos[k])
    ensures Collect(open, n) == DecryptAll(c, store, key, infos[..n])
  {
    if n > 0 {
      var m := n - 1;
      CollectIsAll(c, store, key, infos, open, m);
      assert open(m) == DecryptFrom(c, store, key, infos[m]);
      DecryptAllStep(c, store, key, infos, m);
      assert infos[..m + 1] == infos[..n];
    }
  }

  /** When all gets look at one quiet store, this is ReadStream on that store. */
  lemma QuietRead(c: BlockCipher, sha: bytes -> bytes, unmarshal: bytes -> Option<StreamDescriptor>, store: map<bytes, bytes>,
                  sdHash: bytes, d: StreamDescriptor, answers: nat -> Option<bytes>)
    requires Lawful(c) && sdHash in store && DecodeDescriptor(sha, unmarshal, sdHash, store[sdHash]) == Some(d)
    requires forall k: nat :: k < |Content(d.blobs)| ==>
               answers(k) == var h := Content(d.blobs)[k].hash; if h in store then Some(store[h]) else None
    ensures ReadStreamFrom(c, sha, unmarshal, sdHash, Some(store[sdHash]), answers) == ReadStreamSpec(c, sha, unmarshal, store, sdHash)
  {
    var infos := Content(d.blobs);
    var open: nat -> Option<bytes> := (k: nat) => Opened(c, d.key, infos, answers, k);
    forall k: nat | k < |infos|
      ensures open(k) == DecryptFrom(c, store, d.key, infos[k])
    {
    }
    CollectIsAll(c, store, d.key, infos, open, |infos|);
    assert infos[..|infos|] == infos;
    ReadFromParts(c, sha, unmarshal, sdHash, store[sdHash], answers, d, Collect(open, |infos|));
  }

  // ---------------------------------------------------------------- reading a created stream

  /** Every answer that came is the produced blob, or the descriptor, itself. */
  ghost predicate Honest(job: Job, stream: CreatedStream, first: Option<bytes>, answers: nat -> Option<bytes>)
    requires Sound(job) && Created(job) == Some(stream)
  {
    (first.Some? ==> first.value == stream.encoded) && Genuine(job, answers)
  }

  lemma ChunkDecrypts(job: Job, infos: seq<BlobInfo>, m: nat)
    requires Sound(job) && Drawable(job, BlobCount(job)) && m < BlobCount(job) && infos == Infos(job, BlobCount(job))
    ensures DecryptBlob(job.cipher, BlobAt(job, m), Hex.Encode(Draw(job, 0)), infos[m].iv) == Some(Chunk(job, m))
  {
    assert infos[m] == InfoAt(job, m);
    DecryptInvertsEncrypt(job.cipher, Draw(job, 0), Draw(job, m + 1), Chunk(job, m));
  }

  ghost predicate Genuine(job: Job, answers: nat -> Option<bytes>)
    requires Sound(job) && Drawable(job, BlobCount(job))
  {
    forall k: nat :: k < BlobCount(job) && answers(k).Some? ==> answers(k).value == BlobAt(job, k)
  }

  lemma {:induction false} FirstsAreChunks(job: Job, plain: nat -> bytes, n: nat)
    requires forall k: nat :: plain(k) == Chunk(job, k)
    ensures Firsts(plain, n) == Chunks(job, n)
  {
    if n > 0 {
      FirstsAreChunks(job, plain, n - 1);
    }
  }

  lemma OpensToChunk(job: Job, key: bytes, infos: seq<BlobInfo>, answers: nat -> Option<bytes>, k: nat)
    requires Sound(job) && Drawable(job, BlobCount(job)) && Genuine(job, answers) && k < BlobCount(job)
    requires infos == Infos(job, BlobCount(job)) && key == Hex.Encode(Draw(job, 0))
    ensures Opened(job.cipher, key, infos, answers, k) == if answers(k).Some? then Some(Chunk(job, k)) else None
  {
    ChunkDecrypts(job, infos, k);
  }

  lemma EachGivesChunks(job: Job, key: bytes, infos: seq<BlobInfo>, answers: nat -> Option<bytes>)
    requires Sound(job) && Drawable(job, BlobCount(job)) && Genuine(job, answers)
    requires infos == Infos(job, BlobCount(job)) && key == Hex.Encode(Draw(job, 0))
    ensures DecryptEach(job.cipher, key, infos, answers)
            == if AllAnswered(answers, BlobCount(job)) then Some(Chunks(job, BlobCount(job))) else None
  {
    var n := BlobCount(job);
    var open: nat -> Option<bytes> := (k: nat) => Opened(job.cipher, key, infos, answers, k);
    var plain: nat -> bytes := (k: nat) => Chunk(job, k);
    forall k: nat | k < n
      ensures open(k) == if answers(k).Some? then Some(plain(k)) else None
    {
      OpensToChunk(job, key, infos, answers, k);
    }
    CollectGives(open, answers, plain, n);
    FirstsAreChunks(job, plain, n);
  }

  lemma ReadFromParts(c: BlockCipher, sha: bytes -> bytes, unmarshal: bytes -> Option<StreamDescriptor>, sdHash: bytes,
                      first: bytes, answers: nat -> Option<bytes>, d: StreamDescriptor, parts: Option<seq<bytes>>)
    requires Lawful(c) && DecodeDescriptor(sha, unmarshal, sdHash, first) == Some(d)
    requires DecryptEach(c, d.key, Content(d.blobs), answers) == parts
    ensures ReadStreamFrom(c, sha, unmarshal, sdHash, Some(first), answers)
            == if parts.None? then None else Some((d, Concat(parts.value)))
  {
  }

  lemma StreamParts(job: Job, stream: CreatedStream, answers: nat -> Option<bytes>)
    requires Sound(job) && Created(job) == Some(stream) && Genuine(job, answers)
    ensures DecryptEach(job.cipher, stream.descriptor.key, Content(stream.descriptor.blobs), answers)
            == if AllAnswered(answers, BlobCount(job)) then Some(Chunks(job, BlobCount(job))) else None
  {
    ContentInfos(job);
    EachGivesChunks(job, stream.descriptor.key, Infos(job, BlobCount(job)), answers);
  }

  /** From honest answers, reading succeeds exactly when every get found something, and then returns the content. */
  lemma HonestRead(job: Job, unmarshal: bytes -> Option<StreamDescriptor>, stream: CreatedStream,
                   first: Option<bytes>, answers: nat -> Option<bytes>)
    requires Sound(job) && Created(job) == Some(stream) && unmarshal(stream.encoded) == Some(stream.descriptor)
    requires Honest(job, stream, first, answers)
    ensures ReadStreamFrom(job.cipher, job.sha, unmarshal, stream.sdHash, first, answers)
            == if first.Some? && AllAnswered(answers, BlobCount(job)) then Some((stream.descriptor, job.content)) else None
  {
    if first.Some? {
      DecodesBack(job, unmarshal, stream);
      StreamParts(job, stream, answers);
      var parts := if AllAnswered(answers, BlobCount(job)) then Some(Chunks(job, BlobCount(job))) else None;
      ReadFromParts(job.cipher, job.sha, unmarshal, stream.sdHash, stream.encoded, answers, stream.descriptor, parts);
      ChunksWhole(job);
    }
  }

  // ---------------------------------------------------------------- over runs

  /** When a get looked at the map and when it looked at the file. */
  datatype Looks = Looks(entry: nat, file: nat)

  ghost predicate Within(looks: Looks, states: seq<BlobStore.State>) {
    looks.entry <= looks.file < |states|
  }

  function Answer(env: BlobStore.Env, states: seq<BlobStore.State>, looks: Looks, h: bytes): Option<bytes>
    requires looks.entry <= looks.file < |states|
  {
    LateGet(env, states[looks.entry], states[looks.file], h)
  }

  /** Nothing in any state of the run collides with a produced blob or the descriptor. */
  ghost predicate NoClashIn(job: Job, stream: CreatedStream, env: BlobStore.Env, states: seq<BlobStore.State>)
    requires Sound(job) && Created(job) == Some(stream)
  {
    forall looks: Looks, h: bytes :: Within(looks, states) && Answer(env, states, looks, h).Some? ==>
      Distinguished(job, stream, Answer(env, states, looks, h).value)
  }

  ghost predicate Distinguished(job: Job, stream: CreatedStream, data: bytes)
    requires Sound(job) && Created(job) == Some(stream)
  {
    && (HashText(job, data) == HashText(job, stream.encoded) ==> data == stream.encoded)
    && forall k: nat :: k < BlobCount(job) && HashText(job, data) == HashText(job, BlobAt(job, k)) ==> data == BlobAt(job, k)
  }

  /** The hashes of the produced blobs, by number. */
  ghost predicate HashesOf(job: Job, hash: nat -> bytes)
    requires Sound(job) && Drawable(job, BlobCount(job))
  {
    forall k: nat :: k < BlobCount(job) ==> hash(k) == HashText(job, BlobAt(job, k))
  }

  /** The answers are those of gets for these hashes that looked when `looks` says. */
  ghost predicate Answered(env: BlobStore.Env, states: seq<BlobStore.State>, looks: nat -> Looks, hash: nat -> bytes,
                           answers: nat -> Option<bytes>, n: nat)
  {
    forall k: nat :: k < n ==> Within(looks(k), states) && answers(k) == Answer(env, states, looks(k), hash(k))
  }

  /**
   In every run of the manager, with every get's two looks anywhere in it and any steps between
   them, ReadStream of a created stream succeeds exactly when every get finds something, and
   then returns exactly the published content, barring a collision.
   */
  lemma InterleavedRead(job: Job, unmarshal: bytes -> Option<StreamDescriptor>, stream: CreatedStream,
                        env: BlobStore.Env, states: seq<BlobStore.State>, steps: seq<BlobStore.Step>,
                        sdLooks: Looks, looks: nat -> Looks, hash: nat -> bytes, first: Option<bytes>, answers: nat -> Option<bytes>)
    requires Sound(job) && Created(job) == Some(stream) && unmarshal(stream.encoded) == Some(stream.descriptor)
    requires env == BlobStore.Daemon(job.sha, env.hasDir, env.persist) && (env.persist ==> env.hasDir)
    requires BlobStore.IsRun(env, states, steps) && NoClashIn(job, stream, env, states) && HashesOf(job, hash)
    requires Within(sdLooks, states) && first == Answer(env, states, sdLooks, stream.sdHash)
    requires Answered(env, states, looks, hash, answers, BlobCount(job))
    ensures ReadStreamFrom(job.cipher, job.sha, unmarshal, stream.sdHash, first, answers)
            == if first.Some? && AllAnswered(answers, BlobCount(job)) then Some((stream.descriptor, job.content)) else None
  {
    BlobStore.DaemonEnvValid(job.sha, env.hasDir, env.persist);
    AnswerHonest(job, stream, env, states, steps, sdLooks, stream.sdHash);
    forall k: nat | k < BlobCount(job) && answers(k).Some?
      ensures answers(k).value == BlobAt(job, k)
    {
      AnswerHonest(job, stream, env, states, steps, looks(k), hash(k));
    }
    HonestRead(job, unmarshal, stream, first, answers);
  }

  /** From state i on h is cached, and nothing removes it before the second of the looks. */
  ghost predicate Available(states: seq<BlobStore.State>, steps: seq<BlobStore.Step>, i: nat, looks: Looks, h: bytes)
    requires |states| == |steps| + 1
  {
    i <= looks.entry && Within(looks, states) && Present(states[i], h) && Kept(states, steps, i, looks.file, h)
  }

  ghost predicate AllAvailable(states: seq<BlobStore.State>, steps: seq<BlobStore.Step>, i: nat, looks: nat -> Looks, hash: nat -> bytes, n: nat)
    requires |states| == |steps| + 1
  {
    forall k: nat :: k < n ==> Available(states, steps, i, looks(k), hash(k))
  }

  lemma {:induction false} AnswersCome(env: BlobStore.Env, states: seq<BlobStore.State>, steps: seq<BlobStore.Step>, i: nat,
                                       looks: nat -> Looks, hash: nat -> bytes, answers: nat -> Option<bytes>, n: nat)
    requires BlobStore.ValidEnv(env) && BlobStore.IsRun(env, states, steps)
    requires AllAvailable(states, steps, i, looks, hash, n) && Answered(env, states, looks, hash, answers, n)
    ensures AllAnswered(answers, n)
  {
    if n > 0 {
      AnswersCome(env, states, steps, i, looks, hash, answers, n - 1);
      AnswerComes(env, states, steps, i, looks(n - 1), hash(n - 1));
    }
  }

  /** A published stream that nothing removes reads back in every interleaving, barring a collision. */
  lemma LastingStreamReadsBack(job: Job, unmarshal: bytes -> Option<StreamDescriptor>, stream: CreatedStream,
                               env: BlobStore.Env, states: seq<BlobStore.State>, steps: seq<BlobStore.Step>, i: nat,
                               sdLooks: Looks, looks: nat -> Looks, hash: nat -> bytes, first: Option<bytes>, answers: nat -> Option<bytes>)
    requires Sound(job) && Created(job) == Some(stream) && unmarshal(stream.encoded) == Some(stream.descriptor)
    requires env == BlobStore.Daemon(job.sha, env.hasDir, env.persist) && (env.persist ==> env.hasDir)
    requires BlobStore.IsRun(env, states, steps) && NoClashIn(job, stream, env, states) && HashesOf(job, hash)
    requires Available(states, steps, i, sdLooks, stream.sdHash) && first == Answer(env, states, sdLooks, stream.sdHash)
    requires AllAvailable(states, steps, i, looks, hash, BlobCount(job)) && Answered(env, states, looks, hash, answers, BlobCount(job))
    ensures ReadStreamFrom(job.cipher, job.sha, unmarshal, stream.sdHash, first, answers)
            == Some((stream.descriptor, job.content))
  {
    BlobStore.DaemonEnvValid(job.sha, env.hasDir, env.persist);
    AnswerComes(env, states, steps, i, sdLooks, stream.sdHash);
    AnswersCome(env, states, steps, i, looks, hash, answers, BlobCount(job));
    InterleavedRead(job, unmarshal, stream, env, states, steps, sdLooks, looks, hash, first, answers);
  }

  lemma AnswerComes(env: BlobStore.Env, states: seq<BlobStore.State>, steps: seq<BlobStore.Step>, i: nat, looks: Looks, h: bytes)
    requires BlobStore.ValidEnv(env) && BlobStore.IsRun(env, states, steps) && Available(states, steps, i, looks, h)
    ensures Answer(env, states, looks, h).Some?
  {
    LateGetAnswers(env, states, steps, i, looks.entry, looks.file, h);
  }

  lemma AnswerHonest(job: Job, stream: CreatedStream, env: BlobStore.Env, states: seq<BlobStore.State>,
                     steps: seq<BlobStore.Step>, looks: Looks, h: bytes)
    requires Sound(job) && Created(job) == Some(stream) && env == BlobStore.Daemon(job.sha, env.hasDir, env.persist)
    requires BlobStore.ValidEnv(env) && BlobStore.IsRun(env, states, steps)
    requires NoClashIn(job, stream, env, states) && Within(looks, states)
    ensures var r := Answer(env, states, looks, h);
            r.Some? ==> HashText(job, r.value) == h && Distinguished(job, stream, r.value)
  {
    LateGetMatches(env, states, steps, looks.entry, looks.file, h);
  }
}
