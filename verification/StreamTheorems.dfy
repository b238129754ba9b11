/** Creating a stream and reading it back, across blob/creator.go, blob/descriptor.go and blob/manager.go. */
module StreamTheorems {
  import opened Base
  import Hex
  import opened Cipher
  import opened JsonText
  import opened Descriptor
  import opened Validation
  import opened Creator
  import opened StreamReader
  import BlobStore
  import DescriptorJson

  // ---------------------------------------------------------------- what creation builds

  /** Everything CreateStreamDescriptor checks before it looks at the finished descriptor. */
  predicate Ready(job: Job) {
    && job.content != [] && BlobCount(job) + 1 <= MAX_DESCRIPTOR_BLOBS
    && Drawable(job, BlobCount(job) + 1)
  }

  lemma EncodedHash(job: Job, data: bytes)
    requires Sound(job)
    ensures Hex.Canonical(HashText(job, data))
  {
    Hex.CanonicalIffDigest(HashText(job, data));
  }

  lemma ChunkSize(job: Job, i: nat)
    requires i < BlobCount(job)
    ensures 1 <= |Chunk(job, i)| <= CHUNK
    ensures i + 1 < BlobCount(job) ==> |Chunk(job, i)| == CHUNK
  {
  }

  /** Each data blob is AES-aligned and holds between 16 bytes and 2 MiB. */
  lemma BlobSize(job: Job, i: nat)
    requires Lawful(job.cipher) && Drawable(job, i + 1) && i < BlobCount(job)
    ensures 16 <= |BlobAt(job, i)| <= MAX_BLOB_SIZE && |BlobAt(job, i)| % 16 == 0
    ensures i + 1 < BlobCount(job) ==> |BlobAt(job, i)| == MAX_BLOB_SIZE
  {
    ChunkSize(job, i);
  }

  lemma DrawHex(job: Job, j: nat)
    requires Drawable(job, j)
    ensures HexOf16(Hex.Encode(Draw(job, j)))
  {
    Hex.DecodeEncode(Draw(job, j));
  }

  /** The built descriptor passes every structural check: one entry per chunk, in order, then the terminator. */
  lemma BuiltStructure(job: Job)
    requires Sound(job) && Ready(job)
    ensures StructureOk(Built(job)) && |Built(job).blobs| == BlobCount(job) + 1
  {
    var d, n := Built(job), BlobCount(job);
    DrawHex(job, 0);
    forall i | 0 <= i < |d.blobs|
      ensures HexOf16(d.blobs[i].iv) && d.blobs[i].num == i && (i < n ==> DataItemOk(d.blobs[i]))
    {
      BuiltEntry(job, i);
    }
  }

  lemma BuiltEntry(job: Job, i: nat)
    requires Sound(job) && Ready(job) && i <= BlobCount(job)
    ensures var item := Built(job).blobs[i];
            HexOf16(item.iv) && item.num == i && (i < BlobCount(job) ==> DataItemOk(item))
  {
    DrawHex(job, i + 1);
    if i < BlobCount(job) {
      assert Built(job).blobs[i] == InfoAt(job, i);
      InfoOk(job, i);
    } else {
      assert Built(job).blobs[i] == Terminator(job, i);
    }
  }

  lemma InfoOk(job: Job, i: nat)
    requires Sound(job) && Drawable(job, i + 1) && i < BlobCount(job)
    ensures DataItemOk(InfoAt(job, i))
  {
    BlobSize(job, i);
    EncodedHash(job, BlobAt(job, i));
  }

  lemma NameNormalized(name: bytes)
    ensures Normalized(Hex.Encode(name)) == if ValidUtf8(name) then Some(Hex.Encode(name)) else None
  {
    Hex.DecodeEncode(name);
  }

  /** A created descriptor can be refused only for its encoded size or for a name that is not UTF-8. */
  lemma BuiltVerdict(job: Job)
    requires Sound(job) && Ready(job)
    ensures Judge(job.sha, Built(job)) ==
            if |Marshal(Built(job))| > MAX_DESCRIPTOR_SIZE then TooLarge
            else if !ValidUtf8(job.fileName) || !ValidUtf8(job.suggested) then BadMetadata
            else Accepted
  {
    BuiltStructure(job);
    NameNormalized(job.fileName);
    NameNormalized(job.suggested);
    if ValidUtf8(job.fileName) && ValidUtf8(job.suggested) {
      BuiltHash(job);
    }
  }

  lemma BuiltHash(job: Job)
    requires Sound(job) && Ready(job) && ValidUtf8(job.fileName) && ValidUtf8(job.suggested)
    ensures MetadataOk(Built(job)) && HashOk(job.sha, Built(job))
  {
    NameNormalized(job.fileName);
    NameNormalized(job.suggested);
    SameStreamHash(job.sha, Unsealed(job), Built(job));
  }

  /** Creation succeeds exactly when it is ready, the names are UTF-8 and the descriptor fits. */
  lemma SealedIff(job: Job)
    requires Sound(job)
    ensures Created(job).Some? <==>
              && Ready(job) && ValidUtf8(job.fileName) && ValidUtf8(job.suggested)
              && |Marshal(Built(job))| <= MAX_DESCRIPTOR_SIZE
  {
    if Ready(job) {
      BuiltVerdict(job);
    }
  }

  // ---------------------------------------------------------------- the round trip

  /** No two different ones among the produced blobs and the descriptor share a digest. */
  predicate CollisionFree(job: Job, encoded: bytes)
    requires Lawful(job.cipher) && Drawable(job, BlobCount(job))
  {
    && (forall i: nat, j: nat | i < BlobCount(job) && j < BlobCount(job) ::
          HashText(job, BlobAt(job, i)) == HashText(job, BlobAt(job, j)) ==> BlobAt(job, i) == BlobAt(job, j))
    && (forall i: nat | i < BlobCount(job) ::
          HashText(job, BlobAt(job, i)) == HashText(job, encoded) ==> BlobAt(job, i) == encoded)
  }

  /** maps(k) holds the first k pairs. */
  ghost predicate Grows(key: nat -> bytes, value: nat -> bytes, maps: nat -> map<bytes, bytes>, n: nat) {
    && maps(0) == map[]
    && forall k: nat, next: nat {:trigger maps(k), maps(next)} :: next == k + 1 <= n ==> maps(next) == maps(k)[key(k) := value(k)]
  }

  lemma {:induction false} GrownHolds(key: nat -> bytes, value: nat -> bytes, maps: nat -> map<bytes, bytes>, n: nat, m: nat, i: nat)
    requires Grows(key, value, maps, n) && i < m <= n
    requires forall j: nat :: j < n && key(j) == key(i) ==> value(j) == value(i)
    ensures key(i) in maps(m) && maps(m)[key(i)] == value(i)
  {
    assert maps(m) == maps(m - 1)[key(m - 1) := value(m - 1)];
    if i < m - 1 {
      GrownHolds(key, value, maps, n, m - 1, i);
    }
  }

  lemma {:induction false} GrownFrom(key: nat -> bytes, value: nat -> bytes, maps: nat -> map<bytes, bytes>, n: nat, m: nat, h: bytes)
    returns (i: nat)
    requires Grows(key, value, maps, n) && m <= n && h in maps(m)
    ensures i < m && h == key(i) && maps(m)[h] == value(i)
  {
    assert m > 0 && maps(m) == maps(m - 1)[key(m - 1) := value(m - 1)];
    if h == key(m - 1) {
      i := m - 1;
    } else {
      i := GrownFrom(key, value, maps, n, m - 1, h);
    }
  }

  /** The blob map is filled pair by pair. */
  lemma BlobMapGrows(job: Job, n: nat) returns (key: nat -> bytes, value: nat -> bytes, maps: nat -> map<bytes, bytes>)
    requires Lawful(job.cipher) && Drawable(job, n)
    ensures Grows(key, value, maps, n) && maps(n) == BlobMap(job, n)
    ensures forall i: nat :: i < n ==> value(i) == BlobAt(job, i) && key(i) == HashText(job, BlobAt(job, i))
  {
    value := (i: nat) => if i < n then BlobAt(job, i) else [];
    key := (i: nat) => if i < n then HashText(job, BlobAt(job, i)) else [];
    maps := (k: nat) => if k <= n then BlobMap(job, k) else map[];
  }

  lemma BlobMapHolds(job: Job, encoded: bytes, i: nat)
    requires Lawful(job.cipher) && Drawable(job, BlobCount(job)) && CollisionFree(job, encoded) && i < BlobCount(job)
    ensures HashText(job, BlobAt(job, i)) in BlobMap(job, BlobCount(job))
    ensures BlobMap(job, BlobCount(job))[HashText(job, BlobAt(job, i))] == BlobAt(job, i)
  {
    var n := BlobCount(job);
    var key, value, maps := BlobMapGrows(job, n);
    GrownHolds(key, value, maps, n, n, i);
  }

  function Chunks(job: Job, n: nat): seq<bytes> {
    if n == 0 then [] else Chunks(job, n - 1) + [Chunk(job, n - 1)]
  }

  /** The chunks tile the content. */
  lemma {:induction false} ChunksTile(job: Job, n: nat)
    ensures Concat(Chunks(job, n)) == job.content[..Boundary(job, n)]
  {
    if n > 0 {
      ChunksTile(job, n - 1);
      ConcatSnoc(Chunks(job, n - 1), Chunk(job, n - 1));
      assert Boundary(job, n - 1) <= Boundary(job, n);
    }
  }

  /** The store holds every produced blob under its hash. */
  predicate Holds(job: Job, store: map<bytes, bytes>)
    requires Lawful(job.cipher) && Drawable(job, BlobCount(job))
  {
    forall i: nat :: i < BlobCount(job) ==>
      HashText(job, BlobAt(job, i)) in store && store[HashText(job, BlobAt(job, i))] == BlobAt(job, i)
  }

  lemma {:induction false} DecryptsToChunks(job: Job, store: map<bytes, bytes>, n: nat)
    requires Sound(job) && Drawable(job, BlobCount(job)) && n <= BlobCount(job) && Holds(job, store)
    ensures DecryptAll(job.cipher, store, Hex.Encode(Draw(job, 0)), Infos(job, n)) == Some(Chunks(job, n))
  {
    if n > 0 {
      var m, key := n - 1, Hex.Encode(Draw(job, 0));
      DecryptsToChunks(job, store, m);
      DecryptsToChunk(job, store, m);
      DecryptAllSnoc(job.cipher, store, key, Infos(job, m), InfoAt(job, m), Chunks(job, m), Chunk(job, m));
    }
  }

  lemma DecryptsToChunk(job: Job, store: map<bytes, bytes>, i: nat)
    requires Sound(job) && Drawable(job, BlobCount(job)) && i < BlobCount(job) && Holds(job, store)
    ensures DecryptFrom(job.cipher, store, Hex.Encode(Draw(job, 0)), InfoAt(job, i)) == Some(Chunk(job, i))
  {
    assert InfoAt(job, i).hash == HashText(job, BlobAt(job, i));
    DecryptInvertsEncrypt(job.cipher, Draw(job, 0), Draw(job, i + 1), Chunk(job, i));
  }

  lemma DecryptAllSnoc(c: BlockCipher, store: map<bytes, bytes>, key: bytes, infos: seq<BlobInfo>, info: BlobInfo,
                       parts: seq<bytes>, part: bytes)
    requires Lawful(c) && DecryptAll(c, store, key, infos) == Some(parts) && DecryptFrom(c, store, key, info) == Some(part)
    ensures DecryptAll(c, store, key, infos + [info]) == Some(parts + [part])
  {
    assert (infos + [info])[..|infos|] == infos;
  }

  /** Every entry of the blob map is a produced blob under its own hash. */
  lemma BlobMapEntry(job: Job, n: nat, h: bytes) returns (i: nat)
    requires Sound(job) && Drawable(job, n) && h in BlobMap(job, n)
    ensures i < n && h == HashText(job, BlobAt(job, i)) && BlobMap(job, n)[h] == BlobAt(job, i)
  {
    var key, value, maps := BlobMapGrows(job, n);
    i := GrownFrom(key, value, maps, n, n, h);
  }

  /** What a store that held `before` holds once the descriptor and then the blobs were set. */
  function Published(before: map<bytes, bytes>, stream: CreatedStream): map<bytes, bytes> {
    before[stream.sdHash := stream.encoded] + stream.blobs
  }

  lemma PublishedHolds(job: Job, before: map<bytes, bytes>, stream: CreatedStream)
    requires Sound(job) && Created(job) == Some(stream) && CollisionFree(job, stream.encoded)
    ensures Holds(job, Published(before, stream))
    ensures stream.sdHash in Published(before, stream) && Published(before, stream)[stream.sdHash] == stream.encoded
  {
    forall i: nat | i < BlobCount(job)
      ensures var h := HashText(job, BlobAt(job, i));
              h in Published(before, stream) && Published(before, stream)[h] == BlobAt(job, i)
    {
      BlobMapHolds(job, stream.encoded, i);
    }
    if stream.sdHash in stream.blobs {
      var i := BlobMapEntry(job, BlobCount(job), stream.sdHash);
    }
  }

  /**
   Whenever creation succeeds, publishing the result into any store and reading it back gives
   the original content, provided JSON decoding inverts the printer on this descriptor and
   the produced byte strings do not collide under SHA-384.
   */
  lemma RoundTrip(job: Job, unmarshal: bytes -> Option<StreamDescriptor>,
                  before: map<bytes, bytes>, stream: CreatedStream)
    requires Sound(job) && Created(job) == Some(stream) && CollisionFree(job, stream.encoded)
    requires unmarshal(stream.encoded) == Some(stream.descriptor)
    ensures ReadStreamSpec(job.cipher, job.sha, unmarshal, Published(before, stream), stream.sdHash)
            == Some((stream.descriptor, job.content))
  {
    var d, store := stream.descriptor, Published(before, stream);
    DecodesBack(job, unmarshal, stream);
    PublishedHolds(job, before, stream);
    DecryptsBack(job, store);
  }

  lemma BuiltUtf8(job: Job)
    requires Sound(job) && Drawable(job, BlobCount(job) + 1)
    ensures DescriptorJson.AllUtf8(Built(job))
  {
    var d, n := Built(job), BlobCount(job);
    EncodedUtf8(job.fileName);
    EncodedUtf8(job.suggested);
    EncodedUtf8(Draw(job, 0));
    StreamHashUtf8(job.sha, Unsealed(job));
    StreamTypeUtf8();
    forall i | 0 <= i < |d.blobs|
      ensures DescriptorJson.EntryUtf8(d.blobs[i])
    {
      EntriesUtf8(job, i);
    }
  }

  lemma StreamHashUtf8(sha: bytes -> bytes, d: StreamDescriptor)
    ensures ValidUtf8(StreamHash(sha, d))
  {
    EncodedUtf8(sha(d.streamName + d.key + d.suggestedFileName + sha(ItemDigests(sha, d.blobs))));
  }

  lemma EntriesUtf8(job: Job, i: nat)
    requires Sound(job) && Drawable(job, i + 1)
    ensures DescriptorJson.EntryUtf8(InfoAt(job, i)) && DescriptorJson.EntryUtf8(Terminator(job, i))
  {
    EncodedUtf8(Draw(job, i + 1));
    EncodedUtf8(job.sha(BlobAt(job, i)));
  }

  lemma StreamTypeUtf8()
    ensures ValidUtf8(Ascii("lbryfile"))
  {
    AsciiUtf8(Ascii("lbryfile"));
  }

  lemma {:induction false} AsciiUtf8(s: bytes)
    requires forall i :: 0 <= i < |s| ==> s[i] < 0x80
    ensures ValidUtf8(s)
  {
    if s != [] {
      AsciiUtf8(s[1..]);
    }
  }

  lemma EncodedUtf8(data: bytes)
    ensures ValidUtf8(Hex.Encode(data))
  {
    Hex.DecodeEncode(data);
    Hex.DecodesIffDigits(Hex.Encode(data));
    HexPlain(Hex.Encode(data));
  }

  /** The same round trip for every decoder that takes the fields of the printed JSON object by name. */
  lemma RoundTripByName(job: Job, unmarshal: bytes -> Option<StreamDescriptor>,
                        before: map<bytes, bytes>, stream: CreatedStream)
    requires Sound(job) && Created(job) == Some(stream) && CollisionFree(job, stream.encoded)
    requires DescriptorJson.ReadsByName(unmarshal, stream.encoded)
    ensures ReadStreamSpec(job.cipher, job.sha, unmarshal, Published(before, stream), stream.sdHash)
            == Some((stream.descriptor, job.content))
  {
    BuiltUtf8(job);
    DescriptorJson.PrintedReadsBack(unmarshal, stream.descriptor);
    RoundTrip(job, unmarshal, before, stream);
  }

  lemma DecodesBack(job: Job, unmarshal: bytes -> Option<StreamDescriptor>, stream: CreatedStream)
    requires Sound(job) && Created(job) == Some(stream)
    requires unmarshal(stream.encoded) == Some(stream.descriptor)
    ensures DecodeDescriptor(job.sha, unmarshal, stream.sdHash, stream.encoded) == Some(stream.descriptor)
  {
    var d := stream.descriptor;
    BuiltStructure(job);
    EncodedHash(job, stream.encoded);
    MarshalNonempty(d);
    KeyNonempty(job);
  }

  lemma KeyNonempty(job: Job)
    requires Sound(job) && Ready(job)
    ensures Built(job).key != []
  {
  }

  lemma DecryptsBack(job: Job, store: map<bytes, bytes>)
    requires Sound(job) && Ready(job) && Holds(job, store)
    ensures var parts := DecryptAll(job.cipher, store, Built(job).key, Content(Built(job).blobs));
            parts.Some? && Concat(parts.value) == job.content
  {
    ContentInfos(job);
    DecryptsToChunks(job, store, BlobCount(job));
    ChunksWhole(job);
  }

  lemma ContentInfos(job: Job)
    requires Sound(job) && Ready(job)
    ensures Content(Built(job).blobs) == Infos(job, BlobCount(job))
  {
    BuiltStructure(job);
    ContentIsAllButTerminator(Built(job));
    assert Built(job).blobs[..BlobCount(job)] == Infos(job, BlobCount(job));
  }

  lemma ChunksWhole(job: Job)
    ensures Concat(Chunks(job, BlobCount(job))) == job.content
  {
    ChunksTile(job, BlobCount(job));
    assert Boundary(job, BlobCount(job)) == |job.content|;
    assert job.content[..|job.content|] == job.content;
  }

  lemma MarshalNonempty(d: StreamDescriptor)
    ensures Marshal(d) != []
  {
    RenderAppend([OPENING], Entries(d.blobs, true, Fields(Members(d)), Sorted));
    RenderOne(OPENING);
  }

  /** Every produced blob and the descriptor pass the checks at the head of Set. */
  lemma PublishedIsAccepted(job: Job, stream: CreatedStream, hasDir: bool, persist: bool)
    requires Sound(job) && Created(job) == Some(stream)
    ensures BlobStore.Accepts(BlobStore.Daemon(job.sha, hasDir, persist), stream.sdHash, stream.encoded)
    ensures forall i: nat :: i < BlobCount(job) ==>
              BlobStore.Accepts(BlobStore.Daemon(job.sha, hasDir, persist),
                                HashText(job, BlobAt(job, i)), BlobAt(job, i))
  {
    MarshalNonempty(stream.descriptor);
    EncodedHash(job, stream.encoded);
    forall i: nat | i < BlobCount(job)
      ensures BlobStore.Accepts(BlobStore.Daemon(job.sha, hasDir, persist),
                                HashText(job, BlobAt(job, i)), BlobAt(job, i))
    {
      BlobSize(job, i);
      EncodedHash(job, BlobAt(job, i));
    }
  }
}
