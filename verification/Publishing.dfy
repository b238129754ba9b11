/** A created stream taken through the manager: the descriptor set, then every blob, then the stream read back. */
module Publishing {
  import opened Base
  import opened Descriptor
  import opened Creator
  import opened StreamReader
  import opened StreamTheorems
  import BlobStore
  import BlobManager

  lemma EntryAccepted(job: Job, stream: CreatedStream, hasDir: bool, persist: bool, h: bytes)
    requires Sound(job) && Created(job) == Some(stream) && h in stream.blobs
    ensures BlobStore.Accepts(BlobStore.Daemon(job.sha, hasDir, persist), h, stream.blobs[h])
  {
    PublishedIsAccepted(job, stream, hasDir, persist);
    var i := BlobMapEntry(job, BlobCount(job), h);
  }

  /** The blobs whose hashes are no longer pending. */
  ghost function Stored(blobs: map<bytes, bytes>, pending: set<bytes>): map<bytes, bytes> {
    map h | h in blobs && h !in pending :: blobs[h]
  }

  lemma StoredNext(before: map<bytes, bytes>, blobs: map<bytes, bytes>, pending: set<bytes>, h: bytes)
    requires h in pending && h in blobs
    ensures (before + Stored(blobs, pending))[h := blobs[h]] == before + Stored(blobs, pending - {h})
  {
  }

  lemma StoredEnds(before: map<bytes, bytes>, blobs: map<bytes, bytes>)
    ensures before + Stored(blobs, blobs.Keys) == before && before + Stored(blobs, {}) == before + blobs
  {
    assert Stored(blobs, blobs.Keys) == map[];
    assert Stored(blobs, {}) == blobs;
  }

  ghost predicate AllAccepted(env: BlobStore.Env, blobs: map<bytes, bytes>) {
    forall h :: h in blobs ==> BlobStore.Accepts(env, h, blobs[h])
  }

  ghost predicate Writable(env: BlobStore.Env, hashes: set<bytes>, writes: bytes -> bool) {
    env.persist ==> forall h :: h in hashes ==> writes(h)
  }

  /** Some of the blobs were stored, but not all, and nothing else changed. */
  ghost predicate SomeStored(before: map<bytes, bytes>, blobs: map<bytes, bytes>, after: map<bytes, bytes>) {
    exists pending: set<bytes> :: pending != {} && pending <= blobs.Keys && after == before + Stored(blobs, pending)
  }

  /** Sets blobs in any order until a write fails; `writes` says which file writes succeed. */
  method SetAll(manager: BlobManager.BlobManager, blobs: map<bytes, bytes>, writes: bytes -> bool) returns (ok: bool)
    requires manager.Valid() && manager.lock == BlobStore.Free && AllAccepted(manager.env, blobs)
    modifies manager
    ensures manager.Valid() && manager.lock == BlobStore.Free
    ensures ok <==> Writable(manager.env, blobs.Keys, writes)
    ensures ok ==> manager.View() == old(manager.View()) + blobs
    ensures !ok ==> SomeStored(old(manager.View()), blobs, manager.View())
  {
    ghost var before := manager.View();
    var pending := blobs.Keys;
    StoredEnds(before, blobs);
    ok := true;
    while pending != {}
      invariant pending <= blobs.Keys && manager.Valid() && manager.lock == BlobStore.Free && ok
      invariant manager.View() == before + Stored(blobs, pending)
      invariant Writable(manager.env, blobs.Keys - pending, writes)
      decreases pending
    {
      var h :| h in pending;
      ok := manager.Set(h, blobs[h], writes(h));
      if !ok {
        assert manager.View() == before + Stored(blobs, pending);
        return;
      }
      StoredNext(before, blobs, pending, h);
      pending := pending - {h};
    }
  }

  /** The manager's part of persistCreatedStream: the descriptor first, then every blob. */
  method PersistCreatedStream(manager: BlobManager.BlobManager, job: Job, stream: CreatedStream, writes: bytes -> bool)
    returns (ok: bool)
    requires Sound(job) && Created(job) == Some(stream)
    requires manager.Valid() && manager.lock == BlobStore.Free
    requires manager.env == BlobStore.Daemon(job.sha, manager.env.hasDir, manager.env.persist)
    modifies manager
    ensures manager.Valid() && manager.lock == BlobStore.Free
    ensures ok <==> Writable(manager.env, stream.blobs.Keys + {stream.sdHash}, writes)
    ensures ok ==> manager.View() == Published(old(manager.View()), stream)
    ensures !ok ==> if writes(stream.sdHash) then SomeStored(old(manager.View())[stream.sdHash := stream.encoded], stream.blobs, manager.View())
                    else manager.View() == old(manager.View())
  {
    AllEntriesAccepted(job, stream, manager.env);
    ok := manager.Set(stream.sdHash, stream.encoded, writes(stream.sdHash));
    if ok {
      ok := SetAll(manager, stream.blobs, writes);
    }
  }

  lemma AllEntriesAccepted(job: Job, stream: CreatedStream, env: BlobStore.Env)
    requires Sound(job) && Created(job) == Some(stream) && env == BlobStore.Daemon(job.sha, env.hasDir, env.persist)
    ensures BlobStore.Accepts(env, stream.sdHash, stream.encoded) && AllAccepted(env, stream.blobs)
  {
    PublishedIsAccepted(job, stream, env.hasDir, env.persist);
    forall h | h in stream.blobs
      ensures BlobStore.Accepts(env, h, stream.blobs[h])
    {
      EntryAccepted(job, stream, env.hasDir, env.persist, h);
    }
  }

  /**
   The round trip through the manager itself: persisting succeeds exactly when every write
   does, and ReadStream then returns the descriptor and exactly the original content.
   */
  method PersistAndRead(manager: BlobManager.BlobManager, job: Job, unmarshal: bytes -> Option<StreamDescriptor>,
                        stream: CreatedStream, writes: bytes -> bool)
    returns (ok: bool, r: Option<(StreamDescriptor, bytes)>)
    requires Sound(job) && Created(job) == Some(stream) && CollisionFree(job, stream.encoded)
    requires unmarshal(stream.encoded) == Some(stream.descriptor)
    requires manager.Valid() && manager.lock == BlobStore.Free
    requires manager.env == BlobStore.Daemon(job.sha, manager.env.hasDir, manager.env.persist)
    modifies manager
    ensures ok <==> Writable(manager.env, stream.blobs.Keys + {stream.sdHash}, writes)
    ensures ok ==> r == Some((stream.descriptor, job.content))
  {
    ghost var before := manager.View();
    ok := PersistCreatedStream(manager, job, stream, writes);
    r := ReadStream(manager, job.cipher, job.sha, unmarshal, stream.sdHash);
    RoundTrip(job, unmarshal, before, stream);
  }
}
