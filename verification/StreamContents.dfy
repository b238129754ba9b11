/** What accepted and created descriptors consist of, octet by octet. */
module StreamContents {
  import opened Base
  import Hex
  import opened Cipher
  import opened JsonText
  import opened JsonValues
  import opened Descriptor
  import opened Validation
  import opened Creator
  import opened StreamTheorems

  // ---------------------------------------------------------------- the stream hash

  /** The digest input of one entry: its hash unless it is empty, number, IV and length, the numbers in decimal. */
  ghost predicate Digested(item: BlobInfo, text: bytes) {
    exists num: bytes, length: bytes ::
      && IntegerValue(num) == Some(item.num) && IntegerValue(length) == Some(item.length)
      && text == (if item.length == 0 then [] else item.hash) + (num + (item.iv + length))
  }

  ghost predicate AllDigested(blobs: seq<BlobInfo>, texts: seq<bytes>) {
    |texts| == |blobs| && forall i :: 0 <= i < |blobs| ==> Digested(blobs[i], texts[i])
  }

  function Digests(sha: bytes -> bytes, texts: seq<bytes>): seq<bytes> {
    seq(|texts|, i requires 0 <= i < |texts| => sha(texts[i]))
  }

  lemma ItemDigested(item: BlobInfo)
    ensures Digested(item, ItemText(item))
  {
    SignedValue(item.num);
    SignedValue(item.length);
    DigestedBy(item, if item.length == 0 then [] else item.hash, Signed(item.num), Signed(item.length));
  }

  lemma DigestedBy(item: BlobInfo, hash: bytes, num: bytes, length: bytes)
    requires hash == if item.length == 0 then [] else item.hash
    requires IntegerValue(num) == Some(item.num) && IntegerValue(length) == Some(item.length)
    ensures Digested(item, hash + num + item.iv + length)
  {
    Regroup(hash + num, item.iv, length);
    Regroup(hash, num, item.iv + length);
  }

  lemma {:induction false} DigestsInOrder(sha: bytes -> bytes, blobs: seq<BlobInfo>) returns (texts: seq<bytes>)
    ensures AllDigested(blobs, texts) && ItemDigests(sha, blobs) == Concat(Digests(sha, texts))
  {
    if blobs == [] {
      texts := [];
    } else {
      var before, last := blobs[..|blobs| - 1], blobs[|blobs| - 1];
      var front := DigestsInOrder(sha, before);
      texts := front + [ItemText(last)];
      ItemDigested(last);
      DigestedSnoc(before, front, last, ItemText(last));
      assert blobs == before + [last];
      DigestsSnoc(sha, front, ItemText(last));
      ItemDigestsSnoc(sha, blobs, before, last);
    }
  }

  lemma ItemDigestsSnoc(sha: bytes -> bytes, blobs: seq<BlobInfo>, before: seq<BlobInfo>, last: BlobInfo)
    requires blobs == before + [last]
    ensures ItemDigests(sha, blobs) == ItemDigests(sha, before) + sha(ItemText(last))
  {
    assert blobs[..|blobs| - 1] == before;
  }

  lemma DigestedSnoc(blobs: seq<BlobInfo>, texts: seq<bytes>, item: BlobInfo, text: bytes)
    requires AllDigested(blobs, texts) && Digested(item, text)
    ensures AllDigested(blobs + [item], texts + [text])
  {
  }

  lemma DigestsSnoc(sha: bytes -> bytes, texts: seq<bytes>, text: bytes)
    ensures Concat(Digests(sha, texts + [text])) == Concat(Digests(sha, texts)) + sha(text)
  {
    assert Digests(sha, texts + [text]) == Digests(sha, texts) + [sha(text)];
    ConcatSnoc(Digests(sha, texts), sha(text));
  }

  /** What goes into the stream hash: both names and the key, then a digest over the entries' digests in order. */
  lemma StreamHashInput(sha: bytes -> bytes, d: StreamDescriptor) returns (texts: seq<bytes>)
    ensures AllDigested(d.blobs, texts)
    ensures Hex.Decode(StreamHash(sha, d))
            == Some(sha(d.streamName + (d.key + (d.suggestedFileName + sha(Concat(Digests(sha, texts)))))))
  {
    texts := DigestsInOrder(sha, d.blobs);
    var inner := sha(Concat(Digests(sha, texts)));
    var outer := d.streamName + d.key + d.suggestedFileName + inner;
    assert outer == d.streamName + (d.key + (d.suggestedFileName + inner));
    Hex.DecodeEncode(sha(outer));
  }

  // ---------------------------------------------------------------- what is accepted

  /** The length an encrypted chunk of n octets has. */
  ghost predicate LengthOfChunk(length: int) {
    exists n: nat :: n <= CHUNK && length == n + PadLength(n)
  }

  lemma ChunkLengths(length: int)
    ensures LengthOfChunk(length) <==> 16 <= length <= MAX_BLOB_SIZE && length % 16 == 0
  {
    if 16 <= length <= MAX_BLOB_SIZE && length % 16 == 0 {
      var n := length - 1;
      assert n <= CHUNK && length == n + PadLength(n);
    }
  }

  ghost predicate Octets(text: bytes, n: nat) {
    exists data: bytes :: |data| == n && Hex.Decode(text) == Some(data)
  }

  /** Entry i of an accepted descriptor of n + 1 entries. */
  ghost predicate EntryAccepted(item: BlobInfo, i: nat, n: nat) {
    && item.num == i && Octets(item.iv, 16)
    && if i < n
       then LengthOfChunk(item.length) && exists digest: bytes :: |digest| == 48 && item.hash == Hex.Encode(digest)
       else item.length == 0 && item.hash == []
  }

  /** The descriptor hashes to its stream hash once its two names are rewritten in lower case. */
  ghost predicate HashedAs(sha: bytes -> bytes, d: StreamDescriptor, name: bytes, suggested: bytes) {
    && Hex.Decode(d.streamName) == Some(name) && ValidUtf8(name)
    && Hex.Decode(d.suggestedFileName) == Some(suggested) && ValidUtf8(suggested)
    && d.streamHash == StreamHash(sha, d.(streamName := Hex.Encode(name), suggestedFileName := Hex.Encode(suggested)))
  }

  lemma EntryExactly(item: BlobInfo, i: nat, n: nat)
    requires i <= n
    ensures EntryAccepted(item, i, n) <==>
              HexOf16(item.iv) && item.num == i && (if i < n then DataItemOk(item) else item.length == 0 && item.hash == [])
  {
    ChunkLengths(item.length);
    Hex.CanonicalIffDigest(item.hash);
  }

  lemma StructureExactly(d: StreamDescriptor)
    ensures StructureOk(d) <==>
              && 1 <= |d.blobs| <= 12_000 && Octets(d.key, 16)
              && forall i :: 0 <= i < |d.blobs| ==> EntryAccepted(d.blobs[i], i, |d.blobs| - 1)
  {
    if 1 <= |d.blobs| {
      forall i | 0 <= i < |d.blobs|
        ensures EntryAccepted(d.blobs[i], i, |d.blobs| - 1) <==>
                  && HexOf16(d.blobs[i].iv) && d.blobs[i].num == i
                  && (if i < |d.blobs| - 1 then DataItemOk(d.blobs[i]) else d.blobs[i].length == 0 && d.blobs[i].hash == [])
      {
        EntryExactly(d.blobs[i], i, |d.blobs| - 1);
      }
    }
  }

  /**
   Which descriptors are accepted: up to 12,000 entries numbered from 0, each with a 16-octet
   IV, all but the last with a SHA-384 name and a length that an encrypted chunk can have, the last
   empty; a 16-octet key; at most 2 MiB printed; and the stream hash of its UTF-8 names.
   */
  lemma AcceptedExactly(sha: bytes -> bytes, d: StreamDescriptor)
    ensures Valid(sha, d) <==>
              && 1 <= |d.blobs| <= 12_000 && Octets(d.key, 16)
              && (forall i :: 0 <= i < |d.blobs| ==> EntryAccepted(d.blobs[i], i, |d.blobs| - 1))
              && |Marshal(d)| <= 2097152
              && exists name: bytes, suggested: bytes :: HashedAs(sha, d, name, suggested)
  {
    StructureExactly(d);
    NamesExactly(sha, d);
  }

  lemma NamesExactly(sha: bytes -> bytes, d: StreamDescriptor)
    ensures MetadataOk(d) && HashOk(sha, d) <==> exists name: bytes, suggested: bytes :: HashedAs(sha, d, name, suggested)
  {
    if MetadataOk(d) && HashOk(sha, d) {
      assert HashedAs(sha, d, Hex.Decode(d.streamName).value, Hex.Decode(d.suggestedFileName).value);
    }
  }

  // ---------------------------------------------------------------- what is created

  /** Chunk i of the content: 2 MiB less one octet, or what is left. */
  function Slice(content: bytes, i: nat): bytes
    requires 2097151 * i <= |content|
  {
    content[2097151 * i..Min(2097151 * i + 2097151, |content|)]
  }

  /** Entry i of a created stream, read with nothing but the descriptor, the blob map and the key. */
  ghost predicate Entry(job: Job, stream: CreatedStream, i: nat)
    requires Lawful(job.cipher) && i < |stream.descriptor.blobs|
  {
    var d, item := stream.descriptor, stream.descriptor.blobs[i];
    && 16 * (i + 2) <= |job.random| && Hex.Decode(item.iv) == Some(job.random[16 * (i + 1)..16 * (i + 2)])
    && item.num == i
    && if i == |d.blobs| - 1 then item.hash == [] && item.length == 0
       else
         && item.hash in stream.blobs && item.length == |stream.blobs[item.hash]|
         && Hex.Decode(item.hash) == Some(job.sha(stream.blobs[item.hash]))
         && 2097151 * i < |job.content|
         && DecryptBlob(job.cipher, stream.blobs[item.hash], d.key, item.iv) == Some(Slice(job.content, i))
  }

  lemma ChunkIsSlice(job: Job, i: nat)
    requires i < BlobCount(job)
    ensures 2097151 * i < |job.content| && Chunk(job, i) == Slice(job.content, i)
  {
  }

  lemma DataEntry(job: Job, stream: CreatedStream, i: nat)
    requires Sound(job) && Created(job) == Some(stream) && CollisionFree(job, stream.encoded) && i < BlobCount(job)
    ensures i < |stream.descriptor.blobs| && Entry(job, stream, i)
  {
    var n, item := BlobCount(job), InfoAt(job, i);
    assert stream.descriptor.blobs[i] == item;
    BlobMapHolds(job, stream.encoded, i);
    Hex.DecodeEncode(Draw(job, i + 1));
    Hex.DecodeEncode(job.sha(BlobAt(job, i)));
    ChunkIsSlice(job, i);
    DecryptInvertsEncrypt(job.cipher, Draw(job, 0), Draw(job, i + 1), Chunk(job, i));
  }

  lemma LastEntry(job: Job, stream: CreatedStream)
    requires Sound(job) && Created(job) == Some(stream)
    ensures |stream.descriptor.blobs| == BlobCount(job) + 1 && Entry(job, stream, BlobCount(job))
  {
    var n := BlobCount(job);
    assert stream.descriptor.blobs[n] == Terminator(job, n);
    Hex.DecodeEncode(Draw(job, n + 1));
  }

  ghost predicate NamesAndKey(job: Job, d: StreamDescriptor) {
    && Hex.Decode(d.streamName) == Some(job.fileName) && Hex.Decode(d.suggestedFileName) == Some(job.suggested)
    && d.streamType == Ascii("lbryfile") && |job.random| >= 16 && Hex.Decode(d.key) == Some(job.random[..16])
    && d.streamHash == StreamHash(job.sha, d)
  }

  lemma BuiltNames(job: Job)
    requires Lawful(job.cipher) && Drawable(job, BlobCount(job) + 1)
    ensures NamesAndKey(job, Built(job))
  {
    Hex.DecodeEncode(job.fileName);
    Hex.DecodeEncode(job.suggested);
    Hex.DecodeEncode(Draw(job, 0));
    SameStreamHash(job.sha, Unsealed(job), Built(job));
  }

  lemma CountExact(job: Job)
    requires job.content != []
    ensures 2097151 * (BlobCount(job) - 1) < |job.content| <= 2097151 * BlobCount(job)
  {
  }

  /**
   What creation hands out: the two names, the stream type, the key and one fresh IV per entry from
   the random source in order; under each entry's hash the encryption of its own chunk with its
   own IV; and the descriptor's printed text under its own hash.
   */
  lemma CreatedFields(job: Job, stream: CreatedStream)
    requires Sound(job) && Created(job) == Some(stream) && CollisionFree(job, stream.encoded)
    ensures NamesAndKey(job, stream.descriptor)
    ensures forall i :: 0 <= i < |stream.descriptor.blobs| ==> Entry(job, stream, i)
    ensures 2097151 * (|stream.descriptor.blobs| - 2) < |job.content| <= 2097151 * (|stream.descriptor.blobs| - 1)
    ensures stream.encoded == Marshal(stream.descriptor) && Hex.Decode(stream.sdHash) == Some(job.sha(stream.encoded))
  {
    var d, n := stream.descriptor, BlobCount(job);
    BuiltNames(job);
    CountExact(job);
    LastEntry(job, stream);
    Hex.DecodeEncode(job.sha(stream.encoded));
    forall i | 0 <= i < |d.blobs|
      ensures Entry(job, stream, i)
    {
      if i < n {
        DataEntry(job, stream, i);
      }
    }
  }

  // ---------------------------------------------------------------- the suggested name

  /** The part of a path from its last dot, if no slash follows that dot. */
  predicate IsExtension(base: bytes, extension: bytes) {
    if extension == [] then forall i :: 0 <= i < |base| && base[i] == 0x2E ==> exists j :: i < j < |base| && base[j] == 0x2F
    else
      && extension[0] == 0x2E
      && forall i :: 0 < i < |extension| ==> extension[i] != 0x2E && extension[i] != 0x2F
  }

  /** The backward scan finds a non-empty extension where it begins. */
  lemma {:induction false} DotFound(name: bytes, base: bytes, extension: bytes, end: nat)
    requires name == base + extension && extension != [] && IsExtension(base, extension) && |base| < end <= |name|
    ensures ExtensionStart(name, end) == |base|
  {
    if end > |base| + 1 {
      assert name[end - 1] == extension[end - 1 - |base|];
      DotFound(name, base, extension, end - 1);
    } else {
      assert name[end - 1] == extension[0];
    }
  }

  /** And none where there is none. */
  lemma {:induction false} NoDotFound(name: bytes, end: nat)
    requires IsExtension(name, []) && end <= |name|
    requires forall i :: end <= i < |name| ==> name[i] != 0x2F
    ensures ExtensionStart(name, end) == |name|
  {
    if end > 0 {
      if name[end - 1] == 0x2E {
        assert false;
      } else if name[end - 1] != 0x2F {
        NoDotFound(name, end - 1);
      }
    }
  }

  /** The suggested name: the cleaned base, or a stock one, with the cleaned extension if more than a dot is left of it. */
  lemma SuggestedIs(strip: bytes -> bytes, base: bytes, extension: bytes)
    requires IsExtension(base, extension)
    ensures SuggestedName(strip, base + extension)
            == (if strip(base) == [] then Ascii("lbry_download") else strip(base))
               + (if |strip(extension)| <= 1 then [] else strip(extension))
  {
    var name := base + extension;
    if extension == [] {
      assert name == base;
      NoDotFound(name, |name|);
    } else {
      DotFound(name, base, extension, |name|);
    }
    assert name[..|base|] == base && name[|base|..] == extension;
  }
}
