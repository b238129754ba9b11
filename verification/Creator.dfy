/** CreateStreamDescriptor of blob/creator.go: chunking, encryption, descriptor building. */
module Creator {
  import opened Base
  import Hex
  import opened Cipher
  import opened Descriptor
  import opened Validation

  const CHUNK := MAX_BLOB_SIZE - 1

  /** What the caller hands in: cipher, SHA-384, content, the two names and the randomness. */
  datatype Job = Job(
    cipher: BlockCipher,
    sha: bytes -> bytes,
    content: bytes,
    fileName: bytes,
    suggested: bytes,
    random: bytes)

  datatype CreatedStream = CreatedStream(
    descriptor: StreamDescriptor,
    encoded: bytes,
    sdHash: bytes,
    blobs: map<bytes, bytes>)

  // ---------------------------------------------------------------- the suggested name

  /** Where filepath.Ext starts: the last dot after the last slash, or the end. */
  function ExtensionStart(name: bytes, end: nat): (r: nat)
    requires end <= |name|
    ensures r <= |name|
  {
    if end == 0 || name[end - 1] == 0x2F then |name|
    else if name[end - 1] == 0x2E then end - 1
    else ExtensionStart(name, end - 1)
  }

  /** Removing illegal characters and trimming space can only shorten a text. */
  ghost predicate OnlyRemoves(strip: bytes -> bytes) {
    forall text: bytes :: |strip(text)| <= |text|
  }

  /** sanitizePublishedFileName, with the removal of characters as a parameter. */
  function SuggestedName(strip: bytes -> bytes, name: bytes): bytes {
    var start := ExtensionStart(name, |name|);
    var base, extension := strip(name[..start]), strip(name[start..]);
    (if base == [] then Ascii("lbry_download") else base) + (if |extension| > 1 then extension else [])
  }

  lemma SuggestedLength(strip: bytes -> bytes, name: bytes)
    requires OnlyRemoves(strip)
    ensures |SuggestedName(strip, name)| <= |name| + 13
  {
    var start := ExtensionStart(name, |name|);
    assert |strip(name[..start])| <= start && |strip(name[start..])| <= |name| - start;
  }

  // ---------------------------------------------------------------- chunks

  ghost predicate Sound(job: Job) {
    Lawful(job.cipher) && forall data: bytes :: |job.sha(data)| == Hex.DIGEST_SIZE
  }

  function HashText(job: Job, data: bytes): bytes {
    Hex.Encode(job.sha(data))
  }

  /** The number of data blobs computed before the loop. */
  function BlobCount(job: Job): nat {
    (|job.content| + MAX_BLOB_SIZE - 2) / (MAX_BLOB_SIZE - 1)
  }

  function Boundary(job: Job, i: nat): (r: nat)
    ensures r <= |job.content|
  {
    Min(i * CHUNK, |job.content|)
  }

  function Chunk(job: Job, i: nat): bytes {
    job.content[Boundary(job, i)..Boundary(job, i + 1)]
  }

  /** The j-th 16-byte draw from the random source: the key, then one IV per entry. */
  function Draw(job: Job, j: nat): (r: bytes)
    requires 16 * (j + 1) <= |job.random|
    ensures |r| == 16
  {
    job.random[16 * j..16 * (j + 1)]
  }

  predicate Drawable(job: Job, n: nat) {
    16 * (n + 1) <= |job.random|
  }

  function BlobAt(job: Job, i: nat): bytes
    requires Lawful(job.cipher) && Drawable(job, i + 1)
  {
    EncryptBlob(job.cipher, Draw(job, 0), Draw(job, i + 1), Chunk(job, i))
  }

  function InfoAt(job: Job, i: nat): BlobInfo
    requires Lawful(job.cipher) && Drawable(job, i + 1)
  {
    BlobInfo(HashText(job, BlobAt(job, i)), i, Hex.Encode(Draw(job, i + 1)), |BlobAt(job, i)|)
  }

  function Infos(job: Job, n: nat): (r: seq<BlobInfo>)
    requires Lawful(job.cipher) && Drawable(job, n)
    ensures |r| == n && forall i :: 0 <= i < n ==> r[i] == InfoAt(job, i)
  {
    if n == 0 then [] else Infos(job, n - 1) + [InfoAt(job, n - 1)]
  }

  function BlobMap(job: Job, n: nat): map<bytes, bytes>
    requires Lawful(job.cipher) && Drawable(job, n)
  {
    if n == 0 then map[]
    else BlobMap(job, n - 1)[HashText(job, BlobAt(job, n - 1)) := BlobAt(job, n - 1)]
  }

  function Terminator(job: Job, n: nat): BlobInfo
    requires Drawable(job, n + 1)
  {
    BlobInfo([], n, Hex.Encode(Draw(job, n + 1)), 0)
  }

  function Unsealed(job: Job): StreamDescriptor
    requires Lawful(job.cipher) && Drawable(job, BlobCount(job) + 1)
  {
    var n := BlobCount(job);
    StreamDescriptor(Hex.Encode(job.fileName), Hex.Encode(Draw(job, 0)), Hex.Encode(job.suggested),
                     [], Ascii("lbryfile"), Infos(job, n) + [Terminator(job, n)])
  }

  function Built(job: Job): StreamDescriptor
    requires Lawful(job.cipher) && Drawable(job, BlobCount(job) + 1)
  {
    Unsealed(job).(streamHash := StreamHash(job.sha, Unsealed(job)))
  }

  /** Creation as a whole; None is an error return. */
  function Created(job: Job): Option<CreatedStream>
    requires Lawful(job.cipher)
  {
    if job.content == [] || BlobCount(job) + 1 > MAX_DESCRIPTOR_BLOBS then None
    else if !Drawable(job, BlobCount(job) + 1) then None
    else if !Valid(job.sha, Built(job)) then None
    else
      var encoded := Marshal(Built(job));
      Some(CreatedStream(Built(job), encoded, HashText(job, encoded), BlobMap(job, BlobCount(job))))
  }

  /** Stepping one chunk past a boundary short of the end reaches the next of exactly BlobCount boundaries. */
  lemma BoundaryStep(job: Job, i: nat)
    requires Boundary(job, i) < |job.content|
    ensures i < BlobCount(job)
    ensures Boundary(job, i + 1) == Min(Boundary(job, i) + CHUNK, |job.content|)
    ensures Boundary(job, i + 1) == |job.content| <==> i + 1 == BlobCount(job)
  {
  }

  /** One turn of the loop. */
  method EncryptNext(job: Job, num: nat, offset: nat, read: nat) returns (end: nat, info: BlobInfo, encrypted: bytes)
    requires Lawful(job.cipher) && Drawable(job, num + 1) && read == 16 * (num + 1)
    requires offset == Boundary(job, num) < |job.content|
    ensures end == Boundary(job, num + 1)
    ensures encrypted == BlobAt(job, num) && info == InfoAt(job, num)
  {
    BoundaryStep(job, num);
    end := if offset + CHUNK < |job.content| then offset + CHUNK else |job.content|;
    var iv := job.random[read..read + 16];
    encrypted := EncryptStreamBlob(job.cipher, Draw(job, 0), iv, job.content[offset..end]);
    info := BlobInfo(Hex.Encode(job.sha(encrypted)), num, Hex.Encode(iv), |encrypted|);
  }

  /** The chunk loop of CreateStreamDescriptor; None when the random source runs dry. */
  method EncryptChunks(job: Job) returns (r: Option<(seq<BlobInfo>, map<bytes, bytes>)>)
    requires Lawful(job.cipher) && Drawable(job, 0)
    ensures r.None? <==> !Drawable(job, BlobCount(job))
    ensures r.Some? ==> r.value == (Infos(job, BlobCount(job)), BlobMap(job, BlobCount(job)))
  {
    var infos, blobs := [], map[];
    var offset, num, read := 0, 0, 16;
    while offset < |job.content|
      invariant offset == Boundary(job, num) && num <= BlobCount(job)
      invariant offset == |job.content| ==> num == BlobCount(job)
      invariant read == 16 * (num + 1) && Drawable(job, num)
      invariant infos == Infos(job, num) && blobs == BlobMap(job, num)
      decreases |job.content| - offset
    {
      BoundaryStep(job, num);
      if read + 16 > |job.random| {
        return None;
      }
      var end, info, encrypted := EncryptNext(job, num, offset, read);
      blobs := blobs[info.hash := encrypted];
      infos := infos + [info];
      offset, num, read := end, num + 1, read + 16;
    }
    return Some((infos, blobs));
  }

  /** CreateStreamDescriptor */
  method CreateStreamDescriptor(job: Job) returns (r: Option<CreatedStream>)
    requires Lawful(job.cipher)
    ensures r == Created(job)
  {
    if |job.content| == 0 {
      return None;
    }
    var count := (|job.content| + MAX_BLOB_SIZE - 2) / (MAX_BLOB_SIZE - 1);
    if count + 1 > MAX_DESCRIPTOR_BLOBS || |job.random| < 16 {
      return None;
    }
    var key := job.random[..16];
    var encrypted := EncryptChunks(job);
    if encrypted.None? || |job.random| < 16 * (count + 2) {
      return None;
    }
    var (infos, blobs) := encrypted.value;
    var iv := job.random[16 * (count + 1)..16 * (count + 2)];
    var descriptor := StreamDescriptor(Hex.Encode(job.fileName), Hex.Encode(key), Hex.Encode(job.suggested),
                                       [], Ascii("lbryfile"), infos + [BlobInfo([], |infos|, Hex.Encode(iv), 0)]);
    UnsealedIs(job, count, key, iv, infos, descriptor);
    r := Seal(job, descriptor, blobs);
  }

  lemma UnsealedIs(job: Job, n: nat, key: bytes, iv: bytes, infos: seq<BlobInfo>, d: StreamDescriptor)
    requires Lawful(job.cipher) && n == BlobCount(job) && Drawable(job, n + 1)
    requires key == job.random[..16] && iv == job.random[16 * (n + 1)..16 * (n + 2)] && infos == Infos(job, n)
    requires d == StreamDescriptor(Hex.Encode(job.fileName), Hex.Encode(key), Hex.Encode(job.suggested),
                                   [], Ascii("lbryfile"), infos + [BlobInfo([], n, Hex.Encode(iv), 0)])
    ensures d == Unsealed(job)
  {
    assert key == Draw(job, 0) && iv == Draw(job, n + 1);
  }

  /** Computes the stream hash, applies the reader's own checks and prints the descriptor. */
  method Seal(job: Job, unsealed: StreamDescriptor, blobs: map<bytes, bytes>) returns (r: Option<CreatedStream>)
    ensures var d := unsealed.(streamHash := StreamHash(job.sha, unsealed));
            r == if Valid(job.sha, d) then Some(CreatedStream(d, Marshal(d), HashText(job, Marshal(d)), blobs)) else None
  {
    var streamHash := CalculateStreamHash(job.sha, unsealed);
    var descriptor := unsealed.(streamHash := streamHash);
    var verdict := ValidateDescriptor(job.sha, descriptor);
    if verdict != Accepted {
      return None;
    }
    var encoded := MarshalDescriptor(descriptor);
    return Some(CreatedStream(descriptor, encoded, Hex.Encode(job.sha(encoded)), blobs));
  }
}
