# Verified model of the blob daemon

A Dafny model of the daemon's data path and of the reference algorithms its wallet and
component code are held to. `dafny verify dfyconfig.toml` checks everything.

**Blob store** (`BlobStore`, `BlobTheorems`, `EnsureTheorems`, `BlobManager`, `Hex`). The manager in
`blob/manager.go` is a step system: each critical section under `mu`, each locked half of `Set`
and `Delete` under `diskMu`, and each step of a fetch goroutine is one atomic step; callers,
flights, the cache and the disk are state. Theorems quantify over every run. The class
`BlobManager.BlobManager` carries the same fields and updates them in place; its methods are
proved to take exactly those steps.

**Streams** (`Bits`, `Cipher`, `JsonText`, `JsonValues`, `Descriptor`, `DescriptorJson`, `Validation`,
`Creator`, `StreamReader`, `StreamTheorems`, `StreamContents`, `Publishing`, `InterleavedReads`,
`EncodedSize`, `StreamBinding`). Chunking, PKCS#7 padding (section 6.3 of
RFC 5652), CBC (section 6.2 of NIST SP 800-38A), the two descriptor printers, the validator
and the readers, up to the theorem that what is published through the manager is read back.

**Network** (`Exchange`, `FetchLoop`). The byte-level JSON boundary scanner, against a grammar
of JSON text (RFC 8259), and the racing fetch loop with its discovery sources.

**Workers** (`Background`, `Announcer`). The background downloader's loop and prefix
arithmetic, and the announcer's worker pool, over every interleaving.

**Reference algorithms** (`Radix`, `Asn1`, `Asn1Inverse`, `Asn1Reader`, `KeyDer`, `KeyGrammar`, `Compact`, `Headers`,
`HeaderChain`, `HeaderTheorems`, `HeaderWitness`, `Staging`). The BER reader and DER keys (ITU-T X.690,
RFC 5915), compact targets, the header chain, and component staging.

Standing assumptions: persistence implies a blob directory; `Start` runs before concurrent
use; only the manager changes its directory; SHA-384 returns 48 octets; the AES block function
and its inverse cancel; no two different byte strings among those one creation produces share a
digest (global injectivity would be unsatisfiable); `json.Unmarshal` inverts the printer on the
created descriptor, which every decoder does that takes the fields of an object by name
(`DescriptorJson.PrintedReadsBack`); the genesis hash fixes a genesis header with an admissible
target.

Where code and expectation differ, the code is followed:

- Creation always fails on encoded size from 10,810 data blobs on, although the entry limit is
  12,000; up to 10,804 it always fits, and in between the names decide. Exactly when it fits is a
  formula in the three input lengths (`EncodedSize.CreationSucceedsIff`).
- The validator never looks at `stream_type`, and printing turns every octet of it that starts no
  rune into the same escape. A validated descriptor is the only one with its printed form exactly
  when its stream type is UTF-8 (`Validation.MarshalUniqueIff`, `Validation.MarshalOldUniqueIff`);
  `StreamBinding.AcceptedCollision` gives two accepted descriptors that print alike.
- The stream hash joins name, key and suggested name without separators, so it pins down only
  their concatenation (`StreamBinding.StreamHashBinds`); `StreamBinding.AcceptedShift` gives two
  accepted descriptors with different names and keys and the same stream hash.
- `connect` can leave a header chain unlinked. From height 0 up it stays linked exactly when the
  chunk reaches the tip or the next stored header names the chunk's last one
  (`HeaderTheorems.ConnectKeepsLinked`, with an input in `HeaderWitness.MiddleConnectUnlinks`);
  below height 0 exactly when both seams of the slice are linked and so is what is left before it
  (`HeaderTheorems.ConnectBelowKeepsLinked`, with an input in
  `HeaderWitness.NegativeConnectUnlinks`).
- `connect` takes a negative start, validates the chunk as if it began a chain and writes it
  through a slice counted from the end. The stored octets and `size` then stay in step only in the
  case `HeaderChain.NegativeStart` names; `HeaderWitness.NegativeConnectLosesStep` gives an input
  that parts them.
- `calculate_compact` raises its second assertion from 2^2039 on; below that, and so for every
  256-bit value, it never does, and its sign-bit fix-up is dead code (`Compact.EncoderSafe`).

## Model

| member | source | states |
|---|---|---|
| BlobTheorems.SingleFlight | blob/manager.go:200-253 | in every reachable state a registered flight's `waiters` is the number of callers attached to it; two uncancelled running fetches of one hash are the same flight; an abandoned fetch with a caller still attached met an earlier Stop while it was registered |
| BlobTheorems.RegistrationChanges | blob/manager.go:205-233 | a registration disappears or changes hands only at Stop, when that very flight finishes, or when Ensure evicts a flight with no waiters and a cancelled context; a stale flight never unregisters its successor |
| BlobTheorems.CancelEvents | blob/manager.go:238-253 | a running fetch loses its context only at Stop or when its last attached caller leaves |
| BlobTheorems.SweptByStop | blob/manager.go:93-104 | a flight marked as swept was registered when an earlier Stop of the run came |
| BlobTheorems.HolderFrees | blob/manager.go:282-350 | whoever holds `diskMu` always has its next step enabled, and that step frees it |
| BlobTheorems.FlightProceeds | blob/manager.go:225-280 | every unfinished fetch can take a step of its own, or waits for a `diskMu` whose holder can free it |
| BlobTheorems.FlightDescends | blob/manager.go:225-280 | no step moves a fetch away from its end, and every step of its own brings it closer |
| BlobTheorems.GetReturnsLastStored | blob/manager.go:380-396 | in every reachable state with `diskMu` free, `get` returns exactly the octets last published under a cached key (by a Set, a fetch, or found at Start), 1 to MaxBlobSize of them hashing to that canonical key, and nothing for any other key |
| BlobTheorems.LazyRead | blob/manager.go:380-396 | an entry seen as on disk can be read after the lock is released: the file is still good unless a delete or rollback of that hash was under way or came between |
| BlobTheorems.CommitSetInserts | blob/manager.go:298-323 | the second half of Set inserts one binding and disturbs no other |
| BlobTheorems.BeginSetEffect | blob/manager.go:282-296 | the exact effect of Set up to its file write: nothing on refusal or a failed write, invisible under persistence unless the hash is already served from disk |
| BlobTheorems.CommitDeleteRemoves | blob/manager.go:339-347 | the second half of Delete removes exactly one binding |
| BlobTheorems.BeginDeleteEffect | blob/manager.go:331-347 | the exact effect of the file removal on what readers see, failed removal included |
| BlobTheorems.OtherStepsKeepContents | blob/manager.go:93-104 | no other step changes a stored blob; Stop forgets them all |
| BlobTheorems.NilReturnBacked | blob/manager.go:190-253 | every nil return of Ensure is backed by an earlier publication of octets hashing to the key, or by the start-up scan |
| BlobTheorems.LedgerIsHistory | blob/manager.go:255-323 | the recorded value of a hash is what the last publishing step of the run published, or what Start found if there was none |
| BlobTheorems.StoresMakesAvailable | blob/manager.go:298-323 | right after a publishing step `get` returns exactly the published octets, which hash to the key |
| BlobTheorems.RecordFailureIsError | blob/manager.go:255-280 | once its completion record failed, a fetch can only end in an error |
| BlobTheorems.RecordFailureReachesCallers | blob/manager.go:238-280 | every caller that ever joined such a fetch, before or after the failure, returns an error or has not returned yet |
| BlobTheorems.RollbackLeavesNothing | blob/manager.go:270-278 | the end of a rollback leaves the hash in neither map nor disk, unless removing the file failed |
| EnsureTheorems.EnsureAnswers | blob/manager.go:190-236 | in every reachable state Ensure refuses an invalid hash and grants a cached one at once; otherwise its caller waits on the live fetch of that hash, or on a new one if none is live, or is refused if there is no fetcher; nothing else changes |
| EnsureTheorems.FetcherIsLastSet | blob/manager.go:181-188 | whether a fetcher is present is what the last SetFetcher said |
| EnsureTheorems.FetchIsSequential | blob/manager.go:255-280 | whatever is interleaved, a fetch ends with the outcome of straight-line code on the answers its own outside calls got |
| EnsureTheorems.FinishedReleased | blob/manager.go:225-234 | every finished fetch has had its context cancelled |
| EnsureTheorems.SucceededIffRecorded | blob/manager.go:255-280 | a fetch has succeeded exactly when its completion record was written |
| EnsureTheorems.NilExactly | blob/manager.go:190-253 | an Ensure that returned gave nil exactly when its hash was valid and cached at the call, or when it took the result of a fetch whose completion record had been written |
| EnsureTheorems.CallerProceeds | blob/manager.go:238-253 | a caller may give up at any time, and may return once its fetch has finished |
| BlobManager.RestartKeeps | blob/manager.go:55-91 | at any point of a run with saving on and `diskMu` free, a scan of the directory would load everything `get` returns, with the same octets |
| BlobStore.StepKeepsInv | blob/manager.go:190-350 | every step keeps the flight, store and ledger invariants |
| BlobStore.ReachableInv | blob/manager.go:55-350 | the invariants hold in every state of every run |
| BlobManager.BlobManager.constructor | blob/manager.go:42-53 | a new manager starts in an initial state of the step system |
| BlobManager.BlobManager.Scan | blob/manager.go:55-91 | exactly the regular, canonically named, right-sized, readable files with matching digest are loaded, with their sizes |
| BlobManager.BlobManager.Start | blob/manager.go:55-91 | whatever the manager already holds, Start enters exactly the loaded names lazily, keeps every other entry, and readers then see exactly the loaded files on top of what they saw |
| BlobManager.BlobManager.EnsureLocked | blob/manager.go:200-236 | the critical section of Ensure is the Ensure step, for every branch |
| BlobManager.BlobManager.FinishFlight | blob/manager.go:225-234 | the goroutine's epilogue is the Finish step |
| BlobManager.BlobManager.LeaveFlight | blob/manager.go:238-253 | giving up is the Leave step: count down, cancel at zero |
| BlobManager.BlobManager.Shutdown | blob/manager.go:93-104 | Stop cancels every registered flight and empties the cache |
| BlobManager.BlobManager.BeginSetLocked | blob/manager.go:282-296 | Set up to and including the file write, with its exact acceptance condition |
| BlobManager.BlobManager.Set | blob/manager.go:282-323 | Set succeeds exactly when the blob is accepted and its write succeeded; then one binding is added, otherwise nothing changes |
| BlobManager.BlobManager.DeleteOne | blob/manager.go:326-350 | one deletion removes the binding unless the file exists and cannot be removed |
| BlobManager.BlobManager.Delete | blob/manager.go:326-350 | the loop removes exactly the deletable hashes and reports success exactly when all were |
| BlobManager.BlobManager.Lookup | blob/manager.go:380-396 | `get` on a quiet store is a lookup in the plain map |
| Hex.DecodeInto | blob/manager.go:472-485 | hexDecode succeeds exactly on an even number of hex digits, writes their value and nothing else |
| Hex.DecodeEncode | blob/manager.go:431-434 | decoding inverts encoding |
| Hex.EncodeAt | blob/manager.go:431-434 | the printed characters are the digits of each octet, high half first |
| Hex.EncodeDecodeLower | blob/manager.go:436-438 | encoding what was decoded gives the lower-cased text |
| Hex.CanonicalIffDigest | blob/manager.go:436-438 | a hash is canonical exactly when it is the encoding of 48 octets |
| Hex.ValidHashIffDecodes | blob/manager.go:148-159 | ValidHash holds exactly when the text decodes to 48 octets |
| Cipher.CbcRoundTrip | blob/descriptor.go:186-221 | CBC decryption inverts CBC encryption for every key, IV and aligned data |
| Bits.XorBits | blob/creator.go:108 | each bit of the mixed octets is the exclusive or of theirs |
| Cipher.CbcEncryptsBlocks | blob/creator.go:97-110 | every ciphertext block is the cipher of its plain block mixed with the ciphertext block before it, the IV for the first |
| Cipher.CbcDecryptsBlocks | blob/descriptor.go:186-221 | every plain block is the inverse cipher of its ciphertext block mixed with the ciphertext block before it, the IV for the first |
| Cipher.StoredBlocks | blob/creator.go:97-110 | a stored blob is that chaining over the chunk and its padding, given octet by octet |
| Cipher.DecryptsExactly | blob/descriptor.go:186-238 | decryption answers with a text exactly when key and IV are 16 hexadecimal octets and the block equations hold between the blob and the padded text |
| Cipher.Unpad | blob/descriptor.go:224-238 | the padding loop computes UnpadSpec |
| Cipher.UnpadIffPadded | blob/descriptor.go:224-238 | unpadding gives a plaintext exactly when the data is its padding |
| Cipher.EncryptStreamBlob | blob/creator.go:97-110 | padding in a buffer and CBC give EncryptBlob |
| Cipher.DecryptInvertsEncrypt | blob/descriptor.go:186-221 | DecryptBlob inverts encryption under the hex-encoded key and IV |
| JsonText.QuotePrefixFree | blob/creator.go:141-182 | a printed JSON string is self-delimiting and determines its value up to octets that start no rune |
| JsonText.UniqueIffUtf8 | blob/creator.go:141-182 | a text is the only one that prints as it does exactly when it is UTF-8 |
| JsonValues.Utf8Exactly | blob/creator.go:141-182 | the UTF-8 test accepts exactly the sequences of encoded characters (RFC 3629) |
| JsonValues.EscapeSpells | blob/creator.go:141-182 | a printed text is a string of RFC 8259 whose value is the text, with U+FFFD for every octet that starts no rune |
| JsonValues.SignedValue | blob/creator.go:155-182 | a printed integer is a JSON integer with that value |
| Descriptor.MarshalDescriptor | blob/creator.go:141-182 | the sorted printer's loop writes exactly Marshal |
| Descriptor.MarshalOldSortDescriptor | blob/creator.go:194-245 | the old-sort printer's loop, with its early break, writes exactly MarshalOld |
| Descriptor.RenderInjective | blob/creator.go:141-245 | aligned token sequences are determined by their printed form |
| DescriptorJson.MarshalSays | blob/creator.go:141-182 | the sorted print is a JSON object of six members that gives each field of the descriptor, and each field of each entry, under its own name |
| DescriptorJson.MarshalOldSays | blob/creator.go:194-245 | so is the old print, with the entries up to the first one without a hash |
| DescriptorJson.DescribedOnce | blob/creator.go:141-245 | such an object describes one descriptor of UTF-8 texts at most |
| DescriptorJson.PrintedReadsBack | blob/descriptor.go:31-77 | every decoder that takes the fields by name inverts both printers on UTF-8 descriptors, the old one where it drops no entry |
| Validation.CalculateStreamHash | blob/creator.go:112-139 | the digest loop computes the stream hash |
| Validation.CheckBlobs | blob/descriptor.go:93-125 | the entry loop accepts exactly entries numbered in order with 16-octet IVs whose data items are well-formed; its 64-bit total never overflows |
| Validation.ValidateDescriptor | blob/descriptor.go:79-163 | the validator returns exactly the first failing group of checks |
| Validation.DecodesExactly | blob/descriptor.go:56-77 | DecodeDescriptor answers exactly with what the decoder returns for an accepted text of that hash within the size limit |
| StreamContents.AcceptedExactly | blob/descriptor.go:79-163 | which descriptors are accepted: 1 to 12,000 entries numbered from 0 with 16-octet IVs, all but the last with a SHA-384 name and a length some encrypted chunk has, the last empty; a 16-octet key; at most 2 MiB printed; the stream hash of the UTF-8 names |
| StreamContents.StreamHashInput | blob/creator.go:112-129 | what is hashed, in which order: name, key, suggested name, and the digest of the entries' digests, each over hash, decimal number, IV and decimal length, the hash left out at length 0 |
| Validation.ContentBlobs | blob/descriptor.go:166-174 | the filtering loop computes Content |
| Validation.ContentIsAllButTerminator | blob/descriptor.go:166-174 | on a structurally valid descriptor, ContentBlobs is Blobs without the terminator |
| Validation.MarshalEqualIff | blob/creator.go:141-245 | validated descriptors print alike, under either printer, exactly when they agree in everything but broken octets of the stream type |
| Validation.MarshalUniqueIff | blob/creator.go:141-182 | a validated descriptor is the only one with its sorted print exactly when its stream type is UTF-8 |
| Validation.MarshalOldUniqueIff | blob/creator.go:194-245 | the same for the old-sort printer |
| Validation.OldSortDropsNothing | blob/creator.go:194-245 | the early break drops no entry of a validated descriptor |
| StreamBinding.AcceptedCollision | blob/descriptor.go:79-163 | for every SHA-384 there are two different accepted descriptors that both printers print alike |
| StreamBinding.StreamHashBinds | blob/creator.go:112-139 | barring a digest collision, well-structured descriptors have the same stream hash exactly when their blob lists are equal and name, key and suggested name are equal once joined |
| StreamBinding.RecutAccepted | blob/descriptor.go:143-163 | wherever the joined text of an accepted lower-case descriptor is cut anew, the result has the same stream hash and is accepted exactly when both new names are UTF-8 |
| StreamBinding.OnlyRecuts | blob/descriptor.go:143-163 | nothing else with that joined text is accepted |
| StreamBinding.AcceptedShift | blob/descriptor.go:143-163 | two accepted descriptors with different names and keys and one stream hash, for every SHA-384 |
| Creator.BoundaryStep | blob/creator.go:41-71 | stepping a chunk past a boundary reaches the next of exactly ceil(len / (2 MiB - 1)) boundaries |
| Creator.EncryptChunks | blob/creator.go:52-71 | the loop yields one entry and blob per chunk, or stops exactly when randomness runs out |
| Creator.CreateStreamDescriptor | blob/creator.go:30-94 | creation as a whole, with each error return |
| StreamTheorems.BlobSize | blob/creator.go:54-71 | every data blob is AES-aligned and within 16 octets to 2 MiB; all but the last are full |
| StreamTheorems.BuiltStructure | blob/creator.go:41-87 | the built descriptor passes every structural check and has one entry per chunk and a terminator |
| StreamTheorems.BuiltVerdict | blob/descriptor.go:79-163 | a created descriptor is refused only for its encoded size or a name that is not UTF-8 |
| StreamContents.CreatedFields | blob/creator.go:50-94 | what a created stream consists of: both names, type, key and one fresh IV per entry in order from the random source; under each entry's hash the blob that decrypts with the entry's IV to its own slice of the content; the printed descriptor under its own hash |
| EncodedSize.CreationSucceedsIff | blob/creator.go:30-94 | creation succeeds exactly when the content is non-empty and takes fewer than 12,000 blobs, randomness suffices, both names are UTF-8, and the printed length, a number computed from three input lengths, is at most 2 MiB |
| StreamTheorems.ChunksTile | blob/creator.go:54-71 | the chunks concatenate to the content |
| StreamTheorems.RoundTrip | blob/manager.go:353-378 | reading a store that holds a created stream, over anything else, returns exactly the content |
| StreamTheorems.RoundTripByName | blob/manager.go:353-378 | the same round trip for every decoder that takes the fields of the printed object by name |
| Publishing.PersistCreatedStream | rpc/stream_mutation.go:328-342 | setting the descriptor and then every blob succeeds exactly when every write does, and leaves exactly the published store; a failed write leaves nothing, or the descriptor and some but not all of the blobs |
| Publishing.PersistAndRead | blob/manager.go:282-378 | the round trip through one manager: after persisting, ReadStream returns the descriptor and exactly the original content |
| StreamTheorems.PublishedIsAccepted | blob/manager.go:282-289 | Set accepts every blob and the descriptor of a created stream |
| EncodedSize.BuiltWidth | blob/creator.go:141-182 | the printed length of a created descriptor in closed form, from the lengths of the content and the two names |
| EncodedSize.SmallStreamsFit | blob/descriptor.go:133-142 | up to 10,804 data blobs always fit, for every file name of at most 255 octets and the suggested name sanitising makes of it |
| EncodedSize.LargeStreamsNeverFit | blob/descriptor.go:133-142 | 10,810 data blobs or more never fit, whatever the names, so creation fails |
| EncodedSize.NamesDecide | blob/descriptor.go:133-142 | in between the names decide: the longest ones fail from 10,805 blobs on, one-octet ones fit up to 10,809 |
| Creator.SuggestedLength | blob/creator.go:247-259 | the suggested name is at most 13 octets longer than the file name |
| StreamContents.SuggestedIs | blob/creator.go:247-259 | it is the cleaned base, or a stock one, followed by the cleaned extension if more than one octet of it is left, the extension being the part from the last dot with no slash behind it |
| StreamReader.ReadStream | blob/manager.go:353-378 | the reading loop over the manager computes ReadStreamSpec of its contents |
| StreamReader.ReadsExactly | blob/manager.go:353-378 | reading answers exactly when the store holds the descriptor and every blob it lists, with their decryptions in order |
| InterleavedReads.LateGetMatches | blob/manager.go:380-396 | whatever a `get` returns hashes to its key, however many steps lie between its look at the map and its look at the file |
| InterleavedReads.InterleavedRead | blob/manager.go:353-396 | in every run, with each get of ReadStream looking anywhere in it, reading a created stream succeeds exactly when every get finds something, and then returns exactly the published content, barring a collision |
| InterleavedReads.LateGetAnswers | blob/manager.go:380-396 | once a hash is cached and not being deleted, every get whose looks come before a Stop or a deletion of it finds something |
| InterleavedReads.LastingStreamReadsBack | blob/manager.go:353-396 | a published stream that nothing removes reads back exactly in every interleaving, barring a collision |
| InterleavedReads.QuietRead | blob/manager.go:353-378 | when all gets look at one quiet store this is ReadStream on that store |
| StreamReader.WalkStreamRange | blob/reader.go:25-69 | range checks and loop compute WalkRange, callbacks included, whatever Ensure, GetLocal and the context answer from one look to the next |
| StreamReader.RangeWalked | blob/reader.go:25-69 | in any world a walk over an admissible range hands over its blobs in order until one cannot be had or the callback refuses it; any other call hands over nothing and fails |
| StreamReader.VisitGets | blob/reader.go:46-64 | a blob is had exactly when the context is live at both looks, Ensure and GetLocal succeed, and it decrypts |
| StreamReader.WalkSplit | blob/reader.go:46-67 | walking a concatenation is walking its parts, the second only if the first succeeded |
| StreamReader.WalkRangeSplits | blob/reader.go:25-69 | splitting a range at any point gives the same callbacks |
| StreamReader.WalkStreamIsReadStream | blob/reader.go:11-23 | with all blobs local, WalkStream's callbacks concatenate to ReadStream's content |
| Exchange.ScanHeader | blob/exchange.go:100-142 | the byte loop finds the least prefix after which the scan is done, or runs out of input or limit |
| Exchange.FramingUnique | blob/exchange.go:100-142 | every input has exactly one framing |
| Exchange.FramingExact | blob/exchange.go:100-142 | on any well-formed JSON object with anything behind it the scanner stops exactly after the closing brace, or refuses for length alone |
| Exchange.DownloadBlob | blob/exchange.go:144-183 | what a download returns, for every peer behaviour and whether or not the context is live after the body |
| Exchange.DownloadReturnsBlob | blob/exchange.go:144-183 | a peer announcing and sending the requested blob is understood, whatever follows |
| Exchange.ReceiveExactly | blob/exchange.go:144-195 | a download returns a blob exactly when the framed header offers that hash and length without an error, the blob follows, the context is live and the digest matches |
| FetchLoop.Accounting | blob/network_fetcher.go:82-121 | each usable address is launched at most once and exactly when received; `active` is launched minus received; no source blocks on its one send |
| FetchLoop.LoopMeasure | blob/network_fetcher.go:87-121 | each turn lowers (sources to be received, open downloads) lexicographically |
| FetchLoop.FailureIsExhaustive | blob/network_fetcher.go:122-125 | a failure that is not a cancellation means every source reported and every launched download failed |
| FetchLoop.FetchedIffDelivered | blob/network_fetcher.go:114-119 | the loop returns data exactly when a successful download was received |
| FetchLoop.ReceivedAsSent | blob/network_fetcher.go:87-91 | the loop receives what the sources sent, all of it and in order |
| FetchLoop.OutcomeExactly | blob/network_fetcher.go:87-125 | data is returned exactly when the loop took the result of a download that had succeeded; failure means it took one from every usable address sent; cancellation means its context was cancelled |
| FetchLoop.ErrorExactly | blob/network_fetcher.go:92-125 | there is an error to report exactly when a source or a download the loop heard from failed |
| FetchLoop.ReleasedExactly | blob/network_fetcher.go:56-75 | the fixed peers are released, once, exactly when there is no DHT or it reported that it has no peers |
| FetchLoop.LoopNeverStarves | blob/network_fetcher.go:87-121 | while the loop waits, something can still reach it |
| FetchLoop.NoLeak | blob/network_fetcher.go:45-113 | once the fetcher has returned, the context is done and every running or offering download and every source can still end, so no goroutine stays blocked |
| FetchLoop.AfterReturn | blob/network_fetcher.go:106-113 | from then on nothing is launched, the outcome stands, and each such step brings its download closer to its end |
| FetchLoop.ReachableInv | blob/network_fetcher.go:52-171 | the loop invariant holds in every run, the fixed-peer release included |
| FetchLoop.Loop.OnBatch | blob/network_fetcher.go:91-113 | the batch case launches exactly the new usable peers |
| FetchLoop.Loop.OnResult | blob/network_fetcher.go:114-119 | the result case counts down and returns on success |
| Background.CollidingPrefixBits | backgrounddownloader/manager.go:371-382 | the byte loop computes the number of shared leading bits |
| Background.LeadingZerosOfXor | backgrounddownloader/manager.go:371-382 | leading zeros of the exclusive or are the shared leading bits |
| Background.PrefixMeaning | backgrounddownloader/manager.go:371-382 | the prefix is the index of the first differing bit, the full width exactly on equality |
| Background.PrefixUltrametric | backgrounddownloader/manager.go:371-382 | prefix(a, c) >= min(prefix(a, b), prefix(b, c)) |
| Background.FindCandidate | backgrounddownloader/manager.go:219-228 | the scan finds the first stored hash that is not held and shares eight leading bits |
| Background.ReachableInv | backgrounddownloader/manager.go:112-178 | the downloader's invariant holds in every run |
| Background.OneWorker | backgrounddownloader/manager.go:138-289 | `ongoing` holds between loop steps exactly when a worker or an unread result exists; at most one exists; its send never blocks; none is left once `running` is false |
| Background.PollDecides | backgrounddownloader/manager.go:182-217 | a poll leads to a scan exactly with more than 10 MB free and no download outstanding |
| Background.WorkerNeedsSpace | backgrounddownloader/manager.go:182-253 | a worker is started only by a scan that found a stream, alone, after a poll that saw more than 10 MB free |
| Background.ScanStartsWorker | backgrounddownloader/manager.go:229-253 | and every such scan starts one |
| Background.StopDrains | backgrounddownloader/manager.go:140-178 | every step but start and ticker brings the manager closer to rest, and after Stop one is always possible |
| Announcer.AnnouncedOnce | dht/announcer.go:74-105 | each list position is announced at most once and no worker blocks on `successes` |
| Announcer.MarkedExactly | dht/announcer.go:96-115 | after complete feeding every position was announced, and the marked ones are exactly those whose announcement reached more than four peers without an error; none is marked when feeding was cancelled |
| Announcer.AnswersHeard | dht/announcer.go:86-94 | the recorded answer of a position is the one its announcement got |
| Announcer.AbortedOnCancel | dht/announcer.go:96-104 | a round is given up only after its context ended |
| Announcer.RoundDescends | dht/announcer.go:74-115 | every step but a cancellation brings the round closer to its end, so every round ends |
| Announcer.NoDeadlock | dht/announcer.go:74-115 | until the round ends some step is possible |
| Announcer.WorkerCount | dht/announcer.go:81-95 | there are always min(concurrency, list length) workers, with at least one for a non-empty list, and none returns while jobs are fed |
| Announcer.ReachableInv | dht/announcer.go:74-115 | the round's invariant holds in every interleaving |
| Radix.BigFits | compat/channel_keys_oracle.py:379-385 | the length octets are minimal |
| Asn1Inverse.ReadInverts | compat/channel_keys_oracle.py:459-544 | the reader on any encoded tree, anywhere and with anything behind it, returns the tree, the offset past it and the budget spent, exactly when depth and node limits allow, and fails otherwise |
| Asn1Reader.ReadAsn1Identifier | compat/channel_keys_oracle.py:459-487 | the high-tag loop computes ReadIdentifier |
| Asn1Reader.ReadAsn1Node | compat/channel_keys_oracle.py:490-544 | the recursive reader with its shared budget agrees with ReadNode |
| Asn1Reader.ParseAsn1Root | compat/channel_keys_oracle.py:547-554 | input limit, fresh budget, trailing octets ignored |
| Asn1Reader.ReadSound | compat/channel_keys_oracle.py:490-544 | everything accepted is encodable, within the limits, and re-encodes to no more octets than were read |
| Asn1Reader.Normalises | compat/channel_keys_oracle.py:490-544 | whatever is accepted, however encoded, is read back as the same value from its own encoding |
| Asn1Reader.EncodePrefixFree | compat/channel_keys_oracle.py:379-389 | trees within the limits never share an encoding, even with octets behind |
| KeyDer.ValidateOid | compat/channel_keys_oracle.py:582-593 | the scan never fails once the last octet is unmarked |
| KeyDer.FormatsDisjoint | compat/channel_keys_oracle.py:752-812 | no value is a key in both formats, so the order of attempts does not matter |
| KeyDer.Sec1RoundTrip | compat/channel_keys_oracle.py:752-770 | the SEC1 form is read back as the secret |
| KeyDer.PrivateKeyRoundTrip | compat/channel_keys_oracle.py:392-405 | a secret is printed exactly when 0 < s < N, and parsing the print, with anything behind it, gives s through the failed SEC1 attempt |
| KeyDer.PrintedKeyFields | compat/channel_keys_oracle.py:392-405 | the reader sees in a printed key version 0, the two object identifiers, and an octet string that holds version 1, the secret in 32 octets, and a [1] field whose bit string is the secret's public point |
| KeyGrammar.EcExactly | compat/channel_keys_oracle.py:752-770 | which values are SEC1 keys: version, key, parameters, public key and other fields in this order, each option taken where a field of its kind stands |
| KeyGrammar.Pkcs8Exactly | compat/channel_keys_oracle.py:788-812 | which values are PKCS#8 keys: version, algorithm, an octet string holding a SEC1 key, attributes and other fields |
| KeyGrammar.KeysExactly | compat/channel_keys_oracle.py:815-822 | a secret is parsed exactly from the values of one grammar or the other, when it is in range |
| KeyGrammar.DomainExactly | compat/channel_keys_oracle.py:712-730 | explicit domain parameters: five fields, then cofactor, hash and other fields |
| KeyGrammar.OctetsExactly | compat/channel_keys_oracle.py:596-611 | an octet string's value is the octets of its innermost segments in order, all others indefinite, up to the input limit |
| KeyGrammar.PlainBits | compat/channel_keys_oracle.py:613-640 | a plain bit string names up to seven unused bits, which read as zero |
| KeyDer.PrivateKeyFromDer | compat/channel_keys_oracle.py:815-822 | only secrets in range are returned |
| Compact.EncoderSafe | compat/headers_oracle.py:267-281 | the fix-up is unreachable and the assertions hold for every value below 2^2039, and only those |
| Compact.CompactRoundTrip | compat/headers_oracle.py:251-281 | decoding an encoding never raises the value, loses less than 2^(8(size-3)) or nothing, and re-encodes alike |
| Compact.GreatestRepresentable | compat/headers_oracle.py:251-281 | the encoding rounds to the greatest representable target not above the value |
| Compact.FromCompactIs | compat/headers_oracle.py:251-257 | a compact value stands for 23 bits of mantissa times 256^(size-3), fractions dropped |
| Compact.CalculateCompactIs | compat/headers_oracle.py:267-281 | the encoding has the least size that leaves the sign bit clear, the leading octets as mantissa, and the sign bit exactly for a negative non-zero one |
| Headers.SerializeInvertsDeserialize | compat/headers_oracle.py:215-241 | serialising a deserialised header gives the 112 octets back |
| Headers.DeserializeInvertsSerialize | compat/headers_oracle.py:215-241 | deserialising a serialised header gives its fields back |
| Headers.HeaderLayout | compat/headers_oracle.py:228-241 | where each field lies among the 112 octets: little-endian numbers, hashes as reversed hexadecimal |
| Headers.NextTarget | compat/headers_oracle.py:300-316 | the target never exceeds MAX_TARGET |
| Headers.NextTargetIs | compat/headers_oracle.py:300-316 | the target is min(MAX_TARGET, T * k / 150), the product exact for a target within the limit; k is 132 exactly up to 6 seconds, 225 exactly from 750 on, and 150 plus an eighth of the difference to 150, toward zero, in between |
| Headers.ScalesMonotone | compat/headers_oracle.py:305-312 | these conditions fix k, and it never falls as the distance grows |
| Headers.SlowerIsEasier | compat/headers_oracle.py:300-316 | a slower last block never makes the next target smaller |
| Headers.ClampedTimespan | compat/headers_oracle.py:305-312 | the scaling timespan is between 132 and 225 for any timestamps |
| Headers.MultiplyExact | compat/headers_oracle.py:291-292 | scaling a target within the limit never wraps modulo 2^256 |
| HeaderChain.Chain.Read | compat/headers_oracle.py:337-341 | the header at a height that counts, or out of bounds |
| HeaderChain.Splice | compat/headers_oracle.py:343-351 | the byte array after zero filling and the slice assignment, for any height, negative ones counting from the end |
| HeaderChain.Chain.Write | compat/headers_oracle.py:343-352 | the new octets and size for any height and octets; whole headers are spliced into whole headers |
| HeaderChain.WrittenSplices | compat/headers_oracle.py:343-351 | on whole headers the byte-level write is the slice assignment on headers, at any height |
| HeaderChain.NegativeStart | compat/headers_oracle.py:343-352 | after a write at a negative height `size` still counts all stored headers exactly when the slice lies inside the chain, counted from its end, and stops short of the end |
| HeaderChain.CheckChunk | compat/headers_oracle.py:390-408 | the loop with its rolling previous headers accepts exactly the chunks valid on top of the stored chain |
| HeaderChain.Chain.ValidateChunk | compat/headers_oracle.py:381-408 | at any height and whether or not all stored headers count: out of bounds exactly above the tip; accepted exactly when every header is valid on what precedes it, which is nothing below height 0 |
| HeaderChain.Chain.Connect | compat/headers_oracle.py:410-418 | all of a chunk is stored or none of it, with each outcome, at any height and in any state earlier connects leave |
| HeaderTheorems.ConnectKeepsValid | compat/headers_oracle.py:410-418 | from height 0 up the chain stays valid exactly when the one or two headers behind the chunk pass on top of it |
| HeaderTheorems.ConnectBelowKeepsValid | compat/headers_oracle.py:410-418 | below height 0 it stays valid exactly when what is left before the slice is valid and the first two headers of the chunk and the first two behind it pass where they now stand |
| HeaderTheorems.ConnectKeepsLinked | compat/headers_oracle.py:410-418 | from height 0 up the chain stays linked exactly when the chunk reaches the tip or the next header names its last one |
| HeaderTheorems.ConnectBelowKeepsLinked | compat/headers_oracle.py:410-418 | below height 0 it stays linked exactly when what is left before the slice is linked, the chunk names the last of it, and the next header behind names the chunk's last |
| HeaderWitness.MiddleConnectUnlinks | compat/headers_oracle.py:410-418 | a linked three-header chain and an accepted one-header chunk at height 1 that leaves it unlinked |
| HeaderWitness.NegativeConnectLosesStep | compat/headers_oracle.py:410-418 | on an empty chain the genesis header alone is accepted at height -1: one header is stored while `size` stays 0 |
| HeaderWitness.NegativeConnectUnlinks | compat/headers_oracle.py:410-418 | at height -2 a genesis-hash header is accepted over the second of three linked headers: three are stored and counted, and no longer linked |
| HeaderTheorems.ConnectKeepsBounded | compat/headers_oracle.py:354-418 | connecting at any height keeps every stored header's bits within MAX_TARGET, the blanks a negative start can bring in included |
| HeaderTheorems.TargetsStayBounded | compat/headers_oracle.py:291-418 | after any connects from an empty chain, at any heights, every stored target is within MAX_TARGET and scaling it is exact |
| HeaderTheorems.ValidationMultipliesExactly | compat/headers_oracle.py:291-408 | so is every product formed while a chunk is validated after such a run, at any height and accepted in the end or not |
| HeaderTheorems.RunStaysLinked | compat/headers_oracle.py:381-418 | connects that append or reach the tip keep every stored header counted and the whole chain valid and hash-linked from genesis |
| HeaderTheorems.ValidExactly | compat/headers_oracle.py:354-408 | a header passes exactly when it is linked and, with difficulty checks, carries the target the two before it set and its hash meets that target |
| HeaderTheorems.ConnectExactly | compat/headers_oracle.py:381-418 | at any height connect stores a chunk of whole headers that starts no higher than the size exactly when every header of it is in order behind those before it, and changes nothing otherwise |
| HeaderTheorems.RunHasWork | compat/headers_oracle.py:354-418 | after connects that append or reach the tip, with difficulty checks, every header behind genesis has the work its target asks for |
| HeaderTheorems.TipDetermines | compat/headers_oracle.py:354-369 | without hash collisions the tip determines a linked chain of its length |
| Staging.ActiveGraph | compat/component_graph_oracle.py:94-98 | skipped names are left out and the last of equal names counts |
| Staging.ActiveUnique | compat/component_graph_oracle.py:94-98 | the components and the skip set determine the active graph |
| Staging.Sorted | compat/component_graph_oracle.py:103-108 | the names of a set in strictly increasing order |
| Staging.LessMeans | compat/component_graph_oracle.py:103-108 | names are compared at their first difference, by code point |
| Staging.StageGraph | compat/component_graph_oracle.py:99-112 | staging succeeds exactly on dependency-closed acyclic graphs, each stage sorted; otherwise every remaining component, in sorted order, has an unstaged dependency |
| Staging.StagesFor | compat/component_graph_oracle.py:93-112 | the same for a list of components and a skip set, through their one active graph |
| Staging.EarliestStage | compat/component_graph_oracle.py:102-111 | no order places a component before its stage |
| Staging.StagesUnique | compat/component_graph_oracle.py:102-111 | the stages are determined by the graph |
| Staging.ResultUnique | compat/component_graph_oracle.py:99-112 | the whole result is determined, order inside the stages included |
| Staging.StuckExactly | compat/component_graph_oracle.py:107-108 | the components reported as stuck are exactly those in no orderable part of the graph |

## Left out

- AES block internals, SHA-384, the double SHA-256 and proof-of-work hashes, elliptic-curve points: parameters of the model.
- `json.Unmarshal`: a parameter; the round trip holds for every one that takes the fields of the printed object by name.
- The floating-point division in `ArithUint256.divide`: an arbitrary natural-valued function.
- Sockets, DNS, UDP trackers, timers, temporary files and fsync: steps or arguments that succeed or fail.
- Error texts and the identity of context errors: failures are distinguished only where a caller branches on them.
- Creator.SuggestedName: removing illegal characters and trimming space are one parameter that never lengthens a text, because regexp and Unicode space tables are library behaviour.
- BlobManager.BlobManager.Set: `written` stands for the whole temp-file, rename and sync sequence, because its parts are system calls.
- BlobManager.BlobManager.Delete: `stuck` names the files that cannot be removed, because removal is a system call.
- Copying of byte slices on the way in and out of the store: the model's values cannot alias.
- DHT lookups, tracker parsing and peer resolution behind the three discovery sources: each sends one arbitrary batch.
- `downloadStream` of the background downloader: its counts follow from the blobs ensured, an easy accumulator.
- PEM armour around keys, and `bytes.fromhex` skipping white space: library behaviour.
- Logging, status maps, settings and application wiring.
- HeaderChain.Chain.constructor: requires aligned initial octets, where the original raises ValueError, because a constructor cannot fail.
