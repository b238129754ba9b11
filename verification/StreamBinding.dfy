/** What a descriptor's printed form and its stream hash pin down, and what they leave open. */
module StreamBinding {
  import opened Base
  import Hex
  import opened Cipher
  import opened JsonText
  import opened Descriptor
  import opened Validation
  import opened Creator
  import opened StreamTheorems
  import opened EncodedSize

  ghost predicate Digests(sha: bytes -> bytes) {
    forall data: bytes :: |sha(data)| == Hex.DIGEST_SIZE
  }

  // ---------------------------------------------------------------- the stream hash

  /** The three texts the stream hash joins without separators. */
  function Joined(d: StreamDescriptor): bytes {
    d.streamName + d.key + d.suggestedFileName
  }

  /** Everything SHA-384 is applied to on the way to the stream hash. */
  function Hashed(sha: bytes -> bytes, d: StreamDescriptor): set<bytes> {
    {Joined(d) + sha(ItemDigests(sha, d.blobs)), ItemDigests(sha, d.blobs)} + set text | text in TextsOf(d.blobs)
  }

  ghost predicate NoClash(sha: bytes -> bytes, texts: set<bytes>) {
    forall x, y :: x in texts && y in texts && sha(x) == sha(y) ==> x == y
  }

  lemma SplitLast(a: bytes, b: bytes, x: bytes, y: bytes)
    requires |x| == |y| && a + x == b + y
    ensures a == b && x == y
  {
    assert a == (a + x)[..|a|] && b == (b + y)[..|b|];
    assert x == (a + x)[|a|..] && y == (b + y)[|b|..];
  }

  function TextsOf(blobs: seq<BlobInfo>): (r: seq<bytes>)
    ensures |r| == |blobs| && forall i :: 0 <= i < |r| ==> r[i] == ItemText(blobs[i])
  {
    seq(|blobs|, i requires 0 <= i < |blobs| => ItemText(blobs[i]))
  }

  /** The digests of some texts, one after the other. */
  function DigestsOf(sha: bytes -> bytes, texts: seq<bytes>): bytes {
    if texts == [] then [] else DigestsOf(sha, texts[..|texts| - 1]) + sha(texts[|texts| - 1])
  }

  lemma {:induction false} ItemDigestsOf(sha: bytes -> bytes, blobs: seq<BlobInfo>)
    ensures ItemDigests(sha, blobs) == DigestsOf(sha, TextsOf(blobs))
  {
    if blobs != [] {
      var n := |blobs| - 1;
      ItemDigestsOf(sha, blobs[..n]);
      assert TextsOf(blobs)[..n] == TextsOf(blobs[..n]);
    }
  }

  lemma {:induction false} DigestsLength(sha: bytes -> bytes, texts: seq<bytes>)
    requires Digests(sha)
    ensures |DigestsOf(sha, texts)| == 48 * |texts|
  {
    if texts != [] {
      DigestsLength(sha, texts[..|texts| - 1]);
    }
  }

  /** The joined digests determine the texts. */
  lemma {:induction false} DigestsDetermine(sha: bytes -> bytes, a: seq<bytes>, b: seq<bytes>, texts: set<bytes>)
    requires Digests(sha) && NoClash(sha, texts) && DigestsOf(sha, a) == DigestsOf(sha, b)
    requires (forall x :: x in a ==> x in texts) && (forall y :: y in b ==> y in texts)
    ensures a == b
  {
    DigestsLength(sha, a);
    DigestsLength(sha, b);
    if a != [] {
      var n := |a| - 1;
      SplitLast(DigestsOf(sha, a[..n]), DigestsOf(sha, b[..n]), sha(a[n]), sha(b[n]));
      DigestsDetermine(sha, a[..n], b[..n], texts);
      assert a[n] in texts && b[n] in texts;
      assert a == a[..n] + [a[n]] && b == b[..n] + [b[n]];
    }
  }

  lemma DecimalInjective(a: nat, b: nat)
    requires Decimal(a) == Decimal(b)
    ensures a == b
  {
    DecimalPrefixFree(a, b, [], []);
  }

  /** Data items of validated descriptors, at the same place, are determined by their texts. */
  lemma DataItemDetermined(a: BlobInfo, b: BlobInfo)
    requires DataItemOk(a) && DataItemOk(b) && HexOf16(a.iv) && HexOf16(b.iv) && a.num == b.num
    requires ItemText(a) == ItemText(b)
    ensures a == b
  {
    FourParts(a.hash, b.hash, Signed(a.num), a.iv, b.iv, Signed(a.length), Signed(b.length));
    DecimalInjective(a.length, b.length);
  }

  lemma FourParts(h: bytes, k: bytes, num: bytes, p: bytes, q: bytes, x: bytes, y: bytes)
    requires |h| == |k| && |p| == |q| && h + num + p + x == k + num + q + y
    ensures h == k && p == q && x == y
  {
    assert h + num + p + x == h + (num + (p + x));
    assert k + num + q + y == k + (num + (q + y));
    SplitFirst(h, k, num + (p + x), num + (q + y));
    SplitFirst(num, num, p + x, q + y);
    SplitFirst(p, q, x, y);
  }

  lemma TerminatorDetermined(a: BlobInfo, b: BlobInfo)
    requires a.hash == b.hash == [] && a.length == b.length == 0 && a.num == b.num && ItemText(a) == ItemText(b)
    ensures a == b
  {
    var num, zero := Signed(a.num), Signed(0);
    assert ItemText(a) == num + (a.iv + zero);
    assert ItemText(b) == num + (b.iv + zero);
    SplitFirst(num, num, a.iv + zero, b.iv + zero);
    SplitLast(a.iv, b.iv, zero, zero);
  }

  lemma SplitFirst(a: bytes, b: bytes, x: bytes, y: bytes)
    requires |a| == |b| && a + x == b + y
    ensures a == b && x == y
  {
    assert a == (a + x)[..|a|] && b == (b + y)[..|b|];
    assert x == (a + x)[|a|..] && y == (b + y)[|b|..];
  }

  lemma ItemDetermined(d: StreamDescriptor, e: StreamDescriptor, i: nat)
    requires StructureOk(d) && StructureOk(e) && i < |d.blobs| == |e.blobs|
    requires ItemText(d.blobs[i]) == ItemText(e.blobs[i])
    ensures d.blobs[i] == e.blobs[i]
  {
    if i < |d.blobs| - 1 {
      DataItemDetermined(d.blobs[i], e.blobs[i]);
    } else {
      TerminatorDetermined(d.blobs[i], e.blobs[i]);
    }
  }

  lemma BlobsDetermined(d: StreamDescriptor, e: StreamDescriptor)
    requires StructureOk(d) && StructureOk(e) && TextsOf(d.blobs) == TextsOf(e.blobs)
    ensures d.blobs == e.blobs
  {
    assert |d.blobs| == |TextsOf(d.blobs)| == |e.blobs|;
    forall i | 0 <= i < |d.blobs|
      ensures d.blobs[i] == e.blobs[i]
    {
      assert TextsOf(d.blobs)[i] == TextsOf(e.blobs)[i];
      ItemDetermined(d, e, i);
    }
  }

  /** The outer digest determines the joined text and the inner preimage. */
  lemma OuterDetermines(sha: bytes -> bytes, p: bytes, q: bytes, x: bytes, y: bytes, texts: set<bytes>)
    requires Digests(sha) && NoClash(sha, texts) && {p + sha(x), q + sha(y), x, y} <= texts
    requires Hex.Encode(sha(p + sha(x))) == Hex.Encode(sha(q + sha(y)))
    ensures p == q && x == y
  {
    Hex.DecodeEncode(sha(p + sha(x)));
    Hex.DecodeEncode(sha(q + sha(y)));
    SplitLast(p, q, sha(x), sha(y));
  }

  lemma ListDetermined(sha: bytes -> bytes, d: StreamDescriptor, e: StreamDescriptor, texts: set<bytes>)
    requires Digests(sha) && NoClash(sha, texts) && StructureOk(d) && StructureOk(e)
    requires ItemDigests(sha, d.blobs) == ItemDigests(sha, e.blobs)
    requires (forall x :: x in TextsOf(d.blobs) ==> x in texts) && (forall y :: y in TextsOf(e.blobs) ==> y in texts)
    ensures d.blobs == e.blobs
  {
    ItemDigestsOf(sha, d.blobs);
    ItemDigestsOf(sha, e.blobs);
    DigestsDetermine(sha, TextsOf(d.blobs), TextsOf(e.blobs), texts);
    BlobsDetermined(d, e);
  }

  /**
   Barring a collision among the texts hashed for the two, well-structured descriptors have the
   same stream hash exactly when their blob lists are equal and their name, key and
   suggested name are equal once joined.
   */
  lemma StreamHashBinds(sha: bytes -> bytes, d: StreamDescriptor, e: StreamDescriptor)
    requires Digests(sha) && StructureOk(d) && StructureOk(e) && NoClash(sha, Hashed(sha, d) + Hashed(sha, e))
    ensures StreamHash(sha, d) == StreamHash(sha, e) <==> Joined(d) == Joined(e) && d.blobs == e.blobs
  {
    if StreamHash(sha, d) == StreamHash(sha, e) {
      var texts := Hashed(sha, d) + Hashed(sha, e);
      OuterDetermines(sha, Joined(d), Joined(e), ItemDigests(sha, d.blobs), ItemDigests(sha, e.blobs), texts);
      ListDetermined(sha, d, e, texts);
    }
  }

  // ---------------------------------------------------------------- an accepted example

  /** A one-octet file named "a", with all randomness zero. */
  function Sample(sha: bytes -> bytes): Job {
    Job(BlockCipher((key: bytes, block: bytes) => block, (key: bytes, block: bytes) => block),
        sha, [0], [97], [97], seq(48, i => 0))
  }

  lemma SampleCreated(sha: bytes -> bytes)
    requires Digests(sha)
    ensures Sound(Sample(sha)) && Ready(Sample(sha)) && Created(Sample(sha)).Some?
  {
    var job := Sample(sha);
    LetterValid(97);
    assert BlobsFor(1) == 1 && LastBlob(1) == 16;
    assert DigitSum(1) == DigitSum(0) + Digits(0);
    assert Digits(16) == 1 + Digits(1);
    CreationSucceedsIff(job);
    SealedIff(job);
  }

  lemma LetterValid(b: byte)
    requires b < 0x80
    ensures ValidUtf8([b])
  {
    assert RuneLength([b]) == 1 && [b][1..] == [];
  }

  lemma SampleAccepted(sha: bytes -> bytes)
    requires Digests(sha)
    ensures Sound(Sample(sha)) && Ready(Sample(sha)) && Valid(sha, Built(Sample(sha)))
  {
    SampleCreated(sha);
  }

  // ---------------------------------------------------------------- two accepted descriptors that print alike

  const BROKEN: bytes := [0xFF, 97, 98]

  lemma BrokenWidth()
    ensures |Quote(BROKEN)| == 10 && !ValidUtf8(BROKEN)
  {
    var rest: bytes := [97, 98];
    assert BROKEN == [0xFF] + rest;
    LoneBefore(0xFF, rest);
    PlainAscii(rest);
  }

  /** A descriptor stays accepted when its stream type is replaced by one that prints as long. */
  lemma RetypedAccepted(sha: bytes -> bytes, d: StreamDescriptor, streamType: bytes)
    requires Valid(sha, d) && |Quote(d.key)| == 34 && |Quote(d.streamHash)| == 98
    requires |Quote(d.streamType)| == 10 && |Quote(streamType)| == 10
    ensures Valid(sha, d.(streamType := streamType))
  {
    var e := d.(streamType := streamType);
    DocumentWidth(d);
    DocumentWidth(e);
    MembersWidth(d);
    MembersWidth(e);
    RetypedHash(sha, d, e);
  }

  lemma RetypedHash(sha: bytes -> bytes, d: StreamDescriptor, e: StreamDescriptor)
    requires e == d.(streamType := e.streamType) && Valid(sha, d)
    ensures StructureOk(e) && MetadataOk(e) && HashOk(sha, e)
  {
    SameStreamHash(sha, d.(streamName := Normalized(d.streamName).value, suggestedFileName := Normalized(d.suggestedFileName).value),
                        e.(streamName := Normalized(e.streamName).value, suggestedFileName := Normalized(e.suggestedFileName).value));
  }

  lemma BuiltQuotes(job: Job)
    requires Sound(job) && Ready(job)
    ensures |Quote(Built(job).key)| == 34 && |Quote(Built(job).streamHash)| == 98 && |Quote(Built(job).streamType)| == 10
  {
    QuotedHex(Draw(job, 0));
    QuotedStreamHash(job, Unsealed(job));
    LbryfileWidth();
  }

  /** For every SHA-384 there are two different accepted descriptors that both printers print alike. */
  lemma AcceptedCollision(sha: bytes -> bytes) returns (d: StreamDescriptor, e: StreamDescriptor)
    requires Digests(sha)
    ensures d != e && Judge(sha, d) == Accepted && Judge(sha, e) == Accepted
    ensures Marshal(d) == Marshal(e) && MarshalOld(d) == MarshalOld(e)
  {
    var job := Sample(sha);
    SampleAccepted(sha);
    BuiltQuotes(job);
    BrokenWidth();
    d := Built(job).(streamType := BROKEN);
    RetypedAccepted(sha, Built(job), BROKEN);
    e := HasTwin(sha, d);
  }

  // ---------------------------------------------------------------- two accepted descriptors with one stream hash

  /** The same joined text, given by the octets it spells, cut after k of them and sixteen later. */
  function Recut(d: StreamDescriptor, plain: bytes, k: nat): StreamDescriptor
    requires k + 16 <= |plain|
  {
    d.(streamName := Hex.Encode(plain[..k]),
       key := Hex.Encode(plain[k..k + 16]),
       suggestedFileName := Hex.Encode(plain[k + 16..]))
  }

  lemma {:induction false} EncodeAppend(a: bytes, b: bytes)
    ensures Hex.Encode(a + b) == Hex.Encode(a) + Hex.Encode(b)
  {
    if a == [] {
      assert a + b == b;
    } else {
      assert (a + b)[1..] == a[1..] + b;
      EncodeAppend(a[1..], b);
    }
  }

  lemma EncodeThree(a: bytes, b: bytes, c: bytes)
    ensures Hex.Encode(a + b + c) == Hex.Encode(a) + Hex.Encode(b) + Hex.Encode(c)
  {
    EncodeAppend(a + b, c);
    EncodeAppend(a, b);
  }

  lemma CutThree(plain: bytes, k: nat)
    requires k + 16 <= |plain|
    ensures plain == plain[..k] + plain[k..k + 16] + plain[k + 16..]
  {
  }

  lemma ThreeParts(plain: bytes, k: nat)
    requires k + 16 <= |plain|
    ensures Hex.Encode(plain) == Hex.Encode(plain[..k]) + Hex.Encode(plain[k..k + 16]) + Hex.Encode(plain[k + 16..])
  {
    CutThree(plain, k);
    EncodeThree(plain[..k], plain[k..k + 16], plain[k + 16..]);
  }

  /** Every cut of one text has the same stream hash and prints as long. */
  lemma RecutKeeps(sha: bytes -> bytes, d: StreamDescriptor, plain: bytes, j: nat, k: nat)
    requires j + 16 <= |plain| && k + 16 <= |plain|
    ensures Joined(Recut(d, plain, j)) == Joined(Recut(d, plain, k)) == Hex.Encode(plain)
    ensures StreamHash(sha, Recut(d, plain, j)) == StreamHash(sha, Recut(d, plain, k))
    ensures |Marshal(Recut(d, plain, j))| == |Marshal(Recut(d, plain, k))|
  {
    ThreeParts(plain, j);
    ThreeParts(plain, k);
    RecutWidth(d, plain, j);
    RecutWidth(d, plain, k);
  }

  lemma RecutWidth(d: StreamDescriptor, plain: bytes, k: nat)
    requires k + 16 <= |plain|
    ensures |Marshal(Recut(d, plain, k))|
            == 12 + 31 + 3 + 11 + 11 + 11 + 19 + 2 * |plain| + 6 + |Quote(d.streamHash)| + |Quote(d.streamType)|
               + ListWidth(Widths(d.blobs), true)
  {
    var e := Recut(d, plain, k);
    QuotedHex(plain[..k]);
    QuotedHex(plain[k..k + 16]);
    QuotedHex(plain[k + 16..]);
    FiveFields(Members(e));
    DocumentWidth(e);
  }

  lemma KeyText(key: bytes)
    requires |key| == 16
    ensures HexOf16(Hex.Encode(key))
  {
    Hex.DecodeEncode(key);
  }

  /**
   Wherever an accepted descriptor's joined text is cut anew, the result is accepted exactly
   when both new names are UTF-8, and it has the same stream hash.
   */
  lemma RecutAccepted(sha: bytes -> bytes, d: StreamDescriptor, plain: bytes, j: nat, k: nat)
    requires j + 16 <= |plain| && k + 16 <= |plain| && Valid(sha, d) && d == Recut(d, plain, j)
    ensures StreamHash(sha, Recut(d, plain, k)) == StreamHash(sha, d)
    ensures Judge(sha, Recut(d, plain, k)) == Accepted <==> ValidUtf8(plain[..k]) && ValidUtf8(plain[k + 16..])
  {
    var e := Recut(d, plain, k);
    RecutKeeps(sha, d, plain, j, k);
    KeyText(plain[k..k + 16]);
    NameNormalized(plain[..j]);
    NameNormalized(plain[j + 16..]);
    NameNormalized(plain[..k]);
    NameNormalized(plain[k + 16..]);
    RecutJudged(sha, d, e, ValidUtf8(plain[..k]) && ValidUtf8(plain[k + 16..]));
  }

  lemma RecutJudged(sha: bytes -> bytes, d: StreamDescriptor, e: StreamDescriptor, named: bool)
    requires Valid(sha, d) && HexOf16(e.key) && e.blobs == d.blobs && |Marshal(e)| == |Marshal(d)|
    requires MetadataOk(d) ==> Normalized(d.streamName) == Some(d.streamName) && Normalized(d.suggestedFileName) == Some(d.suggestedFileName)
    requires MetadataOk(e) <==> named
    requires named ==> Normalized(e.streamName) == Some(e.streamName) && Normalized(e.suggestedFileName) == Some(e.suggestedFileName)
    requires StreamHash(sha, e) == StreamHash(sha, d) && e.streamHash == d.streamHash
    ensures Judge(sha, e) == Accepted <==> named
  {
  }

  lemma SplitThree(x: bytes, y: bytes, z: bytes, a: bytes, b: bytes, c: bytes)
    requires |x| == |a| && |y| == |b| && x + y + z == a + b + c
    ensures x == a && y == b && z == c
  {
    Regroup(x, y, z);
    Regroup(a, b, c);
    SplitFirst(x, a, y + z, b + c);
    SplitFirst(y, b, z, c);
  }

  /** How long the fields of an accepted descriptor are. */
  lemma FieldLengths(sha: bytes -> bytes, e: StreamDescriptor) returns (k: nat)
    requires Valid(sha, e)
    ensures |e.streamName| == 2 * k && |e.key| == 32
  {
    k := |Hex.Decode(e.streamName).value|;
  }

  /** And nothing else with that joined text is accepted. */
  lemma OnlyRecuts(sha: bytes -> bytes, d: StreamDescriptor, e: StreamDescriptor, plain: bytes) returns (k: nat)
    requires Valid(sha, e) && Joined(e) == Hex.Encode(plain)
    requires e == d.(streamName := e.streamName, key := e.key, suggestedFileName := e.suggestedFileName)
    ensures k + 16 <= |plain| && e == Recut(d, plain, k)
  {
    k := FieldLengths(sha, e);
    assert |Joined(e)| == 2 * |plain|;
    ThreeParts(plain, k);
    SplitThree(e.streamName, e.key, e.suggestedFileName,
               Hex.Encode(plain[..k]), Hex.Encode(plain[k..k + 16]), Hex.Encode(plain[k + 16..]));
  }

  lemma SampleCuts(key: bytes) returns (plain: bytes)
    requires |key| == 16 && key[0] == 0 && key[15] == 0
    ensures |plain| == 18 && plain[..1] == [97] && plain[1..17] == key && plain[17..] == [97]
    ensures ValidUtf8(plain[..2]) && ValidUtf8(plain[18..]) && plain[2..18] != key
  {
    plain := [97] + key + [97];
    LetterValid(0);
    assert IsRune([97]);
    RuneBefore([97], [0]);
    assert plain[..2] == [97] + [0] && plain[18..] == [];
    assert plain[2..18][15] == 97;
  }

  lemma EncodeDiffers(a: bytes, b: bytes)
    requires a != b
    ensures Hex.Encode(a) != Hex.Encode(b)
  {
    Hex.DecodeEncode(a);
    Hex.DecodeEncode(b);
  }

  /** For every SHA-384 two accepted descriptors with different names and keys have the same stream hash. */
  lemma AcceptedShift(sha: bytes -> bytes) returns (d: StreamDescriptor, e: StreamDescriptor)
    requires Digests(sha)
    ensures Judge(sha, d) == Accepted && Judge(sha, e) == Accepted && d.streamHash == e.streamHash
    ensures d.streamName != e.streamName && d.key != e.key && d.blobs == e.blobs
  {
    var job := Sample(sha);
    SampleAccepted(sha);
    d := Built(job);
    var key := Draw(job, 0);
    var plain := SampleCuts(key);
    assert d == Recut(d, plain, 1);
    e := Recut(d, plain, 2);
    RecutAccepted(sha, d, plain, 1, 2);
    EncodeDiffers(key, plain[2..18]);
  }
}
