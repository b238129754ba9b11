/** ValidateDescriptor, DecodeDescriptor and ContentBlobs of blob/descriptor.go, and what they guarantee. */
module Validation {
  import opened Base
  import Hex
  import opened JsonText
  import opened Descriptor

  // ---------------------------------------------------------------- the stream hash

  function ItemText(item: BlobInfo): bytes {
    (if item.length != 0 then item.hash else []) + Signed(item.num) + item.iv + Signed(item.length)
  }

  function ItemDigests(sha: bytes -> bytes, blobs: seq<BlobInfo>): bytes {
    if blobs == [] then [] else ItemDigests(sha, blobs[..|blobs| - 1]) + sha(ItemText(blobs[|blobs| - 1]))
  }

  function StreamHash(sha: bytes -> bytes, d: StreamDescriptor): bytes {
    Hex.Encode(sha(d.streamName + d.key + d.suggestedFileName + sha(ItemDigests(sha, d.blobs))))
  }

  /** calculateCreatedStreamHash: the inner digest is fed item by item. */
  method CalculateStreamHash(sha: bytes -> bytes, d: StreamDescriptor) returns (hash: bytes)
    ensures hash == StreamHash(sha, d)
  {
    var written := [];
    for index := 0 to |d.blobs|
      invariant written == ItemDigests(sha, d.blobs[..index])
    {
      var item := d.blobs[index];
      var text := if item.length != 0 then item.hash else [];
      text := text + Signed(item.num) + item.iv + Signed(item.length);
      assert d.blobs[..index + 1][..index] == d.blobs[..index];
      written := written + sha(text);
    }
    assert d.blobs[..|d.blobs|] == d.blobs;
    hash := Hex.Encode(sha(d.streamName + d.key + d.suggestedFileName + sha(written)));
  }

  // ---------------------------------------------------------------- the checks

  predicate HexOf16(s: bytes) {
    var d := Hex.Decode(s);
    d.Some? && |d.value| == 16
  }

  predicate DataItemOk(item: BlobInfo) {
    && 16 <= item.length <= MAX_BLOB_SIZE && item.length % 16 == 0
    && Hex.Canonical(item.hash)
  }

  predicate StructureOk(d: StreamDescriptor) {
    && 0 < |d.blobs| <= MAX_DESCRIPTOR_BLOBS
    && HexOf16(d.key)
    && (forall i :: 0 <= i < |d.blobs| ==> HexOf16(d.blobs[i].iv) && d.blobs[i].num == i)
    && (forall i :: 0 <= i < |d.blobs| - 1 ==> DataItemOk(d.blobs[i]))
    && d.blobs[|d.blobs| - 1].length == 0 && d.blobs[|d.blobs| - 1].hash == []
  }

  /** normalizeMetadata */
  function Normalized(source: bytes): Option<bytes> {
    match Hex.Decode(source)
    case None => None
    case Some(text) => if ValidUtf8(text) then Some(Hex.Encode(text)) else None
  }

  predicate MetadataOk(d: StreamDescriptor) {
    Normalized(d.streamName).Some? && Normalized(d.suggestedFileName).Some?
  }

  predicate HashOk(sha: bytes -> bytes, d: StreamDescriptor)
    requires MetadataOk(d)
  {
    d.streamHash == StreamHash(sha, d.(streamName := Normalized(d.streamName).value,
                                       suggestedFileName := Normalized(d.suggestedFileName).value))
  }

  datatype Verdict = Accepted | BadStructure | TooLarge | BadMetadata | HashMismatch

  /** Which group of checks turns a descriptor down, in the order the code applies them. */
  function Judge(sha: bytes -> bytes, d: StreamDescriptor): Verdict {
    if !StructureOk(d) then BadStructure
    else if |Marshal(d)| > MAX_DESCRIPTOR_SIZE then TooLarge
    else if !MetadataOk(d) then BadMetadata
    else if !HashOk(sha, d) then HashMismatch
    else Accepted
  }

  predicate Valid(sha: bytes -> bytes, d: StreamDescriptor) {
    Judge(sha, d) == Accepted
  }

  method CheckBlobs(d: StreamDescriptor) returns (ok: bool)
    requires 0 < |d.blobs| <= MAX_DESCRIPTOR_BLOBS
    ensures ok <==> && (forall i :: 0 <= i < |d.blobs| ==> HexOf16(d.blobs[i].iv) && d.blobs[i].num == i)
                    && (forall i :: 0 <= i < |d.blobs| - 1 ==> DataItemOk(d.blobs[i]))
  {
    var last, total := |d.blobs| - 1, 0;
    for index := 0 to |d.blobs|
      invariant forall i :: 0 <= i < index ==> HexOf16(d.blobs[i].iv) && d.blobs[i].num == i
      invariant forall i :: 0 <= i < index && i < last ==> DataItemOk(d.blobs[i])
      invariant 0 <= total <= index * MAX_BLOB_SIZE
    {
      var item := d.blobs[index];
      if !HexOf16(item.iv) || item.num != index {
        return false;
      }
      if index < last {
        if item.length == 0 || item.hash == [] {
          assert !Hex.Canonical([]);
          return false;
        }
        if item.length < 16 || item.length > MAX_BLOB_SIZE || item.length % 16 != 0 || !Hex.Canonical(item.hash) {
          return false;
        }
        // The int64 guard on the running total can never fire.
        assert total <= MAX_INT64 - (item.length - 1);
        total := total + (item.length - 1);
      }
    }
    return true;
  }

  method ValidateDescriptor(sha: bytes -> bytes, d: StreamDescriptor) returns (verdict: Verdict)
    ensures verdict == Judge(sha, d)
  {
    if |d.blobs| == 0 || |d.blobs| > MAX_DESCRIPTOR_BLOBS || !HexOf16(d.key) {
      return BadStructure;
    }
    var ok := CheckBlobs(d);
    if !ok {
      return BadStructure;
    }
    var terminator := d.blobs[|d.blobs| - 1];
    if terminator.length != 0 || terminator.hash != [] {
      return BadStructure;
    }
    var encoded := MarshalDescriptor(d);
    if |encoded| > MAX_DESCRIPTOR_SIZE {
      return TooLarge;
    }
    var name, suggested := Normalized(d.streamName), Normalized(d.suggestedFileName);
    if name.None? || suggested.None? {
      return BadMetadata;
    }
    var hash := CalculateStreamHash(sha, d.(streamName := name.value, suggestedFileName := suggested.value));
    if hash != d.streamHash {
      return HashMismatch;
    }
    return Accepted;
  }

  /** DecodeDescriptor around json.Unmarshal, which is a parameter. */
  function DecodeDescriptor(sha: bytes -> bytes, unmarshal: bytes -> Option<StreamDescriptor>,
                            sdHash: bytes, data: bytes): Option<StreamDescriptor>
  {
    if !Hex.Canonical(sdHash) then None
    else if |data| == 0 || |data| > MAX_DESCRIPTOR_SIZE then None
    else if Hex.Encode(sha(data)) != sdHash then None
    else match unmarshal(data)
      case None => None
      case Some(d) => if d.key == [] || d.blobs == [] || !Valid(sha, d) then None else Some(d)
  }

  /** What is decoded: the text of that hash, within the size limit, to a descriptor that is accepted. */
  lemma DecodesExactly(sha: bytes -> bytes, unmarshal: bytes -> Option<StreamDescriptor>, sdHash: bytes, data: bytes, d: StreamDescriptor)
    ensures DecodeDescriptor(sha, unmarshal, sdHash, data) == Some(d) <==>
              && Hex.Canonical(sdHash) && Hex.Encode(sha(data)) == sdHash && 0 < |data| <= MAX_DESCRIPTOR_SIZE
              && unmarshal(data) == Some(d) && Valid(sha, d)
  {
    assert Valid(sha, d) ==> d.key != [] by {
      assert Hex.Decode([]) == Some([]);
    }
  }

  // ---------------------------------------------------------------- content blobs

  predicate IsContent(item: BlobInfo) {
    item.length > 0 && item.hash != []
  }

  function Content(blobs: seq<BlobInfo>): seq<BlobInfo> {
    if blobs == [] then []
    else Content(blobs[..|blobs| - 1]) + if IsContent(blobs[|blobs| - 1]) then [blobs[|blobs| - 1]] else []
  }

  method ContentBlobs(d: StreamDescriptor) returns (r: seq<BlobInfo>)
    ensures r == Content(d.blobs)
  {
    r := [];
    for index := 0 to |d.blobs|
      invariant r == Content(d.blobs[..index])
    {
      assert d.blobs[..index + 1][..index] == d.blobs[..index];
      if d.blobs[index].length > 0 && d.blobs[index].hash != [] {
        r := r + [d.blobs[index]];
      }
    }
    assert d.blobs[..|d.blobs|] == d.blobs;
  }

  lemma {:induction false} ContentKeepsAll(blobs: seq<BlobInfo>)
    requires forall i :: 0 <= i < |blobs| ==> IsContent(blobs[i])
    ensures Content(blobs) == blobs
  {
    if blobs != [] {
      ContentKeepsAll(blobs[..|blobs| - 1]);
      assert blobs == blobs[..|blobs| - 1] + [blobs[|blobs| - 1]];
    }
  }

  /** On a validated structure the filter drops exactly the terminator. */
  lemma ContentIsAllButTerminator(d: StreamDescriptor)
    requires StructureOk(d)
    ensures Content(d.blobs) == d.blobs[..|d.blobs| - 1]
  {
    var data := d.blobs[..|d.blobs| - 1];
    forall i | 0 <= i < |data|
      ensures IsContent(data[i])
    {
      assert DataItemOk(d.blobs[i]);
    }
    ContentKeepsAll(data);
  }

  // ---------------------------------------------------------------- printers are injective

  lemma HexOf16Text(s: bytes)
    requires HexOf16(s)
    ensures Settled(s)
  {
    Hex.DecodesIffDigits(s);
    HexPlain(s);
  }

  lemma CanonicalText(s: bytes)
    requires Hex.Canonical(s)
    ensures Settled(s)
  {
    HexPlain(s);
  }

  lemma ValidItemsPrintable(d: StreamDescriptor)
    requires StructureOk(d)
    ensures AllPrintable(d.blobs)
  {
    forall i | 0 <= i < |d.blobs|
      ensures Printable(d.blobs[i])
    {
      HexOf16Text(d.blobs[i].iv);
      if i < |d.blobs| - 1 {
        assert DataItemOk(d.blobs[i]);
        CanonicalText(d.blobs[i].hash);
      }
    }
  }

  lemma ValidTexts(sha: bytes -> bytes, d: StreamDescriptor)
    requires Valid(sha, d)
    ensures Settled(d.key) && Settled(d.streamHash) && Settled(d.streamName) && Settled(d.suggestedFileName)
  {
    HexOf16Text(d.key);
    Hex.DecodesIffDigits(d.streamName);
    HexPlain(d.streamName);
    Hex.DecodesIffDigits(d.suggestedFileName);
    HexPlain(d.suggestedFileName);
    EncodedText(d, sha);
  }

  lemma EncodedText(d: StreamDescriptor, sha: bytes -> bytes)
    requires MetadataOk(d) && HashOk(sha, d)
    ensures Settled(d.streamHash)
  {
    var e := d.(streamName := Normalized(d.streamName).value, suggestedFileName := Normalized(d.suggestedFileName).value);
    var digest := sha(e.streamName + e.key + e.suggestedFileName + sha(ItemDigests(sha, e.blobs)));
    Hex.DecodeEncode(digest);
    Hex.DecodesIffDigits(d.streamHash);
    HexPlain(d.streamHash);
  }

  lemma HeadedTokens(f: seq<Token>, g: seq<Token>, s: seq<Token>, t: seq<Token>)
    requires |f| == |g| && PairsOk(f, g, |f|) && Aligned(s, t) && Render(f + s) == Render(g + t)
    ensures f == g && s == t
  {
    AlignEntry(f, g, s, t);
    RenderInjective(f + s, g + t);
    assert f == (f + s)[..|f|] == g;
    assert s == (f + s)[|f|..] == t;
  }

  predicate FieldsOk(p: seq<(string, bytes)>, q: seq<(string, bytes)>) {
    |p| == |q| && forall i :: 0 <= i < |p| ==> p[i].0 == q[i].0 && Settled(p[i].1) && Settled(q[i].1)
  }

  /** A printed document determines its opening, its entries and its members. */
  lemma DocumentInjective(
    f: seq<Token>, g: seq<Token>, a: seq<BlobInfo>, b: seq<BlobInfo>,
    p: seq<(string, bytes)>, q: seq<(string, bytes)>, layout: Layout)
    requires |f| == |g| && PairsOk(f, g, |f|) && FieldsOk(p, q)
    requires AllPrintable(a) && AllPrintable(b)
    requires Render(f + Entries(a, true, Fields(p), layout)) == Render(g + Entries(b, true, Fields(q), layout))
    ensures f == g && a == b && |p| == |q| && forall i :: 0 <= i < |p| ==> p[i].1 == q[i].1
  {
    ListsAligned(a, b, p, q, layout);
    HeadedTokens(f, g, Entries(a, true, Fields(p), layout), Entries(b, true, Fields(q), layout));
    ListsDetermine(a, b, p, q, layout);
  }

  lemma ListsAligned(a: seq<BlobInfo>, b: seq<BlobInfo>,
                     p: seq<(string, bytes)>, q: seq<(string, bytes)>, layout: Layout)
    requires FieldsOk(p, q) && AllPrintable(a) && AllPrintable(b)
    ensures Aligned(Entries(a, true, Fields(p), layout), Entries(b, true, Fields(q), layout))
  {
    FieldsAligned(p, q);
    EntriesAligned(a, b, true, Fields(p), Fields(q), layout);
  }

  lemma ListsDetermine(a: seq<BlobInfo>, b: seq<BlobInfo>,
                       p: seq<(string, bytes)>, q: seq<(string, bytes)>, layout: Layout)
    requires |p| == |q| && AllPrintable(a) && AllPrintable(b)
    requires Entries(a, true, Fields(p), layout) == Entries(b, true, Fields(q), layout)
    ensures a == b && forall i :: 0 <= i < |p| ==> p[i].1 == q[i].1
  {
    EntriesDetermine(a, b, true, Fields(p), Fields(q), layout);
    FieldsDetermine(p, q);
  }

  predicate TextsOk(d: StreamDescriptor) {
    && Settled(d.key) && Settled(d.streamHash) && Settled(d.streamName)
    && Settled(d.suggestedFileName) && Settled(d.streamType)
  }

  lemma MembersOk(d: StreamDescriptor, e: StreamDescriptor)
    requires TextsOk(d) && TextsOk(e)
    ensures FieldsOk(Members(d), Members(e))
  {
  }

  lemma OldMembersOk(d: StreamDescriptor, e: StreamDescriptor)
    requires TextsOk(d) && TextsOk(e)
    ensures FieldsOk(OldMembers(d), OldMembers(e))
    ensures |OldOpening(d)| == |OldOpening(e)| && PairsOk(OldOpening(d), OldOpening(e), |OldOpening(d)|)
  {
  }

  /** The sorted printer is injective where nothing in the stream type needs repair. */
  lemma SettledInjective(sha: bytes -> bytes, d: StreamDescriptor, e: StreamDescriptor)
    requires Valid(sha, d) && Valid(sha, e) && Settled(d.streamType) && Settled(e.streamType)
    requires Marshal(d) == Marshal(e)
    ensures d == e
  {
    ValidItemsPrintable(d);
    ValidItemsPrintable(e);
    ValidTexts(sha, d);
    ValidTexts(sha, e);
    MembersOk(d, e);
    DocumentInjective([OPENING], [OPENING], d.blobs, e.blobs, Members(d), Members(e), Sorted);
    SameMembers(d, e);
  }

  lemma SameMembers(d: StreamDescriptor, e: StreamDescriptor)
    requires forall i :: 0 <= i < 5 ==> Members(d)[i].1 == Members(e)[i].1
    ensures d == e.(blobs := d.blobs)
  {
    var p, q := Members(d), Members(e);
    assert p[0].1 == q[0].1 && p[1].1 == q[1].1 && p[2].1 == q[2].1 && p[3].1 == q[3].1 && p[4].1 == q[4].1;
  }

  lemma SameOldMembers(d: StreamDescriptor, e: StreamDescriptor)
    requires OldOpening(d) == OldOpening(e)
    requires forall i :: 0 <= i < 4 ==> OldMembers(d)[i].1 == OldMembers(e)[i].1
    ensures d == e.(blobs := d.blobs)
  {
    var p, q := OldMembers(d), OldMembers(e);
    assert OldOpening(d)[1] == OldOpening(e)[1];
    assert p[0].1 == q[0].1 && p[1].1 == q[1].1 && p[2].1 == q[2].1 && p[3].1 == q[3].1;
  }

  lemma {:induction false} ThroughAll(blobs: seq<BlobInfo>)
    requires forall i :: 0 <= i < |blobs| - 1 ==> blobs[i].hash != []
    ensures Through(blobs) == blobs
  {
    if blobs != [] {
      ThroughAll(blobs[1..]);
      assert blobs == [blobs[0]] + blobs[1..];
    }
  }

  /** The early break of the old-sort printer drops no entry of a validated descriptor. */
  lemma OldSortDropsNothing(d: StreamDescriptor)
    requires StructureOk(d)
    ensures MarshalOld(d) == OldDocument(d, d.blobs)
  {
    forall i | 0 <= i < |d.blobs| - 1
      ensures d.blobs[i].hash != []
    {
      assert DataItemOk(d.blobs[i]);
    }
    ThroughAll(d.blobs);
  }

  /** The old-sort printer likewise. */
  lemma SettledOldInjective(sha: bytes -> bytes, d: StreamDescriptor, e: StreamDescriptor)
    requires Valid(sha, d) && Valid(sha, e) && Settled(d.streamType) && Settled(e.streamType)
    requires MarshalOld(d) == MarshalOld(e)
    ensures d == e
  {
    OldSortDropsNothing(d);
    OldSortDropsNothing(e);
    ValidItemsPrintable(d);
    ValidItemsPrintable(e);
    ValidTexts(sha, d);
    ValidTexts(sha, e);
    OldMembersOk(d, e);
    DocumentInjective(OldOpening(d), OldOpening(e), d.blobs, e.blobs, OldMembers(d), OldMembers(e), OldSort);
    SameOldMembers(d, e);
  }

  // ---------------------------------------------------------------- what printing loses

  /** Descriptors that differ at most in how their stream types are broken. */
  predicate SameUpToRepair(d: StreamDescriptor, e: StreamDescriptor) {
    d == e.(streamType := d.streamType) && Repaired(d.streamType) == Repaired(e.streamType)
  }

  /** They print alike under both printers and are judged alike: the stream type is outside the stream hash. */
  lemma RepairKeeps(sha: bytes -> bytes, d: StreamDescriptor, e: StreamDescriptor)
    requires SameUpToRepair(d, e)
    ensures Marshal(d) == Marshal(e) && MarshalOld(d) == MarshalOld(e) && (Valid(sha, d) <==> Valid(sha, e))
  {
    QuoteEqualIff(d.streamType, e.streamType);
    SameMarshal(d, e);
    SameMarshalOld(d, e);
    SameJudgement(sha, d, e);
  }

  lemma SameMarshal(d: StreamDescriptor, e: StreamDescriptor)
    requires d == e.(streamType := d.streamType) && Quote(d.streamType) == Quote(e.streamType)
    ensures Marshal(d) == Marshal(e)
  {
    SameRendering([OPENING], Members(d), Members(e), d.blobs, Sorted);
  }

  lemma SameMarshalOld(d: StreamDescriptor, e: StreamDescriptor)
    requires d == e.(streamType := d.streamType) && Quote(d.streamType) == Quote(e.streamType)
    ensures MarshalOld(d) == MarshalOld(e)
  {
    SameRendering(OldOpening(d), OldMembers(d), OldMembers(e), Through(d.blobs), OldSort);
  }

  lemma SameJudgement(sha: bytes -> bytes, d: StreamDescriptor, e: StreamDescriptor)
    requires d == e.(streamType := d.streamType) && Marshal(d) == Marshal(e)
    ensures Valid(sha, d) <==> Valid(sha, e)
  {
    assert StructureOk(d) <==> StructureOk(e);
    if MetadataOk(d) {
      SameStreamHash(sha, d.(streamName := Normalized(d.streamName).value, suggestedFileName := Normalized(d.suggestedFileName).value),
                          e.(streamName := Normalized(e.streamName).value, suggestedFileName := Normalized(e.suggestedFileName).value));
    }
  }

  /** The stream hash covers neither the stream type nor itself. */
  lemma SameStreamHash(sha: bytes -> bytes, d: StreamDescriptor, e: StreamDescriptor)
    requires d.streamName == e.streamName && d.key == e.key && d.suggestedFileName == e.suggestedFileName && d.blobs == e.blobs
    ensures StreamHash(sha, d) == StreamHash(sha, e)
  {
  }

  function RepairedType(d: StreamDescriptor): StreamDescriptor {
    d.(streamType := Repaired(d.streamType))
  }

  lemma RepairedTypeKeeps(sha: bytes -> bytes, d: StreamDescriptor)
    requires Valid(sha, d)
    ensures Valid(sha, RepairedType(d)) && Settled(RepairedType(d).streamType)
    ensures Marshal(RepairedType(d)) == Marshal(d) && MarshalOld(RepairedType(d)) == MarshalOld(d)
  {
    RepairedPrintsAlike(d.streamType);
    RepairKeeps(sha, RepairedType(d), d);
  }

  /** Validated descriptors print alike exactly when they differ at most in how their stream types are broken. */
  lemma MarshalEqualIff(sha: bytes -> bytes, d: StreamDescriptor, e: StreamDescriptor)
    requires Valid(sha, d) && Valid(sha, e)
    ensures Marshal(d) == Marshal(e) <==> SameUpToRepair(d, e)
    ensures MarshalOld(d) == MarshalOld(e) <==> SameUpToRepair(d, e)
  {
    RepairedTypeKeeps(sha, d);
    RepairedTypeKeeps(sha, e);
    if Marshal(d) == Marshal(e) {
      SettledInjective(sha, RepairedType(d), RepairedType(e));
    }
    if MarshalOld(d) == MarshalOld(e) {
      SettledOldInjective(sha, RepairedType(d), RepairedType(e));
    }
    if SameUpToRepair(d, e) {
      RepairKeeps(sha, d, e);
    }
  }

  lemma OnlySelf(sha: bytes -> bytes, d: StreamDescriptor, e: StreamDescriptor)
    requires Valid(sha, d) && Valid(sha, e) && ValidUtf8(d.streamType)
    requires Marshal(e) == Marshal(d) || MarshalOld(e) == MarshalOld(d)
    ensures e == d
  {
    MarshalEqualIff(sha, e, d);
    ValidIsSettled(d.streamType);
    RepairedToValid(d.streamType, e.streamType);
  }

  lemma HasTwin(sha: bytes -> bytes, d: StreamDescriptor) returns (e: StreamDescriptor)
    requires Valid(sha, d) && !ValidUtf8(d.streamType)
    ensures e != d && Valid(sha, e) && Marshal(e) == Marshal(d) && MarshalOld(e) == MarshalOld(d)
  {
    e := d.(streamType := Twin(d.streamType));
    TwinPrintsAlike(d.streamType);
    RepairKeeps(sha, d, e);
  }

  /** A validated descriptor is the only one with its printed form exactly when its stream type is UTF-8. */
  lemma MarshalUniqueIff(sha: bytes -> bytes, d: StreamDescriptor)
    requires Valid(sha, d)
    ensures ValidUtf8(d.streamType) <==> forall e :: Valid(sha, e) && Marshal(e) == Marshal(d) ==> e == d
  {
    if ValidUtf8(d.streamType) {
      forall e | Valid(sha, e) && Marshal(e) == Marshal(d)
        ensures e == d
      {
        OnlySelf(sha, d, e);
      }
    } else {
      var e := HasTwin(sha, d);
    }
  }

  /** The same for the old-sort printer. */
  lemma MarshalOldUniqueIff(sha: bytes -> bytes, d: StreamDescriptor)
    requires Valid(sha, d)
    ensures ValidUtf8(d.streamType) <==> forall e :: Valid(sha, e) && MarshalOld(e) == MarshalOld(d) ==> e == d
  {
    if ValidUtf8(d.streamType) {
      forall e | Valid(sha, e) && MarshalOld(e) == MarshalOld(d)
        ensures e == d
      {
        OnlySelf(sha, d, e);
      }
    } else {
      var e := HasTwin(sha, d);
    }
  }

  lemma {:induction false} SameFields(p: seq<(string, bytes)>, q: seq<(string, bytes)>)
    requires |p| == |q| && forall i :: 0 <= i < |p| ==> p[i].0 == q[i].0 && Quote(p[i].1) == Quote(q[i].1)
    ensures Render(Fields(p)) == Render(Fields(q))
  {
    if p != [] {
      SameFields(p[1..], q[1..]);
      var f, g := [FieldName(p[0].0), Str(p[0].1)], [FieldName(q[0].0), Str(q[0].1)];
      RenderAppend(f, Fields(p[1..]));
      RenderAppend(g, Fields(q[1..]));
      assert f[1..] == [Str(p[0].1)] && g[1..] == [Str(q[0].1)];
      RenderOne(Str(p[0].1));
      RenderOne(Str(q[0].1));
    }
  }

  lemma {:induction false} SameEntries(
    blobs: seq<BlobInfo>, first: bool, r: seq<Token>, q: seq<Token>, layout: Layout)
    requires Render(r) == Render(q)
    ensures Render(Entries(blobs, first, r, layout)) == Render(Entries(blobs, first, q, layout))
  {
    if blobs == [] {
      RenderAppend([Lit("]")], r);
      RenderAppend([Lit("]")], q);
    } else {
      SameEntries(blobs[1..], false, r, q, layout);
      EntriesStep(blobs, first, r, layout, []);
      EntriesStep(blobs, first, q, layout, []);
      assert [] + Render(Entries(blobs, first, r, layout)) == Render(Entries(blobs, first, r, layout));
      assert [] + Render(Entries(blobs, first, q, layout)) == Render(Entries(blobs, first, q, layout));
    }
  }

  lemma SameRendering(opening: seq<Token>, p: seq<(string, bytes)>, q: seq<(string, bytes)>, blobs: seq<BlobInfo>, layout: Layout)
    requires |p| == |q| && forall i :: 0 <= i < |p| ==> p[i].0 == q[i].0 && Quote(p[i].1) == Quote(q[i].1)
    ensures Render(opening + Entries(blobs, true, Fields(p), layout))
            == Render(opening + Entries(blobs, true, Fields(q), layout))
  {
    SameFields(p, q);
    SameEntries(blobs, true, Fields(p), Fields(q), layout);
    RenderAppend(opening, Entries(blobs, true, Fields(p), layout));
    RenderAppend(opening, Entries(blobs, true, Fields(q), layout));
  }
}
