/** How long a created descriptor prints, and what that means for the 2 MiB limit. */
module EncodedSize {
  import opened Base
  import Hex
  import opened Cipher
  import opened JsonText
  import opened Descriptor
  import opened Validation
  import opened Creator
  import opened StreamTheorems

  function Width(t: Token): nat {
    |RenderToken(t)|
  }

  lemma RenderFrom(s: seq<Token>, k: nat)
    requires k < |s|
    ensures |Render(s[k..])| == Width(s[k]) + |Render(s[k + 1..])|
  {
    assert s[k..][1..] == s[k + 1..];
  }

  lemma QuotedHex(data: bytes)
    ensures |Quote(Hex.Encode(data))| == 2 * |data| + 2
  {
    Hex.DecodeEncode(data);
    Hex.DecodesIffDigits(Hex.Encode(data));
    HexPlain(Hex.Encode(data));
  }

  lemma RenderNine(s: seq<Token>)
    requires |s| == 9
    ensures |Render(s)| == Width(s[0]) + Width(s[1]) + Width(s[2]) + Width(s[3]) + Width(s[4])
                           + Width(s[5]) + Width(s[6]) + Width(s[7]) + Width(s[8])
  {
    RenderFrom(s, 0);
    RenderFrom(s, 1);
    RenderFrom(s, 2);
    RenderFrom(s, 3);
    RenderFrom(s, 4);
    RenderFrom(s, 5);
    RenderFrom(s, 6);
    RenderFrom(s, 7);
    RenderFrom(s, 8);
    assert s[0..] == s && s[9..] == [];
  }

  /** A data entry prints as 181 octets plus its two integers. */
  lemma DataEntryWidth(item: BlobInfo)
    requires item.hash != [] && |Quote(item.hash)| == 98 && |Quote(item.iv)| == 34
    ensures |Render(Entry(item, Sorted))| == 181 + |Signed(item.num)| + |Signed(item.length)|
  {
    RenderNine(Entry(item, Sorted));
  }

  lemma TerminatorWidth(item: BlobInfo, iv: bytes)
    requires item.hash == [] && item.iv == Hex.Encode(iv) && |iv| == 16
    ensures |Render(Entry(item, Sorted))| == 68 + |Signed(item.num)| + |Signed(item.length)|
  {
    var e := Entry(item, Sorted);
    QuotedHex(iv);
    assert e[0..] == e && e[7..] == [];
    RenderFrom(e, 0);
    RenderFrom(e, 1);
    RenderFrom(e, 2);
    RenderFrom(e, 3);
    RenderFrom(e, 4);
    RenderFrom(e, 5);
    RenderFrom(e, 6);
  }

  // ---------------------------------------------------------------- the blob list

  function EntryWidth(item: BlobInfo): nat {
    |Render(Entry(item, Sorted))|
  }

  function Widths(blobs: seq<BlobInfo>): (r: seq<nat>)
    ensures |r| == |blobs| && forall i :: 0 <= i < |r| ==> r[i] == EntryWidth(blobs[i])
  {
    seq(|blobs|, i requires 0 <= i < |blobs| => EntryWidth(blobs[i]))
  }

  /** Entry widths with a two-octet separator before every entry but the first. */
  function ListWidth(ws: seq<nat>, first: bool): nat {
    if ws == [] then 0 else (if first then 0 else 2) + ws[0] + ListWidth(ws[1..], false)
  }

  lemma {:induction false} EntriesWidth(blobs: seq<BlobInfo>, first: bool, tail: seq<Token>)
    ensures |Render(Entries(blobs, first, tail, Sorted))| == ListWidth(Widths(blobs), first) + 1 + |Render(tail)|
  {
    if blobs == [] {
      RenderAppend([Lit("]")], tail);
      RenderOne(Lit("]"));
    } else {
      EntriesWidth(blobs[1..], false, tail);
      EntriesStep(blobs, first, tail, Sorted, []);
      assert [] + Render(Entries(blobs, first, tail, Sorted)) == Render(Entries(blobs, first, tail, Sorted));
      assert Widths(blobs)[1..] == Widths(blobs[1..]);
    }
  }

  lemma {:induction false} ListWidthSplit(a: seq<nat>, b: seq<nat>, first: bool)
    ensures ListWidth(a + b, first) == ListWidth(a, first) + ListWidth(b, first && a == [])
  {
    if a == [] {
      assert a + b == b;
    } else {
      assert (a + b)[1..] == a[1..] + b;
      ListWidthSplit(a[1..], b, false);
    }
  }

  lemma ListWidthSnoc(ws: seq<nat>, w: nat)
    ensures ListWidth(ws + [w], true) == ListWidth(ws, true) + (if ws == [] then 0 else 2) + w
  {
    ListWidthSplit(ws, [w], true);
    assert [w][1..] == [];
  }

  /** One more entry at the end of the list. */
  lemma AppendWidth(blobs: seq<BlobInfo>, item: BlobInfo, w: nat)
    requires w == EntryWidth(item)
    ensures ListWidth(Widths(blobs + [item]), true) == ListWidth(Widths(blobs), true) + (if blobs == [] then 0 else 2) + w
  {
    assert Widths(blobs + [item]) == Widths(blobs) + [w];
    ListWidthSnoc(Widths(blobs), w);
  }

  // ---------------------------------------------------------------- the members

  lemma MembersWidth(d: StreamDescriptor)
    requires |Quote(d.key)| == 34 && |Quote(d.streamHash)| == 98 && |Quote(d.streamType)| == 10
    ensures |Render(Fields(Members(d)))| == 228 + |Quote(d.streamName)| + |Quote(d.suggestedFileName)|
  {
    FiveFields(Members(d));
  }

  lemma FiveFields(m: seq<(string, bytes)>)
    requires |m| == 5
    ensures |Render(Fields(m))| == 31 + |m[0].0| + |m[1].0| + |m[2].0| + |m[3].0| + |m[4].0|
              + |Quote(m[0].1)| + |Quote(m[1].1)| + |Quote(m[2].1)| + |Quote(m[3].1)| + |Quote(m[4].1)|
  {
    FieldWidth(m, 0);
    FieldWidth(m, 1);
    FieldWidth(m, 2);
    FieldWidth(m, 3);
    FieldWidth(m, 4);
    assert m[0..] == m && m[5..] == [];
    RenderOne(Lit("}"));
  }

  lemma FieldWidth(m: seq<(string, bytes)>, k: nat)
    requires k < |m|
    ensures |Render(Fields(m[k..]))| == 6 + |m[k].0| + |Quote(m[k].1)| + |Render(Fields(m[k + 1..]))|
  {
    var f := Fields(m[k..]);
    assert m[k..][1..] == m[k + 1..];
    assert f == [FieldName(m[k].0), Str(m[k].1)] + Fields(m[k + 1..]);
    assert f[1..][1..] == Fields(m[k + 1..]);
  }

  lemma LbryfileWidth()
    ensures |Quote(Ascii("lbryfile"))| == 10
  {
    PlainAscii(Ascii("lbryfile"));
  }

  lemma PlainLetter(b: byte)
    requires 97 <= b <= 122
    ensures IsRune([b]) && EscapeRune([b]) == [b]
  {
  }

  lemma {:induction false} PlainAscii(s: bytes)
    requires forall i :: 0 <= i < |s| ==> 97 <= s[i] <= 122
    ensures Escape(s) == s
    decreases |s|
  {
    if s != [] {
      assert s == [s[0]] + s[1..];
      PlainAscii(s[1..]);
      PlainLetter(s[0]);
      RuneBefore([s[0]], s[1..]);
    }
  }

  // ---------------------------------------------------------------- the whole document

  lemma QuotedStreamHash(job: Job, d: StreamDescriptor)
    requires Sound(job)
    ensures |Quote(StreamHash(job.sha, d))| == 98
  {
    QuotedHex(job.sha(d.streamName + d.key + d.suggestedFileName + job.sha(ItemDigests(job.sha, d.blobs))));
  }

  lemma DocumentWidth(d: StreamDescriptor)
    ensures |Marshal(d)| == 12 + |Render(Fields(Members(d)))| + ListWidth(Widths(d.blobs), true)
  {
    EntriesWidth(d.blobs, true, Fields(Members(d)));
    RenderAppend([OPENING], Entries(d.blobs, true, Fields(Members(d)), Sorted));
    RenderOne(OPENING);
  }

  lemma InfoWidth(job: Job, i: nat)
    requires Sound(job) && Ready(job) && i < BlobCount(job)
    ensures EntryWidth(InfoAt(job, i)) == 181 + |Decimal(i)| + |Decimal(|BlobAt(job, i)|)|
  {
    QuotedHex(job.sha(BlobAt(job, i)));
    QuotedHex(Draw(job, i + 1));
    DataEntryWidth(InfoAt(job, i));
  }

  lemma MembersLength(job: Job)
    requires Sound(job) && Ready(job)
    ensures |Marshal(Built(job))|
            == 244 + 2 * |job.fileName| + 2 * |job.suggested| + ListWidth(Widths(Built(job).blobs), true)
  {
    var d := Built(job);
    QuotedHex(job.fileName);
    QuotedHex(job.suggested);
    QuotedHex(Draw(job, 0));
    QuotedStreamHash(job, Unsealed(job));
    LbryfileWidth();
    MembersWidth(d);
    DocumentWidth(d);
  }

  // ---------------------------------------------------------------- the length from the inputs alone

  /** How many decimal digits a number has. */
  function Digits(n: nat): (r: nat)
    ensures r >= 1
  {
    if n < 10 then 1 else 1 + Digits(n / 10)
  }

  /** The digits of 0, 1, ..., n - 1 together. */
  function DigitSum(n: nat): nat {
    if n == 0 then 0 else DigitSum(n - 1) + Digits(n - 1)
  }

  /** How many data blobs content of some length takes. */
  function BlobsFor(length: nat): nat {
    (length + CHUNK - 1) / CHUNK
  }

  /** The size of the last data blob: what is left over, padded. */
  function LastBlob(length: nat): nat {
    if length == 0 then 0
    else
      var rest := (length - 1) % CHUNK + 1;
      rest + PadLength(rest)
  }

  /** The printed length of a descriptor, from the length of the content and of the two names. */
  function EncodedLength(length: nat, name: nat, suggested: nat): nat {
    var n := BlobsFor(length);
    306 + 2 * name + 2 * suggested + 190 * n + DigitSum(n) + Digits(n) + Digits(LastBlob(length))
  }

  lemma {:induction false} DecimalDigitCount(n: nat)
    ensures |Decimal(n)| == Digits(n)
  {
    if n >= 10 {
      DecimalDigitCount(n / 10);
    }
  }

  lemma SevenDigits()
    ensures Digits(MAX_BLOB_SIZE) == 7
  {
    assert Digits(209) == 3;
    assert Digits(20971) == 5;
  }

  lemma SizesOf(job: Job)
    requires job.content != []
    ensures BlobCount(job) == BlobsFor(|job.content|) >= 1
    ensures |Chunk(job, BlobCount(job) - 1)| == (|job.content| - 1) % CHUNK + 1
  {
  }

  /** The printed first m data entries. */
  function InfosWidth(job: Job, m: nat): nat
    requires Lawful(job.cipher) && Drawable(job, m)
  {
    ListWidth(Widths(Infos(job, m)), true)
  }

  /** An entry for a full blob. */
  lemma FullEntryAdded(job: Job, m: nat, next: nat)
    requires Sound(job) && Ready(job) && next == m + 1 < BlobCount(job)
    ensures InfosWidth(job, next) == InfosWidth(job, m) + (if m == 0 then 0 else 2) + 188 + Digits(m)
  {
    EntryAdded(job, m);
    BlobSize(job, m);
    SevenDigits();
  }

  /** Widths that grow by a full entry each time add up. */
  lemma {:induction false} SumUp(w: nat -> nat, n: nat, m: nat)
    requires m < n && w(0) == 0
    requires forall k: nat, next: nat {:trigger w(k), w(next)} :: next == k + 1 < n ==>
               w(next) == w(k) + (if k == 0 then 0 else 2) + 188 + Digits(k)
    ensures w(m) + (if m == 0 then 0 else 2) == 190 * m + DigitSum(m)
  {
    if m > 0 {
      SumUp(w, n, m - 1);
      assert w(m) == w(m - 1) + (if m - 1 == 0 then 0 else 2) + 188 + Digits(m - 1);
    }
  }

  /** All entries but the last data entry and the terminator: full blobs. */
  lemma FullEntries(job: Job, m: nat)
    requires Sound(job) && Ready(job) && m < BlobCount(job)
    ensures InfosWidth(job, m) + (if m == 0 then 0 else 2) == 190 * m + DigitSum(m)
  {
    var n := BlobCount(job);
    var w: nat -> nat := (k: nat) => if k < n then InfosWidth(job, k) else 0;
    forall k: nat, next: nat | next == k + 1 < n
      ensures w(next) == w(k) + (if k == 0 then 0 else 2) + 188 + Digits(k)
    {
      FullEntryAdded(job, k, next);
    }
    NoEntries(job);
    SumUp(w, n, m);
  }

  lemma NoEntries(job: Job)
    requires Sound(job) && Ready(job)
    ensures InfosWidth(job, 0) == 0
  {
  }

  /** One more data entry. */
  lemma EntryAdded(job: Job, m: nat)
    requires Sound(job) && Ready(job) && m < BlobCount(job)
    ensures InfosWidth(job, m + 1)
            == InfosWidth(job, m) + (if m == 0 then 0 else 2) + 181 + Digits(m) + Digits(|BlobAt(job, m)|)
  {
    InfoWidth(job, m);
    DecimalDigitCount(m);
    DecimalDigitCount(|BlobAt(job, m)|);
    AppendWidth(Infos(job, m), InfoAt(job, m), EntryWidth(InfoAt(job, m)));
  }

  lemma TerminatorEntry(job: Job, n: nat)
    requires Drawable(job, n + 1)
    ensures EntryWidth(Terminator(job, n)) == 69 + Digits(n)
  {
    TerminatorWidth(Terminator(job, n), Draw(job, n + 1));
    DecimalDigitCount(n);
    DecimalDigitCount(0);
  }

  lemma TerminatorAdded(job: Job, n: nat)
    requires Sound(job) && Ready(job) && n == BlobCount(job) > 0
    ensures ListWidth(Widths(Built(job).blobs), true) == InfosWidth(job, n) + 71 + Digits(n)
  {
    TerminatorEntry(job, n);
    AppendWidth(Infos(job, n), Terminator(job, n), 69 + Digits(n));
  }

  lemma DataEntriesWidth(job: Job, m: nat, n: nat)
    requires Sound(job) && Ready(job) && n == BlobCount(job) == m + 1
    ensures InfosWidth(job, n) == 190 * m + 181 + DigitSum(n) + Digits(|BlobAt(job, m)|)
  {
    FullEntries(job, m);
    EntryAdded(job, m);
  }

  /** The whole blob list. */
  lemma BlobListWidth(job: Job, n: nat)
    requires Sound(job) && Ready(job) && n == BlobCount(job) > 0
    ensures ListWidth(Widths(Built(job).blobs), true)
            == 62 + 190 * n + DigitSum(n) + Digits(n) + Digits(|BlobAt(job, n - 1)|)
  {
    DataEntriesWidth(job, n - 1, n);
    TerminatorAdded(job, n);
  }

  lemma LastBlobSize(job: Job, n: nat)
    requires Sound(job) && Ready(job) && n == BlobCount(job) > 0
    ensures |BlobAt(job, n - 1)| == LastBlob(|job.content|)
  {
    SizesOf(job);
  }

  /** The exact printed length of a created descriptor, from its inputs. */
  lemma BuiltWidth(job: Job)
    requires Sound(job) && Ready(job)
    ensures |Marshal(Built(job))| == EncodedLength(|job.content|, |job.fileName|, |job.suggested|)
  {
    var n := BlobCount(job);
    SizesOf(job);
    MembersLength(job);
    BlobListWidth(job, n);
    LastBlobSize(job, n);
  }

  /**
   Creation succeeds exactly when the content is not empty and takes fewer than 12,000 blobs,
   the random source holds a key and an IV for every blob and the terminator, both names
   are UTF-8, and the printed length, computed from three lengths, is within 2 MiB.
   */
  lemma CreationSucceedsIff(job: Job)
    requires Sound(job)
    ensures Created(job).Some? <==>
              && 0 < |job.content| && BlobsFor(|job.content|) < MAX_DESCRIPTOR_BLOBS
              && 16 * (BlobsFor(|job.content|) + 2) <= |job.random|
              && ValidUtf8(job.fileName) && ValidUtf8(job.suggested)
              && EncodedLength(|job.content|, |job.fileName|, |job.suggested|) <= MAX_DESCRIPTOR_SIZE
  {
    SealedIff(job);
    if job.content != [] {
      SizesOf(job);
    }
    if Ready(job) {
      BuiltWidth(job);
    }
  }

  // ---------------------------------------------------------------- thresholds

  lemma {:induction false} DigitsMonotone(a: nat, b: nat)
    requires a <= b
    ensures Digits(a) <= Digits(b)
  {
    if b >= 10 && a >= 10 {
      DigitsMonotone(a / 10, b / 10);
    }
  }

  /** k added up c times. */
  function Times(k: nat, c: nat): nat {
    if c == 0 then 0 else Times(k, c - 1) + k
  }

  lemma {:induction false} TimesIsProduct(k: nat, c: nat)
    ensures Times(k, c) == k * c
  {
    if c > 0 {
      TimesIsProduct(k, c - 1);
    }
  }

  lemma {:induction false} DigitSumRange(from: nat, n: nat, k: nat)
    requires from <= n && forall i :: from <= i < n ==> Digits(i) == k
    ensures DigitSum(n) == DigitSum(from) + Times(k, n - from)
    decreases n
  {
    if from < n {
      DigitSumRange(from, n - 1, k);
    }
  }

  /** Between two powers of ten all numbers have the same number of digits. */
  lemma DigitsBetween(low: nat, high: nat, i: nat)
    requires low <= i < high && Digits(low) == Digits(high - 1)
    ensures Digits(i) == Digits(low)
  {
    DigitsMonotone(low, i);
    DigitsMonotone(i, high - 1);
  }

  lemma DigitSumSpan(low: nat, high: nat, n: nat, k: nat)
    requires low <= n <= high && low < high && Digits(low) == k && Digits(high - 1) == k
    ensures DigitSum(n) == DigitSum(low) + k * (n - low)
  {
    forall i | low <= i < n
      ensures Digits(i) == k
    {
      DigitsBetween(low, high, i);
    }
    DigitSumRange(low, n, k);
    TimesIsProduct(k, n - low);
  }

  lemma DigitSumTenThousand()
    ensures DigitSum(10_000) == 38_890
  {
    assert Digits(99) == 2 && Digits(100) == 3;
    assert Digits(999) == 3 && Digits(1000) == 4;
    assert Digits(9999) == 4;
    DigitSumSpan(0, 10, 10, 1);
    DigitSumSpan(10, 100, 100, 2);
    DigitSumSpan(100, 1000, 1000, 3);
    DigitSumSpan(1000, 10_000, 10_000, 4);
  }

  /** In the range of the thresholds the length is linear in the number of blobs. */
  lemma FiveDigitCounts(n: nat)
    requires 10_000 <= n < 100_000
    ensures DigitSum(n) == 38_890 + 5 * (n - 10_000) && Digits(n) == 5
  {
    assert Digits(100) == 3 && Digits(999) == 3;
    assert Digits(10_000) == 5 && Digits(99_999) == 5;
    DigitSumTenThousand();
    DigitSumSpan(10_000, 100_000, n, 5);
    DigitsBetween(10_000, 100_000, n);
  }

  lemma {:induction false} DigitSumMonotone(m: nat, n: nat)
    requires m <= n
    ensures DigitSum(m) <= DigitSum(n)
    decreases n
  {
    if m < n {
      DigitSumMonotone(m, n - 1);
    }
  }

  lemma LastBlobBound(length: nat)
    ensures LastBlob(length) <= MAX_BLOB_SIZE && Digits(LastBlob(length)) <= 7
  {
    SevenDigits();
    if length > 0 {
      DigitsMonotone(LastBlob(length), MAX_BLOB_SIZE);
    }
  }

  /** Longer content and longer names never print shorter. */
  lemma EncodedLengthMonotone(l: nat, a: nat, b: nat, m: nat, c: nat, d: nat)
    requires BlobsFor(l) < BlobsFor(m) && a <= c && b <= d
    ensures EncodedLength(l, a, b) < EncodedLength(m, c, d)
  {
    DigitSumMonotone(BlobsFor(l), BlobsFor(m));
    DigitsMonotone(BlobsFor(l), BlobsFor(m));
    LastBlobBound(l);
  }

  /** The lengths that decide: for n blobs and names of these lengths. */
  lemma CountLength(length: nat, a: nat, b: nat, n: nat)
    requires n == BlobsFor(length) && 10_000 <= n < 100_000
    ensures EncodedLength(length, a, b) == 195 * n - 10_799 + 2 * a + 2 * b + Digits(LastBlob(length))
  {
    FiveDigitCounts(n);
  }

  /** What any content of at most n blobs prints as at most. */
  lemma LengthUpTo(l: nat, a: nat, b: nat, n: nat)
    requires BlobsFor(l) <= n && 10_000 <= n < 100_000
    ensures EncodedLength(l, a, b) <= 195 * n - 10_792 + 2 * a + 2 * b
  {
    if BlobsFor(l) < n {
      var m := n * CHUNK;
      assert BlobsFor(m) == n;
      LastBlobBound(m);
      CountLength(m, a, b, n);
      EncodedLengthMonotone(l, a, b, m, a, b);
    } else {
      LastBlobBound(l);
      CountLength(l, a, b, n);
    }
  }

  lemma ShortLength(l: nat, a: nat, b: nat)
    requires BlobsFor(l) <= 10_804 && a <= 255 && b <= 268
    ensures EncodedLength(l, a, b) <= MAX_DESCRIPTOR_SIZE
  {
    LengthUpTo(l, a, b, 10_804);
  }

  /** Up to 10,804 data blobs always fit, for every file name of at most 255 octets. */
  lemma SmallStreamsFit(job: Job, strip: bytes -> bytes)
    requires Sound(job) && Ready(job) && BlobCount(job) <= 10_804
    requires |job.fileName| <= 255 && OnlyRemoves(strip) && job.suggested == SuggestedName(strip, job.fileName)
    ensures |Marshal(Built(job))| <= MAX_DESCRIPTOR_SIZE
  {
    SizesOf(job);
    BuiltWidth(job);
    SuggestedLength(strip, job.fileName);
    ShortLength(|job.content|, |job.fileName|, |job.suggested|);
  }

  /** From 10,810 data blobs on no descriptor fits, whatever the names, although the entry limit is 12,000. */
  lemma LargeStreamsNeverFit(job: Job)
    requires Sound(job) && BlobCount(job) >= 10_810
    ensures Created(job).None?
  {
    CreationSucceedsIff(job);
    var l := |job.content|;
    if l > 0 && BlobCount(job) < MAX_DESCRIPTOR_BLOBS {
      SizesOf(job);
      CountLength(l, |job.fileName|, |job.suggested|, BlobCount(job));
      TwoDigits(l);
    }
  }

  lemma TwoDigits(length: nat)
    requires length > 0
    ensures Digits(LastBlob(length)) >= 2
  {
  }

  /** In between the names decide: the longest ones fail from 10,805 blobs on, one-octet ones fit up to 10,809. */
  lemma NamesDecide(job: Job)
    requires Sound(job) && Ready(job)
    ensures |job.fileName| == 255 && |job.suggested| == 268 && BlobCount(job) >= 10_805 ==> Created(job).None?
    ensures |job.fileName| == 1 && |job.suggested| == 1 && BlobCount(job) <= 10_809 ==>
              |Marshal(Built(job))| <= MAX_DESCRIPTOR_SIZE
  {
    var l, n := |job.content|, BlobCount(job);
    SizesOf(job);
    BuiltWidth(job);
    CreationSucceedsIff(job);
    if n >= 10_805 {
      CountLength(l, |job.fileName|, |job.suggested|, n);
    }
    if n <= 10_809 {
      LengthUpTo(l, |job.fileName|, |job.suggested|, 10_809);
    }
  }
}
