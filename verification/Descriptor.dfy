/**
 Stream descriptors: the two canonical printers of blob/creator.go and the parser-side checks
 of blob/descriptor.go.
 */
module Descriptor {
  import opened Base
  import opened JsonText

  const MAX_DESCRIPTOR_SIZE := MAX_BLOB_SIZE
  const MAX_DESCRIPTOR_BLOBS := 12_000
  const MAX_INT64 := 0x7FFF_FFFF_FFFF_FFFF

  datatype BlobInfo = BlobInfo(hash: bytes, num: int, iv: bytes, length: int)

  datatype StreamDescriptor = StreamDescriptor(
    streamName: bytes,
    key: bytes,
    suggestedFileName: bytes,
    streamHash: bytes,
    streamType: bytes,
    blobs: seq<BlobInfo>)

  // ---------------------------------------------------------------- rendering

  /** Printed text is literals, quoted strings and integers. */
  datatype Token = Lit(text: string) | Str(value: bytes) | Num(number: int)

  function RenderToken(t: Token): bytes {
    match t
    case Lit(text) => Ascii(text)
    case Str(value) => Quote(value)
    case Num(number) => Signed(number)
  }

  function Render(tokens: seq<Token>): bytes {
    if tokens == [] then [] else RenderToken(tokens[0]) + Render(tokens[1..])
  }

  predicate Clash(a: string, b: string) {
    exists i :: 0 <= i < |a| && i < |b| && AsciiChar(a[i]) != AsciiChar(b[i])
  }

  predicate StartsWithMark(tokens: seq<Token>) {
    tokens != [] && tokens[0].Lit? && tokens[0].text != "" && !IsDigit(AsciiChar(tokens[0].text[0]))
  }

  /** Two documents that agree in form up to some pair of literals that contradict each other. */
  ghost predicate Aligned(s: seq<Token>, t: seq<Token>) {
    if s == [] || t == [] then s == t
    else match (s[0], t[0])
      case (Str(x), Str(y)) => Settled(x) && Settled(y) && Aligned(s[1..], t[1..])
      case (Num(x), Num(y)) =>
        x >= 0 && y >= 0 && StartsWithMark(s[1..]) && StartsWithMark(t[1..]) && Aligned(s[1..], t[1..])
      case (Lit(a), Lit(b)) => Clash(a, b) || (a == b && Aligned(s[1..], t[1..]))
      case _ => false
  }

  lemma ClashDiffers(a: string, b: string, r: bytes, s: bytes)
    requires Clash(a, b)
    ensures Ascii(a) + r != Ascii(b) + s
  {
    var i :| 0 <= i < |a| && i < |b| && AsciiChar(a[i]) != AsciiChar(b[i]);
    assert (Ascii(a) + r)[i] != (Ascii(b) + s)[i];
  }

  lemma {:induction false} RenderInjective(s: seq<Token>, t: seq<Token>)
    requires Aligned(s, t) && Render(s) == Render(t)
    ensures s == t
  {
    if s != [] && t != [] {
      var r, q := Render(s[1..]), Render(t[1..]);
      match (s[0], t[0]) {
        case (Str(x), Str(y)) =>
          QuotePrefixFree(x, y, r, q);
        case (Num(x), Num(y)) =>
          MarkRendered(s[1..]);
          MarkRendered(t[1..]);
          DecimalPrefixFree(x, y, r, q);
        case (Lit(a), Lit(b)) =>
          if Clash(a, b) {
            ClashDiffers(a, b, r, q);
          }
          Cancel(Ascii(a), r, q);
      }
      RenderInjective(s[1..], t[1..]);
      assert s == [s[0]] + s[1..] && t == [t[0]] + t[1..];
    }
  }

  lemma MarkRendered(s: seq<Token>)
    requires StartsWithMark(s)
    ensures Render(s) != [] && !IsDigit(Render(s)[0])
  {
  }

  lemma {:induction false} RenderAppend(s: seq<Token>, t: seq<Token>)
    ensures Render(s + t) == Render(s) + Render(t)
  {
    if s == [] {
      assert s + t == t;
    } else {
      assert (s + t)[0] == s[0] && (s + t)[1..] == s[1..] + t;
      RenderAppend(s[1..], t);
      Regroup(RenderToken(s[0]), Render(s[1..]), Render(t));
    }
  }

  // ---------------------------------------------------------------- the two printers

  /** The sorted-key layout of the pinned SDK and the older layout it still accepts. */
  datatype Layout = Sorted | OldSort

  function Entry(item: BlobInfo, layout: Layout): seq<Token> {
    match layout
    case Sorted =>
      if item.hash != [] then
        [Lit("{\"blob_hash\": "), Str(item.hash), Lit(", \"blob_num\": "), Num(item.num),
         Lit(", \"iv\": "), Str(item.iv), Lit(", \"length\": "), Num(item.length), Lit("}")]
      else
        [Lit("{\"blob_num\": "), Num(item.num), Lit(", \"iv\": "), Str(item.iv),
         Lit(", \"length\": "), Num(item.length), Lit("}")]
    case OldSort =>
      [Lit("{\"length\": "), Num(item.length), Lit(", \"blob_num\": "), Num(item.num)]
      + OldTail(item)
  }

  function OldTail(item: BlobInfo): seq<Token> {
    if item.hash == [] then [Lit(", \"iv\": "), Str(item.iv), Lit("}")]
    else [Lit(", \"blob_hash\": "), Str(item.hash), Lit(", \"iv\": "), Str(item.iv), Lit("}")]
  }

  function Separator(first: bool): seq<Token> {
    if first then [] else [Lit(", ")]
  }

  function Entries(blobs: seq<BlobInfo>, first: bool, tail: seq<Token>, layout: Layout): seq<Token> {
    if blobs == [] then [Lit("]")] + tail
    else Separator(first) + (Entry(blobs[0], layout) + Entries(blobs[1..], false, tail, layout))
  }

  function FieldName(name: string): Token {
    Lit(", \"" + name + "\": ")
  }

  /** The trailing members and the closing brace. */
  function Fields(fields: seq<(string, bytes)>): seq<Token> {
    if fields == [] then [Lit("}")]
    else [FieldName(fields[0].0), Str(fields[0].1)] + Fields(fields[1..])
  }

  function Members(d: StreamDescriptor): seq<(string, bytes)> {
    [("key", d.key), ("stream_hash", d.streamHash), ("stream_name", d.streamName),
     ("stream_type", d.streamType), ("suggested_file_name", d.suggestedFileName)]
  }

  const OPENING := Lit("{\"blobs\": [")

  function Marshal(d: StreamDescriptor): bytes {
    Render([OPENING] + Entries(d.blobs, true, Fields(Members(d)), Sorted))
  }

  /** marshalPythonDescriptor: the buffer is written piece by piece; Fprintf writes Render of its template. */
  method MarshalDescriptor(d: StreamDescriptor) returns (buffer: bytes)
    ensures buffer == Marshal(d)
  {
    ghost var tail := Fields(Members(d));
    buffer := Ascii(OPENING.text);
    RenderAppend([OPENING], Entries(d.blobs, true, tail, Sorted));
    RenderOne(OPENING);
    var index := 0;
    while index < |d.blobs|
      invariant 0 <= index <= |d.blobs|
      invariant buffer + Render(Entries(d.blobs[index..], index == 0, tail, Sorted)) == Marshal(d)
    {
      EntriesStep(d.blobs[index..], index == 0, tail, Sorted, buffer);
      assert d.blobs[index..][1..] == d.blobs[index + 1..];
      if index > 0 {
        buffer := buffer + Ascii(", ");
      }
      buffer := buffer + Render(Entry(d.blobs[index], Sorted));
      index := index + 1;
    }
    assert d.blobs[index..] == [];
    buffer := WriteFields(buffer, Members(d));
  }

  /** Closes the blob list and writes the remaining members. */
  method WriteFields(start: bytes, fields: seq<(string, bytes)>) returns (buffer: bytes)
    ensures buffer == start + Render(Entries([], true, Fields(fields), Sorted))
  {
    buffer := start + Ascii("]");
    RenderAppend([Lit("]")], Fields(fields));
    RenderOne(Lit("]"));
    assert start + (Ascii("]") + Render(Fields(fields))) == buffer + Render(Fields(fields));
    var index := 0;
    while index < |fields|
      invariant 0 <= index <= |fields|
      invariant buffer + Render(Fields(fields[index..])) == start + Render(Entries([], true, Fields(fields), Sorted))
    {
      var template := [FieldName(fields[index].0), Str(fields[index].1)];
      assert fields[index..][1..] == fields[index + 1..];
      assert Fields(fields[index..]) == template + Fields(fields[index + 1..]);
      RenderAppend(template, Fields(fields[index + 1..]));
      Regroup(buffer, Render(template), Render(Fields(fields[index + 1..])));
      buffer := buffer + Render(template);
      index := index + 1;
    }
    assert fields[index..] == [];
    RenderOne(Lit("}"));
    buffer := buffer + Ascii("}");
  }

  lemma RenderOne(t: Token)
    ensures Render([t]) == RenderToken(t)
  {
    assert Render([t]) == RenderToken(t) + Render([]);
  }

  lemma EntriesStep(blobs: seq<BlobInfo>, first: bool, tail: seq<Token>, layout: Layout, buffer: bytes)
    requires blobs != []
    ensures buffer + Render(Entries(blobs, first, tail, layout))
            == (if first then buffer else buffer + Ascii(", ")) + Render(Entry(blobs[0], layout))
               + Render(Entries(blobs[1..], false, tail, layout))
  {
    RenderJoin(first, Entry(blobs[0], layout), Entries(blobs[1..], false, tail, layout), buffer);
  }

  lemma RenderJoin(first: bool, entry: seq<Token>, rest: seq<Token>, buffer: bytes)
    ensures buffer + Render(Separator(first) + (entry + rest))
            == (if first then buffer else buffer + Ascii(", ")) + Render(entry) + Render(rest)
  {
    RenderAppend(entry, rest);
    var e, r := Render(entry), Render(rest);
    if first {
      assert Separator(first) + (entry + rest) == entry + rest;
      Regroup(buffer, e, r);
    } else {
      var comma := Ascii(", ");
      assert (Separator(first) + (entry + rest))[1..] == entry + rest;
      Regroup(buffer, comma, e);
      Regroup(buffer, comma + e, r);
      Regroup(comma, e, r);
    }
  }

  // ---------------------------------------------------------------- the old layout

  function OldMembers(d: StreamDescriptor): seq<(string, bytes)> {
    [("stream_type", d.streamType), ("key", d.key),
     ("suggested_file_name", d.suggestedFileName), ("stream_hash", d.streamHash)]
  }

  /** The entries the old printer writes: it stops after the first one without a hash. */
  function Through(blobs: seq<BlobInfo>): seq<BlobInfo> {
    if blobs == [] then []
    else [blobs[0]] + if blobs[0].hash == [] then [] else Through(blobs[1..])
  }

  function OldOpening(d: StreamDescriptor): seq<Token> {
    [Lit("{\"stream_name\": "), Str(d.streamName), Lit(", \"blobs\": [")]
  }

  function OldDocument(d: StreamDescriptor, blobs: seq<BlobInfo>): bytes {
    Render(OldOpening(d) + Entries(blobs, true, Fields(OldMembers(d)), OldSort))
  }

  function MarshalOld(d: StreamDescriptor): bytes {
    OldDocument(d, Through(d.blobs))
  }

  /** MarshalOldSortDescriptor, with its early exit from the entry loop. */
  method MarshalOldSortDescriptor(d: StreamDescriptor) returns (buffer: bytes)
    ensures buffer == MarshalOld(d)
  {
    ghost var tail := Fields(OldMembers(d));
    RenderAppend(OldOpening(d), Entries(Through(d.blobs), true, tail, OldSort));
    buffer := Render(OldOpening(d));
    var index, done := 0, false;
    while index < |d.blobs| && !done
      invariant 0 <= index <= |d.blobs|
      invariant !done ==> buffer + Render(Entries(Through(d.blobs[index..]), index == 0, tail, OldSort)) == MarshalOld(d)
      invariant done ==> buffer + Render(Entries([], true, tail, OldSort)) == MarshalOld(d)
      decreases |d.blobs| - index, !done
    {
      EntriesStep(Through(d.blobs[index..]), index == 0, tail, OldSort, buffer);
      assert d.blobs[index..][1..] == d.blobs[index + 1..];
      assert Through(d.blobs[index..])[1..] == if d.blobs[index].hash == [] then [] else Through(d.blobs[index + 1..]);
      if index > 0 {
        buffer := buffer + Ascii(", ");
      }
      buffer := buffer + Render(Entry(d.blobs[index], OldSort));
      if d.blobs[index].hash == [] {
        done := true;
      } else {
        index := index + 1;
      }
    }
    assert !done ==> d.blobs[index..] == [];
    buffer := WriteFields(buffer, OldMembers(d));
  }

  // ---------------------------------------------------------------- injectivity

  predicate Printable(item: BlobInfo) {
    Settled(item.hash) && Settled(item.iv) && item.num >= 0 && item.length >= 0
  }

  predicate AllPrintable(blobs: seq<BlobInfo>) {
    forall i :: 0 <= i < |blobs| ==> Printable(blobs[i])
  }

  predicate PairOk(s: seq<Token>, t: seq<Token>, i: nat)
    requires i < |s| && i < |t|
  {
    match (s[i], t[i])
    case (Str(x), Str(y)) => Settled(x) && Settled(y)
    case (Num(x), Num(y)) => x >= 0 && y >= 0 && MarkAt(s, i + 1) && MarkAt(t, i + 1)
    case (Lit(a), Lit(b)) => a == b
    case _ => false
  }

  predicate MarkAt(s: seq<Token>, i: nat) {
    i < |s| && s[i].Lit? && s[i].text != "" && !IsDigit(AsciiChar(s[i].text[0]))
  }

  /** Documents may be aligned token by token over a common prefix. */
  lemma {:induction false} AlignFrom(s: seq<Token>, t: seq<Token>, n: nat)
    requires n <= |s| && n <= |t| && Aligned(s[n..], t[n..])
    requires forall i :: 0 <= i < n ==> PairOk(s, t, i)
    ensures Aligned(s, t)
  {
    if n == 0 {
      assert s[0..] == s && t[0..] == t;
    } else {
      assert s[n - 1..][1..] == s[n..] && t[n - 1..][1..] == t[n..];
      assert PairOk(s, t, n - 1);
      AlignFrom(s, t, n - 1);
    }
  }

  lemma AlignClash(s: seq<Token>, t: seq<Token>, n: nat)
    requires n < |s| && n < |t| && s[n].Lit? && t[n].Lit? && Clash(s[n].text, t[n].text)
    requires forall i :: 0 <= i < n ==> PairOk(s, t, i)
    ensures Aligned(s, t)
  {
    assert s[n..][0] == s[n] && t[n..][0] == t[n];
    AlignFrom(s, t, n);
  }

  predicate PairsOk(s: seq<Token>, t: seq<Token>, n: nat)
    requires n <= |s| && n <= |t|
  {
    forall i :: 0 <= i < n ==> PairOk(s, t, i)
  }

  /** Aligned entries stay aligned whatever aligned documents follow them. */
  lemma AlignEntry(e: seq<Token>, f: seq<Token>, r: seq<Token>, q: seq<Token>)
    requires |e| == |f| && PairsOk(e, f, |e|) && Aligned(r, q)
    ensures Aligned(e + r, f + q)
  {
    assert (e + r)[|e|..] == r && (f + q)[|f|..] == q;
    forall i | 0 <= i < |e|
      ensures PairOk(e + r, f + q, i)
    {
      assert PairOk(e, f, i);
    }
    AlignFrom(e + r, f + q, |e|);
  }

  lemma ClashEntry(e: seq<Token>, f: seq<Token>, r: seq<Token>, q: seq<Token>, n: nat)
    requires n < |e| && n < |f| && e[n].Lit? && f[n].Lit? && Clash(e[n].text, f[n].text)
    requires PairsOk(e, f, n)
    ensures Aligned(e + r, f + q)
  {
    forall i | 0 <= i < n
      ensures PairOk(e + r, f + q, i)
    {
      assert PairOk(e, f, i);
    }
    AlignClash(e + r, f + q, n);
  }

  lemma EntryAligned(a: BlobInfo, b: BlobInfo, r: seq<Token>, q: seq<Token>, layout: Layout)
    requires Printable(a) && Printable(b) && Aligned(r, q)
    ensures Aligned(Entry(a, layout) + r, Entry(b, layout) + q)
  {
    var e, f := Entry(a, layout), Entry(b, layout);
    if (a.hash == []) == (b.hash == []) {
      EntryPairs(a, b, layout);
      AlignEntry(e, f, r, q);
    } else {
      var n := EntryClash(a, b, layout);
      ClashEntry(e, f, r, q, n);
    }
  }

  lemma EntryPairs(a: BlobInfo, b: BlobInfo, layout: Layout)
    requires Printable(a) && Printable(b) && ((a.hash == []) == (b.hash == []))
    ensures |Entry(a, layout)| == |Entry(b, layout)|
    ensures PairsOk(Entry(a, layout), Entry(b, layout), |Entry(a, layout)|)
  {
    if layout.Sorted? {
      SortedPairs(a, b);
    } else {
      OldPairs(a, b);
    }
  }

  lemma SortedPairs(a: BlobInfo, b: BlobInfo)
    requires Printable(a) && Printable(b) && ((a.hash == []) == (b.hash == []))
    ensures |Entry(a, Sorted)| == |Entry(b, Sorted)|
    ensures PairsOk(Entry(a, Sorted), Entry(b, Sorted), |Entry(a, Sorted)|)
  {
    var e, f := Entry(a, Sorted), Entry(b, Sorted);
    forall i | 0 <= i < |e|
      ensures PairOk(e, f, i)
    {
    }
  }

  lemma OldPairs(a: BlobInfo, b: BlobInfo)
    requires Printable(a) && Printable(b) && ((a.hash == []) == (b.hash == []))
    ensures |Entry(a, OldSort)| == |Entry(b, OldSort)|
    ensures PairsOk(Entry(a, OldSort), Entry(b, OldSort), |Entry(a, OldSort)|)
  {
    var e, f := Entry(a, OldSort), Entry(b, OldSort);
    OldHeadPairs(a, b);
    forall i | 4 <= i < |e|
      ensures PairOk(e, f, i)
    {
    }
  }

  lemma OldHeadPairs(a: BlobInfo, b: BlobInfo)
    requires Printable(a) && Printable(b)
    ensures PairsOk(Entry(a, OldSort), Entry(b, OldSort), 4)
  {
  }

  /** An entry with a hash and one without differ in a literal. */
  lemma EntryClash(a: BlobInfo, b: BlobInfo, layout: Layout) returns (n: nat)
    requires Printable(a) && Printable(b) && ((a.hash == []) != (b.hash == []))
    ensures var e, f := Entry(a, layout), Entry(b, layout);
            && n < |e| && n < |f| && e[n].Lit? && f[n].Lit? && Clash(e[n].text, f[n].text)
            && PairsOk(e, f, n)
  {
    var e, f := Entry(a, layout), Entry(b, layout);
    n := if layout.Sorted? then 0 else 4;
    if layout.Sorted? {
      assert AsciiChar(e[0].text[7]) != AsciiChar(f[0].text[7]);
    } else {
      OldHeadPairs(a, b);
      assert AsciiChar(e[4].text[3]) != AsciiChar(f[4].text[3]);
    }
  }

  lemma {:induction false} EntriesAligned(
    a: seq<BlobInfo>, b: seq<BlobInfo>, first: bool, r: seq<Token>, q: seq<Token>, layout: Layout)
    requires AllPrintable(a) && AllPrintable(b)
    requires Aligned(r, q)
    ensures Aligned(Entries(a, first, r, layout), Entries(b, first, q, layout))
  {
    var bracket := [Lit("]")];
    if a != [] && b != [] {
      var r', q' := Entries(a[1..], false, r, layout), Entries(b[1..], false, q, layout);
      EntriesAligned(a[1..], b[1..], false, r, q, layout);
      EntryAligned(a[0], b[0], r', q', layout);
      AlignEntry(Separator(first), Separator(first), Entry(a[0], layout) + r', Entry(b[0], layout) + q');
    } else if a == [] && b == [] {
      AlignEntry(bracket, bracket, r, q);
    } else {
      var s, t := Entries(a, first, r, layout), Entries(b, first, q, layout);
      EntriesHead(a, first, r, layout);
      EntriesHead(b, first, q, layout);
      AlignClash(s, t, 0);
    }
  }

  /** A list either closes at once or goes on with a comma or an opening brace. */
  lemma EntriesHead(a: seq<BlobInfo>, first: bool, r: seq<Token>, layout: Layout)
    ensures var s := Entries(a, first, r, layout);
            && s != [] && s[0].Lit? && s[0].text != ""
            && s[0].text[0] == if a == [] then ']' else if first then '{' else ','
  {
  }

  lemma {:induction false} FieldsAligned(s: seq<(string, bytes)>, t: seq<(string, bytes)>)
    requires |s| == |t|
    requires forall i :: 0 <= i < |s| ==> s[i].0 == t[i].0 && Settled(s[i].1) && Settled(t[i].1)
    ensures Aligned(Fields(s), Fields(t))
  {
    if s != [] {
      FieldsAligned(s[1..], t[1..]);
      AlignEntry([FieldName(s[0].0), Str(s[0].1)], [FieldName(t[0].0), Str(t[0].1)], Fields(s[1..]), Fields(t[1..]));
    } else {
      assert Fields(s)[1..] == [];
    }
  }

  lemma {:induction false} FieldsDetermine(s: seq<(string, bytes)>, t: seq<(string, bytes)>)
    requires |s| == |t| && Fields(s) == Fields(t)
    ensures forall i :: 0 <= i < |s| ==> s[i].1 == t[i].1
  {
    if s != [] {
      assert Fields(s)[1] == Fields(t)[1];
      assert Fields(s)[2..] == Fields(s[1..]) && Fields(t)[2..] == Fields(t[1..]);
      FieldsDetermine(s[1..], t[1..]);
      assert forall i :: 1 <= i < |s| ==> s[i] == s[1..][i - 1] && t[i] == t[1..][i - 1];
    }
  }

  lemma EntryDetermines(a: BlobInfo, b: BlobInfo, r: seq<Token>, q: seq<Token>, layout: Layout)
    requires Printable(a) && Printable(b) && Entry(a, layout) + r == Entry(b, layout) + q
    ensures a == b && r == q
  {
    var e, f := Entry(a, layout), Entry(b, layout);
    if (a.hash == []) != (b.hash == []) {
      var n := EntryClash(a, b, layout);
      ClashedDiffer(e, f, r, q, n);
    }
    assert e == (e + r)[..|e|] == f;
    assert r == (e + r)[|e|..] == q;
    SameEntry(a, b, layout);
  }

  lemma ClashedDiffer(e: seq<Token>, f: seq<Token>, r: seq<Token>, q: seq<Token>, n: nat)
    requires n < |e| && n < |f| && e[n].Lit? && f[n].Lit? && Clash(e[n].text, f[n].text)
    ensures e + r != f + q
  {
    assert (e + r)[n] == e[n] && (f + q)[n] == f[n];
  }

  lemma SameEntry(a: BlobInfo, b: BlobInfo, layout: Layout)
    requires Entry(a, layout) == Entry(b, layout) && ((a.hash == []) == (b.hash == []))
    ensures a == b
  {
    var e, f := Entry(a, layout), Entry(b, layout);
    if layout.Sorted? {
      assert a.hash != [] ==> e[1] == f[1] && e[3] == f[3] && e[5] == f[5] && e[7] == f[7];
      assert a.hash == [] ==> e[1] == f[1] && e[3] == f[3] && e[5] == f[5];
    } else {
      assert e[1] == f[1] && e[3] == f[3] && e[5] == f[5];
      assert a.hash != [] ==> e[7] == f[7];
    }
  }

  lemma {:induction false} EntriesDetermine(
    a: seq<BlobInfo>, b: seq<BlobInfo>, first: bool, r: seq<Token>, q: seq<Token>, layout: Layout)
    requires AllPrintable(a) && AllPrintable(b)
    requires Entries(a, first, r, layout) == Entries(b, first, q, layout)
    ensures a == b && r == q
  {
    EntriesHead(a, first, r, layout);
    EntriesHead(b, first, q, layout);
    if a == [] {
      assert r == Entries(a, first, r, layout)[1..] == q;
    } else {
      var r', q' := Entries(a[1..], false, r, layout), Entries(b[1..], false, q, layout);
      var k := |Separator(first)|;
      assert Entries(a, first, r, layout)[k..] == Entry(a[0], layout) + r';
      assert Entries(b, first, q, layout)[k..] == Entry(b[0], layout) + q';
      EntryDetermines(a[0], b[0], r', q', layout);
      EntriesDetermine(a[1..], b[1..], false, r, q, layout);
      assert a == [a[0]] + a[1..] && b == [b[0]] + b[1..];
    }
  }
}
