/**
 What the two printed descriptors say: each is an RFC 8259 object that gives every field of the
 descriptor under its own name.
 */
module DescriptorJson {
  import opened Base
  import opened JsonText
  import opened Descriptor
  import opened JsonValues
  import Exchange

  // ---------------------------------------------------------------- what is claimed

  /** An object with the fields of one blob entry; the hash is left out when it is empty. */
  ghost predicate Shows(v: Exchange.Json, item: BlobInfo) {
    && v.Object? && |v.members| == (if item.hash == [] then 3 else 4)
    && (if item.hash == [] then Absent(v, "blob_hash") else StringUnder(v, "blob_hash", Replaced(item.hash)))
    && IntegerUnder(v, "blob_num", item.num)
    && StringUnder(v, "iv", Replaced(item.iv))
    && IntegerUnder(v, "length", item.length)
  }

  ghost predicate ShowsAll(elements: seq<Exchange.Element>, blobs: seq<BlobInfo>) {
    |elements| == |blobs| && forall i :: 0 <= i < |blobs| ==> Shows(elements[i].value, blobs[i])
  }

  /** An object with exactly the six fields of a descriptor that has these entries. */
  ghost predicate Describes(v: Exchange.Json, d: StreamDescriptor, blobs: seq<BlobInfo>) {
    && v.Object? && |v.members| == 6
    && StringUnder(v, "key", Replaced(d.key))
    && StringUnder(v, "stream_hash", Replaced(d.streamHash))
    && StringUnder(v, "stream_name", Replaced(d.streamName))
    && StringUnder(v, "stream_type", Replaced(d.streamType))
    && StringUnder(v, "suggested_file_name", Replaced(d.suggestedFileName))
    && |Values(v.members, Ascii("blobs"))| == 1
    && var list := Values(v.members, Ascii("blobs"))[0];
       list.Array? && ShowsAll(list.elements, blobs)
  }

  // ---------------------------------------------------------------- one member

  /** The value a token prints. */
  ghost predicate Denotes(v: Exchange.Json, t: Token) {
    && Exchange.WellFormed(v) && Exchange.Text(v) == RenderToken(t)
    && match t
       case Lit(_) => false
       case Str(value) => v.Str? && StringValue(v.chars) == Some(Replaced(value))
       case Num(number) => v.Literal? && IntegerValue(v.text) == Some(number)
  }

  lemma ValueFor(t: Token) returns (v: Exchange.Json)
    requires !t.Lit?
    ensures Denotes(v, t)
  {
    if t.Str? {
      var chars := EscapeSpells(t.value);
      v := Exchange.Str(chars);
      Regroup([0x22], Escape(t.value), [0x22]);
    } else {
      v := Exchange.Literal(Signed(t.number));
      SignedValue(t.number);
    }
  }

  predicate Plain(name: string) {
    forall i :: 0 <= i < |name| ==> 0x20 <= name[i] as int < 0x80 && name[i] != '\"' && name[i] != '\\'
  }

  ghost predicate Named(m: Exchange.Member, name: string) {
    StringValue(m.name) == Some(Ascii(name))
  }

  /** What follows a member: a comma and the others, or nothing. */
  function TailText(members: seq<Exchange.Member>): bytes {
    if members == [] then [] else [0x2C] + Exchange.MembersText(members)
  }

  /** An opening brace, or a comma and a space. */
  predicate Opens(opener: string, lead: byte, before: bytes) {
    (opener == "{" && lead == 0x7B && before == []) || (opener == ", " && lead == 0x2C && before == [0x20])
  }

  lemma AsciiAppend(a: string, b: string)
    ensures Ascii(a + b) == Ascii(a) + Ascii(b)
  {
  }

  lemma OpenerText(opener: string, lead: byte, before: bytes)
    requires Opens(opener, lead, before)
    ensures Ascii(opener) == [lead] + before && Exchange.IsSpace(before)
  {
  }

  lemma NameText(name: string) returns (chars: seq<Exchange.StrChar>)
    requires Plain(name)
    ensures Spells(chars, Ascii(name), Ascii(name))
    ensures Ascii("\"" + name + "\": ") == Exchange.StringText(chars) + [0x3A, 0x20]
  {
    chars := Verbatim(Ascii(name));
    VerbatimSpells(Ascii(name));
    AsciiAppend("\"", name);
    AsciiAppend("\"" + name, "\": ");
    assert Ascii("\"") == [0x22] && Ascii("\": ") == [0x22, 0x3A, 0x20];
    assert ([0x22] + Ascii(name)) + [0x22, 0x3A, 0x20] == ([0x22] + (Ascii(name) + [0x22])) + [0x3A, 0x20];
  }

  /** A member as the printers write it: no space before the colon, one behind it. */
  lemma MemberFor(before: bytes, name: string, v: Exchange.Json) returns (m: Exchange.Member)
    requires Plain(name) && Exchange.IsSpace(before) && Exchange.WellFormed(v)
    ensures Exchange.MemberOk(m) && Named(m, name) && m.element.value == v
    ensures Exchange.MemberText(m) == before + (Ascii("\"" + name + "\": ") + Exchange.Text(v))
  {
    var chars := NameText(name);
    m := Exchange.Member(before, chars, [], Exchange.Element([0x20], v, []));
    var body := Exchange.Text(v);
    assert Exchange.ElementText(m.element) == [0x20] + body;
    assert [] + ([0x3A] + ([0x20] + body)) == [0x3A, 0x20] + body;
    Regroup(Exchange.StringText(chars), [0x3A, 0x20], body);
  }

  lemma MembersTextCons(m: Exchange.Member, rest: seq<Exchange.Member>)
    ensures Exchange.MembersText([m] + rest) == Exchange.MemberText(m) + TailText(rest)
  {
    assert ([m] + rest)[1..] == rest;
  }

  lemma MembersOkCons(m: Exchange.Member, rest: seq<Exchange.Member>)
    requires Exchange.MemberOk(m) && Exchange.MembersOk(rest)
    ensures Exchange.MembersOk([m] + rest)
  {
    assert ([m] + rest)[1..] == rest;
  }

  /** A printed member in front of printed members. */
  lemma ConsText(opener: string, lead: byte, before: bytes, heading: bytes, body: bytes, m: Exchange.Member,
                 rest: seq<Exchange.Member>, close: bytes)
    requires Opens(opener, lead, before) && Exchange.MemberText(m) == before + (heading + body)
    ensures Ascii(opener) + heading + (body + (TailText(rest) + close))
            == [lead] + (Exchange.MembersText([m] + rest) + close)
  {
    OpenerText(opener, lead, before);
    MembersTextCons(m, rest);
    var tail := TailText(rest);
    assert (([lead] + before) + heading) + (body + (tail + close)) == [lead] + ((before + (heading + body)) + tail + close);
  }

  /** A name and a value in front of printed members. */
  lemma ConsMember(opener: string, lead: byte, before: bytes, name: string, t: Token,
                   tokens: seq<Token>, rest: seq<Exchange.Member>, close: bytes) returns (m: Exchange.Member)
    requires Opens(opener, lead, before) && Plain(name) && !t.Lit? && Exchange.MembersOk(rest)
    requires Render(tokens) == TailText(rest) + close
    ensures Exchange.MembersOk([m] + rest) && Named(m, name) && Denotes(m.element.value, t)
    ensures Render([Lit(opener + ("\"" + name + "\": ")), t] + tokens)
            == [lead] + (Exchange.MembersText([m] + rest) + close)
  {
    var heading := "\"" + name + "\": ";
    var v := ValueFor(t);
    OpenerText(opener, lead, before);
    m := MemberFor(before, name, v);
    MembersOkCons(m, rest);
    RenderTwo(Lit(opener + heading), t, tokens);
    AsciiAppend(opener, heading);
    ConsText(opener, lead, before, Ascii(heading), Exchange.Text(v), m, rest, close);
  }

  lemma RenderTwo(a: Token, b: Token, tokens: seq<Token>)
    ensures Render([a, b] + tokens) == RenderToken(a) + (RenderToken(b) + Render(tokens))
  {
    assert ([a, b] + tokens)[1..] == [b] + tokens;
    assert ([b] + tokens)[1..] == tokens;
  }

  // ---------------------------------------------------------------- objects

  type Field = (string, Token)

  const CLOSE: bytes := [0x7D]

  /** What is printed in front of a value. */
  function Heading(opener: string, name: string): Token {
    Lit(opener + ("\"" + name + "\": "))
  }

  /** Members behind the first one, and the closing brace. */
  function TailTokens(fields: seq<Field>): seq<Token> {
    if fields == [] then [Lit("}")]
    else [Heading(", ", fields[0].0), fields[0].1] + TailTokens(fields[1..])
  }

  function ObjectTokens(fields: seq<Field>): seq<Token>
    requires fields != []
  {
    [Heading("{", fields[0].0), fields[0].1] + TailTokens(fields[1..])
  }

  predicate Printable(field: Field) {
    Plain(field.0) && !field.1.Lit?
  }

  predicate AllPrintable(fields: seq<Field>) {
    forall i :: 0 <= i < |fields| ==> Printable(fields[i])
  }

  ghost predicate Carries(members: seq<Exchange.Member>, fields: seq<Field>) {
    |members| == |fields| && forall i :: 0 <= i < |fields| ==> CarriesOne(members[i], fields[i])
  }

  ghost predicate CarriesOne(m: Exchange.Member, field: Field) {
    Named(m, field.0) && Denotes(m.element.value, field.1)
  }

  lemma CommaText(members: seq<Exchange.Member>, close: bytes)
    requires members != []
    ensures [0x2C] + (Exchange.MembersText(members) + close) == TailText(members) + close
  {
    Regroup([0x2C], Exchange.MembersText(members), close);
  }

  lemma {:induction false} TailFor(fields: seq<Field>) returns (members: seq<Exchange.Member>)
    requires AllPrintable(fields)
    ensures Exchange.MembersOk(members) && Carries(members, fields)
    ensures Render(TailTokens(fields)) == TailText(members) + CLOSE
  {
    if fields == [] {
      members := [];
      RenderOne(Lit("}"));
      assert Ascii("}") == CLOSE;
    } else {
      var rest := TailFor(fields[1..]);
      assert Printable(fields[0]);
      var m := ConsMember(", ", 0x2C, [0x20], fields[0].0, fields[0].1, TailTokens(fields[1..]), rest, CLOSE);
      members := [m] + rest;
      CommaText(members, CLOSE);
    }
  }

  lemma ObjectFor(fields: seq<Field>) returns (v: Exchange.Json)
    requires fields != [] && AllPrintable(fields)
    ensures Exchange.WellFormed(v) && Exchange.Text(v) == Render(ObjectTokens(fields))
    ensures v.Object? && Carries(v.members, fields)
  {
    var rest := TailFor(fields[1..]);
    assert Printable(fields[0]);
    var m := ConsMember("{", 0x7B, [], fields[0].0, fields[0].1, TailTokens(fields[1..]), rest, CLOSE);
    v := Exchange.Object([m] + rest, []);
  }

  // ---------------------------------------------------------------- lookup

  predicate Apart(a: string, b: string) {
    |a| != |b| || Clash(a, b)
  }

  lemma ApartDiffer(a: string, b: string)
    requires Apart(a, b) || Apart(b, a)
    ensures Ascii(a) != Ascii(b)
  {
    if Clash(a, b) {
      ClashDiffers(a, b, [], []);
    } else if Clash(b, a) {
      ClashDiffers(b, a, [], []);
    }
  }

  /** No member but the i-th has the name. */
  ghost predicate OnlyAt(members: seq<Exchange.Member>, i: nat, name: string) {
    && i < |members| && Named(members[i], name)
    && forall j :: 0 <= j < |members| && j != i ==> !Named(members[j], name)
  }

  lemma {:induction false} NoValues(members: seq<Exchange.Member>, name: string)
    requires forall j :: 0 <= j < |members| ==> !Named(members[j], name)
    ensures Values(members, Ascii(name)) == []
  {
    if members != [] {
      assert !Named(members[0], name);
      NoValues(members[1..], name);
    }
  }

  lemma {:induction false} OneValue(members: seq<Exchange.Member>, i: nat, name: string)
    requires OnlyAt(members, i, name)
    ensures Values(members, Ascii(name)) == [members[i].element.value]
  {
    if i == 0 {
      NoValues(members[1..], name);
    } else {
      assert !Named(members[0], name);
      OneValue(members[1..], i - 1, name);
    }
  }

  ghost predicate AllNamed(members: seq<Exchange.Member>, names: seq<string>) {
    |members| == |names| && forall j :: 0 <= j < |names| ==> Named(members[j], names[j])
  }

  lemma FoundAt(members: seq<Exchange.Member>, names: seq<string>, i: nat)
    requires AllNamed(members, names) && i < |names|
    requires forall j :: 0 <= j < |names| && j != i ==> Apart(names[j], names[i])
    ensures Values(members, Ascii(names[i])) == [members[i].element.value]
  {
    forall j | 0 <= j < |members| && j != i
      ensures !Named(members[j], names[i])
    {
      ApartDiffer(names[j], names[i]);
      assert Named(members[j], names[j]);
    }
    OneValue(members, i, names[i]);
  }

  lemma FoundToken(v: Exchange.Json, names: seq<string>, i: nat, t: Token)
    requires v.Object? && AllNamed(v.members, names) && i < |names| && Denotes(v.members[i].element.value, t)
    requires forall j :: 0 <= j < |names| && j != i ==> Apart(names[j], names[i])
    ensures t.Str? ==> StringUnder(v, names[i], Replaced(t.value))
    ensures t.Num? ==> IntegerUnder(v, names[i], t.number)
  {
    FoundAt(v.members, names, i);
  }

  // ---------------------------------------------------------------- entries

  function EntryFields(item: BlobInfo, layout: Layout): seq<Field> {
    match layout
    case Sorted =>
      if item.hash == [] then [("blob_num", Num(item.num)), ("iv", Str(item.iv)), ("length", Num(item.length))]
      else [("blob_hash", Str(item.hash)), ("blob_num", Num(item.num)), ("iv", Str(item.iv)), ("length", Num(item.length))]
    case OldSort =>
      if item.hash == [] then [("length", Num(item.length)), ("blob_num", Num(item.num)), ("iv", Str(item.iv))]
      else [("length", Num(item.length)), ("blob_num", Num(item.num)), ("blob_hash", Str(item.hash)), ("iv", Str(item.iv))]
  }

  lemma ThreeTokens(a: Field, b: Field, c: Field)
    ensures ObjectTokens([a, b, c]) == [Heading("{", a.0), a.1, Heading(", ", b.0), b.1, Heading(", ", c.0), c.1, Lit("}")]
  {
    assert [a, b, c][1..] == [b, c] && [b, c][1..] == [c];
    assert TailTokens([c]) == [Heading(", ", c.0), c.1] + [Lit("}")];
  }

  lemma FourTokens(a: Field, b: Field, c: Field, d: Field)
    ensures ObjectTokens([a, b, c, d])
            == [Heading("{", a.0), a.1, Heading(", ", b.0), b.1, Heading(", ", c.0), c.1, Heading(", ", d.0), d.1, Lit("}")]
  {
    assert [a, b, c, d][1..] == [b, c, d] && [b, c, d][1..] == [c, d] && [c, d][1..] == [d];
    assert TailTokens([d]) == [Heading(", ", d.0), d.1] + [Lit("}")];
    assert TailTokens([c, d]) == [Heading(", ", c.0), c.1] + TailTokens([d]);
  }

  lemma SortedHeadings()
    ensures Heading("{", "blob_hash") == Lit("{\"blob_hash\": ") && Heading("{", "blob_num") == Lit("{\"blob_num\": ")
    ensures Heading(", ", "blob_num") == Lit(", \"blob_num\": ") && Heading(", ", "iv") == Lit(", \"iv\": ")
    ensures Heading(", ", "length") == Lit(", \"length\": ")
  {
  }

  lemma OldHeadings()
    ensures Heading("{", "length") == Lit("{\"length\": ") && Heading(", ", "blob_num") == Lit(", \"blob_num\": ")
    ensures Heading(", ", "blob_hash") == Lit(", \"blob_hash\": ") && Heading(", ", "iv") == Lit(", \"iv\": ")
  {
  }

  lemma SortedIsObject(item: BlobInfo)
    ensures Entry(item, Sorted) == ObjectTokens(EntryFields(item, Sorted))
  {
    var f := EntryFields(item, Sorted);
    SortedHeadings();
    if item.hash == [] {
      ThreeTokens(f[0], f[1], f[2]);
    } else {
      FourTokens(f[0], f[1], f[2], f[3]);
    }
  }

  lemma OldIsObject(item: BlobInfo)
    ensures Entry(item, OldSort) == ObjectTokens(EntryFields(item, OldSort))
  {
    var f := EntryFields(item, OldSort);
    OldHeadings();
    if item.hash == [] {
      ThreeTokens(f[0], f[1], f[2]);
    } else {
      FourTokens(f[0], f[1], f[2], f[3]);
    }
  }

  /** The field is found under its name. */
  ghost predicate Finds(v: Exchange.Json, field: Field) {
    match field.1
    case Lit(_) => true
    case Str(value) => StringUnder(v, field.0, Replaced(value))
    case Num(number) => IntegerUnder(v, field.0, number)
  }

  predicate DistinctNames(fields: seq<Field>) {
    forall i, j :: 0 <= i < |fields| && 0 <= j < |fields| && i != j ==> Apart(fields[i].0, fields[j].0)
  }

  lemma AllFound(v: Exchange.Json, fields: seq<Field>)
    requires v.Object? && Carries(v.members, fields) && DistinctNames(fields)
    ensures forall i :: 0 <= i < |fields| ==> Finds(v, fields[i])
  {
    var names := seq(|fields|, i requires 0 <= i < |fields| => fields[i].0);
    assert forall i :: 0 <= i < |fields| ==> CarriesOne(v.members[i], fields[i]);
    forall i | 0 <= i < |fields|
      ensures Finds(v, fields[i])
    {
      FoundToken(v, names, i, fields[i].1);
    }
  }

  lemma EntryNamesPlain()
    ensures Plain("blob_hash") && Plain("blob_num") && Plain("iv") && Plain("length")
  {
  }

  lemma EntryFieldsPrintable(item: BlobInfo, layout: Layout)
    ensures AllPrintable(EntryFields(item, layout))
  {
    EntryNamesPlain();
    forall i | 0 <= i < |EntryFields(item, layout)|
      ensures Printable(EntryFields(item, layout)[i])
    {
      NameCases(item, layout, i);
    }
  }

  lemma NameCases(item: BlobInfo, layout: Layout, i: nat)
    requires i < |EntryFields(item, layout)|
    ensures EntryFields(item, layout)[i].0 in ["blob_hash", "blob_num", "iv", "length"] && !EntryFields(item, layout)[i].1.Lit?
  {
  }

  /** The names of an entry have different lengths. */
  lemma EntryNamesDistinct(item: BlobInfo, layout: Layout)
    ensures DistinctNames(EntryFields(item, layout))
    ensures item.hash == [] ==> forall i :: 0 <= i < |EntryFields(item, layout)| ==> |EntryFields(item, layout)[i].0| != 9
  {
  }

  lemma FoundIsShown(v: Exchange.Json, item: BlobInfo, layout: Layout)
    requires v.Object? && |v.members| == |EntryFields(item, layout)|
    requires forall i :: 0 <= i < |EntryFields(item, layout)| ==> Finds(v, EntryFields(item, layout)[i])
    requires item.hash == [] ==> Absent(v, "blob_hash")
    ensures Shows(v, item)
  {
    var f := EntryFields(item, layout);
    assert Finds(v, f[0]) && Finds(v, f[1]) && Finds(v, f[2]) && (item.hash != [] ==> Finds(v, f[3]));
  }

  lemma EntryShown(item: BlobInfo, layout: Layout) returns (v: Exchange.Json)
    ensures Exchange.WellFormed(v) && Exchange.Text(v) == Render(Entry(item, layout)) && Shows(v, item)
  {
    var fields := EntryFields(item, layout);
    if layout.Sorted? {
      SortedIsObject(item);
    } else {
      OldIsObject(item);
    }
    EntryFieldsPrintable(item, layout);
    EntryNamesDistinct(item, layout);
    v := ObjectFor(fields);
    AllFound(v, fields);
    if item.hash == [] {
      HashUnnamed(v.members, fields);
    }
    FoundIsShown(v, item, layout);
  }

  lemma HashUnnamed(members: seq<Exchange.Member>, fields: seq<Field>)
    requires Carries(members, fields) && forall i :: 0 <= i < |fields| ==> |fields[i].0| != |"blob_hash"|
    ensures Values(members, Ascii("blob_hash")) == []
  {
    forall j | 0 <= j < |members|
      ensures !Named(members[j], "blob_hash")
    {
      assert CarriesOne(members[j], fields[j]);
    }
    NoValues(members, "blob_hash");
  }

  // ---------------------------------------------------------------- the list of entries

  /** What follows an element: a comma and the others, or nothing. */
  function TailElements(elements: seq<Exchange.Element>): bytes {
    if elements == [] then [] else [0x2C] + Exchange.ElementsText(elements)
  }

  lemma ElementsTextCons(e: Exchange.Element, rest: seq<Exchange.Element>)
    ensures Exchange.ElementsText([e] + rest) == Exchange.ElementText(e) + TailElements(rest)
  {
    assert ([e] + rest)[1..] == rest;
  }

  lemma ElementsOkCons(e: Exchange.Element, rest: seq<Exchange.Element>)
    requires Exchange.ElementOk(e) && Exchange.ElementsOk(rest)
    ensures Exchange.ElementsOk([e] + rest)
  {
    assert ([e] + rest)[1..] == rest;
  }

  lemma ShowsCons(e: Exchange.Element, rest: seq<Exchange.Element>, blobs: seq<BlobInfo>)
    requires blobs != [] && Shows(e.value, blobs[0]) && ShowsAll(rest, blobs[1..])
    ensures ShowsAll([e] + rest, blobs)
  {
    forall i | 0 <= i < |blobs|
      ensures Shows(([e] + rest)[i].value, blobs[i])
    {
      assert i > 0 ==> ([e] + rest)[i] == rest[i - 1] && blobs[i] == blobs[1..][i - 1];
    }
  }

  /** How the list goes on: without a comma at its start only. */
  function ListText(elements: seq<Exchange.Element>, first: bool): bytes {
    if first then Exchange.ElementsText(elements) else TailElements(elements)
  }

  lemma {:induction false} ElementsFor(blobs: seq<BlobInfo>, first: bool, tail: seq<Token>, layout: Layout)
    returns (elements: seq<Exchange.Element>)
    ensures Exchange.ElementsOk(elements) && ShowsAll(elements, blobs)
    ensures Render(Entries(blobs, first, tail, layout)) == ListText(elements, first) + ([0x5D] + Render(tail))
  {
    if blobs == [] {
      elements := [];
      RenderAppend([Lit("]")], tail);
      RenderOne(Lit("]"));
      assert Ascii("]") == [0x5D];
    } else {
      var rest := ElementsFor(blobs[1..], false, tail, layout);
      var v := EntryShown(blobs[0], layout);
      var e := Exchange.Element(if first then [] else [0x20], v, []);
      elements := [e] + rest;
      ElementsOkCons(e, rest);
      ElementsTextCons(e, rest);
      ShowsCons(e, rest, blobs);
      EntriesStep(blobs, first, tail, layout, []);
      ElementText(first, v, rest, [0x5D] + Render(tail), elements);
    }
  }

  lemma ElementText(first: bool, v: Exchange.Json, rest: seq<Exchange.Element>, close: bytes, elements: seq<Exchange.Element>)
    requires elements == [Exchange.Element(if first then [] else [0x20], v, [])] + rest
    ensures ListText(elements, first) + close
            == (if first then [] else [] + Ascii(", ")) + Exchange.Text(v) + (TailElements(rest) + close)
  {
    var e, body, tail := elements[0], Exchange.Text(v), TailElements(rest);
    ElementsTextCons(e, rest);
    assert Exchange.ElementText(e) == e.before + body;
    if first {
      assert [] + body == body;
      Regroup(body, tail, close);
    } else {
      assert Ascii(", ") == [0x2C] + [0x20];
      assert [] + Ascii(", ") == [0x2C] + [0x20];
      CommaJoins([0x2C], [0x20], body, tail, close);
    }
  }

  lemma CommaJoins(comma: bytes, space: bytes, body: bytes, tail: bytes, close: bytes)
    ensures (comma + ((space + body) + tail)) + close == ((comma + space) + body) + (tail + close)
  {
  }

  /** The member "blobs" in front of printed members. */
  lemma BlobsFor(opener: string, lead: byte, before: bytes, blobs: seq<BlobInfo>, tail: seq<Token>,
                 rest: seq<Exchange.Member>, layout: Layout) returns (m: Exchange.Member)
    requires Opens(opener, lead, before) && Exchange.MembersOk(rest) && Render(tail) == TailText(rest) + CLOSE
    ensures Exchange.MembersOk([m] + rest) && Named(m, "blobs")
    ensures m.element.value.Array? && ShowsAll(m.element.value.elements, blobs)
    ensures Render([Lit(opener + ("\"" + "blobs" + "\": ") + "[")] + Entries(blobs, true, tail, layout))
            == [lead] + (Exchange.MembersText([m] + rest) + CLOSE)
  {
    var heading := "\"" + "blobs" + "\": ";
    var elements := ElementsFor(blobs, true, tail, layout);
    var v := Exchange.Array(elements, []);
    OpenerText(opener, lead, before);
    m := MemberFor(before, "blobs", v);
    MembersOkCons(m, rest);
    ConsText(opener, lead, before, Ascii(heading), Exchange.Text(v), m, rest, CLOSE);
    ListOpened(opener, heading, Entries(blobs, true, tail, layout), Exchange.ElementsText(elements), TailText(rest) + CLOSE);
    assert Exchange.Text(v) == [0x5B] + (Exchange.ElementsText(elements) + [0x5D]);
  }

  lemma ListOpened(opener: string, heading: string, tokens: seq<Token>, list: bytes, close: bytes)
    requires Render(tokens) == list + ([0x5D] + close)
    ensures Render([Lit(opener + heading + "[")] + tokens)
            == Ascii(opener) + Ascii(heading) + (([0x5B] + (list + [0x5D])) + close)
  {
    RenderAppend([Lit(opener + heading + "[")], tokens);
    RenderOne(Lit(opener + heading + "["));
    AsciiAppend(opener, heading);
    AsciiAppend(opener + heading, "[");
    assert Ascii("[") == [0x5B];
    assert ([0x5B] + (list + [0x5D])) + close == [0x5B] + (list + ([0x5D] + close));
    Regroup(Ascii(opener) + Ascii(heading), [0x5B], list + ([0x5D] + close));
  }

  // ---------------------------------------------------------------- the document

  function Texts(fields: seq<(string, bytes)>): seq<Field> {
    seq(|fields|, i requires 0 <= i < |fields| => (fields[i].0, Str(fields[i].1)))
  }

  lemma {:induction false} FieldsAreTail(fields: seq<(string, bytes)>)
    ensures Fields(fields) == TailTokens(Texts(fields))
  {
    if fields != [] {
      FieldsAreTail(fields[1..]);
      assert Texts(fields)[1..] == Texts(fields[1..]);
      assert ", \"" + fields[0].0 + "\": " == ", " + ("\"" + fields[0].0 + "\": ");
    }
  }

  lemma FieldsFor(fields: seq<(string, bytes)>) returns (members: seq<Exchange.Member>)
    requires forall i :: 0 <= i < |fields| ==> Plain(fields[i].0)
    ensures Exchange.MembersOk(members) && Carries(members, Texts(fields))
    ensures Render(Fields(fields)) == TailText(members) + CLOSE
  {
    FieldsAreTail(fields);
    members := TailFor(Texts(fields));
  }

  const SORTED_NAMES := ["blobs", "key", "stream_hash", "stream_name", "stream_type", "suggested_file_name"]
  const OLD_NAMES := ["stream_name", "blobs", "stream_type", "key", "suggested_file_name", "stream_hash"]

  predicate AllApart(names: seq<string>) {
    forall i, j :: 0 <= i < |names| && 0 <= j < |names| && i != j ==> Apart(names[i], names[j])
  }

  /** Length and eighth letter tell the names apart. */
  function Stamp(name: string): int {
    256 * |name| + if |name| > 7 then AsciiChar(name[7]) else 0
  }

  lemma StampsApart(names: seq<string>, stamps: seq<int>)
    requires |names| == |stamps| && forall i :: 0 <= i < |names| ==> Stamp(names[i]) == stamps[i]
    requires forall i, j :: 0 <= i < |stamps| && 0 <= j < |stamps| && i != j ==> stamps[i] != stamps[j]
    ensures AllApart(names)
  {
    forall i, j | 0 <= i < |names| && 0 <= j < |names| && i != j
      ensures Apart(names[i], names[j])
    {
      assert Stamp(names[i]) != Stamp(names[j]);
    }
  }

  lemma StampsAre()
    ensures Stamp("blobs") == 1280 && Stamp("key") == 768 && Stamp("suggested_file_name") == 4965
    ensures Stamp("stream_hash") == 2920 && Stamp("stream_name") == 2926 && Stamp("stream_type") == 2932
  {
  }

  lemma SortedApart()
    ensures AllApart(SORTED_NAMES)
  {
    StampsAre();
    StampsApart(SORTED_NAMES, [1280, 768, 2920, 2926, 2932, 4965]);
  }

  lemma OldApart()
    ensures AllApart(OLD_NAMES)
  {
    StampsAre();
    StampsApart(OLD_NAMES, [2926, 1280, 2932, 768, 4965, 2920]);
  }

  /** A member list that begins with the blobs. */
  lemma BlobsAndFields(opener: string, lead: byte, before: bytes, blobs: seq<BlobInfo>, fields: seq<(string, bytes)>, layout: Layout)
    returns (members: seq<Exchange.Member>)
    requires Opens(opener, lead, before) && forall i :: 0 <= i < |fields| ==> Plain(fields[i].0)
    ensures Exchange.MembersOk(members) && Lists(members, fields)
    ensures members[0].element.value.Array? && ShowsAll(members[0].element.value.elements, blobs)
    ensures Render([Lit(opener + ("\"" + "blobs" + "\": ") + "[")] + Entries(blobs, true, Fields(fields), layout))
            == [lead] + (Exchange.MembersText(members) + CLOSE)
  {
    var rest := FieldsFor(fields);
    var m := BlobsFor(opener, lead, before, blobs, Fields(fields), rest, layout);
    members := [m] + rest;
    forall i | 0 <= i < |fields|
      ensures CarriesOne(members[i + 1], (fields[i].0, Str(fields[i].1)))
    {
      assert members[i + 1] == rest[i];
      assert CarriesOne(rest[i], Texts(fields)[i]);
    }
  }

  lemma ListHeadings()
    ensures "{" + ("\"" + "blobs" + "\": ") + "[" == "{\"blobs\": [" && ", " + ("\"" + "blobs" + "\": ") + "[" == ", \"blobs\": ["
    ensures Heading("{", "stream_name") == Lit("{\"stream_name\": ")
  {
  }

  ghost predicate TextAt(v: Exchange.Json, i: nat, text: bytes) {
    v.Object? && i < |v.members| && Denotes(v.members[i].element.value, Str(text))
  }

  ghost predicate BlobsAt(v: Exchange.Json, i: nat, blobs: seq<BlobInfo>) {
    && v.Object? && i < |v.members| && v.members[i].element.value.Array?
    && ShowsAll(v.members[i].element.value.elements, blobs)
  }

  lemma MembersPlain(d: StreamDescriptor)
    ensures forall i :: 0 <= i < |Members(d)| ==> Plain(Members(d)[i].0)
    ensures forall i :: 0 <= i < |OldMembers(d)| ==> Plain(OldMembers(d)[i].0)
  {
    assert Plain("key") && Plain("stream_hash") && Plain("stream_name");
    assert Plain("stream_type") && Plain("suggested_file_name");
  }

  /** The sorted layout as an object. */
  lemma SortedObject(d: StreamDescriptor, members: seq<Exchange.Member>) returns (v: Exchange.Json)
    requires members != [] && Exchange.MembersOk(members)
    requires Render([Lit("{" + ("\"" + "blobs" + "\": ") + "[")] + Entries(d.blobs, true, Fields(Members(d)), Sorted))
             == [0x7B] + (Exchange.MembersText(members) + CLOSE)
    ensures v == Exchange.Object(members, []) && Exchange.WellFormed(v) && Exchange.Text(v) == Marshal(d)
  {
    v := Exchange.Object(members, []);
    ListHeadings();
  }

  lemma SortedDocument(d: StreamDescriptor) returns (v: Exchange.Json)
    ensures Exchange.WellFormed(v) && Exchange.Text(v) == Marshal(d)
    ensures v.Object? && AllNamed(v.members, SORTED_NAMES) && BlobsAt(v, 0, d.blobs)
    ensures TextAt(v, 1, d.key) && TextAt(v, 2, d.streamHash) && TextAt(v, 3, d.streamName)
    ensures TextAt(v, 4, d.streamType) && TextAt(v, 5, d.suggestedFileName)
  {
    MembersPlain(d);
    var members := BlobsAndFields("{", 0x7B, [], d.blobs, Members(d), Sorted);
    v := SortedObject(d, members);
    SortedCarried(d, members);
  }

  /** The blobs, then these texts under these names. */
  ghost predicate Lists(members: seq<Exchange.Member>, fields: seq<(string, bytes)>) {
    && |members| == |fields| + 1 && Named(members[0], "blobs")
    && forall i :: 0 <= i < |fields| ==> CarriesOne(members[i + 1], (fields[i].0, Str(fields[i].1)))
  }

  lemma ListedNames(members: seq<Exchange.Member>, fields: seq<(string, bytes)>, names: seq<string>)
    requires Lists(members, fields) && |names| == |fields| + 1 && names[0] == "blobs"
    requires forall i :: 0 <= i < |fields| ==> fields[i].0 == names[i + 1]
    ensures AllNamed(members, names)
  {
    forall j | 0 <= j < |names|
      ensures Named(members[j], names[j])
    {
      if j > 0 {
        assert CarriesOne(members[j - 1 + 1], (fields[j - 1].0, Str(fields[j - 1].1)));
      }
    }
  }

  lemma ListedText(members: seq<Exchange.Member>, fields: seq<(string, bytes)>, i: nat)
    requires Lists(members, fields) && i < |fields|
    ensures Denotes(members[i + 1].element.value, Str(fields[i].1))
  {
    assert CarriesOne(members[i + 1], (fields[i].0, Str(fields[i].1)));
  }

  lemma SortedCarried(d: StreamDescriptor, members: seq<Exchange.Member>)
    requires Lists(members, Members(d))
    ensures AllNamed(members, SORTED_NAMES)
    ensures Denotes(members[1].element.value, Str(d.key)) && Denotes(members[2].element.value, Str(d.streamHash))
    ensures Denotes(members[3].element.value, Str(d.streamName)) && Denotes(members[4].element.value, Str(d.streamType))
    ensures Denotes(members[5].element.value, Str(d.suggestedFileName))
  {
    ListedNames(members, Members(d), SORTED_NAMES);
    ListedText(members, Members(d), 0);
    ListedText(members, Members(d), 1);
    ListedText(members, Members(d), 2);
    ListedText(members, Members(d), 3);
    ListedText(members, Members(d), 4);
  }

  lemma OldCarried(d: StreamDescriptor, members: seq<Exchange.Member>)
    requires Lists(members, OldMembers(d))
    ensures AllNamed(members, OLD_NAMES[1..])
    ensures Denotes(members[1].element.value, Str(d.streamType)) && Denotes(members[2].element.value, Str(d.key))
    ensures Denotes(members[3].element.value, Str(d.suggestedFileName)) && Denotes(members[4].element.value, Str(d.streamHash))
  {
    ListedNames(members, OldMembers(d), OLD_NAMES[1..]);
    ListedText(members, OldMembers(d), 0);
    ListedText(members, OldMembers(d), 1);
    ListedText(members, OldMembers(d), 2);
    ListedText(members, OldMembers(d), 3);
  }

  /** The old layout as an object. */
  lemma OldObject(d: StreamDescriptor, blobs: seq<BlobInfo>, members: seq<Exchange.Member>) returns (first: Exchange.Member, v: Exchange.Json)
    requires members != [] && Exchange.MembersOk(members)
    requires Render([Lit(", " + ("\"" + "blobs" + "\": ") + "[")] + Entries(blobs, true, Fields(OldMembers(d)), OldSort))
             == [0x2C] + (Exchange.MembersText(members) + CLOSE)
    ensures v == Exchange.Object([first] + members, []) && Exchange.WellFormed(v) && Exchange.Text(v) == OldDocument(d, blobs)
    ensures Named(first, "stream_name") && Denotes(first.element.value, Str(d.streamName))
  {
    var entries := Entries(blobs, true, Fields(OldMembers(d)), OldSort);
    first, v := NameBefore(d.streamName, entries, members);
    OldTokens(OldOpening(d), Str(d.streamName), entries);
  }

  lemma NameBefore(name: bytes, entries: seq<Token>, members: seq<Exchange.Member>) returns (first: Exchange.Member, v: Exchange.Json)
    requires members != [] && Exchange.MembersOk(members)
    requires Render([Lit(", " + ("\"" + "blobs" + "\": ") + "[")] + entries) == [0x2C] + (Exchange.MembersText(members) + CLOSE)
    ensures v == Exchange.Object([first] + members, []) && Exchange.WellFormed(v)
    ensures Exchange.Text(v) == Render([Heading("{", "stream_name"), Str(name)] + ([Lit(", " + ("\"" + "blobs" + "\": ") + "[")] + entries))
    ensures Named(first, "stream_name") && Denotes(first.element.value, Str(name))
  {
    CommaText(members, CLOSE);
    NamePlain();
    first := ConsMember("{", 0x7B, [], "stream_name", Str(name), [Lit(", " + ("\"" + "blobs" + "\": ") + "[")] + entries, members, CLOSE);
    v := Exchange.Object([first] + members, []);
  }

  lemma NamePlain()
    ensures Plain("stream_name")
  {
  }

  lemma OldTokens(opening: seq<Token>, name: Token, entries: seq<Token>)
    requires opening == [Lit("{\"stream_name\": "), name, Lit(", \"blobs\": [")]
    ensures opening + entries == [Heading("{", "stream_name"), name] + ([Lit(", " + ("\"" + "blobs" + "\": ") + "[")] + entries)
  {
    ListHeadings();
  }

  lemma OldSortDocument(d: StreamDescriptor) returns (v: Exchange.Json)
    ensures Exchange.WellFormed(v) && Exchange.Text(v) == MarshalOld(d)
    ensures v.Object? && AllNamed(v.members, OLD_NAMES) && BlobsAt(v, 1, Through(d.blobs))
    ensures TextAt(v, 0, d.streamName) && TextAt(v, 2, d.streamType) && TextAt(v, 3, d.key)
    ensures TextAt(v, 4, d.suggestedFileName) && TextAt(v, 5, d.streamHash)
  {
    MembersPlain(d);
    var members := BlobsAndFields(", ", 0x2C, [0x20], Through(d.blobs), OldMembers(d), OldSort);
    var first;
    first, v := OldObject(d, Through(d.blobs), members);
    OldCarried(d, members);
    NameInFront(first, members);
  }

  lemma NameInFront(first: Exchange.Member, members: seq<Exchange.Member>)
    requires Named(first, "stream_name") && AllNamed(members, OLD_NAMES[1..])
    ensures AllNamed([first] + members, OLD_NAMES)
  {
    forall i | 0 <= i < |OLD_NAMES|
      ensures Named(([first] + members)[i], OLD_NAMES[i])
    {
      if i > 0 {
        assert Named(members[i - 1], OLD_NAMES[1..][i - 1]);
      }
    }
  }

  lemma TextFound(v: Exchange.Json, names: seq<string>, i: nat, text: bytes)
    requires v.Object? && AllNamed(v.members, names) && AllApart(names) && i < |names| && TextAt(v, i, text)
    ensures StringUnder(v, names[i], Replaced(text))
  {
    FoundAt(v.members, names, i);
  }

  /** The printed descriptor is a JSON object that gives each field, and each field of each entry, by its name. */
  lemma MarshalSays(d: StreamDescriptor) returns (v: Exchange.Json)
    ensures Exchange.WellFormed(v) && Marshal(d) == Exchange.Text(v) && Describes(v, d, d.blobs)
  {
    v := SortedDocument(d);
    SortedApart();
    FoundAt(v.members, SORTED_NAMES, 0);
    TextFound(v, SORTED_NAMES, 1, d.key);
    TextFound(v, SORTED_NAMES, 2, d.streamHash);
    TextFound(v, SORTED_NAMES, 3, d.streamName);
    TextFound(v, SORTED_NAMES, 4, d.streamType);
    TextFound(v, SORTED_NAMES, 5, d.suggestedFileName);
  }

  /** So is the old layout, with the entries up to and including the first one without a hash. */
  lemma MarshalOldSays(d: StreamDescriptor) returns (v: Exchange.Json)
    ensures Exchange.WellFormed(v) && MarshalOld(d) == Exchange.Text(v) && Describes(v, d, Through(d.blobs))
  {
    v := OldSortDocument(d);
    OldApart();
    FoundAt(v.members, OLD_NAMES, 1);
    TextFound(v, OLD_NAMES, 0, d.streamName);
    TextFound(v, OLD_NAMES, 2, d.streamType);
    TextFound(v, OLD_NAMES, 3, d.key);
    TextFound(v, OLD_NAMES, 4, d.suggestedFileName);
    TextFound(v, OLD_NAMES, 5, d.streamHash);
  }

  // ---------------------------------------------------------------- reading by name

  predicate EntryUtf8(item: BlobInfo) {
    ValidUtf8(item.hash) && ValidUtf8(item.iv)
  }

  predicate AllUtf8(d: StreamDescriptor) {
    && ValidUtf8(d.streamName) && ValidUtf8(d.key) && ValidUtf8(d.suggestedFileName)
    && ValidUtf8(d.streamHash) && ValidUtf8(d.streamType)
    && forall i :: 0 <= i < |d.blobs| ==> EntryUtf8(d.blobs[i])
  }

  lemma ShownOnce(v: Exchange.Json, a: BlobInfo, b: BlobInfo)
    requires Shows(v, a) && Shows(v, b) && EntryUtf8(a) && EntryUtf8(b)
    ensures a == b
  {
    ValidIsKept(a.hash);
    ValidIsKept(b.hash);
    ValidIsKept(a.iv);
    ValidIsKept(b.iv);
  }

  /** A document describes at most one descriptor of UTF-8 texts. */
  lemma DescribedOnce(v: Exchange.Json, d: StreamDescriptor, e: StreamDescriptor)
    requires Describes(v, d, d.blobs) && Describes(v, e, e.blobs) && AllUtf8(d) && AllUtf8(e)
    ensures d == e
  {
    FieldsKept(d);
    FieldsKept(e);
    var list := Values(v.members, Ascii("blobs"))[0];
    forall i | 0 <= i < |d.blobs|
      ensures d.blobs[i] == e.blobs[i]
    {
      assert Shows(list.elements[i].value, d.blobs[i]) && Shows(list.elements[i].value, e.blobs[i]);
      assert EntryUtf8(d.blobs[i]) && EntryUtf8(e.blobs[i]);
      ShownOnce(list.elements[i].value, d.blobs[i], e.blobs[i]);
    }
    assert d.blobs == e.blobs;
  }

  lemma FieldsKept(d: StreamDescriptor)
    requires AllUtf8(d)
    ensures Replaced(d.streamName) == d.streamName && Replaced(d.key) == d.key
    ensures Replaced(d.suggestedFileName) == d.suggestedFileName && Replaced(d.streamHash) == d.streamHash
    ensures Replaced(d.streamType) == d.streamType
  {
    ValidIsKept(d.streamName);
    ValidIsKept(d.key);
    ValidIsKept(d.suggestedFileName);
    ValidIsKept(d.streamHash);
    ValidIsKept(d.streamType);
  }

  /** A decoder that takes fields by name: it returns whatever descriptor a document with this text describes. */
  ghost predicate ReadsByName(unmarshal: bytes -> Option<StreamDescriptor>, data: bytes) {
    forall v: Exchange.Json, d: StreamDescriptor ::
      Exchange.WellFormed(v) && Exchange.Text(v) == data && Describes(v, d, d.blobs) && AllUtf8(d) ==> unmarshal(data) == Some(d)
  }

  /** Such a decoder inverts both printers; the old one where no entry follows the first without a hash. */
  lemma PrintedReadsBack(unmarshal: bytes -> Option<StreamDescriptor>, d: StreamDescriptor)
    requires AllUtf8(d)
    ensures ReadsByName(unmarshal, Marshal(d)) ==> unmarshal(Marshal(d)) == Some(d)
    ensures ReadsByName(unmarshal, MarshalOld(d)) && Through(d.blobs) == d.blobs ==> unmarshal(MarshalOld(d)) == Some(d)
  {
    var v := MarshalSays(d);
    var w := MarshalOldSays(d);
  }
}
