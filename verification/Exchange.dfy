/**
 The wire format of blob/exchange.go: a JSON header whose end is found by counting braces
 octet by octet, followed immediately by the blob.
 */
module Exchange {
  import opened Base
  import Hex

  const MAX_HEADER := 64 * 1024

  const QUOTE: byte := 0x22
  const BACKSLASH: byte := 0x5C
  const OPEN: byte := 0x7B
  const CLOSE: byte := 0x7D

  // ---------------------------------------------------------------- the scanner

  datatype Scan = Scan(depth: int, inString: bool, escaped: bool, done: bool)

  const START := Scan(0, false, false, false)

  /** One turn of the reading loop; a finished scan reads no further. */
  function Step(s: Scan, b: byte): Scan {
    if s.done then s
    else if s.escaped then s.(escaped := false)
    else if b == BACKSLASH && s.inString then s.(escaped := true)
    else if b == QUOTE then s.(inString := !s.inString)
    else if s.inString then s
    else if b == OPEN then s.(depth := s.depth + 1)
    else if b == CLOSE then s.(depth := s.depth - 1, done := s.depth == 1)
    else s
  }

  function After(s: Scan, text: bytes): Scan
    decreases |text|
  {
    if text == [] then s else After(Step(s, text[0]), text[1..])
  }

  datatype Framing = Header(length: nat) | HeaderTooLong | ConnectionEnded

  /** Where the header ends: the least prefix after which the scan is done, within the limit. */
  ghost predicate FramingOf(input: bytes, r: Framing) {
    match r
    case Header(n) =>
      && n <= |input| && n <= MAX_HEADER && After(START, input[..n]).done
      && forall k :: 0 <= k < n ==> !After(START, input[..k]).done
    case HeaderTooLong =>
      |input| > MAX_HEADER && !After(START, input[..MAX_HEADER]).done
    case ConnectionEnded =>
      |input| <= MAX_HEADER && !After(START, input).done
  }

  /** The loop of DownloadBlobContext over the octets the peer sends before closing. */
  method ScanHeader(input: bytes) returns (r: Framing)
    ensures FramingOf(input, r)
  {
    var depth, inString, escaped, jsonDone := 0, false, false, false;
    var length := 0;
    while !jsonDone
      invariant 0 <= length <= |input| && length <= MAX_HEADER
      invariant After(START, input[..length]) == Scan(depth, inString, escaped, jsonDone)
      invariant forall k :: 0 <= k < length ==> !After(START, input[..k]).done
      decreases !jsonDone, |input| - length
    {
      if length == |input| {
        assert input[..length] == input;
        return ConnectionEnded;
      }
      var b := input[length];
      if length + 1 > MAX_HEADER {
        return HeaderTooLong;
      }
      AfterSnoc(START, input[..length], b);
      assert input[..length + 1] == input[..length] + [b];
      length := length + 1;
      if escaped {
        escaped := false;
      } else if b == BACKSLASH && inString {
        escaped := true;
      } else if b == QUOTE {
        inString := !inString;
      } else if !inString {
        if b == OPEN {
          depth := depth + 1;
        } else if b == CLOSE {
          depth := depth - 1;
          if depth == 0 {
            jsonDone := true;
          }
        }
      }
    }
    return Header(length);
  }

  lemma {:induction false} AfterSplit(s: Scan, a: bytes, b: bytes)
    ensures After(s, a + b) == After(After(s, a), b)
    decreases |a|
  {
    if a == [] {
      assert a + b == b;
    } else {
      assert (a + b)[1..] == a[1..] + b;
      AfterSplit(Step(s, a[0]), a[1..], b);
    }
  }

  lemma AfterSnoc(s: Scan, a: bytes, b: byte)
    ensures After(s, a + [b]) == Step(After(s, a), b)
  {
    AfterSplit(s, a, [b]);
    assert After(After(s, a), [b]) == After(Step(After(s, a), b), []);
  }

  lemma {:induction false} DoneStays(s: Scan, text: bytes)
    requires s.done
    ensures After(s, text) == s
  {
    if text != [] {
      DoneStays(s, text[1..]);
    }
  }

  /** Every input has exactly one framing. */
  lemma FramingUnique(input: bytes, a: Framing, b: Framing)
    requires FramingOf(input, a) && FramingOf(input, b)
    ensures a == b
  {
    match (a, b) {
      case (Header(m), Header(n)) =>
      case (Header(m), _) => PrefixDone(input, m, if b.HeaderTooLong? then MAX_HEADER else |input|);
      case (_, Header(n)) => PrefixDone(input, n, if a.HeaderTooLong? then MAX_HEADER else |input|);
      case _ =>
    }
  }

  lemma PrefixDone(input: bytes, m: nat, n: nat)
    requires m <= n <= |input| && After(START, input[..m]).done
    ensures After(START, input[..n]).done && (n == |input| ==> After(START, input).done)
  {
    assert input[..n] == input[..m] + input[m..n];
    AfterSplit(START, input[..m], input[m..n]);
    DoneStays(After(START, input[..m]), input[m..n]);
    assert n == |input| ==> input[..n] == input;
  }

  // ---------------------------------------------------------------- JSON texts

  /** One character of a string body: unescaped, a two-character escape, or a four-digit escape. */
  datatype StrChar = Plain(b: byte) | Short(b: byte) | Unicode(digits: bytes)

  /** A value with the white space around it. */
  datatype Element = Element(before: bytes, value: Json, after: bytes)

  datatype Member = Member(before: bytes, name: seq<StrChar>, colon: bytes, element: Element)

  /** Sections 2 to 7 of RFC 8259; `pad` is the inside of an empty array or object. */
  datatype Json =
    | Literal(text: bytes)
    | Str(chars: seq<StrChar>)
    | Array(elements: seq<Element>, pad: bytes)
    | Object(members: seq<Member>, pad: bytes)

  predicate IsSpace(text: bytes) {
    forall i :: 0 <= i < |text| ==> text[i] in {0x20, 0x09, 0x0A, 0x0D}
  }

  predicate CharOk(c: StrChar) {
    match c
    case Plain(b) => b >= 0x20 && b != QUOTE && b != BACKSLASH
    case Short(b) => b in {QUOTE, BACKSLASH, 0x2F, 0x62, 0x66, 0x6E, 0x72, 0x74}
    case Unicode(d) => |d| == 4 && Hex.AllDigits(d)
  }

  predicate CharsOk(chars: seq<StrChar>) {
    forall i :: 0 <= i < |chars| ==> CharOk(chars[i])
  }

  /** true, false, null, or something made of the characters of a number. */
  predicate LiteralOk(text: bytes) {
    || text in {Ascii("true"), Ascii("false"), Ascii("null")}
    || (text != [] && forall i :: 0 <= i < |text| ==> 48 <= text[i] <= 57 || text[i] in {0x2B, 0x2D, 0x2E, 0x45, 0x65})
  }

  predicate WellFormed(v: Json)
    decreases v, 1
  {
    match v
    case Literal(text) => LiteralOk(text)
    case Str(chars) => CharsOk(chars)
    case Array(elements, pad) => IsSpace(pad) && ElementsOk(elements)
    case Object(members, pad) => IsSpace(pad) && MembersOk(members)
  }

  predicate ElementOk(e: Element)
    decreases e, 2
  {
    IsSpace(e.before) && IsSpace(e.after) && WellFormed(e.value)
  }

  predicate ElementsOk(elements: seq<Element>)
    decreases elements, 0
  {
    elements == [] || (ElementOk(elements[0]) && ElementsOk(elements[1..]))
  }

  predicate MemberOk(m: Member)
    decreases m, 3
  {
    IsSpace(m.before) && CharsOk(m.name) && IsSpace(m.colon) && ElementOk(m.element)
  }

  predicate MembersOk(members: seq<Member>)
    decreases members, 0
  {
    members == [] || (MemberOk(members[0]) && MembersOk(members[1..]))
  }

  function CharText(c: StrChar): bytes {
    match c
    case Plain(b) => [b]
    case Short(b) => [BACKSLASH, b]
    case Unicode(d) => [BACKSLASH, 0x75] + d
  }

  function CharsText(chars: seq<StrChar>): bytes {
    if chars == [] then [] else CharText(chars[0]) + CharsText(chars[1..])
  }

  function StringText(chars: seq<StrChar>): bytes {
    [QUOTE] + (CharsText(chars) + [QUOTE])
  }

  function Text(v: Json): bytes
    decreases v, 1
  {
    match v
    case Literal(text) => text
    case Str(chars) => StringText(chars)
    case Array(elements, pad) => [0x5B] + ((if elements == [] then pad else ElementsText(elements)) + [0x5D])
    case Object(members, pad) => [OPEN] + (Interior(members, pad) + [CLOSE])
  }

  function Interior(members: seq<Member>, pad: bytes): bytes
    decreases members, 1
  {
    if members == [] then pad else MembersText(members)
  }

  function ElementText(e: Element): bytes
    decreases e, 2
  {
    e.before + (Text(e.value) + e.after)
  }

  function ElementsText(elements: seq<Element>): bytes
    decreases elements, 0
  {
    if elements == [] then []
    else ElementText(elements[0]) + if |elements| == 1 then [] else [0x2C] + ElementsText(elements[1..])
  }

  function MemberText(m: Member): bytes
    decreases m, 3
  {
    m.before + (StringText(m.name) + (m.colon + ([0x3A] + ElementText(m.element))))
  }

  function MembersText(members: seq<Member>): bytes
    decreases members, 0
  {
    if members == [] then []
    else MemberText(members[0]) + if |members| == 1 then [] else [0x2C] + MembersText(members[1..])
  }

  // ---------------------------------------------------------------- framing is exact

  /** Between tokens at some depth. */
  function At(depth: int): Scan {
    Scan(depth, false, false, false)
  }

  /** Text that leaves the scanner where it found it, without finishing, at any depth from `floor` up. */
  ghost predicate Neutral(text: bytes, floor: int) {
    forall d :: d >= floor ==> After(At(d), text) == At(d)
  }

  lemma NeutralAppend(a: bytes, b: bytes, floor: int)
    requires Neutral(a, floor) && Neutral(b, floor)
    ensures Neutral(a + b, floor)
  {
    forall d | d >= floor
      ensures After(At(d), a + b) == At(d)
    {
      AfterSplit(At(d), a, b);
    }
  }

  predicate Inert(text: bytes) {
    forall i :: 0 <= i < |text| ==> text[i] != QUOTE && text[i] != OPEN && text[i] != CLOSE
  }

  lemma {:induction false} InertAt(text: bytes, d: int)
    requires Inert(text)
    ensures After(At(d), text) == At(d)
  {
    if text != [] {
      InertAt(text[1..], d);
    }
  }

  lemma InertNeutral(text: bytes, floor: int)
    requires Inert(text)
    ensures Neutral(text, floor)
  {
    forall d | d >= floor
      ensures After(At(d), text) == At(d)
    {
      InertAt(text, d);
    }
  }

  function Inside(d: int): Scan {
    Scan(d, true, false, false)
  }

  lemma {:induction false} InsideDigits(text: bytes, d: int)
    requires Hex.AllDigits(text)
    ensures After(Inside(d), text) == Inside(d)
  {
    if text != [] {
      assert Hex.Unhex(text[0]) <= 15;
      InsideDigits(text[1..], d);
    }
  }

  lemma CharInside(c: StrChar, d: int)
    requires CharOk(c)
    ensures After(Inside(d), CharText(c)) == Inside(d)
  {
    match c {
      case Plain(b) => AfterSnoc(Inside(d), [], b);
        assert [] + [b] == [b];
      case Short(b) => EscapePair(b, d);
      case Unicode(digits) =>
        EscapePair(0x75, d);
        AfterSplit(Inside(d), [BACKSLASH, 0x75], digits);
        InsideDigits(digits, d);
    }
  }

  lemma EscapePair(b: byte, d: int)
    ensures After(Inside(d), [BACKSLASH, b]) == Inside(d)
  {
    OneOctet(Inside(d), BACKSLASH);
    AfterSnoc(Inside(d), [BACKSLASH], b);
    assert [BACKSLASH] + [b] == [BACKSLASH, b];
  }

  lemma {:induction false} CharsInside(chars: seq<StrChar>, d: int)
    requires CharsOk(chars)
    ensures After(Inside(d), CharsText(chars)) == Inside(d)
  {
    if chars != [] {
      CharInside(chars[0], d);
      AfterSplit(Inside(d), CharText(chars[0]), CharsText(chars[1..]));
      CharsInside(chars[1..], d);
    }
  }

  lemma OneOctet(s: Scan, b: byte)
    ensures After(s, [b]) == Step(s, b)
  {
    assert [b][1..] == [];
  }

  lemma StringNeutral(chars: seq<StrChar>, floor: int)
    requires CharsOk(chars)
    ensures Neutral(StringText(chars), floor)
  {
    forall d | d >= floor
      ensures After(At(d), StringText(chars)) == At(d)
    {
      OneOctet(At(d), QUOTE);
      OneOctet(Inside(d), QUOTE);
      CharsInside(chars, d);
      AfterSplit(Inside(d), CharsText(chars), [QUOTE]);
      AfterSplit(At(d), [QUOTE], CharsText(chars) + [QUOTE]);
    }
  }

  lemma SpaceNeutral(text: bytes, floor: int)
    requires IsSpace(text)
    ensures Neutral(text, floor)
  {
    InertNeutral(text, floor);
  }

  /** Neutral text in braces is neutral again, one level further out. */
  lemma BracesNeutral(interior: bytes)
    requires Neutral(interior, 1)
    ensures Neutral([OPEN] + (interior + [CLOSE]), 1)
  {
    forall d | d >= 1
      ensures After(At(d), [OPEN] + (interior + [CLOSE])) == At(d)
    {
      OneOctet(At(d), OPEN);
      OneOctet(At(d + 1), CLOSE);
      AfterSplit(At(d + 1), interior, [CLOSE]);
      AfterSplit(At(d), [OPEN], interior + [CLOSE]);
    }
  }

  lemma LiteralNeutral(text: bytes)
    requires LiteralOk(text)
    ensures Neutral(text, 1)
  {
    assert Inert(text) by {
      assert Inert(Ascii("true")) && Inert(Ascii("false")) && Inert(Ascii("null"));
    }
    InertNeutral(text, 1);
  }

  lemma {:induction false} ValueNeutral(v: Json)
    requires WellFormed(v)
    ensures Neutral(Text(v), 1)
    decreases v, 1
  {
    match v {
      case Literal(text) => LiteralNeutral(text);
      case Str(chars) => StringNeutral(chars, 1);
      case Array(elements, pad) =>
        var interior := if elements == [] then pad else ElementsText(elements);
        SpaceNeutral(pad, 1);
        ElementsNeutral(elements);
        InertNeutral([0x5B], 1);
        InertNeutral([0x5D], 1);
        NeutralAppend(interior, [0x5D], 1);
        NeutralAppend([0x5B], interior + [0x5D], 1);
      case Object(members, pad) =>
        InteriorNeutral(members, pad);
        BracesNeutral(Interior(members, pad));
    }
  }

  lemma {:induction false} InteriorNeutral(members: seq<Member>, pad: bytes)
    requires IsSpace(pad) && MembersOk(members)
    ensures Neutral(Interior(members, pad), 1)
    decreases members, 1
  {
    SpaceNeutral(pad, 1);
    MembersNeutral(members);
  }

  lemma {:induction false} ElementNeutral(e: Element)
    requires ElementOk(e)
    ensures Neutral(ElementText(e), 1)
    decreases e, 2
  {
    SpaceNeutral(e.before, 1);
    SpaceNeutral(e.after, 1);
    ValueNeutral(e.value);
    NeutralAppend(Text(e.value), e.after, 1);
    NeutralAppend(e.before, Text(e.value) + e.after, 1);
  }

  lemma {:induction false} ElementsNeutral(elements: seq<Element>)
    requires ElementsOk(elements)
    ensures Neutral(ElementsText(elements), 1)
    decreases elements, 0
  {
    InertNeutral([], 1);
    if elements != [] {
      ElementNeutral(elements[0]);
      ElementsNeutral(elements[1..]);
      InertNeutral([0x2C], 1);
      NeutralAppend([0x2C], ElementsText(elements[1..]), 1);
      NeutralAppend(ElementText(elements[0]), if |elements| == 1 then [] else [0x2C] + ElementsText(elements[1..]), 1);
    }
  }

  lemma {:induction false} MemberNeutral(m: Member)
    requires MemberOk(m)
    ensures Neutral(MemberText(m), 1)
    decreases m, 3
  {
    var e := ElementText(m.element);
    SpaceNeutral(m.before, 1);
    StringNeutral(m.name, 1);
    SpaceNeutral(m.colon, 1);
    ElementNeutral(m.element);
    InertNeutral([0x3A], 1);
    NeutralAppend([0x3A], e, 1);
    NeutralAppend(m.colon, [0x3A] + e, 1);
    NeutralAppend(StringText(m.name), m.colon + ([0x3A] + e), 1);
    NeutralAppend(m.before, StringText(m.name) + (m.colon + ([0x3A] + e)), 1);
  }

  lemma {:induction false} MembersNeutral(members: seq<Member>)
    requires MembersOk(members)
    ensures Neutral(MembersText(members), 1)
    decreases members, 0
  {
    InertNeutral([], 1);
    if members != [] {
      MemberNeutral(members[0]);
      MembersNeutral(members[1..]);
      InertNeutral([0x2C], 1);
      NeutralAppend([0x2C], MembersText(members[1..]), 1);
      NeutralAppend(MemberText(members[0]), if |members| == 1 then [] else [0x2C] + MembersText(members[1..]), 1);
    }
  }

  /** Up to its closing brace an object is unfinished; with it, it is done. */
  lemma ObjectScan(lead: bytes, v: Json)
    requires IsSpace(lead) && v.Object? && WellFormed(v)
    ensures var text := lead + Text(v);
            && text != [] && After(START, text).done
            && !After(START, text[..|text| - 1]).done
  {
    var interior := Interior(v.members, v.pad);
    InteriorNeutral(v.members, v.pad);
    SpaceNeutral(lead, 0);
    var body := lead + ([OPEN] + interior);
    assert lead + Text(v) == body + [CLOSE];
    assert (body + [CLOSE])[..|body|] == body;
    AfterSplit(START, lead, [OPEN] + interior);
    assert After(At(0), lead) == At(0);
    AfterSplit(START, [OPEN], interior);
    OneOctet(START, OPEN);
    assert After(At(1), interior) == At(1);
    AfterSnoc(START, body, CLOSE);
  }

  /**
   Whatever follows a well-formed object, the scanner stops exactly after its closing brace,
   or refuses the header for its length alone.
   */
  lemma FramingExact(lead: bytes, v: Json, rest: bytes)
    requires IsSpace(lead) && v.Object? && WellFormed(v)
    ensures var n := |lead + Text(v)|;
            FramingOf(lead + Text(v) + rest, if n <= MAX_HEADER then Header(n) else HeaderTooLong)
  {
    var text := lead + Text(v);
    var input, n := text + rest, |text|;
    ObjectScan(lead, v);
    assert input[..n] == text;
    forall k | 0 <= k < n
      ensures !After(START, input[..k]).done
    {
      assert input[..k] == text[..n - 1][..k];
      assert text[..n - 1][..n - 1] == text[..n - 1];
      if After(START, text[..n - 1][..k]).done {
        PrefixDone(text[..n - 1], k, n - 1);
      }
    }
  }

  // ---------------------------------------------------------------- downloading

  /** The decoded header: the peer's error text and its offer, if any. */
  datatype Reply = Reply(error: bytes, incoming: Option<(bytes, int)>)

  /** validateIncomingBlob */
  predicate OfferOk(offer: (bytes, int), requested: bytes) {
    offer.0 == requested && 0 < offer.1 <= MAX_BLOB_SIZE
  }

  /**
   What DownloadBlobContext returns once the header is framed; None is an error return, and
   `live` is the look at the context after the body.
   */
  function Receive(input: bytes, framing: Framing, requested: bytes,
                   decode: bytes -> Option<Reply>, sha: bytes -> bytes, live: bool): (r: Option<bytes>)
    ensures r.Some? ==> live && 0 < |r.value| <= MAX_BLOB_SIZE && Hex.Encode(sha(r.value)) == requested
  {
    if !framing.Header? || framing.length > |input| then None
    else
      var n := framing.length;
      match decode(input[..n])
      case None => None
      case Some(reply) =>
        if reply.error != [] || reply.incoming.None? || !OfferOk(reply.incoming.value, requested) then None
        else
          var length := reply.incoming.value.1;
          if n + length > |input| || !live then None
          else
            var data := input[n..n + length];
            if Hex.Encode(sha(data)) == requested then Some(data) else None
  }

  method DownloadBlob(input: bytes, requested: bytes, decode: bytes -> Option<Reply>, sha: bytes -> bytes, live: bool)
    returns (r: Option<bytes>)
    ensures forall framing :: FramingOf(input, framing) ==> r == Receive(input, framing, requested, decode, sha, live)
  {
    var framing := ScanHeader(input);
    forall other | FramingOf(input, other)
      ensures other == framing
    {
      FramingUnique(input, framing, other);
    }
    r := Receive(input, framing, requested, decode, sha, live);
  }

  /**
   A peer that sends any well-formed header announcing the requested blob, then the blob, then
   anything at all, is understood: the download returns exactly the blob.
   */
  lemma DownloadReturnsBlob(lead: bytes, v: Json, blob: bytes, extra: bytes, requested: bytes,
                            decode: bytes -> Option<Reply>, sha: bytes -> bytes, framing: Framing)
    requires IsSpace(lead) && v.Object? && WellFormed(v) && |lead + Text(v)| <= MAX_HEADER
    requires decode(lead + Text(v)) == Some(Reply([], Some((requested, |blob|))))
    requires 0 < |blob| <= MAX_BLOB_SIZE && Hex.Encode(sha(blob)) == requested
    requires FramingOf(lead + Text(v) + (blob + extra), framing)
    ensures Receive(lead + Text(v) + (blob + extra), framing, requested, decode, sha, true) == Some(blob)
  {
    var text := lead + Text(v);
    var input, n := text + (blob + extra), |text|;
    FramingExact(lead, v, blob + extra);
    FramingUnique(input, framing, Header(n));
    assert input[..n] == text;
    assert input[n..n + |blob|] == blob;
  }

  /**
   A download returns a blob exactly when the header was framed and decodes to an offer of the
   requested hash and that length without an error, the blob follows it, the context is still
   alive, and the blob has the requested hash.
   */
  lemma ReceiveExactly(input: bytes, framing: Framing, requested: bytes,
                       decode: bytes -> Option<Reply>, sha: bytes -> bytes, live: bool, data: bytes)
    requires FramingOf(input, framing)
    ensures Receive(input, framing, requested, decode, sha, live) == Some(data) <==>
              && live && 0 < |data| <= MAX_BLOB_SIZE && Hex.Encode(sha(data)) == requested
              && exists header: bytes, rest: bytes ::
                   && input == header + (data + rest) && framing == Header(|header|)
                   && decode(header) == Some(Reply([], Some((requested, |data|))))
  {
    if Receive(input, framing, requested, decode, sha, live) == Some(data) {
      var n := framing.length;
      var header, rest := input[..n], input[n + |data|..];
      assert input == header + (data + rest);
    }
    if live && 0 < |data| <= MAX_BLOB_SIZE && Hex.Encode(sha(data)) == requested {
      if header: bytes, rest: bytes :| && input == header + (data + rest) && framing == Header(|header|)
                                       && decode(header) == Some(Reply([], Some((requested, |data|)))) {
        assert input[..|header|] == header && input[|header|..|header| + |data|] == data;
      }
    }
  }
}
