/** The reader inverts the encoder, on exactly the trees within its limits. */
module Asn1Inverse {
  import opened Base
  import opened Radix
  import opened Asn1

  predicate At(data: bytes, offset: nat, s: bytes) {
    offset + |s| <= |data| && data[offset..offset + |s|] == s
  }

  lemma AtSplit(data: bytes, offset: nat, a: bytes, b: bytes)
    requires At(data, offset, a + b)
    ensures At(data, offset, a) && At(data, offset + |a|, b)
  {
    var s := data[offset..offset + |a + b|];
    assert s[..|a|] == a && s[|a|..] == b;
    assert data[offset..offset + |a|] == s[..|a|];
    assert data[offset + |a|..offset + |a| + |b|] == s[|a|..];
  }

  lemma AtFirst(data: bytes, offset: nat, s: bytes)
    requires At(data, offset, s) && s != []
    ensures data[offset] == s[0]
  {
    assert data[offset..offset + |s|][0] == data[offset];
  }

  lemma AtSnoc(data: bytes, offset: nat, whole: bytes, front: bytes, x: byte)
    requires At(data, offset, whole) && whole == front + [x]
    ensures At(data, offset, front) && offset + |front| < |data| && data[offset + |front|] == x
  {
    AtSplit(data, offset, front, [x]);
    AtFirst(data, offset + |front|, [x]);
  }

  lemma AtHeadTail(data: bytes, offset: nat, whole: bytes, x: byte, rest: bytes)
    requires At(data, offset, whole) && whole == [x] + rest
    ensures offset < |data| && data[offset] == x && At(data, offset + 1, rest)
  {
    AtFirst(data, offset, whole);
    AtSplit(data, offset, [x], rest);
  }

  /** The loop swallows continued groups, as long as the octet budget lasts. */
  lemma {:induction false} ReadContinued(n: nat, data: bytes, offset: nat, groups: bytes, next: nat)
    requires n > 0 && groups == Continued(n) && At(data, offset, groups) && |groups| <= MAX_TAG_OCTETS
    requires next == offset + |groups|
    ensures ReadTag(data, offset, 0, 0) == ReadTag(data, next, n, |groups|)
  {
    if n < 128 {
      AtSnoc(data, offset, groups, [], 128 + n);
    } else {
      var front := Continued(n / 128);
      AtSnoc(data, offset, groups, front, 128 + n % 128);
      ReadContinued(n / 128, data, offset, front, next - 1);
      TagStep(data, next - 1, n / 128, |front|, n);
    }
  }

  lemma TagStep(data: bytes, offset: nat, acc: nat, count: nat, n: nat)
    requires offset < |data| && 0 < count < MAX_TAG_OCTETS && acc == n / 128 && data[offset] == 128 + n % 128
    ensures ReadTag(data, offset, acc, count) == ReadTag(data, offset + 1, n, count + 1)
  {
    assert 128 * acc + data[offset] % 128 == n;
  }

  lemma TagEnd(data: bytes, offset: nat, acc: nat, count: nat, tag: nat)
    requires offset < |data| && count < MAX_TAG_OCTETS && acc == tag / 128 && data[offset] == tag % 128 && tag >= 31
    ensures ReadTag(data, offset, acc, count) == Some(Tag(tag, offset + 1))
  {
    assert 128 * acc + data[offset] % 128 == tag;
  }

  lemma ReadGroups(tag: nat, data: bytes, offset: nat, groups: bytes)
    requires 31 <= tag < Pow128(MAX_TAG_OCTETS) && groups == Groups(tag) && At(data, offset, groups)
    ensures ReadTag(data, offset, 0, 0) == Some(Tag(tag, offset + |groups|))
  {
    GroupsFit(tag, MAX_TAG_OCTETS);
    if tag < 128 {
      AtSnoc(data, offset, groups, [], tag);
      TagEnd(data, offset, 0, 0, tag);
    } else {
      var front := Continued(tag / 128);
      AtSnoc(data, offset, groups, front, tag % 128);
      var last := offset + |front|;
      ReadContinued(tag / 128, data, offset, front, last);
      TagEnd(data, last, tag / 128, |front|, tag);
    }
  }

  lemma FirstOctet(tagClass: TagClass, constructed: bool, low: nat, first: byte)
    requires low < 32 && first == 64 * tagClass + (if constructed then 32 else 0) + low
    ensures first / 64 == tagClass && (first / 32 % 2 == 1) == constructed && first % 32 == low
  {
  }

  lemma ReadIdentifierInverts(c: TagClass, constructed: bool, tag: nat, data: bytes, offset: nat, prefix: bytes)
    requires tag < Pow128(MAX_TAG_OCTETS) && prefix == Identifier(c, constructed, tag) && At(data, offset, prefix)
    ensures ReadIdentifier(data, offset) == Some(Ident(c, constructed, tag, offset + |prefix|))
  {
    if tag < 31 {
      AtFirst(data, offset, prefix);
      FirstOctet(c, constructed, tag, prefix[0]);
    } else {
      var groups := Groups(tag);
      AtHeadTail(data, offset, prefix, prefix[0], groups);
      FirstOctet(c, constructed, 31, prefix[0]);
      ReadGroups(tag, data, offset + 1, groups);
      HighTag(c, constructed, tag, data, offset, offset + 1 + |groups|);
    }
  }

  lemma HighTag(c: TagClass, constructed: bool, tag: nat, data: bytes, offset: nat, next: nat)
    requires offset < |data| && data[offset] % 32 == 31
    requires data[offset] / 64 == c && (data[offset] / 32 % 2 == 1) == constructed
    requires ReadTag(data, offset + 1, 0, 0) == Some(Tag(tag, next))
    ensures ReadIdentifier(data, offset) == Some(Ident(c, constructed, tag, next))
  {
  }

  lemma ReadLengthInverts(n: nat, data: bytes, offset: nat)
    requires n < Pow256(MAX_LENGTH_OCTETS) && At(data, offset, LengthOctets(n))
    ensures ReadLength(data, offset) == Some(Definite(n, offset + |LengthOctets(n)|))
  {
    AtFirst(data, offset, LengthOctets(n));
    if n >= 128 {
      BigFits(n, MAX_LENGTH_OCTETS);
      FromBigInvertsBig(n);
      AtSplit(data, offset, [(128 + |Big(n)|) % 256], Big(n));
    }
  }

  /** Whether a forest read at this depth, with this much of the budget spent, stays within both limits. */
  predicate Affordable(height: nat, count: nat, depth: nat, used: nat) {
    depth + height <= MAX_DEPTH + 1 && used + count <= MAX_NODES
  }

  /** What reading an encoded tree, or forest, that ends at `end` is to give. */
  function Outcome(t: Node, end: nat, depth: nat, used: nat): Option<Read> {
    if Affordable(Height(t), Count(t), depth, used) then Some(Read(t, end, used + Count(t))) else None
  }

  function Outcomes(ts: seq<Node>, end: nat, depth: nat, used: nat): Option<Reads> {
    if Affordable(HeightAll(ts), CountAll(ts), depth, used) then Some(Reads(ts, end, used + CountAll(ts))) else None
  }

  /**
   The reader run on any encoded tree, wherever it lies and whatever follows, returns that tree
   and the offset just past it exactly when the tree is within the depth and node limits.
   */
  lemma ReadInverts(t: Node, data: bytes, offset: nat, depth: nat, used: nat)
    requires Encodable(t) && At(data, offset, Encode(t))
    ensures ReadNode(data, offset, depth, used) == Outcome(t, offset + |Encode(t)|, depth, used)
  {
    ReadInvertsAt(t, data, offset, Encode(t), offset + |Encode(t)|, depth, used);
  }

  lemma {:induction false} ReadInvertsAt(t: Node, data: bytes, offset: nat, whole: bytes, end: nat, depth: nat, used: nat)
    requires Encodable(t) && whole == Encode(t) && At(data, offset, whole) && end == offset + |whole|
    ensures ReadNode(data, offset, depth, used) == Outcome(t, end, depth, used)
    decreases t, 1
  {
    if depth > MAX_DEPTH || used + 1 > MAX_NODES {
      ReadNodeRefuses(t, data, offset, depth, used);
    } else {
      var id := ReadPrefix(t, data, offset, whole);
      var length := ReadBodyInverts(t, data, offset, id, depth, used, used + 1, end);
      ReadNodeStep(data, offset, id, length, depth, used, used + 1);
    }
  }

  lemma ReadNodeRefuses(t: Node, data: bytes, offset: nat, depth: nat, used: nat)
    requires offset <= |data| && (depth > MAX_DEPTH || used + 1 > MAX_NODES)
    ensures ReadNode(data, offset, depth, used) == None
    ensures !Affordable(Height(t), Count(t), depth, used)
  {
  }

  lemma ReadPrefix(t: Node, data: bytes, offset: nat, whole: bytes) returns (id: Ident)
    requires TagFits(t.tagClass, t.tag) && whole == Encode(t) && At(data, offset, whole)
    ensures id.tagClass == t.tagClass && id.constructed == t.Constructed? && id.tag == t.tag
    ensures ReadIdentifier(data, offset) == Some(id) && offset < id.next
    ensures At(data, id.next, Tail(t)) && id.next + |Tail(t)| == offset + |whole|
  {
    var prefix := Identifier(t.tagClass, t.Constructed?, t.tag);
    id := Ident(t.tagClass, t.Constructed?, t.tag, offset + |prefix|);
    AtSplit(data, offset, prefix, Tail(t));
    ReadIdentifierInverts(t.tagClass, t.Constructed?, t.tag, data, offset, prefix);
  }

  lemma ReadNodeStep(data: bytes, offset: nat, id: Ident, length: Length, depth: nat, used: nat, used1: nat)
    requires offset <= |data| && depth <= MAX_DEPTH && used + 1 <= MAX_NODES && used1 == used + 1
    requires ReadIdentifier(data, offset) == Some(id) && !(id.tagClass == 0 && id.tag == 0)
    requires ReadLength(data, id.next) == Some(length)
    ensures ReadNode(data, offset, depth, used) == ReadBody(data, offset, id, length, depth, used1)
  {
  }

  lemma {:induction false} ReadBodyInverts(
    t: Node, data: bytes, offset: nat, id: Ident, depth: nat, used: nat, used1: nat, end: nat) returns (length: Length)
    requires Encodable(t) && depth <= MAX_DEPTH && used1 == used + 1 <= MAX_NODES && end == id.next + |Tail(t)|
    requires id.tagClass == t.tagClass && id.constructed == t.Constructed? && id.tag == t.tag
    requires offset < id.next && At(data, id.next, Tail(t))
    ensures ReadLength(data, id.next) == Some(length)
    ensures ReadBody(data, offset, id, length, depth, used1) == Outcome(t, end, depth, used)
    decreases t, 0
  {
    if t.Primitive? {
      length := SizedTail(t.content, data, id.next);
      PrimitiveBody(t, data, offset, id, length, depth, used1);
    } else if t.indefinite {
      var marked := EncodeAll(t.children) + [0, 0];
      length := MarkedTail(marked, data, id.next);
      MarkedBodyInverts(t, data, offset, id, length, marked, length.next + |marked|, depth, depth + 1, used1);
    } else {
      var body := EncodeAll(t.children);
      length := SizedTail(body, data, id.next);
      DefiniteBodyInverts(t, data, offset, id, length, body, length.next + |body|, depth, depth + 1, used1);
    }
  }

  lemma {:induction false} MarkedBodyInverts(
    t: Node, data: bytes, offset: nat, id: Ident, length: Length, marked: bytes, end: nat, depth: nat, inner: nat, used1: nat)
    requires t.Constructed? && t.indefinite && AllEncodable(t.children)
    requires depth <= MAX_DEPTH && inner == depth + 1 && 1 <= used1 <= MAX_NODES
    requires id.tagClass == t.tagClass && id.constructed && id.tag == t.tag
    requires offset < id.next < length.next <= |data| && length.Indefinite? && end == length.next + |marked|
    requires marked == EncodeAll(t.children) + [0, 0] && At(data, length.next, marked)
    ensures ReadBody(data, offset, id, length, depth, used1) == Outcome(t, end, depth, used1 - 1)
    decreases t.children, 3
  {
    ReadToMarkerInverts(t.children, data, length.next, marked, end, inner, used1);
    MarkedBody(t, data, offset, id, length, end, depth, inner, used1);
  }

  lemma {:induction false} DefiniteBodyInverts(
    t: Node, data: bytes, offset: nat, id: Ident, length: Length, body: bytes, end: nat, depth: nat, inner: nat, used1: nat)
    requires t.Constructed? && !t.indefinite && AllEncodable(t.children)
    requires depth <= MAX_DEPTH && inner == depth + 1 && 1 <= used1 <= MAX_NODES
    requires id.tagClass == t.tagClass && id.constructed && id.tag == t.tag
    requires offset < id.next < length.next <= |data| && length == Definite(|body|, length.next)
    requires end == length.next + |body|
    requires body == EncodeAll(t.children) && At(data, length.next, body)
    ensures ReadBody(data, offset, id, length, depth, used1) == Outcome(t, end, depth, used1 - 1)
    decreases t.children, 3
  {
    ReadToInverts(t.children, data, length.next, body, end, inner, used1);
    DefiniteBody(t, data, offset, id, length, end, depth, inner, used1);
  }

  lemma SizedTail(body: bytes, data: bytes, next: nat) returns (length: Length)
    requires |body| < Pow256(MAX_LENGTH_OCTETS) && At(data, next, LengthOctets(|body|) + body)
    ensures length == Definite(|body|, next + |LengthOctets(|body|)|)
    ensures ReadLength(data, next) == Some(length) && At(data, length.next, body)
  {
    length := Definite(|body|, next + |LengthOctets(|body|)|);
    AtSplit(data, next, LengthOctets(|body|), body);
    ReadLengthInverts(|body|, data, next);
  }

  lemma MarkedTail(marked: bytes, data: bytes, next: nat) returns (length: Length)
    requires At(data, next, [0x80] + marked)
    ensures length == Indefinite(next + 1)
    ensures ReadLength(data, next) == Some(length) && At(data, length.next, marked)
  {
    length := Indefinite(next + 1);
    AtSplit(data, next, [0x80], marked);
    AtFirst(data, next, [0x80]);
  }

  lemma PrimitiveBody(t: Node, data: bytes, offset: nat, id: Ident, length: Length, depth: nat, used1: nat)
    requires t.Primitive? && depth <= MAX_DEPTH && 1 <= used1 <= MAX_NODES
    requires id.tagClass == t.tagClass && !id.constructed && id.tag == t.tag
    requires offset < id.next < length.next <= |data|
    requires length == Definite(|t.content|, length.next) && At(data, length.next, t.content)
    ensures ReadBody(data, offset, id, length, depth, used1)
         == Outcome(t, length.next + |t.content|, depth, used1 - 1)
  {
  }

  lemma MarkedBody(t: Node, data: bytes, offset: nat, id: Ident, length: Length, end: nat, depth: nat, inner: nat, used1: nat)
    requires t.Constructed? && t.indefinite && length.Indefinite? && used1 >= 1
    requires id.tagClass == t.tagClass && id.constructed && id.tag == t.tag
    requires offset < id.next < length.next <= |data|
    requires inner == depth + 1
    requires ReadToMarker(data, length.next, inner, used1) == Outcomes(t.children, end, inner, used1)
    ensures ReadBody(data, offset, id, length, depth, used1) == Outcome(t, end, depth, used1 - 1)
  {
  }

  lemma DefiniteBody(t: Node, data: bytes, offset: nat, id: Ident, length: Length, end: nat, depth: nat, inner: nat, used1: nat)
    requires t.Constructed? && !t.indefinite && length.Definite? && used1 >= 1
    requires id.tagClass == t.tagClass && id.constructed && id.tag == t.tag
    requires offset < id.next < length.next <= |data| && end == length.next + length.length <= |data|
    requires inner == depth + 1
    requires ReadTo(data, length.next, end, inner, used1) == Outcomes(t.children, end, inner, used1)
    ensures ReadBody(data, offset, id, length, depth, used1) == Outcome(t, end, depth, used1 - 1)
  {
  }

  lemma {:induction false} ReadToInverts(
    ts: seq<Node>, data: bytes, offset: nat, body: bytes, end: nat, depth: nat, used: nat)
    requires AllEncodable(ts) && body == EncodeAll(ts) && At(data, offset, body) && end == offset + |body|
    requires depth <= MAX_DEPTH + 1 && used <= MAX_NODES
    ensures ReadTo(data, offset, end, depth, used) == Outcomes(ts, end, depth, used)
    decreases ts, 2
  {
    if ts != [] {
      var first, rest := Encode(ts[0]), EncodeAll(ts[1..]);
      EncodeStart(ts[0]);
      AtSplitStart(data, offset, body, first, rest);
      ReadToCons(ts, data, offset, first, rest, end, depth, used, offset + |first|, used + Count(ts[0]));
    }
  }

  lemma {:induction false} ReadToCons(
    ts: seq<Node>, data: bytes, offset: nat, first: bytes, rest: bytes, end: nat, depth: nat, used: nat, mid: nat, used1: nat)
    requires ts != [] && AllEncodable(ts) && depth <= MAX_DEPTH + 1 && used1 == used + Count(ts[0])
    requires rest == EncodeAll(ts[1..]) && first == Encode(ts[0]) && mid == offset + |first| && end == mid + |rest| && offset < mid
    requires At(data, offset, first) && At(data, mid, rest)
    ensures ReadTo(data, offset, end, depth, used) == Outcomes(ts, end, depth, used)
    decreases ts, 1
  {
    ReadInvertsAt(ts[0], data, offset, first, mid, depth, used);
    if Affordable(Height(ts[0]), Count(ts[0]), depth, used) {
      ReadToInverts(ts[1..], data, mid, rest, end, depth, used1);
    }
    ReadToStep(ts, data, offset, end, depth, used, mid, used1);
  }

  lemma AtSplitStart(data: bytes, offset: nat, whole: bytes, first: bytes, rest: bytes)
    requires At(data, offset, whole) && whole == first + rest && |first| >= 2 && first[0] != 0
    ensures At(data, offset, first) && At(data, offset + |first|, rest) && offset + 2 <= |data| && data[offset] != 0
  {
    AtSplit(data, offset, first, rest);
    AtFirst(data, offset, first);
  }

  lemma ReadToStep(ts: seq<Node>, data: bytes, offset: nat, end: nat, depth: nat, used: nat, mid: nat, used1: nat)
    requires ts != [] && offset < end && mid <= |data| && offset <= |data| && used1 == used + Count(ts[0])
    requires ReadNode(data, offset, depth, used) == Outcome(ts[0], mid, depth, used)
    requires Affordable(Height(ts[0]), Count(ts[0]), depth, used) ==>
               ReadTo(data, mid, end, depth, used1) == Outcomes(ts[1..], end, depth, used1)
    ensures ReadTo(data, offset, end, depth, used) == Outcomes(ts, end, depth, used)
  {
    if Affordable(Height(ts[0]), Count(ts[0]), depth, used) {
      UnfoldTo(data, offset, end, depth, used, Read(ts[0], mid, used1));
      ConsOutcomes(ts, end, depth, used, used1);
    } else {
      RefusedOutcomes(ts, end, depth, used);
    }
  }

  lemma UnfoldTo(data: bytes, offset: nat, end: nat, depth: nat, used: nat, child: Read)
    requires offset < end && offset <= |data| && ReadNode(data, offset, depth, used) == Some(child)
    ensures ReadTo(data, offset, end, depth, used) == Cons(child.node, ReadTo(data, child.end, end, depth, child.used))
  {
  }

  lemma ReadToMarkerStep(ts: seq<Node>, data: bytes, offset: nat, end: nat, depth: nat, used: nat, mid: nat, used1: nat)
    requires ts != [] && offset + 2 <= |data| && data[offset] != 0 && mid <= |data| && used1 == used + Count(ts[0])
    requires ReadNode(data, offset, depth, used) == Outcome(ts[0], mid, depth, used)
    requires Affordable(Height(ts[0]), Count(ts[0]), depth, used) ==>
               ReadToMarker(data, mid, depth, used1) == Outcomes(ts[1..], end, depth, used1)
    ensures ReadToMarker(data, offset, depth, used) == Outcomes(ts, end, depth, used)
  {
    if Affordable(Height(ts[0]), Count(ts[0]), depth, used) {
      UnfoldToMarker(data, offset, depth, used, Read(ts[0], mid, used1));
      ConsOutcomes(ts, end, depth, used, used1);
    } else {
      RefusedOutcomes(ts, end, depth, used);
    }
  }

  lemma UnfoldToMarker(data: bytes, offset: nat, depth: nat, used: nat, child: Read)
    requires offset + 2 <= |data| && data[offset] != 0 && ReadNode(data, offset, depth, used) == Some(child)
    ensures ReadToMarker(data, offset, depth, used) == Cons(child.node, ReadToMarker(data, child.end, depth, child.used))
  {
  }

  lemma RefusedOutcomes(ts: seq<Node>, end: nat, depth: nat, used: nat)
    requires ts != [] && !Affordable(Height(ts[0]), Count(ts[0]), depth, used)
    ensures Outcomes(ts, end, depth, used) == None
  {
  }

  lemma ConsOutcomes(ts: seq<Node>, end: nat, depth: nat, used: nat, used1: nat)
    requires ts != [] && used1 == used + Count(ts[0]) && Affordable(Height(ts[0]), Count(ts[0]), depth, used)
    ensures Cons(ts[0], Outcomes(ts[1..], end, depth, used1)) == Outcomes(ts, end, depth, used)
  {
    assert ts == [ts[0]] + ts[1..];
  }

  lemma {:induction false} ReadToMarkerInverts(
    ts: seq<Node>, data: bytes, offset: nat, marked: bytes, end: nat, depth: nat, used: nat)
    requires AllEncodable(ts) && marked == EncodeAll(ts) + [0, 0] && At(data, offset, marked) && end == offset + |marked|
    requires depth <= MAX_DEPTH + 1 && used <= MAX_NODES
    ensures ReadToMarker(data, offset, depth, used) == Outcomes(ts, end, depth, used)
    decreases ts, 2
  {
    if ts == [] {
      assert marked == [0, 0];
      MarkerAt(data, offset, marked, end, depth, used);
    } else {
      var rest := AtHead(ts, data, offset, marked);
      var first := Encode(ts[0]);
      ReadToMarkerCons(ts, data, offset, first, rest, end, depth, used, offset + |first|, used + Count(ts[0]));
    }
  }

  lemma {:induction false} ReadToMarkerCons(
    ts: seq<Node>, data: bytes, offset: nat, first: bytes, rest: bytes, end: nat, depth: nat, used: nat, mid: nat, used1: nat)
    requires ts != [] && AllEncodable(ts) && depth <= MAX_DEPTH + 1 && used1 == used + Count(ts[0])
    requires rest == EncodeAll(ts[1..]) + [0, 0] && first == Encode(ts[0]) && mid == offset + |first| && end == mid + |rest|
    requires At(data, offset, first) && At(data, mid, rest)
    requires offset + 2 <= |data| && data[offset] != 0
    ensures ReadToMarker(data, offset, depth, used) == Outcomes(ts, end, depth, used)
    decreases ts, 1
  {
    ReadInvertsAt(ts[0], data, offset, first, mid, depth, used);
    if Affordable(Height(ts[0]), Count(ts[0]), depth, used) {
      ReadToMarkerInverts(ts[1..], data, mid, rest, end, depth, used1);
    }
    ReadToMarkerStep(ts, data, offset, end, depth, used, mid, used1);
  }

  lemma MarkerAt(data: bytes, offset: nat, marked: bytes, end: nat, depth: nat, used: nat)
    requires marked == [0, 0] && At(data, offset, marked)
    requires depth <= MAX_DEPTH + 1 && used <= MAX_NODES && end == offset + 2
    ensures ReadToMarker(data, offset, depth, used) == Outcomes([], end, depth, used)
  {
    var s := data[offset..offset + 2];
    assert s[0] == data[offset] && s[1] == data[offset + 1];
  }

  lemma AtHead(ts: seq<Node>, data: bytes, offset: nat, marked: bytes) returns (rest: bytes)
    requires ts != [] && AllEncodable(ts) && marked == EncodeAll(ts) + [0, 0] && At(data, offset, marked)
    ensures rest == EncodeAll(ts[1..]) + [0, 0] && marked == Encode(ts[0]) + rest
    ensures At(data, offset, Encode(ts[0])) && At(data, offset + |Encode(ts[0])|, rest)
    ensures offset + 2 <= |data| && data[offset] != 0
  {
    var first, others := Encode(ts[0]), EncodeAll(ts[1..]);
    rest := others + [0, 0];
    Regroup(first, others, [0, 0]);
    EncodeStart(ts[0]);
    AtSplitStart(data, offset, marked, first, rest);
  }

  /** No encoded value can be mistaken for the end-of-contents marker. */
  lemma EncodeStart(t: Node)
    requires TagFits(t.tagClass, t.tag)
    ensures |Encode(t)| >= 2 && Encode(t)[0] != 0
  {
    var id := Identifier(t.tagClass, t.Constructed?, t.tag);
    assert Encode(t)[0] == id[0];
  }
}
