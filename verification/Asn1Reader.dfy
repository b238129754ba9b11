/** The reader as it runs: loops over offsets and a budget shared by the whole descent. */
module Asn1Reader {
  import opened Base
  import opened Radix
  import opened Asn1
  import opened Asn1Inverse

  const MAX_INPUT := 1048576

  class Budget {
    var nodes: nat

    constructor ()
      ensures nodes == 0
    {
      nodes := 0;
    }
  }

  method ReadAsn1Identifier(data: bytes, start: nat) returns (r: Option<Ident>)
    requires start <= |data|
    ensures r == ReadIdentifier(data, start)
  {
    var offset := start;
    if offset >= |data| {
      return None;
    }
    var first := data[offset];
    offset := offset + 1;
    var tag: nat := first % 32;
    if tag == 0x1F {
      tag := 0;
      var sawOctet, tagOctets, more := false, 0, true;
      while more
        invariant start < offset <= |data| && sawOctet == (tagOctets > 0)
        invariant more ==> ReadTag(data, start + 1, 0, 0) == ReadTag(data, offset, tag, tagOctets)
        invariant !more ==>
          ReadTag(data, start + 1, 0, 0) == if tag < 0x1F then None else Some(Tag(tag, offset))
        decreases |data| - offset, more
      {
        if offset >= |data| {
          return None;
        }
        var octet := data[offset];
        offset, tagOctets := offset + 1, tagOctets + 1;
        if tagOctets > MAX_TAG_OCTETS || (!sawOctet && octet == 0x80) {
          return None;
        }
        sawOctet := true;
        tag := 128 * tag + octet % 128;
        more := octet >= 128;
      }
      if tag < 0x1F {
        return None;
      }
    }
    return Some(Ident(first / 64, first / 32 % 2 == 1, tag, offset));
  }

  /** Nodes already read in front of what is still to come. */
  function Prepend(front: seq<Node>, rest: Option<Reads>): (r: Option<Reads>)
    ensures front == [] ==> r == rest
    ensures rest.Some? && rest.value.nodes == [] ==> r == Some(Reads(front, rest.value.end, rest.value.used))
  {
    assert rest.Some? ==> [] + rest.value.nodes == rest.value.nodes && front + [] == front;
    match rest
    case None => None
    case Some(r) => Some(Reads(front + r.nodes, r.end, r.used))
  }

  lemma PrependCons(front: seq<Node>, node: Node, rest: Option<Reads>)
    ensures Prepend(front, Cons(node, rest)) == Prepend(front + [node], rest)
  {
    if rest.Some? {
      assert front + ([node] + rest.value.nodes) == front + [node] + rest.value.nodes;
    }
  }

  /** What a call that was given `used` nodes of the budget leaves behind; a failed read promises nothing of it. */
  ghost predicate Agrees(r: Option<(Node, nat)>, left: nat, spec: Option<Read>) {
    match spec
    case None => r == None
    case Some(s) => r == Some((s.node, s.end)) && left == s.used
  }

  ghost predicate AllAgree(r: Option<(seq<Node>, nat)>, left: nat, spec: Option<Reads>) {
    match spec
    case None => r == None
    case Some(s) => r == Some((s.nodes, s.end)) && left == s.used
  }

  method ReadAsn1Node(data: bytes, start: nat, depth: nat, budget: Budget) returns (r: Option<(Node, nat)>)
    requires start <= |data|
    modifies budget
    ensures Agrees(r, budget.nodes, ReadNode(data, start, depth, old(budget.nodes)))
    decreases |data| - start, 0
  {
    if depth > MAX_DEPTH {
      return None;
    }
    budget.nodes := budget.nodes + 1;
    if budget.nodes > MAX_NODES {
      return None;
    }
    var ident := ReadAsn1Identifier(data, start);
    if ident.None? || (ident.value.tagClass == 0 && ident.value.tag == 0) {
      return None;
    }
    var length := ReadLength(data, ident.value.next);
    if length.None? {
      return None;
    }
    r := ReadContents(data, start, ident.value, length.value, depth, budget);
  }

  method ReadContents(data: bytes, start: nat, ident: Ident, length: Length, depth: nat, budget: Budget)
    returns (r: Option<(Node, nat)>)
    requires start < ident.next < length.next <= |data|
    modifies budget
    ensures Agrees(r, budget.nodes, ReadBody(data, start, ident, length, depth, old(budget.nodes)))
    decreases |data| - start, 0, 0
  {
    if length.Indefinite? {
      if !ident.constructed {
        return None;
      }
      var children := ReadMarkedChildren(data, length.next, depth + 1, budget);
      if children.None? {
        return None;
      }
      return Some((Constructed(ident.tagClass, ident.tag, children.value.0, true), children.value.1));
    }
    var end := length.next + length.length;
    if end > |data| {
      return None;
    }
    if !ident.constructed {
      return Some((Primitive(ident.tagClass, ident.tag, data[length.next..end]), end));
    }
    var children := ReadSizedChildren(data, length.next, end, depth + 1, budget);
    if children.None? {
      return None;
    }
    return Some((Constructed(ident.tagClass, ident.tag, children.value.0, false), children.value.1));
  }

  method ReadMarkedChildren(data: bytes, start: nat, depth: nat, budget: Budget) returns (r: Option<(seq<Node>, nat)>)
    requires start <= |data|
    modifies budget
    ensures AllAgree(r, budget.nodes, ReadToMarker(data, start, depth, old(budget.nodes)))
    decreases |data| - start, 1
  {
    ghost var spec := ReadToMarker(data, start, depth, budget.nodes);
    var offset, children: seq<Node> := start, [];
    while true
      invariant start <= offset <= |data|
      invariant spec == Prepend(children, ReadToMarker(data, offset, depth, budget.nodes))
      decreases |data| - offset
    {
      if offset + 2 > |data| {
        return None;
      }
      if data[offset] == 0 && data[offset + 1] == 0 {
        return Some((children, offset + 2));
      }
      var child := ReadAsn1Node(data, offset, depth, budget);
      if child.None? {
        return None;
      }
      PrependCons(children, child.value.0, ReadToMarker(data, child.value.1, depth, budget.nodes));
      children, offset := children + [child.value.0], child.value.1;
    }
  }

  method ReadSizedChildren(data: bytes, start: nat, end: nat, depth: nat, budget: Budget)
    returns (r: Option<(seq<Node>, nat)>)
    requires start <= |data|
    modifies budget
    ensures AllAgree(r, budget.nodes, ReadTo(data, start, end, depth, old(budget.nodes)))
    decreases |data| - start, 1
  {
    ghost var spec := ReadTo(data, start, end, depth, budget.nodes);
    var offset, children: seq<Node> := start, [];
    while offset < end
      invariant start <= offset <= |data|
      invariant spec == Prepend(children, ReadTo(data, offset, end, depth, budget.nodes))
      decreases |data| - offset
    {
      var child := ReadAsn1Node(data, offset, depth, budget);
      if child.None? {
        return None;
      }
      PrependCons(children, child.value.0, ReadTo(data, child.value.1, end, depth, budget.nodes));
      children, offset := children + [child.value.0], child.value.1;
    }
    if offset != end {
      return None;
    }
    return Some((children, offset));
  }

  /** parse_asn1_root: trailing octets are ignored. */
  function ParseRoot(data: bytes): (r: Option<Node>) {
    if |data| > MAX_INPUT then None
    else
      match ReadNode(data, 0, 0, 0)
      case None => None
      case Some(read) => Some(read.node)
  }

  method ParseAsn1Root(data: bytes) returns (r: Option<Node>)
    ensures r == ParseRoot(data)
  {
    if |data| > MAX_INPUT {
      return None;
    }
    var budget := new Budget();
    var node := ReadAsn1Node(data, 0, 0, budget);
    return if node.None? then None else Some(node.value.0);
  }

  // ---------------------------------------------------------------- what the reader accepts

  lemma {:induction false} ReadTagSound(data: bytes, offset: nat, acc: nat, count: nat)
    requires offset <= |data| && acc < Pow128(count) && count <= MAX_TAG_OCTETS
    requires ReadTag(data, offset, acc, count).Some?
    ensures var t := ReadTag(data, offset, acc, count).value;
            count + t.next - offset <= MAX_TAG_OCTETS && 31 <= t.tag < Pow128(count + t.next - offset)
    decreases |data| - offset
  {
    var tag := 128 * acc + data[offset] % 128;
    if data[offset] >= 128 {
      ReadTagSound(data, offset + 1, tag, count + 1);
    }
  }

  lemma {:induction false} Pow128Monotone(a: nat, b: nat)
    requires a <= b
    ensures Pow128(a) <= Pow128(b)
    decreases b - a
  {
    if a < b {
      Pow128Monotone(a, b - 1);
    }
  }

  lemma {:induction false} Pow256Monotone(a: nat, b: nat)
    requires a <= b
    ensures Pow256(a) <= Pow256(b)
    decreases b - a
  {
    if a < b {
      Pow256Monotone(a, b - 1);
    }
  }

  lemma IdentifierSound(data: bytes, offset: nat, id: Ident)
    requires offset <= |data| && ReadIdentifier(data, offset) == Some(id)
    ensures id.tag < Pow128(MAX_TAG_OCTETS)
    ensures |Identifier(id.tagClass, id.constructed, id.tag)| <= id.next - offset
  {
    if data[offset] % 32 == 31 {
      ReadTagSound(data, offset + 1, 0, 0);
      var octets := id.next - offset - 1;
      GroupsFit(id.tag, octets);
      Pow128Monotone(octets, MAX_TAG_OCTETS);
    } else {
      Pow128Monotone(1, MAX_TAG_OCTETS);
    }
  }

  lemma LengthSound(data: bytes, offset: nat, length: Length)
    requires offset <= |data| && ReadLength(data, offset) == Some(length)
    ensures length.Definite? ==> length.length < Pow256(MAX_LENGTH_OCTETS)
                                 && |LengthOctets(length.length)| <= length.next - offset
  {
    if length.Definite? {
      if data[offset] < 128 {
        Pow256Monotone(1, MAX_LENGTH_OCTETS);
      } else {
        var count := data[offset] - 128;
        var digits := data[offset + 1..offset + 1 + count];
        FromBigBound(digits);
        BigFits(length.length, count);
        Pow256Monotone(count, MAX_LENGTH_OCTETS);
      }
    }
  }

  /** A node read from `room` octets: encodable, no longer than what it was read from, and within the limits. */
  predicate Sound(r: Read, room: int, depth: nat, used: nat) {
    && Encodable(r.node) && |Encode(r.node)| <= room
    && Affordable(Height(r.node), Count(r.node), depth, used) && r.used == used + Count(r.node)
  }

  predicate AllSound(r: Reads, room: int, depth: nat, used: nat) {
    && AllEncodable(r.nodes) && |EncodeAll(r.nodes)| <= room
    && Affordable(HeightAll(r.nodes), CountAll(r.nodes), depth, used) && r.used == used + CountAll(r.nodes)
  }

  /** Every value the reader accepts re-encodes, within the limits, to no more octets than were read. */
  lemma {:induction false} ReadSound(data: bytes, offset: nat, depth: nat, used: nat)
    requires offset <= |data| && ReadNode(data, offset, depth, used).Some?
    ensures Sound(ReadNode(data, offset, depth, used).value, ReadNode(data, offset, depth, used).value.end - offset, depth, used)
    decreases |data| - offset, 0
  {
    var id := ReadIdentifier(data, offset).value;
    var length := ReadLength(data, id.next).value;
    IdentifierSound(data, offset, id);
    LengthSound(data, id.next, length);
    BodySound(data, offset, id, length, depth, depth + 1, used, used + 1);
  }

  lemma {:induction false} BodySound(
    data: bytes, offset: nat, id: Ident, length: Length, depth: nat, inner: nat, used: nat, used1: nat)
    requires offset < id.next < length.next <= |data|
    requires TagFits(id.tagClass, id.tag) && |Identifier(id.tagClass, id.constructed, id.tag)| <= id.next - offset
    requires length.Definite? ==> length.length < Pow256(MAX_LENGTH_OCTETS)
                                  && |LengthOctets(length.length)| <= length.next - id.next
    requires depth <= MAX_DEPTH && used1 <= MAX_NODES && inner == depth + 1 && used1 == used + 1
    requires ReadBody(data, offset, id, length, depth, used1).Some?
    ensures var r := ReadBody(data, offset, id, length, depth, used1).value;
            Sound(r, r.end - offset, depth, used)
    decreases |data| - offset, 0, 0
  {
    if length.Indefinite? {
      ToMarkerSound(data, length.next, inner, used1);
      var kids := ReadToMarker(data, length.next, inner, used1).value;
      MarkedSound(id, kids, id.next - offset, kids.end - length.next, depth, inner, used, used1);
    } else if id.constructed {
      var end := length.next + length.length;
      ToSound(data, length.next, end, inner, used1);
      var kids := ReadTo(data, length.next, end, inner, used1).value;
      SizedSound(id, kids, id.next - offset, length.next - id.next, length.length, depth, inner, used, used1);
    }
  }

  lemma MarkedSound(id: Ident, kids: Reads, before: int, room: int, depth: nat, inner: nat, used: nat, used1: nat)
    requires TagFits(id.tagClass, id.tag) && |Identifier(id.tagClass, true, id.tag)| <= before
    requires inner == depth + 1 && used1 == used + 1 && AllSound(kids, room - 2, inner, used1)
    ensures Sound(Read(Constructed(id.tagClass, id.tag, kids.nodes, true), kids.end, kids.used), before + 1 + room, depth, used)
  {
  }

  lemma SizedSound(
    id: Ident, kids: Reads, before: int, lengthRoom: int, size: nat, depth: nat, inner: nat, used: nat, used1: nat)
    requires TagFits(id.tagClass, id.tag) && |Identifier(id.tagClass, true, id.tag)| <= before
    requires inner == depth + 1 && used1 == used + 1 && AllSound(kids, size, inner, used1)
    requires size < Pow256(MAX_LENGTH_OCTETS) && |LengthOctets(size)| <= lengthRoom
    ensures Sound(Read(Constructed(id.tagClass, id.tag, kids.nodes, false), kids.end, kids.used),
                  before + lengthRoom + size, depth, used)
  {
    LengthMonotone(|EncodeAll(kids.nodes)|, size);
  }

  lemma {:induction false} LengthMonotone(a: nat, b: nat)
    requires a <= b
    ensures |LengthOctets(a)| <= |LengthOctets(b)|
  {
    if a >= 128 {
      BigFits(b, |Big(b)|);
      BigFits(a, |Big(b)|);
    }
  }

  lemma {:induction false} ToSound(data: bytes, offset: nat, end: nat, depth: nat, used: nat)
    requires offset <= |data| && depth <= MAX_DEPTH + 1 && used <= MAX_NODES && ReadTo(data, offset, end, depth, used).Some?
    ensures AllSound(ReadTo(data, offset, end, depth, used).value, end - offset, depth, used)
    decreases |data| - offset, 1
  {
    if offset < end {
      var child := ReadNode(data, offset, depth, used).value;
      ReadSound(data, offset, depth, used);
      ToSound(data, child.end, end, depth, child.used);
      var rest := ReadTo(data, child.end, end, depth, child.used).value;
      ConsSound(child, rest, child.end - offset, end - child.end, depth, used);
    }
  }

  lemma {:induction false} ToMarkerSound(data: bytes, offset: nat, depth: nat, used: nat)
    requires offset <= |data| && depth <= MAX_DEPTH + 1 && used <= MAX_NODES && ReadToMarker(data, offset, depth, used).Some?
    ensures var r := ReadToMarker(data, offset, depth, used).value;
            AllSound(r, r.end - offset - 2, depth, used)
    decreases |data| - offset, 1
  {
    if !(data[offset] == 0 && data[offset + 1] == 0) {
      var child := ReadNode(data, offset, depth, used).value;
      ReadSound(data, offset, depth, used);
      ToMarkerSound(data, child.end, depth, child.used);
      var rest := ReadToMarker(data, child.end, depth, child.used).value;
      ConsSound(child, rest, child.end - offset, rest.end - child.end - 2, depth, used);
    }
  }

  lemma ConsSound(child: Read, rest: Reads, room: int, more: int, depth: nat, used: nat)
    requires Sound(child, room, depth, used) && AllSound(rest, more, depth, child.used)
    ensures AllSound(Reads([child.node] + rest.nodes, rest.end, rest.used), room + more, depth, used)
  {
    var all := [child.node] + rest.nodes;
    assert all[0] == child.node && all[1..] == rest.nodes;
  }

  /**
   Whatever is accepted, however wastefully encoded, is read back as the same value from its own
   encoding, which is no longer, at the same depth and with the same budget.
   */
  lemma Normalises(data: bytes, offset: nat, depth: nat, used: nat, rest: bytes)
    requires offset <= |data| && ReadNode(data, offset, depth, used).Some?
    ensures var r := ReadNode(data, offset, depth, used).value;
            && |Encode(r.node)| <= r.end - offset
            && ReadNode(Encode(r.node) + rest, 0, depth, used) == Some(Read(r.node, |Encode(r.node)|, r.used))
  {
    var r := ReadNode(data, offset, depth, used).value;
    ReadSound(data, offset, depth, used);
    ReadAtStart(r.node, rest, depth, used);
  }

  lemma ReadAtStart(t: Node, rest: bytes, depth: nat, used: nat)
    requires Encodable(t)
    ensures ReadNode(Encode(t) + rest, 0, depth, used) == Outcome(t, |Encode(t)|, depth, used)
  {
    var data := Encode(t) + rest;
    assert data[0..0 + |Encode(t)|] == Encode(t);
    ReadInverts(t, data, 0, depth, used);
  }

  /** Two encodable trees within the limits never share an encoding, even with octets behind one of them. */
  lemma EncodePrefixFree(a: Node, b: Node, x: bytes, y: bytes)
    requires Encodable(a) && Encodable(b) && Encode(a) + x == Encode(b) + y
    requires Affordable(Height(a), Count(a), 0, 0)
    ensures a == b && x == y
  {
    ReadAtStart(a, x, 0, 0);
    ReadAtStart(b, y, 0, 0);
    var s := Encode(a) + x;
    assert x == s[|Encode(a)|..] && y == s[|Encode(b)|..];
  }
}
