/** ASN.1 values, their encoding, and the bounded BER reader of compat/channel_keys_oracle.py. */
module Asn1 {
  import opened Base
  import opened Radix

  const MAX_DEPTH := 64
  const MAX_NODES := 4096
  const MAX_TAG_OCTETS := 8
  const MAX_LENGTH_OCTETS := 8

  type TagClass = x: int | 0 <= x < 4

  datatype Node =
    | Primitive(tagClass: TagClass, tag: nat, content: bytes)
    | Constructed(tagClass: TagClass, tag: nat, children: seq<Node>, indefinite: bool)

  // ---------------------------------------------------------------- encoding

  /** Identifier octets, section 8.1.2 of ITU-T X.690. */
  function Identifier(tagClass: TagClass, constructed: bool, tag: nat): (r: bytes)
    ensures |r| >= 1
  {
    var first := 64 * tagClass + if constructed then 32 else 0;
    if tag < 31 then [first + tag] else [first + 31] + Groups(tag)
  }

  /** der_length. The count wraps only for lengths no byte string has. */
  function LengthOctets(n: nat): (r: bytes)
    ensures |r| >= 1
  {
    if n < 128 then [n] else [(128 + |Big(n)|) % 256] + Big(n)
  }

  /** The shortest definite encoding, or the indefinite one where the node says so. */
  function Encode(t: Node): bytes
    decreases t, 1
  {
    Identifier(t.tagClass, t.Constructed?, t.tag) + Tail(t)
  }

  /** Length and contents octets. */
  function Tail(t: Node): bytes
    decreases t, 0
  {
    match t
    case Primitive(_, _, content) => LengthOctets(|content|) + content
    case Constructed(_, _, children, indefinite) =>
      var body := EncodeAll(children);
      if indefinite then [0x80] + (body + [0, 0]) else LengthOctets(|body|) + body
  }

  function EncodeAll(ts: seq<Node>): bytes
    decreases ts
  {
    if ts == [] then [] else Encode(ts[0]) + EncodeAll(ts[1..])
  }

  predicate TagFits(tagClass: TagClass, tag: nat) {
    !(tagClass == 0 && tag == 0) && tag < Pow128(MAX_TAG_OCTETS)
  }

  /** No end-of-contents tag inside, and tags and lengths within eight octets. */
  predicate Encodable(t: Node)
    decreases t
  {
    && TagFits(t.tagClass, t.tag)
    && match t {
      case Primitive(_, _, content) => |content| < Pow256(MAX_LENGTH_OCTETS)
      case Constructed(_, _, children, indefinite) =>
        AllEncodable(children) && (indefinite || |EncodeAll(children)| < Pow256(MAX_LENGTH_OCTETS))
    }
  }

  predicate AllEncodable(ts: seq<Node>)
    decreases ts
  {
    ts == [] || (Encodable(ts[0]) && AllEncodable(ts[1..]))
  }

  /** Levels of a tree and of the tallest tree in a forest. */
  function Height(t: Node): nat
    decreases t
  {
    match t
    case Primitive(_, _, _) => 1
    case Constructed(_, _, children, _) => 1 + HeightAll(children)
  }

  function HeightAll(ts: seq<Node>): nat
    decreases ts
  {
    if ts == [] then 0 else Max(Height(ts[0]), HeightAll(ts[1..]))
  }

  function Count(t: Node): (r: nat)
    ensures r >= 1
    decreases t
  {
    match t
    case Primitive(_, _, _) => 1
    case Constructed(_, _, children, _) => 1 + CountAll(children)
  }

  function CountAll(ts: seq<Node>): nat
    decreases ts
  {
    if ts == [] then 0 else Count(ts[0]) + CountAll(ts[1..])
  }

  // ---------------------------------------------------------------- reading

  datatype Ident = Ident(tagClass: TagClass, constructed: bool, tag: nat, next: nat)
  datatype Length = Definite(length: nat, next: nat) | Indefinite(next: nat)
  datatype Read = Read(node: Node, end: nat, used: nat)
  datatype Reads = Reads(nodes: seq<Node>, end: nat, used: nat)
  datatype Tag = Tag(tag: nat, next: nat)

  /** The high-tag loop: `acc` is the number so far, `count` the octets taken. */
  function ReadTag(data: bytes, offset: nat, acc: nat, count: nat): (r: Option<Tag>)
    requires offset <= |data|
    ensures r.Some? ==> offset < r.value.next <= |data|
    decreases |data| - offset
  {
    if offset == |data| || count + 1 > MAX_TAG_OCTETS || (count == 0 && data[offset] == 0x80) then None
    else
      var tag := 128 * acc + data[offset] % 128;
      if data[offset] >= 128 then ReadTag(data, offset + 1, tag, count + 1)
      else if tag < 31 then None
      else Some(Tag(tag, offset + 1))
  }

  function ReadIdentifier(data: bytes, offset: nat): (r: Option<Ident>)
    requires offset <= |data|
    ensures r.Some? ==> offset < r.value.next <= |data|
  {
    if offset == |data| then None
    else
      var first := data[offset];
      var tagClass, constructed := first / 64, first / 32 % 2 == 1;
      if first % 32 != 31 then Some(Ident(tagClass, constructed, first % 32, offset + 1))
      else
        match ReadTag(data, offset + 1, 0, 0)
        case None => None
        case Some(t) => Some(Ident(tagClass, constructed, t.tag, t.next))
  }

  function ReadLength(data: bytes, offset: nat): (r: Option<Length>)
    requires offset <= |data|
    ensures r.Some? ==> offset < r.value.next <= |data|
  {
    if offset == |data| then None
    else
      var first := data[offset];
      if first < 128 then Some(Definite(first, offset + 1))
      else if first == 0x80 then Some(Indefinite(offset + 1))
      else
        var count := first - 128;
        if count > MAX_LENGTH_OCTETS || offset + 1 + count > |data| then None
        else Some(Definite(FromBig(data[offset + 1..offset + 1 + count]), offset + 1 + count))
  }

  /** What read_asn1_node returns and the budget it leaves; None is a ValueError. */
  function ReadNode(data: bytes, offset: nat, depth: nat, used: nat): (r: Option<Read>)
    requires offset <= |data|
    ensures r.Some? ==> offset < r.value.end <= |data|
    decreases |data| - offset, 0
  {
    if depth > MAX_DEPTH || used + 1 > MAX_NODES then None
    else
      match ReadIdentifier(data, offset)
      case None => None
      case Some(id) =>
        if id.tagClass == 0 && id.tag == 0 then None
        else
          match ReadLength(data, id.next)
          case None => None
          case Some(length) => ReadBody(data, offset, id, length, depth, used + 1)
  }

  function ReadBody(data: bytes, offset: nat, id: Ident, length: Length, depth: nat, used: nat): (r: Option<Read>)
    requires offset < id.next < length.next <= |data|
    ensures r.Some? ==> offset < r.value.end <= |data|
    decreases |data| - offset, 0, 0
  {
    match length
    case Indefinite(next) =>
      if !id.constructed then None
      else (
        match ReadToMarker(data, next, depth + 1, used)
        case None => None
        case Some(kids) => Some(Read(Constructed(id.tagClass, id.tag, kids.nodes, true), kids.end, kids.used)))
    case Definite(size, next) =>
      if next + size > |data| then None
      else if !id.constructed then
        Some(Read(Primitive(id.tagClass, id.tag, data[next..next + size]), next + size, used))
      else
        match ReadTo(data, next, next + size, depth + 1, used)
        case None => None
        case Some(kids) => Some(Read(Constructed(id.tagClass, id.tag, kids.nodes, false), kids.end, kids.used))
  }

  /** The children of a definite value, which must end exactly at `end`. */
  function ReadTo(data: bytes, offset: nat, end: nat, depth: nat, used: nat): (r: Option<Reads>)
    requires offset <= |data|
    ensures r.Some? ==> offset <= r.value.end == end <= |data|
    decreases |data| - offset, 1
  {
    if offset >= end then if offset == end then Some(Reads([], offset, used)) else None
    else
      match ReadNode(data, offset, depth, used)
      case None => None
      case Some(child) => Cons(child.node, ReadTo(data, child.end, end, depth, child.used))
  }

  /** The children of an indefinite value, up to and past two zero octets. */
  function ReadToMarker(data: bytes, offset: nat, depth: nat, used: nat): (r: Option<Reads>)
    requires offset <= |data|
    ensures r.Some? ==> offset < r.value.end <= |data|
    decreases |data| - offset, 1
  {
    if offset + 2 > |data| then None
    else if data[offset] == 0 && data[offset + 1] == 0 then Some(Reads([], offset + 2, used))
    else
      match ReadNode(data, offset, depth, used)
      case None => None
      case Some(child) => Cons(child.node, ReadToMarker(data, child.end, depth, child.used))
  }

  function Cons(node: Node, rest: Option<Reads>): Option<Reads> {
    match rest
    case None => None
    case Some(r) => Some(Reads([node] + r.nodes, r.end, r.used))
  }
}
