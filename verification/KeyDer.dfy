/** Private keys as DER: the PKCS#8 printer and the SEC1-then-PKCS#8 parser of compat/channel_keys_oracle.py. */
module KeyDer {
  import opened Base
  import opened Radix
  import opened Asn1
  import opened Asn1Reader
  import JsonText

  const SECP256K1_N := 0xFFFFFFFFFFFFFFFFFFFFFFFFFFFFFFFEBAAEDCE6AF48A03BBFD25E8CD0364141
  const EC_PUBLIC_KEY: bytes := [0x2a, 0x86, 0x48, 0xce, 0x3d, 0x02, 0x01]
  const SECP256K1: bytes := [0x2b, 0x81, 0x04, 0x00, 0x0a]
  const PRIME_FIELD: bytes := [0x2a, 0x86, 0x48, 0xce, 0x3d, 0x01, 0x01]

  // ---------------------------------------------------------------- printing

  /** der_tlv. */
  function Tlv(tag: byte, content: bytes): bytes {
    [tag] + LengthOctets(|content|) + content
  }

  predicate ValidSecret(secret: int) {
    0 < secret < SECP256K1_N
  }

  lemma SecretFits(secret: nat)
    requires secret < SECP256K1_N
    ensures secret < Pow256(32)
  {
    assert Pow256(8) == 0x1_0000_0000_0000_0000;
    assert Pow256(16) == Pow256(8) * 0x1_0000_0000_0000_0000;
    assert Pow256(24) == Pow256(16) * 0x1_0000_0000_0000_0000;
    assert Pow256(32) == Pow256(24) * 0x1_0000_0000_0000_0000;
  }

  /** The ECPrivateKey of section 3 of RFC 5915, without parameters. */
  function EcPrivateKey(secret: nat, point: bytes): bytes
    requires secret < SECP256K1_N
  {
    SecretFits(secret);
    Tlv(0x30, Tlv(0x02, [1]) + Tlv(0x04, ToBytes(secret, 32)) + Tlv(0xA1, Tlv(0x03, [0] + point)))
  }

  /** `publicKey` stands for the uncompressed point of the secret. */
  function PrivateKeyToDer(secret: int, publicKey: nat -> bytes): Option<bytes> {
    if !ValidSecret(secret) then None
    else
      var algorithm := Tlv(0x30, Tlv(0x06, EC_PUBLIC_KEY) + Tlv(0x06, SECP256K1));
      Some(Tlv(0x30, Tlv(0x02, [0]) + algorithm + Tlv(0x04, EcPrivateKey(secret, publicKey(secret)))))
  }

  // ---------------------------------------------------------------- validating

  predicate Is(node: Node, tag: nat) {
    node.tagClass == 0 && node.tag == tag
  }

  predicate IsSequence(node: Node) {
    Is(node, 16) && node.Constructed?
  }

  predicate IntegerOk(node: Node) {
    Is(node, 2) && node.Primitive? && node.content != []
  }

  predicate NullOk(node: Node) {
    Is(node, 5) && node.Primitive? && node.content == []
  }

  predicate OidOk(node: Node) {
    Is(node, 6) && node.Primitive? && node.content != [] && node.content[|node.content| - 1] < 128
  }

  /** validate_oid with its scan: the scan itself never fails, because the last octet ends a component. */
  method ValidateOid(node: Node) returns (r: Option<bytes>)
    ensures r == if OidOk(node) then Some(node.content) else None
  {
    if !Is(node, 6) || !node.Primitive? || node.content == [] || node.content[|node.content| - 1] >= 128 {
      return None;
    }
    var content := node.content;
    var offset := 1;
    while offset < |content|
      invariant 1 <= offset <= |content|
    {
      while content[offset] >= 128
        invariant 1 <= offset < |content|
        decreases |content| - offset
      {
        offset := offset + 1;
        if offset >= |content| {
          return None;
        }
      }
      offset := offset + 1;
    }
    return Some(content);
  }

  /** octet_string_bytes: segments only inside the indefinite form. */
  function OctetString(node: Node): Option<bytes>
    decreases node
  {
    if !Is(node, 4) then None
    else if node.Primitive? then Some(node.content)
    else if !node.indefinite then None
    else OctetSegments(node.children, 0)
  }

  function OctetSegments(segments: seq<Node>, total: nat): Option<bytes>
    decreases segments
  {
    if segments == [] then Some([])
    else
      match OctetString(segments[0])
      case None => None
      case Some(chunk) =>
        if total + |chunk| > MAX_INPUT then None
        else
          match OctetSegments(segments[1..], total + |chunk|)
          case None => None
          case Some(rest) => Some(chunk + rest)
  }

  /** v & (0xFF << k). */
  function ClearLow(v: byte, k: nat): (r: byte)
    ensures r <= v
  {
    if k == 0 then v else 2 * ClearLow(v / 2, k - 1)
  }

  datatype Bits = Bits(value: bytes, unused: nat)

  /** bit_string_value: only the last segment may leave bits unused. */
  function BitString(node: Node): Option<Bits>
    decreases node
  {
    if !Is(node, 3) then None
    else if node.Constructed? then
      if !node.indefinite then None else BitSegments(node.children, 0)
    else if node.content == [] || node.content[0] > 7 then None
    else
      var unused, value := node.content[0], node.content[1..];
      if unused == 0 then Some(Bits(value, 0))
      else if value == [] then None
      else Some(Bits(value[..|value| - 1] + [ClearLow(value[|value| - 1], unused)], unused))
  }

  function BitSegments(segments: seq<Node>, total: nat): Option<Bits>
    decreases segments
  {
    if segments == [] then Some(Bits([], 0))
    else
      match BitString(segments[0])
      case None => None
      case Some(chunk) =>
        if |segments| > 1 && chunk.unused != 0 then None
        else if total + |chunk.value| > MAX_INPUT then None
        else if |segments| == 1 then Some(chunk)
        else
          match BitSegments(segments[1..], total + |chunk.value|)
          case None => None
          case Some(rest) => Some(Bits(chunk.value + rest.value, rest.unused))
  }

  predicate IsText(tag: nat) {
    tag == 12 || tag == 19 || tag == 22 || tag == 26 || tag == 27 || tag == 30
  }

  predicate TextOk(tag: nat, content: bytes) {
    if tag == 12 then JsonText.ValidUtf8(content) else forall i :: 0 <= i < |content| ==> content[i] < 128
  }

  /** validate_unknown_node. */
  predicate UnknownOk(node: Node)
    decreases node
  {
    if node.tagClass != 0 then node.tag != 0 && (node.Constructed? ==> AllUnknownOk(node.children))
    else if node.tag == 1 then node.Primitive? && |node.content| == 1
    else if node.tag == 2 then IntegerOk(node)
    else if node.tag == 3 then BitString(node).Some?
    else if node.tag == 4 then OctetString(node).Some?
    else if node.tag == 5 then NullOk(node)
    else if node.tag == 6 then OidOk(node)
    else if IsText(node.tag) then node.Primitive? && TextOk(node.tag, node.content)
    else node.Constructed? ==> AllUnknownOk(node.children)
  }

  predicate AllUnknownOk(nodes: seq<Node>)
    decreases nodes
  {
    nodes == [] || (UnknownOk(nodes[0]) && AllUnknownOk(nodes[1..]))
  }

  predicate AlgorithmOk(node: Node) {
    IsSequence(node) && node.children != [] && OidOk(node.children[0]) && AllUnknownOk(node.children[1..])
  }

  predicate FieldIdOk(node: Node) {
    && IsSequence(node) && |node.children| >= 2 && OidOk(node.children[0])
    && (if node.children[0].content == PRIME_FIELD then IntegerOk(node.children[1]) else UnknownOk(node.children[1]))
    && AllUnknownOk(node.children[2..])
  }

  predicate CurveOk(node: Node) {
    && IsSequence(node) && |node.children| >= 2
    && OctetString(node.children[0]).Some? && OctetString(node.children[1]).Some?
    && (|node.children| >= 3 ==> BitString(node.children[2]).Some? && AllUnknownOk(node.children[3..]))
  }

  predicate SpecifiedDomainOk(node: Node) {
    && IsSequence(node) && |node.children| >= 5
    && IntegerOk(node.children[0]) && FieldIdOk(node.children[1]) && CurveOk(node.children[2])
    && OctetString(node.children[3]).Some? && IntegerOk(node.children[4])
    && var cofactor := |node.children| > 5 && Is(node.children[5], 2);
       var hash := if cofactor then 6 else 5;
       var hashed := |node.children| > hash && Is(node.children[hash], 16);
       && (cofactor ==> IntegerOk(node.children[5]))
       && (hashed ==> AlgorithmOk(node.children[hash]))
       && AllUnknownOk(node.children[if hashed then hash + 1 else hash..])
  }

  /** validate_ec_domain_parameters. */
  predicate DomainOk(node: Node) {
    && node.tagClass == 0
    && (if node.tag == 16 then SpecifiedDomainOk(node)
        else if node.tag == 6 then OidOk(node)
        else node.tag == 5 && NullOk(node))
  }

  // ---------------------------------------------------------------- parsing

  predicate HasField(fields: seq<Node>, position: nat, tag: nat) {
    position < |fields| && fields[position].tagClass == 2 && fields[position].tag == tag
  }

  /** explicit_child accepts it. */
  predicate Explicit(node: Node) {
    node.Constructed? && |node.children| == 1
  }

  /** parse_ec_private_key_node. */
  function ParseEcKey(node: Node): Option<nat> {
    if !IsSequence(node) || |node.children| < 2 || !IntegerOk(node.children[0]) then None
    else
      match OctetString(node.children[1])
      case None => None
      case Some(key) =>
        var fields := node.children;
        var withParameters := HasField(fields, 2, 0);
        var public := if withParameters then 3 else 2;
        var withPublic := HasField(fields, public, 1);
        var rest := if withPublic then public + 1 else public;
        if withParameters && !(Explicit(fields[2]) && DomainOk(fields[2].children[0])) then None
        else if withPublic && !(Explicit(fields[public]) && BitString(fields[public].children[0]).Some?) then None
        else if !AllUnknownOk(fields[rest..]) then None
        else Some(FromBig(key))
  }

  predicate AttributeOk(node: Node) {
    && IsSequence(node) && |node.children| >= 2 && OidOk(node.children[0])
    && Is(node.children[1], 17) && node.children[1].Constructed?
    && AllUnknownOk(node.children[1].children) && AllUnknownOk(node.children[2..])
  }

  predicate AttributesOk(node: Node) {
    && node.Constructed?
    && forall i :: 0 <= i < |node.children| ==> AttributeOk(node.children[i])
  }

  predicate EcAlgorithmOk(node: Node) {
    && IsSequence(node) && node.children != []
    && OidOk(node.children[0]) && node.children[0].content == EC_PUBLIC_KEY
    && (|node.children| >= 2 ==> DomainOk(node.children[1]) && AllUnknownOk(node.children[2..]))
  }

  /** parse_pkcs8_private_key_node. */
  function ParsePkcs8Key(node: Node): Option<nat> {
    if !IsSequence(node) || |node.children| < 3 || !IntegerOk(node.children[0])
       || !EcAlgorithmOk(node.children[1]) then None
    else
      match OctetString(node.children[2])
      case None => None
      case Some(der) =>
        match ParseRoot(der)
        case None => None
        case Some(inner) =>
          match ParseEcKey(inner)
          case None => None
          case Some(key) =>
            var fields := node.children;
            var withAttributes := HasField(fields, 3, 0);
            if withAttributes && !AttributesOk(fields[3]) then None
            else if !AllUnknownOk(fields[if withAttributes then 4 else 3..]) then None
            else Some(key)
  }

  /** private_key_from_der: SEC1 first, PKCS#8 when that fails. */
  function PrivateKeyFromDer(der: bytes): (r: Option<nat>)
    ensures r.Some? ==> ValidSecret(r.value)
  {
    match ParseRoot(der)
    case None => None
    case Some(node) =>
      var parsed := if ParseEcKey(node).Some? then ParseEcKey(node) else ParsePkcs8Key(node);
      if parsed.Some? && ValidSecret(parsed.value) then parsed else None
  }

  // ---------------------------------------------------------------- the two formats

  /** No value is a key in both formats, so the order of the two attempts does not matter. */
  lemma FormatsDisjoint(node: Node)
    ensures ParseEcKey(node).None? || ParsePkcs8Key(node).None?
  {
  }

  function Leaf(tag: nat, content: bytes): Node {
    Primitive(0, tag, content)
  }

  function Sequence(children: seq<Node>): Node {
    Constructed(0, 16, children, false)
  }

  function EcTree(secret: nat, point: bytes): Node
    requires secret < SECP256K1_N
  {
    SecretFits(secret);
    Sequence([Leaf(2, [1]), Leaf(4, ToBytes(secret, 32)), Constructed(2, 1, [Leaf(3, [0] + point)], false)])
  }

  function Pkcs8Tree(inner: bytes): Node {
    Sequence([Leaf(2, [0]), Sequence([Leaf(6, EC_PUBLIC_KEY), Leaf(6, SECP256K1)]), Leaf(4, inner)])
  }

  /** What a node's encoding, height and size are, in the terms of the printer. */
  ghost predicate Tree(t: Node, der: bytes, height: nat, count: nat) {
    Encodable(t) && Encode(t) == der && Height(t) == height && Count(t) == count
  }

  ghost predicate Forest(ts: seq<Node>, der: bytes, height: nat, count: nat) {
    AllEncodable(ts) && EncodeAll(ts) == der && HeightAll(ts) == height && CountAll(ts) == count
  }

  lemma LeafTree(tag: nat, content: bytes)
    requires 0 < tag < 31 && |content| < 1024
    ensures Tree(Leaf(tag, content), Tlv(tag, content), 1, 1)
  {
    var t := Leaf(tag, content);
    assert Pow256(8) == 0x1_0000_0000_0000_0000;
    assert Encode(t) == Tlv(tag, content);
  }

  lemma NestTree(tagClass: TagClass, tag: nat, ts: seq<Node>, der: bytes, height: nat, count: nat)
    requires 0 < tag < 31 && |der| < 1024 && Forest(ts, der, height, count)
    ensures Tree(Constructed(tagClass, tag, ts, false), Tlv(64 * tagClass + 32 + tag, der), height + 1, count + 1)
  {
    var t := Constructed(tagClass, tag, ts, false);
    assert Pow256(8) == 0x1_0000_0000_0000_0000;
    assert Encode(t) == Tlv(64 * tagClass + 32 + tag, der);
  }

  lemma Forest1(a: Node, x: bytes, h: nat, n: nat)
    requires Tree(a, x, h, n)
    ensures Forest([a], x, h, n)
  {
    assert EncodeAll([a]) == Encode(a) + EncodeAll([]);
  }

  lemma ForestCons(a: Node, x: bytes, h: nat, n: nat, ts: seq<Node>, y: bytes, i: nat, m: nat)
    requires Tree(a, x, h, n) && Forest(ts, y, i, m)
    ensures Forest([a] + ts, x + y, Max(h, i), n + m)
  {
    var all := [a] + ts;
    assert all[0] == a && all[1..] == ts;
  }

  lemma Forest2(a: Node, x: bytes, h: nat, n: nat, b: Node, y: bytes, i: nat, m: nat)
    requires Tree(a, x, h, n) && Tree(b, y, i, m)
    ensures Forest([a, b], x + y, Max(h, i), n + m)
  {
    Forest1(b, y, i, m);
    ForestCons(a, x, h, n, [b], y, i, m);
    assert [a] + [b] == [a, b];
  }

  lemma Forest3(a: Node, x: bytes, h: nat, n: nat, b: Node, y: bytes, i: nat, m: nat, c: Node, z: bytes, j: nat, k: nat)
    requires Tree(a, x, h, n) && Tree(b, y, i, m) && Tree(c, z, j, k)
    ensures Forest([a, b, c], x + y + z, Max(h, Max(i, j)), n + m + k)
  {
    Forest2(b, y, i, m, c, z, j, k);
    ForestCons(a, x, h, n, [b, c], y + z, Max(i, j), m + k);
    assert [a] + [b, c] == [a, b, c];
    assert x + (y + z) == x + y + z;
  }

  lemma TlvLength(tag: byte, content: bytes)
    requires |content| < 1024
    ensures |content| + 2 <= |Tlv(tag, content)| <= |content| + 4
  {
    assert Pow256(2) == 65536;
    if |content| >= 128 {
      BigFits(|content|, 2);
    }
  }

  lemma PublicTreePrinted(bits: bytes) returns (t: Node, der: bytes)
    requires |bits| == 66
    ensures t == Constructed(2, 1, [Leaf(3, bits)], false) && der == Tlv(0xA1, Tlv(0x03, bits))
    ensures Tree(t, der, 2, 2) && |der| <= 80
  {
    var inner := Tlv(0x03, bits);
    t, der := Constructed(2, 1, [Leaf(3, bits)], false), Tlv(0xA1, inner);
    LeafTree(3, bits);
    TlvLength(0x03, bits);
    Forest1(Leaf(3, bits), inner, 1, 1);
    NestTree(2, 1, [Leaf(3, bits)], inner, 1, 1);
    TlvLength(0xA1, inner);
  }

  /** The printed ECPrivateKey is the encoding of its tree. */
  lemma EcTreePrinted(secret: nat, point: bytes)
    requires secret < SECP256K1_N && |point| == 65
    ensures Tree(EcTree(secret, point), EcPrivateKey(secret, point), 3, 5)
    ensures |EcPrivateKey(secret, point)| <= 256
  {
    SecretFits(secret);
    var key := ToBytes(secret, 32);
    var public, publicDer := PublicTreePrinted([0] + point);
    LeafTree(2, [1]);
    LeafTree(4, key);
    TlvLength(0x02, [1]);
    TlvLength(0x04, key);
    SequencePrinted(Leaf(2, [1]), Tlv(0x02, [1]), 1, 1, Leaf(4, key), Tlv(0x04, key), 1, 1, public, publicDer, 2, 2);
  }

  lemma AlgorithmPrinted() returns (t: Node, der: bytes)
    ensures t == Sequence([Leaf(6, EC_PUBLIC_KEY), Leaf(6, SECP256K1)])
    ensures der == Tlv(0x30, Tlv(0x06, EC_PUBLIC_KEY) + Tlv(0x06, SECP256K1)) && Tree(t, der, 2, 3) && |der| <= 32
  {
    var first, second := Leaf(6, EC_PUBLIC_KEY), Leaf(6, SECP256K1);
    var a, b := Tlv(0x06, EC_PUBLIC_KEY), Tlv(0x06, SECP256K1);
    LeafTree(6, EC_PUBLIC_KEY);
    LeafTree(6, SECP256K1);
    TlvLength(0x06, EC_PUBLIC_KEY);
    TlvLength(0x06, SECP256K1);
    Forest2(first, a, 1, 1, second, b, 1, 1);
    t, der := Sequence([first, second]), Tlv(0x30, a + b);
    NestTree(0, 16, [first, second], a + b, 1, 2);
    TlvLength(0x30, a + b);
  }

  /** Three printed fields make a printed sequence. */
  lemma SequencePrinted(a: Node, x: bytes, h: nat, n: nat, b: Node, y: bytes, i: nat, m: nat, c: Node, z: bytes, j: nat, k: nat)
    requires Tree(a, x, h, n) && Tree(b, y, i, m) && Tree(c, z, j, k) && |x| + |y| + |z| < 1024
    ensures Tree(Sequence([a, b, c]), Tlv(0x30, x + y + z), Max(h, Max(i, j)) + 1, n + m + k + 1)
    ensures |Tlv(0x30, x + y + z)| <= |x| + |y| + |z| + 4
  {
    Forest3(a, x, h, n, b, y, i, m, c, z, j, k);
    NestTree(0, 16, [a, b, c], x + y + z, Max(h, Max(i, j)), n + m + k);
    TlvLength(0x30, x + y + z);
  }

  lemma Pkcs8TreePrinted(inner: bytes) returns (der: bytes)
    requires |inner| <= 256
    ensures der == Tlv(0x30, Tlv(0x02, [0]) + Tlv(0x30, Tlv(0x06, EC_PUBLIC_KEY) + Tlv(0x06, SECP256K1)) + Tlv(0x04, inner))
    ensures Tree(Pkcs8Tree(inner), der, 3, 6) && |der| <= 512
  {
    var algorithm, names := AlgorithmPrinted();
    der := Tlv(0x30, Tlv(0x02, [0]) + names + Tlv(0x04, inner));
    LeafTree(2, [0]);
    LeafTree(4, inner);
    TlvLength(0x02, [0]);
    TlvLength(0x04, inner);
    SequencePrinted(Leaf(2, [0]), Tlv(0x02, [0]), 1, 1, algorithm, names, 2, 3, Leaf(4, inner), Tlv(0x04, inner), 1, 1);
  }

  lemma RootOf(t: Node, der: bytes, height: nat, count: nat, rest: bytes)
    requires Tree(t, der, height, count) && height <= MAX_DEPTH + 1 && count <= MAX_NODES && |der + rest| <= MAX_INPUT
    ensures ParseRoot(der + rest) == Some(t)
  {
    ReadAtStart(t, rest, 0, 0);
  }

  lemma EcFieldsParse(key: bytes, bits: bytes)
    requires bits != [] && bits[0] == 0
    ensures ParseEcKey(Sequence([Leaf(2, [1]), Leaf(4, key), Constructed(2, 1, [Leaf(3, bits)], false)])) == Some(FromBig(key))
  {
    var fields := [Leaf(2, [1]), Leaf(4, key), Constructed(2, 1, [Leaf(3, bits)], false)];
    assert fields[3..] == [];
    assert HasField(fields, 2, 1) && Explicit(fields[2]);
    assert BitString(fields[2].children[0]).Some?;
  }

  lemma EcTreeParses(secret: nat, point: bytes)
    requires secret < SECP256K1_N
    ensures ParseEcKey(EcTree(secret, point)) == Some(secret)
  {
    SecretFits(secret);
    EcFieldsParse(ToBytes(secret, 32), [0] + point);
    FromBigInvertsToBytes(secret, 32);
  }

  lemma Pkcs8TreeParses(inner: bytes, tree: Node, secret: nat)
    requires ParseRoot(inner) == Some(tree) && ParseEcKey(tree) == Some(secret)
    ensures ParseEcKey(Pkcs8Tree(inner)) == None && ParsePkcs8Key(Pkcs8Tree(inner)) == Some(secret)
  {
    var fields := Pkcs8Tree(inner).children;
    var names := fields[1].children;
    assert names[2..] == [] && fields[3..] == [];
    assert OidOk(names[0]) && OidOk(names[1]);
  }

  /** The SEC1 form on its own is read back too, whatever follows it. */
  lemma Sec1RoundTrip(secret: nat, point: bytes, rest: bytes)
    requires ValidSecret(secret) && |point| == 65 && |EcPrivateKey(secret, point) + rest| <= MAX_INPUT
    ensures PrivateKeyFromDer(EcPrivateKey(secret, point) + rest) == Some(secret)
  {
    EcTreePrinted(secret, point);
    RootOf(EcTree(secret, point), EcPrivateKey(secret, point), 3, 5, rest);
    EcTreeParses(secret, point);
  }

  /**
   A secret is printed exactly when it is in range, and parsing what was printed, with anything
   behind it up to the input limit, gives the secret back: the SEC1 attempt fails on it and
   the PKCS#8 one succeeds.
   */
  lemma PrivateKeyRoundTrip(secret: int, publicKey: nat -> bytes, rest: bytes)
    requires ValidSecret(secret) ==> |publicKey(secret)| == 65
    ensures PrivateKeyToDer(secret, publicKey).Some? <==> ValidSecret(secret)
    ensures ValidSecret(secret) && |PrivateKeyToDer(secret, publicKey).value + rest| <= MAX_INPUT ==>
              PrivateKeyFromDer(PrivateKeyToDer(secret, publicKey).value + rest) == Some(secret)
  {
    if ValidSecret(secret) && |PrivateKeyToDer(secret, publicKey).value + rest| <= MAX_INPUT {
      var point := publicKey(secret);
      var inner := EcPrivateKey(secret, point);
      EcTreePrinted(secret, point);
      RootOf(EcTree(secret, point), inner, 3, 5, []);
      assert inner + [] == inner;
      EcTreeParses(secret, point);
      var der := Pkcs8TreePrinted(inner);
      RootOf(Pkcs8Tree(inner), der, 3, 6, rest);
      Pkcs8TreeParses(inner, EcTree(secret, point), secret);
    }
  }

  /** The fields of a printed ECPrivateKey, by position: version 1, the scalar, and [1] with the point. */
  ghost predicate EcFields(node: Node, secret: nat, point: bytes) {
    && IsSequence(node) && |node.children| == 3
    && IntegerOk(node.children[0]) && FromBig(node.children[0].content) == 1
    && OctetString(node.children[1]).Some? && |OctetString(node.children[1]).value| == 32
    && FromBig(OctetString(node.children[1]).value) == secret
    && HasField(node.children, 2, 1) && Explicit(node.children[2])
    && BitString(node.children[2].children[0]) == Some(Bits(point, 0))
  }

  /** The fields of a printed PrivateKeyInfo: version 0, the two object identifiers, and the key inside. */
  ghost predicate Pkcs8Fields(node: Node, inner: bytes) {
    && IsSequence(node) && |node.children| == 3
    && IntegerOk(node.children[0]) && FromBig(node.children[0].content) == 0
    && IsSequence(node.children[1]) && |node.children[1].children| == 2
    && OidOk(node.children[1].children[0]) && node.children[1].children[0].content == EC_PUBLIC_KEY
    && OidOk(node.children[1].children[1]) && node.children[1].children[1].content == SECP256K1
    && OctetString(node.children[2]) == Some(inner)
  }

  lemma EcTreeFields(secret: nat, point: bytes)
    requires secret < SECP256K1_N
    ensures EcFields(EcTree(secret, point), secret, point)
  {
    SecretFits(secret);
    FromBigInvertsToBytes(secret, 32);
    assert ([0] + point)[1..] == point;
    assert FromBig([1]) == 1;
  }

  /**
   What the reader sees in a printed key: a PrivateKeyInfo for secp256k1 around an ECPrivateKey
   that carries the secret in 32 octets and its own public point.
   */
  lemma PrintedKeyFields(secret: int, publicKey: nat -> bytes)
    requires ValidSecret(secret) && |publicKey(secret)| == 65
    ensures PrivateKeyToDer(secret, publicKey).Some?
    ensures exists outer: Node, inner: bytes, key: Node ::
              && ParseRoot(PrivateKeyToDer(secret, publicKey).value) == Some(outer) && Pkcs8Fields(outer, inner)
              && ParseRoot(inner) == Some(key) && EcFields(key, secret, publicKey(secret))
  {
    var point := publicKey(secret);
    var inner := EcPrivateKey(secret, point);
    EcTreePrinted(secret, point);
    RootOf(EcTree(secret, point), inner, 3, 5, []);
    assert inner + [] == inner;
    EcTreeFields(secret, point);
    var der := Pkcs8TreePrinted(inner);
    RootOf(Pkcs8Tree(inner), der, 3, 6, []);
    assert der + [] == der;
    Pkcs8TreeFields(inner);
  }

  lemma Pkcs8TreeFields(inner: bytes)
    ensures Pkcs8Fields(Pkcs8Tree(inner), inner)
  {
    assert FromBig([0]) == 0;
  }
}
