/** Which ASN.1 values the key parser of compat/channel_keys_oracle.py takes, as a grammar of field lists. */
module KeyGrammar {
  import opened Base
  import opened Radix
  import opened Asn1
  import opened Asn1Reader
  import opened KeyDer
  import Bits

  // ---------------------------------------------------------------- optional fields

  /** No field, or one of the kind that is looked for, which must then be in order. */
  predicate Optional(part: seq<Node>, wanted: Node -> bool, ok: Node -> bool) {
    part == [] || (|part| == 1 && wanted(part[0]) && ok(part[0]))
  }

  predicate Leads(fields: seq<Node>, wanted: Node -> bool) {
    fields != [] && wanted(fields[0])
  }

  /** Two optional fields and the rest; an option is left out only where no field of its kind stands. */
  predicate TwoOptions(fields: seq<Node>, p: seq<Node>, q: seq<Node>, rest: seq<Node>,
                       wantP: Node -> bool, okP: Node -> bool, wantQ: Node -> bool, okQ: Node -> bool)
  {
    && fields == p + (q + rest)
    && Optional(p, wantP, okP) && (p == [] ==> !Leads(q + rest, wantP))
    && Optional(q, wantQ, okQ) && (q == [] ==> !Leads(rest, wantQ))
  }

  /** Positions found by looking for one field after the other give such a division. */
  lemma OptionsCut(fields: seq<Node>, k: nat, at: nat, end: nat,
                   wantP: Node -> bool, okP: Node -> bool, wantQ: Node -> bool, okQ: Node -> bool)
    requires k <= |fields| && at == (if k < |fields| && wantP(fields[k]) then k + 1 else k)
    requires end == (if at < |fields| && wantQ(fields[at]) then at + 1 else at)
    requires at == k + 1 ==> okP(fields[k])
    requires end == at + 1 ==> okQ(fields[at])
    ensures TwoOptions(fields[k..], fields[k..at], fields[at..end], fields[end..], wantP, okP, wantQ, okQ)
  {
    assert fields[at..end] + fields[end..] == fields[at..];
    assert fields[k..at] + fields[at..] == fields[k..];
  }

  /** And any such division is the one they give. */
  lemma OptionsFound(fields: seq<Node>, k: nat, p: seq<Node>, q: seq<Node>, rest: seq<Node>,
                     wantP: Node -> bool, okP: Node -> bool, wantQ: Node -> bool, okQ: Node -> bool)
    requires k <= |fields| && TwoOptions(fields[k..], p, q, rest, wantP, okP, wantQ, okQ)
    ensures k < |fields| && wantP(fields[k]) <==> p != []
    ensures k + |p| < |fields| && wantQ(fields[k + |p|]) <==> q != []
    ensures k + |p| + |q| <= |fields| && fields[k + |p| + |q|..] == rest
    ensures p != [] ==> okP(fields[k])
    ensures q != [] ==> okQ(fields[k + |p|])
  {
    var tail := fields[k..];
    assert tail[|p|..] == q + rest && (q + rest)[|q|..] == rest;
    assert fields[k + |p|..] == tail[|p|..];
    assert fields[k + |p| + |q|..] == fields[k + |p|..][|q|..];
    assert p != [] ==> fields[k] == tail[0] == p[0];
    assert q != [] ==> fields[k + |p|] == (q + rest)[0] == q[0];
  }

  // ---------------------------------------------------------------- ECPrivateKey

  predicate IsZero(node: Node) {
    node.tagClass == 2 && node.tag == 0
  }

  predicate IsOne(node: Node) {
    node.tagClass == 2 && node.tag == 1
  }

  /** [0] around domain parameters. */
  predicate ParametersOk(node: Node) {
    Explicit(node) && DomainOk(node.children[0])
  }

  /** [1] around a bit string. */
  predicate PublicKeyOk(node: Node) {
    Explicit(node) && KeyDer.BitString(node.children[0]).Some?
  }

  /** Version, key, parameters, public key, and whatever else follows. */
  ghost predicate EcParts(node: Node, n: nat, params: seq<Node>, public: seq<Node>, extra: seq<Node>) {
    && IsSequence(node) && |node.children| >= 2
    && IntegerOk(node.children[0])
    && OctetString(node.children[1]).Some? && n == FromBig(OctetString(node.children[1]).value)
    && TwoOptions(node.children[2..], params, public, extra, IsZero, ParametersOk, IsOne, PublicKeyOk)
    && AllUnknownOk(extra)
  }

  ghost predicate EcGrammar(node: Node, n: nat) {
    exists params: seq<Node>, public: seq<Node>, extra: seq<Node> :: EcParts(node, n, params, public, extra)
  }

  lemma EcAccepted(node: Node, n: nat)
    requires ParseEcKey(node) == Some(n)
    ensures EcGrammar(node, n)
  {
    var fields := node.children;
    var at := if HasField(fields, 2, 0) then 3 else 2;
    var end := if HasField(fields, at, 1) then at + 1 else at;
    EcChecked(node, n, fields, at, end);
    OptionsCut(fields, 2, at, end, IsZero, ParametersOk, IsOne, PublicKeyOk);
    assert EcParts(node, n, fields[2..at], fields[at..end], fields[end..]);
  }

  lemma EcChecked(node: Node, n: nat, fields: seq<Node>, at: nat, end: nat)
    requires ParseEcKey(node) == Some(n) && fields == node.children
    requires at == (if HasField(fields, 2, 0) then 3 else 2) && end == (if HasField(fields, at, 1) then at + 1 else at)
    ensures IsSequence(node) && 2 <= at <= end <= |fields| && IntegerOk(fields[0])
    ensures OctetString(fields[1]).Some? && n == FromBig(OctetString(fields[1]).value) && AllUnknownOk(fields[end..])
    ensures at == 3 ==> ParametersOk(fields[2])
    ensures at < end ==> PublicKeyOk(fields[at])
  {
  }

  lemma EcTaken(node: Node, n: nat, params: seq<Node>, public: seq<Node>, extra: seq<Node>)
    requires EcParts(node, n, params, public, extra)
    ensures ParseEcKey(node) == Some(n)
  {
    OptionsFound(node.children, 2, params, public, extra, IsZero, ParametersOk, IsOne, PublicKeyOk);
  }

  lemma EcExactly(node: Node, n: nat)
    ensures ParseEcKey(node) == Some(n) <==> EcGrammar(node, n)
  {
    if ParseEcKey(node) == Some(n) {
      EcAccepted(node, n);
    }
    if params: seq<Node>, public: seq<Node>, extra: seq<Node> :| EcParts(node, n, params, public, extra) {
      EcTaken(node, n, params, public, extra);
    }
  }

  // ---------------------------------------------------------------- PrivateKeyInfo

  /** Version, an elliptic-curve algorithm, an octet string that holds an ECPrivateKey, attributes, and the rest. */
  ghost predicate Pkcs8Parts(node: Node, n: nat, inner: Node, attributes: seq<Node>, extra: seq<Node>) {
    && IsSequence(node) && |node.children| >= 3 && node.children[3..] == attributes + extra
    && IntegerOk(node.children[0]) && EcAlgorithmOk(node.children[1])
    && OctetString(node.children[2]).Some? && ParseRoot(OctetString(node.children[2]).value) == Some(inner)
    && EcGrammar(inner, n)
    && Optional(attributes, IsZero, AttributesOk) && (attributes == [] ==> !Leads(extra, IsZero))
    && AllUnknownOk(extra)
  }

  ghost predicate Pkcs8Grammar(node: Node, n: nat) {
    exists inner: Node, attributes: seq<Node>, extra: seq<Node> :: Pkcs8Parts(node, n, inner, attributes, extra)
  }

  lemma Pkcs8Accepted(node: Node, n: nat)
    requires ParsePkcs8Key(node) == Some(n)
    ensures Pkcs8Grammar(node, n)
  {
    var fields := node.children;
    var inner := ParseRoot(OctetString(fields[2]).value).value;
    var rest := if HasField(fields, 3, 0) then 4 else 3;
    EcExactly(inner, n);
    assert fields[3..] == fields[3..rest] + fields[rest..];
    assert Pkcs8Parts(node, n, inner, fields[3..rest], fields[rest..]);
  }

  lemma Pkcs8Taken(node: Node, n: nat, inner: Node, attributes: seq<Node>, extra: seq<Node>)
    requires Pkcs8Parts(node, n, inner, attributes, extra)
    ensures ParsePkcs8Key(node) == Some(n)
  {
    var fields := node.children;
    EcExactly(inner, n);
    assert fields[3..][|attributes|..] == extra && fields[3 + |attributes|..] == fields[3..][|attributes|..];
    assert attributes != [] ==> fields[3] == attributes[0];
  }

  lemma Pkcs8Exactly(node: Node, n: nat)
    ensures ParsePkcs8Key(node) == Some(n) <==> Pkcs8Grammar(node, n)
  {
    if ParsePkcs8Key(node) == Some(n) {
      Pkcs8Accepted(node, n);
    }
    if inner: Node, attributes: seq<Node>, extra: seq<Node> :| Pkcs8Parts(node, n, inner, attributes, extra) {
      Pkcs8Taken(node, n, inner, attributes, extra);
    }
  }

  /** A secret is parsed exactly from the values of the one grammar or the other, if it is in range. */
  lemma KeysExactly(der: bytes, secret: nat)
    ensures PrivateKeyFromDer(der) == Some(secret) <==>
              && ValidSecret(secret) && ParseRoot(der).Some?
              && (EcGrammar(ParseRoot(der).value, secret) || Pkcs8Grammar(ParseRoot(der).value, secret))
  {
    if ParseRoot(der).Some? {
      var node := ParseRoot(der).value;
      EcExactly(node, secret);
      Pkcs8Exactly(node, secret);
      FormatsDisjoint(node);
    }
  }

  // ---------------------------------------------------------------- domain parameters

  predicate IsInteger(node: Node) {
    Is(node, 2)
  }

  predicate IsSequenceTag(node: Node) {
    Is(node, 16)
  }

  /** Version, field, curve, base point and order, then cofactor, hash and the rest. */
  ghost predicate DomainParts(node: Node, cofactor: seq<Node>, hash: seq<Node>, extra: seq<Node>) {
    && IsSequence(node) && |node.children| >= 5
    && IntegerOk(node.children[0]) && FieldIdOk(node.children[1]) && CurveOk(node.children[2])
    && OctetString(node.children[3]).Some? && IntegerOk(node.children[4])
    && TwoOptions(node.children[5..], cofactor, hash, extra, IsInteger, IntegerOk, IsSequenceTag, AlgorithmOk)
    && AllUnknownOk(extra)
  }

  lemma DomainAccepted(node: Node)
    requires SpecifiedDomainOk(node)
    ensures exists cofactor: seq<Node>, hash: seq<Node>, extra: seq<Node> :: DomainParts(node, cofactor, hash, extra)
  {
    var fields := node.children;
    var at := if |fields| > 5 && Is(fields[5], 2) then 6 else 5;
    var end := if |fields| > at && Is(fields[at], 16) then at + 1 else at;
    OptionsCut(fields, 5, at, end, IsInteger, IntegerOk, IsSequenceTag, AlgorithmOk);
    assert DomainParts(node, fields[5..at], fields[at..end], fields[end..]);
  }

  lemma DomainExactly(node: Node)
    ensures SpecifiedDomainOk(node) <==>
              exists cofactor: seq<Node>, hash: seq<Node>, extra: seq<Node> :: DomainParts(node, cofactor, hash, extra)
  {
    if SpecifiedDomainOk(node) {
      DomainAccepted(node);
    }
    if cofactor: seq<Node>, hash: seq<Node>, extra: seq<Node> :| DomainParts(node, cofactor, hash, extra) {
      OptionsFound(node.children, 5, cofactor, hash, extra, IsInteger, IntegerOk, IsSequenceTag, AlgorithmOk);
    }
  }

  // ---------------------------------------------------------------- octet strings

  /** The octets of all primitive values inside, in order. */
  function Leaves(node: Node): bytes
    decreases node
  {
    match node
    case Primitive(_, _, content) => content
    case Constructed(_, _, children, _) => LeavesAll(children)
  }

  function LeavesAll(nodes: seq<Node>): bytes
    decreases nodes
  {
    if nodes == [] then [] else Leaves(nodes[0]) + LeavesAll(nodes[1..])
  }

  /** An octet string made of octet strings, all of them indefinite but the innermost. */
  predicate Segmented(node: Node)
    decreases node
  {
    Is(node, 4) && (node.Constructed? ==> node.indefinite && AllSegmented(node.children))
  }

  predicate AllSegmented(nodes: seq<Node>)
    decreases nodes
  {
    nodes == [] || (Segmented(nodes[0]) && AllSegmented(nodes[1..]))
  }

  /** An octet string's value: the octets of its innermost segments, up to the input limit when there are several. */
  lemma {:induction false} OctetsExactly(node: Node)
    ensures OctetString(node) ==
            if Segmented(node) && (node.Constructed? ==> |Leaves(node)| <= MAX_INPUT) then Some(Leaves(node)) else None
    decreases node
  {
    if node.Constructed? {
      SegmentsExactly(node.children, 0);
    }
  }

  lemma {:induction false} SegmentsExactly(segments: seq<Node>, total: nat)
    requires total <= MAX_INPUT
    ensures OctetSegments(segments, total) ==
            if AllSegmented(segments) && total + |LeavesAll(segments)| <= MAX_INPUT then Some(LeavesAll(segments)) else None
    decreases segments
  {
    if segments != [] {
      OctetsExactly(segments[0]);
      if Segmented(segments[0]) && total + |Leaves(segments[0])| <= MAX_INPUT {
        SegmentsExactly(segments[1..], total + |Leaves(segments[0])|);
      }
    }
  }

  // ---------------------------------------------------------------- bit strings

  lemma {:induction false} ClearLowIs(v: byte, k: nat)
    ensures ClearLow(v, k) == v / Bits.Pow2(k) * Bits.Pow2(k)
  {
    if k > 0 {
      ClearLowIs(v / 2, k - 1);
      HalfQuotient(v, Bits.Pow2(k - 1));
      Doubled(v / 2 / Bits.Pow2(k - 1), Bits.Pow2(k - 1));
    }
  }

  lemma Doubled(q: nat, d: nat)
    ensures 2 * (q * d) == q * (2 * d)
  {
  }

  lemma HalfQuotient(v: nat, d: nat)
    requires d > 0
    ensures v / 2 / d == v / (2 * d)
  {
    var q := v / 2 / d;
    assert v / 2 == q * d + v / 2 % d;
    Doubled(q, d);
    Bits.QuotientIs(v, 2 * d, q);
  }

  /** A plain bit string: up to seven unused bits at its end, which read as zero. */
  lemma PlainBits(content: bytes, value: bytes, unused: nat)
    ensures KeyDer.BitString(Leaf(3, content)) == Some(KeyDer.Bits(value, unused)) <==>
              && unused <= 7 && content != [] && content[0] == unused && |value| == |content| - 1
              && (unused > 0 ==> value != [])
              && (forall i :: 0 <= i < |value| - 1 ==> value[i] == content[i + 1])
              && (value != [] ==> value[|value| - 1] == content[|value|] / Bits.Pow2(unused) * Bits.Pow2(unused))
  {
    if content != [] && content[0] <= 7 {
      var tail, n := content[1..], |content| - 2;
      assert Bits.Pow2(0) == 1;
      if tail != [] {
        ClearLowIs(tail[n], content[0]);
        var cleared := tail[..n] + [ClearLow(tail[n], content[0])];
        assert content[0] == 0 ==> cleared == tail;
        if |value| == n + 1 && value[n] == cleared[n] && forall i :: 0 <= i < n ==> value[i] == content[i + 1] {
          assert value == cleared;
        }
      }
    }
  }
}
