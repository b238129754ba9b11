/** Block headers and retargeting of compat/headers_oracle.py. */
module Headers {
  import opened Base
  import opened Bits
  import Compact
  import Hex

  const HEADER_SIZE := 112
  const MAX_TARGET := Pow2(240) - 1
  const TARGET_TIMESPAN := 150
  const GENESIS_HASH := ("9c89283b" + "a0f3227f" + "6c03b702" + "16b9f665")
                        + ("f0118d5e" + "0fa729ce" + "df4fb34d" + "6a34f463")

  type uint32 = x: int | 0 <= x < 0x1_0000_0000

  /** Hashes are lower-case hexadecimal text of the reversed octets. */
  datatype Header = Header(
    version: uint32,
    prevBlockHash: bytes,
    merkleRoot: bytes,
    claimTrieRoot: bytes,
    timestamp: uint32,
    bits: uint32,
    nonce: uint32,
    blockHeight: int)

  /** struct.pack("<I", n) and its inverse. */
  function Pack(n: uint32): (r: bytes)
    ensures |r| == 4
  {
    var n1: int := n / 256;
    var n2: int := n1 / 256;
    [n % 256, n1 % 256, n2 % 256, n2 / 256]
  }

  function Unpack(s: bytes): uint32
    requires |s| == 4
  {
    Join(s[0], Join(s[1], Join(s[2], s[3])))
  }

  function Join(low: byte, high: int): int {
    low as int + 256 * high
  }

  lemma JoinParts(low: byte, high: int)
    ensures Join(low, high) % 256 == low && Join(low, high) / 256 == high
  {
  }

  lemma UnpackPack(n: uint32)
    ensures Unpack(Pack(n)) == n
  {
  }

  lemma PackUnpack(s: bytes)
    requires |s| == 4
    ensures Pack(Unpack(s)) == s
  {
    JoinParts(s[2], s[3]);
    JoinParts(s[1], Join(s[2], s[3]));
    JoinParts(s[0], Join(s[1], Join(s[2], s[3])));
  }

  function Reverse(s: bytes): (r: bytes)
    ensures |r| == |s|
  {
    seq(|s|, i requires 0 <= i < |s| => s[|s| - 1 - i])
  }

  lemma ReverseTwice(s: bytes)
    ensures Reverse(Reverse(s)) == s
  {
  }

  /** Octets as the reversed hexadecimal text that names them. */
  function Name(octets: bytes): bytes {
    Hex.Encode(Reverse(octets))
  }

  /** The octets a text names, when it is hexadecimal. */
  function Octets(name: bytes): Option<bytes> {
    match Hex.Decode(name)
    case None => None
    case Some(s) => Some(Reverse(s))
  }

  lemma OctetsOfName(octets: bytes)
    ensures Octets(Name(octets)) == Some(octets)
  {
    Hex.DecodeEncode(Reverse(octets));
    ReverseTwice(octets);
  }

  lemma NameInjective(a: bytes, b: bytes)
    requires Name(a) == Name(b)
    ensures a == b
  {
    OctetsOfName(a);
    OctetsOfName(b);
  }

  /** 32 octets in lower-case text. */
  ghost predicate Named(name: bytes) {
    exists octets: bytes :: |octets| == 32 && name == Name(octets)
  }

  function SerializeHeader(h: Header): Option<bytes> {
    var prev, merkle, claims := Octets(h.prevBlockHash), Octets(h.merkleRoot), Octets(h.claimTrieRoot);
    if prev.None? || merkle.None? || claims.None? then None
    else Some(Pack(h.version) + prev.value + merkle.value + claims.value
              + (Pack(h.timestamp) + Pack(h.bits) + Pack(h.nonce)))
  }

  function DeserializeHeader(height: int, raw: bytes): Header
    requires |raw| == HEADER_SIZE
  {
    Header(Unpack(raw[..4]), Name(raw[4..36]), Name(raw[36..68]), Name(raw[68..100]),
           Unpack(raw[100..104]), Unpack(raw[104..108]), Unpack(raw[108..112]), height)
  }

  lemma SerializeInvertsDeserialize(height: int, raw: bytes)
    requires |raw| == HEADER_SIZE
    ensures SerializeHeader(DeserializeHeader(height, raw)) == Some(raw)
  {
    OctetsOfName(raw[4..36]);
    OctetsOfName(raw[36..68]);
    OctetsOfName(raw[68..100]);
    PackUnpack(raw[..4]);
    PackUnpack(raw[100..104]);
    PackUnpack(raw[104..108]);
    PackUnpack(raw[108..112]);
    assert raw == raw[..4] + raw[4..36] + raw[36..68] + raw[68..100] + (raw[100..104] + raw[104..108] + raw[108..112]);
  }

  lemma DeserializeInvertsSerialize(h: Header)
    requires Named(h.prevBlockHash) && Named(h.merkleRoot) && Named(h.claimTrieRoot)
    ensures SerializeHeader(h).Some? && |SerializeHeader(h).value| == HEADER_SIZE
    ensures DeserializeHeader(h.blockHeight, SerializeHeader(h).value) == h
  {
    var p: bytes :| |p| == 32 && h.prevBlockHash == Name(p);
    var m: bytes :| |m| == 32 && h.merkleRoot == Name(m);
    var c: bytes :| |c| == 32 && h.claimTrieRoot == Name(c);
    OctetsOfName(p);
    OctetsOfName(m);
    OctetsOfName(c);
    UnpackPack(h.version);
    UnpackPack(h.timestamp);
    UnpackPack(h.bits);
    UnpackPack(h.nonce);
    var raw := SerializeHeader(h).value;
    FieldsOf(Pack(h.version), p, m, c, Pack(h.timestamp), Pack(h.bits), Pack(h.nonce), raw);
  }

  lemma FieldsOf(v: bytes, p: bytes, m: bytes, c: bytes, t: bytes, b: bytes, n: bytes, raw: bytes)
    requires |v| == |t| == |b| == |n| == 4 && |p| == |m| == |c| == 32 && raw == v + p + m + c + (t + b + n)
    ensures |raw| == HEADER_SIZE && raw[..4] == v && raw[4..36] == p && raw[36..68] == m && raw[68..100] == c
    ensures raw[100..104] == t && raw[104..108] == b && raw[108..112] == n
  {
    var tail := t + b + n;
    assert raw[100..] == tail;
    assert tail[..4] == t && tail[4..8] == b && tail[8..] == n;
    assert raw[100..104] == raw[100..][..4] && raw[104..108] == raw[100..][4..8] && raw[108..112] == raw[100..][8..];
  }

  /** Little-endian. */
  function Number(s: bytes): int
    requires |s| == 4
  {
    s[0] as int + 0x100 * (s[1] as int) + 0x1_0000 * (s[2] as int) + 0x100_0000 * (s[3] as int)
  }

  /** A name read as hexadecimal is the octets in reverse. */
  ghost predicate Spells(name: bytes, octets: bytes) {
    && Hex.Decode(name).Some? && |Hex.Decode(name).value| == |octets|
    && forall j :: 0 <= j < |octets| ==> Hex.Decode(name).value[j] == octets[|octets| - 1 - j]
  }

  lemma NameSpells(octets: bytes)
    ensures Spells(Name(octets), octets)
  {
    Hex.DecodeEncode(Reverse(octets));
  }

  /** Where each field of a header lies among its 112 octets. */
  lemma HeaderLayout(height: int, raw: bytes)
    requires |raw| == 112
    ensures var h := DeserializeHeader(height, raw);
            && h.version == Number(raw[..4]) && h.timestamp == Number(raw[100..104])
            && h.bits == Number(raw[104..108]) && h.nonce == Number(raw[108..112])
            && Spells(h.prevBlockHash, raw[4..36]) && Spells(h.merkleRoot, raw[36..68])
            && Spells(h.claimTrieRoot, raw[68..100]) && h.blockHeight == height
  {
    NameSpells(raw[4..36]);
    NameSpells(raw[36..68]);
    NameSpells(raw[68..100]);
  }

  // ---------------------------------------------------------------- retargeting

  /** int(a / b), which truncates toward zero. */
  function Truncated(a: int, b: nat): int
    requires b > 0
  {
    if a >= 0 then a / b else -(-a / b)
  }

  /** The timespan that scales the target, between 132 and 225 whatever the timestamps say. */
  function ClampedTimespan(actual: int): (r: nat)
    ensures 132 <= r <= 225
  {
    var modulated := TARGET_TIMESPAN + Truncated(actual - TARGET_TIMESPAN, 8);
    var least := TARGET_TIMESPAN - Truncated(TARGET_TIMESPAN, 8);
    var most := TARGET_TIMESPAN + Truncated(TARGET_TIMESPAN, 2);
    Max(least, Min(modulated, most))
  }

  /** multiply: the product modulo 2^256. */
  function Multiply(value: nat, multiplier: nat): nat {
    value * multiplier % Pow2(256)
  }

  /** next_block_target; `divide` stands for the floating-point division. */
  function NextTarget(divide: (nat, nat) -> nat, previous: Option<Header>, current: Option<Header>): (r: nat)
    ensures r <= MAX_TARGET
  {
    if current.None? then MAX_TARGET
    else
      var last := current.value;
      var before := if previous.None? then last else previous.value;
      Rescaled(divide, Compact.FromCompact(last.bits), ClampedTimespan(last.timestamp - before.timestamp))
  }

  /** A target times a factor over the timespan, cut off at the limit. */
  function Rescaled(divide: (nat, nat) -> nat, target: nat, times: nat): (r: nat)
    ensures r <= MAX_TARGET
  {
    var candidate := divide(Multiply(target, times), TARGET_TIMESPAN);
    if MAX_TARGET < candidate then MAX_TARGET else candidate
  }

  predicate Bounded(h: Header) {
    Compact.FromCompact(h.bits) <= MAX_TARGET
  }

  lemma Pow240()
    ensures Pow2(256) == 65536 * Pow2(240)
  {
    Pow2Eight();
    Pow2Add(8, 8);
    Pow2Add(16, 240);
  }

  /** Scaling a target within the limit never reaches 2^256, so the modulus does nothing. */
  lemma MultiplyExact(value: nat, actual: int)
    requires value <= MAX_TARGET
    ensures value * ClampedTimespan(actual) < Pow2(256)
    ensures Multiply(value, ClampedTimespan(actual)) == value * ClampedTimespan(actual)
  {
    Pow240();
    ProductBelow(value, ClampedTimespan(actual), Pow2(240), Pow2(256));
  }

  /** The factor over 150 for two headers `dt` seconds apart: (dt - 150) / 8 rounded toward zero, within limits. */
  ghost predicate ScalesBy(dt: int, k: int) {
    && 132 <= k <= 225
    && (k == 132 <==> dt <= 6)
    && (k == 225 <==> dt >= 750)
    && (6 < dt < 150 ==> 8 * (150 - k) <= 150 - dt < 8 * (150 - k) + 8)
    && (150 <= dt < 750 ==> 8 * (k - 150) <= dt - 150 < 8 * (k - 150) + 8)
  }

  lemma TimespanScales(dt: int)
    ensures ScalesBy(dt, ClampedTimespan(dt))
  {
  }

  /** The conditions leave one factor for each distance, and it never falls as the distance grows. */
  lemma ScalesMonotone(a: int, k: int, b: int, m: int)
    requires ScalesBy(a, k) && ScalesBy(b, m) && a <= b
    ensures k <= m && (a == b ==> k == m)
  {
  }

  /** Seconds between the last header and the one before it; none before it counts as no time. */
  function Elapsed(previous: Option<Header>, last: Header): int {
    match previous
    case None => 0
    case Some(before) => last.timestamp - before.timestamp
  }

  /**
   Which target comes out: the last header's own, times the factor for the time it took, over 150
   and cut off at the limit. A stored target is within the limit, and there the product is exact.
   */
  lemma NextTargetIs(divide: (nat, nat) -> nat, previous: Option<Header>, last: Header) returns (k: nat)
    ensures ScalesBy(Elapsed(previous, last), k)
    ensures NextTarget(divide, previous, Some(last)) == Min(MAX_TARGET, divide(Multiply(Compact.FromCompact(last.bits), k), 150))
    ensures Bounded(last) ==> Multiply(Compact.FromCompact(last.bits), k) == Compact.FromCompact(last.bits) * k
  {
    var dt := Elapsed(previous, last);
    k := ClampedTimespan(dt);
    TimespanScales(dt);
    RescaledIs(divide, Compact.FromCompact(last.bits), k);
    if Bounded(last) {
      MultiplyExact(Compact.FromCompact(last.bits), dt);
    }
  }

  lemma RescaledIs(divide: (nat, nat) -> nat, target: nat, times: nat)
    ensures Rescaled(divide, target, times) == Min(MAX_TARGET, divide(Multiply(target, times), 150))
  {
  }

  /** A slower last block never makes the next target smaller. */
  lemma SlowerIsEasier(divide: (nat, nat) -> nat, p: Option<Header>, a: Header, q: Option<Header>, b: Header)
    requires forall x: nat, y: nat :: x <= y ==> divide(x, TARGET_TIMESPAN) <= divide(y, TARGET_TIMESPAN)
    requires a.bits == b.bits && Bounded(a) && Elapsed(p, a) <= Elapsed(q, b)
    ensures NextTarget(divide, p, Some(a)) <= NextTarget(divide, q, Some(b))
  {
    var k := NextTargetIs(divide, p, a);
    var m := NextTargetIs(divide, q, b);
    ScalesMonotone(Elapsed(p, a), k, Elapsed(q, b), m);
    ProductMonotone(Compact.FromCompact(a.bits), k, m);
  }

  lemma ProductMonotone(value: nat, k: nat, m: nat)
    requires k <= m
    ensures value * k <= value * m
  {
  }

  lemma ProductBelow(value: nat, times: nat, bound: nat, m: nat)
    requires value < bound && times <= 225 && m == 65536 * bound
    ensures value * times < m && value * times % m == value * times
  {
    assert value * times <= value * 225;
    SmallRemainder(value * times, m);
  }

  lemma SmallRemainder(x: nat, m: nat)
    requires x < m
    ensures x % m == x
  {
  }

  /** A header whose bits encode a target for its block is bounded. */
  lemma EncodedTargetBounded(h: Header, target: nat)
    requires target <= MAX_TARGET && Compact.CalculateCompact(target, false) == Some(h.bits)
    ensures Bounded(h)
  {
    Pow240();
    Compact.CompactRoundTrip(target, false);
  }
}
