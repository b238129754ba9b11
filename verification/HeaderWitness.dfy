/** Accepted connects that leave a chain unlinked, in the middle of it and below height 0, or out of step with its size. */
module HeaderWitness {
  import opened Base
  import opened Headers
  import opened HeaderChain
  import opened HeaderTheorems
  import Hex

  // ---------------------------------------------------------------- the genesis digest

  predicate LowerHex(c: char) {
    '0' <= c <= '9' || 'a' <= c <= 'f'
  }

  predicate AllLower(s: string) {
    forall i :: 0 <= i < |s| ==> LowerHex(s[i])
  }

  lemma Eight(s: string)
    requires |s| == 8
    requires LowerHex(s[0]) && LowerHex(s[1]) && LowerHex(s[2]) && LowerHex(s[3])
    requires LowerHex(s[4]) && LowerHex(s[5]) && LowerHex(s[6]) && LowerHex(s[7])
    ensures AllLower(s)
  {
  }

  lemma GenesisDigits()
    ensures |GENESIS_HASH| == 64 && AllLower(GENESIS_HASH)
  {
    Eight("9c89283b");
    Eight("a0f3227f");
    Eight("6c03b702");
    Eight("16b9f665");
    Eight("f0118d5e");
    Eight("0fa729ce");
    Eight("df4fb34d");
    Eight("6a34f463");
  }

  lemma LowerText(s: string)
    requires AllLower(s)
    ensures Hex.AllDigits(Ascii(s)) && Hex.ToLower(Ascii(s)) == Ascii(s)
  {
  }

  /** The genesis hash is the name of 32 octets. */
  lemma GenesisOctets() returns (g: bytes)
    ensures |g| == 32 && Octets(Ascii(GENESIS_HASH)) == Some(g) && Name(g) == Ascii(GENESIS_HASH)
  {
    GenesisDigits();
    LowerText(GENESIS_HASH);
    var text := Ascii(GENESIS_HASH);
    Hex.DecodesIffDigits(text);
    Hex.EncodeDecodeLower(text);
    var s := Hex.Decode(text).value;
    g := Reverse(s);
    ReverseTwice(s);
  }

  // ---------------------------------------------------------------- toy headers

  function Zeros(n: nat): bytes {
    seq(n, _ => 0)
  }

  function Copies(b: byte): (r: bytes)
    ensures |r| == 32
  {
    seq(32, _ => b)
  }

  /** A header marked with an octet and naming its predecessor. */
  function Toy(mark: byte, previous: bytes): (r: Raw)
    requires |previous| == 32
    ensures r[0] == mark && r[4..36] == previous
  {
    [mark] + Zeros(3) + previous + Zeros(76)
  }

  /** Hash by mark: the genesis digest for 0, else 32 copies of the mark. No difficulty. */
  function ToyRules(g: bytes): Rules {
    Rules((raw: bytes) => if raw == [] || raw[0] == 0 then g else Copies(raw[0]),
          (hash: bytes) => 0, (a: nat, b: nat) => 0, false)
  }

  function ToyChain(g: bytes): seq<Raw>
    requires |g| == 32
  {
    [Toy(0, Zeros(32)), Toy(1, g), Toy(2, Copies(1))]
  }

  lemma CopiesDiffer(a: byte, b: byte)
    requires a != b
    ensures Copies(a) != Copies(b)
  {
    assert Copies(a)[0] != Copies(b)[0];
  }

  lemma ToyChainLinked(g: bytes)
    requires |g| == 32 && Name(g) == Ascii(GENESIS_HASH)
    ensures Linked(ToyRules(g), ToyChain(g))
  {
    var chain, rules := ToyChain(g), ToyRules(g);
    assert LinkAt(rules, chain, 0) && LinkAt(rules, chain, 1) && LinkAt(rules, chain, 2);
  }

  /** Without difficulty checks a link to the header before is all that is asked. */
  lemma LinkSuffices(rules: Rules, base: int, chain: seq<Raw>, i: nat)
    requires !rules.difficulty && 0 < i < |chain| && chain[i][4..36] == rules.doubleSha(chain[i - 1])
    ensures ValidIn(CheckerOf(rules), base, chain, i)
  {
  }

  lemma SingleAccepted(c: Checker, chain: seq<Raw>, start: nat, raw: Raw, joined: seq<Raw>)
    requires start <= |chain| && joined == chain[..start] + [raw] && ValidIn(c, 0, joined, start)
    ensures Accepts(c, chain, start, [raw])
  {
    ValidFromZero(c, joined, start);
  }

  /** So one linked header makes an accepted chunk. */
  lemma LinkAccepted(rules: Rules, chain: seq<Raw>, start: nat, raw: Raw)
    requires !rules.difficulty && 0 < start <= |chain| && raw[4..36] == rules.doubleSha(chain[start - 1])
    ensures Accepts(CheckerOf(rules), chain, start, [raw])
  {
    var joined := chain[..start] + [raw];
    assert joined[start - 1] == chain[start - 1] && joined[start] == raw;
    LinkSuffices(rules, 0, joined, start);
    SingleAccepted(CheckerOf(rules), chain, start, raw, joined);
  }

  lemma ToyChunkAccepted(g: bytes)
    requires |g| == 32
    ensures Accepts(CheckerOf(ToyRules(g)), ToyChain(g), 1, [Toy(3, g)])
  {
    var chain := ToyChain(g);
    assert chain[0] == Toy(0, Zeros(32));
    LinkAccepted(ToyRules(g), chain, 1, Toy(3, g));
  }

  /** An accepted chunk that ends below the tip can cut the chain behind it loose. */
  lemma MiddleConnectUnlinks() returns (rules: Rules, chain: seq<Raw>, added: seq<Raw>)
    ensures |chain| == 3 && |added| == 1 && Linked(rules, chain) && Accepts(CheckerOf(rules), chain, 1, added)
    ensures !Linked(rules, Overwritten(chain, 1, added))
  {
    var g := GenesisOctets();
    rules, chain, added := ToyRules(g), ToyChain(g), [Toy(3, g)];
    ToyChainLinked(g);
    ToyChunkAccepted(g);
    ConnectKeepsLinked(rules, chain, 1, added);
    CopiesDiffer(1, 3);
    assert chain[2][4..36] == Copies(1) && rules.doubleSha(added[0]) == Copies(3);
  }

  lemma OneHeader(raw: Raw)
    ensures Split(raw) == [raw]
  {
    assert Cut(raw, 0) == raw;
  }

  /** Below height 0 any one header with the genesis hash is accepted. */
  lemma GenesisMarkAccepted(g: bytes, start: int, genesis: Raw)
    requires Name(g) == Ascii(GENESIS_HASH) && genesis[0] == 0
    ensures AcceptsBelow(CheckerOf(ToyRules(g)), start, [genesis])
  {
    assert HashHeader(ToyRules(g), genesis) == Name(g);
    assert ValidIn(CheckerOf(ToyRules(g)), start, [genesis], 0);
  }

  lemma SplicedBelow(raw: Raw)
    ensures Spliced([], -1, [raw]) == [raw]
  {
    var room := Padded([], 0);
    assert room == [] && Clip(-1, 0) == 0 && Clip(0, 0) == 0;
    SplicedFromRoom([], -1, [raw], 0, room, 0, 0);
  }

  /** What connecting one accepted header leaves, in terms of the slice. */
  lemma ConnectedOne(c: Checker, held: Held, start: int, raw: Raw, spliced: seq<Raw>)
    requires start <= held.size <= |held.stored| && Passes(c, held.stored, start, [raw])
    requires spliced == Spliced(held.stored, start, [raw])
    ensures Connected(c, held, start, raw) == (Added(1), Held(spliced, Max(held.size, start + 1)))
  {
    OneHeader(raw);
  }

  /**
   On an empty chain the genesis header alone is accepted at height -1: one header is stored
   while `size` stays 0.
   */
  lemma NegativeConnectLosesStep() returns (rules: Rules, headers: Raw)
    ensures AcceptsBelow(CheckerOf(rules), -1, [headers])
    ensures Connected(CheckerOf(rules), EMPTY, -1, headers) == (Added(1), Held([headers], 0))
  {
    var g := GenesisOctets();
    rules, headers := ToyRules(g), Toy(0, Zeros(32));
    GenesisMarkAccepted(g, -1, headers);
    SplicedBelow(headers);
    ConnectedOne(CheckerOf(rules), EMPTY, -1, headers, [headers]);
  }

  /** A header with the genesis mark that names something other than g. */
  function Stranger(g: bytes): Raw {
    Toy(0, if g == Copies(5) then Copies(6) else Copies(5))
  }

  lemma StrangerSpliced(chain: seq<Raw>, raw: Raw)
    requires |chain| == 3
    ensures Spliced(chain, -2, [raw]) == [chain[0], raw, chain[2]]
  {
    var room := Padded(chain, -1);
    assert room == chain && Clip(-2, 3) == 1 && Clip(-1, 3) == 2;
    SplicedFromRoom(chain, -2, [raw], -1, room, 1, 2);
  }

  /**
   At height -2 a header with the genesis hash is accepted over the second of three linked
   headers: three are stored and counted, and they are no longer linked.
   */
  lemma NegativeConnectUnlinks() returns (rules: Rules, chain: seq<Raw>, headers: Raw)
    ensures |chain| == 3 && Linked(rules, chain)
    ensures var (outcome, held) := Connected(CheckerOf(rules), Held(chain, 3), -2, headers);
            outcome == Added(1) && held.size == |held.stored| == 3 && !Linked(rules, held.stored)
  {
    var g := GenesisOctets();
    rules, chain, headers := ToyRules(g), ToyChain(g), Stranger(g);
    var c, result := CheckerOf(rules), [chain[0], headers, chain[2]];
    ToyChainLinked(g);
    GenesisMarkAccepted(g, -2, headers);
    StrangerSpliced(chain, headers);
    ConnectedOne(c, Held(chain, 3), -2, headers, result);
    StrangerUnlinked(g, result);
  }

  lemma StrangerUnlinked(g: bytes, result: seq<Raw>)
    requires |g| == 32 && |result| == 3 && result[0] == Toy(0, Zeros(32)) && result[1] == Stranger(g)
    ensures !Linked(ToyRules(g), result)
  {
    CopiesDiffer(5, 6);
    assert result[1][4..36] != g;
    assert !LinkAt(ToyRules(g), result, 1);
  }
}
