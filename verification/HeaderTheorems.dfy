/** What a header chain keeps over any series of connects. */
module HeaderTheorems {
  import opened Base
  import opened Headers
  import opened HeaderChain
  import Compact

  // ---------------------------------------------------------------- links

  /** The genesis header first, and every later header naming the hash of the one before it. */
  predicate LinkAt(rules: Rules, chain: seq<Raw>, i: nat)
    requires i < |chain|
  {
    if i == 0 then HashHeader(rules, chain[0]) == Ascii(GENESIS_HASH)
    else chain[i][4..36] == rules.doubleSha(chain[i - 1])
  }

  predicate Linked(rules: Rules, chain: seq<Raw>) {
    forall i: nat :: i < |chain| ==> LinkAt(rules, chain, i)
  }

  lemma ValidLinks(rules: Rules, chain: seq<Raw>, i: nat)
    requires i < |chain| && ValidAt(CheckerOf(rules), chain, i)
    ensures LinkAt(rules, chain, i)
  {
    if i > 0 {
      NameInjective(chain[i][4..36], rules.doubleSha(chain[i - 1]));
    }
  }

  /** An accepted chunk as it lies in the new chain. */
  lemma OverwrittenAt(chain: seq<Raw>, start: nat, added: seq<Raw>, i: nat)
    requires start <= |chain| && i < |Overwritten(chain, start, added)|
    ensures i < start ==> Overwritten(chain, start, added)[i] == chain[i]
    ensures start <= i < start + |added| ==> Overwritten(chain, start, added)[i] == added[i - start]
    ensures i >= start + |added| ==> Overwritten(chain, start, added)[i] == chain[i]
  {
  }

  /** The verdict on a header depends on it and the two before it only. */
  lemma ValidLocally(c: Checker, a: seq<Raw>, b: seq<Raw>, i: nat)
    requires i < |a| && i < |b|
    requires forall j :: i - 2 <= j <= i && 0 <= j ==> a[j] == b[j]
    ensures ValidAt(c, a, i) == ValidAt(c, b, i)
  {
  }

  lemma ChunkValid(c: Checker, chain: seq<Raw>, start: nat, added: seq<Raw>, i: nat)
    requires start <= |chain| && Accepts(c, chain, start, added) && start <= i < start + |added|
    ensures ValidAt(c, Overwritten(chain, start, added), i)
  {
    var joined, result := chain[..start] + added, Overwritten(chain, start, added);
    forall j | 0 <= j <= i
      ensures joined[j] == result[j]
    {
      OverwrittenAt(chain, start, added, j);
    }
    ValidLocally(c, joined, result, i);
    assert ValidAt(c, joined, i);
  }

  lemma OutsideValid(c: Checker, chain: seq<Raw>, start: nat, added: seq<Raw>, i: nat)
    requires start <= |chain| && i < |chain| && (i < start || i >= start + |added| + 2 || added == [])
    ensures i < |Overwritten(chain, start, added)|
    ensures ValidAt(c, Overwritten(chain, start, added), i) == ValidAt(c, chain, i)
  {
    var result := Overwritten(chain, start, added);
    forall j | i - 2 <= j <= i && 0 <= j
      ensures chain[j] == result[j]
    {
      OverwrittenAt(chain, start, added, j);
    }
    ValidLocally(c, chain, result, i);
  }

  /**
   Connecting an accepted chunk to a valid chain leaves it valid exactly when the one or two
   old headers right after the chunk, if there are any, pass on top of it.
   */
  lemma ConnectKeepsValid(c: Checker, chain: seq<Raw>, start: nat, added: seq<Raw>)
    requires start <= |chain| && ChainValid(c, chain) && Accepts(c, chain, start, added)
    ensures var result, end := Overwritten(chain, start, added), start + |added|;
            && |result| >= |chain|
            && (ChainValid(c, result) <==>
                  (end < |result| ==> ValidAt(c, result, end)) && (end + 1 < |result| ==> ValidAt(c, result, end + 1)))
  {
    var result, end := Overwritten(chain, start, added), start + |added|;
    forall i: nat | i < |result| && i != end && i != end + 1
      ensures ValidAt(c, result, i)
    {
      if start <= i < end {
        ChunkValid(c, chain, start, added, i);
      } else {
        assert ValidAt(c, chain, i);
        OutsideValid(c, chain, start, added, i);
      }
    }
  }

  /**
   Connecting keeps the chain linked from genesis exactly when the chunk reaches the tip or the
   next stored header names the chunk's last one.
   */
  lemma ConnectKeepsLinked(rules: Rules, chain: seq<Raw>, start: nat, added: seq<Raw>)
    requires start <= |chain| && Linked(rules, chain) && Accepts(CheckerOf(rules), chain, start, added) && added != []
    ensures var result, end := Overwritten(chain, start, added), start + |added|;
            Linked(rules, result) <==> (end >= |chain| || chain[end][4..36] == rules.doubleSha(added[|added| - 1]))
  {
    var c := CheckerOf(rules);
    var result, end := Overwritten(chain, start, added), start + |added|;
    forall i: nat | i < |result| && i != end
      ensures LinkAt(rules, result, i)
    {
      OverwrittenAt(chain, start, added, i);
      if start <= i < end {
        ChunkValid(c, chain, start, added, i);
        ValidLinks(rules, result, i);
      } else {
        assert LinkAt(rules, chain, i);
        if i > 0 {
          OverwrittenAt(chain, start, added, i - 1);
        }
      }
    }
    OverwrittenAt(chain, start, added, end - 1);
    if end < |chain| {
      OverwrittenAt(chain, start, added, end);
      assert Linked(rules, result) ==> LinkAt(rules, result, end);
    }
  }

  // ---------------------------------------------------------------- below height 0

  /** The chain a negative start is spliced into, and the bounds of the slice. */
  function Room(chain: seq<Raw>, start: int, added: seq<Raw>): seq<Raw> {
    Padded(chain, start + |added|)
  }

  function Low(chain: seq<Raw>, start: int, added: seq<Raw>): (r: nat)
    ensures r <= |Room(chain, start, added)|
  {
    Clip(start, |Room(chain, start, added)|)
  }

  function High(chain: seq<Raw>, start: int, added: seq<Raw>): (r: nat)
    ensures Low(chain, start, added) <= r <= |Room(chain, start, added)|
  {
    Max(Low(chain, start, added), Clip(start + |added|, |Room(chain, start, added)|))
  }

  lemma SplicedIs(chain: seq<Raw>, start: int, added: seq<Raw>)
    ensures Spliced(chain, start, added)
            == Room(chain, start, added)[..Low(chain, start, added)] + added + Room(chain, start, added)[High(chain, start, added)..]
  {
  }

  /** Blanks are only ever appended when nothing is left behind the slice. */
  lemma NothingBehindBlanks(chain: seq<Raw>, start: int, added: seq<Raw>)
    requires start < 0
    ensures High(chain, start, added) < |Room(chain, start, added)| ==> Room(chain, start, added) == chain
  {
  }

  /** A chunk accepted below height 0 starts with the genesis hash and is linked inside. */
  lemma BelowLinks(rules: Rules, start: int, added: seq<Raw>, i: nat)
    requires AcceptsBelow(CheckerOf(rules), start, added) && i < |added|
    ensures LinkAt(rules, added, i)
  {
    assert ValidIn(CheckerOf(rules), start, added, i);
    if i > 0 {
      NameInjective(added[i][4..36], rules.doubleSha(added[i - 1]));
    }
  }

  /** Three stretches put together are linked exactly when the first is, the others are inside, and the seams are. */
  lemma LinkedInThree(rules: Rules, a: seq<Raw>, b: seq<Raw>, c: seq<Raw>)
    requires b != [] && (a == [] ==> LinkAt(rules, b, 0))
    requires forall i: nat :: 0 < i < |b| ==> LinkAt(rules, b, i)
    requires forall i: nat :: 0 < i < |c| ==> LinkAt(rules, c, i)
    ensures Linked(rules, a + b + c) <==>
              && Linked(rules, a)
              && (a != [] ==> b[0][4..36] == rules.doubleSha(a[|a| - 1]))
              && (c != [] ==> c[0][4..36] == rules.doubleSha(b[|b| - 1]))
  {
    var all := a + b + c;
    if Linked(rules, all) {
      SeamsLinked(rules, a, b, c, all);
    }
    if && Linked(rules, a)
       && (a != [] ==> b[0][4..36] == rules.doubleSha(a[|a| - 1]))
       && (c != [] ==> c[0][4..36] == rules.doubleSha(b[|b| - 1])) {
      forall i: nat | i < |all|
        ensures LinkAt(rules, all, i)
      {
        StretchLinks(rules, a, b, c, all, i);
      }
    }
  }

  lemma SeamsLinked(rules: Rules, a: seq<Raw>, b: seq<Raw>, c: seq<Raw>, all: seq<Raw>)
    requires all == a + b + c && b != [] && Linked(rules, all)
    ensures Linked(rules, a)
    ensures a != [] ==> b[0][4..36] == rules.doubleSha(a[|a| - 1])
    ensures c != [] ==> c[0][4..36] == rules.doubleSha(b[|b| - 1])
  {
    LinkedPrefix(rules, all, |a|);
    assert all[..|a|] == a;
    if a != [] {
      assert LinkAt(rules, all, |a|);
    }
    if c != [] {
      assert LinkAt(rules, all, |a| + |b|);
    }
  }

  lemma StretchLinks(rules: Rules, a: seq<Raw>, b: seq<Raw>, c: seq<Raw>, all: seq<Raw>, i: nat)
    requires all == a + b + c && b != [] && i < |all|
    requires i < |a| ==> LinkAt(rules, a, i)
    requires i == |a| ==> if a == [] then LinkAt(rules, b, 0) else b[0][4..36] == rules.doubleSha(a[|a| - 1])
    requires |a| < i < |a| + |b| ==> LinkAt(rules, b, i - |a|)
    requires i == |a| + |b| ==> c[0][4..36] == rules.doubleSha(b[|b| - 1])
    requires i > |a| + |b| ==> LinkAt(rules, c, i - |a| - |b|)
    ensures LinkAt(rules, all, i)
  {
  }

  lemma LinkedSuffix(rules: Rules, chain: seq<Raw>, from: nat, i: nat)
    requires Linked(rules, chain) && from <= |chain| && 0 < i < |chain| - from
    ensures LinkAt(rules, chain[from..], i)
  {
    assert LinkAt(rules, chain, from + i);
  }

  /**
   Below height 0 connecting keeps the chain linked from genesis exactly when what is left before
   the slice is linked, the chunk's first header names the last of it, if there is any, and the
   next header behind the slice, if there is one, names the chunk's last.
   */
  lemma ConnectBelowKeepsLinked(rules: Rules, chain: seq<Raw>, start: int, added: seq<Raw>)
    requires start < 0 && Linked(rules, chain) && AcceptsBelow(CheckerOf(rules), start, added) && added != []
    ensures var room, low, high := Room(chain, start, added), Low(chain, start, added), High(chain, start, added);
            Linked(rules, Spliced(chain, start, added)) <==>
              && Linked(rules, room[..low])
              && (low > 0 ==> added[0][4..36] == rules.doubleSha(room[low - 1]))
              && (high < |room| ==> room[high][4..36] == rules.doubleSha(added[|added| - 1]))
  {
    var room, low, high := Room(chain, start, added), Low(chain, start, added), High(chain, start, added);
    SplicedIs(chain, start, added);
    NothingBehindBlanks(chain, start, added);
    forall i: nat | i < |added|
      ensures LinkAt(rules, added, i)
    {
      BelowLinks(rules, start, added, i);
    }
    forall i: nat | 0 < i < |room[high..]|
      ensures LinkAt(rules, room[high..], i)
    {
      LinkedSuffix(rules, chain, high, i);
    }
    LinkedInThree(rules, room[..low], added, room[high..]);
  }

  /** The verdict on a header with two before it depends on those three alone, not on its height. */
  lemma HeightIrrelevant(rules: Rules, base: int, a: seq<Raw>, i: nat, other: int, b: seq<Raw>, m: nat)
    requires i < |a| && m < |b| && (i == m || (i >= 2 && m >= 2)) && a[i] == b[m]
    requires i >= 1 ==> a[i - 1] == b[m - 1]
    requires i >= 2 ==> a[i - 2] == b[m - 2]
    ensures ValidIn(CheckerOf(rules), base, a, i) == ValidIn(CheckerOf(rules), other, b, m)
  {
    var c := CheckerOf(rules);
    var p, q, r, s := At(c, base, a, i - 2), At(c, base, a, i - 1), At(c, other, b, m - 2), At(c, other, b, m - 1);
    ValidInIs(rules, base, a, i, p, q);
    ValidInIs(rules, other, b, m, r, s);
    SameTarget(rules, p, q, r, s);
    SameVerdict(rules, HashHeader(rules, a[i]), DeserializeHeader(base + i, a[i]), DeserializeHeader(other + m, b[m]),
                PreviousHash(c, a, i), NextTarget(rules.divide, p, q));
  }

  lemma ValidInIs(rules: Rules, base: int, chain: seq<Raw>, i: nat, before: Option<Header>, last: Option<Header>)
    requires i < |chain|
    requires before == At(CheckerOf(rules), base, chain, i - 2) && last == At(CheckerOf(rules), base, chain, i - 1)
    ensures ValidIn(CheckerOf(rules), base, chain, i)
         == HeaderOk(rules, HashHeader(rules, chain[i]), DeserializeHeader(base + i, chain[i]),
                     PreviousHash(CheckerOf(rules), chain, i), NextTarget(rules.divide, before, last))
  {
  }

  lemma SameVerdict(rules: Rules, hash: bytes, h: Header, k: Header, previous: Option<bytes>, target: nat)
    requires h.(blockHeight := 0) == k.(blockHeight := 0)
    ensures HeaderOk(rules, hash, h, previous, target) == HeaderOk(rules, hash, k, previous, target)
  {
    assert h == k.(blockHeight := h.blockHeight);
  }

  function Lowered(h: Option<Header>): Option<Header> {
    match h
    case None => None
    case Some(header) => Some(header.(blockHeight := 0))
  }

  lemma SameTarget(rules: Rules, p: Option<Header>, q: Option<Header>, r: Option<Header>, s: Option<Header>)
    requires Lowered(p) == Lowered(r) && Lowered(q) == Lowered(s)
    ensures NextTarget(rules.divide, p, q) == NextTarget(rules.divide, r, s)
  {
  }

  /** From the third header on, verdicts depend on three headers in a row and nothing else. */
  ghost predicate HeightFree(c: Checker, judge: (Raw, Raw, Raw) -> bool) {
    forall base: int, a: seq<Raw>, i: nat {:trigger ValidIn(c, base, a, i)} :: 2 <= i < |a| ==>
      ValidIn(c, base, a, i) == judge(a[i - 2], a[i - 1], a[i])
  }

  predicate Judged(rules: Rules, x: Raw, y: Raw, z: Raw) {
    ValidIn(CheckerOf(rules), 0, [x, y, z], 2)
  }

  lemma WindowDecides(rules: Rules, base: int, a: seq<Raw>, i: nat)
    requires 2 <= i < |a|
    ensures ValidIn(CheckerOf(rules), base, a, i) == Judged(rules, a[i - 2], a[i - 1], a[i])
  {
    HeightIrrelevant(rules, base, a, i, 0, [a[i - 2], a[i - 1], a[i]], 2);
  }

  lemma HeightFreeIf(c: Checker, judge: (Raw, Raw, Raw) -> bool, rules: Rules)
    requires c == CheckerOf(rules) && forall x: Raw, y: Raw, z: Raw :: judge(x, y, z) == Judged(rules, x, y, z)
    ensures HeightFree(c, judge)
  {
    forall base: int, a: seq<Raw>, i: nat | 2 <= i < |a|
      ensures ValidIn(c, base, a, i) == judge(a[i - 2], a[i - 1], a[i])
    {
      WindowDecides(rules, base, a, i);
    }
  }

  lemma RulesHeightFree(rules: Rules) returns (judge: (Raw, Raw, Raw) -> bool)
    ensures HeightFree(CheckerOf(rules), judge)
  {
    judge := (x: Raw, y: Raw, z: Raw) => Judged(rules, x, y, z);
    HeightFreeIf(CheckerOf(rules), judge, rules);
  }

  lemma ThreeAt(a: seq<Raw>, b: seq<Raw>, c: seq<Raw>, i: nat)
    requires i < |a + b + c|
    ensures |a| <= i < |a| + |b| ==> (a + b + c)[i] == b[i - |a|]
    ensures |a| + |b| <= i ==> (a + b + c)[i] == c[i - |a| - |b|]
  {
  }

  lemma InsideThree(c: Checker, judge: (Raw, Raw, Raw) -> bool, base: int, a: seq<Raw>, b: seq<Raw>, d: seq<Raw>, i: nat)
    requires HeightFree(c, judge) && |a| + 2 <= i < |a| + |b| && ValidIn(c, base, b, i - |a|)
    ensures ValidAt(c, a + b + d, i)
  {
    ThreeAt(a, b, d, i - 2);
    ThreeAt(a, b, d, i - 1);
    ThreeAt(a, b, d, i);
  }

  lemma BehindAt(a: seq<Raw>, b: seq<Raw>, chain: seq<Raw>, high: nat, m: nat, i: nat)
    requires high <= |chain| && m < |chain| - high && i == |a| + |b| + m
    ensures (a + b + chain[high..])[i] == chain[high + m]
  {
    ThreeAt(a, b, chain[high..], i);
  }

  lemma BehindThree(c: Checker, judge: (Raw, Raw, Raw) -> bool, chain: seq<Raw>, high: nat, a: seq<Raw>, b: seq<Raw>, m: nat, i: nat)
    requires HeightFree(c, judge) && high <= |chain| && 2 <= m < |chain| - high && i == |a| + |b| + m
    requires ValidAt(c, chain, high + m)
    ensures ValidAt(c, a + b + chain[high..], i)
  {
    BehindAt(a, b, chain, high, m - 2, i - 2);
    BehindAt(a, b, chain, high, m - 1, i - 1);
    BehindAt(a, b, chain, high, m, i);
  }

  /** Headers of the chunk from its third on, and old ones from the third behind it on, keep their verdicts. */
  lemma FarValid(c: Checker, judge: (Raw, Raw, Raw) -> bool, chain: seq<Raw>, start: int, added: seq<Raw>, i: nat)
    requires HeightFree(c, judge) && start < 0 && ChainValid(c, chain) && AcceptsBelow(c, start, added)
    requires i < |Spliced(chain, start, added)|
    requires var low := Low(chain, start, added);
             low + 2 <= i < low + |added| || low + |added| + 2 <= i
    ensures ValidAt(c, Spliced(chain, start, added), i)
  {
    var room, low, high := Room(chain, start, added), Low(chain, start, added), High(chain, start, added);
    SplicedIs(chain, start, added);
    if i < low + |added| {
      assert ValidIn(c, start, added, i - low);
      InsideThree(c, judge, start, room[..low], added, room[high..], i);
    } else {
      NothingBehindBlanks(chain, start, added);
      var m := i - low - |added|;
      assert ValidAt(c, chain, high + m);
      BehindThree(c, judge, chain, high, chain[..low], added, m, i);
    }
  }

  /**
   Below height 0 connecting keeps the chain valid exactly when what is left before the slice is
   valid and the first two headers of the chunk and the first two behind it pass where they
   now stand.
   */
  lemma ConnectBelowKeepsValid(rules: Rules, chain: seq<Raw>, start: int, added: seq<Raw>)
    requires start < 0 && ChainValid(CheckerOf(rules), chain) && AcceptsBelow(CheckerOf(rules), start, added)
    ensures var room, low, k := Room(chain, start, added), Low(chain, start, added), |added|;
            var result := Spliced(chain, start, added);
            ChainValid(CheckerOf(rules), result) <==>
              && ChainValid(CheckerOf(rules), room[..low])
              && forall i: nat :: i < |result| && (low <= i < low + 2 || low + k <= i < low + k + 2) ==>
                   ValidAt(CheckerOf(rules), result, i)
  {
    var judge := RulesHeightFree(rules);
    SeamsDecide(CheckerOf(rules), judge, chain, start, added);
  }

  lemma SeamsDecide(c: Checker, judge: (Raw, Raw, Raw) -> bool, chain: seq<Raw>, start: int, added: seq<Raw>)
    requires HeightFree(c, judge) && start < 0 && ChainValid(c, chain) && AcceptsBelow(c, start, added)
    ensures var room, low, k := Room(chain, start, added), Low(chain, start, added), |added|;
            var result := Spliced(chain, start, added);
            ChainValid(c, result) <==>
              && ChainValid(c, room[..low])
              && forall i: nat :: i < |result| && (low <= i < low + 2 || low + k <= i < low + k + 2) ==> ValidAt(c, result, i)
  {
    var front, low := Room(chain, start, added)[..Low(chain, start, added)], Low(chain, start, added);
    var result, k := Spliced(chain, start, added), |added|;
    SplicedIs(chain, start, added);
    forall i: nat | i < low
      ensures ValidAt(c, front, i) == ValidAt(c, result, i)
    {
      ValidLocally(c, front, result, i);
    }
    forall i: nat | i < |result| && (low + 2 <= i < low + k || low + k + 2 <= i)
      ensures ValidAt(c, result, i)
    {
      FarValid(c, judge, chain, start, added, i);
    }
    if ChainValid(c, result) {
      forall i: nat | i < low
        ensures ValidAt(c, front, i)
      {
        assert ValidAt(c, result, i);
      }
    }
  }

  // ---------------------------------------------------------------- targets

  /** The target in a header's bits is within the limit. */
  predicate RawBounded(raw: Raw) {
    Compact.FromCompact(Unpack(raw[104..108])) <= MAX_TARGET
  }

  lemma RawBoundedIs(raw: Raw, height: int)
    ensures RawBounded(raw) <==> Bounded(DeserializeHeader(height, raw))
  {
  }

  predicate AllBounded(chain: seq<Raw>) {
    forall i :: 0 <= i < |chain| ==> RawBounded(chain[i])
  }

  /** The genesis hash fixes a genesis header with an admissible target. */
  ghost predicate GenesisFixed(rules: Rules) {
    forall raw: Raw :: HashHeader(rules, raw) == Ascii(GENESIS_HASH) ==> RawBounded(raw)
  }

  lemma ValidBounded(rules: Rules, base: int, chain: seq<Raw>, i: nat)
    requires rules.difficulty && GenesisFixed(rules) && i < |chain| && ValidIn(CheckerOf(rules), base, chain, i)
    ensures RawBounded(chain[i])
  {
    var c := CheckerOf(rules);
    if i > 0 {
      var target := c.next(At(c, base, chain, i - 2), At(c, base, chain, i - 1));
      EncodedTargetBounded(DeserializeHeader(base + i, chain[i]), target);
      RawBoundedIs(chain[i], base + i);
    }
  }

  lemma BlankBounded()
    ensures RawBounded(BLANK)
  {
    var bits := BLANK[104..108];
    assert bits[0] == 0 && bits[1] == 0 && bits[2] == 0 && bits[3] == 0;
    ZeroCompact();
  }

  lemma ZeroCompact()
    ensures Compact.FromCompact(0) == 0
  {
    Compact.DecodedBelow(0, 0);
  }

  /** The headers a chunk is judged with: those stored before it, from height 0 up, and its own. */
  function Joined(stored: seq<Raw>, start: int, added: seq<Raw>): seq<Raw>
    requires start <= |stored|
  {
    if start >= 0 then stored[..start] + added else added
  }

  /** Where the chunk begins among them, and the height of the first of them. */
  function From(start: int): nat {
    Max(0, start)
  }

  function Lowest(start: int): int {
    Min(0, start)
  }

  lemma PassesIn(c: Checker, stored: seq<Raw>, start: int, added: seq<Raw>)
    requires start <= |stored|
    ensures Passes(c, stored, start, added) <==> AllValidIn(c, Lowest(start), Joined(stored, start, added), From(start))
  {
    if start >= 0 {
      ValidFromZero(c, stored[..start] + added, start);
    }
  }

  /** Every header of an accepted chunk is bounded. */
  lemma ChunkBounded(rules: Rules, stored: seq<Raw>, start: int, added: seq<Raw>)
    requires rules.difficulty && GenesisFixed(rules) && start <= |stored| && Passes(CheckerOf(rules), stored, start, added)
    ensures AllBounded(added)
  {
    var c, joined, from := CheckerOf(rules), Joined(stored, start, added), From(start);
    PassesIn(c, stored, start, added);
    forall i | 0 <= i < |added|
      ensures RawBounded(added[i])
    {
      assert joined[from + i] == added[i];
      assert ValidIn(c, Lowest(start), joined, from + i);
      ValidBounded(rules, Lowest(start), joined, from + i);
    }
  }

  predicate All(p: Raw -> bool, chain: seq<Raw>) {
    forall i :: 0 <= i < |chain| ==> p(chain[i])
  }

  lemma AllPadded(p: Raw -> bool, chain: seq<Raw>, n: int)
    requires p(BLANK) && All(p, chain)
    ensures All(p, Padded(chain, n))
  {
  }

  /** A slice assignment brings in nothing but what was there, what is added, and blanks. */
  lemma AllSpliced(p: Raw -> bool, chain: seq<Raw>, start: int, added: seq<Raw>)
    requires p(BLANK) && All(p, chain) && All(p, added)
    ensures All(p, Spliced(chain, start, added))
  {
    AllPadded(p, chain, start + |added|);
  }

  lemma SplicedBounded(chain: seq<Raw>, start: int, added: seq<Raw>)
    requires AllBounded(chain) && AllBounded(added)
    ensures AllBounded(Spliced(chain, start, added))
  {
    var p: Raw -> bool := (raw: Raw) => RawBounded(raw);
    BlankBounded();
    AllIsBounded(p, chain);
    AllIsBounded(p, added);
    AllSpliced(p, chain, start, added);
    AllIsBounded(p, Spliced(chain, start, added));
  }

  lemma AllIsBounded(p: Raw -> bool, chain: seq<Raw>)
    requires forall raw: Raw :: p(raw) == RawBounded(raw)
    ensures All(p, chain) <==> AllBounded(chain)
  {
    if All(p, chain) {
      forall i | 0 <= i < |chain|
        ensures RawBounded(chain[i])
      {
        assert p(chain[i]);
      }
    }
  }

  /** At any height, in step or not, connecting keeps every stored target within the limit. */
  lemma ConnectKeepsBounded(rules: Rules, held: Held, start: int, headers: bytes)
    requires rules.difficulty && GenesisFixed(rules) && held.size <= |held.stored| && AllBounded(held.stored)
    ensures AllBounded(Connected(CheckerOf(rules), held, start, headers).1.stored)
  {
    if |headers| % HEADER_SIZE == 0 && start <= held.size && Passes(CheckerOf(rules), held.stored, start, Split(headers)) {
      ChunkBounded(rules, held.stored, start, Split(headers));
      SplicedBounded(held.stored, start, Split(headers));
    }
  }

  // ---------------------------------------------------------------- runs

  datatype Call = Call(start: int, headers: bytes)

  /** What a series of connects, at any heights, leaves of an empty chain. */
  function After(c: Checker, calls: seq<Call>): (r: Held)
    ensures r.size <= |r.stored|
  {
    if calls == [] then EMPTY
    else
      var held, last := After(c, calls[..|calls| - 1]), calls[|calls| - 1];
      ConnectedHeld(c, held, last.start, last.headers);
      Connected(c, held, last.start, last.headers).1
  }

  /** Every call that stores anything starts from height 0 up and appends to the chain or reaches its tip. */
  predicate ReachTip(c: Checker, calls: seq<Call>) {
    calls == []
    || (var earlier, last := calls[..|calls| - 1], calls[|calls| - 1];
        var outcome := Connected(c, After(c, earlier), last.start, last.headers).0;
        && ReachTip(c, earlier)
        && (outcome.Added? && outcome.count > 0 ==>
              last.start >= 0 && last.start + outcome.count >= |After(c, earlier).stored|))
  }

  /**
   From an empty chain with difficulty checks, after any connects at all, at any heights, every
   header in the array decodes to at most MAX_TARGET, whether it counts or not, so scaling it
   for the next block is exact, for any timespan.
   */
  lemma {:induction false} TargetsStayBounded(rules: Rules, calls: seq<Call>, i: nat, actual: int)
    requires rules.difficulty && GenesisFixed(rules) && i < |After(CheckerOf(rules), calls).stored|
    ensures var value := Compact.FromCompact(DeserializeHeader(i, After(CheckerOf(rules), calls).stored[i]).bits);
            && value <= MAX_TARGET
            && Multiply(value, ClampedTimespan(actual)) == value * ClampedTimespan(actual)
  {
    RunBounded(rules, calls);
    var raw := After(CheckerOf(rules), calls).stored[i];
    assert RawBounded(raw);
    MultiplyExact(Compact.FromCompact(DeserializeHeader(i, raw).bits), actual);
  }

  /**
   The same holds of every product formed while a chunk is validated after such a run, at any
   height and whether the chunk is accepted in the end or not: the target for position i is
   scaled from a stored header or from one of the chunk's that has already passed.
   */
  lemma ValidationMultipliesExactly(rules: Rules, calls: seq<Call>, start: int, added: seq<Raw>, i: nat, actual: int)
    requires rules.difficulty && GenesisFixed(rules) && start <= After(CheckerOf(rules), calls).size
    requires var joined := Joined(After(CheckerOf(rules), calls).stored, start, added);
             && From(start) <= i <= |joined| && i > 0
             && forall j: nat :: From(start) <= j < i && j < |joined| ==> ValidIn(CheckerOf(rules), Lowest(start), joined, j)
    ensures var joined := Joined(After(CheckerOf(rules), calls).stored, start, added);
            var value := Compact.FromCompact(DeserializeHeader(Lowest(start) + i - 1, joined[i - 1]).bits);
            && value <= MAX_TARGET
            && Multiply(value, ClampedTimespan(actual)) == value * ClampedTimespan(actual)
  {
    var stored := After(CheckerOf(rules), calls).stored;
    var joined := Joined(stored, start, added);
    RunBounded(rules, calls);
    if i - 1 < From(start) {
      assert joined[i - 1] == stored[i - 1];
    } else {
      ValidBounded(rules, Lowest(start), joined, i - 1);
    }
    assert RawBounded(joined[i - 1]);
    MultiplyExact(Compact.FromCompact(DeserializeHeader(Lowest(start) + i - 1, joined[i - 1]).bits), actual);
  }

  lemma {:induction false} RunBounded(rules: Rules, calls: seq<Call>)
    requires rules.difficulty && GenesisFixed(rules)
    ensures AllBounded(After(CheckerOf(rules), calls).stored)
  {
    if calls != [] {
      var earlier, last := calls[..|calls| - 1], calls[|calls| - 1];
      RunBounded(rules, earlier);
      ConnectKeepsBounded(rules, After(CheckerOf(rules), earlier), last.start, last.headers);
    }
  }

  /** Connects that append or reach the tip keep the whole chain valid, difficulty included, and hash-linked from genesis. */
  lemma {:induction false} RunStaysLinked(rules: Rules, calls: seq<Call>)
    requires ReachTip(CheckerOf(rules), calls)
    ensures var held := After(CheckerOf(rules), calls);
            && held.size == |held.stored|
            && ChainValid(CheckerOf(rules), held.stored) && Linked(rules, held.stored)
  {
    var c := CheckerOf(rules);
    RunStaysValid(c, calls);
    var chain := After(c, calls).stored;
    forall i: nat | i < |chain|
      ensures LinkAt(rules, chain, i)
    {
      assert ValidAt(c, chain, i);
      ValidLinks(rules, chain, i);
    }
  }

  lemma {:induction false} RunStaysValid(c: Checker, calls: seq<Call>)
    requires ReachTip(c, calls)
    ensures After(c, calls).size == |After(c, calls).stored| && ChainValid(c, After(c, calls).stored)
  {
    if calls != [] {
      var earlier, last := calls[..|calls| - 1], calls[|calls| - 1];
      RunStaysValid(c, earlier);
      TipStep(c, After(c, earlier), last.start, last.headers);
    }
  }

  lemma TipStep(c: Checker, held: Held, start: int, headers: bytes)
    requires held.size == |held.stored| && ChainValid(c, held.stored)
    requires var outcome := Connected(c, held, start, headers).0;
             outcome.Added? && outcome.count > 0 ==> start >= 0 && start + outcome.count >= |held.stored|
    ensures var after := Connected(c, held, start, headers).1;
            after.size == |after.stored| && ChainValid(c, after.stored)
  {
    if |headers| % HEADER_SIZE == 0 && start <= held.size && Passes(c, held.stored, start, Split(headers)) {
      if Split(headers) == [] {
        SplicedByNothing(held.stored, start);
      } else {
        SplicedFromZero(held.stored, start, Split(headers));
        ConnectKeepsValid(c, held.stored, start, Split(headers));
      }
    }
  }

  // ---------------------------------------------------------------- work

  /** The target for the block after `last`, from the octets of the last two headers. */
  ghost predicate TargetAfter(rules: Rules, before: Option<Raw>, last: Raw, target: nat) {
    exists k: nat ::
      && ScalesBy(if before.None? then 0 else Number(last[100..104]) - Number(before.value[100..104]), k)
      && target == Min(MAX_TARGET, rules.divide(Multiply(Compact.FromCompact(Number(last[104..108])), k), 150))
  }

  /** Header i carries the target that the two before it set, and its hash meets it. */
  ghost predicate Works(rules: Rules, chain: seq<Raw>, i: nat)
    requires 0 < i < |chain|
  {
    exists target: nat ::
      && TargetAfter(rules, if i == 1 then None else Some(chain[i - 2]), chain[i - 1], target)
      && Compact.CalculateCompact(target, false) == Some(Number(chain[i][104..108]))
      && rules.powHash(Name(rules.doubleSha(chain[i]))) <= target
  }

  lemma TargetIs(rules: Rules, before: Option<Raw>, last: Raw, previous: Option<Header>, current: Header)
    requires current.timestamp == Number(last[100..104]) && current.bits == Number(last[104..108])
    requires before.None? <==> previous.None?
    requires before.Some? ==> previous.value.timestamp == Number(before.value[100..104])
    ensures forall target: nat :: TargetAfter(rules, before, last, target) <==> target == NextTarget(rules.divide, previous, Some(current))
  {
    var k := NextTargetIs(rules.divide, previous, current);
    forall target: nat
      ensures TargetAfter(rules, before, last, target) <==> target == NextTarget(rules.divide, previous, Some(current))
    {
      if TargetAfter(rules, before, last, target) {
        var m: nat :| && ScalesBy(if before.None? then 0 else Number(last[100..104]) - Number(before.value[100..104]), m)
                      && target == Min(MAX_TARGET, rules.divide(Multiply(Compact.FromCompact(Number(last[104..108])), m), 150));
        ScalesMonotone(Elapsed(previous, current), k, Elapsed(previous, current), m);
      }
    }
  }

  /**
   Which headers pass: the genesis one first, and after it those that name their predecessor's
   hash and, with difficulty checks, carry the target set by the last two and have the work for it.
   */
  lemma ValidExactly(rules: Rules, chain: seq<Raw>, i: nat)
    requires i < |chain|
    ensures ValidAt(CheckerOf(rules), chain, i) <==>
              LinkAt(rules, chain, i) && (i > 0 && rules.difficulty ==> Works(rules, chain, i))
  {
    if i > 0 {
      var target := Unfolded(rules, chain, i);
      WorksIs(rules, chain, i, BeforeLast(chain, i), DeserializeHeader(i - 1, chain[i - 1]));
      NamesAgree(chain[i][4..36], rules.doubleSha(chain[i - 1]));
    }
  }

  lemma Unfolded(rules: Rules, chain: seq<Raw>, i: nat) returns (target: nat)
    requires 0 < i < |chain|
    ensures target == NextTarget(rules.divide, BeforeLast(chain, i), Some(DeserializeHeader(i - 1, chain[i - 1])))
    ensures ValidAt(CheckerOf(rules), chain, i) <==>
              && DeserializeHeader(i, chain[i]).prevBlockHash == HashHeader(rules, chain[i - 1])
              && (rules.difficulty ==>
                    && Compact.CalculateCompact(target, false) == Some(DeserializeHeader(i, chain[i]).bits)
                    && rules.powHash(HashHeader(rules, chain[i])) <= target)
  {
    var c := CheckerOf(rules);
    target := c.next(At(c, 0, chain, i - 2), At(c, 0, chain, i - 1));
    assert ValidAt(c, chain, i)
        == HeaderOk(rules, HashHeader(rules, chain[i]), DeserializeHeader(0 + i, chain[i]), PreviousHash(c, chain, i), target);
  }

  function BeforeLast(chain: seq<Raw>, i: nat): Option<Header>
    requires 0 < i < |chain|
  {
    if i == 1 then None else Some(DeserializeHeader(i - 2, chain[i - 2]))
  }

  lemma WorksIs(rules: Rules, chain: seq<Raw>, i: nat, before: Option<Header>, last: Header)
    requires 0 < i < |chain| && before == BeforeLast(chain, i) && last == DeserializeHeader(i - 1, chain[i - 1])
    ensures Works(rules, chain, i) <==>
              var target := NextTarget(rules.divide, before, Some(last));
              && Compact.CalculateCompact(target, false) == Some(DeserializeHeader(i, chain[i]).bits)
              && rules.powHash(HashHeader(rules, chain[i])) <= target
  {
    HeaderLayout(i, chain[i]);
    HeaderLayout(i - 1, chain[i - 1]);
    if i > 1 {
      HeaderLayout(i - 2, chain[i - 2]);
    }
    TargetIs(rules, if i == 1 then None else Some(chain[i - 2]), chain[i - 1], before, last);
  }

  lemma NamesAgree(a: bytes, b: bytes)
    ensures Name(a) == Name(b) <==> a == b
  {
    if Name(a) == Name(b) {
      NameInjective(a, b);
    }
  }

  /** Header i of a list of headers is in order. */
  ghost predicate InOrder(rules: Rules, chain: seq<Raw>, i: nat)
    requires i < |chain|
  {
    LinkAt(rules, chain, i) && (i > 0 && rules.difficulty ==> Works(rules, chain, i))
  }

  lemma ValidInExactly(rules: Rules, base: int, chain: seq<Raw>, i: nat)
    requires i < |chain|
    ensures ValidIn(CheckerOf(rules), base, chain, i) <==> InOrder(rules, chain, i)
  {
    HeightIrrelevant(rules, base, chain, i, 0, chain, i);
    ValidExactly(rules, chain, i);
  }

  lemma PassesExactly(rules: Rules, stored: seq<Raw>, start: int, added: seq<Raw>)
    requires start <= |stored|
    ensures var joined := Joined(stored, start, added);
            Passes(CheckerOf(rules), stored, start, added) <==>
              forall i: nat :: From(start) <= i < |joined| ==> InOrder(rules, joined, i)
  {
    var c, joined := CheckerOf(rules), Joined(stored, start, added);
    PassesIn(c, stored, start, added);
    forall i: nat | i < |joined|
      ensures ValidIn(c, Lowest(start), joined, i) <==> InOrder(rules, joined, i)
    {
      ValidInExactly(rules, Lowest(start), joined, i);
    }
  }

  /**
   What connect does, at any height: it stores a chunk of whole headers that starts no higher
   than the size exactly when every one of its headers is in order behind those before it.
   */
  lemma ConnectExactly(rules: Rules, held: Held, start: int, headers: bytes)
    requires held.size <= |held.stored|
    ensures |headers| % 112 != 0 ==> Connected(CheckerOf(rules), held, start, headers) == (Misaligned, held)
    ensures |headers| % 112 == 0 && start > held.size ==>
              Connected(CheckerOf(rules), held, start, headers) == (NoSuchHeight, held)
    ensures |headers| % 112 == 0 && start <= held.size ==>
              var joined := Joined(held.stored, start, Split(headers));
              Connected(CheckerOf(rules), held, start, headers) ==
                if forall i: nat :: From(start) <= i < |joined| ==> InOrder(rules, joined, i)
                then (Added(|headers| / 112),
                      Held(Spliced(held.stored, start, Split(headers)), Max(held.size, start + |headers| / 112)))
                else (Added(0), held)
  {
    if |headers| % HEADER_SIZE == 0 && start <= held.size {
      PassesExactly(rules, held.stored, start, Split(headers));
    }
  }

  /** After any connects that append or reach the tip, with difficulty checks, every header behind genesis has its work. */
  lemma RunHasWork(rules: Rules, calls: seq<Call>, i: nat)
    requires rules.difficulty && ReachTip(CheckerOf(rules), calls) && 0 < i < |After(CheckerOf(rules), calls).stored|
    ensures Works(rules, After(CheckerOf(rules), calls).stored, i)
  {
    RunStaysValid(CheckerOf(rules), calls);
    var chain := After(CheckerOf(rules), calls).stored;
    assert ValidAt(CheckerOf(rules), chain, i);
    ValidExactly(rules, chain, i);
  }

  /** With no two stored headers sharing a hash, the tip alone determines a linked chain of its length. */
  lemma {:induction false} TipDetermines(rules: Rules, a: seq<Raw>, b: seq<Raw>)
    requires Linked(rules, a) && Linked(rules, b) && |a| == |b| > 0 && a[|a| - 1] == b[|b| - 1]
    requires forall x, y :: x in a && y in b && rules.doubleSha(x) == rules.doubleSha(y) ==> x == y
    ensures a == b
  {
    var n := |a| - 1;
    if n > 0 {
      assert LinkAt(rules, a, n) && LinkAt(rules, b, n);
      assert a[n - 1] in a && b[n - 1] in b;
      LinkedPrefix(rules, a, n);
      LinkedPrefix(rules, b, n);
      TipDetermines(rules, a[..n], b[..n]);
    }
    assert a == a[..n] + [a[n]] && b == b[..n] + [b[n]];
  }

  lemma LinkedPrefix(rules: Rules, chain: seq<Raw>, n: nat)
    requires Linked(rules, chain) && n <= |chain|
    ensures Linked(rules, chain[..n])
  {
    forall i: nat | i < n
      ensures LinkAt(rules, chain[..n], i)
    {
      assert LinkAt(rules, chain, i);
    }
  }
}
