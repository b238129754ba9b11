/** HeaderChain of compat/headers_oracle.py: validation, writing and connecting of header chunks. */
module HeaderChain {
  import opened Base
  import opened Headers
  import Compact

  type Raw = s: bytes | |s| == HEADER_SIZE witness seq(HEADER_SIZE, _ => 0)

  /** Hash functions and the rounding division are parameters; `difficulty` is validate_difficulty. */
  datatype Rules = Rules(
    doubleSha: bytes -> bytes,
    powHash: bytes -> nat,
    divide: (nat, nat) -> nat,
    difficulty: bool)

  function HashHeader(rules: Rules, raw: bytes): bytes {
    Name(rules.doubleSha(raw))
  }

  /** validate_header does not raise. */
  predicate HeaderOk(rules: Rules, hash: bytes, header: Header, previousHash: Option<bytes>, target: nat) {
    match previousHash
    case None => hash == Ascii(GENESIS_HASH)
    case Some(previous) =>
      && header.prevBlockHash == previous
      && (rules.difficulty ==>
            Compact.CalculateCompact(target, false) == Some(header.bits) && rules.powHash(hash) <= target)
  }

  /** What the validating loop calls: deserialize_header, hash_header, next_block_target and validate_header. */
  datatype Checker = Checker(
    parse: (int, Raw) -> Header,
    hash: Raw -> bytes,
    next: (Option<Header>, Option<Header>) -> nat,
    ok: (bytes, Header, Option<bytes>, nat) -> bool)

  function CheckerOf(rules: Rules): Checker {
    Checker(
      (height: int, raw: Raw) => DeserializeHeader(height, raw),
      (raw: Raw) => HashHeader(rules, raw),
      (previous: Option<Header>, current: Option<Header>) => NextTarget(rules.divide, previous, current),
      (hash: bytes, header: Header, previousHash: Option<bytes>, target: nat) =>
        HeaderOk(rules, hash, header, previousHash, target))
  }

  /** The header at i of a list whose first header has height `base`. */
  function At(c: Checker, base: int, chain: seq<Raw>, i: int): Option<Header>
    requires i < |chain|
  {
    if i < 0 then None else Some(c.parse(base + i, chain[i]))
  }

  function PreviousHash(c: Checker, chain: seq<Raw>, i: nat): Option<bytes>
    requires i <= |chain|
  {
    if i == 0 then None else Some(c.hash(chain[i - 1]))
  }

  /** The header at i passes, given its predecessor's hash and the target the two headers before it set. */
  predicate ValidIn(c: Checker, base: int, chain: seq<Raw>, i: nat)
    requires i < |chain|
  {
    c.ok(c.hash(chain[i]), c.parse(base + i, chain[i]), PreviousHash(c, chain, i),
         c.next(At(c, base, chain, i - 2), At(c, base, chain, i - 1)))
  }

  /** Likewise in a chain that starts at height 0. */
  predicate ValidAt(c: Checker, chain: seq<Raw>, i: nat)
    requires i < |chain|
  {
    ValidIn(c, 0, chain, i)
  }

  predicate ValidFrom(c: Checker, chain: seq<Raw>, from: nat) {
    forall i: nat :: from <= i < |chain| ==> ValidAt(c, chain, i)
  }

  predicate AllValidIn(c: Checker, base: int, chain: seq<Raw>, from: nat) {
    forall i: nat :: from <= i < |chain| ==> ValidIn(c, base, chain, i)
  }

  lemma ValidFromZero(c: Checker, chain: seq<Raw>, from: nat)
    ensures AllValidIn(c, 0, chain, from) <==> ValidFrom(c, chain, from)
  {
    if ValidFrom(c, chain, from) {
      forall i: nat | from <= i < |chain|
        ensures ValidIn(c, 0, chain, i)
      {
        assert ValidAt(c, chain, i);
      }
    }
  }

  predicate ChainValid(c: Checker, chain: seq<Raw>) {
    ValidFrom(c, chain, 0)
  }

  // ---------------------------------------------------------------- stored octets

  function Cut(data: bytes, i: nat): Raw
    requires HEADER_SIZE * (i + 1) <= |data|
  {
    data[HEADER_SIZE * i..HEADER_SIZE * i + HEADER_SIZE]
  }

  function Split(data: bytes): (r: seq<Raw>)
    requires |data| % HEADER_SIZE == 0
    ensures |r| == |data| / HEADER_SIZE
    ensures forall i :: 0 <= i < |r| ==> r[i] == Cut(data, i)
  {
    seq(|data| / HEADER_SIZE, i requires 0 <= i < |data| / HEADER_SIZE => Cut(data, i))
  }

  lemma CutJoin(a: bytes, b: bytes, i: nat)
    requires |a| % HEADER_SIZE == 0 && |b| % HEADER_SIZE == 0 && HEADER_SIZE * (i + 1) <= |a + b|
    ensures i < |a| / HEADER_SIZE ==> Cut(a + b, i) == Cut(a, i)
    ensures i >= |a| / HEADER_SIZE ==> Cut(a + b, i) == Cut(b, i - |a| / HEADER_SIZE)
  {
  }

  lemma SplitJoin(a: bytes, b: bytes)
    requires |a| % HEADER_SIZE == 0 && |b| % HEADER_SIZE == 0
    ensures Split(a + b) == Split(a) + Split(b)
  {
    forall i | 0 <= i < |a + b| / HEADER_SIZE
      ensures Split(a + b)[i] == (Split(a) + Split(b))[i]
    {
      CutJoin(a, b, i);
    }
  }

  lemma SplitSlices(data: bytes, n: nat)
    requires |data| % HEADER_SIZE == 0 && HEADER_SIZE * n <= |data|
    ensures Split(data[..HEADER_SIZE * n]) == Split(data)[..n]
    ensures Split(data[HEADER_SIZE * n..]) == Split(data)[n..]
  {
    SplitJoin(data[..HEADER_SIZE * n], data[HEADER_SIZE * n..]);
    assert data == data[..HEADER_SIZE * n] + data[HEADER_SIZE * n..];
  }

  /** A chain that must hold at least n headers gets blank ones. */
  function Padded(chain: seq<Raw>, n: int): (r: seq<Raw>)
    ensures |r| == Max(|chain|, n)
  {
    if n <= |chain| then chain else chain + seq(n - |chain|, _ => BLANK)
  }

  const BLANK: Raw := seq(HEADER_SIZE, _ => 0)

  /** `added` in place of whatever stood at `start` and after it for as long as it goes. */
  function Overwritten(chain: seq<Raw>, start: nat, added: seq<Raw>): (r: seq<Raw>)
    ensures |r| == if start + |added| > |chain| then start + |added| else |chain|
  {
    var room := Padded(chain, start + |added|);
    room[..start] + added + room[start + |added|..]
  }

  /** A slice bound as Python reads it: negative ones count from the end. */
  function Clip(bound: int, length: nat): (r: nat)
    ensures r <= length
  {
    if bound < 0 then Max(0, length + bound) else Min(bound, length)
  }

  /** A slice assignment at any height, after blanks have been appended as far as its end. */
  function Spliced(chain: seq<Raw>, start: int, added: seq<Raw>): seq<Raw> {
    var end := start + |added|;
    var room := Padded(chain, end);
    var low := Clip(start, |room|);
    room[..low] + added + room[Max(low, Clip(end, |room|))..]
  }

  /** Nothing is lost by it, and it reaches as far as its end. */
  lemma SplicedLength(chain: seq<Raw>, start: int, added: seq<Raw>)
    requires start <= |chain|
    ensures |Spliced(chain, start, added)| >= Max(|chain|, start + |added|)
  {
  }

  lemma SplicedFromZero(chain: seq<Raw>, start: nat, added: seq<Raw>)
    requires start <= |chain|
    ensures Spliced(chain, start, added) == Overwritten(chain, start, added)
  {
  }

  lemma SplicedByNothing(chain: seq<Raw>, start: int)
    requires start <= |chain|
    ensures Spliced(chain, start, []) == chain
  {
  }

  /** bytearray.extend with zeros, up to a length. */
  function Extend(data: bytes, length: int): (r: bytes)
    ensures |r| == (if length > |data| then length else |data|) && r[..|data|] == data
    ensures forall j :: |data| <= j < |r| ==> r[j] == 0
  {
    if length > |data| then data + seq(length - |data|, _ => 0) else data
  }

  lemma BlankCuts(more: bytes, i: nat)
    requires HEADER_SIZE * (i + 1) <= |more| && forall j :: 0 <= j < |more| ==> more[j] == 0
    ensures Cut(more, i) == BLANK
  {
  }

  lemma PaddedSplit(data: bytes, n: int)
    requires |data| % HEADER_SIZE == 0
    ensures |Extend(data, HEADER_SIZE * n)| % HEADER_SIZE == 0
    ensures Split(Extend(data, HEADER_SIZE * n)) == Padded(Split(data), n)
  {
    if HEADER_SIZE * n > |data| {
      var more: bytes := seq(HEADER_SIZE * n - |data|, _ => 0);
      SplitJoin(data, more);
      forall i | 0 <= i < |more| / HEADER_SIZE
        ensures Cut(more, i) == BLANK
      {
        BlankCuts(more, i);
      }
      assert Split(more) == seq(n - |data| / HEADER_SIZE, _ => BLANK);
    }
  }

  /** What write leaves in `data`, for any height and any octets. */
  function Written(data: bytes, start: int, headers: bytes): bytes {
    var offset := HEADER_SIZE * start;
    var end := offset + |headers|;
    var room := Extend(Extend(data, offset), end);
    var low := Clip(offset, |room|);
    room[..low] + headers + room[Max(low, Clip(end, |room|))..]
  }

  /** Cutting whole headers out of whole headers and putting whole headers in between. */
  lemma SplicedSplit(room: bytes, low: nat, high: nat, headers: bytes)
    requires |room| % HEADER_SIZE == 0 && |headers| % HEADER_SIZE == 0 && low <= high && HEADER_SIZE * high <= |room|
    ensures |room[..HEADER_SIZE * low] + headers + room[HEADER_SIZE * high..]| % HEADER_SIZE == 0
    ensures Split(room[..HEADER_SIZE * low] + headers + room[HEADER_SIZE * high..])
         == Split(room)[..low] + Split(headers) + Split(room)[high..]
  {
    SplitSlices(room, low);
    SplitSlices(room, high);
    SplitJoin(room[..HEADER_SIZE * low], headers);
    SplitJoin(room[..HEADER_SIZE * low] + headers, room[HEADER_SIZE * high..]);
  }

  lemma ClipScales(bound: int, count: nat)
    ensures Clip(HEADER_SIZE * bound, HEADER_SIZE * count) == HEADER_SIZE * Clip(bound, count)
  {
  }

  lemma SplicedFromRoom(chain: seq<Raw>, start: int, added: seq<Raw>, end: int, room: seq<Raw>, low: nat, high: nat)
    requires end == start + |added| && room == Padded(chain, end)
    requires low == Clip(start, |room|) && high == Max(low, Clip(end, |room|))
    ensures Spliced(chain, start, added) == room[..low] + added + room[high..]
  {
  }

  /** The octets write leaves, with the slice bounds counted in headers. */
  lemma WrittenBounds(data: bytes, start: int, headers: bytes, end: int, room: bytes, low: nat, high: nat)
    requires |headers| % HEADER_SIZE == 0 && end == start + |headers| / HEADER_SIZE
    requires room == Extend(data, HEADER_SIZE * end) && |room| % HEADER_SIZE == 0
    requires low == Clip(start, |room| / HEADER_SIZE) && high == Max(low, Clip(end, |room| / HEADER_SIZE))
    ensures HEADER_SIZE * high <= |room|
    ensures Written(data, start, headers) == room[..HEADER_SIZE * low] + headers + room[HEADER_SIZE * high..]
  {
    ClipScales(start, |room| / HEADER_SIZE);
    ClipScales(end, |room| / HEADER_SIZE);
    WrittenRoom(data, start, headers, end, room);
  }

  /** On whole headers, write is the slice assignment on headers, at any height. */
  lemma WrittenSplices(data: bytes, start: int, headers: bytes)
    requires |data| % HEADER_SIZE == 0 && |headers| % HEADER_SIZE == 0
    ensures |Written(data, start, headers)| % HEADER_SIZE == 0
    ensures Split(Written(data, start, headers)) == Spliced(Split(data), start, Split(headers))
  {
    var end := start + |headers| / HEADER_SIZE;
    var room := Extend(data, HEADER_SIZE * end);
    PaddedSplit(data, end);
    var count := |room| / HEADER_SIZE;
    var low := Clip(start, count);
    var high := Max(low, Clip(end, count));
    WrittenBounds(data, start, headers, end, room, low, high);
    SplicedSplit(room, low, high, headers);
    SplicedFromRoom(Split(data), start, Split(headers), end, Split(room), low, high);
  }

  lemma WrittenRoom(data: bytes, start: int, headers: bytes, end: int, room: bytes)
    requires |headers| % HEADER_SIZE == 0 && end == start + |headers| / HEADER_SIZE && room == Extend(data, HEADER_SIZE * end)
    ensures var low := Clip(HEADER_SIZE * start, |room|);
            Written(data, start, headers) == room[..low] + headers + room[Max(low, Clip(HEADER_SIZE * end, |room|))..]
  {
    assert HEADER_SIZE * end == HEADER_SIZE * start + |headers|;
    assert Extend(Extend(data, HEADER_SIZE * start), HEADER_SIZE * end) == room;
  }

  lemma WriteKeeps(data: bytes, size: nat, start: int, headers: bytes, end: int)
    requires |data| % HEADER_SIZE == 0 && HEADER_SIZE * size <= |data| && |headers| % HEADER_SIZE == 0 && start <= size
    requires end == HEADER_SIZE * start + |headers|
    ensures end / HEADER_SIZE == start + |headers| / HEADER_SIZE
    ensures |Written(data, start, headers)| % HEADER_SIZE == 0
    ensures HEADER_SIZE * Max(size, end / HEADER_SIZE) <= |Written(data, start, headers)|
    ensures Split(Written(data, start, headers)) == Spliced(Split(data), start, Split(headers))
  {
    assert end == HEADER_SIZE * (start + |headers| / HEADER_SIZE);
    WrittenSplices(data, start, headers);
    SplicedLength(Split(data), start, Split(headers));
  }

  // ---------------------------------------------------------------- the object

  datatype Checked = OutOfBounds | Invalid | Accepted
  datatype Outcome = Misaligned | NoSuchHeight | Added(count: nat)

  /** All headers in the array and how many of them count; a negative start can leave more than that. */
  datatype Held = Held(stored: seq<Raw>, size: nat)

  const EMPTY := Held([], 0)

  /** validate_chunk from height 0 up, against what precedes `start`. */
  predicate Accepts(c: Checker, chain: seq<Raw>, start: nat, added: seq<Raw>)
    requires start <= |chain|
  {
    ValidFrom(c, chain[..start] + added, start)
  }

  /** validate_chunk below height 0: nothing precedes. */
  predicate AcceptsBelow(c: Checker, start: int, added: seq<Raw>) {
    AllValidIn(c, start, added, 0)
  }

  predicate Passes(c: Checker, stored: seq<Raw>, start: int, added: seq<Raw>)
    requires start <= |stored|
  {
    if start >= 0 then Accepts(c, stored, start, added) else AcceptsBelow(c, start, added)
  }

  /** What connect returns and leaves behind, at any height and in step or not. */
  function Connected(c: Checker, held: Held, start: int, headers: bytes): (Outcome, Held)
    requires held.size <= |held.stored|
  {
    if |headers| % HEADER_SIZE != 0 then (Misaligned, held)
    else if start > held.size then (NoSuchHeight, held)
    else
      var added := Split(headers);
      if Passes(c, held.stored, start, added) then
        (Added(|added|), Held(Spliced(held.stored, start, added), Max(held.size, start + |added|)))
      else (Added(0), held)
  }

  lemma ConnectedHeld(c: Checker, held: Held, start: int, headers: bytes)
    requires held.size <= |held.stored|
    ensures var after := Connected(c, held, start, headers).1; after.size <= |after.stored|
  {
    if |headers| % HEADER_SIZE == 0 && start <= held.size {
      SplicedLength(held.stored, start, Split(headers));
    }
  }

  /** The byte array after write: zero-filled as far as needed, then a slice assignment. */
  method Splice(data: bytes, start: int, headers: bytes) returns (r: bytes)
    ensures r == Written(data, start, headers)
  {
    var offset := HEADER_SIZE * start;
    var end := offset + |headers|;
    r := data;
    if offset > |r| {
      r := r + seq(offset - |r|, _ => 0);
    }
    if end > |r| {
      r := r + seq(end - |r|, _ => 0);
    }
    var low := Clip(offset, |r|);
    r := r[..low] + headers + r[Max(low, Clip(end, |r|))..];
  }

  /** The loop of validate_chunk: each header against the two before it, stored or just passed. */
  method CheckChunk(c: Checker, base: int, from: nat, headers: bytes, ghost joined: seq<Raw>,
                    hash0: Option<bytes>, previous0: Option<Header>, beforePrevious0: Option<Header>)
    returns (ok: bool)
    requires |headers| % HEADER_SIZE == 0 && |joined| == from + |headers| / HEADER_SIZE
    requires joined[from..] == Split(headers)
    requires hash0 == PreviousHash(c, joined, from)
    requires previous0 == At(c, base, joined, from - 1) && beforePrevious0 == At(c, base, joined, from - 2)
    ensures ok <==> AllValidIn(c, base, joined, from)
  {
    var previousHash, previous, beforePrevious := hash0, previous0, beforePrevious0;
    var index, height := 0, base + from;
    ghost var at: int := from;
    while index < |headers| / HEADER_SIZE
      invariant 0 <= index <= |headers| / HEADER_SIZE && at == from + index && height == base + at
      invariant previousHash == PreviousHash(c, joined, at)
      invariant previous == At(c, base, joined, at - 1) && beforePrevious == At(c, base, joined, at - 2)
      invariant forall i: nat :: from <= i < at ==> ValidIn(c, base, joined, i)
    {
      var raw := Cut(headers, index);
      assert raw == joined[from..][index] == joined[at];
      var current, hash := c.parse(height, raw), c.hash(raw);
      var target := c.next(beforePrevious, previous);
      assert ValidIn(c, base, joined, at) == c.ok(hash, current, previousHash, target);
      if !c.ok(hash, current, previousHash, target) {
        return false;
      }
      beforePrevious, previous, previousHash := previous, Some(current), Some(hash);
      index, height, at := index + 1, height + 1, at + 1;
    }
    return true;
  }

  class Chain {
    var data: bytes
    var size: nat
    const c: Checker

    /** The octets are whole headers, at least `size` of them. */
    ghost predicate Valid()
      reads this
    {
      |data| % HEADER_SIZE == 0 && HEADER_SIZE * size <= |data|
    }

    ghost function Holds(): (r: Held)
      requires Valid()
      reads this
      ensures r.size == size <= |r.stored|
    {
      Held(Split(data), size)
    }

    /** The headers that count. */
    ghost function Contents(): seq<Raw>
      requires Valid()
      reads this
    {
      Holds().stored[..size]
    }

    constructor (initial: bytes, rules: Rules)
      requires |initial| % HEADER_SIZE == 0
      ensures Valid() && Contents() == Split(initial) == Holds().stored && c == CheckerOf(rules)
    {
      data, size, c := initial, |initial| / HEADER_SIZE, CheckerOf(rules);
    }

    method Read(height: int) returns (r: Option<Raw>)
      requires Valid()
      ensures r == if 0 <= height < |Contents()| then Some(Contents()[height]) else None
    {
      if !(0 <= height < size) {
        return None;
      }
      return Some(data[HEADER_SIZE * height..HEADER_SIZE * height + HEADER_SIZE]);
    }

    /** Any octets at any height; whole headers are spliced into whole headers. */
    method Write(start: int, headers: bytes) returns (count: nat)
      modifies this`data, this`size
      ensures count == |headers| / HEADER_SIZE && data == Written(old(data), start, headers)
      ensures size == Max(old(size), (HEADER_SIZE * start + |headers|) / HEADER_SIZE)
      ensures old(Valid()) && |headers| % HEADER_SIZE == 0 && start <= old(size) ==>
                && Valid() && size == Max(old(size), start + count)
                && Holds().stored == Spliced(old(Holds()).stored, start, Split(headers))
    {
      var end := HEADER_SIZE * start + |headers|;
      if |data| % HEADER_SIZE == 0 && HEADER_SIZE * size <= |data| && |headers| % HEADER_SIZE == 0 && start <= size {
        WriteKeeps(data, size, start, headers, end);
      }
      data := Splice(data, start, headers);
      size := Max(size, end / HEADER_SIZE);
      return |headers| / HEADER_SIZE;
    }

    method ValidateChunk(start: int, headers: bytes) returns (r: Checked)
      requires Valid() && |headers| % HEADER_SIZE == 0
      ensures r.OutOfBounds? <==> start > size
      ensures r.Accepted? <==> start <= size && Passes(c, Holds().stored, start, Split(headers))
    {
      var previousHash: Option<bytes>, previous: Option<Header>, beforePrevious: Option<Header> := None, None, None;
      if start > 0 {
        var raw := Read(start - 1);
        if raw.None? {
          return OutOfBounds;
        }
        previous := Some(c.parse(start - 1, raw.value));
        previousHash := Some(c.hash(raw.value));
      }
      if start > 1 {
        var raw := Read(start - 2);
        if raw.None? {
          return OutOfBounds;
        }
        beforePrevious := Some(c.parse(start - 2, raw.value));
      }
      var ok;
      if start < 0 {
        assert Split(headers)[0..] == Split(headers);
        ok := CheckChunk(c, start, 0, headers, Split(headers), previousHash, previous, beforePrevious);
      } else {
        ghost var joined := Holds().stored[..start] + Split(headers);
        assert joined[start..] == Split(headers) && joined[..start] == Holds().stored[..start];
        ok := CheckChunk(c, 0, start, headers, joined, previousHash, previous, beforePrevious);
        ValidFromZero(c, joined, start);
      }
      return if ok then Accepted else Invalid;
    }

    /** All of a chunk is stored or none of it, at any height and whatever earlier calls left. */
    method Connect(start: int, headers: bytes) returns (r: Outcome)
      requires Valid()
      modifies this`data, this`size
      ensures Valid() && (r, Holds()) == Connected(c, old(Holds()), start, headers)
    {
      if |headers| % HEADER_SIZE != 0 {
        return Misaligned;
      }
      var checked := ValidateChunk(start, headers);
      if checked.OutOfBounds? {
        return NoSuchHeight;
      }
      var kept := if checked.Accepted? then headers else headers[..0];
      if kept == [] {
        SplicedByNothing(Holds().stored, start);
        assert headers == [] ==> Split(headers) == [];
        return Added(0);
      }
      var count := Write(start, kept);
      return Added(count);
    }
  }

  // ---------------------------------------------------------------- below height 0

  /**
   A negative start is validated as if the chunk began a chain, and then written through a
   Python slice. A chain whose headers all count stays one exactly when the slice lies inside
   it, counted from its end, and stops short of the end.
   */
  lemma NegativeStart(chain: seq<Raw>, start: int, added: seq<Raw>)
    requires start < 0 && added != []
    ensures |Spliced(chain, start, added)| == Max(|chain|, start + |added|)
            <==> |chain| + start >= 0 && start + |added| < 0
  {
  }
}
