/** ReadStream of blob/manager.go and the streaming walks of blob/reader.go. */
module StreamReader {
  import opened Base
  import opened Cipher
  import opened Descriptor
  import opened Validation
  import opened BlobStore
  import opened BlobManager

  // ---------------------------------------------------------------- reading at once

  function DecryptFrom(c: BlockCipher, store: map<bytes, bytes>, key: bytes, info: BlobInfo): Option<bytes>
    requires Lawful(c)
  {
    if info.hash !in store then None else DecryptBlob(c, store[info.hash], key, info.iv)
  }

  /** The decrypted blobs in order, or None as soon as one is missing or does not decrypt. */
  function DecryptAll(c: BlockCipher, store: map<bytes, bytes>, key: bytes, infos: seq<BlobInfo>): Option<seq<bytes>>
    requires Lawful(c)
  {
    if infos == [] then Some([])
    else
      var before := DecryptAll(c, store, key, infos[..|infos| - 1]);
      var last := DecryptFrom(c, store, key, infos[|infos| - 1]);
      if before.None? || last.None? then None else Some(before.value + [last.value])
  }

  function ReadStreamSpec(c: BlockCipher, sha: bytes -> bytes, unmarshal: bytes -> Option<StreamDescriptor>,
                          store: map<bytes, bytes>, sdHash: bytes): Option<(StreamDescriptor, bytes)>
    requires Lawful(c)
  {
    if sdHash !in store then None
    else match DecodeDescriptor(sha, unmarshal, sdHash, store[sdHash])
      case None => None
      case Some(d) =>
        match DecryptAll(c, store, d.key, Content(d.blobs))
        case None => None
        case Some(parts) => Some((d, Concat(parts)))
  }

  lemma DecryptAllStep(c: BlockCipher, store: map<bytes, bytes>, key: bytes, infos: seq<BlobInfo>, i: nat)
    requires Lawful(c) && i < |infos|
    ensures DecryptAll(c, store, key, infos[..i + 1])
            == var before := DecryptAll(c, store, key, infos[..i]);
               var last := DecryptFrom(c, store, key, infos[i]);
               if before.None? || last.None? then None else Some(before.value + [last.value])
  {
    assert infos[..i + 1][..i] == infos[..i];
  }

  lemma {:induction false} DecryptAllPrefix(c: BlockCipher, store: map<bytes, bytes>, key: bytes, infos: seq<BlobInfo>, i: nat)
    requires Lawful(c) && i <= |infos| && DecryptAll(c, store, key, infos[..i]).None?
    ensures DecryptAll(c, store, key, infos).None?
    decreases |infos| - i
  {
    if i == |infos| {
      assert infos[..i] == infos;
    } else {
      DecryptAllStep(c, store, key, infos, i);
      DecryptAllPrefix(c, store, key, infos, i + 1);
    }
  }

  /** Every entry has its blob in the store, which decrypts to its part. */
  ghost predicate DecryptsTo(c: BlockCipher, store: map<bytes, bytes>, key: bytes, infos: seq<BlobInfo>, parts: seq<bytes>)
    requires Lawful(c)
  {
    |parts| == |infos| && forall i :: 0 <= i < |infos| ==> DecryptFrom(c, store, key, infos[i]) == Some(parts[i])
  }

  lemma {:induction false} DecryptAllSound(c: BlockCipher, store: map<bytes, bytes>, key: bytes, infos: seq<BlobInfo>)
    requires Lawful(c) && DecryptAll(c, store, key, infos).Some?
    ensures DecryptsTo(c, store, key, infos, DecryptAll(c, store, key, infos).value)
    decreases |infos|
  {
    if infos != [] {
      var n := |infos| - 1;
      DecryptAllSound(c, store, key, infos[..n]);
      DecryptsToSnoc(c, store, key, infos[..n], DecryptAll(c, store, key, infos[..n]).value,
                     infos[n], DecryptFrom(c, store, key, infos[n]).value);
      assert infos == infos[..n] + [infos[n]];
    }
  }

  lemma DecryptsToSnoc(c: BlockCipher, store: map<bytes, bytes>, key: bytes, infos: seq<BlobInfo>, parts: seq<bytes>,
                       info: BlobInfo, part: bytes)
    requires Lawful(c) && DecryptsTo(c, store, key, infos, parts) && DecryptFrom(c, store, key, info) == Some(part)
    ensures DecryptsTo(c, store, key, infos + [info], parts + [part])
  {
  }

  lemma {:induction false} DecryptAllComplete(
    c: BlockCipher, store: map<bytes, bytes>, key: bytes, infos: seq<BlobInfo>, parts: seq<bytes>)
    requires Lawful(c) && DecryptsTo(c, store, key, infos, parts)
    ensures DecryptAll(c, store, key, infos) == Some(parts)
    decreases |infos|
  {
    if infos != [] {
      var n := |infos| - 1;
      DecryptAllComplete(c, store, key, infos[..n], parts[..n]);
      assert parts == parts[..n] + [parts[n]];
    }
  }

  ghost predicate Concatenates(c: BlockCipher, store: map<bytes, bytes>, key: bytes, infos: seq<BlobInfo>, content: bytes)
    requires Lawful(c)
  {
    exists parts: seq<bytes> :: DecryptsTo(c, store, key, infos, parts) && content == Concat(parts)
  }

  lemma PartsExactly(c: BlockCipher, store: map<bytes, bytes>, key: bytes, infos: seq<BlobInfo>, content: bytes)
    requires Lawful(c)
    ensures Concatenates(c, store, key, infos, content) <==>
              var all := DecryptAll(c, store, key, infos); all.Some? && Concat(all.value) == content
  {
    if DecryptAll(c, store, key, infos).Some? {
      DecryptAllSound(c, store, key, infos);
    }
    if Concatenates(c, store, key, infos, content) {
      var parts: seq<bytes> :| DecryptsTo(c, store, key, infos, parts) && content == Concat(parts);
      DecryptAllComplete(c, store, key, infos, parts);
    }
  }

  /**
   ReadStream answers with a descriptor and a content exactly when the store holds the descriptor and
   every blob it lists, and the content is their decryptions in order.
   */
  lemma ReadsExactly(c: BlockCipher, sha: bytes -> bytes, unmarshal: bytes -> Option<StreamDescriptor>,
                     store: map<bytes, bytes>, sdHash: bytes, d: StreamDescriptor, content: bytes)
    requires Lawful(c)
    ensures ReadStreamSpec(c, sha, unmarshal, store, sdHash) == Some((d, content)) <==>
              && sdHash in store && DecodeDescriptor(sha, unmarshal, sdHash, store[sdHash]) == Some(d) && d.blobs != []
              && Concatenates(c, store, d.key, d.blobs[..|d.blobs| - 1], content)
  {
    if sdHash in store && DecodeDescriptor(sha, unmarshal, sdHash, store[sdHash]) == Some(d) {
      DecodesExactly(sha, unmarshal, sdHash, store[sdHash], d);
      ContentIsAllButTerminator(d);
      PartsExactly(c, store, d.key, Content(d.blobs), content);
    }
  }

  /** ReadStream over the store a quiescent manager holds. */
  method ReadStream(manager: BlobManager, c: BlockCipher, sha: bytes -> bytes,
                    unmarshal: bytes -> Option<StreamDescriptor>, sdHash: bytes)
    returns (r: Option<(StreamDescriptor, bytes)>)
    requires Lawful(c) && manager.Valid() && manager.lock == Free
    ensures r == ReadStreamSpec(c, sha, unmarshal, manager.View(), sdHash)
  {
    ghost var store := manager.View();
    var encoded := manager.Lookup(sdHash);
    if encoded.None? {
      return None;
    }
    var decoded := DecodeDescriptor(sha, unmarshal, sdHash, encoded.value);
    if decoded.None? {
      return None;
    }
    var d := decoded.value;
    var infos := ContentBlobs(d);
    var content: bytes := [];
    ghost var parts: seq<bytes> := [];
    for index := 0 to |infos|
      invariant DecryptAll(c, store, d.key, infos[..index]) == Some(parts) && content == Concat(parts)
    {
      DecryptAllStep(c, store, d.key, infos, index);
      var encrypted := manager.Lookup(infos[index].hash);
      var plain := if encrypted.None? then None else DecryptBlob(c, encrypted.value, d.key, infos[index].iv);
      if plain.None? {
        DecryptAllPrefix(c, store, d.key, infos, index + 1);
        return None;
      }
      ConcatSnoc(parts, plain.value);
      content, parts := content + plain.value, parts + [plain.value];
    }
    assert infos[..|infos|] == infos;
    return Some((d, content));
  }

  // ---------------------------------------------------------------- walking

  /**
   The outside world of a walk. Whether Ensure succeeds, what GetLocal finds and whether the
   context is live may change from one look to the next; the callback may refuse any blob.
   */
  datatype World = World(
    ensured: (bytes, nat) -> bool,
    local: (bytes, nat) -> Option<bytes>,
    accept: (BlobInfo, bytes) -> bool,
    live: nat -> bool)

  /** What a walk did: the callbacks it made, in order, and whether it returned nil. */
  datatype Trace = Trace(calls: seq<(BlobInfo, bytes)>, ok: bool)

  /** One blob: None when the walk stops before the callback. */
  function Visit(c: BlockCipher, w: World, key: bytes, info: BlobInfo, t: nat): Option<bytes>
    requires Lawful(c)
  {
    if !w.live(t) || !w.ensured(info.hash, t) then None
    else match w.local(info.hash, t)
      case None => None
      case Some(encrypted) =>
        var plain := DecryptBlob(c, encrypted, key, info.iv);
        if plain.None? || !w.live(t + 1) then None else plain
  }

  type Visitor = (BlobInfo, nat) -> Option<bytes>

  function VisitorOf(c: BlockCipher, w: World, key: bytes): Visitor
    requires Lawful(c)
  {
    (info: BlobInfo, t: nat) => Visit(c, w, key, info, t)
  }

  /** Visits the blobs in order, two looks at the context each, handing every result to the callback. */
  function Walk(visit: Visitor, accept: (BlobInfo, bytes) -> bool, infos: seq<BlobInfo>, t: nat): Trace {
    if infos == [] then Trace([], true)
    else match visit(infos[0], t)
      case None => Trace([], false)
      case Some(plain) =>
        if !accept(infos[0], plain) then Trace([(infos[0], plain)], false)
        else Prepend([(infos[0], plain)], Walk(visit, accept, infos[1..], t + 2))
  }

  function Prepend(calls: seq<(BlobInfo, bytes)>, rest: Trace): Trace {
    Trace(calls + rest.calls, rest.ok)
  }

  lemma PrependPrepend(a: seq<(BlobInfo, bytes)>, b: seq<(BlobInfo, bytes)>, rest: Trace)
    ensures Prepend(a, Prepend(b, rest)) == Prepend(a + b, rest)
  {
    assert a + (b + rest.calls) == (a + b) + rest.calls;
  }

  /** WalkStreamRange over [first, end); a rejected descriptor or range makes no callback. */
  function WalkRange(c: BlockCipher, w: World, sha: bytes -> bytes, d: StreamDescriptor, first: int, end: int, t: nat): Trace
    requires Lawful(c)
  {
    WalkWithin(VisitorOf(c, w, d.key), w.accept, Valid(sha, d), d.blobs, first, end, t)
  }

  function WalkWithin(visit: Visitor, accept: (BlobInfo, bytes) -> bool, valid: bool,
                      blobs: seq<BlobInfo>, first: int, end: int, t: nat): Trace
  {
    if !valid || first < 0 || end < first || end > |blobs| - 1 then Trace([], false)
    else Walk(visit, accept, blobs[first..end], t)
  }

  method WalkStreamRange(c: BlockCipher, w: World, sha: bytes -> bytes, d: StreamDescriptor, first: int, end: int)
    returns (trace: Trace)
    requires Lawful(c)
    ensures trace == WalkRange(c, w, sha, d, first, end, 0)
  {
    var verdict := ValidateDescriptor(sha, d);
    if verdict != Accepted {
      return Trace([], false);
    }
    if first < 0 || end < first || end > |d.blobs| - 1 {
      return Trace([], false);
    }
    trace := WalkLoop(VisitorOf(c, w, d.key), w.accept, d.blobs[first..end]);
  }

  /** The loop of WalkStreamRange. */
  method WalkLoop(visit: Visitor, accept: (BlobInfo, bytes) -> bool, infos: seq<BlobInfo>) returns (trace: Trace)
    ensures trace == Walk(visit, accept, infos, 0)
  {
    var calls, index := [], 0;
    assert infos[0..] == infos;
    while index < |infos|
      invariant 0 <= index <= |infos|
      invariant Walk(visit, accept, infos, 0) == Prepend(calls, Walk(visit, accept, infos[index..], 2 * index))
    {
      assert infos[index..][0] == infos[index] && infos[index..][1..] == infos[index + 1..];
      var info := infos[index];
      var plain := visit(info, 2 * index);
      if plain.None? {
        assert calls + [] == calls;
        return Trace(calls, false);
      }
      PrependPrepend(calls, [(info, plain.value)], Walk(visit, accept, infos[index + 1..], 2 * index + 2));
      calls := calls + [(info, plain.value)];
      if !accept(info, plain.value) {
        return Trace(calls, false);
      }
      index := index + 1;
    }
    assert infos[index..] == [] && calls + [] == calls;
    return Trace(calls, true);
  }

  /** A walk over two adjacent ranges is the first walk and, if that returned nil, the second. */
  lemma {:induction false} WalkSplit(
    visit: Visitor, accept: (BlobInfo, bytes) -> bool, a: seq<BlobInfo>, b: seq<BlobInfo>, t: nat, u: nat)
    requires u == t + 2 * |a|
    ensures Walk(visit, accept, a + b, t) ==
            var head := Walk(visit, accept, a, t);
            if head.ok then Prepend(head.calls, Walk(visit, accept, b, u)) else head
    decreases |a|
  {
    if a == [] {
      assert a + b == b;
    } else {
      assert (a + b)[0] == a[0] && (a + b)[1..] == a[1..] + b;
      WalkSplit(visit, accept, a[1..], b, t + 2, u);
      var plain := visit(a[0], t);
      if plain.Some? {
        PrependPrepend([(a[0], plain.value)], Walk(visit, accept, a[1..], t + 2).calls, Walk(visit, accept, b, u));
      }
    }
  }

  /** Splitting WalkStreamRange at any point gives the same callbacks and the same answer. */
  lemma WalkRangeSplits(c: BlockCipher, w: World, sha: bytes -> bytes, d: StreamDescriptor, first: int, mid: int, end: int, t: nat)
    requires Lawful(c) && first <= mid <= end
    ensures WalkRange(c, w, sha, d, first, end, t) ==
            var head := WalkRange(c, w, sha, d, first, mid, t);
            if head.ok && end <= |d.blobs| - 1
            then Prepend(head.calls, WalkRange(c, w, sha, d, mid, end, t + 2 * (mid - first)))
            else if end <= |d.blobs| - 1 then head
            else Trace([], false)
  {
    WithinSplits(VisitorOf(c, w, d.key), w.accept, Valid(sha, d), d.blobs, first, mid, end, t);
  }

  lemma WithinSplits(visit: Visitor, accept: (BlobInfo, bytes) -> bool, valid: bool,
                     blobs: seq<BlobInfo>, first: int, mid: int, end: int, t: nat)
    requires first <= mid <= end
    ensures WalkWithin(visit, accept, valid, blobs, first, end, t) ==
            var head := WalkWithin(visit, accept, valid, blobs, first, mid, t);
            if head.ok && end <= |blobs| - 1
            then Prepend(head.calls, WalkWithin(visit, accept, valid, blobs, mid, end, t + 2 * (mid - first)))
            else if end <= |blobs| - 1 then head
            else Trace([], false)
  {
    if valid && 0 <= first && end <= |blobs| - 1 {
      assert blobs[first..end] == blobs[first..mid] + blobs[mid..end];
      WalkSplit(visit, accept, blobs[first..mid], blobs[mid..end], t, t + 2 * (mid - first));
    }
  }

  // ---------------------------------------------------------------- what a walk does

  /** The walk gets as far as handing over `plain`: both looks at the context, Ensure, GetLocal and the decryption succeed. */
  ghost predicate Gets(c: BlockCipher, w: World, key: bytes, info: BlobInfo, t: nat, plain: bytes)
    requires Lawful(c)
  {
    && w.live(t) && w.ensured(info.hash, t) && w.live(t + 1)
    && exists encrypted: bytes :: w.local(info.hash, t) == Some(encrypted) && DecryptBlob(c, encrypted, key, info.iv) == Some(plain)
  }

  lemma VisitGets(c: BlockCipher, w: World, key: bytes, info: BlobInfo, t: nat, plain: bytes)
    requires Lawful(c)
    ensures VisitorOf(c, w, key)(info, t) == Some(plain) <==> Gets(c, w, key, info, t, plain)
  {
  }

  /** Blob i was handed over, and the walk went on only if the callback agreed. */
  ghost predicate CalledAt(visit: Visitor, accept: (BlobInfo, bytes) -> bool, infos: seq<BlobInfo>, t: nat, trace: Trace, i: nat)
    requires i < |infos| && i < |trace.calls|
  {
    && trace.calls[i].0 == infos[i] && visit(infos[i], t + 2 * i) == Some(trace.calls[i].1)
    && (i < |trace.calls| - 1 || trace.ok ==> accept(infos[i], trace.calls[i].1))
  }

  /** The walk ended because all blobs were handed over, or for a blob it did not get, or for one that was refused. */
  ghost predicate Walked(visit: Visitor, accept: (BlobInfo, bytes) -> bool, infos: seq<BlobInfo>, t: nat, trace: Trace) {
    var n := |trace.calls|;
    && n <= |infos|
    && (forall i: nat :: i < n ==> CalledAt(visit, accept, infos, t, trace, i))
    && (trace.ok ==> n == |infos|)
    && (!trace.ok ==> || (n < |infos| && visit(infos[n], t + 2 * n).None?)
                      || (n > 0 && !accept(trace.calls[n - 1].0, trace.calls[n - 1].1)))
  }

  lemma {:induction false} WalkIs(visit: Visitor, accept: (BlobInfo, bytes) -> bool, infos: seq<BlobInfo>, t: nat)
    ensures Walked(visit, accept, infos, t, Walk(visit, accept, infos, t))
    decreases |infos|
  {
    if infos != [] && visit(infos[0], t).Some? && accept(infos[0], visit(infos[0], t).value) {
      var rest, trace := Walk(visit, accept, infos[1..], t + 2), Walk(visit, accept, infos, t);
      WalkIs(visit, accept, infos[1..], t + 2);
      forall i: nat | i < |trace.calls|
        ensures CalledAt(visit, accept, infos, t, trace, i)
      {
        if i > 0 {
          assert CalledAt(visit, accept, infos[1..], t + 2, rest, i - 1);
          assert infos[1..][i - 1] == infos[i] && trace.calls[i] == rest.calls[i - 1];
        }
      }
      if !rest.ok && |rest.calls| > 0 {
        assert trace.calls[|trace.calls| - 1] == rest.calls[|rest.calls| - 1];
      }
    }
  }

  /**
   In any world, a walk over an admissible range of an accepted descriptor hands over the blobs of
   the range in order, each as Gets says, until one cannot be had or the callback refuses it.
   */
  lemma RangeWalked(c: BlockCipher, w: World, sha: bytes -> bytes, d: StreamDescriptor, first: int, end: int, t: nat)
    requires Lawful(c)
    ensures Valid(sha, d) && 0 <= first <= end < |d.blobs| ==>
              Walked(VisitorOf(c, w, d.key), w.accept, d.blobs[first..end], t, WalkRange(c, w, sha, d, first, end, t))
    ensures !(Valid(sha, d) && 0 <= first <= end < |d.blobs|) ==> WalkRange(c, w, sha, d, first, end, t) == Trace([], false)
  {
    if Valid(sha, d) && 0 <= first <= end < |d.blobs| {
      WalkIs(VisitorOf(c, w, d.key), w.accept, d.blobs[first..end], t);
    }
  }

  // ---------------------------------------------------------------- the two readers agree

  /** A world in which every blob of the store is local, the context stays live and the callback never fails. */
  function LocalWorld(store: map<bytes, bytes>): World {
    World((h: bytes, t: nat) => h in store,
          (h: bytes, t: nat) => if h in store then Some(store[h]) else None,
          (info: BlobInfo, data: bytes) => true,
          (k: nat) => true)
  }

  function Data(calls: seq<(BlobInfo, bytes)>): seq<bytes> {
    if calls == [] then [] else Data(calls[..|calls| - 1]) + [calls[|calls| - 1].1]
  }

  /** Walking a list in a local world yields the list's decryptions, blob by blob. */
  lemma {:induction false} WalkDecrypts(c: BlockCipher, store: map<bytes, bytes>, key: bytes, infos: seq<BlobInfo>)
    requires Lawful(c)
    ensures Reports(Walk(VisitorOf(c, LocalWorld(store), key), LocalWorld(store).accept, infos, 0),
                    DecryptAll(c, store, key, infos))
    decreases |infos|
  {
    if infos != [] {
      var n := |infos| - 1;
      var visit, accept := VisitorOf(c, LocalWorld(store), key), LocalWorld(store).accept;
      WalkDecrypts(c, store, key, infos[..n]);
      LocalVisit(c, store, key, infos[n], 2 * n);
      WalkSnoc(visit, accept, infos[..n], infos[n], DecryptAll(c, store, key, infos[..n]));
      assert infos == infos[..n] + [infos[n]];
    }
  }

  /** The trace of a walk reports `parts`, or reports failure when there are none. */
  predicate Reports(trace: Trace, parts: Option<seq<bytes>>) {
    (trace.ok <==> parts.Some?) && (trace.ok ==> Data(trace.calls) == parts.value)
  }

  lemma WalkSnoc(visit: Visitor, accept: (BlobInfo, bytes) -> bool, head: seq<BlobInfo>, last: BlobInfo, parts: Option<seq<bytes>>)
    requires Reports(Walk(visit, accept, head, 0), parts)
    requires var plain := visit(last, 2 * |head|); plain.Some? ==> accept(last, plain.value)
    ensures var plain := visit(last, 2 * |head|);
            Reports(Walk(visit, accept, head + [last], 0),
                    if parts.None? || plain.None? then None else Some(parts.value + [plain.value]))
  {
    var u := 2 * |head|;
    WalkSplit(visit, accept, head, [last], 0, u);
    WalkOne(visit, accept, last, u);
    ReportsSnoc(Walk(visit, accept, head, 0), parts, last, visit(last, u));
  }

  lemma ReportsSnoc(head: Trace, parts: Option<seq<bytes>>, last: BlobInfo, plain: Option<bytes>)
    requires Reports(head, parts)
    ensures Reports(if !head.ok then head
                    else if plain.None? then Prepend(head.calls, Trace([], false))
                    else Prepend(head.calls, Trace([(last, plain.value)], true)),
                    if parts.None? || plain.None? then None else Some(parts.value + [plain.value]))
  {
    if head.ok && plain.Some? {
      assert (head.calls + [(last, plain.value)])[..|head.calls|] == head.calls;
    }
  }

  lemma LocalVisit(c: BlockCipher, store: map<bytes, bytes>, key: bytes, info: BlobInfo, t: nat)
    requires Lawful(c)
    ensures VisitorOf(c, LocalWorld(store), key)(info, t) == DecryptFrom(c, store, key, info)
    ensures forall data: bytes :: LocalWorld(store).accept(info, data)
  {
  }

  lemma WalkOne(visit: Visitor, accept: (BlobInfo, bytes) -> bool, info: BlobInfo, t: nat)
    requires visit(info, t).Some? ==> accept(info, visit(info, t).value)
    ensures Walk(visit, accept, [info], t) ==
            match visit(info, t) case None => Trace([], false) case Some(plain) => Trace([(info, plain)], true)
  {
    assert [info][1..] == [];
  }

  /**
   For a validated descriptor, WalkStream over local blobs succeeds exactly when ReadStream
   does, and the concatenation of its callbacks is ReadStream's content.
   */
  lemma WalkStreamIsReadStream(c: BlockCipher, sha: bytes -> bytes, unmarshal: bytes -> Option<StreamDescriptor>,
                               store: map<bytes, bytes>, sdHash: bytes, d: StreamDescriptor)
    requires Lawful(c) && sdHash in store
    requires DecodeDescriptor(sha, unmarshal, sdHash, store[sdHash]) == Some(d)
    ensures var trace := WalkRange(c, LocalWorld(store), sha, d, 0, |d.blobs| - 1, 0);
            var read := ReadStreamSpec(c, sha, unmarshal, store, sdHash);
            && (trace.ok <==> read.Some?)
            && (trace.ok ==> read.value == (d, Concat(Data(trace.calls))))
  {
    ContentIsAllButTerminator(d);
    assert d.blobs[0..|d.blobs| - 1] == d.blobs[..|d.blobs| - 1];
    WalkDecrypts(c, store, d.key, d.blobs[..|d.blobs| - 1]);
  }
}
