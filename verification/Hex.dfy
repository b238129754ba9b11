/**
 Hexadecimal text as used for blob hashes, keys, IVs and stream metadata
 (encoding/hex together with hexDecode, unhex and canonicalBlobHash of blob/manager.go).
 */
module Hex {
  import opened Base

  const DIGEST_SIZE := 48
  const BLOB_HASH_LENGTH := 96

  function Digit(n: int): (c: byte)
    requires 0 <= n < 16
    ensures Unhex(c) == n && Lower(c) == c
  {
    if n < 10 then 48 + n else 87 + n
  }

  /** The value of one hexadecimal digit of either case, 255 for any other octet. */
  function Unhex(c: byte): byte {
    if 48 <= c <= 57 then c - 48
    else if 97 <= c <= 102 then c - 87
    else if 65 <= c <= 70 then c - 55
    else 255
  }

  function Lower(c: byte): byte {
    if 65 <= c <= 90 then c + 32 else c
  }

  function ToLower(s: bytes): bytes {
    seq(|s|, i requires 0 <= i < |s| => Lower(s[i]))
  }

  function Encode(data: bytes): (s: bytes)
    ensures |s| == 2 * |data|
  {
    if data == [] then [] else Pair(data[0]) + Encode(data[1..])
  }

  function Pair(x: byte): (s: bytes)
    ensures |s| == 2 && Unhex(s[0]) <= 15 && Unhex(s[1]) <= 15
    ensures Value(s[0], s[1]) == x && ToLower(s) == s
  {
    [Digit(x / 16), Digit(x % 16)]
  }

  function Value(a: byte, b: byte): byte
    requires Unhex(a) <= 15 && Unhex(b) <= 15
  {
    16 * Unhex(a) + Unhex(b)
  }

  function Decode(s: bytes): (r: Option<bytes>)
    ensures r.Some? ==> |s| == 2 * |r.value|
  {
    if s == [] then Some([])
    else if |s| == 1 || Unhex(s[0]) > 15 || Unhex(s[1]) > 15 then None
    else match Decode(s[2..])
      case None => None
      case Some(rest) => Some([Value(s[0], s[1])] + rest)
  }

  predicate AllDigits(s: bytes) {
    forall i :: 0 <= i < |s| ==> Unhex(s[i]) <= 15
  }

  /** hexToHash succeeds; see ValidHashIffDecodes. */
  predicate ValidHash(s: bytes) {
    |s| == BLOB_HASH_LENGTH && AllDigits(s)
  }

  predicate Canonical(s: bytes) {
    |s| == BLOB_HASH_LENGTH && s == ToLower(s) && ValidHash(s)
  }

  lemma {:induction false} DecodesIffDigits(s: bytes)
    ensures Decode(s).Some? <==> |s| % 2 == 0 && AllDigits(s)
  {
    if |s| >= 2 {
      DecodesIffDigits(s[2..]);
      assert s == s[..2] + s[2..];
      assert AllDigits(s) <==> Unhex(s[0]) <= 15 && Unhex(s[1]) <= 15 && AllDigits(s[2..]) by {
        assert AllDigits(s[2..]) ==> forall i :: 2 <= i < |s| ==> s[i] == s[2..][i - 2];
      }
    }
  }

  lemma ValidHashIffDecodes(s: bytes)
    ensures ValidHash(s) <==> Decode(s).Some? && |Decode(s).value| == DIGEST_SIZE
  {
    DecodesIffDigits(s);
  }

  lemma {:induction false} DecodeEncode(data: bytes)
    ensures Decode(Encode(data)) == Some(data)
  {
    if data != [] {
      DecodeEncode(data[1..]);
      var s := Encode(data);
      assert s[0] == Pair(data[0])[0] && s[1] == Pair(data[0])[1];
      assert s[2..] == Encode(data[1..]);
      assert [data[0]] + data[1..] == data;
    }
  }

  /** Which characters are printed: the digits of each octet, high half first. */
  lemma {:induction false} EncodeAt(data: bytes, i: nat)
    requires i < |data|
    ensures Encode(data)[2 * i] == Ascii("0123456789abcdef")[data[i] / 16]
    ensures Encode(data)[2 * i + 1] == Ascii("0123456789abcdef")[data[i] % 16]
  {
    if i == 0 {
      DigitIs(data[0] / 16);
      DigitIs(data[0] % 16);
    } else {
      EncodeAt(data[1..], i - 1);
    }
  }

  lemma DigitIs(n: nat)
    requires n < 16
    ensures Digit(n) == Ascii("0123456789abcdef")[n]
  {
  }

  lemma PairOfValue(a: byte, b: byte)
    requires Unhex(a) <= 15 && Unhex(b) <= 15
    ensures Pair(Value(a, b)) == [Lower(a), Lower(b)]
  {
    assert Value(a, b) / 16 == Unhex(a) && Value(a, b) % 16 == Unhex(b);
  }

  lemma LowerStep(s: bytes)
    requires |s| >= 2
    ensures ToLower(s) == [Lower(s[0]), Lower(s[1])] + ToLower(s[2..])
  {
  }

  lemma EncodeStep(v: byte, rest: bytes)
    ensures Encode([v] + rest) == Pair(v) + Encode(rest)
  {
    assert ([v] + rest)[1..] == rest;
  }

  lemma {:induction false} EncodeDecodeLower(s: bytes)
    requires Decode(s).Some?
    ensures Encode(Decode(s).value) == ToLower(s)
  {
    if s != [] {
      var rest := Decode(s[2..]).value;
      EncodeDecodeLower(s[2..]);
      PairOfValue(s[0], s[1]);
      EncodeStep(Value(s[0], s[1]), rest);
      LowerStep(s);
    }
  }

  /** The canonical hashes are exactly the lower-case printings of 48-byte digests. */
  lemma CanonicalIffDigest(s: bytes)
    ensures Canonical(s) <==> exists d: bytes :: |d| == DIGEST_SIZE && s == Encode(d)
  {
    ValidHashIffDecodes(s);
    if Canonical(s) {
      EncodeDecodeLower(s);
      assert s == Encode(Decode(s).value);
    }
    forall d: bytes | |d| == DIGEST_SIZE && s == Encode(d)
      ensures Canonical(s)
    {
      DecodeEncode(d);
      EncodeDecodeLower(s);
    }
  }

  /** Every octet of an encoding is a lower-case hexadecimal digit. */
  lemma {:induction false} EncodePlain(data: bytes, i: nat)
    requires i < |Encode(data)|
    ensures 48 <= Encode(data)[i] <= 57 || 97 <= Encode(data)[i] <= 102
  {
    if i >= 2 {
      EncodePlain(data[1..], i - 2);
    }
  }

  /** hexDecode: fills dst from src pair by pair and stops at the first invalid digit. */
  method DecodeInto(dst: array<byte>, src: bytes) returns (ok: bool, count: nat)
    requires dst.Length >= |src| / 2
    modifies dst
    ensures ok <==> Decode(src).Some?
    ensures ok ==> count == |src| / 2 && dst[..count] == Decode(src).value
    ensures !ok ==> count == 0
    ensures dst[|src| / 2..] == old(dst[|src| / 2..])
  {
    if |src| % 2 != 0 {
      return false, 0;
    }
    var i := 0;
    ghost var front, value: bytes := [], [];
    while i < |src| / 2
      invariant 0 <= i <= |src| / 2 && front == src[..2 * i]
      invariant Decode(front) == Some(value) && dst[..i] == value
      invariant dst[|src| / 2..] == old(dst[|src| / 2..])
    {
      var a, b := Unhex(src[2 * i]), Unhex(src[2 * i + 1]);
      PairNext(src, 2 * i, front, value);
      if a > 15 || b > 15 {
        return false, 0;
      }
      dst[i] := 16 * a + b;
      front, value := src[..2 * i + 2], value + [16 * a + b];
      i := i + 1;
      assert dst[..i] == dst[..i - 1] + [16 * a + b];
    }
    assert src == src[..2 * i];
    return true, |src| / 2;
  }

  /** One more pair of digits, or the end of decoding. */
  lemma DecodeNext(front: bytes, pair: bytes, rest: bytes, value: bytes)
    requires |front| % 2 == 0 && |pair| == 2 && Decode(front) == Some(value)
    ensures var a, b := Unhex(pair[0]), Unhex(pair[1]);
            if a > 15 || b > 15 then Decode(front + (pair + rest)) == None
            else Decode(front + pair) == Some(value + [16 * a + b])
  {
    if Unhex(pair[0]) > 15 || Unhex(pair[1]) > 15 {
      BadPair(front, pair, rest);
    } else {
      GoodPair(front, pair);
    }
  }

  lemma PairNext(src: bytes, at: nat, front: bytes, value: bytes)
    requires at + 2 <= |src| && at % 2 == 0 && front == src[..at] && Decode(front) == Some(value)
    ensures var a, b := Unhex(src[at]), Unhex(src[at + 1]);
            if a > 15 || b > 15 then Decode(src) == None else Decode(src[..at + 2]) == Some(value + [16 * a + b])
  {
    var pair, rest := AroundPair(src, at, front);
    DecodeNext(front, pair, rest, value);
  }

  /** The text around a pair of digits. */
  lemma AroundPair(src: bytes, at: nat, front: bytes) returns (pair: bytes, rest: bytes)
    requires at + 2 <= |src| && front == src[..at]
    ensures pair == [src[at], src[at + 1]] && src == front + (pair + rest) && src[..at + 2] == front + pair
  {
    pair, rest := src[at..at + 2], src[at + 2..];
  }

  lemma BadPair(front: bytes, pair: bytes, rest: bytes)
    requires |front| % 2 == 0 && |pair| == 2 && (Unhex(pair[0]) > 15 || Unhex(pair[1]) > 15)
    ensures Decode(front + (pair + rest)) == None
  {
    DecodeSplit(front, pair + rest);
    assert (pair + rest)[0] == pair[0] && (pair + rest)[1] == pair[1];
  }

  lemma GoodPair(front: bytes, pair: bytes)
    requires |front| % 2 == 0 && |pair| == 2 && Unhex(pair[0]) <= 15 && Unhex(pair[1]) <= 15 && Decode(front).Some?
    ensures Decode(front + pair) == Some(Decode(front).value + [16 * Unhex(pair[0]) + Unhex(pair[1])])
  {
    DecodeSplit(front, pair);
    DecodePair(pair);
  }

  lemma DecodePair(pair: bytes)
    requires |pair| == 2
    ensures Decode(pair) == if Unhex(pair[0]) > 15 || Unhex(pair[1]) > 15 then None
                            else Some([16 * Unhex(pair[0]) + Unhex(pair[1])])
  {
    assert pair[2..] == [] && Decode(pair[2..]) == Some([]);
    if Unhex(pair[0]) <= 15 && Unhex(pair[1]) <= 15 {
      assert [Value(pair[0], pair[1])] + [] == [Value(pair[0], pair[1])];
    }
  }

  lemma {:induction false} DecodeSplit(a: bytes, b: bytes)
    requires |a| % 2 == 0
    ensures Decode(a + b) == if Decode(a).Some? && Decode(b).Some?
                             then Some(Decode(a).value + Decode(b).value) else None
  {
    if a == [] {
      assert a + b == b && Decode(a) == Some([]);
      assert Decode(b).Some? ==> [] + Decode(b).value == Decode(b).value;
    } else {
      assert (a + b)[2..] == a[2..] + b;
      assert (a + b)[0] == a[0] && (a + b)[1] == a[1];
      DecodeSplit(a[2..], b);
      if Decode(a).Some? && Decode(b).Some? {
        var v, x, y := [Value(a[0], a[1])], Decode(a[2..]).value, Decode(b).value;
        assert Decode(a + b).value == v + (x + y) == (v + x) + y;
      }
    }
  }
}
