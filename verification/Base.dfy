/** Values shared by every module: octets, byte strings and optional results. */
module Base {
  /** One octet. Byte arithmetic is done on integers; truncation is written out where it occurs. */
  type byte = x: int | 0 <= x < 256

  /** Go strings and byte slices are both sequences of octets. */
  type bytes = seq<byte>

  /** MaxBlobSize: 2 MiB. */
  const MAX_BLOB_SIZE := 2 * 1024 * 1024

  datatype Option<+T> = None | Some(value: T)

  /** The octets of an ASCII literal. */
  function Ascii(s: string): (r: bytes)
    ensures |r| == |s|
  {
    seq(|s|, i requires 0 <= i < |s| => AsciiChar(s[i]))
  }

  function AsciiChar(c: char): byte {
    if c < 128 as char then c as int else 63
  }

  function Min(a: int, b: int): int {
    if a < b then a else b
  }

  function Max(a: int, b: int): int {
    if a < b then b else a
  }

  lemma Regroup(a: bytes, b: bytes, c: bytes)
    ensures (a + b) + c == a + (b + c)
  {
  }

  lemma Rejoin<T>(a: seq<T>, b: seq<T>, c: seq<T>)
    ensures (a + b) + c == a + (b + c)
  {
  }

  function Concat(parts: seq<bytes>): bytes {
    if parts == [] then [] else parts[0] + Concat(parts[1..])
  }

  lemma {:induction false} ConcatAppend(a: seq<bytes>, b: seq<bytes>)
    ensures Concat(a + b) == Concat(a) + Concat(b)
  {
    if a == [] {
      assert a + b == b;
    } else {
      assert (a + b)[1..] == a[1..] + b;
      ConcatAppend(a[1..], b);
    }
  }

  lemma ConcatSnoc(a: seq<bytes>, x: bytes)
    ensures Concat(a + [x]) == Concat(a) + x
  {
    ConcatAppend(a, [x]);
    assert Concat([x]) == x + Concat([]);
  }
}
