/**
 AES-128-CBC with PKCS#7 padding over an abstract block cipher: encryptStreamBlob of
 blob/creator.go, DecryptBlob and pkcs7Unpad of blob/descriptor.go. CBC is section 6.2 of
 NIST SP 800-38A, the padding is section 6.3 of RFC 5652.
 */
module Cipher {
  import opened Base
  import Bits
  import Hex

  const BLOCK := 16

  /** A block function and its inverse, each taking a key and a block. */
  datatype BlockCipher = BlockCipher(enc: (bytes, bytes) -> bytes, dec: (bytes, bytes) -> bytes)

  ghost predicate Lawful(c: BlockCipher) {
    && (forall key: bytes, block: bytes :: |block| == BLOCK ==>
          |c.enc(key, block)| == BLOCK && c.dec(key, c.enc(key, block)) == block)
    && (forall key: bytes, block: bytes :: |block| == BLOCK ==> |c.dec(key, block)| == BLOCK)
  }

  function XorBlock(a: bytes, b: bytes): (r: bytes)
    requires |a| == |b|
    ensures |r| == |a|
  {
    seq(|a|, i requires 0 <= i < |a| => Bits.XorByte(a[i], b[i]))
  }

  lemma XorBlockCancels(a: bytes, b: bytes)
    requires |a| == |b|
    ensures XorBlock(XorBlock(a, b), b) == a
  {
    Bits.Pow2Eight();
    forall i | 0 <= i < |a|
      ensures XorBlock(XorBlock(a, b), b)[i] == a[i]
    {
      Bits.XorCancels(a[i], b[i], 8);
    }
  }

  function CbcEncrypt(c: BlockCipher, key: bytes, iv: bytes, data: bytes): (r: bytes)
    requires Lawful(c) && |iv| == BLOCK && |data| % BLOCK == 0
    ensures |r| == |data|
    decreases |data|
  {
    if data == [] then []
    else
      var block := c.enc(key, XorBlock(data[..BLOCK], iv));
      block + CbcEncrypt(c, key, block, data[BLOCK..])
  }

  function CbcDecrypt(c: BlockCipher, key: bytes, iv: bytes, data: bytes): (r: bytes)
    requires Lawful(c) && |iv| == BLOCK && |data| % BLOCK == 0
    ensures |r| == |data|
    decreases |data|
  {
    if data == [] then []
    else XorBlock(c.dec(key, data[..BLOCK]), iv) + CbcDecrypt(c, key, data[..BLOCK], data[BLOCK..])
  }

  lemma {:induction false} CbcRoundTrip(c: BlockCipher, key: bytes, iv: bytes, data: bytes)
    requires Lawful(c) && |iv| == BLOCK && |data| % BLOCK == 0
    ensures CbcDecrypt(c, key, iv, CbcEncrypt(c, key, iv, data)) == data
    decreases |data|
  {
    if data != [] {
      var block := c.enc(key, XorBlock(data[..BLOCK], iv));
      var out := CbcEncrypt(c, key, iv, data);
      assert out[..BLOCK] == block && out[BLOCK..] == CbcEncrypt(c, key, block, data[BLOCK..]);
      XorBlockCancels(data[..BLOCK], iv);
      CbcRoundTrip(c, key, block, data[BLOCK..]);
      assert data[..BLOCK] + data[BLOCK..] == data;
    }
  }

  /** Block i of a text, and the block chained into it: the one before, or the IV for the first. */
  function BlockAt(data: bytes, i: nat): (r: bytes)
    requires BLOCK * i + BLOCK <= |data|
    ensures |r| == BLOCK
  {
    data[BLOCK * i..BLOCK * i + BLOCK]
  }

  function Chained(iv: bytes, text: bytes, i: nat): (r: bytes)
    requires |iv| == BLOCK && BLOCK * i <= |text|
    ensures |r| == BLOCK
  {
    if i == 0 then iv else BlockAt(text, i - 1)
  }

  /** Octet by octet exclusive or. */
  ghost predicate Mixed(a: bytes, b: bytes, x: bytes) {
    |a| == |b| == |x| && forall j :: 0 <= j < |x| ==> x[j] == Bits.XorByte(a[j], b[j])
  }

  /** Every ciphertext block is the cipher of its plain block mixed with the ciphertext block before it. */
  ghost predicate EncryptedBlocks(c: BlockCipher, key: bytes, iv: bytes, plain: bytes, out: bytes)
    requires |iv| == BLOCK && |plain| == |out|
  {
    forall i: nat, x: bytes ::
      BLOCK * i + BLOCK <= |out| && Mixed(BlockAt(plain, i), Chained(iv, out, i), x) ==> BlockAt(out, i) == c.enc(key, x)
  }

  /** Every plain block is the inverse cipher of its ciphertext block, mixed with the ciphertext block before it. */
  ghost predicate DecryptedBlocks(c: BlockCipher, key: bytes, iv: bytes, data: bytes, out: bytes)
    requires |iv| == BLOCK && |data| == |out|
  {
    forall i: nat :: BLOCK * i + BLOCK <= |out| ==>
      Mixed(c.dec(key, BlockAt(data, i)), Chained(iv, data, i), BlockAt(out, i))
  }

  lemma MixedIs(a: bytes, b: bytes, x: bytes)
    requires Mixed(a, b, x)
    ensures x == XorBlock(a, b)
  {
  }

  lemma BlockShifts(data: bytes, i: nat)
    requires 0 < i && BLOCK * i + BLOCK <= |data|
    ensures BlockAt(data, i) == BlockAt(data[BLOCK..], i - 1)
  {
  }

  lemma ChainShifts(iv: bytes, text: bytes, i: nat)
    requires |iv| == BLOCK && 0 < i && BLOCK * i <= |text|
    ensures Chained(iv, text, i) == Chained(text[..BLOCK], text[BLOCK..], i - 1)
  {
    if i > 1 {
      BlockShifts(text, i - 1);
    }
  }

  /** Chaining, block by block (section 6.2 of NIST SP 800-38A): encryption. */
  lemma {:induction false} CbcEncryptsBlocks(c: BlockCipher, key: bytes, iv: bytes, data: bytes)
    requires Lawful(c) && |iv| == BLOCK && |data| % BLOCK == 0
    ensures EncryptedBlocks(c, key, iv, data, CbcEncrypt(c, key, iv, data))
    decreases |data|
  {
    if data != [] {
      var out := CbcEncrypt(c, key, iv, data);
      var block := c.enc(key, XorBlock(data[..BLOCK], iv));
      assert out[..BLOCK] == block && out[BLOCK..] == CbcEncrypt(c, key, block, data[BLOCK..]);
      CbcEncryptsBlocks(c, key, block, data[BLOCK..]);
      forall i: nat, x: bytes | BLOCK * i + BLOCK <= |out| && Mixed(BlockAt(data, i), Chained(iv, out, i), x)
        ensures BlockAt(out, i) == c.enc(key, x)
      {
        if i == 0 {
          MixedIs(data[..BLOCK], iv, x);
        } else {
          BlockShifts(data, i);
          BlockShifts(out, i);
          ChainShifts(iv, out, i);
        }
      }
    }
  }

  /** Chaining, block by block: decryption. */
  lemma {:induction false} CbcDecryptsBlocks(c: BlockCipher, key: bytes, iv: bytes, data: bytes)
    requires Lawful(c) && |iv| == BLOCK && |data| % BLOCK == 0
    ensures DecryptedBlocks(c, key, iv, data, CbcDecrypt(c, key, iv, data))
    decreases |data|
  {
    if data != [] {
      var out := CbcDecrypt(c, key, iv, data);
      var first := XorBlock(c.dec(key, data[..BLOCK]), iv);
      assert out[..BLOCK] == first && out[BLOCK..] == CbcDecrypt(c, key, data[..BLOCK], data[BLOCK..]);
      CbcDecryptsBlocks(c, key, data[..BLOCK], data[BLOCK..]);
      forall i: nat | BLOCK * i + BLOCK <= |out|
        ensures Mixed(c.dec(key, BlockAt(data, i)), Chained(iv, data, i), BlockAt(out, i))
      {
        if i > 0 {
          BlockShifts(data, i);
          BlockShifts(out, i);
          ChainShifts(iv, data, i);
        }
      }
    }
  }

  // ---------------------------------------------------------------- padding

  function PadLength(n: nat): (k: nat)
    ensures 1 <= k <= BLOCK && (n + k) % BLOCK == 0
  {
    BLOCK - n % BLOCK
  }

  function Pad(plain: bytes): (r: bytes)
    ensures |r| % BLOCK == 0 && |plain| < |r| <= |plain| + BLOCK
  {
    plain + seq(PadLength(|plain|), _ => PadLength(|plain|))
  }

  /** A block-aligned string carries padding for `plain` exactly when it is Pad(plain). */
  predicate Padded(data: bytes, k: int) {
    1 <= k <= BLOCK && k <= |data| && forall i :: |data| - k <= i < |data| ==> data[i] == k
  }

  /** pkcs7Unpad */
  method Unpad(data: bytes) returns (r: Option<bytes>)
    ensures r == UnpadSpec(data)
  {
    if |data| == 0 {
      return None;
    }
    var k := data[|data| - 1];
    if k == 0 || k > BLOCK || k > |data| {
      return None;
    }
    var i := |data| - k;
    while i < |data|
      invariant |data| - k <= i <= |data|
      invariant forall j :: |data| - k <= j < i ==> data[j] == k
    {
      if data[i] != k {
        return None;
      }
      i := i + 1;
    }
    return Some(data[..|data| - k]);
  }

  function UnpadSpec(data: bytes): Option<bytes> {
    if |data| > 0 && Padded(data, data[|data| - 1]) then Some(data[..|data| - data[|data| - 1]]) else None
  }

  /** Unpadding accepts exactly the padded strings, and recovers what was padded. */
  lemma UnpadIffPadded(data: bytes, plain: bytes)
    requires |data| % BLOCK == 0
    ensures UnpadSpec(data) == Some(plain) <==> data == Pad(plain)
  {
    if data == Pad(plain) {
      assert data[..|plain|] == plain;
    }
    if UnpadSpec(data) == Some(plain) {
      var k := data[|data| - 1];
      PadLengthUnique(|plain|, k);
      assert data == data[..|plain|] + data[|plain|..];
      assert data[|plain|..] == seq(k, _ => k);
    }
  }

  lemma PadLengthUnique(n: nat, k: int)
    requires 1 <= k <= BLOCK && (n + k) % BLOCK == 0
    ensures PadLength(n) == k
  {
  }

  // ---------------------------------------------------------------- blobs

  /** What encryptStreamBlob stores for one chunk. */
  function EncryptBlob(c: BlockCipher, key: bytes, iv: bytes, plain: bytes): (r: bytes)
    requires Lawful(c) && |iv| == BLOCK
    ensures |r| == |plain| + PadLength(|plain|) && |r| % BLOCK == 0
  {
    CbcEncrypt(c, key, iv, Pad(plain))
  }

  /** encryptStreamBlob: copy, write the padding octet by octet, encrypt the buffer. */
  method EncryptStreamBlob(c: BlockCipher, key: bytes, iv: bytes, plain: bytes) returns (r: bytes)
    requires Lawful(c) && |iv| == BLOCK
    ensures r == EncryptBlob(c, key, iv, plain)
  {
    var padding := BLOCK - |plain| % BLOCK;
    var padded := new byte[|plain| + padding];
    var index := 0;
    while index < |plain|
      invariant 0 <= index <= |plain|
      invariant forall j :: 0 <= j < index ==> padded[j] == plain[j]
    {
      padded[index] := plain[index];
      index := index + 1;
    }
    while index < padded.Length
      invariant |plain| <= index <= padded.Length
      invariant forall j :: 0 <= j < |plain| ==> padded[j] == plain[j]
      invariant forall j :: |plain| <= j < index ==> padded[j] == padding
    {
      padded[index] := padding;
      index := index + 1;
    }
    assert padded[..] == Pad(plain);
    r := CbcEncrypt(c, key, iv, padded[..]);
  }

  /** DecryptBlob; every failure is an error return. */
  function DecryptBlob(c: BlockCipher, encrypted: bytes, keyHex: bytes, ivHex: bytes): Option<bytes>
    requires Lawful(c)
  {
    var key, iv := Hex.Decode(keyHex), Hex.Decode(ivHex);
    if key.None? || iv.None? then None
    else if |key.value| != 16 || |iv.value| != BLOCK then None
    else if |encrypted| == 0 || |encrypted| % BLOCK != 0 then None
    else UnpadSpec(CbcDecrypt(c, key.value, iv.value, encrypted))
  }

  lemma DecryptInvertsEncrypt(c: BlockCipher, key: bytes, iv: bytes, plain: bytes)
    requires Lawful(c) && |key| == 16 && |iv| == BLOCK
    ensures DecryptBlob(c, EncryptBlob(c, key, iv, plain), Hex.Encode(key), Hex.Encode(iv)) == Some(plain)
  {
    Hex.DecodeEncode(key);
    Hex.DecodeEncode(iv);
    CbcRoundTrip(c, key, iv, Pad(plain));
    UnpadIffPadded(Pad(plain), plain);
  }

  /** What is stored: CBC over the chunk followed by n octets of value n, up to the next whole block. */
  lemma StoredBlocks(c: BlockCipher, key: bytes, iv: bytes, plain: bytes)
    requires Lawful(c) && |iv| == BLOCK
    ensures |EncryptBlob(c, key, iv, plain)| == |Pad(plain)|
    ensures EncryptedBlocks(c, key, iv, Pad(plain), EncryptBlob(c, key, iv, plain))
    ensures forall p :: 0 <= p < |Pad(plain)| ==> Pad(plain)[p] == if p < |plain| then plain[p] else |Pad(plain)| - |plain|
  {
    CbcEncryptsBlocks(c, key, iv, Pad(plain));
  }

  /** The block equations leave one plain text for each ciphertext. */
  lemma DecryptedUnique(c: BlockCipher, key: bytes, iv: bytes, data: bytes, a: bytes, b: bytes)
    requires |iv| == BLOCK && |data| == |a| == |b| && |data| % BLOCK == 0
    requires DecryptedBlocks(c, key, iv, data, a) && DecryptedBlocks(c, key, iv, data, b)
    ensures a == b
  {
    forall i: nat | BLOCK * i + BLOCK <= |a|
      ensures BlockAt(a, i) == BlockAt(b, i)
    {
      MixedIs(c.dec(key, BlockAt(data, i)), Chained(iv, data, i), BlockAt(a, i));
      MixedIs(c.dec(key, BlockAt(data, i)), Chained(iv, data, i), BlockAt(b, i));
    }
    SameBlocks(a, b);
  }

  lemma SameBlocks(a: bytes, b: bytes)
    requires |a| == |b| && |a| % BLOCK == 0
    requires forall i: nat :: BLOCK * i + BLOCK <= |a| ==> BlockAt(a, i) == BlockAt(b, i)
    ensures a == b
  {
    forall p | 0 <= p < |a|
      ensures a[p] == b[p]
    {
      var i, j := BlockOf(a, p);
      assert a[p] == BlockAt(a, i)[j] && b[p] == BlockAt(b, i)[j];
    }
  }

  lemma BlockOf(a: bytes, p: nat) returns (i: nat, j: nat)
    requires |a| % BLOCK == 0 && p < |a|
    ensures BLOCK * i + BLOCK <= |a| && j < BLOCK && p == BLOCK * i + j
  {
    i, j := p / BLOCK, p % BLOCK;
  }

  /** The block equations of decryption hold between a ciphertext and a padded text. */
  ghost predicate Deciphers(c: BlockCipher, key: bytes, iv: bytes, encrypted: bytes, plain: bytes) {
    && |key| == 16 && |iv| == BLOCK && |encrypted| == |Pad(plain)|
    && DecryptedBlocks(c, key, iv, encrypted, Pad(plain))
  }

  /** DecryptBlob answers with a text exactly when key and IV are 16 hexadecimal octets and the blocks decipher to it. */
  lemma DecryptsExactly(c: BlockCipher, encrypted: bytes, keyHex: bytes, ivHex: bytes, plain: bytes)
    requires Lawful(c)
    ensures DecryptBlob(c, encrypted, keyHex, ivHex) == Some(plain) <==>
              && Hex.Decode(keyHex).Some? && Hex.Decode(ivHex).Some?
              && Deciphers(c, Hex.Decode(keyHex).value, Hex.Decode(ivHex).value, encrypted, plain)
  {
    var key, iv := Hex.Decode(keyHex), Hex.Decode(ivHex);
    if key.Some? && iv.Some? && |key.value| == 16 && |iv.value| == BLOCK && encrypted != [] && |encrypted| % BLOCK == 0 {
      var out := CbcDecrypt(c, key.value, iv.value, encrypted);
      CbcDecryptsBlocks(c, key.value, iv.value, encrypted);
      UnpadIffPadded(out, plain);
      if Deciphers(c, key.value, iv.value, encrypted, plain) {
        DecryptedUnique(c, key.value, iv.value, encrypted, out, Pad(plain));
      }
    }
  }
}
