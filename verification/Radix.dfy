/** Positional numerals of DER: big-endian octets and the seven-bit groups of high tags. */
module Radix {
  import opened Base

  function Pow256(k: nat): (r: nat)
    ensures r >= 1
  {
    if k == 0 then 1 else 256 * Pow256(k - 1)
  }

  function Pow128(k: nat): (r: nat)
    ensures r >= 1
  {
    if k == 0 then 1 else 128 * Pow128(k - 1)
  }

  /** The shortest big-endian form; zero takes one octet. */
  function Big(n: nat): (r: bytes)
    ensures |r| >= 1
  {
    if n < 256 then [n] else Big(n / 256) + [n % 256]
  }

  /** int.from_bytes(s, "big"). */
  function FromBig(s: bytes): nat {
    if s == [] then 0 else 256 * FromBig(s[..|s| - 1]) + s[|s| - 1]
  }

  /** n.to_bytes(k, "big"). */
  function ToBytes(n: nat, k: nat): (r: bytes)
    requires n < Pow256(k)
    ensures |r| == k
  {
    if k == 0 then [] else ToBytes(n / 256, k - 1) + [n % 256]
  }

  lemma {:induction false} FromBigInvertsBig(n: nat)
    ensures FromBig(Big(n)) == n
  {
    if n >= 256 {
      FromBigInvertsBig(n / 256);
      assert Big(n)[..|Big(n)| - 1] == Big(n / 256);
    } else {
      assert [n][..0] == [];
    }
  }

  lemma {:induction false} FromBigInvertsToBytes(n: nat, k: nat)
    requires n < Pow256(k)
    ensures FromBig(ToBytes(n, k)) == n
  {
    if k > 0 {
      FromBigInvertsToBytes(n / 256, k - 1);
      assert ToBytes(n, k)[..k - 1] == ToBytes(n / 256, k - 1);
    }
  }

  /** Big is minimal: it fits in k octets exactly when the number does. */
  lemma {:induction false} BigFits(n: nat, k: nat)
    requires k >= 1
    ensures |Big(n)| <= k <==> n < Pow256(k)
  {
    if k > 1 && n >= 256 {
      BigFits(n / 256, k - 1);
    } else if k == 1 {
      assert Pow256(1) == 256 * Pow256(0);
    } else {
      PowPositive(k - 1);
    }
  }

  lemma {:induction false} PowPositive(k: nat)
    ensures Pow256(k) >= 1 && Pow256(k + 1) >= 256
  {
  }

  lemma {:induction false} FromBigBound(s: bytes)
    ensures FromBig(s) < Pow256(|s|)
  {
    if s != [] {
      FromBigBound(s[..|s| - 1]);
    }
  }

  /** Groups of seven bits, every one marked as continued. */
  function Continued(n: nat): (r: bytes)
    ensures |r| >= 1
  {
    (if n < 128 then [] else Continued(n / 128)) + [128 + n % 128]
  }

  /** Groups of seven bits, the last one unmarked. */
  function Groups(n: nat): (r: bytes)
    ensures |r| >= 1
  {
    (if n < 128 then [] else Continued(n / 128)) + [n % 128]
  }

  lemma {:induction false} ContinuedFits(n: nat, k: nat)
    requires k >= 1
    ensures |Continued(n)| <= k <==> n < Pow128(k)
  {
    if k > 1 && n >= 128 {
      ContinuedFits(n / 128, k - 1);
    } else if k == 1 {
      assert Pow128(1) == 128 * Pow128(0);
    } else {
      assert Pow128(k) == 128 * Pow128(k - 1);
    }
  }

  lemma GroupsFit(n: nat, k: nat)
    requires k >= 1
    ensures |Groups(n)| <= k <==> n < Pow128(k)
  {
    ContinuedFits(n, k);
  }
}
