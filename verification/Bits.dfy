/** Powers of two and the bitwise view of small numbers, from the top bit down. */
module Bits {
  import opened Base

  function Pow2(n: nat): (r: nat)
    ensures r > 0
  {
    if n == 0 then 1 else 2 * Pow2(n - 1)
  }

  predicate TopBit(a: nat, n: nat)
    requires n > 0
  {
    a >= Pow2(n - 1)
  }

  /** An n-bit number without its top bit. */
  function Rest(a: nat, n: nat): (r: nat)
    requires n > 0 && a < Pow2(n)
    ensures r < Pow2(n - 1)
  {
    if TopBit(a, n) then a - Pow2(n - 1) else a
  }

  /** Exclusive or of two n-bit numbers. */
  function Xor(a: nat, b: nat, n: nat): (r: nat)
    requires a < Pow2(n) && b < Pow2(n)
    ensures r < Pow2(n)
  {
    if n == 0 then 0
    else (if TopBit(a, n) != TopBit(b, n) then Pow2(n - 1) else 0) + Xor(Rest(a, n), Rest(b, n), n - 1)
  }

  lemma XorTop(a: nat, b: nat, n: nat) returns (r: nat)
    requires n > 0 && a < Pow2(n) && b < Pow2(n)
    ensures r == Xor(a, b, n) && (TopBit(r, n) <==> TopBit(a, n) != TopBit(b, n))
    ensures Rest(r, n) == Xor(Rest(a, n), Rest(b, n), n - 1)
  {
    r := Xor(a, b, n);
  }

  lemma {:induction false} XorCancels(a: nat, b: nat, n: nat)
    requires a < Pow2(n) && b < Pow2(n)
    ensures Xor(Xor(a, b, n), b, n) == a
  {
    if n > 0 {
      var r := XorTop(a, b, n);
      var back := XorTop(r, b, n);
      XorCancels(Rest(a, n), Rest(b, n), n - 1);
    }
  }

  lemma {:induction false} XorZero(a: nat, b: nat, n: nat)
    requires a < Pow2(n) && b < Pow2(n)
    ensures Xor(a, b, n) == 0 <==> a == b
  {
    if n > 0 {
      var r := XorTop(a, b, n);
      XorZero(Rest(a, n), Rest(b, n), n - 1);
    }
  }

  /** Whether bit i of a number is set, counted from the lowest. */
  predicate Bit(a: nat, i: nat) {
    a / Pow2(i) % 2 == 1
  }

  /** Exclusive or, bit by bit. */
  lemma {:induction false} XorBits(a: nat, b: nat, n: nat, i: nat)
    requires a < Pow2(n) && b < Pow2(n) && i < n
    ensures Bit(Xor(a, b, n), i) <==> Bit(a, i) != Bit(b, i)
  {
    var r := XorTop(a, b, n);
    if i == n - 1 {
      TopBitIs(a, n);
      TopBitIs(b, n);
      TopBitIs(r, n);
    } else {
      XorBits(Rest(a, n), Rest(b, n), n - 1, i);
      RestKeepsBit(a, n, i);
      RestKeepsBit(b, n, i);
      RestKeepsBit(r, n, i);
    }
  }

  lemma TopBitIs(a: nat, n: nat)
    requires n > 0 && a < Pow2(n)
    ensures Bit(a, n - 1) <==> TopBit(a, n)
  {
    QuotientIs(a, Pow2(n - 1), if TopBit(a, n) then 1 else 0);
  }

  lemma QuotientIs(a: nat, d: nat, q: nat)
    requires d > 0 && q * d <= a < q * d + d
    ensures a / d == q
  {
    var p := a / d;
    assert a == p * d + a % d;
    if p < q {
      ProductMonotone(p + 1, q, d);
    } else if p > q {
      ProductMonotone(q + 1, p, d);
    }
  }

  lemma ProductMonotone(a: nat, b: nat, d: nat)
    requires a <= b
    ensures a * d <= b * d
  {
  }

  lemma RestKeepsBit(a: nat, n: nat, i: nat)
    requires 0 < n && i < n - 1 && a < Pow2(n)
    ensures Bit(Rest(a, n), i) <==> Bit(a, i)
  {
    if TopBit(a, n) {
      var half := Pow2(n - 2 - i);
      Pow2Add(i, n - 1 - i);
      assert Pow2(n - 1 - i) == 2 * half;
      DropMultiple(Rest(a, n), Pow2(i), half);
    }
  }

  lemma DropMultiple(a: nat, d: nat, half: nat)
    requires d > 0
    ensures (a + d * (2 * half)) / d % 2 == a / d % 2
  {
    QuotientAdds(a, d, 2 * half);
    assert (a / d + 2 * half) % 2 == a / d % 2;
  }

  lemma QuotientAdds(a: nat, d: nat, m: nat)
    requires d > 0
    ensures (a + d * m) / d == a / d + m
  {
    var q := a / d;
    assert q * d <= a < q * d + d;
    assert (q + m) * d == q * d + d * m;
    QuotientIs(a + d * m, d, q + m);
  }

  lemma Pow2Eight()
    ensures Pow2(8) == 256
  {
    assert Pow2(4) == 16;
    assert Pow2(6) == 64;
  }

  function XorByte(a: byte, b: byte): byte {
    Pow2Eight();
    Xor(a, b, 8)
  }

  lemma {:induction false} Pow2Add(m: nat, n: nat)
    ensures Pow2(m + n) == Pow2(m) * Pow2(n)
  {
    if m > 0 {
      Pow2Add(m - 1, n);
    }
  }

  lemma {:induction false} Pow2Monotone(m: nat, n: nat)
    requires m <= n
    ensures Pow2(m) <= Pow2(n)
  {
    if m < n {
      Pow2Monotone(m, n - 1);
    }
  }
}
