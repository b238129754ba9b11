/** Compact targets: ArithUint256.from_compact and calculate_compact of compat/headers_oracle.py. */
module Compact {
  import opened Base
  import opened Bits

  const WORD := 0x80_0000
  const SIZE_UNIT := 0x100_0000

  /** v << k and v >> k. */
  function ShiftLeft(v: nat, k: nat): nat {
    if k == 0 then v else 2 * ShiftLeft(v, k - 1)
  }

  function ShiftRight(v: nat, k: nat): nat {
    if k == 0 then v else ShiftRight(v, k - 1) / 2
  }

  /** The number of digits bin() prints; zero prints one. */
  function BinaryDigits(v: nat): (r: nat)
    ensures r >= 1
  {
    if v < 2 then 1 else 1 + BinaryDigits(v / 2)
  }

  /** The `bits` property tests a non-empty string, so it is always one more than the digits. */
  function BitsOf(v: nat): nat {
    BinaryDigits(v) + 1
  }

  function SizeOf(v: nat): (r: nat)
    ensures r >= 1
  {
    (BitsOf(v) + 7) / 8
  }

  function FromCompact(compact: nat): nat {
    Decoded(compact / SIZE_UNIT, compact % WORD)
  }

  function Decoded(size: nat, word: nat): nat {
    if size <= 3 then ShiftRight(word, 8 * (3 - size)) else ShiftLeft(word, 8 * (size - 3))
  }

  /** v & 0xFFFFFFFFFFFFFFFF. */
  function Mask64(v: nat): (r: nat)
    ensures v < 0x1_0000_0000_0000_0000 ==> r == v
  {
    v % 0x1_0000_0000_0000_0000
  }

  /** The word before the sign-bit fix-up. */
  function RawWord(v: nat, size: nat): nat {
    if size <= 3 then ShiftLeft(Mask64(v), 8 * (3 - size))
    else Mask64(ShiftRight(v, 8 * (size - 3)))
  }

  /** calculate_compact with its fix-up and its two assertions; None is an AssertionError. */
  function CalculateCompact(v: nat, negative: bool): Option<nat> {
    Assemble(RawWord(v, SizeOf(v)), SizeOf(v), negative)
  }

  function Assemble(raw: nat, rawSize: nat, negative: bool): Option<nat> {
    var fixUp := raw / WORD % 2 == 1;
    var word := if fixUp then raw / 256 else raw;
    var size := if fixUp then rawSize + 1 else rawSize;
    if word >= WORD || size >= 256 then None
    else Some(SIZE_UNIT * size + (if negative && word != 0 then WORD else 0) + word)
  }

  // ---------------------------------------------------------------- digits and powers

  lemma {:induction false} DigitsBound(v: nat)
    ensures v < Pow2(BinaryDigits(v))
    ensures v > 0 ==> Pow2(BinaryDigits(v) - 1) <= v
  {
    if v >= 2 {
      DigitsBound(v / 2);
    } else {
      assert Pow2(1) == 2 * Pow2(0);
    }
  }

  /** The digit count is fixed by the power of two below. */
  lemma DigitsUnique(v: nat, n: nat)
    requires n >= 1 && Pow2(n - 1) <= v < Pow2(n)
    ensures BinaryDigits(v) == n
  {
    DigitsBound(v);
    var d := BinaryDigits(v);
    if d < n {
      Pow2Monotone(d, n - 1);
    } else if d > n {
      Pow2Monotone(n, d - 1);
    }
  }

  lemma SizeBounds(v: nat, size: nat)
    requires size == SizeOf(v)
    ensures v < Pow2(8 * size - 1)
    ensures size > 1 ==> Pow2(8 * size - 9) <= v
  {
    DigitsBound(v);
    Pow2Monotone(BinaryDigits(v), 8 * size - 1);
    if size > 1 {
      Pow2Monotone(8 * size - 9, BinaryDigits(v) - 1);
    }
  }

  lemma {:induction false} LeftBelow(v: nat, n: nat, k: nat)
    requires v < Pow2(n)
    ensures ShiftLeft(v, k) < Pow2(n + k)
  {
    if k > 0 {
      LeftBelow(v, n, k - 1);
    }
  }

  lemma {:induction false} RightBelow(v: nat, n: nat, k: nat)
    requires v < Pow2(n + k)
    ensures ShiftRight(v, k) < Pow2(n)
    decreases k
  {
    if k > 0 {
      RightBelow(v, n + 1, k - 1);
    }
  }

  lemma {:induction false} LeftMonotone(a: nat, b: nat, k: nat)
    requires a <= b
    ensures ShiftLeft(a, k) <= ShiftLeft(b, k)
  {
    if k > 0 {
      LeftMonotone(a, b, k - 1);
    }
  }

  lemma {:induction false} LeftNext(v: nat, k: nat)
    ensures ShiftLeft(v + 1, k) == ShiftLeft(v, k) + Pow2(k)
  {
    if k > 0 {
      LeftNext(v, k - 1);
    }
  }

  lemma {:induction false} LeftAdd(v: nat, j: nat, k: nat)
    ensures ShiftLeft(ShiftLeft(v, j), k) == ShiftLeft(v, j + k)
  {
    if k > 0 {
      LeftAdd(v, j, k - 1);
    }
  }

  lemma {:induction false} LeftOfPower(n: nat, k: nat)
    ensures ShiftLeft(Pow2(n), k) == Pow2(n + k)
  {
    if k > 0 {
      LeftOfPower(n, k - 1);
    }
  }

  lemma {:induction false} RightOfDouble(v: nat, k: nat)
    requires k > 0
    ensures ShiftRight(2 * v, k) == ShiftRight(v, k - 1)
  {
    if k > 1 {
      RightOfDouble(v, k - 1);
    } else {
      assert ShiftRight(2 * v, 1) == ShiftRight(2 * v, 0) / 2;
    }
  }

  lemma {:induction false} RightInvertsLeft(v: nat, k: nat)
    ensures ShiftRight(ShiftLeft(v, k), k) == v
  {
    if k > 0 {
      RightOfDouble(ShiftLeft(v, k - 1), k);
      RightInvertsLeft(v, k - 1);
    }
  }

  /** Shifting out and back clears the low k bits. */
  function Floor(v: nat, k: nat): nat {
    ShiftLeft(ShiftRight(v, k), k)
  }

  lemma {:induction false} FloorLoss(v: nat, k: nat)
    ensures Floor(v, k) <= v < Floor(v, k) + Pow2(k)
  {
    if k > 0 {
      FloorLoss(v, k - 1);
      var c := ShiftRight(v, k - 1);
      var d := c / 2;
      LeftAdd(d, 1, k - 1);
      assert ShiftLeft(d, 1) == 2 * ShiftLeft(d, 0);
      if c == 2 * d + 1 {
        LeftNext(2 * d, k - 1);
      }
    }
  }

  /** The floor is the greatest multiple below. */
  lemma FloorReaches(v: nat, m: nat, k: nat)
    requires ShiftLeft(m, k) <= v
    ensures ShiftLeft(m, k) <= Floor(v, k)
  {
    var r := ShiftRight(v, k);
    if r < m {
      FloorLoss(v, k);
      LeftNext(r, k);
      LeftMonotone(r + 1, m, k);
    } else {
      LeftMonotone(m, r, k);
    }
  }

  lemma Pow23()
    ensures Pow2(23) == WORD && Pow2(24) == SIZE_UNIT
  {
    Pow2Eight();
    Pow2Add(8, 8);
    Pow2Add(16, 8);
  }

  // ---------------------------------------------------------------- the encoder

  /** The word once the 64-bit masks are known to do nothing. */
  function Word(v: nat, size: nat): nat {
    if size <= 3 then ShiftLeft(v, 8 * (3 - size)) else ShiftRight(v, 8 * (size - 3))
  }

  lemma SmallWord(v: nat, size: nat)
    requires size == SizeOf(v) <= 3
    ensures v < WORD && ShiftLeft(v, 8 * (3 - size)) < WORD
  {
    SizeBounds(v, size);
    Pow23();
    var n, k := 8 * size - 1, 8 * (3 - size);
    assert n + k == 23;
    LeftBelow(v, n, k);
    Pow2Monotone(n, 23);
  }

  lemma LargeWord(v: nat, size: nat)
    requires size == SizeOf(v) > 3
    ensures ShiftRight(v, 8 * (size - 3)) < WORD
  {
    SizeBounds(v, size);
    Pow23();
    var k := 8 * (size - 3);
    assert 23 + k == 8 * size - 1;
    RightBelow(v, 23, k);
  }

  lemma WordBound(v: nat, size: nat)
    requires size == SizeOf(v)
    ensures Word(v, size) < WORD && RawWord(v, size) == Word(v, size)
  {
    if size <= 3 {
      SmallWord(v, size);
    } else {
      LargeWord(v, size);
    }
  }

  lemma SizeLimit(v: nat, size: nat, limit: nat)
    requires size == SizeOf(v) && limit == 2039
    ensures size < 256 <==> v < Pow2(limit)
  {
    SizeBounds(v, size);
    if size < 256 {
      Pow2Monotone(8 * size - 1, limit);
    } else {
      Pow2Monotone(limit, 8 * size - 9);
    }
  }

  lemma NoFixUp(raw: nat, size: nat, negative: bool)
    requires raw < WORD
    ensures raw / WORD % 2 == 0 && (Assemble(raw, size, negative).Some? <==> size < 256)
  {
  }

  /**
   For every value the sign bit of the word is clear, so the fix-up is never taken and the
   first assertion always holds; the second holds exactly below 2^2039.
   */
  lemma EncoderSafe(v: nat, negative: bool)
    ensures RawWord(v, SizeOf(v)) / WORD % 2 == 0 && RawWord(v, SizeOf(v)) < WORD
    ensures CalculateCompact(v, negative).Some? <==> v < Pow2(2039)
    ensures v < Pow2(256) ==> CalculateCompact(v, negative).Some?
  {
    var size, limit := SizeOf(v), 2039;
    WordBound(v, size);
    NoFixUp(RawWord(v, size), size, negative);
    SizeLimit(v, size, limit);
    Pow2Monotone(256, limit);
  }

  lemma AssembleParts(word: nat, size: nat, negative: bool)
    requires word < WORD && size < 256
    ensures Assemble(word, size, negative).Some?
    ensures var c := Assemble(word, size, negative).value; c / SIZE_UNIT == size && c % WORD == word
  {
  }

  /** What decoding recovers: the value cut to its top three octets. */
  function Rounded(v: nat): nat {
    var size := SizeOf(v);
    if size <= 3 then v else Floor(v, 8 * (size - 3))
  }

  lemma DecodeGivesRounded(v: nat, negative: bool)
    requires v < Pow2(256)
    ensures CalculateCompact(v, negative).Some? && FromCompact(CalculateCompact(v, negative).value) == Rounded(v)
  {
    var size := SizeOf(v);
    EncoderSafe(v, negative);
    WordBound(v, size);
    var word := Word(v, size);
    AssembleParts(word, size, negative);
    if size <= 3 {
      RightInvertsLeft(v, 8 * (3 - size));
    }
  }

  lemma RoundedSameSize(v: nat)
    ensures Rounded(v) <= v && BinaryDigits(Rounded(v)) == BinaryDigits(v)
    ensures SizeOf(v) > 3 ==> v - Rounded(v) < Pow2(8 * (SizeOf(v) - 3))
    ensures Word(Rounded(v), SizeOf(v)) == Word(v, SizeOf(v))
  {
    var size, digits := SizeOf(v), BinaryDigits(v);
    if size > 3 {
      var k := 8 * (size - 3);
      FloorLoss(v, k);
      DigitsBound(v);
      LeftOfPower(digits - 1 - k, k);
      FloorReaches(v, Pow2(digits - 1 - k), k);
      DigitsUnique(Rounded(v), digits);
      RightInvertsLeft(ShiftRight(v, k), k);
    }
  }

  /**
   Encoding and decoding never raises a value; it loses less than one unit of the third octet,
   nothing at three octets or fewer, and what is left encodes as before.
   */
  lemma CompactRoundTrip(v: nat, negative: bool)
    requires v < Pow2(256)
    ensures CalculateCompact(v, negative).Some?
    ensures var w := FromCompact(CalculateCompact(v, negative).value);
            && w <= v
            && (SizeOf(v) > 3 ==> v - w < Pow2(8 * (SizeOf(v) - 3)))
            && (SizeOf(v) <= 3 ==> w == v)
            && CalculateCompact(w, negative) == CalculateCompact(v, negative)
  {
    DecodeGivesRounded(v, negative);
    RoundedSameSize(v);
    var w := Rounded(v);
    assert SizeOf(w) == SizeOf(v);
    WordBound(v, SizeOf(v));
    WordBound(w, SizeOf(w));
  }

  lemma DecodedBelow(size: nat, word: nat)
    requires word < WORD
    ensures size >= 1 ==> Decoded(size, word) < Pow2(8 * size - 1)
    ensures size == 0 ==> Decoded(size, word) == 0
  {
    Pow23();
    if size == 0 {
      Pow2Monotone(23, 24);
      RightBelow(word, 0, 24);
    } else if size <= 3 {
      var n, k := 8 * size - 1, 8 * (3 - size);
      assert n + k == 23;
      RightBelow(word, n, k);
    } else {
      var k := 8 * (size - 3);
      assert 23 + k == 8 * size - 1;
      LeftBelow(word, 23, k);
    }
  }

  /** The encoding rounds to the greatest target any compact value can express without exceeding v. */
  lemma GreatestRepresentable(v: nat, negative: bool, other: nat)
    requires v < Pow2(256) && FromCompact(other) <= v
    ensures CalculateCompact(v, negative).Some?
    ensures FromCompact(other) <= FromCompact(CalculateCompact(v, negative).value)
  {
    DecodeGivesRounded(v, negative);
    if SizeOf(v) > 3 {
      RoundedIsGreatest(v, SizeOf(v), other / SIZE_UNIT, other % WORD);
    }
  }

  lemma RoundedIsGreatest(v: nat, size: nat, otherSize: nat, word: nat)
    requires size == SizeOf(v) > 3 && word < WORD && Decoded(otherSize, word) <= v
    ensures Decoded(otherSize, word) <= Rounded(v)
  {
    if otherSize < size {
      DecodedBelow(otherSize, word);
      RoundedSameSize(v);
      SizeBounds(Rounded(v), size);
      if otherSize >= 1 {
        Pow2Monotone(8 * otherSize - 1, 8 * size - 9);
      }
    } else {
      var j, k := 8 * (otherSize - size), 8 * (size - 3);
      assert j + k == 8 * (otherSize - 3);
      LeftAdd(word, j, k);
      FloorReaches(v, ShiftLeft(word, j), k);
    }
  }

  // ---------------------------------------------------------------- both ways in closed form

  lemma {:induction false} LeftIsProduct(v: nat, k: nat)
    ensures ShiftLeft(v, k) == v * Pow2(k)
  {
    if k > 0 {
      LeftIsProduct(v, k - 1);
    }
  }

  lemma {:induction false} RightIsQuotient(v: nat, k: nat)
    ensures ShiftRight(v, k) == v / Pow2(k)
  {
    FloorLoss(v, k);
    LeftIsProduct(ShiftRight(v, k), k);
    QuotientIs(v, Pow2(k), ShiftRight(v, k));
  }

  /** `word` octets scaled by a power of 256, of which the fraction is dropped. */
  ghost predicate Scaled(value: nat, size: nat, word: nat) {
    if size >= 3 then value == word * Pow2(8 * (size - 3)) else value == word / Pow2(8 * (3 - size))
  }

  /** What a compact value stands for: 23 bits of mantissa and a size in the top octet. */
  lemma FromCompactIs(compact: nat)
    ensures Scaled(FromCompact(compact), compact / 0x100_0000, compact % 0x80_0000)
  {
    var size, word := compact / SIZE_UNIT, compact % WORD;
    if size <= 3 {
      RightIsQuotient(word, 8 * (3 - size));
      assert size == 3 ==> Pow2(8 * (3 - size)) == 1;
    } else {
      LeftIsProduct(word, 8 * (size - 3));
    }
  }

  /** The compact form of a value: its size, its leading octets, and the sign bit. */
  ghost predicate Compacts(v: nat, negative: bool, size: nat, word: nat, sign: bool) {
    && 1 <= size < 256 && v < Pow2(8 * size - 1) && (size > 1 ==> Pow2(8 * size - 9) <= v)
    && (if size >= 3 then word == v / Pow2(8 * (size - 3)) else word == v * Pow2(8 * (3 - size)))
    && (sign <==> negative && word != 0)
  }

  lemma CalculateCompactIs(v: nat, negative: bool)
    requires v < Pow2(2039)
    ensures CalculateCompact(v, negative).Some?
    ensures var c := CalculateCompact(v, negative).value;
            Compacts(v, negative, c / 0x100_0000, c % 0x80_0000, c / 0x80_0000 % 2 == 1)
  {
    var size, limit := SizeOf(v), 2039;
    EncoderSafe(v, negative);
    WordBound(v, size);
    SizeBounds(v, size);
    SizeLimit(v, size, limit);
    WordIs(v, size);
    AssembledIs(Word(v, size), size, negative);
  }

  lemma WordIs(v: nat, size: nat)
    ensures if size >= 3 then Word(v, size) == v / Pow2(8 * (size - 3)) else Word(v, size) == v * Pow2(8 * (3 - size))
  {
    if size <= 3 {
      LeftIsProduct(v, 8 * (3 - size));
      assert size == 3 ==> Pow2(0) == 1;
    } else {
      RightIsQuotient(v, 8 * (size - 3));
    }
  }

  lemma AssembledIs(word: nat, size: nat, negative: bool)
    requires word < WORD && size < 256
    ensures var c := Assemble(word, size, negative);
            c.Some? && c.value / 0x100_0000 == size && c.value % 0x80_0000 == word
            && (c.value / 0x80_0000 % 2 == 1 <==> negative && word != 0)
  {
  }
}
