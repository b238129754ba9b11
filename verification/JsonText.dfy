/**
 The pieces of text the descriptor printers emit: decimal integers (fmt %d), UTF-8 validity
 and string literals as encoding/json writes them.
 */
module JsonText {
  import opened Base
  import Hex

  // ---------------------------------------------------------------- decimals

  predicate IsDigit(c: byte) {
    48 <= c <= 57
  }

  function Decimal(n: nat): (r: bytes)
    ensures |r| >= 1
  {
    if n < 10 then [48 + n] else Decimal(n / 10) + [48 + n % 10]
  }

  function Signed(n: int): bytes {
    if n < 0 then [45] + Decimal(-n) else Decimal(n)
  }

  lemma {:induction false} DecimalDigits(n: nat, i: nat)
    requires i < |Decimal(n)|
    ensures IsDigit(Decimal(n)[i])
  {
    if n >= 10 && i < |Decimal(n)| - 1 {
      DecimalDigits(n / 10, i);
    }
  }

  function Number(digits: bytes): nat {
    if digits == [] then 0
    else 10 * Number(digits[..|digits| - 1]) + if IsDigit(digits[|digits| - 1]) then digits[|digits| - 1] - 48 else 0
  }

  lemma {:induction false} NumberOfDecimal(n: nat)
    ensures Number(Decimal(n)) == n
  {
    if n >= 10 {
      NumberOfDecimal(n / 10);
      assert Decimal(n)[..|Decimal(n)| - 1] == Decimal(n / 10);
    }
  }

  /** How many digits s starts with. */
  function DigitRun(s: bytes): nat {
    if s == [] || !IsDigit(s[0]) then 0 else 1 + DigitRun(s[1..])
  }

  lemma {:induction false} DigitRunSplit(digits: bytes, rest: bytes)
    requires forall i :: 0 <= i < |digits| ==> IsDigit(digits[i])
    requires rest == [] || !IsDigit(rest[0])
    ensures DigitRun(digits + rest) == |digits|
  {
    if digits == [] {
      assert digits + rest == rest;
    } else {
      assert (digits + rest)[1..] == digits[1..] + rest;
      DigitRunSplit(digits[1..], rest);
    }
  }

  /** A decimal followed by a non-digit is self-delimiting. */
  lemma DecimalPrefixFree(m: nat, n: nat, r: bytes, s: bytes)
    requires Decimal(m) + r == Decimal(n) + s
    requires (r == [] || !IsDigit(r[0])) && (s == [] || !IsDigit(s[0]))
    ensures m == n && r == s
  {
    var a, b := Decimal(m), Decimal(n);
    forall i | 0 <= i < |a| ensures IsDigit(a[i]) { DecimalDigits(m, i); }
    forall i | 0 <= i < |b| ensures IsDigit(b[i]) { DecimalDigits(n, i); }
    DigitRunSplit(a, r);
    DigitRunSplit(b, s);
    assert a == (a + r)[..|a|] == b;
    Cancel(a, r, s);
    NumberOfDecimal(m);
    NumberOfDecimal(n);
  }

  lemma Cancel(l: bytes, r: bytes, s: bytes)
    requires l + r == l + s
    ensures r == s
  {
    assert r == (l + r)[|l|..] == s;
  }

  lemma {:induction false} DecimalLength(n: nat, k: nat)
    requires k >= 1 && n < Pow10(k)
    ensures |Decimal(n)| <= k
  {
    if n >= 10 {
      DecimalLength(n / 10, k - 1);
    }
  }

  function Pow10(k: nat): (r: nat)
    ensures r > 0
  {
    if k == 0 then 1 else 10 * Pow10(k - 1)
  }

  // ---------------------------------------------------------------- UTF-8

  predicate Tail(s: bytes, i: nat, lo: byte, hi: byte) {
    i < |s| && lo <= s[i] <= hi
  }

  /** The length of the UTF-8 sequence s starts with, 0 if it starts with none (RFC 3629, section 4). */
  function RuneLength(s: bytes): (n: nat)
    requires s != []
    ensures n <= 4 && n <= |s|
  {
    var b := s[0];
    if b < 0x80 then 1
    else if 0xC2 <= b <= 0xDF then if Tail(s, 1, 0x80, 0xBF) then 2 else 0
    else if 0xE0 <= b <= 0xEF then
      var lo := if b == 0xE0 then 0xA0 else 0x80;
      var hi := if b == 0xED then 0x9F else 0xBF;
      if Tail(s, 1, lo, hi) && Tail(s, 2, 0x80, 0xBF) then 3 else 0
    else if 0xF0 <= b <= 0xF4 then
      var lo := if b == 0xF0 then 0x90 else 0x80;
      var hi := if b == 0xF4 then 0x8F else 0xBF;
      if Tail(s, 1, lo, hi) && Tail(s, 2, 0x80, 0xBF) && Tail(s, 3, 0x80, 0xBF) then 4 else 0
    else 0
  }

  /** utf8.Valid */
  predicate ValidUtf8(s: bytes)
    decreases |s|
  {
    s == [] || (RuneLength(s) > 0 && ValidUtf8(s[RuneLength(s)..]))
  }

  // ---------------------------------------------------------------- string literals

  /** The escape json.Marshal writes for one ASCII octet, or the octet itself. */
  function EscapeAscii(b: byte): (r: bytes)
    requires b < 0x80
    ensures 1 <= |r| <= 6
  {
    if b == 0x22 || b == 0x5C then [0x5C, b]
    else if b == 8 then [0x5C, 0x62]
    else if b == 12 then [0x5C, 0x66]
    else if b == 10 then [0x5C, 0x6E]
    else if b == 13 then [0x5C, 0x72]
    else if b == 9 then [0x5C, 0x74]
    else if b < 0x20 || b == 0x3C || b == 0x3E || b == 0x26 then [0x5C, 0x75, 0x30, 0x30] + Hex.Pair(b)
    else [b]
  }

  /** U+2028 and U+2029 are escaped, other multi-byte runes are copied. */
  function EscapeRune(rune: bytes): (r: bytes)
    requires |rune| >= 1
    ensures |r| >= 1
  {
    if rune == [0xE2, 0x80, 0xA8] then Ascii("\\u2028")
    else if rune == [0xE2, 0x80, 0xA9] then Ascii("\\u2029")
    else if |rune| == 1 && rune[0] < 0x80 then EscapeAscii(rune[0])
    else rune
  }

  /** The body of a JSON string; an octet that starts no rune becomes the replacement character. */
  function Escape(s: bytes): bytes
    decreases |s|
  {
    if s == [] then []
    else if RuneLength(s) == 0 then Ascii("\\ufffd") + Escape(s[1..])
    else EscapeRune(s[..RuneLength(s)]) + Escape(s[RuneLength(s)..])
  }

  /** The text with every octet that starts no rune made the same; printing loses exactly this much. */
  function Repaired(s: bytes): bytes
    decreases |s|
  {
    if s == [] then []
    else if RuneLength(s) == 0 then [0xFF] + Repaired(s[1..])
    else s[..RuneLength(s)] + Repaired(s[RuneLength(s)..])
  }

  /** Nothing to repair: UTF-8 except that lone octets are already 0xFF. */
  predicate Settled(s: bytes) {
    Repaired(s) == s
  }

  /** json.Marshal of a string */
  function Quote(s: bytes): bytes {
    [0x22] + Escape(s) + [0x22]
  }

  /** The rune an escape stands for, and how many octets it took; None at the closing quote. */
  function ReadRune(s: bytes): Option<(bytes, nat)>
    requires s != []
  {
    if s[0] == 0x22 then None
    else if s[0] != 0x5C then
      if RuneLength(s) == 0 then None else Some((s[..RuneLength(s)], RuneLength(s)))
    else if |s| < 2 then None
    else if s[1] == 0x22 || s[1] == 0x5C then Some(([s[1]], 2))
    else if s[1] == 0x62 then Some(([8], 2))
    else if s[1] == 0x66 then Some(([12], 2))
    else if s[1] == 0x6E then Some(([10], 2))
    else if s[1] == 0x72 then Some(([13], 2))
    else if s[1] == 0x74 then Some(([9], 2))
    else if |s| < 6 || Hex.Unhex(s[4]) > 15 || Hex.Unhex(s[5]) > 15 then None
    else if s[2] == 0x32 then Some(([0xE2, 0x80, if s[5] == 0x38 then 0xA8 else 0xA9], 6))
    else if s[2] == 0x66 then Some(([0xFF], 6))
    else Some(([Hex.Value(s[4], s[5])], 6))
  }

  predicate IsRune(rune: bytes) {
    rune != [] && RuneLength(rune) == |rune|
  }

  /** RuneLength looks no further than the rune itself. */
  lemma RuneLengthLocal(rune: bytes, rest: bytes)
    requires IsRune(rune)
    ensures RuneLength(rune + rest) == |rune|
  {
    var s := rune + rest;
    assert forall i :: 0 <= i < |rune| ==> s[i] == rune[i];
  }

  lemma RuneAtHead(s: bytes)
    requires s != [] && RuneLength(s) > 0
    ensures IsRune(s[..RuneLength(s)])
  {
  }

  lemma ReadRuneInverts(rune: bytes, rest: bytes)
    requires IsRune(rune)
    ensures ReadRune(EscapeRune(rune) + rest) == Some((rune, |EscapeRune(rune)|))
  {
    var e := EscapeRune(rune);
    var s := e + rest;
    assert forall i :: 0 <= i < |e| ==> s[i] == e[i];
    if rune == [0xE2, 0x80, 0xA8] || rune == [0xE2, 0x80, 0xA9] {
      assert e[0] == 0x5C && e[1] == 0x75 && e[2] == 0x32 && e[4] == 0x32;
    } else if |rune| == 1 && rune[0] < 0x80 {
      assert rune == [rune[0]];
      if |e| == 1 {
        assert s[..1] == rune;
      }
    } else {
      RuneLengthLocal(rune, rest);
      assert s[..|rune|] == rune;
    }
  }

  /** Reads a string body up to its closing quote. */
  function ReadBody(s: bytes): Option<(bytes, bytes)>
    decreases |s|
  {
    if s == [] then None
    else if s[0] == 0x22 then Some(([], s[1..]))
    else match ReadRune(s)
      case None => None
      case Some((rune, n)) =>
        if n == 0 || n > |s| then None
        else match ReadBody(s[n..])
          case None => None
          case Some((value, rest)) => Some((rune + value, rest))
  }

  lemma EscapeRuneNoQuote(rune: bytes)
    requires IsRune(rune)
    ensures EscapeRune(rune)[0] != 0x22
  {
  }

  /** The first rune of a text that starts with one, on its own. */
  lemma RuneStep(x: bytes) returns (rune: bytes, rest: bytes)
    requires x != [] && RuneLength(x) > 0
    ensures IsRune(rune) && x == rune + rest && |rest| < |x| && (ValidUtf8(x) <==> ValidUtf8(rest))
    ensures Escape(x) == EscapeRune(rune) + Escape(rest) && Repaired(x) == rune + Repaired(rest)
  {
    RuneAtHead(x);
    rune, rest := x[..RuneLength(x)], x[RuneLength(x)..];
  }

  /** A rune in front of a text is that text's first rune. */
  lemma RuneBefore(rune: bytes, rest: bytes)
    requires IsRune(rune)
    ensures rune + rest != [] && RuneLength(rune + rest) == |rune| && (ValidUtf8(rune + rest) <==> ValidUtf8(rest))
    ensures Escape(rune + rest) == EscapeRune(rune) + Escape(rest) && Repaired(rune + rest) == rune + Repaired(rest)
  {
    RuneLengthLocal(rune, rest);
    assert (rune + rest)[..|rune|] == rune && (rune + rest)[|rune|..] == rest;
  }

  /** A lone octet in front of a text. */
  lemma LoneBefore(b: byte, rest: bytes)
    requires RuneLength([b] + rest) == 0
    ensures !ValidUtf8([b] + rest) && Repaired([b] + rest) == [0xFF] + Repaired(rest)
    ensures Escape([b] + rest) == Ascii("\\ufffd") + Escape(rest)
  {
    assert ([b] + rest)[1..] == rest;
  }

  /** Reading back a printed text gives the repaired text. */
  lemma {:induction false} ReadBodyInverts(x: bytes, tail: bytes)
    ensures ReadBody(Escape(x) + ([0x22] + tail)) == Some((Repaired(x), tail))
    decreases |x|
  {
    var close := [0x22] + tail;
    if x == [] {
      ReadClose(tail, close);
      assert Escape(x) + close == close;
    } else if RuneLength(x) == 0 {
      var rest := x[1..];
      ReadBodyInverts(rest, tail);
      ReadLone(Escape(x), Escape(rest), close, Repaired(rest), tail);
    } else {
      var rune, rest := RuneStep(x);
      ReadBodyInverts(rest, tail);
      ReadBodyCons(Repaired(x), rune, Repaired(rest), Escape(x), EscapeRune(rune), Escape(rest), close, tail);
    }
  }

  lemma ReadLone(ex: bytes, erest: bytes, close: bytes, value: bytes, tail: bytes)
    requires ex == Ascii("\\ufffd") + erest && ReadBody(erest + close) == Some((value, tail))
    ensures ReadBody(ex + close) == Some(([0xFF] + value, tail))
  {
    var e := Ascii("\\ufffd");
    Regroup(e, erest, close);
    LoneStep(e, erest + close);
  }

  lemma LoneStep(e: bytes, t: bytes)
    requires e == Ascii("\\ufffd") && ReadBody(t).Some?
    ensures ReadBody(e + t) == Some(([0xFF] + ReadBody(t).value.0, ReadBody(t).value.1))
  {
    var s := e + t;
    assert s[0] == 0x5C && s[1] == 0x75 && s[2] == 0x66 && s[4] == 0x66 && s[5] == 0x64;
    assert s[6..] == t;
  }

  lemma ReadClose(tail: bytes, close: bytes)
    requires close == [0x22] + tail
    ensures ReadBody(close) == Some(([], tail))
  {
    assert close[1..] == tail;
  }

  lemma ReadBodyCons(x: bytes, rune: bytes, rest: bytes, ex: bytes, er: bytes, erest: bytes, close: bytes, tail: bytes)
    requires IsRune(rune) && er == EscapeRune(rune) && ex == er + erest && x == rune + rest
    requires ReadBody(erest + close) == Some((rest, tail))
    ensures ReadBody(ex + close) == Some((x, tail))
  {
    ReadBodyStep(rune, erest + close);
    Regroup(er, erest, close);
  }

  lemma ReadBodyStep(rune: bytes, t: bytes)
    requires IsRune(rune) && ReadBody(t).Some?
    ensures ReadBody(EscapeRune(rune) + t) == Some((rune + ReadBody(t).value.0, ReadBody(t).value.1))
  {
    var e := EscapeRune(rune);
    ReadRuneInverts(rune, t);
    EscapeRuneNoQuote(rune);
    assert (e + t)[0] == e[0] && (e + t)[|e|..] == t;
  }

  /** A string literal is self-delimiting and determines its value up to repair, and no less. */
  lemma QuotePrefixFree(x: bytes, y: bytes, r: bytes, s: bytes)
    requires Quote(x) + r == Quote(y) + s
    ensures Repaired(x) == Repaired(y) && r == s
  {
    QuoteSplit(x, r);
    QuoteSplit(y, s);
    ReadBodyInverts(x, r);
    ReadBodyInverts(y, s);
  }

  lemma {:induction false} RepairedPrintsAlike(x: bytes)
    ensures Escape(Repaired(x)) == Escape(x) && Settled(Repaired(x))
    decreases |x|
  {
    if x != [] {
      if RuneLength(x) == 0 {
        RepairedPrintsAlike(x[1..]);
        LoneBefore(0xFF, Repaired(x[1..]));
      } else {
        var rune, rest := RuneStep(x);
        RepairedPrintsAlike(rest);
        RuneBefore(rune, Repaired(rest));
      }
    }
  }

  /** Two texts print alike exactly when repairing makes them equal. */
  lemma QuoteEqualIff(x: bytes, y: bytes)
    ensures Quote(x) == Quote(y) <==> Repaired(x) == Repaired(y)
  {
    if Quote(x) == Quote(y) {
      assert Quote(x) + [] == Quote(y) + [];
      QuotePrefixFree(x, y, [], []);
    }
    RepairedPrintsAlike(x);
    RepairedPrintsAlike(y);
  }

  lemma {:induction false} ValidIsSettled(x: bytes)
    requires ValidUtf8(x)
    ensures Settled(x)
    decreases |x|
  {
    if x != [] {
      var rune, rest := RuneStep(x);
      ValidIsSettled(rest);
    }
  }

  /** Only a UTF-8 text itself is repaired to it. */
  lemma {:induction false} RepairedToValid(x: bytes, y: bytes)
    requires ValidUtf8(x) && Repaired(y) == x
    ensures y == x
    decreases |y|
  {
    if y != [] && RuneLength(y) > 0 {
      var rune, rest := RuneStep(y);
      RuneBefore(rune, Repaired(rest));
      RepairedToValid(Repaired(rest), rest);
    }
  }

  /** The text with its first lone octet exchanged for another one. */
  function Twin(x: bytes): bytes
    decreases |x|
  {
    if x == [] then []
    else if RuneLength(x) == 0 then [if x[0] == 0xFF then 0xFE else 0xFF] + x[1..]
    else x[..RuneLength(x)] + Twin(x[RuneLength(x)..])
  }

  lemma {:induction false} TwinPrintsAlike(x: bytes)
    requires !ValidUtf8(x)
    ensures Twin(x) != x && Repaired(Twin(x)) == Repaired(x)
    decreases |x|
  {
    if RuneLength(x) == 0 {
      LoneBefore(if x[0] == 0xFF then 0xFE else 0xFF, x[1..]);
    } else {
      var rune, rest := RuneStep(x);
      TwinPrintsAlike(rest);
      assert Twin(x) == rune + Twin(rest);
      RuneBefore(rune, Twin(rest));
      assert x[|rune|..] == rest && Twin(x)[|rune|..] == Twin(rest);
    }
  }

  /** A text is the only one that prints as it does exactly when it is UTF-8. */
  lemma UniqueIffUtf8(x: bytes)
    ensures ValidUtf8(x) <==> forall y: bytes :: Quote(y) == Quote(x) ==> y == x
  {
    if ValidUtf8(x) {
      ValidIsSettled(x);
      forall y: bytes | Quote(y) == Quote(x)
        ensures y == x
      {
        QuoteEqualIff(x, y);
        RepairedToValid(x, y);
      }
    } else {
      TwinPrintsAlike(x);
      QuoteEqualIff(x, Twin(x));
      assert Quote(Twin(x)) == Quote(x) && Twin(x) != x;
    }
  }

  lemma QuoteSplit(x: bytes, r: bytes)
    ensures (Quote(x) + r)[1..] == Escape(x) + ([0x22] + r)
  {
    var e := Escape(x);
    assert Quote(x) + r == [0x22] + (e + ([0x22] + r));
  }

  /** Hexadecimal text is valid UTF-8 and needs no escapes. */
  lemma {:induction false} HexPlain(s: bytes)
    requires Hex.AllDigits(s)
    ensures ValidUtf8(s) && Escape(s) == s && Settled(s)
    decreases |s|
  {
    if s != [] {
      assert Hex.Unhex(s[0]) <= 15;
      HexPlain(s[1..]);
      assert s[..1] == [s[0]] && s == [s[0]] + s[1..];
    }
  }
}
