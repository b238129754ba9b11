/** What an RFC 8259 text denotes: the value of a string, of an integer, and of an object's member. */
module JsonValues {
  import opened Base
  import opened JsonText
  import Hex
  import Exchange

  // ---------------------------------------------------------------- strings

  /** The UTF-8 octets of a character (RFC 3629, section 3). */
  function Utf8(code: nat): bytes
    requires code < 0x110000
  {
    if code < 0x80 then [code]
    else if code < 0x800 then [0xC0 + code / 64, 0x80 + code % 64]
    else if code < 0x10000 then [0xE0 + code / 4096, 0x80 + code / 64 % 64, 0x80 + code % 64]
    else [0xF0 + code / 262144, 0x80 + code / 4096 % 64, 0x80 + code / 64 % 64, 0x80 + code % 64]
  }

  /** A character, not half of a surrogate pair. */
  predicate IsScalar(code: nat) {
    code < 0xD800 || 0xE000 <= code < 0x110000
  }

  lemma ThreeIsRune(a: nat, b: nat, c: nat)
    requires a < 16 && b < 64 && c < 64 && 4096 * a + 64 * b + c >= 0x800 && IsScalar(4096 * a + 64 * b + c)
    ensures IsRune([0xE0 + a, 0x80 + b, 0x80 + c])
  {
  }

  lemma FourIsRune(a: nat, b: nat, c: nat, d: nat)
    requires b < 64 && c < 64 && d < 64 && 0x10000 <= 262144 * a + 4096 * b + 64 * c + d < 0x110000
    ensures a < 5 && IsRune([0xF0 + a, 0x80 + b, 0x80 + c, 0x80 + d])
  {
  }

  lemma Parts3(code: nat)
    ensures code == 4096 * (code / 4096) + 64 * (code / 64 % 64) + code % 64
  {
    assert code / 64 / 64 == code / 4096;
  }

  lemma Parts4(code: nat)
    ensures code == 262144 * (code / 262144) + 4096 * (code / 4096 % 64) + 64 * (code / 64 % 64) + code % 64
  {
    Parts3(code);
    assert code / 4096 / 64 == code / 262144;
  }

  lemma ScalarIsRune(code: nat)
    requires IsScalar(code)
    ensures IsRune(Utf8(code))
  {
    if 0x800 <= code < 0x10000 {
      Parts3(code);
      ThreeIsRune(code / 4096, code / 64 % 64, code % 64);
    } else if 0x10000 <= code {
      Parts4(code);
      FourIsRune(code / 262144, code / 4096 % 64, code / 64 % 64, code % 64);
    }
  }

  lemma TwoScalar(rune: bytes) returns (code: nat)
    requires IsRune(rune) && |rune| == 2
    ensures IsScalar(code) && rune == Utf8(code)
  {
    var a: int, b: int := rune[0] - 0xC0, rune[1] - 0x80;
    code := 64 * a + b;
    assert code / 64 == a && code % 64 == b;
  }

  lemma ThreeScalar(rune: bytes) returns (code: nat)
    requires IsRune(rune) && |rune| == 3
    ensures IsScalar(code) && rune == Utf8(code)
  {
    var a: int, b: int, c: int := rune[0] - 0xE0, rune[1] - 0x80, rune[2] - 0x80;
    code := 4096 * a + 64 * b + c;
    Unpacked(a, b, c, code);
  }

  lemma FourScalar(rune: bytes) returns (code: nat)
    requires IsRune(rune) && |rune| == 4
    ensures IsScalar(code) && rune == Utf8(code)
  {
    var a: int, b: int, c: int, d: int := rune[0] - 0xF0, rune[1] - 0x80, rune[2] - 0x80, rune[3] - 0x80;
    code := 262144 * a + 4096 * b + 64 * c + d;
    Unpacked(64 * a + b, c, d, code);
    Unpacked(a, b, c, code / 64);
    assert code / 64 / 4096 == code / 262144 && code / 64 / 64 == code / 4096;
  }

  lemma Unpacked(a: nat, b: nat, c: nat, code: nat)
    requires b < 64 && c < 64 && code == 4096 * a + 64 * b + c
    ensures code / 4096 == a && code / 64 == 64 * a + b && code / 64 % 64 == b && code % 64 == c
  {
    assert code / 64 == 64 * a + b;
  }

  lemma RuneIsScalar(rune: bytes) returns (code: nat)
    requires IsRune(rune)
    ensures IsScalar(code) && rune == Utf8(code)
  {
    if |rune| == 1 {
      code := rune[0];
    } else if |rune| == 2 {
      code := TwoScalar(rune);
    } else if |rune| == 3 {
      code := ThreeScalar(rune);
    } else {
      code := FourScalar(rune);
    }
  }

  /** The validity test accepts exactly the sequences of encoded characters. */
  lemma {:induction false} Utf8Exactly(s: bytes)
    ensures ValidUtf8(s) <==> exists codes: seq<nat> :: (forall i :: 0 <= i < |codes| ==> IsScalar(codes[i])) && s == Encoded(codes)
    decreases |s|
  {
    if ValidUtf8(s) {
      var codes := CodesOf(s);
    }
    if codes: seq<nat> :| (forall i :: 0 <= i < |codes| ==> IsScalar(codes[i])) && s == Encoded(codes) {
      EncodedValid(codes);
    }
  }

  function Encoded(codes: seq<nat>): bytes {
    if codes == [] then []
    else (if IsScalar(codes[0]) then Utf8(codes[0]) else []) + Encoded(codes[1..])
  }

  lemma {:induction false} CodesOf(s: bytes) returns (codes: seq<nat>)
    requires ValidUtf8(s)
    ensures (forall i :: 0 <= i < |codes| ==> IsScalar(codes[i])) && s == Encoded(codes)
    decreases |s|
  {
    if s == [] {
      codes := [];
    } else {
      var n := RuneLength(s);
      RuneAtHead(s);
      var code := RuneIsScalar(s[..n]);
      var rest := CodesOf(s[n..]);
      codes := [code] + rest;
      assert codes[1..] == rest && s == s[..n] + s[n..];
    }
  }

  lemma {:induction false} EncodedValid(codes: seq<nat>)
    requires forall i :: 0 <= i < |codes| ==> IsScalar(codes[i])
    ensures ValidUtf8(Encoded(codes))
  {
    if codes != [] {
      EncodedValid(codes[1..]);
      ScalarIsRune(codes[0]);
      RuneBefore(Utf8(codes[0]), Encoded(codes[1..]));
    }
  }

  /** Section 7 of RFC 8259, except that halves of a surrogate pair have no value of their own. */
  function CharValue(c: Exchange.StrChar): Option<bytes> {
    match c
    case Plain(b) => Some([b])
    case Short(b) =>
      if b == 0x22 || b == 0x5C || b == 0x2F then Some([b])
      else if b == 0x62 then Some([8])
      else if b == 0x66 then Some([12])
      else if b == 0x6E then Some([10])
      else if b == 0x72 then Some([13])
      else if b == 0x74 then Some([9])
      else None
    case Unicode(d) =>
      if |d| != 4 || !Hex.AllDigits(d) then None
      else
        var code := 256 * Hex.Value(d[0], d[1]) + Hex.Value(d[2], d[3]);
        if 0xD800 <= code < 0xE000 then None else Some(Utf8(code))
  }

  function StringValue(chars: seq<Exchange.StrChar>): Option<bytes> {
    if chars == [] then Some([])
    else match (CharValue(chars[0]), StringValue(chars[1..]))
      case (Some(first), Some(rest)) => Some(first + rest)
      case _ => None
  }

  /** The text with U+FFFD for every octet that starts no rune. */
  function Replaced(s: bytes): bytes
    decreases |s|
  {
    if s == [] then []
    else if RuneLength(s) == 0 then [0xEF, 0xBF, 0xBD] + Replaced(s[1..])
    else s[..RuneLength(s)] + Replaced(s[RuneLength(s)..])
  }

  lemma {:induction false} ValidIsKept(s: bytes)
    requires ValidUtf8(s)
    ensures Replaced(s) == s
    decreases |s|
  {
    if s != [] {
      ValidIsKept(s[RuneLength(s)..]);
    }
  }

  /** A string literal's characters, their text and their value. */
  ghost predicate Spells(chars: seq<Exchange.StrChar>, text: bytes, value: bytes) {
    Exchange.CharsOk(chars) && Exchange.CharsText(chars) == text && StringValue(chars) == Some(value)
  }

  lemma SpellsOne(c: Exchange.StrChar, text: bytes, value: bytes)
    requires Exchange.CharOk(c) && Exchange.CharText(c) == text && CharValue(c) == Some(value)
    ensures Spells([c], text, value)
  {
    assert Exchange.CharsText([c]) == text + Exchange.CharsText([]);
    assert [c][1..] == [] && value + [] == value;
  }

  lemma SpellsCons(c: Exchange.StrChar, rest: seq<Exchange.StrChar>, t: bytes, v: bytes)
    requires Exchange.CharOk(c) && CharValue(c).Some? && Spells(rest, t, v)
    ensures Spells([c] + rest, Exchange.CharText(c) + t, CharValue(c).value + v)
  {
    assert ([c] + rest)[1..] == rest;
  }

  /** Any first character and the rest. */
  lemma SpelledFirst(a: seq<Exchange.StrChar>, t: bytes, v: bytes) returns (c: Exchange.StrChar, rest: seq<Exchange.StrChar>, u: bytes, w: bytes)
    requires a != [] && Spells(a, t, v)
    ensures a == [c] + rest && Exchange.CharOk(c) && CharValue(c).Some? && Spells(rest, u, w)
    ensures t == Exchange.CharText(c) + u && v == CharValue(c).value + w
  {
    c, rest := a[0], a[1..];
    u, w := Exchange.CharsText(rest), StringValue(rest).value;
  }

  lemma {:induction false} SpellsAppend(a: seq<Exchange.StrChar>, t: bytes, v: bytes, b: seq<Exchange.StrChar>, u: bytes, w: bytes)
    requires Spells(a, t, v) && Spells(b, u, w)
    ensures Spells(a + b, t + u, v + w)
    decreases |a|
  {
    if a == [] {
      assert a + b == b && t + u == u && v + w == w;
    } else {
      var c, rest, t', v' := SpelledFirst(a, t, v);
      SpellsAppend(rest, t', v', b, u, w);
      SpellsCons(c, rest + b, t' + u, v' + w);
      Rejoin([c], rest, b);
      Regroup(Exchange.CharText(c), t', u);
      Regroup(CharValue(c).value, v', w);
    }
  }

  /** Octets that stand for themselves. */
  function Verbatim(s: bytes): seq<Exchange.StrChar> {
    seq(|s|, i requires 0 <= i < |s| => Exchange.Plain(s[i]))
  }

  lemma {:induction false} VerbatimSpells(s: bytes)
    requires forall i :: 0 <= i < |s| ==> Exchange.CharOk(Exchange.Plain(s[i]))
    ensures Spells(Verbatim(s), s, s)
  {
    if s != [] {
      assert Verbatim(s)[1..] == Verbatim(s[1..]);
      VerbatimSpells(s[1..]);
      assert s == [s[0]] + s[1..];
    }
  }

  /** One printed rune stands for that rune. */
  lemma RuneSpelled(rune: bytes) returns (chars: seq<Exchange.StrChar>)
    requires IsRune(rune)
    ensures Spells(chars, EscapeRune(rune), rune)
  {
    if |rune| == 1 {
      chars := AsciiSpelled(rune[0]);
      assert rune == [rune[0]];
    } else if rune == [0xE2, 0x80, 0xA8] || rune == [0xE2, 0x80, 0xA9] {
      chars := SeparatorSpelled(rune);
    } else {
      chars := Verbatim(rune);
      LongRune(rune);
      VerbatimSpells(rune);
    }
  }

  lemma LongRune(rune: bytes)
    requires IsRune(rune) && |rune| > 1
    ensures forall i :: 0 <= i < |rune| ==> rune[i] >= 0x80
  {
  }

  lemma SeparatorSpelled(rune: bytes) returns (chars: seq<Exchange.StrChar>)
    requires rune == [0xE2, 0x80, 0xA8] || rune == [0xE2, 0x80, 0xA9]
    ensures Spells(chars, EscapeRune(rune), rune)
  {
    var digits := [0x32, 0x30, 0x32, if rune[2] == 0xA8 then 0x38 else 0x39];
    var c := Exchange.Unicode(digits);
    assert Hex.Value(digits[0], digits[1]) == 0x20 && Hex.Value(digits[2], digits[3]) == rune[2] - 0x80;
    assert Exchange.CharText(c) == EscapeRune(rune);
    SpellsOne(c, EscapeRune(rune), rune);
    chars := [c];
  }

  lemma AsciiSpelled(b: byte) returns (chars: seq<Exchange.StrChar>)
    requires b < 0x80
    ensures Spells(chars, EscapeAscii(b), [b])
  {
    var c: Exchange.StrChar;
    if |EscapeAscii(b)| == 1 {
      c := Exchange.Plain(b);
    } else if |EscapeAscii(b)| == 2 {
      c := Exchange.Short(EscapeAscii(b)[1]);
    } else {
      var digits := [0x30, 0x30] + Hex.Pair(b);
      c := Exchange.Unicode(digits);
      assert Hex.Value(digits[0], digits[1]) == 0 && Hex.Value(digits[2], digits[3]) == b;
      assert Exchange.CharText(c) == EscapeAscii(b);
    }
    SpellsOne(c, EscapeAscii(b), [b]);
    chars := [c];
  }

  lemma LoneSpelled() returns (chars: seq<Exchange.StrChar>)
    ensures Spells(chars, Ascii("\\ufffd"), [0xEF, 0xBF, 0xBD])
  {
    var digits := [0x66, 0x66, 0x66, 0x64];
    var c := Exchange.Unicode(digits);
    assert Hex.Value(digits[0], digits[1]) == 0xFF && Hex.Value(digits[2], digits[3]) == 0xFD;
    assert Exchange.CharText(c) == Ascii("\\ufffd");
    SpellsOne(c, Ascii("\\ufffd"), [0xEF, 0xBF, 0xBD]);
    chars := [c];
  }

  /** The characters of a printed text; see EscapeSpells. */
  lemma {:induction false} EscapeSpells(s: bytes) returns (chars: seq<Exchange.StrChar>)
    ensures Spells(chars, Escape(s), Replaced(s))
    decreases |s|
  {
    if s == [] {
      chars := [];
    } else if RuneLength(s) == 0 {
      var first := LoneSpelled();
      var rest := EscapeSpells(s[1..]);
      SpellsAppend(first, Ascii("\\ufffd"), [0xEF, 0xBF, 0xBD], rest, Escape(s[1..]), Replaced(s[1..]));
      chars := first + rest;
    } else {
      var n := RuneLength(s);
      RuneAtHead(s);
      var first := RuneSpelled(s[..n]);
      var rest := EscapeSpells(s[n..]);
      SpellsAppend(first, EscapeRune(s[..n]), s[..n], rest, Escape(s[n..]), Replaced(s[n..]));
      chars := first + rest;
    }
  }

  // ---------------------------------------------------------------- integers

  /** Digits without a superfluous leading zero. */
  function UnsignedValue(text: bytes): Option<int> {
    if text == [] || (exists i :: 0 <= i < |text| && !IsDigit(text[i])) || (|text| > 1 && text[0] == 48) then None
    else Some(Number(text))
  }

  /** The integers of section 6 of RFC 8259. */
  function IntegerValue(text: bytes): Option<int> {
    if text != [] && text[0] == 45 then
      match UnsignedValue(text[1..])
      case None => None
      case Some(n) => Some(-n)
    else
      match UnsignedValue(text)
      case None => None
      case Some(n) => Some(n)
  }

  lemma {:induction false} DecimalLeads(n: nat)
    ensures n > 0 ==> Decimal(n)[0] != 48
  {
    if n >= 10 {
      DecimalLeads(n / 10);
    }
  }

  lemma UnsignedOfDecimal(n: nat)
    ensures UnsignedValue(Decimal(n)) == Some(n)
    ensures forall i :: 0 <= i < |Decimal(n)| ==> IsDigit(Decimal(n)[i])
  {
    forall i | 0 <= i < |Decimal(n)|
      ensures IsDigit(Decimal(n)[i])
    {
      DecimalDigits(n, i);
    }
    DecimalLeads(n);
    NumberOfDecimal(n);
  }

  /** A printed integer is a JSON number with that value. */
  lemma SignedValue(n: int)
    ensures IntegerValue(Signed(n)) == Some(n) && Exchange.LiteralOk(Signed(n))
  {
    var digits := Decimal(if n < 0 then -n else n);
    UnsignedOfDecimal(if n < 0 then -n else n);
    if n < 0 {
      assert ([45] + digits)[1..] == digits;
    }
  }

  // ---------------------------------------------------------------- members

  /** Every value an object gives a name, in order. */
  function Values(members: seq<Exchange.Member>, name: bytes): seq<Exchange.Json> {
    if members == [] then []
    else ValueIf(members[0], name) + Values(members[1..], name)
  }

  /** The object gives the name once, as this value. */
  predicate Under(v: Exchange.Json, name: string, value: Exchange.Json) {
    v.Object? && Values(v.members, Ascii(name)) == [value]
  }

  predicate StringUnder(v: Exchange.Json, name: string, text: bytes) {
    && v.Object? && |Values(v.members, Ascii(name))| == 1
    && var w := Values(v.members, Ascii(name))[0];
       w.Str? && StringValue(w.chars) == Some(text)
  }

  predicate IntegerUnder(v: Exchange.Json, name: string, n: int) {
    && v.Object? && |Values(v.members, Ascii(name))| == 1
    && var w := Values(v.members, Ascii(name))[0];
       w.Literal? && IntegerValue(w.text) == Some(n)
  }

  predicate Absent(v: Exchange.Json, name: string) {
    v.Object? && Values(v.members, Ascii(name)) == []
  }

  function ValueIf(m: Exchange.Member, name: bytes): seq<Exchange.Json> {
    if StringValue(m.name) == Some(name) then [m.element.value] else []
  }

  lemma ValuesCons(m: Exchange.Member, rest: seq<Exchange.Member>, name: bytes)
    ensures Values([m] + rest, name) == ValueIf(m, name) + Values(rest, name)
  {
    assert ([m] + rest)[1..] == rest;
  }

  lemma {:induction false} ValuesAppend(a: seq<Exchange.Member>, b: seq<Exchange.Member>, name: bytes)
    ensures Values(a + b, name) == Values(a, name) + Values(b, name)
  {
    if a == [] {
      assert a + b == b;
    } else {
      var m, rest := a[0], a[1..];
      ValuesAppend(rest, b, name);
      assert a == [m] + rest;
      Rejoin([m], rest, b);
      ValuesCons(m, rest, name);
      ValuesCons(m, rest + b, name);
      Rejoin(ValueIf(m, name), Values(rest, name), Values(b, name));
    }
  }
}
