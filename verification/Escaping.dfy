/**
 The JSON escaping of prompts, and the decoder of section 7 of RFC 8259 as its specification.
 Input is bytes; the escape of a byte depends on whether `char` is signed.
 */
module Escaping {
  import opened Options
  import opened Scanning

  type Byte = b: int | 0 <= b < 256

  /** The value of a `char` holding byte `b`. */
  function CharValue(b: Byte, signedChar: bool): int {
    if signedChar && b >= 128 then b - 256 else b
  }

  /* ---------- hexadecimal ---------- */

  function HexDigit(d: nat): char
    requires d < 16
  {
    if d < 10 then ('0' as int + d) as char else ('a' as int + d - 10) as char
  }

  /** Lower-case digits without leading zeros, as `std::hex` prints them. */
  function Hex(n: nat): string {
    if n < 16 then [HexDigit(n)] else Hex(n / 16) + [HexDigit(n % 16)]
  }

  /** `setw(4)` and `setfill('0')`: padded on the left, never cut. */
  function Pad4(s: string): string
    decreases 4 - |s|
  {
    if |s| < 4 then Pad4("0" + s) else s
  }

  function HexValue(c: char): Option<nat> {
    if '0' <= c <= '9' then Some(c as int - '0' as int)
    else if 'a' <= c <= 'f' then Some(c as int - 'a' as int + 10)
    else if 'A' <= c <= 'F' then Some(c as int - 'A' as int + 10)
    else None
  }

  predicate FourHexDigits(s: string) {
    |s| == 4 && forall i :: 0 <= i < 4 ==> HexValue(s[i]).Some?
  }

  function FourHexValue(s: string): nat
    requires FourHexDigits(s)
  {
    ((HexValue(s[0]).value * 16 + HexValue(s[1]).value) * 16 + HexValue(s[2]).value) * 16 + HexValue(s[3]).value
  }

  lemma HexDigitValue(d: nat)
    requires d < 16
    ensures HexValue(HexDigit(d)) == Some(d)
    ensures '0' <= HexDigit(d) <= '9' || 'a' <= HexDigit(d) <= 'f'
  {
  }

  /** Left-padded with zeros, a number below a power of 16 has that many digits. */
  lemma HexDigits(n: nat)
    requires n < 65536
    ensures n < 16 ==> Hex(n) == [HexDigit(n)]
    ensures 16 <= n < 256 ==> Hex(n) == [HexDigit(n / 16), HexDigit(n % 16)]
    ensures 256 <= n < 4096 ==> Hex(n) == [HexDigit(n / 16 / 16), HexDigit(n / 16 % 16), HexDigit(n % 16)]
    ensures 4096 <= n ==>
              Hex(n) == [HexDigit(n / 16 / 16 / 16), HexDigit(n / 16 / 16 % 16), HexDigit(n / 16 % 16), HexDigit(n % 16)]
  {
    if n >= 16 {
      HexDigits(n / 16);
    }
  }

  lemma Pad4Zeros(s: string)
    requires 1 <= |s| <= 4
    ensures Pad4(s) == if |s| == 1 then "000" + s else if |s| == 2 then "00" + s else if |s| == 3 then "0" + s else s
    decreases 4 - |s|
  {
    if |s| < 4 {
      Pad4Zeros("0" + s);
    }
  }

  /** A 16-bit number is padded to exactly its four digits, which are read back as the number. */
  lemma Pad4Hex(n: nat)
    requires n < 65536
    ensures var p := Pad4(Hex(n));
            && FourHexDigits(p) && FourHexValue(p) == n
            && (forall i :: 0 <= i < 4 ==> '0' <= p[i] <= '9' || 'a' <= p[i] <= 'f')
            && forall i :: 0 <= i < 4 ==> ' ' < p[i] <= '~' && p[i] != '"' && p[i] != '\\'
  {
    var n1, n2, n3 := n / 16, n / 16 / 16, n / 16 / 16 / 16;
    Pad4Digits(n);
    HexDigitValue(n % 16);
    HexDigitValue(n1 % 16);
    HexDigitValue(n2 % 16);
    HexDigitValue(n3);
    assert n == ((n3 * 16 + n2 % 16) * 16 + n1 % 16) * 16 + n % 16;
  }

  lemma Pad4Digits(n: nat)
    requires n < 65536
    ensures n / 16 / 16 / 16 < 16
    ensures Pad4(Hex(n)) ==
            [HexDigit(n / 16 / 16 / 16), HexDigit(n / 16 / 16 % 16), HexDigit(n / 16 % 16), HexDigit(n % 16)]
  {
    HexDigits(n);
    Pad4Zeros(Hex(n));
    assert HexDigit(0) == '0';
  }

  /* ---------- escaping ---------- */

  /** `v & 0xFFFF` in two's complement. */
  function Mask16(v: int): nat
    requires -65536 <= v < 65536
  {
    if v < 0 then v + 65536 else v
  }

  /** The number behind `\u`: the `char` value masked to 16 bits. */
  function CodeUnit(b: Byte, signedChar: bool): (u: nat)
    ensures u < 65536
  {
    Mask16(CharValue(b, signedChar))
  }

  function EscapeByte(b: Byte, signedChar: bool): string {
    if b == 92 then "\\\\"
    else if b == 34 then "\\\""
    else if b == 10 then "\\n"
    else if b == 9 then "\\t"
    else if b == 13 then "\\r"
    else if b == 8 then "\\b"
    else if b == 12 then "\\f"
    else
      var v := CharValue(b, signedChar);
      if v < 0x20 || v > 0x7E then "\\u" + Pad4(Hex(CodeUnit(b, signedChar))) else [b as char]
  }

  function Escape(s: seq<Byte>, signedChar: bool): string
    decreases |s|
  {
    if s == [] then "" else EscapeByte(s[0], signedChar) + Escape(s[1..], signedChar)
  }

  /** Bytes are escaped one by one: printable ones stand for themselves, seven have a letter, and the others are numbers. */
  lemma EscapeOfByte(b: Byte, signedChar: bool)
    ensures EscapeByte(b, signedChar) ==
            if b == '"' as int then ['\\', '"']
            else if b == '\\' as int then ['\\', '\\']
            else if ' ' as int <= b <= '~' as int then [b as char]
            else if b == '\n' as int then ['\\', 'n']
            else if b == '\t' as int then ['\\', 't']
            else if b == '\r' as int then ['\\', 'r']
            else if b == 8 then ['\\', 'b']
            else if b == 12 then ['\\', 'f']
            else "\\u" + Pad4(Hex(if signedChar && b >= 128 then 0xFF00 + b else b))
  {
  }

  lemma {:induction false} EscapeConcat(s: seq<Byte>, s': seq<Byte>, signedChar: bool)
    ensures Escape(s + s', signedChar) == Escape(s, signedChar) + Escape(s', signedChar)
    decreases |s|
  {
    if s == [] {
      assert s + s' == s';
    } else {
      assert (s + s')[1..] == s[1..] + s';
      EscapeConcat(s[1..], s', signedChar);
    }
  }

  lemma EscapeSnoc(s: seq<Byte>, b: Byte, signedChar: bool)
    ensures Escape(s + [b], signedChar) == Escape(s, signedChar) + EscapeByte(b, signedChar)
  {
    EscapeConcat(s, [b], signedChar);
    assert Escape([b], signedChar) == EscapeByte(b, signedChar) + Escape([], signedChar);
  }

  method EscapeSpecialCases(input: seq<Byte>, signedChar: bool) returns (escaped: string)
    ensures escaped == Escape(input, signedChar)
  {
    escaped := "";
    for i := 0 to |input|
      invariant escaped == Escape(input[..i], signedChar)
    {
      var b := input[i];
      EscapeSnoc(input[..i], b, signedChar);
      assert input[..i + 1] == input[..i] + [b];
      match b
      case 92 => escaped := escaped + "\\\\";
      case 34 => escaped := escaped + "\\\"";
      case 10 => escaped := escaped + "\\n";
      case 9 => escaped := escaped + "\\t";
      case 13 => escaped := escaped + "\\r";
      case 8 => escaped := escaped + "\\b";
      case 12 => escaped := escaped + "\\f";
      case _ =>
        var v := CharValue(b, signedChar);
        if v < 0x20 || v > 0x7E {
          escaped := escaped + ("\\u" + Pad4(Hex(Mask16(v))));
        } else {
          escaped := escaped + [b as char];
        }
    }
    assert input[..|input|] == input;
  }

  /* ---------- the decoder ---------- */

  /** UTF-16 code units of a character. */
  function Units(c: char): seq<nat> {
    var n := c as int;
    if n < 0x10000 then [n] else [0xD800 + (n - 0x10000) / 0x400, 0xDC00 + (n - 0x10000) % 0x400]
  }

  function SimpleEscape(c: char): Option<nat> {
    match c
    case '"' => Some(34)
    case '\\' => Some(92)
    case '/' => Some(47)
    case 'b' => Some(8)
    case 'f' => Some(12)
    case 'n' => Some(10)
    case 'r' => Some(13)
    case 't' => Some(9)
    case _ => None
  }

  /** Section 7: the code units of the text between the quotes of a string, if it is one. */
  function Decode(t: string): Option<seq<nat>>
    decreases |t|
  {
    if t == "" then Some([])
    else if t[0] == '\\' then
      if |t| < 2 then None
      else if t[1] == 'u' then
        if |t| >= 6 && FourHexDigits(t[2..6]) then Before([FourHexValue(t[2..6])], Decode(t[6..])) else None
      else match SimpleEscape(t[1])
        case None => None
        case Some(u) => Before([u], Decode(t[2..]))
    else if t[0] == '"' || t[0] < ' ' then None
    else Before(Units(t[0]), Decode(t[1..]))
  }

  function Before(us: seq<nat>, r: Option<seq<nat>>): Option<seq<nat>> {
    match r
    case None => None
    case Some(vs) => Some(us + vs)
  }

  /* ---------- round trip ---------- */

  lemma DecodeEscapedByte(b: Byte, signedChar: bool, rest: string)
    ensures Decode(EscapeByte(b, signedChar) + rest) == Before([CodeUnit(b, signedChar)], Decode(rest))
  {
    if HasShortEscape(b) {
      DecodeShortEscape(b, signedChar, rest);
    } else if |EscapeByte(b, signedChar)| == 1 {
      DecodePlainByte(b, signedChar, rest);
    } else {
      Pad4Hex(CodeUnit(b, signedChar));
      DecodeUnicodeEscape(Pad4(Hex(CodeUnit(b, signedChar))), rest);
      UnicodeEscapeText(Pad4(Hex(CodeUnit(b, signedChar))), rest);
    }
  }

  /** The seven bytes that are escaped by a backslash and one letter. */
  predicate HasShortEscape(b: Byte) {
    b == 92 || b == 34 || b == 10 || b == 9 || b == 13 || b == 8 || b == 12
  }

  lemma DecodeShortEscape(b: Byte, signedChar: bool, rest: string)
    requires HasShortEscape(b)
    ensures Decode(EscapeByte(b, signedChar) + rest) == Before([CodeUnit(b, signedChar)], Decode(rest))
  {
    var e := EscapeByte(b, signedChar);
    assert |e| == 2 && e[0] == '\\' && SimpleEscape(e[1]) == Some(CodeUnit(b, signedChar));
    assert (e + rest)[2..] == rest;
  }

  lemma DecodePlainByte(b: Byte, signedChar: bool, rest: string)
    requires !HasShortEscape(b) && |EscapeByte(b, signedChar)| == 1
    ensures Decode(EscapeByte(b, signedChar) + rest) == Before([CodeUnit(b, signedChar)], Decode(rest))
  {
    var e := EscapeByte(b, signedChar);
    assert e == [b as char] && 0x20 <= b <= 0x7E;
    assert (e + rest)[1..] == rest;
  }

  lemma UnicodeEscapeText(digits: string, rest: string)
    ensures ("\\u" + digits) + rest == "\\u" + (digits + rest)
  {
  }

  lemma DecodeUnicodeEscape(digits: string, rest: string)
    requires FourHexDigits(digits)
    ensures Decode("\\u" + (digits + rest)) == Before([FourHexValue(digits)], Decode(rest))
  {
    var t := "\\u" + (digits + rest);
    assert t[0] == '\\' && t[1] == 'u' && t[2..6] == digits && t[6..] == rest;
  }

  function CodeUnits(s: seq<Byte>, signedChar: bool): (us: seq<nat>)
    ensures |us| == |s| && forall i :: 0 <= i < |s| ==> us[i] == CodeUnit(s[i], signedChar)
  {
    if s == [] then [] else [CodeUnit(s[0], signedChar)] + CodeUnits(s[1..], signedChar)
  }

  /** Decoding the escaped bytes gives one code unit for each byte. */
  lemma {:induction false} EscapeRoundTrip(s: seq<Byte>, signedChar: bool)
    ensures Decode(Escape(s, signedChar)) == Some(CodeUnits(s, signedChar))
    decreases |s|
  {
    if s != [] {
      DecodeEscapedByte(s[0], signedChar, Escape(s[1..], signedChar));
      EscapeRoundTrip(s[1..], signedChar);
    }
  }

  predicate IsAscii(s: seq<Byte>) {
    forall i :: 0 <= i < |s| ==> s[i] < 128
  }

  /** The original comes back for every ASCII input; where `char` is signed, for no other. */
  lemma DecodesToItself(s: seq<Byte>, signedChar: bool)
    ensures Decode(Escape(s, signedChar)) == Some(s) <==> !signedChar || IsAscii(s)
  {
    EscapeRoundTrip(s, signedChar);
    var us := CodeUnits(s, signedChar);
    if !signedChar || IsAscii(s) {
      assert us == s;
    } else {
      var i :| 0 <= i < |s| && s[i] >= 128;
      assert us[i] != s[i];
    }
  }

  /** Different inputs are escaped differently. */
  lemma EscapeInjective(s: seq<Byte>, s': seq<Byte>, signedChar: bool)
    requires Escape(s, signedChar) == Escape(s', signedChar)
    ensures s == s'
  {
    EscapeRoundTrip(s, signedChar);
    EscapeRoundTrip(s', signedChar);
    var us, us' := CodeUnits(s, signedChar), CodeUnits(s', signedChar);
    assert us == us';
    forall i | 0 <= i < |s| ensures s[i] == s'[i] {
      assert us[i] == us'[i];
    }
  }

  predicate IsPrintable(t: string) {
    forall i :: 0 <= i < |t| ==> ' ' <= t[i] <= '~'
  }

  lemma EscapeBytePrintable(b: Byte, signedChar: bool)
    ensures IsPrintable(EscapeByte(b, signedChar))
    ensures var e := EscapeByte(b, signedChar);
            if e[0] == '\\' then |e| == 2 || (|e| == 6 && '\\' !in e[2..] && '"' !in e[2..]) else |e| == 1 && e[0] != '"'
  {
    if |EscapeByte(b, signedChar)| > 2 {
      Pad4Hex(CodeUnit(b, signedChar));
    }
  }

  lemma {:induction false} EscapePrintable(s: seq<Byte>, signedChar: bool)
    ensures IsPrintable(Escape(s, signedChar))
    decreases |s|
  {
    if s != [] {
      EscapeBytePrintable(s[0], signedChar);
      EscapePrintable(s[1..], signedChar);
    }
  }

  /** A scanner that consumes backslash pairs finds no closing quote in the output. */
  lemma {:induction false} EscapeHasNoQuote(s: seq<Byte>, signedChar: bool)
    ensures IsLiteralBody(Escape(s, signedChar), '"')
    decreases |s|
  {
    if s != [] {
      EscapeHasNoQuote(s[1..], signedChar);
      EscapeBytePrintable(s[0], signedChar);
      var e, rest := EscapeByte(s[0], signedChar), Escape(s[1..], signedChar);
      if |e| == 6 {
        PlainBody(e[2..], rest);
        assert (e + rest)[2..] == e[2..] + rest;
      } else {
        assert (e + rest)[|e|..] == rest;
      }
    }
  }

  lemma {:induction false} PlainBody(w: string, rest: string)
    requires '\\' !in w && '"' !in w && IsLiteralBody(rest, '"')
    ensures IsLiteralBody(w + rest, '"')
    decreases |w|
  {
    if w == "" {
      assert w + rest == rest;
    } else {
      assert w[0] in w;
      assert (w + rest)[1..] == w[1..] + rest;
      PlainBody(w[1..], rest);
    }
  }
}
