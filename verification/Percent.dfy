/** Percent encoding and decoding of bytes. */
module Percent {
  import opened Text

  /** A byte string: every character is an `unsigned char`. */
  predicate IsBytes(s: string) {
    forall i :: 0 <= i < |s| ==> s[i] as int < 256
  }

  type Bytes = s: string | IsBytes(s) witness ""

  /** The characters of "0123456789ABCDEF". */
  function HexChar(d: nat): (c: char)
    requires d < 16
    ensures UpperHex(c)
  {
    if d < 10 then ('0' as int + d) as char else ('A' as int + d - 10) as char
  }

  predicate UpperHex(c: char) {
    '0' <= c <= '9' || 'A' <= c <= 'F'
  }

  /** The unreserved characters of section 2.3 of RFC 3986. */
  predicate Unreserved(c: char) {
    '0' <= c <= '9' || 'A' <= c <= 'Z' || 'a' <= c <= 'z' || c == '-' || c == '.' || c == '_' || c == '~'
  }

  function EncodeChar(c: char): (r: string)
    requires c as int < 256
  {
    if Unreserved(c) then [c] else ['%', HexChar(c as int / 16), HexChar(c as int % 16)]
  }

  function Encoded(value: Bytes): string
    decreases |value|
  {
    if value == "" then "" else EncodeChar(value[0]) + Encoded(value[1..])
  }

  function HexValue(c: char): (v: int)
    ensures -1 <= v < 16
  {
    if '0' <= c <= '9' then c as int - '0' as int
    else if 'A' <= c <= 'F' then c as int - 'A' as int + 10
    else if 'a' <= c <= 'f' then c as int - 'a' as int + 10
    else -1
  }

  lemma {:induction false} HexCharValue(d: nat)
    requires d < 16
    ensures HexValue(HexChar(d)) == d
  {
  }

  /** White space that `strtol` and its relatives skip. */
  predicate IsSpace(c: char) {
    c == ' ' || '\t' <= c <= '\r'
  }

  /** `static_cast<char>(strtol({a, b}, nullptr, 16))`: one leading blank or sign is accepted, the
      conversion stops at the first character that is no hexadecimal digit, and the value is
      truncated to a byte. */
  function DecodePair(a: char, b: char): (r: char)
    ensures r as int < 256
  {
    var low := if HexValue(b) < 0 then 0 else HexValue(b);
    if HexValue(a) >= 0 then (if HexValue(b) < 0 then HexValue(a) else 16 * HexValue(a) + low) as char
    else if a == '-' && low > 0 then (256 - low) as char
    else if a == '-' || a == '+' || IsSpace(a) then low as char
    else 0 as char
  }

  function Decoded(value: string): string
    decreases |value|
  {
    if value == "" then ""
    else if value[0] == '%' && 2 < |value| then [DecodePair(value[1], value[2])] + Decoded(value[3..])
    else if value[0] == '+' then " " + Decoded(value[1..])
    else [value[0]] + Decoded(value[1..])
  }

  /** One step of decoding in the middle of a text. */
  lemma {:induction false} DecodedStep(value: string, i: nat)
    requires i < |value|
    ensures Decoded(value[i..]) ==
            if value[i] == '%' && i + 2 < |value| then
              [DecodePair(value[i + 1], value[i + 2])] + Decoded(value[i + 3..])
            else if value[i] == '+' then " " + Decoded(value[i + 1..])
            else [value[i]] + Decoded(value[i + 1..])
  {
    var s := value[i..];
    assert s[1..] == value[i + 1..];
    if 2 < |s| {
      assert s[3..] == value[i + 3..] && s[1] == value[i + 1] && s[2] == value[i + 2];
    }
  }

  lemma {:induction false} EncodedStep(value: Bytes, i: nat)
    requires i < |value|
    ensures Encoded(value[i..]) == EncodeChar(value[i]) + Encoded(value[i + 1..])
  {
    assert value[i..][1..] == value[i + 1..];
  }

  lemma {:induction false} CodeOf(c: char)
    requires c as int < 256
    ensures EncodeChar(c) ==
            if !Unreserved(c) then "%" + [HexChar(c as int / 16)] + [HexChar(c as int % 16)] else [c]
  {
  }

  method Encode(value: Bytes) returns (result: string)
    ensures result == Encoded(value)
  {
    assert Encoded("") == "" && value[0..] == value;
    result := "";
    for i := 0 to |value|
      invariant Encoded(value) == result + Encoded(value[i..])
    {
      hide *;
      EncodedStep(value, i);
      CodeOf(value[i]);
      Assoc(result, EncodeChar(value[i]), Encoded(value[i + 1..]));
      var chr := value[i];
      if !Unreserved(chr) {
        result := result + ("%" + [HexChar(chr as int / 16)] + [HexChar(chr as int % 16)]);
      } else {
        result := result + [chr];
      }
    }
  }

  method Decode(value: string) returns (result: string)
    ensures result == Decoded(value)
  {
    assert value[0..] == value && Decoded("") == "";
    result := "";
    var i := 0;
    while i < |value|
      invariant 0 <= i <= |value|
      invariant Decoded(value) == result + Decoded(value[i..])
    {
      hide *;
      DecodedStep(value, i);
      var chr, decoded := value[i], value[i];
      if chr == '%' && i + 2 < |value| {
        decoded := DecodePair(value[i + 1], value[i + 2]);
        i := i + 2;
      } else if chr == '+' {
        decoded := ' ';
      }
      i := i + 1;
      Assoc(result, [decoded], Decoded(value[i..]));
      result := result + [decoded];
    }
  }

  lemma {:induction false} EncodeCharInverts(c: char)
    requires c as int < 256
    ensures !Unreserved(c) ==> DecodePair(HexChar(c as int / 16), HexChar(c as int % 16)) == c
  {
    HexCharValue(c as int / 16);
    HexCharValue(c as int % 16);
  }

  lemma {:induction false} DecodeCode(c: char, more: string)
    requires c as int < 256
    ensures Decoded(EncodeChar(c) + more) == [c] + Decoded(more)
  {
    EncodeCharInverts(c);
    var s := EncodeChar(c) + more;
    assert s[|EncodeChar(c)|..] == more;
    assert s[0] == EncodeChar(c)[0];
    if !Unreserved(c) {
      assert s[1] == EncodeChar(c)[1] && s[2] == EncodeChar(c)[2];
    }
  }

  /** Decoding undoes encoding, whatever follows the encoded text. */
  lemma {:induction false} DecodeEncodedThen(value: Bytes, tail: string)
    ensures Decoded(Encoded(value) + tail) == value + Decoded(tail)
    decreases |value|
  {
    if value == "" {
      assert Encoded(value) + tail == tail;
    } else {
      hide *;
      EncodedStep(value, 0);
      assert value[0..] == value;
      var rest := Encoded(value[1..]);
      Assoc(EncodeChar(value[0]), rest, tail);
      DecodeCode(value[0], rest + tail);
      DecodeEncodedThen(value[1..], tail);
      Assoc([value[0]], value[1..], Decoded(tail));
      assert value == [value[0]] + value[1..];
    }
  }

  /** `decode(encode(v)) == v` for every byte string. */
  lemma {:induction false} DecodeEncoded(value: Bytes)
    ensures Decoded(Encoded(value)) == value
  {
    DecodeEncodedThen(value, "");
    assert Encoded(value) + "" == Encoded(value);
  }

  /** `s` is made of unreserved characters and `%HH` triples, upper-case digits only. */
  predicate WellEncoded(s: string)
    decreases |s|
  {
    s == "" ||
    (Unreserved(s[0]) && WellEncoded(s[1..])) ||
    (s[0] == '%' && 2 < |s| && UpperHex(s[1]) && UpperHex(s[2]) && WellEncoded(s[3..]))
  }

  lemma {:induction false} EncodedIsWellEncoded(value: Bytes)
    ensures WellEncoded(Encoded(value))
    decreases |value|
  {
    if value != "" {
      var more := Encoded(value[1..]);
      EncodedIsWellEncoded(value[1..]);
      if Unreserved(value[0]) {
        assert (EncodeChar(value[0]) + more)[1..] == more;
      } else {
        assert (EncodeChar(value[0]) + more)[3..] == more;
      }
    }
  }

  /** The characters of an encoded text: none of the separators of a query or an attribute list. */
  lemma {:induction false} WellEncodedChars(s: string)
    requires WellEncoded(s)
    ensures forall c :: c in s ==> Unreserved(c) || c == '%'
    decreases |s|
  {
    if s != "" {
      if Unreserved(s[0]) {
        assert s == [s[0]] + s[1..];
        WellEncodedChars(s[1..]);
      } else {
        assert s == [s[0], s[1], s[2]] + s[3..];
        WellEncodedChars(s[3..]);
      }
    }
  }

  /** The size that `decode` reserves is a lower bound, and decoding never grows the text. */
  lemma {:induction false} DecodedSize(value: string)
    ensures |value| / 3 + |value| % 3 <= |Decoded(value)| <= |value|
    decreases |value|
  {
    if value != "" {
      if value[0] == '%' && 2 < |value| {
        DecodedSize(value[3..]);
      } else {
        DecodedSize(value[1..]);
      }
    }
  }

  // ----- what the codec means, character by character

  const UPPER_DIGITS := "0123456789ABCDEF"
  const LOWER_DIGITS := "0123456789abcdef"
  const UNRESERVED := UPPER_LETTERS + LOWER_LETTERS + "0123456789-._~"

  /** The hexadecimal digits are those of the two alphabets, with their places as values. */
  lemma {:induction false} HexDigits(c: char)
    ensures forall d :: 0 <= d < 16 ==> HexValue(UPPER_DIGITS[d]) == d && HexValue(LOWER_DIGITS[d]) == d
    ensures HexValue(c) >= 0 <==> c in UPPER_DIGITS || c in LOWER_DIGITS
  {
    var v := HexValue(c);
    assert v >= 0 ==> c == UPPER_DIGITS[v] || c == LOWER_DIGITS[v];
  }

  lemma {:induction false} EncodedAppend(a: Bytes, b: Bytes)
    ensures Encoded(a + b) == Encoded(a) + Encoded(b)
    decreases |a|
  {
    if a == "" {
      assert a + b == b;
    } else {
      assert (a + b)[1..] == a[1..] + b;
      EncodedAppend(a[1..], b);
      Assoc(EncodeChar(a[0]), Encoded(a[1..]), Encoded(b));
    }
  }

  /** With `EncodedAppend` this is all there is to encoding: an unreserved character stays, any other becomes
      a triple. */
  lemma {:induction false} EncodedCharacter(c: char)
    requires c as int < 256
    ensures IsBytes([c])
    ensures Encoded([c]) ==
            if c in UNRESERVED then [c] else ['%', UPPER_DIGITS[c as int / 16], UPPER_DIGITS[c as int % 16]]
  {
    assert Encoded([c]) == EncodeChar(c) + "";
    UnreservedCharacters(c);
    UpperDigit(c as int / 16);
    UpperDigit(c as int % 16);
  }

  lemma {:induction false} UnreservedCharacters(c: char)
    ensures Unreserved(c) <==> c in UNRESERVED
  {
    UpperLetters(c);
    LowerLetters(c);
    OtherUnreserved(c);
  }

  lemma {:induction false} OtherUnreserved(c: char)
    ensures c in "0123456789-._~" <==> '0' <= c <= '9' || c == '-' || c == '.' || c == '_' || c == '~'
  {
    assert '0' <= c <= '9' ==> "0123456789-._~"[c as int - '0' as int] == c;
  }

  lemma {:induction false} UpperDigit(d: nat)
    requires d < 16
    ensures HexChar(d) == UPPER_DIGITS[d]
  {
  }

  /** How a byte can be spelled: as it is, a blank as `+`, or as a triple with digits of either case. */
  datatype Code = Plain(c: char) | Plus | Triple(high: nat, low: nat, upperHigh: bool, upperLow: bool)

  predicate ValidCode(x: Code) {
    match x
    case Plain(c) => c != '%' && c != '+'
    case Plus => true
    case Triple(high, low, _, _) => high < 16 && low < 16
  }

  function Digit(d: nat, upper: bool): char
    requires d < 16
  {
    if upper then UPPER_DIGITS[d] else LOWER_DIGITS[d]
  }

  function CodeText(x: Code): string
    requires ValidCode(x)
  {
    match x
    case Plain(c) => [c]
    case Plus => "+"
    case Triple(high, low, upperHigh, upperLow) => ['%', Digit(high, upperHigh), Digit(low, upperLow)]
  }

  function CodeValue(x: Code): char
    requires ValidCode(x)
  {
    match x
    case Plain(c) => c
    case Plus => ' '
    case Triple(high, low, _, _) => (16 * high + low) as char
  }

  predicate ValidCodes(codes: seq<Code>) {
    forall x :: x in codes ==> ValidCode(x)
  }

  function Spelled(codes: seq<Code>): string
    requires ValidCodes(codes)
  {
    if codes == [] then "" else CodeText(codes[0]) + Spelled(codes[1..])
  }

  function Meant(codes: seq<Code>): string
    requires ValidCodes(codes)
  {
    if codes == [] then "" else [CodeValue(codes[0])] + Meant(codes[1..])
  }

  /** However a text is spelled, decoding gives what was meant: `+` is a blank, a triple of either case is its
      byte, every other character is itself; and what follows is decoded on its own. */
  lemma {:induction false} DecodeSpelled(codes: seq<Code>, tail: string)
    requires ValidCodes(codes)
    ensures Decoded(Spelled(codes) + tail) == Meant(codes) + Decoded(tail)
  {
    hide Decoded, CodeText, CodeValue;
    if codes == [] {
      assert "" + tail == tail && "" + Decoded(tail) == Decoded(tail);
    } else {
      assert codes[0] in codes;
      var more := Spelled(codes[1..]) + tail;
      Assoc(CodeText(codes[0]), Spelled(codes[1..]), tail);
      DecodeOne(codes[0], more);
      DecodeSpelled(codes[1..], tail);
      Assoc([CodeValue(codes[0])], Meant(codes[1..]), Decoded(tail));
    }
  }

  lemma {:induction false} DecodeOne(x: Code, more: string)
    requires ValidCode(x)
    ensures Decoded(CodeText(x) + more) == [CodeValue(x)] + Decoded(more)
  {
    hide Digit, DecodePair;
    var s, n := CodeText(x) + more, |CodeText(x)|;
    assert s[n..] == more && s[0] == CodeText(x)[0];
    if x.Triple? {
      assert s[1] == Digit(x.high, x.upperHigh) && s[2] == Digit(x.low, x.upperLow);
      TriplePair(x.high, x.low, x.upperHigh, x.upperLow);
    }
  }

  lemma {:induction false} TriplePair(high: nat, low: nat, upperHigh: bool, upperLow: bool)
    requires high < 16 && low < 16
    ensures DecodePair(Digit(high, upperHigh), Digit(low, upperLow)) == (16 * high + low) as char
  {
    hide HexValue;
    HexDigits('0');
  }

  /** A percent sign with fewer than two characters behind it stands for itself. */
  lemma {:induction false} IncompleteTriple(c: char)
    ensures Decoded("%") == "%"
    ensures Decoded(['%', c]) == ['%', if c == '+' then ' ' else c]
  {
    assert Decoded("") == "" && "%"[1..] == "";
    assert ['%', c][1..] == [c] && [c][1..] == "";
  }

  const WHITE_SPACE := " \t\n\U{0B}\U{0C}\r"

  /** Two characters that are no two digits are read as the C library reads a number: white space or a sign may
      come first, the digits end at the first other character, and no digit at all is zero. */
  lemma {:induction false} OtherPairs(a: char, b: char, d: nat, upper: bool)
    requires d < 16
    ensures b !in UPPER_DIGITS && b !in LOWER_DIGITS ==> DecodePair(Digit(d, upper), b) == d as char
    ensures a in WHITE_SPACE || a == '+' ==> DecodePair(a, Digit(d, upper)) == d as char
    ensures DecodePair('-', Digit(d, upper)) == ((256 - d) % 256) as char
    ensures a !in UPPER_DIGITS && a !in LOWER_DIGITS ==>
              && (a !in WHITE_SPACE && a != '+' && a != '-' ==> DecodePair(a, b) == 0 as char)
              && (b !in UPPER_DIGITS && b !in LOWER_DIGITS ==> DecodePair(a, b) == 0 as char)
  {
    HexDigits(a);
    HexDigits(b);
    White(a);
  }

  lemma {:induction false} White(c: char)
    ensures IsSpace(c) <==> c in WHITE_SPACE
    ensures IsSpace(c) || c == '+' || c == '-' ==> HexValue(c) < 0
  {
  }
}
