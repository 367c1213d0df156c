/** Numbers in messages: how they are printed, and how `stoull` and `stoul` read them. */
module Numbers {
  import opened Text
  import Percent

  /** `unsigned long long` has 64 bits; `unsigned long` has 32 on the Windows platform the plugin is built for. */
  const ULLONG_MAX: nat := 0xFFFF_FFFF_FFFF_FFFF
  const ULONG_MAX: nat := 0xFFFF_FFFF

  /** The two number bases in use; each is written out, so that the arithmetic stays linear. */
  predicate IsBase(base: nat) {
    base == 10 || base == 16
  }

  function Scale(n: nat, base: nat): nat
    requires IsBase(base)
  {
    if base == 10 then n * 10 else n * 16
  }

  function Quotient(n: nat, base: nat): (q: nat)
    requires IsBase(base)
    ensures q <= n && (n >= base ==> 0 < q < n)
  {
    if base == 10 then n / 10 else n / 16
  }

  function Remainder(n: nat, base: nat): (r: nat)
    requires IsBase(base)
    ensures r < base && n == Scale(Quotient(n, base), base) + r
  {
    if base == 10 then n % 10 else n % 16
  }

  predicate IsDigit(c: char, base: nat)
  {
    0 <= Percent.HexValue(c) < base
  }

  function DigitCount(s: string, base: nat): (n: nat)
    ensures n <= |s|
    ensures forall k :: 0 <= k < n ==> IsDigit(s[k], base)
    ensures n < |s| ==> !IsDigit(s[n], base)
  {
    if s == "" || !IsDigit(s[0], base) then 0 else 1 + DigitCount(s[1..], base)
  }

  /** The value of a row of digits, the first the most significant. */
  function ValueOf(s: string, base: nat): nat
    requires IsBase(base) && forall k :: 0 <= k < |s| ==> IsDigit(s[k], base)
  {
    if s == "" then 0
    else
      assert IsDigit(s[|s| - 1], base);
      Scale(ValueOf(s[..|s| - 1], base), base) + Percent.HexValue(s[|s| - 1])
  }

  function SkipSpace(s: string): string
  {
    if s != "" && Percent.IsSpace(s[0]) then SkipSpace(s[1..]) else s
  }

  /** Base 16 accepts a prefix `0x` when a digit follows it. */
  function SkipPrefix(s: string, base: nat): string
  {
    if base == 16 && 2 < |s| && s[0] == '0' && s[1] in "xX" && IsDigit(s[2], 16) then s[2..] else s
  }

  /** `stoull` (base 10, maximum ULLONG_MAX) and `stoul` (base 16, maximum ULONG_MAX): white space,
      a sign, digits, anything. None stands for the exception that is thrown when there is no digit
      or when the digits denote more than the maximum; a minus sign negates modulo the word size. */
  function Read(s: string, base: nat, max: nat): (r: Option<nat>)
    requires IsBase(base)
    ensures r.Some? ==> r.value <= max
  {
    var t := SkipSpace(s);
    if t == "" || t[0] !in "+-" then ReadUnsigned(t, base, max)
    else
      match ReadUnsigned(t[1..], base, max)
      case None => None
      case Some(v) => if t[0] == '-' && v > 0 then Some(max + 1 - v) else Some(v)
  }

  function ReadUnsigned(s: string, base: nat, max: nat): (r: Option<nat>)
    requires IsBase(base)
    ensures r.Some? ==> r.value <= max
  {
    var u := SkipPrefix(s, base);
    var n := DigitCount(u, base);
    if n == 0 || ValueOf(u[..n], base) > max then None else Some(ValueOf(u[..n], base))
  }

  function Stoull(s: string): (r: Option<nat>) {
    Read(s, 10, ULLONG_MAX)
  }

  function Stoul16(s: string): (r: Option<nat>)
    ensures r.Some? ==> r.value <= ULONG_MAX
  {
    Read(s, 16, ULONG_MAX)
  }

  /** `operator<<` on an unsigned number, in base 10; in base 16 the size of a chunk. */
  function Print(n: nat, base: nat): (s: string)
    requires IsBase(base)
    ensures s != "" && forall k :: 0 <= k < |s| ==> IsDigit(s[k], base)
    ensures s[0] == '0' ==> s == "0" && n == 0
    decreases n
  {
    if n < base then [Percent.HexChar(n)] else Print(Quotient(n, base), base) + [Percent.HexChar(Remainder(n, base))]
  }

  lemma {:induction false} ValueAppend(high: string, low: char, base: nat)
    requires IsBase(base) && IsDigit(low, base) && forall k :: 0 <= k < |high| ==> IsDigit(high[k], base)
    ensures ValueOf(high + [low], base) == Scale(ValueOf(high, base), base) + Percent.HexValue(low)
  {
    assert (high + [low])[..|high|] == high;
  }

  lemma {:induction false} PrintValue(n: nat, base: nat)
    requires IsBase(base)
    ensures ValueOf(Print(n, base), base) == n
    decreases n
  {
    hide ValueOf, Quotient, Remainder, Scale;
    var low := Percent.HexChar(Remainder(n, base));
    Percent.HexCharValue(Remainder(n, base));
    if n < base {
      assert ValueOf(Print(n, base), base) == n by {
        PrintDigit(n, base);
      }
    } else {
      PrintValue(Quotient(n, base), base);
      ValueAppend(Print(Quotient(n, base), base), low, base);
    }
  }

  lemma {:induction false} PrintDigit(n: nat, base: nat)
    requires IsBase(base) && n < base
    ensures ValueOf(Print(n, base), base) == n
  {
    Percent.HexCharValue(n);
    assert Print(n, base) == "" + [Percent.HexChar(n)];
    ValueAppend("", Percent.HexChar(n), base);
  }

  /** The text is taken for more digits, or with a lone zero before it for the rest of a prefix. */
  predicate RunsOn(digits: string, base: nat, tail: string) {
    || (tail != "" && IsDigit(tail[0], base))
    || (base == 16 && digits == "0" && |tail| >= 2 && tail[0] in "xX" && IsDigit(tail[1], 16))
  }

  /** A row of digits of either case, with or without leading zeros, reads as its value whatever text
      follows, unless the text runs on. */
  lemma {:induction false} ReadDigits(digits: string, base: nat, max: nat, tail: string)
    requires IsBase(base) && digits != "" && forall k :: 0 <= k < |digits| ==> IsDigit(digits[k], base)
    requires !RunsOn(digits, base, tail)
    ensures Read(digits + tail, base, max) == if ValueOf(digits, base) <= max then Some(ValueOf(digits, base)) else None
  {
    hide ValueOf;
    var s := digits + tail;
    assert s[0] == digits[0] && IsDigit(digits[0], base);
    assert SkipSpace(s) == s;
    assert SkipPrefix(s, base) == s by {
      if 2 < |s| && s[0] == '0' {
        assert s[1] == if |digits| > 1 then digits[1] else tail[0];
        assert |digits| == 1 ==> s[2] == tail[1];
      }
    }
    CountDigits(digits, tail, base);
    assert s[..|digits|] == digits;
  }

  /** Reading what was printed gives the number back. */
  lemma {:induction false} ReadPrint(n: nat, base: nat, max: nat, tail: string)
    requires IsBase(base) && !RunsOn(Print(n, base), base, tail)
    ensures Read(Print(n, base) + tail, base, max) == if n <= max then Some(n) else None
  {
    PrintValue(n, base);
    ReadDigits(Print(n, base), base, max, tail);
  }

  lemma {:induction false} CountDigits(digits: string, tail: string, base: nat)
    requires forall k :: 0 <= k < |digits| ==> IsDigit(digits[k], base)
    requires tail != "" ==> !IsDigit(tail[0], base)
    ensures DigitCount(digits + tail, base) == |digits|
  {
    if digits == "" {
      assert digits + tail == tail;
    } else {
      assert (digits + tail)[1..] == digits[1..] + tail;
      CountDigits(digits[1..], tail, base);
    }
  }

  /** Every digit printed is a digit, so a printed number holds no separator. */
  lemma {:induction false} PrintIsPlain(n: nat, base: nat)
    requires IsBase(base)
    ensures '\n' !in Print(n, base) && '\r' !in Print(n, base) && ' ' !in Print(n, base)
  {
    var s := Print(n, base);
    assert forall k :: 0 <= k < |s| ==> s[k] != '\n' && s[k] != '\r' && s[k] != ' ' by {
      assert forall k :: 0 <= k < |s| ==> IsDigit(s[k], base);
    }
  }

  // ----- what is read, without the helper functions

  /** The digits of a base, of either case, and the value of the one at place `d`. */
  function Alphabet(base: nat): string {
    if base == 10 then "0123456789" else "0123456789abcdefABCDEF"
  }

  function PlaceValue(d: nat): nat {
    if d < 16 then d else d - 6
  }

  lemma {:induction false} AlphabetIs(c: char, base: nat)
    requires IsBase(base)
    ensures IsDigit(c, base) <==> c in Alphabet(base)
    ensures forall d :: 0 <= d < |Alphabet(base)| ==>
              Percent.HexValue(Alphabet(base)[d]) == PlaceValue(d) && IsDigit(Alphabet(base)[d], base)
  {
    hide Percent.HexValue;
    forall d | 0 <= d < |Alphabet(base)|
      ensures Percent.HexValue(Alphabet(base)[d]) == PlaceValue(d) && IsDigit(Alphabet(base)[d], base)
    {
      PlaceDigit(d, base);
    }
    IsInAlphabet(c, base);
  }

  lemma {:induction false} PlaceDigit(d: nat, base: nat)
    requires IsBase(base) && d < |Alphabet(base)|
    ensures Percent.HexValue(Alphabet(base)[d]) == PlaceValue(d) && PlaceValue(d) < base
  {
  }

  lemma {:induction false} IsInAlphabet(c: char, base: nat)
    requires IsBase(base)
    ensures IsDigit(c, base) <==> c in Alphabet(base)
  {
    var v, t := Percent.HexValue(c), Alphabet(base);
    assert IsDigit(c, base) ==> c == t[v] || (v >= 10 && c == t[v + 6]);
  }

  predicate AllIn(s: string, alphabet: string) {
    forall k :: 0 <= k < |s| ==> s[k] in alphabet
  }

  lemma {:induction false} AllDigits(s: string, base: nat)
    requires IsBase(base) && AllIn(s, Alphabet(base))
    ensures forall k :: 0 <= k < |s| ==> IsDigit(s[k], base)
  {
    hide IsDigit, Alphabet;
    forall k | 0 <= k < |s| ensures IsDigit(s[k], base) {
      AlphabetIs(s[k], base);
    }
  }

  /** A digit reads as its place, and one more digit multiplies what is read by the base and adds its place, up to
      the maximum: with this every row of digits is read. */
  lemma {:induction false} ReadNextDigit(digits: string, d: nat, base: nat, max: nat)
    requires IsBase(base) && AllIn(digits, Alphabet(base)) && d < |Alphabet(base)|
    ensures var v := PlaceValue(d);
            && Read([Alphabet(base)[d]], base, max) == (if v <= max then Some(v) else None)
            && (digits != "" ==>
                  Read(digits + [Alphabet(base)[d]], base, max) ==
                  match Read(digits, base, max)
                  case None => None
                  case Some(n) => var more := (if base == 10 then 10 * n else 16 * n) + v;
                                  if more <= max then Some(more) else None)
  {
    hide Alphabet, IsDigit, Percent.HexValue, ValueOf, Read;
    var c := Alphabet(base)[d];
    AlphabetIs(c, base);
    AllDigits(digits, base);
    ValueAppend("", c, base);
    ValueAppend(digits, c, base);
    assert "" + [c] == [c] && [c] + "" == [c] && digits + "" == digits && (digits + [c]) + "" == digits + [c];
    NoDigits(base);
    ReadDigits([c], base, max, "");
    ReadDigits(digits + [c], base, max, "");
    if digits != "" {
      ReadDigits(digits, base, max, "");
    }
  }

  lemma {:induction false} NoDigits(base: nat)
    requires IsBase(base)
    ensures ValueOf("", base) == 0
  {
  }

  /** Before the digits white space is skipped, and one sign is read; a minus negates modulo the word. */
  lemma {:induction false} ReadBefore(w: char, text: string, base: nat, max: nat)
    requires IsBase(base)
    ensures w in Percent.WHITE_SPACE ==> Read([w] + text, base, max) == Read(text, base, max)
    ensures text != "" && text[0] in Alphabet(base) ==>
              && Read("+" + text, base, max) == Read(text, base, max)
              && Read("-" + text, base, max) ==
                 match Read(text, base, max)
                 case None => None
                 case Some(n) => Some(if n == 0 then 0 else max + 1 - n)
  {
    hide Alphabet, ReadUnsigned, IsDigit;
    Percent.White(w);
    assert ([w] + text)[1..] == text && ("+" + text)[1..] == text && ("-" + text)[1..] == text;
    if text != "" {
      AlphabetIs(text[0], base);
      DigitIsNoSign(text[0], base);
    }
  }

  /** Where no digit comes nothing is read. */
  lemma {:induction false} ReadNothing(text: string, base: nat, max: nat)
    requires IsBase(base) && (text == "" || text[0] !in Alphabet(base))
    ensures text == "" || (text[0] !in Percent.WHITE_SPACE && text[0] !in "+-") ==> Read(text, base, max) == None
    ensures Read("+" + text, base, max) == None && Read("-" + text, base, max) == None
  {
    hide Alphabet, IsDigit, ReadUnsigned;
    if text != "" {
      AlphabetIs(text[0], base);
      Percent.White(text[0]);
    }
    NoUnsigned(text, base, max);
    assert ("+" + text)[1..] == text && ("-" + text)[1..] == text;
  }

  lemma {:induction false} NoUnsigned(text: string, base: nat, max: nat)
    requires IsBase(base) && (text == "" || !IsDigit(text[0], base))
    ensures ReadUnsigned(text, base, max) == None
  {
  }

  lemma {:induction false} DigitIsNoSign(c: char, base: nat)
    requires IsBase(base)
    ensures IsDigit(c, base) ==> !Percent.IsSpace(c) && c !in "+-"
    ensures c == '0' ==> IsDigit(c, base)
  {
  }

  lemma {:induction false} ReadPrefixed(digits: string, x: char, max: nat)
    requires digits != "" && AllIn(digits, Alphabet(16)) && x in "xX"
    ensures Read("0" + [x] + digits, 16, max) == Read(digits, 16, max)
  {
    hide Alphabet, Percent.HexValue, ValueOf;
    AllDigits(digits, 16);
    var s := "0" + [x] + digits;
    assert s[0] == '0' && s[1] == x && s[2] == digits[0] && s[2..] == digits;
    assert digits + "" == digits;
    ReadDigits(digits, 16, max, "");
    CountDigits(digits, "", 16);
    assert digits[..|digits|] == digits;
    DigitIsNoSign('0', 16);
  }

  /** A number printed in base 16 and spelled with digits of any case, after any zeros, is read back, whatever
      follows that is not taken for more digits. */
  lemma {:induction false} ReadAnyCase(n: nat, zeros: string, text: string, max: nat, tail: string)
    requires AllIn(zeros, "0") && CaseInsensitiveEqual(text, Print(n, 16)) && !RunsOn(zeros + text, 16, tail)
    ensures Read(zeros + text + tail, 16, max) == if n <= max then Some(n) else None
  {
    hide Print, ValueOf, Read, IsDigit, RunsOn, ToLower;
    SameValue(text, Print(n, 16));
    PrintValue(n, 16);
    ZerosBefore(zeros, text);
    ReadDigits(zeros + text, 16, max, tail);
  }

  lemma {:induction false} SameDigit(c: char, d: char)
    requires ToLower(c) == ToLower(d)
    ensures Percent.HexValue(c) == Percent.HexValue(d)
  {
  }

  lemma {:induction false} SameValue(a: string, b: string)
    requires CaseInsensitiveEqual(a, b) && forall k :: 0 <= k < |b| ==> IsDigit(b[k], 16)
    ensures forall k :: 0 <= k < |a| ==> IsDigit(a[k], 16)
    ensures ValueOf(a, 16) == ValueOf(b, 16)
    decreases |a|
  {
    hide ToLower, Percent.HexValue;
    forall k | 0 <= k < |a| ensures Percent.HexValue(a[k]) == Percent.HexValue(b[k]) {
      SameDigit(a[k], b[k]);
    }
    if a != "" {
      SameValue(a[..|a| - 1], b[..|b| - 1]);
    }
  }

  lemma {:induction false} ZerosBefore(zeros: string, text: string)
    requires AllIn(zeros, "0") && forall k :: 0 <= k < |text| ==> IsDigit(text[k], 16)
    ensures forall k :: 0 <= k < |zeros + text| ==> IsDigit((zeros + text)[k], 16)
    ensures ValueOf(zeros + text, 16) == ValueOf(text, 16)
    decreases |zeros| + |text|
  {
    forall k | 0 <= k < |zeros| ensures IsDigit(zeros[k], 16) {
      DigitIsNoSign(zeros[k], 16);
    }
    if text != "" {
      assert (zeros + text)[..|zeros + text| - 1] == zeros + text[..|text| - 1];
      ZerosBefore(zeros, text[..|text| - 1]);
    } else if zeros != "" {
      assert zeros + "" == zeros && zeros[|zeros| - 1] in "0" && zeros[..|zeros| - 1] + "" == zeros[..|zeros| - 1];
      ZerosBefore(zeros[..|zeros| - 1], "");
    }
  }
}
