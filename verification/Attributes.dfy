/** Semicolon-separated attributes, as in Set-Cookie and Content-Disposition values. */
module Attributes {
  import opened Text
  import Percent

  // ----- the grammar the scanner follows

  predicate Blank(c: char) {
    c == ' ' || c == ';'
  }

  /** The first index at or after `from` that holds `a` or `b`, or `|s|`. */
  function FindEither(s: string, a: char, b: char, from: nat): (i: nat)
    requires from <= |s|
    ensures from <= i <= |s|
    ensures forall k :: from <= k < i ==> s[k] != a && s[k] != b
    ensures i < |s| ==> s[i] == a || s[i] == b
    decreases |s| - from
  {
    if from == |s| || s[from] == a || s[from] == b then from else FindEither(s, a, b, from + 1)
  }

  /** The attributes of `s`: blanks, then a name, then `;` or `=` and a value. */
  function Attributes(s: string): (fs: seq<Field>)
    decreases |s|
  {
    if s == "" then []
    else if Blank(s[0]) then Attributes(s[1..])
    else
      var e := FindEither(s, ';', '=', 1);
      if e == |s| then [Field(s, "")]
      else if s[e] == ';' then [Field(s[..e], "")] + Attributes(s[e + 1..])
      else ValueThen(s[..e], s[e + 1..])
  }

  /** The value of the attribute `name` at the start of `r`, then the other attributes. An opening
      quote is dropped unless nothing follows it; the first character is never a closing one. */
  function ValueThen(name: string, r: string): (fs: seq<Field>)
    decreases |r|, 0
  {
    if r == "" then []
    else
      var start := if r[0] == '"' && 1 < |r| then 1 else 0;
      var e := FindEither(r, '"', ';', 1);
      var field := Field(name, Percent.Decoded(r[start..e]));
      if e == |r| then [field] else [field] + Attributes(r[e + 1..])
  }

  // ----- the scanner

  const NPOS := -1

  /** The three positions mean what they say after the characters before `c` were read. */
  predicate Scanned(s: string, nameStart: int, nameEnd: int, valueStart: int, c: nat)
  {
    c <= |s| &&
    if nameStart == NPOS then nameEnd == NPOS && valueStart == NPOS
    else
      && 0 <= nameStart < c && !Blank(s[nameStart])
      && if nameEnd == NPOS then
           valueStart == NPOS && forall k :: nameStart < k < c ==> s[k] != ';' && s[k] != '='
         else
           && nameStart < nameEnd < c && s[nameEnd] == '='
           && (forall k :: nameStart < k < nameEnd ==> s[k] != ';' && s[k] != '=')
           && if valueStart == NPOS then nameEnd + 1 == c
              else
                && nameEnd + 1 < c
                && valueStart == (if s[nameEnd + 1] == '"' && nameEnd + 2 < |s| then nameEnd + 2 else nameEnd + 1)
                && forall k :: nameEnd + 1 < k < c ==> s[k] != '"' && s[k] != ';'
  }

  lemma {:induction false} EitherIs(s: string, a: char, b: char, from: nat, i: nat)
    requires from <= i <= |s|
    requires forall k :: from <= k < i ==> s[k] != a && s[k] != b
    requires i < |s| ==> s[i] == a || s[i] == b
    ensures FindEither(s, a, b, from) == i
  {
  }

  lemma {:induction false} BareName(s: string, n: nat, c: nat)
    requires n < c <= |s| && Scanned(s, n, NPOS, NPOS, c)
    ensures c < |s| && s[c] == ';' ==> Attributes(s[n..]) == [Field(s[n..c], "")] + Attributes(s[c + 1..])
    ensures c < |s| && s[c] == '=' ==> Attributes(s[n..]) == ValueThen(s[n..c], s[c + 1..])
    ensures c == |s| ==> Attributes(s[n..]) == [Field(s[n..c], "")]
  {
    hide ValueThen, FindEither;
    var t := s[n..];
    if c == |s| {
      EitherIs(t, ';', '=', 1, c - n);
      assert s[n..c] == t;
    } else if s[c] == ';' || s[c] == '=' {
      EitherIs(t, ';', '=', 1, c - n);
      assert t[..c - n] == s[n..c] && t[c - n + 1..] == s[c + 1..];
    }
  }

  lemma {:induction false} Value(s: string, n: nat, e: nat, v: nat, c: nat)
    requires n < c <= |s| && Scanned(s, n, e, v, c)
    requires c == |s| || s[c] == '"' || s[c] == ';'
    ensures ValueThen(s[n..e], s[e + 1..]) ==
            [Field(s[n..e], Percent.Decoded(s[v..c]))] + (if c == |s| then [] else Attributes(s[c + 1..]))
  {
    hide Attributes, FindEither, Percent.Decoded;
    var r, f := s[e + 1..], c - e - 1;
    assert forall k :: 1 <= k < f ==> r[k] == s[e + 1 + k];
    EitherIs(r, '"', ';', 1, f);
    var start := if r[0] == '"' && 1 < |r| then 1 else 0;
    Slice(s, e + 1, start, f);
    if c < |s| {
      Slice(s, e + 1, f + 1, f + 1);
    }
  }

  /** The attributes still to come, the one that is being read included. */
  function Rest(s: string, nameStart: int, nameEnd: int, c: nat): seq<Field>
    requires c <= |s| && -1 <= nameStart <= |s| && -1 <= nameEnd < |s|
    requires nameEnd != NPOS ==> 0 <= nameStart <= nameEnd
  {
    if nameStart == NPOS then Attributes(s[c..])
    else if nameEnd == NPOS then Attributes(s[nameStart..])
    else ValueThen(s[nameStart..nameEnd], s[nameEnd + 1..])
  }

  lemma {:induction false} SkipBlank(s: string, c: nat)
    requires c < |s|
    ensures Blank(s[c]) ==> Rest(s, NPOS, NPOS, c) == Rest(s, NPOS, NPOS, c + 1)
    ensures Rest(s, NPOS, NPOS, c) == Rest(s, c, NPOS, c + 1)
  {
    hide ValueThen;
    assert s[c..][1..] == s[c + 1..];
  }

  lemma {:induction false} EndName(s: string, n: nat, c: nat, before: seq<Field>)
    requires n < c <= |s| && Scanned(s, n, NPOS, NPOS, c)
    ensures c < |s| && s[c] == ';' ==>
              before + Rest(s, n, NPOS, c) == (before + [Field(s[n..c], "")]) + Rest(s, NPOS, NPOS, c + 1)
    ensures c < |s| && s[c] == '=' ==> Rest(s, n, NPOS, c) == Rest(s, n, c, c + 1)
    ensures c == |s| ==> Rest(s, n, NPOS, c) == [Field(s[n..c], "")]
  {
    hide Attributes, ValueThen;
    BareName(s, n, c);
  }

  lemma {:induction false} EndValue(s: string, n: nat, e: nat, v: nat, c: nat, before: seq<Field>)
    requires n < c <= |s| && Scanned(s, n, e, v, c)
    requires c == |s| || s[c] == '"' || s[c] == ';'
    ensures var field := Field(s[n..e], Percent.Decoded(s[v..c]));
            if c == |s| then before + Rest(s, n, e, c) == before + [field]
            else before + Rest(s, n, e, c) == (before + [field]) + Rest(s, NPOS, NPOS, c + 1)
  {
    hide Attributes, ValueThen, Percent.Decoded;
    Value(s, n, e, v, c);
  }

  lemma {:induction false} NothingLeft(s: string, n: int, e: int, before: seq<Field>)
    requires Scanned(s, n, e, NPOS, |s|) && (n == NPOS || e != NPOS)
    ensures before + Rest(s, n, e, |s|) == before
  {
    if n != NPOS {
      assert s[e + 1..] == "";
    }
  }

  lemma {:induction false} RestMoves(s: string, n: int, e: int, c: nat)
    requires c < |s| && -1 <= n <= c && -1 <= e < |s|
    requires e != NPOS ==> 0 <= n <= e
    ensures n != NPOS ==> Rest(s, n, e, c) == Rest(s, n, e, c + 1)
  {
  }

  /** What the scanner has found so far and what it has still to find make up the whole. */
  predicate At(s: string, found: seq<Field>, n: int, e: int, v: int, c: nat) {
    Scanned(s, n, e, v, c) && Attributes(s) == found + Rest(s, n, e, c)
  }

  lemma {:induction false} AtBounds(s: string, found: seq<Field>, n: int, e: int, v: int, c: nat)
    requires At(s, found, n, e, v, c)
    ensures n == NPOS ==> e == NPOS && v == NPOS
    ensures n != NPOS ==> 0 <= n < c && if e == NPOS then v == NPOS else n < e < c
  {
  }

  lemma {:induction false} AtBlank(s: string, found: seq<Field>, c: nat)
    requires c < |s| && At(s, found, NPOS, NPOS, NPOS, c)
    ensures s[c] == ' ' || s[c] == ';' ==> At(s, found, NPOS, NPOS, NPOS, c + 1)
    ensures s[c] != ' ' && s[c] != ';' ==> At(s, found, c, NPOS, NPOS, c + 1)
  {
    hide Attributes, Rest;
    SkipBlank(s, c);
  }

  lemma {:induction false} AtName(s: string, found: seq<Field>, n: nat, c: nat)
    requires n < c < |s| && At(s, found, n, NPOS, NPOS, c)
    ensures s[c] == ';' ==> At(s, found + [Field(s[n..c], "")], NPOS, NPOS, NPOS, c + 1)
    ensures s[c] == '=' ==> At(s, found, n, c, NPOS, c + 1)
    ensures s[c] != ';' && s[c] != '=' ==> At(s, found, n, NPOS, NPOS, c + 1)
  {
    hide Attributes, Rest;
    RestMoves(s, n, NPOS, c);
    EndName(s, n, c, found);
  }

  lemma {:induction false} AtValue(s: string, found: seq<Field>, n: nat, e: nat, v: int, c: nat)
    requires n < e < c < |s| && At(s, found, n, e, v, c)
    ensures v == NPOS ==> At(s, found, n, e, if s[c] == '"' && c + 1 < |s| then c + 1 else c, c + 1)
    ensures v != NPOS ==>
              && n < v <= c
              && if s[c] == '"' || s[c] == ';' then
                   At(s, found + [Field(s[n..e], Percent.Decoded(s[v..c]))], NPOS, NPOS, NPOS, c + 1)
                 else At(s, found, n, e, v, c + 1)
  {
    hide Attributes, Rest, Percent.Decoded;
    RestMoves(s, n, e, c);
    if v != NPOS && (s[c] == '"' || s[c] == ';') {
      EndValue(s, n, e, v, c, found);
    }
  }

  /** Reads the character at `c`. */
  method Advance(value: string, found: seq<Field>, nameStart: int, nameEnd: int, valueStart: int, c: nat)
    returns (result: seq<Field>, nameStartPos: int, nameEndPos: int, valueStartPos: int)
    requires c < |value| && At(value, found, nameStart, nameEnd, valueStart, c)
    ensures At(value, result, nameStartPos, nameEndPos, valueStartPos, c + 1)
  {
    AtBounds(value, found, nameStart, nameEnd, valueStart, c);
    hide *;
    result, nameStartPos, nameEndPos, valueStartPos := found, nameStart, nameEnd, valueStart;
    if nameStartPos == NPOS {
      AtBlank(value, found, c);
      if value[c] != ' ' && value[c] != ';' {
        nameStartPos := c;
      }
    } else if nameEndPos == NPOS {
      AtName(value, found, nameStart, c);
      if value[c] == ';' {
        result := result + [Field(value[nameStartPos..c], "")];
        nameStartPos := NPOS;
      } else if value[c] == '=' {
        nameEndPos := c;
      }
    } else {
      AtValue(value, found, nameStart, nameEnd, valueStart, c);
      if valueStartPos == NPOS {
        if value[c] == '"' && c + 1 < |value| {
          valueStartPos := c + 1;
        } else {
          valueStartPos := c;
        }
      } else if value[c] == '"' || value[c] == ';' {
        var decoded := Percent.Decode(value[valueStartPos..c]);
        result := result + [Field(value[nameStartPos..nameEndPos], decoded)];
        nameStartPos, nameEndPos, valueStartPos := NPOS, NPOS, NPOS;
      }
    }
  }

  /** The attribute that the end of the text completes, if there is one. */
  method EmplaceLast(value: string, before: seq<Field>, nameStartPos: int, nameEndPos: int, valueStartPos: int)
    returns (result: seq<Field>)
    requires At(value, before, nameStartPos, nameEndPos, valueStartPos, |value|)
    ensures result == Attributes(value)
  {
    hide Attributes, Rest, Percent.Decoded;
    result := before;
    var size := |value|;
    if nameStartPos != NPOS && nameEndPos == NPOS {
      EndName(value, nameStartPos, size, result);
      result := result + [Field(value[nameStartPos..size], "")];
    } else if nameStartPos != NPOS && valueStartPos != NPOS {
      EndValue(value, nameStartPos, nameEndPos, valueStartPos, size, result);
      // `substr(value_start_pos, size - 1)` counts characters, so it runs to the end of the
      // text in the quoted case as well.
      var decoded := Percent.Decode(value[valueStartPos..size]);
      result := result + [Field(value[nameStartPos..nameEndPos], decoded)];
    } else {
      NothingLeft(value, nameStartPos, nameEndPos, result);
    }
  }

  method Parse(value: string) returns (result: seq<Field>)
    ensures result == Attributes(value)
  {
    result := [];
    var nameStartPos, nameEndPos, valueStartPos := NPOS, NPOS, NPOS;
    assert At(value, [], NPOS, NPOS, NPOS, 0) by {
      assert value[0..] == value;
    }
    hide *;
    for c := 0 to |value|
      invariant At(value, result, nameStartPos, nameEndPos, valueStartPos, c)
    {
      result, nameStartPos, nameEndPos, valueStartPos :=
        Advance(value, result, nameStartPos, nameEndPos, valueStartPos, c);
    }
    result := EmplaceLast(value, result, nameStartPos, nameEndPos, valueStartPos);
  }

  // ----- the round trip

  /** A bare name, a name with a quoted, percent-encoded value, or one with the text of a value without quotes. */
  datatype Attribute = Bare(name: string) | Pair(name: string, value: string) | Raw(name: string, text: string)

  function AsField(a: Attribute): Field {
    match a
    case Bare(n) => Field(n, "")
    case Pair(n, v) => Field(n, v)
    case Raw(n, t) => Field(n, Percent.Decoded(t))
  }

  function AsFields(attrs: seq<Attribute>): (fs: seq<Field>)
    ensures |fs| == |attrs|
    ensures forall i :: 0 <= i < |attrs| ==> fs[i] == AsField(attrs[i])
  {
    if attrs == [] then [] else [AsField(attrs[0])] + AsFields(attrs[1..])
  }

  /** Values in quotes are bytes; the text of one without quotes does not begin with a quote, and what could end
      it is at most its first character. */
  predicate ValidValue(a: Attribute) {
    match a
    case Bare(_) => true
    case Pair(_, v) => Percent.IsBytes(v)
    case Raw(_, t) => t != "" && t[0] != '"' && forall k :: 1 <= k < |t| ==> t[k] != '"' && t[k] != ';'
  }

  predicate ValidValues(attrs: seq<Attribute>) {
    forall a :: a in attrs ==> ValidValue(a)
  }

  function AttributeText(a: Attribute): string
    requires ValidValue(a)
  {
    match a
    case Bare(n) => n
    case Pair(n, v) => n + "=\"" + Percent.Encoded(v) + "\""
    case Raw(n, t) => n + "=" + t
  }

  function Written(attrs: seq<Attribute>): string
    requires ValidValues(attrs)
  {
    if attrs == [] then ""
    else if |attrs| == 1 then AttributeText(attrs[0])
    else AttributeText(attrs[0]) + "; " + Written(attrs[1..])
  }

  /** A name the scanner can read: it does not start with a blank, and after its first character
      it holds neither `;` nor `=`. */
  predicate PlainName(n: string) {
    n != "" && n[0] != ' ' && n[0] != ';' && forall k :: 1 <= k < |n| ==> n[k] != ';' && n[k] != '='
  }

  predicate PlainNames(fs: seq<Field>) {
    forall f :: f in fs ==> PlainName(f.name)
  }

  /** Blanks and semicolons before a name are skipped. */
  lemma {:induction false} BlanksAreSkipped(s: string)
    ensures Attributes(" " + s) == Attributes(s) == Attributes(";" + s)
  {
    hide ValueThen;
    assert (" " + s)[1..] == s && (";" + s)[1..] == s;
  }

  lemma {:induction false} SkipSeparator(s: string)
    ensures Attributes(("; " + s)[1..]) == Attributes(s)
  {
    hide ValueThen;
    assert ("; " + s)[1..] == " " + s;
    assert (" " + s)[1..] == s;
  }

  lemma {:induction false} BareReads(n: string, more: string)
    requires PlainName(n)
    requires more == "" || more[0] == ';'
    ensures Attributes(n + more) == [Field(n, "")] + (if more == "" then [] else Attributes(more[1..]))
  {
    var s := n + more;
    assert s[0..] == s && s[0..|n|] == n;
    BareName(s, 0, |n|);
    if more != "" {
      assert s[|n| + 1..] == more[1..];
    }
  }

  lemma {:induction false} PairReads(n: string, v: Percent.Bytes, more: string)
    requires PlainName(n)
    ensures Attributes(AttributeText(Pair(n, v)) + more) == [Field(n, v)] + Attributes(more)
  {
    hide Attributes, ValueThen;
    var encoded := Percent.Encoded(v);
    Percent.EncodedIsWellEncoded(v);
    Percent.WellEncodedChars(encoded);
    Percent.DecodeEncoded(v);
    hide Percent.Encoded, Percent.Decoded, Percent.WellEncoded;
    NameReads(n, "\"" + encoded + "\"" + more);
    QuotedReads(n, encoded, more);
    Regroup(n, encoded, more);
  }

  lemma {:induction false} Regroup(n: string, encoded: string, more: string)
    ensures n + "=\"" + encoded + "\"" + more == n + "=" + ("\"" + encoded + "\"" + more)
  {
  }

  lemma {:induction false} NameReads(n: string, r: string)
    requires PlainName(n)
    ensures Attributes(n + "=" + r) == ValueThen(n, r)
  {
    hide Attributes, ValueThen;
    var s := n + "=" + r;
    assert s[0..] == s && s[0..|n|] == n && s[|n| + 1..] == r;
    BareName(s, 0, |n|);
  }

  lemma {:induction false} QuotedReads(n: string, encoded: string, more: string)
    requires '"' !in encoded && ';' !in encoded
    ensures ValueThen(n, "\"" + encoded + "\"" + more) == [Field(n, Percent.Decoded(encoded))] + Attributes(more)
  {
    hide Attributes, FindEither, Percent.Decoded;
    var r, close := "\"" + encoded + "\"" + more, 1 + |encoded|;
    assert forall k :: 1 <= k < close ==> r[k] == encoded[k - 1];
    EitherIs(r, '"', ';', 1, close);
    assert r[1..close] == encoded && r[close + 1..] == more;
  }

  lemma {:induction false} PlainRoundTrip(attrs: seq<Attribute>)
    requires ValidValues(attrs) && PlainNames(AsFields(attrs))
    ensures Attributes(Written(attrs)) == AsFields(attrs)
  {
    assert Attributes("") == [];
    hide Attributes, AttributeText, AsField, PlainNames, PlainName;
    if attrs != [] {
      var text, rest := AttributeText(attrs[0]), attrs[1..];
      PlainFirst(attrs);
      if rest == [] {
        AttributeReads(attrs[0], "");
        assert text + "" == text;
      } else {
        var more := "; " + Written(rest);
        AttributeReads(attrs[0], more);
        assert text + more == Written(attrs);
        SkipSeparator(Written(rest));
        PlainRoundTrip(rest);
      }
    }
  }

  lemma {:induction false} PlainFirst(attrs: seq<Attribute>)
    requires attrs != [] && PlainNames(AsFields(attrs))
    ensures PlainName(attrs[0].name) && PlainNames(AsFields(attrs[1..]))
  {
    assert AsFields(attrs)[0] in AsFields(attrs);
    assert AsFields(attrs)[1..] == AsFields(attrs[1..]);
  }

  lemma {:induction false} AttributeReads(a: Attribute, more: string)
    requires ValidValue(a) && PlainName(a.name)
    requires more == "" || more[0] == ';'
    ensures Attributes(AttributeText(a) + more) == [AsField(a)] + (if more == "" then [] else Attributes(more[1..]))
  {
    hide ValueThen, Percent.Encoded, Percent.Decoded;
    match a
    case Bare(n) => BareReads(n, more);
    case Pair(n, v) => PairReads(n, v, more);
    case Raw(n, t) => RawReads(n, t, more);
  }

  lemma {:induction false} RawReads(n: string, t: string, more: string)
    requires PlainName(n) && ValidValue(Raw(n, t)) && (more == "" || more[0] == ';')
    ensures Attributes(n + "=" + t + more) ==
            [Field(n, Percent.Decoded(t))] + (if more == "" then [] else Attributes(more[1..]))
  {
    hide Attributes, Percent.Decoded, FindEither;
    NameReads(n, t + more);
    var r, e := t + more, |t|;
    assert n + "=" + t + more == n + "=" + r;
    assert forall k :: 1 <= k < e ==> r[k] == t[k];
    assert r[0] == t[0] && r[0..e] == t && r[e..] == more;
    EitherIs(r, '"', ';', 1, e);
    if more != "" {
      assert r[e + 1..] == more[1..];
    }
  }

  /** The end of the text: a name with nothing behind `=` is dropped; a value whose closing quote is missing is
      taken as if it were there, and a lone quote is a value. */
  lemma {:induction false} LastAttribute(n: string, t: string)
    requires PlainName(n) && '"' !in t && ';' !in t && t != ""
    ensures Attributes(n + "=") == []
    ensures Attributes(n + "=\"") == [Field(n, Percent.Decoded("\""))]
    ensures Attributes(n + "=\"" + t) == [Field(n, Percent.Decoded(t))]
  {
    hide Attributes, Percent.Decoded, FindEither;
    assert n + "=" + "" == n + "=" && n + "=" + "\"" == n + "=\"" && n + "=" + ("\"" + t) == n + "=\"" + t;
    NameReads(n, "");
    NameReads(n, "\"");
    NameReads(n, "\"" + t);
    EitherIs("\"", '"', ';', 1, 1);
    var r := "\"" + t;
    assert forall k :: 1 <= k < |r| ==> r[k] == t[k - 1];
    EitherIs(r, '"', ';', 1, |r|);
    assert r[1..|r|] == t && "\""[0..1] == "\"";
  }

  /** No parse ever yields a name that the scanner could not have read. */
  lemma {:induction false} ParsedNamesArePlain(s: string)
    ensures PlainNames(Attributes(s))
    decreases |s|
  {
    hide Percent.Decoded;
    if s != "" {
      if Blank(s[0]) {
        ParsedNamesArePlain(s[1..]);
      } else {
        var e := FindEither(s, ';', '=', 1);
        assert PlainName(s[..e]);
        if e < |s| {
          ParsedNamesArePlain(s[e + 1..]);
          if s[e] == '=' && s[e + 1..] != "" {
            var r := s[e + 1..];
            var f := FindEither(r, '"', ';', 1);
            if f < |r| {
              ParsedNamesArePlain(r[f + 1..]);
            }
          }
        }
      }
    }
  }

  /** Attributes written with `; ` between them parse back, in order, exactly when every name is plain. */
  lemma {:induction false} RoundTrip(attrs: seq<Attribute>)
    requires ValidValues(attrs)
    ensures Attributes(Written(attrs)) == AsFields(attrs) <==> PlainNames(AsFields(attrs))
  {
    ParsedNamesArePlain(Written(attrs));
    if PlainNames(AsFields(attrs)) {
      PlainRoundTrip(attrs);
    }
  }
}
