/** Query strings: created from fields, and parsed by one pass that juggles three positions. */
module QueryString {
  import opened Text
  import Percent

  // ----- the simple reading of a query string

  /** The pieces between the separators `&`. */
  function Pieces(s: string): (ps: seq<string>)
    decreases |s|
  {
    var i := Find(s, '&', 0);
    if i == |s| then [s] else [s[..i]] + Pieces(s[i + 1..])
  }

  /** The index of the last `c` in `s`, -1 when there is none. */
  function FindLast(s: string, c: char): (i: int)
    ensures -1 <= i < |s|
    ensures i >= 0 ==> s[i] == c
    ensures forall k :: i < k < |s| ==> s[k] != c
    decreases |s|
  {
    if s == "" then -1
    else if s[|s| - 1] == c then |s| - 1
    else FindLast(s[..|s| - 1], c)
  }

  /** A piece is split at its last `=`; one without a name is dropped. */
  function PieceField(piece: string): (fs: seq<Field>)
  {
    var e := FindLast(piece, '=');
    var name := if e < 0 then piece else piece[..e];
    if name == "" then [] else [Field(name, if e < 0 then "" else Percent.Decoded(piece[e + 1..]))]
  }

  function PieceFields(ps: seq<string>): seq<Field>
  {
    if ps == [] then [] else PieceField(ps[0]) + PieceFields(ps[1..])
  }

  function Parsed(s: string): seq<Field>
  {
    PieceFields(Pieces(s))
  }

  // ----- the scanner

  const NPOS := -1

  lemma {:induction false} LastIs(s: string, c: char, i: int)
    requires -1 <= i < |s|
    requires i >= 0 ==> s[i] == c
    requires forall k :: i < k < |s| ==> s[k] != c
    ensures FindLast(s, c) == i
  {
  }

  /** `nameEnd` is the last `=` seen since `namePos`, up to the position `c`. */
  predicate Scanned(s: string, namePos: nat, nameEnd: int, c: nat)
  {
    && namePos <= c <= |s|
    && (nameEnd == NPOS || (namePos <= nameEnd < c && s[nameEnd] == '='))
    && (forall k :: namePos <= k < c ==> s[k] != '&')
    && (forall k :: namePos <= k < c && nameEnd < k ==> s[k] != '=')
  }

  lemma {:induction false} ScannedPiece(s: string, namePos: nat, nameEnd: int, c: nat)
    requires Scanned(s, namePos, nameEnd, c)
    ensures PieceField(s[namePos..c]) ==
            var name := s[namePos..if nameEnd == NPOS then c else nameEnd];
            if name == "" then [] else [Field(name, if nameEnd == NPOS then "" else Percent.Decoded(s[nameEnd + 1..c]))]
  {
    hide FindLast, Percent.Decoded;
    var piece := s[namePos..c];
    if nameEnd == NPOS {
      LastIs(piece, '=', -1);
    } else {
      LastIs(piece, '=', nameEnd - namePos);
      assert piece[..nameEnd - namePos] == s[namePos..nameEnd];
      assert piece[nameEnd - namePos + 1..] == s[nameEnd + 1..c];
    }
  }

  lemma {:induction false} CutPiece(s: string, namePos: nat, c: nat)
    requires namePos <= c <= |s| && forall k :: namePos <= k < c ==> s[k] != '&'
    ensures c == |s| ==> Parsed(s[namePos..]) == PieceField(s[namePos..c])
    ensures c < |s| && s[c] == '&' ==> Parsed(s[namePos..]) == PieceField(s[namePos..c]) + Parsed(s[c + 1..])
  {
    var t := s[namePos..];
    if c == |s| {
      assert Find(t, '&', 0) == |t| && s[namePos..c] == t;
      assert PieceFields([t]) == PieceField(t) + PieceFields([t][1..]);
    } else if s[c] == '&' {
      assert t[c - namePos] == '&' && Find(t, '&', 0) == c - namePos;
      assert t[..c - namePos] == s[namePos..c] && t[c - namePos + 1..] == s[c + 1..];
      var ps := Pieces(s[c + 1..]);
      assert ([s[namePos..c]] + ps)[1..] == ps;
    }
  }

  lemma {:induction false} EmptyQuery()
    ensures Parsed("") == []
  {
    assert Pieces("") == [""] && PieceFields([""]) == PieceField("") + PieceFields([""][1..]);
  }

  /** Adds the field of the piece that ends at `c`, unless its name is empty. */
  method Emplace(before: seq<Field>, s: string, namePos: nat, nameEndPos: int, valuePos: int, c: nat)
    returns (result: seq<Field>)
    requires Scanned(s, namePos, nameEndPos, c)
    requires valuePos == if nameEndPos == NPOS then NPOS else nameEndPos + 1
    ensures result == before + PieceField(s[namePos..c])
  {
    ScannedPiece(s, namePos, nameEndPos, c);
    result := before;
    var name := s[namePos..if nameEndPos == NPOS then c else nameEndPos];
    if name != "" {
      var value := "";
      if valuePos != NPOS {
        value := Percent.Decode(s[valuePos..c]);
      }
      result := result + [Field(name, value)];
    }
  }

  method Parse(queryString: string) returns (result: seq<Field>)
    ensures result == Parsed(queryString)
  {
    hide Parsed, PieceField;
    result := [];
    if queryString == "" {
      EmptyQuery();
      return;
    }
    var namePos, nameEndPos, valuePos := 0, NPOS, NPOS;
    assert queryString[0..] == queryString;
    for c := 0 to |queryString|
      invariant Scanned(queryString, namePos, nameEndPos, c)
      invariant valuePos == if nameEndPos == NPOS then NPOS else nameEndPos + 1
      invariant Parsed(queryString) == result + Parsed(queryString[namePos..])
    {
      if queryString[c] == '&' {
        CutPiece(queryString, namePos, c);
        Assoc(result, PieceField(queryString[namePos..c]), Parsed(queryString[c + 1..]));
        result := Emplace(result, queryString, namePos, nameEndPos, valuePos, c);
        namePos, nameEndPos, valuePos := c + 1, NPOS, NPOS;
      } else if queryString[c] == '=' {
        nameEndPos, valuePos := c, c + 1;
      }
    }
    CutPiece(queryString, namePos, |queryString|);
    if namePos < |queryString| {
      result := Emplace(result, queryString, namePos, nameEndPos, valuePos, |queryString|);
    } else {
      NoPiece(result, queryString[namePos..]);
    }
  }

  lemma {:induction false} NoPiece(before: seq<Field>, s: string)
    requires s == ""
    ensures before + Parsed(s) == before
  {
    EmptyQuery();
  }

  // ----- creation

  predicate ByteValues(fs: seq<Field>) {
    forall f :: f in fs ==> Percent.IsBytes(f.value)
  }

  function FieldText(f: Field): string
    requires Percent.IsBytes(f.value)
  {
    f.name + "=" + Percent.Encoded(f.value)
  }

  function Created(fs: seq<Field>): string
    requires ByteValues(fs)
  {
    if fs == [] then ""
    else if |fs| == 1 then FieldText(fs[0])
    else FieldText(fs[0]) + "&" + Created(fs[1..])
  }

  lemma {:induction false} CreatedAppend(fs: seq<Field>, f: Field)
    requires ByteValues(fs + [f])
    ensures ByteValues(fs) && Percent.IsBytes(f.value)
    ensures Created(fs + [f]) == (if fs == [] then "" else Created(fs) + "&") + FieldText(f)
  {
    assert forall g :: g in fs ==> g in fs + [f];
    assert f in fs + [f];
    if fs == [] {
      assert fs + [f] == [f];
    } else {
      assert (fs + [f])[1..] == fs[1..] + [f];
      CreatedAppend(fs[1..], f);
    }
  }

  method Create(fields: seq<Field>) returns (result: string)
    requires ByteValues(fields)
    ensures result == Created(fields)
  {
    result := "";
    var first := true;
    hide Percent.Encoded;
    for i := 0 to |fields|
      invariant ByteValues(fields[..i]) && result == Created(fields[..i])
      invariant first <==> i == 0
    {
      assert fields[..i + 1] == fields[..i] + [fields[i]];
      CreatedAppend(fields[..i], fields[i]);
      var encoded := Percent.Encode(fields[i].value);
      result := result + ((if !first then "&" else "") + fields[i].name + "=" + encoded);
      first := false;
    }
    assert fields[..|fields|] == fields;
  }

  // ----- the round trip

  /** The names that survive: a caller can check them before creating the query string. */
  predicate PlainNames(fs: seq<Field>) {
    forall f :: f in fs ==> f.name != "" && '&' !in f.name
  }

  lemma {:induction false} FieldTextParses(f: Field)
    requires Percent.IsBytes(f.value) && f.name != "" && '&' !in f.name
    ensures '&' !in FieldText(f) && PieceField(FieldText(f)) == [f]
  {
    hide Percent.Encoded, Percent.Decoded, Percent.WellEncoded, FindLast;
    var text, encoded := FieldText(f), Percent.Encoded(f.value);
    Percent.EncodedIsWellEncoded(f.value);
    Percent.WellEncodedChars(encoded);
    Percent.DecodeEncoded(f.value);
    forall k | |f.name| < k < |text| ensures text[k] != '=' {
      assert text[k] == encoded[k - |f.name| - 1];
      assert text[k] in encoded;
    }
    LastIs(text, '=', |f.name|);
    assert text[..|f.name|] == f.name && text[|f.name| + 1..] == encoded;
  }

  lemma {:induction false} PlainNamesRoundTrip(fs: seq<Field>)
    requires ByteValues(fs) && PlainNames(fs)
    ensures Parsed(Created(fs)) == fs
  {
    hide Parsed, PieceField, FieldText;
    if fs == [] {
      EmptyQuery();
    } else {
      var s, text := Created(fs), FieldText(fs[0]);
      assert fs[0] in fs;
      FieldTextParses(fs[0]);
      if |fs| == 1 {
        PrefixPiece(text, "");
        assert text + "" == s;
      } else {
        PlainNamesRoundTrip(fs[1..]);
        PrefixPiece(text, "&" + Created(fs[1..]));
        assert s == text + ("&" + Created(fs[1..]));
      }
    }
  }

  lemma {:induction false} PrefixPiece(text: string, more: string)
    requires '&' !in text && (more != "" ==> more[0] == '&')
    ensures Parsed(text + more) == PieceField(text) + (if more == "" then [] else Parsed(more[1..]))
  {
    hide Parsed, PieceField;
    var s := text + more;
    assert s[0..] == s && s[0..|text|] == text && s[|text|..] == more;
    assert forall k :: 0 <= k < |text| ==> s[k] == text[k];
    CutPiece(s, 0, |text|);
    if more != "" {
      assert s[|text|] == more[0] && s[|text| + 1..] == more[1..];
    }
  }

  lemma {:induction false} PiecesArePlain(s: string)
    ensures forall p :: p in Pieces(s) ==> '&' !in p
    decreases |s|
  {
    var i := Find(s, '&', 0);
    if i < |s| {
      PiecesArePlain(s[i + 1..]);
    }
  }

  lemma {:induction false} PieceFieldsArePlain(ps: seq<string>)
    requires forall p :: p in ps ==> '&' !in p
    ensures PlainNames(PieceFields(ps))
  {
    if ps != [] {
      assert ps[0] in ps;
      PieceFieldsArePlain(ps[1..]);
    }
  }

  /** No parse ever yields a name that is empty or holds a `&`. */
  lemma {:induction false} ParsedNamesArePlain(s: string)
    ensures PlainNames(Parsed(s))
  {
    PiecesArePlain(s);
    PieceFieldsArePlain(Pieces(s));
  }

  /** Parsing what was created gives the fields back, in order, exactly when their names are plain. */
  lemma {:induction false} CreateParseRoundTrip(fs: seq<Field>)
    requires ByteValues(fs)
    ensures Parsed(Created(fs)) == fs <==> PlainNames(fs)
  {
    ParsedNamesArePlain(Created(fs));
    if PlainNames(fs) {
      PlainNamesRoundTrip(fs);
    }
  }

  // ----- what any query string means

  /** A piece between two `&`: a name alone, or a name, the last `=`, and the text of a value. */
  datatype Piece = Flag(name: string) | Pair(name: string, text: string)

  predicate ValidPiece(p: Piece) {
    '&' !in p.name && if p.Flag? then '=' !in p.name else '&' !in p.text && '=' !in p.text
  }

  function PieceText(p: Piece): string {
    if p.Flag? then p.name else p.name + "=" + p.text
  }

  function Joined(ps: seq<Piece>): string {
    if ps == [] then "" else if |ps| == 1 then PieceText(ps[0]) else PieceText(ps[0]) + "&" + Joined(ps[1..])
  }

  /** The field that a piece stands for: none without a name, an empty value without `=`. */
  function FieldOf(p: Piece): seq<Field> {
    if p.name == "" then [] else [Field(p.name, if p.Flag? then "" else Percent.Decoded(p.text))]
  }

  function Fields(ps: seq<Piece>): seq<Field> {
    if ps == [] then [] else FieldOf(ps[0]) + Fields(ps[1..])
  }

  lemma {:induction false} PieceReads(p: Piece)
    requires ValidPiece(p)
    ensures '&' !in PieceText(p)
    ensures PieceField(PieceText(p)) == FieldOf(p)
  {
    hide FindLast, Percent.Decoded, PieceField;
    match p
    case Flag(name) => FlagReads(name);
    case Pair(name, text) => PairReads(name, text);
  }

  lemma {:induction false} FlagReads(name: string)
    requires '=' !in name
    ensures PieceField(name) == if name == "" then [] else [Field(name, "")]
  {
    hide FindLast, Percent.Decoded;
    LastIs(name, '=', -1);
  }

  lemma {:induction false} PairReads(name: string, text: string)
    requires '=' !in text
    ensures PieceField(name + "=" + text) == if name == "" then [] else [Field(name, Percent.Decoded(text))]
  {
    hide FindLast, Percent.Decoded;
    var piece, n := name + "=" + text, |name|;
    assert forall k :: n < k < |piece| ==> piece[k] == text[k - n - 1];
    LastIs(piece, '=', n);
    assert piece[..n] == name && piece[n + 1..] == text;
  }

  lemma {:induction false} JoinedFirst(ps: seq<Piece>)
    requires ps != []
    ensures Joined(ps) == PieceText(ps[0]) + if |ps| == 1 then "" else "&" + Joined(ps[1..])
  {
    hide PieceText;
    assert PieceText(ps[0]) + "" == PieceText(ps[0]);
  }

  lemma {:induction false} FieldsFirst(ps: seq<Piece>)
    requires ps != []
    ensures Fields(ps) == FieldOf(ps[0]) + Fields(ps[1..])
    ensures |ps| == 1 ==> Fields(ps[1..]) == []
  {
    hide FieldOf;
  }

  /** Every query string is pieces with `&` between them, and what is parsed off it are their fields, in order. */
  lemma {:induction false} PiecesParse(ps: seq<Piece>)
    requires forall p :: p in ps ==> ValidPiece(p)
    ensures Parsed(Joined(ps)) == Fields(ps)
  {
    if ps == [] {
      EmptyQuery();
    } else {
      hide *;
      assert ps[0] in ps;
      PieceReads(ps[0]);
      FieldsFirst(ps);
      JoinedFirst(ps);
      var more := if |ps| == 1 then "" else "&" + Joined(ps[1..]);
      PrefixPiece(PieceText(ps[0]), more);
      if |ps| > 1 {
        PiecesParse(ps[1..]);
        assert more[1..] == Joined(ps[1..]);
      }
    }
  }
}
