/** Strings, case-insensitive names and the multimap of header fields. */
module Text {

  datatype Option<+T> = None | Some(value: T)

  /** A header field, a query field or an attribute: the entries of a `CaseInsensitiveMultimap`.
      A multimap is the sequence of its entries in the order in which it is iterated. */
  datatype Field = Field(name: string, value: string)

  /** The index of the first `c` in `s` at or after `from`, or `|s|` when there is none. */
  function Find(s: string, c: char, from: nat): (i: nat)
    requires from <= |s|
    ensures from <= i <= |s|
    ensures forall k :: from <= k < i ==> s[k] != c
    ensures i < |s| ==> s[i] == c
    decreases |s| - from
  {
    if from == |s| || s[from] == c then from else Find(s, c, from + 1)
  }

  /** What `std::getline` takes from a stream and what it leaves. */
  datatype Split = Split(line: string, rest: string)

  function GetLine(s: string): (r: Split)
    requires s != ""
    ensures |r.rest| < |s|
    ensures '\n' !in r.line
    ensures if '\n' in s then s == r.line + "\n" + r.rest else r == Split(s, "")
  {
    var i := Find(s, '\n', 0);
    if i < |s| then Split(s[..i], s[i + 1..]) else Split(s, "")
  }

  lemma {:induction false} GetLineOf(line: string, rest: string)
    requires '\n' !in line
    ensures GetLine(line + "\n" + rest) == Split(line, rest)
  {
    var s := line + "\n" + rest;
    assert s[|line|] == '\n' && s[..|line|] == line && s[|line| + 1..] == rest;
    assert forall k :: 0 <= k < |line| ==> s[k] == line[k];
  }

  /** `getline` reads the same line when more bytes follow, provided the line is complete. */
  lemma {:induction false} GetLineExtends(s: string, more: string)
    requires '\n' in s
    ensures s + more != "" && s != ""
    ensures GetLine(s + more) == Split(GetLine(s).line, GetLine(s).rest + more)
  {
    var g := GetLine(s);
    assert s + more == g.line + "\n" + (g.rest + more);
    GetLineOf(g.line, g.rest + more);
  }

  /** The text of every LF-terminated line of `s`; a tail without LF is not a line. */
  function Lines(s: string): (ls: seq<string>)
    ensures forall l :: l in ls ==> '\n' !in l
    decreases |s|
  {
    if '\n' !in s then [] else [GetLine(s).line] + Lines(GetLine(s).rest)
  }

  /** The lines written one after the other, each ended by LF. */
  function Join(ls: seq<string>): string
  {
    if ls == [] then "" else ls[0] + "\n" + Join(ls[1..])
  }

  lemma {:induction false} JoinAppend(a: seq<string>, b: seq<string>)
    ensures Join(a + b) == Join(a) + Join(b)
  {
    if a == [] {
      assert a + b == b;
    } else {
      JoinAppend(a[1..], b);
      assert (a + b)[1..] == a[1..] + b;
    }
  }

  /** Lines cut a text that ends in LF, and Join puts it back together. */
  lemma {:induction false} JoinOfLines(s: string)
    requires s == "" || s[|s| - 1] == '\n'
    ensures Join(Lines(s)) == s
    decreases |s|
  {
    if s != "" {
      assert s[|s| - 1] in s;
      var g := GetLine(s);
      assert s == g.line + "\n" + g.rest;
      assert g.rest != "" ==> g.rest[|g.rest| - 1] == s[|s| - 1];
      JoinOfLines(g.rest);
    }
  }

  lemma {:induction false} LinesOfJoin(ls: seq<string>)
    requires forall l :: l in ls ==> '\n' !in l
    ensures Lines(Join(ls)) == ls
  {
    if ls != [] {
      var s := Join(ls);
      assert s == ls[0] + "\n" + Join(ls[1..]);
      GetLineOf(ls[0], Join(ls[1..]));
      assert s[|ls[0]|] == '\n';
      LinesOfJoin(ls[1..]);
    }
  }

  lemma {:induction false} Slice(s: string, k: nat, a: nat, b: nat)
    requires k + a <= k + b <= |s|
    ensures s[k..][a..b] == s[k + a..k + b]
    ensures s[k..][a..] == s[k + a..]
  {
  }

  lemma {:induction false} Cut(s: string, p: nat, n: nat)
    requires p <= n <= |s|
    ensures s == s[..p] + s[p..]
    ensures s[..n] == s[..p] + s[p..n]
    ensures s[p..] == s[p..n] + s[n..]
  {
  }

  lemma {:induction false} Assoc<T>(a: seq<T>, b: seq<T>, c: seq<T>)
    ensures a + b + c == a + (b + c)
  {
  }

  function Concat(texts: seq<string>): string {
    if texts == [] then "" else texts[0] + Concat(texts[1..])
  }

  function Max(a: nat, b: nat): nat {
    if a < b then b else a
  }

  // ----- names compared without case

  /** `tolower` in the "C" locale. */
  function ToLower(c: char): char {
    if 'A' <= c <= 'Z' then (c as int + 32) as char else c
  }

  predicate CaseInsensitiveEqual(a: string, b: string) {
    |a| == |b| && forall i :: 0 <= i < |a| ==> ToLower(a[i]) == ToLower(b[i])
  }

  const UPPER_LETTERS := "ABCDEFGHIJKLMNOPQRSTUVWXYZ"
  const LOWER_LETTERS := "abcdefghijklmnopqrstuvwxyz"

  /** Upper-case letters become the lower-case letters in the same places; nothing else changes. */
  lemma {:induction false} LowerCase(c: char)
    ensures forall i :: 0 <= i < 26 ==> ToLower(UPPER_LETTERS[i]) == LOWER_LETTERS[i]
    ensures c !in UPPER_LETTERS ==> ToLower(c) == c
  {
    UpperLetters(c);
  }

  lemma {:induction false} UpperLetters(c: char)
    ensures c in UPPER_LETTERS <==> 'A' <= c <= 'Z'
  {
    assert 'A' <= c <= 'Z' ==> UPPER_LETTERS[c as int - 'A' as int] == c;
  }

  lemma {:induction false} LowerLetters(c: char)
    ensures c in LOWER_LETTERS <==> 'a' <= c <= 'z'
  {
    assert 'a' <= c <= 'z' ==> LOWER_LETTERS[c as int - 'a' as int] == c;
  }

  /** The hash of a name: `mix` is the arithmetic that adds one lower-cased character to the
      hash so far, the same at every position. */
  function Hash<H>(s: string, mix: (H, char) -> H, h: H): H
    decreases |s|
  {
    if s == "" then h else Hash(s[1..], mix, mix(h, ToLower(s[0])))
  }

  method CaseInsensitiveHash<H>(s: string, mix: (H, char) -> H, seed: H) returns (h: H)
    ensures h == Hash(s, mix, seed)
  {
    h := seed;
    for i := 0 to |s|
      invariant Hash(s[i..], mix, h) == Hash(s, mix, seed)
    {
      h := mix(h, ToLower(s[i]));
    }
  }

  /** The law a hashed container needs: names that compare equal have equal hashes. */
  lemma {:induction false} EqualNamesHashEqual<H>(a: string, b: string, mix: (H, char) -> H, h: H)
    requires CaseInsensitiveEqual(a, b)
    ensures Hash(a, mix, h) == Hash(b, mix, h)
    decreases |a|
  {
    if a != "" {
      assert ToLower(a[0]) == ToLower(b[0]);
      assert forall i :: 0 <= i < |a| - 1 ==> a[1..][i] == a[i + 1] && b[1..][i] == b[i + 1];
      EqualNamesHashEqual(a[1..], b[1..], mix, mix(h, ToLower(a[0])));
    }
  }

  /** `find` on the multimap: the value of the first entry with that name. */
  function Lookup(fs: seq<Field>, name: string): (v: Option<string>)
    ensures v.None? <==> forall f :: f in fs ==> !CaseInsensitiveEqual(f.name, name)
    ensures v.Some? ==> exists f :: f in fs && CaseInsensitiveEqual(f.name, name) && f.value == v.value
  {
    if fs == [] then None
    else if CaseInsensitiveEqual(fs[0].name, name) then Some(fs[0].value)
    else Lookup(fs[1..], name)
  }

  /** An entry that no earlier entry hides is the one that is found. */
  lemma {:induction false} LookupSkips(a: seq<Field>, b: seq<Field>, name: string)
    requires Lookup(a, name).None?
    ensures Lookup(a + b, name) == Lookup(b, name)
  {
    if a == [] {
      assert a + b == b;
    } else {
      assert a[0] in a;
      assert (a + b)[1..] == a[1..] + b;
      LookupSkips(a[1..], b, name);
    }
  }
}
