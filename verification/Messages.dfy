/** The parsers of header fields, request heads and response heads. */
module Messages {
  import opened Text
  import opened Delimiters
  import opened Transport

  // ----- header fields

  /** Where the value begins: spaces are skipped, but never the last character of the line. */
  function ValueStart(line: string, from: nat): (i: nat)
    requires from <= |line|
    ensures from <= i <= |line|
    decreases |line| - from
  {
    if from + 1 < |line| && line[from] == ' ' then ValueStart(line, from + 1) else from
  }

  /** The end of a line without the CR that may close it. */
  function TextEnd(line: string): (e: nat)
    ensures e <= |line|
  {
    if line != "" && line[|line| - 1] == '\r' then |line| - 1 else |line|
  }

  /** The field on a header line; none when nothing follows the colon. */
  function HeaderField(line: string): seq<Field>
    requires ':' in line
  {
    var colon := Find(line, ':', 0);
    var start := ValueStart(line, colon + 1);
    if start < |line| then [Field(line[..colon], line[start..TextEnd(line)])] else []
  }

  /** The fields, and the bytes that the parser does not take. */
  datatype Header = Header(fields: seq<Field>, rest: string)

  /** Lines are taken up to and including the first one without a colon. */
  function ParsedHeader(s: string): Header
    decreases |s|
  {
    if s == "" then Header([], s)
    else
      var l := GetLine(s);
      if ':' !in l.line then Header([], l.rest)
      else
        var more := ParsedHeader(l.rest);
        Header(HeaderField(l.line) + more.fields, more.rest)
  }

  /** The field on one line, whose colon is known. */
  method TakeField(line: string, paramEnd: nat) returns (field: seq<Field>)
    requires paramEnd == Find(line, ':', 0) < |line|
    ensures ':' in line && field == HeaderField(line)
  {
    assert line[paramEnd] == ':';
    var valueStart := paramEnd + 1;
    while valueStart + 1 < |line| && line[valueStart] == ' '
      invariant paramEnd < valueStart <= |line|
      invariant ValueStart(line, valueStart) == ValueStart(line, paramEnd + 1)
    {
      valueStart := valueStart + 1;
    }
    field := [];
    if valueStart < |line| {
      field := [Field(line[..paramEnd], line[valueStart..|line| - if line[|line| - 1] == '\r' then 1 else 0])];
    }
  }

  method ParseHeader(sb: Streambuf) returns (result: seq<Field>)
    modifies sb
    ensures Header(result, sb.data) == ParsedHeader(old(sb.data))
  {
    result := [];
    while true
      invariant ParsedHeader(old(sb.data)) ==
                Header(result + ParsedHeader(sb.data).fields, ParsedHeader(sb.data).rest)
      decreases |sb.data|
    {
      hide HeaderField, ParsedHeader;
      ghost var all, before := sb.data, result;
      HeaderStep(all);
      var ok, line := sb.GetLine();
      if !ok {
        break;
      }
      var paramEnd := Find(line, ':', 0);
      if paramEnd == |line| {
        break;
      }
      var field := TakeField(line, paramEnd);
      result := result + field;
      Assoc(before, HeaderField(line), ParsedHeader(sb.data).fields);
    }
  }

  lemma {:induction false} HeaderStep(s: string)
    ensures s == "" ==> ParsedHeader(s) == Header([], s)
    ensures s != "" ==>
              var l := GetLine(s);
              var more := ParsedHeader(l.rest);
              ParsedHeader(s) == if ':' !in l.line then Header([], l.rest)
                                 else Header(HeaderField(l.line) + more.fields, more.rest)
  {
    hide HeaderField;
  }

  // ----- request line and status line

  datatype RequestLine = RequestLine(verb: string, path: string, query: string, version: string)

  /** The last `?` in `line[from..end]`, or `end`. */
  function LastQuestion(line: string, from: nat, end: nat): (q: nat)
    requires from <= end <= |line|
    ensures from <= q <= end
    ensures q < end ==> line[q] == '?'
    ensures forall k :: from <= k < end && (q == end || q < k) ==> line[k] != '?'
    decreases end - from
  {
    if from == end then end
    else
      var q := LastQuestion(line, from + 1, end);
      if q == end && line[from] == '?' then from else q
  }

  /** A target is taken apart at its last `?`. */
  datatype TargetParts = TargetParts(path: string, query: string)

  function SplitTarget(line: string, from: nat, end: nat): TargetParts
    requires from <= end <= |line|
  {
    var q := LastQuestion(line, from, end);
    TargetParts(line[from..q], if q == end then "" else line[q + 1..end])
  }

  /** The version follows the first `/` after the target, without the last character of the line;
      what precedes that `/` must be "HTTP". */
  function ParsedVersion(line: string, from: nat): Option<string>
    requires from <= |line|
  {
    var slash := Find(line, '/', from);
    if slash == |line| || line[from..slash] != "HTTP" then None
    else Some(if slash + 1 == |line| then "" else line[slash + 1..|line| - 1])
  }

  /** The method ends at the first space, the target at the second; the last `?` of the target
      begins the query. */
  function ParsedRequestLine(line: string): (r: Option<RequestLine>)
  {
    var verbEnd := Find(line, ' ', 0);
    if verbEnd == |line| then None
    else
      var targetEnd := Find(line, ' ', verbEnd + 1);
      if targetEnd == |line| || ParsedVersion(line, targetEnd + 1).None? then None
      else
        var target := SplitTarget(line, verbEnd + 1, targetEnd);
        Some(RequestLine(line[..verbEnd], target.path, target.query, ParsedVersion(line, targetEnd + 1).value))
  }

  const NPOS := -1

  /** The loop over the target: where it ends, and where its query begins, if it has one. */
  method FindTarget(line: string, verbEnd: nat) returns (queryStart: int, targetEnd: int)
    requires verbEnd < |line|
    ensures if Find(line, ' ', verbEnd + 1) == |line| then targetEnd == NPOS
            else
              && targetEnd == Find(line, ' ', verbEnd + 1)
              && var q := LastQuestion(line, verbEnd + 1, targetEnd);
                 queryStart == if q == targetEnd then NPOS else q + 1
  {
    queryStart, targetEnd := NPOS, NPOS;
    var i := verbEnd + 1;
    while i < |line|
      invariant verbEnd < i <= |line|
      invariant forall k :: verbEnd < k < i ==> line[k] != ' '
      invariant queryStart == NPOS ==> forall k :: verbEnd < k < i && k + 1 < |line| ==> line[k] != '?'
      invariant queryStart != NPOS ==>
                  && verbEnd + 1 < queryStart <= i && line[queryStart - 1] == '?'
                  && forall k :: queryStart <= k < i && k + 1 < |line| ==> line[k] != '?'
    {
      if line[i] == '?' && i + 1 < |line| {
        queryStart := i + 1;
      } else if line[i] == ' ' {
        targetEnd := i;
        return;
      }
      i := i + 1;
    }
  }

  method ParseVersion(line: string, from: nat) returns (version: Option<string>)
    requires from <= |line|
    ensures version == ParsedVersion(line, from)
  {
    var slash := Find(line, '/', from);
    if slash == |line| || line[from..slash] != "HTTP" {
      return None;
    }
    // When the slash is the last character, the length `size - slash - 2` wraps around and the
    // substring runs to the end of the line, which is empty.
    version := Some(if slash + 1 == |line| then "" else line[slash + 1..|line| - 1]);
  }

  method ParseRequestLine(line: string) returns (r: Option<RequestLine>)
    ensures r == ParsedRequestLine(line)
  {
    hide Find, SplitTarget, ParsedVersion;
    var verbEnd := Find(line, ' ', 0);
    if verbEnd == |line| {
      return None;
    }
    var queryStart, targetEnd := FindTarget(line, verbEnd);
    if targetEnd == NPOS {
      return None;
    }
    var target := CutTarget(line, verbEnd + 1, queryStart, targetEnd);
    var version := ParseVersion(line, targetEnd + 1);
    if version.None? {
      return None;
    }
    r := Some(RequestLine(line[..verbEnd], target.path, target.query, version.value));
  }

  method CutTarget(line: string, from: nat, queryStart: int, targetEnd: nat) returns (target: TargetParts)
    requires from <= targetEnd <= |line|
    requires var q := LastQuestion(line, from, targetEnd);
             queryStart == if q == targetEnd then NPOS else q + 1
    ensures target == SplitTarget(line, from, targetEnd)
  {
    if queryStart != NPOS {
      target := TargetParts(line[from..queryStart - 1], line[queryStart..targetEnd]);
    } else {
      target := TargetParts(line[from..targetEnd], "");
    }
  }

  datatype StatusLine = StatusLine(version: string, status: string)

  /** The version begins at the sixth character and ends at the first space, wherever that is: with a
      space among the first five characters the length wraps around and it runs to the end. */
  function ParsedStatusLine(line: string): Option<StatusLine>
  {
    var versionEnd := Find(line, ' ', 0);
    if versionEnd == |line| || |line| <= 5 || |line| <= versionEnd + 1 then None
    else
      var version := if versionEnd < 5 then line[5..] else line[5..versionEnd];
      Some(StatusLine(version, line[versionEnd + 1..TextEnd(line)]))
  }

  // ----- what the lines mean, from the side that writes them

  function Spaces(n: nat): string {
    seq(n, _ => ' ')
  }

  /** A header line: the name, a colon, any number of spaces, the value, and a CR or not. */
  lemma {:induction false} HeaderLine(name: string, n: nat, value: string, cr: string)
    requires ':' !in name && (value == "" || value[0] != ' ') && (cr == "\r" || cr == "") && value + cr != ""
    requires cr == "" ==> value[|value| - 1] != '\r'
    ensures var line := name + ":" + (Spaces(n) + (value + cr));
            ':' in line && HeaderField(line) == [Field(name, value)]
  {
    hide Find, ValueStart, TextEnd, Spaces;
    var rest := value + cr;
    var line := name + ":" + (Spaces(n) + rest);
    Colon(line, name, Spaces(n) + rest);
    ValueBegins(line, |name| + 1, n, rest);
    ValueEnds(line, |name| + 1 + n, value, cr);
  }

  lemma {:induction false} Colon(line: string, name: string, more: string)
    requires line == name + ":" + more && ':' !in name
    ensures ':' in line && Find(line, ':', 0) == |name| && line[..|name|] == name && line[|name| + 1..] == more
  {
    assert line[0..] == line;
    Word(line, 0, name, ':', more);
  }

  /** Where nothing else follows the colon there is no field, or the last space is its value. */
  lemma {:induction false} EmptyHeaderLine(name: string, n: nat)
    requires ':' !in name
    ensures var line := name + ":" + Spaces(n);
            ':' in line && HeaderField(line) == if n > 0 then [Field(name, " ")] else []
  {
    hide Find, ValueStart, TextEnd, Spaces;
    var line := name + ":" + Spaces(n);
    assert Spaces(n) + "" == Spaces(n);
    Colon(line, name, Spaces(n));
    OnlySpaces(line, |name| + 1, n);
    if n > 0 {
      assert line[|line| - 1..] == " " + "";
      ValueEnds(line, |line| - 1, " ", "");
    }
  }

  lemma {:induction false} ValueEnds(line: string, start: nat, value: string, cr: string)
    requires start < |line| && line[start..] == value + cr && (cr == "\r" || cr == "")
    requires cr == "" && value != "" ==> value[|value| - 1] != '\r'
    ensures start <= TextEnd(line) && line[start..TextEnd(line)] == value
  {
    var t := line[start..];
    assert line[|line| - 1] == t[|t| - 1];
    assert line[start..start + |value|] == t[..|value|];
  }

  lemma {:induction false} ValueBegins(line: string, from: nat, n: nat, rest: string)
    requires from <= |line| && line[from..] == Spaces(n) + rest && rest != "" && rest[0] != ' '
    ensures ValueStart(line, from) == from + n < |line| && line[from + n..] == rest
  {
    var t := line[from..];
    assert forall k :: from <= k < from + n ==> line[k] == t[k - from];
    assert line[from + n] == t[n] && line[from + n..] == t[n..];
    SpacesSkipped(line, from, n);
  }

  lemma {:induction false} OnlySpaces(line: string, from: nat, n: nat)
    requires from <= |line| && line[from..] == Spaces(n) + ""
    ensures ValueStart(line, from) == if n == 0 then from else |line| - 1
    ensures n == 0 ==> from == |line|
    ensures n > 0 ==> line[|line| - 1..|line|] == " "
  {
    var t := line[from..];
    assert forall k :: from <= k < from + n ==> line[k] == t[k - from];
    if n > 0 {
      SpacesSkipped(line, from, n - 1);
    }
  }

  lemma {:induction false} SpacesSkipped(line: string, from: nat, n: nat)
    requires from + n < |line| && forall k :: from <= k < from + n ==> line[k] == ' '
    requires from + n + 1 == |line| || line[from + n] != ' '
    ensures ValueStart(line, from) == from + n
    decreases n
  {
    if n > 0 {
      SpacesSkipped(line, from + 1, n - 1);
    }
  }

  lemma {:induction false} Word(line: string, from: nat, word: string, c: char, more: string)
    requires from <= |line| && line[from..] == word + [c] + more && c !in word
    ensures var e := from + |word|;
            e < |line| && Find(line, c, from) == e && line[from..e] == word && line[e + 1..] == more
  {
    var t, e := line[from..], from + |word|;
    assert forall k :: from <= k < e ==> line[k] == t[k - from] == word[k - from] && word[k - from] in word;
    assert line[e] == t[|word|] == c;
    assert line[from..e] == t[..|word|] && line[e + 1..] == t[|word| + 1..];
  }

  /** A target as it is put together. */
  function TargetText(path: string, query: Option<string>): string {
    match query
    case None => path
    case Some(q) => path + "?" + q
  }

  function QueryOf(query: Option<string>): string {
    match query
    case None => ""
    case Some(q) => q
  }

  /** The last question mark is what divides path and query. */
  predicate Divided(path: string, query: Option<string>) {
    match query
    case None => '?' !in path
    case Some(q) => '?' !in q
  }

  lemma {:induction false} LastQuestionShifts(line: string, from: nat, target: string, k: nat)
    requires from + |target| <= |line| && line[from..from + |target|] == target && k <= |target|
    ensures LastQuestion(line, from + k, from + |target|) == from + LastQuestion(target, k, |target|)
    decreases |target| - k
  {
    if k < |target| {
      LastQuestionShifts(line, from, target, k + 1);
      assert line[from + k] == target[k];
    }
  }

  lemma {:induction false} SplitShifts(line: string, from: nat, target: string)
    requires from + |target| <= |line| && line[from..from + |target|] == target
    ensures SplitTarget(line, from, from + |target|) == SplitTarget(target, 0, |target|)
  {
    hide LastQuestion;
    LastQuestionShifts(line, from, target, 0);
    var q := LastQuestion(target, 0, |target|);
    assert line[from..from + q] == target[0..q];
    if q < |target| {
      assert line[from + q + 1..from + |target|] == target[q + 1..|target|];
    }
  }

  lemma {:induction false} TargetMeans(path: string, query: Option<string>)
    requires Divided(path, query)
    ensures var t := TargetText(path, query);
            SplitTarget(t, 0, |t|) == TargetParts(path, QueryOf(query))
  {
    var t := TargetText(path, query);
    if query.Some? {
      assert t[|path|] == '?' && t[0..|path|] == path && t[|path| + 1..|t|] == query.value;
      assert forall k :: |path| < k < |t| ==> t[k] == query.value[k - |path| - 1];
    } else {
      assert t[0..|t|] == path;
    }
  }

  /** Every target is divided in one way. */
  lemma {:induction false} EveryTargetDivides(target: string) returns (path: string, query: Option<string>)
    ensures TargetText(path, query) == target && Divided(path, query)
  {
    var q := LastQuestion(target, 0, |target|);
    path, query := target[..q], if q == |target| then None else Some(target[q + 1..]);
  }

  lemma {:induction false} TwoWords(line: string, verb: string, target: string, more: string)
    requires ' ' !in verb && ' ' !in target && line == verb + " " + (target + " " + more)
    ensures var a := |verb| + 1;
            var b := a + |target|;
            && b < |line| && Find(line, ' ', 0) == |verb| && line[..|verb|] == verb
            && Find(line, ' ', a) == b && line[a..b] == target && line[b + 1..] == more
  {
    assert line[0..] == line;
    Word(line, 0, verb, ' ', target + " " + more);
    Word(line, |verb| + 1, target, ' ', more);
  }

  lemma {:induction false} VersionMeans(line: string, from: nat, protocol: string, version: string, c: char)
    requires from <= |line| && line[from..] == protocol + "/" + (version + [c]) && '/' !in protocol
    ensures ParsedVersion(line, from) == if protocol == "HTTP" then Some(version) else None
  {
    hide Find;
    Word(line, from, protocol, '/', version + [c]);
    assert line[from + |protocol| + 1..|line| - 1] == line[from + |protocol| + 1..][..|version|] == version;
  }

  /** A request line: method, target, protocol, a slash, the version and one more character, the CR. It is taken
      apart into just these, and refused when the protocol is not HTTP. */
  lemma {:induction false} RequestLineMeans(
    verb: string, path: string, query: Option<string>, protocol: string, version: string, c: char)
    requires ' ' !in verb && ' ' !in TargetText(path, query) && Divided(path, query) && '/' !in protocol
    ensures var line := verb + " " + (TargetText(path, query) + " " + (protocol + "/" + (version + [c])));
            ParsedRequestLine(line) ==
            if protocol == "HTTP" then
              Some(RequestLine(verb, path, QueryOf(query), version))
            else None
  {
    hide SplitTarget, TargetText, Divided, Find, ParsedVersion;
    var target, more := TargetText(path, query), protocol + "/" + (version + [c]);
    var line := verb + " " + (target + " " + more);
    TwoWords(line, verb, target, more);
    VersionMeans(line, |verb| + 1 + |target| + 1, protocol, version, c);
    SplitShifts(line, |verb| + 1, target);
    TargetMeans(path, query);
  }

  /** Without two spaces and a slash behind the second, a request line is refused. */
  lemma {:induction false} RequestLineRefused(verb: string, target: string, rest: string)
    requires ' ' !in verb && ' ' !in target && '/' !in rest
    ensures ParsedRequestLine(verb) == None
    ensures ParsedRequestLine(verb + " " + target) == None
    ensures ParsedRequestLine(verb + " " + (target + " " + rest)) == None
  {
    hide SplitTarget, Find;
    assert verb[0..] == verb;
    NotThere(verb, 0, verb, ' ');
    var one, two := verb + " " + target, verb + " " + (target + " " + rest);
    assert one[0..] == one;
    Word(one, 0, verb, ' ', target);
    NotThere(one, |verb| + 1, target, ' ');
    TwoWords(two, verb, target, rest);
    NotThere(two, |verb| + 1 + |target| + 1, rest, '/');
  }

  lemma {:induction false} NoVersion(verb: string, target: string)
    requires ' ' !in verb && ' ' !in target
    ensures var line := ParsedRequestLine(verb + " " + (target + " " + "HTTP/"));
            line.Some? && line.value.version == ""
  {
    hide SplitTarget, Find;
    var line := verb + " " + (target + " " + "HTTP/");
    TwoWords(line, verb, target, "HTTP/");
    assert "HTTP/" == "HTTP" + "/" + "";
    Word(line, |verb| + 1 + |target| + 1, "HTTP", '/', "");
  }

  lemma {:induction false} NotThere(line: string, from: nat, rest: string, c: char)
    requires from <= |line| && line[from..] == rest && c !in rest
    ensures Find(line, c, from) == |line|
  {
    assert forall k :: from <= k < |line| ==> line[k] == rest[k - from] && rest[k - from] in rest;
  }

  /** A status line: five characters, the version, a space, the status and a CR or not; it is taken apart into
      version and status, unless nothing comes after the space. */
  lemma {:induction false} StatusLineMeans(start: string, version: string, status: string, cr: string)
    requires |start| == 5 && ' ' !in start + version && (cr == "\r" || cr == "")
    requires cr == "" && status != "" ==> status[|status| - 1] != '\r'
    ensures ParsedStatusLine(start + version) == None
    ensures ParsedStatusLine(start + version + " " + status + cr) ==
            if status + cr == "" then None else Some(StatusLine(version, status))
  {
    hide Find;
    var word, line := start + version, start + version + " " + status + cr;
    NotThere(word, 0, word, ' ');
    assert word[0..] == word && line[0..] == word + " " + (status + cr);
    Word(line, 0, word, ' ', status + cr);
    assert line[5..|word|] == version;
    if status + cr != "" {
      assert line[|line| - 1] == (status + cr)[|status + cr| - 1];
      assert line[|word| + 1..|word| + 1 + |status|] == line[|word| + 1..][..|status|] == status;
    }
  }

  /** A status line of at most five characters is refused, and in a longer one with a space among them the
      version runs to the end. */
  lemma {:induction false} StatusLineAstray(word: string, status: string, cr: string)
    requires |word| < 5 && ' ' !in word && (cr == "\r" || cr == "") && status + cr != ""
    requires cr == "" ==> status[|status| - 1] != '\r'
    ensures var line := word + " " + (status + cr);
            ParsedStatusLine(line) == if |line| <= 5 then None else Some(StatusLine(line[5..], status))
  {
    hide Find;
    var line := word + " " + (status + cr);
    assert line[0..] == line;
    Word(line, 0, word, ' ', status + cr);
    ValueEnds(line, |word| + 1, status, cr);
  }

  // ----- whole heads

  /** A head whose first line was parsed to an `L`. */
  datatype Head<+L> = Head(line: L, fields: seq<Field>)

  type RequestHead = Head<RequestLine>
  type ResponseHead = Head<StatusLine>

  /** A parsed head, and the bytes that the parser does not take. */
  datatype Parsed<+L> = Parsed(head: Head<L>, rest: string)

  /** Requests and responses differ in how their first line is parsed. */
  function ParsedHead<L>(s: string, firstLine: string -> Option<L>): Option<Parsed<L>>
  {
    if s == "" then None
    else
      var l := GetLine(s);
      match firstLine(l.line)
      case None => None
      case Some(line) =>
        var h := ParsedHeader(l.rest);
        Some(Parsed(Head(line, h.fields), h.rest))
  }

  function ParsedRequest(s: string): Option<Parsed<RequestLine>>
  {
    ParsedHead(s, ParsedRequestLine)
  }

  function ParsedResponse(s: string): Option<Parsed<StatusLine>>
  {
    ParsedHead(s, ParsedStatusLine)
  }

  method ParseRequest(sb: Streambuf) returns (r: Option<RequestHead>)
    modifies sb
    ensures r.None? <==> ParsedRequest(old(sb.data)).None?
    ensures r.Some? ==> ParsedRequest(old(sb.data)) == Some(Parsed(r.value, sb.data))
  {
    hide ParsedRequestLine, ParsedHeader;
    var ok, line := sb.GetLine();
    if !ok {
      return None;
    }
    var requestLine := ParseRequestLine(line);
    if requestLine.None? {
      return None;
    }
    var header := ParseHeader(sb);
    r := Some(Head(requestLine.value, header));
  }

  method ParseResponse(sb: Streambuf) returns (r: Option<ResponseHead>)
    modifies sb
    ensures r.None? <==> ParsedResponse(old(sb.data)).None?
    ensures r.Some? ==> ParsedResponse(old(sb.data)) == Some(Parsed(r.value, sb.data))
  {
    hide ParsedHeader;
    var ok, line := sb.GetLine();
    if !ok {
      return None;
    }
    var versionEnd := Find(line, ' ', 0);
    if versionEnd == |line| {
      return None;
    }
    if !(5 < |line|) {
      return None;
    }
    var version := if versionEnd < 5 then line[5..] else line[5..versionEnd];
    if !(versionEnd + 1 < |line|) {
      return None;
    }
    var status := line[versionEnd + 1..|line| - if line[|line| - 1] == '\r' then 1 else 0];
    var header := ParseHeader(sb);
    r := Some(Head(StatusLine(version, status), header));
  }

  // ----- the parsers agree with the delimiter search

  predicate WithoutLf(ls: seq<string>) {
    forall l :: l in ls ==> '\n' !in l
  }

  predicate HaveColon(ls: seq<string>) {
    forall l :: l in ls ==> ':' in l
  }

  /** The fields on the lines before the first one without a colon. */
  function FieldsOnLines(ls: seq<string>): seq<Field>
  {
    if ls == [] || ':' !in ls[0] then [] else HeaderField(ls[0]) + FieldsOnLines(ls[1..])
  }

  /** What the parser leaves of the lines `ls` and the line `stop` after them. */
  function Unread(ls: seq<string>, stop: string): string
  {
    if ls == [] then "" else if ':' !in ls[0] then Join(ls[1..]) + stop + "\n" else Unread(ls[1..], stop)
  }

  /** On lines that end with one without a colon, what follows makes no difference to the parser. */
  lemma {:induction false} HeaderOnLines(ls: seq<string>, stop: string, tail: string)
    requires WithoutLf(ls) && '\n' !in stop && ':' !in stop
    ensures ParsedHeader(Join(ls) + stop + "\n" + tail) == Header(FieldsOnLines(ls), Unread(ls, stop) + tail)
  {
    hide HeaderField, ParsedHeader;
    if ls == [] {
      var s := stop + "\n" + tail;
      assert Join(ls) + stop + "\n" + tail == s;
      GetLineOf(stop, tail);
      HeaderStep(s);
      assert "" + tail == tail;
    } else {
      var more := Join(ls[1..]) + stop + "\n" + tail;
      assert Join(ls) + stop + "\n" + tail == ls[0] + "\n" + more;
      assert ls[0] in ls;
      GetLineOf(ls[0], more);
      HeaderStep(ls[0] + "\n" + more);
      HeaderOnLines(ls[1..], stop, tail);
    }
  }

  /** Nothing of the lines is left exactly when every line has a colon. */
  lemma {:induction false} UnreadNothing(ls: seq<string>, stop: string)
    ensures Unread(ls, stop) == "" <==> HaveColon(ls)
  {
    if ls != [] {
      assert ls[0] in ls;
      UnreadNothing(ls[1..], stop);
    }
  }

  /** The text ends in an odd number of CRs. */
  predicate OddCr(text: string) {
    CrRun(text, |text|) % 2 == 1
  }

  /** The last of the lines is blank and makes the others a head: an empty line, or a CR after a line that
      ends in an odd number of CRs, for a header end; a CR after a line that ends in CR for CRLF CRLF. */
  predicate Closes(d: Delimiter, ls: seq<string>) {
    && |ls| >= 2
    && var last, before := ls[|ls| - 1], ls[|ls| - 2];
       if d == HeaderEnd then last == "" || (last == "\r" && OddCr(before))
       else last == "\r" && before != "" && before[|before| - 1] == '\r'
  }

  /** The head that a delimiter ends is made of whole lines, at least two; the last has no colon. */
  predicate IsHead(ls: seq<string>, head: string) {
    && |ls| >= 2 && WithoutLf(ls) && head == Join(ls)
    && (ls[|ls| - 1] == "" || ls[|ls| - 1] == "\r")
  }

  lemma {:induction false} HeadLines(d: Delimiter, s: string, p: nat)
    requires p <= |s| && d != Crlf && EndsAt(d, s, p)
    ensures IsHead(Lines(s[..p]), s[..p])
  {
    hide Lines, Join, CrRun;
    var head := s[..p];
    assert p >= 2 && s[p - 1] == '\n' && (s[p - 2] == '\n' || (p >= 3 && s[p - 3] == '\n' && s[p - 2] == '\r'));
    assert head[p - 1] == s[p - 1] && head[p - 2] == s[p - 2] && (p >= 3 ==> head[p - 3] == s[p - 3]);
    hide EndsAt;
    JoinOfLines(head);
    LastLine(Lines(head));
  }

  lemma {:induction false} JoinLast(ls: seq<string>)
    requires ls != []
    ensures var m := |ls| - 1;
            Join(ls) == Join(ls[..m]) + (ls[m] + "\n") && (m == 0 ==> Join(ls[..m]) == "")
  {
    var m := |ls| - 1;
    assert ls == ls[..m] + [ls[m]];
    JoinAppend(ls[..m], [ls[m]]);
    assert Join([ls[m]]) == ls[m] + "\n" + "";
  }

  lemma {:induction false} LastLine(ls: seq<string>)
    requires WithoutLf(ls) && |Join(ls)| >= 2
    requires var h := Join(ls);
             var n := |h|;
             h[n - 2] == '\n' || (n >= 3 && h[n - 3] == '\n' && h[n - 2] == '\r')
    ensures |ls| >= 2 && (ls[|ls| - 1] == "" || ls[|ls| - 1] == "\r")
  {
    assert ls != [];
    hide Join;
    var h, m := Join(ls), |ls| - 1;
    var last := ls[m];
    assert last in ls;
    JoinLast(ls);
    var front := Join(ls[..m]);
    var k := |front|;
    assert |h| == k + |last| + 1;
    forall i | k <= i < |h| - 1 ensures h[i] == last[i - k] != '\n' {
      assert last[i - k] in last;
    }
    assert |last| <= 1 && k > 0;
  }

  lemma {:induction false} LinesAppend(a: string, b: string)
    requires a == "" || a[|a| - 1] == '\n'
    ensures Lines(a + b) == Lines(a) + Lines(b)
    decreases |a|
  {
    hide Lines;
    if a == "" {
      assert a + b == b;
      LinesStep(a);
    } else {
      TailOfText(a, b);
      GetLineExtends(a, b);
      LinesStep(a);
      LinesStep(a + b);
      LinesAppend(GetLine(a).rest, b);
      Assoc([GetLine(a).line], Lines(GetLine(a).rest), Lines(b));
    }
  }

  lemma {:induction false} TailOfText(a: string, b: string)
    requires a != "" && a[|a| - 1] == '\n'
    ensures '\n' in a && '\n' in a + b
    ensures var rest := GetLine(a).rest; rest == "" || rest[|rest| - 1] == '\n'
  {
    assert a[|a| - 1] in a && (a + b)[|a| - 1] in a + b;
    var l := GetLine(a);
    assert a == l.line + "\n" + l.rest;
    assert l.rest != "" ==> l.rest[|l.rest| - 1] == a[|a| - 1];
  }

  lemma {:induction false} LinesStep(s: string)
    ensures Lines(s) == if '\n' in s then [GetLine(s).line] + Lines(GetLine(s).rest) else []
  {
  }

  /** Lines that stand before the blank line of a head: none of them is blank itself. */
  predicate NotBlank(ls: seq<string>) {
    ls != [] && WithoutLf(ls) && forall l :: l in ls ==> l != "" && l != "\r"
  }

  lemma {:induction false} NoHeadInLines(ls: seq<string>, front: string, back: string)
    requires NotBlank(ls)
    requires Join(ls) == front + back && (front == "" || front[|front| - 1] == '\n')
    ensures !IsHead(Lines(front), front)
  {
    hide Join, Lines, IsHead;
    LinesOfJoin(ls);
    LinesAppend(front, back);
    LastIsNotBlank(Lines(front), Lines(back), front);
  }

  lemma {:induction false} LastIsNotBlank(a: seq<string>, b: seq<string>, front: string)
    requires forall l :: l in a + b ==> l != "" && l != "\r"
    ensures !IsHead(a, front)
  {
    hide Join;
    if a != [] {
      assert a[|a| - 1] in a + b;
    }
  }

  lemma {:induction false} NoEndInLines(d: Delimiter, ls: seq<string>, k: nat)
    requires d != Crlf && NotBlank(ls) && k <= |Join(ls)|
    ensures !EndsAt(d, Join(ls), k)
  {
    hide Join, Lines;
    var h := Join(ls);
    if EndsAt(d, h, k) {
      HeadLines(d, h, k);
      assert h[..k][k - 1] == '\n' && h == h[..k] + h[k..];
      NoHeadInLines(ls, h[..k], h[k..]);
    }
  }

  /** When a CR line follows, the delimiter ends there first, or not there. */
  lemma {:induction false} HeadEndsFirst(d: Delimiter, ls: seq<string>, tail: string)
    requires d != Crlf && NotBlank(ls)
    ensures var head := Join(ls + ["\r"]);
            IsHead(ls + ["\r"], head) && (IsFirstEnd(d, head + tail, |head|) <==> Closes(d, ls + ["\r"]))
  {
    hide Closes, EndsAt;
    var h, s := Join(ls), Join(ls + ["\r"]) + tail;
    JoinAppend(ls, ["\r"]);
    assert Join(["\r"]) == "\r\n" && s == h + ("\r\n" + tail);
    EndOfLines(d, ls + ["\r"], tail);
    forall k: nat | k < |h| + 2 ensures !EndsAt(d, s, k) {
      if k <= |h| {
        NoEndInLines(d, ls, k);
        EndsAtPrefix(d, h, "\r\n" + tail, k);
      } else {
        EndsInLf(d, s, k);
      }
    }
  }

  lemma {:induction false} EndsInLf(d: Delimiter, s: string, p: nat)
    requires p <= |s|
    ensures EndsAt(d, s, p) ==> p > 0 && s[p - 1] == '\n'
  {
  }

  /** The delimiter ends where a line ends exactly when that line closes a head. */
  lemma {:induction false} EndOfLines(d: Delimiter, ls: seq<string>, tail: string)
    requires d != Crlf && WithoutLf(ls) && ls != []
    ensures EndsAt(d, Join(ls) + tail, |Join(ls)|) <==> Closes(d, ls)
  {
    hide Join, EndsAt, CrRun;
    var m := |ls| - 1;
    assert ls[m] in ls;
    JoinLast(ls);
    EndOfJoin(ls[..m]);
    EndOfLine(d, Join(ls[..m]), ls[m], tail);
    if m > 0 {
      assert ls[m - 1] in ls && ls[..m][m - 1] == ls[m - 1] && ls[..m][..m - 1] == ls[..m - 1];
      JoinLast(ls[..m]);
      EndOfJoin(ls[..m - 1]);
      EndOfFront(Join(ls[..m - 1]), ls[m - 1]);
    }
  }

  lemma {:induction false} EndOfLine(d: Delimiter, front: string, last: string, tail: string)
    requires d != Crlf && '\n' !in last && (front == "" || front[|front| - 1] == '\n')
    ensures var s, p := front + (last + "\n") + tail, |front| + |last| + 1;
            EndsAt(d, s, p) <==>
              && front != ""
              && if d == HeaderEnd && last == "" then true
                 else last == "\r" && EndsInCrlf(front) && (d == HeaderEnd ==> CrRun(front, |front| - 1) % 2 == 1)
  {
    var s, p := front + (last + "\n") + tail, |front| + |last| + 1;
    assert forall i :: 0 <= i < |last| ==> s[|front| + i] == last[i] && last[i] in last;
    assert forall i :: 0 <= i < |front| ==> s[i] == front[i];
    if front != "" {
      assert s == front + (last + "\n" + tail);
      CrRunPrefix(front, last + "\n" + tail, |front| - 1);
    }
    hide CrRun;
    assert s[p - 1] == '\n';
  }

  predicate EndsInCrlf(s: string) {
    |s| >= 2 && s[|s| - 2] == '\r' && s[|s| - 1] == '\n'
  }

  lemma {:induction false} EndOfFront(start: string, before: string)
    requires '\n' !in before && (start == "" || start[|start| - 1] == '\n')
    ensures var front := start + (before + "\n");
            && (EndsInCrlf(front) <==> before != "" && before[|before| - 1] == '\r')
            && CrRun(front, |front| - 1) == CrRun(before, |before|)
    ensures OddCr(before) ==> before != "" && before[|before| - 1] == '\r'
  {
    var front := start + (before + "\n");
    assert front == start + before + "\n";
    CrRunAfter(start, before, "\n", |before|);
    assert before != "" ==> front[|front| - 2] == before[|before| - 1];
    assert before == "" && start != "" ==> front[|front| - 2] == start[|start| - 1];
  }

  lemma {:induction false} EndOfJoin(ls: seq<string>)
    ensures Join(ls) == "" || Join(ls)[|Join(ls)| - 1] == '\n'
  {
    if ls != [] {
      JoinLast(ls);
    }
  }

  /** A run of CRs does not reach beyond the line it is in. */
  lemma {:induction false} CrRunAfter(front: string, line: string, rest: string, n: nat)
    requires (front == "" || front[|front| - 1] == '\n') && n <= |line|
    ensures CrRun(front + line + rest, |front| + n) == CrRun(line, n)
  {
    if n > 0 {
      CrRunAfter(front, line, rest, n - 1);
      assert (front + line + rest)[|front| + n - 1] == line[n - 1];
    }
  }

  /** A head that a delimiter ends, and whatever follows it, as the parser takes them. */
  lemma {:induction false} ParsedOnLines<L>(ls: seq<string>, tail: string, firstLine: string -> Option<L>)
    requires IsHead(ls, Join(ls))
    ensures var n := |ls| - 1;
            ParsedHead(Join(ls) + tail, firstLine) ==
            match firstLine(ls[0])
            case None => None
            case Some(line) =>
              Some(Parsed(Head(line, FieldsOnLines(ls[1..n])), Unread(ls[1..n], ls[n]) + tail))
  {
    HeadThen(ls, tail);
  }

  lemma {:induction false} HeadThen(ls: seq<string>, tail: string)
    requires IsHead(ls, Join(ls))
    ensures var s, n := Join(ls) + tail, |ls| - 1;
            && s != "" && GetLine(s).line == ls[0]
            && ParsedHeader(GetLine(s).rest) == Header(FieldsOnLines(ls[1..n]), Unread(ls[1..n], ls[n]) + tail)
  {
    var n := |ls| - 1;
    var middle, stop := ls[1..n], ls[n];
    assert ls[0] in ls && stop in ls;
    assert ls[1..] == middle + [stop];
    JoinAppend(middle, [stop]);
    assert Join([stop]) == stop + "\n";
    var more := Join(middle) + stop + "\n" + tail;
    assert Join(ls) + tail == ls[0] + "\n" + more;
    GetLineOf(ls[0], more);
    HeaderOnLines(middle, stop, tail);
  }

  /** Every line between the first one and the blank one that ends the head has a colon. */
  predicate WellFormedHead(head: string) {
    var ls := Lines(head);
    |ls| >= 2 && HaveColon(ls[1..|ls| - 1])
  }

  /** The delimiter search and the parser agree: the parser never takes a byte beyond the delimiter, and
      it takes exactly the bytes up to there when the head is well formed. */
  lemma {:induction false} TakesHead<L>(d: Delimiter, s: string, p: nat, firstLine: string -> Option<L>)
    requires d != Crlf && IsFirstEnd(d, s, p) && ParsedHead(s, firstLine).Some?
    ensures var rest := ParsedHead(s, firstLine).value.rest;
            && |s| - p <= |rest| <= |s| && rest == s[|s| - |rest|..]
            && (|rest| == |s| - p <==> WellFormedHead(s[..p]))
  {
    hide *;
    FirstEndEnds(d, s, p);
    HeadLines(d, s, p);
    Cut(s, p, p);
    TakesLines(Lines(s[..p]), s[..p], s[p..], firstLine);
  }

  lemma {:induction false} TakesLines<L>(ls: seq<string>, head: string, tail: string, firstLine: string -> Option<L>)
    requires IsHead(ls, head) && ls == Lines(head) && ParsedHead(head + tail, firstLine).Some?
    ensures var s, rest := head + tail, ParsedHead(head + tail, firstLine).value.rest;
            && |tail| <= |rest| <= |s| && rest == s[|s| - |rest|..]
            && (|rest| == |tail| <==> WellFormedHead(head))
  {
    hide ParsedHead, FieldsOnLines, Unread, Join, Lines, HaveColon;
    TailOfHead(ls, tail);
    ParsedOnLines(ls, tail, firstLine);
  }

  /** What is buffered beyond the head makes no difference to the head that is parsed. */
  lemma {:induction false} FromPart<L>(d: Delimiter, s: string, p: nat, n: nat, firstLine: string -> Option<L>)
    requires d != Crlf && IsFirstEnd(d, s, p) && p <= n <= |s|
    ensures var whole, part := ParsedHead(s, firstLine), ParsedHead(s[..n], firstLine);
            && (whole.None? <==> part.None?)
            && (whole.Some? ==> part.value.head == whole.value.head && part.value.rest + s[n..] == whole.value.rest)
  {
    hide *;
    FirstEndEnds(d, s, p);
    HeadLines(d, s, p);
    Cut(s, p, n);
    OnMore(Lines(s[..p]), s[..p], s[p..n], s[n..], firstLine);
  }

  lemma {:induction false} OnMore<L>(
    ls: seq<string>, head: string, part: string, more: string, firstLine: string -> Option<L>)
    requires IsHead(ls, head)
    ensures var whole, some := ParsedHead(head + (part + more), firstLine), ParsedHead(head + part, firstLine);
            && (whole.None? <==> some.None?)
            && (whole.Some? ==> some.value.head == whole.value.head && some.value.rest + more == whole.value.rest)
  {
    hide ParsedHead, FieldsOnLines, Unread, Join, Lines;
    ParsedOnLines(ls, part + more, firstLine);
    ParsedOnLines(ls, part, firstLine);
    var n := |ls| - 1;
    Assoc(Unread(ls[1..n], ls[n]), part, more);
  }

  /** After the parser, the buffer holds what was buffered from the end of the parsed head on. */
  lemma {:induction false} HeadParsed<L>(
    d: Delimiter, s: string, p: nat, n: nat, buffered: string, firstLine: string -> Option<L>) returns (start: nat)
    requires d != Crlf && p <= n <= |s| && IsFirstEnd(d, s, p)
    requires ParsedHead(s, firstLine).Some? && ParsedHead(s[..n], firstLine).Some?
    requires buffered == ParsedHead(s[..n], firstLine).value.rest
    ensures var rest := ParsedHead(s, firstLine).value.rest;
            start == |s| - |rest| && start <= n && buffered == s[start..n] && rest == s[start..]
  {
    hide *;
    FromPart(d, s, p, n, firstLine);
    TakesHead(d, s, p, firstLine);
    start := |s| - |ParsedHead(s, firstLine).value.rest|;
    BufferedPart(buffered, s[n..], s, start, start + |buffered|);
  }

  lemma {:induction false} TailOfHead(ls: seq<string>, tail: string)
    requires IsHead(ls, Join(ls))
    ensures var n := |ls| - 1;
            var s, rest := Join(ls) + tail, Unread(ls[1..n], ls[n]) + tail;
            && |tail| <= |rest| <= |s| && rest == s[|s| - |rest|..]
            && (|rest| == |tail| <==> HaveColon(ls[1..n]))
  {
    var n := |ls| - 1;
    UnreadNothing(ls[1..n], ls[n]);
    UnreadIsTail(ls[1..n], ls[n]);
    var all, unread := Join(ls[1..n]) + ls[n] + "\n", Unread(ls[1..n], ls[n]);
    assert ls[1..] == ls[1..n] + [ls[n]];
    JoinAppend(ls[1..n], [ls[n]]);
    assert Join([ls[n]]) == ls[n] + "\n";
    assert Join(ls) == ls[0] + "\n" + all;
    assert all == all[..|all| - |unread|] + unread;
    assert Join(ls) + tail == ls[0] + "\n" + all[..|all| - |unread|] + (unread + tail);
  }

  lemma {:induction false} UnreadIsTail(ls: seq<string>, stop: string)
    ensures var all, unread := Join(ls) + stop + "\n", Unread(ls, stop);
            |unread| <= |all| && unread == all[|all| - |unread|..]
  {
    var all, unread := Join(ls) + stop + "\n", Unread(ls, stop);
    if ls == [] {
      assert all[|all|..] == "";
    } else {
      var more := Join(ls[1..]) + stop + "\n";
      assert all == ls[0] + "\n" + more;
      if ':' in ls[0] {
        UnreadIsTail(ls[1..], stop);
      }
    }
  }
}
