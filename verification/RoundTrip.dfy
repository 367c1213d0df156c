/** End to end: what one side writes is what the other side recovers. */
module RoundTrip {
  import opened Text
  import opened Delimiters
  import opened Messages
  import opened Transport
  import opened Writers
  import Chunked
  import Client
  import Events
  import Numbers
  import Server

  // ----- fields on the way

  /** Names are found on the other side as they were found on this side. */
  lemma {:induction false} LookupTrimmed(fs: seq<Field>, name: string)
    ensures Lookup(TrimmedFields(fs), name) ==
            match Lookup(fs, name) case None => None case Some(v) => Some(TrimLeft(v))
  {
    if fs != [] {
      assert TrimmedFields(fs)[1..] == TrimmedFields(fs[1..]);
      LookupTrimmed(fs[1..], name);
    }
  }

  /** A Content-Length after fields without one is found, and reads as the number written. */
  lemma {:induction false} LengthFound(before: seq<Field>, size: nat, after: seq<Field>)
    requires Lookup(before, "Content-Length").None? && size <= Numbers.ULLONG_MAX
    ensures var sent := before + [Field("Content-Length", Decimal(size))] + after;
            && Lookup(TrimmedFields(sent), "Content-Length") == Some(Decimal(size))
            && Numbers.Stoull(Decimal(size)) == Some(size)
  {
    var f := Field("Content-Length", Decimal(size));
    Assoc(before, [f], after);
    LookupSkips(before, [f] + after, "Content-Length");
    LookupTrimmed(before + [f] + after, "Content-Length");
    DigitsStay(size);
  }

  lemma {:induction false} DigitsStay(size: nat)
    requires size <= Numbers.ULLONG_MAX
    ensures TrimLeft(Decimal(size)) == Decimal(size) && Numbers.Stoull(Decimal(size)) == Some(size)
    ensures '\n' !in Decimal(size) && Decimal(size)[|Decimal(size)| - 1] != '\r'
  {
    Numbers.PrintIsPlain(size, 10);
    Numbers.ReadPrint(size, 10, Numbers.ULLONG_MAX, "");
    var s := Decimal(size);
    assert s + "" == s && s[0] in s && s[|s| - 1] in s;
  }

  // ----- requests

  /** The path that a server is asked for: the caller's, with the authority before it through a proxy; a slash
      stands for nothing. */
  function AskedPath(config: Settings, path: string, query: Option<string>): string {
    (if config.proxied then "http://" + config.host + ":" + Numbers.Print(config.port, 10) else "") +
    (if path == "" && query.None? then "/" else path)
  }

  lemma {:induction false} TargetAsked(config: Settings, path: string, query: Option<string>)
    ensures Target(config, TargetText(path, query)) == TargetText(AskedPath(config, path, query), query)
  {
    hide Numbers.Print;
    TargetIs(config, TargetText(path, query));
    assert "" + path == path && "" + "/" == "/";
    if config.proxied {
      var proxy := "http://" + config.host + ":" + Numbers.Print(config.port, 10);
      if query.Some? {
        assert proxy + (path + "?" + query.value) == proxy + path + "?" + query.value;
      }
    }
  }

  /** A request whose text carries no stray separator; `path` and `query` are what the target asked for is
      divided into. */
  predicate WellFormedRequest(
    config: Settings, verb: string, path: string, query: Option<string>, header: seq<Field>)
  {
    && ' ' !in verb && '\n' !in verb && '\n' !in config.host && AllSendable(header)
    && ' ' !in AskedPath(config, path, query) && '\n' !in AskedPath(config, path, query)
    && ' ' !in QueryOf(query) && '\n' !in QueryOf(query)
    && Divided(AskedPath(config, path, query), query)
  }

  /** The fields a server receives: the host, the caller's, and a length for content that these neither measure
      nor chunk. */
  function ReceivedFields(config: Settings, header: seq<Field>, content: string): seq<Field> {
    var port := if config.port == config.defaultPort then "" else ":" + Numbers.Print(config.port, 10);
    var added := content != "" && Lookup(header, "Content-Length").None?
                 && Lookup(header, "Transfer-Encoding") != Some("chunked");
    TrimmedFields([Field("Host", config.host + port)] + header +
                  if added then [Field("Content-Length", Numbers.Print(|content|, 10))] else [])
  }

  lemma {:induction false} FieldsReceived(config: Settings, header: seq<Field>, content: string)
    ensures ReceivedFields(config, header, content) ==
            TrimmedFields([HostField(config)] + header + LengthField(header, content))
  {
    hide Lookup, Numbers.Print;
    assert config.host + "" == config.host;
    assert config.host + (":" + Numbers.Print(config.port, 10)) == config.host + ":" + Numbers.Print(config.port, 10);
  }

  function ReceivedHead(
    config: Settings, verb: string, path: string, query: Option<string>, header: seq<Field>, content: string)
    : RequestHead
  {
    Head(RequestLine(verb, AskedPath(config, path, query), QueryOf(query), "1.1"),
         ReceivedFields(config, header, content))
  }

  lemma {:induction false} HostSendable(config: Settings)
    requires '\n' !in config.host
    ensures Sendable(HostField(config))
  {
    hide Numbers.Print;
    Numbers.PrintIsPlain(config.port, 10);
    assert ':' !in "Host" && '\n' !in "Host";
    assert '\n' !in config.host + ":" + Numbers.Print(config.port, 10);
  }

  lemma {:induction false} RequestSendable(
    config: Settings, verb: string, path: string, query: Option<string>, header: seq<Field>, content: string)
    requires WellFormedRequest(config, verb, path, query, header) && |content| <= Numbers.ULLONG_MAX
    ensures var target := TargetText(path, query);
            && ' ' !in Target(config, target)
            && Findable(CrlfCrlf, RequestFirst(config, verb, target),
                        [HostField(config)] + header + LengthField(header, content))
  {
    hide Target, HostField, LengthField, LastText, OddCr, AskedPath, Divided;
    TargetAsked(config, path, query);
    HostSendable(config);
    LengthFieldSendable(header, content);
    assert '\n' !in " HTTP/1.1" && '?' != ' ' && '?' != '\n';
  }

  lemma {:induction false} LengthFieldSendable(header: seq<Field>, content: string)
    requires |content| <= Numbers.ULLONG_MAX
    ensures AllSendable(LengthField(header, content))
  {
    hide Lookup, Decimal;
    DigitsStay(|content|);
    LengthSendable(|content|);
  }

  lemma {:induction false} RequestLineArrives(
    config: Settings, verb: string, path: string, query: Option<string>, header: seq<Field>)
    requires WellFormedRequest(config, verb, path, query, header)
    requires ' ' !in Target(config, TargetText(path, query))
    ensures ParsedRequestLine(RequestFirst(config, verb, TargetText(path, query)) + "\r") ==
            Some(RequestLine(verb, AskedPath(config, path, query), QueryOf(query), "1.1"))
  {
    hide Target, AskedPath, Divided, ParsedRequestLine;
    TargetAsked(config, path, query);
    var target := Target(config, TargetText(path, query));
    assert "HTTP" + "/" + ("1.1" + ['\r']) == "HTTP/1.1\r" && '/' !in "HTTP";
    assert verb + " " + target + " HTTP/1.1" + "\r" == verb + " " + (target + " " + "HTTP/1.1\r");
    RequestLineMeans(verb, AskedPath(config, path, query), query, "HTTP", "1.1", '\r');
  }

  /** The head of a request is found where the content begins, and parsed for what was sent; and so it is when the
      content is cut short. */
  lemma {:induction false} RequestHeadArrives(
    config: Settings, verb: string, path: string, query: Option<string>, header: seq<Field>, content: string, k: nat)
    requires WellFormedRequest(config, verb, path, query, header)
    requires k <= |content| <= Numbers.ULLONG_MAX
    ensures var s := RequestText(config, verb, TargetText(path, query), header, content);
            var p := |s| - |content|;
            && 0 <= p && IsFirstEnd(CrlfCrlf, s[..p + k], p)
            && ParsedRequest(s[..p + k]) ==
               Some(Parsed(ReceivedHead(config, verb, path, query, header, content), content[..k]))
            && s[..p + |content|] == s && content[..|content|] == content
  {
    hide Target, TargetText, HostField, LengthField, WellFormedRequest, RequestFirst, MessageText, ParsedHead,
      ParsedRequestLine, IsFirstEnd, Findable, TrimmedFields, ReceivedFields, QueryOf, AskedPath;
    RequestSendable(config, verb, path, query, header, content);
    RequestLineArrives(config, verb, path, query, header);
    FieldsReceived(config, header, content);
    var fs := [HostField(config)] + header + LengthField(header, content);
    var first := RequestFirst(config, verb, TargetText(path, query));
    CutContent(first, fs, content, k);
    MessageArrives(CrlfCrlf, first, fs, content[..k], ParsedRequestLine);
  }

  lemma {:induction false} CutContent(first: string, fs: seq<Field>, content: string, k: nat)
    requires k <= |content|
    ensures var s := MessageText(first, fs, content);
            var p := |s| - |content|;
            0 <= p && s[..p + k] == MessageText(first, fs, content[..k]) && |s[..p + k]| - k == p
  {
    var head := first + "\r\n" + FieldsText(fs) + "\r\n";
    assert (head + content)[..|head| + k] == head + content[..k];
  }

  /** A head is found where the content begins, and parsed for its first line and its fields. */
  lemma {:induction false} MessageArrives<L>(
    d: Delimiter, first: string, fs: seq<Field>, content: string, firstLine: string -> Option<L>)
    requires d != Crlf && Findable(d, first, fs)
    ensures var s := MessageText(first, fs, content);
            && |content| <= |s| && IsFirstEnd(d, s, |s| - |content|)
            && ParsedHead(s, firstLine) ==
               match firstLine(first + "\r")
               case None => None
               case Some(line) => Some(Parsed(Head(line, TrimmedFields(fs)), content))
  {
    hide MessageText, ParsedHead, IsFirstEnd, FieldsOnLines, Unread, IsHead, Join, FieldLines, TrimmedFields, OddCr;
    MessageHead(d, first, fs, content);
    ParsedOnLines(MessageLines(first, fs) + ["\r"], content, firstLine);
    assert "" + content == content;
  }

  lemma {:induction false} HostIsNoLength(config: Settings, header: seq<Field>, more: seq<Field>, name: string)
    requires name == "Content-Length" || name == "Transfer-Encoding"
    ensures Lookup([HostField(config)] + header + more, name) == Lookup(header + more, name)
  {
    assert Lookup([HostField(config)], name).None? by {
      assert |"Host"| == 4 && |"Content-Length"| == 14 && |"Transfer-Encoding"| == 17;
    }
    assert [HostField(config)] + header + more == [HostField(config)] + (header + more);
    LookupSkips([HostField(config)], header + more, name);
  }

  lemma {:induction false} ReceivedLookup(config: Settings, header: seq<Field>, content: string, name: string)
    requires name == "Content-Length" || name == "Transfer-Encoding"
    ensures Lookup(ReceivedFields(config, header, content), name) ==
            Lookup(TrimmedFields(header + LengthField(header, content)), name)
  {
    hide HostField, LengthField, ReceivedFields;
    FieldsReceived(config, header, content);
    HostIsNoLength(config, header, LengthField(header, content), name);
    LookupTrimmed([HostField(config)] + header + LengthField(header, content), name);
    LookupTrimmed(header + LengthField(header, content), name);
  }

  /** For every request with content of a known length, and for every way the bytes arrive, the server recovers
      method, path, query, version, fields and content; and if the stream ends anywhere before that, it reports
      the end of the stream. */
  lemma {:induction false} RequestRoundTrip(
    config: Settings, verb: string, path: string, query: Option<string>, header: seq<Field>, content: string, k: nat)
    requires WellFormedRequest(config, verb, path, query, header) && |content| <= Numbers.ULLONG_MAX
    requires Lookup(header, "Content-Length").None?
    requires Lookup(TrimmedFields(header), "Transfer-Encoding") != Some("chunked")
    ensures var s := RequestText(config, verb, TargetText(path, query), header, content);
            var head := ReceivedHead(config, verb, path, query, header, content);
            && Server.AlwaysReceived(s, Server.Delivered(Server.Request(head, content)))
            && (k < |s| ==> Server.AlwaysReceived(s[..k], Server.Failed(Chunked.EndOfStream)))
  {
    hide *;
    RequestLengths(config, header, content);
    var s, head := RequestText(config, verb, TargetText(path, query), header, content),
                   ReceivedHead(config, verb, path, query, header, content);
    var p := |s| - |content|;
    FieldsOfHead(config, verb, path, query, header, content);
    RequestHeadArrives(config, verb, path, query, header, content, |content|);
    Server.ContentArrives(s, p, head, content);
    if k < p {
      NoHeadYet(CrlfCrlf, s, p, k);
      Server.HeadMissing(s[..k]);
    } else if k < |s| {
      RequestHeadArrives(config, verb, path, query, header, content, k - p);
      assert p + (k - p) == k && |content[..k - p]| == k - p && content != "";
      Server.ContentArrives(s[..k], p, head, content[..k - p]);
    }
  }

  lemma {:induction false} NoHeadYet(d: Delimiter, s: string, p: nat, k: nat)
    requires IsFirstEnd(d, s, p) && k < p
    ensures k <= |s| && FirstEnd(d, s[..k]).None?
  {
    hide EndsAt;
    Cut(s, k, k);
    forall i: nat | i <= k ensures !EndsAt(d, s[..k], i) {
      EndsAtPrefix(d, s[..k], s[k..], i);
    }
    NoFirstEnd(d, s[..k]);
  }

  lemma {:induction false} FieldsOfHead(
    config: Settings, verb: string, path: string, query: Option<string>, header: seq<Field>, content: string)
    ensures ReceivedHead(config, verb, path, query, header, content).fields == ReceivedFields(config, header, content)
  {
  }

  /** What the server finds out about the length of the content. */
  lemma {:induction false} RequestLengths(config: Settings, header: seq<Field>, content: string)
    requires |content| <= Numbers.ULLONG_MAX && Lookup(header, "Content-Length").None?
    ensures var fs := ReceivedFields(config, header, content);
            var length := Lookup(fs, "Content-Length");
            var chunked := Lookup(TrimmedFields(header), "Transfer-Encoding");
            if content != "" && Lookup(header, "Transfer-Encoding") != Some("chunked") then
              length.Some? && Numbers.Stoull(length.value) == Some(|content|)
            else length.None? && Lookup(fs, "Transfer-Encoding") == chunked
    ensures Lookup(header, "Transfer-Encoding") == Some("chunked") ==>
              Lookup(TrimmedFields(header), "Transfer-Encoding") == Some("chunked")
  {
    hide HostField, Decimal, Lookup, Numbers.Stoull, TrimmedFields, ReceivedFields;
    ReceivedLookup(config, header, content, "Content-Length");
    ReceivedLookup(config, header, content, "Transfer-Encoding");
    LookupTrimmed(header, "Content-Length");
    LookupTrimmed(header, "Transfer-Encoding");
    assert TrimLeft("chunked") == "chunked";
    LengthFound(header, |content|, []);
    assert header + [] == header;
    assert header + [Field("Content-Length", Decimal(|content|))] + [] ==
           header + [Field("Content-Length", Decimal(|content|))];
  }

  /** A request whose caller chunks the content: the server recovers the data of the chunks exactly when every
      chunk is of a size that can be counted, and if the stream ends before the last chunk is complete it reports
      that. */
  lemma {:induction false} ChunkedRequestRoundTrip(
    config: Settings, verb: string, path: string, query: Option<string>, header: seq<Field>,
    chunks: seq<Chunked.Chunk>, last: string, k: nat)
    requires WellFormedRequest(config, verb, path, query, header)
    requires Lookup(header, "Content-Length").None? && Lookup(header, "Transfer-Encoding") == Some("chunked")
    requires (forall c :: c in chunks ==> Chunked.ValidChunk(c)) && '\n' !in last && Numbers.Stoul16(last) == Some(0)
    requires |Chunked.Encoded(chunks, last)| <= Numbers.ULLONG_MAX
    ensures var content := Chunked.Encoded(chunks, last);
            var s := RequestText(config, verb, TargetText(path, query), header, content);
            var head := ReceivedHead(config, verb, path, query, header, content);
            if forall c :: c in chunks ==> Chunked.Fits(c) then
              && Server.AlwaysReceived(s, Server.Delivered(Server.Request(head, Chunked.Data(chunks))))
              && (k < |s| ==> Server.AlwaysReceived(s[..k], Server.Failed(Chunked.EndOfStream)))
            else Server.AlwaysReceived(s, Server.Failed(Chunked.Undefined))
  {
    hide *;
    var content := Chunked.Encoded(chunks, last);
    RequestLengths(config, header, content);
    var s, head := RequestText(config, verb, TargetText(path, query), header, content),
                   ReceivedHead(config, verb, path, query, header, content);
    var p := |s| - |content|;
    FieldsOfHead(config, verb, path, query, header, content);
    RequestHeadArrives(config, verb, path, query, header, content, |content|);
    Server.ContentArrives(s, p, head, content);
    Chunked.DecodeEncoded(chunks, last, "");
    assert content + "" == content;
    if k < p {
      NoHeadYet(CrlfCrlf, s, p, k);
      Server.HeadMissing(s[..k]);
    } else if k < |s| && forall c :: c in chunks ==> Chunked.Fits(c) {
      RequestHeadArrives(config, verb, path, query, header, content, k - p);
      assert p + (k - p) == k && |content[..k - p]| == k - p;
      Server.ContentArrives(s[..k], p, head, content[..k - p]);
      Chunked.CutShort(chunks, last, k - p);
    }
  }

  /** The client writes, the network delivers, the server reads. */
  method RequestOverNetwork(
    config: Settings, verb: string, path: string, query: Option<string>, header: seq<Field>, content: string)
    returns (outcome: Server.Outcome)
    requires WellFormedRequest(config, verb, path, query, header) && |content| <= Numbers.ULLONG_MAX
    requires Lookup(header, "Content-Length").None?
    requires Lookup(TrimmedFields(header), "Transfer-Encoding") != Some("chunked")
    ensures outcome ==
            Server.Delivered(Server.Request(ReceivedHead(config, verb, path, query, header, content), content))
  {
    hide WellFormedRequest, Lookup, TrimmedFields, ReceivedHead, Server.Received, IsFirstEnd, RequestText;
    var text := Writers.Request(config, verb, TargetText(path, query), header, content);
    var socket := new Socket(text);
    var streambuf := new Streambuf("");
    TotalOfNew(socket, streambuf);
    ghost var n;
    outcome, n := Server.Read(socket, streambuf);
    RequestRoundTrip(config, verb, path, query, header, content, 0);
  }

  lemma {:induction false} TotalOfNew(socket: Socket, sb: Streambuf)
    requires sb.data == ""
    ensures Total(socket, sb) == socket.incoming
  {
  }

  // ----- responses

  lemma {:induction false} StatusLineParses(status: string)
    ensures ParsedStatusLine("HTTP/1.1 " + status + "\r") == Some(StatusLine("1.1", status))
  {
    hide ParsedStatusLine;
    VersionedLine("1.1", status);
    assert "HTTP/" + "1.1" + " " == "HTTP/1.1 ";
  }

  lemma {:induction false} VersionedLine(version: string, status: string)
    requires ' ' !in version
    ensures ParsedStatusLine("HTTP/" + version + " " + status + "\r") == Some(StatusLine(version, status))
  {
    hide ParsedStatusLine;
    assert |"HTTP/"| == 5 && ' ' !in "HTTP/";
    StatusLineMeans("HTTP/", version, status, "\r");
  }

  function ResponseFields(header: seq<Field>, content: string, close: bool): seq<Field> {
    header + ResponseLength(header, |content|, close)
  }

  function ArrivedHead(status: string, header: seq<Field>, content: string, close: bool): ResponseHead {
    Head(StatusLine("1.1", status), TrimmedFields(ResponseFields(header, content, close)))
  }

  /** A response whose text carries no stray separator, and whose last line before the blank one has no odd
      number of CRs at its end. */
  predicate WellFormedResponse(status: string, header: seq<Field>, content: string, close: bool) {
    && '\n' !in status && AllSendable(header) && |content| <= Numbers.ULLONG_MAX
    && !OddCr(LastText("HTTP/1.1 " + status, ResponseFields(header, content, close)))
  }

  lemma {:induction false} ResponseSendable(status: string, header: seq<Field>, content: string, close: bool)
    requires WellFormedResponse(status, header, content, close)
    ensures Findable(HeaderEnd, "HTTP/1.1 " + status, ResponseFields(header, content, close))
  {
    hide Measured, Decimal, OddCr, LastText;
    DigitsStay(|content|);
    FirstWithoutLf(status);
    LengthSendable(|content|);
  }

  lemma {:induction false} FirstWithoutLf(status: string)
    requires '\n' !in status
    ensures '\n' !in "HTTP/1.1 " + status
  {
    assert '\n' !in "HTTP/1.1 ";
  }

  lemma {:induction false} LengthSendable(size: nat)
    requires '\n' !in Decimal(size)
    ensures Sendable(Field("Content-Length", Decimal(size)))
  {
    assert ':' !in "Content-Length" && '\n' !in "Content-Length";
  }

  /** The head of a response is found where the content begins, and so it is when the content is cut short. */
  lemma {:induction false} ResponseHeadArrives(
    status: string, header: seq<Field>, content: string, close: bool, k: nat)
    requires WellFormedResponse(status, header, content, close) && k <= |content|
    ensures var s := ResponseText(status, header, content, close);
            var p := |s| - |content|;
            && 0 <= p && IsFirstEnd(HeaderEnd, s[..p + k], p)
            && ParsedResponse(s[..p + k]) == Some(Parsed(ArrivedHead(status, header, content, close), content[..k]))
            && s[..p + |content|] == s && content[..|content|] == content
  {
    hide WellFormedResponse, ResponseLength, MessageText, ParsedHead, ParsedStatusLine, IsFirstEnd, Findable,
      TrimmedFields;
    ResponseSendable(status, header, content, close);
    StatusLineParses(status);
    var first, fs := "HTTP/1.1 " + status, ResponseFields(header, content, close);
    CutContent(first, fs, content, k);
    MessageArrives(HeaderEnd, first, fs, content[..k], ParsedStatusLine);
  }

  /** Content of a length that the head tells, or chunks, cut short. */
  lemma {:induction false} ResponseCutShort(status: string, header: seq<Field>, content: string, close: bool, k: nat)
    requires WellFormedResponse(status, header, content, close)
    requires k < |ResponseText(status, header, content, close)|
    requires var fs := ArrivedHead(status, header, content, close).fields;
             match Lookup(fs, "Content-Length")
             case Some(length) => Numbers.Stoull(length) == Some(|content|)
             case None =>
               && Lookup(fs, "Transfer-Encoding") == Some("chunked")
               && forall i :: 0 <= i < |content| ==> Chunked.DecodedChunks(content[..i]).status == Chunked.EndOfStream
    ensures Client.AlwaysReceived(ResponseText(status, header, content, close)[..k], Client.Failed(Chunked.EndOfStream))
  {
    hide *;
    var s, head := ResponseText(status, header, content, close), ArrivedHead(status, header, content, close);
    var p := |s| - |content|;
    ResponseHeadArrives(status, header, content, close, |content|);
    if k < p {
      NoHeadYet(HeaderEnd, s, p, k);
      Client.HeadMissing(s[..k]);
    } else {
      ResponseHeadArrives(status, header, content, close, k - p);
      assert p + (k - p) == k && |content[..k - p]| == k - p < |content|;
      Client.ContentArrives(s[..k], p, head, content[..k - p]);
    }
  }

  /** A response whose last field is a Content-Length is well formed. */
  lemma {:induction false} LengthEndsWell(status: string, header: seq<Field>, content: string, close: bool)
    requires '\n' !in status && AllSendable(header) && |content| <= Numbers.ULLONG_MAX
    requires var fs := ResponseFields(header, content, close);
             fs != [] && fs[|fs| - 1] == Field("Content-Length", Decimal(|content|))
    ensures WellFormedResponse(status, header, content, close)
  {
    hide Measured, Decimal, OddCr;
    DigitsStay(|content|);
    EndOfText("Content-Length" + ": ", Decimal(|content|));
  }

  lemma {:induction false} NoLengthField(header: seq<Field>)
    requires !Measured(header)
    ensures Lookup(header, "Content-Length").None?
  {
    hide Measured, CaseInsensitiveEqual;
    forall f | f in header ensures !CaseInsensitiveEqual(f.name, "Content-Length") {
      Unmeasured(header, f);
      SameNames(f.name);
    }
  }

  lemma {:induction false} ChunkedIsMeasured(header: seq<Field>)
    requires Lookup(header, "Transfer-Encoding") == Some("chunked")
    ensures Measured(header)
  {
    hide CaseInsensitiveEqual;
    var f :| f in header && CaseInsensitiveEqual(f.name, "Transfer-Encoding") && f.value == "chunked";
    SameNames(f.name);
    assert CaseInsensitiveEqual("chunked", "chunked") by {
      SameSelf("chunked");
    }
    assert Measures(f);
  }

  lemma {:induction false} SameSelf(s: string)
    ensures CaseInsensitiveEqual(s, s)
  {
  }

  lemma {:induction false} Unmeasured(header: seq<Field>, f: Field)
    requires !Measured(header) && f in header
    ensures !CaseInsensitiveEqual(f.name, "content-length")
  {
    hide CaseInsensitiveEqual;
    assert !Measures(f);
  }

  lemma {:induction false} EndOfText(a: string, b: string)
    requires b != "" && b[|b| - 1] != '\r'
    ensures !OddCr(a + b)
  {
  }

  /** For every status, fields that neither tell the length of the content nor that it is chunked, and content,
      and for every way the bytes arrive, the client recovers version, status, fields and content; and if the
      stream ends anywhere before that, it reports the end of the stream. */
  lemma {:induction false} ResponseRoundTrip(status: string, header: seq<Field>, content: string, k: nat)
    requires '\n' !in status && AllSendable(header) && |content| <= Numbers.ULLONG_MAX && NoLength(header)
    ensures var s := ResponseText(status, header, content, false);
            var fs := header + [Field("Content-Length", Numbers.Print(|content|, 10))];
            var response := Client.Response(Head(StatusLine("1.1", status), TrimmedFields(fs)), content);
            && Client.AlwaysReceived(s, Client.Completed(response))
            && (k < |s| ==> Client.AlwaysReceived(s[..k], Client.Failed(Chunked.EndOfStream)))
  {
    hide *;
    NoLengthIs(header);
    LengthAdded(status, header, content);
    ArrivedLength(header, content);
    LengthIsLast(header, content);
    LengthEndsWell(status, header, content, false);
    ResponseHeadArrives(status, header, content, false, |content|);
    FieldsArrived(status, header, content, false);
    var s := ResponseText(status, header, content, false);
    Client.ContentArrives(s, |s| - |content|, ArrivedHead(status, header, content, false), content);
    if k < |s| {
      ResponseCutShort(status, header, content, false, k);
    }
  }

  lemma {:induction false} LengthAdded(status: string, header: seq<Field>, content: string)
    requires !Measured(header)
    ensures var fs := header + [Field("Content-Length", Numbers.Print(|content|, 10))];
            ArrivedHead(status, header, content, false) == Head(StatusLine("1.1", status), TrimmedFields(fs))
  {
  }

  lemma {:induction false} LengthIsLast(header: seq<Field>, content: string)
    requires !Measured(header)
    ensures var fs := ResponseFields(header, content, false);
            fs != [] && fs[|fs| - 1] == Field("Content-Length", Decimal(|content|))
  {
  }

  lemma {:induction false} FieldsArrived(status: string, header: seq<Field>, content: string, close: bool)
    ensures var head := ArrivedHead(status, header, content, close);
            && head.fields == TrimmedFields(ResponseFields(header, content, close)) && head.line.version == "1.1"
            && (Measured(header) || close ==> head == Head(StatusLine("1.1", status), TrimmedFields(header)))
  {
    assert header + [] == header;
  }

  lemma {:induction false} ArrivedLength(header: seq<Field>, content: string)
    requires |content| <= Numbers.ULLONG_MAX && !Measured(header)
    ensures var length := Lookup(TrimmedFields(ResponseFields(header, content, false)), "Content-Length");
            length.Some? && Numbers.Stoull(length.value) == Some(|content|)
  {
    hide Lookup, TrimmedFields, Decimal, Numbers.Stoull, Measured;
    NoLengthField(header);
    LengthFound(header, |content|, []);
    assert header + [Field("Content-Length", Decimal(|content|))] + [] ==
           header + [Field("Content-Length", Decimal(|content|))];
  }

  /** A response whose caller tells the length of the content, whether the connection is closed or not. */
  lemma {:induction false} MeasuredResponseRoundTrip(
    status: string, header: seq<Field>, content: string, close: bool, k: nat)
    requires WellFormedResponse(status, header, content, close)
    requires var length := Lookup(TrimmedFields(header), "Content-Length");
             length.Some? && Numbers.Stoull(length.value) == Some(|content|)
    ensures var s := ResponseText(status, header, content, close);
            var head := Head(StatusLine("1.1", status), TrimmedFields(header));
            && Client.AlwaysReceived(s, Client.Completed(Client.Response(head, content)))
            && (k < |s| ==> Client.AlwaysReceived(s[..k], Client.Failed(Chunked.EndOfStream)))
  {
    hide *;
    LengthIsMeasured(header);
    ResponseHeadArrives(status, header, content, close, |content|);
    FieldsArrived(status, header, content, close);
    var s := ResponseText(status, header, content, close);
    Client.ContentArrives(s, |s| - |content|, ArrivedHead(status, header, content, close), content);
    if k < |s| {
      ResponseCutShort(status, header, content, close, k);
    }
  }

  lemma {:induction false} LengthIsMeasured(header: seq<Field>)
    requires Lookup(TrimmedFields(header), "Content-Length").Some?
    ensures Measured(header)
  {
    hide TrimmedFields, CaseInsensitiveEqual;
    LookupTrimmed(header, "Content-Length");
    var f :| f in header && CaseInsensitiveEqual(f.name, "Content-Length");
    SameNames(f.name);
    assert Measures(f);
  }

  /** A response whose caller chunks the content. */
  lemma {:induction false} ChunkedResponseRoundTrip(
    status: string, header: seq<Field>, chunks: seq<Chunked.Chunk>, last: string, k: nat)
    requires Lookup(header, "Content-Length").None? && Lookup(header, "Transfer-Encoding") == Some("chunked")
    requires (forall c :: c in chunks ==> Chunked.ValidChunk(c)) && '\n' !in last && Numbers.Stoul16(last) == Some(0)
    requires WellFormedResponse(status, header, Chunked.Encoded(chunks, last), false)
    ensures var s := ResponseText(status, header, Chunked.Encoded(chunks, last), false);
            var head := Head(StatusLine("1.1", status), TrimmedFields(header));
            if forall c :: c in chunks ==> Chunked.Fits(c) then
              && Client.AlwaysReceived(s, Client.Completed(Client.Response(head, Chunked.Data(chunks))))
              && (k < |s| ==> Client.AlwaysReceived(s[..k], Client.Failed(Chunked.EndOfStream)))
            else Client.AlwaysReceived(s, Client.Failed(Chunked.Undefined))
  {
    hide *;
    var content := Chunked.Encoded(chunks, last);
    ChunkedArrives(status, header, content);
    ResponseHeadArrives(status, header, content, false, |content|);
    var s := ResponseText(status, header, content, false);
    Client.ContentArrives(s, |s| - |content|, ArrivedHead(status, header, content, false), content);
    Chunked.DecodeEncoded(chunks, last, "");
    assert content + "" == content;
    if k < |s| && forall c :: c in chunks ==> Chunked.Fits(c) {
      forall i | 0 <= i < |content| ensures Chunked.DecodedChunks(content[..i]).status == Chunked.EndOfStream {
        Chunked.CutShort(chunks, last, i);
      }
      ResponseCutShort(status, header, content, false, k);
    }
  }

  lemma {:induction false} ChunkedArrives(status: string, header: seq<Field>, content: string)
    requires Lookup(header, "Content-Length").None? && Lookup(header, "Transfer-Encoding") == Some("chunked")
    ensures var head := ArrivedHead(status, header, content, false);
            && head == Head(StatusLine("1.1", status), TrimmedFields(header))
            && Lookup(head.fields, "Content-Length").None?
            && Lookup(head.fields, "Transfer-Encoding") == Some("chunked")
  {
    hide Lookup, TrimmedFields, Measured, ArrivedHead;
    ChunkedIsMeasured(header);
    LookupTrimmed(header, "Content-Length");
    LookupTrimmed(header, "Transfer-Encoding");
    assert TrimLeft("chunked") == "chunked";
    FieldsArrived(status, header, content, false);
  }

  /** A response of any version, without a length and not chunked, whose body runs to the end of the stream:
      because the version is below 1.1, such as 1.0, or because of a field "Session: close". */
  lemma {:induction false} BodyUntilClose(version: string, status: string, fs: seq<Field>, content: string)
    requires ' ' !in version && '\n' !in version && Findable(HeaderEnd, "HTTP/" + version + " " + status, fs)
    requires var sent := TrimmedFields(fs);
             && Lookup(sent, "Content-Length").None? && Lookup(sent, "Transfer-Encoding") != Some("chunked")
             && (version == "1.0" || version == "0.9" || Lookup(sent, "Session") == Some("close"))
    ensures Client.AlwaysReceived(MessageText("HTTP/" + version + " " + status, fs, content),
              Client.Completed(Client.Response(Head(StatusLine(version, status), TrimmedFields(fs)), content)))
  {
    hide *;
    var first, head := "HTTP/" + version + " " + status, Head(StatusLine(version, status), TrimmedFields(fs));
    ReadsToEnd(head);
    VersionedLine(version, status);
    MessageArrives(HeaderEnd, first, fs, content, ParsedStatusLine);
    var s := MessageText(first, fs, content);
    ParsedAsResponse(s);
    Client.ContentArrives(s, |s| - |content|, head, content);
  }

  lemma {:induction false} ReadsToEnd(head: ResponseHead)
    requires head.line.version == "1.0" || head.line.version == "0.9" || Lookup(head.fields, "Session") == Some("close")
    ensures Client.UntilClose(head)
  {
    hide Client.Less, Lookup;
    OldVersions();
  }

  lemma {:induction false} ParsedAsResponse(s: string)
    ensures ParsedResponse(s) == ParsedHead(s, ParsedStatusLine)
  {
  }

  lemma {:induction false} OldVersions()
    ensures Client.Less("1.0", "1.1") && Client.Less("0.9", "1.1") && !Client.Less("1.1", "1.1")
  {
    assert "1.0"[..2] == "1.1"[..2] && "0.9"[..0] == "1.1"[..0];
    Client.LessIs("1.0", "1.1", 2);
    Client.LessIs("0.9", "1.1", 0);
    Client.LessIs("1.1", "1.1", 3);
  }

  /** With `close_connection_after_response` no length is sent, and the client does not read on to the
      end of the stream, because it looks for a field called "Session": it is sure to recover the content
      exactly when there is none. */
  lemma {:induction false} CloseLosesContent(status: string, header: seq<Field>, content: string)
    requires WellFormedResponse(status, header, content, true)
    requires var fs := TrimmedFields(header);
             && Lookup(fs, "Content-Length").None? && Lookup(fs, "Transfer-Encoding") != Some("chunked")
             && Lookup(fs, "Session") != Some("close") && Lookup(fs, "Content-Type") != Some("text/event-stream")
    ensures var head := Head(StatusLine("1.1", status), TrimmedFields(header));
            var s := ResponseText(status, header, content, true);
            Client.AlwaysReceived(s, Client.Completed(Client.Response(head, content))) <==> content == ""
  {
    hide *;
    FieldsDecide(status, header, content);
    ResponseHeadArrives(status, header, content, true, |content|);
    var s := ResponseText(status, header, content, true);
    Client.ContentArrives(s, |s| - |content|, ArrivedHead(status, header, content, true), content);
  }

  /** The fields decide how the client reads a response without a length. */
  lemma {:induction false} FieldsDecide(status: string, header: seq<Field>, content: string)
    ensures var head, fs := ArrivedHead(status, header, content, true), TrimmedFields(header);
            && Lookup(head.fields, "Content-Length") == Lookup(fs, "Content-Length")
            && head == Head(StatusLine("1.1", status), fs)
            && (Client.UntilClose(head) <==> Lookup(fs, "Session") == Some("close"))
  {
    hide Lookup, TrimmedFields, ArrivedHead, Client.Less;
    FieldsArrived(status, header, content, true);
    OldVersions();
  }

  /** An event stream, which a server opens with that flag: the client is told of every event up to the last
      whose blank line completes a header end, in order and with the text of its lines, however the bytes arrive. */
  lemma {:induction false} EventStreamRoundTrip(status: string, header: seq<Field>, events: seq<Events.Sent>)
    requires WellFormedResponse(status, header, Events.Written(events), true)
    requires var fs := TrimmedFields(header);
             && Lookup(fs, "Content-Length").None? && Lookup(fs, "Transfer-Encoding") != Some("chunked")
             && Lookup(fs, "Session") != Some("close") && Lookup(fs, "Content-Type") == Some("text/event-stream")
    requires Events.ValidEvents(events)
    ensures var head := Head(StatusLine("1.1", status), TrimmedFields(header));
            Client.AlwaysReceived(ResponseText(status, header, Events.Written(events), true),
              Client.Streamed(head, Events.TextsOf(events[..Events.Reported(events)])))
  {
    hide *;
    var content := Events.Written(events);
    FieldsDecide(status, header, content);
    ResponseHeadArrives(status, header, content, true, |content|);
    var s := ResponseText(status, header, content, true);
    Client.ContentArrives(s, |s| - |content|, ArrivedHead(status, header, content, true), content);
    Events.EventsRoundTrip(events);
  }

  /** The server writes, the network delivers, the client reads. */
  method ResponseOverNetwork(status: string, header: seq<Field>, content: string) returns (outcome: Client.Outcome)
    requires '\n' !in status && AllSendable(header) && |content| <= Numbers.ULLONG_MAX && NoLength(header)
    ensures var fs := header + [Field("Content-Length", Numbers.Print(|content|, 10))];
            outcome == Client.Completed(Client.Response(Head(StatusLine("1.1", status), TrimmedFields(fs)), content))
  {
    hide AllSendable, NoLength, TrimmedFields, Numbers.Print, Client.Received, IsFirstEnd, ResponseText;
    var text := Writers.WriteResponse(status, content, header, false);
    var socket := new Socket(text);
    var streambuf := new Streambuf("");
    TotalOfNew(socket, streambuf);
    ghost var n;
    outcome, n := Client.Read(socket, streambuf);
    ResponseRoundTrip(status, header, content, 0);
  }
}
