/** How the server reads a request from a connection. */
module Server {
  import opened Text
  import opened Delimiters
  import opened Transport
  import opened Messages
  import Chunked
  import Numbers

  datatype Request = Request(head: RequestHead, body: string)

  /** The request is handed to `find_resource`, or `on_error` is called. */
  datatype Outcome = Delivered(request: Request) | Failed(status: Chunked.Status)

  /** One-shot reading of everything the peer sends, `s`, whose head ends at `p`. The body of a
      request that is not chunked is whatever was buffered when the head was found, up to `n`, or, when
      that is not enough, up to its Content-Length. */
  function Received(s: string, p: nat, n: nat): Outcome
    requires p <= n <= |s| && IsFirstEnd(CrlfCrlf, s, p)
  {
    match ParsedRequest(s)
    case None => Failed(Chunked.ProtocolError)
    case Some(Parsed(head, rest)) =>
      TakesHead(CrlfCrlf, s, p, ParsedRequestLine);
      var start := |s| - |rest|;
      match Lookup(head.fields, "Content-Length")
      case Some(length) =>
        (match Numbers.Stoull(length)
         case None => Failed(Chunked.ProtocolError)
         case Some(contentLength) =>
           if |s| < p + contentLength then Failed(Chunked.EndOfStream)
           else Delivered(Request(head, s[start..Max(n, p + contentLength)])))
      case None =>
        if Lookup(head.fields, "Transfer-Encoding") == Some("chunked") then
          var d := Chunked.DecodedChunks(rest);
          if d.status == Chunked.Done then Delivered(Request(head, d.data)) else Failed(d.status)
        else Delivered(Request(head, s[start..n]))
  }

  /** `read`: however the bytes arrive, the outcome is that of the one-shot reading, where `n` is the
      number of bytes that were buffered when the head was complete. */
  method Read(socket: Socket, content: Streambuf) returns (outcome: Outcome, ghost n: nat)
    modifies socket, content
    ensures var s := old(Total(socket, content));
            match FirstEnd(CrlfCrlf, s)
            case None => outcome == Failed(Chunked.EndOfStream)
            case Some(p) => p <= n <= |s| && outcome == Received(s, p, n)
  {
    hide EndsAt, ParsedHead, Numbers.Stoull, Lookup, Chunked.DecodedChunks;
    ghost var s := Total(socket, content);
    var ok, bytesTransferred := ReadUntil(socket, content, CrlfCrlf);
    n := |content.data|;
    if !ok {
      return Failed(Chunked.EndOfStream), n;
    }
    var numAdditionalBytes := |content.data| - bytesTransferred;
    assert content.data == s[..n] && socket.incoming == s[n..];
    FromPart(CrlfCrlf, s, bytesTransferred, n, ParsedRequestLine);
    var head := ParseRequest(content);
    if head.None? {
      return Failed(Chunked.ProtocolError), n;
    }
    ghost var start := HeadParsed(CrlfCrlf, s, bytesTransferred, n, content.data, ParsedRequestLine);
    var length := Lookup(head.value.fields, "Content-Length");
    if length.Some? {
      outcome := ReadLength(socket, content, head.value, length.value, numAdditionalBytes, s, start, n);
    } else if Lookup(head.value.fields, "Transfer-Encoding") == Some("chunked") {
      // Copy leftover bytes
      var leftover := content.Take(|content.data|);
      var chunks := new Streambuf(leftover);
      assert Total(socket, chunks) == s[start..];
      var status := Chunked.ReadChunkedTransferEncoded(socket, content, chunks);
      outcome := if status == Chunked.Done then Delivered(Request(head.value, content.data)) else Failed(status);
    } else {
      outcome := Delivered(Request(head.value, content.data));
    }
  }

  /** The rest of `read` for a request with a Content-Length. */
  method ReadLength(socket: Socket, content: Streambuf, head: RequestHead, length: string,
                    numAdditionalBytes: nat, ghost s: string, ghost start: nat, ghost n: nat)
    returns (outcome: Outcome)
    requires start <= n <= |s| && numAdditionalBytes <= n
    requires content.data == s[start..n] && socket.incoming == s[n..]
    modifies socket, content
    ensures var p := n - numAdditionalBytes;
            match Numbers.Stoull(length)
            case None => outcome == Failed(Chunked.ProtocolError)
            case Some(contentLength) =>
              if |s| < p + contentLength then outcome == Failed(Chunked.EndOfStream)
              else
                && start <= Max(n, p + contentLength)
                && outcome == Delivered(Request(head, s[start..Max(n, p + contentLength)]))
  {
    hide Numbers.Stoull;
    assert Total(socket, content) == s[start..];
    var contentLength := Numbers.Stoull(length);
    if contentLength.None? {
      return Failed(Chunked.ProtocolError);
    }
    if contentLength.value > numAdditionalBytes {
      var ok := ReadExactly(socket, content, contentLength.value - numAdditionalBytes);
      if !ok {
        return Failed(Chunked.EndOfStream);
      }
      BufferedPart(content.data, socket.incoming, s, start, n + contentLength.value - numAdditionalBytes);
    }
    outcome := Delivered(Request(head, content.data));
  }

  // ----- when the way the bytes arrive makes no difference

  /** The stream holds nothing after the message: a caller that does not pipeline meets this. */
  predicate OneMessage(s: string, p: nat)
    requires IsFirstEnd(CrlfCrlf, s, p)
  {
    match ParsedRequest(s)
    case None => true
    case Some(Parsed(head, _)) =>
      match Lookup(head.fields, "Content-Length")
      case Some(length) =>
        Numbers.Stoull(length).None? || |s| <= p + Numbers.Stoull(length).value
      case None =>
        Lookup(head.fields, "Transfer-Encoding") == Some("chunked") || |s| == p
  }

  /** The outcome is the same for every fragmentation exactly when nothing follows the message; a
      chunked body never depends on it. */
  lemma {:induction false} FragmentationMatters(s: string, p: nat)
    requires IsFirstEnd(CrlfCrlf, s, p)
    ensures (forall n | p <= n <= |s| :: Received(s, p, n) == Received(s, p, |s|)) <==> OneMessage(s, p)
  {
    hide EndsAt, ParsedHead, Numbers.Stoull, Lookup, Chunked.DecodedChunks;
    var first, last := Received(s, p, p), Received(s, p, |s|);
    if !OneMessage(s, p) {
      TakesHead(CrlfCrlf, s, p, ParsedRequestLine);
      assert |first.request.body| < |last.request.body|;
    }
  }

  /** With a well-formed head and nothing after the message, the body is the Content-Length bytes
      after the head. */
  lemma {:induction false} BodyIsContent(s: string, p: nat, n: nat)
    requires p <= n <= |s| && IsFirstEnd(CrlfCrlf, s, p)
    requires Received(s, p, n).Delivered? && OneMessage(s, p) && WellFormedHead(s[..p])
    requires Lookup(ParsedRequest(s).value.head.fields, "Content-Length").Some?
    ensures Received(s, p, n).request.body == s[p..]
  {
    hide EndsAt, ParsedHead, Numbers.Stoull, Lookup, WellFormedHead;
    TakesHead(CrlfCrlf, s, p, ParsedRequestLine);
  }

  /** However the bytes arrive, this is the outcome. */
  predicate AlwaysReceived(s: string, outcome: Outcome) {
    match FirstEnd(CrlfCrlf, s)
    case None => outcome == Failed(Chunked.EndOfStream)
    case Some(p) => forall n | p <= n <= |s| :: Received(s, p, n) == outcome
  }

  /** A stream that ends before the head is complete. */
  lemma {:induction false} HeadMissing(s: string)
    requires FirstEnd(CrlfCrlf, s).None?
    ensures AlwaysReceived(s, Failed(Chunked.EndOfStream))
  {
  }

  /** A stream whose head cannot be parsed. */
  lemma {:induction false} HeadRefused(s: string)
    requires FirstEnd(CrlfCrlf, s).Some? && ParsedRequest(s).None?
    ensures AlwaysReceived(s, Failed(Chunked.ProtocolError))
  {
  }

  /** The outcome in terms of the content, when the head ends at `p`. */
  lemma {:induction false} ContentReceived(s: string, p: nat, head: RequestHead, content: string, n: nat)
    requires IsFirstEnd(CrlfCrlf, s, p) && p + |content| == |s| && ParsedRequest(s) == Some(Parsed(head, content))
    requires p <= n <= |s|
    ensures Received(s, p, n) ==
            match Lookup(head.fields, "Content-Length")
            case Some(length) =>
              (match Numbers.Stoull(length)
               case None => Failed(Chunked.ProtocolError)
               case Some(size) =>
                 if size > |content| then Failed(Chunked.EndOfStream)
                 else Delivered(Request(head, if n - p < size then content[..size] else content[..n - p])))
            case None =>
              if Lookup(head.fields, "Transfer-Encoding") == Some("chunked") then
                var d := Chunked.DecodedChunks(content);
                if d.status == Chunked.Done then Delivered(Request(head, d.data)) else Failed(d.status)
              else Delivered(Request(head, content[..n - p]))
  {
    hide IsFirstEnd, ParsedHead, Numbers.Stoull, Lookup, Chunked.DecodedChunks;
    TakesHead(CrlfCrlf, s, p, ParsedRequestLine);
    assert s[p..] == content;
    assert s[p..n] == content[..n - p];
    var length := Lookup(head.fields, "Content-Length");
    if length.Some? && Numbers.Stoull(length.value).Some? && Numbers.Stoull(length.value).value <= |content| {
      var size := Numbers.Stoull(length.value).value;
      assert s[p..p + size] == content[..size];
    }
  }

  /** A stream that is a head and then content. Content of the length that the head tells arrives; a length that
      is no number is an error; content that is cut short is the end of the stream; of what is longer, and of
      content that the head does not mention, arrives what happened to be buffered with the head. */
  lemma {:induction false} ContentArrives(s: string, p: nat, head: RequestHead, content: string)
    requires IsFirstEnd(CrlfCrlf, s, p) && p + |content| == |s| && ParsedRequest(s) == Some(Parsed(head, content))
    ensures match Lookup(head.fields, "Content-Length")
            case Some(length) =>
              (match Numbers.Stoull(length)
               case None => AlwaysReceived(s, Failed(Chunked.ProtocolError))
               case Some(size) =>
                 if size == |content| then AlwaysReceived(s, Delivered(Request(head, content)))
                 else if size > |content| then AlwaysReceived(s, Failed(Chunked.EndOfStream))
                 else forall n | p <= n <= |s| ::
                        Received(s, p, n) ==
                        Delivered(Request(head, if n - p < size then content[..size] else content[..n - p])))
            case None =>
              if Lookup(head.fields, "Transfer-Encoding") == Some("chunked") then
                var d := Chunked.DecodedChunks(content);
                AlwaysReceived(s,
                  if d.status == Chunked.Done then Delivered(Request(head, d.data)) else Failed(d.status))
              else
                && (content == "" ==> AlwaysReceived(s, Delivered(Request(head, content))))
                && forall n | p <= n <= |s| :: Received(s, p, n) == Delivered(Request(head, content[..n - p]))
  {
    hide IsFirstEnd, ParsedRequest, Numbers.Stoull, Lookup, Chunked.DecodedChunks, Received;
    FirstEndIs(CrlfCrlf, s, p);
    forall n | p <= n <= |s| {
      ContentReceived(s, p, head, content, n);
    }
    assert content[..|content|] == content;
  }
}
