/** How the client reads a response from a connection. */
module Client {
  import opened Text
  import opened Delimiters
  import opened Transport
  import opened Messages
  import Chunked
  import Events
  import Numbers

  datatype Response = Response(head: ResponseHead, body: string)

  /** How the callback is called. `Completed` and `Failed` are one call, without and with an error;
      `Streamed` is one call when the event stream is opened, one for every event, and one with the
      end of the stream. A Content-Length that is no number throws out of the handler: no call. */
  datatype Outcome =
    | Completed(response: Response)
    | Failed(status: Chunked.Status)
    | Streamed(head: ResponseHead, texts: seq<string>)
    | Thrown

  /** `<` on strings: lexicographic. */
  predicate Less(a: string, b: string)
    decreases |a|
  {
    b != "" && (a == "" || a[0] < b[0] || (a[0] == b[0] && Less(a[1..], b[1..])))
  }

  /** The body runs to the end of the stream. The field is called "Session", not "Connection". */
  predicate UntilClose(head: ResponseHead) {
    Less(head.line.version, "1.1") || Lookup(head.fields, "Session") == Some("close")
  }

  predicate EventStream(head: ResponseHead) {
    Lookup(head.fields, "Content-Type") == Some("text/event-stream")
  }

  predicate IsChunked(head: ResponseHead) {
    Lookup(head.fields, "Transfer-Encoding") == Some("chunked")
  }

  /** One-shot reading of everything the peer sends, `s`, whose head ends at `p`; `n` is the number of
      bytes that were buffered when the head was found. */
  function Received(s: string, p: nat, n: nat): Outcome
    requires p <= n <= |s| && IsFirstEnd(HeaderEnd, s, p)
  {
    match ParsedResponse(s)
    case None => Failed(Chunked.ProtocolError)
    case Some(Parsed(head, rest)) =>
      TakesHead(HeaderEnd, s, p, ParsedStatusLine);
      var start := |s| - |rest|;
      match Lookup(head.fields, "Content-Length")
      case Some(length) =>
        (match Numbers.Stoull(length)
         case None => Thrown
         case Some(contentLength) =>
           if |s| < p + contentLength then Failed(Chunked.EndOfStream)
           else Completed(Response(head, s[start..Max(n, p + contentLength)])))
      case None =>
        if IsChunked(head) then
          var d := Chunked.DecodedChunks(rest);
          if d.status == Chunked.Done then Completed(Response(head, d.data)) else Failed(d.status)
        else if UntilClose(head) then Completed(Response(head, rest))
        else if EventStream(head) then Streamed(head, Events.EventTexts(rest))
        else Completed(Response(head, s[start..n]))
  }

  /** `read`: however the bytes arrive, the callback is called as the one-shot reading says. */
  method Read(socket: Socket, content: Streambuf) returns (outcome: Outcome, ghost n: nat)
    modifies socket, content
    ensures var s := old(Total(socket, content));
            match FirstEnd(HeaderEnd, s)
            case None => outcome == Failed(Chunked.EndOfStream)
            case Some(p) => p <= n <= |s| && outcome == Received(s, p, n)
  {
    hide EndsAt, ParsedHead, Numbers.Stoull, Lookup, Chunked.DecodedChunks, UntilClose, EventStream, IsChunked,
      Events.EventTexts;
    ghost var s := Total(socket, content);
    var ok, bytesTransferred := ReadUntilHeaderEnd(socket, content);
    n := |content.data|;
    if !ok {
      return Failed(Chunked.EndOfStream), n;
    }
    var numAdditionalBytes := |content.data| - bytesTransferred;
    assert content.data == s[..n] && socket.incoming == s[n..];
    FromPart(HeaderEnd, s, bytesTransferred, n, ParsedStatusLine);
    var head := ParseResponse(content);
    if head.None? {
      return Failed(Chunked.ProtocolError), n;
    }
    ghost var start := HeadParsed(HeaderEnd, s, bytesTransferred, n, content.data, ParsedStatusLine);
    var length := Lookup(head.value.fields, "Content-Length");
    if length.Some? {
      outcome := ReadLength(socket, content, head.value, length.value, numAdditionalBytes, s, start, n);
    } else {
      outcome := ReadRest(socket, content, head.value);
    }
  }

  /** The rest of `read` for a response with a Content-Length. */
  method ReadLength(socket: Socket, content: Streambuf, head: ResponseHead, length: string,
                    numAdditionalBytes: nat, ghost s: string, ghost start: nat, ghost n: nat)
    returns (outcome: Outcome)
    requires start <= n <= |s| && numAdditionalBytes <= n
    requires content.data == s[start..n] && socket.incoming == s[n..]
    modifies socket, content
    ensures var p := n - numAdditionalBytes;
            match Numbers.Stoull(length)
            case None => outcome == Thrown
            case Some(contentLength) =>
              if |s| < p + contentLength then outcome == Failed(Chunked.EndOfStream)
              else
                && start <= Max(n, p + contentLength)
                && outcome == Completed(Response(head, s[start..Max(n, p + contentLength)]))
  {
    hide Numbers.Stoull;
    assert Total(socket, content) == s[start..];
    var contentLength := Numbers.Stoull(length);
    if contentLength.None? {
      return Thrown;
    }
    if contentLength.value > numAdditionalBytes {
      var ok := ReadExactly(socket, content, contentLength.value - numAdditionalBytes);
      if !ok {
        return Failed(Chunked.EndOfStream);
      }
      BufferedPart(content.data, socket.incoming, s, start, n + contentLength.value - numAdditionalBytes);
    }
    outcome := Completed(Response(head, content.data));
  }

  /** The rest of `read` for a response without one. */
  method ReadRest(socket: Socket, content: Streambuf, head: ResponseHead) returns (outcome: Outcome)
    modifies socket, content
    ensures var rest := old(Total(socket, content));
            var d := Chunked.DecodedChunks(rest);
            outcome ==
              if IsChunked(head) then
                if d.status == Chunked.Done then Completed(Response(head, d.data)) else Failed(d.status)
              else if UntilClose(head) then Completed(Response(head, rest))
              else if EventStream(head) then Streamed(head, Events.EventTexts(rest))
              else Completed(Response(head, old(content.data)))
  {
    hide Chunked.DecodedChunks, UntilClose, EventStream, IsChunked, Events.EventTexts;
    if IsChunked(head) {
      // Copy leftover bytes
      var leftover := content.Take(|content.data|);
      var chunks := new Streambuf(leftover);
      assert Total(socket, chunks) == old(Total(socket, content));
      var status := Chunked.ReadChunkedTransferEncoded(socket, content, chunks);
      outcome := if status == Chunked.Done then Completed(Response(head, content.data)) else Failed(status);
    } else if UntilClose(head) {
      ReadAll(socket, content);
      outcome := Completed(Response(head, content.data));
    } else if EventStream(head) {
      // Copy leftover bytes
      var leftover := content.Take(|content.data|);
      var events := new Streambuf(leftover);
      assert Total(socket, events) == old(Total(socket, content));
      var texts := Events.ReadServerSentEvent(socket, content, events);
      outcome := Streamed(head, texts);
    } else {
      outcome := Completed(Response(head, content.data));
    }
  }

  // ----- when the way the bytes arrive makes no difference

  /** The body does not depend on how much was buffered with the head: it has a length that nothing
      exceeds, or an end of its own, or there is none. */
  predicate Delimited(s: string, p: nat)
    requires IsFirstEnd(HeaderEnd, s, p)
  {
    match ParsedResponse(s)
    case None => true
    case Some(Parsed(head, _)) =>
      match Lookup(head.fields, "Content-Length")
      case Some(length) => Numbers.Stoull(length).None? || |s| <= p + Numbers.Stoull(length).value
      case None => IsChunked(head) || UntilClose(head) || EventStream(head) || |s| == p
  }

  lemma {:induction false} FragmentationMatters(s: string, p: nat)
    requires IsFirstEnd(HeaderEnd, s, p)
    ensures (forall n | p <= n <= |s| :: Received(s, p, n) == Received(s, p, |s|)) <==> Delimited(s, p)
  {
    hide EndsAt, ParsedHead, Numbers.Stoull, Lookup, Chunked.DecodedChunks, UntilClose, EventStream, IsChunked,
      Events.EventTexts;
    var first, last := Received(s, p, p), Received(s, p, |s|);
    if !Delimited(s, p) {
      TakesHead(HeaderEnd, s, p, ParsedStatusLine);
      assert |first.response.body| < |last.response.body|;
    }
  }

  /** However the bytes arrive, this is the outcome. */
  predicate AlwaysReceived(s: string, outcome: Outcome) {
    match FirstEnd(HeaderEnd, s)
    case None => outcome == Failed(Chunked.EndOfStream)
    case Some(p) => forall n | p <= n <= |s| :: Received(s, p, n) == outcome
  }

  /** A stream that ends before the head is complete. */
  lemma {:induction false} HeadMissing(s: string)
    requires FirstEnd(HeaderEnd, s).None?
    ensures AlwaysReceived(s, Failed(Chunked.EndOfStream))
  {
  }

  /** A stream whose head cannot be parsed. */
  lemma {:induction false} HeadRefused(s: string)
    requires FirstEnd(HeaderEnd, s).Some? && ParsedResponse(s).None?
    ensures AlwaysReceived(s, Failed(Chunked.ProtocolError))
  {
  }

  /** The outcome in terms of the content, when the head ends at `p`. */
  lemma {:induction false} ContentReceived(s: string, p: nat, head: ResponseHead, content: string, n: nat)
    requires IsFirstEnd(HeaderEnd, s, p) && p + |content| == |s| && ParsedResponse(s) == Some(Parsed(head, content))
    requires p <= n <= |s|
    ensures Received(s, p, n) ==
            match Lookup(head.fields, "Content-Length")
            case Some(length) =>
              (match Numbers.Stoull(length)
               case None => Thrown
               case Some(size) =>
                 if size > |content| then Failed(Chunked.EndOfStream)
                 else Completed(Response(head, if n - p < size then content[..size] else content[..n - p])))
            case None =>
              if Lookup(head.fields, "Transfer-Encoding") == Some("chunked") then
                var d := Chunked.DecodedChunks(content);
                if d.status == Chunked.Done then Completed(Response(head, d.data)) else Failed(d.status)
              else if UntilClose(head) then Completed(Response(head, content))
              else if Lookup(head.fields, "Content-Type") == Some("text/event-stream") then
                Streamed(head, Events.EventTexts(content))
              else Completed(Response(head, content[..n - p]))
  {
    hide IsFirstEnd, ParsedHead, Numbers.Stoull, Lookup, Chunked.DecodedChunks, UntilClose, Events.EventTexts;
    TakesHead(HeaderEnd, s, p, ParsedStatusLine);
    assert s[p..] == content;
    assert s[p..n] == content[..n - p];
    var length := Lookup(head.fields, "Content-Length");
    if length.Some? && Numbers.Stoull(length.value).Some? && Numbers.Stoull(length.value).value <= |content| {
      var size := Numbers.Stoull(length.value).value;
      assert s[p..p + size] == content[..size];
    }
  }

  /** A stream that is a head and then content. Content of the length that the head tells arrives; a length that
      is no number is thrown; content that is cut short is the end of the stream; of what is longer, and of content
      whose end nothing tells, arrives what happened to be buffered with the head, so that it is sure to arrive
      only if there is none. */
  lemma {:induction false} ContentArrives(s: string, p: nat, head: ResponseHead, content: string)
    requires IsFirstEnd(HeaderEnd, s, p) && p + |content| == |s| && ParsedResponse(s) == Some(Parsed(head, content))
    ensures match Lookup(head.fields, "Content-Length")
            case Some(length) =>
              (match Numbers.Stoull(length)
               case None => AlwaysReceived(s, Thrown)
               case Some(size) =>
                 if size == |content| then AlwaysReceived(s, Completed(Response(head, content)))
                 else if size > |content| then AlwaysReceived(s, Failed(Chunked.EndOfStream))
                 else forall n | p <= n <= |s| ::
                        Received(s, p, n) ==
                        Completed(Response(head, if n - p < size then content[..size] else content[..n - p])))
            case None =>
              if Lookup(head.fields, "Transfer-Encoding") == Some("chunked") then
                var d := Chunked.DecodedChunks(content);
                AlwaysReceived(s,
                  if d.status == Chunked.Done then Completed(Response(head, d.data)) else Failed(d.status))
              else if UntilClose(head) then AlwaysReceived(s, Completed(Response(head, content)))
              else if Lookup(head.fields, "Content-Type") == Some("text/event-stream") then
                AlwaysReceived(s, Streamed(head, Events.EventTexts(content)))
              else
                && (AlwaysReceived(s, Completed(Response(head, content))) <==> content == "")
                && forall n | p <= n <= |s| :: Received(s, p, n) == Completed(Response(head, content[..n - p]))
  {
    hide IsFirstEnd, ParsedResponse, Numbers.Stoull, Lookup, Chunked.DecodedChunks, UntilClose, Events.EventTexts,
      Received;
    FirstEndIs(HeaderEnd, s, p);
    forall n | p <= n <= |s| {
      ContentReceived(s, p, head, content, n);
    }
    assert content[..|content|] == content;
    var part := Received(s, p, p);
  }

  /** The order of versions is that of strings: the first character that differs decides, and a proper beginning
      comes first. */
  lemma {:induction false} LessIs(a: string, b: string, k: nat)
    requires k <= |a| && k <= |b| && a[..k] == b[..k]
    requires k == |a| || k == |b| || a[k] != b[k]
    ensures Less(a, b) <==> k < |b| && (k == |a| || a[k] < b[k])
    decreases k
  {
    if k > 0 {
      assert a[0] == a[..k][0] == b[..k][0] == b[0];
      assert a[1..][..k - 1] == a[..k][1..] && b[1..][..k - 1] == b[..k][1..];
      LessIs(a[1..], b[1..], k - 1);
    }
  }
}
