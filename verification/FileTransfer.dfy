/** End to end: a file that a handler sends is the body that the client's callback gets. */
module FileTransfer {
  import opened Text
  import opened Messages
  import opened Transport
  import opened Writers
  import opened RoundTrip
  import Chunked
  import Client
  import Delimiters
  import FileSender
  import Numbers
  import SendQueue
  import ServerResponse

  /** The caller's fields and the length of the file, which has its place anywhere in the multimap. */
  function FileHeader(before: seq<Field>, file: string, after: seq<Field>): seq<Field> {
    before + [Field("Content-Length", Decimal(|file|))] + after
  }

  /** The head is written without content, and the file is sent after it. */
  lemma {:induction false} FileIsContent(status: string, before: seq<Field>, file: string, after: seq<Field>)
    requires Lookup(before, "Content-Length").None? && |file| <= Numbers.ULLONG_MAX
    ensures var fs := FileHeader(before, file, after);
            && ResponseText(status, fs, "", false) + file == ResponseText(status, fs, file, false)
            && var length := Lookup(TrimmedFields(fs), "Content-Length");
               length.Some? && Numbers.Stoull(length.value) == Some(|file|)
  {
    hide Measured, Lookup, Decimal, FieldsText, TrimmedFields, Numbers.Stoull;
    var fs := FileHeader(before, file, after);
    LengthFound(before, |file|, after);
    LengthIsMeasured(fs);
    assert fs + [] == fs;
    var head := "HTTP/1.1 " + status + "\r\n" + FieldsText(fs) + "\r\n";
    assert head + "" == head;
  }

  /** `sendFile` with a status and fields, on a response that nothing was written to. */
  method SendFile(status: string, header: seq<Field>, file: string, packetSize: nat) returns (wire: string)
    requires packetSize > 0
    ensures wire == if file == "" then "" else ResponseText(status, header, "", false) + file
  {
    hide SendQueue.Inv, ResponseText, FileSender.PacketsSent;
    var response := new ServerResponse.Response();
    var head := Writers.WriteResponse(status, "", header, false);
    response.Write(head);
    assert response.written == "" + head == head;
    var registry := new FileSender.Registry();
    var sender := new FileSender.FileSender(response, registry, file, packetSize);
    FileSender.Deliver(sender);
    wire := response.wire;
  }

  /** `sendFile`, the network, and the client. For every file, packet size and fragmentation the client gets the
      file, unless it is empty: then nothing is ever sent, not even the head, and the client waits until the
      connection is closed. */
  method FileOverNetwork(status: string, before: seq<Field>, file: string, after: seq<Field>, packetSize: nat)
    returns (outcome: Client.Outcome)
    requires packetSize > 0 && Lookup(before, "Content-Length").None?
    requires WellFormedResponse(status, FileHeader(before, file, after), file, false)
    ensures var head := Head(StatusLine("1.1", status), TrimmedFields(FileHeader(before, file, after)));
            outcome == if file == "" then Client.Failed(Chunked.EndOfStream)
                       else Client.Completed(Client.Response(head, file))
  {
    hide TrimmedFields, Client.Received, Delimiters.IsFirstEnd, ResponseText, OddCr, Lookup, Writers.LastText;
    var header := FileHeader(before, file, after);
    var wire := SendFile(status, header, file, packetSize);
    var socket := new Socket(wire);
    var streambuf := new Streambuf("");
    TotalOfNew(socket, streambuf);
    ghost var n;
    outcome, n := Client.Read(socket, streambuf);
    FileIsContent(status, before, file, after);
    MeasuredResponseRoundTrip(status, header, file, false, 0);
  }
}
