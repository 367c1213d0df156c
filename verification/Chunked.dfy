/** The chunked transfer coding of section 4.1 of RFC 7230. Server and client read it with the same
    three handlers; what differs is only who is told about the outcome. */
module Chunked {
  import opened Text
  import opened Delimiters
  import opened Transport
  import Numbers

  /** How reading ends. `Undefined` is where the source's behaviour is undefined: a size line of which
      nothing is left after `getline` (the last character of an empty string is removed), and a chunk
      size so large that `2 + length` wraps around in `unsigned long` (bytes are read that no one wrote). */
  datatype Status = Done | EndOfStream | ProtocolError | Undefined

  /** The outcome, and the data handed on until then. */
  datatype Decoded = Decoded(status: Status, data: string)

  /** The length on a size line from which the LF was taken; the CR is removed unseen. */
  function ChunkLength(line: string): (r: Option<nat>)
    requires line != ""
    ensures r.Some? ==> r.value <= Numbers.ULONG_MAX
  {
    Numbers.Stoul16(line[..|line| - 1])
  }

  /** One-shot decoding of everything the peer sends. `extra` counts the bytes between the first
      LF and the first CRLF; it is zero unless a bare LF comes first. */
  function DecodedChunks(s: string): Decoded
    decreases |s|
  {
    match FirstEnd(Crlf, s)
    case None => Decoded(EndOfStream, "")
    case Some(p) =>
      assert s[p - 1] in s;
      var l := GetLine(s);
      if l.line == "" then Decoded(Undefined, "")
      else
        match ChunkLength(l.line)
        case None => Decoded(ProtocolError, "")
        case Some(length) =>
          var extra := p - (|l.line| + 1);
          if 2 + length > Numbers.ULONG_MAX then Decoded(Undefined, "")
          else if |l.rest| < extra + 2 + length then Decoded(EndOfStream, "")
          else AfterSize(l.rest, length)
  }

  /** The data of a chunk, the two bytes that end it, and what comes after; the last chunk has none. */
  function AfterSize(s: string, length: nat): Decoded
    requires 2 + length <= |s|
    decreases |s|, 0
  {
    if length == 0 then Decoded(Done, "")
    else
      var more := DecodedChunks(s[length..][2..]);
      Decoded(more.status, s[..length] + more.data)
  }

  lemma {:induction false} FirstLfBeforeCrlf(s: string, p: nat)
    requires IsFirstEnd(Crlf, s, p)
    ensures s != "" && '\n' in s && |GetLine(s).line| + 1 <= p
  {
    assert s[p - 1] == '\n' && s[p - 1] in s;
    var l := GetLine(s);
    assert forall k :: 0 <= k < |l.line| ==> s[k] == l.line[k];
  }

  // ----- the handlers

  /** `read_chunked_transfer_encoded`: however the bytes arrive, the outcome and the data appended to
      the content are those of the one-shot decoding of all that is to come. */
  method ReadChunkedTransferEncoded(socket: Socket, content: Streambuf, chunks: Streambuf)
    returns (status: Status)
    requires content != chunks
    modifies socket, content, chunks
    ensures var d := DecodedChunks(old(Total(socket, chunks)));
            status == d.status && content.data == old(content.data) + d.data
    decreases |Total(socket, chunks)|, 1
  {
    hide AfterSize, EndsAt, IsFirstEnd;
    ghost var total := Total(socket, chunks);
    assert content.data + "" == content.data;
    var ok, bytesTransferred := ReadUntil(socket, chunks, Crlf);
    if !ok {
      return EndOfStream;
    }
    FirstLfBeforeCrlf(total, bytesTransferred);
    FirstLfBuffered(chunks.data, socket.incoming, bytesTransferred);
    var _, line := chunks.GetLine();
    bytesTransferred := bytesTransferred - (|line| + 1);
    if line == "" {
      return Undefined;
    }
    var length := ChunkLength(line);
    if length.None? {
      return ProtocolError;
    }
    var numAdditionalBytes := |chunks.data| - bytesTransferred;
    if 2 + length.value > Numbers.ULONG_MAX {
      return Undefined;
    }
    assert Total(socket, chunks) == GetLine(total).rest;
    if 2 + length.value > numAdditionalBytes {
      ok := ReadExactly(socket, chunks, 2 + length.value - numAdditionalBytes);
      if !ok {
        return EndOfStream;
      }
    }
    status := ReadChunk(socket, content, chunks, length.value);
  }

  lemma {:induction false} FirstLfBuffered(buffered: string, incoming: string, n: nat)
    requires n <= |buffered| && FirstEnd(Crlf, buffered + incoming) == Some(n)
    ensures buffered != "" && buffered + incoming != ""
    ensures GetLine(buffered + incoming) == Split(GetLine(buffered).line, GetLine(buffered).rest + incoming)
    ensures |GetLine(buffered).line| + 1 <= n && |buffered| == |GetLine(buffered).line| + 1 + |GetLine(buffered).rest|
  {
    var total := buffered + incoming;
    assert total[n - 1] == '\n' && buffered[n - 1] == '\n' && buffered[n - 1] in buffered;
    GetLineExtends(buffered, incoming);
    FirstLfBeforeCrlf(total, n);
  }

  /** `read_chunked_transfer_encoded_chunk`: the chunk is buffered, with the two bytes that end it. */
  method ReadChunk(socket: Socket, content: Streambuf, chunks: Streambuf, length: nat) returns (status: Status)
    requires content != chunks && 2 + length <= |chunks.data|
    modifies socket, content, chunks
    ensures var d := AfterSize(old(Total(socket, chunks)), length);
            status == d.status && content.data == old(content.data) + d.data
    decreases |Total(socket, chunks)|, 0
  {
    hide DecodedChunks;
    ghost var total := Total(socket, chunks);
    ghost var before := content.data;
    ChunkBuffered(chunks.data, socket.incoming, length);
    if length > 0 {
      var buffer := chunks.Take(length);
      content.Put(buffer);
    }
    // Remove CR LF
    var _ := chunks.Take(2);
    if length > 0 {
      assert Total(socket, chunks) == total[length..][2..];
      ghost var more := DecodedChunks(Total(socket, chunks)).data;
      status := ReadChunkedTransferEncoded(socket, content, chunks);
      Assoc(before, total[..length], more);
    } else {
      assert before + "" == before;
      status := Done;
    }
  }

  lemma {:induction false} ChunkBuffered(buffered: string, incoming: string, length: nat)
    requires 2 + length <= |buffered|
    ensures (buffered + incoming)[..length] == buffered[..length]
    ensures (buffered + incoming)[length..][2..] == buffered[length..][2..] + incoming
  {
  }

  // ----- the coding, and that decoding undoes it

  /** A chunk as it is sent: the text before the CRLF of its size line, and its data. */
  datatype Chunk = Chunk(size: string, data: string)

  /** The size line reads as the length of the data: hexadecimal digits of either case, leading
      zeros, and anything that does not go on with digits, such as a chunk extension. */
  predicate ValidChunk(c: Chunk) {
    c.data != "" && '\n' !in c.size && Numbers.Stoul16(c.size) == Some(|c.data|)
  }

  function ChunkText(c: Chunk): string {
    c.size + "\r\n" + c.data + "\r\n"
  }

  /** The chunks, then the last chunk, whose size line is `last`, and no trailer. */
  function Encoded(cs: seq<Chunk>, last: string): string {
    if cs == [] then last + "\r\n" + "\r\n" else ChunkText(cs[0]) + Encoded(cs[1..], last)
  }

  function Data(cs: seq<Chunk>): string {
    if cs == [] then "" else cs[0].data + Data(cs[1..])
  }

  lemma {:induction false} SizeLineRead(size: string, more: string)
    requires '\n' !in size
    ensures var s := size + "\r\n" + more;
            s != "" && FirstEnd(Crlf, s) == Some(|size| + 2) && GetLine(s) == Split(size + "\r", more)
  {
    var s := size + "\r\n" + more;
    assert forall k :: 0 <= k < |size| ==> s[k] == size[k] && s[k] in size;
    FirstEndIs(Crlf, s, |size| + 2);
    assert s == (size + "\r") + "\n" + more;
    GetLineOf(size + "\r", more);
  }

  /** Decoding looks at the size and then takes data of that length and two more bytes: a size that is no number
      is an error, one that wraps around with its CRLF has no meaning, and what is not there is waited for. */
  lemma {:induction false} ChunkDecoded(size: string, more: string)
    requires '\n' !in size
    ensures DecodedChunks(size + "\r\n" + more) ==
            match Numbers.Stoul16(size)
            case None => Decoded(ProtocolError, "")
            case Some(length) =>
              if 2 + length > Numbers.ULONG_MAX then Decoded(Undefined, "")
              else if |more| < 2 + length then Decoded(EndOfStream, "")
              else AfterSize(more, length)
  {
    hide AfterSize, FirstEnd, Numbers.Stoul16;
    SizeLineRead(size, more);
    assert (size + "\r")[..|size|] == size;
  }

  /** A size line that a bare LF ends loses its last character instead of a CR, and the bytes up to the first
      CRLF are asked for once more. */
  lemma {:induction false} BareSizeLine(size: string, c: char, more: string)
    requires '\n' !in size && c != '\r' && c != '\n'
    ensures DecodedChunks(size + [c] + "\n" + more) ==
            match FirstEnd(Crlf, more)
            case None => Decoded(EndOfStream, "")
            case Some(q) =>
              match Numbers.Stoul16(size)
              case None => Decoded(ProtocolError, "")
              case Some(length) =>
                if 2 + length > Numbers.ULONG_MAX then Decoded(Undefined, "")
                else if |more| < q + 2 + length then Decoded(EndOfStream, "")
                else AfterSize(more, length)
  {
    hide AfterSize, Numbers.Stoul16, FirstEnd, GetLine;
    var line := size + [c];
    assert '\n' !in line;
    GetLineOf(line, more);
    assert line[..|size|] == size;
    BareLfEndsNothing(size, c, more);
  }

  lemma {:induction false} BareLfEndsNothing(size: string, c: char, more: string)
    requires '\n' !in size && c != '\r' && c != '\n'
    ensures FirstEnd(Crlf, size + [c] + "\n" + more) ==
            match FirstEnd(Crlf, more) case None => None case Some(q) => Some(|size| + 2 + q)
  {
    hide FirstEnd;
    var line := size + [c];
    var s, n := line + "\n" + more, |size| + 2;
    assert forall i :: 0 <= i < |line| ==> s[i] == line[i] && line[i] in line;
    assert forall i :: 0 <= i < |more| ==> s[n + i] == more[i];
    assert forall k: nat :: k < n + 1 && k <= |s| ==> !EndsAt(Crlf, s, k);
    forall k: nat | 0 < k <= |more| ensures EndsAt(Crlf, s, n + k) == EndsAt(Crlf, more, k) {
    }
    ShiftedEnd(s, more, n);
  }

  lemma {:induction false} ShiftedEnd(s: string, more: string, n: nat)
    requires |s| == n + |more| && NoEnd(Crlf, s, n + 1) && !EndsAt(Crlf, more, 0)
    requires forall k: nat :: 0 < k <= |more| ==> EndsAt(Crlf, s, n + k) == EndsAt(Crlf, more, k)
    ensures FirstEnd(Crlf, s) == match FirstEnd(Crlf, more) case None => None case Some(q) => Some(n + q)
  {
    hide EndsAt, FirstEnd;
    match FirstEnd(Crlf, more)
    case None =>
      forall k: nat | k <= |s| ensures !EndsAt(Crlf, s, k) {
        assert k > n ==> EndsAt(Crlf, s, n + (k - n)) == EndsAt(Crlf, more, k - n);
      }
      NoFirstEnd(Crlf, s);
    case Some(q) =>
      forall k: nat | k < n + q ensures !EndsAt(Crlf, s, k) {
        assert k > n ==> EndsAt(Crlf, s, n + (k - n)) == EndsAt(Crlf, more, k - n);
      }
      FirstEndIs(Crlf, s, n + q);
  }

  predicate Fits(c: Chunk) {
    2 + |c.data| <= Numbers.ULONG_MAX
  }

  /** For every list of chunks, decoding what was encoded gives the data back, whatever follows on the
      connection, exactly when no chunk is longer than `unsigned long` can count with its CRLF. */
  lemma {:induction false} DecodeEncoded(cs: seq<Chunk>, last: string, tail: string)
    requires forall c :: c in cs ==> ValidChunk(c)
    requires '\n' !in last && Numbers.Stoul16(last) == Some(0)
    ensures DecodedChunks(Encoded(cs, last) + tail) == Decoded(Done, Data(cs)) <==>
            forall c :: c in cs ==> Fits(c)
    ensures (forall c :: c in cs ==> Fits(c)) || DecodedChunks(Encoded(cs, last) + tail).status == Undefined
  {
    hide DecodedChunks, Numbers.Stoul16;
    if cs == [] {
      ChunkDecoded(last, "\r\n" + tail);
      assert Encoded(cs, last) + tail == last + "\r\n" + ("\r\n" + tail);
    } else {
      var c, more := cs[0], Encoded(cs[1..], last) + tail;
      assert c in cs;
      ChunkDecoded(c.size, c.data + "\r\n" + more);
      assert Encoded(cs, last) + tail == c.size + "\r\n" + (c.data + "\r\n" + more);
      DataTaken(c.data, more);
      DecodeEncoded(cs[1..], last, tail);
      assert (forall x :: x in cs ==> Fits(x)) <==> Fits(c) && forall x :: x in cs[1..] ==> Fits(x);
    }
  }

  lemma {:induction false} DataTaken(data: string, more: string)
    requires data != ""
    ensures var d := DecodedChunks(more);
            AfterSize(data + "\r\n" + more, |data|) == Decoded(d.status, data + d.data)
  {
    hide DecodedChunks;
    var s := data + "\r\n" + more;
    assert s[..|data|] == data && s[|data|..][2..] == more;
  }

  lemma {:induction false} NoCrlfYet(s: string)
    requires '\n' !in s
    ensures DecodedChunks(s) == Decoded(EndOfStream, "")
  {
    NoFirstEnd(Crlf, s);
  }

  /** Wherever the stream ends before the last chunk is complete, this is what is reported, and no more data
      is handed on than was sent. */
  lemma {:induction false} CutShort(cs: seq<Chunk>, last: string, k: nat)
    requires forall c :: c in cs ==> ValidChunk(c) && Fits(c)
    requires '\n' !in last && Numbers.Stoul16(last) == Some(0) && k < |Encoded(cs, last)|
    ensures var d := DecodedChunks(Encoded(cs, last)[..k]);
            d.status == EndOfStream && d.data <= Data(cs)
    decreases |cs|
  {
    hide DecodedChunks, Numbers.Stoul16, AfterSize;
    var all := Encoded(cs, last);
    var size, more := if cs == [] then last else cs[0].size, if cs == [] then "\r\n" else all[|cs[0].size| + 2..];
    assert cs != [] ==> cs[0] in cs;
    assert all == size + "\r\n" + more;
    if k < |size| + 2 {
      assert forall i :: 0 <= i < k && i < |size| ==> all[..k][i] == size[i] && size[i] in size;
      NoCrlfYet(all[..k]);
    } else {
      var j := k - |size| - 2;
      assert all[..k] == size + "\r\n" + more[..j];
      ChunkDecoded(size, more[..j]);
      if cs != [] && |cs[0].data| + 2 <= j {
        var c, i := cs[0], j - |cs[0].data| - 2;
        assert more == c.data + "\r\n" + Encoded(cs[1..], last);
        assert more[..j] == c.data + "\r\n" + Encoded(cs[1..], last)[..i];
        DataTaken(c.data, Encoded(cs[1..], last)[..i]);
        CutShort(cs[1..], last, i);
        PrefixAfter(c.data, DecodedChunks(Encoded(cs[1..], last)[..i]).data, Data(cs[1..]));
      }
    }
  }

  lemma {:induction false} PrefixAfter(a: string, b: string, c: string)
    requires b <= c
    ensures a + b <= a + c
  {
  }

  /** A size line in the form of the standard: hexadecimal digits, and an extension or nothing. */
  lemma {:induction false} StandardSizeLine(digits: string, extension: string)
    requires digits != "" && forall k :: 0 <= k < |digits| ==> Numbers.IsDigit(digits[k], 16)
    requires '\n' !in extension && (extension != "" ==> extension[0] == ';')
    ensures var size, length := digits + extension, Numbers.ValueOf(digits, 16);
            && '\n' !in size
            && Numbers.Stoul16(size) == if length <= Numbers.ULONG_MAX then Some(length) else None
  {
    Numbers.ReadDigits(digits, 16, Numbers.ULONG_MAX, extension);
  }

  /** The same for the number that the digits stand for: printed in base 16, spelled in any case, after zeros. */
  lemma {:induction false} NumberSizeLine(n: nat, zeros: string, text: string, extension: string)
    requires Numbers.AllIn(zeros, "0") && CaseInsensitiveEqual(text, Numbers.Print(n, 16))
    requires extension != "" ==> extension[0] == ';'
    ensures Numbers.Stoul16(zeros + text + extension) == if n <= 0xFFFF_FFFF then Some(n) else None
  {
    Numbers.ReadAnyCase(n, zeros, text, Numbers.ULONG_MAX, extension);
  }
}
