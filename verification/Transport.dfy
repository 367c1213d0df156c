/** Stream buffers, and the asynchronous reads that fill them from a socket. The socket holds every
    byte the peer has still to send; the network delivers them in pieces of any size, and the end
    of the stream is reported once they are used up. */
module Transport {
  import opened Text
  import opened Delimiters

  class Streambuf {
    var data: string

    constructor (text: string)
      ensures data == text
    {
      data := text;
    }

    /** `std::getline` on a stream over this buffer; false at the end of the data. */
    method GetLine() returns (ok: bool, line: string)
      modifies this
      ensures ok <==> old(data) != ""
      ensures ok ==> Split(line, data) == Text.GetLine(old(data))
      ensures !ok ==> data == old(data)
    {
      ok, line := data != "", "";
      if ok {
        var split := Text.GetLine(data);
        line, data := split.line, split.rest;
      }
    }

    /** Takes `n` bytes that are known to be there. */
    method Take(n: nat) returns (bytes: string)
      requires n <= |data|
      modifies this
      ensures bytes == old(data)[..n] && data == old(data)[n..]
    {
      bytes, data := data[..n], data[n..];
    }

    method Put(bytes: string)
      modifies this
      ensures data == old(data) + bytes
    {
      data := data + bytes;
    }
  }

  class Socket {
    var incoming: string

    constructor (wire: string)
      ensures incoming == wire
    {
      incoming := wire;
    }
  }

  /** All that can still be read: what is buffered, then what the peer has still to send. */
  function Total(socket: Socket, sb: Streambuf): string
    reads socket, sb
  {
    sb.data + socket.incoming
  }

  /** A buffer that holds the stream from `start` on, up to `end`. */
  lemma {:induction false} BufferedPart(buffered: string, incoming: string, s: string, start: nat, end: nat)
    requires start <= |s| && buffered + incoming == s[start..] && start + |buffered| == end
    ensures end <= |s| && buffered == s[start..end] && incoming == s[end..]
  {
    assert s[start..][..|buffered|] == buffered;
    assert s[start..][|buffered|..] == incoming;
  }

  /** One delivery: some bytes, but no more than `most`. */
  method Receive(socket: Socket, sb: Streambuf, most: nat)
    requires socket.incoming != "" && most > 0
    modifies socket, sb
    ensures Total(socket, sb) == old(Total(socket, sb))
    ensures |old(sb.data)| < |sb.data| <= |old(sb.data)| + most
    ensures old(sb.data) <= sb.data
    ensures |socket.incoming| < |old(socket.incoming)|
  {
    var k: nat :| 1 <= k <= most && k <= |socket.incoming|;
    sb.data := sb.data + socket.incoming[..k];
    socket.incoming := socket.incoming[k..];
  }

  /** `async_read_until` with a string delimiter: no read when the delimiter is buffered already,
      and possibly more bytes than needed otherwise. */
  method ReadUntil(socket: Socket, sb: Streambuf, d: Delimiter) returns (ok: bool, n: nat)
    requires d != HeaderEnd
    modifies socket, sb
    ensures Total(socket, sb) == old(Total(socket, sb)) && old(sb.data) <= sb.data
    ensures ok ==> n <= |sb.data| && FirstEnd(d, Total(socket, sb)) == Some(n)
    ensures !ok ==> FirstEnd(d, Total(socket, sb)).None? && socket.incoming == ""
  {
    hide EndsAt;
    n := 0;
    while FirstEnd(d, sb.data).None?
      invariant Total(socket, sb) == old(Total(socket, sb)) && old(sb.data) <= sb.data
      decreases |socket.incoming|
    {
      if socket.incoming == "" {
        assert Total(socket, sb) == sb.data;
        return false, n;
      }
      Receive(socket, sb, |socket.incoming|);
    }
    ok, n := true, FirstEnd(d, sb.data).value;
    FirstEndPrefix(d, sb.data, socket.incoming, n);
    FirstEndIs(d, Total(socket, sb), n);
  }

  /** `async_read_until` with `HeaderEndMatch`, which is fed each delivery as it arrives. */
  method ReadUntilHeaderEnd(socket: Socket, sb: Streambuf) returns (ok: bool, n: nat)
    modifies socket, sb
    ensures Total(socket, sb) == old(Total(socket, sb)) && old(sb.data) <= sb.data
    ensures ok ==> n <= |sb.data| && FirstEnd(HeaderEnd, Total(socket, sb)) == Some(n)
    ensures !ok ==> FirstEnd(HeaderEnd, Total(socket, sb)).None? && socket.incoming == ""
  {
    hide EndsAt, HeaderEndMatch.Valid;
    var matcher := new HeaderEndMatch();
    var start: nat := 0;
    assert "" + sb.data == sb.data;
    var it: nat, found: bool;
    it, found := matcher.Match(sb.data);
    while !found
      invariant Total(socket, sb) == old(Total(socket, sb)) && old(sb.data) <= sb.data
      invariant start <= |sb.data| && fresh(matcher)
      invariant !found ==> matcher.Valid() && matcher.seen == sb.data
      invariant found ==> it <= |sb.data| - start && IsFirstEnd(HeaderEnd, sb.data, start + it)
      decreases |socket.incoming|, !found
    {
      if socket.incoming == "" {
        assert Total(socket, sb) == sb.data;
        matcher.NothingFound();
        return false, 0;
      }
      start := |sb.data|;
      ghost var before := sb.data;
      Receive(socket, sb, |socket.incoming|);
      assert sb.data[..start] == before;
      assert before + sb.data[start..] == sb.data;
      it, found := matcher.Match(sb.data[start..]);
    }
    ok, n := true, start + it;
    FirstEndPrefix(HeaderEnd, sb.data, socket.incoming, n);
    FirstEndIs(HeaderEnd, Total(socket, sb), n);
  }

  /** `async_read` with `transfer_exactly(n)`: never a byte more. */
  method ReadExactly(socket: Socket, sb: Streambuf, n: nat) returns (ok: bool)
    modifies socket, sb
    ensures Total(socket, sb) == old(Total(socket, sb))
    ensures ok <==> n <= |old(socket.incoming)|
    ensures ok ==> |sb.data| == |old(sb.data)| + n
  {
    ghost var size := |sb.data|;
    var left: nat := n;
    while left > 0
      invariant Total(socket, sb) == old(Total(socket, sb))
      invariant |sb.data| + left == size + n && left <= n
      decreases left
    {
      if socket.incoming == "" {
        return false;
      }
      var before := |sb.data|;
      Receive(socket, sb, left);
      left := left - (|sb.data| - before);
    }
    ok := true;
  }

  /** `async_read` without a condition: everything up to the end of the stream. */
  method ReadAll(socket: Socket, sb: Streambuf)
    modifies socket, sb
    ensures sb.data == old(Total(socket, sb)) && socket.incoming == ""
  {
    while socket.incoming != ""
      invariant Total(socket, sb) == old(Total(socket, sb))
      decreases |socket.incoming|
    {
      Receive(socket, sb, |socket.incoming|);
    }
    assert Total(socket, sb) == sb.data;
  }
}
