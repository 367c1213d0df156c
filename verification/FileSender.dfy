/** `FileSender`: a file is sent packet by packet, each from the callback of the one before. */
module FileSender {
  import opened Text
  import opened SendQueue
  import opened ServerResponse

  /** The count of live connections that senders are part of. */
  class Registry {
    var aliveConnCount: int

    constructor ()
      ensures aliveConnCount == 0
    {
      aliveConnCount := 0;
    }
  }

  /** The consecutive slices of a file; only the last may be shorter. */
  function Packets(file: string, size: nat): (ps: seq<string>)
    requires size > 0
    decreases |file|
  {
    if file == "" then [] else if |file| <= size then [file] else [file[..size]] + Packets(file[size..], size)
  }

  /** The packets make up the file; none is empty, and all but the last are full. */
  lemma {:induction false} PacketsMakeFile(file: string, size: nat)
    requires size > 0
    ensures Concat(Packets(file, size)) == file
    ensures forall k :: 0 <= k < |Packets(file, size)| ==> 0 < |Packets(file, size)[k]| <= size
    ensures forall k :: 0 <= k < |Packets(file, size)| - 1 ==> |Packets(file, size)[k]| == size
    decreases |file|
  {
    if |file| > size {
      PacketsMakeFile(file[size..], size);
      assert file == file[..size] + file[size..];
      assert Packets(file, size)[1..] == Packets(file[size..], size);
    } else if file != "" {
      assert Concat([file]) == file + "";
    }
  }

  /** How much of the file is in the last packet if that is not full. */
  function Short(n: nat, size: nat): nat
    requires size > 0
  {
    n % size
  }

  lemma {:induction false} RemainderStep(n: nat, size: nat)
    requires 0 < size <= n
    ensures (n - size) % size == n % size
  {
    var q, r := n / size, n % size;
    assert n == q * size + r;
    assert n - size == (q - 1) * size + r;
    Unique(n - size, size, q - 1, r);
  }

  lemma {:induction false} Unique(n: nat, size: nat, q: int, r: nat)
    requires size > 0 && n == q * size + r && r < size
    ensures n % size == r
  {
    var d := n / size - q;
    assert d * size == r - n % size;
    assert d >= 1 ==> d * size >= size;
    assert d <= -1 ==> d * size + size <= 0;
  }

  class FileSender {
    const response: Response
    const registry: Registry
    const file: string
    const packetSize: nat
    const buffer: array<char>
    var position: nat
    /** The `read_length` that the callback of the packet in flight has captured. */
    var inFlight: Option<nat>
    /** What the caller's callback was called with. */
    var results: seq<Option<nat>>
    var deleted: bool

    /** While the sender is alive, one of the references to the response is its own. */
    ghost predicate Valid()
      reads this, response
    {
      response.Valid() && (deleted || response.users > 0) && position <= |file| && buffer.Length == packetSize > 0
    }

    constructor (response: Response, registry: Registry, file: string, packetSize: nat)
      requires response.Valid() && response.refs > 0 && packetSize > 0
      modifies registry, response
      ensures Valid() && fresh(buffer)
      ensures this.response == response && this.registry == registry
      ensures this.file == file && this.packetSize == packetSize
      ensures response.View() == Next(old(response.View()), SendQueue.Share)
      ensures position == 0 && inFlight == None && results == [] && !deleted
      ensures registry.aliveConnCount == old(registry.aliveConnCount) + 1
    {
      this.response, this.registry, this.file, this.packetSize := response, registry, file, packetSize;
      position, inFlight, results, deleted := 0, None, [], false;
      buffer := new char[packetSize];
      new;
      response.Share();
      registry.aliveConnCount := registry.aliveConnCount + 1;
    }

    function NextPacketAt(p: nat): string
      requires p <= |file|
    {
      file[p..if packetSize < |file| - p then p + packetSize else |file|]
    }

    function NextPacket(): string
      reads this
      requires position <= |file|
    {
      NextPacketAt(position)
    }

    /** `ifstream::read` and `gcount`: up to a packet, less at the end of the file. */
    method ReadFile() returns (readLength: nat)
      requires Valid()
      modifies this`position, buffer
      ensures Valid() && position == old(position) + readLength
      ensures readLength <= packetSize && buffer[..readLength] == old(NextPacket())
    {
      var packet := NextPacket();
      readLength := |packet|;
      forall i | 0 <= i < readLength {
        buffer[i] := packet[i];
      }
      position := position + readLength;
    }

    /** Sends the next packet, if there is one. */
    method Send()
      requires Valid() && !deleted && response.refs > 0
      modifies this`position, this`inFlight, buffer, response
      ensures Valid() && position == old(position) + |old(NextPacket())|
      ensures var packet := old(NextPacket());
              if packet == "" then inFlight == old(inFlight) && response.View() == old(response.View())
              else inFlight == Some(|packet|) && response.View() == AfterPacket(old(response.View()), packet)
    {
      var readLength := ReadFile();
      if readLength > 0 {
        response.Write(buffer[..readLength]);
        response.Send(true);
        inFlight := Some(readLength);
      }
    }

    /** The destructor: the callback is told of the end, and the reference to the response goes away. */
    method Destroy()
      requires Valid() && !deleted
      modifies this`results, this`deleted, registry, response
      ensures Valid() && response.View() == Next(old(response.View()), SendQueue.Release)
      ensures results == old(results) + [None] && deleted && registry.aliveConnCount == old(registry.aliveConnCount) - 1
    {
      results := results + [None];
      registry.aliveConnCount := registry.aliveConnCount - 1;
      deleted := true;
      response.Release();
    }

    /** The callback of a packet: the next packet after a full one, the end after a short one; an error is
        reported and ends the transfer without deleting the sender. */
    method OnSent(error: Option<nat>)
      requires Valid() && !deleted && response.refs > 0 && inFlight.Some?
      modifies this`position, this`inFlight, this`results, this`deleted, buffer, response, registry
      ensures Valid()
      ensures var packet := old(NextPacket());
              if error.None? && old(inFlight).value == packetSize then
                && position == old(position) + |packet|
                && results == old(results) && !deleted && registry.aliveConnCount == old(registry.aliveConnCount)
                && (if packet == "" then inFlight == None && response.View() == old(response.View())
                    else inFlight == Some(|packet|) && response.View() == AfterPacket(old(response.View()), packet))
              else
                && position == old(position) && inFlight == None && results == old(results) + [error]
                && (if error.None? then
                      && deleted && registry.aliveConnCount == old(registry.aliveConnCount) - 1
                      && response.View() == Next(old(response.View()), SendQueue.Release)
                    else
                      && !deleted && registry.aliveConnCount == old(registry.aliveConnCount)
                      && response.View() == old(response.View()))
    {
      var readLength := inFlight.value;
      inFlight := None;
      if error.None? {
        if readLength == packetSize {
          Send();
        } else {
          Destroy();
        }
      } else {
        results := results + [error];
      }
    }
  }

  /** The response once a packet was written to it and sent. */
  function AfterPacket(s: State, packet: string): State
    requires s.refs > 0
  {
    Next(Next(s, SendQueue.Write(packet)), SendQueue.Send(true))
  }

  /** The network takes the buffer in flight, in pieces of any size. */
  method TransferAll(response: Response)
    requires response.Valid() && response.writing && |response.sendQueue| == 1
    modifies response
    ensures response.Valid() && response.sent == |old(response.sendQueue)[0].data|
    ensures response.View() == old(response.View()).(wire := response.wire, sent := response.sent)
  {
    assert response.sent <= |response.sendQueue[0].data|;
    hide Inv;
    while response.sent < |response.sendQueue[0].data|
      invariant response.Valid() && response.sent <= |old(response.sendQueue)[0].data|
      invariant response.View() == old(response.View()).(wire := response.wire, sent := response.sent)
      decreases |old(response.sendQueue)[0].data| - response.sent
    {
      var n: nat :| 1 <= n <= |response.sendQueue[0].data| - response.sent;
      response.Transfer(n);
    }
  }

  /** The packet in flight is delivered, and the handler calls its callback. */
  method DeliverPacket(response: Response) returns (call: Call)
    requires response.Valid() && Usable(response)
    requires |response.sendQueue| == 1 && response.sendQueue[0].hasCallback && response.streambuf == ""
    modifies response
    ensures response.Valid() && response.wire == response.written && response.refs > 0
    ensures call.error == None && call.id == call.handler == |response.log| - 1 && call.id !in old(response.running)
    ensures response.View() == old(response.View()).(
                queue := [], writing := false, sent := 0, wire := response.wire,
                running := old(response.running) + {call.id}, fired := old(response.fired) + [call])
  {
    Lone(response.View());
    hide Inv, Data;
    TransferAll(response);
    response.OnWritten(None, true);
    call := response.Fire(0);
    QuietWire(response.View());
  }

  /** The only buffer queued is in flight, and was the last one sent. */
  lemma {:induction false} Lone(s: State)
    requires Inv(s) && !s.cancelled && |s.queue| == 1
    ensures s.writing && s.refs > 0 && s.queue[0].id == |s.log| - 1 && |s.log| - 1 !in s.running
  {
  }

  lemma {:induction false} QuietWire(s: State)
    requires Inv(s) && !s.failed && !s.cancelled && s.queue == [] && s.streambuf == ""
    ensures s.wire == s.written
  {
    assert Outstanding(s) == "";
    assert s.wire + "" + "" == s.wire;
  }

  predicate PacketEntry(packets: seq<string>, before: State, log: seq<Entry>, k: nat)
    requires k < |packets| && |before.log| + k < |log|
  {
    var entry := log[|before.log| + k];
    && entry.item.data == (if k == 0 then before.streambuf else "") + packets[k]
    && entry.item.hasCallback && entry.fired == |before.fired| + k
  }

  predicate PacketCall(before: State, fired: seq<Call>, k: nat)
    requires |before.fired| + k < |fired|
  {
    var call := fired[|before.fired| + k];
    call.id == |before.log| + k && call.error == None
  }

  /** The packets were sent in order and one at a time: each is a buffer of its own, behind what was in the
      stream buffer before the first, and each was sent when the callbacks of exactly those before it had been
      called, every one of them with success. */
  ghost predicate PacketsSent(packets: seq<string>, before: State, log: seq<Entry>, fired: seq<Call>) {
    && before.log <= log && |log| == |before.log| + |packets|
    && before.fired <= fired && |fired| <= |before.fired| + |packets|
    && (forall k :: 0 <= k < |packets| ==> PacketEntry(packets, before, log, k))
    && (forall k :: 0 <= k < |fired| - |before.fired| ==> PacketCall(before, fired, k))
  }

  /** The response when the packets up to position `p` of the file were sent to it. */
  ghost predicate SentUpTo(file: string, p: nat, size: nat, packets: seq<string>, before: State, s: State) {
    && p <= |file| && size > 0
    && s.written == before.written + file[..p]
    && packets + Packets(file[p..], size) == Packets(file, size)
    && PacketsSent(packets, before, s.log, s.fired)
    && !s.failed && !s.cancelled && s.ready == []
    && s.streambuf == if packets == [] then before.streambuf else ""
  }

  lemma {:induction false} PacketIsSent(packets: seq<string>, before: State, s: State, packet: string)
    requires PacketsSent(packets, before, s.log, s.fired) && |s.fired| == |before.fired| + |packets| && s.refs > 0
    requires s.streambuf == if packets == [] then before.streambuf else ""
    ensures var t := AfterPacket(s, packet);
            PacketsSent(packets + [packet], before, t.log, t.fired)
  {
    var t := AfterPacket(s, packet);
    forall k: nat | k < |packets| + 1 ensures PacketEntry(packets + [packet], before, t.log, k) {
      assert k < |packets| ==> PacketEntry(packets, before, s.log, k);
    }
    assert t.fired == s.fired;
  }

  lemma {:induction false} PacketIsCalled(
    packets: seq<string>, before: State, log: seq<Entry>, fired: seq<Call>, call: Call)
    requires PacketsSent(packets, before, log, fired) && |fired| == |before.fired| + |packets| - 1
    requires call.id == |log| - 1 && call.error == None
    ensures PacketsSent(packets, before, log, fired + [call])
  {
    forall k: nat | k < |packets| ensures PacketCall(before, fired + [call], k) {
      assert k < |packets| - 1 ==> PacketCall(before, fired, k);
    }
  }

  /** The next packet is sent when the callbacks of all before have been called. */
  lemma {:induction false} NextSent(file: string, p: nat, size: nat, packets: seq<string>, before: State, s: State)
    requires SentUpTo(file, p, size, packets, before, s) && |s.fired| == |before.fired| + |packets|
    requires s.queue == [] && s.refs > 0 && p < |file|
    ensures var q := if size < |file| - p then p + size else |file|;
            var t := AfterPacket(s, file[p..q]);
            && SentUpTo(file, q, size, packets + [file[p..q]], before, t)
            && |t.queue| == 1 && t.queue[0].hasCallback
            && t.fired == s.fired && t.users == s.users && t.running == s.running
  {
    var q := if size < |file| - p then p + size else |file|;
    PacketsFrom(file, p, size);
    PacketIsSent(packets, before, s, file[p..q]);
    hide Packets, PacketsSent;
    Assoc(packets, [file[p..q]], Packets(file[q..], size));
    Assoc(before.written, file[..p], file[p..q]);
  }

  /** Nothing went wrong with the response, and no callback waits. */
  predicate Usable(r: Response)
    reads r
  {
    !r.failed && !r.cancelled && r.ready == []
  }

  /** Between two callbacks: a packet is in flight, and what it says about the rest of the file; or all is
      done. `packets` were sent so far. */
  ghost predicate Sending(sender: FileSender, before: State, packets: seq<string>, alive: int)
    reads sender, sender.response, sender.registry
  {
    var r, file, size := sender.response, sender.file, sender.packetSize;
    && sender.Valid() && SentUpTo(file, sender.position, size, packets, before, r.View())
    && (if sender.inFlight.Some? then
          && |r.sendQueue| == 1 && r.sendQueue[0].hasCallback && !sender.deleted && file != ""
          && packets != [] && |r.fired| == |before.fired| + |packets| - 1
          && 0 < sender.inFlight.value <= size
          && (sender.inFlight.value < size ==> sender.position == |file| && Short(|file|, size) != 0)
          && (sender.inFlight.value == size ==> Short(|file| - sender.position, size) == Short(|file|, size))
        else
          && r.sendQueue == [] && sender.position == |file|
          && (if file != "" then r.wire == r.written else r.View() == before)
          && |r.fired| == |before.fired| + |packets|
          && (sender.deleted <==> Short(|file|, size) != 0))
    && r.users == before.users - (if sender.deleted then 1 else 0) && r.running == before.running
    && sender.results == (if sender.deleted then [None] else [])
    && sender.registry.aliveConnCount == alive - if sender.deleted then 1 else 0
  }

  /** A transfer without errors on a response that nothing else is queued on: the packets of the file are
      sent one at a time, and what was in the stream buffer and then the file are on the wire; the sender is
      deleted, its callback called, its reference dropped and the count of connections restored exactly when
      the length of the file is not a multiple of the packet size. */
  method Deliver(sender: FileSender)
    requires sender.Valid() && sender.position == 0 && sender.inFlight == None
    requires sender.results == [] && !sender.deleted
    requires Usable(sender.response) && sender.response.sendQueue == []
    modifies sender, sender.response, sender.registry, sender.buffer
    ensures sender.Valid() && Usable(sender.response) && sender.response.sendQueue == []
    ensures var packets := Packets(sender.file, sender.packetSize);
            && PacketsSent(packets, old(sender.response.View()), sender.response.log, sender.response.fired)
            && |sender.response.fired| == |old(sender.response.fired)| + |packets|
    ensures sender.response.written == old(sender.response.written) + sender.file
    ensures if sender.file != "" then sender.response.wire == sender.response.written
            else sender.response.View() == old(sender.response.View())
    ensures sender.deleted <==> |sender.file| % sender.packetSize != 0
    ensures sender.results == if sender.deleted then [None] else []
    ensures sender.registry.aliveConnCount == old(sender.registry.aliveConnCount) - if sender.deleted then 1 else 0
    ensures sender.response.users == old(sender.response.users) - if sender.deleted then 1 else 0
    ensures sender.response.running == old(sender.response.running)
  {
    hide Inv, Next, Packets, PacketsSent;
    ghost var file, size, alive := sender.file, sender.packetSize, sender.registry.aliveConnCount;
    ghost var before := sender.response.View();
    ghost var packets := FirstPacket(file, 0, size);
    NothingUnderWay(before);
    Start(file, size, before);
    sender.Send();
    while sender.inFlight.Some?
      invariant Sending(sender, before, packets, alive)
      decreases |file| - sender.position, sender.inFlight.Some?
    {
      packets := Round(sender, before, packets, alive);
    }
    NoPackets(size);
    assert file[|file|..] == "" && file[..|file|] == file && packets + [] == packets;
  }

  /** Nothing is sent of an empty file; the first packet of any other one. */
  lemma {:induction false} Start(file: string, size: nat, before: State)
    requires size > 0 && before.queue == [] && before.refs > 0
    requires !before.failed && !before.cancelled && before.ready == []
    ensures file == "" ==> SentUpTo(file, 0, size, [], before, before) && Short(0, size) == 0
    ensures var q := if size < |file| then size else |file|;
            var t := AfterPacket(before, file[..q]);
            file != "" ==>
              && SentUpTo(file, q, size, [file[..q]], before, t)
              && |t.queue| == 1 && t.queue[0].hasCallback && t.fired == before.fired && t.users == before.users
              && t.running == before.running
    ensures |file| < size ==> Short(|file|, size) == |file|
    ensures |file| >= size ==> Short(|file| - size, size) == Short(|file|, size)
  {
    assert file[0..] == file && file[..0] == "" && before.written + "" == before.written;
    assert [] + Packets(file, size) == Packets(file, size);
    Progress(file, 0, size);
    if file != "" {
      NextSent(file, 0, size, [], before, before);
    }
  }

  lemma {:induction false} NoPackets(size: nat)
    requires size > 0
    ensures Packets("", size) == []
  {
  }

  /** One packet: it is delivered, and its callback sends the next one or ends the transfer. */
  method Round(sender: FileSender, ghost before: State, ghost packets: seq<string>, ghost alive: int)
    returns (ghost after: seq<string>)
    requires Sending(sender, before, packets, alive) && sender.inFlight.Some?
    modifies sender, sender.response, sender.registry, sender.buffer
    ensures Sending(sender, before, after, alive)
    ensures sender.position >= old(sender.position)
    ensures sender.position == old(sender.position) ==> sender.inFlight.None?
  {
    hide Inv, Packets, Short, PacketsSent, Next, Enabled, AfterPacket;
    ghost var p, file, size := sender.position, sender.file, sender.packetSize;
    var call := DeliverPacket(sender.response);
    PacketIsCalled(packets, before, sender.response.log, old(sender.response.fired), call);
    ghost var s := sender.response.View();
    after := packets;
    if sender.inFlight.value == size {
      Progress(file, p, size);
      if p < |file| {
        NextSent(file, p, size, packets, before, s);
        after := packets + [sender.NextPacketAt(p)];
      }
    }
    Released(s);
    sender.OnSent(call.error);
    Returned(sender.response.View(), call.handler);
    sender.response.Return(call.handler);
  }

  lemma {:induction false} Released(s: State)
    requires s.users > 0
    ensures Next(s, SendQueue.Release) == s.(users := s.users - 1, refs := s.refs - 1)
  {
  }

  lemma {:induction false} Returned(s: State, handler: nat)
    requires handler in s.running && s.ready == []
    ensures Enabled(s, SendQueue.Return(handler))
    ensures Next(s, SendQueue.Return(handler)) == s.(running := s.running - {handler}, refs := s.refs - 1)
  {
  }

  ghost function FirstPacket(file: string, p: nat, size: nat): seq<string>
    requires p <= |file|
  {
    if p == |file| then [] else [file[p..if size < |file| - p then p + size else |file|]]
  }

  lemma {:induction false} PacketsFrom(file: string, p: nat, size: nat)
    requires p <= |file| && size > 0
    ensures var q := if size < |file| - p then p + size else |file|;
            && Packets(file[p..], size) == FirstPacket(file, p, size) + Packets(file[q..], size)
            && file[..p] + file[p..q] == file[..q]
  {
    if size < |file| - p {
      assert file[p + size..] == file[p..][size..] && file[p..p + size] == file[p..][..size];
    } else {
      assert file[p..|file|] == file[p..] && file[|file|..] == "";
    }
  }

  /** What is left after the next packet, modulo the size. */
  lemma {:induction false} Progress(file: string, p: nat, size: nat)
    requires p <= |file| && size > 0
    ensures var left := |file| - p;
            && (left >= size ==> Short(left - size, size) == Short(left, size))
            && (left < size ==> Short(left, size) == left)
  {
    if |file| - p >= size {
      RemainderStep(|file| - p, size);
    }
  }
}
