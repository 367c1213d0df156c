/** The send queue of a server response: one write in flight, the others queued behind it, and the rest
    of the stream sent when the last reference to the response goes away. */
module SendQueue {
  import opened Text

  /** A queued buffer. `id` numbers the calls of `send`, `end` is the length of all that had been
      written when it was sent. */
  datatype Item = Item(id: nat, data: string, hasCallback: bool, end: nat)

  /** A callback and what it is called with; no error is None. `until` is the length of the wire when
      the handler collected it, `handler` the buffer whose write that handler belongs to. */
  datatype Call = Call(id: nat, error: Option<nat>, end: nat, until: nat, handler: nat)

  /** A call of `send` as it is remembered: its buffer, and how many callbacks had been called before. */
  datatype Entry = Entry(item: Item, fired: nat)

  /** `Finishing` is the write of `send_on_delete`. */
  datatype Phase = Open | Finishing | Finished

  /** A response; the bytes its socket has taken; the callbacks that handlers have collected and not yet
      called (`ready`), the handlers that have not returned (`running`) and the callbacks called so far
      (`fired`); the references that are held outside of handlers (`users`) and the reference count, which
      includes those that handlers hold; and the history: what was ever written, every call of `send`, and
      whether a write failed or a handler was cancelled. */
  datatype State = State(
    streambuf: string, queue: seq<Item>, writing: bool, sent: nat, wire: string,
    ready: seq<Call>, running: set<nat>, fired: seq<Call>, users: nat, refs: int, phase: Phase,
    written: string, log: seq<Entry>, failed: bool, cancelled: bool)

  const INITIAL := State("", [], false, 0, "", [], {}, [], 1, 1, Open, "", [], false, false)

  function Data(queue: seq<Item>): string {
    if queue == [] then "" else queue[0].data + Data(queue[1..])
  }

  /** All that `send` took, in order. */
  function LogData(log: seq<Entry>): string {
    if log == [] then "" else LogData(log[..|log| - 1]) + log[|log| - 1].item.data
  }

  /** The callbacks of the queued buffers, each with the same error. */
  function ErrorCalls(queue: seq<Item>, error: nat, until: nat, handler: nat): seq<Call> {
    if queue == [] then []
    else
      (if queue[0].hasCallback then [Call(queue[0].id, Some(error), queue[0].end, until, handler)] else []) +
      ErrorCalls(queue[1..], error, until, handler)
  }

  function SuccessCall(item: Item, until: nat): seq<Call> {
    if item.hasCallback then [Call(item.id, None, item.end, until, item.id)] else []
  }

  // ----- steps

  datatype Step =
    | Write(data: string)
    | Send(hasCallback: bool)
    | Transfer(n: nat)
    | Complete
    | Fail(error: nat)
    | Cancel
    | Fire(index: nat)
    | Return(handler: nat)
    | Share
    | Release
    | Delete
    | TransferLast(n: nat)
    | FinishLast(failed: bool)

  /** When a step can be taken. Writing, sending and sharing need a reference, be it that of a handler;
      the socket transfers parts of the buffer it was given and completes when it has all of it; handlers run side
      by side, but each calls its callbacks in the order in which it has collected them, and returns when it has
      called them; the deleter runs when the reference count is zero. */
  predicate Enabled(s: State, step: Step) {
    match step
    case Write(_) => s.refs > 0
    case Send(_) => s.refs > 0
    case Transfer(n) => s.writing && s.queue != [] && s.sent + n <= |s.queue[0].data|
    case Complete => s.writing && s.queue != [] && s.sent == |s.queue[0].data|
    case Fail(_) => s.writing && s.queue != []
    case Cancel => s.writing
    case Fire(i) => i < |s.ready| && forall j :: 0 <= j < i ==> s.ready[j].handler != s.ready[i].handler
    case Return(h) => h in s.running && forall c :: c in s.ready ==> c.handler != h
    case Share => s.refs > 0
    case Release => s.users > 0
    case Delete => s.refs == 0 && s.phase == Open
    case TransferLast(n) => s.phase == Finishing && n <= |s.streambuf|
    case FinishLast(failed) => s.phase == Finishing && (s.streambuf == "" || failed)
  }

  /** A write that is started holds a reference until its handler has returned. */
  function AfterSend(s: State, hasCallback: bool): State {
    var item := Item(|s.log|, s.streambuf, hasCallback, |s.written|);
    s.(streambuf := "", queue := s.queue + [item], log := s.log + [Entry(item, |s.fired|)],
       writing := s.writing || s.queue == [], refs := s.refs + if s.queue == [] then 1 else 0)
  }

  function AfterComplete(s: State): State
    requires s.queue != []
  {
    var more := |s.queue| > 1;
    s.(queue := s.queue[1..], writing := more, sent := 0, refs := s.refs + if more then 1 else 0,
       running := s.running + {s.queue[0].id}, ready := s.ready + SuccessCall(s.queue[0], |s.wire|))
  }

  function AfterFail(s: State, error: nat): State
    requires s.queue != []
  {
    s.(queue := [], writing := false, sent := 0, failed := true,
       running := s.running + {s.queue[0].id}, ready := s.ready + ErrorCalls(s.queue, error, |s.wire|, s.queue[0].id))
  }

  function Next(s: State, step: Step): State
    requires Enabled(s, step)
  {
    match step
    case Write(data) => s.(streambuf := s.streambuf + data, written := s.written + data)
    case Send(hasCallback) => AfterSend(s, hasCallback)
    case Transfer(n) => s.(wire := s.wire + s.queue[0].data[s.sent..s.sent + n], sent := s.sent + n)
    case Complete => AfterComplete(s)
    case Fail(error) => AfterFail(s, error)
    case Cancel => s.(writing := false, cancelled := true, refs := s.refs - 1)
    case Fire(i) => s.(ready := s.ready[..i] + s.ready[i + 1..], fired := s.fired + [s.ready[i]])
    case Return(h) => s.(running := s.running - {h}, refs := s.refs - 1)
    case Share => s.(users := s.users + 1, refs := s.refs + 1)
    case Release => s.(users := s.users - 1, refs := s.refs - 1)
    case Delete => s.(phase := Finishing)
    case TransferLast(n) => s.(wire := s.wire + s.streambuf[..n], streambuf := s.streambuf[n..])
    case FinishLast(failed) => s.(phase := Finished, failed := s.failed || failed)
  }

  /** The state after the steps, each enabled in its turn. */
  ghost predicate Run(states: seq<State>, steps: seq<Step>) {
    && |states| == |steps| + 1 && states[0] == INITIAL
    && forall i :: 0 <= i < |steps| ==> Enabled(states[i], steps[i]) && states[i + 1] == Next(states[i], steps[i])
  }

  // ----- what every run keeps

  /** The reference count: one for every reference outside, for the write in flight and for every handler
      that has not returned; a callback that waits is waiting for such a handler. */
  predicate Counted(s: State) {
    && s.refs == s.users + (if s.writing then 1 else 0) + |s.running|
    && (forall c :: c in s.ready ==> c.handler in s.running)
    && (forall h :: h in s.running ==> h < |s.log| - |s.queue|)
    && (s.phase != Open ==> s.refs == 0)
  }

  /** One write is in flight exactly when a buffer is queued, unless a handler was cancelled. */
  predicate OneWrite(s: State) {
    && (s.writing ==> s.queue != [] && s.sent <= |s.queue[0].data|)
    && (!s.cancelled ==> (s.writing <==> s.queue != []))
    && (s.queue == [] ==> s.sent == 0 && !s.writing)
  }

  /** The bytes still to be transferred of the queued buffers, the one in flight first. */
  function Outstanding(s: State): string {
    if s.sent <= |Data(s.queue)| then Data(s.queue)[s.sent..] else ""
  }

  /** Nothing is lost, duplicated or reordered. */
  predicate Conserved(s: State) {
    !s.failed && !s.cancelled ==> s.sent <= |Data(s.queue)| && s.wire + Outstanding(s) + s.streambuf == s.written
  }

  /** The queue holds the latest calls of `send`. */
  predicate Logged(s: State) {
    && |s.queue| <= |s.log|
    && (forall i :: 0 <= i < |s.log| ==> s.log[i].item.id == i)
    && (forall i :: 0 <= i < |s.queue| ==> s.queue[i] == s.log[|s.log| - |s.queue| + i].item)
  }

  /** How often the callback of the call `id` of `send` is among the calls. */
  function Count(calls: seq<Call>, id: nat): nat {
    if calls == [] then 0 else (if calls[0].id == id then 1 else 0) + Count(calls[1..], id)
  }

  predicate HasCallback(s: State, id: nat) {
    id < |s.log| && s.log[id].item.hasCallback
  }

  predicate CalledFor(s: State, id: nat) {
    Count(s.ready, id) + Count(s.fired, id) == if HasCallback(s, id) && id < |s.log| - |s.queue| then 1 else 0
  }

  /** The callback of every call of `send` that has left the queue was collected exactly once. */
  ghost predicate CalledOnce(s: State) {
    forall id: nat :: CalledFor(s, id)
  }

  /** Every buffer ends where the history says, when the first one begins at `start`. */
  predicate EndsFrom(queue: seq<Item>, start: int) {
    queue == [] || (queue[0].end == start + |queue[0].data| && EndsFrom(queue[1..], queue[0].end))
  }

  predicate EndsRight(s: State) {
    !s.failed && !s.cancelled ==> EndsFrom(s.queue, |s.wire| - s.sent)
  }

  predicate Reported(s: State, c: Call) {
    c in s.ready || c in s.fired
  }

  /** Without errors, every callback is told of a success, and its buffer is on the wire with all before. */
  predicate SuccessIsTrue(s: State) {
    !s.failed && !s.cancelled ==>
      && (forall c :: c in s.ready ==> c.error.None? && c.end <= |s.wire|)
      && (forall c :: c in s.fired ==> c.error.None? && c.end <= |s.wire|)
  }

  /** A success says that the buffer of this very call is on the wire. */
  predicate OwnBytes(s: State, c: Call) {
    c.error.None? ==>
      && c.id < |s.log|
      && var data := s.log[c.id].item.data;
         |data| <= c.until <= |s.wire| && s.wire[c.until - |data|..c.until] == data
  }

  /** The wire ends in what was transferred of the buffer in flight. */
  predicate WireEndsInFlight(s: State) {
    s.writing && s.queue != [] && s.sent <= |s.queue[0].data| ==>
      s.sent <= |s.wire| && s.wire[|s.wire| - s.sent..] == s.queue[0].data[..s.sent]
  }

  /** Whatever fails, a success is true of the buffer itself. */
  predicate SuccessIsOwn(s: State) {
    && WireEndsInFlight(s)
    && (forall c :: c in s.ready ==> OwnBytes(s, c))
    && (forall c :: c in s.fired ==> OwnBytes(s, c))
  }

  /** Callbacks of one handler are in the order of their calls of `send`. */
  predicate InOrder(calls: seq<Call>) {
    forall i, j :: 0 <= i < j < |calls| && calls[i].handler == calls[j].handler ==> calls[i].id < calls[j].id
  }

  predicate Ordered(s: State) {
    && InOrder(s.fired + s.ready)
    && (forall c :: c in s.fired + s.ready ==> c.handler < |s.log| - |s.queue|)
  }

  /** What was sent and what is in the stream buffer are all that was written, errors or not. */
  predicate SentIsWritten(s: State) {
    s.phase == Open ==> LogData(s.log) + s.streambuf == s.written
  }

  ghost predicate Inv(s: State) {
    && Counted(s) && OneWrite(s) && Conserved(s) && Logged(s) && CalledOnce(s) && EndsRight(s)
    && SuccessIsTrue(s) && SuccessIsOwn(s) && SentIsWritten(s) && Ordered(s)
  }

  lemma {:induction false} DataAppend(a: seq<Item>, b: seq<Item>)
    ensures Data(a + b) == Data(a) + Data(b)
  {
    if a == [] {
      assert a + b == b;
    } else {
      assert (a + b)[1..] == a[1..] + b;
      DataAppend(a[1..], b);
    }
  }

  lemma {:induction false} CountAppend(a: seq<Call>, b: seq<Call>, id: nat)
    ensures Count(a + b, id) == Count(a, id) + Count(b, id)
  {
    if a == [] {
      assert a + b == b;
    } else {
      assert (a + b)[1..] == a[1..] + b;
      CountAppend(a[1..], b, id);
    }
  }

  lemma {:induction false} EndsAppend(queue: seq<Item>, item: Item, start: int)
    requires EndsFrom(queue, start) && item.end == start + |Data(queue)| + |item.data|
    ensures EndsFrom(queue + [item], start)
  {
    if queue == [] {
      assert queue + [item] == [item];
    } else {
      assert (queue + [item])[1..] == queue[1..] + [item];
      EndsAppend(queue[1..], item, queue[0].end);
    }
  }

  lemma {:induction false} ErrorCallsOf(queue: seq<Item>, error: nat, until: nat, handler: nat)
    ensures forall c :: c in ErrorCalls(queue, error, until, handler) <==>
              exists k :: 0 <= k < |queue| && queue[k].hasCallback &&
                c == Call(queue[k].id, Some(error), queue[k].end, until, handler)
  {
    if queue != [] {
      ErrorCallsOf(queue[1..], error, until, handler);
      assert forall k :: 0 < k < |queue| ==> queue[k] == queue[1..][k - 1];
    }
  }

  lemma {:induction false} StepCounted(s: State, step: Step)
    requires Counted(s) && OneWrite(s) && Logged(s) && Enabled(s, step)
    ensures Counted(Next(s, step))
  {
    hide Data, LogData, ErrorCalls;
    var t := Next(s, step);
    if step.Fail? {
      ErrorCallsOf(s.queue, step.error, |s.wire|, s.queue[0].id);
    }
    if step.Fail? || step.Complete? {
      assert |t.running| == |s.running| + 1;
    }
    if step.Return? {
      assert |t.running| == |s.running| - 1;
    }
  }

  lemma {:induction false} StepOneWrite(s: State, step: Step)
    requires Counted(s) && OneWrite(s) && Enabled(s, step)
    ensures OneWrite(Next(s, step))
  {
    hide Data, LogData, ErrorCalls, SuccessCall;
  }

  lemma {:induction false} SendConserves(s: State, item: Item)
    requires s.sent <= |Data(s.queue)| && s.wire + Outstanding(s) + s.streambuf == s.written && item.data == s.streambuf
    ensures var d := Data(s.queue + [item]);
            s.sent <= |d| && s.wire + d[s.sent..] + "" == s.written
  {
    DataAppend(s.queue, [item]);
    assert Data([item]) == item.data + "" == s.streambuf;
    assert (Data(s.queue) + s.streambuf)[s.sent..] == Outstanding(s) + s.streambuf;
    Assoc(s.wire, Outstanding(s), s.streambuf);
  }

  lemma {:induction false} TransferConserves(wire: string, data: string, sent: nat, n: nat, rest: string)
    requires sent + n <= |data|
    ensures wire + data[sent..sent + n] + (data + rest)[sent + n..] == wire + (data + rest)[sent..]
  {
    assert (data + rest)[sent..] == data[sent..sent + n] + (data + rest)[sent + n..];
  }

  lemma {:induction false} LastConserves(wire: string, buffer: string, n: nat)
    requires n <= |buffer|
    ensures wire + buffer[..n] + "" + buffer[n..] == wire + "" + buffer
  {
    assert buffer == buffer[..n] + buffer[n..];
  }

  lemma {:induction false} StepConserved(s: State, step: Step)
    requires Counted(s) && OneWrite(s) && Conserved(s) && Enabled(s, step)
    ensures Conserved(Next(s, step))
  {
    hide ErrorCalls, SuccessCall, LogData;
    var t := Next(s, step);
    if !t.failed && !t.cancelled {
      match step
      case Write(data) => Assoc(s.wire + Outstanding(s), s.streambuf, data);
      case Send(_) => SendConserves(s, t.queue[|s.queue|]);
      case Transfer(n) => TransferConserves(s.wire, s.queue[0].data, s.sent, n, Data(s.queue[1..]));
      case Complete => assert Outstanding(s) == Data(s.queue[1..]);
      case TransferLast(n) => LastConserves(s.wire, s.streambuf, n);
      case _ =>
    }
  }

  lemma {:induction false} StepLogged(s: State, step: Step)
    requires OneWrite(s) && Logged(s) && Enabled(s, step)
    ensures Logged(Next(s, step))
  {
    hide Data, LogData, ErrorCalls, SuccessCall;
  }

  lemma {:induction false} ErrorCount(queue: seq<Item>, first: nat, error: nat, until: nat, handler: nat, id: nat)
    requires forall i :: 0 <= i < |queue| ==> queue[i].id == first + i
    ensures Count(ErrorCalls(queue, error, until, handler), id) ==
            if first <= id < first + |queue| && queue[id - first].hasCallback then 1 else 0
  {
    if queue != [] {
      var call := if queue[0].hasCallback then [Call(queue[0].id, Some(error), queue[0].end, until, handler)] else [];
      assert queue[0].id == first;
      forall i | 0 <= i < |queue[1..]| ensures queue[1..][i].id == first + 1 + i {
        assert queue[1..][i] == queue[i + 1];
      }
      ErrorCount(queue[1..], first + 1, error, until, handler, id);
      CountAppend(call, ErrorCalls(queue[1..], error, until, handler), id);
    }
  }

  /** Calling a waiting callback moves it from one side of the count to the other. */
  lemma {:induction false} FireCount(s: State, i: nat, id: nat)
    requires CalledFor(s, id) && Enabled(s, Fire(i))
    ensures CalledFor(Next(s, Fire(i)), id)
  {
    hide Count, Data, LogData, ErrorCalls, SuccessCall;
    var before, call, after := s.ready[..i], s.ready[i], s.ready[i + 1..];
    CountAppend(before, after, id);
    CountAppend(before, [call] + after, id);
    CountAppend([call], after, id);
    CountAppend(s.fired, [call], id);
    assert s.ready == before + ([call] + after);
  }

  lemma {:induction false} CompleteCount(s: State, id: nat)
    requires Logged(s) && CalledFor(s, id) && Enabled(s, Complete)
    ensures CalledFor(AfterComplete(s), id)
  {
    CountAppend(s.ready, SuccessCall(s.queue[0], |s.wire|), id);
  }

  lemma {:induction false} FailCount(s: State, error: nat, id: nat)
    requires Logged(s) && CalledFor(s, id) && s.queue != []
    ensures CalledFor(AfterFail(s, error), id)
  {
    CountAppend(s.ready, ErrorCalls(s.queue, error, |s.wire|, s.queue[0].id), id);
    ErrorCount(s.queue, |s.log| - |s.queue|, error, |s.wire|, s.queue[0].id, id);
    if |s.log| - |s.queue| <= id < |s.log| {
      assert s.queue[id - (|s.log| - |s.queue|)] == s.log[id].item;
    }
  }

  /** The other steps collect and call nothing. */
  lemma {:induction false} OtherCount(s: State, step: Step, id: nat)
    requires Logged(s) && CalledFor(s, id) && Enabled(s, step)
    requires !step.Complete? && !step.Fail? && !step.Fire?
    ensures CalledFor(Next(s, step), id)
  {
    hide Count, Data, LogData, ErrorCalls, SuccessCall;
  }

  lemma {:induction false} StepCalledOnce(s: State, step: Step)
    requires Logged(s) && CalledOnce(s) && Enabled(s, step)
    ensures CalledOnce(Next(s, step))
  {
    hide Count, Data, LogData, ErrorCalls, SuccessCall, CalledFor, Logged, AfterSend, AfterComplete, AfterFail;
    forall id: nat ensures CalledFor(Next(s, step), id) {
      match step
      case Complete => CompleteCount(s, id);
      case Fail(error) => FailCount(s, error, id);
      case Fire(i) => FireCount(s, i, id);
      case _ => OtherCount(s, step, id);
    }
  }

  lemma {:induction false} StepEndsRight(s: State, step: Step)
    requires Counted(s) && OneWrite(s) && Conserved(s) && EndsRight(s) && Enabled(s, step)
    ensures EndsRight(Next(s, step))
  {
    hide ErrorCalls, SuccessCall, LogData;
    if step.Send? && !s.failed && !s.cancelled {
      EndsAppend(s.queue, Item(|s.log|, s.streambuf, step.hasCallback, |s.written|), |s.wire| - s.sent);
    }
  }

  lemma {:induction false} StepSuccessIsTrue(s: State, step: Step)
    requires OneWrite(s) && EndsRight(s) && SuccessIsTrue(s) && Enabled(s, step)
    ensures SuccessIsTrue(Next(s, step))
  {
    hide Data, LogData, ErrorCalls;
  }

  /** More bytes on the wire and more calls of `send` take nothing away from a success. */
  lemma {:induction false} OwnBytesStay(s: State, t: State, c: Call)
    requires OwnBytes(s, c) && s.wire <= t.wire && s.log <= t.log
    ensures OwnBytes(t, c)
  {
    if c.error.None? {
      var n := |s.log[c.id].item.data|;
      assert t.log[c.id] == s.log[c.id];
      assert t.wire[c.until - n..c.until] == t.wire[..|s.wire|][c.until - n..c.until];
    }
  }

  lemma {:induction false} OnlyGrows(s: State, step: Step)
    requires Enabled(s, step)
    ensures s.wire <= Next(s, step).wire && s.log <= Next(s, step).log && s.written <= Next(s, step).written
    ensures forall c :: Reported(s, c) ==> Reported(Next(s, step), c)
    ensures s.failed ==> Next(s, step).failed
    ensures s.cancelled ==> Next(s, step).cancelled
  {
    hide Data, LogData, ErrorCalls, SuccessCall;
    if step.Fire? {
      var i := step.index;
      assert s.ready == s.ready[..i] + [s.ready[i]] + s.ready[i + 1..];
    }
  }

  /** The calls a step collects. */
  lemma {:induction false} NewCalls(s: State, step: Step, c: Call)
    requires Enabled(s, step) && Reported(Next(s, step), c) && !Reported(s, c)
    ensures step.Complete? || step.Fail?
    ensures step.Complete? ==> c in SuccessCall(s.queue[0], |s.wire|)
    ensures step.Fail? ==> c.error == Some(step.error)
  {
    hide Data, LogData, SuccessCall, ErrorCalls;
    if step.Fail? {
      ErrorCallsOf(s.queue, step.error, |s.wire|, s.queue[0].id);
    }
  }

  lemma {:induction false} InFlightSuffix(wire: string, data: string, sent: nat, n: nat)
    requires sent <= |wire| && sent + n <= |data| && wire[|wire| - sent..] == data[..sent]
    ensures var after := wire + data[sent..sent + n];
            after[|after| - (sent + n)..] == data[..sent + n]
  {
    var after := wire + data[sent..sent + n];
    assert after[|after| - (sent + n)..] == wire[|wire| - sent..] + data[sent..sent + n];
  }

  lemma {:induction false} StepWireEnds(s: State, step: Step)
    requires OneWrite(s) && WireEndsInFlight(s) && Enabled(s, step) && Counted(s)
    ensures WireEndsInFlight(Next(s, step))
  {
    hide Data, LogData, SuccessCall, ErrorCalls;
    if step.Transfer? {
      InFlightSuffix(s.wire, s.queue[0].data, s.sent, step.n);
    }
  }

  lemma {:induction false} CompleteOwnBytes(s: State, c: Call)
    requires OneWrite(s) && Logged(s) && WireEndsInFlight(s) && Enabled(s, Complete)
    requires c in SuccessCall(s.queue[0], |s.wire|)
    ensures OwnBytes(Next(s, Complete), c)
  {
    hide Data, LogData;
    var data := s.queue[0].data;
    assert s.log[c.id].item == s.queue[0];
    assert s.wire[|s.wire| - |data|..|s.wire|] == data[..|data|] == data;
  }

  lemma {:induction false} StepSuccessIsOwn(s: State, step: Step)
    requires Counted(s) && OneWrite(s) && Logged(s) && SuccessIsOwn(s) && Enabled(s, step)
    ensures SuccessIsOwn(Next(s, step))
  {
    var t := Next(s, step);
    StepWireEnds(s, step);
    OnlyGrows(s, step);
    hide OwnBytes, Next, Enabled, Counted, OneWrite, Logged;
    forall c | Reported(t, c) ensures OwnBytes(t, c) {
      if Reported(s, c) {
        OwnBytesStay(s, t, c);
      } else {
        NewCalls(s, step, c);
        if step.Complete? {
          CompleteOwnBytes(s, c);
        } else {
          ErrorIsOwn(t, c);
        }
      }
    }
  }

  lemma {:induction false} ErrorIsOwn(s: State, c: Call)
    requires c.error.Some?
    ensures OwnBytes(s, c)
  {
  }

  lemma {:induction false} StepSentIsWritten(s: State, step: Step)
    requires Counted(s) && SentIsWritten(s) && Enabled(s, step)
    ensures SentIsWritten(Next(s, step))
  {
    hide Data, SuccessCall, ErrorCalls;
    var t := Next(s, step);
    match step
    case Write(data) => Assoc(LogData(s.log), s.streambuf, data);
    case Send(_) =>
      assert t.log[..|s.log|] == s.log;
      assert LogData(t.log) == LogData(s.log) + s.streambuf;
      assert LogData(t.log) + "" == LogData(t.log);
    case _ =>
  }

  lemma {:induction false} AppendInOrder(calls: seq<Call>, more: seq<Call>, handler: nat)
    requires InOrder(calls) && InOrder(more)
    requires (forall c :: c in calls ==> c.handler < handler) && forall c :: c in more ==> c.handler == handler
    ensures InOrder(calls + more) && forall c :: c in calls + more ==> c.handler <= handler
  {
    var all, n := calls + more, |calls|;
    assert forall i :: 0 <= i < |all| ==> all[i] == if i < n then calls[i] else more[i - n];
    assert forall i :: 0 <= i < n ==> calls[i] in calls;
    assert forall i :: 0 <= i < |more| ==> more[i] in more;
  }

  /** Calling the first callback of a handler ahead of those of other handlers. */
  lemma {:induction false} FireInOrder(fired: seq<Call>, ready: seq<Call>, i: nat)
    requires InOrder(fired + ready) && i < |ready|
    requires forall j :: 0 <= j < i ==> ready[j].handler != ready[i].handler
    ensures var after := (fired + [ready[i]]) + (ready[..i] + ready[i + 1..]);
            InOrder(after) && forall c :: c in after ==> c in fired + ready
  {
    var all, n := fired + ready, |fired|;
    var after := (fired + [ready[i]]) + (ready[..i] + ready[i + 1..]);
    forall k | 0 <= k < |after| ensures after[k] == all[Before(n, i, k)] {
    }
    forall k, l | 0 <= k < l < |after| && after[k].handler == after[l].handler ensures after[k].id < after[l].id {
      assert all[n + i] == ready[i];
      assert n < l <= n + i ==> all[l - 1] == ready[l - 1 - n];
    }
  }

  /** Where the call at place `k` was before. */
  function Before(n: nat, i: nat, k: nat): nat {
    if k < n || k > n + i then k else if k == n then n + i else k - 1
  }

  lemma {:induction false} ErrorsInOrder(queue: seq<Item>, first: nat, error: nat, until: nat, handler: nat)
    requires forall i :: 0 <= i < |queue| ==> queue[i].id == first + i
    ensures var calls := ErrorCalls(queue, error, until, handler);
            InOrder(calls) && forall c :: c in calls ==> c.handler == handler && c.id >= first
  {
    if queue != [] {
      assert queue[0].id == first;
      assert forall i :: 0 <= i < |queue[1..]| ==> queue[1..][i] == queue[i + 1];
      ErrorsInOrder(queue[1..], first + 1, error, until, handler);
      var more := ErrorCalls(queue[1..], error, until, handler);
      assert forall i :: 0 <= i < |more| ==> more[i] in more;
    }
  }

  lemma {:induction false} StepOrdered(s: State, step: Step)
    requires Logged(s) && Ordered(s) && Enabled(s, step)
    ensures Ordered(Next(s, step))
  {
    hide InOrder, Data, LogData;
    var h := |s.log| - |s.queue|;
    match step
    case Complete =>
      assert s.queue[0].id == h;
      OneInOrder(SuccessCall(s.queue[0], |s.wire|));
      AppendInOrder(s.fired + s.ready, SuccessCall(s.queue[0], |s.wire|), h);
      Assoc(s.fired, s.ready, SuccessCall(s.queue[0], |s.wire|));
    case Fail(error) =>
      ErrorsInOrder(s.queue, h, error, |s.wire|, h);
      AppendInOrder(s.fired + s.ready, ErrorCalls(s.queue, error, |s.wire|, h), h);
      Assoc(s.fired, s.ready, ErrorCalls(s.queue, error, |s.wire|, h));
    case Fire(i) => FireInOrder(s.fired, s.ready, i);
    case _ =>
  }

  lemma {:induction false} OneInOrder(calls: seq<Call>)
    requires |calls| <= 1
    ensures InOrder(calls)
  {
  }

  lemma {:induction false} StepKeepsInv(s: State, step: Step)
    requires Inv(s) && Enabled(s, step)
    ensures Inv(Next(s, step))
  {
    hide Counted, OneWrite, Conserved, Logged, CalledOnce, EndsRight, SuccessIsTrue, SuccessIsOwn, SentIsWritten,
      Ordered, Next, Enabled;
    StepCounted(s, step);
    StepOneWrite(s, step);
    StepConserved(s, step);
    StepLogged(s, step);
    StepCalledOnce(s, step);
    StepEndsRight(s, step);
    StepSuccessIsTrue(s, step);
    StepSuccessIsOwn(s, step);
    StepSentIsWritten(s, step);
    StepOrdered(s, step);
  }

  lemma {:induction false} RunKeepsInv(states: seq<State>, steps: seq<Step>, i: nat)
    requires Run(states, steps) && i < |states|
    ensures Inv(states[i])
  {
    if i == 0 {
      assert Inv(INITIAL);
    } else {
      hide Inv, Next, Enabled;
      RunKeepsInv(states, steps, i - 1);
      StepKeepsInv(states[i - 1], steps[i - 1]);
    }
  }

  lemma {:induction false} RunGrows(states: seq<State>, steps: seq<Step>, i: nat, j: nat)
    requires Run(states, steps) && i <= j < |states|
    ensures states[i].wire <= states[j].wire && states[i].log <= states[j].log && states[i].written <= states[j].written
    ensures forall c :: Reported(states[i], c) ==> Reported(states[j], c)
  {
    hide Next, Enabled, Reported;
    if i < j {
      RunGrows(states, steps, i, j - 1);
      OnlyGrows(states[j - 1], steps[j - 1]);
    }
  }

  // ----- the steps of the methods

  lemma {:induction false} SendKeepsInv(s: State, hasCallback: bool)
    requires Inv(s) && s.refs > 0
    ensures Inv(AfterSend(s, hasCallback)) && Next(s, Send(hasCallback)) == AfterSend(s, hasCallback)
    ensures s.queue == [] ==> s.sent == 0 && !s.writing
  {
    hide Counted, Conserved, Logged, CalledOnce, EndsRight, SuccessIsTrue, SuccessIsOwn, SentIsWritten;
    StepKeepsInv(s, Send(hasCallback));
  }

  /** The step that the completion of a write amounts to; no lock on the scope cancels the handler. */
  function Completion(error: Option<nat>, lock: bool): Step {
    if !lock then Cancel else if error.Some? then Fail(error.value) else Complete
  }

  function AfterCompletion(s: State, error: Option<nat>, lock: bool): State
    requires Enabled(s, Completion(error, lock))
  {
    if !lock then s.(writing := false, cancelled := true, refs := s.refs - 1)
    else if error.Some? then AfterFail(s, error.value)
    else AfterComplete(s)
  }

  lemma {:induction false} CompletionKeepsInv(s: State, error: Option<nat>, lock: bool)
    requires Inv(s) && Enabled(s, Completion(error, lock))
    ensures var t := AfterCompletion(s, error, lock);
            Inv(t) && Next(s, Completion(error, lock)) == t
    ensures lock ==> s.queue != []
  {
    hide Inv;
    StepKeepsInv(s, Completion(error, lock));
  }

  // ----- the guarantees

  /** On every run without errors: the wire, what is in flight, the queue and the stream buffer are, in
      this order, all that was ever written; and a write is in flight exactly when the queue is not empty. */
  lemma {:induction false} BytesConserved(states: seq<State>, steps: seq<Step>, i: nat)
    requires Run(states, steps) && i < |states| && !states[i].failed && !states[i].cancelled
    ensures var s := states[i];
            && s.wire + Outstanding(s) + s.streambuf == s.written
            && (s.writing <==> s.queue != [])
  {
    RunKeepsInv(states, steps, i);
  }

  /** A write in flight and a callback that waits hold a reference. */
  lemma {:induction false} NothingUnderWay(s: State)
    requires Inv(s)
    ensures s.refs >= s.users
    ensures s.refs == 0 ==> !s.writing && s.ready == [] && (!s.cancelled ==> s.queue == [])
  {
    hide Conserved, Logged, CalledOnce, EndsRight, SuccessIsTrue, SuccessIsOwn, SentIsWritten;
    if s.ready != [] {
      assert s.ready[0] in s.ready;
      assert s.ready[0].handler in s.running;
    }
  }

  /** While a write is in flight or a collected callback has still to be called, the handler keeps the
      response alive. */
  lemma {:induction false} HandlersKeepAlive(states: seq<State>, steps: seq<Step>, i: nat)
    requires Run(states, steps) && i < |states|
    ensures states[i].refs >= 0
    ensures states[i].writing || states[i].ready != [] ==> states[i].refs > 0
  {
    hide Next, Enabled, Inv;
    RunKeepsInv(states, steps, i);
    NothingUnderWay(states[i]);
  }

  /** So the deleter, which runs when the reference count is zero, finds nothing in flight and no callback
      waiting, and its write never overlaps another one; without errors it finds an empty queue, and all that
      was written is on the wire in order when it is done. */
  lemma {:induction false} LastWriteIsAlone(states: seq<State>, steps: seq<Step>, i: nat)
    requires Run(states, steps) && i < |states|
    requires states[i].phase != Open || Enabled(states[i], Delete)
    ensures !states[i].writing && states[i].ready == []
    ensures !states[i].cancelled ==> states[i].queue == []
    ensures !states[i].failed && !states[i].cancelled ==> states[i].wire + states[i].streambuf == states[i].written
    ensures i > 0 && steps[i - 1] == FinishLast(false) && !states[i].failed && !states[i].cancelled ==>
              states[i].wire == states[i].written
  {
    RunKeepsInv(states, steps, i);
    var s := states[i];
    NothingUnderWay(s);
    assert s.wire + "" == s.wire;
    if !s.failed && !s.cancelled {
      assert Outstanding(s) == "";
    }
  }

  /** Every callback is called at most once; and once no buffer is queued and no callback is waiting, the
      callback of every `send` was called exactly once. */
  lemma {:induction false} CallbacksOnce(states: seq<State>, steps: seq<Step>, i: nat, id: nat)
    requires Run(states, steps) && i < |states|
    ensures Count(states[i].fired, id) <= 1
    ensures states[i].queue == [] && states[i].ready == [] ==>
              Count(states[i].fired, id) == if HasCallback(states[i], id) then 1 else 0
  {
    hide Enabled, Next;
    RunKeepsInv(states, steps, i);
    assert CalledFor(states[i], id);
  }

  /** Nothing is ever stuck: a write in flight goes on or completes, and can fail or be cancelled; a collected
      callback can be called, and a handler that has called its own returns; a reference can be dropped; without
      references the deleter runs; and its write goes on or ends. */
  lemma {:induction false} NothingIsStuck(states: seq<State>, steps: seq<Step>, i: nat, error: nat, handler: nat)
    requires Run(states, steps) && i < |states|
    ensures var s := states[i];
            && (s.writing ==>
                  && s.queue != [] && Enabled(s, Fail(error)) && Enabled(s, Cancel)
                  && (s.sent < |s.queue[0].data| ==> Enabled(s, Transfer(1)))
                  && (s.sent == |s.queue[0].data| ==> Enabled(s, Complete)))
            && (s.ready != [] ==> Enabled(s, Fire(0)))
            && (handler in s.running && (forall c :: c in s.ready ==> c.handler != handler) ==>
                  Enabled(s, Return(handler)))
            && (s.users > 0 ==> Enabled(s, Release) && Enabled(s, Share) && Enabled(s, Send(true)))
            && (s.refs == 0 && s.phase == Open ==> Enabled(s, Delete))
            && (s.phase == Finishing ==>
                  && Enabled(s, FinishLast(true))
                  && Enabled(s, if s.streambuf == "" then FinishLast(false) else TransferLast(1)))
  {
    hide Conserved, Logged, CalledOnce, EndsRight, SuccessIsTrue, SuccessIsOwn, SentIsWritten, Ordered;
    RunKeepsInv(states, steps, i);
    NothingUnderWay(states[i]);
  }

  /** Of two callbacks of one handler the one that was sent first is called first. */
  lemma {:induction false} CalledInOrder(states: seq<State>, steps: seq<Step>, i: nat, k: nat, l: nat)
    requires Run(states, steps) && i < |states| && k < l < |states[i].fired|
    requires states[i].fired[k].handler == states[i].fired[l].handler
    ensures states[i].fired[k].id < states[i].fired[l].id
  {
    hide Enabled, Next, Counted, OneWrite, Conserved, Logged, CalledOnce, EndsRight, SuccessIsTrue, SuccessIsOwn,
      SentIsWritten;
    RunKeepsInv(states, steps, i);
    var calls := states[i].fired + states[i].ready;
    assert calls[k] == states[i].fired[k] && calls[l] == states[i].fired[l];
  }

  /** A success that was collected before anything failed is a success of all that was written up to and
      including its own buffer: from then on those bytes are on the wire, whatever fails or is cancelled
      before the callback is called or after. */
  lemma {:induction false} SuccessMeansDelivered(states: seq<State>, steps: seq<Step>, i: nat, j: nat, c: Call)
    requires Run(states, steps) && i <= j < |states| && !states[i].failed && !states[i].cancelled
    requires Reported(states[i], c)
    ensures Reported(states[j], c)
    ensures var s := states[j];
            && c.error.None? && c.end <= |s.written| && c.end <= |s.wire|
            && s.written[..c.end] == s.wire[..c.end]
  {
    hide Enabled, Next, Outstanding, CalledOnce, EndsRight, SuccessIsOwn, SentIsWritten, OwnBytes;
    RunKeepsInv(states, steps, i);
    RunGrows(states, steps, i, j);
    var s, t := states[i], states[j];
    Assoc(s.wire, Outstanding(s), s.streambuf);
    assert t.wire[..c.end] == s.wire[..c.end] && t.written[..c.end] == s.written[..c.end];
  }

  /** A success reported at any other time, such as for a `send` after a write has failed, is a success of its
      own buffer: its bytes are on the wire in one piece, while those of failed ones may be missing before. */
  lemma {:induction false} SuccessMeansOwnBytes(states: seq<State>, steps: seq<Step>, i: nat, c: Call)
    requires Run(states, steps) && i < |states| && Reported(states[i], c) && c.error.None?
    ensures c.id < |states[i].log|
    ensures var data := states[i].log[c.id].item.data;
            |data| <= c.until <= |states[i].wire| && states[i].wire[c.until - |data|..c.until] == data
  {
    hide Enabled, Next, Counted, OneWrite, Conserved, Logged, CalledOnce, EndsRight, SuccessIsTrue, SentIsWritten;
    RunKeepsInv(states, steps, i);
  }

  /** An error empties the queue and hands the same error to the callback of every queued buffer. */
  lemma {:induction false} ErrorReachesAll(s: State, error: nat, i: nat)
    requires Inv(s) && Enabled(s, Fail(error)) && i < |s.queue|
    ensures var t := Next(s, Fail(error));
            && t.queue == [] && !t.writing && s.ready <= t.ready
            && (s.queue[i].hasCallback <==> exists c :: c in t.ready[|s.ready|..] && c.id == s.queue[i].id)
            && forall c :: c in t.ready[|s.ready|..] ==> c.error == Some(error)
  {
    hide Counted, Conserved, CalledOnce, EndsRight, SuccessIsTrue, SuccessIsOwn, SentIsWritten;
    var t := Next(s, Fail(error));
    var h := s.queue[0].id;
    assert t.ready[|s.ready|..] == ErrorCalls(s.queue, error, |s.wire|, h);
    ErrorCallsOf(s.queue, error, |s.wire|, h);
    if s.queue[i].hasCallback {
      assert Call(s.queue[i].id, Some(error), s.queue[i].end, |s.wire|, h) in t.ready[|s.ready|..];
    }
  }
}
