/** The client's requests as a protocol: any number of requests share the pool, and their handlers run
    in any order. Connections and requests are numbered in the order in which they are made. */
module RequestProtocol {

  /** What is known of a connection; `open` tells whether its socket was ever connected. */
  datatype Flags = Flags(inUse: bool, eventStream: bool, attemptReconnect: bool, open: bool)

  /** The one operation a request is waiting for. `Body(n)` has `n` more reads before it at the most;
      `ToEnd` waits for the end of the stream; `Erased` has read to the end and taken its connection out of
      the pool, and calls back next; `Streaming` waits for the next event; a `Done` request waits for nothing. */
  datatype Stage =
    | Resolving | Connecting | Writing | ReadingHeader | Body(left: nat) | ToEnd | Erased | Streaming | Done

  /** A request: its connection, what it waits for, how often its callback was called, how often it
      reconnected, and whether its response turned out to be an event stream. */
  datatype Request = Request(connection: nat, stage: Stage, calls: nat, reconnects: nat, streamed: bool)

  datatype State = State(pool: set<nat>, flags: map<nat, Flags>, requests: map<nat, Request>)

  /** What goes on when a header was read. */
  datatype Content = Reads(n: nat) | UntilClose | Events

  /** The steps: `get_connection` for a new request; an operation that succeeds; a header that was read; one of
      the reads of a body; the connection leaving the pool at the end of a body that runs to the end of the
      stream; an event; the session callback for the last time, without or with an error; the reconnect; and
      `stop`. `kept` is the pool after the loop in the callback; `atHeader` marks the error of reading a header,
      other than an aborted operation. */
  datatype Step =
    | Start(request: nat, connection: nat)
    | Advance(request: nat)
    | HeaderRead(request: nat, content: Content, kept: set<nat>)
    | BodyRead(request: nat)
    | Erase(request: nat)
    | Event(request: nat, kept: set<nat>)
    | Finish(request: nat, failed: bool, atHeader: bool, kept: set<nat>)
    | Reconnect(request: nat, connection: nat)
    | Stop

  /** Which connections the loop in the session callback keeps: all that are in use, and exactly one of the
      idle ones if there are any, but not the one that failed. */
  predicate Pruned<C(==)>(before: set<C>, inUse: set<C>, failed: set<C>, after: set<C>) {
    && after <= before && after !! failed
    && before * inUse - failed <= after
    && (before - inUse - failed == {} ==> after <= inUse)
    && (before - inUse - failed != {} ==> exists c :: c in after && after - inUse == {c})
  }

  function InUse(s: State): set<nat> {
    set c | c in s.flags && s.flags[c].inUse
  }

  /** Nothing to wait for. */
  predicate Unfinished(s: State, r: nat) {
    r in s.requests && s.requests[r].stage != Done
  }

  predicate Uses(s: State, r: nat, c: nat) {
    Unfinished(s, r) && s.requests[r].connection == c
  }

  predicate Idle(s: State, c: nat) {
    c in s.pool && c in s.flags && !s.flags[c].inUse
  }

  /** A new request gets an idle connection, or a new one when there is none. */
  ghost predicate Eligible(s: State, c: nat) {
    if exists i :: i in s.pool && Idle(s, i) then Idle(s, c) else c !in s.flags
  }

  /** A header that cannot be read leads to a reconnect. */
  predicate WillReconnect(s: State, r: nat)
    requires r in s.requests
  {
    var c := s.requests[r].connection;
    c in s.flags && s.flags[c].attemptReconnect && c in s.pool
  }

  /** The flags after `in_use = false`, which an event stream is spared. */
  function Released(s: State, r: nat): map<nat, Flags>
    requires r in s.requests && s.requests[r].connection in s.flags
  {
    var c := s.requests[r].connection;
    if s.flags[c].eventStream then s.flags else s.flags[c := s.flags[c].(inUse := false)]
  }

  function AfterSuccess(stage: Stage): Stage {
    if stage == Resolving then Connecting else if stage == Connecting then Writing else ReadingHeader
  }

  ghost predicate Enabled(s: State, step: Step) {
    match step
    case Start(r, c) => r !in s.requests && Eligible(s, c)
    case Advance(r) =>
      && Unfinished(s, r) && s.requests[r].stage in {Resolving, Connecting, Writing}
      && s.requests[r].connection in s.flags
    case HeaderRead(r, content, kept) =>
      && Unfinished(s, r) && s.requests[r].stage == ReadingHeader && s.requests[r].connection in s.flags
      && (content.Events? ==> Pruned(s.pool, InUse(s), {}, kept))
    case BodyRead(r) => Unfinished(s, r) && s.requests[r].stage.Body? && s.requests[r].stage.left > 0
    case Erase(r) => Unfinished(s, r) && s.requests[r].stage == ToEnd
    case Event(r, kept) => Unfinished(s, r) && s.requests[r].stage == Streaming && Pruned(s.pool, InUse(s), {}, kept)
    case Finish(r, failed, atHeader, kept) =>
      && Unfinished(s, r) && s.requests[r].connection in s.flags
      && (if failed then s.requests[r].stage != Erased
          else s.requests[r].stage.Body? || s.requests[r].stage == ToEnd || s.requests[r].stage == Erased)
      && (atHeader ==> failed && s.requests[r].stage == ReadingHeader && !WillReconnect(s, r))
      && Pruned(s.pool, InUse(s.(flags := Released(s, r))), if failed then {s.requests[r].connection} else {}, kept)
    case Reconnect(r, c) =>
      Unfinished(s, r) && s.requests[r].stage == ReadingHeader && WillReconnect(s, r) && c !in s.flags
    case Stop => true
  }

  ghost function Next(s: State, step: Step): State
    requires Enabled(s, step)
  {
    match step
    case Start(r, c) =>
      var open := c in s.flags && s.flags[c].open;
      s.(pool := s.pool + {c},
         flags := s.flags[c := Flags(true, c in s.flags && s.flags[c].eventStream, true, open)],
         requests := s.requests[r := Request(c, if open then Writing else Resolving, 0, 0, false)])
    case Advance(r) =>
      var q := s.requests[r];
      var f := s.flags[q.connection];
      s.(flags := s.flags[q.connection := f.(open := f.open || q.stage == Connecting)],
         requests := s.requests[r := q.(stage := AfterSuccess(q.stage))])
    case HeaderRead(r, content, kept) =>
      var q := s.requests[r];
      var f := s.flags[q.connection].(attemptReconnect := true);
      (match content
       case Reads(n) => s.(flags := s.flags[q.connection := f], requests := s.requests[r := q.(stage := Body(n))])
       case UntilClose => s.(flags := s.flags[q.connection := f], requests := s.requests[r := q.(stage := ToEnd)])
       case Events =>
         State(kept, s.flags[q.connection := f.(eventStream := true)],
           s.requests[r := q.(stage := Streaming, calls := q.calls + 1, streamed := true)]))
    case BodyRead(r) =>
      var q := s.requests[r];
      s.(requests := s.requests[r := q.(stage := Body(q.stage.left - 1))])
    case Erase(r) =>
      var q := s.requests[r];
      s.(pool := s.pool - {q.connection}, requests := s.requests[r := q.(stage := Erased)])
    case Event(r, kept) =>
      var q := s.requests[r];
      s.(pool := kept, requests := s.requests[r := q.(calls := q.calls + 1)])
    case Finish(r, failed, _, kept) =>
      var q := s.requests[r];
      State(kept, Released(s, r), s.requests[r := q.(stage := Done, calls := q.calls + 1)])
    case Reconnect(r, c) =>
      var q := s.requests[r];
      State(s.pool - {q.connection} + {c}, s.flags[c := Flags(true, false, false, false)],
        s.requests[r := q.(connection := c, stage := Resolving, reconnects := q.reconnects + 1)])
    case Stop => s.(pool := {})
  }

  const INITIAL := State({}, map[], map[])

  ghost predicate Run(states: seq<State>, steps: seq<Step>) {
    && |states| == |steps| + 1 && states[0] == INITIAL
    && forall i :: 0 <= i < |steps| ==> Enabled(states[i], steps[i]) && states[i + 1] == Next(states[i], steps[i])
  }

  // ----- what every run keeps

  /** The connection of an unfinished request is in use, and no other request has it. */
  ghost predicate Exclusive(s: State) {
    && (forall r :: r in s.requests ==> s.requests[r].connection in s.flags)
    && (forall r, c :: Uses(s, r, c) ==> c in s.flags && s.flags[c].inUse)
    && (forall r, q, c :: Uses(s, r, c) && Uses(s, q, c) ==> r == q)
  }

  /** Every pooled connection that is in use is the connection of an unfinished request. */
  ghost predicate Owned(s: State) {
    && (forall c :: c in s.pool ==> c in s.flags)
    && forall c :: c in s.pool && s.flags[c].inUse ==> exists r :: Uses(s, r, c)
  }

  ghost predicate OneIdle(s: State) {
    forall c, d :: Idle(s, c) && Idle(s, d) ==> c == d
  }

  /** Only the connection of a request that is streaming is marked as an event stream. */
  ghost predicate StreamsMarked(s: State) {
    && (forall r, c :: Uses(s, r, c) && c in s.flags ==>
          (s.flags[c].eventStream <==> s.requests[r].stage == Streaming))
    && forall c :: Idle(s, c) ==> !s.flags[c].eventStream
  }

  predicate BeforeHeader(stage: Stage) {
    stage == Resolving || stage == Connecting || stage == Writing || stage == ReadingHeader
  }

  /** How often the callback was called, and why there is no second reconnect. */
  predicate CountedOne(s: State, r: nat)
    requires r in s.requests
  {
    var q := s.requests[r];
    && (!q.streamed ==> q.calls == (if q.stage == Done then 1 else 0) && q.stage != Streaming)
    && q.reconnects <= 1
    && (BeforeHeader(q.stage) || q.stage.Body? || q.stage == ToEnd || q.stage == Erased ==> !q.streamed)
    && (q.reconnects == 1 && BeforeHeader(q.stage) ==>
          q.connection in s.flags && !s.flags[q.connection].attemptReconnect)
  }

  ghost predicate Counted(s: State) {
    forall r :: r in s.requests ==> CountedOne(s, r)
  }

  /** A request that is past connecting has a connected socket, and so has an idle connection. */
  ghost predicate Opened(s: State) {
    && (forall r, c :: Uses(s, r, c) && c in s.flags && s.requests[r].stage !in {Resolving, Connecting} ==>
          s.flags[c].open)
    && forall c :: Idle(s, c) ==> s.flags[c].open
  }

  ghost predicate Inv(s: State) {
    Exclusive(s) && Owned(s) && OneIdle(s) && StreamsMarked(s) && Counted(s) && Opened(s)
  }

  /** A step gives a connection at most to the request that takes it. */
  lemma {:induction false} UsesBefore(s: State, step: Step)
    requires Enabled(s, step)
    ensures forall r, c :: Uses(Next(s, step), r, c) ==>
              Uses(s, r, c) || ((step.Start? || step.Reconnect?) && r == step.request && c == step.connection)
  {
    hide Pruned;
  }

  lemma {:induction false} StepExclusive(s: State, step: Step)
    requires Inv(s) && Enabled(s, step)
    ensures Exclusive(Next(s, step))
  {
    hide Counted, Pruned, Owned, StreamsMarked, Opened;
    UsesBefore(s, step);
    assert !step.Start? && !step.Stop? ==> Uses(s, step.request, s.requests[step.request].connection);
  }

  /** The pool only grows by the connection that a request takes. */
  lemma {:induction false} KeptOnly(s: State, step: Step)
    requires Enabled(s, step)
    ensures Next(s, step).pool <= s.pool + if step.Start? || step.Reconnect? then {step.connection} else {}
    ensures step.Finish? && step.failed ==> s.requests[step.request].connection !in Next(s, step).pool
  {
  }

  lemma {:induction false} StepOwned(s: State, step: Step)
    requires Inv(s) && Enabled(s, step)
    ensures Owned(Next(s, step))
  {
    hide Counted, Opened, OneIdle, Pruned;
    KeptOnly(s, step);
    var t := Next(s, step);
    forall c | c in t.pool && c in t.flags && t.flags[c].inUse ensures exists r :: Uses(t, r, c) {
      if (step.Start? || step.Reconnect?) && c == step.connection {
        assert Uses(t, step.request, c);
      } else {
        var r :| Uses(s, r, c);
        assert Uses(t, r, c);
      }
    }
  }

  lemma {:induction false} OneKept(
    before: set<nat>, inUse: set<nat>, failed: set<nat>, after: set<nat>, c: nat, d: nat)
    requires Pruned(before, inUse, failed, after) && c in after && d in after && c !in inUse && d !in inUse
    ensures c == d
  {
    var e :| e in after && after - inUse == {e};
    assert c in after - inUse && d in after - inUse;
  }

  /** Only the session callback makes a connection idle. */
  lemma {:induction false} NoNewIdle(s: State, step: Step)
    requires Enabled(s, step) && !step.Finish?
    ensures forall c :: Idle(Next(s, step), c) ==> Idle(s, c)
  {
    hide Pruned;
    assert step.HeaderRead? && step.content.Events? ==> step.kept <= s.pool by {
      if step.HeaderRead? && step.content.Events? {
        KeptBefore(s.pool, InUse(s), {}, step.kept);
      }
    }
    assert step.Event? ==> step.kept <= s.pool by {
      if step.Event? {
        KeptBefore(s.pool, InUse(s), {}, step.kept);
      }
    }
  }

  lemma {:induction false} KeptBefore(before: set<nat>, inUse: set<nat>, failed: set<nat>, after: set<nat>)
    requires Pruned(before, inUse, failed, after)
    ensures after <= before && after !! failed
  {
  }

  lemma {:induction false} StepOneIdle(s: State, step: Step)
    requires Inv(s) && Enabled(s, step)
    ensures OneIdle(Next(s, step))
  {
    hide Counted, Owned, StreamsMarked, Pruned, Opened;
    var t := Next(s, step);
    if step.Finish? {
      var r := step.request;
      var failed := if step.failed then {s.requests[r].connection} else {};
      forall c, d | Idle(t, c) && Idle(t, d) ensures c == d {
        OneKept(s.pool, InUse(s.(flags := Released(s, r))), failed, step.kept, c, d);
      }
    } else {
      NoNewIdle(s, step);
    }
  }

  lemma {:induction false} StepStreamsMarked(s: State, step: Step)
    requires Inv(s) && Enabled(s, step)
    ensures StreamsMarked(Next(s, step))
  {
    hide Counted, Owned, Pruned, Opened;
    var t := Next(s, step);
    UsesBefore(s, step);
    assert !step.Start? && !step.Stop? ==> Uses(s, step.request, s.requests[step.request].connection);
    if step.Finish? {
      KeptBefore(s.pool, InUse(s.(flags := Released(s, step.request))),
        if step.failed then {s.requests[step.request].connection} else {}, step.kept);
      forall c | Idle(t, c) && c != s.requests[step.request].connection ensures Idle(s, c) {
      }
    } else {
      NoNewIdle(s, step);
    }
  }

  lemma {:induction false} OwnCounted(s: State, step: Step)
    requires Exclusive(s) && Counted(s) && Enabled(s, step) && !step.Stop?
    ensures step.request in Next(s, step).requests && CountedOne(Next(s, step), step.request)
  {
    hide Owned, OneIdle, StreamsMarked, Pruned;
    if !step.Start? {
      assert CountedOne(s, step.request);
    }
  }

  lemma {:induction false} OthersStay(s: State, step: Step, r: nat)
    requires Enabled(s, step) && r in Next(s, step).requests && (step.Stop? || r != step.request)
    ensures r in s.requests && Next(s, step).requests[r] == s.requests[r]
  {
    hide Pruned;
  }

  lemma {:induction false} StepCounted(s: State, step: Step)
    requires Inv(s) && Enabled(s, step)
    ensures Counted(Next(s, step))
  {
    hide Owned, OneIdle, StreamsMarked, Opened, Enabled, Next;
    OthersKeepFlag(s, step);
    var t := Next(s, step);
    forall r | r in t.requests ensures CountedOne(t, r) {
      if !step.Stop? && r == step.request {
        OwnCounted(s, step);
      } else {
        OthersStay(s, step, r);
        assert CountedOne(s, r);
        assert Unfinished(s, r) ==> Uses(s, r, s.requests[r].connection);
      }
    }
  }

  /** No step of another request sets the reconnect flag of the connection a request is using. */
  lemma {:induction false} OthersKeepFlag(s: State, step: Step)
    requires Inv(s) && Enabled(s, step)
    ensures forall r, c :: Uses(s, r, c) && c in s.flags && (step.Stop? || step.request != r) ==>
              c in Next(s, step).flags && Next(s, step).flags[c].attemptReconnect == s.flags[c].attemptReconnect
  {
    hide Owned, OneIdle, StreamsMarked, Opened, Counted, Pruned;
    assert !step.Start? && !step.Stop? ==> Uses(s, step.request, s.requests[step.request].connection);
  }

  lemma {:induction false} StepOpened(s: State, step: Step)
    requires Inv(s) && Enabled(s, step)
    ensures Opened(Next(s, step))
  {
    hide Counted, Owned, OneIdle, StreamsMarked, Pruned;
    var t := Next(s, step);
    UsesBefore(s, step);
    assert !step.Start? && !step.Stop? ==> Uses(s, step.request, s.requests[step.request].connection);
    if step.Finish? {
      KeptBefore(s.pool, InUse(s.(flags := Released(s, step.request))),
        if step.failed then {s.requests[step.request].connection} else {}, step.kept);
      forall c | Idle(t, c) && c != s.requests[step.request].connection ensures Idle(s, c) {
      }
    } else {
      NoNewIdle(s, step);
    }
  }

  lemma {:induction false} StepKeepsInv(s: State, step: Step)
    requires Inv(s) && Enabled(s, step)
    ensures Inv(Next(s, step))
  {
    hide Enabled, Next, Exclusive, Owned, OneIdle, StreamsMarked, Counted, Opened;
    StepExclusive(s, step);
    StepOwned(s, step);
    StepOneIdle(s, step);
    StepStreamsMarked(s, step);
    StepCounted(s, step);
    StepOpened(s, step);
  }

  lemma {:induction false} RunKeepsInv(states: seq<State>, steps: seq<Step>, i: nat)
    requires Run(states, steps) && i < |states|
    ensures Inv(states[i])
  {
    if i > 0 {
      hide Enabled, Next, Inv;
      RunKeepsInv(states, steps, i - 1);
      StepKeepsInv(states[i - 1], steps[i - 1]);
    }
  }

  // ----- the guarantees

  /** Ownership: in every reachable state no two connections of the pool are idle, and a pooled connection
      that is not idle is used by exactly one unfinished request. */
  lemma {:induction false} PoolOwnership(states: seq<State>, steps: seq<Step>, i: nat, c: nat, d: nat)
    requires Run(states, steps) && i < |states| && c in states[i].pool
    ensures var s := states[i];
            && (c != d ==> !(Idle(s, c) && Idle(s, d)))
            && (!Idle(s, c) ==> exists r :: Uses(s, r, c) && forall q :: Uses(s, q, c) ==> q == r)
  {
    RunKeepsInv(states, steps, i);
    var s := states[i];
    if !Idle(s, c) {
      var r :| Uses(s, r, c);
    }
  }

  /** Every request whose response is no event stream has called back once when it is finished and not before,
      and it has reconnected at most once. */
  lemma {:induction false} CallsBackOnce(states: seq<State>, steps: seq<Step>, i: nat, r: nat)
    requires Run(states, steps) && i < |states| && r in states[i].requests && !states[i].requests[r].streamed
    ensures var q := states[i].requests[r];
            q.calls == (if q.stage == Done then 1 else 0) && q.reconnects <= 1
  {
    RunKeepsInv(states, steps, i);
  }

  /** A request is written only to a connection whose socket was connected. A new connection, for a new request or
      a reconnect, is resolved and connected first; one that was kept is connected and written to at once. */
  lemma {:induction false} ConnectedBeforeWritten(states: seq<State>, steps: seq<Step>, i: nat, r: nat)
    requires Run(states, steps) && i < |states| && Unfinished(states[i], r)
    ensures var s, q := states[i], states[i].requests[r];
            q.connection in s.flags && (q.stage != Resolving && q.stage != Connecting ==> s.flags[q.connection].open)
    ensures i < |steps| && ((steps[i].Start? && steps[i].connection !in states[i].flags) || steps[i].Reconnect?) ==>
              && states[i + 1].requests[steps[i].request].stage == Resolving
              && !states[i + 1].flags[steps[i].connection].open
    ensures i < |steps| && steps[i].Start? && steps[i].connection in states[i].flags ==>
              && states[i + 1].requests[steps[i].request].stage == Writing
              && states[i + 1].flags[steps[i].connection].open
  {
    hide Pruned, Owned, OneIdle, StreamsMarked, Counted;
    RunKeepsInv(states, steps, i);
    assert Uses(states[i], r, states[i].requests[r].connection);
  }

  /** A socket is connected by nothing but the success of a connect, which follows that of a resolve; then the
      request is written, and then the header read. */
  lemma {:induction false} OnlyConnectingOpens(s: State, step: Step, c: nat)
    requires Inv(s) && Enabled(s, step)
    ensures c in s.flags && !s.flags[c].open && c in Next(s, step).flags && Next(s, step).flags[c].open ==>
              step.Advance? && s.requests[step.request].stage == Connecting && s.requests[step.request].connection == c
    ensures step.Advance? ==>
              var before, after := s.requests[step.request].stage, Next(s, step).requests[step.request].stage;
              && (before == Resolving ==> after == Connecting) && (before == Connecting ==> after == Writing)
              && (before == Writing ==> after == ReadingHeader)
  {
    hide Pruned, Owned, OneIdle, StreamsMarked, Counted, Opened;
    assert !step.Start? && !step.Stop? ==> Uses(s, step.request, s.requests[step.request].connection);
  }

  /** Persistent connections: when a request ends without an error on a pooled connection, an idle connection stays
      in the pool; and as long as one is there, a new request takes it and makes no other. */
  lemma {:induction false} ConnectionIsKept(states: seq<State>, steps: seq<Step>, i: nat)
    requires Run(states, steps) && i < |steps|
    ensures var s, t, step := states[i], states[i + 1], steps[i];
            && (step.Finish? && !step.failed && s.requests[step.request].connection in s.pool ==>
                  exists c :: Idle(t, c))
            && (step.Start? && (exists c :: Idle(s, c)) ==> Idle(s, step.connection) && t.pool == s.pool)
  {
    hide Owned, OneIdle, Counted, Opened;
    RunKeepsInv(states, steps, i);
    var s, t, step := states[i], states[i + 1], steps[i];
    if step.Finish? && !step.failed && s.requests[step.request].connection in s.pool {
      var c := s.requests[step.request].connection;
      assert Uses(s, step.request, c);
      var inUse := InUse(s.(flags := Released(s, step.request)));
      assert c in s.pool - inUse - {};
      var d :| d in step.kept && step.kept - inUse == {d};
      assert d in step.kept - inUse;
      assert d in t.pool && d in t.flags && Idle(t, d) by {
        assert d in s.pool;
        PooledAreKnown(states, steps, i, d);
      }
    } else if step.Start? {
      assert (exists c :: Idle(s, c)) ==> exists c :: c in s.pool && Idle(s, c);
      assert Idle(s, step.connection) ==> s.pool + {step.connection} == s.pool;
    }
  }

  lemma {:induction false} PooledAreKnown(states: seq<State>, steps: seq<Step>, i: nat, c: nat)
    requires Run(states, steps) && i < |states| && c in states[i].pool
    ensures c in states[i].flags
  {
    hide Exclusive, OneIdle, Counted, Opened, StreamsMarked, Enabled, Next;
    RunKeepsInv(states, steps, i);
  }

  /** `stop` empties the pool, and leaves what is under way to its own end. */
  lemma {:induction false} StopEmptiesPool(s: State)
    ensures Enabled(s, Stop) && Next(s, Stop).pool == {}
    ensures Next(s, Stop).flags == s.flags && Next(s, Stop).requests == s.requests
    ensures forall r :: r in s.requests ==> !WillReconnect(Next(s, Stop), r)
  {
  }

  /** What a request still has before it: first the operations up to the end of the header, then the
      reads of the body. */
  function Ahead(q: Request): (nat, nat) {
    var again := if q.reconnects == 0 then 4 else 0;
    match q.stage
    case Resolving => (again + 5, 0)
    case Connecting => (again + 4, 0)
    case Writing => (again + 3, 0)
    case ReadingHeader => (again + 2, 0)
    case Body(n) => (1, n)
    case ToEnd => (1, 1)
    case Erased => (1, 0)
    case Streaming => (1, 0)
    case Done => (0, 0)
  }

  predicate Less(a: (nat, nat), b: (nat, nat)) {
    a.0 < b.0 || (a.0 == b.0 && a.1 < b.1)
  }

  /** Every completed operation of a request, except that of an event stream, brings it nearer to its
      callback; no step of another request takes it back. So a request whose operations complete calls
      back after finitely many of them. */
  lemma {:induction false} NearerToCallback(states: seq<State>, steps: seq<Step>, i: nat, r: nat)
    requires Run(states, steps) && i < |steps| && Unfinished(states[i], r)
    ensures var q, p := states[i].requests[r], states[i + 1].requests;
            && r in p
            && (steps[i].Stop? || steps[i].request != r ==> p[r] == q)
            && (!steps[i].Stop? && steps[i].request == r && !steps[i].Event? ==> Less(Ahead(p[r]), Ahead(q)))
  {
    hide Inv, Enabled, Next, Less, Ahead, Counted;
    RunKeepsInv(states, steps, i);
    if steps[i].Stop? || steps[i].request != r {
      OthersRemain(states[i], steps[i], r);
    } else if !steps[i].Event? {
      OwnIsNearer(states[i], steps[i], r);
    } else {
      EventRemains(states[i], steps[i]);
    }
  }

  lemma {:induction false} OthersRemain(s: State, step: Step, r: nat)
    requires Enabled(s, step) && r in s.requests && (step.Stop? || r != step.request)
    ensures r in Next(s, step).requests && Next(s, step).requests[r] == s.requests[r]
  {
    hide Pruned;
  }

  lemma {:induction false} EventRemains(s: State, step: Step)
    requires Enabled(s, step) && step.Event?
    ensures step.request in Next(s, step).requests
  {
    hide Pruned;
  }

  lemma {:induction false} OwnIsNearer(s: State, step: Step, r: nat)
    requires Inv(s) && Enabled(s, step) && Unfinished(s, r) && !step.Stop? && !step.Event? && step.request == r
    ensures r in Next(s, step).requests && Less(Ahead(Next(s, step).requests[r]), Ahead(s.requests[r]))
  {
    hide Pruned, Owned, OneIdle, StreamsMarked, Exclusive, Opened;
    assert CountedOne(s, r);
  }

  lemma {:induction false} KeptExists(before: set<nat>, inUse: set<nat>, failed: set<nat>) returns (kept: set<nat>)
    ensures Pruned(before, inUse, failed, kept)
  {
    kept := before * inUse - failed;
    if before - inUse - failed != {} {
      var c :| c in before - inUse - failed;
      kept := kept + {c};
      assert kept - inUse == {c};
    }
  }

  /** There is always a way on: for a request that is not finished there is a step of its success, and if it
      waits for an operation, one of its failure; a failure leads to the callback unless it leads to the one
      reconnect. */
  lemma {:induction false} AlwaysAWayOn(states: seq<State>, steps: seq<Step>, i: nat, r: nat, connection: nat)
    returns (success: Step, failure: Step)
    requires Run(states, steps) && i < |states| && Unfinished(states[i], r) && connection !in states[i].flags
    ensures Enabled(states[i], success) && !success.Stop? && success.request == r
    ensures success.Finish? ==> !success.failed
    ensures states[i].requests[r].stage != Erased ==>
              && Enabled(states[i], failure) && (failure.Finish? || failure.Reconnect?) && failure.request == r
              && (failure.Finish? ==> failure.failed)
    ensures failure.Reconnect? ==> states[i].requests[r].reconnects == 0
  {
    RunKeepsInv(states, steps, i);
    var s := states[i];
    var q := s.requests[r];
    hide Pruned, Owned, OneIdle, StreamsMarked, Opened;
    assert Uses(s, r, q.connection);
    var released := InUse(s.(flags := Released(s, r)));
    var kept := KeptExists(s.pool, released, {});
    var keptEvent := KeptExists(s.pool, InUse(s), {});
    var keptFailed := KeptExists(s.pool, released, {q.connection});
    success :=
      if q.stage == ReadingHeader then HeaderRead(r, Reads(0), {})
      else if q.stage == Streaming then Event(r, keptEvent)
      else if BeforeHeader(q.stage) then Advance(r)
      else Finish(r, false, false, kept);
    failure :=
      if q.stage == ReadingHeader && WillReconnect(s, r) then Reconnect(r, connection)
      else Finish(r, true, q.stage == ReadingHeader, keptFailed);
  }
}
