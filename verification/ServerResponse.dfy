/** The server's `Response` object: its methods take the steps of the send queue. */
module ServerResponse {
  import opened Text
  import opened SendQueue

  lemma {:induction false} InitialInv()
    ensures Inv(INITIAL)
  {
  }

  class Response {
    // the fields of the source
    var streambuf: string
    var sendQueue: seq<Item>

    // the socket, the handlers and the references to this object
    var writing: bool
    var sent: nat
    var wire: string
    var ready: seq<Call>
    var running: set<nat>
    var fired: seq<Call>
    var users: nat
    var refs: int
    var phase: Phase

    // the history
    var written: string
    var log: seq<Entry>
    var failed: bool
    var cancelled: bool

    function View(): State
      reads this
    {
      State(streambuf, sendQueue, writing, sent, wire, ready, running, fired, users, refs, phase, written, log, failed,
            cancelled)
    }

    ghost predicate Valid()
      reads this
    {
      Inv(View())
    }

    constructor ()
      ensures Valid() && View() == INITIAL
    {
      streambuf, sendQueue, writing, sent, wire := "", [], false, 0, "";
      ready, running, fired, users, refs, phase := [], {}, [], 1, 1, Open;
      written, log, failed, cancelled := "", [], false, false;
      new;
      InitialInv();
    }

    /** `std::ostream::write` into the current stream buffer. */
    method Write(data: string)
      requires Valid() && refs > 0
      modifies this
      ensures Valid() && View() == Next(old(View()), SendQueue.Write(data))
      ensures streambuf == old(streambuf) + data
    {
      hide Inv;
      StepKeepsInv(View(), SendQueue.Write(data));
      streambuf := streambuf + data;
      written := written + data;
    }

    /** `send_from_queue`: starts the write of the first queued buffer, whose handler holds a reference. */
    method SendFromQueue()
      requires sendQueue != []
      modifies this`writing, this`sent, this`refs
      ensures writing && sent == 0 && refs == old(refs) + 1
    {
      writing, sent, refs := true, 0, refs + 1;
    }

    method Send(hasCallback: bool)
      requires Valid() && refs > 0
      modifies this
      ensures Valid() && View() == Next(old(View()), SendQueue.Send(hasCallback))
      ensures streambuf == "" && |sendQueue| == |old(sendQueue)| + 1 && old(sendQueue) <= sendQueue
      ensures var item := sendQueue[|old(sendQueue)|];
              item.data == old(streambuf) && item.hasCallback == hasCallback && log == old(log) + [Entry(item, |fired|)]
      ensures old(sendQueue) == [] ==> writing && sent == 0 && refs == old(refs) + 1
    {
      hide Inv, Next, Enabled;
      SendKeepsInv(View(), hasCallback);
      ghost var after := AfterSend(View(), hasCallback);
      var buffer := streambuf;
      streambuf := "";
      var item := Item(|log|, buffer, hasCallback, |written|);
      sendQueue := sendQueue + [item];
      log := log + [Entry(item, |fired|)];
      if |sendQueue| == 1 {
        SendFromQueue();
      }
      assert View() == after;
    }

    /** The socket takes the next `n` bytes of the buffer in flight. */
    method Transfer(n: nat)
      requires Valid() && Enabled(View(), SendQueue.Transfer(n))
      modifies this
      ensures Valid() && View() == Next(old(View()), SendQueue.Transfer(n))
      ensures wire == old(wire) + sendQueue[0].data[old(sent)..sent] && sent == old(sent) + n
    {
      hide Inv;
      StepKeepsInv(View(), SendQueue.Transfer(n));
      wire := wire + sendQueue[0].data[sent..sent + n];
      sent := sent + n;
    }

    /** The completion handler of `send_from_queue`, up to where it calls the callbacks it has taken. */
    method OnWritten(error: Option<nat>, lock: bool)
      requires Valid() && Enabled(View(), Completion(error, lock))
      modifies this
      ensures Valid() && View() == Next(old(View()), Completion(error, lock))
      ensures !lock ==> !writing && sendQueue == old(sendQueue) && ready == old(ready) && refs == old(refs) - 1
      ensures lock && error.None? ==>
                var item := old(sendQueue)[0];
                && sendQueue == old(sendQueue)[1..] && (writing <==> sendQueue != [])
                && |ready| == |old(ready)| + (if item.hasCallback then 1 else 0) && old(ready) <= ready
                && (item.hasCallback ==> ready[|old(ready)|].id == item.id && ready[|old(ready)|].error == None)
      ensures lock && error.Some? ==>
                && sendQueue == [] && !writing && old(ready) <= ready
                && (forall item :: item in old(sendQueue) && item.hasCallback ==>
                      exists c :: c in ready[|old(ready)|..] && c.id == item.id)
                && forall c :: c in ready[|old(ready)|..] ==>
                     c.error == error && exists item :: item in old(sendQueue) && item.hasCallback && item.id == c.id
    {
      hide Inv, Next, Enabled, ErrorCalls;
      CompletionKeepsInv(View(), error, lock);
      writing := false;
      if !lock {
        cancelled, refs := true, refs - 1;
      } else if error.None? {
        Completed();
      } else {
        // All handlers in the queue are called with the error
        var calls := TakeCallbacks(error.value);
        ErrorCallsOf(sendQueue, error.value, |wire|, sendQueue[0].id);
        AllTold(sendQueue, calls, ready, error.value, |wire|, sendQueue[0].id);
        running := running + {sendQueue[0].id};
        sendQueue, sent := [], 0;
        ready, failed := ready + calls, true;
      }
    }

    /** What the callbacks of the queue are told when they are collected behind `ready`. */
    static lemma {:induction false} AllTold(
      queue: seq<Item>, calls: seq<Call>, ready: seq<Call>, error: nat, until: nat, handler: nat)
      requires forall c :: c in calls <==>
                 exists k :: 0 <= k < |queue| && queue[k].hasCallback &&
                   c == Call(queue[k].id, Some(error), queue[k].end, until, handler)
      ensures (ready + calls)[|ready|..] == calls && ready <= ready + calls
      ensures forall item :: item in queue && item.hasCallback ==> exists c :: c in calls && c.id == item.id
      ensures forall c :: c in calls ==>
                c.error == Some(error) && exists item :: item in queue && item.hasCallback && item.id == c.id
    {
      forall item | item in queue && item.hasCallback ensures exists c :: c in calls && c.id == item.id {
        var k :| 0 <= k < |queue| && queue[k] == item;
        assert Call(item.id, Some(error), item.end, until, handler) in calls;
      }
    }

    /** The handler's branch for a write without error. */
    method Completed()
      requires sendQueue != [] && !writing
      modifies this
      ensures View() == AfterComplete(old(View()))
    {
      ghost var after := AfterComplete(View());
      var it := sendQueue[0];
      running := running + {it.id};
      sendQueue := sendQueue[1..];
      sent := 0;
      if |sendQueue| > 0 {
        SendFromQueue();
      }
      if it.hasCallback {
        ready := ready + [Call(it.id, None, it.end, |wire|, it.id)];
      } else {
        assert ready + [] == ready;
      }
      assert View() == after;
    }

    method TakeCallbacks(error: nat) returns (calls: seq<Call>)
      requires sendQueue != []
      ensures calls == ErrorCalls(sendQueue, error, |wire|, sendQueue[0].id)
    {
      calls := [];
      var handler := sendQueue[0].id;
      for i := 0 to |sendQueue|
        invariant calls + ErrorCalls(sendQueue[i..], error, |wire|, handler) ==
                  ErrorCalls(sendQueue, error, |wire|, handler)
      {
        if sendQueue[i].hasCallback {
          calls := calls + [Call(sendQueue[i].id, Some(error), sendQueue[i].end, |wire|, handler)];
        }
      }
    }

    /** A handler calls one of the callbacks it has taken. */
    method Fire(i: nat) returns (call: Call)
      requires Valid() && Enabled(View(), SendQueue.Fire(i))
      modifies this
      ensures Valid() && View() == Next(old(View()), SendQueue.Fire(i))
      ensures call == old(ready)[i] && fired == old(fired) + [call] && ready == old(ready[..i] + ready[i + 1..])
    {
      hide Inv;
      StepKeepsInv(View(), SendQueue.Fire(i));
      call := ready[i];
      ready := ready[..i] + ready[i + 1..];
      fired := fired + [call];
    }

    /** A handler has called its callbacks and returns, which drops its reference. */
    method Return(handler: nat)
      requires Valid() && Enabled(View(), SendQueue.Return(handler))
      modifies this
      ensures Valid() && View() == Next(old(View()), SendQueue.Return(handler))
      ensures refs == old(refs) - 1 && handler !in running
    {
      hide Inv;
      StepKeepsInv(View(), SendQueue.Return(handler));
      running := running - {handler};
      refs := refs - 1;
    }

    /** The reference is copied, as into a `FileSender`. */
    method Share()
      requires Valid() && refs > 0
      modifies this
      ensures Valid() && View() == Next(old(View()), SendQueue.Share)
      ensures refs == old(refs) + 1
    {
      hide Inv;
      StepKeepsInv(View(), SendQueue.Share);
      users, refs := users + 1, refs + 1;
    }

    method Release()
      requires Valid() && users > 0
      modifies this
      ensures Valid() && View() == Next(old(View()), SendQueue.Release)
      ensures refs == old(refs) - 1
    {
      hide Inv;
      StepKeepsInv(View(), SendQueue.Release);
      users, refs := users - 1, refs - 1;
    }

    /** The custom deleter: the last reference is gone, and what is left in the stream buffer is sent; no other
        write is in flight, no callback waits. */
    method SendOnDelete()
      requires Valid() && refs == 0 && phase == Open
      modifies this
      ensures Valid() && View() == Next(old(View()), Delete)
      ensures !writing && ready == [] && phase == Finishing && streambuf == old(streambuf)
      ensures !cancelled ==> sendQueue == []
    {
      NothingUnderWay(View());
      hide Inv;
      StepKeepsInv(View(), Delete);
      phase := Finishing;
    }
  }
}
