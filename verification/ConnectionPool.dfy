/** The client's pool of connections and its sessions: every method takes a step of the request protocol. */
module ConnectionPool {
  import opened RequestProtocol

  class Connection {
    const id: nat
    var inUse: bool
    var eventStream: bool
    var attemptReconnect: bool
    /** Whether the socket was connected. */
    var open: bool
    var closed: bool

    constructor (id: nat)
      ensures this.id == id && !inUse && !eventStream && attemptReconnect && !open && !closed
    {
      this.id := id;
      inUse, eventStream, attemptReconnect, open, closed := false, false, true, false, false;
    }

    function View(): Flags
      reads this
    {
      Flags(inUse, eventStream, attemptReconnect, open)
    }

    method Close()
      modifies this`closed
      ensures closed
    {
      closed := true;
    }
  }

  /** A request: its connection, the operation it waits for, and what has happened to it. */
  class Session {
    const id: nat
    var connection: Connection
    var stage: Stage
    var calls: nat
    var reconnects: nat
    var streamed: bool

    constructor (id: nat, connection: Connection, stage: Stage)
      ensures this.id == id && this.connection == connection && View() == Request(connection.id, stage, 0, 0, false)
    {
      this.id, this.connection, this.stage := id, connection, stage;
      calls, reconnects, streamed := 0, 0, false;
    }

    function View(): Request
      reads this
    {
      Request(connection.id, stage, calls, reconnects, streamed)
    }
  }

  /** The numbers of connections. */
  ghost function Ids(made: seq<Connection>, cs: set<Connection>): set<nat> {
    set i: nat | i < |made| && made[i] in cs
  }

  lemma {:induction false} PrunedIds(
    made: seq<Connection>, before: set<Connection>, inUse: set<Connection>, failed: set<Connection>,
    after: set<Connection>)
    requires forall i :: 0 <= i < |made| ==> made[i].id == i
    requires forall c :: c in before ==> c.id < |made| && made[c.id] == c
    requires Pruned(before, inUse, failed, after)
    ensures Pruned(Ids(made, before), Ids(made, inUse), Ids(made, failed), Ids(made, after))
  {
    assert Ids(made, before) - Ids(made, inUse) - Ids(made, failed) == Ids(made, before - inUse - failed);
    if before - inUse - failed != {} {
      var c :| c in after && after - inUse == {c};
      assert Ids(made, after) - Ids(made, inUse) == Ids(made, after - inUse) == {c.id};
      var d :| d in before - inUse - failed;
      assert d.id in Ids(made, before - inUse - failed);
    }
  }

  lemma {:induction false} ReplacedIds(made: seq<Connection>, cs: set<Connection>, c: Connection, d: Connection)
    requires forall i :: 0 <= i < |made| ==> made[i].id == i
    requires c.id < |made| && made[c.id] == c && d.id == |made| && d !in cs
    ensures Ids(made + [d], cs - {c} + {d}) == Ids(made, cs) - {c.id} + {d.id}
  {
  }

  ghost function FlagsOf(made: seq<Connection>): map<nat, Flags>
    reads made
  {
    map i: nat | i < |made| :: made[i].View()
  }

  ghost function RequestsOf(sessions: seq<Session>): map<nat, Request>
    reads sessions
  {
    map i: nat | i < |sessions| :: sessions[i].View()
  }

  class Client {
    var connections: set<Connection>

    // every connection and every session that was made, by number
    var made: seq<Connection>
    var sessions: seq<Session>

    ghost predicate Shape()
      reads this, sessions
    {
      && (forall i :: 0 <= i < |made| ==> made[i].id == i)
      && (forall c :: c in connections ==> Made(c))
      && (forall r :: 0 <= r < |sessions| ==> sessions[r].id == r && Made(sessions[r].connection))
    }

    predicate Made(c: Connection)
      reads this
    {
      c.id < |made| && made[c.id] == c
    }

    ghost function View(): State
      reads this, made, sessions
    {
      State(Ids(made, connections), FlagsOf(made), RequestsOf(sessions))
    }

    ghost predicate Valid()
      reads this, made, sessions
    {
      Shape() && Inv(View())
    }

    ghost predicate Mine(session: Session)
      reads this
    {
      session.id < |sessions| && sessions[session.id] == session
    }

    function Unused(): set<Connection>
      reads this, connections
    {
      set c | c in connections && !c.inUse
    }

    function InUse(): set<Connection>
      reads this, made
    {
      set c | c in made && c.inUse
    }

    /** At most one connection has changed or was made. */
    twostate lemma OneConnection(new c: Connection)
      requires old(Shape()) && Shape() && Made(c)
      requires made == old(made) || (made == old(made) + [c] && fresh(c))
      requires forall d :: d in old(made) && d != c ==> d.View() == old(d.View())
      ensures FlagsOf(made) == old(FlagsOf(made))[c.id := c.View()]
      ensures made != old(made) ==> c.id !in old(FlagsOf(made))
    {
    }

    /** At most one session has changed or was made. */
    twostate lemma OneSession(new session: Session)
      requires old(Shape()) && Shape() && Mine(session)
      requires sessions == old(sessions) || (sessions == old(sessions) + [session] && fresh(session))
      requires forall q :: q in old(sessions) && q != session ==> q.View() == old(q.View())
      ensures RequestsOf(sessions) == old(RequestsOf(sessions))[session.id := session.View()]
      ensures sessions != old(sessions) ==> session.id !in old(RequestsOf(sessions))
    {
    }

    constructor ()
      ensures Valid() && View() == INITIAL
    {
      connections, made, sessions := {}, [], [];
    }

    /** An idle connection of the pool was taken, or a new one made if there was none. */
    twostate predicate Got(new connection: Connection)
      reads this, connection
    {
      if old(Unused()) != {} then
        && connection in old(Unused()) && connections == old(connections) && made == old(made)
        && connection.View() == Flags(true, old(connection.eventStream), true, old(connection.open))
      else
        && fresh(connection) && connections == old(connections) + {connection} && made == old(made) + [connection]
        && connection.View() == Flags(true, false, true, false)
    }

    /** `get_connection`: an idle connection of the pool, or a new one that joins it. */
    method GetConnection() returns (connection: Connection)
      requires Shape()
      modifies this`connections, this`made, connections
      ensures Shape() && Made(connection) && Got(connection)
      ensures forall c :: c in old(connections) && c != connection ==> c.View() == old(c.View())
    {
      var candidate: Connection? := null;
      var rest := connections;
      while rest != {} && candidate == null
        invariant rest <= connections
        invariant candidate == null ==> forall c :: c in connections - rest ==> c.inUse
        invariant candidate != null ==> candidate in connections && !candidate.inUse
        decreases rest
      {
        var it :| it in rest;
        if !it.inUse {
          candidate := it;
        }
        rest := rest - {it};
      }
      if candidate == null {
        assert Unused() == {};
        candidate := new Connection(|made|);
        connections := connections + {candidate};
        made := made + [candidate];
      } else {
        assert candidate in Unused();
      }
      connection := candidate;
      connection.attemptReconnect := true;
      connection.inUse := true;
    }

    /** What `get_connection` returns is a connection that a new request may get. */
    twostate lemma GotConnection(new connection: Connection)
      requires old(Shape()) && Shape() && Made(connection)
      requires Got(connection)
      ensures var s, c := old(View()), connection.id;
              && Eligible(s, c) && View().pool == s.pool + {c}
              && connection.View() ==
                 Flags(true, c in s.flags && s.flags[c].eventStream, true, c in s.flags && s.flags[c].open)
    {
      var s, c := old(View()), connection.id;
      if old(Unused()) != {} {
        assert c in s.pool && Idle(s, c);
      } else {
        assert forall i :: i in s.pool && Idle(s, i) ==> old(made[i]) in old(Unused());
      }
    }

    /** `request` up to where the first operation is under way: a socket that is not connected is resolved and
        connected first. */
    method Request() returns (session: Session)
      requires Valid()
      modifies this, connections
      ensures Valid() && fresh(session) && Mine(session)
      ensures session.connection.inUse && session.connection.attemptReconnect && session.connection in connections
      ensures session.stage == if session.connection.open then Writing else Resolving
      ensures var step := Start(session.id, session.connection.id);
              Enabled(old(View()), step) && View() == Next(old(View()), step)
    {
      hide Inv, Pruned, FlagsOf, RequestsOf, Eligible, Ids;
      ghost var before := View();
      var connection := GetConnection();
      session := new Session(|sessions|, connection, if connection.open then Writing else Resolving);
      sessions := sessions + [session];
      OneConnection(connection);
      OneSession(session);
      GotConnection(connection);
      ghost var step := Start(session.id, connection.id);
      StepKeepsInv(before, step);
    }

    /** An operation before the header succeeds, and the next one begins. */
    method Advance(session: Session)
      requires Valid() && Mine(session) && session.stage in {Resolving, Connecting, Writing}
      modifies session`stage, session.connection`open
      ensures Valid()
      ensures session.connection.open == (old(session.connection.open) || old(session.stage) == Connecting)
      ensures var step := RequestProtocol.Advance(session.id);
              Enabled(old(View()), step) && View() == Next(old(View()), step)
    {
      hide Inv, FlagsOf, RequestsOf, Ids;
      ghost var before := View();
      Known(session);
      if session.stage == Connecting {
        session.connection.open := true;
      }
      session.stage := AfterSuccess(session.stage);
      OneConnection(session.connection);
      OneSession(session);
      StepKeepsInv(before, RequestProtocol.Advance(session.id));
    }

    /** What the numbers of a session and of its connection stand for. */
    lemma Known(session: Session)
      requires Shape() && Mine(session)
      ensures var s, c := View(), session.connection;
              && session.id in s.requests && s.requests[session.id] == session.View()
              && c.id in s.flags && s.flags[c.id] == c.View()
              && (c.id in s.pool <==> c in connections)
    {
    }

    /** The connection of a session that is not over is in use, and marked as an event stream while it is one. */
    lemma Marked(session: Session)
      requires Valid() && Mine(session) && session.stage != Done
      ensures session.connection.inUse && (session.connection.eventStream <==> session.stage == Streaming)
    {
      hide FlagsOf, RequestsOf, Owned, OneIdle, Counted, Opened;
      Known(session);
      assert Uses(View(), session.id, session.connection.id);
    }

    /** The loop over the pool, in whatever order the set is iterated. */
    method Prune(failed: Connection?) returns (kept: set<Connection>)
      requires Shape()
      ensures Pruned(connections, InUse(), if failed == null then {} else {failed}, kept)
      ensures kept <= connections && failed !in kept
      ensures forall c :: c in connections && c.inUse && c != failed ==> c in kept
      ensures (exists c :: c in connections && !c.inUse && c != failed) ==> exists c :: c in kept && !c.inUse
      ensures forall c, d :: c in kept && d in kept && !c.inUse && !d.inUse ==> c == d
    {
      ghost var inUse, idle := InUse(), {};
      var unused, rest := 0, connections;
      kept := {};
      while rest != {}
        invariant rest <= connections && kept <= connections - rest && failed !in kept
        invariant forall c :: c in connections - rest && c.inUse && c != failed ==> c in kept
        invariant kept - inUse == idle
        invariant unused == 0 ==> idle == {} && forall c :: c in connections - rest ==> c.inUse || c == failed
        invariant unused != 0 ==> exists c :: c in kept && idle == {c}
        decreases rest
      {
        var it :| it in rest;
        if failed == it {
        } else if it.inUse {
          kept := kept + {it};
        } else {
          unused := unused + 1;
          if !(unused > 1) {
            kept := kept + {it};
            idle := {it};
          }
        }
        rest := rest - {it};
      }
      assert forall c :: c in kept && !c.inUse ==> c in kept - inUse;
    }

    /** The part of the session callback that holds the lock. */
    method ReleaseAndPrune(connection: Connection, failed: bool)
      requires Shape() && Made(connection)
      modifies this`connections, connection`inUse
      ensures Shape()
      ensures connection.inUse == (old(connection.inUse) && connection.eventStream)
      ensures Pruned(old(connections), InUse(), if failed then {connection} else {}, connections)
    {
      if !connection.eventStream {
        connection.inUse := false;
      }
      connections := Prune(if failed then connection else null);
    }

    lemma PrunedView(before: set<Connection>, connection: Connection, failed: bool)
      requires Shape() && Made(connection) && forall c :: c in before ==> Made(c)
      requires Pruned(before, InUse(), if failed then {connection} else {}, connections)
      ensures var failures := if failed then {connection.id} else {};
              Pruned(Ids(made, before), RequestProtocol.InUse(View()), failures, View().pool)
    {
      hide Pruned;
      PrunedIds(made, before, InUse(), if failed then {connection} else {}, connections);
      assert Ids(made, {connection}) == {connection.id} && Ids(made, {}) == {};
      assert Ids(made, InUse()) == RequestProtocol.InUse(View());
    }

    /** The session callback: the connection is released unless it streams events, the pool is pruned, and the
        caller is called back. */
    method Callback(session: Session, failed: bool)
      requires Shape() && Mine(session)
      modifies this`connections, session`calls, session.connection`inUse
      ensures Shape() && session.View() == old(session.View()).(calls := old(session.calls) + 1)
      ensures session.connection.inUse == (old(session.connection.inUse) && session.connection.eventStream)
      ensures failed ==> session.connection !in connections
      ensures var s, r := old(View()), session.id;
              var failures := if failed then {session.connection.id} else {};
              && r in s.requests && s.requests[r].connection in s.flags
              && View() == State(View().pool, Released(s, r), s.requests[r := session.View()])
              && Pruned(s.pool, RequestProtocol.InUse(View()), failures, View().pool)
    {
      hide Pruned, FlagsOf, RequestsOf, Ids;
      ghost var before := connections;
      Known(session);
      ReleaseAndPrune(session.connection, failed);
      session.calls := session.calls + 1;
      OneConnection(session.connection);
      OneSession(session);
      PrunedView(before, session.connection, failed);
      NotKept(before, session.connection, failed);
    }

    lemma NotKept(before: set<Connection>, connection: Connection, failed: bool)
      requires Pruned(before, InUse(), if failed then {connection} else {}, connections)
      ensures failed ==> connection !in connections
    {
    }

    /** The header of the response was read, and `content` says what comes after it. */
    method OnHeader(session: Session, content: Content)
      requires Valid() && Mine(session) && session.stage == ReadingHeader
      modifies this`connections, session, session.connection
      ensures Valid()
      ensures session.connection.attemptReconnect
      ensures content.Events? ==> session.connection.eventStream && session.calls == old(session.calls) + 1
      ensures content.Events? ==> session.connection.inUse && session.stage == Streaming
      ensures !content.Events? ==> session.calls == old(session.calls) && connections == old(connections)
      ensures var step := HeaderRead(session.id, content, View().pool);
              Enabled(old(View()), step) && View() == Next(old(View()), step)
    {
      hide Inv, Pruned, FlagsOf, RequestsOf, Ids;
      ghost var before := View();
      Known(session);
      Marked(session);
      session.connection.attemptReconnect := true;
      if content.Events? {
        session.connection.eventStream := true;
        OneConnection(session.connection);
        assert RequestProtocol.InUse(View()) == RequestProtocol.InUse(before);
        OpenStream(session);
      } else {
        session.stage := if content.Reads? then Body(content.n) else ToEnd;
      }
      OneConnection(session.connection);
      OneSession(session);
      StepKeepsInv(before, HeaderRead(session.id, content, View().pool));
    }

    /** The session callback tells that the event stream is open. */
    method OpenStream(session: Session)
      requires Shape() && Mine(session) && session.connection.eventStream
      modifies this`connections, session`calls, session`stage, session`streamed, session.connection`inUse
      ensures Shape() && session.connection.inUse == old(session.connection.inUse)
      ensures session.View() ==
              old(session.View()).(stage := Streaming, calls := old(session.calls) + 1, streamed := true)
      ensures View().flags == old(View()).flags
      ensures Pruned(old(View()).pool, RequestProtocol.InUse(old(View())), {}, View().pool)
    {
      hide Pruned, FlagsOf, RequestsOf, Ids;
      ghost var before := View();
      Known(session);
      Callback(session, false);
      Known(session);
      session.stage, session.streamed := Streaming, true;
      assert RequestProtocol.InUse(View()) == RequestProtocol.InUse(before);
    }

    /** One of the reads of a body has succeeded. */
    method OnBodyPart(session: Session)
      requires Valid() && Mine(session) && session.stage.Body? && session.stage.left > 0
      modifies session`stage
      ensures Valid()
      ensures var step := BodyRead(session.id);
              Enabled(old(View()), step) && View() == Next(old(View()), step)
    {
      hide Inv, FlagsOf, RequestsOf, Ids;
      ghost var before := View();
      Known(session);
      session.stage := Body(session.stage.left - 1);
      OneSession(session);
      StepKeepsInv(before, BodyRead(session.id));
    }

    /** A body was read up to the end of the stream, and the connection leaves the pool. */
    method LeavePool(session: Session)
      requires Valid() && Mine(session) && session.stage == ToEnd
      modifies this`connections, session`stage
      ensures Valid() && connections == old(connections) - {session.connection}
      ensures var step := Erase(session.id);
              Enabled(old(View()), step) && View() == Next(old(View()), step)
    {
      hide Inv, FlagsOf, RequestsOf;
      ghost var before := View();
      Known(session);
      connections := connections - {session.connection};
      session.stage := Erased;
      assert View().pool == before.pool - {session.connection.id};
      OneSession(session);
      StepKeepsInv(before, Erase(session.id));
    }

    method OnEvent(session: Session)
      requires Valid() && Mine(session) && session.stage == Streaming
      modifies this`connections, session`calls, session.connection`inUse
      ensures Valid() && session.calls == old(session.calls) + 1 && session.connection.inUse
      ensures var step := Event(session.id, View().pool);
              Enabled(old(View()), step) && View() == Next(old(View()), step)
    {
      hide Inv, Pruned, FlagsOf, RequestsOf, Ids;
      ghost var before := View();
      Known(session);
      Marked(session);
      Callback(session, false);
      StepKeepsInv(before, Event(session.id, View().pool));
    }

    /** The request is over: the session callback is called for the last time. */
    method Finish(session: Session, failed: bool)
      requires Valid() && Mine(session)
      requires if failed then session.stage != Done && session.stage != Erased
               else session.stage.Body? || session.stage == ToEnd || session.stage == Erased
      modifies this`connections, session, session.connection`inUse
      ensures Valid() && session.connection == old(session.connection)
      ensures session.stage == Done && session.calls == old(session.calls) + 1
      ensures if failed then session.connection !in connections else !session.connection.inUse
      ensures var step := RequestProtocol.Finish(session.id, failed, false, View().pool);
              Enabled(old(View()), step) && View() == Next(old(View()), step)
    {
      hide Inv, Pruned, FlagsOf, RequestsOf, Ids;
      ghost var before := View();
      Known(session);
      Marked(session);
      Callback(session, failed);
      session.stage := Done;
      OneSession(session);
      StepKeepsInv(before, RequestProtocol.Finish(session.id, failed, false, View().pool));
    }

    /** The header could not be read: the one reconnect, or the end. */
    method OnHeaderError(session: Session, aborted: bool)
      requires Valid() && Mine(session) && session.stage == ReadingHeader
      modifies this`connections, this`made, session, session.connection`inUse
      ensures Valid()
      ensures var step := if old(session.connection.attemptReconnect && session.connection in connections) && !aborted
                          then RequestProtocol.Reconnect(session.id, session.connection.id)
                          else RequestProtocol.Finish(session.id, true, !aborted, View().pool);
              Enabled(old(View()), step) && View() == Next(old(View()), step)
    {
      hide Inv, Pruned, FlagsOf, RequestsOf, Ids;
      ghost var before := View();
      Known(session);
      if session.connection.attemptReconnect && !aborted && session.connection in connections {
        Reconnect(session);
        StepKeepsInv(before, RequestProtocol.Reconnect(session.id, session.connection.id));
      } else {
        Callback(session, true);
        session.stage := Done;
        OneSession(session);
        StepKeepsInv(before, RequestProtocol.Finish(session.id, true, !aborted, View().pool));
      }
    }

    /** A new connection takes the place of the one whose header could not be read. */
    method Reconnect(session: Session)
      requires Shape() && Mine(session) && session.connection in connections
      modifies this`connections, this`made, session
      ensures Shape() && made == old(made) + [session.connection] && fresh(session.connection)
      ensures var s, q, c := old(View()), old(session.View()), session.connection.id;
              && c !in s.flags
              && View() == State(s.pool - {q.connection} + {c}, s.flags[c := Flags(true, false, false, false)],
                                 s.requests[session.id := session.View()])
              && session.View() == q.(connection := c, stage := Resolving, reconnects := q.reconnects + 1)
    {
      hide FlagsOf, RequestsOf, Ids;
      var created := Replace(session.connection);
      session.connection := created;
      session.stage := Resolving;
      session.reconnects := session.reconnects + 1;
      OneSession(session);
    }

    method Replace(connection: Connection) returns (created: Connection)
      requires Shape() && connection in connections
      modifies this`connections, this`made
      ensures Shape() && Made(created) && made == old(made) + [created] && fresh(created)
      ensures created.id !in old(View()).flags && created.View() == Flags(true, false, false, false)
      ensures View().pool == old(View()).pool - {connection.id} + {created.id}
      ensures View().flags == old(View()).flags[created.id := created.View()]
    {
      hide FlagsOf, RequestsOf, Ids;
      created := new Connection(|made|);
      ReplacedIds(made, connections, connection, created);
      connections := connections - {connection};
      created.attemptReconnect := false;
      created.inUse := true;
      connections, made := connections + {created}, made + [created];
      OneConnection(created);
    }

    /** `stop`: every pooled connection is closed and leaves the pool. */
    method Stop()
      requires Valid()
      modifies this`connections, connections`closed
      ensures Valid()
      ensures View() == Next(old(View()), RequestProtocol.Stop) && connections == {}
      ensures forall c :: c in old(connections) ==> c.closed
    {
      hide Inv;
      ghost var before := View();
      while connections != {}
        invariant connections <= old(connections)
        invariant forall c :: c in old(connections) - connections ==> c.closed
        decreases connections
      {
        var it :| it in connections;
        it.Close();
        connections := connections - {it};
      }
      assert View().pool == {} && View().flags == before.flags;
      StepKeepsInv(before, RequestProtocol.Stop);
    }
  }
}
