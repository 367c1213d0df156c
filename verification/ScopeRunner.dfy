/** `ScopeRunner` as a protocol: any number of agents, each a call of `continue_lock` or `stop` or an
    idle thread, take atomic steps on one counter in any order. */
module ScopeRunner {

  /** Where an agent is. `Locking` is the loop of `continue_lock` with its local `expected`; `Holding`
      owns a SharedLock; `Refused` got a null pointer; `Stopping` is the loop of `stop`, whose local
      `expected` is zero whenever it tries; `Stopped` returned from it. */
  datatype Pc = Idle | Locking(expected: int) | Holding | Refused | Stopping | Stopped

  datatype State = State(count: int, pcs: map<nat, Pc>)

  /** An atomic step of one agent; `spurious` marks a weak compare-exchange that fails for no reason. */
  datatype Step =
    | Load(agent: nat)
    | TryLock(agent: nat, spurious: bool)
    | Refuse(agent: nat)
    | Release(agent: nat)
    | EnterStop(agent: nat)
    | TryStop(agent: nat, spurious: bool)
    | Return(agent: nat)

  predicate Enabled(s: State, step: Step) {
    && step.agent in s.pcs
    && var pc := s.pcs[step.agent];
       match step
       case Load(_) => pc.Idle?
       case TryLock(_, _) => pc.Locking? && pc.expected >= 0
       case Refuse(_) => pc.Locking? && pc.expected < 0
       case Release(_) => pc.Holding?
       case EnterStop(_) => pc.Idle?
       case TryStop(_, _) => pc.Stopping?
       case Return(_) => pc.Refused? || pc.Stopped?
  }

  function Next(s: State, step: Step): State
    requires Enabled(s, step)
  {
    var a := step.agent;
    match step
    case Load(_) => State(s.count, s.pcs[a := Locking(s.count)])
    case TryLock(_, spurious) =>
      if s.count == s.pcs[a].expected && !spurious then State(s.count + 1, s.pcs[a := Holding])
      else State(s.count, s.pcs[a := Locking(s.count)])
    case Refuse(_) => State(s.count, s.pcs[a := Refused])
    case Release(_) => State(s.count - 1, s.pcs[a := Idle])
    case EnterStop(_) => State(s.count, s.pcs[a := Stopping])
    case TryStop(_, spurious) =>
      if s.count == 0 && !spurious then State(-1, s.pcs[a := Stopped])
      else if s.count < 0 then State(s.count, s.pcs[a := Stopped])
      else s
    case Return(_) => State(s.count, s.pcs[a := Idle])
  }

  predicate Init(s: State) {
    s.count == 0 && forall a :: a in s.pcs ==> s.pcs[a] == Idle
  }

  /** A run: from an initial state, one enabled step after the other. */
  ghost predicate Run(states: seq<State>, steps: seq<Step>) {
    && |states| == |steps| + 1 && Init(states[0])
    && forall i :: 0 <= i < |steps| ==> Enabled(states[i], steps[i]) && states[i + 1] == Next(states[i], steps[i])
  }

  function Holders(s: State): set<nat> {
    set a | a in s.pcs && s.pcs[a] == Holding
  }

  /** The counter counts the locks that are held, or it is -1 and none is; it is -1 once a `stop`
      has returned. */
  predicate Inv(s: State) {
    && s.count >= -1
    && (s.count >= 0 ==> s.count == |Holders(s)|)
    && (s.count == -1 ==> Holders(s) == {})
    && forall a :: a in s.pcs && s.pcs[a] == Stopped ==> s.count == -1
  }

  lemma {:induction false} MoveOne(s: State, a: nat, pc: Pc, count: int)
    requires a in s.pcs
    ensures var t := State(count, s.pcs[a := pc]);
            Holders(t) == if pc.Holding? then Holders(s) + {a} else Holders(s) - {a}
  {
  }

  lemma {:induction false} StepKeepsInv(s: State, step: Step)
    requires Inv(s) && Enabled(s, step)
    ensures Inv(Next(s, step))
    ensures s.count == -1 ==> Next(s, step).count == -1
  {
    var a, t := step.agent, Next(s, step);
    if t != s {
      MoveOne(s, a, t.pcs[a], t.count);
    }
    if step.Release? {
      assert a in Holders(s);
    }
  }

  lemma {:induction false} RunKeepsInv(states: seq<State>, steps: seq<Step>, i: nat)
    requires Run(states, steps) && i < |states|
    ensures Inv(states[i])
  {
    if i == 0 {
      assert Holders(states[0]) == {};
    } else {
      RunKeepsInv(states, steps, i - 1);
      StepKeepsInv(states[i - 1], steps[i - 1]);
    }
  }

  lemma {:induction false} ClosedStaysClosed(states: seq<State>, steps: seq<Step>, i: nat, j: nat)
    requires Run(states, steps) && i <= j < |states| && states[i].count == -1
    ensures states[j].count == -1
  {
    if i < j {
      ClosedStaysClosed(states, steps, i, j - 1);
      RunKeepsInv(states, steps, j - 1);
      StepKeepsInv(states[j - 1], steps[j - 1]);
    }
  }

  /** The destruction barrier. In every run and under every interleaving, once a call of `stop` has
      returned, no lock is held then or ever after. */
  lemma {:induction false} NoLockAfterStop(states: seq<State>, steps: seq<Step>, i: nat, j: nat, stopper: nat)
    requires Run(states, steps) && i <= j < |states|
    requires stopper in states[i].pcs && states[i].pcs[stopper] == Stopped
    ensures Holders(states[j]) == {} && states[j].count == -1
  {
    RunKeepsInv(states, steps, i);
    RunKeepsInv(states, steps, j);
    ClosedStaysClosed(states, steps, i, j);
  }

  /** What a call of `continue_lock` can be doing when the counter was closed before it began. */
  predicate Late(pc: Pc) {
    pc != Holding && (pc.Locking? ==> pc.expected == -1)
  }

  /** A `continue_lock` that begins after a `stop` returned never tries for the lock: it reads -1, and
      all it can do is return a null pointer. The stopper had returned at `h`; what it does afterwards, and
      what the agent was doing at that time, do not matter. */
  lemma {:induction false} LateCallsAreRefused(
    states: seq<State>, steps: seq<Step>, h: nat, i: nat, j: nat, stopper: nat, agent: nat)
    requires Run(states, steps) && h <= i <= j < |states|
    requires stopper in states[h].pcs && states[h].pcs[stopper] == Stopped
    requires agent in states[i].pcs && states[i].pcs[agent] == Idle
    ensures agent in states[j].pcs && Late(states[j].pcs[agent])
    ensures j < |steps| && steps[j].agent == agent ==> !steps[j].TryLock?
    decreases j
  {
    if i < j {
      LateCallsAreRefused(states, steps, h, i, j - 1, stopper, agent);
      NoLockAfterStop(states, steps, h, j - 1, stopper);
    }
  }

  /** A `stop` returns only when no lock is held; it does return, at its next compare-exchange that
      does not fail spuriously, as soon as none is. */
  lemma {:induction false} StopWaitsForLocks(states: seq<State>, steps: seq<Step>, i: nat, agent: nat, spurious: bool)
    requires Run(states, steps) && i < |states|
    requires agent in states[i].pcs && states[i].pcs[agent] == Stopping
    ensures var t := Next(states[i], TryStop(agent, spurious));
            && (t.pcs[agent] == Stopped ==> Holders(states[i]) == {})
            && (Holders(states[i]) == {} && !spurious ==> t.pcs[agent] == Stopped)
  {
    RunKeepsInv(states, steps, i);
  }

  // ----- the locks are granted

  /** What an attempt that does not fail spuriously does when the counter is as expected: the agent holds a lock,
      and nothing else changes. */
  lemma {:induction false} LockIsGranted(s: State, agent: nat)
    requires agent in s.pcs && s.pcs[agent] == Locking(s.count) && s.count >= 0
    ensures Enabled(s, TryLock(agent, false))
    ensures var t := Next(s, TryLock(agent, false));
            && t.pcs == s.pcs[agent := Holding] && t.count == s.count + 1
            && agent !in Holders(s) && Holders(t) == Holders(s) + {agent}
  {
    MoveOne(s, agent, Holding, s.count + 1);
  }

  /** Without interference a call of `continue_lock` gets its lock as long as nothing was stopped: at its first
      attempt after the load, and at the next one after an attempt that failed. */
  lemma {:induction false} LockWithoutInterference(s: State, agent: nat, spurious: bool)
    requires agent in s.pcs && s.count >= 0
    ensures s.pcs[agent] == Idle ==>
              var t := Next(s, Load(agent));
              Enabled(t, TryLock(agent, false)) && Next(t, TryLock(agent, false)).pcs == s.pcs[agent := Holding]
    ensures s.pcs[agent].Locking? && s.pcs[agent].expected >= 0 ==>
              var t := Next(s, TryLock(agent, spurious));
              t.pcs[agent] != Holding ==>
                && (spurious || s.pcs[agent].expected != s.count)
                && Enabled(t, TryLock(agent, false)) && Next(t, TryLock(agent, false)).pcs == s.pcs[agent := Holding]
  {
  }

  /** Giving a lock back takes the agent out of the holders, and a step moves no other agent. */
  lemma {:induction false} LockIsReleased(s: State, step: Step, other: nat)
    requires Inv(s) && Enabled(s, step)
    ensures step.Release? ==>
              && step.agent in Holders(s) && Holders(Next(s, step)) == Holders(s) - {step.agent}
              && Next(s, step).count == s.count - 1 && Next(s, step).pcs[step.agent] == Idle
    ensures other != step.agent ==>
              && (other in Next(s, step).pcs <==> other in s.pcs)
              && (other in s.pcs ==> Next(s, step).pcs[other] == s.pcs[other])
  {
    if step.Release? {
      assert step.agent in Holders(s);
      MoveOne(s, step.agent, Idle, s.count - 1);
    }
  }

  /** An agent that was refused, or is about to be. */
  predicate TurnedAway(pc: Pc) {
    pc == Refused || (pc.Locking? && pc.expected < 0)
  }

  /** In every run a lock is refused only when the counter is -1; and it is -1 only after some `stop` closed it. */
  lemma {:induction false} RefusedOnlyWhenClosed(states: seq<State>, steps: seq<Step>, i: nat, agent: nat)
    requires Run(states, steps) && i < |states|
    ensures agent in states[i].pcs && TurnedAway(states[i].pcs[agent]) ==> states[i].count == -1
    ensures states[i].count == -1 ==> exists k :: 0 <= k < i && steps[k].TryStop? && states[k].count == 0
  {
    RunKeepsInv(states, steps, i);
    if i > 0 {
      RefusedOnlyWhenClosed(states, steps, i - 1, agent);
      RunKeepsInv(states, steps, i - 1);
      StepKeepsInv(states[i - 1], steps[i - 1]);
      ClosedByStop(states[i - 1], steps[i - 1]);
    }
  }

  lemma {:induction false} ClosedByStop(s: State, step: Step)
    requires Inv(s) && Enabled(s, step)
    ensures Next(s, step).count == -1 && s.count != -1 ==> step.TryStop? && s.count == 0
  {
    if step.Release? {
      assert step.agent in Holders(s);
    }
  }

  /** A call of `continue_lock` that finds the counter closed returns at once, with nothing. */
  lemma {:induction false} ClosedCallReturns(s: State, agent: nat)
    requires agent in s.pcs && s.pcs[agent] == Idle && s.count < 0
    ensures var t := Next(s, Load(agent));
            && Enabled(t, Refuse(agent)) && !Enabled(t, TryLock(agent, false))
            && var u := Next(t, Refuse(agent));
               u.pcs == s.pcs[agent := Refused] && Enabled(u, Return(agent)) && Next(u, Return(agent)) == s
  {
    assert s.pcs[agent := Idle] == s.pcs;
  }

  function Idlers(n: nat): (pcs: map<nat, Pc>)
    ensures forall a :: a in pcs <==> 0 <= a < n
    ensures forall a :: a in pcs ==> pcs[a] == Idle
  {
    if n == 0 then map[] else Idlers(n - 1)[n - 1 := Idle]
  }

  /** Any number of agents can hold a lock at once. */
  lemma {:induction false} ManyHold(n: nat, m: nat) returns (states: seq<State>, steps: seq<Step>)
    requires m <= n
    ensures Run(states, steps)
    ensures var s := states[|states| - 1];
            && s.count == m == |Holders(s)|
            && forall a :: 0 <= a < n ==> a in s.pcs && s.pcs[a] == if a < m then Holding else Idle
    decreases m
  {
    if m == 0 {
      states, steps := [State(0, Idlers(n))], [];
      assert Holders(states[0]) == {};
    } else {
      states, steps := ManyHold(n, m - 1);
      states, steps := OneMore(states, steps, m - 1);
    }
  }

  lemma {:induction false} OneMore(before: seq<State>, taken: seq<Step>, agent: nat)
    returns (states: seq<State>, steps: seq<Step>)
    requires Run(before, taken)
    requires var s := before[|before| - 1];
             agent in s.pcs && s.pcs[agent] == Idle && s.count >= 0
    ensures Run(states, steps)
    ensures var s, t := before[|before| - 1], states[|states| - 1];
            t.pcs == s.pcs[agent := Holding] && t.count == s.count + 1 == |Holders(t)|
  {
    var s := before[|before| - 1];
    var loaded := Next(s, Load(agent));
    var locked := Next(loaded, TryLock(agent, false));
    states, steps := before + [loaded, locked], taken + [Load(agent), TryLock(agent, false)];
    RunKeepsInv(states, steps, |states| - 1);
  }

  /** A `stop` that meets no lock closes the counter and returns. */
  lemma {:induction false} StopCloses(s: State, agent: nat)
    requires Inv(s) && agent in s.pcs && s.pcs[agent] == Idle && Holders(s) == {}
    ensures var t := Next(s, EnterStop(agent));
            && Enabled(t, TryStop(agent, false))
            && var u := Next(t, TryStop(agent, false));
               u.count == -1 && u.pcs == s.pcs[agent := Stopped] && Next(u, Return(agent)).pcs == s.pcs
  {
  }
}
