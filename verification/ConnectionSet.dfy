/** The server's set of raw pointers to its connections. Pointers are addresses, and an address may be
    used again once its connection is deleted. */
module ConnectionSet {

  /** A connection object that is allocated: the shared pointers to it; whether `create_connection` has put
      it into the set; whether an upgrade has taken it out, and then its socket; whether its deleter has
      taken it out; and whether `stop` has closed it and taken it out. */
  datatype Connection = Connection(
    refs: nat, inserted: bool, upgraded: bool, hasSocket: bool, erased: bool, closed: bool)

  datatype State = State(live: map<nat, Connection>, listed: set<nat>)

  /** The steps between which threads can interleave; what happens under the mutex is one step. */
  datatype Step =
    | Allocate(address: nat)
    | Insert(address: nat)
    | Share(address: nat)
    | Drop(address: nat)
    | Upgrade(address: nat)
    | TakeSocket(address: nat)
    | Erase(address: nat)
    | Free(address: nat)
    | Stop

  predicate Enabled(s: State, step: Step) {
    if step.Stop? then true
    else if step.Allocate? then step.address !in s.live
    else
      && step.address in s.live
      && var c := s.live[step.address];
         match step
         case Insert(_) => !c.inserted
         case Share(_) => c.inserted && c.refs > 0
         case Drop(_) => c.inserted && c.refs > 0
         case Upgrade(_) => c.inserted && c.refs > 0 && !c.upgraded
         case TakeSocket(_) => c.upgraded && c.refs > 0
         case Erase(_) => c.refs == 0 && !c.erased
         case Free(_) => c.refs == 0 && c.erased
  }

  function Next(s: State, step: Step): State
    requires Enabled(s, step)
  {
    match step
    case Allocate(a) => State(s.live[a := Connection(1, false, false, true, false, false)], s.listed)
    case Insert(a) => State(s.live[a := s.live[a].(inserted := true)], s.listed + {a})
    case Share(a) => State(s.live[a := s.live[a].(refs := s.live[a].refs + 1)], s.listed)
    case Drop(a) => State(s.live[a := s.live[a].(refs := s.live[a].refs - 1)], s.listed)
    case Upgrade(a) => State(s.live[a := s.live[a].(upgraded := true)], s.listed - {a})
    case TakeSocket(a) => State(s.live[a := s.live[a].(hasSocket := false)], s.listed)
    case Erase(a) => State(s.live[a := s.live[a].(erased := true)], s.listed - {a})
    case Free(a) => State(s.live - {a}, s.listed)
    case Stop =>
      State(map a | a in s.live :: if a in s.listed then s.live[a].(closed := true) else s.live[a], {})
  }

  const INITIAL := State(map[], {})

  ghost predicate Run(states: seq<State>, steps: seq<Step>) {
    && |states| == |steps| + 1 && states[0] == INITIAL
    && forall i :: 0 <= i < |steps| ==> Enabled(states[i], steps[i]) && states[i + 1] == Next(states[i], steps[i])
  }

  /** In the set are exactly the connections that were inserted and that neither an upgrade, nor their
      deleter, nor `stop` has taken out. */
  ghost predicate Inv(s: State) {
    && (forall a :: a in s.listed <==>
          a in s.live && var c := s.live[a]; c.inserted && !c.upgraded && !c.erased && !c.closed)
    && forall a :: a in s.live ==>
         var c := s.live[a];
         && (c.erased ==> c.refs == 0) && (!c.inserted ==> c.refs > 0 && !c.upgraded && !c.erased && !c.closed)
         && (!c.upgraded ==> c.hasSocket)
  }

  lemma {:induction false} StepKeepsInv(s: State, step: Step)
    requires Inv(s) && Enabled(s, step)
    ensures Inv(Next(s, step))
  {
  }

  lemma {:induction false} RunKeepsInv(states: seq<State>, steps: seq<Step>, i: nat)
    requires Run(states, steps) && i < |states|
    ensures Inv(states[i])
  {
    if i > 0 {
      RunKeepsInv(states, steps, i - 1);
      StepKeepsInv(states[i - 1], steps[i - 1]);
    }
  }

  /** In every reachable state every pointer in the set refers to an allocated connection that still has its
      socket, so a `stop` at any moment closes only such connections; and one that is freed is not listed. */
  lemma {:induction false} ListedAreLive(states: seq<State>, steps: seq<Step>, i: nat, a: nat)
    requires Run(states, steps) && i < |states|
    ensures a in states[i].listed ==> a in states[i].live && states[i].live[a].hasSocket && !states[i].live[a].upgraded
    ensures i < |steps| && steps[i] == Free(a) ==> a !in states[i + 1].live && a !in states[i + 1].listed
  {
    RunKeepsInv(states, steps, i);
  }

  /** A connection that is open and in use is closed by the first `stop` after it was inserted, unless it was
      upgraded. */
  lemma {:induction false} StopClosesAll(states: seq<State>, steps: seq<Step>, i: nat, a: nat)
    requires Run(states, steps) && i < |steps| && steps[i] == Stop
    requires a in states[i].live
    requires states[i].live[a].inserted && states[i].live[a].refs > 0 && !states[i].live[a].upgraded
    ensures states[i + 1].listed == {} && states[i + 1].live[a].closed
  {
    RunKeepsInv(states, steps, i);
  }

  /** The life of a connection: it is put into the set; shared pointers come and go; when the last one goes its
      deleter takes it out of the set and frees it. An upgrade takes it out while it lives on with its socket, which
      is then handed over. */
  lemma {:induction false} ConnectionLife(s: State, a: nat)
    requires Inv(s) && a in s.live
    ensures var c := s.live[a];
            && (!c.inserted ==>
                  Enabled(s, Insert(a)) && var t := Next(s, Insert(a)); a in t.listed && t.live[a].inserted)
            && (c.inserted && c.refs > 0 ==>
                  && Enabled(s, Share(a)) && Next(s, Share(a)).live[a].refs == c.refs + 1
                  && Enabled(s, Drop(a)) && Next(s, Drop(a)).live[a].refs == c.refs - 1)
            && (c.inserted && c.refs == 1 && !c.erased ==>
                  var dropped := Next(s, Drop(a));
                  && Enabled(dropped, Erase(a)) && !Enabled(dropped, Free(a))
                  && var erased := Next(dropped, Erase(a));
                     && a in erased.live && a !in erased.listed && Enabled(erased, Free(a))
                     && a !in Next(erased, Free(a)).live && a !in Next(erased, Free(a)).listed)
            && (c.inserted && c.refs > 0 && !c.upgraded ==>
                  && Enabled(s, Upgrade(a))
                  && var t := Next(s, Upgrade(a));
                     && a !in t.listed && a in t.live && t.live[a].hasSocket && Enabled(t, TakeSocket(a))
                     && !Next(t, TakeSocket(a)).live[a].hasSocket)
  {
  }
}
