/** Requests come to an end: nothing deadlocks, and a run without new requests stops with everything cleaned up. */
module Progress {
  import opened Linearizability
  import opened LockInvariant
  import opened RegistryProtocol
  import opened TarballConsistency
  import opened TarballRuns

  // ---- Where requests can be ----

  /** Only publishes have an end step, and a request that leaves knows its result. */
  predicate Shaped(client: Client) {
    (client.pc == Editing ==> client.op.PublishCrate?) && (!IsEarly(client.pc) ==> client.outcome != Pending)
  }

  ghost predicate AllShaped(s: State) {
    forall c | c in s.clients :: Shaped(s.clients[c])
  }

  lemma MovedShaped(s: State, step: Step)
    requires Enabled(s, step) && AllShaped(s)
    ensures Shaped(Moved(s, step))
  {
  }

  lemma {:induction false} ReachableShapes(steps: seq<Step>)
    requires After(steps).Some?
    ensures AllShaped(After(steps).value) && FlagsSound(After(steps).value)
  {
    if steps != [] {
      var n := |steps| - 1;
      ReachableShapes(steps[..n]);
      ReachableRuns(steps[..n]);
      MovedShaped(After(steps[..n]).value, steps[n]);
      StepMovesOne(After(steps[..n]).value, steps[n]);
      FlagsKept(After(steps[..n]).value, steps[n]);
    }
  }

  // ---- The work left ----

  /** The steps a request has at most before it. */
  function Rank(pc: Pc): nat {
    match pc
    case Calling => 9
    case Waiting => 8
    case Locked => 7
    case Editing => 6
    case Ready => 5
    case Leaving => 4
    case Unlocked => 3
    case Dropped => 2
    case Rollback => 1
    case Done => 0
  }

  ghost function Work(clients: map<ClientId, Client>): nat {
    if clients == map[] then 0
    else
      var c :| c in clients;
      Rank(clients[c].pc) + Work(clients - {c})
  }

  lemma {:induction false} WorkOf(clients: map<ClientId, Client>, c: ClientId)
    requires c in clients
    ensures Work(clients) == Rank(clients[c].pc) + Work(clients - {c})
    decreases |clients|
  {
    var d :| d in clients && Work(clients) == Rank(clients[d].pc) + Work(clients - {d});
    if c != d {
      WorkOf(clients - {d}, c);
      WorkOf(clients - {c}, d);
      assert clients - {d} - {c} == clients - {c} - {d};
    }
  }

  lemma MovedRank(s: State, step: Step)
    requires Enabled(s, step)
    ensures !step.Begin? ==> step.c in s.clients && Rank(Moved(s, step).pc) < Rank(s.clients[step.c].pc)
    ensures step.Begin? ==> step.c !in s.clients && Rank(Moved(s, step).pc) <= 9
  {
  }

  /** Every step of a request leaves less to do; an arrival adds nine steps at most. */
  lemma StepWorks(s: State, step: Step)
    requires Enabled(s, step)
    ensures Work(Do(s, step).clients) + 1 <= Work(s.clients) + if step.Begin? then 10 else 0
  {
    var clients, clients' := s.clients, s.clients[step.c := Moved(s, step)];
    StepMovesOne(s, step);
    MovedRank(s, step);
    WorkOf(clients', step.c);
    assert clients' - {step.c} == clients - {step.c};
    if step.Begin? {
      assert clients - {step.c} == clients;
    } else {
      WorkOf(clients, step.c);
    }
  }

  function Arrivals(steps: seq<Step>): nat {
    if steps == [] then 0
    else Arrivals(steps[..|steps| - 1]) + if steps[|steps| - 1].Begin? then 1 else 0
  }

  /** No run goes on without new requests: it has at most ten steps for each that came in. */
  lemma {:induction false} RunsEnd(steps: seq<Step>)
    requires After(steps).Some?
    ensures |steps| + Work(After(steps).value.clients) <= 10 * Arrivals(steps)
  {
    if steps != [] {
      RunsEnd(steps[..|steps| - 1]);
      StepWorks(After(steps[..|steps| - 1]).value, steps[|steps| - 1]);
    }
  }

  // ---- Somebody can always move ----

  /** A step of a request on its own way: nothing arrives, fails or is cancelled. */
  predicate Serves(step: Step) {
    match step
    case Begin(_, _) => false
    case Cancel(_) => false
    case Pull(_, ok) => ok
    case Upload(_, written, ok) => written && ok
    case Put(_, ok) => ok
    case DeleteTarball(_, newGone, oldGone) => newGone && oldGone
    case _ => true
  }

  /** The step a request takes next, if no lock keeps it waiting. */
  function NextStep(c: ClientId, pc: Pc): Step
    requires pc != Done
  {
    match pc
    case Calling => Lookup(c)
    case Waiting => Acquire(c)
    case Locked => Pull(c, true)
    case Editing => Upload(c, true, true)
    case Ready => Put(c, true)
    case Leaving => Release(c)
    case Unlocked => TakeArc(c)
    case Dropped => OnUnlocked(c)
    case Rollback => DeleteTarball(c, true, true)
  }

  lemma CanMove(s: State, c: ClientId)
    requires AllShaped(s) && FlagsSound(s) && c in s.clients && s.clients[c].pc != Done
    requires s.clients[c].pc == Waiting ==> GuardFree(s, c)
    ensures Enabled(s, NextStep(c, s.clients[c].pc)) && Serves(NextStep(c, s.clients[c].pc))
  {
    assert Shaped(s.clients[c]) && FlagSound(s.clients[c]);
  }

  /** There is no deadlock: a request that is not done can move, or waits for a guard whose holder can. */
  lemma SomebodyMoves(s: State, c: ClientId) returns (d: ClientId)
    requires AllShaped(s) && FlagsSound(s) && c in s.clients && s.clients[c].pc != Done
    ensures d in s.clients && s.clients[d].pc != Done
    ensures Enabled(s, NextStep(d, s.clients[d].pc)) && Serves(NextStep(d, s.clients[d].pc))
    ensures d == c || (HoldsGuard(s.clients[d]) && s.clients[d].lock == s.clients[c].lock)
  {
    d := c;
    if s.clients[c].pc == Waiting && !GuardFree(s, c) {
      d :| d in s.clients && HoldsGuard(s.clients[d]) && s.clients[d].lock == s.clients[c].lock;
    }
    CanMove(s, d);
  }

  ghost predicate AllDone(s: State) {
    forall c | c in s.clients :: s.clients[c].pc == Done
  }

  ghost predicate AllServe(steps: seq<Step>) {
    forall i | 0 <= i < |steps| :: Serves(steps[i])
  }

  lemma DoneIsClean(steps: seq<Step>)
    requires After(steps).Some? && AllDone(After(steps).value)
    ensures After(steps).value.table == map[]
  {
    NoEntryLeaks(steps);
  }

  lemma OneMoves(steps: seq<Step>) returns (step: Step)
    requires After(steps).Some? && !AllDone(After(steps).value)
    ensures Serves(step) && After(steps + [step]).Some?
    ensures Work(After(steps + [step]).value.clients) < Work(After(steps).value.clients)
  {
    var s := After(steps).value;
    var c :| c in s.clients && s.clients[c].pc != Done;
    ReachableShapes(steps);
    var d := SomebodyMoves(s, c);
    step := NextStep(d, s.clients[d].pc);
    OneMore(steps, s, step);
    StepWorks(s, step);
  }

  /** `more` serves every request of the run to its end, and no lock is left in the table. */
  ghost predicate Finishes(steps: seq<Step>, more: seq<Step>) {
    AllServe(more) && After(steps + more).Some? && AllDone(After(steps + more).value) &&
    After(steps + more).value.table == map[]
  }

  lemma FinishesEarlier(steps: seq<Step>, step: Step, rest: seq<Step>)
    requires Serves(step) && Finishes(steps + [step], rest)
    ensures Finishes(steps, [step] + rest)
  {
    assert steps + ([step] + rest) == steps + [step] + rest;
  }

  /** From every reachable state the requests under way can all come to their end with nothing failing. */
  lemma {:induction false} AllFinish(steps: seq<Step>) returns (more: seq<Step>)
    requires After(steps).Some?
    ensures Finishes(steps, more)
    decreases Work(After(steps).value.clients)
  {
    if AllDone(After(steps).value) {
      more := [];
      assert steps + more == steps;
      DoneIsClean(steps);
    } else {
      var step := OneMoves(steps);
      var rest := AllFinish(steps + [step]);
      more := [step] + rest;
      FinishesEarlier(steps, step, rest);
    }
  }
}
