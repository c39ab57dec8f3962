/** What a request's steps were, read off its state: why it failed, whether it stored its tarball, whether it was rolled
    back. */
module Outcomes {
  import opened IndexOps
  import opened Linearizability
  import opened LockInvariant
  import opened Progress
  import opened RegistryProtocol
  import opened TarballConsistency
  import opened TarballRuns

  predicate FailsIo(step: Step, c: ClientId) {
    step in {Pull(c, false), Upload(c, true, false), Upload(c, false, false), Put(c, false)}
  }

  predicate RollsBack(step: Step, c: ClientId) {
    step.DeleteTarball? && step.c == c
  }

  /** A service error comes from an input or output that failed, a cancellation from being cancelled. The flag means an
      upload that was reported, and a publish that stored its tarball and failed is not done before its rollback ran or
      was cancelled. */
  ghost predicate Explained(steps: seq<Step>, c: ClientId, client: Client) {
    (client.outcome == Failed(ServiceError) <==> exists i | 0 <= i < |steps| :: FailsIo(steps[i], c)) &&
    (client.stored <==> Upload(c, true, true) in steps) &&
    (client.outcome == Cancelled ==> Cancel(c) in steps) &&
    (client.pc == Done && client.stored && client.outcome.Failed? ==>
      Cancel(c) in steps || exists i | 0 <= i < |steps| :: RollsBack(steps[i], c))
  }

  /** Nothing was done for a request that has not come in. */
  ghost predicate Untouched(steps: seq<Step>, c: ClientId) {
    forall i | 0 <= i < |steps| :: steps[i].c != c
  }

  /** What one step of a request does to what is told of it. */
  lemma StepTells(s: State, step: Step)
    requires Enabled(s, step) && ClientsSound(s) && FlagsSound(s) && AllShaped(s) && !step.Begin?
    ensures var client, client' := s.clients[step.c], Moved(s, step);
            (client'.outcome == Failed(ServiceError) <==>
              client.outcome == Failed(ServiceError) || FailsIo(step, step.c)) &&
            (client'.stored <==> client.stored || step == Upload(step.c, true, true)) &&
            (client'.outcome == Cancelled ==> client.outcome == Cancelled || step == Cancel(step.c)) &&
            (client'.pc == Done && client'.stored && client'.outcome.Failed? ==>
              step == Cancel(step.c) || RollsBack(step, step.c))
  {
    assert Shaped(s.clients[step.c]) && FlagSound(s.clients[step.c]);
  }

  lemma NewIsExplained(steps: seq<Step>, c: ClientId, op: Op, born: nat)
    requires Untouched(steps, c)
    ensures Explained(steps + [Begin(c, op)], c, NewClient(op, born))
  {
  }

  lemma ExplainedByAnother(steps: seq<Step>, step: Step, c: ClientId, client: Client)
    requires Explained(steps, c, client) && step.c != c
    ensures Explained(steps + [step], c, client)
  {
    forall i | 0 <= i < |steps| ensures (steps + [step])[i] == steps[i] {
    }
  }

  lemma ExplainedByOwn(steps: seq<Step>, s: State, step: Step)
    requires Enabled(s, step) && ClientsSound(s) && FlagsSound(s) && AllShaped(s) && !step.Begin?
    requires Explained(steps, step.c, s.clients[step.c])
    ensures Explained(steps + [step], step.c, Moved(s, step))
  {
    StepTells(s, step);
    var all := steps + [step];
    forall i | 0 <= i < |steps| ensures all[i] == steps[i] {
    }
    assert all[|steps|] == step;
  }

  ghost predicate Told(steps: seq<Step>, clients: map<ClientId, Client>, c: ClientId) {
    if c in clients then Explained(steps, c, clients[c]) else Untouched(steps, c)
  }

  lemma ToldOneMore(steps: seq<Step>, s: State, step: Step, c: ClientId)
    requires Enabled(s, step) && ClientsSound(s) && FlagsSound(s) && AllShaped(s) && Told(steps, s.clients, c)
    ensures Told(steps + [step], s.clients[step.c := Moved(s, step)], c)
  {
    if step.c != c {
      if c in s.clients {
        ExplainedByAnother(steps, step, c, s.clients[c]);
      }
    } else if step.Begin? {
      NewIsExplained(steps, c, step.op, |s.log|);
    } else {
      ExplainedByOwn(steps, s, step);
    }
  }

  /** In every run. */
  lemma {:induction false} AllExplained(steps: seq<Step>, c: ClientId)
    requires After(steps).Some?
    ensures Told(steps, After(steps).value.clients, c)
  {
    if steps != [] {
      var n := |steps| - 1;
      FrontRuns(steps);
      AllExplained(steps[..n], c);
      ReachableRuns(steps[..n]);
      ReachableShapes(steps[..n]);
      ToldOneMore(steps[..n], After(steps[..n]).value, steps[n], c);
      StepMovesOne(After(steps[..n]).value, steps[n]);
      assert steps[..n] + [steps[n]] == steps;
    }
  }
}
