/** What whole runs of the file-system index guarantee: one order of effects that respects real time, and files
    that only grow. */
module IndexHistory {
  import opened IndexOps
  import opened Linearizability
  import opened LockInvariant
  import opened RegistryProtocol
  import opened Wrappers

  /** The files, the log and every result of a run are those of the atomic index: nothing is lost, nothing appears
      that no request was told about, and every answer is a committed state. */
  lemma IndexIsAtomic(steps: seq<Step>)
    requires After(steps).Some?
    ensures var s := After(steps).value;
            s.files == Replay(s.log) && LogCommits(s.log) && AllPlaced(s) && EventsOwned(s)
  {
    ReachableRuns(steps);
  }

  /** `s'` comes after `s`: the log goes on, results stand, files only grow, and new requests are younger. */
  ghost predicate Later(s: State, s': State) {
    s.log <= s'.log &&
    (forall c | c in s.clients :: c in s'.clients && Stands(s.clients[c], s'.clients[c])) &&
    (forall c | c in s'.clients && c !in s.clients :: s'.clients[c].born >= |s.log|) &&
    (forall path | path in s.files :: path in s'.files && Extends(s.files[path].entries, s'.files[path].entries))
  }

  ghost predicate Stands(client: Client, client': Client) {
    client'.op == client.op && client'.path == client.path && client'.born == client.born &&
    (client.outcome != Pending ==> client'.outcome == client.outcome && client'.at == client.at)
  }

  lemma LaterReflexive(s: State)
    ensures Later(s, s)
  {
  }

  lemma LaterTransitive(a: State, b: State, c: State)
    requires Later(a, b) && Later(b, c)
    ensures Later(a, c)
  {
    forall path | path in a.files
      ensures path in c.files && Extends(a.files[path].entries, c.files[path].entries)
    {
      ExtendsTransitive(a.files[path].entries, b.files[path].entries, c.files[path].entries);
    }
    forall d | d in c.clients && d !in a.clients ensures c.clients[d].born >= |a.log| {
      if d in b.clients {
        assert Stands(b.clients[d], c.clients[d]);
      }
    }
    forall d | d in a.clients ensures d in c.clients && Stands(a.clients[d], c.clients[d]) {
      assert Stands(a.clients[d], b.clients[d]) && Stands(b.clients[d], c.clients[d]);
    }
  }

  lemma PullIsLater(s: State, s': State, c: ClientId)
    requires ClientsSound(s) && PullMove(s, s', c)
    ensures Later(s, s')
  {
    assert Stands(s.clients[c], s'.clients[c]);
  }

  lemma PutExtends(s: State, s': State, c: ClientId)
    requires LockInv(s) && FilesSound(s) && DraftsCurrent(s) && ClientsSound(s) && PutMove(s, s', c)
    ensures forall path | path in s.files ::
              path in s'.files && Extends(s.files[path].entries, s'.files[path].entries)
  {
    PutKeepsFiles(s, s', c);
    forall path | path in s.files
      ensures path in s'.files && Extends(s.files[path].entries, s'.files[path].entries)
    {
      if path == s.clients[c].path {
        assert EntriesOf(View(s.files, path)) == s.files[path].entries;
      }
    }
  }

  lemma PutIsLater(s: State, s': State, c: ClientId)
    requires LockInv(s) && FilesSound(s) && DraftsCurrent(s) && ClientsSound(s) && PutMove(s, s', c)
    ensures Later(s, s')
  {
    PutExtends(s, s', c);
    assert Stands(s.clients[c], s'.clients[c]);
  }

  lemma QuietIsLater(s: State, s': State, c: ClientId)
    requires ClientsSound(s) && QuietResult(s, s', c)
    ensures Later(s, s')
  {
    assert Stands(s.clients[c], s'.clients[c]);
  }

  lemma BeginIsLater(s: State, c: ClientId, op: Op)
    requires Enabled(s, Begin(c, op))
    ensures Later(s, Do(s, Begin(c, op)))
  {
    assert NewClient(op, |s.log|).born == |s.log|;
  }

  lemma StepIsLater(s: State, step: Step)
    requires LockInv(s) && RunInv(s) && Enabled(s, step)
    ensures Later(s, Do(s, step))
  {
    if step.Begin? {
      BeginIsLater(s, step.c, step.op);
    } else if step.Pull? && step.ok {
      PullMoves(s, step.c);
      PullIsLater(s, Do(s, step), step.c);
    } else if step.Put? && step.ok {
      PutMoves(s, step.c);
      PutIsLater(s, Do(s, step), step.c);
    } else {
      QuietResults(s, step);
      QuietIsLater(s, Do(s, step), step.c);
    }
  }

  lemma LastStepIsLater(steps: seq<Step>)
    requires After(steps).Some? && steps != []
    ensures var before := After(steps[..|steps| - 1]);
            before.Some? && Later(before.value, After(steps).value)
  {
    FrontRuns(steps);
    ReachableRuns(steps[..|steps| - 1]);
    StepIsLater(After(steps[..|steps| - 1]).value, steps[|steps| - 1]);
  }

  /** The prefix is a run, and its state is earlier. */
  ghost predicate Earlier(prefix: seq<Step>, steps: seq<Step>)
    requires After(steps).Some?
  {
    After(prefix).Some? && Later(After(prefix).value, After(steps).value)
  }

  lemma EarlierThanNext(prefix: seq<Step>, steps: seq<Step>)
    requires After(steps).Some? && steps != [] && After(steps[..|steps| - 1]).Some?
    requires Earlier(prefix, steps[..|steps| - 1])
    ensures Earlier(prefix, steps)
  {
    LastStepIsLater(steps);
    LaterTransitive(After(prefix).value, After(steps[..|steps| - 1]).value, After(steps).value);
  }

  /** Every prefix of a run is a run whose state is earlier. */
  lemma {:induction false} PrefixIsEarlier(steps: seq<Step>, n: nat)
    requires After(steps).Some? && n <= |steps|
    ensures Earlier(steps[..n], steps)
    decreases |steps|
  {
    if n == |steps| {
      assert steps[..n] == steps;
      LaterReflexive(After(steps).value);
    } else {
      FrontRuns(steps);
      PrefixIsEarlier(steps[..|steps| - 1], n);
      assert steps[..|steps| - 1][..n] == steps[..n];
      EarlierThanNext(steps[..n], steps);
    }
  }

  /** The result was decided by the index, not by a failed input or output, a cancellation or a bad name. */
  predicate Decided(outcome: Outcome) {
    outcome.Committed? || outcome.Answered? || outcome == Failed(Conflict) || outcome == Failed(NotFound)
  }

  /** A request that had its result before another came in takes effect before it. */
  lemma RealTimeOrder(steps: seq<Step>, n: nat, c: ClientId, d: ClientId)
    requires After(steps).Some? && n <= |steps| && After(steps[..n]).Some?
    requires var s := After(steps[..n]).value; c in s.clients && Decided(s.clients[c].outcome) && d !in s.clients
    requires var s' := After(steps).value; d in s'.clients && Decided(s'.clients[d].outcome)
    ensures var s, s' := After(steps[..n]).value, After(steps).value;
            c in s'.clients && s'.clients[c].at == s.clients[c].at &&
            s'.clients[c].at <= s'.clients[d].at &&
            (s'.clients[c].outcome.Committed? ==> s'.clients[c].at < s'.clients[d].at)
  {
    PrefixIsEarlier(steps, n);
    ReachableRuns(steps[..n]);
    ReachableRuns(steps);
    var s, s' := After(steps[..n]).value, After(steps).value;
    assert Placed(s.log, c, s.clients[c]) && Placed(s'.log, d, s'.clients[d]);
    assert Stands(s.clients[c], s'.clients[c]);
  }

  /** Every file ever reachable is non-empty, holds no version twice and ends with the publication of its last
      release; a later state of the run has the same file with releases added and `yanked` flags changed. So
      `rfind` has one candidate and listing always finds a trailing publication. */
  lemma FilesOnlyGrow(steps: seq<Step>, n: nat, path: string)
    requires After(steps).Some? && n <= |steps| && After(steps[..n]).Some?
    requires path in After(steps[..n]).value.files
    ensures var s, s' := After(steps[..n]).value, After(steps).value;
            path in s'.files && Extends(s.files[path].entries, s'.files[path].entries) &&
            SoundFile(s'.files[path]) && Filed(path, s'.files[path])
  {
    PrefixIsEarlier(steps, n);
    ReachableRuns(steps);
  }

  /** What a refusal means, at the moment the request takes effect: a conflict found the version of its publish there; a
      request not found is no publish, and its version or its file is not there. */
  lemma RefusalsExactly(steps: seq<Step>, c: ClientId)
    requires After(steps).Some? && c in After(steps).value.clients
    ensures var s := After(steps).value;
            var client := s.clients[c];
            (client.outcome == Failed(Conflict) || client.outcome == Failed(NotFound) ==>
              client.born <= client.at <= |s.log| &&
              var files := Replay(s.log[..client.at]);
              var entries := if client.path in files then files[client.path].entries else [];
              if client.outcome == Failed(Conflict) then
                client.op.PublishCrate? && exists i | 0 <= i < |entries| :: entries[i].vers == client.op.publish.vers
              else
                !client.op.PublishCrate? && (client.op.ReadEntries? ==> client.path !in files) &&
                (client.op.SetYank? ==> forall i | 0 <= i < |entries| :: entries[i].vers != client.op.vers))
  {
    ReachableRuns(steps);
    var s := After(steps).value;
    var client := s.clients[c];
    assert Placed(s.log, c, client);
    if client.outcome == Failed(Conflict) || client.outcome == Failed(NotFound) {
      JudgedExactly(View(Replay(s.log[..client.at]), client.path), client.op);
    }
  }

  /** The refusals of the atomic index. */
  lemma JudgedExactly(file: Option<IndexFile>, op: Op)
    ensures Judge(file, op) == Refuse(Conflict) ==>
              op.PublishCrate? && exists i | 0 <= i < |EntriesOf(file)| :: EntriesOf(file)[i].vers == op.publish.vers
    ensures Judge(file, op) == Refuse(NotFound) ==>
              !op.PublishCrate? && (op.ReadEntries? ==> file.None?) &&
              (op.SetYank? ==> forall i | 0 <= i < |EntriesOf(file)| :: EntriesOf(file)[i].vers != op.vers)
  {
    match op
    case PublishCrate(p, cksum, tarball) => PublishExactly(file, p, cksum, tarball);
    case SetYank(name, vers, yank) => YankExactly(file, name, vers, yank);
    case ReadEntries(name) => ReadExactly(file, name);
  }
}
