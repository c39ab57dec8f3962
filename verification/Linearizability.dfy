/** The file-system index behaves as one atomic map: every request takes effect at one moment between its arrival
    and its answer, and the files are what those moments make of an empty index. */
module Linearizability {
  import opened CratePaths
  import opened IndexOps
  import opened LockInvariant
  import opened RegistryProtocol
  import opened Wrappers

  /** The atomic index: the requests of a log applied one after the other, nothing in between. */
  ghost function Replay(log: seq<Event>): map<string, IndexFile> {
    if log == [] then map[]
    else
      var before, event := Replay(log[..|log| - 1]), log[|log| - 1];
      var verdict := Judge(View(before, event.path), event.op);
      if verdict.Commit? then before[event.path := verdict.file] else before
  }

  /** What the atomic index says to a request that arrives after the first `at` events. */
  ghost function VerdictAt(log: seq<Event>, at: nat, client: Client): Verdict
    requires at <= |log|
  {
    Judge(View(Replay(log[..at]), client.path), client.op)
  }

  /** Every logged request is one the atomic index accepts when its turn comes. */
  ghost predicate LogCommits(log: seq<Event>) {
    forall i | 0 <= i < |log| :: Judge(View(Replay(log[..i]), log[i].path), log[i].op).Commit?
  }

  /** A request's result is what the atomic index answers at a moment `at` that is not before its arrival. */
  ghost predicate Placed(log: seq<Event>, c: ClientId, client: Client) {
    client.born <= |log| &&
    match client.outcome
    case Committed => client.born <= client.at < |log| && log[client.at] == Event(c, client.path, client.op)
    case Answered(file) =>
      client.born <= client.at <= |log| && VerdictAt(log, client.at, client) == Answer(file)
    case Failed(error) =>
      (error == Conflict || error == NotFound ==>
        client.born <= client.at <= |log| && VerdictAt(log, client.at, client) == Refuse(error)) &&
      (error == CrateNameNotAllowed ==> MetaPath(client.key).None?)
    case _ => true
  }

  ghost predicate AllPlaced(s: State) {
    forall c | c in s.clients :: Placed(s.log, c, s.clients[c])
  }

  /** Each event belongs to one request, which was told it succeeded. */
  ghost predicate EventsOwned(s: State) {
    forall i | 0 <= i < |s.log| ::
      s.log[i].client in s.clients && s.clients[s.log[i].client].outcome == Committed &&
      s.clients[s.log[i].client].at == i
  }

  predicate IsEarly(pc: Pc) {
    pc in {Calling, Waiting, Locked, Editing, Ready}
  }

  predicate HasDraft(client: Client) {
    client.pc == Editing || client.pc == Ready
  }

  /** A request has no result until it leaves, and its key is its crate's name in lower case. */
  ghost predicate ClientsSound(s: State) {
    forall c | c in s.clients ::
      (IsEarly(s.clients[c].pc) ==> s.clients[c].outcome == Pending) &&
      (s.clients[c].pc == Rollback ==> s.clients[c].outcome.Failed?) &&
      s.clients[c].key == ToLower(CrateNameOf(s.clients[c].op))
  }

  /** A draft is what the request makes of the file as it is now: nobody changed it since it was read. */
  ghost predicate DraftsCurrent(s: State) {
    forall c | c in s.clients && HasDraft(s.clients[c]) ::
      Judge(View(s.files, s.clients[c].path), s.clients[c].op) == Commit(s.clients[c].draft)
  }

  /** Every file has a sound history and holds releases of its own crate. */
  ghost predicate FilesSound(s: State) {
    forall path | path in s.files :: SoundFile(s.files[path]) && Filed(path, s.files[path])
  }

  ghost predicate Filed(path: string, file: IndexFile) {
    forall i | 0 <= i < |file.entries| :: MetaPath(ToLower(file.entries[i].name)) == Some(path)
  }

  ghost predicate RunInv(s: State) {
    s.files == Replay(s.log) && LogCommits(s.log) && AllPlaced(s) && EventsOwned(s) && ClientsSound(s) &&
    DraftsCurrent(s) && FilesSound(s)
  }

  // ---- Steps that neither read nor write an index file ----

  /** `c` alone moves; files and log stay as they are. */
  ghost predicate ClientMove(s: State, s': State, c: ClientId) {
    s'.files == s.files && s'.log == s.log &&
    c in s.clients && c in s'.clients && s'.clients == s.clients[c := s'.clients[c]] &&
    s'.clients[c].op == s.clients[c].op && s'.clients[c].key == s.clients[c].key &&
    s'.clients[c].path == s.clients[c].path && s'.clients[c].born == s.clients[c].born
  }

  ghost predicate QuietResult(s: State, s': State, c: ClientId) {
    ClientMove(s, s', c) &&
    var client, client' := s.clients[c], s'.clients[c];
    client'.at == client.at && client'.draft == client.draft &&
    (HasDraft(client') ==> HasDraft(client)) &&
    (IsEarly(client'.pc) ==> IsEarly(client.pc) && client'.outcome == client.outcome) &&
    (client'.outcome == client.outcome ||
      (IsEarly(client.pc) && client'.outcome in {Failed(ServiceError), Cancelled})) &&
    (client'.pc == Rollback ==> client'.outcome.Failed?)
  }

  lemma FailureIsQuiet(s: State, step: Step)
    requires Enabled(s, step) && ClientsSound(s)
    requires step.Cancel? || step.Upload? || (step.Pull? && !step.ok) || (step.Put? && !step.ok)
    ensures QuietResult(s, Do(s, step), step.c)
  {
  }

  lemma LockingIsQuiet(s: State, step: Step)
    requires Enabled(s, step) && ClientsSound(s)
    requires step.Lookup? || step.Acquire? || step.Release? || step.TakeArc? || step.OnUnlocked? || step.DeleteTarball?
    ensures QuietResult(s, Do(s, step), step.c)
  {
  }

  lemma QuietResults(s: State, step: Step)
    requires Enabled(s, step) && ClientsSound(s)
    requires !step.Begin? && !(step.Pull? && step.ok) && !(step.Put? && step.ok)
    ensures QuietResult(s, Do(s, step), step.c)
  {
    if step.Cancel? || step.Upload? || step.Pull? || step.Put? {
      FailureIsQuiet(s, step);
    } else {
      LockingIsQuiet(s, step);
    }
  }

  lemma QuietPlaced(s: State, s': State, c: ClientId)
    requires AllPlaced(s) && EventsOwned(s) && ClientsSound(s) && QuietResult(s, s', c)
    ensures AllPlaced(s') && EventsOwned(s')
  {
    assert Placed(s.log, c, s.clients[c]);
  }

  lemma QuietKeepsRun(s: State, s': State, c: ClientId)
    requires RunInv(s) && QuietResult(s, s', c)
    ensures RunInv(s')
  {
    QuietPlaced(s, s', c);
  }

  /** A request that just came in, or was refused for its name. */
  ghost predicate Newcomer(log: seq<Event>, c: ClientId, client: Client) {
    Placed(log, c, client) && !HasDraft(client) && client.pc != Rollback &&
    (IsEarly(client.pc) ==> client.outcome == Pending) && client.key == ToLower(CrateNameOf(client.op))
  }

  lemma NewClientIsNewcomer(log: seq<Event>, c: ClientId, op: Op)
    ensures Newcomer(log, c, NewClient(op, |log|))
  {
  }

  lemma NewcomerKeepsRun(s: State, s': State, c: ClientId, client: Client)
    requires RunInv(s) && c !in s.clients && s'.clients == s.clients[c := client] && Newcomer(s.log, c, client)
    requires s'.files == s.files && s'.log == s.log
    ensures RunInv(s')
  {
  }

  // ---- Reading the file ----

  ghost predicate PullMove(s: State, s': State, c: ClientId) {
    ClientMove(s, s', c) && IsEarly(s.clients[c].pc) &&
    s'.clients[c] == Pulled(s.clients[c], Judge(View(s.files, s.clients[c].path), s.clients[c].op), |s.log|)
  }

  /** The guarded path is the request's own, so it reads its crate's file. */
  lemma PullMoves(s: State, c: ClientId)
    requires LockInv(s) && Enabled(s, Pull(c, true))
    ensures PullMove(s, Do(s, Pull(c, true)), c)
  {
  }

  lemma PullPlaced(log: seq<Event>, c: ClientId, client: Client)
    requires Placed(log, c, client) && client.outcome == Pending
    ensures Placed(log, c, Pulled(client, VerdictAt(log, |log|, client), |log|))
  {
  }

  lemma PullPlaces(s: State, s': State, c: ClientId)
    requires AllPlaced(s) && EventsOwned(s) && ClientsSound(s) && s.files == Replay(s.log) && PullMove(s, s', c)
    ensures AllPlaced(s') && EventsOwned(s')
  {
    assert s.log[..|s.log|] == s.log;
    PullPlaced(s.log, c, s.clients[c]);
    assert Placed(s'.log, c, s'.clients[c]);
  }

  lemma PullKeepsClients(s: State, s': State, c: ClientId)
    requires DraftsCurrent(s) && ClientsSound(s) && PullMove(s, s', c)
    ensures DraftsCurrent(s') && ClientsSound(s')
  {
  }

  lemma PullKeepsRun(s: State, s': State, c: ClientId)
    requires RunInv(s) && PullMove(s, s', c)
    ensures RunInv(s')
  {
    PullPlaces(s, s', c);
    PullKeepsClients(s, s', c);
  }

  // ---- Writing the file ----

  ghost predicate PutMove(s: State, s': State, c: ClientId) {
    c in s.clients && s.clients[c].pc == Ready &&
    s'.clients == s.clients[c := s.clients[c].(pc := Leaving, outcome := Committed, at := |s.log|)] &&
    s'.files == s.files[s.clients[c].path := s.clients[c].draft] &&
    s'.log == s.log + [Event(c, s.clients[c].path, s.clients[c].op)]
  }

  lemma PutMoves(s: State, c: ClientId)
    requires LockInv(s) && Enabled(s, Put(c, true))
    ensures PutMove(s, Do(s, Put(c, true)), c)
  {
  }

  /** While one request has a draft, no other request has a draft of the same file. */
  lemma DraftIsAlone(s: State, c: ClientId, d: ClientId)
    requires LockInv(s) && DraftsCurrent(s) && c in s.clients && d in s.clients && c != d
    requires HasDraft(s.clients[c]) && HasDraft(s.clients[d])
    ensures s.clients[c].path != s.clients[d].path
  {
    var client, other := s.clients[c], s.clients[d];
    assert Judge(View(s.files, client.path), client.op).Commit?;
    if client.path == other.path {
      MetaPathInjective(client.key, other.key);
    }
  }

  lemma ReplayOneMore(log: seq<Event>, event: Event)
    ensures var verdict := Judge(View(Replay(log), event.path), event.op);
            Replay(log + [event]) ==
              if verdict.Commit? then Replay(log)[event.path := verdict.file] else Replay(log)
  {
    assert (log + [event])[..|log|] == log;
  }

  lemma LogCommitsOneMore(log: seq<Event>, event: Event)
    requires LogCommits(log) && Judge(View(Replay(log), event.path), event.op).Commit?
    ensures LogCommits(log + [event])
  {
    var log' := log + [event];
    forall i | 0 <= i < |log'|
      ensures Judge(View(Replay(log'[..i]), log'[i].path), log'[i].op).Commit?
    {
      if i == |log| {
        assert log'[..i] == log;
      } else {
        assert log'[..i] == log[..i];
      }
    }
  }

  lemma PlacedLater(log: seq<Event>, event: Event, c: ClientId, client: Client)
    requires Placed(log, c, client)
    ensures Placed(log + [event], c, client)
  {
    if client.at <= |log| {
      assert (log + [event])[..client.at] == log[..client.at];
    }
  }

  lemma PutPlaces(s: State, s': State, c: ClientId)
    requires AllPlaced(s) && EventsOwned(s) && ClientsSound(s) && PutMove(s, s', c)
    ensures AllPlaced(s') && EventsOwned(s')
  {
    assert Placed(s.log, c, s.clients[c]);
    forall d | d in s'.clients ensures Placed(s'.log, d, s'.clients[d]) {
      if d != c {
        PlacedLater(s.log, s'.log[|s.log|], d, s.clients[d]);
      }
    }
  }

  lemma PutKeepsDrafts(s: State, s': State, c: ClientId)
    requires LockInv(s) && DraftsCurrent(s) && PutMove(s, s', c)
    ensures DraftsCurrent(s')
  {
    forall d | d in s'.clients && HasDraft(s'.clients[d])
      ensures Judge(View(s'.files, s'.clients[d].path), s'.clients[d].op) == Commit(s'.clients[d].draft)
    {
      DraftIsAlone(s, c, d);
      assert View(s'.files, s'.clients[d].path) == View(s.files, s.clients[d].path);
    }
  }

  lemma CommitKeepsFiling(path: string, file: Option<IndexFile>, op: Op)
    requires Judge(file, op).Commit? && MetaPath(ToLower(CrateNameOf(op))) == Some(path)
    requires file.Some? ==> Filed(path, file.value)
    ensures Filed(path, Judge(file, op).file)
  {
  }

  lemma PutKeepsFiles(s: State, s': State, c: ClientId)
    requires LockInv(s) && FilesSound(s) && DraftsCurrent(s) && ClientsSound(s) && PutMove(s, s', c)
    ensures FilesSound(s')
    ensures Extends(EntriesOf(View(s.files, s.clients[c].path)), s.clients[c].draft.entries)
  {
    var client := s.clients[c];
    var file := View(s.files, client.path);
    CommitKeepsHistory(file, client.op);
    CommitKeepsFiling(client.path, file, client.op);
  }

  lemma PutKeepsRun(s: State, s': State, c: ClientId)
    requires RunInv(s) && LockInv(s) && PutMove(s, s', c)
    ensures RunInv(s')
  {
    var event := Event(c, s.clients[c].path, s.clients[c].op);
    ReplayOneMore(s.log, event);
    LogCommitsOneMore(s.log, event);
    PutPlaces(s, s', c);
    PutKeepsDrafts(s, s', c);
    PutKeepsFiles(s, s', c);
    PutKeepsClients(s, s', c);
  }

  lemma PutKeepsClients(s: State, s': State, c: ClientId)
    requires ClientsSound(s) && PutMove(s, s', c)
    ensures ClientsSound(s')
  {
  }

  lemma StepKeepsRun(s: State, step: Step)
    requires RunInv(s) && LockInv(s) && Enabled(s, step)
    ensures RunInv(Do(s, step))
  {
    if step.Begin? {
      NewClientIsNewcomer(s.log, step.c, step.op);
      NewcomerKeepsRun(s, Do(s, step), step.c, NewClient(step.op, |s.log|));
    } else if step.Pull? && step.ok {
      PullMoves(s, step.c);
      PullKeepsRun(s, Do(s, step), step.c);
    } else if step.Put? && step.ok {
      PutMoves(s, step.c);
      PutKeepsRun(s, Do(s, step), step.c);
    } else {
      QuietResults(s, step);
      QuietKeepsRun(s, Do(s, step), step.c);
    }
  }

  lemma {:induction false} ReachableRuns(steps: seq<Step>)
    requires After(steps).Some?
    ensures LockInv(After(steps).value) && RunInv(After(steps).value)
  {
    ReachableLocks(steps);
    if steps == [] {
    } else {
      var n := |steps| - 1;
      ReachableRuns(steps[..n]);
      StepKeepsRun(After(steps[..n]).value, steps[n]);
    }
  }
}
