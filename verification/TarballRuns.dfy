/** Whole runs over both stores: when the tarballs stay, and the one race that loses one. */
module TarballRuns {
  import opened CratePaths
  import opened IndexOps
  import opened Linearizability
  import opened LockInvariant
  import opened RegistryProtocol
  import opened TarballConsistency
  import opened Wrappers
  import SemVer
  import Storage

  // ---- What holds in every run ----

  lemma FlagsOfMoved(s: State, step: Step)
    requires ClientsSound(s) && Enabled(s, step) && FlagsSound(s)
    ensures FlagSound(Moved(s, step))
  {
    if step.Begin? {
      assert !NewClient(step.op, |s.log|).stored;
    }
  }

  lemma FlagsKept(s: State, step: Step)
    requires ClientsSound(s) && Enabled(s, step) && FlagsSound(s)
    ensures FlagsSound(Do(s, step))
  {
    FlagsOfMoved(s, step);
    StepMovesOne(s, step);
  }

  lemma PutKeepsVersions(digest: Digest, s: State, s': State, c: ClientId)
    requires HandlerOps(digest, s) && VersionsSound(s) && DraftsCurrent(s) && PutMove(s, s', c)
    ensures VersionsSound(s')
  {
    forall path, i: nat | EntryAt(s'.files, path, i) ensures SemVer.WellFormed(s'.files[path].entries[i].vers) {
      var client := s.clients[c];
      if path == client.path {
        DraftReleases(View(s.files, path), client.op, i);
      }
      if path != client.path || i < |EntriesOf(View(s.files, path))| {
        assert EntryAt(s.files, path, i);
      }
    }
  }

  lemma VersionsKept(digest: Digest, s: State, step: Step)
    requires LockInv(s) && RunInv(s) && SideInv(digest, s) && Enabled(s, step)
    ensures VersionsSound(Do(s, step))
  {
    var s' := Do(s, step);
    if step.Put? && step.ok {
      PutMoves(s, step.c);
      PutKeepsVersions(digest, s, s', step.c);
    } else {
      assert s'.files == s.files;
      forall path, i: nat | EntryAt(s'.files, path, i) ensures SemVer.WellFormed(s'.files[path].entries[i].vers) {
        assert EntryAt(s.files, path, i);
      }
    }
  }

  lemma OpsKept(digest: Digest, s: State, step: Step)
    requires HandlerOps(digest, s) && Enabled(s, step) && (step.Begin? ==> HandlerOp(digest, step.op))
    ensures HandlerOps(digest, Do(s, step))
  {
    var s' := Do(s, step);
    if !step.Begin? {
      assert s'.clients[step.c].op == s.clients[step.c].op;
    } else {
      assert NewClient(step.op, |s.log|).op == step.op;
    }
  }

  lemma {:induction false} ReachableSides(digest: Digest, steps: seq<Step>)
    requires After(steps).Some? && HandlerSteps(digest, steps)
    ensures var s := After(steps).value; LockInv(s) && RunInv(s) && SideInv(digest, s)
  {
    ReachableRuns(steps);
    if steps == [] {
    } else {
      var n := |steps| - 1;
      ReachableSides(digest, steps[..n]);
      var s := After(steps[..n]).value;
      OpsKept(digest, s, steps[n]);
      VersionsKept(digest, s, steps[n]);
      FlagsKept(s, steps[n]);
    }
  }

  /** The handler's assertion that a successful publish had stored its tarball never fires. */
  lemma StoredAssertionHolds(digest: Digest, steps: seq<Step>, c: ClientId)
    requires After(steps).Some? && HandlerSteps(digest, steps) && c in After(steps).value.clients
    requires After(steps).value.clients[c].op.PublishCrate? && After(steps).value.clients[c].outcome == Committed
    ensures After(steps).value.clients[c].stored
  {
    ReachableSides(digest, steps);
  }

  /** The two stores agree at every moment of a run. */
  ghost predicate AlwaysKept(digest: Digest, steps: seq<Step>)
    requires After(steps).Some?
  {
    Kept(digest, After(steps).value) && (steps != [] ==> AlwaysKept(digest, steps[..|steps| - 1]))
  }

  /** No rollback of a run deletes a tarball that is needed at that moment. */
  ghost predicate NeverHarmed(steps: seq<Step>)
    requires After(steps).Some?
  {
    steps == [] ||
    (NeverHarmed(steps[..|steps| - 1]) && !Harm(After(steps[..|steps| - 1]).value, steps[|steps| - 1]))
  }

  /** Listed releases and publishes about to list one all have their tarballs throughout a run exactly when no rollback
      hits a tarball that one of them needs. */
  lemma {:induction false} KeptExactly(digest: Digest, steps: seq<Step>)
    requires After(steps).Some? && HandlerSteps(digest, steps)
    ensures AlwaysKept(digest, steps) <==> NeverHarmed(steps)
  {
    if steps == [] {
    } else {
      var prefix, last := steps[..|steps| - 1], steps[|steps| - 1];
      KeptExactly(digest, prefix);
      ReachableSides(digest, prefix);
      if Kept(digest, After(prefix).value) {
        TarballsKeptExactly(digest, After(prefix).value, last);
      }
    }
  }

  // ---- Rollbacks that nobody competes with ----

  /** A publish that stored its tarball and failed, up to its delete. */
  predicate RollbackPending(client: Client) {
    client.stored && client.outcome.Failed? && client.op.PublishCrate? &&
    client.pc in {Leaving, Unlocked, Dropped, Rollback}
  }

  /** While a rollback is pending, no other publish of the same name, version and checksum is under way. */
  ghost predicate Quiet(s: State) {
    forall c, d | c in s.clients && d in s.clients && c != d && RollbackPending(s.clients[c]) &&
                  s.clients[d].op.PublishCrate? && s.clients[d].pc != Done ::
      !SameUpload(s.clients[c].op, s.clients[d].op)
  }

  /** What a pending rollback will delete is not listed. */
  ghost predicate RollbacksFree(s: State) {
    forall c, path, i: nat | c in s.clients && RollbackPending(s.clients[c]) && EntryAt(s.files, path, i) ::
      !SameRelease(s.files[path].entries[i], s.clients[c].op)
  }

  lemma PutKeepsFree(s: State, s': State, c: ClientId)
    requires DraftsCurrent(s) && RollbacksFree(s) && Quiet(s) && PutMove(s, s', c)
    ensures RollbacksFree(s')
  {
    forall d, path, i: nat | d in s'.clients && RollbackPending(s'.clients[d]) && EntryAt(s'.files, path, i)
      ensures !SameRelease(s'.files[path].entries[i], s'.clients[d].op)
    {
      var client := s.clients[c];
      assert d != c && s'.clients[d] == s.clients[d];
      if path == client.path {
        DraftReleases(View(s.files, path), client.op, i);
      }
      if path != client.path || i < |EntriesOf(View(s.files, path))| {
        assert EntryAt(s.files, path, i);
      }
    }
  }

  /** A publish with a draft had found its version missing, and still holds the lock. */
  lemma DraftIsNew(s: State, c: ClientId, path: string, i: nat)
    requires LockInv(s) && RunInv(s) && c in s.clients && HasDraft(s.clients[c])
    requires s.clients[c].op.PublishCrate? && EntryAt(s.files, path, i)
    ensures !SameRelease(s.files[path].entries[i], s.clients[c].op)
  {
    assert Filed(path, s.files[path]);
    assert Judge(View(s.files, s.clients[c].path), s.clients[c].op).Commit?;
  }

  /** Files stay, and `c` has a pending rollback only if it had one or its put just failed. */
  ghost predicate FreeMove(s: State, s': State, c: ClientId) {
    s'.files == s.files && c in s'.clients && s'.clients == s.clients[c := s'.clients[c]] &&
    (RollbackPending(s'.clients[c]) ==>
      c in s.clients && s'.clients[c].op == s.clients[c].op && (RollbackPending(s.clients[c]) || At(s, c, Ready)))
  }

  lemma FreeMoves(s: State, step: Step)
    requires Enabled(s, step) && FlagsSound(s) && !(step.Put? && step.ok)
    ensures FreeMove(s, Do(s, step), step.c)
  {
  }

  lemma FreeMoveKeeps(s: State, s': State, c: ClientId)
    requires LockInv(s) && RunInv(s) && RollbacksFree(s) && FreeMove(s, s', c)
    ensures RollbacksFree(s')
  {
    forall d, path, i: nat | d in s'.clients && RollbackPending(s'.clients[d]) && EntryAt(s'.files, path, i)
      ensures !SameRelease(s'.files[path].entries[i], s'.clients[d].op)
    {
      assert EntryAt(s.files, path, i);
      if d == c && At(s, c, Ready) {
        DraftIsNew(s, c, path, i);
      }
    }
  }

  lemma FreeKept(s: State, step: Step)
    requires LockInv(s) && RunInv(s) && FlagsSound(s) && RollbacksFree(s) && Quiet(s) && Enabled(s, step)
    ensures RollbacksFree(Do(s, step))
  {
    if step.Put? && step.ok {
      PutMoves(s, step.c);
      PutKeepsFree(s, Do(s, step), step.c);
    } else {
      FreeMoves(s, step);
      FreeMoveKeeps(s, Do(s, step), step.c);
    }
  }

  lemma QuietDeleteIsHarmless(s: State, step: Step)
    requires FlagsSound(s) && RollbacksFree(s) && Quiet(s) && Enabled(s, step)
    ensures !Harm(s, step)
  {
    if step.DeleteTarball? {
      assert RollbackPending(s.clients[step.c]);
      forall d | d in s.clients && ReadyToList(s.clients[d])
        ensures !SameUpload(s.clients[d].op, s.clients[step.c].op)
      {
        assert d != step.c;
      }
    }
  }

  ghost predicate AlwaysQuiet(steps: seq<Step>)
    requires After(steps).Some?
  {
    Quiet(After(steps).value) && (steps != [] ==> AlwaysQuiet(steps[..|steps| - 1]))
  }

  /** Whatever uploads, puts, deletes and cancellations fail, every release the index lists has at its new-style
      path bytes with its checksum, provided no publish of the same name, version and checksum runs beside a
      pending rollback. */
  lemma {:induction false} TarballsStayConsistent(digest: Digest, steps: seq<Step>)
    requires After(steps).Some? && HandlerSteps(digest, steps) && AlwaysQuiet(steps)
    ensures Kept(digest, After(steps).value) && RollbacksFree(After(steps).value) && NeverHarmed(steps)
  {
    if steps == [] {
    } else {
      var prefix, last := steps[..|steps| - 1], steps[|steps| - 1];
      TarballsStayConsistent(digest, prefix);
      ReachableSides(digest, prefix);
      var s := After(prefix).value;
      QuietDeleteIsHarmless(s, last);
      TarballsKeptExactly(digest, s, last);
      FreeKept(s, last);
    }
  }

  /** Then every download works: for each listed release, looking up its version gives a checksum whose new-style
      object is there and has that checksum, so the old-style path is never needed. */
  lemma DownloadServesListed(digest: Digest, steps: seq<Step>, path: string, i: nat)
    requires After(steps).Some? && HandlerSteps(digest, steps) && AlwaysQuiet(steps)
    requires EntryAt(After(steps).value.files, path, i)
    ensures var s := After(steps).value;
            var e := s.files[path].entries[i];
            RFind(s.files[path].entries, e.vers) == Some(i) &&
            var pulled := Storage.PulledObject(s.bucket, ReleasePath(e), true);
            pulled.Ok? && digest(pulled.value) == e.cksum
  {
    TarballsStayConsistent(digest, steps);
    ReachableRuns(steps);
    RFindIsUnique(After(steps).value.files[path], i);
  }

  // ---- The race the hypothesis rules out ----

  lemma OneMore(steps: seq<Step>, s: State, step: Step)
    requires After(steps) == Some(s) && Enabled(s, step)
    ensures After(steps + [step]) == Some(Do(s, step))
  {
    assert (steps + [step])[..|steps|] == steps;
  }

  /** Nobody is inside the index, and crate `op` is about is unknown. */
  ghost predicate Idle(s: State, op: Op) {
    op.PublishCrate? && MetaPath(ToLower(op.publish.name)).Some? &&
    MetaPath(ToLower(op.publish.name)).value !in s.files &&
    s.table == map[] && forall d | d in s.clients :: s.clients[d].pc in {Rollback, Done}
  }

  function Entering(c: ClientId, op: Op): seq<Step> {
    [Begin(c, op), Lookup(c), Acquire(c), Pull(c, true)]
  }

  function Writing(c: ClientId, ok: bool): seq<Step> {
    [Upload(c, true, true), Put(c, ok)]
  }

  function Exiting(c: ClientId): seq<Step> {
    [Release(c), TakeArc(c), OnUnlocked(c)]
  }

  lemma Arrives(steps: seq<Step>, s: State, c: ClientId, op: Op) returns (s': State)
    requires After(steps) == Some(s) && Idle(s, op) && c !in s.clients
    ensures After(steps + [Begin(c, op)] + [Lookup(c)]) == Some(s')
    ensures s'.files == s.files && s'.bucket == s.bucket && s'.clients == s.clients[c := s'.clients[c]]
    ensures At(s', c, Waiting) && s'.clients[c].op == op && s'.clients[c].outcome == Pending
    ensures Some(GuardedPath(s', s'.clients[c].lock)) == MetaPath(ToLower(op.publish.name))
    ensures s'.table == map[s'.clients[c].key := s'.clients[c].lock] && GuardFree(s', c)
  {
    var s1 := Do(s, Begin(c, op));
    OneMore(steps, s, Begin(c, op));
    s' := Do(s1, Lookup(c));
    OneMore(steps + [Begin(c, op)], s1, Lookup(c));
  }

  lemma Pulls(steps: seq<Step>, s: State, c: ClientId, op: Op) returns (s': State)
    requires After(steps) == Some(s) && At(s, c, Waiting) && GuardFree(s, c)
    requires op.PublishCrate? && s.clients[c].op == op && GuardedPath(s, s.clients[c].lock) !in s.files
    ensures After(steps + [Acquire(c)] + [Pull(c, true)]) == Some(s')
    ensures s' == s.(clients := s.clients[c := s.clients[c].(
              pc := Editing, draft := IndexFile([ReleaseOf(op.publish, op.cksum)], Some(op.publish)))])
  {
    var s1 := Do(s, Acquire(c));
    OneMore(steps, s, Acquire(c));
    s' := Do(s1, Pull(c, true));
    OneMore(steps + [Acquire(c)], s1, Pull(c, true));
    assert EntriesOf(None) + [ReleaseOf(op.publish, op.cksum)] == [ReleaseOf(op.publish, op.cksum)];
    assert s'.clients == s.clients[c := s'.clients[c]];
  }

  lemma EnteringSteps(steps: seq<Step>, c: ClientId, op: Op)
    ensures steps + [Begin(c, op)] + [Lookup(c)] + [Acquire(c)] + [Pull(c, true)] == steps + Entering(c, op)
  {
  }

  lemma Enters(steps: seq<Step>, s: State, c: ClientId, op: Op) returns (s': State)
    requires After(steps) == Some(s) && Idle(s, op) && c !in s.clients
    ensures After(steps + Entering(c, op)) == Some(s')
    ensures s'.files == s.files && s'.bucket == s.bucket && s'.clients == s.clients[c := s'.clients[c]]
    ensures At(s', c, Editing) && s'.clients[c].op == op && s'.clients[c].outcome == Pending
    ensures s'.clients[c].draft == IndexFile([ReleaseOf(op.publish, op.cksum)], Some(op.publish))
    ensures Some(GuardedPath(s', s'.clients[c].lock)) == MetaPath(ToLower(op.publish.name))
    ensures s'.table == map[s'.clients[c].key := s'.clients[c].lock]
  {
    var arrived := Arrives(steps, s, c, op);
    EnteringSteps(steps, c, op);
    s' := Pulls(steps + [Begin(c, op)] + [Lookup(c)], arrived, c, op);
  }

  lemma Writes(steps: seq<Step>, s: State, c: ClientId, ok: bool) returns (s': State)
    requires After(steps) == Some(s) && At(s, c, Editing) && s.clients[c].op.PublishCrate?
    ensures After(steps + Writing(c, ok)) == Some(s')
    ensures s'.files == if ok then s.files[GuardedPath(s, s.clients[c].lock) := s.clients[c].draft] else s.files
    ensures s'.bucket == s.bucket[NewTarballPath(s.clients[c].op) := s.clients[c].op.tarball]
    ensures s'.clients == s.clients[c := s.clients[c].(
              pc := Leaving, stored := true, outcome := if ok then Committed else Failed(ServiceError),
              at := if ok then |s.log| else s.clients[c].at)]
    ensures s'.table == s.table
  {
    var s1 := Do(s, Upload(c, true, true));
    OneMore(steps, s, Upload(c, true, true));
    s' := Do(s1, Put(c, ok));
    OneMore(steps + [Upload(c, true, true)], s1, Put(c, ok));
    assert steps + [Upload(c, true, true)] + [Put(c, ok)] == steps + Writing(c, ok);
  }

  lemma Exits(steps: seq<Step>, s: State, c: ClientId) returns (s': State)
    requires After(steps) == Some(s) && At(s, c, Leaving)
    requires s.table == map[s.clients[c].key := s.clients[c].lock]
    requires forall d | d in s.clients && d != c :: s.clients[d].pc in {Rollback, Done}
    ensures After(steps + Exiting(c)) == Some(s')
    ensures s'.files == s.files && s'.bucket == s.bucket && s'.table == map[]
    ensures s'.clients == s.clients[c := s.clients[c].(
              pc := if s.clients[c].stored && s.clients[c].outcome.Failed? then Rollback else Done)]
  {
    var s1 := Do(s, Release(c));
    OneMore(steps, s, Release(c));
    var s2 := Do(s1, TakeArc(c));
    OneMore(steps + [Release(c)], s1, TakeArc(c));
    s' := Do(s2, OnUnlocked(c));
    OneMore(steps + [Release(c)] + [TakeArc(c)], s2, OnUnlocked(c));
    assert steps + [Release(c)] + [TakeArc(c)] + [OnUnlocked(c)] == steps + Exiting(c);
    assert Alive(s2.clients) == {};
  }

  /** The first publish fails at its put; the same publish is sent again and succeeds; then the first one's
      rollback runs. The index lists a release whose tarball is gone. */
  function Race(op: Op): seq<Step> {
    Entering(0, op) + Writing(0, false) + Exiting(0) + Entering(1, op) + Writing(1, true) + Exiting(1) +
    [DeleteTarball(0, true, true)]
  }

  /** Without the hypothesis the stores do come apart, for every crate there is. */
  lemma RollbackRace(digest: Digest, op: Op)
    requires op.PublishCrate? && MetaPath(ToLower(op.publish.name)).Some?
    ensures After(Race(op)).Some? && !Consistent(digest, After(Race(op)).value)
  {
    var path := MetaPath(ToLower(op.publish.name)).value;
    assert [] + Entering(0, op) == Entering(0, op);
    var run := Entering(0, op);
    var s1 := Enters([], INITIAL, 0, op);
    var s2 := Writes(run, s1, 0, false);
    run := run + Writing(0, false);
    var s3 := Exits(run, s2, 0);
    run := run + Exiting(0);
    var s4 := Enters(run, s3, 1, op);
    run := run + Entering(1, op);
    var s5 := Writes(run, s4, 1, true);
    run := run + Writing(1, true);
    var s6 := Exits(run, s5, 1);
    run := run + Exiting(1);
    OneMore(run, s6, DeleteTarball(0, true, true));
    var s7 := Do(s6, DeleteTarball(0, true, true));
    assert EntryAt(s7.files, path, 0);
    assert ReleasePath(s7.files[path].entries[0]) == NewTarballPath(op);
    assert NewTarballPath(op) !in s7.bucket;
  }
}
