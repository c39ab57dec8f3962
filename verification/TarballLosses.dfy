/** Which runs lose the tarball of a listed release: exactly those in which a rollback deletes it once it is listed,
    or deletes it from under a publish that then lists it. */
module TarballLosses {
  import opened IndexOps
  import opened Linearizability
  import opened LockInvariant
  import opened RegistryProtocol
  import opened TarballConsistency
  import opened TarballRuns
  import opened Wrappers

  ghost predicate AboutToList(s: State, c: ClientId) {
    c in s.clients && ReadyToList(s.clients[c])
  }

  /** The publish is about to list its release, and since it stored its tarball a rollback deleted that. */
  ghost predicate Robbed(steps: seq<Step>, c: ClientId)
    requires After(steps).Some?
  {
    steps != [] &&
    var before := After(steps[..|steps| - 1]).value;
    AboutToList(before, c) && AboutToList(After(steps).value, c) &&
    (Robbed(steps[..|steps| - 1], c) || Robs(before, steps[|steps| - 1], c))
  }

  // ---- Publishes about to list a release ----

  /** One gets ready only by its own upload. */
  lemma BecomesReady(digest: Digest, s: State, step: Step, c: ClientId)
    requires HandlerOps(digest, s) && Enabled(s, step) && !AboutToList(s, c) && AboutToList(Do(s, step), c)
    ensures HasTarball(digest, Do(s, step).bucket, Do(s, step).clients[c].op)
  {
    if !(step.Upload? && step.written) {
      if !TouchesTarballs(step) {
        BucketMoves(s, step);
      }
    }
  }

  /** Nobody else uploads the tarball of a publish that is ready: both would have a draft of one file. */
  lemma NobodyElseUploads(digest: Digest, s: State, d: ClientId, c: ClientId)
    requires LockInv(s) && RunInv(s) && HandlerOps(digest, s) && AboutToList(s, c) && At(s, d, Editing)
    requires s.clients[d].op.PublishCrate?
    ensures NewTarballPath(s.clients[d].op) != NewTarballPath(s.clients[c].op)
  {
    ReadyPath(digest, s, c, d);
    DraftIsAlone(s, c, d);
  }

  /** What a step does to the tarball of a publish that stays ready: it takes it exactly if it robs it. */
  ghost predicate TakesExactly(digest: Digest, s: State, s': State, step: Step, c: ClientId)
    requires AboutToList(s, c)
  {
    HasTarball(digest, s'.bucket, s.clients[c].op) <==>
    HasTarball(digest, s.bucket, s.clients[c].op) && !Robs(s, step, c)
  }

  lemma UploadTakesNothing(digest: Digest, s: State, s': State, step: Step, c: ClientId)
    requires LockInv(s) && RunInv(s) && HandlerOps(digest, s) && AboutToList(s, c)
    requires step.Upload? && UploadMove(s, s', step.c)
    ensures TakesExactly(digest, s, s', step, c)
  {
    NobodyElseUploads(digest, s, step.c, c);
  }

  lemma ReadyTaken(digest: Digest, s: State, step: Step, c: ClientId)
    requires LockInv(s) && RunInv(s) && HandlerOps(digest, s) && Enabled(s, step) && AboutToList(s, c)
    ensures TakesExactly(digest, s, Do(s, step), step, c)
  {
    if step.DeleteTarball? {
      DeleteMoves(s, step.c, step.newGone, step.oldGone);
      DeleteTakes(digest, s, Do(s, step), step.c, step.newGone, step.oldGone, c);
    } else if step.Upload? && step.written {
      UploadMoves(s, step.c, step.ok);
      UploadTakesNothing(digest, s, Do(s, step), step, c);
    } else if !step.Put? || !step.ok {
      BucketMoves(s, step);
    }
  }

  /** A publish keeps its request. */
  lemma ReadyKeepsOp(s: State, step: Step, c: ClientId)
    requires Enabled(s, step) && AboutToList(s, c)
    ensures c in Do(s, step).clients && Do(s, step).clients[c].op == s.clients[c].op
  {
  }

  /** A publish about to list its release has its tarball exactly if no rollback robbed it. */
  lemma {:induction false} ReadyExactly(digest: Digest, steps: seq<Step>, c: ClientId)
    requires After(steps).Some? && HandlerSteps(digest, steps) && AboutToList(After(steps).value, c)
    ensures HasTarball(digest, After(steps).value.bucket, After(steps).value.clients[c].op) <==> !Robbed(steps, c)
  {
    var prefix, last := steps[..|steps| - 1], steps[|steps| - 1];
    var s := After(prefix).value;
    ReachableSides(digest, prefix);
    if AboutToList(s, c) {
      ReadyExactly(digest, prefix, c);
      ReadyTaken(digest, s, last, c);
      ReadyKeepsOp(s, last, c);
    } else {
      BecomesReady(digest, s, last, c);
    }
  }

  // ---- Listed releases ----

  /** The last step of the run deletes the tarball of a listed release, or lists a release whose tarball is gone. */
  ghost predicate Loses(prefix: seq<Step>, step: Step)
    requires After(prefix).Some?
  {
    var s := After(prefix).value;
    DeletesListed(s, step) || (step.Put? && step.ok && Robbed(prefix, step.c))
  }

  ghost predicate NeverLost(steps: seq<Step>)
    requires After(steps).Some?
  {
    steps == [] || (NeverLost(steps[..|steps| - 1]) && !Loses(steps[..|steps| - 1], steps[|steps| - 1]))
  }

  /** At every moment of the run every listed release has its tarball. */
  ghost predicate AlwaysConsistent(digest: Digest, steps: seq<Step>)
    requires After(steps).Some?
  {
    Consistent(digest, After(steps).value) && (steps != [] ==> AlwaysConsistent(digest, steps[..|steps| - 1]))
  }

  lemma DeleteListedExactly(digest: Digest, s: State, s': State, c: ClientId, newGone: bool, oldGone: bool)
    requires LockInv(s) && RunInv(s) && SideInv(digest, s) && Consistent(digest, s)
    requires DeleteMove(s, s', c, newGone, oldGone)
    ensures Consistent(digest, s') <==> !DeletesListed(s, DeleteTarball(c, newGone, oldGone))
  {
    if DeletesListed(s, DeleteTarball(c, newGone, oldGone)) {
      ListedDeleteBreaks(digest, s, s', c, oldGone);
    } else {
      DeleteKeepsListed(digest, s, s', c, newGone, oldGone);
    }
  }

  /** A put keeps the stores consistent exactly if it is a yank, or a publish whose tarball is there. */
  lemma PutListsExactly(digest: Digest, s: State, s': State, c: ClientId)
    requires DraftsCurrent(s) && Consistent(digest, s) && PutMove(s, s', c) && s'.bucket == s.bucket
    ensures Consistent(digest, s') <==> (AboutToList(s, c) ==> HasTarball(digest, s.bucket, s.clients[c].op))
  {
    if AboutToList(s, c) ==> HasTarball(digest, s.bucket, s.clients[c].op) {
      PutKeepsListed(digest, s, s', c);
    } else {
      PutListsBare(digest, s, s', c);
    }
  }

  lemma PutListsBare(digest: Digest, s: State, s': State, c: ClientId)
    requires DraftsCurrent(s) && PutMove(s, s', c) && s'.bucket == s.bucket && AboutToList(s, c)
    requires !HasTarball(digest, s.bucket, s.clients[c].op)
    ensures !Consistent(digest, s')
  {
    var client := s.clients[c];
    var n := |client.draft.entries| - 1;
    assert Judge(View(s.files, client.path), client.op) == Commit(client.draft);
    assert EntryAt(s'.files, client.path, n) && SameRelease(s'.files[client.path].entries[n], client.op);
  }

  lemma PutStepExactly(digest: Digest, prefix: seq<Step>, s: State, s': State, c: ClientId)
    requires After(prefix) == Some(s) && HandlerSteps(digest, prefix)
    requires RunInv(s) && Consistent(digest, s) && PutMove(s, s', c) && s'.bucket == s.bucket
    ensures Consistent(digest, s') <==> !Robbed(prefix, c)
  {
    PutListsExactly(digest, s, s', c);
    if AboutToList(s, c) {
      ReadyExactly(digest, prefix, c);
    }
    NotReadyNotRobbed(prefix, c);
  }

  lemma OtherStepsKeepListed(digest: Digest, s: State, step: Step)
    requires LockInv(s) && RunInv(s) && SideInv(digest, s) && Consistent(digest, s) && Enabled(s, step)
    requires !step.DeleteTarball? && !(step.Put? && step.ok)
    ensures Consistent(digest, Do(s, step))
  {
    if step.Upload? && step.written {
      UploadMoves(s, step.c, step.ok);
      UploadKeepsListed(digest, s, Do(s, step), step.c);
    } else {
      BucketMoves(s, step);
      SameStoresConsistent(digest, s, Do(s, step));
    }
  }

  lemma PutKeepsBucket(s: State, c: ClientId)
    requires Enabled(s, Put(c, true))
    ensures Do(s, Put(c, true)).bucket == s.bucket
  {
  }

  lemma ListsExactly(digest: Digest, prefix: seq<Step>, s: State, step: Step)
    requires After(prefix) == Some(s) && HandlerSteps(digest, prefix) && Enabled(s, step)
    requires LockInv(s) && RunInv(s) && SideInv(digest, s) && Consistent(digest, s)
    ensures Consistent(digest, Do(s, step)) <==> !Loses(prefix, step)
  {
    if step.DeleteTarball? {
      DeleteMoves(s, step.c, step.newGone, step.oldGone);
      DeleteListedExactly(digest, s, Do(s, step), step.c, step.newGone, step.oldGone);
    } else if step.Put? && step.ok {
      PutMoves(s, step.c);
      PutKeepsBucket(s, step.c);
      PutStepExactly(digest, prefix, s, Do(s, step), step.c);
    } else {
      OtherStepsKeepListed(digest, s, step);
    }
  }

  lemma NotReadyNotRobbed(steps: seq<Step>, c: ClientId)
    requires After(steps).Some?
    ensures Robbed(steps, c) ==> AboutToList(After(steps).value, c)
  {
  }

  /** Over a whole run every listed release keeps its tarball exactly when no rollback deletes the tarball of a listed
      release, and no publish that was robbed lists its own. */
  lemma {:induction false} ConsistentExactly(digest: Digest, steps: seq<Step>)
    requires After(steps).Some? && HandlerSteps(digest, steps)
    ensures AlwaysConsistent(digest, steps) <==> NeverLost(steps)
  {
    if steps != [] {
      var prefix := steps[..|steps| - 1];
      ConsistentExactly(digest, prefix);
      ReachableSides(digest, prefix);
      if Consistent(digest, After(prefix).value) {
        ListsExactly(digest, prefix, After(prefix).value, steps[|steps| - 1]);
      }
    }
  }
}
