/** What is in the tarball bucket: the tarball of each publish that uploaded last and was not deleted, and which of
    them no release lists. */
module TarballLeftovers {
  import opened IndexOps
  import opened Linearizability
  import opened LockInvariant
  import opened Progress
  import opened RegistryProtocol
  import opened TarballConsistency
  import opened TarballLosses
  import opened TarballRuns
  import opened Wrappers

  // ---- Who put an object there ----

  ghost predicate Uploads(s: State, step: Step, key: string) {
    step.Upload? && step.written && step.c in s.clients && s.clients[step.c].op.PublishCrate? &&
    NewTarballPath(s.clients[step.c].op) == key
  }

  ghost predicate Removes(s: State, step: Step, key: string) {
    step.DeleteTarball? && step.c in s.clients && s.clients[step.c].op.PublishCrate? &&
    ((step.newGone && NewTarballPath(s.clients[step.c].op) == key) ||
     (step.oldGone && OldTarballPath(s.clients[step.c].op) == key))
  }

  /** The publish an object comes from after a step, given the one it came from before. */
  ghost function SourceAfter(source: Option<ClientId>, s: State, step: Step, key: string): Option<ClientId> {
    if Uploads(s, step, key) then Some(step.c) else if Removes(s, step, key) then None else source
  }

  /** The publish that uploaded to a key last in the run, unless the object was deleted since. */
  ghost function Source(steps: seq<Step>, key: string): Option<ClientId>
    requires After(steps).Some?
  {
    if steps == [] then None
    else
      var n := |steps| - 1;
      SourceAfter(Source(steps[..n], key), After(steps[..n]).value, steps[n], key)
  }

  predicate PastUpload(client: Client) {
    client.pc in {Ready, Leaving, Unlocked, Dropped, Rollback, Done}
  }

  /** `c` is a publish of the object at `key` that has been through its end step. */
  ghost predicate IsSource(s: State, key: string, c: ClientId) {
    c in s.clients && s.clients[c].op.PublishCrate? && NewTarballPath(s.clients[c].op) == key &&
    PastUpload(s.clients[c])
  }

  ghost predicate SourceSound(s: State, key: string, source: Option<ClientId>) {
    (key in s.bucket <==> source.Some?) &&
    (source.Some? ==> IsSource(s, key, source.value) && s.bucket[key] == s.clients[source.value].op.tarball)
  }

  lemma SourceStays(s: State, step: Step, key: string, c: ClientId)
    requires Enabled(s, step) && IsSource(s, key, c)
    ensures IsSource(Do(s, step), key, c) && Do(s, step).clients[c].op == s.clients[c].op
  {
    StepMovesOne(s, step);
  }

  /** What a step does to one object. */
  lemma ObjectAfter(s: State, step: Step, key: string)
    requires Enabled(s, step)
    ensures var s' := Do(s, step);
            if Uploads(s, step, key) then key in s'.bucket && s'.bucket[key] == s.clients[step.c].op.tarball
            else if Removes(s, step, key) then key !in s'.bucket
            else (key in s'.bucket <==> key in s.bucket) && (key in s.bucket ==> s'.bucket[key] == s.bucket[key])
  {
  }

  lemma UploaderIsSource(s: State, step: Step, key: string)
    requires Enabled(s, step) && Uploads(s, step, key)
    ensures IsSource(Do(s, step), key, step.c) && Do(s, step).clients[step.c].op == s.clients[step.c].op
  {
  }

  lemma SourceKept(s: State, step: Step, key: string, source: Option<ClientId>)
    requires Enabled(s, step) && SourceSound(s, key, source)
    ensures SourceSound(Do(s, step), key, SourceAfter(source, s, step, key))
  {
    ObjectAfter(s, step, key);
    if Uploads(s, step, key) {
      UploaderIsSource(s, step, key);
    } else if source.Some? {
      SourceStays(s, step, key, source.value);
    }
  }

  // ---- Listed objects ----

  ghost predicate ListsKey(s: State, path: string, i: nat, key: string) {
    EntryAt(s.files, path, i) && ReleasePath(s.files[path].entries[i]) == key
  }

  ghost predicate ListedAt(s: State, key: string) {
    exists path, i: nat :: ListsKey(s, path, i, key)
  }

  /** A publish that is ready to list the object is its source, if the object is there. */
  ghost predicate ReadyIsSource(s: State, key: string, source: Option<ClientId>) {
    forall d | AboutToList(s, d) && NewTarballPath(s.clients[d].op) == key :: source.None? || source == Some(d)
  }

  /** The object is listed exactly if its source was told it succeeded. */
  ghost predicate ListedBySource(s: State, key: string, source: Option<ClientId>) {
    source.Some? && source.value in s.clients ==>
      (ListedAt(s, key) <==> s.clients[source.value].outcome == Committed)
  }

  lemma ReadyIsSourceKept(digest: Digest, s: State, step: Step, key: string, source: Option<ClientId>)
    requires LockInv(s) && RunInv(s) && HandlerOps(digest, s) && Enabled(s, step) && ReadyIsSource(s, key, source)
    ensures ReadyIsSource(Do(s, step), key, SourceAfter(source, s, step, key))
  {
    forall d | AboutToList(Do(s, step), d) && NewTarballPath(Do(s, step).clients[d].op) == key
      ensures SourceAfter(source, s, step, key).None? || SourceAfter(source, s, step, key) == Some(d)
    {
      if AboutToList(s, d) {
        ReadyKeepsOp(s, step, d);
        NotUploaded(digest, s, step, d);
      } else {
        BecomesReadyByUpload(s, step, d);
      }
    }
  }

  lemma NotUploaded(digest: Digest, s: State, step: Step, d: ClientId)
    requires LockInv(s) && RunInv(s) && HandlerOps(digest, s) && Enabled(s, step) && AboutToList(s, d)
    ensures !Uploads(s, step, NewTarballPath(s.clients[d].op))
  {
    if step.Upload? {
      NobodyElseUploads(digest, s, step.c, d);
    }
  }

  lemma BecomesReadyByUpload(s: State, step: Step, d: ClientId)
    requires Enabled(s, step) && !AboutToList(s, d) && AboutToList(Do(s, step), d)
    ensures step == Upload(d, true, true) && Do(s, step).clients[d].op == s.clients[d].op
  {
    StepMovesOne(s, step);
  }

  /** A publish with a draft found its version missing, and still holds the lock. */
  lemma DraftIsUnlisted(digest: Digest, s: State, c: ClientId)
    requires LockInv(s) && RunInv(s) && SideInv(digest, s) && c in s.clients && HasDraft(s.clients[c])
    requires s.clients[c].op.PublishCrate?
    ensures !ListedAt(s, NewTarballPath(s.clients[c].op))
  {
    forall path, i: nat | EntryAt(s.files, path, i)
      ensures !ListsKey(s, path, i, NewTarballPath(s.clients[c].op))
    {
      ListedPath(digest, s, path, i, c);
      DraftIsNew(s, c, path, i);
    }
  }

  /** A step that puts no file leaves the listed objects, and the success of whoever is past its upload. */
  lemma NothingListed(s: State, step: Step, key: string, c: ClientId)
    requires ClientsSound(s) && Enabled(s, step) && !(step.Put? && step.ok) && IsSource(s, key, c)
    ensures ListedAt(Do(s, step), key) <==> ListedAt(s, key)
    ensures c in Do(s, step).clients
    ensures Do(s, step).clients[c].outcome == Committed <==> s.clients[c].outcome == Committed
  {
    NoPutKeepsFiles(s, step);
    NoPutKeepsSuccess(s, step, c);
    SameFilesListTheSame(s, Do(s, step), key);
  }

  lemma SameFilesListTheSame(s: State, s': State, key: string)
    requires s'.files == s.files
    ensures ListedAt(s', key) <==> ListedAt(s, key)
  {
    if path, i: nat :| ListsKey(s, path, i, key) {
      assert ListsKey(s', path, i, key);
    }
    if path, i: nat :| ListsKey(s', path, i, key) {
      assert ListsKey(s, path, i, key);
    }
  }

  lemma NoPutKeepsFiles(s: State, step: Step)
    requires Enabled(s, step) && !(step.Put? && step.ok)
    ensures Do(s, step).files == s.files
  {
  }

  lemma NoPutKeepsSuccess(s: State, step: Step, c: ClientId)
    requires ClientsSound(s) && Enabled(s, step) && !(step.Put? && step.ok)
    requires c in s.clients && PastUpload(s.clients[c]) && s.clients[c].op.PublishCrate?
    ensures c in Do(s, step).clients
    ensures Do(s, step).clients[c].outcome == Committed <==> s.clients[c].outcome == Committed
  {
    StepMovesOne(s, step);
  }

  /** A put lists no object but its publish's, ... */
  lemma PutListsOnly(s: State, s': State, c: ClientId, path: string, i: nat, key: string)
    requires DraftsCurrent(s) && PutMove(s, s', c) && ListsKey(s', path, i, key)
    ensures ListsKey(s, path, i, key) || (s.clients[c].op.PublishCrate? && NewTarballPath(s.clients[c].op) == key)
  {
    var client := s.clients[c];
    if path == client.path {
      DraftReleases(View(s.files, path), client.op, i);
    }
  }

  /** ... keeps what was listed, ... */
  lemma PutStillLists(s: State, s': State, c: ClientId, path: string, i: nat, key: string)
    requires DraftsCurrent(s) && PutMove(s, s', c) && ListsKey(s, path, i, key)
    ensures ListsKey(s', path, i, key)
  {
    if path == s.clients[c].path {
      DraftKeepsReleases(View(s.files, path), s.clients[c].op);
    }
  }

  /** ... and lists its own. */
  lemma PutListsOwn(s: State, s': State, c: ClientId)
    requires DraftsCurrent(s) && PutMove(s, s', c) && s.clients[c].op.PublishCrate?
    ensures ListedAt(s', NewTarballPath(s.clients[c].op))
  {
    var client := s.clients[c];
    var n := |client.draft.entries| - 1;
    assert Judge(View(s.files, client.path), client.op) == Commit(client.draft);
    assert ListsKey(s', client.path, n, NewTarballPath(client.op));
  }

  lemma PutLists(s: State, s': State, c: ClientId, key: string)
    requires DraftsCurrent(s) && PutMove(s, s', c)
    ensures ListedAt(s', key) <==>
            ListedAt(s, key) || (s.clients[c].op.PublishCrate? && NewTarballPath(s.clients[c].op) == key)
  {
    if path, i: nat :| ListsKey(s', path, i, key) {
      PutListsOnly(s, s', c, path, i, key);
    }
    if path, i: nat :| ListsKey(s, path, i, key) {
      PutStillLists(s, s', c, path, i, key);
    }
    if s.clients[c].op.PublishCrate? && NewTarballPath(s.clients[c].op) == key {
      PutListsOwn(s, s', c);
    }
  }

  lemma DraftKeepsReleases(file: Option<IndexFile>, op: Op)
    requires Judge(file, op).Commit?
    ensures |EntriesOf(file)| <= |Judge(file, op).file.entries|
    ensures forall i | 0 <= i < |EntriesOf(file)| ::
              ReleasePath(Judge(file, op).file.entries[i]) == ReleasePath(EntriesOf(file)[i])
  {
  }

  lemma PutKeepsListedBySource(s: State, s': State, c: ClientId, key: string, source: ClientId)
    requires DraftsCurrent(s) && PutMove(s, s', c) && IsSource(s, key, source)
    requires ReadyIsSource(s, key, Some(source)) && ListedBySource(s, key, Some(source))
    ensures ListedBySource(s', key, Some(source))
  {
    PutLists(s, s', c, key);
    if s.clients[c].op.PublishCrate? && NewTarballPath(s.clients[c].op) == key {
      assert AboutToList(s, c);
    }
  }

  lemma UploadIsUnlisted(digest: Digest, s: State, step: Step, key: string)
    requires LockInv(s) && RunInv(s) && SideInv(digest, s) && Enabled(s, step) && Uploads(s, step, key)
    ensures ListedBySource(Do(s, step), key, Some(step.c))
  {
    DraftIsUnlisted(digest, s, step.c);
    NoPutKeepsFiles(s, step);
    SameFilesListTheSame(s, Do(s, step), key);
    UploadIsNoSuccess(s, step);
  }

  lemma UploadIsNoSuccess(s: State, step: Step)
    requires ClientsSound(s) && Enabled(s, step) && step.Upload?
    ensures step.c in Do(s, step).clients && Do(s, step).clients[step.c].outcome != Committed
  {
  }

  lemma StillListedBySource(s: State, step: Step, key: string, source: ClientId)
    requires LockInv(s) && DraftsCurrent(s) && ClientsSound(s) && Enabled(s, step) && IsSource(s, key, source)
    requires ReadyIsSource(s, key, Some(source)) && ListedBySource(s, key, Some(source))
    ensures ListedBySource(Do(s, step), key, Some(source))
  {
    if step.Put? && step.ok {
      PutMoves(s, step.c);
      PutKeepsListedBySource(s, Do(s, step), step.c, key, source);
    } else {
      NothingListed(s, step, key, source);
    }
  }

  lemma ListedBySourceKept(digest: Digest, s: State, step: Step, key: string, source: Option<ClientId>)
    requires LockInv(s) && RunInv(s) && SideInv(digest, s) && Enabled(s, step) && SourceSound(s, key, source)
    requires ReadyIsSource(s, key, source) && ListedBySource(s, key, source)
    ensures ListedBySource(Do(s, step), key, SourceAfter(source, s, step, key))
  {
    if Uploads(s, step, key) {
      UploadIsUnlisted(digest, s, step, key);
    } else if source.Some? {
      StillListedBySource(s, step, key, source.value);
    }
  }

  /** The invariant of one key over runs. */
  lemma {:induction false} ReachableSources(digest: Digest, steps: seq<Step>, key: string)
    requires After(steps).Some? && HandlerSteps(digest, steps)
    ensures var s, source := After(steps).value, Source(steps, key);
            SourceSound(s, key, source) && ReadyIsSource(s, key, source) && ListedBySource(s, key, source)
  {
    if steps != [] {
      var prefix, last := steps[..|steps| - 1], steps[|steps| - 1];
      var s, source := After(prefix).value, Source(prefix, key);
      ReachableSources(digest, prefix, key);
      ReachableSides(digest, prefix);
      SourceKept(s, last, key, source);
      ReadyIsSourceKept(digest, s, last, key, source);
      ListedBySourceKept(digest, s, last, key, source);
    }
  }

  // ---- Why an object is not listed ----

  /** The rollback of a failed publish was cancelled, or its delete did not take the object. */
  ghost predicate RollbackMissed(steps: seq<Step>, c: ClientId)
    requires After(steps).Some?
  {
    steps != [] &&
    (RollbackMissed(steps[..|steps| - 1], c) ||
     (At(After(steps[..|steps| - 1]).value, c, Rollback) &&
      (steps[|steps| - 1] == Cancel(c) ||
       (steps[|steps| - 1].DeleteTarball? && steps[|steps| - 1].c == c && !steps[|steps| - 1].newGone))))
  }

  /** The publish is under way, was cancelled, was told its upload failed although it arrived, or failed later: its
      rollback is still to come, or missed the object. */
  ghost predicate Unfinished(steps: seq<Step>, c: ClientId)
    requires After(steps).Some? && c in After(steps).value.clients
  {
    var client := After(steps).value.clients[c];
    client.pc == Ready || client.outcome == Cancelled || (client.outcome.Failed? && !client.stored) ||
    RollbackPending(client) || (client.outcome.Failed? && client.stored && RollbackMissed(steps, c))
  }

  predicate RolledBack(client: Client) {
    client.pc == Done && client.stored && client.outcome.Failed?
  }

  /** A request whose rollback is over had it end in this step or before. */
  lemma RollbackEnds(s: State, step: Step, c: ClientId)
    requires Enabled(s, step) && c in Do(s, step).clients && RolledBack(Do(s, step).clients[c])
    ensures c in s.clients
    ensures s.clients[c] == Do(s, step).clients[c] ||
            (At(s, c, Rollback) && s.clients[c].op == Do(s, step).clients[c].op && step.c == c &&
             (step.Cancel? || step.DeleteTarball?))
  {
    StepMovesOne(s, step);
    if step.Begin? {
      assert !NewClient(step.op, |s.log|).stored;
    }
  }

  lemma {:induction false} SourceMissed(digest: Digest, steps: seq<Step>, key: string)
    requires After(steps).Some? && HandlerSteps(digest, steps) && Source(steps, key).Some?
    requires var c := Source(steps, key).value;
             c in After(steps).value.clients && RolledBack(After(steps).value.clients[c])
    ensures RollbackMissed(steps, Source(steps, key).value)
  {
    var prefix, last := steps[..|steps| - 1], steps[|steps| - 1];
    var s, c := After(prefix).value, Source(steps, key).value;
    RollbackEnds(s, last, c);
    SourceBefore(s, last, key, Source(prefix, key), c);
    ReachableSources(digest, steps, key);
    if !At(s, c, Rollback) {
      SourceMissed(digest, prefix, key);
    }
  }

  /** A source whose rollback is over was the source before the step, which did not delete the object. */
  lemma SourceBefore(s: State, step: Step, key: string, source: Option<ClientId>, c: ClientId)
    requires Enabled(s, step) && SourceAfter(source, s, step, key) == Some(c)
    requires c in Do(s, step).clients && RolledBack(Do(s, step).clients[c])
    ensures source == Some(c)
    ensures step.DeleteTarball? && step.newGone ==> NewTarballPath(s.clients[step.c].op) != key
  {
  }

  /** Where a publish past its upload can be. */
  lemma PublishAccounted(log: seq<Event>, c: ClientId, client: Client)
    requires Shaped(client) && FlagSound(client) && Placed(log, c, client)
    requires client.op.PublishCrate? && PastUpload(client)
    ensures client.pc == Ready || client.outcome == Committed || client.outcome == Cancelled || client.outcome.Failed?
    ensures client.outcome.Failed? && client.stored && client.pc != Ready ==>
              RollbackPending(client) || RolledBack(client)
  {
  }

  /** It has succeeded, or is accounted for. */
  lemma SourceAccounted(digest: Digest, steps: seq<Step>, key: string)
    requires After(steps).Some? && HandlerSteps(digest, steps) && Source(steps, key).Some?
    ensures var s, c := After(steps).value, Source(steps, key).value;
            c in s.clients && (s.clients[c].outcome == Committed <==> !Unfinished(steps, c))
  {
    var s, c := After(steps).value, Source(steps, key).value;
    ReachableSources(digest, steps, key);
    ReachableRuns(steps);
    ReachableShapes(steps);
    assert ClientsSound(s) && AllPlaced(s);
    PublishAccounted(s.log, c, s.clients[c]);
    if RolledBack(s.clients[c]) {
      SourceMissed(digest, steps, key);
    }
  }

  /** The bucket after a run, key by key: an object is there exactly if it has a source, it is that publish's tarball,
      and no release lists it exactly if that publish is under way, cancelled, failed unreported, or failed with its
      rollback to come or missed. */
  lemma BucketExactly(digest: Digest, steps: seq<Step>, key: string)
    requires After(steps).Some? && HandlerSteps(digest, steps)
    ensures var s, source := After(steps).value, Source(steps, key);
            (key in s.bucket <==> source.Some?) &&
            (source.Some? ==>
              IsSource(s, key, source.value) && s.bucket[key] == s.clients[source.value].op.tarball &&
              (!ListedAt(s, key) <==> Unfinished(steps, source.value)))
  {
    ReachableSources(digest, steps, key);
    if Source(steps, key).Some? {
      SourceAccounted(digest, steps, key);
    }
  }
}
