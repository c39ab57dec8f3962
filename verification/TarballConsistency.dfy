/** The index and the tarball bucket together: every release the index lists has its tarball, whatever fails. */
module TarballConsistency {
  import opened Bytes
  import opened CratePaths
  import opened IndexOps
  import opened Linearizability
  import opened LockInvariant
  import opened RegistryProtocol
  import opened RegistryTypes
  import opened Wrappers
  import SemVer
  import Storage
  import StoragePaths

  type Digest = seq<Byte> -> Checksum

  /** The handler computes the checksum of the tarball it was sent, and a `Version` is a semantic version. */
  predicate HandlerOp(digest: Digest, op: Op) {
    op.PublishCrate? ==> op.cksum == digest(op.tarball) && SemVer.WellFormed(op.publish.vers)
  }

  ghost predicate HandlerOps(digest: Digest, s: State) {
    forall c | c in s.clients :: HandlerOp(digest, s.clients[c].op)
  }

  ghost predicate HandlerSteps(digest: Digest, steps: seq<Step>) {
    forall i | 0 <= i < |steps| && steps[i].Begin? :: HandlerOp(digest, steps[i].op)
  }

  function ReleasePath(e: CrateVersion): string {
    StoragePaths.NewPath(e.name, SemVer.Print(e.vers), e.cksum)
  }

  /** The object at a path has the digest `cksum`. */
  predicate Stored(digest: Digest, bucket: Storage.Bucket, path: string, cksum: Checksum) {
    path in bucket && digest(bucket[path]) == cksum
  }

  /** Every listed release has its tarball at its new-style path. */
  ghost predicate Consistent(digest: Digest, s: State) {
    forall path, i: nat | EntryAt(s.files, path, i) ::
      Stored(digest, s.bucket, ReleasePath(s.files[path].entries[i]), s.files[path].entries[i].cksum)
  }

  predicate ReadyToList(client: Client) {
    client.pc == Ready && client.op.PublishCrate?
  }

  predicate HasTarball(digest: Digest, bucket: Storage.Bucket, op: Op)
    requires op.PublishCrate?
  {
    Stored(digest, bucket, NewTarballPath(op), op.cksum)
  }

  /** So has every publish that is about to list its release. */
  ghost predicate ReadyStored(digest: Digest, s: State) {
    forall c | c in s.clients && ReadyToList(s.clients[c]) :: HasTarball(digest, s.bucket, s.clients[c].op)
  }

  ghost predicate Kept(digest: Digest, s: State) {
    Consistent(digest, s) && ReadyStored(digest, s)
  }

  ghost predicate SameRelease(e: CrateVersion, op: Op)
    requires op.PublishCrate?
  {
    e.name == op.publish.name && e.vers == op.publish.vers && e.cksum == op.cksum
  }

  ghost predicate VersionsSound(s: State) {
    forall path, i: nat | EntryAt(s.files, path, i) :: SemVer.WellFormed(s.files[path].entries[i].vers)
  }

  /** `stored` is set by the upload of a publish, and a publish that listed its release had set it. */
  predicate FlagSound(client: Client) {
    (client.stored ==> client.op.PublishCrate? && client.pc !in {Calling, Waiting, Locked, Editing}) &&
    (client.pc == Rollback ==> client.stored && client.outcome.Failed?) &&
    (client.op.PublishCrate? && (client.pc == Ready || client.outcome == Committed) ==> client.stored)
  }

  ghost predicate FlagsSound(s: State) {
    forall c | c in s.clients :: FlagSound(s.clients[c])
  }

  lemma NamesOfKeys(name: string)
    requires MetaPath(ToLower(name)).Some?
    ensures StoragePaths.IsCrateName(name)
  {
    forall i | 0 <= i < |name| ensures StoragePaths.IsNameChar(name[i]) {
      assert IsFileNameChar(ToLower(name)[i]);
    }
  }

  /** A release and a publish share a tarball path only if they are the same name, version and checksum. */
  lemma SamePathSameRelease(e: CrateVersion, op: Op)
    requires op.PublishCrate? && StoragePaths.IsCrateName(e.name) && SemVer.WellFormed(e.vers)
    requires StoragePaths.IsCrateName(op.publish.name) && SemVer.WellFormed(op.publish.vers)
    ensures ReleasePath(e) == NewTarballPath(op) <==> SameRelease(e, op)
    ensures ReleasePath(e) != OldTarballPath(op)
  {
    StoragePaths.OldPathIsNeverNew(op.publish.name, SemVer.Print(op.publish.vers),
                                   e.name, SemVer.Print(e.vers), e.cksum);
    if ReleasePath(e) == NewTarballPath(op) {
      StoragePaths.NewPathInjective(e.name, e.vers, e.cksum, op.publish.name, op.publish.vers, op.cksum);
    }
  }

  ghost predicate SideInv(digest: Digest, s: State) {
    HandlerOps(digest, s) && VersionsSound(s) && FlagsSound(s)
  }

  /** A listed release and the publish of a request under way: their paths tell whether they are the same. */
  lemma ListedPath(digest: Digest, s: State, path: string, i: nat, c: ClientId)
    requires LockInv(s) && RunInv(s) && SideInv(digest, s) && EntryAt(s.files, path, i)
    requires c in s.clients && s.clients[c].pc != Done && s.clients[c].op.PublishCrate?
    ensures var e, op := s.files[path].entries[i], s.clients[c].op;
            (ReleasePath(e) == NewTarballPath(op) <==> SameRelease(e, op)) && ReleasePath(e) != OldTarballPath(op)
  {
    NamesOfKeys(s.files[path].entries[i].name);
    NamesOfKeys(s.clients[c].op.publish.name);
    SamePathSameRelease(s.files[path].entries[i], s.clients[c].op);
  }

  predicate SameUpload(op: Op, op': Op)
    requires op.PublishCrate? && op'.PublishCrate?
  {
    op.publish.name == op'.publish.name && op.publish.vers == op'.publish.vers && op.cksum == op'.cksum
  }

  lemma ReadyPath(digest: Digest, s: State, d: ClientId, c: ClientId)
    requires LockInv(s) && ClientsSound(s) && HandlerOps(digest, s)
    requires d in s.clients && s.clients[d].pc != Done && s.clients[d].op.PublishCrate?
    requires c in s.clients && s.clients[c].pc != Done && s.clients[c].op.PublishCrate?
    ensures var op, op' := s.clients[d].op, s.clients[c].op;
            (NewTarballPath(op) == NewTarballPath(op') <==> SameUpload(op, op')) &&
            NewTarballPath(op) != OldTarballPath(op')
  {
    var op, op' := s.clients[d].op, s.clients[c].op;
    NamesOfKeys(op.publish.name);
    NamesOfKeys(op'.publish.name);
    SamePathSameRelease(ReleaseOf(op.publish, op.cksum), op');
  }

  // ---- Every step but a rollback delete keeps the tarballs ----

  /** The bucket and the files stay, and nobody becomes ready to list a release. */
  ghost predicate BucketMove(s: State, s': State, c: ClientId) {
    s'.bucket == s.bucket && s'.files == s.files && c in s'.clients && s'.clients == s.clients[c := s'.clients[c]] &&
    (ReadyToList(s'.clients[c]) ==> c in s.clients && ReadyToList(s.clients[c]) && s'.clients[c].op == s.clients[c].op)
  }

  predicate TouchesTarballs(step: Step) {
    (step.Upload? && step.written) || (step.Put? && step.ok) || step.DeleteTarball?
  }

  lemma BucketMoves(s: State, step: Step)
    requires Enabled(s, step) && !TouchesTarballs(step)
    ensures BucketMove(s, Do(s, step), step.c)
  {
  }

  lemma SameStoresConsistent(digest: Digest, s: State, s': State)
    requires Consistent(digest, s) && s'.bucket == s.bucket && s'.files == s.files
    ensures Consistent(digest, s')
  {
    forall path, i: nat | EntryAt(s'.files, path, i)
      ensures Stored(digest, s'.bucket, ReleasePath(s'.files[path].entries[i]), s'.files[path].entries[i].cksum)
    {
      assert EntryAt(s.files, path, i);
    }
  }

  lemma BucketMoveKeeps(digest: Digest, s: State, s': State, c: ClientId)
    requires Kept(digest, s) && BucketMove(s, s', c)
    ensures Kept(digest, s')
  {
    SameStoresConsistent(digest, s, s');
  }

  ghost predicate UploadMove(s: State, s': State, c: ClientId) {
    c in s.clients && s.clients[c].pc == Editing && s.clients[c].op.PublishCrate? && s'.files == s.files &&
    c in s'.clients && s'.clients == s.clients[c := s'.clients[c]] && s'.clients[c].op == s.clients[c].op &&
    s'.bucket == s.bucket[NewTarballPath(s.clients[c].op) := s.clients[c].op.tarball]
  }

  lemma UploadMoves(s: State, c: ClientId, ok: bool)
    requires Enabled(s, Upload(c, true, ok))
    ensures UploadMove(s, Do(s, Upload(c, true, ok)), c)
  {
  }

  lemma UploadKeepsRelease(digest: Digest, s: State, s': State, c: ClientId, path: string, i: nat)
    requires LockInv(s) && RunInv(s) && SideInv(digest, s) && UploadMove(s, s', c) && EntryAt(s.files, path, i)
    requires var e := s.files[path].entries[i]; Stored(digest, s.bucket, ReleasePath(e), e.cksum)
    ensures var e := s.files[path].entries[i]; Stored(digest, s'.bucket, ReleasePath(e), e.cksum)
  {
    ListedPath(digest, s, path, i, c);
    assert HandlerOp(digest, s.clients[c].op);
  }

  lemma UploadKeepsListed(digest: Digest, s: State, s': State, c: ClientId)
    requires LockInv(s) && RunInv(s) && SideInv(digest, s) && Consistent(digest, s) && UploadMove(s, s', c)
    ensures Consistent(digest, s')
  {
    forall path, i: nat | EntryAt(s'.files, path, i)
      ensures Stored(digest, s'.bucket, ReleasePath(s'.files[path].entries[i]), s'.files[path].entries[i].cksum)
    {
      assert EntryAt(s.files, path, i);
      UploadKeepsRelease(digest, s, s', c, path, i);
    }
  }

  lemma UploadKeepsReady(digest: Digest, s: State, s': State, c: ClientId)
    requires LockInv(s) && ClientsSound(s) && HandlerOps(digest, s) && ReadyStored(digest, s) && UploadMove(s, s', c)
    ensures ReadyStored(digest, s')
  {
    forall d | d in s'.clients && ReadyToList(s'.clients[d])
      ensures HasTarball(digest, s'.bucket, s'.clients[d].op)
    {
      if d != c {
        ReadyPath(digest, s, d, c);
      }
    }
  }

  /** What an accepted update lists: the releases that were listed, and the one a publish adds. */
  lemma DraftReleases(file: Option<IndexFile>, op: Op, i: nat)
    requires Judge(file, op).Commit? && i < |Judge(file, op).file.entries|
    ensures var e := Judge(file, op).file.entries[i];
            (i < |EntriesOf(file)| && e == EntriesOf(file)[i].(yanked := e.yanked)) ||
            (op.PublishCrate? && SameRelease(e, op))
  {
  }

  /** A put lists nothing without a tarball if it is a yank, or a publish whose tarball is there. */
  lemma PutKeepsListed(digest: Digest, s: State, s': State, c: ClientId)
    requires DraftsCurrent(s) && Consistent(digest, s) && PutMove(s, s', c) && s'.bucket == s.bucket
    requires s.clients[c].op.PublishCrate? ==> HasTarball(digest, s.bucket, s.clients[c].op)
    ensures Consistent(digest, s')
  {
    forall path, i: nat | EntryAt(s'.files, path, i)
      ensures Stored(digest, s'.bucket, ReleasePath(s'.files[path].entries[i]), s'.files[path].entries[i].cksum)
    {
      var client := s.clients[c];
      if path == client.path {
        DraftReleases(View(s.files, path), client.op, i);
      }
      if path != client.path || i < |EntriesOf(View(s.files, path))| {
        assert EntryAt(s.files, path, i);
      }
    }
  }

  lemma PutKeepsTarballs(digest: Digest, s: State, s': State, c: ClientId)
    requires RunInv(s) && Kept(digest, s) && PutMove(s, s', c) && s'.bucket == s.bucket
    ensures Kept(digest, s')
  {
    PutKeepsListed(digest, s, s', c);
  }

  // ---- The rollback delete ----

  /** The rollback of a publish deletes its new-style tarball. */
  ghost predicate Deletes(s: State, step: Step) {
    step.DeleteTarball? && step.newGone && step.c in s.clients && s.clients[step.c].op.PublishCrate?
  }

  /** The delete hits the tarball of a listed release. */
  ghost predicate DeletesListed(s: State, step: Step) {
    Deletes(s, step) &&
    exists path, i: nat :: EntryAt(s.files, path, i) && SameRelease(s.files[path].entries[i], s.clients[step.c].op)
  }

  /** The delete hits the tarball of a publish that is about to list its release. */
  ghost predicate Robs(s: State, step: Step, d: ClientId) {
    Deletes(s, step) && d in s.clients && ReadyToList(s.clients[d]) &&
    SameUpload(s.clients[d].op, s.clients[step.c].op)
  }

  /** The delete hits a tarball that a listed release, or a publish about to list one, needs. */
  ghost predicate Harm(s: State, step: Step) {
    DeletesListed(s, step) || exists d :: Robs(s, step, d)
  }

  ghost predicate DeleteMove(s: State, s': State, c: ClientId, newGone: bool, oldGone: bool) {
    c in s.clients && s.clients[c].pc == Rollback && s.clients[c].op.PublishCrate? && s'.files == s.files &&
    s'.clients == s.clients[c := s.clients[c].(pc := Done)] &&
    s'.bucket == Storage.AfterDelete(s.bucket, NewTarballPath(s.clients[c].op), OldTarballPath(s.clients[c].op),
                                     newGone, oldGone)
  }

  lemma DeleteMoves(s: State, c: ClientId, newGone: bool, oldGone: bool)
    requires Enabled(s, DeleteTarball(c, newGone, oldGone))
    ensures DeleteMove(s, Do(s, DeleteTarball(c, newGone, oldGone)), c, newGone, oldGone)
  {
  }

  lemma DeleteKeepsListed(digest: Digest, s: State, s': State, c: ClientId, newGone: bool, oldGone: bool)
    requires LockInv(s) && RunInv(s) && SideInv(digest, s) && Consistent(digest, s)
    requires DeleteMove(s, s', c, newGone, oldGone) && !DeletesListed(s, DeleteTarball(c, newGone, oldGone))
    ensures Consistent(digest, s')
  {
    forall path, i: nat | EntryAt(s'.files, path, i)
      ensures Stored(digest, s'.bucket, ReleasePath(s'.files[path].entries[i]), s'.files[path].entries[i].cksum)
    {
      assert EntryAt(s.files, path, i);
      ListedPath(digest, s, path, i, c);
    }
  }

  lemma ListedDeleteBreaks(digest: Digest, s: State, s': State, c: ClientId, oldGone: bool)
    requires DeleteMove(s, s', c, true, oldGone) && DeletesListed(s, DeleteTarball(c, true, oldGone))
    ensures !Consistent(digest, s')
  {
    var op := s.clients[c].op;
    var path, i: nat :| EntryAt(s.files, path, i) && SameRelease(s.files[path].entries[i], op);
    assert NewTarballPath(op) !in s'.bucket;
    assert EntryAt(s'.files, path, i) && ReleasePath(s.files[path].entries[i]) == NewTarballPath(op);
  }

  /** Of the tarballs of publishes about to list a release, a delete takes exactly those it robs. */
  lemma DeleteTakes(digest: Digest, s: State, s': State, c: ClientId, newGone: bool, oldGone: bool, d: ClientId)
    requires LockInv(s) && ClientsSound(s) && HandlerOps(digest, s) && DeleteMove(s, s', c, newGone, oldGone)
    requires d in s.clients && ReadyToList(s.clients[d])
    ensures HasTarball(digest, s'.bucket, s.clients[d].op) <==>
            HasTarball(digest, s.bucket, s.clients[d].op) && !Robs(s, DeleteTarball(c, newGone, oldGone), d)
  {
    ReadyPath(digest, s, d, c);
  }

  lemma DeleteKeepsReady(digest: Digest, s: State, s': State, c: ClientId, newGone: bool, oldGone: bool)
    requires LockInv(s) && ClientsSound(s) && HandlerOps(digest, s) && ReadyStored(digest, s)
    requires DeleteMove(s, s', c, newGone, oldGone)
    ensures ReadyStored(digest, s') <==> forall d :: !Robs(s, DeleteTarball(c, newGone, oldGone), d)
  {
    forall d | d in s.clients && ReadyToList(s.clients[d])
      ensures d in s'.clients && s'.clients[d] == s.clients[d]
      ensures HasTarball(digest, s'.bucket, s'.clients[d].op) <==> !Robs(s, DeleteTarball(c, newGone, oldGone), d)
    {
      DeleteTakes(digest, s, s', c, newGone, oldGone, d);
    }
  }

  lemma DeleteKeepsExactly(digest: Digest, s: State, c: ClientId, newGone: bool, oldGone: bool)
    requires LockInv(s) && RunInv(s) && SideInv(digest, s) && Kept(digest, s)
    requires Enabled(s, DeleteTarball(c, newGone, oldGone))
    ensures Kept(digest, Do(s, DeleteTarball(c, newGone, oldGone))) <==> !Harm(s, DeleteTarball(c, newGone, oldGone))
  {
    var s' := Do(s, DeleteTarball(c, newGone, oldGone));
    DeleteMoves(s, c, newGone, oldGone);
    DeleteKeepsReady(digest, s, s', c, newGone, oldGone);
    if DeletesListed(s, DeleteTarball(c, newGone, oldGone)) {
      ListedDeleteBreaks(digest, s, s', c, oldGone);
    } else {
      DeleteKeepsListed(digest, s, s', c, newGone, oldGone);
    }
  }

  lemma UploadKeeps(digest: Digest, s: State, s': State, c: ClientId)
    requires LockInv(s) && RunInv(s) && SideInv(digest, s) && Kept(digest, s) && UploadMove(s, s', c)
    ensures Kept(digest, s')
  {
    UploadKeepsListed(digest, s, s', c);
    UploadKeepsReady(digest, s, s', c);
  }

  lemma QuietStepKeeps(digest: Digest, s: State, step: Step)
    requires Kept(digest, s) && Enabled(s, step) && !TouchesTarballs(step)
    ensures Kept(digest, Do(s, step))
  {
    BucketMoves(s, step);
    BucketMoveKeeps(digest, s, Do(s, step), step.c);
  }

  lemma PutStepKeeps(digest: Digest, s: State, c: ClientId)
    requires LockInv(s) && RunInv(s) && Kept(digest, s) && Enabled(s, Put(c, true))
    ensures Kept(digest, Do(s, Put(c, true)))
  {
    PutMoves(s, c);
    PutKeepsTarballs(digest, s, Do(s, Put(c, true)), c);
  }

  lemma UploadStepKeeps(digest: Digest, s: State, c: ClientId, ok: bool)
    requires LockInv(s) && RunInv(s) && SideInv(digest, s) && Kept(digest, s) && Enabled(s, Upload(c, true, ok))
    ensures Kept(digest, Do(s, Upload(c, true, ok)))
  {
    UploadMoves(s, c, ok);
    UploadKeeps(digest, s, Do(s, Upload(c, true, ok)), c);
  }

  lemma OtherStepsKeep(digest: Digest, s: State, step: Step)
    requires LockInv(s) && RunInv(s) && SideInv(digest, s) && Kept(digest, s)
    requires Enabled(s, step) && !step.DeleteTarball?
    ensures Kept(digest, Do(s, step))
  {
    if step.Upload? && step.written {
      UploadStepKeeps(digest, s, step.c, step.ok);
    } else if step.Put? && step.ok {
      PutStepKeeps(digest, s, step.c);
    } else {
      QuietStepKeeps(digest, s, step);
    }
  }

  /** Of all steps, exactly a successful rollback delete of a tarball still needed breaks the two stores apart. */
  lemma TarballsKeptExactly(digest: Digest, s: State, step: Step)
    requires LockInv(s) && RunInv(s) && SideInv(digest, s) && Kept(digest, s) && Enabled(s, step)
    ensures Kept(digest, Do(s, step)) <==> !Harm(s, step)
  {
    if step.DeleteTarball? {
      DeleteKeepsExactly(digest, s, step.c, step.newGone, step.oldGone);
    } else {
      OtherStepsKeep(digest, s, step);
    }
  }
}
