/** The file-system index and the Postgres index are interchangeable: the same requests, in the same order, leave
    them with the same releases. */
module BackendAgreement {
  import opened CratePaths
  import opened IndexOps
  import opened Linearizability
  import opened LockInvariant
  import opened PgOps
  import opened PgTables
  import opened RegistryProtocol
  import opened RegistryTypes
  import opened Wrappers
  import SemVer

  /** Where the two agree on names and dependencies: Postgres neither lower-cases names nor reads back renamed
      dependencies and empty registries as they were published. */
  predicate Canonical(op: Op) {
    MetaPath(CrateNameOf(op)).Some? &&
    match op
    case PublishCrate(p, _, _) =>
      SemVer.WellFormed(p.vers) && forall i | 0 <= i < |p.deps| :: KeptFaithfully(p.deps[i])
    case SetYank(_, vers, _) => SemVer.WellFormed(vers)
    case ReadEntries(_) => true
  }

  ghost function PgReplay(log: seq<Event>): map<Key, CrateVersion> {
    if log == [] then map[] else PgDoes(PgReplay(log[..|log| - 1]), log[|log| - 1].op)
  }

  /** The entry is the release Postgres has under its name and version, and stands in its crate's file. */
  ghost predicate Matches(path: string, e: CrateVersion, committed: map<Key, CrateVersion>) {
    MetaPath(e.name) == Some(path) && SemVer.WellFormed(e.vers) &&
    KeyOfEntry(e) in committed && committed[KeyOfEntry(e)] == e
  }

  function KeyOfEntry(e: CrateVersion): Key {
    ReleaseKey(e.name, e.vers)
  }

  ghost predicate FoundIn(files: map<string, IndexFile>, key: Key, e: CrateVersion) {
    exists path, i: nat :: EntryAt(files, path, i) && files[path].entries[i] == e && KeyOfEntry(e) == key
  }

  /** Every entry is a release of Postgres. The triggers keep this and its converse from feeding each other. */
  ghost predicate AllMatch(files: map<string, IndexFile>, committed: map<Key, CrateVersion>) {
    forall path, i: nat {:trigger Matches(path, files[path].entries[i], committed)} | EntryAt(files, path, i) ::
      Matches(path, files[path].entries[i], committed)
  }

  /** Every release of Postgres is an entry. */
  ghost predicate AllFound(files: map<string, IndexFile>, committed: map<Key, CrateVersion>) {
    forall key {:trigger FoundIn(files, key, committed[key])} | key in committed :: FoundIn(files, key, committed[key])
  }

  ghost predicate SameIndex(files: map<string, IndexFile>, committed: map<Key, CrateVersion>) {
    AllMatch(files, committed) && AllFound(files, committed)
  }

  /** A version is in the crate's file exactly if Postgres has it. */
  lemma SameVersions(files: map<string, IndexFile>, committed: map<Key, CrateVersion>, name: string,
                     vers: SemVer.Version)
    requires SameIndex(files, committed) && MetaPath(name).Some? && SemVer.WellFormed(vers)
    ensures ReleaseKey(name, vers) in committed <==> HasVersion(EntriesOf(View(files, MetaPath(name).value)), vers)
  {
    var key, path := ReleaseKey(name, vers), MetaPath(name).value;
    var entries := EntriesOf(View(files, path));
    if key in committed {
      assert FoundIn(files, key, committed[key]);
      var p, i: nat :| EntryAt(files, p, i) && files[p].entries[i] == committed[key] &&
        KeyOfEntry(committed[key]) == key;
      assert Matches(p, files[p].entries[i], committed);
      SemVer.PrintInjective(files[p].entries[i].vers, vers);
      assert entries[i].vers == vers;
    }
    if i :| 0 <= i < |entries| && entries[i].vers == vers {
      assert EntryAt(files, path, i) && Matches(path, entries[i], committed);
      MetaPathInjective(entries[i].name, name);
    }
  }

  lemma SamePublish(files: map<string, IndexFile>, committed: map<Key, CrateVersion>, op: Op)
    requires SameIndex(files, committed) && Canonical(op) && op.PublishCrate?
    ensures var path := MetaPath(CrateNameOf(op)).value;
            var verdict := Judge(View(files, path), op);
            (verdict.Commit? <==> PgAccepts(committed, op)) &&
            (verdict.Commit? ==> SameIndex(files[path := verdict.file], PgDoes(committed, op)))
  {
    var path := MetaPath(CrateNameOf(op)).value;
    var verdict := Judge(View(files, path), op);
    SameVersions(files, committed, op.publish.name, op.publish.vers);
    StoredReleaseExactly(op.publish, op.cksum);
    if verdict.Commit? {
      PublishKeepsSame(files, committed, op, path, verdict.file);
    }
  }

  lemma PublishKeepsSame(files: map<string, IndexFile>, committed: map<Key, CrateVersion>, op: Op, path: string,
                         file: IndexFile)
    requires SameIndex(files, committed) && op.PublishCrate? && MetaPath(op.publish.name) == Some(path)
    requires SemVer.WellFormed(op.publish.vers) && KeyOfOp(op) !in committed
    requires file.entries == EntriesOf(View(files, path)) + [StoredRelease(op.publish, op.cksum)]
    ensures SameIndex(files[path := file], committed[KeyOfOp(op) := StoredRelease(op.publish, op.cksum)])
  {
    PublishKeepsMatches(files, committed, op, path, file);
    PublishKeepsFound(files, committed, op, path, file);
  }

  lemma PublishKeepsMatches(files: map<string, IndexFile>, committed: map<Key, CrateVersion>, op: Op, path: string,
                            file: IndexFile)
    requires AllMatch(files, committed) && op.PublishCrate? && MetaPath(op.publish.name) == Some(path)
    requires SemVer.WellFormed(op.publish.vers) && KeyOfOp(op) !in committed
    requires file.entries == EntriesOf(View(files, path)) + [StoredRelease(op.publish, op.cksum)]
    ensures AllMatch(files[path := file], committed[KeyOfOp(op) := StoredRelease(op.publish, op.cksum)])
  {
    var files', committed' := files[path := file], committed[KeyOfOp(op) := StoredRelease(op.publish, op.cksum)];
    var n := |file.entries| - 1;
    forall p, i: nat | EntryAt(files', p, i) ensures Matches(p, files'[p].entries[i], committed') {
      if p != path || i < n {
        assert EntryAt(files, p, i) && Matches(p, files[p].entries[i], committed);
      }
    }
  }

  lemma PublishKeepsFound(files: map<string, IndexFile>, committed: map<Key, CrateVersion>, op: Op, path: string,
                          file: IndexFile)
    requires AllFound(files, committed) && op.PublishCrate?
    requires file.entries == EntriesOf(View(files, path)) + [StoredRelease(op.publish, op.cksum)]
    ensures AllFound(files[path := file], committed[KeyOfOp(op) := StoredRelease(op.publish, op.cksum)])
  {
    var files', committed' := files[path := file], committed[KeyOfOp(op) := StoredRelease(op.publish, op.cksum)];
    var n := |file.entries| - 1;
    forall key | key in committed' ensures FoundIn(files', key, committed'[key]) {
      if key == KeyOfOp(op) {
        assert EntryAt(files', path, n) && files'[path].entries[n] == committed'[key];
      } else {
        assert FoundIn(files, key, committed[key]);
        var p, i: nat :| EntryAt(files, p, i) && files[p].entries[i] == committed[key] &&
          KeyOfEntry(committed[key]) == key;
        assert EntryAt(files', p, i) && files'[p].entries[i] == committed'[key];
      }
    }
  }

  lemma SameYank(files: map<string, IndexFile>, committed: map<Key, CrateVersion>, op: Op)
    requires SameIndex(files, committed) && Canonical(op) && op.SetYank?
    requires forall path | path in files :: SoundFile(files[path])
    ensures var path := MetaPath(CrateNameOf(op)).value;
            var verdict := Judge(View(files, path), op);
            (verdict.Commit? <==> PgAccepts(committed, op)) &&
            (verdict.Commit? ==> SameIndex(files[path := verdict.file], PgDoes(committed, op)))
  {
    var path := MetaPath(op.name).value;
    var verdict := Judge(View(files, path), op);
    SameVersions(files, committed, op.name, op.vers);
    if verdict.Commit? {
      var i := RFind(files[path].entries, op.vers).value;
      YankKeepsSame(files, committed, op, path, i);
    }
  }

  function YankEntry(file: IndexFile, i: nat, yank: bool): IndexFile
    requires i < |file.entries|
  {
    IndexFile(file.entries[i := file.entries[i].(yanked := yank)], file.latest)
  }

  lemma YankKeepsSame(files: map<string, IndexFile>, committed: map<Key, CrateVersion>, op: Op, path: string, i: nat)
    requires SameIndex(files, committed) && op.SetYank? && MetaPath(op.name) == Some(path)
    requires EntryAt(files, path, i) && SoundFile(files[path]) && files[path].entries[i].vers == op.vers
    requires KeyOfOp(op) in committed
    ensures SameIndex(files[path := YankEntry(files[path], i, op.yank)], Yanked(committed, KeyOfOp(op), op.yank))
  {
    assert Matches(path, files[path].entries[i], committed);
    MetaPathInjective(files[path].entries[i].name, op.name);
    YankKeepsMatches(files, committed, path, i, op.yank);
    YankKeepsFound(files, committed, path, i, op.yank);
  }

  lemma YankKeepsMatches(files: map<string, IndexFile>, committed: map<Key, CrateVersion>, path: string, i: nat,
                         yank: bool)
    requires AllMatch(files, committed) && EntryAt(files, path, i) && SoundFile(files[path])
    requires Matches(path, files[path].entries[i], committed)
    ensures var e := files[path].entries[i];
            AllMatch(files[path := YankEntry(files[path], i, yank)], Yanked(committed, KeyOfEntry(e), yank))
  {
    var e := files[path].entries[i];
    var files', committed' :=
      files[path := YankEntry(files[path], i, yank)], Yanked(committed, KeyOfEntry(e), yank);
    forall p, j: nat | EntryAt(files', p, j) ensures Matches(p, files'[p].entries[j], committed') {
      assert EntryAt(files, p, j) && Matches(p, files[p].entries[j], committed);
      if !(p == path && j == i) {
        OtherKey(files, committed, path, i, p, j);
      }
    }
  }

  lemma YankKeepsFound(files: map<string, IndexFile>, committed: map<Key, CrateVersion>, path: string, i: nat,
                       yank: bool)
    requires AllFound(files, committed) && EntryAt(files, path, i)
    requires Matches(path, files[path].entries[i], committed)
    ensures var e := files[path].entries[i];
            AllFound(files[path := YankEntry(files[path], i, yank)], Yanked(committed, KeyOfEntry(e), yank))
  {
    var e := files[path].entries[i];
    var files', committed' :=
      files[path := YankEntry(files[path], i, yank)], Yanked(committed, KeyOfEntry(e), yank);
    forall key | key in committed' ensures FoundIn(files', key, committed'[key]) {
      if key == KeyOfEntry(e) {
        assert EntryAt(files', path, i) && files'[path].entries[i] == committed'[key];
      } else {
        assert FoundIn(files, key, committed[key]);
        var p, j: nat :| EntryAt(files, p, j) && files[p].entries[j] == committed[key] &&
          KeyOfEntry(committed[key]) == key;
        assert EntryAt(files', p, j) && files'[p].entries[j] == committed'[key];
      }
    }
  }

  lemma OtherKey(files: map<string, IndexFile>, committed: map<Key, CrateVersion>, path: string, i: nat, p: string,
                 j: nat)
    requires AllMatch(files, committed) && EntryAt(files, path, i) && EntryAt(files, p, j) && (p != path || i != j)
    requires SoundFile(files[path])
    ensures KeyOfEntry(files[p].entries[j]) !=
            KeyOfEntry(files[path].entries[i])
  {
    var e, e' := files[path].entries[i], files[p].entries[j];
    assert Matches(path, e, committed) && Matches(p, e', committed);
    if SemVer.Print(e.vers) == SemVer.Print(e'.vers) {
      SemVer.PrintInjective(e.vers, e'.vers);
    }
  }

  /** Every event is a canonical update, logged under the file of its crate. */
  ghost predicate CanonicalLog(log: seq<Event>) {
    forall i | 0 <= i < |log| ::
      IsWriter(log[i].op) && Canonical(log[i].op) && MetaPath(CrateNameOf(log[i].op)) == Some(log[i].path)
  }

  ghost predicate AllSound(files: map<string, IndexFile>) {
    forall path | path in files :: SoundFile(files[path])
  }

  lemma SoundOneMore(files: map<string, IndexFile>, path: string, op: Op)
    requires AllSound(files) && Judge(View(files, path), op).Commit?
    ensures AllSound(files[path := Judge(View(files, path), op).file])
  {
    CommitKeepsHistory(View(files, path), op);
  }

  lemma SameStep(files: map<string, IndexFile>, committed: map<Key, CrateVersion>, event: Event)
    requires SameIndex(files, committed) && AllSound(files) && CanonicalLog([event])
    requires Judge(View(files, event.path), event.op).Commit?
    ensures PgAccepts(committed, event.op)
    ensures var files' := files[event.path := Judge(View(files, event.path), event.op).file];
            SameIndex(files', PgDoes(committed, event.op)) && AllSound(files')
  {
    assert [event][0] == event;
    SoundOneMore(files, event.path, event.op);
    if event.op.PublishCrate? {
      SamePublish(files, committed, event.op);
    } else {
      SameYank(files, committed, event.op);
    }
  }

  /** Postgres, given the updates one by one, would have accepted each. */
  ghost predicate PgAcceptsAll(log: seq<Event>) {
    log == [] ||
    (PgAcceptsAll(log[..|log| - 1]) && PgAccepts(PgReplay(log[..|log| - 1]), log[|log| - 1].op))
  }

  /** The two indexes accept the same updates and hold the same releases after them. */
  lemma {:induction false} SameAfter(log: seq<Event>)
    requires LogCommits(log) && CanonicalLog(log)
    ensures SameIndex(Replay(log), PgReplay(log)) && AllSound(Replay(log)) && PgAcceptsAll(log)
  {
    if log != [] {
      var n := |log| - 1;
      FrontCommits(log);
      FrontCanonical(log);
      SameAfter(log[..n]);
      SameStep(Replay(log[..n]), PgReplay(log[..n]), log[n]);
    }
  }

  lemma FrontCanonical(log: seq<Event>)
    requires log != [] && CanonicalLog(log)
    ensures CanonicalLog(log[..|log| - 1]) && CanonicalLog([log[|log| - 1]])
  {
  }

  lemma FrontCommits(log: seq<Event>)
    requires log != [] && LogCommits(log)
    ensures var n := |log| - 1;
            LogCommits(log[..n]) && Judge(View(Replay(log[..n]), log[n].path), log[n].op).Commit?
  {
    var front := log[..|log| - 1];
    forall i | 0 <= i < |front| ensures Judge(View(Replay(front[..i]), front[i].path), front[i].op).Commit? {
      assert front[..i] == log[..i] && front[i] == log[i];
    }
  }

  ghost predicate CanonicalSteps(steps: seq<Step>) {
    forall i | 0 <= i < |steps| && steps[i].Begin? :: Canonical(steps[i].op)
  }

  ghost predicate ClientsCanonical(s: State) {
    forall c | c in s.clients :: Canonical(s.clients[c].op)
  }

  lemma OpsStay(s: State, step: Step)
    requires Enabled(s, step)
    ensures step.c in s.clients || step.Begin?
    ensures Moved(s, step).op == if step.Begin? then step.op else s.clients[step.c].op
  {
  }

  lemma ClientsStayCanonical(s: State, step: Step)
    requires ClientsCanonical(s) && Enabled(s, step) && (step.Begin? ==> Canonical(step.op))
    ensures ClientsCanonical(Do(s, step))
  {
    OpsStay(s, step);
    StepMovesOne(s, step);
  }

  /** A put logs a canonical update under its crate's file; no other step logs anything. */
  lemma PutLogsCanonical(s: State, s': State, c: ClientId)
    requires PathsKnown(s) && ClientsSound(s) && DraftsCurrent(s) && ClientsCanonical(s) && PutMove(s, s', c)
    requires CanonicalLog(s.log)
    ensures CanonicalLog(s'.log)
  {
    var client := s.clients[c];
    assert Judge(View(s.files, client.path), client.op) == Commit(client.draft);
    IndexNameIsLower(CrateNameOf(client.op));
  }

  lemma LogStaysCanonical(s: State, step: Step)
    requires LockInv(s) && RunInv(s) && Enabled(s, step) && ClientsCanonical(s) && CanonicalLog(s.log)
    ensures CanonicalLog(Do(s, step).log)
  {
    if step.Put? && step.ok {
      PutMoves(s, step.c);
      PutLogsCanonical(s, Do(s, step), step.c);
    } else {
      OtherStepsLogNothing(s, step);
    }
  }

  lemma OtherStepsLogNothing(s: State, step: Step)
    requires Enabled(s, step) && !(step.Put? && step.ok)
    ensures Do(s, step).log == s.log
  {
  }

  lemma {:induction false} ReachableCanonical(steps: seq<Step>)
    requires After(steps).Some? && CanonicalSteps(steps)
    ensures ClientsCanonical(After(steps).value) && CanonicalLog(After(steps).value.log)
  {
    if steps != [] {
      var n := |steps| - 1;
      ReachableCanonical(steps[..n]);
      ReachableRuns(steps[..n]);
      ClientsStayCanonical(After(steps[..n]).value, steps[n]);
      LogStaysCanonical(After(steps[..n]).value, steps[n]);
    }
  }

  /** However the requests of a run interleave, the index files hold what Postgres would hold after the same updates
      one by one, and Postgres would have accepted each of them. */
  lemma IndexesAgree(steps: seq<Step>)
    requires After(steps).Some? && CanonicalSteps(steps)
    ensures var s := After(steps).value;
            SameIndex(s.files, PgReplay(s.log)) && PgAcceptsAll(s.log)
  {
    ReachableRuns(steps);
    ReachableCanonical(steps);
    SameAfter(After(steps).value.log);
  }
}
