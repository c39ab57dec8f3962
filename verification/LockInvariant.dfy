/** The lock table in every reachable state: one lock a crate, and no entry left behind. */
module LockInvariant {
  import opened CratePaths
  import opened IndexOps
  import opened RegistryProtocol
  import opened Wrappers

  /** Entries point to distinct locks that have been made. */
  ghost predicate TableSound(s: State) {
    (forall key | key in s.table :: s.table[key] < s.nextLock) &&
    (forall j, k | j in s.table && k in s.table && j != k :: s.table[j] != s.table[k])
  }

  /** A request that is under way knows the file of its key. */
  ghost predicate PathsKnown(s: State) {
    forall c | c in s.clients && s.clients[c].pc != Done :: MetaPath(s.clients[c].key) == Some(s.clients[c].path)
  }

  ghost predicate LockAgrees(s: State, c: ClientId) {
    c in s.clients && s.clients[c].key in s.table && s.table[s.clients[c].key] == s.clients[c].lock &&
    s.clients[c].lock in s.paths && s.paths[s.clients[c].lock] == s.clients[c].path
  }

  /** Whoever holds an `Arc` holds the lock the table names for its key, and that lock guards its file. */
  ghost predicate LocksAgree(s: State) {
    forall c | c in s.clients && HoldsArc(s.clients[c]) :: LockAgrees(s, c)
  }

  /** A guard that may write excludes every other guard of its lock. */
  ghost predicate GuardsExclude(s: State) {
    forall c, d | c in s.clients && d in s.clients && c != d && HoldsGuard(s.clients[c]) && HoldsGuard(s.clients[d]) &&
                  s.clients[c].lock == s.clients[d].lock ::
      !IsWriter(s.clients[c].op) && !IsWriter(s.clients[d].op)
  }

  /** A dead entry has a request of its key between dropping its `Arc` and calling `on_unlocked`. */
  ghost predicate DeadEntriesWatched(s: State) {
    forall key | key in s.table && s.table[key] !in Alive(s.clients) ::
      exists c :: At(s, c, Dropped) && s.clients[c].key == key
  }

  ghost predicate LockInv(s: State) {
    TableSound(s) && PathsKnown(s) && LocksAgree(s) && GuardsExclude(s) && DeadEntriesWatched(s)
  }

  /** The lock a look-up returns, in terms of the entries and holders around it. */
  lemma LookupResult(s: State, c: ClientId)
    requires LockInv(s) && At(s, c, Calling)
    ensures var lock := Moved(s, Lookup(c)).lock;
            forall d | d in s.clients && HoldsArc(s.clients[d]) ::
              (s.clients[d].lock == lock <==> s.clients[d].key == s.clients[c].key) && s.clients[d].lock < s.nextLock
  {
    var key, alive := s.clients[c].key, Alive(s.clients);
    forall d | d in s.clients && HoldsArc(s.clients[d])
      ensures s.clients[d].lock in alive
    {
    }
  }

  /** The holders after a look-up: those before, and the caller. */
  lemma LookupHolders(s: State, c: ClientId)
    requires LockInv(s) && At(s, c, Calling)
    ensures var s' := Do(s, Lookup(c));
            Alive(s'.clients) == Alive(s.clients) + {s'.clients[c].lock}
  {
    var s' := Do(s, Lookup(c));
    forall l | l in Alive(s.clients) ensures l in Alive(s'.clients) {
      var d :| d in s.clients && HoldsArc(s.clients[d]) && s.clients[d].lock == l;
      assert d in s'.clients && HoldsArc(s'.clients[d]) && s'.clients[d].lock == l;
    }
  }

  lemma LookupKeepsTable(s: State, c: ClientId)
    requires LockInv(s) && At(s, c, Calling)
    ensures TableSound(Do(s, Lookup(c))) && PathsKnown(Do(s, Lookup(c)))
  {
  }

  lemma OthersStillAgree(s: State, c: ClientId, d: ClientId)
    requires LockInv(s) && At(s, c, Calling) && d in s.clients && HoldsArc(s.clients[d])
    ensures LockAgrees(Do(s, Lookup(c)), d)
  {
    LookupResult(s, c);
  }

  lemma CallerAgrees(s: State, c: ClientId)
    requires LockInv(s) && At(s, c, Calling)
    ensures LockAgrees(Do(s, Lookup(c)), c)
  {
    LookupResult(s, c);
    var s' := Do(s, Lookup(c));
    if s'.clients[c].lock in Alive(s.clients) {
      var d :| d in s.clients && HoldsArc(s.clients[d]) && s.clients[d].lock == s'.clients[c].lock;
      SameKeySamePath(s, c, d);
    }
  }

  lemma LookupKeepsAgreement(s: State, c: ClientId)
    requires LockInv(s) && At(s, c, Calling)
    ensures LocksAgree(Do(s, Lookup(c)))
  {
    var s' := Do(s, Lookup(c));
    CallerAgrees(s, c);
    forall d | d in s'.clients && HoldsArc(s'.clients[d]) ensures LockAgrees(s', d) {
      if d != c {
        OthersStillAgree(s, c, d);
      }
    }
  }

  lemma SameKeySamePath(s: State, c: ClientId, d: ClientId)
    requires PathsKnown(s) && c in s.clients && d in s.clients && s.clients[c].key == s.clients[d].key
    requires s.clients[c].pc != Done && s.clients[d].pc != Done
    ensures s.clients[c].path == s.clients[d].path
  {
  }

  lemma LookupKeepsGuards(s: State, c: ClientId)
    requires LockInv(s) && At(s, c, Calling)
    ensures GuardsExclude(Do(s, Lookup(c)))
  {
  }

  lemma LookupKeepsWatch(s: State, c: ClientId)
    requires LockInv(s) && At(s, c, Calling)
    ensures DeadEntriesWatched(Do(s, Lookup(c)))
  {
    LookupHolders(s, c);
    var s' := Do(s, Lookup(c));
    forall key | key in s'.table && s'.table[key] !in Alive(s'.clients)
      ensures exists d :: At(s', d, Dropped) && s'.clients[d].key == key
    {
      var d :| At(s, d, Dropped) && s.clients[d].key == key;
      assert At(s', d, Dropped);
    }
  }

  // ---- The other steps ----

  /** `c` moves without touching the lock table or its own `Arc`; it may drop its guard but not take one. */
  ghost predicate QuietMove(s: State, s': State, c: ClientId) {
    s'.table == s.table && s'.paths == s.paths && s'.nextLock == s.nextLock &&
    c in s.clients && c in s'.clients && s'.clients == s.clients[c := s'.clients[c]] &&
    var client, client' := s.clients[c], s'.clients[c];
    client'.op == client.op && client'.key == client.key && client'.path == client.path &&
    client'.lock == client.lock && HoldsArc(client') == HoldsArc(client) &&
    (HoldsGuard(client') ==> HoldsGuard(client)) && (client'.pc == Dropped <==> client.pc == Dropped) &&
    (client.pc == Done ==> client'.pc == Done)
  }

  lemma PullIsQuiet(s: State, c: ClientId, ok: bool)
    requires Enabled(s, Pull(c, ok))
    ensures QuietMove(s, Do(s, Pull(c, ok)), c)
  {
  }

  lemma StoreStepsAreQuiet(s: State, step: Step)
    requires Enabled(s, step) && (step.Upload? || step.Put?)
    ensures QuietMove(s, Do(s, step), step.c)
  {
  }

  lemma QuietSteps(s: State, step: Step)
    requires Enabled(s, step)
    requires !step.Begin? && !step.Lookup? && !step.Acquire? && !step.TakeArc? && !step.OnUnlocked?
    ensures QuietMove(s, Do(s, step), step.c)
  {
    if step.Pull? {
      PullIsQuiet(s, step.c, step.ok);
    } else if step.Upload? || step.Put? {
      StoreStepsAreQuiet(s, step);
    }
  }

  lemma SameHolders(s: State, s': State, c: ClientId)
    requires c in s'.clients && s'.clients == s.clients[c := s'.clients[c]]
    requires c in s.clients && HoldsArc(s.clients[c]) ==>
               HoldsArc(s'.clients[c]) && s'.clients[c].lock == s.clients[c].lock
    ensures Alive(s.clients) <= Alive(s'.clients)
  {
    forall l | l in Alive(s.clients) ensures l in Alive(s'.clients) {
      var d :| d in s.clients && HoldsArc(s.clients[d]) && s.clients[d].lock == l;
      assert d in s'.clients && HoldsArc(s'.clients[d]) && s'.clients[d].lock == l;
    }
  }

  /** Entries stay watched when nobody drops an `Arc` or calls `on_unlocked`. */
  lemma StillWatched(s: State, s': State, c: ClientId)
    requires DeadEntriesWatched(s) && s'.table == s.table && Alive(s.clients) <= Alive(s'.clients)
    requires c in s'.clients && s'.clients == s.clients[c := s'.clients[c]]
    requires At(s, c, Dropped) ==> At(s', c, Dropped) && s'.clients[c].key == s.clients[c].key
    ensures DeadEntriesWatched(s')
  {
    forall key | key in s'.table && s'.table[key] !in Alive(s'.clients)
      ensures exists d :: At(s', d, Dropped) && s'.clients[d].key == key
    {
      var d :| At(s, d, Dropped) && s.clients[d].key == key;
      assert At(s', d, Dropped);
    }
  }

  lemma QuietKeeps(s: State, s': State, c: ClientId)
    requires LockInv(s) && QuietMove(s, s', c)
    ensures LockInv(s')
  {
    QuietKeepsAgreement(s, s', c);
    QuietKeepsGuards(s, s', c);
    SameHolders(s, s', c);
    StillWatched(s, s', c);
  }

  lemma QuietKeepsAgreement(s: State, s': State, c: ClientId)
    requires LockInv(s) && QuietMove(s, s', c)
    ensures TableSound(s') && PathsKnown(s') && LocksAgree(s')
  {
  }

  lemma QuietKeepsGuards(s: State, s': State, c: ClientId)
    requires LockInv(s) && QuietMove(s, s', c)
    ensures GuardsExclude(s')
  {
  }

  lemma BeginKeeps(s: State, c: ClientId, op: Op)
    requires LockInv(s) && Enabled(s, Begin(c, op))
    ensures LockInv(Do(s, Begin(c, op)))
  {
    var s' := Do(s, Begin(c, op));
    SameHolders(s, s', c);
    StillWatched(s, s', c);
  }

  lemma AcquireKeeps(s: State, c: ClientId)
    requires LockInv(s) && Enabled(s, Acquire(c))
    ensures LockInv(Do(s, Acquire(c)))
  {
    var s' := Do(s, Acquire(c));
    SameHolders(s, s', c);
    StillWatched(s, s', c);
  }

  lemma TakeArcHolders(s: State, c: ClientId)
    requires Enabled(s, TakeArc(c))
    ensures Alive(s.clients) <= Alive(Do(s, TakeArc(c)).clients) + {s.clients[c].lock}
  {
    var s' := Do(s, TakeArc(c));
    forall l | l in Alive(s.clients) && l != s.clients[c].lock ensures l in Alive(s'.clients) {
      var d :| d in s.clients && HoldsArc(s.clients[d]) && s.clients[d].lock == l;
      assert d in s'.clients && HoldsArc(s'.clients[d]) && s'.clients[d].lock == l;
    }
  }

  lemma TakeArcKeepsWatch(s: State, c: ClientId)
    requires LockInv(s) && Enabled(s, TakeArc(c))
    ensures DeadEntriesWatched(Do(s, TakeArc(c)))
  {
    var s' := Do(s, TakeArc(c));
    assert At(s', c, Dropped);
    TakeArcHolders(s, c);
    forall key | key in s'.table && s'.table[key] !in Alive(s'.clients)
      ensures exists d :: At(s', d, Dropped) && s'.clients[d].key == key
    {
      if s.table[key] !in Alive(s.clients) {
        var d :| At(s, d, Dropped) && s.clients[d].key == key;
        assert At(s', d, Dropped);
      }
    }
  }

  lemma TakeArcKeeps(s: State, c: ClientId)
    requires LockInv(s) && Enabled(s, TakeArc(c))
    ensures LockInv(Do(s, TakeArc(c)))
  {
    TakeArcKeepsWatch(s, c);
  }

  lemma OnUnlockedHolders(s: State, c: ClientId)
    requires Enabled(s, OnUnlocked(c))
    ensures Alive(Do(s, OnUnlocked(c)).clients) == Alive(s.clients)
  {
    var s' := Do(s, OnUnlocked(c));
    SameHolders(s, s', c);
    SameHolders(s', s, c);
  }

  /** The entry of a lock that is held is not removed. */
  lemma HolderStillAgrees(s: State, c: ClientId, d: ClientId)
    requires LocksAgree(s) && Enabled(s, OnUnlocked(c)) && c != d && d in s.clients && HoldsArc(s.clients[d])
    ensures LockAgrees(Do(s, OnUnlocked(c)), d)
  {
    assert LockAgrees(s, d) && s.clients[d].lock in Alive(s.clients);
  }

  lemma OnUnlockedKeepsAgreement(s: State, c: ClientId)
    requires LockInv(s) && Enabled(s, OnUnlocked(c))
    ensures LocksAgree(Do(s, OnUnlocked(c)))
  {
    var s' := Do(s, OnUnlocked(c));
    forall d | d in s'.clients && HoldsArc(s'.clients[d]) ensures LockAgrees(s', d) {
      HolderStillAgrees(s, c, d);
    }
  }

  lemma OnUnlockedKeepsWatch(s: State, c: ClientId)
    requires LockInv(s) && Enabled(s, OnUnlocked(c))
    ensures DeadEntriesWatched(Do(s, OnUnlocked(c)))
  {
    var s' := Do(s, OnUnlocked(c));
    OnUnlockedHolders(s, c);
    forall key | key in s'.table && s'.table[key] !in Alive(s'.clients)
      ensures exists d :: At(s', d, Dropped) && s'.clients[d].key == key
    {
      var d :| At(s, d, Dropped) && s.clients[d].key == key;
      assert At(s', d, Dropped);
    }
  }

  lemma OnUnlockedKeepsTable(s: State, c: ClientId)
    requires LockInv(s) && Enabled(s, OnUnlocked(c))
    ensures TableSound(Do(s, OnUnlocked(c))) && PathsKnown(Do(s, OnUnlocked(c)))
  {
  }

  lemma OnUnlockedKeepsGuards(s: State, c: ClientId)
    requires LockInv(s) && Enabled(s, OnUnlocked(c))
    ensures GuardsExclude(Do(s, OnUnlocked(c)))
  {
  }

  lemma OnUnlockedKeeps(s: State, c: ClientId)
    requires LockInv(s) && Enabled(s, OnUnlocked(c))
    ensures LockInv(Do(s, OnUnlocked(c)))
  {
    OnUnlockedKeepsTable(s, c);
    OnUnlockedKeepsGuards(s, c);
    OnUnlockedKeepsAgreement(s, c);
    OnUnlockedKeepsWatch(s, c);
  }

  lemma LookupKeeps(s: State, c: ClientId)
    requires LockInv(s) && Enabled(s, Lookup(c))
    ensures LockInv(Do(s, Lookup(c)))
  {
    LookupKeepsTable(s, c);
    LookupKeepsAgreement(s, c);
    LookupKeepsGuards(s, c);
    LookupKeepsWatch(s, c);
  }

  /** Every step of every request keeps the lock table right. */
  lemma StepKeepsLocks(s: State, step: Step)
    requires LockInv(s) && Enabled(s, step)
    ensures LockInv(Do(s, step))
  {
    match step
    case Begin(c, op) => BeginKeeps(s, c, op);
    case Lookup(c) => LookupKeeps(s, c);
    case Acquire(c) => AcquireKeeps(s, c);
    case TakeArc(c) => TakeArcKeeps(s, c);
    case OnUnlocked(c) => OnUnlockedKeeps(s, c);
    case _ =>
      QuietSteps(s, step);
      QuietKeeps(s, Do(s, step), step.c);
  }

  lemma {:induction false} ReachableLocks(steps: seq<Step>)
    requires After(steps).Some?
    ensures LockInv(After(steps).value)
  {
    if steps == [] {
    } else {
      var n := |steps| - 1;
      ReachableLocks(steps[..n]);
      StepKeepsLocks(After(steps[..n]).value, steps[n]);
    }
  }

  // ---- What the invariant gives ----

  /** In every reachable state the requests holding an `Arc` for one key hold one lock, and those holding an `Arc`
      for different keys hold different locks and files. */
  lemma OneLockPerCrate(steps: seq<Step>, c: ClientId, d: ClientId)
    requires After(steps).Some?
    requires var s := After(steps).value;
             c in s.clients && d in s.clients && HoldsArc(s.clients[c]) && HoldsArc(s.clients[d])
    ensures var s := After(steps).value;
            (s.clients[c].key == s.clients[d].key <==> s.clients[c].lock == s.clients[d].lock) &&
            (s.clients[c].key == s.clients[d].key <==>
              GuardedPath(s, s.clients[c].lock) == GuardedPath(s, s.clients[d].lock))
  {
    ReachableLocks(steps);
    var s := After(steps).value;
    if GuardedPath(s, s.clients[c].lock) == GuardedPath(s, s.clients[d].lock) {
      MetaPathInjective(s.clients[c].key, s.clients[d].key);
    }
  }

  /** A request that may write a crate's file runs with no other reader or writer of that file. */
  lemma WriterIsAlone(steps: seq<Step>, c: ClientId, d: ClientId)
    requires After(steps).Some? && c != d
    requires var s := After(steps).value;
             c in s.clients && d in s.clients && HoldsGuard(s.clients[c]) && HoldsGuard(s.clients[d]) &&
             s.clients[c].key == s.clients[d].key
    ensures var s := After(steps).value; s.clients[c].op.ReadEntries? && s.clients[d].op.ReadEntries?
  {
    ReachableLocks(steps);
    OneLockPerCrate(steps, c, d);
  }

  /** When no `CrateMetaPath` exists the table is empty, in whatever order they were dropped and cleaned up. */
  lemma NoEntryLeaks(steps: seq<Step>)
    requires After(steps).Some?
    requires forall c | c in After(steps).value.clients :: !HasMetaPath(After(steps).value.clients[c])
    ensures After(steps).value.table == map[]
  {
    ReachableLocks(steps);
    var s := After(steps).value;
    if s.table != map[] {
      var key :| key in s.table;
      EntryIsUsed(s, key);
      assert false;
    }
  }

  lemma EntryIsUsed(s: State, key: string)
    requires LockInv(s) && key in s.table
    ensures exists c :: c in s.clients && HasMetaPath(s.clients[c])
  {
    if s.table[key] in Alive(s.clients) {
      var c :| c in s.clients && HoldsArc(s.clients[c]) && s.clients[c].lock == s.table[key];
      assert HasMetaPath(s.clients[c]);
    } else {
      var c :| At(s, c, Dropped) && s.clients[c].key == key;
      assert HasMetaPath(s.clients[c]);
    }
  }
}
