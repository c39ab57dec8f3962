/** Any number of requests running against one file-system index and one tarball bucket.

    A request is cut at every `await` and at every release of a shared resource, so that other requests run in
    between. The steps of a run are chosen freely: which request moves, which input or output fails, and which
    request is cancelled. */
module RegistryProtocol {
  import opened AccessLocks
  import opened CratePaths
  import opened IndexOps
  import opened Wrappers
  import Storage
  import StoragePaths
  import SemVer

  type ClientId = nat

  /** Where a request stands.
      Calling: before `rwlock_for_key`. Waiting: holds the `Arc`, awaits the lock. Locked: holds the guard, awaits
      the file. Editing: a publish awaiting its end step. Ready: awaits the new file's put. Leaving: result known,
      guard still held. Unlocked: guard dropped, `Arc` held. Dropped: `Arc` dropped, `on_unlocked` to come.
      Rollback: a failed publish that stored its tarball, about to delete it. Done: nothing left to do. */
  datatype Pc = Calling | Waiting | Locked | Editing | Ready | Leaving | Unlocked | Dropped | Rollback | Done

  datatype Outcome = Pending | Committed | Answered(file: IndexFile) | Failed(error: IndexError) | Cancelled

  /** `born` and `at` are positions in the log: its length when the request came in, and the position where the
      request takes effect. They record history and steer nothing. */
  datatype Client = Client(
    op: Op, key: string, path: string, pc: Pc, lock: LockId, draft: IndexFile, stored: bool, outcome: Outcome,
    born: nat, at: nat)

  /** A put that took effect; the log of a run lists them in order and steers nothing. */
  datatype Event = Event(client: ClientId, path: string, op: Op)

  datatype State = State(
    table: map<string, LockId>, paths: map<LockId, string>, nextLock: LockId,
    files: map<string, IndexFile>, bucket: Storage.Bucket,
    clients: map<ClientId, Client>, log: seq<Event>)

  datatype Step =
    | Begin(c: ClientId, op: Op)
    | Lookup(c: ClientId)
    | Acquire(c: ClientId)
    | Pull(c: ClientId, ok: bool)
    | Upload(c: ClientId, written: bool, ok: bool)
    | Put(c: ClientId, ok: bool)
    | Cancel(c: ClientId)
    | Release(c: ClientId)
    | TakeArc(c: ClientId)
    | OnUnlocked(c: ClientId)
    | DeleteTarball(c: ClientId, newGone: bool, oldGone: bool)

  const INITIAL: State := State(map[], map[], 0, map[], map[], map[], [])

  predicate HoldsArc(c: Client) {
    c.pc in {Waiting, Locked, Editing, Ready, Leaving, Unlocked}
  }

  predicate HoldsGuard(c: Client) {
    c.pc in {Locked, Editing, Ready, Leaving}
  }

  /** A `CrateMetaPath` exists from the look-up until `on_unlocked` has run. */
  predicate HasMetaPath(c: Client) {
    HoldsArc(c) || c.pc == Dropped
  }

  /** The locks with a strong count above zero. */
  function Alive(clients: map<ClientId, Client>): set<LockId> {
    set c | c in clients && HoldsArc(clients[c]) :: clients[c].lock
  }

  /** The path stored inside a lock by whoever created it; requests use this one, not their own. */
  function GuardedPath(s: State, lock: LockId): string {
    if lock in s.paths then s.paths[lock] else ""
  }

  function NewTarballPath(op: Op): string
    requires op.PublishCrate?
  {
    StoragePaths.NewPath(op.publish.name, SemVer.Print(op.publish.vers), op.cksum)
  }

  function OldTarballPath(op: Op): string
    requires op.PublishCrate?
  {
    StoragePaths.OldPath(op.publish.name, SemVer.Print(op.publish.vers))
  }

  /** The abstract lock: a guard is given out when no other guard of that lock excludes it. */
  predicate GuardFree(s: State, c: ClientId)
    requires c in s.clients
  {
    forall d | d in s.clients && HoldsGuard(s.clients[d]) && s.clients[d].lock == s.clients[c].lock ::
      !IsWriter(s.clients[c].op) && !IsWriter(s.clients[d].op)
  }

  predicate At(s: State, c: ClientId, pc: Pc) {
    c in s.clients && s.clients[c].pc == pc
  }

  predicate Enabled(s: State, step: Step) {
    match step
    case Begin(c, op) => c !in s.clients
    case Lookup(c) => At(s, c, Calling)
    case Acquire(c) => At(s, c, Waiting) && GuardFree(s, c)
    case Pull(c, ok) => At(s, c, Locked)
    case Upload(c, written, ok) => At(s, c, Editing) && s.clients[c].op.PublishCrate? && (ok ==> written)
    case Put(c, ok) => At(s, c, Ready)
    case Cancel(c) => c in s.clients && s.clients[c].pc in {Waiting, Locked, Editing, Ready, Rollback}
    case Release(c) => At(s, c, Leaving)
    case TakeArc(c) => At(s, c, Unlocked)
    case OnUnlocked(c) => At(s, c, Dropped)
    case DeleteTarball(c, newGone, oldGone) => At(s, c, Rollback) && s.clients[c].op.PublishCrate?
  }

  /** A request as it comes in: `access_crate` refuses a bad name before it touches the table. */
  function NewClient(op: Op, born: nat): Client {
    var key := ToLower(CrateNameOf(op));
    var path := MetaPath(key);
    if path.None? then
      Client(op, key, "", Done, 0, IndexFile([], None), false, Failed(CrateNameNotAllowed), born, born)
    else
      Client(op, key, path.value, Calling, 0, IndexFile([], None), false, Pending, born, born)
  }

  /** The request after it read its file: an update goes on with a draft, anything else has its result. */
  function Pulled(client: Client, verdict: Verdict, now: nat): Client {
    match verdict
    case Commit(file) => client.(pc := if client.op.PublishCrate? then Editing else Ready, draft := file)
    case Answer(file) => client.(pc := Leaving, outcome := Answered(file), at := now)
    case Refuse(error) => client.(pc := Leaving, outcome := Failed(error), at := now)
  }

  /** A client's own change in a step; the shared state is in `Do`. */
  function Moved(s: State, step: Step): Client
    requires Enabled(s, step)
  {
    match step
    case Begin(_, op) => NewClient(op, |s.log|)
    case Lookup(c) =>
      var client := s.clients[c];
      client.(pc := Waiting, lock := LockFor(s.table, Alive(s.clients), client.key, s.nextLock))
    case Acquire(c) => s.clients[c].(pc := Locked)
    case Pull(c, ok) =>
      var client := s.clients[c];
      if !ok then client.(pc := Leaving, outcome := Failed(ServiceError))
      else Pulled(client, Judge(View(s.files, GuardedPath(s, client.lock)), client.op), |s.log|)
    case Upload(c, _, ok) =>
      if ok then s.clients[c].(pc := Ready, stored := true)
      else s.clients[c].(pc := Leaving, outcome := Failed(ServiceError))
    case Put(c, ok) =>
      if ok then s.clients[c].(pc := Leaving, outcome := Committed, at := |s.log|)
      else s.clients[c].(pc := Leaving, outcome := Failed(ServiceError))
    case Cancel(c) =>
      var client := s.clients[c];
      if client.pc == Rollback then client.(pc := Done)
      else client.(pc := if client.pc == Waiting then Unlocked else Leaving, outcome := Cancelled)
    case Release(c) => s.clients[c].(pc := Unlocked)
    case TakeArc(c) => s.clients[c].(pc := Dropped)
    case OnUnlocked(c) =>
      var client := s.clients[c];
      client.(pc := if client.stored && client.outcome.Failed? then Rollback else Done)
    case DeleteTarball(c, _, _) => s.clients[c].(pc := Done)
  }

  function Do(s: State, step: Step): State
    requires Enabled(s, step)
  {
    var s' := s.(clients := s.clients[step.c := Moved(s, step)]);
    match step
    case Lookup(c) =>
      var client := s.clients[c];
      var lock := s'.clients[c].lock;
      s'.(table := TableAfterLookup(s.table, Alive(s.clients), client.key, s.nextLock),
          paths := if lock == s.nextLock then s.paths[lock := client.path] else s.paths,
          nextLock := if lock == s.nextLock then s.nextLock + 1 else s.nextLock)
    case Upload(c, written, _) =>
      if written then s'.(bucket := s.bucket[NewTarballPath(s.clients[c].op) := s.clients[c].op.tarball]) else s'
    case Put(c, ok) =>
      var client := s.clients[c];
      if ok then
        s'.(files := s.files[GuardedPath(s, client.lock) := client.draft],
            log := s.log + [Event(c, GuardedPath(s, client.lock), client.op)])
      else s'
    case OnUnlocked(c) =>
      s'.(table := TableAfterUnlock(s.table, Alive(s.clients), s.clients[c].key))
    case DeleteTarball(c, newGone, oldGone) =>
      var op := s.clients[c].op;
      s'.(bucket := Storage.AfterDelete(s.bucket, NewTarballPath(op), OldTarballPath(op), newGone, oldGone))
    case _ => s'
  }

  /** One client moves in a step, the others stay. */
  lemma StepMovesOne(s: State, step: Step)
    requires Enabled(s, step)
    ensures Do(s, step).clients == s.clients[step.c := Moved(s, step)]
  {
  }

  /** The state a run of steps leads to, from an empty registry; None if a step was not possible. */
  function After(steps: seq<Step>): Option<State> {
    if steps == [] then Some(INITIAL)
    else
      var n := |steps| - 1;
      var before := After(steps[..n]);
      if before.Some? && Enabled(before.value, steps[n]) then Some(Do(before.value, steps[n])) else None
  }

  lemma FrontRuns(steps: seq<Step>)
    requires After(steps).Some? && steps != []
    ensures var before, last := After(steps[..|steps| - 1]), steps[|steps| - 1];
            before.Some? && Enabled(before.value, last) && After(steps).value == Do(before.value, last)
  {
  }
}
