/** What each request does to the releases Postgres has committed, when nothing fails. */
module PgOps {
  import opened IndexOps
  import opened PgTables
  import opened RegistryTypes
  import opened Wrappers

  function KeyOfOp(op: Op): Key
    requires IsWriter(op)
  {
    ReleaseKey(CrateNameOf(op), if op.PublishCrate? then op.publish.vers else op.vers)
  }

  /** A publication needs a version that is not there, a yank one that is. */
  predicate PgAccepts(committed: map<Key, CrateVersion>, op: Op) {
    match op
    case PublishCrate(_, _, _) => KeyOfOp(op) !in committed
    case SetYank(_, _, _) => KeyOfOp(op) in committed
    case ReadEntries(_) => false
  }

  /** Which parts of a publication's transaction get through: the statements before the version row, its insert, those
      after it, and the commit. */
  datatype Transaction = Transaction(crateOk: bool, insertOk: bool, rowsOk: bool, commitOk: bool)

  /** Why a publication does not get as far as its end step, if so. Whatever goes wrong with the version row is called a
      conflict. */
  function Refusal(accepted: bool, tx: Transaction): Option<IndexError> {
    if !tx.crateOk then Some(ServiceError)
    else if !accepted || !tx.insertOk then Some(Conflict)
    else if !tx.rowsOk then Some(ServiceError)
    else None
  }

  function PublishResult(refusal: Option<IndexError>, endStepOk: bool, tx: Transaction): Result<(), IndexError> {
    if refusal.Some? then Err(refusal.value)
    else if endStepOk && tx.commitOk then Ok(())
    else Err(ServiceError)
  }

  function Yanked(committed: map<Key, CrateVersion>, key: Key, val: bool): map<Key, CrateVersion>
    requires key in committed
  {
    committed[key := committed[key].(yanked := val)]
  }

  function PgDoes(committed: map<Key, CrateVersion>, op: Op): map<Key, CrateVersion> {
    if !PgAccepts(committed, op) then committed
    else if op.PublishCrate? then committed[KeyOfOp(op) := StoredRelease(op.publish, op.cksum)]
    else Yanked(committed, KeyOfOp(op), op.yank)
  }
}
